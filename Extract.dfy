/**
  `get_seqs` of fastqsearch.py (lines 10-28): the decompressed file arrives
  as a sequence of chunks, each appended to a byte buffer; the buffer is
  scanned for records, the records are collected in batches of 1000, and
  the buffer is cut after the end of the match bound last.

  `ScanFrom` is the pure state machine of the `while True` loop, `Batched`
  the batching, and `GetSeqs` the loop itself, proved against both.
 */
module Extract {
  import opened Base
  import opened Pattern

  /** How many records make one yielded batch (line 22). */
  const BATCH_SIZE: nat := 1000

  /** `f.read(...)` for the `k`-th time: the next chunk, or nothing once the
      chunks are exhausted. */
  function ReadChunk(chunks: seq<Bytes>, k: nat): (c: Bytes)
    ensures k >= |chunks| ==> c == []
  {
    if k < |chunks| then chunks[k] else []
  }

  /** The records the loop of lines 16-26 still extracts when `k` chunks
      have been read, the buffer holds `data`, and `last` is the `end()` of
      the match the name `m` is bound to (`None` while it is unbound).
      A buffer without a match is cut at that stale end; when no match was
      ever bound, line 26 fails. */
  function ScanFrom(chunks: seq<Bytes>, k: nat, data: Bytes, last: Option<nat>): Result<seq<Bytes>>
    requires k <= |chunks|
    requires last.Some? ==> last.value > 0
    decreases |chunks| - k, |data|
  {
    var buf := data + ReadChunk(chunks, k);
    var next := if k < |chunks| then k + 1 else k;
    if |buf| == 0 then Ok([])
    else
      var last' := if MatchesFrom(buf, 0) == [] then last else Some(EndOf(buf, 0));
      match last'
      case None => Err(UnboundLastMatch)
      case Some(e) =>
        match ScanFrom(chunks, next, Drop(buf, e), last')
        case Err(f) => Err(f)
        case Ok(tail) => Ok(Records(buf) + tail)
  }

  /** The records `xs` followed by those of `r`, if `r` is not a failure. */
  function Prepend(xs: seq<Bytes>, r: Result<seq<Bytes>>): Result<seq<Bytes>>
  {
    match r
    case Ok(v) => Ok(xs + v)
    case Err(f) => Err(f)
  }

  /** All records `get_seqs` extracts, in order, or the failure it ends in. */
  function Scan(chunks: seq<Bytes>): Result<seq<Bytes>>
  {
    ScanFrom(chunks, 0, [], None)
  }

  /** Once a match was bound, line 26 never fails again. */
  lemma {:induction false} ScanFromBoundOk(chunks: seq<Bytes>, k: nat, data: Bytes, e: nat)
    requires k <= |chunks| && e > 0
    ensures ScanFrom(chunks, k, data, Some(e)).Ok?
    decreases |chunks| - k, |data|
  {
    var buf := data + ReadChunk(chunks, k);
    var next := if k < |chunks| then k + 1 else k;
    if |buf| > 0 {
      var e' := if MatchesFrom(buf, 0) == [] then e else EndOf(buf, 0);
      ScanFromBoundOk(chunks, next, Drop(buf, e'), e');
    }
  }

  /** `get_seqs` fails exactly when the first chunk is not empty and holds
      no complete record; an empty input yields nothing. */
  lemma ScanFails(chunks: seq<Bytes>)
    ensures Scan(chunks).Err? <==>
      |chunks| > 0 && chunks[0] != [] && Records(chunks[0]) == []
    ensures Scan(chunks).Err? ==> Scan(chunks).error == UnboundLastMatch
    ensures chunks == [] || chunks[0] == [] ==> Scan(chunks) == Ok([])
  {
    if |chunks| > 0 && chunks[0] != [] {
      var buf := [] + chunks[0];
      assert buf == chunks[0];
      if Records(buf) != [] {
        ScanFromBoundOk(chunks, 1, Drop(buf, EndOf(buf, 0)), EndOf(buf, 0));
      }
    }
  }

  /** Once the chunks are exhausted, a buffer without a match yields
      nothing more: it only shrinks until it is empty. */
  lemma {:induction false} ExhaustedScan(chunks: seq<Bytes>, data: Bytes, e: nat)
    requires e > 0 && MatchesFrom(data, 0) == []
    ensures ScanFrom(chunks, |chunks|, data, Some(e)) == Ok([])
    decreases |data|
  {
    var k := |chunks|;
    assert data + ReadChunk(chunks, k) == data;
    if |data| > 0 {
      NoMatchInSuffix(data, e);
      ExhaustedScan(chunks, Drop(data, e), e);
    }
  }

  // ---------------------------------------------------------------------
  // Chunk boundaries that split no record
  // ---------------------------------------------------------------------

  /** Reading chunk `t` completes at least one more record of the input. */
  ghost predicate CompletesRecord(chunks: seq<Bytes>, t: nat)
    requires t < |chunks|
  {
    |Records(Flatten(chunks[..t]))| < |Records(Flatten(chunks[..t + 1]))|
  }

  /** Every chunk but the last completes a record, and a lone chunk is empty
      or holds one. This is what 40 MiB chunks of a FASTQ file look like. */
  ghost predicate WellChunked(chunks: seq<Bytes>)
  {
    && (forall t :: 0 <= t < |chunks| - 1 ==> CompletesRecord(chunks, t))
    && (|chunks| == 1 ==> chunks[0] == [] || Records(chunks[0]) != [])
  }

  lemma FlattenPrefix(chunks: seq<Bytes>, k: nat)
    requires k < |chunks|
    ensures Flatten(chunks[..k + 1]) == Flatten(chunks[..k]) + chunks[k]
  {
    assert chunks[..k + 1] == chunks[..k] + [chunks[k]];
    FlattenSnoc(chunks[..k], chunks[k]);
  }

  lemma RecordsEmpty()
    ensures Records([]) == []
  {
    assert FindMatch([], 0).None?;
  }

  /** One pass of the loop once `m` is bound to a match ending at `e`. */
  lemma ScanFromBound(chunks: seq<Bytes>, k: nat, data: Bytes, e: nat)
    requires k <= |chunks| && e > 0
    ensures var buf := data + ReadChunk(chunks, k);
      var next := if k < |chunks| then k + 1 else k;
      var e' := if MatchesFrom(buf, 0) == [] then e else EndOf(buf, 0);
      && e' > 0
      && ScanFrom(chunks, k, data, Some(e)) ==
        if |buf| == 0 then Ok([])
        else Prepend(Records(buf), ScanFrom(chunks, next, Drop(buf, e'), Some(e')))
  {
  }

  /** The buffer left after cutting at the last match holds no match. */
  lemma RestHasNoMatch(d: Bytes)
    ensures MatchesFrom(d[EndOf(d, 0)..], 0) == []
  {
    EndOfLastMatch(d, 0);
    MatchesShift(d, EndOf(d, 0), 0);
  }

  /** After `k >= 1` chunks, the buffer is the input read so far cut after
      its last match; from there the loop yields exactly the records of the
      whole input that the part read so far does not hold. */
  lemma {:induction false} ScanTail(chunks: seq<Bytes>, k: nat, e: nat)
    requires 1 <= k <= |chunks| && e > 0
    requires forall t :: k <= t < |chunks| - 1 ==> CompletesRecord(chunks, t)
    ensures var d := Flatten(chunks[..k]);
      var r := ScanFrom(chunks, k, d[EndOf(d, 0)..], Some(e));
      r.Ok? && Records(d) + r.value == Records(Flatten(chunks))
    decreases |chunks| - k, 2
  {
    var d := Flatten(chunks[..k]);
    var data := d[EndOf(d, 0)..];
    if k == |chunks| {
      assert chunks[..k] == chunks;
      RestHasNoMatch(d);
      ExhaustedScan(chunks, data, e);
    } else {
      ScanStepTail(chunks, k, e);
    }
  }

  /** The inductive step of `ScanTail`, for a chunk that is still unread. */
  lemma {:induction false} ScanStepTail(chunks: seq<Bytes>, k: nat, e: nat)
    requires 1 <= k < |chunks| && e > 0
    requires forall t :: k <= t < |chunks| - 1 ==> CompletesRecord(chunks, t)
    ensures var d := Flatten(chunks[..k]);
      var r := ScanFrom(chunks, k, d[EndOf(d, 0)..], Some(e));
      r.Ok? && Records(d) + r.value == Records(Flatten(chunks))
    decreases |chunks| - k, 1
  {
    var d := Flatten(chunks[..k]);
    var buf := d[EndOf(d, 0)..] + chunks[k];
    if MatchesFrom(buf, 0) == [] {
      ScanStepNoMatch(chunks, k, e);
    } else {
      ScanStepMatch(chunks, k, e, d, d[EndOf(d, 0)..], buf);
    }
  }

  lemma ScanStepNoMatch(chunks: seq<Bytes>, k: nat, e: nat)
    requires 1 <= k < |chunks| && e > 0
    requires forall t :: k <= t < |chunks| - 1 ==> CompletesRecord(chunks, t)
    requires var d := Flatten(chunks[..k]);
      MatchesFrom(d[EndOf(d, 0)..] + chunks[k], 0) == []
    ensures var d := Flatten(chunks[..k]);
      var r := ScanFrom(chunks, k, d[EndOf(d, 0)..], Some(e));
      r.Ok? && Records(d) + r.value == Records(Flatten(chunks))
  {
    var d := Flatten(chunks[..k]);
    var data := d[EndOf(d, 0)..];
    var buf := data + chunks[k];
    var d' := Flatten(chunks[..k + 1]);
    FlattenPrefix(chunks, k);
    ChunkStep(d, chunks[k]);
    RecordsEmpty();
    assert Records(buf) == [];
    assert Records(d') == Records(d);
    assert !CompletesRecord(chunks, k);
    assert chunks[..k + 1] == chunks;
    StepWithoutMatch(chunks, k, data, e);
    assert Records(d) + [] == Records(d);
  }

  lemma {:induction false} ScanStepMatch(chunks: seq<Bytes>, k: nat, e: nat, d: Bytes, data: Bytes, buf: Bytes)
    requires 1 <= k < |chunks| && e > 0
    requires forall t :: k <= t < |chunks| - 1 ==> CompletesRecord(chunks, t)
    requires d == Flatten(chunks[..k]) && data == d[EndOf(d, 0)..] && buf == data + chunks[k]
    requires MatchesFrom(buf, 0) != []
    ensures ScanFrom(chunks, k, data, Some(e)).Ok?
    ensures Records(d) + ScanFrom(chunks, k, data, Some(e)).value == Records(Flatten(chunks))
    decreases |chunks| - k, 0
  {
    var d' := Flatten(chunks[..k + 1]);
    var e' := EndOf(buf, 0);
    NextBuffer(chunks, k, d, buf, d');
    var r1 := ScanFrom(chunks, k, data, Some(e));
    var r2 := ScanFrom(chunks, k + 1, Drop(buf, e'), Some(e'));
    StepWithMatch(chunks, k, data, e);
    TailAfter(chunks, k + 1, e', d', Drop(buf, e'));
    PrependOk(Records(d), Records(buf), r1, r2, Records(Flatten(chunks)));
  }

  /** `ScanTail` with the buffer passed in. */
  lemma {:induction false} TailAfter(chunks: seq<Bytes>, k: nat, e: nat, d: Bytes, data: Bytes)
    requires 1 <= k <= |chunks| && e > 0
    requires forall t :: k <= t < |chunks| - 1 ==> CompletesRecord(chunks, t)
    requires d == Flatten(chunks[..k]) && data == d[EndOf(d, 0)..]
    ensures ScanFrom(chunks, k, data, Some(e)).Ok?
    ensures Records(d) + ScanFrom(chunks, k, data, Some(e)).value == Records(Flatten(chunks))
    decreases |chunks| - k, 3
  {
    ScanTail(chunks, k, e);
  }

  /** The buffer after reading chunk `k`, in terms of the input read so far. */
  lemma NextBuffer(chunks: seq<Bytes>, k: nat, d: Bytes, buf: Bytes, d': Bytes)
    requires k < |chunks| && d == Flatten(chunks[..k]) && d' == Flatten(chunks[..k + 1])
    requires buf == d[EndOf(d, 0)..] + chunks[k]
    ensures Drop(buf, EndOf(buf, 0)) == d'[EndOf(d', 0)..]
    ensures Records(d') == Records(d) + Records(buf)
  {
    FlattenPrefix(chunks, k);
    ChunkStep(d, chunks[k]);
  }

  /** Gluing two passes of the loop together. */
  lemma PrependOk(xs: seq<Bytes>, ys: seq<Bytes>, r1: Result<seq<Bytes>>, r2: Result<seq<Bytes>>, total: seq<Bytes>)
    requires r1 == Prepend(ys, r2) && r2.Ok? && (xs + ys) + r2.value == total
    ensures r1.Ok? && xs + r1.value == total
  {
    assert xs + (ys + r2.value) == (xs + ys) + r2.value;
  }

  /** Reading the last chunk completes no record: nothing more is yielded. */
  lemma StepWithoutMatch(chunks: seq<Bytes>, k: nat, data: Bytes, e: nat)
    requires k + 1 == |chunks| && e > 0
    requires MatchesFrom(data + chunks[k], 0) == []
    ensures ScanFrom(chunks, k, data, Some(e)) == Ok([])
  {
    var buf := data + chunks[k];
    ScanFromBound(chunks, k, data, e);
    if |buf| > 0 {
      NoMatchInSuffix(buf, e);
      ExhaustedScan(chunks, Drop(buf, e), e);
    }
  }

  /** Reading a chunk that completes records yields them, then goes on from
      the bytes after the last of them. */
  lemma StepWithMatch(chunks: seq<Bytes>, k: nat, data: Bytes, e: nat)
    requires k < |chunks| && e > 0
    requires MatchesFrom(data + chunks[k], 0) != []
    ensures EndOf(data + chunks[k], 0) > 0
    ensures var buf := data + chunks[k];
      var e' := EndOf(buf, 0);
      ScanFrom(chunks, k, data, Some(e)) ==
        Prepend(Records(buf), ScanFrom(chunks, k + 1, Drop(buf, e'), Some(e')))
  {
    ScanFromBound(chunks, k, data, e);
  }

  /** Theorem: when no chunk boundary strands a record, `get_seqs` extracts
      exactly the records of the whole input, each once and whole, in
      order; trailing bytes that never complete the pattern yield nothing. */
  lemma ScanWellChunked(chunks: seq<Bytes>)
    requires WellChunked(chunks)
    ensures Scan(chunks) == Ok(Records(Flatten(chunks)))
  {
    if chunks == [] {
      RecordsEmpty();
    } else if chunks[0] == [] {
      assert !CompletesRecord(chunks, 0) by {
        assert chunks[..0] == [];
        FlattenPrefix(chunks, 0);
      }
      assert chunks == [[]];
      RecordsEmpty();
    } else {
      assert MatchesFrom(chunks[0], 0) != [] by {
        assert chunks[..0] == [];
        FlattenPrefix(chunks, 0);
        assert Flatten(chunks[..1]) == chunks[0];
        RecordsEmpty();
        if |chunks| > 1 {
          assert CompletesRecord(chunks, 0);
        }
      }
      ScanFirstChunk(chunks);
    }
  }

  lemma ScanFirstChunk(chunks: seq<Bytes>)
    requires chunks != [] && MatchesFrom(chunks[0], 0) != []
    requires forall t :: 1 <= t < |chunks| - 1 ==> CompletesRecord(chunks, t)
    ensures Scan(chunks) == Ok(Records(Flatten(chunks)))
  {
    var c := chunks[0];
    var e := EndOf(c, 0);
    var r2 := ScanFrom(chunks, 1, Drop(c, e), Some(e));
    var total := Records(Flatten(chunks));
    assert Scan(chunks) == Prepend(Records(c), r2) by {
      FirstPass(chunks);
    }
    assert r2.Ok? && Records(c) + r2.value == total by {
      assert Flatten(chunks[..1]) == c by {
        assert chunks[..0] == [];
        FlattenPrefix(chunks, 0);
      }
      ScanTail(chunks, 1, e);
    }
    PrependFirst(Records(c), Scan(chunks), r2, total);
  }

  lemma PrependFirst(ys: seq<Bytes>, r1: Result<seq<Bytes>>, r2: Result<seq<Bytes>>, total: seq<Bytes>)
    requires r1 == Prepend(ys, r2) && r2.Ok? && ys + r2.value == total
    ensures r1 == Ok(total)
  {
  }

  /** The first pass of the loop, over a first chunk holding a match. */
  lemma FirstPass(chunks: seq<Bytes>)
    requires chunks != [] && MatchesFrom(chunks[0], 0) != []
    ensures var c := chunks[0];
      var e := EndOf(c, 0);
      Scan(chunks) == Prepend(Records(c), ScanFrom(chunks, 1, Drop(c, e), Some(e)))
  {
    assert [] + ReadChunk(chunks, 0) == chunks[0];
  }

  lemma PrependEmpty(r: Result<seq<Bytes>>)
    ensures Prepend([], r) == r
  {
    match r
    case Ok(v) => assert [] + v == v;
    case Err(_) =>
  }

  // ---------------------------------------------------------------------
  // Batching (lines 21-28)
  // ---------------------------------------------------------------------

  /** The records cut into the batches `get_seqs` yields: full batches of
      `BATCH_SIZE`, then the rest if there is any. */
  function Batched(recs: seq<Bytes>): seq<seq<Bytes>>
    decreases |recs|
  {
    if recs == [] then []
    else if |recs| <= BATCH_SIZE then [recs]
    else [recs[..BATCH_SIZE]] + Batched(recs[BATCH_SIZE..])
  }

  /** The shape of what `get_seqs` yields: every batch but the last is full,
      and the last is non-empty and at most full. */
  ghost predicate WellShaped(bs: seq<seq<Bytes>>)
  {
    && (forall i :: 0 <= i < |bs| - 1 ==> |bs[i]| == BATCH_SIZE)
    && (bs != [] ==> 0 < |bs[|bs| - 1]| <= BATCH_SIZE)
  }

  /** Batching loses, adds and reorders no record, and yields batches of
      the promised shape; no records means no batch. */
  lemma {:induction false} BatchedShape(recs: seq<Bytes>)
    ensures Flatten(Batched(recs)) == recs
    ensures WellShaped(Batched(recs))
    ensures Batched(recs) == [] <==> recs == []
    decreases |recs|
  {
    if |recs| > BATCH_SIZE {
      var head := recs[..BATCH_SIZE];
      var tail := recs[BATCH_SIZE..];
      BatchedShape(tail);
      var bs := Batched(recs);
      assert bs == [head] + Batched(tail);
      assert bs[1..] == Batched(tail);
      assert recs == head + tail;
      forall i | 0 <= i < |bs| - 1 ensures |bs[i]| == BATCH_SIZE {
        if i > 0 {
          assert bs[i] == Batched(tail)[i - 1];
        }
      }
    } else if recs != [] {
      assert Batched(recs)[1..] == [];
    }
  }

  /** `Batched` inverts flattening on well-shaped batches: the batches are
      determined by the records they hold. */
  lemma {:induction false} BatchedInverse(bs: seq<seq<Bytes>>)
    requires WellShaped(bs)
    ensures Batched(Flatten(bs)) == bs
    decreases |bs|
  {
    if |bs| == 1 {
      assert Flatten(bs) == bs[0] + Flatten(bs[1..]);
      assert bs[1..] == [];
      assert Flatten(bs) == bs[0];
      assert bs == [bs[0]];
    } else if |bs| > 1 {
      var tail := bs[1..];
      assert WellShaped(tail) by {
        forall i | 0 <= i < |tail| - 1 ensures |tail[i]| == BATCH_SIZE {
          assert tail[i] == bs[i + 1];
        }
        assert tail[|tail| - 1] == bs[|bs| - 1];
      }
      BatchedInverse(tail);
      var recs := Flatten(bs);
      assert recs == bs[0] + Flatten(tail);
      assert |bs[0]| == BATCH_SIZE;
      if Flatten(tail) == [] {
        BatchedShape(Flatten(tail));
      }
      assert Flatten(tail) != [];
      assert recs[..BATCH_SIZE] == bs[0];
      assert recs[BATCH_SIZE..] == Flatten(tail);
    }
  }

  lemma PrependPrepend(xs: seq<Bytes>, ys: seq<Bytes>, r: Result<seq<Bytes>>)
    ensures Prepend(xs, Prepend(ys, r)) == Prepend(xs + ys, r)
  {
    match r
    case Ok(v) => assert xs + (ys + v) == (xs + ys) + v;
    case Err(_) =>
  }

  /** One pass of the `while True` loop, whatever `m` is bound to. */
  lemma ScanFromPass(chunks: seq<Bytes>, k: nat, data: Bytes, last: Option<nat>)
    requires k <= |chunks|
    requires last.Some? ==> last.value > 0
    ensures var buf := data + ReadChunk(chunks, k);
      var next := if k < |chunks| then k + 1 else k;
      var last' := if MatchesFrom(buf, 0) == [] then last else Some(EndOf(buf, 0));
      && (last'.Some? ==> last'.value > 0)
      && ScanFrom(chunks, k, data, last) ==
        if |buf| == 0 then Ok([])
        else if last'.None? then Err(UnboundLastMatch)
        else Prepend(Records(buf), ScanFrom(chunks, next, Drop(buf, last'.value), last'))
  {
  }

  /** Every batch in `bs` is full. */
  ghost predicate Full(bs: seq<seq<Bytes>>)
  {
    forall i :: 0 <= i < |bs| ==> |bs[i]| == BATCH_SIZE
  }

  /** Lines 20-25 for one record: append it, and yield the batch once it
      holds `BATCH_SIZE` records. */
  method AddRecord(batches0: seq<seq<Bytes>>, seqs0: seq<Bytes>, size0: nat, rec: Bytes)
    returns (batches: seq<seq<Bytes>>, seqs: seq<Bytes>, size: nat)
    requires Full(batches0) && size0 == |seqs0| < BATCH_SIZE
    ensures Full(batches) && size == |seqs| < BATCH_SIZE
    ensures Flatten(batches) + seqs == Flatten(batches0) + seqs0 + [rec]
    ensures |batches| == |batches0| + (if size0 + 1 == BATCH_SIZE then 1 else 0)
  {
    batches, seqs, size := batches0, seqs0 + [rec], size0 + 1;
    if size % BATCH_SIZE == 0 {
      FlattenSnoc(batches, seqs);
      batches := batches + [seqs];
      size := 0;
      seqs := [];
    }
  }

  /** Moving one element from the unread part to the read part. */
  lemma Regroup<T>(acc: seq<T>, acc': seq<T>, base: seq<T>, added: seq<T>, x: T, rest: seq<T>, whole: seq<T>)
    requires acc == base + added && acc' == acc + [x]
    requires added + ([x] + rest) == whole
    ensures acc' == base + (added + [x])
    ensures (added + [x]) + rest == whole
  {
  }

  /** One step of `finditer`: the match found at or after `pos` comes
      first, and the scan goes on from its end. */
  lemma FoundStep(data: Bytes, pos: nat, m: Match)
    requires pos <= |data| && FindMatch(data, pos) == Some(m)
    ensures pos < m.end <= |data|
    ensures Captures(MatchesFrom(data, pos)) == [m.record] + Captures(MatchesFrom(data, m.end))
    ensures EndOf(data, m.end) == EndOf(data, pos)
    ensures pos == 0 ==> MatchesFrom(data, 0) != []
  {
    CapturesCons(m, MatchesFrom(data, m.end));
  }

  /** The `for m in seq_re.finditer(data)` loop of lines 19-25: every record
      of the buffer is added, in order, and `m` ends bound to the last match
      if there was one, and keeps its old binding otherwise. */
  method CollectRecords(data: Bytes, batches0: seq<seq<Bytes>>, seqs0: seq<Bytes>, size0: nat, last0: Option<nat>)
    returns (batches: seq<seq<Bytes>>, seqs: seq<Bytes>, size: nat, last: Option<nat>)
    requires Full(batches0) && size0 == |seqs0| < BATCH_SIZE
    ensures Full(batches) && size == |seqs| < BATCH_SIZE
    ensures Flatten(batches) + seqs == Flatten(batches0) + seqs0 + Records(data)
    ensures last == if MatchesFrom(data, 0) == [] then last0 else Some(EndOf(data, 0))
  {
    batches, seqs, size, last := batches0, seqs0, size0, last0;
    var pos: nat := 0;
    ghost var added: seq<Bytes> := [];
    while true
      invariant pos <= |data|
      invariant Full(batches) && size == |seqs| < BATCH_SIZE
      invariant Flatten(batches) + seqs == Flatten(batches0) + seqs0 + added
      invariant added + Captures(MatchesFrom(data, pos)) == Records(data)
      invariant EndOf(data, pos) == EndOf(data, 0)
      invariant (pos == 0 && last == last0) || (0 < pos && last == Some(pos) && MatchesFrom(data, 0) != [])
      decreases |data| - pos
    {
      var found := FindMatch(data, pos);
      if found.None? {
        break;
      }
      var m := found.value;
      FoundStep(data, pos, m);
      ghost var acc := Flatten(batches) + seqs;
      batches, seqs, size := AddRecord(batches, seqs, size, m.record);
      Regroup(acc, Flatten(batches) + seqs, Flatten(batches0) + seqs0, added, m.record,
        Captures(MatchesFrom(data, m.end)), Records(data));
      added := added + [m.record];
      last := Some(m.end);
      pos := m.end;
    }
    assert Captures(MatchesFrom(data, pos)) == [];
    assert added == Records(data);
  }

  /** The generator `get_seqs` run to completion: the batches it yields, in
      order, or the failure it stops with. */
  method GetSeqs(chunks: seq<Bytes>) returns (r: Result<seq<seq<Bytes>>>)
    ensures Scan(chunks).Err? ==> r == Err(Scan(chunks).error)
    ensures Scan(chunks).Ok? ==> r == Ok(Batched(Scan(chunks).value))
  {
    var data: Bytes := [];
    var k: nat := 0;                 // chunks read so far
    var last: Option<nat> := None;   // `m.end()`, or None while `m` is unbound
    var batches: seq<seq<Bytes>> := [];
    var seqs: seq<Bytes> := [];
    var size: nat := 0;
    assert Flatten(batches) + seqs == [];
    PrependEmpty(Scan(chunks));
    while true
      invariant k <= |chunks|
      invariant last.Some? ==> last.value > 0
      invariant Full(batches) && size == |seqs| < BATCH_SIZE
      invariant Prepend(Flatten(batches) + seqs, ScanFrom(chunks, k, data, last)) == Scan(chunks)
      decreases |chunks| - k, |data|
    {
      ghost var rest := ScanFrom(chunks, k, data, last);
      ghost var acc := Flatten(batches) + seqs;
      ScanFromPass(chunks, k, data, last);
      data := data + ReadChunk(chunks, k);
      if k < |chunks| {
        k := k + 1;
      }
      if |data| == 0 {
        break;
      }
      ghost var buf := data;
      batches, seqs, size, last := CollectRecords(data, batches, seqs, size, last);
      if last.None? {
        assert rest == Err(UnboundLastMatch);
        return Err(UnboundLastMatch);
      }
      data := Drop(data, last.value);
      assert rest == Prepend(Records(buf), ScanFrom(chunks, k, data, last));
      PrependPrepend(acc, Records(buf), ScanFrom(chunks, k, data, last));
    }
    assert Scan(chunks) == Ok(Flatten(batches) + seqs) by {
      assert Flatten(batches) + seqs + [] == Flatten(batches) + seqs;
    }
    ghost var full := batches;
    if seqs != [] {
      batches := batches + [seqs];
      FlattenSnoc(full, seqs);
    } else {
      assert Flatten(batches) + seqs == Flatten(batches);
    }
    assert Scan(chunks).value == Flatten(batches);
    BatchedInverse(batches);
    r := Ok(batches);
  }

  // ---------------------------------------------------------------------
  // Line 26 with the stale match, and as evidently intended
  // ---------------------------------------------------------------------

  /** Line 26 as written: a buffer without a match is cut at the end of the
      previous buffer's last match. Here the second chunk finishes only the
      header line of a record, the stale end 4 cuts the whole buffer away
      and the record `C` is never yielded, though the input holds it. */
  lemma StaleEndDropsRecord()
    ensures var chunks: seq<Bytes> := [[64, 10, 65, 10, 64], [10], [67, 10]];
      && Scan(chunks) == Ok([[65]])
      && Records(Flatten(chunks)) == [[65], [67]]
  {
    var chunks: seq<Bytes> := [[64, 10, 65, 10, 64], [10], [67, 10]];
    assert Flatten(chunks) == [64, 10, 65, 10, 64, 10, 67, 10] by {
      assert Flatten(chunks[2..]) == [67, 10] + Flatten(chunks[3..]);
      assert chunks[1..][1..] == chunks[2..];
    }
    ExampleInput();
    ExampleLaterPasses(chunks);
    var b1: Bytes := [64, 10, 65, 10, 64];
    assert ScanFrom(chunks, 0, [], None) == Ok([[65]]) by {
      ExampleFirstBuffer();
      ScanFromPass(chunks, 0, [], None);
      assert [] + ReadChunk(chunks, 0) == b1;
      assert Drop(b1, 4) == [64];
      assert Prepend([[65]], Ok([])) == Ok([[65]]);
    }
  }

  /** After the first pass of the example, nothing more is yielded. */
  lemma ExampleLaterPasses(chunks: seq<Bytes>)
    requires chunks == [[64, 10, 65, 10, 64], [10], [67, 10]]
    ensures ScanFrom(chunks, 1, [64], Some(4)) == Ok([])
  {
    ExampleLaterBuffers();
    assert ScanFrom(chunks, 3, [], Some(4)) == Ok([]);
    assert ScanFrom(chunks, 2, [], Some(4)) == Ok([]) by {
      ScanFromPass(chunks, 2, [], Some(4));
      assert [] + ReadChunk(chunks, 2) == [67, 10];
    }
    ScanFromPass(chunks, 1, [64], Some(4));
    assert [64] + ReadChunk(chunks, 1) == [64, 10];
  }

  /** `@\nA\n@\nC\n` holds the records `A` and `C`. */
  lemma ExampleInput()
    ensures Records([64, 10, 65, 10, 64, 10, 67, 10]) == [[65], [67]]
  {
    var d: Bytes := [64, 10, 65, 10, 64, 10, 67, 10];
    var m1 := Match(0, 1, 4, [65]);
    var m2 := Match(4, 5, 8, [67]);
    assert FindMatch(d, 0) == Some(m1) by {
      assert NextNewline(d, 1) == Some(1);
      assert NextNewline(d, 3) == Some(3);
      assert NextNewline(d, 2) == Some(3);
      assert d[2..3] == [65];
    }
    assert FindMatch(d, 4) == Some(m2) by {
      assert NextNewline(d, 5) == Some(5);
      assert NextNewline(d, 7) == Some(7);
      assert NextNewline(d, 6) == Some(7);
      assert d[6..7] == [67];
    }
    assert MatchesFrom(d, 8) == [];
    assert MatchesFrom(d, 0) == [m1, m2];
  }

  /** `@\nA\n@` holds the record `A`, and its last match ends at 4. */
  lemma ExampleFirstBuffer()
    ensures var b: Bytes := [64, 10, 65, 10, 64];
      && MatchesFrom(b, 0) != [] && EndOf(b, 0) == 4 && Records(b) == [[65]]
  {
    var b: Bytes := [64, 10, 65, 10, 64];
    var m1 := Match(0, 1, 4, [65]);
    assert FindMatch(b, 0) == Some(m1) by {
      assert NextNewline(b, 1) == Some(1);
      assert NextNewline(b, 3) == Some(3);
      assert NextNewline(b, 2) == Some(3);
      assert b[2..3] == [65];
    }
    assert FindMatch(b, 4).None? by {
      assert NextNewline(b, 5).None?;
      assert MatchAt(b, 4).None?;
    }
    assert MatchesFrom(b, 0) == [m1];
  }

  /** Line 26 as written can also yield a record the input does not hold.
      For the chunks `@\nA\n`, `@xy\n@b`, `\nX\nY\n`: the second buffer has
      no match, the stale end 4 keeps only `@b`, and the third pass reads
      `@b\nX\n` as a record `X`; the whole input holds `A` and `@b`. */
  lemma StaleEndInventsRecord(chunks: seq<Bytes>)
    requires chunks == [[64, 10, 65, 10], [64, 120, 121, 10, 64, 98], [10, 88, 10, 89, 10]]
    ensures Scan(chunks) == Ok([[65], [88]])
    ensures Records(Flatten(chunks)) == [[65], [64, 98]]
  {
    InventedInput(chunks);
    InventedLaterPasses(chunks);
    var b1: Bytes := [64, 10, 65, 10];
    InventedFirstBuffer();
    ScanFromPass(chunks, 0, [], None);
    assert [] + ReadChunk(chunks, 0) == b1;
    assert Drop(b1, 4) == [];
    var x: seq<Bytes> := [[88]];
    assert Records(b1) + x == [[65], [88]];
  }

  /** After the first pass of the example, only the invented `X` is yielded. */
  lemma InventedLaterPasses(chunks: seq<Bytes>)
    requires chunks == [[64, 10, 65, 10], [64, 120, 121, 10, 64, 98], [10, 88, 10, 89, 10]]
    ensures ScanFrom(chunks, 1, [], Some(4)) == Ok([[88]])
  {
    InventedThirdPass(chunks);
    var b2: Bytes := [64, 120, 121, 10, 64, 98];
    InventedSecondBuffer();
    ScanFromPass(chunks, 1, [], Some(4));
    assert [] + ReadChunk(chunks, 1) == b2;
    assert Drop(b2, 4) == [64, 98];
    var x: seq<Bytes> := [[88]];
    assert Records(b2) + x == x;
  }

  lemma InventedThirdPass(chunks: seq<Bytes>)
    requires chunks == [[64, 10, 65, 10], [64, 120, 121, 10, 64, 98], [10, 88, 10, 89, 10]]
    ensures ScanFrom(chunks, 2, [64, 98], Some(4)) == Ok([[88]])
  {
    InventedAfterEnd(chunks);
    var b3: Bytes := [64, 98, 10, 88, 10, 89, 10];
    InventedThirdBuffer();
    assert [64, 98] + chunks[2] == b3;
    StepWithMatch(chunks, 2, [64, 98], 4);
    assert Drop(b3, 5) == [89, 10];
    var x: seq<Bytes> := [];
    assert Records(b3) + x == [[88]];
  }

  lemma InventedAfterEnd(chunks: seq<Bytes>)
    requires chunks == [[64, 10, 65, 10], [64, 120, 121, 10, 64, 98], [10, 88, 10, 89, 10]]
    ensures ScanFrom(chunks, 3, [89, 10], Some(5)) == Ok([])
  {
    assert ScanFrom(chunks, 3, [], Some(5)) == Ok([]);
    var y: Bytes := [89, 10];
    assert FindMatch(y, 0).None?;
    ScanFromPass(chunks, 3, [89, 10], Some(5));
    assert [89, 10] + ReadChunk(chunks, 3) == [89, 10];
    assert Drop([89, 10], 5) == [];
  }

  /** `@\nA\n` holds the record `A`, and its last match ends at 4. */
  lemma InventedFirstBuffer()
    ensures var b: Bytes := [64, 10, 65, 10];
      && MatchesFrom(b, 0) != [] && EndOf(b, 0) == 4 && Records(b) == [[65]]
  {
    var b: Bytes := [64, 10, 65, 10];
    var m1 := Match(0, 1, 4, [65]);
    assert FindMatch(b, 0) == Some(m1) by {
      assert NextNewline(b, 1) == Some(1);
      assert NextNewline(b, 3) == Some(3);
      assert NextNewline(b, 2) == Some(3);
      assert b[2..3] == [65];
    }
    assert FindMatch(b, 4).None?;
    assert MatchesFrom(b, 0) == [m1];
  }

  /** `@xy\n@b` holds no match. */
  lemma InventedSecondBuffer()
    ensures MatchesFrom([64, 120, 121, 10, 64, 98], 0) == []
  {
    var b: Bytes := [64, 120, 121, 10, 64, 98];
    assert NextNewline(b, 4).None?;
    assert NextNewline(b, 5).None?;
    assert MatchAt(b, 4).None?;
    assert FindMatch(b, 4).None?;
    assert MatchAt(b, 0).None?;
    assert FindMatch(b, 0).None?;
  }

  /** `@b\nX\nY\n` holds the record `X`, and its match ends at 5. */
  lemma InventedThirdBuffer()
    ensures var b: Bytes := [64, 98, 10, 88, 10, 89, 10];
      && MatchesFrom(b, 0) != [] && EndOf(b, 0) == 5 && Records(b) == [[88]]
  {
    var b: Bytes := [64, 98, 10, 88, 10, 89, 10];
    var m := Match(0, 2, 5, [88]);
    assert FindMatch(b, 0) == Some(m) by {
      assert NextNewline(b, 2) == Some(2);
      assert NextNewline(b, 4) == Some(4);
      assert NextNewline(b, 3) == Some(4);
      assert b[3..4] == [88];
    }
    assert FindMatch(b, 5).None?;
    assert MatchesFrom(b, 0) == [m];
  }

  /** `@\nA\n@xy\n@b\nX\nY\n` holds the records `A` and `@b`. */
  lemma InventedInput(chunks: seq<Bytes>)
    requires chunks == [[64, 10, 65, 10], [64, 120, 121, 10, 64, 98], [10, 88, 10, 89, 10]]
    ensures Records(Flatten(chunks)) == [[65], [64, 98]]
  {
    var d: Bytes := [64, 10, 65, 10, 64, 120, 121, 10, 64, 98, 10, 88, 10, 89, 10];
    InventedChunks(chunks);
    InventedWholeFirst(d);
    InventedWholeSecond(d);
    assert MatchesFrom(d, 0) == [Match(0, 1, 4, [65]), Match(4, 7, 11, [64, 98])];
  }

  lemma InventedChunks(chunks: seq<Bytes>)
    requires chunks == [[64, 10, 65, 10], [64, 120, 121, 10, 64, 98], [10, 88, 10, 89, 10]]
    ensures Flatten(chunks) == [64, 10, 65, 10, 64, 120, 121, 10, 64, 98, 10, 88, 10, 89, 10]
  {
    assert Flatten(chunks[2..]) == chunks[2] + Flatten(chunks[3..]);
    assert chunks[1..][1..] == chunks[2..];
  }

  lemma InventedWholeFirst(d: Bytes)
    requires d == [64, 10, 65, 10, 64, 120, 121, 10, 64, 98, 10, 88, 10, 89, 10]
    ensures FindMatch(d, 0) == Some(Match(0, 1, 4, [65]))
  {
    assert NextNewline(d, 1) == Some(1);
    assert NextNewline(d, 3) == Some(3);
    assert NextNewline(d, 2) == Some(3);
    assert d[2..3] == [65];
  }

  lemma InventedWholeSecond(d: Bytes)
    requires d == [64, 10, 65, 10, 64, 120, 121, 10, 64, 98, 10, 88, 10, 89, 10]
    ensures FindMatch(d, 4) == Some(Match(4, 7, 11, [64, 98]))
    ensures FindMatch(d, 11).None?
  {
    assert NextNewline(d, 7) == Some(7);
    assert NextNewline(d, 5) == Some(7);
    assert NextNewline(d, 10) == Some(10);
    assert NextNewline(d, 8) == Some(10);
    assert d[8..10] == [64, 98];
    assert FindMatch(d, 14).None?;
    assert FindMatch(d, 13).None?;
    assert FindMatch(d, 12).None?;
  }

  /** `@\n` and `C\n` hold no match. */
  lemma ExampleLaterBuffers()
    ensures MatchesFrom([64, 10], 0) == [] && MatchesFrom([67, 10], 0) == []
  {
    var b2: Bytes := [64, 10];
    assert NextNewline(b2, 2).None?;
    assert MatchAt(b2, 0).None?;
    assert FindMatch(b2, 1).None?;
    var b3: Bytes := [67, 10];
    assert FindMatch(b3, 1).None?;
  }

  /** Lines 16-26 as evidently intended: stop at the first empty read, and
      cut the buffer only after a match of the current buffer, so that a
      buffer without a match is kept whole for the next chunk
      (`EndOf(buf, 0)` is 0 then). It never fails. */
  function ScanFixedFrom(chunks: seq<Bytes>, k: nat, data: Bytes): seq<Bytes>
    requires k <= |chunks|
    decreases |chunks| - k
  {
    if k == |chunks| || chunks[k] == [] then []
    else
      var buf := data + chunks[k];
      Records(buf) + ScanFixedFrom(chunks, k + 1, buf[EndOf(buf, 0)..])
  }

  function ScanFixed(chunks: seq<Bytes>): seq<Bytes>
  {
    ScanFixedFrom(chunks, 0, [])
  }

  /** The corrected loop yields every record of the input, each once and
      whole, in order, however the input is cut into (non-empty) chunks. */
  lemma ScanFixedComplete(chunks: seq<Bytes>)
    requires forall t :: 0 <= t < |chunks| ==> chunks[t] != []
    ensures ScanFixed(chunks) == Records(Flatten(chunks))
  {
    assert Flatten(chunks[..0]) == [] by {
      assert chunks[..0] == [];
    }
    assert EndOf([], 0) == 0;
    RecordsEmpty();
    ScanFixedTail(chunks, 0);
  }

  lemma {:induction false} ScanFixedTail(chunks: seq<Bytes>, k: nat)
    requires k <= |chunks|
    requires forall t :: k <= t < |chunks| ==> chunks[t] != []
    ensures var d := Flatten(chunks[..k]);
      Records(d) + ScanFixedFrom(chunks, k, d[EndOf(d, 0)..]) == Records(Flatten(chunks))
    decreases |chunks| - k, 1
  {
    if k == |chunks| {
      assert chunks[..k] == chunks;
      var d := Flatten(chunks[..k]);
      assert Records(d) + [] == Records(d);
    } else {
      ScanFixedStep(chunks, k);
    }
  }

  lemma {:induction false} ScanFixedStep(chunks: seq<Bytes>, k: nat)
    requires k < |chunks|
    requires forall t :: k <= t < |chunks| ==> chunks[t] != []
    ensures var d := Flatten(chunks[..k]);
      Records(d) + ScanFixedFrom(chunks, k, d[EndOf(d, 0)..]) == Records(Flatten(chunks))
    decreases |chunks| - k, 0
  {
    var d := Flatten(chunks[..k]);
    var buf := d[EndOf(d, 0)..] + chunks[k];
    var d' := Flatten(chunks[..k + 1]);
    var rest := buf[EndOf(buf, 0)..];
    assert rest == d'[EndOf(d', 0)..] && Records(d') == Records(d) + Records(buf) by {
      FlattenPrefix(chunks, k);
      ChunkStep(d, chunks[k]);
    }
    var tail := ScanFixedFrom(chunks, k + 1, rest);
    var r := ScanFixedFrom(chunks, k, d[EndOf(d, 0)..]);
    assert r == Records(buf) + tail;
    assert Records(d') + tail == Records(Flatten(chunks)) by {
      ScanFixedTail(chunks, k + 1);
    }
    Glue(Records(d), Records(buf), tail, r, Records(d'), Records(Flatten(chunks)));
  }

  lemma Glue<T>(a: seq<T>, b: seq<T>, c: seq<T>, bc: seq<T>, ab: seq<T>, total: seq<T>)
    requires bc == b + c && ab == a + b && ab + c == total
    ensures a + bc == total
  {
    assert a + (b + c) == (a + b) + c;
  }

  /** On the example of `StaleEndDropsRecord`, the corrected loop yields
      both records. */
  lemma FixedKeepsRecord(chunks: seq<Bytes>)
    requires chunks == [[64, 10, 65, 10, 64], [10], [67, 10]]
    ensures ScanFixed(chunks) == [[65], [67]]
  {
    ExampleChunks(chunks);
    ExampleInput();
    ScanFixedComplete(chunks);
  }

  lemma ExampleChunks(chunks: seq<Bytes>)
    requires chunks == [[64, 10, 65, 10, 64], [10], [67, 10]]
    ensures Flatten(chunks) == [64, 10, 65, 10, 64, 10, 67, 10]
  {
    assert Flatten(chunks[2..]) == [67, 10] + Flatten(chunks[3..]);
    assert chunks[1..][1..] == chunks[2..];
  }
}
