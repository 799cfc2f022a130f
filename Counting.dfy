/**
  `worker` of fastqsearch.py (lines 30-39): every task names a batch of
  records, the record length `L` and the key length `K`; for each record
  the worker looks up the slice at every offset in `range(0, L - K)` and
  counts the slices that are guide keys.

  `Hits`, `RecordsHits` and `Count` are the counting formula, `Worker` the
  three nested loops, proved against it.
 */
module Counting {
  import opened Base

  /** One item of the task queue: `(seqs, seq_length, key_length)`. */
  datatype Task = Task(seqs: seq<Bytes>, seqLength: nat, keyLength: nat)

  /** Python's `rec[i:i+len]` for `i >= 0`: clipped at the end of `rec`, so
      a window that runs past the end is shorter than `len` and never equals
      a key of length `len`. */
  function Window(rec: Bytes, i: nat, len: nat): (w: Bytes)
    ensures |w| <= len
    ensures len > 0 ==> (|w| == len <==> i + len <= |rec|)
  {
    if i >= |rec| then Drop(rec, i) else if i + len > |rec| then rec[i..] else rec[i .. i + len]
  }

  /** A window that fits is the plain slice. */
  lemma WindowInside(rec: Bytes, i: nat, len: nat)
    requires i + len <= |rec|
    ensures Window(rec, i, len) == rec[i .. i + len]
  {
  }

  /** How often `g` is the window at an offset in `range(0, n)`. */
  function Hits(g: Bytes, rec: Bytes, n: int, len: nat): nat
    decreases n
  {
    if n <= 0 then 0
    else Hits(g, rec, n - 1, len) + (if Window(rec, n - 1, len) == g then 1 else 0)
  }

  /** The offsets in `range(0, n)` whose window is `g`. */
  ghost function Offsets(g: Bytes, rec: Bytes, n: int, len: nat): set<nat>
  {
    set i: nat | i < n && Window(rec, i, len) == g
  }

  /** `Hits` counts exactly the offsets whose window is `g`. */
  lemma {:induction false} HitsAsSet(g: Bytes, rec: Bytes, n: int, len: nat)
    ensures Hits(g, rec, n, len) == |Offsets(g, rec, n, len)|
    decreases n
  {
    if n <= 0 {
      assert Offsets(g, rec, n, len) == {};
    } else {
      HitsAsSet(g, rec, n - 1, len);
      OffsetsStep(g, rec, n - 1, len);
    }
  }

  lemma OffsetsStep(g: Bytes, rec: Bytes, i: nat, len: nat)
    ensures Window(rec, i, len) == g ==> Offsets(g, rec, i + 1, len) == Offsets(g, rec, i, len) + {i}
    ensures Window(rec, i, len) != g ==> Offsets(g, rec, i + 1, len) == Offsets(g, rec, i, len)
    ensures i !in Offsets(g, rec, i, len)
  {
  }

  lemma HitsStep(g: Bytes, rec: Bytes, i: nat, len: nat)
    ensures Hits(g, rec, i + 1, len) == Hits(g, rec, i, len) + (if Window(rec, i, len) == g then 1 else 0)
  {
  }

  /** `Hits` summed over the records `recs`. */
  function RecordsHits(g: Bytes, recs: seq<Bytes>, n: int, len: nat): nat
    decreases |recs|
  {
    if recs == [] then 0
    else RecordsHits(g, recs[..|recs| - 1], n, len) + Hits(g, recs[|recs| - 1], n, len)
  }

  /** What one task adds to the count of `g` (lines 33-36). */
  function TaskCount(g: Bytes, t: Task): nat
  {
    RecordsHits(g, t.seqs, t.seqLength - t.keyLength, t.keyLength)
  }

  /** What a list of tasks adds to the count of `g`. */
  function Count(g: Bytes, tasks: seq<Task>): nat
    decreases |tasks|
  {
    if tasks == [] then 0 else Count(g, tasks[..|tasks| - 1]) + TaskCount(g, tasks[|tasks| - 1])
  }

  /** Counting over records is additive. */
  lemma {:induction false} RecordsHitsAppend(g: Bytes, a: seq<Bytes>, b: seq<Bytes>, n: int, len: nat)
    ensures RecordsHits(g, a + b, n, len) == RecordsHits(g, a, n, len) + RecordsHits(g, b, n, len)
    decreases |b|
  {
    if b == [] {
      assert a + b == a;
    } else {
      assert (a + b)[..|a + b| - 1] == a + b[..|b| - 1];
      RecordsHitsAppend(g, a, b[..|b| - 1], n, len);
    }
  }

  lemma CountSnoc(g: Bytes, tasks: seq<Task>, t: Task)
    ensures Count(g, tasks + [t]) == Count(g, tasks) + TaskCount(g, t)
  {
    assert (tasks + [t])[..|tasks|] == tasks;
  }

  /** Counting over tasks is additive: the count over a concatenation is
      the sum of the counts. */
  lemma {:induction false} CountAppend(g: Bytes, a: seq<Task>, b: seq<Task>)
    ensures Count(g, a + b) == Count(g, a) + Count(g, b)
    decreases |b|
  {
    if b == [] {
      assert a + b == a;
    } else {
      assert (a + b)[..|a + b| - 1] == a + b[..|b| - 1];
      CountAppend(g, a, b[..|b| - 1]);
    }
  }

  /** Counting over tasks does not depend on their order. */
  lemma {:induction false} CountPermutation(g: Bytes, a: seq<Task>, b: seq<Task>)
    requires multiset(a) == multiset(b)
    ensures Count(g, a) == Count(g, b)
    decreases |a|
  {
    if a != [] {
      var x := a[|a| - 1];
      assert x in multiset(b) by {
        assert a == a[..|a| - 1] + [x];
      }
      var j :| 0 <= j < |b| && b[j] == x;
      var b' := b[..j] + b[j + 1..];
      RemoveLast(a, b, j);
      CountPermutation(g, a[..|a| - 1], b');
      CountSnoc(g, a[..|a| - 1], x);
      CountRemove(g, b, j);
    }
  }

  /** Taking the last element off `a` and the same element off `b` keeps
      their multisets equal. */
  lemma RemoveLast<T>(a: seq<T>, b: seq<T>, j: nat)
    requires multiset(a) == multiset(b) && a != [] && j < |b| && b[j] == a[|a| - 1]
    ensures multiset(a[..|a| - 1]) == multiset(b[..j] + b[j + 1..])
  {
    var x := b[j];
    assert a == a[..|a| - 1] + [x];
    assert b == b[..j] + [x] + b[j + 1..];
    assert multiset(a[..|a| - 1]) == multiset(a) - multiset{x};
    assert multiset(b[..j] + b[j + 1..]) == multiset(b) - multiset{x};
  }

  /** Removing task `j` lowers the count by what that task adds. */
  lemma CountRemove(g: Bytes, b: seq<Task>, j: nat)
    requires j < |b|
    ensures Count(g, b) == Count(g, b[..j] + b[j + 1..]) + TaskCount(g, b[j])
  {
    assert b == b[..j] + [b[j]] + b[j + 1..];
    CountAppend(g, b[..j] + [b[j]], b[j + 1..]);
    CountAppend(g, b[..j], [b[j]]);
    CountAppend(g, b[..j], b[j + 1..]);
    CountSingle(g, b[j]);
  }

  lemma CountSingle(g: Bytes, t: Task)
    ensures Count(g, [t]) == TaskCount(g, t)
  {
    assert [t][..0] == [];
  }

  /** More tasks never lower a count. */
  lemma CountGrows(g: Bytes, a: seq<Task>, b: seq<Task>)
    ensures Count(g, a) <= Count(g, a + b)
  {
    CountAppend(g, a, b);
  }

  /** When `L <= K` the range of line 35 is empty: the task counts nothing. */
  lemma {:induction false} ShortTaskCountsNothing(g: Bytes, t: Task)
    requires t.seqLength <= t.keyLength
    ensures TaskCount(g, t) == 0
  {
    NoOffsetsNoHits(g, t.seqs, t.seqLength - t.keyLength, t.keyLength);
  }

  lemma {:induction false} NoOffsetsNoHits(g: Bytes, recs: seq<Bytes>, n: int, len: nat)
    requires n <= 0
    ensures RecordsHits(g, recs, n, len) == 0
    decreases |recs|
  {
    if recs != [] {
      NoOffsetsNoHits(g, recs[..|recs| - 1], n, len);
    }
  }

  lemma CountStep(g: Bytes, tasks: seq<Task>, t: nat)
    requires t < |tasks|
    ensures Count(g, tasks[..t + 1]) == Count(g, tasks[..t]) + TaskCount(g, tasks[t])
  {
    assert tasks[..t + 1][..t] == tasks[..t];
  }

  lemma RecordsHitsStep(g: Bytes, recs: seq<Bytes>, j: nat, n: int, len: nat)
    requires j < |recs|
    ensures RecordsHits(g, recs[..j + 1], n, len) == RecordsHits(g, recs[..j], n, len) + Hits(g, recs[j], n, len)
  {
    assert recs[..j + 1][..j] == recs[..j];
  }

  /** The per-worker loop of lines 31-38: a map with exactly the guide keys,
      each counted over every task the worker takes from the queue. */
  method Worker(keys: set<Bytes>, tasks: seq<Task>) returns (lookup: map<Bytes, nat>)
    ensures lookup.Keys == keys
    ensures forall g :: g in keys ==> lookup[g] == Count(g, tasks)
  {
    lookup := map g | g in keys :: 0;
    var t := 0;
    while t < |tasks|
      invariant t <= |tasks|
      invariant lookup.Keys == keys
      invariant forall g :: g in lookup ==> lookup[g] == Count(g, tasks[..t])
    {
      var before := lookup;
      lookup := CountTask(lookup, tasks[t]);
      forall g | g in lookup ensures lookup[g] == Count(g, tasks[..t + 1]) {
        CountStep(g, tasks, t);
      }
      t := t + 1;
    }
    assert tasks[..t] == tasks;
  }

  /** Lines 34-38 for one task: the key set stays the same and every key
      `g` grows by `TaskCount(g, task)`. */
  method CountTask(lookup0: map<Bytes, nat>, task: Task) returns (lookup: map<Bytes, nat>)
    ensures lookup.Keys == lookup0.Keys
    ensures forall g :: g in lookup ==> lookup[g] == lookup0[g] + TaskCount(g, task)
  {
    lookup := lookup0;
    var n := task.seqLength - task.keyLength;
    var j := 0;
    while j < |task.seqs|
      invariant j <= |task.seqs|
      invariant lookup.Keys == lookup0.Keys
      invariant forall g :: g in lookup ==>
        lookup[g] == lookup0[g] + RecordsHits(g, task.seqs[..j], n, task.keyLength)
    {
      var before := lookup;
      lookup := CountRecord(lookup, task.seqs[j], n, task.keyLength);
      forall g | g in lookup
        ensures lookup[g] == lookup0[g] + RecordsHits(g, task.seqs[..j + 1], n, task.keyLength)
      {
        RecordsHitsStep(g, task.seqs, j, n, task.keyLength);
      }
      j := j + 1;
    }
    assert task.seqs[..j] == task.seqs;
  }

  /** Lines 35-38 for one record: the window at each offset in
      `range(0, n)` is incremented if it is a key and ignored otherwise
      (the `except: pass`), so every key `g` grows by `Hits(g, rec, n, k)`
      and no key is added. */
  method CountRecord(lookup0: map<Bytes, nat>, rec: Bytes, n: int, k: nat) returns (lookup: map<Bytes, nat>)
    ensures lookup.Keys == lookup0.Keys
    ensures forall g :: g in lookup ==> lookup[g] == lookup0[g] + Hits(g, rec, n, k)
  {
    lookup := lookup0;
    var i := 0;
    while i < n
      invariant 0 <= i && (n < 0 ==> i == 0) && (n >= 0 ==> i <= n)
      invariant lookup.Keys == lookup0.Keys
      invariant forall g :: g in lookup ==> lookup[g] == lookup0[g] + Hits(g, rec, i, k)
    {
      var w := Window(rec, i, k);
      ghost var before := lookup;
      if w in lookup {
        lookup := lookup[w := lookup[w] + 1];
      }
      OffsetStep(lookup0, before, lookup, rec, i, k, w);
      i := i + 1;
    }
    if n < 0 {
      NoOffsets(rec, n, k);
    }
  }

  /** One offset of lines 35-38: the window's count goes up if it is a key. */
  lemma OffsetStep(lookup0: map<Bytes, nat>, before: map<Bytes, nat>, after: map<Bytes, nat>, rec: Bytes, i: nat, k: nat, w: Bytes)
    requires before.Keys == lookup0.Keys
    requires forall g :: g in before ==> before[g] == lookup0[g] + Hits(g, rec, i, k)
    requires w == Window(rec, i, k)
    requires after == if w in before then before[w := before[w] + 1] else before
    ensures after.Keys == lookup0.Keys
    ensures forall g :: g in after ==> after[g] == lookup0[g] + Hits(g, rec, i + 1, k)
  {
    forall g | g in after
      ensures after[g] == lookup0[g] + Hits(g, rec, i + 1, k)
    {
      HitsStep(g, rec, i, k);
      assert after[g] == before[g] + (if w == g then 1 else 0);
    }
  }

  lemma NoOffsets(rec: Bytes, n: int, k: nat)
    requires n <= 0
    ensures forall g :: Hits(g, rec, n, k) == 0
  {
  }

  // ---------------------------------------------------------------------
  // The window range of line 35, as written and as evidently intended
  // ---------------------------------------------------------------------

  /** `g` occurs in `rec` at offset `i`. */
  predicate OccursAt(g: Bytes, rec: Bytes, i: nat)
  {
    i + |g| <= |rec| && rec[i .. i + |g|] == g
  }

  /** The offsets at which `g` occurs in `rec`. */
  ghost function Occurrences(g: Bytes, rec: Bytes): set<nat>
  {
    set i: nat | i <= |rec| && OccursAt(g, rec, i)
  }

  /** With one offset more than line 35 scans, every occurrence of a key of
      length `K` in a record is counted, and nothing else. */
  lemma FullRangeCountsAll(g: Bytes, rec: Bytes)
    ensures Hits(g, rec, |rec| - |g| + 1, |g|) == |Occurrences(g, rec)|
  {
    var n := |rec| - |g| + 1;
    HitsAsSet(g, rec, n, |g|);
    assert Offsets(g, rec, n, |g|) == Occurrences(g, rec);
  }

  /** Line 35 as written: `range(0, L - K)` stops one offset short, so an
      occurrence of `g` at the very end of a record of length `L` is never
      counted; all others are. */
  lemma LastOffsetMissed(g: Bytes, rec: Bytes)
    requires |g| <= |rec|
    ensures Hits(g, rec, |rec| - |g|, |g|) + (if rec[|rec| - |g|..] == g then 1 else 0)
      == |Occurrences(g, rec)|
  {
    FullRangeCountsAll(g, rec);
    assert Window(rec, |rec| - |g|, |g|) == rec[|rec| - |g|..];
  }

  /** The record `AAACCCAAA` with `L = 9`, `K = 3` holds `AAA` twice, but the
      worker counts it once. */
  lemma WorkerMissesLastWindow()
    ensures var rec: Bytes := [65, 65, 65, 67, 67, 67, 65, 65, 65];
      && TaskCount([65, 65, 65], Task([rec], 9, 3)) == 1
      && |Occurrences([65, 65, 65], rec)| == 2
  {
    var rec: Bytes := [65, 65, 65, 67, 67, 67, 65, 65, 65];
    var g: Bytes := [65, 65, 65];
    forall i | 0 <= i <= 6 ensures Window(rec, i, 3) == rec[i .. i + 3] {
      WindowInside(rec, i, 3);
    }
    assert Window(rec, 0, 3) == g;
    assert Window(rec, 1, 3) != g by { assert Window(rec, 1, 3)[2] == 67; }
    assert Window(rec, 2, 3) != g by { assert Window(rec, 2, 3)[1] == 67; }
    assert Window(rec, 3, 3) != g by { assert Window(rec, 3, 3)[0] == 67; }
    assert Window(rec, 4, 3) != g by { assert Window(rec, 4, 3)[0] == 67; }
    assert Window(rec, 5, 3) != g by { assert Window(rec, 5, 3)[0] == 67; }
    assert Hits(g, rec, 6, 3) == 1;
    assert [rec][..0] == [];
    assert RecordsHits(g, [rec], 6, 3) == 1;
    LastOffsetMissed(g, rec);
    assert rec[6..] == g;
  }

  /** Lines 33-36 as evidently intended: `range(0, L - K + 1)`. */
  function FixedTaskCount(g: Bytes, t: Task): nat
  {
    RecordsHits(g, t.seqs, t.seqLength - t.keyLength + 1, t.keyLength)
  }

  /** The number of occurrences of `g` in all of `recs`. */
  ghost function AllOccurrences(g: Bytes, recs: seq<Bytes>): nat
    decreases |recs|
  {
    if recs == [] then 0
    else AllOccurrences(g, recs[..|recs| - 1]) + |Occurrences(g, recs[|recs| - 1])|
  }

  /** With the intended range, a task whose records all have length `L`
      counts every occurrence of a key of length `K`. */
  lemma FixedTaskCountsOccurrences(g: Bytes, t: Task)
    requires |g| == t.keyLength
    requires forall j :: 0 <= j < |t.seqs| ==> |t.seqs[j]| == t.seqLength
    ensures FixedTaskCount(g, t) == AllOccurrences(g, t.seqs)
  {
    FullRangeRecords(g, t.seqs, t.seqLength);
  }

  lemma {:induction false} FullRangeRecords(g: Bytes, recs: seq<Bytes>, len: nat)
    requires forall j :: 0 <= j < |recs| ==> |recs[j]| == len
    ensures RecordsHits(g, recs, len - |g| + 1, |g|) == AllOccurrences(g, recs)
    decreases |recs|
  {
    if recs != [] {
      var init := recs[..|recs| - 1];
      var last := recs[|recs| - 1];
      var n := len - |g| + 1;
      assert RecordsHits(g, init, n, |g|) == AllOccurrences(g, init) by {
        forall j | 0 <= j < |init| ensures |init[j]| == len {
          assert init[j] == recs[j];
        }
        FullRangeRecords(g, init, len);
      }
      assert Hits(g, last, n, |g|) == |Occurrences(g, last)| by {
        FullRangeCountsAll(g, last);
      }
    }
  }
}
