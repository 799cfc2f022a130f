/**
  The record pattern `@.*\n(.*)\n` of fastqsearch.py, written out by hand.
  `.` is any byte but a newline, so a match starting at an '@' runs to the
  first newline after it and then to the next newline; the captured group is
  the line in between. `MatchesFrom` is `finditer`: leftmost match, resume
  at its end, repeat.
 */
module Pattern {
  import opened Base

  /** One match: `start` is the '@', `lineEnd` the newline that ends its line,
      `end` is one past the newline that ends the captured line `record`. */
  datatype Match = Match(start: nat, lineEnd: nat, end: nat, record: Bytes)

  predicate NoNewline(d: Bytes, lo: nat, hi: nat)
    requires lo <= hi <= |d|
  {
    forall k :: lo <= k < hi ==> d[k] != NEWLINE
  }

  /** `m` is a match of `@.*\n(.*)\n` at `m.start` in `d`. */
  predicate IsMatch(d: Bytes, m: Match)
  {
    && m.start < m.lineEnd
    && m.lineEnd + 2 <= m.end <= |d|
    && d[m.start] == AT_SIGN
    && d[m.lineEnd] == NEWLINE
    && d[m.end - 1] == NEWLINE
    && NoNewline(d, m.start, m.lineEnd)
    && NoNewline(d, m.lineEnd + 1, m.end - 1)
    && m.record == d[m.lineEnd + 1 .. m.end - 1]
  }

  /** The first newline at or after `i`. */
  function NextNewline(d: Bytes, i: nat): (r: Option<nat>)
    requires i <= |d|
    ensures r.Some? ==> i <= r.value < |d|
    decreases |d| - i
  {
    if i == |d| then None
    else if d[i] == NEWLINE then Some(i)
    else NextNewline(d, i + 1)
  }

  /** `NextNewline` finds the first newline, and only fails when there is none. */
  lemma {:induction false} NextNewlineSpec(d: Bytes, i: nat)
    requires i <= |d|
    ensures var r := NextNewline(d, i);
      && (r.Some? ==> d[r.value] == NEWLINE && NoNewline(d, i, r.value))
      && (r.None? ==> NoNewline(d, i, |d|))
    decreases |d| - i
  {
    if i < |d| && d[i] != NEWLINE {
      NextNewlineSpec(d, i + 1);
    }
  }

  lemma NextNewlineIs(d: Bytes, i: nat, j: nat)
    requires i <= j < |d| && d[j] == NEWLINE && NoNewline(d, i, j)
    ensures NextNewline(d, i) == Some(j)
  {
    NextNewlineSpec(d, i);
    var r := NextNewline(d, i);
    assert r.Some? ==> d[r.value] == NEWLINE && NoNewline(d, i, r.value);
  }

  /** The match of the pattern anchored at `s`, if there is one. */
  function MatchAt(d: Bytes, s: nat): (r: Option<Match>)
    requires s <= |d|
    ensures r.Some? ==> r.value.start == s && s < r.value.end <= |d|
  {
    if s < |d| && d[s] == AT_SIGN then
      match NextNewline(d, s + 1)
      case None => None
      case Some(n1) =>
        match NextNewline(d, n1 + 1)
        case None => None
        case Some(n2) => Some(Match(s, n1, n2 + 1, d[n1 + 1 .. n2]))
    else None
  }

  /** What `MatchAt` returns is a match. */
  lemma MatchAtSound(d: Bytes, s: nat)
    requires s <= |d| && MatchAt(d, s).Some?
    ensures IsMatch(d, MatchAt(d, s).value)
  {
    var n1 := NextNewline(d, s + 1);
    NextNewlineSpec(d, s + 1);
    NextNewlineSpec(d, n1.value + 1);
  }

  /** `MatchAt` finds every match anchored where it looks. */
  lemma MatchAtComplete(d: Bytes, m: Match)
    requires IsMatch(d, m)
    ensures MatchAt(d, m.start) == Some(m)
  {
    NextNewlineIs(d, m.start + 1, m.lineEnd);
    NextNewlineIs(d, m.lineEnd + 1, m.end - 1);
  }

  /** A match is determined by where it starts. */
  lemma MatchUnique(d: Bytes, m1: Match, m2: Match)
    requires IsMatch(d, m1) && IsMatch(d, m2) && m1.start == m2.start
    ensures m1 == m2
  {
    MatchAtComplete(d, m1);
    MatchAtComplete(d, m2);
  }

  /** Leftmost match starting at or after `pos` (one step of `finditer`). */
  function FindMatch(d: Bytes, pos: nat): (r: Option<Match>)
    requires pos <= |d|
    ensures r.Some? ==> pos <= r.value.start < r.value.end <= |d|
    decreases |d| - pos
  {
    if pos == |d| then None
    else if MatchAt(d, pos).Some? then MatchAt(d, pos)
    else FindMatch(d, pos + 1)
  }

  /** `FindMatch` returns a match, and no match starts between `pos` and it;
      it returns nothing only when no match starts at or after `pos`. */
  lemma {:induction false} FindMatchSpec(d: Bytes, pos: nat)
    requires pos <= |d|
    ensures var r := FindMatch(d, pos);
      && (r.Some? ==> IsMatch(d, r.value))
      && (forall m :: IsMatch(d, m) && pos <= m.start ==> r.Some? && r.value.start <= m.start)
    decreases |d| - pos
  {
    if pos < |d| {
      if MatchAt(d, pos).Some? {
        MatchAtSound(d, pos);
      } else {
        FindMatchSpec(d, pos + 1);
        forall m | IsMatch(d, m) && pos <= m.start ensures pos + 1 <= m.start {
          MatchAtComplete(d, m);
        }
      }
    }
  }

  /** `FindMatch` is determined by the set of matches of `d`. */
  lemma FindMatchIs(d: Bytes, pos: nat, m: Match)
    requires pos <= m.start && IsMatch(d, m)
    requires forall m' :: IsMatch(d, m') && pos <= m'.start ==> m.start <= m'.start
    ensures FindMatch(d, pos) == Some(m)
  {
    FindMatchSpec(d, pos);
    MatchUnique(d, FindMatch(d, pos).value, m);
  }

  lemma FindMatchNone(d: Bytes, pos: nat)
    requires pos <= |d|
    requires forall m :: IsMatch(d, m) ==> m.start < pos
    ensures FindMatch(d, pos).None?
  {
    FindMatchSpec(d, pos);
  }

  /** All matches `finditer` reports when it starts at `pos`, in order. */
  function MatchesFrom(d: Bytes, pos: nat): seq<Match>
    requires pos <= |d|
    decreases |d| - pos
  {
    match FindMatch(d, pos)
    case None => []
    case Some(m) => [m] + MatchesFrom(d, m.end)
  }

  /** The matches in `ms` are matches of `d`, start at or after `pos`, and
      are in order and without overlap. */
  ghost predicate Ordered(d: Bytes, ms: seq<Match>, pos: nat)
  {
    && (forall i :: 0 <= i < |ms| ==> IsMatch(d, ms[i]) && pos <= ms[i].start)
    && (forall i :: 0 <= i < |ms| - 1 ==> ms[i].end <= ms[i + 1].start)
  }

  /** `finditer` reports matches of the pattern only, left to right and
      without overlap. */
  lemma {:induction false} MatchesWellFormed(d: Bytes, pos: nat)
    requires pos <= |d|
    ensures Ordered(d, MatchesFrom(d, pos), pos)
    decreases |d| - pos
  {
    match FindMatch(d, pos)
    case None =>
    case Some(m) =>
      FindMatchSpec(d, pos);
      var rest := MatchesFrom(d, m.end);
      MatchesWellFormed(d, m.end);
      assert Ordered(d, rest, m.end);
      var ms := [m] + rest;
      assert MatchesFrom(d, pos) == ms;
      forall i | 0 <= i < |ms| ensures IsMatch(d, ms[i]) && pos <= ms[i].start {
        if i > 0 {
          assert ms[i] == rest[i - 1];
        }
      }
      forall i | 0 <= i < |ms| - 1 ensures ms[i].end <= ms[i + 1].start {
        assert ms[i + 1] == rest[i];
        if i > 0 {
          assert ms[i] == rest[i - 1];
        }
      }
      assert Ordered(d, ms, pos);
  }

  /** Where `finditer` from `pos` stops: the end of its last match, or `pos`. */
  function EndOf(d: Bytes, pos: nat): (e: nat)
    requires pos <= |d|
    ensures pos <= e <= |d|
    ensures MatchesFrom(d, pos) != [] ==> pos < e
    decreases |d| - pos
  {
    match FindMatch(d, pos)
    case None => pos
    case Some(m) => EndOf(d, m.end)
  }

  /** `EndOf` is the end of the last reported match, and nothing is reported
      after it: the bytes kept by line 26 hold no complete match. */
  lemma {:induction false} EndOfLastMatch(d: Bytes, pos: nat)
    requires pos <= |d|
    ensures var ms := MatchesFrom(d, pos);
      && (ms == [] ==> EndOf(d, pos) == pos)
      && (ms != [] ==> EndOf(d, pos) == ms[|ms| - 1].end)
      && MatchesFrom(d, EndOf(d, pos)) == []
    decreases |d| - pos
  {
    match FindMatch(d, pos)
    case None =>
    case Some(m) =>
      EndOfLastMatch(d, m.end);
  }

  /** The captured lines of a list of matches. */
  function Captures(ms: seq<Match>): (rs: seq<Bytes>)
    ensures |rs| == |ms|
    ensures forall i :: 0 <= i < |ms| ==> rs[i] == ms[i].record
  {
    if ms == [] then [] else [ms[0].record] + Captures(ms[1..])
  }

  lemma CapturesAppend(a: seq<Match>, b: seq<Match>)
    ensures Captures(a + b) == Captures(a) + Captures(b)
  {
  }

  /** The records the pattern extracts from a whole buffer. */
  function Records(d: Bytes): seq<Bytes>
  {
    Captures(MatchesFrom(d, 0))
  }

  /** Every extracted record is one line: it holds no newline, and it is the
      line right after a line holding an '@' from which it is separated
      only by that line's newline. */
  lemma RecordsAreLines(d: Bytes, pos: nat, i: nat)
    requires pos <= |d| && i < |MatchesFrom(d, pos)|
    ensures var m := MatchesFrom(d, pos)[i];
      && IsMatch(d, m)
      && NEWLINE !in m.record
      && d[m.start] == AT_SIGN
      && NEWLINE !in d[m.start .. m.lineEnd]
      && d[m.lineEnd] == NEWLINE
      && d[m.lineEnd + 1 .. m.end] == m.record + [NEWLINE]
  {
    var m := MatchesFrom(d, pos)[i];
    MatchesWellFormed(d, pos);
    assert d[m.lineEnd + 1 .. m.end] == d[m.lineEnd + 1 .. m.end - 1] + [d[m.end - 1]];
    forall k | 0 <= k < |m.record| ensures m.record[k] != NEWLINE {
      assert m.record[k] == d[m.lineEnd + 1 + k];
    }
    forall k | 0 <= k < m.lineEnd - m.start ensures d[m.start .. m.lineEnd][k] != NEWLINE {
      assert d[m.start .. m.lineEnd][k] == d[m.start + k];
    }
  }

  // ---------------------------------------------------------------------
  // Matches under extension of the buffer (a chunk appended to `data`)
  // ---------------------------------------------------------------------

  lemma IsMatchExtend(p: Bytes, q: Bytes, m: Match)
    requires IsMatch(p, m)
    ensures IsMatch(p + q, m)
  {
    var d := p + q;
    assert d[m.lineEnd + 1 .. m.end - 1] == p[m.lineEnd + 1 .. m.end - 1];
  }

  lemma IsMatchRestrict(p: Bytes, q: Bytes, m: Match)
    requires IsMatch(p + q, m) && m.end <= |p|
    ensures IsMatch(p, m)
  {
    var d := p + q;
    assert forall k :: 0 <= k < |p| ==> d[k] == p[k];
    assert d[m.lineEnd + 1 .. m.end - 1] == p[m.lineEnd + 1 .. m.end - 1];
  }

  /** Among two matches, the one starting first also ends first. */
  lemma EarlierEndsEarlier(d: Bytes, m: Match, m': Match)
    requires IsMatch(d, m) && IsMatch(d, m') && m'.start < m.start
    ensures m'.end <= m.end
  {
    assert d[m.lineEnd] == NEWLINE;
    assert m'.lineEnd <= m.lineEnd;
    assert d[m.end - 1] == NEWLINE;
  }

  /** A leftmost match found in a prefix stays leftmost in the longer buffer. */
  lemma FindMatchExtend(p: Bytes, q: Bytes, pos: nat)
    requires pos <= |p| && FindMatch(p, pos).Some?
    ensures FindMatch(p + q, pos) == FindMatch(p, pos)
  {
    var m := FindMatch(p, pos).value;
    FindMatchSpec(p, pos);
    IsMatchExtend(p, q, m);
    forall m' | IsMatch(p + q, m') && pos <= m'.start
      ensures m.start <= m'.start
    {
      if m'.start < m.start {
        EarlierEndsEarlier(p + q, m, m');
        IsMatchRestrict(p, q, m');
      }
    }
    FindMatchIs(p + q, pos, m);
  }

  /** The matches of a prefix are the first matches of the whole buffer, and
      the whole buffer's later matches are found by resuming where the
      prefix's matches stop. */
  lemma {:induction false} MatchesExtend(p: Bytes, q: Bytes, pos: nat)
    requires pos <= |p|
    ensures MatchesFrom(p + q, pos) == MatchesFrom(p, pos) + MatchesFrom(p + q, EndOf(p, pos))
    ensures forall m :: m in MatchesFrom(p + q, EndOf(p, pos)) ==> m.end > |p|
    decreases |p| - pos
  {
    ResumedEndsPastPrefix(p, q, pos);
    var r := FindMatch(p, pos);
    if r.Some? {
      var m := r.value;
      ExtendStep(p, q, pos, m);
      MatchesExtend(p, q, m.end);
      ConsAssoc(m, MatchesFrom(p, m.end), MatchesFrom(p + q, EndOf(p, m.end)));
    } else {
      assert MatchesFrom(p, pos) == [];
      assert EndOf(p, pos) == pos;
    }
  }

  /** No match found by resuming after the prefix's matches lies inside the
      prefix: it would have been one of the prefix's own matches. */
  lemma ResumedEndsPastPrefix(p: Bytes, q: Bytes, pos: nat)
    requires pos <= |p|
    ensures forall m :: m in MatchesFrom(p + q, EndOf(p, pos)) ==> m.end > |p|
  {
    var e := EndOf(p, pos);
    var ms := MatchesFrom(p + q, e);
    EndOfLastMatch(p, pos);
    MatchesWellFormed(p + q, e);
    FindMatchSpec(p, e);
    forall m | m in ms ensures m.end > |p| {
      var i :| 0 <= i < |ms| && ms[i] == m;
      if m.end <= |p| {
        IsMatchRestrict(p, q, m);
        assert false;
      }
    }
  }

  lemma ConsAssoc<T>(x: T, a: seq<T>, b: seq<T>)
    ensures [x] + (a + b) == ([x] + a) + b
  {
  }

  lemma ExtendStep(p: Bytes, q: Bytes, pos: nat, m: Match)
    requires pos <= |p| && FindMatch(p, pos) == Some(m)
    ensures m.end <= |p|
    ensures MatchesFrom(p + q, pos) == [m] + MatchesFrom(p + q, m.end)
    ensures MatchesFrom(p, pos) == [m] + MatchesFrom(p, m.end)
    ensures EndOf(p, pos) == EndOf(p, m.end)
    ensures EndOf(p + q, pos) == EndOf(p + q, m.end)
  {
    FindMatchExtend(p, q, pos);
  }

  /** Resuming after the prefix's matches ends where the whole buffer's matches end. */
  lemma {:induction false} EndOfExtend(p: Bytes, q: Bytes, pos: nat)
    requires pos <= |p|
    ensures EndOf(p + q, pos) == EndOf(p + q, EndOf(p, pos))
    decreases |p| - pos
  {
    var r := FindMatch(p, pos);
    if r.Some? {
      var m := r.value;
      FindMatchExtend(p, q, pos);
      EndOfExtend(p, q, m.end);
      assert EndOf(p, pos) == EndOf(p, m.end);
    }
  }

  // ---------------------------------------------------------------------
  // Matches under removal of a prefix (the buffer trimmed at line 26)
  // ---------------------------------------------------------------------

  function Shift(m: Match, e: nat): Match
  {
    Match(m.start + e, m.lineEnd + e, m.end + e, m.record)
  }

  lemma IsMatchShift(d: Bytes, e: nat, m: Match)
    requires e <= |d|
    ensures IsMatch(d[e..], m) <==> IsMatch(d, Shift(m, e))
  {
    if m.start <= m.lineEnd && m.lineEnd + 2 <= m.end <= |d| - e {
      NoNewlineShift(d, e, m.start, m.lineEnd);
      NoNewlineShift(d, e, m.lineEnd + 1, m.end - 1);
      assert d[e..][m.lineEnd + 1 .. m.end - 1] == d[m.lineEnd + 1 + e .. m.end - 1 + e];
    }
  }

  lemma NoNewlineShift(d: Bytes, e: nat, i: nat, j: nat)
    requires i <= j && e + j <= |d|
    ensures NoNewline(d[e..], i, j) <==> NoNewline(d, i + e, j + e)
  {
    assert forall k :: i <= k < j ==> d[e..][k] == d[k + e];
  }

  /** Searching the trimmed buffer is searching the whole one further on. */
  lemma FindMatchShift(d: Bytes, e: nat, pos: nat)
    requires e + pos <= |d|
    ensures FindMatch(d[e..], pos).None? <==> FindMatch(d, e + pos).None?
    ensures FindMatch(d[e..], pos).Some? ==>
      Shift(FindMatch(d[e..], pos).value, e) == FindMatch(d, e + pos).value
  {
    match FindMatch(d, e + pos)
    case None => FindMatchShiftNone(d, e, pos);
    case Some(m') => FindMatchShiftSome(d, e, pos, m');
  }

  lemma FindMatchShiftNone(d: Bytes, e: nat, pos: nat)
    requires e + pos <= |d| && FindMatch(d, e + pos).None?
    ensures FindMatch(d[e..], pos).None?
  {
    var s := d[e..];
    FindMatchSpec(d, e + pos);
    forall m | IsMatch(s, m) ensures m.start < pos {
      IsMatchShift(d, e, m);
    }
    FindMatchNone(s, pos);
  }

  lemma FindMatchShiftSome(d: Bytes, e: nat, pos: nat, m': Match)
    requires e + pos <= |d| && FindMatch(d, e + pos) == Some(m')
    ensures FindMatch(d[e..], pos).Some? && Shift(FindMatch(d[e..], pos).value, e) == m'
  {
    var s := d[e..];
    FoundIsMatch(d, e + pos);
    var m := Match(m'.start - e, m'.lineEnd - e, m'.end - e, m'.record);
    assert Shift(m, e) == m';
    IsMatchShift(d, e, m);
    forall n | IsMatch(s, n) && pos <= n.start ensures m.start <= n.start {
      NotBeforeFound(d, e, pos, m', n);
    }
    FindMatchIs(s, pos, m);
  }

  lemma FoundIsMatch(d: Bytes, pos: nat)
    requires pos <= |d| && FindMatch(d, pos).Some?
    ensures IsMatch(d, FindMatch(d, pos).value)
  {
    FindMatchSpec(d, pos);
  }

  /** A match of the trimmed buffer found by the search starts no earlier
      than the one found in the whole buffer. */
  lemma NotBeforeFound(d: Bytes, e: nat, pos: nat, m': Match, n: Match)
    requires e + pos <= |d| && FindMatch(d, e + pos) == Some(m')
    requires IsMatch(d[e..], n) && pos <= n.start
    ensures m'.start <= n.start + e
  {
    IsMatchShift(d, e, n);
    FindMatchSpec(d, e + pos);
  }

  lemma MatchesShift(d: Bytes, e: nat, pos: nat)
    requires e + pos <= |d|
    ensures Captures(MatchesFrom(d[e..], pos)) == Captures(MatchesFrom(d, e + pos))
    ensures EndOf(d[e..], pos) + e == EndOf(d, e + pos)
  {
    CapturesShift(d, e, pos);
    EndOfShift(d, e, pos);
  }

  lemma {:induction false} CapturesShift(d: Bytes, e: nat, pos: nat)
    requires e + pos <= |d|
    ensures Captures(MatchesFrom(d[e..], pos)) == Captures(MatchesFrom(d, e + pos))
    decreases |d| - e - pos
  {
    var r := FindMatch(d[e..], pos);
    if r.None? {
      MatchesShiftNone(d, e, pos);
    } else {
      var m := r.value;
      ShiftStep(d, e, pos, m);
      CapturesShift(d, e, m.end);
      CapturesCons(m, MatchesFrom(d[e..], m.end));
      CapturesCons(Shift(m, e), MatchesFrom(d, e + m.end));
    }
  }

  lemma {:induction false} EndOfShift(d: Bytes, e: nat, pos: nat)
    requires e + pos <= |d|
    ensures EndOf(d[e..], pos) + e == EndOf(d, e + pos)
    decreases |d| - e - pos
  {
    var r := FindMatch(d[e..], pos);
    if r.None? {
      EndOfShiftNone(d, e, pos);
    } else {
      var m := r.value;
      EndOfShiftSome(d, e, pos, m);
      EndOfShift(d, e, m.end);
    }
  }

  lemma MatchesShiftNone(d: Bytes, e: nat, pos: nat)
    requires e + pos <= |d| && FindMatch(d[e..], pos).None?
    ensures MatchesFrom(d[e..], pos) == [] && MatchesFrom(d, e + pos) == []
  {
    FindMatchShift(d, e, pos);
  }

  lemma EndOfShiftNone(d: Bytes, e: nat, pos: nat)
    requires e + pos <= |d| && FindMatch(d[e..], pos).None?
    ensures EndOf(d[e..], pos) == pos && EndOf(d, e + pos) == e + pos
  {
    FindMatchShift(d, e, pos);
  }

  /** One match step of `EndOf`. */
  lemma EndStep(d: Bytes, pos: nat, m: Match)
    requires pos <= |d| && FindMatch(d, pos) == Some(m)
    ensures m.end <= |d| && EndOf(d, pos) == EndOf(d, m.end)
  {
  }

  lemma EndOfShiftSome(d: Bytes, e: nat, pos: nat, m: Match)
    requires e + pos <= |d| && FindMatch(d[e..], pos) == Some(m)
    ensures pos < m.end && e + m.end <= |d|
    ensures EndOf(d[e..], pos) == EndOf(d[e..], m.end)
    ensures EndOf(d, e + pos) == EndOf(d, e + m.end)
  {
    FindMatchShift(d, e, pos);
    EndStep(d[e..], pos, m);
    EndStep(d, e + pos, Shift(m, e));
  }

  lemma ShiftStep(d: Bytes, e: nat, pos: nat, m: Match)
    requires e + pos <= |d| && FindMatch(d[e..], pos) == Some(m)
    ensures e + m.end <= |d|
    ensures MatchesFrom(d[e..], pos) == [m] + MatchesFrom(d[e..], m.end)
    ensures MatchesFrom(d, e + pos) == [Shift(m, e)] + MatchesFrom(d, e + m.end)
  {
    FindMatchShift(d, e, pos);
    MatchesStep(d[e..], pos, m);
    MatchesStep(d, e + pos, Shift(m, e));
  }

  /** One match step of `MatchesFrom`. */
  lemma MatchesStep(d: Bytes, pos: nat, m: Match)
    requires pos <= |d| && FindMatch(d, pos) == Some(m)
    ensures m.end <= |d| && MatchesFrom(d, pos) == [m] + MatchesFrom(d, m.end)
  {
  }

  lemma CapturesCons(m: Match, ms: seq<Match>)
    ensures Captures([m] + ms) == [m.record] + Captures(ms)
  {
    assert ([m] + ms)[1..] == ms;
  }

  lemma DropDrop<T>(s: seq<T>, a: nat, b: nat)
    requires a + b <= |s|
    ensures s[a..][b..] == s[a + b..]
  {
  }

  /** A buffer without a match has no match in any suffix either. */
  lemma NoMatchInSuffix(d: Bytes, e: nat)
    requires MatchesFrom(d, 0) == []
    ensures MatchesFrom(Drop(d, e), 0) == []
  {
    if e <= |d| {
      FindMatchSpec(d, 0);
      FindMatchNone(d, e);
      FindMatchShift(d, e, 0);
    }
  }

  /** The chunk-boundary step: after everything up to the last match of `dd`
      was dropped and `c` appended, the new buffer yields exactly the records
      of `dd + c` that `dd` alone did not, and trimming it leaves exactly
      the bytes of `dd + c` after its last match. */
  lemma ChunkStep(dd: Bytes, c: Bytes)
    ensures var e := EndOf(dd, 0);
      var buf := dd[e..] + c;
      && buf == (dd + c)[e..]
      && Records(dd + c) == Records(dd) + Records(buf)
      && EndOf(buf, 0) + e == EndOf(dd + c, 0)
      && buf[EndOf(buf, 0)..] == (dd + c)[EndOf(dd + c, 0)..]
  {
    var d := dd + c;
    var e := EndOf(dd, 0);
    assert dd[e..] + c == d[e..];
    ChunkRecords(dd, c);
    ChunkEnd(dd, c);
    DropDrop(d, e, EndOf(d[e..], 0));
  }

  lemma ChunkRecords(dd: Bytes, c: Bytes)
    ensures Records(dd + c) == Records(dd) + Records((dd + c)[EndOf(dd, 0)..])
  {
    var d := dd + c;
    var e := EndOf(dd, 0);
    MatchesExtend(dd, c, 0);
    MatchesShift(d, e, 0);
    CapturesAppend(MatchesFrom(dd, 0), MatchesFrom(d, e));
  }

  lemma ChunkEnd(dd: Bytes, c: Bytes)
    ensures EndOf((dd + c)[EndOf(dd, 0)..], 0) + EndOf(dd, 0) == EndOf(dd + c, 0)
  {
    EndOfExtend(dd, c, 0);
    MatchesShift(dd + c, EndOf(dd, 0), 0);
  }
}
