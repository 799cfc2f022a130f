/**
  A worked run of `go`: the guide file holds the lines `AAA` and `CCC`, the
  input one record `AAACCCAAA` (`L = 9`, `K = 3`). `AAA` occurs at offsets
  0 and 6, `CCC` at offset 3. As written, `go` reports `AAA` twice (offset
  6 is outside `range(0, L - K)`, but the single batch is dispatched
  twice) and `CCC` twice; once both are repaired it reports `AAA` twice and
  `CCC` once, for any positive number of workers.
 */
module Scenario {
  import opened Base
  import opened Pattern
  import opened Extract
  import opened Counting
  import opened Pipeline

  const AAA: Bytes := [65, 65, 65]
  const CCC: Bytes := [67, 67, 67]
  const RECORD: Bytes := [65, 65, 65, 67, 67, 67, 65, 65, 65]

  /** The decompressed input `@\nAAACCCAAA\n`, read as one chunk. */
  const INPUT: Bytes := [64, 10] + RECORD + [10]

  /** The lines of the guide file, newline included. */
  const GUIDE_LINES: seq<Bytes> := [AAA + [10], CCC + [10]]

  /** The input holds exactly one record. */
  lemma InputRecords()
    ensures MatchesFrom(INPUT, 0) != [] && Records(INPUT) == [RECORD]
  {
    var m := Match(0, 1, 12, RECORD);
    assert FindMatch(INPUT, 0) == Some(m) by {
      assert NextNewline(INPUT, 1) == Some(1);
      assert NextNewline(INPUT, 11) == Some(11);
      NoNewlineInRecord();
      NextNewlineIs(INPUT, 2, 11);
      assert INPUT[2..11] == RECORD;
    }
    assert MatchesFrom(INPUT, 12) == [];
    assert MatchesFrom(INPUT, 0) == [m];
  }

  lemma NoNewlineInRecord()
    ensures NoNewline(INPUT, 2, 11)
  {
    assert forall k :: 2 <= k < 11 ==> INPUT[k] == RECORD[k - 2];
  }

  /** `get_seqs`, as written and repaired, extracts that record. */
  lemma InputScans()
    ensures Scan([INPUT]) == Ok([RECORD])
    ensures ScanFixed([INPUT]) == [RECORD]
  {
    InputRecords();
    assert Flatten([INPUT]) == INPUT by {
      assert [INPUT][1..] == [];
    }
    ScanFirstChunk([INPUT]);
    ScanFixedComplete([INPUT]);
  }

  /** Line 44 strips the newline; the keys are `AAA` and `CCC`, and `AAA`
      comes first. */
  lemma GuideKeys()
    ensures Strip(GUIDE_LINES[0]) == AAA && Strip(GUIDE_LINES[1]) == CCC
    ensures GuideMap(GUIDE_LINES).Keys == {AAA, CCC}
  {
    StripNewline(AAA);
    StripNewline(CCC);
    TwoLineKeys(GUIDE_LINES);
  }

  lemma StripNewline(x: Bytes)
    requires x == [] || (!IsSpace(x[0]) && !IsSpace(x[|x| - 1]))
    ensures Strip(x + [10]) == x
  {
    StripPadding([], x, [10]);
    assert [] + x + [10] == x + [10];
  }

  /** A guide file of two lines has the two stripped lines as its keys. */
  lemma TwoLineKeys(lines: seq<Bytes>)
    requires |lines| == 2
    ensures GuideMap(lines).Keys == {Strip(lines[0]), Strip(lines[1])}
  {
    var s0, s1 := Strip(lines[0]), Strip(lines[1]);
    assert StripAll(lines) == [s0, s1];
    GuideMapKeys(lines);
  }

  /** The windows at offsets 0 to 6: `AAA` at 0 and 6, `CCC` at 3. */
  lemma RecordWindows(rec: Bytes)
    requires rec == RECORD
    ensures Window(rec, 0, 3) == AAA && Window(rec, 3, 3) == CCC
    ensures Window(rec, 6, 3) == AAA
    ensures forall i :: 1 <= i < 6 && i != 3 ==> Window(rec, i, 3) != AAA && Window(rec, i, 3) != CCC
  {
    forall i | 0 <= i <= 6 ensures Window(rec, i, 3) == rec[i .. i + 3] {
      WindowInside(rec, i, 3);
    }
    assert Window(rec, 1, 3)[0] == 65 && Window(rec, 1, 3)[2] == 67;
    assert Window(rec, 2, 3)[0] == 65 && Window(rec, 2, 3)[1] == 67;
    assert Window(rec, 4, 3)[0] == 67 && Window(rec, 4, 3)[2] == 65;
    assert Window(rec, 5, 3)[0] == 67 && Window(rec, 5, 3)[1] == 65;
  }

  /** The worker's range (`L - K = 6` offsets) finds `AAA` once and `CCC`
      once; the full range (7 offsets) finds `AAA` twice and `CCC` once. */
  lemma RecordHits(rec: Bytes)
    requires rec == RECORD
    ensures Hits(AAA, rec, 6, 3) == 1 && Hits(AAA, rec, 7, 3) == 2
    ensures Hits(CCC, rec, 6, 3) == 1 && Hits(CCC, rec, 7, 3) == 1
  {
    RecordWindows(rec);
    assert Hits(AAA, rec, 1, 3) == 1 && Hits(CCC, rec, 1, 3) == 0;
    assert Hits(AAA, rec, 3, 3) == 1 && Hits(CCC, rec, 3, 3) == 0;
    assert Hits(AAA, rec, 4, 3) == 1 && Hits(CCC, rec, 4, 3) == 1;
  }

  lemma SingleRecordHits(recs: seq<Bytes>, g: Bytes, n: int)
    requires recs == [RECORD]
    ensures RecordsHits(g, recs, n, 3) == Hits(g, RECORD, n, 3)
  {
    assert recs[..0] == [];
  }

  lemma SingleBatch(recs: seq<Bytes>)
    requires recs == [RECORD]
    ensures Batched(recs) == [recs] && LastBatch(recs) == recs
  {
  }

  /** As written, with any positive number of workers: the last batch is
      counted twice, and the window at offset 6 never. */
  lemma ScenarioAsWritten(chunks: seq<Bytes>, lines: seq<Bytes>, numWorkers: nat)
    requires chunks == [INPUT] && lines == GUIDE_LINES && numWorkers > 0
    ensures Expected(chunks, lines, numWorkers) == Ok(map[AAA := 2, CCC := 2])
  {
    InputScans();
    GuideKeys();
    ExpectedOk(chunks, lines, numWorkers, [RECORD]);
    AsWrittenTotals({AAA, CCC}, [RECORD], numWorkers);
  }

  lemma AsWrittenTotals(keys: set<Bytes>, recs: seq<Bytes>, numWorkers: nat)
    requires keys == {AAA, CCC} && recs == [RECORD] && numWorkers > 0
    ensures Totals(keys, recs, 3, numWorkers) == map[AAA := 2, CCC := 2]
  {
    SingleBatch(recs);
    RecordHits(RECORD);
    SingleRecordHits(recs, AAA, 6);
    SingleRecordHits(recs, CCC, 6);
    var m := Totals(keys, recs, 3, numWorkers);
    assert m[AAA] == 2 && m[CCC] == 2;
    MapOfTwo(m, AAA, CCC);
  }

  /** Repaired, every occurrence is counted once. */
  lemma ScenarioFixed(chunks: seq<Bytes>, lines: seq<Bytes>)
    requires chunks == [INPUT] && lines == GUIDE_LINES
    ensures ExpectedFixed(chunks, lines) == Ok(map[AAA := 2, CCC := 1])
  {
    InputScans();
    GuideKeys();
    FixedTotalsOfScenario({AAA, CCC}, [RECORD]);
  }

  lemma FixedTotalsOfScenario(keys: set<Bytes>, recs: seq<Bytes>)
    requires keys == {AAA, CCC} && recs == [RECORD]
    ensures FixedTotals(keys, recs, 3) == map[AAA := 2, CCC := 1]
  {
    RecordHits(RECORD);
    FixedAtRecord(AAA, recs);
    FixedAtRecord(CCC, recs);
    var m := FixedTotals(keys, recs, 3);
    assert m[AAA] == 2 && m[CCC] == 1;
    MapOfTwo(m, AAA, CCC);
  }

  lemma FixedAtRecord(g: Bytes, recs: seq<Bytes>)
    requires recs == [RECORD]
    ensures FixedAt(g, recs, 3) == Hits(g, RECORD, 7, 3)
  {
    FixedAtFullRange(g, recs, 3);
    SingleRecordHits(recs, g, 7);
  }

  /** A map is determined by its two keys and their values. */
  lemma MapOfTwo(m: map<Bytes, nat>, a: Bytes, b: Bytes)
    requires m.Keys == {a, b}
    ensures m == map[a := m[a], b := m[b]]
  {
  }
}
