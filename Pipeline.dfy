/**
  The driver `go` (fastqsearch.py:41-67): the guide map built from the lines
  of the guide file, the choice of the key length `K` and the record length
  `L`, the list of dispatched tasks (with the last batch sent twice), the
  split of that list among the workers, and the summation of their partial
  maps into the zero-initialised guide map.
 */
module Pipeline {
  import opened Base
  import opened Pattern
  import opened Extract
  import opened Counting

  // ---------------------------------------------------------------------
  // `bytes.strip()` (line 44)
  // ---------------------------------------------------------------------

  /** The ASCII whitespace `bytes.strip()` removes: space, `\t`, `\n`,
      `\v`, `\f` and `\r`. */
  predicate IsSpace(b: Byte)
  {
    b == 32 || 9 <= b <= 13
  }

  predicate AllSpace(s: Bytes)
  {
    forall k :: 0 <= k < |s| ==> IsSpace(s[k])
  }

  /** Length of the whitespace prefix of `s`. */
  function LeadingSpaces(s: Bytes): (n: nat)
    ensures n <= |s|
    ensures forall k :: 0 <= k < n ==> IsSpace(s[k])
    ensures n < |s| ==> !IsSpace(s[n])
    decreases |s|
  {
    if s == [] || !IsSpace(s[0]) then 0
    else
      var m := LeadingSpaces(s[1..]);
      assert forall k :: 1 <= k < m + 1 ==> s[k] == s[1..][k - 1];
      m + 1
  }

  /** Length of the whitespace suffix of `s`. */
  function TrailingSpaces(s: Bytes): (n: nat)
    ensures n <= |s|
    ensures forall k :: |s| - n <= k < |s| ==> IsSpace(s[k])
    ensures n < |s| ==> !IsSpace(s[|s| - n - 1])
    decreases |s|
  {
    if s == [] || !IsSpace(s[|s| - 1]) then 0
    else
      var m := TrailingSpaces(s[..|s| - 1]);
      assert forall k :: |s| - (m + 1) <= k < |s| - 1 ==> s[k] == s[..|s| - 1][k];
      m + 1
  }

  /** `s.strip()`: `s` without its leading and trailing whitespace. */
  function Strip(s: Bytes): (r: Bytes)
    ensures |r| <= |s|
    ensures r == [] || (!IsSpace(r[0]) && !IsSpace(r[|r| - 1]))
  {
    var a := LeadingSpaces(s);
    if a == |s| then []
    else
      var e := |s| - TrailingSpaces(s);
      assert a < e;
      s[a..e]
  }

  /** What `Strip` removes is whitespace: `s` is `Strip(s)` with a
      whitespace prefix and a whitespace suffix. */
  lemma StripShape(s: Bytes)
    ensures var a := LeadingSpaces(s);
      var e := a + |Strip(s)|;
      && e <= |s|
      && Strip(s) == s[a..e]
      && (forall k :: 0 <= k < a ==> IsSpace(s[k]))
      && (forall k :: e <= k < |s| ==> IsSpace(s[k]))
  {
  }

  lemma {:induction false} LeadingOf(p: Bytes, y: Bytes)
    requires AllSpace(p)
    requires y == [] || !IsSpace(y[0])
    ensures LeadingSpaces(p + y) == |p|
    decreases |p|
  {
    if p == [] {
      assert p + y == y;
    } else {
      assert (p + y)[1..] == p[1..] + y;
      assert AllSpace(p[1..]) by {
        forall k | 0 <= k < |p[1..]| ensures IsSpace(p[1..][k]) {
          assert p[1..][k] == p[k + 1];
        }
      }
      LeadingOf(p[1..], y);
    }
  }

  lemma {:induction false} TrailingOf(x: Bytes, q: Bytes)
    requires AllSpace(q)
    requires x == [] || !IsSpace(x[|x| - 1])
    ensures TrailingSpaces(x + q) == |q|
    decreases |q|
  {
    if q == [] {
      assert x + q == x;
    } else {
      var init := q[..|q| - 1];
      assert (x + q)[..|x + q| - 1] == x + init;
      assert AllSpace(init) by {
        forall k | 0 <= k < |init| ensures IsSpace(init[k]) {
          assert init[k] == q[k];
        }
      }
      TrailingOf(x, init);
    }
  }

  /** `Strip` removes exactly the whitespace padding around a word that
      neither starts nor ends with whitespace. */
  lemma StripPadding(p: Bytes, x: Bytes, q: Bytes)
    requires AllSpace(p) && AllSpace(q)
    requires x == [] || (!IsSpace(x[0]) && !IsSpace(x[|x| - 1]))
    ensures Strip(p + x + q) == x
  {
    var s := p + x + q;
    if x == [] {
      assert s == p + q + x;
      assert AllSpace(p + q) by {
        forall k | 0 <= k < |p + q| ensures IsSpace((p + q)[k]) {
          if k < |p| { assert (p + q)[k] == p[k]; } else { assert (p + q)[k] == q[k - |p|]; }
        }
      }
      LeadingOf(p + q, x);
    } else {
      assert s == p + (x + q);
      LeadingOf(p, x + q);
      assert s == (p + x) + q;
      TrailingOf(p + x, q);
      assert s[|p|..|p| + |x|] == x;
    }
  }

  /** Stripping twice changes nothing. */
  lemma StripIdempotent(s: Bytes)
    ensures Strip(Strip(s)) == Strip(s)
  {
    var r := Strip(s);
    assert r == [] + r + [];
    StripPadding([], r, []);
  }

  // ---------------------------------------------------------------------
  // The guide map (line 44) and the key length (line 52)
  // ---------------------------------------------------------------------

  /** The guide lines, each stripped. */
  function StripAll(lines: seq<Bytes>): (r: seq<Bytes>)
    ensures |r| == |lines|
    ensures forall i :: 0 <= i < |lines| ==> r[i] == Strip(lines[i])
    decreases |lines|
  {
    if lines == [] then []
    else StripAll(lines[..|lines| - 1]) + [Strip(lines[|lines| - 1])]
  }

  /** The keys of a dictionary built from `xs` in order, in its insertion
      order: an element is added unless it is already there. */
  function Dedup<T(==)>(xs: seq<T>): (ys: seq<T>)
    ensures |ys| <= |xs|
    ensures xs != [] ==> ys != [] && ys[0] == xs[0]
    decreases |xs|
  {
    if xs == [] then []
    else
      var init := xs[..|xs| - 1];
      var ys := Dedup(init);
      assert init != [] ==> init[0] == xs[0];
      if xs[|xs| - 1] in ys then ys else ys + [xs[|xs| - 1]]
  }

  /** Every element of `xs` is a key ... */
  lemma {:induction false} DedupHas<T>(xs: seq<T>)
    ensures forall i :: 0 <= i < |xs| ==> xs[i] in Dedup(xs)
    decreases |xs|
  {
    if xs != [] {
      var init := xs[..|xs| - 1];
      DedupHas(init);
      forall i | 0 <= i < |xs| ensures xs[i] in Dedup(xs) {
        if i < |init| {
          assert xs[i] == init[i];
        }
      }
    }
  }

  /** ... nothing else is ... */
  lemma {:induction false} DedupOnly<T>(xs: seq<T>)
    ensures forall k :: k in Dedup(xs) ==> k in xs
    decreases |xs|
  {
    if xs != [] {
      var init := xs[..|xs| - 1];
      DedupOnly(init);
      forall k | k in Dedup(xs) ensures k in xs {
        if k in Dedup(init) {
          assert k in init;
        }
      }
    }
  }

  /** No element of `xs` appears twice. */
  predicate Distinct<T(==)>(xs: seq<T>)
  {
    forall i, j :: 0 <= i < j < |xs| ==> xs[i] != xs[j]
  }

  /** ... and each key is there once. */
  lemma {:induction false} DedupDistinct<T>(xs: seq<T>)
    ensures Distinct(Dedup(xs))
    decreases |xs|
  {
    if xs != [] {
      var ys := Dedup(xs[..|xs| - 1]);
      var x := xs[|xs| - 1];
      DedupDistinct(xs[..|xs| - 1]);
      if x !in ys {
        assert Dedup(xs) == ys + [x];
        DistinctSnoc(ys, x);
      }
    }
  }

  lemma DistinctSnoc<T>(xs: seq<T>, x: T)
    requires Distinct(xs) && x !in xs
    ensures Distinct(xs + [x])
  {
    var ys := xs + [x];
    forall i, j | 0 <= i < j < |ys| ensures ys[i] != ys[j] {
      assert ys[i] == xs[i];
      if j < |xs| {
        assert ys[j] == xs[j];
      }
    }
  }

  /** The guide map of line 44: the stripped lines, each a key at 0. */
  function GuideMap(lines: seq<Bytes>): (g: map<Bytes, nat>)
    ensures forall i :: 0 <= i < |lines| ==> Strip(lines[i]) in g
    ensures forall k :: k in g ==> exists i :: 0 <= i < |lines| && k == Strip(lines[i])
    ensures forall k :: k in g ==> g[k] == 0
  {
    StrippedKeys(lines);
    map k | k in Dedup(StripAll(lines)) :: 0
  }

  /** The distinct stripped lines are exactly the stripped lines. */
  lemma StrippedKeys(lines: seq<Bytes>)
    ensures forall i :: 0 <= i < |lines| ==> Strip(lines[i]) in Dedup(StripAll(lines))
    ensures forall k :: k in Dedup(StripAll(lines)) ==> exists i :: 0 <= i < |lines| && k == Strip(lines[i])
  {
    var stripped := StripAll(lines);
    DedupHas(stripped);
    DedupOnly(stripped);
  }

  /** The keys of the guide map are the stripped lines. */
  lemma GuideMapKeys(lines: seq<Bytes>)
    ensures forall k :: k in GuideMap(lines) <==> k in StripAll(lines)
  {
    DedupHas(StripAll(lines));
    DedupOnly(StripAll(lines));
  }

  /** Line 52: `K` is the length of the first key of the guide map, which is
      the first guide line stripped; an empty guide file has no first key. */
  function KeyLength(lines: seq<Bytes>): (r: Result<nat>)
    ensures lines == [] <==> r == Err(NoGuideKeys)
    ensures r.Ok? ==> r.value == |Strip(lines[0])| && Strip(lines[0]) in GuideMap(lines)
  {
    var ks := Dedup(StripAll(lines));
    if ks == [] then Err(NoGuideKeys) else Ok(|ks[0]|)
  }

  // ---------------------------------------------------------------------
  // Dispatch (lines 53-58)
  // ---------------------------------------------------------------------

  /** Every batch as a task, in yield order. */
  function TasksOf(batches: seq<seq<Bytes>>, seqLength: nat, keyLength: nat): (tasks: seq<Task>)
    ensures |tasks| == |batches|
    decreases |batches|
  {
    if batches == [] then []
    else TasksOf(batches[..|batches| - 1], seqLength, keyLength) + [Task(batches[|batches| - 1], seqLength, keyLength)]
  }

  /** Task `i` carries batch `i`. */
  lemma {:induction false} TasksOfAt(batches: seq<seq<Bytes>>, seqLength: nat, keyLength: nat)
    ensures forall i :: 0 <= i < |batches| ==>
      TasksOf(batches, seqLength, keyLength)[i] == Task(batches[i], seqLength, keyLength)
    decreases |batches|
  {
    if batches != [] {
      var init := batches[..|batches| - 1];
      TasksOfAt(init, seqLength, keyLength);
      forall i | 0 <= i < |batches|
        ensures TasksOf(batches, seqLength, keyLength)[i] == Task(batches[i], seqLength, keyLength)
      {
        if i < |init| {
          assert batches[i] == init[i];
        }
      }
    }
  }

  /** The tasks lines 54-58 put on the queue: every batch once, then the
      last batch once more. */
  function Dispatched(batches: seq<seq<Bytes>>, seqLength: nat, keyLength: nat): (tasks: seq<Task>)
    requires batches != []
    ensures |tasks| == |batches| + 1
    ensures tasks[..|batches|] == TasksOf(batches, seqLength, keyLength)
    ensures tasks[|batches|] == tasks[|batches| - 1]
  {
    TasksOf(batches, seqLength, keyLength) + [Task(batches[|batches| - 1], seqLength, keyLength)]
  }

  /** Lines 53-58: the loop that fixes `seq_length` from the first record of
      the first batch and enqueues every batch, then the extra enqueue of
      the last batch, where `seqs` is unbound if no batch was yielded. */
  method Dispatch(batches: seq<seq<Bytes>>, keyLength: nat) returns (r: Result<seq<Task>>)
    requires batches != [] ==> batches[0] != []
    ensures batches == [] ==> r == Err(UnboundLastBatch)
    ensures batches != [] ==> r == Ok(Dispatched(batches, |batches[0][0]|, keyLength))
  {
    var tasks: seq<Task> := [];
    var seqLength: Option<nat> := None;
    var last: Option<seq<Bytes>> := None;
    for i := 0 to |batches|
      invariant i == 0 ==> seqLength == None && last == None
      invariant i > 0 ==> seqLength == Some(|batches[0][0]|) && last == Some(batches[i - 1])
      invariant |tasks| == i
      invariant forall j :: 0 <= j < i ==> tasks[j] == Task(batches[j], |batches[0][0]|, keyLength)
    {
      var seqs := batches[i];
      if seqLength.None? {
        seqLength := Some(|seqs[0]|);
      }
      tasks := tasks + [Task(seqs, seqLength.value, keyLength)];
      last := Some(seqs);
    }
    if last.None? {
      return Err(UnboundLastBatch);
    }
    tasks := tasks + [Task(last.value, seqLength.value, keyLength)];
    TasksOfAt(batches, |batches[0][0]|, keyLength);
    assert tasks[..|batches|] == TasksOf(batches, |batches[0][0]|, keyLength);
    r := Ok(tasks);
  }

  /** `Hits` summed batch by batch. */
  function BatchesHits(g: Bytes, batches: seq<seq<Bytes>>, n: int, keyLength: nat): nat
    decreases |batches|
  {
    if batches == [] then 0
    else BatchesHits(g, batches[..|batches| - 1], n, keyLength) + RecordsHits(g, batches[|batches| - 1], n, keyLength)
  }

  /** Enqueuing each batch once counts every record once. */
  lemma TasksOfCount(g: Bytes, batches: seq<seq<Bytes>>, seqLength: nat, keyLength: nat)
    ensures Count(g, TasksOf(batches, seqLength, keyLength))
      == RecordsHits(g, Flatten(batches), seqLength - keyLength, keyLength)
  {
    TasksOfBatches(g, batches, seqLength, keyLength);
    BatchesHitsFlatten(g, batches, seqLength - keyLength, keyLength);
  }

  lemma {:induction false} TasksOfBatches(g: Bytes, batches: seq<seq<Bytes>>, seqLength: nat, keyLength: nat)
    ensures Count(g, TasksOf(batches, seqLength, keyLength))
      == BatchesHits(g, batches, seqLength - keyLength, keyLength)
    decreases |batches|
  {
    if batches == [] {
      NoBatchesNoTasks(batches, seqLength, keyLength);
    } else {
      TasksOfBatches(g, batches[..|batches| - 1], seqLength, keyLength);
      TasksOfSnoc(g, batches, seqLength, keyLength);
    }
  }

  lemma {:induction false} BatchesHitsFlatten(g: Bytes, batches: seq<seq<Bytes>>, n: int, keyLength: nat)
    ensures BatchesHits(g, batches, n, keyLength) == RecordsHits(g, Flatten(batches), n, keyLength)
    decreases |batches|
  {
    if batches == [] {
      assert Flatten(batches) == [];
    } else {
      BatchesHitsFlatten(g, batches[..|batches| - 1], n, keyLength);
      FlattenHitsSnoc(g, batches, n, keyLength);
    }
  }

  lemma NoBatchesNoTasks(batches: seq<seq<Bytes>>, seqLength: nat, keyLength: nat)
    requires batches == []
    ensures TasksOf(batches, seqLength, keyLength) == [] && Flatten(batches) == []
  {
  }

  lemma TasksOfSnoc(g: Bytes, batches: seq<seq<Bytes>>, seqLength: nat, keyLength: nat)
    requires batches != []
    ensures Count(g, TasksOf(batches, seqLength, keyLength))
      == Count(g, TasksOf(batches[..|batches| - 1], seqLength, keyLength))
       + RecordsHits(g, batches[|batches| - 1], seqLength - keyLength, keyLength)
  {
    TasksOfUnfold(batches, seqLength, keyLength);
    CountSnoc(g, TasksOf(batches[..|batches| - 1], seqLength, keyLength), Task(batches[|batches| - 1], seqLength, keyLength));
  }

  lemma TasksOfUnfold(batches: seq<seq<Bytes>>, seqLength: nat, keyLength: nat)
    requires batches != []
    ensures TasksOf(batches, seqLength, keyLength)
      == TasksOf(batches[..|batches| - 1], seqLength, keyLength) + [Task(batches[|batches| - 1], seqLength, keyLength)]
  {
  }

  lemma FlattenHitsSnoc(g: Bytes, batches: seq<seq<Bytes>>, n: int, keyLength: nat)
    requires batches != []
    ensures RecordsHits(g, Flatten(batches), n, keyLength)
      == RecordsHits(g, Flatten(batches[..|batches| - 1]), n, keyLength)
       + RecordsHits(g, batches[|batches| - 1], n, keyLength)
  {
    var init := batches[..|batches| - 1];
    var b := batches[|batches| - 1];
    assert init + [b] == batches;
    FlattenSnoc(init, b);
    RecordsHitsAppend(g, Flatten(init), b, n, keyLength);
  }

  /** Lines 52-58 as written: the final count is the count over every
      record plus the count over the last batch again. */
  lemma DispatchedCount(g: Bytes, batches: seq<seq<Bytes>>, seqLength: nat, keyLength: nat)
    requires batches != []
    ensures Count(g, Dispatched(batches, seqLength, keyLength))
      == RecordsHits(g, Flatten(batches), seqLength - keyLength, keyLength)
       + RecordsHits(g, batches[|batches| - 1], seqLength - keyLength, keyLength)
  {
    var tasks := Dispatched(batches, seqLength, keyLength);
    assert tasks[..|tasks| - 1] == TasksOf(batches, seqLength, keyLength);
    TasksOfCount(g, batches, seqLength, keyLength);
  }

  /** In `AAACCCAAA`, offsets 0 to 5 hold `CCC` once. */
  lemma ExampleHitsCCC()
    ensures Hits([67, 67, 67], [65, 65, 65, 67, 67, 67, 65, 65, 65], 6, 3) == 1
  {
    var rec: Bytes := [65, 65, 65, 67, 67, 67, 65, 65, 65];
    var g: Bytes := [67, 67, 67];
    forall i | 0 <= i <= 6 ensures Window(rec, i, 3) == rec[i .. i + 3] {
      WindowInside(rec, i, 3);
    }
    assert Window(rec, 0, 3) != g by { assert Window(rec, 0, 3)[0] == rec[0]; }
    assert Window(rec, 1, 3) != g by { assert Window(rec, 1, 3)[0] == rec[1]; }
    assert Window(rec, 2, 3) != g by { assert Window(rec, 2, 3)[0] == rec[2]; }
    assert Window(rec, 3, 3) == g;
    assert Window(rec, 4, 3) != g by { assert Window(rec, 4, 3)[2] == rec[6]; }
    assert Window(rec, 5, 3) != g by { assert Window(rec, 5, 3)[1] == rec[6]; }
  }

  /** With a single batch holding `AAACCCAAA` (`L = 9`, `K = 3`), `CCC`
      occurs once but ends up counted twice. */
  lemma LastBatchCountedTwice()
    ensures var rec: Bytes := [65, 65, 65, 67, 67, 67, 65, 65, 65];
      && Count([67, 67, 67], TasksOf([[rec]], 9, 3)) == 1
      && Count([67, 67, 67], Dispatched([[rec]], 9, 3)) == 2
  {
    var rec: Bytes := [65, 65, 65, 67, 67, 67, 65, 65, 65];
    var g: Bytes := [67, 67, 67];
    ExampleHitsCCC();
    assert RecordsHits(g, [rec], 6, 3) == 1 by {
      assert [rec][..0] == [];
    }
    assert Flatten([[rec]]) == [rec];
    TasksOfCount(g, [[rec]], 9, 3);
    DispatchedCount(g, [[rec]], 9, 3);
  }

  // ---------------------------------------------------------------------
  // The split among workers (lines 47-50, 61-62)
  // ---------------------------------------------------------------------

  /** The tasks worker `w` of `n` takes off the queue, in dispatch order,
      when the `i`-th dispatched task goes to worker `schedule(i) % n`. */
  function Assigned(tasks: seq<Task>, schedule: nat -> nat, n: nat, w: nat): seq<Task>
    requires n > 0
    decreases |tasks|
  {
    if tasks == [] then []
    else
      var i := |tasks| - 1;
      Assigned(tasks[..i], schedule, n, w) + (if schedule(i) % n == w then [tasks[i]] else [])
  }

  /** The counts of `g` of workers `0 .. upto - 1`, summed. */
  function WorkerSum(g: Bytes, tasks: seq<Task>, schedule: nat -> nat, n: nat, upto: nat): nat
    requires n > 0
  {
    if upto == 0 then 0
    else WorkerSum(g, tasks, schedule, n, upto - 1) + Count(g, Assigned(tasks, schedule, n, upto - 1))
  }

  lemma AssignedSnoc(init: seq<Task>, t: Task, schedule: nat -> nat, n: nat, w: nat)
    requires n > 0
    ensures Assigned(init + [t], schedule, n, w)
      == Assigned(init, schedule, n, w) + (if schedule(|init|) % n == w then [t] else [])
  {
    assert (init + [t])[..|init|] == init;
  }

  lemma {:induction false} WorkerSumSnoc(g: Bytes, init: seq<Task>, t: Task, schedule: nat -> nat, n: nat, upto: nat)
    requires n > 0
    ensures WorkerSum(g, init + [t], schedule, n, upto)
      == WorkerSum(g, init, schedule, n, upto) + (if schedule(|init|) % n < upto then TaskCount(g, t) else 0)
  {
    var j := schedule(|init|) % n;
    if upto == 0 {
      assert WorkerSum(g, init + [t], schedule, n, upto) == 0 == WorkerSum(g, init, schedule, n, upto);
    } else {
      var w := upto - 1;
      WorkerSumSnoc(g, init, t, schedule, n, w);
      AssignedSnoc(init, t, schedule, n, w);
      var mine := if j == w then [t] else [];
      CountAppend(g, Assigned(init, schedule, n, w), mine);
      MineCount(g, t, j == w);
    }
  }

  lemma MineCount(g: Bytes, t: Task, mine: bool)
    ensures Count(g, if mine then [t] else []) == if mine then TaskCount(g, t) else 0
  {
    if mine {
      CountSingle(g, t);
    }
  }

  /** However the dispatched tasks are shared among `n` workers, the workers'
      counts add up to the count over all tasks. */
  lemma {:induction false} SplitCount(g: Bytes, tasks: seq<Task>, schedule: nat -> nat, n: nat)
    requires n > 0
    ensures WorkerSum(g, tasks, schedule, n, n) == Count(g, tasks)
    decreases |tasks|
  {
    if tasks == [] {
      NoTasksNoSum(g, schedule, n, n);
    } else {
      var init := tasks[..|tasks| - 1];
      assert init + [tasks[|tasks| - 1]] == tasks;
      SplitCount(g, init, schedule, n);
      WorkerSumSnoc(g, init, tasks[|tasks| - 1], schedule, n, n);
    }
  }

  lemma {:induction false} NoTasksNoSum(g: Bytes, schedule: nat -> nat, n: nat, upto: nat)
    requires n > 0
    ensures WorkerSum(g, [], schedule, n, upto) == 0
  {
    if upto > 0 {
      NoTasksNoSum(g, schedule, n, upto - 1);
    }
  }

  /** The counts over a list of task lists, summed. */
  function PartsCount(g: Bytes, parts: seq<seq<Task>>): nat
  {
    if parts == [] then 0 else Count(g, parts[0]) + PartsCount(g, parts[1..])
  }

  lemma {:induction false} CountFlatten(g: Bytes, parts: seq<seq<Task>>)
    ensures Count(g, Flatten(parts)) == PartsCount(g, parts)
  {
    if parts != [] {
      CountFlatten(g, parts[1..]);
      CountAppend(g, parts[0], Flatten(parts[1..]));
    }
  }

  /** Any partition of the dispatched tasks among workers, in any order,
      yields the same total: the sum of the parts' counts depends only on
      which tasks were dispatched, not on who counted them or when. */
  lemma PartitionCount(g: Bytes, parts: seq<seq<Task>>, tasks: seq<Task>)
    requires multiset(Flatten(parts)) == multiset(tasks)
    ensures PartsCount(g, parts) == Count(g, tasks)
  {
    CountFlatten(g, parts);
    CountPermutation(g, Flatten(parts), tasks);
  }

  // ---------------------------------------------------------------------
  // Aggregation (lines 64-66)
  // ---------------------------------------------------------------------

  /** The value of `g` summed over the partial maps, 0 where it is absent. */
  function SumAt(g: Bytes, partials: seq<map<Bytes, nat>>): nat
    decreases |partials|
  {
    if partials == [] then 0
    else
      var p := partials[|partials| - 1];
      SumAt(g, partials[..|partials| - 1]) + (if g in p then p[g] else 0)
  }

  /** Line 65-66 for one partial map: `lookup[k] += v` for each of its
      items, in any order; a key outside `lookup` would raise. */
  method AddPartial(lookup0: map<Bytes, nat>, p: map<Bytes, nat>) returns (lookup: map<Bytes, nat>)
    requires p.Keys <= lookup0.Keys
    ensures lookup.Keys == lookup0.Keys
    ensures forall g :: g in lookup ==> lookup[g] == lookup0[g] + (if g in p then p[g] else 0)
  {
    lookup := lookup0;
    var pending := p.Keys;
    while pending != {}
      invariant pending <= p.Keys
      invariant lookup.Keys == lookup0.Keys
      invariant forall g :: g in lookup ==> lookup[g] == lookup0[g] + (if g in p && g !in pending then p[g] else 0)
      decreases |pending|
    {
      var k :| k in pending;
      lookup := lookup[k := lookup[k] + p[k]];
      pending := pending - {k};
    }
  }

  /** Lines 64-66: every partial map added into `lookup0`. */
  method Aggregate(lookup0: map<Bytes, nat>, partials: seq<map<Bytes, nat>>) returns (lookup: map<Bytes, nat>)
    requires forall i :: 0 <= i < |partials| ==> partials[i].Keys <= lookup0.Keys
    ensures lookup.Keys == lookup0.Keys
    ensures forall g :: g in lookup ==> lookup[g] == lookup0[g] + SumAt(g, partials)
  {
    lookup := lookup0;
    for i := 0 to |partials|
      invariant lookup.Keys == lookup0.Keys
      invariant forall g :: g in lookup ==> lookup[g] == lookup0[g] + SumAt(g, partials[..i])
    {
      lookup := AddPartial(lookup, partials[i]);
      assert partials[..i + 1][..i] == partials[..i];
    }
    assert partials[..|partials|] == partials;
  }

  // ---------------------------------------------------------------------
  // The whole run
  // ---------------------------------------------------------------------

  /** The last batch `get_seqs` yields for the records `recs`. */
  function LastBatch(recs: seq<Bytes>): (b: seq<Bytes>)
    requires recs != []
    ensures 0 < |b| <= BATCH_SIZE
  {
    BatchedShape(recs);
    var bs := Batched(recs);
    bs[|bs| - 1]
  }

  /** The final count of `g` for a non-empty list of records `recs`, key
      length `keyLength` and `numWorkers` workers. */
  function TotalAt(g: Bytes, recs: seq<Bytes>, keyLength: nat, numWorkers: nat): nat
    requires recs != []
  {
    var n := |recs[0]| - keyLength;
    if numWorkers == 0 then 0
    else RecordsHits(g, recs, n, keyLength) + RecordsHits(g, LastBatch(recs), n, keyLength)
  }

  function Totals(keys: set<Bytes>, recs: seq<Bytes>, keyLength: nat, numWorkers: nat): (m: map<Bytes, nat>)
    requires recs != []
    ensures m.Keys == keys
    ensures forall g :: g in m ==> m[g] == TotalAt(g, recs, keyLength, numWorkers)
  {
    map g | g in keys :: TotalAt(g, recs, keyLength, numWorkers)
  }

  /** What `go` returns: an empty guide file fails at line 52, a first
      chunk without a match at line 26, an input without records at
      line 58; otherwise every guide key maps to its count over all records
      plus its count over the last batch. */
  function Expected(chunks: seq<Bytes>, lines: seq<Bytes>, numWorkers: nat): Result<map<Bytes, nat>>
  {
    if lines == [] then Err(NoGuideKeys)
    else match Scan(chunks)
      case Err(f) => Err(f)
      case Ok(recs) =>
        if recs == [] then Err(UnboundLastBatch)
        else Ok(Totals(GuideMap(lines).Keys, recs, |Strip(lines[0])|, numWorkers))
  }

  /** `go` succeeds exactly when the guide file has a line and the first
      read of the input holds a complete record: an empty first read ends
      the input with no batch, and a first read without a record leaves `m`
      unbound. */
  lemma ExpectedSucceeds(chunks: seq<Bytes>, lines: seq<Bytes>, numWorkers: nat)
    ensures Expected(chunks, lines, numWorkers).Ok? <==>
      lines != [] && chunks != [] && Records(chunks[0]) != []
  {
    ScanFails(chunks);
    if chunks != [] && Records(chunks[0]) != [] {
      FirstPass(chunks);
      var c := chunks[0];
      var e := EndOf(c, 0);
      ScanFromBoundOk(chunks, 1, Drop(c, e), e);
    }
  }

  /** The success branch of `Expected`, unfolded. */
  lemma ExpectedOk(chunks: seq<Bytes>, lines: seq<Bytes>, numWorkers: nat, recs: seq<Bytes>)
    requires lines != [] && Scan(chunks) == Ok(recs) && recs != []
    ensures Expected(chunks, lines, numWorkers)
      == Ok(Totals(GuideMap(lines).Keys, recs, |Strip(lines[0])|, numWorkers))
  {
  }

  lemma FirstBatchFirstRecord(recs: seq<Bytes>)
    requires recs != []
    ensures Batched(recs) != [] && Batched(recs)[0] != []
    ensures Batched(recs)[0][0] == recs[0]
  {
    BatchedShape(recs);
    var bs := Batched(recs);
    assert bs[0] != [] by {
      if |bs| > 1 { assert |bs[0]| == BATCH_SIZE; }
    }
    assert Flatten(bs) == bs[0] + Flatten(bs[1..]);
  }

  /** The three worker-facing steps of `go` for a positive number of
      workers: the tasks each worker takes, its partial map, their sum. */
  method CountAll(lookup0: map<Bytes, nat>, tasks: seq<Task>, numWorkers: nat, schedule: nat -> nat)
    returns (lookup: map<Bytes, nat>)
    requires forall g :: g in lookup0 ==> lookup0[g] == 0
    ensures lookup.Keys == lookup0.Keys
    ensures forall g :: g in lookup ==> lookup[g] == if numWorkers == 0 then 0 else Count(g, tasks)
  {
    var keys := lookup0.Keys;
    var partials: seq<map<Bytes, nat>> := [];
    for w := 0 to numWorkers
      invariant |partials| == w
      invariant forall i :: 0 <= i < w ==> partials[i].Keys == keys
      invariant forall g :: g in keys ==> SumAt(g, partials) == if w == 0 then 0 else WorkerSum(g, tasks, schedule, numWorkers, w)
    {
      var p := Worker(keys, Assigned(tasks, schedule, numWorkers, w));
      assert (partials + [p])[..w] == partials;
      partials := partials + [p];
    }
    lookup := Aggregate(lookup0, partials);
    if numWorkers > 0 {
      forall g | g in keys ensures SumAt(g, partials) == Count(g, tasks) {
        SplitCount(g, tasks, schedule, numWorkers);
      }
    }
  }

  /** `TotalAt` is the count over the dispatched tasks. */
  lemma TotalAtIsCount(g: Bytes, recs: seq<Bytes>, keyLength: nat, numWorkers: nat)
    requires recs != []
    ensures TotalAt(g, recs, keyLength, numWorkers)
      == if numWorkers == 0 then 0 else Count(g, Dispatched(Batched(recs), |recs[0]|, keyLength))
  {
    var bs := Batched(recs);
    LastBatchIsLast(recs, bs);
    DispatchedCount(g, bs, |recs[0]|, keyLength);
  }

  lemma LastBatchIsLast(recs: seq<Bytes>, bs: seq<seq<Bytes>>)
    requires recs != [] && bs == Batched(recs)
    ensures Flatten(bs) == recs && bs != [] && LastBatch(recs) == bs[|bs| - 1]
  {
    BatchedShape(recs);
  }

  /** The count `CountAll` reaches over the dispatched tasks is the one
      `Totals` states. */
  lemma DispatchedTotals(keys: set<Bytes>, recs: seq<Bytes>, keyLength: nat, numWorkers: nat, total: map<Bytes, nat>)
    requires recs != []
    requires total.Keys == keys
    requires var tasks := Dispatched(Batched(recs), |recs[0]|, keyLength);
      forall g :: g in total ==> total[g] == if numWorkers == 0 then 0 else Count(g, tasks)
    ensures total == Totals(keys, recs, keyLength, numWorkers)
  {
    var totals := Totals(keys, recs, keyLength, numWorkers);
    forall g | g in total
      ensures total[g] == totals[g]
    {
      TotalAtIsCount(g, recs, keyLength, numWorkers);
    }
  }

  /** Lines 41-67: build the guide map, take `K` from its first key, run
      the extraction, dispatch the tasks, let `numWorkers` workers count
      the tasks `schedule` hands them and add their maps into the guide
      map. */
  method Go(chunks: seq<Bytes>, guideLines: seq<Bytes>, numWorkers: nat, schedule: nat -> nat)
    returns (r: Result<map<Bytes, nat>>)
    ensures r == Expected(chunks, guideLines, numWorkers)
  {
    var lookup := GuideMap(guideLines);
    var keyLength := KeyLength(guideLines);
    if keyLength.Err? {
      return Err(keyLength.error);
    }
    var got := GetSeqs(chunks);
    if got.Err? {
      return Err(got.error);
    }
    ghost var recs := Scan(chunks).value;
    if recs != [] {
      FirstBatchFirstRecord(recs);
    }
    var dispatched := Dispatch(got.value, keyLength.value);
    if dispatched.Err? {
      return Err(dispatched.error);
    }
    var total := CountAll(lookup, dispatched.value, numWorkers, schedule);
    DispatchedTotals(lookup.Keys, recs, keyLength.value, numWorkers, total);
    r := Ok(total);
  }

  // ---------------------------------------------------------------------
  // The whole run as evidently intended
  // ---------------------------------------------------------------------

  /** `go` with the three repairs: records extracted by `ScanFixed`, every
      batch dispatched once (so no failure without records) and the window
      range running to `L - K` inclusive, here written as a task whose
      record length is one more than `L`. */
  ghost function ExpectedFixed(chunks: seq<Bytes>, lines: seq<Bytes>): Result<map<Bytes, nat>>
  {
    if lines == [] then Err(NoGuideKeys)
    else
      var recs := ScanFixed(chunks);
      Ok(FixedTotals(GuideMap(lines).Keys, recs, |Strip(lines[0])|))
  }

  ghost function FixedTotals(keys: set<Bytes>, recs: seq<Bytes>, keyLength: nat): (m: map<Bytes, nat>)
    ensures m.Keys == keys
    ensures forall g :: g in m ==> m[g] == FixedAt(g, recs, keyLength)
  {
    map g | g in keys :: FixedAt(g, recs, keyLength)
  }

  /** The repaired count of `g`: every batch once, with the full window
      range. */
  ghost function FixedAt(g: Bytes, recs: seq<Bytes>, keyLength: nat): nat
  {
    var seqLength := if recs == [] then 0 else |recs[0]|;
    Count(g, TasksOf(Batched(recs), seqLength + 1, keyLength))
  }

  /** With the repairs, when no chunk is empty, every record has the length
      of the first and the key `g` has the length of the first key, `g`
      maps to the number of its occurrences in the records of the input. */
  lemma ExpectedFixedCountsOccurrences(chunks: seq<Bytes>, lines: seq<Bytes>, g: Bytes)
    requires forall t :: 0 <= t < |chunks| ==> chunks[t] != []
    requires var recs := Records(Flatten(chunks));
      forall j :: 0 <= j < |recs| ==> |recs[j]| == |recs[0]|
    requires lines != [] && g in GuideMap(lines) && |g| == |Strip(lines[0])|
    ensures ExpectedFixed(chunks, lines).Ok?
    ensures ExpectedFixed(chunks, lines).value[g] == AllOccurrences(g, Records(Flatten(chunks)))
  {
    ScanFixedComplete(chunks);
    var recs := Records(Flatten(chunks));
    FixedAtCountsOccurrences(g, recs);
  }

  lemma FixedAtCountsOccurrences(g: Bytes, recs: seq<Bytes>)
    requires forall j :: 0 <= j < |recs| ==> |recs[j]| == |recs[0]|
    ensures FixedAt(g, recs, |g|) == AllOccurrences(g, recs)
  {
    if recs == [] {
      NoRecordsNoCount(g, recs, |g|);
    } else {
      FixedAtFullRange(g, recs, |g|);
      FullRangeRecords(g, recs, |recs[0]|);
    }
  }

  lemma NoRecordsNoCount(g: Bytes, recs: seq<Bytes>, keyLength: nat)
    requires recs == []
    ensures FixedAt(g, recs, keyLength) == 0 && AllOccurrences(g, recs) == 0
  {
    assert Batched(recs) == [] && TasksOf([], 1, keyLength) == [];
  }

  /** A repaired task scans `L - K + 1` offsets of every record. */
  lemma FixedAtFullRange(g: Bytes, recs: seq<Bytes>, keyLength: nat)
    requires recs != []
    ensures FixedAt(g, recs, keyLength) == RecordsHits(g, recs, |recs[0]| - keyLength + 1, keyLength)
  {
    var bs := Batched(recs);
    assert Flatten(bs) == recs by {
      BatchedShape(recs);
    }
    TasksOfCount(g, bs, |recs[0]| + 1, keyLength);
  }
}
