/** Uploading a list in batches: the list is cut into contiguous slices of
    the batch size, numbered from 1, each slice is handed to a sink (the
    HTTP POST, abstracted as success or failure), and the outcomes are
    tallied into completed and failed batches. The thread pool only changes
    the order in which outcomes are tallied, which the tally ignores. */
module Batching {
  import opened Wrappers
  import opened Json
  import opened Seqs

  /** The defaults used when the environment sets nothing. */
  const DefaultBatchSize: int := 250
  const DefaultMaxThreads: int := 6

  /** `int(os.getenv(name, default))`, the parsed value given as `env`. */
  function Setting(env: Option<int>, default: int): int {
    if env.Some? then env.value else default
  }

  /** `args.x if args.x else SETTING`: a missing or zero command-line value
      falls back to the environment's setting. */
  function Effective(cli: Option<int>, setting: int): (r: int)
    ensures r == setting || (cli.Some? && r == cli.value)
    ensures r == 0 ==> setting == 0
    ensures cli.Some? && cli.value != 0 ==> r == cli.value
  {
    if cli.Some? && cli.value != 0 then cli.value else setting
  }

  /** The tuning values of a run, already parsed: `--batch-size` and
      `--max-threads` (absent when not given) and the `BATCH_SIZE` and
      `MAX_THREADS` environment values (absent when unset). */
  datatype Tuning = Tuning(cliSize: Option<int>, cliThreads: Option<int>, envSize: Option<int>, envThreads: Option<int>)

  /** The batch size `main` passes on. */
  function BatchSize(k: Tuning): int {
    Effective(k.cliSize, Setting(k.envSize, DefaultBatchSize))
  }

  /** The thread count `main` passes on. */
  function MaxThreads(k: Tuning): int {
    Effective(k.cliThreads, Setting(k.envThreads, DefaultMaxThreads))
  }

  /** With nothing on the command line or in the environment, a run uses
      batches of 250 and 6 threads. */
  lemma DefaultTuning()
    ensures BatchSize(Tuning(None, None, None, None)) == 250
    ensures MaxThreads(Tuning(None, None, None, None)) == 6
  {
  }

  /** The command line wins over the environment unless it is zero, and
      `--batch-size 0` is the same as leaving the flag out; likewise for
      the thread count. */
  lemma TuningPrecedence(k: Tuning)
    ensures k.cliSize.Some? && k.cliSize.value != 0 ==> BatchSize(k) == k.cliSize.value
    ensures k.cliThreads.Some? && k.cliThreads.value != 0 ==> MaxThreads(k) == k.cliThreads.value
    ensures BatchSize(k.(cliSize := Some(0))) == BatchSize(k.(cliSize := None))
    ensures MaxThreads(k.(cliThreads := Some(0))) == MaxThreads(k.(cliThreads := None))
    ensures BatchSize(k.(cliSize := None)) == (if k.envSize.Some? then k.envSize.value else 250)
    ensures MaxThreads(k.(cliThreads := None)) == (if k.envThreads.Some? then k.envThreads.value else 6)
  {
  }

  function Min(a: int, b: int): int {
    if a <= b then a else b
  }

  /** One prepared batch: its number, the batch count, and its items. */
  datatype Batch<T> = Batch(num: nat, total: nat, items: seq<T>)

  /** The list cut into consecutive slices of `size` items; the last slice
      takes what remains. */
  function Chunks<T>(items: seq<T>, size: nat): seq<seq<T>>
    requires size > 0
    decreases |items|
  {
    if |items| == 0 then []
    else
      var m := Min(size, |items|);
      [items[..m]] + Chunks(items[m..], size)
  }

  /** Slicing loses and duplicates nothing: the slices put back together
      are the list. */
  lemma {:induction false} ChunksFlatten<T>(items: seq<T>, size: nat)
    requires size > 0
    ensures Flatten(Chunks(items, size)) == items
    decreases |items|
  {
    if |items| > 0 {
      var m := Min(size, |items|);
      var cs := Chunks(items, size);
      ChunksFlatten(items[m..], size);
      assert cs[1..] == Chunks(items[m..], size);
      assert items[..m] + items[m..] == items;
    }
  }

  /** Every slice holds between 1 and `size` items, and only the last one
      may hold fewer than `size`. */
  lemma {:induction false} ChunksSizes<T>(items: seq<T>, size: nat)
    requires size > 0
    ensures forall k | 0 <= k < |Chunks(items, size)| :: 1 <= |Chunks(items, size)[k]| <= size
    ensures forall k | 0 <= k < |Chunks(items, size)| - 1 :: |Chunks(items, size)[k]| == size
    decreases |items|
  {
    if |items| > 0 {
      var m := Min(size, |items|);
      var cs := Chunks(items, size);
      var rest := Chunks(items[m..], size);
      ChunksSizes(items[m..], size);
      assert cs == [items[..m]] + rest;
      forall k | 0 <= k < |cs|
        ensures 1 <= |cs[k]| <= size
        ensures k < |cs| - 1 ==> |cs[k]| == size
      {
        if k == 0 {
          assert |cs[0]| == m;
        } else {
          assert cs[k] == rest[k - 1];
          assert 1 <= |rest[k - 1]| <= size;
          if k < |cs| - 1 {
            assert |rest[k - 1]| == size;
          }
        }
      }
    }
  }

  /** There are `ceil(n / size)` slices, the count the loader announces as
      `(n + size - 1) // size`. */
  lemma {:induction false} ChunksCount<T>(items: seq<T>, size: nat)
    requires size > 0
    ensures |Chunks(items, size)| == (|items| + size - 1) / size
    decreases |items|
  {
    var n := |items|;
    if n == 0 {
      DivSmall(size - 1, size);
    } else if n <= size {
      assert Chunks(items[n..], size) == [];
      DivOne(n + size - 1, size);
    } else {
      assert Chunks(items, size) == [items[..size]] + Chunks(items[size..], size);
      ChunksCount(items[size..], size);
      DivShift(n + size - 1, size);
    }
  }

  lemma MulAtLeast(x: int, b: int)
    requires x >= 1 && b > 0
    ensures x * b >= b
  {
  }

  /** Euclidean division is determined by quotient and remainder. */
  lemma DivUnique(a: int, b: int, q: int, r: int)
    requires b > 0 && 0 <= r < b && a == q * b + r
    ensures a / b == q
  {
    var d := q - a / b;
    assert d * b == a % b - r;
    if d >= 1 {
      MulAtLeast(d, b);
    } else if d <= -1 {
      MulAtLeast(-d, b);
    }
  }

  lemma DivSmall(a: nat, b: nat)
    requires a < b
    ensures a / b == 0
  {
    DivUnique(a, b, 0, a);
  }

  lemma DivOne(a: nat, b: nat)
    requires b <= a < 2 * b
    ensures a / b == 1
  {
    DivUnique(a, b, 1, a - b);
  }

  lemma DivShift(a: nat, b: nat)
    requires b > 0 && a >= b
    ensures a / b == (a - b) / b + 1
  {
    var q, r := (a - b) / b, (a - b) % b;
    assert a == (q + 1) * b + r;
    DivUnique(a, b, q + 1, r);
  }

  /** Slice `k` is `items[k * size : (k + 1) * size]`, Python's clamped
      slice, and exists exactly when `k * size < n`. */
  lemma {:induction false} ChunkAt<T>(items: seq<T>, size: nat, k: nat)
    requires size > 0
    ensures k < |Chunks(items, size)| <==> k * size < |items|
    ensures k < |Chunks(items, size)| ==>
      Chunks(items, size)[k] == items[k * size .. Min((k + 1) * size, |items|)]
    decreases |items|
  {
    var n := |items|;
    if n > 0 && k > 0 {
      var m := Min(size, n);
      ChunkAt(items[m..], size, k - 1);
      assert k * size == (k - 1) * size + size;
      if n > size {
        var tail := items[size..];
        if (k - 1) * size < |tail| {
          assert tail[(k - 1) * size .. Min(k * size, |tail|)] == items[k * size .. Min((k + 1) * size, n)];
        }
      }
    }
  }

  /** The batches for a positive size, numbered from 1, each knowing the
      batch count. */
  function Batches<T>(items: seq<T>, size: nat): seq<Batch<T>>
    requires size > 0
  {
    var cs := Chunks(items, size);
    seq(|cs|, k requires 0 <= k < |cs| => Batch(k + 1, |cs|, cs[k]))
  }

  /** The items of each batch, in batch order. */
  function ItemLists<T>(bs: seq<Batch<T>>): (r: seq<seq<T>>)
    ensures |r| == |bs| && forall k | 0 <= k < |bs| :: r[k] == bs[k].items
  {
    seq(|bs|, k requires 0 <= k < |bs| => bs[k].items)
  }

  /** The batches for a positive size: `ceil(n / size)` of them, numbered
      1, 2, … and each carrying that count, every one holding 1 to `size`
      items with only the last allowed to be short, and together holding
      the list in order. */
  lemma BatchesShape<T>(items: seq<T>, size: nat)
    requires size > 0
    ensures var bs := Batches(items, size);
      && |bs| == (|items| + size - 1) / size
      && (forall k | 0 <= k < |bs| :: bs[k].num == k + 1 && bs[k].total == |bs|)
      && (forall k | 0 <= k < |bs| :: 1 <= |bs[k].items| <= size)
      && (forall k | 0 <= k < |bs| - 1 :: |bs[k].items| == size)
      && Flatten(ItemLists(bs)) == items
  {
    ChunksCount(items, size);
    ChunksSizes(items, size);
    ChunksFlatten(items, size);
    assert ItemLists(Batches(items, size)) == Chunks(items, size);
  }

  /** The loader's preparation loop, `for i in range(0, n, size)`. A
      negative step gives an empty range; a zero step is refused by the
      caller, since `range` raises on it. */
  method PrepareBatches<T>(items: seq<T>, size: int) returns (batches: seq<Batch<T>>)
    requires size != 0
    ensures size > 0 ==> batches == Batches(items, size)
    ensures size < 0 ==> batches == []
  {
    batches := [];
    if size < 0 {
      return;
    }
    var n := |items|;
    var i := 0;
    ghost var k: nat := 0;
    while i < n
      invariant i == k * size
      invariant k == |batches| <= |Batches(items, size)|
      invariant batches == Batches(items, size)[..k]
    {
      BatchAt(items, size, k, i);
      var batch := items[i .. Min(i + size, n)];
      var num := i / size + 1;
      var total := (n + size - 1) / size;
      batches := batches + [Batch(num, total, batch)];
      i := i + size;
      k := k + 1;
    }
    ChunkAt(items, size, k);
  }

  /** Batch `k` starts at `i = k * size`, and the loop computes its
      number as `i // size + 1` and the count as `(n + size - 1) // size`. */
  lemma BatchAt<T>(items: seq<T>, size: nat, k: nat, i: nat)
    requires size > 0 && i == k * size && i < |items|
    ensures k < |Batches(items, size)|
    ensures Batches(items, size)[k] ==
      Batch(i / size + 1, (|items| + size - 1) / size, items[i .. Min(i + size, |items|)])
    ensures i + size == (k + 1) * size
  {
    MulSucc(k, size);
    ChunkAt(items, size, k);
    ChunksCount(items, size);
    DivUnique(i, size, k, 0);
  }

  lemma MulSucc(k: int, b: int)
    ensures (k + 1) * b == k * b + b
  {
  }

  // ---------------------------------------------------------------------
  // Dispatch and tally
  // ---------------------------------------------------------------------

  /** What is being uploaded: nodes go out wrapped as `{"nodes": [...]}`,
      relationships as the bare array. */
  datatype BatchKind = NodeBatch | RelationshipBatch

  function Payload(kind: BatchKind, items: seq<Json>): (r: Json)
    ensures kind == NodeBatch ==> r.Obj? && r.fields.Keys == {"nodes"} && r.fields["nodes"] == Arr(items)
    ensures kind == RelationshipBatch ==> r == Arr(items)
  {
    match kind
    case NodeBatch => Obj(map["nodes" := Arr(items)])
    case RelationshipBatch => Arr(items)
  }

  /** `process_batch`: the verdict on the POST of the batch's payload
      becomes the batch's success flag; a raised error is a failure. The
      verdict may depend on the batch number as well as on the payload, so
      two batches with equal payloads can fare differently. */
  function ProcessBatch(kind: BatchKind, b: Batch<Json>, sink: (nat, Json) -> bool): (r: (nat, bool))
    ensures r.0 == b.num
    ensures r.1 <==> sink(b.num, Payload(kind, b.items))
  {
    (b.num, sink(b.num, Payload(kind, b.items)))
  }

  datatype Tally = Tally(completed: nat, failed: nat)

  /** The tally loop over finished batches. */
  function TallyOf(outcomes: seq<bool>): Tally {
    if |outcomes| == 0 then Tally(0, 0)
    else
      var t := TallyOf(outcomes[..|outcomes| - 1]);
      if outcomes[|outcomes| - 1] then Tally(t.completed + 1, t.failed)
      else Tally(t.completed, t.failed + 1)
  }

  /** Each batch is counted once, as completed or as failed, so the tally
      only depends on how many batches succeeded and how many failed and
      not on the order in which they finished. */
  lemma {:induction false} TallyCounts(outcomes: seq<bool>)
    ensures TallyOf(outcomes).completed == multiset(outcomes)[true]
    ensures TallyOf(outcomes).failed == multiset(outcomes)[false]
    ensures TallyOf(outcomes).completed + TallyOf(outcomes).failed == |outcomes|
  {
    if |outcomes| > 0 {
      var init := outcomes[..|outcomes| - 1];
      TallyCounts(init);
      assert outcomes == init + [outcomes[|outcomes| - 1]];
    }
  }

  /** Completion order does not matter. */
  lemma TallyOrderFree(a: seq<bool>, b: seq<bool>)
    requires multiset(a) == multiset(b)
    ensures TallyOf(a) == TallyOf(b)
  {
    TallyCounts(a);
    TallyCounts(b);
  }

  /** The per-batch outcomes, in batch order. */
  function Outcomes(kind: BatchKind, bs: seq<Batch<Json>>, sink: (nat, Json) -> bool): (r: seq<bool>)
    ensures |r| == |bs|
    ensures forall k | 0 <= k < |bs| :: r[k] == ProcessBatch(kind, bs[k], sink).1
  {
    seq(|bs|, k requires 0 <= k < |bs| => ProcessBatch(kind, bs[k], sink).1)
  }

  /** The completed count is the number of successful outcomes and the
      failed count the number of failures, position by position: a
      failure stays with its own batch. */
  lemma FailedAreRejected(outcomes: seq<bool>)
    ensures TallyOf(outcomes).completed == |set k | 0 <= k < |outcomes| && outcomes[k]|
    ensures TallyOf(outcomes).failed == |set k | 0 <= k < |outcomes| && !outcomes[k]|
  {
    TallyCounts(outcomes);
    PositionsCount(outcomes, true);
    PositionsCount(outcomes, false);
    assert (set k | 0 <= k < |outcomes| && outcomes[k] == true) == (set k | 0 <= k < |outcomes| && outcomes[k]);
    assert (set k | 0 <= k < |outcomes| && outcomes[k] == false) == (set k | 0 <= k < |outcomes| && !outcomes[k]);
  }

  /** The positions holding `b` are as many as the copies of `b`. */
  lemma {:induction false} PositionsCount(outcomes: seq<bool>, b: bool)
    ensures |set k | 0 <= k < |outcomes| && outcomes[k] == b| == multiset(outcomes)[b]
  {
    if |outcomes| > 0 {
      var n := |outcomes| - 1;
      var init := outcomes[..n];
      PositionsCount(init, b);
      assert outcomes == init + [outcomes[n]];
      var before := set k | 0 <= k < n && init[k] == b;
      var after := set k | 0 <= k < |outcomes| && outcomes[k] == b;
      if outcomes[n] == b {
        assert after == before + {n};
        assert n !in before;
      } else {
        assert after == before;
      }
    }
  }

  /** The positions (from 0) of the slices whose POST, as batch `k + 1`,
      the sink accepts. */
  function Accepted(kind: BatchKind, items: seq<Json>, size: nat, sink: (nat, Json) -> bool): set<int>
    requires size > 0
  {
    var cs := Chunks(items, size);
    set k | 0 <= k < |cs| && sink(k + 1, Payload(kind, cs[k]))
  }

  /** The positions of the slices whose POST the sink refuses. */
  function Refused(kind: BatchKind, items: seq<Json>, size: nat, sink: (nat, Json) -> bool): set<int>
    requires size > 0
  {
    var cs := Chunks(items, size);
    set k | 0 <= k < |cs| && !sink(k + 1, Payload(kind, cs[k]))
  }

  /** A tally that counts the accepted slices as completed and the refused
      ones as failed. */
  predicate CountsVerdicts(t: Tally, kind: BatchKind, items: seq<Json>, size: nat, sink: (nat, Json) -> bool)
    requires size > 0
  {
    t.completed == |Accepted(kind, items, size, sink)| && t.failed == |Refused(kind, items, size, sink)|
  }

  /** Tallying the outcomes of the prepared batches counts the accepted
      slices as completed and the refused ones as failed. */
  lemma OutcomeSets(kind: BatchKind, items: seq<Json>, size: nat, sink: (nat, Json) -> bool)
    requires size > 0
    ensures CountsVerdicts(TallyOf(Outcomes(kind, Batches(items, size), sink)), kind, items, size, sink)
  {
    var os := Outcomes(kind, Batches(items, size), sink);
    FailedAreRejected(os);
    OutcomesAreVerdicts(kind, items, size, sink);
  }

  /** Outcome `k` is the sink's verdict on slice `k` posted as batch
      `k + 1`. */
  lemma OutcomesAreVerdicts(kind: BatchKind, items: seq<Json>, size: nat, sink: (nat, Json) -> bool)
    requires size > 0
    ensures var os := Outcomes(kind, Batches(items, size), sink);
      && (set k | 0 <= k < |os| && os[k]) == Accepted(kind, items, size, sink)
      && (set k | 0 <= k < |os| && !os[k]) == Refused(kind, items, size, sink)
  {
    var bs := Batches(items, size);
    var os := Outcomes(kind, bs, sink);
    var cs := Chunks(items, size);
    assert |os| == |cs|;
    forall k | 0 <= k < |os| ensures os[k] == sink(k + 1, Payload(kind, cs[k])) {
      assert bs[k] == Batch(k + 1, |cs|, cs[k]);
    }
  }

  /** The outcome of one upload phase. */
  datatype Phase =
    | Skipped              // nothing to upload
    | Raised               // `ValueError` from `range` or the thread pool
    | Tallied(tally: Tally)

  /** One upload phase of the loader: an empty list is skipped; a zero
      batch size makes `range` raise; otherwise the pool gets
      `min(threads, batch count)` workers and raises when that is not
      positive (a negative size yields no batches, hence no workers). */
  function Dispatch(kind: BatchKind, items: seq<Json>, size: int, threads: int, sink: (nat, Json) -> bool): (r: Phase)
    ensures |items| == 0 <==> r == Skipped
    ensures r == Raised <==> |items| > 0 && (size <= 0 || threads <= 0)
    ensures r.Tallied? ==> size > 0 && threads > 0
    ensures r.Tallied? ==> r.tally.completed + r.tally.failed == (|items| + size - 1) / size
    ensures r.Tallied? ==> CountsVerdicts(r.tally, kind, items, size, sink)
  {
    if |items| == 0 then Skipped
    else if size == 0 then Raised
    else if size < 0 then Raised
    else
      var bs := Batches(items, size);
      ChunksCount(items, size);
      ChunkAt(items, size, 0);
      if Min(threads, |bs|) <= 0 then Raised
      else
        TallyCounts(Outcomes(kind, bs, sink));
        OutcomeSets(kind, items, size, sink);
        Tallied(TallyOf(Outcomes(kind, bs, sink)))
  }

  /** With a sink that never fails (the dry-run mode) every batch
      completes. */
  lemma DryRunCompletes(kind: BatchKind, items: seq<Json>, size: int, threads: int, sink: (nat, Json) -> bool)
    requires |items| > 0 && size > 0 && threads > 0
    requires forall n, j :: sink(n, j)
    ensures Dispatch(kind, items, size, threads, sink) == Tallied(Tally((|items| + size - 1) / size, 0))
  {
    var d := Dispatch(kind, items, size, threads, sink);
    assert Refused(kind, items, size, sink) == {};
    assert d.Tallied? && CountsVerdicts(d.tally, kind, items, size, sink);
  }

  /** The two upload phases: relationships are uploaded only when the node
      phase did not raise. */
  datatype Upload = Upload(nodes: Phase, relationships: Option<Phase>)

  function UploadAll(nodes: seq<Json>, rels: seq<Json>, size: int, threads: int, sink: (nat, Json) -> bool): (r: Upload)
    ensures r.nodes == Dispatch(NodeBatch, nodes, size, threads, sink)
    ensures r.relationships.None? <==> r.nodes == Raised
    ensures r.relationships.Some? ==> r.relationships.value == Dispatch(RelationshipBatch, rels, size, threads, sink)
  {
    var p := Dispatch(NodeBatch, nodes, size, threads, sink);
    if p == Raised then Upload(p, None)
    else Upload(p, Some(Dispatch(RelationshipBatch, rels, size, threads, sink)))
  }
}
