/** The JSON records the loader sends, and what the replay tool makes of
    them: a node batch the loader posted, read back by the replay tool, is
    recognised as nodes and re-posted unchanged, and so is a relationship
    batch as relationships. */
module Wire {
  import opened Wrappers
  import opened Json
  import opened Properties
  import opened Graph
  import opened Batching
  import opened Replay
  import opened CsvRows
  import opened Readings
  import opened GraphCounts

  /** `{"type": name, "value": v}` plus `"metadata"` when there is any. */
  function PropJson(p: Prop): (r: Json)
    ensures r.Obj? && "type" in r.fields && r.fields["type"] == Str(p.name)
    ensures "value" in r.fields && r.fields["value"] == p.value
    ensures "metadata" in r.fields <==> p.metadata.Some?
  {
    var base := map["type" := Str(p.name), "value" := p.value];
    match p.metadata
    case Some(m) => Obj(base["metadata" := m])
    case None => Obj(base)
  }

  function PropsJson(ps: seq<Prop>): (r: seq<Json>)
    ensures |r| == |ps| && forall k | 0 <= k < |ps| :: r[k] == PropJson(ps[k])
  {
    seq(|ps|, k requires 0 <= k < |ps| => PropJson(ps[k]))
  }

  /** A node record: `external_id`, `type`, `properties`, and `labels` for
      reading nodes. */
  function NodeJson(n: Node): (r: Json)
    ensures NodeLike(r)
    ensures r.fields["external_id"] == Str(n.externalId) && r.fields["type"] == Str(n.kind.Name())
    ensures "labels" in r.fields <==> n.labels.Some?
  {
    var base := map[
      "external_id" := Str(n.externalId),
      "type" := Str(n.kind.Name()),
      "properties" := Arr(PropsJson(n.properties))];
    match n.labels
    case Some(ls) => Obj(base["labels" := Arr(seq(|ls|, k requires 0 <= k < |ls| => Str(ls[k])))])
    case None => Obj(base)
  }

  /** An endpoint: `{"type": kind, "external_id": id}`. */
  function RefJson(r: Ref): Json {
    Obj(map["type" := Str(r.kind.Name()), "external_id" := Str(r.externalId)])
  }

  /** A relationship record: `source`, `target` and `type`, nothing else. */
  function EdgeJson(e: Edge): (r: Json)
    ensures RelationshipLike(r) && !NodeLike(r)
    ensures r.fields["source"] == RefJson(e.source) && r.fields["target"] == RefJson(e.target)
    ensures r.fields["type"] == Str(e.rel.Name())
  {
    Obj(map["source" := RefJson(e.source), "target" := RefJson(e.target), "type" := Str(e.rel.Name())])
  }

  function NodesJson(ns: seq<Node>): (r: seq<Json>)
    ensures |r| == |ns| && forall k | 0 <= k < |ns| :: r[k] == NodeJson(ns[k])
  {
    seq(|ns|, k requires 0 <= k < |ns| => NodeJson(ns[k]))
  }

  function EdgesJson(es: seq<Edge>): (r: seq<Json>)
    ensures |r| == |es| && forall k | 0 <= k < |es| :: r[k] == EdgeJson(es[k])
  {
    seq(|es|, k requires 0 <= k < |es| => EdgeJson(es[k]))
  }

  /** A node batch payload, as the loader posts it, is classified as nodes
      by the replay tool, which re-posts exactly that payload; a bare list
      of node records is recognised as nodes too. */
  lemma NodeBatchReplays(ns: seq<Node>, sink: Json -> bool)
    ensures var p := Payload(NodeBatch, NodesJson(ns));
      DetectType(p) == Some(NodeData) && Run(None, p, sink).posted == Some(p)
    ensures |ns| > 0 ==> DetectType(Arr(NodesJson(ns))) == Some(NodeData)
  {
    var p := Payload(NodeBatch, NodesJson(ns));
    UnwrapWrapped(Arr(NodesJson(ns)));
    assert NodeItems(p) == NodesJson(ns);
    DetectList(NodesJson(ns));
  }

  /** A non-empty relationship batch, as the loader posts it, is
      classified as relationships by the replay tool, counted as the
      batch's length, and re-posted unchanged. */
  lemma RelationshipBatchReplays(es: seq<Edge>, sink: Json -> bool)
    requires |es| > 0
    ensures var p := Payload(RelationshipBatch, EdgesJson(es));
      && DetectType(p) == Some(RelationshipData)
      && RelCount(p) == Some(|es|)
      && Run(None, p, sink).posted == Some(p)
  {
    DetectList(EdgesJson(es));
  }

  /** An empty relationship batch would not be recognised; the loader never
      posts one, since it skips an empty list and cuts no empty slice. */
  lemma EmptyBatchUnclassified()
    ensures DetectType(Payload(RelationshipBatch, [])) == None
  {
  }

  /** `main` then `process_emissions_data` end to end: resolve the batch
      size and thread count, build the graph from the table, then upload
      its nodes and its relationships in batches. A table without a header
      line fails before anything is uploaded. */
  function Import(env: Env, table: seq<seq<string>>, k: Tuning, sink: (nat, Json) -> bool): (r: Option<Upload>)
    ensures r.None? <==> |table| == 0
  {
    match Load(env, table)
    case None => None
    case Some(g) => Some(UploadGraph(g, BatchSize(k), MaxThreads(k), sink))
  }

  /** `--batch-size 0` and `--max-threads 0` run the import exactly as
      leaving the flags out does. */
  lemma ZeroFlagsIgnored(env: Env, table: seq<seq<string>>, k: Tuning, sink: (nat, Json) -> bool)
    ensures Import(env, table, k.(cliSize := Some(0), cliThreads := Some(0)), sink)
         == Import(env, table, k.(cliSize := None, cliThreads := None), sink)
  {
    var z, n := k.(cliSize := Some(0), cliThreads := Some(0)), k.(cliSize := None, cliThreads := None);
    assert BatchSize(z) == BatchSize(n) && MaxThreads(z) == MaxThreads(n);
  }

  /** Uploading a graph: its nodes, then its relationships. */
  function UploadGraph(g: Graph, size: int, threads: int, sink: (nat, Json) -> bool): Upload {
    UploadAll(NodesJson(g.nodes), EdgesJson(g.edges), size, threads, sink)
  }

  /** A phase that tallies ran `ceil(n / size)` batches. */
  predicate RanBatches(p: Phase, n: nat, size: int)
    requires size > 0
  {
    p.Tallied? ==> p.tally.completed + p.tally.failed == (n + size - 1) / size
  }

  /** Both phases ran: the node phase `ceil(n / size)` batches if it
      tallied, and the relationship phase `ceil(m / size)` if it tallied. */
  predicate UploadRan(u: Upload, n: nat, m: nat, size: int)
    requires size > 0
  {
    RanBatches(u.nodes, n, size) && u.relationships.Some? && RanBatches(u.relationships.value, m, size)
  }

  /** Both phases of an upload of `n` node records and `m` relationship
      records with a positive size and thread count: each tallies
      `ceil(count / size)` batches, or is skipped when it has nothing. */
  lemma UploadBatchCounts(nodes: seq<Json>, rels: seq<Json>, n: nat, m: nat, size: int, threads: int, sink: (nat, Json) -> bool)
    requires |nodes| == n && |rels| == m && size > 0 && threads > 0
    ensures var u := UploadAll(nodes, rels, size, threads, sink);
      && (u.nodes.Tallied? <==> n > 0)
      && RanBatches(u.nodes, n, size)
      && u.relationships.Some?
      && (u.relationships.value.Tallied? <==> m > 0)
      && RanBatches(u.relationships.value, m, size)
  {
    var u := UploadAll(nodes, rels, size, threads, sink);
    var dn := Dispatch(NodeBatch, nodes, size, threads, sink);
    var dr := Dispatch(RelationshipBatch, rels, size, threads, sink);
    assert u.nodes == dn && dn != Raised;
    assert u.relationships == Some(dr);
    PhaseRan(NodeBatch, nodes, size, threads, sink);
    PhaseRan(RelationshipBatch, rels, size, threads, sink);
  }

  /** A phase with a positive size and thread count tallies exactly when it
      has something to upload, and then ran `ceil(n / size)` batches. */
  lemma PhaseRan(kind: BatchKind, items: seq<Json>, size: int, threads: int, sink: (nat, Json) -> bool)
    requires size > 0 && threads > 0
    ensures var d := Dispatch(kind, items, size, threads, sink);
      (d.Tallied? <==> |items| > 0) && RanBatches(d, |items|, size)
  {
    var d := Dispatch(kind, items, size, threads, sink);
    if d.Tallied? {
      assert d.tally.completed + d.tally.failed == (|items| + size - 1) / size;
    }
  }

  /** With W wells and E entries the node phase runs `ceil((6W + E) / size)`
      batches and the relationship phase, which the node phase never
      prevents for a positive size and thread count, `ceil((5W + E) / size)`. */
  lemma AssembleBatchCounts(digest: string -> string, gs: seq<Group>, es: seq<Entry>, size: int, threads: int, sink: (nat, Json) -> bool)
    requires size > 0 && threads > 0
    ensures var g := Assemble(digest, gs, es);
      && |g.nodes| == 6 * |gs| + |es| && |g.edges| == 5 * |gs| + |es|
      && UploadRan(UploadGraph(g, size, threads, sink), |g.nodes|, |g.edges|, size)
  {
    var g := Assemble(digest, gs, es);
    AssembleSizes(digest, gs, es);
    GraphBatchCounts(g, |g.nodes|, |g.edges|, size, threads, sink);
  }

  lemma AssembleSizes(digest: string -> string, gs: seq<Group>, es: seq<Entry>)
    ensures |Assemble(digest, gs, es).nodes| == 6 * |gs| + |es|
    ensures |Assemble(digest, gs, es).edges| == 5 * |gs| + |es|
  {
    NodeBreakdown(digest, gs, es);
    EdgeBreakdown(digest, gs, es);
  }

  lemma GraphBatchCounts(g: Graph, n: nat, m: nat, size: int, threads: int, sink: (nat, Json) -> bool)
    requires |g.nodes| == n && |g.edges| == m && size > 0 && threads > 0
    ensures UploadRan(UploadGraph(g, size, threads, sink), n, m, size)
  {
    UploadBatchCounts(NodesJson(g.nodes), EdgesJson(g.edges), n, m, size, threads, sink);
  }
}
