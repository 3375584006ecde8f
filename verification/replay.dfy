/** The replay tool: it reads one JSON document, decides whether it holds
    nodes or relationships (or is told so), and posts it. Nodes are first
    unwrapped from any `{"nodes": …}` nesting and re-wrapped once;
    relationships are forwarded exactly as read. */
module Replay {
  import opened Wrappers
  import opened Json
  import opened Batching

  /** The two payload kinds, the values of `--type`. */
  datatype DataKind = NodeData | RelationshipData

  /** A dict shaped like one node: `external_id`, `type` and `properties`. */
  predicate NodeLike(j: Json) {
    HasKey(j, "external_id") && HasKey(j, "type") && HasKey(j, "properties")
  }

  /** A dict shaped like one relationship: `source`, `target` and `type`. */
  predicate RelationshipLike(j: Json) {
    HasKey(j, "source") && HasKey(j, "target") && HasKey(j, "type")
  }

  /** `detect_type`: a dict is nodes when its `"nodes"` value is a list or
      when it has `external_id` and `type`; a non-empty list is judged by
      its first element alone; anything else is unclassified. */
  function DetectType(data: Json): (r: Option<DataKind>)
    ensures r == Some(RelationshipData) ==> data.Arr?
    ensures r.Some? ==> data.Obj? || (data.Arr? && |data.items| > 0)
  {
    match data
    case Obj(fields) =>
      if "nodes" in fields && fields["nodes"].Arr? then Some(NodeData)
      else if "external_id" in fields && "type" in fields then Some(NodeData)
      else None
    case Arr(items) =>
      if |items| > 0 && items[0].Obj? then
        if NodeLike(items[0]) then Some(NodeData)
        else if RelationshipLike(items[0]) then Some(RelationshipData)
        else None
      else None
    case _ => None
  }

  /** How a dict is classified: never as relationships, and as nodes
      exactly when it wraps a node list or looks like a single node. */
  lemma DetectDict(data: Json)
    requires data.Obj?
    ensures DetectType(data) != Some(RelationshipData)
    ensures DetectType(data) == Some(NodeData) <==>
      (HasKey(data, "nodes") && data.fields["nodes"].Arr?) ||
      (HasKey(data, "external_id") && HasKey(data, "type"))
  {
  }

  /** How a list is classified: only its first element counts, a node
      shape taking precedence over a relationship shape. */
  lemma DetectList(items: seq<Json>)
    ensures DetectType(Arr(items)) == Some(NodeData) <==> |items| > 0 && NodeLike(items[0])
    ensures DetectType(Arr(items)) == Some(RelationshipData) <==>
      |items| > 0 && RelationshipLike(items[0]) && !NodeLike(items[0])
    ensures forall rest :: |items| > 0 ==> DetectType(Arr([items[0]] + rest)) == DetectType(Arr(items))
  {
    forall rest | |items| > 0 ensures DetectType(Arr([items[0]] + rest)) == DetectType(Arr(items)) {
      assert ([items[0]] + rest)[0] == items[0];
    }
  }

  /** A doubly wrapped node list is not recognised: the inner `"nodes"`
      value is a dict, not a list. */
  lemma DoublyWrappedUnclassified(xs: seq<Json>)
    ensures DetectType(Obj(map["nodes" := Obj(map["nodes" := Arr(xs)])])) == None
  {
  }

  /** The unwrap loop: descend through dicts holding a `"nodes"` key. Each
      step moves to a proper part of the value, so the loop ends. */
  function Unwrap(j: Json): (r: Json)
    ensures !HasKey(r, "nodes")
    ensures r == j || r < j
  {
    if HasKey(j, "nodes") then Unwrap(j.fields["nodes"]) else j
  }

  lemma UnwrapIdempotent(j: Json)
    ensures Unwrap(Unwrap(j)) == Unwrap(j)
  {
  }

  /** Wrapping a value once more under `"nodes"` changes nothing. */
  lemma UnwrapWrapped(v: Json)
    ensures Unwrap(Obj(map["nodes" := v])) == Unwrap(v)
  {
  }

  /** The node list the tool posts: the unwrapped value if it is a list,
      otherwise `[x]` for a truthy `x` and `[]` for a falsy one. The result
      is always a list, so the tool's "expected a list" error never fires. */
  function NodeItems(data: Json): (r: seq<Json>)
    ensures Unwrap(data).Arr? ==> r == Unwrap(data).items
    ensures !Unwrap(data).Arr? ==> (|r| == 1 <==> Truthy(Unwrap(data))) && |r| <= 1
    ensures !Unwrap(data).Arr? && |r| == 1 ==> r[0] == Unwrap(data)
  {
    var u := Unwrap(data);
    if u.Arr? then u.items
    else if Truthy(u) then [u]
    else []
  }

  /** Unwrapping what the tool posts gives back the posted list. */
  lemma NodeItemsRoundTrip(data: Json)
    ensures NodeItems(Payload(NodeBatch, NodeItems(data))) == NodeItems(data)
  {
    UnwrapWrapped(Arr(NodeItems(data)));
  }

  /** `null`, booleans and numbers, on which `len()` raises. */
  predicate NotSized(j: Json) {
    j.Null? || j.Bool? || j.Num?
  }

  /** The relationship count: the length of a `"relationships"` value, the
      length of a list, and 1 for anything else. `None` stands for the
      `TypeError` of `len()` on a `"relationships"` value without one, which
      happens exactly when that value is `null`, a boolean or a number. */
  function RelCount(data: Json): (r: Option<nat>)
    ensures r.None? <==> (HasKey(data, "relationships") && NotSized(data.fields["relationships"]))
    ensures HasKey(data, "relationships") ==> r == Len(data.fields["relationships"])
    ensures !HasKey(data, "relationships") && data.Arr? ==> r == Some(|data.items|)
    ensures !HasKey(data, "relationships") && !data.Arr? ==> r == Some(1)
  {
    if HasKey(data, "relationships") then Len(data.fields["relationships"])
    else if data.Arr? then Some(|data.items|)
    else Some(1)
  }

  /** The tool's result: its exit status and the payload it posted, if
      any. */
  datatype Exit = Exit(code: nat, posted: Option<Json>)

  /** Posting as a known kind. Nodes go out as `{"nodes": items}`;
      relationships go out unchanged, unless counting them raises first. */
  function PostAs(kind: DataKind, data: Json, sink: Json -> bool): (r: Exit)
    ensures r.code == 0 <==> r.posted.Some? && sink(r.posted.value)
    ensures r.code <= 1
    ensures kind == NodeData ==> r.posted == Some(Payload(NodeBatch, NodeItems(data)))
    ensures kind == RelationshipData ==> (r.posted.Some? <==> RelCount(data).Some?)
    ensures kind == RelationshipData && r.posted.Some? ==> r.posted.value == data
  {
    match kind
    case NodeData =>
      var p := Payload(NodeBatch, NodeItems(data));
      Exit(if sink(p) then 0 else 1, Some(p))
    case RelationshipData =>
      if RelCount(data).None? then Exit(1, None)
      else Exit(if sink(data) then 0 else 1, Some(data))
  }

  /** `main` once the document is read: an explicit `--type` is used as
      given, otherwise the detected kind, and an unclassified document
      ends with status 1. */
  function Run(explicit: Option<DataKind>, data: Json, sink: Json -> bool): (r: Exit)
    ensures explicit.Some? ==> r == PostAs(explicit.value, data, sink)
  {
    var kind := if explicit.Some? then explicit else DetectType(data);
    match kind
    case None => Exit(1, None)
    case Some(k) => PostAs(k, data, sink)
  }

  /** Without `--type` the tool behaves as if given the detected kind, and
      fails without posting when there is none. */
  lemma AutoDetect(data: Json, sink: Json -> bool)
    ensures DetectType(data).None? ==> Run(None, data, sink) == Exit(1, None)
    ensures DetectType(data).Some? ==> Run(None, data, sink) == Run(DetectType(data), data, sink)
  {
  }
}
