/** The graph the loader builds from the grouped rows: the node list (wells,
    their Emissions nodes, their four EmissionType nodes, then one node per
    reading entry in sorted order) and the relationship list (HAS_EMISSIONS,
    HAS_TYPE, then one HAS_DATA or NEXT_DATE edge per reading entry). */
module Graph {
  import opened Wrappers
  import opened Json
  import opened EmissionTypes
  import opened Identity
  import opened Properties
  import opened CsvRows
  import opened Readings
  import opened EntryOrder

  /** A node's `type`: the three fixed kinds, or a reading's category. */
  datatype NodeKind = WellKind | EmissionsKind | EmissionTypeKind | ReadingKind(t: EmissionType)
  {
    function Name(): string {
      match this
      case WellKind => "Well"
      case EmissionsKind => "Emissions"
      case EmissionTypeKind => "EmissionType"
      case ReadingKind(t) => t.Name()
    }
  }

  /** A node record; only reading nodes carry a `labels` list. */
  datatype Node = Node(externalId: string, kind: NodeKind, labels: Option<seq<string>>, properties: seq<Prop>)

  /** An edge endpoint: `{"type": …, "external_id": …}`. */
  datatype Ref = Ref(kind: NodeKind, externalId: string)

  datatype RelType = HasEmissions | HasType | HasData | NextDate
  {
    function Name(): string {
      match this
      case HasEmissions => "HAS_EMISSIONS"
      case HasType => "HAS_TYPE"
      case HasData => "HAS_DATA"
      case NextDate => "NEXT_DATE"
    }
  }

  datatype Edge = Edge(source: Ref, target: Ref, rel: RelType)

  datatype Graph = Graph(nodes: seq<Node>, edges: seq<Edge>)

  /** The label every reading node carries. */
  const ReadingLabels: seq<string> := ["Emission"]

  // ---------------------------------------------------------------------
  // Identities and nodes
  // ---------------------------------------------------------------------

  /** `well_rows[0]['name'] if well_rows else well_key`. */
  function WellName(g: Group): string {
    if |g.rows| > 0 then g.rows[0].name else g.key
  }

  function EmissionsId(digest: string -> string, key: string): string {
    SubjectId(digest, EmissionsOf(key))
  }

  function TypeId(digest: string -> string, key: string, t: EmissionType): string {
    SubjectId(digest, TypeOf(key, t))
  }

  function ReadingId(digest: string -> string, e: Entry): string {
    SubjectId(digest, ReadingOf(e.wellKey, e.etype, e.date))
  }

  /** `convert_properties_to_array({"name": v})`. */
  function NameProps(v: string): seq<Prop> {
    ToArray([("name", Str(v))])
  }

  function WellNodes(gs: seq<Group>): seq<Node> {
    seq(|gs|, i requires 0 <= i < |gs| => Node(gs[i].key, WellKind, None, NameProps(WellName(gs[i]))))
  }

  function EmissionsNodes(digest: string -> string, gs: seq<Group>): seq<Node> {
    seq(|gs|, i requires 0 <= i < |gs| =>
      Node(EmissionsId(digest, gs[i].key), EmissionsKind, None, NameProps("Emissions")))
  }

  /** Four per well, well-major, categories in their fixed order. */
  function TypeNodes(digest: string -> string, gs: seq<Group>): seq<Node> {
    seq(4 * |gs|, i requires 0 <= i < 4 * |gs| =>
      Node(TypeId(digest, gs[i / 4].key, AllTypes[i % 4]), EmissionTypeKind, None, NameProps(AllTypes[i % 4].Name())))
  }

  function ReadingNodes(digest: string -> string, es: seq<Entry>): seq<Node> {
    seq(|es|, i requires 0 <= i < |es| =>
      Node(ReadingId(digest, es[i]), ReadingKind(es[i].etype), Some(ReadingLabels), ToArray(es[i].props)))
  }

  // ---------------------------------------------------------------------
  // Edges
  // ---------------------------------------------------------------------

  function HasEmissionsEdges(digest: string -> string, gs: seq<Group>): seq<Edge> {
    seq(|gs|, i requires 0 <= i < |gs| =>
      Edge(Ref(WellKind, gs[i].key), Ref(EmissionsKind, EmissionsId(digest, gs[i].key)), HasEmissions))
  }

  function HasTypeEdges(digest: string -> string, gs: seq<Group>): seq<Edge> {
    seq(4 * |gs|, i requires 0 <= i < 4 * |gs| =>
      Edge(Ref(EmissionsKind, EmissionsId(digest, gs[i / 4].key)),
           Ref(EmissionTypeKind, TypeId(digest, gs[i / 4].key, AllTypes[i % 4])), HasType))
  }

  /** The (well, category) series an entry belongs to. */
  type Series = (string, EmissionType)

  function SeriesOf(e: Entry): Series {
    (e.wellKey, e.etype)
  }

  /** The position of the last entry before `n` in series `s`, or -1 when
      there is none. */
  function LastIndex(es: seq<Entry>, n: nat, s: Series): (r: int)
    requires n <= |es|
    ensures -1 <= r < n as int
    ensures r >= 0 ==> SeriesOf(es[r]) == s
    ensures forall j | r < j < n :: SeriesOf(es[j]) != s
  {
    if n == 0 then -1
    else if SeriesOf(es[n - 1]) == s then n - 1
    else LastIndex(es, n - 1, s)
  }

  function ReadingRef(digest: string -> string, e: Entry): Ref {
    Ref(ReadingKind(e.etype), ReadingId(digest, e))
  }

  /** The edge into entry `i`: from its EmissionType node when it is the
      first of its series, otherwise from the series' previous entry. */
  function ChainEdge(digest: string -> string, es: seq<Entry>, i: nat): Edge
    requires i < |es|
  {
    var e := es[i];
    var p := LastIndex(es, i, SeriesOf(e));
    if p < 0 then Edge(Ref(EmissionTypeKind, TypeId(digest, e.wellKey, e.etype)), ReadingRef(digest, e), HasData)
    else Edge(ReadingRef(digest, es[p]), ReadingRef(digest, e), NextDate)
  }

  function ChainEdges(digest: string -> string, es: seq<Entry>): seq<Edge> {
    seq(|es|, i requires 0 <= i < |es| => ChainEdge(digest, es, i))
  }

  /** `current` maps each series seen among the first `n` entries to the
      identity of its latest node, and knows no other series. */
  ghost predicate Tracks(digest: string -> string, es: seq<Entry>, n: nat, current: map<Series, string>)
    requires n <= |es|
  {
    && (forall s :: s in current <==> LastIndex(es, n, s) >= 0)
    && (forall s | s in current :: current[s] == ReadingId(digest, es[LastIndex(es, n, s)]))
  }

  /** The loader's linking loop: one pass over the sorted entries with a
      dictionary from series to the identity of its latest node. */
  method LinkChain(digest: string -> string, es: seq<Entry>) returns (edges: seq<Edge>)
    ensures edges == ChainEdges(digest, es)
  {
    var current: map<Series, string> := map[];
    edges := [];
    var i := 0;
    while i < |es|
      invariant 0 <= i <= |es|
      invariant edges == ChainEdges(digest, es)[..i]
      invariant Tracks(digest, es, i, current)
    {
      var e := es[i];
      var key := SeriesOf(e);
      var id := ReadingId(digest, e);
      var edge;
      if key !in current {
        edge := Edge(Ref(EmissionTypeKind, TypeId(digest, e.wellKey, e.etype)), Ref(ReadingKind(e.etype), id), HasData);
      } else {
        edge := Edge(Ref(ReadingKind(e.etype), current[key]), Ref(ReadingKind(e.etype), id), NextDate);
      }
      TrackedEdge(digest, es, i, current);
      assert edge == ChainEdges(digest, es)[i];
      PrefixSnoc(ChainEdges(digest, es), i);
      edges := edges + [edge];
      TracksStep(digest, es, i, current);
      current := current[key := id];
      i := i + 1;
    }
    assert ChainEdges(digest, es)[..i] == ChainEdges(digest, es);
  }

  lemma PrefixSnoc<T>(s: seq<T>, i: nat)
    requires i < |s|
    ensures s[..i + 1] == s[..i] + [s[i]]
  {
  }

  /** What the dictionary holds decides the edge into entry `i`. */
  lemma TrackedEdge(digest: string -> string, es: seq<Entry>, i: nat, current: map<Series, string>)
    requires i < |es| && Tracks(digest, es, i, current)
    ensures var e := es[i];
      ChainEdge(digest, es, i) ==
        if SeriesOf(e) !in current then Edge(Ref(EmissionTypeKind, TypeId(digest, e.wellKey, e.etype)), ReadingRef(digest, e), HasData)
        else Edge(Ref(ReadingKind(e.etype), current[SeriesOf(e)]), ReadingRef(digest, e), NextDate)
  {
  }

  /** Recording entry `i` as its series' latest keeps the dictionary exact. */
  lemma TracksStep(digest: string -> string, es: seq<Entry>, i: nat, current: map<Series, string>)
    requires i < |es| && Tracks(digest, es, i, current)
    ensures Tracks(digest, es, i + 1, current[SeriesOf(es[i]) := ReadingId(digest, es[i])])
  {
    forall s ensures LastIndex(es, i + 1, s) == if s == SeriesOf(es[i]) then i else LastIndex(es, i, s) {
      LastIndexStep(es, i, s);
    }
  }

  lemma LastIndexStep(es: seq<Entry>, i: nat, s: Series)
    requires i < |es|
    ensures LastIndex(es, i + 1, s) == if SeriesOf(es[i]) == s then i else LastIndex(es, i, s)
  {
  }

  // ---------------------------------------------------------------------
  // The whole graph
  // ---------------------------------------------------------------------

  /** The node list: wells, Emissions nodes, EmissionType nodes, readings. */
  function Nodes(digest: string -> string, gs: seq<Group>, es: seq<Entry>): seq<Node> {
    WellNodes(gs) + EmissionsNodes(digest, gs) + TypeNodes(digest, gs) + ReadingNodes(digest, es)
  }

  /** The relationship list: HAS_EMISSIONS, HAS_TYPE, then the chains. */
  function Edges(digest: string -> string, gs: seq<Group>, es: seq<Entry>): seq<Edge> {
    HasEmissionsEdges(digest, gs) + HasTypeEdges(digest, gs) + ChainEdges(digest, es)
  }

  /** The graph of grouped wells `gs` and sorted entries `es`. */
  function Assemble(digest: string -> string, gs: seq<Group>, es: seq<Entry>): Graph {
    Graph(Nodes(digest, gs, es), Edges(digest, gs, es))
  }

  /** The reading entries of all wells in the loader's sorted order. */
  function SortedEntries(env: Env, gs: seq<Group>): seq<Entry> {
    Sort(CollectEntries(env, gs))
  }

  function Build(env: Env, gs: seq<Group>): Graph {
    Assemble(env.digest, gs, SortedEntries(env, gs))
  }

  /** From the table of cells to the graph; a table without even a header
      line fails. */
  function Load(env: Env, table: seq<seq<string>>): (r: Option<Graph>)
    ensures r.None? <==> |table| == 0
  {
    match ReadRows(table)
    case None => None
    case Some(rows) => Some(Build(env, Grouping(rows)))
  }
}
