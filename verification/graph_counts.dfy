/** How many nodes and edges of each kind the loader produces: with W wells
    and E reading entries, W Well, W Emissions, 4W EmissionType and E reading
    nodes (6W + E in all), and W HAS_EMISSIONS, 4W HAS_TYPE and E chain
    edges (5W + E in all), the chain edges split per series into one
    HAS_DATA and one NEXT_DATE per further entry. */
module GraphCounts {
  import opened Wrappers
  import opened EmissionTypes
  import opened Readings
  import opened CsvRows
  import opened Graph

  // ---------------------------------------------------------------------
  // Counting helpers
  // ---------------------------------------------------------------------

  /** The number of nodes of kind `k`. */
  function CountKind(ns: seq<Node>, k: NodeKind): nat {
    if |ns| == 0 then 0 else CountKind(ns[..|ns| - 1], k) + (if ns[|ns| - 1].kind == k then 1 else 0)
  }

  /** The number of nodes labelled as readings. */
  function CountLabelled(ns: seq<Node>): nat {
    if |ns| == 0 then 0 else CountLabelled(ns[..|ns| - 1]) + (if ns[|ns| - 1].labels == Some(ReadingLabels) then 1 else 0)
  }

  /** The number of edges of relationship type `rel`. */
  function CountRel(es: seq<Edge>, rel: RelType): nat {
    if |es| == 0 then 0 else CountRel(es[..|es| - 1], rel) + (if es[|es| - 1].rel == rel then 1 else 0)
  }

  lemma {:induction false} CountKindAppend(a: seq<Node>, b: seq<Node>, k: NodeKind)
    ensures CountKind(a + b, k) == CountKind(a, k) + CountKind(b, k)
    decreases |b|
  {
    if |b| > 0 {
      assert (a + b)[..|a + b| - 1] == a + b[..|b| - 1];
      CountKindAppend(a, b[..|b| - 1], k);
    } else {
      assert a + b == a;
    }
  }

  /** A block of nodes all of kind `k` (`all`) or none of kind `k`. */
  lemma {:induction false} CountKindUniform(ns: seq<Node>, k: NodeKind, all: bool)
    requires forall i | 0 <= i < |ns| :: (ns[i].kind == k) == all
    ensures CountKind(ns, k) == if all then |ns| else 0
  {
    if |ns| > 0 {
      CountKindUniform(ns[..|ns| - 1], k, all);
    }
  }

  lemma {:induction false} CountLabelledAppend(a: seq<Node>, b: seq<Node>)
    ensures CountLabelled(a + b) == CountLabelled(a) + CountLabelled(b)
    decreases |b|
  {
    if |b| > 0 {
      assert (a + b)[..|a + b| - 1] == a + b[..|b| - 1];
      CountLabelledAppend(a, b[..|b| - 1]);
    } else {
      assert a + b == a;
    }
  }

  lemma {:induction false} CountLabelledUniform(ns: seq<Node>, all: bool)
    requires forall i | 0 <= i < |ns| :: (ns[i].labels == Some(ReadingLabels)) == all
    ensures CountLabelled(ns) == if all then |ns| else 0
  {
    if |ns| > 0 {
      CountLabelledUniform(ns[..|ns| - 1], all);
    }
  }

  lemma {:induction false} CountRelAppend(a: seq<Edge>, b: seq<Edge>, rel: RelType)
    ensures CountRel(a + b, rel) == CountRel(a, rel) + CountRel(b, rel)
    decreases |b|
  {
    if |b| > 0 {
      assert (a + b)[..|a + b| - 1] == a + b[..|b| - 1];
      CountRelAppend(a, b[..|b| - 1], rel);
    } else {
      assert a + b == a;
    }
  }

  lemma {:induction false} CountRelUniform(es: seq<Edge>, rel: RelType, all: bool)
    requires forall i | 0 <= i < |es| :: (es[i].rel == rel) == all
    ensures CountRel(es, rel) == if all then |es| else 0
  {
    if |es| > 0 {
      CountRelUniform(es[..|es| - 1], rel, all);
    }
  }

  // ---------------------------------------------------------------------
  // Nodes
  // ---------------------------------------------------------------------

  /** The node list has 6W + E entries: W Well, W Emissions and 4W
      EmissionType nodes, and E reading nodes, which are exactly the nodes
      labelled `Emission`. */
  lemma NodeBreakdown(digest: string -> string, gs: seq<Group>, es: seq<Entry>)
    ensures var ns := Nodes(digest, gs, es);
      && |ns| == 6 * |gs| + |es|
      && CountKind(ns, WellKind) == |gs|
      && CountKind(ns, EmissionsKind) == |gs|
      && CountKind(ns, EmissionTypeKind) == 4 * |gs|
      && CountLabelled(ns) == |es|
  {
    var a, b, c, d := WellNodes(gs), EmissionsNodes(digest, gs), TypeNodes(digest, gs), ReadingNodes(digest, es);
    NodeBlocks(digest, gs, es);
    BlockCounts(a, b, c, d, WellKind);
    BlockCounts(a, b, c, d, EmissionsKind);
    BlockCounts(a, b, c, d, EmissionTypeKind);
    LabelledCounts(a, b, c, d);
  }

  lemma NodeBlocks(digest: string -> string, gs: seq<Group>, es: seq<Entry>)
    ensures var a, b, c, d := WellNodes(gs), EmissionsNodes(digest, gs), TypeNodes(digest, gs), ReadingNodes(digest, es);
      && (forall i | 0 <= i < |a| :: a[i].kind == WellKind && a[i].labels == None)
      && (forall i | 0 <= i < |b| :: b[i].kind == EmissionsKind && b[i].labels == None)
      && (forall i | 0 <= i < |c| :: c[i].kind == EmissionTypeKind && c[i].labels == None)
      && (forall i | 0 <= i < |d| :: d[i].kind.ReadingKind? && d[i].labels == Some(ReadingLabels))
  {
  }

  /** Counting one of the three fixed kinds over the four blocks. */
  lemma BlockCounts(a: seq<Node>, b: seq<Node>, c: seq<Node>, d: seq<Node>, k: NodeKind)
    requires forall i | 0 <= i < |a| :: a[i].kind == WellKind
    requires forall i | 0 <= i < |b| :: b[i].kind == EmissionsKind
    requires forall i | 0 <= i < |c| :: c[i].kind == EmissionTypeKind
    requires forall i | 0 <= i < |d| :: d[i].kind.ReadingKind?
    ensures CountKind(a + b + c + d, k) ==
      match k
      case WellKind => |a|
      case EmissionsKind => |b|
      case EmissionTypeKind => |c|
      case ReadingKind(_) => CountKind(d, k)
  {
    CountKindUniform(a, k, k == WellKind);
    CountKindUniform(b, k, k == EmissionsKind);
    CountKindUniform(c, k, k == EmissionTypeKind);
    if !k.ReadingKind? {
      CountKindUniform(d, k, false);
    }
    CountKindAppend(a, b, k);
    CountKindAppend(a + b, c, k);
    CountKindAppend(a + b + c, d, k);
  }

  /** Only the last block is labelled. */
  lemma LabelledCounts(a: seq<Node>, b: seq<Node>, c: seq<Node>, d: seq<Node>)
    requires forall i | 0 <= i < |a| :: a[i].labels == None
    requires forall i | 0 <= i < |b| :: b[i].labels == None
    requires forall i | 0 <= i < |c| :: c[i].labels == None
    requires forall i | 0 <= i < |d| :: d[i].labels == Some(ReadingLabels)
    ensures CountLabelled(a + b + c + d) == |d|
  {
    CountLabelledUniform(a, false);
    CountLabelledUniform(b, false);
    CountLabelledUniform(c, false);
    CountLabelledUniform(d, true);
    CountLabelledAppend(a, b);
    CountLabelledAppend(a + b, c);
    CountLabelledAppend(a + b + c, d);
  }

  // ---------------------------------------------------------------------
  // Edges
  // ---------------------------------------------------------------------

  /** The relationship list has 5W + E entries: W HAS_EMISSIONS, 4W HAS_TYPE,
      and one HAS_DATA or NEXT_DATE per reading entry. */
  lemma EdgeBreakdown(digest: string -> string, gs: seq<Group>, es: seq<Entry>)
    ensures var rs := Edges(digest, gs, es);
      && |rs| == 5 * |gs| + |es|
      && CountRel(rs, HasEmissions) == |gs|
      && CountRel(rs, HasType) == 4 * |gs|
      && CountRel(rs, HasData) + CountRel(rs, NextDate) == |es|
  {
    var a, b, c := HasEmissionsEdges(digest, gs), HasTypeEdges(digest, gs), ChainEdges(digest, es);
    EdgeBlocks(digest, gs, es);
    ThreeBlocks(a, b, c, HasEmissions);
    ThreeBlocks(a, b, c, HasType);
    ThreeBlocks(a, b, c, HasData);
    ThreeBlocks(a, b, c, NextDate);
    ChainSplit(c);
  }

  lemma EdgeBlocks(digest: string -> string, gs: seq<Group>, es: seq<Entry>)
    ensures var a, b, c := HasEmissionsEdges(digest, gs), HasTypeEdges(digest, gs), ChainEdges(digest, es);
      && |a| == |gs| && |b| == 4 * |gs| && |c| == |es|
      && (forall i | 0 <= i < |a| :: a[i].rel == HasEmissions)
      && (forall i | 0 <= i < |b| :: b[i].rel == HasType)
      && (forall i | 0 <= i < |c| :: c[i].rel == HasData || c[i].rel == NextDate)
  {
  }

  lemma ThreeBlocks(a: seq<Edge>, b: seq<Edge>, c: seq<Edge>, rel: RelType)
    requires forall i | 0 <= i < |a| :: a[i].rel == HasEmissions
    requires forall i | 0 <= i < |b| :: b[i].rel == HasType
    requires forall i | 0 <= i < |c| :: c[i].rel == HasData || c[i].rel == NextDate
    ensures CountRel(a + b + c, rel) ==
      match rel
      case HasEmissions => |a|
      case HasType => |b|
      case _ => CountRel(c, rel)
  {
    CountRelUniform(a, rel, rel == HasEmissions);
    CountRelUniform(b, rel, rel == HasType);
    if rel == HasEmissions || rel == HasType {
      CountRelUniform(c, rel, false);
    }
    CountRelAppend(a, b, rel);
    CountRelAppend(a + b, c, rel);
  }

  lemma {:induction false} ChainSplit(c: seq<Edge>)
    requires forall i | 0 <= i < |c| :: c[i].rel == HasData || c[i].rel == NextDate
    ensures CountRel(c, HasData) + CountRel(c, NextDate) == |c|
  {
    if |c| > 0 {
      ChainSplit(c[..|c| - 1]);
    }
  }

  // ---------------------------------------------------------------------
  // Chain edges per series
  // ---------------------------------------------------------------------

  /** The number of entries among the first `n` that belong to series `s`. */
  function SeriesCount(es: seq<Entry>, n: nat, s: Series): nat
    requires n <= |es|
  {
    if n == 0 then 0 else SeriesCount(es, n - 1, s) + (if SeriesOf(es[n - 1]) == s then 1 else 0)
  }

  /** The number of entries among the first `n` in series `s` whose chain
      edge has type `rel`. */
  function SeriesRelCount(digest: string -> string, es: seq<Entry>, n: nat, s: Series, rel: RelType): nat
    requires n <= |es|
  {
    if n == 0 then 0
    else SeriesRelCount(digest, es, n - 1, s, rel) +
         (if SeriesOf(es[n - 1]) == s && ChainEdge(digest, es, n - 1).rel == rel then 1 else 0)
  }

  /** An earlier entry of the series exists exactly when the series has been
      counted. */
  lemma {:induction false} LastIndexCounts(es: seq<Entry>, n: nat, s: Series)
    requires n <= |es|
    ensures LastIndex(es, n, s) >= 0 <==> SeriesCount(es, n, s) > 0
  {
    if n > 0 {
      LastIndexCounts(es, n - 1, s);
    }
  }

  /** A series with k entries gets one HAS_DATA edge when k > 0 (none when
      k = 0) and k - 1 NEXT_DATE edges. */
  lemma {:induction false} SeriesEdges(digest: string -> string, es: seq<Entry>, n: nat, s: Series)
    requires n <= |es|
    ensures SeriesRelCount(digest, es, n, s, HasData) == if SeriesCount(es, n, s) > 0 then 1 else 0
    ensures SeriesRelCount(digest, es, n, s, NextDate) == if SeriesCount(es, n, s) > 0 then SeriesCount(es, n, s) - 1 else 0
  {
    if n > 0 {
      SeriesEdges(digest, es, n - 1, s);
      LastIndexCounts(es, n - 1, s);
    }
  }
}
