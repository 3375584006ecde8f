/** Every relationship the loader emits connects two nodes it also emits:
    the graph has no dangling endpoint, as long as every entry belongs to
    one of the grouped wells (which holds for the collected entries). */
module GraphClosure {
  import opened EmissionTypes
  import opened CsvRows
  import opened Readings
  import opened EntryOrder
  import opened Graph

  /** The endpoints the node list declares. */
  function Declared(ns: seq<Node>): set<Ref> {
    set n | n in ns :: Ref(n.kind, n.externalId)
  }

  /** Every edge starts and ends at a declared node. */
  predicate Closed(g: Graph) {
    forall e | e in g.edges :: e.source in Declared(g.nodes) && e.target in Declared(g.nodes)
  }

  lemma DeclaredAt(ns: seq<Node>, i: nat)
    requires i < |ns|
    ensures Ref(ns[i].kind, ns[i].externalId) in Declared(ns)
  {
    assert ns[i] in ns;
  }

  lemma DeclaredAppend(a: seq<Node>, b: seq<Node>)
    ensures Declared(a + b) == Declared(a) + Declared(b)
  {
    forall r | r in Declared(a + b) ensures r in Declared(a) + Declared(b) {
      var n :| n in a + b && r == Ref(n.kind, n.externalId);
      assert n in a || n in b;
    }
    forall r | r in Declared(a) + Declared(b) ensures r in Declared(a + b) {
      var n :| (n in a || n in b) && r == Ref(n.kind, n.externalId);
      assert n in a + b;
    }
  }

  /** The node list declares the union of its four blocks. */
  lemma NodesDeclared(digest: string -> string, gs: seq<Group>, es: seq<Entry>)
    ensures Declared(Nodes(digest, gs, es)) ==
      Declared(WellNodes(gs)) + Declared(EmissionsNodes(digest, gs)) +
      Declared(TypeNodes(digest, gs)) + Declared(ReadingNodes(digest, es))
  {
    var a, b, c, d := WellNodes(gs), EmissionsNodes(digest, gs), TypeNodes(digest, gs), ReadingNodes(digest, es);
    DeclaredAppend(a, b);
    DeclaredAppend(a + b, c);
    DeclaredAppend(a + b + c, d);
  }

  /** Well `g`'s EmissionType node of category `t` is declared. */
  lemma TypeDeclared(digest: string -> string, gs: seq<Group>, g: nat, t: EmissionType)
    requires g < |gs|
    ensures Ref(EmissionTypeKind, TypeId(digest, gs[g].key, t)) in Declared(TypeNodes(digest, gs))
  {
    var ns := TypeNodes(digest, gs);
    var i := 4 * g + t.Index();
    AllTypesEnumerates(t);
    assert i / 4 == g && i % 4 == t.Index();
    DeclaredAt(ns, i);
  }

  /** A HAS_EMISSIONS edge joins a well to its Emissions node. */
  lemma HasEmissionsClosed(digest: string -> string, gs: seq<Group>)
    ensures forall e | e in HasEmissionsEdges(digest, gs) ::
      e.source in Declared(WellNodes(gs)) && e.target in Declared(EmissionsNodes(digest, gs))
  {
    var hs := HasEmissionsEdges(digest, gs);
    forall e | e in hs
      ensures e.source in Declared(WellNodes(gs)) && e.target in Declared(EmissionsNodes(digest, gs))
    {
      var i :| 0 <= i < |hs| && hs[i] == e;
      DeclaredAt(WellNodes(gs), i);
      DeclaredAt(EmissionsNodes(digest, gs), i);
    }
  }

  /** A HAS_TYPE edge joins an Emissions node to an EmissionType node. */
  lemma HasTypeClosed(digest: string -> string, gs: seq<Group>)
    ensures forall e | e in HasTypeEdges(digest, gs) ::
      e.source in Declared(EmissionsNodes(digest, gs)) && e.target in Declared(TypeNodes(digest, gs))
  {
    var ts := HasTypeEdges(digest, gs);
    forall e | e in ts
      ensures e.source in Declared(EmissionsNodes(digest, gs)) && e.target in Declared(TypeNodes(digest, gs))
    {
      var i :| 0 <= i < |ts| && ts[i] == e;
      DeclaredAt(EmissionsNodes(digest, gs), i / 4);
      DeclaredAt(TypeNodes(digest, gs), i);
    }
  }

  /** The edge into entry `i` joins declared nodes: its target is the
      entry's own node and its source the series' EmissionType node or an
      earlier reading node. */
  lemma ChainEdgeClosed(digest: string -> string, gs: seq<Group>, es: seq<Entry>, i: nat)
    requires i < |es| && es[i].wellKey in GroupKeys(gs)
    ensures var e := ChainEdge(digest, es, i);
      && e.target == ReadingRef(digest, es[i])
      && (|| e.source == Ref(EmissionTypeKind, TypeId(digest, es[i].wellKey, es[i].etype))
          || exists p | 0 <= p < i :: SeriesOf(es[p]) == SeriesOf(es[i]) && e.source == ReadingRef(digest, es[p]))
      && e.target in Declared(ReadingNodes(digest, es))
      && e.source in Declared(TypeNodes(digest, gs)) + Declared(ReadingNodes(digest, es))
  {
    var rs := ReadingNodes(digest, es);
    DeclaredAt(rs, i);
    var p := LastIndex(es, i, SeriesOf(es[i]));
    if p < 0 {
      var ks := GroupKeys(gs);
      var g :| 0 <= g < |ks| && ks[g] == es[i].wellKey;
      TypeDeclared(digest, gs, g, es[i].etype);
    } else {
      DeclaredAt(rs, p);
    }
  }

  lemma ChainEdgesClosed(digest: string -> string, gs: seq<Group>, es: seq<Entry>)
    requires forall k | 0 <= k < |es| :: es[k].wellKey in GroupKeys(gs)
    ensures forall e | e in ChainEdges(digest, es) ::
      && e.target in Declared(ReadingNodes(digest, es))
      && e.source in Declared(TypeNodes(digest, gs)) + Declared(ReadingNodes(digest, es))
  {
    var cs := ChainEdges(digest, es);
    forall e | e in cs
      ensures e.target in Declared(ReadingNodes(digest, es))
      ensures e.source in Declared(TypeNodes(digest, gs)) + Declared(ReadingNodes(digest, es))
    {
      var i :| 0 <= i < |cs| && cs[i] == e;
      ChainEdgeClosed(digest, gs, es, i);
    }
  }

  /** The assembled graph has no dangling endpoint when every entry belongs
      to a grouped well. */
  lemma AssembleClosed(digest: string -> string, gs: seq<Group>, es: seq<Entry>)
    requires forall k | 0 <= k < |es| :: es[k].wellKey in GroupKeys(gs)
    ensures Closed(Assemble(digest, gs, es))
  {
    NodesDeclared(digest, gs, es);
    HasEmissionsClosed(digest, gs);
    HasTypeClosed(digest, gs);
    ChainEdgesClosed(digest, gs, es);
    var hs, ts, cs := HasEmissionsEdges(digest, gs), HasTypeEdges(digest, gs), ChainEdges(digest, es);
    assert forall e | e in Edges(digest, gs, es) :: e in hs || e in ts || e in cs;
  }

  /** The loader's graph has no dangling endpoint. */
  lemma BuildClosed(env: Env, gs: seq<Group>)
    ensures Closed(Build(env, gs))
  {
    var collected := CollectEntries(env, gs);
    var es := SortedEntries(env, gs);
    forall k | 0 <= k < |es| ensures es[k].wellKey in GroupKeys(gs) {
      assert es[k] in multiset(collected);
      var m :| 0 <= m < |collected| && collected[m] == es[k];
    }
    AssembleClosed(env.digest, gs, es);
  }
}
