/** The shape of the reading chains once the entries are in the loader's
    descending order: each (well, category) series is one contiguous run,
    the HAS_DATA edge enters the run's first (latest) entry and every
    NEXT_DATE edge links an entry to the one just before it. */
module ChainShape {
  import opened Text
  import opened EmissionTypes
  import opened Readings
  import opened EntryOrder
  import opened Graph

  /** In descending key order an entry lying between two entries of a
      series belongs to that series. */
  lemma SeriesContiguous(es: seq<Entry>, i: nat, j: nat, k: nat)
    requires SortedDesc(es) && i < j < k < |es|
    requires SeriesOf(es[i]) == SeriesOf(es[k])
    ensures SeriesOf(es[j]) == SeriesOf(es[i])
  {
    var a, b, c := es[i], es[j], es[k];
    assert !KeyLess(a, b) && !KeyLess(b, c);
    LessTotal(a.wellKey, b.wellKey);
    if a.wellKey == b.wellKey {
      LessTotal(a.etype.Name(), b.etype.Name());
      NameInjective(a.etype, b.etype);
    }
  }

  /** Within one series the dates do not increase along the sequence. */
  lemma SeriesDatesDescend(es: seq<Entry>, i: nat, j: nat)
    requires SortedDesc(es) && i < j < |es|
    requires SeriesOf(es[i]) == SeriesOf(es[j])
    ensures !Less(es[i].date, es[j].date)
  {
    assert !KeyLess(es[i], es[j]);
  }

  /** In sorted order the previous entry of a series is the immediately
      preceding one, if that one is in the same series at all. */
  lemma SortedLastIndex(es: seq<Entry>, i: nat)
    requires SortedDesc(es) && i < |es|
    ensures LastIndex(es, i, SeriesOf(es[i])) ==
      if i > 0 && SeriesOf(es[i - 1]) == SeriesOf(es[i]) then i - 1 else -1
  {
    var s := SeriesOf(es[i]);
    if i > 0 && SeriesOf(es[i - 1]) != s {
      var r := LastIndex(es, i, s);
      if r >= 0 {
        SeriesContiguous(es, r, i - 1, i);
        assert false;
      }
    }
  }

  /** The edge into entry `i` of a sorted sequence: HAS_DATA exactly when
      `i` starts its series' run, otherwise NEXT_DATE from entry `i - 1`. */
  lemma SortedChainEdge(digest: string -> string, es: seq<Entry>, i: nat)
    requires SortedDesc(es) && i < |es|
    ensures var e := es[i];
      ChainEdge(digest, es, i) ==
        if i > 0 && SeriesOf(es[i - 1]) == SeriesOf(e)
        then Edge(ReadingRef(digest, es[i - 1]), ReadingRef(digest, e), NextDate)
        else Edge(Ref(EmissionTypeKind, TypeId(digest, e.wellKey, e.etype)), ReadingRef(digest, e), HasData)
  {
    SortedLastIndex(es, i);
  }

  /** A NEXT_DATE edge goes from an entry to one of the same series whose
      date is not later; strictly earlier when the two keys differ. */
  lemma NextDateOlder(digest: string -> string, es: seq<Entry>, i: nat)
    requires SortedDesc(es) && i < |es|
    requires ChainEdge(digest, es, i).rel == NextDate
    ensures i > 0 && SeriesOf(es[i - 1]) == SeriesOf(es[i])
    ensures ChainEdge(digest, es, i).source == ReadingRef(digest, es[i - 1])
    ensures !Less(es[i - 1].date, es[i].date)
    ensures es[i - 1].date != es[i].date ==> Less(es[i].date, es[i - 1].date)
  {
    SortedChainEdge(digest, es, i);
    SeriesDatesDescend(es, i - 1, i);
    LessTotal(es[i].date, es[i - 1].date);
  }

  /** The HAS_DATA edge of a series enters its latest entry: no entry of the
      series, before or after, has a later date. */
  lemma HasDataLatest(digest: string -> string, es: seq<Entry>, i: nat, j: nat)
    requires SortedDesc(es) && i < |es| && j < |es|
    requires ChainEdge(digest, es, i).rel == HasData
    requires SeriesOf(es[j]) == SeriesOf(es[i])
    ensures i <= j
    ensures !Less(es[i].date, es[j].date)
  {
    var p := LastIndex(es, i, SeriesOf(es[i]));
    assert p < 0;
    if i < j {
      SeriesDatesDescend(es, i, j);
    } else if j < i {
      assert false;
    } else {
      LessIrreflexive(es[i].date);
    }
  }

  /** Two adjacent entries with equal keys (a well reporting one date twice)
      give a NEXT_DATE edge from a reading node to itself. */
  lemma DuplicateDateSelfLoop(digest: string -> string, es: seq<Entry>, i: nat)
    requires SortedDesc(es) && 0 < i < |es|
    requires SameKey(es[i - 1], es[i])
    ensures ChainEdge(digest, es, i).rel == NextDate
    ensures ChainEdge(digest, es, i).source == ChainEdge(digest, es, i).target
  {
    SortedChainEdge(digest, es, i);
  }

  /** Distinct entries have distinct reading identities. */
  predicate DistinctIds(digest: string -> string, es: seq<Entry>) {
    forall a, b | 0 <= a < b < |es| :: ReadingId(digest, es[a]) != ReadingId(digest, es[b])
  }

  /** A walk along chain edges: consecutive edges meet end to start. */
  predicate IsPath(cs: seq<Edge>, p: seq<nat>) {
    && |p| > 0
    && (forall k | 0 <= k < |p| :: p[k] < |cs|)
    && (forall k | 0 <= k < |p| - 1 :: cs[p[k]].target == cs[p[k + 1]].source)
  }

  /** Along a walk in a sorted sequence with distinct identities each step
      moves to the very next entry, so a walk of `n` edges ends `n - 1`
      entries further on. */
  lemma {:induction false} PathAdvances(digest: string -> string, es: seq<Entry>, p: seq<nat>)
    requires SortedDesc(es) && DistinctIds(digest, es)
    requires IsPath(ChainEdges(digest, es), p)
    ensures p[|p| - 1] == p[0] + |p| - 1
  {
    if |p| > 1 {
      PathTail(ChainEdges(digest, es), p);
      PathAdvances(digest, es, p[1..]);
      StepAdvances(digest, es, p[0], p[1]);
    }
  }

  lemma PathTail(cs: seq<Edge>, p: seq<nat>)
    requires IsPath(cs, p) && |p| > 1
    ensures IsPath(cs, p[1..])
  {
    assert forall k | 0 <= k < |p| - 1 :: p[1..][k] == p[k + 1];
  }

  /** One step of a walk: the edge leaving entry `a`'s node is the edge
      into entry `a + 1`. */
  lemma StepAdvances(digest: string -> string, es: seq<Entry>, a: nat, b: nat)
    requires SortedDesc(es) && DistinctIds(digest, es)
    requires a < |es| && b < |es|
    requires ChainEdge(digest, es, a).target == ChainEdge(digest, es, b).source
    ensures b == a + 1
  {
    SortedChainEdge(digest, es, a);
    SortedChainEdge(digest, es, b);
  }

  /** The reading chains are acyclic: no walk along chain edges ends where
      it started, as long as distinct entries have distinct identities. */
  lemma ChainAcyclic(digest: string -> string, es: seq<Entry>, p: seq<nat>)
    requires SortedDesc(es) && DistinctIds(digest, es)
    requires IsPath(ChainEdges(digest, es), p)
    ensures ChainEdges(digest, es)[p[|p| - 1]].target != ChainEdges(digest, es)[p[0]].source
  {
    PathAdvances(digest, es, p);
    var a, b := p[0], p[|p| - 1];
    SortedChainEdge(digest, es, a);
    SortedChainEdge(digest, es, b);
    if a > 0 && SeriesOf(es[a - 1]) == SeriesOf(es[a]) {
      assert ReadingId(digest, es[a - 1]) != ReadingId(digest, es[b]);
    }
  }
}
