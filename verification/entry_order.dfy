/** The order in which the loader visits the reading entries:
    `date_entries.sort(key=(well_key, emission_type, date), reverse=True)`.
    The key is compared as a Python tuple of strings, and Python's sort is
    stable also when reversed, so entries with equal keys keep the order in
    which they were collected. */
module EntryOrder {
  import opened Text
  import opened EmissionTypes
  import opened Readings

  /** `key(a) < key(b)` for the tuple key: the first differing component
      decides, by Python's string order. Category names are distinct, so
      equal names mean equal categories. */
  predicate KeyLess(a: Entry, b: Entry) {
    || Less(a.wellKey, b.wellKey)
    || (a.wellKey == b.wellKey && Less(a.etype.Name(), b.etype.Name()))
    || (a.wellKey == b.wellKey && a.etype == b.etype && Less(a.date, b.date))
  }

  /** Equal sort keys. */
  predicate SameKey(a: Entry, b: Entry) {
    a.wellKey == b.wellKey && a.etype == b.etype && a.date == b.date
  }

  lemma KeyLessIrreflexive(a: Entry)
    ensures !KeyLess(a, a)
  {
    LessIrreflexive(a.wellKey);
    LessIrreflexive(a.etype.Name());
    LessIrreflexive(a.date);
  }

  lemma KeyLessTransitive(a: Entry, b: Entry, c: Entry)
    requires KeyLess(a, b) && KeyLess(b, c)
    ensures KeyLess(a, c)
  {
    if Less(a.wellKey, b.wellKey) && Less(b.wellKey, c.wellKey) {
      LessTransitive(a.wellKey, b.wellKey, c.wellKey);
    } else if a.wellKey == b.wellKey == c.wellKey {
      var na, nb, nc := a.etype.Name(), b.etype.Name(), c.etype.Name();
      if Less(na, nb) && Less(nb, nc) {
        LessTransitive(na, nb, nc);
      } else if a.etype == b.etype == c.etype {
        LessTransitive(a.date, b.date, c.date);
      }
    }
  }

  /** Any two keys are ordered one way or the other, or equal. */
  lemma KeyLessTotal(a: Entry, b: Entry)
    ensures KeyLess(a, b) || KeyLess(b, a) || SameKey(a, b)
  {
    LessTotal(a.wellKey, b.wellKey);
    LessTotal(a.etype.Name(), b.etype.Name());
    NameInjective(a.etype, b.etype);
    LessTotal(a.date, b.date);
  }

  /** Descending order: no entry has a smaller key than one after it. */
  predicate SortedDesc(s: seq<Entry>) {
    forall i, j | 0 <= i < j < |s| :: !KeyLess(s[i], s[j])
  }

  /** Places `x` into a descending sequence after every entry whose key is
      not smaller than its own, so that among equal keys it comes last. */
  function Insert(x: Entry, s: seq<Entry>): (r: seq<Entry>)
    ensures multiset(r) == multiset(s) + multiset{x}
  {
    if |s| == 0 then [x]
    else if KeyLess(s[0], x) then [x] + s
    else
      assert s == [s[0]] + s[1..];
      [s[0]] + Insert(x, s[1..])
  }

  /** The stable descending sort: entries are inserted in input order. */
  function Sort(s: seq<Entry>): (r: seq<Entry>)
    ensures multiset(r) == multiset(s)
  {
    if |s| == 0 then []
    else
      var init := Sort(s[..|s| - 1]);
      assert s == s[..|s| - 1] + [s[|s| - 1]];
      Insert(s[|s| - 1], init)
  }

  lemma {:induction false} InsertSorted(x: Entry, s: seq<Entry>)
    requires SortedDesc(s)
    ensures SortedDesc(Insert(x, s))
  {
    if |s| == 0 {
    } else if KeyLess(s[0], x) {
      var r := Insert(x, s);
      forall j | 0 < j < |r| ensures !KeyLess(x, r[j]) {
        if KeyLess(x, r[j]) {
          KeyLessTransitive(s[0], x, r[j]);
          if j == 1 {
            KeyLessIrreflexive(s[0]);
          }
        }
      }
    } else {
      var tail := Insert(x, s[1..]);
      InsertSorted(x, s[1..]);
      var r := [s[0]] + tail;
      forall j | 0 < j < |r| ensures !KeyLess(s[0], r[j]) {
        assert r[j] in multiset(tail);
        if r[j] != x {
          assert r[j] in multiset(s[1..]);
          var m :| 0 <= m < |s[1..]| && s[1..][m] == r[j];
          assert s[m + 1] == r[j];
        }
      }
    }
  }

  /** The sort's result is in descending key order. */
  lemma {:induction false} SortSorted(s: seq<Entry>)
    ensures SortedDesc(Sort(s))
  {
    if |s| > 0 {
      SortSorted(s[..|s| - 1]);
      InsertSorted(s[|s| - 1], Sort(s[..|s| - 1]));
    }
  }

  /** The entries of `s` whose key equals that of `k`, in order. */
  function Matching(s: seq<Entry>, k: Entry): seq<Entry> {
    if |s| == 0 then []
    else (if SameKey(s[0], k) then [s[0]] else []) + Matching(s[1..], k)
  }

  lemma {:induction false} MatchingAppend(a: seq<Entry>, b: seq<Entry>, k: Entry)
    ensures Matching(a + b, k) == Matching(a, k) + Matching(b, k)
  {
    if |a| == 0 {
      assert a + b == b;
    } else {
      var h := if SameKey(a[0], k) then [a[0]] else [];
      assert (a + b)[0] == a[0] && (a + b)[1..] == a[1..] + b;
      assert Matching(a + b, k) == h + Matching(a[1..] + b, k);
      MatchingAppend(a[1..], b, k);
    }
  }

  /** Entries all smaller than `x` hold nothing with the key of `x`. */
  lemma {:induction false} MatchingBelow(s: seq<Entry>, x: Entry, k: Entry)
    requires SameKey(x, k)
    requires forall i | 0 <= i < |s| :: KeyLess(s[i], x)
    ensures Matching(s, k) == []
  {
    if |s| > 0 {
      KeyLessIrreflexive(x);
      assert KeyLess(s[0], x);
      MatchingBelow(s[1..], x, k);
    }
  }

  /** Inserting appends `x` to the entries sharing its key. */
  lemma {:induction false} InsertStable(x: Entry, s: seq<Entry>, k: Entry)
    requires SortedDesc(s)
    ensures Matching(Insert(x, s), k) == Matching(s, k) + (if SameKey(x, k) then [x] else [])
  {
    if |s| == 0 {
      MatchingSingle(x, k);
    } else if KeyLess(s[0], x) {
      InsertFront(x, s, k);
    } else {
      SortedTail(s);
      InsertStable(x, s[1..], k);
      InsertBehind(x, s, k);
    }
  }

  /** When `x` goes in front, nothing after it shares its key. */
  lemma InsertFront(x: Entry, s: seq<Entry>, k: Entry)
    requires SortedDesc(s) && |s| > 0 && KeyLess(s[0], x)
    ensures Matching([x] + s, k) == Matching(s, k) + (if SameKey(x, k) then [x] else [])
  {
    MatchingAppend([x], s, k);
    MatchingSingle(x, k);
    if SameKey(x, k) {
      forall i | 0 <= i < |s| ensures KeyLess(s[i], x) {
        if i > 0 && !KeyLess(s[i], x) {
          KeyLessTotal(s[i], x);
          if KeyLess(x, s[i]) {
            KeyLessTransitive(s[0], x, s[i]);
          }
        }
      }
      MatchingBelow(s, x, k);
    }
  }

  lemma SortedTail(s: seq<Entry>)
    requires SortedDesc(s) && |s| > 0
    ensures SortedDesc(s[1..])
  {
    forall i, j | 0 <= i < j < |s| - 1 ensures !KeyLess(s[1..][i], s[1..][j]) {
      assert s[1..][i] == s[i + 1] && s[1..][j] == s[j + 1];
    }
  }

  /** When `x` goes behind the head, the head's match stays in front. */
  lemma InsertBehind(x: Entry, s: seq<Entry>, k: Entry)
    requires |s| > 0 && !KeyLess(s[0], x)
    requires Matching(Insert(x, s[1..]), k) == Matching(s[1..], k) + (if SameKey(x, k) then [x] else [])
    ensures Matching(Insert(x, s), k) == Matching(s, k) + (if SameKey(x, k) then [x] else [])
  {
    assert Insert(x, s) == [s[0]] + Insert(x, s[1..]);
    assert [s[0]] + s[1..] == s;
    PrependMatching(s[0], Insert(x, s[1..]), s[1..], k, if SameKey(x, k) then [x] else []);
  }

  lemma PrependMatching(e: Entry, u: seq<Entry>, v: seq<Entry>, k: Entry, xs: seq<Entry>)
    requires Matching(u, k) == Matching(v, k) + xs
    ensures Matching([e] + u, k) == Matching([e] + v, k) + xs
  {
    MatchingAppend([e], u, k);
    MatchingAppend([e], v, k);
  }

  /** Stability: the entries sharing a key appear in the sort's result in
      the order they were collected. */
  lemma {:induction false} SortStable(s: seq<Entry>, k: Entry)
    ensures Matching(Sort(s), k) == Matching(s, k)
  {
    if |s| > 0 {
      var init, x := s[..|s| - 1], s[|s| - 1];
      assert s == init + [x];
      assert Sort(s) == Insert(x, Sort(init));
      SortStable(init, k);
      SortSorted(init);
      InsertAfter(x, Sort(init), init, k);
    }
  }

  /** Inserting `x` into a sorted sequence that matches `init` on key `k`
      matches `init` followed by `x`. */
  lemma InsertAfter(x: Entry, sorted: seq<Entry>, init: seq<Entry>, k: Entry)
    requires SortedDesc(sorted) && Matching(sorted, k) == Matching(init, k)
    ensures Matching(Insert(x, sorted), k) == Matching(init + [x], k)
  {
    InsertStable(x, sorted, k);
    MatchingAppend(init, [x], k);
    MatchingSingle(x, k);
  }

  lemma MatchingSingle(x: Entry, k: Entry)
    ensures Matching([x], k) == if SameKey(x, k) then [x] else []
  {
    assert [x][1..] == [];
  }
}
