/** Hash-derived external identities. The SHA-256 digest itself is not
    modelled: it is a parameter `digest`, expected to return 64 lowercase
    hexadecimal characters. */
module Identity {
  import opened Text
  import opened EmissionTypes

  /** Characters kept from the digest. */
  const IdLength: nat := 24

  /** Characters in a SHA-256 hex digest. */
  const DigestLength: nat := 64

  /** The string that is hashed: key, category and date joined by `_`. */
  function IdInput(key: string, category: string, date: string): string {
    key + "_" + category + "_" + date
  }

  predicate IsLowerHexDigit(c: char) {
    ('0' <= c <= '9') || ('a' <= c <= 'f')
  }

  predicate IsHexDigest(h: string) {
    |h| == DigestLength && forall i | 0 <= i < |h| :: IsLowerHexDigit(h[i])
  }

  /** `hexdigest()[:24]` of the joined form of (key, category, date). */
  function ExternalId(digest: string -> string, key: string, category: string, date: string): string {
    var h := digest(IdInput(key, category, date));
    if |h| < IdLength then h else h[..IdLength]
  }

  /** An external identity is a prefix of the digest of the joined form, 24
      characters long when the digest is at least that long (slicing a
      shorter string keeps all of it), and so 24 lowercase hex characters
      for a well-formed digest. */
  lemma ExternalIdShape(digest: string -> string, key: string, category: string, date: string)
    ensures var h, r := digest(IdInput(key, category, date)), ExternalId(digest, key, category, date);
      && StartsWith(h, r)
      && |r| == (if |h| < IdLength then |h| else IdLength)
      && (IsHexDigest(h) ==> |r| == IdLength && forall i | 0 <= i < |r| :: IsLowerHexDigit(r[i]))
  {
  }

  /** What an identity is derived for: a well's Emissions node, one of its
      EmissionType nodes, or a dated reading. Wells themselves use their
      key as identity, unhashed. */
  datatype Subject =
    | EmissionsOf(key: string)
    | TypeOf(key: string, t: EmissionType)
    | ReadingOf(key: string, t: EmissionType, date: string)

  function Category(s: Subject): string {
    match s
    case EmissionsOf(_) => "emissions"
    case TypeOf(_, t) => "emission_type_" + t.Name()
    case ReadingOf(_, t, _) => t.Name()
  }

  function DateOf(s: Subject): string {
    match s
    case ReadingOf(_, _, d) => d
    case _ => ""
  }

  function SubjectInput(s: Subject): string {
    IdInput(s.key, Category(s), DateOf(s))
  }

  function SubjectId(digest: string -> string, s: Subject): string {
    ExternalId(digest, s.key, Category(s), DateOf(s))
  }

  /** Joining at an underscore can be undone when the first parts carry none. */
  lemma SplitAtUnderscore(a: string, x: string, b: string, y: string)
    requires '_' !in a && '_' !in b
    requires a + "_" + x == b + "_" + y
    ensures a == b && x == y
  {
    var s := a + "_" + x;
    JoinAt(a, x);
    JoinAt(b, y);
    assert |a| == |b|;
    assert a == s[..|a|] && b == s[..|b|];
    assert x == s[|a| + 1..] && y == s[|b| + 1..];
  }

  /** Where the joining underscore sits in a joined string. */
  lemma JoinAt(a: string, x: string)
    ensures (a + "_" + x)[|a|] == '_'
    ensures forall i | 0 <= i < |a| :: (a + "_" + x)[i] == a[i]
  {
  }

  /** The hashed string is the key, then the head, then the tail, joined by
      underscores. */
  lemma InputShape(s: Subject)
    ensures SubjectInput(s) == s.key + "_" + (Head(s) + "_" + Tail(s))
  {
    match s
    case EmissionsOf(k) =>
    case TypeOf(k, t) =>
      assert Category(s) == "emission" + "_" + "type_" + t.Name();
    case ReadingOf(k, t, d) =>
  }

  /** When well keys contain no underscore, distinct subjects hash distinct
      strings: two identities can then only coincide through the digest. */
  lemma SubjectInputInjective(s1: Subject, s2: Subject)
    requires '_' !in s1.key && '_' !in s2.key
    requires SubjectInput(s1) == SubjectInput(s2)
    ensures s1 == s2
  {
    InputShape(s1);
    InputShape(s2);
    SplitAtUnderscore(s1.key, Head(s1) + "_" + Tail(s1), s2.key, Head(s2) + "_" + Tail(s2));
    SplitAtUnderscore(Head(s1), Tail(s1), Head(s2), Tail(s2));
    TailDetermines(s1, s2);
  }

  /** Subjects of the same key and head are told apart by their tails. */
  lemma TailDetermines(s1: Subject, s2: Subject)
    requires s1.key == s2.key && Head(s1) == Head(s2) && Tail(s1) == Tail(s2)
    ensures s1 == s2
  {
    match s1
    case EmissionsOf(_) =>
    case TypeOf(_, t1) =>
      var t2 := s2.t;
      assert t1.Name() == Tail(s1)[5..|Tail(s1)| - 1];
      assert t2.Name() == Tail(s2)[5..|Tail(s2)| - 1];
      NameInjective(t1, t2);
    case ReadingOf(_, t1, _) =>
      NameInjective(t1, s2.t);
  }

  /** The part of the hashed string after the key, up to its next underscore. */
  function Head(s: Subject): (r: string)
    ensures '_' !in r
  {
    match s
    case EmissionsOf(_) => "emissions"
    case TypeOf(_, _) => "emission"
    case ReadingOf(_, t, _) => t.Name()
  }

  function Tail(s: Subject): string {
    match s
    case EmissionsOf(_) => ""
    case TypeOf(_, t) => "type_" + t.Name() + "_"
    case ReadingOf(_, _, d) => d
  }

  /** With an underscore in a well key, two different readings can hash the
      same string. */
  lemma UnderscoreKeysCanCollide(key: string, t: EmissionType, mid: string, date: string)
    ensures var s1 := ReadingOf(key, t, mid + "_" + t.Name() + "_" + date);
            var s2 := ReadingOf(key + "_" + t.Name() + "_" + mid, t, date);
            s1 != s2 && SubjectInput(s1) == SubjectInput(s2)
  {
    var c := t.Name();
    assert |key + "_" + c + "_" + mid| > |key|;
    assert key + "_" + c + "_" + (mid + "_" + c + "_" + date) == (key + "_" + c + "_" + mid) + "_" + c + "_" + date;
  }
}
