/** Conversion of a node's name-to-value mapping into the wire format: an
    ordered list of `{type, value, metadata?}` entries. */
module Properties {
  import opened Wrappers
  import opened Text
  import opened Json

  /** An insertion-ordered Python dict of property values. */
  type Dict = seq<(string, Json)>

  predicate DistinctKeys(d: Dict) {
    forall i, j | 0 <= i < j < |d| :: d[i].0 != d[j].0
  }

  function Keys(d: Dict): (r: seq<string>)
    ensures |r| == |d| && forall i | 0 <= i < |d| :: r[i] == d[i].0
  {
    if |d| == 0 then [] else [d[0].0] + Keys(d[1..])
  }

  /** `d[key]` when present. */
  function Get(d: Dict, key: string): (r: Option<Json>)
    ensures r.Some? <==> key in Keys(d)
    ensures r.Some? ==> (key, r.value) in d
    ensures DistinctKeys(d) ==> forall i | 0 <= i < |d| && d[i].0 == key :: r == Some(d[i].1)
  {
    if |d| == 0 then None
    else if d[0].0 == key then Some(d[0].1)
    else Get(d[1..], key)
  }

  /** A key is looked up in the first half of a concatenated dict when
      that half holds it, and in the second half otherwise. */
  lemma {:induction false} GetAppend(a: Dict, b: Dict, key: string)
    ensures Get(a + b, key) == if key in Keys(a) then Get(a, key) else Get(b, key)
  {
    if |a| == 0 {
      assert a + b == b;
    } else {
      assert (a + b)[1..] == a[1..] + b;
      GetAppend(a[1..], b, key);
      assert Keys(a) == [a[0].0] + Keys(a[1..]);
    }
  }

  /** One entry of the property array. */
  datatype Prop = Prop(name: string, value: Json, metadata: Option<Json>)

  /** Names such as `_volume_metadata`: placeholders that carry another
      property's metadata and are never emitted themselves. */
  predicate IsMetadataKey(k: string) {
    StartsWith(k, "_") && EndsWith(k, "_metadata")
  }

  /** The placeholder that carries the metadata of property `name`. */
  function MetadataKey(name: string): (r: string)
    ensures IsMetadataKey(r)
  {
    "_" + name + "_metadata"
  }

  /** Values that are emitted: everything but `None` and the empty string. */
  predicate Present(v: Json) {
    v != Null && v != Str("")
  }

  predicate Kept(p: (string, Json)) {
    !IsMetadataKey(p.0) && Present(p.1)
  }

  /** The names of the kept entries, in input order. */
  function KeptNames(items: Dict): seq<string> {
    if |items| == 0 then []
    else (if Kept(items[0]) then [items[0].0] else []) + KeptNames(items[1..])
  }

  function Names(props: seq<Prop>): (r: seq<string>)
    ensures |r| == |props| && forall i | 0 <= i < |props| :: r[i] == props[i].name
  {
    if |props| == 0 then [] else [props[0].name] + Names(props[1..])
  }

  /** The entries produced for `items`, looking metadata up in the whole
      dict `all`. */
  function Convert(all: Dict, items: Dict): (r: seq<Prop>)
    ensures |r| <= |items|
    ensures Names(r) == KeptNames(items)
  {
    if |items| == 0 then []
    else
      var rest := Convert(all, items[1..]);
      var (name, value) := items[0];
      if Kept(items[0]) then [Prop(name, value, Get(all, MetadataKey(name)))] + rest
      else rest
  }

  /** Converting a concatenated dict converts each half in turn. */
  lemma {:induction false} ConvertAppend(all: Dict, a: Dict, b: Dict)
    ensures Convert(all, a + b) == Convert(all, a) + Convert(all, b)
  {
    if |a| == 0 {
      assert a + b == b;
    } else {
      assert (a + b)[1..] == a[1..] + b;
      ConvertAppend(all, a[1..], b);
    }
  }

  /** Entry `p` is the kept input entry `(p.name, p.value)` of `items`
      with the metadata `all` holds for its name. */
  predicate FromDict(p: Prop, items: Dict, all: Dict) {
    && (p.name, p.value) in items
    && Kept((p.name, p.value))
    && p.metadata == Get(all, MetadataKey(p.name))
  }

  /** Each produced entry is a kept input entry with the metadata `all`
      holds for it. */
  lemma {:induction false} ConvertEntries(all: Dict, items: Dict)
    ensures forall k | 0 <= k < |Convert(all, items)| :: FromDict(Convert(all, items)[k], items, all)
  {
    if |items| > 0 {
      ConvertEntries(all, items[1..]);
      var r, rest := Convert(all, items), Convert(all, items[1..]);
      forall k | 0 <= k < |r| ensures FromDict(r[k], items, all) {
        if Kept(items[0]) && k == 0 {
        } else {
          var j := if Kept(items[0]) then k - 1 else k;
          assert r[k] == rest[j];
          Widen(rest[j], items, all);
        }
      }
    }
  }

  lemma Widen(p: Prop, items: Dict, all: Dict)
    requires |items| > 0 && FromDict(p, items[1..], all)
    ensures FromDict(p, items, all)
  {
    assert items == [items[0]] + items[1..];
  }

  /** The property array of a dict. Its names are exactly the kept keys in
      input order (no placeholder, no `None` or empty value, never more
      entries than keys); each entry carries its input value, and carries
      metadata exactly when the dict holds `_<name>_metadata`, whose value
      it then is. */
  function ToArray(d: Dict): (r: seq<Prop>)
    ensures |r| <= |d|
    ensures Names(r) == KeptNames(d)
    ensures forall k | 0 <= k < |r| :: (r[k].name, r[k].value) in d && Kept((r[k].name, r[k].value))
    ensures forall k | 0 <= k < |r| ::
      (r[k].metadata.Some? <==> MetadataKey(r[k].name) in Keys(d)) &&
      r[k].metadata == Get(d, MetadataKey(r[k].name))
  {
    ConvertEntries(d, d);
    Convert(d, d)
  }

  /** A dict without placeholders whose values are all present converts
      entry for entry, with no metadata. */
  lemma {:induction false} ToArrayPlain(d: Dict)
    requires forall i | 0 <= i < |d| :: Kept(d[i])
    ensures |ToArray(d)| == |d|
    ensures forall k | 0 <= k < |d| :: ToArray(d)[k] == Prop(d[k].0, d[k].1, None)
  {
    ConvertPlain(d, d);
  }

  lemma {:induction false} ConvertPlain(all: Dict, items: Dict)
    requires forall i | 0 <= i < |all| :: Kept(all[i])
    requires forall i | 0 <= i < |items| :: Kept(items[i])
    ensures |Convert(all, items)| == |items|
    ensures forall k | 0 <= k < |items| :: Convert(all, items)[k] == Prop(items[k].0, items[k].1, None)
  {
    if |items| > 0 {
      ConvertPlain(all, items[1..]);
    }
  }

  /** The single-entry dict `{"name": v}` used for Well, Emissions and
      EmissionType nodes gives one entry when `v` is present and none
      otherwise (a well whose name cell is empty has no properties). */
  lemma NameOnly(v: Json)
    ensures Present(v) ==> ToArray([("name", v)]) == [Prop("name", v, None)]
    ensures !Present(v) ==> ToArray([("name", v)]) == []
  {
    var d := [("name", v)];
    assert !IsMetadataKey("name");
    if Present(v) {
      ToArrayPlain(d);
    } else {
      assert KeptNames(d) == [];
    }
  }
}
