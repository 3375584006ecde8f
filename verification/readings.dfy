/** From grouped rows to dated reading entries: the date string, the
    per-category cell lookups, number parsing and the property dict each
    surviving (well, category, row) triple carries. */
module Readings {
  import opened Wrappers
  import opened Text
  import opened Json
  import opened EmissionTypes
  import opened Properties
  import opened CsvRows
  import opened Seqs

  /** What the loader takes from outside: the SHA-256 hex digest, Python's
      `float()` on a stripped non-empty string (`None` where it raises), the
      base name of the input file and the wall-clock ISO timestamp. */
  datatype Env = Env(digest: string -> string, parse: string -> Option<real>, sourceName: string, now: string)

  /** The assurance level written into every unit metadata record. */
  const AssuranceLevel: real := 3.0

  // ---------------------------------------------------------------------
  // Dates
  // ---------------------------------------------------------------------

  /** `create_date_string`: the stripped year, then the stripped month and
      day each zero-filled to width 2, joined by `-`. */
  function DateString(year: string, month: string, day: string): string {
    JoinDate(Strip(year), Strip(month), Strip(day))
  }

  /** Joining already stripped parts. The year is not padded; month and day
      segments are at least two characters wide. */
  function JoinDate(y: string, m: string, d: string): (r: string)
    ensures |r| == |y| + 1 + (if |m| < 2 then 2 else |m|) + 1 + (if |d| < 2 then 2 else |d|)
    ensures |r| >= 6 && r[|y|] == '-' && r[..|y|] == y
    ensures r[|y| + 1..] == ZFill(m, 2) + "-" + ZFill(d, 2)
  {
    var r := y + "-" + ZFill(m, 2) + "-" + ZFill(d, 2);
    assert r[..|y|] == y && r[|y| + 1..] == ZFill(m, 2) + "-" + ZFill(d, 2);
    r
  }

  /** Strings of the form `YYYY-MM-DD`. */
  predicate IsIsoDate(s: string) {
    |s| == 10 && s[4] == '-' && s[7] == '-' &&
    IsDigits(s[..4]) && IsDigits(s[5..7]) && IsDigits(s[8..])
  }

  function YearOf(s: string): nat requires IsIsoDate(s) { Value(s[..4]) }
  function MonthOf(s: string): nat requires IsIsoDate(s) { Value(s[5..7]) }
  function DayOf(s: string): nat requires IsIsoDate(s) { Value(s[8..]) }

  /** A four-digit year and one- or two-digit month and day give an ISO date
      that denotes the same year, month and day. */
  lemma IsoDateShape(year: string, month: string, day: string)
    requires IsDigits(Strip(year)) && |Strip(year)| == 4
    requires IsDigits(Strip(month)) && 1 <= |Strip(month)| <= 2
    requires IsDigits(Strip(day)) && 1 <= |Strip(day)| <= 2
    ensures IsIsoDate(DateString(year, month, day))
    ensures YearOf(DateString(year, month, day)) == Value(Strip(year))
    ensures MonthOf(DateString(year, month, day)) == Value(Strip(month))
    ensures DayOf(DateString(year, month, day)) == Value(Strip(day))
  {
    IsoJoin(Strip(year), Strip(month), Strip(day));
  }

  lemma IsoJoin(y: string, m: string, d: string)
    requires IsDigits(y) && |y| == 4
    requires IsDigits(m) && 1 <= |m| <= 2
    requires IsDigits(d) && 1 <= |d| <= 2
    ensures IsIsoDate(JoinDate(y, m, d))
    ensures YearOf(JoinDate(y, m, d)) == Value(y)
    ensures MonthOf(JoinDate(y, m, d)) == Value(m)
    ensures DayOf(JoinDate(y, m, d)) == Value(d)
  {
    ZFillKeepsValue(m, 2);
    ZFillKeepsValue(d, 2);
    IsoParts(y, ZFill(m, 2), ZFill(d, 2));
  }

  /** Four, two and two digits joined by `-` form an ISO date whose parts
      are the three pieces. */
  lemma IsoParts(y: string, m2: string, d2: string)
    requires IsDigits(y) && IsDigits(m2) && IsDigits(d2)
    requires |y| == 4 && |m2| == 2 && |d2| == 2
    ensures var r := y + "-" + m2 + "-" + d2;
      IsIsoDate(r) && r[..4] == y && r[5..7] == m2 && r[8..] == d2
  {
    var r := y + "-" + m2 + "-" + d2;
    assert r[..4] == y && r[5..7] == m2 && r[8..] == d2;
  }

  /** Earlier-or-later between two ISO dates, by the numbers they denote. */
  predicate ChronoLess(a: string, b: string)
    requires IsIsoDate(a) && IsIsoDate(b)
  {
    || YearOf(a) < YearOf(b)
    || (YearOf(a) == YearOf(b) && MonthOf(a) < MonthOf(b))
    || (YearOf(a) == YearOf(b) && MonthOf(a) == MonthOf(b) && DayOf(a) < DayOf(b))
  }

  /** For ISO dates the string order used by the sort is chronological order. */
  lemma IsoDateOrderIsChronological(a: string, b: string)
    requires IsIsoDate(a) && IsIsoDate(b)
    ensures Less(a, b) <==> ChronoLess(a, b)
  {
    LessSplit(a, b, 4);
    DateTail(a, b);
    LessDigits(a[..4], b[..4]);
    LessDigits(a[5..7], b[5..7]);
    LessDigits(a[8..], b[8..]);
    DigitsEqual(a[..4], b[..4]);
    DigitsEqual(a[5..7], b[5..7]);
    DigitsEqual(a[8..], b[8..]);
  }

  /** Past the year, two ISO dates compare by month and then by day. */
  lemma DateTail(a: string, b: string)
    requires IsIsoDate(a) && IsIsoDate(b)
    ensures Less(a[4..], b[4..]) ==
      if a[5..7] == b[5..7] then Less(a[8..], b[8..]) else Less(a[5..7], b[5..7])
  {
    var s, t := a[4..], b[4..];
    LessSplit(s, t, 1);
    assert s[..1] == t[..1] == "-";
    var s1, t1 := s[1..], t[1..];
    assert s1 == a[5..] && t1 == b[5..];
    LessSplit(s1, t1, 2);
    assert s1[..2] == a[5..7] && t1[..2] == b[5..7];
    var s2, t2 := s1[2..], t1[2..];
    LessSplit(s2, t2, 1);
    assert s2[..1] == t2[..1] == "-";
    assert s2[1..] == a[8..] && t2[1..] == b[8..];
  }

  /** `LessConcat` for a split point inside both strings. */
  lemma LessSplit(a: string, b: string, n: nat)
    requires n <= |a| && n <= |b|
    ensures Less(a, b) == if a[..n] == b[..n] then Less(a[n..], b[n..]) else Less(a[..n], b[..n])
  {
    assert a == a[..n] + a[n..] && b == b[..n] + b[n..];
    LessConcat(a[..n], a[n..], b[..n], b[n..]);
  }

  lemma DigitsEqual(a: string, b: string)
    requires IsDigits(a) && IsDigits(b) && |a| == |b|
    ensures a == b <==> Value(a) == Value(b)
  {
    LessTotal(a, b);
    LessDigits(a, b);
    LessDigits(b, a);
  }

  /** The year is not padded: year 1000 compares below year 999, so in the
      descending reading order it is placed after it. */
  lemma UnpaddedYearMisorders()
    ensures Less(DateString("1000", "1", "1"), DateString("999", "1", "1"))
  {
    FirstDigitDecides("1000", "999");
  }

  /** Dates whose unpadded years differ in the first digit compare by that
      digit alone, whatever the years' lengths. */
  lemma FirstDigitDecides(y1: string, y2: string)
    requires |y1| > 0 && IsDigits(y1) && |y2| > 0 && IsDigits(y2) && y1[0] < y2[0]
    ensures Less(DateString(y1, "1", "1"), DateString(y2, "1", "1"))
  {
    UnpaddedDate(y1);
    UnpaddedDate(y2);
    assert (y1 + "-01-01")[0] == y1[0] && (y2 + "-01-01")[0] == y2[0];
  }

  /** The date string of the first of January of a year written in digits. */
  lemma UnpaddedDate(year: string)
    requires |year| > 0 && IsDigits(year)
    ensures DateString(year, "1", "1") == year + "-01-01"
  {
    StripDigits(year);
    StripDigits("1");
    JoinOnes(year);
  }

  lemma JoinOnes(y: string)
    ensures JoinDate(y, "1", "1") == y + "-01-01"
  {
    ZFillOne();
    assert y + "-" + "01" + "-" + "01" == y + "-01-01";
  }

  lemma ZFillOne()
    ensures ZFill("1", 2) == "01"
  {
    var r := ZFill("1", 2);
    assert r[..1] == Zeros(1) && r[1..] == "1";
    assert r[0] == '0' && r[1] == '1';
  }

  lemma StripDigits(s: string)
    requires |s| > 0 && IsDigits(s)
    ensures Strip(s) == s
  {
    assert IsDigit(s[0]) && IsDigit(s[|s| - 1]);
  }

  // ---------------------------------------------------------------------
  // Per-row readings
  // ---------------------------------------------------------------------

  /** A reading waiting to become a node: its well, category, date and
      property dict. */
  datatype Entry = Entry(wellKey: string, etype: EmissionType, date: string, props: Dict)

  /** `row_data[i].strip() if len(row_data) > i else None`. */
  function Cell(cells: seq<string>, i: nat): (r: Option<string>)
    ensures r.Some? <==> i < |cells|
    ensures r.Some? ==> r.value == Strip(cells[i])
  {
    if |cells| > i then Some(Strip(cells[i])) else None
  }

  /** A cell that is present and non-empty (Python truthiness). */
  predicate NonEmpty(s: Option<string>) {
    s.Some? && s.value != ""
  }

  /** On a kept row (at least 21 cells) the four cells of every category
      are present, so the length guards of the lookups always pass: the
      units are the stripped cells, and a value is the parse of its
      stripped cell unless that is empty. */
  lemma KeptRowCells(env: Env, t: EmissionType, row: Row)
    requires Long(row.cells)
    ensures var c := ColumnsOf(t);
      && VolumeUnit(t, row) == Some(Strip(row.cells[c.volumeUnit]))
      && MassUnit(t, row) == Some(Strip(row.cells[c.massUnit]))
      && Volume(env, t, row) == (if Strip(row.cells[c.volume]) == "" then None else env.parse(Strip(row.cells[c.volume])))
      && Mass(env, t, row) == (if Strip(row.cells[c.mass]) == "" then None else env.parse(Strip(row.cells[c.mass])))
  {
    var c := ColumnsOf(t);
    ColumnsInRange(t);
    PresentCell(env, row.cells, c.volume);
    PresentCell(env, row.cells, c.volumeUnit);
    PresentCell(env, row.cells, c.mass);
    PresentCell(env, row.cells, c.massUnit);
  }

  lemma PresentCell(env: Env, cells: seq<string>, i: nat)
    requires i < |cells|
    ensures Cell(cells, i) == Some(Strip(cells[i]))
    ensures Number(env, Cell(cells, i)) == if Strip(cells[i]) == "" then None else env.parse(Strip(cells[i]))
  {
  }

  /** The number in a cell: absent for a missing or empty cell and for text
      `float()` rejects. */
  function Number(env: Env, s: Option<string>): (r: Option<real>)
    ensures r.Some? ==> NonEmpty(s) && env.parse(s.value) == r
    ensures NonEmpty(s) ==> r == env.parse(s.value)
  {
    if NonEmpty(s) then env.parse(s.value) else None
  }

  /** The metadata record attached to a value that has a unit. */
  function UnitMetadata(env: Env, unit: string): Json {
    Obj(map[
      "custom_metadata" := Obj(map["units" := Str(unit)]),
      "source" := Str(env.sourceName),
      "assurance_level" := Num(AssuranceLevel),
      "verified_time" := Str(env.now + "Z")])
  }

  function Volume(env: Env, t: EmissionType, row: Row): Option<real> {
    Number(env, Cell(row.cells, ColumnsOf(t).volume))
  }

  function VolumeUnit(t: EmissionType, row: Row): Option<string> {
    Cell(row.cells, ColumnsOf(t).volumeUnit)
  }

  function Mass(env: Env, t: EmissionType, row: Row): Option<real> {
    Number(env, Cell(row.cells, ColumnsOf(t).mass))
  }

  function MassUnit(t: EmissionType, row: Row): Option<string> {
    Cell(row.cells, ColumnsOf(t).massUnit)
  }

  /** One measured value and, when its unit is non-empty, its metadata
      placeholder. */
  function Measure(env: Env, name: string, value: Option<real>, unit: Option<string>): Dict {
    if value.None? then []
    else [(name, Num(value.value))] + (if NonEmpty(unit) then [(MetadataKey(name), UnitMetadata(env, unit.value))] else [])
  }

  /** The property dict of a reading, in insertion order. */
  function ReadingDict(env: Env, date: string, volume: Option<real>, volumeUnit: Option<string>,
                       mass: Option<real>, massUnit: Option<string>): Dict {
    [("date", Str(date))] + Measure(env, "volume", volume, volumeUnit) + Measure(env, "mass", mass, massUnit)
  }

  /** The entry one category of one row yields, given the row's date
      string: present exactly when the volume or the mass parses, for the
      given well and category. */
  function EntryFor(env: Env, wellKey: string, t: EmissionType, date: string, row: Row): (r: Option<Entry>)
    ensures r.Some? <==> Volume(env, t, row).Some? || Mass(env, t, row).Some?
    ensures r.Some? ==> r.value.wellKey == wellKey && r.value.etype == t && r.value.date == date
  {
    var volume, mass := Volume(env, t, row), Mass(env, t, row);
    if volume.Some? || mass.Some? then
      Some(Entry(wellKey, t, date, ReadingDict(env, date, volume, VolumeUnit(t, row), mass, MassUnit(t, row))))
    else None
  }

  /** An entry carries its date first, a volume or mass key exactly when
      that value parses, and a metadata placeholder exactly when the value
      parses and its unit cell is non-empty. Under those keys it stores the
      parsed numbers and the units' metadata records. */
  lemma EntryForDict(env: Env, wellKey: string, t: EmissionType, date: string, row: Row)
    requires EntryFor(env, wellKey, t, date, row).Some?
    ensures var e := EntryFor(env, wellKey, t, date, row).value;
      && |e.props| > 0 && e.props[0] == ("date", Str(date))
      && ("volume" in Keys(e.props) <==> Volume(env, t, row).Some?)
      && ("mass" in Keys(e.props) <==> Mass(env, t, row).Some?)
      && ("_volume_metadata" in Keys(e.props) <==> Volume(env, t, row).Some? && NonEmpty(VolumeUnit(t, row)))
      && ("_mass_metadata" in Keys(e.props) <==> Mass(env, t, row).Some? && NonEmpty(MassUnit(t, row)))
    ensures var e := EntryFor(env, wellKey, t, date, row).value;
      var volume, mass := Volume(env, t, row), Mass(env, t, row);
      && Get(e.props, "volume") == (if volume.Some? then Some(Num(volume.value)) else None)
      && Get(e.props, "mass") == (if mass.Some? then Some(Num(mass.value)) else None)
      && Get(e.props, "_volume_metadata") == (if volume.Some? then UnitMeta(env, VolumeUnit(t, row)) else None)
      && Get(e.props, "_mass_metadata") == (if mass.Some? then UnitMeta(env, MassUnit(t, row)) else None)
  {
    ReadingDictKeys(env, date, Volume(env, t, row), VolumeUnit(t, row), Mass(env, t, row), MassUnit(t, row));
    ReadingDictValues(env, date, Volume(env, t, row), VolumeUnit(t, row), Mass(env, t, row), MassUnit(t, row));
  }

  /** The property array posted on an entry's reading node: the date, the
      parsed volume and the parsed mass, each with its unit's metadata
      record when the unit cell is non-empty. */
  lemma EntryForArray(env: Env, wellKey: string, t: EmissionType, date: string, row: Row)
    requires EntryFor(env, wellKey, t, date, row).Some?
    ensures ToArray(EntryFor(env, wellKey, t, date, row).value.props) ==
      DateProps(date)
      + MeasuredProps(env, "volume", Volume(env, t, row), VolumeUnit(t, row))
      + MeasuredProps(env, "mass", Mass(env, t, row), MassUnit(t, row))
  {
    ReadingArray(env, date, Volume(env, t, row), VolumeUnit(t, row), Mass(env, t, row), MassUnit(t, row));
  }

  lemma {:induction false} KeysAppend(a: Dict, b: Dict)
    ensures Keys(a + b) == Keys(a) + Keys(b)
  {
    var l, r := Keys(a + b), Keys(a) + Keys(b);
    assert |l| == |r|;
    forall i | 0 <= i < |l| ensures l[i] == r[i] {
      if i < |a| {
        assert (a + b)[i] == a[i];
      } else {
        assert (a + b)[i] == b[i - |a|];
      }
    }
  }

  /** The keys a measured value contributes. */
  lemma MeasureKeys(env: Env, name: string, value: Option<real>, unit: Option<string>)
    ensures name in Keys(Measure(env, name, value, unit)) <==> value.Some?
    ensures MetadataKey(name) in Keys(Measure(env, name, value, unit)) <==> value.Some? && NonEmpty(unit)
    ensures forall k | k in Keys(Measure(env, name, value, unit)) :: k == name || k == MetadataKey(name)
  {
    var m := Measure(env, name, value, unit);
    if value.Some? {
      if NonEmpty(unit) {
        assert Keys(m) == [name, MetadataKey(name)];
      } else {
        assert Keys(m) == [name];
      }
    } else {
      assert Keys(m) == [];
    }
    assert name != MetadataKey(name);
  }

  /** Which keys a reading dict holds. */
  lemma ReadingDictKeys(env: Env, date: string, volume: Option<real>, volumeUnit: Option<string>,
                        mass: Option<real>, massUnit: Option<string>)
    ensures var d := ReadingDict(env, date, volume, volumeUnit, mass, massUnit);
      && |d| > 0 && d[0] == ("date", Str(date))
      && ("volume" in Keys(d) <==> volume.Some?)
      && ("mass" in Keys(d) <==> mass.Some?)
      && ("_volume_metadata" in Keys(d) <==> volume.Some? && NonEmpty(volumeUnit))
      && ("_mass_metadata" in Keys(d) <==> mass.Some? && NonEmpty(massUnit))
  {
    KeyNamesDistinct();
    MetadataKeyLiterals();
    TwoMeasureKeys(env, ("date", Str(date)), "volume", volume, volumeUnit, "mass", mass, massUnit);
  }

  /** The metadata record a measured value carries: present exactly when
      its unit cell is non-empty. */
  function UnitMeta(env: Env, unit: Option<string>): (r: Option<Json>)
    ensures r.Some? <==> NonEmpty(unit)
  {
    if NonEmpty(unit) then Some(UnitMetadata(env, unit.value)) else None
  }

  /** The record names the unit under `custom_metadata`, the input file as
      its source, assurance level 3 and the run's timestamp with a `Z`. */
  lemma UnitMetadataRecord(env: Env, unit: string)
    ensures var m := UnitMetadata(env, unit);
      && m.Obj? && m.fields.Keys == {"custom_metadata", "source", "assurance_level", "verified_time"}
      && m.fields["custom_metadata"] == Obj(map["units" := Str(unit)])
      && m.fields["source"] == Str(env.sourceName)
      && m.fields["assurance_level"] == Num(3.0)
      && m.fields["verified_time"] == Str(env.now + "Z")
  {
  }

  /** What a measured value stores: its number under its own name and,
      when the unit is non-empty, the unit's record under its placeholder. */
  lemma MeasureValues(env: Env, name: string, value: Option<real>, unit: Option<string>)
    ensures Get(Measure(env, name, value, unit), name) == if value.Some? then Some(Num(value.value)) else None
    ensures Get(Measure(env, name, value, unit), MetadataKey(name)) == if value.Some? then UnitMeta(env, unit) else None
  {
    MetadataKeyLength(name);
    MeasureKeys(env, name, value, unit);
  }

  /** A lookup in `[first] + m1 + m2`. */
  lemma GetThree(first: (string, Json), m1: Dict, m2: Dict, key: string)
    ensures Get([first] + m1 + m2, key) ==
      if key == first.0 then Some(first.1) else if key in Keys(m1) then Get(m1, key) else Get(m2, key)
  {
    GetAppend([first] + m1, m2, key);
    GetAppend([first], m1, key);
    KeysAppend([first], m1);
    assert Keys([first]) == [first.0];
  }

  /** A key the measured value `name` does not contribute is absent from
      its part of the dict. */
  lemma MeasureLacks(env: Env, name: string, value: Option<real>, unit: Option<string>, key: string)
    requires key != name && key != MetadataKey(name)
    ensures Get(Measure(env, name, value, unit), key) == None
  {
    MeasureKeys(env, name, value, unit);
  }

  /** The values a reading dict holds: the date, each parsed number under
      its name, and the unit record under the placeholder of each parsed
      value whose unit is non-empty. Nothing sits under `_date_metadata`. */
  lemma ReadingDictValues(env: Env, date: string, volume: Option<real>, volumeUnit: Option<string>,
                          mass: Option<real>, massUnit: Option<string>)
    ensures var d := ReadingDict(env, date, volume, volumeUnit, mass, massUnit);
      && Get(d, "date") == Some(Str(date))
      && Get(d, "volume") == (if volume.Some? then Some(Num(volume.value)) else None)
      && Get(d, "mass") == (if mass.Some? then Some(Num(mass.value)) else None)
      && Get(d, "_volume_metadata") == (if volume.Some? then UnitMeta(env, volumeUnit) else None)
      && Get(d, "_mass_metadata") == (if mass.Some? then UnitMeta(env, massUnit) else None)
      && Get(d, "_date_metadata") == None
  {
    var first := ("date", Str(date));
    var m1, m2 := Measure(env, "volume", volume, volumeUnit), Measure(env, "mass", mass, massUnit);
    KeyNamesDistinct();
    MetadataKeyLiterals();
    MeasureKeys(env, "volume", volume, volumeUnit);
    MeasureKeys(env, "mass", mass, massUnit);
    MeasureValues(env, "volume", volume, volumeUnit);
    MeasureValues(env, "mass", mass, massUnit);
    GetThree(first, m1, m2, "date");
    GetThree(first, m1, m2, "volume");
    MeasureLacks(env, "mass", mass, massUnit, "volume");
    GetThree(first, m1, m2, "mass");
    GetThree(first, m1, m2, "_volume_metadata");
    MeasureLacks(env, "mass", mass, massUnit, "_volume_metadata");
    GetThree(first, m1, m2, "_mass_metadata");
    GetThree(first, m1, m2, "_date_metadata");
    MeasureLacks(env, "volume", volume, volumeUnit, "_date_metadata");
    MeasureLacks(env, "mass", mass, massUnit, "_date_metadata");
  }

  /** The property array entry of the date: none for an empty date, which
      `convert_properties_to_array` drops. */
  function DateProps(date: string): seq<Prop> {
    if date == "" then [] else [Prop("date", Str(date), None)]
  }

  /** The property array entry of a measured value: its number, with its
      unit record as metadata when the unit is non-empty. */
  function MeasuredProps(env: Env, name: string, value: Option<real>, unit: Option<string>): seq<Prop> {
    if value.None? then [] else [Prop(name, Num(value.value), UnitMeta(env, unit))]
  }

  /** Converting one measured value's part of the dict, looking metadata
      up in `all`. */
  lemma ConvertMeasure(all: Dict, env: Env, name: string, value: Option<real>, unit: Option<string>)
    requires !IsMetadataKey(name)
    ensures Convert(all, Measure(env, name, value, unit)) ==
      if value.Some? then [Prop(name, Num(value.value), Get(all, MetadataKey(name)))] else []
  {
    if value.Some? {
      var head := (name, Num(value.value));
      var rest: Dict := if NonEmpty(unit) then [(MetadataKey(name), UnitMetadata(env, unit.value))] else [];
      assert Measure(env, name, value, unit) == [head] + rest;
      ConvertKept(all, head, rest);
      if NonEmpty(unit) {
        ConvertDropped(all, rest[0], []);
        assert rest == [rest[0]] + [];
      }
    }
  }

  /** A kept dict entry becomes the first array entry. */
  lemma ConvertKept(all: Dict, x: (string, Json), rest: Dict)
    requires Kept(x)
    ensures Convert(all, [x] + rest) == [Prop(x.0, x.1, Get(all, MetadataKey(x.0)))] + Convert(all, rest)
  {
    assert ([x] + rest)[1..] == rest;
  }

  /** A dropped dict entry leaves no array entry. */
  lemma ConvertDropped(all: Dict, x: (string, Json), rest: Dict)
    requires !Kept(x)
    ensures Convert(all, [x] + rest) == Convert(all, rest)
  {
    assert ([x] + rest)[1..] == rest;
  }

  /** The property array of a reading dict, as posted on the reading node:
      the date, then the volume, then the mass, each number with its unit
      record as metadata when the unit is non-empty; no placeholder is
      posted as a property of its own. */
  lemma ReadingArray(env: Env, date: string, volume: Option<real>, volumeUnit: Option<string>,
                     mass: Option<real>, massUnit: Option<string>)
    ensures ToArray(ReadingDict(env, date, volume, volumeUnit, mass, massUnit)) ==
      DateProps(date) + MeasuredProps(env, "volume", volume, volumeUnit) + MeasuredProps(env, "mass", mass, massUnit)
  {
    var d := ReadingDict(env, date, volume, volumeUnit, mass, massUnit);
    var first := ("date", Str(date));
    var m1, m2 := Measure(env, "volume", volume, volumeUnit), Measure(env, "mass", mass, massUnit);
    assert d == [first] + m1 + m2;
    ConvertThree(d, first, m1, m2);
    assert ToArray(d) == Convert(d, [first]) + Convert(d, m1) + Convert(d, m2);
    ReadingDictValues(env, date, volume, volumeUnit, mass, massUnit);
    NotPlaceholders();
    MetadataKeyLiterals();
    ConvertDate(d, date);
    assert Convert(d, [first]) == DateProps(date);
    ConvertMeasure(d, env, "volume", volume, volumeUnit);
    assert Convert(d, m1) == MeasuredProps(env, "volume", volume, volumeUnit);
    ConvertMeasure(d, env, "mass", mass, massUnit);
    assert Convert(d, m2) == MeasuredProps(env, "mass", mass, massUnit);
  }

  lemma ConvertThree(all: Dict, first: (string, Json), m1: Dict, m2: Dict)
    ensures Convert(all, [first] + m1 + m2) == Convert(all, [first]) + Convert(all, m1) + Convert(all, m2)
  {
    ConvertAppend(all, [first] + m1, m2);
    ConvertAppend(all, [first], m1);
  }

  /** Converting the date's part of the dict, looking metadata up in `all`. */
  lemma ConvertDate(all: Dict, date: string)
    ensures Convert(all, [("date", Str(date))]) ==
      if date == "" then [] else [Prop("date", Str(date), Get(all, MetadataKey("date")))]
  {
    NotPlaceholders();
    assert [("date", Str(date))][1..] == [];
  }

  lemma NoLeadingUnderscore(s: string)
    requires |s| > 0 && s[0] != '_'
    ensures !IsMetadataKey(s)
  {
  }

  /** A reading of 100.0 with unit `bbl` and no mass is posted as a date
      and a volume whose metadata names `bbl`. */
  lemma BarrelReading(env: Env)
    ensures ToArray(ReadingDict(env, "2024-01-01", Some(100.0), Some("bbl"), None, None)) ==
      [Prop("date", Str("2024-01-01"), None), Prop("volume", Num(100.0), Some(UnitMetadata(env, "bbl")))]
  {
    ReadingArray(env, "2024-01-01", Some(100.0), Some("bbl"), None, None);
    assert DateProps("2024-01-01") == [Prop("date", Str("2024-01-01"), None)];
    assert UnitMeta(env, Some("bbl")) == Some(UnitMetadata(env, "bbl"));
    assert MeasuredProps(env, "mass", None, None) == [];
    var volume := Prop("volume", Num(100.0), Some(UnitMetadata(env, "bbl")));
    assert MeasuredProps(env, "volume", Some(100.0), Some("bbl")) == [volume];
    assert [Prop("date", Str("2024-01-01"), None)] + [volume] + [] == [Prop("date", Str("2024-01-01"), None), volume];
  }

  /** `date`, `volume` and `mass` are ordinary property names. */
  lemma NotPlaceholders()
    ensures !IsMetadataKey("date") && !IsMetadataKey("volume") && !IsMetadataKey("mass")
    ensures MetadataKey("date") == "_date_metadata"
  {
    NoLeadingUnderscore("date");
    NoLeadingUnderscore("volume");
    NoLeadingUnderscore("mass");
    assert "_" + "date" == "_date";
    assert "_date" + "_metadata" == "_date_metadata";
  }

  /** The five keys a reading dict can hold are pairwise distinct. */
  lemma KeyNamesDistinct()
    ensures "volume" != "date" && "mass" != "date" && "volume" != "mass"
    ensures MetadataKey("volume") != "date" && MetadataKey("volume") != "mass"
    ensures MetadataKey("mass") != "date" && MetadataKey("mass") != "volume"
    ensures MetadataKey("volume") != MetadataKey("mass")
  {
    MetadataKeyLength("volume");
    MetadataKeyLength("mass");
    assert "mass"[0] != "date"[0];
  }

  /** The two metadata keys a reading dict can hold. */
  lemma MetadataKeyLiterals()
    ensures MetadataKey("volume") == "_volume_metadata" && MetadataKey("mass") == "_mass_metadata"
  {
    assert "_" + "volume" == "_volume";
    assert "_volume" + "_metadata" == "_volume_metadata";
    assert "_" + "mass" == "_mass";
    assert "_mass" + "_metadata" == "_mass_metadata";
  }

  lemma MetadataKeyLength(name: string)
    ensures |MetadataKey(name)| == |name| + 10
  {
  }

  /** Membership in the keys of one leading entry followed by two measured
      values whose names and metadata keys are all distinct. */
  lemma TwoMeasureKeys(env: Env, first: (string, Json), n1: string, v1: Option<real>, u1: Option<string>,
                       n2: string, v2: Option<real>, u2: Option<string>)
    requires n1 != first.0 && n2 != first.0 && n1 != n2
    requires MetadataKey(n1) != first.0 && MetadataKey(n1) != n2
    requires MetadataKey(n2) != first.0 && MetadataKey(n2) != n1
    requires MetadataKey(n1) != MetadataKey(n2)
    ensures var ks := Keys([first] + Measure(env, n1, v1, u1) + Measure(env, n2, v2, u2));
      && (n1 in ks <==> v1.Some?)
      && (n2 in ks <==> v2.Some?)
      && (MetadataKey(n1) in ks <==> v1.Some? && NonEmpty(u1))
      && (MetadataKey(n2) in ks <==> v2.Some? && NonEmpty(u2))
  {
    var m1, m2 := Measure(env, n1, v1, u1), Measure(env, n2, v2, u2);
    KeysAppend([first], m1);
    KeysAppend([first] + m1, m2);
    assert Keys([first]) == [first.0];
    MeasureKeys(env, n1, v1, u1);
    MeasureKeys(env, n2, v2, u2);
    var k1, k2 := Keys(m1), Keys(m2);
    InMiddle(n1, first.0, k1, k2, n2, MetadataKey(n2));
    InMiddle(MetadataKey(n1), first.0, k1, k2, n2, MetadataKey(n2));
    InLast(n2, first.0, k1, k2, n1, MetadataKey(n1));
    InLast(MetadataKey(n2), first.0, k1, k2, n1, MetadataKey(n1));
  }

  lemma InMiddle(x: string, f: string, ka: seq<string>, kb: seq<string>, y1: string, y2: string)
    requires x != f && x != y1 && x != y2
    requires forall k | k in kb :: k == y1 || k == y2
    ensures x in [f] + ka + kb <==> x in ka
  {
  }

  lemma InLast(x: string, f: string, ka: seq<string>, kb: seq<string>, y1: string, y2: string)
    requires x != f && x != y1 && x != y2
    requires forall k | k in ka :: k == y1 || k == y2
    ensures x in [f] + ka + kb <==> x in kb
  {
  }

  /** Each row paired with its date string. */
  function Dated(rows: seq<Row>): (r: seq<(string, Row)>)
    ensures |r| == |rows|
    ensures forall i | 0 <= i < |r| :: r[i].1 == rows[i]
    ensures forall i | 0 <= i < |r| :: r[i].0 == DateString(rows[i].year, rows[i].month, rows[i].day)
  {
    seq(|rows|, i requires 0 <= i < |rows| => (DateString(rows[i].year, rows[i].month, rows[i].day), rows[i]))
  }

  /** What each dated row yields for this well and category, row by row. */
  function Candidates(env: Env, wellKey: string, t: EmissionType, rows: seq<(string, Row)>): (r: seq<Option<Entry>>)
    ensures |r| == |rows|
    ensures forall i | 0 <= i < |rows| :: r[i] == EntryFor(env, wellKey, t, rows[i].0, rows[i].1)
  {
    seq(|rows|, i requires 0 <= i < |rows| => EntryFor(env, wellKey, t, rows[i].0, rows[i].1))
  }

  /** Some dated row yields `e` for this well and category. */
  predicate YieldedBy(env: Env, wellKey: string, t: EmissionType, rows: seq<(string, Row)>, e: Entry) {
    exists i | 0 <= i < |rows| :: EntryFor(env, wellKey, t, rows[i].0, rows[i].1) == Some(e)
  }

  /** The entries one category yields over a well's dated rows, in row
      order: the inner loop appends an entry for every row that yields one. */
  function RowEntries(env: Env, wellKey: string, t: EmissionType, rows: seq<(string, Row)>): (r: seq<Entry>)
    ensures |r| == CountSome(Candidates(env, wellKey, t, rows)) <= |rows|
    ensures forall k | 0 <= k < |r| :: r[k].wellKey == wellKey && r[k].etype == t
  {
    var cs := Candidates(env, wellKey, t, rows);
    SomesSound(cs);
    assert forall x | x in Somes(cs) :: x.wellKey == wellKey && x.etype == t;
    Somes(cs)
  }

  /** Order and completeness: when row `i` yields an entry, it sits right
      after the entries of the rows before it. */
  lemma RowEntriesAt(env: Env, wellKey: string, t: EmissionType, rows: seq<(string, Row)>, i: nat)
    requires i < |rows| && EntryFor(env, wellKey, t, rows[i].0, rows[i].1).Some?
    ensures var before := CountSome(Candidates(env, wellKey, t, rows)[..i]);
      && before < |RowEntries(env, wellKey, t, rows)|
      && RowEntries(env, wellKey, t, rows)[before] == EntryFor(env, wellKey, t, rows[i].0, rows[i].1).value
  {
    SomesAt(Candidates(env, wellKey, t, rows), i);
  }

  /** An entry is among a category's entries exactly when some row yields
      it, that is, when that row's volume or mass parses. */
  lemma RowEntriesExactly(env: Env, wellKey: string, t: EmissionType, rows: seq<(string, Row)>, e: Entry)
    ensures e in RowEntries(env, wellKey, t, rows) <==> YieldedBy(env, wellKey, t, rows, e)
  {
    var cs := Candidates(env, wellKey, t, rows);
    SomesExactly(cs, e);
    if Some(e) in cs {
      var i :| 0 <= i < |cs| && cs[i] == Some(e);
      assert EntryFor(env, wellKey, t, rows[i].0, rows[i].1) == Some(e);
    }
  }

  /** The entries of each category in `types`, one list per category. */
  function PerType(env: Env, wellKey: string, types: seq<EmissionType>, rows: seq<(string, Row)>): seq<seq<Entry>> {
    seq(|types|, j requires 0 <= j < |types| => RowEntries(env, wellKey, types[j], rows))
  }

  /** The entries of one well for the categories `types`, category by
      category, each over the well's rows in order. */
  function TypesEntries(env: Env, wellKey: string, types: seq<EmissionType>, rows: seq<(string, Row)>): (r: seq<Entry>)
    ensures forall k | 0 <= k < |r| :: r[k].wellKey == wellKey && r[k].etype in types
  {
    if |types| == 0 then []
    else
      var first := RowEntries(env, wellKey, types[0], rows);
      var rest := TypesEntries(env, wellKey, types[1..], rows);
      assert forall k | 0 <= k < |rest| :: rest[k].etype in types;
      first + rest
  }

  /** A well's entries are its categories' entries, category after
      category. */
  lemma {:induction false} TypesEntriesFlatten(env: Env, wellKey: string, types: seq<EmissionType>, rows: seq<(string, Row)>)
    ensures TypesEntries(env, wellKey, types, rows) == Flatten(PerType(env, wellKey, types, rows))
  {
    if |types| > 0 {
      TypesEntriesFlatten(env, wellKey, types[1..], rows);
      assert PerType(env, wellKey, types, rows)[1..] == PerType(env, wellKey, types[1..], rows);
    }
  }

  /** The entries of one well, categories in the fixed order. */
  function WellEntries(env: Env, g: Group): (r: seq<Entry>)
    ensures forall k | 0 <= k < |r| :: r[k].wellKey == g.key
  {
    TypesEntries(env, g.key, AllTypes, Dated(g.rows))
  }

  /** The entries of each well, one list per well. */
  function PerWell(env: Env, gs: seq<Group>): seq<seq<Entry>> {
    seq(|gs|, k requires 0 <= k < |gs| => WellEntries(env, gs[k]))
  }

  /** `date_entries` before sorting: the wells' entries, well after well. */
  function CollectEntries(env: Env, gs: seq<Group>): (r: seq<Entry>)
    ensures forall k | 0 <= k < |r| :: r[k].wellKey in GroupKeys(gs)
  {
    var r := Flatten(PerWell(env, gs));
    CollectedFrom(env, gs);
    r
  }

  /** Each collected entry belongs to one of the wells. */
  lemma CollectedFrom(env: Env, gs: seq<Group>)
    ensures forall k | 0 <= k < |Flatten(PerWell(env, gs))| :: Flatten(PerWell(env, gs))[k].wellKey in GroupKeys(gs)
  {
    var r, ks := Flatten(PerWell(env, gs)), GroupKeys(gs);
    forall k | 0 <= k < |r| ensures r[k].wellKey in ks {
      FlattenMember(PerWell(env, gs), r[k]);
      var j :| 0 <= j < |gs| && r[k] in PerWell(env, gs)[j];
      assert ks[j] == gs[j].key;
    }
  }

  /** One of the well's rows yields `e` for some category. */
  predicate WellYields(env: Env, g: Group, e: Entry) {
    exists t: EmissionType :: YieldedBy(env, g.key, t, Dated(g.rows), e)
  }

  /** An entry belongs to a well's entries exactly when one of the well's
      rows yields it for some category. */
  lemma WellEntriesExactly(env: Env, g: Group, e: Entry)
    ensures e in WellEntries(env, g) <==> WellYields(env, g, e)
  {
    var rows := Dated(g.rows);
    var per := PerType(env, g.key, AllTypes, rows);
    TypesEntriesFlatten(env, g.key, AllTypes, rows);
    FlattenMember(per, e);
    if e in WellEntries(env, g) {
      var j :| 0 <= j < |per| && e in per[j];
      RowEntriesExactly(env, g.key, AllTypes[j], rows, e);
    }
    if exists t: EmissionType :: YieldedBy(env, g.key, t, rows, e) {
      var t: EmissionType :| YieldedBy(env, g.key, t, rows, e);
      AllTypesEnumerates(t);
      RowEntriesExactly(env, g.key, t, rows, e);
      assert e in per[t.Index()];
    }
  }

  /** The readings that reach the graph: an entry is collected exactly when
      some row of some grouped well yields it for some category, which
      happens exactly when that row's volume or mass for the category
      parses. */
  lemma CollectedExactly(env: Env, gs: seq<Group>, e: Entry)
    ensures e in CollectEntries(env, gs) <==> exists k | 0 <= k < |gs| :: WellYields(env, gs[k], e)
  {
    var per := PerWell(env, gs);
    assert CollectEntries(env, gs) == Flatten(per);
    FlattenMember(per, e);
    if e in CollectEntries(env, gs) {
      var k :| 0 <= k < |per| && e in per[k];
      WellEntriesExactly(env, gs[k], e);
    }
    if exists k | 0 <= k < |gs| :: WellYields(env, gs[k], e) {
      var k :| 0 <= k < |gs| && WellYields(env, gs[k], e);
      WellEntriesExactly(env, gs[k], e);
      assert per[k] == WellEntries(env, gs[k]);
    }
  }
}
