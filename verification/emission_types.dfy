/** The four fixed emission categories and the static CSV column table that
    says where each category's volume, mass and their units sit in a row. */
module EmissionTypes {
  import opened Wrappers

  /** The categories, declared in the order the loader iterates them. */
  datatype EmissionType = Flaring | ColdVentilation | DieselFuel | FuelGas {

    /** The category's name as it appears in node types and identity inputs. */
    function Name(): string {
      match this
      case Flaring => "Flaring"
      case ColdVentilation => "ColdVentilation"
      case DieselFuel => "DieselFuel"
      case FuelGas => "FuelGas"
    }

    /** Position in the iteration order. */
    function Index(): nat {
      match this
      case Flaring => 0
      case ColdVentilation => 1
      case DieselFuel => 2
      case FuelGas => 3
    }
  }

  /** The iteration order of the categories. */
  const AllTypes: seq<EmissionType> := [Flaring, ColdVentilation, DieselFuel, FuelGas]

  /** Column indices (0-based) of one category's four fields. */
  datatype Columns = Columns(volume: nat, volumeUnit: nat, mass: nat, massUnit: nat)

  /** The column table: each category owns four consecutive columns, in the
      order volume, volume unit, mass, mass unit, the first category starting
      at column 5. */
  function ColumnsOf(t: EmissionType): (c: Columns)
    ensures c.volume == 5 + 4 * t.Index()
    ensures c.volumeUnit == c.volume + 1 && c.mass == c.volume + 2 && c.massUnit == c.volume + 3
  {
    match t
    case Flaring => Columns(5, 6, 7, 8)
    case ColdVentilation => Columns(9, 10, 11, 12)
    case DieselFuel => Columns(13, 14, 15, 16)
    case FuelGas => Columns(17, 18, 19, 20)
  }

  /** The category a name denotes, if any. */
  function TypeNamed(name: string): (r: Option<EmissionType>)
    ensures r.Some? ==> r.value.Name() == name
    ensures forall t: EmissionType :: t.Name() == name ==> r == Some(t)
  {
    if name == Flaring.Name() then Some(Flaring)
    else if name == ColdVentilation.Name() then Some(ColdVentilation)
    else if name == DieselFuel.Name() then Some(DieselFuel)
    else if name == FuelGas.Name() then Some(FuelGas)
    else None
  }

  /** The table looked up by category name; an unknown name has no columns
      (the source's empty mapping). */
  function ColumnsFor(name: string): (r: Option<Columns>)
    ensures forall t: EmissionType :: t.Name() == name ==> r == Some(ColumnsOf(t))
    ensures r.Some? ==> exists t: EmissionType :: t.Name() == name
  {
    match TypeNamed(name)
    case Some(t) => Some(ColumnsOf(t))
    case None => None
  }

  /** Distinct categories have distinct names. */
  lemma NameInjective(t1: EmissionType, t2: EmissionType)
    ensures t1.Name() == t2.Name() ==> t1 == t2
  {
  }

  /** No category name contains an underscore. */
  lemma NameHasNoUnderscore(t: EmissionType)
    ensures '_' !in t.Name()
  {
  }

  /** The iteration order lists every category exactly once. */
  lemma AllTypesEnumerates(t: EmissionType)
    ensures |AllTypes| == 4 && AllTypes[t.Index()] == t
    ensures forall i | 0 <= i < |AllTypes| :: AllTypes[i].Index() == i
  {
  }

  /** Every column the table names lies in 5..20, so it exists in any row
      of at least 21 columns. */
  lemma ColumnsInRange(t: EmissionType)
    ensures 5 <= ColumnsOf(t).volume && ColumnsOf(t).massUnit <= 20
    ensures ColumnsOf(t).volumeUnit < 21 && ColumnsOf(t).mass < 21
  {
  }

  /** The table partitions columns 5..20: each such column belongs to
      exactly one category. */
  lemma ColumnsPartition(col: int)
    requires 5 <= col <= 20
    ensures exists t: EmissionType :: ColumnsOf(t).volume <= col <= ColumnsOf(t).massUnit
    ensures forall t1: EmissionType, t2: EmissionType ::
      (ColumnsOf(t1).volume <= col <= ColumnsOf(t1).massUnit &&
       ColumnsOf(t2).volume <= col <= ColumnsOf(t2).massUnit) ==> t1 == t2
  {
    var i := (col - 5) / 4;
    var t := AllTypes[i];
    assert ColumnsOf(t).volume <= col <= ColumnsOf(t).massUnit;
  }
}
