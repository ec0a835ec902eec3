/**
 * The Breeze query DataType registry: every DataType instance registers itself
 * by name (and, when it has one, by CLR type) in two static dictionaries, and
 * CoerceData converts a query value to a data type's CLR type.
 *
 * The static part of the C# class (the two dictionaries) is the object
 * DataTypeTable; the fourteen predefined static instances are the fields of
 * StandardDataTypes.
 */
module BreezeQueryDataType {

  import opened Wrappers
  import opened ClrTypes

  /** The message of the KeyNotFoundException a dictionary indexer throws for a missing key. */
  function KeyNotFound(key: string): string
  {
    "The given key '" + key + "' was not present in the dictionary."
  }

  /** The two static dictionaries _nameMap and _typeMap. */
  class DataTypeTable {
    var nameMap: map<string, DataType>
    var typeMap: map<ClrType, DataType>

    constructor ()
      ensures nameMap == map[] && typeMap == map[]
    {
      nameMap := map[];
      typeMap := map[];
    }

    /** FromName: the instance registered last under `name`; the indexer throws for an unknown name. */
    function FromName(name: string): (r: Result<DataType>)
      reads this
      ensures r.Success? <==> name in nameMap
      ensures r.Success? ==> r.value == nameMap[name]
      ensures r.Failure? ==> r.error == KeyNotFound(name)
    {
      if name in nameMap then Success(nameMap[name]) else Failure(KeyNotFound(name))
    }

    /** FromType: strips Nullable<T> and looks the remaining type up. */
    function FromType(t: ClrType): (r: Result<DataType>)
      reads this
      ensures r.Success? <==> NonNullable(t) in typeMap
      ensures r.Success? ==> r.value == typeMap[NonNullable(t)]
      ensures r.Failure? ==> r.error == KeyNotFound(TypeName(NonNullable(t)))
    {
      var nnType := NonNullable(t);
      if nnType in typeMap then Success(typeMap[nnType]) else Failure(KeyNotFound(TypeName(nnType)))
    }
  }

  class DataType {
    const name: string
    const underlyingType: Option<ClrType>

    /** DataType(name): registers under its name only, overwriting an earlier entry. */
    constructor Untyped(table: DataTypeTable, name: string)
      modifies table
      ensures GetName() == name && GetUnderlyingType() == None
      ensures table.nameMap == old(table.nameMap)[name := this]
      ensures table.typeMap == old(table.typeMap)
    {
      this.name := name;
      this.underlyingType := None;
      new;
      table.nameMap := table.nameMap[name := this];
    }

    /** DataType(name, type): registers under its name and under its type. */
    constructor Typed(table: DataTypeTable, name: string, t: ClrType)
      modifies table
      ensures GetName() == name && GetUnderlyingType() == Some(t)
      ensures table.nameMap == old(table.nameMap)[name := this]
      ensures table.typeMap == old(table.typeMap)[t := this]
    {
      this.name := name;
      this.underlyingType := Some(t);
      new;
      table.nameMap := table.nameMap[name := this];
      table.typeMap := table.typeMap[t := this];
    }

    function GetName(): string
    {
      name
    }

    function GetUnderlyingType(): Option<ClrType>
    {
      underlyingType
    }
  }

  /** The fourteen predefined static instances, in declaration order. */
  class StandardDataTypes {
    const Binary: DataType
    const Guid: DataType
    const String: DataType
    const DateTime: DataType
    const DateTimeOffset: DataType
    const Time: DataType
    const Byte: DataType
    const Int16: DataType
    const Int32: DataType
    const Int64: DataType
    const Boolean: DataType
    const Decimal: DataType
    const Double: DataType
    const Single: DataType

    function All(): seq<DataType>
    {
      [Binary, Guid, String, DateTime, DateTimeOffset, Time, Byte, Int16, Int32, Int64, Boolean,
       Decimal, Double, Single]
    }

    /** The names and types the static initialisers give, in order. */
    ghost predicate Valid()
    {
      && Binary.name == "Binary" && Binary.underlyingType == None
      && Guid.name == "Guid" && Guid.underlyingType == Some(GuidType)
      && String.name == "String" && String.underlyingType == Some(StringType)
      && DateTime.name == "DateTime" && DateTime.underlyingType == Some(DateTimeType)
      && DateTimeOffset.name == "DateTimeOffset" && DateTimeOffset.underlyingType == Some(DateTimeOffsetType)
      && Time.name == "Time" && Time.underlyingType == Some(TimeSpanType)
      && Byte.name == "Byte" && Byte.underlyingType == Some(ByteType)
      && Int16.name == "Int16" && Int16.underlyingType == Some(Int16Type)
      && Int32.name == "Int32" && Int32.underlyingType == Some(Int32Type)
      && Int64.name == "Int64" && Int64.underlyingType == Some(Int64Type)
      && Boolean.name == "Boolean" && Boolean.underlyingType == Some(BooleanType)
      && Decimal.name == "Decimal" && Decimal.underlyingType == Some(DecimalType)
      && Double.name == "Double" && Double.underlyingType == Some(DoubleType)
      && Single.name == "Single" && Single.underlyingType == Some(SingleType)
    }

    /** Each of the fourteen is what the table holds under its name (and its type, when it has one). */
    ghost predicate RegisteredIn(table: DataTypeTable)
      reads table
    {
      (forall i :: 0 <= i < |All()| ==> All()[i].name in table.nameMap && table.nameMap[All()[i].name] == All()[i]) &&
      (forall i :: 0 <= i < |All()| && All()[i].underlyingType.Some? ==>
        All()[i].underlyingType.value in table.typeMap && table.typeMap[All()[i].underlyingType.value] == All()[i])
    }

    /** `m` after the fourteen name registrations, in declaration order. */
    ghost function NamesRegistered(m: map<string, DataType>): map<string, DataType>
    {
      m[Binary.name := Binary][Guid.name := Guid][String.name := String][DateTime.name := DateTime]
       [DateTimeOffset.name := DateTimeOffset][Time.name := Time][Byte.name := Byte][Int16.name := Int16]
       [Int32.name := Int32][Int64.name := Int64][Boolean.name := Boolean][Decimal.name := Decimal]
       [Double.name := Double][Single.name := Single]
    }

    /** `m` after the thirteen type registrations, in declaration order. */
    ghost function TypesRegistered(m: map<ClrType, DataType>): map<ClrType, DataType>
      requires Valid()
    {
      m[GuidType := Guid][StringType := String][DateTimeType := DateTime]
       [DateTimeOffsetType := DateTimeOffset][TimeSpanType := Time][ByteType := Byte][Int16Type := Int16]
       [Int32Type := Int32][Int64Type := Int64][BooleanType := Boolean][DecimalType := Decimal]
       [DoubleType := Double][SingleType := Single]
    }

    /** The static initialisers, run in declaration order against the static table. */
    constructor (table: DataTypeTable)
      modifies table
      ensures Valid()
      ensures table.nameMap == NamesRegistered(old(table.nameMap))
      ensures table.typeMap == TypesRegistered(old(table.typeMap))
    {
      Binary := new DataType.Untyped(table, "Binary");
      Guid := new DataType.Typed(table, "Guid", GuidType);
      String := new DataType.Typed(table, "String", StringType);
      DateTime := new DataType.Typed(table, "DateTime", DateTimeType);
      DateTimeOffset := new DataType.Typed(table, "DateTimeOffset", DateTimeOffsetType);
      Time := new DataType.Typed(table, "Time", TimeSpanType);
      Byte := new DataType.Typed(table, "Byte", ByteType);
      Int16 := new DataType.Typed(table, "Int16", Int16Type);
      Int32 := new DataType.Typed(table, "Int32", Int32Type);
      Int64 := new DataType.Typed(table, "Int64", Int64Type);
      Boolean := new DataType.Typed(table, "Boolean", BooleanType);
      Decimal := new DataType.Typed(table, "Decimal", DecimalType);
      Double := new DataType.Typed(table, "Double", DoubleType);
      Single := new DataType.Typed(table, "Single", SingleType);
      new;
    }
  }

  /**
   * After the static initialisers every one of the fourteen is registered
   * under its name, and the thirteen with a type under that type.
   */
  lemma {:induction false} StandardRegistered(table: DataTypeTable, std: StandardDataTypes,
                           names0: map<string, DataType>, types0: map<ClrType, DataType>)
    requires std.Valid()
    requires table.nameMap == std.NamesRegistered(names0)
    requires table.typeMap == std.TypesRegistered(types0)
    ensures std.RegisteredIn(table)
  {
    forall i | 0 <= i < |std.All()|
      ensures std.All()[i].name in table.nameMap && table.nameMap[std.All()[i].name] == std.All()[i]
    {
      NameRegistered(table, std, names0, i);
    }
    forall i | 0 <= i < |std.All()| && std.All()[i].underlyingType.Some?
      ensures std.All()[i].underlyingType.value in table.typeMap &&
        table.typeMap[std.All()[i].underlyingType.value] == std.All()[i]
    {
      TypeRegistered(table, std, types0, i);
    }
  }

  lemma {:induction false} NameRegistered(table: DataTypeTable, std: StandardDataTypes, names0: map<string, DataType>, i: nat)
    requires std.Valid() && i < |std.All()|
    requires table.nameMap == std.NamesRegistered(names0)
    ensures std.All()[i].name in table.nameMap && table.nameMap[std.All()[i].name] == std.All()[i]
  {
    if i < 7 {
      NameRegisteredEarly(table, std, names0, i);
    } else {
      NameRegisteredLate(table, std, names0, i);
    }
  }

  lemma {:induction false} NameRegisteredEarly(table: DataTypeTable, std: StandardDataTypes, names0: map<string, DataType>, i: nat)
    requires std.Valid() && i < 7
    requires table.nameMap == std.NamesRegistered(names0)
    ensures std.All()[i].name in table.nameMap && table.nameMap[std.All()[i].name] == std.All()[i]
  {
    if i == 0 {
      assert std.All()[i] == std.Binary;
    } else if i == 1 {
      assert std.All()[i] == std.Guid;
    } else if i == 2 {
      assert std.All()[i] == std.String;
    } else if i == 3 {
      assert std.All()[i] == std.DateTime;
    } else if i == 4 {
      assert std.All()[i] == std.DateTimeOffset;
    } else if i == 5 {
      assert std.All()[i] == std.Time;
    } else {
      assert std.All()[i] == std.Byte;
    }
  }

  lemma {:induction false} NameRegisteredLate(table: DataTypeTable, std: StandardDataTypes, names0: map<string, DataType>, i: nat)
    requires std.Valid() && 7 <= i < |std.All()|
    requires table.nameMap == std.NamesRegistered(names0)
    ensures std.All()[i].name in table.nameMap && table.nameMap[std.All()[i].name] == std.All()[i]
  {
    if i == 7 {
      assert std.All()[i] == std.Int16;
    } else if i == 8 {
      assert std.All()[i] == std.Int32;
    } else if i == 9 {
      assert std.All()[i] == std.Int64;
    } else if i == 10 {
      assert std.All()[i] == std.Boolean;
    } else if i == 11 {
      assert std.All()[i] == std.Decimal;
    } else if i == 12 {
      assert std.All()[i] == std.Double;
    } else {
      assert std.All()[i] == std.Single;
    }
  }

  lemma {:induction false} TypeRegistered(table: DataTypeTable, std: StandardDataTypes, types0: map<ClrType, DataType>, i: nat)
    requires std.Valid() && i < |std.All()| && std.All()[i].underlyingType.Some?
    requires table.typeMap == std.TypesRegistered(types0)
    ensures std.All()[i].underlyingType.value in table.typeMap &&
      table.typeMap[std.All()[i].underlyingType.value] == std.All()[i]
  {
    if i == 1 {
      assert std.All()[i] == std.Guid;
    } else if i == 2 {
      assert std.All()[i] == std.String;
    } else if i == 3 {
      assert std.All()[i] == std.DateTime;
    } else if i == 4 {
      assert std.All()[i] == std.DateTimeOffset;
    } else if i == 5 {
      assert std.All()[i] == std.Time;
    } else if i == 6 {
      assert std.All()[i] == std.Byte;
    } else if i == 7 {
      assert std.All()[i] == std.Int16;
    } else if i == 8 {
      assert std.All()[i] == std.Int32;
    } else if i == 9 {
      assert std.All()[i] == std.Int64;
    } else if i == 10 {
      assert std.All()[i] == std.Boolean;
    } else if i == 11 {
      assert std.All()[i] == std.Decimal;
    } else if i == 12 {
      assert std.All()[i] == std.Double;
    } else if i == 13 {
      assert std.All()[i] == std.Single;
    }
  }

  /**
   * The predefined names are distinct, so no later initialiser overwrites an
   * earlier one: FromName(x.GetName()) gives x back for each of the fourteen,
   * and FromType of x's type (or of its Nullable) gives x back for the
   * thirteen that have a type.
   */
  lemma {:induction false} FromNameOfStandard(table: DataTypeTable, std: StandardDataTypes,
                           names0: map<string, DataType>, types0: map<ClrType, DataType>, i: nat)
    requires std.Valid() && i < |std.All()|
    requires table.nameMap == std.NamesRegistered(names0)
    requires table.typeMap == std.TypesRegistered(types0)
    ensures table.FromName(std.All()[i].GetName()) == Success(std.All()[i])
    ensures std.All()[i].underlyingType.Some? ==>
      table.FromType(std.All()[i].underlyingType.value) == Success(std.All()[i]) &&
      table.FromType(NullableOf(std.All()[i].underlyingType.value)) == Success(std.All()[i])
  {
    StandardRegistered(table, std, names0, types0);
    var x := std.All()[i];
    if x.underlyingType.Some? {
      var t := x.underlyingType.value;
      assert t in table.typeMap && table.typeMap[t] == x;
      assert !t.NullableOf?;
    }
  }

  // ---------------------------------------------------------------------------
  // CoerceData
  // ---------------------------------------------------------------------------

  /** A query value: null, a boxed scalar of some runtime type, or a list (an 'In' clause). */
  datatype Value =
    | Null
    | Scalar(clrType: ClrType, text: string)
    | ListValue(listType: ClrType, items: seq<Value>)

  /** The library conversions CoerceData ends in; their results are supplied from outside. */
  datatype Leaf =
    | ParseGuid                          // Guid.Parse(value.ToString())
    | ToDateTimeOffset                   // the DateTime to DateTimeOffset cast
    | ParseTimeSpan                      // XmlConvert.ToTimeSpan((string) value)
    | ChangeType(target: Option<ClrType>) // Convert.ChangeType(value, type)

  /** value.GetType(); a null value has none. */
  function RuntimeType(v: Value): Option<ClrType>
  {
    match v
    case Null => None
    case Scalar(t, _) => Some(t)
    case ListValue(t, _) => Some(t)
  }

  /** The message of the ArgumentNullException MakeGenericType throws for a data type without a CLR type. */
  const NoItemType := "Value cannot be null."

  /** What CoerceData returns (Success) or throws (Failure). */
  function Coerced(v: Value, dataType: DataType?, std: StandardDataTypes,
                   leaf: (Leaf, Value) -> Result<Value>): Result<Value>
    decreases v
  {
    if v.Null? || dataType == null || RuntimeType(v) == dataType.underlyingType then Success(v)
    else if v.ListValue? then
      if dataType.underlyingType.None? then Failure(NoItemType)
      else
        var rs := seq(|v.items|, i requires 0 <= i < |v.items| => Coerced(v.items[i], dataType, std, leaf));
        match Collect(rs)
        case Success(items) => Success(ListValue(ListOf(dataType.underlyingType.value), items))
        case Failure(e) => Failure(e)
    else if dataType == std.Guid then leaf(ParseGuid, v)
    else if dataType == std.DateTimeOffset && v.clrType == DateTimeType then leaf(ToDateTimeOffset, v)
    else if dataType == std.Time && v.clrType == StringType then leaf(ParseTimeSpan, v)
    else leaf(ChangeType(dataType.underlyingType), v)
  }

  /**
   * CoerceData: a list is copied into a new List<T> of the data type's CLR
   * type, each item coerced in turn; a scalar goes to one library conversion.
   */
  method CoerceData(v: Value, dataType: DataType?, std: StandardDataTypes,
                    leaf: (Leaf, Value) -> Result<Value>) returns (r: Result<Value>)
    ensures r == Coerced(v, dataType, std, leaf)
    decreases v
  {
    if v.Null? || dataType == null || RuntimeType(v) == dataType.underlyingType {
      return Success(v);
    } else if v.ListValue? {
      if dataType.underlyingType.None? {
        return Failure(NoItemType);
      }
      var itemType := dataType.underlyingType.value;
      ghost var rs := seq(|v.items|, i requires 0 <= i < |v.items| => Coerced(v.items[i], dataType, std, leaf));
      var newList: seq<Value> := [];
      for i := 0 to |v.items|
        invariant |newList| == i
        invariant forall j :: 0 <= j < i ==> rs[j].Success? && newList[j] == rs[j].value
      {
        var item := CoerceData(v.items[i], dataType, std, leaf);
        if item.Failure? {
          CollectFirstFailure(rs, i);
          return Failure(item.error);
        }
        newList := newList + [item.value];
      }
      CollectSuccess(rs);
      assert Collect(rs).value == newList;
      return Success(ListValue(ListOf(itemType), newList));
    } else if dataType == std.Guid {
      r := leaf(ParseGuid, v);
    } else if dataType == std.DateTimeOffset && v.clrType == DateTimeType {
      r := leaf(ToDateTimeOffset, v);
    } else if dataType == std.Time && v.clrType == StringType {
      r := leaf(ParseTimeSpan, v);
    } else {
      r := leaf(ChangeType(dataType.underlyingType), v);
    }
  }

  /** A null value, a missing data type or a value already of the data type's type comes back as it is. */
  lemma {:induction false} CoerceKeepsMatchingValue(v: Value, dataType: DataType?, std: StandardDataTypes,
                                 leaf: (Leaf, Value) -> Result<Value>)
    requires v.Null? || dataType == null || RuntimeType(v) == dataType.underlyingType
    ensures Coerced(v, dataType, std, leaf) == Success(v)
  {
  }

  /**
   * A coerced list is a new list of the data type's CLR type, of the same
   * length, whose item i is item i coerced; it fails exactly when some item
   * fails.
   */
  lemma {:induction false} CoerceListPointwise(v: Value, dataType: DataType, std: StandardDataTypes,
                            leaf: (Leaf, Value) -> Result<Value>)
    requires v.ListValue? && RuntimeType(v) != dataType.underlyingType && dataType.underlyingType.Some?
    ensures Coerced(v, dataType, std, leaf).Success? <==>
      forall i :: 0 <= i < |v.items| ==> Coerced(v.items[i], dataType, std, leaf).Success?
    ensures Coerced(v, dataType, std, leaf).Success? ==>
      var r := Coerced(v, dataType, std, leaf).value;
      && r.ListValue?
      && r.listType == ListOf(dataType.underlyingType.value)
      && |r.items| == |v.items|
      && forall i :: 0 <= i < |v.items| ==> r.items[i] == Coerced(v.items[i], dataType, std, leaf).value
  {
    var rs := seq(|v.items|, i requires 0 <= i < |v.items| => Coerced(v.items[i], dataType, std, leaf));
    CollectSuccess(rs);
    assert forall i :: 0 <= i < |v.items| ==> rs[i] == Coerced(v.items[i], dataType, std, leaf);
    assert Coerced(v, dataType, std, leaf) ==
      match Collect(rs)
      case Success(items) => Success(ListValue(ListOf(dataType.underlyingType.value), items))
      case Failure(e) => Failure(e);
  }
}
