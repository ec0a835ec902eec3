/**
 * Descriptors standing in for System.Type values: the model never reflects over
 * a running program, it is handed these descriptors instead.
 */
module ClrTypes {

  import opened Wrappers

  /** A CLR type: a named type, Nullable<T>, or List<T>. */
  datatype ClrType =
    | Named(fullName: string, isValueType: bool)
    | NullableOf(underlying: ClrType)
    | ListOf(item: ClrType)

  /** Type.IsValueType: Nullable<T> is a struct, List<T> a class. */
  predicate IsValueType(t: ClrType)
  {
    match t
    case Named(_, v) => v
    case NullableOf(_) => true
    case ListOf(_) => false
  }

  /** Nullable.GetUnderlyingType: the T of Nullable<T>, null otherwise. */
  function NullableUnderlying(t: ClrType): Option<ClrType>
  {
    if t.NullableOf? then Some(t.underlying) else None
  }

  /** Type.ToString: the full name, generic arguments in brackets after the arity. */
  function TypeName(t: ClrType): string
  {
    match t
    case Named(n, _) => n
    case NullableOf(u) => "System.Nullable`1[" + TypeName(u) + "]"
    case ListOf(i) => "System.Collections.Generic.List`1[" + TypeName(i) + "]"
  }

  /** TypeFns.GetNonNullableType: Nullable<T> becomes T, any other type is kept. */
  function NonNullable(t: ClrType): ClrType
  {
    if t.NullableOf? then t.underlying else t
  }

  const GuidType := Named("System.Guid", true)
  const StringType := Named("System.String", false)
  const DateTimeType := Named("System.DateTime", true)
  const DateTimeOffsetType := Named("System.DateTimeOffset", true)
  const TimeSpanType := Named("System.TimeSpan", true)
  const ByteType := Named("System.Byte", true)
  const Int16Type := Named("System.Int16", true)
  const Int32Type := Named("System.Int32", true)
  const Int64Type := Named("System.Int64", true)
  const BooleanType := Named("System.Boolean", true)
  const DecimalType := Named("System.Decimal", true)
  const DoubleType := Named("System.Double", true)
  const SingleType := Named("System.Single", true)
}
