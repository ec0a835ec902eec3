/**
 * PostgreSQL foreign-key column convention: the key column is the naming
 * strategy's table name of "<member name>Id", or of "<type name>Id" when there
 * is no member.
 */
module PgForeignKeyColumnName {

  import opened Wrappers

  /** The string handed to the naming strategy. */
  function KeySource(memberName: Option<string>, typeName: string): (r: string)
    ensures |r| >= 2 && r[|r| - 2..] == "Id"
    ensures memberName.Some? ==> r[..|r| - 2] == memberName.value
    ensures memberName.None? ==> r[..|r| - 2] == typeName
  {
    if memberName.None? then typeName + "Id" else memberName.value + "Id"
  }

  /** GetKeyName(property, type); `memberName` is None when the member is null. */
  function GetKeyName(tableName: string -> string, memberName: Option<string>, typeName: string): (r: string)
    ensures memberName.Some? ==> r == tableName(memberName.value + "Id")
    ensures memberName.None? ==> r == tableName(typeName + "Id")
  {
    tableName(KeySource(memberName, typeName))
  }

  /** With a member the type name is ignored. */
  lemma {:induction false} KeyNameIgnoresTypeWithMember(tableName: string -> string, memberName: string, type1: string, type2: string)
    ensures GetKeyName(tableName, Some(memberName), type1) == GetKeyName(tableName, Some(memberName), type2)
  {
  }

  /** Under the identity naming strategy the column is the chosen name followed by "Id". */
  lemma {:induction false} IdentityStrategyAppendsId(memberName: Option<string>, typeName: string)
    ensures var chosen := if memberName.Some? then memberName.value else typeName;
      var r := GetKeyName(s => s, memberName, typeName);
      |r| == |chosen| + 2 && r[..|chosen|] == chosen && r[|chosen|..] == "Id"
  {
  }
}
