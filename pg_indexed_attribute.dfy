/**
 * PostgreSQL index convention: a column carrying [Index] is indexed under
 * "ix__<table name of the key name>", or of the member name when no key is set.
 */
module PgIndexedAttribute {

  import opened Wrappers

  /** The [Index] attribute as the convention reads it. */
  datatype IndexAttribute = IndexAttribute(isKeySet: bool, keyName: string)

  /** GetIndexName: the entity's table name is passed in but not used. */
  function GetIndexName(tableName: string -> string, entityTableName: string, name: string): (r: string)
    ensures |r| == 4 + |tableName(name)|
    ensures r[..4] == "ix__" && r[4..] == tableName(name)
  {
    "ix__" + tableName(name)
  }

  /** The name handed to Index on a property with the attribute. */
  function ApplyToProperty(tableName: string -> string, attribute: IndexAttribute,
                           entityTypeName: string, memberName: string): (r: string)
    ensures |r| >= 4 && r[..4] == "ix__"
    ensures attribute.isKeySet ==> r[4..] == tableName(attribute.keyName)
    ensures !attribute.isKeySet ==> r[4..] == tableName(memberName)
  {
    if attribute.isKeySet then GetIndexName(tableName, entityTypeName, attribute.keyName)
    else GetIndexName(tableName, entityTypeName, memberName)
  }

  /**
   * The name handed to Index on a many-to-one member: none without the
   * attribute, otherwise the same name as the property path computes.
   */
  function ApplyToManyToOne(tableName: string -> string, attribute: Option<IndexAttribute>,
                            entityTypeName: string, memberName: string): (r: Option<string>)
    ensures r.None? <==> attribute.None?
    ensures attribute.Some? ==> r == Some(ApplyToProperty(tableName, attribute.value, entityTypeName, memberName))
  {
    match attribute
    case None => None
    case Some(a) =>
      Some(if a.isKeySet then GetIndexName(tableName, entityTypeName, a.keyName)
           else GetIndexName(tableName, entityTypeName, memberName))
  }

  /** The entity name never affects the index name. */
  lemma {:induction false} IndexNameIgnoresEntity(tableName: string -> string, attribute: IndexAttribute,
                               entity1: string, entity2: string, memberName: string)
    ensures ApplyToProperty(tableName, attribute, entity1, memberName) ==
            ApplyToProperty(tableName, attribute, entity2, memberName)
  {
  }
}
