/**
 * SQL Server foreign-key naming convention: plain interpolation of the entity,
 * class and member names, never shortened.
 */
module SqlServerForeignKeyName {

  /** The relationship as a many-to-one, one-to-one or many-to-many instance presents it. */
  datatype Relationship =
    | ManyToOne(entityTypeName: string, className: string, memberName: string)
    | OneToOne(entityTypeName: string, inspectorClassName: string, memberName: string)
    | ManyToMany(entityTypeName: string, otherSideEntityTypeName: string, collectionName: string)

  /** "FK_<entity>To<class>_<member>" for references. */
  function ReferenceFkName(entity: string, cls: string, member: string): (r: string)
    ensures |r| == 6 + |entity| + |cls| + |member|
    ensures r[..3] == "FK_" && r[3..3 + |entity|] == entity
    ensures r[3 + |entity|..5 + |entity|] == "To"
    ensures r[5 + |entity|..5 + |entity| + |cls|] == cls
    ensures r[5 + |entity| + |cls|] == '_'
    ensures r[6 + |entity| + |cls|..] == member
  {
    "FK_" + entity + "To" + cls + "_" + member
  }

  /** "FK_<entity><other side>_<collection>" for many-to-many, without "To". */
  function ManyToManyFkName(entity: string, otherSide: string, collection: string): (r: string)
    ensures |r| == 4 + |entity| + |otherSide| + |collection|
    ensures r[..3] == "FK_" && r[3..3 + |entity|] == entity
    ensures r[3 + |entity|..3 + |entity| + |otherSide|] == otherSide
    ensures r[3 + |entity| + |otherSide|] == '_'
    ensures r[4 + |entity| + |otherSide|..] == collection
  {
    "FK_" + entity + otherSide + "_" + collection
  }

  /** Apply: the name handed to ForeignKey for each kind of relationship. */
  function Apply(rel: Relationship): (r: string)
    ensures rel.ManyToOne? ==> r == ReferenceFkName(rel.entityTypeName, rel.className, rel.memberName)
    ensures rel.OneToOne? ==> r == ReferenceFkName(rel.entityTypeName, rel.inspectorClassName, rel.memberName)
    ensures rel.ManyToMany? ==> r == ManyToManyFkName(rel.entityTypeName, rel.otherSideEntityTypeName, rel.collectionName)
  {
    match rel
    case ManyToOne(e, c, m) => ReferenceFkName(e, c, m)
    case OneToOne(e, c, m) => ReferenceFkName(e, c, m)
    case ManyToMany(e, o, c) => ManyToManyFkName(e, o, c)
  }
}
