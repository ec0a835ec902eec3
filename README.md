# CoreSharp core, modelled in Dafny

This project models the parts of CoreSharp that make decisions on their own:

- the Breeze metadata handler (`BreezeMetadataValidators`). When the
  metadata-built event fires, it locks the nullable-override set. It then
  adds an unmapped entity type for every client-model class and turns the
  server's `required`/`maxLength` validators into FluentValidation-backed
  client validators. Next it merges in the entity's fluent property rules.
  Last, it relaxes the audit fields of versioned entities;
- the Breeze query `DataType` registry: two static dictionaries filled by
  the constructors, the `FromName`/`FromType` lookups, and `CoerceData`;
- the NHibernate naming conventions: the PostgreSQL foreign-key name and
  its shortening loop, unique-key names, index names, foreign-key column
  names, and the SQL Server foreign-key names.

Files and modules:

| file | module | what it holds |
|---|---|---|
| `wrappers.dfy` | `Wrappers` | `Option`, `Result` (a value or a thrown exception's message), `Outcome`, and `Collect` (run results in order, stop at the first exception) |
| `clr_types.dfy` | `ClrTypes` | CLR type descriptors standing in for `System.Type`, `Nullable<T>` stripping |
| `breeze_metadata.dfy` | `BreezeMetadata` | the schema as values, and what each step of the handler does to it, as functions with lemmas |
| `breeze_metadata_validators.dfy` | `BreezeMetadataValidators` | `DataProperty`, `EntityType` and `MetadataSchema` as mutable objects; the handler's methods, each proved equal to its `BreezeMetadata` function |
| `breeze_data_type.dfy` | `BreezeQueryDataType` | the `DataType` class, its static dictionaries (`DataTypeTable`), the fourteen predefined instances, and `CoerceData` |
| `pg_foreign_key_name.dfy` | `PgForeignKeyName` | `GetFkName` (a loop) and the `fk__…` names |
| `pg_unique_attribute.dfy` | `PgUniqueAttribute` | comma split, .NET `Trim`, `ux_` keys |
| `pg_indexed_attribute.dfy` | `PgIndexedAttribute` | `ix__` index names |
| `pg_foreign_key_column_name.dfy` | `PgForeignKeyColumnName` | `…Id` key column names |
| `sqlserver_foreign_key_name.dfy` | `SqlServerForeignKeyName` | `FK_…` names |

The model follows the form of the C# code:

- State that the C# code mutates is mutable in the model. This covers the
  metadata objects, the handler's static override set and lock flag, and
  the `DataType` dictionaries. Each becomes a Dafny `class` whose methods
  say their whole new state.
- The loops are `while`/`for` loops with invariants. These are the
  `GetFkName` shortening loop, the conversion loop, the rule loop, the
  client-model loop, the relaxation loop, and the `CoerceData` list loop.
- Each method is proved equal to a function on values. The lemmas about
  that function state what the code promises.
- Pure string builders are functions.
- `INamingStrategy.TableName` is a function parameter `string -> string`.
- Reflection is replaced by explicit inputs, collected in
  `BreezeMetadata.Environment`. These are the type list, the rule provider,
  `FluentValidators.GetName`, `BreezeTypeHelper.GetDataType`,
  `GetDefaultValue`, `Type.GetType`, and the default insert/update rule
  sets.

## Where the code differs from its described behaviour

The model follows the code in each of these cases:

- The nullable-override branch of `ConvertToFluentValidators`
  (CoreSharp.Breeze/Internal/BreezeMetadataValidators.cs:230-236) does not
  add "fvNotNull" and "fvNotEmpty" validators. It only reports both names
  as converted, sets `IsNullable`, and drops the "required" validator. So
  the later rule loop skips any fluent rule with those names, and the
  property ends up with neither validator.
  `BreezeMetadata.ConvertNullableOverride` proves this.
- The audit-field relaxation (:191-195) removes only the first "required"
  validator, not every one. `BreezeMetadata.RelaxEntityAudit` proves this.
- The versioned check (:182) is `type.IsAssignableFrom(typeof(IVersionedEntity))`,
  which is the wrong way round. It holds only for `IVersionedEntity`
  itself, the interfaces it extends, and `System.Object`. It never holds
  for a class that implements `IVersionedEntity`.
  The model keeps the check as written. The check is the descriptor flag
  `assignableFromVersionedEntity`. `BreezeMetadata.VersionedCheckMissesClasses`
  shows that a consistent descriptor of any class other than
  `System.Object` is never relaxed.
- Validator names are not unique after translation. The conversion keeps
  duplicate names that were already in the list. A rule whose name already
  appears twice makes `AddOrUpdate` throw through `SingleOrDefault`
  (`BreezeMetadata.AddOrUpdateReplacesByName`).

## Model

| member | source | states |
|---|---|---|
| PgForeignKeyName.JoinSplit | CoreSharp.NHibernate.PostgreSQL/Conventions/ForeignKeyNameConvention.cs:51 | splitting on "__" at leftmost matches and joining the pieces back with "__" gives the name back |
| PgForeignKeyName.SplitPlain | CoreSharp.NHibernate.PostgreSQL/Conventions/ForeignKeyNameConvention.cs:51 | a piece with no "__" and no trailing '_' splits into itself alone |
| PgForeignKeyName.SplitFullFkName | CoreSharp.NHibernate.PostgreSQL/Conventions/ForeignKeyNameConvention.cs:23 | "fk__a__b__c" of such pieces splits into exactly ["fk", a, b, c] |
| PgForeignKeyName.GetFkName | CoreSharp.NHibernate.PostgreSQL/Conventions/ForeignKeyNameConvention.cs:49-67 | the shortening loop terminates and returns exactly `FkName(name)`: the name itself if it fits, else the first piece length from 18 down whose truncation fits, else the "FK name too long" exception |
| PgForeignKeyName.FkNameFits | CoreSharp.NHibernate.PostgreSQL/Conventions/ForeignKeyNameConvention.cs:55-66 | every name returned has at most 63 characters |
| PgForeignKeyName.FkNameKeepsShortName | CoreSharp.NHibernate.PostgreSQL/Conventions/ForeignKeyNameConvention.cs:52-55 | a name of at most 63 characters comes back unchanged, "__" separators kept |
| PgForeignKeyName.FkNameOutcome | CoreSharp.NHibernate.PostgreSQL/Conventions/ForeignKeyNameConvention.cs:53-63 | it throws exactly when the name is over 63 characters and still over 63 with pieces cut to 11, with message "FK name too long: " + name; otherwise a long name is the join without separators of the pieces cut to the longest length in 11..18 that fits |
| PgForeignKeyName.RoundsFromSucceeds | CoreSharp.NHibernate.PostgreSQL/Conventions/ForeignKeyNameConvention.cs:55-63 | the loop from a given length succeeds exactly when some length from there down to 11 fits |
| PgForeignKeyName.RoundsFromChoice | CoreSharp.NHibernate.PostgreSQL/Conventions/ForeignKeyNameConvention.cs:55-63 | a successful loop returns the cut at the largest length that fits, and every longer length did not fit |
| PgForeignKeyName.ShortenedMonotone | CoreSharp.NHibernate.PostgreSQL/Conventions/ForeignKeyNameConvention.cs:57 | cutting pieces to a shorter length never gives a longer name |
| PgForeignKeyName.ShortenedNotLonger | CoreSharp.NHibernate.PostgreSQL/Conventions/ForeignKeyNameConvention.cs:57 | a cut name is never longer than the original |
| PgForeignKeyName.ShortenedPieces | CoreSharp.NHibernate.PostgreSQL/Conventions/ForeignKeyNameConvention.cs:57 | a cut name is the concatenation of each piece cut to the length, and a piece is cut only when it is longer |
| PgForeignKeyName.JoinLength | CoreSharp.NHibernate.PostgreSQL/Conventions/ForeignKeyNameConvention.cs:51 | a joined name is two characters longer per separator than its pieces together |
| PgForeignKeyName.ShortenedFourPieces | CoreSharp.NHibernate.PostgreSQL/Conventions/ForeignKeyNameConvention.cs:57 | cutting ["fk", a, b, c] keeps "fk" and cuts the three table names |
| PgForeignKeyName.ApplyShortensTableNames | CoreSharp.NHibernate.PostgreSQL/Conventions/ForeignKeyNameConvention.cs:21-42 | for each of the three relationship kinds, the key is "fk__" + the three table names when that fits, and otherwise "fk" + the three table names cut to one common length |
| PgUniqueAttribute.SplitOnJoin | CoreSharp.NHibernate.PostgreSQL/Conventions/UniqueAttributeConvention.cs:25 | `Split(',')` yields one more piece than there are commas and joining the pieces with ',' gives the string back |
| PgUniqueAttribute.TrimStartSplits | CoreSharp.NHibernate.PostgreSQL/Conventions/UniqueAttributeConvention.cs:25 | the start trim removes a whitespace prefix and leaves a string that does not start with whitespace |
| PgUniqueAttribute.TrimEndSplits | CoreSharp.NHibernate.PostgreSQL/Conventions/UniqueAttributeConvention.cs:25 | the end trim removes a whitespace suffix and leaves a string that does not end with whitespace |
| PgUniqueAttribute.TrimKeepsMiddle | CoreSharp.NHibernate.PostgreSQL/Conventions/UniqueAttributeConvention.cs:25 | `Trim` keeps a contiguous middle of the string and removes only whitespace around it; a non-empty result starts and ends with non-whitespace |
| PgUniqueAttribute.UniqueKeysPerPiece | CoreSharp.NHibernate.PostgreSQL/Conventions/UniqueAttributeConvention.cs:25 | there is one key per comma-separated piece, and key i is "ux_" + TableName(trimmed piece i) |
| PgUniqueAttribute.ApplyToProperty | CoreSharp.NHibernate.PostgreSQL/Conventions/UniqueAttributeConvention.cs:21-33 | a keyed attribute sets the joined unique key, an unkeyed one marks the property unique |
| PgUniqueAttribute.ApplyToManyToOne | CoreSharp.NHibernate.PostgreSQL/Conventions/UniqueAttributeConvention.cs:35-53 | no attribute leaves the reference unchanged; otherwise it behaves as the property overload |
| PgIndexedAttribute.GetIndexName | CoreSharp.NHibernate.PostgreSQL/Conventions/IndexedAttributeConvention.cs:41-44 | the index name is "ix__" followed by TableName(name), whatever the table |
| PgIndexedAttribute.ApplyToProperty | CoreSharp.NHibernate.PostgreSQL/Conventions/IndexedAttributeConvention.cs:20-25 | the index is named after the key name when the key is set, else after the property |
| PgIndexedAttribute.ApplyToManyToOne | CoreSharp.NHibernate.PostgreSQL/Conventions/IndexedAttributeConvention.cs:27-39 | no attribute means no index; otherwise as the property overload |
| PgIndexedAttribute.IndexNameIgnoresEntity | CoreSharp.NHibernate.PostgreSQL/Conventions/IndexedAttributeConvention.cs:41-44 | the entity's table name has no influence on the index name |
| PgForeignKeyColumnName.KeySource | CoreSharp.NHibernate.PostgreSQL/Conventions/ForeignKeyColumnNameConvention.cs:17-25 | the name handed to the strategy is the member's name, or the type's when there is no member, followed by "Id" |
| PgForeignKeyColumnName.GetKeyName | CoreSharp.NHibernate.PostgreSQL/Conventions/ForeignKeyColumnNameConvention.cs:17-25 | the column is TableName(member + "Id"), or TableName(type + "Id") without a member |
| PgForeignKeyColumnName.KeyNameIgnoresTypeWithMember | CoreSharp.NHibernate.PostgreSQL/Conventions/ForeignKeyColumnNameConvention.cs:24 | with a member, the type has no influence on the column name |
| PgForeignKeyColumnName.IdentityStrategyAppendsId | CoreSharp.NHibernate.PostgreSQL/Conventions/ForeignKeyColumnNameConvention.cs:19-24 | under the identity naming strategy the column is the chosen name followed by "Id" |
| SqlServerForeignKeyName.ReferenceFkName | CoreSharp.NHibernate.SQLServer/Conventions/ForeignKeyNameConvention.cs:11 | the name decomposes into "FK_", entity, "To", class, '_', member, and nothing else |
| SqlServerForeignKeyName.ManyToManyFkName | CoreSharp.NHibernate.SQLServer/Conventions/ForeignKeyNameConvention.cs:26 | the name decomposes into "FK_", entity, other side, '_', collection, and nothing else |
| SqlServerForeignKeyName.Apply | CoreSharp.NHibernate.SQLServer/Conventions/ForeignKeyNameConvention.cs:9-30 | many-to-one and one-to-one use the reference format (one-to-one with the inspector's class), many-to-many the collection format |
| BreezeQueryDataType.DataTypeTable.constructor | CoreSharp.Breeze/Query/DataType.cs:10-11 | both dictionaries start empty |
| BreezeQueryDataType.DataTypeTable.FromName | CoreSharp.Breeze/Query/DataType.cs:54-56 | returns the instance registered under the name, and for an unregistered name throws KeyNotFoundException with the message naming that key |
| BreezeQueryDataType.DataTypeTable.FromType | CoreSharp.Breeze/Query/DataType.cs:58-61 | strips Nullable<T> and returns the instance registered under the remaining type, or throws KeyNotFoundException naming the remaining type as `Type.ToString` writes it |
| BreezeQueryDataType.DataType.Untyped | CoreSharp.Breeze/Query/DataType.cs:33-36 | the new instance has the given name and no type; it replaces any earlier name entry and leaves the type map alone |
| BreezeQueryDataType.DataType.Typed | CoreSharp.Breeze/Query/DataType.cs:38-43 | the new instance has the given name and type, and is registered under both, replacing earlier entries |
| BreezeQueryDataType.StandardDataTypes.constructor | CoreSharp.Breeze/Query/DataType.cs:13-29 | the fourteen static instances are created in declaration order with their names and types, and each is registered in turn |
| BreezeQueryDataType.StandardRegistered | CoreSharp.Breeze/Query/DataType.cs:13-29 | afterwards all fourteen are registered under their (distinct) names, and the thirteen typed ones under their types; Binary has no type entry |
| BreezeQueryDataType.FromNameOfStandard | CoreSharp.Breeze/Query/DataType.cs:54-61 | FromName(x.GetName()) == x for each predefined x, and FromType of x's type or of its Nullable<T> is x |
| BreezeQueryDataType.CoerceData | CoreSharp.Breeze/Query/DataType.cs:66-92 | the method (with its list loop) returns exactly `Coerced`: unchanged value, a list coerced item by item into List<T>, or one of the four leaf conversions, in the source's order |
| BreezeQueryDataType.CoerceKeepsMatchingValue | CoreSharp.Breeze/Query/DataType.cs:68-69 | null, a missing data type, or a value already of the data type's type comes back unchanged |
| BreezeQueryDataType.CoerceListPointwise | CoreSharp.Breeze/Query/DataType.cs:70-78 | a coerced list has the data type's List<T> type and the same length, item i is item i coerced, and it fails exactly when an item fails |
| BreezeMetadata.FirstNamed | CoreSharp.Breeze/Internal/BreezeMetadataValidators.cs:191 | finds nothing exactly when no validator has the name; otherwise the first validator of the list with that name |
| BreezeMetadata.AddOrUpdateReplacesByName | CoreSharp.Breeze/Internal/BreezeMetadataValidators.cs:273-283 | AddOrUpdate succeeds exactly when at most one validator has the name (SingleOrDefault throws otherwise); the result is the other validators in order followed by the new one, so exactly one has the name |
| BreezeMetadata.AddOrUpdateKeepsOtherNames | CoreSharp.Breeze/Internal/BreezeMetadataValidators.cs:273-283 | the number of validators of every other name is unchanged |
| BreezeMetadata.Pluralize | CoreSharp.Breeze/Internal/BreezeMetadataValidators.cs:205-217 | "" stays ""; otherwise the result ends in 's', keeps all but the last character, and is two longer for a trailing 'y', which becomes "ies", and one longer otherwise, the whole word kept |
| BreezeMetadata.PluralizeExamples | CoreSharp.Breeze/Internal/BreezeMetadataValidators.cs:212-215 | Category gives Categories, Order gives Orders |
| BreezeMetadata.ToReplace | CoreSharp.Breeze/Internal/BreezeMetadataValidators.cs:221-224 | the snapshot holds only "required" and "maxLength" validators |
| BreezeMetadata.Kept | CoreSharp.Breeze/Internal/BreezeMetadataValidators.cs:224-226 | the untouched part holds no "required" or "maxLength" validator |
| BreezeMetadata.ConvertCharacterized | CoreSharp.Breeze/Internal/BreezeMetadataValidators.cs:219-268 | the remove-and-append loop leaves the other validators in order followed by the replacements in snapshot order, reports the replacements' names, and makes the property nullable exactly when it was already or an overridden "required" was present |
| BreezeMetadata.ConvertRemovesReplaced | CoreSharp.Breeze/Internal/BreezeMetadataValidators.cs:221-226 | afterwards no "required" or "maxLength" validator remains, the other validators are the unchanged prefix, and every added validator's name is in the converted list |
| BreezeMetadata.ConvertNothingToReplace | CoreSharp.Breeze/Internal/BreezeMetadataValidators.cs:224 | a property without "required" and "maxLength" is left as it is and nothing is reported |
| BreezeMetadata.ConvertNullableOverride | CoreSharp.Breeze/Internal/BreezeMetadataValidators.cs:230-236 | a "required" on an overridden property makes it nullable and reports "fvNotNull" and "fvNotEmpty", and no validator of either name is added |
| BreezeMetadata.ConvertRequired | CoreSharp.Breeze/Internal/BreezeMetadataValidators.cs:240-258 | otherwise a foreign-key property gets "fvNotEmpty" with its type's default value and no added "fvNotNull", any other gets "fvNotNull" and no added "fvNotEmpty"; the name added is the one reported and nullability is unchanged |
| BreezeMetadata.ConvertMaxLength | CoreSharp.Breeze/Internal/BreezeMetadataValidators.cs:259-263 | a "maxLength" becomes "fvLength" with min 0 and max the property's MaxLength, and "fvLength" is reported |
| BreezeMetadata.ApplyRulesNoneAdmitted | CoreSharp.Breeze/Internal/BreezeMetadataValidators.cs:143-157 | when no rule passes the filter the validator list is unchanged |
| BreezeMetadata.ApplyRulesSound | CoreSharp.Breeze/Internal/BreezeMetadataValidators.cs:143-157 | every validator afterwards was there before or is built from a rule of this property, in the default rule sets or none, with a non-empty name not already converted |
| BreezeMetadata.ApplyRulesComplete | CoreSharp.Breeze/Internal/BreezeMetadataValidators.cs:146-157 | every such admitted rule's name is held by exactly one validator afterwards |
| BreezeMetadata.ApplyRulesKeepsSingle | CoreSharp.Breeze/Internal/BreezeMetadataValidators.cs:146-157 | a name held by exactly one validator keeps exactly one through the rule loop |
| BreezeMetadata.ApplyRulesSucceeds | CoreSharp.Breeze/Internal/BreezeMetadataValidators.cs:146-157 | the rule loop cannot throw when no admitted name is already held by two validators |
| BreezeMetadata.ApplyRulesKeepsOthers | CoreSharp.Breeze/Internal/BreezeMetadataValidators.cs:146-157 | after a successful rule loop the validators whose name no admitted rule carries are those of the list before, in the same order |
| BreezeMetadata.ApplyRulesKeepsName | CoreSharp.Breeze/Internal/BreezeMetadataValidators.cs:146-157 | the validators of a name that no admitted rule carries are left as they were, in order |
| BreezeMetadata.ApplyRulesLastWins | CoreSharp.Breeze/Internal/BreezeMetadataValidators.cs:146-157 | after a successful rule loop, the validators named as the last admitted rule of a name are exactly the one built from that rule |
| BreezeMetadata.ApplyRulesOutcome | CoreSharp.Breeze/Internal/BreezeMetadataValidators.cs:146-157 | the rule loop throws exactly when some admitted rule's name is held by two or more validators of the list before it, and then with SingleOrDefault's exception |
| BreezeMetadata.FindModelType | CoreSharp.Breeze/Internal/BreezeMetadataValidators.cs:119-124 | finds the first class, in the order the types are listed, implementing IEntity or IClientModel with the entity's short name, and finds nothing only when there is none |
| BreezeMetadata.SetupPropertyKeepsIdentity | CoreSharp.Breeze/Internal/BreezeMetadataValidators.cs:137-158 | setting up a property changes only its nullability and validators, and never makes it non-nullable |
| BreezeMetadata.SetupEntityKeepsShape | CoreSharp.Breeze/Internal/BreezeMetadataValidators.cs:122-161 | the first loop keeps each entity's header, navigation properties, and property count and names |
| BreezeMetadata.SetupValidatorsKeepsShape | CoreSharp.Breeze/Internal/BreezeMetadataValidators.cs:112-203 | SetupValidators keeps the resource map and the entity list, each entity's header and its property names |
| BreezeMetadata.RemoveFirstNamedSplits | CoreSharp.Breeze/Internal/BreezeMetadataValidators.cs:191-195 | FirstOrDefault-then-Remove cuts out exactly the first validator of that name |
| BreezeMetadata.RemoveFirstNamedCount | CoreSharp.Breeze/Internal/BreezeMetadataValidators.cs:191-195 | it removes one validator of that name if there is any, and none of another name |
| BreezeMetadata.RelaxEntityAudit | CoreSharp.Breeze/Internal/BreezeMetadataValidators.cs:175-200 | for an entity passing the check, each of the six audit properties becomes nullable and its validators become the old list with its first "required" cut out (unchanged when there is none), and other properties are untouched; an entity failing the check is untouched |
| BreezeMetadata.VersionedCheckMissesClasses | CoreSharp.Breeze/Internal/BreezeMetadataValidators.cs:182 | with the check written as `type.IsAssignableFrom(IVersionedEntity)`, a resolved class other than System.Object is never relaxed |
| BreezeMetadata.ClientModelTypes | CoreSharp.Breeze/Internal/BreezeMetadataValidators.cs:56-57 | exactly the concrete classes implementing IClientModel |
| BreezeMetadata.DeclaredProperties | CoreSharp.Breeze/Internal/BreezeMetadataValidators.cs:63-64 | exactly the properties other than "Id" declared by the type itself |
| BreezeMetadata.DeclaredPropertiesInOrder | CoreSharp.Breeze/Internal/BreezeMetadataValidators.cs:63-64 | the declared properties are placed in the type's property list at strictly increasing positions, and every position holding a property the type declares, other than "Id", is among them: the `Where` keeps each such property once, in `GetProperties` order |
| BreezeMetadata.ClientEntityShape | CoreSharp.Breeze/Internal/BreezeMetadataValidators.cs:61-102 | a client model's entity type is unmapped, key-generated, named after the class with the pluralised resource name; it has 1 + (number of declared properties) data properties: the Int64 "Id" key with an "integer" validator, then at position j the property built from declared property j - 1, in `GetProperties` order, each non-key, validator-free, named as the property, nullable exactly for reference types and Nullable<T> |
| BreezeMetadata.ClientEntityProvenance | CoreSharp.Breeze/Internal/BreezeMetadataValidators.cs:61-102 | every property after the key comes from a property the type declares, and every declared property other than "Id" appears after the key |
| BreezeMetadata.AddClientModelsAppends | CoreSharp.Breeze/Internal/BreezeMetadataValidators.cs:59-107 | the loop appends one entity type per client model class, in order, after the existing ones |
| BreezeMetadata.AddClientModelsResourceEntry | CoreSharp.Breeze/Internal/BreezeMetadataValidators.cs:106 | each client model's plural maps to "ShortName:#Namespace" unless a later model has the same plural |
| BreezeMetadata.AddClientModelsResourceOthers | CoreSharp.Breeze/Internal/BreezeMetadataValidators.cs:106 | resource-map entries that no client model pluralises to are unchanged |
| BreezeMetadataValidators.AddOrUpdate | CoreSharp.Breeze/Internal/BreezeMetadataValidators.cs:273-283 | the in-place AddOrUpdate leaves exactly `AddedOrUpdated` of the old list, or throws with the list unchanged |
| BreezeMetadataValidators.MetadataValidators.constructor | CoreSharp.Breeze/Internal/BreezeMetadataValidators.cs:21-22 | the override set starts empty and unlocked |
| BreezeMetadataValidators.MetadataValidators.AddNullableProperties | CoreSharp.Breeze/Internal/BreezeMetadataValidators.cs:29-40 | once locked it throws the "locked" message and leaves the set unchanged; before that it adds every given name |
| BreezeMetadataValidators.MetadataValidators.Handle | CoreSharp.Breeze/Internal/BreezeMetadataValidators.cs:42-48 | locks the override set, then leaves the schema as client models followed by validator setup, or throws what that throws |
| BreezeMetadataValidators.MetadataValidators.NewClientEntity | CoreSharp.Breeze/Internal/BreezeMetadataValidators.cs:61-102 | builds a fresh entity type with fresh, distinct properties whose value is `ClientEntity` |
| BreezeMetadataValidators.MetadataValidators.AddEntityType | CoreSharp.Breeze/Internal/BreezeMetadataValidators.cs:104-106 | appends the entity type and sets its resource-map entry, keeping every other entity's properties disjoint |
| BreezeMetadataValidators.MetadataValidators.AddClientModelType | CoreSharp.Breeze/Internal/BreezeMetadataValidators.cs:61-106 | one iteration of the client-model loop leaves the schema as `AddClientModel` says, keeping every entity's properties disjoint and adding only fresh objects |
| BreezeMetadataValidators.MetadataValidators.SetupClientModels | CoreSharp.Breeze/Internal/BreezeMetadataValidators.cs:50-110 | the schema afterwards is `SetupClientModelsOn` of the schema before, and its property objects are the old ones plus fresh ones |
| BreezeMetadataValidators.MetadataValidators.ConvertToFluentValidators | CoreSharp.Breeze/Internal/BreezeMetadataValidators.cs:219-268 | the in-place loop leaves the property's validators and nullability, and returns the converted names, exactly as `Convert` |
| BreezeMetadataValidators.MetadataValidators.SetupPropertyValidators | CoreSharp.Breeze/Internal/BreezeMetadataValidators.cs:137-158 | conversion then the rule loop leave the property as `SetupProperty` says, or throw its exception |
| BreezeMetadataValidators.MetadataValidators.SetupEntityValidators | CoreSharp.Breeze/Internal/BreezeMetadataValidators.cs:122-161 | the property loop of one entity leaves it as `SetupEntity` says, or throws the first property's exception |
| BreezeMetadataValidators.MetadataValidators.RelaxVersionedEntity | CoreSharp.Breeze/Internal/BreezeMetadataValidators.cs:180-199 | the relaxation loop of one entity leaves it as `RelaxEntity` says |
| BreezeMetadataValidators.MetadataValidators.RelaxVersionedEntities | CoreSharp.Breeze/Internal/BreezeMetadataValidators.cs:175-200 | the relaxation loop over all entity types leaves them as `RelaxEntities` says |
| BreezeMetadataValidators.MetadataValidators.SetupValidators | CoreSharp.Breeze/Internal/BreezeMetadataValidators.cs:112-203 | the two entity loops leave the schema as `SetupValidatorsOn` says, or throw the first entity's exception |

## Left out

- Reflection is not modelled: `AppDomain.GetAssemblies`, `GetTypes`,
  `GetProperties`, `Type.GetType`, `IsAssignableFrom` and
  `PropertyInfo.GetDefaultValue`. Their answers are the fields of
  `BreezeMetadata.Environment` and the flags of `TypeDescriptor`.
- `FluentValidators.GetName`, `GetParamaters`, `MergeLeft` and
  `BreezeTypeHelper.GetDataType` are code outside this model. They are
  uninterpreted functions. A validator's parameter bag is the
  FluentValidation validator it was computed from.
- The validator factory, FluentValidation's rule objects, and the
  grouping of property rules by `ToLookup` are not modelled. The rules
  are a sequence, filtered with the lookup's own condition, in the same
  order.
- Event dispatch, and concurrent access to the static set and flag, are
  not modelled. The static state is one `MetadataValidators` object.
- Structural types other than entity types (complex types) are not part
  of the schema model. The handler skips them.
- A null `Validators` list or a null `ForeignKeyNamesOnServer` list is
  modelled as an empty list.
- `List<T>.Remove` compares validators by reference; the model compares
  them by value. The two agree here because every removal targets the
  first validator of its name. The conversion removes the validators of
  its snapshot in list order, so each is the first remaining one of its
  name (`DropNext`). In `AddOrUpdate`, `SingleOrDefault` has already
  ensured that at most one validator has the name. The audit relaxation
  removes the result of `FirstOrDefault`. Value equality would not
  suffice in general: in [A, X, A'] with A equal to A', removing A' by
  reference differs from removing the first equal value.
- `BreezeMetadataValidators.MetadataValidators.ConvertToFluentValidators`:
  the `switch` default, which would add a null validator, cannot be
  reached because the snapshot holds only "required" and "maxLength". The
  model has no such branch.
- `BreezeMetadataValidators.MetadataValidators.SetupValidators`: when it
  throws, the contract gives the exception but not which properties were
  already changed.
- `BreezeMetadataValidators.MetadataValidators.Handle`: when it throws,
  the contract gives the exception but not the partly updated schema.
- `CoerceData`'s library conversions are function parameters: `Guid.Parse`,
  `XmlConvert.ToTimeSpan`, `Convert.ChangeType`, and the DateTime to
  DateTimeOffset cast. They are foreign code, and floating point would
  enter through Double and Single.
- `BreezeQueryDataType.CoerceData`: `IList.Add`'s runtime check that an
  item fits the new `List<T>` is not modelled, so an item coerced to a
  different type is accepted.
- `TypeFns.GetNonNullableType` is modelled as stripping `Nullable<T>`
  only.
- The FluentNHibernate instance calls (`ForeignKey`, `Index`, `Unique`,
  `UniqueKey`) are modelled as returned values.
- PgForeignKeyName.GetFkName: C# `Length` and `Substring` count UTF-16
  code units, while a Dafny `char` is a Unicode scalar value. For names
  outside the Basic Multilingual Plane the model's 63 limit and its cut
  points count characters, not code units, and it never splits a
  surrogate pair as the C# can. PostgreSQL's own limit is in bytes; the
  C# counts code units, and the model counts characters.
- BreezeMetadataValidators.MetadataValidators.Handle: `Valid()` requires
  each `DataProperty` object to appear once across the schema. A property
  object shared between entity types, or listed twice in one, would be
  converted twice by the C#, the second time with an empty `converted`
  list. The model does not cover that aliasing.
- BreezeQueryDataType.DataTypeTable.FromName: the exception texts are
  those of the current .NET runtime (the key named in the
  KeyNotFoundException message, a parameterless ArgumentNullException
  from `MakeGenericType`). Older .NET Framework runtimes word them
  differently, and the model fixes one wording.
- CoreSharp.GraphQL/Extensions/TypeExtensions.cs,
  CoreSharp.GraphQL.AspNetCore/GraphQLQuery.cs,
  CoreSharp.Common/Attributes/AuthorizeAttribute.cs and the validation
  test model are not part of this model. They are reflection-driven type
  resolution, a data-transfer object and attribute declarations, with no
  logic of their own to prove.
