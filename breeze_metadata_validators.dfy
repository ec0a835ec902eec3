/**
 * The Breeze metadata objects as the metadata-built handler mutates them in
 * place, and the handler itself. Every method is proved against the
 * value-level functions of module BreezeMetadata; the static state of the C#
 * handler (the override set and its lock) is one MetadataValidators object.
 */
module BreezeMetadataValidators {

  import opened Wrappers
  import opened ClrTypes
  import opened BreezeMetadata

  /** A Breeze data property: the handler changes only its nullability and its validators. */
  class DataProperty {
    const nameOnServer: string
    const dataType: string
    const isPartOfKey: bool
    const maxLength: Option<int>
    const propertyType: Option<ClrType>
    var isNullable: bool
    var validators: seq<Validator>

    constructor (v: DataPropertyValue)
      ensures View() == v
    {
      nameOnServer := v.nameOnServer;
      dataType := v.dataType;
      isPartOfKey := v.isPartOfKey;
      maxLength := v.maxLength;
      propertyType := v.propertyType;
      isNullable := v.isNullable;
      validators := v.validators;
    }

    function View(): DataPropertyValue
      reads this
    {
      DataPropertyValue(nameOnServer, dataType, isPartOfKey, maxLength, propertyType, isNullable, validators)
    }
  }

  /** A Breeze entity type and its data properties. */
  class EntityType {
    const shortName: string
    const namespace: string
    const autoGeneratedKeyType: KeyGeneration
    const defaultResourceName: string
    const isUnmapped: bool
    const navigationProperties: seq<NavigationProperty>
    const dataProperties: seq<DataProperty>

    constructor (shortName: string, namespace: string, autoGeneratedKeyType: KeyGeneration,
                 defaultResourceName: string, isUnmapped: bool,
                 navigationProperties: seq<NavigationProperty>, dataProperties: seq<DataProperty>)
      ensures this.shortName == shortName && this.namespace == namespace
      ensures this.autoGeneratedKeyType == autoGeneratedKeyType
      ensures this.defaultResourceName == defaultResourceName && this.isUnmapped == isUnmapped
      ensures this.navigationProperties == navigationProperties && this.dataProperties == dataProperties
    {
      this.shortName := shortName;
      this.namespace := namespace;
      this.autoGeneratedKeyType := autoGeneratedKeyType;
      this.defaultResourceName := defaultResourceName;
      this.isUnmapped := isUnmapped;
      this.navigationProperties := navigationProperties;
      this.dataProperties := dataProperties;
    }

    ghost function Props(): set<DataProperty>
    {
      set p | p in dataProperties
    }

    /** No data property object appears twice. */
    ghost predicate Valid()
    {
      forall i, j :: 0 <= i < j < |dataProperties| ==> dataProperties[i] != dataProperties[j]
    }

    ghost function View(): EntityValue
      reads Props()
    {
      EntityValue(shortName, namespace, autoGeneratedKeyType, defaultResourceName, isUnmapped, navigationProperties,
                  seq(|dataProperties|, j requires 0 <= j < |dataProperties| reads Props() => dataProperties[j].View()))
    }
  }

  /** The metadata schema the handler receives with the event. */
  class MetadataSchema {
    var structuralTypes: seq<EntityType>
    var resourceEntityTypeMap: map<string, string>

    ghost function AllProps(): set<DataProperty>
      reads this
    {
      set e, p | e in structuralTypes && p in e.dataProperties :: p
    }

    /** Every entity's properties are distinct objects, and no two entities share one. */
    ghost predicate Valid()
      reads this
    {
      (forall e :: e in structuralTypes ==> e.Valid())
      && forall i, j :: 0 <= i < j < |structuralTypes| ==> structuralTypes[i].Props() !! structuralTypes[j].Props()
    }

    ghost function View(): SchemaValue
      reads this, AllProps()
    {
      SchemaValue(seq(|structuralTypes|, i requires 0 <= i < |structuralTypes| reads this, AllProps() => structuralTypes[i].View()),
                  resourceEntityTypeMap)
    }
  }

  /** ValidatorsExtensions.AddOrUpdate on the validator list of a data property. */
  method AddOrUpdate(owner: DataProperty, validator: Validator) returns (r: Outcome)
    modifies owner
    ensures owner.isNullable == old(owner.isNullable)
    ensures r.Pass? <==> AddedOrUpdated(old(owner.validators), validator).Success?
    ensures r.Pass? ==> owner.validators == AddedOrUpdated(old(owner.validators), validator).value
    ensures r.Fail? ==> r.error == AddedOrUpdated(old(owner.validators), validator).error
                        && owner.validators == old(owner.validators)
  {
    var existingValidator := SingleOrDefault(owner.validators, validator.name);
    if existingValidator.Failure? {
      return Fail(existingValidator.error);
    }
    if existingValidator.value.Some? {
      owner.validators := Remove(owner.validators, existingValidator.value.value);
    }
    owner.validators := owner.validators + [validator];
    r := Pass;
  }

  const LockedMessage := "Cannot add nullable properties to BreezeMetadataConfigurator as it is locked. "
                         + "Hint: Call AddNullableProperties method before the BreezeMetadataBuiltEvent event is triggered."

  /** The handler's static state: the nullable-override names and the lock that freezes them. */
  class MetadataValidators {
    var nullableProperties: set<string>
    var configured: bool

    constructor ()
      ensures nullableProperties == {} && !configured
    {
      nullableProperties := {};
      configured := false;
    }

    /** Adds names to the override set, or fails once the handler has run. */
    method AddNullableProperties(propNames: seq<string>) returns (r: Outcome)
      modifies this
      ensures configured == old(configured)
      ensures old(configured) ==> r == Fail(LockedMessage) && nullableProperties == old(nullableProperties)
      ensures !old(configured) ==> r == Pass && nullableProperties == old(nullableProperties) + set n | n in propNames
    {
      if configured {
        return Fail(LockedMessage);
      }
      for i := 0 to |propNames|
        invariant configured == old(configured)
        invariant nullableProperties == old(nullableProperties) + set k | 0 <= k < i :: propNames[k]
      {
        nullableProperties := nullableProperties + {propNames[i]};
      }
      assert (set k | 0 <= k < |propNames| :: propNames[k]) == set n | n in propNames;
      r := Pass;
    }

    /** The metadata-built event: lock the override set, add client models, then set up validators. */
    method Handle(schema: MetadataSchema, env: Environment) returns (r: Outcome)
      requires schema.Valid()
      modifies this, schema, schema.AllProps()
      ensures configured && nullableProperties == old(nullableProperties)
      ensures r.Pass? <==> HandleOn(old(schema.View()), nullableProperties, env).Success?
      ensures r.Pass? ==> schema.View() == HandleOn(old(schema.View()), nullableProperties, env).value
      ensures r.Fail? ==> r.error == HandleOn(old(schema.View()), nullableProperties, env).error
    {
      configured := true;
      SetupClientModels(schema, env);
      r := SetupValidators(schema, env);
    }

    /** Builds the unmapped entity type of one client model class. */
    static method NewClientEntity(t: TypeDescriptor, env: Environment) returns (entityType: EntityType)
      ensures fresh(entityType) && entityType.Valid()
      ensures forall p :: p in entityType.dataProperties ==> fresh(p)
      ensures entityType.View() == ClientEntity(t, env)
    {
      var id := new DataProperty(IdProperty);
      var ps := [id];
      var properties := DeclaredProperties(t.properties, FullName(t));
      for i := 0 to |properties|
        invariant |ps| == i + 1
        invariant forall j, k :: 0 <= j < k < |ps| ==> ps[j] != ps[k]
        invariant forall p :: p in ps ==> fresh(p)
        invariant forall j :: 0 <= j < |ps| ==> ps[j].View() == ([IdProperty] + ClientProperties(properties[..i], env))[j]
      {
        var dp := new DataProperty(ClientProperty(properties[i], env));
        ps := ps + [dp];
      }
      entityType := new EntityType(t.name, t.namespace, KeyGenerator, Pluralize(t.name), true, [], ps);
      assert properties[..|properties|] == properties;
    }

    /** Appends an entity type to the schema and maps its resource name to it. */
    static method AddEntityType(schema: MetadataSchema, entityType: EntityType)
      requires schema.Valid() && entityType.Valid()
      requires forall p :: p in entityType.dataProperties ==> p !in schema.AllProps()
      modifies schema
      ensures schema.Valid()
      ensures schema.AllProps() == old(schema.AllProps()) + entityType.Props()
      ensures schema.View() == SchemaValue(
        old(schema.View()).structuralTypes + [entityType.View()],
        old(schema.resourceEntityTypeMap)[entityType.defaultResourceName := entityType.shortName + ":#" + entityType.namespace])
    {
      ghost var before := schema.View();
      schema.structuralTypes := schema.structuralTypes + [entityType];
      schema.resourceEntityTypeMap :=
        schema.resourceEntityTypeMap[entityType.defaultResourceName := entityType.shortName + ":#" + entityType.namespace];
      assert forall k :: 0 <= k < |schema.structuralTypes| ==>
        schema.structuralTypes[k].View() == (before.structuralTypes + [entityType.View()])[k];
    }

    /** One iteration of SetupClientModels: build the client model's entity type and add it. */
    static method AddClientModelType(schema: MetadataSchema, t: TypeDescriptor, env: Environment)
      requires schema.Valid()
      modifies schema
      ensures schema.Valid()
      ensures schema.View() == AddClientModel(old(schema.View()), t, env)
      ensures forall p :: p in schema.AllProps() ==> p in old(schema.AllProps()) || fresh(p)
    {
      ghost var before := schema.View();
      var entityType := NewClientEntity(t, env);
      assert forall k :: 0 <= k < |schema.structuralTypes| ==> schema.structuralTypes[k].View() == before.structuralTypes[k];
      assert schema.View() == before;
      AddEntityType(schema, entityType);
    }

    /** Adds an entity type and a resource-name entry for every client model class. */
    static method SetupClientModels(schema: MetadataSchema, env: Environment)
      requires schema.Valid()
      modifies schema
      ensures schema.Valid()
      ensures schema.View() == SetupClientModelsOn(old(schema.View()), env)
      ensures forall p :: p in schema.AllProps() ==> p in old(schema.AllProps()) || fresh(p)
    {
      var clientModelTypes := ClientModelTypes(env.types);
      for i := 0 to |clientModelTypes|
        invariant schema.Valid()
        invariant AddClientModels(schema.View(), clientModelTypes[i..], env) == SetupClientModelsOn(old(schema.View()), env)
        invariant forall p :: p in schema.AllProps() ==> p in old(schema.AllProps()) || fresh(p)
      {
        AddClientModelType(schema, clientModelTypes[i], env);
        assert clientModelTypes[i..][1..] == clientModelTypes[i + 1..];
      }
    }

    /** Converts the server's "required" and "maxLength" validators of one property; returns the converted names. */
    method ConvertToFluentValidators(dataProp: DataProperty, navs: seq<NavigationProperty>, env: Environment)
      returns (convertedVals: seq<string>)
      modifies dataProp
      ensures var c := Convert(old(dataProp.validators), old(dataProp.isNullable),
                               ContextOf(old(dataProp.View()), navs, nullableProperties, env));
        dataProp.validators == c.validators && dataProp.isNullable == c.isNullable && convertedVals == c.converted
    {
      ghost var ctx := ContextOf(dataProp.View(), navs, nullableProperties, env);
      var toReplace := ToReplace(dataProp.validators);
      convertedVals := [];
      for i := 0 to |toReplace|
        invariant ConvertFrom(Conversion(dataProp.validators, convertedVals, dataProp.isNullable), toReplace[i..], ctx)
               == Convert(old(dataProp.validators), old(dataProp.isNullable), ctx)
      {
        var validator := toReplace[i];
        ghost var next := Step(Conversion(dataProp.validators, convertedVals, dataProp.isNullable), validator, ctx);
        assert toReplace[i..][0] == validator && toReplace[i..][1..] == toReplace[i + 1..];
        dataProp.validators := Remove(dataProp.validators, validator);
        var name := validator.name;
        if name == "required" && dataProp.nameOnServer in nullableProperties {
          convertedVals := convertedVals + ["fvNotNull", "fvNotEmpty"];
          dataProp.isNullable := true;
          assert Conversion(dataProp.validators, convertedVals, dataProp.isNullable) == next;
          continue;
        }
        var newValidator: Validator;
        if name == "required" {
          if IsForeignKey(dataProp.nameOnServer, navs) {
            newValidator := Validator("fvNotEmpty", FluentParameters(NotEmptyValidator(TypeDefault(dataProp.propertyType, env))));
            convertedVals := convertedVals + ["fvNotEmpty"];
          } else {
            newValidator := Validator("fvNotNull", FluentParameters(NotNullValidator));
            convertedVals := convertedVals + ["fvNotNull"];
          }
        } else {
          // the snapshot holds only "required" and "maxLength" validators
          newValidator := Validator("fvLength", FluentParameters(LengthValidator(0, dataProp.maxLength)));
          convertedVals := convertedVals + ["fvLength"];
        }
        dataProp.validators := dataProp.validators + [newValidator];
        assert Conversion(dataProp.validators, convertedVals, dataProp.isNullable) == next;
      }
    }

    /** The per-property body of SetupValidators' first loop. */
    method SetupPropertyValidators(dataProperty: DataProperty, navs: seq<NavigationProperty>,
                                   rules: seq<ValidationRule>, env: Environment) returns (r: Outcome)
      modifies dataProperty
      ensures r.Pass? <==> SetupProperty(old(dataProperty.View()), navs, rules, nullableProperties, env).Success?
      ensures r.Pass? ==> dataProperty.View() == SetupProperty(old(dataProperty.View()), navs, rules, nullableProperties, env).value
      ensures r.Fail? ==> r.error == SetupProperty(old(dataProperty.View()), navs, rules, nullableProperties, env).error
    {
      ghost var spec := SetupProperty(dataProperty.View(), navs, rules, nullableProperties, env);
      ghost var c := Convert(dataProperty.validators, dataProperty.isNullable,
                             ContextOf(dataProperty.View(), navs, nullableProperties, env));
      var convertedVals := ConvertToFluentValidators(dataProperty, navs, env);
      ghost var target := ApplyRules(c.validators, rules, dataProperty.nameOnServer, convertedVals, env);
      for k := 0 to |rules|
        invariant dataProperty.isNullable == c.isNullable
        invariant ApplyRules(dataProperty.validators, rules[k..], dataProperty.nameOnServer, convertedVals, env) == target
      {
        var rule := rules[k];
        assert rules[k..][0] == rule && rules[k..][1..] == rules[k + 1..];
        if Admitted(rule, dataProperty.nameOnServer, convertedVals, env) {
          r := AddOrUpdate(dataProperty, RuleValidator(rule, env));
          if r.Fail? {
            return;
          }
        }
      }
      r := Pass;
      assert rules[|rules|..] == [];
    }

    /** The per-entity body of SetupValidators' first loop. */
    method SetupEntityValidators(entityType: EntityType, env: Environment) returns (r: Outcome)
      requires entityType.Valid()
      modifies entityType.Props()
      ensures r.Pass? <==> SetupEntity(old(entityType.View()), nullableProperties, env).Success?
      ensures r.Pass? ==> entityType.View() == SetupEntity(old(entityType.View()), nullableProperties, env).value
      ensures r.Fail? ==> r.error == SetupEntity(old(entityType.View()), nullableProperties, env).error
    {
      var entityModelType := FindModelType(env.types, entityType.shortName);
      if entityModelType.None? {
        return Pass;
      }
      var validationRules := env.rulesFor(entityModelType.value);
      if validationRules.None? {
        return Pass;
      }
      var ps := entityType.dataProperties;
      ghost var olds := entityType.View().dataProperties;
      ghost var results := PropertyResults(olds, entityType.navigationProperties, validationRules.value, nullableProperties, env);
      for j := 0 to |ps|
        invariant forall k :: 0 <= k < j ==> results[k].Success? && ps[k].View() == results[k].value
        invariant forall k :: j <= k < |ps| ==> ps[k].View() == olds[k]
      {
        label before:
        r := SetupPropertyValidators(ps[j], entityType.navigationProperties, validationRules.value, env);
        forall k | 0 <= k < |ps| && k != j
          ensures ps[k].View() == old@before(ps[k].View())
        {
          assert ps[k] != ps[j];
        }
        if r.Fail? {
          CollectFirstFailure(results, j);
          return;
        }
      }
      CollectSuccess(results);
      r := Pass;
      assert entityType.View().dataProperties == Collect(results).value;
    }

    /** The per-entity body of SetupValidators' second loop: relax the audit properties. */
    static method RelaxVersionedEntity(entityType: EntityType, env: Environment)
      requires entityType.Valid()
      modifies entityType.Props()
      ensures entityType.View() == RelaxEntity(old(entityType.View()), env)
    {
      var resolved := env.resolve(entityType.namespace + "." + entityType.shortName);
      if resolved.Some? && resolved.value.assignableFromVersionedEntity {
        var ps := entityType.dataProperties;
        for j := 0 to |ps|
          invariant forall k :: 0 <= k < j ==> ps[k].View() == Relaxed(old(ps[k].View()))
          invariant forall k :: j <= k < |ps| ==> ps[k].View() == old(ps[k].View())
        {
          label before:
          var property := ps[j];
          if property.nameOnServer in AuditProperties {
            property.isNullable := true;
            var requiredValidator := FirstNamed(property.validators, "required");
            if requiredValidator.Some? {
              property.validators := Remove(property.validators, requiredValidator.value);
            }
          }
          forall k | 0 <= k < |ps| && k != j
            ensures ps[k].View() == old@before(ps[k].View())
          {
            assert ps[k] != ps[j];
          }
        }
        assert entityType.View() == RelaxEntity(old(entityType.View()), env);
      }
    }

    /** Applies the fluent rules of every entity type, then relaxes the versioned ones. */
    method SetupValidators(schema: MetadataSchema, env: Environment) returns (r: Outcome)
      requires schema.Valid()
      modifies schema.AllProps()
      ensures r.Pass? <==> SetupValidatorsOn(old(schema.View()), nullableProperties, env).Success?
      ensures r.Pass? ==> schema.View() == SetupValidatorsOn(old(schema.View()), nullableProperties, env).value
      ensures r.Fail? ==> r.error == SetupValidatorsOn(old(schema.View()), nullableProperties, env).error
    {
      var entities := schema.structuralTypes;
      ghost var olds := schema.View().structuralTypes;
      ghost var results := EntityResults(olds, nullableProperties, env);
      for i := 0 to |entities|
        invariant forall k :: 0 <= k < i ==> results[k].Success? && entities[k].View() == results[k].value
        invariant forall k :: i <= k < |entities| ==> entities[k].View() == olds[k]
      {
        label before:
        r := SetupEntityValidators(entities[i], env);
        forall k | 0 <= k < |entities| && k != i
          ensures entities[k].View() == old@before(entities[k].View())
        {
          assert entities[k].Props() !! entities[i].Props();
        }
        if r.Fail? {
          CollectFirstFailure(results, i);
          return;
        }
      }
      CollectSuccess(results);
      assert schema.View().structuralTypes == Collect(results).value;
      RelaxVersionedEntities(schema, env);
      r := Pass;
    }

    /** SetupValidators' second loop: relax the audit properties of every versioned entity type. */
    static method RelaxVersionedEntities(schema: MetadataSchema, env: Environment)
      requires schema.Valid()
      modifies schema.AllProps()
      ensures schema.View().structuralTypes == RelaxEntities(old(schema.View()).structuralTypes, env)
    {
      var entities := schema.structuralTypes;
      ghost var es := schema.View().structuralTypes;
      for i := 0 to |entities|
        invariant forall k :: 0 <= k < i ==> entities[k].View() == RelaxEntity(es[k], env)
        invariant forall k :: i <= k < |entities| ==> entities[k].View() == es[k]
      {
        label before:
        RelaxVersionedEntity(entities[i], env);
        forall k | 0 <= k < |entities| && k != i
          ensures entities[k].View() == old@before(entities[k].View())
        {
          assert entities[k].Props() !! entities[i].Props();
        }
      }
      assert schema.View().structuralTypes == RelaxEntities(es, env);
    }
  }
}
