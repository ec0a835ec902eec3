/**
 * Value-level model of the Breeze metadata schema and of what
 * BreezeMetadataValidators does to it when the metadata-built event fires.
 * The imperative methods in module BreezeMetadataValidators are proved
 * against the functions defined here.
 */
module BreezeMetadata {

  import opened Wrappers
  import opened ClrTypes

  // ---------------------------------------------------------------- validators

  /** The default value of a CLR type: null for reference types, default(T) otherwise. */
  datatype Literal = NullLiteral | LiteralOf(text: string)

  /** A FluentValidation property validator, as far as the metadata cares about it. */
  datatype FluentValidator =
    | NotNullValidator
    | NotEmptyValidator(defaultValue: Literal)
    | LengthValidator(min: int, max: Option<int>)
    | OtherValidator(descriptor: string)

  /**
   * The parameter bag of a Breeze validator: none, the one FluentValidators
   * derives from a FluentValidation validator, or one the server metadata
   * builder produced (opaque here).
   */
  datatype Parameters =
    | NoParameters
    | FluentParameters(validator: FluentValidator)
    | ServerParameters(descriptor: string)

  /** A Breeze client validator: a name and its parameters. */
  datatype Validator = Validator(name: string, parameters: Parameters)

  /** How many validators in the list carry the given name. */
  function CountNamed(vs: seq<Validator>, name: string): nat
  {
    if vs == [] then 0 else (if vs[0].name == name then 1 else 0) + CountNamed(vs[1..], name)
  }

  /** The validators whose name differs from the given one, in their order. */
  function WithoutName(vs: seq<Validator>, name: string): seq<Validator>
  {
    if vs == [] then []
    else if vs[0].name == name then WithoutName(vs[1..], name)
    else [vs[0]] + WithoutName(vs[1..], name)
  }

  /** List<T>.Remove: drops the first element equal to x, if there is one. */
  function Remove(vs: seq<Validator>, x: Validator): seq<Validator>
  {
    if vs == [] then []
    else if vs[0] == x then vs[1..]
    else [vs[0]] + Remove(vs[1..], x)
  }

  /** FirstOrDefault(v => v.Name == name): the first validator with that name. */
  function FirstNamed(vs: seq<Validator>, name: string): (r: Option<Validator>)
    ensures r.None? <==> CountNamed(vs, name) == 0
    ensures r.Some? ==> r.value in vs && r.value.name == name
    ensures forall i :: 0 <= i < |vs| && vs[i].name == name && (forall j :: 0 <= j < i ==> vs[j].name != name) ==>
      r == Some(vs[i])
  {
    if vs == [] then None
    else if vs[0].name == name then Some(vs[0])
    else FirstNamed(vs[1..], name)
  }

  const MoreThanOneMatch := "Sequence contains more than one matching element"

  /** SingleOrDefault(v => v.Name == name): throws when two or more validators match. */
  function SingleOrDefault(vs: seq<Validator>, name: string): (r: Result<Option<Validator>>)
  {
    if CountNamed(vs, name) > 1 then Failure(MoreThanOneMatch)
    else Success(FirstNamed(vs, name))
  }

  /**
   * ValidatorsExtensions.AddOrUpdate on the value of a validator list, written
   * as the C# code does it: look the name up, remove the match, append.
   */
  function AddedOrUpdated(vs: seq<Validator>, v: Validator): Result<seq<Validator>>
  {
    match SingleOrDefault(vs, v.name)
    case Failure(e) => Failure(e)
    case Success(None) => Success(vs + [v])
    case Success(Some(x)) => Success(Remove(vs, x) + [v])
  }

  lemma {:induction false} CountNamedAppend(a: seq<Validator>, b: seq<Validator>, name: string)
    ensures CountNamed(a + b, name) == CountNamed(a, name) + CountNamed(b, name)
  {
    if a == [] {
      assert a + b == b;
    } else {
      assert (a + b)[1..] == a[1..] + b;
      CountNamedAppend(a[1..], b, name);
    }
  }

  lemma {:induction false} WithoutNameCount(vs: seq<Validator>, name: string, other: string)
    ensures CountNamed(WithoutName(vs, name), other) == if other == name then 0 else CountNamed(vs, other)
  {
    if vs != [] {
      WithoutNameCount(vs[1..], name, other);
      if vs[0].name != name {
        assert ([vs[0]] + WithoutName(vs[1..], name))[1..] == WithoutName(vs[1..], name);
      }
    }
  }

  lemma {:induction false} WithoutNameSubset(vs: seq<Validator>, name: string)
    ensures forall w :: w in WithoutName(vs, name) ==> w in vs && w.name != name
  {
    if vs != [] {
      WithoutNameSubset(vs[1..], name);
    }
  }

  /** Without any validator of that name, filtering it out changes nothing. */
  lemma {:induction false} WithoutAbsentName(vs: seq<Validator>, name: string)
    requires CountNamed(vs, name) == 0
    ensures WithoutName(vs, name) == vs
  {
    if vs != [] {
      WithoutAbsentName(vs[1..], name);
    }
  }

  /** Removing the only validator of a name is filtering that name out. */
  lemma {:induction false} RemoveOnlyNamed(vs: seq<Validator>, name: string)
    requires CountNamed(vs, name) == 1
    ensures Remove(vs, FirstNamed(vs, name).value) == WithoutName(vs, name)
  {
    var x := FirstNamed(vs, name).value;
    if vs[0].name == name {
      assert vs[0] == x;
      WithoutAbsentName(vs[1..], name);
    } else {
      assert vs[0] != x;
      RemoveOnlyNamed(vs[1..], name);
    }
  }

  /**
   * AddOrUpdate succeeds exactly when at most one validator has the new one's
   * name; it then leaves the other validators in their order, followed by the
   * new one, so that exactly one validator has that name.
   */
  lemma {:induction false} AddOrUpdateReplacesByName(vs: seq<Validator>, v: Validator)
    ensures AddedOrUpdated(vs, v).Success? <==> CountNamed(vs, v.name) <= 1
    ensures AddedOrUpdated(vs, v).Failure? ==> AddedOrUpdated(vs, v).error == MoreThanOneMatch
    ensures AddedOrUpdated(vs, v).Success? ==>
      AddedOrUpdated(vs, v).value == WithoutName(vs, v.name) + [v]
      && CountNamed(AddedOrUpdated(vs, v).value, v.name) == 1
  {
    if CountNamed(vs, v.name) == 0 {
      WithoutAbsentName(vs, v.name);
    } else if CountNamed(vs, v.name) == 1 {
      RemoveOnlyNamed(vs, v.name);
    }
    if CountNamed(vs, v.name) <= 1 {
      CountNamedAppend(WithoutName(vs, v.name), [v], v.name);
      WithoutNameCount(vs, v.name, v.name);
      assert CountNamed([v], v.name) == 1;
    }
  }

  /** AddOrUpdate leaves the number of validators of every other name as it was. */
  lemma {:induction false} AddOrUpdateKeepsOtherNames(vs: seq<Validator>, v: Validator, other: string)
    requires AddedOrUpdated(vs, v).Success? && other != v.name
    ensures CountNamed(AddedOrUpdated(vs, v).value, other) == CountNamed(vs, other)
  {
    AddOrUpdateReplacesByName(vs, v);
    CountNamedAppend(WithoutName(vs, v.name), [v], other);
    WithoutNameCount(vs, v.name, other);
    assert CountNamed([v], other) == 0;
  }

  /** The validators carrying the given name, in their order. */
  function WithName(vs: seq<Validator>, name: string): seq<Validator>
  {
    if vs == [] then []
    else if vs[0].name == name then [vs[0]] + WithName(vs[1..], name)
    else WithName(vs[1..], name)
  }

  /** The validators whose name is not in the given set, in their order. */
  function WithoutNames(vs: seq<Validator>, names: set<string>): seq<Validator>
  {
    if vs == [] then []
    else if vs[0].name in names then WithoutNames(vs[1..], names)
    else [vs[0]] + WithoutNames(vs[1..], names)
  }

  lemma {:induction false} WithNameAppend(a: seq<Validator>, b: seq<Validator>, name: string)
    ensures WithName(a + b, name) == WithName(a, name) + WithName(b, name)
  {
    if a == [] {
      assert a + b == b;
    } else {
      assert (a + b)[1..] == a[1..] + b;
      WithNameAppend(a[1..], b, name);
    }
  }

  lemma {:induction false} WithoutNamesAppend(a: seq<Validator>, b: seq<Validator>, names: set<string>)
    ensures WithoutNames(a + b, names) == WithoutNames(a, names) + WithoutNames(b, names)
  {
    if a == [] {
      assert a + b == b;
    } else {
      assert (a + b)[1..] == a[1..] + b;
      WithoutNamesAppend(a[1..], b, names);
    }
  }

  /** Filtering out one name leaves nothing of that name. */
  lemma {:induction false} WithNameOfWithoutName(vs: seq<Validator>, name: string)
    ensures WithName(WithoutName(vs, name), name) == []
  {
    if vs != [] {
      WithNameOfWithoutName(vs[1..], name);
    }
  }

  /** Filtering out one name of a set before filtering out the whole set changes nothing. */
  lemma {:induction false} WithoutNamesOfWithoutName(vs: seq<Validator>, name: string, names: set<string>)
    requires name in names
    ensures WithoutNames(WithoutName(vs, name), names) == WithoutNames(vs, names)
  {
    if vs != [] {
      WithoutNamesOfWithoutName(vs[1..], name, names);
    }
  }

  /** Filtering out a smaller set before a larger one changes nothing. */
  lemma {:induction false} WithoutNamesTwice(vs: seq<Validator>, fewer: set<string>, names: set<string>)
    requires fewer <= names
    ensures WithoutNames(WithoutNames(vs, fewer), names) == WithoutNames(vs, names)
  {
    if vs != [] {
      WithoutNamesTwice(vs[1..], fewer, names);
    }
  }

  /** Filtering out other names keeps every validator of a name outside the set. */
  lemma {:induction false} WithNameOfWithoutNames(vs: seq<Validator>, name: string, names: set<string>)
    requires name !in names
    ensures WithName(WithoutNames(vs, names), name) == WithName(vs, name)
  {
    if vs != [] {
      WithNameOfWithoutNames(vs[1..], name, names);
    }
  }

  // ---------------------------------------------------------------- pluraliser

  /** The resource-name pluraliser: a trailing 'y' becomes "ies", anything else gets an 's'. */
  function Pluralize(s: string): (r: string)
    ensures s == "" <==> r == ""
    ensures s != "" ==>
      r[|r| - 1] == 's'
      && |r| == |s| + (if s[|s| - 1] == 'y' then 2 else 1)
      && r[..|s| - 1] == s[..|s| - 1]
    ensures s != "" && s[|s| - 1] != 'y' ==> r[..|s|] == s
    ensures s != "" && s[|s| - 1] == 'y' ==> r[|s| - 1..] == "ies"
  {
    if s == "" then s
    else if s[|s| - 1] == 'y' then s[..|s| - 1] + "ies"
    else s + "s"
  }

  lemma {:induction false} PluralizeExamples()
    ensures Pluralize("Category") == "Categories"
    ensures Pluralize("Order") == "Orders"
    ensures Pluralize("") == ""
  {
  }

  // ------------------------------------------------- converting server validators

  /** The validators ConvertToFluentValidators replaces: "required" and "maxLength". */
  predicate Replaced(v: Validator)
  {
    v.name == "required" || v.name == "maxLength"
  }

  /** The snapshot the conversion loop walks: the replaced validators, in list order. */
  function ToReplace(vs: seq<Validator>): (r: seq<Validator>)
    ensures forall w :: w in r ==> Replaced(w)
  {
    if vs == [] then []
    else if Replaced(vs[0]) then [vs[0]] + ToReplace(vs[1..])
    else ToReplace(vs[1..])
  }

  /** The validators the conversion leaves in place, in list order. */
  function Kept(vs: seq<Validator>): (r: seq<Validator>)
    ensures forall w :: w in r ==> !Replaced(w)
  {
    if vs == [] then []
    else if Replaced(vs[0]) then Kept(vs[1..])
    else [vs[0]] + Kept(vs[1..])
  }

  /** A navigation property with the server-side names of its foreign-key columns (null taken as empty). */
  datatype NavigationProperty = NavigationProperty(name: string, foreignKeyNamesOnServer: seq<string>)

  /** A non-empty property name listed among the foreign-key names of some navigation property. */
  predicate IsForeignKey(name: string, navs: seq<NavigationProperty>)
  {
    name != "" && exists n :: n in navs && name in n.foreignKeyNamesOnServer
  }

  /** What the conversion of one property depends on besides its validator list. */
  datatype ConvertContext = ConvertContext(
    nullableOverride: bool,     // the property name is in the nullable-override set
    isForeignKey: bool,         // IsForeignKey(property name, navigation properties)
    maxLength: Option<int>,     // DataProperty.MaxLength
    typeDefault: Literal)       // default value of the property's CLR type

  const NotNullReplacement := Validator("fvNotNull", FluentParameters(NotNullValidator))

  function NotEmptyReplacement(ctx: ConvertContext): Validator
  {
    Validator("fvNotEmpty", FluentParameters(NotEmptyValidator(ctx.typeDefault)))
  }

  function LengthReplacement(ctx: ConvertContext): Validator
  {
    Validator("fvLength", FluentParameters(LengthValidator(0, ctx.maxLength)))
  }

  /** The validators appended for one snapshot entry ("maxLength" when it is not "required"). */
  function Replacement(v: Validator, ctx: ConvertContext): seq<Validator>
  {
    if v.name == "required" then
      if ctx.nullableOverride then []
      else if ctx.isForeignKey then [NotEmptyReplacement(ctx)]
      else [NotNullReplacement]
    else [LengthReplacement(ctx)]
  }

  /** The names reported as converted for one snapshot entry. */
  function Reported(v: Validator, ctx: ConvertContext): seq<string>
  {
    if v.name == "required" then
      if ctx.nullableOverride then ["fvNotNull", "fvNotEmpty"]
      else if ctx.isForeignKey then ["fvNotEmpty"]
      else ["fvNotNull"]
    else ["fvLength"]
  }

  /** The state the conversion loop carries: the property's validators and nullability, and the converted names. */
  datatype Conversion = Conversion(validators: seq<Validator>, converted: seq<string>, isNullable: bool)

  /** One iteration of the conversion loop, on snapshot entry v. */
  function Step(c: Conversion, v: Validator, ctx: ConvertContext): Conversion
  {
    Conversion(
      Remove(c.validators, v) + Replacement(v, ctx),
      c.converted + Reported(v, ctx),
      c.isNullable || (v.name == "required" && ctx.nullableOverride))
  }

  /** The conversion loop run over the remaining snapshot entries. */
  function ConvertFrom(c: Conversion, snapshot: seq<Validator>, ctx: ConvertContext): Conversion
    decreases |snapshot|
  {
    if snapshot == [] then c else ConvertFrom(Step(c, snapshot[0], ctx), snapshot[1..], ctx)
  }

  /** ConvertToFluentValidators on a property with the given validators and nullability. */
  function Convert(vs: seq<Validator>, isNullable: bool, ctx: ConvertContext): Conversion
  {
    ConvertFrom(Conversion(vs, [], isNullable), ToReplace(vs), ctx)
  }

  /** Everything appended over a stretch of the snapshot. */
  function Replacements(s: seq<Validator>, ctx: ConvertContext): seq<Validator>
  {
    if s == [] then [] else Replacement(s[0], ctx) + Replacements(s[1..], ctx)
  }

  /** Everything reported over a stretch of the snapshot. */
  function Reports(s: seq<Validator>, ctx: ConvertContext): seq<string>
  {
    if s == [] then [] else Reported(s[0], ctx) + Reports(s[1..], ctx)
  }

  /** The list after the first k snapshot entries have been removed from it. */
  function DropFirst(vs: seq<Validator>, k: nat): seq<Validator>
  {
    if vs == [] then []
    else if Replaced(vs[0]) && k > 0 then DropFirst(vs[1..], k - 1)
    else [vs[0]] + DropFirst(vs[1..], k)
  }

  lemma {:induction false} DropNone(vs: seq<Validator>)
    ensures DropFirst(vs, 0) == vs
  {
    if vs != [] {
      DropNone(vs[1..]);
    }
  }

  lemma {:induction false} DropAll(vs: seq<Validator>)
    ensures DropFirst(vs, |ToReplace(vs)|) == Kept(vs)
  {
    if vs != [] {
      DropAll(vs[1..]);
    }
  }

  /** Remove passes over a head that differs from the element removed. */
  lemma {:induction false} RemoveCons(h: Validator, w: seq<Validator>, x: Validator)
    requires h != x
    ensures Remove([h] + w, x) == [h] + Remove(w, x)
  {
    assert ([h] + w)[0] == h && ([h] + w)[1..] == w;
  }

  /** Removing snapshot entry k removes it at its own place, ahead of anything appended. */
  lemma {:induction false} DropNext(vs: seq<Validator>, k: nat, tail: seq<Validator>)
    requires k < |ToReplace(vs)|
    ensures Remove(DropFirst(vs, k) + tail, ToReplace(vs)[k]) == DropFirst(vs, k + 1) + tail
  {
    var x := ToReplace(vs)[k];
    if Replaced(vs[0]) {
      if k == 0 {
        DropNone(vs);
        DropNone(vs[1..]);
        assert (vs + tail)[0] == x;
        assert (vs + tail)[1..] == vs[1..] + tail;
      } else {
        assert ToReplace(vs)[k] == ToReplace(vs[1..])[k - 1];
        DropNext(vs[1..], k - 1, tail);
      }
    } else {
      assert x in ToReplace(vs);
      assert vs[0] != x;
      var d := DropFirst(vs[1..], k);
      ConcatAssociative([vs[0]], d, tail);
      DropNext(vs[1..], k, tail);
      RemoveCons(vs[0], d + tail, x);
      ConcatAssociative([vs[0]], DropFirst(vs[1..], k + 1), tail);
    }
  }

  /** The loop invariant of the conversion, stated over the remaining snapshot. */
  lemma {:induction false} ConvertFromDropped(vs: seq<Validator>, k: nat, added: seq<Validator>,
                                              conv: seq<string>, n: bool, ctx: ConvertContext)
    requires k <= |ToReplace(vs)|
    ensures ConvertFrom(Conversion(DropFirst(vs, k) + added, conv, n), ToReplace(vs)[k..], ctx)
         == Conversion(Kept(vs) + added + Replacements(ToReplace(vs)[k..], ctx),
                       conv + Reports(ToReplace(vs)[k..], ctx),
                       n || (ctx.nullableOverride && CountNamed(ToReplace(vs)[k..], "required") > 0))
    decreases |ToReplace(vs)| - k
  {
    var snap := ToReplace(vs);
    if k == |snap| {
      DropAll(vs);
      assert snap[k..] == [];
      assert Replacements([], ctx) == [] && Reports([], ctx) == [];
      assert Kept(vs) + added + [] == DropFirst(vs, k) + added;
    } else {
      var rest := snap[k..];
      var v := snap[k];
      assert rest[0] == v && rest[1..] == snap[k + 1..];
      var c := Conversion(DropFirst(vs, k) + added, conv, n);
      var added' := added + Replacement(v, ctx);
      var conv' := conv + Reported(v, ctx);
      var n' := n || (v.name == "required" && ctx.nullableOverride);
      DropNext(vs, k, added);
      assert Step(c, v, ctx) == Conversion(DropFirst(vs, k + 1) + added', conv', n');
      assert ConvertFrom(c, rest, ctx) == ConvertFrom(Step(c, v, ctx), snap[k + 1..], ctx);
      ConvertFromDropped(vs, k + 1, added', conv', n', ctx);
      assert Replacements(rest, ctx) == Replacement(v, ctx) + Replacements(snap[k + 1..], ctx);
      assert Reports(rest, ctx) == Reported(v, ctx) + Reports(snap[k + 1..], ctx);
      assert CountNamed(rest, "required") == (if v.name == "required" then 1 else 0) + CountNamed(snap[k + 1..], "required");
      var later := Replacements(snap[k + 1..], ctx);
      ConcatAssociative(added, Replacement(v, ctx), later);
      ConcatAssociative(Kept(vs), added', later);
      ConcatAssociative(Kept(vs), added, Replacements(rest, ctx));
      ConcatAssociative(conv, Reported(v, ctx), Reports(snap[k + 1..], ctx));
      assert (n' || (ctx.nullableOverride && CountNamed(snap[k + 1..], "required") > 0))
          == (n || (ctx.nullableOverride && CountNamed(rest, "required") > 0));
    }
  }

  lemma {:induction false} ConcatAssociative<T>(a: seq<T>, b: seq<T>, c: seq<T>)
    ensures (a + b) + c == a + (b + c)
  {
  }

  lemma {:induction false} ToReplaceCount(vs: seq<Validator>, name: string)
    ensures CountNamed(ToReplace(vs), name) == if name == "required" || name == "maxLength" then CountNamed(vs, name) else 0
  {
    if vs != [] {
      ToReplaceCount(vs[1..], name);
    }
  }

  lemma {:induction false} KeptCount(vs: seq<Validator>, name: string)
    ensures CountNamed(Kept(vs), name) == if name == "required" || name == "maxLength" then 0 else CountNamed(vs, name)
  {
    if vs != [] {
      KeptCount(vs[1..], name);
    }
  }

  /**
   * The conversion as a whole: the validators it does not replace stay in
   * order, followed by the replacements of the "required" and "maxLength"
   * validators in list order; the property becomes nullable when it had a
   * "required" validator and its name is in the override set.
   */
  lemma {:induction false} ConvertCharacterized(vs: seq<Validator>, isNullable: bool, ctx: ConvertContext)
    ensures Convert(vs, isNullable, ctx) ==
      Conversion(Kept(vs) + Replacements(ToReplace(vs), ctx), Reports(ToReplace(vs), ctx),
                 isNullable || (ctx.nullableOverride && CountNamed(vs, "required") > 0))
  {
    DropNone(vs);
    assert vs == DropFirst(vs, 0) + [];
    assert ToReplace(vs)[0..] == ToReplace(vs);
    ConvertFromDropped(vs, 0, [], [], isNullable, ctx);
    ToReplaceCount(vs, "required");
  }

  /** Counts of names in what a snapshot stretch appends. */
  lemma {:induction false} ReplacementsCount(s: seq<Validator>, ctx: ConvertContext, name: string)
    requires forall w :: w in s ==> Replaced(w)
    ensures CountNamed(Replacements(s, ctx), name) ==
      if name == "fvNotNull" && !ctx.nullableOverride && !ctx.isForeignKey then CountNamed(s, "required")
      else if name == "fvNotEmpty" && !ctx.nullableOverride && ctx.isForeignKey then CountNamed(s, "required")
      else if name == "fvLength" then CountNamed(s, "maxLength")
      else 0
  {
    if s != [] {
      assert s[0] in s;
      ReplacementsCount(s[1..], ctx, name);
      CountNamedAppend(Replacement(s[0], ctx), Replacements(s[1..], ctx), name);
      var r := Replacement(s[0], ctx);
      if r != [] {
        assert r[1..] == [];
      }
    }
  }

  /** Every entry of a snapshot stretch contributes its replacement and its reported names. */
  lemma {:induction false} ReplacementsContain(s: seq<Validator>, ctx: ConvertContext, i: nat)
    requires i < |s|
    ensures forall w :: w in Replacement(s[i], ctx) ==> w in Replacements(s, ctx)
    ensures forall n :: n in Reported(s[i], ctx) ==> n in Reports(s, ctx)
  {
    if i > 0 {
      ReplacementsContain(s[1..], ctx, i - 1);
    }
  }

  /** Every appended validator carries a name that is reported as converted. */
  lemma {:induction false} ReplacementsReported(s: seq<Validator>, ctx: ConvertContext)
    ensures forall w :: w in Replacements(s, ctx) ==> w.name in Reports(s, ctx)
  {
    if s != [] {
      ReplacementsReported(s[1..], ctx);
    }
  }

  lemma {:induction false} NamedWitness(vs: seq<Validator>, name: string) returns (i: nat)
    requires CountNamed(vs, name) > 0
    ensures i < |vs| && vs[i].name == name
  {
    if vs[0].name == name {
      i := 0;
    } else {
      var j := NamedWitness(vs[1..], name);
      i := j + 1;
    }
  }

  /**
   * After the conversion no "required" or "maxLength" validator remains, the
   * other validators are the untouched prefix in their order, and every
   * validator added carries a name reported as converted.
   */
  lemma {:induction false} ConvertRemovesReplaced(vs: seq<Validator>, isNullable: bool, ctx: ConvertContext)
    ensures CountNamed(Convert(vs, isNullable, ctx).validators, "required") == 0
    ensures CountNamed(Convert(vs, isNullable, ctx).validators, "maxLength") == 0
    ensures |Convert(vs, isNullable, ctx).validators| >= |Kept(vs)|
    ensures Convert(vs, isNullable, ctx).validators[..|Kept(vs)|] == Kept(vs)
    ensures forall w :: w in Convert(vs, isNullable, ctx).validators[|Kept(vs)|..] ==>
      w.name in Convert(vs, isNullable, ctx).converted
  {
    ConvertCharacterized(vs, isNullable, ctx);
    var added := Replacements(ToReplace(vs), ctx);
    var r := Kept(vs) + added;
    assert r[..|Kept(vs)|] == Kept(vs);
    assert r[|Kept(vs)|..] == added;
    ReplacementsReported(ToReplace(vs), ctx);
    CountNamedAppend(Kept(vs), added, "required");
    CountNamedAppend(Kept(vs), added, "maxLength");
    KeptCount(vs, "required");
    KeptCount(vs, "maxLength");
    ReplacementsCount(ToReplace(vs), ctx, "required");
    ReplacementsCount(ToReplace(vs), ctx, "maxLength");
  }

  /** A list without "required" and "maxLength" validators is left as it is. */
  lemma {:induction false} ConvertNothingToReplace(vs: seq<Validator>, isNullable: bool, ctx: ConvertContext)
    requires CountNamed(vs, "required") == 0 && CountNamed(vs, "maxLength") == 0
    ensures Convert(vs, isNullable, ctx) == Conversion(vs, [], isNullable)
  {
    NoneToReplace(vs);
  }

  lemma {:induction false} NoneToReplace(vs: seq<Validator>)
    requires CountNamed(vs, "required") == 0 && CountNamed(vs, "maxLength") == 0
    ensures ToReplace(vs) == []
  {
    if vs != [] {
      NoneToReplace(vs[1..]);
    }
  }

  /**
   * A "required" validator on a property in the nullable-override set is
   * dropped without replacement: the property becomes nullable, both
   * "fvNotNull" and "fvNotEmpty" are reported, and the conversion adds no
   * validator of either name.
   */
  lemma {:induction false} ConvertNullableOverride(vs: seq<Validator>, isNullable: bool, ctx: ConvertContext)
    requires ctx.nullableOverride && CountNamed(vs, "required") > 0
    ensures Convert(vs, isNullable, ctx).isNullable
    ensures "fvNotNull" in Convert(vs, isNullable, ctx).converted
    ensures "fvNotEmpty" in Convert(vs, isNullable, ctx).converted
    ensures CountNamed(Convert(vs, isNullable, ctx).validators, "fvNotNull") == CountNamed(vs, "fvNotNull")
    ensures CountNamed(Convert(vs, isNullable, ctx).validators, "fvNotEmpty") == CountNamed(vs, "fvNotEmpty")
  {
    ConvertCharacterized(vs, isNullable, ctx);
    var snap := ToReplace(vs);
    ToReplaceCount(vs, "required");
    var i := NamedWitness(snap, "required");
    ReplacementsContain(snap, ctx, i);
    assert "fvNotNull" in Reported(snap[i], ctx) && "fvNotEmpty" in Reported(snap[i], ctx);
    var added := Replacements(snap, ctx);
    CountNamedAppend(Kept(vs), added, "fvNotNull");
    CountNamedAppend(Kept(vs), added, "fvNotEmpty");
    KeptCount(vs, "fvNotNull");
    KeptCount(vs, "fvNotEmpty");
    ReplacementsCount(snap, ctx, "fvNotNull");
    ReplacementsCount(snap, ctx, "fvNotEmpty");
  }

  /**
   * Outside the override set a "required" validator becomes "fvNotEmpty" with
   * the type's default value on a foreign-key property, and "fvNotNull"
   * otherwise; the name added is the name reported, and the nullability is
   * left as it was.
   */
  lemma {:induction false} ConvertRequired(vs: seq<Validator>, isNullable: bool, ctx: ConvertContext)
    requires !ctx.nullableOverride && CountNamed(vs, "required") > 0
    ensures Convert(vs, isNullable, ctx).isNullable == isNullable
    ensures ctx.isForeignKey ==>
      NotEmptyReplacement(ctx) in Convert(vs, isNullable, ctx).validators
      && "fvNotEmpty" in Convert(vs, isNullable, ctx).converted
      && CountNamed(Convert(vs, isNullable, ctx).validators, "fvNotNull") == CountNamed(vs, "fvNotNull")
    ensures !ctx.isForeignKey ==>
      NotNullReplacement in Convert(vs, isNullable, ctx).validators
      && "fvNotNull" in Convert(vs, isNullable, ctx).converted
      && CountNamed(Convert(vs, isNullable, ctx).validators, "fvNotEmpty") == CountNamed(vs, "fvNotEmpty")
  {
    ConvertCharacterized(vs, isNullable, ctx);
    var snap := ToReplace(vs);
    ToReplaceCount(vs, "required");
    var i := NamedWitness(snap, "required");
    ReplacementsContain(snap, ctx, i);
    var added := Replacements(snap, ctx);
    assert Replacement(snap[i], ctx)[0] in added;
    CountNamedAppend(Kept(vs), added, "fvNotNull");
    CountNamedAppend(Kept(vs), added, "fvNotEmpty");
    KeptCount(vs, "fvNotNull");
    KeptCount(vs, "fvNotEmpty");
    ReplacementsCount(snap, ctx, "fvNotNull");
    ReplacementsCount(snap, ctx, "fvNotEmpty");
  }

  /** A "maxLength" validator becomes "fvLength" from 0 to the property's MaxLength, and "fvLength" is reported. */
  lemma {:induction false} ConvertMaxLength(vs: seq<Validator>, isNullable: bool, ctx: ConvertContext)
    requires CountNamed(vs, "maxLength") > 0
    ensures LengthReplacement(ctx) in Convert(vs, isNullable, ctx).validators
    ensures "fvLength" in Convert(vs, isNullable, ctx).converted
  {
    ConvertCharacterized(vs, isNullable, ctx);
    var snap := ToReplace(vs);
    ToReplaceCount(vs, "maxLength");
    var i := NamedWitness(snap, "maxLength");
    ReplacementsContain(snap, ctx, i);
    assert Replacement(snap[i], ctx) == [LengthReplacement(ctx)];
  }

  // ------------------------------------------------------------ fluent property rules

  /** A FluentValidation rule of an entity's validator; only property rules contribute. */
  datatype ValidationRule =
    | PropertyRule(propertyName: string, ruleSets: Option<seq<string>>, currentValidator: FluentValidator)
    | OtherRule

  /** A public instance property of a CLR type, with the full name of the type declaring it. */
  datatype PropertyDescriptor = PropertyDescriptor(name: string, declaringType: string, propertyType: ClrType)

  /**
   * A CLR type as reflection would describe it; the capability flags answer
   * IsAssignableFrom for the interfaces the handler asks about.
   */
  datatype TypeDescriptor = TypeDescriptor(
    name: string,
    namespace: string,
    isClass: bool,
    isAbstract: bool,
    isEntity: bool,                         // typeof(IEntity).IsAssignableFrom(type)
    isClientModel: bool,                    // typeof(IClientModel).IsAssignableFrom(type)
    assignableFromVersionedEntity: bool,    // type.IsAssignableFrom(typeof(IVersionedEntity))
    properties: seq<PropertyDescriptor>)    // GetProperties(Instance | Public), in order

  function FullName(t: TypeDescriptor): string
  {
    t.namespace + "." + t.name
  }

  /**
   * A well-formed descriptor: only an interface, or System.Object itself, can
   * be assigned from the IVersionedEntity interface type.
   */
  predicate AssignabilityConsistent(t: TypeDescriptor)
  {
    t.assignableFromVersionedEntity ==> !t.isClass || FullName(t) == "System.Object"
  }

  /** What reflection and the code outside this model answer, passed in explicitly. */
  datatype Environment = Environment(
    types: seq<TypeDescriptor>,                              // every type of every loaded assembly
    rulesFor: TypeDescriptor -> Option<seq<ValidationRule>>, // IValidatorFactory.GetValidator(type) as rules
    validatorName: FluentValidator -> string,                // FluentValidators.GetName
    dataTypeOf: ClrType -> string,                           // BreezeTypeHelper.GetDataType
    defaultOf: ClrType -> Literal,                           // PropertyType.GetDefaultValue()
    resolve: string -> Option<TypeDescriptor>,               // Type.GetType(full name)
    insertUpdateDefault: set<string>)                        // ValidationRuleSet.AttributeInsertUpdateDefault

  /** A property rule of the given property, in the default insert/update rule sets (or in none). */
  predicate Selected(rule: ValidationRule, propName: string, env: Environment)
  {
    rule.PropertyRule? && rule.propertyName != "" && rule.propertyName == propName
    && (rule.ruleSets.None? || exists s :: s in rule.ruleSets.value && s in env.insertUpdateDefault)
  }

  /** A selected rule whose client name is non-empty and was not already produced by the conversion. */
  predicate Admitted(rule: ValidationRule, propName: string, converted: seq<string>, env: Environment)
  {
    Selected(rule, propName, env)
    && env.validatorName(rule.currentValidator) != ""
    && env.validatorName(rule.currentValidator) !in converted
  }

  /** The Breeze validator built from a property rule: its client name and its parameters. */
  function RuleValidator(rule: ValidationRule, env: Environment): Validator
    requires rule.PropertyRule?
  {
    Validator(env.validatorName(rule.currentValidator), FluentParameters(rule.currentValidator))
  }

  /** The rule loop of one property: each admitted rule goes through AddOrUpdate, in order. */
  function ApplyRules(vs: seq<Validator>, rules: seq<ValidationRule>, propName: string,
                      converted: seq<string>, env: Environment): Result<seq<Validator>>
    decreases |rules|
  {
    if rules == [] then Success(vs)
    else if !Admitted(rules[0], propName, converted, env) then ApplyRules(vs, rules[1..], propName, converted, env)
    else match AddedOrUpdated(vs, RuleValidator(rules[0], env))
      case Failure(e) => Failure(e)
      case Success(ws) => ApplyRules(ws, rules[1..], propName, converted, env)
  }

  /** Without an admitted rule the validator list is left alone. */
  lemma {:induction false} ApplyRulesNoneAdmitted(vs: seq<Validator>, rules: seq<ValidationRule>, propName: string,
                                                  converted: seq<string>, env: Environment)
    requires forall i :: 0 <= i < |rules| ==> !Admitted(rules[i], propName, converted, env)
    ensures ApplyRules(vs, rules, propName, converted, env) == Success(vs)
  {
    if rules != [] {
      assert !Admitted(rules[0], propName, converted, env);
      ApplyRulesNoneAdmitted(vs, rules[1..], propName, converted, env);
    }
  }

  /** The rule loop cannot fail when no admitted rule's name is already doubled in the list. */
  lemma {:induction false} ApplyRulesSucceeds(vs: seq<Validator>, rules: seq<ValidationRule>, propName: string,
                                              converted: seq<string>, env: Environment)
    requires forall i :: 0 <= i < |rules| && Admitted(rules[i], propName, converted, env) ==>
      CountNamed(vs, env.validatorName(rules[i].currentValidator)) <= 1
    ensures ApplyRules(vs, rules, propName, converted, env).Success?
    decreases |rules|
  {
    if rules != [] {
      if Admitted(rules[0], propName, converted, env) {
        var v := RuleValidator(rules[0], env);
        AddOrUpdateReplacesByName(vs, v);
        var ws := AddedOrUpdated(vs, v).value;
        forall i | 0 <= i < |rules[1..]| && Admitted(rules[1..][i], propName, converted, env)
          ensures CountNamed(ws, env.validatorName(rules[1..][i].currentValidator)) <= 1
        {
          var name := env.validatorName(rules[1..][i].currentValidator);
          assert rules[1..][i] == rules[i + 1];
          if name != v.name {
            AddOrUpdateKeepsOtherNames(vs, v, name);
          }
        }
        ApplyRulesSucceeds(ws, rules[1..], propName, converted, env);
      } else {
        ApplyRulesSucceeds(vs, rules[1..], propName, converted, env);
      }
    }
  }

  /** A name held by exactly one validator keeps exactly one through the rule loop. */
  lemma {:induction false} ApplyRulesKeepsSingle(vs: seq<Validator>, rules: seq<ValidationRule>, propName: string,
                                                 converted: seq<string>, env: Environment, name: string)
    requires CountNamed(vs, name) == 1
    requires ApplyRules(vs, rules, propName, converted, env).Success?
    ensures CountNamed(ApplyRules(vs, rules, propName, converted, env).value, name) == 1
    decreases |rules|
  {
    if rules != [] {
      if Admitted(rules[0], propName, converted, env) {
        var v := RuleValidator(rules[0], env);
        AddOrUpdateReplacesByName(vs, v);
        var ws := AddedOrUpdated(vs, v).value;
        if name != v.name {
          AddOrUpdateKeepsOtherNames(vs, v, name);
        }
        ApplyRulesKeepsSingle(ws, rules[1..], propName, converted, env, name);
      } else {
        ApplyRulesKeepsSingle(vs, rules[1..], propName, converted, env, name);
      }
    }
  }

  /** After a successful rule loop every admitted rule's name is held by exactly one validator. */
  lemma {:induction false} ApplyRulesComplete(vs: seq<Validator>, rules: seq<ValidationRule>, propName: string,
                                              converted: seq<string>, env: Environment)
    requires ApplyRules(vs, rules, propName, converted, env).Success?
    ensures forall i :: 0 <= i < |rules| && Admitted(rules[i], propName, converted, env) ==>
      CountNamed(ApplyRules(vs, rules, propName, converted, env).value, env.validatorName(rules[i].currentValidator)) == 1
    decreases |rules|
  {
    if rules != [] {
      var r := ApplyRules(vs, rules, propName, converted, env).value;
      var ws := vs;
      if Admitted(rules[0], propName, converted, env) {
        var v := RuleValidator(rules[0], env);
        AddOrUpdateReplacesByName(vs, v);
        ws := AddedOrUpdated(vs, v).value;
        ApplyRulesKeepsSingle(ws, rules[1..], propName, converted, env, v.name);
      }
      assert r == ApplyRules(ws, rules[1..], propName, converted, env).value;
      ApplyRulesComplete(ws, rules[1..], propName, converted, env);
      forall i | 1 <= i < |rules| && Admitted(rules[i], propName, converted, env)
        ensures CountNamed(r, env.validatorName(rules[i].currentValidator)) == 1
      {
        assert rules[1..][i - 1] == rules[i];
      }
    }
  }

  /** Every validator after a successful rule loop was there before or comes from an admitted rule. */
  lemma {:induction false} ApplyRulesSound(vs: seq<Validator>, rules: seq<ValidationRule>, propName: string,
                                           converted: seq<string>, env: Environment)
    requires ApplyRules(vs, rules, propName, converted, env).Success?
    ensures forall w :: w in ApplyRules(vs, rules, propName, converted, env).value ==>
      w in vs || exists i :: 0 <= i < |rules| && Admitted(rules[i], propName, converted, env) && w == RuleValidator(rules[i], env)
    decreases |rules|
  {
    if rules != [] {
      var r := ApplyRules(vs, rules, propName, converted, env).value;
      var ws := vs;
      if Admitted(rules[0], propName, converted, env) {
        var v := RuleValidator(rules[0], env);
        AddOrUpdateReplacesByName(vs, v);
        ws := AddedOrUpdated(vs, v).value;
        WithoutNameSubset(vs, v.name);
      }
      assert r == ApplyRules(ws, rules[1..], propName, converted, env).value;
      ApplyRulesSound(ws, rules[1..], propName, converted, env);
      forall w | w in r
        ensures w in vs || exists i :: 0 <= i < |rules| && Admitted(rules[i], propName, converted, env) && w == RuleValidator(rules[i], env)
      {
        if !(w in ws) {
          var i :| 0 <= i < |rules[1..]| && Admitted(rules[1..][i], propName, converted, env) && w == RuleValidator(rules[1..][i], env);
          assert rules[1..][i] == rules[i + 1];
        } else if !(w in vs) {
          assert w == RuleValidator(rules[0], env);
        }
      }
    }
  }

  /** The client names of the admitted rules. */
  function AdmittedNames(rules: seq<ValidationRule>, propName: string, converted: seq<string>, env: Environment): set<string>
  {
    set i | 0 <= i < |rules| && Admitted(rules[i], propName, converted, env) :: RuleValidator(rules[i], env).name
  }

  lemma {:induction false} AdmittedNamesCons(rules: seq<ValidationRule>, propName: string, converted: seq<string>, env: Environment)
    requires rules != []
    ensures AdmittedNames(rules, propName, converted, env) ==
      (if Admitted(rules[0], propName, converted, env) then {RuleValidator(rules[0], env).name} else {})
      + AdmittedNames(rules[1..], propName, converted, env)
  {
    var all := AdmittedNames(rules, propName, converted, env);
    var rest := AdmittedNames(rules[1..], propName, converted, env);
    forall n | n in rest ensures n in all {
      var i :| 0 <= i < |rules[1..]| && Admitted(rules[1..][i], propName, converted, env) && RuleValidator(rules[1..][i], env).name == n;
      assert rules[1..][i] == rules[i + 1];
    }
    forall i | 0 < i < |rules| && Admitted(rules[i], propName, converted, env) ensures RuleValidator(rules[i], env).name in rest {
      assert rules[1..][i - 1] == rules[i];
    }
    if Admitted(rules[0], propName, converted, env) {
      assert RuleValidator(rules[0], env).name in all;
    }
  }

  /**
   * The rule loop leaves the validators whose name no admitted rule carries
   * as they were, in their order.
   */
  lemma {:induction false} ApplyRulesKeepsOthers(vs: seq<Validator>, rules: seq<ValidationRule>, propName: string,
                                                 converted: seq<string>, env: Environment)
    requires ApplyRules(vs, rules, propName, converted, env).Success?
    ensures WithoutNames(ApplyRules(vs, rules, propName, converted, env).value, AdmittedNames(rules, propName, converted, env))
         == WithoutNames(vs, AdmittedNames(rules, propName, converted, env))
    decreases |rules|
  {
    if rules != [] {
      var names := AdmittedNames(rules, propName, converted, env);
      var rest := AdmittedNames(rules[1..], propName, converted, env);
      AdmittedNamesCons(rules, propName, converted, env);
      var r := ApplyRules(vs, rules, propName, converted, env).value;
      var ws := vs;
      if Admitted(rules[0], propName, converted, env) {
        var v := RuleValidator(rules[0], env);
        AddOrUpdateReplacesByName(vs, v);
        ws := AddedOrUpdated(vs, v).value;
        WithoutNamesAppend(WithoutName(vs, v.name), [v], names);
        WithoutNamesOfWithoutName(vs, v.name, names);
        assert WithoutNames([v], names) == [];
      }
      assert WithoutNames(ws, names) == WithoutNames(vs, names);
      assert r == ApplyRules(ws, rules[1..], propName, converted, env).value;
      ApplyRulesKeepsOthers(ws, rules[1..], propName, converted, env);
      WithoutNamesTwice(r, rest, names);
      WithoutNamesTwice(ws, rest, names);
    }
  }

  /** A rule loop in which no admitted rule carries a name leaves the validators of that name alone. */
  lemma {:induction false} ApplyRulesKeepsName(vs: seq<Validator>, rules: seq<ValidationRule>, propName: string,
                                               converted: seq<string>, env: Environment, name: string)
    requires ApplyRules(vs, rules, propName, converted, env).Success?
    requires name !in AdmittedNames(rules, propName, converted, env)
    ensures WithName(ApplyRules(vs, rules, propName, converted, env).value, name) == WithName(vs, name)
  {
    var names := AdmittedNames(rules, propName, converted, env);
    ApplyRulesKeepsOthers(vs, rules, propName, converted, env);
    WithNameOfWithoutNames(ApplyRules(vs, rules, propName, converted, env).value, name, names);
    WithNameOfWithoutNames(vs, name, names);
  }

  /**
   * The last admitted rule of a name wins: after a successful rule loop the
   * only validator of that name is the one built from that rule.
   */
  lemma {:induction false} ApplyRulesLastWins(vs: seq<Validator>, rules: seq<ValidationRule>, propName: string,
                                              converted: seq<string>, env: Environment, k: nat)
    requires ApplyRules(vs, rules, propName, converted, env).Success?
    requires k < |rules| && Admitted(rules[k], propName, converted, env)
    requires forall j :: k < j < |rules| && Admitted(rules[j], propName, converted, env) ==>
      RuleValidator(rules[j], env).name != RuleValidator(rules[k], env).name
    ensures WithName(ApplyRules(vs, rules, propName, converted, env).value, RuleValidator(rules[k], env).name)
         == [RuleValidator(rules[k], env)]
    decreases |rules|
  {
    var r := ApplyRules(vs, rules, propName, converted, env).value;
    var ws := vs;
    if Admitted(rules[0], propName, converted, env) {
      AddOrUpdateReplacesByName(vs, RuleValidator(rules[0], env));
      ws := AddedOrUpdated(vs, RuleValidator(rules[0], env)).value;
    }
    assert r == ApplyRules(ws, rules[1..], propName, converted, env).value;
    if k == 0 {
      var v := RuleValidator(rules[0], env);
      WithNameAppend(WithoutName(vs, v.name), [v], v.name);
      WithNameOfWithoutName(vs, v.name);
      assert WithName(ws, v.name) == [v];
      forall n | n in AdmittedNames(rules[1..], propName, converted, env) ensures n != v.name {
        var j :| 0 <= j < |rules[1..]| && Admitted(rules[1..][j], propName, converted, env) && RuleValidator(rules[1..][j], env).name == n;
        assert rules[1..][j] == rules[j + 1];
      }
      ApplyRulesKeepsName(ws, rules[1..], propName, converted, env, v.name);
    } else {
      assert rules[1..][k - 1] == rules[k];
      forall j | k - 1 < j < |rules[1..]| && Admitted(rules[1..][j], propName, converted, env)
        ensures RuleValidator(rules[1..][j], env).name != RuleValidator(rules[1..][k - 1], env).name
      {
        assert rules[1..][j] == rules[j + 1];
      }
      ApplyRulesLastWins(ws, rules[1..], propName, converted, env, k - 1);
    }
  }

  /**
   * The rule loop fails exactly when an admitted rule's name is already held
   * by two or more validators, and then with SingleOrDefault's error.
   */
  lemma {:induction false} ApplyRulesOutcome(vs: seq<Validator>, rules: seq<ValidationRule>, propName: string,
                                             converted: seq<string>, env: Environment)
    ensures ApplyRules(vs, rules, propName, converted, env).Success? <==>
      forall i :: 0 <= i < |rules| && Admitted(rules[i], propName, converted, env) ==>
        CountNamed(vs, RuleValidator(rules[i], env).name) <= 1
    ensures ApplyRules(vs, rules, propName, converted, env).Failure? ==>
      ApplyRules(vs, rules, propName, converted, env).error == MoreThanOneMatch
    decreases |rules|
  {
    if rules != [] {
      var ws := vs;
      if Admitted(rules[0], propName, converted, env) {
        var v := RuleValidator(rules[0], env);
        AddOrUpdateReplacesByName(vs, v);
        if AddedOrUpdated(vs, v).Success? {
          ws := AddedOrUpdated(vs, v).value;
          forall i | 0 <= i < |rules[1..]| && Admitted(rules[1..][i], propName, converted, env)
            ensures CountNamed(ws, RuleValidator(rules[1..][i], env).name) ==
                    (if RuleValidator(rules[1..][i], env).name == v.name then 1 else CountNamed(vs, RuleValidator(rules[1..][i], env).name))
          {
            if RuleValidator(rules[1..][i], env).name != v.name {
              AddOrUpdateKeepsOtherNames(vs, v, RuleValidator(rules[1..][i], env).name);
            }
          }
        } else {
          return;
        }
      }
      ApplyRulesOutcome(ws, rules[1..], propName, converted, env);
      var ok := forall i :: 0 <= i < |rules| && Admitted(rules[i], propName, converted, env) ==>
        CountNamed(vs, RuleValidator(rules[i], env).name) <= 1;
      if !ok {
        var i :| 0 <= i < |rules| && Admitted(rules[i], propName, converted, env)
          && CountNamed(vs, RuleValidator(rules[i], env).name) > 1;
        assert i > 0 && rules[1..][i - 1] == rules[i];
      } else {
        forall i | 0 <= i < |rules[1..]| && Admitted(rules[1..][i], propName, converted, env)
          ensures CountNamed(ws, RuleValidator(rules[1..][i], env).name) <= 1
        {
          assert rules[1..][i] == rules[i + 1];
        }
      }
    }
  }

  // ------------------------------------------------------------------ the schema

  datatype KeyGeneration = NoKeyGeneration | Identity | KeyGenerator

  /** A Breeze data property; propertyType is the CLR type of its PropertyInfo, if it has one. */
  datatype DataPropertyValue = DataPropertyValue(
    nameOnServer: string,
    dataType: string,
    isPartOfKey: bool,
    maxLength: Option<int>,
    propertyType: Option<ClrType>,
    isNullable: bool,
    validators: seq<Validator>)

  /** A Breeze entity type. */
  datatype EntityValue = EntityValue(
    shortName: string,
    namespace: string,
    autoGeneratedKeyType: KeyGeneration,
    defaultResourceName: string,
    isUnmapped: bool,
    navigationProperties: seq<NavigationProperty>,
    dataProperties: seq<DataPropertyValue>)

  /** The metadata schema: its entity types and the resource-name map. */
  datatype SchemaValue = SchemaValue(structuralTypes: seq<EntityValue>, resourceEntityTypeMap: map<string, string>)

  /** dataProp.PropertyInfo?.PropertyType.GetDefaultValue(): null without a PropertyInfo. */
  function TypeDefault(t: Option<ClrType>, env: Environment): Literal
  {
    match t
    case None => NullLiteral
    case Some(c) => env.defaultOf(c)
  }

  function ContextOf(p: DataPropertyValue, navs: seq<NavigationProperty>, nullable: set<string>,
                     env: Environment): ConvertContext
  {
    ConvertContext(p.nameOnServer in nullable, IsForeignKey(p.nameOnServer, navs), p.maxLength,
                   TypeDefault(p.propertyType, env))
  }

  /** One property of an entity with a validator: conversion, then the rule loop. */
  function SetupProperty(p: DataPropertyValue, navs: seq<NavigationProperty>, rules: seq<ValidationRule>,
                         nullable: set<string>, env: Environment): Result<DataPropertyValue>
  {
    var c := Convert(p.validators, p.isNullable, ContextOf(p, navs, nullable, env));
    match ApplyRules(c.validators, rules, p.nameOnServer, c.converted, env)
    case Failure(e) => Failure(e)
    case Success(ws) => Success(p.(isNullable := c.isNullable, validators := ws))
  }

  /** A class implementing IEntity or IClientModel. */
  predicate IsModelType(t: TypeDescriptor)
  {
    t.isClass && (t.isEntity || t.isClientModel)
  }

  /** The first model type with the given short name. */
  function FindModelType(types: seq<TypeDescriptor>, shortName: string): (r: Option<TypeDescriptor>)
    ensures r.Some? ==> r.value in types && IsModelType(r.value) && r.value.name == shortName
    ensures r.None? ==> forall t :: t in types ==> !(IsModelType(t) && t.name == shortName)
    ensures forall i :: (0 <= i < |types| && IsModelType(types[i]) && types[i].name == shortName
                         && (forall j :: 0 <= j < i ==> !(IsModelType(types[j]) && types[j].name == shortName))) ==>
      r == Some(types[i])
  {
    if types == [] then None
    else if IsModelType(types[0]) && types[0].name == shortName then Some(types[0])
    else FindModelType(types[1..], shortName)
  }

  /** The outcome of the property loop body on each property. */
  function PropertyResults(ps: seq<DataPropertyValue>, navs: seq<NavigationProperty>, rules: seq<ValidationRule>,
                           nullable: set<string>, env: Environment): (r: seq<Result<DataPropertyValue>>)
    ensures |r| == |ps| && forall j :: 0 <= j < |ps| ==> r[j] == SetupProperty(ps[j], navs, rules, nullable, env)
  {
    seq(|ps|, j requires 0 <= j < |ps| => SetupProperty(ps[j], navs, rules, nullable, env))
  }

  /** The first loop of SetupValidators on one entity type. */
  function SetupEntity(e: EntityValue, nullable: set<string>, env: Environment): Result<EntityValue>
  {
    match FindModelType(env.types, e.shortName)
    case None => Success(e)
    case Some(t) =>
      match env.rulesFor(t)
      case None => Success(e)
      case Some(rules) =>
        match Collect(PropertyResults(e.dataProperties, e.navigationProperties, rules, nullable, env))
        case Failure(err) => Failure(err)
        case Success(ps) => Success(e.(dataProperties := ps))
  }

  // ------------------------------------------------------- versioned relaxation

  const AuditProperties := ["CreatedDate", "CreatedBy", "CreatedById", "ModifiedByDate", "ModifiedBy", "ModifiedById"]

  /** FirstOrDefault by name, then Remove of the match. */
  function RemoveFirstNamed(vs: seq<Validator>, name: string): seq<Validator>
  {
    match FirstNamed(vs, name)
    case None => vs
    case Some(x) => Remove(vs, x)
  }

  /** The versioned check as written: the resolved type can be assigned from IVersionedEntity. */
  predicate PassesVersionedCheck(e: EntityValue, env: Environment)
  {
    var t := env.resolve(e.namespace + "." + e.shortName);
    t.Some? && t.value.assignableFromVersionedEntity
  }

  function Relaxed(p: DataPropertyValue): DataPropertyValue
  {
    if p.nameOnServer in AuditProperties then p.(isNullable := true, validators := RemoveFirstNamed(p.validators, "required"))
    else p
  }

  /** The second loop of SetupValidators on one entity type. */
  function RelaxEntity(e: EntityValue, env: Environment): EntityValue
  {
    if PassesVersionedCheck(e, env) then
      e.(dataProperties := seq(|e.dataProperties|, j requires 0 <= j < |e.dataProperties| => Relaxed(e.dataProperties[j])))
    else e
  }

  /** Slicing past the head of a list: how the pieces of vs[1..] sit in vs. */
  lemma {:induction false} ConsSlices(vs: seq<Validator>, j: nat, name: string)
    requires j + 1 < |vs|
    ensures CountNamed(vs[..j + 1], name) == (if vs[0].name == name then 1 else 0) + CountNamed(vs[1..][..j], name)
    ensures [vs[0]] + (vs[1..][..j] + vs[1..][j + 1..]) == vs[..j + 1] + vs[j + 2..]
  {
    var w := vs[..j + 1];
    assert w[0] == vs[0] && w[1..] == vs[1..][..j];
    assert vs[1..][j + 1..] == vs[j + 2..];
  }

  /** RemoveFirstNamed cuts out exactly the first validator of that name, if there is one. */
  lemma {:induction false} RemoveFirstNamedSplits(vs: seq<Validator>, name: string) returns (i: nat)
    requires CountNamed(vs, name) > 0
    ensures i < |vs| && vs[i].name == name && CountNamed(vs[..i], name) == 0
    ensures RemoveFirstNamed(vs, name) == vs[..i] + vs[i + 1..]
  {
    if vs[0].name == name {
      i := 0;
      assert vs[..0] == [];
    } else {
      var j := RemoveFirstNamedSplits(vs[1..], name);
      i := j + 1;
      ConsSlices(vs, j, name);
      var x := FirstNamed(vs[1..], name).value;
      assert vs[0] != x;
    }
  }

  /** Cutting out the validator at index i lowers the count of its name by one and leaves other names alone. */
  lemma {:induction false} CountNamedSplice(vs: seq<Validator>, i: nat, name: string)
    requires i < |vs|
    ensures CountNamed(vs, name) == CountNamed(vs[..i] + vs[i + 1..], name) + (if vs[i].name == name then 1 else 0)
  {
    assert vs == vs[..i] + ([vs[i]] + vs[i + 1..]);
    CountNamedAppend(vs[..i], [vs[i]] + vs[i + 1..], name);
    CountNamedAppend([vs[i]], vs[i + 1..], name);
    CountNamedAppend(vs[..i], vs[i + 1..], name);
    assert [vs[i]][1..] == [];
  }

  /** RemoveFirstNamed takes one validator of that name away, if any, and no validator of another name. */
  lemma {:induction false} RemoveFirstNamedCount(vs: seq<Validator>, name: string, other: string)
    ensures CountNamed(RemoveFirstNamed(vs, name), name) == if CountNamed(vs, name) > 0 then CountNamed(vs, name) - 1 else 0
    ensures other != name ==> CountNamed(RemoveFirstNamed(vs, name), other) == CountNamed(vs, other)
  {
    if CountNamed(vs, name) > 0 {
      var i := RemoveFirstNamedSplits(vs, name);
      CountNamedSplice(vs, i, name);
      CountNamedSplice(vs, i, other);
    } else {
      assert FirstNamed(vs, name).None?;
    }
  }

  /**
   * For an entity that passes the versioned check, each audit property becomes
   * nullable and loses one "required" validator (its first) and nothing else;
   * every other property is untouched. An entity that fails the check is
   * untouched.
   */
  lemma {:induction false} RelaxEntityAudit(e: EntityValue, env: Environment)
    ensures !PassesVersionedCheck(e, env) ==> RelaxEntity(e, env) == e
    ensures |RelaxEntity(e, env).dataProperties| == |e.dataProperties|
    ensures RelaxEntity(e, env).(dataProperties := e.dataProperties) == e
    ensures PassesVersionedCheck(e, env) ==> forall j :: 0 <= j < |e.dataProperties| ==>
      var p := e.dataProperties[j];
      var q := RelaxEntity(e, env).dataProperties[j];
      if p.nameOnServer in AuditProperties then
        q.(isNullable := p.isNullable, validators := p.validators) == p
        && q.isNullable
        && q.validators == RemoveFirstNamed(p.validators, "required")
        && (CountNamed(p.validators, "required") == 0 ==> q.validators == p.validators)
        && (CountNamed(p.validators, "required") > 0 ==>
              exists i :: 0 <= i < |p.validators| && p.validators[i].name == "required"
                && CountNamed(p.validators[..i], "required") == 0
                && q.validators == p.validators[..i] + p.validators[i + 1..])
        && CountNamed(q.validators, "required") == (if CountNamed(p.validators, "required") > 0 then CountNamed(p.validators, "required") - 1 else 0)
        && |q.validators| == |p.validators| - (if CountNamed(p.validators, "required") > 0 then 1 else 0)
      else q == p
  {
    if PassesVersionedCheck(e, env) {
      forall j | 0 <= j < |e.dataProperties| && e.dataProperties[j].nameOnServer in AuditProperties
        ensures var vs := e.dataProperties[j].validators;
          var ws := RelaxEntity(e, env).dataProperties[j].validators;
          CountNamed(ws, "required") == (if CountNamed(vs, "required") > 0 then CountNamed(vs, "required") - 1 else 0)
          && |ws| == |vs| - (if CountNamed(vs, "required") > 0 then 1 else 0)
          && (CountNamed(vs, "required") == 0 ==> ws == vs)
          && (CountNamed(vs, "required") > 0 ==>
                exists i :: 0 <= i < |vs| && vs[i].name == "required"
                  && CountNamed(vs[..i], "required") == 0 && ws == vs[..i] + vs[i + 1..])
      {
        var vs := e.dataProperties[j].validators;
        RemoveFirstNamedCount(vs, "required", "required");
        if CountNamed(vs, "required") > 0 {
          var i := RemoveFirstNamedSplits(vs, "required");
        } else {
          assert FirstNamed(vs, "required").None?;
        }
      }
    }
  }

  /**
   * The versioned check as written misses its target: a resolved class other
   * than System.Object is never relaxed, even when it implements
   * IVersionedEntity.
   */
  lemma {:induction false} VersionedCheckMissesClasses(e: EntityValue, env: Environment)
    requires env.resolve(e.namespace + "." + e.shortName).Some?
    requires var t := env.resolve(e.namespace + "." + e.shortName).value;
      AssignabilityConsistent(t) && t.isClass && FullName(t) != "System.Object"
    ensures RelaxEntity(e, env) == e
  {
  }

  /** The outcome of the first loop's body on each entity type. */
  function EntityResults(ts: seq<EntityValue>, nullable: set<string>, env: Environment): (r: seq<Result<EntityValue>>)
    ensures |r| == |ts| && forall i :: 0 <= i < |ts| ==> r[i] == SetupEntity(ts[i], nullable, env)
  {
    seq(|ts|, i requires 0 <= i < |ts| => SetupEntity(ts[i], nullable, env))
  }

  /** The second loop of SetupValidators over all entity types. */
  function RelaxEntities(es: seq<EntityValue>, env: Environment): (r: seq<EntityValue>)
    ensures |r| == |es| && forall i :: 0 <= i < |es| ==> r[i] == RelaxEntity(es[i], env)
  {
    seq(|es|, i requires 0 <= i < |es| => RelaxEntity(es[i], env))
  }

  /** The whole of SetupValidators: the entity loop, then the relaxation loop. */
  function SetupValidatorsOn(s: SchemaValue, nullable: set<string>, env: Environment): Result<SchemaValue>
  {
    match Collect(EntityResults(s.structuralTypes, nullable, env))
    case Failure(err) => Failure(err)
    case Success(es) => Success(s.(structuralTypes := RelaxEntities(es, env)))
  }

  /** A successful setup keeps each property's identity and changes only nullability and validators. */
  lemma {:induction false} SetupPropertyKeepsIdentity(p: DataPropertyValue, navs: seq<NavigationProperty>, rules: seq<ValidationRule>,
                                   nullable: set<string>, env: Environment)
    requires SetupProperty(p, navs, rules, nullable, env).Success?
    ensures SetupProperty(p, navs, rules, nullable, env).value.(isNullable := p.isNullable, validators := p.validators) == p
    ensures p.isNullable ==> SetupProperty(p, navs, rules, nullable, env).value.isNullable
  {
    ConvertCharacterized(p.validators, p.isNullable, ContextOf(p, navs, nullable, env));
  }

  /**
   * SetupValidators keeps the schema's shape: the same entity types in the same
   * order with the same headers and navigation properties, each with the same
   * number of data properties under the same names, and the same resource map.
   */
  lemma {:induction false} SetupValidatorsKeepsShape(s: SchemaValue, nullable: set<string>, env: Environment)
    requires SetupValidatorsOn(s, nullable, env).Success?
    ensures SetupValidatorsOn(s, nullable, env).value.resourceEntityTypeMap == s.resourceEntityTypeMap
    ensures |SetupValidatorsOn(s, nullable, env).value.structuralTypes| == |s.structuralTypes|
    ensures forall i :: 0 <= i < |s.structuralTypes| ==>
      var e := s.structuralTypes[i];
      var e' := SetupValidatorsOn(s, nullable, env).value.structuralTypes[i];
      e'.(dataProperties := e.dataProperties) == e
      && |e'.dataProperties| == |e.dataProperties|
      && forall j :: 0 <= j < |e.dataProperties| ==> e'.dataProperties[j].nameOnServer == e.dataProperties[j].nameOnServer
  {
    var ts := s.structuralTypes;
    var rs := EntityResults(ts, nullable, env);
    CollectSuccess(rs);
    var es := Collect(rs).value;
    forall i | 0 <= i < |ts|
      ensures es[i].(dataProperties := ts[i].dataProperties) == ts[i]
      ensures |es[i].dataProperties| == |ts[i].dataProperties|
      ensures forall j :: 0 <= j < |ts[i].dataProperties| ==> es[i].dataProperties[j].nameOnServer == ts[i].dataProperties[j].nameOnServer
    {
      SetupEntityKeepsShape(ts[i], nullable, env);
    }
    forall i | 0 <= i < |ts|
    {
      RelaxEntityAudit(es[i], env);
    }
  }

  lemma {:induction false} SetupEntityKeepsShape(e: EntityValue, nullable: set<string>, env: Environment)
    requires SetupEntity(e, nullable, env).Success?
    ensures SetupEntity(e, nullable, env).value.(dataProperties := e.dataProperties) == e
    ensures |SetupEntity(e, nullable, env).value.dataProperties| == |e.dataProperties|
    ensures forall j :: 0 <= j < |e.dataProperties| ==>
      SetupEntity(e, nullable, env).value.dataProperties[j].nameOnServer == e.dataProperties[j].nameOnServer
  {
    var t := FindModelType(env.types, e.shortName);
    if t.Some? && env.rulesFor(t.value).Some? {
      var rules := env.rulesFor(t.value).value;
      var ps := e.dataProperties;
      CollectSuccess(PropertyResults(ps, e.navigationProperties, rules, nullable, env));
    }
  }

  // ----------------------------------------------------------------- client models

  /** A concrete class implementing IClientModel. */
  predicate IsClientModelClass(t: TypeDescriptor)
  {
    t.isClass && !t.isAbstract && t.isClientModel
  }

  function ClientModelTypes(types: seq<TypeDescriptor>): (r: seq<TypeDescriptor>)
    ensures forall t :: t in r <==> t in types && IsClientModelClass(t)
  {
    if types == [] then []
    else if IsClientModelClass(types[0]) then [types[0]] + ClientModelTypes(types[1..])
    else ClientModelTypes(types[1..])
  }

  /** A property the owner declares itself, other than "Id". */
  predicate IsDeclaredBy(d: PropertyDescriptor, owner: string)
  {
    d.name != "Id" && d.declaringType == owner
  }

  /** The properties a client model declares itself, other than "Id", in order. */
  function DeclaredProperties(ps: seq<PropertyDescriptor>, owner: string): (r: seq<PropertyDescriptor>)
    ensures forall d :: d in r <==> d in ps && d.name != "Id" && d.declaringType == owner
  {
    if ps == [] then []
    else if IsDeclaredBy(ps[0], owner) then [ps[0]] + DeclaredProperties(ps[1..], owner)
    else DeclaredProperties(ps[1..], owner)
  }

  /**
   * idx places r in ps as the C# Where does: strictly increasing positions,
   * and every position whose property the type declares itself, other than
   * "Id", is among them.
   */
  ghost predicate DeclaredEmbedding(idx: seq<nat>, r: seq<PropertyDescriptor>, ps: seq<PropertyDescriptor>, owner: string)
  {
    |idx| == |r|
    && (forall k :: 0 <= k < |idx| ==> idx[k] < |ps| && ps[idx[k]] == r[k])
    && (forall k, l :: 0 <= k < l < |idx| ==> idx[k] < idx[l])
    && (forall i :: 0 <= i < |ps| && IsDeclaredBy(ps[i], owner) ==> exists k :: 0 <= k < |idx| && idx[k] == i)
  }

  /** The positions in ps of the properties DeclaredProperties keeps. */
  lemma {:induction false} DeclaredPositions(ps: seq<PropertyDescriptor>, owner: string) returns (idx: seq<nat>)
    ensures DeclaredEmbedding(idx, DeclaredProperties(ps, owner), ps, owner)
  {
    if ps == [] {
      idx := [];
    } else {
      var tail := DeclaredProperties(ps[1..], owner);
      var rest := DeclaredPositions(ps[1..], owner);
      var shifted := ShiftedPositions(ps, owner, tail, rest);
      if IsDeclaredBy(ps[0], owner) {
        idx := HeadPositions(ps, owner, tail, shifted);
      } else {
        idx := shifted;
      }
    }
  }

  /** The positions when the head of ps is kept: 0, then the tail's positions moved up by one. */
  lemma {:induction false} HeadPositions(ps: seq<PropertyDescriptor>, owner: string, tail: seq<PropertyDescriptor>, shifted: seq<nat>)
    returns (idx: seq<nat>)
    requires ps != [] && IsDeclaredBy(ps[0], owner)
    requires |shifted| == |tail|
    requires forall k :: 0 <= k < |shifted| ==> 1 <= shifted[k] < |ps| && ps[shifted[k]] == tail[k]
    requires forall k, l :: 0 <= k < l < |shifted| ==> shifted[k] < shifted[l]
    requires forall i :: 1 <= i < |ps| && IsDeclaredBy(ps[i], owner) ==> exists k :: 0 <= k < |shifted| && shifted[k] == i
    ensures DeclaredEmbedding(idx, [ps[0]] + tail, ps, owner)
  {
    var r := [ps[0]] + tail;
    idx := [0] + shifted;
    forall k | 0 <= k < |idx|
      ensures idx[k] < |ps| && ps[idx[k]] == r[k]
    {
      if k > 0 {
        assert idx[k] == shifted[k - 1] && r[k] == tail[k - 1];
      }
    }
    forall k, l | 0 <= k < l < |idx|
      ensures idx[k] < idx[l]
    {
      assert idx[l] == shifted[l - 1];
      if k > 0 {
        assert idx[k] == shifted[k - 1];
      }
    }
    forall i | 0 <= i < |ps| && IsDeclaredBy(ps[i], owner)
      ensures exists k :: 0 <= k < |idx| && idx[k] == i
    {
      if i == 0 {
        assert idx[0] == 0;
      } else {
        var k :| 0 <= k < |shifted| && shifted[k] == i;
        assert idx[k + 1] == i;
      }
    }
  }

  /** Positions in ps[1..] moved up by one: the tail's filter, placed in ps. */
  lemma {:induction false} ShiftedPositions(ps: seq<PropertyDescriptor>, owner: string, tail: seq<PropertyDescriptor>, rest: seq<nat>)
    returns (shifted: seq<nat>)
    requires ps != []
    requires DeclaredEmbedding(rest, tail, ps[1..], owner)
    ensures |shifted| == |tail|
    ensures forall k :: 0 <= k < |shifted| ==> 1 <= shifted[k] < |ps| && ps[shifted[k]] == tail[k]
    ensures forall k, l :: 0 <= k < l < |shifted| ==> shifted[k] < shifted[l]
    ensures forall i :: 1 <= i < |ps| && IsDeclaredBy(ps[i], owner) ==> exists k :: 0 <= k < |shifted| && shifted[k] == i
  {
    shifted := seq(|rest|, k requires 0 <= k < |rest| => rest[k] + 1);
    forall k | 0 <= k < |shifted|
      ensures 1 <= shifted[k] < |ps| && ps[shifted[k]] == tail[k]
    {
      assert ps[shifted[k]] == ps[1..][rest[k]];
    }
    forall i | 1 <= i < |ps| && IsDeclaredBy(ps[i], owner)
      ensures exists k :: 0 <= k < |shifted| && shifted[k] == i
    {
      assert ps[1..][i - 1] == ps[i];
      var k :| 0 <= k < |rest| && rest[k] == i - 1;
      assert shifted[k] == i;
    }
  }

  /**
   * DeclaredProperties keeps the declared properties other than "Id" in the
   * order ps lists them, each once per occurrence, and nothing else.
   */
  lemma {:induction false} DeclaredPropertiesInOrder(ps: seq<PropertyDescriptor>, owner: string)
    ensures exists idx :: DeclaredEmbedding(idx, DeclaredProperties(ps, owner), ps, owner)
  {
    var idx := DeclaredPositions(ps, owner);
  }

  /** The key every client model gets: "Id", an Int64 that is never null, with an "integer" validator. */
  const IdProperty := DataPropertyValue("Id", "Int64", true, None, None, false, [Validator("integer", NoParameters)])

  function ClientProperty(d: PropertyDescriptor, env: Environment): DataPropertyValue
  {
    DataPropertyValue(d.name, env.dataTypeOf(NonNullable(d.propertyType)), false, None, None,
                      !IsValueType(d.propertyType) || NullableUnderlying(d.propertyType).Some?, [])
  }

  function ClientProperties(ds: seq<PropertyDescriptor>, env: Environment): seq<DataPropertyValue>
  {
    seq(|ds|, j requires 0 <= j < |ds| => ClientProperty(ds[j], env))
  }

  /** The unmapped entity type built for a client model class. */
  function ClientEntity(t: TypeDescriptor, env: Environment): EntityValue
  {
    EntityValue(t.name, t.namespace, KeyGenerator, Pluralize(t.name), true, [],
                [IdProperty] + ClientProperties(DeclaredProperties(t.properties, FullName(t)), env))
  }

  /** One iteration of the client-model loop: append the entity, map its resource name. */
  function AddClientModel(s: SchemaValue, t: TypeDescriptor, env: Environment): SchemaValue
  {
    var e := ClientEntity(t, env);
    SchemaValue(s.structuralTypes + [e],
                s.resourceEntityTypeMap[e.defaultResourceName := e.shortName + ":#" + e.namespace])
  }

  function AddClientModels(s: SchemaValue, ts: seq<TypeDescriptor>, env: Environment): SchemaValue
    decreases |ts|
  {
    if ts == [] then s else AddClientModels(AddClientModel(s, ts[0], env), ts[1..], env)
  }

  /** The whole of SetupClientModels. */
  function SetupClientModelsOn(s: SchemaValue, env: Environment): SchemaValue
  {
    AddClientModels(s, ClientModelTypes(env.types), env)
  }

  /** The handler: client models first, then validators. */
  function HandleOn(s: SchemaValue, nullable: set<string>, env: Environment): Result<SchemaValue>
  {
    SetupValidatorsOn(SetupClientModelsOn(s, env), nullable, env)
  }

  /**
   * A client model's entity type: an unmapped, key-generated type named after
   * the class with a pluralised resource name, whose data properties are the
   * "Id" key followed by one non-key property per declared property; each is
   * nullable exactly when its type is a reference type or Nullable<T>.
   */
  lemma {:induction false} ClientEntityShape(t: TypeDescriptor, env: Environment)
    ensures var e := ClientEntity(t, env);
      e.shortName == t.name && e.namespace == t.namespace && e.isUnmapped
      && e.autoGeneratedKeyType == KeyGenerator && e.defaultResourceName == Pluralize(t.name)
    ensures var e := ClientEntity(t, env);
      |e.dataProperties| == 1 + |DeclaredProperties(t.properties, FullName(t))| && e.dataProperties[0] == IdProperty
      && (exists idx :: DeclaredEmbedding(idx, DeclaredProperties(t.properties, FullName(t)), t.properties, FullName(t)))
    ensures var e := ClientEntity(t, env);
      forall j :: 1 <= j < |e.dataProperties| ==>
        var d := DeclaredProperties(t.properties, FullName(t))[j - 1];
        var p := e.dataProperties[j];
        p == ClientProperty(d, env)
        && d in t.properties && d.declaringType == FullName(t) && d.name != "Id"
        && p.nameOnServer == d.name && !p.isPartOfKey && p.validators == []
        && (p.isNullable <==> !IsValueType(d.propertyType) || d.propertyType.NullableOf?)
        && p.dataType == env.dataTypeOf(NonNullable(d.propertyType))
  {
    var e := ClientEntity(t, env);
    var ds := DeclaredProperties(t.properties, FullName(t));
    assert |e.dataProperties| == 1 + |ds| && e.dataProperties[0] == IdProperty
      && (exists idx :: DeclaredEmbedding(idx, ds, t.properties, FullName(t)))
    by {
      ClientEntityLayout(t, env);
    }
    forall j | 1 <= j < |e.dataProperties|
      ensures var d := ds[j - 1];
        var p := e.dataProperties[j];
        p == ClientProperty(d, env)
        && d in t.properties && d.declaringType == FullName(t) && d.name != "Id"
        && p.nameOnServer == d.name && !p.isPartOfKey && p.validators == []
        && (p.isNullable <==> !IsValueType(d.propertyType) || d.propertyType.NullableOf?)
        && p.dataType == env.dataTypeOf(NonNullable(d.propertyType))
    {
      var d := ClientEntityProperty(t, env, j);
    }
  }

  /** Each property after the key comes from a declared property, and each declared property is there. */
  lemma {:induction false} ClientEntityProvenance(t: TypeDescriptor, env: Environment)
    ensures var e := ClientEntity(t, env);
      forall j :: 1 <= j < |e.dataProperties| ==>
        var p := e.dataProperties[j];
        p.nameOnServer != "Id" && !p.isPartOfKey && p.validators == []
        && (exists d :: d in t.properties && d.declaringType == FullName(t) && d.name == p.nameOnServer
              && (p.isNullable <==> !IsValueType(d.propertyType) || d.propertyType.NullableOf?)
              && p.dataType == env.dataTypeOf(NonNullable(d.propertyType)))
    ensures var e := ClientEntity(t, env);
      forall d :: d in t.properties && d.declaringType == FullName(t) && d.name != "Id" ==>
        exists j :: 1 <= j < |e.dataProperties| && e.dataProperties[j] == ClientProperty(d, env)
  {
    var e := ClientEntity(t, env);
    forall j | 1 <= j < |e.dataProperties|
      ensures var p := e.dataProperties[j];
        p.nameOnServer != "Id" && !p.isPartOfKey && p.validators == []
        && (exists d :: d in t.properties && d.declaringType == FullName(t) && d.name == p.nameOnServer
              && (p.isNullable <==> !IsValueType(d.propertyType) || d.propertyType.NullableOf?)
              && p.dataType == env.dataTypeOf(NonNullable(d.propertyType)))
    {
      var d := ClientEntityProperty(t, env, j);
    }
    forall d | d in t.properties && d.declaringType == FullName(t) && d.name != "Id"
      ensures exists j :: 1 <= j < |e.dataProperties| && e.dataProperties[j] == ClientProperty(d, env)
    {
      var j := ClientEntityCovers(t, env, d);
    }
  }


  /**
   * The data properties of a client model's entity type: the "Id" key, then
   * one property per declared property, in the order the type lists them.
   */
  lemma {:induction false} ClientEntityLayout(t: TypeDescriptor, env: Environment)
    ensures var e := ClientEntity(t, env);
      |e.dataProperties| == 1 + |DeclaredProperties(t.properties, FullName(t))| && e.dataProperties[0] == IdProperty
      && (forall j :: 1 <= j < |e.dataProperties| ==>
            e.dataProperties[j] == ClientProperty(DeclaredProperties(t.properties, FullName(t))[j - 1], env))
      && (exists idx :: DeclaredEmbedding(idx, DeclaredProperties(t.properties, FullName(t)), t.properties, FullName(t)))
  {
    var e := ClientEntity(t, env);
    var ds := DeclaredProperties(t.properties, FullName(t));
    var cs := ClientProperties(ds, env);
    assert e.dataProperties == [IdProperty] + cs;
    forall j | 1 <= j < |e.dataProperties|
      ensures e.dataProperties[j] == ClientProperty(ds[j - 1], env)
    {
      assert e.dataProperties[j] == cs[j - 1];
    }
    var idx := DeclaredPositions(t.properties, FullName(t));
  }

  /** Property j >= 1 of a client model's entity type comes from declared property d. */
  lemma {:induction false} ClientEntityProperty(t: TypeDescriptor, env: Environment, j: nat) returns (d: PropertyDescriptor)
    requires 1 <= j < |ClientEntity(t, env).dataProperties|
    ensures d == DeclaredProperties(t.properties, FullName(t))[j - 1]
    ensures d in t.properties && d.declaringType == FullName(t) && d.name != "Id"
    ensures ClientEntity(t, env).dataProperties[j] == ClientProperty(d, env)
    ensures ClientProperty(d, env).isNullable <==> !IsValueType(d.propertyType) || d.propertyType.NullableOf?
  {
    var ds := DeclaredProperties(t.properties, FullName(t));
    d := ds[j - 1];
    assert d in ds;
  }

  /** Every declared property other than "Id" has its property in the client model's entity type. */
  lemma {:induction false} ClientEntityCovers(t: TypeDescriptor, env: Environment, d: PropertyDescriptor) returns (j: nat)
    requires d in t.properties && d.declaringType == FullName(t) && d.name != "Id"
    ensures 1 <= j < |ClientEntity(t, env).dataProperties| && ClientEntity(t, env).dataProperties[j] == ClientProperty(d, env)
  {
    var ds := DeclaredProperties(t.properties, FullName(t));
    var k :| 0 <= k < |ds| && ds[k] == d;
    j := k + 1;
  }

  /** The entity types of a run of client model classes, in order. */
  function ClientEntities(ts: seq<TypeDescriptor>, env: Environment): (r: seq<EntityValue>)
    ensures |r| == |ts| && forall i :: 0 <= i < |ts| ==> r[i] == ClientEntity(ts[i], env)
  {
    seq(|ts|, i requires 0 <= i < |ts| => ClientEntity(ts[i], env))
  }

  lemma {:induction false} ClientEntitiesCons(ts: seq<TypeDescriptor>, env: Environment)
    requires ts != []
    ensures ClientEntities(ts, env) == [ClientEntity(ts[0], env)] + ClientEntities(ts[1..], env)
  {
  }

  /** SetupClientModels appends one entity type per client model class, in order. */
  lemma {:induction false} AddClientModelsAppends(s: SchemaValue, ts: seq<TypeDescriptor>, env: Environment)
    ensures AddClientModels(s, ts, env).structuralTypes == s.structuralTypes + ClientEntities(ts, env)
    decreases |ts|
  {
    if ts != [] {
      var s' := AddClientModel(s, ts[0], env);
      AddClientModelsAppends(s', ts[1..], env);
      ClientEntitiesCons(ts, env);
      ConcatAssociative(s.structuralTypes, [ClientEntity(ts[0], env)], ClientEntities(ts[1..], env));
    } else {
      assert s.structuralTypes + [] == s.structuralTypes;
    }
  }

  /**
   * The resource map after SetupClientModels: a client model's pluralised name
   * maps to its "ShortName:#Namespace" unless a later client model has the
   * same plural.
   */
  lemma {:induction false} AddClientModelsResourceEntry(s: SchemaValue, ts: seq<TypeDescriptor>, env: Environment, i: nat)
    requires i < |ts|
    requires forall j :: i < j < |ts| ==> Pluralize(ts[j].name) != Pluralize(ts[i].name)
    ensures var m := AddClientModels(s, ts, env).resourceEntityTypeMap;
      Pluralize(ts[i].name) in m && m[Pluralize(ts[i].name)] == ts[i].name + ":#" + ts[i].namespace
    decreases |ts|
  {
    var s' := AddClientModel(s, ts[0], env);
    assert AddClientModels(s, ts, env) == AddClientModels(s', ts[1..], env);
    if i > 0 {
      assert ts[1..][i - 1] == ts[i];
      forall j | i - 1 < j < |ts[1..]|
        ensures Pluralize(ts[1..][j].name) != Pluralize(ts[1..][i - 1].name)
      {
        assert ts[1..][j] == ts[j + 1];
      }
      AddClientModelsResourceEntry(s', ts[1..], env, i - 1);
    } else {
      var key := Pluralize(ts[0].name);
      assert key in s'.resourceEntityTypeMap && s'.resourceEntityTypeMap[key] == ts[0].name + ":#" + ts[0].namespace;
      forall t | t in ts[1..]
        ensures Pluralize(t.name) != key
      {
        var j :| 0 <= j < |ts[1..]| && ts[1..][j] == t;
        assert ts[j + 1] == t;
      }
      AddClientModelsResourceOthers(s', ts[1..], env);
    }
  }

  /** SetupClientModels leaves every resource-map entry no client model pluralises to as it was. */
  lemma {:induction false} AddClientModelsResourceOthers(s: SchemaValue, ts: seq<TypeDescriptor>, env: Environment)
    ensures forall k :: (forall t :: t in ts ==> Pluralize(t.name) != k) ==>
      var m := AddClientModels(s, ts, env).resourceEntityTypeMap;
      (k in m <==> k in s.resourceEntityTypeMap) && (k in m ==> m[k] == s.resourceEntityTypeMap[k])
    decreases |ts|
  {
    if ts != [] {
      var s' := AddClientModel(s, ts[0], env);
      AddClientModelsResourceOthers(s', ts[1..], env);
      forall k | forall t :: t in ts ==> Pluralize(t.name) != k
        ensures var m := AddClientModels(s, ts, env).resourceEntityTypeMap;
          (k in m <==> k in s.resourceEntityTypeMap) && (k in m ==> m[k] == s.resourceEntityTypeMap[k])
      {
        assert ts[0] in ts;
        forall t | t in ts[1..]
          ensures Pluralize(t.name) != k
        {
          assert t in ts;
        }
      }
    }
  }
}
