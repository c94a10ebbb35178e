/**
 The schema generated from a type, and what a schema accepts under JSON Schema
 draft 2020-12.
 */
module JsonSchemas {
  import opened Common
  import opened Validation
  import opened Dispatching

  datatype JsonType = NullType | BooleanType | IntegerType | NumberType | StringType | ArrayType | ObjectType

  datatype Property = Property(name: string, schema: Schema)

  /** The keywords in use; an absent keyword, None or an empty list, constrains nothing. */
  datatype Schema = Schema(
    types: Option<seq<JsonType>>,
    enumeration: Option<seq<Literal>>,
    properties: seq<Property>,
    required: seq<string>,
    items: Option<Schema>,
    prefixItems: seq<Schema>,
    additional: Option<Schema>,
    oneOf: seq<Schema>,
    unique: bool,
    bounds: Bounds)

  datatype Bounds = Bounds(
    minimum: Option<real>,
    exclusiveMinimum: Option<real>,
    maximum: Option<real>,
    exclusiveMaximum: Option<real>,
    minLength: Option<int>,
    maxLength: Option<int>,
    minItems: Option<int>,
    maxItems: Option<int>)

  const NO_BOUNDS := Bounds(None, None, None, None, None, None, None, None)
  const EMPTY := Schema(None, None, [], [], None, [], None, [], false, NO_BOUNDS)

  // ------------------------------------------------------------------------
  // What a schema accepts
  // ------------------------------------------------------------------------

  predicate HasType(v: Json, t: JsonType)
  {
    match t
    case NullType => v.JNull?
    case BooleanType => v.JBool?
    case IntegerType => v.JInt? || (v.JFloat? && v.r == v.r.Floor as real)
    case NumberType => v.JInt? || v.JFloat?
    case StringType => v.JStr?
    case ArrayType => v.JList?
    case ObjectType => v.JObj?
  }

  /** Equality of JSON values: a number equals a number, never a boolean. */
  predicate EqualsLiteral(v: Json, l: Literal)
  {
    match l
    case LStr(s) => v == JStr(s)
    case LInt(i) => v == JInt(i) || v == JFloat(i as real)
    case LBool(b) => v == JBool(b)
    case LNone => v == JNull
  }

  /** Equality of JSON values; members of an object have different keys and no order. */
  predicate SameJson(a: Json, b: Json)
    decreases a
  {
    match a
    case JInt(i) => b == a || b == JFloat(i as real)
    case JFloat(r) => b == a || (b.JInt? && b.i as real == r)
    case JList(items) =>
      b.JList? && |items| == |b.items| && forall i :: 0 <= i < |items| ==> SameJson(items[i], b.items[i])
    case JObj(members) =>
      b.JObj? && |members| == |b.members| &&
      forall i :: 0 <= i < |members| ==>
        exists j :: 0 <= j < |b.members| && members[i].key == b.members[j].key &&
                    SameJson(members[i].value, b.members[j].value)
    case _ => a == b
  }

  predicate Distinct(items: seq<Json>)
  {
    forall i, j :: 0 <= i < j < |items| ==> !SameJson(items[i], items[j])
  }

  /** The size and range keywords, each for its own kind of value. */
  predicate WithinBounds(v: Json, b: Bounds)
  {
    match v
    case JInt(i) => InRange(i as real, b)
    case JFloat(r) => InRange(r, b)
    case JStr(s) =>
      (b.minLength.Some? ==> |s| >= b.minLength.value) && (b.maxLength.Some? ==> |s| <= b.maxLength.value)
    case JList(items) =>
      (b.minItems.Some? ==> |items| >= b.minItems.value) && (b.maxItems.Some? ==> |items| <= b.maxItems.value)
    case _ => true
  }

  predicate InRange(x: real, b: Bounds)
  {
    && (b.minimum.Some? ==> x >= b.minimum.value)
    && (b.exclusiveMinimum.Some? ==> x > b.exclusiveMinimum.value)
    && (b.maximum.Some? ==> x <= b.maximum.value)
    && (b.exclusiveMaximum.Some? ==> x < b.exclusiveMaximum.value)
  }

  function PropertyName(p: Property): string
  {
    p.name
  }

  function PropertyIndex(properties: seq<Property>, name: string): (i: Option<nat>)
    ensures i.Some? ==> i.value < |properties| && properties[i.value].name == name
  {
    IndexOf(properties, PropertyName, name)
  }

  predicate HasMember(v: Json, name: string)
    requires v.JObj?
  {
    MemberIndex(v.members, name).Some?
  }

  predicate TypeOk(types: Option<seq<JsonType>>, v: Json)
  {
    types.Some? ==> exists i :: 0 <= i < |types.value| && HasType(v, types.value[i])
  }

  predicate EnumOk(enumeration: Option<seq<Literal>>, v: Json)
  {
    enumeration.Some? ==> exists i :: 0 <= i < |enumeration.value| && EqualsLiteral(v, enumeration.value[i])
  }

  predicate RequiredOk(required: seq<string>, v: Json)
  {
    v.JObj? ==> forall i :: 0 <= i < |required| ==> HasMember(v, required[i])
  }

  /** `properties` for the members they name, `additionalProperties` for the others. */
  predicate MembersOk(s: Schema, v: Json)
    decreases s, 0
  {
    v.JObj? ==> forall i :: 0 <= i < |v.members| ==>
      match PropertyIndex(s.properties, v.members[i].key)
      case Some(k) => Satisfies(s.properties[k].schema, v.members[i].value)
      case None => s.additional.Some? ==> Satisfies(s.additional.value, v.members[i].value)
  }

  /** `prefixItems` for the first items, `items` for the others, `uniqueItems` for all. */
  predicate ItemsOk(s: Schema, v: Json)
    decreases s, 0
  {
    v.JList? ==>
      && (forall i :: 0 <= i < |v.items| && i < |s.prefixItems| ==> Satisfies(s.prefixItems[i], v.items[i]))
      && (s.items.Some? ==> forall i :: |s.prefixItems| <= i < |v.items| ==> Satisfies(s.items.value, v.items[i]))
      && (s.unique ==> Distinct(v.items))
  }

  /** `v` satisfies `s`: every keyword is met. */
  predicate Satisfies(s: Schema, v: Json)
    decreases s, 1
  {
    && TypeOk(s.types, v)
    && EnumOk(s.enumeration, v)
    && WithinBounds(v, s.bounds)
    && RequiredOk(s.required, v)
    && MembersOk(s, v)
    && ItemsOk(s, v)
    && (s.oneOf != [] ==> ExactlyOne(s.oneOf, v))
  }

  predicate ExactlyOne(schemas: seq<Schema>, v: Json)
    decreases schemas, 0
  {
    exists i :: 0 <= i < |schemas| && Satisfies(schemas[i], v) &&
      forall j :: 0 <= j < |schemas| && j != i ==> !Satisfies(schemas[j], v)
  }

  // ------------------------------------------------------------------------
  // The generator
  // ------------------------------------------------------------------------

  function OfType(t: JsonType): Schema
  {
    EMPTY.(types := Some([t]))
  }

  /** `schema.update(kw)`: a later constraint replaces an earlier one of the same keyword. */
  function WithConstraint(s: Schema, c: Constraint): Schema
  {
    var isArray := s.types == Some([ArrayType]);
    var b := s.bounds;
    s.(bounds := match c
      case Gt(x) => b.(exclusiveMinimum := Some(x))
      case Ge(x) => b.(minimum := Some(x))
      case Lt(x) => b.(exclusiveMaximum := Some(x))
      case Le(x) => b.(maximum := Some(x))
      case MinLen(n) => if isArray then b.(minItems := Some(n)) else b.(minLength := Some(n))
      case MaxLen(n) => if isArray then b.(maxItems := Some(n)) else b.(maxLength := Some(n)))
  }

  function WithConstraints(s: Schema, cs: seq<Constraint>): Schema
  {
    if cs == [] then s else WithConstraint(WithConstraints(s, cs[..|cs| - 1]), cs[|cs| - 1])
  }

  function NullBranch(optional: bool): seq<Schema>
  {
    if optional then [OfType(NullType)] else []
  }

  /** `_type_to_schema`. */
  function ToSchema(t: Ty): Schema
    decreases t, 1, 0
  {
    match t
    case TAny => EMPTY
    case TNone => OfType(NullType)
    case TBool => OfType(BooleanType)
    case TInt => OfType(IntegerType)
    case TFloat => OfType(NumberType)
    case TStr => OfType(StringType)
    case TBytes => OfType(StringType)
    case TLiteral(args) => EMPTY.(enumeration := Some(args))
    case TList(item) => OfType(ArrayType).(items := Some(ToSchema(item)))
    case TSet(item) => OfType(ArrayType).(items := Some(ToSchema(item)), unique := true)
    case TTupleOf(item) => OfType(ArrayType).(items := Some(ToSchema(item)))
    case TTuple(elements) =>
      if elements == [] then OfType(ArrayType)
      else
        OfType(ArrayType).(
          prefixItems := ToSchemas(elements),
          bounds := NO_BOUNDS.(minItems := Some(|elements|), maxItems := Some(|elements|)))
    case TDict(_, value) => OfType(ObjectType).(additional := Some(ToSchema(value)))
    case TStruct(_, fields) =>
      OfType(ObjectType).(properties := Properties(fields), required := RequiredNames(fields))
    case TUnion(variants, optional) =>
      if |variants| == 1 && optional then
        var s := ToSchema(variants[0]);
        if s.types.Some? then s.(types := Some(s.types.value + [NullType]))
        else EMPTY.(oneOf := [s, OfType(NullType)])
      else EMPTY.(oneOf := ToSchemas(variants) + NullBranch(optional))
    case TAnnotated(base, constraints) => WithConstraints(ToSchema(base), constraints)
  }

  function ToSchemas(ts: seq<Ty>): (ss: seq<Schema>)
    ensures |ss| == |ts|
    decreases ts, 0, 0
  {
    if ts == [] then [] else [ToSchema(ts[0])] + ToSchemas(ts[1..])
  }

  function Properties(fields: seq<Field>): (ps: seq<Property>)
    ensures |ps| == |fields|
    decreases fields, 0, 0
  {
    if fields == [] then [] else [Property(fields[0].name, ToSchema(fields[0].ty))] + Properties(fields[1..])
  }

  function RequiredNames(fields: seq<Field>): seq<string>
  {
    if fields == [] then []
    else (if fields[0].required then [fields[0].name] else []) + RequiredNames(fields[1..])
  }

  // ------------------------------------------------------------------------
  // Types and their literals
  // ------------------------------------------------------------------------

  /** The type under its annotations. */
  function Core(t: Ty): Ty
  {
    if t.TAnnotated? then Core(t.base) else t
  }

  /** The schema of a type under Optional accepts null already. */
  predicate MatchesNull(t: Ty)
  {
    match Core(t)
    case TAny => true
    case TLiteral(args) => LNone in args
    case _ => false
  }

  /** Some literal that Python finds equal to the value is a boolean just where the value is. */
  predicate LiteralFits(v: Json, args: seq<Literal>)
  {
    exists i :: 0 <= i < |args| && HashOf(v) == Some(HashOfLiteral(args[i])) && (v.JBool? <==> args[i].LBool?)
  }

  const NO_COERCION := Coercion(false, (s: string) => None, (s: string) => None)

  // ------------------------------------------------------------------------
  // Constraints become keywords
  // ------------------------------------------------------------------------

  predicate Holds(c: Constraint, v: Json)
  {
    Check(c, v) == Some(true)
  }

  lemma ConstraintWithin(s: Schema, v: Json, c: Constraint)
    requires WithinBounds(v, s.bounds) && Holds(c, v)
    ensures WithinBounds(v, WithConstraint(s, c).bounds)
  {
  }

  /** Constraints that hold keep the size and range keywords satisfied, also where one replaces another. */
  lemma {:induction false} ConstraintsKept(s: Schema, v: Json, cs: seq<Constraint>)
    requires WithinBounds(v, s.bounds) && forall i :: 0 <= i < |cs| ==> Holds(cs[i], v)
    ensures WithinBounds(v, WithConstraints(s, cs).bounds)
  {
    if cs != [] {
      ConstraintsKept(s, v, cs[..|cs| - 1]);
      ConstraintWithin(WithConstraints(s, cs[..|cs| - 1]), v, cs[|cs| - 1]);
    }
  }

  // ------------------------------------------------------------------------
  // Fields become properties
  // ------------------------------------------------------------------------

  lemma {:induction false} SchemasAt(ts: seq<Ty>, i: nat)
    requires i < |ts|
    ensures ToSchemas(ts)[i] == ToSchema(ts[i])
  {
    if i > 0 {
      SchemasAt(ts[1..], i - 1);
    }
  }

  lemma {:induction false} PropertiesAt(fields: seq<Field>, i: nat)
    requires i < |fields|
    ensures Properties(fields)[i] == Property(fields[i].name, ToSchema(fields[i].ty))
  {
    if i > 0 {
      PropertiesAt(fields[1..], i - 1);
    }
  }

  /** Sequences with the same names in the same order find a name at the same place. */
  lemma {:induction false} SameNamesSameIndex<T, U>(
      xs: seq<T>, ys: seq<U>, nameOf: T -> string, alsoNameOf: U -> string, name: string)
    requires |xs| == |ys| && forall i :: 0 <= i < |xs| ==> nameOf(xs[i]) == alsoNameOf(ys[i])
    ensures IndexOf(xs, nameOf, name) == IndexOf(ys, alsoNameOf, name)
  {
    if xs != [] {
      assert forall i :: 0 <= i < |xs[1..]| ==> xs[1..][i] == xs[i + 1] && ys[1..][i] == ys[i + 1];
      SameNamesSameIndex(xs[1..], ys[1..], nameOf, alsoNameOf, name);
    }
  }

  /** The property of a name is the schema of the field of that name. */
  lemma {:induction false} PropertyOfField(fields: seq<Field>, name: string)
    ensures PropertyIndex(Properties(fields), name) == FieldIndex(fields, name)
    ensures FieldIndex(fields, name).Some? ==>
      Properties(fields)[FieldIndex(fields, name).value].schema == ToSchema(fields[FieldIndex(fields, name).value].ty)
  {
    forall i | 0 <= i < |fields|
      ensures Properties(fields)[i] == Property(fields[i].name, ToSchema(fields[i].ty))
    {
      PropertiesAt(fields, i);
    }
    SameNamesSameIndex(Properties(fields), fields, PropertyName, FieldName, name);
  }

  lemma {:induction false} RequiredPresent(members: seq<Member>, fields: seq<Field>, path: Path)
    requires MissingErrors(members, fields, path) == []
    ensures forall i :: 0 <= i < |RequiredNames(fields)| ==> MemberIndex(members, RequiredNames(fields)[i]).Some?
  {
    if fields != [] {
      RequiredPresent(members, fields[1..], path);
    }
  }

  // ------------------------------------------------------------------------
  // What the schema of each kind of type accepts
  // ------------------------------------------------------------------------

  /** Schemas that differ in their bounds only. */
  lemma BoundsOnly(s: Schema, t: Schema, v: Json)
    requires t == s.(bounds := t.bounds)
    requires WithinBounds(v, s.bounds) && WithinBounds(v, t.bounds)
    ensures Satisfies(s, v) <==> Satisfies(t, v)
  {
  }

  lemma HasOnlyType(t: JsonType, v: Json)
    ensures TypeOk(Some([t]), v) <==> HasType(v, t)
  {
    assert [t][0] == t;
  }

  lemma StructSchema(v: Json, t: Ty, path: Path)
    requires t.TStruct? && v.JObj? && MissingErrors(v.members, t.fields, path) == []
    ensures Satisfies(ToSchema(t), v) <==> forall i :: 0 <= i < |v.members| ==>
      var k := FieldIndex(t.fields, v.members[i].key);
      k.Some? ==> Satisfies(ToSchema(t.fields[k.value].ty), v.members[i].value)
  {
    var s := ToSchema(t);
    HasOnlyType(ObjectType, v);
    RequiredPresent(v.members, t.fields, path);
    forall i | 0 <= i < |v.members|
      ensures
        var k := PropertyIndex(s.properties, v.members[i].key);
        && k == FieldIndex(t.fields, v.members[i].key)
        && (k.Some? ==> s.properties[k.value].schema == ToSchema(t.fields[k.value].ty))
    {
      PropertyOfField(t.fields, v.members[i].key);
    }
    assert Satisfies(s, v) <==> MembersOk(s, v);
  }

  lemma DictSchema(v: Json, t: Ty)
    requires t.TDict? && v.JObj?
    ensures Satisfies(ToSchema(t), v) <==>
      forall i :: 0 <= i < |v.members| ==> Satisfies(ToSchema(t.value), v.members[i].value)
  {
    HasOnlyType(ObjectType, v);
    assert Satisfies(ToSchema(t), v) <==> MembersOk(ToSchema(t), v);
  }

  lemma ListSchema(v: Json, t: Ty)
    requires (t.TList? || t.TTupleOf? || t.TSet?) && v.JList?
    ensures Satisfies(ToSchema(t), v) <==>
      && (forall i :: 0 <= i < |v.items| ==> Satisfies(ToSchema(t.item), v.items[i]))
      && (t.TSet? ==> Distinct(v.items))
  {
    HasOnlyType(ArrayType, v);
    assert Satisfies(ToSchema(t), v) <==> ItemsOk(ToSchema(t), v);
  }

  lemma TupleSchema(v: Json, elements: seq<Ty>)
    requires v.JList? && (elements != [] ==> |v.items| == |elements|)
    ensures Satisfies(ToSchema(TTuple(elements)), v) <==>
      forall i :: 0 <= i < |v.items| && i < |elements| ==> Satisfies(ToSchema(elements[i]), v.items[i])
    ensures WithinBounds(v, ToSchema(TTuple(elements)).bounds)
  {
    HasOnlyType(ArrayType, v);
    forall i | 0 <= i < |elements|
      ensures ToSchemas(elements)[i] == ToSchema(elements[i])
    {
      SchemasAt(elements, i);
    }
    assert Satisfies(ToSchema(TTuple(elements)), v) <==> ItemsOk(ToSchema(TTuple(elements)), v);
  }

  lemma ScalarSchema(v: Json, t: Ty, path: Path)
    requires t.TBool? || t.TInt? || t.TFloat? || t.TStr? || t.TBytes?
    requires Accepted(Scalar(v, t, path, NO_COERCION))
    ensures Satisfies(ToSchema(t), v) && Scalar(v, t, path, NO_COERCION).value == v
  {
    HasOnlyType(BooleanType, v);
    HasOnlyType(IntegerType, v);
    HasOnlyType(NumberType, v);
    HasOnlyType(StringType, v);
  }

  lemma EqualsIffHash(v: Json, l: Literal)
    ensures EqualsLiteral(v, l) <==> HashOf(v) == Some(HashOfLiteral(l)) && (v.JBool? <==> l.LBool?)
  {
  }

  lemma LiteralSchema(v: Json, args: seq<Literal>)
    ensures Satisfies(ToSchema(TLiteral(args)), v) <==> LiteralFits(v, args)
  {
    forall i | 0 <= i < |args|
      ensures EqualsLiteral(v, args[i]) <==>
        HashOf(v) == Some(HashOfLiteral(args[i])) && (v.JBool? <==> args[i].LBool?)
    {
      EqualsIffHash(v, args[i]);
    }
    assert Satisfies(ToSchema(TLiteral(args)), v) <==> EnumOk(Some(args), v);
  }

  // ------------------------------------------------------------------------
  // Optional
  // ------------------------------------------------------------------------

  lemma {:induction false} ConstraintsShape(s: Schema, cs: seq<Constraint>)
    ensures WithConstraints(s, cs) == s.(bounds := WithConstraints(s, cs).bounds)
  {
    if cs != [] {
      ConstraintsShape(s, cs[..|cs| - 1]);
    }
  }

  /** The schema of a type that is not a union: one type and no more, or none and then null goes by `MatchesNull`. */
  lemma {:induction false} SingleSchema(t: Ty)
    requires !Core(t).TUnion?
    ensures
      var s := ToSchema(t);
      && s.oneOf == []
      && (s.types.Some? ==> !MatchesNull(t) && s.enumeration.None? && |s.types.value| == 1)
      && (s.types.None? ==> (Satisfies(s, JNull) <==> MatchesNull(t)))
  {
    if t.TAnnotated? {
      SingleSchema(t.base);
      ConstraintsShape(ToSchema(t.base), t.constraints);
      BoundsOnly(ToSchema(t.base), ToSchema(t), JNull);
    } else if t.TLiteral? {
      LiteralSchema(JNull, t.args);
      assert LiteralFits(JNull, t.args) <==> LNone in t.args by {
        if LNone in t.args {
          var i :| 0 <= i < |t.args| && t.args[i] == LNone;
          assert HashOf(JNull) == Some(HashOfLiteral(t.args[i]));
        }
      }
    }
  }

  lemma OptionalTyped(s: Schema, v: Json)
    requires s.types.Some? && s.enumeration.None? && s.oneOf == []
    ensures Satisfies(s.(types := Some(s.types.value + [NullType])), v) <==> v == JNull || Satisfies(s, v)
  {
    var types := s.types.value + [NullType];
    assert types[|s.types.value|] == NullType;
    assert forall i :: 0 <= i < |s.types.value| ==> types[i] == s.types.value[i];
    assert TypeOk(Some(types), v) <==> v == JNull || TypeOk(s.types, v);
    TypesOnly(s, Some(types), v);
  }

  lemma TypesOnly(s: Schema, types: Option<seq<JsonType>>, v: Json)
    ensures (TypeOk(types, v) <==> TypeOk(s.types, v)) ==> (Satisfies(s.(types := types), v) <==> Satisfies(s, v))
    ensures v == JNull && s.enumeration.None? && s.oneOf == [] && TypeOk(types, v) ==> Satisfies(s.(types := types), v)
  {
  }

  lemma OneOfSchema(schemas: seq<Schema>, v: Json)
    requires schemas != []
    ensures Satisfies(EMPTY.(oneOf := schemas), v) <==> ExactlyOne(schemas, v)
  {
  }

  /** One schema of the `oneOf` decides if all others reject. */
  lemma OneDecides(schemas: seq<Schema>, v: Json, k: nat)
    requires k < |schemas| && forall j :: 0 <= j < |schemas| && j != k ==> !Satisfies(schemas[j], v)
    ensures Satisfies(EMPTY.(oneOf := schemas), v) <==> Satisfies(schemas[k], v)
  {
    OneOfSchema(schemas, v);
  }

  lemma TwoAccept(schemas: seq<Schema>, v: Json, i: nat, j: nat)
    requires i < |schemas| && j < |schemas| && i != j
    requires Satisfies(schemas[i], v) && Satisfies(schemas[j], v)
    ensures !Satisfies(EMPTY.(oneOf := schemas), v)
  {
    OneOfSchema(schemas, v);
  }

  /** Exactly one of two: one does and the other does not. */
  lemma OneOfTwo(a: Schema, b: Schema, v: Json)
    ensures Satisfies(EMPTY.(oneOf := [a, b]), v) <==> Satisfies(a, v) != Satisfies(b, v)
  {
    var schemas := [a, b];
    if !Satisfies(schemas[1], v) {
      OneDecides(schemas, v, 0);
    } else if !Satisfies(schemas[0], v) {
      OneDecides(schemas, v, 1);
    } else {
      TwoAccept(schemas, v, 0, 1);
    }
  }

  /**
   Both renderings of Optional accept what the schema under it accepts, and
   null if that schema does not accept it too.
   */
  lemma OptionalSchema(t: Ty, v: Json)
    requires !Core(t).TUnion?
    ensures Satisfies(ToSchema(TUnion([t], true)), v) <==>
      if v == JNull then !MatchesNull(t) else Satisfies(ToSchema(t), v)
    ensures WithinBounds(v, ToSchema(t).bounds) ==> WithinBounds(v, ToSchema(TUnion([t], true)).bounds)
  {
    var s := ToSchema(t);
    assert [t][0] == t;
    SingleSchema(t);
    if s.types.Some? {
      OptionalTyped(s, v);
    } else {
      HasOnlyType(NullType, v);
      OneOfTwo(s, OfType(NullType), v);
      assert Satisfies(OfType(NullType), v) <==> v == JNull;
    }
  }
}
