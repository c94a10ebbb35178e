/**
 Which of the values that the validator accepts without coercion satisfy the
 schema generated from their type, and the types for which all of them do.
 */
module SchemaAccounts {
  import opened Common
  import opened Validation
  import opened Dispatching
  import opened JsonSchemas
  import opened SchemaMeanings

  // ------------------------------------------------------------------------
  // Types with a simple account of their schema
  // ------------------------------------------------------------------------

  /** Two or more TypedDicts, told apart by a literal field that each of them requires. */
  ghost predicate TaggedUnion(variants: seq<Ty>)
  {
    && |variants| >= 2
    && (var d := FindDiscriminator(variants);
        && d.Some?
        && Disjoint(variants, d.value)
        && forall i :: 0 <= i < |variants| ==> RequiresTag(variants[i], d.value))
  }

  predicate RequiresTag(t: Ty, name: string)
  {
    LiteralsOf(t, name).Some? && t.fields[FieldIndex(t.fields, name).value].required
  }

  datatype Kind = NullKind | BooleanKind | NumberKind | StringKind | ListKind | ObjectKind

  function KindOf(v: Json): Kind
  {
    match v
    case JNull => NullKind
    case JBool(_) => BooleanKind
    case JInt(_) => NumberKind
    case JFloat(_) => NumberKind
    case JStr(_) => StringKind
    case JList(_) => ListKind
    case JObj(_) => ObjectKind
  }

  predicate StringsOnly(args: seq<Literal>)
  {
    forall i :: 0 <= i < |args| ==> args[i].LStr?
  }

  /** The one kind of value that a type takes, if there is one. */
  function KindOfType(t: Ty): Option<Kind>
  {
    match Core(t)
    case TBool => Some(BooleanKind)
    case TInt => Some(NumberKind)
    case TFloat => Some(NumberKind)
    case TStr => Some(StringKind)
    case TLiteral(args) => if StringsOnly(args) then Some(StringKind) else None
    case TList(_) => Some(ListKind)
    case TSet(_) => Some(ListKind)
    case TTuple(_) => Some(ListKind)
    case TTupleOf(_) => Some(ListKind)
    case TDict(_, _) => Some(ObjectKind)
    case TStruct(_, _) => Some(ObjectKind)
    case _ => None
  }

  /** Two or more variants that take different kinds of values, such as a string and a list. */
  predicate KindsApart(variants: seq<Ty>)
  {
    && |variants| >= 2
    && (forall i :: 0 <= i < |variants| ==> KindOfType(variants[i]).Some?)
    && forall i, j :: 0 <= i < j < |variants| ==> KindOfType(variants[i]) != KindOfType(variants[j])
  }

  /** Optional of a type that is not itself a union. */
  predicate SimpleOptional(variants: seq<Ty>, optional: bool)
  {
    |variants| == 1 && optional && !Core(variants[0]).TUnion?
  }

  /** Every union, at whatever depth, is a simple Optional, tagged, or of variants of different kinds. */
  ghost predicate Schemable(t: Ty)
  {
    match t
    case TList(item) => Schemable(item)
    case TSet(item) => Schemable(item)
    case TTupleOf(item) => Schemable(item)
    case TTuple(elements) => forall i :: 0 <= i < |elements| ==> Schemable(elements[i])
    case TDict(k, v) => Schemable(k) && Schemable(v)
    case TStruct(_, fields) => forall i :: 0 <= i < |fields| ==> Schemable(fields[i].ty)
    case TUnion(variants, optional) =>
      && (forall i :: 0 <= i < |variants| ==> Schemable(variants[i]))
      && (SimpleOptional(variants, optional) || TaggedUnion(variants) || KindsApart(variants))
    case TAnnotated(base, _) => Schemable(base)
    case _ => true
  }

  lemma {:induction false} SchemableIsOrdinary(t: Ty)
    requires Schemable(t)
    ensures Ordinary(t)
  {
    match t
    case TList(item) => SchemableIsOrdinary(item);
    case TSet(item) => SchemableIsOrdinary(item);
    case TTupleOf(item) => SchemableIsOrdinary(item);
    case TTuple(elements) => forall i | 0 <= i < |elements| { SchemableIsOrdinary(elements[i]); }
    case TDict(k, v) =>
      SchemableIsOrdinary(k);
      SchemableIsOrdinary(v);
    case TStruct(_, fields) => forall i | 0 <= i < |fields| { SchemableIsOrdinary(fields[i].ty); }
    case TUnion(variants, _) => forall i | 0 <= i < |variants| { SchemableIsOrdinary(variants[i]); }
    case TAnnotated(base, _) => SchemableIsOrdinary(base);
    case _ =>
  }

  /**
   The value avoids the places where a schema is stricter than the validator: a
   set has no two equal items, no boolean stands for a number literal or the
   other way round, and no null for Optional[Any] or Optional of a literal None.
   Where the variants of a union may overlap, the schema of one and of no other
   takes the value.
   */
  ghost predicate Fits(t: Ty, v: Json)
    decreases t
  {
    match t
    case TLiteral(args) => InLiterals(v, args) ==> LiteralFits(v, args)
    case TList(item) => v.JList? ==> forall i :: 0 <= i < |v.items| ==> Fits(item, v.items[i])
    case TTupleOf(item) => v.JList? ==> forall i :: 0 <= i < |v.items| ==> Fits(item, v.items[i])
    case TSet(item) => v.JList? ==> Distinct(v.items) && forall i :: 0 <= i < |v.items| ==> Fits(item, v.items[i])
    case TTuple(elements) =>
      v.JList? ==> forall i :: 0 <= i < |v.items| && i < |elements| ==> Fits(elements[i], v.items[i])
    case TDict(_, value) => v.JObj? ==> forall i :: 0 <= i < |v.members| ==> Fits(value, v.members[i].value)
    case TStruct(_, fields) =>
      v.JObj? ==> forall i :: 0 <= i < |v.members| ==>
        var k := FieldIndex(fields, v.members[i].key);
        k.Some? ==> Fits(fields[k.value].ty, v.members[i].value)
    case TUnion(variants, optional) =>
      if SimpleOptional(variants, optional) then (if v.JNull? then !MatchesNull(variants[0]) else Fits(variants[0], v))
      else if !TaggedUnion(variants) && !KindsApart(variants) then Takes(t, v)
      else
        var k := Chosen(v, variants);
        if k.Some? && k.value < |variants| then Fits(variants[k.value], v)
        else forall i :: 0 <= i < |variants| && KindOfType(variants[i]) == Some(KindOf(v)) ==> Fits(variants[i], v)
    case TAnnotated(base, _) => Fits(base, v)
    case _ => true
  }

  // ------------------------------------------------------------------------
  // Pieces of accepted values
  // ------------------------------------------------------------------------
  lemma {:induction false} EachItemAccepted(fast: bool, v: Json, items: seq<Json>, item: Ty, path: Path, from: nat, co: Coercion, i: nat)
    requires Accepted(Each(fast, v, items, item, path, from, co)) && i < |items|
    ensures Accepted(Validate(fast, items[i], item, path + [Index(from + i)], co))
    decreases |items|
  {
    if i > 0 {
      EachItemAccepted(fast, v, items[1..], item, path, from + 1, co, i - 1);
    }
  }

  lemma {:induction false} ElementAccepted(
      fast: bool, v: Json, items: seq<Json>, elements: seq<Ty>, path: Path, from: nat, co: Coercion, i: nat)
    requires |items| == |elements| && i < |items|
    requires Accepted(Elements(fast, v, items, elements, path, from, co))
    ensures Accepted(Validate(fast, items[i], elements[i], path + [Index(from + i)], co))
    decreases |items|
  {
    if i > 0 {
      ElementAccepted(fast, v, items[1..], elements[1..], path, from + 1, co, i - 1);
    }
  }

  lemma {:induction false} EntryAccepted(fast: bool, v: Json, members: seq<Member>, t: Ty, path: Path, co: Coercion, i: nat)
    requires t.TDict? && i < |members| && Accepted(Entries(fast, v, members, t, path, co))
    ensures Accepted(Validate(fast, members[i].value, t.value, path + [Key(members[i].key)], co))
    decreases |members|
  {
    if i > 0 {
      EntryAccepted(fast, v, members[1..], t, path, co, i - 1);
    }
  }

  lemma MemberAccepted(
      fast: bool, v: Json, members: seq<Member>, fields: seq<Field>, path: Path, co: Coercion, i: nat)
    requires i < |members| && Accepted(Members(fast, v, members, fields, path, co))
    ensures
      var k := FieldIndex(fields, members[i].key);
      k.Some? ==> Accepted(Validate(fast, members[i].value, fields[k.value].ty, path + [Key(members[i].key)], co))
    decreases |members|
  {
    var k := FieldIndex(fields, members[i].key);
    if k.Some? && !Accepted(Validate(fast, members[i].value, fields[k.value].ty, path + [Key(members[i].key)], co)) {
      MembersReject(fast, v, members, fields, path, co, i);
    }
  }

  /** Without coercion an accepted value comes back as it is. */
  lemma NothingCoerced(fast: bool, v: Json, t: Ty, path: Path)
    requires !t.TUnion? && !t.TAnnotated?
    requires Accepted(Validate(fast, v, t, path, NO_COERCION))
    ensures Validate(fast, v, t, path, NO_COERCION).value == v
  {
    ContainersReturnValue(fast, v, t, path, NO_COERCION);
  }

  // ------------------------------------------------------------------------
  // Tagged unions
  // ------------------------------------------------------------------------

  /** What trying the variants accepts, one of them accepts. */
  lemma {:induction false} FirstFitAccepts(fast: bool, v: Json, variants: seq<Ty>, path: Path, co: Coercion) returns (k: nat)
    requires Accepted(FirstFit(fast, v, variants, path, co))
    ensures k < |variants| && FirstFit(fast, v, variants, path, co) == Validate(fast, v, variants[k], path, co)
    decreases |variants|
  {
    if Accepted(Validate(fast, v, variants[0], path, co)) {
      k := 0;
    } else {
      k := FirstFitAccepts(fast, v, variants[1..], path, co);
      k := k + 1;
    }
  }

  /** An accepted value of a type with a required tag carries one of its literals. */
  lemma AcceptedCarriesTag(fast: bool, v: Json, t: Ty, path: Path, co: Coercion, name: string)
    requires RequiresTag(t, name) && Accepted(Validate(fast, v, t, path, co))
    ensures v.JObj? && MemberIndex(v.members, name).Some?
    ensures
      var h := HashOf(v.members[MemberIndex(v.members, name).value].value);
      h.Some? && Names(t, name, h.value)
  {
    var f := FieldIndex(t.fields, name).value;
    RequiredReported(v.members, t.fields, path, f);
    var m := MemberIndex(v.members, name).value;
    MemberAccepted(fast, v, v.members, t.fields, path, co, m);
    LiteralAccepted(fast, v.members[m].value, t.fields[f].ty, path + [Key(name)], co);
  }

  lemma LiteralAccepted(fast: bool, w: Json, ty: Ty, path: Path, co: Coercion)
    requires Unwrapped(ty).TLiteral? && Accepted(Validate(fast, w, ty, path, co))
    ensures HashOf(w).Some? && Contains(Unwrapped(ty).args, HashOf(w).value)
  {
    assert Accepted(Validate(fast, w, Unwrapped(ty), path, co));
  }

  lemma {:induction false} RequiredReported(members: seq<Member>, fields: seq<Field>, path: Path, f: nat)
    requires f < |fields| && fields[f].required && MissingErrors(members, fields, path) == []
    ensures MemberIndex(members, fields[f].name).Some?
  {
    if f > 0 {
      RequiredReported(members, fields[1..], path, f - 1);
    }
  }

  /** So the table chooses the variant that accepts. */
  lemma AcceptedIsChosen(fast: bool, v: Json, variants: seq<Ty>, path: Path, co: Coercion, k: nat)
    requires TaggedUnion(variants) && k < |variants| && Accepted(Validate(fast, v, variants[k], path, co))
    ensures Chosen(v, variants) == Some(k)
  {
    var name := FindDiscriminator(variants).value;
    AcceptedCarriesTag(fast, v, variants[k], path, co, name);
    NamedIsChosen(v, variants, name, k);
  }

  lemma NamedIsChosen(v: Json, variants: seq<Ty>, name: string, k: nat)
    requires Disjoint(variants, name) && k < |variants|
    requires v.JObj? && MemberIndex(v.members, name).Some?
    requires TagOf(v, name).Some? && Names(variants[k], name, TagOf(v, name).value)
    ensures ChosenBy(v, variants, name) == Some(k)
  {
    NamedInTable(name, variants, TagOf(v, name).value, k);
    TableNames(name, variants, TagOf(v, name).value);
  }

  /** The schema of a variant rejects a tag that the variant does not name. */
  lemma OtherTagRejected(v: Json, t: Ty, name: string, m: nat, h: Hashed)
    requires v.JObj? && m < |v.members| && v.members[m].key == name && HashOf(v.members[m].value) == Some(h)
    requires LiteralsOf(t, name).Some? && !Names(t, name, h)
    ensures !Satisfies(ToSchema(t), v)
  {
    var f := FieldIndex(t.fields, name).value;
    PropertyOfField(t.fields, name);
    OtherTagFails(t.fields[f].ty, v.members[m].value, h);
    assert !MembersOk(ToSchema(t), v);
  }

  lemma OtherTagFails(ty: Ty, w: Json, h: Hashed)
    requires Unwrapped(ty).TLiteral? && HashOf(w) == Some(h) && !Contains(Unwrapped(ty).args, h)
    ensures !Satisfies(ToSchema(ty), w)
  {
    var args := Unwrapped(ty).args;
    if ty.TAnnotated? {
      ConstraintsShape(ToSchema(ty.base), ty.constraints);
    }
    assert ToSchema(ty).enumeration == Some(args);
    forall i | 0 <= i < |args|
      ensures !EqualsLiteral(w, args[i])
    {
      EqualsIffHash(w, args[i]);
    }
    assert !EnumOk(Some(args), w);
  }

  lemma TaggedUnionSchema(v: Json, t: Ty, k: nat)
    requires t.TUnion? && TaggedUnion(t.variants) && k < |t.variants| && v.JObj?
    requires
      var name := FindDiscriminator(t.variants).value;
      && MemberIndex(v.members, name).Some? && TagOf(v, name).Some?
      && Names(t.variants[k], name, TagOf(v, name).value)
    ensures Satisfies(ToSchema(t), v) <==> Satisfies(ToSchema(t.variants[k]), v)
  {
    HasOnlyType(NullType, v);
    TaggedOneOf(v, t.variants, NullBranch(t.optional), k);
  }

  lemma TaggedOneOf(v: Json, variants: seq<Ty>, others: seq<Schema>, k: nat)
    requires TaggedUnion(variants) && k < |variants| && v.JObj?
    requires
      var name := FindDiscriminator(variants).value;
      && MemberIndex(v.members, name).Some? && TagOf(v, name).Some?
      && Names(variants[k], name, TagOf(v, name).value)
    requires forall i :: 0 <= i < |others| ==> !Satisfies(others[i], v)
    ensures Satisfies(EMPTY.(oneOf := ToSchemas(variants) + others), v) <==> Satisfies(ToSchema(variants[k]), v)
  {
    forall j | 0 <= j < |variants| && j != k
      ensures !Satisfies(ToSchema(variants[j]), v)
    {
      OtherVariantRejected(v, variants, FindDiscriminator(variants).value, k, j);
    }
    VariantDecides(v, variants, others, k);
  }

  /** If all but one variant's schema and all further schemas reject, that variant's schema decides. */
  lemma VariantDecides(v: Json, variants: seq<Ty>, others: seq<Schema>, k: nat)
    requires k < |variants|
    requires forall j :: 0 <= j < |variants| && j != k ==> !Satisfies(ToSchema(variants[j]), v)
    requires forall i :: 0 <= i < |others| ==> !Satisfies(others[i], v)
    ensures Satisfies(EMPTY.(oneOf := ToSchemas(variants) + others), v) <==> Satisfies(ToSchema(variants[k]), v)
  {
    SchemasAt(variants, k);
    forall j | 0 <= j < |variants| + |others| && j != k
      ensures !Satisfies((ToSchemas(variants) + others)[j], v)
    {
      if j < |variants| {
        SchemasAt(variants, j);
      }
    }
    OneDecides(ToSchemas(variants) + others, v, k);
  }

  lemma OtherVariantRejected(v: Json, variants: seq<Ty>, name: string, k: nat, j: nat)
    requires k < |variants| && j < |variants| && j != k && Disjoint(variants, name)
    requires LiteralsOf(variants[j], name).Some?
    requires v.JObj? && MemberIndex(v.members, name).Some?
    requires TagOf(v, name).Some? && Names(variants[k], name, TagOf(v, name).value)
    ensures !Satisfies(ToSchema(variants[j]), v)
  {
    OtherTagRejected(v, variants[j], name, MemberIndex(v.members, name).value, TagOf(v, name).value);
  }

  /** Optional of two or more variants none of whose schemas takes null. */
  lemma NullSchema(variants: seq<Ty>)
    requires forall j :: 0 <= j < |variants| ==> !Satisfies(ToSchema(variants[j]), JNull)
    ensures Satisfies(EMPTY.(oneOf := ToSchemas(variants) + [OfType(NullType)]), JNull)
  {
    var n := |variants|;
    var schemas := ToSchemas(variants) + [OfType(NullType)];
    HasOnlyType(NullType, JNull);
    forall j | 0 <= j < |schemas| && j != n
      ensures !Satisfies(schemas[j], JNull)
    {
      SchemasAt(variants, j);
    }
    OneDecides(schemas, JNull, n);
  }

  // ------------------------------------------------------------------------
  // Unions of different kinds
  // ------------------------------------------------------------------------

  /** What a type of one kind accepts is of that kind. */
  lemma {:induction false} AcceptedHasKind(fast: bool, v: Json, t: Ty, path: Path)
    requires KindOfType(t).Some? && Accepted(Validate(fast, v, t, path, NO_COERCION))
    ensures KindOfType(t) == Some(KindOf(v))
  {
    if t.TAnnotated? {
      AcceptedHasKind(fast, v, t.base, path);
    } else if t.TLiteral? {
      var i :| 0 <= i < |t.args| && HashOf(v) == Some(HashOfLiteral(t.args[i]));
    }
  }

  lemma TypeRejects(v: Json, t: Ty)
    requires !t.TAnnotated? && !t.TLiteral? && KindOfType(t).Some? && KindOfType(t) != Some(KindOf(v))
    ensures !TypeOk(ToSchema(t).types, v)
  {
    var types := ToSchema(t).types;
    assert types.Some? && |types.value| == 1 && !HasType(v, types.value[0]);
  }

  lemma LiteralRejects(v: Json, args: seq<Literal>)
    requires StringsOnly(args) && !v.JStr?
    ensures !EnumOk(Some(args), v)
  {
  }

  /** A schema of one kind rejects another kind by its types or its literals, whatever its bounds. */
  lemma {:induction false} ShapeRejects(t: Ty, v: Json)
    requires KindOfType(t).Some? && KindOfType(t) != Some(KindOf(v))
    ensures !TypeOk(ToSchema(t).types, v) || !EnumOk(ToSchema(t).enumeration, v)
  {
    if t.TAnnotated? {
      ShapeRejects(t.base, v);
      ConstraintsShape(ToSchema(t.base), t.constraints);
    } else if t.TLiteral? {
      LiteralRejects(v, t.args);
    } else {
      TypeRejects(v, t);
    }
  }

  lemma SchemaHasKind(v: Json, t: Ty)
    requires KindOfType(t).Some? && KindOfType(t) != Some(KindOf(v))
    ensures !Satisfies(ToSchema(t), v)
  {
    ShapeRejects(t, v);
  }

  /** At most one variant is an object type, so there is nothing to dispatch on. */
  lemma {:induction false} FewTypedDicts(variants: seq<Ty>)
    requires forall i, j :: 0 <= i < j < |variants| ==> !(variants[i].TStruct? && variants[j].TStruct?)
    ensures |TypedDicts(variants)| <= 1
    ensures (forall i :: 0 <= i < |variants| ==> !variants[i].TStruct?) ==> TypedDicts(variants) == []
  {
    if variants != [] {
      var rest := variants[1..];
      assert forall i :: 0 <= i < |rest| ==> rest[i] == variants[i + 1];
      FewTypedDicts(rest);
    }
  }

  lemma KindsNeverDispatch(v: Json, variants: seq<Ty>)
    requires KindsApart(variants)
    ensures Chosen(v, variants).None?
  {
    forall i, j | 0 <= i < j < |variants|
      ensures !(variants[i].TStruct? && variants[j].TStruct?)
    {
      assert KindOfType(variants[i]) != KindOfType(variants[j]);
    }
    FewTypedDicts(variants);
  }

  // ------------------------------------------------------------------------
  // The exact account
  // ------------------------------------------------------------------------

  /** What the account says of one type and one accepted value. */
  ghost predicate Exact(fast: bool, v: Json, t: Ty, path: Path)
  {
    && (Satisfies(ToSchema(t), v) <==> Fits(t, v))
    && WithinBounds(v, ToSchema(t).bounds)
    && Validate(fast, v, t, path, NO_COERCION) == Done(v, [])
  }

  /**
   With or without the dispatch table, at every depth, for every type: a value
   that the validator accepts without coercion satisfies the generated schema if
   and only if it fits.
   */
  lemma {:induction false} AcceptedSatisfiesIffFits(fast: bool, v: Json, t: Ty, path: Path)
    requires Ordinary(t) && Accepted(Validate(fast, v, t, path, NO_COERCION))
    ensures Exact(fast, v, t, path)
    decreases t, 2
  {
    match t
    case TList(_) => ItemsExact(fast, v, t, path);
    case TTupleOf(_) => ItemsExact(fast, v, t, path);
    case TSet(_) => ItemsExact(fast, v, t, path);
    case TTuple(_) => TupleExact(fast, v, t, path);
    case TDict(_, _) => EntriesExact(fast, v, t, path);
    case TStruct(_, _) => FieldsExact(fast, v, t, path);
    case TUnion(_, _) => UnionExact(fast, v, t, path);
    case TAnnotated(base, cs) =>
      AcceptedSatisfiesIffFits(fast, v, base, path);
      AnnotatedExact(fast, v, base, cs, path);
    case _ => LeafExact(fast, v, t, path);
  }

  lemma LeafExact(fast: bool, v: Json, t: Ty, path: Path)
    requires t.TAny? || t.TNone? || t.TLiteral? || t.TBool? || t.TInt? || t.TFloat? || t.TStr? || t.TBytes?
    requires Accepted(Validate(fast, v, t, path, NO_COERCION))
    ensures Exact(fast, v, t, path)
  {
    match t
    case TAny =>
    case TNone => HasOnlyType(NullType, v);
    case TLiteral(args) => LiteralSchema(v, args);
    case _ => ScalarSchema(v, t, path);
  }

  lemma {:induction false} UnionExact(fast: bool, v: Json, t: Ty, path: Path)
    requires t.TUnion? && Ordinary(t) && Accepted(Validate(fast, v, t, path, NO_COERCION))
    ensures Exact(fast, v, t, path)
    decreases t, 1, 1
  {
    if SimpleOptional(t.variants, t.optional) {
      OptionalExact(fast, v, t, path);
    } else if TaggedUnion(t.variants) {
      TaggedExact(fast, v, t, path);
    } else if KindsApart(t.variants) {
      KindsExact(fast, v, t, path);
    } else {
      SatisfiesIffTakes(t, v);
      UnionIsOneOf(t);
      NothingCoercedAnywhere(fast, v, t, path);
    }
  }

  lemma {:induction false} KindsExact(fast: bool, v: Json, t: Ty, path: Path)
    requires t.TUnion? && KindsApart(t.variants) && Ordinary(t) && Accepted(Validate(fast, v, t, path, NO_COERCION))
    ensures Exact(fast, v, t, path)
    decreases t, 1, 0
  {
    KindsNeverDispatch(v, t.variants);
    if v == JNull {
      KindsNull(t);
    } else {
      var k := KindsAccept(fast, v, t, path);
      AcceptedSatisfiesIffFits(fast, v, t.variants[k], path);
      KindsSchema(v, t, k);
      KindsFit(v, t, k);
    }
  }

  lemma KindsNull(t: Ty)
    requires t.TUnion? && KindsApart(t.variants) && t.optional
    ensures Satisfies(ToSchema(t), JNull) && Fits(t, JNull)
  {
    forall j | 0 <= j < |t.variants|
      ensures !Satisfies(ToSchema(t.variants[j]), JNull)
    {
      SchemaHasKind(JNull, t.variants[j]);
    }
    NullSchema(t.variants);
    KindsNeverDispatch(JNull, t.variants);
  }

  lemma KindsAccept(fast: bool, v: Json, t: Ty, path: Path) returns (k: nat)
    requires t.TUnion? && KindsApart(t.variants) && v != JNull
    requires Accepted(Validate(fast, v, t, path, NO_COERCION))
    ensures k < |t.variants| && KindOfType(t.variants[k]) == Some(KindOf(v))
    ensures Validate(fast, v, t, path, NO_COERCION) == Validate(fast, v, t.variants[k], path, NO_COERCION)
  {
    KindsNeverDispatch(v, t.variants);
    k := FirstFitAccepts(fast, v, t.variants, path, NO_COERCION);
    AcceptedHasKind(fast, v, t.variants[k], path);
  }

  lemma KindsSchema(v: Json, t: Ty, k: nat)
    requires t.TUnion? && KindsApart(t.variants) && v != JNull
    requires k < |t.variants| && KindOfType(t.variants[k]) == Some(KindOf(v))
    ensures Satisfies(ToSchema(t), v) <==> Satisfies(ToSchema(t.variants[k]), v)
  {
    forall j | 0 <= j < |t.variants| && j != k
      ensures !Satisfies(ToSchema(t.variants[j]), v)
    {
      assert KindOfType(t.variants[j]) != KindOfType(t.variants[k]);
      SchemaHasKind(v, t.variants[j]);
    }
    HasOnlyType(NullType, v);
    VariantDecides(v, t.variants, NullBranch(t.optional), k);
  }

  lemma KindsFit(v: Json, t: Ty, k: nat)
    requires t.TUnion? && KindsApart(t.variants)
    requires k < |t.variants| && KindOfType(t.variants[k]) == Some(KindOf(v))
    ensures Fits(t, v) <==> Fits(t.variants[k], v)
  {
    KindsNeverDispatch(v, t.variants);
    assert forall j :: 0 <= j < |t.variants| && j != k ==> KindOfType(t.variants[j]) != KindOfType(t.variants[k]);
  }

  lemma {:induction false} ItemsExact(fast: bool, v: Json, t: Ty, path: Path)
    requires (t.TList? || t.TTupleOf? || t.TSet?) && Ordinary(t)
    requires Accepted(Validate(fast, v, t, path, NO_COERCION))
    ensures Exact(fast, v, t, path)
    decreases t, 1
  {
    NothingCoerced(fast, v, t, path);
    ItemsMatch(fast, v, t, path);
    ListSchema(v, t);
  }

  lemma {:induction false} ItemsMatch(fast: bool, v: Json, t: Ty, path: Path)
    requires (t.TList? || t.TTupleOf? || t.TSet?) && Ordinary(t) && v.JList?
    requires Accepted(Validate(fast, v, t, path, NO_COERCION))
    ensures forall i :: 0 <= i < |v.items| ==> (Satisfies(ToSchema(t.item), v.items[i]) <==> Fits(t.item, v.items[i]))
    decreases t, 0
  {
    forall i | 0 <= i < |v.items|
      ensures Satisfies(ToSchema(t.item), v.items[i]) <==> Fits(t.item, v.items[i])
    {
      EachItemAccepted(fast, v, v.items, t.item, path, 0, NO_COERCION, i);
      AcceptedSatisfiesIffFits(fast, v.items[i], t.item, path + [Index(i)]);
    }
  }

  lemma {:induction false} TupleExact(fast: bool, v: Json, t: Ty, path: Path)
    requires t.TTuple? && Ordinary(t) && Accepted(Validate(fast, v, t, path, NO_COERCION))
    ensures Exact(fast, v, t, path)
    decreases t, 1
  {
    NothingCoerced(fast, v, t, path);
    forall i | 0 <= i < |v.items| && i < |t.elements|
      ensures Satisfies(ToSchema(t.elements[i]), v.items[i]) <==> Fits(t.elements[i], v.items[i])
    {
      ElementAccepted(fast, v, v.items, t.elements, path, 0, NO_COERCION, i);
      AcceptedSatisfiesIffFits(fast, v.items[i], t.elements[i], path + [Index(i)]);
    }
    TupleSchema(v, t.elements);
  }

  lemma {:induction false} EntriesExact(fast: bool, v: Json, t: Ty, path: Path)
    requires t.TDict? && Ordinary(t) && Accepted(Validate(fast, v, t, path, NO_COERCION))
    ensures Exact(fast, v, t, path)
    decreases t, 1
  {
    NothingCoerced(fast, v, t, path);
    forall i | 0 <= i < |v.members|
      ensures Satisfies(ToSchema(t.value), v.members[i].value) <==> Fits(t.value, v.members[i].value)
    {
      EntryAccepted(fast, v, v.members, t, path, NO_COERCION, i);
      AcceptedSatisfiesIffFits(fast, v.members[i].value, t.value, path + [Key(v.members[i].key)]);
    }
    DictSchema(v, t);
  }

  lemma {:induction false} FieldsExact(fast: bool, v: Json, t: Ty, path: Path)
    requires t.TStruct? && Ordinary(t) && Accepted(Validate(fast, v, t, path, NO_COERCION))
    ensures Exact(fast, v, t, path)
    decreases t, 1
  {
    NothingCoerced(fast, v, t, path);
    forall i | 0 <= i < |v.members| && FieldIndex(t.fields, v.members[i].key).Some?
      ensures
        var ty := t.fields[FieldIndex(t.fields, v.members[i].key).value].ty;
        Satisfies(ToSchema(ty), v.members[i].value) <==> Fits(ty, v.members[i].value)
    {
      MemberAccepted(fast, v, v.members, t.fields, path, NO_COERCION, i);
      var k := FieldIndex(t.fields, v.members[i].key).value;
      AcceptedSatisfiesIffFits(fast, v.members[i].value, t.fields[k].ty, path + [Key(v.members[i].key)]);
    }
    StructSchema(v, t, path);
  }

  lemma {:induction false} OptionalExact(fast: bool, v: Json, t: Ty, path: Path)
    requires t.TUnion? && SimpleOptional(t.variants, t.optional) && Ordinary(t) && Accepted(Validate(fast, v, t, path, NO_COERCION))
    ensures Exact(fast, v, t, path)
    decreases t, 1, 0
  {
    var variant := t.variants[0];
    assert t == TUnion([variant], true);
    if v != JNull {
      OneVariant(fast, v, t.variants, path);
      AcceptedSatisfiesIffFits(fast, v, variant, path);
    }
    OptionalSchema(variant, v);
  }

  lemma {:induction false} TaggedExact(fast: bool, v: Json, t: Ty, path: Path)
    requires t.TUnion? && TaggedUnion(t.variants) && Ordinary(t) && Accepted(Validate(fast, v, t, path, NO_COERCION))
    ensures Exact(fast, v, t, path)
    decreases t, 1, 0
  {
    if v == JNull {
      TaggedNull(t);
    } else {
      var k := TaggedAccepts(fast, v, t, path);
      AcceptedSatisfiesIffFits(fast, v, t.variants[k], path);
      TaggedFit(v, t, k);
      AcceptedCarriesTag(fast, v, t.variants[k], path, NO_COERCION, FindDiscriminator(t.variants).value);
      TaggedUnionSchema(v, t, k);
      SeveralVariants(t.variants, t.optional);
    }
  }

  lemma TaggedFit(v: Json, t: Ty, k: nat)
    requires t.TUnion? && TaggedUnion(t.variants) && k < |t.variants| && Chosen(v, t.variants) == Some(k)
    ensures Fits(t, v) <==> Fits(t.variants[k], v)
  {
  }

  lemma TaggedNull(t: Ty)
    requires t.TUnion? && TaggedUnion(t.variants) && t.optional
    ensures Satisfies(ToSchema(t), JNull) && Fits(t, JNull)
  {
    forall j | 0 <= j < |t.variants|
      ensures !Satisfies(ToSchema(t.variants[j]), JNull)
    {
      SchemaHasKind(JNull, t.variants[j]);
    }
    NullSchema(t.variants);
    assert Chosen(JNull, t.variants).None?;
  }

  /** However a tagged union accepts a value, the variant the table chooses has accepted it. */
  lemma TaggedAccepts(fast: bool, v: Json, t: Ty, path: Path) returns (k: nat)
    requires t.TUnion? && TaggedUnion(t.variants) && v != JNull
    requires Accepted(Validate(fast, v, t, path, NO_COERCION))
    ensures k < |t.variants| && Chosen(v, t.variants) == Some(k)
    ensures Validate(fast, v, t, path, NO_COERCION) == Validate(fast, v, t.variants[k], path, NO_COERCION)
  {
    var chosen := Chosen(v, t.variants);
    if fast && chosen.Some? && chosen.value < |t.variants| {
      k := chosen.value;
    } else {
      k := FirstFitAccepts(fast, v, t.variants, path, NO_COERCION);
      AcceptedIsChosen(fast, v, t.variants, path, NO_COERCION, k);
    }
  }

  /** With a single variant there is nothing to dispatch on. */
  lemma OneVariant(fast: bool, v: Json, variants: seq<Ty>, path: Path)
    requires |variants| == 1 && v != JNull
    requires Accepted(Validate(fast, v, TUnion(variants, true), path, NO_COERCION))
    ensures Accepted(Validate(fast, v, variants[0], path, NO_COERCION))
    ensures Validate(fast, v, TUnion(variants, true), path, NO_COERCION).value ==
      Validate(fast, v, variants[0], path, NO_COERCION).value
  {
    assert variants[1..] == [];
    assert TypedDicts(variants[1..]) == [];
    assert |TypedDicts(variants)| <= 1;
    assert Chosen(v, variants).None?;
    assert FirstFit(fast, v, variants[1..], path, NO_COERCION) == Done(v, [Error(path, NoVariant)]);
    assert Validate(fast, v, TUnion(variants, true), path, NO_COERCION) == FirstFit(fast, v, variants, path, NO_COERCION);
  }

  lemma AnnotatedExact(fast: bool, v: Json, base: Ty, cs: seq<Constraint>, path: Path)
    requires Exact(fast, v, base, path) && Accepted(Validate(fast, v, base, path, NO_COERCION))
    requires Accepted(Validate(fast, v, TAnnotated(base, cs), path, NO_COERCION))
    ensures Exact(fast, v, TAnnotated(base, cs), path)
  {
    AcceptedChecks(v, cs, path);
    ConstraintsKept(ToSchema(base), v, cs);
    ConstraintsShape(ToSchema(base), cs);
    BoundsOnly(ToSchema(base), ToSchema(TAnnotated(base, cs)), v);
  }

  /** A constraint that does not fit the value raises, and one that fails is reported. */
  lemma {:induction false} AcceptedChecks(v: Json, cs: seq<Constraint>, path: Path)
    requires Accepted(CheckAll(v, cs, path))
    ensures forall i :: 0 <= i < |cs| ==> Holds(cs[i], v)
    ensures CheckAll(v, cs, path) == Done(v, [])
  {
    if cs != [] {
      AcceptedChecks(v, cs[1..], path);
      assert forall i :: 0 < i < |cs| ==> cs[i] == cs[1..][i - 1];
    }
  }

  /** Without coercion an accepted value comes back as it is, whatever the type. */
  lemma {:induction false} NothingCoercedAnywhere(fast: bool, v: Json, t: Ty, path: Path)
    requires Accepted(Validate(fast, v, t, path, NO_COERCION))
    ensures Validate(fast, v, t, path, NO_COERCION) == Done(v, [])
    decreases t
  {
    match t
    case TUnion(variants, _) =>
      if v != JNull {
        var chosen := Chosen(v, variants);
        if fast && chosen.Some? && chosen.value < |variants| {
          NothingCoercedAnywhere(fast, v, variants[chosen.value], path);
        } else {
          var k := FirstFitAccepts(fast, v, variants, path, NO_COERCION);
          NothingCoercedAnywhere(fast, v, variants[k], path);
        }
      }
    case TAnnotated(base, cs) =>
      NothingCoercedAnywhere(fast, v, base, path);
      AcceptedChecks(v, cs, path);
    case _ => NothingCoerced(fast, v, t, path);
  }

  // ------------------------------------------------------------------------
  // The types whose every value fits
  // ------------------------------------------------------------------------

  /** No sets, only string literals, and Any and None not under Optional. */
  predicate Plain(t: Ty)
  {
    match t
    case TLiteral(args) => StringsOnly(args)
    case TList(item) => Plain(item)
    case TSet(_) => false
    case TTupleOf(item) => Plain(item)
    case TTuple(elements) => forall i :: 0 <= i < |elements| ==> Plain(elements[i])
    case TDict(k, v) => Plain(k) && Plain(v)
    case TStruct(_, fields) => forall i :: 0 <= i < |fields| ==> Plain(fields[i].ty)
    case TUnion(variants, _) =>
      forall i :: 0 <= i < |variants| ==> Plain(variants[i]) && !Core(variants[i]).TAny?
    case TAnnotated(base, _) => Plain(base)
    case _ => true
  }

  lemma {:induction false} PlainMatchesNoNull(t: Ty)
    requires Plain(t) && !Core(t).TAny?
    ensures !MatchesNull(t)
  {
    if t.TAnnotated? {
      PlainMatchesNoNull(t.base);
    }
  }

  lemma {:induction false} PlainFits(t: Ty, v: Json)
    requires Schemable(t) && Plain(t)
    ensures Fits(t, v)
    decreases t
  {
    match t
    case TList(item) => if v.JList? { forall i | 0 <= i < |v.items| { PlainFits(item, v.items[i]); } }
    case TTupleOf(item) => if v.JList? { forall i | 0 <= i < |v.items| { PlainFits(item, v.items[i]); } }
    case TTuple(elements) =>
      if v.JList? {
        forall i | 0 <= i < |v.items| && i < |elements| { PlainFits(elements[i], v.items[i]); }
      }
    case TDict(_, value) => if v.JObj? { forall i | 0 <= i < |v.members| { PlainFits(value, v.members[i].value); } }
    case TStruct(_, fields) =>
      if v.JObj? {
        forall i | 0 <= i < |v.members| && FieldIndex(fields, v.members[i].key).Some? {
          PlainFits(fields[FieldIndex(fields, v.members[i].key).value].ty, v.members[i].value);
        }
      }
    case TUnion(variants, _) =>
      forall i | 0 <= i < |variants|
        ensures Fits(variants[i], v) && !MatchesNull(variants[i])
      {
        PlainFits(variants[i], v);
        PlainMatchesNoNull(variants[i]);
      }
    case TAnnotated(base, _) => PlainFits(base, v);
    case _ =>
  }

  /**
   Soundness: for types built from scalars, string literals, lists, dicts,
   tuples, structs, Optional of a type other than Any, tagged unions, unions of
   different kinds and bounds, every accepted value satisfies the schema.
   */
  lemma AcceptedSatisfiesSchema(fast: bool, v: Json, t: Ty, path: Path)
    requires Schemable(t) && Plain(t) && Accepted(Validate(fast, v, t, path, NO_COERCION))
    ensures Satisfies(ToSchema(t), v)
  {
    SchemableIsOrdinary(t);
    AcceptedSatisfiesIffFits(fast, v, t, path);
    PlainFits(t, v);
  }

  // ------------------------------------------------------------------------
  // Where the schema is stricter than the validator
  // ------------------------------------------------------------------------

  /** Optional[Any] accepts everything; its schema accepts everything but null. */
  lemma OptionalAnyRejectsNull(fast: bool, v: Json)
    ensures Accepted(Validate(fast, v, TUnion([TAny], true), [], NO_COERCION))
    ensures Satisfies(ToSchema(TUnion([TAny], true)), v) <==> v != JNull
  {
    OptionalAnyAccepts(fast, v, [TAny]);
    OptionalSchema(TAny, v);
  }

  lemma OptionalAnyAccepts(fast: bool, v: Json, variants: seq<Ty>)
    requires |variants| == 1 && variants[0] == TAny
    ensures Accepted(Validate(fast, v, TUnion(variants, true), [], NO_COERCION))
  {
    assert variants[1..] == [];
    assert TypedDicts(variants[1..]) == [];
    assert |TypedDicts(variants)| <= 1;
    assert Chosen(v, variants).None?;
    assert FirstFit(fast, v, variants, [], NO_COERCION) == Done(v, []);
  }

  /** A set type accepts lists with repeated items; its schema accepts those of them without. */
  lemma SetSchemaRejectsRepeats(fast: bool, v: Json, item: Ty, path: Path)
    requires Schemable(item) && Plain(item) && Accepted(Validate(fast, v, TSet(item), path, NO_COERCION))
    ensures v.JList? && (Satisfies(ToSchema(TSet(item)), v) <==> Distinct(v.items))
  {
    SchemableIsOrdinary(item);
    AcceptedSatisfiesIffFits(fast, v, TSet(item), path);
    forall i | 0 <= i < |v.items|
      ensures Fits(item, v.items[i])
    {
      PlainFits(item, v.items[i]);
    }
  }

  /**
   A union of int and float accepts every number; its schema accepts fractions
   alone, because both branches of its `oneOf` accept a whole number.
   */
  lemma OverlappingUnionRejects(v: Json)
    ensures Accepted(Validate(true, v, TUnion([TInt, TFloat], false), [], NO_COERCION)) <==> v.JInt? || v.JFloat?
    ensures Satisfies(ToSchema(TUnion([TInt, TFloat], false)), v) <==> v.JFloat? && v.r != v.r.Floor as real
  {
    var variants := [TInt, TFloat];
    assert variants[0] == TInt && variants[1] == TFloat;
    IntOrFloatAccepts(v, variants);
    IntOrFloatSchema(v, variants);
  }

  lemma IntOrFloatAccepts(v: Json, variants: seq<Ty>)
    requires |variants| == 2 && variants[0] == TInt && variants[1] == TFloat
    ensures Accepted(Validate(true, v, TUnion(variants, false), [], NO_COERCION)) <==> v.JInt? || v.JFloat?
  {
    FewTypedDicts(variants);
    Untabled(v, variants);
    EitherFits(v, variants);
    assert Accepted(Validate(true, v, TInt, [], NO_COERCION)) <==> v.JInt?;
    assert Accepted(Validate(true, v, TFloat, [], NO_COERCION)) <==> v.JInt? || v.JFloat?;
  }

  lemma Untabled(v: Json, variants: seq<Ty>)
    requires |TypedDicts(variants)| <= 1
    ensures Accepted(Validate(true, v, TUnion(variants, false), [], NO_COERCION)) <==>
      v != JNull && Accepted(FirstFit(true, v, variants, [], NO_COERCION))
  {
    assert Chosen(v, variants).None?;
  }

  lemma EitherFits(v: Json, variants: seq<Ty>)
    requires |variants| == 2 && forall i :: 0 <= i < 2 ==> Validate(true, v, variants[i], [], NO_COERCION).Done?
    ensures Accepted(FirstFit(true, v, variants, [], NO_COERCION)) <==>
      Accepted(Validate(true, v, variants[0], [], NO_COERCION)) || Accepted(Validate(true, v, variants[1], [], NO_COERCION))
  {
    var rest := variants[1..];
    assert rest[0] == variants[1] && rest[1..] == [];
    assert FirstFit(true, v, rest[1..], [], NO_COERCION) == Done(v, [Error([], NoVariant)]);
  }

  lemma IntOrFloatSchema(v: Json, variants: seq<Ty>)
    requires |variants| == 2 && variants[0] == TInt && variants[1] == TFloat
    ensures Satisfies(ToSchema(TUnion(variants, false)), v) <==> v.JFloat? && v.r != v.r.Floor as real
  {
    SeveralVariants(variants, false);
    SchemasAt(variants, 0);
    SchemasAt(variants, 1);
    assert ToSchemas(variants) + [] == [ToSchema(TInt), ToSchema(TFloat)];
    OneOfTwo(ToSchema(TInt), ToSchema(TFloat), v);
    LeafShape(TInt, v);
    LeafShape(TFloat, v);
  }

  lemma SeveralVariants(variants: seq<Ty>, optional: bool)
    requires |variants| >= 2
    ensures ToSchema(TUnion(variants, optional)) ==
      EMPTY.(oneOf := ToSchemas(variants) + NullBranch(optional))
  {
  }

  lemma OverlapFails(v: Json, variants: seq<Ty>, others: seq<Schema>, i: nat, j: nat)
    requires i < |variants| && j < |variants| && i != j
    requires Satisfies(ToSchema(variants[i]), v) && Satisfies(ToSchema(variants[j]), v)
    ensures !Satisfies(EMPTY.(oneOf := ToSchemas(variants) + others), v)
  {
    SchemasAt(variants, i);
    SchemasAt(variants, j);
    TwoAccept(ToSchemas(variants) + others, v, i, j);
  }

  /** Whatever the union, a value that the schemas of two variants accept fails its `oneOf`. */
  lemma OverlapRejected(v: Json, variants: seq<Ty>, optional: bool, i: nat, j: nat)
    requires i < |variants| && j < |variants| && i != j
    requires Satisfies(ToSchema(variants[i]), v) && Satisfies(ToSchema(variants[j]), v)
    ensures !Satisfies(ToSchema(TUnion(variants, optional)), v)
  {
    SeveralVariants(variants, optional);
    OverlapFails(v, variants, NullBranch(optional), i, j);
  }

  /** The literal 1 accepts true, and the literal True accepts 1; their schemas do not. */
  lemma NumberLiteralRejectsBoolean()
    ensures Accepted(Validate(true, JBool(true), TLiteral([LInt(1)]), [], NO_COERCION))
    ensures !Satisfies(ToSchema(TLiteral([LInt(1)])), JBool(true))
    ensures Accepted(Validate(true, JInt(1), TLiteral([LBool(true)]), [], NO_COERCION))
    ensures !Satisfies(ToSchema(TLiteral([LBool(true)])), JInt(1))
  {
    assert HashOfLiteral([LInt(1)][0]) == HNumber(1.0) && HashOfLiteral([LBool(true)][0]) == HNumber(1.0);
    LiteralSchema(JBool(true), [LInt(1)]);
    LiteralSchema(JInt(1), [LBool(true)]);
  }
}
