/**
 What the generated schemas accept, said of types: of every value, accepted by
 the validator or not, and of unions whatever their variants share.
 */
module SchemaMeanings {
  import opened Common
  import opened Validation
  import opened JsonSchemas

  /** The schema of the type has the keyword `type`. */
  predicate Typed(t: Ty)
  {
    match t
    case TAny => false
    case TLiteral(_) => false
    case TUnion(variants, optional) => |variants| == 1 && optional && Typed(variants[0])
    case TAnnotated(base, _) => Typed(base)
    case _ => true
  }

  /**
   A union has a variant, and no Optional stands right under the annotations of
   another: for that the generator nests one list of types in another, which is
   no schema.
   */
  predicate Ordinary(t: Ty)
  {
    match t
    case TList(item) => Ordinary(item)
    case TSet(item) => Ordinary(item)
    case TTupleOf(item) => Ordinary(item)
    case TTuple(elements) => forall i :: 0 <= i < |elements| ==> Ordinary(elements[i])
    case TDict(k, v) => Ordinary(k) && Ordinary(v)
    case TStruct(_, fields) => forall i :: 0 <= i < |fields| ==> Ordinary(fields[i].ty)
    case TUnion(variants, optional) =>
      && variants != []
      && (forall i :: 0 <= i < |variants| ==> Ordinary(variants[i]))
      && (|variants| == 1 && optional && Core(variants[0]).TUnion? ==> !Typed(variants[0]))
    case TAnnotated(base, _) => Ordinary(base)
    case _ => true
  }

  // ------------------------------------------------------------------------
  // Size and range
  // ------------------------------------------------------------------------

  datatype Keyword =
    | ExclusiveMinimum | Minimum | ExclusiveMaximum | Maximum | MinLength | MaxLength | MinItems | MaxItems

  predicate IsArray(t: Ty)
  {
    var core := Core(t);
    core.TList? || core.TSet? || core.TTuple? || core.TTupleOf?
  }

  function KeywordOf(c: Constraint, isArray: bool): Keyword
  {
    match c
    case Gt(_) => ExclusiveMinimum
    case Ge(_) => Minimum
    case Lt(_) => ExclusiveMaximum
    case Le(_) => Maximum
    case MinLen(_) => if isArray then MinItems else MinLength
    case MaxLen(_) => if isArray then MaxItems else MaxLength
  }

  /** What the keyword of the constraint demands: nothing of values that are not numbers, strings or arrays. */
  predicate Meets(v: Json, c: Constraint, isArray: bool)
  {
    match c
    case Gt(x) => (v.JInt? ==> v.i as real > x) && (v.JFloat? ==> v.r > x)
    case Ge(x) => (v.JInt? ==> v.i as real >= x) && (v.JFloat? ==> v.r >= x)
    case Lt(x) => (v.JInt? ==> (v.i as real) < x) && (v.JFloat? ==> v.r < x)
    case Le(x) => (v.JInt? ==> v.i as real <= x) && (v.JFloat? ==> v.r <= x)
    case MinLen(n) => (v.JStr? && !isArray ==> |v.s| >= n) && (v.JList? && isArray ==> |v.items| >= n)
    case MaxLen(n) => (v.JStr? && !isArray ==> |v.s| <= n) && (v.JList? && isArray ==> |v.items| <= n)
  }

  /**
   The value meets the constraints that count, those of `seen` not among them: of
   the constraints of one keyword only the last and outermost counts, and the
   length of a tuple only where none of them replaces it.
   */
  predicate Bounded(t: Ty, seen: set<Keyword>, v: Json)
    decreases t, 0
  {
    match t
    case TTuple(elements) =>
      v.JList? && elements != [] ==>
        (MinItems !in seen ==> |v.items| >= |elements|) && (MaxItems !in seen ==> |v.items| <= |elements|)
    case TUnion(variants, optional) => |variants| == 1 && optional && Typed(variants[0]) ==> Bounded(variants[0], seen, v)
    case TAnnotated(base, cs) => BoundedBy(base, cs, seen, v)
    case _ => true
  }

  predicate BoundedBy(base: Ty, cs: seq<Constraint>, seen: set<Keyword>, v: Json)
    decreases base, 1, |cs|
  {
    if cs == [] then Bounded(base, seen, v)
    else
      var last := cs[|cs| - 1];
      var keyword := KeywordOf(last, IsArray(base));
      (keyword in seen || Meets(v, last, IsArray(base))) && BoundedBy(base, cs[..|cs| - 1], seen + {keyword}, v)
  }

  // ------------------------------------------------------------------------
  // What the schema of a type takes
  // ------------------------------------------------------------------------

  /**
   The value has the shape that the schema of the type asks for. Of a union, the
   schema of one alternative accepts it and of no other: null is an alternative
   of its own, except where it is another entry of the one list of types.
   */
  predicate Shaped(t: Ty, v: Json)
    decreases t, 0
  {
    match t
    case TAny => true
    case TNone => v.JNull?
    case TBool => v.JBool?
    case TInt => v.JInt? || (v.JFloat? && v.r == v.r.Floor as real)
    case TFloat => v.JInt? || v.JFloat?
    case TStr => v.JStr?
    case TBytes => v.JStr?
    case TLiteral(args) => exists i :: 0 <= i < |args| && EqualsLiteral(v, args[i])
    case TList(item) => v.JList? && forall i :: 0 <= i < |v.items| ==> Takes(item, v.items[i])
    case TTupleOf(item) => v.JList? && forall i :: 0 <= i < |v.items| ==> Takes(item, v.items[i])
    case TSet(item) => v.JList? && Distinct(v.items) && forall i :: 0 <= i < |v.items| ==> Takes(item, v.items[i])
    case TTuple(elements) =>
      v.JList? && forall i :: 0 <= i < |v.items| && i < |elements| ==> Takes(elements[i], v.items[i])
    case TDict(_, value) => v.JObj? && forall i :: 0 <= i < |v.members| ==> Takes(value, v.members[i].value)
    case TStruct(_, fields) =>
      && v.JObj?
      && (forall i :: 0 <= i < |fields| && fields[i].required ==> HasMember(v, fields[i].name))
      && (forall i :: 0 <= i < |v.members| ==>
            var k := FieldIndex(fields, v.members[i].key);
            k.Some? ==> Takes(fields[k.value].ty, v.members[i].value))
    case TUnion(variants, optional) =>
      if |variants| == 1 && optional && Typed(variants[0]) then v.JNull? || Shaped(variants[0], v)
      else if v.JNull? && optional then NoMark(Marks(variants, v))
      else OnlyOne(Marks(variants, v))
    case TAnnotated(base, _) => Shaped(base, v)
  }

  predicate OnlyOne(marks: seq<bool>)
  {
    exists i :: 0 <= i < |marks| && marks[i] && forall j :: 0 <= j < |marks| && j != i ==> !marks[j]
  }

  predicate NoMark(marks: seq<bool>)
  {
    forall i :: 0 <= i < |marks| ==> !marks[i]
  }

  /** Which of the variants take the value. */
  function Marks(variants: seq<Ty>, v: Json): (marks: seq<bool>)
    ensures |marks| == |variants|
    decreases variants, 0
  {
    seq(|variants|, i requires 0 <= i < |variants| => Takes(variants[i], v))
  }

  /** The schema of the type accepts the value: its shape, and its size or range. */
  predicate Takes(t: Ty, v: Json)
    decreases t, 1
  {
    Shaped(t, v) && Bounded(t, {}, v)
  }

  // ------------------------------------------------------------------------
  // Bounds apart from the rest
  // ------------------------------------------------------------------------

  function Unbounded(s: Schema): Schema
  {
    s.(bounds := NO_BOUNDS)
  }

  lemma BoundsApart(s: Schema, v: Json)
    ensures Satisfies(s, v) <==> Satisfies(Unbounded(s), v) && WithinBounds(v, s.bounds)
  {
    var t := Unbounded(s);
    assert WithinBounds(v, t.bounds);
    assert MembersOk(s, v) <==> MembersOk(t, v);
    assert ItemsOk(s, v) <==> ItemsOk(t, v);
  }

  /** The keywords other than those of `seen`. */
  function Without(b: Bounds, seen: set<Keyword>): Bounds
  {
    Bounds(
      if Minimum in seen then None else b.minimum,
      if ExclusiveMinimum in seen then None else b.exclusiveMinimum,
      if Maximum in seen then None else b.maximum,
      if ExclusiveMaximum in seen then None else b.exclusiveMaximum,
      if MinLength in seen then None else b.minLength,
      if MaxLength in seen then None else b.maxLength,
      if MinItems in seen then None else b.minItems,
      if MaxItems in seen then None else b.maxItems)
  }

  lemma LastCounts(s: Schema, c: Constraint, seen: set<Keyword>, isArray: bool, v: Json)
    requires isArray <==> s.types == Some([ArrayType])
    ensures
      var keyword := KeywordOf(c, isArray);
      WithinBounds(v, Without(WithConstraint(s, c).bounds, seen)) <==>
      (keyword in seen || Meets(v, c, isArray)) && WithinBounds(v, Without(s.bounds, seen + {keyword}))
  {
    if c.MinLen? || c.MaxLen? {
      LastLengthCounts(s, c, seen, isArray, v);
    } else {
      LastRangeCounts(s, c, seen, isArray, v);
    }
  }

  lemma LastLengthCounts(s: Schema, c: Constraint, seen: set<Keyword>, isArray: bool, v: Json)
    requires (isArray <==> s.types == Some([ArrayType])) && (c.MinLen? || c.MaxLen?)
    ensures
      var keyword := KeywordOf(c, isArray);
      WithinBounds(v, Without(WithConstraint(s, c).bounds, seen)) <==>
      (keyword in seen || Meets(v, c, isArray)) && WithinBounds(v, Without(s.bounds, seen + {keyword}))
  {
  }

  lemma LastRangeCounts(s: Schema, c: Constraint, seen: set<Keyword>, isArray: bool, v: Json)
    requires !c.MinLen? && !c.MaxLen?
    ensures
      var keyword := KeywordOf(c, isArray);
      WithinBounds(v, Without(WithConstraint(s, c).bounds, seen)) <==>
      (keyword in seen || Meets(v, c, isArray)) && WithinBounds(v, Without(s.bounds, seen + {keyword}))
  {
    if v.JInt? || v.JFloat? {
      var x := if v.JInt? then v.i as real else v.r;
      assert forall b :: WithinBounds(v, b) <==> InRange(x, b);
    }
  }

  /** The generator's test for an array. */
  lemma {:induction false} ArrayTypes(t: Ty)
    ensures ToSchema(t).types == Some([ArrayType]) <==> IsArray(t)
  {
    match t
    case TAnnotated(base, cs) =>
      ArrayTypes(base);
      ConstraintsShape(ToSchema(base), cs);
    case TUnion(variants, optional) =>
      if |variants| == 1 && optional && ToSchema(variants[0]).types.Some? {
        var types := ToSchema(variants[0]).types.value + [NullType];
        assert types[|types| - 1] == NullType && [ArrayType][0] == ArrayType;
      }
    case TList(_) =>
    case TSet(_) =>
    case TTuple(_) =>
    case TTupleOf(_) =>
    case TAny =>
    case TLiteral(_) =>
    case _ => assert [ArrayType][0] != ToSchema(t).types.value[0];
  }

  lemma {:induction false} BoundsBy(base: Ty, cs: seq<Constraint>, seen: set<Keyword>, v: Json)
    ensures WithinBounds(v, Without(WithConstraints(ToSchema(base), cs).bounds, seen)) <==> BoundedBy(base, cs, seen, v)
    decreases base, 1, |cs|
  {
    if cs == [] {
      BoundsAre(base, seen, v);
    } else {
      var front, last := cs[..|cs| - 1], cs[|cs| - 1];
      ArrayTypes(base);
      ConstraintsShape(ToSchema(base), front);
      LastCounts(WithConstraints(ToSchema(base), front), last, seen, IsArray(base), v);
      BoundsBy(base, front, seen + {KeywordOf(last, IsArray(base))}, v);
    }
  }

  /** The keywords that the generator collects, later ones replacing earlier ones, say the same. */
  lemma {:induction false} BoundsAre(t: Ty, seen: set<Keyword>, v: Json)
    ensures WithinBounds(v, Without(ToSchema(t).bounds, seen)) <==> Bounded(t, seen, v)
    decreases t, 0
  {
    match t
    case TAnnotated(base, cs) => BoundsBy(base, cs, seen, v);
    case TUnion(variants, optional) =>
      BoundsOfUnion(t);
      if |variants| == 1 && optional {
        BoundsAre(variants[0], seen, v);
      }
    case _ => OwnBounds(t, seen, v);
  }

  lemma BoundsOfUnion(t: Ty)
    requires t.TUnion?
    ensures ToSchema(t).bounds ==
      if |t.variants| == 1 && t.optional && Typed(t.variants[0]) then ToSchema(t.variants[0]).bounds else NO_BOUNDS
  {
    if |t.variants| == 1 {
      TypedSchema(t.variants[0]);
    }
  }

  lemma OwnBounds(t: Ty, seen: set<Keyword>, v: Json)
    requires !t.TAnnotated? && !t.TUnion?
    ensures WithinBounds(v, Without(ToSchema(t).bounds, seen)) <==> Bounded(t, seen, v)
  {
  }

  lemma BoundsCollected(t: Ty, v: Json)
    ensures WithinBounds(v, ToSchema(t).bounds) <==> Bounded(t, {}, v)
  {
    BoundsAre(t, {}, v);
    assert Without(ToSchema(t).bounds, {}) == ToSchema(t).bounds;
  }

  // ------------------------------------------------------------------------
  // Shapes
  // ------------------------------------------------------------------------

  lemma LeafShape(t: Ty, v: Json)
    requires t.TAny? || t.TNone? || t.TLiteral? || t.TBool? || t.TInt? || t.TFloat? || t.TStr? || t.TBytes?
    ensures Satisfies(ToSchema(t), v) <==> Shaped(t, v)
    ensures ToSchema(t).bounds == NO_BOUNDS
  {
    match t
    case TAny =>
    case TLiteral(args) => assert Satisfies(ToSchema(t), v) <==> EnumOk(Some(args), v);
    case TNone => TypeAlone(NullType, v);
    case TBool => TypeAlone(BooleanType, v);
    case TInt => TypeAlone(IntegerType, v);
    case TFloat => TypeAlone(NumberType, v);
    case _ => TypeAlone(StringType, v);
  }

  lemma TypeAlone(t: JsonType, v: Json)
    ensures Satisfies(OfType(t), v) <==> HasType(v, t)
  {
    HasOnlyType(t, v);
  }

  lemma {:induction false} RequiredNamesAre(fields: seq<Field>, v: Json)
    requires v.JObj?
    ensures RequiredOk(RequiredNames(fields), v) <==>
      forall i :: 0 <= i < |fields| && fields[i].required ==> HasMember(v, fields[i].name)
  {
    if fields != [] {
      var rest := fields[1..];
      RequiredNamesAre(rest, v);
      assert forall i :: 0 <= i < |rest| ==> rest[i] == fields[i + 1];
      assert forall i :: 0 < i < |fields| ==> fields[i] == rest[i - 1];
      RequiredFront(if fields[0].required then [fields[0].name] else [], RequiredNames(rest), v);
    }
  }

  lemma RequiredFront(a: seq<string>, b: seq<string>, v: Json)
    requires v.JObj? && |a| <= 1
    ensures RequiredOk(a + b, v) <==> (a != [] ==> HasMember(v, a[0])) && RequiredOk(b, v)
  {
    if RequiredOk(a + b, v) {
      assert forall i :: 0 <= i < |b| ==> (a + b)[|a| + i] == b[i];
      assert a != [] ==> (a + b)[0] == a[0];
    }
  }

  lemma {:induction false} StructShape(t: Ty, v: Json)
    requires t.TStruct? && Ordinary(t)
    ensures Satisfies(ToSchema(t), v) <==> Shaped(t, v)
    decreases t, 0
  {
    HasOnlyType(ObjectType, v);
    if v.JObj? {
      RequiredNamesAre(t.fields, v);
      forall i | 0 <= i < |v.members|
        ensures
          var k := PropertyIndex(Properties(t.fields), v.members[i].key);
          && k == FieldIndex(t.fields, v.members[i].key)
          && (k.Some? ==>
                (Satisfies(Properties(t.fields)[k.value].schema, v.members[i].value) <==>
                 Takes(t.fields[k.value].ty, v.members[i].value)))
      {
        PropertyOfField(t.fields, v.members[i].key);
        var k := FieldIndex(t.fields, v.members[i].key);
        if k.Some? {
          SatisfiesIffTakes(t.fields[k.value].ty, v.members[i].value);
        }
      }
      assert Satisfies(ToSchema(t), v) <==> RequiredOk(RequiredNames(t.fields), v) && MembersOk(ToSchema(t), v);
    }
  }

  lemma {:induction false} DictShape(t: Ty, v: Json)
    requires t.TDict? && Ordinary(t)
    ensures Satisfies(ToSchema(t), v) <==> Shaped(t, v)
    decreases t, 0
  {
    HasOnlyType(ObjectType, v);
    if v.JObj? {
      DictSchema(v, t);
      forall i | 0 <= i < |v.members|
        ensures Satisfies(ToSchema(t.value), v.members[i].value) <==> Takes(t.value, v.members[i].value)
      {
        SatisfiesIffTakes(t.value, v.members[i].value);
      }
    }
  }

  lemma {:induction false} ListShape(t: Ty, v: Json)
    requires (t.TList? || t.TTupleOf? || t.TSet?) && Ordinary(t)
    ensures Satisfies(ToSchema(t), v) <==> Shaped(t, v)
    decreases t, 0
  {
    HasOnlyType(ArrayType, v);
    if v.JList? {
      ListSchema(v, t);
      forall i | 0 <= i < |v.items|
        ensures Satisfies(ToSchema(t.item), v.items[i]) <==> Takes(t.item, v.items[i])
      {
        SatisfiesIffTakes(t.item, v.items[i]);
      }
    }
  }

  lemma {:induction false} TupleShape(t: Ty, v: Json)
    requires t.TTuple? && Ordinary(t)
    ensures Satisfies(Unbounded(ToSchema(t)), v) <==> Shaped(t, v)
    decreases t, 0
  {
    var s := Unbounded(ToSchema(t));
    HasOnlyType(ArrayType, v);
    if v.JList? {
      forall i | 0 <= i < |v.items| && i < |t.elements|
        ensures Satisfies(ToSchemas(t.elements)[i], v.items[i]) <==> Takes(t.elements[i], v.items[i])
      {
        SchemasAt(t.elements, i);
        SatisfiesIffTakes(t.elements[i], v.items[i]);
      }
      assert Satisfies(s, v) <==> ItemsOk(s, v);
    }
  }

  // ------------------------------------------------------------------------
  // Unions
  // ------------------------------------------------------------------------

  /** A schema with a `type` has no `enum` and no `oneOf`. */
  lemma {:induction false} TypedSchema(t: Ty)
    ensures ToSchema(t).types.Some? <==> Typed(t)
    ensures Typed(t) ==> ToSchema(t).enumeration.None? && ToSchema(t).oneOf == []
  {
    match t
    case TAnnotated(base, cs) =>
      TypedSchema(base);
      ConstraintsShape(ToSchema(base), cs);
    case TUnion(variants, optional) =>
      if |variants| == 1 && optional {
        TypedSchema(variants[0]);
      }
    case _ =>
  }

  lemma OnlyOneMore(marks: seq<bool>, last: bool)
    ensures OnlyOne(marks + [last]) <==> if last then NoMark(marks) else OnlyOne(marks)
  {
    var more, n := marks + [last], |marks|;
    assert more[n] == last && forall i :: 0 <= i < n ==> more[i] == marks[i];
    if OnlyOne(marks) && !last {
      var i :| 0 <= i < n && marks[i] && forall j :: 0 <= j < n && j != i ==> !marks[j];
      assert more[i];
    }
  }

  lemma MarkedByOneOf(schemas: seq<Schema>, marks: seq<bool>, v: Json)
    requires |schemas| == |marks| && forall i :: 0 <= i < |schemas| ==> (Satisfies(schemas[i], v) <==> marks[i])
    ensures ExactlyOne(schemas, v) <==> OnlyOne(marks)
  {
    if ExactlyOne(schemas, v) {
      var i :| 0 <= i < |schemas| && Satisfies(schemas[i], v) &&
        forall j :: 0 <= j < |schemas| && j != i ==> !Satisfies(schemas[j], v);
      assert marks[i];
    }
    if OnlyOne(marks) {
      var i :| 0 <= i < |marks| && marks[i] && forall j :: 0 <= j < |marks| && j != i ==> !marks[j];
      assert Satisfies(schemas[i], v);
    }
  }

  lemma MarkAt(variants: seq<Ty>, v: Json, i: nat)
    requires i < |variants|
    ensures Marks(variants, v)[i] <==> Takes(variants[i], v)
  {
  }

  function NullMark(optional: bool, v: Json): seq<bool>
  {
    if optional then [v.JNull?] else []
  }

  lemma NullMarked(marks: seq<bool>, optional: bool, v: Json)
    ensures OnlyOne(marks + NullMark(optional, v)) <==>
      if v.JNull? && optional then NoMark(marks) else OnlyOne(marks)
  {
    if optional {
      OnlyOneMore(marks, v.JNull?);
    } else {
      assert marks + [] == marks;
    }
  }

  lemma BranchesMarked(variants: seq<Ty>, optional: bool, v: Json, marks: seq<bool>)
    requires |variants| == |marks|
    requires forall i :: 0 <= i < |variants| ==> (Satisfies(ToSchema(variants[i]), v) <==> marks[i])
    ensures ExactlyOne(ToSchemas(variants) + NullBranch(optional), v) <==> OnlyOne(marks + NullMark(optional, v))
  {
    var schemas, all := ToSchemas(variants) + NullBranch(optional), marks + NullMark(optional, v);
    TypeAlone(NullType, v);
    forall i | 0 <= i < |schemas|
      ensures Satisfies(schemas[i], v) <==> all[i]
    {
      if i < |variants| {
        SchemasAt(variants, i);
        assert schemas[i] == ToSchema(variants[i]) && all[i] == marks[i];
      } else {
        assert schemas[i] == OfType(NullType) && all[i] == v.JNull?;
      }
    }
    MarkedByOneOf(schemas, all, v);
  }

  /** `oneOf` over the variants' schemas, and one for null. */
  lemma OneOfVariants(variants: seq<Ty>, optional: bool, v: Json)
    requires forall i :: 0 <= i < |variants| ==> (Satisfies(ToSchema(variants[i]), v) <==> Takes(variants[i], v))
    ensures ExactlyOne(ToSchemas(variants) + NullBranch(optional), v) <==>
      if v.JNull? && optional then NoMark(Marks(variants, v)) else OnlyOne(Marks(variants, v))
  {
    var marks := Marks(variants, v);
    forall i | 0 <= i < |variants|
      ensures Satisfies(ToSchema(variants[i]), v) <==> marks[i]
    {
      MarkAt(variants, v, i);
    }
    BranchesMarked(variants, optional, v, marks);
    NullMarked(marks, optional, v);
  }

  lemma {:induction false} UnionShape(t: Ty, v: Json)
    requires t.TUnion? && Ordinary(t)
    ensures Satisfies(Unbounded(ToSchema(t)), v) <==> Shaped(t, v)
    decreases t, 0
  {
    if |t.variants| == 1 && t.optional && Typed(t.variants[0]) {
      ShapeOf(t.variants[0], v);
      TypedOptionalShape(t.variants[0], v);
      assert t == TUnion([t.variants[0]], true);
    } else {
      forall i | 0 <= i < |t.variants|
        ensures Satisfies(ToSchema(t.variants[i]), v) <==> Takes(t.variants[i], v)
      {
        SatisfiesIffTakes(t.variants[i], v);
      }
      UnionIsOneOf(t);
      OneOfVariants(t.variants, t.optional, v);
      OneOfSchema(ToSchemas(t.variants) + NullBranch(t.optional), v);
    }
  }

  lemma TypedOptionalShape(t: Ty, v: Json)
    requires Typed(t)
    ensures Satisfies(Unbounded(ToSchema(TUnion([t], true))), v) <==> v.JNull? || Satisfies(Unbounded(ToSchema(t)), v)
  {
    var s := ToSchema(t);
    TypedSchema(t);
    assert [t][0] == t;
    assert ToSchema(TUnion([t], true)) == s.(types := Some(s.types.value + [NullType]));
    OptionalTyped(Unbounded(s), v);
  }

  /** Both renderings of a union without a `type` are the same `oneOf`. */
  lemma UnionIsOneOf(t: Ty)
    requires t.TUnion? && t.variants != [] && !(|t.variants| == 1 && t.optional && Typed(t.variants[0]))
    ensures ToSchema(t) == EMPTY.(oneOf := ToSchemas(t.variants) + NullBranch(t.optional))
  {
    if |t.variants| == 1 && t.optional {
      TypedSchema(t.variants[0]);
      assert t.variants[1..] == [];
      assert ToSchemas(t.variants) == [ToSchema(t.variants[0])];
    }
  }

  // ------------------------------------------------------------------------
  // Every type
  // ------------------------------------------------------------------------

  lemma {:induction false} ShapeOf(t: Ty, v: Json)
    requires Ordinary(t)
    ensures Satisfies(Unbounded(ToSchema(t)), v) <==> Shaped(t, v)
    decreases t, 1
  {
    match t
    case TList(_) => ListShape(t, v);
    case TTupleOf(_) => ListShape(t, v);
    case TSet(_) => ListShape(t, v);
    case TTuple(_) => TupleShape(t, v);
    case TDict(_, _) => DictShape(t, v);
    case TStruct(_, _) => StructShape(t, v);
    case TUnion(_, _) => UnionShape(t, v);
    case TAnnotated(base, cs) =>
      ShapeOf(base, v);
      ConstraintsShape(ToSchema(base), cs);
    case _ => LeafShape(t, v);
  }

  /** The schema of any type accepts exactly the values that the type's meaning takes. */
  lemma {:induction false} SatisfiesIffTakes(t: Ty, v: Json)
    requires Ordinary(t)
    ensures Satisfies(ToSchema(t), v) <==> Takes(t, v)
    decreases t, 2
  {
    ShapeOf(t, v);
    BoundsCollected(t, v);
    BoundsApart(ToSchema(t), v);
  }
}
