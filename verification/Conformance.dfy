/**
 What it means for a value to conform to a type, and what is wrong with it where
 it does not, said apart from the walk: the validator accepts exactly the values
 that conform, and reports exactly what is wrong with the others.
 */
module Conformance {
  import opened Common
  import opened Validation
  import opened Dispatching

  // ------------------------------------------------------------------------
  // Conforming values
  // ------------------------------------------------------------------------

  /** Python's `==` between a JSON value and a literal: booleans are the numbers 0 and 1. */
  predicate EqualsLiteral(v: Json, l: Literal)
  {
    match l
    case LStr(s) => v == JStr(s)
    case LInt(i) => v == JInt(i) || v == JFloat(i as real) || (i == 0 && v == JBool(false)) || (i == 1 && v == JBool(true))
    case LBool(b) => v == JBool(b) || v == JInt(if b then 1 else 0) || v == JFloat(if b then 1.0 else 0.0)
    case LNone => v.JNull?
  }

  /** The number that a constraint compares; booleans count as 0 and 1. */
  predicate IsNumber(v: Json, x: real)
  {
    || (v.JInt? && v.i as real == x)
    || (v.JFloat? && v.r == x)
    || (v.JBool? && x == if v.b then 1.0 else 0.0)
  }

  /** The length that a constraint compares. */
  predicate HasSize(v: Json, n: nat)
  {
    || (v.JStr? && |v.s| == n)
    || (v.JList? && |v.items| == n)
    || (v.JObj? && |v.members| == n)
  }

  ghost predicate Meets(v: Json, c: Constraint)
  {
    match c
    case Gt(b) => exists x :: IsNumber(v, x) && x > b
    case Ge(b) => exists x :: IsNumber(v, x) && x >= b
    case Lt(b) => exists x :: IsNumber(v, x) && x < b
    case Le(b) => exists x :: IsNumber(v, x) && x <= b
    case MinLen(n) => exists size: nat :: HasSize(v, size) && size >= n
    case MaxLen(n) => exists size: nat :: HasSize(v, size) && size <= n
  }

  /** Field `f` is the one that the name stands for. */
  predicate IsField(fields: seq<Field>, f: int, name: string)
  {
    0 <= f < |fields| && fields[f].name == name && forall g :: 0 <= g < f ==> fields[g].name != name
  }

  /** A required field of which the object has no member. */
  predicate Lacks(members: seq<Member>, field: Field)
  {
    field.required && forall m :: 0 <= m < |members| ==> members[m].key != field.name
  }

  /** The value with which validation goes on: a converted string, or the value itself. */
  ghost function Reading(v: Json, t: Ty, co: Coercion): Json
    decreases t, 0
  {
    match t
    case TInt => if co.asked && v.JStr? && co.toInt(v.s).Some? then JInt(co.toInt(v.s).value) else v
    case TFloat => if co.asked && v.JStr? && co.toFloat(v.s).Some? then JFloat(co.toFloat(v.s).value) else v
    case TUnion(variants, _) => if v.JNull? then v else FirstReading(v, variants, co)
    case TAnnotated(base, _) => Reading(v, base, co)
    case _ => v
  }

  /** As the first variant reads it that the value conforms to. */
  ghost function FirstReading(v: Json, variants: seq<Ty>, co: Coercion): Json
    decreases variants, 0
  {
    if variants == [] then v
    else if Conforms(v, variants[0], co) then Reading(v, variants[0], co)
    else FirstReading(v, variants[1..], co)
  }

  ghost predicate Conforms(v: Json, t: Ty, co: Coercion)
    decreases t, 1
  {
    match t
    case TAny => true
    case TNone => v.JNull?
    case TBool => v.JBool?
    case TInt => v.JInt? || (co.asked && v.JStr? && co.toInt(v.s).Some?)
    case TFloat => v.JInt? || v.JFloat? || (co.asked && v.JStr? && co.toFloat(v.s).Some?)
    case TStr => v.JStr?
    case TBytes => false
    case TLiteral(args) => EqualsSome(v, args)
    case TList(item) => v.JList? && AllConform(v.items, item, co)
    case TSet(item) => v.JList? && AllConform(v.items, item, co)
    case TTupleOf(item) => v.JList? && AllConform(v.items, item, co)
    case TTuple(elements) => v.JList? && (elements == [] || EachConforms(v.items, elements, co))
    case TDict(_, _) => v.JObj? && EntriesConform(v.members, t, co)
    case TStruct(_, fields) => v.JObj? && HasRequired(v.members, fields) && FieldsConform(v.members, fields, co)
    case TUnion(variants, optional) => if v.JNull? then optional else ConformsToSome(v, variants, co)
    case TAnnotated(base, cs) => Conforms(v, base, co) && MeetsAll(Reading(v, base, co), cs)
  }

  predicate EqualsSome(v: Json, args: seq<Literal>)
  {
    exists i :: 0 <= i < |args| && EqualsLiteral(v, args[i])
  }

  ghost predicate MeetsAll(v: Json, cs: seq<Constraint>)
  {
    forall i :: 0 <= i < |cs| ==> Meets(v, cs[i])
  }

  ghost predicate AllConform(items: seq<Json>, item: Ty, co: Coercion)
    decreases item, 2
  {
    forall i :: 0 <= i < |items| ==> Conforms(items[i], item, co)
  }

  /** As many items as elements, each conforming to its own. */
  ghost predicate EachConforms(items: seq<Json>, elements: seq<Ty>, co: Coercion)
    decreases elements, 0
  {
    |items| == |elements| && forall i :: 0 <= i < |elements| ==> Conforms(items[i], elements[i], co)
  }

  /** Every key, and its value. */
  ghost predicate EntriesConform(members: seq<Member>, t: Ty, co: Coercion)
    requires t.TDict?
    decreases t, 0
  {
    forall m :: 0 <= m < |members| ==>
      Conforms(JStr(members[m].key), t.key, co) && Conforms(members[m].value, t.value, co)
  }

  predicate HasRequired(members: seq<Member>, fields: seq<Field>)
  {
    forall f :: 0 <= f < |fields| ==> !Lacks(members, fields[f])
  }

  /** Every member that is a field; other members may be anything. */
  ghost predicate FieldsConform(members: seq<Member>, fields: seq<Field>, co: Coercion)
    decreases fields, 0
  {
    forall m, f :: 0 <= m < |members| && IsField(fields, f, members[m].key) ==>
      Conforms(members[m].value, fields[f].ty, co)
  }

  ghost predicate ConformsToSome(v: Json, variants: seq<Ty>, co: Coercion)
    decreases variants, 0
  {
    exists i :: 0 <= i < |variants| && Conforms(v, variants[i], co)
  }

  // ------------------------------------------------------------------------
  // What is wrong with the others
  // ------------------------------------------------------------------------

  /**
   `e` names something wrong with the value at `path`: its kind, its literal, its
   length, a required field that it lacks, a constraint that it breaks, that no
   variant of a union takes it, or something wrong with a part of it, under the
   path of that part. With `fast`, a union that the value's discriminator decides
   stands for the variant it names.
   */
  ghost predicate Wrong(fast: bool, v: Json, t: Ty, path: Path, co: Coercion, e: Error)
    decreases t, 1
  {
    match t
    case TLiteral(_) => !Conforms(v, t, co) && e == Error(path, NotInLiteral)
    case TList(item) =>
      if v.JList? then ItemWrong(fast, v.items, item, path, 0, co, e) else e == Error(path, WrongType)
    case TSet(item) =>
      if v.JList? then ItemWrong(fast, v.items, item, path, 0, co, e) else e == Error(path, WrongType)
    case TTupleOf(item) =>
      if v.JList? then ItemWrong(fast, v.items, item, path, 0, co, e) else e == Error(path, WrongType)
    case TTuple(elements) =>
      if !v.JList? then e == Error(path, WrongType)
      else if elements != [] && |v.items| != |elements| then e == Error(path, WrongLength)
      else ElementWrong(fast, v.items, elements, path, 0, co, e)
    case TDict(_, _) => if v.JObj? then EntryWrong(fast, v.members, t, path, co, e) else e == Error(path, WrongType)
    case TStruct(_, fields) =>
      if v.JObj? then FieldMissing(v.members, fields, path, e) || FieldWrong(fast, v.members, fields, path, co, e)
      else e == Error(path, WrongType)
    case TUnion(variants, optional) =>
      if v.JNull? then !optional && e == Error(path, WrongType)
      else
        var chosen := Chosen(v, variants);
        if fast && chosen.Some? && chosen.value < |variants| then Wrong(fast, v, variants[chosen.value], path, co, e)
        else !ConformsToSome(v, variants, co) && e == Error(path, NoVariant)
    case TAnnotated(base, cs) =>
      if Conforms(v, base, co) then Breaks(Reading(v, base, co), cs, path, e) else Wrong(fast, v, base, path, co, e)
    case _ => !Conforms(v, t, co) && e == Error(path, WrongType)
  }

  ghost predicate Breaks(v: Json, cs: seq<Constraint>, path: Path, e: Error)
  {
    exists i :: 0 <= i < |cs| && !Meets(v, cs[i]) && e == Error(path, Violates(cs[i]))
  }

  /** Something is wrong with one of the items from position `from` on. */
  ghost predicate ItemWrong(fast: bool, items: seq<Json>, item: Ty, path: Path, from: nat, co: Coercion, e: Error)
    decreases item, 2
  {
    exists i :: from <= i < |items| && Wrong(fast, items[i], item, path + [Index(i)], co, e)
  }

  ghost predicate ElementWrong(
      fast: bool, items: seq<Json>, elements: seq<Ty>, path: Path, from: nat, co: Coercion, e: Error)
    decreases elements, 0
  {
    exists i :: 0 <= i < |items| && i < |elements| && Wrong(fast, items[i], elements[i], path + [Index(from + i)], co, e)
  }

  ghost predicate EntryWrong(fast: bool, members: seq<Member>, t: Ty, path: Path, co: Coercion, e: Error)
    requires t.TDict?
    decreases t, 0
  {
    exists m :: 0 <= m < |members| &&
      (|| Wrong(fast, JStr(members[m].key), t.key, path + [KeyItself(members[m].key)], co, e)
       || Wrong(fast, members[m].value, t.value, path + [Key(members[m].key)], co, e))
  }

  predicate FieldMissing(members: seq<Member>, fields: seq<Field>, path: Path, e: Error)
  {
    exists f :: 0 <= f < |fields| && Lacks(members, fields[f]) && e == Error(path + [Key(fields[f].name)], Missing)
  }

  ghost predicate FieldWrong(fast: bool, members: seq<Member>, fields: seq<Field>, path: Path, co: Coercion, e: Error)
    decreases fields, 0
  {
    exists m, f :: 0 <= m < |members| && IsField(fields, f, members[m].key) &&
      Wrong(fast, members[m].value, fields[f].ty, path + [Key(members[m].key)], co, e)
  }

  // ------------------------------------------------------------------------
  // Literals, constraints, fields
  // ------------------------------------------------------------------------

  lemma LiteralsAlike(v: Json, args: seq<Literal>)
    ensures InLiterals(v, args) <==> EqualsSome(v, args)
  {
    forall i | 0 <= i < |args|
      ensures EqualsLiteral(v, args[i]) <==> HashOf(v) == Some(HashOfLiteral(args[i]))
    {
      EqualHashes(v, args[i]);
    }
  }

  lemma EqualHashes(v: Json, l: Literal)
    ensures EqualsLiteral(v, l) <==> HashOf(v) == Some(HashOfLiteral(l))
  {
  }

  lemma ChecksMeeting(c: Constraint, v: Json)
    requires Check(c, v).Some?
    ensures Check(c, v).value <==> Meets(v, c)
  {
    if c.MinLen? || c.MaxLen? {
      assert HasSize(v, SizeOf(v).value);
    } else {
      assert IsNumber(v, NumberOf(v).value);
    }
  }

  lemma {:induction false} FieldFound(fields: seq<Field>, name: string)
    ensures FieldIndex(fields, name).Some? ==> IsField(fields, FieldIndex(fields, name).value, name)
    ensures forall f :: IsField(fields, f, name) ==> FieldIndex(fields, name) == Some(f)
  {
    FirstFound(fields, name);
  }

  lemma {:induction false} FirstFound(fields: seq<Field>, name: string)
    ensures FieldIndex(fields, name).Some? ==>
      forall g :: 0 <= g < FieldIndex(fields, name).value ==> fields[g].name != name
  {
    if fields != [] && fields[0].name != name {
      FirstFound(fields[1..], name);
      assert forall g :: 0 < g < |fields| ==> fields[g] == fields[1..][g - 1];
    }
  }

  // ------------------------------------------------------------------------
  // Parts one by one
  // ------------------------------------------------------------------------

  lemma ItemsFromFirst(items: seq<Json>, item: Ty, co: Coercion)
    requires items != []
    ensures AllConform(items, item, co) <==> Conforms(items[0], item, co) && AllConform(items[1..], item, co)
  {
    var rest := items[1..];
    assert forall i :: 0 < i < |items| ==> items[i] == rest[i - 1];
    assert forall i :: 0 <= i < |rest| ==> rest[i] == items[i + 1];
  }

  lemma ItemWrongFrom(fast: bool, items: seq<Json>, item: Ty, path: Path, from: nat, co: Coercion, e: Error)
    requires from < |items|
    ensures ItemWrong(fast, items, item, path, from, co, e) <==>
      || Wrong(fast, items[from], item, path + [Index(from)], co, e)
      || ItemWrong(fast, items, item, path, from + 1, co, e)
  {
  }

  lemma ElementsFromFirst(items: seq<Json>, elements: seq<Ty>, co: Coercion)
    requires |items| == |elements| > 0
    ensures EachConforms(items, elements, co) <==>
      Conforms(items[0], elements[0], co) && EachConforms(items[1..], elements[1..], co)
  {
    var rest, others := items[1..], elements[1..];
    assert forall i :: 0 < i < |items| ==> items[i] == rest[i - 1] && elements[i] == others[i - 1];
    assert forall i :: 0 <= i < |rest| ==> rest[i] == items[i + 1] && others[i] == elements[i + 1];
  }

  lemma ElementWrongFromFirst(
      fast: bool, items: seq<Json>, elements: seq<Ty>, path: Path, from: nat, co: Coercion, e: Error)
    requires |items| == |elements| > 0
    ensures ElementWrong(fast, items, elements, path, from, co, e) <==>
      || Wrong(fast, items[0], elements[0], path + [Index(from)], co, e)
      || ElementWrong(fast, items[1..], elements[1..], path, from + 1, co, e)
  {
    var rest, others := items[1..], elements[1..];
    assert forall i :: 0 < i < |items| ==>
      items[i] == rest[i - 1] && elements[i] == others[i - 1] && Index(from + i) == Index(from + 1 + (i - 1));
    assert forall i :: 0 <= i < |rest| ==>
      rest[i] == items[i + 1] && others[i] == elements[i + 1] && Index(from + 1 + i) == Index(from + (i + 1));
    assert Index(from + 0) == Index(from);
  }

  lemma EntriesFromFirst(members: seq<Member>, t: Ty, co: Coercion)
    requires t.TDict? && members != []
    ensures EntriesConform(members, t, co) <==>
      && Conforms(JStr(members[0].key), t.key, co) && Conforms(members[0].value, t.value, co)
      && EntriesConform(members[1..], t, co)
  {
    var rest := members[1..];
    assert forall i :: 0 < i < |members| ==> members[i] == rest[i - 1];
    assert forall i :: 0 <= i < |rest| ==> rest[i] == members[i + 1];
  }

  lemma EntryWrongFromFirst(fast: bool, members: seq<Member>, t: Ty, path: Path, co: Coercion, e: Error)
    requires t.TDict? && members != []
    ensures EntryWrong(fast, members, t, path, co, e) <==>
      || Wrong(fast, JStr(members[0].key), t.key, path + [KeyItself(members[0].key)], co, e)
      || Wrong(fast, members[0].value, t.value, path + [Key(members[0].key)], co, e)
      || EntryWrong(fast, members[1..], t, path, co, e)
  {
    var rest := members[1..];
    assert forall i :: 0 < i < |members| ==> members[i] == rest[i - 1];
    assert forall i :: 0 <= i < |rest| ==> rest[i] == members[i + 1];
  }

  lemma FieldsFromFirst(members: seq<Member>, fields: seq<Field>, co: Coercion)
    requires members != []
    ensures FieldsConform(members, fields, co) <==>
      && (var k := FieldIndex(fields, members[0].key);
          k.Some? ==> Conforms(members[0].value, fields[k.value].ty, co))
      && FieldsConform(members[1..], fields, co)
  {
    var rest := members[1..];
    FieldFound(fields, members[0].key);
    assert forall i :: 0 < i < |members| ==> members[i] == rest[i - 1];
    assert forall i :: 0 <= i < |rest| ==> rest[i] == members[i + 1];
  }

  lemma FieldWrongFromFirst(fast: bool, members: seq<Member>, fields: seq<Field>, path: Path, co: Coercion, e: Error)
    requires members != []
    ensures FieldWrong(fast, members, fields, path, co, e) <==>
      || (var k := FieldIndex(fields, members[0].key);
          k.Some? && Wrong(fast, members[0].value, fields[k.value].ty, path + [Key(members[0].key)], co, e))
      || FieldWrong(fast, members[1..], fields, path, co, e)
  {
    var rest := members[1..];
    FieldFound(fields, members[0].key);
    assert forall i :: 0 < i < |members| ==> members[i] == rest[i - 1];
    assert forall i :: 0 <= i < |rest| ==> rest[i] == members[i + 1];
  }

  /** The members missing are the required fields that the object lacks, each under its own path. */
  lemma {:induction false} MissingAreLacking(members: seq<Member>, fields: seq<Field>, path: Path)
    ensures forall e :: e in MissingErrors(members, fields, path) <==> FieldMissing(members, fields, path, e)
    ensures MissingErrors(members, fields, path) == [] <==> HasRequired(members, fields)
  {
    if fields != [] {
      var rest := fields[1..];
      MissingAreLacking(members, rest, path);
      assert forall f :: 0 <= f < |rest| ==> rest[f] == fields[f + 1];
      assert forall f :: 0 < f < |fields| ==> fields[f] == rest[f - 1];
      assert Lacks(members, fields[0]) <==> fields[0].required && MemberIndex(members, fields[0].name).None?;
    }
  }

  // ------------------------------------------------------------------------
  // The walk
  // ------------------------------------------------------------------------

  /** The walk accepts what conforms, hands on its reading, and reports what is wrong and nothing else. */
  ghost predicate Faithful(fast: bool, v: Json, t: Ty, path: Path, co: Coercion)
  {
    var r := Validate(fast, v, t, path, co);
    && r.Done?
    && (r.errors == [] <==> Conforms(v, t, co))
    && (Conforms(v, t, co) ==> r.value == Reading(v, t, co))
    && (forall e :: e in r.errors <==> Wrong(fast, v, t, path, co, e))
  }

  lemma NumberFaithful(fast: bool, v: Json, t: Ty, path: Path, co: Coercion)
    requires t.TInt? || t.TFloat?
    ensures Faithful(fast, v, t, path, co)
  {
  }

  lemma LeafFaithful(fast: bool, v: Json, t: Ty, path: Path, co: Coercion)
    requires t.TAny? || t.TNone? || t.TBool? || t.TStr? || t.TBytes?
    ensures Faithful(fast, v, t, path, co)
  {
  }

  lemma LiteralFaithful(fast: bool, v: Json, t: Ty, path: Path, co: Coercion)
    requires t.TLiteral?
    ensures Faithful(fast, v, t, path, co)
  {
    LiteralsAlike(v, t.args);
  }

  ghost predicate EachOk(fast: bool, v: Json, items: seq<Json>, item: Ty, path: Path, from: nat, co: Coercion)
    requires from <= |items|
  {
    var r := Each(fast, v, items[from..], item, path, from, co);
    && r.Done? && r.value == v
    && (r.errors == [] <==> AllConform(items[from..], item, co))
    && (forall e :: e in r.errors <==> ItemWrong(fast, items, item, path, from, co, e))
  }

  lemma EachStep(fast: bool, v: Json, items: seq<Json>, item: Ty, path: Path, from: nat, co: Coercion)
    requires from < |items| && Faithful(fast, items[from], item, path + [Index(from)], co)
    requires EachOk(fast, v, items, item, path, from + 1, co)
    ensures EachOk(fast, v, items, item, path, from, co)
  {
    var left := items[from..];
    assert left[0] == items[from] && left[1..] == items[from + 1..];
    ItemsFromFirst(left, item, co);
    var first := Validate(fast, items[from], item, path + [Index(from)], co).errors;
    var rest := Each(fast, v, items[from + 1..], item, path, from + 1, co).errors;
    assert Each(fast, v, left, item, path, from, co) == Done(v, first + rest);
    ItemErrors(fast, items, item, path, from, co, first, rest);
  }

  lemma ItemErrors(
      fast: bool, items: seq<Json>, item: Ty, path: Path, from: nat, co: Coercion, first: seq<Error>, rest: seq<Error>)
    requires from < |items|
    requires forall e :: e in first <==> Wrong(fast, items[from], item, path + [Index(from)], co, e)
    requires forall e :: e in rest <==> ItemWrong(fast, items, item, path, from + 1, co, e)
    ensures forall e :: e in first + rest <==> ItemWrong(fast, items, item, path, from, co, e)
  {
    forall e
      ensures e in first + rest <==> ItemWrong(fast, items, item, path, from, co, e)
    {
      ItemWrongFrom(fast, items, item, path, from, co, e);
    }
  }

  lemma {:induction false} EachFaithful(
      fast: bool, v: Json, items: seq<Json>, item: Ty, path: Path, from: nat, co: Coercion)
    requires Checkable(item) && from <= |items|
    requires fast ==> forall i :: 0 <= i < |items| ==> ToldApart(item, items[i])
    ensures EachOk(fast, v, items, item, path, from, co)
    decreases item, 4, |items| - from
  {
    if from == |items| {
      EachEnds(fast, v, items, item, path, co);
    } else {
      AcceptsExactlyConforming(fast, items[from], item, path + [Index(from)], co);
      EachFaithful(fast, v, items, item, path, from + 1, co);
      EachStep(fast, v, items, item, path, from, co);
    }
  }

  lemma EachEnds(fast: bool, v: Json, items: seq<Json>, item: Ty, path: Path, co: Coercion)
    ensures EachOk(fast, v, items, item, path, |items|, co)
  {
    assert items[|items|..] == [];
  }

  lemma {:induction false} ItemsFaithful(fast: bool, v: Json, t: Ty, path: Path, co: Coercion)
    requires (t.TList? || t.TSet? || t.TTupleOf?) && Checkable(t) && (fast ==> ToldApart(t, v))
    ensures Faithful(fast, v, t, path, co)
    decreases t, 1
  {
    if v.JList? {
      EachFaithful(fast, v, v.items, t.item, path, 0, co);
      assert v.items[0..] == v.items;
    }
  }

  ghost predicate ElementsOk(
      fast: bool, v: Json, items: seq<Json>, elements: seq<Ty>, path: Path, from: nat, co: Coercion)
    requires |items| == |elements|
  {
    var r := Elements(fast, v, items, elements, path, from, co);
    && r.Done? && r.value == v
    && (r.errors == [] <==> EachConforms(items, elements, co))
    && (forall e :: e in r.errors <==> ElementWrong(fast, items, elements, path, from, co, e))
  }

  lemma ElementsStep(
      fast: bool, v: Json, items: seq<Json>, elements: seq<Ty>, path: Path, from: nat, co: Coercion)
    requires |items| == |elements| > 0
    requires Faithful(fast, items[0], elements[0], path + [Index(from)], co)
    requires ElementsOk(fast, v, items[1..], elements[1..], path, from + 1, co)
    ensures ElementsOk(fast, v, items, elements, path, from, co)
  {
    ElementsFromFirst(items, elements, co);
    var first := Validate(fast, items[0], elements[0], path + [Index(from)], co).errors;
    var rest := Elements(fast, v, items[1..], elements[1..], path, from + 1, co).errors;
    assert Elements(fast, v, items, elements, path, from, co) == Done(v, first + rest);
    ElementErrors(fast, items, elements, path, from, co, first, rest);
  }

  lemma ElementErrors(
      fast: bool, items: seq<Json>, elements: seq<Ty>, path: Path, from: nat, co: Coercion,
      first: seq<Error>, rest: seq<Error>)
    requires |items| == |elements| > 0
    requires forall e :: e in first <==> Wrong(fast, items[0], elements[0], path + [Index(from)], co, e)
    requires forall e :: e in rest <==> ElementWrong(fast, items[1..], elements[1..], path, from + 1, co, e)
    ensures forall e :: e in first + rest <==> ElementWrong(fast, items, elements, path, from, co, e)
  {
    forall e
      ensures e in first + rest <==> ElementWrong(fast, items, elements, path, from, co, e)
    {
      ElementWrongFromFirst(fast, items, elements, path, from, co, e);
    }
  }

  lemma {:induction false} ElementsFaithful(
      fast: bool, v: Json, items: seq<Json>, elements: seq<Ty>, path: Path, from: nat, co: Coercion)
    requires |items| == |elements| && forall i :: 0 <= i < |elements| ==> Checkable(elements[i])
    requires fast ==> forall i :: 0 <= i < |items| ==> ToldApart(elements[i], items[i])
    ensures ElementsOk(fast, v, items, elements, path, from, co)
    decreases elements, 1, 0
  {
    if items != [] {
      var rest, others := items[1..], elements[1..];
      assert forall i :: 0 <= i < |rest| ==> rest[i] == items[i + 1] && others[i] == elements[i + 1];
      AcceptsExactlyConforming(fast, items[0], elements[0], path + [Index(from)], co);
      ElementsFaithful(fast, v, rest, others, path, from + 1, co);
      ElementsStep(fast, v, items, elements, path, from, co);
    }
  }

  lemma {:induction false} TupleFaithful(fast: bool, v: Json, t: Ty, path: Path, co: Coercion)
    requires t.TTuple? && Checkable(t) && (fast ==> ToldApart(t, v))
    ensures Faithful(fast, v, t, path, co)
    decreases t, 1
  {
    if v.JList? && t.elements != [] && |v.items| == |t.elements| {
      ElementsFaithful(fast, v, v.items, t.elements, path, 0, co);
    }
  }

  ghost predicate EntriesOk(fast: bool, v: Json, members: seq<Member>, t: Ty, path: Path, co: Coercion)
    requires t.TDict?
  {
    var r := Entries(fast, v, members, t, path, co);
    && r.Done? && r.value == v
    && (r.errors == [] <==> EntriesConform(members, t, co))
    && (forall e :: e in r.errors <==> EntryWrong(fast, members, t, path, co, e))
  }

  lemma EntriesStep(fast: bool, v: Json, members: seq<Member>, t: Ty, path: Path, co: Coercion)
    requires t.TDict? && members != [] && EntriesOk(fast, v, members[1..], t, path, co)
    requires Faithful(fast, JStr(members[0].key), t.key, path + [KeyItself(members[0].key)], co)
    requires Faithful(fast, members[0].value, t.value, path + [Key(members[0].key)], co)
    ensures EntriesOk(fast, v, members, t, path, co)
  {
    var m := members[0];
    EntriesFromFirst(members, t, co);
    var key := Validate(fast, JStr(m.key), t.key, path + [KeyItself(m.key)], co);
    var value := Validate(fast, m.value, t.value, path + [Key(m.key)], co);
    var rest := Entries(fast, v, members[1..], t, path, co);
    assert Entries(fast, v, members, t, path, co) == Done(v, key.errors + value.errors + rest.errors);
    forall e
      ensures e in key.errors + value.errors + rest.errors <==> EntryWrong(fast, members, t, path, co, e)
    {
      EntryWrongFromFirst(fast, members, t, path, co, e);
    }
  }

  lemma {:induction false} EntriesFaithful(
      fast: bool, v: Json, members: seq<Member>, t: Ty, path: Path, co: Coercion)
    requires t.TDict? && Checkable(t)
    requires fast ==> forall m :: 0 <= m < |members| ==>
      ToldApart(t.key, JStr(members[m].key)) && ToldApart(t.value, members[m].value)
    ensures EntriesOk(fast, v, members, t, path, co)
    decreases t, 0, |members|
  {
    if members != [] {
      var m, rest := members[0], members[1..];
      assert forall i :: 0 <= i < |rest| ==> rest[i] == members[i + 1];
      AcceptsExactlyConforming(fast, JStr(m.key), t.key, path + [KeyItself(m.key)], co);
      AcceptsExactlyConforming(fast, m.value, t.value, path + [Key(m.key)], co);
      EntriesFaithful(fast, v, rest, t, path, co);
      EntriesStep(fast, v, members, t, path, co);
    }
  }

  lemma {:induction false} DictFaithful(fast: bool, v: Json, t: Ty, path: Path, co: Coercion)
    requires t.TDict? && Checkable(t) && (fast ==> ToldApart(t, v))
    ensures Faithful(fast, v, t, path, co)
    decreases t, 1
  {
    if v.JObj? {
      EntriesFaithful(fast, v, v.members, t, path, co);
    }
  }

  ghost predicate MembersOk(fast: bool, v: Json, members: seq<Member>, fields: seq<Field>, path: Path, co: Coercion)
  {
    var r := Members(fast, v, members, fields, path, co);
    && r.Done?
    && (r.errors == [] <==> FieldsConform(members, fields, co))
    && (forall e :: e in r.errors <==> FieldWrong(fast, members, fields, path, co, e))
  }

  lemma MembersStep(fast: bool, v: Json, members: seq<Member>, fields: seq<Field>, path: Path, co: Coercion)
    requires members != [] && MembersOk(fast, v, members[1..], fields, path, co)
    requires
      var k := FieldIndex(fields, members[0].key);
      k.Some? ==> Faithful(fast, members[0].value, fields[k.value].ty, path + [Key(members[0].key)], co)
    ensures MembersOk(fast, v, members, fields, path, co)
  {
    var m, k := members[0], FieldIndex(fields, members[0].key);
    FieldsFromFirst(members, fields, co);
    var rest := Members(fast, v, members[1..], fields, path, co).errors;
    var own := if k.Some? then Validate(fast, m.value, fields[k.value].ty, path + [Key(m.key)], co).errors else [];
    assert Members(fast, v, members, fields, path, co).errors == own + rest;
    MemberErrors(fast, members, fields, path, co, own, rest);
  }

  lemma MemberErrors(
      fast: bool, members: seq<Member>, fields: seq<Field>, path: Path, co: Coercion, own: seq<Error>, rest: seq<Error>)
    requires members != []
    requires
      var m, k := members[0], FieldIndex(fields, members[0].key);
      forall e :: e in own <==> k.Some? && Wrong(fast, m.value, fields[k.value].ty, path + [Key(m.key)], co, e)
    requires forall e :: e in rest <==> FieldWrong(fast, members[1..], fields, path, co, e)
    ensures forall e :: e in own + rest <==> FieldWrong(fast, members, fields, path, co, e)
  {
    forall e
      ensures e in own + rest <==> FieldWrong(fast, members, fields, path, co, e)
    {
      FieldWrongFromFirst(fast, members, fields, path, co, e);
    }
  }

  lemma {:induction false} MembersFaithful(
      fast: bool, v: Json, members: seq<Member>, fields: seq<Field>, path: Path, co: Coercion)
    requires forall f :: 0 <= f < |fields| ==> Checkable(fields[f].ty)
    requires fast ==> forall m :: 0 <= m < |members| ==>
      var k := FieldIndex(fields, members[m].key);
      k.Some? ==> ToldApart(fields[k.value].ty, members[m].value)
    ensures MembersOk(fast, v, members, fields, path, co)
    decreases fields, 1, |members|
  {
    if members != [] {
      var m, rest := members[0], members[1..];
      assert forall i :: 0 <= i < |rest| ==> rest[i] == members[i + 1];
      MembersFaithful(fast, v, rest, fields, path, co);
      var k := FieldIndex(fields, m.key);
      if k.Some? {
        AcceptsExactlyConforming(fast, m.value, fields[k.value].ty, path + [Key(m.key)], co);
      }
      MembersStep(fast, v, members, fields, path, co);
    }
  }

  lemma {:induction false} StructFaithful(fast: bool, v: Json, t: Ty, path: Path, co: Coercion)
    requires t.TStruct? && Checkable(t) && (fast ==> ToldApart(t, v))
    ensures Faithful(fast, v, t, path, co)
    decreases t, 1
  {
    if v.JObj? {
      MissingAreLacking(v.members, t.fields, path);
      MembersFaithful(fast, v, v.members, t.fields, path, co);
    }
  }

  // Unions

  lemma SomeFromFirst(v: Json, variants: seq<Ty>, co: Coercion)
    requires variants != []
    ensures ConformsToSome(v, variants, co) <==> Conforms(v, variants[0], co) || ConformsToSome(v, variants[1..], co)
  {
    var rest := variants[1..];
    assert forall i :: 0 <= i < |rest| ==> rest[i] == variants[i + 1];
    assert forall i :: 0 < i < |variants| ==> variants[i] == rest[i - 1];
  }

  lemma {:induction false} FirstFitFaithful(fast: bool, v: Json, variants: seq<Ty>, path: Path, co: Coercion)
    requires forall i :: 0 <= i < |variants| ==> Checkable(variants[i])
    requires fast ==> forall i :: 0 <= i < |variants| ==> ToldApart(variants[i], v)
    ensures FirstFit(fast, v, variants, path, co) ==
      if ConformsToSome(v, variants, co) then Done(FirstReading(v, variants, co), [])
      else Done(v, [Error(path, NoVariant)])
    decreases variants, 1
  {
    if variants != [] {
      var rest := variants[1..];
      assert forall i :: 0 <= i < |rest| ==> rest[i] == variants[i + 1];
      AcceptsExactlyConforming(fast, v, variants[0], path, co);
      FirstFitFaithful(fast, v, rest, path, co);
      SomeFromFirst(v, variants, co);
    }
  }

  lemma {:induction false} FirstReadingAt(v: Json, variants: seq<Ty>, co: Coercion, k: nat)
    requires k < |variants| && Conforms(v, variants[k], co)
    requires forall j :: 0 <= j < k ==> !Conforms(v, variants[j], co)
    ensures FirstReading(v, variants, co) == Reading(v, variants[k], co)
  {
    if k > 0 {
      assert forall j :: 0 <= j < k - 1 ==> variants[1..][j] == variants[j + 1];
      FirstReadingAt(v, variants[1..], co, k - 1);
    }
  }

  lemma {:induction false} ChosenFaithful(v: Json, t: Ty, path: Path, co: Coercion, k: nat)
    requires t.TUnion? && Checkable(t) && ToldApart(t, v) && !v.JNull?
    requires k < |t.variants| && Chosen(v, t.variants) == Some(k)
    ensures Faithful(true, v, t, path, co)
    decreases t, 1
  {
    AcceptsExactlyConforming(true, v, t.variants[k], path, co);
    forall j | 0 <= j < |t.variants| && j != k
      ensures !Conforms(v, t.variants[j], co)
    {
      RuledOutRejects(false, v, t.variants, path, co, j);
      AcceptsExactlyConforming(false, v, t.variants[j], path, co);
    }
    if Conforms(v, t.variants[k], co) {
      FirstReadingAt(v, t.variants, co, k);
    }
  }

  lemma {:induction false} UnionFaithful(fast: bool, v: Json, t: Ty, path: Path, co: Coercion)
    requires t.TUnion? && Checkable(t) && (fast ==> ToldApart(t, v))
    ensures Faithful(fast, v, t, path, co)
    decreases t, 2
  {
    if !v.JNull? {
      var chosen := Chosen(v, t.variants);
      if fast && chosen.Some? && chosen.value < |t.variants| {
        ChosenFaithful(v, t, path, co, chosen.value);
      } else {
        FirstFitFaithful(fast, v, t.variants, path, co);
      }
    }
  }

  // Constraints

  lemma {:induction false} ChecksFaithful(v: Json, cs: seq<Constraint>, path: Path)
    requires forall i :: 0 <= i < |cs| ==> Check(cs[i], v).Some?
    ensures
      var r := CheckAll(v, cs, path);
      && r.Done? && r.value == v
      && (r.errors == [] <==> MeetsAll(v, cs))
      && (forall e :: e in r.errors <==> Breaks(v, cs, path, e))
  {
    if cs != [] {
      var rest := cs[1..];
      assert forall i :: 0 <= i < |rest| ==> rest[i] == cs[i + 1];
      ChecksMeeting(cs[0], v);
      ChecksFaithful(v, rest, path);
      MeetsFromFirst(v, cs);
      forall e
        ensures e in CheckAll(v, cs, path).errors <==> Breaks(v, cs, path, e)
      {
        BreaksFromFirst(v, cs, path, e);
      }
    }
  }

  /** The constraint can be compared with the value at all. */
  ghost predicate Comparable(v: Json, c: Constraint)
  {
    if c.MinLen? || c.MaxLen? then exists n: nat :: HasSize(v, n) else exists x :: IsNumber(v, x)
  }

  lemma ComparableChecks(v: Json, c: Constraint)
    ensures Comparable(v, c) <==> Check(c, v).Some?
  {
    if Check(c, v).Some? {
      if c.MinLen? || c.MaxLen? {
        assert HasSize(v, SizeOf(v).value);
      } else {
        assert IsNumber(v, NumberOf(v).value);
      }
    }
  }

  /** The TypeError escapes if and only if some constraint cannot be compared with the value. */
  lemma {:induction false} ChecksRaise(v: Json, cs: seq<Constraint>, path: Path)
    ensures CheckAll(v, cs, path).Raised? <==> exists i :: 0 <= i < |cs| && !Comparable(v, cs[i])
  {
    if cs != [] {
      var rest := cs[1..];
      ComparableChecks(v, cs[0]);
      ChecksRaise(v, rest, path);
      assert forall i :: 0 <= i < |rest| ==> rest[i] == cs[i + 1];
      assert forall i :: 0 < i < |cs| ==> cs[i] == rest[i - 1];
    }
  }

  lemma MeetsFromFirst(v: Json, cs: seq<Constraint>)
    requires cs != []
    ensures MeetsAll(v, cs) <==> Meets(v, cs[0]) && MeetsAll(v, cs[1..])
  {
    assert forall i :: 0 < i < |cs| ==> cs[i] == cs[1..][i - 1];
    assert forall i :: 0 <= i < |cs[1..]| ==> cs[1..][i] == cs[i + 1];
  }

  lemma BreaksFromFirst(v: Json, cs: seq<Constraint>, path: Path, e: Error)
    requires cs != []
    ensures Breaks(v, cs, path, e) <==>
      (!Meets(v, cs[0]) && e == Error(path, Violates(cs[0]))) || Breaks(v, cs[1..], path, e)
  {
    assert forall i :: 0 < i < |cs| ==> cs[i] == cs[1..][i - 1];
    assert forall i :: 0 <= i < |cs[1..]| ==> cs[1..][i] == cs[i + 1];
  }

  lemma {:induction false} AnnotatedFaithful(fast: bool, v: Json, t: Ty, path: Path, co: Coercion)
    requires t.TAnnotated? && Checkable(t) && (fast ==> ToldApart(t, v))
    ensures Faithful(fast, v, t, path, co)
    decreases t, 1
  {
    AcceptsExactlyConforming(fast, v, t.base, path, co);
    if Conforms(v, t.base, co) {
      var w := Reading(v, t.base, co);
      forall i | 0 <= i < |t.constraints|
        ensures Check(t.constraints[i], w).Some?
      {
        AcceptedFits(fast, v, t.base, path, co, t.constraints[i]);
      }
      ChecksFaithful(w, t.constraints, path);
    }
  }

  /**
   Soundness and completeness: on every type whose constraints fit, with coercion
   or without, trying all variants accepts exactly the values that conform to the
   type, and so does dispatching by the table where the value tells the variants
   apart. What is accepted is handed on as read, and the errors reported for the
   others are exactly what is wrong with them.
   */
  lemma {:induction false} AcceptsExactlyConforming(fast: bool, v: Json, t: Ty, path: Path, co: Coercion)
    requires Checkable(t) && (fast ==> ToldApart(t, v))
    ensures Faithful(fast, v, t, path, co)
    decreases t, 3
  {
    match t
    case TInt => NumberFaithful(fast, v, t, path, co);
    case TFloat => NumberFaithful(fast, v, t, path, co);
    case TLiteral(_) => LiteralFaithful(fast, v, t, path, co);
    case TList(_) => ItemsFaithful(fast, v, t, path, co);
    case TSet(_) => ItemsFaithful(fast, v, t, path, co);
    case TTupleOf(_) => ItemsFaithful(fast, v, t, path, co);
    case TTuple(_) => TupleFaithful(fast, v, t, path, co);
    case TDict(_, _) => DictFaithful(fast, v, t, path, co);
    case TStruct(_, _) => StructFaithful(fast, v, t, path, co);
    case TUnion(_, _) => UnionFaithful(fast, v, t, path, co);
    case TAnnotated(_, _) => AnnotatedFaithful(fast, v, t, path, co);
    case _ => LeafFaithful(fast, v, t, path, co);
  }
}
