/**
 The runtime validator: a recursive walk over a type annotation that collects
 errors, with a fast path for unions that a literal field discriminates.
 Callback validators and regular expressions are not part of the types here.
 */
module Validation {
  import opened Common

  // ------------------------------------------------------------------------
  // Values and types
  // ------------------------------------------------------------------------

  /** A decoded JSON value; the members of an object have different keys. */
  datatype Json =
    | JNull
    | JBool(b: bool)
    | JInt(i: int)
    | JFloat(r: real)
    | JStr(s: string)
    | JList(items: seq<Json>)
    | JObj(members: seq<Member>)

  datatype Member = Member(key: string, value: Json)

  datatype Literal = LStr(s: string) | LInt(i: int) | LBool(b: bool) | LNone

  /** What Python's `==` and `hash` see of a scalar: true is 1 and 1.0 is 1. */
  datatype Hashed = HStr(s: string) | HNumber(r: real) | HNone

  function HashOfLiteral(l: Literal): Hashed
  {
    match l
    case LStr(s) => HStr(s)
    case LInt(i) => HNumber(i as real)
    case LBool(b) => HNumber(if b then 1.0 else 0.0)
    case LNone => HNone
  }

  /** None for lists and dicts, which cannot be hashed and equal no literal. */
  function HashOf(v: Json): Option<Hashed>
  {
    match v
    case JNull => Some(HNone)
    case JBool(b) => Some(HNumber(if b then 1.0 else 0.0))
    case JInt(i) => Some(HNumber(i as real))
    case JFloat(r) => Some(HNumber(r))
    case JStr(s) => Some(HStr(s))
    case JList(_) => None
    case JObj(_) => None
  }

  /** `value in args`. */
  predicate InLiterals(v: Json, args: seq<Literal>)
  {
    exists i :: 0 <= i < |args| && HashOf(v) == Some(HashOfLiteral(args[i]))
  }

  datatype Constraint =
    | Gt(bound: real)
    | Ge(bound: real)
    | Lt(bound: real)
    | Le(bound: real)
    | MinLen(size: int)
    | MaxLen(size: int)

  /** A field of a TypedDict or dataclass. */
  datatype Field = Field(name: string, ty: Ty, required: bool)

  /** A union keeps its None member apart from its variants. */
  datatype Ty =
    | TAny
    | TNone
    | TBool
    | TInt
    | TFloat
    | TStr
    | TBytes
    | TLiteral(args: seq<Literal>)
    | TList(item: Ty)
    | TSet(item: Ty)
    | TDict(key: Ty, value: Ty)
    | TTuple(elements: seq<Ty>)
    | TTupleOf(item: Ty)
    | TStruct(typedDict: bool, fields: seq<Field>)
    | TUnion(variants: seq<Ty>, optional: bool)
    | TAnnotated(base: Ty, constraints: seq<Constraint>)

  datatype Segment = Key(name: string) | Index(i: nat) | KeyItself(name: string)

  type Path = seq<Segment>

  datatype Problem =
    | WrongType
    | Missing
    | NotInLiteral
    | WrongLength
    | NoVariant
    | Violates(constraint: Constraint)

  datatype Error = Error(path: Path, problem: Problem)

  /** Text to number conversions of Python, used when coercion is asked for. */
  datatype Coercion = Coercion(asked: bool, toInt: string -> Option<int>, toFloat: string -> Option<real>)

  /** The value returned and the errors appended, or a TypeError out of a constraint. */
  datatype Verdict = Done(value: Json, errors: seq<Error>) | Raised

  predicate Accepted(r: Verdict)
  {
    r.Done? && r.errors == []
  }

  // ------------------------------------------------------------------------
  // Pieces
  // ------------------------------------------------------------------------

  function NumberOf(v: Json): Option<real>
  {
    match v
    case JBool(b) => Some(if b then 1.0 else 0.0)
    case JInt(i) => Some(i as real)
    case JFloat(r) => Some(r)
    case _ => None
  }

  function SizeOf(v: Json): Option<nat>
  {
    match v
    case JStr(s) => Some(|s|)
    case JList(items) => Some(|items|)
    case JObj(members) => Some(|members|)
    case _ => None
  }

  /** `constraint.check(value)`; None is the TypeError of comparing or measuring an unfit value. */
  function Check(c: Constraint, v: Json): Option<bool>
  {
    match c
    case MinLen(n) => (match SizeOf(v) case None => None case Some(size) => Some(size >= n))
    case MaxLen(n) => (match SizeOf(v) case None => None case Some(size) => Some(size <= n))
    case _ =>
      match NumberOf(v)
      case None => None
      case Some(x) =>
        Some(match c
             case Gt(b) => x > b
             case Ge(b) => x >= b
             case Lt(b) => x < b
             case _ => x <= c.bound)
  }

  function CheckAll(v: Json, cs: seq<Constraint>, path: Path): Verdict
  {
    if cs == [] then Done(v, []) else
    match Check(cs[0], v)
    case None => Raised
    case Some(holds) =>
      match CheckAll(v, cs[1..], path)
      case Raised => Raised
      case Done(_, errors) => Done(v, (if holds then [] else [Error(path, Violates(cs[0]))]) + errors)
  }

  lemma CheckAllReturns(v: Json, cs: seq<Constraint>, path: Path)
    ensures CheckAll(v, cs, path).Done? ==> CheckAll(v, cs, path).value == v
  {
  }

  /** The first of `xs` that goes by the name `name`. */
  function IndexOf<T>(xs: seq<T>, nameOf: T -> string, name: string): (i: Option<nat>)
    ensures i.Some? ==> i.value < |xs| && nameOf(xs[i.value]) == name
    ensures i.None? ==> forall k :: 0 <= k < |xs| ==> nameOf(xs[k]) != name
  {
    if xs == [] then None
    else if nameOf(xs[0]) == name then Some(0)
    else match IndexOf(xs[1..], nameOf, name)
      case None => None
      case Some(k) => Some(k + 1)
  }

  function FieldName(f: Field): string
  {
    f.name
  }

  function MemberKey(m: Member): string
  {
    m.key
  }

  function FieldIndex(fields: seq<Field>, name: string): (i: Option<nat>)
    ensures i.Some? ==> i.value < |fields| && fields[i.value].name == name
    ensures i.None? ==> forall k :: 0 <= k < |fields| ==> fields[k].name != name
  {
    var i := IndexOf(fields, FieldName, name);
    assert forall k :: 0 <= k < |fields| ==> FieldName(fields[k]) == fields[k].name;
    i
  }

  function MemberIndex(members: seq<Member>, key: string): (i: Option<nat>)
    ensures i.Some? ==> i.value < |members| && members[i.value].key == key
    ensures i.None? ==> forall k :: 0 <= k < |members| ==> members[k].key != key
  {
    var i := IndexOf(members, MemberKey, key);
    assert forall k :: 0 <= k < |members| ==> MemberKey(members[k]) == members[k].key;
    i
  }

  function MissingErrors(members: seq<Member>, fields: seq<Field>, path: Path): seq<Error>
  {
    if fields == [] then []
    else
      (if fields[0].required && MemberIndex(members, fields[0].name).None?
       then [Error(path + [Key(fields[0].name)], Missing)] else [])
      + MissingErrors(members, fields[1..], path)
  }

  // ------------------------------------------------------------------------
  // Discriminated unions
  // ------------------------------------------------------------------------

  function Unwrapped(t: Ty): Ty
  {
    if t.TAnnotated? then t.base else t
  }

  /** The literals of field `name`, if the type is a TypedDict with such a literal field. */
  function LiteralsOf(t: Ty, name: string): Option<seq<Literal>>
  {
    if !t.TStruct? || !t.typedDict then None
    else
      match FieldIndex(t.fields, name)
      case None => None
      case Some(i) =>
        var base := Unwrapped(t.fields[i].ty);
        if base.TLiteral? then Some(base.args) else None
  }

  function TypedDicts(variants: seq<Ty>): seq<Ty>
  {
    if variants == [] then []
    else (if variants[0].TStruct? && variants[0].typedDict then [variants[0]] else []) + TypedDicts(variants[1..])
  }

  predicate AllHaveLiteral(tds: seq<Ty>, name: string)
  {
    forall i :: 0 <= i < |tds| ==> LiteralsOf(tds[i], name).Some?
  }

  /** The first of `candidates` that is a literal field of every TypedDict. */
  function FirstShared(tds: seq<Ty>, candidates: seq<Field>): Option<string>
  {
    if candidates == [] then None
    else if Unwrapped(candidates[0].ty).TLiteral? && AllHaveLiteral(tds, candidates[0].name) then
      Some(candidates[0].name)
    else FirstShared(tds, candidates[1..])
  }

  /** `_find_discriminator`. */
  function FindDiscriminator(variants: seq<Ty>): Option<string>
  {
    var tds := TypedDicts(variants);
    if |tds| < 2 || !tds[0].TStruct? then None else FirstShared(tds, tds[0].fields)
  }

  function AddAll(table: map<Hashed, nat>, args: seq<Literal>, i: nat): map<Hashed, nat>
    decreases |args|
  {
    if args == [] then table else AddAll(table[HashOfLiteral(args[0]) := i], args[1..], i)
  }

  /** `_build_dispatch_table`: literal to the position of its variant; a later variant overrides. */
  function DispatchTable(name: string, variants: seq<Ty>): map<Hashed, nat>
  {
    if variants == [] then map[] else
    var i := |variants| - 1;
    var table := DispatchTable(name, variants[..i]);
    match LiteralsOf(variants[i], name)
    case None => table
    case Some(args) => AddAll(table, args, i)
  }

  /** The variant that the literal of the value's field `name` stands for. */
  function ChosenBy(v: Json, variants: seq<Ty>, name: string): Option<nat>
  {
    if !v.JObj? then None else
    match MemberIndex(v.members, name)
    case None => None
    case Some(m) =>
      match HashOf(v.members[m].value)
      case None => None
      case Some(h) =>
        var table := DispatchTable(name, variants);
        if h in table && table[h] < |variants| then Some(table[h]) else None
  }

  /** `_try_discriminated`, up to the choice: the variant that the value's discriminator names. */
  function Chosen(v: Json, variants: seq<Ty>): Option<nat>
  {
    match FindDiscriminator(variants)
    case None => None
    case Some(name) => ChosenBy(v, variants, name)
  }

  // ------------------------------------------------------------------------
  // The walk
  // ------------------------------------------------------------------------

  /** What a scalar type makes of a value. */
  function Scalar(v: Json, t: Ty, path: Path, co: Coercion): Verdict
    requires t.TBool? || t.TInt? || t.TFloat? || t.TStr? || t.TBytes?
  {
    var wrong := Done(v, [Error(path, WrongType)]);
    match t
    case TBool => if v.JBool? then Done(v, []) else wrong
    case TInt =>
      if v.JInt? then Done(v, [])
      else if co.asked && v.JStr? && co.toInt(v.s).Some? then Done(JInt(co.toInt(v.s).value), [])
      else wrong
    case TFloat =>
      if v.JInt? || v.JFloat? then Done(v, [])
      else if co.asked && v.JStr? && co.toFloat(v.s).Some? then Done(JFloat(co.toFloat(v.s).value), [])
      else wrong
    case TStr => if v.JStr? then Done(v, []) else wrong
    case TBytes => wrong
  }

  /** `_validate`. With `fast` false, unions never consult their dispatch table. */
  function Validate(fast: bool, v: Json, t: Ty, path: Path, co: Coercion): Verdict
    decreases t, 2, 0
  {
    var wrong := Done(v, [Error(path, WrongType)]);
    match t
    case TAny => Done(v, [])
    case TNone => if v.JNull? then Done(v, []) else wrong
    case TLiteral(args) => if InLiterals(v, args) then Done(v, []) else Done(v, [Error(path, NotInLiteral)])
    case TList(item) => if v.JList? then Each(fast, v, v.items, item, path, 0, co) else wrong
    case TSet(item) => if v.JList? then Each(fast, v, v.items, item, path, 0, co) else wrong
    case TTupleOf(item) => if v.JList? then Each(fast, v, v.items, item, path, 0, co) else wrong
    case TTuple(elements) =>
      if !v.JList? then wrong
      else if elements == [] then Done(v, [])
      else if |v.items| != |elements| then Done(v, [Error(path, WrongLength)])
      else Elements(fast, v, v.items, elements, path, 0, co)
    case TDict(_, _) => if v.JObj? then Entries(fast, v, v.members, t, path, co) else wrong
    case TStruct(_, fields) =>
      if !v.JObj? then wrong else
      (match Members(fast, v, v.members, fields, path, co)
       case Raised => Raised
       case Done(_, errors) => Done(v, MissingErrors(v.members, fields, path) + errors))
    case TUnion(variants, optional) =>
      if v.JNull? then (if optional then Done(v, []) else wrong) else
      var chosen := Chosen(v, variants);
      if fast && chosen.Some? && chosen.value < |variants| then Validate(fast, v, variants[chosen.value], path, co)
      else FirstFit(fast, v, variants, path, co)
    case TAnnotated(base, constraints) =>
      (match Validate(fast, v, base, path, co)
       case Raised => Raised
       case Done(w, errors) => if errors == [] then CheckAll(w, constraints, path) else Done(w, errors))
    case _ => Scalar(v, t, path, co)
  }

  /** Results one after another: an exception ends the walk, errors add up. */
  function Then(v: Json, first: Verdict, rest: Verdict): Verdict
  {
    if first.Raised? || rest.Raised? then Raised else Done(v, first.errors + rest.errors)
  }

  /** The items of a list from position `from` on, all of one type. */
  function Each(fast: bool, v: Json, items: seq<Json>, item: Ty, path: Path, from: nat, co: Coercion): Verdict
    decreases item, 3, |items|
  {
    if items == [] then Done(v, [])
    else Then(v, Validate(fast, items[0], item, path + [Index(from)], co),
              Each(fast, v, items[1..], item, path, from + 1, co))
  }

  /** The items of a list against a tuple's types. */
  function Elements(
      fast: bool, v: Json, items: seq<Json>, elements: seq<Ty>, path: Path, from: nat, co: Coercion): Verdict
    requires |items| == |elements|
    decreases elements, 1, 0
  {
    if items == [] then Done(v, [])
    else Then(v, Validate(fast, items[0], elements[0], path + [Index(from)], co),
              Elements(fast, v, items[1..], elements[1..], path, from + 1, co))
  }

  /** The keys and values of a dict. */
  function Entries(fast: bool, v: Json, members: seq<Member>, t: Ty, path: Path, co: Coercion): Verdict
    requires t.TDict?
    decreases t, 1, |members|
  {
    if members == [] then Done(v, []) else
    var m := members[0];
    Then(v, Then(v, Validate(fast, JStr(m.key), t.key, path + [KeyItself(m.key)], co),
                 Validate(fast, m.value, t.value, path + [Key(m.key)], co)),
         Entries(fast, v, members[1..], t, path, co))
  }

  /** The members of an object that are fields; other members pass. */
  function Members(fast: bool, v: Json, members: seq<Member>, fields: seq<Field>, path: Path, co: Coercion): Verdict
    decreases fields, 1, |members|
  {
    if members == [] then Done(v, []) else
    var rest := Members(fast, v, members[1..], fields, path, co);
    match FieldIndex(fields, members[0].key)
    case None => rest
    case Some(i) =>
      Then(v, Validate(fast, members[0].value, fields[i].ty, path + [Key(members[0].key)], co), rest)
  }

  /** The first variant that accepts, or one error for all. */
  function FirstFit(fast: bool, v: Json, variants: seq<Ty>, path: Path, co: Coercion): Verdict
    decreases variants, 1, 0
  {
    if variants == [] then Done(v, [Error(path, NoVariant)]) else
    match Validate(fast, v, variants[0], path, co)
    case Raised => Raised
    case Done(w, errors) => if errors == [] then Done(w, []) else FirstFit(fast, v, variants[1..], path, co)
  }
}
