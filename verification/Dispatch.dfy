/**
 Why the validator may trust its dispatch table: what the table holds, when it
 chooses as trying every variant would, and that it never accepts more.
 */
module Dispatching {
  import opened Common
  import opened Validation

  // ------------------------------------------------------------------------
  // Types whose constraints fit
  // ------------------------------------------------------------------------

  /** Values of the type can be checked against the constraint without a TypeError. */
  predicate Supports(t: Ty, c: Constraint)
  {
    if c.MinLen? || c.MaxLen? then
      t.TStr? || t.TBytes? || t.TList? || t.TSet? || t.TTuple? || t.TTupleOf? || t.TDict? || t.TStruct?
    else t.TBool? || t.TInt? || t.TFloat? || t.TBytes?
  }

  predicate Checkable(t: Ty)
  {
    match t
    case TList(item) => Checkable(item)
    case TSet(item) => Checkable(item)
    case TTupleOf(item) => Checkable(item)
    case TTuple(elements) => forall i :: 0 <= i < |elements| ==> Checkable(elements[i])
    case TDict(k, v) => Checkable(k) && Checkable(v)
    case TStruct(_, fields) => forall i :: 0 <= i < |fields| ==> Checkable(fields[i].ty)
    case TUnion(variants, _) => forall i :: 0 <= i < |variants| ==> Checkable(variants[i])
    case TAnnotated(base, cs) =>
      Checkable(base) && forall i :: 0 <= i < |cs| ==> Supports(base, cs[i])
    case _ => true
  }

  // ------------------------------------------------------------------------
  // Unions of TypedDicts with disjoint literals
  // ------------------------------------------------------------------------

  predicate Contains(args: seq<Literal>, h: Hashed)
  {
    exists i :: 0 <= i < |args| && HashOfLiteral(args[i]) == h
  }

  /** The variant names `h` among the literals of its field `name`. */
  predicate Names(t: Ty, name: string, h: Hashed)
  {
    LiteralsOf(t, name).Some? && Contains(LiteralsOf(t, name).value, h)
  }

  ghost predicate Disjoint(variants: seq<Ty>, name: string)
  {
    forall i, j, h :: 0 <= i < j < |variants| && Names(variants[i], name, h) ==> !Names(variants[j], name, h)
  }

  /** Where a union has a discriminator, all its variants are TypedDicts and no literal names two of them. */
  ghost predicate Discriminable(t: Ty)
  {
    match t
    case TList(item) => Discriminable(item)
    case TSet(item) => Discriminable(item)
    case TTupleOf(item) => Discriminable(item)
    case TTuple(elements) => forall i :: 0 <= i < |elements| ==> Discriminable(elements[i])
    case TDict(k, v) => Discriminable(k) && Discriminable(v)
    case TStruct(_, fields) => forall i :: 0 <= i < |fields| ==> Discriminable(fields[i].ty)
    case TUnion(variants, _) =>
      && (forall i :: 0 <= i < |variants| ==> Discriminable(variants[i]))
      && (var d := FindDiscriminator(variants);
          d.Some? ==>
            && Disjoint(variants, d.value)
            && forall i :: 0 <= i < |variants| ==> LiteralsOf(variants[i], d.value).Some?)
    case TAnnotated(base, _) => Discriminable(base)
    case _ => true
  }

  /** The literal of the value's field `name`, as a table key. */
  function TagOf(v: Json, name: string): Option<Hashed>
    requires v.JObj? && MemberIndex(v.members, name).Some?
  {
    HashOf(v.members[MemberIndex(v.members, name).value].value)
  }

  /** The variant has a literal field `name`, and the value's literal is not among its literals. */
  predicate RuledOut(t: Ty, v: Json, name: string)
    requires v.JObj? && MemberIndex(v.members, name).Some? && TagOf(v, name).Some?
  {
    LiteralsOf(t, name).Some? && !Names(t, name, TagOf(v, name).value)
  }

  /**
   Whenever the walk over this value reaches a union whose table chooses a
   variant, the value's own literal rules out all the others. Overlapping
   literals that the value does not use, and variants that are not TypedDicts
   where the table chooses nothing, do no harm.
   */
  predicate ToldApart(t: Ty, v: Json)
    decreases t
  {
    match t
    case TList(item) => v.JList? ==> forall i :: 0 <= i < |v.items| ==> ToldApart(item, v.items[i])
    case TSet(item) => v.JList? ==> forall i :: 0 <= i < |v.items| ==> ToldApart(item, v.items[i])
    case TTupleOf(item) => v.JList? ==> forall i :: 0 <= i < |v.items| ==> ToldApart(item, v.items[i])
    case TTuple(elements) =>
      v.JList? ==> forall i :: 0 <= i < |v.items| && i < |elements| ==> ToldApart(elements[i], v.items[i])
    case TDict(key, value) =>
      v.JObj? ==> forall i :: 0 <= i < |v.members| ==>
        ToldApart(key, JStr(v.members[i].key)) && ToldApart(value, v.members[i].value)
    case TStruct(_, fields) =>
      v.JObj? ==> forall i :: 0 <= i < |v.members| ==>
        var k := FieldIndex(fields, v.members[i].key);
        k.Some? ==> ToldApart(fields[k.value].ty, v.members[i].value)
    case TUnion(variants, _) =>
      var chosen := Chosen(v, variants);
      if chosen.Some? && chosen.value < |variants| then
        && ToldApart(variants[chosen.value], v)
        && forall k :: 0 <= k < |variants| && k != chosen.value ==>
             RuledOut(variants[k], v, FindDiscriminator(variants).value)
      else forall k :: 0 <= k < |variants| ==> ToldApart(variants[k], v)
    case TAnnotated(base, _) => ToldApart(base, v)
    case _ => true
  }

  // ------------------------------------------------------------------------
  // The table
  // ------------------------------------------------------------------------

  lemma {:induction false} AddAllHolds(table: map<Hashed, nat>, args: seq<Literal>, i: nat, h: Hashed)
    ensures h in AddAll(table, args, i) <==> h in table || Contains(args, h)
    ensures Contains(args, h) ==> h in AddAll(table, args, i) && AddAll(table, args, i)[h] == i
    ensures !Contains(args, h) && h in table ==> AddAll(table, args, i)[h] == table[h]
    decreases |args|
  {
    if args != [] {
      AddAllHolds(table[HashOfLiteral(args[0]) := i], args[1..], i, h);
      assert Contains(args, h) <==> HashOfLiteral(args[0]) == h || Contains(args[1..], h) by {
        assert forall k :: 0 < k < |args| ==> args[k] == args[1..][k - 1];
        assert forall k :: 0 <= k < |args[1..]| ==> args[1..][k] == args[k + 1];
      }
    }
  }

  lemma {:induction false} TableNames(name: string, variants: seq<Ty>, h: Hashed)
    ensures h in DispatchTable(name, variants) ==>
      var i := DispatchTable(name, variants)[h];
      i < |variants| && Names(variants[i], name, h)
  {
    if variants != [] {
      var n := |variants| - 1;
      TableNames(name, variants[..n], h);
      if LiteralsOf(variants[n], name).Some? {
        AddAllHolds(DispatchTable(name, variants[..n]), LiteralsOf(variants[n], name).value, n, h);
      }
    }
  }

  lemma {:induction false} NamedInTable(name: string, variants: seq<Ty>, h: Hashed, i: nat)
    requires i < |variants| && Names(variants[i], name, h)
    ensures h in DispatchTable(name, variants) && DispatchTable(name, variants)[h] >= i
  {
    var n := |variants| - 1;
    if i < n {
      assert variants[..n][i] == variants[i];
      NamedInTable(name, variants[..n], h, i);
    }
    if LiteralsOf(variants[n], name).Some? {
      AddAllHolds(DispatchTable(name, variants[..n]), LiteralsOf(variants[n], name).value, n, h);
    }
  }

  /** The table holds a literal exactly when some variant names it, and then the last such variant. */
  lemma TableHoldsLastNamed(name: string, variants: seq<Ty>, h: Hashed)
    ensures h in DispatchTable(name, variants) <==> exists i :: 0 <= i < |variants| && Names(variants[i], name, h)
    ensures h in DispatchTable(name, variants) ==>
      var i := DispatchTable(name, variants)[h];
      i < |variants| && Names(variants[i], name, h) &&
      forall j :: i < j < |variants| ==> !Names(variants[j], name, h)
  {
    TableNames(name, variants, h);
    forall j | 0 <= j < |variants| && Names(variants[j], name, h)
      ensures h in DispatchTable(name, variants) && DispatchTable(name, variants)[h] >= j
    {
      NamedInTable(name, variants, h, j);
    }
  }

  /** The field is a literal in every TypedDict of the union. */
  predicate SharedLiteral(variants: seq<Ty>, field: Field)
  {
    && Unwrapped(field.ty).TLiteral?
    && forall i :: 0 <= i < |variants| && variants[i].TStruct? && variants[i].typedDict ==>
         LiteralsOf(variants[i], field.name).Some?
  }

  lemma {:induction false} TypedDictsAre(variants: seq<Ty>)
    ensures forall t :: t in TypedDicts(variants) <==> t in variants && t.TStruct? && t.typedDict
  {
    if variants != [] {
      TypedDictsAre(variants[1..]);
      assert variants == [variants[0]] + variants[1..];
    }
  }

  lemma AllHaveMeans(variants: seq<Ty>, field: Field)
    ensures Unwrapped(field.ty).TLiteral? && AllHaveLiteral(TypedDicts(variants), field.name) <==>
      SharedLiteral(variants, field)
  {
    TypedDictsAre(variants);
    var tds := TypedDicts(variants);
    if AllHaveLiteral(tds, field.name) {
      forall i | 0 <= i < |variants| && variants[i].TStruct? && variants[i].typedDict
        ensures LiteralsOf(variants[i], field.name).Some?
      {
        assert variants[i] in tds;
      }
    }
    if SharedLiteral(variants, field) {
      forall j | 0 <= j < |tds|
        ensures LiteralsOf(tds[j], field.name).Some?
      {
        assert tds[j] in variants;
        var i :| 0 <= i < |variants| && variants[i] == tds[j];
      }
    }
  }

  lemma {:induction false} FirstSharedIs(variants: seq<Ty>, fields: seq<Field>, k: nat)
    requires k < |fields| && SharedLiteral(variants, fields[k])
    requires forall j :: 0 <= j < k ==> !SharedLiteral(variants, fields[j])
    ensures FirstShared(TypedDicts(variants), fields) == Some(fields[k].name)
  {
    AllHaveMeans(variants, fields[0]);
    if k > 0 {
      assert forall j :: 0 <= j < k - 1 ==> fields[1..][j] == fields[j + 1];
      FirstSharedIs(variants, fields[1..], k - 1);
    }
  }

  lemma {:induction false} NoneShared(variants: seq<Ty>, fields: seq<Field>)
    requires forall j :: 0 <= j < |fields| ==> !SharedLiteral(variants, fields[j])
    ensures FirstShared(TypedDicts(variants), fields).None?
  {
    if fields != [] {
      AllHaveMeans(variants, fields[0]);
      assert forall j :: 0 <= j < |fields[1..]| ==> fields[1..][j] == fields[j + 1];
      NoneShared(variants, fields[1..]);
    }
  }

  /**
   The discriminator is the first field of the first TypedDict that is a literal
   in all TypedDicts of the union; there is none if no field is, or if there are
   fewer than two TypedDicts.
   */
  lemma DiscriminatorIsFirstShared(variants: seq<Ty>, k: nat)
    ensures |TypedDicts(variants)| < 2 ==> FindDiscriminator(variants).None?
    ensures |TypedDicts(variants)| >= 2 ==>
      && TypedDicts(variants)[0].TStruct?
      && (var fields := TypedDicts(variants)[0].fields;
          && (k < |fields| && SharedLiteral(variants, fields[k])
              && (forall j :: 0 <= j < k ==> !SharedLiteral(variants, fields[j]))
              ==> FindDiscriminator(variants) == Some(fields[k].name))
          && ((forall j :: 0 <= j < |fields| ==> !SharedLiteral(variants, fields[j])) ==>
                FindDiscriminator(variants).None?))
  {
    if |TypedDicts(variants)| >= 2 {
      TypedDictsAre(variants);
      assert TypedDicts(variants)[0] in TypedDicts(variants);
      var fields := TypedDicts(variants)[0].fields;
      if k < |fields| && SharedLiteral(variants, fields[k])
         && (forall j :: 0 <= j < k ==> !SharedLiteral(variants, fields[j])) {
        FirstSharedIs(variants, fields, k);
      }
      if forall j :: 0 <= j < |fields| ==> !SharedLiteral(variants, fields[j]) {
        NoneShared(variants, fields);
      }
    }
  }

  /** The table chooses the last variant that names the literal of the value's discriminator, and nothing else. */
  lemma ChoosesLastNamed(v: Json, variants: seq<Ty>, k: nat)
    ensures Chosen(v, variants) == Some(k) <==>
      && FindDiscriminator(variants).Some?
      && (var name := FindDiscriminator(variants).value;
          && v.JObj? && MemberIndex(v.members, name).Some? && TagOf(v, name).Some?
          && k < |variants| && Names(variants[k], name, TagOf(v, name).value)
          && forall j :: k < j < |variants| ==> !Names(variants[j], name, TagOf(v, name).value))
  {
    if FindDiscriminator(variants).Some? {
      var name := FindDiscriminator(variants).value;
      if v.JObj? && MemberIndex(v.members, name).Some? && TagOf(v, name).Some? {
        TableHoldsLastNamed(name, variants, TagOf(v, name).value);
      }
    }
  }

  // ------------------------------------------------------------------------
  // A variant whose literals do not name the value rejects it
  // ------------------------------------------------------------------------

  lemma {:induction false} MembersReject(
      fast: bool, v: Json, members: seq<Member>, fields: seq<Field>, path: Path, co: Coercion, m: nat)
    requires m < |members| && FieldIndex(fields, members[m].key).Some?
    requires
      var f := fields[FieldIndex(fields, members[m].key).value];
      !Accepted(Validate(fast, members[m].value, f.ty, path + [Key(members[m].key)], co))
    ensures !Accepted(Members(fast, v, members, fields, path, co))
    decreases |members|
  {
    if m > 0 {
      MembersReject(fast, v, members[1..], fields, path, co, m - 1);
    }
  }

  lemma UnnamedRejects(
      fast: bool, v: Json, t: Ty, path: Path, co: Coercion, name: string, m: nat, h: Hashed)
    requires v.JObj? && m < |v.members| && v.members[m].key == name && HashOf(v.members[m].value) == Some(h)
    requires LiteralsOf(t, name).Some? && !Names(t, name, h)
    ensures !Accepted(Validate(fast, v, t, path, co))
  {
    var i := FieldIndex(t.fields, name).value;
    var ty := t.fields[i].ty;
    var at := path + [Key(name)];
    var base := Unwrapped(ty);
    assert !InLiterals(v.members[m].value, base.args);
    assert !Accepted(Validate(fast, v.members[m].value, base, at, co));
    assert !Accepted(Validate(fast, v.members[m].value, ty, at, co));
    MembersReject(fast, v, v.members, t.fields, path, co, m);
  }

  /** A variant that the value's discriminator rules out rejects it, and so does its like at every depth. */
  lemma RuledOutRejects(fast: bool, v: Json, variants: seq<Ty>, path: Path, co: Coercion, k: nat)
    requires Chosen(v, variants).Some? && k < |variants|
    requires RuledOut(variants[k], v, FindDiscriminator(variants).value)
    ensures !Accepted(Validate(fast, v, variants[k], path, co))
  {
    var name := FindDiscriminator(variants).value;
    var m := MemberIndex(v.members, name).value;
    UnnamedRejects(fast, v, variants[k], path, co, name, m, HashOf(v.members[m].value).value);
  }

  /** With disjoint literals the value's discriminator rules out every variant but the one chosen. */
  lemma OnlyChosenIsLeft(v: Json, variants: seq<Ty>, k: nat)
    requires Chosen(v, variants).Some? && k < |variants| && Chosen(v, variants) != Some(k)
    requires
      var name := FindDiscriminator(variants).value;
      Disjoint(variants, name) && LiteralsOf(variants[k], name).Some?
    ensures RuledOut(variants[k], v, FindDiscriminator(variants).value)
  {
    var name := FindDiscriminator(variants).value;
    TableHoldsLastNamed(name, variants, TagOf(v, name).value);
  }

  /** The variant chosen is the only one that the value's discriminator leaves a chance. */
  lemma OnlyChosenCanAccept(fast: bool, v: Json, variants: seq<Ty>, path: Path, co: Coercion, k: nat)
    requires Chosen(v, variants).Some? && k < |variants| && Chosen(v, variants) != Some(k)
    requires
      var name := FindDiscriminator(variants).value;
      Disjoint(variants, name) && LiteralsOf(variants[k], name).Some?
    ensures !Accepted(Validate(fast, v, variants[k], path, co))
  {
    OnlyChosenIsLeft(v, variants, k);
    RuledOutRejects(fast, v, variants, path, co, k);
  }

  // ------------------------------------------------------------------------
  // Agreement
  // ------------------------------------------------------------------------

  /** Neither raises; what the first accepts the second accepts; and the other way round if `both`. */
  ghost predicate Agree(a: Verdict, b: Verdict, both: bool)
  {
    && a.Done? && b.Done?
    && (Accepted(a) ==> Accepted(b))
    && (both && Accepted(b) ==> Accepted(a))
  }

  lemma {:induction false} ChecksFit(v: Json, cs: seq<Constraint>, path: Path)
    requires forall i :: 0 <= i < |cs| ==> Check(cs[i], v).Some?
    ensures CheckAll(v, cs, path).Done?
    ensures Accepted(CheckAll(v, cs, path)) <==> forall i :: 0 <= i < |cs| ==> Check(cs[i], v) == Some(true)
  {
    if cs != [] {
      assert forall i :: 0 <= i < |cs[1..]| ==> cs[1..][i] == cs[i + 1];
      ChecksFit(v, cs[1..], path);
      assert forall i :: 0 < i < |cs| ==> cs[i] == cs[1..][i - 1];
    }
  }

  /** An accepted value of a type that supports a constraint can be checked against it. */
  lemma AcceptedFits(fast: bool, v: Json, t: Ty, path: Path, co: Coercion, c: Constraint)
    requires Supports(t, c) && Accepted(Validate(fast, v, t, path, co))
    ensures Check(c, Validate(fast, v, t, path, co).value).Some?
  {
    ContainersReturnValue(fast, v, t, path, co);
  }

  /** A container type returns the value itself. */
  lemma ContainersReturnValue(fast: bool, v: Json, t: Ty, path: Path, co: Coercion)
    ensures (t.TList? || t.TSet? || t.TTuple? || t.TTupleOf?) && Accepted(Validate(fast, v, t, path, co)) ==>
      v.JList? && Validate(fast, v, t, path, co).value == v
    ensures (t.TDict? || t.TStruct?) && Accepted(Validate(fast, v, t, path, co)) ==>
      v.JObj? && Validate(fast, v, t, path, co).value == v
  {
    match t
    case TList(item) => if v.JList? { EachReturns(fast, v, v.items, item, path, 0, co); }
    case TSet(item) => if v.JList? { EachReturns(fast, v, v.items, item, path, 0, co); }
    case TTupleOf(item) => if v.JList? { EachReturns(fast, v, v.items, item, path, 0, co); }
    case TDict(_, _) => if v.JObj? { EntriesReturn(fast, v, v.members, t, path, co); }
    case _ =>
  }

  lemma EachReturns(fast: bool, v: Json, items: seq<Json>, item: Ty, path: Path, from: nat, co: Coercion)
    ensures Each(fast, v, items, item, path, from, co).Done? ==> Each(fast, v, items, item, path, from, co).value == v
  {
  }

  lemma EntriesReturn(fast: bool, v: Json, members: seq<Member>, t: Ty, path: Path, co: Coercion)
    requires t.TDict?
    ensures Entries(fast, v, members, t, path, co).Done? ==> Entries(fast, v, members, t, path, co).value == v
  {
  }

  /** The two walks agree on every checkable type, in both directions where the value tells the variants apart. */
  lemma {:induction false} WalksAgree(v: Json, t: Ty, path: Path, co: Coercion, both: bool)
    requires Checkable(t) && (both ==> ToldApart(t, v))
    ensures Agree(Validate(true, v, t, path, co), Validate(false, v, t, path, co), both)
    decreases t, 2, 0
  {
    match t
    case TList(item) => if v.JList? { EachAgrees(v, v.items, item, path, 0, co, both); }
    case TSet(item) => if v.JList? { EachAgrees(v, v.items, item, path, 0, co, both); }
    case TTupleOf(item) => if v.JList? { EachAgrees(v, v.items, item, path, 0, co, both); }
    case TTuple(elements) =>
      if v.JList? && |v.items| == |elements| {
        ElementsAgree(v, v.items, elements, path, 0, co, both);
      }
    case TDict(_, _) => if v.JObj? { EntriesAgree(v, v.members, t, path, co, both); }
    case TStruct(_, fields) => if v.JObj? { MembersAgree(v, v.members, fields, path, co, both); }
    case TUnion(variants, _) => if !v.JNull? { UnionsAgree(v, t, path, co, both); }
    case TAnnotated(base, cs) => AnnotatedAgrees(v, base, cs, path, co, both);
    case _ =>
  }

  lemma {:induction false} AnnotatedAgrees(v: Json, base: Ty, cs: seq<Constraint>, path: Path, co: Coercion, both: bool)
    requires Checkable(TAnnotated(base, cs)) && (both ==> ToldApart(base, v))
    ensures Agree(Validate(true, v, TAnnotated(base, cs), path, co), Validate(false, v, TAnnotated(base, cs), path, co),
                  both)
    decreases base, 3, 0
  {
    WalksAgree(v, base, path, co, both);
    if Accepted(Validate(true, v, base, path, co)) {
      ChecksDone(true, v, base, cs, path, co);
    }
    if Accepted(Validate(false, v, base, path, co)) {
      ChecksDone(false, v, base, cs, path, co);
    }
    if cs != [] && Accepted(Validate(true, v, base, path, co)) {
      assert Supports(base, cs[0]);
      SameValue(v, base, cs[0], path, co);
    }
  }

  /** Where there is a constraint to check, both walks check it on the same value. */
  lemma SameValue(v: Json, base: Ty, c: Constraint, path: Path, co: Coercion)
    requires Supports(base, c)
    requires Accepted(Validate(true, v, base, path, co)) && Accepted(Validate(false, v, base, path, co))
    ensures Validate(true, v, base, path, co).value == Validate(false, v, base, path, co).value
  {
    ContainersReturnValue(true, v, base, path, co);
    ContainersReturnValue(false, v, base, path, co);
  }

  lemma ChecksDone(fast: bool, v: Json, base: Ty, cs: seq<Constraint>, path: Path, co: Coercion)
    requires Accepted(Validate(fast, v, base, path, co))
    requires forall i :: 0 <= i < |cs| ==> Supports(base, cs[i])
    ensures CheckAll(Validate(fast, v, base, path, co).value, cs, path).Done?
  {
    var w := Validate(fast, v, base, path, co).value;
    forall i | 0 <= i < |cs|
      ensures Check(cs[i], w).Some?
    {
      AcceptedFits(fast, v, base, path, co, cs[i]);
    }
    ChecksFit(w, cs, path);
  }

  lemma {:induction false} EachAgrees(v: Json, items: seq<Json>, item: Ty, path: Path, from: nat, co: Coercion, both: bool)
    requires Checkable(item) && (both ==> forall i :: 0 <= i < |items| ==> ToldApart(item, items[i]))
    ensures Agree(Each(true, v, items, item, path, from, co), Each(false, v, items, item, path, from, co), both)
    decreases item, 3, |items|
  {
    if items != [] {
      WalksAgree(items[0], item, path + [Index(from)], co, both);
      EachAgrees(v, items[1..], item, path, from + 1, co, both);
    }
  }

  lemma {:induction false} ElementsAgree(v: Json, items: seq<Json>, elements: seq<Ty>, path: Path, from: nat, co: Coercion, both: bool)
    requires |items| == |elements| && forall i :: 0 <= i < |elements| ==> Checkable(elements[i])
    requires both ==> forall i :: 0 <= i < |items| ==> ToldApart(elements[i], items[i])
    ensures Agree(Elements(true, v, items, elements, path, from, co), Elements(false, v, items, elements, path, from, co),
                  both)
    decreases elements, 1, 0
  {
    if items != [] {
      WalksAgree(items[0], elements[0], path + [Index(from)], co, both);
      ElementsAgree(v, items[1..], elements[1..], path, from + 1, co, both);
    }
  }

  lemma {:induction false} EntriesAgree(v: Json, members: seq<Member>, t: Ty, path: Path, co: Coercion, both: bool)
    requires t.TDict? && Checkable(t)
    requires both ==> forall i :: 0 <= i < |members| ==>
      ToldApart(t.key, JStr(members[i].key)) && ToldApart(t.value, members[i].value)
    ensures Agree(Entries(true, v, members, t, path, co), Entries(false, v, members, t, path, co), both)
    decreases t, 1, |members|
  {
    if members != [] {
      var m := members[0];
      WalksAgree(JStr(m.key), t.key, path + [KeyItself(m.key)], co, both);
      WalksAgree(m.value, t.value, path + [Key(m.key)], co, both);
      EntriesAgree(v, members[1..], t, path, co, both);
    }
  }

  lemma {:induction false} MembersAgree(v: Json, members: seq<Member>, fields: seq<Field>, path: Path, co: Coercion, both: bool)
    requires forall i :: 0 <= i < |fields| ==> Checkable(fields[i].ty)
    requires both ==> forall i :: 0 <= i < |members| ==>
      var k := FieldIndex(fields, members[i].key);
      k.Some? ==> ToldApart(fields[k.value].ty, members[i].value)
    ensures Agree(Members(true, v, members, fields, path, co), Members(false, v, members, fields, path, co),
                  both)
    decreases fields, 1, |members|
  {
    if members != [] {
      MembersAgree(v, members[1..], fields, path, co, both);
      var i := FieldIndex(fields, members[0].key);
      if i.Some? {
        WalksAgree(members[0].value, fields[i.value].ty, path + [Key(members[0].key)], co, both);
      }
    }
  }

  lemma {:induction false} FirstFitAgrees(v: Json, variants: seq<Ty>, path: Path, co: Coercion, both: bool)
    requires forall i :: 0 <= i < |variants| ==> Checkable(variants[i])
    requires both ==> forall i :: 0 <= i < |variants| ==> ToldApart(variants[i], v)
    ensures Agree(FirstFit(true, v, variants, path, co), FirstFit(false, v, variants, path, co),
                  both)
    decreases variants, 1, 0
  {
    if variants != [] {
      WalksAgree(v, variants[0], path, co, both);
      FirstFitAgrees(v, variants[1..], path, co, both);
    }
  }

  /** If no variant raises, trying them all accepts exactly when one of them does. */
  lemma {:induction false} FirstFitIffSome(fast: bool, v: Json, variants: seq<Ty>, path: Path, co: Coercion)
    requires forall i :: 0 <= i < |variants| ==> Validate(fast, v, variants[i], path, co).Done?
    ensures FirstFit(fast, v, variants, path, co).Done?
    ensures Accepted(FirstFit(fast, v, variants, path, co)) <==>
      exists i :: 0 <= i < |variants| && Accepted(Validate(fast, v, variants[i], path, co))
    decreases |variants|
  {
    if variants != [] {
      var rest := variants[1..];
      assert forall i :: 0 <= i < |rest| ==> rest[i] == variants[i + 1];
      FirstFitIffSome(fast, v, rest, path, co);
      assert forall i :: 0 < i < |variants| ==> variants[i] == rest[i - 1];
    }
  }

  lemma {:induction false} UnionsAgree(v: Json, t: Ty, path: Path, co: Coercion, both: bool)
    requires t.TUnion? && Checkable(t) && !v.JNull? && (both ==> ToldApart(t, v))
    ensures Agree(Validate(true, v, t, path, co), Validate(false, v, t, path, co), both)
    decreases t, 1, 0
  {
    var variants := t.variants;
    var chosen := Chosen(v, variants);
    if chosen.None? {
      FirstFitAgrees(v, variants, path, co, both);
    } else {
      var c := chosen.value;
      forall i | 0 <= i < |variants|
        ensures Agree(Validate(true, v, variants[i], path, co), Validate(false, v, variants[i], path, co),
                      both && i == c)
      {
        WalksAgree(v, variants[i], path, co, both && i == c);
      }
      FirstFitIffSome(false, v, variants, path, co);
      if both && Accepted(FirstFit(false, v, variants, path, co)) {
        var k :| 0 <= k < |variants| && Accepted(Validate(false, v, variants[k], path, co));
        if chosen != Some(k) {
          RuledOutRejects(false, v, variants, path, co, k);
        }
      }
    }
  }

  // ------------------------------------------------------------------------
  // The results
  // ------------------------------------------------------------------------

  /**
   For every value that tells the variants apart where it meets a dispatch
   table, on any types at all, mixed unions and overlapping literals included,
   dispatching accepts exactly when trying every variant does.
   */
  lemma DispatchAgreesWhereToldApart(v: Json, t: Ty, path: Path, co: Coercion)
    requires Checkable(t) && ToldApart(t, v)
    ensures Accepted(Validate(true, v, t, path, co)) <==> Accepted(Validate(false, v, t, path, co))
    ensures Validate(true, v, t, path, co).Done? && Validate(false, v, t, path, co).Done?
  {
    WalksAgree(v, t, path, co, true);
  }

  /** Disjoint literals tell every value apart. */
  lemma {:induction false} DiscriminableToldApart(t: Ty, v: Json)
    requires Discriminable(t)
    ensures ToldApart(t, v)
    decreases t
  {
    match t
    case TList(item) => if v.JList? { forall i | 0 <= i < |v.items| { DiscriminableToldApart(item, v.items[i]); } }
    case TSet(item) => if v.JList? { forall i | 0 <= i < |v.items| { DiscriminableToldApart(item, v.items[i]); } }
    case TTupleOf(item) => if v.JList? { forall i | 0 <= i < |v.items| { DiscriminableToldApart(item, v.items[i]); } }
    case TTuple(elements) =>
      if v.JList? {
        forall i | 0 <= i < |v.items| && i < |elements| { DiscriminableToldApart(elements[i], v.items[i]); }
      }
    case TDict(key, value) =>
      if v.JObj? {
        forall i | 0 <= i < |v.members|
          ensures ToldApart(key, JStr(v.members[i].key)) && ToldApart(value, v.members[i].value)
        {
          DiscriminableToldApart(key, JStr(v.members[i].key));
          DiscriminableToldApart(value, v.members[i].value);
        }
      }
    case TStruct(_, fields) =>
      if v.JObj? {
        forall i | 0 <= i < |v.members| && FieldIndex(fields, v.members[i].key).Some? {
          DiscriminableToldApart(fields[FieldIndex(fields, v.members[i].key).value].ty, v.members[i].value);
        }
      }
    case TUnion(variants, _) =>
      forall k | 0 <= k < |variants|
        ensures ToldApart(variants[k], v)
        ensures Chosen(v, variants).Some? && Chosen(v, variants) != Some(k) ==>
          RuledOut(variants[k], v, FindDiscriminator(variants).value)
      {
        DiscriminableToldApart(variants[k], v);
        if Chosen(v, variants).Some? && Chosen(v, variants) != Some(k) {
          OnlyChosenIsLeft(v, variants, k);
        }
      }
    case TAnnotated(base, _) => DiscriminableToldApart(base, v);
    case _ =>
  }

  /**
   On every type whose unions, at whatever depth, consist of TypedDicts with
   disjoint discriminator literals where they have a discriminator at all,
   dispatching by the table accepts a value exactly when trying every variant does.
   */
  lemma DispatchAgreesWithTrying(v: Json, t: Ty, path: Path, co: Coercion)
    requires Checkable(t) && Discriminable(t)
    ensures Accepted(Validate(true, v, t, path, co)) <==> Accepted(Validate(false, v, t, path, co))
    ensures Validate(true, v, t, path, co).Done? && Validate(false, v, t, path, co).Done?
  {
    DiscriminableToldApart(t, v);
    DispatchAgreesWhereToldApart(v, t, path, co);
  }

  /** On any union, also one that is mixed or whose literals overlap, dispatching never accepts more. */
  lemma DispatchNeverAcceptsMore(v: Json, t: Ty, path: Path, co: Coercion)
    requires Checkable(t)
    ensures Accepted(Validate(true, v, t, path, co)) ==> Accepted(Validate(false, v, t, path, co))
  {
    WalksAgree(v, t, path, co, false);
  }

  function Tagged(tag: string, field: string): Ty
  {
    TStruct(true, [Field("type", TLiteral([LStr(tag)]), true), Field(field, TInt, true)])
  }

  lemma SharedTagFound(tag: string, f: string, g: string)
    ensures FindDiscriminator([Tagged(tag, f), Tagged(tag, g)]) == Some("type")
  {
    var variants := [Tagged(tag, f), Tagged(tag, g)];
    assert variants[1..] == [Tagged(tag, g)] && variants[1..][1..] == [];
    assert TypedDicts(variants[1..]) == [Tagged(tag, g)];
    assert TypedDicts(variants) == variants;
    assert AllHaveLiteral(variants, "type");
  }

  /** Two variants with the same literal do part the ways: the table knows only the second of them. */
  lemma SharedLiteralExample(co: Coercion)
    ensures
      var t := TUnion([Tagged("x", "a"), Tagged("x", "b")], false);
      var v := JObj([Member("type", JStr("x")), Member("a", JInt(1))]);
      !Accepted(Validate(true, v, t, [], co)) && Accepted(Validate(false, v, t, [], co))
  {
    var variants := [Tagged("x", "a"), Tagged("x", "b")];
    var m0, m1 := Member("type", JStr("x")), Member("a", JInt(1));
    var v := JObj([m0, m1]);
    SecondChosen(v, variants, m0, m1);
    MissingRejects(v, variants[1], [], co);
    FirstAccepts(v, m0, m1, co);
    DispatchAndFirstFit(v, variants, [], co);
  }

  lemma SecondChosen(v: Json, variants: seq<Ty>, m0: Member, m1: Member)
    requires variants == [Tagged("x", "a"), Tagged("x", "b")]
    requires m0 == Member("type", JStr("x")) && m1.key == "a" && v == JObj([m0, m1])
    ensures Chosen(v, variants) == Some(1)
    ensures MemberIndex(v.members, "b").None?
  {
    SharedTagFound("x", "a", "b");
    TableHoldsLastNamed("type", variants, HStr("x"));
    assert HashOfLiteral([LStr("x")][0]) == HStr("x");
    assert Names(variants[1], "type", HStr("x"));
    assert MemberIndex(v.members, "type") == Some(0);
    assert v.members[1..] == [m1] && [m1][1..] == [];
    assert MemberIndex([m1], "b").None?;
  }

  /** A union dispatches to the chosen variant, and a first variant that accepts ends the trying. */
  lemma DispatchAndFirstFit(v: Json, variants: seq<Ty>, path: Path, co: Coercion)
    requires !v.JNull? && variants != []
    ensures
      var i := Chosen(v, variants);
      i.Some? && i.value < |variants| ==>
        Validate(true, v, TUnion(variants, false), path, co) == Validate(true, v, variants[i.value], path, co)
    ensures Accepted(Validate(false, v, variants[0], path, co)) ==>
      Accepted(Validate(false, v, TUnion(variants, false), path, co))
  {
  }

  lemma MissingRejects(v: Json, t: Ty, path: Path, co: Coercion)
    requires v.JObj? && t.TStruct? && |t.fields| == 2 && t.fields[1].required
    requires MemberIndex(v.members, t.fields[1].name).None?
    ensures !Accepted(Validate(true, v, t, path, co))
  {
    assert t.fields[1..][0] == t.fields[1];
    assert MissingErrors(v.members, t.fields[1..], path) != [];
  }

  lemma FirstAccepts(v: Json, m0: Member, m1: Member, co: Coercion)
    requires m0 == Member("type", JStr("x")) && m1 == Member("a", JInt(1)) && v == JObj([m0, m1])
    ensures Accepted(Validate(false, v, Tagged("x", "a"), [], co))
  {
    var fields := Tagged("x", "a").fields;
    assert fields[1..][0] == fields[1] && fields[1..][1..] == [];
    assert MemberIndex(v.members, "type") == Some(0);
    assert v.members[1..] == [m1] && [m1][1..] == [];
    assert MemberIndex([m1], "a") == Some(0);
    assert MemberIndex(v.members, "a") == Some(1);
    assert MissingErrors(v.members, fields[1..], []) == [];
    assert MissingErrors(v.members, fields, []) == [];
    assert FieldIndex(fields, "type") == Some(0);
    assert FieldIndex(fields[1..], "a") == Some(0);
    assert FieldIndex(fields, "a") == Some(1);
    assert HashOfLiteral([LStr("x")][0]) == HStr("x");
    assert InLiterals(JStr("x"), [LStr("x")]);
    assert Accepted(Members(false, v, [m1], fields, [], co));
    assert Accepted(Members(false, v, v.members, fields, [], co));
  }
}
