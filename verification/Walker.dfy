/**
 The validator in its own form: helpers that append to one shared list of
 errors as they loop. Each is proved against the walk of module Validation,
 whatever errors the list already holds.
 */
module ErrorCollecting {
  import opened Common
  import opened Validation

  class ErrorList {
    var items: seq<Error>

    constructor ()
      ensures items == []
    {
      items := [];
    }

    method Append(e: Error)
      modifies this
      ensures items == old(items) + [e]
    {
      items := items + [e];
    }
  }

  /** The list grew by the verdict's errors and its value was returned; None stands for the TypeError. */
  predicate Collected(before: seq<Error>, after: seq<Error>, r: Option<Json>, verdict: Verdict)
  {
    match verdict
    case Raised => r.None?
    case Done(w, errors) => r == Some(w) && after == before + errors
  }

  /** A loop has appended `done`, and `rest` is what it still has to do for `whole`. */
  ghost predicate Loops(v: Json, before: seq<Error>, now: seq<Error>, rest: Verdict, whole: Verdict)
  {
    && before <= now
    && (if rest.Raised? then whole.Raised? else whole == Done(v, now[|before|..] + rest.errors))
  }

  lemma LoopStep(
      v: Json, before: seq<Error>, now: seq<Error>, first: Verdict, rest: Verdict, whole: Verdict,
      after: seq<Error>, r: Option<Json>)
    requires Loops(v, before, now, Then(v, first, rest), whole) && Collected(now, after, r, first)
    ensures r.None? ==> whole.Raised?
    ensures r.Some? ==> Loops(v, before, after, rest, whole)
  {
    if first.Done? {
      assert after[|before|..] == now[|before|..] + first.errors;
    }
  }

  lemma LoopEnd(v: Json, before: seq<Error>, now: seq<Error>, whole: Verdict)
    requires Loops(v, before, now, Done(v, []), whole)
    ensures Collected(before, now, Some(v), whole)
  {
    assert now == before + now[|before|..];
  }

  lemma LoopStart(v: Json, before: seq<Error>, whole: Verdict)
    requires whole.Done? ==> whole.value == v
    ensures Loops(v, before, before, whole, whole)
  {
  }

  method ValidateValue(v: Json, t: Ty, path: Path, errors: ErrorList, co: Coercion) returns (r: Option<Json>)
    modifies errors
    ensures Collected(old(errors.items), errors.items, r, Validate(true, v, t, path, co))
    decreases t, 2, 0
  {
    match t
    case TAny => r := Some(v);
    case TNone =>
      if !v.JNull? {
        errors.Append(Error(path, WrongType));
      }
      r := Some(v);
    case TLiteral(args) =>
      if !InLiterals(v, args) {
        errors.Append(Error(path, NotInLiteral));
      }
      r := Some(v);
    case TList(item) => r := ValidateItems(v, item, path, errors, co);
    case TSet(item) => r := ValidateItems(v, item, path, errors, co);
    case TTupleOf(item) => r := ValidateItems(v, item, path, errors, co);
    case TTuple(elements) => r := ValidateTuple(v, elements, path, errors, co);
    case TDict(_, _) => r := ValidateDict(v, t, path, errors, co);
    case TStruct(_, _) => r := ValidateStructFields(v, t, path, errors, co);
    case TUnion(_, _) => r := ValidateUnion(v, t, path, errors, co);
    case TAnnotated(base, constraints) => r := ValidateAnnotated(v, base, constraints, path, errors, co);
    case _ =>
      var verdict := Scalar(v, t, path, co);
      errors.items := errors.items + verdict.errors;
      r := Some(verdict.value);
  }

  method ValidateAnnotated(
      v: Json, base: Ty, constraints: seq<Constraint>, path: Path, errors: ErrorList, co: Coercion)
    returns (r: Option<Json>)
    modifies errors
    ensures Collected(old(errors.items), errors.items, r, Validate(true, v, TAnnotated(base, constraints), path, co))
    decreases base, 3, 0
  {
    var countBefore := |errors.items|;
    r := ValidateValue(v, base, path, errors, co);
    if r.None? || |errors.items| != countBefore {
      return;
    }
    r := CheckConstraints(r.value, constraints, path, errors);
  }

  /** The loop over the constraints, which runs only if the base type added no error. */
  method CheckConstraints(w: Json, constraints: seq<Constraint>, path: Path, errors: ErrorList) returns (r: Option<Json>)
    modifies errors
    ensures Collected(old(errors.items), errors.items, r, CheckAll(w, constraints, path))
  {
    ghost var before, whole := errors.items, CheckAll(w, constraints, path);
    CheckAllReturns(w, constraints, path);
    LoopStart(w, before, whole);
    for i := 0 to |constraints|
      invariant Loops(w, before, errors.items, CheckAll(w, constraints[i..], path), whole)
    {
      ghost var now := errors.items;
      var holds := Check(constraints[i], w);
      assert constraints[i..][1..] == constraints[i + 1..];
      CheckAllReturns(w, constraints[i + 1..], path);
      if holds.None? {
        return None;
      }
      if !holds.value {
        errors.Append(Error(path, Violates(constraints[i])));
      }
      LoopStep(w, before, now, Done(w, if holds.value then [] else [Error(path, Violates(constraints[i]))]),
               CheckAll(w, constraints[i + 1..], path), whole, errors.items, Some(w));
    }
    LoopEnd(w, before, errors.items, whole);
    r := Some(w);
  }

  method ValidateUnion(v: Json, t: Ty, path: Path, errors: ErrorList, co: Coercion) returns (r: Option<Json>)
    requires t.TUnion?
    modifies errors
    ensures Collected(old(errors.items), errors.items, r, Validate(true, v, t, path, co))
    decreases t, 1, 0
  {
    if v.JNull? {
      if !t.optional {
        errors.Append(Error(path, WrongType));
      }
      return Some(v);
    }
    var chosen := Chosen(v, t.variants);
    if chosen.Some? && chosen.value < |t.variants| {
      r := ValidateValue(v, t.variants[chosen.value], path, errors, co);
      return;
    }
    for i := 0 to |t.variants|
      invariant errors.items == old(errors.items)
      invariant FirstFit(true, v, t.variants[i..], path, co) == FirstFit(true, v, t.variants, path, co)
    {
      assert t.variants[i..][1..] == t.variants[i + 1..];
      var testErrors := new ErrorList();
      var w := ValidateValue(v, t.variants[i], path, testErrors, co);
      if w.None? {
        return None;
      }
      if testErrors.items == [] {
        return w;
      }
    }
    errors.Append(Error(path, NoVariant));
    r := Some(v);
  }

  method ValidateStructFields(v: Json, t: Ty, path: Path, errors: ErrorList, co: Coercion) returns (r: Option<Json>)
    requires t.TStruct?
    modifies errors
    ensures Collected(old(errors.items), errors.items, r, Validate(true, v, t, path, co))
    decreases t, 1, 0
  {
    if !v.JObj? {
      errors.Append(Error(path, WrongType));
      return Some(v);
    }
    ReportMissing(v.members, t.fields, path, errors);
    r := ValidateMembers(v, t.fields, path, errors, co);
    MembersReturn(v, v.members, t.fields, path, co);
  }

  method ReportMissing(members: seq<Member>, fields: seq<Field>, path: Path, errors: ErrorList)
    modifies errors
    ensures errors.items == old(errors.items) + MissingErrors(members, fields, path)
  {
    for i := 0 to |fields|
      invariant errors.items + MissingErrors(members, fields[i..], path) ==
        old(errors.items) + MissingErrors(members, fields, path)
    {
      assert fields[i..][1..] == fields[i + 1..];
      if fields[i].required && MemberIndex(members, fields[i].name).None? {
        errors.Append(Error(path + [Key(fields[i].name)], Missing));
      }
    }
  }

  method ValidateMembers(v: Json, fields: seq<Field>, path: Path, errors: ErrorList, co: Coercion)
    returns (r: Option<Json>)
    requires v.JObj?
    modifies errors
    ensures Collected(old(errors.items), errors.items, r, Members(true, v, v.members, fields, path, co))
    decreases fields, 1, 0
  {
    ghost var before, whole := errors.items, Members(true, v, v.members, fields, path, co);
    MembersReturn(v, v.members, fields, path, co);
    LoopStart(v, before, whole);
    for i := 0 to |v.members|
      invariant Loops(v, before, errors.items, Members(true, v, v.members[i..], fields, path, co), whole)
    {
      var m := v.members[i];
      ghost var now, rest := errors.items, Members(true, v, v.members[i + 1..], fields, path, co);
      assert v.members[i..][1..] == v.members[i + 1..];
      var k := FieldIndex(fields, m.key);
      if k.Some? {
        var w := ValidateValue(m.value, fields[k.value].ty, path + [Key(m.key)], errors, co);
        LoopStep(v, before, now, Validate(true, m.value, fields[k.value].ty, path + [Key(m.key)], co),
                 rest, whole, errors.items, w);
        if w.None? {
          return None;
        }
      }
    }
    LoopEnd(v, before, errors.items, whole);
    r := Some(v);
  }

  lemma {:induction false} MembersReturn(v: Json, members: seq<Member>, fields: seq<Field>, path: Path, co: Coercion)
    ensures Members(true, v, members, fields, path, co).Done? ==> Members(true, v, members, fields, path, co).value == v
    decreases |members|
  {
    if members != [] {
      MembersReturn(v, members[1..], fields, path, co);
    }
  }

  /** The loops of `_validate_list`, `_validate_set` and the variadic `_validate_tuple`. */
  method ValidateItems(v: Json, item: Ty, path: Path, errors: ErrorList, co: Coercion) returns (r: Option<Json>)
    modifies errors
    ensures Collected(old(errors.items), errors.items, r,
      if v.JList? then Each(true, v, v.items, item, path, 0, co) else Done(v, [Error(path, WrongType)]))
    decreases item, 4, 0
  {
    if !v.JList? {
      errors.Append(Error(path, WrongType));
      return Some(v);
    }
    ghost var before, whole := errors.items, Each(true, v, v.items, item, path, 0, co);
    LoopStart(v, before, whole);
    for i := 0 to |v.items|
      invariant Loops(v, before, errors.items, Each(true, v, v.items[i..], item, path, i, co), whole)
    {
      ghost var now := errors.items;
      assert v.items[i..][1..] == v.items[i + 1..];
      var w := ValidateValue(v.items[i], item, path + [Index(i)], errors, co);
      LoopStep(v, before, now, Validate(true, v.items[i], item, path + [Index(i)], co),
               Each(true, v, v.items[i + 1..], item, path, i + 1, co), whole, errors.items, w);
      if w.None? {
        return None;
      }
    }
    LoopEnd(v, before, errors.items, whole);
    r := Some(v);
  }

  method ValidateTuple(v: Json, elements: seq<Ty>, path: Path, errors: ErrorList, co: Coercion)
    returns (r: Option<Json>)
    modifies errors
    ensures Collected(old(errors.items), errors.items, r, Validate(true, v, TTuple(elements), path, co))
    decreases elements, 2, 0
  {
    if !v.JList? {
      errors.Append(Error(path, WrongType));
      return Some(v);
    }
    if elements == [] {
      return Some(v);
    }
    if |v.items| != |elements| {
      errors.Append(Error(path, WrongLength));
      return Some(v);
    }
    ghost var before, whole := errors.items, Elements(true, v, v.items, elements, path, 0, co);
    LoopStart(v, before, whole);
    for i := 0 to |elements|
      invariant Loops(v, before, errors.items, Elements(true, v, v.items[i..], elements[i..], path, i, co), whole)
    {
      ghost var now := errors.items;
      assert v.items[i..][1..] == v.items[i + 1..] && elements[i..][1..] == elements[i + 1..];
      var w := ValidateValue(v.items[i], elements[i], path + [Index(i)], errors, co);
      LoopStep(v, before, now, Validate(true, v.items[i], elements[i], path + [Index(i)], co),
               Elements(true, v, v.items[i + 1..], elements[i + 1..], path, i + 1, co), whole, errors.items, w);
      if w.None? {
        return None;
      }
    }
    LoopEnd(v, before, errors.items, whole);
    r := Some(v);
  }

  method ValidateDict(v: Json, t: Ty, path: Path, errors: ErrorList, co: Coercion) returns (r: Option<Json>)
    requires t.TDict?
    modifies errors
    ensures Collected(old(errors.items), errors.items, r, Validate(true, v, t, path, co))
    decreases t, 1, 0
  {
    if !v.JObj? {
      errors.Append(Error(path, WrongType));
      return Some(v);
    }
    ghost var before, whole := errors.items, Entries(true, v, v.members, t, path, co);
    LoopStart(v, before, whole);
    for i := 0 to |v.members|
      invariant Loops(v, before, errors.items, Entries(true, v, v.members[i..], t, path, co), whole)
    {
      var m := v.members[i];
      ghost var now := errors.items;
      ghost var first := Validate(true, JStr(m.key), t.key, path + [KeyItself(m.key)], co);
      ghost var second := Validate(true, m.value, t.value, path + [Key(m.key)], co);
      assert v.members[i..][1..] == v.members[i + 1..];
      var k := ValidateValue(JStr(m.key), t.key, path + [KeyItself(m.key)], errors, co);
      ghost var between := errors.items;
      if k.None? {
        return None;
      }
      var w := ValidateValue(m.value, t.value, path + [Key(m.key)], errors, co);
      if w.None? {
        return None;
      }
      assert errors.items == now + (first.errors + second.errors);
      LoopStep(v, before, now, Then(v, first, second),
               Entries(true, v, v.members[i + 1..], t, path, co), whole, errors.items, Some(v));
    }
    LoopEnd(v, before, errors.items, whole);
    r := Some(v);
  }

  /** `validate`: the value, or all the errors collected, or the TypeError. */
  method ValidateTop(data: Json, t: Ty, co: Coercion) returns (r: Option<Common.Result<Json, seq<Error>>>)
    ensures
      match Validate(true, data, t, [], co)
      case Raised => r.None?
      case Done(w, errors) => r == Some(if errors == [] then Ok(w) else Err(errors))
  {
    var errors := new ErrorList();
    var w := ValidateValue(data, t, [], errors, co);
    if w.None? {
      return None;
    }
    assert errors.items == Validate(true, data, t, [], co).errors;
    return Some(if errors.items != [] then Err(errors.items) else Ok(w.value));
  }
}
