/** xdrc's unions (parse.yy, gen_hh.cc): what a declaration means, the two pieces of code emitted to choose
    the arm of a discriminant, and the generated class around raw union storage. */
module UnionGen {
  import opened Wrappers

  datatype Label = Case(value: int) | Default

  /** A union_case_spec: its labels, and its declaration unless that is void. */
  datatype Spec<+T> = Spec(labels: seq<Label>, body: Option<T>)

  // ---- the meaning of a declaration ------------------------------------------

  /** The first arm that carries a label. */
  function Find<T>(arms: seq<Spec<T>>, tag: Label): (r: Option<nat>)
    ensures r.Some? ==> r.value < |arms| && tag in arms[r.value].labels
    ensures r.Some? ==> forall i | 0 <= i < r.value :: tag !in arms[i].labels
    ensures r.None? ==> forall i | 0 <= i < |arms| :: tag !in arms[i].labels
  {
    if arms == [] then None
    else if tag in arms[0].labels then Some(0)
    else match Find(arms[1..], tag)
      case None => None
      case Some(i) => Some(i + 1)
  }

  /** The arm that applies to a discriminant: the one with its case, or else the default. */
  function Select<T>(arms: seq<Spec<T>>, which: int): (r: Option<nat>)
    ensures r.Some? ==> r.value < |arms|
  {
    match Find(arms, Case(which))
    case Some(i) => Some(i)
    case None => Find(arms, Default)
  }

  /** Arm `i` is the first that carries a label. */
  ghost predicate FirstWith<T>(arms: seq<Spec<T>>, tag: Label, i: nat) {
    i < |arms| && tag in arms[i].labels && forall j | 0 <= j < i :: tag !in arms[j].labels
  }

  /** An arm applies if it is the first with the case, or no arm has the case and it is the first default. */
  lemma SelectMeans<T>(arms: seq<Spec<T>>, which: int, i: nat)
    ensures Select(arms, which) == Some(i) <==>
      || FirstWith(arms, Case(which), i)
      || (FirstWith(arms, Default, i) && forall j | 0 <= j < |arms| :: Case(which) !in arms[j].labels)
    ensures Select(arms, which) == None <==>
      forall j | 0 <= j < |arms| :: Case(which) !in arms[j].labels && Default !in arms[j].labels
  {
    var c, d := Find(arms, Case(which)), Find(arms, Default);
  }

  function NonVoid<T>(arms: seq<Spec<T>>): nat {
    if arms == [] then 0
    else NonVoid(arms[..|arms| - 1]) + if arms[|arms| - 1].body.Some? then 1 else 0
  }

  /** The fields of a union are numbered from 1; void is 0. */
  function Number<T>(arms: seq<Spec<T>>, i: nat): nat
    requires i < |arms|
  {
    if arms[i].body.None? then 0 else NonVoid(arms[..i]) + 1
  }

  /** The field that applies to a discriminant, or -1. */
  function FieldFor<T>(arms: seq<Spec<T>>, which: int): int {
    match Select(arms, which)
    case Some(i) => Number(arms, i)
    case None => -1
  }

  ghost predicate OneDefault<T>(arms: seq<Spec<T>>) {
    forall i, j, a, b | 0 <= i < |arms| && 0 <= j < |arms| && 0 <= a < |arms[i].labels| && 0 <= b < |arms[j].labels| ::
      arms[i].labels[a] == Default == arms[j].labels[b] ==> i == j && a == b
  }

  /** No two arms share a label; C++ rejects a switch that repeats one. */
  ghost predicate Distinct<T>(arms: seq<Spec<T>>) {
    forall i, j, l | 0 <= i < |arms| && 0 <= j < |arms| && l in arms[i].labels && l in arms[j].labels :: i == j
  }

  lemma {:induction false} NonVoidGrows<T>(arms: seq<Spec<T>>, i: nat, j: nat)
    requires i <= j <= |arms|
    ensures NonVoid(arms[..i]) <= NonVoid(arms[..j])
    ensures i < j && arms[i].body.Some? ==> NonVoid(arms[..i]) < NonVoid(arms[..j])
  {
    if i < j {
      NonVoidGrows(arms, i, j - 1);
      assert arms[..j][..j - 1] == arms[..j - 1];
    }
  }

  /** A field's number is one more than the number of fields in front of it. */
  lemma NumberCounts<T>(arms: seq<Spec<T>>, i: nat)
    requires i < |arms|
    ensures Number(arms, i) == if arms[i].body.None? then 0 else 1 + |Fields(arms, i)|
  {
    NonVoidCounts(arms, i);
  }

  /** The places of the fields before `i`. */
  function Fields<T>(arms: seq<Spec<T>>, i: nat): set<nat>
    requires i <= |arms|
  {
    set j: nat | j < i && arms[j].body.Some?
  }

  lemma {:induction false} NonVoidCounts<T>(arms: seq<Spec<T>>, i: nat)
    requires i <= |arms|
    ensures NonVoid(arms[..i]) == |Fields(arms, i)|
  {
    if i > 0 {
      NonVoidCounts(arms, i - 1);
      assert arms[..i][..i - 1] == arms[..i - 1];
      assert Fields(arms, i) == Fields(arms, i - 1) + if arms[i - 1].body.Some? then {i - 1} else {};
    }
  }

  /** Two fields never share a number: a number above 0 names one arm. */
  lemma NumberInjective<T>(arms: seq<Spec<T>>, i: nat, j: nat)
    requires i < |arms| && j < |arms| && arms[i].body.Some?
    ensures Number(arms, i) == Number(arms, j) <==> i == j
  {
    if i < j {
      NonVoidGrows(arms, i, j);
    } else if j < i {
      NonVoidGrows(arms, j, i);
    }
  }

  // ---- the parser ------------------------------------------------------------

  /** rpc_ufield and rpc_union. */
  datatype Ufield<+T> = Ufield(spec: Spec<T>, hasDefault: bool, fieldno: int)
  datatype Union<+T> = Union(fields: seq<Ufield<T>>, hasDefault: bool)

  ghost predicate Parsed<T>(arms: seq<Spec<T>>, u: Union<T>) {
    && |u.fields| == |arms|
    && (forall i | 0 <= i < |arms| :: u.fields[i] == Ufield(arms[i], Default in arms[i].labels, Number(arms, i)))
    && (u.hasDefault <==> exists i :: 0 <= i < |arms| && Default in arms[i].labels)
  }

  /** union_case_list: None is a syntax error. */
  method CaseList(labels: seq<Label>) returns (hasDefault: Option<bool>)
    ensures hasDefault.Some? <==>
      forall a, b | 0 <= a < |labels| && 0 <= b < |labels| :: labels[a] == Default == labels[b] ==> a == b
    ensures hasDefault.Some? ==> (hasDefault.value <==> Default in labels)
  {
    var seen := false;
    for i := 0 to |labels|
      invariant forall a, b | 0 <= a < i && 0 <= b < i :: labels[a] == Default == labels[b] ==> a == b
      invariant seen <==> Default in labels[..i]
    {
      if labels[i] == Default {
        if seen {
          return None;
        }
        seen := true;
      }
    }
    assert labels[..|labels|] == labels;
    return Some(seen);
  }

  method NumberFields<T>(unnumbered: seq<Ufield<T>>, ghost arms: seq<Spec<T>>) returns (fields: seq<Ufield<T>>)
    requires |unnumbered| == |arms| && forall i | 0 <= i < |arms| :: unnumbered[i].spec == arms[i]
    ensures |fields| == |arms|
    ensures forall i | 0 <= i < |arms| :: fields[i] == unnumbered[i].(fieldno := Number(arms, i))
  {
    fields := unnumbered;
    var next := 0;
    for k := 0 to |fields|
      invariant |fields| == |arms| && next == NonVoid(arms[..k])
      invariant forall i | 0 <= i < k :: fields[i] == unnumbered[i].(fieldno := Number(arms, i))
      invariant forall i | k <= i < |arms| :: fields[i] == unnumbered[i]
    {
      assert arms[..k + 1][..k] == arms[..k];
      if fields[k].spec.body == None {
        fields := fields[k := fields[k].(fieldno := 0)];
      } else {
        next := next + 1;
        fields := fields[k := fields[k].(fieldno := next)];
      }
    }
  }

  /** union_case_spec_list and union_body: rejects a second default, then numbers the fields. */
  method UnionBody<T>(arms: seq<Spec<T>>) returns (r: Option<Union<T>>)
    ensures r.Some? <==> OneDefault(arms)
    ensures r.Some? ==> Parsed(arms, r.value)
  {
    var fields: seq<Ufield<T>>, hasDefault := [], false;
    for k := 0 to |arms|
      invariant |fields| == k && OneDefault(arms[..k])
      invariant forall i | 0 <= i < k :: fields[i] == Ufield(arms[i], Default in arms[i].labels, -1)
      invariant hasDefault <==> exists i :: 0 <= i < k && Default in arms[i].labels
    {
      var seen := CaseList(arms[k].labels);
      if seen == None {
        assert !OneDefault(arms);
        return None;
      }
      if hasDefault && seen.value {
        var i :| 0 <= i < k && Default in arms[i].labels;
        var a :| 0 <= a < |arms[i].labels| && arms[i].labels[a] == Default;
        var b :| 0 <= b < |arms[k].labels| && arms[k].labels[b] == Default;
        return None;
      }
      hasDefault := hasDefault || seen.value;
      fields := fields + [Ufield(arms[k], seen.value, -1)];
    }
    assert arms[..|arms|] == arms;
    fields := NumberFields(fields, arms);
    return Some(Union(fields, hasDefault));
  }

  // ---- the emitted conditional chain -----------------------------------------

  /** return which == a || which == b ? n : ... : last; */
  datatype Test = Test(values: seq<Label>, n: int)
  datatype Chain = Chain(tests: seq<Test>, last: int)

  function RunTests(tests: seq<Test>, last: int, which: int): int {
    if tests == [] then last
    else if Case(which) in tests[0].values then tests[0].n
    else RunTests(tests[1..], last, which)
  }

  function RunChain(c: Chain, which: int): int {
    RunTests(c.tests, c.last, which)
  }

  lemma {:induction false} RunTestsAppend(tests: seq<Test>, t: Test, last: int, which: int)
    ensures RunTests(tests + [t], last, which) ==
      RunTests(tests, if Case(which) in t.values then t.n else last, which)
  {
    if tests == [] {
      assert tests + [t] == [t];
    } else {
      assert (tests + [t])[1..] == tests[1..] + [t];
      RunTestsAppend(tests[1..], t, last, which);
    }
  }

  /** The tests emitted for the first `k` fields find what Select does, if the case is among theirs. */
  ghost predicate ChainSoFar<T>(arms: seq<Spec<T>>, k: nat, tests: seq<Test>)
    requires k <= |arms|
  {
    forall which, last :: RunTests(tests, last, which) == (match Find(arms[..k], Case(which))
      case Some(i) => if Default in arms[i].labels then last else Number(arms, i)
      case None => last)
  }

  lemma {:induction false} FindAppend<T>(arms: seq<Spec<T>>, k: nat, tag: Label)
    requires k < |arms|
    ensures Find(arms[..k + 1], tag) ==
      if Find(arms[..k], tag).Some? then Find(arms[..k], tag)
      else if tag in arms[k].labels then Some(k) else None
  {
    var longer, shorter := Find(arms[..k + 1], tag), Find(arms[..k], tag);
    assert forall i | 0 <= i < k :: arms[..k + 1][i] == arms[..k][i] == arms[i];
    assert arms[..k + 1][k] == arms[k];
  }

  lemma ChainStep<T>(arms: seq<Spec<T>>, k: nat, tests: seq<Test>)
    requires k < |arms| && Distinct(arms) && ChainSoFar(arms, k, tests)
    ensures Default !in arms[k].labels ==> ChainSoFar(arms, k + 1, tests + [Test(arms[k].labels, Number(arms, k))])
    ensures Default in arms[k].labels ==> ChainSoFar(arms, k + 1, tests)
  {
    hide Number;
    var t := Test(arms[k].labels, Number(arms, k));
    forall which, last
      ensures Default !in arms[k].labels ==>
        RunTests(tests + [t], last, which) == (match Find(arms[..k + 1], Case(which))
        case Some(i) => if Default in arms[i].labels then last else Number(arms, i)
        case None => last)
      ensures Default in arms[k].labels ==> RunTests(tests, last, which) == (match Find(arms[..k + 1], Case(which))
        case Some(i) => if Default in arms[i].labels then last else Number(arms, i)
        case None => last)
    {
      RunTestsAppend(tests, t, last, which);
      FindAppend(arms, k, Case(which));
      assert ChainSoFar(arms, k, tests);
      assert Case(which) in arms[k].labels ==> Find(arms[..k], Case(which)).None?;
    }
  }

  /** union_function() for _xdr_field_number: the arm with the default is left for last. */
  method UnionFunction<T>(u: Union<T>, ghost arms: seq<Spec<T>>) returns (c: Chain)
    requires Parsed(arms, u) && Distinct(arms)
    ensures forall which :: RunChain(c, which) == FieldFor(arms, which)
  {
    hide Number;
    var def: Option<Ufield<T>>, tests: seq<Test> := None, [];
    for k := 0 to |u.fields|
      invariant ChainSoFar(arms, k, tests)
      invariant def == None ==> forall i | 0 <= i < k :: Default !in arms[i].labels
      invariant def.Some? ==> exists i :: 0 <= i < k && Default in arms[i].labels && def.value == u.fields[i]
    {
      ChainStep(arms, k, tests);
      if u.fields[k].hasDefault {
        def := Some(u.fields[k]);
      } else {
        tests := tests + [Test(u.fields[k].spec.labels, u.fields[k].fieldno)];
      }
    }
    c := Chain(tests, if def.Some? then def.value.fieldno else -1);
    assert arms[..|arms|] == arms;
    forall which ensures RunChain(c, which) == FieldFor(arms, which) {
      assert ChainSoFar(arms, |arms|, tests);
      var d := Find(arms, Default);
    }
  }

  // ---- the emitted switch ----------------------------------------------------

  /** A statement of the switch in _xdr_with_mem_ptr: a label, _f(&U::field_, ...) for the field
      of arm `i`, or return true. */
  datatype Stmt = At(tag: Label) | Apply(i: nat) | ReturnTrue

  datatype Outcome = Outcome(applied: Option<nat>, result: bool)

  function Position(code: seq<Stmt>, tag: Label): (p: Option<nat>)
    ensures p.Some? ==> p.value < |code| && code[p.value] == At(tag)
  {
    if code == [] then None
    else if code[0] == At(tag) then Some(0)
    else match Position(code[1..], tag)
      case None => None
      case Some(p) => Some(p + 1)
  }

  /** Runs from the start of `code`, through labels; falling off its end reaches `after`. */
  function Execute(code: seq<Stmt>, applied: Option<nat>, after: bool): Outcome {
    if code == [] then Outcome(applied, after)
    else match code[0]
      case At(_) => Execute(code[1..], applied, after)
      case Apply(i) => Execute(code[1..], Some(i), after)
      case ReturnTrue => Outcome(applied, true)
  }

  /** A switch jumps to the matching case, else to the default, else past its end, where
      `return false` stands unless there is a default. */
  function RunSwitch(code: seq<Stmt>, which: int): Outcome {
    match Position(code, Case(which))
    case Some(p) => Execute(code[p..], None, false)
    case None =>
      match Position(code, Default)
      case Some(p) => Execute(code[p..], None, false)
      case None => Outcome(None, false)
  }

  /** What the switch should do when arm `i` applies: run the function object on its field if it has one. */
  function Chosen<T>(arms: seq<Spec<T>>, i: Option<nat>): Outcome
    requires i.Some? ==> i.value < |arms|
  {
    if i == None then Outcome(None, false)
    else Outcome(if arms[i.value].body.Some? then i else None, true)
  }

  function Labels(labels: seq<Label>): (code: seq<Stmt>)
    ensures |code| == |labels| && forall i | 0 <= i < |code| :: code[i] == At(labels[i])
  {
    if labels == [] then [] else [At(labels[0])] + Labels(labels[1..])
  }

  /** The code of the arm numbered `i`. */
  function Block<T>(arm: Spec<T>, i: nat): seq<Stmt> {
    Labels(arm.labels) + (if arm.body == None then [] else [Apply(i)]) + [ReturnTrue]
  }

  lemma {:induction false} ExecuteLabels(labels: seq<Label>, rest: seq<Stmt>)
    ensures Execute(Labels(labels) + rest, None, false) == Execute(rest, None, false)
  {
    if labels == [] {
      assert Labels(labels) + rest == rest;
    } else {
      assert (Labels(labels) + rest)[1..] == Labels(labels[1..]) + rest;
      ExecuteLabels(labels[1..], rest);
    }
  }

  lemma {:induction false} PositionAppend(code: seq<Stmt>, more: seq<Stmt>, tag: Label)
    ensures Position(code + more, tag) ==
      if Position(code, tag).Some? then Position(code, tag)
      else match Position(more, tag) case None => None case Some(p) => Some(|code| + p)
  {
    if code == [] {
      assert code + more == more;
    } else {
      assert (code + more)[1..] == code[1..] + more;
      PositionAppend(code[1..], more, tag);
    }
  }

  lemma {:induction false} PositionIffIn(code: seq<Stmt>, tag: Label)
    ensures Position(code, tag).Some? <==> At(tag) in code
  {
    if code != [] {
      PositionIffIn(code[1..], tag);
      assert code == [code[0]] + code[1..];
    }
  }

  /** Jumping to any label of an arm runs that arm and returns. */
  lemma BlockRuns<T>(arm: Spec<T>, i: nat, p: nat, rest: seq<Stmt>)
    requires p < |arm.labels|
    ensures Execute(Block(arm, i)[p..] + rest, None, false) == Outcome(if arm.body.Some? then Some(i) else None, true)
  {
    var tail := (if arm.body == None then [] else [Apply(i)]) + [ReturnTrue];
    var ls := arm.labels[p..];
    assert Labels(ls) == Labels(arm.labels)[p..];
    assert Block(arm, i)[p..] + rest == Labels(ls) + (tail + rest);
    ExecuteLabels(ls, tail + rest);
    if arm.body == None {
      assert (tail + rest)[0] == ReturnTrue;
    } else {
      assert (tail + rest)[0] == Apply(i) && (tail + rest)[1..][0] == ReturnTrue;
    }
  }

  /** After `k` arms: a label is found in the code iff an arm carries it, and jumping there runs that arm. */
  ghost predicate SwitchSoFar<T>(arms: seq<Spec<T>>, k: nat, code: seq<Stmt>)
    requires k <= |arms|
  {
    forall tag, rest :: RunsTo(arms, Find(arms[..k], tag), code, tag, rest)
  }

  ghost predicate RunsTo<T>(arms: seq<Spec<T>>, i: Option<nat>, code: seq<Stmt>, tag: Label, rest: seq<Stmt>)
    requires i.Some? ==> i.value < |arms|
  {
    var p := Position(code, tag);
    && (p.Some? <==> i.Some?)
    && (p.Some? ==> Execute(code[p.value..] + rest, None, false) == Chosen(arms, i))
  }

  lemma SwitchStep<T>(arms: seq<Spec<T>>, k: nat, code: seq<Stmt>, tag: Label, rest: seq<Stmt>)
    requires k < |arms| && RunsTo(arms, Find(arms[..k], tag), code, tag, Block(arms[k], k) + rest)
    ensures RunsTo(arms, Find(arms[..k + 1], tag), code + Block(arms[k], k), tag, rest)
  {
    hide Execute, Position, Find, Block;
    var block := Block(arms[k], k);
    FindAppend(arms, k, tag);
    PositionAppend(code, block, tag);
    var p := Position(code, tag);
    if p.Some? {
      assert (code + block)[p.value..] + rest == code[p.value..] + (block + rest);
    } else {
      BlockStep(arms[k], k, tag, rest);
      var q := Position(block, tag);
      if q.Some? {
        assert (code + block)[|code| + q.value..] + rest == block[q.value..] + rest;
      }
    }
  }

  lemma BlockStep<T>(arm: Spec<T>, i: nat, tag: Label, rest: seq<Stmt>)
    ensures var q := Position(Block(arm, i), tag);
      && (q.Some? <==> tag in arm.labels)
      && (q.Some? ==>
            Execute(Block(arm, i)[q.value..] + rest, None, false)
              == Outcome(if arm.body.Some? then Some(i) else None, true))
  {
    hide Execute, Position;
    var block := Block(arm, i);
    PositionIffIn(block, tag);
    if tag in arm.labels {
      var a :| 0 <= a < |arm.labels| && arm.labels[a] == tag;
      assert block[a] == At(tag);
    }
    var q := Position(block, tag);
    if q.Some? {
      assert q.value < |arm.labels|;
      BlockRuns(arm, i, q.value, rest);
    }
  }

  lemma SwitchGrows<T>(arms: seq<Spec<T>>, k: nat, code: seq<Stmt>)
    requires k < |arms| && SwitchSoFar(arms, k, code)
    ensures SwitchSoFar(arms, k + 1, code + Block(arms[k], k))
  {
    hide RunsTo, Block;
    var k', code' := k + 1, code + Block(arms[k], k);
    forall tag, rest ensures RunsTo(arms, Find(arms[..k'], tag), code', tag, rest) {
      assert RunsTo(arms, Find(arms[..k], tag), code, tag, Block(arms[k], k) + rest);
      SwitchStep(arms, k, code, tag, rest);
    }
  }

  method EmitArm<T>(arm: Spec<T>, k: nat, code: seq<Stmt>) returns (r: seq<Stmt>)
    ensures r == code + Block(arm, k)
  {
    r := code;
    for a := 0 to |arm.labels|
      invariant r == code + Labels(arm.labels[..a])
    {
      LabelsAppend(arm.labels, a);
      r := r + [At(arm.labels[a])];
    }
    assert arm.labels[..|arm.labels|] == arm.labels;
    if arm.body.Some? {
      r := r + [Apply(k)];
    }
    r := r + [ReturnTrue];
  }

  lemma LabelsAppend(labels: seq<Label>, a: nat)
    requires a < |labels|
    ensures Labels(labels[..a + 1]) == Labels(labels[..a]) + [At(labels[a])]
  {
  }

  /** The switch of _xdr_with_mem_ptr, emitted arm by arm. */
  method WithMemPtr<T>(u: Union<T>, ghost arms: seq<Spec<T>>) returns (code: seq<Stmt>)
    requires Parsed(arms, u)
    ensures forall which :: RunSwitch(code, which) == Chosen(arms, Select(arms, which))
  {
    hide Block, Execute, RunsTo, RunSwitch, Number, Select, Chosen;
    code := [];
    SwitchNone(arms);
    for k := 0 to |u.fields|
      invariant SwitchSoFar(arms, k, code)
    {
      SwitchGrows(arms, k, code);
      code := EmitArm(u.fields[k].spec, k, code);
    }
    assert arms[..|arms|] == arms;
    forall which ensures RunSwitch(code, which) == Chosen(arms, Select(arms, which)) {
      SwitchRuns(arms, code, which);
    }
  }

  lemma SwitchNone<T>(arms: seq<Spec<T>>)
    ensures SwitchSoFar(arms, 0, [])
  {
  }

  lemma SwitchRuns<T>(arms: seq<Spec<T>>, code: seq<Stmt>, which: int)
    requires arms[..|arms|] == arms && SwitchSoFar(arms, |arms|, code)
    ensures RunSwitch(code, which) == Chosen(arms, Select(arms, which))
  {
    hide Execute;
    assert RunsTo(arms, Find(arms, Case(which)), code, Case(which), []);
    assert RunsTo(arms, Find(arms, Default), code, Default, []);
    assert forall p: nat | p <= |code| :: code[p..] + [] == code[p..];
  }

  // ---- the generated class ---------------------------------------------------

  /** The member of the raw union that is constructed under a discriminant. */
  function Active<T>(arms: seq<Spec<T>>, which: int): (r: Option<nat>)
    ensures r.Some? ==> r.value < |arms| && arms[r.value].body.Some?
  {
    Chosen(arms, Select(arms, which)).applied
  }

  ghost predicate Emitted<T>(arms: seq<Spec<T>>, c: Chain, code: seq<Stmt>) {
    && (forall which :: RunChain(c, which) == FieldFor(arms, which))
    && (forall which :: RunSwitch(code, which) == Chosen(arms, Select(arms, which)))
  }

  /** The two emitted forms agree on every discriminant: the switch returns true exactly when the chain
      gives a field number, and applies the function object to the field of that number if it is not void. */
  lemma FormsAgree<T>(arms: seq<Spec<T>>, c: Chain, code: seq<Stmt>, which: int)
    requires Emitted(arms, c, code)
    ensures var r := RunSwitch(code, which);
      && (r.result <==> RunChain(c, which) >= 0)
      && (r.applied.Some? <==> RunChain(c, which) > 0)
      && (r.applied.Some? ==> r.applied.value < |arms| && Number(arms, r.applied.value) == RunChain(c, which))
  {
    hide RunSwitch, RunChain;
    assert RunSwitch(code, which) == Chosen(arms, Select(arms, which)) && RunChain(c, which) == FieldFor(arms, which);
  }

  /** From the declaration to both pieces of code: what the parser lets through is emitted as meant. */
  method Generate<T>(arms: seq<Spec<T>>) returns (r: Option<(Chain, seq<Stmt>)>)
    requires Distinct(arms)
    ensures r.Some? <==> OneDefault(arms)
    ensures r.Some? ==> Emitted(arms, r.value.0, r.value.1)
  {
    hide OneDefault, Distinct, Parsed, RunChain, RunSwitch;
    var u := UnionBody(arms);
    if u == None {
      return None;
    }
    var c := UnionFunction(u.value, arms);
    var code := WithMemPtr(u.value, arms);
    return Some((c, code));
  }

  /** Discriminants have the same field number only if the same member is constructed under both. */
  lemma SameNumber<T>(arms: seq<Spec<T>>, a: int, b: int)
    requires FieldFor(arms, a) == FieldFor(arms, b)
    ensures Active(arms, a) == Active(arms, b)
  {
    if Active(arms, a).Some? && Active(arms, b).Some? {
      NumberInjective(arms, Active(arms, a).value, Active(arms, b).value);
    }
  }

  lemma ActiveIs<T>(arms: seq<Spec<T>>, which: int)
    ensures Active(arms, which) == Chosen(arms, Select(arms, which)).applied
  {
  }

  function Holding<V>(i: Option<nat>, v: V): map<nat, V> {
    if i.Some? then map[i.value := v] else map[]
  }

  /** An object of a generated union class. `live` holds the members whose lifetime has begun and not ended,
      which the C++ code does not record; `built` and `razed` count these events. */
  class Generated<T, V> {
    const arms: seq<Spec<T>>
    const chain: Chain            // _xdr_field_number
    const code: seq<Stmt>         // _xdr_with_mem_ptr
    const initial: V              // the value of a field constructed from nothing
    var tag: int
    var live: map<nat, V>
    var built: nat
    var razed: nat

    /** Exactly the member that the discriminant names is alive. */
    ghost predicate Valid()
      reads this
    {
      && Emitted(arms, chain, code)
      && live.Keys == (if Active(arms, tag).Some? then {Active(arms, tag).value} else {})
      && built == razed + |live|
    }

    /** Placement new: the storage must not hold a member that is still alive. */
    method Construct(i: nat, v: V)
      requires live == map[]
      modifies this`live, this`built
      ensures live == map[i := v] && built == old(built) + 1
    {
      live := map[i := v];
      built := built + 1;
    }

    /** An explicit destructor call: the member must be alive. */
    method Raze(i: nat)
      requires live.Keys == {i}
      modifies this`live, this`razed
      ensures live == map[] && razed == old(razed) + 1
    {
      live := map k | k in live && k != i :: live[k];
      razed := razed + 1;
    }

    constructor (arms: seq<Spec<T>>, chain: Chain, code: seq<Stmt>, initial: V, which: int)
      requires Emitted(arms, chain, code)
      ensures Valid() && tag == which && live == Holding(Active(arms, which), initial)
      ensures this.arms == arms && this.chain == chain && this.code == code && this.initial == initial
    {
      hide Active, RunSwitch;
      this.arms, this.chain, this.code, this.initial := arms, chain, code, initial;
      tag, live, built, razed := which, map[], 0, 0;
      new;
      var o := RunSwitch(code, tag);
      ActiveIs(arms, tag);
      if o.applied.Some? {
        Construct(o.applied.value, initial);
      }
    }

    constructor Copy(source: Generated<T, V>)
      requires source.Valid()
      ensures Valid() && tag == source.tag && live == source.live
      ensures arms == source.arms && chain == source.chain && code == source.code && initial == source.initial
    {
      hide Active, RunSwitch;
      arms, chain, code, initial := source.arms, source.chain, source.code, source.initial;
      tag, live, built, razed := source.tag, map[], 0, 0;
      new;
      var o := RunSwitch(code, tag);
      ActiveIs(arms, tag);
      if o.applied.Some? {
        Construct(o.applied.value, source.live[o.applied.value]);
      }
    }

    /** The destructor: afterwards nothing is alive, and every construction has been paid for. */
    method Destroy()
      requires Valid()
      modifies this`live, this`razed
      ensures live == map[] && built == razed
    {
      hide Active, RunSwitch;
      var o := RunSwitch(code, tag);
      ActiveIs(arms, tag);
      if o.applied.Some? {
        Raze(o.applied.value);
      }
    }

    /** _xdr_discriminant(which, validate): a field survives only if the new discriminant names it too. */
    method SetDiscriminant(which: int, validate: bool) returns (thrown: bool)
      requires Valid()
      modifies this`tag, this`live, this`built, this`razed
      ensures Valid() && (thrown <==> validate && Select(arms, which) == None)
      ensures thrown ==> tag == old(tag) && live == old(live)
      ensures !thrown ==> tag == which
      ensures !thrown ==>
        live == if FieldFor(arms, which) == FieldFor(arms, old(tag)) then old(live)
                else Holding(Active(arms, which), initial)
    {
      hide Active, RunSwitch, RunChain;
      var fnum := RunChain(chain, which);
      if fnum < 0 && validate {
        return true;
      }
      if fnum != RunChain(chain, tag) {
        Destroy();
        tag := which;
        var o := RunSwitch(code, tag);
        ActiveIs(arms, tag);
        if o.applied.Some? {
          Construct(o.applied.value, initial);
        }
      } else {
        SameNumber(arms, which, tag);
        tag := which;
      }
      return false;
    }

    /** operator=, also from the object itself. */
    method Assign(source: Generated<T, V>)
      requires Valid() && source.Valid() && source.arms == arms
      modifies this`tag, this`live, this`built, this`razed
      ensures Valid() && tag == old(source.tag) && live == old(source.live)
    {
      hide Active, RunSwitch, RunChain;
      assert RunChain(chain, tag) == FieldFor(arms, tag) && RunChain(chain, source.tag) == FieldFor(arms, source.tag);
      if RunChain(chain, tag) == RunChain(chain, source.tag) {
        SameNumber(arms, tag, source.tag);
        var o := RunSwitch(code, tag);
        ActiveIs(arms, tag);
        if o.applied.Some? {
          live := live[o.applied.value := source.live[o.applied.value]];
        }
      } else {
        Destroy();
        tag := 0x7fff_ffff;
        var o := RunSwitch(code, source.tag);
        ActiveIs(arms, source.tag);
        if o.applied.Some? {
          Construct(o.applied.value, source.live[o.applied.value]);
        }
      }
      tag := source.tag;
    }

    /** The accessor of arm `i`: None is the exception xdr_wrong_union. */
    method Access(i: nat) returns (v: Option<V>)
      requires Valid() && i < |arms| && arms[i].body.Some?
      ensures v.Some? <==> Select(arms, tag) == Some(i)
      ensures v.Some? ==> live == map[i := v.value]
    {
      var at := Select(arms, tag);
      if at.Some? {
        NumberInjective(arms, i, at.value);
      }
      if RunChain(chain, tag) == Number(arms, i) {
        return Some(live[i]);
      }
      return None;
    }
  }
}
