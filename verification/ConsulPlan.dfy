/** How the Consul client turns a transaction into raw operations, and the proof that running
    them is running the fold. */
module ConsulPlan {
  import opened Errors
  import opened Keys
  import opened Encoding
  import opened Tree
  import opened Boundaries
  import opened ConsulStore

  datatype ResultKind = RkCreate | RkSet | RkAux

  function GetParent(prefix: Path, k: Key): seq<KvOp> {
    if Parent(k) == [] then [] else [KvGet(ConsulName(prefix, Parent(k)))]
  }

  /** Guards and effects for one step; `session` is what leased keys are locked with. */
  function Plan(prefix: Path, session: string, step: Step): (ops: seq<KvOp>)
    ensures ops != []
  {
    var n := ConsulName(prefix, step.key);
    match step
    case Check(_, version) => if version != 0 then [KvCheckIndex(n, version)] else [KvGet(n)]
    case Create(k, v, lease) =>
      GetParent(prefix, k) + [KvCheckNotExists(n)]
      + [if lease then KvLock(n, v, session) else KvSet(n, v)]
    case Set(_, v) => [KvGet(n), KvSet(n, v)]
    case Erase(_) => [KvGet(n), KvErase(n), KvEraseAll(n + "/")]
  }

  /** The kinds of the results those operations produce. */
  function Kinds(step: Step): seq<ResultKind> {
    match step
    case Check(_, _) => [RkAux]
    case Create(k, _, _) => (if Parent(k) == [] then [] else [RkAux]) + [RkCreate]
    case Set(_, _) => [RkAux, RkSet]
    case Erase(_) => [RkAux]
  }

  function Compile(prefix: Path, session: string, steps: seq<Step>): seq<KvOp> {
    if steps == [] then []
    else Compile(prefix, session, steps[..|steps| - 1]) + Plan(prefix, session, steps[|steps| - 1])
  }

  function AllKinds(steps: seq<Step>): seq<ResultKind> {
    if steps == [] then [] else AllKinds(steps[..|steps| - 1]) + Kinds(steps[|steps| - 1])
  }

  function Bounds(prefix: Path, session: string, steps: seq<Step>): seq<int> {
    if steps == [] then []
    else Bounds(prefix, session, steps[..|steps| - 1]) + [|Compile(prefix, session, steps)| - 1]
  }

  /** What the compiling loops have pushed once the first `i` steps are done. */
  ghost predicate Pushed(prefix: Path, session: string, steps: seq<Step>, i: nat,
                         txn: seq<KvOp>, bounds: seq<int>, kinds: seq<ResultKind>)
    requires i <= |steps|
  {
    && txn == Compile(prefix, session, steps[..i])
    && bounds == Bounds(prefix, session, steps[..i])
    && kinds == AllKinds(steps[..i])
  }

  lemma NonePushed(prefix: Path, session: string, steps: seq<Step>)
    ensures Pushed(prefix, session, steps, 0, [], [], [])
  {
  }

  lemma PushOne(prefix: Path, session: string, steps: seq<Step>, i: nat,
                txn: seq<KvOp>, bounds: seq<int>, kinds: seq<ResultKind>)
    requires i < |steps| && Pushed(prefix, session, steps, i, txn, bounds, kinds)
    ensures var more := txn + Plan(prefix, session, steps[i]);
      Pushed(prefix, session, steps, i + 1, more, bounds + [|more| - 1], kinds + Kinds(steps[i]))
  {
    hide Plan, Kinds;
    assert steps[..i + 1][..i] == steps[..i];
  }

  lemma AllPushed(prefix: Path, session: string, steps: seq<Step>,
                  txn: seq<KvOp>, bounds: seq<int>, kinds: seq<ResultKind>)
    requires Pushed(prefix, session, steps, |steps|, txn, bounds, kinds)
    ensures txn == Compile(prefix, session, steps)
    ensures bounds == Bounds(prefix, session, steps)
    ensures kinds == AllKinds(steps)
  {
    assert steps[..|steps|] == steps;
  }

  lemma CheckPlan(prefix: Path, session: string, check: CheckStep)
    ensures Kinds(check) == [RkAux]
    ensures var n := ConsulName(prefix, check.key);
      Plan(prefix, session, check) == [if check.version != 0 then KvCheckIndex(n, check.version) else KvGet(n)]
  {
  }

  /** The answer read off the raw results with the help of their kinds. */
  function Extract(kinds: seq<ResultKind>, results: seq<Item>): seq<Answer>
    requires |kinds| == |results|
  {
    if kinds == [] then []
    else
      var last := |kinds| - 1;
      Extract(kinds[..last], results[..last]) + ExtractItem(kinds[last], results[last])
  }

  lemma ExtractNone()
    ensures Extract([], []) == []
  {
  }

  lemma ExtractLast(kinds: seq<ResultKind>, results: seq<Item>)
    requires |kinds| == |results| > 0
    ensures var last := |kinds| - 1;
      Extract(kinds, results) ==
      Extract(kinds[..last], results[..last]) + ExtractItem(kinds[last], results[last])
  {
  }

  lemma {:induction false} ExtractConcat(a: seq<ResultKind>, x: seq<Item>, b: seq<ResultKind>, y: seq<Item>)
    requires |a| == |x| && |b| == |y|
    ensures Extract(a + b, x + y) == Extract(a, x) + Extract(b, y)
  {
    hide Extract, ExtractItem;
    if b == [] {
      ExtractNone();
      assert a + b == a && x + y == x && b == [] && y == [];
    } else {
      var last := |b| - 1;
      ExtractConcat(a, x, b[..last], y[..last]);
      ExtractLast(a + b, x + y);
      ExtractLast(b, y);
      assert (a + b)[..|a| + last] == a + b[..last];
      assert (x + y)[..|a| + last] == x + y[..last];
    }
  }

  function ExtractItem(kind: ResultKind, item: Item): seq<Answer> {
    match kind
    case RkCreate => [Answer(CREATE, item.modifyIndex)]
    case RkSet => [Answer(SET, item.modifyIndex)]
    case RkAux => []
  }

  lemma ExtractOne(kind: ResultKind, item: Item)
    ensures Extract([kind], [item]) == ExtractItem(kind, item)
  {
  }

  lemma ExtractTwo(k1: ResultKind, i1: Item, k2: ResultKind, i2: Item)
    ensures Extract([k1, k2], [i1, i2]) == ExtractItem(k1, i1) + ExtractItem(k2, i2)
  {
    ExtractConcat([k1], [i1], [k2], [i2]);
    assert [k1] + [k2] == [k1, k2] && [i1] + [i2] == [i1, i2];
  }

  // ---------- running short plans ----------

  lemma Run1(a: KvOp, s: Store, index: int)
    ensures Run([a], s, index) ==
      if Passes(a, s) then Done(Effect(a, s, index), Yields(a, s, index)) else Aborted(0)
  {
    hide Passes, Effect, Yields;
    RunSnoc([], a, s, index);
    assert [] + [a] == [a];
  }

  lemma Run2(a: KvOp, b: KvOp, s: Store, index: int)
    ensures Run([a, b], s, index) ==
      if !Passes(a, s) then Aborted(0)
      else
        var u := Effect(a, s, index);
        if !Passes(b, u) then Aborted(1)
        else Done(Effect(b, u, index), Yields(a, s, index) + Yields(b, u, index))
  {
    hide Passes, Effect, Yields, Run;
    Run1(a, s, index);
    RunSnoc([a], b, s, index);
    assert [a] + [b] == [a, b];
  }

  lemma Run3(a: KvOp, b: KvOp, c: KvOp, s: Store, index: int)
    ensures Run([a, b, c], s, index) ==
      if !Passes(a, s) then Aborted(0)
      else
        var u := Effect(a, s, index);
        if !Passes(b, u) then Aborted(1)
        else
          var w := Effect(b, u, index);
          if !Passes(c, w) then Aborted(2)
          else Done(Effect(c, w, index), Yields(a, s, index) + Yields(b, u, index) + Yields(c, w, index))
  {
    hide Passes, Effect, Yields, Run;
    Run2(a, b, s, index);
    RunSnoc([a, b], c, s, index);
    assert [a, b] + [c] == [a, b, c];
  }

  // ---------- one step ----------

  predicate SessionReady(step: Step, session: string) {
    step.Create? && step.lease ==> session != ""
  }

  /** Running a step's plan does what the step does to the tree, or aborts if it is refused. */
  ghost predicate Faithful(prefix: Path, session: string, step: Step, s: Store, index: int) {
    var r, t, rules := Run(Plan(prefix, session, step), s, index), View(prefix, s), ConsulRules(index);
    if Accepts(rules, step, t) then
      && r.Done?
      && View(prefix, r.store) == Apply(rules, step, t)
      && |r.results| == |Kinds(step)|
      && Extract(Kinds(step), r.results) == Answers(rules, step, t)
    else r.Aborted?
  }

  lemma CheckFaithful(prefix: Path, session: string, step: Step, s: Store, index: int)
    requires step.Check?
    ensures Faithful(prefix, session, step, s, index)
  {
    hide ConsulName, View, Run, Extract;
    ViewIs(prefix, s);
    var plan := Plan(prefix, session, step);
    assert plan == [plan[0]];
    Run1(plan[0], s, index);
    if Passes(plan[0], s) {
      ExtractOne(RkAux, Yields(plan[0], s, index)[0]);
    }
  }

  lemma SetFaithful(prefix: Path, session: string, step: Step, s: Store, index: int)
    requires step.Set?
    ensures Faithful(prefix, session, step, s, index)
  {
    hide ConsulName, View, Run, Extract;
    ViewIs(prefix, s);
    var plan, n := Plan(prefix, session, step), ConsulName(prefix, step.key);
    assert plan == [plan[0], plan[1]];
    Run2(plan[0], plan[1], s, index);
    if n in s {
      var item := Effect(plan[1], s, index)[n];
      ViewPut(prefix, s, step.key, item);
      ExtractTwo(RkAux, s[n], RkSet, item);
      assert Yields(plan[0], s, index) + Yields(plan[1], s, index) == [s[n], item];
      assert ToNode(item) == Node(step.value, index, View(prefix, s)[step.key].lease);
    }
  }

  lemma EraseFaithful(prefix: Path, session: string, step: Step, s: Store, index: int)
    requires step.Erase?
    ensures Faithful(prefix, session, step, s, index)
  {
    hide ConsulName, View, Run, Extract;
    ViewIs(prefix, s);
    var plan := Plan(prefix, session, step);
    assert plan == [plan[0], plan[1], plan[2]];
    Run3(plan[0], plan[1], plan[2], s, index);
    ViewErase(prefix, s, step.key, index);
    if plan[0].name in s {
      ExtractOne(RkAux, s[plan[0].name]);
      assert [s[plan[0].name]] + [] + [] == [s[plan[0].name]];
    }
  }

  /** What the create plan does, with the exact position at which it aborts. */
  lemma CreateRuns(prefix: Path, session: string, step: Step, s: Store, index: int)
    requires step.Create? && SessionReady(step, session)
    ensures var n, p, t := ConsulName(prefix, step.key), Parent(step.key), View(prefix, s);
      var r := Run(Plan(prefix, session, step), s, index);
      var item := Item(step.value, index, if step.lease then session else "");
      if p != [] && p !in t then r == Aborted(0)
      else if step.key in t then r == Aborted(if p == [] then 0 else 1)
      else
        && r.Done?
        && r.store == s[n := item]
        && |r.results| == |Kinds(step)|
        && r.results[|r.results| - 1] == item
        && Extract(Kinds(step), r.results) == [Answer(CREATE, index)]
  {
    hide ConsulName, View, Run, Extract;
    ViewIs(prefix, s);
    var plan := Plan(prefix, session, step);
    var item := Item(step.value, index, if step.lease then session else "");
    if Parent(step.key) == [] {
      assert plan == [plan[0], plan[1]];
      Run2(plan[0], plan[1], s, index);
      ExtractOne(RkCreate, item);
      assert [] + [item] == [item] && Kinds(step) == [RkCreate];
    } else {
      assert plan == [plan[0], plan[1], plan[2]];
      Run3(plan[0], plan[1], plan[2], s, index);
      if Parent(step.key) in View(prefix, s) {
        var above := s[ConsulName(prefix, Parent(step.key))];
        ExtractTwo(RkAux, above, RkCreate, item);
        assert [above] + [] + [item] == [above, item];
        assert Kinds(step) == [RkAux, RkCreate];
      }
    }
  }

  lemma CreateFaithful(prefix: Path, session: string, step: Step, s: Store, index: int)
    requires step.Create? && SessionReady(step, session)
    ensures Faithful(prefix, session, step, s, index)
  {
    hide ConsulName, View, Run, Extract;
    ViewIs(prefix, s);
    CreateRuns(prefix, session, step, s, index);
    var item := Item(step.value, index, if step.lease then session else "");
    ViewPut(prefix, s, step.key, item);
  }

  lemma StepFaithful(prefix: Path, session: string, step: Step, s: Store, index: int)
    requires SessionReady(step, session)
    ensures Faithful(prefix, session, step, s, index)
  {
    hide Faithful;
    match step {
      case Check(_, _) => CheckFaithful(prefix, session, step, s, index);
      case Create(_, _, _) => CreateFaithful(prefix, session, step, s, index);
      case Set(_, _) => SetFaithful(prefix, session, step, s, index);
      case Erase(_) => EraseFaithful(prefix, session, step, s, index);
    }
  }

  // ---------- whole transactions ----------

  /** Every position recorded is below the length of the compiled list, and they increase:
      each step owns at least one raw operation. */
  lemma {:induction false} BoundsIncrease(prefix: Path, session: string, steps: seq<Step>)
    ensures var b := Bounds(prefix, session, steps);
      && |b| == |steps| && StrictlyIncreasing(b)
      && (forall i :: 0 <= i < |b| ==> 0 <= b[i] < |Compile(prefix, session, steps)|)
      && (b != [] ==> b[|b| - 1] == |Compile(prefix, session, steps)| - 1)
  {
    if steps != [] {
      hide Plan;
      BoundsIncrease(prefix, session, steps[..|steps| - 1]);
    }
  }

  predicate AllSessionReady(steps: seq<Step>, session: string) {
    forall i :: 0 <= i < |steps| ==> SessionReady(steps[i], session)
  }

  lemma SessionsReady(steps: seq<Step>, session: string)
    requires session != ""
    ensures AllSessionReady(steps, session)
  {
  }

  /** The compiled transaction commits exactly when the fold does, with the same tree and the
      same answers; when it aborts, searching the boundaries gives the fold's failing step. */
  ghost predicate Exact(prefix: Path, session: string, steps: seq<Step>, s: Store, index: int) {
    match Run(Compile(prefix, session, steps), s, index)
    case Aborted(i) =>
      Fold(ConsulRules(index), steps, View(prefix, s)) ==
      Failed(LowerBound(Bounds(prefix, session, steps), i))
    case Done(u, results) =>
      && |results| == |AllKinds(steps)|
      && Fold(ConsulRules(index), steps, View(prefix, s)) ==
         Committed(View(prefix, u), Extract(AllKinds(steps), results))
  }

  lemma {:induction false} CommitExact(prefix: Path, session: string, steps: seq<Step>, s: Store, index: int)
    requires AllSessionReady(steps, session)
    ensures Exact(prefix, session, steps, s, index)
  {
    hide View, Plan, Kinds, Accepts, Apply, Answers;
    if steps != [] {
      var init, last := steps[..|steps| - 1], steps[|steps| - 1];
      CommitExact(prefix, session, init, s, index);
      CommitStep(prefix, session, init, last, s, index);
      assert init + [last] == steps;
    }
  }

  lemma CompileLast(prefix: Path, session: string, init: seq<Step>, last: Step)
    ensures var steps := init + [last];
      && Compile(prefix, session, steps) == Compile(prefix, session, init) + Plan(prefix, session, last)
      && AllKinds(steps) == AllKinds(init) + Kinds(last)
      && Bounds(prefix, session, steps) == Bounds(prefix, session, init) + [|Compile(prefix, session, steps)| - 1]
  {
    hide Plan, Kinds;
    assert (init + [last])[..|init|] == init;
  }

  lemma CommitStep(prefix: Path, session: string, init: seq<Step>, last: Step, s: Store, index: int)
    requires Exact(prefix, session, init, s, index) && SessionReady(last, session)
    ensures Exact(prefix, session, init + [last], s, index)
  {
    hide View, Plan, Kinds, Accepts, Apply, Answers, Run, Extract, LowerBound,
      Compile, AllKinds, Bounds, Fold, StrictlyIncreasing;
    var steps := init + [last];
    var head, tail := Compile(prefix, session, init), Plan(prefix, session, last);
    CompileLast(prefix, session, init, last);
    FoldLast(ConsulRules(index), init, last, View(prefix, s));
    RunConcat(head, tail, s, index);
    BoundsIncrease(prefix, session, init);
    BoundsIncrease(prefix, session, steps);
    match Run(head, s, index) {
      case Aborted(i) =>
        LowerBoundAppend(Bounds(prefix, session, init), |head| + |tail| - 1, i);
      case Done(u, results) =>
        StepFaithful(prefix, session, last, u, index);
        match Run(tail, u, index) {
          case Aborted(j) =>
            LowerBoundAppend(Bounds(prefix, session, init), |head| + |tail| - 1, |head| + j);
          case Done(w, more) =>
            ExtractConcat(AllKinds(init), results, Kinds(last), more);
        }
    }
  }

  // ---------- single operations ----------

  /** What a client reports of a committed run that ends in a write. */
  function LastIndex(results: seq<Item>): int
    requires results != []
  {
    results[|results| - 1].modifyIndex
  }

  lemma CreateExact(prefix: Path, session: string, k: Key, v: string, lease: bool, s: Store, index: int)
    requires lease ==> session != ""
    requires Closed(ConsulRules(index), View(prefix, s))
    ensures var t := View(prefix, s);
      var spec := CreateSpec(ConsulRules(index), t, k, v, lease);
      match Run(Plan(prefix, session, Create(k, v, lease)), s, index)
      case Done(u, results) => results != [] && spec == (View(prefix, u), Ok(LastIndex(results)))
      case Aborted(i) =>
        spec == (t, Err(if Parent(k) != [] && i == 0 then NoEntry else EntryExists))
        && (i == 0 || (i == 1 && Parent(k) != []))
  {
    hide ConsulName, View, Run, Plan;
    CreateRuns(prefix, session, Create(k, v, lease), s, index);
    ViewPut(prefix, s, k, Item(v, index, if lease then session else ""));
    assert k in View(prefix, s) ==> ParentReady(ConsulRules(index), View(prefix, s), k);
  }

  function SetPlan(prefix: Path, k: Key, v: string): seq<KvOp> {
    GetParent(prefix, k) + [KvSet(ConsulName(prefix, k), v)]
  }

  lemma SetExact(prefix: Path, k: Key, v: string, s: Store, index: int)
    requires Closed(ConsulRules(index), View(prefix, s))
    ensures var t := View(prefix, s);
      var spec := SetSpec(ConsulRules(index), t, k, v);
      match Run(SetPlan(prefix, k, v), s, index)
      case Done(u, results) => results != [] && spec == (View(prefix, u), Ok(LastIndex(results)))
      case Aborted(i) => spec == (t, Err(NoEntry))
  {
    hide ConsulName, View, Run;
    ViewIs(prefix, s);
    var t, n := View(prefix, s), ConsulName(prefix, k);
    var write := KvSet(n, v);
    var item := Effect(write, s, index)[n];
    ViewPut(prefix, s, k, item);
    assert k in t ==> ParentReady(ConsulRules(index), t, k);
    if Parent(k) == [] {
      assert SetPlan(prefix, k, v) == [write];
      Run1(write, s, index);
    } else {
      var get := KvGet(ConsulName(prefix, Parent(k)));
      assert SetPlan(prefix, k, v) == [get, write];
      Run2(get, write, s, index);
    }
  }

  function CasPlan(prefix: Path, k: Key, v: string, version: int): seq<KvOp> {
    [KvGet(ConsulName(prefix, k)), KvCompareSet(ConsulName(prefix, k), version, v)]
  }

  lemma CasExact(prefix: Path, k: Key, v: string, version: int, s: Store, index: int)
    requires version != 0
    ensures var t := View(prefix, s);
      var spec := CasSpec(ConsulRules(index), t, k, v, version);
      match Run(CasPlan(prefix, k, v, version), s, index)
      case Done(u, results) => results != [] && spec == (View(prefix, u), Ok(LastIndex(results)))
      case Aborted(i) => spec == (t, if i == 0 then Err(NoEntry) else Ok(0))
  {
    hide ConsulName, View, Run;
    ViewIs(prefix, s);
    var plan, n := CasPlan(prefix, k, v, version), ConsulName(prefix, k);
    Run2(plan[0], plan[1], s, index);
    if n in s {
      ViewPut(prefix, s, k, Effect(plan[1], s, index)[n]);
    }
  }

  function ErasePlan(prefix: Path, k: Key, version: int): seq<KvOp> {
    var n := ConsulName(prefix, k);
    [KvGet(n), if version != 0 then KvCompareErase(n, version) else KvErase(n), KvEraseAll(n + "/")]
  }

  lemma EraseExact(prefix: Path, k: Key, version: int, s: Store, index: int)
    ensures var t := View(prefix, s);
      var spec := EraseSpec(t, k, version);
      match Run(ErasePlan(prefix, k, version), s, index)
      case Done(u, results) => spec == (View(prefix, u), Ok(0))
      case Aborted(i) => spec == (t, if i == 0 then Err(NoEntry) else Ok(0))
  {
    hide ConsulName, View, Run;
    ViewIs(prefix, s);
    var plan := ErasePlan(prefix, k, version);
    Run3(plan[0], plan[1], plan[2], s, index);
    ViewErase(prefix, s, k, index);
  }

  // ---------- what a call leaves alone ----------

  /** The step may change what is stored under the name. */
  predicate Reaches(prefix: Path, step: Step, name: string) {
    var n := ConsulName(prefix, step.key);
    ((step.Create? || step.Set?) && name == n) || (step.Erase? && (name == n || n + "/" <= name))
  }

  /** Only names that some step reaches have changed: nothing outside the client's prefix has. */
  ghost predicate OnlyReached(prefix: Path, steps: seq<Step>, s: Store, u: Store) {
    forall name :: NotReached(prefix, steps, name) ==> SameAt(s, u, name)
  }

  ghost predicate NotReached(prefix: Path, steps: seq<Step>, name: string) {
    forall i :: 0 <= i < |steps| ==> !Reaches(prefix, steps[i], name)
  }

  lemma PlanFrame(prefix: Path, session: string, step: Step, name: string)
    requires !Reaches(prefix, step, name)
    ensures Untouched(Plan(prefix, session, step), name)
  {
    hide ConsulName;
  }

  lemma {:induction false} CompileFrame(prefix: Path, session: string, steps: seq<Step>, name: string)
    requires NotReached(prefix, steps, name)
    ensures Untouched(Compile(prefix, session, steps), name)
  {
    if steps != [] {
      hide Plan;
      var n := |steps| - 1;
      CompileFrame(prefix, session, steps[..n], name);
      PlanFrame(prefix, session, steps[n], name);
    }
  }

  lemma CommitFrame(prefix: Path, session: string, steps: seq<Step>, s: Store, index: int)
    requires Run(Compile(prefix, session, steps), s, index).Done?
    ensures OnlyReached(prefix, steps, s, Run(Compile(prefix, session, steps), s, index).store)
  {
    hide Run, Compile, SameAt, Untouched;
    forall name | NotReached(prefix, steps, name)
      ensures SameAt(s, Run(Compile(prefix, session, steps), s, index).store, name)
    {
      CompileFrame(prefix, session, steps, name);
      RunFrame(Compile(prefix, session, steps), s, index, name);
    }
  }

  /** The same for a list that touches nothing but what the step reaches. */
  lemma SingleFrame(prefix: Path, step: Step, ops: seq<KvOp>, s: Store, index: int)
    requires forall name :: !Reaches(prefix, step, name) ==> Untouched(ops, name)
    requires Run(ops, s, index).Done?
    ensures OnlyReached(prefix, [step], s, Run(ops, s, index).store)
  {
    hide Run, SameAt, Reaches, Untouched;
    forall name | NotReached(prefix, [step], name)
      ensures SameAt(s, Run(ops, s, index).store, name)
    {
      assert [step][0] == step;
      RunFrame(ops, s, index, name);
    }
  }

  lemma CreateFrame(prefix: Path, session: string, step: Step, s: Store, index: int)
    ensures var r := Run(Plan(prefix, session, step), s, index); r.Done? ==> OnlyReached(prefix, [step], s, r.store)
  {
    hide Run, Plan, Reaches, OnlyReached, Untouched;
    if Run(Plan(prefix, session, step), s, index).Done? {
      forall name | !Reaches(prefix, step, name)
        ensures Untouched(Plan(prefix, session, step), name)
      {
        PlanFrame(prefix, session, step, name);
      }
      SingleFrame(prefix, step, Plan(prefix, session, step), s, index);
    }
  }

  lemma SetFrame(prefix: Path, k: Key, v: string, s: Store, index: int)
    ensures var r := Run(SetPlan(prefix, k, v), s, index); r.Done? ==> OnlyReached(prefix, [Set(k, v)], s, r.store)
  {
    hide Run, ConsulName, OnlyReached;
    if Run(SetPlan(prefix, k, v), s, index).Done? {
      SingleFrame(prefix, Set(k, v), SetPlan(prefix, k, v), s, index);
    }
  }

  lemma CasFrame(prefix: Path, k: Key, v: string, version: int, s: Store, index: int)
    ensures var r := Run(CasPlan(prefix, k, v, version), s, index);
      r.Done? ==> OnlyReached(prefix, [Set(k, v)], s, r.store)
  {
    hide Run, ConsulName, OnlyReached;
    if Run(CasPlan(prefix, k, v, version), s, index).Done? {
      SingleFrame(prefix, Set(k, v), CasPlan(prefix, k, v, version), s, index);
    }
  }

  lemma EraseFrame(prefix: Path, k: Key, version: int, s: Store, index: int)
    ensures var r := Run(ErasePlan(prefix, k, version), s, index);
      r.Done? ==> OnlyReached(prefix, [Erase(k)], s, r.store)
  {
    hide Run, ConsulName, OnlyReached;
    if Run(ErasePlan(prefix, k, version), s, index).Done? {
      SingleFrame(prefix, Erase(k), ErasePlan(prefix, k, version), s, index);
    }
  }

  lemma NothingReached(prefix: Path, steps: seq<Step>, s: Store)
    ensures OnlyReached(prefix, steps, s, s)
  {
  }

  /** A create and a set of the same key reach the same name. */
  lemma SameReach(prefix: Path, k: Key, v: string, lease: bool, s: Store, u: Store)
    ensures OnlyReached(prefix, [Create(k, v, lease)], s, u) <==> OnlyReached(prefix, [Set(k, v)], s, u)
  {
    hide ConsulName, SameAt;
    forall name
      ensures NotReached(prefix, [Create(k, v, lease)], name) <==> NotReached(prefix, [Set(k, v)], name)
    {
      assert [Create(k, v, lease)][0].key == [Set(k, v)][0].key;
    }
  }

  // ---------- sessions ----------

  /** What a step that goes through does to the session of a key: a create sets it, anything but
      an erase of the key leaves it. */
  lemma StepSessions(prefix: Path, session: string, step: Step, s: Store, index: int, k: Key)
    requires SessionReady(step, session) && Run(Plan(prefix, session, step), s, index).Done?
    ensures var n, u := ConsulName(prefix, k), Run(Plan(prefix, session, step), s, index).store;
      if step.Create? && step.key == k then
        n !in s && n in u && u[n].session == if step.lease then session else ""
      else n in s && !EraseOver(step, k) ==> n in u && u[n].session == s[n].session
  {
    hide ConsulName, Run, View;
    var n := ConsulName(prefix, k);
    ViewIs(prefix, s);
    ConsulStore.NameBelow(prefix, step.key);
    if step.Create? && step.key == k {
      CreateRuns(prefix, session, step, s, index);
    } else if step.Set? && step.key == k {
      var plan := Plan(prefix, session, step);
      Run2(plan[0], plan[1], s, index);
    } else if !EraseOver(step, k) {
      StepNotReached(prefix, step, k);
      PlanFrame(prefix, session, step, n);
      RunFrame(Plan(prefix, session, step), s, index, n);
    }
  }

  lemma StepNotReached(prefix: Path, step: Step, k: Key)
    requires !EraseOver(step, k) && ((step.Create? || step.Set?) ==> step.key != k)
    ensures !Reaches(prefix, step, ConsulName(prefix, k))
  {
    ConsulStore.NameBelow(prefix, step.key);
    hide ConsulName;
    if ConsulName(prefix, k) == ConsulName(prefix, step.key) {
      ConsulInjective(prefix, k, step.key);
    }
  }

  /** Created by step `i` and not erased by a later one. */
  predicate CreatedToStay(steps: seq<Step>, i: nat)
    requires i < |steps|
  {
    steps[i].Create? && forall j :: i < j < |steps| ==> !EraseOver(steps[j], steps[i].key)
  }

  /** Every key created to stay is bound to the session if it was to be leased, and else to none. */
  ghost predicate SessionsBound(prefix: Path, session: string, steps: seq<Step>, u: Store) {
    forall i :: 0 <= i < |steps| && CreatedToStay(steps, i) ==>
      var n := ConsulName(prefix, steps[i].key);
      n in u && u[n].session == if steps[i].lease then session else ""
  }

  lemma {:induction false} CommitSessions(prefix: Path, session: string, steps: seq<Step>, s: Store, index: int, i: nat)
    requires AllSessionReady(steps, session) && Run(Compile(prefix, session, steps), s, index).Done?
    requires i < |steps| && CreatedToStay(steps, i)
    ensures var n, u := ConsulName(prefix, steps[i].key), Run(Compile(prefix, session, steps), s, index).store;
      n in u && u[n].session == if steps[i].lease then session else ""
    decreases |steps|
  {
    hide ConsulName, Run, Plan, Compile;
    var n := |steps| - 1;
    var init, last := steps[..n], steps[n];
    assert steps == init + [last];
    CompileLast(prefix, session, init, last);
    RunConcat(Compile(prefix, session, init), Plan(prefix, session, last), s, index);
    var u := Run(Compile(prefix, session, init), s, index).store;
    StepSessions(prefix, session, last, u, index, steps[i].key);
    if i < n {
      assert forall j :: 0 <= j < n ==> init[j] == steps[j];
      CommitSessions(prefix, session, init, s, index, i);
    }
  }

  lemma CommitBinds(prefix: Path, session: string, kept: string, steps: seq<Step>, s: Store, index: int)
    requires AllSessionReady(steps, session) && Run(Compile(prefix, session, steps), s, index).Done?
    requires AnyLeased(steps) ==> kept == session
    ensures SessionsBound(prefix, kept, steps, Run(Compile(prefix, session, steps), s, index).store)
  {
    hide ConsulName, Run, Compile;
    forall i | 0 <= i < |steps| && CreatedToStay(steps, i)
      ensures var n, u := ConsulName(prefix, steps[i].key), Run(Compile(prefix, session, steps), s, index).store;
        n in u && u[n].session == if steps[i].lease then kept else ""
    {
      CommitSessions(prefix, session, steps, s, index, i);
      assert steps[i].lease ==> Leased(steps[i]);
    }
  }

  ghost predicate BoundTo(prefix: Path, k: Key, session: string, u: Store) {
    var n := ConsulName(prefix, k);
    n in u && u[n].session == session
  }

  lemma CreateBinds(prefix: Path, session: string, step: Step, s: Store, index: int)
    requires step.Create? && (step.lease ==> session != "")
    ensures var r := Run(Plan(prefix, session, step), s, index);
      r.Done? ==> BoundTo(prefix, step.key, if step.lease then session else "", r.store)
  {
    hide ConsulName, Run, Plan;
    if Run(Plan(prefix, session, step), s, index).Done? {
      StepSessions(prefix, session, step, s, index, step.key);
    }
  }

  lemma LeasedIs(k: Key, v: string, lease: bool)
    ensures Leased(Create(k, v, lease)) == lease
  {
  }
}
