/** The ZooKeeper client's `erase` and `commit`: build a multi-operation from scans, try it,
    and start over when something other than a user operation failed. */
module ZkCommit {
  import opened Errors
  import opened Keys
  import opened Tree
  import opened Boundaries
  import opened ZkStore
  import opened ZkErase

  /** Versions are one higher than ZooKeeper's; zero asks for existence only. */
  function ZVersion(version: int): int {
    if version != 0 then version - 1 else ANY_VERSION
  }

  function Plan(prefix: Path, step: Step, scan: Scan): seq<ZOp> {
    var p := prefix + step.key;
    match step
    case Check(_, version) => [ZCheck(p, ZVersion(version))]
    case Create(_, v, lease) => [ZCreate(p, v, lease)]
    case Set(_, v) => [ZSet(p, v, ANY_VERSION)]
    case Erase(_) => Erases(Query(p, true, scan))
  }

  function Compile(prefix: Path, steps: seq<Step>, scans: seq<Scan>): seq<ZOp>
    requires |scans| == |steps|
  {
    if steps == [] then []
    else
      var n := |steps| - 1;
      Compile(prefix, steps[..n], scans[..n]) + Plan(prefix, steps[n], scans[n])
  }

  function Bounds(prefix: Path, steps: seq<Step>, scans: seq<Scan>): seq<int>
    requires |scans| == |steps|
  {
    if steps == [] then []
    else
      var n := |steps| - 1;
      Bounds(prefix, steps[..n], scans[..n]) + [|Compile(prefix, steps, scans)| - 1]
  }

  /** The user-visible results: one entry per create and set. */
  function Collect(results: seq<ZResult>): seq<Answer> {
    if results == [] then []
    else
      Collect(results[..|results| - 1]) +
      match results[|results| - 1]
      case WasSet(version) => [Answer(SET, version + 1)]
      case Created => [Answer(CREATE, 1)]
      case _ => []
  }

  lemma {:induction false} CollectConcat(a: seq<ZResult>, b: seq<ZResult>)
    ensures Collect(a + b) == Collect(a) + Collect(b)
  {
    if b == [] {
      assert a + b == a;
    } else {
      CollectConcat(a, b[..|b| - 1]);
      assert (a + b)[..|a + b| - 1] == a + b[..|b| - 1];
    }
  }

  lemma {:induction false} ErasesCollectNothing(paths: seq<ZPath>, z: ZStore)
    ensures var r := ZRun(Erases(paths), z); r.ZDone? ==> Collect(r.results) == []
  {
    if paths != [] {
      var init, last := paths[..|paths| - 1], paths[|paths| - 1];
      assert paths == init + [last];
      ErasesConcat(init, [last]);
      assert Erases([last]) == [ZErase(last)];
      ZRunSnoc(Erases(init), ZErase(last), z);
      ErasesCollectNothing(init, z);
      if ZRun(Erases(paths), z).ZDone? {
        CollectConcat(ZRun(Erases(init), z).results, [Erased]);
        assert Collect([Erased]) == Collect([]) + [];
      }
    }
  }

  // ---------- one step ----------

  /** A step's raw operations either do what the step does to the tree, or fail; only an erase
      can fail although the step is acceptable. */
  ghost predicate Sound(prefix: Path, step: Step, scan: Scan, z: ZStore) {
    var r, t := ZRun(Plan(prefix, step, scan), z), View(prefix, z);
    match r
    case ZDone(u, results) =>
      && Accepts(ZK_RULES, step, t)
      && View(prefix, u) == Apply(ZK_RULES, step, t)
      && Collect(results) == Answers(ZK_RULES, step, t)
      && Serves(prefix, u)
    case ZAborted(i) => step.Erase? || !Accepts(ZK_RULES, step, t)
  }

  lemma CheckSound(prefix: Path, step: Step, scan: Scan, z: ZStore)
    requires Serves(prefix, z) && step.Check?
    ensures Sound(prefix, step, scan, z)
  {
    hide View, ZRun, ZClosed;
    ZRunOne(Plan(prefix, step, scan)[0], z);
    ViewIs(prefix, z);
    CollectOne(Checked);
  }

  lemma SetSound(prefix: Path, step: Step, scan: Scan, z: ZStore)
    requires Serves(prefix, z) && step.Set?
    ensures Sound(prefix, step, scan, z)
  {
    hide View, ZRun, ZClosed;
    var p, op := prefix + step.key, Plan(prefix, step, scan)[0];
    ZRunOne(op, z);
    ViewIs(prefix, z);
    if p in z {
      ZEffectKeepsClosed(op, z);
      ViewPut(prefix, z, step.key, ZNode(step.value, z[p].version + 1, z[p].ephemeral));
      CollectOne(WasSet(z[p].version + 1));
    }
  }

  lemma CreateSound(prefix: Path, step: Step, scan: Scan, z: ZStore)
    requires Serves(prefix, z) && step.Create?
    ensures Sound(prefix, step, scan, z)
  {
    hide View, ZRun, ZClosed;
    var k, op := step.key, Plan(prefix, step, scan)[0];
    ZRunOne(op, z);
    CreatePasses(prefix, k, z);
    if ZPasses(op, z) {
      ZEffectKeepsClosed(op, z);
      ViewPut(prefix, z, k, ZNode(step.value, 0, step.lease));
      CollectOne(Created);
    }
  }

  lemma CreatePasses(prefix: Path, k: Key, z: ZStore)
    requires Serves(prefix, z)
    ensures var p, t := prefix + k, View(prefix, z);
      && p != [] && p != prefix
      && (p !in z <==> k !in t)
      && (Parent(p) in z && !z[Parent(p)].ephemeral <==> ParentReady(ZK_RULES, t, k))
  {
    hide View, ZClosed;
    ViewIs(prefix, z);
    assert Parent(prefix + k) == prefix + Parent(k);
    assert Parent(k) == [] ==> prefix + Parent(k) == prefix;
  }

  lemma CollectOne(result: ZResult)
    ensures Collect([result]) ==
      match result
      case WasSet(version) => [Answer(SET, version + 1)]
      case Created => [Answer(CREATE, 1)]
      case _ => []
  {
    assert Collect([]) == [];
  }

  lemma EraseSound(prefix: Path, step: Step, scan: Scan, z: ZStore)
    requires Serves(prefix, z) && step.Erase?
    ensures Sound(prefix, step, scan, z)
  {
    hide View, ZRun, Query, ZClosed, Collect;
    var root := prefix + step.key;
    var ops := Erases(Query(root, true, scan));
    if ZRun(ops, z).ZDone? {
      EraseGroup(root, scan, z);
      ErasesCollectNothing(Query(root, true, scan), z);
      ZRunKeepsClosed(ops, z);
      ViewErase(prefix, z, step.key);
      ViewIs(prefix, z);
      assert !(root <= prefix);
    }
  }

  lemma StepSound(prefix: Path, step: Step, scan: Scan, z: ZStore)
    requires Serves(prefix, z)
    ensures Sound(prefix, step, scan, z)
  {
    hide Sound;
    match step {
      case Check(_, _) => CheckSound(prefix, step, scan, z);
      case Create(_, _, _) => CreateSound(prefix, step, scan, z);
      case Set(_, _) => SetSound(prefix, step, scan, z);
      case Erase(_) => EraseSound(prefix, step, scan, z);
    }
  }

  lemma PlanLength(prefix: Path, step: Step, scan: Scan)
    ensures 1 <= |Plan(prefix, step, scan)|
    ensures !step.Erase? ==> |Plan(prefix, step, scan)| == 1
  {
    if step.Erase? {
      QueryUnder(prefix + step.key, true, scan);
    }
  }

  // ---------- whole transactions ----------

  /** Boundaries strictly increase and end at the last raw operation. */
  lemma {:induction false} BoundsIncrease(prefix: Path, steps: seq<Step>, scans: seq<Scan>)
    requires |scans| == |steps|
    ensures var b := Bounds(prefix, steps, scans);
      && |b| == |steps| && StrictlyIncreasing(b)
      && (forall i :: 0 <= i < |b| ==> 0 <= b[i] < |Compile(prefix, steps, scans)|)
      && (b != [] ==> b[|b| - 1] == |Compile(prefix, steps, scans)| - 1)
      && (b == [] ==> Compile(prefix, steps, scans) == [])
  {
    if steps != [] {
      var n := |steps| - 1;
      BoundsIncrease(prefix, steps[..n], scans[..n]);
      PlanLength(prefix, steps[n], scans[n]);
      hide Plan;
    }
  }

  /** The step that owns a raw operation. */
  function Owner(prefix: Path, steps: seq<Step>, scans: seq<Scan>, i: nat): (u: nat)
    requires |scans| == |steps|
  {
    LowerBound(Bounds(prefix, steps, scans), i)
  }

  /** What a run of the compiled transaction says about the fold on the store it ran on. */
  ghost predicate RunSound(prefix: Path, steps: seq<Step>, scans: seq<Scan>, z: ZStore)
    requires |scans| == |steps|
  {
    match ZRun(Compile(prefix, steps, scans), z)
    case ZDone(u, results) =>
      && Fold(ZK_RULES, steps, View(prefix, z)) == Committed(View(prefix, u), Collect(results))
      && Serves(prefix, u)
    case ZAborted(i) =>
      var u := Owner(prefix, steps, scans, i);
      && u < |steps| == |Bounds(prefix, steps, scans)|
      && Fold(ZK_RULES, steps[..u], View(prefix, z)).Committed?
      && (!steps[u].Erase? ==>
            Fold(ZK_RULES, steps, View(prefix, z)) == Failed(u) && Bounds(prefix, steps, scans)[u] == i)
  }

  /** Any scans, any store: a run that goes through is the fold; a run that fails names the
      step it failed in, everything before that step would have been accepted, and a check,
      create or set that failed is the fold's first failure. */
  lemma {:induction false} CompiledSound(prefix: Path, steps: seq<Step>, scans: seq<Scan>, z: ZStore)
    requires |scans| == |steps| && Serves(prefix, z)
    ensures RunSound(prefix, steps, scans, z)
  {
    if steps == [] {
      assert Fold(ZK_RULES, steps, View(prefix, z)) == Committed(View(prefix, z), []);
    } else {
      var n := |steps| - 1;
      CompiledSound(prefix, steps[..n], scans[..n], z);
      RunStep(prefix, steps, scans, z);
    }
  }

  lemma RunStep(prefix: Path, steps: seq<Step>, scans: seq<Scan>, z: ZStore)
    requires |scans| == |steps| > 0
    requires RunSound(prefix, steps[..|steps| - 1], scans[..|steps| - 1], z)
    requires Serves(prefix, z)
    ensures RunSound(prefix, steps, scans, z)
  {
    hide View, Plan, Accepts, Apply, Answers, ZRun, Collect, LowerBound, Serves,
      Compile, Fold, StrictlyIncreasing, Bounds;
    var n := |steps| - 1;
    var init, earlier, last := steps[..n], scans[..n], steps[n];
    var head, tail := Compile(prefix, init, earlier), Plan(prefix, last, scans[n]);
    CompileLast(prefix, steps, scans);
    assert steps == init + [last];
    FoldLast(ZK_RULES, init, last, View(prefix, z));
    ZRunConcat(head, tail, z);
    BoundsIncrease(prefix, init, earlier);
    PlanLength(prefix, last, scans[n]);
    match ZRun(head, z) {
      case ZAborted(i) =>
        LowerBoundAppend(Bounds(prefix, init, earlier), |head| + |tail| - 1, i);
        var u := Owner(prefix, init, earlier, i);
        assert init[..u] == steps[..u];
      case ZDone(u, results) =>
        StepSound(prefix, last, scans[n], u);
        match ZRun(tail, u) {
          case ZAborted(j) =>
            LowerBoundAppend(Bounds(prefix, init, earlier), |head| + |tail| - 1, |head| + j);
          case ZDone(w, more) =>
            CollectConcat(results, more);
        }
    }
  }

  lemma CompileLast(prefix: Path, steps: seq<Step>, scans: seq<Scan>)
    requires |scans| == |steps| > 0
    ensures var n := |steps| - 1;
      && Compile(prefix, steps, scans) == Compile(prefix, steps[..n], scans[..n]) + Plan(prefix, steps[n], scans[n])
      && Bounds(prefix, steps, scans) ==
         Bounds(prefix, steps[..n], scans[..n]) + [|Compile(prefix, steps, scans)| - 1]
  {
    hide Plan;
  }

  // ---------- rounds ----------

  datatype Verdict = Returned(answers: seq<Answer>, store: ZStore) | Threw(index: nat) | Retry

  /** One round of `commit`: the scans it made, and the store its multi-operation met. */
  datatype Round = Round(scans: seq<Scan>, store: ZStore)

  function Attempt(prefix: Path, steps: seq<Step>, round: Round): Verdict
    requires |round.scans| == |steps|
  {
    match ZRun(Compile(prefix, steps, round.scans), round.store)
    case ZDone(u, results) => Returned(Collect(results), u)
    case ZAborted(i) =>
      var b := Bounds(prefix, steps, round.scans);
      var u := LowerBound(b, i);
      if u < |b| && b[u] == i then Threw(u) else Retry
  }

  /** Only the last raw operation of the step fails on `w`. */
  ghost predicate FailsAtLast(prefix: Path, step: Step, scan: Scan, w: ZStore) {
    if step.Erase? then StopsAtTarget(prefix + step.key, scan, w) else !Accepts(ZK_RULES, step, View(prefix, w))
  }

  /** The steps before `u` go through, and step `u` then fails at its last raw operation. */
  ghost predicate ReachedAndFails(prefix: Path, steps: seq<Step>, round: Round, u: nat)
    requires |round.scans| == |steps|
  {
    && u < |steps|
    && var r := ZRun(Compile(prefix, steps[..u], round.scans[..u]), round.store);
       r.ZDone? && FailsAtLast(prefix, steps[u], round.scans[u], r.store)
  }

  /** The fold up to step `u` goes through. A check, create or set that is blamed is the fold's
      first failure. An erase that is blamed is the fold's first failure if its target is missing
      in the tree reached; otherwise the target has a child that the scan did not list. */
  ghost predicate BlamedOn(prefix: Path, steps: seq<Step>, round: Round, u: nat)
    requires |round.scans| == |steps|
  {
    var t := View(prefix, round.store);
    && u < |steps|
    && Fold(ZK_RULES, steps[..u], t).Committed?
    && (Fold(ZK_RULES, steps, t) == Failed(u) ||
        (steps[u].Erase? && ChildAppeared(prefix, steps, round, u)))
  }

  ghost predicate ChildAppeared(prefix: Path, steps: seq<Step>, round: Round, u: nat)
    requires |round.scans| == |steps| && u < |steps|
  {
    var r, target := ZRun(Compile(prefix, steps[..u], round.scans[..u]), round.store), prefix + steps[u].key;
    r.ZDone? && target in r.store && UnlistedChild(target, round.scans[u], r.store)
  }

  /** The raw operation that failed erases a node strictly below the target of an erase that the
      fold reaches. */
  ghost predicate RetriedBelowErase(prefix: Path, steps: seq<Step>, round: Round)
    requires |round.scans| == |steps|
  {
    var r := ZRun(Compile(prefix, steps, round.scans), round.store);
    && r.ZAborted?
    && exists u :: 0 <= u < |steps| && ReachedErase(steps, View(prefix, round.store), u) &&
         ErasesBelow(Compile(prefix, steps, round.scans)[r.index], prefix + steps[u].key)
  }

  ghost predicate ReachedErase(steps: seq<Step>, t: Tree, u: nat)
    requires u < |steps|
  {
    steps[u].Erase? && Fold(ZK_RULES, steps[..u], t).Committed?
  }

  predicate ErasesBelow(op: ZOp, target: ZPath) {
    op.ZErase? && target < op.path
  }

  ghost predicate VerdictSound(prefix: Path, steps: seq<Step>, round: Round, v: Verdict)
    requires |round.scans| == |steps|
  {
    var t := View(prefix, round.store);
    match v
    case Returned(answers, u) => Fold(ZK_RULES, steps, t) == Committed(View(prefix, u), answers) && Serves(prefix, u)
    case Threw(u) => BlamedOn(prefix, steps, round, u)
    case Retry => RetriedBelowErase(prefix, steps, round)
  }

  /** A round throws at a step exactly when the steps before it go through and it fails at its
      last raw operation, on the store they leave. */
  lemma ThrowsExactly(prefix: Path, steps: seq<Step>, round: Round, u: nat)
    requires |round.scans| == |steps| && Serves(prefix, round.store)
    ensures Attempt(prefix, steps, round) == Threw(u) <==> ReachedAndFails(prefix, steps, round, u)
  {
    hide *;
    ThrowIs(prefix, steps, round, u);
    if u < |steps| {
      AbortsExactly(prefix, steps, round.scans, round.store, u);
      FailsIs(prefix, steps, round, u);
    } else {
      TooFar(prefix, steps, round, u);
    }
  }

  /** The run stops at the last raw operation of step `u`. */
  ghost predicate AbortsAt(prefix: Path, steps: seq<Step>, scans: seq<Scan>, z: ZStore, u: nat)
    requires |scans| == |steps|
  {
    var b, r := Bounds(prefix, steps, scans), ZRun(Compile(prefix, steps, scans), z);
    r.ZAborted? && u < |b| && b[u] == r.index
  }

  lemma ThrowIs(prefix: Path, steps: seq<Step>, round: Round, u: nat)
    requires |round.scans| == |steps|
    ensures Attempt(prefix, steps, round) == Threw(u) <==> AbortsAt(prefix, steps, round.scans, round.store, u)
  {
    hide ZRun, Compile, Bounds, LowerBound;
    BoundsIncrease(prefix, steps, round.scans);
  }

  lemma TooFar(prefix: Path, steps: seq<Step>, round: Round, u: nat)
    requires |round.scans| == |steps| && u >= |steps|
    ensures !AbortsAt(prefix, steps, round.scans, round.store, u) && !ReachedAndFails(prefix, steps, round, u)
  {
    hide ZRun, Compile, Bounds;
    BoundsIncrease(prefix, steps, round.scans);
  }

  lemma FailsIs(prefix: Path, steps: seq<Step>, round: Round, u: nat)
    requires |round.scans| == |steps| && u < |steps|
    ensures var r := ZRun(Compile(prefix, steps[..u], round.scans[..u]), round.store);
      ReachedAndFails(prefix, steps, round, u) <==>
        r.ZDone? && FailsAtLast(prefix, steps[u], round.scans[u], r.store)
  {
    hide ZRun, Compile, FailsAtLast;
  }

  lemma {:induction false} AbortsExactly(prefix: Path, steps: seq<Step>, scans: seq<Scan>, z: ZStore, u: nat)
    requires |scans| == |steps| && u < |steps| && Serves(prefix, z)
    ensures var r := ZRun(Compile(prefix, steps[..u], scans[..u]), z);
      AbortsAt(prefix, steps, scans, z, u) <==> r.ZDone? && FailsAtLast(prefix, steps[u], scans[u], r.store)
    decreases |steps|
  {
    hide Compile, Bounds, ZRun, Plan, FailsAtLast, Serves, StrictlyIncreasing;
    var n := |steps| - 1;
    var head, tail := Compile(prefix, steps[..n], scans[..n]), Plan(prefix, steps[n], scans[n]);
    CompileLast(prefix, steps, scans);
    BoundsIncrease(prefix, steps[..n], scans[..n]);
    PlanLength(prefix, steps[n], scans[n]);
    ZRunConcat(head, tail, z);
    if u < n {
      AbortsExactly(prefix, steps[..n], scans[..n], z, u);
      assert steps[..n][..u] == steps[..u] && scans[..n][..u] == scans[..u];
    } else if ZRun(head, z).ZDone? {
      ServesAfter(prefix, steps[..n], scans[..n], z);
      PlanFailsAtLast(prefix, steps[n], scans[n], ZRun(head, z).store);
    }
  }

  lemma ServesAfter(prefix: Path, steps: seq<Step>, scans: seq<Scan>, z: ZStore)
    requires |scans| == |steps| && Serves(prefix, z) && ZRun(Compile(prefix, steps, scans), z).ZDone?
    ensures var u := ZRun(Compile(prefix, steps, scans), z).store;
      && Serves(prefix, u)
      && Fold(ZK_RULES, steps, View(prefix, z)).Committed?
      && Fold(ZK_RULES, steps, View(prefix, z)).tree == View(prefix, u)
  {
    hide View, ZRun, Compile, Fold, Serves, Owner, Bounds;
    CompiledSound(prefix, steps, scans, z);
  }

  lemma PlanFailsAtLast(prefix: Path, step: Step, scan: Scan, w: ZStore)
    requires Serves(prefix, w)
    ensures var plan := Plan(prefix, step, scan);
      ZRun(plan, w) == ZAborted(|plan| - 1) <==> FailsAtLast(prefix, step, scan, w)
  {
    hide ZRun, View, Accepts, Apply, Answers, Collect, Serves, Query, StopsAtTarget;
    if step.Erase? {
      StopsAtTargetExactly(prefix + step.key, scan, w);
    } else {
      PlanLength(prefix, step, scan);
      StepSound(prefix, step, scan, w);
    }
  }

  /** The steps before `u` go through, and `u` is an erase that stops below its target. */
  ghost predicate StopsBelow(prefix: Path, steps: seq<Step>, scans: seq<Scan>, z: ZStore, u: nat)
    requires |scans| == |steps| && u < |steps|
  {
    var r := ZRun(Compile(prefix, steps[..u], scans[..u]), z);
    steps[u].Erase? && r.ZDone? && !ZRun(Erases(QueryBelow(prefix + steps[u].key, scans[u])), r.store).ZDone?
  }

  /** A round asks for another one exactly when some erase stops below its target. */
  lemma RetriesExactly(prefix: Path, steps: seq<Step>, scans: seq<Scan>, z: ZStore)
    requires |scans| == |steps|
    ensures Attempt(prefix, steps, Round(scans, z)) == Retry <==>
      exists u :: 0 <= u < |steps| && StopsBelow(prefix, steps, scans, z, u)
  {
    hide *;
    RetryIs(prefix, steps, scans, z);
    StopsExactly(prefix, steps, scans, z);
  }

  /** The run stops at an operation that is not the last of any step. */
  ghost predicate StopsInside(prefix: Path, steps: seq<Step>, scans: seq<Scan>, z: ZStore)
    requires |scans| == |steps|
  {
    var b, r := Bounds(prefix, steps, scans), ZRun(Compile(prefix, steps, scans), z);
    r.ZAborted? && forall u :: 0 <= u < |b| ==> b[u] != r.index
  }

  lemma RetryIs(prefix: Path, steps: seq<Step>, scans: seq<Scan>, z: ZStore)
    requires |scans| == |steps|
    ensures Attempt(prefix, steps, Round(scans, z)) == Retry <==> StopsInside(prefix, steps, scans, z)
  {
    hide ZRun, Compile, Bounds, LowerBound;
    BoundsIncrease(prefix, steps, scans);
  }

  lemma {:induction false} StopsExactly(prefix: Path, steps: seq<Step>, scans: seq<Scan>, z: ZStore)
    requires |scans| == |steps|
    ensures StopsInside(prefix, steps, scans, z) <==>
      exists u :: 0 <= u < |steps| && StopsBelow(prefix, steps, scans, z, u)
  {
    hide StopsBelow, StopsInside;
    if steps == [] {
      NothingStops(prefix, z);
    } else {
      var n := |steps| - 1;
      StopsExactly(prefix, steps[..n], scans[..n], z);
      StopsLast(prefix, steps, scans, z);
      forall u | 0 <= u < n
        ensures StopsBelow(prefix, steps, scans, z, u) <==> StopsBelow(prefix, steps[..n], scans[..n], z, u)
      {
        StopsPrefix(prefix, steps, scans, z, u);
      }
    }
  }

  lemma NothingStops(prefix: Path, z: ZStore)
    ensures !StopsInside(prefix, [], [], z)
  {
    assert Compile(prefix, [], []) == [];
  }

  lemma StopsPrefix(prefix: Path, steps: seq<Step>, scans: seq<Scan>, z: ZStore, u: nat)
    requires |scans| == |steps| && u < |steps| - 1
    ensures var n := |steps| - 1;
      StopsBelow(prefix, steps, scans, z, u) <==> StopsBelow(prefix, steps[..n], scans[..n], z, u)
  {
    hide Compile, ZRun, QueryBelow, Erases;
    var n := |steps| - 1;
    assert steps[..n][..u] == steps[..u] && scans[..n][..u] == scans[..u];
  }

  lemma StopsLast(prefix: Path, steps: seq<Step>, scans: seq<Scan>, z: ZStore)
    requires |scans| == |steps| > 0
    ensures var n := |steps| - 1;
      StopsInside(prefix, steps, scans, z) <==>
        StopsInside(prefix, steps[..n], scans[..n], z) || StopsBelow(prefix, steps, scans, z, n)
  {
    hide Compile, Bounds, ZRun, Plan, StrictlyIncreasing, QueryBelow, Erases;
    var n := |steps| - 1;
    var head, tail := Compile(prefix, steps[..n], scans[..n]), Plan(prefix, steps[n], scans[n]);
    var b := Bounds(prefix, steps[..n], scans[..n]);
    CompileLast(prefix, steps, scans);
    BoundsIncrease(prefix, steps[..n], scans[..n]);
    PlanLength(prefix, steps[n], scans[n]);
    ZRunConcat(head, tail, z);
    var all := b + [|head| + |tail| - 1];
    assert Bounds(prefix, steps, scans) == all;
    assert all[|b|] == |head| + |tail| - 1;
    assert forall u :: 0 <= u < |b| ==> all[u] == b[u];
    if ZRun(head, z).ZDone? {
      PlanStopsBelow(prefix, steps[n], scans[n], ZRun(head, z).store);
    }
  }

  lemma PlanStopsBelow(prefix: Path, step: Step, scan: Scan, w: ZStore)
    ensures var plan := Plan(prefix, step, scan);
      var r := ZRun(plan, w);
      r.ZAborted? && r.index != |plan| - 1 <==>
        step.Erase? && !ZRun(Erases(QueryBelow(prefix + step.key, scan)), w).ZDone?
  {
    hide ZRun, Query, QueryBelow, Erases;
    PlanLength(prefix, step, scan);
    if step.Erase? {
      ListStopsBelow(prefix + step.key, scan, w);
    }
  }

  /** A round that returns committed the fold on the store it met, whatever the scans saw in
      between; a round that throws does so at the fold's first failure, or at an erase whose
      target has got a child since it was scanned; a round that retries does so below an erase. */
  lemma AttemptSound(prefix: Path, steps: seq<Step>, round: Round)
    requires |round.scans| == |steps| && Serves(prefix, round.store)
    ensures VerdictSound(prefix, steps, round, Attempt(prefix, steps, round))
  {
    hide View, ZRun, Compile, Bounds, Collect, Serves, ErasesBelow, BlamedOn, LowerBound;
    CompiledSound(prefix, steps, round.scans, round.store);
    BoundsIncrease(prefix, steps, round.scans);
    var r := Attempt(prefix, steps, round);
    if r.Threw? {
      ThrowsExactly(prefix, steps, round, r.index);
      BlameSound(prefix, steps, round, r.index);
    } else if r.Retry? {
      var i := ZRun(Compile(prefix, steps, round.scans), round.store).index;
      var u := Owner(prefix, steps, round.scans, i);
      OwnedOp(prefix, steps, round.scans, i);
      assert ReachedErase(steps, View(prefix, round.store), u);
    }
  }

  lemma BlameSound(prefix: Path, steps: seq<Step>, round: Round, u: nat)
    requires |round.scans| == |steps| && Serves(prefix, round.store) && ReachedAndFails(prefix, steps, round, u)
    ensures BlamedOn(prefix, steps, round, u)
  {
    hide View, ZRun, Compile, Serves, UnlistedChild, Fold;
    var t := View(prefix, round.store);
    ServesAfter(prefix, steps[..u], round.scans[..u], round.store);
    FailsFirstAt(ZK_RULES, steps, t, u);
    ViewIs(prefix, ZRun(Compile(prefix, steps[..u], round.scans[..u]), round.store).store);
  }

  /** A child that appeared after the scan of a present key makes a round throw although the fold
      commits. */
  lemma StaleScanThrows(prefix: Path, z: ZStore, k: Key, c: ZPath)
    requires Serves(prefix, z) && prefix + k in z && c in z && c != [] && Parent(c) == prefix + k
    ensures Fold(ZK_RULES, [Erase(k)], View(prefix, z)).Committed?
    ensures Attempt(prefix, [Erase(k)], Round([Listed([])], z)) == Threw(0)
  {
    var steps, round := [Erase(k)], Round([Listed([])], z);
    ThrowsExactly(prefix, steps, round, 0);
    hide Attempt, Serves, View;
    ViewIs(prefix, z);
    FoldLast(ZK_RULES, [], Erase(k), View(prefix, z));
    assert [] + [Erase(k)] == steps;
    assert steps[..0] == [] && round.scans[..0] == [];
    assert QueryBelow(prefix + k, Listed([])) == [];
    assert UnlistedChild(prefix + k, Listed([]), z);
  }

  /** A raw operation that is not the last of its step belongs to an erase and lies strictly
      below its target. */
  lemma {:induction false} OwnedOp(prefix: Path, steps: seq<Step>, scans: seq<Scan>, i: nat)
    requires |scans| == |steps| && i < |Compile(prefix, steps, scans)|
    ensures var u, b := Owner(prefix, steps, scans, i), Bounds(prefix, steps, scans);
      u < |steps| == |b| &&
      (b[u] != i ==> steps[u].Erase? && ErasesBelow(Compile(prefix, steps, scans)[i], prefix + steps[u].key))
    decreases |steps|
  {
    hide Compile, Bounds, LowerBound, Plan, StrictlyIncreasing, ErasesBelow;
    BoundsIncrease(prefix, steps, scans);
    var n := |steps| - 1;
    var init, earlier := steps[..n], scans[..n];
    var head, tail := Compile(prefix, init, earlier), Plan(prefix, steps[n], scans[n]);
    var b := Bounds(prefix, init, earlier);
    CompileLast(prefix, steps, scans);
    BoundsIncrease(prefix, init, earlier);
    LowerBoundAppend(b, |head| + |tail| - 1, i);
    if i < |head| {
      OwnedOp(prefix, init, earlier, i);
      var u := Owner(prefix, init, earlier, i);
      assert init[u] == steps[u];
    } else {
      LowerBoundAll(b, i);
      assert Owner(prefix, steps, scans, i) == n;
      NotLastInPlan(prefix, steps[n], scans[n]);
      assert Compile(prefix, steps, scans)[i] == tail[i - |head|];
    }
  }

  lemma NotLastInPlan(prefix: Path, step: Step, scan: Scan)
    ensures var plan := Plan(prefix, step, scan);
      forall m :: 0 <= m < |plan| - 1 ==> step.Erase? && ErasesBelow(plan[m], prefix + step.key)
  {
    PlanLength(prefix, step, scan);
    if step.Erase? {
      var target := prefix + step.key;
      var q := Query(target, true, scan);
      QueryRootLast(target, scan);
      var plan := Plan(prefix, step, scan);
      assert plan == Erases(q);
      forall m | 0 <= m < |plan| - 1
        ensures ErasesBelow(plan[m], target)
      {
        assert |plan| == |q|;
        assert m < |q| - 1;
        assert target < Query(target, true, scan)[m];
        assert target < q[m];
        assert plan[m] == ZErase(q[m]);
      }
    }
  }

  /** The compiling loops of `commit` for one round. */
  method BuildMulti(prefix: Path, transaction: Transaction, scans: seq<Scan>)
      returns (txn: seq<ZOp>, bounds: seq<int>)
    requires |scans| == |transaction.Steps()|
    ensures txn == Compile(prefix, transaction.Steps(), scans)
    ensures bounds == Bounds(prefix, transaction.Steps(), scans)
  {
    hide *;
    ghost var steps := transaction.Steps();
    StepsAre(transaction);
    txn, bounds := [], [];
    NonePushed(prefix, steps, scans);
    var n := |transaction.checks|;
    for i := 0 to n
      invariant Pushed(prefix, steps, scans, i, txn, bounds)
    {
      var check: CheckStep := transaction.checks[i];
      CheckPlan(prefix, check, scans[i]);
      PushOne(prefix, steps, scans, i, txn, bounds);
      txn := txn + [ZCheck(prefix + check.key, if check.version != 0 then check.version - 1 else ANY_VERSION)];
      bounds := bounds + [|txn| - 1];
    }
    for i := 0 to |transaction.ops|
      invariant Pushed(prefix, steps, scans, n + i, txn, bounds)
    {
      var op: OpStep := transaction.ops[i];
      PushOne(prefix, steps, scans, n + i, txn, bounds);
      txn := PushOp(prefix, txn, op, scans[n + i]);
      bounds := bounds + [|txn| - 1];
    }
    AllPushed(prefix, steps, scans, txn, bounds);
  }

  method PushOp(prefix: Path, txn: seq<ZOp>, op: OpStep, scan: Scan) returns (more: seq<ZOp>)
    ensures more == txn + Plan(prefix, op, scan)
  {
    var p := prefix + op.key;
    match op {
      case Create(_, v, lease) => more := txn + [ZCreate(p, v, lease)];
      case Set(_, v) => more := txn + [ZSet(p, v, ANY_VERSION)];
      case Erase(_) =>
        var query := MakeRecursiveEraseQuery(txn, p, FailTxnOnNoEntry, scan);
        more := query.value;
    }
  }

  ghost predicate Pushed(prefix: Path, steps: seq<Step>, scans: seq<Scan>, i: nat, txn: seq<ZOp>, bounds: seq<int>)
    requires |scans| == |steps| && i <= |steps|
  {
    txn == Compile(prefix, steps[..i], scans[..i]) && bounds == Bounds(prefix, steps[..i], scans[..i])
  }

  lemma NonePushed(prefix: Path, steps: seq<Step>, scans: seq<Scan>)
    requires |scans| == |steps|
    ensures Pushed(prefix, steps, scans, 0, [], [])
  {
  }

  lemma CheckPlan(prefix: Path, check: CheckStep, scan: Scan)
    ensures Plan(prefix, check, scan) ==
      [ZCheck(prefix + check.key, if check.version != 0 then check.version - 1 else ANY_VERSION)]
  {
  }

  lemma PushOne(prefix: Path, steps: seq<Step>, scans: seq<Scan>, i: nat, txn: seq<ZOp>, bounds: seq<int>)
    requires |scans| == |steps| && i < |steps|
    requires Pushed(prefix, steps, scans, i, txn, bounds)
    ensures var more := txn + Plan(prefix, steps[i], scans[i]);
      Pushed(prefix, steps, scans, i + 1, more, bounds + [|more| - 1])
  {
    hide Plan;
    assert steps[..i + 1][..i] == steps[..i] && scans[..i + 1][..i] == scans[..i];
  }

  lemma AllPushed(prefix: Path, steps: seq<Step>, scans: seq<Scan>, txn: seq<ZOp>, bounds: seq<int>)
    requires |scans| == |steps| && Pushed(prefix, steps, scans, |steps|, txn, bounds)
    ensures txn == Compile(prefix, steps, scans) && bounds == Bounds(prefix, steps, scans)
  {
    assert steps[..|steps|] == steps && scans[..|steps|] == scans;
  }

  /** The loop over the raw results. */
  method CollectResults(rawResult: seq<ZResult>) returns (result: seq<Answer>)
    ensures result == Collect(rawResult)
  {
    result := [];
    for i := 0 to |rawResult|
      invariant result == Collect(rawResult[..i])
    {
      assert rawResult[..i + 1] == rawResult[..i] + [rawResult[i]];
      CollectConcat(rawResult[..i], [rawResult[i]]);
      CollectOne(rawResult[i]);
      match rawResult[i] {
        case WasSet(version) => result := result + [Answer(SET, version + 1)];
        case Created => result := result + [Answer(CREATE, 1)];
        case _ =>
      }
    }
    assert rawResult[..|rawResult|] == rawResult;
  }

  /** `commit`: rounds until one returns or throws. `rounds` is what the service answers; the
      caller gets `Retry` back only if every round given asks for another one. */
  method Commit(prefix: Path, transaction: Transaction, rounds: seq<Round>) returns (r: Verdict, n: nat)
    requires forall m :: 0 <= m < |rounds| ==> |rounds[m].scans| == |transaction.Steps()|
    ensures n <= |rounds|
    ensures forall m :: 0 <= m < n ==> Attempt(prefix, transaction.Steps(), rounds[m]) == Retry
    ensures if n == |rounds| then r == Retry else r == Attempt(prefix, transaction.Steps(), rounds[n]) && r != Retry
  {
    hide Attempt;
    n := 0;
    while n < |rounds|
      invariant n <= |rounds|
      invariant forall m :: 0 <= m < n ==> Attempt(prefix, transaction.Steps(), rounds[m]) == Retry
    {
      r := TryOnce(prefix, transaction, rounds[n]);
      if r != Retry {
        return;
      }
      n := n + 1;
    }
    r := Retry;
  }

  /** The body of the retry loop. */
  method TryOnce(prefix: Path, transaction: Transaction, round: Round) returns (r: Verdict)
    requires |round.scans| == |transaction.Steps()|
    ensures r == Attempt(prefix, transaction.Steps(), round)
  {
    hide Compile, Bounds, ZRun, Collect, LowerBound;
    var txn, bounds := BuildMulti(prefix, transaction, round.scans);
    BoundsIncrease(prefix, transaction.Steps(), round.scans);
    var rawResult := ZRun(txn, round.store);
    match rawResult {
      case ZDone(u, results) =>
        var result := CollectResults(results);
        r := Returned(result, u);
      case ZAborted(realIndex) =>
        CompiledInRange(prefix, transaction.Steps(), round.scans, realIndex);
        var userIndex := Search(bounds, realIndex);
        r := if bounds[userIndex] == realIndex then Threw(userIndex) else Retry;
    }
  }

  /** A raw position is always owned by some step. */
  lemma CompiledInRange(prefix: Path, steps: seq<Step>, scans: seq<Scan>, i: nat)
    requires |scans| == |steps| && i < |Compile(prefix, steps, scans)|
    ensures LowerBound(Bounds(prefix, steps, scans), i) < |steps|
  {
    BoundsIncrease(prefix, steps, scans);
  }
}
