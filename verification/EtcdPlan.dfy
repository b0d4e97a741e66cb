/** How the etcd client turns a transaction into compares and two branches, and what a
    succeeded transaction means for the fold. */
module EtcdPlan {
  import opened Errors
  import opened Keys
  import opened Encoding
  import opened Tree
  import opened EtcdStore

  function Exists(name: string): Compare {
    Compare(name, CREATE_REVISION, GREATER, 0)
  }

  function Absent(name: string): Compare {
    Compare(name, CREATE_REVISION, EQUAL, 0)
  }

  /** The preconditions of a step, all of them compared before anything runs. */
  function Compares(prefix: Path, step: Step): seq<Compare> {
    var n := EtcdName(prefix, step.key);
    match step
    case Check(_, version) => [Compare(n, VERSION, EQUAL, version)]
    case Create(k, _, _) =>
      [Absent(n)] + if Parent(k) == [] then [] else [Exists(EtcdName(prefix, Parent(k)))]
    case _ => [Exists(n)]
  }

  function Successes(prefix: Path, leaseId: int, step: Step): seq<Request> {
    var n := EtcdName(prefix, step.key);
    match step
    case Check(_, _) => []
    case Create(_, v, lease) => [Put(n, v, if lease then leaseId else 0, false)]
    case Set(_, v) => [Put(n, v, 0, false), Range(n)]
    case Erase(k) => [DeleteRange(One(n)), DeleteRange(Subtree(prefix, k))]
  }

  /** For every compare, a look at the key it compared. */
  function Failures(prefix: Path, step: Step): seq<Request> {
    var n := EtcdName(prefix, step.key);
    match step
    case Create(k, _, _) =>
      [Range(n)] + if Parent(k) == [] then [] else [Range(EtcdName(prefix, Parent(k)))]
    case _ => [Range(n)]
  }

  function Append(a: Txn, b: Txn): Txn {
    Txn(a.compare + b.compare, a.success + b.success, a.failure + b.failure)
  }

  function Plan(prefix: Path, leaseId: int, step: Step): Txn {
    Txn(Compares(prefix, step), Successes(prefix, leaseId, step), Failures(prefix, step))
  }

  function Compile(prefix: Path, leaseId: int, steps: seq<Step>): Txn {
    if steps == [] then Txn([], [], [])
    else Append(Compile(prefix, leaseId, steps[..|steps| - 1]), Plan(prefix, leaseId, steps[|steps| - 1]))
  }

  lemma CompileSnoc(prefix: Path, leaseId: int, init: seq<Step>, last: Step)
    ensures Compile(prefix, leaseId, init + [last]) ==
      Append(Compile(prefix, leaseId, init), Plan(prefix, leaseId, last))
  {
    hide Append, Plan;
    assert (init + [last])[..|init|] == init;
  }

  // ---------- compares ----------

  /** What a step's compares ask of the tree the transaction meets. */
  predicate Holding(step: Step, t: Tree) {
    match step
    case Check(k, version) => (if k in t then t[k].version else 0) == version
    case Create(k, _, _) => k !in t && (Parent(k) == [] || Parent(k) in t)
    case Set(k, _) => k in t
    case Erase(k) => k in t
  }

  predicate AllHolding(steps: seq<Step>, t: Tree) {
    forall i :: 0 <= i < |steps| ==> Holding(steps[i], t)
  }

  lemma ComparesMean(prefix: Path, step: Step, s: Store)
    requires Genuine(s)
    ensures AllHold(Compares(prefix, step), s) <==> Holding(step, View(prefix, s))
  {
    hide EtcdName, View;
    ViewIs(prefix, s);
    var cs := Compares(prefix, step);
    if step.Create? && Parent(step.key) != [] {
      assert cs == [cs[0], cs[1]];
    } else {
      assert cs == [cs[0]];
    }
  }

  lemma AllHoldConcat(a: seq<Compare>, b: seq<Compare>, s: Store)
    ensures AllHold(a + b, s) <==> AllHold(a, s) && AllHold(b, s)
  {
    hide Holds;
    var c := a + b;
    assert forall i :: 0 <= i < |b| ==> c[|a| + i] == b[i];
    assert forall i :: 0 <= i < |a| ==> c[i] == a[i];
    if AllHold(c, s) {
      forall i | 0 <= i < |b|
        ensures Holds(b[i], s)
      {
        assert Holds(c[|a| + i], s);
      }
    }
  }

  /** All compares of the transaction hold exactly when every step's do. */
  lemma {:induction false} AllCompares(prefix: Path, leaseId: int, steps: seq<Step>, s: Store)
    requires Genuine(s)
    ensures AllHold(Compile(prefix, leaseId, steps).compare, s) <==> AllHolding(steps, View(prefix, s))
  {
    hide Genuine, View, Holding, Plan, Holds;
    if steps != [] {
      var init, last := steps[..|steps| - 1], steps[|steps| - 1];
      AllCompares(prefix, leaseId, init, s);
      assert steps == init + [last];
      CompileSnoc(prefix, leaseId, init, last);
      PlanParts(prefix, leaseId, last);
      hide Compile;
      AllHoldConcat(Compile(prefix, leaseId, init).compare, Compares(prefix, last), s);
      ComparesMean(prefix, last, s);
    }
  }

  lemma PlanParts(prefix: Path, leaseId: int, step: Step)
    ensures var p := Plan(prefix, leaseId, step);
      p.compare == Compares(prefix, step) && p.success == Successes(prefix, leaseId, step) &&
        p.failure == Failures(prefix, step)
  {
  }

  // ---------- overlap ----------

  /** Two steps etcd does not accept in one transaction. */
  predicate StepsClash(a: Step, b: Step) {
    var writeA, writeB := a.Create? || a.Set?, b.Create? || b.Set?;
    || (writeA && writeB && a.key == b.key)
    || (a.Erase? && writeB && a.key <= b.key)
    || (writeA && b.Erase? && b.key <= a.key)
  }

  /** No key is written twice or lies at or below an erase target of the same transaction. */
  predicate KeysApart(steps: seq<Step>) {
    forall i, j :: 0 <= i < j < |steps| ==> !StepsClash(steps[i], steps[j])
  }

  predicate ClashFree(a: seq<Request>, b: seq<Request>) {
    forall x, y :: x in a && y in b ==> !Clash(x, y)
  }

  lemma NoOverlapConcat(a: seq<Request>, b: seq<Request>)
    ensures NoOverlap(a + b) <==> NoOverlap(a) && NoOverlap(b) && ClashFree(a, b)
  {
    hide Clash;
    var c := a + b;
    assert forall i :: 0 <= i < |a| ==> c[i] == a[i];
    assert forall i :: 0 <= i < |b| ==> c[|a| + i] == b[i];
    if NoOverlap(c) {
      forall i, j | 0 <= i < j < |b|
        ensures !Clash(b[i], b[j])
      {
        assert !Clash(c[|a| + i], c[|a| + j]);
      }
      forall x, y | x in a && y in b
        ensures !Clash(x, y)
      {
        var i :| 0 <= i < |a| && a[i] == x;
        var j :| 0 <= j < |b| && b[j] == y;
        assert !Clash(c[i], c[|a| + j]);
      }
    }
    if NoOverlap(a) && NoOverlap(b) && ClashFree(a, b) {
      forall i, j | 0 <= i < j < |c|
        ensures !Clash(c[i], c[j])
      {
        if i < |a| <= j {
          assert a[i] in a && b[j - |a|] in b;
        } else if |a| <= i {
          assert !Clash(b[i - |a|], b[j - |a|]);
        }
      }
    }
  }

  lemma StepsClashMeans(prefix: Path, leaseId: int, a: Step, b: Step)
    ensures ClashFree(Successes(prefix, leaseId, a), Successes(prefix, leaseId, b)) <==> !StepsClash(a, b)
  {
    hide EtcdName, Subtree, Covers;
    CoveredNames(prefix, a.key);
    CoveredNames(prefix, b.key);
    EtcdInjective(prefix, a.key, b.key);
    OneCovers(EtcdName(prefix, a.key));
    OneCovers(EtcdName(prefix, b.key));
    var x, y := Successes(prefix, leaseId, a), Successes(prefix, leaseId, b);
    if x != [] && y != [] {
      assert x[0] in x && y[0] in y;
      if a.Erase? {
        assert x[1] in x;
      }
      if b.Erase? {
        assert y[1] in y;
      }
    }
  }

  lemma {:induction false} StepAgainstAll(prefix: Path, leaseId: int, steps: seq<Step>, last: Step)
    ensures ClashFree(Compile(prefix, leaseId, steps).success, Successes(prefix, leaseId, last)) <==>
      forall i :: 0 <= i < |steps| ==> !StepsClash(steps[i], last)
  {
    hide Successes, StepsClash, Clash, ClashFree, Plan, Append;
    if steps == [] {
      ClashFreeAppend([], [], Successes(prefix, leaseId, last));
    } else {
      var n := |steps| - 1;
      StepAgainstAll(prefix, leaseId, steps[..n], last);
      StepsClashMeans(prefix, leaseId, steps[n], last);
      hide Compile;
      assert steps == steps[..n] + [steps[n]];
      SuccessSnoc(prefix, leaseId, steps[..n], steps[n]);
      ClashFreeAppend(Compile(prefix, leaseId, steps[..n]).success, Successes(prefix, leaseId, steps[n]),
        Successes(prefix, leaseId, last));
    }
  }

  lemma SuccessSnoc(prefix: Path, leaseId: int, init: seq<Step>, last: Step)
    ensures Compile(prefix, leaseId, init + [last]).success ==
      Compile(prefix, leaseId, init).success + Successes(prefix, leaseId, last)
  {
    hide Compile, Successes;
    CompileSnoc(prefix, leaseId, init, last);
    PlanParts(prefix, leaseId, last);
    hide Plan;
  }

  lemma ClashFreeAppend(a: seq<Request>, more: seq<Request>, b: seq<Request>)
    ensures ClashFree(a + more, b) <==> ClashFree(a, b) && ClashFree(more, b)
    ensures ClashFree([], b)
  {
    hide Clash;
    assert forall x :: x in a + more <==> x in a || x in more;
  }

  lemma OneStepNoOverlap(prefix: Path, leaseId: int, step: Step)
    ensures NoOverlap(Successes(prefix, leaseId, step))
  {
  }

  /** The service's overlap rule, in terms of keys. */
  lemma {:induction false} OverlapMeans(prefix: Path, leaseId: int, steps: seq<Step>)
    ensures NoOverlap(Compile(prefix, leaseId, steps).success) <==> KeysApart(steps)
  {
    hide *;
    if steps == [] {
      NothingOverlaps(prefix, leaseId);
    } else {
      var n := |steps| - 1;
      OverlapMeans(prefix, leaseId, steps[..n]);
      assert steps == steps[..n] + [steps[n]];
      var head := Compile(prefix, leaseId, steps[..n]).success;
      StepAgainstAll(prefix, leaseId, steps[..n], steps[n]);
      OneStepNoOverlap(prefix, leaseId, steps[n]);
      SuccessSnoc(prefix, leaseId, steps[..n], steps[n]);
      KeysApartSnoc(steps[..n], steps[n]);
      NoOverlapConcat(head, Successes(prefix, leaseId, steps[n]));
    }
  }

  lemma KeysApartSnoc(init: seq<Step>, last: Step)
    ensures KeysApart(init + [last]) <==>
      KeysApart(init) && forall i :: 0 <= i < |init| ==> !StepsClash(init[i], last)
  {
    hide StepsClash;
    var steps := init + [last];
    assert forall i :: 0 <= i < |init| ==> steps[i] == init[i];
    assert steps[|init|] == last;
    if KeysApart(steps) {
      forall i, j | 0 <= i < j < |init|
        ensures !StepsClash(init[i], init[j])
      {
        assert !StepsClash(steps[i], steps[j]);
      }
    }
  }

  lemma NothingOverlaps(prefix: Path, leaseId: int)
    ensures NoOverlap(Compile(prefix, leaseId, []).success) && KeysApart([])
  {
  }

  /** Only look-ups in the failure branch, which therefore never overlaps, and nothing the
      compiler emits insists on a lease. */
  lemma {:induction false} OnlyLookups(prefix: Path, leaseId: int, steps: seq<Step>)
    ensures var t := Compile(prefix, leaseId, steps);
      && (forall q :: q in t.failure ==> q.Range?)
      && (forall q :: q in t.success && q.Put? ==> !q.ignoreLease)
      && NoOverlap(t.failure)
  {
    if steps != [] {
      var n := |steps| - 1;
      OnlyLookups(prefix, leaseId, steps[..n]);
      StepLookups(prefix, leaseId, steps[n]);
      assert steps == steps[..n] + [steps[n]];
      CompileSnoc(prefix, leaseId, steps[..n], steps[n]);
      PlanParts(prefix, leaseId, steps[n]);
      hide Compile, Plan, Successes, Failures, NoOverlap;
    }
    LookupsApart(Compile(prefix, leaseId, steps).failure);
  }

  lemma StepLookups(prefix: Path, leaseId: int, step: Step)
    ensures forall q :: q in Failures(prefix, step) ==> q.Range?
    ensures forall q :: q in Successes(prefix, leaseId, step) && q.Put? ==> !q.ignoreLease
  {
  }

  lemma LookupsApart(qs: seq<Request>)
    ensures (forall q :: q in qs ==> q.Range?) ==> NoOverlap(qs)
  {
    if forall q :: q in qs ==> q.Range? {
      forall i, j | 0 <= i < j < |qs|
        ensures !Clash(qs[i], qs[j])
      {
        assert qs[i] in qs && qs[j] in qs;
      }
    }
  }

  // ---------- the success branch ----------

  /** What the success branch does for a step, whether the step is acceptable or not. */
  function Blind(step: Step, t: Tree): Tree {
    match step
    case Check(_, _) => t
    case Create(k, v, lease) => t[k := Node(v, if k in t then t[k].version + 1 else 1, lease)]
    case Set(k, v) => t[k := Node(v, if k in t then t[k].version + 1 else 1, false)]
    case Erase(k) => Prune(t, k)
  }

  function BlindAll(steps: seq<Step>, t: Tree): Tree {
    if steps == [] then t else Blind(steps[|steps| - 1], BlindAll(steps[..|steps| - 1], t))
  }

  lemma StepRunsBlind(prefix: Path, leaseId: int, step: Step, s: Store, revision: int)
    requires leaseId != 0
    ensures View(prefix, Run(Successes(prefix, leaseId, step), s, revision).0) == Blind(step, View(prefix, s))
  {
    hide EtcdName, View, Subtree, Run;
    ViewIs(prefix, s);
    var qs, n := Successes(prefix, leaseId, step), EtcdName(prefix, step.key);
    match step {
      case Check(_, _) => RunNone(s, revision);
      case Create(k, _, _) =>
        Run1(qs[0], s, revision);
        ViewPut(prefix, s, k, Effect(qs[0], s, revision)[n]);
      case Set(k, _) =>
        Run2(qs[0], qs[1], s, revision);
        ViewPut(prefix, s, k, Effect(qs[0], s, revision)[n]);
      case Erase(k) =>
        Run2(qs[0], qs[1], s, revision);
        ViewDelete(prefix, s, k, revision);
    }
  }

  /** The success branch of any transaction, on any store. */
  lemma {:induction false} SuccessRunsBlind(prefix: Path, leaseId: int, steps: seq<Step>, s: Store, revision: int)
    requires leaseId != 0
    ensures View(prefix, Run(Compile(prefix, leaseId, steps).success, s, revision).0) ==
      BlindAll(steps, View(prefix, s))
  {
    hide View, Run, Blind, Plan;
    if steps == [] {
      RunNone(s, revision);
    } else {
      var n := |steps| - 1;
      SuccessRunsBlind(prefix, leaseId, steps[..n], s, revision);
      assert steps == steps[..n] + [steps[n]];
      CompileSnoc(prefix, leaseId, steps[..n], steps[n]);
      PlanParts(prefix, leaseId, steps[n]);
      hide Compile;
      var head := Compile(prefix, leaseId, steps[..n]).success;
      RunConcat(head, Successes(prefix, leaseId, steps[n]), s, revision);
      StepRunsBlind(prefix, leaseId, steps[n], Run(head, s, revision).0, revision);
    }
  }

  /** It is what the step does, where the step is acceptable. */
  lemma BlindIsApply(step: Step, t: Tree)
    requires Accepts(ETCD_RULES, step, t)
    ensures Blind(step, t) == Apply(ETCD_RULES, step, t)
  {
  }

  lemma RunNone(s: Store, revision: int)
    ensures Run([], s, revision) == (s, [])
  {
  }

  predicate ChecksFirst(steps: seq<Step>) {
    forall i, j :: 0 <= i < j < |steps| && steps[j].Check? ==> steps[i].Check?
  }

  lemma TransactionChecksFirst(txn: Transaction)
    ensures ChecksFirst(txn.Steps())
  {
    StepsAre(txn);
  }

  /** Every check names a version (zero compares for absence here, not for existence). */
  predicate ChecksNameVersions(steps: seq<Step>) {
    forall i :: 0 <= i < |steps| && steps[i].Check? ==> steps[i].version != 0
  }

  /** No erase target lies at or below an earlier one. */
  predicate NoNestedErase(steps: seq<Step>) {
    forall i, j :: 0 <= i < j < |steps| && steps[i].Erase? && steps[j].Erase? ==> !(steps[i].key <= steps[j].key)
  }

  predicate ErasedBy(steps: seq<Step>, k: Key) {
    exists i :: 0 <= i < |steps| && steps[i].Erase? && steps[i].key <= k
  }

  predicate CreatedBy(steps: seq<Step>, k: Key) {
    exists i :: 0 <= i < |steps| && steps[i].Create? && steps[i].key == k
  }

  lemma ErasedBySnoc(init: seq<Step>, last: Step, k: Key)
    ensures ErasedBy(init + [last], k) <==> ErasedBy(init, k) || (last.Erase? && last.key <= k)
    ensures CreatedBy(init + [last], k) <==> CreatedBy(init, k) || (last.Create? && last.key == k)
  {
    var steps := init + [last];
    assert forall i :: 0 <= i < |init| ==> steps[i] == init[i];
    assert steps[|init|] == last;
  }

  /** Which keys the fold has gained and lost, when no step undoes another. */
  lemma {:induction false} KeysAfter(r: Rules, steps: seq<Step>, t: Tree)
    requires KeysApart(steps) && Fold(r, steps, t).Committed?
    ensures forall k: Key ::
      k in Fold(r, steps, t).tree <==> CreatedBy(steps, k) || (k in t && !ErasedBy(steps, k))
    ensures forall k: Key :: !(CreatedBy(steps, k) && ErasedBy(steps, k))
  {
    if steps != [] {
      var init, last := steps[..|steps| - 1], steps[|steps| - 1];
      assert steps == init + [last];
      KeysAfter(r, init, t);
      FoldLast(r, init, last, t);
      hide Fold;
      var u := Fold(r, init, t).tree;
      forall k: Key
        ensures k in Fold(r, steps, t).tree <==> CreatedBy(steps, k) || (k in t && !ErasedBy(steps, k))
        ensures !(CreatedBy(steps, k) && ErasedBy(steps, k))
      {
        ErasedBySnoc(init, last, k);
        LastApart(init, last, k);
      }
    }
  }

  lemma LastApart(init: seq<Step>, last: Step, k: Key)
    requires KeysApart(init + [last])
    ensures KeysApart(init)
    ensures last.Create? && last.key == k ==> !ErasedBy(init, k)
    ensures last.Erase? && last.key <= k ==> !CreatedBy(init, k)
    ensures last.Set? && last.key == k ==> !ErasedBy(init, k)
    ensures last.Create? && Parent(last.key) == k ==> !ErasedBy(init, k)
    ensures last.Create? && last.key == k ==> !CreatedBy(init, k)
  {
    KeysApartSnoc(init, last);
    assert forall i :: 0 <= i < |init| && last.Create? && init[i].key <= Parent(last.key) ==> init[i].key <= last.key;
  }

  lemma {:induction false} OnlyChecksKeep(r: Rules, steps: seq<Step>, t: Tree)
    requires forall i :: 0 <= i < |steps| ==> steps[i].Check?
    requires Fold(r, steps, t).Committed?
    ensures Fold(r, steps, t).tree == t
  {
    if steps != [] {
      OnlyChecksKeep(r, steps[..|steps| - 1], t);
    }
  }

  predicate Versioned(t: Tree) {
    forall k :: k in t ==> t[k].version >= 1
  }

  /** If every compare held before the transaction and no step undoes another, a step that is
      reached by the fold is accepted unless it is a check for version zero or an erase inside
      an earlier erase. */
  lemma AcceptedIff(init: seq<Step>, last: Step, t: Tree)
    requires KeysApart(init + [last]) && ChecksFirst(init + [last])
    requires Versioned(t) && AllHolding(init + [last], t) && Fold(ETCD_RULES, init, t).Committed?
    ensures Accepts(ETCD_RULES, last, Fold(ETCD_RULES, init, t).tree) <==>
      (last.Check? ==> last.version != 0) && (last.Erase? ==> !ErasedBy(init, last.key))
  {
    hide Fold;
    var steps, k := init + [last], last.key;
    assert steps[|init|] == last;
    assert Holding(steps[|init|], t);
    LastApart(init, last, k);
    KeysAfter(ETCD_RULES, init, t);
    var u := Fold(ETCD_RULES, init, t).tree;
    match last {
      case Check(_, _) =>
        assert forall i :: 0 <= i < |init| ==> steps[i] == init[i];
        OnlyChecksKeep(ETCD_RULES, init, t);
      case Create(_, _, _) =>
        if Parent(k) != [] {
          LastApart(init, last, Parent(k));
        }
      case _ =>
    }
  }

  /** A transaction whose compares all held is the fold on the tree it met, with the same result,
      if and only if its checks name versions and no erase target lies inside an earlier one. */
  lemma {:induction false} SuccessIsFold(prefix: Path, leaseId: int, steps: seq<Step>, s: Store, revision: int)
    requires leaseId != 0 && KeysApart(steps) && ChecksFirst(steps)
    requires Versioned(View(prefix, s)) && AllHolding(steps, View(prefix, s))
    ensures var fold := Fold(ETCD_RULES, steps, View(prefix, s));
      && (fold.Committed? <==> ChecksNameVersions(steps) && NoNestedErase(steps))
      && (fold.Committed? ==>
            View(prefix, Run(Compile(prefix, leaseId, steps).success, s, revision).0) == fold.tree)
  {
    if steps == [] {
      RunNone(s, revision);
      assert Compile(prefix, leaseId, steps).success == [];
      assert Fold(ETCD_RULES, steps, View(prefix, s)).tree == View(prefix, s);
    } else {
      var n := |steps| - 1;
      var init, last := steps[..n], steps[n];
      assert steps == init + [last];
      SuccessIsFold(prefix, leaseId, init, s, revision);
      SuccessStep(prefix, leaseId, init, last, s, revision);
    }
  }

  lemma SuccessStep(prefix: Path, leaseId: int, init: seq<Step>, last: Step, s: Store, revision: int)
    requires leaseId != 0 && Versioned(View(prefix, s))
    requires KeysApart(init + [last]) && ChecksFirst(init + [last]) && AllHolding(init + [last], View(prefix, s))
    requires var fold := Fold(ETCD_RULES, init, View(prefix, s));
      && (fold.Committed? <==> ChecksNameVersions(init) && NoNestedErase(init))
      && (fold.Committed? ==> View(prefix, Run(Compile(prefix, leaseId, init).success, s, revision).0) == fold.tree)
    ensures var steps := init + [last];
      var fold := Fold(ETCD_RULES, steps, View(prefix, s));
      && (fold.Committed? <==> ChecksNameVersions(steps) && NoNestedErase(steps))
      && (fold.Committed? ==> View(prefix, Run(Compile(prefix, leaseId, steps).success, s, revision).0) == fold.tree)
  {
    hide View, Fold, Run, Compile, Plan, Accepts, Apply, Answers, KeysApart, ChecksFirst, AllHolding, Versioned, Blind;
    var t := View(prefix, s);
    FoldLast(ETCD_RULES, init, last, t);
    ConditionsSnoc(init, last);
    CompileSnoc(prefix, leaseId, init, last);
    PlanParts(prefix, leaseId, last);
    var head := Compile(prefix, leaseId, init).success;
    RunConcat(head, Successes(prefix, leaseId, last), s, revision);
    if Fold(ETCD_RULES, init, t).Committed? {
      AcceptedIff(init, last, t);
      if Accepts(ETCD_RULES, last, Fold(ETCD_RULES, init, t).tree) {
        StepRunsBlind(prefix, leaseId, last, Run(head, s, revision).0, revision);
        BlindIsApply(last, View(prefix, Run(head, s, revision).0));
      }
    }
  }

  lemma ConditionsSnoc(init: seq<Step>, last: Step)
    ensures ChecksNameVersions(init + [last]) <==> ChecksNameVersions(init) && (last.Check? ==> last.version != 0)
    ensures NoNestedErase(init + [last]) <==>
      NoNestedErase(init) && (last.Erase? ==> !ErasedBy(init, last.key))
  {
    var steps := init + [last];
    assert forall i :: 0 <= i < |init| ==> steps[i] == init[i];
    assert steps[|init|] == last;
  }

  // ---------- leases, and names left alone ----------

  /** The step may change what is stored under the name. */
  predicate Reaches(prefix: Path, step: Step, name: string) {
    var n, (lo, hi) := EtcdName(prefix, step.key), SubtreeRange(prefix, step.key);
    ((step.Create? || step.Set?) && name == n) || (step.Erase? && (name == n || InRange(name, lo, hi)))
  }

  ghost predicate NotReached(prefix: Path, steps: seq<Step>, name: string) {
    forall i :: 0 <= i < |steps| ==> !Reaches(prefix, steps[i], name)
  }

  /** Only names that some step reaches have changed: nothing outside the client's prefix has. */
  ghost predicate OnlyReached(prefix: Path, steps: seq<Step>, s: Store, u: Store) {
    forall name :: NotReached(prefix, steps, name) ==> SameAt(s, u, name)
  }

  lemma StepFrame(prefix: Path, leaseId: int, step: Step, name: string)
    requires !Reaches(prefix, step, name)
    ensures NotTouched(Successes(prefix, leaseId, step), name)
  {
    hide EtcdName, SubtreeRange, InRange;
  }

  lemma {:induction false} CompileFrame(prefix: Path, leaseId: int, steps: seq<Step>, name: string)
    requires NotReached(prefix, steps, name)
    ensures NotTouched(Compile(prefix, leaseId, steps).success, name)
  {
    if steps != [] {
      hide Successes, Compares, Failures;
      var n := |steps| - 1;
      CompileFrame(prefix, leaseId, steps[..n], name);
      StepFrame(prefix, leaseId, steps[n], name);
    }
  }

  lemma SuccessFrame(prefix: Path, leaseId: int, steps: seq<Step>, s: Store, revision: int)
    ensures OnlyReached(prefix, steps, s, Run(Compile(prefix, leaseId, steps).success, s, revision).0)
  {
    hide Run, Compile, SameAt, NotTouched, NotReached;
    forall name | NotReached(prefix, steps, name)
      ensures SameAt(s, Run(Compile(prefix, leaseId, steps).success, s, revision).0, name)
    {
      CompileFrame(prefix, leaseId, steps, name);
      RunFrame(Compile(prefix, leaseId, steps).success, s, revision, name);
    }
  }

  lemma NothingReached(prefix: Path, steps: seq<Step>, s: Store)
    ensures OnlyReached(prefix, steps, s, s)
  {
  }

  /** The key is there, bound to the lease; lease zero means none. */
  ghost predicate BoundTo(prefix: Path, k: Key, lease: int, u: Store) {
    var n := EtcdName(prefix, k);
    n in u && u[n].lease == lease
  }

  /** What a write does to the lease of its key. */
  lemma WriteLease(prefix: Path, leaseId: int, step: Step, s: Store, revision: int)
    requires step.Create? || step.Set?
    ensures BoundTo(prefix, step.key, if Leased(step) then leaseId else 0,
      Run(Successes(prefix, leaseId, step), s, revision).0)
  {
    hide EtcdName, Run;
    var qs := Successes(prefix, leaseId, step);
    if step.Create? {
      Run1(qs[0], s, revision);
    } else {
      Run2(qs[0], qs[1], s, revision);
    }
  }

  lemma StepNotReached(prefix: Path, step: Step, k: Key)
    requires !EraseOver(step, k) && ((step.Create? || step.Set?) ==> step.key != k)
    ensures !Reaches(prefix, step, EtcdName(prefix, k))
  {
    EtcdInjective(prefix, k, step.key);
    EtcdSubtree(prefix, step.key, k);
    hide EtcdName, SubtreeRange, InRange;
  }

  /** Every key created leased is bound to the lease; every other key created or set is bound to
      none. */
  ghost predicate LeasesBound(prefix: Path, leaseId: int, steps: seq<Step>, u: Store) {
    forall i :: 0 <= i < |steps| && (steps[i].Create? || steps[i].Set?) ==>
      BoundTo(prefix, steps[i].key, if Leased(steps[i]) then leaseId else 0, u)
  }

  lemma {:induction false} SuccessLeases(prefix: Path, leaseId: int, steps: seq<Step>, s: Store, revision: int)
    requires KeysApart(steps)
    ensures LeasesBound(prefix, leaseId, steps, Run(Compile(prefix, leaseId, steps).success, s, revision).0)
  {
    hide Run, BoundTo, Compile, StepsClash, EtcdName, Successes, Reaches, NotTouched, SameAt;
    if steps != [] {
      var n := |steps| - 1;
      var init, last := steps[..n], steps[n];
      assert steps == init + [last];
      KeysApartSnoc(init, last);
      SuccessLeases(prefix, leaseId, init, s, revision);
      SuccessSnoc(prefix, leaseId, init, last);
      var head := Compile(prefix, leaseId, init).success;
      RunConcat(head, Successes(prefix, leaseId, last), s, revision);
      var u := Run(head, s, revision).0;
      var w := Run(Compile(prefix, leaseId, steps).success, s, revision).0;
      forall i | 0 <= i < |steps| && (steps[i].Create? || steps[i].Set?)
        ensures BoundTo(prefix, steps[i].key, if Leased(steps[i]) then leaseId else 0, w)
      {
        if i == n {
          WriteLease(prefix, leaseId, last, u, revision);
        } else {
          assert init[i] == steps[i];
          ClashFreeWrite(init[i], last);
          StepNotReached(prefix, last, init[i].key);
          StepFrame(prefix, leaseId, last, EtcdName(prefix, init[i].key));
          RunFrame(Successes(prefix, leaseId, last), u, revision, EtcdName(prefix, init[i].key));
          StaysBound(prefix, init[i].key, if Leased(init[i]) then leaseId else 0, u, w);
        }
      }
    }
  }

  lemma ClashFreeWrite(a: Step, b: Step)
    requires !StepsClash(a, b) && (a.Create? || a.Set?)
    ensures !EraseOver(b, a.key) && !((b.Create? || b.Set?) && b.key == a.key)
  {
  }

  lemma StaysBound(prefix: Path, k: Key, lease: int, u: Store, w: Store)
    requires BoundTo(prefix, k, lease, u) && SameAt(u, w, EtcdName(prefix, k))
    ensures BoundTo(prefix, k, lease, w)
  {
  }

  /** The lease only matters where it is used. */
  lemma LeaseUsed(prefix: Path, leaseId: int, kept: int, steps: seq<Step>, u: Store)
    requires LeasesBound(prefix, leaseId, steps, u) && (AnyLeased(steps) ==> kept == leaseId)
    ensures LeasesBound(prefix, kept, steps, u)
  {
    hide BoundTo;
    forall i | 0 <= i < |steps| && (steps[i].Create? || steps[i].Set?)
      ensures BoundTo(prefix, steps[i].key, if Leased(steps[i]) then kept else 0, u)
    {
      assert Leased(steps[i]) ==> AnyLeased(steps);
    }
  }
}
