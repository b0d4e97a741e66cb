/** Which step a failed etcd transaction is blamed on. */
module EtcdFailure {
  import opened Errors
  import opened Keys
  import opened Encoding
  import opened Tree
  import opened EtcdStore
  import opened EtcdPlan

  /** `expected_existence` of one operation: should the keys it looked at have been there? */
  function Expected(step: Step): seq<bool> {
    match step
    case Check(_, _) => []
    case Create(k, _, _) => [false] + if Parent(k) == [] then [] else [true]
    case _ => [true]
  }

  /** What the walk over the failure responses treats as a failed step. A check is failed if its
      key is missing, even when the compare asked for version zero. */
  predicate Bad(step: Step, t: Tree) {
    match step
    case Check(k, version) => k !in t || t[k].version != version
    case _ => !Holding(step, t)
  }

  /** The index `i` is that of the first failed step. */
  predicate FirstBad(steps: seq<Step>, t: Tree, i: nat) {
    && i < |steps| && Bad(steps[i], t)
    && forall j :: 0 <= j < i ==> !Bad(steps[j], t)
  }

  // ---------- the failure responses ----------

  lemma {:induction false} LookupReplies(qs: seq<Request>, s: Store, revision: int)
    requires forall q :: q in qs ==> q.Range?
    ensures var (u, replies) := Run(qs, s, revision);
      u == s && forall i :: 0 <= i < |qs| ==> replies[i] == Reply(qs[i], s)
  {
    if qs != [] {
      var n := |qs| - 1;
      LookupReplies(qs[..n], s, revision);
      assert qs[n] in qs && qs[n].Range?;
      assert forall i :: 0 <= i < n ==> qs[..n][i] == qs[i];
    }
  }

  /** Where a step's look-ups are in the failure branch. */
  lemma {:induction false} FailureAt(prefix: Path, leaseId: int, steps: seq<Step>, i: nat)
    requires i < |steps|
    ensures var all, at, own := Compile(prefix, leaseId, steps).failure,
        |Compile(prefix, leaseId, steps[..i]).failure|, Failures(prefix, steps[i]);
      && at + |own| <= |all|
      && (forall m :: 0 <= m < |own| ==> all[at + m] == own[m])
      && |Compile(prefix, leaseId, steps[..i + 1]).failure| == at + |own|
  {
    hide *;
    var n := |steps| - 1;
    assert steps == steps[..n] + [steps[n]];
    CompileSnoc(prefix, leaseId, steps[..n], steps[n]);
    PlanParts(prefix, leaseId, steps[n]);
    AppendFailure(Compile(prefix, leaseId, steps[..n]), Plan(prefix, leaseId, steps[n]));
    if i < n {
      FailureAt(prefix, leaseId, steps[..n], i);
      assert steps[..n][..i] == steps[..i] && steps[..n][..i + 1] == steps[..i + 1];
    } else {
      assert steps[..i + 1] == steps;
    }
  }

  lemma AppendFailure(a: Txn, b: Txn)
    ensures Append(a, b).failure == a.failure + b.failure
  {
  }

  predicate Found(r: Response) {
    r.RangeResponse? && r.kvs != []
  }

  /** The responses to the failure branch. */
  function Looks(prefix: Path, leaseId: int, steps: seq<Step>, s: Store, revision: int): seq<Response> {
    Run(Compile(prefix, leaseId, steps).failure, s, revision).1
  }

  /** The responses a step's look-ups get, and what they say about the tree. */
  lemma LooksAt(prefix: Path, leaseId: int, steps: seq<Step>, i: nat, s: Store, revision: int)
    requires i < |steps|
    ensures var at, own := |Compile(prefix, leaseId, steps[..i]).failure|, Failures(prefix, steps[i]);
      var looks := Looks(prefix, leaseId, steps, s, revision);
      && at + |own| <= |looks|
      && (forall m :: 0 <= m < |own| ==> looks[at + m] == Reply(own[m], s))
      && |Compile(prefix, leaseId, steps[..i + 1]).failure| == at + |own|
  {
    OnlyLookups(prefix, leaseId, steps);
    FailureAt(prefix, leaseId, steps, i);
    LookupReplies(Compile(prefix, leaseId, steps).failure, s, revision);
    hide Compile, Failures, Reply;
  }

  lemma CheckLook(prefix: Path, step: Step, s: Store)
    requires step.Check?
    ensures var own := Failures(prefix, step);
      && |own| == 1
      && var r := Reply(own[0], s);
      && r.RangeResponse?
      && (Bad(step, View(prefix, s)) <==> r.kvs == [] || r.kvs[0].version != step.version)
  {
    hide EtcdName, View;
    ViewIs(prefix, s);
  }

  lemma OpLook(prefix: Path, step: Step, s: Store)
    requires !step.Check?
    ensures var own, expected := Failures(prefix, step), Expected(step);
      && |own| == |expected|
      && (Bad(step, View(prefix, s)) <==>
            exists m :: 0 <= m < |own| && expected[m] != Found(Reply(own[m], s)))
  {
    hide EtcdName, View;
    ViewIs(prefix, s);
    var own, expected := Failures(prefix, step), Expected(step);
    assert expected[0] != Found(Reply(own[0], s)) ==> Bad(step, View(prefix, s));
    if |own| > 1 {
      assert expected[1] != Found(Reply(own[1], s)) ==> Bad(step, View(prefix, s));
    }
  }

  // ---------- the walk ----------

  /** The walk of `commit` over the responses of a failed transaction. */
  method BlameFailure(prefix: Path, transaction: Transaction, expected: seq<seq<bool>>, responses: seq<Response>,
                      ghost leaseId: int, ghost s: Store, ghost revision: int)
      returns (e: Error)
    requires |expected| == |transaction.ops|
    requires forall i :: 0 <= i < |expected| ==> expected[i] == Expected(transaction.ops[i])
    requires responses == Looks(prefix, leaseId, transaction.Steps(), s, revision)
    ensures match e
      case TxnFailed(i) => FirstBad(transaction.Steps(), View(prefix, s), i)
      case ServiceError => forall i :: 0 <= i < |transaction.Steps()| ==> !Bad(transaction.Steps()[i], View(prefix, s))
      case _ => false
  {
    ghost var steps, t := transaction.Steps(), View(prefix, s);
    hide *;
    StepsAre(transaction);
    var n := |transaction.checks|;
    NothingToLookAt(prefix, leaseId, steps);
    for i := 0 to n
      invariant |Compile(prefix, leaseId, steps[..i]).failure| == i
      invariant forall m :: 0 <= m < i ==> !Bad(steps[m], t)
    {
      var check: CheckStep := transaction.checks[i];
      LooksAt(prefix, leaseId, steps, i, s, revision);
      assert steps[i] == check;
      CheckLook(prefix, check, s);
      assert responses[i] == Reply(Failures(prefix, steps[i])[0], s);
      if responses[i].kvs == [] || check.version != responses[i].kvs[0].version {
        BlameIs(steps, t, i);
        return TxnFailed(i);
      }
    }
    var j := 0;
    for i := 0 to |transaction.ops|
      invariant |Compile(prefix, leaseId, steps[..n + i]).failure| == n + j
      invariant forall m :: 0 <= m < n + i ==> !Bad(steps[m], t)
    {
      LooksAt(prefix, leaseId, steps, n + i, s, revision);
      var op: OpStep := transaction.ops[i];
      assert steps[n + i] == op;
      OpLook(prefix, op, s);
      var bad := AnyUnexpected(expected[i], responses, n + j);
      if bad {
        BlameIs(steps, t, i + n);
        return TxnFailed(i + n);
      }
      j := j + |expected[i]|;
    }
    e := ServiceError;
  }

  lemma BlameIs(steps: seq<Step>, t: Tree, i: nat)
    requires i < |steps| && Bad(steps[i], t) && forall j :: 0 <= j < i ==> !Bad(steps[j], t)
    ensures FirstBad(steps, t, i)
  {
  }

  /** The inner loop: does any look-up of one operation contradict what was expected? */
  method AnyUnexpected(expected: seq<bool>, responses: seq<Response>, start: nat) returns (bad: bool)
    requires start + |expected| <= |responses|
    ensures bad <==> exists m :: 0 <= m < |expected| && expected[m] != Found(responses[start + m])
  {
    for m := 0 to |expected|
      invariant forall k :: 0 <= k < m ==> expected[k] == Found(responses[start + k])
    {
      if expected[m] != Found(responses[start + m]) {
        return true;
      }
    }
    bad := false;
  }

  lemma NothingToLookAt(prefix: Path, leaseId: int, steps: seq<Step>)
    ensures Compile(prefix, leaseId, steps[..0]) == Txn([], [], [])
  {
  }

  // ---------- what the blame means ----------

  /** A failed transaction always has a failed step, so the walk never runs off its end. */
  lemma SomeStepIsBad(steps: seq<Step>, t: Tree)
    requires !AllHolding(steps, t)
    ensures exists i :: 0 <= i < |steps| && Bad(steps[i], t)
  {
    var i :| 0 <= i < |steps| && !Holding(steps[i], t);
    assert Bad(steps[i], t);
  }

  /** The step blamed is the first whose compare failed, unless it is itself a check for version
      zero of a missing key, whose compare held. */
  lemma BlameIsFirstFailure(steps: seq<Step>, t: Tree, i: nat)
    requires FirstBad(steps, t, i) && Versioned(t)
    ensures (!Holding(steps[i], t) && forall j :: 0 <= j < i ==> Holding(steps[j], t)) <==>
      !(steps[i].Check? && steps[i].version == 0 && steps[i].key !in t)
  {
    forall j | 0 <= j < i
      ensures Holding(steps[j], t)
    {
      assert !Bad(steps[j], t);
    }
  }

  /** No key is created whose parent an earlier step creates. */
  predicate NoChildOfNew(steps: seq<Step>) {
    forall i, j :: 0 <= i < j < |steps| && steps[i].Create? && steps[j].Create? ==> Parent(steps[j].key) != steps[i].key
  }

  /** Of the transactions the fold commits, etcd refuses exactly those with a check for version
      zero, or with a key created below one that the same transaction creates. */
  lemma {:induction false} RefusedExactly(steps: seq<Step>, t: Tree)
    requires KeysApart(steps) && ChecksFirst(steps) && Versioned(t)
    requires Fold(ETCD_RULES, steps, t).Committed?
    ensures AllHolding(steps, t) <==> ChecksNameVersions(steps) && NoChildOfNew(steps)
  {
    hide Fold, KeysApart, Holding, Accepts, Apply, Answers, Versioned;
    if steps != [] {
      var n := |steps| - 1;
      var init, last := steps[..n], steps[n];
      hide ChecksFirst, NoChildOfNew, AllHolding, ChecksNameVersions;
      assert steps == init + [last];
      KeysApartSnoc(init, last);
      FoldLast(ETCD_RULES, init, last, t);
      StepByStep(init, last, t);
      RefusedExactly(init, t);
      LastHolds(init, last, t);
      NoChildOfNewLast(init, last);
    }
  }

  lemma StepByStep(init: seq<Step>, last: Step, t: Tree)
    ensures var steps := init + [last];
      && (ChecksFirst(steps) ==> ChecksFirst(init))
      && (AllHolding(steps, t) <==> AllHolding(init, t) && Holding(last, t))
      && (ChecksNameVersions(steps) <==> ChecksNameVersions(init) && (last.Check? ==> last.version != 0))
  {
    hide Holding;
    var steps := init + [last];
    assert steps[|init|] == last;
    assert forall i :: 0 <= i < |init| ==> steps[i] == init[i];
  }

  lemma NoChildOfNewLast(init: seq<Step>, last: Step)
    ensures NoChildOfNew(init + [last]) <==>
      NoChildOfNew(init) &&
      (last.Create? ==> forall i :: 0 <= i < |init| && init[i].Create? ==> Parent(last.key) != init[i].key)
  {
    var steps := init + [last];
    assert steps[|init|] == last;
    assert forall i :: 0 <= i < |init| ==> steps[i] == init[i];
  }

  /** A step that the fold reaches and accepts held on the tree at the start, with two exceptions. */
  lemma LastHolds(init: seq<Step>, last: Step, t: Tree)
    requires KeysApart(init + [last]) && ChecksFirst(init + [last]) && Versioned(t)
    requires Fold(ETCD_RULES, init, t).Committed? && Accepts(ETCD_RULES, last, Fold(ETCD_RULES, init, t).tree)
    ensures Holding(last, t) <==>
      && (last.Check? ==> last.version != 0)
      && (last.Create? ==> forall i :: 0 <= i < |init| && init[i].Create? ==> Parent(last.key) != init[i].key)
  {
    hide Fold;
    var k := last.key;
    var steps, u := init + [last], Fold(ETCD_RULES, init, t).tree;
    assert steps[|init|] == last;
    assert forall i :: 0 <= i < |init| ==> steps[i] == init[i];
    LastApart(init, last, k);
    KeysAfter(ETCD_RULES, init, t);
    match last {
      case Check(_, _) =>
        OnlyChecksKeep(ETCD_RULES, init, t);
      case Create(_, _, _) =>
        if Parent(k) != [] {
          LastApart(init, last, Parent(k));
          CreatedWasAbsent(init, t, Parent(k));
        }
      case _ =>
        NotBoth(init, last);
    }
  }

  /** A key set or erased by the last step was not created by an earlier one. */
  lemma NotBoth(init: seq<Step>, last: Step)
    requires KeysApart(init + [last]) && (last.Set? || last.Erase?)
    ensures !CreatedBy(init, last.key)
  {
    var steps := init + [last];
    if CreatedBy(init, last.key) {
      var i :| 0 <= i < |init| && init[i].Create? && init[i].key == last.key;
      assert StepsClash(steps[i], steps[|init|]);
      assert false;
    }
  }

  lemma {:induction false} CreatedWasAbsent(steps: seq<Step>, t: Tree, k: Key)
    requires KeysApart(steps) && Fold(ETCD_RULES, steps, t).Committed?
    ensures CreatedBy(steps, k) ==> k !in t
  {
    if steps != [] {
      var init, last := steps[..|steps| - 1], steps[|steps| - 1];
      assert steps == init + [last];
      KeysApartSnoc(init, last);
      FoldLast(ETCD_RULES, init, last, t);
      hide Fold;
      CreatedWasAbsent(init, t, k);
      KeysAfter(ETCD_RULES, init, t);
      ErasedBySnoc(init, last, k);
      LastApart(init, last, k);
    }
  }

  /** Creating a key and a child of it in one transaction is refused although the fold commits:
      the parent is compared before it is created. */
  lemma ParentAndChildRefused(t: Tree, a: Key, b: Key, v: string, w: string)
    requires Parent(b) == a && a !in t && b !in t && ParentReady(ETCD_RULES, t, a)
    ensures var steps := [Create(a, v, false), Create(b, w, false)];
      && Fold(ETCD_RULES, steps, t).Committed?
      && !AllHolding(steps, t) && FirstBad(steps, t, 1)
  {
    var s1, s2 := Create(a, v, false), Create(b, w, false);
    var steps := [s1, s2];
    assert a != b;
    FoldLast(ETCD_RULES, [], s1, t);
    FoldLast(ETCD_RULES, [s1], s2, t);
    assert [] + [s1] == [s1] && [s1] + [s2] == steps;
    assert steps[0] == s1 && steps[1] == s2;
    assert !Holding(steps[1], t);
  }
}
