/** What one round does when nobody interferes: exactly when a transaction goes through, exactly
    when it agrees with the fold, and which transactions never stop retrying. */
module ZkQuiet {
  import opened Errors
  import opened Keys
  import opened Tree
  import opened Boundaries
  import opened ZkStore
  import opened ZkErase
  import opened ZkCommit

  /** Every scan of the round saw the store the multi-operation then met. */
  ghost predicate Quiet(prefix: Path, steps: seq<Step>, scans: seq<Scan>, z: ZStore)
    requires |scans| == |steps|
  {
    forall i :: 0 <= i < |steps| && steps[i].Erase? ==> Mirrors(z, prefix + steps[i].key, scans[i])
  }

  // ---------- which nodes a transaction leaves ----------

  /** The nodes after a step, and after several. Other programs may have nodes of their own below
      the prefix, under names the library would refuse; an erase takes those as well. */
  function NodesStep(prefix: Path, step: Step, nodes: set<ZPath>): set<ZPath> {
    if step.Create? then nodes + {prefix + step.key}
    else if step.Erase? then NotUnder(nodes, prefix + step.key)
    else nodes
  }

  function NodesAfter(prefix: Path, steps: seq<Step>, nodes: set<ZPath>): set<ZPath> {
    if steps == [] then nodes
    else NodesStep(prefix, steps[|steps| - 1], NodesAfter(prefix, steps[..|steps| - 1], nodes))
  }

  function NotUnder(nodes: set<ZPath>, root: ZPath): set<ZPath> {
    set q | q in nodes && !(root <= q)
  }

  lemma {:induction false} NodesOfRun(prefix: Path, steps: seq<Step>, scans: seq<Scan>, z: ZStore)
    requires |scans| == |steps| && Serves(prefix, z)
    ensures var r := ZRun(Compile(prefix, steps, scans), z);
      r.ZDone? ==> r.store.Keys == NodesAfter(prefix, steps, z.Keys)
  {
    if steps == [] {
      EmptyRun(prefix, z);
    } else {
      hide *;
      var n := |steps| - 1;
      var init, last := steps[..n], steps[n];
      NodesOfRun(prefix, init, scans[..n], z);
      NodesLast(prefix, steps, z.Keys);
      CompileLast(prefix, steps, scans);
      ZRunConcat(Compile(prefix, init, scans[..n]), Plan(prefix, last, scans[n]), z);
      if ZRun(Compile(prefix, init, scans[..n]), z).ZDone? {
        ServesAfter(prefix, init, scans[..n], z);
        if ZRun(Compile(prefix, steps, scans), z).ZDone? {
          NodesOfStep(prefix, last, scans[n], ZRun(Compile(prefix, init, scans[..n]), z).store);
        }
      }
    }
  }

  lemma NodesLast(prefix: Path, steps: seq<Step>, nodes: set<ZPath>)
    requires steps != []
    ensures var n := |steps| - 1;
      NodesAfter(prefix, steps, nodes) == NodesStep(prefix, steps[n], NodesAfter(prefix, steps[..n], nodes))
  {
  }

  lemma NodesOfStep(prefix: Path, step: Step, scan: Scan, z: ZStore)
    requires Serves(prefix, z) && ZRun(Plan(prefix, step, scan), z).ZDone?
    ensures ZRun(Plan(prefix, step, scan), z).store.Keys == NodesStep(prefix, step, z.Keys)
  {
    hide ZRun, ZClosed;
    if step.Erase? {
      EraseGroup(prefix + step.key, scan, z);
    } else {
      var op := Plan(prefix, step, scan)[0];
      assert Plan(prefix, step, scan) == [op];
      ZRunOne(op, z);
    }
  }

  /** As far as keys are concerned this is what the fold does. */
  lemma {:induction false} NodesOfFold(prefix: Path, steps: seq<Step>, z: ZStore)
    requires Fold(ZK_RULES, steps, View(prefix, z)).Committed?
    ensures forall j: Key ::
      prefix + j in NodesAfter(prefix, steps, z.Keys) <==> j in Fold(ZK_RULES, steps, View(prefix, z)).tree
  {
    hide View;
    if steps == [] {
      ViewIs(prefix, z);
    } else {
      var n := |steps| - 1;
      NodesOfFold(prefix, steps[..n], z);
      forall j: Key
        ensures prefix + j in NodesAfter(prefix, steps, z.Keys) <==> j in Fold(ZK_RULES, steps, View(prefix, z)).tree
      {
        PrefixOrder(prefix, steps[n].key, j);
        assert prefix + j == prefix + steps[n].key ==> j == steps[n].key by {
          assert (prefix + j)[|prefix|..] == j && (prefix + steps[n].key)[|prefix|..] == steps[n].key;
        }
      }
    }
  }

  // ---------- the condition ----------

  /** The same nodes lie below `root`. */
  ghost predicate KeptBelow(root: ZPath, nodes: set<ZPath>, after: set<ZPath>) {
    forall q :: root < q ==> (q in nodes <==> q in after)
  }

  /** No erase that the fold reaches finds other nodes below its target than there were when the
      transaction started. */
  ghost predicate BelowKept(prefix: Path, steps: seq<Step>, z: ZStore) {
    forall i :: 0 <= i < |steps| ==> BelowKeptAt(prefix, steps, z, i)
  }

  ghost predicate BelowKeptAt(prefix: Path, steps: seq<Step>, z: ZStore, i: nat)
    requires i < |steps|
  {
    steps[i].Erase? && Fold(ZK_RULES, steps[..i], View(prefix, z)).Committed? ==>
      KeptBelow(prefix + steps[i].key, z.Keys, NodesAfter(prefix, steps[..i], z.Keys))
  }

  lemma BelowKeptLast(prefix: Path, steps: seq<Step>, z: ZStore)
    requires steps != []
    ensures var n := |steps| - 1;
      BelowKept(prefix, steps, z) <==> BelowKept(prefix, steps[..n], z) && BelowKeptAt(prefix, steps, z, n)
  {
    hide BelowKeptAt;
    var n := |steps| - 1;
    forall i | 0 <= i < n
      ensures BelowKeptAt(prefix, steps, z, i) <==> BelowKeptAt(prefix, steps[..n], z, i)
    {
      KeptAtPrefix(prefix, steps, z, i);
    }
  }

  lemma KeptAtPrefix(prefix: Path, steps: seq<Step>, z: ZStore, i: nat)
    requires i < |steps| - 1
    ensures BelowKeptAt(prefix, steps, z, i) <==> BelowKeptAt(prefix, steps[..|steps| - 1], z, i)
  {
    hide Fold, View, NodesAfter, KeptBelow;
    assert steps[..|steps| - 1][..i] == steps[..i];
  }

  // ---------- one erase ----------

  /** The scan of `z`, erased later on `u`. */
  lemma QuietErase(root: ZPath, scan: Scan, z: ZStore, u: ZStore)
    requires ZClosed(z) && ZClosed(u) && root != [] && Mirrors(z, root, scan)
    ensures ZRun(Erases(Query(root, true, scan)), u).ZDone? <==>
      root in u && KeptBelow(root, z.Keys, u.Keys)
  {
    EraseGoesThrough(root, scan, z, u);
    QueryMembers(z, root, scan);
    hide ZRun, ZClosed, Query, Mirrors;
    forall q
      ensures q in Under(z, root) + {root} <==> q == root || (root < q && q in z)
      ensures q in Under(u, root) <==> (q == root && root in u) || (root < q && q in u)
    {
      assert root <= q <==> q == root || root < q;
    }
    assert KeptBelow(root, z.Keys, u.Keys) && root in u ==> Under(z, root) + {root} == Under(u, root);
  }

  lemma QueryMembers(z: ZStore, root: ZPath, scan: Scan)
    requires ZClosed(z) && Mirrors(z, root, scan)
    ensures Members(Query(root, true, scan)) == Under(z, root) + {root}
  {
    QueryLists(z, root, scan);
    assert [root][0] in Members([root]);
  }

  /** Without the target nothing of the list can be erased, so it stops at the target exactly if
      there was nothing below. */
  lemma QuietMissing(root: ZPath, scan: Scan, z: ZStore, u: ZStore)
    requires ZClosed(z) && ZClosed(u) && root != [] && Mirrors(z, root, scan) && root !in u
    ensures var plan := Erases(Query(root, true, scan));
      ZRun(plan, u) == ZAborted(|plan| - 1) <==> KeptBelow(root, z.Keys, u.Keys)
  {
    hide *;
    var below := QueryBelow(root, scan);
    StopsAtTargetExactly(root, scan, u);
    StopsMissing(root, scan, u);
    BelowMembers(root, scan, z);
    NothingUnder(root, u);
    KeptMissing(root, z, u, Members(below));
    if below == [] {
      NothingToErase(u);
    } else {
      FirstListed(below);
      assert below[0] !in u;
      if ZRun(Erases(below), u).ZDone? {
        ErasedExactly(below, u);
        assert false;
      }
    }
  }

  lemma StopsMissing(root: ZPath, scan: Scan, u: ZStore)
    requires root !in u
    ensures StopsAtTarget(root, scan, u) <==> ZRun(Erases(QueryBelow(root, scan)), u).ZDone?
  {
    hide ZRun, QueryBelow, Erases, UnlistedChild;
  }

  lemma NothingUnder(root: ZPath, u: ZStore)
    requires ZClosed(u) && root !in u
    ensures forall q :: q in u ==> !(root < q)
  {
    forall q | q in u
      ensures !(root < q)
    {
      if root < q {
        ZAncestors(u, root, q);
      }
    }
  }

  lemma KeptMissing(root: ZPath, z: ZStore, u: ZStore, listed: set<ZPath>)
    requires forall q :: q in listed <==> root < q && q in z
    requires forall q :: q in u ==> !(root < q)
    ensures KeptBelow(root, z.Keys, u.Keys) <==> listed == {}
    ensures forall q :: q in listed ==> q !in u
  {
    if listed == {} {
      assert forall q :: q in z ==> !(root < q) by {
        forall q | q in z
          ensures !(root < q)
        {
          assert q !in listed;
        }
      }
    }
  }

  lemma FirstListed(paths: seq<ZPath>)
    requires paths != []
    ensures paths[0] in Members(paths)
  {
  }

  lemma NothingToErase(u: ZStore)
    ensures ZRun(Erases([]), u).ZDone? && Members([]) == {}
  {
  }

  // ---------- one step ----------

  /** The step's raw operations do on `u` what the fold does: they pass, or fail at the last. */
  ghost predicate StepAgrees(prefix: Path, step: Step, scan: Scan, u: ZStore) {
    var plan := Plan(prefix, step, scan);
    if Accepts(ZK_RULES, step, View(prefix, u)) then ZRun(plan, u).ZDone? else ZRun(plan, u) == ZAborted(|plan| - 1)
  }

  lemma StepAgreesExactly(prefix: Path, step: Step, scan: Scan, z: ZStore, u: ZStore)
    requires Serves(prefix, z) && Serves(prefix, u)
    requires step.Erase? ==> Mirrors(z, prefix + step.key, scan)
    ensures StepAgrees(prefix, step, scan, u) <==>
      (step.Erase? ==> KeptBelow(prefix + step.key, z.Keys, u.Keys))
  {
    hide View, ZRun, ZClosed, Mirrors, Query, KeptBelow, Apply, Answers, Collect;
    if step.Erase? {
      var root := prefix + step.key;
      ViewIs(prefix, u);
      QuietErase(root, scan, z, u);
      if root !in u {
        QuietMissing(root, scan, z, u);
      }
    } else {
      StepSound(prefix, step, scan, u);
      PlanLength(prefix, step, scan);
    }
  }

  lemma EmptyRun(prefix: Path, z: ZStore)
    ensures ZRun(Compile(prefix, [], []), z) == ZDone(z, [])
  {
  }

  // ---------- exactly when a quiet round goes through, and when it agrees ----------

  /** One pass agrees with the fold: same tree and answers, or the same failing index. */
  ghost predicate Agrees(prefix: Path, steps: seq<Step>, round: Round)
    requires |round.scans| == |steps|
  {
    var v := Attempt(prefix, steps, round);
    match Fold(ZK_RULES, steps, View(prefix, round.store))
    case Committed(t, answers) => v.Returned? && View(prefix, v.store) == t && v.answers == answers
    case Failed(f) => v == Threw(f)
  }

  /** The same, said about the run. */
  ghost predicate RunAgrees(prefix: Path, steps: seq<Step>, scans: seq<Scan>, z: ZStore)
    requires |scans| == |steps|
  {
    match Fold(ZK_RULES, steps, View(prefix, z))
    case Committed(_, _) => ZRun(Compile(prefix, steps, scans), z).ZDone?
    case Failed(f) => AbortsAt(prefix, steps, scans, z, f)
  }

  lemma AgreesIs(prefix: Path, steps: seq<Step>, scans: seq<Scan>, z: ZStore)
    requires |scans| == |steps| && Serves(prefix, z)
    ensures Agrees(prefix, steps, Round(scans, z)) <==> RunAgrees(prefix, steps, scans, z)
  {
    hide View, ZRun, Compile, Bounds, LowerBound, Fold, AbortsAt, Collect, Serves, Owner;
    CompiledSound(prefix, steps, scans, z);
    match Fold(ZK_RULES, steps, View(prefix, z)) {
      case Committed(_, _) =>
      case Failed(f) => ThrowIs(prefix, steps, Round(scans, z), f);
    }
  }

  /** On a quiet store one pass gives the fold's answers and tree, or throws the fold's failing
      index, if and only if no reached erase finds the nodes below its target changed. In all
      other cases it throws another index or asks for another round. */
  lemma QuietAgrees(prefix: Path, steps: seq<Step>, scans: seq<Scan>, z: ZStore)
    requires |scans| == |steps| && Serves(prefix, z) && Quiet(prefix, steps, scans, z)
    ensures Agrees(prefix, steps, Round(scans, z)) <==> BelowKept(prefix, steps, z)
  {
    hide *;
    AgreesIs(prefix, steps, scans, z);
    RunAgreesExactly(prefix, steps, scans, z);
  }

  lemma {:induction false} RunAgreesExactly(prefix: Path, steps: seq<Step>, scans: seq<Scan>, z: ZStore)
    requires |scans| == |steps| && Serves(prefix, z) && Quiet(prefix, steps, scans, z)
    ensures RunAgrees(prefix, steps, scans, z) <==> BelowKept(prefix, steps, z)
  {
    hide View, Mirrors, RunAgrees, ZRun, Compile, BelowKeptAt, Serves, StepAgrees, Fold;
    if steps == [] {
      NoStepsAgree(prefix, z);
    } else {
      var n := |steps| - 1;
      RunAgreesExactly(prefix, steps[..n], scans[..n], z);
      BelowKeptLast(prefix, steps, z);
      hide BelowKept;
      LastAgrees(prefix, steps, scans, z);
      KeptAtIs(prefix, steps, z, n);
      hide KeptBelow, NodesAfter;
      if ZRun(Compile(prefix, steps[..n], scans[..n]), z).ZDone? {
        ServesAfter(prefix, steps[..n], scans[..n], z);
        NodesOfRun(prefix, steps[..n], scans[..n], z);
        StepAgreesExactly(prefix, steps[n], scans[n], z, ZRun(Compile(prefix, steps[..n], scans[..n]), z).store);
      }
    }
  }

  lemma NoStepsAgree(prefix: Path, z: ZStore)
    ensures RunAgrees(prefix, [], [], z)
  {
    hide View;
  }

  lemma KeptAtIs(prefix: Path, steps: seq<Step>, z: ZStore, i: nat)
    requires i < |steps|
    ensures BelowKeptAt(prefix, steps, z, i) <==>
      (steps[i].Erase? && Fold(ZK_RULES, steps[..i], View(prefix, z)).Committed? ==>
        KeptBelow(prefix + steps[i].key, z.Keys, NodesAfter(prefix, steps[..i], z.Keys)))
  {
    hide Fold, View, KeptBelow, NodesAfter;
  }

  /** What the last step adds to agreement. */
  lemma LastAgrees(prefix: Path, steps: seq<Step>, scans: seq<Scan>, z: ZStore)
    requires |scans| == |steps| > 0 && Serves(prefix, z)
    ensures var n := |steps| - 1;
      var r, fold := ZRun(Compile(prefix, steps[..n], scans[..n]), z), Fold(ZK_RULES, steps[..n], View(prefix, z));
      && (fold.Committed? && RunAgrees(prefix, steps[..n], scans[..n], z) ==> r.ZDone?)
      && (RunAgrees(prefix, steps, scans, z) <==>
            RunAgrees(prefix, steps[..n], scans[..n], z) &&
            (fold.Committed? ==> StepAgrees(prefix, steps[n], scans[n], r.store)))
  {
    hide View, ZRun, Compile, Plan, Fold, Bounds, Accepts, Apply, Answers, Serves, StrictlyIncreasing, Owner;
    var n := |steps| - 1;
    var t, head, tail := View(prefix, z), Compile(prefix, steps[..n], scans[..n]), Plan(prefix, steps[n], scans[n]);
    CompileLast(prefix, steps, scans);
    ZRunConcat(head, tail, z);
    ZkCommit.BoundsIncrease(prefix, steps[..n], scans[..n]);
    PlanLength(prefix, steps[n], scans[n]);
    assert steps == steps[..n] + [steps[n]];
    FoldLast(ZK_RULES, steps[..n], steps[n], t);
    FoldIndex(steps[..n], t);
    if ZRun(head, z).ZDone? {
      ServesAfter(prefix, steps[..n], scans[..n], z);
    }
  }

  lemma FoldIndex(steps: seq<Step>, t: Tree)
    ensures var o := Fold(ZK_RULES, steps, t); o.Failed? ==> o.index < |steps|
  {
  }

  /** A quiet round returns if and only if the fold commits and no reached erase finds the nodes
      below its target changed. */
  lemma QuietExact(prefix: Path, steps: seq<Step>, scans: seq<Scan>, z: ZStore)
    requires |scans| == |steps| && Serves(prefix, z) && Quiet(prefix, steps, scans, z)
    ensures ZRun(Compile(prefix, steps, scans), z).ZDone? <==>
      Fold(ZK_RULES, steps, View(prefix, z)).Committed? && BelowKept(prefix, steps, z)
  {
    hide View, Mirrors, ZRun, Compile, Bounds, BelowKept, Serves, Fold, Owner, Quiet;
    RunAgreesExactly(prefix, steps, scans, z);
    CompiledSound(prefix, steps, scans, z);
  }

  // ---------- exactly when a quiet round throws, and when it retries ----------

  /** The fold reaches step `i`, and so does the round. */
  ghost predicate QuietReaches(prefix: Path, steps: seq<Step>, z: ZStore, i: nat)
    requires i < |steps|
  {
    Fold(ZK_RULES, steps[..i], View(prefix, z)).Committed? && BelowKept(prefix, steps[..i], z)
  }

  /** Step `i` is a reached erase, and earlier steps have taken a node from below its target, or
      given a new child to one. */
  ghost predicate BreaksAt(prefix: Path, steps: seq<Step>, z: ZStore, i: nat)
    requires i < |steps|
  {
    && steps[i].Erase? && QuietReaches(prefix, steps, z, i)
    && !ListStands(prefix + steps[i].key, z.Keys, NodesAfter(prefix, steps[..i], z.Keys))
  }

  /** A quiet round asks for another one if and only if some step breaks. The next quiet round then
      does the same. */
  lemma QuietRetries(prefix: Path, steps: seq<Step>, scans: seq<Scan>, z: ZStore)
    requires |scans| == |steps| && Serves(prefix, z) && Quiet(prefix, steps, scans, z)
    ensures Attempt(prefix, steps, Round(scans, z)) == Retry <==>
      exists i :: 0 <= i < |steps| && BreaksAt(prefix, steps, z, i)
  {
    hide *;
    RetriesExactly(prefix, steps, scans, z);
    forall i | 0 <= i < |steps|
      ensures BreaksAt(prefix, steps, z, i) <==> StopsBelow(prefix, steps, scans, z, i)
    {
      BreaksIsStops(prefix, steps, scans, z, i);
    }
  }

  lemma BreaksIsStops(prefix: Path, steps: seq<Step>, scans: seq<Scan>, z: ZStore, i: nat)
    requires |scans| == |steps| && Serves(prefix, z) && Quiet(prefix, steps, scans, z) && i < |steps|
    ensures BreaksAt(prefix, steps, z, i) <==> StopsBelow(prefix, steps, scans, z, i)
  {
    hide ZRun, Compile, View, Fold, BelowKept, NodesAfter, Mirrors, ListStands, QueryBelow, Erases, ZClosed;
    QuietHead(prefix, steps, scans, z, i);
    if steps[i].Erase? && QuietReaches(prefix, steps, z, i) {
      QuietBelow(prefix + steps[i].key, scans[i], z, ZRun(Compile(prefix, steps[..i], scans[..i]), z).store);
    }
  }

  /** What the steps before `i` come to in a quiet round. */
  lemma QuietHead(prefix: Path, steps: seq<Step>, scans: seq<Scan>, z: ZStore, i: nat)
    requires |scans| == |steps| && Serves(prefix, z) && Quiet(prefix, steps, scans, z) && i < |steps|
    ensures var r := ZRun(Compile(prefix, steps[..i], scans[..i]), z);
      && (r.ZDone? <==> QuietReaches(prefix, steps, z, i))
      && (r.ZDone? ==>
            && Serves(prefix, r.store) && r.store.Keys == NodesAfter(prefix, steps[..i], z.Keys)
            && Fold(ZK_RULES, steps[..i], View(prefix, z)).tree == View(prefix, r.store))
  {
    hide ZRun, Compile, View, Fold, BelowKept, NodesAfter, Mirrors, Serves;
    QuietExact(prefix, steps[..i], scans[..i], z);
    NodesOfRun(prefix, steps[..i], scans[..i], z);
    if ZRun(Compile(prefix, steps[..i], scans[..i]), z).ZDone? {
      ServesAfter(prefix, steps[..i], scans[..i], z);
    }
  }

  /** Step `i` is reached and fails at its last raw operation: it is not acceptable; or it is an
      erase whose list stands, but whose target is missing or has got a new child. */
  ghost predicate FailsAt(prefix: Path, steps: seq<Step>, z: ZStore, i: nat)
    requires i < |steps|
  {
    && QuietReaches(prefix, steps, z, i)
    && var root, nodes := prefix + steps[i].key, NodesAfter(prefix, steps[..i], z.Keys);
       if steps[i].Erase? then ListStands(root, z.Keys, nodes) && (root !in nodes || NewChild(root, z.Keys, nodes))
       else !Accepts(ZK_RULES, steps[i], Fold(ZK_RULES, steps[..i], View(prefix, z)).tree)
  }

  /** A quiet round throws an index if and only if that step fails so. */
  lemma QuietThrows(prefix: Path, steps: seq<Step>, scans: seq<Scan>, z: ZStore, i: nat)
    requires |scans| == |steps| && Serves(prefix, z) && Quiet(prefix, steps, scans, z)
    ensures Attempt(prefix, steps, Round(scans, z)) == Threw(i) <==> i < |steps| && FailsAt(prefix, steps, z, i)
  {
    hide *;
    ThrowsExactly(prefix, steps, Round(scans, z), i);
    if i < |steps| {
      FailsIs(prefix, steps, Round(scans, z), i);
      FailsIsReached(prefix, steps, scans, z, i);
    } else {
      TooFar(prefix, steps, Round(scans, z), i);
    }
  }

  lemma FailsIsReached(prefix: Path, steps: seq<Step>, scans: seq<Scan>, z: ZStore, i: nat)
    requires |scans| == |steps| && Serves(prefix, z) && Quiet(prefix, steps, scans, z) && i < |steps|
    ensures var r := ZRun(Compile(prefix, steps[..i], scans[..i]), z);
      r.ZDone? && FailsAtLast(prefix, steps[i], scans[i], r.store) <==> FailsAt(prefix, steps, z, i)
  {
    hide ZRun, Compile, View, Fold, BelowKept, NodesAfter, Mirrors, ListStands, QueryBelow, Erases, ZClosed, Accepts,
      QuietReaches, UnlistedChild, NewChild, Members;
    QuietHead(prefix, steps, scans, z, i);
    if QuietReaches(prefix, steps, z, i) && steps[i].Erase? {
      var root, u := prefix + steps[i].key, ZRun(Compile(prefix, steps[..i], scans[..i]), z).store;
      QuietBelow(root, scans[i], z, u);
      BelowMembers(root, scans[i], z);
      UnlistedIsNew(root, scans[i], z.Keys, u);
    }
  }

  lemma UnlistedIsNew(root: ZPath, scan: Scan, nodes: set<ZPath>, u: ZStore)
    requires forall q :: q in Members(QueryBelow(root, scan)) <==> root < q && q in nodes
    ensures UnlistedChild(root, scan, u) <==> NewChild(root, nodes, u.Keys)
  {
    hide Members, QueryBelow;
    assert forall c :: c in u && c != [] && Parent(c) == root ==> root < c;
  }

  // ---------- the condition in terms of keys ----------

  /** Below the prefix only names the library accepts are in use. */
  ghost predicate AllVisible(prefix: Path, z: ZStore) {
    forall q :: q in z && prefix < q ==> ValidPath(q[|prefix|..])
  }

  /** Every erase that the fold reaches finds below its target the keys that were there when the
      transaction started. */
  ghost predicate KeysKept(steps: seq<Step>, t: Tree) {
    forall i :: 0 <= i < |steps| ==> KeysKeptAt(steps, t, i)
  }

  ghost predicate KeysKeptAt(steps: seq<Step>, t: Tree, i: nat)
    requires i < |steps|
  {
    steps[i].Erase? && Fold(ZK_RULES, steps[..i], t).Committed? ==>
      forall j: Key :: steps[i].key < j ==> (j in Fold(ZK_RULES, steps[..i], t).tree <==> j in t)
  }

  /** If other programs keep out, the condition is one on the tree. */
  lemma KeptIsKeysKept(prefix: Path, steps: seq<Step>, z: ZStore)
    requires AllVisible(prefix, z)
    ensures BelowKept(prefix, steps, z) <==> KeysKept(steps, View(prefix, z))
  {
    hide BelowKeptAt, KeysKeptAt;
    forall i | 0 <= i < |steps|
      ensures BelowKeptAt(prefix, steps, z, i) <==> KeysKeptAt(steps, View(prefix, z), i)
    {
      KeptAtIsKeysKeptAt(prefix, steps, z, i);
    }
  }

  lemma KeptAtIsKeysKeptAt(prefix: Path, steps: seq<Step>, z: ZStore, i: nat)
    requires AllVisible(prefix, z) && i < |steps|
    ensures BelowKeptAt(prefix, steps, z, i) <==> KeysKeptAt(steps, View(prefix, z), i)
  {
    hide View, Fold;
    if steps[i].Erase? && Fold(ZK_RULES, steps[..i], View(prefix, z)).Committed? {
      var k, nodes := steps[i].key, NodesAfter(prefix, steps[..i], z.Keys);
      NodesOfFold(prefix, steps[..i], z);
      NodesVisible(prefix, steps[..i], z);
      ViewIs(prefix, z);
      hide NodesAfter;
      forall q | prefix + k < q && (q in z || q in nodes)
        ensures q == prefix + q[|prefix|..] && ValidPath(q[|prefix|..]) && k < q[|prefix|..]
      {
        assert prefix < q;
      }
      forall j: Key | k < j
        ensures prefix + k < prefix + j
      {
        PrefixOrder(prefix, k, j);
      }
    }
  }

  lemma {:induction false} NodesVisible(prefix: Path, steps: seq<Step>, z: ZStore)
    requires AllVisible(prefix, z)
    ensures forall q :: q in NodesAfter(prefix, steps, z.Keys) && prefix < q ==> ValidPath(q[|prefix|..])
  {
    if steps != [] {
      var n := |steps| - 1;
      NodesVisible(prefix, steps[..n], z);
      assert (prefix + steps[n].key)[|prefix|..] == steps[n].key;
    }
  }

  // ---------- a condition on the transaction alone ----------

  /** Erase targets are pairwise unrelated, and nothing is created below a later target. */
  predicate Separate(steps: seq<Step>) {
    forall i, j :: 0 <= j < i < |steps| && steps[i].Erase? ==>
      && (steps[j].Erase? ==> !Related(steps[j].key, steps[i].key))
      && (steps[j].Create? ==> !(steps[i].key < steps[j].key))
  }

  lemma {:induction false} BelowUnchanged(prefix: Path, steps: seq<Step>, nodes: set<ZPath>, k: Key)
    requires forall j :: 0 <= j < |steps| ==>
      && (steps[j].Erase? ==> !Related(steps[j].key, k))
      && (steps[j].Create? ==> !(k < steps[j].key))
    ensures KeptBelow(prefix + k, nodes, NodesAfter(prefix, steps, nodes))
  {
    if steps != [] {
      var init, last := steps[..|steps| - 1], steps[|steps| - 1];
      BelowUnchanged(prefix, init, nodes, k);
      var before, after := NodesAfter(prefix, init, nodes), NodesAfter(prefix, steps, nodes);
      forall q | prefix + k < q
        ensures q in before <==> q in after
      {
        PrefixOrder(prefix, k, last.key);
        PrefixOrder(prefix, last.key, k);
        BothAbove(prefix + last.key, prefix + k, q);
        assert prefix + k < prefix + last.key ==> k < last.key;
      }
    }
  }

  /** A separate transaction agrees with the fold in one quiet pass. */
  lemma SeparateAgrees(prefix: Path, steps: seq<Step>, scans: seq<Scan>, z: ZStore)
    requires |scans| == |steps| && Serves(prefix, z) && Quiet(prefix, steps, scans, z)
    requires Separate(steps)
    ensures Agrees(prefix, steps, Round(scans, z))
  {
    QuietAgrees(prefix, steps, scans, z);
    hide View, Fold, NodesAfter, Agrees, Serves, Mirrors, KeptBelow;
    forall i | 0 <= i < |steps|
      ensures BelowKeptAt(prefix, steps, z, i)
    {
      if steps[i].Erase? {
        BelowUnchanged(prefix, steps[..i], z.Keys, steps[i].key);
      }
    }
  }

  // ---------- rounds that never end, and failures that are none ----------

  /** Erasing a key and then the same key, or one below it, that had something below: the fold
      fails at the second erase, but every quiet round asks for another one. */
  lemma RepeatedErasesRetry(prefix: Path, z: ZStore, a: Key, b: Key, c: ZPath, scans: seq<Scan>)
    requires |scans| == 2 && b <= a && prefix + a < c && c in z
    requires Serves(prefix, z) && Quiet(prefix, [Erase(b), Erase(a)], scans, z)
    ensures Fold(ZK_RULES, [Erase(b), Erase(a)], View(prefix, z)) == Failed(1)
    ensures Attempt(prefix, [Erase(b), Erase(a)], Round(scans, z)) == Retry
  {
    hide View, Fold, Query, ZClosed, Attempt, ZRun;
    var s1, s2 := Erase(b), Erase(a);
    assert [s1, s2][0] == s1 && [s1, s2][1] == s2;
    assert Mirrors(z, prefix + b, scans[0]) && Mirrors(z, prefix + a, scans[1]);
    RepeatedFold(prefix, z, a, b, c);
    PrefixOrder(prefix, b, a);
    RepeatedLists(prefix + a, prefix + b, c, scans, z);
    ErasePlanIs(prefix, a, scans[1]);
    ErasePlanIs(prefix, b, scans[0]);
    hide *;
    TwoSteps(prefix, s1, s2, scans, z);
  }

  lemma RepeatedLists(a: ZPath, b: ZPath, c: ZPath, scans: seq<Scan>, z: ZStore)
    requires |scans| == 2 && ZClosed(z) && b <= a < c && c in z && b != []
    requires Mirrors(z, b, scans[0]) && Mirrors(z, a, scans[1])
    ensures var first, second := Query(b, true, scans[0]), Query(a, true, scans[1]);
      && ZRun(Erases(first), z).ZDone?
      && var r := ZRun(Erases(second), ZRun(Erases(first), z).store);
      && r.ZAborted? && r.index < |second| - 1
  {
    var first, second := Query(b, true, scans[0]), Query(a, true, scans[1]);
    ZAncestors(z, b, c);
    QueryMembers(z, b, scans[0]);
    QueryMembers(z, a, scans[1]);
    QuietErase(b, scans[0], z, z);
    QueryUnder(a, true, scans[1]);
    hide Query, Mirrors, ZClosed;
    assert c in Under(z, a) && c in Under(z, b);
    ErasedExactly(first, z);
    StopsEarly(second, c, z - Members(first));
  }

  lemma RepeatedFold(prefix: Path, z: ZStore, a: Key, b: Key, c: ZPath)
    requires Serves(prefix, z) && b <= a && prefix + a < c && c in z
    ensures Fold(ZK_RULES, [Erase(b), Erase(a)], View(prefix, z)) == Failed(1)
  {
    var t := View(prefix, z);
    ViewIs(prefix, z);
    PrefixOrder(prefix, b, a);
    ZAncestors(z, prefix + b, c);
    hide View;
    FoldLast(ZK_RULES, [], Erase(b), t);
    FoldLast(ZK_RULES, [Erase(b)], Erase(a), t);
    assert [] + [Erase(b)] == [Erase(b)] && [Erase(b)] + [Erase(a)] == [Erase(b), Erase(a)];
  }

  /** Erasing a present key and then an ancestor of it: the fold commits, but every quiet round
      asks for another one. */
  lemma NestedErasesRetry(prefix: Path, z: ZStore, a: Key, b: Key, scans: seq<Scan>)
    requires |scans| == 2 && b < a && prefix + a in z
    requires Serves(prefix, z) && Quiet(prefix, [Erase(a), Erase(b)], scans, z)
    ensures Fold(ZK_RULES, [Erase(a), Erase(b)], View(prefix, z)).Committed?
    ensures Attempt(prefix, [Erase(a), Erase(b)], Round(scans, z)) == Retry
  {
    hide View, Fold, Query, ZClosed, Attempt, ZRun;
    var s1, s2 := Erase(a), Erase(b);
    assert [s1, s2][0] == s1 && [s1, s2][1] == s2;
    assert Mirrors(z, prefix + a, scans[0]) && Mirrors(z, prefix + b, scans[1]);
    NestedFold(prefix, z, a, b);
    ParentsInPrefix(prefix, b, a);
    NestedLists(prefix + a, prefix + b, scans, z);
    ErasePlanIs(prefix, a, scans[0]);
    ErasePlanIs(prefix, b, scans[1]);
    hide *;
    TwoSteps(prefix, s1, s2, scans, z);
  }

  lemma ErasePlanIs(prefix: Path, k: Key, scan: Scan)
    ensures Plan(prefix, Erase(k), scan) == Erases(Query(prefix + k, true, scan))
  {
  }

  lemma NestedLists(a: ZPath, b: ZPath, scans: seq<Scan>, z: ZStore)
    requires |scans| == 2 && ZClosed(z) && a in z && b < a && b != []
    requires Mirrors(z, a, scans[0]) && Mirrors(z, b, scans[1])
    ensures var first, second := Query(a, true, scans[0]), Query(b, true, scans[1]);
      && ZRun(Erases(first), z).ZDone?
      && var r := ZRun(Erases(second), ZRun(Erases(first), z).store);
      && r.ZAborted? && r.index < |second| - 1
  {
    var first, second := Query(a, true, scans[0]), Query(b, true, scans[1]);
    QueryMembers(z, a, scans[0]);
    QueryMembers(z, b, scans[1]);
    EraseGoesThrough(a, scans[0], z, z);
    QueryUnder(b, true, scans[1]);
    hide Query, Mirrors, ZClosed;
    assert a in Under(z, a) && a in Under(z, b);
    ErasedExactly(first, z);
    StopsEarly(second, a, z - Members(first));
  }

  lemma NestedFold(prefix: Path, z: ZStore, a: Key, b: Key)
    requires Serves(prefix, z) && b < a && prefix + a in z
    ensures Fold(ZK_RULES, [Erase(a), Erase(b)], View(prefix, z)).Committed?
  {
    var t := View(prefix, z);
    ViewIs(prefix, z);
    ViewClosed(prefix, z);
    hide View;
    AncestorsPresent(ZK_RULES, t, b, a);
    FoldTwo(ZK_RULES, Erase(a), Erase(b), t);
    assert !(a <= b);
  }

  lemma FoldTwo(r: Rules, s1: Step, s2: Step, t: Tree)
    requires Accepts(r, s1, t) && Accepts(r, s2, Apply(r, s1, t))
    ensures Fold(r, [s1, s2], t).Committed?
  {
    FoldLast(r, [], s1, t);
    FoldLast(r, [s1], s2, t);
    assert [] + [s1] == [s1] && [s1] + [s2] == [s1, s2];
  }

  /** A list with a missing path other than its last stops before its last. */
  lemma StopsEarly(paths: seq<ZPath>, missing: ZPath, u: ZStore)
    requires paths != [] && missing in Members(paths) && missing != paths[|paths| - 1] && missing !in u
    ensures var r := ZRun(Erases(paths), u); r.ZAborted? && r.index < |paths| - 1
  {
    var init, last := paths[..|paths| - 1], paths[|paths| - 1];
    assert paths == init + [last];
    MembersSnoc(paths);
    ErasesConcat(init, [last]);
    assert Erases([last]) == [ZErase(last)];
    ZRunSnoc(Erases(init), ZErase(last), u);
    hide ZRun;
    if ZRun(Erases(init), u).ZDone? {
      ErasedExactly(init, u);
      assert false;
    }
  }

  /** The verdict on two steps of which the first goes through and the second fails. */
  lemma TwoSteps(prefix: Path, s1: Step, s2: Step, scans: seq<Scan>, z: ZStore)
    requires |scans| == 2
    requires var r := ZRun(Plan(prefix, s1, scans[0]), z);
      r.ZDone? && ZRun(Plan(prefix, s2, scans[1]), r.store).ZAborted?
    ensures var u := ZRun(Plan(prefix, s1, scans[0]), z).store;
      var i := ZRun(Plan(prefix, s2, scans[1]), u).index;
      Attempt(prefix, [s1, s2], Round(scans, z)) ==
      if i == |Plan(prefix, s2, scans[1])| - 1 then Threw(1) else Retry
  {
    var p1, p2 := Plan(prefix, s1, scans[0]), Plan(prefix, s2, scans[1]);
    CompileTwo(prefix, s1, s2, scans);
    hide *;
    ZRunConcat(p1, p2, z);
    var i := |p1| + ZRun(p2, ZRun(p1, z).store).index;
    AttemptAborted(prefix, [s1, s2], Round(scans, z), i);
    LowerBoundTwo(|p1| - 1, |p1| + |p2| - 1, i);
  }

  lemma AttemptAborted(prefix: Path, steps: seq<Step>, round: Round, i: nat)
    requires |round.scans| == |steps| && ZRun(Compile(prefix, steps, round.scans), round.store) == ZAborted(i)
    ensures var b := Bounds(prefix, steps, round.scans);
      var u := LowerBound(b, i);
      Attempt(prefix, steps, round) == if u < |b| && b[u] == i then Threw(u) else Retry
  {
  }

  lemma LowerBoundTwo(a: int, b: int, x: int)
    requires a < x <= b
    ensures LowerBound([a, b], x) == 1
  {
    assert [a, b][1..] == [b];
  }

  lemma CompileTwo(prefix: Path, s1: Step, s2: Step, scans: seq<Scan>)
    requires |scans| == 2
    ensures var p1, p2 := Plan(prefix, s1, scans[0]), Plan(prefix, s2, scans[1]);
      && Compile(prefix, [s1, s2], scans) == p1 + p2
      && Bounds(prefix, [s1, s2], scans) == [|p1| - 1, |p1| + |p2| - 1]
  {
    hide Plan;
    assert [s1, s2][..1] == [s1] && scans[..1] == [scans[0]];
    CompileLast(prefix, [s1, s2], scans);
    CompileLast(prefix, [s1], [scans[0]]);
    CompileNone(prefix);
    hide Compile, Bounds;
    assert [s1][..0] == [] && [scans[0]][..0] == [];
    var p1 := Plan(prefix, s1, scans[0]);
    assert [] + p1 == p1;
  }

  lemma CompileNone(prefix: Path)
    ensures Compile(prefix, [], []) == [] && Bounds(prefix, [], []) == []
  {
  }

  /** Creating a key below a present key and then erasing that ancestor: the fold commits, but
      a quiet round blames the erase if the new key is a direct child, and otherwise asks for
      another round. */
  lemma CreateThenEraseFails(prefix: Path, z: ZStore, c: Key, v: string, t: Key, scans: seq<Scan>)
    requires |scans| == 2 && t < c && Accepts(ZK_RULES, Create(c, v, false), View(prefix, z))
    requires Serves(prefix, z) && Quiet(prefix, [Create(c, v, false), Erase(t)], scans, z)
    ensures Fold(ZK_RULES, [Create(c, v, false), Erase(t)], View(prefix, z)).Committed?
    ensures Attempt(prefix, [Create(c, v, false), Erase(t)], Round(scans, z)) ==
      if Parent(c) == t then Threw(1) else Retry
  {
    var s1, s2 := Create(c, v, false), Erase(t);
    assert [s1, s2][0] == s1 && [s1, s2][1] == s2;
    assert Mirrors(z, prefix + t, scans[1]);
    CreateEraseFold(prefix, z, c, v, t);
    hide *;
    CreateErasePlans(prefix, z, c, v, t, scans);
    TwoSteps(prefix, s1, s2, scans, z);
  }

  lemma CreateErasePlans(prefix: Path, z: ZStore, c: Key, v: string, t: Key, scans: seq<Scan>)
    requires |scans| == 2 && t < c && Accepts(ZK_RULES, Create(c, v, false), View(prefix, z))
    requires Serves(prefix, z) && Mirrors(z, prefix + t, scans[1])
    ensures var p1, p2 := Plan(prefix, Create(c, v, false), scans[0]), Plan(prefix, Erase(t), scans[1]);
      && ZRun(p1, z).ZDone?
      && var r := ZRun(p2, ZRun(p1, z).store);
      && r.ZAborted? && (r.index == |p2| - 1 <==> Parent(c) == t)
  {
    hide View, Mirrors, Query, ZRun, ZClosed;
    CreatePasses(prefix, c, z);
    ParentsInPrefix(prefix, t, c);
    ZRunOne(ZCreate(prefix + c, v, false), z);
    CreateThenList(prefix + c, v, prefix + t, scans[1], z);
  }

  lemma ParentsInPrefix(prefix: Path, t: Key, c: Key)
    ensures t < c ==> prefix + t < prefix + c && prefix + t != []
    ensures Parent(prefix + c) == prefix + Parent(c)
    ensures Parent(prefix + c) == prefix + t <==> Parent(c) == t
  {
    PrefixOrder(prefix, t, c);
    assert Parent(prefix + c) == prefix + Parent(c);
    assert (prefix + Parent(c))[|prefix|..] == Parent(c) && (prefix + t)[|prefix|..] == t;
  }

  lemma CreateThenList(node: ZPath, v: string, root: ZPath, scan: Scan, z: ZStore)
    requires ZClosed(z) && root != [] && root < node && ZPasses(ZCreate(node, v, false), z)
    requires Mirrors(z, root, scan)
    ensures var r := ZRun(Erases(Query(root, true, scan)), z[node := ZNode(v, 0, false)]);
      r.ZAborted? && (r.index == |Query(root, true, scan)| - 1 <==> Parent(node) == root)
  {
    var paths, u := Query(root, true, scan), z[node := ZNode(v, 0, false)];
    ZEffectKeepsClosed(ZCreate(node, v, false), z);
    assert root <= Parent(node);
    ZAncestors(z, root, Parent(node));
    QueryMembers(z, root, scan);
    QueryUnder(root, true, scan);
    EraseGoesThrough(root, scan, z, u);
    hide Query, Mirrors, ZRun;
    assert node in Under(u, root) && node !in Under(z, root);
    if Parent(node) == root {
      ReachesLast(paths, root, z, node, u, scan);
    } else {
      assert Parent(node) in Under(z, root);
      KeepsParent(paths, node, u);
    }
  }

  lemma CreateEraseFold(prefix: Path, z: ZStore, c: Key, v: string, t: Key)
    requires Serves(prefix, z) && t < c && Accepts(ZK_RULES, Create(c, v, false), View(prefix, z))
    ensures t in View(prefix, z)
    ensures Fold(ZK_RULES, [Create(c, v, false), Erase(t)], View(prefix, z)).Committed?
  {
    var w := View(prefix, z);
    ViewClosed(prefix, z);
    hide View;
    assert t <= Parent(c);
    AncestorsPresent(ZK_RULES, w, t, Parent(c));
    FoldTwo(ZK_RULES, Create(c, v, false), Erase(t), w);
  }

  /** A new child of the root of the list stops the list at the root. */
  lemma ReachesLast(paths: seq<ZPath>, root: ZPath, z: ZStore, node: ZPath, u: ZStore, scan: Scan)
    requires ZClosed(z) && root != [] && node != [] && Parent(node) == root && node !in z
    requires Mirrors(z, root, scan) && root in z && paths == Query(root, true, scan)
    requires u.Keys == z.Keys + {node} && ZClosed(u)
    requires ZRun(Erases(paths), u).ZAborted?
    ensures ZRun(Erases(paths), u).index == |paths| - 1
  {
    QueryLists(z, root, scan);
    QueryUnder(root, true, scan);
    QueryRootLast(root, scan);
    hide Query, Mirrors;
    SubtreeCoverable(paths, root, z);
    var n := |paths| - 1;
    forall i | 0 <= i < n
      ensures paths[i] in u && paths[i] != [] &&
        (forall q :: q in u && q != [] && Parent(q) == paths[i] ==> q in Members(paths))
    {
      assert root < paths[i];
    }
    PostOrderErases(paths, n, u);
    assert paths == paths[..n] + [paths[n]];
    ErasesConcat(paths[..n], [paths[n]]);
    assert Erases([paths[n]]) == [ZErase(paths[n])];
    ZRunSnoc(Erases(paths[..n]), ZErase(paths[n]), u);
  }

  /** A list that keeps a node but lists its parent, not as the last, stops before its last. */
  lemma KeepsParent(paths: seq<ZPath>, node: ZPath, u: ZStore)
    requires ZClosed(u) && node in u && node != [] && node !in Members(paths)
    requires paths != [] && Parent(node) in Members(paths) && Parent(node) != paths[|paths| - 1]
    ensures var r := ZRun(Erases(paths), u); r.ZAborted? && r.index < |paths| - 1
  {
    var init, last := paths[..|paths| - 1], paths[|paths| - 1];
    assert paths == init + [last];
    MembersSnoc(paths);
    ErasesConcat(init, [last]);
    assert Erases([last]) == [ZErase(last)];
    ZRunSnoc(Erases(init), ZErase(last), u);
    ZRunKeepsClosed(Erases(init), u);
    hide ZRun;
    if ZRun(Erases(init), u).ZDone? {
      ErasedExactly(init, u);
      assert false;
    }
  }
}
