/** Results across the services: the same transaction means the same everywhere, and no run of
    calls ever leaves a key without its parent. */
module Backends {
  import opened Errors
  import opened Keys
  import opened Encoding
  import opened Tree
  import CS = ConsulStore
  import CP = ConsulPlan
  import ZS = ZkStore
  import ZE = ZkErase
  import ZC = ZkCommit
  import opened EtcdStore
  import opened EtcdPlan
  import opened EtcdClient
  import opened EtcdSet

  // ---------- backend independence ----------

  /** A committed fold accepts every check on the tree it starts from and erases no key inside an
      earlier erase. */
  lemma CommittedMeans(r: Rules, steps: seq<Step>, t: Tree)
    requires KeysApart(steps) && ChecksFirst(steps) && Fold(r, steps, t).Committed?
    ensures NoNestedErase(steps)
    ensures forall i :: 0 <= i < |steps| && steps[i].Check? ==> steps[i].key in t
  {
    forall i, j | 0 <= i < j < |steps| && steps[i].Erase? && steps[j].Erase?
      ensures !(steps[i].key <= steps[j].key)
    {
      ReachedStep(r, steps, t, j);
      ApartPrefix(steps, j);
      KeysAfter(r, steps[..j], t);
      assert steps[..j][i] == steps[i];
    }
    forall i | 0 <= i < |steps| && steps[i].Check?
      ensures steps[i].key in t
    {
      ReachedStep(r, steps, t, i);
      assert forall m :: 0 <= m < i ==> steps[..i][m] == steps[m];
      OnlyChecksKeep(r, steps[..i], t);
    }
  }

  lemma ReachedStep(r: Rules, steps: seq<Step>, t: Tree, i: nat)
    requires i < |steps| && Fold(r, steps, t).Committed?
    ensures Fold(r, steps[..i], t).Committed? && Accepts(r, steps[i], Fold(r, steps[..i], t).tree)
  {
    FoldPrefix(r, steps, t, i);
    FoldPrefix(r, steps, t, i + 1);
    assert steps[..i + 1] == steps[..i] + [steps[i]];
    FoldLast(r, steps[..i], steps[i], t);
  }

  lemma ApartPrefix(steps: seq<Step>, n: nat)
    requires n <= |steps| && KeysApart(steps)
    ensures KeysApart(steps[..n])
  {
    hide StepsClash;
    forall i, j | 0 <= i < j < n
      ensures !StepsClash(steps[..n][i], steps[..n][j])
    {
      assert !StepsClash(steps[i], steps[j]);
    }
  }

  /** An etcd transaction that succeeds, on a tree with the same keys as one on which some fold
      commits, is a committed fold itself. */
  lemma EtcdCommitsToo(r: Rules, steps: seq<Step>, t: Tree, prefix: Path, leaseId: int, s: Store, revision: int)
    requires Fold(r, steps, t).Committed? && Values(t) == Values(View(prefix, s))
    requires leaseId != 0 && KeysApart(steps) && ChecksFirst(steps)
    requires Versioned(View(prefix, s)) && AllHolding(steps, View(prefix, s))
    ensures Fold(ETCD_RULES, steps, View(prefix, s)).Committed?
    ensures View(prefix, Run(Compile(prefix, leaseId, steps).success, s, revision).0) ==
      Fold(ETCD_RULES, steps, View(prefix, s)).tree
  {
    hide View, Fold, Run, Compile, KeysApart, ChecksFirst;
    CommittedMeans(r, steps, t);
    assert Values(t).Keys == t.Keys && Values(View(prefix, s)).Keys == View(prefix, s).Keys;
    forall i | 0 <= i < |steps| && steps[i].Check?
      ensures steps[i].version != 0
    {
      assert Holding(steps[i], View(prefix, s));
    }
    SuccessIsFold(prefix, leaseId, steps, s, revision);
  }

  /** The tree each service holds after the compiled transaction, if it goes through. */
  ghost function ConsulTree(prefix: Path, session: string, steps: seq<Step>, c: CS.Store, index: int): Option<Tree> {
    match CS.Run(CP.Compile(prefix, session, steps), c, index)
    case Done(u, _) => Some(CS.View(prefix, u))
    case Aborted(_) => None
  }

  ghost function ZkTree(prefix: Path, steps: seq<Step>, scans: seq<ZE.Scan>, z: ZS.ZStore): Option<Tree>
    requires |scans| == |steps|
  {
    match ZS.ZRun(ZC.Compile(prefix, steps, scans), z)
    case ZDone(u, _) => Some(ZS.View(prefix, u))
    case ZAborted(_) => None
  }

  ghost function EtcdTree(prefix: Path, leaseId: int, steps: seq<Step>, s: Store, revision: int): Option<Tree> {
    match Execute(Compile(prefix, leaseId, steps), s, revision)
    case InvalidArgument => None
    case TxnResponse(succeeded, _, u) => if succeeded then Some(View(prefix, u)) else None
  }

  /** From stores that represent the same values, whenever the plans of all three services go
      through, the three resulting trees have the same keys with the same values. */
  lemma BackendIndependence(
    transaction: Transaction,
    cPrefix: Path, session: string, c: CS.Store, index: int,
    zPrefix: Path, scans: seq<ZE.Scan>, z: ZS.ZStore,
    prefix: Path, leaseId: int, s: Store, revision: int)
    requires session != "" && leaseId != 0 && |scans| == |transaction.Steps()|
    requires ZS.Serves(zPrefix, z) && Genuine(s)
    ensures var steps := transaction.Steps();
      var consul := ConsulTree(cPrefix, session, steps, c, index);
      var zk := ZkTree(zPrefix, steps, scans, z);
      var etcd := EtcdTree(prefix, leaseId, steps, s, revision);
      Values(CS.View(cPrefix, c)) == Values(ZS.View(zPrefix, z)) == Values(View(prefix, s)) &&
      consul.Some? && zk.Some? && etcd.Some? ==>
        Values(consul.value) == Values(zk.value) == Values(etcd.value)
  {
    hide *;
    var steps := transaction.Steps();
    var rules := ConsulRules(index);
    var consul := ConsulTree(cPrefix, session, steps, c, index);
    var zk := ZkTree(zPrefix, steps, scans, z);
    var etcd := EtcdTree(prefix, leaseId, steps, s, revision);
    if
      && Values(CS.View(cPrefix, c)) == Values(ZS.View(zPrefix, z)) == Values(View(prefix, s))
      && consul.Some? && zk.Some? && etcd.Some?
    {
      ConsulFold(cPrefix, session, steps, c, index);
      ZkFold(zPrefix, steps, scans, z);
      EtcdParts(prefix, leaseId, steps, s, revision);
      TransactionChecksFirst(transaction);
      GenuineVersions(prefix, s);
      EtcdCommitsToo(rules, steps, CS.View(cPrefix, c), prefix, leaseId, s, revision);
      FoldValues(rules, ZK_RULES, steps, CS.View(cPrefix, c), ZS.View(zPrefix, z));
      FoldValues(rules, ETCD_RULES, steps, CS.View(cPrefix, c), View(prefix, s));
    }
  }

  lemma ConsulFold(prefix: Path, session: string, steps: seq<Step>, c: CS.Store, index: int)
    requires session != "" && ConsulTree(prefix, session, steps, c, index).Some?
    ensures var fold := Fold(ConsulRules(index), steps, CS.View(prefix, c));
      fold.Committed? && fold.tree == ConsulTree(prefix, session, steps, c, index).value
  {
    hide CS.View, CS.Run, CP.Compile, Fold;
    CP.SessionsReady(steps, session);
    CP.CommitExact(prefix, session, steps, c, index);
  }

  lemma ZkFold(prefix: Path, steps: seq<Step>, scans: seq<ZE.Scan>, z: ZS.ZStore)
    requires |scans| == |steps| && ZS.Serves(prefix, z) && ZkTree(prefix, steps, scans, z).Some?
    ensures var fold := Fold(ZK_RULES, steps, ZS.View(prefix, z));
      fold.Committed? && fold.tree == ZkTree(prefix, steps, scans, z).value
  {
    hide ZS.View, ZS.ZRun, ZC.Compile, ZS.Serves, Fold;
    ZC.CompiledSound(prefix, steps, scans, z);
  }

  lemma EtcdParts(prefix: Path, leaseId: int, steps: seq<Step>, s: Store, revision: int)
    requires Genuine(s) && EtcdTree(prefix, leaseId, steps, s, revision).Some?
    ensures KeysApart(steps) && AllHolding(steps, View(prefix, s))
    ensures EtcdTree(prefix, leaseId, steps, s, revision).value ==
      View(prefix, Run(Compile(prefix, leaseId, steps).success, s, revision).0)
  {
    hide Run, Compile, Execute, View, KeysApart, AllHolding, Genuine;
    ExecuteMeans(prefix, leaseId, steps, s, revision);
  }

  // ---------- closed trees over whole runs: Consul ----------

  /** The raw operations of a call. */
  function ConsulOps(prefix: Path, session: string, call: Call): seq<CS.KvOp> {
    match call
    case DoCreate(k, v, lease) => CP.Plan(prefix, session, Create(k, v, lease))
    case DoSet(k, v) => CP.SetPlan(prefix, k, v)
    case DoCas(k, v, version) =>
      if version == 0 then CP.Plan(prefix, session, Create(k, v, false)) else CP.CasPlan(prefix, k, v, version)
    case DoErase(k, version) => CP.ErasePlan(prefix, k, version)
    case DoCommit(steps) => CP.Compile(prefix, session, steps)
  }

  function ConsulAfter(prefix: Path, session: string, call: Call, s: CS.Store, index: int): CS.Store {
    match CS.Run(ConsulOps(prefix, session, call), s, index)
    case Done(u, _) => u
    case Aborted(_) => s
  }

  /** Every call does to the tree what the specification says. */
  lemma ConsulCall(prefix: Path, session: string, call: Call, s: CS.Store, index: int)
    requires session != "" && index >= 1 && Closed(ConsulRules(index), CS.View(prefix, s))
    ensures CS.View(prefix, ConsulAfter(prefix, session, call, s, index)) ==
      AfterCall(ConsulRules(index), call, CS.View(prefix, s))
  {
    hide CS.View, CS.Run, CP.Compile, CP.Plan, CP.SetPlan, CP.CasPlan, CP.ErasePlan, Fold,
      CreateSpec, SetSpec, EraseSpec, Closed;
    match call
    case DoCreate(k, v, lease) => CP.CreateExact(prefix, session, k, v, lease, s, index);
    case DoSet(k, v) => CP.SetExact(prefix, k, v, s, index);
    case DoCas(k, v, version) =>
      if version == 0 {
        CP.CreateExact(prefix, session, k, v, false, s, index);
        CasZero(ConsulRules(index), CS.View(prefix, s), k, v);
      } else {
        hide CasSpec;
        CP.CasExact(prefix, k, v, version, s, index);
      }
    case DoErase(k, version) => CP.EraseExact(prefix, k, version, s, index);
    case DoCommit(steps) =>
      CP.SessionsReady(steps, session);
      CP.CommitExact(prefix, session, steps, s, index);
  }

  lemma CasZero(r: Rules, t: Tree, k: Key, v: string)
    ensures CasSpec(r, t, k, v, 0).0 == CreateSpec(r, t, k, v, false).0
  {
  }

  /** A run: calls of any clients under the prefix, each with its session, one after the other. */
  ghost predicate ConsulRun(prefix: Path, calls: seq<(Call, string)>, stores: seq<CS.Store>, first: int) {
    && |stores| == |calls| + 1
    && (forall i :: 0 <= i < |calls| ==>
          calls[i].1 != "" && stores[i + 1] == ConsulAfter(prefix, calls[i].1, calls[i].0, stores[i], first + i))
  }

  lemma ConsulStepClosed(prefix: Path, call: Call, session: string, s: CS.Store, first: int, index: int)
    requires session != "" && first >= 1 && index >= 1 && Closed(ConsulRules(first), CS.View(prefix, s))
    ensures Closed(ConsulRules(first), CS.View(prefix, ConsulAfter(prefix, session, call, s, index)))
  {
    hide CS.View, ConsulAfter, AfterCall, Closed;
    SameClosed(ConsulRules(first), ConsulRules(index), CS.View(prefix, s));
    ConsulCall(prefix, session, call, s, index);
    CallKeepsClosed(ConsulRules(index), call, CS.View(prefix, s));
    SameClosed(ConsulRules(index), ConsulRules(first), AfterCall(ConsulRules(index), call, CS.View(prefix, s)));
  }

  /** Starting closed, every tree of a Consul run is closed. */
  lemma {:induction false} ConsulRunClosed(prefix: Path, calls: seq<(Call, string)>, stores: seq<CS.Store>,
    first: int, n: nat)
    requires first >= 1 && ConsulRun(prefix, calls, stores, first) && n < |stores|
    requires Closed(ConsulRules(first), CS.View(prefix, stores[0]))
    ensures Closed(ConsulRules(first), CS.View(prefix, stores[n]))
  {
    hide CS.View, ConsulAfter, Closed;
    if n > 0 {
      var m := n - 1;
      ConsulRunClosed(prefix, calls, stores, first, m);
      assert stores[m + 1] == ConsulAfter(prefix, calls[m].1, calls[m].0, stores[m], first + m);
      ConsulStepClosed(prefix, calls[m].0, calls[m].1, stores[m], first, first + m);
    }
  }

  /** Closedness does not depend on the numbering. */
  lemma SameClosed(r: Rules, q: Rules, t: Tree)
    requires r.leafLeases == q.leafLeases && Closed(r, t)
    ensures Closed(q, t)
  {
    forall k | k in t
      ensures ParentReady(q, t, k)
    {
      assert ParentReady(r, t, k);
    }
  }

  // ---------- closed trees over whole runs: etcd ----------

  predicate WrittenBy(steps: seq<Step>, k: Key) {
    exists i :: 0 <= i < |steps| && (steps[i].Create? || steps[i].Set?) && steps[i].key == k
  }

  /** The keys after the success branch of a transaction without overlap. */
  lemma {:induction false} BlindKeys(steps: seq<Step>, t: Tree)
    requires KeysApart(steps)
    ensures forall k: Key :: k in BlindAll(steps, t) <==> WrittenBy(steps, k) || (k in t && !ErasedBy(steps, k))
    ensures forall k: Key :: !(WrittenBy(steps, k) && ErasedBy(steps, k))
  {
    if steps != [] {
      var n := |steps| - 1;
      var init, last := steps[..n], steps[n];
      assert steps == init + [last];
      KeysApartSnoc(init, last);
      BlindKeys(init, t);
      forall k: Key
        ensures k in BlindAll(steps, t) <==> WrittenBy(steps, k) || (k in t && !ErasedBy(steps, k))
        ensures !(WrittenBy(steps, k) && ErasedBy(steps, k))
      {
        ErasedBySnoc(init, last, k);
        WrittenBySnoc(init, last, k);
        LastWrite(init, last, k);
      }
    }
  }

  lemma WrittenBySnoc(init: seq<Step>, last: Step, k: Key)
    ensures WrittenBy(init + [last], k) <==> WrittenBy(init, k) || ((last.Create? || last.Set?) && last.key == k)
  {
    var steps := init + [last];
    assert forall i :: 0 <= i < |init| ==> steps[i] == init[i];
    assert steps[|init|] == last;
  }

  lemma LastWrite(init: seq<Step>, last: Step, k: Key)
    requires forall i :: 0 <= i < |init| ==> !StepsClash(init[i], last)
    ensures (last.Create? || last.Set?) && last.key == k ==> !ErasedBy(init, k)
    ensures last.Erase? && last.key <= k ==> !WrittenBy(init, k)
  {
  }

  /** A transaction etcd accepts and whose compares hold keeps the tree closed, even where it is
      not the fold. */
  lemma CommitKeepsClosed(steps: seq<Step>, t: Tree)
    requires KeysApart(steps) && AllHolding(steps, t) && Closed(ETCD_RULES, t)
    ensures forall k :: k in BlindAll(steps, t) ==> ParentReady(ETCD_RULES, BlindAll(steps, t), k)
  {
    var u := BlindAll(steps, t);
    BlindKeys(steps, t);
    hide BlindAll, KeysApart;
    forall k | k in u && Parent(k) != []
      ensures Parent(k) in u
    {
      ParentBefore(steps, t, k);
      ErasedAbove(steps, k);
    }
  }

  lemma ParentBefore(steps: seq<Step>, t: Tree, k: Key)
    requires AllHolding(steps, t) && Closed(ETCD_RULES, t) && Parent(k) != []
    requires WrittenBy(steps, k) || k in t
    ensures Parent(k) in t
  {
    assert k in t ==> ParentReady(ETCD_RULES, t, k);
    if WrittenBy(steps, k) {
      var i :| 0 <= i < |steps| && (steps[i].Create? || steps[i].Set?) && steps[i].key == k;
      assert Holding(steps[i], t);
    }
  }

  lemma ErasedAbove(steps: seq<Step>, k: Key)
    requires Parent(k) != []
    ensures ErasedBy(steps, Parent(k)) ==> ErasedBy(steps, k)
  {
    assert Parent(k) <= k;
  }

  /** One request of a client: the transaction of a call, or one round of a `set`. */
  datatype ClientRequest = Plain(call: Call) | SetRound(key: Key, value: string, expectLease: bool)

  function EtcdTxn(prefix: Path, leaseId: int, q: ClientRequest): Txn {
    match q
    case SetRound(k, v, expectLease) => SetTxn(prefix, k, v, expectLease)
    case Plain(DoCreate(k, v, lease)) => CreateTxn(prefix, k, v, if lease then leaseId else 0)
    case Plain(DoSet(k, v)) => SetTxn(prefix, k, v, false)
    case Plain(DoCas(k, v, version)) =>
      if version == 0 then CreateTxn(prefix, k, v, 0) else CasTxn(prefix, k, v, version)
    case Plain(DoErase(k, version)) => EraseTxn(prefix, k, version)
    case Plain(DoCommit(steps)) => Compile(prefix, leaseId, steps)
  }

  function EtcdAfter(prefix: Path, leaseId: int, q: ClientRequest, s: Store, revision: int): Store {
    match Execute(EtcdTxn(prefix, leaseId, q), s, revision)
    case InvalidArgument => s
    case TxnResponse(_, _, u) => u
  }

  lemma ExecuteGenuine(t: Txn, s: Store, revision: int)
    requires Genuine(s) && revision >= 1
    ensures var r := Execute(t, s, revision); r.TxnResponse? ==> Genuine(r.store)
  {
    hide Genuine, Run, NoOverlap, LeaseMissing, AllHold;
    RunGenuine(t.success, s, revision);
    RunGenuine(t.failure, s, revision);
  }

  /** Every request keeps the tree closed. */
  lemma EtcdRequestKeepsClosed(prefix: Path, leaseId: int, q: ClientRequest, s: Store, revision: int)
    requires leaseId != 0 && revision >= 1 && Genuine(s) && Closed(ETCD_RULES, View(prefix, s))
    ensures Genuine(EtcdAfter(prefix, leaseId, q, s, revision))
    ensures Closed(ETCD_RULES, View(prefix, EtcdAfter(prefix, leaseId, q, s, revision)))
  {
    hide View, Execute, Genuine, CreateTxn, SetTxn, CasTxn, EraseTxn, Compile, Closed,
      CreateSpec, SetSpec, CasSpec, EraseSpec;
    ExecuteGenuine(EtcdTxn(prefix, leaseId, q), s, revision);
    var t := View(prefix, s);
    match q
    case SetRound(k, v, expectLease) =>
      SetRoundEffect(prefix, k, v, expectLease, s, revision);
      CallKeepsClosed(ETCD_RULES, DoSet(k, v), t);
    case Plain(DoCreate(k, v, lease)) =>
      CreateExact(prefix, k, v, if lease then leaseId else 0, s, revision);
      CallKeepsClosed(ETCD_RULES, DoCreate(k, v, lease), t);
    case Plain(DoSet(k, v)) =>
      SetRoundEffect(prefix, k, v, false, s, revision);
      CallKeepsClosed(ETCD_RULES, DoSet(k, v), t);
    case Plain(DoCas(k, v, version)) =>
      if version == 0 {
        CreateExact(prefix, k, v, 0, s, revision);
        CallKeepsClosed(ETCD_RULES, DoCreate(k, v, false), t);
      } else {
        CasExact(prefix, k, v, version, s, revision);
        CallKeepsClosed(ETCD_RULES, DoCas(k, v, version), t);
      }
    case Plain(DoErase(k, version)) =>
      EraseExact(prefix, k, version, s, revision);
      CallKeepsClosed(ETCD_RULES, DoErase(k, version), t);
    case Plain(DoCommit(steps)) => CommitStaysClosed(prefix, leaseId, steps, s, revision);
  }

  lemma CommitStaysClosed(prefix: Path, leaseId: int, steps: seq<Step>, s: Store, revision: int)
    requires leaseId != 0 && revision >= 1 && Genuine(s) && Closed(ETCD_RULES, View(prefix, s))
    ensures var r := Execute(Compile(prefix, leaseId, steps), s, revision);
      r.TxnResponse? ==> Closed(ETCD_RULES, View(prefix, r.store))
  {
    hide View, Execute, Genuine, Compile, KeysApart, AllHolding, Run;
    ExecuteMeans(prefix, leaseId, steps, s, revision);
    ExecuteGenuine(Compile(prefix, leaseId, steps), s, revision);
    SuccessRunsBlind(prefix, leaseId, steps, s, revision);
    var r := Execute(Compile(prefix, leaseId, steps), s, revision);
    if r.TxnResponse? && r.succeeded {
      CommitKeepsClosed(steps, View(prefix, s));
      GenuineVersions(prefix, r.store);
    }
  }

  /** A round either leaves the store alone or performs the set. */
  lemma SetRoundEffect(prefix: Path, k: Key, v: string, expectLease: bool, s: Store, revision: int)
    requires Genuine(s)
    ensures var r := Execute(SetTxn(prefix, k, v, expectLease), s, revision);
      r.TxnResponse? ==> r.store == s || View(prefix, r.store) == SetSpec(ETCD_RULES, View(prefix, s), k, v).0
  {
    AttemptIs(prefix, k, v, expectLease, s, revision);
    RoundStore(prefix, k, v, expectLease, s, revision);
    hide View, SetSpec, Execute, SetAttempt, SetTxn;
  }

  /** A run: requests of any clients under the prefix, each with its lease, one after the other. */
  ghost predicate EtcdRun(prefix: Path, requests: seq<(ClientRequest, int)>, stores: seq<Store>, first: int) {
    && |stores| == |requests| + 1
    && (forall i :: 0 <= i < |requests| ==>
          requests[i].1 != 0 && stores[i + 1] == EtcdAfter(prefix, requests[i].1, requests[i].0, stores[i], first + i))
  }

  /** Starting closed, every tree of an etcd run is closed. */
  lemma {:induction false} EtcdRunClosed(prefix: Path, requests: seq<(ClientRequest, int)>, stores: seq<Store>,
    first: int, n: nat)
    requires first >= 1 && EtcdRun(prefix, requests, stores, first) && n < |stores|
    requires Genuine(stores[0]) && Closed(ETCD_RULES, View(prefix, stores[0]))
    ensures Genuine(stores[n]) && Closed(ETCD_RULES, View(prefix, stores[n]))
  {
    hide View, EtcdAfter, Genuine, Closed;
    if n > 0 {
      var m := n - 1;
      EtcdRunClosed(prefix, requests, stores, first, m);
      assert stores[m + 1] == EtcdAfter(prefix, requests[m].1, requests[m].0, stores[m], first + m);
      EtcdRequestKeepsClosed(prefix, requests[m].1, requests[m].0, stores[m], first + m);
    }
  }
}
