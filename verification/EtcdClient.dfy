/** The etcd client's single-transaction calls: `create`, `cas`, `erase` and `commit`. */
module EtcdClient {
  import opened Errors
  import opened Keys
  import opened Encoding
  import opened Tree
  import opened EtcdStore
  import opened EtcdPlan
  import opened EtcdAssembly
  import opened EtcdFailure

  /** The service with its revision. */
  class Db {
    var store: Store
    var revision: nat

    method Commit(t: Txn) returns (r: TxnResponse)
      modifies this
      ensures r == Execute(t, old(store), old(revision) + 1)
      ensures store == if r.TxnResponse? then r.store else old(store)
      ensures revision >= old(revision)
    {
      r := Execute(t, store, revision + 1);
      if r.TxnResponse? {
        store := r.store;
        revision := revision + 1;
      }
    }
  }

  /** How `commit` ends. `Undefined`: it reads a response that is not the one it needs. */
  datatype CommitResult = Answered(answers: seq<Answer>) | Undefined | Threw(error: Error)

  // ---------- what the compiling loops have built ----------

  datatype Built = Built(txn: Txn, expected: seq<seq<bool>>, createIndices: seq<nat>, setIndices: seq<nat>, total: nat)

  function ExpectedOf(steps: seq<Step>): seq<seq<bool>> {
    if steps == [] then []
    else
      var last := steps[|steps| - 1];
      ExpectedOf(steps[..|steps| - 1]) + if last.Check? then [] else [Expected(last)]
  }

  function BuiltFor(prefix: Path, leaseId: int, steps: seq<Step>): Built {
    Built(Compile(prefix, leaseId, steps), ExpectedOf(steps),
          CreateIndices(Slots(steps)), SetIndices(Slots(steps)), OpCounter(steps))
  }

  /** What one more step adds. */
  function Grow(prefix: Path, leaseId: int, b: Built, step: Step): Built {
    Built(Append(b.txn, Plan(prefix, leaseId, step)),
          b.expected + (if step.Check? then [] else [Expected(step)]),
          b.createIndices + (if step.Create? then [b.total] else []),
          b.setIndices + (if step.Set? then [b.total + 1] else []),
          b.total + Advance(step))
  }

  lemma GrowsTo(prefix: Path, leaseId: int, steps: seq<Step>, i: nat)
    requires i < |steps|
    ensures Grow(prefix, leaseId, BuiltFor(prefix, leaseId, steps[..i]), steps[i]) ==
      BuiltFor(prefix, leaseId, steps[..i + 1])
  {
    hide Plan, Append, Expected, Advance;
    assert steps[..i + 1][..i] == steps[..i];
    SlotsSnoc(steps[..i], steps[i]);
    assert steps[..i + 1] == steps[..i] + [steps[i]];
    hide Slots, Compile, OpCounter, ExpectedOf;
    if steps[i].Create? {
      IndicesSnoc(Slots(steps[..i]), CreateSlot(OpCounter(steps[..i])));
    } else if steps[i].Set? {
      IndicesSnoc(Slots(steps[..i]), SetSlot(OpCounter(steps[..i]) + 1));
    } else {
      assert Slots(steps[..i]) + [] == Slots(steps[..i]);
    }
    ExpectedSnoc(steps[..i], steps[i]);
    CounterSnoc(steps[..i], steps[i]);
    CompileSnoc(prefix, leaseId, steps[..i], steps[i]);
  }

  lemma ExpectedSnoc(init: seq<Step>, last: Step)
    ensures ExpectedOf(init + [last]) == ExpectedOf(init) + if last.Check? then [] else [Expected(last)]
  {
    assert (init + [last])[..|init|] == init;
  }

  lemma CounterSnoc(init: seq<Step>, last: Step)
    ensures OpCounter(init + [last]) == OpCounter(init) + Advance(last)
  {
    assert (init + [last])[..|init|] == init;
  }

  lemma BuiltNothing(prefix: Path, leaseId: int, steps: seq<Step>)
    ensures BuiltFor(prefix, leaseId, steps[..0]) == Built(Txn([], [], []), [], [], [], 0)
  {
    assert Slots(steps[..0]) == [];
  }

  lemma {:induction false} ExpectedLists(checks: seq<CheckStep>, ops: seq<OpStep>)
    ensures var e := ExpectedOf(Transaction(checks, ops).Steps());
      |e| == |ops| && forall i :: 0 <= i < |ops| ==> e[i] == Expected(ops[i])
    decreases |checks| + |ops|
  {
    hide Expected;
    var steps := Transaction(checks, ops).Steps();
    if ops != [] {
      var n := |ops| - 1;
      ExpectedLists(checks, ops[..n]);
      assert steps[..|steps| - 1] == Transaction(checks, ops[..n]).Steps();
    } else if checks != [] {
      var n := |checks| - 1;
      ExpectedLists(checks[..n], ops);
      assert steps[..|steps| - 1] == Transaction(checks[..n], ops).Steps();
    }
  }

  // ---------- a commit, on values ----------

  /** A refusal, the failure reported, or a success. Of a success: the new tree and the answers, or
      an undefined read if a set follows an erase; and exactly when all this is the fold. */
  ghost predicate CommitSound(prefix: Path, steps: seq<Step>, s: Store, r: CommitResult, u: Store) {
    var t := View(prefix, s);
    var fold := Fold(ETCD_RULES, steps, t);
    if !KeysApart(steps) then r == Threw(ServiceError) && u == s
    else if !AllHolding(steps, t) then
      u == s && r.Threw? && r.error.TxnFailed? && FirstBad(steps, t, r.error.index)
    else
      && View(prefix, u) == BlindAll(steps, t)
      && r == (if NoSetAfterErase(steps) then Answered(BlindAnswers(steps, t)) else Undefined)
      && (fold.Committed? <==> ChecksNameVersions(steps) && NoNestedErase(steps))
      && (fold.Committed? ==> View(prefix, u) == fold.tree && (r.Answered? ==> r.answers == fold.answers))
  }

  lemma GenuineVersions(prefix: Path, s: Store)
    requires Genuine(s)
    ensures Versioned(View(prefix, s))
  {
    hide EtcdName, View;
    ViewIs(prefix, s);
  }

  /** What the service answers to a compiled transaction. */
  lemma ExecuteMeans(prefix: Path, leaseId: int, steps: seq<Step>, s: Store, revision: int)
    requires Genuine(s)
    ensures var t := Compile(prefix, leaseId, steps);
      Execute(t, s, revision) ==
      if !KeysApart(steps) then InvalidArgument
      else if AllHolding(steps, View(prefix, s))
      then TxnResponse(true, Responses(prefix, leaseId, steps, s, revision), Run(t.success, s, revision).0)
      else TxnResponse(false, Looks(prefix, leaseId, steps, s, revision), s)
  {
    OverlapMeans(prefix, leaseId, steps);
    OnlyLookups(prefix, leaseId, steps);
    AllCompares(prefix, leaseId, steps, s);
    var t := Compile(prefix, leaseId, steps);
    LookupReplies(t.failure, s, revision);
    hide Compile, KeysApart, AllHolding, View, Run, NoOverlap, AllHold;
    LeasesFine(t.success, s);
    LeasesFine(t.failure, s);
  }

  lemma LeasesFine(qs: seq<Request>, s: Store)
    requires forall q :: q in qs && q.Put? ==> !q.ignoreLease
    ensures !LeaseMissing(qs, s)
  {
    forall i | 0 <= i < |qs|
      ensures qs[i] in qs
    {
    }
  }

  lemma SuccessSound(prefix: Path, leaseId: int, transaction: Transaction, s: Store, revision: int)
    requires leaseId != 0 && Genuine(s)
    requires KeysApart(transaction.Steps()) && AllHolding(transaction.Steps(), View(prefix, s))
    ensures var steps := transaction.Steps();
      var u := Run(Compile(prefix, leaseId, steps).success, s, revision).0;
      var read := ReadSlots(Slots(steps), Responses(prefix, leaseId, steps, s, revision));
      CommitSound(prefix, steps, s, if read.Some? then Answered(read.value) else Undefined, u)
  {
    var steps := transaction.Steps();
    TransactionChecksFirst(transaction);
    GenuineVersions(prefix, s);
    SuccessIsFold(prefix, leaseId, steps, s, revision);
    SuccessRunsBlind(prefix, leaseId, steps, s, revision);
    ReadableExactly(prefix, leaseId, steps, s, revision);
    hide View, Run, Compile, Slots, ReadSlots, Responses, KeysApart, AllHolding, Fold, ChecksFirst, Versioned,
      BlindAll, BlindAnswers;
    if NoSetAfterErase(steps) {
      AnswersRead(prefix, leaseId, steps, s, revision);
    }
    if Fold(ETCD_RULES, steps, View(prefix, s)).Committed? {
      BlindIsFold(steps, View(prefix, s));
    }
  }

  lemma OverlapSound(prefix: Path, steps: seq<Step>, s: Store, r: CommitResult, u: Store)
    requires !KeysApart(steps) && r == Threw(ServiceError) && u == s
    ensures CommitSound(prefix, steps, s, r, u)
  {
  }

  lemma FailureSound(prefix: Path, steps: seq<Step>, s: Store, r: CommitResult, u: Store)
    requires KeysApart(steps) && !AllHolding(steps, View(prefix, s)) && r.Threw? && u == s
    requires match r.error
      case TxnFailed(i) => FirstBad(steps, View(prefix, s), i)
      case ServiceError => forall i :: 0 <= i < |steps| ==> !Bad(steps[i], View(prefix, s))
      case _ => false
    ensures CommitSound(prefix, steps, s, r, u)
  {
    hide View, FirstBad, Bad, KeysApart;
    SomeStepIsBad(steps, View(prefix, s));
  }

  // ---------- single operations, on values ----------


  /** Only the entry of `k` was written, and it has this lease. */
  ghost predicate WroteOnly(prefix: Path, k: Key, s: Store, u: Store, lease: int) {
    var n := EtcdName(prefix, k);
    && n in u && u[n].lease == lease
    && (forall m :: m != n ==> (m in u <==> m in s) && (m in s ==> u[m] == s[m]))
  }

  /** Only the entry of `k` was written, and it still has the lease it had; a new one has none. */
  ghost predicate LeaseKept(prefix: Path, k: Key, s: Store, u: Store) {
    WroteOnly(prefix, k, s, u, if EtcdName(prefix, k) in s then s[EtcdName(prefix, k)].lease else 0)
  }

  lemma CreatedHasNoLease(prefix: Path, k: Key, s: Store, u: Store)
    requires k !in View(prefix, s) && WroteOnly(prefix, k, s, u, 0)
    ensures LeaseKept(prefix, k, s, u)
  {
    hide View, EtcdName;
    ViewIs(prefix, s);
  }

  function ParentExists(prefix: Path, k: Key): seq<Compare> {
    if Parent(k) == [] then [] else [Exists(EtcdName(prefix, Parent(k)))]
  }

  function CreateTxn(prefix: Path, k: Key, v: string, lease: int): Txn {
    var n := EtcdName(prefix, k);
    Txn(ParentExists(prefix, k) + [Absent(n)], [Put(n, v, lease, false)], [Range(n)])
  }

  /** Of a single compare, with or without the parent's in front. */
  lemma ParentAnd(prefix: Path, k: Key, c: Compare, s: Store)
    requires Genuine(s)
    ensures AllHold(ParentExists(prefix, k) + [c], s) <==>
      (Parent(k) == [] || Parent(k) in View(prefix, s)) && Holds(c, s)
    ensures AllHold(ParentExists(prefix, k), s) <==> Parent(k) == [] || Parent(k) in View(prefix, s)
  {
    hide EtcdName, View;
    ViewIs(prefix, s);
    AllHoldConcat(ParentExists(prefix, k), [c], s);
    assert AllHold([c], s) <==> Holds([c][0], s);
    if Parent(k) != [] {
      var above := Exists(EtcdName(prefix, Parent(k)));
      assert AllHold([above], s) <==> Holds([above][0], s);
    }
  }

  lemma CreateExact(prefix: Path, k: Key, v: string, lease: int, s: Store, revision: int)
    requires Genuine(s)
    ensures var r := Execute(CreateTxn(prefix, k, v, lease), s, revision);
      && r.TxnResponse? && (!r.succeeded ==> |r.responses| == 1 && r.responses[0].RangeResponse?)
      && CreateSpec(ETCD_RULES, View(prefix, s), k, v, lease != 0) ==
         (View(prefix, r.store),
          if r.succeeded then Ok(1)
          else if r.responses[0].kvs != [] then Err(EntryExists) else Err(NoEntry))
      && (r.succeeded ==> k !in View(prefix, s) && WroteOnly(prefix, k, s, r.store, lease))
  {
    hide EtcdName, View, Run, AllHold, ParentExists, NoOverlap, LeaseMissing;
    var n := EtcdName(prefix, k);
    ViewIs(prefix, s);
    ParentAnd(prefix, k, Absent(n), s);
    Accepted1(Put(n, v, lease, false), s);
    Accepted1(Range(n), s);
    Run1(Put(n, v, lease, false), s, revision);
    Run1(Range(n), s, revision);
    ViewPut(prefix, s, k, Kv(v, 1, revision, lease));
    var t := CreateTxn(prefix, k, v, lease);
    assert t.success == [Put(n, v, lease, false)] && t.failure == [Range(n)];
    assert Holds(Absent(n), s) <==> n !in s;
    var r := Execute(t, s, revision);
    assert r.TxnResponse?;
    if r.succeeded {
      assert r.store == s[n := Kv(v, 1, revision, lease)];
    } else {
      assert r.store == s && r.responses == [Reply(Range(n), s)];
    }
  }

  function CasTxn(prefix: Path, k: Key, v: string, version: int): Txn {
    var n := EtcdName(prefix, k);
    Txn([Compare(n, VERSION, EQUAL, version)], [Put(n, v, 0, true), Range(n)], [Range(n)])
  }

  lemma CasExact(prefix: Path, k: Key, v: string, version: int, s: Store, revision: int)
    requires version != 0
    ensures var r := Execute(CasTxn(prefix, k, v, version), s, revision);
      && r.TxnResponse?
      && (if r.succeeded then |r.responses| == 2 && VersionAt(r.responses, 1).Some?
          else |r.responses| == 1 && r.responses[0].RangeResponse?)
      && CasSpec(ETCD_RULES, View(prefix, s), k, v, version) ==
         (View(prefix, r.store),
          if r.succeeded then Ok(VersionAt(r.responses, 1).value)
          else if r.responses[0].kvs != [] then Ok(0) else Err(NoEntry))
      && (r.succeeded ==> LeaseKept(prefix, k, s, r.store))
  {
    hide EtcdName, View, Run, NoOverlap, LeaseMissing;
    var n := EtcdName(prefix, k);
    ViewIs(prefix, s);
    Accepted2(Put(n, v, 0, true), Range(n), s);
    Accepted1(Range(n), s);
    Run2(Put(n, v, 0, true), Range(n), s, revision);
    Run1(Range(n), s, revision);
    var t := CasTxn(prefix, k, v, version);
    assert t.success == [Put(n, v, 0, true), Range(n)] && t.failure == [Range(n)];
    assert AllHold(t.compare, s) <==> Holds(t.compare[0], s);
    var r := Execute(t, s, revision);
    assert r.TxnResponse?;
    if r.succeeded {
      var e := Kv(v, s[n].version + 1, s[n].create, s[n].lease);
      assert r.store == s[n := e];
      assert r.responses[1] == RangeResponse([e]);
      ViewPut(prefix, s, k, e);
    } else {
      assert r.store == s && r.responses == [Reply(Range(n), s)];
    }
  }

  function EraseTxn(prefix: Path, k: Key, version: int): Txn {
    var n := EtcdName(prefix, k);
    Txn([if version != 0 then Compare(n, VERSION, EQUAL, version) else Exists(n)],
        [DeleteRange(One(n)), DeleteRange(Subtree(prefix, k))], [Range(n)])
  }

  lemma EraseExact(prefix: Path, k: Key, version: int, s: Store, revision: int)
    requires Genuine(s)
    ensures var r := Execute(EraseTxn(prefix, k, version), s, revision);
      && r.TxnResponse? && (!r.succeeded ==> |r.responses| == 1 && r.responses[0].RangeResponse?)
      && EraseSpec(View(prefix, s), k, version) ==
         (View(prefix, r.store), if !r.succeeded && r.responses[0].kvs == [] then Err(NoEntry) else Ok(0))
  {
    hide EtcdName, View, Run, Subtree, NoOverlap, LeaseMissing;
    var n := EtcdName(prefix, k);
    ViewIs(prefix, s);
    Accepted2(DeleteRange(One(n)), DeleteRange(Subtree(prefix, k)), s);
    Accepted1(Range(n), s);
    Run2(DeleteRange(One(n)), DeleteRange(Subtree(prefix, k)), s, revision);
    Run1(Range(n), s, revision);
    ViewDelete(prefix, s, k, revision);
    var t := EraseTxn(prefix, k, version);
    assert t.success == [DeleteRange(One(n)), DeleteRange(Subtree(prefix, k))] && t.failure == [Range(n)];
    assert AllHold(t.compare, s) <==> Holds(t.compare[0], s);
    var r := Execute(t, s, revision);
    assert r.TxnResponse?;
    assert !r.succeeded ==> r.store == s && r.responses == [Reply(Range(n), s)];
  }

  lemma EraseFrame(prefix: Path, k: Key, version: int, s: Store, revision: int)
    ensures var r := Execute(EraseTxn(prefix, k, version), s, revision);
      r.TxnResponse? ==> OnlyReached(prefix, [Erase(k)], s, r.store)
  {
    hide EtcdName, Run, Subtree, NoOverlap, LeaseMissing, AllHold, SameAt;
    var n := EtcdName(prefix, k);
    var t := EraseTxn(prefix, k, version);
    Run1(Range(n), s, revision);
    assert t.failure == [Range(n)];
    var u := Run(t.success, s, revision).0;
    NothingReached(prefix, [Erase(k)], s);
    forall name | NotReached(prefix, [Erase(k)], name)
      ensures SameAt(s, u, name)
    {
      assert [Erase(k)][0] == Erase(k);
      StepFrame(prefix, 0, Erase(k), name);
      assert Successes(prefix, 0, Erase(k)) == t.success;
      RunFrame(t.success, s, revision, name);
    }
  }

  // ---------- the client ----------

  class Client {
    const prefix: Path
    const db: Db
    var leaseId: int

    constructor (prefix: Path, db: Db)
      ensures this.prefix == prefix && this.db == db && leaseId == 0
    {
      this.prefix, this.db, leaseId := prefix, db, 0;
    }

    /** `LeaseIssuer::get_lease`; `granted` is the lease the service would grant. */
    method GetLease(granted: int) returns (id: int)
      modifies this`leaseId
      ensures id == leaseId == if old(leaseId) == 0 then granted else old(leaseId)
    {
      if leaseId == 0 {
        leaseId := granted;
      }
      id := leaseId;
    }

    /** One operation of a transaction, pushed into the builder. */
    method AddOp(bldr: TransactionBuilder, op: OpStep, granted: int)
      modifies this`leaseId, bldr
      ensures var id := if old(leaseId) == 0 then granted else old(leaseId);
        && leaseId == (if Leased(op) then id else old(leaseId))
        && bldr.txn == Append(old(bldr.txn), Plan(prefix, id, op))
    {
      hide EtcdName, SubtreeRange;
      var path := EtcdPathString(prefix, op.key);
      match op {
        case Create(k, v, lease) =>
          bldr.AddCheckNotExists(path);
          bldr.OnSuccess();
          var id := 0;
          if lease {
            id := GetLease(granted);
          }
          bldr.AddRequest(Put(path, v, id, false));
          bldr.OnFailure();
          bldr.AddRequest(Range(path));
          var parent := Parent(k);
          if parent != [] {
            var parentPath := EtcdPathString(prefix, parent);
            bldr.AddCheckExists(parentPath);
            bldr.OnFailure();
            bldr.AddRequest(Range(parentPath));
          }
        case Set(_, v) =>
          bldr.AddCheckExists(path);
          bldr.OnSuccess();
          bldr.AddRequest(Put(path, v, 0, false));
          bldr.AddRequest(Range(path));
          bldr.OnFailure();
          bldr.AddRequest(Range(path));
        case Erase(k) =>
          bldr.AddCheckExists(path);
          bldr.OnSuccess();
          bldr.AddRequest(DeleteRange(One(path)));
          bldr.AddRequest(DeleteRange(Subtree(prefix, k)));
          bldr.OnFailure();
          bldr.AddRequest(Range(path));
      }
    }

    /** The two compiling loops of `commit`. */
    method Build(transaction: Transaction, granted: int) returns (b: Built)
      modifies this`leaseId
      ensures var id := if old(leaseId) == 0 then granted else old(leaseId);
        && leaseId == (if AnyLeased(transaction.Steps()) then id else old(leaseId))
        && b == BuiltFor(prefix, id, transaction.Steps())
    {
      hide *;
      ghost var id := if leaseId == 0 then granted else leaseId;
      ghost var steps := transaction.Steps();
      StepsAre(transaction);
      var bldr := new TransactionBuilder();
      var expected: seq<seq<bool>>, createIndices: seq<nat>, setIndices: seq<nat>, total := [], [], [], 0;
      BuiltNothing(prefix, id, steps);
      var n := |transaction.checks|;
      for i := 0 to n
        invariant leaseId == old(leaseId)
        invariant Built(bldr.txn, expected, createIndices, setIndices, total) == BuiltFor(prefix, id, steps[..i])
      {
        var check: CheckStep := transaction.checks[i];
        GrowsTo(prefix, id, steps, i);
        GrowCheck(prefix, id, BuiltFor(prefix, id, steps[..i]), check);
        var path := EtcdPathString(prefix, check.key);
        bldr.AddVersionCompare(path, check.version);
        bldr.OnFailure();
        bldr.AddRequest(Range(path));
      }
      NoneLeased(steps, n);
      for i := 0 to |transaction.ops|
        invariant leaseId == if AnyLeased(steps[..n + i]) then id else old(leaseId)
        invariant Built(bldr.txn, expected, createIndices, setIndices, total) == BuiltFor(prefix, id, steps[..n + i])
      {
        var op: OpStep := transaction.ops[i];
        GrowsTo(prefix, id, steps, n + i);
        GrowOp(prefix, id, BuiltFor(prefix, id, steps[..n + i]), op);
        AnyLeasedNext(steps, n + i);
        AddOp(bldr, op, granted);
        expected := expected + [Expected(op)];
        match op {
          case Create(_, _, _) =>
            createIndices := createIndices + [total];
            total := total + 1;
          case Set(_, _) =>
            setIndices := setIndices + [total + 1];
            total := total + 2;
          case Erase(_) =>
            total := total + 1;
        }
      }
      assert steps[..n + |transaction.ops|] == steps;
      b := Built(bldr.txn, expected, createIndices, setIndices, total);
    }

    /** `commit`. */
    method Commit(transaction: Transaction, granted: int) returns (r: CommitResult)
      requires granted != 0 && Genuine(db.store)
      modifies this`leaseId, db
      ensures CommitSound(prefix, transaction.Steps(), old(db.store), r, db.store)
      ensures leaseId == if old(leaseId) == 0 && AnyLeased(transaction.Steps()) then granted else old(leaseId)
      ensures r.Threw? || LeasesBound(prefix, leaseId, transaction.Steps(), db.store)
      ensures OnlyReached(prefix, transaction.Steps(), old(db.store), db.store)
    {
      hide *;
      ghost var steps, s, revision := transaction.Steps(), db.store, db.revision + 1;
      ghost var id := if leaseId == 0 then granted else leaseId;
      var b := Build(transaction, granted);
      BuiltParts(prefix, id, steps);
      ExecuteMeans(prefix, id, steps, s, revision);
      NothingReached(prefix, steps, s);
      var response := db.Commit(b.txn);
      if response.InvalidArgument? {
        r := Threw(ServiceError);
        OverlapSound(prefix, steps, s, r, db.store);
        return;
      }
      if !response.succeeded {
        ExpectedLists(transaction.checks, transaction.ops);
        var e := BlameFailure(prefix, transaction, b.expected, response.responses, id, s, revision);
        r := Threw(e);
        FailureSound(prefix, steps, s, r, db.store);
        return;
      }
      SlotsInOrder(steps);
      var answers := MergeAnswers(b.createIndices, b.setIndices, response.responses, Slots(steps));
      SuccessSound(prefix, id, transaction, s, revision);
      SuccessLeases(prefix, id, steps, s, revision);
      LeaseUsed(prefix, id, leaseId, steps, db.store);
      SuccessFrame(prefix, id, steps, s, revision);
      r := if answers.Some? then Answered(answers.value) else Undefined;
    }

    /** `create`. */
    method CreateKey(k: Key, v: string, lease: bool, granted: int) returns (r: Result<int>)
      requires granted != 0 && Genuine(db.store)
      modifies this`leaseId, db
      ensures (View(prefix, db.store), r) == CreateSpec(ETCD_RULES, View(prefix, old(db.store)), k, v, lease)
      ensures r.Ok? ==> WroteOnly(prefix, k, old(db.store), db.store, if lease then leaseId else 0)
      ensures leaseId == if lease && old(leaseId) == 0 then granted else old(leaseId)
    {
      hide *;
      var id := 0;
      if lease {
        id := GetLease(granted);
      }
      assert lease <==> id != 0 by {
        assert !lease ==> id == 0;
      }
      var txn := BuildCreate(prefix, k, v, id);
      CreateExact(prefix, k, v, id, db.store, db.revision + 1);
      var response := db.Commit(txn);
      if !response.succeeded {
        if response.responses[0].kvs != [] {
          return Err(EntryExists);
        }
        return Err(NoEntry);
      }
      r := Ok(1);
    }

    /** `cas`. */
    method CasKey(k: Key, v: string, version: nat, granted: int) returns (r: Result<int>)
      requires granted != 0 && Genuine(db.store)
      modifies this`leaseId, db
      ensures (View(prefix, db.store), r) == CasSpec(ETCD_RULES, View(prefix, old(db.store)), k, v, version)
      ensures r.Ok? && r.value != 0 ==> LeaseKept(prefix, k, old(db.store), db.store)
      ensures leaseId == old(leaseId)
    {
      hide *;
      CasByCreate(View(prefix, db.store), k, v);
      if version == 0 {
        r := CreateKey(k, v, false, granted);
        if r == Err(EntryExists) {
          r := Ok(0);
        } else if r.Ok? {
          CreatedHasNoLease(prefix, k, old(db.store), db.store);
        }
        return;
      }
      CasExact(prefix, k, v, version, db.store, db.revision + 1);
      var txn := BuildCas(prefix, k, v, version);
      var response := db.Commit(txn);
      if !response.succeeded {
        return if response.responses[0].kvs != [] then Ok(0) else Err(NoEntry);
      }
      r := Ok(VersionAt(response.responses, 1).value);
    }

    /** `erase`. */
    method EraseKey(k: Key, version: nat) returns (r: Result<int>)
      requires Genuine(db.store)
      modifies db
      ensures (View(prefix, db.store), r) == EraseSpec(View(prefix, old(db.store)), k, version)
      ensures OnlyReached(prefix, [Erase(k)], old(db.store), db.store)
    {
      hide *;
      EraseExact(prefix, k, version, db.store, db.revision + 1);
      EraseFrame(prefix, k, version, db.store, db.revision + 1);
      var txn := BuildErase(prefix, k, version);
      var response := db.Commit(txn);
      if !response.succeeded && response.responses[0].kvs == [] {
        return Err(NoEntry);
      }
      r := Ok(0);
    }
  }

  lemma CasByCreate(t: Tree, k: Key, v: string)
    ensures var (u, r) := CreateSpec(ETCD_RULES, t, k, v, false);
      CasSpec(ETCD_RULES, t, k, v, 0) == (u, if r == Err(EntryExists) then Ok(0) else r) &&
      (r.Ok? ==> k !in t)
  {
  }

  // ---------- building the single transactions ----------

  method BuildCreate(prefix: Path, k: Key, v: string, id: int) returns (t: Txn)
    ensures t == CreateTxn(prefix, k, v, id)
  {
    hide EtcdName;
    var bldr := new TransactionBuilder();
    var path := EtcdPathString(prefix, k);
    var parent := Parent(k);
    if parent != [] {
      var parentPath := EtcdPathString(prefix, parent);
      bldr.AddCheckExists(parentPath);
    }
    bldr.AddCheckNotExists(path);
    bldr.OnSuccess();
    bldr.AddRequest(Put(path, v, id, false));
    bldr.OnFailure();
    bldr.AddRequest(Range(path));
    t := bldr.txn;
  }

  method BuildCas(prefix: Path, k: Key, v: string, version: int) returns (t: Txn)
    ensures t == CasTxn(prefix, k, v, version)
  {
    hide EtcdName;
    var bldr := new TransactionBuilder();
    var path := EtcdPathString(prefix, k);
    bldr.AddVersionCompare(path, version);
    bldr.OnSuccess();
    bldr.AddRequest(Put(path, v, 0, true));
    bldr.AddRequest(Range(path));
    bldr.OnFailure();
    bldr.AddRequest(Range(path));
    t := bldr.txn;
  }

  method BuildErase(prefix: Path, k: Key, version: int) returns (t: Txn)
    ensures t == EraseTxn(prefix, k, version)
  {
    hide EtcdName, SubtreeRange;
    var bldr := new TransactionBuilder();
    var path := EtcdPathString(prefix, k);
    if version != 0 {
      bldr.AddVersionCompare(path, version);
    } else {
      bldr.AddCheckExists(path);
    }
    bldr.OnSuccess();
    bldr.AddRequest(DeleteRange(One(path)));
    bldr.AddRequest(DeleteRange(Subtree(prefix, k)));
    bldr.OnFailure();
    bldr.AddRequest(Range(path));
    t := bldr.txn;
  }

  // ---------- the requests spelled out ----------

  lemma GrowCheck(prefix: Path, leaseId: int, b: Built, check: CheckStep)
    ensures var n := EtcdName(prefix, check.key);
      Grow(prefix, leaseId, b, check) ==
      b.(txn := Txn(b.txn.compare + [Compare(n, VERSION, EQUAL, check.version)], b.txn.success,
        b.txn.failure + [Range(n)]))
  {
  }

  lemma GrowOp(prefix: Path, leaseId: int, b: Built, op: OpStep)
    ensures Grow(prefix, leaseId, b, op) ==
      Built(Append(b.txn, Plan(prefix, leaseId, op)),
            b.expected + [Expected(op)],
            b.createIndices + (if op.Create? then [b.total] else []),
            b.setIndices + (if op.Set? then [b.total + 1] else []),
            b.total + (if op.Set? then 2 else 1))
  {
  }

  lemma BuiltParts(prefix: Path, leaseId: int, steps: seq<Step>)
    ensures var b := BuiltFor(prefix, leaseId, steps);
      && b.txn == Compile(prefix, leaseId, steps) && b.expected == ExpectedOf(steps)
      && b.createIndices == CreateIndices(Slots(steps)) && b.setIndices == SetIndices(Slots(steps))
  {
  }
}
