/** The Consul client: every call is one transaction of the key-value store, and does exactly
    what the specification says. */
module ConsulClient {
  import opened Errors
  import opened Keys
  import opened Encoding
  import opened Tree
  import opened Boundaries
  import opened ConsulStore
  import opened ConsulPlan
  import opened ConsulChildren
  import opened Listings

  class Client {
    const prefix: Path
    const kv: Kv
    var session: string

    constructor (prefix: Path, kv: Kv)
      ensures this.prefix == prefix && this.kv == kv && session == ""
    {
      this.prefix, this.kv, session := prefix, kv, "";
    }

    /** `create_session_if_needed_`; `newSession` is the id the service would hand out. */
    method CreateSessionIfNeeded(newSession: string)
      modifies this`session
      ensures session == if old(session) == "" then newSession else old(session)
    {
      if session == "" {
        session := newSession;
      }
    }

    /** `commit`: the fold, its answers, or the index of its first failing step. */
    method Commit(transaction: Transaction, newSession: string) returns (r: Result<seq<Answer>>)
      requires newSession != ""
      modifies this`session, kv
      ensures match Fold(ConsulRules(old(kv.index) + 1), transaction.Steps(), View(prefix, old(kv.store)))
        case Committed(t, answers) => r == Ok(answers) && View(prefix, kv.store) == t && kv.index == old(kv.index) + 1
        case Failed(i) => r == Err(TxnFailed(i)) && kv.store == old(kv.store) && kv.index == old(kv.index)
      ensures OnlyReached(prefix, transaction.Steps(), old(kv.store), kv.store)
      ensures session == if old(session) == "" && AnyLeased(transaction.Steps()) then newSession else old(session)
      ensures r.Ok? ==> SessionsBound(prefix, session, transaction.Steps(), kv.store)
    {
      hide View, Fold, Run, ConsulName, Compile, Bounds, AllKinds, Extract, LowerBound, OnlyReached,
        SessionsBound, AnyLeased;
      ghost var sid := if session == "" then newSession else session;
      ghost var steps := transaction.Steps();
      var txn, bounds, kinds := CompileTransaction(transaction, newSession);
      CommitExact(prefix, sid, steps, kv.store, kv.index + 1);
      BoundsIncrease(prefix, sid, steps);
      var ran := kv.Commit(txn);
      match ran {
        case Done(_, results) =>
          CommitFrame(prefix, sid, steps, old(kv.store), old(kv.index) + 1);
          CommitBinds(prefix, sid, session, steps, old(kv.store), old(kv.index) + 1);
          var answer := CollectAnswers(kinds, results);
          r := Ok(answer);
        case Aborted(opIndex) =>
          NothingReached(prefix, steps, kv.store);
          var userIndex := Search(bounds, opIndex);
          r := Err(TxnFailed(userIndex));
      }
    }

    /** The two loops of `commit` that push raw operations, boundaries and result kinds. */
    method CompileTransaction(transaction: Transaction, newSession: string)
        returns (txn: seq<KvOp>, bounds: seq<int>, kinds: seq<ResultKind>)
      requires newSession != ""
      modifies this`session
      ensures var steps, sid := transaction.Steps(), if old(session) == "" then newSession else old(session);
        && txn == Compile(prefix, sid, steps)
        && bounds == Bounds(prefix, sid, steps)
        && kinds == AllKinds(steps)
        && AllSessionReady(steps, sid)
        && session == if AnyLeased(steps) then sid else old(session)
    {
      hide *;
      ghost var steps := transaction.Steps();
      ghost var sid := if session == "" then newSession else session;
      txn, bounds, kinds := [], [], [];
      SessionsReady(steps, sid);
      StepsAre(transaction);
      NonePushed(prefix, sid, steps);
      var n := |transaction.checks|;

      for i := 0 to n
        invariant session == old(session)
        invariant Pushed(prefix, sid, steps, i, txn, bounds, kinds)
      {
        var check: CheckStep := transaction.checks[i];
        CheckPlan(prefix, sid, check);
        PushOne(prefix, sid, steps, i, txn, bounds, kinds);
        var name := ConsulPathString(prefix, check.key);
        if check.version != 0 {
          txn := txn + [KvCheckIndex(name, check.version)];
        } else {
          txn := txn + [KvGet(name)];
        }
        kinds := kinds + [RkAux];
        bounds := bounds + [|txn| - 1];
      }

      NoneLeased(steps, n);
      for i := 0 to |transaction.ops|
        invariant session == if AnyLeased(steps[..n + i]) then sid else old(session)
        invariant Pushed(prefix, sid, steps, n + i, txn, bounds, kinds)
      {
        var op: OpStep := transaction.ops[i];
        PushOne(prefix, sid, steps, n + i, txn, bounds, kinds);
        AnyLeasedNext(steps, n + i);
        var more, moreKinds := CompileOp(op, newSession);
        txn := txn + more;
        kinds := kinds + moreKinds;
        bounds := bounds + [|txn| - 1];
      }
      AllPushed(prefix, sid, steps, txn, bounds, kinds);
      assert steps[..n + |transaction.ops|] == steps;
    }

    /** One operation of a transaction: its guards, its effects, and the kinds of its results. */
    method CompileOp(op: OpStep, newSession: string) returns (txn: seq<KvOp>, kinds: seq<ResultKind>)
      requires newSession != ""
      modifies this`session
      ensures var sid := if old(session) == "" then newSession else old(session);
        && session == (if Leased(op) then sid else old(session))
        && txn == Plan(prefix, sid, op) && kinds == Kinds(op)
    {
      txn, kinds := [], [];
      var name := ConsulPathString(prefix, op.key);
      match op {
        case Create(k, v, lease) =>
          var parent := Parent(k);
          if parent != [] {
            var parentName := ConsulPathString(prefix, parent);
            txn := txn + [KvGet(parentName)];
            kinds := kinds + [RkAux];
          }
          txn := txn + [KvCheckNotExists(name)];
          if lease {
            CreateSessionIfNeeded(newSession);
            txn := txn + [KvLock(name, v, session)];
          } else {
            txn := txn + [KvSet(name, v)];
          }
          kinds := kinds + [RkCreate];
        case Set(_, v) =>
          txn := [KvGet(name), KvSet(name, v)];
          kinds := [RkAux, RkSet];
        case Erase(_) =>
          txn := [KvGet(name), KvErase(name), KvEraseAll(name + "/")];
          kinds := [RkAux];
      }
    }

    /** The loop over the raw results. */
    static method CollectAnswers(kinds: seq<ResultKind>, results: seq<Item>) returns (answer: seq<Answer>)
      requires |kinds| == |results|
      ensures answer == Extract(kinds, results)
    {
      answer := [];
      for i := 0 to |results|
        invariant answer == Extract(kinds[..i], results[..i])
      {
        ExtractLast(kinds[..i + 1], results[..i + 1]);
        assert kinds[..i + 1][..i] == kinds[..i] && results[..i + 1][..i] == results[..i];
        match kinds[i] {
          case RkCreate => answer := answer + [Answer(CREATE, results[i].modifyIndex)];
          case RkSet => answer := answer + [Answer(SET, results[i].modifyIndex)];
          case RkAux =>
        }
      }
      assert kinds[..|results|] == kinds && results[..|results|] == results;
    }

    /** `create`. */
    method CreateKey(k: Key, v: string, lease: bool, newSession: string) returns (r: Result<int>)
      requires newSession != ""
      requires Closed(ConsulRules(kv.index + 1), View(prefix, kv.store))
      modifies this`session, kv
      ensures (View(prefix, kv.store), r) ==
        CreateSpec(ConsulRules(old(kv.index) + 1), View(prefix, old(kv.store)), k, v, lease)
      ensures OnlyReached(prefix, [Create(k, v, lease)], old(kv.store), kv.store)
      ensures session == if lease && old(session) == "" then newSession else old(session)
      ensures r.Ok? ==> BoundTo(prefix, k, if lease then session else "", kv.store)
    {
      hide *;
      var hasParent := Parent(k) != [];
      ghost var sid := if session == "" then newSession else session;
      var txn, kinds := CompileOp(Create(k, v, lease), newSession);
      CreateExact(prefix, sid, k, v, lease, kv.store, kv.index + 1);
      CreateFrame(prefix, sid, Create(k, v, lease), kv.store, kv.index + 1);
      NothingReached(prefix, [Create(k, v, lease)], kv.store);
      CreateBinds(prefix, sid, Create(k, v, lease), kv.store, kv.index + 1);
      LeasedIs(k, v, lease);
      var ran := kv.Commit(txn);
      match ran {
        case Done(_, results) =>
          r := Ok(LastIndex(results));
        case Aborted(opIndex) =>
          if hasParent && opIndex == 0 {
            r := Err(NoEntry);
          } else if opIndex == (if hasParent then 1 else 0) {
            r := Err(EntryExists);
          } else {
            r := Err(ServiceError);
          }
      }
    }

    /** `set`: one transaction that writes the key if the parent is there. */
    method SetKey(k: Key, v: string) returns (r: Result<int>)
      requires Closed(ConsulRules(kv.index + 1), View(prefix, kv.store))
      modifies kv
      ensures (View(prefix, kv.store), r) == SetSpec(ConsulRules(old(kv.index) + 1), View(prefix, old(kv.store)), k, v)
      ensures OnlyReached(prefix, [Set(k, v)], old(kv.store), kv.store)
    {
      hide Closed, View, Run, SetSpec, ConsulName, LastIndex, OnlyReached;
      var parent := Parent(k);
      var txn: seq<KvOp> := [];
      if parent != [] {
        var parentName := ConsulPathString(prefix, parent);
        txn := txn + [KvGet(parentName)];
      }
      var name := ConsulPathString(prefix, k);
      txn := txn + [KvSet(name, v)];
      assert txn == SetPlan(prefix, k, v);
      SetExact(prefix, k, v, kv.store, kv.index + 1);
      SetFrame(prefix, k, v, kv.store, kv.index + 1);
      NothingReached(prefix, [Set(k, v)], kv.store);
      hide *;
      var ran := kv.Commit(txn);
      match ran {
        case Done(_, results) => r := Ok(LastIndex(results));
        case Aborted(_) => r := Err(NoEntry);
      }
    }

    /** `cas`. */
    method CasKey(k: Key, v: string, version: nat) returns (r: Result<int>)
      requires Closed(ConsulRules(kv.index + 1), View(prefix, kv.store))
      modifies this`session, kv
      ensures (View(prefix, kv.store), r) ==
        CasSpec(ConsulRules(old(kv.index) + 1), View(prefix, old(kv.store)), k, v, version)
      ensures OnlyReached(prefix, [Set(k, v)], old(kv.store), kv.store)
      ensures session == old(session)
    {
      hide Closed, View, Run, ConsulName, LastIndex, OnlyReached;
      if version == 0 {
        r := CreateKey(k, v, false, "unused");
        SameReach(prefix, k, v, false, old(kv.store), kv.store);
        if r == Err(EntryExists) {
          r := Ok(0);
        }
        return;
      }
      var name := ConsulPathString(prefix, k);
      var txn := [KvGet(name), KvCompareSet(name, version, v)];
      CasExact(prefix, k, v, version, kv.store, kv.index + 1);
      CasFrame(prefix, k, v, version, kv.store, kv.index + 1);
      NothingReached(prefix, [Set(k, v)], kv.store);
      assert txn == CasPlan(prefix, k, v, version);
      hide *;
      var ran := kv.Commit(txn);
      match ran {
        case Done(_, results) => r := Ok(LastIndex(results));
        case Aborted(opIndex) => r := if opIndex == 0 then Err(NoEntry) else Ok(0);
      }
    }

    /** `erase`. */
    method EraseKey(k: Key, version: nat) returns (r: Result<int>)
      modifies kv
      ensures (View(prefix, kv.store), r) == EraseSpec(View(prefix, old(kv.store)), k, version)
      ensures OnlyReached(prefix, [Erase(k)], old(kv.store), kv.store)
    {
      hide View, Run, EraseSpec, ConsulName, OnlyReached;
      var name := ConsulPathString(prefix, k);
      var txn := [KvGet(name)];
      if version != 0 {
        txn := txn + [KvCompareErase(name, version)];
      } else {
        txn := txn + [KvErase(name)];
      }
      txn := txn + [KvEraseAll(name + "/")];
      EraseExact(prefix, k, version, kv.store, kv.index + 1);
      EraseFrame(prefix, k, version, kv.store, kv.index + 1);
      NothingReached(prefix, [Erase(k)], kv.store);
      assert txn == ErasePlan(prefix, k, version);
      hide *;
      var ran := kv.Commit(txn);
      match ran {
        case Done(_, _) => r := Ok(0);
        case Aborted(opIndex) => r := if opIndex == 0 then Err(NoEntry) else Ok(0);
      }
    }

    /** `get_children`: the names below "name/" with no further slash, stripped of the client
        prefix. `listing` is the service's answer to the prefix scan. */
    method GetChildren(k: Key, listing: seq<string>) returns (r: Result<seq<string>>)
      requires Lists(listing, NamesBelow(kv.store, ConsulName(prefix, k) + "/"))
      ensures r.Err? <==> k !in View(prefix, kv.store)
      ensures r.Err? ==> r.error == NoEntry
      ensures r.Ok? ==> NoRepeats(r.value)
      ensures r.Ok? ==> forall c :: c in r.value <==> ChildString(prefix, k, kv.store, c)
      ensures r.Ok? ==> forall j: Key :: Join(j) in r.value <==> j in View(prefix, kv.store) && Parent(j) == k
      ensures r.Ok? && OnlyKeys(prefix, k, kv.store) ==> forall c :: c in r.value ==> exists j: Key :: Join(j) == c
    {
      var root := ConsulPathString(prefix, []);
      hide *;
      var name := ConsulPathString(prefix, k);
      ViewIs(prefix, kv.store);
      if name !in kv.store {
        return Err(NoEntry);
      }
      var childPrefix := name + "/";
      ChildrenExact(prefix, k, listing, kv.store);
      var children := CollectChildren(listing, childPrefix, root);
      r := Ok(children);
    }

    /** The loop over the listing. */
    static method CollectChildren(listing: seq<string>, childPrefix: string, root: string)
      returns (children: seq<string>)
      requires |root| <= |childPrefix|
      requires forall i :: 0 <= i < |listing| ==> childPrefix <= listing[i]
      ensures children == Collect(listing, childPrefix, |root|)
    {
      children := [];
      for i := 0 to |listing|
        invariant children == Collect(listing[..i], childPrefix, |root|)
      {
        hide *;
        var entry := listing[i];
        CollectLast(listing[..i + 1], childPrefix, |root|);
        assert listing[..i + 1][..i] == listing[..i];
        if Find(entry, '/', |childPrefix|) == |entry| {
          StripIs(|root|, entry);
          if |root| != 0 {
            children := children + [entry[|root|..]];
          } else {
            children := children + ["/" + entry];
          }
        }
      }
      assert listing[..|listing|] == listing;
    }
  }
}
