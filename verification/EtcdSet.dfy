/** The etcd client's `set`: rounds that alternate between expecting no lease and expecting a
    present key, so that a key keeps its lease or its lack of one. */
module EtcdSet {
  import opened Errors
  import opened Keys
  import opened Encoding
  import opened Tree
  import opened EtcdStore
  import opened EtcdPlan
  import opened EtcdAssembly
  import opened EtcdClient

  function SetTxn(prefix: Path, k: Key, v: string, expectLease: bool): Txn {
    var n := EtcdName(prefix, k);
    Txn(ParentExists(prefix, k) + (if expectLease then [] else [Compare(n, LEASE, EQUAL, 0)]),
        [Put(n, v, 0, expectLease), Range(n)],
        if Parent(k) == [] then [] else [Range(EtcdName(prefix, Parent(k)))])
  }

  datatype RoundResult = Written(store: Store, version: int) | NoParent | Again

  /** One round against the store it meets. */
  function SetAttempt(prefix: Path, k: Key, v: string, expectLease: bool, s: Store, revision: int): RoundResult {
    match Execute(SetTxn(prefix, k, v, expectLease), s, revision)
    case InvalidArgument => Again
    case TxnResponse(succeeded, responses, u) =>
      if !succeeded then
        if responses != [] && responses[0].RangeResponse? && responses[0].kvs == [] then NoParent else Again
      else
        match VersionAt(responses, 1)
        case Some(version) => Written(u, version)
        case None => Again
  }

  /** The parent a round requires. */
  predicate ParentThere(t: Tree, k: Key) {
    Parent(k) == [] || Parent(k) in t
  }

  /** Exactly when a round ends the loop, and with what effect. */
  lemma AttemptIs(prefix: Path, k: Key, v: string, expectLease: bool, s: Store, revision: int)
    requires Genuine(s)
    ensures var t := View(prefix, s);
      match SetAttempt(prefix, k, v, expectLease, s, revision)
      case NoParent => !ParentThere(t, k)
      case Again => ParentThere(t, k) && if expectLease then k !in t else k in t && t[k].lease
      case Written(u, version) =>
        && ParentThere(t, k)
        && (View(prefix, u), Ok(version)) == SetSpec(ETCD_RULES, t, k, v)
        && LeaseKept(prefix, k, s, u)
  {
    hide EtcdName, View, Run, NoOverlap, LeaseMissing, AllHold, ParentExists;
    var n := EtcdName(prefix, k);
    var txn, put := SetTxn(prefix, k, v, expectLease), Put(n, v, 0, expectLease);
    ViewIs(prefix, s);
    Accepted2(put, Range(n), s);
    Run2(put, Range(n), s, revision);
    ParentAnd(prefix, k, Compare(n, LEASE, EQUAL, 0), s);
    assert expectLease ==> txn.compare == ParentExists(prefix, k);
    FailureBranch(prefix, k, s, revision);
    assert txn.success == [put, Range(n)];
    var e := Effect(put, s, revision)[n];
    ViewPut(prefix, s, k, e);
    assert Effect(put, s, revision) == s[n := e];
  }

  /** A round that does not write leaves the store as it was. */
  lemma RoundStore(prefix: Path, k: Key, v: string, expectLease: bool, s: Store, revision: int)
    ensures var a, r := SetAttempt(prefix, k, v, expectLease, s, revision),
      Execute(SetTxn(prefix, k, v, expectLease), s, revision);
      r.TxnResponse? ==> r.store == (if a.Written? then a.store else s)
  {
    hide EtcdName, Run, NoOverlap, LeaseMissing, AllHold, ParentExists;
    var n := EtcdName(prefix, k);
    var txn, put := SetTxn(prefix, k, v, expectLease), Put(n, v, 0, expectLease);
    assert txn.success == [put, Range(n)];
    Run2(put, Range(n), s, revision);
    FailureBranch(prefix, k, s, revision);
    assert Run(txn.failure, s, revision).0 == s;
  }

  lemma FailureBranch(prefix: Path, k: Key, s: Store, revision: int)
    ensures var qs := if Parent(k) == [] then [] else [Range(EtcdName(prefix, Parent(k)))];
      && NoOverlap(qs) && !LeaseMissing(qs, s)
      && Run(qs, s, revision) ==
         (s, if Parent(k) == [] then []
             else [RangeResponse(if Parent(k) in View(prefix, s) then [s[EtcdName(prefix, Parent(k))]] else [])])
  {
    hide EtcdName, View;
    ViewIs(prefix, s);
    if Parent(k) == [] {
      RunNone(s, revision);
    } else {
      var q := Range(EtcdName(prefix, Parent(k)));
      Accepted1(q, s);
      Run1(q, s, revision);
    }
  }

  method BuildSet(prefix: Path, k: Key, v: string, expectLease: bool) returns (t: Txn)
    ensures t == SetTxn(prefix, k, v, expectLease)
  {
    hide EtcdName;
    var bldr := new TransactionBuilder();
    var parent := Parent(k);
    if parent != [] {
      var parentPath := EtcdPathString(prefix, parent);
      bldr.AddCheckExists(parentPath);
      bldr.OnFailure();
      bldr.AddRequest(Range(parentPath));
    }
    var path := EtcdPathString(prefix, k);
    if !expectLease {
      bldr.AddLeaseCompare(path, 0);
    }
    bldr.OnSuccess();
    bldr.AddRequest(Put(path, v, 0, expectLease));
    bldr.AddRequest(Range(path));
    t := bldr.txn;
  }

  /** The rounds expect no lease, a key, no lease, and so on. */
  predicate Expects(m: nat) {
    m % 2 == 1
  }

  /** `set`: rounds until one ends it. `rounds` are the stores (with the revision of the attempt)
      that the successive transactions meet. */
  method SetKey(prefix: Path, k: Key, v: string, rounds: seq<(Store, int)>) returns (r: RoundResult, n: nat)
    ensures n <= |rounds|
    ensures forall m :: 0 <= m < n ==> SetAttempt(prefix, k, v, Expects(m), rounds[m].0, rounds[m].1) == Again
    ensures if n == |rounds| then r == Again
            else r == SetAttempt(prefix, k, v, Expects(n), rounds[n].0, rounds[n].1) && r != Again
  {
    hide SetTxn, Execute, VersionAt;
    var expectLease := true;
    n := 0;
    while n < |rounds|
      invariant n <= |rounds| && expectLease == !Expects(n)
      invariant forall m :: 0 <= m < n ==> SetAttempt(prefix, k, v, Expects(m), rounds[m].0, rounds[m].1) == Again
    {
      expectLease := !expectLease;
      var txn := BuildSet(prefix, k, v, expectLease);
      var response := Execute(txn, rounds[n].0, rounds[n].1);
      if response.InvalidArgument? {
        n := n + 1;
        continue;
      }
      if !response.succeeded {
        if response.responses != [] && response.responses[0].RangeResponse? && response.responses[0].kvs == [] {
          return NoParent, n;
        }
        n := n + 1;
        continue;
      }
      match VersionAt(response.responses, 1) {
        case Some(version) => return Written(response.store, version), n;
        case None =>
      }
      n := n + 1;
    }
    r := Again;
  }

  // ---------- how long the loop can last ----------

  /** How often the presence of the key differs between consecutive stores. */
  function Flips(prefix: Path, k: Key, rounds: seq<(Store, int)>): nat {
    if |rounds| < 2 then 0
    else
      var n, a, b := |rounds|, rounds[|rounds| - 2].0, rounds[|rounds| - 1].0;
      Flips(prefix, k, rounds[..n - 1])
      + if (EtcdName(prefix, k) in a) != (EtcdName(prefix, k) in b) then 1 else 0
  }

  /** The first round expects no lease, and each round expects the opposite of the one before. */
  lemma ExpectsAlternate(m: nat)
    ensures !Expects(0) && Expects(1) && (Expects(m + 1) <==> !Expects(m))
  {
  }

  /** None of these rounds ended the loop. */
  ghost predicate AllAgain(prefix: Path, k: Key, v: string, rounds: seq<(Store, int)>) {
    forall m :: 0 <= m < |rounds| ==>
      Genuine(rounds[m].0) && SetAttempt(prefix, k, v, Expects(m), rounds[m].0, rounds[m].1) == Again
  }

  /** Rounds that all ask for another one see the key appear or vanish between any two of them:
      `n` such rounds mean at least `n - 1` changes made by others. */
  lemma {:induction false} AgainMeansInterference(prefix: Path, k: Key, v: string, rounds: seq<(Store, int)>)
    requires AllAgain(prefix, k, v, rounds)
    ensures Flips(prefix, k, rounds) + 1 >= |rounds|
  {
    hide AllAgain, EtcdName;
    if |rounds| >= 2 {
      var n := |rounds|;
      LastTwoFlip(prefix, k, v, rounds);
      AgainMeansInterference(prefix, k, v, rounds[..n - 1]);
    }
  }

  lemma LastTwoFlip(prefix: Path, k: Key, v: string, rounds: seq<(Store, int)>)
    requires |rounds| >= 2 && AllAgain(prefix, k, v, rounds)
    ensures AllAgain(prefix, k, v, rounds[..|rounds| - 1])
    ensures (EtcdName(prefix, k) in rounds[|rounds| - 2].0) != (EtcdName(prefix, k) in rounds[|rounds| - 1].0)
  {
    hide Genuine, SetAttempt, EtcdName, View;
    var n := |rounds|;
    AgainSays(prefix, k, v, rounds[n - 2], n - 2);
    AgainSays(prefix, k, v, rounds[n - 1], n - 1);
  }

  lemma AgainSays(prefix: Path, k: Key, v: string, round: (Store, int), m: nat)
    requires Genuine(round.0) && SetAttempt(prefix, k, v, Expects(m), round.0, round.1) == Again
    ensures EtcdName(prefix, k) in round.0 <==> m % 2 == 0
  {
    hide Genuine, SetAttempt, EtcdName, View;
    AttemptIs(prefix, k, v, Expects(m), round.0, round.1);
    ViewIs(prefix, round.0);
  }

  /** Undisturbed, the loop ends within two rounds. */
  lemma QuietSetEnds(prefix: Path, k: Key, v: string, s: Store, r1: int, r2: int)
    requires Genuine(s)
    ensures SetAttempt(prefix, k, v, false, s, r1) == Again ==> SetAttempt(prefix, k, v, true, s, r2) != Again
  {
    hide Genuine, SetAttempt, View;
    AttemptIs(prefix, k, v, false, s, r1);
    AttemptIs(prefix, k, v, true, s, r2);
  }
}
