/** The ZooKeeper client's single operations: the constructor that creates the prefix, `create`,
    `cas`, `erase` with its retries, and the two-step `set` under interference. */
module ZkSingle {
  import opened Errors
  import opened Keys
  import opened Tree
  import opened ZkStore
  import opened ZkErase
  import opened ZkCommit

  // ---------- requests the service answers one at a time ----------

  /** The service's `create`, with the error it reports. */
  function ServiceCreate(z: ZStore, p: ZPath, data: string, ephemeral: bool): (ZStore, Result<int>)
    requires p != []
  {
    if Parent(p) !in z then (z, Err(NoEntry))
    else if p in z then (z, Err(EntryExists))
    else if z[Parent(p)].ephemeral then (z, Err(NoChildrenForEphemeral))
    else (z[p := ZNode(data, 0, ephemeral)], Ok(1))
  }

  /** The service's `set`; Ok carries the new data version, ServiceError a version mismatch. */
  function ServiceSet(z: ZStore, p: ZPath, data: string, version: int): (ZStore, Result<int>) {
    if p !in z then (z, Err(NoEntry))
    else if !VersionFits(z, p, version) then (z, Err(ServiceError))
    else (z[p := ZNode(data, z[p].version + 1, z[p].ephemeral)], Ok(z[p].version + 1))
  }

  /** Only the node `p` has changed, if any. */
  ghost predicate OnlyAt(p: ZPath, z: ZStore, u: ZStore) {
    forall q :: q != p ==> (q in u <==> q in z) && (q in z ==> u[q] == z[q])
  }

  lemma ServiceFrame(z: ZStore, p: ZPath, data: string, ephemeral: bool, version: int)
    requires p != []
    ensures OnlyAt(p, z, ServiceCreate(z, p, data, ephemeral).0)
    ensures OnlyAt(p, z, ServiceSet(z, p, data, version).0)
  {
  }

  /** A create that is answered with Ok passes as an operation; in a closed store a refused one
      leaves exactly one possible reason. */
  lemma CreateReply(z: ZStore, p: ZPath, data: string, ephemeral: bool)
    requires ZClosed(z) && p != []
    ensures var (u, r) := ServiceCreate(z, p, data, ephemeral);
      && ZClosed(u)
      && (r.Ok? <==> ZPasses(ZCreate(p, data, ephemeral), z))
      && u == (if r.Ok? then z[p := ZNode(data, 0, ephemeral)] else z)
      && (r == Err(EntryExists) <==> p in z)
  {
    if ZPasses(ZCreate(p, data, ephemeral), z) {
      ZEffectKeepsClosed(ZCreate(p, data, ephemeral), z);
    }
  }

  lemma ParentSeen(prefix: Path, k: Key, z: ZStore)
    requires Serves(prefix, z)
    ensures var p, t := prefix + k, View(prefix, z);
      && p != [] && Parent(p) == prefix + Parent(k)
      && (p in z <==> k in t)
      && (Parent(p) in z <==> Parent(k) == [] || Parent(k) in t)
      && (Parent(p) in z && z[Parent(p)].ephemeral <==> Parent(k) != [] && Parent(k) in t && t[Parent(k)].lease)
  {
    hide View, ZClosed;
    ViewIs(prefix, z);
    assert Parent(prefix + k) == prefix + Parent(k);
    assert prefix + [] == prefix;
  }

  lemma CreateIsSpec(prefix: Path, k: Key, v: string, lease: bool, z: ZStore)
    requires Serves(prefix, z)
    ensures var (u, r) := ServiceCreate(z, prefix + k, v, lease);
      (View(prefix, u), r) == CreateSpec(ZK_RULES, View(prefix, z), k, v, lease) && Serves(prefix, u)
  {
    hide View, ZClosed;
    ParentSeen(prefix, k, z);
    CreateReply(z, prefix + k, v, lease);
    ViewPut(prefix, z, k, ZNode(v, 0, lease));
    ViewClosed(prefix, z);
    assert k in View(prefix, z) ==> ParentReady(ZK_RULES, View(prefix, z), k);
  }

  /** `create`. */
  method CreateKey(prefix: Path, k: Key, v: string, lease: bool, z: ZStore) returns (u: ZStore, r: Result<int>)
    requires Serves(prefix, z)
    ensures (View(prefix, u), r) == CreateSpec(ZK_RULES, View(prefix, z), k, v, lease)
    ensures Serves(prefix, u) && OnlyAt(prefix + k, z, u)
  {
    CreateIsSpec(prefix, k, v, lease, z);
    ServiceFrame(z, prefix + k, v, lease, ANY_VERSION);
    hide View, Serves, OnlyAt;
    var answer := ServiceCreate(z, prefix + k, v, lease);
    u, r := answer.0, if answer.1.Ok? then Ok(1) else answer.1;
  }

  /** `cas`. */
  method CasKey(prefix: Path, k: Key, v: string, version: nat, z: ZStore) returns (u: ZStore, r: Result<int>)
    requires Serves(prefix, z)
    ensures (View(prefix, u), r) == CasSpec(ZK_RULES, View(prefix, z), k, v, version)
    ensures OnlyAt(prefix + k, z, u)
  {
    ServiceFrame(z, prefix + k, v, false, version - 1);
    hide OnlyAt;
    if version == 0 {
      hide View, Serves, ServiceCreate;
      u, r := CreateKey(prefix, k, v, false, z);
      if r == Err(EntryExists) {
        r := Ok(0);
      }
      return;
    }
    hide View, Serves, CreateSpec;
    var p := prefix + k;
    CasOnPresent(prefix, k, v, version, z);
    var answer := ServiceSet(z, p, v, version - 1);
    u := answer.0;
    match answer.1 {
      case Ok(dataVersion) => r := Ok(dataVersion + 1);
      case Err(NoEntry) => r := Err(NoEntry);
      case Err(_) => r := Ok(0);
    }
  }

  lemma CasOnPresent(prefix: Path, k: Key, v: string, version: nat, z: ZStore)
    requires version != 0
    ensures var (u, r) := ServiceSet(z, prefix + k, v, version - 1);
      CasSpec(ZK_RULES, View(prefix, z), k, v, version) ==
      (View(prefix, u),
       match r
       case Ok(dataVersion) => Ok(dataVersion + 1)
       case Err(e) => if e.NoEntry? then Err(NoEntry) else Ok(0))
  {
    hide View;
    var p := prefix + k;
    ViewIs(prefix, z);
    if p in z {
      ViewPut(prefix, z, k, ZNode(v, z[p].version + 1, z[p].ephemeral));
    }
  }

  // ---------- the constructor ----------

  /** A leased node among the first `n` ancestors of the prefix. */
  ghost predicate Blocked(prefix: ZPath, z: ZStore, n: nat)
    requires n <= |prefix|
  {
    exists i :: 0 <= i < n && prefix[..i] in z && z[prefix[..i]].ephemeral
  }

  /** Everything of `z` is still there; what is new lies on the way down to the first `n`
      segments of the prefix, is empty and not leased. */
  ghost predicate Extended(prefix: ZPath, z: ZStore, n: nat, u: ZStore)
    requires n <= |prefix|
  {
    && ZClosed(u)
    && (forall p :: p in z ==> p in u && u[p] == z[p])
    && (forall p :: p in u && p !in z ==> |p| <= n && p == prefix[..|p|] && u[p] == ZNode("", 0, false))
  }

  lemma ExtendNone(prefix: ZPath, z: ZStore)
    requires ZClosed(z)
    ensures Extended(prefix, z, 0, z) && !Blocked(prefix, z, 0) && prefix[..0] == [] && [] in z
  {
  }

  lemma ExtendOne(prefix: ZPath, z: ZStore, n: nat, u: ZStore)
    requires n < |prefix| && Extended(prefix, z, n, u) && prefix[..n] in u
    ensures var (w, r) := ServiceCreate(u, prefix[..n + 1], "", false);
      if r.Ok? || r == Err(EntryExists) then
        && Extended(prefix, z, n + 1, w) && prefix[..n + 1] in w
        && (Blocked(prefix, z, n + 1) <==> Blocked(prefix, z, n) || (prefix[..n] in z && z[prefix[..n]].ephemeral))
        && !(prefix[..n] in z && z[prefix[..n]].ephemeral)
      else r == Err(NoChildrenForEphemeral) && Blocked(prefix, z, |prefix|) && Extended(prefix, z, |prefix|, u)
  {
    hide ZClosed, Blocked, Extended;
    var at, next := prefix[..n], prefix[..n + 1];
    assert Parent(next) == at;
    BlockedNext(prefix, z, n);
    ExtendedAt(prefix, z, n, u);
    CreateReply(u, next, "", false);
    if next !in u && !u[at].ephemeral {
      ExtendedPut(prefix, z, n, u);
    }
  }

  lemma BlockedNext(prefix: ZPath, z: ZStore, n: nat)
    requires n < |prefix|
    ensures Blocked(prefix, z, n + 1) <==> Blocked(prefix, z, n) || (prefix[..n] in z && z[prefix[..n]].ephemeral)
    ensures Blocked(prefix, z, n + 1) ==> Blocked(prefix, z, |prefix|)
  {
  }

  /** The node reached is leased only if it was there, leased, from the start; and it then has
      no child. */
  lemma ExtendedAt(prefix: ZPath, z: ZStore, n: nat, u: ZStore)
    requires n < |prefix| && Extended(prefix, z, n, u) && prefix[..n] in u
    ensures ZClosed(u)
    ensures u[prefix[..n]].ephemeral <==> prefix[..n] in z && z[prefix[..n]].ephemeral
    ensures u[prefix[..n]].ephemeral ==> prefix[..n + 1] !in u
    ensures Extended(prefix, z, n + 1, u) && Extended(prefix, z, |prefix|, u)
  {
    assert Parent(prefix[..n + 1]) == prefix[..n];
  }

  lemma ExtendedPut(prefix: ZPath, z: ZStore, n: nat, u: ZStore)
    requires n < |prefix| && Extended(prefix, z, n, u) && prefix[..n] in u && !u[prefix[..n]].ephemeral
    requires prefix[..n + 1] !in u
    ensures Extended(prefix, z, n + 1, u[prefix[..n + 1] := ZNode("", 0, false)])
  {
    var next := prefix[..n + 1];
    PutKeepsClosed(prefix, n, u);
    hide ZClosed;
    var w := u[next := ZNode("", 0, false)];
    forall p | p in w && p !in z
      ensures |p| <= n + 1 && p == prefix[..|p|] && w[p] == ZNode("", 0, false)
    {
      assert p == next || p in u;
    }
  }

  lemma PutKeepsClosed(prefix: ZPath, n: nat, u: ZStore)
    requires n < |prefix| && ZClosed(u) && prefix[..n] in u && !u[prefix[..n]].ephemeral
    requires prefix[..n + 1] !in u
    ensures ZClosed(u[prefix[..n + 1] := ZNode("", 0, false)])
  {
    hide ZClosed;
    assert Parent(prefix[..n + 1]) == prefix[..n];
    ZEffectKeepsClosed(ZCreate(prefix[..n + 1], "", false), u);
  }

  /** Without the prefix, which a client with a shorter one may have erased, nothing is visible
      and a top-level create is refused although the tree would accept it. */
  lemma PrefixErased(prefix: Path, k: Key, v: string, lease: bool, z: ZStore)
    requires ZClosed(z) && prefix !in z && |k| == 1
    ensures View(prefix, z) == map[]
    ensures CreateSpec(ZK_RULES, View(prefix, z), k, v, lease).1 == Ok(1)
    ensures ServiceCreate(z, prefix + k, v, lease) == (z, Err(NoEntry))
  {
    ViewIs(prefix, z);
    assert Parent(prefix + k) == prefix;
    forall j: Key
      ensures j !in View(prefix, z)
    {
      if prefix + j in z {
        ZAncestors(z, prefix, prefix + j);
      }
    }
  }

  /** The constructor: creates the nodes of the prefix one by one and leaves those that exist
      alone. It fails exactly if a leased node stands in the way, keeps everything that was
      there, and leaves the prefix in place. */
  method MakePrefix(prefix: Path, z: ZStore) returns (u: ZStore, r: Result<int>)
    requires ZClosed(z)
    ensures Extended(prefix, z, |prefix|, u)
    ensures r == if Blocked(prefix, z, |prefix|) then Err(NoChildrenForEphemeral) else Ok(0)
    ensures r.Ok? ==> prefix in u
  {
    hide *;
    ExtendNone(prefix, z);
    u, r := z, Ok(0);
    var entry: ZPath := [];
    for i := 0 to |prefix|
      invariant entry == prefix[..i] && entry in u
      invariant Extended(prefix, z, i, u) && !Blocked(prefix, z, i)
    {
      ExtendOne(prefix, z, i, u);
      entry := entry + [prefix[i]];
      assert entry == prefix[..i + 1];
      var answer := ServiceCreate(u, entry, "", false);
      if answer.1.Err? && answer.1.error != EntryExists {
        return u, answer.1;
      }
      u := answer.0;
    }
    assert prefix[..|prefix|] == prefix;
  }

  // ---------- erase ----------

  datatype EraseVerdict = Gone(store: ZStore) | Missing | OtherVersion | EraseAgain

  /** The multi-operation of `erase`. */
  function EraseOps(p: ZPath, version: int, scan: Scan): seq<ZOp> {
    [ZCheck(p, ANY_VERSION), ZCheck(p, ZVersion(version))] + Erases(Query(p, false, scan))
  }

  /** One round of `erase`: a scan that finds no root throws at once. */
  function EraseAttempt(p: ZPath, version: int, scan: Scan, z: ZStore): EraseVerdict {
    if scan.NoNode? then Missing
    else
      match ZRun(EraseOps(p, version, scan), z)
      case ZDone(u, _) => Gone(u)
      case ZAborted(i) => if i == 0 then Missing else if i == 1 then OtherVersion else EraseAgain
  }

  /** What the caller learns from a finished round. */
  function EraseReply(v: EraseVerdict): Result<int> {
    if v.Missing? then Err(NoEntry) else Ok(0)
  }

  lemma EraseRuns(p: ZPath, version: int, scan: Scan, z: ZStore)
    requires scan.Listed?
    ensures var v := EraseAttempt(p, version, scan, z);
      if p !in z then v == Missing
      else if !VersionFits(z, p, ZVersion(version)) then v == OtherVersion
      else
        match ZRun(Erases(Query(p, true, scan)), z)
        case ZDone(u, _) => v == Gone(u)
        case ZAborted(_) => v == EraseAgain
  {
    hide Query, Erases;
    var c1, c2, list := ZCheck(p, ANY_VERSION), ZCheck(p, ZVersion(version)), Erases(Query(p, true, scan));
    ListedQuery(p, scan);
    ZRunOne(c1, z);
    ZRunSnoc([c1], c2, z);
    assert [c1] + [c2] == [c1, c2];
    ZRunConcat([c1, c2], list, z);
  }

  lemma ListedQuery(p: ZPath, scan: Scan)
    requires scan.Listed?
    ensures Query(p, false, scan) == Query(p, true, scan)
  {
  }

  /** Every finished round is one atomic erase: on the store its multi-operation met, or, if the
      scan found nothing, on the store the scan's first read saw. */
  lemma EraseAtomic(prefix: Path, k: Key, version: int, scan: Scan, seen: ZStore, z: ZStore)
    requires Serves(prefix, z)
    requires scan.NoNode? <==> prefix + k !in seen
    ensures var v := EraseAttempt(prefix + k, version, scan, z);
      match v
      case Gone(u) =>
        && EraseSpec(View(prefix, z), k, version) == (View(prefix, u), EraseReply(v))
        && u == z - Under(z, prefix + k) && Serves(prefix, u)
      case EraseAgain => true
      case _ =>
        var at := if scan.NoNode? then seen else z;
        EraseSpec(View(prefix, at), k, version) == (View(prefix, at), EraseReply(v))
  {
    hide View, ZRun, Query, Erases, ZClosed;
    var p := prefix + k;
    ViewIs(prefix, z);
    ViewIs(prefix, seen);
    if scan.Listed? {
      hide EraseAttempt;
      EraseRuns(p, version, scan, z);
      EraseSound(prefix, Erase(k), scan, z);
      if ZRun(Erases(Query(p, true, scan)), z).ZDone? {
        EraseGroup(p, scan, z);
      }
      assert Plan(prefix, Erase(k), scan) == Erases(Query(p, true, scan));
    }
  }

  /** With no interference one round is enough. */
  lemma EraseQuiet(prefix: Path, k: Key, version: int, scan: Scan, z: ZStore)
    requires Serves(prefix, z) && Mirrors(z, prefix + k, scan)
    ensures EraseAttempt(prefix + k, version, scan, z) != EraseAgain
  {
    if scan.Listed? {
      EraseRuns(prefix + k, version, scan, z);
      EraseGoesThrough(prefix + k, scan, z, z);
      QueryLists(z, prefix + k, scan);
      ListedQuery(prefix + k, scan);
    }
  }

  /** `erase`: rounds until one finishes. */
  method EraseKey(prefix: Path, k: Key, version: nat, rounds: seq<(Scan, ZStore)>)
      returns (v: EraseVerdict, n: nat)
    ensures n <= |rounds|
    ensures forall m :: 0 <= m < n ==> EraseAttempt(prefix + k, version, rounds[m].0, rounds[m].1) == EraseAgain
    ensures if n == |rounds| then v == EraseAgain
            else v == EraseAttempt(prefix + k, version, rounds[n].0, rounds[n].1) && v != EraseAgain
  {
    hide ZRun, Query, Erases;
    var p := prefix + k;
    n := 0;
    while n < |rounds|
      invariant n <= |rounds|
      invariant forall m :: 0 <= m < n ==> EraseAttempt(p, version, rounds[m].0, rounds[m].1) == EraseAgain
    {
      var txn := [ZCheck(p, ANY_VERSION)];
      txn := txn + [ZCheck(p, if version != 0 then version - 1 else ANY_VERSION)];
      assert txn == [ZCheck(p, ANY_VERSION), ZCheck(p, ZVersion(version))];
      var query := MakeRecursiveEraseQuery(txn, p, ThrowNoEntry, rounds[n].0);
      if query.Err? {
        return Missing, n;
      }
      assert query.value == EraseOps(p, version, rounds[n].0);
      match ZRun(query.value, rounds[n].1) {
        case ZDone(u, _) => return Gone(u), n;
        case ZAborted(failed) =>
          if failed == 0 {
            return Missing, n;
          } else if failed == 1 {
            return OtherVersion, n;
          }
      }
      n := n + 1;
    }
    v := EraseAgain;
  }
}
