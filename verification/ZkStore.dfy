/** The ZooKeeper service as the client sees it: a tree of nodes and all-or-nothing
    multi-operations that run in order. Paths are lists of names. */
module ZkStore {
  import opened Errors
  import opened Keys
  import opened Tree

  datatype ZNode = ZNode(data: string, version: int, ephemeral: bool)

  type ZPath = seq<string>

  type ZStore = map<ZPath, ZNode>

  const ANY_VERSION := -1

  datatype ZOp =
    | ZCheck(path: ZPath, version: int)
    | ZCreate(path: ZPath, data: string, ephemeral: bool)
    | ZSet(path: ZPath, data: string, version: int)
    | ZErase(path: ZPath)

  predicate Childless(z: ZStore, p: ZPath) {
    forall q :: q in z && q != [] ==> Parent(q) != p
  }

  predicate VersionFits(z: ZStore, p: ZPath, version: int) {
    p in z && (version == ANY_VERSION || z[p].version == version)
  }

  predicate ZPasses(op: ZOp, z: ZStore) {
    match op
    case ZCheck(p, version) => VersionFits(z, p, version)
    case ZCreate(p, _, _) => p !in z && p != [] && Parent(p) in z && !z[Parent(p)].ephemeral
    case ZSet(p, _, version) => VersionFits(z, p, version)
    case ZErase(p) => p in z && p != [] && Childless(z, p)
  }

  function ZEffect(op: ZOp, z: ZStore): ZStore
    requires ZPasses(op, z)
  {
    match op
    case ZCheck(_, _) => z
    case ZCreate(p, data, ephemeral) => z[p := ZNode(data, 0, ephemeral)]
    case ZSet(p, data, _) => z[p := ZNode(data, z[p].version + 1, z[p].ephemeral)]
    case ZErase(p) => z - {p}
  }

  datatype ZResult = Checked | Created | WasSet(version: int) | Erased

  function ZYield(op: ZOp, z: ZStore): ZResult
    requires ZPasses(op, z)
  {
    match op
    case ZCheck(_, _) => Checked
    case ZCreate(_, _, _) => Created
    case ZSet(p, _, _) => WasSet(z[p].version + 1)
    case ZErase(_) => Erased
  }

  datatype ZRan = ZDone(store: ZStore, results: seq<ZResult>) | ZAborted(index: nat)

  function ZRun(ops: seq<ZOp>, z: ZStore): (r: ZRan)
    ensures r.ZAborted? ==> r.index < |ops|
  {
    if ops == [] then ZDone(z, []) else ZNext(ZRun(ops[..|ops| - 1], z), ops[|ops| - 1], |ops| - 1)
  }

  function ZNext(r: ZRan, op: ZOp, position: nat): ZRan {
    match r
    case ZAborted(_) => r
    case ZDone(u, results) =>
      if ZPasses(op, u) then ZDone(ZEffect(op, u), results + [ZYield(op, u)]) else ZAborted(position)
  }

  lemma ZRunSnoc(ops: seq<ZOp>, op: ZOp, z: ZStore)
    ensures ZRun(ops + [op], z) == ZNext(ZRun(ops, z), op, |ops|)
  {
    assert (ops + [op])[..|ops|] == ops;
  }

  lemma ZRunOne(op: ZOp, z: ZStore)
    ensures ZRun([op], z) == if ZPasses(op, z) then ZDone(ZEffect(op, z), [ZYield(op, z)]) else ZAborted(0)
  {
    ZRunSnoc([], op, z);
    assert [] + [op] == [op];
  }

  lemma ZRunNone(a: seq<ZOp>, z: ZStore)
    ensures forall u :: ZRun([], u) == ZDone(u, [])
    ensures var r := ZRun(a, z); r.ZDone? ==> r.results + [] == r.results
  {
  }

  lemma {:induction false} ZRunConcat(a: seq<ZOp>, b: seq<ZOp>, z: ZStore)
    ensures ZRun(a + b, z) ==
      match ZRun(a, z)
      case ZAborted(i) => ZAborted(i)
      case ZDone(u, results) =>
        match ZRun(b, u)
        case ZAborted(i) => ZAborted(|a| + i)
        case ZDone(w, more) => ZDone(w, results + more)
  {
    hide ZPasses, ZEffect, ZYield, ZRun;
    if b == [] {
      assert a + b == a;
      ZRunNone(a, z);
    } else {
      var n := |b| - 1;
      ZRunConcat(a, b[..n], z);
      assert a + b == (a + b[..n]) + [b[n]] && b == b[..n] + [b[n]];
      ZRunSnoc(a + b[..n], b[n], z);
      match ZRun(a, z) {
        case ZAborted(_) =>
        case ZDone(u, results) =>
          ZRunSnoc(b[..n], b[n], u);
          match ZRun(b[..n], u) {
            case ZAborted(_) =>
            case ZDone(w, more) =>
              assert ZPasses(b[n], w) ==>
                results + more + [ZYield(b[n], w)] == results + (more + [ZYield(b[n], w)]);
          }
      }
    }
  }

  // ---------- the tree of nodes ----------

  /** What ZooKeeper keeps: the root is there, parents are there and persistent. */
  ghost predicate ZClosed(z: ZStore) {
    && [] in z
    && (forall p :: p in z && p != [] ==> Parent(p) in z && !z[Parent(p)].ephemeral)
    && (forall p :: p in z ==> z[p].version >= 0)
  }

  lemma ZEffectKeepsClosed(op: ZOp, z: ZStore)
    requires ZClosed(z) && ZPasses(op, z)
    ensures ZClosed(ZEffect(op, z))
  {
  }

  lemma {:induction false} ZRunKeepsClosed(ops: seq<ZOp>, z: ZStore)
    requires ZClosed(z)
    ensures ZRun(ops, z).ZDone? ==> ZClosed(ZRun(ops, z).store)
  {
    hide ZClosed, ZPasses, ZEffect;
    if ops != [] {
      var init, op := ops[..|ops| - 1], ops[|ops| - 1];
      ZRunKeepsClosed(init, z);
      if ZRun(ops, z).ZDone? {
        ZEffectKeepsClosed(op, ZRun(init, z).store);
      }
    }
  }

  lemma {:induction false} ZAncestors(z: ZStore, a: ZPath, p: ZPath)
    requires ZClosed(z) && p in z && a <= p
    ensures a in z
    decreases |p|
  {
    if |a| < |p| {
      assert a <= Parent(p);
      ZAncestors(z, a, Parent(p));
    } else {
      assert a == p;
    }
  }

  function Under(z: ZStore, root: ZPath): set<ZPath> {
    set p | p in z && root <= p
  }

  // ---------- the tree a client sees ----------

  function ToNode(n: ZNode): Node {
    Node(n.data, n.version + 1, n.ephemeral)
  }

  function Visible(prefix: Path, z: ZStore): set<Key> {
    set p | p in z && prefix < p && ValidPath(p[|prefix|..]) :: p[|prefix|..]
  }

  lemma VisibleIs(prefix: Path, z: ZStore)
    ensures forall k: Key :: k in Visible(prefix, z) <==> prefix + k in z
  {
    forall k: Key
      ensures k in Visible(prefix, z) <==> prefix + k in z
    {
      assert (prefix + k)[|prefix|..] == k;
      if k in Visible(prefix, z) {
        var p :| p in z && prefix < p && p[|prefix|..] == k;
        assert p == prefix + k;
      }
    }
  }

  /** The keys below the client's prefix; names the library would refuse are invisible. */
  ghost function View(prefix: Path, z: ZStore): Tree {
    VisibleIs(prefix, z);
    map k | k in Visible(prefix, z) :: ToNode(z[prefix + k])
  }

  lemma ViewIs(prefix: Path, z: ZStore)
    ensures forall k: Key :: k in View(prefix, z) <==> prefix + k in z
    ensures forall k: Key :: k in View(prefix, z) ==> View(prefix, z)[k] == ToNode(z[prefix + k])
  {
    hide Visible;
    VisibleIs(prefix, z);
  }

  /** The prefix node exists and may have children. */
  predicate PrefixReady(prefix: Path, z: ZStore) {
    prefix in z && !z[prefix].ephemeral
  }

  ghost predicate Serves(prefix: Path, z: ZStore) {
    ZClosed(z) && PrefixReady(prefix, z)
  }

  lemma ViewPut(prefix: Path, z: ZStore, k: Key, n: ZNode)
    ensures View(prefix, z[prefix + k := n]) == View(prefix, z)[k := ToNode(n)]
  {
    hide View, ToNode;
    ViewIs(prefix, z);
    ViewIs(prefix, z[prefix + k := n]);
    forall j: Key | prefix + j == prefix + k
      ensures j == k
    {
      assert (prefix + j)[|prefix|..] == j && (prefix + k)[|prefix|..] == k;
    }
  }

  lemma PrefixOrder(prefix: ZPath, a: ZPath, b: ZPath)
    ensures prefix + a <= prefix + b <==> a <= b
  {
    assert (prefix + a)[|prefix|..] == a && (prefix + b)[|prefix|..] == b;
    if |a| <= |b| {
      assert (prefix + b)[..|prefix + a|] == prefix + b[..|a|];
      assert (prefix + b[..|a|])[|prefix|..] == b[..|a|];
    }
  }

  lemma ViewErase(prefix: Path, z: ZStore, k: Key)
    ensures View(prefix, z - Under(z, prefix + k)) == Prune(View(prefix, z), k)
  {
    hide View, ToNode;
    ViewIs(prefix, z);
    ViewIs(prefix, z - Under(z, prefix + k));
    forall j: Key
      ensures prefix + k <= prefix + j <==> k <= j
    {
      PrefixOrder(prefix, k, j);
    }
  }

  /** A service that serves the prefix shows a closed tree. */
  lemma ViewClosed(prefix: Path, z: ZStore)
    requires Serves(prefix, z)
    ensures Closed(ZK_RULES, View(prefix, z))
  {
    hide View;
    ViewIs(prefix, z);
    var t := View(prefix, z);
    forall k | k in t
      ensures ParentReady(ZK_RULES, t, k)
    {
      assert Parent(prefix + k) == prefix + Parent(k);
    }
  }
}
