/** Erasing a subtree in ZooKeeper: scan it read by read, list what was seen children first,
    and erase the list in one multi-operation. */
module ZkErase {
  import opened Errors
  import opened Keys
  import opened Tree
  import opened ZkStore

  /** What the successive reads of one scan returned. Nothing ties them to one store: other
      clients may write between any two reads, so every such record is possible. */
  datatype Scan = NoNode | Listed(kids: seq<Kid>)

  datatype Kid = Kid(name: string, scan: Scan)

  /** The paths erased after a scan of `path`. `always` keeps a node that was not found. */
  function Query(path: ZPath, always: bool, scan: Scan): seq<ZPath>
    decreases scan, if scan.Listed? then |scan.kids| + 1 else 0
  {
    match scan
    case NoNode => if always then [path] else []
    case Listed(kids) => QueryKids(path, scan, |kids|) + [path]
  }

  /** The same for the first `n` children. */
  function QueryKids(path: ZPath, scan: Scan, n: nat): seq<ZPath>
    requires scan.Listed? && n <= |scan.kids|
    decreases scan, n
  {
    if n == 0 then []
    else
      var kid := scan.kids[n - 1];
      QueryKids(path, scan, n - 1) + Query(path + [kid.name], false, kid.scan)
  }

  /** The paths listed below `path`; the target of an erase comes after them. */
  function QueryBelow(path: ZPath, scan: Scan): seq<ZPath> {
    if scan.Listed? then QueryKids(path, scan, |scan.kids|) else []
  }

  function Erases(paths: seq<ZPath>): (ops: seq<ZOp>)
    ensures |ops| == |paths|
  {
    seq(|paths|, i requires 0 <= i < |paths| => ZErase(paths[i]))
  }

  lemma ErasesConcat(a: seq<ZPath>, b: seq<ZPath>)
    ensures Erases(a + b) == Erases(a) + Erases(b)
  {
  }

  datatype NoEntryBehavior = IgnoreNoEntry | ThrowNoEntry | FailTxnOnNoEntry

  /** `make_recursive_erase_query_`: appends to `query`; `scan` is what its reads return. */
  method MakeRecursiveEraseQuery(query: seq<ZOp>, path: ZPath, behavior: NoEntryBehavior, scan: Scan)
      returns (r: Result<seq<ZOp>>)
    ensures r == if scan.NoNode? && behavior.ThrowNoEntry? then Err(NoEntry)
                 else Ok(query + Erases(Query(path, behavior.FailTxnOnNoEntry?, scan)))
    decreases scan
  {
    var entryValid := scan.Listed?;
    if !entryValid && behavior.ThrowNoEntry? {
      return Err(NoEntry);
    }
    var q := query;
    if entryValid {
      for i := 0 to |scan.kids|
        invariant q == query + Erases(QueryKids(path, scan, i))
      {
        var kid := scan.kids[i];
        var sub := MakeRecursiveEraseQuery(q, path + [kid.name], IgnoreNoEntry, kid.scan);
        ErasesConcat(QueryKids(path, scan, i), Query(path + [kid.name], false, kid.scan));
        q := sub.value;
      }
    }
    if entryValid || behavior.FailTxnOnNoEntry? {
      ghost var sofar := if entryValid then QueryKids(path, scan, |scan.kids|) else [];
      ErasesConcat(sofar, [path]);
      assert [] + [path] == [path];
      assert Erases([path]) == [ZErase(path)] && Erases([]) == [];
      q := q + [ZErase(path)];
      assert q == query + Erases(sofar + [path]);
    } else {
      assert q == query + Erases([]);
    }
    r := Ok(q);
  }

  // ---------- shape of the list ----------

  predicate AllUnder(paths: seq<ZPath>, root: ZPath) {
    forall i :: 0 <= i < |paths| ==> root <= paths[i]
  }

  lemma {:induction false} QueryUnder(path: ZPath, always: bool, scan: Scan)
    ensures AllUnder(Query(path, always, scan), path)
    ensures var q := Query(path, always, scan); q != [] ==> q[|q| - 1] == path
    ensures Query(path, true, scan) != []
    decreases scan, if scan.Listed? then |scan.kids| + 1 else 0
  {
    if scan.Listed? {
      QueryKidsBelow(path, scan, |scan.kids|);
    }
  }

  lemma {:induction false} QueryKidsBelow(path: ZPath, scan: Scan, n: nat)
    requires scan.Listed? && n <= |scan.kids|
    ensures forall i :: 0 <= i < |QueryKids(path, scan, n)| ==> path < QueryKids(path, scan, n)[i]
    decreases scan, n
  {
    if n > 0 {
      var kid := scan.kids[n - 1];
      QueryKidsBelow(path, scan, n - 1);
      QueryUnder(path + [kid.name], false, kid.scan);
      assert path < path + [kid.name];
    }
  }

  /** Only the last path of the list is the root itself. */
  lemma QueryRootLast(path: ZPath, scan: Scan)
    ensures var q := Query(path, true, scan);
      forall i :: 0 <= i < |q| - 1 ==> path < q[i]
  {
    if scan.Listed? {
      QueryKidsBelow(path, scan, |scan.kids|);
    }
  }

  // ---------- any scan, any store: a list that goes through erases the subtree ----------

  function Members(paths: seq<ZPath>): set<ZPath> {
    set i | 0 <= i < |paths| :: paths[i]
  }

  predicate Distinct(paths: seq<ZPath>) {
    forall i, j :: 0 <= i < j < |paths| ==> paths[i] != paths[j]
  }

  lemma MembersSnoc(paths: seq<ZPath>)
    requires paths != []
    ensures Members(paths) == Members(paths[..|paths| - 1]) + {paths[|paths| - 1]}
  {
    var init, last := paths[..|paths| - 1], paths[|paths| - 1];
    forall p | p in Members(paths)
      ensures p in Members(init) + {last}
    {
      var i :| 0 <= i < |paths| && paths[i] == p;
      assert i < |init| ==> init[i] == p;
    }
    forall p | p in Members(init)
      ensures p in Members(paths)
    {
      var i :| 0 <= i < |init| && init[i] == p;
      assert paths[i] == p;
    }
  }

  /** A list that goes through erased exactly its members, each of them once. */
  lemma {:induction false} ErasedExactly(paths: seq<ZPath>, z: ZStore)
    requires ZRun(Erases(paths), z).ZDone?
    ensures ZRun(Erases(paths), z).store == z - Members(paths)
    ensures Members(paths) <= z.Keys && Distinct(paths)
  {
    if paths != [] {
      var init, last := paths[..|paths| - 1], paths[|paths| - 1];
      assert Erases(paths)[..|paths| - 1] == Erases(init);
      ErasedExactly(init, z);
      MembersSnoc(paths);
      forall i | 0 <= i < |init|
        ensures paths[i] != last
      {
        assert init[i] in Members(init);
      }
      assert forall i, j :: 0 <= i < j < |init| ==> init[i] != init[j];
      assert forall i :: 0 <= i < |init| ==> init[i] == paths[i];
    }
  }

  /** Whatever was scanned, if the whole list goes through then the root was present and
      exactly the subtree present at that moment is gone. */
  lemma EraseGroup(root: ZPath, scan: Scan, z: ZStore)
    requires ZClosed(z) && root != []
    requires ZRun(Erases(Query(root, true, scan)), z).ZDone?
    ensures root in z
    ensures ZRun(Erases(Query(root, true, scan)), z).store == z - Under(z, root)
    ensures Members(Query(root, true, scan)) == Under(z, root)
  {
    var paths := Query(root, true, scan);
    var u := ZRun(Erases(paths), z).store;
    ErasedExactly(paths, z);
    QueryUnder(root, true, scan);
    ZRunKeepsClosed(Erases(paths), z);
    hide ZRun, Query, ZClosed;
    assert paths[|paths| - 1] in Members(paths);
    forall p | p in Under(z, root)
      ensures p in Members(paths)
    {
      if p in u {
        ZAncestors(u, root, p);
        assert false;
      }
    }
  }

  // ---------- a quiet store: the scan sees the subtree as it is ----------

  /** Every read of the scan returned what `z` holds. */
  ghost predicate Mirrors(z: ZStore, path: ZPath, scan: Scan)
    decreases scan
  {
    match scan
    case NoNode => path !in z
    case Listed(kids) =>
      && path in z
      && (forall i, j :: 0 <= i < j < |kids| ==> kids[i].name != kids[j].name)
      && (forall q :: q in z && q != [] && Parent(q) == path ==>
        exists i :: 0 <= i < |kids| && q == path + [kids[i].name])
      && (forall i :: 0 <= i < |kids| ==> path + [kids[i].name] in z && Mirrors(z, path + [kids[i].name], kids[i].scan))
  }

  /** The children of `path` in `all`, each once, with a scan of each of their subtrees. */
  ghost predicate KidsAre(z: ZStore, path: ZPath, kids: seq<Kid>, all: set<ZPath>) {
    && (forall i, j :: 0 <= i < j < |kids| ==> kids[i].name != kids[j].name)
    && (forall q :: q in all ==> exists i :: 0 <= i < |kids| && q == path + [kids[i].name])
    && (forall i :: 0 <= i < |kids| ==> path + [kids[i].name] in all && Mirrors(z, path + [kids[i].name], kids[i].scan))
  }

  /** Such a scan exists for every store. */
  lemma {:induction false} ScanExists(z: ZStore, path: ZPath) returns (scan: Scan)
    ensures Mirrors(z, path, scan)
    decreases |Under(z, path)|
  {
    if path !in z {
      return NoNode;
    }
    var all := set q | q in z && q != [] && Parent(q) == path;
    var done: set<ZPath> := {};
    var kids: seq<Kid> := [];
    while done != all
      invariant done <= all
      invariant KidsAre(z, path, kids, done)
      decreases all - done
    {
      hide *;
      var q :| q in all && q !in done;
      assert q[..|q| - 1] == path;
      assert q == path + [q[|path|]];
      SmallerSubtree(z, path, q);
      var sub := ScanExists(z, q);
      ListOneMore(z, path, kids, done, Kid(q[|path|], sub));
      kids, done := kids + [Kid(q[|path|], sub)], done + {q};
    }
    scan := Listed(kids);
    assert forall q :: q in z && q != [] && Parent(q) == path ==> q in all;
  }

  lemma ListOneMore(z: ZStore, path: ZPath, kids: seq<Kid>, all: set<ZPath>, kid: Kid)
    requires KidsAre(z, path, kids, all)
    requires path + [kid.name] !in all && Mirrors(z, path + [kid.name], kid.scan)
    ensures KidsAre(z, path, kids + [kid], all + {path + [kid.name]})
  {
    hide Mirrors;
    var more := kids + [kid];
    assert more[|kids|] == kid;
    assert forall i :: 0 <= i < |kids| ==> more[i] == kids[i];
    forall q | q in all + {path + [kid.name]}
      ensures exists i :: 0 <= i < |more| && q == path + [more[i].name]
    {
      if q in all {
        var i :| 0 <= i < |kids| && q == path + [kids[i].name];
        assert q == path + [more[i].name];
      } else {
        assert q == path + [more[|kids|].name];
      }
    }
  }

  lemma SmallerSubtree(z: ZStore, path: ZPath, q: ZPath)
    requires path in z && path < q
    ensures |Under(z, q)| < |Under(z, path)|
  {
    assert Under(z, q) <= Under(z, path) - {path};
    SubsetSize(Under(z, q), Under(z, path) - {path});
  }

  lemma {:induction false} SubsetSize(a: set<ZPath>, b: set<ZPath>)
    requires a <= b
    ensures |a| <= |b|
    decreases a
  {
    if a != {} {
      var p :| p in a;
      SubsetSize(a - {p}, b - {p});
    }
  }

  /** No path comes before one of its descendants. */
  predicate ChildrenFirst(paths: seq<ZPath>) {
    forall i, j :: 0 <= i < j < |paths| ==> !(paths[i] < paths[j])
  }

  predicate PostOrder(paths: seq<ZPath>) {
    Distinct(paths) && ChildrenFirst(paths)
  }

  lemma PostOrderConcat(a: seq<ZPath>, b: seq<ZPath>)
    requires PostOrder(a) && PostOrder(b)
    requires forall i, j :: 0 <= i < |a| && 0 <= j < |b| ==> a[i] != b[j] && !(a[i] < b[j])
    ensures PostOrder(a + b)
    ensures Members(a + b) == Members(a) + Members(b)
  {
    var c := a + b;
    assert forall i :: 0 <= i < |b| ==> c[|a| + i] == b[i];
    assert forall i :: |a| <= i < |c| ==> c[i] == b[i - |a|];
    forall p | p in Members(a) + Members(b)
      ensures p in Members(c)
    {
      if p in Members(a) {
        var i :| 0 <= i < |a| && a[i] == p;
        assert c[i] == p;
      } else {
        var i :| 0 <= i < |b| && b[i] == p;
        assert c[|a| + i] == p;
      }
    }
  }

  /** On a quiet store the list is a duplicate-free post-order listing of the subtree. */
  lemma {:induction false} QueryLists(z: ZStore, path: ZPath, scan: Scan)
    requires ZClosed(z) && Mirrors(z, path, scan)
    ensures PostOrder(Query(path, false, scan))
    ensures Members(Query(path, false, scan)) == Under(z, path)
    decreases scan, if scan.Listed? then |scan.kids| + 1 else 0
  {
    match scan {
      case NoNode =>
        forall p | p in Under(z, path)
          ensures false
        {
          ZAncestors(z, path, p);
        }
        assert Under(z, path) == {} == Members([]);
      case Listed(kids) =>
        var below := QueryKids(path, scan, |kids|);
        QueryKidsList(z, path, scan, |kids|);
        QueryKidsBelow(path, scan, |kids|);
        PostOrderConcat(below, [path]);
        assert [path][0] in Members([path]) && Members([path]) == {path};
        SubtreeByKids(z, path, kids);
    }
  }

  /** The nodes below the first `n` children. */
  ghost function UnderKids(z: ZStore, path: ZPath, kids: seq<Kid>, n: nat): set<ZPath>
    requires n <= |kids|
  {
    set p, i | 0 <= i < n && p in Under(z, path + [kids[i].name]) :: p
  }

  lemma UnderKidsSnoc(z: ZStore, path: ZPath, kids: seq<Kid>, n: nat)
    requires 0 < n <= |kids|
    ensures UnderKids(z, path, kids, n) == UnderKids(z, path, kids, n - 1) + Under(z, path + [kids[n - 1].name])
  {
    hide Under;
  }

  lemma SubtreeByKids(z: ZStore, path: ZPath, kids: seq<Kid>)
    requires ZClosed(z) && Mirrors(z, path, Listed(kids))
    ensures Under(z, path) == UnderKids(z, path, kids, |kids|) + {path}
  {
    forall p | p in Under(z, path) && p != path
      ensures p in UnderKids(z, path, kids, |kids|)
    {
      var q := p[..|path| + 1];
      ZAncestors(z, q, p);
      assert Parent(q) == path;
      var i :| 0 <= i < |kids| && q == path + [kids[i].name];
      assert p in Under(z, path + [kids[i].name]);
    }
    forall p | p in UnderKids(z, path, kids, |kids|)
      ensures p in Under(z, path)
    {
      var i :| 0 <= i < |kids| && p in Under(z, path + [kids[i].name]);
      assert path <= path + [kids[i].name];
    }
  }

  lemma {:induction false} QueryKidsList(z: ZStore, path: ZPath, scan: Scan, n: nat)
    requires ZClosed(z) && scan.Listed? && n <= |scan.kids| && Mirrors(z, path, scan)
    ensures PostOrder(QueryKids(path, scan, n))
    ensures Members(QueryKids(path, scan, n)) == UnderKids(z, path, scan.kids, n)
    decreases scan, n
  {
    hide *;
    if n == 0 {
      NoKids(z, path, scan);
    } else {
      var kid := scan.kids[n - 1];
      var now, more := QueryKids(path, scan, n - 1), Query(path + [kid.name], false, kid.scan);
      QueryKidsList(z, path, scan, n - 1);
      KidMirrors(z, path, scan, n - 1);
      QueryLists(z, path + [kid.name], kid.scan);
      KidsApart(z, path, scan, n - 1, now, more);
      PostOrderConcat(now, more);
      UnderKidsSnoc(z, path, scan.kids, n);
      QueryKidsSnoc(path, scan, n);
    }
  }

  lemma NoKids(z: ZStore, path: ZPath, scan: Scan)
    requires scan.Listed?
    ensures PostOrder(QueryKids(path, scan, 0))
    ensures Members(QueryKids(path, scan, 0)) == UnderKids(z, path, scan.kids, 0) == {}
  {
  }

  lemma KidMirrors(z: ZStore, path: ZPath, scan: Scan, n: nat)
    requires scan.Listed? && n < |scan.kids| && Mirrors(z, path, scan)
    ensures Mirrors(z, path + [scan.kids[n].name], scan.kids[n].scan)
  {
  }

  lemma QueryKidsSnoc(path: ZPath, scan: Scan, n: nat)
    requires scan.Listed? && 0 < n <= |scan.kids|
    ensures var kid := scan.kids[n - 1];
      QueryKids(path, scan, n) == QueryKids(path, scan, n - 1) + Query(path + [kid.name], false, kid.scan)
  {
  }

  lemma KidsApart(z: ZStore, path: ZPath, scan: Scan, n: nat, now: seq<ZPath>, more: seq<ZPath>)
    requires scan.Listed? && n < |scan.kids| && Mirrors(z, path, scan)
    requires Members(now) == UnderKids(z, path, scan.kids, n)
    requires Members(more) == Under(z, path + [scan.kids[n].name])
    ensures forall i, j :: 0 <= i < |now| && 0 <= j < |more| ==> now[i] != more[j] && !(now[i] < more[j])
  {
    forall i, j | 0 <= i < |now| && 0 <= j < |more|
      ensures now[i] != more[j] && !(now[i] < more[j])
    {
      assert now[i] in Members(now) && more[j] in Members(more);
      hide Mirrors;
      var m :| 0 <= m < n && now[i] in Under(z, path + [scan.kids[m].name]);
      assert now[i][|path|] == (path + [scan.kids[m].name])[|path|];
      assert more[j][|path|] == (path + [scan.kids[n].name])[|path|];
      KidsDiffer(z, path, scan, m, n);
    }
  }

  lemma KidsDiffer(z: ZStore, path: ZPath, scan: Scan, i: nat, j: nat)
    requires scan.Listed? && i < j < |scan.kids| && Mirrors(z, path, scan)
    ensures scan.kids[i].name != scan.kids[j].name
  {
  }

  // ---------- when a post-order list goes through ----------

  /** Every one of the first `n` paths is there, and its children are on the list. */
  ghost predicate Coverable(paths: seq<ZPath>, n: nat, z: ZStore)
    requires n <= |paths|
  {
    forall i :: 0 <= i < n ==>
      && paths[i] in z && paths[i] != []
      && (forall q :: q in z && q != [] && Parent(q) == paths[i] ==> q in Members(paths))
  }

  /** A post-order list that covers the children of its members goes through: every node is
      there and childless when its turn comes. */
  lemma {:induction false} PostOrderErases(paths: seq<ZPath>, n: nat, z: ZStore)
    requires n <= |paths| && PostOrder(paths) && Coverable(paths, n, z)
    ensures ZRun(Erases(paths[..n]), z).ZDone?
  {
    hide ZRun, ZPasses, ZEffect, ZYield, Erases, Coverable, PostOrder, Members, Distinct;
    if n == 0 {
      assert paths[..0] == [] && Erases([]) == [];
      ZRunEmpty(z);
    } else {
      var now, p := paths[..n - 1], paths[n - 1];
      CoverableLess(paths, n, z);
      PostOrderErases(paths, n - 1, z);
      ErasesSnoc(paths, n);
      ZRunSnoc(Erases(now), ZErase(p), z);
      ErasedExactly(now, z);
      ChildrenBefore(paths, n - 1, z);
    }
  }

  lemma ZRunEmpty(z: ZStore)
    ensures ZRun([], z).ZDone?
  {
  }

  lemma CoverableLess(paths: seq<ZPath>, n: nat, z: ZStore)
    requires 0 < n <= |paths| && Coverable(paths, n, z)
    ensures Coverable(paths, n - 1, z)
  {
  }

  lemma ErasesSnoc(paths: seq<ZPath>, n: nat)
    requires 0 < n <= |paths|
    ensures Erases(paths[..n]) == Erases(paths[..n - 1]) + [ZErase(paths[n - 1])]
  {
    assert paths[..n] == paths[..n - 1] + [paths[n - 1]];
  }

  lemma ChildrenBefore(paths: seq<ZPath>, n: nat, z: ZStore)
    requires n < |paths| && PostOrder(paths) && Coverable(paths, n + 1, z)
    ensures ZPasses(ZErase(paths[n]), z - Members(paths[..n]))
  {
    var now, p := paths[..n], paths[n];
    forall i | 0 <= i < n
      ensures now[i] != p
    {
      assert now[i] == paths[i];
    }
    forall q | q in z && q != [] && Parent(q) == p
      ensures q in Members(now)
    {
      var j :| 0 <= j < |paths| && paths[j] == q;
      assert p < q;
      assert j != n && !(n < j);
      assert now[j] == q;
    }
  }

  lemma SubtreeCoverable(paths: seq<ZPath>, root: ZPath, z: ZStore)
    requires root != [] && Members(paths) == Under(z, root)
    ensures Coverable(paths, |paths|, z)
  {
    forall i | 0 <= i < |paths|
      ensures paths[i] in Under(z, root)
    {
      assert paths[i] in Members(paths);
    }
    forall i, q | 0 <= i < |paths| && q in z && q != [] && Parent(q) == paths[i]
      ensures q in Members(paths)
    {
      assert root <= paths[i] < q;
    }
  }

  /** The list of a scan goes through on a later store exactly when it lists the subtree there. */
  lemma EraseGoesThrough(root: ZPath, scan: Scan, seen: ZStore, z: ZStore)
    requires ZClosed(seen) && ZClosed(z) && root != []
    requires Mirrors(seen, root, scan)
    ensures ZRun(Erases(Query(root, true, scan)), z).ZDone? <==>
      Members(Query(root, true, scan)) == Under(z, root)
  {
    var paths := Query(root, true, scan);
    QueryLists(seen, root, scan);
    assert PostOrder(paths);
    hide Query, Mirrors;
    if ZRun(Erases(paths), z).ZDone? {
      EraseGroup(root, scan, z);
    }
    if Members(paths) == Under(z, root) {
      SubtreeCoverable(paths, root, z);
      PostOrderErases(paths, |paths|, z);
      assert paths[..|paths|] == paths;
    }
  }

  // ---------- when a list stops at its target ----------

  /** Everything below the target that was listed can be erased, but the target itself cannot:
      it is missing, or it has a child that was not listed. */
  ghost predicate StopsAtTarget(target: ZPath, scan: Scan, z: ZStore) {
    && ZRun(Erases(QueryBelow(target, scan)), z).ZDone?
    && (target !in z || UnlistedChild(target, scan, z))
  }

  ghost predicate UnlistedChild(target: ZPath, scan: Scan, z: ZStore) {
    exists c :: c in z && c != [] && Parent(c) == target && c !in Members(QueryBelow(target, scan))
  }

  lemma StopsAtTargetExactly(target: ZPath, scan: Scan, z: ZStore)
    requires target != []
    ensures var plan := Erases(Query(target, true, scan));
      ZRun(plan, z) == ZAborted(|plan| - 1) <==> StopsAtTarget(target, scan, z)
  {
    var below := QueryBelow(target, scan);
    var r := ZRun(Erases(below), z);
    assert Query(target, true, scan) == below + [target];
    BelowTarget(target, scan);
    ErasesConcat(below, [target]);
    assert Erases([target]) == [ZErase(target)];
    ZRunSnoc(Erases(below), ZErase(target), z);
    if r.ZDone? {
      ErasedExactly(below, z);
      hide ZRun, Query, QueryBelow, Erases;
      var u := z - Members(below);
      assert target in u <==> target in z;
      assert Childless(u, target) <==> !UnlistedChild(target, scan, z) by {
        if c :| c in z && c != [] && Parent(c) == target && c !in Members(below) {
          assert c in u;
        }
      }
    }
  }

  lemma ListStopsBelow(target: ZPath, scan: Scan, z: ZStore)
    ensures var plan := Erases(Query(target, true, scan));
      var r := ZRun(plan, z);
      r.ZAborted? && r.index != |plan| - 1 <==> !ZRun(Erases(QueryBelow(target, scan)), z).ZDone?
  {
    var below := QueryBelow(target, scan);
    assert Query(target, true, scan) == below + [target];
    hide ZRun, Query, QueryBelow;
    ErasesConcat(below, [target]);
    assert Erases([target]) == [ZErase(target)];
    hide Erases;
    ZRunSnoc(Erases(below), ZErase(target), z);
  }

  lemma BelowTarget(target: ZPath, scan: Scan)
    ensures target !in Members(QueryBelow(target, scan))
  {
    if scan.Listed? {
      QueryKidsBelow(target, scan, |scan.kids|);
    }
  }

  // ---------- the same after a quiet scan, in terms of nodes ----------

  /** Nothing that lay below `root` has gone, and nothing there has got a new child. */
  ghost predicate ListStands(root: ZPath, nodes: set<ZPath>, after: set<ZPath>) {
    && (forall q :: q in nodes && root < q ==> q in after)
    && (forall q :: q in after && q !in nodes && q != [] && root < Parent(q) ==> Parent(q) !in nodes)
  }

  ghost predicate NewChild(root: ZPath, nodes: set<ZPath>, after: set<ZPath>) {
    exists c :: c in after && c !in nodes && c != [] && Parent(c) == root
  }

  lemma BelowMembers(root: ZPath, scan: Scan, z: ZStore)
    requires ZClosed(z) && Mirrors(z, root, scan)
    ensures forall q :: q in Members(QueryBelow(root, scan)) <==> root < q && q in z
    ensures PostOrder(QueryBelow(root, scan))
  {
    var all, below := Query(root, false, scan), QueryBelow(root, scan);
    QueryLists(z, root, scan);
    BelowTarget(root, scan);
    if scan.Listed? {
      assert all == below + [root];
      QueryKidsList(z, root, scan, |scan.kids|);
      MembersSnoc(all);
      assert all[..|all| - 1] == below;
    }
    hide Query, QueryBelow, Mirrors, ZClosed, Members, PostOrder;
    assert forall q :: q in z ==> (root <= q <==> q == root || root < q);
  }

  /** What was listed below the target can be erased on a later store exactly if the list stands. */
  lemma QuietBelow(root: ZPath, scan: Scan, z: ZStore, u: ZStore)
    requires ZClosed(z) && ZClosed(u) && Mirrors(z, root, scan)
    ensures ZRun(Erases(QueryBelow(root, scan)), u).ZDone? <==> ListStands(root, z.Keys, u.Keys)
  {
    var below := QueryBelow(root, scan);
    BelowMembers(root, scan, z);
    hide QueryBelow, Mirrors;
    if ListStands(root, z.Keys, u.Keys) {
      StandsCoverable(root, below, z, u);
      PostOrderErases(below, |below|, u);
      assert below[..|below|] == below;
    }
    if ZRun(Erases(below), u).ZDone? {
      ErasedExactly(below, u);
      ZRunKeepsClosed(Erases(below), u);
      hide ZRun, Erases, PostOrder;
      LeavesClosed(root, below, z, u);
    }
  }

  lemma StandsCoverable(root: ZPath, below: seq<ZPath>, z: ZStore, u: ZStore)
    requires forall q :: q in Members(below) <==> root < q && q in z
    requires ListStands(root, z.Keys, u.Keys)
    ensures Coverable(below, |below|, u)
  {
    forall i | 0 <= i < |below|
      ensures below[i] in u && below[i] != []
      ensures forall q :: q in u && q != [] && Parent(q) == below[i] ==> q in Members(below)
    {
      assert below[i] in Members(below);
      forall q | q in u && q != [] && Parent(q) == below[i]
        ensures q in Members(below)
      {
        assert root < Parent(q) < q;
      }
    }
  }

  lemma LeavesClosed(root: ZPath, below: seq<ZPath>, z: ZStore, u: ZStore)
    requires forall q :: q in Members(below) <==> root < q && q in z
    requires Members(below) <= u.Keys && ZClosed(u - Members(below))
    ensures ListStands(root, z.Keys, u.Keys)
  {
    var w := u - Members(below);
    forall q | q in u && q !in z && q != [] && root < Parent(q)
      ensures Parent(q) !in z
    {
      assert q in w;
      assert Parent(q) in w;
    }
  }
}
