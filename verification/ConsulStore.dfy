/** The Consul key-value store as the client sees it: transactions that run in order on the
    evolving store and abort as a whole at the first operation that does not pass. */
module ConsulStore {
  import opened Errors
  import opened Keys
  import opened Encoding
  import opened Tree

  datatype Item = Item(value: string, modifyIndex: int, session: string)

  type Store = map<string, Item>

  datatype KvOp =
    | KvGet(name: string)
    | KvCheckIndex(name: string, index: int)
    | KvCheckNotExists(name: string)
    | KvSet(name: string, value: string)
    | KvLock(name: string, value: string, session: string)
    | KvCompareSet(name: string, index: int, value: string)
    | KvErase(name: string)
    | KvEraseAll(name: string)
    | KvCompareErase(name: string, index: int)

  predicate Passes(op: KvOp, s: Store) {
    match op
    case KvGet(n) => n in s
    case KvCheckIndex(n, i) => n in s && s[n].modifyIndex == i
    case KvCheckNotExists(n) => n !in s
    case KvLock(n, _, session) => n in s ==> s[n].session == "" || s[n].session == session
    case KvCompareSet(n, i, _) => if n in s then s[n].modifyIndex == i else i == 0
    case KvCompareErase(n, i) => n in s && s[n].modifyIndex == i
    case _ => true
  }

  /** The store after one operation of the transaction that is the `index`-th write. */
  function Effect(op: KvOp, s: Store, index: int): Store {
    match op
    case KvSet(n, v) => s[n := Item(v, index, if n in s then s[n].session else "")]
    case KvCompareSet(n, _, v) => s[n := Item(v, index, if n in s then s[n].session else "")]
    case KvLock(n, v, session) => s[n := Item(v, index, session)]
    case KvErase(n) => s - {n}
    case KvCompareErase(n, _) => s - {n}
    case KvEraseAll(n) => map m | m in s && !(n <= m) :: s[m]
    case _ => s
  }

  /** The results one operation adds: CheckNotExists and the erasures add none. */
  function Yields(op: KvOp, s: Store, index: int): seq<Item>
    requires Passes(op, s)
  {
    match op
    case KvGet(n) => [s[n]]
    case KvCheckIndex(n, _) => [s[n]]
    case KvSet(n, _) => [Effect(op, s, index)[n]]
    case KvCompareSet(n, _, _) => [Effect(op, s, index)[n]]
    case KvLock(n, _, _) => [Effect(op, s, index)[n]]
    case _ => []
  }

  datatype Ran = Done(store: Store, results: seq<Item>) | Aborted(index: nat)

  function Run(ops: seq<KvOp>, s: Store, index: int): (r: Ran)
    ensures r.Aborted? ==> r.index < |ops|
  {
    if ops == [] then Done(s, [])
    else
      var last := ops[|ops| - 1];
      match Run(ops[..|ops| - 1], s, index)
      case Aborted(i) => Aborted(i)
      case Done(u, results) =>
        if Passes(last, u) then Done(Effect(last, u, index), results + Yields(last, u, index))
        else Aborted(|ops| - 1)
  }

  lemma RunSnoc(ops: seq<KvOp>, last: KvOp, s: Store, index: int)
    ensures Run(ops + [last], s, index) ==
      match Run(ops, s, index)
      case Aborted(i) => Aborted(i)
      case Done(u, results) =>
        if Passes(last, u) then Done(Effect(last, u, index), results + Yields(last, u, index))
        else Aborted(|ops|)
  {
    assert (ops + [last])[..|ops|] == ops;
  }

  lemma RunNone(a: seq<KvOp>, s: Store, index: int)
    ensures forall u :: Run([], u, index) == Done(u, [])
    ensures var r := Run(a, s, index); r.Done? ==> r.results + [] == r.results
  {
  }

  lemma {:induction false} RunConcat(a: seq<KvOp>, b: seq<KvOp>, s: Store, index: int)
    ensures Run(a + b, s, index) ==
      match Run(a, s, index)
      case Aborted(i) => Aborted(i)
      case Done(u, results) =>
        match Run(b, u, index)
        case Aborted(i) => Aborted(|a| + i)
        case Done(w, more) => Done(w, results + more)
  {
    hide Passes, Effect, Yields, Run;
    if b == [] {
      assert a + b == a;
      RunNone(a, s, index);
    } else {
      var init, last := b[..|b| - 1], b[|b| - 1];
      RunConcat(a, init, s, index);
      assert a + b == (a + init) + [last];
      assert b == init + [last];
      RunSnoc(a + init, last, s, index);
      match Run(a, s, index) {
        case Aborted(_) =>
        case Done(u, results) =>
          RunSnoc(init, last, u, index);
          match Run(init, u, index) {
            case Aborted(_) =>
            case Done(w, more) =>
              assert Passes(last, w) ==>
                results + more + Yields(last, w, index) == results + (more + Yields(last, w, index));
          }
      }
    }
  }

  // ---------- what a transaction leaves alone ----------

  /** The operation writes or removes the name. */
  predicate Touches(op: KvOp, name: string) {
    match op
    case KvSet(n, _) => n == name
    case KvLock(n, _, _) => n == name
    case KvCompareSet(n, _, _) => n == name
    case KvErase(n) => n == name
    case KvCompareErase(n, _) => n == name
    case KvEraseAll(n) => n <= name
    case _ => false
  }

  ghost predicate Untouched(ops: seq<KvOp>, name: string) {
    forall i :: 0 <= i < |ops| ==> !Touches(ops[i], name)
  }

  predicate SameAt(s: Store, u: Store, name: string) {
    (name in s <==> name in u) && (name in s ==> u[name] == s[name])
  }

  lemma {:induction false} RunFrame(ops: seq<KvOp>, s: Store, index: int, name: string)
    requires Untouched(ops, name) && Run(ops, s, index).Done?
    ensures SameAt(s, Run(ops, s, index).store, name)
  {
    if ops != [] {
      RunFrame(ops[..|ops| - 1], s, index, name);
      assert !Touches(ops[|ops| - 1], name);
    }
  }

  /** The service, with the number of its last write. */
  class Kv {
    var store: Store
    var index: nat

    method Commit(ops: seq<KvOp>) returns (r: Ran)
      modifies this
      ensures r == Run(ops, old(store), old(index) + 1)
      ensures r.Done? ==> store == r.store && index == old(index) + 1
      ensures r.Aborted? ==> store == old(store) && index == old(index)
    {
      r := Run(ops, store, index + 1);
      if r.Done? {
        store, index := r.store, index + 1;
      }
    }
  }

  // ---------- the tree a client sees in the store ----------

  function ToNode(item: Item): Node {
    Node(item.value, item.modifyIndex, item.session != "")
  }

  ghost predicate Names(prefix: Path, name: string, k: Key) {
    ConsulName(prefix, k) == name
  }

  /** The keys below the client's prefix; whatever else the store holds is invisible. */
  ghost function View(prefix: Path, s: Store): Tree {
    ViewKeys(prefix, s);
    map k: Key | k in Visible(prefix, s) :: ToNode(s[ConsulName(prefix, k)])
  }

  ghost function Visible(prefix: Path, s: Store): set<Key> {
    set n | n in s && (exists k: Key :: Names(prefix, n, k)) :: (var k: Key :| Names(prefix, n, k); k)
  }

  lemma ViewKeys(prefix: Path, s: Store)
    ensures forall k: Key :: k in Visible(prefix, s) <==> ConsulName(prefix, k) in s
  {
    hide ConsulName;
    forall k: Key
      ensures k in Visible(prefix, s) <==> ConsulName(prefix, k) in s
    {
      assert Names(prefix, ConsulName(prefix, k), k);
      forall j: Key | Names(prefix, ConsulName(prefix, k), j)
        ensures j == k
      {
        ConsulInjective(prefix, j, k);
      }
    }
  }

  /** A key is seen exactly when its name is stored, with what is stored under it. */
  lemma ViewIs(prefix: Path, s: Store)
    ensures forall k: Key :: k in View(prefix, s) <==> ConsulName(prefix, k) in s
    ensures forall k: Key :: k in View(prefix, s) ==> View(prefix, s)[k] == ToNode(s[ConsulName(prefix, k)])
  {
    hide ConsulName, Visible;
    ViewKeys(prefix, s);
  }

  lemma ViewPut(prefix: Path, s: Store, k: Key, item: Item)
    ensures View(prefix, s[ConsulName(prefix, k) := item]) == View(prefix, s)[k := ToNode(item)]
  {
    hide ConsulName, ToNode, View;
    ViewIs(prefix, s);
    ViewIs(prefix, s[ConsulName(prefix, k) := item]);
    forall j: Key | ConsulName(prefix, j) == ConsulName(prefix, k)
      ensures j == k
    {
      ConsulInjective(prefix, j, k);
    }
  }

  /** A name lies at or below another exactly when the key does. */
  lemma NameBelow(prefix: Path, k: Key)
    ensures forall j: Key ::
      (var n := ConsulName(prefix, j);
       n == ConsulName(prefix, k) || ConsulName(prefix, k) + "/" <= n <==> k <= j)
  {
    hide ConsulName;
    forall j: Key
      ensures (var n := ConsulName(prefix, j);
        n == ConsulName(prefix, k) || ConsulName(prefix, k) + "/" <= n <==> k <= j)
    {
      ConsulSubtree(prefix, k, j);
      if ConsulName(prefix, j) == ConsulName(prefix, k) {
        ConsulInjective(prefix, j, k);
      }
      assert k <= j <==> k == j || k < j;
    }
  }

  /** Erasing a name and every name below it prunes the tree at the key. */
  lemma ViewErase(prefix: Path, s: Store, k: Key, index: int)
    ensures var n := ConsulName(prefix, k);
      View(prefix, Effect(KvEraseAll(n + "/"), s - {n}, index)) == Prune(View(prefix, s), k)
  {
    hide ConsulName, ToNode, View;
    var n := ConsulName(prefix, k);
    NameBelow(prefix, k);
    var rest := Effect(KvEraseAll(n + "/"), s - {n}, index);
    ViewIs(prefix, s);
    ViewIs(prefix, rest);
    assert forall m :: m in rest <==> m in s && !(m == n || n + "/" <= m);
    assert forall m :: m in rest ==> rest[m] == s[m];
  }
}
