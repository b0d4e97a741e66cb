/** The etcd key-value service as the client sees it: a transaction evaluates all its compares
    on the store it meets and then runs one of two branches in order. */
module EtcdStore {
  import opened Errors
  import opened Keys
  import opened Encoding
  import opened Tree

  /** A stored entry; `create` is the revision that created it, and lease 0 means none. */
  datatype Kv = Kv(value: string, version: int, create: int, lease: int)

  type Store = map<string, Kv>

  datatype Target = CREATE_REVISION | VERSION | LEASE

  datatype Relation = EQUAL | GREATER

  datatype Compare = Compare(key: string, target: Target, result: Relation, operand: int)

  datatype Interval = One(key: string) | Span(lo: string, hi: string)

  datatype Request =
    | Put(key: string, value: string, lease: int, ignoreLease: bool)
    | Range(key: string)
    | DeleteRange(interval: Interval)

  datatype Txn = Txn(compare: seq<Compare>, success: seq<Request>, failure: seq<Request>)

  /** Everything a missing key is compared by is 0. */
  function Field(s: Store, key: string, target: Target): int {
    if key !in s then 0
    else
      match target
      case CREATE_REVISION => s[key].create
      case VERSION => s[key].version
      case LEASE => s[key].lease
  }

  predicate Holds(c: Compare, s: Store) {
    var actual := Field(s, c.key, c.target);
    match c.result
    case EQUAL => actual == c.operand
    case GREATER => actual > c.operand
  }

  predicate AllHold(cs: seq<Compare>, s: Store) {
    forall i :: 0 <= i < |cs| ==> Holds(cs[i], s)
  }

  predicate Covers(v: Interval, key: string) {
    match v
    case One(k) => key == k
    case Span(lo, hi) => InRange(key, lo, hi)
  }

  datatype Response = PutResponse | RangeResponse(kvs: seq<Kv>) | DeleteResponse

  function Write(s: Store, key: string, value: string, lease: int, ignoreLease: bool, revision: int): Store {
    if key in s then
      s[key := Kv(value, s[key].version + 1, s[key].create, if ignoreLease then s[key].lease else lease)]
    else s[key := Kv(value, 1, revision, lease)]
  }

  function Effect(q: Request, s: Store, revision: int): Store {
    match q
    case Put(k, v, lease, ignoreLease) => Write(s, k, v, lease, ignoreLease, revision)
    case Range(_) => s
    case DeleteRange(v) => map k | k in s && !Covers(v, k) :: s[k]
  }

  function Reply(q: Request, s: Store): Response {
    match q
    case Put(_, _, _, _) => PutResponse
    case Range(k) => RangeResponse(if k in s then [s[k]] else [])
    case DeleteRange(_) => DeleteResponse
  }

  /** A branch run in order, as the transaction with this revision. */
  function Run(qs: seq<Request>, s: Store, revision: int): (r: (Store, seq<Response>))
    ensures |r.1| == |qs|
  {
    if qs == [] then (s, [])
    else
      var last := |qs| - 1;
      var (u, replies) := Run(qs[..last], s, revision);
      (Effect(qs[last], u, revision), replies + [Reply(qs[last], u)])
  }

  lemma RunSnoc(qs: seq<Request>, q: Request, s: Store, revision: int)
    ensures var (u, replies) := Run(qs, s, revision);
      Run(qs + [q], s, revision) == (Effect(q, u, revision), replies + [Reply(q, u)])
  {
    assert (qs + [q])[..|qs|] == qs;
  }

  lemma {:induction false} RunConcat(a: seq<Request>, b: seq<Request>, s: Store, revision: int)
    ensures var (u, first) := Run(a, s, revision);
      var (w, rest) := Run(b, u, revision);
      Run(a + b, s, revision) == (w, first + rest)
  {
    hide Effect, Reply;
    if b == [] {
      assert a + b == a;
      assert Run(a, s, revision).1 + [] == Run(a, s, revision).1;
    } else {
      var n := |b| - 1;
      RunConcat(a, b[..n], s, revision);
      hide Run;
      RunSnoc(a + b[..n], b[n], s, revision);
      RunSnoc(b[..n], b[n], Run(a, s, revision).0, revision);
      assert a + b == (a + b[..n]) + [b[n]] && b == b[..n] + [b[n]];
      var u := Run(a, s, revision);
      var w := Run(b[..n], u.0, revision);
      var last := [Reply(b[n], w.0)];
      assert u.1 + w.1 + last == u.1 + (w.1 + last);
    }
  }

  lemma Run1(a: Request, s: Store, revision: int)
    ensures Run([a], s, revision) == (Effect(a, s, revision), [Reply(a, s)])
  {
    hide Effect, Reply;
    RunSnoc([], a, s, revision);
    assert [] + [a] == [a] && [] + [Reply(a, s)] == [Reply(a, s)];
  }

  lemma Run2(a: Request, b: Request, s: Store, revision: int)
    ensures var u := Effect(a, s, revision);
      Run([a, b], s, revision) == (Effect(b, u, revision), [Reply(a, s), Reply(b, u)])
  {
    hide Effect, Reply, Run;
    Run1(a, s, revision);
    RunSnoc([a], b, s, revision);
    assert [a] + [b] == [a, b];
    assert [Reply(a, s)] + [Reply(b, Effect(a, s, revision))] == [Reply(a, s), Reply(b, Effect(a, s, revision))];
  }

  // ---------- what the service refuses ----------

  /** Two requests of one branch that etcd does not accept together: two puts of a key, or a put
      of a key inside a deleted range. */
  predicate Clash(a: Request, b: Request) {
    match (a, b)
    case (Put(k, _, _, _), Put(j, _, _, _)) => k == j
    case (Put(k, _, _, _), DeleteRange(v)) => Covers(v, k)
    case (DeleteRange(v), Put(k, _, _, _)) => Covers(v, k)
    case _ => false
  }

  predicate NoOverlap(qs: seq<Request>) {
    forall i, j :: 0 <= i < j < |qs| ==> !Clash(qs[i], qs[j])
  }

  /** A put that keeps the lease of a key that is not there. */
  predicate LeaseMissing(qs: seq<Request>, s: Store) {
    exists i :: 0 <= i < |qs| && qs[i].Put? && qs[i].ignoreLease && qs[i].key !in s
  }

  lemma Accepted1(a: Request, s: Store)
    ensures NoOverlap([a])
    ensures LeaseMissing([a], s) <==> a.Put? && a.ignoreLease && a.key !in s
  {
    assert [a][0] == a;
  }

  lemma Accepted2(a: Request, b: Request, s: Store)
    ensures NoOverlap([a, b]) <==> !Clash(a, b)
    ensures LeaseMissing([a, b], s) <==>
      (a.Put? && a.ignoreLease && a.key !in s) || (b.Put? && b.ignoreLease && b.key !in s)
  {
    hide Clash;
    var qs := [a, b];
    assert qs[0] == a && qs[1] == b;
    if NoOverlap(qs) {
      assert !Clash(qs[0], qs[1]);
    }
  }

  datatype TxnResponse = InvalidArgument | TxnResponse(succeeded: bool, responses: seq<Response>, store: Store)

  function Execute(t: Txn, s: Store, revision: int): TxnResponse {
    var succeeded := AllHold(t.compare, s);
    var branch := if succeeded then t.success else t.failure;
    if !NoOverlap(t.success) || !NoOverlap(t.failure) || LeaseMissing(branch, s) then InvalidArgument
    else
      var (u, responses) := Run(branch, s, revision);
      TxnResponse(succeeded, responses, u)
  }

  // ---------- the transaction builder ----------

  datatype Status = UNDEFINED | SUCCESS | FAILURE

  /** `ETCDTransactionBuilder`: collects compares, and requests for whichever branch was
      selected last. */
  class TransactionBuilder {
    var txn: Txn
    var status: Status

    constructor ()
      ensures txn == Txn([], [], []) && status == UNDEFINED
    {
      txn, status := Txn([], [], []), UNDEFINED;
    }

    method MakeCompare(c: Compare)
      modifies this`txn
      ensures txn == old(txn).(compare := old(txn).compare + [c])
    {
      txn := txn.(compare := txn.compare + [c]);
    }

    method AddCheckExists(key: string)
      modifies this`txn
      ensures txn == old(txn).(compare := old(txn).compare + [Compare(key, CREATE_REVISION, GREATER, 0)])
    {
      MakeCompare(Compare(key, CREATE_REVISION, GREATER, 0));
    }

    method AddCheckNotExists(key: string)
      modifies this`txn
      ensures txn == old(txn).(compare := old(txn).compare + [Compare(key, CREATE_REVISION, EQUAL, 0)])
    {
      MakeCompare(Compare(key, CREATE_REVISION, EQUAL, 0));
    }

    method AddVersionCompare(key: string, version: int)
      modifies this`txn
      ensures txn == old(txn).(compare := old(txn).compare + [Compare(key, VERSION, EQUAL, version)])
    {
      MakeCompare(Compare(key, VERSION, EQUAL, version));
    }

    method AddLeaseCompare(key: string, lease: int)
      modifies this`txn
      ensures txn == old(txn).(compare := old(txn).compare + [Compare(key, LEASE, EQUAL, lease)])
    {
      MakeCompare(Compare(key, LEASE, EQUAL, lease));
    }

    method OnSuccess()
      modifies this`status
      ensures status == SUCCESS
    {
      status := SUCCESS;
    }

    method OnFailure()
      modifies this`status
      ensures status == FAILURE
    {
      status := FAILURE;
    }

    /** Appends to the selected branch; the source asserts that one has been selected. */
    method AddRequest(q: Request)
      requires status != UNDEFINED
      modifies this`txn
      ensures txn == if status == SUCCESS then old(txn).(success := old(txn).success + [q])
                     else old(txn).(failure := old(txn).failure + [q])
    {
      if status == SUCCESS {
        txn := txn.(success := txn.success + [q]);
      } else {
        txn := txn.(failure := txn.failure + [q]);
      }
    }
  }

  // ---------- the tree a client sees ----------

  /** What the service maintains: versions and creation revisions are positive. */
  ghost predicate Genuine(s: Store) {
    forall k :: k in s ==> s[k].version >= 1 && s[k].create >= 1
  }

  function ToNode(e: Kv): Node {
    Node(e.value, e.version, e.lease != 0)
  }

  ghost predicate Names(prefix: Path, name: string, k: Key) {
    EtcdName(prefix, k) == name
  }

  ghost function Visible(prefix: Path, s: Store): set<Key> {
    set n | n in s && (exists k: Key :: Names(prefix, n, k)) :: (var k: Key :| Names(prefix, n, k); k)
  }

  lemma VisibleIs(prefix: Path, s: Store)
    ensures forall k: Key :: k in Visible(prefix, s) <==> EtcdName(prefix, k) in s
  {
    hide EtcdName;
    forall k: Key
      ensures k in Visible(prefix, s) <==> EtcdName(prefix, k) in s
    {
      assert Names(prefix, EtcdName(prefix, k), k);
      forall j: Key | Names(prefix, EtcdName(prefix, k), j)
        ensures j == k
      {
        EtcdInjective(prefix, j, k);
      }
    }
  }

  /** The keys stored under names this client uses. */
  ghost function View(prefix: Path, s: Store): Tree {
    VisibleIs(prefix, s);
    map k: Key | k in Visible(prefix, s) :: ToNode(s[EtcdName(prefix, k)])
  }

  lemma ViewIs(prefix: Path, s: Store)
    ensures forall k: Key :: k in View(prefix, s) <==> EtcdName(prefix, k) in s
    ensures forall k: Key :: k in View(prefix, s) ==> View(prefix, s)[k] == ToNode(s[EtcdName(prefix, k)])
  {
    hide EtcdName, Visible;
    VisibleIs(prefix, s);
  }

  lemma ViewPut(prefix: Path, s: Store, k: Key, e: Kv)
    ensures View(prefix, s[EtcdName(prefix, k) := e]) == View(prefix, s)[k := ToNode(e)]
  {
    hide EtcdName, ToNode, View;
    ViewIs(prefix, s);
    ViewIs(prefix, s[EtcdName(prefix, k) := e]);
    forall j: Key | EtcdName(prefix, j) == EtcdName(prefix, k)
      ensures j == k
    {
      EtcdInjective(prefix, j, k);
    }
  }

  function Subtree(prefix: seq<string>, k: seq<string>): Interval {
    var (lo, hi) := SubtreeRange(prefix, k);
    Span(lo, hi)
  }

  /** The name of a key, or the subtree range of it, covers a name exactly when the key is at or
      above the other. */
  lemma CoveredNames(prefix: Path, k: Key)
    ensures forall j: Key :: (var n := EtcdName(prefix, j);
      n == EtcdName(prefix, k) || Covers(Subtree(prefix, k), n) <==> k <= j)
    ensures forall j: Key :: Covers(Subtree(prefix, k), EtcdName(prefix, j)) <==> k < j
  {
    hide EtcdName, SubtreeRange, InRange;
    forall j: Key
      ensures Covers(Subtree(prefix, k), EtcdName(prefix, j)) <==> k < j
      ensures (var n := EtcdName(prefix, j);
        n == EtcdName(prefix, k) || Covers(Subtree(prefix, k), n) <==> k <= j)
    {
      EtcdSubtree(prefix, k, j);
      EtcdInjective(prefix, j, k);
      assert k <= j <==> k == j || k < j;
    }
  }

  /** Deleting the name and then the subtree range prunes the tree at the key. */
  lemma ViewDelete(prefix: Path, s: Store, k: Key, revision: int)
    ensures var u := Effect(DeleteRange(One(EtcdName(prefix, k))), s, revision);
      View(prefix, Effect(DeleteRange(Subtree(prefix, k)), u, revision)) == Prune(View(prefix, s), k)
  {
    hide EtcdName, ToNode, View, Subtree;
    var n, below := EtcdName(prefix, k), Subtree(prefix, k);
    CoveredNames(prefix, k);
    var u := Effect(DeleteRange(One(n)), s, revision);
    var w := Effect(DeleteRange(below), u, revision);
    ViewIs(prefix, s);
    ViewIs(prefix, w);
    hide Covers;
    assert forall m :: m in w <==> m in s && !Covers(One(n), m) && !Covers(below, m);
    assert forall m :: m in w ==> w[m] == s[m];
    assert forall m :: Covers(One(n), m) <==> m == n by { OneCovers(n); }
  }

  lemma OneCovers(n: string)
    ensures forall m :: Covers(One(n), m) <==> m == n
  {
  }

  lemma EffectGenuine(q: Request, s: Store, revision: int)
    requires Genuine(s) && revision >= 1
    ensures Genuine(Effect(q, s, revision))
  {
  }

  lemma {:induction false} RunGenuine(qs: seq<Request>, s: Store, revision: int)
    requires Genuine(s) && revision >= 1
    ensures Genuine(Run(qs, s, revision).0)
  {
    hide Genuine, Effect;
    if qs != [] {
      var n := |qs| - 1;
      RunGenuine(qs[..n], s, revision);
      EffectGenuine(qs[n], Run(qs[..n], s, revision).0, revision);
    }
  }

  // ---------- what a branch leaves alone ----------

  predicate Touches(q: Request, name: string) {
    (q.Put? && q.key == name) || (q.DeleteRange? && Covers(q.interval, name))
  }

  ghost predicate NotTouched(qs: seq<Request>, name: string) {
    forall i :: 0 <= i < |qs| ==> !Touches(qs[i], name)
  }

  predicate SameAt(s: Store, u: Store, name: string) {
    (name in s <==> name in u) && (name in s ==> u[name] == s[name])
  }

  lemma {:induction false} RunFrame(qs: seq<Request>, s: Store, revision: int, name: string)
    requires NotTouched(qs, name)
    ensures SameAt(s, Run(qs, s, revision).0, name)
  {
    if qs != [] {
      RunFrame(qs[..|qs| - 1], s, revision, name);
      assert !Touches(qs[|qs| - 1], name);
    }
  }
}
