/** The specification every client is measured against: a tree of versioned keys, the single
    operations on it, and transactions as an in-order fold. */
module Tree {
  import opened Errors
  import opened Keys

  datatype Node = Node(value: string, version: int, lease: bool)

  type Tree = map<Key, Node>

  /** One entry of a transaction. The library puts the checks before the operations, so a
      transaction is a list of checks followed by a list of operations. */
  datatype Step =
    | Check(key: Key, version: int)
    | Create(key: Key, value: string, lease: bool)
    | Set(key: Key, value: string)
    | Erase(key: Key)

  type CheckStep = s: Step | s.Check? witness Check(["a"], 0)

  type OpStep = s: Step | !s.Check? witness Erase(["a"])

  datatype Transaction = Transaction(checks: seq<CheckStep>, ops: seq<OpStep>) {
    function Steps(): seq<Step> {
      checks + ops
    }
  }

  lemma StepsAre(txn: Transaction)
    ensures var steps, n := txn.Steps(), |txn.checks|;
      && |steps| == n + |txn.ops|
      && (forall i :: 0 <= i < n ==> steps[i] == txn.checks[i])
      && (forall i :: 0 <= i < |txn.ops| ==> steps[n + i] == txn.ops[i])
  {
  }

  predicate EraseOver(step: Step, k: Key) {
    step.Erase? && step.key <= k
  }

  /** A step, or some step, that creates a leased key. */
  predicate Leased(step: Step) {
    step.Create? && step.lease
  }

  predicate AnyLeased(steps: seq<Step>) {
    exists i :: 0 <= i < |steps| && Leased(steps[i])
  }

  lemma AnyLeasedNext(steps: seq<Step>, i: nat)
    requires i < |steps|
    ensures AnyLeased(steps[..i + 1]) <==> AnyLeased(steps[..i]) || Leased(steps[i])
  {
    var now, next := steps[..i], steps[..i + 1];
    assert forall j :: 0 <= j < i ==> next[j] == now[j];
    assert next[i] == steps[i];
  }

  lemma NoneLeased(steps: seq<Step>, n: nat)
    requires n <= |steps| && forall i :: 0 <= i < n ==> steps[i].Check?
    ensures !AnyLeased(steps[..n])
  {
  }

  datatype Kind = CREATE | SET

  datatype Answer = Answer(kind: Kind, version: int)

  /** How a service numbers versions: each write adds one to the key's own counter, or each
      write stores the number of the write. */
  datatype Stamp = Counter | Index(write: int)

  /** Where the services differ: version numbers, whether a leased key may have children, and
      whether a transactional set detaches the key from its lease. */
  datatype Rules = Rules(stamp: Stamp, leafLeases: bool, setDropsLease: bool)

  const ZK_RULES := Rules(Counter, true, false)
  const ETCD_RULES := Rules(Counter, false, true)

  function ConsulRules(index: int): Rules {
    Rules(Index(index), false, false)
  }

  function NextVersion(r: Rules, previous: int): int {
    match r.stamp
    case Counter => previous + 1
    case Index(write) => write
  }

  // ---------- one step ----------

  predicate ParentReady(r: Rules, t: Tree, k: Key) {
    var p := Parent(k);
    p == [] || (p in t && !(r.leafLeases && t[p].lease))
  }

  predicate Accepts(r: Rules, s: Step, t: Tree) {
    match s
    case Check(k, version) => k in t && (version == 0 || t[k].version == version)
    case Create(k, _, _) => k !in t && ParentReady(r, t, k)
    case Set(k, _) => k in t
    case Erase(k) => k in t
  }

  function Prune(t: Tree, k: Key): Tree {
    map j | j in t && !(k <= j) :: t[j]
  }

  function Apply(r: Rules, s: Step, t: Tree): Tree
    requires Accepts(r, s, t)
  {
    match s
    case Check(_, _) => t
    case Create(k, v, lease) => t[k := Node(v, NextVersion(r, 0), lease)]
    case Set(k, v) =>
      t[k := Node(v, NextVersion(r, t[k].version), t[k].lease && !r.setDropsLease)]
    case Erase(k) => Prune(t, k)
  }

  /** The entries of the transaction result a step contributes. */
  function Answers(r: Rules, s: Step, t: Tree): seq<Answer>
    requires Accepts(r, s, t)
  {
    match s
    case Create(k, _, _) => [Answer(CREATE, NextVersion(r, 0))]
    case Set(k, _) => [Answer(SET, NextVersion(r, t[k].version))]
    case _ => []
  }

  // ---------- the fold ----------

  datatype Outcome = Committed(tree: Tree, answers: seq<Answer>) | Failed(index: nat)

  /** All steps in order, or the index of the first one that is not accepted. */
  function Fold(r: Rules, steps: seq<Step>, t: Tree): (o: Outcome)
    ensures o.Failed? ==> o.index < |steps|
  {
    if steps == [] then Committed(t, [])
    else
      var last := steps[|steps| - 1];
      match Fold(r, steps[..|steps| - 1], t)
      case Failed(i) => Failed(i)
      case Committed(u, answers) =>
        if Accepts(r, last, u) then Committed(Apply(r, last, u), answers + Answers(r, last, u))
        else Failed(|steps| - 1)
  }

  lemma FoldLast(r: Rules, init: seq<Step>, last: Step, t: Tree)
    ensures Fold(r, init + [last], t) ==
      match Fold(r, init, t)
      case Failed(i) => Failed(i)
      case Committed(u, answers) =>
        if Accepts(r, last, u) then Committed(Apply(r, last, u), answers + Answers(r, last, u))
        else Failed(|init|)
  {
    hide Accepts, Apply, Answers;
    assert (init + [last])[..|init|] == init;
  }

  /** The fold up to a step decides what the fold does at that step. */
  lemma {:induction false} FoldPrefix(r: Rules, steps: seq<Step>, t: Tree, n: nat)
    requires n <= |steps|
    ensures Fold(r, steps, t).Committed? ==> Fold(r, steps[..n], t).Committed?
    ensures Fold(r, steps[..n], t).Failed? ==> Fold(r, steps, t) == Fold(r, steps[..n], t)
    ensures Fold(r, steps, t).Failed? ==>
      (Fold(r, steps[..n], t).Committed? <==> n <= Fold(r, steps, t).index)
  {
    if n < |steps| {
      FoldPrefix(r, steps[..|steps| - 1], t, n);
      assert steps[..|steps| - 1][..n] == steps[..n];
    } else {
      assert steps[..n] == steps;
    }
  }

  /** `Failed(i)` says exactly that the steps before `i` are accepted in turn and `i` is not. */
  lemma FailsFirstAt(r: Rules, steps: seq<Step>, t: Tree, i: nat)
    requires i < |steps|
    ensures Fold(r, steps, t) == Failed(i) <==>
      (Fold(r, steps[..i], t).Committed? && !Accepts(r, steps[i], Fold(r, steps[..i], t).tree))
  {
    FoldPrefix(r, steps, t, i + 1);
    FoldPrefix(r, steps, t, i);
    assert steps[..i + 1][..i] == steps[..i];
  }

  // ---------- what every operation keeps ----------

  /** The tree invariant: parents present (and, where leased keys are leaves, unleased), and
      versions positive. */
  ghost predicate Closed(r: Rules, t: Tree) {
    && (forall k :: k in t ==> ParentReady(r, t, k))
    && (forall k :: k in t ==> t[k].version >= 1)
  }

  ghost predicate Positive(r: Rules) {
    r.stamp.Index? ==> r.stamp.write >= 1
  }

  lemma ApplyKeepsClosed(r: Rules, s: Step, t: Tree)
    requires Positive(r) && Closed(r, t) && Accepts(r, s, t)
    ensures Closed(r, Apply(r, s, t))
  {
    var u := Apply(r, s, t);
    forall k | k in u
      ensures ParentReady(r, u, k)
    {
      assert k in t ==> ParentReady(r, t, k);
      assert s.Erase? ==> (Parent(k) in t && Parent(k) !in u ==> s.key <= k);
    }
  }

  /** A committed transaction keeps the tree closed. */
  lemma {:induction false} FoldKeepsClosed(r: Rules, steps: seq<Step>, t: Tree)
    requires Positive(r) && Closed(r, t)
    ensures Fold(r, steps, t).Committed? ==> Closed(r, Fold(r, steps, t).tree)
  {
    if steps != [] && Fold(r, steps, t).Committed? {
      var init := steps[..|steps| - 1];
      FoldKeepsClosed(r, init, t);
      ApplyKeepsClosed(r, steps[|steps| - 1], Fold(r, init, t).tree);
    }
  }

  /** Above a present key everything is present. */
  lemma {:induction false} AncestorsPresent(r: Rules, t: Tree, a: Key, k: Key)
    requires Closed(r, t) && k in t && a <= k
    ensures a in t
    decreases |k|
  {
    if |a| < |k| {
      assert ParentReady(r, t, k);
      assert a <= Parent(k);
      AncestorsPresent(r, t, a, Parent(k));
    } else {
      assert a == k;
    }
  }

  // ---------- single operations ----------

  /** `create`. */
  function CreateSpec(r: Rules, t: Tree, k: Key, v: string, lease: bool): (Tree, Result<int>) {
    var p := Parent(k);
    if k in t then (t, Err(EntryExists))
    else if p != [] && p !in t then (t, Err(NoEntry))
    else if !ParentReady(r, t, k) then (t, Err(NoChildrenForEphemeral))
    else (t[k := Node(v, NextVersion(r, 0), lease)], Ok(NextVersion(r, 0)))
  }

  /** Overwrite a present key; its lease stays. */
  function Overwrite(r: Rules, t: Tree, k: Key, v: string): (Tree, Result<int>)
    requires k in t
  {
    var n := NextVersion(r, t[k].version);
    (t[k := Node(v, n, t[k].lease)], Ok(n))
  }

  /** `set`: create or overwrite. */
  function SetSpec(r: Rules, t: Tree, k: Key, v: string): (Tree, Result<int>) {
    if k in t then Overwrite(r, t, k, v) else CreateSpec(r, t, k, v, false)
  }

  /** `cas`; Ok(0) means that nothing was written. */
  function CasSpec(r: Rules, t: Tree, k: Key, v: string, version: int): (Tree, Result<int>) {
    if version == 0 then
      if k in t then (t, Ok(0)) else CreateSpec(r, t, k, v, false)
    else if k !in t then (t, Err(NoEntry))
    else if t[k].version != version then (t, Ok(0))
    else Overwrite(r, t, k, v)
  }

  /** `erase`. */
  function EraseSpec(t: Tree, k: Key, version: int): (Tree, Result<int>) {
    if k !in t then (t, Err(NoEntry))
    else if version == 0 || t[k].version == version then (Prune(t, k), Ok(0))
    else (t, Ok(0))
  }

  datatype Call =
    | DoCreate(key: Key, value: string, lease: bool)
    | DoSet(key: Key, value: string)
    | DoCas(key: Key, value: string, version: int)
    | DoErase(key: Key, version: int)
    | DoCommit(steps: seq<Step>)

  /** The tree after a call. */
  function AfterCall(r: Rules, c: Call, t: Tree): Tree {
    match c
    case DoCreate(k, v, lease) => CreateSpec(r, t, k, v, lease).0
    case DoSet(k, v) => SetSpec(r, t, k, v).0
    case DoCas(k, v, version) => CasSpec(r, t, k, v, version).0
    case DoErase(k, version) => EraseSpec(t, k, version).0
    case DoCommit(steps) =>
      (match Fold(r, steps, t) case Committed(u, _) => u case Failed(_) => t)
  }

  /** Every call keeps the tree closed. */
  lemma CallKeepsClosed(r: Rules, c: Call, t: Tree)
    requires Positive(r) && Closed(r, t)
    ensures Closed(r, AfterCall(r, c, t))
  {
    match c
    case DoCreate(k, v, lease) => CreateKeepsClosed(r, t, k, v, lease);
    case DoSet(k, v) => CreateKeepsClosed(r, t, k, v, false); OverwriteKeepsClosed(r, t, k, v);
    case DoCas(k, v, _) => CreateKeepsClosed(r, t, k, v, false); OverwriteKeepsClosed(r, t, k, v);
    case DoErase(k, _) =>
      if k in t {
        ApplyKeepsClosed(r, Erase(k), t);
      }
    case DoCommit(steps) => FoldKeepsClosed(r, steps, t);
  }

  lemma CreateKeepsClosed(r: Rules, t: Tree, k: Key, v: string, lease: bool)
    requires Positive(r) && Closed(r, t)
    ensures Closed(r, CreateSpec(r, t, k, v, lease).0)
  {
    if Accepts(r, Create(k, v, lease), t) {
      ApplyKeepsClosed(r, Create(k, v, lease), t);
    }
  }

  lemma OverwriteKeepsClosed(r: Rules, t: Tree, k: Key, v: string)
    requires Positive(r) && Closed(r, t)
    ensures k in t ==> Closed(r, Overwrite(r, t, k, v).0)
  {
    if k in t {
      var u := Overwrite(r, t, k, v).0;
      forall j | j in u
        ensures ParentReady(r, u, j)
      {
        assert ParentReady(r, t, j);
      }
    }
  }

  // ---------- values do not depend on the numbering ----------

  function Values(t: Tree): map<Key, string> {
    map k | k in t :: t[k].value
  }

  lemma ApplyValues(r: Rules, q: Rules, s: Step, t: Tree, u: Tree)
    requires Values(t) == Values(u)
    requires Accepts(r, s, t) && Accepts(q, s, u)
    ensures Values(Apply(r, s, t)) == Values(Apply(q, s, u))
  {
    assert t.Keys == Values(t).Keys == Values(u).Keys == u.Keys;
    forall k | k in t
      ensures t[k].value == u[k].value
    {
      assert Values(t)[k] == Values(u)[k];
    }
  }

  /** Two services that start with the same values and both commit end with the same values. */
  lemma {:induction false} FoldValues(r: Rules, q: Rules, steps: seq<Step>, t: Tree, u: Tree)
    requires Values(t) == Values(u)
    requires Fold(r, steps, t).Committed? && Fold(q, steps, u).Committed?
    ensures Values(Fold(r, steps, t).tree) == Values(Fold(q, steps, u).tree)
  {
    if steps != [] {
      var init := steps[..|steps| - 1];
      FoldValues(r, q, init, t, u);
      ApplyValues(r, q, steps[|steps| - 1], Fold(r, init, t).tree, Fold(q, init, u).tree);
    }
  }
}
