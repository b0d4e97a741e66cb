/** The ZooKeeper client's `set`: a create, and if the key is there already a separate
    overwrite. Between the two, other clients may do anything. */
module ZkSet {
  import opened Errors
  import opened Keys
  import opened Tree
  import opened ZkStore
  import opened ZkCommit
  import opened ZkSingle

  /** Returned in place of a version when the key vanished between the two calls. */
  const LARGE_NUMBER := 0x4000_0000_0000_0000

  /** What the two calls do: `z` meets the create, `later` the overwrite, `u` is left behind by
      the last call sent, and `second` says whether the overwrite was sent. */
  ghost predicate SetOutcome(prefix: Path, k: Key, v: string, z: ZStore, later: ZStore,
                             r: Result<int>, second: bool, u: ZStore) {
    && (second <==> k in View(prefix, z))
    && (!second ==> (View(prefix, u), r) == SetSpec(ZK_RULES, View(prefix, z), k, v))
    && (second ==>
          if k in View(prefix, later) then (View(prefix, u), r) == Overwrite(ZK_RULES, View(prefix, later), k, v)
          else u == later && r == Ok(0x4000_0000_0000_0000))
    && OnlyAt(prefix + k, if second then later else z, u)
  }

  /** `set` as the client performs it. */
  method SetKey(prefix: Path, k: Key, v: string, z: ZStore, later: ZStore)
      returns (r: Result<int>, second: bool, u: ZStore)
    requires Serves(prefix, z)
    ensures SetOutcome(prefix, k, v, z, later, r, second, u)
  {
    SetCases(prefix, k, v, z, later);
    hide *;
    var created := ServiceCreate(z, prefix + k, v, false);
    match created.1 {
      case Ok(_) => return Ok(1), false, created.0;
      case Err(EntryExists) =>
        var written := ServiceSet(later, prefix + k, v, ANY_VERSION);
        match written.1 {
          case Ok(dataVersion) => return Ok(dataVersion + 1), true, written.0;
          case Err(_) => return Ok(LARGE_NUMBER), true, later;
        }
      case Err(e) => return Err(e), false, created.0;
    }
  }

  lemma SetCases(prefix: Path, k: Key, v: string, z: ZStore, later: ZStore)
    requires Serves(prefix, z)
    ensures var created := ServiceCreate(z, prefix + k, v, false);
      var written := ServiceSet(later, prefix + k, v, ANY_VERSION);
      match created.1
      case Ok(_) => SetOutcome(prefix, k, v, z, later, Ok(1), false, created.0)
      case Err(e) =>
        if e != EntryExists then SetOutcome(prefix, k, v, z, later, created.1, false, created.0)
        else if written.1.Ok? then SetOutcome(prefix, k, v, z, later, Ok(written.1.value + 1), true, written.0)
        else SetOutcome(prefix, k, v, z, later, Ok(LARGE_NUMBER), true, later)
  {
    CreateIsSpec(prefix, k, v, false, z);
    OverwriteIsSpec(prefix, k, v, later);
    SetByCreate(View(prefix, z), k, v);
    ServiceFrame(z, prefix + k, v, false, ANY_VERSION);
    ServiceFrame(later, prefix + k, v, false, ANY_VERSION);
    NothingChanged(prefix + k, later);
    hide OnlyAt, View, SetSpec, CreateSpec, Overwrite, ServiceCreate, ServiceSet, Serves;
  }

  lemma NothingChanged(p: ZPath, z: ZStore)
    ensures OnlyAt(p, z, z)
  {
  }

  lemma SetByCreate(t: Tree, k: Key, v: string)
    ensures k !in t ==> SetSpec(ZK_RULES, t, k, v) == CreateSpec(ZK_RULES, t, k, v, false)
    ensures CreateSpec(ZK_RULES, t, k, v, false).1 == Err(EntryExists) <==> k in t
    ensures CreateSpec(ZK_RULES, t, k, v, false).1.Ok? ==> CreateSpec(ZK_RULES, t, k, v, false).1 == Ok(1)
  {
  }

  lemma OverwriteIsSpec(prefix: Path, k: Key, v: string, z: ZStore)
    ensures var (u, r) := ServiceSet(z, prefix + k, v, ANY_VERSION);
      if k in View(prefix, z) then
        r.Ok? && (View(prefix, u), Ok(r.value + 1)) == Overwrite(ZK_RULES, View(prefix, z), k, v)
      else r.Err?
  {
    hide View;
    ViewIs(prefix, z);
    var p := prefix + k;
    if p in z {
      ViewPut(prefix, z, k, ZNode(v, z[p].version + 1, z[p].ephemeral));
    }
  }

  // ---------- runs of atomic operations ----------

  /** One atomic operation of some client. A transaction is the fold; one that changes nothing and
      reports no failure of the fold need not be listed. */
  datatype Act =
    | ActCreate(key: Key, value: string, lease: bool)
    | ActOverwrite(key: Key, value: string)
    | ActCas(key: Key, value: string, version: int)
    | ActErase(key: Key, version: int)
    | ActSet(key: Key, value: string)
    | ActCommit(steps: seq<Step>)

  /** What its caller is told. */
  datatype Reply = Single(result: Result<int>) | Whole(answers: seq<Answer>) | Refused(index: nat)

  function Do(a: Act, t: Tree): (Tree, Reply) {
    match a
    case ActCommit(steps) =>
      (match Fold(ZK_RULES, steps, t)
       case Committed(u, answers) => (u, Whole(answers))
       case Failed(i) => (t, Refused(i)))
    case _ =>
      var (u, r) := DoSingle(a, t);
      (u, Single(r))
  }

  function DoSingle(a: Act, t: Tree): (Tree, Result<int>)
    requires !a.ActCommit?
  {
    match a
    case ActCreate(k, v, lease) => CreateSpec(ZK_RULES, t, k, v, lease)
    case ActOverwrite(k, v) => if k in t then Overwrite(ZK_RULES, t, k, v) else (t, Err(NoEntry))
    case ActCas(k, v, version) => CasSpec(ZK_RULES, t, k, v, version)
    case ActErase(k, version) => EraseSpec(t, k, version)
    case ActSet(k, v) => SetSpec(ZK_RULES, t, k, v)
  }

  /** A run: the tree it ends in and every reply. */
  function RunActs(acts: seq<Act>, t: Tree): (r: (Tree, seq<Reply>))
    ensures |r.1| == |acts|
  {
    if acts == [] then (t, [])
    else
      var (u, replies) := RunActs(acts[..|acts| - 1], t);
      var (w, reply) := Do(acts[|acts| - 1], u);
      (w, replies + [reply])
  }

  lemma {:induction false} RunConcat(a: seq<Act>, b: seq<Act>, t: Tree)
    ensures var (u, first) := RunActs(a, t);
      var (w, rest) := RunActs(b, u);
      RunActs(a + b, t) == (w, first + rest)
  {
    hide Do;
    if b == [] {
      assert a + b == a;
      assert RunActs(a, t).1 + [] == RunActs(a, t).1;
    } else {
      var n := |b| - 1;
      RunConcat(a, b[..n], t);
      var u := RunActs(a, t);
      var w := RunActs(b[..n], u.0);
      var last := Do(b[n], w.0);
      assert (a + b)[..|a + b| - 1] == a + b[..n];
      assert u.1 + w.1 + [last.1] == u.1 + (w.1 + [last.1]);
    }
  }

  lemma RunOne(a: Act, t: Tree)
    ensures RunActs([a], t) == (Do(a, t).0, [Do(a, t).1])
  {
    assert [a][..0] == [];
    assert RunActs([], t) == (t, []);
    assert [] + [Do(a, t).1] == [Do(a, t).1];
  }

  // ---------- linearization ----------

  /** What a two-step `set` that found the key leaves behind after `acts` ran in between. */
  function TwoStep(k: Key, v: string, u: Tree): Tree {
    if k in u then Overwrite(ZK_RULES, u, k, v).0 else u
  }

  /** And what it returns. */
  function TwoStepReply(k: Key, v: string, u: Tree): Result<int> {
    if k in u then Overwrite(ZK_RULES, u, k, v).1 else Ok(LARGE_NUMBER)
  }

  /** An atomic set placed after the first `i` steps explains everything: the final tree
      `after`, every other client's replies, and a reply of success, which is the one the caller
      got unless the key vanished. */
  ghost predicate Explains(k: Key, v: string, t: Tree, acts: seq<Act>, i: nat, after: Tree, r: Result<int>)
    requires i <= |acts|
  {
    var replies := RunActs(acts, t).1;
    var (w, all) := RunActs(acts[..i] + [ActSet(k, v)] + acts[i..], t);
    && w == after
    && |all| == |acts| + 1
    && all[..i] == replies[..i] && all[i + 1..] == replies[i..]
    && all[i].Single? && all[i].result.Ok?
    && (r == all[i].result || (r == Ok(LARGE_NUMBER) && k !in after))
  }

  /** The same for the outcome of the two calls with `acts` in between. */
  ghost predicate ExplainedAt(k: Key, v: string, t: Tree, acts: seq<Act>, i: nat)
    requires i <= |acts|
  {
    var u := RunActs(acts, t).0;
    Explains(k, v, t, acts, i, TwoStep(k, v, u), TwoStepReply(k, v, u))
  }

  /** What a transaction does to a set of `k` made just before it: it erases the key, directly or
      with what lies above it, having at most looked whether the key is there; it does something
      else to the key first; or neither. */
  datatype Cover = Open | Covered | Noticed

  function CoverOf(steps: seq<Step>, k: Key): Cover {
    if steps == [] then Open
    else
      var last := steps[|steps| - 1];
      match CoverOf(steps[..|steps| - 1], k)
      case Open =>
        if last.Erase? && last.key <= k then Covered
        else if last.key == k && !(last.Check? && last.version == 0) then Noticed
        else Open
      case done => done
  }

  /** A step that covers a set made just before it: it removes the key, it would be answered the
      same with the set, and the set would succeed. An erase of the key by version does not,
      because the set changes the version. */
  predicate Hides(a: Act, k: Key, v: string, u: Tree) {
    && SetSpec(ZK_RULES, u, k, v).1.Ok?
    && match a
       case ActErase(j, version) =>
         j <= k && j in u && (version == 0 || (j != k && u[j].version == version))
       case ActCommit(steps) => CoverOf(steps, k).Covered? && Fold(ZK_RULES, steps, u).Committed?
       case _ => false
  }

  /** Some step of the run covers a set made just before it. */
  ghost predicate SomeStepHides(k: Key, v: string, t: Tree, acts: seq<Act>) {
    exists m :: 0 <= m < |acts| && Hides(acts[m], k, v, RunActs(acts[..m], t).0)
  }

  /** Setting a key just before a step that covers it changes nothing that can be seen. */
  lemma RemovalHides(a: Act, k: Key, v: string, u: Tree)
    requires Closed(ZK_RULES, u) && Hides(a, k, v, u)
    ensures var (w, r) := Do(ActSet(k, v), u); r.Single? && r.result.Ok? && Do(a, w) == Do(a, u)
  {
    hide Closed, CoverOf, Fold;
    if a.ActErase? {
      assert Prune(SetSpec(ZK_RULES, u, k, v).0, a.key) == Prune(u, a.key);
    } else {
      SetIsThere(k, v, u);
      hide SetSpec;
      CommitHides(a.steps, k, v, u);
    }
  }

  lemma SetIsThere(k: Key, v: string, u: Tree)
    requires SetSpec(ZK_RULES, u, k, v).1.Ok?
    ensures var (w, r) := Do(ActSet(k, v), u); r == Single(SetSpec(ZK_RULES, u, k, v).1) && k in w
  {
  }

  lemma CommitHides(steps: seq<Step>, k: Key, v: string, u: Tree)
    requires Closed(ZK_RULES, u) && SetSpec(ZK_RULES, u, k, v).1.Ok? && k in Do(ActSet(k, v), u).0
    requires CoverOf(steps, k).Covered? && Fold(ZK_RULES, steps, u).Committed?
    ensures Do(ActCommit(steps), Do(ActSet(k, v), u).0) == Do(ActCommit(steps), u)
  {
    hide *;
    var w := Do(ActSet(k, v), u).0;
    SetMakesApart(k, v, u);
    DoKeepsClosed(ActSet(k, v), u);
    FoldFollows(steps, k, u, w);
    CoveredSame(steps, k, u, w);
  }

  lemma CoveredSame(steps: seq<Step>, k: Key, u: Tree, w: Tree)
    requires var o, p := Fold(ZK_RULES, steps, u), Fold(ZK_RULES, steps, w);
      && o.Committed? && p.Committed? && o.answers == p.answers && Compared(Covered, k, o.tree, p.tree)
    ensures Do(ActCommit(steps), w) == Do(ActCommit(steps), u)
  {
    hide Fold;
  }

  /** Inserting a step between two halves of a run. */
  lemma RunInsert(a: seq<Act>, x: Act, b: seq<Act>, t: Tree)
    ensures var (u, first) := RunActs(a, t);
      var (w, rest) := RunActs(b, Do(x, u).0);
      RunActs(a + [x] + b, t) == (w, first + [Do(x, u).1] + rest)
  {
    hide Do, RunActs;
    RunConcat(a, [x], t);
    RunOne(x, RunActs(a, t).0);
    RunConcat(a + [x], b, t);
  }

  /** A set between `a` and `b` explains if the steps after it do not notice it. */
  lemma ExplainsBetween(k: Key, v: string, t: Tree, a: seq<Act>, b: seq<Act>, after: Tree, r: Result<int>)
    requires var u := RunActs(a, t).0;
      var (w, x) := Do(ActSet(k, v), u);
      && RunActs(b, w) == (after, RunActs(b, u).1)
      && x.Single? && x.result.Ok? && (r == x.result || (r == Ok(LARGE_NUMBER) && k !in after))
    ensures Explains(k, v, t, a + b, |a|, after, r)
  {
    hide RunActs, Do;
    var (u, first) := RunActs(a, t);
    var (w, x) := Do(ActSet(k, v), u);
    var rest := RunActs(b, u).1;
    RunConcat(a, b, t);
    RunInsert(a, ActSet(k, v), b, t);
    assert (a + b)[..|a|] == a && (a + b)[|a|..] == b;
    assert (first + rest)[..|a|] == first && (first + rest)[|a|..] == rest;
    var all := first + [x] + rest;
    assert all[..|a|] == first && all[|a| + 1..] == rest && all[|a|] == x;
  }

  lemma ExplainedAtEnd(k: Key, v: string, t: Tree, acts: seq<Act>)
    requires k in RunActs(acts, t).0
    ensures ExplainedAt(k, v, t, acts, |acts|)
  {
    var u := RunActs(acts, t).0;
    SetOnPresent(k, v, u);
    RunNone(u);
    RunNone(Do(ActSet(k, v), u).0);
    assert Overwrite(ZK_RULES, u, k, v).1.Ok?;
    hide RunActs, Do, Overwrite, Explains;
    assert acts + [] == acts;
    ExplainsBetween(k, v, t, acts, [], TwoStep(k, v, u), TwoStepReply(k, v, u));
  }

  lemma RunNone(t: Tree)
    ensures RunActs([], t) == (t, [])
  {
  }

  lemma ExplainedIs(k: Key, v: string, t: Tree, acts: seq<Act>, i: nat)
    requires i <= |acts|
    ensures var u := RunActs(acts, t).0;
      ExplainedAt(k, v, t, acts, i) <==> Explains(k, v, t, acts, i, TwoStep(k, v, u), TwoStepReply(k, v, u))
  {
    hide RunActs, Explains, TwoStep, TwoStepReply;
  }

  lemma ExplainedBefore(k: Key, v: string, t: Tree, acts: seq<Act>, i: nat)
    requires Closed(ZK_RULES, t) && i < |acts| && Hides(acts[i], k, v, RunActs(acts[..i], t).0)
    requires k !in RunActs(acts, t).0
    ensures ExplainedAt(k, v, t, acts, i)
  {
    hide *;
    var a, x, b := acts[..i], acts[i], acts[i + 1..];
    RunKeepsClosed(a, t);
    RemovalHides(x, k, v, RunActs(a, t).0);
    assert acts == a + ([x] + b);
    ExplainedSplit(k, v, t, a, x, b);
  }

  lemma ExplainedSplit(k: Key, v: string, t: Tree, a: seq<Act>, x: Act, b: seq<Act>)
    requires var (w, r) := Do(ActSet(k, v), RunActs(a, t).0);
      r.Single? && r.result.Ok? && Do(x, w) == Do(x, RunActs(a, t).0)
    requires k !in RunActs(a + ([x] + b), t).0
    ensures ExplainedAt(k, v, t, a + ([x] + b), |a|)
  {
    hide *;
    var u, rest := RunActs(a, t).0, [x] + b;
    var (w, r) := Do(ActSet(k, v), u);
    var after := RunActs(a + rest, t).0;
    HeadAlike(x, b, u, w);
    RunConcat(a, rest, t);
    assert RunActs(rest, w).0 == after;
    ExplainsBetween(k, v, t, a, rest, after, Ok(LARGE_NUMBER));
    TwoStepGone(k, v, after);
    ExplainedIs(k, v, t, a + rest, |a|);
  }

  lemma HeadAlike(x: Act, b: seq<Act>, u: Tree, w: Tree)
    requires Do(x, u) == Do(x, w)
    ensures RunActs([x] + b, u) == RunActs([x] + b, w)
  {
    hide RunActs, Do;
    RunConcat([x], b, w);
    RunConcat([x], b, u);
    RunOne(x, w);
    RunOne(x, u);
  }

  lemma TwoStepGone(k: Key, v: string, u: Tree)
    requires k !in u
    ensures TwoStep(k, v, u) == u && TwoStepReply(k, v, u) == Ok(LARGE_NUMBER)
  {
  }

  lemma SetOnPresent(k: Key, v: string, u: Tree)
    requires k in u
    ensures var (w, r) := Overwrite(ZK_RULES, u, k, v); Do(ActSet(k, v), u) == (w, Single(r))
  {
  }

  // ---------- the difference a set makes ----------

  /** Two trees that differ at `k`, and at most below it. If both hold `k`, they differ there
      in version and value only. */
  ghost predicate Apart(k: Key, u: Tree, w: Tree) {
    && SameOff(k, u, w)
    && (k in u || k in w)
    && (k in u && k in w ==>
          u[k].version != w[k].version && u[k].lease == w[k].lease && SameBelow(k, u, w))
  }

  ghost predicate SameOff(k: Key, u: Tree, w: Tree) {
    forall j: Key :: !(k <= j) ==> (j in u <==> j in w) && (j in u ==> u[j] == w[j])
  }

  ghost predicate SameBelow(k: Key, u: Tree, w: Tree) {
    forall j: Key :: k < j ==> (j in u <==> j in w) && (j in u ==> u[j] == w[j])
  }

  lemma ErrorKeeps(a: Act, t: Tree)
    ensures Do(a, t).1.Single? && Do(a, t).1.result.Err? ==> Do(a, t).0 == t
  {
  }

  lemma ParentOff(k: Key, j: Key)
    ensures Parent(j) != [] && k <= Parent(j) <==> k < j
  {
  }

  /** A set makes such a difference. */
  lemma SetMakesApart(k: Key, v: string, u: Tree)
    requires Closed(ZK_RULES, u) && SetSpec(ZK_RULES, u, k, v).1.Ok?
    ensures Apart(k, u, Do(ActSet(k, v), u).0)
  {
  }

  predicate Writes(a: Act) {
    !a.ActErase? && !a.ActCommit?
  }

  /** A step on a key that both trees treat alike. */
  lemma ApartWrite(a: Act, k: Key, u: Tree, w: Tree)
    requires Apart(k, u, w) && Writes(a) && a.key != k
    requires (a.key in u <==> a.key in w) && (a.key in u ==> u[a.key] == w[a.key])
    requires ParentReady(ZK_RULES, u, a.key) <==> ParentReady(ZK_RULES, w, a.key)
    ensures Apart(k, Do(a, u).0, Do(a, w).0)
  {
  }

  lemma ApartOff(a: Act, k: Key, u: Tree, w: Tree)
    requires Apart(k, u, w) && Writes(a) && !(k <= a.key)
    ensures Apart(k, Do(a, u).0, Do(a, w).0)
  {
    ParentOff(k, a.key);
    ApartWrite(a, k, u, w);
  }

  /** One of the trees has nothing at or below `k`: no write below it is answered alike and
      takes effect. */
  lemma ApartBelow(a: Act, k: Key, u: Tree, w: Tree)
    requires Closed(ZK_RULES, u) && Closed(ZK_RULES, w) && Apart(k, u, w)
    requires Writes(a) && k < a.key && Do(a, u).1 == Do(a, w).1
    ensures Apart(k, Do(a, u).0, Do(a, w).0)
  {
    ParentOff(k, a.key);
    if k in u && k in w {
      assert Parent(a.key) == k || k < Parent(a.key);
      ApartWrite(a, k, u, w);
    } else {
      NothingBelow(k, u, a.key);
      NothingBelow(k, w, a.key);
      NothingBelow(k, u, Parent(a.key));
      NothingBelow(k, w, Parent(a.key));
      ErrorKeeps(a, u);
      ErrorKeeps(a, w);
      assert k !in u ==> Do(a, u).1.result.Err?;
      assert k !in w ==> Do(a, w).1.result.Err?;
    }
  }

  lemma NothingBelow(k: Key, u: Tree, j: Key)
    requires Closed(ZK_RULES, u) && k <= j
    ensures k !in u ==> j !in u
  {
    if k !in u && j in u {
      AncestorsPresent(ZK_RULES, u, k, j);
    }
  }

  /** Every write to `k` itself that is answered alike leaves both trees as they are. */
  lemma ApartAtKey(a: Act, k: Key, u: Tree, w: Tree)
    requires Closed(ZK_RULES, u) && Closed(ZK_RULES, w) && Apart(k, u, w)
    requires Writes(a) && a.key == k && Do(a, u).1 == Do(a, w).1
    ensures Do(a, u).0 == u && Do(a, w).0 == w
  {
    ParentOff(k, k);
    assert ParentReady(ZK_RULES, u, k) <==> ParentReady(ZK_RULES, w, k);
    assert ParentReady(ZK_RULES, u, k) by {
      assert k in u ==> ParentReady(ZK_RULES, u, k);
      assert k in w ==> ParentReady(ZK_RULES, w, k);
    }
  }

  /** An erase that takes effect in one of the trees, or in both. */
  lemma ApartErase(a: Act, k: Key, v: string, u: Tree, w: Tree)
    requires Closed(ZK_RULES, u) && Closed(ZK_RULES, w) && Apart(k, u, w)
    requires a.ActErase? && Do(a, u).1 == Do(a, w).1 && !Hides(a, k, v, u)
    ensures Apart(k, Do(a, u).0, Do(a, w).0)
  {
    if a.key == k {
      ApartEraseKey(a, k, v, u, w);
    } else if a.key <= k {
      ReadyToSet(k, v, u, w);
    } else if k <= a.key {
      NothingBelow(k, u, a.key);
      NothingBelow(k, w, a.key);
    } else {
      forall j: Key | j in u || j in w
        ensures a.key <= j ==> !(k <= j)
      {
        BothAbove(a.key, k, j);
      }
    }
  }

  lemma ReadyToSet(k: Key, v: string, u: Tree, w: Tree)
    requires Closed(ZK_RULES, u) && Closed(ZK_RULES, w) && Apart(k, u, w)
    ensures SetSpec(ZK_RULES, u, k, v).1.Ok?
  {
    ParentOff(k, k);
    assert k in w ==> ParentReady(ZK_RULES, w, k);
  }

  lemma ApartEraseKey(a: Act, k: Key, v: string, u: Tree, w: Tree)
    requires Closed(ZK_RULES, u) && Closed(ZK_RULES, w) && Apart(k, u, w)
    requires a.ActErase? && a.key == k && Do(a, u).1 == Do(a, w).1 && !Hides(a, k, v, u)
    ensures Apart(k, Do(a, u).0, Do(a, w).0)
  {
    ReadyToSet(k, v, u, w);
    assert k in u && k in w;
    assert a.version != 0;
  }

  // ---------- transactions ----------

  predicate Looks(step: Step, k: Key) {
    step.key == k ==> step.Check? && step.version == 0
  }

  lemma SetNoticed(step: Step, k: Key, u: Tree, w: Tree)
    requires Apart(k, u, w) && Accepts(ZK_RULES, step, u) && Accepts(ZK_RULES, step, w)
    ensures step.Set? && step.key == k ==> Answers(ZK_RULES, step, u) != Answers(ZK_RULES, step, w)
  {
    if step.Set? && step.key == k {
      assert Answers(ZK_RULES, step, u) == [Answer(SET, u[k].version + 1)];
      assert Answers(ZK_RULES, step, w) == [Answer(SET, w[k].version + 1)];
    }
  }

  /** A step of a transaction that both trees accept with the same answer. */
  lemma StepApart(step: Step, k: Key, u: Tree, w: Tree)
    requires Closed(ZK_RULES, u) && Closed(ZK_RULES, w) && Apart(k, u, w)
    requires Accepts(ZK_RULES, step, u) && Accepts(ZK_RULES, step, w)
    requires Answers(ZK_RULES, step, u) == Answers(ZK_RULES, step, w)
    ensures if EraseOver(step, k) then Apply(ZK_RULES, step, u) == Apply(ZK_RULES, step, w)
      else Looks(step, k) && Apart(k, Apply(ZK_RULES, step, u), Apply(ZK_RULES, step, w))
  {
    if EraseOver(step, k) {
      PruneOver(step.key, k, u, w);
    } else if step.key == k {
      SetNoticed(step, k, u, w);
    } else {
      if k < step.key {
        PresentBelow(step, k, u);
        PresentBelow(step, k, w);
      }
      StepAlike(step, k, u, w);
    }
  }

  /** What a step accepted below `k` says about `k`. */
  lemma PresentBelow(step: Step, k: Key, u: Tree)
    requires Closed(ZK_RULES, u) && Accepts(ZK_RULES, step, u) && k < step.key
    ensures k in u
  {
    ParentOff(k, step.key);
    if step.Create? {
      NothingBelow(k, u, Parent(step.key));
    } else {
      NothingBelow(k, u, step.key);
    }
  }

  lemma PruneOver(j: Key, k: Key, u: Tree, w: Tree)
    requires j <= k && SameOff(k, u, w)
    ensures Prune(u, j) == Prune(w, j)
  {
  }

  /** The trees treat the step alike, and stay apart. */
  lemma StepAlike(step: Step, k: Key, u: Tree, w: Tree)
    requires Apart(k, u, w) && step.key != k && !EraseOver(step, k)
    requires k < step.key ==> k in u && k in w
    requires Accepts(ZK_RULES, step, u)
    ensures Accepts(ZK_RULES, step, w) && Answers(ZK_RULES, step, u) == Answers(ZK_RULES, step, w)
    ensures Apart(k, Apply(ZK_RULES, step, u), Apply(ZK_RULES, step, w))
    ensures k in w ==> k in Apply(ZK_RULES, step, w)
  {
    var j: Key := step.key;
    ParentOff(k, j);
    assert (j in u <==> j in w) && (j in u ==> u[j] == w[j]);
    if step.Create? {
      ReadyAlike(k, j, u, w);
    } else if step.Erase? {
      forall i: Key | i in u || i in w
        ensures j <= i && k <= i ==> k <= j
      {
        BothAbove(j, k, i);
      }
    }
  }

  lemma ReadyAlike(k: Key, j: Key, u: Tree, w: Tree)
    requires Apart(k, u, w) && (k < j ==> k in u && k in w)
    ensures ParentReady(ZK_RULES, u, j) <==> ParentReady(ZK_RULES, w, j)
  {
    var p := Parent(j);
    ParentOff(k, j);
    assert p == k || k < p || !(k <= p);
  }

  /** With a set just before, an accepted step is accepted the same unless it notices. */
  lemma StepFollows(step: Step, k: Key, u: Tree, w: Tree)
    requires Closed(ZK_RULES, u) && Closed(ZK_RULES, w) && Apart(k, u, w) && k in w
    requires Accepts(ZK_RULES, step, u) && (EraseOver(step, k) || Looks(step, k))
    ensures Accepts(ZK_RULES, step, w) && Answers(ZK_RULES, step, u) == Answers(ZK_RULES, step, w)
    ensures var x, y := Apply(ZK_RULES, step, u), Apply(ZK_RULES, step, w);
      if EraseOver(step, k) then x == y else Apart(k, x, y) && k in y
  {
    if EraseOver(step, k) {
      PruneOver(step.key, k, u, w);
      assert step.key == k || !(k <= step.key);
      assert step.key in w;
    } else if step.key != k {
      if k < step.key {
        PresentBelow(step, k, u);
      }
      StepAlike(step, k, u, w);
    }
  }

  lemma CoverLast(steps: seq<Step>, k: Key)
    requires steps != []
    ensures var init, last := steps[..|steps| - 1], steps[|steps| - 1];
      && (CoverOf(init, k).Open? ==>
            CoverOf(steps, k) == if EraseOver(last, k) then Covered else if Looks(last, k) then Open else Noticed)
      && (!CoverOf(init, k).Open? ==> CoverOf(steps, k) == CoverOf(init, k))
  {
  }

  /** The result of a transaction with a set just before, compared with the one without. */
  ghost predicate Compared(cover: Cover, k: Key, x: Tree, y: Tree) {
    match cover
    case Open => Apart(k, x, y)
    case Covered => x == y
    case Noticed => false
  }

  /** A transaction that goes through, and has not noticed the set, goes through with the set. */
  lemma {:induction false} FoldFollows(steps: seq<Step>, k: Key, u: Tree, w: Tree)
    requires Closed(ZK_RULES, u) && Closed(ZK_RULES, w) && Apart(k, u, w) && k in w
    requires Fold(ZK_RULES, steps, u).Committed? && !CoverOf(steps, k).Noticed?
    ensures var o, p := Fold(ZK_RULES, steps, u), Fold(ZK_RULES, steps, w);
      && p.Committed? && o.answers == p.answers
      && Compared(CoverOf(steps, k), k, o.tree, p.tree)
      && (CoverOf(steps, k).Open? ==> k in p.tree)
  {
    hide Closed, Apart, Accepts, Apply, Answers, CoverOf, EraseOver, Looks;
    if steps == [] {
      NoCover(k);
    } else {
      var n := |steps| - 1;
      assert steps == steps[..n] + [steps[n]];
      FoldLast(ZK_RULES, steps[..n], steps[n], u);
      FoldLast(ZK_RULES, steps[..n], steps[n], w);
      hide Fold;
      CoverLast(steps, k);
      FoldFollows(steps[..n], k, u, w);
      FoldKeepsClosed(ZK_RULES, steps[..n], u);
      FoldKeepsClosed(ZK_RULES, steps[..n], w);
      if CoverOf(steps[..n], k).Open? {
        StepFollows(steps[n], k, Fold(ZK_RULES, steps[..n], u).tree, Fold(ZK_RULES, steps[..n], w).tree);
      }
    }
  }

  lemma NoCover(k: Key)
    ensures CoverOf([], k) == Open
  {
  }

  /** The number of answers is a matter of the steps. */
  lemma {:induction false} AnswerCount(steps: seq<Step>, u: Tree, w: Tree)
    requires Fold(ZK_RULES, steps, u).Committed? && Fold(ZK_RULES, steps, w).Committed?
    ensures |Fold(ZK_RULES, steps, u).answers| == |Fold(ZK_RULES, steps, w).answers|
  {
    if steps != [] {
      AnswerCount(steps[..|steps| - 1], u, w);
    }
  }

  /** A transaction that is answered alike by two trees that are apart leaves them apart, or
      covers the difference. */
  lemma {:induction false} FoldApart(steps: seq<Step>, k: Key, u: Tree, w: Tree)
    requires Closed(ZK_RULES, u) && Closed(ZK_RULES, w) && Apart(k, u, w)
    requires Fold(ZK_RULES, steps, u).Committed? && Fold(ZK_RULES, steps, w).Committed?
    requires Fold(ZK_RULES, steps, u).answers == Fold(ZK_RULES, steps, w).answers
    ensures Compared(CoverOf(steps, k), k, Fold(ZK_RULES, steps, u).tree, Fold(ZK_RULES, steps, w).tree)
  {
    hide Closed, Apart, Accepts, Apply, Answers, CoverOf, EraseOver, Looks;
    if steps == [] {
      NoCover(k);
    } else {
      var n := |steps| - 1;
      assert steps == steps[..n] + [steps[n]];
      FoldLast(ZK_RULES, steps[..n], steps[n], u);
      FoldLast(ZK_RULES, steps[..n], steps[n], w);
      AnswerCount(steps[..n], u, w);
      hide Fold;
      var x, y := Fold(ZK_RULES, steps[..n], u), Fold(ZK_RULES, steps[..n], w);
      SplitEqual(x.answers, Answers(ZK_RULES, steps[n], x.tree), y.answers, Answers(ZK_RULES, steps[n], y.tree));
      CoverLast(steps, k);
      FoldApart(steps[..n], k, u, w);
      FoldKeepsClosed(ZK_RULES, steps[..n], u);
      FoldKeepsClosed(ZK_RULES, steps[..n], w);
      if CoverOf(steps[..n], k).Open? {
        StepApart(steps[n], k, x.tree, y.tree);
      }
    }
  }

  lemma SplitEqual(a: seq<Answer>, b: seq<Answer>, c: seq<Answer>, d: seq<Answer>)
    requires a + b == c + d && |a| == |c|
    ensures a == c && b == d
  {
    assert a == (a + b)[..|a|] && b == (a + b)[|a|..];
    assert c == (c + d)[..|c|] && d == (c + d)[|c|..];
  }

  lemma ApartCommit(a: Act, k: Key, v: string, u: Tree, w: Tree)
    requires Closed(ZK_RULES, u) && Closed(ZK_RULES, w) && Apart(k, u, w)
    requires a.ActCommit? && Do(a, u).1 == Do(a, w).1 && !Hides(a, k, v, u)
    ensures Apart(k, Do(a, u).0, Do(a, w).0)
  {
    ReadyToSet(k, v, u, w);
    hide Closed, Apart, CoverOf, Fold, SetSpec;
    if Fold(ZK_RULES, a.steps, u).Committed? {
      FoldApart(a.steps, k, u, w);
    }
  }

  /** Only a step that covers the set can undo the difference without being answered
      differently. */
  lemma StaysApart(a: Act, k: Key, v: string, u: Tree, w: Tree)
    requires Closed(ZK_RULES, u) && Closed(ZK_RULES, w) && Apart(k, u, w)
    requires Do(a, u).1 == Do(a, w).1 && !Hides(a, k, v, u)
    ensures Apart(k, Do(a, u).0, Do(a, w).0)
  {
    hide Do, Apart, Closed, Hides;
    if a.ActCommit? {
      ApartCommit(a, k, v, u, w);
    } else if a.ActErase? {
      ApartErase(a, k, v, u, w);
    } else if a.key == k {
      ApartAtKey(a, k, u, w);
    } else if k <= a.key {
      ApartBelow(a, k, u, w);
    } else {
      ApartOff(a, k, u, w);
    }
  }

  // ---------- linearizable, exactly when ----------

  lemma DoKeepsClosed(a: Act, t: Tree)
    requires Closed(ZK_RULES, t)
    ensures Closed(ZK_RULES, Do(a, t).0)
  {
    match a
    case ActCreate(k, v, lease) => CallKeepsClosed(ZK_RULES, DoCreate(k, v, lease), t);
    case ActOverwrite(k, v) => OverwriteKeepsClosed(ZK_RULES, t, k, v);
    case ActCas(k, v, version) => CallKeepsClosed(ZK_RULES, DoCas(k, v, version), t);
    case ActErase(k, version) => CallKeepsClosed(ZK_RULES, DoErase(k, version), t);
    case ActSet(k, v) => CallKeepsClosed(ZK_RULES, DoSet(k, v), t);
    case ActCommit(steps) => CallKeepsClosed(ZK_RULES, DoCommit(steps), t);
  }

  lemma {:induction false} RunKeepsClosed(acts: seq<Act>, t: Tree)
    requires Closed(ZK_RULES, t)
    ensures Closed(ZK_RULES, RunActs(acts, t).0)
  {
    if acts != [] {
      hide Do, Closed;
      var n := |acts| - 1;
      RunKeepsClosed(acts[..n], t);
      DoKeepsClosed(acts[n], RunActs(acts[..n], t).0);
    }
  }

  /** Two runs of the same steps with the same replies stay apart unless a step covers the set. */
  lemma {:induction false} RunsStayApart(acts: seq<Act>, k: Key, v: string, u: Tree, w: Tree)
    requires Closed(ZK_RULES, u) && Closed(ZK_RULES, w) && Apart(k, u, w)
    requires RunActs(acts, u).1 == RunActs(acts, w).1 && !SomeStepHides(k, v, u, acts)
    ensures Apart(k, RunActs(acts, u).0, RunActs(acts, w).0)
  {
    hide Do, Closed, Apart, Hides;
    if acts != [] {
      var n := |acts| - 1;
      var x, y := RunActs(acts[..n], u), RunActs(acts[..n], w);
      assert acts == acts[..n] + [acts[n]];
      assert x.1 == RunActs(acts, u).1[..n] && y.1 == RunActs(acts, w).1[..n];
      assert Do(acts[n], x.0).1 == RunActs(acts, u).1[n] && Do(acts[n], y.0).1 == RunActs(acts, w).1[n];
      assert forall m :: 0 <= m < n ==> acts[..n][m] == acts[m] && acts[..n][..m] == acts[..m];
      RunsStayApart(acts[..n], k, v, u, w);
      RunKeepsClosed(acts[..n], u);
      RunKeepsClosed(acts[..n], w);
      StaysApart(acts[n], k, v, x.0, y.0);
    }
  }

  /** If an atomic set after `i` steps explains a key that is gone, a later step covers it. */
  lemma ExplainedMeans(k: Key, v: string, t: Tree, acts: seq<Act>, i: nat)
    requires Closed(ZK_RULES, t) && i <= |acts| && ExplainedAt(k, v, t, acts, i)
    requires k !in RunActs(acts, t).0
    ensures SomeStepHides(k, v, t, acts)
  {
    hide *;
    var a, b := acts[..i], acts[i..];
    assert acts == a + b;
    ExplainedRuns(k, v, t, a, b);
    var u := RunActs(a, t).0;
    var w := Do(ActSet(k, v), u).0;
    RunKeepsClosed(a, t);
    DoKeepsClosed(ActSet(k, v), u);
    SetMakesApart(k, v, u);
    if !SomeStepHides(k, v, u, b) {
      RunsStayApart(b, k, v, u, w);
      NotApart(k, RunActs(b, u).0);
      assert false;
    }
    HidesLater(k, v, t, a, b);
  }

  /** The steps after the set do not notice it. */
  lemma ExplainedRuns(k: Key, v: string, t: Tree, a: seq<Act>, b: seq<Act>)
    requires ExplainedAt(k, v, t, a + b, |a|) && k !in RunActs(a + b, t).0
    ensures var u := RunActs(a, t).0;
      SetSpec(ZK_RULES, u, k, v).1.Ok? && RunActs(b, Do(ActSet(k, v), u).0) == RunActs(b, u)
  {
    hide *;
    var u, after := RunActs(a, t).0, RunActs(a + b, t).0;
    RunConcat(a, b, t);
    assert RunActs(b, u).0 == after;
    TwoStepGone(k, v, after);
    ExplainedIs(k, v, t, a + b, |a|);
    ExplainsMeans(k, v, t, a, b, after, Ok(LARGE_NUMBER));
    SetReply(k, v, u);
    assert RunActs(b, u) == (after, RunActs(b, u).1);
  }

  lemma SetReply(k: Key, v: string, u: Tree)
    ensures var x := Do(ActSet(k, v), u).1; x.Single? && x.result == SetSpec(ZK_RULES, u, k, v).1
  {
  }

  lemma ExplainsMeans(k: Key, v: string, t: Tree, a: seq<Act>, b: seq<Act>, after: Tree, r: Result<int>)
    requires Explains(k, v, t, a + b, |a|, after, r)
    ensures var u := RunActs(a, t).0;
      var (w, x) := Do(ActSet(k, v), u);
      x.Single? && x.result.Ok? && RunActs(b, w) == (after, RunActs(b, u).1)
  {
    hide RunActs, Do;
    var (u, first) := RunActs(a, t);
    var (w, x) := Do(ActSet(k, v), u);
    var rest := RunActs(b, w).1;
    RunConcat(a, b, t);
    RunInsert(a, ActSet(k, v), b, t);
    assert (a + b)[..|a|] == a && (a + b)[|a|..] == b;
    var all := first + [x] + rest;
    assert all[|a| + 1..] == rest && all[|a|] == x;
    assert (first + RunActs(b, u).1)[|a|..] == RunActs(b, u).1;
  }

  lemma HidesLater(k: Key, v: string, t: Tree, a: seq<Act>, b: seq<Act>)
    requires SomeStepHides(k, v, RunActs(a, t).0, b)
    ensures SomeStepHides(k, v, t, a + b)
  {
    hide RunActs, Hides;
    var m :| 0 <= m < |b| && Hides(b[m], k, v, RunActs(b[..m], RunActs(a, t).0).0);
    assert (a + b)[..|a| + m] == a + b[..m] && (a + b)[|a| + m] == b[m];
    RunConcat(a, b[..m], t);
  }

  lemma NotApart(k: Key, u: Tree)
    ensures !Apart(k, u, u)
  {
  }

  /** Exactly when the two-step `set` is linearizable, whatever ran between its two calls: when
      the key is still there, and the point is the second call, or when some step in between
      covers a set made just before it, and the point is there. */
  lemma SetLinearizes(k: Key, v: string, t: Tree, acts: seq<Act>)
    requires Closed(ZK_RULES, t) && k in t
    ensures (exists i :: 0 <= i <= |acts| && ExplainedAt(k, v, t, acts, i)) <==>
      k in RunActs(acts, t).0 || SomeStepHides(k, v, t, acts)
  {
    hide RunActs, ExplainedAt, Hides, Closed;
    if k in RunActs(acts, t).0 {
      ExplainedAtEnd(k, v, t, acts);
    } else {
      if i :| 0 <= i <= |acts| && ExplainedAt(k, v, t, acts, i) {
        ExplainedMeans(k, v, t, acts, i);
      }
      if SomeStepHides(k, v, t, acts) {
        var m :| 0 <= m < |acts| && Hides(acts[m], k, v, RunActs(acts[..m], t).0);
        ExplainedBefore(k, v, t, acts, m);
      }
    }
  }

  /** The step erases the key on the condition that it has a certain version, or is a transaction
      that does more to the key than look whether it is there before it erases it. */
  predicate RemovesByVersion(a: Act, k: Key, u: Tree) {
    match a
    case ActErase(j, version) => j == k && k in u && version == u[k].version
    case ActCommit(steps) => CoverOf(steps, k).Noticed?
    case _ => false
  }

  /** Some step of the run is the one that removes the key. */
  lemma {:induction false} FindRemoval(acts: seq<Act>, k: Key, t: Tree) returns (i: nat)
    requires k in t && k !in RunActs(acts, t).0
    ensures i < |acts|
    ensures k in RunActs(acts[..i], t).0 && k !in Do(acts[i], RunActs(acts[..i], t).0).0
  {
    var n := |acts| - 1;
    if k in RunActs(acts[..n], t).0 {
      i := n;
    } else {
      i := FindRemoval(acts[..n], k, t);
      assert acts[..n][..i] == acts[..i];
    }
  }

  lemma RemovalCovers(a: Act, k: Key, v: string, u: Tree)
    requires Closed(ZK_RULES, u) && k in u && k !in Do(a, u).0 && !RemovesByVersion(a, k, u)
    ensures Hides(a, k, v, u)
  {
    assert SetSpec(ZK_RULES, u, k, v).1.Ok?;
    hide Fold, CoverOf, SetSpec, Closed;
    if a.ActCommit? && CoverOf(a.steps, k).Open? && Fold(ZK_RULES, a.steps, u).Committed? {
      KeptWhileOpen(a.steps, k, u);
    }
  }

  lemma {:induction false} KeptWhileOpen(steps: seq<Step>, k: Key, u: Tree)
    requires CoverOf(steps, k).Open? && k in u && Fold(ZK_RULES, steps, u).Committed?
    ensures k in Fold(ZK_RULES, steps, u).tree
  {
    if steps != [] {
      CoverLast(steps, k);
      KeptWhileOpen(steps[..|steps| - 1], k, u);
    }
  }

  /** So it is if no other client removes the key by version. Versioned erases of the key that miss,
      and versioned erases of what lies above it, do no harm. */
  lemma UnversionedRemovals(k: Key, v: string, t: Tree, acts: seq<Act>)
    requires Closed(ZK_RULES, t) && k in t
    requires forall m :: 0 <= m < |acts| ==> !RemovesByVersion(acts[m], k, RunActs(acts[..m], t).0)
    ensures exists i :: 0 <= i <= |acts| && ExplainedAt(k, v, t, acts, i)
  {
    hide RunActs, ExplainedAt;
    SetLinearizes(k, v, t, acts);
    if k !in RunActs(acts, t).0 {
      var m := FindRemoval(acts, k, t);
      var u := RunActs(acts[..m], t).0;
      assert !RemovesByVersion(acts[m], k, u);
      RunKeepsClosed(acts[..m], t);
      RemovalCovers(acts[m], k, v, u);
    }
  }

  /** And it is not if the only step in between removes the key by version. */
  lemma VersionedEraseBreaksSet(k: Key, v: string, t: Tree, i: nat)
    requires Closed(ZK_RULES, t) && k in t && i <= 1
    ensures !ExplainedAt(k, v, t, [ActErase(k, t[k].version)], i)
  {
    var acts := [ActErase(k, t[k].version)];
    RunOne(acts[0], t);
    RunNone(t);
    assert acts[..0] == [];
    hide RunActs, ExplainedAt;
    SetLinearizes(k, v, t, acts);
  }

  /** The whole call, from the store the create met to the reply. If only the create was sent, it
      was an atomic set. Otherwise, with `acts` between the two calls, one atomic set explains
      the store and the reply exactly under the condition above. */
  lemma CallLinearizes(prefix: Path, k: Key, v: string, z: ZStore, later: ZStore, acts: seq<Act>,
                       r: Result<int>, second: bool, u: ZStore)
    requires Serves(prefix, z) && SetOutcome(prefix, k, v, z, later, r, second, u)
    requires View(prefix, later) == RunActs(acts, View(prefix, z)).0
    ensures var t := View(prefix, z);
      if second then
        (exists i :: 0 <= i <= |acts| && Explains(k, v, t, acts, i, View(prefix, u), r)) <==>
          k in View(prefix, later) || SomeStepHides(k, v, t, acts)
      else Do(ActSet(k, v), t) == (View(prefix, u), Single(r))
    ensures second && k !in View(prefix, later) ==> r == Ok(0x4000_0000_0000_0000)
  {
    hide *;
    var t := View(prefix, z);
    OutcomeIs(prefix, k, v, z, later, r, second, u);
    if second {
      ViewClosed(prefix, z);
      SetLinearizes(k, v, t, acts);
      forall i | 0 <= i <= |acts|
        ensures ExplainedAt(k, v, t, acts, i) <==> Explains(k, v, t, acts, i, View(prefix, u), r)
      {
        ExplainedIs(k, v, t, acts, i);
      }
    }
  }

  lemma OutcomeIs(prefix: Path, k: Key, v: string, z: ZStore, later: ZStore, r: Result<int>, second: bool, u: ZStore)
    requires SetOutcome(prefix, k, v, z, later, r, second, u)
    ensures second <==> k in View(prefix, z)
    ensures !second ==> Do(ActSet(k, v), View(prefix, z)) == (View(prefix, u), Single(r))
    ensures second ==>
      var w := View(prefix, later);
      && View(prefix, u) == TwoStep(k, v, w) && r == TwoStepReply(k, v, w)
      && (k !in w ==> r == Ok(0x4000_0000_0000_0000))
  {
    hide View, Overwrite, CreateSpec;
  }

  /** As long as versions stay below 2^62 - 1, the number returned for a vanished key is returned
      for nothing else, and in particular is no version. */
  lemma LargeMeansGone(prefix: Path, k: Key, v: string, z: ZStore, later: ZStore,
                       r: Result<int>, second: bool, u: ZStore)
    requires SetOutcome(prefix, k, v, z, later, r, second, u)
    requires forall j :: j in View(prefix, later) ==> View(prefix, later)[j].version < 0x4000_0000_0000_0000 - 1
    ensures r == Ok(0x4000_0000_0000_0000) <==> second && k !in View(prefix, later)
  {
    hide View;
  }
}
