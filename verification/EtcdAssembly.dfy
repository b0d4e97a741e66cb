/** Bookkeeping of the etcd commit: which response answers which operation, after a success
    and after a failure. */
module EtcdAssembly {
  import opened Errors
  import opened Keys
  import opened Encoding
  import opened Tree
  import opened EtcdStore
  import opened EtcdPlan

  // ---------- indices recorded while compiling ----------

  /** How far the operation counter advances: once per erase, although an erase puts two
      requests into the success branch. */
  function Advance(step: Step): nat {
    match step
    case Check(_, _) => 0
    case Create(_, _, _) => 1
    case Set(_, _) => 2
    case Erase(_) => 1
  }

  function OpCounter(steps: seq<Step>): nat {
    if steps == [] then 0 else OpCounter(steps[..|steps| - 1]) + Advance(steps[|steps| - 1])
  }

  datatype Slot = CreateSlot(index: nat) | SetSlot(index: nat)

  /** One slot per create and set, in user order, with the index recorded for it. */
  function Slots(steps: seq<Step>): seq<Slot> {
    if steps == [] then []
    else
      var init, last := steps[..|steps| - 1], steps[|steps| - 1];
      Slots(init) +
      match last
      case Create(_, _, _) => [CreateSlot(OpCounter(init))]
      case Set(_, _) => [SetSlot(OpCounter(init) + 1)]
      case _ => []
  }

  function CreateIndices(slots: seq<Slot>): seq<nat> {
    if slots == [] then []
    else
      var last := slots[|slots| - 1];
      CreateIndices(slots[..|slots| - 1]) + if last.CreateSlot? then [last.index] else []
  }

  function SetIndices(slots: seq<Slot>): seq<nat> {
    if slots == [] then []
    else
      var last := slots[|slots| - 1];
      SetIndices(slots[..|slots| - 1]) + if last.SetSlot? then [last.index] else []
  }

  predicate SlotsIncrease(slots: seq<Slot>) {
    forall i, j :: 0 <= i < j < |slots| ==> slots[i].index < slots[j].index
  }

  lemma {:induction false} SlotsInOrder(steps: seq<Step>)
    ensures SlotsIncrease(Slots(steps))
    ensures forall i :: 0 <= i < |Slots(steps)| ==> Slots(steps)[i].index < OpCounter(steps)
  {
    if steps != [] {
      SlotsInOrder(steps[..|steps| - 1]);
    }
  }

  // ---------- merging the two index lists ----------

  lemma {:induction false} IndicesCount(slots: seq<Slot>)
    ensures |CreateIndices(slots)| + |SetIndices(slots)| == |slots|
  {
    if slots != [] {
      IndicesCount(slots[..|slots| - 1]);
    }
  }

  /** The create indices of a prefix are a prefix, and what follows comes from later slots. */
  lemma {:induction false} CreatesSplit(slots: seq<Slot>, n: nat)
    requires n <= |slots|
    ensures var all, i := CreateIndices(slots), |CreateIndices(slots[..n])|;
      && i <= |all|
      && (forall p :: i <= p < |all| ==>
            exists m :: n <= m < |slots| && slots[m].CreateSlot? && slots[m].index == all[p])
      && (n < |slots| && slots[n].CreateSlot? ==> i < |all| && all[i] == slots[n].index)
    decreases |slots|
  {
    if n == |slots| {
      assert slots[..n] == slots;
    } else {
      var init := slots[..|slots| - 1];
      CreatesSplit(init, n);
      assert init[..n] == slots[..n];
      assert forall m :: 0 <= m < |init| ==> init[m] == slots[m];
    }
  }

  /** The same for the set indices. */
  lemma {:induction false} SetsSplit(slots: seq<Slot>, n: nat)
    requires n <= |slots|
    ensures var all, i := SetIndices(slots), |SetIndices(slots[..n])|;
      && i <= |all|
      && (forall p :: i <= p < |all| ==>
            exists m :: n <= m < |slots| && slots[m].SetSlot? && slots[m].index == all[p])
      && (n < |slots| && slots[n].SetSlot? ==> i < |all| && all[i] == slots[n].index)
    decreases |slots|
  {
    if n == |slots| {
      assert slots[..n] == slots;
    } else {
      var init := slots[..|slots| - 1];
      SetsSplit(init, n);
      assert init[..n] == slots[..n];
      assert forall m :: 0 <= m < |init| ==> init[m] == slots[m];
    }
  }

  /** The comparison the merge loop makes picks the slot that comes next in user order. */
  lemma MergePicks(slots: seq<Slot>, n: nat)
    requires SlotsIncrease(slots) && n <= |slots|
    ensures var creates, sets := CreateIndices(slots), SetIndices(slots);
      var i, j := |CreateIndices(slots[..n])|, |SetIndices(slots[..n])|;
      && i + j == n && i <= |creates| && j <= |sets|
      && (n == |slots| <==> i == |creates| && j == |sets|)
      && (n < |slots| ==>
            (slots[n].CreateSlot? <==> j == |sets| || (i != |creates| && creates[i] < sets[j])))
      && (n < |slots| && slots[n].CreateSlot? ==> i < |creates|)
      && (n < |slots| && slots[n].SetSlot? ==> j < |sets| && sets[j] == slots[n].index)
  {
    IndicesCount(slots);
    IndicesCount(slots[..n]);
    CreatesSplit(slots, n);
    SetsSplit(slots, n);
    assert n < |slots| ==> slots[n].CreateSlot? || slots[n].SetSlot?;
    hide CreateIndices, SetIndices;
    var creates, sets := CreateIndices(slots), SetIndices(slots);
    var i, j := |CreateIndices(slots[..n])|, |SetIndices(slots[..n])|;
    if n < |slots| && slots[n].CreateSlot? && j < |sets| {
      var m :| n <= m < |slots| && slots[m].SetSlot? && slots[m].index == sets[j];
      assert n < m;
    }
    if n < |slots| && slots[n].SetSlot? && i < |creates| {
      var m :| n <= m < |slots| && slots[m].CreateSlot? && slots[m].index == creates[i];
      assert n < m;
    }
  }

  // ---------- reading the answers ----------

  /** The version at an index; None where the response there is not a non-empty look-up, in
      which case what the client does is not defined. */
  function VersionAt(responses: seq<Response>, index: nat): Option<int> {
    if index < |responses| && responses[index].RangeResponse? && responses[index].kvs != []
    then Some(responses[index].kvs[0].version)
    else None
  }

  function ReadSlot(slot: Slot, responses: seq<Response>): Option<Answer> {
    match slot
    case CreateSlot(_) => Some(Answer(CREATE, 1))
    case SetSlot(index) =>
      match VersionAt(responses, index)
      case None => None
      case Some(version) => Some(Answer(SET, version))
  }

  function ReadSlots(slots: seq<Slot>, responses: seq<Response>): Option<seq<Answer>> {
    if slots == [] then Some([])
    else
      match (ReadSlots(slots[..|slots| - 1], responses), ReadSlot(slots[|slots| - 1], responses))
      case (Some(answers), Some(answer)) => Some(answers + [answer])
      case _ => None
  }

  lemma ReadSlotsSnoc(slots: seq<Slot>, slot: Slot, responses: seq<Response>)
    ensures ReadSlots(slots + [slot], responses) ==
      match (ReadSlots(slots, responses), ReadSlot(slot, responses))
      case (Some(answers), Some(answer)) => Some(answers + [answer])
      case _ => None
  {
    assert (slots + [slot])[..|slots|] == slots;
  }

  lemma {:induction false} ReadNonePrefix(slots: seq<Slot>, n: nat, responses: seq<Response>)
    requires n <= |slots| && ReadSlots(slots[..n], responses).None?
    ensures ReadSlots(slots, responses).None?
  {
    if n < |slots| {
      assert slots[..|slots| - 1][..n] == slots[..n];
      ReadNonePrefix(slots[..|slots| - 1], n, responses);
    } else {
      assert slots[..n] == slots;
    }
  }

  /** The merge loop has read the answers of the first `i + j` slots. */
  ghost predicate Merged(slots: seq<Slot>, i: nat, j: nat, responses: seq<Response>, result: seq<Answer>) {
    && i + j <= |slots|
    && i == |CreateIndices(slots[..i + j])| <= |CreateIndices(slots)|
    && j == |SetIndices(slots[..i + j])| <= |SetIndices(slots)|
    && ReadSlots(slots[..i + j], responses) == Some(result)
  }

  lemma MergeStart(slots: seq<Slot>, responses: seq<Response>)
    ensures Merged(slots, 0, 0, responses, [])
  {
    assert slots[..0] == [];
  }

  lemma MergeEnd(slots: seq<Slot>, i: nat, j: nat, responses: seq<Response>, result: seq<Answer>)
    requires SlotsIncrease(slots) && Merged(slots, i, j, responses, result)
    requires i == |CreateIndices(slots)| && j == |SetIndices(slots)|
    ensures ReadSlots(slots, responses) == Some(result)
  {
    hide CreateIndices, SetIndices, ReadSlots, SlotsIncrease;
    MergePicks(slots, i + j);
    assert slots[..|slots|] == slots;
  }

  lemma MergeStep(slots: seq<Slot>, i: nat, j: nat, responses: seq<Response>, result: seq<Answer>)
    requires SlotsIncrease(slots) && Merged(slots, i, j, responses, result)
    requires i != |CreateIndices(slots)| || j != |SetIndices(slots)|
    ensures var creates, sets := CreateIndices(slots), SetIndices(slots);
      && i <= |creates| && j <= |sets|
      && if j == |sets| || (i != |creates| && creates[i] < sets[j])
         then Merged(slots, i + 1, j, responses, result + [Answer(CREATE, 1)])
         else match VersionAt(responses, sets[j])
              case None => ReadSlots(slots, responses) == None
              case Some(version) => Merged(slots, i, j + 1, responses, result + [Answer(SET, version)])
  {
    hide CreateIndices, SetIndices, ReadSlots, SlotsIncrease, VersionAt;
    var n := i + j;
    MergePicks(slots, n);
    MergePicks(slots, n + 1);
    assert slots[..n + 1] == slots[..n] + [slots[n]];
    ReadSlotsSnoc(slots[..n], slots[n], responses);
    IndicesSnoc(slots[..n], slots[n]);
    if ReadSlots(slots[..n + 1], responses).None? {
      ReadNonePrefix(slots, n + 1, responses);
    }
  }

  /** The merge loop of `commit`: the answers in user order, or None if it reads a response that
      is not the look-up of a set. */
  method MergeAnswers(createIndices: seq<nat>, setIndices: seq<nat>, responses: seq<Response>, ghost slots: seq<Slot>)
      returns (r: Option<seq<Answer>>)
    requires SlotsIncrease(slots) && createIndices == CreateIndices(slots) && setIndices == SetIndices(slots)
    ensures r == ReadSlots(slots, responses)
  {
    hide *;
    var result: seq<Answer> := [];
    var i, j := 0, 0;
    MergeStart(slots, responses);
    while i != |createIndices| || j != |setIndices|
      invariant i <= |createIndices| && j <= |setIndices|
      invariant Merged(slots, i, j, responses, result)
      decreases |createIndices| + |setIndices| - i - j
    {
      MergeStep(slots, i, j, responses, result);
      if j == |setIndices| || (i != |createIndices| && createIndices[i] < setIndices[j]) {
        result := result + [Answer(CREATE, 1)];
        i := i + 1;
      } else {
        match VersionAt(responses, setIndices[j]) {
          case None => return None;
          case Some(version) => result := result + [Answer(SET, version)];
        }
        j := j + 1;
      }
    }
    MergeEnd(slots, i, j, responses, result);
    r := Some(result);
  }

  lemma IndicesSnoc(slots: seq<Slot>, slot: Slot)
    ensures CreateIndices(slots + [slot]) == CreateIndices(slots) + if slot.CreateSlot? then [slot.index] else []
    ensures SetIndices(slots + [slot]) == SetIndices(slots) + if slot.SetSlot? then [slot.index] else []
  {
    assert (slots + [slot])[..|slots|] == slots;
  }

  // ---------- recorded index and true position ----------

  function EraseCount(steps: seq<Step>): nat {
    if steps == [] then 0
    else EraseCount(steps[..|steps| - 1]) + if steps[|steps| - 1].Erase? then 1 else 0
  }

  /** The counter lags behind the success branch by one for every erase. */
  lemma {:induction false} CounterLags(prefix: Path, leaseId: int, steps: seq<Step>)
    ensures OpCounter(steps) + EraseCount(steps) == |Compile(prefix, leaseId, steps).success|
  {
    if steps != [] {
      var n := |steps| - 1;
      CounterLags(prefix, leaseId, steps[..n]);
    }
  }

  predicate NoSetAfterErase(steps: seq<Step>) {
    forall i, j :: 0 <= i < j < |steps| && steps[i].Erase? ==> !steps[j].Set?
  }

  lemma NoSetAfterEraseSnoc(init: seq<Step>, last: Step)
    ensures NoSetAfterErase(init + [last]) <==>
      NoSetAfterErase(init) && (last.Set? ==> EraseCount(init) == 0)
  {
    var steps := init + [last];
    assert forall i :: 0 <= i < |init| ==> steps[i] == init[i];
    assert steps[|init|] == last;
    CountZero(init);
  }

  lemma {:induction false} CountZero(steps: seq<Step>)
    ensures EraseCount(steps) == 0 <==> forall i :: 0 <= i < |steps| ==> !steps[i].Erase?
  {
    if steps != [] {
      CountZero(steps[..|steps| - 1]);
    }
  }

  predicate NoLookupFrom(qs: seq<Request>, from: nat) {
    forall p :: from <= p < |qs| ==> !qs[p].Range?
  }

  lemma NoLookupConcat(qs: seq<Request>, more: seq<Request>, from: nat, later: nat)
    requires from <= later && from <= |qs| && NoLookupFrom(qs, from) && NoLookupFrom(more, 0)
    ensures NoLookupFrom(qs + more, later)
  {
    assert forall p :: 0 <= p < |more| ==> !more[p].Range?;
  }

  /** From the first erase on there is no look-up in the success branch, as long as no set
      follows; that stretch is at least two requests per erase long. */
  lemma {:induction false} NoLookupAtEnd(prefix: Path, leaseId: int, steps: seq<Step>)
    requires NoSetAfterErase(steps)
    ensures var qs, e := Compile(prefix, leaseId, steps).success, EraseCount(steps);
      2 * e <= |qs| && NoLookupFrom(qs, |qs| - 2 * e)
  {
    hide *;
    if steps == [] {
      NothingCompiled(prefix, leaseId);
    } else {
      var n := |steps| - 1;
      var init, last := steps[..n], steps[n];
      assert steps == init + [last];
      NoSetAfterEraseSnoc(init, last);
      NoLookupAtEnd(prefix, leaseId, init);
      CompileSnoc(prefix, leaseId, init, last);
      PlanParts(prefix, leaseId, last);
      EraseCountSnoc(init, last);
      NoLookupStep(prefix, leaseId, Compile(prefix, leaseId, init).success, last, EraseCount(init));
      AppendSuccess(Compile(prefix, leaseId, init), Plan(prefix, leaseId, last));
    }
  }

  lemma NothingCompiled(prefix: Path, leaseId: int)
    ensures Compile(prefix, leaseId, []) == Txn([], [], []) && EraseCount([]) == 0 && NoLookupFrom([], 0)
  {
  }

  lemma AppendSuccess(a: Txn, b: Txn)
    ensures Append(a, b).success == a.success + b.success
  {
  }

  lemma NoLookupStep(prefix: Path, leaseId: int, qs: seq<Request>, last: Step, e: nat)
    requires 2 * e <= |qs| && NoLookupFrom(qs, |qs| - 2 * e) && (last.Set? ==> e == 0)
    ensures var all, now := qs + Successes(prefix, leaseId, last), e + if last.Erase? then 1 else 0;
      2 * now <= |all| && NoLookupFrom(all, |all| - 2 * now)
  {
    var more := Successes(prefix, leaseId, last);
    var now := e + if last.Erase? then 1 else 0;
    hide NoLookupFrom;
    if last.Set? {
      NoLookupPastEnd(qs + more);
    } else {
      NoLookupInStep(prefix, leaseId, last);
      NoLookupConcat(qs, more, |qs| - 2 * e, |qs + more| - 2 * now);
    }
  }

  lemma EraseCountSnoc(init: seq<Step>, last: Step)
    ensures EraseCount(init + [last]) == EraseCount(init) + if last.Erase? then 1 else 0
  {
    assert (init + [last])[..|init|] == init;
  }

  lemma NoLookupPastEnd(qs: seq<Request>)
    ensures NoLookupFrom(qs, |qs|)
  {
  }

  lemma NoLookupInStep(prefix: Path, leaseId: int, step: Step)
    requires !step.Set?
    ensures NoLookupFrom(Successes(prefix, leaseId, step), 0)
  {
  }

  // ---------- the responses of a success ----------

  /** The responses of the success branch. */
  function Responses(prefix: Path, leaseId: int, steps: seq<Step>, s: Store, revision: int): seq<Response> {
    Run(Compile(prefix, leaseId, steps).success, s, revision).1
  }

  lemma {:induction false} ReplyKinds(qs: seq<Request>, s: Store, revision: int)
    ensures forall p :: 0 <= p < |qs| ==> (Run(qs, s, revision).1[p].RangeResponse? <==> qs[p].Range?)
  {
    if qs != [] {
      ReplyKinds(qs[..|qs| - 1], s, revision);
    }
  }

  /** Indices below the length already reached read the same from a longer list. */
  lemma {:induction false} ReadExtend(slots: seq<Slot>, a: seq<Response>, b: seq<Response>)
    requires forall i :: 0 <= i < |slots| ==> slots[i].index < |a|
    ensures ReadSlots(slots, a + b) == ReadSlots(slots, a)
  {
    if slots != [] {
      ReadExtend(slots[..|slots| - 1], a, b);
    }
  }

  lemma SlotsBelow(prefix: Path, leaseId: int, steps: seq<Step>, s: Store, revision: int)
    ensures forall i :: 0 <= i < |Slots(steps)| ==>
      Slots(steps)[i].index < |Responses(prefix, leaseId, steps, s, revision)|
  {
    SlotsInOrder(steps);
    CounterLags(prefix, leaseId, steps);
  }

  lemma ResponsesSnoc(prefix: Path, leaseId: int, init: seq<Step>, last: Step, s: Store, revision: int)
    ensures var u := Run(Compile(prefix, leaseId, init).success, s, revision).0;
      Responses(prefix, leaseId, init + [last], s, revision) ==
      Responses(prefix, leaseId, init, s, revision) + Run(Successes(prefix, leaseId, last), u, revision).1
  {
    hide Run, Compile;
    CompileSnoc(prefix, leaseId, init, last);
    RunConcat(Compile(prefix, leaseId, init).success, Successes(prefix, leaseId, last), s, revision);
  }

  lemma SlotsSnoc(init: seq<Step>, last: Step)
    ensures Slots(init + [last]) == Slots(init) +
      match last
      case Create(_, _, _) => [CreateSlot(OpCounter(init))]
      case Set(_, _) => [SetSlot(OpCounter(init) + 1)]
      case _ => []
  {
    assert (init + [last])[..|init|] == init;
  }

  /** A set after an erase reads a response that is no look-up. */
  lemma {:induction false} SetAfterEraseFaults(prefix: Path, leaseId: int, steps: seq<Step>, s: Store, revision: int)
    requires !NoSetAfterErase(steps)
    ensures ReadSlots(Slots(steps), Responses(prefix, leaseId, steps, s, revision)).None?
  {
    if steps != [] {
      var n := |steps| - 1;
      var init, last := steps[..n], steps[n];
      assert steps == init + [last];
      NoSetAfterEraseSnoc(init, last);
      SlotsSnoc(init, last);
      ResponsesSnoc(prefix, leaseId, init, last, s, revision);
      var now, all := Responses(prefix, leaseId, init, s, revision), Responses(prefix, leaseId, steps, s, revision);
      hide NoSetAfterErase, Slots, Responses, Run;
      if !NoSetAfterErase(init) {
        SetAfterEraseFaults(prefix, leaseId, init, s, revision);
        SlotsBelow(prefix, leaseId, init, s, revision);
        ReadExtend(Slots(init), now, all[|now|..]);
        assert all == now + all[|now|..];
        assert Slots(steps)[..|Slots(init)|] == Slots(init);
        ReadNonePrefix(Slots(steps), |Slots(init)|, all);
      } else {
        LateSetFaults(prefix, leaseId, init, last, s, revision);
        ReadSlotsSnoc(Slots(init), SetSlot(OpCounter(init) + 1), all);
      }
    }
  }

  lemma LateSetFaults(prefix: Path, leaseId: int, init: seq<Step>, last: Step, s: Store, revision: int)
    requires NoSetAfterErase(init) && last.Set? && EraseCount(init) > 0
    ensures VersionAt(Responses(prefix, leaseId, init + [last], s, revision), OpCounter(init) + 1).None?
  {
    hide Run, Compile, NoSetAfterErase;
    CounterLags(prefix, leaseId, init);
    NoLookupAtEnd(prefix, leaseId, init);
    CompileSnoc(prefix, leaseId, init, last);
    PlanParts(prefix, leaseId, last);
    hide Plan;
    var head, index := Compile(prefix, leaseId, init).success, OpCounter(init) + 1;
    var more := Successes(prefix, leaseId, last);
    var all := head + more;
    assert !all[index].Range?;
    ReplyKinds(head + more, s, revision);
  }

  /** The answers of a success: a create is answered with version one, a set with one more than
      the version the earlier steps leave. */
  function BlindAnswers(steps: seq<Step>, t: Tree): seq<Answer> {
    if steps == [] then []
    else
      var init, last := steps[..|steps| - 1], steps[|steps| - 1];
      BlindAnswers(init, t) + BlindAnswer(last, BlindAll(init, t))
  }

  function BlindAnswer(step: Step, t: Tree): seq<Answer> {
    match step
    case Create(_, _, _) => [Answer(CREATE, 1)]
    case Set(k, _) => [Answer(SET, if k in t then t[k].version + 1 else 1)]
    case _ => []
  }

  lemma BlindAnswersSnoc(init: seq<Step>, last: Step, t: Tree)
    ensures BlindAnswers(init + [last], t) == BlindAnswers(init, t) + BlindAnswer(last, BlindAll(init, t))
    ensures BlindAll(init + [last], t) == Blind(last, BlindAll(init, t))
  {
    assert (init + [last])[..|init|] == init;
  }

  /** Without a set after an erase these are the answers read, whatever the store. */
  lemma {:induction false} AnswersRead(prefix: Path, leaseId: int, steps: seq<Step>, s: Store, revision: int)
    requires leaseId != 0 && NoSetAfterErase(steps)
    ensures ReadSlots(Slots(steps), Responses(prefix, leaseId, steps, s, revision)) ==
      Some(BlindAnswers(steps, View(prefix, s)))
  {
    hide View, Run;
    if steps == [] {
      assert Slots(steps) == [];
    } else {
      var n := |steps| - 1;
      var init, last := steps[..n], steps[n];
      assert steps == init + [last];
      NoSetAfterEraseSnoc(init, last);
      AnswersRead(prefix, leaseId, init, s, revision);
      hide NoSetAfterErase, Slots, ReadSlots, BlindAnswers;
      AnswersStep(prefix, leaseId, init, last, s, revision);
    }
  }

  lemma AnswersStep(prefix: Path, leaseId: int, init: seq<Step>, last: Step, s: Store, revision: int)
    requires leaseId != 0 && (last.Set? ==> EraseCount(init) == 0)
    requires ReadSlots(Slots(init), Responses(prefix, leaseId, init, s, revision)) ==
      Some(BlindAnswers(init, View(prefix, s)))
    ensures ReadSlots(Slots(init + [last]), Responses(prefix, leaseId, init + [last], s, revision)) ==
      Some(BlindAnswers(init + [last], View(prefix, s)))
  {
    hide View, Run, Compile, Slots, ReadSlots, BlindAnswers, BlindAll;
    var now := Responses(prefix, leaseId, init, s, revision);
    var u := Run(Compile(prefix, leaseId, init).success, s, revision).0;
    var more := Run(Successes(prefix, leaseId, last), u, revision).1;
    ResponsesSnoc(prefix, leaseId, init, last, s, revision);
    SlotsSnoc(init, last);
    BlindAnswersSnoc(init, last, View(prefix, s));
    SuccessRunsBlind(prefix, leaseId, init, s, revision);
    SlotsBelow(prefix, leaseId, init, s, revision);
    ResponsesLength(prefix, leaseId, init, s, revision);
    hide Responses;
    ReadExtend(Slots(init), now, more);
    match last {
      case Create(_, _, _) => ReadSlotsSnoc(Slots(init), CreateSlot(OpCounter(init)), now + more);
      case Set(_, _) =>
        SetReply(prefix, leaseId, last, u, revision);
        CounterLags(prefix, leaseId, init);
        assert (now + more)[|now| + 1] == more[1];
        ReadSlotsSnoc(Slots(init), SetSlot(OpCounter(init) + 1), now + more);
      case _ =>
        var answers := BlindAnswers(init, View(prefix, s));
        assert Slots(init + [last]) == Slots(init) && answers + [] == answers;
    }
  }

  /** Where the fold commits, tree and answers are the fold's. */
  lemma {:induction false} BlindIsFold(steps: seq<Step>, t: Tree)
    requires Fold(ETCD_RULES, steps, t).Committed?
    ensures BlindAll(steps, t) == Fold(ETCD_RULES, steps, t).tree
    ensures BlindAnswers(steps, t) == Fold(ETCD_RULES, steps, t).answers
  {
    if steps != [] {
      var n := |steps| - 1;
      BlindIsFold(steps[..n], t);
      BlindIsApply(steps[n], BlindAll(steps[..n], t));
    }
  }

  /** In a transaction etcd accepts, a set is answered with one more than the version the key had
      before the transaction. */
  lemma SetAnswersOld(steps: seq<Step>, t: Tree, i: nat)
    requires KeysApart(steps) && i < |steps| && steps[i].Set?
    ensures var k := steps[i].key;
      BlindAnswer(steps[i], BlindAll(steps[..i], t)) == [Answer(SET, if k in t then t[k].version + 1 else 1)]
  {
    Untouched(steps[..i], t, steps[i].key) by {
      forall j | 0 <= j < i
        ensures !Touches(steps[..i][j], steps[i].key)
      {
        assert !StepsClash(steps[j], steps[i]);
      }
    }
  }

  predicate Touches(step: Step, k: Key) {
    ((step.Create? || step.Set?) && step.key == k) || (step.Erase? && step.key <= k)
  }

  lemma {:induction false} Untouched(steps: seq<Step>, t: Tree, k: Key)
    requires forall j :: 0 <= j < |steps| ==> !Touches(steps[j], k)
    ensures k in BlindAll(steps, t) <==> k in t
    ensures k in t ==> BlindAll(steps, t)[k] == t[k]
  {
    if steps != [] {
      Untouched(steps[..|steps| - 1], t, k);
    }
  }

  lemma ResponsesLength(prefix: Path, leaseId: int, steps: seq<Step>, s: Store, revision: int)
    ensures |Responses(prefix, leaseId, steps, s, revision)| == |Compile(prefix, leaseId, steps).success|
  {
  }

  lemma SetReply(prefix: Path, leaseId: int, step: Step, s: Store, revision: int)
    requires step.Set?
    ensures var more, t := Run(Successes(prefix, leaseId, step), s, revision).1, View(prefix, s);
      |more| == 2 && VersionAt(more, 1) == Some(if step.key in t then t[step.key].version + 1 else 1)
  {
    hide View, Run, EtcdName;
    ViewIs(prefix, s);
    var qs := Successes(prefix, leaseId, step);
    Run2(qs[0], qs[1], s, revision);
  }

  /** Without a set after an erase, every index recorded is that of a non-empty look-up. */
  lemma {:induction false} ReadableBeforeErases(prefix: Path, leaseId: int, steps: seq<Step>, s: Store, revision: int)
    requires NoSetAfterErase(steps)
    ensures ReadSlots(Slots(steps), Responses(prefix, leaseId, steps, s, revision)).Some?
  {
    hide Run, Compile;
    if steps != [] {
      var n := |steps| - 1;
      var init, last := steps[..n], steps[n];
      assert steps == init + [last];
      NoSetAfterEraseSnoc(init, last);
      hide NoSetAfterErase, Slots, ReadSlots;
      ReadableBeforeErases(prefix, leaseId, init, s, revision);
      var now := Responses(prefix, leaseId, init, s, revision);
      var u := Run(Compile(prefix, leaseId, init).success, s, revision).0;
      var more := Run(Successes(prefix, leaseId, last), u, revision).1;
      ResponsesSnoc(prefix, leaseId, init, last, s, revision);
      SlotsSnoc(init, last);
      SlotsBelow(prefix, leaseId, init, s, revision);
      ResponsesLength(prefix, leaseId, init, s, revision);
      hide Responses;
      ReadExtend(Slots(init), now, more);
      match last {
        case Create(_, _, _) => ReadSlotsSnoc(Slots(init), CreateSlot(OpCounter(init)), now + more);
        case Set(_, _) =>
          SetReplies(prefix, leaseId, last, u, revision);
          CounterLags(prefix, leaseId, init);
          assert (now + more)[|now| + 1] == more[1];
          ReadSlotsSnoc(Slots(init), SetSlot(OpCounter(init) + 1), now + more);
        case _ =>
          assert Slots(steps) == Slots(init);
      }
    }
  }

  lemma SetReplies(prefix: Path, leaseId: int, step: Step, s: Store, revision: int)
    requires step.Set?
    ensures var more := Run(Successes(prefix, leaseId, step), s, revision).1; |more| == 2 && VersionAt(more, 1).Some?
  {
    hide Run, EtcdName;
    var qs := Successes(prefix, leaseId, step);
    Run2(qs[0], qs[1], s, revision);
  }

  /** For every transaction and every store: the answers can be read off the success responses
      if and only if no set follows an erase. */
  lemma ReadableExactly(prefix: Path, leaseId: int, steps: seq<Step>, s: Store, revision: int)
    ensures ReadSlots(Slots(steps), Responses(prefix, leaseId, steps, s, revision)).Some? <==> NoSetAfterErase(steps)
  {
    if NoSetAfterErase(steps) {
      ReadableBeforeErases(prefix, leaseId, steps, s, revision);
    } else {
      SetAfterEraseFaults(prefix, leaseId, steps, s, revision);
    }
  }
}
