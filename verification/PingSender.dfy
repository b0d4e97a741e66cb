/** Ownership of a ping control block: a sender object closes it, a detached thread deletes it.
    Every interleaving of creating, moving, assigning and destroying senders with the threads
    is considered; the control block's mutex makes the single steps atomic. */
module PingSender {
  import opened Errors

  datatype Lock = Free | ByCloser | ByThread

  /** Where the detached thread is: asleep in `wait`, in `wait` with the mutex, running the
      callback, past the loop, or finished. */
  datatype ThreadPc = Waiting | Holding | Calling | Leaving | Gone

  datatype Control = Control(closed: bool, closes: nat, lock: Lock, deleted: bool, pc: ThreadPc)

  /** How far a `destroy_` has come: before `close` takes the mutex, with the mutex, with
      `closed_` set and the thread notified, or with the mutex released again. */
  datatype Stage = Entered | Locked | Marked | Released

  /** What follows the `destroy_`: the end of the sender, or taking over another one's block. */
  datatype After = EndSender | TakeFrom(source: int)

  datatype Closing = Closing(control: int, stage: Stage, then_: After)

  /** `broken` is set when a deleted block is used. */
  datatype State = State(
    controls: map<int, Control>,
    senders: map<int, Option<int>>,
    closing: map<int, Closing>,
    broken: bool)

  const INITIAL := State(map[], map[], map[], false)

  datatype Step =
    | CreateEmpty(d: int)
    | Create(d: int, c: int)
    | MoveInto(d: int, source: int)
    | Assign(d: int, source: int)
    | Destroy(d: int)
    | CloserLocks(d: int)
    | CloserMarks(d: int)
    | CloserReleases(d: int)
    | Finish(d: int)
    | ThreadLocks(c: int)
    | ThreadLooks(c: int, timedOut: bool)
    | ThreadPings(c: int)
    | ThreadDeletes(c: int)

  /** A sender that some operation in progress works on. Using one object from two operations at
      once is the caller's error and not considered. */
  predicate Busy(s: State, d: int) {
    d in s.closing || exists e :: e in s.closing && s.closing[e].then_ == TakeFrom(d)
  }

  predicate Idle(s: State, d: int) {
    d in s.senders && !Busy(s, d)
  }

  predicate AtStage(s: State, d: int, stage: Stage) {
    d in s.closing && s.closing[d].stage == stage && s.closing[d].control in s.controls
  }

  predicate Enabled(s: State, step: Step) {
    match step
    case CreateEmpty(d) => d !in s.senders
    case Create(d, c) => d !in s.senders && c !in s.controls
    case MoveInto(d, source) => d !in s.senders && Idle(s, source)
    case Assign(d, source) => Idle(s, d) && Idle(s, source)
    case Destroy(d) => Idle(s, d)
    case CloserLocks(d) => AtStage(s, d, Entered) && s.controls[s.closing[d].control].lock.Free?
    case CloserMarks(d) => AtStage(s, d, Locked)
    case CloserReleases(d) => AtStage(s, d, Marked)
    case Finish(d) => AtStage(s, d, Released) && d in s.senders &&
      (s.closing[d].then_.TakeFrom? ==> s.closing[d].then_.source in s.senders)
    case ThreadLocks(c) => c in s.controls && s.controls[c].pc.Waiting? && s.controls[c].lock.Free?
    case ThreadLooks(c, _) => c in s.controls && s.controls[c].pc.Holding?
    case ThreadPings(c) => c in s.controls && s.controls[c].pc.Calling?
    case ThreadDeletes(c) => c in s.controls && s.controls[c].pc.Leaving?
  }

  /** Use of a block: harmless unless it has been deleted. */
  function Touch(s: State, c: int, now: Control): State
    requires c in s.controls
  {
    s.(controls := s.controls[c := now], broken := s.broken || s.controls[c].deleted)
  }

  function AtNext(s: State, d: int, stage: Stage): State
    requires d in s.closing
  {
    s.(closing := s.closing[d := s.closing[d].(stage := stage)])
  }

  function Next(s: State, step: Step): State
    requires Enabled(s, step)
  {
    match step
    case CreateEmpty(d) => s.(senders := s.senders[d := None])
    case Create(d, c) =>
      s.(senders := s.senders[d := Some(c)], controls := s.controls[c := Control(false, 0, Free, false, Waiting)])
    case MoveInto(d, source) => s.(senders := s.senders[d := s.senders[source]][source := None])
    case Assign(d, source) =>
      (match s.senders[d]
       case None => s.(senders := s.senders[d := s.senders[source]][source := None])
       case Some(c) => s.(closing := s.closing[d := Closing(c, Entered, TakeFrom(source))]))
    case Destroy(d) =>
      (match s.senders[d]
       case None => s.(senders := s.senders - {d})
       case Some(c) => s.(closing := s.closing[d := Closing(c, Entered, EndSender)]))
    case CloserLocks(d) =>
      var c := s.closing[d].control;
      AtNext(Touch(s, c, s.controls[c].(lock := ByCloser)), d, Locked)
    case CloserMarks(d) =>
      var c := s.closing[d].control;
      AtNext(Touch(s, c, s.controls[c].(closed := true, closes := s.controls[c].closes + 1)), d, Marked)
    case CloserReleases(d) =>
      var c := s.closing[d].control;
      AtNext(Touch(s, c, s.controls[c].(lock := Free)), d, Released)
    case Finish(d) =>
      (match s.closing[d].then_
       case EndSender => s.(senders := s.senders - {d}, closing := s.closing - {d})
       case TakeFrom(source) =>
         s.(senders := s.senders[d := s.senders[source]][source := None], closing := s.closing - {d}))
    case ThreadLocks(c) => Touch(s, c, s.controls[c].(lock := ByThread, pc := Holding))
    case ThreadLooks(c, timedOut) =>
      Touch(s, c, s.controls[c].(lock := Free,
        pc := if s.controls[c].closed then Leaving else if timedOut then Calling else Waiting))
    case ThreadPings(c) => Touch(s, c, s.controls[c].(pc := Waiting))
    case ThreadDeletes(c) => Touch(s, c, s.controls[c].(deleted := true, pc := Gone))
  }

  // ---------- the invariant ----------

  predicate Owns(s: State, d: int, c: int) {
    d in s.senders && s.senders[d] == Some(c)
  }

  /** The stage a control block's closing has reached, seen from the block. */
  ghost predicate ControlOk(x: Control) {
    && x.closes == (if x.closed then 1 else 0)
    && (x.deleted <==> x.pc.Gone?)
    && (x.pc.Leaving? || x.pc.Gone? ==> x.closed && x.lock.Free?)
    && (x.lock.ByThread? <==> x.pc.Holding?)
  }

  ghost predicate StageOk(x: Control, stage: Stage) {
    match stage
    case Entered => !x.closed && !x.lock.ByCloser?
    case Locked => !x.closed && x.lock.ByCloser?
    case Marked => x.closed && x.lock.ByCloser?
    case Released => x.closed && !x.lock.ByCloser?
  }

  /** A block has at most one holder. A holder that is not closing its block holds an open one;
      a block the closer has locked is being closed by its holder. */
  ghost predicate Invariant(s: State) {
    !s.broken && ControlsOk(s) && HoldersOk(s) && ClosingOk(s) && SourcesOk(s)
  }

  ghost predicate ControlsOk(s: State) {
    && (forall c :: c in s.controls ==> ControlOk(s.controls[c]))
    && (forall c :: c in s.controls && s.controls[c].lock.ByCloser? ==> BeingClosed(s, c))
  }

  ghost predicate BeingClosed(s: State, c: int) {
    exists d :: d in s.closing && s.closing[d].control == c
  }

  ghost predicate HoldersOk(s: State) {
    HeldOnce(s) && HeldOpen(s)
  }

  ghost predicate HeldOnce(s: State) {
    && (forall d, e ::
          d in s.senders && e in s.senders && s.senders[d].Some? && s.senders[d] == s.senders[e] ==> d == e)
    && (forall d :: d in s.senders && s.senders[d].Some? ==> s.senders[d].value in s.controls)
  }

  ghost predicate HeldOpen(s: State)
    requires HeldOnce(s)
  {
    forall d :: d in s.senders && s.senders[d].Some? && d !in s.closing ==>
      !s.controls[s.senders[d].value].closed && !s.controls[s.senders[d].value].lock.ByCloser?
  }

  ghost predicate ClosingOk(s: State) {
    forall d :: d in s.closing ==>
      && d in s.senders && s.senders[d] == Some(s.closing[d].control)
      && s.closing[d].control in s.controls
      && StageOk(s.controls[s.closing[d].control], s.closing[d].stage)
  }

  ghost predicate SourcesOk(s: State) {
    && (forall d :: d in s.closing && s.closing[d].then_.TakeFrom? ==> s.closing[d].then_.source in s.senders)
    && (forall d :: d in s.closing && s.closing[d].then_.TakeFrom? && s.closing[d].then_.source in s.closing ==>
          s.closing[d].then_.source == d)
    && (forall d, e :: d in s.closing && e in s.closing && s.closing[d].then_.TakeFrom? ==>
          s.closing[e].then_ == s.closing[d].then_ ==> d == e)
  }

  lemma InitialInvariant()
    ensures Invariant(INITIAL)
  {
  }

  /** Whoever has a block locked for closing has not finished with it. */
  lemma LockedIsBeingClosed(s: State, step: Step)
    requires Invariant(s) && Enabled(s, step)
    ensures var t := Next(s, step);
      forall c :: c in t.controls && t.controls[c].lock.ByCloser? ==> BeingClosed(t, c)
  {
    var t := Next(s, step);
    forall c | c in t.controls && t.controls[c].lock.ByCloser?
      ensures BeingClosed(t, c)
    {
      if step.CloserLocks? && s.closing[step.d].control == c {
        assert step.d in t.closing && t.closing[step.d].control == c;
      } else {
        assert c in s.controls && s.controls[c].lock.ByCloser?;
        assert BeingClosed(s, c);
        var d :| d in s.closing && s.closing[d].control == c;
        assert d in t.closing && t.closing[d].control == c;
      }
    }
  }

  lemma ControlsKept(s: State, step: Step)
    requires Invariant(s) && Enabled(s, step)
    ensures !Next(s, step).broken && ControlsOk(Next(s, step))
  {
    LockedIsBeingClosed(s, step);
    hide BeingClosed, SourcesOk;
  }

  lemma HeldOnceKept(s: State, step: Step)
    requires Invariant(s) && Enabled(s, step)
    ensures HeldOnce(Next(s, step))
  {
    hide ControlsOk, HeldOpen, ClosingOk, SourcesOk;
  }

  lemma HeldOpenKept(s: State, step: Step)
    requires Invariant(s) && Enabled(s, step)
    ensures HoldersOk(Next(s, step))
  {
    HeldOnceKept(s, step);
    hide BeingClosed, SourcesOk;
    if OfThread(step) {
      hide ClosingOk;
    } else {
      hide ControlOk;
    }
  }

  predicate OfThread(step: Step) {
    step.ThreadLocks? || step.ThreadLooks? || step.ThreadPings? || step.ThreadDeletes?
  }

  lemma ClosingKept(s: State, step: Step)
    requires Invariant(s) && Enabled(s, step)
    ensures ClosingOk(Next(s, step))
  {
    hide ClosingOk;
    if OfThread(step) {
      ClosingKeptByThread(s, step);
    } else {
      ClosingKeptBySender(s, step);
    }
  }

  lemma ClosingKeptByThread(s: State, step: Step)
    requires Invariant(s) && Enabled(s, step) && OfThread(step)
    ensures ClosingOk(Next(s, step))
  {
    hide BeingClosed, HoldersOk, SourcesOk;
  }

  lemma ClosingKeptBySender(s: State, step: Step)
    requires Invariant(s) && Enabled(s, step) && !OfThread(step)
    ensures ClosingOk(Next(s, step))
  {
    hide ControlsOk;
  }

  lemma SourcesKept(s: State, step: Step)
    requires Invariant(s) && Enabled(s, step)
    ensures SourcesOk(Next(s, step))
  {
    hide ControlsOk, HoldersOk, ClosingOk;
  }

  lemma StepKeeps(s: State, step: Step)
    requires Invariant(s) && Enabled(s, step)
    ensures Invariant(Next(s, step))
  {
    ControlsKept(s, step);
    HeldOpenKept(s, step);
    ClosingKept(s, step);
    SourcesKept(s, step);
    hide Next, Enabled, ControlsOk, HoldersOk, ClosingOk, SourcesOk;
  }

  // ---------- the objects, one thread at a time ----------

  class PingControl {
    var closed: bool
    ghost var closes: nat

    constructor ()
      ensures !closed && closes == 0
    {
      closed, closes := false, 0;
    }

    /** `close`: locks, marks, notifies and unlocks. */
    method Close()
      modifies this
      ensures closed && closes == old(closes) + 1
    {
      closed, closes := true, closes + 1;
    }
  }

  class PingSender {
    var ctl: PingControl?

    constructor Empty()
      ensures ctl == null
    {
      ctl := null;
    }

    constructor Start()
      ensures ctl != null && fresh(ctl) && !ctl.closed && ctl.closes == 0
    {
      ctl := new PingControl();
    }

    constructor MoveFrom(that: PingSender)
      modifies that`ctl
      ensures ctl == old(that.ctl) && that.ctl == null
    {
      ctl := that.ctl;
      new;
      that.ctl := null;
    }

    /** `destroy_`, which is all that the destructor does. */
    method Destroy()
      modifies ctl
      ensures ctl != null ==> ctl.closed && ctl.closes == old(ctl.closes) + 1
    {
      if ctl != null {
        ctl.Close();
      }
    }

    /** Move assignment. The block held before is closed once, the other sender's block changes
        hands without being closed, and assigning a sender to itself leaves it empty. */
    method MoveAssign(that: PingSender)
      modifies this`ctl, that`ctl, ctl
      ensures that.ctl == null
      ensures that != this ==> ctl == old(that.ctl)
      ensures old(ctl) != null ==> old(ctl).closed && old(ctl).closes == old(ctl.closes) + 1
      ensures that != this && old(that.ctl) != null && old(that.ctl) != old(ctl) ==>
        old(that.ctl).closed == old(that.ctl.closed) && old(that.ctl).closes == old(that.ctl.closes)
    {
      Destroy();
      ctl := that.ctl;
      that.ctl := null;
    }
  }

  /** What `MoveAssign` says about the objects, said about the state. */
  function Assigned(s: State, d: int, source: int): State
    requires Enabled(s, Assign(d, source)) && (s.senders[d].Some? ==> s.senders[d].value in s.controls)
  {
    var t := s.(senders := s.senders[d := s.senders[source]][source := None]);
    match s.senders[d]
    case None => t
    case Some(c) => t.(controls := s.controls[c := s.controls[c].(closed := true, closes := s.controls[c].closes + 1)])
  }

  // ---------- whole runs ----------

  ghost predicate Run(states: seq<State>, steps: seq<Step>) {
    && |states| == |steps| + 1
    && (forall i :: 0 <= i < |steps| ==> Enabled(states[i], steps[i]) && states[i + 1] == Next(states[i], steps[i]))
  }

  /** A move assignment with nothing in between its critical sections. */
  function AssignSteps(s: State, d: int, source: int): seq<Step>
    requires d in s.senders
  {
    [Assign(d, source)] +
    if s.senders[d].None? then [] else [CloserLocks(d), CloserMarks(d), CloserReleases(d), Finish(d)]
  }

  /** It amounts to what the object's method says. */
  lemma AssignAlone(s: State, d: int, source: int) returns (states: seq<State>)
    requires Invariant(s) && Enabled(s, Assign(d, source))
    requires s.senders[d].Some? ==> s.controls[s.senders[d].value].lock.Free?
    ensures Run(states, AssignSteps(s, d, source)) && states[0] == s
    ensures states[|states| - 1] == Assigned(s, d, source)
  {
    match s.senders[d]
    case None =>
      states := [s, Next(s, Assign(d, source))];
    case Some(_) =>
      var t1, t2, t3, t4, t5 := CloseAlone(s, d, source);
      hide Next, Enabled, Invariant, Assigned;
      states := [s, t1, t2, t3, t4, t5];
      assert AssignSteps(s, d, source)[0] == Assign(d, source);
  }

  lemma CloseAlone(s: State, d: int, source: int) returns (t1: State, t2: State, t3: State, t4: State, t5: State)
    requires Invariant(s) && Enabled(s, Assign(d, source))
    requires s.senders[d].Some? && s.controls[s.senders[d].value].lock.Free?
    ensures t1 == Next(s, Assign(d, source)) && Enabled(t1, CloserLocks(d))
    ensures t2 == Next(t1, CloserLocks(d)) && Enabled(t2, CloserMarks(d))
    ensures t3 == Next(t2, CloserMarks(d)) && Enabled(t3, CloserReleases(d))
    ensures t4 == Next(t3, CloserReleases(d)) && Enabled(t4, Finish(d))
    ensures t5 == Next(t4, Finish(d)) == Assigned(s, d, source)
  {
    var c := s.senders[d].value;
    assert !s.controls[c].deleted && d !in s.closing;
    t1 := Next(s, Assign(d, source));
    hide Invariant, Busy;
    t2, t3 := CloseFirst(s, t1, d, c, source);
    hide Next;
    t4, t5 := CloseSecond(s, t3, d, c, source);
  }

  lemma CloseSecond(s: State, t3: State, d: int, c: int, source: int) returns (t4: State, t5: State)
    requires d in s.senders && s.senders[d] == Some(c) && d !in s.closing && source in s.senders
    requires c in s.controls && s.controls[c].lock.Free? && !s.controls[c].deleted
    requires Enabled(s, Assign(d, source))
    requires var x := s.controls[c];
      t3 == s.(
        closing := s.closing[d := Closing(c, Marked, TakeFrom(source))],
        controls := s.controls[c := x.(lock := ByCloser, closed := true, closes := x.closes + 1)])
    ensures Enabled(t3, CloserReleases(d)) && t4 == Next(t3, CloserReleases(d))
    ensures Enabled(t4, Finish(d)) && t5 == Next(t4, Finish(d)) == Assigned(s, d, source)
  {
    hide Busy;
    t4 := Next(t3, CloserReleases(d));
    t5 := Next(t4, Finish(d));
    assert t4.controls == s.controls[c := s.controls[c].(closed := true, closes := s.controls[c].closes + 1)];
    assert t5.closing == s.closing;
  }

  lemma CloseFirst(s: State, t1: State, d: int, c: int, source: int) returns (t2: State, t3: State)
    requires c in s.controls && s.controls[c].lock.Free? && !s.controls[c].deleted
    requires t1 == s.(closing := s.closing[d := Closing(c, Entered, TakeFrom(source))])
    ensures Enabled(t1, CloserLocks(d)) && t2 == Next(t1, CloserLocks(d))
    ensures Enabled(t2, CloserMarks(d)) && t3 == Next(t2, CloserMarks(d))
    ensures var x := s.controls[c];
      t3 == s.(
        closing := s.closing[d := Closing(c, Marked, TakeFrom(source))],
        controls := s.controls[c := x.(lock := ByCloser, closed := true, closes := x.closes + 1)])
  {
    var x := s.controls[c];
    t2 := s.(
      closing := s.closing[d := Closing(c, Locked, TakeFrom(source))],
      controls := s.controls[c := x.(lock := ByCloser)]);
    assert Next(t1, CloserLocks(d)).closing == t2.closing;
    t3 := Next(t2, CloserMarks(d));
    assert t3.closing == s.closing[d := Closing(c, Marked, TakeFrom(source))];
    assert t3.controls == s.controls[c := x.(lock := ByCloser, closed := true, closes := x.closes + 1)];
  }

  lemma {:induction false} RunKeeps(states: seq<State>, steps: seq<Step>, n: nat)
    requires Run(states, steps) && states[0] == INITIAL && n < |states|
    ensures Invariant(states[n])
  {
    if n == 0 {
      InitialInvariant();
    } else {
      RunKeeps(states, steps, n - 1);
      StepKeeps(states[n - 1], steps[n - 1]);
      assert states[n - 1 + 1] == Next(states[n - 1], steps[n - 1]);
    }
  }

  /** In every interleaving: no deleted block is used, no block has two holders or is closed
      twice, and a deleted block has been closed, is unlocked, and is held at most by a sender
      that has already let go of the mutex. */
  lemma RunIsSafe(states: seq<State>, steps: seq<Step>, n: nat)
    requires Run(states, steps) && states[0] == INITIAL && n < |states|
    ensures var s := states[n];
      && !s.broken
      && (forall d, e, c :: Owns(s, d, c) && Owns(s, e, c) ==> d == e)
      && (forall c :: c in s.controls ==> s.controls[c].closes <= 1)
      && (forall c :: c in s.controls && s.controls[c].deleted ==> s.controls[c].closed && s.controls[c].lock.Free?)
      && (forall c, d :: c in s.controls && s.controls[c].deleted && Owns(s, d, c) ==>
            d in s.closing && s.closing[d].stage.Released?)
  {
    RunKeeps(states, steps, n);
  }

  /** A block whose last holder is gone, or has let go, is closed: its thread will leave the loop
      the next time it looks. */
  ghost predicate AbandonedAreClosed(s: State) {
    forall c :: c in s.controls && !s.controls[c].closed ==> exists d :: Owns(s, d, c)
  }

  lemma AbandonedKeeps(s: State, step: Step)
    requires Invariant(s) && AbandonedAreClosed(s) && Enabled(s, step)
    ensures AbandonedAreClosed(Next(s, step))
  {
    var t := Next(s, step);
    forall c | c in t.controls && !t.controls[c].closed
      ensures exists d :: Owns(t, d, c)
    {
      if step.Create? && step.c == c {
        assert Owns(t, step.d, c);
      } else {
        var d :| Owns(s, d, c);
        StillOwned(s, step, d, c);
      }
    }
  }

  lemma StillOwned(s: State, step: Step, d: int, c: int)
    requires Invariant(s) && Enabled(s, step) && Owns(s, d, c) && !Next(s, step).controls[c].closed
    ensures exists e :: Owns(Next(s, step), e, c)
  {
    var t := Next(s, step);
    if (step.MoveInto? || step.Assign?) && step.source == d {
      assert Owns(t, step.d, c) || Owns(t, d, c);
    } else if step.Finish? && s.closing[step.d].then_ == TakeFrom(d) {
      assert Owns(t, step.d, c) || Owns(t, d, c);
    } else {
      assert Owns(t, d, c);
    }
  }

  /** No ping thread is leaked: in every run, a block without a holder is closed. */
  lemma {:induction false} NoLeak(states: seq<State>, steps: seq<Step>, n: nat)
    requires Run(states, steps) && states[0] == INITIAL && n < |states|
    ensures AbandonedAreClosed(states[n])
  {
    hide Invariant, Next, Enabled;
    if n > 0 {
      hide AbandonedAreClosed;
      NoLeak(states, steps, n - 1);
      RunKeeps(states, steps, n - 1);
      AbandonedKeeps(states[n - 1], steps[n - 1]);
      assert states[n - 1 + 1] == Next(states[n - 1], steps[n - 1]);
    }
  }

  // ---------- the thread comes to its end ----------

  /** The step is one of the block's own thread. */
  predicate ByThreadOf(step: Step, c: int) {
    match step
    case ThreadLocks(x) => x == c
    case ThreadLooks(x, _) => x == c
    case ThreadPings(x) => x == c
    case ThreadDeletes(x) => x == c
    case _ => false
  }

  /** Looking at a closed block ends the loop; looking at an open one leads to the callback exactly
      if the wait has timed out. Either way the mutex is free again. */
  lemma LookDecides(s: State, c: int, timedOut: bool)
    requires Invariant(s) && Enabled(s, ThreadLooks(c, timedOut))
    ensures var x, y := s.controls[c], Next(s, ThreadLooks(c, timedOut)).controls[c];
      && (x.closed ==> y.pc == Leaving)
      && (!x.closed ==> (y.pc == Calling <==> timedOut) && (y.pc == Waiting <==> !timedOut))
      && y.lock == Free && y.closed == x.closed
  {
  }

  /** A step starts the callback of the block. */
  predicate StartsCallback(s: State, t: State, c: int) {
    c in s.controls && c in t.controls && !s.controls[c].pc.Calling? && t.controls[c].pc.Calling?
  }

  /** A closed block stays closed, and no step starts its callback any more. */
  lemma ClosedStays(s: State, step: Step, c: int)
    requires Enabled(s, step) && c in s.controls && s.controls[c].closed
    ensures var t := Next(s, step); c in t.controls && t.controls[c].closed && !StartsCallback(s, t, c)
  {
  }

  lemma {:induction false} ClosedRun(states: seq<State>, steps: seq<Step>, c: int, m: nat, n: nat)
    requires Run(states, steps) && m <= n < |states| && c in states[m].controls && states[m].controls[c].closed
    ensures c in states[n].controls && states[n].controls[c].closed
  {
    hide Enabled, Next;
    if m < n {
      ClosedRun(states, steps, c, m, n - 1);
      ClosedStays(states[n - 1], steps[n - 1], c);
      assert states[n - 1 + 1] == Next(states[n - 1], steps[n - 1]);
    }
  }

  /** In every run: once a block is closed, no callback of its thread is started. */
  lemma NoPingAfterClose(states: seq<State>, steps: seq<Step>, c: int, m: nat, n: nat)
    requires Run(states, steps) && m <= n < |steps| && c in states[m].controls && states[m].controls[c].closed
    ensures !StartsCallback(states[n], states[n + 1], c)
  {
    hide Enabled, Next, StartsCallback;
    ClosedRun(states, steps, c, m, n);
    ClosedStays(states[n], steps[n], c);
  }

  /** The steps a closed block's thread has still to take. */
  function Remaining(pc: ThreadPc, c: int): seq<Step> {
    match pc
    case Waiting => [ThreadLocks(c), ThreadLooks(c, false), ThreadDeletes(c)]
    case Holding => [ThreadLooks(c, false), ThreadDeletes(c)]
    case Calling => [ThreadPings(c), ThreadLocks(c), ThreadLooks(c, false), ThreadDeletes(c)]
    case Leaving => [ThreadDeletes(c)]
    case Gone => []
  }

  /** From every reachable state in which a block is closed, not deleted, and not locked by its
      closer, its thread can end on its own: its own steps, of which at most one finishes a
      callback, lead to a state in which the block is deleted. */
  lemma ThreadFinishes(s: State, c: int) returns (states: seq<State>, steps: seq<Step>)
    requires Invariant(s) && c in s.controls && s.controls[c].closed && !s.controls[c].lock.ByCloser?
    ensures Run(states, steps) && states[0] == s
    ensures forall i :: 0 <= i < |steps| ==> ByThreadOf(steps[i], c)
    ensures forall i, j ::
      0 <= i < |steps| && 0 <= j < |steps| && steps[i].ThreadPings? && steps[j].ThreadPings? ==> i == j
    ensures var t := states[|states| - 1];
      c in t.controls && t.controls[c].deleted && t.controls[c].pc.Gone? && !t.broken
  {
    steps := Remaining(s.controls[c].pc, c);
    assert ControlOk(s.controls[c]);
    states := Follow(s, c);
    hide Invariant, Enabled, Next;
    RunEnds(s, states, steps, |steps|);
  }

  /** One thread step further. */
  lemma Follow(s: State, c: int) returns (states: seq<State>)
    requires Invariant(s) && c in s.controls && s.controls[c].closed && !s.controls[c].lock.ByCloser?
    ensures Run(states, Remaining(s.controls[c].pc, c)) && states[0] == s
    ensures var t := states[|states| - 1]; c in t.controls && t.controls[c].deleted && t.controls[c].pc.Gone?
    decreases |Remaining(s.controls[c].pc, c)|
  {
    assert ControlOk(s.controls[c]);
    var pc := s.controls[c].pc;
    if pc.Gone? {
      states := [s];
    } else {
      var step := Remaining(pc, c)[0];
      var t := Next(s, step);
      StepKeeps(s, step);
      assert Remaining(t.controls[c].pc, c) == Remaining(pc, c)[1..];
      assert t.controls[c].closed && !t.controls[c].lock.ByCloser?;
      var rest := Follow(t, c);
      states := [s] + rest;
      hide Invariant, Enabled, Next, Remaining;
      RunCons(s, step, rest, Remaining(t.controls[c].pc, c));
      assert Remaining(pc, c) == [step] + Remaining(pc, c)[1..];
    }
  }

  lemma RunCons(s: State, step: Step, rest: seq<State>, steps: seq<Step>)
    requires Enabled(s, step) && Run(rest, steps) && rest[0] == Next(s, step)
    ensures Run([s] + rest, [step] + steps)
  {
    hide Enabled, Next;
    var states, all := [s] + rest, [step] + steps;
    forall i | 0 <= i < |all|
      ensures Enabled(states[i], all[i]) && states[i + 1] == Next(states[i], all[i])
    {
      if i > 0 {
        assert all[i] == steps[i - 1] && states[i] == rest[i - 1] && states[i + 1] == rest[i - 1 + 1];
      }
    }
  }

  lemma {:induction false} RunEnds(s: State, states: seq<State>, steps: seq<Step>, n: nat)
    requires Invariant(s) && Run(states, steps) && states[0] == s && n < |states|
    ensures Invariant(states[n])
  {
    hide Invariant, Enabled, Next;
    if n > 0 {
      RunEnds(s, states, steps, n - 1);
      StepKeeps(states[n - 1], steps[n - 1]);
      assert states[n - 1 + 1] == Next(states[n - 1], steps[n - 1]);
    }
  }

  // ---------- the closer comes to its end ----------

  /** The steps a sender that closes its block has still to take. */
  function ToClose(stage: Stage, d: int): seq<Step> {
    match stage
    case Entered => [CloserLocks(d), CloserMarks(d), CloserReleases(d), Finish(d)]
    case Locked => [CloserMarks(d), CloserReleases(d), Finish(d)]
    case Marked => [CloserReleases(d), Finish(d)]
    case Released => [Finish(d)]
  }

  /** The block is closed, and the sender has gone, or holds what the other one held, which is left
      empty. */
  predicate CloseEnded(s: State, d: int, t: State)
    requires d in s.closing
  {
    var c, then_ := s.closing[d].control, s.closing[d].then_;
    && d !in t.closing && c in t.controls && t.controls[c].closed
    && (then_.EndSender? ==> t.senders == s.senders - {d})
    && (then_.TakeFrom? ==>
          then_.source in s.senders && t.senders == s.senders[d := s.senders[then_.source]][then_.source := None])
  }

  /** A run of the closer's own steps, from `s` to the end of the close. */
  ghost predicate ClosesAlone(s: State, d: int, states: seq<State>)
    requires d in s.closing
  {
    && Run(states, ToClose(s.closing[d].stage, d)) && states[0] == s
    && CloseEnded(s, d, states[|states| - 1])
  }

  /** A close in progress, once the mutex is free or its own, can end on its own. */
  lemma {:induction false} CloserFinishes(s: State, d: int)
    requires Invariant(s) && d in s.closing
    requires s.closing[d].stage.Entered? ==> s.controls[s.closing[d].control].lock.Free?
    ensures exists states: seq<State> :: ClosesAlone(s, d, states)
    decreases |ToClose(s.closing[d].stage, d)|
  {
    var stage := s.closing[d].stage;
    var step := ToClose(stage, d)[0];
    CloserStep(s, d);
    var t := Next(s, step);
    StepKeeps(s, step);
    hide Invariant, Enabled, Next;
    if stage.Released? {
      assert ClosesAlone(s, d, [s, t]);
    } else {
      CloserFinishes(t, d);
      var rest: seq<State> :| ClosesAlone(t, d, rest);
      hide ToClose;
      RunCons(s, step, rest, ToClose(t.closing[d].stage, d));
      var states := [s] + rest;
      assert states[|states| - 1] == rest[|rest| - 1];
      assert ClosesAlone(s, d, states);
    }
  }

  lemma CloserStep(s: State, d: int)
    requires Invariant(s) && d in s.closing
    requires s.closing[d].stage.Entered? ==> s.controls[s.closing[d].control].lock.Free?
    ensures var x, step := s.closing[d], ToClose(s.closing[d].stage, d)[0];
      && Enabled(s, step)
      && var t := Next(s, step);
         if x.stage.Released? then CloseEnded(s, d, t)
         else
           && d in t.closing && t.closing[d].control == x.control && t.closing[d].then_ == x.then_
           && t.senders == s.senders && t.closing[d].stage != Entered
           && [step] + ToClose(t.closing[d].stage, d) == ToClose(x.stage, d)
  {
    hide BeingClosed, HoldersOk;
  }

  // ---------- which sender holds which block ----------

  /** A new sender holds a new, open block whose thread starts by waiting. */
  lemma CreateMeans(s: State, d: int, c: int)
    requires Invariant(s) && Enabled(s, Create(d, c))
    ensures var t := Next(s, Create(d, c));
      && (forall e :: Owns(t, e, c) <==> e == d)
      && !t.controls[c].closed && t.controls[c].closes == 0 && t.controls[c].pc.Waiting? && t.controls[c].lock.Free?
      && (forall e, x :: e != d ==> (Owns(t, e, x) <==> Owns(s, e, x)))
  {
    hide ControlsOk, ClosingOk, SourcesOk, HeldOpen;
  }

  /** What moving does: the block changes hands, and no block and no other sender is touched. */
  lemma MoveMeans(s: State, d: int, source: int)
    requires Invariant(s) && Enabled(s, MoveInto(d, source))
    ensures var t := Next(s, MoveInto(d, source));
      && (forall c :: Owns(t, d, c) <==> Owns(s, source, c))
      && (forall c :: !Owns(t, source, c))
      && (forall e, c :: e != d && e != source ==> (Owns(t, e, c) <==> Owns(s, e, c)))
      && t.controls == s.controls && t.closing == s.closing
  {
  }
}
