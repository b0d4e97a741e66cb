/** The etcd watch multiplexer: many threads create watches over one stream, and one resolver
    thread reads completions. The object's fields change only under its lock; each critical
    section is one step of a state machine, and every interleaving of steps is considered, up
    to the first failed completion. */
module WatchCreator {
  import opened Errors

  /** What a completion-queue entry stands for. */
  datatype Tag = InitStream | WriteFinished | ResponseGot

  /** Whose promise `current_watch_write_` is. */
  datatype Owner = Init | Creator(handler: int) | Resolver

  /** The fields of the object, and the operations it has in flight. `broken` is set where the
      source throws its logic error or would use a null pointer. */
  datatype Fields = Fields(
    stream: bool,
    currentWrite: Option<Owner>,
    pendingHandler: Option<int>,
    pendingResponse: bool,
    handlers: map<int, int>,
    outstanding: multiset<Tag>,
    broken: bool)

  const START := Fields(false, None, None, false, map[], multiset{}, false)

  // ---------- the critical sections, on values ----------

  /** `setup_watch_infrastructure_m`. */
  function Setup(f: Fields): Fields {
    if f.stream then f
    else if f.currentWrite.Some? then f.(broken := true)
    else f.(stream := true, currentWrite := Some(Init), outstanding := f.outstanding + multiset{InitStream})
  }

  /** `resolve_write_m`. */
  function ResolveWrite(f: Fields): Fields {
    if f.currentWrite.None? then f.(broken := true) else f.(currentWrite := None)
  }

  /** `request_read_next_watch_response_m`. */
  function RequestRead(f: Fields): Fields {
    if f.pendingResponse || !f.stream then f.(broken := true)
    else f.(pendingResponse := true, outstanding := f.outstanding + multiset{ResponseGot})
  }

  /** The end of `write_to_watch_stream_m`, once no write is current. */
  function StartWrite(f: Fields, owner: Owner): Fields {
    if !f.stream then f.(broken := true)
    else f.(currentWrite := Some(owner), outstanding := f.outstanding + multiset{WriteFinished})
  }

  /** A created response: the pending handler is bound to the id. */
  function Bind(f: Fields, id: int): Fields {
    match f.pendingHandler
    case None => f.(broken := true)
    case Some(h) => f.(handlers := f.handlers[id := h], pendingHandler := None)
  }

  function Complete(f: Fields, tag: Tag): Fields {
    f.(outstanding := f.outstanding - multiset{tag})
  }

  // ---------- the object ----------

  class ETCDWatchCreator {
    var watchStream: bool
    var currentWatchWrite: Option<Owner>
    var pendingWatchHandler: Option<int>
    var pendingWatchResponse: bool
    var watchHandlers: map<int, int>
    var outstanding: multiset<Tag>
    var broken: bool

    function Now(): Fields
      reads this
    {
      Fields(watchStream, currentWatchWrite, pendingWatchHandler, pendingWatchResponse,
        watchHandlers, outstanding, broken)
    }

    constructor ()
      ensures Now() == START
    {
      watchStream, currentWatchWrite, pendingWatchHandler := false, None, None;
      pendingWatchResponse, watchHandlers, outstanding, broken := false, map[], multiset{}, false;
    }

    method SetupWatchInfrastructure()
      modifies this
      ensures Now() == Setup(old(Now()))
    {
      if watchStream {
        return;
      }
      if currentWatchWrite.Some? {
        broken := true;
        return;
      }
      currentWatchWrite := Some(Init);
      watchStream := true;
      outstanding := outstanding + multiset{InitStream};
    }

    method ResolveCurrentWrite()
      modifies this
      ensures Now() == ResolveWrite(old(Now()))
    {
      if currentWatchWrite.None? {
        broken := true;
        return;
      }
      currentWatchWrite := None;
    }

    method RequestReadNextWatchResponse()
      modifies this
      ensures Now() == RequestRead(old(Now()))
    {
      if pendingWatchResponse || !watchStream {
        broken := true;
        return;
      }
      pendingWatchResponse := true;
      outstanding := outstanding + multiset{ResponseGot};
    }

    /** `write_to_watch_stream_m`: sets the stream up, and writes unless it must wait. */
    method WriteToWatchStream(owner: Owner) returns (written: bool)
      modifies this
      ensures var f := Setup(old(Now()));
        && written == f.currentWrite.None?
        && Now() == if written then StartWrite(f, owner) else f
    {
      SetupWatchInfrastructure();
      if currentWatchWrite.Some? {
        return false;
      }
      if !watchStream {
        broken := true;
        return true;
      }
      currentWatchWrite := Some(owner);
      outstanding := outstanding + multiset{WriteFinished};
      written := true;
    }

    /** The part of `create_watch` after the wait for its turn. */
    method EnterCreateWatch(handler: int) returns (written: bool)
      requires pendingWatchHandler.None?
      modifies this
      ensures var f := Setup(old(Now()).(pendingHandler := Some(handler)));
        && written == f.currentWrite.None?
        && Now() == if written then StartWrite(f, Creator(handler)) else f
    {
      pendingWatchHandler := Some(handler);
      written := WriteToWatchStream(Creator(handler));
    }

    /** The branch of the resolver loop for an initialised stream. */
    method OnInit()
      modifies this
      ensures Now() == RequestRead(ResolveWrite(Complete(old(Now()), InitStream)))
    {
      outstanding := outstanding - multiset{InitStream};
      ResolveCurrentWrite();
      RequestReadNextWatchResponse();
    }

    /** The branch for a finished write. */
    method OnWriteFinished()
      modifies this
      ensures Now() == ResolveWrite(Complete(old(Now()), WriteFinished))
    {
      outstanding := outstanding - multiset{WriteFinished};
      ResolveCurrentWrite();
    }

    /** The finished read is taken out of the queue and its response out of the object. */
    method TakeResponse()
      modifies this
      ensures Now() == Received(old(Now()))
    {
      outstanding := outstanding - multiset{ResponseGot};
      pendingWatchResponse := false;
    }

    method BindPendingHandler(id: int)
      modifies this
      ensures Now() == Bind(old(Now()), id)
    {
      if pendingWatchHandler.None? {
        broken := true;
        return;
      }
      watchHandlers := watchHandlers[id := pendingWatchHandler.value];
      pendingWatchHandler := None;
    }

    /** The branch for a created response. */
    method OnCreated(id: int)
      modifies this
      ensures Now() == RequestRead(Bind(Received(old(Now())), id))
    {
      hide RequestRead, Bind, Received, Now;
      TakeResponse();
      BindPendingHandler(id);
      RequestReadNextWatchResponse();
    }

    /** `process_watch_response_m`: is the watch to be cancelled? */
    method ProcessWatchResponse(id: int, fires: bool) returns (cancel: bool, resolved: Option<int>)
      modifies this
      ensures cancel == (id !in old(Now()).handlers || fires)
      ensures resolved == (if id in old(Now()).handlers && fires then Some(old(Now()).handlers[id]) else None)
      ensures Now() == if resolved.Some? then old(Now()).(handlers := old(Now()).handlers - {id}) else old(Now())
    {
      if id !in watchHandlers {
        return true, None;
      }
      if fires {
        resolved := Some(watchHandlers[id]);
        watchHandlers := watchHandlers - {id};
        return true, resolved;
      }
      return false, None;
    }

    /** The branch for events; `fires` says whether some event satisfies the handler. If the
        watch is to be cancelled and the write must wait, the thread stays here. */
    method OnEvents(id: int, fires: bool) returns (resolved: Option<int>, waiting: bool)
      modifies this
      ensures var (f, r, w) := HandleEvents(Received(old(Now())), id, fires);
        Now() == f && resolved == r && waiting == w
    {
      hide RequestRead, Setup, StartWrite, Received, Now;
      TakeResponse();
      var cancel: bool;
      cancel, resolved := ProcessWatchResponse(id, fires);
      waiting := false;
      if cancel {
        var written := WriteToWatchStream(Resolver);
        waiting := !written;
      }
      if !waiting {
        RequestReadNextWatchResponse();
      }
    }
  }

  function Received(f: Fields): Fields {
    Complete(f, ResponseGot).(pendingResponse := false)
  }

  /** Events for a watch: the new fields, the handler whose promise is resolved, and whether the
      resolver has to wait for the current write before it can cancel the watch. */
  function HandleEvents(f: Fields, id: int, fires: bool): (Fields, Option<int>, bool) {
    var known := id in f.handlers;
    var g := if known && fires then f.(handlers := f.handlers - {id}) else f;
    var resolved := if known && fires then Some(f.handlers[id]) else None;
    if !known || fires then
      var h := Setup(g);
      if h.currentWrite.None? then (RequestRead(StartWrite(h, Resolver)), resolved, false)
      else (h, resolved, true)
    else (RequestRead(g), None, false)
  }

  // ---------- the system ----------

  datatype CreatorPc = WaitHandler | WaitWrite | WaitFuture | Returned

  datatype ResolverPc = Looping | Cancelling

  /** The object, its threads and the service. `unanswered` are the create requests written and
      not yet answered; `issued` records for which handler's request the service created each
      watch; `resolved` counts how often each handler's promise was resolved. */
  datatype State = State(
    f: Fields,
    creators: map<int, CreatorPc>,
    resolver: ResolverPc,
    unanswered: seq<int>,
    issued: map<int, int>,
    resolved: multiset<int>)

  const INITIAL := State(START, map[], Looping, [], map[], multiset{})

  datatype Step =
    | Arrive(h: int)                  // a thread calls create_watch
    | Enter(h: int)                   // it gets its turn and sets its handler
    | WriteNow(h: int)                // it was waiting for the current write and now writes
    | InitDone
    | WriteDone
    | CreatedRead(id: int)            // the service answers the oldest create request
    | EventsRead(id: int, fires: bool)
    | CanceledRead
    | CancelNow                       // the resolver was waiting for the current write

  predicate Enabled(s: State, step: Step) {
    match step
    case Arrive(h) => h !in s.creators
    case Enter(h) => h in s.creators && s.creators[h].WaitHandler? && s.f.pendingHandler.None?
    case WriteNow(h) => h in s.creators && s.creators[h].WaitWrite? && s.f.currentWrite.None?
    case InitDone => s.resolver.Looping? && InitStream in s.f.outstanding
    case WriteDone => s.resolver.Looping? && WriteFinished in s.f.outstanding
    case CreatedRead(id) =>
      s.resolver.Looping? && ResponseGot in s.f.outstanding && s.unanswered != [] && id !in s.issued
    case EventsRead(id, _) => s.resolver.Looping? && ResponseGot in s.f.outstanding && id in s.issued
    case CanceledRead => s.resolver.Looping? && ResponseGot in s.f.outstanding
    case CancelNow => s.resolver.Cancelling? && s.f.currentWrite.None?
  }

  function Next(s: State, step: Step): State
    requires Enabled(s, step)
  {
    match step
    case Arrive(h) => s.(creators := s.creators[h := WaitHandler])
    case Enter(h) =>
      var g := Setup(s.f.(pendingHandler := Some(h)));
      if g.currentWrite.None? then
        s.(f := StartWrite(g, Creator(h)), creators := s.creators[h := WaitFuture], unanswered := s.unanswered + [h])
      else s.(f := g, creators := s.creators[h := WaitWrite])
    case WriteNow(h) =>
      s.(f := StartWrite(s.f, Creator(h)), creators := s.creators[h := WaitFuture], unanswered := s.unanswered + [h])
    case InitDone => s.(f := RequestRead(ResolveWrite(Complete(s.f, InitStream))))
    case WriteDone =>
      var done := s.f.currentWrite;
      s.(f := ResolveWrite(Complete(s.f, WriteFinished)),
         creators := if done.Some? && done.value.Creator? then s.creators[done.value.handler := Returned]
           else s.creators)
    case CreatedRead(id) =>
      s.(f := RequestRead(Bind(Received(s.f), id)),
         unanswered := s.unanswered[1..],
         issued := s.issued[id := s.unanswered[0]])
    case EventsRead(id, fires) =>
      var (g, resolved, waiting) := HandleEvents(Received(s.f), id, fires);
      s.(f := g,
         resolver := if waiting then Cancelling else Looping,
         resolved := s.resolved + if resolved.Some? then multiset{resolved.value} else multiset{})
    case CanceledRead => s.(f := RequestRead(Received(s.f)))
    case CancelNow => s.(f := RequestRead(StartWrite(s.f, Resolver)), resolver := Looping)
  }

  // ---------- the invariant ----------

  /** Nothing is broken; a write is current exactly while one initialisation or write is in
      flight; a response is pending exactly while one read is in flight. */
  ghost predicate InFlight(f: Fields) {
    && !f.broken
    && f.outstanding[InitStream] + f.outstanding[WriteFinished] == (if f.currentWrite.Some? then 1 else 0)
    && f.outstanding[ResponseGot] == (if f.pendingResponse then 1 else 0)
    && (f.outstanding[InitStream] > 0 <==> f.currentWrite == Some(Init))
    && (InitStream in f.outstanding ==> !f.pendingResponse)
    && (!f.stream ==> f.currentWrite.None? && !f.pendingResponse && f.pendingHandler.None?)
  }

  /** The resolver waits only while a write is current, and then nothing is being read. */
  ghost predicate ResolverOk(s: State) {
    s.resolver.Cancelling? ==>
      s.f.stream && s.f.currentWrite.Some? && s.f.currentWrite != Some(Init) && !s.f.pendingResponse
  }

  /** At most one create request is unanswered, and the pending handler is its. A creator waits
      for its own write, and only for that. */
  ghost predicate CreatorsOk(s: State) {
    && |s.unanswered| <= 1
    && (s.unanswered != [] ==> s.f.pendingHandler == Some(s.unanswered[0]))
    && (s.f.pendingHandler.Some? ==>
          var h := s.f.pendingHandler.value;
          && h in s.creators && !s.creators[h].WaitHandler?
          && (s.creators[h].WaitWrite? <==> s.unanswered == []))
    && (forall h :: h in s.creators && s.creators[h].WaitWrite? ==> s.f.pendingHandler == Some(h))
    && (forall h :: h in s.creators ==> (s.creators[h].WaitFuture? <==> s.f.currentWrite == Some(Creator(h))))
    && (s.f.currentWrite.Some? && s.f.currentWrite.value.Creator? ==> s.f.currentWrite.value.handler in s.creators)
  }

  /** Every watch is bound to the handler whose request produced it, no handler has two watches,
      and no promise is resolved twice. */
  ghost predicate BindingsOk(s: State) {
    && (forall id :: id in s.f.handlers ==> id in s.issued && s.f.handlers[id] == s.issued[id])
    && (forall a, b :: a in s.issued && b in s.issued && s.issued[a] == s.issued[b] ==> a == b)
    && (forall id :: id in s.issued ==>
          s.issued[id] in s.creators && !s.creators[s.issued[id]].WaitHandler? &&
            s.f.pendingHandler != Some(s.issued[id]))
    && (forall h :: s.resolved[h] <= 1)
    && (forall h :: h in s.resolved ==> exists id :: id in s.issued && s.issued[id] == h && id !in s.f.handlers)
  }

  ghost predicate Invariant(s: State) {
    InFlight(s.f) && ResolverOk(s) && CreatorsOk(s) && BindingsOk(s)
  }

  lemma InitialInvariant()
    ensures Invariant(INITIAL)
  {
    InitialBindings();
    assert CreatorsOk(INITIAL);
    hide CreatorsOk, BindingsOk;
  }

  lemma InitialBindings()
    ensures BindingsOk(INITIAL)
  {
    var s := INITIAL;
    assert s.issued == map[] && s.f.handlers == map[] && s.resolved == multiset{};
    assert BindingsOk(s);
  }

  // ---------- every step keeps it ----------

  /** The bindings are not concerned by what happens to the stream. */
  lemma BindingsFrame(s: State, t: State)
    requires BindingsOk(s)
    requires t.f.handlers == s.f.handlers && t.issued == s.issued && t.resolved == s.resolved
    requires t.f.pendingHandler == s.f.pendingHandler
    requires forall h :: h in s.creators && !s.creators[h].WaitHandler? ==>
      h in t.creators && !t.creators[h].WaitHandler?
    ensures BindingsOk(t)
  {
    forall id | id in t.issued
      ensures t.issued[id] in t.creators && !t.creators[t.issued[id]].WaitHandler?
      ensures t.f.pendingHandler != Some(t.issued[id])
    {
      var h := s.issued[id];
      assert t.issued[id] == h;
      assert h in s.creators && !s.creators[h].WaitHandler? && s.f.pendingHandler != Some(h);
      assert h in t.creators && !t.creators[h].WaitHandler?;
    }
    forall h | h in t.resolved
      ensures exists id :: id in t.issued && t.issued[id] == h && id !in t.f.handlers
    {
      var id :| id in s.issued && s.issued[id] == h && id !in s.f.handlers;
      assert id in t.issued && t.issued[id] == h && id !in t.f.handlers;
    }
    assert forall h :: t.resolved[h] == s.resolved[h];
  }

  lemma ArriveKeeps(s: State, h: int)
    requires Invariant(s) && Enabled(s, Arrive(h))
    ensures Invariant(Next(s, Arrive(h)))
  {
  }

  lemma EnterKeeps(s: State, h: int)
    requires Invariant(s) && Enabled(s, Enter(h))
    ensures Invariant(Next(s, Enter(h)))
  {
  }

  lemma WriteNowKeeps(s: State, h: int)
    requires Invariant(s) && Enabled(s, WriteNow(h))
    ensures Invariant(Next(s, WriteNow(h)))
  {
  }

  lemma InitDoneKeeps(s: State)
    requires Invariant(s) && Enabled(s, InitDone)
    ensures Invariant(Next(s, InitDone))
  {
  }

  lemma WriteDoneKeeps(s: State)
    requires Invariant(s) && Enabled(s, WriteDone)
    ensures Invariant(Next(s, WriteDone))
  {
    BindingsFrame(s, Next(s, WriteDone));
    WriteDoneFlight(s);
    WriteDoneCreators(s);
    hide *;
    InvariantParts(Next(s, WriteDone));
  }

  lemma WriteDoneFlight(s: State)
    requires Invariant(s) && Enabled(s, WriteDone)
    ensures InFlight(Next(s, WriteDone).f) && ResolverOk(Next(s, WriteDone))
  {
    hide CreatorsOk, BindingsOk;
  }

  lemma WriteDoneCreators(s: State)
    requires Invariant(s) && Enabled(s, WriteDone)
    ensures CreatorsOk(Next(s, WriteDone))
  {
    assert s.f.currentWrite.Some? && !s.f.broken;
    hide BindingsOk, ResolverOk, InFlight;
  }

  lemma CreatedReadKeeps(s: State, id: int)
    requires Invariant(s) && Enabled(s, CreatedRead(id))
    ensures Invariant(Next(s, CreatedRead(id)))
  {
    CreatedKeepsFlight(s, id);
    CreatedKeepsCreators(s, id);
    CreatedKeepsBindings(s, id);
    hide *;
    InvariantParts(Next(s, CreatedRead(id)));
  }

  lemma CreatedKeepsFlight(s: State, id: int)
    requires Invariant(s) && Enabled(s, CreatedRead(id))
    ensures InFlight(Next(s, CreatedRead(id)).f) && ResolverOk(Next(s, CreatedRead(id)))
  {
    assert s.f.pendingHandler.Some? by { hide BindingsOk; }
    hide CreatorsOk, BindingsOk;
  }

  lemma CreatedKeepsCreators(s: State, id: int)
    requires Invariant(s) && Enabled(s, CreatedRead(id))
    ensures CreatorsOk(Next(s, CreatedRead(id)))
  {
    hide BindingsOk;
  }

  lemma CreatedKeepsBindings(s: State, id: int)
    requires Invariant(s) && Enabled(s, CreatedRead(id))
    ensures BindingsOk(Next(s, CreatedRead(id)))
  {
    var t, h := Next(s, CreatedRead(id)), s.unanswered[0];
    assert t.issued == s.issued[id := h] && t.f.handlers == s.f.handlers[id := h];
    assert t.f.pendingHandler == None && t.creators == s.creators && t.resolved == s.resolved;
    assert h in s.creators && !s.creators[h].WaitHandler? && s.f.pendingHandler == Some(h);
    hide Next, Enabled, InFlight, ResolverOk, CreatorsOk;
    forall j | j in s.resolved
      ensures exists i :: i in t.issued && t.issued[i] == j && i !in t.f.handlers
    {
      var i :| i in s.issued && s.issued[i] == j && i !in s.f.handlers;
      assert i in t.issued && t.issued[i] == j && i !in t.f.handlers;
    }
  }

  lemma EventsReadKeeps(s: State, id: int, fires: bool)
    requires Invariant(s) && Enabled(s, EventsRead(id, fires))
    ensures Invariant(Next(s, EventsRead(id, fires)))
  {
    EventsKeepFlight(s, id, fires);
    EventsKeepCreators(s, id, fires);
    EventsKeepBindings(s, id, fires);
    hide *;
    InvariantParts(Next(s, EventsRead(id, fires)));
  }

  lemma InvariantParts(s: State)
    ensures InFlight(s.f) && ResolverOk(s) && CreatorsOk(s) && BindingsOk(s) ==> Invariant(s)
  {
  }

  /** A response was pending, so the stream is there and is not set up again. */
  lemma ReceivedFlight(s: State)
    requires InFlight(s.f) && ResponseGot in s.f.outstanding
    ensures var f := Received(s.f);
      && f.stream && Setup(f) == f && !f.pendingResponse && !f.broken && f.outstanding[ResponseGot] == 0
      && f.currentWrite == s.f.currentWrite && f.currentWrite != Some(Init)
      && f.outstanding[InitStream] == 0
      && f.outstanding[WriteFinished] == (if f.currentWrite.Some? then 1 else 0)
  {
  }

  lemma EventsKeepFlight(s: State, id: int, fires: bool)
    requires Invariant(s) && Enabled(s, EventsRead(id, fires))
    ensures InFlight(Next(s, EventsRead(id, fires)).f) && ResolverOk(Next(s, EventsRead(id, fires)))
  {
    ReceivedFlight(s);
    hide CreatorsOk, BindingsOk, Received, ResolverOk;
    HandledFlight(Received(s.f), id, fires);
    hide InFlight, HandleEvents;
    FlightOfState(s, id, fires);
  }

  lemma FlightOfState(s: State, id: int, fires: bool)
    requires Enabled(s, EventsRead(id, fires))
    requires var (g, resolved, waiting) := HandleEvents(Received(s.f), id, fires);
      waiting ==> g.stream && g.currentWrite.Some? && g.currentWrite != Some(Init) && !g.pendingResponse
    ensures var t := Next(s, EventsRead(id, fires));
      t.f == HandleEvents(Received(s.f), id, fires).0 && ResolverOk(t)
  {
    hide HandleEvents, Received;
  }

  lemma HandledFlight(f: Fields, id: int, fires: bool)
    requires f.stream && !f.pendingResponse && !f.broken && f.outstanding[ResponseGot] == 0
    requires f.currentWrite != Some(Init) && f.outstanding[InitStream] == 0
    requires f.outstanding[WriteFinished] == (if f.currentWrite.Some? then 1 else 0)
    ensures var (g, resolved, waiting) := HandleEvents(f, id, fires);
      && InFlight(g)
      && (waiting ==> g.stream && g.currentWrite.Some? && g.currentWrite != Some(Init) && !g.pendingResponse)
  {
  }

  lemma EventsKeepCreators(s: State, id: int, fires: bool)
    requires Invariant(s) && Enabled(s, EventsRead(id, fires))
    ensures CreatorsOk(Next(s, EventsRead(id, fires)))
  {
    hide BindingsOk;
  }

  /** What events change about the bindings: if one fires, its binding goes and its handler's
      promise is resolved; otherwise nothing. */
  lemma EventsAre(s: State, id: int, fires: bool)
    requires Enabled(s, EventsRead(id, fires))
    ensures var t := Next(s, EventsRead(id, fires));
      && t.f.pendingHandler == s.f.pendingHandler && t.creators == s.creators && t.issued == s.issued
      && (if id in s.f.handlers && fires
          then t.f.handlers == s.f.handlers - {id} && t.resolved == s.resolved + multiset{s.f.handlers[id]}
          else t.f.handlers == s.f.handlers && t.resolved == s.resolved)
  {
    hide Received, HandleEvents;
    StreamKeeps(s.f);
    HandledBindings(Received(s.f), id, fires);
    assert s.resolved + multiset{} == s.resolved;
  }

  /** The stream's bookkeeping leaves the handlers alone. */
  lemma StreamKeeps(f: Fields)
    ensures Received(f).handlers == Setup(f).handlers == RequestRead(f).handlers == f.handlers
    ensures Received(f).pendingHandler == Setup(f).pendingHandler == RequestRead(f).pendingHandler == f.pendingHandler
    ensures forall o :: StartWrite(f, o).handlers == f.handlers && StartWrite(f, o).pendingHandler == f.pendingHandler
  {
  }

  lemma HandledBindings(f: Fields, id: int, fires: bool)
    ensures var (g, resolved, _) := HandleEvents(f, id, fires);
      && g.pendingHandler == f.pendingHandler
      && (if id in f.handlers && fires then g.handlers == f.handlers - {id} && resolved == Some(f.handlers[id])
          else g.handlers == f.handlers && resolved == None)
  {
    hide Setup, RequestRead, StartWrite;
    var g := if id in f.handlers && fires then f.(handlers := f.handlers - {id}) else f;
    StreamKeeps(g);
    StreamKeeps(Setup(g));
    StreamKeeps(StartWrite(Setup(g), Resolver));
  }

  /** The handler that fired had not fired before, and its binding is gone now. */
  lemma EventsKeepBindings(s: State, id: int, fires: bool)
    requires Invariant(s) && Enabled(s, EventsRead(id, fires))
    ensures BindingsOk(Next(s, EventsRead(id, fires)))
  {
    hide BindingsOk, InFlight, ResolverOk, CreatorsOk, Next, Enabled;
    EventsAre(s, id, fires);
    var t := Next(s, EventsRead(id, fires));
    if id in s.f.handlers && fires {
      FiredBindings(s, t, id);
    } else {
      BindingsFrame(s, t);
    }
  }

  lemma FiredBindings(s: State, t: State, id: int)
    requires BindingsOk(s) && id in s.f.handlers
    requires t.f.handlers == s.f.handlers - {id} && t.resolved == s.resolved + multiset{s.f.handlers[id]}
    requires t.f.pendingHandler == s.f.pendingHandler && t.creators == s.creators && t.issued == s.issued
    ensures BindingsOk(t)
  {
    var h := s.f.handlers[id];
    assert h !in s.resolved;
    forall g | g in t.resolved
      ensures exists i :: i in t.issued && t.issued[i] == g && i !in t.f.handlers
    {
      if g == h {
        assert t.issued[id] == g && id !in t.f.handlers;
      } else {
        var i :| i in s.issued && s.issued[i] == g && i !in s.f.handlers;
        assert t.issued[i] == g && i !in t.f.handlers;
      }
    }
  }

  lemma StepKeeps(s: State, step: Step)
    requires Invariant(s) && Enabled(s, step)
    ensures Invariant(Next(s, step))
  {
    hide Invariant, Next;
    match step
    case Arrive(h) => ArriveKeeps(s, h);
    case Enter(h) => EnterKeeps(s, h);
    case WriteNow(h) => WriteNowKeeps(s, h);
    case InitDone => InitDoneKeeps(s);
    case WriteDone => WriteDoneKeeps(s);
    case CreatedRead(id) => CreatedReadKeeps(s, id);
    case EventsRead(id, fires) => EventsReadKeeps(s, id, fires);
    case CanceledRead => CanceledReadKeeps(s);
    case CancelNow =>
      CancelNowNever(s);
      assert false;
  }

  lemma CanceledReadKeeps(s: State)
    requires Invariant(s) && Enabled(s, CanceledRead)
    ensures Invariant(Next(s, CanceledRead))
  {
  }

  /** The wait for the current write before a cancellation is never over. */
  lemma CancelNowNever(s: State)
    requires Invariant(s)
    ensures !Enabled(s, CancelNow)
  {
  }

  // ---------- what is not lost ----------

  /** A watch the service has created is bound to its handler exactly until it fires. */
  ghost predicate BoundUntilFired(s: State) {
    forall id :: id in s.issued ==> (id in s.f.handlers <==> s.resolved[s.issued[id]] == 0)
  }

  /** Once the stream is initialised a read is in flight, unless the resolver waits for a write. */
  ghost predicate Reading(s: State) {
    s.f.stream && InitStream !in s.f.outstanding && s.resolver.Looping? ==> s.f.pendingResponse
  }

  lemma CreatedStaysBound(s: State, id: int)
    requires Invariant(s) && BoundUntilFired(s) && Enabled(s, CreatedRead(id))
    ensures BoundUntilFired(Next(s, CreatedRead(id)))
  {
    var t, h := Next(s, CreatedRead(id)), s.unanswered[0];
    assert s.f.pendingHandler == Some(h);
    assert h !in s.resolved by { hide InFlight, ResolverOk, CreatorsOk; }
    assert t.issued == s.issued[id := h] && t.f.handlers == s.f.handlers[id := h] && t.resolved == s.resolved;
    hide Invariant, Next, Enabled;
  }

  lemma EventsStayBound(s: State, id: int, fires: bool)
    requires Invariant(s) && BoundUntilFired(s) && Enabled(s, EventsRead(id, fires))
    ensures BoundUntilFired(Next(s, EventsRead(id, fires)))
  {
    hide InFlight, ResolverOk, CreatorsOk, Next, Enabled;
    EventsAre(s, id, fires);
    assert id in s.issued by { Issued(s, id, fires); }
    var t := Next(s, EventsRead(id, fires));
    if id in s.f.handlers && fires {
      var h := s.issued[id];
      forall j | j in t.issued
        ensures j in t.f.handlers <==> t.resolved[t.issued[j]] == 0
      {
        assert j != id ==> s.issued[j] != h;
      }
    }
  }

  lemma Issued(s: State, id: int, fires: bool)
    requires Enabled(s, EventsRead(id, fires))
    ensures id in s.issued
  {
  }

  lemma StepKeepsBound(s: State, step: Step)
    requires Invariant(s) && BoundUntilFired(s) && Enabled(s, step)
    ensures BoundUntilFired(Next(s, step))
  {
    match step
    case CreatedRead(id) => CreatedStaysBound(s, id);
    case EventsRead(id, fires) => EventsStayBound(s, id, fires);
    case _ => OthersKeepBindings(s, step);
  }

  lemma OthersKeepBindings(s: State, step: Step)
    requires Enabled(s, step) && !step.CreatedRead? && !step.EventsRead?
    ensures var t := Next(s, step);
      t.f.handlers == s.f.handlers && t.issued == s.issued && t.resolved == s.resolved
  {
    hide Setup, RequestRead, StartWrite, ResolveWrite, Complete, Received;
    var f := s.f;
    StreamKeeps(f);
    match step
    case Enter(h) =>
      StreamKeeps(f.(pendingHandler := Some(h)));
      StreamKeeps(Setup(f.(pendingHandler := Some(h))));
    case InitDone =>
      CompletionKeeps(f, InitStream);
      CompletionKeeps(Complete(f, InitStream), InitStream);
      StreamKeeps(ResolveWrite(Complete(f, InitStream)));
    case WriteDone =>
      CompletionKeeps(f, WriteFinished);
      CompletionKeeps(Complete(f, WriteFinished), WriteFinished);
    case CanceledRead => StreamKeeps(Received(f));
    case CancelNow => StreamKeeps(StartWrite(f, Resolver));
    case _ =>
  }

  lemma CompletionKeeps(f: Fields, tag: Tag)
    ensures ResolveWrite(f).handlers == Complete(f, tag).handlers == f.handlers
  {
  }

  lemma StepKeepsReading(s: State, step: Step)
    requires Invariant(s) && Reading(s) && Enabled(s, step)
    ensures Reading(Next(s, step))
  {
    StepKeeps(s, step);
    hide CreatorsOk, BindingsOk;
    match step
    case EventsRead(id, fires) => EventsKeepReading(s, id, fires);
    case _ =>
  }

  lemma EventsKeepReading(s: State, id: int, fires: bool)
    requires Invariant(s) && Enabled(s, EventsRead(id, fires))
    ensures var t := Next(s, EventsRead(id, fires)); t.resolver.Looping? ==> t.f.pendingResponse
  {
    ReceivedFlight(s);
    hide Invariant;
  }

  /** What events do, in every state that is reached: an event that satisfies the handler of a
      watch that has not fired resolves exactly that handler's promise and forgets the watch; any
      other event changes no promise and no binding. A watch that has fired, now or before, is
      cancelled: the request is written, or the resolver waits to write it. */
  lemma EventsMean(s: State, id: int, fires: bool)
    requires Invariant(s) && BoundUntilFired(s) && Enabled(s, EventsRead(id, fires))
    ensures var t, h := Next(s, EventsRead(id, fires)), s.issued[id];
      var live := s.resolved[h] == 0;
      && t.resolved == s.resolved + (if live && fires then multiset{h} else multiset{})
      && t.f.handlers == s.f.handlers - (if live && fires then {id} else {})
      && (if !live || fires then
            if s.f.currentWrite.None? then t.f.currentWrite == Some(Resolver) && t.resolver.Looping?
            else t.f.currentWrite == s.f.currentWrite && t.resolver.Cancelling?
          else t.f.currentWrite == s.f.currentWrite && t.resolver.Looping?)
      && (t.resolver.Looping? ==> t.f.pendingResponse)
  {
    ReceivedFlight(s);
    EventsAre(s, id, fires);
    EventsKeepReading(s, id, fires);
    EventsCancel(s, id, fires);
    Issued(s, id, fires);
    assert id in s.f.handlers <==> s.resolved[s.issued[id]] == 0;
    assert id in s.f.handlers ==> s.f.handlers[id] == s.issued[id];
    hide Next, Enabled, InFlight, ResolverOk, CreatorsOk, BindingsOk, BoundUntilFired;
    assert s.resolved + multiset{} == s.resolved && s.f.handlers - {} == s.f.handlers;
  }

  lemma EventsCancel(s: State, id: int, fires: bool)
    requires InFlight(s.f) && Enabled(s, EventsRead(id, fires))
    ensures var t := Next(s, EventsRead(id, fires));
      if id !in s.f.handlers || fires then
        if s.f.currentWrite.None? then t.f.currentWrite == Some(Resolver) && t.resolver.Looping?
        else t.f.currentWrite == s.f.currentWrite && t.resolver.Cancelling?
      else t.f.currentWrite == s.f.currentWrite && t.resolver.Looping?
  {
    ReceivedFlight(s);
    StreamKeeps(s.f);
    hide InFlight, Received;
  }

  // ---------- whole runs ----------

  /** The states of a run: each follows from the one before by an enabled step. */
  ghost predicate Run(states: seq<State>, steps: seq<Step>) {
    && |states| == |steps| + 1
    && (forall i :: 0 <= i < |steps| ==> Enabled(states[i], steps[i]) && states[i + 1] == Next(states[i], steps[i]))
  }

  lemma InitialBound()
    ensures BoundUntilFired(INITIAL) && Reading(INITIAL)
  {
    assert INITIAL.issued == map[];
  }

  lemma {:induction false} RunKeeps(states: seq<State>, steps: seq<Step>, n: nat)
    requires Run(states, steps) && states[0] == INITIAL && n < |states|
    ensures Invariant(states[n]) && BoundUntilFired(states[n]) && Reading(states[n])
  {
    hide Invariant, Next, Enabled, BoundUntilFired, Reading;
    if n == 0 {
      InitialInvariant();
      InitialBound();
    } else {
      RunKeeps(states, steps, n - 1);
      StepKeeps(states[n - 1], steps[n - 1]);
      StepKeepsBound(states[n - 1], steps[n - 1]);
      StepKeepsReading(states[n - 1], steps[n - 1]);
      assert states[n - 1 + 1] == Next(states[n - 1], steps[n - 1]);
    }
  }

  /** In every interleaving: no inconsistent internal state, at most one write and one read in
      flight, every watch bound to its own handler until it fires, no promise resolved twice,
      and reading goes on unless the resolver waits. */
  lemma RunIsSafe(states: seq<State>, steps: seq<Step>, n: nat)
    requires Run(states, steps) && states[0] == INITIAL && n < |states|
    ensures var s := states[n];
      && !s.f.broken
      && s.f.outstanding[InitStream] + s.f.outstanding[WriteFinished] <= 1 && s.f.outstanding[ResponseGot] <= 1
      && (s.f.currentWrite.Some? <==> InitStream in s.f.outstanding || WriteFinished in s.f.outstanding)
      && (forall id :: id in s.f.handlers ==> id in s.issued && s.f.handlers[id] == s.issued[id])
      && (forall h :: s.resolved[h] <= 1)
      && (forall id :: id in s.issued ==> (id in s.f.handlers <==> s.resolved[s.issued[id]] == 0))
      && (s.f.stream && InitStream !in s.f.outstanding && s.resolver.Looping? ==> ResponseGot in s.f.outstanding)
  {
    RunKeeps(states, steps, n);
  }

  /** In every run, a firing event for a watch that has not fired resolves exactly its handler. */
  lemma FiringResolves(states: seq<State>, steps: seq<Step>, n: nat)
    requires Run(states, steps) && states[0] == INITIAL && n < |steps| && steps[n].EventsRead? && steps[n].fires
    ensures states[n + 1].resolved[states[n].issued[steps[n].id]] == 1
    ensures forall h :: h != states[n].issued[steps[n].id] ==> states[n + 1].resolved[h] == states[n].resolved[h]
  {
    RunKeeps(states, steps, n);
    RunKeeps(states, steps, n + 1);
    var s, id := states[n], steps[n].id;
    Issued(s, id, true);
    hide Invariant, BoundUntilFired, Reading;
    EventsMean(s, id, true);
    assert states[n + 1] == Next(s, EventsRead(id, true));
    hide Next, Enabled;
    AtMostOnce(s, id);
  }

  lemma AtMostOnce(s: State, id: int)
    requires Invariant(s)
    ensures forall h :: s.resolved[h] <= 1
  {
    hide InFlight, ResolverOk, CreatorsOk;
  }

  /** Once the resolver waits for a write it is stuck: only the resolver itself could finish
      that write. */
  lemma {:induction false} WaitingIsForever(states: seq<State>, steps: seq<Step>, m: nat, n: nat)
    requires Run(states, steps) && states[0] == INITIAL && m <= n < |states|
    requires states[m].resolver.Cancelling?
    ensures states[n].resolver.Cancelling? && states[n].f.currentWrite == states[m].f.currentWrite
  {
    if m < n {
      WaitingIsForever(states, steps, m, n - 1);
      RunKeeps(states, steps, n - 1);
      StuckStep(states[n - 1], steps[n - 1]);
      assert states[n - 1 + 1] == Next(states[n - 1], steps[n - 1]);
    }
  }

  lemma StuckStep(s: State, step: Step)
    requires Invariant(s) && Enabled(s, step) && s.resolver.Cancelling?
    ensures Next(s, step).resolver.Cancelling? && Next(s, step).f.currentWrite == s.f.currentWrite
  {
  }

  /** The fields and states of a run that ends there: a second create request is being written
      when an event that ends the first watch arrives. */
  const OPENING := START.(stream := true, currentWrite := Some(Init), pendingHandler := Some(1),
    outstanding := multiset{InitStream})
  const READING := OPENING.(currentWrite := None, pendingResponse := true, outstanding := multiset{ResponseGot})
  const WRITING := READING.(currentWrite := Some(Creator(1)), outstanding := multiset{ResponseGot, WriteFinished})
  const BOUND := READING.(pendingHandler := None, handlers := map[7 := 1])
  const SECOND := BOUND.(pendingHandler := Some(2), currentWrite := Some(Creator(2)),
    outstanding := multiset{ResponseGot, WriteFinished})
  const STUCK := SECOND.(handlers := map[], pendingResponse := false, outstanding := multiset{WriteFinished})

  const S1 := INITIAL.(creators := map[1 := WaitHandler])
  const S2 := State(OPENING, map[1 := WaitWrite], Looping, [], map[], multiset{})
  const S3 := State(READING, map[1 := WaitWrite], Looping, [], map[], multiset{})
  const S4 := State(WRITING, map[1 := WaitFuture], Looping, [1], map[], multiset{})
  const S5 := State(READING, map[1 := Returned], Looping, [1], map[], multiset{})
  const S6 := State(BOUND, map[1 := Returned], Looping, [], map[7 := 1], multiset{})
  const S7 := State(BOUND, map[1 := Returned, 2 := WaitHandler], Looping, [], map[7 := 1], multiset{})
  const S8 := State(SECOND, map[1 := Returned, 2 := WaitFuture], Looping, [2], map[7 := 1], multiset{})
  const S9 := State(STUCK, map[1 := Returned, 2 := WaitFuture], Cancelling, [2], map[7 := 1], multiset{1})

  /** One step leads from one state to the other. */
  ghost predicate Leads(s: State, step: Step, t: State) {
    Enabled(s, step) && Next(s, step) == t
  }

  lemma FirstSteps()
    ensures Leads(INITIAL, Arrive(1), S1) && Leads(S1, Enter(1), S2) && Leads(S2, InitDone, S3)
  {
    assert multiset{InitStream} - multiset{InitStream} + multiset{ResponseGot} == multiset{ResponseGot};
  }

  lemma FirstWatch()
    ensures Leads(S3, WriteNow(1), S4) && Leads(S4, WriteDone, S5)
  {
    assert multiset{ResponseGot, WriteFinished} - multiset{WriteFinished} == multiset{ResponseGot};
  }

  lemma FirstAnswer()
    ensures Leads(S5, CreatedRead(7), S6) && Leads(S6, Arrive(2), S7)
  {
    assert multiset{ResponseGot} - multiset{ResponseGot} + multiset{ResponseGot} == multiset{ResponseGot};
  }

  lemma SecondWatch()
    ensures Leads(S7, Enter(2), S8)
  {
  }

  lemma FirstWatchEnds()
    ensures Leads(S8, EventsRead(7, true), S9)
  {
    assert multiset{ResponseGot, WriteFinished} - multiset{ResponseGot} == multiset{WriteFinished};
    assert map[7 := 1] - {7} == map[];
  }

  ghost predicate Reachable(s: State) {
    exists states: seq<State>, steps :: Run(states, steps) && states[0] == INITIAL && states[|states| - 1] == s
  }

  /** The situation is reachable. */
  lemma WaitingIsReachable()
    ensures exists s :: Reachable(s) && s.resolver.Cancelling?
  {
    FirstSteps();
    FirstWatch();
    FirstAnswer();
    SecondWatch();
    FirstWatchEnds();
    assert S9.resolver.Cancelling?;
    hide *;
    Start();
    Extend(INITIAL, Arrive(1), S1);
    Extend(S1, Enter(1), S2);
    Extend(S2, InitDone, S3);
    Extend(S3, WriteNow(1), S4);
    Extend(S4, WriteDone, S5);
    Extend(S5, CreatedRead(7), S6);
    Extend(S6, Arrive(2), S7);
    Extend(S7, Enter(2), S8);
    Extend(S8, EventsRead(7, true), S9);
    assert Reachable(S9);
  }

  lemma Start()
    ensures Reachable(INITIAL)
  {
    assert Run([INITIAL], []);
  }

  lemma Extend(s: State, step: Step, t: State)
    requires Reachable(s) && Leads(s, step, t)
    ensures Reachable(t)
  {
    hide Enabled, Next;
    var states: seq<State>, steps :| Run(states, steps) && states[0] == INITIAL && states[|states| - 1] == s;
    assert Run(states + [t], steps + [step]);
  }
}
