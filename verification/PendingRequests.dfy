/**
 The table of pending worker requests. A response, a timer, an abort signal and a worker exit race to
 end each request. `outcomes` records how the promise of a request was settled; timers and abort
 listeners are the sets of requests that still have one armed.
 */
module PendingRequests {
  import opened Basics

  type Id = string

  datatype Code = Timeout | Cancelled | WorkerCrashed | Shutdown | Backpressure | RemoteError

  datatype Outcome = Resolved | RejectedWith(code: Code)

  datatype Entry = Entry(control: bool, hasSignal: bool, settled: bool)

  datatype Table = Table(
    pending: map<Id, Entry>, timers: set<Id>, listeners: set<Id>,
    outcomes: map<Id, seq<Outcome>>, registered: set<Id>)

  const Empty := Table(map[], {}, {}, map[], {})

  // ---------------------------------------------------------------- the registry

  function OutcomesOf(t: Table, id: Id): seq<Outcome> {
    if id in t.outcomes then t.outcomes[id] else []
  }

  /** The resolve or reject call on the promise of `id`. */
  function Settled(t: Table, id: Id, outcome: Outcome): Table {
    t.(outcomes := t.outcomes[id := OutcomesOf(t, id) + [outcome]])
  }

  /** Takes the entry out and disarms its timer and listener; nothing for an unknown id. */
  function Remove(t: Table, id: Id): Table {
    if id !in t.pending then t
    else t.(pending := t.pending - {id}, timers := t.timers - {id}, listeners := t.listeners - {id})
  }

  /** Adds an entry with its timer, and a listener when there is a signal; refused for an active id. */
  function Register(t: Table, id: Id, control: bool, hasSignal: bool): Table {
    if id in t.pending then t
    else t.(pending := t.pending[id := Entry(control, hasSignal, false)], timers := t.timers + {id},
            listeners := if hasSignal then t.listeners + {id} else t.listeners, registered := t.registered + {id})
  }

  /** A response: settles a pending request once, and is nothing for any other id. */
  function Settle(t: Table, id: Id, outcome: Outcome): Table {
    if id !in t.pending || t.pending[id].settled then t
    else Settled(Remove(t, id), id, outcome)
  }

  /** Rejects every pending request. */
  function FailAll(t: Table, code: Code): Table {
    Table(map[], t.timers - t.pending.Keys, t.listeners - t.pending.Keys,
          map id | id in t.outcomes.Keys + t.pending.Keys ::
            if id in t.pending then OutcomesOf(t, id) + [RejectedWith(code)] else t.outcomes[id],
          t.registered)
  }

  // ---------------------------------------------------------------- the client

  /** A request: backpressure and abort are checked first, and a full write queue takes it out again. */
  function Request(t: Table, maxInFlight: nat, id: Id, control: bool, hasSignal: bool, aborted: bool,
        accepted: bool): Table {
    if !control && |t.pending| >= maxInFlight then t
    else if aborted || id in t.pending then t
    else
      var t' := Register(t, id, control, hasSignal);
      if accepted then t' else Settled(Remove(t', id), id, RejectedWith(Backpressure))
  }

  /** The best-effort cancel that a timeout or an abort sends when the client is ready. */
  datatype Notify = Notify(id: Id, ready: bool, accepted: bool)

  function NotifyCancel(t: Table, maxInFlight: nat, n: Notify): Table {
    if n.ready then Request(t, maxInFlight, n.id, true, false, false, n.accepted) else t
  }

  datatype Event =
    | Ask(id: Id, control: bool, hasSignal: bool, aborted: bool, accepted: bool)
    | Response(id: Id, ok: bool)
    | TimerFires(id: Id, notify: Notify)
    | AbortFires(id: Id, notify: Notify)
    | WorkerExit(code: Code)

  function Next(t: Table, maxInFlight: nat, e: Event): Table {
    match e
    case Ask(id, control, hasSignal, aborted, accepted) =>
      Request(t, maxInFlight, id, control, hasSignal, aborted, accepted)
    case Response(id, ok) => Settle(t, id, if ok then Resolved else RejectedWith(RemoteError))
    case TimerFires(id, notify) =>
      if id !in t.timers then t
      else Settled(NotifyCancel(Remove(t, id), maxInFlight, notify), id, RejectedWith(Timeout))
    case AbortFires(id, notify) =>
      if id !in t.listeners then t
      else Settled(NotifyCancel(Remove(t, id), maxInFlight, notify), id, RejectedWith(Cancelled))
    case WorkerExit(code) => FailAll(t, code)
  }

  /** The request ids an event brings in are new. */
  predicate FreshIds(t: Table, e: Event) {
    match e
    case Ask(id, _, _, _, _) => id !in t.registered
    case TimerFires(id, notify) => notify.id !in t.registered
    case AbortFires(id, notify) => notify.id !in t.registered
    case _ => true
  }

  function Run(t: Table, maxInFlight: nat, events: seq<Event>): Table
    decreases |events|
  {
    if events == [] then t else Run(Next(t, maxInFlight, events[0]), maxInFlight, events[1..])
  }

  predicate FreshRun(t: Table, maxInFlight: nat, events: seq<Event>)
    decreases |events|
  {
    events == [] || (FreshIds(t, events[0]) && FreshRun(Next(t, maxInFlight, events[0]), maxInFlight, events[1..]))
  }

  // ---------------------------------------------------------------- what every order of events keeps

  function WorkIds(t: Table): set<Id> {
    set id | id in t.pending && !t.pending[id].control
  }

  /** A pending request is unsettled and has its timer, and its listener when it has a signal. */
  ghost predicate Armed(t: Table) {
    && t.timers == t.pending.Keys && t.listeners <= t.pending.Keys && t.pending.Keys <= t.registered
    && forall id :: id in t.pending ==> !t.pending[id].settled && (id in t.listeners <==> t.pending[id].hasSignal)
  }

  /** A registered request has one outcome once it is not pending any more; others have none. */
  ghost predicate Accounted(t: Table) {
    forall id {:trigger OutcomesOf(t, id)} ::
      |OutcomesOf(t, id)| == if id in t.registered && id !in t.pending then 1 else 0
  }

  ghost predicate Sound(t: Table) {
    Armed(t) && Accounted(t)
  }

  ghost predicate Bounded(t: Table, maxInFlight: nat) {
    |WorkIds(t)| <= maxInFlight
  }

  /** A later state: settled requests keep their outcome, whatever comes. */
  ghost predicate Later(t: Table, t': Table) {
    && t.registered <= t'.registered
    && forall id ::
       id in t.registered && id !in t.pending ==> id !in t'.pending && OutcomesOf(t', id) == OutcomesOf(t, id)
  }

  /** Ending one pending request with one outcome. */
  lemma EndSound(t: Table, maxInFlight: nat, id: Id, outcome: Outcome)
    requires Sound(t) && Bounded(t, maxInFlight) && id in t.pending
    ensures var t' := Settled(Remove(t, id), id, outcome);
            Sound(t') && Bounded(t', maxInFlight) && Later(t, t') && OutcomesOf(t', id) == [outcome]
              && id !in t'.pending
  {
    var t' := Settled(Remove(t, id), id, outcome);
    assert OutcomesOf(t, id) == [];
    assert forall k :: OutcomesOf(t', k) == if k == id then [outcome] else OutcomesOf(t, k);
    assert WorkIds(t') <= WorkIds(t);
    SubsetSize(WorkIds(t'), WorkIds(t));
  }

  lemma RegisterBounded(t: Table, maxInFlight: nat, id: Id, control: bool, hasSignal: bool)
    requires Bounded(t, maxInFlight) && id !in t.pending && (control || |t.pending| < maxInFlight)
    ensures Bounded(Register(t, id, control, hasSignal), maxInFlight)
  {
    RegisterWork(t, id, control, hasSignal);
    if !control { SubsetSize(WorkIds(t), t.pending.Keys); }
  }

  lemma RegisterWork(t: Table, id: Id, control: bool, hasSignal: bool)
    requires id !in t.pending
    ensures WorkIds(Register(t, id, control, hasSignal)) == if control then WorkIds(t) else WorkIds(t) + {id}
  {
    var pending := Register(t, id, control, hasSignal).pending;
    forall k ensures k in pending && !pending[k].control <==> k in WorkIds(t) || (!control && k == id) {}
  }

  lemma RegisterArmed(t: Table, id: Id, control: bool, hasSignal: bool)
    requires Armed(t) && id !in t.registered
    ensures Armed(Register(t, id, control, hasSignal)) && id !in t.pending
  {
    var t' := Register(t, id, control, hasSignal);
    assert t'.pending.Keys == t.pending.Keys + {id};
  }

  lemma RegisterAccounted(t: Table, id: Id, control: bool, hasSignal: bool)
    requires Accounted(t) && id !in t.registered && id !in t.pending
    ensures Accounted(Register(t, id, control, hasSignal)) && Later(t, Register(t, id, control, hasSignal))
  {
    var t' := Register(t, id, control, hasSignal);
    forall k ensures OutcomesOf(t', k) == OutcomesOf(t, k) {}
  }

  lemma RegisterSound(t: Table, maxInFlight: nat, id: Id, control: bool, hasSignal: bool)
    requires Sound(t) && Bounded(t, maxInFlight) && id !in t.registered && (control || |t.pending| < maxInFlight)
    ensures var t' := Register(t, id, control, hasSignal);
            Sound(t') && Bounded(t', maxInFlight) && Later(t, t') && id in t'.pending
  {
    hide Bounded, Armed, Accounted;
    RegisterArmed(t, id, control, hasSignal);
    RegisterBounded(t, maxInFlight, id, control, hasSignal);
    RegisterAccounted(t, id, control, hasSignal);
  }

  lemma LaterTransitive(a: Table, b: Table, c: Table)
    requires Later(a, b) && Later(b, c)
    ensures Later(a, c)
  {}

  lemma RequestSound(t: Table, maxInFlight: nat, id: Id, control: bool, hasSignal: bool, aborted: bool, accepted: bool)
    requires Sound(t) && Bounded(t, maxInFlight) && id !in t.registered
    ensures var t' := Request(t, maxInFlight, id, control, hasSignal, aborted, accepted);
            Sound(t') && Bounded(t', maxInFlight) && Later(t, t')
  {
    hide Sound, Bounded, Later, Settled, Remove, Register;
    LaterSame(t);
    NotPending(t, id);
    if !(!control && |t.pending| >= maxInFlight) && !aborted {
      RegisterSound(t, maxInFlight, id, control, hasSignal);
      var t1 := Register(t, id, control, hasSignal);
      if !accepted {
        EndSound(t1, maxInFlight, id, RejectedWith(Backpressure));
        LaterTransitive(t, t1, Settled(Remove(t1, id), id, RejectedWith(Backpressure)));
      }
    }
  }

  lemma LaterSame(t: Table)
    ensures Later(t, t)
  {}

  lemma NotPending(t: Table, id: Id)
    requires Sound(t) && id !in t.registered
    ensures id !in t.pending
  {}

  /** A timer or abort: the cancel request goes out before the promise is rejected, which changes nothing. */
  lemma CancelCommutes(t: Table, maxInFlight: nat, id: Id, notify: Notify, outcome: Outcome)
    requires Sound(t) && id in t.pending && notify.id !in t.registered
    ensures Settled(NotifyCancel(Remove(t, id), maxInFlight, notify), id, outcome)
            == NotifyCancel(Settled(Remove(t, id), id, outcome), maxInFlight, notify)
  {
    hide Settled, Remove, Register, Sound;
    if notify.ready {
      var t1 := Remove(t, id);
      var n := notify.id;
      Independent(t, id, n, outcome);
      SettleLater(t1, n, id, outcome);
      if !notify.accepted && n !in t1.pending {
        var t2 := Register(t1, n, true, false);
        RemoveLater(t2, n, id, outcome);
        SettleTwo(Remove(t2, n), n, RejectedWith(Backpressure), id, outcome);
      }
    }
  }

  lemma Independent(t: Table, id: Id, n: Id, outcome: Outcome)
    requires Sound(t) && id in t.pending && n !in t.registered
    ensures id != n && Settled(Remove(t, id), id, outcome).pending == Remove(t, id).pending
  {}

  /** A settlement only writes the outcome, so it can be moved past the other operations. */
  lemma SettleLater(t: Table, n: Id, id: Id, outcome: Outcome)
    ensures Register(Settled(t, id, outcome), n, true, false) == Settled(Register(t, n, true, false), id, outcome)
    ensures Settled(t, id, outcome).pending == t.pending
  {}

  lemma RemoveLater(t: Table, n: Id, id: Id, outcome: Outcome)
    ensures Remove(Settled(t, id, outcome), n) == Settled(Remove(t, n), id, outcome)
  {}

  lemma SettleTwo(t: Table, n: Id, o: Outcome, id: Id, p: Outcome)
    requires n != id
    ensures Settled(Settled(t, n, o), id, p) == Settled(Settled(t, id, p), n, o)
  {
    assert Settled(Settled(t, n, o), id, p).outcomes == Settled(Settled(t, id, p), n, o).outcomes;
  }

  lemma EndAndNotify(t: Table, maxInFlight: nat, id: Id, notify: Notify, outcome: Outcome)
    requires Sound(t) && Bounded(t, maxInFlight) && id in t.pending && notify.id !in t.registered
    ensures var t' := Settled(NotifyCancel(Remove(t, id), maxInFlight, notify), id, outcome);
            Sound(t') && Bounded(t', maxInFlight) && Later(t, t')
            && id !in t'.pending && OutcomesOf(t', id) == [outcome]
  {
    hide Sound, Bounded, Later, Settled, Remove, Request;
    CancelCommutes(t, maxInFlight, id, notify, outcome);
    EndSound(t, maxInFlight, id, outcome);
    var t1 := Settled(Remove(t, id), id, outcome);
    SameRegistered(t, id, outcome);
    if notify.ready {
      RequestSound(t1, maxInFlight, notify.id, true, false, false, notify.accepted);
      LaterTransitive(t, t1, NotifyCancel(t1, maxInFlight, notify));
      StaysEnded(t, t1, NotifyCancel(t1, maxInFlight, notify), id);
    }
  }

  lemma SameRegistered(t: Table, id: Id, outcome: Outcome)
    ensures Settled(Remove(t, id), id, outcome).registered == t.registered
  {}

  lemma StaysEnded(t: Table, t1: Table, t2: Table, id: Id)
    requires Sound(t) && id in t.pending && t1.registered == t.registered && id !in t1.pending && Later(t1, t2)
    ensures id !in t2.pending && OutcomesOf(t2, id) == OutcomesOf(t1, id)
  {}

  lemma FailAllSound(t: Table, maxInFlight: nat, code: Code)
    requires Sound(t)
    ensures var t' := FailAll(t, code);
            Sound(t') && Bounded(t', maxInFlight) && Later(t, t')
            && (forall id :: id in t.pending ==> OutcomesOf(t', id) == [RejectedWith(code)])
  {
    var t' := FailAll(t, code);
    assert WorkIds(t') == {};
    forall id ensures OutcomesOf(t', id) == if id in t.pending then [RejectedWith(code)] else OutcomesOf(t, id) {
      if id in t.pending { assert OutcomesOf(t, id) == []; }
    }
  }

  lemma NextSound(t: Table, maxInFlight: nat, e: Event)
    requires Sound(t) && Bounded(t, maxInFlight) && FreshIds(t, e)
    ensures var t' := Next(t, maxInFlight, e); Sound(t') && Bounded(t', maxInFlight) && Later(t, t')
  {
    hide Sound, Bounded, Later, Settled, Remove, Request, NotifyCancel, FailAll;
    LaterSame(t);
    match e
    case Ask(id, control, hasSignal, aborted, accepted) =>
      RequestSound(t, maxInFlight, id, control, hasSignal, aborted, accepted);
    case Response(id, ok) =>
      if id in t.pending { EndSound(t, maxInFlight, id, if ok then Resolved else RejectedWith(RemoteError)); }
    case TimerFires(id, notify) =>
      ArmedIsPending(t, id);
      if id in t.timers { EndAndNotify(t, maxInFlight, id, notify, RejectedWith(Timeout)); }
    case AbortFires(id, notify) =>
      ArmedIsPending(t, id);
      if id in t.listeners { EndAndNotify(t, maxInFlight, id, notify, RejectedWith(Cancelled)); }
    case WorkerExit(code) => FailAllSound(t, maxInFlight, code);
  }

  lemma ArmedIsPending(t: Table, id: Id)
    requires Sound(t)
    ensures (id in t.timers || id in t.listeners) ==> id in t.pending
  {}

  /**
   For every order of responses, timeouts, aborts and exits: each request is settled at most once, and
   exactly once when it is no longer pending; no timer or listener outlives its request; requests other
   than system ones never exceed the limit; and a settled request is never touched again.
   */
  lemma {:induction false} RunSound(t: Table, maxInFlight: nat, events: seq<Event>)
    requires Sound(t) && Bounded(t, maxInFlight) && FreshRun(t, maxInFlight, events)
    ensures var t' := Run(t, maxInFlight, events); Sound(t') && Bounded(t', maxInFlight) && Later(t, t')
    decreases |events|
  {
    hide Sound, Bounded, Later, Next, FreshIds;
    if events == [] {
      LaterSame(t);
    } else {
      var t1 := Next(t, maxInFlight, events[0]);
      NextSound(t, maxInFlight, events[0]);
      RunSound(t1, maxInFlight, events[1..]);
      LaterTransitive(t, t1, Run(t, maxInFlight, events));
    }
  }

  lemma EmptySound(maxInFlight: nat)
    ensures Sound(Empty) && Bounded(Empty, maxInFlight)
  {
    assert WorkIds(Empty) == {};
  }

  /** From the empty table on, every request is settled at most once, and once exactly when it has ended. */
  lemma SettledOnce(maxInFlight: nat, events: seq<Event>, id: Id)
    requires FreshRun(Empty, maxInFlight, events)
    ensures var t := Run(Empty, maxInFlight, events);
            && |OutcomesOf(t, id)| == (if id in t.registered && id !in t.pending then 1 else 0)
            && t.timers == t.pending.Keys && t.listeners <= t.pending.Keys
            && |WorkIds(t)| <= maxInFlight
  {
    hide Run, FreshRun, WorkIds;
    EmptySound(maxInFlight);
    RunSound(Empty, maxInFlight, events);
    assert Accounted(Run(Empty, maxInFlight, events));
  }

  /**
   A new request is pending afterwards exactly when it is a system one or there is room, its signal has
   not fired and the write queue takes it. No other request is affected.
   */
  lemma AskTaken(t: Table, maxInFlight: nat, id: Id, control: bool, hasSignal: bool, aborted: bool, accepted: bool)
    requires id !in t.pending
    ensures var t' := Next(t, maxInFlight, Ask(id, control, hasSignal, aborted, accepted));
            && (id in t'.pending <==> (control || |t.pending| < maxInFlight) && !aborted && accepted)
            && (id in t'.pending ==> t'.pending[id] == Entry(control, hasSignal, false))
            && t'.pending - {id} == t.pending
            && (forall k :: k != id ==> OutcomesOf(t', k) == OutcomesOf(t, k))
            && (OutcomesOf(t', id) != OutcomesOf(t, id) <==>
                  (control || |t.pending| < maxInFlight) && !aborted && !accepted)
  {
    AddRemove(t.pending, id, Entry(control, hasSignal, false));
    if (control || |t.pending| < maxInFlight) && !aborted {
      var t1 := Register(t, id, control, hasSignal);
      assert t1.pending == t.pending[id := Entry(control, hasSignal, false)];
      RefusedByQueue(t1, id);
    }
  }

  lemma AddRemove<K, V>(m: map<K, V>, k: K, v: V)
    requires k !in m
    ensures m[k := v] - {k} == m && m - {k} == m
  {}

  lemma RefusedByQueue(t: Table, id: Id)
    requires id in t.pending
    ensures var t' := Settled(Remove(t, id), id, RejectedWith(Backpressure));
            && t'.pending == t.pending - {id} && OutcomesOf(t', id) == OutcomesOf(t, id) + [RejectedWith(Backpressure)]
            && forall k :: k != id ==> OutcomesOf(t', k) == OutcomesOf(t, k)
  {}

  /** A timeout or abort asks the worker to cancel, when the client is ready, whatever the limit. */
  lemma CancelIsSent(t: Table, maxInFlight: nat, id: Id, notify: Notify)
    requires Sound(t) && id in t.pending && notify.id !in t.registered && notify.ready && notify.accepted
    ensures notify.id in Next(t, maxInFlight, TimerFires(id, notify)).pending
    ensures t.pending[id].hasSignal ==> notify.id in Next(t, maxInFlight, AbortFires(id, notify)).pending
  {
    assert id in t.timers;
  }

  /** The race: whichever of the four comes first ends the request its own way; the others are no-ops. */
  lemma FirstWins(t: Table, maxInFlight: nat, id: Id, first: Event, second: Event)
    requires Sound(t) && Bounded(t, maxInFlight) && id in t.pending && (first.AbortFires? ==> t.pending[id].hasSignal)
    requires FreshIds(t, first) && Ends(first, id) && Ends(second, id) && !second.WorkerExit?
    ensures var t' := Next(t, maxInFlight, first);
            && OutcomesOf(t', id) == [EndedBy(first)]
            && (FreshIds(t', second) ==> Next(t', maxInFlight, second) == t')
  {
    hide Bounded, Settled, Remove, Request, NotifyCancel, FailAll;
    NextSound(t, maxInFlight, first);
    match first
    case Response(_, ok) => EndSound(t, maxInFlight, id, EndedBy(first));
    case TimerFires(_, notify) => EndAndNotify(t, maxInFlight, id, notify, EndedBy(first));
    case AbortFires(_, notify) => EndAndNotify(t, maxInFlight, id, notify, EndedBy(first));
    case WorkerExit(code) =>
      FailAllSound(t, maxInFlight, code);
      EmptyAfterExit(t, code);
  }

  lemma EmptyAfterExit(t: Table, code: Code)
    ensures FailAll(t, code).pending == map[]
  {}

  predicate Ends(e: Event, id: Id) {
    match e
    case Response(i, _) => i == id
    case TimerFires(i, _) => i == id
    case AbortFires(i, _) => i == id
    case WorkerExit(_) => true
    case Ask(_, _, _, _, _) => false
  }

  function EndedBy(e: Event): Outcome
    requires !e.Ask?
  {
    match e
    case Response(_, ok) => if ok then Resolved else RejectedWith(RemoteError)
    case TimerFires(_, _) => RejectedWith(Timeout)
    case AbortFires(_, _) => RejectedWith(Cancelled)
    case WorkerExit(code) => RejectedWith(code)
  }

  // ---------------------------------------------------------------- the registry object

  class PendingRequestRegistry {
    var pending: map<Id, Entry>
    var timers: set<Id>
    var listeners: set<Id>
    var outcomes: map<Id, seq<Outcome>>
    var registered: set<Id>

    function Now(): Table
      reads this
    {
      Table(pending, timers, listeners, outcomes, registered)
    }

    constructor ()
      ensures Now() == Empty
    {
      pending, timers, listeners, outcomes, registered := map[], {}, {}, map[], {};
    }

    method RegisterRequest(id: Id, control: bool, hasSignal: bool) returns (ok: bool)
      modifies this
      ensures ok == (id !in old(pending)) && Now() == Register(old(Now()), id, control, hasSignal)
    {
      if id in pending { return false; }
      timers := timers + {id};
      if hasSignal { listeners := listeners + {id}; }
      pending := pending[id := Entry(control, hasSignal, false)];
      registered := registered + {id};
      ok := true;
    }

    method SettlePromise(id: Id, outcome: Outcome)
      modifies this`outcomes
      ensures Now() == Settled(old(Now()), id, outcome)
    {
      outcomes := outcomes[id := (if id in outcomes then outcomes[id] else []) + [outcome]];
    }

    method RemoveEntry(id: Id)
      modifies this
      ensures Now() == Remove(old(Now()), id)
    {
      if id !in pending { return; }
      timers, listeners := timers - {id}, listeners - {id};
      pending := pending - {id};
    }

    method SettleEntry(id: Id, outcome: Outcome) returns (done: bool)
      modifies this
      ensures done == (id in old(pending) && !old(pending)[id].settled) && Now() == Settle(old(Now()), id, outcome)
    {
      if id !in pending || pending[id].settled { return false; }
      RemoveEntry(id);
      SettlePromise(id, outcome);
      done := true;
    }

    /** The loop over a copy of the entries: each is removed, then its promise rejected. */
    method FailAllEntries(code: Code) returns (n: nat)
      modifies this
      ensures Now() == FailAll(old(Now()), code) && n == |old(pending)|
    {
      hide Settled, Remove, FailAll, OutcomesOf, Failing;
      ghost var before := Now();
      var todo := pending.Keys;
      ghost var done: set<Id> := {};
      n := 0;
      FailingStart(before, code);
      while todo != {}
        invariant todo !! done && todo + done == before.pending.Keys
        invariant Now() == Failing(before, code, done)
        invariant n == |done|
        decreases todo
      {
        var id :| id in todo;
        FailingStep(before, code, done, id);
        RemoveEntry(id);
        SettlePromise(id, RejectedWith(code));
        n := n + 1;
        todo, done := todo - {id}, done + {id};
      }
      assert done == before.pending.Keys;
      FailingEnd(before, code);
    }
  }

  /** Part of the way through: the requests in `done` have been rejected. */
  ghost function Failing(t: Table, code: Code, done: set<Id>): Table {
    Table(t.pending - done, t.timers - done, t.listeners - done,
          map id | id in t.outcomes.Keys + done ::
            if id in done then OutcomesOf(t, id) + [RejectedWith(code)] else t.outcomes[id],
          t.registered)
  }

  lemma FailingStart(t: Table, code: Code)
    ensures Failing(t, code, {}) == t
  {
    assert Failing(t, code, {}).outcomes == t.outcomes;
    assert t.pending - {} == t.pending;
  }

  lemma FailingStep(t: Table, code: Code, done: set<Id>, id: Id)
    requires id in t.pending && id !in done
    ensures Settled(Remove(Failing(t, code, done), id), id, RejectedWith(code)) == Failing(t, code, done + {id})
  {
    var a, b := Settled(Remove(Failing(t, code, done), id), id, RejectedWith(code)), Failing(t, code, done + {id});
    assert a.pending == b.pending;
    assert a.timers == b.timers && a.listeners == b.listeners;
    assert a.outcomes == b.outcomes;
  }

  lemma FailingEnd(t: Table, code: Code)
    ensures Failing(t, code, t.pending.Keys) == FailAll(t, code)
  {
    var a, b := Failing(t, code, t.pending.Keys), FailAll(t, code);
    assert a.pending == b.pending;
    assert a.outcomes == b.outcomes;
  }
}
