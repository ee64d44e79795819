/**
 The durable journal of text delivery attempts. Tables are maps keyed by id; a step is the code
 between two awaits. Volatile runs wait for the delivery port and are lost in a crash.
 */
module DeliveryJournal {
  import opened Basics

  type Id = string
  type Time = string

  datatype Status = Pending | InFlight | Acknowledged | Rejected | Unknown

  predicate Terminal(s: Status) { s != Pending && s != InFlight }

  datatype Conversation = Conversation(merchantId: Id, storeId: Id, accountId: Id)

  datatype Attempt = Attempt(
    conversationId: Id, storeId: Id, accountId: Id, text: string, status: Status, createdAt: Time,
    dispatchedAt: Option<Time>, resolvedAt: Option<Time>, deliveredMessageId: Option<Id>,
    ackSourceRef: Option<string>, ackOccurredAt: Option<Time>)

  datatype Actor = Agent | Customer | UnknownActor

  datatype Message = Message(
    conversationId: Id, actor: Actor, text: Option<string>, occurredAt: Option<Time>, observedAt: Option<Time>)

  datatype Db = Db(conversations: map<Id, Conversation>, attempts: map<Id, Attempt>, messages: map<Id, Message>)

  datatype Outcome<+R> = Done(value: R) | Failed

  // ---------------------------------------------------------------- row operations

  /** `UPDATE ... WHERE id = ? AND status = 'PENDING'`. */
  function MarkInFlight(db: Db, id: Id, now: Time): Db {
    if id in db.attempts && db.attempts[id].status == Pending
    then db.(attempts := db.attempts[id := db.attempts[id].(status := InFlight, dispatchedAt := Some(now))])
    else db
  }

  /** `UPDATE ... WHERE id = ? AND status IN ('PENDING','IN_FLIGHT')`. */
  function Resolve(db: Db, id: Id, status: Status, now: Time): Db {
    if id in db.attempts && !Terminal(db.attempts[id].status)
    then db.(attempts := db.attempts[id := db.attempts[id].(status := status, resolvedAt := Some(now))])
    else db
  }

  function UpdateAcknowledged(db: Db, id: Id, now: Time, messageId: Id, sourceRef: Option<string>,
        occurredAt: Option<Time>): Db {
    if id in db.attempts && db.attempts[id].status == InFlight
    then db.(attempts := db.attempts[id := db.attempts[id].(
               status := Acknowledged, resolvedAt := Some(now), deliveredMessageId := Some(messageId),
               ackSourceRef := sourceRef, ackOccurredAt := occurredAt)])
    else db
  }

  /** `INSERT`: fails on a used id and on a missing conversation. */
  function SaveMessage(db: Db, id: Id, m: Message): Outcome<Db> {
    if id in db.messages || m.conversationId !in db.conversations then Failed
    else Done(db.(messages := db.messages[id := m]))
  }

  // ---------------------------------------------------------------- operations

  /** An attempt is created only for an authorized, existing conversation and under a new id. */
  function CreateAuthorized(db: Db, id: Id, conversationId: Id, text: string, now: Time, allowed: bool): Outcome<Db> {
    if !allowed || conversationId !in db.conversations || id in db.attempts then Failed
    else
      var c := db.conversations[conversationId];
      Done(db.(attempts := db.attempts[id :=
        Attempt(conversationId, c.storeId, c.accountId, text, Pending, now, None, None, None, None, None)]))
  }

  function DeliveryMessageId(attemptId: Id): Id {
    "dlv-" + attemptId
  }

  /** The delivered message and the acknowledgement, both or neither; nothing for an acknowledged attempt. */
  function Finalize(db: Db, id: Id, messageId: Option<Id>, now: Time, observedAt: Time, sourceRef: Option<string>,
        occurredAt: Option<Time>): Outcome<Db> {
    if id !in db.attempts then Failed
    else
      var a := db.attempts[id];
      if a.status == Acknowledged then Done(db)
      else if a.status != InFlight then Failed
      else
        var mid := if messageId.Some? then messageId.value else DeliveryMessageId(id);
        var message := Message(a.conversationId, Agent, Some(a.text), occurredAt, Some(observedAt));
        match SaveMessage(db, mid, message)
        case Failed => Failed
        case Done(saved) => Done(UpdateAcknowledged(saved, id, now, mid, sourceRef, occurredAt))
  }

  predicate Owned(db: Db, a: Attempt, merchant: Id) {
    a.conversationId in db.conversations && db.conversations[a.conversationId].merchantId == merchant
  }

  predicate Recoverable(db: Db, id: Id, merchant: Id) {
    id in db.attempts && db.attempts[id].status == InFlight && Owned(db, db.attempts[id], merchant)
  }

  /** Workspace recovery: the merchant's in-flight attempts become UNKNOWN. */
  function RecoverWorkspace(db: Db, merchant: Id, now: Time): Db {
    db.(attempts := map id | id in db.attempts ::
          if Recoverable(db, id, merchant) then db.attempts[id].(status := Unknown, resolvedAt := Some(now))
            else db.attempts[id])
  }

  function RecoverAll(db: Db, now: Time): Db {
    db.(attempts := map id | id in db.attempts ::
          if db.attempts[id].status == InFlight then db.attempts[id].(status := Unknown, resolvedAt := Some(now))
            else db.attempts[id])
  }

  function InFlightIds(db: Db): set<Id> {
    set id | id in db.attempts && db.attempts[id].status == InFlight
  }

  function RecoverableIds(db: Db, merchant: Id): set<Id> {
    set id | id in db.attempts && Recoverable(db, id, merchant)
  }

  // ---------------------------------------------------------------- the system and its steps

  /** A run of an attempt waiting for the port, with the row it read when it started. */
  datatype Waiting = Waiting(attemptId: Id, row: Attempt)

  datatype System = System(db: Db, runs: map<nat, Waiting>)

  datatype PortResult = PortResult(status: Status, sourceRef: Option<string>, occurredAt: Option<Time>)

  datatype Step =
    | Create(id: Id, conversationId: Id, text: string, at: Time, allowed: bool)
    | Start(run: nat, id: Id, at: Time)
    | Finish(run: nat, result: PortResult, at: Time, observedAt: Time)
    | FinalizeDirect(id: Id, messageId: Option<Id>, at: Time, observedAt: Time, sourceRef: Option<string>,
      occurredAt: Option<Time>)
    | Recover(merchant: Id, at: Time)
    | RecoverEverything(at: Time)
    | Crash
    | SaveInbound(id: Id, message: Message)
    | NewConversation(id: Id, conversation: Conversation)

  function Kept(db: Db, outcome: Outcome<Db>): Db {
    if outcome.Done? then outcome.value else db
  }

  /** A failed operation throws and leaves the tables as they are. */
  function Next(s: System, step: Step): System {
    match step
    case Create(id, conv, text, at, allowed) =>
      s.(db := Kept(s.db, CreateAuthorized(s.db, id, conv, text, at, allowed)))
    case Start(run, id, at) =>
      var db := MarkInFlight(s.db, id, at);
      if run !in s.runs && id in db.attempts && db.attempts[id].status == InFlight
      then System(db, s.runs[run := Waiting(id, db.attempts[id])])
      else s.(db := db)
    case Finish(run, result, at, observed) =>
      if run !in s.runs then s
      else
        var w := s.runs[run];
        var db :=
          if result.status == Acknowledged
          then Kept(s.db, Finalize(s.db, w.attemptId, Some(DeliveryMessageId(w.attemptId)), at, observed,
            result.sourceRef, result.occurredAt))
          else if result.status == Rejected || result.status == Unknown
          then Resolve(s.db, w.attemptId, result.status, at)
          else s.db;
        System(db, s.runs - {run})
    case FinalizeDirect(id, mid, at, observed, ref, occurred) =>
      s.(db := Kept(s.db, Finalize(s.db, id, mid, at, observed, ref, occurred)))
    case Recover(merchant, at) => s.(db := RecoverWorkspace(s.db, merchant, at))
    case RecoverEverything(at) => s.(db := RecoverAll(s.db, at))
    case Crash => s.(runs := map[])
    case SaveInbound(id, m) => if m.actor == Agent then s else s.(db := Kept(s.db, SaveMessage(s.db, id, m)))
    case NewConversation(id, c) =>
      if id in s.db.conversations then s else s.(db := s.db.(conversations := s.db.conversations[id := c]))
  }

  function Run(s: System, steps: seq<Step>): System
    decreases |steps|
  {
    if steps == [] then s else Run(Next(s, steps[0]), steps[1..])
  }

  // ---------------------------------------------------------------- what every step keeps

  /** An attempt row on its own: the status tells which times and links are filled in. */
  ghost predicate RowSound(a: Attempt) {
    && (a.status == Acknowledged <==> a.deliveredMessageId.Some?)
    && (a.status == Pending <==> a.dispatchedAt.None?)
    && (Terminal(a.status) <==> a.resolvedAt.Some?)
  }

  /** The message an attempt was delivered as. */
  ghost predicate DeliveredAs(db: Db, a: Attempt, mid: Id) {
    && mid in db.messages
    && db.messages[mid].actor == Agent
    && db.messages[mid].conversationId == a.conversationId
    && db.messages[mid].text == Some(a.text)
  }

  ghost predicate RowsSound(db: Db) {
    forall id :: id in db.attempts ==> RowSound(db.attempts[id]) && db.attempts[id].conversationId in db.conversations
  }

  ghost predicate LinksSound(db: Db) {
    forall id :: id in db.attempts && db.attempts[id].deliveredMessageId.Some? ==>
      DeliveredAs(db, db.attempts[id], db.attempts[id].deliveredMessageId.value)
  }

  ghost predicate LinksUnshared(db: Db) {
    forall i, j :: i in db.attempts && j in db.attempts && i != j && db.attempts[i].deliveredMessageId.Some? ==>
      db.attempts[i].deliveredMessageId != db.attempts[j].deliveredMessageId
  }

  ghost predicate Delivers(db: Db, id: Id, mid: Id) {
    id in db.attempts && db.attempts[id].deliveredMessageId == Some(mid)
  }

  /** No agent message without an attempt that was delivered as it. */
  ghost predicate MessagesAccounted(db: Db) {
    forall mid :: mid in db.messages && db.messages[mid].actor == Agent ==> exists id :: Delivers(db, id, mid)
  }

  ghost predicate Sound(db: Db) {
    RowsSound(db) && LinksSound(db) && LinksUnshared(db) && MessagesAccounted(db)
  }

  /** A waiting run read its row after the attempt had left PENDING. */
  ghost predicate RunsSound(s: System) {
    forall r :: r in s.runs ==>
      s.runs[r].attemptId in s.db.attempts && s.db.attempts[s.runs[r].attemptId].status != Pending
  }

  ghost predicate Good(s: System) {
    Sound(s.db) && RunsSound(s)
  }

  /** How a row may change: the payload and target never, a terminal row not at all. */
  ghost predicate RowEvolves(a: Attempt, b: Attempt) {
    && a.conversationId == b.conversationId && a.storeId == b.storeId && a.accountId == b.accountId
    && a.text == b.text && a.createdAt == b.createdAt
    && (Terminal(a.status) ==> b == a)
    && (a.status == InFlight ==> b.status != Pending && b.dispatchedAt == a.dispatchedAt)
  }

  ghost predicate Evolves(db: Db, db': Db) {
    && (forall id :: id in db.attempts ==> id in db'.attempts && RowEvolves(db.attempts[id], db'.attempts[id]))
    && (forall mid :: mid in db.messages ==> mid in db'.messages && db'.messages[mid] == db.messages[mid])
    && (forall c :: c in db.conversations ==> c in db'.conversations && db'.conversations[c] == db.conversations[c])
  }

  // ---------------------------------------------------------------- preservation

  /** Changing one row, with no delivery link before or after, keeps the tables sound. */
  lemma UpdateSound(db: Db, id: Id, a: Attempt)
    requires Sound(db) && RowSound(a) && a.deliveredMessageId.None? && a.conversationId in db.conversations
    requires id in db.attempts ==> db.attempts[id].deliveredMessageId.None? && RowEvolves(db.attempts[id], a)
    ensures Sound(db.(attempts := db.attempts[id := a])) && Evolves(db, db.(attempts := db.attempts[id := a]))
  {
    var db' := db.(attempts := db.attempts[id := a]);
    forall mid | mid in db'.messages && db'.messages[mid].actor == Agent ensures exists k :: Delivers(db', k, mid) {
      var k :| Delivers(db, k, mid);
      assert Delivers(db', k, mid);
    }
  }

  /** The same for many rows at once. */
  lemma RecoverSound(db: Db, db': Db, now: Time, chosen: set<Id>)
    requires Sound(db) && db'.messages == db.messages && db'.conversations == db.conversations
             && db'.attempts.Keys == db.attempts.Keys
    requires forall id :: id in db.attempts ==>
               db'.attempts[id] == if id in chosen then db.attempts[id].(status := Unknown, resolvedAt := Some(now))
                 else db.attempts[id]
    requires forall id :: id in chosen ==> id in db.attempts && db.attempts[id].status == InFlight
    ensures Sound(db') && Evolves(db, db')
  {
    forall id | id in db.attempts
      ensures RowSound(db'.attempts[id]) && db'.attempts[id].deliveredMessageId == db.attempts[id].deliveredMessageId
              && RowEvolves(db.attempts[id], db'.attempts[id])
    {
      assert RowSound(db.attempts[id]);
    }
    forall mid | mid in db'.messages && db'.messages[mid].actor == Agent ensures exists k :: Delivers(db', k, mid) {
      var k :| Delivers(db, k, mid);
      assert Delivers(db', k, mid);
    }
  }

  /** The transaction: the new message and the acknowledged row together. */
  lemma AcknowledgeSound(db: Db, id: Id, mid: Id, m: Message, a: Attempt)
    requires Sound(db) && id in db.attempts && db.attempts[id].status == InFlight && mid !in db.messages
    requires m.actor == Agent && m.conversationId == a.conversationId && m.text == Some(a.text)
    requires RowSound(a) && a.deliveredMessageId == Some(mid) && RowEvolves(db.attempts[id], a)
             && a.conversationId in db.conversations
    ensures var db' := db.(messages := db.messages[mid := m], attempts := db.attempts[id := a]);
            Sound(db') && Evolves(db, db')
  {
    var db' := db.(messages := db.messages[mid := m], attempts := db.attempts[id := a]);
    assert RowSound(db.attempts[id]);
    forall k | k in db'.attempts && k != id && db'.attempts[k].deliveredMessageId.Some?
      ensures DeliveredAs(db', db'.attempts[k], db'.attempts[k].deliveredMessageId.value)
      ensures db'.attempts[k].deliveredMessageId.value != mid
    {
      assert DeliveredAs(db, db.attempts[k], db.attempts[k].deliveredMessageId.value);
    }
    forall x | x in db'.messages && db'.messages[x].actor == Agent ensures exists k :: Delivers(db', k, x) {
      if x == mid {
        assert Delivers(db', id, mid);
      } else {
        var k :| Delivers(db, k, x);
        assert k != id;
        assert Delivers(db', k, x);
      }
    }
  }

  lemma FinalizeSound(db: Db, id: Id, messageId: Option<Id>, now: Time, observed: Time, ref: Option<string>,
        occurred: Option<Time>)
    requires Sound(db)
    ensures var db' := Kept(db, Finalize(db, id, messageId, now, observed, ref, occurred));
            Sound(db') && Evolves(db, db')
  {
    hide LinksSound, LinksUnshared, MessagesAccounted;
    var outcome := Finalize(db, id, messageId, now, observed, ref, occurred);
    if outcome.Done? && db.attempts[id].status == InFlight {
      var a := db.attempts[id];
      var mid := if messageId.Some? then messageId.value else DeliveryMessageId(id);
      var m := Message(a.conversationId, Agent, Some(a.text), occurred, Some(observed));
      var a' := a.(status := Acknowledged, resolvedAt := Some(now), deliveredMessageId := Some(mid),
        ackSourceRef := ref, ackOccurredAt := occurred);
      AcknowledgeSound(db, id, mid, m, a');
      assert outcome.value == db.(messages := db.messages[mid := m], attempts := db.attempts[id := a']);
    }
  }

  lemma SaveSound(db: Db, id: Id, m: Message)
    requires Sound(db) && m.actor != Agent
    ensures var db' := Kept(db, SaveMessage(db, id, m)); Sound(db') && Evolves(db, db')
  {
    var db' := Kept(db, SaveMessage(db, id, m));
    forall k | k in db'.attempts && db'.attempts[k].deliveredMessageId.Some?
      ensures DeliveredAs(db', db'.attempts[k], db'.attempts[k].deliveredMessageId.value)
    {
      assert DeliveredAs(db, db.attempts[k], db.attempts[k].deliveredMessageId.value);
    }
    forall x | x in db'.messages && db'.messages[x].actor == Agent ensures exists k :: Delivers(db', k, x) {
      var k :| Delivers(db, k, x);
      assert Delivers(db', k, x);
    }
  }

  lemma ConversationSound(db: Db, id: Id, c: Conversation)
    requires Sound(db) && id !in db.conversations
    ensures var db' := db.(conversations := db.conversations[id := c]); Sound(db') && Evolves(db, db')
  {
    var db' := db.(conversations := db.conversations[id := c]);
    forall x | x in db'.messages && db'.messages[x].actor == Agent ensures exists k :: Delivers(db', k, x) {
      var k :| Delivers(db, k, x);
      assert Delivers(db', k, x);
    }
    forall k | k in db'.attempts && db'.attempts[k].deliveredMessageId.Some?
      ensures DeliveredAs(db', db'.attempts[k], db'.attempts[k].deliveredMessageId.value)
    {
      assert DeliveredAs(db, db.attempts[k], db.attempts[k].deliveredMessageId.value);
    }
  }

  lemma SameEvolves(db: Db)
    ensures Evolves(db, db)
  {}

  lemma MarkSound(db: Db, id: Id, now: Time)
    requires Sound(db)
    ensures Sound(MarkInFlight(db, id, now)) && Evolves(db, MarkInFlight(db, id, now))
  {
    hide LinksSound, LinksUnshared, MessagesAccounted;
    if id in db.attempts && db.attempts[id].status == Pending {
      UpdateSound(db, id, db.attempts[id].(status := InFlight, dispatchedAt := Some(now)));
    }
  }

  /** Resolving is safe for an attempt that has left PENDING. */
  lemma ResolveSound(db: Db, id: Id, status: Status, now: Time)
    requires Sound(db) && (status == Rejected || status == Unknown)
             && (id in db.attempts ==> db.attempts[id].status != Pending)
    ensures Sound(Resolve(db, id, status, now)) && Evolves(db, Resolve(db, id, status, now))
  {
    hide LinksSound, LinksUnshared, MessagesAccounted;
    if id in db.attempts && !Terminal(db.attempts[id].status) {
      UpdateSound(db, id, db.attempts[id].(status := status, resolvedAt := Some(now)));
    }
  }

  lemma RunsKept(s: System, db': Db)
    requires RunsSound(s) && Evolves(s.db, db')
    ensures RunsSound(s.(db := db'))
  {
    forall r | r in s.runs
      ensures s.runs[r].attemptId in db'.attempts && db'.attempts[s.runs[r].attemptId].status != Pending
    {
      assert RowEvolves(s.db.attempts[s.runs[r].attemptId], db'.attempts[s.runs[r].attemptId]);
    }
  }

  /** Every step keeps the tables sound and only lets rows evolve. */
  lemma NextGood(s: System, step: Step)
    requires Good(s)
    ensures Good(Next(s, step)) && Evolves(s.db, Next(s, step).db)
  {
    hide RowsSound, LinksSound, LinksUnshared, MessagesAccounted, Evolves, RowEvolves, Finalize, MarkInFlight, Resolve,
      RecoverWorkspace, RecoverAll, SaveMessage;
    SameEvolves(s.db);
    match step
    case Create(id, conv, text, at, allowed) =>
      CreateSound(s.db, id, conv, text, at, allowed);
      RunsKept(s, Next(s, step).db);
    case Start(run, id, at) =>
      MarkSound(s.db, id, at);
      RunsKept(s, MarkInFlight(s.db, id, at));
    case Finish(run, result, at, observed) =>
      if run in s.runs {
        var w := s.runs[run];
        FinalizeSound(s.db, w.attemptId, Some(DeliveryMessageId(w.attemptId)), at, observed, result.sourceRef,
          result.occurredAt);
        if result.status == Rejected || result.status == Unknown { ResolveSound(s.db, w.attemptId, result.status, at); }
        RunsKept(s, Next(s, step).db);
      }
    case FinalizeDirect(id, mid, at, observed, ref, occurred) =>
      FinalizeSound(s.db, id, mid, at, observed, ref, occurred);
      RunsKept(s, Next(s, step).db);
    case Recover(merchant, at) =>
      RecoverWorkspaceSound(s.db, merchant, at);
      RunsKept(s, Next(s, step).db);
    case RecoverEverything(at) =>
      RecoverAllSound(s.db, at);
      RunsKept(s, Next(s, step).db);
    case Crash =>
    case SaveInbound(id, m) =>
      if m.actor != Agent { SaveSound(s.db, id, m); }
      RunsKept(s, Next(s, step).db);
    case NewConversation(id, c) =>
      if id !in s.db.conversations { ConversationSound(s.db, id, c); }
      RunsKept(s, Next(s, step).db);
  }

  lemma CreateSound(db: Db, id: Id, conversationId: Id, text: string, now: Time, allowed: bool)
    requires Sound(db)
    ensures var db' := Kept(db, CreateAuthorized(db, id, conversationId, text, now, allowed));
            Sound(db') && Evolves(db, db')
  {
    hide RowsSound, LinksSound, LinksUnshared, MessagesAccounted, Evolves, RowEvolves;
    SameEvolves(db);
    if CreateAuthorized(db, id, conversationId, text, now, allowed).Done? {
      var c := db.conversations[conversationId];
      UpdateSound(db, id,
        Attempt(conversationId, c.storeId, c.accountId, text, Pending, now, None, None, None, None, None));
    }
  }

  lemma RecoverWorkspaceSound(db: Db, merchant: Id, now: Time)
    requires Sound(db)
    ensures Sound(RecoverWorkspace(db, merchant, now)) && Evolves(db, RecoverWorkspace(db, merchant, now))
  {
    hide RowsSound, LinksSound, LinksUnshared, MessagesAccounted, Evolves;
    RecoverSound(db, RecoverWorkspace(db, merchant, now), now, RecoverableIds(db, merchant));
  }

  lemma RecoverAllSound(db: Db, now: Time)
    requires Sound(db)
    ensures Sound(RecoverAll(db, now)) && Evolves(db, RecoverAll(db, now))
  {
    hide RowsSound, LinksSound, LinksUnshared, MessagesAccounted, Evolves;
    RecoverSound(db, RecoverAll(db, now), now, InFlightIds(db));
  }
}
