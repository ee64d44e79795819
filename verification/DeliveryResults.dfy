/** What holds over every run of the delivery journal, and the journal object itself. */
module DeliveryResults {
  import opened Basics
  import opened DeliveryJournal

  // ---------------------------------------------------------------- every run

  const Fresh := System(Db(map[], map[], map[]), map[])

  lemma FreshGood()
    ensures Good(Fresh)
  {}

  lemma EvolvesTransitive(a: Db, b: Db, c: Db)
    requires Evolves(a, b) && Evolves(b, c)
    ensures Evolves(a, c)
  {
    forall id | id in a.attempts ensures id in c.attempts && RowEvolves(a.attempts[id], c.attempts[id]) {
      assert RowEvolves(a.attempts[id], b.attempts[id]) && RowEvolves(b.attempts[id], c.attempts[id]);
    }
  }

  /** Over every interleaving the tables stay sound and terminal rows and payloads stay as they are. */
  lemma {:induction false} RunGood(s: System, steps: seq<Step>)
    requires Good(s)
    ensures Good(Run(s, steps)) && Evolves(s.db, Run(s, steps).db)
    decreases |steps|
  {
    hide Good, Evolves, Next;
    if steps == [] {
      SameEvolves(s.db);
    } else {
      NextGood(s, steps[0]);
      RunGood(Next(s, steps[0]), steps[1..]);
      EvolvesTransitive(s.db, Next(s, steps[0]).db, Run(s, steps).db);
    }
  }

  /** An attempt is acknowledged exactly when a message of its own conversation and text exists for it. */
  lemma AcknowledgedExactly(steps: seq<Step>, id: Id)
    requires id in Run(Fresh, steps).db.attempts
    ensures var db := Run(Fresh, steps).db;
            db.attempts[id].status == Acknowledged <==>
              exists mid :: Delivers(db, id, mid) && DeliveredAs(db, db.attempts[id], mid)
    ensures var db := Run(Fresh, steps).db;
            forall mid, other :: Delivers(db, id, mid) && Delivers(db, other, mid) ==> other == id
  {
    hide Run;
    FreshGood();
    RunGood(Fresh, steps);
    var db := Run(Fresh, steps).db;
    assert RowSound(db.attempts[id]);
    if db.attempts[id].status == Acknowledged {
      var mid := db.attempts[id].deliveredMessageId.value;
      assert Delivers(db, id, mid) && DeliveredAs(db, db.attempts[id], mid);
    }
  }

  function AcknowledgedIds(db: Db): set<Id> {
    set id | id in db.attempts && db.attempts[id].status == Acknowledged
  }

  function AgentMessages(db: Db): set<Id> {
    set mid | mid in db.messages && db.messages[mid].actor == Agent
  }

  ghost function MessagesOf(db: Db, ids: set<Id>): set<Id>
    requires forall id :: id in ids ==> id in db.attempts && db.attempts[id].deliveredMessageId.Some?
  {
    set id | id in ids :: db.attempts[id].deliveredMessageId.value
  }

  lemma {:induction false} OneEach(db: Db, ids: set<Id>)
    requires LinksUnshared(db)
    requires forall id :: id in ids ==> id in db.attempts && db.attempts[id].deliveredMessageId.Some?
    ensures |MessagesOf(db, ids)| == |ids|
    decreases ids
  {
    if ids != {} {
      var id :| id in ids;
      var rest := ids - {id};
      OneEach(db, rest);
      var mid := db.attempts[id].deliveredMessageId.value;
      assert MessagesOf(db, ids) == MessagesOf(db, rest) + {mid};
      assert mid !in MessagesOf(db, rest);
    }
  }

  /** Conservation: there are as many agent messages as acknowledged attempts. */
  lemma MessagesConserved(steps: seq<Step>)
    ensures var db := Run(Fresh, steps).db; |AgentMessages(db)| == |AcknowledgedIds(db)|
  {
    hide Run;
    FreshGood();
    RunGood(Fresh, steps);
    var db := Run(Fresh, steps).db;
    var ids := AcknowledgedIds(db);
    forall id | id in ids ensures db.attempts[id].deliveredMessageId.Some? { assert RowSound(db.attempts[id]); }
    OneEach(db, ids);
    assert MessagesOf(db, ids) == AgentMessages(db) by {
      forall mid | mid in AgentMessages(db) ensures mid in MessagesOf(db, ids) {
        var id :| Delivers(db, id, mid);
        assert RowSound(db.attempts[id]);
      }
      forall id | id in ids ensures db.attempts[id].deliveredMessageId.value in AgentMessages(db) {
        assert DeliveredAs(db, db.attempts[id], db.attempts[id].deliveredMessageId.value);
      }
    }
  }

  // ---------------------------------------------------------------- recovery

  /** A second recovery finds nothing, and recovery leaves the other merchants' attempts alone. */
  lemma RecoveryScoped(db: Db, merchant: Id, now: Time, other: Id, later: Time)
    ensures RecoverableIds(RecoverWorkspace(db, merchant, now), merchant) == {}
    ensures RecoverWorkspace(RecoverWorkspace(db, merchant, now), merchant, later)
            == RecoverWorkspace(db, merchant, now)
    ensures other != merchant ==>
            RecoverableIds(RecoverWorkspace(db, merchant, now), other) == RecoverableIds(db, other)
    ensures InFlightIds(RecoverWorkspace(db, merchant, now)) == InFlightIds(db) - RecoverableIds(db, merchant)
  {
    var db' := RecoverWorkspace(db, merchant, now);
    assert RecoverWorkspace(db', merchant, later).attempts == db'.attempts;
  }

  /** Recoveries for different merchants commute. */
  lemma RecoveriesCommute(db: Db, m: Id, t: Time, n: Id, u: Time)
    requires m != n
    ensures RecoverWorkspace(RecoverWorkspace(db, m, t), n, u) == RecoverWorkspace(RecoverWorkspace(db, n, u), m, t)
  {
    hide RecoverWorkspace;
    var a, b := RecoverWorkspace(RecoverWorkspace(db, m, t), n, u), RecoverWorkspace(RecoverWorkspace(db, n, u), m, t);
    forall id ensures id in a.attempts <==> id in b.attempts
              ensures id in a.attempts ==> a.attempts[id] == b.attempts[id]
    {
      RowAfterTwo(db, m, t, n, u, id);
      RowAfterTwo(db, n, u, m, t, id);
    }
    assert a.attempts == b.attempts;
    OtherTables(db, m, t, n, u);
    OtherTables(db, n, u, m, t);
  }

  lemma OtherTables(db: Db, m: Id, t: Time, n: Id, u: Time)
    ensures var a := RecoverWorkspace(RecoverWorkspace(db, m, t), n, u);
            a.messages == db.messages && a.conversations == db.conversations
  {}

  lemma RowAfterTwo(db: Db, m: Id, t: Time, n: Id, u: Time, id: Id)
    requires m != n
    ensures var a := RecoverWorkspace(RecoverWorkspace(db, m, t), n, u);
            && (id in a.attempts <==> id in db.attempts)
            && (id in db.attempts ==>
                  a.attempts[id] ==
                    if Recoverable(db, id, m) then db.attempts[id].(status := Unknown, resolvedAt := Some(t))
                    else if Recoverable(db, id, n) then db.attempts[id].(status := Unknown, resolvedAt := Some(u))
                    else db.attempts[id])
  {}

  /**
   After recovery the attempt is UNKNOWN for good: whatever happens next, no message is delivered for
   it, and an acknowledgement that arrives late is refused and changes nothing.
   */
  lemma LateAcknowledgementRefused(s: System, merchant: Id, at: Time, id: Id, steps: seq<Step>, messageId: Option<Id>,
        t: Time, observed: Time, ref: Option<string>, occurred: Option<Time>)
    requires Good(s) && Recoverable(s.db, id, merchant)
    ensures var db := Run(Next(s, Recover(merchant, at)), steps).db;
            && id in db.attempts && db.attempts[id].status == Unknown
            && (forall mid :: !Delivers(db, id, mid))
            && Finalize(db, id, messageId, t, observed, ref, occurred) == Failed
            && Resolve(db, id, Rejected, t) == db
  {
    hide RowsSound, LinksSound, LinksUnshared, MessagesAccounted, Run;
    var s' := Next(s, Recover(merchant, at));
    NextGood(s, Recover(merchant, at));
    RunGood(s', steps);
    var db := Run(s', steps).db;
    assert s'.db.attempts[id].status == Unknown;
    assert RowEvolves(s'.db.attempts[id], db.attempts[id]);
    NoLink(db, id);
  }

  lemma NoLink(db: Db, id: Id)
    requires RowsSound(db) && id in db.attempts && db.attempts[id].status != Acknowledged
    ensures forall mid :: !Delivers(db, id, mid)
  {
    assert RowSound(db.attempts[id]);
  }

  // ---------------------------------------------------------------- the journal object

  class Journal {
    var conversations: map<Id, Conversation>
    var attempts: map<Id, Attempt>
    var messages: map<Id, Message>
    var inTransaction: bool

    ghost function Tables(): Db
      reads this
    {
      Db(conversations, attempts, messages)
    }

    method MarkRowInFlight(id: Id, now: Time) returns (row: Option<Attempt>)
      modifies this`attempts
      ensures Tables() == MarkInFlight(old(Tables()), id, now)
      ensures row == if id in attempts then Some(attempts[id]) else None
    {
      if id in attempts && attempts[id].status == Pending {
        attempts := attempts[id := attempts[id].(status := InFlight, dispatchedAt := Some(now))];
      }
      row := if id in attempts then Some(attempts[id]) else None;
    }

    method ResolveRow(id: Id, status: Status, now: Time) returns (row: Option<Attempt>)
      requires status == Rejected || status == Unknown
      modifies this`attempts
      ensures Tables() == Resolve(old(Tables()), id, status, now)
      ensures row == if id in attempts then Some(attempts[id]) else None
    {
      if id in attempts && (attempts[id].status == Pending || attempts[id].status == InFlight) {
        attempts := attempts[id := attempts[id].(status := status, resolvedAt := Some(now))];
      }
      row := if id in attempts then Some(attempts[id]) else None;
    }

    method AcknowledgeRow(id: Id, now: Time, messageId: Id, sourceRef: Option<string>, occurredAt: Option<Time>)
      modifies this`attempts
      ensures Tables() == UpdateAcknowledged(old(Tables()), id, now, messageId, sourceRef, occurredAt)
    {
      if id in attempts && attempts[id].status == InFlight {
        attempts := attempts[id := attempts[id].(status := Acknowledged, resolvedAt := Some(now),
                      deliveredMessageId := Some(messageId), ackSourceRef := sourceRef, ackOccurredAt := occurredAt)];
      }
    }

    method InsertMessage(id: Id, m: Message) returns (ok: bool)
      modifies this`messages
      ensures ok == SaveMessage(old(Tables()), id, m).Done?
      ensures Tables() == Kept(old(Tables()), SaveMessage(old(Tables()), id, m))
    {
      ok := id !in messages && m.conversationId in conversations;
      if ok { messages := messages[id := m]; }
    }

    /** Finalization in one transaction: a failed insert rolls both tables back. */
    method FinalizeAcknowledged(id: Id, messageId: Option<Id>, now: Time, observedAt: Time, sourceRef: Option<string>,
          occurredAt: Option<Time>)
      returns (outcome: Outcome<Attempt>)
      requires !inTransaction
      modifies this
      ensures !inTransaction
      ensures var spec := Finalize(old(Tables()), id, messageId, now, observedAt, sourceRef, occurredAt);
              && Tables() == Kept(old(Tables()), spec)
              && (outcome.Done? <==> spec.Done?)
              && (outcome.Done? ==>
                 id in attempts && outcome.value == attempts[id] && outcome.value.status == Acknowledged)
    {
      if id !in attempts { return Failed; }
      var a := attempts[id];
      if a.status == Acknowledged { return Done(a); }
      if a.status != InFlight { return Failed; }
      var mid := if messageId.Some? then messageId.value else DeliveryMessageId(id);
      var message := Message(a.conversationId, Agent, Some(a.text), occurredAt, Some(observedAt));
      inTransaction := true;
      var begunAttempts, begunMessages := attempts, messages;
      var saved := InsertMessage(mid, message);
      if !saved {
        attempts, messages := begunAttempts, begunMessages;
        inTransaction := false;
        return Failed;
      }
      AcknowledgeRow(id, now, mid, sourceRef, occurredAt);
      inTransaction := false;
      outcome := Done(attempts[id]);
    }

    /** The recovery loop over the in-flight attempts, with its two counters. */
    method RecoverWorkspaceInFlight(merchant: Id, now: Time) returns (recovered: nat, untouched: nat)
      modifies this`attempts
      ensures Tables() == RecoverWorkspace(old(Tables()), merchant, now)
      ensures recovered == |RecoverableIds(old(Tables()), merchant)|
      ensures recovered + untouched == |InFlightIds(old(Tables()))|
    {
      hide Recovering, RecoverWorkspace, RecoverableIds, Recoverable, InFlightIds, Resolve;
      ghost var before := Tables();
      RecoverNone(before, merchant, now);
      var todo := InFlightIds(Db(conversations, attempts, messages));
      ghost var done: set<Id> := {};
      recovered, untouched := 0, 0;
      while todo != {}
        invariant todo !! done && todo + done == InFlightIds(before)
        invariant conversations == before.conversations && messages == before.messages
        invariant Recovering(before, attempts, merchant, now, done)
        invariant recovered == |done * RecoverableIds(before, merchant)|
        invariant recovered + untouched == |done|
        decreases todo
      {
        var id :| id in todo;
        StillInFlight(before, attempts, merchant, now, done, id);
        ghost var was := attempts;
        var conv := attempts[id].conversationId;
        CountOne(done, RecoverableIds(before, merchant), id);
        if conv !in conversations || conversations[conv].merchantId != merchant {
          untouched := untouched + 1;
          RecoverStep(before, was, merchant, now, done, id);
        } else {
          var row := ResolveRow(id, Unknown, now);
          if row.Some? { recovered := recovered + 1; } else { untouched := untouched + 1; }
          RecoverStep(before, was, merchant, now, done, id);
        }
        todo, done := todo - {id}, done + {id};
      }
      RecoverDone(before, attempts, merchant, now, done);
    }
  }

  /** The rows of `done` have been recovered if recoverable; all others are untouched. */
  ghost predicate Recovering(before: Db, attempts: map<Id, Attempt>, merchant: Id, now: Time, done: set<Id>) {
    && attempts.Keys == before.attempts.Keys
    && forall id :: id in attempts ==>
         attempts[id] == if id in done && Recoverable(before, id, merchant)
                         then before.attempts[id].(status := Unknown, resolvedAt := Some(now)) else before.attempts[id]
  }

  lemma StillInFlight(before: Db, attempts: map<Id, Attempt>, merchant: Id, now: Time, done: set<Id>, id: Id)
    requires Recovering(before, attempts, merchant, now, done) && id in InFlightIds(before) && id !in done
    ensures id in attempts && attempts[id] == before.attempts[id] && attempts[id].status == InFlight
    ensures id in RecoverableIds(before, merchant) <==> Recoverable(before, id, merchant)
    ensures Recoverable(before, id, merchant) <==>
              attempts[id].conversationId in before.conversations
                && before.conversations[attempts[id].conversationId].merchantId == merchant
  {}

  lemma RecoverNone(before: Db, merchant: Id, now: Time)
    ensures Recovering(before, before.attempts, merchant, now, {})
  {}

  lemma CountOne(done: set<Id>, chosen: set<Id>, id: Id)
    requires id !in done
    ensures |done + {id}| == |done| + 1
    ensures |(done + {id}) * chosen| == |done * chosen| + if id in chosen then 1 else 0
  {
    if id in chosen {
      assert (done + {id}) * chosen == done * chosen + {id};
    } else {
      assert (done + {id}) * chosen == done * chosen;
    }
  }

  lemma RecoverStep(before: Db, attempts: map<Id, Attempt>, merchant: Id, now: Time, done: set<Id>, id: Id)
    requires Recovering(before, attempts, merchant, now, done) && id in InFlightIds(before) && id !in done
    ensures Recoverable(before, id, merchant) ==>
              Recovering(before, Resolve(before.(attempts := attempts), id, Unknown, now).attempts, merchant, now,
                done + {id})
              && Resolve(before.(attempts := attempts), id, Unknown, now).conversations == before.conversations
              && Resolve(before.(attempts := attempts), id, Unknown, now).messages == before.messages
              && id in Resolve(before.(attempts := attempts), id, Unknown, now).attempts
    ensures !Recoverable(before, id, merchant) ==> Recovering(before, attempts, merchant, now, done + {id})
  {}

  lemma RecoverDone(before: Db, attempts: map<Id, Attempt>, merchant: Id, now: Time, done: set<Id>)
    requires Recovering(before, attempts, merchant, now, done) && done == InFlightIds(before)
    ensures attempts == RecoverWorkspace(before, merchant, now).attempts
    ensures RecoverWorkspace(before, merchant, now) == before.(attempts := attempts)
    ensures done * RecoverableIds(before, merchant) == RecoverableIds(before, merchant)
  {}
}
