/** What each step of the delivery journal comes to, said on the rows themselves. */
module DeliverySteps {
  import opened Basics
  import opened DeliveryJournal
  import opened DeliveryResults

  /** Only the row of `id` may differ, and it is `a` now; messages and conversations stay. */
  ghost predicate RowSet(db: Db, db': Db, id: Id, a: Attempt) {
    db'.conversations == db.conversations && db'.messages == db.messages && db'.attempts == db.attempts[id := a]
  }

  /**
   An attempt is created exactly when it is allowed, its conversation exists and its id is new. The
   row carries the text and the conversation's own store and account; otherwise nothing changes.
   */
  lemma CreateMeaning(s: System, id: Id, conversation: Id, text: string, at: Time, allowed: bool)
    ensures var s' := Next(s, Create(id, conversation, text, at, allowed));
            && s'.runs == s.runs
            && (if allowed && conversation in s.db.conversations && id !in s.db.attempts
                then var c := s.db.conversations[conversation];
                     RowSet(s.db, s'.db, id,
                            Attempt(conversation, c.storeId, c.accountId, text, Pending, at, None, None, None, None,
                              None))
                else s'.db == s.db)
  {}

  /**
   A run starts exactly for an attempt that is pending or in flight already; a pending one is in
   flight from then on, before the port is asked.
   */
  lemma StartMeaning(s: System, run: nat, id: Id, at: Time)
    requires run !in s.runs
    ensures var s' := Next(s, Start(run, id, at));
            && (run in s'.runs <==> id in s.db.attempts && !Terminal(s.db.attempts[id].status))
            && (run in s'.runs ==> s'.runs == s.runs[run := Waiting(id, s'.db.attempts[id])])
            && (run !in s'.runs ==> s' == s)
            && (if id in s.db.attempts && s.db.attempts[id].status == Pending
                then RowSet(s.db, s'.db, id, s.db.attempts[id].(status := InFlight, dispatchedAt := Some(at)))
                else s'.db == s.db)
  {}

  /**
   The port acknowledges a run whose attempt is still in flight: with the message id free the attempt
   is acknowledged and delivered as the message "dlv-" and its id, of its own conversation and text,
   with the source reference and time of the answer. With the id taken nothing is written.
   */
  lemma FinishAcknowledged(s: System, run: nat, result: PortResult, at: Time, observed: Time)
    requires Good(s) && run in s.runs && result.status == Acknowledged
    requires s.db.attempts[s.runs[run].attemptId].status == InFlight
    ensures var id := s.runs[run].attemptId;
            var a, mid := s.db.attempts[id], "dlv-" + id;
            var s' := Next(s, Finish(run, result, at, observed));
            && s'.runs == s.runs - {run} && s'.db.conversations == s.db.conversations
            && (mid in s.db.messages ==> s'.db == s.db)
            && (mid !in s.db.messages ==>
                  && s'.db.messages ==
                       s.db.messages[mid :=
                         Message(a.conversationId, Agent, Some(a.text), result.occurredAt, Some(observed))]
                  && s'.db.attempts ==
                       s.db.attempts[id := Attempt(a.conversationId, a.storeId, a.accountId, a.text, Acknowledged,
                                                   a.createdAt, a.dispatchedAt, Some(at), Some(mid),
                                                   result.sourceRef, result.occurredAt)])
  {
    hide LinksSound, LinksUnshared, MessagesAccounted;
  }

  /** The port rejects, or cannot tell: the attempt has that status, and no message is written. */
  lemma FinishResolved(s: System, run: nat, result: PortResult, at: Time, observed: Time)
    requires Good(s) && run in s.runs && (result.status == Rejected || result.status == Unknown)
    requires s.db.attempts[s.runs[run].attemptId].status == InFlight
    ensures var id := s.runs[run].attemptId;
            var s' := Next(s, Finish(run, result, at, observed));
            && s'.runs == s.runs - {run}
            && RowSet(s.db, s'.db, id, s.db.attempts[id].(status := result.status, resolvedAt := Some(at)))
  {
    hide RowsSound, LinksSound, LinksUnshared, MessagesAccounted;
  }

  /** Whatever the port answers after the attempt has been settled otherwise, nothing changes. */
  lemma FinishLate(s: System, run: nat, result: PortResult, at: Time, observed: Time)
    requires Good(s) && run in s.runs && Terminal(s.db.attempts[s.runs[run].attemptId].status)
    ensures Next(s, Finish(run, result, at, observed)) == s.(runs := s.runs - {run})
  {
    hide RowsSound, LinksSound, LinksUnshared, MessagesAccounted;
  }

  /**
   Finalizing directly: a repeat on an acknowledged attempt is done and changes nothing; an attempt in
   flight is acknowledged when the message id is free; anything else fails and changes nothing.
   */
  lemma FinalizeMeaning(s: System, id: Id, messageId: Option<Id>, at: Time, observed: Time,
        ref: Option<string>, occurred: Option<Time>)
    requires Good(s)
    ensures var mid := if messageId.Some? then messageId.value else "dlv-" + id;
            var s' := Next(s, FinalizeDirect(id, messageId, at, observed, ref, occurred));
            var outcome := Finalize(s.db, id, messageId, at, observed, ref, occurred);
            var writes := id in s.db.attempts && s.db.attempts[id].status == InFlight && mid !in s.db.messages;
            && s'.runs == s.runs && s'.db.conversations == s.db.conversations
            && (outcome.Done? <==> writes || (id in s.db.attempts && s.db.attempts[id].status == Acknowledged))
            && (!writes ==> s'.db == s.db)
            && (writes ==>
                  var a := s.db.attempts[id];
                  && s'.db.messages
                     == s.db.messages[mid := Message(a.conversationId, Agent, Some(a.text), occurred, Some(observed))]
                  && s'.db.attempts ==
                       s.db.attempts[id := Attempt(a.conversationId, a.storeId, a.accountId, a.text, Acknowledged,
                                                   a.createdAt, a.dispatchedAt, Some(at), Some(mid), ref, occurred)])
  {
    hide LinksSound, LinksUnshared, MessagesAccounted;
  }

  /** Recovery, of one merchant or of all: exactly the attempts in flight become UNKNOWN, at that time. */
  lemma RecoveryMeaning(s: System, merchant: Option<Id>, at: Time, id: Id)
    requires id in s.db.attempts
    ensures var s' := Next(s, if merchant.Some? then Recover(merchant.value, at) else RecoverEverything(at));
            var a := s.db.attempts[id];
            var owned := merchant.None? ||
              (a.conversationId in s.db.conversations
                && s.db.conversations[a.conversationId].merchantId == merchant.value);
            && s'.runs == s.runs && s'.db.conversations == s.db.conversations && s'.db.messages == s.db.messages
            && s'.db.attempts.Keys == s.db.attempts.Keys
            && s'.db.attempts[id] == if a.status == InFlight
               && owned then a.(status := Unknown, resolvedAt := Some(at)) else a
  {}

  /** A crash loses the waiting runs and no row. */
  lemma CrashMeaning(s: System)
    ensures Next(s, Crash).db == s.db && Next(s, Crash).runs == map[]
  {}

  /**
   End to end, from any reachable state: an allowed attempt for an existing conversation, run and
   acknowledged by the port, ends acknowledged, as a message of that conversation with that text.
   */
  lemma Delivered(before: seq<Step>, id: Id, conversation: Id, text: string, run: nat, times: (Time, Time, Time, Time),
        ref: Option<string>, occurred: Option<Time>)
    requires var s := Run(Fresh, before);
             && conversation in s.db.conversations && id !in s.db.attempts
             && "dlv-" + id !in s.db.messages && run !in s.runs
    ensures var steps := [Create(id, conversation, text, times.0, true), Start(run, id, times.1),
                          Finish(run, PortResult(Acknowledged, ref, occurred), times.2, times.3)];
            var s, mid := Run(Fresh, before), "dlv-" + id;
            var end := Run(s, steps);
            && end.runs == s.runs
            && end.db.messages
               == s.db.messages[mid := Message(conversation, Agent, Some(text), occurred, Some(times.3))]
            && end.db.attempts.Keys == s.db.attempts.Keys + {id}
            && (forall other :: other in s.db.attempts ==> end.db.attempts[other] == s.db.attempts[other])
            && end.db.attempts[id].status == Acknowledged && end.db.attempts[id].deliveredMessageId == Some(mid)
            && end.db.attempts[id].conversationId == conversation && end.db.attempts[id].text == text
  {
    hide Good, Next, RowSet;
    var s := Run(Fresh, before);
    FreshGood();
    RunGood(Fresh, before);
    var create, start := Create(id, conversation, text, times.0, true), Start(run, id, times.1);
    var result := PortResult(Acknowledged, ref, occurred);
    var finish := Finish(run, result, times.2, times.3);
    ThreeSteps(s, create, start, finish);
    BeforeFinish(s, id, conversation, text, run, times.0, times.1);
    FinishAcknowledged(Next(Next(s, create), start), run, result, times.2, times.3);
  }

  lemma ThreeSteps(s: System, a: Step, b: Step, c: Step)
    ensures Run(s, [a, b, c]) == Next(Next(Next(s, a), b), c)
  {
    hide Next;
    var s1, s2, s3 := Next(s, a), Next(Next(s, a), b), Next(Next(Next(s, a), b), c);
    assert Run(s3, []) == s3;
    assert Run(s2, [c]) == s3;
    assert Run(s1, [b, c]) == s3;
  }

  lemma BeforeFinish(s: System, id: Id, conversation: Id, text: string, run: nat, created: Time, started: Time)
    requires Good(s) && conversation in s.db.conversations && id !in s.db.attempts && run !in s.runs
    ensures var s' := Next(Next(s, Create(id, conversation, text, created, true)), Start(run, id, started));
            && Good(s') && s'.db.messages == s.db.messages && s'.db.attempts.Keys == s.db.attempts.Keys + {id}
            && (forall other :: other in s.db.attempts ==> s'.db.attempts[other] == s.db.attempts[other])
            && s'.runs.Keys == s.runs.Keys + {run} && s'.runs - {run} == s.runs && s'.runs[run].attemptId == id
            && s'.db.attempts[id].status == InFlight
            && s'.db.attempts[id].conversationId == conversation && s'.db.attempts[id].text == text
  {
    hide Good, Next;
    var s1 := Next(s, Create(id, conversation, text, created, true));
    NextGood(s, Create(id, conversation, text, created, true));
    NextGood(s1, Start(run, id, started));
    CreateMeaning(s, id, conversation, text, created, true);
    StartMeaning(s1, run, id, started);
  }
}
