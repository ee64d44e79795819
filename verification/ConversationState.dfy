/**
 Generation tokens and the suggestion of one conversation. Buyer messages and human takeovers advance
 the token; AI results carry the generation they were asked for. Steps are cut at awaits, so AI calls
 may finish in any order; the sends of the conversation finish in the order they were queued.
 */
module ConversationState {
  import opened Basics

  datatype Status = Pending | Sent | Cancelled

  /** `serial` numbers the suggestions in the order they were stored. */
  datatype Suggestion = Suggestion(serial: nat, reply: string, generation: nat, status: Status)

  datatype Core = Core(token: nat, suggestion: Option<Suggestion>, stored: nat)

  predicate HasPending(c: Core) {
    c.suggestion.Some? && c.suggestion.value.status == Pending
  }

  function WithStatus(c: Core, status: Status): Core {
    if HasPending(c) then c.(suggestion := Some(c.suggestion.value.(status := status))) else c
  }

  /** A buyer message: a new generation, and no suggestion any more. */
  function BuyerMessage(c: Core): Core {
    c.(token := c.token + 1, suggestion := None)
  }

  /** A human takes over: a new generation, and a pending suggestion is cancelled. */
  function Takeover(c: Core): Core {
    WithStatus(c.(token := c.token + 1), Cancelled)
  }

  /** An AI result: ignored when its generation is behind the token or the reply is empty. */
  function AiResult(c: Core, reply: string, generation: nat): Core {
    if generation < c.token || reply == "" then c
    else c.(suggestion := Some(Suggestion(c.stored, reply, generation, Pending)), stored := c.stored + 1)
  }

  /** The conversation object. */
  class Conversation {
    var token: nat
    var suggestion: Option<Suggestion>
    var stored: nat

    function Now(): Core
      reads this
    {
      Core(token, suggestion, stored)
    }

    constructor ()
      ensures Now() == Core(0, None, 0)
    {
      token, suggestion, stored := 0, None, 0;
    }

    method OnBuyerMessage() returns (generation: nat)
      modifies this
      ensures Now() == BuyerMessage(old(Now())) && generation == token
      ensures token == old(token) + 1 && suggestion == None && stored == old(stored)
    {
      token := token + 1;
      generation := token;
      if suggestion.Some? && suggestion.value.status == Pending {
        suggestion := Some(suggestion.value.(status := Cancelled));
      }
      suggestion := None;
    }

    method ProcessAiResult(reply: string, generation: nat)
      modifies this
      ensures Now() == AiResult(old(Now()), reply, generation) && token == old(token)
      ensures suggestion == if generation < old(token) || reply == "" then old(suggestion)
                            else Some(Suggestion(old(stored), reply, generation, Pending))
    {
      if generation < token { return; }
      if |reply| == 0 { return; }
      suggestion := Some(Suggestion(stored, reply, generation, Pending));
      stored := stored + 1;
    }

    method OnTakeover()
      modifies this
      ensures Now() == Takeover(old(Now()))
      ensures token == old(token) + 1 && (suggestion == None <==> old(suggestion) == None)
      ensures suggestion.Some? ==> suggestion.value.status != Pending
    {
      token := token + 1;
      if suggestion.Some? && suggestion.value.status == Pending {
        suggestion := Some(suggestion.value.(status := Cancelled));
      }
    }

    method OnCancel()
      modifies this`suggestion
      ensures Now() == WithStatus(old(Now()), Cancelled)
      ensures suggestion == if old(suggestion).Some? && old(suggestion).value.status == Pending
                            then Some(old(suggestion).value.(status := Cancelled)) else old(suggestion)
    {
      if suggestion.Some? && suggestion.value.status == Pending {
        suggestion := Some(suggestion.value.(status := Cancelled));
      }
    }

    /** The end of a completed send: whatever suggestion is pending now is marked as sent. */
    method OnSendCompleted()
      modifies this`suggestion
      ensures Now() == WithStatus(old(Now()), Sent)
      ensures suggestion == if old(suggestion).Some? && old(suggestion).value.status == Pending
                            then Some(old(suggestion).value.(status := Sent)) else old(suggestion)
    {
      if suggestion.Some? && suggestion.value.status == Pending {
        suggestion := Some(suggestion.value.(status := Sent));
      }
    }
  }

  // ---------------------------------------------------------------- interleavings

  /**
   AI calls under way; the open sends, first in, first out, each with the serial of the suggestion it
   carries or none; and the serials that completed sends carried.
   */
  datatype System = System(core: Core, calls: map<nat, nat>, sends: seq<Option<nat>>, completed: set<nat>)

  datatype Step =
    | Buyer(call: nat)
    | AiDone(call: nat, reply: string, explicitGeneration: Option<nat>)
    | AiPush(reply: string, explicitGeneration: Option<nat>)
    | TakeOver
    | Cancel
    | SendSuggestion
    | SendOther
    | SendDone(ok: bool)

  function Next(s: System, step: Step): System {
    match step
    case Buyer(call) =>
      if call in s.calls then s
      else s.(core := BuyerMessage(s.core), calls := s.calls[call := s.core.token + 1])
    case AiDone(call, reply, explicit) =>
      if call !in s.calls then s
      else
        var generation := if explicit.Some? then explicit.value else s.calls[call];
        s.(core := AiResult(s.core, reply, generation), calls := s.calls - {call})
    case AiPush(reply, explicit) =>
      s.(core := AiResult(s.core, reply, if explicit.Some? then explicit.value else s.core.token))
    case TakeOver => s.(core := Takeover(s.core))
    case Cancel => s.(core := WithStatus(s.core, Cancelled))
    case SendSuggestion =>
      if !HasPending(s.core) then s
      else s.(sends := s.sends + [Some(s.core.suggestion.value.serial)])
    case SendOther => s.(sends := s.sends + [None])
    case SendDone(ok) =>
      if s.sends == [] then s
      else
        var s' := s.(sends := s.sends[1..]);
        if !ok then s'
        else
          var carried := s.sends[0];
          s'.(core := WithStatus(s.core, Sent),
              completed := if carried.Some? then s.completed + {carried.value} else s.completed)
  }

  function Run(s: System, steps: seq<Step>): System
    decreases |steps|
  {
    if steps == [] then s else Run(Next(s, steps[0]), steps[1..])
  }

  const Start := System(Core(0, None, 0), map[], [], {})

  // ---------------------------------------------------------------- generations

  /** No call and no suggestion waiting for an answer is out of step with the token. */
  ghost predicate InStep(s: System) {
    && (forall c :: c in s.calls ==> s.calls[c] <= s.core.token)
    && (HasPending(s.core) ==> s.core.token <= s.core.suggestion.value.generation)
  }

  lemma NextInStep(s: System, step: Step)
    requires InStep(s)
    ensures InStep(Next(s, step)) && s.core.token <= Next(s, step).core.token
  {}

  /** In every interleaving, whatever generations results name, a pending suggestion is not behind the token. */
  lemma {:induction false} RunInStep(s: System, steps: seq<Step>)
    requires InStep(s)
    ensures InStep(Run(s, steps)) && s.core.token <= Run(s, steps).core.token
    decreases |steps|
  {
    hide InStep, Next;
    if steps != [] {
      NextInStep(s, steps[0]);
      RunInStep(Next(s, steps[0]), steps[1..]);
    }
  }

  lemma StartInStep(steps: seq<Step>)
    ensures InStep(Run(Start, steps))
  {
    RunInStep(Start, steps);
  }

  /** A pending suggestion carries the current generation. */
  predicate Level(s: System) {
    HasPending(s.core) ==> s.core.suggestion.value.generation == s.core.token
  }

  predicate AlwaysLevel(s: System, steps: seq<Step>)
    decreases |steps|
  {
    Level(s) && (steps == [] || AlwaysLevel(Next(s, steps[0]), steps[1..]))
  }

  /** A result with a reply names a generation that has not been issued. */
  predicate NamesAhead(s: System, step: Step) {
    match step
    case AiDone(call, reply, explicit) =>
      call in s.calls && reply != "" && explicit.Some? && explicit.value > s.core.token
    case AiPush(reply, explicit) => reply != "" && explicit.Some? && explicit.value > s.core.token
    case _ => false
  }

  predicate NeverAhead(s: System, steps: seq<Step>)
    decreases |steps|
  {
    steps == [] || (!NamesAhead(s, steps[0]) && NeverAhead(Next(s, steps[0]), steps[1..]))
  }

  lemma NextLevel(s: System, step: Step)
    requires InStep(s) && Level(s)
    ensures Level(Next(s, step)) <==> !NamesAhead(s, step)
  {}

  lemma {:induction false} LevelExactly(s: System, steps: seq<Step>)
    requires InStep(s) && Level(s)
    ensures AlwaysLevel(s, steps) <==> NeverAhead(s, steps)
    decreases |steps|
  {
    hide InStep, Next, Level, NamesAhead;
    if steps == [] {
    } else {
      NextInStep(s, steps[0]);
      NextLevel(s, steps[0]);
      if Level(Next(s, steps[0])) {
        LevelExactly(Next(s, steps[0]), steps[1..]);
      } else {
        NotLevel(Next(s, steps[0]), steps[1..]);
      }
    }
  }

  lemma NotLevel(s: System, steps: seq<Step>)
    requires !Level(s)
    ensures !AlwaysLevel(s, steps)
  {}

  /**
   In every interleaving from the start a pending suggestion carries the current generation all
   along exactly when no result names a generation that has not been issued.
   */
  lemma RunCurrent(steps: seq<Step>)
    ensures AlwaysLevel(Start, steps) <==> NeverAhead(Start, steps)
  {
    LevelExactly(Start, steps);
  }

  /** A step that starts a new generation. */
  predicate NewGeneration(s: System, step: Step) {
    step.TakeOver? || (step.Buyer? && step.call !in s.calls)
  }

  /** A buyer message, a takeover, a cancellation and a completed send leave nothing pending. */
  lemma NothingPendingAfter(s: System, step: Step)
    requires NewGeneration(s, step) || step.Cancel? || (step == SendDone(true) && s.sends != [])
    ensures !HasPending(Next(s, step).core)
    ensures step.Buyer? ==> Next(s, step).core.suggestion == None && Next(s, step).calls[step.call] == s.core.token + 1
    ensures NewGeneration(s, step) <==> Next(s, step).core.token == s.core.token + 1
  {}

  /**
   Whatever happens after a buyer message or takeover, results of generations from before it change
   nothing, and a pending suggestion is of a later generation.
   */
  lemma StaleNeverShown(s: System, step: Step, steps: seq<Step>, generation: nat, reply: string)
    requires InStep(s) && NewGeneration(s, step) && generation <= s.core.token
    ensures var end := Run(Next(s, step), steps);
            && AiResult(end.core, reply, generation) == end.core
            && (HasPending(end.core) ==> end.core.suggestion.value.generation > s.core.token)
            && s.core.token < end.core.token
  {
    hide Run;
    NextInStep(s, step);
    RunInStep(Next(s, step), steps);
  }

  /**
   The same for the step that completes a call still open after a later buyer message or takeover:
   it leaves the conversation alone exactly when the result is empty, names no generation of its own
   or names one that is behind.
   */
  lemma StaleCallExactly(before: seq<Step>, step: Step, after: seq<Step>, call: nat, reply: string,
        explicit: Option<nat>)
    requires var s := Run(Start, before);
             var end := Run(Next(s, step), after);
             && NewGeneration(s, step)
             && call in s.calls && call in end.calls && end.calls[call] == s.calls[call]
    ensures var end := Run(Next(Run(Start, before), step), after);
            Next(end, AiDone(call, reply, explicit)).core == end.core <==>
              reply == "" || explicit.None? || explicit.value < end.core.token
  {
    hide Run;
    var s := Run(Start, before);
    StartInStep(before);
    StaleNeverShown(s, step, after, s.calls[call], reply);
  }

  /** A pushed result is ignored exactly when it is empty or names a generation that is behind. */
  lemma PushExactly(steps: seq<Step>, reply: string, explicit: Option<nat>)
    ensures var end := Run(Start, steps);
            Next(end, AiPush(reply, explicit)).core == end.core <==>
              reply == "" || (explicit.Some? && explicit.value < end.core.token)
  {
    hide Run;
  }

  /** It does happen: the result of the first call names the second generation and is shown. */
  lemma StaleCanBeShown()
    ensures var steps := [Buyer(0), Buyer(1), AiDone(0, "x", Some(2))];
            && NeverAhead(Start, steps)
            && Run(Start, steps).core == Core(2, Some(Suggestion(0, "x", 2, Pending)), 1)
  {
    var s1 := Next(Start, Buyer(0));
    var s2 := Next(s1, Buyer(1));
    var s3 := Next(s2, AiDone(0, "x", Some(2)));
    assert Run(s3, []) == s3;
    assert Run(s2, [AiDone(0, "x", Some(2))]) == s3;
    assert Run(s1, [Buyer(1), AiDone(0, "x", Some(2))]) == s3;
    assert NeverAhead(s2, [AiDone(0, "x", Some(2))]);
    assert NeverAhead(s1, [Buyer(1), AiDone(0, "x", Some(2))]);
  }

  // ---------------------------------------------------------------- what "sent" means

  /** A suggestion marked as sent was carried by a completed send. */
  predicate Honest(s: System) {
    s.core.suggestion.Some? && s.core.suggestion.value.status == Sent ==> s.core.suggestion.value.serial in s.completed
  }

  /** A step that stores no suggestion while a send is open, and sends nothing else while one is pending. */
  predicate Orderly(s: System, step: Step) {
    && (Next(s, step).core.stored > s.core.stored ==> s.sends == [])
    && (step.SendOther? ==> !HasPending(s.core))
  }

  predicate OrderlyRun(s: System, steps: seq<Step>)
    decreases |steps|
  {
    steps == [] || (Orderly(s, steps[0]) && OrderlyRun(Next(s, steps[0]), steps[1..]))
  }

  /** Serials only come from stored suggestions. */
  ghost predicate Numbered(s: System) {
    && (s.core.suggestion.Some? ==> s.core.suggestion.value.serial < s.core.stored)
    && (forall i :: 0 <= i < |s.sends| && s.sends[i].Some? ==> s.sends[i].value < s.core.stored)
    && (forall n :: n in s.completed ==> n < s.core.stored)
  }

  /** While a suggestion is pending every open send carries it, and none that carried it has completed. */
  ghost predicate Carried(s: System) {
    HasPending(s.core) ==>
      var serial := s.core.suggestion.value.serial;
      serial !in s.completed && forall i :: 0 <= i < |s.sends| ==> s.sends[i] == Some(serial)
  }

  ghost predicate Tidy(s: System) {
    Numbered(s) && Carried(s) && Honest(s)
  }

  lemma NextNumbered(s: System, step: Step)
    requires Numbered(s)
    ensures Numbered(Next(s, step))
  {}

  lemma NextCarried(s: System, step: Step)
    requires Numbered(s) && Carried(s) && Orderly(s, step)
    ensures Carried(Next(s, step))
  {}

  lemma NextTidy(s: System, step: Step)
    requires Tidy(s) && Orderly(s, step)
    ensures Tidy(Next(s, step))
  {
    NextNumbered(s, step);
    NextCarried(s, step);
    hide Numbered;
  }

  lemma {:induction false} RunTidy(s: System, steps: seq<Step>)
    requires Tidy(s) && OrderlyRun(s, steps)
    ensures Tidy(Run(s, steps))
    decreases |steps|
  {
    hide Tidy, Next, Orderly;
    if steps != [] {
      NextTidy(s, steps[0]);
      RunTidy(Next(s, steps[0]), steps[1..]);
    }
  }

  /** The open sends finish one after another with these results. */
  function Finished(s: System, oks: seq<bool>): System
    decreases |oks|
  {
    if oks == [] then s else Finished(Next(s, SendDone(oks[0])), oks[1..])
  }

  /**
   What is marked as sent was sent, in every run in which no suggestion is stored while a send is
   open and nothing else is sent while one is pending. The condition is exact: after any such run a
   further step keeps to it exactly when the open sends, finishing in their order with whatever
   results, leave no wrong mark.
   */
  lemma HonestExactly(steps: seq<Step>, step: Step)
    requires OrderlyRun(Start, steps)
    ensures var s := Run(Start, steps);
            && Honest(s)
            && (Orderly(s, step) <==> forall oks :: Honest(Finished(Next(s, step), oks)))
  {
    hide Run, OrderlyRun, Finished;
    RunTidy(Start, steps);
    var s := Run(Start, steps);
    if Orderly(s, step) {
      NextTidy(s, step);
      forall oks ensures Honest(Finished(Next(s, step), oks)) {
        FinishedTidy(Next(s, step), oks);
      }
    } else {
      var oks := DisorderShows(s, step);
      assert !Honest(Finished(Next(s, step), oks));
    }
  }

  lemma {:induction false} FinishedTidy(s: System, oks: seq<bool>)
    requires Tidy(s)
    ensures Tidy(Finished(s, oks))
    decreases |oks|
  {
    if oks != [] {
      assert Orderly(s, SendDone(oks[0]));
      hide Tidy, Next, Orderly;
      NextTidy(s, SendDone(oks[0]));
      FinishedTidy(Next(s, SendDone(oks[0])), oks[1..]);
    }
  }

  /** Out of order, some results of the open sends leave the wrong suggestion marked. */
  lemma DisorderShows(s: System, step: Step) returns (oks: seq<bool>)
    requires Tidy(s) && !Orderly(s, step)
    ensures !Honest(Finished(Next(s, step), oks))
  {
    var s' := Next(s, step);
    if step.SendOther? {
      oks := LastCompletes(s', s.sends);
    } else {
      oks := [true];
      assert Finished(Next(s', SendDone(true)), oks[1..]) == Next(s', SendDone(true));
    }
  }

  /** All sends before the last fail, and the last, which carries no suggestion, completes. */
  lemma {:induction false} LastCompletes(s: System, before: seq<Option<nat>>) returns (oks: seq<bool>)
    requires HasPending(s.core) && s.core.suggestion.value.serial !in s.completed && s.sends == before + [None]
    ensures !Honest(Finished(s, oks))
    decreases |before|
  {
    if before == [] {
      oks := [true];
      var s' := Next(s, SendDone(true));
      assert Finished(s', oks[1..]) == s';
    } else {
      var s' := Next(s, SendDone(false));
      assert s'.sends == before[1..] + [None];
      var rest := LastCompletes(s', before[1..]);
      oks := [false] + rest;
      assert oks[1..] == rest;
    }
  }

  /** It does happen: a new buyer message and its suggestion arrive while the first reply is being sent. */
  lemma MarkCanBeWrong()
    ensures var steps :=
            [Buyer(0), AiDone(0, "a", None), SendSuggestion, Buyer(1), AiDone(1, "b", None), SendDone(true)];
            && NeverAhead(Start, steps)
            && !Honest(Run(Start, steps))
            && Run(Start, steps).core.suggestion == Some(Suggestion(1, "b", 2, Sent))
            && Run(Start, steps).completed == {0}
  {
    var s1 := Next(Start, Buyer(0));
    var s2 := Next(s1, AiDone(0, "a", None));
    var s3 := Next(s2, SendSuggestion);
    var s4 := Next(s3, Buyer(1));
    var s5 := Next(s4, AiDone(1, "b", None));
    var s6 := Next(s5, SendDone(true));
    assert Run(s6, []) == s6;
    assert Run(s5, [SendDone(true)]) == s6;
    assert Run(s4, [AiDone(1, "b", None), SendDone(true)]) == s6;
    assert Run(s3, [Buyer(1), AiDone(1, "b", None), SendDone(true)]) == s6;
    assert Run(s2, [SendSuggestion, Buyer(1), AiDone(1, "b", None), SendDone(true)]) == s6;
    assert Run(s1, [AiDone(0, "a", None), SendSuggestion, Buyer(1), AiDone(1, "b", None), SendDone(true)]) == s6;
    assert NeverAhead(s5, [SendDone(true)]);
    assert NeverAhead(s4, [AiDone(1, "b", None), SendDone(true)]);
    assert NeverAhead(s3, [Buyer(1), AiDone(1, "b", None), SendDone(true)]);
    assert NeverAhead(s2, [SendSuggestion, Buyer(1), AiDone(1, "b", None), SendDone(true)]);
    assert NeverAhead(s1, [AiDone(0, "a", None), SendSuggestion, Buyer(1), AiDone(1, "b", None), SendDone(true)]);
  }
}
