/**
 The per-conversation send serializer and the drain loops that empty it. A step is the code between
 two awaits: enqueueing a request (which starts a drain loop when the key is idle), or resuming a
 drain loop after the send it was waiting for.
 */
module SendQueue {
  import opened Basics

  type Key = string
  type Request = string

  /** The serializer: the keys being sent and the queue of each key. */
  datatype Serializer = Serializer(sending: set<Key>, queues: map<Key, seq<Request>>)

  function QueueOf(s: Serializer, key: Key): seq<Request> {
    if key in s.queues then s.queues[key] else []
  }

  /** Queues the request; true when the key was idle and a drain loop must start. */
  function Enqueue(s: Serializer, key: Key, request: Request): (Serializer, bool) {
    (Serializer(s.sending + {key}, s.queues[key := QueueOf(s, key) + [request]]), key !in s.sending)
  }

  /** Takes the next request and marks the key, or clears the mark when there is none. */
  function Dequeue(s: Serializer, key: Key): (Serializer, Option<Request>) {
    if QueueOf(s, key) == [] then (s.(sending := s.sending - {key}), None)
    else (Serializer(s.sending + {key}, s.queues[key := QueueOf(s, key)[1..]]), Some(QueueOf(s, key)[0]))
  }

  function MarkDone(s: Serializer, key: Key): Serializer {
    s.(sending := s.sending - {key})
  }

  /** The serializer object. */
  class SendSerializer {
    var sending: set<Key>
    var queues: map<Key, seq<Request>>

    function Now(): Serializer
      reads this
    {
      Serializer(sending, queues)
    }

    constructor ()
      ensures Now() == Serializer({}, map[])
    {
      sending, queues := {}, map[];
    }

    method Push(key: Key, request: Request) returns (started: bool)
      modifies this
      ensures (Now(), started) == Enqueue(old(Now()), key, request)
    {
      var queue := if key in queues then queues[key] else [];
      queues := queues[key := queue + [request]];
      if key in sending {
        assert sending + {key} == sending;
        return false;
      }
      sending := sending + {key};
      return true;
    }

    method Shift(key: Key) returns (request: Option<Request>)
      modifies this
      ensures (Now(), request) == Dequeue(old(Now()), key)
    {
      if key !in queues || |queues[key]| == 0 {
        sending := sending - {key};
        return None;
      }
      request := Some(queues[key][0]);
      queues := queues[key := queues[key][1..]];
      sending := sending + {key};
    }

    method Done(key: Key)
      modifies this`sending
      ensures Now() == MarkDone(old(Now()), key)
    {
      sending := sending - {key};
    }
  }

  // ---------------------------------------------------------------- drain loops

  /** A drain loop waiting for the send of `current`. */
  datatype Loop = Loop(key: Key, current: Request)

  /** `enqueued` and `started` record, per key, the requests so far in order. */
  datatype System = System(serializer: Serializer, loops: map<nat, Loop>, enqueued: map<Key, seq<Request>>,
    started: map<Key, seq<Request>>)

  datatype Step =
    | Send(key: Key, request: Request, loop: nat)
    | Resume(loop: nat)

  function HistoryOf(h: map<Key, seq<Request>>, key: Key): seq<Request> {
    if key in h then h[key] else []
  }

  /** One turn of a drain loop: take the next request and start sending it, or end. */
  function Turn(s: System, loop: nat, key: Key): System {
    var (serializer, request) := Dequeue(s.serializer, key);
    match request
    case None => s.(serializer := serializer, loops := s.loops - {loop})
    case Some(r) =>
      System(serializer, s.loops[loop := Loop(key, r)], s.enqueued, s.started[key := HistoryOf(s.started, key) + [r]])
  }

  function Next(s: System, step: Step): System {
    match step
    case Send(key, request, loop) =>
      if loop in s.loops then s
      else
        var (serializer, start) := Enqueue(s.serializer, key, request);
        var s' := s.(serializer := serializer, enqueued := s.enqueued[key := HistoryOf(s.enqueued, key) + [request]]);
        if start then Turn(s', loop, key) else s'
    case Resume(loop) =>
      if loop !in s.loops then s
      else
        var key := s.loops[loop].key;
        Turn(s.(serializer := MarkDone(s.serializer, key)), loop, key)
  }

  function Run(s: System, steps: seq<Step>): System
    decreases |steps|
  {
    if steps == [] then s else Run(Next(s, steps[0]), steps[1..])
  }

  const Idle := System(Serializer({}, map[]), map[], map[], map[])

  // ---------------------------------------------------------------- what every interleaving keeps

  ghost predicate Draining(s: System, key: Key) {
    exists l :: l in s.loops && s.loops[l].key == key
  }

  /** One key: marked exactly while drained, idle only with an empty queue, and first in first out. */
  ghost predicate KeySound(s: System, key: Key) {
    && (key in s.serializer.sending <==> Draining(s, key))
    && (key !in s.serializer.sending ==> QueueOf(s.serializer, key) == [])
    && HistoryOf(s.started, key) + QueueOf(s.serializer, key) == HistoryOf(s.enqueued, key)
  }

  /** A drain loop waits for the request it started last, and it is the only loop of its key. */
  ghost predicate LoopsSound(s: System) {
    && (forall l, m :: l in s.loops && m in s.loops && s.loops[l].key == s.loops[m].key ==> l == m)
    && (forall l :: l in s.loops ==>
          var h := HistoryOf(s.started, s.loops[l].key);
          h != [] && h[|h| - 1] == s.loops[l].current)
  }

  ghost predicate Good(s: System) {
    LoopsSound(s) && forall key :: KeySound(s, key)
  }

  /** The state in the middle of a step: `key` is about to be drained by `loop` alone. */
  ghost predicate Ready(s: System, loop: nat, key: Key) {
    && (forall l, m :: l in s.loops && m in s.loops && s.loops[l].key == s.loops[m].key ==> l == m)
    && (forall l :: l in s.loops && l != loop ==>
          var h := HistoryOf(s.started, s.loops[l].key);
          h != [] && h[|h| - 1] == s.loops[l].current && s.loops[l].key != key)
    && (loop in s.loops ==> s.loops[loop].key == key)
    && (forall k :: k != key ==> KeySound(s, k))
    && HistoryOf(s.started, key) + QueueOf(s.serializer, key) == HistoryOf(s.enqueued, key)
  }

  lemma OtherKeys(s: System, s': System, loop: nat, key: Key, k: Key)
    requires k != key && KeySound(s, k)
    requires forall l ::
             l != loop ==> ((l in s.loops <==> l in s'.loops) && (l in s.loops ==> s.loops[l] == s'.loops[l]))
    requires (loop in s.loops ==> s.loops[loop].key == key) && (loop in s'.loops ==> s'.loops[loop].key == key)
    requires k in s.serializer.sending <==> k in s'.serializer.sending
    requires QueueOf(s.serializer, k) == QueueOf(s'.serializer, k)
    requires HistoryOf(s.started, k) == HistoryOf(s'.started, k)
             && HistoryOf(s.enqueued, k) == HistoryOf(s'.enqueued, k)
    ensures KeySound(s', k)
  {
    if Draining(s, k) {
      var l :| l in s.loops && s.loops[l].key == k;
      assert l in s'.loops && s'.loops[l].key == k;
    }
    if Draining(s', k) {
      var l :| l in s'.loops && s'.loops[l].key == k;
      assert l in s.loops && s.loops[l].key == k;
    }
  }

  lemma TurnLoops(s: System, loop: nat, key: Key)
    requires Ready(s, loop, key)
    ensures LoopsSound(Turn(s, loop, key))
  {
    hide KeySound;
  }

  lemma TurnKey(s: System, loop: nat, key: Key)
    requires Ready(s, loop, key)
    ensures KeySound(Turn(s, loop, key), key)
  {
    var s' := Turn(s, loop, key);
    var queue := QueueOf(s.serializer, key);
    if queue == [] {
      assert !Draining(s', key);
    } else {
      assert s'.loops[loop].key == key;
      assert Draining(s', key);
      assert queue == [queue[0]] + queue[1..];
      assert HistoryOf(s'.started, key) + QueueOf(s'.serializer, key) == HistoryOf(s.started, key) + queue;
    }
  }

  lemma TurnGood(s: System, loop: nat, key: Key)
    requires Ready(s, loop, key)
    ensures Good(Turn(s, loop, key))
  {
    hide KeySound, LoopsSound;
    var s' := Turn(s, loop, key);
    forall k ensures KeySound(s', k) {
      if k == key { TurnKey(s, loop, key); } else { OtherKeys(s, s', loop, key, k); }
    }
    TurnLoops(s, loop, key);
  }

  lemma ResumeGood(s: System, loop: nat)
    requires Good(s) && loop in s.loops
    ensures Ready(s.(serializer := MarkDone(s.serializer, s.loops[loop].key)), loop, s.loops[loop].key)
  {
    var key := s.loops[loop].key;
    var s' := s.(serializer := MarkDone(s.serializer, key));
    forall k | k != key ensures KeySound(s', k) {
      OtherKeys(s, s', loop, key, k);
    }
    assert KeySound(s, key);
  }

  lemma SendGood(s: System, key: Key, request: Request, loop: nat)
    requires Good(s) && loop !in s.loops
    ensures Good(Next(s, Send(key, request, loop)))
  {
    hide KeySound, LoopsSound;
    var (serializer, start) := Enqueue(s.serializer, key, request);
    var s' := s.(serializer := serializer, enqueued := s.enqueued[key := HistoryOf(s.enqueued, key) + [request]]);
    Queued(s, s', key, request, loop);
    if start { TurnGood(s', loop, key); }
  }

  lemma Queued(s: System, s': System, key: Key, request: Request, loop: nat)
    requires Good(s) && loop !in s.loops
    requires s' == s.(serializer := Enqueue(s.serializer, key, request).0,
             enqueued := s.enqueued[key := HistoryOf(s.enqueued, key) + [request]])
    ensures key in s.serializer.sending ==> Good(s')
    ensures key !in s.serializer.sending ==> Ready(s', loop, key)
  {
    hide KeySound;
    forall k | k != key ensures KeySound(s', k) {
      OtherKeys(s, s', loop, key, k);
    }
    QueuedKey(s, s', key, request);
  }

  lemma QueuedKey(s: System, s': System, key: Key, request: Request)
    requires KeySound(s, key)
    requires s' == s.(serializer := Enqueue(s.serializer, key, request).0,
             enqueued := s.enqueued[key := HistoryOf(s.enqueued, key) + [request]])
    ensures HistoryOf(s'.started, key) + QueueOf(s'.serializer, key) == HistoryOf(s'.enqueued, key)
    ensures key in s.serializer.sending ==> KeySound(s', key)
    ensures key !in s.serializer.sending ==> forall l :: l in s.loops ==> s.loops[l].key != key
  {
    var started, queue := HistoryOf(s.started, key), QueueOf(s.serializer, key);
    assert started + (queue + [request]) == started + queue + [request];
    if key in s.serializer.sending {
      var l :| l in s.loops && s.loops[l].key == key;
      assert l in s'.loops && s'.loops[l].key == key;
    }
  }

  /**
   In every interleaving: at most one drain loop per key, the key marked exactly while there is one,
   an unmarked key has an empty queue, and the requests started, then those still queued, are the
   requests enqueued, in order.
   */
  lemma {:induction false} RunGood(s: System, steps: seq<Step>)
    requires Good(s)
    ensures Good(Run(s, steps))
    decreases |steps|
  {
    hide Good, Turn, Ready;
    if steps != [] {
      match steps[0] {
        case Send(key, request, loop) =>
          if loop !in s.loops { SendGood(s, key, request, loop); }
        case Resume(loop) =>
          if loop in s.loops {
            ResumeGood(s, loop);
            TurnGood(s.(serializer := MarkDone(s.serializer, s.loops[loop].key)), loop, s.loops[loop].key);
          }
      }
      RunGood(Next(s, steps[0]), steps[1..]);
    }
  }

  lemma IdleGood()
    ensures Good(Idle)
  {}

  /** So from the idle state on. */
  lemma ReachableGood(steps: seq<Step>)
    ensures Good(Run(Idle, steps))
  {
    IdleGood();
    RunGood(Idle, steps);
  }

  // ---------------------------------------------------------------- progress

  /** Nothing is enqueued for the key. */
  predicate Quiet(steps: seq<Step>, key: Key) {
    forall i :: 0 <= i < |steps| && steps[i].Send? ==> steps[i].key != key
  }

  /** How often the loop is resumed. */
  function Turns(steps: seq<Step>, loop: nat): nat {
    if steps == [] then 0 else (if steps[0] == Resume(loop) then 1 else 0) + Turns(steps[1..], loop)
  }

  /** The step does nothing to the key: it enqueues for another one or resumes the loop of another one. */
  predicate Elsewhere(s: System, step: Step, key: Key) {
    match step
    case Send(k, _, _) => k != key
    case Resume(l) => l in s.loops ==> s.loops[l].key != key
  }

  ghost predicate SameForKey(s: System, s': System, key: Key) {
    && (key in s.serializer.sending <==> key in s'.serializer.sending)
    && QueueOf(s.serializer, key) == QueueOf(s'.serializer, key)
    && HistoryOf(s.started, key) == HistoryOf(s'.started, key)
    && HistoryOf(s.enqueued, key) == HistoryOf(s'.enqueued, key)
    && (forall l :: l in s.loops && s.loops[l].key == key ==> l in s'.loops && s'.loops[l] == s.loops[l])
  }

  lemma ElsewhereSame(s: System, step: Step, key: Key)
    requires Elsewhere(s, step, key)
    ensures SameForKey(s, Next(s, step), key)
  {}

  lemma NextGood(s: System, step: Step)
    requires Good(s)
    ensures Good(Next(s, step))
  {
    RunGood(s, [step]);
    assert Run(Next(s, step), [step][1..]) == Next(s, step);
  }

  /** Every send is recorded, for its own key and no other, whether a loop starts or one is running. */
  lemma SendIsRecorded(s: System, key: Key, request: Request, loop: nat)
    requires loop !in s.loops
    ensures var s' := Next(s, Send(key, request, loop));
            && HistoryOf(s'.enqueued, key) == HistoryOf(s.enqueued, key) + [request]
            && (forall k :: k != key ==> HistoryOf(s'.enqueued, k) == HistoryOf(s.enqueued, k))
            && (loop in s'.loops <==> key !in s.serializer.sending)
            && (key in s.serializer.sending ==> s'.started == s.started && s'.loops == s.loops)
  {}

  /** An idle key stays idle while nothing is enqueued for it. */
  lemma {:induction false} StaysIdle(s: System, key: Key, steps: seq<Step>)
    requires Good(s) && key !in s.serializer.sending && Quiet(steps, key)
    ensures var s' := Run(s, steps);
            key !in s'.serializer.sending && HistoryOf(s'.enqueued, key) == HistoryOf(s.enqueued, key)
    decreases |steps|
  {
    if steps != [] {
      assert KeySound(s, key);
      assert Elsewhere(s, steps[0], key);
      hide Good, KeySound, Next, Elsewhere, QueueOf;
      ElsewhereSame(s, steps[0], key);
      NextGood(s, steps[0]);
      StaysIdle(Next(s, steps[0]), key, steps[1..]);
    }
  }

  /** What a resume does to the loop's own key. */
  lemma OwnTurn(s: System, loop: nat)
    requires Good(s) && loop in s.loops
    ensures var key, s' := s.loops[loop].key, Next(s, Resume(loop));
            && HistoryOf(s'.enqueued, key) == HistoryOf(s.enqueued, key)
            && (QueueOf(s.serializer, key) == [] ==> key !in s'.serializer.sending)
            && (QueueOf(s.serializer, key) != [] ==>
                  && key in s'.serializer.sending && loop in s'.loops && s'.loops[loop].key == key
                  && |QueueOf(s'.serializer, key)| == |QueueOf(s.serializer, key)| - 1)
  {
    hide Good;
  }

  /** The key is idle afterwards exactly when its loop was resumed once per queued request and once more. */
  lemma {:induction false} IdleExactly(s: System, loop: nat, steps: seq<Step>)
    requires Good(s) && loop in s.loops && Quiet(steps, s.loops[loop].key)
    ensures var key, s' := s.loops[loop].key, Run(s, steps);
            && (key !in s'.serializer.sending <==> Turns(steps, loop) > |QueueOf(s.serializer, key)|)
            && HistoryOf(s'.enqueued, key) == HistoryOf(s.enqueued, key)
    decreases |steps|
  {
    var key := s.loops[loop].key;
    assert KeySound(s, key);
    assert Draining(s, key);
    if steps != [] {
      var s1 := Next(s, steps[0]);
      assert steps[0] != Resume(loop) ==> Elsewhere(s, steps[0], key);
      assert Quiet(steps[1..], key);
      hide Good, KeySound, Next, Elsewhere, QueueOf, Draining, Quiet;
      NextGood(s, steps[0]);
      if steps[0] != Resume(loop) {
        ElsewhereSame(s, steps[0], key);
        IdleExactly(s1, loop, steps[1..]);
      } else {
        OwnTurn(s, loop);
        if QueueOf(s.serializer, key) == [] {
          StaysIdle(s1, key, steps[1..]);
        } else {
          IdleExactly(s1, loop, steps[1..]);
        }
      }
    }
  }

  /**
   Progress, in any interleaving with other keys: once nothing more is enqueued for a key that is being
   drained, it is idle exactly when its loop has been resumed once for each queued request and once
   more. Then its queue is empty and every request enqueued for it has been started, in order.
   */
  lemma DrainEmpties(before: seq<Step>, loop: nat, after: seq<Step>)
    requires loop in Run(Idle, before).loops && Quiet(after, Run(Idle, before).loops[loop].key)
    ensures var s := Run(Idle, before);
            var key, s' := s.loops[loop].key, Run(s, after);
            && (key !in s'.serializer.sending <==> Turns(after, loop) > |QueueOf(s.serializer, key)|)
            && (key !in s'.serializer.sending ==>
                  && QueueOf(s'.serializer, key) == [] && !Draining(s', key)
                  && HistoryOf(s'.started, key) == HistoryOf(s.enqueued, key))
  {
    hide Run, Turns, QueueOf, LoopsSound, Quiet;
    var s := Run(Idle, before);
    var key, s' := s.loops[loop].key, Run(s, after);
    ReachableGood(before);
    IdleExactly(s, loop, after);
    RunGood(s, after);
    assert KeySound(s', key);
    assert HistoryOf(s'.started, key) + [] == HistoryOf(s'.started, key);
  }
}
