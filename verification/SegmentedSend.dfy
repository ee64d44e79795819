/**
 Sending one reply: the split into segments, the immediate send loop, the classification of a
 failure and the one guarded retry. The platform is a function from call number to the attempt it
 returns; error messages are given in lower case.
 */
module SegmentedSend {
  import opened Basics

  // ---------------------------------------------------------------- segments

  const SEPARATOR := "###"

  predicate SeparatorAt(s: string, i: nat) {
    i + 3 <= |s| && s[i..i + 3] == SEPARATOR
  }

  /** The first place of the separator at or after `i`. */
  function FindSeparator(s: string, i: nat): (place: Option<nat>)
    requires i <= |s|
    ensures place.Some? ==> i <= place.value && SeparatorAt(s, place.value)
    ensures place.Some? ==> forall k :: i <= k < place.value ==> !SeparatorAt(s, k)
    ensures place.None? ==> forall k :: i <= k ==> !SeparatorAt(s, k)
    decreases |s| - i
  {
    if SeparatorAt(s, i) then Some(i) else if i == |s| then None else FindSeparator(s, i + 1)
  }

  /** `reply.split("###")`. */
  function Split(reply: string): (parts: seq<string>)
    ensures parts != []
    decreases |reply|
  {
    var place := FindSeparator(reply, 0);
    if place.None? then [reply] else [reply[..place.value]] + Split(reply[place.value + 3..])
  }

  function Join(parts: seq<string>): string {
    if parts == [] then "" else if |parts| == 1 then parts[0] else parts[0] + SEPARATOR + Join(parts[1..])
  }

  function NonEmpty(parts: seq<string>): seq<string> {
    if parts == [] then [] else (if parts[0] == "" then [] else [parts[0]]) + NonEmpty(parts[1..])
  }

  /** The segments that are sent. */
  function Segments(reply: string): seq<string> {
    NonEmpty(Split(reply))
  }

  predicate SeparatorFree(s: string) {
    forall k :: 0 <= k <= |s| ==> !SeparatorAt(s, k)
  }

  /** The raw parts rejoin to the reply, and no part holds a separator. */
  lemma {:induction false} SplitRejoins(reply: string)
    ensures Join(Split(reply)) == reply
    ensures forall i :: 0 <= i < |Split(reply)| ==> SeparatorFree(Split(reply)[i])
    decreases |reply|
  {
    hide SeparatorFree;
    var place := FindSeparator(reply, 0);
    if place.None? {
      HeadIsFree(reply, |reply|);
      assert reply[..|reply|] == reply;
    } else {
      var p := place.value;
      var head, tail := reply[..p], reply[p + 3..];
      SplitRejoins(tail);
      var rest := Split(tail);
      assert ([head] + rest)[1..] == rest;
      assert reply == head + SEPARATOR + tail by { assert reply == reply[..p] + reply[p..p + 3] + reply[p + 3..]; }
      HeadIsFree(reply, p);
      forall i | 0 <= i < |Split(reply)| ensures SeparatorFree(Split(reply)[i]) {
        if i > 0 { assert Split(reply)[i] == rest[i - 1]; }
      }
    }
  }

  lemma HeadIsFree(reply: string, p: nat)
    requires p <= |reply| && forall k :: 0 <= k < p ==> !SeparatorAt(reply, k)
    ensures SeparatorFree(reply[..p])
  {
    var head := reply[..p];
    forall k | 0 <= k <= |head| ensures !SeparatorAt(head, k) {
      if k + 3 <= p { assert !SeparatorAt(reply, k) && head[k..k + 3] == reply[k..k + 3]; }
    }
  }

  lemma {:induction false} NonEmptyKeeps(parts: seq<string>, p: string)
    ensures p in NonEmpty(parts) <==> p in parts && p != ""
  {
    if parts != [] { NonEmptyKeeps(parts[1..], p); }
  }

  lemma SegmentsMeaning(reply: string, p: string)
    requires p in Segments(reply)
    ensures p != "" && SeparatorFree(p) && p in Split(reply)
  {
    SplitRejoins(reply);
    NonEmptyKeeps(Split(reply), p);
  }

  lemma {:induction false} NonEmptyExactly(parts: seq<string>, p: string)
    ensures Subsequence(NonEmpty(parts), parts)
    ensures multiset(NonEmpty(parts))[p] == if p == "" then 0 else multiset(parts)[p]
  {
    if parts != [] {
      var rest := NonEmpty(parts[1..]);
      NonEmptyExactly(parts[1..], p);
      assert parts == [parts[0]] + parts[1..];
      if parts[0] == "" {
        assert NonEmpty(parts) == rest;
        if rest != [] { NonEmptyKeeps(parts[1..], rest[0]); }
      } else {
        assert NonEmpty(parts) == [parts[0]] + rest && NonEmpty(parts)[1..] == rest;
      }
    }
  }

  /** The segments are the non-empty parts of the reply, in order and each as often as it occurs. */
  lemma SegmentsExactly(reply: string, p: string)
    ensures Subsequence(Segments(reply), Split(reply))
    ensures multiset(Segments(reply))[p] == if p == "" then 0 else multiset(Split(reply))[p]
  {
    hide Split, NonEmpty;
    NonEmptyExactly(Split(reply), p);
  }

  // ---------------------------------------------------------------- failure classification

  datatype Attempt = Attempt(ok: bool, hasMessageId: bool, message: string)

  datatype FailureType = SafePreAttempt | AttemptedUnknown | SideEffectPossible | ExplicitRejected

  datatype Classification = Classification(failureType: FailureType, retryAllowed: bool)

  predicate IncludesAny(s: string, keywords: seq<string>) {
    exists k :: 0 <= k < |keywords| && Contains(s, keywords[k])
  }

  const REJECTION_KEYWORDS := [
    "rejected", "denied", "forbidden", "not allowed", "permission denied", "unauthorized", "blocked by platform",
    "rate limit", "quota exceeded"]
  const SIDE_EFFECT_KEYWORDS := [
    "partial", "incomplete", "timeout during send", "interrupted", "connection lost during", "send interrupted"]
  const SAFE_KEYWORDS := [
    "network error", "connection refused", "dns error", "timeout before send", "failed to connect", "socket hang up",
    "econnrefused", "enotfound", "etimedout"]

  function Classify(a: Attempt): Classification {
    if a.ok then Classification(SafePreAttempt, false)
    else if a.hasMessageId then Classification(AttemptedUnknown, false)
    else if IncludesAny(a.message, REJECTION_KEYWORDS) then Classification(ExplicitRejected, false)
    else if IncludesAny(a.message, SAFE_KEYWORDS) then Classification(SafePreAttempt, true)
    else if IncludesAny(a.message, SIDE_EFFECT_KEYWORDS) then Classification(SideEffectPossible, false)
    else Classification(AttemptedUnknown, false)
  }

  /** The retry policy looks at the failure type alone. */
  predicate ShouldRetry(c: Classification) {
    c.failureType == SafePreAttempt
  }

  /** No id, a safe keyword and no rejection keyword: the failures that are safe to try again. */
  predicate SafeFailure(a: Attempt) {
    !a.ok && !a.hasMessageId && IncludesAny(a.message, SAFE_KEYWORDS) && !IncludesAny(a.message, REJECTION_KEYWORDS)
  }

  /** The policy and the classification agree on exactly the failed attempts; a success they read apart. */
  lemma RetryAgreesExactly(a: Attempt)
    ensures (ShouldRetry(Classify(a)) <==> Classify(a).retryAllowed) <==> !a.ok
    ensures !a.ok ==> (ShouldRetry(Classify(a)) <==> SafeFailure(a))
  {
    hide IncludesAny;
  }

  // ---------------------------------------------------------------- sending

  /** How many calls one pass over the parts makes, the first being call number `n`. */
  function PassCalls(platform: nat -> Attempt, n: nat, parts: seq<string>): (calls: nat)
    ensures calls <= |parts|
    decreases |parts|
  {
    if parts == [] then 0 else if platform(n).ok then 1 + PassCalls(platform, n + 1, parts[1..]) else 1
  }

  function PassResult(platform: nat -> Attempt, n: nat, parts: seq<string>): Attempt
    decreases |parts|
  {
    if parts == [] then Attempt(true, false, "")
    else if platform(n).ok then PassResult(platform, n + 1, parts[1..])
    else platform(n)
  }

  ghost predicate AllOk(platform: nat -> Attempt, from: nat, to: int) {
    forall i: nat :: from <= i < to ==> platform(i).ok
  }

  /** A pass over `total` parts that starts with call `n` and makes `k` calls: it stops at the first failure. */
  ghost predicate StopsAt(platform: nat -> Attempt, n: nat, total: nat, k: nat) {
    k <= total && AllOk(platform, n, n + k - 1) && (k < total ==> 0 < k && !platform(n + k - 1).ok)
  }

  /** What the result of a pass says: ok exactly when every part was sent. */
  lemma {:induction false} PassMeaning(platform: nat -> Attempt, n: nat, parts: seq<string>)
    ensures var k := PassCalls(platform, n, parts);
            && StopsAt(platform, n, |parts|, k)
            && (PassResult(platform, n, parts).ok <==> k == |parts| && AllOk(platform, n, n + k))
            && (!PassResult(platform, n, parts).ok ==> 0 < k && platform(n + k - 1) == PassResult(platform, n, parts))
    decreases |parts|
  {
    if parts != [] && platform(n).ok {
      PassMeaning(platform, n + 1, parts[1..]);
      var k := PassCalls(platform, n, parts);
      assert AllOk(platform, n + 1, n + k) ==> AllOk(platform, n, n + k);
      assert AllOk(platform, n, n + k) ==> AllOk(platform, n + 1, n + k);
    }
  }

  /** The immediate send loop: one call per part, in order, until one fails. */
  method SendImmediate(platform: nat -> Attempt, n: nat, parts: seq<string>)
    returns (calls: seq<string>, result: Attempt)
    ensures calls == parts[..PassCalls(platform, n, parts)]
    ensures result == PassResult(platform, n, parts)
  {
    calls := [];
    var i := 0;
    while i < |parts|
      invariant 0 <= i <= |parts| && calls == parts[..i]
      invariant PassCalls(platform, n, parts) == i + PassCalls(platform, n + i, parts[i..])
      invariant PassResult(platform, n, parts) == PassResult(platform, n + i, parts[i..])
    {
      var attempt := platform(n + i);
      calls := calls + [parts[i]];
      assert parts[i..][1..] == parts[i + 1..];
      if !attempt.ok {
        return calls, attempt;
      }
      i := i + 1;
    }
    return calls, Attempt(true, false, "");
  }

  /** The calls of one send and whether completion is reported. */
  datatype Report = Report(calls: seq<string>, completed: bool)

  /** Sending one request: a pass, and after a safe failure one more from the beginning. */
  method PerformSend(platform: nat -> Attempt, reply: string, targetValid: bool) returns (report: Report)
    ensures report == Performed(platform, reply, targetValid)
  {
    hide Split, NonEmpty, Classify, PassResult;
    if !targetValid { return Report([], false); }
    var parts := Segments(reply);
    var calls, attempt := SendImmediate(platform, 0, parts);
    if !attempt.ok {
      if ShouldRetry(Classify(attempt)) {
        RetryAgreesExactly(attempt);
        var again, second := SendImmediate(platform, |calls|, parts);
        return Report(calls + again, second.ok);
      }
      RetryAgreesExactly(attempt);
      return Report(calls, false);
    }
    return Report(calls, true);
  }

  /** What one send amounts to. */
  function Performed(platform: nat -> Attempt, reply: string, targetValid: bool): Report {
    if !targetValid then Report([], false)
    else
      var parts := Segments(reply);
      var k, first := PassCalls(platform, 0, parts), PassResult(platform, 0, parts);
      if first.ok then Report(parts[..k], true)
      else if !SafeFailure(first) then Report(parts[..k], false)
      else
        Report(parts[..k] + parts[..PassCalls(platform, k, parts)], PassResult(platform, k, parts).ok)
  }

  /** `k` calls in a first pass and `j` in a second explain what was reported. */
  ghost predicate Explains(platform: nat -> Attempt, parts: seq<string>, report: Report, k: nat, j: nat) {
    && StopsAt(platform, 0, |parts|, k) && j <= |parts|
    && report.calls == parts[..k] + parts[..j]
    && (j > 0 <==> 0 < k && SafeFailure(platform(k - 1)))
    && (j > 0 ==> StopsAt(platform, k, |parts|, j))
    && (report.completed <==>
          if j > 0 then j == |parts| && AllOk(platform, k, k + j) else k == |parts| && AllOk(platform, 0, k))
  }

  /** How many calls the two passes of a send make; none in the second without a retry. */
  function Passes(platform: nat -> Attempt, parts: seq<string>): (nat, nat) {
    var k := PassCalls(platform, 0, parts);
    (k, if SafeFailure(PassResult(platform, 0, parts)) then PassCalls(platform, k, parts) else 0)
  }

  /**
   The calls of a send are a prefix of the segments up to the first failure, followed by at most one
   more such prefix, and that exactly after a failure without id, with a safe keyword and without a
   rejection keyword. Completion is reported exactly when the last pass sent every segment. What is
   sent are non-empty parts of the reply without separator.
   */
  lemma SendSafety(platform: nat -> Attempt, reply: string)
    ensures var (k, j) := Passes(platform, Segments(reply));
            Explains(platform, Segments(reply), Performed(platform, reply, true), k, j)
    ensures forall c :: c in Performed(platform, reply, true).calls ==> c != "" && SeparatorFree(c) && c in Split(reply)
    ensures Performed(platform, reply, false) == Report([], false)
  {
    hide Segments, SafeFailure, PassCalls, PassResult, StopsAt, AllOk, SeparatorFree, Split;
    var parts := Segments(reply);
    var report := Performed(platform, reply, true);
    var (k, j) := Passes(platform, parts);
    var first := PassResult(platform, 0, parts);
    PassMeaning(platform, 0, parts);
    SafeIsNotOk(first);
    SafeIsFailure(platform, parts, k);
    if SafeFailure(first) {
      PassMeaning(platform, k, parts);
      SomeCall(platform, k, parts);
    } else {
      assert parts[..k] + parts[..0] == parts[..k];
    }
    forall c | c in report.calls ensures c != "" && SeparatorFree(c) && c in Split(reply) { SegmentsMeaning(reply, c); }
  }

  lemma SafeIsFailure(platform: nat -> Attempt, parts: seq<string>, k: nat)
    requires StopsAt(platform, 0, |parts|, k)
    ensures 0 < k && SafeFailure(platform(k - 1)) ==> !(k == |parts| && AllOk(platform, 0, k))
  {
    hide IncludesAny;
  }

  lemma SomeCall(platform: nat -> Attempt, n: nat, parts: seq<string>)
    requires parts != []
    ensures PassCalls(platform, n, parts) > 0
  {}

  // ---------------------------------------------------------------- segments delivered twice

  /** Segment `i` is called for, and goes through, in both passes. */
  ghost predicate Twice(platform: nat -> Attempt, parts: seq<string>, i: nat) {
    var (k, j) := Passes(platform, parts);
    i < k && i < j && platform(i).ok && platform(k + i).ok
  }

  ghost predicate DeliversTwice(platform: nat -> Attempt, reply: string) {
    exists i: nat :: Twice(platform, Segments(reply), i)
  }

  /**
   The retry starts again from the first segment. So a segment is delivered twice exactly when the
   first pass failed after its first segment and the second pass got its first segment through.
   */
  lemma DeliveredTwiceExactly(platform: nat -> Attempt, reply: string)
    ensures var (k, j) := Passes(platform, Segments(reply));
            DeliversTwice(platform, reply) <==> k >= 2 && j >= 1 && platform(k).ok
  {
    SendSafety(platform, reply);
    hide SafeFailure, Segments, Passes, Split, Performed;
    var parts := Segments(reply);
    var (k, j) := Passes(platform, parts);
    if k >= 2 && j >= 1 && platform(k).ok {
      assert platform(0).ok && platform(k + 0).ok;
      assert Twice(platform, parts, 0);
    }
    if DeliversTwice(platform, reply) {
      var i: nat :| Twice(platform, parts, i);
      SafeIsNotOk(platform(k - 1));
    }
  }

  /** A reply can be delivered twice in part, on some platform, exactly when it has two segments or more. */
  lemma TwiceNeedsTwoSegments(reply: string)
    ensures (exists platform :: DeliversTwice(platform, reply)) <==> |Segments(reply)| >= 2
  {
    hide Segments, SafeFailure;
    if exists platform :: DeliversTwice(platform, reply) {
      var platform :| DeliversTwice(platform, reply);
      DeliveredTwiceExactly(platform, reply);
    }
    if |Segments(reply)| >= 2 {
      TwiceOnFlaky(reply);
      assert DeliversTwice(Flaky, reply);
    }
  }

  /** A platform whose second call fails before anything is sent, and all others go through. */
  function Flaky(n: nat): Attempt {
    if n == 1 then Attempt(false, false, "network error") else Attempt(true, false, "")
  }

  lemma NetworkErrorIsSafe()
    ensures SafeFailure(Attempt(false, false, "network error"))
  {
    var message := "network error";
    assert OccursAt(message, SAFE_KEYWORDS[0], 0);
    assert Contains(message, SAFE_KEYWORDS[0]);
    forall k | 0 <= k < |REJECTION_KEYWORDS| ensures !Contains(message, REJECTION_KEYWORDS[k]) {
      var keyword := REJECTION_KEYWORDS[k];
      forall i | 0 <= i <= |message| ensures !OccursAt(message, keyword, i) {
        if i + |keyword| <= |message| {
          assert message[i..i + |keyword|][0] == message[i] && message[i..i + |keyword|][1] == message[i + 1];
          assert message[i] != keyword[0] || message[i + 1] != keyword[1];
        }
      }
    }
  }

  /** On that platform two segments or more are called a, b, then all over again, and reported complete. */
  lemma TwiceOnFlaky(reply: string)
    requires |Segments(reply)| >= 2
    ensures DeliversTwice(Flaky, reply)
    ensures Performed(Flaky, reply, true) == Report(Segments(reply)[..2] + Segments(reply), true)
  {
    var parts := Segments(reply);
    NetworkErrorIsSafe();
    hide Segments, SafeFailure;
    assert PassCalls(Flaky, 1, parts[1..]) == 1 && PassResult(Flaky, 1, parts[1..]) == Flaky(1);
    PassThrough(2, parts);
    assert parts[..|parts|] == parts;
    assert Twice(Flaky, parts, 0);
  }

  lemma {:induction false} PassThrough(n: nat, parts: seq<string>)
    requires n >= 2
    ensures PassCalls(Flaky, n, parts) == |parts| && PassResult(Flaky, n, parts).ok
    decreases |parts|
  {
    if parts != [] { PassThrough(n + 1, parts[1..]); }
  }

  /** It does happen: "a###b" is delivered as a, then as a and b. */
  lemma TwiceInFact()
    ensures Performed(Flaky, "a###b", true) == Report(["a", "b", "a", "b"], true)
    ensures DeliversTwice(Flaky, "a###b")
  {
    var reply := "a###b";
    assert !SeparatorAt(reply, 0) by { assert reply[0..3][0] == 'a'; }
    assert SeparatorAt(reply, 1) by { assert reply[1..4] == "###"; }
    assert FindSeparator(reply, 0) == Some(1);
    assert reply[..1] == "a" && reply[4..] == "b";
    assert FindSeparator("b", 0) == None;
    assert Split("b") == ["b"];
    assert Split(reply) == ["a", "b"];
    assert NonEmpty(["b"]) == ["b"];
    assert ["a", "b"][1..] == ["b"];
    assert Segments(reply) == ["a", "b"];
    TwiceOnFlaky(reply);
  }

  lemma SafeIsNotOk(a: Attempt)
    ensures SafeFailure(a) ==> !a.ok
  {
    hide IncludesAny;
  }
}
