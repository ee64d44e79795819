/**
 The evaluator of shipping policies: selection by scope, lifecycle, effective window, replacement
 chain, applicability and completeness. Restriction reasons are kept as a set; diagnostics strings
 are not modelled.
 */
module ShippingEvaluator {
  import opened Basics
  import opened Text
  import opened ShippingRegistry

  datatype Nature = Expected | Committed
  datatype TimeKind = ContinuousHours | BusinessDays | Date | Interval
  datatype TimeValue = TimeValue(kind: TimeKind, hours: Option<int>, days: Option<int>, date: Option<Text>,
    interval: Option<(Text, Text)>)
  datatype Resolution = ResolvedYes | ResolvedNo | Unresolved
  datatype ProductScope = ProductScope(included: seq<Text>, excluded: seq<Text>, resolution: Resolution)
  datatype Applicability = StoreWide | ProductScoped | UndeterminedScope

  datatype Policy = Policy(
    policyId: Text, policyVersion: Text, ownerApproval: Option<Text>,
    merchantId: Option<Text>, storeId: Option<Text>, accountId: Option<Text>,
    applicability: Applicability, productScope: Option<ProductScope>,
    clockStart: Option<Text>, shipComplete: Option<Text>, timeValue: Option<TimeValue>, nature: Option<Nature>,
    timezone: Option<Text>, calendar: Option<Text>, cutOff: Option<Text>,
    effectiveFrom: Option<Text>, effectiveTo: Option<Text>,
    lifecycle: Lifecycle, replacing: Option<Text>, sourceRef: Option<Text>)

  datatype Request = Request(
    merchantId: Option<Text>, storeId: Option<Text>, accountId: Option<Text>, productRef: Option<Text>,
    orderStartSource: Option<Text>, shipEvidence: Option<Text>, fulfilmentException: bool,
    historical: Option<(Text, Text)>, shopName: Option<Text>, now: Option<Text>)

  datatype Restriction =
    | PolicyMissing | ExplicitlyAbsent | Unbound | Mismatch | DraftNotEffective | PolicyNotActive
    | NotYetEffective | Expired | WasSuperseded | WasRevoked | Conflicting | ProductUndetermined
    | CalendarMissing | TimezoneMissing | ClockStartUndeclared | TimeValueUndeclared | NatureUndeclared
    | ShipCompleteUndeclared | OrderTimeUnknown | ShipCompleteNotEvidenced | ExceptionNotModelled
    | HistoricalPreserved | SemanticsUndecided | NameNotIdentity

  datatype Fact = Fact(
    policyId: Text, policyVersion: Text, nature: Nature, timeValue: TimeValue, timezone: Option<Text>,
    calendar: Option<Text>, cutOff: Option<Text>, clockStart: Text, shipComplete: Text)

  datatype Verdict = Applicable | NotApplicable | Undetermined | AbsentExplicitly | UnknownVerdict

  datatype Evaluation = Evaluation(fact: Option<Fact>, verdict: Verdict, reasons: set<Restriction>,
    policy: Option<Policy>)

  // ---------------------------------------------------------------- selection by scope

  predicate BoundPolicy(p: Policy) {
    Present(p.merchantId) && Present(p.storeId)
  }

  predicate InScope(req: Request, p: Policy) {
    BoundPolicy(p) && p.merchantId == req.merchantId && p.storeId == req.storeId
  }

  /** An account-specific policy of the store that the request's account does not match. */
  predicate AccountClash(req: Request, p: Policy) {
    InScope(req, p) && Present(p.accountId) && (!Present(req.accountId) || p.accountId != req.accountId)
  }

  datatype Selection = Selection(candidates: seq<Policy>, reasons: set<Restriction>, bound: bool)

  function Filter<T>(p: T -> bool, s: seq<T>): (r: seq<T>) {
    if s == [] then [] else (if p(s[0]) then [s[0]] else []) + Filter(p, s[1..])
  }

  function Scoped(req: Request, policies: seq<Policy>): seq<Policy> {
    Filter((p: Policy) => InScope(req, p), policies)
  }

  function Select(req: Request, policies: seq<Policy>): Selection {
    if !Present(req.merchantId) || !Present(req.storeId) then Selection([], {Unbound}, false)
    else if exists p :: p in policies && AccountClash(req, p) then Selection([], {Unbound}, false)
    else
      var candidates := Scoped(req, policies);
      var reasons :=
        if candidates != [] then {}
        else if exists p :: p in policies && !BoundPolicy(p) then {Unbound}
        else if exists p :: p in policies && BoundPolicy(p) && !InScope(req, p) then {Mismatch}
        else {};
      Selection(candidates, reasons, true)
  }

  lemma {:induction false} FilterConcat<T>(p: T -> bool, a: seq<T>, b: seq<T>)
    ensures Filter(p, a + b) == Filter(p, a) + Filter(p, b)
  {
    if a == [] {
      assert a + b == b;
    } else {
      FilterConcat(p, a[1..], b);
      assert (a + b)[0] == a[0] && (a + b)[1..] == a[1..] + b;
      var head := if p(a[0]) then [a[0]] else [];
      assert Filter(p, a + b) == head + Filter(p, a[1..] + b);
      assert Filter(p, a) == head + Filter(p, a[1..]);
    }
  }

  lemma {:induction false} FilterMembers<T(!new)>(p: T -> bool, s: seq<T>, x: T)
    ensures x in Filter(p, s) <==> x in s && p(x)
  {
    if s != [] { FilterMembers(p, s[1..], x); }
  }

  lemma NoneScoped(req: Request, policies: seq<Policy>)
    ensures Scoped(req, policies[..0]) == []
  {}

  lemma ScopedStep(req: Request, policies: seq<Policy>, i: nat)
    requires i < |policies|
    ensures Scoped(req, policies[..i + 1])
            == Scoped(req, policies[..i]) + (if InScope(req, policies[i]) then [policies[i]] else [])
    ensures policies[..i + 1] == policies[..i] + [policies[i]]
  {
    assert policies[..i + 1] == policies[..i] + [policies[i]];
    FilterConcat((p: Policy) => InScope(req, p), policies[..i], [policies[i]]);
  }

  /** The selection loop: stops at the first account clash, else collects the policies of the scope. */
  method SelectByScope(req: Request, policies: seq<Policy>) returns (selection: Selection)
    ensures selection == Select(req, policies)
  {
    hide NonBlank, Filter;
    if !Present(req.merchantId) || !Present(req.storeId) {
      return Selection([], {Unbound}, false);
    }
    var sameScope: seq<Policy> := [];
    assert Scoped(req, policies[..0]) == [] by { NoneScoped(req, policies); }
    var otherScopeSeen, unboundSeen := false, false;
    var i := 0;
    while i < |policies|
      invariant 0 <= i <= |policies| && sameScope == Scoped(req, policies[..i])
      invariant forall p :: p in policies[..i] ==> !AccountClash(req, p)
      invariant unboundSeen <==> exists p :: p in policies[..i] && !BoundPolicy(p)
      invariant otherScopeSeen <==> exists p :: p in policies[..i] && BoundPolicy(p) && !InScope(req, p)
    {
      var policy := policies[i];
      ScopedStep(req, policies, i);
      assert forall p :: p in policies[..i + 1] <==> p in policies[..i] || p == policy;
      if !BoundPolicy(policy) {
        unboundSeen := true;
      } else if policy.merchantId != req.merchantId || policy.storeId != req.storeId {
        otherScopeSeen := true;
      } else {
        if Present(policy.accountId) && (!Present(req.accountId) || policy.accountId != req.accountId) {
          assert AccountClash(req, policy) && policy in policies;
          return Selection([], {Unbound}, false);
        }
        sameScope := sameScope + [policy];
      }
      i := i + 1;
    }
    assert policies[..|policies|] == policies;
    var reasons := if sameScope != [] then {} else if unboundSeen then {Unbound} else if otherScopeSeen then {Mismatch}
      else {};
    selection := Selection(sameScope, reasons, true);
  }

  // ---------------------------------------------------------------- lifecycle, window, chain

  datatype Window = InWindow | TooEarly | TooLate | NoTime

  function WindowOf(p: Policy, now: Option<Text>): Window {
    if !Present(now) then NoTime
    else if Present(p.effectiveFrom) && Less(now.value, p.effectiveFrom.value) then TooEarly
    else if Present(p.effectiveTo) && Less(p.effectiveTo.value, now.value) then TooLate
    else InWindow
  }

  function LifecycleReasons(p: Policy): set<Restriction> {
    match p.lifecycle
    case Active => {}
    case Draft => {DraftNotEffective, PolicyNotActive}
    case NotEffective => {PolicyNotActive}
    case Superseded => {WasSuperseded}
    case Revoked => {WasRevoked}
  }

  function WindowReasons(p: Policy, now: Option<Text>): set<Restriction> {
    match WindowOf(p, now)
    case InWindow => {}
    case TooEarly => {NotYetEffective}
    case TooLate => {Expired}
    case NoTime => {SemanticsUndecided}
  }

  predicate IsActive(p: Policy) { p.lifecycle == Active }

  predicate IsCurrent(p: Policy, now: Option<Text>) { IsActive(p) && WindowOf(p, now) == InWindow }

  /** Why the candidates were excluded, all together. */
  function Exclusions(candidates: seq<Policy>, now: Option<Text>): set<Restriction> {
    if candidates == [] then {}
    else LifecycleReasons(candidates[0])
         + (if IsActive(candidates[0]) then WindowReasons(candidates[0], now) else {})
         + Exclusions(candidates[1..], now)
  }

  function ActiveOnes(candidates: seq<Policy>): seq<Policy> {
    Filter((p: Policy) => IsActive(p), candidates)
  }

  function CurrentOnes(candidates: seq<Policy>, now: Option<Text>): seq<Policy> {
    Filter((p: Policy) => IsCurrent(p, now), candidates)
  }

  /** The replacement pointer as the chain resolution reads it: blank pointers do not count. */
  function Replaced(p: Policy): Option<Text> {
    if Present(p.replacing) then p.replacing else None
  }

  function ReplacedIds(candidates: seq<Policy>): set<Text> {
    set p | p in candidates && Replaced(p).Some? :: Replaced(p).value
  }

  function Unreplaced(replaced: set<Text>, candidates: seq<Policy>): seq<Policy> {
    Filter((p: Policy) => p.policyId !in replaced, candidates)
  }

  /** The candidates that no candidate replaces. */
  function Roots(candidates: seq<Policy>): seq<Policy> {
    Unreplaced(ReplacedIds(candidates), candidates)
  }

  /** The winner of a replacement chain, or nothing on a conflict. */
  function ResolveChain(candidates: seq<Policy>): Option<Policy> {
    if |candidates| == 1 then Some(candidates[0])
    else
      var ids := set p | p in candidates :: p.policyId;
      var replaced, roots := ReplacedIds(candidates), Roots(candidates);
      if |roots| == 1
         && (forall p ::
            p in candidates ==> p.policyId == roots[0].policyId || p.policyId in replaced || roots[0].policyId in ids)
         && (forall p :: p in candidates ==>
            p.policyId == roots[0].policyId || roots[0].replacing == Some(p.policyId) || p.policyId in replaced)
      then Some(roots[0])
      else None
  }

  // ---------------------------------------------------------------- the evaluation of one policy

  function ProductVerdict(req: Request, p: Policy): Verdict {
    if p.applicability.UndeterminedScope? then Undetermined
    else if p.productScope.None? then Applicable
    else
      var scope := p.productScope.value;
      if scope.resolution.Unresolved? || !Present(req.productRef) then Undetermined
      else if req.productRef.value in scope.excluded || scope.resolution.ResolvedNo? then NotApplicable
      else if |scope.included| > 0 && req.productRef.value !in scope.included then Undetermined
      else Applicable
  }

  function CompletenessReasons(p: Policy): set<Restriction> {
    (if p.nature.None? then {NatureUndeclared} else {})
    + (if p.timeValue.None? then {TimeValueUndeclared} else {})
    + (if p.timeValue.Some? && p.timeValue.value.kind == BusinessDays && p.calendar.None?
       then {CalendarMissing} else {})
    + (if p.timeValue.Some? && (p.timeValue.value.kind == Date || p.timeValue.value.kind == Interval)
      && !Present(p.timezone)
       then {TimezoneMissing} else {})
    + (if !Present(p.clockStart) then {ClockStartUndeclared} else {})
    + (if !Present(p.shipComplete) then {ShipCompleteUndeclared} else {})
  }

  predicate TrustedSource(source: Text) {
    NonBlank(source) && source != Ascii("buyer_text") && source != Ascii("buyer_claim") && source != Ascii("reply_text")
    && source != Ascii("llm_output") && source != Ascii("page_free_text")
  }

  function RequestReasons(req: Request): set<Restriction> {
    (if req.shipEvidence.Some? && req.shipEvidence.value != Ascii("carrier_first_acceptance")
     then {ShipCompleteNotEvidenced} else {})
    + (if req.orderStartSource.Some? && TrustedSource(req.orderStartSource.value) then {} else {OrderTimeUnknown})
    + (if req.fulfilmentException then {ExceptionNotModelled} else {})
  }

  const NonBlocking := {OrderTimeUnknown, ShipCompleteNotEvidenced, ExceptionNotModelled, NameNotIdentity}

  function NameReasons(req: Request): set<Restriction> {
    if Present(req.shopName) then {NameNotIdentity} else {}
  }

  function Served(req: Request, reasons: set<Restriction>, p: Policy): Evaluation {
    var verdict := ProductVerdict(req, p);
    var all := reasons + (if verdict == Undetermined then {ProductUndetermined} else {}) + CompletenessReasons(p)
      + RequestReasons(req);
    var canServe := verdict == Applicable && all - NonBlocking == {} && p.ownerApproval.Some?;
    var fact :=
      if canServe && p.nature.Some? && p.timeValue.Some? && Present(p.clockStart) && Present(p.shipComplete)
      then Some(Fact(p.policyId, p.policyVersion, p.nature.value, p.timeValue.value, p.timezone, p.calendar, p.cutOff,
                     p.clockStart.value, p.shipComplete.value))
      else None;
    Evaluation(fact, if fact.None? && verdict == Applicable then Undetermined else verdict,
               all + (if p.ownerApproval.None? then {SemanticsUndecided} else {}), Some(p))
  }

  /** The evaluation of a request against a policy list. */
  function Evaluate(req: Request, policies: seq<Policy>): Evaluation {
    var selection := Select(req, policies);
    var reasons := NameReasons(req) + selection.reasons;
    if !selection.bound then Evaluation(None, UnknownVerdict, reasons, None)
    else if selection.candidates == [] then
      if exists p :: p in policies && p.lifecycle == Revoked && p.sourceRef == Some(Ascii("EXPLICITLY_ABSENT"))
      then Evaluation(None, AbsentExplicitly, reasons + {ExplicitlyAbsent}, None)
      else Evaluation(None, UnknownVerdict, reasons + {PolicyMissing}, None)
    else
      var current := CurrentOnes(selection.candidates, req.now);
      if current == [] then
        Evaluation(None, UnknownVerdict, reasons + Exclusions(selection.candidates, req.now), None)
      else
        match ResolveChain(current)
        case None => Evaluation(None, UnknownVerdict, reasons + {Conflicting}, None)
        case Some(p) =>
          if req.historical.Some? && req.historical.value != (p.policyId, p.policyVersion)
          then Evaluation(None, NotApplicable, reasons + {HistoricalPreserved}, None)
          else Served(req, reasons, p)
  }

  /** The evaluation with its loops: lifecycle first, then the window, collecting the exclusions. */
  method EvaluateShippingPolicy(req: Request, policies: seq<Policy>) returns (evaluation: Evaluation)
    ensures evaluation == Evaluate(req, policies)
  {
    hide NonBlank, Less, Select, ResolveChain, Served;
    var selection := SelectByScope(req, policies);
    var reasons := NameReasons(req) + selection.reasons;
    if !selection.bound { return Evaluation(None, UnknownVerdict, reasons, None); }
    var candidates := selection.candidates;
    if candidates == [] {
      if exists p :: p in policies && p.lifecycle == Revoked && p.sourceRef == Some(Ascii("EXPLICITLY_ABSENT")) {
        return Evaluation(None, AbsentExplicitly, reasons + {ExplicitlyAbsent}, None);
      }
      return Evaluation(None, UnknownVerdict, reasons + {PolicyMissing}, None);
    }
    var inWindow, excluded := Classify(candidates, req.now);
    if inWindow == [] { return Evaluation(None, UnknownVerdict, reasons + excluded, None); }
    var winner := ResolveChain(inWindow);
    if winner.None? { return Evaluation(None, UnknownVerdict, reasons + {Conflicting}, None); }
    var p := winner.value;
    if req.historical.Some? && req.historical.value != (p.policyId, p.policyVersion) {
      return Evaluation(None, NotApplicable, reasons + {HistoricalPreserved}, None);
    }
    evaluation := Served(req, reasons, p);
  }

  method Classify(candidates: seq<Policy>, now: Option<Text>)
    returns (inWindow: seq<Policy>, excluded: set<Restriction>)
    ensures inWindow == CurrentOnes(candidates, now) && excluded == Exclusions(candidates, now)
  {
    hide NonBlank, Less, WindowOf, Filter, LifecycleExclusions, WindowExclusions, Exclusions;
    var active: seq<Policy> := [];
    excluded := {};
    NothingYet(candidates, now);
    var i := 0;
    while i < |candidates|
      invariant 0 <= i <= |candidates| && active == ActiveOnes(candidates[..i])
      invariant excluded == LifecycleExclusions(candidates[..i])
    {
      var policy := candidates[i];
      ActiveStep(candidates, i);
      if policy.lifecycle == Active {
        active := active + [policy];
      } else {
        excluded := excluded + LifecycleReasons(policy);
      }
      i := i + 1;
    }
    assert candidates[..|candidates|] == candidates;
    inWindow := [];
    NothingYet(active, now);
    i := 0;
    while i < |active|
      invariant 0 <= i <= |active| && inWindow == CurrentOnes(active[..i], now)
      invariant excluded == LifecycleExclusions(candidates) + WindowExclusions(active[..i], now)
    {
      var policy := active[i];
      FilterMembers((p: Policy) => IsActive(p), candidates, policy);
      WindowStep(active, i, now);
      if WindowOf(policy, now) == InWindow {
        inWindow := inWindow + [policy];
      } else {
        excluded := excluded + WindowReasons(policy, now);
      }
      i := i + 1;
    }
    assert active[..|active|] == active;
    TwoPasses(candidates, now);
  }

  lemma ActiveStep(candidates: seq<Policy>, i: nat)
    requires i < |candidates|
    ensures ActiveOnes(candidates[..i + 1])
            == ActiveOnes(candidates[..i]) + (if IsActive(candidates[i]) then [candidates[i]] else [])
    ensures LifecycleExclusions(candidates[..i + 1])
            == LifecycleExclusions(candidates[..i]) + LifecycleReasons(candidates[i])
  {
    assert candidates[..i + 1] == candidates[..i] + [candidates[i]];
    FilterConcat((p: Policy) => IsActive(p), candidates[..i], [candidates[i]]);
    LifecycleConcat(candidates[..i], candidates[i]);
  }

  lemma WindowStep(active: seq<Policy>, i: nat, now: Option<Text>)
    requires i < |active|
    ensures CurrentOnes(active[..i + 1], now)
            == CurrentOnes(active[..i], now) + (if IsCurrent(active[i], now) then [active[i]] else [])
    ensures WindowExclusions(active[..i + 1], now) == WindowExclusions(active[..i], now) + WindowReasons(active[i], now)
  {
    hide WindowOf, WindowReasons;
    assert active[..i + 1] == active[..i] + [active[i]];
    FilterConcat((p: Policy) => IsCurrent(p, now), active[..i], [active[i]]);
    WindowConcat(active[..i], active[i], now);
  }

  lemma NothingYet(s: seq<Policy>, now: Option<Text>)
    ensures ActiveOnes(s[..0]) == [] && LifecycleExclusions(s[..0]) == {}
    ensures CurrentOnes(s[..0], now) == [] && WindowExclusions(s[..0], now) == {}
  {}

  function LifecycleExclusions(candidates: seq<Policy>): set<Restriction> {
    if candidates == [] then {} else LifecycleReasons(candidates[0]) + LifecycleExclusions(candidates[1..])
  }

  function WindowExclusions(active: seq<Policy>, now: Option<Text>): set<Restriction> {
    if active == [] then {} else WindowReasons(active[0], now) + WindowExclusions(active[1..], now)
  }

  lemma {:induction false} LifecycleConcat(a: seq<Policy>, p: Policy)
    ensures LifecycleExclusions(a + [p]) == LifecycleExclusions(a) + LifecycleReasons(p)
  {
    if a == [] {
      assert a + [p] == [p];
      assert [p][1..] == [];
    } else {
      assert (a + [p])[1..] == a[1..] + [p];
      LifecycleConcat(a[1..], p);
    }
  }

  lemma {:induction false} WindowConcat(a: seq<Policy>, p: Policy, now: Option<Text>)
    ensures WindowExclusions(a + [p], now) == WindowExclusions(a, now) + WindowReasons(p, now)
  {
    if a == [] {
      assert a + [p] == [p];
      assert [p][1..] == [];
    } else {
      assert (a + [p])[1..] == a[1..] + [p];
      WindowConcat(a[1..], p, now);
    }
  }

  /** Lifecycle first and window second comes to the same as both tests at once. */
  lemma {:induction false} TwoPasses(candidates: seq<Policy>, now: Option<Text>)
    ensures CurrentOnes(ActiveOnes(candidates), now) == CurrentOnes(candidates, now)
    ensures LifecycleExclusions(candidates) + WindowExclusions(ActiveOnes(candidates), now)
            == Exclusions(candidates, now)
  {
    hide WindowOf;
    if candidates != [] {
      var p, rest := candidates[0], ActiveOnes(candidates[1..]);
      TwoPasses(candidates[1..], now);
      if IsActive(p) {
        assert ActiveOnes(candidates) == [p] + rest;
        assert ([p] + rest)[1..] == rest;
      } else {
        assert ActiveOnes(candidates) == rest;
      }
    }
  }

  // ---------------------------------------------------------------- the order of the list

  lemma {:induction false} FilterPermuted<T(!new)>(p: T -> bool, a: seq<T>, b: seq<T>)
    requires multiset(a) == multiset(b)
    ensures multiset(Filter(p, a)) == multiset(Filter(p, b))
  {
    hide Filter;
    if a == [] {
      assert |multiset(b)| == 0;
    } else {
      var k := TakeOut(a, b);
      var l, r := b[..k], b[k + 1..];
      assert a == [a[0]] + a[1..];
      FilterPermuted(p, a[1..], l + r);
      FilterConcat(p, l, r);
      FilterConcat(p, l + [a[0]], r);
      FilterConcat(p, l, [a[0]]);
      FilterConcat(p, [a[0]], a[1..]);
    }
  }

  lemma PermutedMembers<T(!new)>(a: seq<T>, b: seq<T>)
    requires multiset(a) == multiset(b)
    ensures |a| == |b| && forall x :: x in a <==> x in b
  {
    assert |a| == |multiset(a)| == |multiset(b)| == |b|;
    forall x ensures x in a <==> x in b {
      assert x in multiset(a) <==> x in multiset(b);
    }
  }

  lemma SingletonsEqual<T(!new)>(a: seq<T>, b: seq<T>)
    requires multiset(a) == multiset(b) && |a| == 1
    ensures a == b
  {
    PermutedMembers(a, b);
    assert a[0] in b && b[0] in a;
  }

  lemma ResolvePermuted(a: seq<Policy>, b: seq<Policy>)
    requires multiset(a) == multiset(b)
    ensures ResolveChain(a) == ResolveChain(b)
  {
    hide Filter, NonBlank;
    PermutedMembers(a, b);
    if |a| == 1 {
      SingletonsEqual(a, b);
    } else {
      assert ReplacedIds(a) == ReplacedIds(b);
      assert (set p | p in a :: p.policyId) == (set p | p in b :: p.policyId);
      var replaced := ReplacedIds(a);
      FilterPermuted((p: Policy) => p.policyId !in replaced, a, b);
      PermutedMembers(Roots(a), Roots(b));
      if |Roots(a)| == 1 { SingletonsEqual(Roots(a), Roots(b)); }
    }
  }

  lemma {:induction false} ExclusionsMeaning(candidates: seq<Policy>, now: Option<Text>, r: Restriction)
    ensures r in Exclusions(candidates, now) <==>
              exists p :: p in candidates && (r in LifecycleReasons(p) || (IsActive(p) && r in WindowReasons(p, now)))
  {
    hide WindowReasons, LifecycleReasons;
    if candidates != [] {
      ExclusionsMeaning(candidates[1..], now, r);
      assert forall p :: p in candidates <==> p == candidates[0] || p in candidates[1..];
    }
  }

  lemma ExclusionsPermuted(a: seq<Policy>, b: seq<Policy>, now: Option<Text>)
    requires multiset(a) == multiset(b)
    ensures Exclusions(a, now) == Exclusions(b, now)
  {
    PermutedMembers(a, b);
    forall r ensures r in Exclusions(a, now) <==> r in Exclusions(b, now) {
      ExclusionsMeaning(a, now, r);
      ExclusionsMeaning(b, now, r);
    }
  }

  lemma SelectPermuted(req: Request, a: seq<Policy>, b: seq<Policy>)
    requires multiset(a) == multiset(b)
    ensures Select(req, a).bound == Select(req, b).bound && Select(req, a).reasons == Select(req, b).reasons
    ensures multiset(Select(req, a).candidates) == multiset(Select(req, b).candidates)
  {
    hide Filter, NonBlank;
    PermutedMembers(a, b);
    FilterPermuted((p: Policy) => InScope(req, p), a, b);
    PermutedMembers(Scoped(req, a), Scoped(req, b));
  }

  /** The order in which policies are listed changes nothing in the evaluation. */
  lemma OrderIrrelevant(req: Request, a: seq<Policy>, b: seq<Policy>)
    requires multiset(a) == multiset(b)
    ensures Evaluate(req, a) == Evaluate(req, b)
  {
    hide Filter, NonBlank, Select, ResolveChain, Served, Exclusions;
    PermutedMembers(a, b);
    SelectPermuted(req, a, b);
    var c, d := Select(req, a).candidates, Select(req, b).candidates;
    PermutedMembers(c, d);
    FilterPermuted((p: Policy) => IsCurrent(p, req.now), c, d);
    PermutedMembers(CurrentOnes(c, req.now), CurrentOnes(d, req.now));
    ResolvePermuted(CurrentOnes(c, req.now), CurrentOnes(d, req.now));
    ExclusionsPermuted(c, d, req.now);
  }
}
