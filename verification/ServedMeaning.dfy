/** What the evaluator answers, said on the fields of the request and of the policies. */
module ServedMeaning {
  import opened Basics
  import opened Text
  import opened ShippingRegistry
  import opened ShippingEvaluator
  import opened ReplacementChain
  import opened ShippingServed

  // ---------------------------------------------------------------- conditions on fields

  predicate OfStore(req: Request, p: Policy) {
    Present(p.merchantId) && Present(p.storeId) && p.merchantId == req.merchantId && p.storeId == req.storeId
  }

  /** Not before a start and not after an end, where there is one; and only with a time to compare. */
  ghost predicate InTime(req: Request, p: Policy) {
    && Present(req.now)
    && (Present(p.effectiveFrom) ==> !Precedes(req.now.value, p.effectiveFrom.value))
    && (Present(p.effectiveTo) ==> !Precedes(p.effectiveTo.value, req.now.value))
  }

  ghost predicate Standing(req: Request, policies: seq<Policy>, p: Policy) {
    p in policies && OfStore(req, p) && p.lifecycle == Active && InTime(req, p)
  }

  predicate PointsTo(x: Policy, q: Policy) {
    Present(x.replacing) && x.replacing == Some(q.policyId)
  }

  /** Some standing policy replaces `q`. */
  ghost predicate IsReplaced(req: Request, policies: seq<Policy>, q: Policy) {
    exists x :: Standing(req, policies, x) && PointsTo(x, q)
  }

  /** Listed once and standing, every other standing policy replaced, and not replaced itself unless alone. */
  ghost predicate SoleStanding(req: Request, policies: seq<Policy>, p: Policy) {
    && Standing(req, policies, p) && multiset(policies)[p] == 1
    && (forall q :: Standing(req, policies, q) && q != p ==> IsReplaced(req, policies, q))
    && ((forall q :: Standing(req, policies, q) ==> q == p) || !IsReplaced(req, policies, p))
  }

  /** The product asked for is covered: not excluded, and included where inclusions are named. */
  predicate CoversProduct(req: Request, p: Policy) {
    p.applicability != UndeterminedScope &&
    match p.productScope
    case None => true
    case Some(scope) =>
      && scope.resolution == ResolvedYes && Present(req.productRef)
      && req.productRef.value !in scope.excluded
      && (scope.included == [] || req.productRef.value in scope.included)
  }

  /** The product asked for is known not to be covered. */
  predicate RulesOutProduct(req: Request, p: Policy) {
    p.applicability != UndeterminedScope && p.productScope.Some? && Present(req.productRef) &&
    var scope := p.productScope.value;
    scope.resolution == ResolvedNo || (scope.resolution == ResolvedYes && req.productRef.value in scope.excluded)
  }

  predicate CompletePolicy(p: Policy) {
    && p.nature.Some? && p.timeValue.Some? && Present(p.clockStart) && Present(p.shipComplete)
    && (p.timeValue.value.kind == BusinessDays ==> p.calendar.Some?)
    && (p.timeValue.value.kind == Date || p.timeValue.value.kind == Interval ==> Present(p.timezone))
  }

  /** The request names its store, and no account-specific policy of it is for another account. */
  ghost predicate Bound(req: Request, policies: seq<Policy>) {
    && Present(req.merchantId) && Present(req.storeId)
    && forall q :: q in policies && OfStore(req, q) && Present(q.accountId) ==> q.accountId == req.accountId
  }

  predicate AskedFor(req: Request, p: Policy) {
    req.historical.None? || req.historical.value == (p.policyId, p.policyVersion)
  }

  ghost predicate Serves(req: Request, policies: seq<Policy>, p: Policy) {
    && Bound(req, policies) && SoleStanding(req, policies, p) && AskedFor(req, p)
    && CoversProduct(req, p) && CompletePolicy(p) && p.ownerApproval.Some?
  }

  // ---------------------------------------------------------------- the evaluator's terms on fields

  lemma InWindowExactly(req: Request, p: Policy)
    ensures WindowOf(p, req.now) == InWindow <==> InTime(req, p)
  {
    hide Less, Precedes, NonBlank;
    if Present(req.now) {
      if Present(p.effectiveFrom) { LessMeaning(req.now.value, p.effectiveFrom.value); }
      if Present(p.effectiveTo) { LessMeaning(p.effectiveTo.value, req.now.value); }
    }
  }

  lemma ProductExactly(req: Request, p: Policy)
    ensures ProductVerdict(req, p) == Applicable <==> CoversProduct(req, p)
    ensures ProductVerdict(req, p) == NotApplicable <==> RulesOutProduct(req, p)
    ensures ProductVerdict(req, p) == Undetermined <==> !CoversProduct(req, p) && !RulesOutProduct(req, p)
  {
    hide NonBlank;
  }

  /** Which reasons a policy's own gaps give. */
  lemma MissingExactly(p: Policy)
    ensures CompletenessReasons(p) == {} <==> CompletePolicy(p)
    ensures NatureUndeclared in CompletenessReasons(p) <==> p.nature == None
    ensures TimeValueUndeclared in CompletenessReasons(p) <==> p.timeValue == None
    ensures ClockStartUndeclared in CompletenessReasons(p) <==> !Present(p.clockStart)
    ensures ShipCompleteUndeclared in CompletenessReasons(p) <==> !Present(p.shipComplete)
    ensures CalendarMissing in CompletenessReasons(p) <==>
              p.timeValue.Some? && p.timeValue.value.kind == BusinessDays && p.calendar == None
    ensures TimezoneMissing in CompletenessReasons(p) <==>
              p.timeValue.Some? && (p.timeValue.value.kind == Date || p.timeValue.value.kind == Interval)
              && !Present(p.timezone)
    ensures CompletenessReasons(p) <= {NatureUndeclared, TimeValueUndeclared, ClockStartUndeclared,
            ShipCompleteUndeclared,
                                       CalendarMissing, TimezoneMissing}
  {
    hide NonBlank;
  }

  // ---------------------------------------------------------------- one head among the standing

  lemma {:induction false} FilterCount<T(!new)>(p: T -> bool, s: seq<T>, x: T)
    ensures multiset(Filter(p, s))[x] == if p(x) then multiset(s)[x] else 0
  {
    if s != [] {
      FilterCount(p, s[1..], x);
      assert s == [s[0]] + s[1..];
      var head := if p(s[0]) then [s[0]] else [];
      assert multiset(Filter(p, s)) == multiset(head) + multiset(Filter(p, s[1..]));
    }
  }

  lemma StandingIsCurrent(req: Request, policies: seq<Policy>, p: Policy)
    ensures Standing(req, policies, p) <==> p in Current(req, policies)
    ensures Standing(req, policies, p) ==> multiset(Current(req, policies))[p] == multiset(policies)[p]
  {
    hide Filter, WindowOf, NonBlank, InTime;
    InWindowExactly(req, p);
    CurrentMember(req, policies, p);
    FilterCount((q: Policy) => IsCurrent(q, req.now), Scoped(req, policies), p);
    FilterCount((q: Policy) => InScope(req, q), policies, p);
  }

  lemma {:induction false} AllTheSame<T(!new)>(s: seq<T>, x: T)
    requires forall y :: y in s ==> y == x
    ensures multiset(s)[x] == |s|
  {
    if s != [] {
      assert forall y :: y in s[1..] ==> y in s;
      AllTheSame(s[1..], x);
      assert s == [s[0]] + s[1..] && s[0] in s;
    }
  }

  lemma OnlyElement<T(!new)>(s: seq<T>, x: T)
    requires multiset(s)[x] == 1 && forall y :: y in s ==> y == x
    ensures s == [x]
  {
    AllTheSame(s, x);
    assert s[0] in s;
  }

  lemma ReplacedAmong(req: Request, policies: seq<Policy>, q: Policy)
    ensures IsReplaced(req, policies, q) <==> q.policyId in ReplacedIds(Current(req, policies))
  {
    hide Standing, Current, NonBlank;
    var current := Current(req, policies);
    if IsReplaced(req, policies, q) {
      var x :| Standing(req, policies, x) && PointsTo(x, q);
      StandingIsCurrent(req, policies, x);
      InReplaced(current, x, q.policyId);
    }
    if q.policyId in ReplacedIds(current) {
      var x := ReplacedBy(current, q.policyId);
      StandingIsCurrent(req, policies, x);
      assert PointsTo(x, q);
    }
  }

  lemma RootCount(current: seq<Policy>, p: Policy)
    ensures multiset(Roots(current))[p] == if p.policyId !in ReplacedIds(current) then multiset(current)[p] else 0
  {
    hide Filter, ReplacedIds;
    var replaced := ReplacedIds(current);
    FilterCount((q: Policy) => q.policyId !in replaced, current, p);
  }

  lemma SoleExactly(req: Request, policies: seq<Policy>, p: Policy)
    ensures SoleStanding(req, policies, p) <==> SoleHead(Current(req, policies), p)
  {
    hide Standing, Current, Roots, ReplacedIds, IsReplaced;
    var current := Current(req, policies);
    forall q ensures Standing(req, policies, q) <==> q in current { StandingIsCurrent(req, policies, q); }
    forall q ensures IsReplaced(req, policies, q) <==>
      q.policyId in ReplacedIds(current) { ReplacedAmong(req, policies, q); }
    forall q ensures q in Roots(current) <==>
      q in current && q.policyId !in ReplacedIds(current) { RootMember(current, q); }
    StandingIsCurrent(req, policies, p);
    RootCount(current, p);
    if SoleStanding(req, policies, p) {
      if forall q :: Standing(req, policies, q) ==> q == p {
        OnlyElement(current, p);
      } else {
        OnlyElement(Roots(current), p);
        var q :| Standing(req, policies, q) && q != p;
        TwoMembers(current, p, q);
      }
    }
    if SoleHead(current, p) {
      HeadIsSole(current, p);
    }
  }

  lemma TwoMembers<T(!new)>(s: seq<T>, x: T, y: T)
    requires x in s && y in s && x != y
    ensures |s| > 1
  {}

  lemma HeadIsSole(current: seq<Policy>, p: Policy)
    requires SoleHead(current, p)
    ensures p in current && multiset(current)[p] == 1
    ensures (forall q :: q in current ==> q == p) || p.policyId !in ReplacedIds(current)
    ensures forall q :: q in current && q != p ==> q.policyId in ReplacedIds(current)
  {
    hide Roots, ReplacedIds;
    HeadIsMember(current, p);
    if |current| > 1 {
      RootCount(current, p);
      RootMember(current, p);
      assert p in Roots(current);
      forall q | q in current && q != p ensures q.policyId in ReplacedIds(current) { RootMember(current, q); }
    }
  }

  // ---------------------------------------------------------------- when a fact is served

  lemma ServesExactly(req: Request, policies: seq<Policy>, p: Policy)
    ensures Serves(req, policies, p) <==> Servable(req, policies, p)
  {
    hide SoleStanding, SoleHead, Current, ProductVerdict, CompletenessReasons, CoversProduct, CompletePolicy, InTime,
      WindowOf, NonBlank;
    SoleExactly(req, policies, p);
    ProductExactly(req, p);
    MissingExactly(p);
    InWindowExactly(req, p);
    if SoleHead(Current(req, policies), p) {
      HeadIsMember(Current(req, policies), p);
      StandingIsCurrent(req, policies, p);
    }
  }

  /**
   A fact is served exactly when one listed policy meets every condition on its fields and the
   request's: store and account, life, time, sole head, product, completeness and approval. The fact
   is that policy's.
   */
  lemma FactOnFields(req: Request, policies: seq<Policy>)
    ensures Evaluate(req, policies).fact.Some? <==> exists p :: Serves(req, policies, p)
    ensures forall p :: Serves(req, policies, p) ==>
              && Evaluate(req, policies).policy == Some(p)
              && Evaluate(req, policies).fact.Some?
              && Describes(Evaluate(req, policies).fact.value, p)
  {
    hide Evaluate, Serves, Servable, Describes;
    FactExactly(req, policies);
    forall p ensures Serves(req, policies, p) <==> Servable(req, policies, p) { ServesExactly(req, policies, p); }
  }

  // ---------------------------------------------------------------- why none is

  /** A policy of the store gives this reason for not standing. */
  ghost predicate Excludes(req: Request, c: Policy, r: Restriction) {
    match r
    case DraftNotEffective => c.lifecycle == Draft
    case PolicyNotActive => c.lifecycle == Draft || c.lifecycle == NotEffective
    case WasSuperseded => c.lifecycle == Superseded
    case WasRevoked => c.lifecycle == Revoked
    case SemanticsUndecided => c.lifecycle == Active && !Present(req.now)
    case NotYetEffective =>
      c.lifecycle == Active && Present(req.now) && Present(c.effectiveFrom)
        && Precedes(req.now.value, c.effectiveFrom.value)
    case Expired =>
      && c.lifecycle == Active && Present(req.now) && Present(c.effectiveTo)
         && Precedes(c.effectiveTo.value, req.now.value)
      && !(Present(c.effectiveFrom) && Precedes(req.now.value, c.effectiveFrom.value))
    case _ => false
  }

  lemma OneExclusion(req: Request, c: Policy, r: Restriction)
    ensures r in LifecycleReasons(c) + (if IsActive(c) then WindowReasons(c, req.now) else {}) <==> Excludes(req, c, r)
  {
    hide Less, Precedes, NonBlank;
    if Present(req.now) {
      if Present(c.effectiveFrom) { LessMeaning(req.now.value, c.effectiveFrom.value); }
      if Present(c.effectiveTo) { LessMeaning(c.effectiveTo.value, req.now.value); }
    }
  }

  lemma {:induction false} ExclusionsExactly(req: Request, candidates: seq<Policy>, r: Restriction)
    ensures r in Exclusions(candidates, req.now) <==> exists c :: c in candidates && Excludes(req, c, r)
  {
    hide Excludes, LifecycleReasons, WindowReasons, IsActive;
    if candidates != [] {
      OneExclusion(req, candidates[0], r);
      ExclusionsExactly(req, candidates[1..], r);
      assert candidates == [candidates[0]] + candidates[1..];
    }
  }

  /** The request does not name its store, or an account-specific policy is for another account. */
  lemma UnboundAnswer(req: Request, policies: seq<Policy>)
    requires !Bound(req, policies)
    ensures Evaluate(req, policies) == Evaluation(None, UnknownVerdict, NameReasons(req) + {Unbound}, None)
  {
    hide NonBlank, Filter;
    if Present(req.merchantId) && Present(req.storeId) {
      var q :| q in policies && OfStore(req, q) && Present(q.accountId) && q.accountId != req.accountId;
      assert AccountClash(req, q);
    }
  }

  lemma BoundSelects(req: Request, policies: seq<Policy>)
    requires Bound(req, policies)
    ensures Select(req, policies).bound && Select(req, policies).candidates == Scoped(req, policies)
    ensures Scoped(req, policies) == [] <==> forall q :: q in policies ==> !OfStore(req, q)
  {
    hide NonBlank, Filter;
    forall q | q in policies ensures !AccountClash(req, q) {}
    forall q ensures q in Scoped(req, policies) <==> q in policies && OfStore(req, q) {
      FilterMembers((p: Policy) => InScope(req, p), policies, q);
    }
    if Scoped(req, policies) != [] { assert Scoped(req, policies)[0] in Scoped(req, policies); }
  }

  /** No policy of the store: missing, or declared absent; and whether others were listed. */
  lemma MissingAnswer(req: Request, policies: seq<Policy>)
    requires Bound(req, policies) && forall q :: q in policies ==> !OfStore(req, q)
    ensures var e := Evaluate(req, policies);
            var absent := exists p ::
              p in policies && p.lifecycle == Revoked && p.sourceRef == Some(Ascii("EXPLICITLY_ABSENT"));
            var unbound := exists p :: p in policies && !(Present(p.merchantId) && Present(p.storeId));
            && e.fact == None && e.policy == None
            && e.verdict == (if absent then AbsentExplicitly else UnknownVerdict)
            && e.reasons == NameReasons(req) + (if absent then {ExplicitlyAbsent} else {PolicyMissing})
                            + (if unbound then {Unbound} else if policies != [] then {Mismatch} else {})
  {
    hide NonBlank, Filter, Ascii;
    BoundSelects(req, policies);
    if policies != [] { assert policies[0] in policies; }
  }

  /** Policies of the store, none of them standing: the answer names why, and nothing else. */
  lemma ExcludedAnswer(req: Request, policies: seq<Policy>, r: Restriction)
    requires Bound(req, policies) && (exists q :: q in policies && OfStore(req, q))
    requires forall q :: !Standing(req, policies, q)
    ensures var e := Evaluate(req, policies);
            && e.fact == None && e.policy == None && e.verdict == UnknownVerdict
            && (r in e.reasons <==>
                  r in NameReasons(req) || exists c :: c in policies && OfStore(req, c) && Excludes(req, c, r))
  {
    hide NonBlank, Filter, Excludes, Exclusions, Standing;
    BoundSelects(req, policies);
    NoneCurrent(req, policies);
    var scoped := Scoped(req, policies);
    ExclusionsExactly(req, scoped, r);
    forall q ensures q in scoped <==> q in policies && OfStore(req, q) {
      FilterMembers((p: Policy) => InScope(req, p), policies, q);
    }
  }

  lemma NoneCurrent(req: Request, policies: seq<Policy>)
    ensures Current(req, policies) == [] <==> forall q :: !Standing(req, policies, q)
  {
    hide Standing, Current;
    forall q ensures Standing(req, policies, q) <==>
      q in Current(req, policies) { StandingIsCurrent(req, policies, q); }
    if Current(req, policies) != [] { assert Current(req, policies)[0] in Current(req, policies); }
  }

  /** Some standing, and no sole head among them: a conflict. */
  lemma ConflictAnswer(req: Request, policies: seq<Policy>)
    requires Bound(req, policies) && (exists q :: Standing(req, policies, q)) && forall p ::
             !SoleStanding(req, policies, p)
    ensures Evaluate(req, policies) == Evaluation(None, UnknownVerdict, NameReasons(req) + {Conflicting}, None)
  {
    hide NonBlank, Filter, Standing, SoleStanding, SoleHead, ResolveChain;
    var q :| Standing(req, policies, q);
    NoneCurrent(req, policies);
    StandingOfStore(req, policies, q);
    BoundSelects(req, policies);
    if ResolveChain(Current(req, policies)).Some? {
      var p := ResolveChain(Current(req, policies)).value;
      ResolveIsSoleHead(Current(req, policies), p);
      SoleExactly(req, policies, p);
    }
    assert NameReasons(req) + {} == NameReasons(req);
  }

  lemma StandingOfStore(req: Request, policies: seq<Policy>, q: Policy)
    requires Standing(req, policies, q)
    ensures q in policies && OfStore(req, q)
  {}

  /** A sole head that is not the version asked for: the historical version is left as it was. */
  lemma HistoricalAnswer(req: Request, policies: seq<Policy>, p: Policy)
    requires Bound(req, policies) && SoleStanding(req, policies, p) && !AskedFor(req, p)
    ensures Evaluate(req, policies) == Evaluation(None, NotApplicable, NameReasons(req) + {HistoricalPreserved}, None)
  {
    HeadIsResolved(req, policies, p);
    hide NonBlank, Filter, Standing, SoleStanding, SoleHead, ResolveChain, Current, Scoped;
    assert NameReasons(req) + {} == NameReasons(req);
  }

  lemma HeadIsResolved(req: Request, policies: seq<Policy>, p: Policy)
    requires Bound(req, policies) && SoleStanding(req, policies, p)
    ensures var selection := Select(req, policies);
            && selection.bound && selection.candidates != [] && selection.reasons == {}
            && CurrentOnes(selection.candidates, req.now) != []
            && ResolveChain(CurrentOnes(selection.candidates, req.now)) == Some(p)
  {
    assert Standing(req, policies, p);
    hide NonBlank, Filter, Standing, SoleStanding, SoleHead, ResolveChain;
    StandingOfStore(req, policies, p);
    BoundSelects(req, policies);
    NoneCurrent(req, policies);
    SoleExactly(req, policies, p);
    ResolveIsSoleHead(Current(req, policies), p);
  }

  /** No source of the order time, or one that only repeats what was said. */
  predicate Untrusted(source: Option<Text>) {
    source.None? || !NonBlank(source.value)
    || source.value == Ascii("buyer_text") || source.value == Ascii("buyer_claim")
       || source.value == Ascii("reply_text")
    || source.value == Ascii("llm_output") || source.value == Ascii("page_free_text")
  }

  /** What about the request alone is remarked, without blocking. */
  ghost predicate Remarked(req: Request, r: Restriction) {
    match r
    case NameNotIdentity => Present(req.shopName)
    case ShipCompleteNotEvidenced =>
      req.shipEvidence.Some? && req.shipEvidence.value != Ascii("carrier_first_acceptance")
    case OrderTimeUnknown => Untrusted(req.orderStartSource)
    case ExceptionNotModelled => req.fulfilmentException
    case _ => false
  }

  /** A sole head of the version asked for: the verdict and every reason, on the fields. */
  lemma HeadAnswer(req: Request, policies: seq<Policy>, p: Policy, r: Restriction)
    requires Bound(req, policies) && SoleStanding(req, policies, p) && AskedFor(req, p)
    ensures var e := Evaluate(req, policies);
            && e.policy == Some(p)
            && (e.fact.Some? <==> CoversProduct(req, p) && CompletePolicy(p) && p.ownerApproval.Some?)
            && e.verdict == (if e.fact.Some? then Applicable else if RulesOutProduct(req, p) then NotApplicable
               else Undetermined)
            && (r in e.reasons <==>
                  || Remarked(req, r) || r in CompletenessReasons(p)
                  || (r == ProductUndetermined && !CoversProduct(req, p) && !RulesOutProduct(req, p))
                  || (r == SemanticsUndecided && p.ownerApproval == None))
  {
    HeadIsResolved(req, policies, p);
    hide NonBlank, Filter, Standing, SoleStanding, SoleHead, ResolveChain, Scoped, Select, CompletenessReasons, Served;
    hide ProductVerdict, CoversProduct, RulesOutProduct, CompletePolicy, Remarked;
    assert NameReasons(req) + {} == NameReasons(req);
    assert Evaluate(req, policies) == Served(req, NameReasons(req), p);
    ServedExactly(req, p);
    ProductExactly(req, p);
    MissingExactly(p);
    ServedVerdict(req, p);
    ServedReasons(req, p, r);
  }

  lemma ServedVerdict(req: Request, p: Policy)
    ensures var e := Served(req, NameReasons(req), p);
            e.verdict == if e.fact.None?
              && ProductVerdict(req, p) == Applicable then Undetermined else ProductVerdict(req, p)
  {
    hide NonBlank, CompletenessReasons, RequestReasons, NameReasons, ProductVerdict;
  }

  lemma ServedReasons(req: Request, p: Policy, r: Restriction)
    ensures r in Served(req, NameReasons(req), p).reasons <==>
              || Remarked(req, r) || r in CompletenessReasons(p)
              || (r == ProductUndetermined && ProductVerdict(req, p) == Undetermined)
              || (r == SemanticsUndecided && p.ownerApproval == None)
  {
    RemarkedExactly(req, r);
    hide NonBlank, CompletenessReasons, RequestReasons, NameReasons, ProductVerdict, Remarked;
  }

  lemma RemarkedExactly(req: Request, r: Restriction)
    ensures Remarked(req, r) <==> r in NameReasons(req) + RequestReasons(req)
  {
    hide NonBlank, Ascii;
  }
}
