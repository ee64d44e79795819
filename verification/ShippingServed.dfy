/** Which policy the evaluator serves, and why an exported registration never is. */
module ShippingServed {
  import opened Basics
  import opened Text
  import opened ShippingRegistry
  import opened RegistryInvariants
  import opened RegistryReads
  import opened ShippingEvaluator
  import opened ReplacementChain

  /** The policies of the request's store that are active and in window. */
  function Current(req: Request, policies: seq<Policy>): seq<Policy> {
    CurrentOnes(Scoped(req, policies), req.now)
  }

  /** Everything a served policy must be. */
  ghost predicate Servable(req: Request, policies: seq<Policy>, p: Policy) {
    && Present(req.merchantId) && Present(req.storeId)
    && (forall q :: q in policies ==> !AccountClash(req, q))
    && p in policies && InScope(req, p) && (Present(p.accountId) ==> p.accountId == req.accountId)
    && p.lifecycle == Active && WindowOf(p, req.now) == InWindow
    && SoleHead(Current(req, policies), p)
    && (req.historical.None? || req.historical.value == (p.policyId, p.policyVersion))
    && ProductVerdict(req, p) == Applicable
    && CompletenessReasons(p) == {} && p.ownerApproval.Some?
  }

  lemma CurrentMember(req: Request, policies: seq<Policy>, p: Policy)
    ensures p in Current(req, policies) <==> p in policies && InScope(req, p) && IsCurrent(p, req.now)
  {
    hide Filter, WindowOf, NonBlank;
    FilterMembers((q: Policy) => IsCurrent(q, req.now), Scoped(req, policies), p);
    FilterMembers((q: Policy) => InScope(req, q), policies, p);
  }

  /** Every field of the fact is the policy's own. */
  ghost predicate Describes(f: Fact, p: Policy) {
    && f.policyId == p.policyId && f.policyVersion == p.policyVersion
    && p.nature == Some(f.nature) && p.timeValue == Some(f.timeValue)
    && f.timezone == p.timezone && f.calendar == p.calendar && f.cutOff == p.cutOff
    && p.clockStart == Some(f.clockStart) && p.shipComplete == Some(f.shipComplete)
  }

  /** Nothing about the request blocks the fact; what is missing in the policy does. */
  lemma ServedExactly(req: Request, p: Policy)
    ensures Served(req, NameReasons(req), p).fact.Some? <==>
              ProductVerdict(req, p) == Applicable && CompletenessReasons(p) == {} && p.ownerApproval.Some?
    ensures Served(req, NameReasons(req), p).policy == Some(p)
    ensures Served(req, NameReasons(req), p).fact.Some? ==> Describes(Served(req, NameReasons(req), p).fact.value, p)
  {
    RequestNeverBlocks(req);
    MissingBlocks(p);
    hide NonBlank, ProductVerdict, RequestReasons, NameReasons, CompletenessReasons;
    var missing := CompletenessReasons(p);
    var all := NameReasons(req) + (if ProductVerdict(req, p) == Undetermined then {ProductUndetermined} else {})
      + missing + RequestReasons(req);
    if missing == {} {
      if ProductVerdict(req, p) == Applicable { assert all - NonBlocking == {}; }
    } else {
      var r :| r in missing;
      assert r in all - NonBlocking;
    }
  }

  lemma RequestNeverBlocks(req: Request)
    ensures RequestReasons(req) <= NonBlocking && NameReasons(req) <= NonBlocking
  {
    hide TrustedSource, NonBlank;
  }

  lemma MissingBlocks(p: Policy)
    ensures CompletenessReasons(p) !! NonBlocking
    ensures CompletenessReasons(p) == {} ==>
            p.nature.Some? && p.timeValue.Some? && Present(p.clockStart) && Present(p.shipComplete)
  {
    hide NonBlank;
    assert p.nature.None? ==> NatureUndeclared in CompletenessReasons(p);
    assert p.timeValue.None? ==> TimeValueUndeclared in CompletenessReasons(p);
    assert !Present(p.clockStart) ==> ClockStartUndeclared in CompletenessReasons(p);
    assert !Present(p.shipComplete) ==> ShipCompleteUndeclared in CompletenessReasons(p);
  }

  /** A fact is served exactly when the list holds a servable policy; the fact is that policy's. */
  lemma FactExactly(req: Request, policies: seq<Policy>)
    ensures Evaluate(req, policies).fact.Some? <==> exists p :: Servable(req, policies, p)
    ensures forall p :: Servable(req, policies, p) ==>
              && Evaluate(req, policies).policy == Some(p)
              && Evaluate(req, policies).fact.Some?
              && Describes(Evaluate(req, policies).fact.value, p)
  {
    hide NonBlank, Filter, ResolveChain, Served, ProductVerdict, CompletenessReasons, WindowOf, Roots, Describes;
    forall p | Servable(req, policies, p)
      ensures && Evaluate(req, policies).policy == Some(p) && Evaluate(req, policies).fact.Some?
              && Describes(Evaluate(req, policies).fact.value, p)
    {
      ServableIsServed(req, policies, p);
    }
    if Evaluate(req, policies).fact.Some? {
      var p := ServedIsServable(req, policies);
    }
  }

  lemma ServableIsServed(req: Request, policies: seq<Policy>, p: Policy)
    requires Servable(req, policies, p)
    ensures && Evaluate(req, policies).policy == Some(p) && Evaluate(req, policies).fact.Some?
            && Describes(Evaluate(req, policies).fact.value, p)
  {
    hide NonBlank, Filter, ResolveChain, Served, ProductVerdict, CompletenessReasons, WindowOf, Roots, Describes;
    var current := Current(req, policies);
    CurrentMember(req, policies, p);
    ResolveIsSoleHead(current, p);
    FilterMembers((q: Policy) => InScope(req, q), policies, p);
    ServedExactly(req, p);
    assert NameReasons(req) + {} == NameReasons(req);
    assert Evaluate(req, policies) == Served(req, NameReasons(req), p);
  }

  lemma ServedIsServable(req: Request, policies: seq<Policy>) returns (p: Policy)
    requires Evaluate(req, policies).fact.Some?
    ensures Servable(req, policies, p)
  {
    hide NonBlank, Filter, ResolveChain, Served, ProductVerdict, CompletenessReasons, WindowOf, Roots;
    var current := Current(req, policies);
    var winner := ResolveChain(current);
    assert winner.Some?;
    p := winner.value;
    ResolveIsSoleHead(current, p);
    HeadIsMember(current, p);
    CurrentMember(req, policies, p);
    assert NameReasons(req) + {} == NameReasons(req);
    ServedExactly(req, p);
    assert !AccountClash(req, p);
  }

  lemma HeadIsMember(current: seq<Policy>, p: Policy)
    requires SoleHead(current, p)
    ensures p in current
  {
    hide Filter, ReplacedIds;
    if |current| > 1 {
      var replaced := ReplacedIds(current);
      FilterMembers((q: Policy) => q.policyId !in replaced, current, p);
      assert p in Roots(current);
    }
  }

  // ---------------------------------------------------------------- no refusal without a reason

  ghost predicate Blocked(e: Evaluation) {
    e.verdict == NotApplicable || !(e.reasons <= NonBlocking)
  }

  lemma {:induction false} ExcludedForReason(candidates: seq<Policy>, now: Option<Text>)
    requires candidates != [] && CurrentOnes(candidates, now) == []
    ensures !(Exclusions(candidates, now) <= NonBlocking)
  {
    hide WindowOf;
    var p := candidates[0];
    assert !IsCurrent(p, now);
    var reasons := LifecycleReasons(p) + (if IsActive(p) then WindowReasons(p, now) else {});
    assert !(reasons <= NonBlocking) by {
      assert reasons !! NonBlocking && reasons != {};
    }
    assert reasons <= Exclusions(candidates, now);
  }

  lemma ServedForReason(req: Request, reasons: set<Restriction>, p: Policy)
    requires reasons <= NonBlocking
    ensures Served(req, reasons, p).fact.Some? <==> !Blocked(Served(req, reasons, p))
    ensures Served(req, reasons, p).fact.Some? <==> Served(req, reasons, p).verdict == Applicable
  {
    assert ProductVerdict(req, p) == Applicable || ProductVerdict(req, p) == NotApplicable
      || ProductVerdict(req, p) == Undetermined;
    MissingBlocks(p);
    hide NonBlank, ProductVerdict, RequestReasons, CompletenessReasons;
    var e, missing := Served(req, reasons, p), CompletenessReasons(p);
    var all := reasons + (if ProductVerdict(req, p) == Undetermined then {ProductUndetermined} else {}) + missing
      + RequestReasons(req);
    assert ProductUndetermined !in NonBlocking && SemanticsUndecided !in NonBlocking;
    if missing != {} {
      var r :| r in missing;
      assert r in all && r !in NonBlocking;
    }
    assert all <= e.reasons && missing <= all;
    assert all - NonBlocking == {} <==> all <= NonBlocking by {
      if all - NonBlocking == {} {
        forall r | r in all ensures r in NonBlocking { assert r !in all - NonBlocking; }
      }
    }
    assert ProductVerdict(req, p) == Undetermined ==> ProductUndetermined in all;
    assert p.ownerApproval.None? ==> SemanticsUndecided in e.reasons;
  }

  /**
   The evaluation accounts for itself: a fact is served exactly when the verdict is applicable, and
   exactly when no blocking reason is given and the policy is not found inapplicable.
   */
  lemma RefusalHasReason(req: Request, policies: seq<Policy>)
    ensures var e := Evaluate(req, policies); e.fact.Some? <==> e.verdict == Applicable
    ensures var e := Evaluate(req, policies); e.fact.Some? <==> !Blocked(e)
  {
    hide NonBlank, Filter, ResolveChain, Served, ProductVerdict, CompletenessReasons, WindowOf, Roots, Exclusions,
      InScope, AccountClash;
    var selection := Select(req, policies);
    if selection.bound && selection.candidates != [] {
      var current := CurrentOnes(selection.candidates, req.now);
      if current == [] {
        ExcludedForReason(selection.candidates, req.now);
      } else if ResolveChain(current).Some? {
        ServedForReason(req, NameReasons(req) + selection.reasons, ResolveChain(current).value);
      }
    } else {
      assert Unbound !in NonBlocking && PolicyMissing !in NonBlocking && ExplicitlyAbsent !in NonBlocking;
    }
  }

  // ---------------------------------------------------------------- registrations exported to the evaluator

  datatype Export = Exported(policy: Policy) | NotExported(reason: Reason)

  function ItemValue(items: seq<Entry<Text>>, item: Text): Option<Text> {
    if items == [] then None
    else if items[0].key == item then (if NonBlank(items[0].value) then Some(items[0].value) else None)
    else ItemValue(items[1..], item)
  }

  /** A registration as a policy record; `lower` stands for the lower-casing of strings. */
  function ToPolicyRecord(lower: Text -> Text, reading: Reading): Export {
    match reading
    case Refused(reason) => NotExported(reason)
    case Found(view) =>
      var r := view.record;
      if r.Declaration? then NotExported(NotFound)
      else if r.lifecycle == Active || r.lifecycle == Superseded then NotExported(PromotionNotAvailable)
      else
        match ItemsFault(r.items)
        case Some(fault) => NotExported(fault)
        case None =>
          var items := SortByKey(r.items);
          var nature := ItemValue(items, Ascii("nature"));
          var clockStart := ItemValue(items, Ascii("clock_start"));
          var shipComplete := ItemValue(items, Ascii("ship_complete_definition"));
          var hours := ItemValue(items, Ascii("time_value")) == Some(Ascii("CONTINUOUS_HOURS_48"));
          Exported(Policy(
            r.policyId, r.policyVersion, None,
            r.scope.merchantId, r.scope.storeId, r.scope.accountId,
            UndeterminedScope, None,
            if clockStart.Some? then Some(lower(clockStart.value)) else None,
            if shipComplete.Some? then Some(lower(shipComplete.value)) else None,
            if hours then Some(TimeValue(ContinuousHours, Some(48), None, None, None)) else None,
            if nature == Some(Ascii("EXPECTED")) then Some(Expected)
              else if nature == Some(Ascii("COMMITTED")) then Some(Committed) else None,
            None, None, None, None, None,
            if r.lifecycle == Revoked then Revoked else if r.lifecycle == NotEffective then NotEffective else Draft,
            None, Some(Ascii("OWNER_CONFIRMED_CONTENT_REGISTRATION"))))
  }

  /** In a reachable registry every policy registration can be exported in its own scope, and no other. */
  lemma ExportedExactly(prefix: Text, s: State, lower: Text -> Text, id: Text, scope: Scope)
    requires Good(prefix, s)
    ensures ToPolicyRecord(lower, Get(s, id, scope)).Exported? <==>
              ScopeKey(scope).Some? && id in s.records && s.records[id].PolicyVersion? && s.records[id].scope == scope
  {
    hide ScopeKey, SameScope, ItemsFault, SortByKey, Counted, Linked, Unique, ItemValue, AcceptedItems, Sorted;
    if id in s.records {
      SameScopeExactly(s.records[id].scope, scope);
      if s.records[id].PolicyVersion? { ItemsAcceptedExactly(s.records[id].items); }
      assert GoodRecord(prefix, s.sequence, id, s.records[id]);
    }
  }

  /**
   Whatever else is listed and whatever is asked, an exported registration is never the policy a fact
   is served from: it is not active, it is not approved, and its applicability is undetermined.
   */
  lemma ExportedNeverServed(lower: Text -> Text, reading: Reading, req: Request, policies: seq<Policy>)
    requires ToPolicyRecord(lower, reading).Exported?
    ensures var q := ToPolicyRecord(lower, reading).policy;
            && q.lifecycle != Active && q.ownerApproval == None && ProductVerdict(req, q) == Undetermined
            && !Servable(req, policies, q)
            && (Evaluate(req, policies).fact.Some? ==> Evaluate(req, policies).policy != Some(q))
  {
    hide Evaluate, Current, SoleHead, NonBlank, SortByKey, ItemsFault, ItemValue;
    var q := ToPolicyRecord(lower, reading).policy;
    FactExactly(req, policies);
    if Evaluate(req, policies).fact.Some? {
      var p :| Servable(req, policies, p);
      assert p.lifecycle == Active;
    }
  }

  // ---------------------------------------------------------------- what an export carries

  /** Filled-in, allowed fields, each at most once. */
  ghost predicate FieldSet(items: seq<Entry<Text>>) {
    DistinctKeys(items) && forall k :: 0 <= k < |items| ==> GoodItem(items[k])
  }

  lemma {:induction false} ItemValueMeaning(items: seq<Entry<Text>>, item: Text, v: Text)
    requires FieldSet(items)
    ensures ItemValue(items, item) == Some(v) <==> Entry(item, v) in items
  {
    hide NonBlank, AllowedItem;
    if items != [] {
      assert FieldSet(items[1..]);
      ItemValueMeaning(items[1..], item, v);
      assert items == [items[0]] + items[1..];
      assert GoodItem(items[0]);
      forall k | 0 <= k < |items[1..]|
        ensures items[1..][k].key != items[0].key { assert items[1..][k] == items[k + 1]; }
    }
  }

  lemma PermutedItems(a: seq<Entry<Text>>, b: seq<Entry<Text>>)
    requires FieldSet(a) && multiset(a) == multiset(b)
    ensures FieldSet(b) && forall e :: e in a <==> e in b
  {
    hide GoodItem;
    forall e ensures e in a <==> e in b { assert e in multiset(a) <==> e in multiset(b); }
    DistinctKeysPermuted(a, b);
    forall k | 0 <= k < |b| ensures GoodItem(b[k]) {
      assert b[k] in a;
      var i :| 0 <= i < |a| && a[i] == b[k];
    }
  }

  /** The exported policy `q` says what the items and identifiers of `input` say. */
  ghost predicate Carries(lower: Text -> Text, q: Policy, input: PolicyInput) {
    && q.policyId == input.policyId && q.policyVersion == input.policyVersion
    && q.merchantId == input.scope.merchantId && q.storeId == input.scope.storeId
       && q.accountId == input.scope.accountId
    && (forall v :: Entry(Ascii("clock_start"), v) in input.items ==> q.clockStart == Some(lower(v)))
    && (forall v :: Entry(Ascii("ship_complete_definition"), v) in input.items ==> q.shipComplete == Some(lower(v)))
    && (q.nature == Some(Expected) <==> Entry(Ascii("nature"), Ascii("EXPECTED")) in input.items)
    && (q.nature == Some(Committed) <==> Entry(Ascii("nature"), Ascii("COMMITTED")) in input.items)
    && (q.clockStart.Some? <==> exists v :: Entry(Ascii("clock_start"), v) in input.items)
    && (q.shipComplete.Some? <==> exists v :: Entry(Ascii("ship_complete_definition"), v) in input.items)
    && q.timeValue == (if Entry(Ascii("time_value"), Ascii("CONTINUOUS_HOURS_48")) in input.items
                       then Some(TimeValue(ContinuousHours, Some(48), None, None, None)) else None)
  }

  /** What no export has: approval, a product, a window, a time zone, a calendar or a replacement. */
  lemma ExportLacks(lower: Text -> Text, reading: Reading)
    requires ToPolicyRecord(lower, reading).Exported?
    ensures var q, r := ToPolicyRecord(lower, reading).policy, reading.view.record;
            && q.ownerApproval == None && q.applicability == UndeterminedScope && q.productScope == None
            && q.effectiveFrom == None && q.effectiveTo == None && q.replacing == None
            && q.timezone == None && q.calendar == None && q.cutOff == None
            && q.sourceRef == Some(Ascii("OWNER_CONFIRMED_CONTENT_REGISTRATION"))
            && (q.lifecycle == Revoked <==> r.lifecycle == Revoked) && (q.lifecycle == Draft <==> r.lifecycle == Draft)
            && (q.lifecycle == NotEffective <==> r.lifecycle == NotEffective)
  {
    hide SortByKey, ItemsFault, ItemValue, Ascii;
  }

  /** The values of the items do not depend on their order. */
  lemma RecordCarries(lower: Text -> Text, reading: Reading, input: PolicyInput)
    requires reading.Found? && HoldsPolicy(reading.view.record, input) && FieldSet(input.items)
    requires ToPolicyRecord(lower, reading).Exported?
    ensures Carries(lower, ToPolicyRecord(lower, reading).policy, input)
  {
    hide Ascii, ItemsFault, Carries;
    ItemValuesKept(reading.view.record.items, input.items);
    ValuesCarried(lower, reading, input);
  }

  /** Each item has the value it was sent with. */
  ghost predicate SameValues(sorted: seq<Entry<Text>>, items: seq<Entry<Text>>) {
    forall k, v {:trigger Entry(k, v)} :: ItemValue(sorted, k) == Some(v) <==> Entry(k, v) in items
  }

  lemma ItemValuesKept(stored: seq<Entry<Text>>, items: seq<Entry<Text>>)
    requires FieldSet(items) && multiset(stored) == multiset(items)
    ensures SameValues(SortByKey(stored), items)
  {
    hide ItemValue, SortByKey, GoodItem, DistinctKeys;
    var sorted := SortByKey(stored);
    SortByKeySorts(stored);
    PermutedItems(items, sorted);
    forall k, v ensures ItemValue(sorted, k) == Some(v) <==> Entry(k, v) in items { ItemValueMeaning(sorted, k, v); }
  }

  lemma ValuesCarried(lower: Text -> Text, reading: Reading, input: PolicyInput)
    requires reading.Found? && HoldsPolicy(reading.view.record, input) && ToPolicyRecord(lower, reading).Exported?
    requires SameValues(SortByKey(reading.view.record.items), input.items)
    ensures Carries(lower, ToPolicyRecord(lower, reading).policy, input)
  {
    assert Ascii("EXPECTED")[0] == 69 && Ascii("COMMITTED")[0] == 67;
    hide Ascii, ItemValue, SortByKey, ItemsFault, Sorted, SameValues;
    var sorted := SortByKey(reading.view.record.items);
    forall v
      ensures ItemValue(sorted, Ascii("clock_start")) == Some(v) <==> Entry(Ascii("clock_start"), v) in input.items
    {
      OneValue(sorted, input.items, Ascii("clock_start"), v);
    }
    forall v
      ensures ItemValue(sorted, Ascii("ship_complete_definition")) == Some(v) <==>
                Entry(Ascii("ship_complete_definition"), v) in input.items
    {
      OneValue(sorted, input.items, Ascii("ship_complete_definition"), v);
    }
    var clock, ship := ItemValue(sorted, Ascii("clock_start")), ItemValue(sorted, Ascii("ship_complete_definition"));
    if clock.Some? { assert ItemValue(sorted, Ascii("clock_start")) == Some(clock.value); }
    if ship.Some? { assert ItemValue(sorted, Ascii("ship_complete_definition")) == Some(ship.value); }
    OneValue(sorted, input.items, Ascii("nature"), Ascii("EXPECTED"));
    OneValue(sorted, input.items, Ascii("nature"), Ascii("COMMITTED"));
    OneValue(sorted, input.items, Ascii("time_value"), Ascii("CONTINUOUS_HOURS_48"));
  }

  lemma OneValue(sorted: seq<Entry<Text>>, items: seq<Entry<Text>>, k: Text, v: Text)
    requires SameValues(sorted, items)
    ensures ItemValue(sorted, k) == Some(v) <==> Entry(k, v) in items
  {}

  /** What was registered is what is exported, however many operations later and however its items were listed. */
  lemma ExportCarries(prefix: Text, s: State, input: PolicyInput, ops: seq<Op>, lower: Text -> Text)
    requires Good(prefix, s) && RegisterPolicy(prefix, s, input).1.Registered?
    ensures var (first, result) := RegisterPolicy(prefix, s, input);
            var e := ToPolicyRecord(lower, Get(Run(prefix, first, ops), result.id, input.scope));
            e.Exported? && Carries(lower, e.policy, input)
  {
    hide Good, ScopeKey, Get, Find, ItemsFault, ToPolicyRecord, HoldsPolicy, MintId, NonBlank, Carries;
    var (first, result) := RegisterPolicy(prefix, s, input);
    var later := Run(prefix, first, ops);
    RegisterGood(prefix, s, input);
    RunGood(prefix, first, ops);
    RunEvolves(prefix, first, ops, result.id);
    PolicyIsRead(prefix, s, input, ops, input.scope);
    ExportedExactly(prefix, later, lower, result.id, input.scope);
    ItemsAcceptedExactly(input.items);
    RecordCarries(lower, Get(later, result.id, input.scope), input);
  }
}
