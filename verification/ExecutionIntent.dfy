/**
 Execution intents: the payload that is hashed, and the state transitions. The hash function is a
 parameter; what is proved is about the string it is given.
 */
module ExecutionIntent {
  import opened Basics
  import opened Text
  import opened CanonicalJson

  datatype AuthorizationSource = HumanConfirmation | PolicyAuthorization

  datatype CustomerIdentity = CustomerIdentity(kind: Text, value: Text)

  datatype IdentityLock = IdentityLock(
    merchantId: Text, storeId: Text, platform: Text, platformAccountId: Text,
    customer: CustomerIdentity, conversationId: Text, triggerMessageId: Text, generation: Option<int>)

  datatype PlanRef = PlanRef(planId: Text, planHash: Text)

  datatype ConfirmationRef = ConfirmationRef(
    confirmationId: Text, confirmationHash: Text, confirmedAt: Text, expiresAt: Option<Text>)

  /** The fields that never change after creation. */
  datatype Immutable = Immutable(
    schemaVersion: Text, intentId: Text, authorizationSource: AuthorizationSource,
    identityLock: IdentityLock, planRef: PlanRef, policyVersion: Text,
    confirmationRef: Option<ConfirmationRef>, sessionGeneration: Text, documentGeneration: Text,
    createdAt: Text, expiresAt: Text, nonce: Text)

  // ---------------------------------------------------------------- the hashed payload

  function Member(key: string, value: Json): Entry<Json> {
    Entry(Ascii(key), value)
  }

  function CustomerMembers(c: CustomerIdentity): seq<Entry<Json>> {
    [Member("kind", Str(c.kind)), Member("value", Str(c.value))]
  }

  function IdentityMembers(l: IdentityLock): seq<Entry<Json>> {
    [Member("merchant_id", Str(l.merchantId)), Member("store_id", Str(l.storeId)),
     Member("platform", Str(l.platform)), Member("platform_account_id", Str(l.platformAccountId)),
     Member("customer_identity", Obj(CustomerMembers(l.customer))),
     Member("conversation_id", Str(l.conversationId)), Member("trigger_message_id", Str(l.triggerMessageId)),
     Member("generation", if l.generation.Some? then Num(l.generation.value) else Undefined)]
  }

  function PlanMembers(p: PlanRef): seq<Entry<Json>> {
    [Member("plan_id", Str(p.planId)), Member("plan_hash", Str(p.planHash))]
  }

  function PolicyMembers(policyVersion: Text): seq<Entry<Json>> {
    [Member("policy_version", Str(policyVersion))]
  }

  function ConfirmationMembers(c: ConfirmationRef): seq<Entry<Json>> {
    [Member("confirmation_id", Str(c.confirmationId)), Member("confirmation_hash", Str(c.confirmationHash)),
     Member("confirmed_at", Str(c.confirmedAt)),
     Member("expires_at", if c.expiresAt.Some? then Str(c.expiresAt.value) else Undefined)]
  }

  function SourceText(s: AuthorizationSource): Text {
    if s.HumanConfirmation? then Ascii("HUMAN_CONFIRMATION") else Ascii("POLICY_AUTHORIZATION")
  }

  function HeadMembers(f: Immutable): seq<Entry<Json>> {
    [Member("schema_version", Str(f.schemaVersion)), Member("intent_id", Str(f.intentId)),
     Member("authorization_source", Str(SourceText(f.authorizationSource))),
     Member("identity_lock", Obj(IdentityMembers(f.identityLock))),
     Member("plan_ref", Obj(PlanMembers(f.planRef))), Member("policy_ref", Obj(PolicyMembers(f.policyVersion)))]
  }

  function TailMembers(f: Immutable): seq<Entry<Json>> {
    [Member("session_generation", Str(f.sessionGeneration)), Member("document_generation", Str(f.documentGeneration)),
     Member("created_at", Str(f.createdAt)), Member("expires_at", Str(f.expiresAt)), Member("nonce", Str(f.nonce))]
  }

  /** The payload object; `confirmation_ref` is spread in only when present. */
  function HashPayload(f: Immutable): Json {
    Obj(HeadMembers(f)
        + (if f.confirmationRef.None? then []
           else [Member("confirmation_ref", Obj(ConfirmationMembers(f.confirmationRef.value)))])
        + TailMembers(f))
  }

  /** The string given to the hash function. */
  function HashedText(f: Immutable): Text {
    Canonicalize(HashPayload(f))
  }

  // ---------------------------------------------------------------- it fixes every field

  /** Two objects with the same keys in the same places mean the same exactly when their values do. */
  lemma SameKeysSameMeaning(a: seq<Entry<Json>>, b: seq<Entry<Json>>)
    requires |a| == |b| && DistinctKeys(a) && forall i :: 0 <= i < |a| ==> a[i].key == b[i].key
    ensures Normal(Obj(a)) == Normal(Obj(b)) <==> forall i :: 0 <= i < |a| ==> Normal(a[i].value) == Normal(b[i].value)
  {
    if forall i :: 0 <= i < |a| ==> Normal(a[i].value) == Normal(b[i].value) {
      SameNormalMembers(a, b);
    }
    if Normal(Obj(a)) == Normal(Obj(b)) {
      SortByKeySorts(NormalMembers(a));
      SortByKeySorts(NormalMembers(b));
      forall i | 0 <= i < |a| ensures Normal(a[i].value) == Normal(b[i].value) {
        NormalMemberAt(a, i);
        NormalMemberAt(b, i);
        SameElements(NormalMembers(a), NormalMembers(b), Entry(a[i].key, Normal(a[i].value)));
        SameElements(NormalMembers(a), NormalMembers(b), Entry(b[i].key, Normal(b[i].value)));
      }
    }
  }

  lemma SameElements<T(!new)>(a: seq<T>, b: seq<T>, e: T)
    requires multiset(a) == multiset(b)
    ensures e in a <==> e in b
  {
    assert e in multiset(a) <==> e in multiset(b);
  }

  lemma {:induction false} SameNormalMembers(a: seq<Entry<Json>>, b: seq<Entry<Json>>)
    requires |a| == |b| && forall i :: 0 <= i < |a| ==> a[i].key == b[i].key
    requires forall i :: 0 <= i < |a| ==> Normal(a[i].value) == Normal(b[i].value)
    ensures NormalMembers(a) == NormalMembers(b)
  {
    if a != [] {
      NormalClean(a[0].value);
      NormalClean(b[0].value);
      SameNormalMembers(a[1..], b[1..]);
    }
  }

  /** A key of an object appears in the normal form with the meaning of its value, or not at all. */
  lemma {:induction false} NormalMemberAt(a: seq<Entry<Json>>, i: nat)
    requires i < |a| && DistinctKeys(a)
    ensures forall y :: Entry(a[i].key, y) in NormalMembers(a) <==> !a[i].value.Undefined? && y == Normal(a[i].value)
  {
    NormalMembersDistinct(a[1..]);
    var rest := NormalMembers(a[1..]);
    if i == 0 {
      forall k | 0 <= k < |rest| ensures rest[k].key != a[0].key {
        var j :| 0 <= j < |a[1..]| && a[1..][j].key == rest[k].key;
        assert a[j + 1].key == rest[k].key;
      }
    } else {
      NormalMemberAt(a[1..], i - 1);
      assert a[1..][i - 1] == a[i] && a[0].key != a[i].key;
    }
  }

  /** The payload with `confirmation_ref` in its place whether present or not. */
  function AllMembers(f: Immutable): seq<Entry<Json>> {
    HeadMembers(f)
    + [Member("confirmation_ref", ConfirmationJson(f.confirmationRef))]
    + TailMembers(f)
  }

  lemma PayloadMeaning(f: Immutable)
    ensures Normal(HashPayload(f)) == Normal(Obj(AllMembers(f)))
  {
    hide HeadMembers, TailMembers, ConfirmationMembers;
    var h, t := HeadMembers(f), TailMembers(f);
    if f.confirmationRef.None? {
      var c := [Member("confirmation_ref", Undefined)];
      assert h + [] + t == h + t;
      NormalMembersConcat(h, t);
      NormalMembersConcat(h + c, t);
      NormalMembersConcat(h, c);
      assert NormalMembers(c) == [];
      assert NormalMembers(h) + [] == NormalMembers(h);
    }
  }

  lemma AsciiDiffers(s: string, t: string)
    requires |s| != |t| || (s != [] && s[0] != t[0] && s[0] as int < 128 && t[0] as int < 128)
    ensures Ascii(s) != Ascii(t)
  {
    if |s| == |t| { assert Ascii(s)[0] != Ascii(t)[0]; }
  }

  lemma PayloadKeysDistinct(f: Immutable)
    ensures DistinctKeys(AllMembers(f)) && |AllMembers(f)| == 12
  {
    AsciiDiffers("policy_ref", "created_at");
    AsciiDiffers("policy_ref", "expires_at");
    AsciiDiffers("created_at", "expires_at");
  }

  lemma NormalLeaf(v: Json, w: Json)
    requires !v.Arr? && !v.Obj? && !w.Arr? && !w.Obj?
    ensures Normal(v) == Normal(w) <==> v == w
  {}

  lemma CustomerFixed(a: CustomerIdentity, b: CustomerIdentity)
    ensures Normal(Obj(CustomerMembers(a))) == Normal(Obj(CustomerMembers(b))) <==> a == b
  {
    hide Normal;
    var x, y := CustomerMembers(a), CustomerMembers(b);
    SameKeysSameMeaning(x, y);
    NormalLeaf(x[0].value, y[0].value);
    NormalLeaf(x[1].value, y[1].value);
  }

  lemma PlanFixed(a: PlanRef, b: PlanRef)
    ensures Normal(Obj(PlanMembers(a))) == Normal(Obj(PlanMembers(b))) <==> a == b
  {
    hide Normal;
    var x, y := PlanMembers(a), PlanMembers(b);
    SameKeysSameMeaning(x, y);
    NormalLeaf(x[0].value, y[0].value);
    NormalLeaf(x[1].value, y[1].value);
  }

  lemma PolicyFixed(a: Text, b: Text)
    ensures Normal(Obj(PolicyMembers(a))) == Normal(Obj(PolicyMembers(b))) <==> a == b
  {
    hide Normal;
    var x, y := PolicyMembers(a), PolicyMembers(b);
    SameKeysSameMeaning(x, y);
    NormalLeaf(x[0].value, y[0].value);
  }

  function ConfirmationJson(c: Option<ConfirmationRef>): Json {
    if c.None? then Undefined else Obj(ConfirmationMembers(c.value))
  }

  lemma ConfirmationFixed(a: Option<ConfirmationRef>, b: Option<ConfirmationRef>)
    ensures Normal(ConfirmationJson(a)) == Normal(ConfirmationJson(b)) <==> a == b
  {
    hide Normal;
    NormalClean(ConfirmationJson(a));
    NormalClean(ConfirmationJson(b));
    if a.Some? && b.Some? {
      var x, y := ConfirmationMembers(a.value), ConfirmationMembers(b.value);
      SameKeysSameMeaning(x, y);
      forall i | 0 <= i < 4 ensures Normal(x[i].value) == Normal(y[i].value) <==> x[i].value == y[i].value {
        NormalLeaf(x[i].value, y[i].value);
      }
      assert a == b <==> forall i :: 0 <= i < 4 ==> x[i].value == y[i].value by {
        if forall i :: 0 <= i < 4 ==> x[i].value == y[i].value {
          assert x[0].value == y[0].value && x[1].value == y[1].value;
          assert x[2].value == y[2].value && x[3].value == y[3].value;
        }
      }
    }
  }

  lemma IdentityFixed(a: IdentityLock, b: IdentityLock)
    ensures Normal(Obj(IdentityMembers(a))) == Normal(Obj(IdentityMembers(b))) <==> a == b
  {
    hide Normal;
    var x, y := IdentityMembers(a), IdentityMembers(b);
    AsciiDiffers("store_id", "platform");
    SameKeysSameMeaning(x, y);
    CustomerFixed(a.customer, b.customer);
    NormalLeaf(x[0].value, y[0].value);
    NormalLeaf(x[1].value, y[1].value);
    NormalLeaf(x[2].value, y[2].value);
    NormalLeaf(x[3].value, y[3].value);
    NormalLeaf(x[5].value, y[5].value);
    NormalLeaf(x[6].value, y[6].value);
    NormalLeaf(x[7].value, y[7].value);
    assert Normal(x[4].value) == Normal(Obj(CustomerMembers(a.customer)))
      && Normal(y[4].value) == Normal(Obj(CustomerMembers(b.customer)));
  }

  lemma SourceFixed(a: AuthorizationSource, b: AuthorizationSource)
    ensures SourceText(a) == SourceText(b) <==> a == b
  {
    AsciiDiffers("HUMAN_CONFIRMATION", "POLICY_AUTHORIZATION");
  }

  ghost predicate SameMeanings(x: seq<Entry<Json>>, y: seq<Entry<Json>>) {
    |x| == |y| && forall i :: 0 <= i < |x| ==> Normal(x[i].value) == Normal(y[i].value)
  }

  lemma HeadMeanings(a: Immutable, b: Immutable)
    ensures SameMeanings(HeadMembers(a), HeadMembers(b)) <==>
              && a.schemaVersion == b.schemaVersion && a.intentId == b.intentId
              && a.authorizationSource == b.authorizationSource && a.identityLock == b.identityLock
              && a.planRef == b.planRef && a.policyVersion == b.policyVersion
  {
    hide Normal, IdentityMembers, PlanMembers, PolicyMembers, SourceText, Ascii;
    var x, y := HeadMembers(a), HeadMembers(b);
    SourceFixed(a.authorizationSource, b.authorizationSource);
    IdentityFixed(a.identityLock, b.identityLock);
    PlanFixed(a.planRef, b.planRef);
    PolicyFixed(a.policyVersion, b.policyVersion);
    NormalLeaf(x[0].value, y[0].value);
    NormalLeaf(x[1].value, y[1].value);
    NormalLeaf(x[2].value, y[2].value);
    assert SameMeanings(x, y) <==>
      Normal(x[0].value) == Normal(y[0].value) && Normal(x[1].value) == Normal(y[1].value)
        && Normal(x[2].value) == Normal(y[2].value)
      && Normal(x[3].value) == Normal(y[3].value) && Normal(x[4].value) == Normal(y[4].value)
         && Normal(x[5].value) == Normal(y[5].value);
  }

  lemma TailMeanings(a: Immutable, b: Immutable)
    ensures SameMeanings(TailMembers(a), TailMembers(b)) <==>
              && a.sessionGeneration == b.sessionGeneration && a.documentGeneration == b.documentGeneration
              && a.createdAt == b.createdAt && a.expiresAt == b.expiresAt && a.nonce == b.nonce
  {
    hide Normal, Ascii;
    var x, y := TailMembers(a), TailMembers(b);
    forall i | 0 <= i < 5 ensures Normal(x[i].value) == Normal(y[i].value) <==> x[i].value == y[i].value {
      NormalLeaf(x[i].value, y[i].value);
    }
    assert SameMeanings(x, y) <==> x[0].value == y[0].value && x[1].value == y[1].value && x[2].value == y[2].value
                                   && x[3].value == y[3].value && x[4].value == y[4].value;
  }

  lemma MeaningsConcat(x: seq<Entry<Json>>, y: seq<Entry<Json>>, x': seq<Entry<Json>>, y': seq<Entry<Json>>)
    requires |x| == |y| && |x'| == |y'|
    ensures SameMeanings(x + x', y + y') <==> SameMeanings(x, y) && SameMeanings(x', y')
  {
    hide Normal;
    forall i | 0 <= i < |x| ensures (x + x')[i] == x[i] && (y + y')[i] == y[i] {}
    forall i | 0 <= i < |x'| ensures (x + x')[|x| + i] == x'[i] && (y + y')[|x| + i] == y'[i] {}
  }

  lemma MemberMeanings(a: Immutable, b: Immutable)
    ensures SameMeanings(AllMembers(a), AllMembers(b)) <==> a == b
  {
    hide Normal, SameMeanings, Ascii;
    var c := [Member("confirmation_ref", ConfirmationJson(a.confirmationRef))];
    var d := [Member("confirmation_ref", ConfirmationJson(b.confirmationRef))];
    HeadMeanings(a, b);
    TailMeanings(a, b);
    MeaningsConcat(HeadMembers(a), HeadMembers(b), c, d);
    MeaningsConcat(HeadMembers(a) + c, HeadMembers(b) + d, TailMembers(a), TailMembers(b));
    ConfirmationFixed(a.confirmationRef, b.confirmationRef);
    OneMeaning(c, d);
  }

  lemma OneMeaning(c: seq<Entry<Json>>, d: seq<Entry<Json>>)
    requires |c| == |d| == 1
    ensures SameMeanings(c, d) <==> Normal(c[0].value) == Normal(d[0].value)
  {
    hide Normal;
  }

  lemma SameKeys(a: Immutable, b: Immutable)
    ensures |AllMembers(a)| == |AllMembers(b)|
    ensures forall i :: 0 <= i < |AllMembers(a)| ==> AllMembers(a)[i].key == AllMembers(b)[i].key
  {
    hide Ascii;
  }

  /** Equal hashed strings, equal fields: the string fixes every immutable field of an intent. */
  lemma HashedTextFixesFields(a: Immutable, b: Immutable)
    ensures HashedText(a) == HashedText(b) <==> a == b
  {
    hide Normal, Canonicalize, AllMembers, HashPayload;
    CanonicalTextFixesValue(HashPayload(a), HashPayload(b));
    PayloadMeaning(a);
    PayloadMeaning(b);
    PayloadKeysDistinct(a);
    SameKeys(a, b);
    SameKeysSameMeaning(AllMembers(a), AllMembers(b));
    MemberMeanings(a, b);
  }

  // ---------------------------------------------------------------- state transitions

  datatype IntentState =
    | Created | PlanBound | Confirmed | Claimed | Attempted
    | Acknowledged | Rejected | Unknown | Expired | Cancelled

  datatype Intent = Intent(fields: Immutable, state: IntentState, intentHash: Text)

  /** The transition table. */
  function Allowed(from: IntentState): set<IntentState> {
    match from
    case Created => {PlanBound, Cancelled, Expired}
    case PlanBound => {Confirmed, Cancelled, Expired}
    case Confirmed => {Claimed, Cancelled, Expired}
    case Claimed => {Attempted, Cancelled}
    case Attempted => {Acknowledged, Rejected, Unknown}
    case _ => {}
  }

  /** The moved intent, or nothing where the source throws. */
  function Transition(intent: Intent, next: IntentState): Option<Intent> {
    if next in Allowed(intent.state) then Some(intent.(state := next)) else None
  }

  /** A run of transitions in order, or nothing as soon as one is refused. */
  function Run(intent: Intent, path: seq<IntentState>): Option<Intent>
    decreases |path|
  {
    if path == [] then Some(intent)
    else match Transition(intent, path[0])
      case None => None
      case Some(moved) => Run(moved, path[1..])
  }

  predicate IsOutcome(s: IntentState) {
    s.Acknowledged? || s.Rejected? || s.Unknown?
  }

  predicate HashHolds(hash: Text -> Text, intent: Intent) {
    intent.intentHash == hash(HashedText(intent.fields))
  }

  /** No run changes a hashed field, the stored hash, or whether the hash holds. */
  lemma {:induction false} RunKeepsPayload(hash: Text -> Text, intent: Intent, path: seq<IntentState>)
    requires Run(intent, path).Some?
    ensures var end := Run(intent, path).value;
            && HashedText(end.fields) == HashedText(intent.fields)
            && end.intentHash == intent.intentHash
            && (HashHolds(hash, end) <==> HashHolds(hash, intent))
    decreases |path|
  {
    hide HashedText;
    if path != [] {
      RunKeepsPayload(hash, Transition(intent, path[0]).value, path[1..]);
    }
  }

  /** How far a state is along the way; every allowed transition goes up. */
  function Stage(s: IntentState): nat {
    match s
    case Created => 0
    case PlanBound => 1
    case Confirmed => 2
    case Claimed => 3
    case Attempted => 4
    case _ => 5
  }

  /** Runs are short and a run that ends where it began is empty. */
  lemma {:induction false} RunsClimb(intent: Intent, path: seq<IntentState>)
    requires Run(intent, path).Some?
    ensures |path| <= Stage(Run(intent, path).value.state) - Stage(intent.state) <= 5
    ensures path != [] ==> Run(intent, path).value.state == path[|path| - 1]
    decreases |path|
  {
    if path != [] {
      RunsClimb(Transition(intent, path[0]).value, path[1..]);
    }
  }

  function StateAt(stage: nat): IntentState
    requires stage < 5
  {
    match stage
    case 0 => Created
    case 1 => PlanBound
    case 2 => Confirmed
    case 3 => Claimed
    case _ => Attempted
  }

  function WayTo(stage: nat, outcome: IntentState): seq<IntentState>
    requires stage < 5
    decreases 5 - stage
  {
    if stage == 4 then [outcome] else [StateAt(stage + 1)] + WayTo(stage + 1, outcome)
  }

  lemma StepUp(s: IntentState, next: IntentState)
    requires Stage(s) < 5
    ensures next in Allowed(s) && Stage(next) < 5 <==> Stage(s) < 4 && next == StateAt(Stage(s) + 1)
    ensures next in Allowed(s) && IsOutcome(next) <==> Stage(s) == 4 && IsOutcome(next)
  {}

  lemma {:induction false} EndIsEnd(intent: Intent, path: seq<IntentState>)
    requires Stage(intent.state) == 5
    ensures Run(intent, path).Some? <==> path == []
  {}

  /**
   There is one way to a delivery outcome. From any state before it, a run ends in an outcome exactly
   when it is the rest of created, plan bound, confirmed, claimed, attempted, outcome.
   */
  lemma {:induction false} OneWayToOutcome(intent: Intent, path: seq<IntentState>)
    requires Stage(intent.state) < 5
    ensures Run(intent, path).Some? && IsOutcome(Run(intent, path).value.state)
            <==> path != [] && IsOutcome(path[|path| - 1]) && path == WayTo(Stage(intent.state), path[|path| - 1])
    decreases |path|
  {
    hide Allowed, Stage, StateAt;
    if path != [] {
      var k, last, rest := Stage(intent.state), path[|path| - 1], path[1..];
      assert path == [path[0]] + rest;
      StepUp(intent.state, path[0]);
      if k < 4 {
        assert WayTo(k, last)[0] == StateAt(k + 1) && WayTo(k, last)[1..] == WayTo(k + 1, last);
      }
      if path[0] in Allowed(intent.state) {
        var moved := intent.(state := path[0]);
        StageRange(path[0]);
        if Stage(path[0]) < 5 {
          StageOf(k + 1);
          OneWayToOutcome(moved, rest);
        } else {
          EndIsEnd(moved, rest);
        }
      }
    } else {
      NotYet(intent.state);
    }
  }

  lemma NotYet(s: IntentState)
    requires Stage(s) < 5
    ensures !IsOutcome(s)
  {}

  lemma StageRange(s: IntentState)
    ensures Stage(s) <= 5
  {}

  lemma StageOf(k: nat)
    requires k < 5
    ensures Stage(StateAt(k)) == k
  {}

  /** An intent can be cancelled exactly until it is attempted, and expires exactly until it is claimed. */
  lemma WaysOut(intent: Intent)
    ensures Transition(intent, Cancelled).Some? <==>
              intent.state == Created || intent.state == PlanBound || intent.state == Confirmed
                || intent.state == Claimed
    ensures Transition(intent, Expired).Some? <==>
              intent.state == Created || intent.state == PlanBound || intent.state == Confirmed
    ensures forall next :: Transition(intent, next).Some? ==> Transition(intent, next).value == intent.(state := next)
  {}
}
