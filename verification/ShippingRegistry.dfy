/**
 The in-memory registry of shipping policy registrations. The state is a record map with its
 insertion order, a sequence number and counters. Each operation is given as a function of the state;
 the class in `RegistryService` updates its fields in place and is proved against those functions.
 */
module ShippingRegistry {
  import opened Basics
  import opened Text
  import opened CanonicalJson
  import opened LinkGraph

  datatype Scope = Scope(merchantId: Option<Text>, storeId: Option<Text>, accountId: Option<Text>)

  datatype Lifecycle = Draft | NotEffective | Active | Superseded | Revoked

  datatype Record =
    | Declaration(id: Text, scope: Scope, platform: Text, identifier: Text, basisRef: Text,
                  declaredAt: Option<Text>, lifecycle: Lifecycle, revokedReason: Option<Text>)
    | PolicyVersion(id: Text, scope: Scope, policyId: Text, policyVersion: Text, quotedText: Text, basisRef: Text,
                    items: seq<Entry<Text>>, replacing: Option<Text>,
                    registeredAt: Option<Text>, lifecycle: Lifecycle, revokedReason: Option<Text>)

  datatype Reason =
    | ScopeUnbound | ScopeMismatch | IdentifierMissing | PlatformMissing | PolicyIdMissing
    | PolicyVersionMissing | QuotedTextMissing | ItemsInvalid | ExceptionsNotApproved | NotFound
    | ContentConflict | DeclarationConflict | AlreadyRevoked | RevokeNotAllowed
    | SelfReference | ReplacementCycle | TargetNotFound | ReplacementScopeMismatch
    | SourceRevoked | TargetRevoked | PolicyMismatch | TargetAlreadySet
    | WindowNotAllowed | PromotionNotAvailable

  datatype Result =
    | Registered(id: Text, lifecycle: Lifecycle)
    | Idempotent(id: Text, lifecycle: Lifecycle)
    | RevokedNow(id: Text)
    | Rejected(reason: Reason)

  datatype State = State(
    records: map<Text, Record>, order: seq<Text>, sequence: nat,
    registrations: nat, idempotent: nat, revocations: nat, rejections: nat)

  const Empty := State(map[], [], 0, 0, 0, 0, 0)

  // ---------------------------------------------------------------- scopes

  function OptionJson(t: Option<Text>): Json {
    if t.Some? then Str(t.value) else Null
  }

  predicate Present(t: Option<Text>) {
    t.Some? && NonBlank(t.value)
  }

  /** The scope key: the three identifiers as a JSON array, or nothing for an unbound scope. */
  function ScopeKey(s: Scope): Option<Text> {
    if !Present(s.merchantId) || !Present(s.storeId) then None
    else Some(Canonicalize(Arr([OptionJson(s.merchantId), OptionJson(s.storeId), OptionJson(s.accountId)])))
  }

  predicate SameScope(a: Scope, b: Scope) {
    ScopeKey(a) != None && ScopeKey(a) == ScopeKey(b)
  }

  /** No identifier content blurs the key: bound scopes have the same key exactly when they are equal. */
  lemma SameScopeExactly(a: Scope, b: Scope)
    ensures SameScope(a, b) <==> ScopeKey(a).Some? && a == b
  {
    hide Canonicalize;
    if ScopeKey(a).Some? && ScopeKey(b).Some? {
      var x := [OptionJson(a.merchantId), OptionJson(a.storeId), OptionJson(a.accountId)];
      var y := [OptionJson(b.merchantId), OptionJson(b.storeId), OptionJson(b.accountId)];
      CanonicalTextFixesValue(Arr(x), Arr(y));
      if SameScope(a, b) {
        LeafItems(x);
        LeafItems(y);
        assert x[0] == y[0] && x[1] == y[1] && x[2] == y[2];
      }
    }
  }

  lemma LeafItems(x: seq<Json>)
    requires |x| == 3 && forall i :: 0 <= i < 3 ==> x[i].Str? || x[i].Null?
    ensures Normal(Arr(x)) == Arr(x)
  {
    assert NormalItems(x) == x by {
      assert x == [x[0]] + x[1..] && x[1..] == [x[1]] + x[2..] && x[2..] == [x[2]] + [];
      assert NormalItems(x[2..]) == [x[2]];
      assert NormalItems(x[1..]) == [x[1], x[2]];
    }
  }

  // ---------------------------------------------------------------- identifiers

  function Pad(digits: Text): Text
    decreases 4 - |digits|
  {
    if |digits| < 4 then Pad([ZERO] + digits) else digits
  }

  function KindText(policy: bool): Text {
    if policy then Ascii("policy") else Ascii("ident")
  }

  /** The identifier minted for registration number `n`. */
  function MintId(prefix: Text, policy: bool, n: nat): Text {
    prefix + (Ascii("-") + KindText(policy) + Ascii("-") + Pad(Digits(n)))
  }

  lemma {:induction false} ValueLeadingZero(s: Text)
    ensures Value([ZERO] + s) == Value(s)
  {
    if s == [] {
      assert [ZERO] + s == [ZERO];
      assert [ZERO][..0] == [];
    } else {
      ValueLeadingZero(s[..|s| - 1]);
      assert ([ZERO] + s)[..|s|] == [ZERO] + s[..|s| - 1];
    }
  }

  lemma {:induction false} ValueOfPad(s: Text)
    ensures Value(Pad(s)) == Value(s)
    decreases 4 - |s|
  {
    if |s| < 4 {
      ValueOfPad([ZERO] + s);
      ValueLeadingZero(s);
    }
  }

  /** Different registrations get different identifiers. */
  lemma MintIdInjective(prefix: Text, p: bool, m: nat, q: bool, n: nat)
    requires MintId(prefix, p, m) == MintId(prefix, q, n)
    ensures p == q && m == n
  {
    hide Digits, Pad, Value;
    var a, b := Ascii("-") + KindText(p) + Ascii("-"), Ascii("-") + KindText(q) + Ascii("-");
    var x, y := Pad(Digits(m)), Pad(Digits(n));
    SplitAt(prefix, a + x, prefix, b + y);
    assert (a + x)[1] == KindText(p)[0] && (b + y)[1] == KindText(q)[0];
    assert p == q;
    SplitAt(a, x, b, y);
    ValueOfPad(Digits(m));
    ValueOfPad(Digits(n));
    ValueOfDigits(m);
    ValueOfDigits(n);
  }

  // ---------------------------------------------------------------- structured items

  predicate AllowedItem(item: Text) {
    item == Ascii("nature") || item == Ascii("applicability") || item == Ascii("clock_start")
    || item == Ascii("time_value") || item == Ascii("ship_complete_definition")
    || item == Ascii("weekend_holiday_handling")
  }

  /** The first fault of the items from `i` on, given the names met before. */
  function ItemFault(items: seq<Entry<Text>>, i: nat, seen: set<Text>): Option<Reason>
    requires i <= |items|
    decreases |items| - i
  {
    if i == |items| then None
    else
      var e := items[i];
      if !NonBlank(e.key) || !NonBlank(e.value) || e.key in seen then Some(ItemsInvalid)
      else if !AllowedItem(e.key) then
        Some(if e.key == Ascii("exceptions") then ExceptionsNotApproved else ItemsInvalid)
      else ItemFault(items, i + 1, seen + {e.key})
  }

  function ItemsFault(items: seq<Entry<Text>>): Option<Reason> {
    if items == [] then Some(ItemsInvalid) else ItemFault(items, 0, {})
  }

  ghost predicate GoodItem(e: Entry<Text>) {
    NonBlank(e.key) && NonBlank(e.value) && AllowedItem(e.key)
  }

  lemma {:induction false} ItemFaultMeaning(items: seq<Entry<Text>>, i: nat, seen: set<Text>)
    requires i <= |items|
    ensures ItemFault(items, i, seen) == None <==>
              && (forall k :: i <= k < |items| ==> GoodItem(items[k]) && items[k].key !in seen)
              && (forall j, k :: i <= j < k < |items| ==> items[j].key != items[k].key)
    decreases |items| - i
  {
    hide NonBlank, AllowedItem;
    if i < |items| {
      ItemFaultMeaning(items, i + 1, seen + {items[i].key});
    }
  }

  /** A non-empty set of allowed, filled-in fields. */
  ghost predicate AcceptedItems(items: seq<Entry<Text>>) {
    items != [] && DistinctKeys(items) && forall k :: 0 <= k < |items| ==> GoodItem(items[k])
  }

  /** What a record holds: such a set, in order. */
  ghost predicate StoredItems(items: seq<Entry<Text>>) {
    AcceptedItems(items) && Sorted(items)
  }

  /** Items are accepted exactly when they are such a set. */
  lemma ItemsAcceptedExactly(items: seq<Entry<Text>>)
    ensures ItemsFault(items) == None <==> AcceptedItems(items)
  {
    ItemFaultMeaning(items, 0, {});
  }

  /** Order does not matter: a permutation is accepted alike and has the same canonical form. */
  lemma ItemsUnordered(a: seq<Entry<Text>>, b: seq<Entry<Text>>)
    requires multiset(a) == multiset(b) && ItemsFault(a) == None
    ensures ItemsFault(b) == None && SortByKey(a) == SortByKey(b)
  {
    hide GoodItem, ItemsFault;
    ItemsAcceptedExactly(a);
    ItemsAcceptedExactly(b);
    DistinctKeysPermuted(a, b);
    SortForgetsOrder(a, b);
    assert |b| == |multiset(b)| == |multiset(a)| == |a|;
    forall k | 0 <= k < |b| ensures GoodItem(b[k]) {
      assert b[k] in multiset(a);
    }
  }

  /** The validation loop: collects the names met and stops at the first fault. */
  method ValidateStructuredItems(items: seq<Entry<Text>>) returns (fault: Option<Reason>, canonical: seq<Entry<Text>>)
    ensures fault == ItemsFault(items)
    ensures fault == None ==> canonical == SortByKey(items)
  {
    hide NonBlank, AllowedItem, SortByKey;
    canonical := [];
    if |items| == 0 { return Some(ItemsInvalid), []; }
    var seen: set<Text> := {};
    var collected: seq<Entry<Text>> := [];
    var i := 0;
    while i < |items|
      invariant 0 <= i <= |items| && collected == items[..i]
      invariant ItemFault(items, i, seen) == ItemsFault(items)
    {
      var e := items[i];
      if !NonBlank(e.key) || !NonBlank(e.value) { return Some(ItemsInvalid), []; }
      if e.key in seen { return Some(ItemsInvalid), []; }
      seen := seen + {e.key};
      if !AllowedItem(e.key) {
        return Some(if e.key == Ascii("exceptions") then ExceptionsNotApproved else ItemsInvalid), [];
      }
      collected := collected + [e];
      i := i + 1;
    }
    assert items[..|items|] == items;
    return None, SortByKey(collected);
  }

  // ---------------------------------------------------------------- operations

  datatype DeclarationInput = DeclarationInput(
    scope: Scope, platform: Text, identifier: Text, basisRef: Text, declaredAt: Option<Text>)

  /** `activation` says that the caller also sent a lifecycle or an effective window. */
  datatype PolicyInput = PolicyInput(
    scope: Scope, policyId: Text, policyVersion: Text, quotedText: Text, basisRef: Text,
    items: seq<Entry<Text>>, registeredAt: Option<Text>, activation: bool)

  function Reject(s: State, reason: Reason): (State, Result) {
    (s.(rejections := s.rejections + 1), Rejected(reason))
  }

  function Replay(s: State, r: Record): (State, Result) {
    (s.(idempotent := s.idempotent + 1), Idempotent(r.id, r.lifecycle))
  }

  /** Appends a new record; the sequence number and the registration counter move on. */
  function Append(s: State, r: Record): (State, Result) {
    (s.(records := s.records[r.id := r], order := s.order + [r.id],
        sequence := s.sequence + 1, registrations := s.registrations + 1),
     Registered(r.id, r.lifecycle))
  }

  predicate SameDeclaration(r: Record, input: DeclarationInput) {
    r.Declaration? && SameScope(r.scope, input.scope) && r.platform == input.platform
      && r.identifier == input.identifier
  }

  predicate SamePolicy(r: Record, input: PolicyInput) {
    r.PolicyVersion? && SameScope(r.scope, input.scope) && r.policyId == input.policyId
      && r.policyVersion == input.policyVersion
  }

  /** The first record, in insertion order from place `i` on, that `p` accepts. */
  function Find(s: State, i: nat, p: Record -> bool): Option<Record>
    requires i <= |s.order|
    decreases |s.order| - i
  {
    if i == |s.order| then None
    else if s.order[i] in s.records && p(s.records[s.order[i]]) then Some(s.records[s.order[i]])
    else Find(s, i + 1, p)
  }

  function DeclarationFault(input: DeclarationInput): Option<Reason> {
    if ScopeKey(input.scope) == None then Some(ScopeUnbound)
    else if !NonBlank(input.platform) then Some(PlatformMissing)
    else if !NonBlank(input.identifier) then Some(IdentifierMissing)
    else if !NonBlank(input.basisRef) then Some(IdentifierMissing)
    else None
  }

  function NewDeclaration(prefix: Text, s: State, input: DeclarationInput): Record {
    Declaration(MintId(prefix, false, s.sequence + 1), input.scope, input.platform, input.identifier,
                input.basisRef, input.declaredAt, Draft, None)
  }

  function RegisterDeclaration(prefix: Text, s: State, input: DeclarationInput): (State, Result) {
    match DeclarationFault(input)
    case Some(reason) => Reject(s, reason)
    case None =>
      match Find(s, 0, r => SameDeclaration(r, input))
      case Some(r) =>
        if r.Declaration? && r.basisRef == input.basisRef && r.declaredAt == input.declaredAt then Replay(s, r)
        else Reject(s, DeclarationConflict)
      case None => Append(s, NewDeclaration(prefix, s, input))
  }

  function PolicyFault(input: PolicyInput): Option<Reason> {
    if ScopeKey(input.scope) == None then Some(ScopeUnbound)
    else if !NonBlank(input.policyId) then Some(PolicyIdMissing)
    else if !NonBlank(input.policyVersion) then Some(PolicyVersionMissing)
    else if !NonBlank(input.quotedText) then Some(QuotedTextMissing)
    else if !NonBlank(input.basisRef) then Some(QuotedTextMissing)
    else if input.activation then Some(WindowNotAllowed)
    else ItemsFault(input.items)
  }

  function NewPolicy(prefix: Text, s: State, input: PolicyInput): Record {
    PolicyVersion(MintId(prefix, true, s.sequence + 1), input.scope, input.policyId, input.policyVersion,
                  input.quotedText, input.basisRef, SortByKey(input.items), None, input.registeredAt, Draft, None)
  }

  function RegisterPolicy(prefix: Text, s: State, input: PolicyInput): (State, Result) {
    match PolicyFault(input)
    case Some(reason) => Reject(s, reason)
    case None =>
      match Find(s, 0, r => SamePolicy(r, input))
      case Some(r) =>
        if r.PolicyVersion? && r.quotedText == input.quotedText && r.basisRef == input.basisRef
           && r.items == SortByKey(input.items)
        then Replay(s, r)
        else Reject(s, ContentConflict)
      case None => Append(s, NewPolicy(prefix, s, input))
  }

  function RevokeFault(s: State, id: Text, scope: Scope): Option<Reason> {
    if ScopeKey(scope) == None then Some(ScopeUnbound)
    else if id !in s.records then Some(NotFound)
    else if !SameScope(s.records[id].scope, scope) then Some(ScopeMismatch)
    else if s.records[id].lifecycle == Revoked then Some(AlreadyRevoked)
    else if s.records[id].lifecycle != Draft && s.records[id].lifecycle != NotEffective then Some(RevokeNotAllowed)
    else None
  }

  function Revoke(s: State, id: Text, scope: Scope, reason: Text): (State, Result) {
    match RevokeFault(s, id, scope)
    case Some(fault) => Reject(s, fault)
    case None =>
      var why := if NonBlank(reason) then reason else Ascii("REVOKED_BY_CONTROLLED_REGISTRATION");
      var updated := s.records[id].(lifecycle := Revoked, revokedReason := Some(why));
      (s.(records := s.records[id := updated], revocations := s.revocations + 1), RevokedNow(id))
  }

  predicate Offline(l: Lifecycle) {
    l == Draft || l == NotEffective
  }

  /** The checks of a replacement link that come before the cycle guard. */
  function LinkFault(s: State, newId: Text, oldId: Text, scope: Scope): Option<Reason> {
    if ScopeKey(scope) == None then Some(ScopeUnbound)
    else if newId == oldId then Some(SelfReference)
    else if newId !in s.records || oldId !in s.records then Some(TargetNotFound)
    else
      var next, previous := s.records[newId], s.records[oldId];
      if !SameScope(next.scope, scope) then Some(ScopeMismatch)
      else if !SameScope(previous.scope, next.scope) then Some(ReplacementScopeMismatch)
      else if !next.PolicyVersion? || !previous.PolicyVersion? then Some(TargetNotFound)
      else if next.policyId != previous.policyId then Some(PolicyMismatch)
      else if next.lifecycle == Revoked then Some(SourceRevoked)
      else if previous.lifecycle == Revoked then Some(TargetRevoked)
      else if !Offline(next.lifecycle) || !Offline(previous.lifecycle) then Some(PromotionNotAvailable)
      else None
  }

  /** The replacement pointers of all records. */
  function Links(records: map<Text, Record>): map<Text, Text> {
    map id | id in records && records[id].PolicyVersion? && records[id].replacing.Some? :: records[id].replacing.value
  }

  /** Linking `newId` as the replacement of `oldId`; refused when the chain from `oldId` comes to `newId`. */
  ghost function Link(s: State, newId: Text, oldId: Text, scope: Scope): (State, Result) {
    match LinkFault(s, newId, oldId, scope)
    case Some(fault) => Reject(s, fault)
    case None =>
      var next := s.records[newId];
      if Reaches(Links(s.records), oldId, newId) then Reject(s, ReplacementCycle)
      else if next.replacing == Some(oldId) then Replay(s, next)
      else if next.replacing != None then Reject(s, TargetAlreadySet)
      else (s.(records := s.records[newId := next.(replacing := Some(oldId))]), Registered(newId, next.lifecycle))
  }

  // ---------------------------------------------------------------- reading

  datatype InvalidReason = EndpointRevoked | EndpointNotOffline | TargetMissing

  datatype Relation = Relation(target: Text, targetPolicyId: Option<Text>, invalid: Option<InvalidReason>)

  /** A record as it is read: with the current validity of its replacement pointer. */
  datatype View = View(record: Record, relation: Option<Relation>)

  function ViewOf(records: map<Text, Record>, r: Record): View {
    if r.Declaration? || r.replacing.None? then View(r, None)
    else
      var t := r.replacing.value;
      if t !in records then View(r, Some(Relation(t, None, Some(TargetMissing))))
      else
        var target := records[t];
        var invalid :=
          if r.lifecycle == Revoked || target.lifecycle == Revoked then Some(EndpointRevoked)
          else if Offline(r.lifecycle) && Offline(target.lifecycle) then None
          else Some(EndpointNotOffline);
        View(r, Some(Relation(t, if target.PolicyVersion? then Some(target.policyId) else None, invalid)))
  }

  datatype Reading = Found(view: View) | Refused(reason: Reason)

  function Get(s: State, id: Text, scope: Scope): Reading {
    if ScopeKey(scope) == None then Refused(ScopeUnbound)
    else if id !in s.records then Refused(NotFound)
    else if !SameScope(s.records[id].scope, scope) then Refused(ScopeMismatch)
    else Found(ViewOf(s.records, s.records[id]))
  }

  function ListFrom(s: State, order: seq<Text>, scope: Scope): seq<View> {
    if order == [] then []
    else
      var rest := ListFrom(s, order[1..], scope);
      if order[0] in s.records && SameScope(s.records[order[0]].scope, scope)
      then [ViewOf(s.records, s.records[order[0]])] + rest
      else rest
  }

  function List(s: State, scope: Scope): seq<View> {
    if ScopeKey(scope) == None then [] else ListFrom(s, s.order, scope)
  }

  // ---------------------------------------------------------------- runs

  datatype Op =
    | DoDeclare(declaration: DeclarationInput)
    | DoRegister(policy: PolicyInput)
    | DoRevoke(id: Text, scope: Scope, reason: Text)
    | DoLink(newId: Text, oldId: Text, scope: Scope)

  ghost function Apply(prefix: Text, s: State, op: Op): (State, Result) {
    match op
    case DoDeclare(input) => RegisterDeclaration(prefix, s, input)
    case DoRegister(input) => RegisterPolicy(prefix, s, input)
    case DoRevoke(id, scope, reason) => Revoke(s, id, scope, reason)
    case DoLink(newId, oldId, scope) => Link(s, newId, oldId, scope)
  }

  ghost function Run(prefix: Text, s: State, ops: seq<Op>): State
    decreases |ops|
  {
    if ops == [] then s else Run(prefix, Apply(prefix, s, ops[0]).0, ops[1..])
  }

  function OpScope(op: Op): Scope {
    match op
    case DoDeclare(input) => input.scope
    case DoRegister(input) => input.scope
    case DoRevoke(_, scope, _) => scope
    case DoLink(_, _, scope) => scope
  }

  // ---------------------------------------------------------------- what every reachable state satisfies

  ghost function RevokedIds(records: map<Text, Record>): set<Text> {
    set id | id in records && records[id].lifecycle == Revoked
  }

  /** A record keeps its own id, is a draft or revoked, has a bound scope, valid items and a minted number. */
  ghost predicate GoodRecord(prefix: Text, sequence: nat, id: Text, r: Record) {
    && r.id == id
    && (r.lifecycle == Draft || r.lifecycle == Revoked)
    && ScopeKey(r.scope).Some?
    && (r.PolicyVersion? ==> StoredItems(r.items))
    && exists n: nat :: 1 <= n <= sequence && id == MintId(prefix, r.PolicyVersion?, n)
  }

  /** A link joins two policy versions of the same scope and policy id. */
  ghost predicate GoodLink(records: map<Text, Record>, id: Text) {
    id in records && records[id].PolicyVersion? && records[id].replacing.Some? ==>
      var t := records[id].replacing.value;
      t in records && records[t].PolicyVersion? && records[t].scope == records[id].scope
        && records[t].policyId == records[id].policyId
  }

  /** At most one record per declared identifier, and per policy version, of a scope. */
  ghost predicate SameIdentity(a: Record, b: Record) {
    if a.PolicyVersion?
    then b.PolicyVersion? && a.scope == b.scope && a.policyId == b.policyId && a.policyVersion == b.policyVersion
    else b.Declaration? && a.scope == b.scope && a.platform == b.platform && a.identifier == b.identifier
  }

  ghost predicate Counted(s: State) {
    && Distinct(s.order) && (forall id :: id in s.order <==> id in s.records)
    && |s.records| == s.registrations == s.sequence
    && s.revocations == |RevokedIds(s.records)|
  }

  ghost predicate Minted(prefix: Text, s: State) {
    forall id :: id in s.records ==> GoodRecord(prefix, s.sequence, id, s.records[id])
  }

  ghost predicate Linked(records: map<Text, Record>) {
    (forall id :: id in records ==> GoodLink(records, id)) && Acyclic(Links(records))
  }

  ghost predicate Unique(records: map<Text, Record>) {
    forall a, b :: a in records && b in records && SameIdentity(records[a], records[b]) ==> a == b
  }

  ghost predicate Sound(prefix: Text, s: State) {
    Minted(prefix, s) && Linked(s.records) && Unique(s.records)
  }

  ghost predicate Good(prefix: Text, s: State) {
    Counted(s) && Sound(prefix, s)
  }
}
