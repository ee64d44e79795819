/** When the registry accepts and why it refuses, said on the fields of records and inputs; and what it lists. */
module RegistryAnswers {
  import opened Basics
  import opened Text
  import opened CanonicalJson
  import opened LinkGraph
  import opened ShippingRegistry
  import opened RegistryInvariants
  import opened RegistryReads

  predicate BoundScope(s: Scope) {
    Present(s.merchantId) && Present(s.storeId)
  }

  lemma KeyExactly(s: Scope)
    ensures ScopeKey(s).Some? <==> BoundScope(s)
  {
    hide NonBlank, Canonicalize;
  }

  // ---------------------------------------------------------------- registrations

  /** Why a policy registration is refused on its own fields: the first of these that holds, or none. */
  lemma PolicyFaultExactly(input: PolicyInput)
    ensures var bound, id, version := BoundScope(input.scope), NonBlank(input.policyId), NonBlank(input.policyVersion);
            var quoted := NonBlank(input.quotedText) && NonBlank(input.basisRef);
            var fault := PolicyFault(input);
            && (fault == Some(ScopeUnbound) <==> !bound)
            && (fault == Some(PolicyIdMissing) <==> bound && !id)
            && (fault == Some(PolicyVersionMissing) <==> bound && id && !version)
            && (fault == Some(QuotedTextMissing) <==> bound && id && version && !quoted)
            && (fault == Some(WindowNotAllowed) <==> bound && id && version && quoted && input.activation)
            && (fault == Some(ItemsInvalid) || fault == Some(ExceptionsNotApproved) <==>
                  bound && id && version && quoted && !input.activation && !AcceptedItems(input.items))
            && (fault == None <==>
                  bound && id && version && quoted && !input.activation && AcceptedItems(input.items))
  {
    KeyExactly(input.scope);
    ItemsAcceptedExactly(input.items);
    ItemFaultKind(input.items);
    hide NonBlank, ScopeKey, ItemsFault, AcceptedItems, BoundScope;
  }

  lemma {:induction false} ItemFaultRange(items: seq<Entry<Text>>, i: nat, seen: set<Text>)
    requires i <= |items|
    ensures var fault := ItemFault(items, i, seen);
            fault == None || fault == Some(ItemsInvalid) || fault == Some(ExceptionsNotApproved)
    decreases |items| - i
  {
    hide NonBlank, AllowedItem, Ascii;
    if i < |items| { ItemFaultRange(items, i + 1, seen + {items[i].key}); }
  }

  lemma ItemFaultKind(items: seq<Entry<Text>>)
    ensures var fault := ItemsFault(items);
            fault == None || fault == Some(ItemsInvalid) || fault == Some(ExceptionsNotApproved)
  {
    ItemFaultRange(items, 0, {});
  }

  /** Item `i` is the first that is not a new, filled-in, allowed field. */
  ghost predicate FirstBad(items: seq<Entry<Text>>, i: nat) {
    && i < |items|
    && (forall k :: 0 <= k < i ==> GoodItem(items[k]) && (forall j :: 0 <= j < k ==> items[j].key != items[k].key))
    && !(GoodItem(items[i]) && forall j :: 0 <= j < i ==> items[j].key != items[i].key)
  }

  /** The refusal of exceptions: the first bad item is a filled-in, new one of that name. */
  lemma ExceptionsRefused(items: seq<Entry<Text>>, i: nat)
    requires FirstBad(items, i)
    ensures ItemsFault(items) ==
              if NonBlank(items[i].key) && NonBlank(items[i].value) && items[i].key == Ascii("exceptions")
                 && (forall j :: 0 <= j < i ==> items[j].key != items[i].key)
              then Some(ExceptionsNotApproved) else Some(ItemsInvalid)
  {
    NotAllowed();
    FaultFrom(items, i, 0, {});
  }

  lemma NotAllowed()
    ensures !AllowedItem(Ascii("exceptions"))
  {
    assert Ascii("exceptions")[0] == 101;
    assert Ascii("nature")[0] == 110 && Ascii("applicability")[0] == 97 && Ascii("clock_start")[0] == 99;
    assert Ascii("time_value")[0] == 116 && Ascii("ship_complete_definition")[0] == 115;
    assert Ascii("weekend_holiday_handling")[0] == 119;
  }

  lemma {:induction false} FaultFrom(items: seq<Entry<Text>>, bad: nat, i: nat, seen: set<Text>)
    requires FirstBad(items, bad) && i <= bad && seen == set j | 0 <= j < i :: items[j].key
    requires !AllowedItem(Ascii("exceptions"))
    ensures ItemFault(items, i, seen) ==
              if NonBlank(items[bad].key) && NonBlank(items[bad].value) && items[bad].key == Ascii("exceptions")
                 && (forall j :: 0 <= j < bad ==> items[j].key != items[bad].key)
              then Some(ExceptionsNotApproved) else Some(ItemsInvalid)
    decreases bad - i
  {
    hide NonBlank, AllowedItem, Ascii;
    if i < bad {
      assert GoodItem(items[i]);
      FaultFrom(items, bad, i + 1, seen + {items[i].key});
    }
  }

  lemma DeclarationFaultExactly(input: DeclarationInput)
    ensures var fault := DeclarationFault(input);
            var bound, platform := BoundScope(input.scope), NonBlank(input.platform);
            var named := NonBlank(input.identifier) && NonBlank(input.basisRef);
            && (fault == Some(ScopeUnbound) <==> !bound)
            && (fault == Some(PlatformMissing) <==> bound && !platform)
            && (fault == Some(IdentifierMissing) <==> bound && platform && !named)
            && (fault == None <==> bound && platform && named)
  {
    KeyExactly(input.scope);
    hide NonBlank, ScopeKey, BoundScope;
  }

  /** A policy version of this name is on record in the scope. */
  ghost predicate Taken(s: State, input: PolicyInput) {
    exists id :: id in s.records && HasName(s.records[id], input)
  }

  predicate HasName(r: Record, input: PolicyInput) {
    r.PolicyVersion? && r.scope == input.scope && r.policyId == input.policyId && r.policyVersion == input.policyVersion
  }

  /** A faultless registration is new exactly when its name is not taken in the scope, and is then stored. */
  lemma RegisteredExactly(prefix: Text, s: State, input: PolicyInput)
    requires Good(prefix, s)
    ensures var (s', result) := RegisterPolicy(prefix, s, input);
            && (result.Registered? <==> PolicyFault(input) == None && !Taken(s, input))
            && (PolicyFault(input).Some? ==> result == Rejected(PolicyFault(input).value))
            && (result.Registered? ==>
                  && result.lifecycle == Draft && result.id !in s.records && s'.order == s.order + [result.id]
                  && s'.records.Keys == s.records.Keys + {result.id}
                  && forall id :: id in s.records ==> s'.records[id] == s.records[id])
  {
    hide MintId, ScopeKey, SameScope, NonBlank, ItemsFault, SortByKey, StoredItems;
    if PolicyFault(input) == None {
      SameScopeExactly(input.scope, input.scope);
      FindAll(prefix, s, r => SamePolicy(r, input));
      forall id | id in s.records ensures SamePolicy(s.records[id], input) <==> HasName(s.records[id], input) {
        SameScopeExactly(s.records[id].scope, input.scope);
        FaultlessScope(input);
      }
      FreshId(prefix, s, true);
    }
  }

  lemma FaultlessScope(input: PolicyInput)
    requires PolicyFault(input) == None
    ensures ScopeKey(input.scope).Some?
  {
    hide NonBlank, ItemsFault, Canonicalize;
  }

  predicate HasIdentifier(r: Record, input: DeclarationInput) {
    r.Declaration? && r.scope == input.scope && r.platform == input.platform && r.identifier == input.identifier
  }

  /** The same for declarations: new exactly when the identifier is not declared in the scope. */
  lemma DeclaredExactly(prefix: Text, s: State, input: DeclarationInput)
    requires Good(prefix, s)
    ensures var (s', result) := RegisterDeclaration(prefix, s, input);
            && (result.Registered? <==>
                  DeclarationFault(input) == None && !exists id ::
                    id in s.records && HasIdentifier(s.records[id], input))
            && (DeclarationFault(input).Some? ==> result == Rejected(DeclarationFault(input).value))
            && (result.Registered? ==>
                  && result.lifecycle == Draft && result.id !in s.records && s'.order == s.order + [result.id]
                  && s'.records.Keys == s.records.Keys + {result.id}
                  && forall id :: id in s.records ==> s'.records[id] == s.records[id])
  {
    DeclarationFaultExactly(input);
    KeyExactly(input.scope);
    hide MintId, ScopeKey, SameScope, NonBlank, StoredItems, BoundScope;
    if DeclarationFault(input) == None {
      FindAll(prefix, s, r => SameDeclaration(r, input));
      forall id | id in s.records
        ensures SameDeclaration(s.records[id], input) <==> HasIdentifier(s.records[id], input) {
        SameScopeExactly(s.records[id].scope, input.scope);
      }
      FreshId(prefix, s, false);
    }
  }

  // ---------------------------------------------------------------- links

  /** Why a link is refused before the cycle guard: the first of these that holds, or none. */
  lemma LinkFaultExactly(prefix: Text, s: State, newId: Text, oldId: Text, scope: Scope)
    requires Good(prefix, s)
    ensures var fault := LinkFault(s, newId, oldId, scope);
            var known := BoundScope(scope) && newId != oldId && newId in s.records && oldId in s.records;
            && (fault == Some(ScopeUnbound) <==> !BoundScope(scope))
            && (fault == Some(SelfReference) <==> BoundScope(scope) && newId == oldId)
            && (known ==>
                  var next, previous := s.records[newId], s.records[oldId];
                  var same := next.scope == scope && previous.scope == scope;
                  var versions := same && next.PolicyVersion? && previous.PolicyVersion?;
                  && (fault == Some(ScopeMismatch) <==> next.scope != scope)
                  && (fault == Some(ReplacementScopeMismatch) <==> next.scope == scope && previous.scope != scope)
                  && (fault == Some(TargetNotFound) <==> same && !versions)
                  && (fault == Some(PolicyMismatch) <==> versions && next.policyId != previous.policyId)
                  && (fault == Some(SourceRevoked) <==>
                        versions && next.policyId == previous.policyId && next.lifecycle == Revoked)
                  && (fault == Some(TargetRevoked) <==>
                        versions && next.policyId == previous.policyId && next.lifecycle == Draft
                          && previous.lifecycle == Revoked)
                  && (fault == None <==>
                        versions && next.policyId == previous.policyId && next.lifecycle == Draft
                          && previous.lifecycle == Draft))
            && (!known && BoundScope(scope) && newId != oldId ==> fault == Some(TargetNotFound))
  {
    KeyExactly(scope);
    if newId in s.records && oldId in s.records {
      assert GoodRecord(prefix, s.sequence, newId, s.records[newId]);
      assert GoodRecord(prefix, s.sequence, oldId, s.records[oldId]);
      KeyExactly(s.records[newId].scope);
      SameScopeExactly(s.records[newId].scope, scope);
      SameScopeExactly(s.records[oldId].scope, s.records[newId].scope);
    }
    hide Good, GoodRecord, ScopeKey, SameScope, BoundScope;
  }

  // ---------------------------------------------------------------- reading and revoking

  /** Why a record is not read: an unbound scope, an unknown id, or a record of another scope. */
  lemma GetRefusedExactly(prefix: Text, s: State, id: Text, scope: Scope)
    requires Good(prefix, s)
    ensures var reading := Get(s, id, scope);
            && (reading == Refused(ScopeUnbound) <==> !BoundScope(scope))
            && (reading == Refused(NotFound) <==> BoundScope(scope) && id !in s.records)
            && (reading == Refused(ScopeMismatch) <==>
                  BoundScope(scope) && id in s.records && s.records[id].scope != scope)
  {
    KeyExactly(scope);
    if id in s.records { OwnScopeOnly(prefix, s, id, scope); }
    hide Good, ScopeKey, SameScope, BoundScope, ViewOf;
  }

  /** Why a revocation is refused; only a draft of the scope is revoked. */
  lemma RevokeRefusedExactly(prefix: Text, s: State, id: Text, scope: Scope, reason: Text)
    requires Good(prefix, s)
    ensures var result := Revoke(s, id, scope, reason).1;
            var own := BoundScope(scope) && id in s.records && s.records[id].scope == scope;
            && (result == Rejected(ScopeUnbound) <==> !BoundScope(scope))
            && (result == Rejected(NotFound) <==> BoundScope(scope) && id !in s.records)
            && (result == Rejected(ScopeMismatch) <==>
                  BoundScope(scope) && id in s.records && s.records[id].scope != scope)
            && (result == Rejected(AlreadyRevoked) <==> own && s.records[id].lifecycle == Revoked)
            && (result == RevokedNow(id) <==> own && s.records[id].lifecycle == Draft)
  {
    KeyExactly(scope);
    if id in s.records {
      OwnScopeOnly(prefix, s, id, scope);
      assert GoodRecord(prefix, s.sequence, id, s.records[id]);
    }
    hide Good, GoodRecord, ScopeKey, SameScope, BoundScope, NonBlank;
  }

  // ---------------------------------------------------------------- the list

  /** The ids of the scope's records, in insertion order. */
  function ScopeIds(s: State, order: seq<Text>, scope: Scope): seq<Text> {
    if order == [] then []
    else (if order[0] in s.records && s.records[order[0]].scope == scope then [order[0]] else [])
         + ScopeIds(s, order[1..], scope)
  }

  lemma {:induction false} ScopeIdsExactly(s: State, order: seq<Text>, scope: Scope, id: Text)
    ensures Subsequence(ScopeIds(s, order, scope), order)
    ensures multiset(ScopeIds(s, order, scope))[id] ==
              if id in s.records && s.records[id].scope == scope then multiset(order)[id] else 0
  {
    if order != [] {
      var rest := ScopeIds(s, order[1..], scope);
      ScopeIdsExactly(s, order[1..], scope, id);
      assert order == [order[0]] + order[1..];
      if order[0] in s.records && s.records[order[0]].scope == scope {
        assert ScopeIds(s, order, scope) == [order[0]] + rest && ScopeIds(s, order, scope)[1..] == rest;
      } else {
        assert ScopeIds(s, order, scope) == rest;
        if rest != [] {
          ScopeIdsExactly(s, order[1..], scope, rest[0]);
          assert multiset(rest)[rest[0]] > 0;
        }
      }
    }
  }

  lemma {:induction false} ListedViews(prefix: Text, s: State, order: seq<Text>, scope: Scope)
    requires Good(prefix, s) && forall k :: 0 <= k < |order| ==> order[k] in s.records
    ensures var ids, views := ScopeIds(s, order, scope), ListFrom(s, order, scope);
            |views| == |ids| && forall k :: 0 <= k < |ids| ==> Get(s, ids[k], scope) == Found(views[k])
  {
    hide Good, ScopeKey, SameScope, ViewOf;
    if order != [] {
      ListedViews(prefix, s, order[1..], scope);
      OwnScopeOnly(prefix, s, order[0], scope);
    }
  }

  lemma OwnScopeOnly(prefix: Text, s: State, id: Text, scope: Scope)
    requires Good(prefix, s) && id in s.records
    ensures SameScope(s.records[id].scope, scope) <==> s.records[id].scope == scope
    ensures s.records[id].scope == scope ==> Get(s, id, scope) == Found(ViewOf(s.records, s.records[id]))
  {
    hide ScopeKey, SameScope, Counted, Linked, Unique, MintId, StoredItems, ViewOf;
    assert GoodRecord(prefix, s.sequence, id, s.records[id]);
    SameScopeExactly(s.records[id].scope, scope);
  }

  /** The list of a scope: the views `get` gives of exactly its records, in the order they were registered. */
  lemma ListExactly(prefix: Text, s: State, scope: Scope)
    requires Good(prefix, s)
    ensures var ids, views := ScopeIds(s, s.order, scope), List(s, scope);
            && (BoundScope(scope) ==>
                  |views| == |ids| && forall k :: 0 <= k < |ids| ==> Get(s, ids[k], scope) == Found(views[k]))
            && (!BoundScope(scope) ==> views == [])
            && Subsequence(ids, s.order) && Distinct(s.order)
            && (forall id :: id in ids <==> id in s.records && s.records[id].scope == scope)
  {
    assert Counted(s);
    KeyExactly(scope);
    ListedViews(prefix, s, s.order, scope);
    var ids := ScopeIds(s, s.order, scope);
    hide Good, ScopeKey, SameScope, ListFrom, ScopeIds, Get, BoundScope;
    ScopeIdsExactly(s, s.order, scope, []);
    forall id ensures id in ids <==> id in s.records && s.records[id].scope == scope {
      ScopeIdsExactly(s, s.order, scope, id);
      assert id in ids <==> multiset(ids)[id] > 0;
      assert id in s.order <==> multiset(s.order)[id] > 0;
    }
  }

  // ---------------------------------------------------------------- counters and identifiers

  /** Each operation moves exactly the counter of its answer; a new link moves none. */
  lemma CountersTell(prefix: Text, s: State, op: Op)
    ensures var (s', result) := Apply(prefix, s, op);
            && s'.rejections == s.rejections + (if result.Rejected? then 1 else 0)
            && s'.idempotent == s.idempotent + (if result.Idempotent? then 1 else 0)
            && s'.revocations == s.revocations + (if result.RevokedNow? then 1 else 0)
            && s'.registrations == s.registrations + (if result.Registered? && !op.DoLink? then 1 else 0)
            && (result.Rejected? || result.Idempotent? ==> s'.records == s.records && s'.order == s.order)
  {
    hide ScopeKey, NonBlank, MintId, ItemsFault, SortByKey, Reaches, SameScope, Find, PolicyFault, DeclarationFault;
    hide LinkFault, RevokeFault;
  }

  lemma {:induction false} PadForm(d: Text)
    requires forall i :: 0 <= i < |d| ==> ZERO <= d[i] <= 57
    ensures |Pad(d)| == if |d| < 4 then 4 else |d|
    ensures forall i :: 0 <= i < |Pad(d)| ==> ZERO <= Pad(d)[i] <= 57
    ensures |d| >= 4 ==> Pad(d) == d
    decreases 4 - |d|
  {
    if |d| < 4 { PadForm([ZERO] + d); }
  }

  /** A minted id: the prefix, the kind and the number in at least four digits, no more than it needs. */
  lemma MintIdForm(prefix: Text, policy: bool, n: nat)
    ensures var digits := Pad(Digits(n));
            && MintId(prefix, policy, n) == prefix + (Ascii(if policy then "-policy-" else "-ident-") + digits)
            && |digits| >= 4 && (forall i :: 0 <= i < |digits| ==> 48 <= digits[i] <= 57) && Value(digits) == n
            && (|digits| > 4 ==> digits == Digits(n))
  {
    hide Digits, Pad, Value;
    PadForm(Digits(n));
    ValueOfPad(Digits(n));
    ValueOfDigits(n);
    if policy {
      assert Ascii("-") + Ascii("policy") + Ascii("-") == Ascii("-policy-");
    } else {
      assert Ascii("-") + Ascii("ident") + Ascii("-") == Ascii("-ident-");
    }
    Assoc(Ascii("-") + KindText(policy), Ascii("-"), Pad(Digits(n)));
  }

  /** A blank reason is recorded as the default one, any other as given. */
  lemma ReasonRecorded(s: State, id: Text, scope: Scope, reason: Text)
    requires Revoke(s, id, scope, reason).1.RevokedNow?
    ensures id in s.records
    ensures Revoke(s, id, scope, reason).0.records[id].revokedReason ==
              Some(if NonBlank(reason) then reason else Ascii("REVOKED_BY_CONTROLLED_REGISTRATION"))
    ensures Revoke(s, id, scope, reason).0.records ==
              s.records[id := Revoke(s, id, scope, reason).0.records[id]]
  {
    hide NonBlank, ScopeKey, SameScope, Ascii;
  }
}
