/** What a caller reads of a registration, however many operations later. */
module RegistryReads {
  import opened Basics
  import opened Text
  import opened LinkGraph
  import opened ShippingRegistry
  import opened RegistryInvariants

  /** The record holds what was sent, with the items sorted and nothing but a draft or revoked state. */
  ghost predicate HoldsPolicy(r: Record, input: PolicyInput) {
    && r.PolicyVersion? && r.scope == input.scope && r.policyId == input.policyId
       && r.policyVersion == input.policyVersion
    && r.quotedText == input.quotedText && r.basisRef == input.basisRef && r.registeredAt == input.registeredAt
    && multiset(r.items) == multiset(input.items) && Sorted(r.items)
  }

  ghost predicate HoldsDeclaration(r: Record, input: DeclarationInput) {
    && r.Declaration? && r.scope == input.scope && r.platform == input.platform && r.identifier == input.identifier
    && r.basisRef == input.basisRef && r.declaredAt == input.declaredAt
  }

  /** A record is found by its id in its own scope and in no other. */
  lemma FoundExactly(prefix: Text, s: State, id: Text, scope: Scope)
    requires Good(prefix, s) && id in s.records
    ensures Get(s, id, scope).Found? <==> scope == s.records[id].scope
    ensures Get(s, id, scope).Found? ==> Get(s, id, scope).view.record == s.records[id]
  {
    hide ScopeKey, SameScope, Counted, Linked, Unique;
    assert GoodRecord(prefix, s.sequence, id, s.records[id]);
    SameScopeExactly(s.records[id].scope, scope);
  }

  /** A registered policy version reads back as it was sent, after any further operations. */
  lemma PolicyIsRead(prefix: Text, s: State, input: PolicyInput, ops: seq<Op>, scope: Scope)
    requires Good(prefix, s) && RegisterPolicy(prefix, s, input).1.Registered?
    ensures var (first, result) := RegisterPolicy(prefix, s, input);
            var reading := Get(Run(prefix, first, ops), result.id, scope);
            && (reading.Found? <==> scope == input.scope)
            && (reading.Found? ==> HoldsPolicy(reading.view.record, input))
  {
    hide Good, MintId, ScopeKey, NonBlank, ItemsFault, Get, Find;
    var (first, result) := RegisterPolicy(prefix, s, input);
    RegisterGood(prefix, s, input);
    RunGood(prefix, first, ops);
    RunEvolves(prefix, first, ops, result.id);
    FoundExactly(prefix, Run(prefix, first, ops), result.id, scope);
    ItemsAcceptedExactly(input.items);
    SortByKeySorts(input.items);
  }

  /** So does a declared owner identity. */
  lemma DeclarationIsRead(prefix: Text, s: State, input: DeclarationInput, ops: seq<Op>, scope: Scope)
    requires Good(prefix, s) && RegisterDeclaration(prefix, s, input).1.Registered?
    ensures var (first, result) := RegisterDeclaration(prefix, s, input);
            var reading := Get(Run(prefix, first, ops), result.id, scope);
            && (reading.Found? <==> scope == input.scope)
            && (reading.Found? ==> HoldsDeclaration(reading.view.record, input))
  {
    hide Good, MintId, ScopeKey, NonBlank, Get, Find;
    var (first, result) := RegisterDeclaration(prefix, s, input);
    DeclareGood(prefix, s, input);
    RunGood(prefix, first, ops);
    RunEvolves(prefix, first, ops, result.id);
    FoundExactly(prefix, Run(prefix, first, ops), result.id, scope);
  }

  /**
   A draft can be revoked in its own scope, once: the revocation and its reason stay through any
   further operations, and another attempt is rejected.
   */
  lemma RevocationLasts(prefix: Text, s: State, id: Text, scope: Scope, reason: Text, ops: seq<Op>, again: Text)
    requires Good(prefix, s)
    ensures Revoke(s, id, scope, reason).1.RevokedNow? <==>
              id in s.records && s.records[id].scope == scope && s.records[id].lifecycle == Draft
    ensures Revoke(s, id, scope, reason).1.RevokedNow? ==>
              var later := Run(prefix, Revoke(s, id, scope, reason).0, ops);
              && id in later.records && later.records[id].lifecycle == Revoked
              && (NonBlank(reason) ==> later.records[id].revokedReason == Some(reason))
              && Revoke(later, id, scope, again) == Reject(later, AlreadyRevoked)
  {
    hide ScopeKey, SameScope, Counted, Linked, Unique, MintId, NonBlank;
    if id in s.records {
      assert GoodRecord(prefix, s.sequence, id, s.records[id]);
      SameScopeExactly(s.records[id].scope, scope);
    }
    var s' := Revoke(s, id, scope, reason).0;
    if Revoke(s, id, scope, reason).1.RevokedNow? {
      RevokeGood(prefix, s, id, scope, reason);
      RunEvolves(prefix, s', ops, id);
      SameScopeExactly(Run(prefix, s', ops).records[id].scope, scope);
    }
  }

  /** A replacement link that was stored is read, with its target, through any further operations. */
  lemma LinkIsRead(prefix: Text, s: State, newId: Text, oldId: Text, scope: Scope, ops: seq<Op>)
    requires Good(prefix, s) && Link(s, newId, oldId, scope).1.Registered?
    ensures var later := Run(prefix, Link(s, newId, oldId, scope).0, ops);
            var reading := Get(later, newId, scope);
            && reading.Found? && reading.view.relation.Some?
            && reading.view.relation.value.target == oldId
            && reading.view.relation.value.targetPolicyId == Some(reading.view.record.policyId)
            && reading.view.relation.value.invalid ==
                 (if later.records[newId].lifecycle == Draft && later.records[oldId].lifecycle == Draft then None
                  else Some(EndpointRevoked))
  {
    hide Good, ScopeKey, SameScope, Get, Reaches;
    var s' := Link(s, newId, oldId, scope).0;
    SameScopeExactly(s.records[newId].scope, scope);
    LinkGood(prefix, s, newId, oldId, scope);
    RunGood(prefix, s', ops);
    RunEvolves(prefix, s', ops, newId);
    LinkedView(prefix, Run(prefix, s', ops), newId, oldId);
  }

  lemma LinkedView(prefix: Text, s: State, newId: Text, oldId: Text)
    requires Good(prefix, s) && newId in s.records && s.records[newId].PolicyVersion?
             && s.records[newId].replacing == Some(oldId)
    ensures oldId in s.records
    ensures var reading := Get(s, newId, s.records[newId].scope);
            && reading.Found? && reading.view.record == s.records[newId] && reading.view.relation.Some?
            && reading.view.relation.value.target == oldId
            && reading.view.relation.value.targetPolicyId == Some(s.records[newId].policyId)
            && reading.view.relation.value.invalid ==
                 (if s.records[newId].lifecycle == Draft && s.records[oldId].lifecycle == Draft then None
                  else Some(EndpointRevoked))
  {
    hide ScopeKey, SameScope, Counted, Unique, MintId, Acyclic;
    FoundExactly(prefix, s, newId, s.records[newId].scope);
    assert GoodLink(s.records, newId);
    assert GoodRecord(prefix, s.sequence, newId, s.records[newId]);
    assert GoodRecord(prefix, s.sequence, oldId, s.records[oldId]);
  }

  // ---------------------------------------------------------------- registering again

  /** Sorted items are the sorted form of others exactly when they are a permutation of them. */
  lemma SameItems(stored: seq<Entry<Text>>, items: seq<Entry<Text>>)
    requires StoredItems(stored) && ItemsFault(items) == None
    ensures stored == SortByKey(items) <==> multiset(stored) == multiset(items)
  {
    hide ItemsFault, GoodItem, SortByKey;
    ItemsAcceptedExactly(items);
    SortByKeySorts(items);
    if multiset(stored) == multiset(items) { SortedUnique(stored, SortByKey(items)); }
  }

  /**
   A policy id and version already taken in the scope: registering it again is idempotent exactly
   when quoted text, basis and items, in any order, are those of the record, and a conflict otherwise.
   */
  lemma RepeatedPolicyExactly(prefix: Text, s: State, id: Text, input: PolicyInput)
    requires Good(prefix, s) && id in s.records && PolicyFault(input) == None
    requires var r := s.records[id];
             r.PolicyVersion? && r.scope == input.scope && r.policyId == input.policyId
               && r.policyVersion == input.policyVersion
    ensures var r := s.records[id];
            RegisterPolicy(prefix, s, input) ==
              if r.quotedText == input.quotedText && r.basisRef == input.basisRef
                && multiset(r.items) == multiset(input.items)
              then Replay(s, r) else Reject(s, ContentConflict)
  {
    var r := s.records[id];
    assert StoredItems(r.items) && ScopeKey(r.scope).Some? by { assert GoodRecord(prefix, s.sequence, id, r); }
    assert ItemsFault(input.items) == None;
    hide Good, MintId, ScopeKey, NonBlank, ItemsFault, StoredItems, SortByKey, Find;
    SameScopeExactly(r.scope, input.scope);
    OnlyMatch(prefix, s, id, input);
    SameItems(r.items, input.items);
  }

  /** An identifier already declared in the scope: the same with basis and time of the declaration. */
  lemma RepeatedDeclarationExactly(prefix: Text, s: State, id: Text, input: DeclarationInput)
    requires Good(prefix, s) && id in s.records && DeclarationFault(input) == None
    requires var r := s.records[id];
             r.Declaration? && r.scope == input.scope && r.platform == input.platform
               && r.identifier == input.identifier
    ensures var r := s.records[id];
            RegisterDeclaration(prefix, s, input) ==
              if r.basisRef == input.basisRef && r.declaredAt == input.declaredAt
              then Replay(s, r) else Reject(s, DeclarationConflict)
  {
    var r := s.records[id];
    assert ScopeKey(r.scope).Some? by { assert GoodRecord(prefix, s.sequence, id, r); }
    hide Good, MintId, ScopeKey, NonBlank, Find;
    SameScopeExactly(r.scope, input.scope);
    OnlyDeclaration(prefix, s, id, input);
  }
}
