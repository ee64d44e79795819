/** The registry object: its fields are updated in place, each method as the state functions say. */
module RegistryService {
  import opened Basics
  import opened Text
  import opened ShippingRegistry
  import opened RegistryInvariants

  class Registry {
    const idPrefix: Text
    var records: map<Text, Record>
    var order: seq<Text>
    var sequence: nat
    var registrations: nat
    var idempotent: nat
    var revocations: nat
    var rejections: nat

    ghost function Now(): State
      reads this
    {
      State(records, order, sequence, registrations, idempotent, revocations, rejections)
    }

    ghost predicate Valid()
      reads this
    {
      Good(idPrefix, Now())
    }

    constructor (prefix: Text)
      ensures Valid() && Now() == Empty
      ensures idPrefix == if NonBlank(prefix) then prefix else Ascii("reg")
    {
      idPrefix := if NonBlank(prefix) then prefix else Ascii("reg");
      records, order, sequence := map[], [], 0;
      registrations, idempotent, revocations, rejections := 0, 0, 0, 0;
      new;
      EmptyGood(idPrefix);
    }

    method Rejecting(reason: Reason) returns (result: Result)
      modifies this`rejections
      ensures (Now(), result) == Reject(old(Now()), reason)
    {
      rejections := rejections + 1;
      result := Rejected(reason);
    }

    method Replaying(r: Record) returns (result: Result)
      modifies this`idempotent
      ensures (Now(), result) == Replay(old(Now()), r)
    {
      idempotent := idempotent + 1;
      result := Idempotent(r.id, r.lifecycle);
    }

    method Appending(r: Record) returns (result: Result)
      modifies this
      ensures (Now(), result) == Append(old(Now()), r)
    {
      records, order := records[r.id := r], order + [r.id];
      sequence, registrations := sequence + 1, registrations + 1;
      result := Registered(r.id, r.lifecycle);
    }

    /** The search loop over the records in insertion order. */
    method Search(p: Record -> bool) returns (found: Option<Record>)
      ensures found == Find(Now(), 0, p)
    {
      var i := 0;
      while i < |order|
        invariant 0 <= i <= |order| && Find(Now(), 0, p) == Find(Now(), i, p)
      {
        if order[i] in records && p(records[order[i]]) {
          return Some(records[order[i]]);
        }
        i := i + 1;
      }
      return None;
    }

    method RegisterOwnerIdentityDeclaration(input: DeclarationInput) returns (result: Result)
      requires Valid()
      modifies this
      ensures Valid() && (Now(), result) == RegisterDeclaration(idPrefix, old(Now()), input)
    {
      hide Good, NonBlank, ScopeKey, MintId;
      DeclareGood(idPrefix, Now(), input);
      var fault := DeclarationFault(input);
      if fault.Some? {
        result := Rejecting(fault.value);
        return;
      }
      var found := Search(r => SameDeclaration(r, input));
      if found.Some? {
        var r := found.value;
        if r.Declaration? && r.basisRef == input.basisRef && r.declaredAt == input.declaredAt {
          result := Replaying(r);
        } else {
          result := Rejecting(DeclarationConflict);
        }
        return;
      }
      var id := MintId(idPrefix, false, sequence + 1);
      result := Appending(Declaration(id, input.scope, input.platform, input.identifier, input.basisRef,
        input.declaredAt, Draft, None));
    }

    method RegisterPolicyVersion(input: PolicyInput) returns (result: Result)
      requires Valid()
      modifies this
      ensures Valid() && (Now(), result) == RegisterPolicy(idPrefix, old(Now()), input)
    {
      hide Good, NonBlank, ScopeKey, MintId, ItemsFault, SortByKey;
      RegisterGood(idPrefix, Now(), input);
      var items, fault := [], None;
      if ScopeKey(input.scope) == None { fault := Some(ScopeUnbound); }
      else if !NonBlank(input.policyId) { fault := Some(PolicyIdMissing); }
      else if !NonBlank(input.policyVersion) { fault := Some(PolicyVersionMissing); }
      else if !NonBlank(input.quotedText) { fault := Some(QuotedTextMissing); }
      else if !NonBlank(input.basisRef) { fault := Some(QuotedTextMissing); }
      else if input.activation { fault := Some(WindowNotAllowed); }
      else { fault, items := ValidateStructuredItems(input.items); }
      if fault.Some? {
        result := Rejecting(fault.value);
        return;
      }
      var found := Search(r => SamePolicy(r, input));
      if found.Some? {
        var r := found.value;
        if r.PolicyVersion? && r.quotedText == input.quotedText && r.basisRef == input.basisRef && r.items == items {
          result := Replaying(r);
        } else {
          result := Rejecting(ContentConflict);
        }
        return;
      }
      var id := MintId(idPrefix, true, sequence + 1);
      result := Appending(PolicyVersion(id, input.scope, input.policyId, input.policyVersion, input.quotedText,
                                        input.basisRef, items, None, input.registeredAt, Draft, None));
    }

    method RevokeRegistration(id: Text, scope: Scope, reason: Text) returns (result: Result)
      requires Valid()
      modifies this
      ensures Valid() && (Now(), result) == Revoke(old(Now()), id, scope, reason)
    {
      hide Good, NonBlank, ScopeKey, SameScope;
      RevokeGood(idPrefix, Now(), id, scope, reason);
      var fault := None;
      if ScopeKey(scope) == None { fault := Some(ScopeUnbound); }
      else if id !in records { fault := Some(NotFound); }
      else if !SameScope(records[id].scope, scope) { fault := Some(ScopeMismatch); }
      else if records[id].lifecycle == Revoked { fault := Some(AlreadyRevoked); }
      else if records[id].lifecycle != Draft && records[id].lifecycle != NotEffective {
        fault := Some(RevokeNotAllowed);
      }
      if fault.Some? {
        result := Rejecting(fault.value);
        return;
      }
      var why := if NonBlank(reason) then reason else Ascii("REVOKED_BY_CONTROLLED_REGISTRATION");
      records := records[id := records[id].(lifecycle := Revoked, revokedReason := Some(why))];
      revocations := revocations + 1;
      result := RevokedNow(id);
    }

    method LinkReplacement(newId: Text, oldId: Text, scope: Scope) returns (result: Result)
      requires Valid()
      modifies this
      ensures Valid() && (Now(), result) == Link(old(Now()), newId, oldId, scope)
    {
      hide Good, ScopeKey, SameScope;
      LinkGood(idPrefix, Now(), newId, oldId, scope);
      var fault := Checks(newId, oldId, scope);
      if fault.Some? {
        result := Rejecting(fault.value);
        return;
      }
      GuardReady(idPrefix, Now());
      var hit := CycleGuard(records, newId, oldId);
      var next := records[newId];
      if hit {
        result := Rejecting(ReplacementCycle);
      } else if next.replacing == Some(oldId) {
        result := Replaying(next);
      } else if next.replacing != None {
        result := Rejecting(TargetAlreadySet);
      } else {
        records := records[newId := next.(replacing := Some(oldId))];
        result := Registered(newId, next.lifecycle);
      }
    }

    method Checks(newId: Text, oldId: Text, scope: Scope) returns (fault: Option<Reason>)
      ensures fault == LinkFault(Now(), newId, oldId, scope)
    {
      hide ScopeKey, SameScope;
      if ScopeKey(scope) == None { return Some(ScopeUnbound); }
      if newId == oldId { return Some(SelfReference); }
      if newId !in records || oldId !in records { return Some(TargetNotFound); }
      var next, previous := records[newId], records[oldId];
      if !SameScope(next.scope, scope) { return Some(ScopeMismatch); }
      if !SameScope(previous.scope, next.scope) { return Some(ReplacementScopeMismatch); }
      if !next.PolicyVersion? || !previous.PolicyVersion? { return Some(TargetNotFound); }
      if next.policyId != previous.policyId { return Some(PolicyMismatch); }
      if next.lifecycle == Revoked { return Some(SourceRevoked); }
      if previous.lifecycle == Revoked { return Some(TargetRevoked); }
      if !Offline(next.lifecycle) || !Offline(previous.lifecycle) { return Some(PromotionNotAvailable); }
      return None;
    }
  }

  lemma GuardReady(prefix: Text, s: State)
    requires Good(prefix, s)
    ensures Linked(s.records) && forall id :: id in s.records ==> s.records[id].id == id
  {}
}
