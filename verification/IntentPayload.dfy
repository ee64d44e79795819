/** What a reader finds in the string that is hashed for an execution intent, key by key. */
module IntentPayload {
  import opened Basics
  import opened Text
  import opened CanonicalJson
  import opened JsonReader
  import opened ExecutionIntent

  function LookUp(members: seq<Entry<Json>>, key: Text): Option<Json> {
    if members == [] then None
    else if members[0].key == key then Some(members[0].value)
    else LookUp(members[1..], key)
  }

  /** The member of an object, if it has one of that name. */
  function At(v: Option<Json>, key: string): Option<Json> {
    if v.Some? && v.value.Obj? then LookUp(v.value.members, Ascii(key)) else None
  }

  lemma {:induction false} LookUpMeaning(members: seq<Entry<Json>>, key: Text, v: Json)
    requires DistinctKeys(members)
    ensures LookUp(members, key) == Some(v) <==> Entry(key, v) in members
  {
    if members != [] {
      LookUpMeaning(members[1..], key, v);
      forall i | 0 < i < |members| ensures members[i].key != members[0].key {}
      assert members[0] == Entry(members[0].key, members[0].value);
    }
  }

  /** A member of the source object is found in the normal form with the value meant, or not at all. */
  lemma LookUpNormal(members: seq<Entry<Json>>, i: nat)
    requires DistinctKeys(members) && i < |members|
    ensures var found := LookUp(SortByKey(NormalMembers(members)), members[i].key);
            if members[i].value.Undefined? then found == None else found == Some(Normal(members[i].value))
  {
    hide SortByKey, Normal, NormalMembers, LookUp, DistinctKeys;
    var normal := NormalMembers(members);
    var sorted := SortByKey(normal);
    NormalMembersDistinct(members);
    SortByKeySorts(normal);
    DistinctKeysPermuted(normal, sorted);
    NormalMemberAt(members, i);
    var key := members[i].key;
    forall v ensures LookUp(sorted, key) == Some(v) <==> !members[i].value.Undefined? && v == Normal(members[i].value) {
      LookUpMeaning(sorted, key, v);
      SameElements(normal, sorted, Entry(key, v));
    }
    if members[i].value.Undefined? && LookUp(sorted, key).Some? {
      assert LookUp(sorted, key) == Some(LookUp(sorted, key).value);
    }
  }

  lemma AtNormal(members: seq<Entry<Json>>, i: nat, key: string)
    requires DistinctKeys(members) && i < |members| && members[i].key == Ascii(key)
    ensures At(Some(Normal(Obj(members))), key) ==
              if members[i].value.Undefined? then None else Some(Normal(members[i].value))
  {
    hide SortByKey, NormalMembers, LookUp, Ascii, DistinctKeys;
    LookUpNormal(members, i);
  }

  lemma IdentityKeysDistinct(l: IdentityLock)
    ensures DistinctKeys(IdentityMembers(l)) && |IdentityMembers(l)| == 8
  {
    AsciiDiffers("store_id", "platform");
  }

  lemma ConfirmationKeysDistinct(c: ConfirmationRef)
    ensures DistinctKeys(ConfirmationMembers(c)) && |ConfirmationMembers(c)| == 4
  {
    AsciiDiffers("confirmed_at", "expires_at");
  }

  /** The lock as it is read. */
  ghost predicate ReadsLock(v: Option<Json>, l: IdentityLock) {
    && At(v, "merchant_id") == Some(Str(l.merchantId)) && At(v, "store_id") == Some(Str(l.storeId))
    && At(v, "platform") == Some(Str(l.platform)) && At(v, "platform_account_id") == Some(Str(l.platformAccountId))
    && At(At(v, "customer_identity"), "kind") == Some(Str(l.customer.kind))
    && At(At(v, "customer_identity"), "value") == Some(Str(l.customer.value))
    && At(v, "conversation_id") == Some(Str(l.conversationId))
    && At(v, "trigger_message_id") == Some(Str(l.triggerMessageId))
    && At(v, "generation") == if l.generation.Some? then Some(Num(l.generation.value)) else None
  }

  lemma LockIsRead(l: IdentityLock)
    ensures ReadsLock(Some(Normal(Obj(IdentityMembers(l)))), l)
  {
    var m, c := IdentityMembers(l), CustomerMembers(l.customer);
    IdentityKeysDistinct(l);
    assert DistinctKeys(c);
    assert Normal(m[7].value) == m[7].value;
    hide Normal, At, DistinctKeys, Ascii;
    AtNormal(m, 0, "merchant_id");
    AtNormal(m, 1, "store_id");
    AtNormal(m, 2, "platform");
    AtNormal(m, 3, "platform_account_id");
    AtNormal(m, 4, "customer_identity");
    AtNormal(m, 5, "conversation_id");
    AtNormal(m, 6, "trigger_message_id");
    AtNormal(m, 7, "generation");
    AtNormal(c, 0, "kind");
    AtNormal(c, 1, "value");
    Leaves(l.merchantId, l.storeId);
    Leaves(l.platform, l.platformAccountId);
    Leaves(l.conversationId, l.triggerMessageId);
    Leaves(l.customer.kind, l.customer.value);
  }

  lemma Leaves(a: Text, b: Text)
    ensures Normal(Str(a)) == Str(a) && Normal(Str(b)) == Str(b)
  {}

  /** The confirmation as it is read: nothing without one. */
  ghost predicate ReadsConfirmation(v: Option<Json>, c: Option<ConfirmationRef>) {
    if c.None? then v == None
    else
      && At(v, "confirmation_id") == Some(Str(c.value.confirmationId))
      && At(v, "confirmation_hash") == Some(Str(c.value.confirmationHash))
      && At(v, "confirmed_at") == Some(Str(c.value.confirmedAt))
      && At(v, "expires_at") == if c.value.expiresAt.Some? then Some(Str(c.value.expiresAt.value)) else None
  }

  lemma ConfirmationIsRead(c: ConfirmationRef)
    ensures ReadsConfirmation(Some(Normal(Obj(ConfirmationMembers(c)))), Some(c))
  {
    var m := ConfirmationMembers(c);
    ConfirmationKeysDistinct(c);
    assert Normal(m[3].value) == m[3].value;
    hide Normal, At, DistinctKeys, Ascii;
    AtNormal(m, 0, "confirmation_id");
    AtNormal(m, 1, "confirmation_hash");
    AtNormal(m, 2, "confirmed_at");
    AtNormal(m, 3, "expires_at");
    Leaves(c.confirmationId, c.confirmationHash);
    Leaves(c.confirmedAt, c.confirmedAt);
  }

  /** The whole payload as it is read. */
  ghost predicate ReadsFields(v: Option<Json>, f: Immutable) {
    && At(v, "schema_version") == Some(Str(f.schemaVersion)) && At(v, "intent_id") == Some(Str(f.intentId))
    && At(v, "authorization_source") ==
         Some(Str(Ascii(if f.authorizationSource == HumanConfirmation then "HUMAN_CONFIRMATION"
           else "POLICY_AUTHORIZATION")))
    && ReadsLock(At(v, "identity_lock"), f.identityLock)
    && At(At(v, "plan_ref"), "plan_id") == Some(Str(f.planRef.planId))
    && At(At(v, "plan_ref"), "plan_hash") == Some(Str(f.planRef.planHash))
    && At(At(v, "policy_ref"), "policy_version") == Some(Str(f.policyVersion))
    && ReadsConfirmation(At(v, "confirmation_ref"), f.confirmationRef)
    && At(v, "session_generation") == Some(Str(f.sessionGeneration))
    && At(v, "document_generation") == Some(Str(f.documentGeneration))
    && At(v, "created_at") == Some(Str(f.createdAt)) && At(v, "expires_at") == Some(Str(f.expiresAt))
    && At(v, "nonce") == Some(Str(f.nonce))
  }

  lemma HeadIsRead(f: Immutable)
    ensures var v := Some(Normal(Obj(AllMembers(f))));
            && At(v, "schema_version") == Some(Str(f.schemaVersion)) && At(v, "intent_id") == Some(Str(f.intentId))
            && At(v, "authorization_source") == Some(Str(SourceText(f.authorizationSource)))
            && At(v, "identity_lock") == Some(Normal(Obj(IdentityMembers(f.identityLock))))
            && At(v, "plan_ref") == Some(Normal(Obj(PlanMembers(f.planRef))))
            && At(v, "policy_ref") == Some(Normal(Obj(PolicyMembers(f.policyVersion))))
  {
    PayloadKeysDistinct(f);
    hide Normal, At, DistinctKeys, Ascii, IdentityMembers, PlanMembers, PolicyMembers, SourceText;
    var m := AllMembers(f);
    AtNormal(m, 0, "schema_version");
    AtNormal(m, 1, "intent_id");
    AtNormal(m, 2, "authorization_source");
    AtNormal(m, 3, "identity_lock");
    AtNormal(m, 4, "plan_ref");
    AtNormal(m, 5, "policy_ref");
    Leaves(f.schemaVersion, f.intentId);
    Leaves(SourceText(f.authorizationSource), []);
  }

  lemma TailIsRead(f: Immutable)
    ensures var v := Some(Normal(Obj(AllMembers(f))));
            && At(v, "confirmation_ref") ==
                 (if f.confirmationRef.None? then None
                  else Some(Normal(Obj(ConfirmationMembers(f.confirmationRef.value)))))
            && At(v, "session_generation") == Some(Str(f.sessionGeneration))
            && At(v, "document_generation") == Some(Str(f.documentGeneration))
            && At(v, "created_at") == Some(Str(f.createdAt)) && At(v, "expires_at") == Some(Str(f.expiresAt))
            && At(v, "nonce") == Some(Str(f.nonce))
  {
    PayloadKeysDistinct(f);
    hide Normal, At, DistinctKeys, Ascii, IdentityMembers, PlanMembers, PolicyMembers, SourceText, ConfirmationMembers;
    var m := AllMembers(f);
    AtNormal(m, 6, "confirmation_ref");
    AtNormal(m, 7, "session_generation");
    AtNormal(m, 8, "document_generation");
    AtNormal(m, 9, "created_at");
    AtNormal(m, 10, "expires_at");
    AtNormal(m, 11, "nonce");
    Leaves(f.sessionGeneration, f.documentGeneration);
    Leaves(f.createdAt, f.expiresAt);
    Leaves(f.nonce, []);
  }

  lemma RefsAreRead(f: Immutable)
    ensures At(Some(Normal(Obj(PlanMembers(f.planRef)))), "plan_id") == Some(Str(f.planRef.planId))
    ensures At(Some(Normal(Obj(PlanMembers(f.planRef)))), "plan_hash") == Some(Str(f.planRef.planHash))
    ensures At(Some(Normal(Obj(PolicyMembers(f.policyVersion)))), "policy_version") == Some(Str(f.policyVersion))
  {
    var p, q := PlanMembers(f.planRef), PolicyMembers(f.policyVersion);
    assert DistinctKeys(p) && DistinctKeys(q);
    hide Normal, At, DistinctKeys, Ascii;
    AtNormal(p, 0, "plan_id");
    AtNormal(p, 1, "plan_hash");
    AtNormal(q, 0, "policy_version");
    Leaves(f.planRef.planId, f.planRef.planHash);
    Leaves(f.policyVersion, []);
  }

  lemma PayloadWhole(f: Immutable)
    ensures Whole(HashPayload(f))
  {
    assert Whole(Obj(CustomerMembers(f.identityLock.customer)));
    assert Whole(Obj(IdentityMembers(f.identityLock)));
    assert Whole(Obj(PlanMembers(f.planRef)));
    assert Whole(Obj(PolicyMembers(f.policyVersion)));
    if f.confirmationRef.Some? { assert Whole(Obj(ConfirmationMembers(f.confirmationRef.value))); }
  }

  /** Reading the hashed string finds every immutable field under its own name. */
  lemma HashedTextReads(f: Immutable)
    ensures ReadsFields(Read(HashedText(f)), f)
  {
    hide Normal, At, Read, HashPayload, IdentityMembers, PlanMembers, PolicyMembers, ConfirmationMembers, AllMembers,
      Canonicalize;
    hide Whole, ReadsLock;
    PayloadWhole(f);
    CanonicalRoundTrip(HashPayload(f));
    PayloadMeaning(f);
    HeadIsRead(f);
    TailIsRead(f);
    LockIsRead(f.identityLock);
    RefsAreRead(f);
    if f.confirmationRef.Some? { ConfirmationIsRead(f.confirmationRef.value); }
  }
}
