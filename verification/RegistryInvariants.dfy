/** What every run of the shipping policy registry keeps. */
module RegistryInvariants {
  import opened Basics
  import opened Text
  import opened LinkGraph
  import opened ShippingRegistry

  lemma FreshId(prefix: Text, s: State, policy: bool)
    requires Sound(prefix, s)
    ensures MintId(prefix, policy, s.sequence + 1) !in s.records
  {
    hide MintId;
    var id := MintId(prefix, policy, s.sequence + 1);
    if id in s.records {
      var n: nat :| 1 <= n <= s.sequence && id == MintId(prefix, s.records[id].PolicyVersion?, n);
      MintIdInjective(prefix, policy, s.sequence + 1, s.records[id].PolicyVersion?, n);
      assert false;
    }
  }

  lemma {:induction false} FindMeaning(s: State, i: nat, p: Record -> bool)
    requires i <= |s.order|
    ensures Find(s, i, p).None? ==>
              forall k :: i <= k < |s.order| && s.order[k] in s.records ==> !p(s.records[s.order[k]])
    ensures Find(s, i, p).Some? ==>
              && p(Find(s, i, p).value)
              && exists k ::
                 i <= k < |s.order| && s.order[k] in s.records && s.records[s.order[k]] == Find(s, i, p).value
    decreases |s.order| - i
  {
    if i < |s.order| && !(s.order[i] in s.records && p(s.records[s.order[i]])) {
      FindMeaning(s, i + 1, p);
    }
  }

  /** What a search over all records answers. */
  lemma FindAll(prefix: Text, s: State, p: Record -> bool)
    requires Good(prefix, s)
    ensures Find(s, 0, p).None? ==> forall id :: id in s.records ==> !p(s.records[id])
    ensures Find(s, 0, p).Some? ==> var r := Find(s, 0, p).value; p(r) && r.id in s.records && s.records[r.id] == r
  {
    FindMeaning(s, 0, p);
    if Find(s, 0, p).None? {
      forall id | id in s.records ensures !p(s.records[id]) {
        assert id in s.order;
        var k :| 0 <= k < |s.order| && s.order[k] == id;
      }
    }
  }

  // ---------------------------------------------------------------- counters

  lemma AppendCounted(s: State, r: Record)
    requires Counted(s) && r.id !in s.records && r.lifecycle == Draft
    ensures Counted(Append(s, r).0)
  {
    var s' := Append(s, r).0;
    assert s'.records.Keys == s.records.Keys + {r.id};
    assert RevokedIds(s'.records) == RevokedIds(s.records);
    hide Distinct;
    DistinctMore(s.order, r.id);
  }

  lemma UpdateCounted(s: State, id: Text, r: Record)
    requires Counted(s) && id in s.records && (r.lifecycle == Revoked <==> s.records[id].lifecycle == Revoked)
    ensures Counted(s.(records := s.records[id := r]))
  {
    var records' := s.records[id := r];
    assert records'.Keys == s.records.Keys;
    assert RevokedIds(records') == RevokedIds(s.records);
  }

  lemma RevokeCounted(s: State, id: Text, r: Record)
    requires Counted(s) && id in s.records && r.lifecycle == Revoked && s.records[id].lifecycle != Revoked
    ensures Counted(s.(records := s.records[id := r], revocations := s.revocations + 1))
  {
    var records' := s.records[id := r];
    assert records'.Keys == s.records.Keys;
    assert RevokedIds(records') == RevokedIds(s.records) + {id};
  }

  // ---------------------------------------------------------------- records and links

  lemma AppendMinted(prefix: Text, s: State, r: Record)
    requires Minted(prefix, s) && r.id == MintId(prefix, r.PolicyVersion?, s.sequence + 1)
    requires r.lifecycle == Draft && ScopeKey(r.scope).Some? && (r.PolicyVersion? ==> StoredItems(r.items))
    ensures Minted(prefix, Append(s, r).0)
  {
    hide MintId, ScopeKey, StoredItems;
    var s' := Append(s, r).0;
    forall id | id in s'.records ensures GoodRecord(prefix, s'.sequence, id, s'.records[id]) {
      if id != r.id {
        assert GoodRecord(prefix, s.sequence, id, s.records[id]);
        var n: nat :| 1 <= n <= s.sequence && id == MintId(prefix, s.records[id].PolicyVersion?, n);
      }
    }
  }

  lemma AppendSound(prefix: Text, s: State, r: Record)
    requires Sound(prefix, s) && r.id == MintId(prefix, r.PolicyVersion?, s.sequence + 1)
    requires r.lifecycle == Draft && ScopeKey(r.scope).Some?
             && (r.PolicyVersion? ==> r.replacing == None && StoredItems(r.items))
    requires forall id :: id in s.records ==> !SameIdentity(s.records[id], r)
    ensures r.id !in s.records && Sound(prefix, Append(s, r).0)
  {
    hide MintId, ScopeKey, StoredItems, Minted;
    FreshId(prefix, s, r.PolicyVersion?);
    AppendMinted(prefix, s, r);
    AppendLinked(s.records, r);
    AppendUnique(s.records, r);
  }

  lemma AppendLinked(records: map<Text, Record>, r: Record)
    requires Linked(records) && r.id !in records && (r.PolicyVersion? ==> r.replacing == None)
    ensures Linked(records[r.id := r])
  {
    hide Acyclic;
    var records' := records[r.id := r];
    assert Links(records') == Links(records);
    forall id | id in records' ensures GoodLink(records', id) {
      if id != r.id { assert GoodLink(records, id); }
    }
  }

  lemma AppendUnique(records: map<Text, Record>, r: Record)
    requires Unique(records) && r.id !in records && forall id :: id in records ==> !SameIdentity(records[id], r)
    ensures Unique(records[r.id := r])
  {
    forall id | id in records ensures !SameIdentity(r, records[id]) {
      assert SameIdentity(records[id], r) <==> SameIdentity(r, records[id]);
    }
  }

  /** A record replaced by one with the same content: identity, number and scope stay. */
  lemma UpdateKept(prefix: Text, s: State, id: Text, r: Record)
    requires Minted(prefix, s) && Unique(s.records) && id in s.records && Evolves(s.records[id], r)
    requires r.lifecycle == Draft || r.lifecycle == Revoked
    ensures Minted(prefix, s.(records := s.records[id := r])) && Unique(s.records[id := r])
  {
    hide MintId, ScopeKey, StoredItems;
    var records' := s.records[id := r];
    assert GoodRecord(prefix, s.sequence, id, s.records[id]);
    assert r.PolicyVersion? == s.records[id].PolicyVersion?;
    assert GoodRecord(prefix, s.sequence, id, r);
    UpdateUnique(s.records, id, r);
  }

  lemma UpdateUnique(records: map<Text, Record>, id: Text, r: Record)
    requires Unique(records) && id in records && Evolves(records[id], r)
    ensures Unique(records[id := r])
  {
    var records' := records[id := r];
    forall a, b | a in records' && b in records' && SameIdentity(records'[a], records'[b]) ensures a == b {
      assert SameIdentity(records[a], records[b]);
    }
  }

  lemma RevokeLinked(records: map<Text, Record>, id: Text, why: Text)
    requires Linked(records) && id in records
    ensures Linked(records[id := records[id].(lifecycle := Revoked, revokedReason := Some(why))])
  {
    hide Acyclic;
    var records' := records[id := records[id].(lifecycle := Revoked, revokedReason := Some(why))];
    assert Links(records') == Links(records);
    forall k | k in records' ensures GoodLink(records', k) {
      assert GoodLink(records, k);
    }
  }

  lemma LinkLinked(records: map<Text, Record>, newId: Text, oldId: Text)
    requires Linked(records) && newId in records && oldId in records
    requires records[newId].PolicyVersion? && records[oldId].PolicyVersion? && records[newId].replacing == None
    requires records[newId].scope == records[oldId].scope && records[newId].policyId == records[oldId].policyId
    requires !Reaches(Links(records), oldId, newId)
    ensures Linked(records[newId := records[newId].(replacing := Some(oldId))])
  {
    hide Reaches, Acyclic;
    var records' := records[newId := records[newId].(replacing := Some(oldId))];
    AddLink(Links(records), newId, oldId);
    assert Links(records') == Links(records)[newId := oldId];
    forall k | k in records' ensures GoodLink(records', k) {
      assert GoodLink(records, k);
    }
  }

  // ---------------------------------------------------------------- how a record may change

  /** The content never changes; a revocation and a replacement pointer, once set, stay. */
  ghost predicate Evolves(a: Record, b: Record) {
    && a.id == b.id && a.scope == b.scope && a.basisRef == b.basisRef
    && (a.lifecycle == Revoked ==> b.lifecycle == Revoked && b.revokedReason == a.revokedReason)
    && (a.Declaration? ==>
       b.Declaration? && a.platform == b.platform && a.identifier == b.identifier && a.declaredAt == b.declaredAt)
    && (a.PolicyVersion? ==>
          && b.PolicyVersion? && a.policyId == b.policyId && a.policyVersion == b.policyVersion
          && a.quotedText == b.quotedText && a.items == b.items && a.registeredAt == b.registeredAt
          && (a.replacing.Some? ==> b.replacing == a.replacing))
  }

  /** One operation: records evolve, and what is new or changed lies in the operation's scope. */
  ghost predicate Step(s: State, s': State, scope: Scope) {
    && (forall id :: id in s.records ==> id in s'.records && Evolves(s.records[id], s'.records[id]))
    && (forall id ::
       id in s'.records && (id !in s.records || s'.records[id] != s.records[id]) ==> s'.records[id].scope == scope)
    && (s'.order == s.order
        || exists id ::
           id in s'.records && id !in s.records && s'.records[id].scope == scope && s'.order == s.order + [id])
  }

  // ---------------------------------------------------------------- every operation, every run

  lemma DeclareGood(prefix: Text, s: State, input: DeclarationInput)
    requires Good(prefix, s)
    ensures Good(prefix, RegisterDeclaration(prefix, s, input).0)
    ensures Step(s, RegisterDeclaration(prefix, s, input).0, input.scope)
  {
    hide Minted, Linked, Unique, Counted, ScopeKey, NonBlank, MintId;
    if DeclarationFault(input) == None && Find(s, 0, r => SameDeclaration(r, input)) == None {
      FindAll(prefix, s, r => SameDeclaration(r, input));
      var r := NewDeclaration(prefix, s, input);
      forall id | id in s.records ensures !SameIdentity(s.records[id], r) {
        SameScopeExactly(s.records[id].scope, input.scope);
        SameScopeExactly(input.scope, input.scope);
      }
      AppendSound(prefix, s, r);
      AppendCounted(s, r);
      AppendStep(s, r);
    } else {
      SameRecords(prefix, s, RegisterDeclaration(prefix, s, input).0, input.scope);
    }
  }

  lemma StoredAfterSort(items: seq<Entry<Text>>)
    requires ItemsFault(items) == None
    ensures StoredItems(SortByKey(items))
  {
    hide ItemsFault, GoodItem, SortByKey;
    SortByKeySorts(items);
    ItemsUnordered(items, SortByKey(items));
    ItemsAcceptedExactly(items);
    ItemsAcceptedExactly(SortByKey(items));
  }

  lemma RegisterGood(prefix: Text, s: State, input: PolicyInput)
    requires Good(prefix, s)
    ensures Good(prefix, RegisterPolicy(prefix, s, input).0)
    ensures Step(s, RegisterPolicy(prefix, s, input).0, input.scope)
  {
    hide Minted, Linked, Unique, Counted, ScopeKey, NonBlank, MintId, ItemsFault, SortByKey, StoredItems;
    if PolicyFault(input) == None && Find(s, 0, r => SamePolicy(r, input)) == None {
      FindAll(prefix, s, r => SamePolicy(r, input));
      var r := NewPolicy(prefix, s, input);
      StoredAfterSort(input.items);
      forall id | id in s.records ensures !SameIdentity(s.records[id], r) {
        SameScopeExactly(s.records[id].scope, input.scope);
        SameScopeExactly(input.scope, input.scope);
      }
      AppendSound(prefix, s, r);
      AppendCounted(s, r);
      AppendStep(s, r);
    } else {
      SameRecords(prefix, s, RegisterPolicy(prefix, s, input).0, input.scope);
    }
  }

  lemma RevokeGood(prefix: Text, s: State, id: Text, scope: Scope, reason: Text)
    requires Good(prefix, s)
    ensures Good(prefix, Revoke(s, id, scope, reason).0)
    ensures Step(s, Revoke(s, id, scope, reason).0, scope)
  {
    hide Minted, Linked, Unique, Counted, ScopeKey, SameScope, NonBlank;
    var s' := Revoke(s, id, scope, reason).0;
    if RevokeFault(s, id, scope) == None {
      var why := if NonBlank(reason) then reason else Ascii("REVOKED_BY_CONTROLLED_REGISTRATION");
      var r := s.records[id].(lifecycle := Revoked, revokedReason := Some(why));
      SameScopeExactly(s.records[id].scope, scope);
      RevokeCounted(s, id, r);
      UpdateKept(prefix, s, id, r);
      RevokeLinked(s.records, id, why);
      MintedKept(prefix, s.(records := s.records[id := r]), s');
      UpdateStep(s, s', id, r);
    } else {
      SameRecords(prefix, s, s', scope);
    }
  }

  lemma LinkGood(prefix: Text, s: State, newId: Text, oldId: Text, scope: Scope)
    requires Good(prefix, s)
    ensures Good(prefix, Link(s, newId, oldId, scope).0)
    ensures Step(s, Link(s, newId, oldId, scope).0, scope)
  {
    hide Linked, Unique, Counted, ScopeKey, SameScope, Reaches;
    var s' := Link(s, newId, oldId, scope).0;
    if LinkFault(s, newId, oldId, scope) == None && !Reaches(Links(s.records), oldId, newId)
      && s.records[newId].replacing == None {
      var r := s.records[newId].(replacing := Some(oldId));
      SameScopeExactly(s.records[newId].scope, scope);
      SameScopeExactly(s.records[oldId].scope, s.records[newId].scope);
      assert GoodRecord(prefix, s.sequence, newId, s.records[newId]);
      UpdateCounted(s, newId, r);
      UpdateKept(prefix, s, newId, r);
      LinkLinked(s.records, newId, oldId);
      UpdateStep(s, s', newId, r);
    } else {
      SameRecords(prefix, s, s', scope);
    }
  }

  lemma MintedKept(prefix: Text, s: State, s': State)
    requires Minted(prefix, s) && s'.records == s.records && s'.sequence == s.sequence
    ensures Minted(prefix, s')
  {}

  lemma AppendStep(s: State, r: Record)
    requires r.id !in s.records
    ensures Step(s, Append(s, r).0, r.scope)
  {
    assert r.id in Append(s, r).0.records;
  }

  lemma UpdateStep(s: State, s': State, id: Text, r: Record)
    requires id in s.records && Evolves(s.records[id], r) && s'.records == s.records[id := r] && s'.order == s.order
    ensures Step(s, s', r.scope)
  {}

  /** Counters of replays and rejections are no part of the invariant. */
  lemma SameRecords(prefix: Text, s: State, s': State, scope: Scope)
    requires Good(prefix, s)
    requires s'.records == s.records && s'.order == s.order && s'.sequence == s.sequence
    requires s'.registrations == s.registrations && s'.revocations == s.revocations
    ensures Good(prefix, s') && Step(s, s', scope)
  {
    hide Counted, Minted, Linked, Unique, Evolves;
    MintedKept(prefix, s, s');
    CountedKept(s, s');
    SameStep(s, s', scope);
  }

  lemma CountedKept(s: State, s': State)
    requires Counted(s) && s'.records == s.records && s'.order == s.order && s'.sequence == s.sequence
    requires s'.registrations == s.registrations && s'.revocations == s.revocations
    ensures Counted(s')
  {}

  lemma SameStep(s: State, s': State, scope: Scope)
    requires s'.records == s.records && s'.order == s.order
    ensures Step(s, s', scope)
  {}

  lemma ApplyGood(prefix: Text, s: State, op: Op)
    requires Good(prefix, s)
    ensures Good(prefix, Apply(prefix, s, op).0) && Step(s, Apply(prefix, s, op).0, OpScope(op))
  {
    hide Good, Step;
    match op
    case DoDeclare(input) => DeclareGood(prefix, s, input);
    case DoRegister(input) => RegisterGood(prefix, s, input);
    case DoRevoke(id, scope, reason) => RevokeGood(prefix, s, id, scope, reason);
    case DoLink(newId, oldId, scope) => LinkGood(prefix, s, newId, oldId, scope);
  }

  lemma EmptyGood(prefix: Text)
    ensures Good(prefix, Empty)
  {
    assert Links(map[]) == map[];
    forall a: Text, n: nat | 0 < n ensures Walk(map[], a, n) != Some(a) {}
  }

  /**
   In every reachable state the replacement graph has no cycle, links join policy versions of one
   scope and policy id, only drafts and revoked records occur, and the counters tell the truth.
   */
  lemma {:induction false} RunGood(prefix: Text, s: State, ops: seq<Op>)
    requires Good(prefix, s)
    ensures Good(prefix, Run(prefix, s, ops))
    decreases |ops|
  {
    hide Good;
    if ops != [] {
      ApplyGood(prefix, s, ops[0]);
      RunGood(prefix, Apply(prefix, s, ops[0]).0, ops[1..]);
    }
  }

  /** Over any run a record keeps its content, its revocation and its replacement pointer. */
  lemma {:induction false} RunEvolves(prefix: Text, s: State, ops: seq<Op>, id: Text)
    requires Good(prefix, s) && id in s.records
    ensures id in Run(prefix, s, ops).records && Evolves(s.records[id], Run(prefix, s, ops).records[id])
    decreases |ops|
  {
    hide Good;
    if ops != [] {
      ApplyGood(prefix, s, ops[0]);
      RunEvolves(prefix, Apply(prefix, s, ops[0]).0, ops[1..], id);
    }
  }

  /** From the empty registry on: no cycle of replacements, and both counters equal what they count. */
  lemma ReachableGood(prefix: Text, ops: seq<Op>)
    ensures var s := Run(prefix, Empty, ops);
            && Good(prefix, s)
            && Acyclic(Links(s.records))
            && |s.records| == s.registrations && |RevokedIds(s.records)| == s.revocations
  {
    hide Run, Minted, Unique, Acyclic;
    EmptyGood(prefix);
    RunGood(prefix, Empty, ops);
  }

  // ---------------------------------------------------------------- main results

  /**
   Past the earlier checks a link is refused as a cycle exactly when it would close one. Past the
   guard it is stored when no pointer is set yet, a replay when it is set to the same target, and
   refused when it is set to another.
   */
  lemma LinkRefusedExactly(prefix: Text, s: State, newId: Text, oldId: Text, scope: Scope)
    requires Good(prefix, s) && LinkFault(s, newId, oldId, scope) == None
    ensures var (s', result) := Link(s, newId, oldId, scope);
            result == Rejected(ReplacementCycle) <==> !Acyclic(Links(s.records)[newId := oldId])
    ensures var (s', result) := Link(s, newId, oldId, scope);
            result != Rejected(ReplacementCycle) ==>
              var next := s.records[newId];
              match next.replacing
              case None => result == Registered(newId, next.lifecycle)
                && Links(s'.records) == Links(s.records)[newId := oldId]
              case Some(target) =>
                && s'.records == s.records
                && result == if target == oldId then Idempotent(newId, next.lifecycle) else Rejected(TargetAlreadySet)
  {
    assert Acyclic(Links(s.records)) by { hide Acyclic; }
    assert s.records[newId].id == newId by { assert GoodRecord(prefix, s.sequence, newId, s.records[newId]); }
    hide *;
    SetLink(Links(s.records), newId, oldId);
    LinkCases(s, newId, oldId, scope);
  }

  /** The answers of `linkReplacement` past the earlier checks. */
  lemma LinkCases(s: State, newId: Text, oldId: Text, scope: Scope)
    requires LinkFault(s, newId, oldId, scope) == None && s.records[newId].id == newId
    ensures var (s', result) := Link(s, newId, oldId, scope);
            && (result == Rejected(ReplacementCycle) <==> Reaches(Links(s.records), oldId, newId))
            && (result != Rejected(ReplacementCycle) ==>
                  var next := s.records[newId];
                  match next.replacing
                  case None => result == Registered(newId, next.lifecycle)
                    && Links(s'.records) == Links(s.records)[newId := oldId]
                  case Some(target) =>
                    && s'.records == s.records
                    && result == if target == oldId then Idempotent(newId, next.lifecycle)
                       else Rejected(TargetAlreadySet))
  {
    hide Reaches, ScopeKey, SameScope;
    var next := s.records[newId];
    assert Links(s.records[newId := next.(replacing := Some(oldId))]) == Links(s.records)[newId := oldId];
  }

  /**
   A replay of a policy registration, any number of operations later and with its items in any order,
   is idempotent with the original id, and changes no record.
   */
  lemma ReplayIsIdempotent(prefix: Text, s: State, input: PolicyInput, ops: seq<Op>, again: PolicyInput)
    requires Good(prefix, s) && RegisterPolicy(prefix, s, input).1.Registered?
    requires again.(items := input.items, registeredAt := input.registeredAt) == input
    requires multiset(again.items) == multiset(input.items)
    ensures var (first, result) := RegisterPolicy(prefix, s, input);
            var later := Run(prefix, first, ops);
            && result.id in later.records
            && RegisterPolicy(prefix, later, again)
               == (later.(idempotent := later.idempotent + 1),
                 Idempotent(result.id, later.records[result.id].lifecycle))
  {
    hide MintId, Minted, Linked, Counted, ScopeKey, NonBlank, SortByKey, ItemsFault;
    var (first, result) := RegisterPolicy(prefix, s, input);
    RegisterGood(prefix, s, input);
    var later := Run(prefix, first, ops);
    RunGood(prefix, first, ops);
    RunEvolves(prefix, first, ops, result.id);
    var r := later.records[result.id];
    assert PolicyFault(input) == None;
    ItemsUnordered(input.items, again.items);
    assert PolicyFault(again) == None;
    SameScopeExactly(r.scope, again.scope);
    SameScopeExactly(again.scope, again.scope);
    assert SamePolicy(r, again);
    FindAll(prefix, later, x => SamePolicy(x, again));
    OnlyMatch(prefix, later, result.id, again);
  }

  lemma OnlyDeclaration(prefix: Text, s: State, id: Text, input: DeclarationInput)
    requires Good(prefix, s) && id in s.records && SameDeclaration(s.records[id], input)
    ensures Find(s, 0, r => SameDeclaration(r, input)) == Some(s.records[id])
  {
    hide MintId, Linked, Counted, ScopeKey, SameScope, StoredItems;
    FindAll(prefix, s, r => SameDeclaration(r, input));
    var found := Find(s, 0, r => SameDeclaration(r, input)).value;
    SameScopeExactly(found.scope, input.scope);
    SameScopeExactly(s.records[id].scope, input.scope);
    assert SameIdentity(found, s.records[id]);
  }

  lemma OnlyMatch(prefix: Text, s: State, id: Text, input: PolicyInput)
    requires Good(prefix, s) && id in s.records && SamePolicy(s.records[id], input)
    ensures Find(s, 0, r => SamePolicy(r, input)) == Some(s.records[id]) && s.records[id].id == id
  {
    hide MintId, Linked, Counted, ScopeKey, SameScope;
    FindAll(prefix, s, r => SamePolicy(r, input));
    var found := Find(s, 0, r => SamePolicy(r, input)).value;
    SameScopeExactly(found.scope, input.scope);
    SameScopeExactly(s.records[id].scope, input.scope);
    assert SameIdentity(found, s.records[id]);
  }

  /** Reading in one scope only looks at records of that scope. */
  lemma ViewKept(prefix: Text, s: State, s': State, scope: Scope, id: Text)
    requires Good(prefix, s) && Step(s, s', scope) && id in s.records && s.records[id].scope != scope
    ensures id in s'.records && s'.records[id] == s.records[id]
    ensures ViewOf(s'.records, s'.records[id]) == ViewOf(s.records, s.records[id])
  {
    hide Minted, Counted, Unique, Acyclic;
    assert GoodLink(s.records, id);
  }

  lemma {:induction false} ListKept(prefix: Text, s: State, s': State, scope: Scope, other: Scope, order: seq<Text>)
    requires Good(prefix, s) && Step(s, s', scope) && other != scope
    requires forall k :: 0 <= k < |order| ==> order[k] in s.records
    ensures ListFrom(s', order, other) == ListFrom(s, order, other)
  {
    hide Good, ScopeKey, SameScope;
    if order != [] {
      ListKept(prefix, s, s', scope, other, order[1..]);
      SameScopeExactly(s.records[order[0]].scope, other);
      if s.records[order[0]].scope != scope {
        ViewKept(prefix, s, s', scope, order[0]);
      } else {
        SameScopeExactly(s'.records[order[0]].scope, other);
      }
    }
  }

  lemma {:induction false} ListConcat(s: State, a: seq<Text>, b: seq<Text>, scope: Scope)
    ensures ListFrom(s, a + b, scope) == ListFrom(s, a, scope) + ListFrom(s, b, scope)
  {
    if a == [] {
      assert a + b == b;
    } else {
      assert (a + b)[1..] == a[1..] + b;
      ListConcat(s, a[1..], b, scope);
    }
  }

  /**
   Scopes are isolated but for one answer: an operation in one scope leaves what another scope lists
   and gets as it was, exactly when the id asked for is not one the operation has just minted.
   */
  lemma ScopesIsolated(prefix: Text, s: State, op: Op, other: Scope, id: Text)
    requires Good(prefix, s) && other != OpScope(op)
    ensures var s' := Apply(prefix, s, op).0;
            && List(s', other) == List(s, other)
            && (Get(s', id, other) == Get(s, id, other) <==>
                  !(ScopeKey(other).Some? && id !in s.records && id in s'.records))
            && (Get(s', id, other) != Get(s, id, other) ==>
                  Get(s, id, other) == Refused(NotFound) && Get(s', id, other) == Refused(ScopeMismatch))
  {
    hide Good, Step, Apply, List, Get, ScopeKey;
    ApplyGood(prefix, s, op);
    ListIsolated(prefix, s, Apply(prefix, s, op).0, OpScope(op), other);
    GetIsolated(prefix, s, Apply(prefix, s, op).0, OpScope(op), other, id);
  }

  /** It does happen: the id of the first declaration is unknown to another scope, then it is not. */
  lemma MintedIdShows(prefix: Text)
    ensures var scope := Scope(Some([109]), Some([115]), None);
            var other := Scope(Some([109]), Some([116]), None);
            var input := DeclarationInput(scope, [112], [105], [98], None);
            var (s', result) := RegisterDeclaration(prefix, Empty, input);
            && result.Registered?
            && Get(Empty, result.id, other) == Refused(NotFound)
            && Get(s', result.id, other) == Refused(ScopeMismatch)
  {
    hide MintId;
    var scope, other := Scope(Some([109]), Some([115]), None), Scope(Some([109]), Some([116]), None);
    var input := DeclarationInput(scope, [112], [105], [98], None);
    assert forall u: CodeUnit :: u in {98, 105, 109, 112, 115, 116} ==> NonBlank([u]) by { LettersNonBlank(); }
    SameScopeExactly(scope, other);
    assert DeclarationFault(input) == None && ScopeKey(other).Some?;
  }

  lemma LettersNonBlank()
    ensures forall u: CodeUnit :: u in {98, 105, 109, 112, 115, 116} ==> NonBlank([u])
  {
    forall u: CodeUnit | u in {98, 105, 109, 112, 115, 116} ensures NonBlank([u]) { assert !IsSpace([u][0]); }
  }

  lemma ListIsolated(prefix: Text, s: State, s': State, scope: Scope, other: Scope)
    requires Good(prefix, s) && Step(s, s', scope) && other != scope
    ensures List(s', other) == List(s, other)
  {
    hide ScopeKey, SameScope, Minted, Linked, Unique;
    ListKept(prefix, s, s', scope, other, s.order);
    if s'.order != s.order {
      var n :| n in s'.records && n !in s.records && s'.records[n].scope == scope && s'.order == s.order + [n];
      ListConcat(s', s.order, [n], other);
      SameScopeExactly(scope, other);
      assert ListFrom(s', [n], other) == [];
    }
  }

  lemma GetIsolated(prefix: Text, s: State, s': State, scope: Scope, other: Scope, id: Text)
    requires Good(prefix, s) && Step(s, s', scope) && other != scope
    ensures Get(s', id, other) == Get(s, id, other) <==>
            !(ScopeKey(other).Some? && id !in s.records && id in s'.records)
    ensures Get(s', id, other) != Get(s, id, other) ==>
              Get(s, id, other) == Refused(NotFound) && Get(s', id, other) == Refused(ScopeMismatch)
  {
    hide Good, ScopeKey, SameScope;
    if id in s.records {
      SameScopeExactly(s.records[id].scope, other);
      SameScopeExactly(s'.records[id].scope, other);
      if s.records[id].scope != scope { ViewKept(prefix, s, s', scope, id); }
    } else if id in s'.records {
      SameScopeExactly(s'.records[id].scope, other);
    }
  }

  // ---------------------------------------------------------------- the guard walk

  /** The guard loop of `linkReplacement`: follow the pointers from the old record, remembering ids. */
  method CycleGuard(records: map<Text, Record>, newId: Text, oldId: Text) returns (hit: bool)
    requires Linked(records) && oldId in records && newId in records
    requires forall id :: id in records ==> records[id].id == id
    ensures hit <==> Reaches(Links(records), oldId, newId)
  {
    hide Linked, Acyclic;
    ghost var links := Links(records);
    var cursor: Option<Record> := Some(records[oldId]);
    var seen := {newId};
    ghost var n: nat := 0;
    while cursor.Some?
      invariant cursor.Some? ==> cursor.value.id in records && records[cursor.value.id] == cursor.value
      invariant cursor.Some? ==> Walk(links, oldId, n) == Some(cursor.value.id)
      invariant cursor.None? ==> Walk(links, oldId, n) == None
      invariant cursor.Some? ==> seen == {newId} + Left(links, oldId, n)
      invariant forall k: nat :: k < n ==> Walk(links, oldId, k) != Some(newId)
      decreases records.Keys - seen, cursor.Some?
    {
      var here := cursor.value.id;
      if here in seen {
        NoReturn(records, oldId, n, newId);
        return true;
      }
      GuardStep(records, oldId, n, here);
      seen := seen + {here};
      var linked := if cursor.value.PolicyVersion? then cursor.value.replacing else None;
      cursor := if linked.Some? && linked.value in records then Some(records[linked.value]) else None;
      n := n + 1;
    }
    forall k: nat ensures Walk(links, oldId, k) != Some(newId) {
      if k >= n { WalkAdd(links, oldId, n, k - n); }
    }
    hit := false;
  }

  lemma {:induction false} LeftStep<K(!new)>(links: map<K, K>, a: K, n: nat)
    requires Walk(links, a, n).Some?
    ensures Left(links, a, n + 1)
            == Left(links, a, n) + (if Walk(links, a, n).value in links then {Walk(links, a, n).value} else {})
  {
    if n > 0 { LeftStep(links, links[a], n - 1); }
  }

  /** In a graph without cycles the walk meets no id again but the new one. */
  lemma NoReturn(records: map<Text, Record>, oldId: Text, n: nat, newId: Text)
    requires Linked(records) && Walk(Links(records), oldId, n).Some?
    requires Walk(Links(records), oldId, n).value in {newId} + Left(Links(records), oldId, n)
    ensures Walk(Links(records), oldId, n) == Some(newId)
  {
    var links := Links(records);
    var here := Walk(links, oldId, n).value;
    if here in Left(links, oldId, n) {
      LeftReached(links, oldId, n, here);
      var k: nat :| k < n && Walk(links, oldId, k) == Some(here);
      WalkAdd(links, oldId, k, n - k);
    }
  }

  lemma GuardStep(records: map<Text, Record>, oldId: Text, n: nat, here: Text)
    requires Linked(records) && Walk(Links(records), oldId, n) == Some(here) && here in records
    ensures var r := records[here];
            var linked := if r.PolicyVersion? then r.replacing else None;
            && Walk(Links(records), oldId, n + 1) == linked
            && (linked.Some? ==>
               linked.value in records && Left(Links(records), oldId, n + 1) == Left(Links(records), oldId, n) + {here})
  {
    var links := Links(records);
    LeftStep(links, oldId, n);
    WalkAdd(links, oldId, n, 1);
    assert GoodLink(records, here);
    assert Walk(links, here, 1) == if here in links then Some(links[here]) else None by {
      if here in links { assert Walk(links, links[here], 0) == Some(links[here]); }
    }
  }
}
