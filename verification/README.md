# Verified models of the customer-service desktop core

A Dafny 4.11 model of the stateful cores of the repository, with proofs over every input, every run
or every interleaving. `dafny verify dfyconfig.toml` checks all of it. Where the source works on
fields or in loops, the model has a class or a method with loops, proved against a function of the
old state; the laws are then proved about that function.

| Files | What they model |
|---|---|
| `WordAutomaton`, `ForbiddenFilter`, `FilterMeaning` | The forbidden-word filter: trie, breadth-first failure links, scan |
| `CanonicalJson`, `JsonReader`, `ExecutionIntent`, `IntentPayload` | Canonical JSON text, the hashed payload of an execution intent, its transitions |
| `LinkGraph`, `ShippingRegistry`, `RegistryInvariants`, `RegistryReads`, `RegistryAnswers`, `RegistryService` | The shipping policy registry and its replacement graph |
| `ShippingEvaluator`, `ReplacementChain`, `ShippingServed`, `ServedMeaning` | The shipping policy evaluator, the resolution of replacement chains, the export from the registry |
| `DeliveryJournal`, `DeliveryResults`, `DeliverySteps` | The durable delivery journal: statuses, transaction, crash recovery |
| `SendQueue`, `SegmentedSend`, `ConversationState` | The send pipeline of a conversation: serializer and drain loops, segments and the guarded retry, generations |
| `PendingRequests` | The request table of the worker RPC client |
| `Migrations`, `MigrationResults` | The migration runner |
| `Csv`, `CsvRoundTrip` | The two-pass CSV reader |
| `Deduplicator` | The bounded message deduplicator |
| `Basics`, `Text` | Sequences; UTF-16 strings, their order and sorting by key |

A concurrent part is a state machine whose steps are the blocks between two awaits; runs are
arbitrary step sequences, so an interleaving is a run. A crash is a step that drops what is in
memory. Clocks, hashes, random ids and the answers of the platform are parameters.

## What the code does that its documentation does not say

Each of these is a lemma, and the exact condition is proved next to it.

- The filter is documented as removing forbidden words. It also removes every partial match:
  the text comes back unchanged exactly when none of its code units begins a listed word
  (`FilteredUnchanged`, `CleanTextCanChange`). Words are inserted by code point and the text is
  scanned by code unit, so a word that starts with a surrogate pair can get through
  (`WordSurvivesExactly`, `PairWordSurvives`).
- `canonicalize` gives one text to `[undefined]` and `[]`; apart from that the text fixes the value
  (`CanonicalTextFixesValue`, `UndefinedEntryCollides`).
- A retry starts again from the first segment, so a segment can be delivered twice, of any reply
  with two segments or more and of no other (`TwiceNeedsTwoSegments`, `TwiceInFact`).
- `retryAllowed` of the classifier and the retry policy disagree on successful attempts only
  (`RetryAgreesExactly`). The comment at send-failure-classifier.ts:78-80 says that one keyword
  contains another, which it does not; the order of the tests is modelled as coded.
- The end of a send marks whatever suggestion is then pending, which may be a newer one that was
  not sent (`HonestExactly`, `MarkCanBeWrong`).
- The generation named by an AI result overrides the one its call was issued for, so a stale call can
  still become the suggestion (`StaleCallExactly`, `StaleCanBeShown`).
- A scope can tell an id minted in another scope from an unknown one: `get` answers SCOPE_MISMATCH
  instead of NOT_FOUND (`ScopesIsolated`, `MintedIdShows`).
- The chain resolution ignores cycles of replacements beside its winner (`WinnerMeaning`,
  `CycleCanBeIgnored`).
- Interrupting migration runs that pass their checks changes the outcome for some SQL exactly when
  pending files share a version (`IrrelevantForAllSql`, `InterruptionCanMatter`, `FailureCanTurn`).
- A run is a no-op on a database it has completed only while the newest file is a supported version;
  past that it locks itself out (`RerunExactly`).
- A migration run interrupted after its last migration leaves the schema version in `app_meta`
  behind for good (`MetaVersionExactly`, `MetaVersionCanStayBehind`).
- A CSV cell with a quote is misread although it is printed doubled, unless the quote ends the last
  cell of its line; a row that is one blank cell without quotes is dropped (`RoundTripExactly`,
  `QuoteLost`, `OuterQuotesLost`).
- The comment at shipping-policy-registry.ts:400 says the guard walks from the new record; it walks
  from the old one. The model follows the code.

## Model

| member | source | states |
|---|---|---|
| `WordAutomaton.LongestPathSuffixMeaning` | packages/orchestrator/src/pre-send/forbidden-filter.ts:75-79 | the node a failure link must lead to: a suffix of the string that is a trie path, and no longer one is |
| `WordAutomaton.LongestWordSuffixMeaning` | packages/orchestrator/src/pre-send/forbidden-filter.ts:80-82 | the output a node must have: present exactly when the string ends with a non-empty listed word, then the longest such length |
| `WordAutomaton.ReadSymbol` | packages/orchestrator/src/pre-send/forbidden-filter.ts:14-31 | for a prefix-closed set of paths, remembering only the longest path suffix loses nothing for the next symbol |
| `WordAutomaton.WordSuffixOfPathSuffix` | packages/orchestrator/src/pre-send/forbidden-filter.ts:14-31 | the words a text ends with are those its longest path suffix ends with |
| `WordAutomaton.Insert` | packages/orchestrator/src/pre-send/forbidden-filter.ts:44-60 | inserting a word adds exactly its prefixes as nodes, keeps edges exact, and gives an output exactly to listed words |
| `WordAutomaton.FindFailure` | packages/orchestrator/src/pre-send/forbidden-filter.ts:75-79 | the fallback walk terminates and finds the longest proper suffix of the child's path that is a trie path |
| `WordAutomaton.LinkRoot` | packages/orchestrator/src/pre-send/forbidden-filter.ts:62-67 | the root's children are queued once each and linked to the root |
| `WordAutomaton.LinkChildren` | packages/orchestrator/src/pre-send/forbidden-filter.ts:71-83 | one queue entry: each child is queued once, in order of depth, with the right link and inherited output |
| `WordAutomaton.LinkAll` | packages/orchestrator/src/pre-send/forbidden-filter.ts:62-84 | the breadth-first pass terminates and every node but the root ends with its link and output |
| `WordAutomaton.Build` | packages/orchestrator/src/pre-send/forbidden-filter.ts:44-87 | for every word list the nodes are exactly the prefixes of the words, all linked; empty words are skipped |
| `WordAutomaton.BuiltMeaning` | packages/orchestrator/src/pre-send/forbidden-filter.ts:44-87 | in the automaton built, a failure link leads to the longest proper suffix that is a trie path, and an output is set exactly when a non-empty listed word is a suffix |
| `WordAutomaton.Scan` | packages/orchestrator/src/pre-send/forbidden-filter.ts:11-42 | the scan terminates (unread text, then depth) and equals the reference that knows no automaton: reset exactly at the earliest end of a listed word since the last reset, partial matches swallowed, the rest emitted |
| `WordAutomaton.RedactKeeps` | packages/orchestrator/src/pre-send/forbidden-filter.ts:11-42 | the output is a subsequence of the text without any first symbol of a listed word |
| `WordAutomaton.UnchangedExactly` | packages/orchestrator/src/pre-send/forbidden-filter.ts:22-31 | the output equals the text exactly when no symbol of it begins a listed word |
| `WordAutomaton.RedactIdempotent` | packages/orchestrator/src/pre-send/forbidden-filter.ts:11-42 | filtering twice is filtering once |
| `ForbiddenFilter.Filter` | packages/orchestrator/src/pre-send/forbidden-filter.ts:11-42 | build and scan on strings give the reference result, words by code point and text by code unit |
| `ForbiddenFilter.NoBeginningSurvives` | packages/orchestrator/src/pre-send/forbidden-filter.ts:11-42 | no code unit that begins a listed word is in any output |
| `ForbiddenFilter.FilteredUnchanged` | packages/orchestrator/src/pre-send/forbidden-filter.ts:11-42 | the text is returned as it is exactly when none of its code units begins a listed word |
| `ForbiddenFilter.WordSurvivesExactly` | packages/orchestrator/src/pre-send/forbidden-filter.ts:11-60 | a word can occur in some output exactly when none of its code units begins a listed word on its own |
| `ForbiddenFilter.PlainWordNeverSurvives` | packages/orchestrator/src/pre-send/forbidden-filter.ts:11-60 | a listed word that does not start with a surrogate pair is in no output, whatever the text |
| `ForbiddenFilter.PairWordsUnfiltered` | packages/orchestrator/src/pre-send/forbidden-filter.ts:11-60 | a list whose words all start with surrogate pairs filters nothing out of any text |
| `ForbiddenFilter.PairWordSurvives` | packages/orchestrator/src/pre-send/forbidden-filter.ts:51-58 | a listed word, one emoji, that comes through the filter whole |
| `ForbiddenFilter.FilteredIdempotent` | packages/orchestrator/src/pre-send/forbidden-filter.ts:11-42 | on strings, filtering twice is filtering once |
| `ForbiddenFilter.CleanTextCanChange` | packages/orchestrator/src/pre-send/forbidden-filter.ts:22-31 | a text without any listed word that still comes back shorter |
| `FilterMeaning.ResetsExist` | packages/orchestrator/src/pre-send/forbidden-filter.ts:33-38 | every text has its resets: each the earliest end of a listed word after the one before, with no end after the last |
| `FilterMeaning.RedactMeaning` | packages/orchestrator/src/pre-send/forbidden-filter.ts:11-42 | what is kept, without the scan: exactly the symbols with which nothing read since the last reset begins a listed word |
| `FilterMeaning.RedactComposes` | packages/orchestrator/src/pre-send/forbidden-filter.ts:33-38 | when the first listed word of a text ends with it, what follows is filtered on its own and appended |
| `FilterMeaning.WordTakenOut` | packages/orchestrator/src/pre-send/forbidden-filter.ts:11-42 | a listed word with no listed word ending earlier in it, between texts without a first symbol of any, is taken out and nothing else |
| `FilterMeaning.FilteredSymbols` | packages/orchestrator/src/pre-send/forbidden-filter.ts:11-60 | the same characterisation of the result on strings, for all words read by code point |
| `FilterMeaning.FilteredMeaning` | packages/orchestrator/src/pre-send/forbidden-filter.ts:11-42 | and, for words without surrogate pairs, by code unit throughout |
| `FilterMeaning.FilteredComposes` | packages/orchestrator/src/pre-send/forbidden-filter.ts:33-38 | on strings and for all words, the filter starts afresh past the end of the first listed word |
| `FilterMeaning.FilteredTakesOut` | packages/orchestrator/src/pre-send/forbidden-filter.ts:11-42 | on strings, a listed word between texts that hold no beginning of any is taken out and nothing else |
| `FilterMeaning.SourceExample` | packages/orchestrator/src/pre-send/forbidden-filter.ts:33-38 | the example given in the source: five characters with the word in the middle lose just the word |
| `CanonicalJson.CanonicalizeIsPrintNormal` | packages/domain/src/execution-intent.ts:131-145 | the canonical text is the plain text of the value with keys sorted and absent members dropped at every level |
| `CanonicalJson.EscapeUnique` | packages/domain/src/execution-intent.ts:131-145 | a string literal can be read in one way only: it ends at its closing quote and nowhere else |
| `CanonicalJson.PrintUnique` | packages/domain/src/execution-intent.ts:131-145 | a printed value in front of a delimiter can be read in one way only |
| `CanonicalJson.CanonicalTextFixesValue` | packages/domain/src/execution-intent.ts:131-145 | for all values, the texts are equal exactly when the values are, up to key order, absent members and `[undefined]` for `[]` |
| `CanonicalJson.UndefinedEntryCollides` | packages/domain/src/execution-intent.ts:131-145 | the one collision: `[undefined]` and `[]` |
| `CanonicalJson.KeyOrderIrrelevant` | packages/domain/src/execution-intent.ts:131-145 | permuting the members of an object changes nothing |
| `JsonReader.ReadPrinted` | packages/domain/src/execution-intent.ts:131-145 | a reader written after the grammar of RFC 8259 reads a printed value in front of a delimiter back |
| `JsonReader.CanonicalRoundTrip` | packages/domain/src/execution-intent.ts:131-145 | reading the canonical text of a value without undefined entries gives the value meant |
| `JsonReader.CanonicalMeaning` | packages/domain/src/execution-intent.ts:131-145 | what is read from it is the same value up to the order of members and members without a value, with keys in ascending code unit order at every level |
| `JsonReader.EscapeShortest` | packages/domain/src/execution-intent.ts:131-145 | a code unit is written in the shortest way that reads back, hexadecimal digits in lower case |
| `JsonReader.LoneSurrogateEscaped` | packages/domain/src/execution-intent.ts:131-145 | half of a surrogate pair on its own is written as an escape |
| `Text.LessMeaning` | packages/domain/src/execution-intent.ts:142-143 | the order of keys: a proper beginning first, else the smaller code unit at the first difference, as section 3.2.3 of RFC 8785 asks |
| `Text.SortAscends` | packages/domain/src/execution-intent.ts:142-143 | the key sort is a permutation in that order |
| `Text.SortByKeySorts` | packages/domain/src/execution-intent.ts:131-145 | the sort is a permutation, strictly increasing in the order that `LessMeaning` characterises |
| `ExecutionIntent.HashedTextFixesFields` | packages/domain/src/execution-intent.ts:147-166 | the hashed strings of two intents are equal exactly when all immutable fields are, the optional confirmation included |
| `ExecutionIntent.RunKeepsPayload` | packages/domain/src/execution-intent.ts:294-302 | no run of transitions changes a hashed field, the stored hash or whether it holds |
| `ExecutionIntent.RunsClimb` | packages/domain/src/execution-intent.ts:94-107 | every run moves up the stages, so runs are bounded and never return |
| `ExecutionIntent.OneWayToOutcome` | packages/domain/src/execution-intent.ts:287-302 | an outcome is reached from a state by exactly one path, the remaining stages in order |
| `ExecutionIntent.WaysOut` | packages/domain/src/execution-intent.ts:94-107 | an intent can be cancelled exactly until it is attempted and expires exactly until it is claimed; a transition changes the state alone |
| `IntentPayload.HashedTextReads` | packages/domain/src/execution-intent.ts:147-166 | reading the hashed string finds every immutable field under its own name, nested ones included, and the optional ones only when present |
| `LinkGraph.WalkEnds` | docs/archive/sheep-305-original-design/shipping-policy-registry.ts:400-408 | pigeonhole: without cycles no walk along the pointers is longer than the number of pointers |
| `LinkGraph.AddLink` | docs/archive/sheep-305-original-design/shipping-policy-registry.ts:400-408 | a new pointer keeps the graph acyclic exactly when its target does not lead back to its source |
| `LinkGraph.SetLink` | docs/archive/sheep-305-original-design/shipping-policy-registry.ts:400-408 | the same whether or not the source already pointed somewhere |
| `LinkGraph.RootOrCycle` | docs/archive/sheep-305-original-design/shipping-policy-contract.ts:229-241 | above any node of a pointer graph there is a node that nothing points to, or one on a cycle |
| `ShippingRegistry.SameScopeExactly` | docs/archive/sheep-305-original-design/shipping-policy-registry.ts:200-213 | the scope keys of bound scopes are equal exactly when the scopes are, whatever the identifiers contain |
| `ShippingRegistry.MintIdInjective` | docs/archive/sheep-305-original-design/shipping-policy-registry.ts:257-260 | minted ids of different kinds or numbers differ, padding included |
| `ShippingRegistry.ItemsAcceptedExactly` | docs/archive/sheep-305-original-design/shipping-policy-registry.ts:215-233 | items are accepted exactly when there are some, their names are distinct and allowed, and all are filled in |
| `ShippingRegistry.ItemsUnordered` | docs/archive/sheep-305-original-design/shipping-policy-registry.ts:215-233 | a permutation of accepted items is accepted and has the same canonical form |
| `ShippingRegistry.ValidateStructuredItems` | docs/archive/sheep-305-original-design/shipping-policy-registry.ts:215-233 | the loop reports the first fault, or the sorted items |
| `RegistryInvariants.ApplyGood` | docs/archive/sheep-305-original-design/shipping-policy-registry.ts:287-421 | every operation keeps the invariant, changes records only in its own scope and only by revoking or linking |
| `RegistryInvariants.RunGood` | docs/archive/sheep-305-original-design/shipping-policy-registry.ts:287-421 | over every run the replacement graph stays acyclic, links join policy versions of one scope and policy id, only DRAFT and REVOKED occur, and both counters equal what they count |
| `RegistryInvariants.ReachableGood` | docs/archive/sheep-305-original-design/shipping-policy-registry.ts:247-421 | so in every state reached from the empty registry |
| `RegistryInvariants.RunEvolves` | docs/archive/sheep-305-original-design/shipping-policy-registry.ts:374-421 | over any run a record keeps its content, its revocation and its replacement pointer |
| `RegistryInvariants.LinkRefusedExactly` | docs/archive/sheep-305-original-design/shipping-policy-registry.ts:387-421 | past the earlier checks, with a pointer set or not, a link is refused as a cycle exactly when it would close one; past the guard it is stored, IDEMPOTENT for the same target or refused as already set |
| `RegistryInvariants.CycleGuard` | docs/archive/sheep-305-original-design/shipping-policy-registry.ts:400-408 | the guard loop terminates and answers whether the old record leads to the new one |
| `RegistryInvariants.ReplayIsIdempotent` | docs/archive/sheep-305-original-design/shipping-policy-registry.ts:319-359 | a replay with items in any order, after any further operations, is IDEMPOTENT with the original id and changes no record |
| `RegistryInvariants.ScopesIsolated` | docs/archive/sheep-305-original-design/shipping-policy-registry.ts:361-372 | an operation under one scope leaves what `list` answers in every other scope unchanged, and what `get` answers exactly when the id asked for is not one it has just minted; for such an id a bound scope sees NOT_FOUND turn into SCOPE_MISMATCH |
| `RegistryInvariants.MintedIdShows` | docs/archive/sheep-305-original-design/shipping-policy-registry.ts:361-366 | a first declaration whose id another scope can tell from an unknown one |
| `RegistryReads.FoundExactly` | docs/archive/sheep-305-original-design/shipping-policy-registry.ts:361-366 | a record is found by its id in its own scope and in no other |
| `RegistryReads.PolicyIsRead` | docs/archive/sheep-305-original-design/shipping-policy-registry.ts:319-372 | a registered policy version reads back as sent, items sorted, after any run, and only in its scope |
| `RegistryReads.RepeatedPolicyExactly` | docs/archive/sheep-305-original-design/shipping-policy-registry.ts:319-359 | a policy id and version already taken in the scope: IDEMPOTENT exactly when quoted text, basis and the items in any order agree, a content conflict otherwise |
| `RegistryReads.DeclarationIsRead` | docs/archive/sheep-305-original-design/shipping-policy-registry.ts:287-317 | so does a declared owner identity |
| `RegistryReads.RepeatedDeclarationExactly` | docs/archive/sheep-305-original-design/shipping-policy-registry.ts:287-317 | an identifier already declared in the scope: IDEMPOTENT exactly when basis and time agree, a conflict otherwise |
| `RegistryReads.RevocationLasts` | docs/archive/sheep-305-original-design/shipping-policy-registry.ts:374-385 | exactly a draft of the scope can be revoked; state and reason then stay through any run and a second attempt is rejected |
| `RegistryReads.LinkIsRead` | docs/archive/sheep-305-original-design/shipping-policy-registry.ts:263-284 | a stored link is read with its target through any run, valid exactly while both ends are drafts and as ENDPOINT_REVOKED otherwise |
| `RegistryAnswers.PolicyFaultExactly` | docs/archive/sheep-305-original-design/shipping-policy-registry.ts:319-331 | why a policy registration is refused on its own fields, an activation attempt included: the first reason that holds, or none |
| `RegistryAnswers.ExceptionsRefused` | docs/archive/sheep-305-original-design/shipping-policy-registry.ts:215-233 | which refusal the first bad item gives |
| `RegistryAnswers.DeclarationFaultExactly` | docs/archive/sheep-305-original-design/shipping-policy-registry.ts:287-292 | the same for a declaration |
| `RegistryAnswers.RegisteredExactly` | docs/archive/sheep-305-original-design/shipping-policy-registry.ts:319-359 | a faultless policy registration is new exactly when its name is not taken in the scope; it is then appended and no other record changes |
| `RegistryAnswers.DeclaredExactly` | docs/archive/sheep-305-original-design/shipping-policy-registry.ts:287-317 | the same for a declaration |
| `RegistryAnswers.LinkFaultExactly` | docs/archive/sheep-305-original-design/shipping-policy-registry.ts:387-399 | why a link is refused before the cycle guard, on the two records: the first reason that holds, or none |
| `RegistryAnswers.GetRefusedExactly` | docs/archive/sheep-305-original-design/shipping-policy-registry.ts:361-366 | why a record is not read |
| `RegistryAnswers.RevokeRefusedExactly` | docs/archive/sheep-305-original-design/shipping-policy-registry.ts:374-385 | why a revocation is refused |
| `RegistryAnswers.ReasonRecorded` | docs/archive/sheep-305-original-design/shipping-policy-registry.ts:374-385 | the reason recorded with a revocation, and that no other record changes |
| `RegistryAnswers.ListExactly` | docs/archive/sheep-305-original-design/shipping-policy-registry.ts:369-372 | `list` gives the views `get` gives of exactly the records of the scope, in the order they were registered |
| `RegistryAnswers.CountersTell` | docs/archive/sheep-305-original-design/shipping-policy-registry.ts:251-256 | each operation moves exactly the counter of its answer |
| `RegistryAnswers.MintIdForm` | docs/archive/sheep-305-original-design/shipping-policy-registry.ts:257-260 | a minted id is the prefix, the kind and the number in at least four digits |
| `RegistryService.Registry.constructor` | docs/archive/sheep-305-original-design/shipping-policy-registry.ts:247-260 | an empty registry, and the default prefix for a blank one |
| `RegistryService.Registry.RegisterOwnerIdentityDeclaration` | docs/archive/sheep-305-original-design/shipping-policy-registry.ts:287-317 | the fields change as the specified operation says, and the invariant is kept |
| `RegistryService.Registry.RegisterPolicyVersion` | docs/archive/sheep-305-original-design/shipping-policy-registry.ts:319-359 | the same for a policy version |
| `RegistryService.Registry.RevokeRegistration` | docs/archive/sheep-305-original-design/shipping-policy-registry.ts:374-385 | the same for a revocation |
| `RegistryService.Registry.LinkReplacement` | docs/archive/sheep-305-original-design/shipping-policy-registry.ts:387-421 | the same for a replacement link, with the guard loop |
| `ShippingEvaluator.SelectByScope` | docs/archive/sheep-305-original-design/shipping-policy-contract.ts:190-217 | the loop gives the policies of exactly the request's scope, or the reason there are none |
| `ShippingEvaluator.EvaluateShippingPolicy` | docs/archive/sheep-305-original-design/shipping-policy-contract.ts:243-449 | the evaluation with its loops equals the specified evaluation |
| `ShippingEvaluator.TwoPasses` | docs/archive/sheep-305-original-design/shipping-policy-contract.ts:243-449 | lifecycle first and window second select, and exclude, the same as both tests at once |
| `ShippingEvaluator.OrderIrrelevant` | docs/archive/sheep-305-original-design/shipping-policy-contract.ts:190-449 | permuting the policy list changes nothing in the evaluation |
| `ReplacementChain.ChainHasOneRoot` | docs/archive/sheep-305-original-design/shipping-policy-contract.ts:229-241 | a linear chain has its head as its only unreplaced member |
| `ReplacementChain.ChainCovers` | docs/archive/sheep-305-original-design/shipping-policy-contract.ts:229-241 | with one unreplaced candidate and no cycle, the chain from it takes in every candidate |
| `ReplacementChain.WinnerExactly` | docs/archive/sheep-305-original-design/shipping-policy-contract.ts:229-241 | with distinct ids and no cycle there is a winner exactly when the candidates form one linear chain, and it is the head |
| `ReplacementChain.ResolveIsSoleHead` | docs/archive/sheep-305-original-design/shipping-policy-contract.ts:229-241 | for any list, repeated ids and cycles included, the winner is the only policy or the only one that none replaces |
| `ReplacementChain.WinnerMeaning` | docs/archive/sheep-305-original-design/shipping-policy-contract.ts:229-241 | with distinct ids, cycles or not: the winner is not replaced, and every other candidate is down the chain from it, on a cycle or below one |
| `ReplacementChain.CycleCanBeIgnored` | docs/archive/sheep-305-original-design/shipping-policy-contract.ts:229-241 | a policy that wins beside two that replace each other, though the three form no chain |
| `ShippingServed.ServedExactly` | docs/archive/sheep-305-original-design/shipping-policy-contract.ts:243-449 | for the policy chosen, a fact is served exactly when the product applies, nothing is missing and the owner approved; every field of it is that policy's |
| `ShippingServed.FactExactly` | docs/archive/sheep-305-original-design/shipping-policy-contract.ts:190-449 | a fact is served exactly when the list holds a servable policy, in the terms of the evaluator, and it is that policy's |
| `ServedMeaning.InWindowExactly` | docs/archive/sheep-305-original-design/shipping-policy-contract.ts:219-226 | in window: with a time given, not before a start and not after an end |
| `ServedMeaning.ProductExactly` | docs/archive/sheep-305-original-design/shipping-policy-contract.ts:243-449 | applicable, not applicable and undetermined, on the product fields |
| `ServedMeaning.MissingExactly` | docs/archive/sheep-305-original-design/shipping-policy-contract.ts:243-449 | which reason each gap of a policy gives, and that a policy without gaps gives none |
| `ServedMeaning.FactOnFields` | docs/archive/sheep-305-original-design/shipping-policy-contract.ts:190-449 | a fact is served exactly when one listed policy meets every condition on its own and the request's fields: store, account, lifecycle, time, sole head, product, completeness and approval; every field of the fact is that policy's |
| `ServedMeaning.ExclusionsExactly` | docs/archive/sheep-305-original-design/shipping-policy-contract.ts:243-449 | a candidate set gives a reason for exclusion exactly when one of its policies does, on lifecycle and dates |
| `ServedMeaning.UnboundAnswer` | docs/archive/sheep-305-original-design/shipping-policy-contract.ts:190-217 | the answer to a request without store, or with another account's policy listed |
| `ServedMeaning.MissingAnswer` | docs/archive/sheep-305-original-design/shipping-policy-contract.ts:190-217 | the answer when no policy of the store is listed |
| `ServedMeaning.ExcludedAnswer` | docs/archive/sheep-305-original-design/shipping-policy-contract.ts:243-449 | the answer when none of the store's policies stands: exactly the reasons they give |
| `ServedMeaning.ConflictAnswer` | docs/archive/sheep-305-original-design/shipping-policy-contract.ts:229-241 | the answer when several stand and none is the sole head |
| `ServedMeaning.HistoricalAnswer` | docs/archive/sheep-305-original-design/shipping-policy-contract.ts:243-449 | the answer when another version was asked for |
| `ServedMeaning.HeadAnswer` | docs/archive/sheep-305-original-design/shipping-policy-contract.ts:243-449 | the answer with a sole head: fact, verdict and every reason, on the fields |
| `ShippingServed.RefusalHasReason` | docs/archive/sheep-305-original-design/shipping-policy-contract.ts:243-449 | a fact is served exactly when the verdict is applicable, and exactly when no blocking reason is given and the policy is not found inapplicable: no refusal goes without a reason |
| `ShippingServed.ExportedExactly` | docs/archive/sheep-305-original-design/shipping-policy-registration.ts:123-173 | in a reachable registry exactly the policy registrations of the scope can be exported |
| `ShippingServed.ExportCarries` | docs/archive/sheep-305-original-design/shipping-policy-registration.ts:123-173 | what was registered is what is exported, after any run and in whatever order its items were sent: identifiers, clock start, completion, nature and the 48 hours |
| `ShippingServed.ExportLacks` | docs/archive/sheep-305-original-design/shipping-policy-registration.ts:123-173 | what no export has, and which lifecycle it has |
| `ShippingServed.ExportedNeverServed` | docs/archive/sheep-305-original-design/shipping-policy-registration.ts:123-173 | whatever else is listed and asked, no exported registration is ever served |
| `DeliveryJournal.NextGood` | packages/persistence/src/delivery/delivery-attempt.ts:96-276 | every step keeps both tables sound; payloads and terminal rows never change |
| `DeliveryResults.RunGood` | packages/persistence/src/delivery/delivery-attempt.ts:166-227 | the same over every interleaving of create, run (split at the port call), finalize, recovery and crash |
| `DeliveryResults.AcknowledgedExactly` | packages/persistence/src/delivery/delivery-attempt.ts:201-227 | in every reachable state an attempt is ACKNOWLEDGED exactly when a message of its own conversation and text exists for it, and no two attempts share a message |
| `DeliveryResults.MessagesConserved` | packages/persistence/src/delivery/delivery-attempt.ts:201-227 | there are as many delivered messages as acknowledged attempts |
| `DeliveryResults.RecoveryScoped` | packages/persistence/src/delivery/delivery-attempt.ts:254-276 | recovery takes exactly the merchant's in-flight attempts; a second run finds none; other merchants' are left alone |
| `DeliveryResults.RecoveriesCommute` | packages/persistence/src/delivery/delivery-attempt.ts:254-276 | recoveries for different merchants commute |
| `DeliveryResults.LateAcknowledgementRefused` | packages/persistence/src/delivery/delivery-attempt.ts:201-209 | after recovery the attempt stays UNKNOWN through any run, no message is ever delivered for it and a late acknowledgement is refused |
| `DeliverySteps.CreateMeaning` | packages/persistence/src/delivery/delivery-attempt.ts:140-158 | an attempt is created exactly when allowed, for an existing conversation and under a new id, with the text and the conversation's store and account |
| `DeliverySteps.StartMeaning` | packages/persistence/src/delivery/delivery-attempt.ts:166-170 | a run starts exactly for a pending or in-flight attempt; a pending one is in flight from then on |
| `DeliverySteps.FinishAcknowledged` | packages/persistence/src/delivery/delivery-attempt.ts:172-186 | an acknowledged run of an in-flight attempt ends ACKNOWLEDGED, delivered as "dlv-" and its id with its own conversation and text and the answer's reference and time; with the id taken nothing is written |
| `DeliverySteps.FinishResolved` | packages/persistence/src/delivery/delivery-attempt.ts:187-190 | a rejected or unknown run has that status and no message |
| `DeliverySteps.FinishLate` | packages/persistence/src/delivery/delivery-attempt.ts:187-190 | an answer for an attempt settled otherwise changes nothing |
| `DeliverySteps.FinalizeMeaning` | packages/persistence/src/delivery/delivery-attempt.ts:201-227 | a repeated finalize is done and changes nothing; otherwise exactly an in-flight attempt with a free message id is finalized |
| `DeliverySteps.RecoveryMeaning` | packages/persistence/src/delivery/delivery-attempt.ts:230-276 | each row after a recovery, of one merchant or of all |
| `DeliverySteps.CrashMeaning` | packages/persistence/src/delivery/delivery-attempt.ts:166-191 | a crash loses waiting runs and no row |
| `DeliverySteps.Delivered` | packages/persistence/src/delivery/delivery-attempt.ts:140-227 | end to end from any reachable state: created, run and acknowledged, an attempt ends as a message of its conversation with its text |
| `DeliveryResults.Journal.MarkRowInFlight` | packages/persistence/src/delivery/delivery-attempt.ts:96-133 | only a pending row changes; the row is returned also when it was in flight already |
| `DeliveryResults.Journal.ResolveRow` | packages/persistence/src/delivery/delivery-attempt.ts:96-133 | only a pending or in-flight row is resolved |
| `DeliveryResults.Journal.FinalizeAcknowledged` | packages/persistence/src/delivery/delivery-attempt.ts:201-227 | message and acknowledgement are written both or not at all |
| `DeliveryResults.Journal.RecoverWorkspaceInFlight` | packages/persistence/src/delivery/delivery-attempt.ts:254-276 | the loop recovers exactly the merchant's rows, and its two counts sum to the in-flight count |
| `SendQueue.SendSerializer.Push` | packages/orchestrator/src/core/send-serializer.ts:16-46 | enqueue appends, and reports whether a drain loop must start |
| `SendQueue.SendSerializer.Shift` | packages/orchestrator/src/core/send-serializer.ts:16-46 | dequeue takes the first and marks the key, or clears the mark |
| `SendQueue.SendSerializer.Done` | packages/orchestrator/src/core/send-serializer.ts:16-46 | the mark is cleared and the queues stay |
| `SendQueue.RunGood` | packages/orchestrator/src/core/conversation-orchestrator.ts:570-609 | over every interleaving: at most one drain loop per key, the key marked exactly while there is one, an unmarked key's queue empty, and started then queued requests equal the enqueued ones in order |
| `SendQueue.ReachableGood` | packages/orchestrator/src/core/conversation-orchestrator.ts:570-609 | so in every state reached from the idle one |
| `SendQueue.SendIsRecorded` | packages/orchestrator/src/core/conversation-orchestrator.ts:543-585 | every send is recorded for its own key, and starts a loop exactly when the key is idle |
| `SendQueue.DrainEmpties` | packages/orchestrator/src/core/conversation-orchestrator.ts:587-609 | progress in any interleaving with other keys: with nothing more enqueued for it, a drained key is idle exactly when its loop was resumed once per queued request and once more; then every request has been started, in order |
| `SegmentedSend.SplitRejoins` | packages/orchestrator/src/policies/segmented-send-policy.ts:15-28 | the raw parts rejoin to the reply and none holds a separator |
| `SegmentedSend.SegmentsExactly` | packages/orchestrator/src/policies/segmented-send-policy.ts:15-28 | the segments are the non-empty parts, in order and each as often as it occurs |
| `SegmentedSend.RetryAgreesExactly` | packages/orchestrator/src/policies/retry-policy.ts:27-41 | a failed attempt is retried exactly when it has no message id, a safe keyword and no rejection keyword |
| `SegmentedSend.PassMeaning` | packages/orchestrator/src/core/segmented-sender.ts:32-51 | a pass stops at the first failure, and succeeds exactly when every part was sent |
| `SegmentedSend.SendImmediate` | packages/orchestrator/src/core/segmented-sender.ts:32-51 | the loop calls the platform with a prefix of the parts, in order |
| `SegmentedSend.PerformSend` | packages/orchestrator/src/core/conversation-orchestrator.ts:639-703 | one send with its retry equals the specified report |
| `SegmentedSend.SendSafety` | packages/orchestrator/src/core/conversation-orchestrator.ts:639-703 | the calls are a prefix of the segments, then at most one more, exactly after a safe failure; completion is reported exactly when the last pass sent everything; all calls carry non-empty parts of the reply without separator; an invalid target gets no call |
| `SegmentedSend.DeliveredTwiceExactly` | packages/orchestrator/src/core/conversation-orchestrator.ts:673-689 | a segment goes through twice exactly when the first pass failed after its first segment and the second pass got its first one through |
| `SegmentedSend.TwiceNeedsTwoSegments` | packages/orchestrator/src/core/conversation-orchestrator.ts:673-689 | some platform makes a send deliver a segment twice exactly when the reply has two segments or more |
| `SegmentedSend.TwiceOnFlaky` | packages/orchestrator/src/core/conversation-orchestrator.ts:673-689 | for every such reply, a second call that fails with "network error" has the first segment delivered twice and completion reported |
| `SegmentedSend.TwiceInFact` | packages/orchestrator/src/core/conversation-orchestrator.ts:673-689 | "a###b" sent as a, b, a, b and reported complete |
| `ConversationState.Conversation.OnBuyerMessage` | packages/orchestrator/src/core/conversation-orchestrator.ts:173-212 | a new generation, no suggestion any more |
| `ConversationState.Conversation.ProcessAiResult` | packages/orchestrator/src/core/conversation-orchestrator.ts:487-513 | a stale or empty result changes nothing, any other becomes the suggestion |
| `ConversationState.Conversation.OnTakeover` | packages/orchestrator/src/core/manual-takeover-controller.ts:11-19 | a new generation, a pending suggestion cancelled |
| `ConversationState.Conversation.OnCancel` | packages/orchestrator/src/core/conversation-orchestrator.ts:264-271 | a pending suggestion cancelled, the generation kept |
| `ConversationState.Conversation.OnSendCompleted` | packages/orchestrator/src/core/conversation-orchestrator.ts:694-703 | the end of a completed send marks whatever suggestion is pending then |
| `ConversationState.RunCurrent` | packages/orchestrator/src/core/conversation-orchestrator.ts:173-217 | in every interleaving from the start a pending suggestion carries the current generation all along exactly when no result with a reply names a generation not yet issued |
| `ConversationState.RunInStep` | packages/orchestrator/src/core/conversation-orchestrator.ts:173-217 | whatever generations results name, a pending suggestion is never behind the token, and generations only grow |
| `ConversationState.NothingPendingAfter` | packages/orchestrator/src/core/conversation-orchestrator.ts:173-271 | a buyer message, a takeover, a cancellation and a completed send leave no pending suggestion |
| `ConversationState.StaleNeverShown` | packages/orchestrator/src/core/conversation-orchestrator.ts:487-513 | after a buyer message or takeover, whatever happens next, results of earlier generations change nothing and a pending suggestion is of a later generation |
| `ConversationState.StaleCallExactly` | packages/orchestrator/src/core/conversation-orchestrator.ts:487-505 | a call still open after a later buyer message or takeover completes without effect exactly when its result is empty, names no generation of its own or names one that is behind |
| `ConversationState.PushExactly` | packages/orchestrator/src/core/conversation-orchestrator.ts:214-217 | a pushed result is ignored exactly when it is empty or names a generation that is behind |
| `ConversationState.StaleCanBeShown` | packages/orchestrator/src/core/conversation-orchestrator.ts:487-505 | a run in which a call from before the latest buyer message becomes the suggestion, because its result names the current generation |
| `ConversationState.HonestExactly` | packages/orchestrator/src/core/conversation-orchestrator.ts:694-703 | in every run in which no suggestion is stored while a send is open, and nothing else is sent while one is pending, what is marked as sent was sent; a further step keeps to that exactly when the open sends, finishing in queue order with whatever results, leave no wrong mark |
| `ConversationState.MarkCanBeWrong` | packages/orchestrator/src/core/conversation-orchestrator.ts:694-703 | a run in which a suggestion that was not sent is marked as sent |
| `PendingRequests.RunSound` | packages/worker-rpc/src/client/ai-worker-client.ts:192-320 | for every order of requests, responses, timeouts, aborts and exits each request is settled at most once, and exactly once when no longer pending; timers and listeners match the table; work requests stay within the limit; a settled request keeps its outcome |
| `PendingRequests.SettledOnce` | packages/worker-rpc/src/client/ai-worker-client.ts:192-320 | so from the empty table on: no request has two outcomes, one that has ended has exactly one, and work requests stay within the limit |
| `PendingRequests.AskTaken` | packages/worker-rpc/src/client/ai-worker-client.ts:261-311 | a new request is pending afterwards exactly when it is a system one or there is room, its signal has not fired and the write queue takes it |
| `PendingRequests.CancelIsSent` | packages/worker-rpc/src/client/ai-worker-client.ts:313-320 | a timeout or abort asks the worker to cancel, whatever the limit |
| `PendingRequests.FirstWins` | packages/worker-rpc/src/client/pending-request-registry.ts:38-116 | the first of response, timeout, abort and exit decides the outcome, and a later one is a no-op |
| `PendingRequests.CancelCommutes` | packages/worker-rpc/src/client/pending-request-registry.ts:57-80 | the cancel request sent before the rejection does not affect it |
| `PendingRequests.PendingRequestRegistry.RegisterRequest` | packages/worker-rpc/src/client/pending-request-registry.ts:38-84 | an active id is refused; otherwise the entry, its timer and its listener are added |
| `PendingRequests.PendingRequestRegistry.SettleEntry` | packages/worker-rpc/src/client/pending-request-registry.ts:86-96 | a pending request is settled once, any other id changes nothing |
| `PendingRequests.PendingRequestRegistry.FailAllEntries` | packages/worker-rpc/src/client/pending-request-registry.ts:107-116 | the loop rejects every pending request once and counts them |
| `Migrations.CollectPending` | packages/persistence/src/migrations/migration-runner.ts:38-51 | the loop finds the unapplied migrations in discovery order, or a checksum mismatch exactly when there is one |
| `Migrations.Connection.ApplyMigration` | packages/persistence/src/db/sqlite-driver.ts:39-53 | schema change and migration row are kept both or not at all |
| `Migrations.Connection.RunMigrations` | packages/persistence/src/migrations/migration-runner.ts:32-84 | the runner equals the specified run, wherever it is interrupted |
| `MigrationResults.InterruptionsIrrelevantExactly` | packages/persistence/src/migrations/migration-runner.ts:32-84 | for given SQL and every list of files: any number of interrupted runs and then a full one leave the schema, the rows and the ending of a single uninterrupted run, wherever they stop, exactly when that run does not fail or fails for good |
| `MigrationResults.IrrelevantForAllSql` | packages/persistence/src/migrations/migration-runner.ts:32-84 | whatever the SQL does, interruptions are irrelevant exactly when the pending files have distinct versions or the checks refuse every run |
| `MigrationResults.InterruptionsIrrelevant` | packages/persistence/src/migrations/migration-runner.ts:32-84 | the same for one sequence of interruptions |
| `MigrationResults.NotRepeatedIsDecided` | packages/persistence/src/migrations/migration-runner.ts:32-84 | a failure is for good when no pending file shares its version with one the run applies |
| `MigrationResults.DistinctIsDecided` | packages/persistence/src/migrations/migration-runner.ts:32-84 | so interruptions are irrelevant whenever the pending files have distinct versions |
| `MigrationResults.InterruptionCanMatter` | packages/persistence/src/migrations/migration-runner.ts:66-80 | two files of one version: the uninterrupted run fails, and after an interruption between them it completes |
| `MigrationResults.FailureCanTurn` | packages/persistence/src/migrations/migration-runner.ts:38-51 | a failed file between two files of one version: after an interruption the failure is a checksum mismatch |
| `MigrationResults.CompletedAppliesAll` | packages/persistence/src/migrations/migration-runner.ts:66-80 | a completed run has executed exactly the pending migrations, each once and in order, and recorded exactly those |
| `MigrationResults.EndingExactly` | packages/persistence/src/migrations/migration-runner.ts:32-84 | how an uninterrupted run ends, on rows, files and SQL: mismatch first, then too new, and completion exactly when pending versions are distinct and all scripts go through |
| `MigrationResults.FailureKeeps` | packages/persistence/src/migrations/migration-runner.ts:66-80 | a failed run keeps exactly the scripts and rows of the files before the one that failed |
| `MigrationResults.RefusalKeeps` | packages/persistence/src/migrations/migration-runner.ts:38-55 | a run refused by its checks changes nothing |
| `MigrationResults.PendingExactly` | packages/persistence/src/migrations/migration-runner.ts:38-51 | what is pending: the files without a row, in discovery order and with multiplicity |
| `MigrationResults.MaxVersionMeaning` | packages/persistence/src/migrations/migration-loader.ts:24-26 | the version written is the greatest among the files, or 0 |
| `MigrationResults.RerunExactly` | packages/persistence/src/migrations/migration-runner.ts:53-57 | a run after a completed one changes nothing and completes exactly when nothing was pending or the version written is supported; otherwise every later run refuses the schema as too new |
| `MigrationResults.DuplicatesNeverComplete` | packages/persistence/src/migrations/migration-runner.ts:66-80 | two pending files with one version make an uninterrupted run fail |
| `MigrationResults.MetaVersionExactly` | packages/persistence/src/migrations/migration-runner.ts:81-84 | the final run writes the version to `app_meta` exactly when the interrupted ones left something pending |
| `MigrationResults.MetaVersionCanStayBehind` | packages/persistence/src/migrations/migration-runner.ts:81-84 | a completed database whose recorded version stays 0 |
| `Csv.SplitCsvRows` | packages/legacy-import/src/parsers/csv-utils.ts:22-43 | the first loop splits the text as specified |
| `Csv.ParseCsvLine` | packages/legacy-import/src/parsers/csv-utils.ts:45-61 | the second loop splits a row as specified |
| `Csv.ParseCsv` | packages/legacy-import/src/parsers/csv-utils.ts:5-20 | the parser builds the specified table, missing cells empty, blank rows skipped |
| `Csv.SplitPrinted` | packages/legacy-import/src/parsers/csv-utils.ts:22-43 | for every table, quotes in cells included and each field between quotes or bare, the first pass undoes the printing line by line, with any line breaks; only blank lines are lost |
| `CsvRoundTrip.BadCell` | packages/legacy-import/src/parsers/csv-utils.ts:45-61 | every cell with a quote other than at the end of the last cell is misread |
| `CsvRoundTrip.RoundTripExactly` | packages/legacy-import/src/parsers/csv-utils.ts:5-61 | a full table with distinct headers, printed as in section 2 of RFC 4180 with each field between quotes or bare where that is allowed, any line breaks and an optional byte order mark, is read back exactly when no cell holds a quote (the end of a line's last cell apart), no row is a blank line, no header of a table with rows is `__proto__`, the file is not empty and does not start with what is taken for a byte order mark |
| `CsvRoundTrip.AllQuotedExactly` | packages/legacy-import/src/parsers/csv-utils.ts:5-61 | with all fields between quotes only the quotes in cells and the one header matter |
| `CsvRoundTrip.MistakenBom` | packages/legacy-import/src/parsers/csv-utils.ts:5-6 | a bare first header that starts like a byte order mark is not read back |
| `CsvRoundTrip.RaggedRow` | packages/legacy-import/src/parsers/csv-utils.ts:11-17 | rows of any width: a record has the cell of the last column of a name, and the empty text where the row is too short |
| `CsvRoundTrip.ReadBack` | packages/legacy-import/src/parsers/csv-utils.ts:5-61 | the reading direction without the distinctness of headers; commas, CR and LF in cells included |
| `CsvRoundTrip.RecordsFull` | packages/legacy-import/src/parsers/csv-utils.ts:9-18 | whatever the file, every record has exactly the headers as keys, less `__proto__` |
| `CsvRoundTrip.QuoteLost` | packages/legacy-import/src/parsers/csv-utils.ts:45-61 | a quote inside a cell disappears although printed doubled |
| `CsvRoundTrip.OuterQuotesLost` | packages/legacy-import/src/parsers/csv-utils.ts:60-60 | a pair of quotes around what a cell holds disappears |
| `Deduplicator.RecentMeaning` | packages/platform-pdd/src/message-deduplicator.ts:14-39 | the recent keys are the keys of the history, each once, by latest recording |
| `Deduplicator.KeptAfter` | packages/platform-pdd/src/message-deduplicator.ts:18-32 | what one more recording does to the most recent keys |
| `Deduplicator.RecordStep` | packages/platform-pdd/src/message-deduplicator.ts:18-32 | evicting the smallest number leaves exactly the most recently recorded distinct keys |
| `Deduplicator.Smallest` | packages/platform-pdd/src/message-deduplicator.ts:21-31 | the eviction scan finds a key with the smallest number |
| `Deduplicator.MessageDeduplicator.Record` | packages/platform-pdd/src/message-deduplicator.ts:18-32 | the stored keys stay exactly the `maxSize` most recent ones of the history |
| `Deduplicator.MessageDeduplicator.Observe` | packages/platform-pdd/src/message-deduplicator.ts:35-39 | a key is new exactly when it is not among the most recent keys, and is then recorded |

## Left out

- The filter: the source stores word lengths in UTF-16 units and only tests whether one is there; the model counts symbols.
- JSON numbers are integers printed in decimal; other numbers, `Date` and class instances are not modelled. The hash function is a parameter.
- Validation of an execution intent and the building of one: lists of field checks only.
- Migrations: SQL text, the backup copy and the foreign key switch; timestamps of rows; a script that edits `schema_migrations` itself.
- CsvRoundTrip.RoundTripExactly: tables with at least one column, as section 2 of RFC 4180 asks; the order of keys in a record is not modelled.
- The registry: snapshots and deep copies (records are values here); inputs of the wrong type, which the source treats like missing ones.
- The evaluator: restriction reasons are a set; diagnostic strings are not modelled; lifecycle, nature and time values are typed.
- The export to the evaluator: lower-casing is a parameter; the conversion counter is not modelled.
- The delivery journal: SQL text; other writers of agent messages; the port is called between two steps of a run and its answer is arbitrary, so nothing is claimed about how often it is called.
- DeliveryResults.Journal.ResolveRow: takes only REJECTED and UNKNOWN, the two statuses the source passes.
- The send pipeline: the timed branch of the segmented sender, `onDequeueNext`, seeding and `revalidate`; error messages are given in lower case; `sendText` always returns an attempt.
- ReplacementChain.WinnerExactly: for candidates with distinct ids and no cycle of replacements; `WinnerMeaning` drops the second and `ResolveIsSoleHead` both.
- PendingRequests.RunSound: for unique request ids; worker start, handshake and restart are not modelled, and a request refused by a full write queue counts as rejected.
- Electron windows and IPC, platform readers and drivers, the import writers, background jobs and time-zone conversion are not part of this model.
