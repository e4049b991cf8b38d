# Models-as-a-Service: a verified model of the control plane and its data path

The repository runs a small Kubernetes control plane and the API service it governs. The controller turns
MaaSAuthPolicy and MaaSSubscription objects into one aggregated AuthPolicy and one aggregated
TokenRateLimitPolicy (TRLP) per model. The API service selects a subscription for a request, mints and validates API
keys, and lists the models a user can reach. This project models that logic in Dafny and proves what it keeps over
every input, every run or every reachable state.

| file | what it models |
|---|---|
| `Strings.dfy`, `Sorting.dfy` | Go's string order, `Join`/`Split`/`SplitN`, stable sort; round trips and uniqueness of sorted forms |
| `KeyCodec.dfy` | base62 over big integers, the key printer and parser, the salted hash preimage |
| `KeyStore.dfy`, `KeyLifecycle.dfy`, `KeyService.dfy` | the key store as a timed state machine, its runs, and minting and validation on top of it |
| `SelectionOrder.dfy` | when the order of the lister's output can matter |
| `Selector.dfy` | explicit, bare, automatic and highest-priority subscription selection, the health gate, the listing |
| `Cluster.dfy` | the API objects the reconcilers read and write |
| `AuthPolicies.dfy`, `AuthConvergence.dfy` | the MaaSAuthPolicy reconciler and its convergence |
| `TokenLimits.dfy`, `Phases.dfy`, `Subscriptions.dfy`, `TokenConvergence.dfy`, `TokenErrors.dfy` | the MaaSSubscription reconciler: limits, status, deletion, settlement |
| `ModelRefs.dfy`, `ControlPlane.dfy`, `Releases.dfy` | finalization of a model, all reconcilers and users as one transition system, and what deletions leave behind over its runs |
| `AuthMeaning.dfy`, `TokenMeaning.dfy`, `SelectionMeaning.dfy`, `KeyMeaning.dfy`, `ListingMeaning.dfy` | each operation's answer again, in terms of the fields of the objects alone |
| `Admission.dfy` | where the status the controller writes meets the selector that trusts it |
| `Listing.dfy` | concurrent probes and the aggregation of their answers |

Code that updates state is modelled by classes and loops and proved against specification functions or transition
predicates (`KeyStore.Step`, `AuthPolicies.Reconciles`, `Subscriptions.Reconciles`, `ModelRefs.Reconciles`); the
lemmas then speak about those.

The `*Meaning` modules tie those specifications to the objects themselves: they state what a reconcile leaves, what a
selection answers, what a listing shows and what the store and service return with quantifiers over the fields of
policies, subscriptions, models, probe answers and requests, and with the literal texts and numbers of the source.

## Main results

- **Convergence.** With the inputs frozen and nothing opted out, two rounds over the existing policies, each in any
  order, settle every generated AuthPolicy, and a third round makes no write (`AuthConvergence.TwoRoundsSettle`,
  `AuthConvergence.ThirdRoundWritesNothing`). Without reconcile errors, and from every reachable state in which
  nothing is opted out, each served model with a live policy ends with exactly the sorted union of its live policies,
  and one without a live policy ends with nothing unless everything its AuthPolicy names is already gone
  (`ControlPlane.RunsConverge`). With errors, `AuthConvergence.ConvergesIff` says exactly which models still converge.
- **No orphans, no stale contributors** over every run of the three reconcilers and arbitrary user edits
  (`ControlPlane.NoOrphans`). After a policy is released, no later state has an AuthPolicy that names it if and only
  if none that named it was opted out at that moment (`ControlPlane.NoStaleContributor`); the same question for
  TRLPs and for finalized models is answered exactly too (`Releases.NoStaleSubscription`,
  `Releases.FinalizedForGood`), and so is which steps leave a generated policy with a contributor that does not exist
  (`Releases.AllPoliciesExistIff`, `Releases.AllExistIff`).
- **Exact, isolated rate limits** per model: a reconcile is exact if and only if no foreign route controls the TRLP
  (`TokenLimits.Exactness`, `TokenLimits.Isolation`). Deleting a subscription leaves no gap for the others on its
  models in any intermediate state (`Subscriptions.NoGap`), and exactly where it does leave one is
  `Subscriptions.DeletionGapIff`. One error-free round settles all TRLPs, from every reachable state in which nothing
  is opted out (`Releases.TokenRunsConverge`), and a second makes no write
  (`TokenConvergence.SecondRoundWritesNothing`); with errors, `TokenErrors.SettlesIff` says exactly which models
  settle over any sequence of reconciles.
- **Admission implies an accepted limit** (`Admission.SelectedIsEnforced`), across the controller and the selector.
- **The key store refines a ledger** that only minting and revocation write to (`KeyLifecycle.RunRefines`); hence
  mint-to-validate from creation to validation (`KeyService.CreatedKeyValidates`), irreversible invalidation and invisible housekeeping.
- **The model listing does not depend on the schedule** (`Listing.ListModels` with `Listing.ScheduleIndependent`).
- **The key codec round-trips** and its hash preimages are injective (`KeyCodec.ParsePrint`, `KeyCodec.PrintParse`,
  `KeyCodec.PreimageInjective`).

## Where the code falls short of a promise

Each item is a proved failing input together with the exact condition under which the promise holds.

- When a model is retargeted to another HTTPRoute, its TRLP is still controlled by the former one, and
  `SetControllerReference` refuses to update it. The reconcile errs, the TRLP keeps the old limits and the old
  target for as long as it exists (`Releases.TargetNeverMoves`), and a deleted subscription of that model keeps its
  finalizer (`Subscriptions.RetargetedModelIsStuck`). Exact conditions: `TokenLimits.Exactness`,
  `Subscriptions.ReleasedIff`, and over sequences of reconciles `TokenErrors.ConflictIsStuck`.
- A subject with a quote or a backslash, which the CRD admits, makes the reconcile of its model fail for every
  policy, so other policies' groups are not let in either (`AuthConvergence.UnsafeSubjectBlocksAll`,
  `AuthConvergence.MisquotedNeverConverges`); exact condition in `AuthConvergence.ConvergesIff`.
- maas-controller/pkg/controller/maas/maassubscription_controller.go:530-535 says a subscription with invalid limits
  has already been marked Degraded or Failed. It has not: a window such as 9999h passes the CRD and is refused by
  the controller, yet the subscription can be Active, the selector admits its requests, and no limit applies to them
  (`Admission.RefusedRatesGoUnlimited`). Which rates are refused is `TokenLimits.RefusedRates`; a selected
  subscription is limited exactly when it has valid rates (`Admission.SelectedIsEnforced`).
- Finalizing a MaaSAuthPolicy deletes the AuthPolicy of every model it references, live parents or not, until the
  next round (`AuthConvergence.DeletionLeavesAGap`, exactly `AuthConvergence.DeletionGapIff`). The subscription
  reconciler leaves a gap exactly on models dropped from the spec whose managed TRLP still lists the subscription
  (`Subscriptions.DroppedModelSeesAGap`, exactly `Subscriptions.GapIff`).
- An AuthPolicy opted out while its last policy is finalized, and opted in again, names a policy that is gone
  (`Releases.StaleRun`, a run from a cluster without policies, subscriptions and generated objects; exactly
  `ControlPlane.NoStaleContributor`). It is managed and nobody references its model, yet no round ever removes it
  (`Releases.StaleNeverConverges`; exact condition in `ControlPlane.RunsConverge`).
- A TRLP can be orphaned: its route is missing while its only subscription is released and another one references
  the model (`Releases.OrphanRun`), or a listed subscription is deleted before its first reconcile. Exactly these
  steps, and releases of opted-out TRLPs, abandon a subscription (`Releases.AllExistIff`).
- With no valid model left, a subscription no longer looks at the models it references, so the TRLP of a missing one
  stays (`Releases.BereftRun` reaches such a state, `TokenConvergence.MissingModelKeepsItsPolicy`; exact condition in
  `TokenConvergence.ErrorFreeConvergence`). The MaaSAuthPolicy reconciler deletes in that case.
- Statuses match models by bare name. When a served and an unbacked model share one, the unbacked model is counted
  twice and a subscription with a served model is reported Failed (`Phases.ClashReportsFailed`, exactly
  `Phases.AdjustmentIsNoOpIff`). In Degraded, the selector reads the status of the first reference with the bare
  name and so admits a model of another namespace whose TRLP is not accepted (`Admission.SharedNameSlipsThrough`,
  exactly `Admission.DegradedGateIff`).
- With names unique per namespace only, the lister's order matters to a bare name exactly when its best candidates
  disagree (`SelectionOrder.OrderFreeIff`, a failing pair in `Selector.BareNameAcrossNamespaces`); limit keys collide
  exactly when the hyphenated names do (`TokenLimits.LimitKeysCollideIff`, `TokenLimits.LimitKeyAcrossNamespaces`).
  The single watched namespace excludes both.
- `ParseAPIKey` alone admits keys whose preimages collide (`KeyCodec.ParserAloneCollides`), exactly those with a
  second place to split (`KeyCodec.CollidesIff`); keys that pass `IsValidKeyFormat` have none.
- A configured maximum beyond 106751 days overflows (`KeyService.CapIsExactIff`).
- Lazy expiry is invisible to validation but not to `Revoke`: the reply changes exactly for an active, lapsed key
  whose expiry was written back (`KeyLifecycle.WriteBackVisibleToRevoke`).

Where comments and code disagree the model follows the code: the contributor annotation holds bare, not
namespace-qualified, names (maas-controller/pkg/controller/maas/maasauthpolicy_controller.go:842, 917-958); clean-up
waits 30 minutes and looks at the expiry time only, whatever maas-api/internal/api_keys/store_interface.go:72-74
says; a key id can be shorter than 12 characters (maas-api/internal/api_keys/keygen.go:37).

## Assumptions

- Kubernetes names are DNS labels in the sense of section 2.1 of RFC 1123: no `/`, `,` or `@`. The source's
  `namespace + "/" + name` strings are represented by the pair where nothing depends on the text.
- All MaaSAuthPolicies and MaaSSubscriptions live in one namespace (maas-controller/cmd/manager/main.go:429-435).
- Reconciles run one at a time, reads are current and API calls do not fail. Users may edit and delete policies,
  subscriptions, models and routes at any time, annotate or delete generated objects, but not edit their specs.
- Both route resolvers return the model's own namespace
  (maas-controller/pkg/controller/maas/providers_llmisvc.go:202-218, providers_external.go:227-231), so a model has at
  most one generated object of each kind.
- `Phases.FailedIff` needs distinct bare model names within a subscription, and admission in Degraded needs the first
  reference with the bare name to be the model asked for; the lemmas above say what happens otherwise.
- The controller reference of a TRLP is set by the controller only. Its garbage collection after the route is deleted
  is one of the deletions users and other controllers may make at any time.
- Time is a non-decreasing integer, and ids and hashes are fresh at every mint. SHA-256 (FIPS 180-4), the UUID
  parser, the entropy, the clock and the probes are parameters.

## Model

| member | source | states |
|---|---|---|
| `Strings.SplitJoin` | maas-controller/pkg/controller/maas/maasauthpolicy_controller.go:841-843 | splitting the joined contributor annotation gives back exactly the names, for separator-free names |
| `Strings.JoinSplit` | maas-controller/pkg/controller/maas/maasauthpolicy_controller.go:921-958 | a split annotation is the joining of its parts, all free of the separator |
| `Strings.JoinConcat` | maas-controller/pkg/controller/maas/maasauthpolicy_controller.go:841-843 | joining two lists puts one separator between them |
| `Strings.LessAt` | maas-api/internal/subscription/selector.go:612-622 | the order of texts is decided at the first difference, a proper prefix first |
| `Strings.TrimCuts` | maas-api/internal/subscription/selector.go:449-466 | trimming cuts white space off both sides and leaves a text that neither begins nor ends with any |
| `Strings.SpaceCodes` | maas-api/internal/subscription/selector.go:449-466 | white space is a fixed set of code points |
| `Strings.GlueInjective` | maas-api/internal/api_keys/keygen.go:81-84 | two parts joined by a delimiter determine both parts when the first parts are free of it |
| `Sorting.SortForgetsOrder` | maas-api/internal/subscription/selector.go:612-622 | a stable sort without ties gives one result for every arrangement of the input |
| `KeyCodec.AlphabetDigit` | maas-api/internal/api_keys/keygen.go:14-31 | the alphabet has 62 digits in the order of their weights, and only the first is zero |
| `KeyCodec.EncodeBase62` | maas-api/internal/api_keys/keygen.go:178-198 | terminates with the canonical base62 numeral of the big-endian input: right value, no leading zero unless it is zero |
| `KeyCodec.OneDigit` | maas-api/internal/api_keys/keygen.go:14-31 | the digits for 0 to 61 are 0-9, A-Z and a-z, in this order |
| `KeyCodec.ValueConcat` | maas-api/internal/api_keys/keygen.go:178-198 | positional notation: a digit weighs 62 times as much per place to the left |
| `KeyCodec.BigEndianConcat` | maas-api/internal/api_keys/keygen.go:178-198 | the first byte is the most significant |
| `KeyCodec.CanonicalUnique` | maas-api/internal/api_keys/keygen.go:178-198 | a number has one canonical numeral |
| `KeyCodec.LengthBound` | maas-api/internal/api_keys/keygen.go:178-198 | a canonical numeral has at most k digits iff its value is below 62^k |
| `KeyCodec.EncodingIsInjective` | maas-api/internal/api_keys/keygen.go:178-198 | on inputs of one length, encodings are equal iff the inputs are |
| `KeyCodec.KeyWidths` | maas-api/internal/api_keys/keygen.go:14-31 | 12 bytes take at most 17 characters, 32 bytes at most 43 |
| `KeyCodec.ScanBase62` | maas-api/internal/api_keys/keygen.go:167-174 | accepts exactly the base62 strings |
| `KeyCodec.ParsePrint` | maas-api/internal/api_keys/keygen.go:89-108 | parsing a printed key returns its key id and secret, for any separator-free id |
| `KeyCodec.PrintParse` | maas-api/internal/api_keys/keygen.go:89-108 | every key the parser accepts reprints to itself |
| `KeyCodec.ParseIff` | maas-api/internal/api_keys/keygen.go:89-108 | exactly the texts `sk-oai-{id}_{secret}` with non-empty parts parse, and the id ends at the first underscore |
| `KeyCodec.FormatIff` | maas-api/internal/api_keys/keygen.go:135-164 | exactly those texts with alphanumeric parts are well-formed |
| `KeyCodec.KeyText` | maas-api/internal/api_keys/keygen.go:45-131 | the hash is of id, NUL and secret; the shown prefix is the id cut to twelve characters and three dots |
| `KeyCodec.FormatAgreesWithParser` | maas-api/internal/api_keys/keygen.go:125-164 | a key passes the format check iff it parses into base62 parts, so the empty-hash branch of validation is unreachable |
| `KeyCodec.PreimageInjective` | maas-api/internal/api_keys/keygen.go:81-84 | accepted keys with NUL-free ids and one hash preimage are the same key |
| `KeyCodec.HashIdentifiesKey` | maas-api/internal/api_keys/keygen.go:125-164 | well-formed keys with one hash are equal unless the digest function collides |
| `KeyCodec.ParserAloneCollides` | maas-api/internal/api_keys/keygen.go:89-108 | two different keys the parser accepts share a preimage, so the alphabet check is needed |
| `KeyCodec.CollidesIff` | maas-api/internal/api_keys/keygen.go:81-108 | an accepted key shares its preimage with another accepted key iff the preimage has a second place to split; well-formed keys have none |
| `KeyCodec.GenerateApiKey` | maas-api/internal/api_keys/keygen.go:45-75 | a generated key passes the format check, parses back to the encodings of its entropy, has bounded width, and comes with its own hash and display prefix |
| `KeyStore.MockStore.AddKey` | maas-api/internal/api_keys/store_mock.go:43-83 | refuses an empty id, name or subscription without a change; otherwise stores an active, unused key |
| `KeyStore.MockStore.Get` | maas-api/internal/api_keys/store_mock.go:351-376 | reports the status the SQL expression computes, and changes nothing |
| `KeyStore.MockStore.GetByHash` | maas-api/internal/api_keys/store_mock.go:378-407 | finds a key with the hash whatever the iteration order, writes back a lapsed expiry, and answers iff the key is live |
| `KeyStore.MockStore.InvalidateAll` | maas-api/internal/api_keys/store_mock.go:409-422 | revokes exactly the owner's active keys and returns their number |
| `KeyStore.MockStore.Revoke` | maas-api/internal/api_keys/store_mock.go:424-440 | revokes an active key, and fails without a change on any other |
| `KeyStore.MockStore.UpdateLastUsed` | maas-api/internal/api_keys/store_mock.go:442-454 | changes the usage stamp of one key and nothing else |
| `KeyStore.MockStore.DeleteExpiredEphemeral` | maas-api/internal/api_keys/store_mock.go:458-480 | removes exactly the rows the SQL delete removes and returns their number |
| `KeyLifecycle.StepRefines` | maas-api/internal/api_keys/store_mock.go:43-480 | every store step does to the live keys what the ledger of mints and revocations records |
| `KeyLifecycle.RunRefines` | maas-api/internal/api_keys/store_mock.go:43-480 | after every run the store and the ledger hold the same live keys, at any later instant |
| `KeyLifecycle.HashesStayUnique` | maas-api/internal/api_keys/store_mock.go:43-83 | with fresh mints, no reachable state holds two keys with one hash |
| `KeyLifecycle.LookupMatchesLedger` | maas-api/internal/api_keys/store_mock.go:378-407 | a lookup answers iff the ledger has a live key with the hash, with that key's identity |
| `KeyLifecycle.MintToValidate` | maas-api/internal/api_keys/store_mock.go:378-407 | over every run, a minted key is found later iff it is unexpired and neither it nor its owner was revoked in between |
| `KeyLifecycle.InvalidationIsFinal` | maas-api/internal/api_keys/store_mock.go:378-440 | once revoked, or rejected as revoked or expired, a hash never validates again in the run |
| `KeyLifecycle.HousekeepingIsInvisible` | maas-api/internal/api_keys/store_mock.go:378-480 | runs with the same mints and revocations validate alike, whatever lookups, usage stamps and clean-ups they interleave |
| `KeyLifecycle.WriteBackKeepsStatus` | maas-api/internal/api_keys/store_postgres.go:226 | the lazy write-back changes no effective status now or later, and that status is the SQL one |
| `KeyLifecycle.CleanupRemovesOnlyTheDead` | maas-api/internal/api_keys/store_postgres.go:477-478 | clean-up removes exactly the rows of the SQL delete, all of them ephemeral and dead at every later instant |
| `KeyLifecycle.WriteBackVisibleToRevoke` | maas-api/internal/api_keys/store_mock.go:424-440 | in any store, the write-back of a key changes the reply of a later `Revoke` iff it is about that key and the key was active and lapsed; liveness is unaffected |
| `KeyLifecycle.BulkRevocationIsAFold` | maas-api/internal/api_keys/store_mock.go:409-440 | bulk revocation equals `Revoke` over the owner's keys in any order with any repetition, counts the revokes that succeed, and leaves other users' keys alone |
| `KeyMeaning.MintOutcome` | maas-api/internal/api_keys/store_mock.go:43-83 | which empty field refuses a mint with which error, and that nothing changes then |
| `KeyMeaning.MintedReads` | maas-api/internal/api_keys/store_mock.go:43-83 | a minted key reads back field by field, Active up to its expiry and Expired after it |
| `KeyMeaning.MintFrame` | maas-api/internal/api_keys/store_mock.go:43-83 | minting touches no other key |
| `KeyMeaning.RevokedReads` | maas-api/internal/api_keys/store_mock.go:424-440 | a revoked key reads Revoked at every instant and is otherwise unchanged; only keys that are stored as active can be revoked |
| `KeyMeaning.UsedReads` | maas-api/internal/api_keys/store_mock.go:442-454 | a usage stamp is the only change, of one key |
| `KeyMeaning.CleanupReads` | maas-api/internal/api_keys/store_mock.go:458-480 | clean-up removes exactly the ephemeral keys that expired more than thirty minutes ago and returns their number |
| `KeyMeaning.LookupReads` | maas-api/internal/api_keys/store_mock.go:378-407 | a lookup answers with the fields of the key while it is active and not past its expiry, and touches no other key |
| `KeyService.LifetimeBounds` | maas-api/internal/api_keys/service.go:73-110 | an accepted lifetime is in (0, 1h] for ephemeral keys and in (0, max days] otherwise, int64 overflow included |
| `KeyMeaning.LifetimeMeaning` | maas-api/internal/api_keys/service.go:73-110 | an hour for ephemeral keys, the configured days or 90 for others, as the default and as the cap; anything else is refused with its error |
| `KeyService.CapIsExactIff` | maas-api/internal/api_keys/service.go:73-110 | every request within the configured days is accepted iff the configuration is at most 106751 days |
| `KeyService.CheckExpiry` | maas-api/internal/api_keys/service.go:73-110 | computes the accepted lifetime, or the error of the first failing check |
| `KeyService.Bind` | maas-api/internal/api_keys/service.go:121-137 | an explicit request selects by name, any other the highest priority |
| `KeyService.BindingIsAccessible` | maas-api/internal/api_keys/service.go:121-137 | the subscription a key is bound to is one the user has access to |
| `KeyService.Service.CreateApiKey` | maas-api/internal/api_keys/service.go:69-166 | every refusal leaves the store unchanged; success stores one active key with the hash of the returned plaintext, which carries the given entropy, bound to the subscription the selector chooses from the list, and its expiry |
| `KeyMeaning.CreatedRecord` | maas-api/internal/api_keys/service.go:69-166 | the stored record of a creation, field by field, and that nothing else changes |
| `KeyMeaning.RefusedCreation` | maas-api/internal/api_keys/service.go:69-166 | a creation fails iff the lifetime, the selection or an empty field refuses it, with that error and without a change |
| `KeyMeaning.BoundSubscription` | maas-api/internal/api_keys/service.go:121-137 | a key is bound to an owned subscription that the request names, or without a name to an owned one that none precedes by priority, largest limit and name |
| `KeyService.Service.ValidateApiKey` | maas-api/internal/api_keys/service.go:178-271 | a malformed key is refused without touching the store; otherwise the verdict follows from one lookup of the hash |
| `KeyMeaning.ValidationMeaning` | maas-api/internal/api_keys/service.go:178-271 | each verdict from what the store holds: not found, revoked or expired, no subscription bound, a broken id, or the identity of the key |
| `KeyService.MintedKeyValidates` | maas-api/internal/api_keys/service.go:69-271 | over every run, a minted plaintext validates iff it is unexpired and neither it nor its owner was revoked, always for the minted user, groups and subscription |
| `KeyService.CreationMints` | maas-api/internal/api_keys/service.go:69-166 | a successful creation is one `AddKey` step of the store for the selected subscription, with a lifetime within the bounds |
| `KeyService.CreatedKeyValidates` | maas-api/internal/api_keys/service.go:69-271 | over every run, a key returned by creation validates iff it is unexpired and neither it nor its owner was revoked, for the user, groups and selected subscription, and expires within the bounds |
| `Selector.Select` | maas-api/internal/subscription/selector.go:110-203 | computes the specified answer or error for every list and query |
| `Selector.SelectByName` | maas-api/internal/subscription/selector.go:127-171 | a qualified match wins over a bare one; a bare match is tried only for names without a slash |
| `Selector.SelectByAccess` | maas-api/internal/subscription/selector.go:173-202 | none, one or several matches give not-found, the health-checked one, or an error naming all |
| `Selector.SelectHighestPriority` | maas-api/internal/subscription/selector.go:207-234 | computes the first accessible subscription in priority order |
| `Selector.GetAllAccessible` | maas-api/internal/subscription/selector.go:68-105 | lists the accessible Active or Degraded subscriptions that are not being deleted, by name |
| `Selector.SelectForgetsOrder` | maas-api/internal/subscription/selector.go:110-203 | permuting the lister's output never changes the result or the error |
| `Selector.HighestPriorityForgetsOrder` | maas-api/internal/subscription/selector.go:207-234 | the same for highest-priority selection |
| `SelectionOrder.HighestOrderFreeIff` | maas-api/internal/subscription/selector.go:207-234 | for any list, permutations never change the result iff nobody asks or all best accessible candidates have one response |
| `Selector.HighestPriorityIsMaximum` | maas-api/internal/subscription/selector.go:207-234 | an accessible subscription is returned iff it beats every other by (priority desc, largest limit desc, name asc) |
| `Selector.BareNameAcrossNamespaces` | maas-api/internal/subscription/selector.go:127-171 | with one name in two namespaces, a tie makes the answer depend on the order of the list |
| `SelectionOrder.AutomaticForgetsOrder` | maas-api/internal/subscription/selector.go:173-202 | automatic selection, its error message included, never depends on the order, whatever the names |
| `SelectionOrder.QualifiedForgetsOrder` | maas-api/internal/subscription/selector.go:127-171 | with unique namespace and name pairs, a qualified name finds the same subscription in every order |
| `SelectionOrder.OrderFreeIff` | maas-api/internal/subscription/selector.go:110-203 | no permutation of the list changes the result iff the request is not by bare name or all best candidates of that name give the same answer |
| `Selector.ExplicitReaches` | maas-api/internal/subscription/selector.go:127-171 | both spellings of a name reach that subscription and apply its access, model and health checks |
| `Selector.ListedCanBeSelected` | maas-api/internal/subscription/selector.go:68-171 | every listed entry is selected by either spelling, with the identical response |
| `Selector.SelectedSource` | maas-api/internal/subscription/selector.go:110-203 | what is selected is in the list, accessible, serves the model and is healthy; without a name it is the only match |
| `Selector.SelectedIsListed` | maas-api/internal/subscription/selector.go:68-203 | a subscription selected for a model, and not being deleted, is in the user's listing |
| `Selector.AutomaticIsSoleMatch` | maas-api/internal/subscription/selector.go:173-202 | automatic selection succeeds iff exactly one subscription matches and it is healthy, and agrees with naming it |
| `SelectionMeaning.LoneSelection` | maas-api/internal/subscription/selector.go:110-203 | against one subscription: answered iff it is named or no name is given, owned by the user or a trimmed group, serves the model and is healthy, with every field of the response; else which error |
| `SelectionMeaning.GroupOwner` | maas-api/internal/subscription/selector.go:449-466 | an Active subscription of one group answers iff some requested group trims to it |
| `SelectionMeaning.UserOwner` | maas-api/internal/subscription/selector.go:449-466 | an Active subscription of one user answers exactly that user |
| `SelectionMeaning.OwnersJoin` | maas-api/internal/subscription/selector.go:449-466 | joined owner lists admit whom either admits, and an empty list nobody |
| `SelectionMeaning.NamedSelection` | maas-api/internal/subscription/selector.go:127-171 | with many subscriptions a named one answers as if it were alone, and an unknown name is not found |
| `SelectionMeaning.SlashIsQualified` | maas-api/internal/subscription/selector.go:127-171 | a name with a slash is never taken as a bare one |
| `SelectionMeaning.NamedSource` | maas-api/internal/subscription/selector.go:127-171 | what a selection by name returns is owned, carries that name, and is mirrored field by field |
| `SelectionMeaning.NoneEligible` | maas-api/internal/subscription/selector.go:173-202 | without a name and an eligible subscription: not found |
| `SelectionMeaning.SoleEligible` | maas-api/internal/subscription/selector.go:173-202 | the only eligible subscription answers as if it were alone |
| `SelectionMeaning.SeveralEligible` | maas-api/internal/subscription/selector.go:173-202 | several eligible ones are an error that names exactly those, in priority order |
| `SelectionMeaning.RefusedOutright` | maas-api/internal/subscription/selector.go:68-234 | no identity and no subscription are refused before anything else |
| `SelectionMeaning.HighestMeaning` | maas-api/internal/subscription/selector.go:207-234 | highest priority returns an owned subscription that no owned one precedes by priority, largest limit and name, or an error iff the user owns none |
| `SelectionMeaning.ListingMeaning` | maas-api/internal/subscription/selector.go:68-105 | the listing has exactly one response per owned, Active or Degraded, not deleting subscription, sorted by name |
| `AuthPolicies.DeduplicateAndSort` | maas-controller/pkg/controller/maas/maasauthpolicy_controller.go:1312-1329 | the one strictly increasing arrangement of the input's elements, whatever the map order |
| `AuthPolicies.Reconciler.Collect` | maas-controller/pkg/controller/maas/maasauthpolicy_controller.go:400-432 | gathers exactly the names, groups and users of the live policies of a model, and fails iff a subject is not CEL safe |
| `AuthPolicies.Reconciler.DeleteModel` | maas-controller/pkg/controller/maas/maasauthpolicy_controller.go:961-990 | deletes the generated AuthPolicy iff it is managed |
| `AuthPolicies.Reconciler.ReconcileRef` | maas-controller/pkg/controller/maas/maasauthpolicy_controller.go:369-915 | leaves the aggregate of all live policies, deletes it for a missing model, keeps it otherwise; at most one write, none without a change |
| `AuthPolicies.AfterRefIdempotent` | maas-controller/pkg/controller/maas/maasauthpolicy_controller.go:859-908 | reconciling one reference twice is reconciling it once |
| `AuthPolicies.Reconciler.CleanupStale` | maas-controller/pkg/controller/maas/maasauthpolicy_controller.go:921-958 | deletes exactly the managed objects that list the policy and that it no longer references |
| `AuthPolicies.Reconciler.HandleDeletion` | maas-controller/pkg/controller/maas/maasauthpolicy_controller.go:992-1012 | meets the transition: referenced and listing objects deleted, then the finalizer released |
| `AuthPolicies.Reconciler.ReconcileModels` | maas-controller/pkg/controller/maas/maasauthpolicy_controller.go:369-915 | meets the per-model outcome up to the first failing reference, cleans up iff there is none, and reports it |
| `AuthPolicies.Reconciler.Reconcile` | maas-controller/pkg/controller/maas/maasauthpolicy_controller.go:255-303 | meets the whole transition, and succeeds iff no reference of a live policy errs |
| `AuthMeaning.UnionIff` | maas-controller/pkg/controller/maas/maasauthpolicy_controller.go:400-432 | an object is the aggregate iff it lists exactly the groups, users and names of the live policies that reference the model, each once and in order, and targets its route |
| `AuthMeaning.LiveReconcile` | maas-controller/pkg/controller/maas/maasauthpolicy_controller.go:369-958 | without errors: unions on served models, nothing on missing ones, stale objects removed, objects annotated "false" and everything else untouched |
| `AuthMeaning.ErringReconcile` | maas-controller/pkg/controller/maas/maasauthpolicy_controller.go:369-398 | the references before the first error are rebuilt and nothing else changes |
| `AuthMeaning.DeletingReconcile` | maas-controller/pkg/controller/maas/maasauthpolicy_controller.go:992-1012 | finalization removes the objects of referenced models and those that name the policy, unless annotated "false", and then the policy |
| `AuthMeaning.OptOutIff` | maas-controller/pkg/controller/maas/annotations.go:25-35 | where a live policy reaches a served model, its object is the union afterwards iff it is not annotated "false" or was the union before |
| `AuthConvergence.AggregateLists` | maas-controller/pkg/controller/maas/maasauthpolicy_controller.go:841-843 | the contributor annotation of an aggregate names exactly the live policies |
| `AuthConvergence.ExactFate` | maas-controller/pkg/controller/maas/maasauthpolicy_controller.go:369-1012 | an exact object changes only when a deleting policy that references its model is finalized |
| `AuthConvergence.SettledIsFixed` | maas-controller/pkg/controller/maas/maasauthpolicy_controller.go:369-958 | once settled, no reconcile of any policy changes an object |
| `AuthConvergence.AfterFirstRound` | maas-controller/pkg/controller/maas/maasauthpolicy_controller.go:369-1012 | after one round deletions are done, and keys nobody writes hold their old object unless some policy kills it |
| `AuthConvergence.TwoRoundsSettle` | maas-controller/pkg/controller/maas/maasauthpolicy_controller.go:369-1012 | two rounds in any order settle every key, errors or not, with the exact final object |
| `AuthConvergence.ErrorFreeKeys` | maas-controller/pkg/controller/maas/maasauthpolicy_controller.go:369-958 | without errors a key is written iff its route resolves and a live policy references it; the object of a missing model has a killer, and that of an unreferenced one iff an existing policy claims it |
| `AuthConvergence.ExactIsUnion` | maas-controller/pkg/controller/maas/maasauthpolicy_controller.go:400-432 | an object is the aggregate iff its groups, users and names are the sorted, duplicate-free unions |
| `AuthConvergence.ErrorFreeConvergence` | maas-controller/pkg/controller/maas/maasauthpolicy_controller.go:369-1012 | two error-free rounds leave exactly the sorted union of live policies on served models and nothing on missing ones; a model without a live policy ends with nothing iff it had nothing or a policy that still exists is named by its object or is being deleted and references it |
| `AuthConvergence.Convergence` | maas-controller/pkg/controller/maas/maasauthpolicy_controller.go:369-958 | when every object names an existing policy, also nothing for models without a live policy |
| `AuthConvergence.ConvergesIff` | maas-controller/pkg/controller/maas/maasauthpolicy_controller.go:369-958 | with errors, a served model converges iff some live policy reaches it, or its object was right and no deleting policy references it |
| `AuthConvergence.UnsafeSubjectBlocksAll` | maas-controller/pkg/controller/maas/helpers.go:25-30 | one CEL-unsafe subject keeps every policy from writing that model |
| `AuthConvergence.MisquotedNeverConverges` | maas-controller/pkg/controller/maas/maasauthpolicy_controller.go:400-432 | a concrete cluster in which no sequence of reconciles gives a served, referenced model an AuthPolicy |
| `AuthConvergence.ThirdRoundWritesNothing` | maas-controller/pkg/controller/maas/maasauthpolicy_controller.go:859-908 | after two rounds, any further reconciles leave the objects and the count of API writes as they are |
| `AuthConvergence.DeletionLeavesAGap` | maas-controller/pkg/controller/maas/maasauthpolicy_controller.go:992-1012 | a concrete step that deletes an exact AuthPolicy while a live policy remains |
| `AuthConvergence.DeletionGapIff` | maas-controller/pkg/controller/maas/maasauthpolicy_controller.go:961-1012 | finalizing a policy deletes a managed AuthPolicy iff the policy references the model or is named as a contributor |
| `TokenLimits.RefusedRates` | maas-controller/pkg/controller/maas/maassubscription_controller.go:86-122 | of the rates the CRD admits, exactly the windows beyond 8784 hours are refused |
| `TokenMeaning.AcceptableIff` | maas-controller/pkg/controller/maas/maassubscription_controller.go:86-122 | a rate is accepted iff its limit is in 1 to 1000000000 and its window is a number of seconds, minutes or hours of one to four digits up to 366 days |
| `TokenLimits.LimitKeyInjective` | maas-controller/pkg/controller/maas/maassubscription_controller.go:560-584 | within one namespace, subscriptions never share a limit key for a model |
| `TokenLimits.LimitKeyAcrossNamespaces` | maas-controller/pkg/controller/maas/maassubscription_controller.go:560-584 | across namespaces limit keys can collide where subscription keys differ |
| `TokenLimits.LimitKeysCollideIff` | maas-controller/pkg/controller/maas/maassubscription_controller.go:560-584 | limit keys are equal iff the hyphenated names are, hence never within a namespace or between hyphen-free ones |
| `TokenLimits.SubscriptionKeyInjective` | maas-controller/pkg/controller/maas/maasauthpolicy_controller.go:777-786 | the selected subscription key determines namespace, subscription and model |
| `TokenLimits.ExactContributors` | maas-controller/pkg/controller/maas/maassubscription_controller.go:509-540 | the contributor annotation splits into exactly the effective subscriptions |
| `TokenLimits.Exactness` | maas-controller/pkg/controller/maas/maassubscription_controller.go:443-680 | reconciling a served, managed model leaves one limit per live subscription with valid rates, from its first valid reference, without collision, or no policy when there is none, iff no foreign route controls a policy that is still needed; otherwise it errs |
| `TokenLimits.Isolation` | maas-controller/pkg/controller/maas/maassubscription_controller.go:560-584 | a request's subscription key satisfies its own subscription's entry and no other |
| `Phases.Distinct` | maas-controller/pkg/controller/maas/maassubscription_controller.go:129-165 | the references visited are those of the spec, once each |
| `Phases.DeriveFinalPhase` | maas-controller/pkg/controller/maas/maassubscription_controller.go:265-322 | the counting loops compute the specified phase |
| `Phases.ActiveIff` | maas-controller/pkg/controller/maas/maassubscription_controller.go:265-322 | for all inputs: Active iff there is a model status and every status of both lists is Ready |
| `Phases.FailedIff` | maas-controller/pkg/controller/maas/maassubscription_controller.go:265-322 | with distinct names: Failed iff every Ready model has a BackendNotReady policy |
| `Phases.AdjustmentIsNoOpIff` | maas-controller/pkg/controller/maas/maassubscription_controller.go:388-409 | after back-propagation the race adjustment counts nothing iff no served and unbacked models share a bare name |
| `Phases.ClashReportsFailed` | maas-controller/pkg/controller/maas/maassubscription_controller.go:265-322 | on such a clash a subscription that is Active alone is reported Failed |
| `Subscriptions.RatesFor` | maas-controller/pkg/controller/maas/maassubscription_controller.go:509-540 | the rates of the first reference whose rates all validate, with the default for a reference without rates |
| `TokenMeaning.RatesIff` | maas-controller/pkg/controller/maas/maassubscription_controller.go:509-540 | index by index: a subscription contributes all rates, in order, of its first reference to the model without an unacceptable one, 100 a minute if that has none, and nothing iff every reference has an unacceptable one |
| `Subscriptions.Reconciler.FindLive` | maas-controller/pkg/controller/maas/helpers.go:35-51 | exactly the live subscriptions that reference the model |
| `Subscriptions.Reconciler.BuildLimits` | maas-controller/pkg/controller/maas/maassubscription_controller.go:509-584 | one entry per effective subscription and their sorted names, whatever the list order |
| `Subscriptions.Reconciler.DeleteModel` | maas-controller/pkg/controller/maas/maassubscription_controller.go:726-759 | deletes the generated TRLP iff it is managed |
| `Subscriptions.Reconciler.ReconcileModel` | maas-controller/pkg/controller/maas/maassubscription_controller.go:443-680 | leaves the specified TRLP with at most one write, and fails iff the kind is unknown while a live subscription references the model, or another route controls a TRLP that must be updated |
| `Subscriptions.Reconciler.CleanupStale` | maas-controller/pkg/controller/maas/maassubscription_controller.go:686-723 | deletes exactly the managed, listed, no longer referenced TRLPs, one write at a time |
| `Subscriptions.Reconciler.Pass` | maas-controller/pkg/controller/maas/maassubscription_controller.go:418-439 | meets the per-model outcome up to the first error, makes no write without an effect, and every intermediate state is a stage of it |
| `Subscriptions.Reconciler.HandleDeletion` | maas-controller/pkg/controller/maas/maassubscription_controller.go:761-791 | meets the transition, returns every intermediate state, and succeeds iff no reference errs |
| `Subscriptions.Reconciler.Refresh` | maas-controller/pkg/controller/maas/maassubscription_controller.go:349-413 | rebuilds or only cleans up depending on valid models, and derives the status from the state after that |
| `Subscriptions.Reconciler.Reconcile` | maas-controller/pkg/controller/maas/maassubscription_controller.go:325-416 | meets the whole transition, status included, and reports an error iff a reference errs |
| `TokenMeaning.LiveReconcile` | maas-controller/pkg/controller/maas/maassubscription_controller.go:325-439 | without errors: exactly the limits of the live subscriptions on served models, removal where none is needed, stale TRLPs removed, those annotated "false" and everything else untouched |
| `TokenMeaning.DeletingReconcile` | maas-controller/pkg/controller/maas/maassubscription_controller.go:761-791 | deletion does the same and then drops the subscription, iff there is no error |
| `TokenMeaning.ErringReconcile` | maas-controller/pkg/controller/maas/maassubscription_controller.go:418-439 | the references before the first error are rebuilt and nothing else changes |
| `TokenMeaning.OptOutIff` | maas-controller/pkg/controller/maas/annotations.go:25-35 | where a reconcile without errors gets to a served, limited model, its TRLP enforces the limits afterwards iff it is not annotated "false" or did before |
| `TokenMeaning.PhaseMeaning` | maas-controller/pkg/controller/maas/maassubscription_controller.go:265-322 | Active iff there is a reference and every referenced model is served with an accepted TRLP; Failed, with distinct names, iff no referenced model is backed |
| `TokenMeaning.StatusMeaning` | maas-controller/pkg/controller/maas/maassubscription_controller.go:325-416 | the written status, entry by entry with its reasons, and its phase; after an error Failed with the former limits |
| `Subscriptions.Reconciler.CheckModels` | maas-controller/pkg/controller/maas/maassubscription_controller.go:129-165 | one status per distinct reference, Ready iff the model exists, deleting or not |
| `Subscriptions.Reconciler.CheckLimits` | maas-controller/pkg/controller/maas/maassubscription_controller.go:168-232 | one status per distinct reference, Ready iff the route resolves and the TRLP is accepted |
| `Subscriptions.Reconciler.ComputeStatus` | maas-controller/pkg/controller/maas/maassubscription_controller.go:384-413 | combines health, back-propagation and phase into the specified status |
| `Subscriptions.NoGap` | maas-controller/pkg/controller/maas/maassubscription_controller.go:761-791 | in every intermediate state, each other effective subscription keeps the limit it had on every served model of the deleted one |
| `Subscriptions.DeletedLeavesNoLimit` | maas-controller/pkg/controller/maas/maassubscription_controller.go:761-791 | afterwards no managed TRLP on those models has a limit for the deleted subscription |
| `Subscriptions.ReleasedIff` | maas-controller/pkg/controller/maas/maassubscription_controller.go:761-791 | the finalizer is released iff no referenced model errs |
| `Subscriptions.ConflictStays` | maas-controller/pkg/controller/maas/maassubscription_controller.go:640-643 | a TRLP controlled by another route is left as it was by every subscription that references the model; deletions do not complete and live subscriptions are Failed |
| `Subscriptions.RetargetedModelIsStuck` | maas-controller/pkg/controller/maas/maassubscription_controller.go:607-643 | a concrete cluster in which a retargeted model blocks the deletion of a subscription for good |
| `Subscriptions.GapIff` | maas-controller/pkg/controller/maas/maassubscription_controller.go:686-723 | any reconcile takes away another subscription's limit on a served model iff it succeeds and cleans up a managed TRLP that lists it, on a model it no longer references |
| `Subscriptions.DeletionGapIff` | maas-controller/pkg/controller/maas/maassubscription_controller.go:761-791 | the same for completed deletions |
| `Subscriptions.DroppedModelSeesAGap` | maas-controller/pkg/controller/maas/maassubscription_controller.go:686-723 | a concrete deletion after which another live subscription has lost its limit on a served model |
| `TokenConvergence.OneRoundSettles` | maas-controller/pkg/controller/maas/maassubscription_controller.go:418-791 | one error-free round in any order settles every key, with the exact final TRLP |
| `TokenConvergence.SecondRoundWritesNothing` | maas-controller/pkg/controller/maas/maassubscription_controller.go:640-676 | after it, further reconciles leave the TRLPs and the count of API writes as they are |
| `TokenConvergence.ErrorFreeConvergence` | maas-controller/pkg/controller/maas/maassubscription_controller.go:418-791 | served models end with exact limits; an unreferenced one with none iff it had none, a deleting subscription references it, or one that dropped it is listed; a missing but referenced one with none iff it had none, a subscription visits it, or one that dropped it is listed |
| `TokenConvergence.Convergence` | maas-controller/pkg/controller/maas/maassubscription_controller.go:418-791 | when every TRLP names an existing subscription, also none for every unreferenced model |
| `TokenErrors.SettlesIff` | maas-controller/pkg/controller/maas/maassubscription_controller.go:418-791 | over any sequence of reconciles, errors or not, a served model ends exact iff it was, or some step reached it without an error, or removed a TRLP not needed |
| `TokenErrors.ConvergesIff` | maas-controller/pkg/controller/maas/maassubscription_controller.go:418-791 | when no conflicting TRLP lists a subscription that dropped its model, a round leaves a served model exact iff it was, or some subscription gets as far as it at the start, or cleans up a TRLP not needed |
| `TokenConvergence.MissingModelKeepsItsPolicy` | maas-controller/pkg/controller/maas/maassubscription_controller.go:354-382 | a concrete cluster in which the TRLP of a missing model is never deleted |
| `TokenErrors.ConflictIsStuck` | maas-controller/pkg/controller/maas/maassubscription_controller.go:640-643 | through any reconciles, a TRLP controlled by another route stays iff no successful reconcile of a subscription that dropped the model cleans it up |
| `ModelRefs.Reconciler.Reconcile` | maas-controller/pkg/controller/maas/maasmodelref_controller.go:103-126 | meets the transition for live, deleting and absent models |
| `ModelRefs.FinalizationCleans` | maas-controller/pkg/controller/maas/maasmodelref_controller.go:185-249 | finalization removes both generated policies of the model iff they are not annotated "false", and touches no other model |
| `ModelRefs.LiveModel` | maas-controller/pkg/controller/maas/maasmodelref_controller.go:103-126 | any other reconcile of a model at most adds the finalizer and touches no policy |
| `ControlPlane.InvStep` | maas-controller/pkg/controller/maas/maasauthpolicy_controller.go:255-303 | every controller or user step keeps the invariant about contributors, finalizers and released policies |
| `ControlPlane.InvHolds` | maas-controller/pkg/controller/maas/maasauthpolicy_controller.go:255-303 | the invariant holds in every reachable state |
| `ControlPlane.NoOrphans` | maas-controller/pkg/controller/maas/maasauthpolicy_controller.go:921-1012 | in every reachable state, a never-opted-out AuthPolicy names a policy that exists |
| `ControlPlane.NoStaleContributor` | maas-controller/pkg/controller/maas/maasauthpolicy_controller.go:992-1012 | over every run: after its release, and until one of its name is created again, a policy is named by no AuthPolicy of a model, managed or not, iff none that named it was opted out at the release |
| `ControlPlane.NeverOptedOutIsNotStale` | maas-controller/pkg/controller/maas/maasauthpolicy_controller.go:992-1012 | in particular by no never-opted-out AuthPolicy |
| `ControlPlane.ReleaseExactly` | maas-controller/pkg/controller/maas/maasauthpolicy_controller.go:961-1012 | the objects that still name a policy right after its release are exactly those that named it and were opted out |
| `ControlPlane.OptingBackInIsStale` | maas-controller/pkg/controller/maas/annotations.go:25-35 | such an object, opted in again, is managed and names a policy that is gone |
| `ControlPlane.ReachableIsSteady` | maas-controller/pkg/controller/maas/maasauthpolicy_controller.go:255-303 | every reachable state in which nothing is opted out meets the hypotheses of convergence; if nothing ever was, every object names an existing policy |
| `ControlPlane.RunsConverge` | maas-controller/pkg/controller/maas/maasauthpolicy_controller.go:369-958 | convergence from every reachable state in which nothing is opted out and no reference errs, with the exact condition for models that lost their last live policy |
| `ControlPlane.OptedOutIsUntouched` | maas-controller/pkg/controller/maas/annotations.go:25-35 | no step of any of the three reconcilers changes an opted-out generated policy |
| `ControlPlane.OptOutFrame` | maas-controller/pkg/controller/maas/annotations.go:25-35 | over every stretch of a run, an opted-out AuthPolicy stays as it is until a user annotates or deletes that object |
| `ControlPlane.TokenOptOutFrame` | maas-controller/pkg/controller/maas/annotations.go:25-35 | the same for TRLPs, up to the acceptance in their status |
| `Releases.StaleRun` | maas-controller/pkg/controller/maas/maasauthpolicy_controller.go:992-1012 | a run from a cluster without policies, subscriptions and generated objects that ends with a managed AuthPolicy naming a policy that is gone |
| `Releases.StaleNeverConverges` | maas-controller/pkg/controller/maas/maasauthpolicy_controller.go:255-303 | from its last state no sequence of reconciles removes that AuthPolicy, although no reference errs and no live policy references the model |
| `Releases.AllPoliciesExistIff` | maas-controller/pkg/controller/maas/maasauthpolicy_controller.go:369-1012 | over every run: all policies named by AuthPolicies exist in all states iff no step abandons one, by deletion before the first reconcile or release under an opt-out |
| `Releases.TokenReleaseExactly` | maas-controller/pkg/controller/maas/maassubscription_controller.go:761-791 | the TRLPs that still name a subscription right after its release are exactly those that named it and are opted out, or whose route is missing while others reference the model |
| `Releases.NoStaleSubscription` | maas-controller/pkg/controller/maas/maassubscription_controller.go:686-791 | over every run: no later state has a TRLP naming a released subscription iff none escaped the release |
| `Releases.AllExistIff` | maas-controller/pkg/controller/maas/maassubscription_controller.go:443-791 | over every run: all subscriptions named by TRLPs exist in all states iff no step abandons one |
| `Releases.NoTokenOrphans` | maas-controller/pkg/controller/maas/maassubscription_controller.go:443-791 | in such a run every TRLP names a subscription that exists |
| `Releases.OrphanRun` | maas-controller/pkg/controller/maas/maassubscription_controller.go:462-466 | a run from a cluster without policies, subscriptions and generated objects that ends with a TRLP whose only contributor is gone |
| `Releases.BereftRun` | maas-controller/pkg/controller/maas/maassubscription_controller.go:354-382 | a run that ends with the TRLP of a deleted model that its only subscription still references |
| `Releases.TokenRunsConverge` | maas-controller/pkg/controller/maas/maassubscription_controller.go:418-791 | TRLP settlement from every reachable state in which nothing is opted out and no reference errs, with exact conditions for unreferenced and missing models |
| `Releases.ReachableTokensAreSteady` | maas-controller/pkg/controller/maas/maassubscription_controller.go:325-416 | every reachable state without an opted-out TRLP meets the hypotheses of settlement; if nobody was abandoned, every TRLP names an existing subscription |
| `Releases.TargetNeverMoves` | maas-controller/pkg/controller/maas/maassubscription_controller.go:607-643 | over every run, a TRLP targets the route it was created for as long as it exists |
| `Releases.FinalizedForGood` | maas-controller/pkg/controller/maas/maasmodelref_controller.go:185-249 | over every run: no generated policy exists for a finalized model, until it is created again, iff none was opted out at the finalization |
| `Admission.AdmittedIsEnforced` | maas-api/internal/subscription/selector.go:502-599 | under a freshly written status, a model that passes the health gate has an accepted TRLP; in Active always, in Degraded when its bare name is unambiguous and rate limited |
| `Admission.DegradedGateIff` | maas-api/internal/subscription/selector.go:556-599 | the gate of a Degraded subscription admits a model iff its first reference has no limits or the first reference with its bare name has an accepted TRLP |
| `Admission.DistinctIsUnambiguous` | maas-api/internal/subscription/selector.go:556-599 | distinct bare names and a limit on every reference make every model of the subscription unambiguous |
| `Admission.SelectedIsEnforced` | maas-api/internal/subscription/selector.go:110-203 | a selection for a model implies an accepted TRLP, and its requests are limited iff the spec has valid rates for the model |
| `Admission.EnforcedExactly` | maas-controller/pkg/controller/maas/maassubscription_controller.go:443-680 | after a reconcile an entry for the subscription exists iff it has effective rates |
| `Admission.EnforcedIsServed` | maas-api/internal/subscription/selector.go:502-599 | once every referenced model is served with an accepted TRLP, a reconcile makes the selector admit every owner for each of them |
| `Admission.RefusedRatesGoUnlimited` | maas-controller/pkg/controller/maas/maassubscription_controller.go:530-535 | a concrete cluster in which a subscription with refused rates is Active and selected while no limit applies to it |
| `Admission.SharedNameSlipsThrough` | maas-api/internal/subscription/selector.go:556-599 | a concrete cluster in which a Degraded subscription is selected for a model whose TRLP is not accepted |
| `Listing.DiscoveredToModels` | maas-api/internal/models/discovery.go:179-212 | the named models of the answer with the original's fallbacks, or the original when none is named |
| `Listing.BlockOwner` | maas-api/internal/models/maasmodelref.go:90-104 | a probe never changes the owner of what it returns |
| `Listing.FilterModelsByAccess` | maas-api/internal/models/discovery.go:94-168 | under every schedule the output is the concatenation of the models' blocks in some order, none lost or doubled; with distinct owners its first answer for each key does not depend on the order |
| `Listing.InterleavingIsInvisible` | maas-api/internal/models/discovery.go:94-168 | with distinct owners, the first answer for a key is the same for every order |
| `Listing.FilterModelsBySubscription` | maas-api/internal/handlers/models.go:404-427 | keeps exactly the models owned by a reference of the subscription, in order, and all when there is no reference |
| `Listing.MergeModels` | maas-api/internal/handlers/models.go:246-318 | per key: the first answer creates the entry, later subscriptions are added once |
| `Listing.Flatten` | maas-api/internal/handlers/models.go:246-318 | the table's entries, strictly sorted by (id, url, ownedBy), whatever the map order |
| `Listing.AddSubscription` | maas-api/internal/handlers/models.go:246-318 | one round of the loop merges the answer each key's owner gives, whatever the schedule |
| `Listing.ListModels` | maas-api/internal/handlers/models.go:246-318 | whatever the scheduler does, the result is strictly sorted and holds exactly the entries the probe answers determine |
| `Listing.ScheduleIndependent` | maas-api/internal/handlers/models.go:246-318 | two runs over the same answers return the identical list |
| `Listing.EntryCarriesItsSubscriptions` | maas-api/internal/handlers/models.go:165-172 | a model is listed iff some subscription's probe returned it, and carries exactly those subscriptions, once each |
| `ListingMeaning.ListedIsGranted` | maas-api/internal/handlers/models.go:246-318 | every listed model comes from one that some subscription covers and its probe grants, shows what the first of those returned, and carries exactly the subscriptions that returned it |
| `ListingMeaning.GrantedIsListed` | maas-api/internal/handlers/models.go:246-318 | whatever some subscription returns is listed under its key with that subscription |
| `ListingMeaning.ListedIff` | maas-api/internal/models/discovery.go:94-168 | a model has an entry iff some subscription covers it and its probe, or readiness if external, grants it |
| `ListingMeaning.ListingOrder` | maas-api/internal/handlers/models.go:246-318 | entries are ordered by id, then URL, then owner, without repetition |

## Left out

- HTTP: Gin handlers, probing, JSON, retries and timeouts; a probe is an arbitrary fixed function of model and subscription, and a URL that cannot be joined counts as a denied probe.
- SQL execution, migrations and connection handling; only the predicates for status and clean-up are kept.
- Search and list ordering and pagination of API keys.
- The text of CEL and OPA rules, their evaluation by Authorino and Kuadrant, and cache lifetimes; of the AuthPolicy the subjects, contributors and route are kept, of the TRLP the limits and the subscription key each compares with.
- Status messages and conditions, the phase of a MaaSAuthPolicy, the duplicate-priority scan and the watch mappers.
- Stale caches, API errors, write conflicts, foreign finalizers, and owner-reference garbage collection other than as a deletion at an arbitrary time.
- Decoding of unstructured MaaSSubscriptions (billing rates, int32 ranges) and `ListAccessibleForModel`.
- Model aliases in the listing.
- The Tenant pipeline, the ExternalModel reconciler, configuration, TLS and logging.
