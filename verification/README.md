# kube-oidc-proxy: a verified model

kube-oidc-proxy stands in front of a Kubernetes API server. It authenticates clients by OIDC or by
token review, decides as whom a request may act, rewrites the path for the client's tenant and
region, and forwards the request. This project models that logic in Dafny and proves what it
guarantees. `dafny verify dfyconfig.toml` checks all of it.

## What is modelled

**The mapping table.** `MappingProtocol` is a transition system: kubelet's `..data` swaps, renames,
removals and in-place writes; a load that takes the lock, opens, reads in pieces, parses and assigns;
the watcher's event queue, which may lose events; registration after the first load; and lookups under
the read lock. The theorems are about every interleaving. `MappingManagers` is the object itself, one
critical section per method.

**The path rewriter.** `PathSegments` says on raw segments, empty ones included, what the two stages
compute, and proves the one-stage closed form, exactly when an index runs past the end, and exactly
when a mapped tenant is confined to its own namespace. `NamespaceRoundTripper` holds the loops over
arrays, proved against it; `Requests` the URL that copies of a request share.

**The check of impersonation headers.** Go visits the header map in any order, so an order is a
parameter everywhere (`Orders`). `Impersonation` proves soundness and completeness against an arbitrary
oracle for SubjectAccessReviews, when the order matters and when it does not, what the target holds and
what is forwarded. `HeaderRules` says it once more by literal key: which resource each value is reviewed
as, what a refusal says, and which field of the target it fills. `SubjectAccessReviews` is the check
as it runs, on heap objects, with a ghost trace of reviews.

**The chain.** `Chain.Served` names the one outcome of a request as a function of settings, wiring,
authenticator, token review and headers; the theorems there say exactly when each outcome occurs.
An impersonated request carries the URL that the path rewriter makes of it. `Forwarding` spells the
outcomes out field by field: statuses, errors, identity, groups, extras, headers and URL. `Proxies` is
the proxy object: construction, `Run`, the handlers, which update the inbound user's own map in place, and
`RoundTrip`, all proved against `Served`. `Runs` says what a sequence of requests leaves when their
users share maps. `RequestContext` is the request's context.

**Base32 and Dex names.** `Base32` is the recursive encoder with its bit masks and five tails, proved
equal to the big-endian bit stream of section 6 of RFC 4648, with a decoder that inverts it. `Dex`
proves that names lose nothing.

**Printers and parsers.** `Csv` and `FlagValue` are the key=value flag over one record of section 2 of
RFC 4180; `AccessLog` the X-Forwarded-For filter; `StringSlices` the multiset comparison.

### Where the code differs from what is written about it

The model follows the code.

- docs/tasks/no-impersonation.md:3-8 says that the bearer token is kept. Nothing calls
  `WithBearerToken` (pkg/proxy/context/context.go:64-66), so `RoundTrip` adds an empty `Authorization`
  value (`Forwarding.PlainExactly`, `RequestContext.FirstAddressStays`).
- With token review or without impersonation, `Run` redirects the namespace transport to the transport
  without credentials (pkg/proxy/proxy.go:185-187), and impersonated requests then use that one too.
- The UID is reviewed and put on the target, but the configuration that is forwarded has no UID
  (pkg/proxy/handlers.go:205-213).
- Without a region in the path, the second stage takes "namespaces" itself for the region, and a later
  "namespaces" of the client decides which namespace is asked for
  (`PathSegments.AnotherNamespaceIsNamed`; exactly when, `PathSegments.MappedTenantIsConfined`).
- An extra whose name holds a slash is reviewed under the part before it, but filled in under the whole
  name (`HeaderRules.ExtraHeader`). `net/http` passes no such header on.
- An error of the API server whose text happens to contain "not allowed to impersonate" answers 403
  (`Forwarding.StatusExactly`).
- "apis" is not "api": a path outside the core group that has no tenant in front loses its first segment
  (`PathSegments.OnlyTheCoreGroupNeedsNoTenant`).
- pkg/proxy/namespace_round_tripper.go:215 indexes without a bounds check, so listing or naming a
  namespace panics (`PathSegments.NamespaceRequestsPanic`).
- A swap between the first load and the registration of the watch is missed
  (`MappingProtocol.ASwapBeforeTheWatchIsMissed`) until the next relevant event
  (`MappingProtocol.CurrentExactly`), and a write to the very file that is being read mixes old and new
  contents (`MappingProtocol.AWriteDuringALoadMixes`).
- The base32 check refuses only elements of 256 and above; negative ones pass, and encode like their
  low bytes (`Base32.NegativeElementsCollide`).
- Of two spellings of one header the later one wins, so the target depends on the order of the map
  (`Impersonation.TwoSpellingsDependOnTheOrder`). `net/http` makes no such headers.
- Where the inbound user has no groups, UID or extras, values that the client or the configuration puts under
  those record keys stay, and the forwarded record then names what the user does not have
  (`Chain.ForgedGroupsAreForwarded`; exactly when, `Chain.OriginalUserIsForwarded`).

## Model

| member | source | states |
|---|---|---|
| `MappingProtocol.TableChangesOnlyByAGoodLoad` | pkg/proxy/namespace_round_tripper.go:48-69 | of all steps of the protocol, only the end of a load whose bytes parse changes the table, and then all of it |
| `MappingProtocol.InitEstablishesInv` | pkg/proxy/namespace_round_tripper.go:34-45 | the invariant of files, table, answers, phases and freshness holds before the process starts, over any file system |
| `MappingProtocol.StepKeepsInv` | pkg/proxy/namespace_round_tripper.go:34-118 | every step keeps it: in particular, once the watch is registered, no change is unnoticed, or an event is pending, or the last load failed, or the table is current |
| `MappingProtocol.RunKeepsInv` | pkg/proxy/namespace_round_tripper.go:34-118 | so every run does, in every interleaving |
| `MappingProtocol.CurrentExactly` | pkg/proxy/namespace_round_tripper.go:34-110 | in any run that has come to rest with the last load good and no event lost, the table is made from the newest contents if and only if a relevant event was queued since the registration, or the table was current at the registration; and it was if nothing changed before |
| `MappingProtocol.LookupsAnswerTheNewestContents` | pkg/proxy/namespace_round_tripper.go:71-118 | under that condition the next lookup answers from the newest contents |
| `MappingProtocol.UneventfulRunsChangeNothing` | pkg/proxy/namespace_round_tripper.go:86-108 | from an idle state, a run without file changes and relevant events leaves table and disk as they are, so what was missed stays missed |
| `MappingProtocol.DrainingBringsTheTableUpToDate` | pkg/proxy/namespace_round_tripper.go:86-108 | left alone with a file that parses, the event loop empties its queue, and one relevant event is enough to make the table current |
| `MappingProtocol.SwapsReachTheTable` | pkg/proxy/namespace_round_tripper.go:86-108 | a swap of "..data", or a rename onto the mapping file, while the watch is idle: with whatever events still queued, the event loop left alone ends with the table of the new contents |
| `MappingProtocol.NothingIsHeldBack` | pkg/proxy/namespace_round_tripper.go:71-110 | the environment of the protocol: while the watch runs, swaps, removals, writes in place, any events, failing reads, a closing channel and lookups are all possible steps |
| `MappingProtocol.LoadStepsReachCurrent` | pkg/proxy/namespace_round_tripper.go:48-69 | an undisturbed load, from any state that holds the lock, ends with the whole current file: the parsed table, or the old one when it does not parse |
| `MappingProtocol.TablesAreWholeContents` | pkg/proxy/namespace_round_tripper.go:48-118 | in every interleaving of swaps, in-place writes, reloads and lookups in which no write hits the file that a load is reading, the table and every answer ever given come from one whole published content that parsed |
| `MappingProtocol.AWriteDuringALoadMixes` | pkg/proxy/namespace_round_tripper.go:52-67 | conversely, in every state in which a write hits the file being read, the load ends with the start of the old contents and the rest of the new ones; the table is made from a whole content exactly when that mixture is one |
| `MappingProtocol.AnswersAreFinal` | pkg/proxy/namespace_round_tripper.go:113-118 | the answer a request got stays what it was, whatever is reloaded later |
| `MappingProtocol.ASwapBeforeTheWatchIsMissed` | pkg/proxy/namespace_round_tripper.go:38-43 | for all two different contents, a run with a swap between the first load and the registration: all is quiet, nothing failed, and the table is the old one |
| `MappingProtocol.AnInPlaceWriteCanTearALoad` | pkg/proxy/namespace_round_tripper.go:52-67 | for all two contents and every place to cut them, a run from the start of the process makes its table from the start of the one and the end of the other |
| `MappingManagers.MappingManager.New` | pkg/proxy/namespace_round_tripper.go:34-45 | there is a manager exactly when the first load succeeds, and its table is what was read |
| `MappingManagers.MappingManager.LoadMappings` | pkg/proxy/namespace_round_tripper.go:48-69 | the new table and the error are those of AfterLoad |
| `MappingManagers.LoadsExactly` | pkg/proxy/namespace_round_tripper.go:86-108 | the loads the loop makes are the reads at exactly the events named "..data" or as the mapping file, in order, up to a closed channel |
| `MappingManagers.MappingManager.WatchFile` | pkg/proxy/namespace_round_tripper.go:71-110 | after any sequence of deliveries the table is that of the last load that parsed, among the loads made for relevant events up to a closed channel, or the first table |
| `MappingManagers.MappingManager.GetNamespace` | pkg/proxy/namespace_round_tripper.go:113-118 | the entry of the table, if any, and one more lookup on record |
| `NamespaceRoundTripper.JoinPath` | pkg/proxy/namespace_round_tripper.go:229-241 | the loop computes the non-empty segments joined behind one leading slash |
| `NamespaceRoundTripper.CustomNamespaceRoundTripper.ModifyNamespaceInPath` | pkg/proxy/namespace_round_tripper.go:158-180 | the in-place loop computes the positional edit of the raw segments, and consults the table at most once, with the tenant |
| `NamespaceRoundTripper.CustomNamespaceRoundTripper.AddRegionLabelSelectorInPath` | pkg/proxy/namespace_round_tripper.go:182-227 | path and query of WithRegion, and where it panics, the query it leaves behind and the untouched path; no parameter but "labelSelector" changes, and that one becomes the region's selector exactly when the path asks for one of the seven kinds |
| `NamespaceRoundTripper.CustomNamespaceRoundTripper.LabelAndClear` | pkg/proxy/namespace_round_tripper.go:199-224 | the in-place loop gives the segments and the selection of ScanFrom, with its early break and its index panic |
| `NamespaceRoundTripper.CustomNamespaceRoundTripper.RoundTrip` | pkg/proxy/namespace_round_tripper.go:146-154 | both stages together, over one snapshot of the table; returns exactly when nothing panics, and leaves the specified query in any case |
| `PathSegments.FirstStageExactly` | pkg/proxy/namespace_round_tripper.go:158-180 | segment by segment: the tenant's becomes empty, the one after the first "namespaces" becomes the namespace of a mapped tenant, and every other stays; an unmapped tenant's namespace stays too |
| `PathSegments.FirstStageDropsTheTenant` | pkg/proxy/namespace_round_tripper.go:164-179 | what the first stage passes on is the path with its namespace replaced, without its first non-empty segment, unless that is "api" |
| `PathSegments.OnlyTheCoreGroupNeedsNoTenant` | pkg/proxy/namespace_round_tripper.go:162-171 | without a tenant, "/api/..." keeps its prefix and "/apis/..." loses it |
| `PathSegments.JoinedPathIsNormal` | pkg/proxy/namespace_round_tripper.go:229-241 | joining what was joined before changes nothing |
| `PathSegments.SplitJoinedPath` | pkg/proxy/namespace_round_tripper.go:229-241 | for any parts: splitting a joined path gives back the pieces of its non-empty parts behind one empty one, and behind none when the first part starts with a slash; a part with slashes in it counts as several |
| `PathSegments.ScanExactly` | pkg/proxy/namespace_round_tripper.go:199-224 | the second loop over any segments, empty ones included: it panics exactly when it reaches a "namespaces" with fewer than two segments behind it, selects exactly when it reaches one before a labelled kind that does not stop it, and clears only the sentinel of the one that does |
| `PathSegments.WithRegionExactly` | pkg/proxy/namespace_round_tripper.go:182-227 | the whole second stage on any path: when it panics, which query it leaves, and the joined path |
| `PathSegments.OnlyLabelSelectorChanges` | pkg/proxy/namespace_round_tripper.go:212-222 | the query the second stage leaves, panics included: every other parameter as it was, and "labelSelector" set to the prefix and the region exactly when the loop reaches a "namespaces" before one of the seven kinds, else as it was |
| `PathSegments.ScanOfNormalPath` | pkg/proxy/namespace_round_tripper.go:199-224 | on a normal path the second loop panics exactly when IndexingIsSafe fails; otherwise it selects exactly when "namespaces" is third from the end before one of the seven kinds, and removes only the sentinel |
| `PathSegments.WithRegionInClosedForm` | pkg/proxy/namespace_round_tripper.go:182-241 | the second stage on what the first has joined, as one function of the pieces, for parts without empty pieces: region and sentinel go, only labelSelector changes, exactly when selected (WithRegionExactly has no such condition) |
| `PathSegments.RoundTripInClosedForm` | pkg/proxy/namespace_round_tripper.go:146-241 | the composed rewrite, through both splits and joins, as one function of the raw segments, panics included, for every namespace without empty pieces between its slashes |
| `PathSegments.RoundTripOnSegments` | pkg/proxy/namespace_round_tripper.go:146-241 | the same on the segments themselves when the namespace that is written has no slash |
| `PathSegments.ClientNamespaceDoesNotMatter` | pkg/proxy/namespace_round_tripper.go:173-178 | for a mapped tenant, what the client wrote as namespace has no influence |
| `PathSegments.TenantIsNamedExactly` | pkg/proxy/namespace_round_tripper.go:146-180 | which namespace a forwarded request of a mapped tenant names, split as the API server splits it: its own with a region in front, otherwise what the client's later segments say |
| `PathSegments.MappedTenantIsConfined` | pkg/proxy/namespace_round_tripper.go:146-180 | a forwarded request of a mapped tenant names the tenant's own namespace if and only if it is confined: with a region in front, when a segment follows "namespaces"; without one, when its later segments happen to name it |
| `PathSegments.WithoutRegionTheTailDecides` | pkg/proxy/namespace_round_tripper.go:182-227 | the failing family: without a region, the segments after the client's namespace decide whether a request is forwarded and which namespace it names |
| `PathSegments.AnotherNamespaceIsNamed` | pkg/proxy/namespace_round_tripper.go:182-227 | for every mapped tenant and every other namespace there is such a request, and it is forwarded |
| `PathSegments.NamespaceRequestsPanic` | pkg/proxy/namespace_round_tripper.go:213-215 | with tenant and region in front, a path with fewer than two segments after "namespaces" is never forwarded |
| `Impersonation.AcceptedExactlyWhenAuthorised` | pkg/proxy/subjectaccessreview/subjectaccessreview.go:53-136 | for every order: accepted if and only if each impersonation header on its own has a user beside it, is known, has its value and all its reviews allowed; then exactly one review per user, group, uid and extra value was submitted |
| `Impersonation.ReviewsPassExactly` | pkg/proxy/subjectaccessreview/subjectaccessreview.go:80-92 | the reviews of one header pass if and only if the oracle allows each, and then all were submitted in order |
| `Impersonation.SubmittedFrom` | pkg/proxy/subjectaccessreview/subjectaccessreview.go:80-124 | submission stops at the first review that is not allowed |
| `Impersonation.SubmittedAreForTheRequester` | pkg/proxy/subjectaccessreview/subjectaccessreview.go:162-203 | every review, also of a check that fails, carries the requester's name, groups and extras |
| `Impersonation.ReviewsAreForTheRequester` | pkg/proxy/subjectaccessreview/subjectaccessreview.go:184-193 | a review asks about a value of the header, on behalf of the requester |
| `Impersonation.ReviewsAreOrderFree` | pkg/proxy/subjectaccessreview/subjectaccessreview.go:53-136 | the multiset of reviews does not depend on the order of the header map |
| `Impersonation.NoHeadersNoReviews` | pkg/proxy/handlers.go:280-288 | hasImpersonation is false if and only if the check returns no target and no error, and then it has submitted nothing |
| `Impersonation.WithoutUserEveryOrderFails` | pkg/proxy/subjectaccessreview/subjectaccessreview.go:55-59 | without a user header every order ends in the missing-user error, and no review is submitted |
| `Impersonation.FailuresExactly` | pkg/proxy/subjectaccessreview/subjectaccessreview.go:53-136 | the ways in which the check can fail over all orders are exactly the ways in which single headers fail on their own |
| `Impersonation.VerdictIsOrderFreeExactly` | pkg/proxy/subjectaccessreview/subjectaccessreview.go:53-136 | all orders report the same error if and only if all headers that fail do so for the same reason |
| `Impersonation.PanicsExactly` | pkg/proxy/subjectaccessreview/subjectaccessreview.go:63-96 | some order indexes out of range if and only if a user or UID header has no value beside a user header that has one |
| `Impersonation.CheckEndsProperly` | pkg/proxy/subjectaccessreview/subjectaccessreview.go:56-131 | a check that fails returns the missing user, a denial, an unknown header or an error of the API server, and nothing else |
| `Impersonation.SlotsAgreeExactly` | pkg/proxy/subjectaccessreview/subjectaccessreview.go:63-129 | two headers can be swapped, from any target, if and only if SlotsAgree |
| `Impersonation.TargetIsOrderFreeExactly` | pkg/proxy/subjectaccessreview/subjectaccessreview.go:53-136 | all orders build the same target if and only if no two spellings of one header disagree |
| `Impersonation.DistinctKeysAreOrderFree` | pkg/proxy/subjectaccessreview/subjectaccessreview.go:53-136 | keys that are distinct under lower-casing never disagree |
| `Impersonation.CanonicalKeysAreDistinct` | pkg/proxy/subjectaccessreview/subjectaccessreview.go:54 | the keys net/http's server makes are distinct under lower-casing |
| `Impersonation.OutcomeIsOrderFree` | pkg/proxy/subjectaccessreview/subjectaccessreview.go:53-158 | all orders succeed or all fail; when they succeed they submit the same reviews and, unless two spellings disagree, build the same target |
| `Impersonation.TwoSpellingsDependOnTheOrder` | pkg/proxy/subjectaccessreview/subjectaccessreview.go:63-77 | any two spellings of the user header with different non-empty values: there is an order for each of them in which it wins |
| `Impersonation.TargetContents` | pkg/proxy/subjectaccessreview/subjectaccessreview.go:44-129 | slot by slot the target is what the one header of that kind says, or empty, and no extra is without a value |
| `Impersonation.DistinctKeysHaveDistinctSlots` | pkg/proxy/subjectaccessreview/subjectaccessreview.go:54-108 | keys distinct under lower-casing fill different slots, so TargetContents applies |
| `Impersonation.ExtraIsFilledExactly` | pkg/proxy/subjectaccessreview/subjectaccessreview.go:105-129 | whatever the keys and the order, an extra of the target has values if and only if some header of its kind has |
| `Impersonation.ForwardedHeaders` | pkg/proxy/subjectaccessreview/subjectaccessreview.go:138-154 | no impersonation header is forwarded, whatever the keys; with canonical keys all others are, with their values in order |
| `Impersonation.KeptIsOrderFree` | pkg/proxy/subjectaccessreview/subjectaccessreview.go:143-149 | the new headers do not depend on the order of the map |
| `HeaderRules.UserReviewsExactly` | pkg/proxy/subjectaccessreview/subjectaccessreview.go:63-68 | a user header with a first value that is not empty needs one review of resource "users" in the core group, for the requester |
| `HeaderRules.GroupReviewsExactly` | pkg/proxy/subjectaccessreview/subjectaccessreview.go:78-82 | a group header needs one review of "groups" in the core group per value, and its refusal names the group |
| `HeaderRules.UidReviewsExactly` | pkg/proxy/subjectaccessreview/subjectaccessreview.go:94-96 | a UID header needs one review of "uids" in the core group for its first value |
| `HeaderRules.ExtraReviewsExactly` | pkg/proxy/subjectaccessreview/subjectaccessreview.go:105-111 | an extra header needs, per value, one review of "userextras" in authentication.k8s.io with the lower-case name as subresource |
| `HeaderRules.UserHeader` | pkg/proxy/subjectaccessreview/subjectaccessreview.go:63-77 | one turn for the user header: reviews, verdict and denial, and the first value as the target's name, nothing else changed |
| `HeaderRules.GroupHeader` | pkg/proxy/subjectaccessreview/subjectaccessreview.go:78-92 | one turn for the group header: reviews up to the first refusal, its error, and the values appended to the target's groups |
| `HeaderRules.UidHeader` | pkg/proxy/subjectaccessreview/subjectaccessreview.go:94-104 | one turn for the UID header: one review, and the first value as the target's UID |
| `HeaderRules.ExtraHeader` | pkg/proxy/subjectaccessreview/subjectaccessreview.go:105-129 | one turn for an extra header: reviews up to the first refusal, with the subresource up to a slash in the name, and the values appended under that name only |
| `HeaderRules.EmptyHeader` | pkg/proxy/subjectaccessreview/subjectaccessreview.go:64-95 | a user or UID header without a value is indexed out of range |
| `HeaderRules.OtherHeader` | pkg/proxy/subjectaccessreview/subjectaccessreview.go:55-132 | no prefix, no business of the check; no user, the missing-user error; any other key with the prefix is refused as unknown |
| `HeaderRules.ChecksStopAtOnce` | pkg/proxy/subjectaccessreview/subjectaccessreview.go:53-136 | a check that fails ends at the first header that is not accepted, with its verdict, and reviews nothing after it |
| `HeaderRules.UserIsFound` | pkg/proxy/subjectaccessreview/subjectaccessreview.go:38-40 | there is a user to impersonate exactly when "Impersonate-User" has a first value that is not empty |
| `HeaderRules.TargetExactly` | pkg/proxy/subjectaccessreview/subjectaccessreview.go:44-104 | the target's name, groups and UID are those of the headers with the literal keys, or empty |
| `HeaderRules.TargetExtraExactly` | pkg/proxy/subjectaccessreview/subjectaccessreview.go:105-129 | an extra of the target is the values of the header with the prefix and its name, and is there exactly when that has some |
| `HeaderRules.KeptExactly` | pkg/proxy/subjectaccessreview/subjectaccessreview.go:138-154 | with canonical keys exactly the headers without the literal prefix are forwarded, with their values |
| `Headers.CanonicalExactly` | pkg/proxy/subjectaccessreview/subjectaccessreview.go:38 | the canonical form of a token, letter by letter |
| `Headers.CanonicalUser` | pkg/proxy/subjectaccessreview/subjectaccessreview.go:38 | "impersonate-user" is looked up as "Impersonate-User" |
| `SubjectAccessReviews.SubjectAccessReview.CheckRbac` | pkg/proxy/subjectaccessreview/subjectaccessreview.go:162-203 | one review with the requester's attributes; a resource with a slash becomes resource and subresource in authentication.k8s.io |
| `SubjectAccessReviews.SubjectAccessReview.CheckUser` | pkg/proxy/subjectaccessreview/subjectaccessreview.go:63-77 | no review for an empty first value; otherwise one, and the name only when allowed |
| `SubjectAccessReviews.SubjectAccessReview.CheckUid` | pkg/proxy/subjectaccessreview/subjectaccessreview.go:94-104 | one review of the first value, and the uid only when allowed |
| `SubjectAccessReviews.SubjectAccessReview.CheckGroups` | pkg/proxy/subjectaccessreview/subjectaccessreview.go:78-92 | the reviews of GroupReviews, which GroupReviewsExactly names field by field, up to the first that is not allowed; all groups appended when all are |
| `SubjectAccessReviews.SubjectAccessReview.CheckExtras` | pkg/proxy/subjectaccessreview/subjectaccessreview.go:105-129 | one review per value up to the first that is not allowed; all values appended under the lower-case name when all are |
| `SubjectAccessReviews.SubjectAccessReview.CheckHeader` | pkg/proxy/subjectaccessreview/subjectaccessreview.go:54-134 | one turn of the loop does to trace and target what the step functions say, errors and the index panic included |
| `SubjectAccessReviews.SubjectAccessReview.CheckHeaders` | pkg/proxy/subjectaccessreview/subjectaccessreview.go:44-136 | the loop over the map refines Check, on a fresh target, and collects exactly the impersonation keys |
| `SubjectAccessReviews.SubjectAccessReview.CheckAuthorizedForImpersonation` | pkg/proxy/subjectaccessreview/subjectaccessreview.go:36-159 | the trace grows by the reviews of Check; a fresh target and new headers, or no target, or the error; a check that fails leaves the header map alone |
| `SubjectAccessReviews.RebuildHeaders` | pkg/proxy/subjectaccessreview/subjectaccessreview.go:140-154 | the nested loops compute the fold that ForwardedHeaders describes |
| `Chain.OutcomesExactly` | pkg/proxy/handlers.go:34-219 | forwarded plain if and only if OIDC ok and impersonation disabled, or OIDC error and token review passed; impersonated if and only if OIDC ok, enabled, named, authorised and the URL can be rewritten; crashed if and only if an index is out of range in the check or in the rewriter; an error response is never the missing configuration |
| `Chain.CrashesExactly` | pkg/proxy/handlers.go:34-219 | some order of the header map makes a request crash if and only if a user or UID header has no value beside a user header that has one, or the request is authorised and the rewriter cannot index its path |
| `Chain.UserOutcomesExactly` | pkg/proxy/handlers.go:111-217 | the same for a request that carries a user, past the no-impersonation exits |
| `Chain.ForwardingIsOrderFree` | pkg/proxy/handlers.go:121-217 | what is forwarded, where to, and as whom, does not depend on the order of the header map unless two spellings disagree on something that is forwarded |
| `Chain.EventIsOrderFree` | pkg/proxy/handlers.go:121-217 | the whole event, error responses and crashes included, is the same for all orders if and only if there is nothing to check, or all headers that fail do so for the same reason, or no two spellings disagree on what is forwarded, if anything is; a UID, and extras that the record covers, never are |
| `Chain.ForwardedRequestsAreConfined` | pkg/proxy/proxy.go:243-263 | through check, chain and rewriter: a forwarded request of a mapped tenant names the tenant's own namespace if and only if its path is confined |
| `Chain.ForwardedIsRouted` | pkg/proxy/proxy.go:243-263 | an impersonated request carries the headers that the check leaves and the URL that the rewriter makes |
| `Chain.ForwardedHeadersAreClean` | pkg/proxy/handlers.go:121-136 | no client-supplied impersonation header reaches the impersonating transport; with canonical keys all others do unchanged |
| `Chain.OriginalIsOnRecord` | pkg/proxy/handlers.go:176-203 | which record keys are set, which keep earlier values, and that no other key changes |
| `Chain.OriginalUserIsForwarded` | pkg/proxy/handlers.go:176-213 | for each record key of a forwarded impersonated request: the record is exactly the inbound user's name, groups, UID or extras if and only if the user has some, or neither a client header nor the configuration fills that key |
| `Chain.ForgedGroupsAreForwarded` | pkg/proxy/handlers.go:176-213 | a request at which it fails: a user without groups who may impersonate has any groups it sends on record |
| `Chain.DenialsAreForbidden` | pkg/proxy/handlers.go:263-267 | every denial answers 403, through the search in its text |
| `Chain.UnknownHeadersAreInternalErrors` | pkg/proxy/handlers.go:263-272 | an unknown impersonation header answers 500: no token can make the text look like a denial |
| `Forwarding.StatusExactly` | pkg/proxy/handlers.go:229-274 | 401 for a request that is not authenticated, 403 for a missing name and for denials, 500 for the rest; an error of the API server answers 403 exactly when its text contains the phrase |
| `Forwarding.DenialsExactly` | pkg/proxy/subjectaccessreview/subjectaccessreview.go:73-128 | the texts of the four denials and of an unknown header |
| `Forwarding.RefusalsExactly` | pkg/proxy/handlers.go:34-219 | exit by exit, which error and status a request that is refused is answered with, and that no other is |
| `Forwarding.PlainExactly` | pkg/proxy/proxy.go:236-240 | a request that is passed through keeps URL and headers but for one more, empty, Authorization value |
| `Forwarding.IdentityExactly` | pkg/proxy/handlers.go:138-213 | every impersonated request names the acting user, and its groups with system:authenticated at the end unless they hold it |
| `Forwarding.ExtrasExactly` | pkg/proxy/handlers.go:151-203 | key by key, its extras: the acting user's values, the client address under Remote-Client-IP, the configured values, and instead of them the record of the inbound user under the keys it fills |
| `Forwarding.OwnExtraExactly` | pkg/proxy/handlers.go:151-174 | what a request leaves in the map of its own user, key by key |
| `Forwarding.UrlExactly` | pkg/proxy/proxy.go:250-263 | its URL: both rewriting stages with a namespace transport, and the incoming one without |
| `Forwarding.HeadersExactly` | pkg/proxy/handlers.go:121-136 | its headers, for canonical keys: all of them, or when a client impersonates, exactly those without the literal prefix |
| `RequestContext.FirstAddressStays` | pkg/proxy/context/context.go:68-87 | the address is that of the first RemoteAddr call, whatever the handlers do later, and no token is ever known |
| `RequestContext.MarksStay` | pkg/proxy/context/context.go:37-61 | no later update takes the no-impersonation mark or the configuration away |
| `RequestContext.ConfigIsRead` | pkg/proxy/context/context.go:48-61 | a configuration that was set is the one that is read, and sets no no-impersonation mark |
| `Proxies.ConfiguredInAnyOrder` | pkg/proxy/handlers.go:166-174 | the loops over the configured headers give WithExtras in every order |
| `Proxies.AddExtras` | pkg/proxy/handlers.go:157-174 | the in-place loops leave, per key, what the map held, then the client address under its key, then the configured values; no other key of the map, possibly the inbound user's own, changes |
| `Proxies.AddOriginal` | pkg/proxy/handlers.go:176-203 | the record is written in place, or the marshalling error returned; the inbound user's map is untouched |
| `Proxies.FindImpersonation` | pkg/proxy/handlers.go:280-288 | true exactly when some key, in lower case, starts with "impersonate-" |
| `Proxies.EnsureAllAuthenticated` | pkg/proxy/handlers.go:138-149 | "system:authenticated" is in the result, which is the groups followed by at most that one, and by nothing when they hold it |
| `Proxies.Proxy.Run` | pkg/proxy/proxy.go:157-196 | when it succeeds, exactly which transports are set and where the namespace transport points; the wiring is then complete |
| `Proxies.Proxy.RoundTrip` | pkg/proxy/proxy.go:231-264 | one event: plain with an added Authorization value, the missing-configuration error, or impersonated with headers untouched and the URL rewritten in place |
| `Proxies.Proxy.ActingTarget` | pkg/proxy/handlers.go:121-136 | for a client with impersonation headers, a fresh target with a fresh map, or one error response |
| `Proxies.Proxy.Configure` | pkg/proxy/handlers.go:138-213 | the configuration that is forwarded: groups with system:authenticated, the extras, and the record of the inbound user when another one acts |
| `Proxies.Proxy.ServeTarget` | pkg/proxy/handlers.go:121-217 | a client that impersonates: one event as ServedUser says, and the inbound user's record and map are not touched |
| `Proxies.Proxy.ForwardAs` | pkg/proxy/handlers.go:138-217 | one event as ForwardedFor says; without a target the inbound map becomes WithExtras of itself |
| `Proxies.Proxy.ServeUser` | pkg/proxy/handlers.go:119-217 | one event as ServedUser says; when a client impersonates, the inbound user is unchanged on the heap, and otherwise only WithExtras happens to its map |
| `Proxies.Proxy.ServeImpersonating` | pkg/proxy/handlers.go:89-219 | which of the exits is taken, with the address fixed by the first RemoteAddr call, and what each leaves in the inbound user's map |
| `Proxies.Proxy.ServeTokenReview` | pkg/proxy/handlers.go:66-86 | after an OIDC error: one event as Served says, through the token review |
| `Proxies.Proxy.ServeHTTP` | pkg/proxy/handlers.go:21-219 | through four files, every request leaves exactly one event, the one Served names; the inbound user's map is unchanged when the client impersonates or is not served as a user, and otherwise WithExtras of itself; the wiring does not change |
| `NamespaceRoundTripper.CustomNamespaceRoundTripper.New` | pkg/proxy/namespace_round_tripper.go:120-133 | there is a namespace transport exactly when the first load succeeds, over a table of what was read |
| `Proxies.Start` | pkg/proxy/proxy.go:138-196 | from the namespace transport of New to the error handler of Run: a proxy starts if and only if the mapping file loads and the transports and the URL can be made; it is then completely wired, with the loaded table, and the namespace transport points where Run says |
| `Runs.RunsAreProper` | pkg/proxy/proxy.go:231-264 | in any run of a wired proxy each event is the one Served names for the request as it came in, for what the authenticator answered, and for what earlier requests left in the user's map; it is never the missing configuration, and a crash only where CrashesExactly has one |
| `Runs.RequestsAreSeparate` | pkg/proxy/handlers.go:138-174 | a request whose user holds a map that no earlier one held is served as if it were the only one |
| `Proxies.ServeAll` | pkg/proxy/proxy.go:231-264 | over any sequence of requests a wired proxy stays wired, leaves exactly the events of the run, one each, and in the users' maps exactly what the run says; with RunsAreProper for all of them |
| `Base32.EncoderEmitsTheStream` | demo/manifests/components/base32.libsonnet:13-74 | through the recursion and all five tails, the text is the big-endian bit stream cut into fives with zero fill, padded to eight |
| `Base32.BlockIsBlockText` | demo/manifests/components/base32.libsonnet:36-74 | one step of the recursion gives the digits of up to five bytes, then padding up to eight characters |
| `Base32.BlockDigitsFollowMasks` | demo/manifests/components/base32.libsonnet:13-72 | the masks and shifts select exactly the five-bit groups of the stream |
| `Base32.AuxIsStream` | demo/manifests/components/base32.libsonnet:36-74 | the accumulator is the stream text so far, at every step of the tail recursion |
| `Base32.DecodeInvertsEncode` | demo/manifests/components/base32.libsonnet:6-80 | the decoder of section 6 of RFC 4648 returns the bytes for their encoding and for no other text |
| `Base32.Fooba` | demo/manifests/components/base32.libsonnet:6-80 | a test vector of section 10 of RFC 4648, one whole block |
| `Base32.RefusedExactly` | demo/manifests/components/base32.libsonnet:76-80 | exactly the arrays with an element of 256 or more are refused |
| `Base32.EncodeIsInjectiveOnBytes` | demo/manifests/components/base32.libsonnet:76-80 | arrays of bytes are never refused, and different ones have different encodings |
| `Base32.SameEncodingExactly` | demo/manifests/components/base32.libsonnet:6-80 | accepted arrays have the same encoding if and only if their elements have the same low bytes |
| `Base32.NegativeElementsCollide` | demo/manifests/components/base32.libsonnet:76-80 | an accepted array shares its encoding with no other byte array if and only if it is a byte array itself; otherwise its elements modulo 256 are one |
| `Dex.NamesDecode` | demo/manifests/components/dex.jsonnet:21-42 | read back digit by digit, a name carries the code points of its input followed by the eight bytes 203, 242, 156, 228, 132, 34, 35, 37, and nothing else |
| `Dex.HashIsTheStream` | demo/manifests/components/dex.jsonnet:21-42 | the name is one lower-case character per five-bit group of input and appended bytes, and nothing else |
| `Dex.HashShape` | demo/manifests/components/dex.jsonnet:42 | only a-z and 2-7 occur, and the length is 8(n + 8)/5 rounded up |
| `Dex.HashIsInjective` | demo/manifests/components/dex.jsonnet:21-42 | dropping padding and case loses nothing: different inputs have different names, and exactly those with a code point of 256 or more have none |
| `Csv.WrittenReadsBack` | pkg/util/flags/string_to_string_slice.go:46-86 | a written record is read back up to its line ends, whatever the fields hold, if and only if it is not empty or one empty field |
| `Csv.WrittenExactly` | pkg/util/flags/string_to_string_slice.go:81-86 | which fields are written bare and which in quotes |
| `Csv.EscapedExactly` | pkg/util/flags/string_to_string_slice.go:81-86 | in quotes, quotes are doubled and nothing else is touched |
| `Csv.ReadsExactly` | pkg/util/flags/string_to_string_slice.go:46-50 | the reader accepts exactly the texts of the grammar, bare fields without quotes and quoted ones with doubled quotes, and reads what they denote |
| `Csv.LineEndsExactly` | pkg/util/flags/string_to_string_slice.go:46-50 | before it does, CR LF becomes LF, and one CR at the end of the text goes |
| `FlagValue.PrintThenParseExactly` | pkg/util/flags/string_to_string_slice.go:32-89 | for the order String has chosen, Set on its bracket-stripped output restores the whole map if and only if no list is empty, no key or value holds "=" or CR LF, and the last entry does not end in white space outside quotes |
| `FlagValue.PrintThenParse` | pkg/util/flags/string_to_string_slice.go:32-89 | it does so for every order of the keys if and only if that holds of every key |
| `FlagValue.PrintedReadsBack` | pkg/util/flags/string_to_string_slice.go:81-88 | what the reader makes of any printed pairs: line ends are normalised, and trimming the text cuts the last field when it is not in quotes |
| `FlagValue.SameMapSamePairs` | pkg/util/flags/string_to_string_slice.go:55-64 | records that parse to the same map hold the same pairs, each as often |
| `FlagValue.ParsedMapsHavePairShape` | pkg/util/flags/string_to_string_slice.go:55-64 | no text parses to a map with an empty list or with "=" in a key or value |
| `FlagValue.PlainPairsArePrinted` | pkg/util/flags/string_to_string_slice.go:73-89 | pairs without special characters are printed as they are, with commas between them |
| `FlagValue.SetAcceptsExactly` | pkg/util/flags/string_to_string_slice.go:32-67 | Set accepts the empty text and exactly the records of the grammar in which every field has exactly one "=", and appends to each key what they hold |
| `FlagValue.PairsAreAddedExactly` | pkg/util/flags/string_to_string_slice.go:55-64 | pairs are appended behind what the map holds, key by key in their order |
| `FlagValue.FirstBadPair` | pkg/util/flags/string_to_string_slice.go:55-62 | the error names the first field without a key and a value |
| `FlagValue.StringToStringSliceValue.Set` | pkg/util/flags/string_to_string_slice.go:32-67 | appends the pairs of one record to the map, nil or not; any error leaves an empty map |
| `FlagValue.StringToStringSliceValue.String` | pkg/util/flags/string_to_string_slice.go:73-89 | the nested loops print the record of all pairs in the order visited, trimmed, in brackets |
| `AccessLog.FindXForwardedFor` | pkg/proxy/logging/accesslog.go:55-83 | what is logged is the trimmed addresses without the remote one, in order |
| `AccessLog.CleanOff` | pkg/proxy/logging/accesslog.go:58-78 | accumulating and cutting two characters off equals joining what was kept; the slice is always in range |
| `AccessLog.LoggedParts` | pkg/proxy/logging/accesslog.go:62-76 | the log splits back into exactly the other addresses |
| `AccessLog.LoggedIsEmpty` | pkg/proxy/logging/accesslog.go:55-83 | nothing is logged exactly when the header is empty or names nobody but the remote address, but for one empty part |
| `AccessLog.LoggedExactly` | pkg/proxy/logging/accesslog.go:55-83 | one address is logged trimmed unless it is the remote one, and two lists one behind the other with a comma and a space between |
| `AccessLog.LoggedTwice` | pkg/proxy/logging/accesslog.go:55-83 | filtering its own output changes nothing |
| `StringSlices.StringSlicesEqual` | test/util/strings.go:6-26 | true if and only if the slices are equal as multisets; both arguments are unchanged |
| `StringSlices.AtMostExactly` | test/util/strings.go:16-17 | the order is Go's: a prefix first, otherwise the first difference decides |
| `StringSlices.SortedIsUnique` | test/util/strings.go:16-23 | two sorted slices with the same elements are the same, so comparing position by position is enough |
| `StringSlices.SortStrings` | test/util/strings.go:16-17 | sorts in place and keeps the elements |

## Left out

- TLS, HTTP connections, the reverse proxy, URL percent-encoding and the re-encoding of a query: the query is a map of value lists.
- fsnotify and the file system calls: a queue of events, contents by inode, and events that may be lost stand for them; `filepath.Base` is applied before the model starts.
- JSON: decoding the mapping file and encoding the inbound extras are arbitrary functions.
- OIDC verification, the TokenReview server and the SubjectAccessReview server: arbitrary answers, the last one a function of the review.
- What the authenticator does to the request's Authorization header on success: the model starts with the header map it leaves.
- client-go's impersonating round tripper between `RoundTrip` and the namespace transport: the configuration it is given is recorded, not the headers it writes.
- Proxies.Start: the command's other error exits are not in it: OIDC and audit set-up before the namespace transport is built, the token reviewer, secure serving, the kube client, the readiness probe, and serving itself.
- Audit filters, the readiness probe, shutdown hooks, option validation, signal handling and log formatting: each is settled by reading a branch or two.
- Unicode case folding: header names are ASCII tokens of section 3.2.6 of RFC 7230, lower-cased as ASCII.
- The backing arrays of Go slices: `append` on groups and extras is on values, so sharing of spare capacity is not captured; sharing of the maps themselves is.
- Two requests served at once, and reloads between the requests of `ServeAll`: the handlers run one request at a time; concurrency is modelled for the mapping table.
- `sort.Strings` and encoding/csv are library code: sorting is an insertion sort with the same contract, and the reader and writer are modelled for one record with the default options.
- PathSegments.RoundTripInClosedForm: for a written namespace with a slash at its start or end, or with two slashes in a row, there is no closed form over non-empty pieces, because the positions of the second stage then count empty segments; SplitJoinedPath and WithRegionExactly say what the two stages do then.
- PathSegments.WithRegionInClosedForm: the same for parts with a slash at an end or two in a row.
- The nil Extra map of a user and an empty one are distinguished only where the handlers create a map.
