# Verification of the Vertex IAM SDK for Go

This project models the decision logic of the SDK and proves what it promises: the canonical permission
manifest and its fingerprint, the retry budget of a manifest command, the two walkers that refuse repeated
JSON members, the caching permission resolver and the JWKS provider under any interleaving of threads, the
machine-token cache of the Portal client, the permission algebra, the checks of server responses, and the
names the code generator makes.

`dafny verify dfyconfig.toml` checks the whole project. There is one module per component:

| file | component |
|---|---|
| `Text.dfy`, `Int64.dfy` | the string, sorting and 64-bit operations of Go that the SDK uses |
| `Json.dfy` | JSON values, their canonical text (sections 3.2.2.2 and 3.2.3 of RFC 8785) and a reader of JSON text (RFC 8259) |
| `Manifest.dfy`, `ManifestResult.dfy` | preparing a manifest, printing it, and checking the result that comes back |
| `Retry.dfy` | one command: token request, manifest request, attempts, sleeps and the shared budget |
| `Walkers.dfy` | the two duplicate-member walkers over a stream of JSON tokens |
| `Permission.dfy`, `Snapshot.dfy` | permission keys, matching, the three grammars of a grant, role snapshots |
| `ResolverKey.dfy`, `Resolver.dfy` | the cache key, and the resolver as a machine of interleaved steps |
| `Jwks.dfy` | the key set provider as a machine of interleaved steps with a lock and a clock |
| `Portal.dfy` | the token cache per scope, its clears, and the routing of methods to scopes |
| `Paging.dfy` | the page check in wrapping 64-bit arithmetic |
| `Security.dfy`, `SecuritySchemas.dfy` | the schema-directed check of account-security responses |
| `Codegen.dfy` | the entries of a generated permission file |

Code that changes state step by step is a class or a method with loops, tied by its contract to a
specification function or to a step machine; the properties are proved of those. Where a result is a
statement about every run, the run is an arbitrary sequence of enabled steps of any number of threads, and
the object that a single caller drives is proved to take exactly such steps.

Four things the outside world does are parameters: the replies of servers (an arbitrary script), the passing
of time (any amount may pass at any step), NFC normality (a predicate) and SHA-256 (a function, collision-free
only where a statement says so).

## Where the code and a natural expectation differ

- README.md line 115 of the repository says that `*:read` matches `posts:read`. The code rejects it; the model
  follows the code (`Permission.ActionOnlyWildcardNeverMatches`).
- Invalidating a resolver entry, or clearing the cache, does not reach a call already under way, whose older
  answer may still be served and stored. `Resolver.InvalidateExactly` and `Resolver.ClearExactly` say exactly
  when: such a call is in flight and has not failed.
- The resolver's cache key is ambiguous when a role holds `,` or `|`. A request is safe from other requests'
  answers in every run exactly when it owns its key (`Resolver.GenuineExactly`), and `ResolverKey.OwnsKeyExactly`
  says which requests do; `Resolver.UncleanRolesMixAnswers` is a run in which one request is served another's
  permissions. Only `Resolver.AnswersAreGenuine` and `ResolverKey.KeyIdentifies` assume roles free of both
  characters, and there the client identifier is unrestricted; the other results hold of every run.
- A generated constant can be called `All`, as resource `all` with action `_` is, although the generated file
  declares that name itself. `Codegen.ClashesWithAllExactly` says for which keys.
- The Retry-After parser accepts a leading plus sign, and a leading zero behind it (`Retry.PlusSignPasses`).
  What it understands is written the way it is understood exactly when no plus sign leads
  (`Retry.UnderstoodAsWritten`).
- A fresh machine token is handed out once whatever its lifetime, but not every token that outlives the skew
  can be served again: the lifetime must exceed the skew by a whole nanosecond (`Portal.ReusableExactly`, and
  `Portal.OutlivesTheSkewButIsNotReused` for an input). Freshness is claimed of tokens served from the cache
  (`Portal.ServedFromCacheIsLive`).
- Canonical texts identify values up to member order only if no object repeats a name
  (`Json.JcsIdentifies`, `Json.RepeatedNamesShowOrder`). A manifest's objects repeat none.
- The manifest walker does not look at the kind of a closing delimiter. That makes no difference on streams
  whose delimiters nest, which are the only ones the decoder delivers (`Walkers.WalkersAgree`); on others it
  would (`Walkers.LooseClosing`).

## Model

| member | source | states |
|---|---|---|
| Manifest.PreparePermissionManifest | permission_manifest.go:156-182 | accepts exactly the manifests with a valid header, valid declarations and distinct keys; the prepared list is the sorted copy and the fingerprint hashes its canonical text; a header fault comes first, then the fault of the first invalid declaration, then a duplicate; the caller's list is left alone |
| Manifest.ValidateDeclarations | permission_manifest.go:170-174 | the loop reports the fault of the first invalid declaration, or none when all are valid |
| Manifest.HasDuplicateKey | permission_manifest.go:176-180 | in a sorted list the comparison of neighbours finds a repeated key exactly when there is one anywhere |
| Manifest.KeysIdentify | permission_manifest.go:44 | valid declarations share a key exactly when they share resource and action |
| Manifest.PreparedList | permission_manifest.go:169-181 | the prepared list is a permutation of the declared one, strictly increasing by resource, colon and action, and repeats no (resource, action) pair |
| Manifest.PreparingIsPermutationInvariant | permission_manifest.go:156-182 | rearranged manifests are accepted or rejected together and become the same prepared manifest with the same fingerprint |
| Manifest.FingerprintIdentifiesDeclarations | permission_manifest.go:181 | with a collision-free hash, two accepted manifests have equal fingerprints exactly when they declare the same permissions in some order |
| Manifest.PermissionDeclarationRevision | permission_manifest.go:184-189 | succeeds exactly for a valid declaration, with the hash of its RFC 8785 text, and otherwise reports the first rule broken |
| Manifest.RevisionIdentifiesDeclaration | permission_manifest.go:184-189 | with a collision-free hash, equal revisions mean equal declarations |
| Manifest.ValidateManifestDeclaration | permission_manifest.go:526-547 | reports no fault exactly for valid declarations, and otherwise the first rule broken; of several plain fields that are not normalized it names some one, as ranging over a map does |
| Manifest.FindNotNormalized | permission_manifest.go:538-542 | the range over the map, in any order, names a field that is not normalized exactly when there is one |
| Manifest.ValidateManifestText | permission_manifest.go:549-559 | accepts exactly nonempty trimmed texts without control characters whose UTF-16 length is within the limit |
| Manifest.Utf16Length | permission_manifest.go:561-567 | the loop counts the UTF-16 code units |
| Manifest.Builder.AppendJcsString | permission_manifest.go:598-626 | appends the quoted string with the escapes of section 3.2.2.2 of RFC 8785, and nothing else; which escapes these are is stated by Json.EscapeIsShortest |
| Manifest.CanonicalDeclaration | permission_manifest.go:581-597 | the text written by hand is the RFC 8785 text of the declaration's JSON object: members sorted by name, null for a missing description |
| Manifest.CanonicalManifest | permission_manifest.go:569-580 | the text written by hand is the RFC 8785 text of the object holding the declarations |
| Manifest.CanonicalTextReadsBack | permission_manifest.go:569-626 | an independent JSON reader recovers exactly the declaration list from the canonical text |
| Manifest.CanonicalTextIsInjective | permission_manifest.go:569-626 | two declaration lists with the same canonical text are equal |
| Json.ReadEscape | permission_manifest.go:601-623 | every escape form reads back as the one character it stands for, whatever follows |
| Json.ReadPrint | permission_manifest.go:569-626 | reading the text of any JSON value without numbers, followed by any rest, gives that value and that rest |
| Json.EscapeIsShortest | permission_manifest.go:601-623 | of all the ways to write a character that a JSON reader takes, the escape is the shortest, and the only one of its length with lower-case hexadecimal digits |
| Json.PrintIsShortest | permission_manifest.go:569-626 | no text that reads as a value is shorter than the printed one: no white space, no escape that is not needed, none longer than need be |
| Json.CanonSorted | permission_manifest.go:569-597 | the canonical form of an object holds the canonical forms of its members, sorted by the UTF-16 code units of their names |
| Json.JcsIdentifies | permission_manifest.go:569-626 | two values in which no object repeats a name have the same canonical text exactly when they differ only in member order, at whatever depth |
| Json.JcsIsCanon | permission_manifest.go:569-626 | any two values have the same canonical text exactly when they have the same canonical form |
| Json.RepeatedNamesShowOrder | permission_manifest.go:569-626 | two values with a repeated name that differ only in member order and have different canonical texts |
| Json.CodeUnitsIdentify | permission_manifest.go:561-567 | the UTF-16 code units of a text determine it |
| ManifestResult.ValidateManifestResult | permission_manifest.go:695-724 | accepts exactly results with the identity that was sent, valid items and drift strictly increasing by key, and counts that tally; reports an identity mismatch exactly when there is one |
| ManifestResult.ValidateItems | permission_manifest.go:699-712 | the loop over the results decides validity and strict order of all items, and its map holds the tally of each operation |
| ManifestResult.ValidateDrift | permission_manifest.go:713-719 | the loop over the drift decides validity and strict order of all entries |
| ManifestResult.AcceptedCountsAddUp | permission_manifest.go:720-722 | in an accepted result the five operation counts sum to the number of results, the drift count is the number of drift entries, and no key occurs twice in either list |
| ManifestResult.AcceptedResultAnswers | permission_manifest.go:695-698 | an accepted result has the mode, identity and revision that were sent, a fingerprint of 64 lower-case hexadecimal digits that hashes the canonical text of the sorted declarations, and is applied exactly when that was asked for |
| ManifestResult.TalliesCoverItems | permission_manifest.go:699-712 | every item is counted under exactly one of the five operations |
| ManifestResult.ManifestKeysAreConcrete | permission_manifest.go:753-756 | a valid manifest key is exactly the wire form of a concrete permission |
| Retry.ManifestClient.Execute | permission_manifest.go:362-415 | attempts made plus budget left is constant; each reply but the last called for another attempt and the last one explains the outcome, so a retryable status is returned only when attempts or budget are exhausted, and a transport error only with an error in hand; the record gains exactly the attempts and sleeps of the loop |
| Retry.ManifestClient.AfterReply | permission_manifest.go:379-412 | what one reply leads to: a result, giving up on a transport error, or another attempt, with the sleep that the backoff or Retry-After asks for |
| Retry.ManifestClient.SleepAfter | permission_manifest.go:385-412 | the sleep lasts what the backoff or Retry-After asks for, at most the maximum delay |
| Retry.ManifestClient.ExecuteWithin | permission_manifest.go:362-415 | only a request that failed, a body that could not be read, or one of the statuses 408, 429, 502, 503 and 504 is followed by another attempt; within a budget of three, backoff exponents at sleeps are at most one, and a loop sleeps fewer times than it makes attempts unless its last sleep was cancelled |
| Retry.ManifestClient.MachineToken | permission_manifest.go:311-349 | a live cached token costs nothing and only such a token does; a fresh one comes from the last reply, a bearer token for the synchronization scope with a positive expires_in, and is remembered with its receipt; every command that goes on with a token is on record; a failure leaves the remembered token alone and is explained by the last reply or by the loop |
| Retry.ManifestClient.Exchange | permission_manifest.go:268-293 | token and manifest requests together make at most three attempts, three being attempts plus what is left; at most two sleeps, each followed by an attempt or cancelled; a response is the last reply received, and a failure is explained by the token request or by the replies of the loop it ended |
| Retry.ManifestClient.Send | permission_manifest.go:268-309 | the same bounds for the whole command; over consecutive commands, with clears and time between them, a token used without asking was received less than expires_in less the skew before; it succeeds only with a result that passed every check against what was sent, reports a refusal only for a last answer of 400 or more, an invalid response only for one that does not decode or fails a check, and any other failure with the explanation of the exchange |
| Retry.ManifestClient.ReadResult | permission_manifest.go:297-308 | a body is accepted exactly when it decodes and the result passes the check |
| Retry.ManifestClient.ClearPermissionManifestTokenCache | permission_manifest.go:262-266 | the remembered token is gone |
| Retry.LifetimeExceeds | permission_manifest.go:342-346 | a remembered token outlives its reception by more than so many nanoseconds exactly when expires_in exceeds the skew by more than that |
| Retry.Budget.Consume | permission_manifest.go:417-425 | takes one attempt, or says there is none |
| Retry.RecordCharged | permission_manifest.go:362-415 | whatever loop is explained by its replies pays for each attempt, sleeps only between attempts or before a cancellation, and keeps every sleep within bounds |
| Retry.TurnTaken | permission_manifest.go:364-413 | one turn of the loop keeps its account of replies and sleeps, or ends it with an explained outcome |
| Retry.RetryAfterRoundTrip | permission_manifest.go:740-746 | every delay of one second to one day, written in decimal, is understood as itself |
| Retry.RetryAfterExactly | permission_manifest.go:740-746 | exactly which header values are understood, and as what |
| Retry.UnderstoodAsWritten | permission_manifest.go:740-746 | a value that is understood is the decimal notation of its delay exactly when it has no leading plus sign |
| Retry.PlusSignPasses | permission_manifest.go:744 | "+5" and "+05" are understood as five seconds, "05" is not understood |
| Retry.DelaysAsAsked | permission_manifest.go:385-410 | a retryable answer is followed by the delay its header asks for; one without a usable header, and a failed request, by 250 and then 500 milliseconds; all capped by the maximum |
| Retry.DecimalRoundTrip | permission_manifest.go:744 | decimal notation without leading zeros denotes the number it was written for |
| Walkers.WalkManifest | permission_manifest.go:645-685 | the closure succeeds, and leaves the rest of the stream, exactly as the walk that ignores the kind of closing delimiters |
| Walkers.WalkUpload | cmd/iam-codegen/upload.go:122-168 | the function succeeds, and leaves the rest of the stream, exactly as the walk that checks the kind of closing delimiters |
| Walkers.WalkDecides | permission_manifest.go:646-685 | on the tokens of any value followed by any rest, either walk succeeds exactly when no object at any depth repeats a member name, and then leaves exactly the rest |
| Walkers.StrictWalkExactly | cmd/iam-codegen/upload.go:122-168 | on any stream whatever, the upload walk succeeds leaving a rest exactly when the stream is the tokens of a value without repeated names followed by that rest |
| Walkers.WalkersAgree | permission_manifest.go:643-693 | on every stream with nested delimiters the two walks give the same verdict and leave the same rest |
| Walkers.TokensNested | permission_manifest.go:643-693 | the tokens of any value nest, whatever surrounds them |
| Walkers.BodiesAccepted | cmd/iam-codegen/upload.go:62-71 | either check accepts a whole body exactly when it is one JSON value without repeated names at any depth |
| Walkers.RejectDuplicatesManifest | permission_manifest.go:643-693 | accepts a nested stream exactly when it ends cleanly and is one value without repeated names |
| Walkers.RejectDuplicatesUpload | cmd/iam-codegen/upload.go:62-71 | accepts any stream exactly when it ends cleanly and is one value without repeated names |
| Walkers.LooseClosing | permission_manifest.go:672-681 | off nested streams the manifest walk lets a bracket close a brace, the upload walk does not |
| Permission.ParseExactly | authz/permission.go:33-42 | parsing yields a key exactly for its wire form, when both parts are nonempty and free of colons |
| Permission.ParseInvertsAuthority | authz/permission.go:18-42 | a concrete key survives the trip through its wire form |
| Permission.MatchesExactly | authz/permission.go:73-91 | a concrete target is granted by its own key, its resource with an action wildcard and the full wildcard, and by nothing else |
| Permission.ActionOnlyWildcardNeverMatches | authz/permission.go:81-83 | a resource wildcard with a concrete action grants nothing |
| Permission.HasPermissionExactly | authz/permission.go:95-102 | a permission is held exactly when some grant matches it |
| Permission.HasAllPermissionsExactly | authz/permission.go:105-112 | all of a list of targets are held exactly when there are targets and each has a grant that matches it |
| Permission.HasAnyPermissionExactly | authz/permission.go:115-122 | any of a list of targets is held exactly when one of them has a grant that matches it |
| Permission.HasPermissionMonotone | authz/permission.go:95-102 | more grants never take a permission away |
| Permission.HasPermissionConcat | authz/permission.go:95-102 | two lists together grant what either grants |
| Permission.NothingGrantsNothing | authz/permission.go:95-122 | without grants all three questions are answered no |
| Permission.GrantPairAgrees | authorization_management_client.go:596-605 | the management grammar accepts a pair exactly when the resolve grammar accepts the joined key |
| Permission.GrammarsAgree | client.go:90-93 | a key passes the resolve grammar exactly when it joins a pair the management grammar accepts, and exactly when it grants something |
| Snapshot.StrictResolvedPermissionKeys | client.go:83-104 | the loop with its set of seen keys reports the first malformed or repeated key, or returns the list |
| Snapshot.StrictKeysExactly | client.go:83-104 | a list is accepted, unchanged, exactly when it is present, every key is a grant and none is repeated |
| Snapshot.ParsePermissionSnapshot | client.go:152-181 | the nested loops report the first fault, or return each grant once, in order of first occurrence |
| Snapshot.AppendUnseen | client.go:171-178 | the inner loop extends what has been collected by exactly the grants not seen before |
| Snapshot.CheckRole | client.go:159-170 | a role's checks report its first fault or yield its grants |
| Snapshot.FirstOccurrencesCorrect | client.go:171-178 | what is kept has the same elements, each once, in order of first occurrence |
| Snapshot.SnapshotAccepts | client.go:153-170 | exactly which snapshots are accepted: header, role fields, grants well-formed and distinct within a role, role keys distinct |
| Snapshot.SnapshotRefuses | client.go:153-170 | a refused snapshot has a fault in its header, or has the reported fault in a role that it would be accepted up to |
| Snapshot.FlatteningPreservesAuthorization | client.go:152-181 | for every accepted snapshot and every target, the flattened list grants the target exactly when the list of some role does |
| ResolverKey.CacheKey | authz/http_resolver.go:108-121 | the copy, sort and builder loop produce the client, a bar, and the sorted roles joined by commas |
| ResolverKey.KeyIdentifies | authz/http_resolver.go:108-121 | for roles without separators two keys agree exactly when the clients are equal and the roles are permutations of each other |
| ResolverKey.SameRequestSameKey | authz/http_resolver.go:109-110 | the order of the roles never shows in the key, separators or not |
| ResolverKey.OwnsKeyExactly | authz/http_resolver.go:108-121 | exactly which requests share their key with no different request, role names with separators included |
| ResolverKey.SeparatorsCollide | authz/http_resolver.go:108-121 | a comma or a bar in a role lets different requests share a key |
| Resolver.RunKeepsInv | authz/http_resolver.go:74-106 | every state of every interleaving, whatever the roles, has a cache, flights, calls and answers that come from client calls under the same key |
| Resolver.AnswersAreGenuine | authz/http_resolver.go:74-98 | with roles free of separators, in every interleaving with drops, evictions, invalidations and ticks, an answer is what the client said to a call for the same client and the same roles up to order; a cache hit is at most ttl old |
| Resolver.AnswersComeFromTheirKey | authz/http_resolver.go:74-98 | in every interleaving and for all roles, an answer is what the client said to a call made under the same key; a cache hit is at most ttl old |
| Resolver.GenuineExactly | authz/http_resolver.go:78-98 | a request is answered from calls for itself in every run exactly when it shares its key with no other request |
| Resolver.AnsweredByCallInFlight | authz/http_resolver.go:82-89 | an answer that was not cached comes from a call that was in flight at some moment of that Resolve, while it waited |
| Resolver.OneCallInFlight | authz/http_resolver.go:82-89 | in every run at most one client call is in flight per client and roles up to order |
| Resolver.OnlySuccessIsCached | authz/http_resolver.go:83-87 | errors are never cached |
| Resolver.FailingOpenGrantsNothing | authz/http_resolver.go:90-95 | when the client fails, the caller gets an error, or, failing open, a list on which no permission question is answered yes |
| Resolver.InvalidateExactly | authz/http_resolver.go:101-103 | a Resolve started after an invalidation can be given an answer from before it exactly when an unfailed call for the key is in flight at the invalidation |
| Resolver.ClearExactly | authz/http_resolver.go:106 | the same of clearing the cache |
| Resolver.UncleanRolesMixAnswers | authz/http_resolver.go:108-121 | a run in which the roles "a" and "b" are served what was granted to the role "a,b" |
| Resolver.SoloRun | authz/http_resolver.go:82-97 | an undisturbed Resolve that misses the cache is a run of the machine with the expected end |
| Resolver.HttpResolver.Resolve | authz/http_resolver.go:74-98 | the client is asked exactly when there are roles and no entry at most ttl old; its reply is what is recorded, returned or turned into the fail-open answer, and stored if it succeeded and the cache keeps it; otherwise the entry is returned and nothing changes; all of it in steps of the machine |
| Resolver.HttpResolver.InvalidateEntry | authz/http_resolver.go:101-103 | is the machine's invalidation step |
| Resolver.HttpResolver.ClearEntries | authz/http_resolver.go:106 | is the machine's clearing step |
| Resolver.HttpResolver.Tick | authz/http_resolver.go:87 | time may pass between calls, as the machine's tick |
| Jwks.RunKeepsInv | jwt/jwks.go:65-141 | every state of every interleaving keeps the lock exclusive, grants a cooldown apart, the set that of the last store, and endings justified |
| Jwks.GrantsAreRationed | jwt/jwks.go:77-83 | in every concurrent run, k forced refreshes within a window of length w satisfy (k - 1) * cooldown <= w |
| Jwks.ReturnedKeysAreFresh | jwt/jwks.go:94-113 | in whatever order overlapping fetches store, a returned key has the requested identifier and belongs to a set stored at most `refresh` before the lookup |
| Jwks.TurnedAwayOnlyAfterGrant | jwt/jwks.go:78-81 | a caller is turned away only when a refresh was granted less than a cooldown before |
| Jwks.LockExcludes | jwt/jwks.go:77-83 | at most one thread is inside a locked section |
| Jwks.FirstKeyFound | jwt/jwks.go:103-108 | a scan finds a key with the identifier exactly when the set has one, and then the first |
| Jwks.FreshKeyIsSeen | jwt/jwks.go:94-113 | a lookup sees a key exactly when there is a set, at most `refresh` old, that has one with the identifier |
| Jwks.JWKSProvider.Lookup | jwt/jwks.go:94-113 | the loop returns the first key with the identifier of a set that is not stale |
| Jwks.JWKSProvider.KeyByID | jwt/jwks.go:72-92 | the server is asked, and the refresh recorded, exactly when no set that is not stale has the key and the cooldown is over; what is stored is its reply, and the result is the first key seen before, or in that reply; all of it in steps of the machine |
| Jwks.JWKSProvider.FetchAndLookAgain | jwt/jwks.go:85-91 | after the grant a reply is stored with its time and its first key with the identifier returned; without a reply nothing is stored; in steps of the machine |
| Jwks.JWKSProvider.Keep | jwt/jwks.go:136-139 | replaces the set and its time together |
| Jwks.JWKSProvider.Tick | jwt/jwks.go:111-113 | time may pass between calls, as the machine's tick |
| Portal.RunKeepsInv | portal_open_api_client.go:200-242 | in every run the cache holds exactly the tokens that stand after the recorded requests and clears, and every recorded event is justified by those before it |
| Portal.CachedWasIssuedForItsScope | portal_open_api_client.go:206-215 | the entry under a scope was issued for a request naming that scope, and neither replaced nor cleared since |
| Portal.ServedFromCacheIsLive | portal_open_api_client.go:206-209 | a token served from the cache is served strictly before its reception plus its lifetime less the skew, which is never negative |
| Portal.ReissueNeedsExpiryOrClear | portal_open_api_client.go:206-214 | between two consecutive successful requests to the issuer for a scope, the first token expired or the scope was cleared |
| Portal.CallsCarryTheirScope | portal_open_api_client.go:236-242 | in every run a call goes out with the verb that its method spelled when it was asked for; a GET carries a token issued for the read scope, every other verb one issued for the write scope |
| Portal.RequestExactly | portal_open_api_client.go:236-255 | after any run a request is refused exactly when its method spells none of the five verbs, or its path is outside the Portal; otherwise it goes out with the verb spelled and a token of that verb's scope, unless none is to be had |
| Portal.NormalizeExactly | portal_open_api_client.go:407-415 | a method is taken for a verb exactly when its text is white space around that verb in letters of either case |
| Portal.GetExactly | portal_open_api_client.go:200-216 | after any run an unknown scope is refused, an entry that has not expired is returned without asking, and otherwise the issuer's answer decides; only the entry of the scope changes, and a token returned is one for the scope |
| Portal.IssuedExactly | portal_open_api_client.go:345-379 | a token is issued exactly for an answer below 400 with a token that is not blank, bearer type, a positive lifetime, and the asked scope among the words of the returned scope, or of itself when none is returned; the token is the one in the answer, without white space around it |
| Portal.FieldsExactly | portal_open_api_client.go:371 | the fields of a scope text are exactly its words: maximal runs without white space |
| Portal.TrimSpaceMeans | portal_open_api_client.go:356 | trimming removes white space at both ends and nothing else, and leaves nothing exactly of blank text |
| Portal.ReusableExactly | portal_open_api_client.go:374-379 | a fresh token is cached, and can be served from the cache so many nanoseconds later exactly when its lifetime exceeds the skew by at least one nanosecond more than that |
| Portal.OutlivesTheSkewButIsNotReused | portal_open_api_client.go:374-379 | with a skew of one second a token of 1.0000000005 seconds outlives the skew and is not usable from the cache |
| Portal.PortalOpenAPIClient.GetMachineToken | portal_open_api_client.go:200-216 | new state and result are those of the specified operation, from cache, issuer and clock |
| Portal.PortalOpenAPIClient.RequestMachineToken | portal_open_api_client.go:319-380 | the checks on the issuer's answer, in order, and the expiry |
| Portal.PortalOpenAPIClient.Contains | portal_open_api_client.go:479-488 | the scan finds the value exactly when it is among the fields |
| Portal.PortalOpenAPIClient.ClearTokenCache | portal_open_api_client.go:219-229 | drops every entry, or those of the named scopes |
| Portal.PortalOpenAPIClient.Tick | portal_open_api_client.go:206 | time may pass between calls, as the operation that only moves the clock |
| Portal.PortalOpenAPIClient.RequestJSON | portal_open_api_client.go:236-276 | is the specified request: method and path are checked before a token is obtained for the method's scope, and the call is recorded with the method as it was given |
| Paging.ValidateAuthorizationPage | authorization_management_client.go:675-698 | with wrapping 64-bit arithmetic the check accepts exactly the pages that are right over unbounded integers |
| Paging.PagesConserveElements | authorization_management_client.go:682-695 | for any total and size, the counts accepted on all pages add up to exactly the total |
| Paging.EveryPageHasOneCount | authorization_management_client.go:686-690 | every page has exactly one acceptable count, between one and the size |
| Security.ValidateSecurityJson | account_security_transport.go:259-335 | the recursive procedure with its loops and shrinking map decides the specification of acceptance |
| Security.ValidateFields | account_security_transport.go:296-311 | the loop over the declared fields accepts exactly when each present field is valid and each absent or null one may be |
| Security.AcceptedNode | account_security_transport.go:259-441 | acceptance reaches every depth: a node at the end of any path is accepted and obeys the rule of its type |
| Security.AcceptedExactly | account_security_transport.go:259-441 | a response is accepted exactly when every reachable node has the right kind, its required fields, and obeys the rule of its own type, each rule being stated in terms of what the fields say |
| Security.RuleExactly | account_security_transport.go:336-441 | each rule holds exactly when the fields say so: for a proof option, identifierId and maskedIdentifier are there exactly for EMAIL_OTP, methodId and displayName exactly for PROVIDER, availableMethods exactly for STEP_UP_PROOF, and then a nonempty list of TOTP and WEBAUTHN; likewise for the other nine rules |
| Security.Int64LiteralExactly | account_security_transport.go:326-330 | a literal is taken for a number exactly when it is its decimal digits, after a minus sign if it is negative, within 64 bits |
| Security.ToMapExactly | account_security_transport.go:291-294 | the value under a name is that of the last member of that name |
| Security.AcceptedCapability | account_security_transport.go:359-373 | wherever a capability occurs in an accepted response of any type, it is allowed exactly when no reason is given against it |
| Security.AcceptedOperation | account_security_transport.go:375-381 | wherever an MFA operation occurs in an accepted response of any type, it is COMMITTED exactly when it has a result, and leaks no material |
| Security.SimilarSameVerdict | account_security_transport.go:296-312 | undeclared members that no rule reads, and null for absent fields or the other way round, change no verdict at any depth |
| Security.AddedMemberIsSimilar | account_security_transport.go:296-312 | adding such a member, or a null for an absent field, anywhere in an object is such a change |
| Security.PutIsSimilar | account_security_transport.go:259-335 | replacing the node at the end of any path by a similar one leaves the whole response similar |
| Security.AddedMemberAnywhere | account_security_transport.go:259-335 | such a member may be added to any object of a response, at any depth, without changing the verdict |
| Security.SameVerdictOfRule | account_security_transport.go:336-441 | a rule's verdict depends only on the keys it reads |
| SecuritySchemas.AcceptedTotpBegin | account_security_types.go:203-207 | an accepted TOTPBeginResult holds an operation that is COMMITTED exactly when it has a result, and delivers material exactly when it says so |
| SecuritySchemas.AcceptedMfaCompletion | account_security_types.go:222-226 | an accepted MFACompletionResult delivers recovery codes exactly when it says so, and as many as it counts |
| SecuritySchemas.AcceptedIdentifiers | account_security_types.go:295-314 | in an accepted identifier list the capabilities of every identifier are for known actions, each is allowed exactly when no reason is given against it, and names replacements by UUID |
| Codegen.PascalCase | cmd/iam-codegen/generator/generate.go:106-124 | the loop drops separators and capitalises what follows them |
| Codegen.ConstNameReadsAsWords | cmd/iam-codegen/generator/generate.go:92-124 | a constant is named by the words of the resource and then those of the action, as separators divide them, each with its first letter in upper case; behind a P if that starts with a digit, and Permission if there are none |
| Codegen.ConstNamesAreExported | cmd/iam-codegen/generator/generate.go:95-104 | every concrete key gets a name of an upper-case letter followed by ASCII letters and digits |
| Codegen.SortOrder | cmd/iam-codegen/generator/generate.go:35-40 | the sort key of the model orders definitions by resource and then by action |
| Codegen.RenderableExactly | cmd/iam-codegen/generator/generate.go:51-67 | a list is renderable exactly when all definitions are concrete with normal descriptions, and no two share resource and action or get the same name |
| Codegen.RenderOne | cmd/iam-codegen/generator/generate.go:51-74 | the checks on one definition yield its entry or a fault that really is one, naming the earlier definition in a collision |
| Codegen.RenderSorted | cmd/iam-codegen/generator/generate.go:48-74 | the loop succeeds exactly when all keys are concrete, all descriptions normal, and keys and names are distinct; otherwise it reports the fault of the first definition that does not render after those before it |
| Codegen.Render | cmd/iam-codegen/generator/generate.go:27-74 | succeeds exactly for a named package and a renderable list, with the entries of the sorted list; otherwise the fault is one of the given list, and the one at which a sorted arrangement of it stops rendering |
| Codegen.RenderingIsPermutationInvariant | cmd/iam-codegen/generator/generate.go:34-74 | the order of the definitions shows neither in the verdict nor in the entries |
| Codegen.RenderedNamesAreSound | cmd/iam-codegen/generator/generate.go:63-73 | on success there is one entry for each definition with its resource, action and description, and all names are pairwise distinct and valid |
| Codegen.ClashesWithAllExactly | cmd/iam-codegen/generator/generate.go:95-138 | a concrete key is named like the fixed list exactly when one side spells "all" between separators and the other is separators only |
| Codegen.AllClash | cmd/iam-codegen/generator/generate.go:138 | resource "all" with action "_" is such a key |
| Text.SortedUnique | cmd/iam-codegen/generator/generate.go:35-40 | when equal keys mean equal elements, an unstable sort has only one outcome |
| Text.SplitJoin | authz/http_resolver.go:114-119 | joined pieces that are free of the separator are recovered by splitting |
| Text.LessExactly | permission_manifest.go:175 | one string comes before another exactly when it is a proper prefix of it or has the smaller character where they first differ |
| Text.UuidGroups | account_security_transport.go:46 | a UUID is runs of 8, 4, 4, 4 and 12 lower-case hexadecimal digits between dashes |

## Left out

- HTTP transport, URLs, headers and the check of extra headers: input and output.
- JSON decoding into Go structures, with its case-insensitive member names and reflection: responses are decoded values or type trees; a decoder is a parameter of the manifest client.
- UTF-8: strings are sequences of Unicode characters, so invalid byte sequences, which the manifest and the generator refuse, do not occur; byte order and character order agree.
- SHA-256, NFC normalization and regular-expression engines: a function, a predicate, and predicates on characters.
- Json.JcsIdentifies: values without numbers, because a manifest holds none and the reader knows none.
- Resolver.InvalidateExactly: the cache library applies insertions and deletions at once here, where it may buffer insertions; slices handed out are values, so a caller that changes one is not modelled.
- The internals of the cache, of the call-sharing library and of the backoff library, and the retry wrappers that use the latter.
- Portal.ServedFromCacheIsLive: lifetimes are real numbers, so floating-point rounding and lifetimes beyond the 292 years of a duration are not modelled.
- Retry.ManifestClient.MachineToken: expires_in is unbounded, so a product beyond the range of a duration is not modelled.
- Retry.ManifestClient.Send: the codes and details of error bodies, the per-attempt and per-command timeouts other than as failures and cancellations, request encoding, and the observer.
- RunPermissionManifestStartup, whose NetworkAttempted flag is set even when local validation fails: one branch settles it.
- Jwks.JWKSProvider.KeyByID: the causes of a failed fetch are one; a provider that was never refreshed has no last refresh instead of the zero time.
- Codegen.Render: stops at the list of entries, before the template and the formatter; upper-casing is exact where it yields ASCII letters, which is all that concrete keys need.
- Security.ValidateSecurityJson: the request-side checks and the decoding around it; SecuritySchemas holds the types with nested rules, the remaining types being instances of the same scheme.
- Configuration defaults, constructors that only copy settings, error texts, framework adapters, examples and command-line handling.
