# Verified model of the MCP toolkit's authentication and protocol core

A Dafny model of the parts of the toolkit where correctness spans many steps or many functions,
with machine-checked proofs of what they promise. Check everything with
`dafny verify dfyconfig.toml`.

What is modelled, by module:

- **Auth surface** (`RequestPath`, `IssuerRegistry`, `RegistryBuilder`, `WellKnownRoutes`, `AuthorizationDigest`,
  `RequestBinding`, `SurfaceSteps`, `SurfaceRuns`): path normalisation, the resource registry, how it is built and its routing order,
  and the one-shot request witness.
  The witness is a transition system: any number of requests, threads that check and later run their
  compare-and-exchange, guards that drop at any time, an inner service that copies private extension values
  between requests at will, and marker and cell addresses that are reused once nothing refers to them.
- **Replay protection** (`ReplayCache`, `Claims`, `Authenticator`): the in-memory JTI cache with its lazy expiry,
  periodic pruning and arbitrary eviction victims, compared with an ideal unbounded history; claim merging;
  the order of the authenticator's checks; the replay store bound to a token's own key.
- **Outbound DPoP** (`FormEncoding`, `ExchangeRequest`, `NonceStore`, `TokenExchange`): the urlencoded serializer
  with its cap, the token-exchange request builders, the shared nonce store, the resource transaction, and the
  retry loop against an arbitrary server with arbitrary concurrent writers of the store.
- **Canonical forms and printers** (`CanonicalJson`, `JsonText`, `JsonIdentity`, `Subscription`, `CapabilityPolicy`,
  `ShellQuoting`, `BearerChallenge`) and the **document chunker** (`Chunker`).

`Text`, `Utf8`, `Sorting`, `Json` and `Hashing` hold what these share.

Conventions. Rust strings are Dafny strings, with byte lengths and byte streams taken through UTF-8 (`Utf8`).
SHA-256 is an injective function of its input (`Hashing.Digest`). Clocks, the network, signing and JSON parsing are
parameters. JSON numbers are held as the token serde_json prints for them, so two numbers are equal when they print
alike. `Option` and `Result` stand for the source's error paths.

Where a promise has limits, the code is followed and the limit is stated:

- Path normalisation is idempotent on every path whose triplets, read left to right, contain no slash, in particular
  on well-formed ones (`SlashFreeIdempotent`). Otherwise a malformed triplet can swallow a slash and shield a backslash
  from the first pass only (`MalformedNotIdempotent`). The exact condition is on the argument of the second call
  (`SecondPassNoOp`, `FixedPoints`).
- Configured resource paths and request paths are normalised differently. A resource such as `/a//b` is accepted and is
  never matched (`GuardsOnlyIfResolved`, `DoubledSlashNotNormal`); a resource guards its own path exactly when that path
  is in the normal form of requests (`GuardsItselfExactly`), and under pass-through it is otherwise reached without
  authentication (`UnguardedUnlessNormal`).
- Resource paths with white space inside their outer slashes can be distinct and still claim the same well-known route
  (`SpacedPathsCollide`); `SharedRoute` says exactly when.
- The replay cache holds one entry even when its capacity is zero, so its size bound is the larger of capacity and one.
- A signed confirmation claim blocks bearer use in every mode that decodes signed claims. Under forced introspection
  and in introspection mode the signed claims are not read, and such a token can pass
  (`ForcedIntrospectionSkipsConfirmation`); `SignedConfirmationAsBearer` says exactly when.
- A token that the server did grant is lost when its reply also brings a nonce for a namespace that is full
  (`FullNamespaceLosesToken`); `TokenExactly` says exactly when one is returned.
- A rendered command splits into its arguments, but a first argument such as `A=b` is then an assignment
  (`AssignmentExactly`, `AssignmentExample`).
- The return after the retry loop of the token exchange is unreachable, and so are the cap failure of the form encoder
  and the bare `Bearer` fallback of the challenge builder.

## Model

| member | source | states |
|---|---|---|
| RequestPath.NormalizeRequestPath | crates/mcp-toolkit-auth/src/surface.rs:772-826 | the two loops compute the normal form about which the lemmas below speak |
| RequestPath.DecodeScan | crates/mcp-toolkit-auth/src/surface.rs:773-807 | the character scan with its lookahead is the recursive decoding, malformed and truncated triplets included |
| RequestPath.ResolveLoop | crates/mcp-toolkit-auth/src/surface.rs:809-819 | the segment stack loop is the left fold in which `..` pops and `.` and empty pieces are skipped |
| RequestPath.ResolveExactly | crates/mcp-toolkit-auth/src/surface.rs:809-819 | the stack keeps the pieces that matching each `..` with the nearest ordinary piece to its left keeps, computed from the right; the root is not climbed out of |
| RequestPath.NormalizedShape | crates/mcp-toolkit-auth/src/surface.rs:772-826 | for any input the result is rooted and no piece of it is empty, `.` or `..` |
| RequestPath.NormalForm | crates/mcp-toolkit-auth/src/surface.rs:772-826 | the result is `/` alone, or splits into an empty piece and the surviving pieces of the decoded path |
| RequestPath.DecodeConcat | crates/mcp-toolkit-auth/src/surface.rs:773-807 | after any text that does not stop inside a triplet, decoding starts afresh |
| RequestPath.TripletExactly | crates/mcp-toolkit-auth/src/surface.rs:776-789 | exactly `%2F`, `%2f`, `%5C`, `%5c`, `%2E` and `%2e` are decoded; every other `%` with two characters stays, hexadecimal or not |
| RequestPath.TripletDecoded | crates/mcp-toolkit-auth/src/surface.rs:776-789 | so it is at every place the scan reaches |
| RequestPath.CharDecoded | crates/mcp-toolkit-auth/src/surface.rs:802-806 | every other character stays, save that a backslash becomes a slash |
| RequestPath.CutOffKept | crates/mcp-toolkit-auth/src/surface.rs:790-799 | a triplet cut off by the end of the path stays |
| RequestPath.SlashRespelling | crates/mcp-toolkit-auth/src/surface.rs:772-832 | in a well-formed path, a slash anywhere may be written `//`, `/./`, `/x/../`, a backslash, `%2F` or `%5C` (either case) without changing the result |
| RequestPath.DotRespelling | crates/mcp-toolkit-auth/src/surface.rs:772-832 | likewise for writing a dot as `%2E` or `%2e` |
| RequestPath.NormalizeIdempotent | crates/mcp-toolkit-auth/src/surface.rs:772-832 | normalising a well-formed path twice is normalising it once, and the result is well formed |
| RequestPath.FixedPoints | crates/mcp-toolkit-auth/src/surface.rs:772-832 | for every input, normalisation returns it unchanged if and only if it is rooted with ordinary pieces and, read left to right, holds no backslash and none of the six decoded triplets |
| RequestPath.SlashFreeIdempotent | crates/mcp-toolkit-auth/src/surface.rs:772-832 | any path in which, read left to right, no triplet contains a slash is normalised once and for all, however malformed its triplets are |
| RequestPath.SecondPassNoOp | crates/mcp-toolkit-auth/src/surface.rs:772-832 | exactly, for the second call: it changes nothing if and only if its argument holds no backslash or decodable triplet |
| RequestPath.DecodedIsStable | crates/mcp-toolkit-auth/src/surface.rs:773-807 | for every input, decoding leaves nothing more to decode |
| RequestPath.MalformedNotIdempotent | crates/mcp-toolkit-auth/src/surface.rs:772-832 | a concrete rooted path with malformed triplets on which two passes differ from one |
| IssuerRegistry.NormalizeResourcePath | crates/mcp-toolkit-auth/src/surface.rs:732-743 | the result is the root or starts with one slash and ends without one |
| IssuerRegistry.ResourcePathCore | crates/mcp-toolkit-auth/src/surface.rs:732-743 | exactly outer white space and outer slashes are lost, and one leading slash is put in front |
| RegistryBuilder.CheckEntry | crates/mcp-toolkit-auth/src/surface.rs:522-651 | an entry passes exactly when it is acceptable and its path is new; blank fields are reported before duplicates, and those before URL problems |
| RegistryBuilder.EntryProblemExactly | crates/mcp-toolkit-auth/src/surface.rs:534-542 | an entry is complained about for the first of issuer, authorization endpoint and token endpoint that is blank |
| RegistryBuilder.WellKnownExactly | crates/mcp-toolkit-http/src/oauth.rs:148-160 | a route is the well-known name followed by the resource path, or the name alone for the root |
| WellKnownRoutes.WellKnownReachable | crates/mcp-toolkit-auth/src/surface.rs:1338-1347 | the well-known routes of a resource in the normal form of requests are themselves in that form, so asking for one reaches it |
| RegistryBuilder.RootAliasExactly | crates/mcp-toolkit-auth/src/surface.rs:519-523 | the bare name is served for the root, and for a blank suffix only as the alias policy and the number of entries say |
| RegistryBuilder.RouteTold | crates/mcp-toolkit-http/src/oauth.rs:148-160 | a well-known route determines its kind and the suffix of its resource |
| RegistryBuilder.SharedRoute | crates/mcp-toolkit-auth/src/surface.rs:834-858 | two resources share a route if and only if they share a suffix, a blank one only where the root alias is allowed |
| RegistryBuilder.TrimmedPathsNeverCollide | crates/mcp-toolkit-auth/src/surface.rs:834-858 | distinct resource paths without outer white space never share a route, so the duplicate-route error cannot arise among them |
| RegistryBuilder.SpacedPathsCollide | crates/mcp-toolkit-auth/src/surface.rs:834-858 | a concrete pair of paths that normalise differently and still share a route |
| RegistryBuilder.InsertRoutes | crates/mcp-toolkit-auth/src/surface.rs:834-858 | adds the routes of all three kinds for the entry, leaving the others alone, exactly when none is taken, and otherwise names one that is |
| RegistryBuilder.BuildRegistry | crates/mcp-toolkit-auth/src/surface.rs:494-692 | a configuration is accepted exactly when it is non-empty, its base URL and every entry are acceptable, its resource paths are distinct and no two share a route; the registry then realises each entry in order and serves exactly their routes, each for its own entry and kind; a refusal names what is wrong with the first entry that does not fit, a taken route with the earlier entry that holds it |
| IssuerRegistry.MatchEntryLoop | crates/mcp-toolkit-auth/src/surface.rs:695-708 | the best-so-far loop computes the match about which the next lemmas speak |
| IssuerRegistry.MatchIsLongest | crates/mcp-toolkit-auth/src/surface.rs:695-708 | no match exactly when no resource matches; otherwise the match is registered, matches, and is at least as long as every other match |
| IssuerRegistry.MatchOrderIndependent | crates/mcp-toolkit-auth/src/surface.rs:695-708 | any reordering of the registered entries gives the same match |
| IssuerRegistry.PrefixIsPiecewise | crates/mcp-toolkit-auth/src/surface.rs:759-770 | textual matching, equal or followed by a slash, is exactly having all the resource's pieces in front |
| IssuerRegistry.MatchIsCovering | crates/mcp-toolkit-auth/src/surface.rs:759-770 | on rooted paths a resource matches exactly when its pieces are the first pieces of the path |
| IssuerRegistry.PublicIsCovered | crates/mcp-toolkit-auth/src/surface.rs:715-725 | a rooted path is public exactly when listed or when its first pieces are those of a public prefix |
| IssuerRegistry.ProtectedExactly | crates/mcp-toolkit-auth/src/surface.rs:1338-1462 | a request is guarded by an entry if and only if its normalised path is neither well-known nor public and the entry is the deepest covering resource |
| IssuerRegistry.UnauthenticatedExactly | crates/mcp-toolkit-auth/src/surface.rs:1338-1462 | the inner service sees a request without authentication if and only if its path is public, or nothing covers it under pass-through |
| IssuerRegistry.RouteExactly | crates/mcp-toolkit-auth/src/surface.rs:1338-1462 | when a request is answered with metadata, is public, or is left to the policy for unmatched paths |
| IssuerRegistry.RouteIgnoresSpelling | crates/mcp-toolkit-auth/src/surface.rs:1338-1462 | respelling slashes or dots of a well-formed path never changes the route |
| IssuerRegistry.GuardsOnlyIfResolved | crates/mcp-toolkit-auth/src/surface.rs:1338-1462 | no request whatever is guarded by a resource whose path has an empty, `.` or `..` piece |
| IssuerRegistry.GuardsItselfExactly | crates/mcp-toolkit-auth/src/surface.rs:695-770 | a resource guards a request for its own path if and only if that path is already in the normal form of requests |
| IssuerRegistry.UnguardedUnlessNormal | crates/mcp-toolkit-auth/src/surface.rs:1338-1462 | a request for the path of the only resource is guarded if and only if that path is in normal form; otherwise it is denied, or goes by unauthenticated under pass-through |
| IssuerRegistry.DoubledSlashNotNormal | crates/mcp-toolkit-auth/src/surface.rs:732-743 | a concrete resource path that configuration accepts as it is and request normalisation changes |
| AuthorizationDigest.ComputeDigest | crates/mcp-toolkit-auth/src/surface.rs:1098-1108 | the incremental hash is the digest of the length-prefixed stream of all values |
| AuthorizationDigest.StreamExactly | crates/mcp-toolkit-auth/src/surface.rs:1098-1108 | the hashed stream is the count and then each value behind its length, as big-endian 64-bit words |
| AuthorizationDigest.ValueStreamInjective | crates/mcp-toolkit-auth/src/surface.rs:1098-1108 | lists of equally many values with equal streams are equal |
| AuthorizationDigest.DigestDecidesHeaders | crates/mcp-toolkit-auth/src/surface.rs:1098-1108 | two requests have the same digest if and only if they carry the same Authorization values in the same order |
| RequestBinding.Lifecycle.Consume | crates/mcp-toolkit-auth/src/surface.rs:924-934 | succeeds exactly from active, moving to consumed, and otherwise changes nothing |
| RequestBinding.Lifecycle.Close | crates/mcp-toolkit-auth/src/surface.rs:937-947 | leaves the request closed, never an earlier stage |
| RequestBinding.SameExactly | crates/mcp-toolkit-auth/src/surface.rs:1048-1056 | URIs are the same when path and query are, and scheme and authority are up to the case of letters |
| RequestBinding.ConsumeVerifiedRequest | crates/mcp-toolkit-auth/src/surface.rs:1048-1096 | grants exactly when every check passes and the request is active, URIs compared as `http::Uri` does; the grant is what the checks establish; a refusal changes nothing |
| SurfaceSteps.CheckIsFaithful | crates/mcp-toolkit-auth/src/surface.rs:1048-1096 | in a state satisfying the invariant, values that pass the checks belong to the request that owns the binding |
| SurfaceSteps.CheckExactly | crates/mcp-toolkit-auth/src/surface.rs:1048-1096 | the checks pass exactly when binding, context and surface were made for one request and what is presented is how that request came in |
| SurfaceSteps.AdmittedExactly | crates/mcp-toolkit-auth/src/surface.rs:1338-1462 | a request is let in exactly on an unauthenticated route, or on a protected one when the authenticator answered and the entry is open or lists the non-empty client; it then carries that answer and the surface of the entry |
| SurfaceSteps.ReceptionExactly | crates/mcp-toolkit-auth/src/surface.rs:1338-1425 | a reception leaves in the request exactly what was attached for it, or nothing |
| SurfaceSteps.ExchangeSpends | crates/mcp-toolkit-auth/src/surface.rs:924-934 | an exchange spends the attempt, and leaves its cell not active |
| SurfaceSteps.StepKeepsInv | crates/mcp-toolkit-auth/src/surface.rs:1048-1124 | the ownership and freshness invariant is kept by every step of every thread and of the inner service |
| SurfaceRuns.RunsKeepInv | crates/mcp-toolkit-auth/src/surface.rs:1048-1124 | hence it holds throughout every run, whatever receptions are admitted with |
| SurfaceRuns.RecordsAreReceived | crates/mcp-toolkit-auth/src/surface.rs:1338-1425 | in every run a record is of one of the receptions of that request, with what it was admitted with, or of an earlier request, unchanged |
| SurfaceRuns.Provenance | crates/mcp-toolkit-auth/src/surface.rs:1048-1124 | in every run whose receptions go as the wrapper decides, each witness goes back to a reception of its request: it was presented with that method, those Authorization values and that URI up to letter case of its origin; on a protected route it carries exactly what the authenticator answered about that reception and the surface of the entry, which that client may enter; on an unauthenticated route it carries nothing, and no other route yields one |
| SurfaceRuns.SingleConsumption | crates/mcp-toolkit-auth/src/surface.rs:924-934 | in every run a request has at most one witness, however its binding was copied |
| SurfaceRuns.NothingAfterDrop | crates/mcp-toolkit-auth/src/surface.rs:937-947 | once the guard has dropped, nothing in the rest of a run changes the request's record |
| SurfaceRuns.StageNeverRetreats | crates/mcp-toolkit-auth/src/surface.rs:877-947 | over any stretch of any run a request's stage never moves backwards |
| SurfaceRuns.CellShowsStage | crates/mcp-toolkit-auth/src/surface.rs:877-935 | in every reachable state the cell behind a held binding shows the stage of the request it was made for, address reuse notwithstanding |
| SurfaceRuns.RefusalsChangeNothing | crates/mcp-toolkit-auth/src/surface.rs:1048-1096 | after any number of refused attempts the state is what it was |
| SurfaceRuns.ExchangeAlwaysEnabled | crates/mcp-toolkit-auth/src/surface.rs:1048-1096 | in reachable states an attempt that passed its checks can always run its exchange |
| SurfaceSteps.UndisturbedIsGranted | crates/mcp-toolkit-auth/src/surface.rs:1048-1124 | an active request presented as received is granted, and its record gains that witness |
| ReplayCache.JtiCache.Prune | crates/mcp-toolkit-auth/src/replay.rs:91-100 | counts the call and every hundredth time drops exactly the expired entries |
| ReplayCache.JtiCache.MakeRoom | crates/mcp-toolkit-auth/src/replay.rs:107-112 | removes one arbitrary entry exactly when the map is full and not empty |
| ReplayCache.JtiCache.Seen | crates/mcp-toolkit-auth/src/replay.rs:91-116 | answers whether an unexpired entry exists and leaves the state of one model step for some legal victim |
| ReplayCache.PruneUnobservable | crates/mcp-toolkit-auth/src/replay.rs:91-100 | pruning never changes an answer |
| ReplayCache.PruneHappens | crates/mcp-toolkit-auth/src/replay.rs:91-100 | a call that completes the period leaves no other expired entry |
| ReplayCache.CountedCalls | crates/mcp-toolkit-auth/src/replay.rs:91-100 | over every run the count is the number of calls modulo one hundred, so every hundredth call prunes |
| ReplayCache.SizeBounded | crates/mcp-toolkit-auth/src/replay.rs:103-116 | the map never exceeds the larger of capacity and one, whatever is evicted |
| ReplayCache.BalanceKept | crates/mcp-toolkit-auth/src/replay.rs:91-116 | missed replays plus recordings forgotten too early never exceed the evictions of unexpired entries, step by step |
| ReplayCache.RunKeepsInv | crates/mcp-toolkit-auth/src/replay.rs:91-116 | the cache invariant holds along every run with a non-decreasing clock |
| ReplayCache.Accuracy | crates/mcp-toolkit-auth/src/replay.rs:91-116 | in every run a replay answer is backed by a recording within the time-to-live, missed replays are at most the evictions, and the size bound holds |
| ReplayCache.ExactWithoutEviction | crates/mcp-toolkit-auth/src/replay.rs:91-116 | while no unexpired entry has been evicted, the answer is exactly "seen within the time-to-live" |
| ReplayCache.Refines | crates/mcp-toolkit-auth/src/replay.rs:91-116 | in any run with at most `capacity` distinct identifiers every answer is that of the unbounded expiring history |
| Claims.MergeClaimsLoop | crates/mcp-toolkit-auth/src/claims.rs:217-233 | the insertion loop computes the merge about which the next lemmas speak |
| Claims.GetExactly | crates/mcp-toolkit-auth/src/claims.rs:38-43 | looking up a claim gives exactly the member of an object with that key, and nothing in any other value |
| Claims.MergeLookup | crates/mcp-toolkit-auth/src/claims.rs:217-233 | looking up any key in the merge gives the response's value if it has one, except that a signed `cnf` stays |
| Claims.ClaimExactly | crates/mcp-toolkit-auth/src/authenticator.rs:506-513 | a text claim is the trimmed text of a string member if anything is left, and a confirmed key is the non-empty `jkt` of `cnf` |
| Claims.SignedConfirmationSurvives | crates/mcp-toolkit-auth/src/claims.rs:217-233 | no introspection response can erase or replace a signed confirmation claim or its key thumbprint |
| Claims.WordsOfJoined | crates/mcp-toolkit-auth/src/claims.rs:151-170 | scope words separated by any white-space character are read back in order |
| Claims.ScopesExactly | crates/mcp-toolkit-auth/src/claims.rs:151-170 | a token has exactly the words of its scope text, or the trimmed non-blank texts of its scope list, read from the first of `scope`, `scp` and `scopes` that is there |
| Authenticator.SelectExactly | crates/mcp-toolkit-auth/src/authenticator.rs:308-342 | over configuration and evidence: the signed claims in delegation and in JWKS mode without introspection, the response in introspection and forced mode, and in JWKS mode with introspection claims that look up as their merge; every source consulted must have answered, and the first that did not gives the error |
| Authenticator.PreflightExactly | crates/mcp-toolkit-auth/src/authenticator.rs:303-413 | a token passes exactly when every source its mode consults has answered and the claims in force are bound as required and name an actor and every required scope; otherwise the first of these that fails gives the error |
| Authenticator.AcceptedContext | crates/mcp-toolkit-auth/src/authenticator.rs:303-480 | the context shows the claims in force; its actor, client, subject and scopes are what those claims say, the scopes sorted without repetition, and its roles, token and fingerprint are those of the evidence |
| Authenticator.SignedConfirmationSelected | crates/mcp-toolkit-auth/src/authenticator.rs:303-345 | in modes that decode signed claims, the selected claims keep the signed confirmation |
| Authenticator.NoBearerWithSignedConfirmation | crates/mcp-toolkit-auth/src/authenticator.rs:303-445 | such a token never authenticates as a bearer token, whatever introspection answers |
| Authenticator.SignedConfirmationAsBearer | crates/mcp-toolkit-auth/src/authenticator.rs:303-413 | for every configuration, a token with a signed `cnf` is taken as a bearer token if and only if the mode leaves signed claims unread and the introspection response passes by itself |
| Authenticator.ForcedIntrospectionSkipsConfirmation | crates/mcp-toolkit-auth/src/authenticator.rs:308-322 | a concrete token with a signed `cnf` that passes as a bearer token under forced introspection and in introspection mode |
| Authenticator.ConfirmationBoundReplayStore.InsertOnce | crates/mcp-toolkit-auth/src/authenticator.rs:34-46 | forwards exactly the insertion under the token's own key; anything else is answered "not inserted", remembered as a mismatch and never forwarded |
| Authenticator.ForwardedExactly | crates/mcp-toolkit-auth/src/authenticator.rs:34-46 | what reaches the inner store is exactly the matching calls, and all of them if and only if every call matches |
| Authenticator.RunVerifier | crates/mcp-toolkit-auth/src/authenticator.rs:251-297 | for an arbitrary verifier, the inner store receives the matching calls in order and a mismatch is flagged if and only if there was one |
| Authenticator.AuthenticateSenderConstrained | crates/mcp-toolkit-auth/src/authenticator.rs:251-297 | the result for every preflight outcome, mismatch and verifier verdict, and exactly what the replay store received |
| Authenticator.AuthenticateBearer | crates/mcp-toolkit-auth/src/authenticator.rs:303-445 | the result is the modelled outcome in every case of enforcement, missing or failing store, missing identifier and replay; the store moves by one modelled step exactly when it is asked |
| Authenticator.OutcomeExactly | crates/mcp-toolkit-auth/src/authenticator.rs:414-445 | replay enforcement comes last: a missing store, identifier or answer or a live entry refuses what passed everything else, in that order, and the store is asked exactly then |
| Authenticator.StepKeepsCount | crates/mcp-toolkit-auth/src/authenticator.rs:414-445 | each attempt, enforced or not, keeps the enforced successes equal to the recordings and the early ones equal to the misses of the store |
| Authenticator.NoEvictions | crates/mcp-toolkit-auth/src/authenticator.rs:414-445 | attempts that ask about at most `capacity` identifiers evict nothing unexpired |
| Authenticator.SuccessesSpaced | crates/mcp-toolkit-auth/src/authenticator.rs:303-445 | over any run of attempts by any authenticators sharing a store, enforced successes within the time-to-live of an earlier one with the same trimmed identifier are at most the evictions of unexpired entries; with at most `capacity` identifiers there are none |
| FormEncoding.FormBody.AppendBytes | crates/mcp-toolkit-auth/src/outbound_dpop.rs:1795-1827 | appends all the bytes if they fit the cap, and otherwise nothing |
| FormEncoding.FormBody.AppendComponent | crates/mcp-toolkit-auth/src/outbound_dpop.rs:1795-1827 | appends the encoded component, or stops within the cap on a prefix exactly when it does not fit |
| FormEncoding.EncodeByteExactly | crates/mcp-toolkit-auth/src/outbound_dpop.rs:1804-1819 | alphanumerics and `*-._` are verbatim, a space is `+`, any other byte is upper-case hexadecimal |
| FormEncoding.FormBody.AppendField | crates/mcp-toolkit-auth/src/outbound_dpop.rs:1795-1827 | likewise for one field with its separator |
| FormEncoding.DecodeEncoded | crates/mcp-toolkit-auth/src/outbound_dpop.rs:1795-1827 | percent-decoding inverts component encoding, which contains no delimiter |
| FormEncoding.FormRoundTrip | crates/mcp-toolkit-auth/src/outbound_dpop.rs:1795-1827 | the WHATWG urlencoded parser (URL Standard, section 5.1) returns exactly the appended fields in order |
| FormEncoding.FormInjective | crates/mcp-toolkit-auth/src/outbound_dpop.rs:1795-1827 | different field lists have different bodies |
| ExchangeRequest.CheckScopes | crates/mcp-toolkit-auth/src/outbound_dpop.rs:758-770 | the scan with a set of seen scopes accepts exactly the bounded lists of distinct scope tokens |
| ExchangeRequest.BuiltIsValid | crates/mcp-toolkit-auth/src/outbound_dpop.rs:707-771 | whatever sequence of builder calls produced a request, it is within every limit |
| ExchangeRequest.BuiltExactly | crates/mcp-toolkit-auth/src/outbound_dpop.rs:707-771 | a request is built exactly from acceptable values within the counts, and holds the resources and audiences in the order added and the scopes set last |
| ExchangeRequest.FormExactly | crates/mcp-toolkit-auth/src/outbound_dpop.rs:777-792 | which values are sent under each name, and that none are under any other |
| ExchangeRequest.RequiredFieldExactly | crates/mcp-toolkit-auth/src/outbound_dpop.rs:1829-1841 | fields are not blank, within 2048 bytes and free of control characters |
| ExchangeRequest.CredentialExactly | crates/mcp-toolkit-auth/src/outbound_dpop.rs:1843-1848 | credentials are not empty, without outer white space, within 64 KiB and free of control characters |
| ExchangeRequest.ScopeTokenExactly | crates/mcp-toolkit-auth/src/outbound_dpop.rs:1850-1856 | scope tokens are visible ASCII other than quote and backslash |
| ExchangeRequest.AppendAll | crates/mcp-toolkit-auth/src/outbound_dpop.rs:777-792 | succeeds exactly when the whole form fits, with exactly its bytes; the buffer stays within the cap either way |
| ExchangeRequest.EncodeRequest | crates/mcp-toolkit-auth/src/outbound_dpop.rs:1143-1160 | returns the encoded fields of request and client, or the `request` error exactly when they exceed the cap |
| ExchangeRequest.FormFits | crates/mcp-toolkit-auth/src/outbound_dpop.rs:90-96 | every valid request with every valid client fits the 2 MiB cap, so that error is unreachable |
| ExchangeRequest.AcceptedRequestsRoundTrip | crates/mcp-toolkit-auth/src/outbound_dpop.rs:725-792 | every request the builders accept fits the cap and is parsed back to exactly its fields |
| ExchangeRequest.PairsInjective | crates/mcp-toolkit-auth/src/outbound_dpop.rs:777-792 | different name and value texts never share a body |
| ExchangeRequest.JoinedScopesSplit | crates/mcp-toolkit-auth/src/outbound_dpop.rs:777-792 | joined scope tokens split back to the same list |
| NonceStore.ValidNonceIsB64Token | crates/mcp-toolkit-auth/src/outbound_dpop.rs:1778-1793 | the nonce check accepts exactly the b64token grammar (section 2.1 of RFC 6750) up to 1024 bytes |
| NonceStore.StrictNonceHeader | crates/mcp-toolkit-auth/src/outbound_dpop.rs:1745-1776 | a nonce is returned only from a single valid header value; nothing is returned only when the header is absent |
| NonceStore.SetExactly | crates/mcp-toolkit-auth/src/outbound_dpop.rs:958-989 | a write succeeds exactly when the store is available and the key is known or its namespace is not full; it then changes that key alone, and otherwise says which of the two failed |
| NonceStore.WriteKeepsValid | crates/mcp-toolkit-auth/src/outbound_dpop.rs:958-989 | noting any reply headers whatever keeps both maps within capacity with only valid nonces |
| NonceStore.WriteIsIsolated | crates/mcp-toolkit-auth/src/outbound_dpop.rs:958-989 | a reply with one valid nonce for which there is a place puts it under one key of one namespace; any other changes nothing |
| NonceStore.RunsKeepValid | crates/mcp-toolkit-auth/src/outbound_dpop.rs:885-989 | over every run of replies noted by any holders, with no assumption on their headers, the store stays bounded and valid |
| NonceStore.UnwrittenKeysKept | crates/mcp-toolkit-auth/src/outbound_dpop.rs:885-989 | a key nobody writes keeps its nonce over any run |
| NonceStore.KnownKeysRefresh | crates/mcp-toolkit-auth/src/outbound_dpop.rs:958-989 | once stored, a key can be refreshed after any run: a full namespace never locks it out |
| NonceStore.NonceState.WithResourceCapacity | crates/mcp-toolkit-auth/src/outbound_dpop.rs:932-946 | zero capacity is refused; otherwise the new store is empty |
| NonceStore.NonceState.SetTokenEndpointNonce | crates/mcp-toolkit-auth/src/outbound_dpop.rs:958-971 | the same of the in-place operation, which keeps a valid store valid |
| NonceStore.NonceState.SetResourceNonce | crates/mcp-toolkit-auth/src/outbound_dpop.rs:977-989 | likewise for resources |
| NonceStore.AcceptExactly | crates/mcp-toolkit-auth/src/outbound_dpop.rs:1579-1598 | a challenge is accepted exactly for a 401 with one valid nonce, an unspent retry and a place for the nonce; only then do store and retry budget change, and each other case has its own answer |
| NonceStore.ObserveExactly | crates/mcp-toolkit-auth/src/outbound_dpop.rs:1561-1577 | any reply with one valid nonce is noted when there is a place for it; each other case has its own answer and changes nothing |
| NonceStore.AcceptedNonceIsCarried | crates/mcp-toolkit-auth/src/outbound_dpop.rs:1539-1598 | after an accepted challenge, over any writes of others under other keys, the nonce for the next authorization is exactly the challenge's |
| NonceStore.ResourceRequest.AuthorizationNonce | crates/mcp-toolkit-auth/src/outbound_dpop.rs:1539-1545 | the next proof carries what the store holds for the transaction's key, a valid nonce if the store is valid |
| NonceStore.AdvanceOk | crates/mcp-toolkit-auth/src/outbound_dpop.rs:1539-1598 | every event of a transaction keeps the retry accounting, and validity of the store |
| NonceStore.AtMostOneChallenge | crates/mcp-toolkit-auth/src/outbound_dpop.rs:1539-1598 | over every run of events, over any store and with any foreign writes, a transaction accepts at most one challenge |
| NonceStore.TransactionsKeepValid | crates/mcp-toolkit-auth/src/outbound_dpop.rs:1539-1598 | and over the same runs a valid store stays valid |
| NonceStore.ResourceRequest.AcceptNonceChallenge | crates/mcp-toolkit-auth/src/outbound_dpop.rs:1579-1598 | the method in place is the modelled acceptance |
| NonceStore.ResourceRequest.ObserveResponseNonce | crates/mcp-toolkit-auth/src/outbound_dpop.rs:1561-1577 | the method in place is the modelled observation |
| TokenExchange.SuccessExactly | crates/mcp-toolkit-auth/src/outbound_dpop.rs:1182-1228 | a response yields a token exactly with a token of type DPoP, the exchanged type, no refresh token and, if it names a scope, a scope list within the requested names, which is then the scope of the token verbatim; otherwise the first thing wrong gives the error |
| TokenExchange.GrantedScopesWithin | crates/mcp-toolkit-auth/src/outbound_dpop.rs:1182-1228 | a scope as the validation hands it out lists only requested names; without one from the server it is the requested list, which splits back into it |
| TokenExchange.OnePassInPlace | crates/mcp-toolkit-auth/src/outbound_dpop.rs:1080-1129 | the loop body over the shared store is one pass of the model |
| TokenExchange.Exchange | crates/mcp-toolkit-auth/src/outbound_dpop.rs:1080-1129 | the loop is the modelled run and never reaches the return after it |
| TokenExchange.PassExactly | crates/mcp-toolkit-auth/src/outbound_dpop.rs:1085-1128 | one pass, exactly: whether a request is sent and with which nonce, the store it leaves, when it goes on and with which nonce, and when it ends with which token or error |
| TokenExchange.ExchangeExactly | crates/mcp-toolkit-auth/src/outbound_dpop.rs:1080-1129 | an exchange returns a token or an error exactly when its first pass does, or its second if the first was challenged with a nonce that had a place; the return after the loop is unreachable |
| TokenExchange.SentExactly | crates/mcp-toolkit-auth/src/outbound_dpop.rs:1080-1129 | which requests are sent: the first with the stored nonce, a second with exactly that of the challenge |
| TokenExchange.FreshStoreRetries | crates/mcp-toolkit-auth/src/outbound_dpop.rs:1080-1129 | on a new store a challenged first request is followed by a second |
| TokenExchange.NextExchangeCarries | crates/mcp-toolkit-auth/src/outbound_dpop.rs:1080-1104 | the nonce that came with a token is the one the next exchange with this endpoint starts with |
| TokenExchange.ExchangeProtocol | crates/mcp-toolkit-auth/src/outbound_dpop.rs:1080-1129 | against any server, any store and any writers: at most two requests, the first with the stored nonce, the second only after a 400 or 401 `use_dpop_nonce` with one valid nonce and carrying exactly that; nothing falls out of the loop; the retry-limit error means two challenges |
| TokenExchange.ExchangeKeepsStore | crates/mcp-toolkit-auth/src/outbound_dpop.rs:1080-1129 | an exchange leaves a valid store valid, whatever other holders noted meanwhile |
| TokenExchange.SecondRequestExactly | crates/mcp-toolkit-auth/src/outbound_dpop.rs:1080-1129 | a second request is sent if and only if the first was sent, challenged with a nonce the store took in, and the second proof could be signed |
| TokenExchange.ProofNeverRejectsNonce | crates/mcp-toolkit-auth/src/outbound_dpop.rs:430-444 | stored and retried nonces are always acceptable to proof construction: an invalid-nonce error is about the header of the reply to the last request that was sent |
| TokenExchange.ExchangedScopesWithin | crates/mcp-toolkit-auth/src/outbound_dpop.rs:1182-1228 | any returned token's scope, split at spaces, lies within the requested scopes |
| TokenExchange.ResultTells | crates/mcp-toolkit-auth/src/outbound_dpop.rs:1080-1129 | a returned token is the content of a 200 JSON reply to the last request sent |
| TokenExchange.ErrorTells | crates/mcp-toolkit-auth/src/outbound_dpop.rs:1124-1127 | a rejection names the status of the last reply and a code from the fixed list, never text of the server |
| TokenExchange.TokenExactly | crates/mcp-toolkit-auth/src/outbound_dpop.rs:1080-1129 | a token is returned exactly when the last pass sends its request, is answered with it, and can store the nonce of the reply if there is one |
| TokenExchange.FullNamespaceLosesToken | crates/mcp-toolkit-auth/src/outbound_dpop.rs:1097-1104 | an acceptable token is lost whenever its reply brings a nonce that a full namespace cannot store |
| CanonicalJson.OrderObjectKeys | crates/mcp-toolkit-core/src/canonical_json.rs:41-55 | sorting the members and rebuilding the object entry by entry computes the ordering the next lemmas speak about |
| CanonicalJson.OrderKeepsMeaning | crates/mcp-toolkit-core/src/canonical_json.rs:41-55 | ordering preserves the value with objects read as maps |
| CanonicalJson.OrderIsCanonical | crates/mcp-toolkit-core/src/canonical_json.rs:41-55 | after ordering, keys strictly ascend at every depth |
| CanonicalJson.CanonicalUnique | crates/mcp-toolkit-core/src/canonical_json.rs:41-55 | values with strictly ascending keys are determined by their meaning |
| CanonicalJson.OrderDecidesMeaning | crates/mcp-toolkit-core/src/canonical_json.rs:41-55 | two values order alike if and only if they differ at most in object-key order |
| JsonText.ValueDetermined | crates/mcp-toolkit-core/src/canonical_json.rs:37-39 | a value printed compactly before a delimiter is determined by the text, and so is what follows it |
| JsonText.PrintInjective | crates/mcp-toolkit-core/src/canonical_json.rs:37-39 | different values print differently |
| JsonText.ValueRoundTrip | crates/mcp-toolkit-core/src/canonical_json.rs:37-39 | a JSON reader gets exactly the value back from its printed text, up to the delimiter that follows |
| JsonText.EscapesChosen | crates/mcp-toolkit-core/src/canonical_json.rs:37-39 | where the grammar leaves a choice of escapes, the ones serde_json makes |
| JsonIdentity.BytesDecideMeaning | crates/mcp-toolkit-core/src/canonical_json.rs:37-39 | canonical bytes are equal if and only if the values differ at most in recursive object-key order |
| JsonIdentity.OrderIdempotent | crates/mcp-toolkit-core/src/canonical_json.rs:41-55 | re-ordering changes nothing |
| JsonIdentity.NewIdentity | crates/mcp-toolkit-core/src/canonical_json.rs:102-106 | bytes and digest belong together, and the bytes decide meaning against every other value |
| Subscription.EnvelopeMeaning | crates/mcp-toolkit-core/src/chatgpt_events.rs:339-355 | the hashed envelope holds exactly profile, principal, URL, name and arguments |
| Subscription.SubscribeAccepted | crates/mcp-toolkit-core/src/chatgpt_events.rs:204-226 | a subscribe body is accepted exactly within every limit, with every field as given; a refusal tells size, secret or the rest |
| Subscription.UnsubscribeAccepted | crates/mcp-toolkit-core/src/chatgpt_events.rs:276-307 | likewise for a stop request |
| Subscription.IdGiven | crates/mcp-toolkit-core/src/chatgpt_events.rs:332-355 | every principal that is not blank and within a kibibyte is given an identifier, and no other |
| Subscription.IdDecidesTuple | crates/mcp-toolkit-core/src/chatgpt_events.rs:332-355 | two identifiers agree if and only if principal, URL, name and arguments up to key order agree |
| Subscription.RefreshKeepsId | crates/mcp-toolkit-core/src/chatgpt_events.rs:204-226 | for any two accepted subscribe requests, whatever their secrets, cursors, age bounds and lifetimes, the identifiers agree exactly when the selectors do |
| Subscription.UnsubscribeFindsSubscription | crates/mcp-toolkit-core/src/chatgpt_events.rs:300-307 | a stop request for an accepted subscription parses and has the same identifier for every principal |
| CapabilityPolicy.AdjacentRepeatIffRepeat | crates/mcp-toolkit-auth/src/discovery_validation.rs:482-485 | on a sorted list, comparing neighbours finds every repetition |
| CapabilityPolicy.ResponseTypeAccepted | crates/mcp-toolkit-auth/src/discovery_validation.rs:477-487 | a response type has a canonical form if and only if its names are valid and distinct |
| CapabilityPolicy.CanonicalNames | crates/mcp-toolkit-auth/src/discovery_validation.rs:477-487 | the canonical form splits into the sorted names |
| CapabilityPolicy.CanonicalDecidesNames | crates/mcp-toolkit-auth/src/discovery_validation.rs:477-487 | two canonical forms are equal if and only if the same names are listed |
| CapabilityPolicy.CanonicalExactly | crates/mcp-toolkit-auth/src/discovery_validation.rs:467-521 | which grant types, challenge methods and response names are valid, character by character, and that only response types are respelled |
| CapabilityPolicy.Scan | crates/mcp-toolkit-auth/src/discovery_validation.rs:419-427 | finds the first invalid or repeated value, none exactly for a clean list, and then the set of its canonical values |
| CapabilityPolicy.ValidateRequirements | crates/mcp-toolkit-auth/src/discovery_validation.rs:366-403 | accepted exactly when both lists are clean and the exact set admits what is required; refused as invalid exactly for a flawed list, and otherwise with the first value the exact set leaves out |
| CapabilityPolicy.ValidateExact | crates/mcp-toolkit-auth/src/discovery_validation.rs:440-463 | accepted exactly when the exact set is the advertised set; otherwise the first surplus or, failing that, the first missing value |
| CapabilityPolicy.CheckRequired | crates/mcp-toolkit-auth/src/discovery_validation.rs:428-439 | nothing wrong exactly when every required value is valid and advertised; otherwise the first that is not |
| CapabilityPolicy.ValidateCapabilities | crates/mcp-toolkit-auth/src/discovery_validation.rs:405-465 | accepted exactly when the metadata meets the policy as sets; every refusal names the first thing wrong |
| CapabilityPolicy.ExplanationUnique | crates/mcp-toolkit-auth/src/discovery_validation.rs:405-465 | the refusals exclude one another and acceptance, so the previous row fixes the result |
| CapabilityPolicy.ValidateAll | crates/mcp-toolkit-auth/src/discovery_validation.rs:220-288 | the requirement phases of all fields come before all metadata phases: accepted exactly when every requirement is satisfiable and met; otherwise the first field that fails in the first failing phase, with its explanation |
| ShellQuoting.FormatRoundTrip | crates/mcp-toolkit-auth/src/provider_auth.rs:1209-1215 | word splitting: a POSIX shell splits the rendered command into exactly the given arguments, with nothing active exposed |
| ShellQuoting.ReadQuoted | crates/mcp-toolkit-auth/src/provider_auth.rs:1248-1257 | a rendered argument is read as that argument, whatever characters it holds |
| ShellQuoting.QuoteExactly | crates/mcp-toolkit-auth/src/provider_auth.rs:1248-1257 | arguments of plain characters are left alone, any other is put in quotes |
| ShellQuoting.CloudsdkRoundTrip | crates/mcp-toolkit-auth/src/provider_auth.rs:1218-1246 | with a non-blank directory the words are the variable with the trimmed directory and then the arguments; otherwise just the arguments |
| ShellQuoting.AssignmentExactly | crates/mcp-toolkit-auth/src/provider_auth.rs:1209-1215 | the first argument is taken for an assignment instead of the command name if and only if it has that form and needs no quoting |
| ShellQuoting.AssignmentExample | crates/mcp-toolkit-auth/src/provider_auth.rs:1209-1215 | a command whose first argument is `A=b` splits into its arguments and starts with an assignment |
| BearerChallenge.SanitizeControlFree | crates/mcp-toolkit-auth/src/challenge.rs:166-173 | no control character survives sanitising |
| BearerChallenge.FilterExactly | crates/mcp-toolkit-auth/src/challenge.rs:166-173 | every control character goes and every other character stays, each on its own |
| BearerChallenge.SanitizeExactly | crates/mcp-toolkit-auth/src/challenge.rs:166-173 | what is announced is the text between outer white space once they are gone |
| BearerChallenge.TwoPassesAreOne | crates/mcp-toolkit-auth/src/challenge.rs:175-177 | the two successive replacements are the one-pass quoted-string escape |
| BearerChallenge.PushParam | crates/mcp-toolkit-auth/src/challenge.rs:157-164 | adds the printed parameter exactly when something is left after sanitising |
| BearerChallenge.ChallengeRoundTrip | crates/mcp-toolkit-auth/src/challenge.rs:54-77 | a parser for challenges (sections 5.6.4 and 11.2 of RFC 9110) reads back the sanitised realm and the non-empty sanitised fields in order, whatever the inputs |
| BearerChallenge.CleanFieldsSurvive | crates/mcp-toolkit-auth/src/challenge.rs:54-77 | fields without control characters and outer white space are read back exactly as given |
| BearerChallenge.ChallengeIsLegal | crates/mcp-toolkit-auth/src/challenge.rs:75-76 | every byte of the text is allowed in a header value, for all inputs |
| BearerChallenge.BuildBearerChallenge | crates/mcp-toolkit-auth/src/challenge.rs:54-77 | the collected parts joined are that text, and the bare-scheme fallback is never taken |
| Chunker.ChunkText | crates/mcp-toolkit-docs/src/lib.rs:74-103 | terminates without overflow; chunks are numbered from zero and advance at both ends; they are exactly the non-blank windows, cut at multiples of the stride; every visible character is in one |
| Chunker.WindowsOverlap | crates/mcp-toolkit-docs/src/lib.rs:74-103 | windows hold at least one character, and each shares exactly the overlap with the next, or all but one character |

## Left out

- Transport, async scheduling, timeouts and body streaming: replies, clocks and interleavings are inputs.
- Cryptography: JWT decoding, key retrieval, DPoP signing and verification are outcomes given to the model; SHA-256 is injective and its hexadecimal rendering is not spelled out.
- URL parsing: `RegistryBuilder` takes the URL and metadata verdict of each entry and of the base URL as given.
- JSON parsing and serde decoding of request bodies, including the base64 check of webhook secrets: their outcomes are inputs of `Subscription` and `TokenExchange`.
- Configuration validation of the authenticator, role extraction and the token-hash redaction of errors: they would only add easy members.
- Endpoint and resource-URL policies, provider binding validation and the authorization header of a resource request: record checks without state.
- The URI-reference grammar for grant types: the accepted references among the values at hand are a parameter of `CapabilityPolicy.Field`.
- Endpoint and issuer checks of discovery validation: straight-line checks of URLs.
- Shell reserved words: a command whose first argument is one, such as `if`, splits correctly and is then not a simple command.
- The Windows form of the shell command: only the POSIX form is modelled.
- MCP Apps challenge metadata and error-to-challenge mapping: presentation tables.
- Overflow of `Instant` plus the time-to-live in the replay cache, which panics in the source: time is unbounded.
- ReplayCache.JtiCache.MakeRoom: the map iterator is any choice of a key, because the source promises no order.
- Authenticator.NoBearerWithSignedConfirmation: covers the modes that decode signed claims; `SignedConfirmationAsBearer` states the rest.
- NonceStore.ResourceRequest: the signer and target checks made before a transaction starts are not modelled.
- Chunker.ChunkText: assumes the text is no longer than the largest Rust allocation, which the language guarantees.
- The other crates: HTTP helpers, policy, logs, observability, storage, process, server, tasks and testing support.
