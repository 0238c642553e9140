# Bondry in Dafny

A model of the parts of Bondry that carry its guarantees, with proofs about every input, every run or
every interleaving. Bondry lets an application expose capabilities and deliver events; it is written in
Rust, with Swift on Apple platforms.

What is modelled, and the main result of each part:

- **Bounded HTTP/1.1 response parser** (`Http1*.dfy`). A value-level parser, the object that updates its
  buffer in place and is proved equal to it, and the theorems: any fragmentation of a response gives the
  same answer, the outcome of every written response follows from its method, status and headers, chunked
  decoding is exactly the inverse of chunked encoding, memory stays bounded.
- **Handle protocols** (`EgressHandle.dfy`, `WebhookRegistration.dfy`, counting in `Tally.dfy`). State
  machines over any number of threads, one step for each stretch of code under the lock, with spurious
  wake-ups: one native stop or release, never under a running call, no deadlock, every call returns.
- **Deliveries** (`Backoff.dfy`, `Delivery.dfy`, `DeliveryOutcomes.dfy`, `DeliveryLog.dfy`). Exact backoff
  arithmetic, the shape and the outcome of every run, and any number of deliveries over one bounded log that
  never refuses their records and holds the last of each.
- **Signing, templates and stored secrets** (`Signing.dfy`, `Percent.dfy`, `Splitting.dfy`,
  `UrlTemplate*.dfy`, `SecretEnvelope.dfy`, `KeychainSecrets.dfy`, `WireFormats.dfy`). Injective canonical
  form, exactly which texts are templates, expansion that changes one URL component only, envelopes that
  decode both ways, and what a run of stores and rotations over any keychain leaves behind.
- **MCP discovery** (`McpClient.dfy`, `Discovery.dfy`, `DiscoveryRuns.dfy`, `DiscoveryProgress.dfy`). Every
  sequence of calls, misuse included: at most four requests, what each reply leads to, and the revision
  reported is the one negotiated.
- **Payload contracts** (`Payload*.dfy`, `Names.dfy`). The streaming visitor against a declarative
  definition, the reason of each verdict, and verdicts that do not depend on member order.
- **Endpoint policy** (`Ipv4.dfy`, `EndpointPolicy.dfy`, `EndpointVerdict.dfy`). The Rust and the Swift
  rules, exactly where they agree, and exactly which peers are accepted.
- **Grants and dispatch** (`Grants.dfy`, `Dispatch.dfy`, `DispatchRuns.dfy`). The pruned nested map refines
  a set; interleaved invocations run handlers only when authorized and audited, and a late revocation is
  the one way to run ungranted.
- **Workspace closures** (`Closure.dfy`, `Workspace.dfy`). The worklist computes reachability, and the
  reverse closure is the set of dependents.

`Bytes.dfy` and `Decimal.dfy` hold what the others share. Where the source updates fields in place the
model is a class whose methods are proved equal to a function on its contents; where it loops, a method
with invariants. Calls into the outside are parameters: what the keychain, the audit sink, the native
library, the transport and the clock answer, the HMAC function, the parsed JSON tree, and which bytes the
URL library admits in each part of a URL.

Where the code differs from what its documentation or its counterpart promises, the model follows the code
and the condition is proved:

- A response that is complete in one call can be refused when it arrives in fragments, exactly when a
  chunk-size line has 128 digits and a fragment ends between its CR and LF (`NeverEarlyIff`,
  `LongLineExample`).
- A 304 response never reaches the rule that it has no body: every status from 300 to 399 is refused as a
  redirect before (`RedirectIsRefused`).
- A peer that answers initialization with the modern revision ends discovery as an invalid request, because
  that revision has no acknowledgement (`ReplyDecides`).
- The Swift policy reads `127.0.0.-0` as a loopback address and the Rust policy does not
  (`PoliciesAgree`, `MinusZeroExample`).
- The reader of canonical IPv4 hosts accepts a plus sign (`CanonicalIsDotted`, `PlusIsAccepted`).
- An expansion of exactly 4096 bytes into a URL with an empty path is refused although it is within the
  limit, because the path is printed as a slash (`ExpandKeepsStructure`, `RefusedWithinLimit`).
- A disable that finds no handle returns without error although another disable may still be draining it:
  the handle is released by then exactly when none is (`NothingToDisableIff`, `EarlyReturn`).
- A handler can run after its grant was revoked, exactly when the revocation comes between its evaluation
  and its run and is not followed by a new grant (`RunsWhileGrantedIff`, `LateRevocationRuns`).
- Resuming discovery out of order with a transport failure reports that failure rather than the misuse
  (`InvalidStateIsMisuse`).

## Model

| member | source | states |
|---|---|---|
| `Http1Parser.BoundedHttp1ResponseParser.constructor` | apple/Sources/BondryApple/BoundedHTTP1ResponseParser.swift:24-27 | a new parser holds nothing |
| `Http1Parser.BoundedHttp1ResponseParser.Feed` | apple/Sources/BondryApple/BoundedHTTP1ResponseParser.swift:29-44 | `consume` on the object: outcome, error and every field afterwards are those of the value-level `Http1.Consume`, so all theorems about it hold of the object |
| `Http1Parser.BoundedHttp1ResponseParser.ParseHeadIfAvailable` | apple/Sources/BondryApple/BoundedHTTP1ResponseParser.swift:46-100 | one head is taken, refused or not there yet; interim heads leave no trace and 101 is refused |
| `Http1Parser.BoundedHttp1ResponseParser.ChooseFraming` | apple/Sources/BondryApple/BoundedHTTP1ResponseParser.swift:225-260 | framing chosen from the name dictionary is the framing decided by the ordered header list, which `FramingIsAnnounced` pins |
| `Http1Parser.BoundedHttp1ResponseParser.ParseBodyIfAvailable` | apple/Sources/BondryApple/BoundedHTTP1ResponseParser.swift:102-123 | the body step of each framing, with its errors |
| `Http1Parser.BoundedHttp1ResponseParser.ParseChunked` | apple/Sources/BondryApple/BoundedHTTP1ResponseParser.swift:125-176 | the offset loop, which trims its buffer once on the way out, decodes exactly the chunks a simple front-to-back decoder takes off the buffer, and terminates |
| `Http1Parser.BoundedHttp1ResponseParser.ReadChunkAt` | apple/Sources/BondryApple/BoundedHTTP1ResponseParser.swift:128-170 | the index guards on the chunk at an offset judge it as if it stood at the front of the rest |
| `Http1Parser.ScanHeadBytes` | apple/Sources/BondryApple/BoundedHTTP1ResponseParser.swift:206-223 | the index scan accepts exactly text broken only by complete CR LF pairs |
| `Http1Parser.ParseHeaders` | apple/Sources/BondryApple/BoundedHTTP1ResponseParser.swift:178-204 | the header loop gives the ordered headers, and its dictionary answers every lower-case name with the values in order of appearance |
| `Http1Framing.FramingIsAnnounced` | apple/Sources/BondryApple/BoundedHTTP1ResponseParser.swift:225-260 | a framing is chosen exactly when the headers announce it: none for HEAD, 1xx, 204 and 304, the one natural number of a single content-length within the limit, chunks for a single transfer-encoding of that name; too large exactly for an announced length over the limit |
| `Http1Lines.StatusIsReadIff` | apple/Sources/BondryApple/BoundedHTTP1ResponseParser.swift:66-84 | a status is read exactly from a line that spells HTTP/1.1, a three-digit code from 100 to 599 outside 300 to 399, with spaces around the two and anything after a further space |
| `Http1Lines.RedirectIsReadIff` | apple/Sources/BondryApple/BoundedHTTP1ResponseParser.swift:77-82 | a line is refused as a redirect exactly when its second word is a number from 300 to 399, whatever the version |
| `Http1Lines.HeaderIsReadIff` | apple/Sources/BondryApple/BoundedHTTP1ResponseParser.swift:187-200 | a header is read exactly from a token, a colon and a value between blanks that does not begin or end with one |
| `Http1Outcomes.OversizedHead` | apple/Sources/BondryApple/BoundedHTTP1ResponseParser.swift:46-58 | a head of more than 16384 bytes is too large |
| `Http1Outcomes.RedirectIsRefused` | apple/Sources/BondryApple/BoundedHTTP1ResponseParser.swift:77-82 | every written response with a status from 300 to 399 is refused as a redirect |
| `Http1Outcomes.TooManyHeaders` | apple/Sources/BondryApple/BoundedHTTP1ResponseParser.swift:181-183 | more than 64 headers are too much |
| `Http1Outcomes.InterimIsSkipped` | apple/Sources/BondryApple/BoundedHTTP1ResponseParser.swift:85-90 | what follows an interim response is read as if it had not come |
| `Http1Outcomes.SwitchIsRefused` | apple/Sources/BondryApple/BoundedHTTP1ResponseParser.swift:86-88 | a 101 response is refused |
| `Http1Outcomes.BodilessOutcome` | apple/Sources/BondryApple/BoundedHTTP1ResponseParser.swift:102-123 | to HEAD and with 204 the response is the head alone, and any byte after it is refused |
| `Http1Outcomes.LengthOutcome` | apple/Sources/BondryApple/BoundedHTTP1ResponseParser.swift:102-123 | with an announced length: the response at exactly that many bytes, waiting before, refused beyond or at an early end, too large over the limit |
| `Http1Outcomes.ChunkedOutcome` | apple/Sources/BondryApple/BoundedHTTP1ResponseParser.swift:125-176 | with announced chunks: a response exactly for a stream that carries its body within the limit, too large exactly when chunks that fit are followed by a size that does not |
| `Http1Outcomes.UnframedOutcome` | apple/Sources/BondryApple/BoundedHTTP1ResponseParser.swift:225-260 | a body that may come but is announced by nothing, by both headers, or by a repeated or malformed one is refused |
| `Http1Outcomes.WhenUnframed` | apple/Sources/BondryApple/BoundedHTTP1ResponseParser.swift:225-260 | in particular with neither header, both, or a second of either |
| `Http1Refusals.TooLargeIff` | apple/Sources/BondryApple/BoundedHTTP1ResponseParser.swift:163-165 | the decoder reports a body as too large exactly when complete chunks that fit are followed by the size line of one that does not |
| `Http1Refusals.LongHeadIsRefused` | apple/Sources/BondryApple/BoundedHTTP1ResponseParser.swift:46-58 | more than 16384 bytes without a complete head among the first 16384 are too large |
| `Http1Fragments.ConsumeComposes` | apple/Sources/BondryApple/BoundedHTTP1ResponseParser.swift:29-176 | from any state, a fragment that leaves the parser waiting followed by any other is the same as both in one call: outcome, error kind and final state |
| `Http1Fragments.FeedIsOneShot` | apple/Sources/BondryApple/BoundedHTTP1ResponseParser.swift:29-44 | feeding any list of fragments is one call on the concatenation of the fragments looked at, and it stops short only on a decision |
| `Http1Fragments.UsedPends` | apple/Sources/BondryApple/BoundedHTTP1ResponseParser.swift:29-44 | every proper run of the fragments looked at leaves the parser waiting |
| `Http1Chunks.DecodeEncoded` | apple/Sources/BondryApple/BoundedHTTP1ResponseParser.swift:125-176 | decoding inverts every encoding of every body that fits, whatever the chunk sizes and the spelling of their sizes (section 7.1 of RFC 9112) |
| `Http1Chunks.DecodedIsCarried` | apple/Sources/BondryApple/BoundedHTTP1ResponseParser.swift:125-176 | whatever the decoder accepts was a well-formed stream, and what it adds is the concatenation of its chunks |
| `Http1Chunks.AcceptsExactly` | apple/Sources/BondryApple/BoundedHTTP1ResponseParser.swift:125-176 | a buffer decodes to a body if and only if it is a well-formed stream carrying that body and the body is within the limit |
| `Http1Chunks.PrefixWaits` | apple/Sources/BondryApple/BoundedHTTP1ResponseParser.swift:128-146 | on every proper prefix of a stream the decoder waits, except at the one cut its size-line guard refuses |
| `Http1Theorems.NoEarlyOutcome` | apple/Sources/BondryApple/BoundedHTTP1ResponseParser.swift:102-176 | every proper prefix of a response that parses in one call leaves the parser waiting, except exactly the prefixes ending between the CR and LF of a 128-digit size line, which are refused |
| `Http1Theorems.NeverEarlyIff` | apple/Sources/BondryApple/BoundedHTTP1ResponseParser.swift:125-146 | a response is never decided early, however it is cut, if and only if it has no 128-digit size line |
| `Http1Theorems.RefusedPrefix` | apple/Sources/BondryApple/BoundedHTTP1ResponseParser.swift:128-134 | for every response with a 128-digit size line, the prefix that is refused |
| `Http1Theorems.SplitsAgree` | apple/Sources/BondryApple/BoundedHTTP1ResponseParser.swift:29-176 | without such a line, every split returns the response on its last fragment and not before |
| `Http1Theorems.EncodeStreamInjective` | apple/Sources/BondryApple/BoundedHTTP1ResponseParser.swift:125-176 | a chunked byte stream determines its chunks |
| `Http1Theorems.ConsumeIsBounded` | apple/Sources/BondryApple/BoundedHTTP1ResponseParser.swift:31-58 | after every call that returns nothing, buffered plus decoded bytes are at most max(16384, limit + 131), and every returned body is within the limit |
| `Http1Theorems.FeedIsBounded` | apple/Sources/BondryApple/BoundedHTTP1ResponseParser.swift:102-175 | the same bound over every whole connection |
| `Http1Heads.HeadRoundTrip` | apple/Sources/BondryApple/BoundedHTTP1ResponseParser.swift:46-100 | reading a head inverts writing it, for every status, reason and header list the reader admits |
| `Http1Heads.HeadEnds` | apple/Sources/BondryApple/BoundedHTTP1ResponseParser.swift:46-60 | no blank line hides inside a written head, so its end is the first one found |
| `Http1Heads.ChunkedRoundTrip` | apple/Sources/BondryApple/BoundedHTTP1ResponseParser.swift:29-176 | a written response whose headers announce chunks comes back exactly: status, headers and body |
| `Http1Heads.LengthRoundTrip` | apple/Sources/BondryApple/BoundedHTTP1ResponseParser.swift:29-123 | a written response whose headers announce its length comes back exactly |
| `Http1Responses.ReturnedIsSpelled` | apple/Sources/BondryApple/BoundedHTTP1ResponseParser.swift:29-176 | a response returned by a new parser, over any fragments and after any interim heads, was a final head followed by a body delimited as that head says: nothing, the announced length, or a chunked stream carrying it |
| `Http1Responses.LongLineIsRefused` | apple/Sources/BondryApple/BoundedHTTP1ResponseParser.swift:128-134 | every written response with a 128-digit size line parses in one call and is refused at some cut |
| `Http1Responses.LongLineExample` | apple/Sources/BondryApple/BoundedHTTP1ResponseParser.swift:128-134 | a concrete such response, and the prefix that is refused |
| `EgressHandle.StepKeepsInv` | apple/Sources/BondryEgress/BondryEgress.swift:170-220 | the protocol invariant, a balance of threads per program point, survives every step and every spurious wake-up |
| `EgressHandle.Safety` | apple/Sources/BondryEgress/BondryEgress.swift:170-220 | in every interleaving of any number of operations and stops: at most one native stop, never while an operation has the handle; a stop returns only after the native stop returned; nobody sleeps without a reason |
| `EgressHandle.NoLateStart` | apple/Sources/BondryEgress/BondryEgress.swift:203-212 | once a stop has begun no operation starts, in any continuation |
| `EgressHandle.StoppedIsRefused` | apple/Sources/BondryEgress/BondryEgress.swift:203-207 | from the start of any schedule: an operation that has not begun when a stop has can only be refused |
| `EgressHandle.SomeoneRuns` | apple/Sources/BondryEgress/BondryEgress.swift:170-220 | no deadlock and no lost wake-up: while a call is unfinished, some thread can run |
| `EgressHandle.AdvanceDecreases` | apple/Sources/BondryEgress/BondryEgress.swift:170-220 | every thread step decreases one measure of the whole system |
| `EgressHandle.EveryCallReturns` | apple/Sources/BondryEgress/BondryEgress.swift:170-220 | without spurious wake-ups every run is bounded, and one that can go no further has finished every operation and stop |
| `WebhookRegistration.StepKeepsInv` | apple/Sources/BondryWebhookIngress/BondryWebhookIngress.swift:123-176 | the registration invariant survives every step, including the final release |
| `WebhookRegistration.Safety` | apple/Sources/BondryWebhookIngress/BondryWebhookIngress.swift:14-34 | in every interleaving of lifecycle, disable and release: the handle is released at most once and never while a native call has it; the disable that detached the handle returns after its release, and any other that returns without error found no handle |
| `WebhookRegistration.FailedDisableKeepsHandle` | apple/Sources/BondryWebhookIngress/BondryWebhookIngress.swift:142-164 | a failed disable keeps the handle usable and lets another disable try |
| `WebhookRegistration.DetachedForGood` | apple/Sources/BondryWebhookIngress/BondryWebhookIngress.swift:14-34 | after the handle is gone every later lifecycle reports detached, in any continuation |
| `WebhookRegistration.DisabledIsDetached` | apple/Sources/BondryWebhookIngress/BondryWebhookIngress.swift:14-41 | from the start of any schedule: once some disable has returned without error, having released the handle or found none, a lifecycle not yet begun can only report detached, in every continuation |
| `WebhookRegistration.NothingToDisableIff` | apple/Sources/BondryWebhookIngress/BondryWebhookIngress.swift:142-147 | when a disable has found no handle, the handle has been released if and only if no other disable is still draining or releasing it |
| `WebhookRegistration.EarlyReturn` | apple/Sources/BondryWebhookIngress/BondryWebhookIngress.swift:142-167 | the schedule in which a second disable returns without error while a lifecycle still has the handle and nothing is released |
| `WebhookRegistration.DropReleasesOnce` | apple/Sources/BondryWebhookIngress/BondryWebhookIngress.swift:106-115 | dropping the registration leaves it released exactly once |
| `WebhookRegistration.SomeoneRuns` | apple/Sources/BondryWebhookIngress/BondryWebhookIngress.swift:142-176 | no deadlock and no lost wake-up |
| `WebhookRegistration.AdvanceDecreases` | apple/Sources/BondryWebhookIngress/BondryWebhookIngress.swift:123-176 | every thread step decreases one measure of the whole system |
| `WebhookRegistration.ReleasedExactlyOnce` | apple/Sources/BondryWebhookIngress/BondryWebhookIngress.swift:106-176 | every run is bounded, and after it and the drop there was exactly one release |
| `Backoff.StableJitter` | crates/egress/bondry-egress/src/delivery.rs:343-354 | the hash loops compute FNV-1a over the identifier and the two attempt bytes, modulo 2^64, reduced to 0..4000 |
| `WireFormats.JitterOf` | crates/egress/bondry-egress/src/delivery.rs:343-354 | the hashed bytes are the identifier and the attempt count, low byte first |
| `WireFormats.HashVector` | crates/egress/bondry-egress/src/delivery.rs:343-354 | the hash has the published FNV-1a value of a known text |
| `Backoff.ShiftCapIsHarmless` | crates/egress/bondry-egress/src/delivery.rs:177-184 | capping the shift at 31 and saturating never change the capped exponential, for every policy the limits admit |
| `Backoff.DelayIsExact` | crates/egress/bondry-egress/src/delivery.rs:177-192 | no saturating or fallback branch changes the value: the delay is the capped exponential E scaled by the jitter, between floor(0.8 E) and min(1.2 E, cap) |
| `Backoff.DelayGrows` | crates/egress/bondry-egress/src/delivery.rs:177-192 | while doubling stays under the cap, delays strictly increase whatever the jitter |
| `Delivery.DeliveryLifecycle.constructor` | crates/egress/bondry-egress/src/delivery.rs:22-30 | a new delivery is ready with no attempt |
| `Delivery.DeliveryLifecycle.Apply` | crates/egress/bondry-egress/src/delivery.rs:51-107 | one transition of the object is the transition function: effect, action, deadline and new state, or the error with the state untouched |
| `Delivery.DeliveryLifecycle.DriveIt` | crates/egress/bondry-egress/src/delivery.rs:123-140 | driving starts the first or a due attempt, and otherwise does nothing |
| `Delivery.DeliveryLifecycle.Start` | crates/egress/bondry-egress/src/delivery.rs:142-156 | the attempt is counted and recorded |
| `Delivery.DeliveryLifecycle.Finish` | crates/egress/bondry-egress/src/delivery.rs:158-175 | the outcome is recorded and the delivery is closed |
| `Delivery.NextKeepsInv` | crates/egress/bondry-egress/src/delivery.rs:51-175 | every transition keeps the attempt count within what the phase allows, and never changes the delivery or its policy |
| `Delivery.RunContinues` | crates/egress/bondry-egress/src/delivery.rs:51-175 | from any reachable state, the effects still to come are attempts numbered on from its own and at most one outcome |
| `Delivery.ChangesWithinBudget` | crates/egress/bondry-egress/src/delivery.rs:51-175 | transitions that change the state never exceed the remaining budget |
| `Delivery.RunShape` | crates/egress/bondry-egress/src/delivery.rs:51-175 | every run records attempts 1, 2, ..., n with n at most retries + 1, then at most one outcome, then nothing; at most 2 * retries + 2 transitions change state |
| `Delivery.WaitingHolds` | crates/egress/bondry-egress/src/delivery.rs:110-140 | a waiting delivery is left exactly as it is, and records nothing, if and only if no input is a cancellation, the shutdown, or a drive at or after its deadline |
| `Delivery.AttemptsAreSpaced` | crates/egress/bondry-egress/src/delivery.rs:51-192 | whatever happens in between, the next attempt starts no sooner than the backoff delay after the failure |
| `DeliveryOutcomes.RunEndsAsClosed` | crates/egress/bondry-egress/src/delivery.rs:51-175 | for every run from any open delivery: it ends exactly when some input closes it, and then its one outcome, metadata, time and published action are those of the first such input: delivered, failed, cancelled, lost on shutdown, or failed after the last retry |
| `DeliveryOutcomes.ClosesOnce` | crates/egress/bondry-egress/src/delivery.rs:51-175 | at most one input closes a run |
| `DeliveryOutcomes.FirstDriveStarts` | crates/egress/bondry-egress/src/delivery.rs:123-156 | the first drive of a new delivery starts and records attempt one, whatever came before that does not close it |
| `DeliveryOutcomes.NextAttemptIffDue` | crates/egress/bondry-egress/src/delivery.rs:82-140 | after a retryable failure the next attempt starts exactly at a drive at or after the failure plus the delay, numbered one on |
| `DeliveryOutcomes.RefusedIff` | crates/egress/bondry-egress/src/delivery.rs:51-140 | an event is refused exactly when it reports on an attempt and none is in flight, or drives one in flight |
| `DeliveryLog.InMemoryDeliveryLog.constructor` | crates/engine/bondry-egress-runtime/src/memory_log.rs:55-61 | an empty log within its limit |
| `DeliveryLog.InMemoryDeliveryLog.InsertIntent` | crates/engine/bondry-egress-runtime/src/memory_log.rs:83-109 | accepting a delivery on the object is the specified insertion |
| `DeliveryLog.InMemoryDeliveryLog.RecordTheAttempt` | crates/engine/bondry-egress-runtime/src/memory_log.rs:111-137 | attempts are recorded only in order on a pending record |
| `DeliveryLog.InMemoryDeliveryLog.RecordTheOutcome` | crates/engine/bondry-egress-runtime/src/memory_log.rs:139-167 | an outcome closes a pending record and appends it to the closing order |
| `DeliveryLog.InsertKeepsInv` | crates/engine/bondry-egress-runtime/src/memory_log.rs:83-109 | insertion keeps the log within its limit and its order list equal to the closed records, once each |
| `DeliveryLog.PutKeepsInv` | crates/engine/bondry-egress-runtime/src/memory_log.rs:111-167 | attempts and outcomes keep the same invariant |
| `DeliveryLog.RefusesOnlyWhenAllPending` | crates/engine/bondry-egress-runtime/src/memory_log.rs:83-109 | a known delivery conflicts; a full log refuses a new one if and only if every record is pending, and never drops or changes a pending record |
| `DeliveryLog.DeliverIsLegal` | crates/contract/bondry-delivery-store/src/delivery.rs:196-225 | what one open delivery asks of the log is always granted and leaves the others alone |
| `DeliveryLog.EveryEffectIsLegal` | crates/contract/bondry-delivery-store/src/delivery.rs:196-225 | in every interleaving of any number of deliveries over one bounded log, no attempt or outcome is ever refused |
| `DeliveryLog.EveryRunIsLegal` | crates/contract/bondry-delivery-store/src/delivery.rs:196-225 | the same for every run from an empty log of any limit |
| `DeliveryLog.RecordsTellTheLast` | crates/engine/bondry-egress-runtime/src/memory_log.rs:83-167 | at any point of any run, each record in the log holds the intent and the attempts, state, time and metadata of the last effect of its delivery |
| `DeliveryLog.DropsTheOldest` | crates/engine/bondry-egress-runtime/src/memory_log.rs:92-105 | a record disappears only when a delivery is accepted into a full log, and then it is the one that closed first |
| `Signing.CanonicalWebhookBytes` | crates/contract/bondry-secrets/src/canonical.rs:23-47 | appending piece by piece gives the canonical form |
| `Signing.CanonicalInjective` | crates/contract/bondry-secrets/src/canonical.rs:23-47 | different (timestamp, delivery id, body) triples never share a canonical form, over all integers and all bytes |
| `WireFormats.SignedLines` | crates/contract/bondry-secrets/src/canonical.rs:23-47 | the signed text is the lines bondry-webhook-v1, timestamp, identifier length, identifier, body length and body |
| `Signing.PiecesAreCanonical` | crates/contract/bondry-secrets/src/signature.rs:118-137 | the streamed pieces concatenate to exactly the canonical form |
| `Signing.SignComponents` | crates/contract/bondry-secrets/src/signature.rs:139-146 | streaming components one by one gives the MAC of their concatenation |
| `Signing.Sign` | crates/contract/bondry-secrets/src/signature.rs:118-137 | the signature of an input is the MAC of its canonical form |
| `Signing.VerifyWebhook` | crates/contract/bondry-secrets/src/signature.rs:81-97 | a tag is accepted exactly when it is the MAC of the canonical form under the current or the previous secret |
| `Signing.VerifyHmacSha256` | crates/contract/bondry-secrets/src/signature.rs:99-116 | accepted exactly when some candidate is the MAC of the streamed components under the current or the previous secret |
| `Signing.SignatureIsBound` | crates/contract/bondry-secrets/src/signature.rs:81-97 | a signature verifies for another input only if the MAC collides, and keeps verifying through one rotation |
| `Signing.TagFromHex` | crates/contract/bondry-secrets/src/signature.rs:21-34 | accepts exactly 64 hexadecimal digits of either case, and the tag prints back to them in lower case |
| `Signing.TagToHex` | crates/contract/bondry-secrets/src/signature.rs:36-44 | the nibble loop writes two digits a byte |
| `WireFormats.HexAt` | crates/contract/bondry-secrets/src/signature.rs:36-44 | byte i is digits 2i and 2i + 1, the high one first, in lower case |
| `Signing.HexRoundTrip` | crates/contract/bondry-secrets/src/signature.rs:21-44 | a written tag parses, and only the tag that was written can come back |
| `Percent.PercentEncode` | crates/egress/bondry-egress-webhook/src/template.rs:171-184 | the pushing loop is the byte-by-byte encoding (section 2.1 of RFC 3986) |
| `Percent.DecodeEncode` | crates/egress/bondry-egress-webhook/src/template.rs:171-184 | percent-decoding inverts it for every byte string |
| `Percent.EncodeIsPlain` | crates/egress/bondry-egress-webhook/src/template.rs:171-184 | the encoding holds only unreserved bytes and percent signs, so no delimiter |
| `WireFormats.EscapeOf` | crates/egress/bondry-egress-webhook/src/template.rs:171-184 | letters, digits and four marks stand for themselves, every other byte is an upper-case escape of its value |
| `WireFormats.EscapedInOrder` | crates/egress/bondry-egress-webhook/src/template.rs:171-184 | an encoded text is the escapes of its bytes in order |
| `UrlTemplate.ParseRender` | crates/egress/bondry-egress-webhook/src/template.rs:48-51 | parts that are well cut, and that the rules of each part admit, print to text which parses back to them |
| `UrlTemplate.RenderParse` | crates/egress/bondry-egress-webhook/src/template.rs:86-89 | a parsed URL prints back to its text, and its parts are well cut and admitted |
| `UrlTemplate.SentinelOnce` | crates/egress/bondry-egress-webhook/src/template.rs:39-48 | the sentinel put in the placeholder's place occurs nowhere else in the parsed text |
| `UrlTemplateVerdict.RefusedEarly` | crates/egress/bondry-egress-webhook/src/template.rs:26-47 | the errors before the text is read as a URL: its length, a hash, the sentinel, or not exactly one placeholder |
| `UrlTemplateVerdict.TemplateIff` | crates/egress/bondry-egress-webhook/src/template.rs:26-62 | for every text with one placeholder: it is a template exactly when it denotes an admitted URL in which the placeholder is one whole path segment, or one whole value after the first equals sign of one pair, and which prints in at most 4096 bytes; the error of each failing condition |
| `UrlTemplateVerdict.NoUrl` | crates/egress/bondry-egress-webhook/src/template.rs:48-51 | a text that denotes no admitted URL is no endpoint |
| `UrlTemplateVerdict.CompleteIffFills` | crates/egress/bondry-egress-webhook/src/template.rs:144-159 | counting matching segments and values to exactly one is the same as there being one, because the sentinel stands in one place |
| `UrlTemplate.ReplaceSegment` | crates/egress/bondry-egress-webhook/src/template.rs:144-149 | a sentinel that is a whole path segment: the replaced text parses to the same URL with that one segment changed |
| `UrlTemplate.ReplaceValue` | crates/egress/bondry-egress-webhook/src/template.rs:150-159 | a sentinel that is a whole query value: the replaced text parses to the same URL with that one value changed |
| `UrlTemplate.ExpandKeepsStructure` | crates/egress/bondry-egress-webhook/src/template.rs:76-94 | for every accepted template and every secret: expansion fails only for its length, and otherwise keeps scheme, authority and every segment and pair but the placeholder's, which decodes to the secret; the changed-origin error never occurs |
| `UrlTemplate.ExpandInjective` | crates/egress/bondry-egress-webhook/src/template.rs:76-94 | two secrets never expand to the same URL |
| `UrlTemplateExamples.ExampleIsAccepted` | crates/egress/bondry-egress-webhook/src/template.rs:26-62 | templates of every length up to 2048 bytes with an empty path and the placeholder as a query value are accepted |
| `UrlTemplateExamples.RefusedWithinLimit` | crates/egress/bondry-egress-webhook/src/template.rs:84-89 | the greatest secret in such a template of 1032 bytes expands to 4096 bytes, the limit, and is refused; in one byte less it is accepted |
| `SecretEnvelope.EncodeEnvelope` | apple/Sources/BondryApple/KeychainSecretProvider.swift:151-160 | the appended buffer is the envelope |
| `SecretEnvelope.DecodeEnvelope` | apple/Sources/BondryApple/KeychainSecretProvider.swift:162-193 | the cursor reader decides as the field-by-field decoder does |
| `SecretEnvelope.ReadLength` | apple/Sources/BondryApple/KeychainSecretProvider.swift:208-215 | four bytes, the highest first, or nothing and the cursor stays |
| `SecretEnvelope.ReadData` | apple/Sources/BondryApple/KeychainSecretProvider.swift:217-230 | the bytes under the cursor, or nothing and the cursor stays |
| `SecretEnvelope.DecodeEncode` | apple/Sources/BondryApple/KeychainSecretProvider.swift:151-193 | decoding inverts encoding for every valid pair |
| `SecretEnvelope.EncodeDecode` | apple/Sources/BondryApple/KeychainSecretProvider.swift:151-193 | each accepted byte string is the encoding of what it decodes to |
| `SecretEnvelope.EnvelopeIsExact` | apple/Sources/BondryApple/KeychainSecretProvider.swift:151-193 | a string decodes to a pair if and only if the pair is valid and the string is its encoding |
| `WireFormats.StoredLayout` | apple/Sources/BondryApple/KeychainSecretProvider.swift:151-160 | version one, then each secret after its length in four bytes, the highest first; no previous secret is an empty one |
| `KeychainSecrets.KeychainSecretProvider.constructor` | apple/Sources/BondryApple/KeychainSecretProvider.swift:9-12 | the provider opens the keychain with whatever it already holds |
| `KeychainSecrets.KeychainSecretProvider.Resolve` | apple/Sources/BondryApple/KeychainSecretProvider.swift:46-58 | the held pair, or the error for a missing, refused, unexpected or corrupt item |
| `KeychainSecrets.KeychainSecretProvider.Update` | apple/Sources/BondryApple/KeychainSecretProvider.swift:78-92 | an existing item is replaced; a missing one is a lost race |
| `KeychainSecrets.KeychainSecretProvider.Write` | apple/Sources/BondryApple/KeychainSecretProvider.swift:60-76 | a new item is added, a duplicate updated |
| `KeychainSecrets.KeychainSecretProvider.StoreSecret` | apple/Sources/BondryApple/KeychainSecretProvider.swift:21-26 | a store checks the length before it writes a pair without a previous secret |
| `KeychainSecrets.KeychainSecretProvider.RotateTo` | apple/Sources/BondryApple/KeychainSecretProvider.swift:29-36 | a rotation loads first, then checks the length, then keeps the held secret as previous |
| `KeychainSecrets.KeychainSecretProvider.RetirePrevious` | apple/Sources/BondryApple/KeychainSecretProvider.swift:39-44 | a retirement keeps only the current secret |
| `KeychainSecrets.ApplyFrame` | apple/Sources/BondryApple/KeychainSecretProvider.swift:21-44 | a call leaves every other reference alone, and its own too when it fails |
| `KeychainSecrets.RunHolds` | apple/Sources/BondryApple/KeychainSecretProvider.swift:21-44 | after every run over any initial keychain, with any refusals, each reference holds the secret written last, or else held at first, and the one held just before the last rotation, unless a store or retirement came since; an unreadable item stays as it is until a store succeeds |
| `KeychainSecrets.ResolveAfterRun` | apple/Sources/BondryApple/KeychainSecretProvider.swift:14-58 | reading gives that pair; without one it reports an item unreadable from the start, or that nothing was ever there |
| `KeychainSecrets.FailsOnlyWhenRefused` | apple/Sources/BondryApple/KeychainSecretProvider.swift:21-92 | when the keychain answers, a call fails for a length or because no secret is held, as corrupt exactly if the item was unreadable from the start and no store succeeded since; no update loses a race |
| `KeychainSecrets.FailsBecause` | apple/Sources/BondryApple/KeychainSecretProvider.swift:46-107 | each failure told from the answers: which refusals are asked for, -34018 as a missing entitlement, -25300 on an update as a lost race, -25299 on an add as an update, any other status as itself, and the lengths outside 1 to 1024 |
| `KeychainSecrets.NeverCorruptAgain` | apple/Sources/BondryApple/KeychainSecretProvider.swift:14-58 | a reference once readable is readable after every continuation |
| `Discovery.Configure` | crates/egress/bondry-egress-mcp/src/discovery.rs:35-59 | discovery is refused exactly for endpoints that are neither http nor https |
| `Discovery.McpDiscoveryOperation.constructor` | crates/egress/bondry-egress-mcp/src/discovery.rs:48-58 | a new operation is ready, with no deadline, no secrets and the first identifier next |
| `Discovery.McpDiscoveryOperation.StartWith` | crates/egress/bondry-egress-mcp/src/discovery.rs:70-85 | starting the object is the start step |
| `Discovery.McpDiscoveryOperation.ResumeWith` | crates/egress/bondry-egress-mcp/src/discovery.rs:88-139 | resuming the object is the resume step, though it takes the state out first |
| `Discovery.McpDiscoveryOperation.SendMessage` | crates/egress/bondry-egress-mcp/src/discovery.rs:141-235 | the four senders and the composition of their request: identifier, credential, deadline, or the failure |
| `Discovery.McpDiscoveryOperation.TakeId` | crates/egress/bondry-egress-mcp/src/discovery.rs:237-241 | identifiers are handed out in order, saturating at the top |
| `Discovery.McpDiscoveryOperation.FinishWith` | crates/egress/bondry-egress-mcp/src/discovery.rs:243-251 | finishing clears the deadline and the secrets |
| `DiscoveryRuns.RunKeepsInv` | crates/egress/bondry-egress-mcp/src/discovery.rs:70-252 | after every sequence of calls, in order or not, the state says where the dialogue stands |
| `DiscoveryRuns.RequestsAreDialogue` | crates/egress/bondry-egress-mcp/src/discovery.rs:70-252 | every run issues at most four requests, a beginning of the modern or the legacy dialogue, with strictly increasing identifiers, one deadline and one credential |
| `DiscoveryRuns.MaterialIsScoped` | crates/egress/bondry-egress-mcp/src/discovery.rs:81-83 | between calls the deadline is set and the secrets match the authentication exactly while a reply is awaited, and both are cleared otherwise |
| `DiscoveryRuns.InvalidStateIsMisuse` | crates/egress/bondry-egress-mcp/src/discovery.rs:75-137 | `InvalidState` is reported if and only if a start is not the first call or a reply arrives that nobody awaits: the missing-deadline branch is never taken; a transport failure is reported as that failure, awaited or not |
| `DiscoveryRuns.SecretUnavailableAtStart` | crates/egress/bondry-egress-mcp/src/discovery.rs:78-80 | `SecretUnavailable` is reported only by the start, and exactly when the secrets do not fit or the token is malformed |
| `DiscoveryRuns.ResultIsNegotiated` | crates/egress/bondry-egress-mcp/src/discovery.rs:108-131 | a reported revision was settled by an earlier reply and is the one the tools were asked under; the tools are those of the reply with that request's identifier, in order |
| `DiscoveryRuns.NoFault` | crates/egress/bondry-egress-mcp/src/discovery.rs:434-454 | a result is reported exactly when no listed tool fails to bind |
| `DiscoveryProgress.ReplyDecides` | crates/egress/bondry-egress-mcp/src/discovery.rs:88-139 | after every run that awaits a reply, its content alone decides: the tools of the highest listed revision, initialization after -32022, -32601 or no common revision, an acknowledgement after a legacy selection, the tools after an empty 202, the result for usable tools, and the exact error otherwise |
| `DiscoveryProgress.StartDecides` | crates/egress/bondry-egress-mcp/src/discovery.rs:70-85 | a start asks for the revisions exactly with the right secrets and a message that fits, and otherwise says why |
| `DiscoveryProgress.ModernDialogue` | crates/egress/bondry-egress-mcp/src/discovery.rs:100-131 | a peer that lists a known revision completes the modern dialogue with its tools |
| `DiscoveryProgress.LegacyDialogue` | crates/egress/bondry-egress-mcp/src/discovery.rs:100-131 | a peer without one completes the legacy dialogue with its tools |
| `WireFormats.BearerIff` | crates/egress/bondry-egress-mcp/src/mcp.rs:551-569 | a bearer token is letters, digits and six marks, at least one, and then any number of equals signs |
| `Payload.VisitValue` | crates/egress/bondry-egress/src/payload.rs:347-387 | the recursive visitor accepts a value exactly when containers stay within the depth and no object repeats a key |
| `Payload.AcceptsExactly` | crates/egress/bondry-egress-mcp/src/mcp.rs:571-577 | the visitor's running depth check is the bound on the depth the MCP route computes, for every value and starting depth |
| `Payload.VisitDocument` | crates/egress/bondry-egress/src/payload.rs:270-287 | the top-level loop gives the types by name, or refuses |
| `PayloadContract.Judge` | crates/egress/bondry-egress/src/payload.rs:158-176 | in name order the first offender decides; missing fields are looked at only when there is none |
| `PayloadContract.Validate` | crates/egress/bondry-egress/src/payload.rs:147-177 | the whole verdict, in its order of errors |
| `PayloadContract.JudgesIsFunctional` | crates/egress/bondry-egress/src/payload.rs:158-176 | the verdict is determined by the fields alone |
| `PayloadContract.AcceptedExactly` | crates/egress/bondry-egress/src/payload.rs:147-177 | a document within the limit is accepted if and only if it is an object of at most 64 declared, well typed fields with the required ones, without repeated keys at any depth, nested at most 32 deep |
| `PayloadContract.RefusedExactly` | crates/egress/bondry-egress/src/payload.rs:147-177 | each error if and only if its reason: size; no document of that form; the breaching member whose name comes first undeclared, or declared with another type; or none and a required field absent |
| `Names.LessIff` | crates/egress/bondry-egress/src/payload.rs:158-176 | the order of names: an extension is greater, and otherwise the greater byte at the first difference |
| `PayloadReorder.ReorderAccepts` | crates/egress/bondry-egress/src/payload.rs:347-387 | reordering members inside a value never changes whether it is accepted |
| `PayloadReorder.ReorderKeepsVerdict` | crates/egress/bondry-egress/src/payload.rs:147-177 | the same verdict and the same error for every reordering of members at any depth |
| `PayloadReorder.SwapReorders` | crates/egress/bondry-egress/src/payload.rs:270-287 | swapping two members is a reordering, so the theorem is not about identical documents |
| `Ipv4.RustCanonicalIpv4` | crates/contract/bondry-transport/src/policy.rs:514-525 | the array loop accepts exactly four unpadded octets and nothing after them |
| `Ipv4.SwiftCanonicalIpv4` | apple/Sources/BondryApple/BondryHTTPTransport.swift:202-215 | the appending loop does the same with Swift's integer reader |
| `Ipv4.DottedIsCanonical` | crates/contract/bondry-transport/src/policy.rs:514-525 | every address's dotted-decimal printing is accepted and gives the address back |
| `Ipv4.CanonicalIsDotted` | crates/contract/bondry-transport/src/policy.rs:514-525 | an accepted host is that printing if and only if it has no plus sign, so always for digits and dots |
| `Ipv4.PlusIsAccepted` | crates/contract/bondry-transport/src/policy.rs:514-525 | a plus sign is accepted: the input that is no printing |
| `Ipv4.CanonicalDiffers` | apple/Sources/BondryApple/BondryHTTPTransport.swift:202-215 | the two readers differ exactly where a part is a minus sign before zeros |
| `EndpointPolicy.ClassesAgree` | apple/Sources/BondryApple/BondryHTTPTransport.swift:364-387 | Swift's four address classes are Rust's nine with the never-eligible ones together, for every address of 4 or 16 bytes, mapped ones included |
| `EndpointPolicy.V4ClassesAreBlocks` | crates/contract/bondry-transport/src/policy.rs:414-451 | each IPv4 class is exactly the addresses of its numeric blocks |
| `EndpointVerdict.V6ClassesAreBlocks` | crates/contract/bondry-transport/src/policy.rs:453-480 | each IPv6 class is exactly the addresses of its numeric blocks |
| `EndpointVerdict.ClassifiedByNumber` | crates/contract/bondry-transport/src/policy.rs:233-293 | so is the class of every address, with mapped ones read as IPv4 |
| `EndpointVerdict.IntentIff` | crates/contract/bondry-transport/src/policy.rs:488-498 | loopback intent is exactly localhost in any case with at most one final dot, ::1, or four dotted octets of which the first spells 127, in brackets or not |
| `EndpointVerdict.LiteralIff` | crates/contract/bondry-transport/src/policy.rs:500-506 | a literal is a host with a colon or of digits and dots only, in brackets or not |
| `EndpointVerdict.AcceptedIff` | crates/contract/bondry-transport/src/policy.rs:149-202 | cleartext is accepted exactly on the endpoint's port: to loopback meant by the host or by the flag for names, to private addresses with their flag, to link-local ones with theirs and a scope |
| `EndpointVerdict.RefusedBecause` | crates/contract/bondry-transport/src/policy.rs:149-202 | and the exact error otherwise |
| `EndpointPolicy.IntentsDiffer` | crates/contract/bondry-transport/src/policy.rs:488-498 | loopback intent in Rust implies it in Swift; they differ exactly on 127/8 spelled with a minus zero |
| `EndpointPolicy.PoliciesAgree` | crates/contract/bondry-transport/src/policy.rs:149-202 | same verdict and error for every cleartext endpoint, flag set and peer, if and only if it is outside one family, on which Swift accepts and Rust asks for loopback intent |
| `EndpointPolicy.PoliciesAgreeWithoutMinus` | apple/Sources/BondryApple/BondryHTTPTransport.swift:112-168 | so always for hosts without a minus sign |
| `EndpointPolicy.MinusZeroExample` | apple/Sources/BondryApple/BondryHTTPTransport.swift:177-187 | the input that shows the family is not empty |
| `Grants.GrantPolicy.constructor` | crates/contract/bondry-core/src/policy.rs:202-204 | a new policy grants nothing |
| `Grants.GrantPolicy.Grant` | crates/contract/bondry-core/src/policy.rs:207-223 | in-place insertion into the nested map, and whether it changed; nothing when the lock is poisoned |
| `Grants.GrantPolicy.Revoke` | crates/contract/bondry-core/src/policy.rs:226-250 | in-place removal that prunes each level it empties, and whether it changed |
| `Grants.GrantPolicy.Evaluate` | crates/contract/bondry-core/src/policy.rs:254-267 | allowed exactly when the triple is granted and the lock is sound |
| `Grants.GrantRefines` | crates/contract/bondry-core/src/policy.rs:207-223 | granting adds one triple to the set the map stands for and leaves no empty level |
| `Grants.RevokeRefines` | crates/contract/bondry-core/src/policy.rs:226-250 | revoking removes one triple from that set and leaves no empty level |
| `Grants.PrunedIsCanonical` | crates/contract/bondry-core/src/policy.rs:192-250 | a map without empty levels is determined by its set of triples |
| `Grants.RevokeUndoesGrant` | crates/contract/bondry-core/src/policy.rs:207-250 | revoking a fresh grant restores the very map |
| `Dispatch.Dispatcher.constructor` | crates/contract/bondry-core/src/dispatch.rs:49-59 | nothing was done yet |
| `Dispatch.Dispatcher.DispatchOne` | crates/contract/bondry-core/src/dispatch.rs:62-105 | the records and handler run of one call, in order, and its result, for every answer of the audit sink; the handler runs at most once, only when allowed, right after its start was recorded |
| `Dispatch.AnswersIff` | crates/contract/bondry-core/src/dispatch.rs:62-105 | when each answer is given and when the handler runs, from the registration, the decision, the schema, the handler and the audit sink |
| `Dispatch.Dispatcher.ListCapabilities` | crates/contract/bondry-core/src/dispatch.rs:108-127 | lists, in identifier order, exactly the capabilities whose dispatch would be authorized now, for every input; fails exactly when the policy cannot be read and something is registered |
| `DispatchRuns.GrantsReflectHistory` | crates/contract/bondry-core/src/policy.rs:207-250 | a triple is granted if and only if the last change to it was a grant |
| `DispatchRuns.HandlerIsAuthorized` | crates/contract/bondry-core/src/dispatch.rs:62-105 | in every interleaving of invocations with grants, revocations and lock poisoning, a handler runs only after an evaluation at which the last change to its triple was a grant, and after its start was recorded; the triple is still granted then if and only if no later revocation stands |
| `DispatchRuns.RunsWhileGrantedIff` | crates/contract/bondry-core/src/dispatch.rs:74-93 | for the evaluation at step i and the run at step k: granted at k if and only if no effective change between them ends in a revocation |
| `DispatchRuns.LateRevocationRuns` | crates/contract/bondry-core/src/dispatch.rs:74-93 | for every registered capability and accepted input, the legal run in which a revocation comes after the evaluation and the handler runs ungranted |
| `DispatchRuns.HandlerRunsOnce` | crates/contract/bondry-core/src/dispatch.rs:62-105 | no invocation is evaluated twice and no handler runs twice for one invocation |
| `DispatchRuns.EveryAnswerIsAudited` | crates/contract/bondry-core/src/dispatch.rs:62-105 | whatever a dispatch answered was recorded, unless recording it was what failed |
| `DispatchRuns.NeverStuck` | crates/contract/bondry-core/src/dispatch.rs:62-105 | in every reachable state each unfinished invocation has a step that brings it further |
| `DispatchRuns.AloneIsDispatch` | crates/contract/bondry-core/src/dispatch.rs:62-105 | an invocation that nothing is interleaved with does exactly what one call of dispatch does |
| `Closure.TransitiveClosure` | xtask/src/workspace.rs:243-259 | the worklist ends, queues each node it finds exactly once, and finds exactly the nodes reached from the seeds |
| `Closure.Visit` | xtask/src/workspace.rs:250-256 | each new neighbour is found and queued once |
| `Closure.ReachesDual` | xtask/src/workspace.rs:178-185 | a node is reached over edges exactly when it reaches back over the inverted edges |
| `Closure.ClosuresAreDual` | xtask/src/workspace.rs:178-185 | so closures over inverse edges are dual |
| `Workspace.BuildEdges` | xtask/src/workspace.rs:106-143 | the loops build the artifact edges of the last node of each name, and exactly the inverted dependencies between workspace packages |
| `Workspace.LastNodeDecides` | xtask/src/workspace.rs:106-143 | a name has artifact edges exactly if some node has it, and they are those of the last such node |
| `Workspace.ArtifactNamesAre` | xtask/src/workspace.rs:131-142 | a node is built from the named dependencies with some kind that is not for development |
| `Workspace.AddReverse` | xtask/src/workspace.rs:119-127 | one node adds exactly its own back edges |
| `Workspace.ReverseIsInverse` | xtask/src/workspace.rs:106-143 | the reverse edges are inverse to the workspace dependencies |
| `Workspace.ReverseClosureIsDependents` | xtask/src/workspace.rs:178-180 | the reverse closure of changed packages is exactly the packages that depend on one of them through any chain in the workspace, and themselves |

## Left out

- EgressHandle and WebhookRegistration are state machines on values, not classes: the lock and the condition appear only as the atomicity of steps and as sleeping threads.
- TLS verification and server-name comparison, URLSession, the Network framework and socket evidence: foreign code, or data the policy model takes as given.
- Hosts with characters outside ASCII: the two case-insensitive comparisons and integer readers are modelled on ASCII bytes.
- `http::Uri`: the split of an absolute URL is explicit, while which bytes each part admits is a parameter that must admit unreserved bytes and percent signs in paths and queries; URLs without a scheme are refused alike.
- UrlTemplate.ParseRender: the checks of scheme, host, port and user information on an endpoint are part of that parameter, so it holds for every choice of those checks and does not say which one is made.
- UrlTemplate.RenderParse: the same checks are part of that parameter.
- Dispatch.Dispatcher.ListCapabilities: grants do not change while one list is built, so a list that mixes several moments is not modelled.
- Signing.VerifyHmacSha256: that every candidate is compared even after a match is in the body and not in the contract, because timing is not modelled.
- HMAC-SHA-256, SHA-256 and base64: the MAC is an arbitrary function.
- The JSON tokenizer: a document is its tree, with member order and repeated keys kept; JSON Schema validation and tool descriptors are taken as already judged.
- Field-name validation and the constructor of payload contracts, and the other range-checked limit constructors: easy members, used as given.
- Route registry, token buckets, the egress runtime loop, recovery of unfinished deliveries, durable stores, the deduplication and authentication stores.
- Additional trust anchors and the redirect rule of the endpoint policy.
- Registration of capabilities and grant stores on disk; grants are modelled in memory only.
- Keychain locks striped over 64 mutexes: calls on one reference are taken as atomic.
- Zeroizing and redacted debug output.
- Loading cargo metadata, package lookup by path and the command line of `xtask`.
- C headers and shims, the remaining Swift bindings, App Intents and package manifests.
