# Verified model of the rev_scraping core

A Dafny model of the four stateful parts of the `rev_scraping` workspace, with proofs of what each of
them promises. Every result is for all inputs, all runs or all reachable states.

- **Rate limiter and replay cache** (`TokenBucket`, `RateLimiter`, `RateProofs`, `RateExact`, `ReplayCache`). The
  per-host token bucket with its 429 cooldown (section 4 of RFC 6585, section 10.2.3 of RFC 9110), over
  arbitrary runs of acquires, 429s and successes, against a reference that knows no bucket (`RateExact`);
  and the idempotency cache under every interleaving of its callers' atomic steps.
- **CDP shim** (`Json`, `CdpPatches`, `CdpShim`, `CdpRuns`, `CdpWire`, `CdpStream`). The JSON patchers, the
  connection state that `patch_message` keeps, what it does over arbitrary message sequences, what its
  peers see of it key by key (`CdpWire`), and the two forwarding loops interleaved at their awaits.
- **Element relocation** (`Text`, `Dom`, `DomPaths`, `Selectors`, `Fingerprints`, `FingerprintStore`,
  `Relocate`, `Recovery`). Printing positions as CSS paths and XPaths, reading them back, the fingerprint table with
  its integer casts, the three-stage `locate`, and when it is sure of the best candidate (`Recovery`).
- **Profile store and login** (`Envelope`, `AuthFiles`, `ProfileStore`, `CrashRuns`, `CookieJar`,
  `LoginSessions`). The byte format, a save as a sequence of file operations that may stop anywhere,
  histories of such saves, the cookie index, expiry, and single-use login tokens.

Stateful code is modelled by classes whose methods are proved against specification functions; the
theorems are lemmas about those functions. Libraries (cipher, hashes, key derivation, JSON, string
similarity, CSS engine, public suffix list) are function-valued parameters constrained only by stated laws. Time and
randomness are parameters of each call.

## Where the code and its documentation differ

- The tool limiter's documentation says that the first completion under a key is cached; the code
  overwrites, and `ReplayCache.LookupRefinesHistory` is about the last one inserted.
- The comment on a fuzzy match says that both hashes agree; the code asks for one of them
  (`Recovery.BestIsTakenIff`). The comment
  on `Ambiguous` names 0.85; the code uses the caller's threshold.
- The comment in `auth_login_complete` says that two clients cannot poll one token; the lookup does not
  consume it and the result of the later removal is ignored, so single use holds for the sequential
  dispatch loop only.
- The comment on the synthesised lifecycle events says that they reach the client before the response. They
  are sent after the command is forwarded (`CdpStream.EventsFollowForwarding`), and the response can come
  first (`CdpStream.ReplyMayOvertakeEvents`, `CdpStream.ReplyOvertakesEvents`).

## Properties that fail, and exactly when

- The admission bound fails when clock readings reach a host's bucket out of order
  (`RateProofs.ClockOrderIsNeeded`). What a stale reading costs is accounted for exactly
  (`RateProofs.AccrualIsExact`), so that a bound holds for every run
  (`RateProofs.AdmissionBoundAnyOrder`), and in clock order exactly the calls that fit are admitted
  (`RateExact.AdmittedExactly`).
- A cooldown can end early in the same way: an acquire that read a later time lifts it for one that read an
  earlier time (`RateProofs.StaleReadSlipsPastCooldown`). When a 429 still holds, in any clock order, is
  `RateProofs.Retry429Exactly`.
- The XPath of an element reads back as its CSS path if and only if no tag on its way down contains
  `/`, `[` or `]` (`DomPaths.RoundTripExactly`). What other tags read back as, and when the conversion
  panics, are `DomPaths.ConversionExactly` and `DomPaths.PanicsExactly`. For every CSS engine that meets
  the stated laws, the fallback can change the outcome of `locate` if and only if the XPath does not read
  back as printed, and reads as a panic or as a path that selects something somewhere
  (`Relocate.FallbackIsIdleIff`); where what is read is identifiers, `Relocate.MisleadsOnTags` says so in
  terms of the tags. With a tag such as `b[2]` or `x_y[2]` a sibling is reported as an exact match
  (`Relocate.BracketedTagFindsSibling`).
- The attribute hash can miss a change if a value holds a bar (`Recovery.BarHidesAChange`); without bars the
  hashed text determines the attributes up to their order (`Recovery.TextDeterminesAttrs`).
- Locating a recorded element in its own document finds it if and only if no earlier element's way down
  ends with its own (`Relocate.RecordThenLocate`); `Dom.RepeatedRootMisleads` is a document in which one
  does.
- An element scores 1 against its own fingerprint if and only if its tag has no colon
  (`Fingerprints.SelfSimilarity`).
- A purge deletes the right rows of every table that can arise if and only if the cutoff is in the i64
  range or wraps to a time no later than the epoch (`FingerprintStore.PurgeIsExactIff`);
  `FingerprintStore.PurgeOfEverything` is an input where it does not.
- Domain normalisation is idempotent on a domain if and only if no white space stands inside its outer dots
  (`CookieJar.NormalizeStableIff`, `CookieJar.NormalizeIsNotIdempotent`).
- Saving one profile can delete the trash of another: which slots go is `CrashRuns.SweptSlotsAreLost`, by
  which names is `CrashRuns.SweepsIff`, and saving `a` loses `a.b` in `CrashRuns.SweepingLosesAProfile`.
- Between its two renames a save loads back if and only if the metadata on disk leads to a key
  (`CrashRuns.CommittedLoadsIff`); on the first save under a passphrase it does not, and nothing can be
  restored (`CrashRuns.FirstPassphraseSaveIsLost`).
- The domain derived from a login URL is its host if and only if the host has no colon, so that of an IPv6
  address only `[` is left (`LoginSessions.DomainIsHostIff`, `LoginSessions.Ipv6HostIsCut`).

## Model

| member | source | states |
|---|---|---|
| TokenBuckets.RefilledIsSound | crates/stealth-agent-contracts/src/rate.rs:103-111 | Refilling keeps 0 <= tokens <= capacity at any clock reading, removes nothing and adds at most elapsed time times rate |
| TokenBuckets.AcquireStepIsSound | crates/stealth-agent-contracts/src/rate.rs:151-195 | An acquire keeps 0 <= tokens <= capacity and leaves capacity and rate alone |
| TokenBuckets.DurationCeilIsExact | crates/stealth-agent-contracts/src/rate.rs:233-242 | The result is the exact millisecond ceiling until it saturates at u64::MAX, and saturates only for durations that long |
| TokenBuckets.TokenBucket.constructor | crates/stealth-agent-contracts/src/rate.rs:92-101 | A new bucket is full, with the burst raised to one and a negative rate to zero |
| TokenBuckets.TokenBucket.Refill | crates/stealth-agent-contracts/src/rate.rs:103-111 | Refines the refill function and keeps the bucket sound |
| TokenBuckets.TokenBucket.Acquire | crates/stealth-agent-contracts/src/rate.rs:158-194 | Refines the acquire step: cooldown first, then refill, then admit or advise a wait |
| TokenBuckets.TokenBucket.EnterCooldown | crates/stealth-agent-contracts/src/rate.rs:219-221 | Sets the cooldown and drains the tokens, leaving the last refill time alone |
| RateLimiter.Apply | crates/stealth-agent-contracts/src/rate.rs:151-230 | Every call keeps every stored bucket within bounds, with the configured capacity and rate |
| RateLimiter.PerHostRateLimiter.TryAcquire | crates/stealth-agent-contracts/src/rate.rs:151-195 | Refines the step on the abstract map; other hosts' bucket objects are untouched and never shared |
| RateLimiter.PerHostRateLimiter.Record429 | crates/stealth-agent-contracts/src/rate.rs:206-222 | Refines the step on the abstract map, creating the bucket if the host is new |
| RateLimiter.PerHostRateLimiter.RecordSuccess | crates/stealth-agent-contracts/src/rate.rs:226-230 | Refines the step on the abstract map; an unknown host stays unknown |
| RateLimiter.PerHostRateLimiter.GetOrInsert | crates/stealth-agent-contracts/src/rate.rs:153-156 | The host's bucket, inserted full if it was absent; every other entry is the same object |
| RateProofs.Accounting | crates/stealth-agent-contracts/src/rate.rs:103-195 | In every run, in any clock order, and from any call on, the calls admitted and the tokens in hand never exceed the burst and what the later refills put in |
| RateProofs.AccrualIsExact | crates/stealth-agent-contracts/src/rate.rs:103-111 | What the refills put in is exactly the time from the first to the last, and again the time by which stale readings set the refill time back |
| RateProofs.AdmissionBoundAnyOrder | crates/stealth-agent-contracts/src/rate.rs:151-230 | In every window of every run, in any clock order, at most burst + rate * length acquires succeed, and what the time is worth by which stale readings set the refill time back between the first and the last of them |
| RateExact.AdmissionBound | crates/stealth-agent-contracts/src/rate.rs:92-195 | So in a run that is clock-ordered on the host at most max(1, burst) + max(0, per_host_qps) * length succeed, whatever 429s and successes come between |
| RateExact.AdmittedExactly | crates/stealth-agent-contracts/src/rate.rs:92-222 | In a run that is clock-ordered on the host an acquire succeeds if and only if no 429 holds the host and, counted from every earlier call that set the refill time, the successes and this one are at most the burst and what the rate allows since; after a 429, at most what the rate allows |
| RateExact.NewHostGetsItsBurst | crates/stealth-agent-contracts/src/rate.rs:92-171 | Of any number of acquires of a new host at one instant exactly the first max(1, burst) succeed |
| RateExact.NextCallWaitsForRate | crates/stealth-agent-contracts/src/rate.rs:103-171 | After them the next one succeeds exactly from the instant at which max(0, per_host_qps) has made up one call |
| RateExact.AdviceFollowsRate | crates/stealth-agent-contracts/src/rate.rs:174-194 | The wait told after them is the least whole number of milliseconds in which per_host_qps makes up one call, and u64::MAX from 18,446,744,073,709,551,000 ms on |
| RateProofs.ClockOrderIsNeeded | crates/stealth-agent-contracts/src/rate.rs:103-111 | A run with one stale clock reading admits two calls at one instant under a burst of one |
| RateProofs.HostIsolation | crates/stealth-agent-contracts/src/rate.rs:151-230 | What a host's callers see in a run is what they see in the run restricted to that host |
| RateProofs.CooldownIsHonoured | crates/stealth-agent-contracts/src/rate.rs:158-222 | In any clock order, an acquire that reads a time before min(Retry-After or 30 s, 24 h) after a 429 is refused with the exact ceiling of what is left, unless a success, another 429 or an acquire that read a later time intervenes; if it reads after the 429, a day at most |
| RateProofs.Retry429Exactly | crates/stealth-agent-contracts/src/rate.rs:158-230 | In any clock order, an acquire is refused for a 429 if and only if it reads a time before the end of an earlier 429 on its host and nothing on the host between them is a success, a 429 or an acquire that read the end or later |
| RateProofs.OrderedRetry429 | crates/stealth-agent-contracts/src/rate.rs:158-230 | In clock order on the host, if and only if an unexpired 429 precedes it with only acquires in between |
| RateProofs.StaleReadSlipsPastCooldown | crates/stealth-agent-contracts/src/rate.rs:158-168 | A run in which an acquire read after the cooldown lifts it and a later call, read before its end, is admitted |
| RateProofs.BackoffIsClamped | crates/stealth-agent-contracts/src/rate.rs:208-210 | 30 s without a header, the header up to a day, a day beyond |
| RateProofs.DrainedBy429 | crates/stealth-agent-contracts/src/rate.rs:206-222 | After the cooldown an acquire succeeds if and only if a whole token accrued since the last refill |
| RateProofs.WaitAdviceIsLeast | crates/stealth-agent-contracts/src/rate.rs:170-194 | The advised wait is the least whole number of milliseconds: admitted from then on, refused at any instant a millisecond or more earlier |
| RateProofs.ZeroRateNeverRecovers | crates/stealth-agent-contracts/src/rate.rs:178-183 | With a zero rate the advice is u32::MAX seconds and no wait helps |
| RateProofs.ThirdAttemptSucceeds | crates/stealth-agent-contracts/src/rate.rs:151-195 | From any reachable state, a caller that obeys every wait is admitted within three attempts while other hosts call freely |
| ReplayCache.ToolRateLimiter.CheckOrReplay | crates/stealth-agent-contracts/src/rate.rs:366-400 | Replays a live record without touching the host limiter; otherwise drops an expired record only and passes on the limiter's decision |
| ReplayCache.ToolRateLimiter.RecordCompletion | crates/stealth-agent-contracts/src/rate.rs:407-419 | Replaces the record of its key and changes nothing else |
| ReplayCache.ToolRateLimiter.GcExpired | crates/stealth-agent-contracts/src/rate.rs:426-430 | Keeps exactly the unexpired records, unchanged |
| ReplayCache.LookupRefinesHistory | crates/stealth-agent-contracts/src/rate.rs:366-430 | Under every interleaving, a lookup hits if and only if the last completion inserted for its key is younger than the ttl, and returns it verbatim |
| ReplayCache.LookupReturnsWhatWasGiven | crates/stealth-agent-contracts/src/rate.rs:366-430 | Under every interleaving, a lookup hits if and only if the completion last inserted under its key was handed to its caller less than the ttl ago, and returns what was handed over, stamped with the clock at that step |
| ReplayCache.InsertionWasBegun | crates/stealth-agent-contracts/src/rate.rs:407-419 | Every insertion is of a completion its caller was handed earlier, under that key, with the clock at that step |
| ReplayCache.RunInvariant | crates/stealth-agent-contracts/src/rate.rs:366-430 | In every reachable state the cache holds only last insertions and every live one, and what callers remember between steps is safe to act on |
| ReplayCache.NoLiveRecordIsRemoved | crates/stealth-agent-contracts/src/rate.rs:378-395 | No conditional eviction and no sweep, however late, removes an unexpired record |
| ReplayCache.SweepReclaimsExpired | crates/stealth-agent-contracts/src/rate.rs:426-430 | A sweep that visits a record already expired when it began removes it |
| CdpPatches.PatchFrameTreeInPlace | crates/obscura-bridge/src/cdp_shim.rs:201-212 | The in-place recursive loop computes the specified tree, for any depth and width |
| CdpPatches.FrameTreeIsPatched | crates/obscura-bridge/src/cdp_shim.rs:179-212 | Every reachable frame is patched, their number and order are kept, and everything outside them is unchanged |
| CdpPatches.TreeIsSkeletonAndFrames | crates/obscura-bridge/src/cdp_shim.rs:201-212 | A tree is determined by its frames and the rest, so the previous statement fixes the result completely |
| CdpPatches.PatchEventGrows | crates/obscura-bridge/src/cdp_shim.rs:94-176 | An event keeps every key, value, element and length at every depth; only listed defaults appear and only empty context ids go |
| CdpPatches.PatchResponseGrows | crates/obscura-bridge/src/cdp_shim.rs:215-243 | The same for replies |
| CdpPatches.PatchFrameTreeIdempotent | crates/obscura-bridge/src/cdp_shim.rs:201-212 | Patching a tree twice is patching it once |
| CdpPatches.PatchEventIdempotent | crates/obscura-bridge/src/cdp_shim.rs:94-176 | Patching any event twice is patching it once |
| CdpPatches.PatchResponseIdempotent | crates/obscura-bridge/src/cdp_shim.rs:215-243 | Patching any reply twice is patching it once |
| CdpWire.TargetEventIsPatched | crates/obscura-bridge/src/cdp_shim.rs:94-121 | Of a target event only the target info changes: `canAccessOpener` is false unless it was there, an empty `browserContextId` goes, every other key keeps its value |
| CdpWire.FrameEventIsPatched | crates/obscura-bridge/src/cdp_shim.rs:123-131 | Of a navigation event only the frame changes: the three required keys get their defaults unless they were there, an empty `browserContextId` goes |
| CdpWire.RequestEventIsPatched | crates/obscura-bridge/src/cdp_shim.rs:132-157 | Of a request event: `redirectHasExtraInfo`, and in the request `initialPriority` and `referrerPolicy`, with their defaults unless they were there, and nothing else |
| CdpWire.ResponseEventIsPatched | crates/obscura-bridge/src/cdp_shim.rs:137-176 | Of a response event: `hasExtraInfo`, and in the response the five required keys, with their defaults unless they were there, and nothing else |
| CdpWire.OtherMessagesAreUntouched | crates/obscura-bridge/src/cdp_shim.rs:94-146 | Every other message, event or not, is left as it is |
| CdpWire.OtherRepliesAreUntouched | crates/obscura-bridge/src/cdp_shim.rs:215-243 | A reply to any other command is left as it is |
| CdpWire.TargetInfoReplyIsPatched | crates/obscura-bridge/src/cdp_shim.rs:227-240 | Of a `Target.getTargetInfo` reply only the target info changes, as in a target event |
| CdpWire.FrameTreeReplyIsPatched | crates/obscura-bridge/src/cdp_shim.rs:201-226 | Of a `Page.getFrameTree` reply only the tree changes, and in it every frame at any depth, as in a navigation event |
| CdpShim.ShimState.PatchMessage | crates/obscura-bridge/src/cdp_shim.rs:296-403 | Refines one step of the shim: new tables, new message, synthetic events |
| CdpShim.ShimState.SnoopOutbound | crates/obscura-bridge/src/cdp_shim.rs:300-365 | Tracks the command and emits what its session is still owed |
| CdpShim.ShimState.PatchInbound | crates/obscura-bridge/src/cdp_shim.rs:366-399 | Patches the event, learns the session's frame, shapes the reply to a tracked command |
| CdpShim.PatchEventKeepsAttachment | crates/obscura-bridge/src/cdp_shim.rs:366-387 | Patching before reading does not change which session and target are learnt |
| CdpShim.InboundIsConservative | crates/obscura-bridge/src/cdp_shim.rs:366-399 | Whatever the server sends reaches the client with nothing lost and only listed defaults added |
| CdpRuns.PendingIsExact | crates/obscura-bridge/src/cdp_shim.rs:300-306 | At every point of every run the pending map holds exactly the commands that are the latest under their id and have had no result or error since |
| CdpRuns.ReplyIsShapedByItsCommand | crates/obscura-bridge/src/cdp_shim.rs:389-398 | A result for an outstanding command is shaped by that command; an error or a reply under an untracked id gets no response patch |
| CdpRuns.CommandShapesOneReply | crates/obscura-bridge/src/cdp_shim.rs:389-398 | A second reply under an id, with no command under it since the first, reaches the client without a response patch |
| CdpWire.CommandIsRead | crates/obscura-bridge/src/cdp_shim.rs:300-306 | A command is a message with an unsigned `id` and a string `method` |
| CdpWire.ReplyIsRead | crates/obscura-bridge/src/cdp_shim.rs:389-392 | A reply is a message with an unsigned `id` and a `result` or an `error` |
| CdpRuns.SessionTablesTrack | crates/obscura-bridge/src/cdp_shim.rs:313-387 | The session tables say exactly which target was last attached and whether an enabling command followed an attach |
| CdpRuns.ExtrasAreExact | crates/obscura-bridge/src/cdp_shim.rs:313-363 | What each message causes to be sent is the navigation if it is the first enabling command after an attach, the lifecycle events if it is the first to enable them, with the most recently attached target, and nothing else |
| CdpRuns.SyntheticExactlyOnce | crates/obscura-bridge/src/cdp_shim.rs:246-403 | A session's synthetic events, by method and lifecycle name, are none, the navigation, or the navigation and the five lifecycle events in order; which one depends only on whether the enabling commands followed an attach |
| CdpRuns.StreamIsNavigation | crates/obscura-bridge/src/cdp_shim.rs:319-339 | With page events enabled only, the stream is one navigation carrying the target attached at the first enabling command |
| CdpRuns.StreamIsNavigationAndLifecycle | crates/obscura-bridge/src/cdp_shim.rs:319-361 | With lifecycle events enabled, the stream is the navigation and the five events, each part carrying the target attached when it was enabled |
| CdpWire.NothingUnasked | crates/obscura-bridge/src/cdp_shim.rs:300-365 | In every run a session that has not sent `Page.enable` or `Page.setLifecycleEventsEnabled` while attached is sent nothing |
| CdpWire.NavigationIsSent | crates/obscura-bridge/src/cdp_shim.rs:269-339 | The first event it is sent afterwards is a navigation, read field by field: `frame.id` is the target attached when it first asked, `loaderId` the draw of that message, the page about:blank; it is the only one while no lifecycle events are asked for |
| CdpWire.LifecycleIsSent | crates/obscura-bridge/src/cdp_shim.rs:246-361 | The rest are init, commit, DOMContentLoaded, load and networkIdle, once: `frameId` is the target attached when lifecycle events were first asked for, `loaderId` and `timestamp` the draws of that message |
| CdpWire.AttachedToIff | crates/obscura-bridge/src/cdp_shim.rs:366-387 | The target of a session is the one in the last `Target.attachedToTarget` with its session id |
| CdpStream.ClientStreamShape | crates/obscura-bridge/src/cdp_shim.rs:538-626 | Under every interleaving, failure and close, the client receives patched server messages in order without gaps and each command's events as one uninterrupted block in command order; the server receives the client's messages unchanged; a block is short only after a failed send or while being written |
| CdpStream.ClientSeesWhatServerSent | crates/obscura-bridge/src/cdp_shim.rs:590-621 | Under every interleaving, a server frame that reaches the client is the server's own: other frames unchanged, JSON as the shim turns it at its place in the message log, with nothing lost and only listed defaults added |
| CdpStream.ClientSeesSyntheticStream | crates/obscura-bridge/src/cdp_shim.rs:538-626 | With no failed send and the client loop idle, the client has received exactly the session's synthetic stream, however the loops were interleaved |
| CdpStream.EventsFollowForwarding | crates/obscura-bridge/src/cdp_shim.rs:570-585 | In every run, no event of a command reaches the client before the command was sent to the server |
| CdpStream.ReplyMayOvertakeEvents | crates/obscura-bridge/src/cdp_shim.rs:538-626 | From every reachable state in which a command that owes events is about to be forwarded to a server that can answer, the answer can reach the client before the first of the events |
| CdpStream.ReplyOvertakesEvents | crates/obscura-bridge/src/cdp_shim.rs:308-312 | A reachable state in which the client got the reply to `Page.enable` and only then the navigation |
| CdpStream.StepKeepsInv | crates/obscura-bridge/src/cdp_shim.rs:538-626 | Every enabled step of either loop keeps the stream invariant |
| CdpStream.MessagesAreLogged | crates/obscura-bridge/src/cdp_shim.rs:538-612 | What either side sends as JSON is handed to the shim with its own direction, value, loader ids and clock reading; nothing else is |
| Text.SplitJoin | crates/stealth-parse/src/relocate.rs:134-155 | Splitting undoes joining when no piece contains the start of the separator |
| Text.ParsePrinted | crates/stealth-parse/src/relocate.rs:143-144 | A printed index parses back to itself |
| Text.ParsesIff | crates/stealth-parse/src/relocate.rs:143-144 | Exactly the numerals parse: at least one digit, perhaps after a plus, of a value that fits 64 bits |
| Dom.StepsDetermineElement | crates/stealth-parse/src/fingerprint.rs:81-108 | Distinct elements of a document have distinct steps |
| Dom.MatchesIffSuffix | crates/stealth-parse/src/relocate.rs:57-72 | A chain of compounds matches exactly the elements whose way down ends with it |
| Dom.SelectIsFirstReached | crates/stealth-parse/src/relocate.rs:57-62 | A chain of steps selects an element if and only if its way down ends with them and that of no earlier element does |
| Dom.StepsIdentifyElement | crates/stealth-parse/src/fingerprint.rs:97-108 | Where the root tag occurs only at the root, an element's steps reach it and nothing else |
| Dom.RepeatedRootMisleads | crates/stealth-parse/src/relocate.rs:57-62 | In a document with the root tag used again, an element's own steps select an earlier element |
| DomPaths.NthOfTypeIndex | crates/stealth-parse/src/fingerprint.rs:81-95 | The backward walk counts the earlier siblings with the same tag, plus one |
| DomPaths.StepsCountSiblings | crates/stealth-parse/src/fingerprint.rs:81-108 | Each step on the way down is the tag there and one more than the number of earlier siblings with that tag |
| DomPaths.CssPathOf | crates/stealth-parse/src/fingerprint.rs:97-108 | The climb to the root prints the steps from the top down |
| DomPaths.XPathOf | crates/stealth-parse/src/fingerprint.rs:110-121 | The same in XPath notation |
| DomPaths.XPathToCssLoop | crates/stealth-parse/src/relocate.rs:134-155 | The segment loop computes the conversion on any string, with its early returns and its panic |
| DomPaths.RoundTripExactly | crates/stealth-parse/src/relocate.rs:134-155 | For every element of every document, its XPath converts to its CSS path if and only if no tag on the way contains '/', '[' or ']' |
| DomPaths.ConversionExactly | crates/stealth-parse/src/relocate.rs:134-155 | For tags without a slash, reading back a printed XPath is decided tag by tag: read as printed, cut to the number in its brackets, refused, or a panic, the first failure deciding |
| DomPaths.PanicsExactly | crates/stealth-parse/src/relocate.rs:141-144 | It panics if and only if the first tag that cannot be read has a ']' before any '[' |
| DomPaths.BracketedTagIsMisread | crates/stealth-parse/src/relocate.rs:141-146 | A tag that looks like a segment converts to the path of the sibling it names |
| DomPaths.OutputIsClean | crates/stealth-parse/src/relocate.rs:134-155 | Whatever the conversion prints has no slash and no opening bracket |
| DomPaths.WrittenPathReads | crates/stealth-parse/src/relocate.rs:134-155 | Any XPath of tags and numbered tags reads as the steps it stands for, a tag alone as the first of its kind, whatever slashes stand in front or between; one that stands for no step is refused |
| Selectors.ParsePrintedPath | crates/stealth-parse/src/relocate.rs:57-62 | Reading a printed CSS path of identifiers, compound by compound, gives back its steps |
| Selectors.PlainEngineIsLawful | crates/stealth-parse/src/relocate.rs:57-77 | What is asked of the CSS engine can be met: an engine for printed paths and tags meets it |
| Selectors.PathWithNumber | crates/stealth-parse/src/relocate.rs:141-146 | A path whose tags can all be read back, but not all as printed, has a number in brackets before any other bracket or slash, so that it is no selector |
| Selectors.SelectableIff | crates/stealth-parse/src/relocate.rs:57-72 | A selector selects something in some document if and only if its numbers are positive; the document is constructed |
| Selectors.CssPathsAreDistinct | crates/stealth-parse/src/fingerprint.rs:97-108 | Distinct elements have distinct CSS paths, for any tags the tokenizer produces |
| Selectors.OwnPathSelectsElement | crates/stealth-parse/src/relocate.rs:57-62 | For every CSS engine that meets the laws and every way down of identifiers: resolving an element's own path in its document selects that element if and only if no earlier element's way down ends with its own |
| Fingerprints.NormalizeIdempotent | crates/stealth-parse/src/fingerprint.rs:59-61 | Normalised text is already normal |
| Fingerprints.NormalizeKeepsContent | crates/stealth-parse/src/fingerprint.rs:59-61 | Normalising keeps every word and every non-space character, in order |
| Fingerprints.TextConcat | crates/stealth-parse/src/fingerprint.rs:165-195 | The text of an element is the text of its nodes in document order |
| Fingerprints.AttrsOrderIrrelevant | crates/stealth-parse/src/fingerprint.rs:63-71 | Permuting the attributes changes neither the attribute string nor its hash |
| Fingerprints.LiveTagIsTag | crates/stealth-parse/src/fingerprint.rs:213-225 | The tag read back from a printed path is the element's tag if and only if it has no colon |
| Fingerprints.SimilarityInUnit | crates/stealth-parse/src/fingerprint.rs:213-243 | Scores lie in [0, 1], and at most 0.85 for another tag |
| Fingerprints.SelfSimilarity | crates/stealth-parse/src/fingerprint.rs:165-243 | An element scores 1 against its own fingerprint, 0.85 if its tag has a colon |
| Fingerprints.SamePositionScore | crates/stealth-parse/src/fingerprint.rs:213-243 | At an unchanged position the loss is exactly 0.30 times the text distance plus 0.25 times the attribute distance, so the score is at least 0.45 |
| Fingerprints.SameContentScore | crates/stealth-parse/src/fingerprint.rs:213-243 | A moved element with its tag, text and attributes in any order loses exactly 0.15 times each path distance and scores at least 0.7 |
| Fingerprints.AttrsScoreExactly | crates/stealth-parse/src/fingerprint.rs:221-236 | The attributes of two elements are alike fully if both have none, not at all if one has none, and else as their texts |
| Fingerprints.TagSequenceIsTags | crates/stealth-parse/src/fingerprint.rs:197-203 | The tag sequence of a printed path is the tags on the way down |
| FingerprintStore.ParseStore.Upsert | crates/stealth-parse/src/store.rs:56-90 | The row of the key is replaced and no other changes; times in the table stay at or after the epoch |
| FingerprintStore.ParseStore.Lookup | crates/stealth-parse/src/store.rs:93-122 | The fingerprint of the key's row, or none |
| FingerprintStore.ParseStore.PurgeOlderThanDays | crates/stealth-parse/src/store.rs:125-137 | Exactly the rows at or after the cutoff stay, unchanged, and the count is of the others |
| FingerprintStore.StoredThenFound | crates/stealth-parse/src/store.rs:56-122 | Storing and looking up returns the fingerprint through the u64/i64 casts, its time cut to whole seconds after the epoch |
| FingerprintStore.CutoffIsOneWrap | crates/stealth-parse/src/store.rs:126-130 | The cutoff, computed with three wrapping operations, is the true value wrapped once |
| FingerprintStore.PurgeIsExactIff | crates/stealth-parse/src/store.rs:125-137 | From every table that can arise, the rows deleted are those older than the given days if and only if the true cutoff is in the i64 range or wraps to a time no later than the epoch |
| FingerprintStore.HarmlessUnderflow | crates/stealth-parse/src/store.rs:125-137 | A cutoff far below the i64 range that deletes the right rows all the same |
| FingerprintStore.PurgeOfEverything | crates/stealth-parse/src/store.rs:125-137 | Asking for u64::MAX days deletes every row seen before tomorrow |
| Relocate.SearchIsExact | crates/stealth-parse/src/relocate.rs:74-109 | For every identifier as the stored tag, the search answers from the one ranking of the same-tag elements at or above the threshold, by score and then document order: none is NotFound, else the first is matched if a hash agrees, else all are listed in that order |
| Recovery.BestIsTakenIff | crates/stealth-parse/src/relocate.rs:89-106 | For a recorded element: if the best candidate has its attributes in any order, or its parent and sibling tags, the best is the answer; as far as the hash tells the texts apart, the candidates are listed if and only if both texts have changed |
| Recovery.ListedIffBothChanged | crates/stealth-parse/src/relocate.rs:93-105 | Where the texts can be read back: if and only if the attributes changed and the parent tag or the sibling tags did |
| Recovery.AttrTextExactly | crates/stealth-parse/src/fingerprint.rs:63-67 | The text of the attributes is their "k=v" in sorted order with bars between |
| Recovery.TextDeterminesAttrs | crates/stealth-parse/src/fingerprint.rs:63-67 | Without bars, and equal signs in names, it determines the attributes up to order |
| Recovery.BarHidesAChange | crates/stealth-parse/src/fingerprint.rs:63-67 | With a bar in a value it does not: two attribute lists with one text |
| Relocate.RankingExists | crates/stealth-parse/src/relocate.rs:74-83 | There is always such a ranking |
| Relocate.RankingIsUnique | crates/stealth-parse/src/relocate.rs:83 | And only one |
| Relocate.ThresholdIsMonotone | crates/stealth-parse/src/relocate.rs:86-109 | Raising the threshold filters the earlier answer: best node and kind stay, candidates only drop out, the emptied answer is NotFound |
| Relocate.FallbackIsIdleIff | crates/stealth-parse/src/relocate.rs:57-72 | For every CSS engine that meets the laws, and any tags without a slash: the XPath fallback of a recorded element makes no difference in any document if and only if the notation can carry its tags, or its XPath reads as neither a panic nor a path that selects something somewhere |
| Relocate.MisleadsOnTags | crates/stealth-parse/src/relocate.rs:134-155 | Which tags get in the way, where what is read back is identifiers: the first that cannot be read panics, or all can be read, with positive numbers |
| Relocate.ExactMatchIsFirstReached | crates/stealth-parse/src/relocate.rs:44-72 | The first element whose way down ends with the recorded one is the exact match; if there is none, the search decides |
| Relocate.RecordThenLocate | crates/stealth-parse/src/relocate.rs:44-129 | Recording and then locating in the same document, through the store, returns the exact match of that element if and only if no earlier element's way down ends with its own |
| Relocate.UniqueRootIsFound | crates/stealth-parse/src/relocate.rs:44-129 | In particular where the root tag occurs only at the root |
| Relocate.NodeRefsAreDistinct | crates/stealth-parse/src/fingerprint.rs:188-195 | What is reported of two elements differs, for any tags the tokenizer produces |
| Relocate.BracketedTagFindsSibling | crates/stealth-parse/src/relocate.rs:64-72 | With a last tag such as `b[2]` or `x_y[2]`, locating in the same document reports a sibling as an exact match |
| Relocate.Relocator.Locate | crates/stealth-parse/src/relocate.rs:44-72 | Refines the three-stage outcome |
| Relocate.Relocator.SearchByScore | crates/stealth-parse/src/relocate.rs:74-109 | Refines the search: bad tag, not found, fuzzy or ambiguous |
| Relocate.Relocator.ScoreAll | crates/stealth-parse/src/relocate.rs:77-83 | The loop and the sort give what the stored tag selects, scored, best first |
| Relocate.ScoreEach | crates/stealth-parse/src/relocate.rs:78-82 | The loop scores every selected element, in the order selected |
| Relocate.Relocator.Record | crates/stealth-parse/src/relocate.rs:113-129 | Writes the row of the element the CSS engine picks for the caller's selector, and nothing if it is refused or picks none |
| Envelope.DecodeOfEncode | crates/stealth-auth/src/crypto.rs:102-133 | Every envelope is read back as it was written |
| Envelope.EncodeOfDecode | crates/stealth-auth/src/crypto.rs:102-133 | Every accepted byte string re-encodes to itself |
| Envelope.AcceptedIffEncoding | crates/stealth-auth/src/crypto.rs:113-133 | The accepted strings are exactly the encodings |
| Envelope.EncodingLayout | crates/stealth-auth/src/crypto.rs:102-111 | The bytes of an envelope: REVAUTH1, version 1 in little endian, profile hash, nonce, ciphertext |
| Envelope.AadSeparatesContexts | crates/stealth-auth/src/crypto.rs:24-30 | For one profile, the associated data is injective in the context |
| Envelope.AadReads | crates/stealth-auth/src/crypto.rs:24-30 | The associated data as text, with and without a context |
| Envelope.AadCollidesIff | crates/stealth-auth/src/crypto.rs:24-30 | Across profiles it coincides exactly when the longer name continues the shorter with a colon and the context takes up the rest |
| Envelope.DecryptOfEncrypt | crates/stealth-auth/src/crypto.rs:45-92 | What was encrypted decrypts under the same profile, context and key |
| Envelope.OnlyItsOwnContextOpens | crates/stealth-auth/src/crypto.rs:72-100 | For any profile, context and key: another profile hash is reported, and else only the sealing key and context recover the plaintext |
| AuthFiles.LiveNamesAreApart | crates/stealth-auth/src/storage.rs:18-36 | Profiles share no live path, and no temporary file is a live one |
| AuthFiles.SweepsForeignTrashIff | crates/stealth-auth/src/storage.rs:100-111 | Rotating one profile takes a trash slot of another for its own exactly if the other's name goes on from it with a dot, or it is the other's name and that timestamp |
| AuthFiles.AtomicWriteIsAtomic | crates/stealth-auth/src/storage.rs:30-50 | At every prefix but the whole, only the temporary file differs; after the whole, the target holds exactly the bytes |
| AuthFiles.RotationUnfinished | crates/stealth-auth/src/storage.rs:52-69 | Before its last step a rotation leaves the live blob in place |
| AuthFiles.RotationFinished | crates/stealth-auth/src/storage.rs:52-69 | After it, the blob is in the trash, whole, and the live slot is empty |
| AuthFiles.AuthDir.AtomicWrite | crates/stealth-auth/src/storage.rs:30-50 | Takes the listed steps; the target then holds the bytes and the temporary file is gone |
| AuthFiles.AuthDir.RemoveExistingTrashGeneration | crates/stealth-auth/src/storage.rs:100-111 | The scan removes the slots with the profile's prefix and the suffix, in listing order |
| AuthFiles.AuthDir.RotateExistingToTrash | crates/stealth-auth/src/storage.rs:52-69 | Takes the listed steps, none if there is no live blob |
| ProfileStore.AuthStore.SaveInner | crates/stealth-auth/src/jar.rs:72-117 | Takes exactly the planned steps; a rejected save takes none |
| ProfileStore.AuthStore.Prepare | crates/stealth-auth/src/jar.rs:79-113 | Decides salt, key, blob and metadata from the files as they are |
| ProfileStore.RefusedNames | crates/stealth-auth/src/jar.rs:380-392 | A save and a load refuse as invalid exactly the names that are empty, a dot name, or hold a separator |
| ProfileStore.AuthStore.BuildMetaLoop | crates/stealth-auth/src/jar.rs:263-289 | Domains and name prefixes sorted, without repetition and complete, expiries in cookie order, the creation time and replay data kept |
| ProfileStore.OrderedLists | crates/stealth-auth/src/jar.rs:271-284 | Collecting through an ordered set gives the one sorted list without repetition of what was added |
| ProfileStore.SaveIsCrashConsistent | crates/stealth-auth/src/jar.rs:97-116 | After any number of steps of a save the live slot is empty, the whole old blob or the whole new one, the last exactly from the move on; until then the old blob is live or in the trash; metadata is old until the last step |
| CrashRuns.InterruptedSaveIsRestorable | crates/stealth-auth/src/jar.rs:72-136 | If a profile's cookies could be restored before a save, then after any number of its steps they can, or from the move on the new ones can, under the salt in the metadata |
| CrashRuns.AlwaysRestorable | crates/stealth-auth/src/jar.rs:72-136 | After any history of interrupted saves of any profiles, a profile is restorable to its latest save whose blob was moved, as long as every other profile's save spares a copy of it |
| CrashRuns.LostWhenDisturbed | crates/stealth-auth/src/jar.rs:72-136 | That condition is exact: after a save of another profile that went through its rotation, the profile is restorable if and only if it was spared |
| CrashRuns.UnsweptIsUndisturbed | crates/stealth-auth/src/storage.rs:100-111 | Profiles whose names do not sweep this one's never disturb it |
| CrashRuns.SaveThenLoad | crates/stealth-auth/src/jar.rs:72-136 | A completed save is loaded back, whatever was there before |
| CrashRuns.OnlyItsOwnSourceLoads | crates/stealth-auth/src/jar.rs:72-136 | After a completed save the cookies load under the very source and context that saved them; another passphrase, the keyring in place of a passphrase, or another context gives BadKeyOrTamper, and a passphrase in place of the keyring finds no salt |
| CrashRuns.SealedUnderItsKey | crates/stealth-auth/src/keystore.rs:24-47 | The blob of a save opens under the keyring key of the profile, or the key derived from the passphrase and the salt in the metadata, and under no other |
| CrashRuns.OnlyItsOwnSaltOpens | crates/stealth-auth/src/keystore.rs:67-101 | Under metadata with another salt the same passphrase does not open the blob |
| CrashRuns.SaltOfSave | crates/stealth-auth/src/keystore.rs:49-65 | A save under a passphrase keeps the salt on disk or takes the fresh one, 16 bytes; under the keyring there is none |
| CrashRuns.MetadataCarriesOver | crates/stealth-auth/src/jar.rs:100-116 | The metadata reads as before until the save completes, then keeps creation time and replay data and reports the saved cookies' expiries |
| CrashRuns.MetadataListsCookies | crates/stealth-auth/src/jar.rs:263-289 | After a completed save the metadata lists exactly the domains and the name prefixes of the saved cookies, sorted, each once, under the profile and the time of the save |
| CrashRuns.MetadataHidesValues | crates/stealth-auth/src/jar.rs:263-289 | Metadata is the same for cookies that differ in value, path and flags only |
| CrashRuns.CommittedLoadsIff | crates/stealth-auth/src/jar.rs:81-117 | Between the two moves the new cookies load if and only if the metadata on disk leads to a key |
| CrashRuns.FirstPassphraseSaveIsLost | crates/stealth-auth/src/jar.rs:81-117 | On the first save under a passphrase a crash there leaves nothing that can be restored, under any context, to any cookies |
| CrashRuns.PlanKeepsKey | crates/stealth-auth/src/keystore.rs:49-61 | A profile whose key is on disk keeps it: the salt is reused for blob and metadata |
| CrashRuns.RestorableIffKept | crates/stealth-auth/src/jar.rs:119-136 | Restorable by loading, perhaps after moving a trash slot back, means that a kept blob opens under the key on disk |
| CrashRuns.OtherLiveFilesUntouched | crates/stealth-auth/src/storage.rs:18-69 | A save never touches the live files of another profile, at any point |
| CrashRuns.OtherProfileStaysRestorable | crates/stealth-auth/src/storage.rs:52-111 | At every point of a save, another profile stays restorable if a copy that opens is live, in the trash while nothing is rotated, or in a slot that is not swept |
| CrashRuns.RestorableAfterOtherIff | crates/stealth-auth/src/storage.rs:52-111 | Once the rotation is through, if and only if |
| CrashRuns.SweepsIff | crates/stealth-auth/src/storage.rs:100-111 | One profile sweeps another's trash exactly if the other's name goes on from it with a dot, or it is the other's name and a number |
| CrashRuns.SweptSlotsAreLost | crates/stealth-auth/src/storage.rs:52-111 | Of a profile whose live slot is empty, another profile's rotation leaves exactly the slots that do not look like its own older generations |
| CrashRuns.SweepingLosesAProfile | crates/stealth-auth/src/storage.rs:100-111 | Rotating `a` deletes the only copy of `a.b` |
| CookieJar.PathMatchIsContainment | crates/stealth-auth/src/jar.rs:312-325 | Path matching is section 5.1.4 of RFC 6265: the path itself or something inside it as a directory |
| CookieJar.CookieGoesIff | crates/stealth-auth/src/jar.rs:299-342 | A cookie goes with a request if and only if it has not expired, the scheme is https where it is secure, its domain is the host or a parent not registered by someone else, and the request is for its path or inside it |
| CookieJar.SentExactly | crates/stealth-auth/src/jar.rs:224-243 | What is sent is "name=value" of exactly those cookies of the list, each as often as it is there |
| CookieJar.HeaderExactly | crates/stealth-auth/src/jar.rs:238-241 | There is no header if and only if there is no pair or one has a control byte other than tab; a header reads back as the pairs |
| CookieJar.CookieStaysInItsDomain | crates/stealth-auth/src/jar.rs:299-342 | Whatever the public suffix list says, a cookie goes only to its domain or to hosts below it |
| CookieJar.NormalizedShape | crates/stealth-auth/src/jar.rs:291-297 | A normalised domain has no dot at either end and no capital letters |
| CookieJar.NormalizedIsCore | crates/stealth-auth/src/jar.rs:291-297 | Only white space and dots at the ends go; the rest keeps its length, capitals made small |
| CookieJar.NormalizeStableIff | crates/stealth-auth/src/jar.rs:291-297 | Normalising twice is normalising once if and only if no white space stands inside the outer dots of the domain |
| CookieJar.NormalizeIsNotIdempotent | crates/stealth-auth/src/jar.rs:291-297 | ". a" becomes " a", and that becomes "a" |
| CookieJar.AuthCookieJar.FromCookies | crates/stealth-auth/src/jar.rs:199-208 | The groups hold, for each normalised domain, exactly its cookies in their order |
| CookieJar.AuthCookieJar.CookieCount | crates/stealth-auth/src/jar.rs:210-212 | In any group order the count is that of the list the jar was built from |
| CookieJar.AuthCookieJar.Cookies | crates/stealth-auth/src/jar.rs:224-243 | In any group order the pairs are, as a multiset, those of the cookies of the list that go with the request; one illegal byte and no header is sent |
| CookieJar.IndexConserves | crates/stealth-auth/src/jar.rs:199-208 | The index determines the list up to order: no cookie is lost, added or duplicated |
| CookieJar.ClassifyStatus | crates/stealth-auth/src/jar.rs:344-378 | The counting and minimum loops compute the status as the worst window any cookie falls in |
| CookieJar.StatusNeverImproves | crates/stealth-auth/src/jar.rs:344-378 | For a fixed list the status never improves as the clock advances |
| CookieJar.StatusMeaning | crates/stealth-auth/src/jar.rs:344-378 | At least ExpiringSoon, ExpiringCritical, PartiallyExpired if and only if some cookie ends within 7 days, within 24 hours, by now; AllExpired if and only if all have |
| LoginSessions.Wait | crates/stealth-mcp/src/auth_tools.rs:411-436 | The verdict is that of the first round that has one, no later round starts once the deadline is reached, and no more rounds pass than fit the timeout |
| LoginSessions.AuthSessionRegistry.Gc | crates/stealth-mcp/src/auth_tools.rs:161-164 | Drops exactly the sessions that have reached their lifetime |
| LoginSessions.AuthSessionRegistry.Take | crates/stealth-mcp/src/auth_tools.rs:146-151 | The token is absent afterwards; an expired session is not handed out |
| LoginSessions.AuthSessionRegistry.Peek | crates/stealth-mcp/src/auth_tools.rs:153-159 | Finds a fresh session and leaves it registered |
| LoginSessions.AuthSessionRegistry.Len | crates/stealth-mcp/src/auth_tools.rs:188-191 | Counts the fresh sessions, dropping the others |
| LoginSessions.DomainIsHostIff | crates/stealth-mcp/src/auth_tools.rs:339-352 | Of a URL with any scheme, user name, port and path, the domain derived is the host if and only if the host has no colon |
| LoginSessions.Ipv6HostIsCut | crates/stealth-mcp/src/auth_tools.rs:339-352 | From a bracketed IPv6 address only the opening bracket is derived |
| LoginSessions.AuthSessionRegistry.HandleStart | crates/stealth-mcp/src/auth_tools.rs:271-337 | A token is registered if and only if the arguments are valid, a domain is given or derived, the policy allows it and the helper starts |
| LoginSessions.AuthSessionRegistry.HandleComplete | crates/stealth-mcp/src/auth_tools.rs:397-464 | Every return after a passed lookup leaves the token absent, whatever the verdict |
| LoginSessions.LiveTokensAreIssued | crates/stealth-mcp/src/auth_tools.rs:142-164 | Every registered token came from an allowed start, with its data, and has not been asked for since |
| LoginSessions.LookupExactly | crates/stealth-mcp/src/auth_tools.rs:397-409 | In every sequential run a complete call passes the lookup if and only if an allowed start issued its token less than the lifetime ago and no complete call named it since |
| LoginSessions.SingleUse | crates/stealth-mcp/src/auth_tools.rs:397-464 | At most one complete call per token passes the lookup |
| LoginSessions.ConsumedForGood | crates/stealth-mcp/src/auth_tools.rs:397-464 | After a passed lookup the token is absent at every later point of the run |
| LoginSessions.CompletedMatchesStart | crates/stealth-mcp/src/auth_tools.rs:397-464 | A reported success names the profile and domain of the allowed start that issued the token, and that profile is in the store |
| LoginSessions.CompleteSweeps | crates/stealth-mcp/src/auth_tools.rs:146-164 | A complete call leaves exactly the sessions within their lifetime when it last looks, apart from its own |
| LoginSessions.CompleteEndsAsSeen | crates/stealth-mcp/src/auth_tools.rs:411-453 | A complete call whose token is found ends as the first round says that sees the marker, the helper gone, or the deadline: in success exactly if the login is seen and the store then has the profile, in failure if the helper left none or the store has none, else in a timeout |
| LoginSessions.RegisteredIsAllowed | crates/stealth-mcp/src/auth_tools.rs:276-321 | A registered session has a profile name that is neither empty nor path-like, and the domain that was put to the policy with its URL: the one given, if one was |
| LoginSessions.StartedIff | crates/stealth-mcp/src/auth_tools.rs:271-321 | A start call succeeds if and only if profile and URL are given, the profile name is not path-like, the policy allows the domain given or derived, and the helper starts |

## Left out

- Rounding: `f64` and `f32` arithmetic is exact on reals, so NaN thresholds and configurations and sums off by an ulp are not modelled.
- `Instant` overflow in `record_429` (saturated to no cooldown by `checked_add`): instants are unbounded.
- JSON text: values are parsed trees, so key order, duplicate keys and number formatting are not modelled.
- The shim's handshake, URL rewriting and accept loop: no state.
- The CSS engine: of what it accepts and selects, only the laws `ReadsPaths`, `ReadsTags` and `RefusesNumbers` are stated. What it makes of other strings, such as the compound `a.b` or a number above `i32::MAX`, is its own affair; `Relocate.MisleadsOnTags` is for tags read as identifiers for that reason.
- Namespaces and letter case in selectors: the laws compare names exactly, which differs only where the parser gave a foreign element capitals that an html element cannot have.
- Dom.Select: that the CSS engine lists elements in document order is an assumption on the library (`ReadsPaths`, `ReadsTags`); if it visits nodes in the order they were created, foster parenting can make the two differ.
- Dom.StepsIdentifyElement: a sufficient condition; which elements are reached in general is `Dom.MatchesIffSuffix`.
- DomPaths.ConversionExactly: like `Relocate.FallbackIsIdleIff` and `Relocate.MisleadsOnTags` for tags without a slash, which the HTML tokenizer never produces; that a slash breaks the round trip is part of `DomPaths.RoundTripExactly`.
- HTML parsing: documents are trees; text is a sequence of characters rather than UTF-8 bytes.
- SQLite errors and overflow panics of debug builds.
- Durability below the file operations: a rename is taken to be in effect once done, so a crash that undoes an unsynced rename is not modelled. File permissions are not modelled.
- Trash timestamps before 1970, and the deletion of a profile with shredding.
- The keyring is a fixed key per profile; creating it on first use and its errors are not modelled.
- Domain matching takes the public suffix list as an opaque function.
- Concurrent `auth_login_complete` calls on one token, which the sequential dispatch loop excludes.
- Collisions: `Authentic`, `SeparatesKeys` and `TellsApart` say that the cipher, the key derivation and the hash do not collide; they are assumptions of the lemmas that name them.
- Token freshness, the uniqueness of random UUIDs, is an assumption of the run lemmas of `LoginSessions`.
- Captcha bridge, browser launch, JS patches, VPN selection, SSRF and policy tables, progress reports, `doctor`: tables, templates and foreign processes.
