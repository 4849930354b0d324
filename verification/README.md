# AstraVeil: verified core

A Dafny model of the parts of the AstraVeil daemon, its Rust token library, its kernel module and
its app that decide who may do what and that carry messages between them, with proofs of what they
keep over whole runs.

- **Capability delegation tree** (`Lists`, `CapabilityForest`, `CapabilityTrees`, `CapabilityRuns`).
  The class keeps the two maps of the source and works on them in place; the recursive walks are
  proved exact against the set of nodes below the given one, and to end, from a forest invariant
  over both maps. Runs are arbitrary sequences of initialisation, delegation, revocation and removal.
- **Module bus** (`RateLimiter`, `BusModel`, `ModuleBuses`, `BusRuns`). Queues, subscriptions, windows,
  sequence numbers and counters; order, exactly-once delivery, conservation and the rate bound over
  arbitrary runs. The two clock readings of a send are parameters of the call.
- **Capability tokens** (`Base64Url`, `TokenPayload`, `CapabilityTokens`). Strings are their UTF-8 bytes,
  bit patterns where the source shifts and masks. The keyed hash and the hash behind the nonce are
  function parameters about which nothing is assumed.
- **Client session** (`Frames`, `SocketServers`). Every decision of the operating system (how much a
  read or write moves, when a call is interrupted, fails or times out) is a nondeterministic choice,
  so the contracts hold for every schedule. Interruptions and empty writes are arbitrarily many but
  finite. A handler is a function of the request and of all requests before it.
- **Lease tracker** (`LeaseModel`, `LeaseTrackers`), **kernel policy table and masks** (`PolicyModel`,
  `PolicyTables`, `CapabilityMasks`, `CapabilityNames`), **JSON escaping** (`JsonEscape`) and
  **shell quoting** (`ShellQuote`).

Each method that holds a lock in the source is one atomic step here. `dafny verify dfyconfig.toml`
checks everything.

## What the proofs show about code and documentation

- The bus header promises at most 100 messages per second. The code counts per fixed window. The most
  that can pass in any L milliseconds, once the clock is past its first second, is
  100 * ceil(L / 1000) if L leaves the remainder 1 modulo 1000, else 99 + 100 * ceil(L / 1000):
  `RateLimiter.AtMostPeak` is the bound and `RateLimiter.PeakAttained` a run that reaches it, for each L that leaves the 64-bit clock four seconds of room.
  As a sliding limit, 100 is kept for intervals of one millisecond and no longer
  (`RateLimiter.HundredPerInstantOnly`).
- The tree uses the empty string for "no parent" but does not refuse it as an id. A node with that id
  does no harm as a leaf. A delegation from it is the one that breaks the links:
  `CapabilityForest.DelegatedKeepsForest` is an equivalence, and
  `CapabilityForest.EmptyParentLeavesDanglingChild` shows what goes wrong after it.
- A token's payload joins its fields by colons without escaping them, and `verify` does not look for
  colons. The promise that a tag fits one token only is kept exactly when the module id and the
  capability it was issued for hold no colon (`TokenPayload.TwinIffColon`,
  `CapabilityTokens.TagBindsToken`, `CapabilityTokens.TagBindsIffNoColon`), which the issuer can check
  beforehand. `CapabilityTokens.ColonCapabilityChangesExpiry` shows a capability name for which the
  tag also fits a token with another capability and expiry.
- A policy set for a uid that already has one is stored and never read: the first entry wins.

## Model

| member | source | states |
|---|---|---|
| `CapabilityForest.Ancestors` | daemon/src/security/capability_tree.cpp:51-57 | In a forest the ancestor chain of a node is as long as its stored depth and holds exactly the other nodes it descends from. |
| `CapabilityForest.ListedExactlyOnce` | daemon/src/security/capability_tree.cpp:57-59 | A node other than the root occurs once in its parent's child list and in no other list; the root in none. |
| `CapabilityForest.EverythingBelowRoot` | daemon/src/security/capability_tree.cpp:13-20 | Every node of a forest descends from `daemon`; without it the tree is empty. |
| `CapabilityForest.HeldByAncestors` | daemon/include/astra/security/capability_tree.hpp:17-20 | Whatever a node holds, each of its ancestors holds. |
| `CapabilityForest.SubtreeUnfolds` | daemon/src/security/capability_tree.cpp:140-145 | The descendants by parent links are what the walk over child lists reaches. |
| `CapabilityForest.CoverExtends` | daemon/src/security/capability_tree.cpp:142-144 | Siblings have disjoint subtrees, so the walk visits no node twice. |
| `CapabilityForest.DelegatedKeepsForest` | daemon/src/security/capability_tree.cpp:26-65 | Delegation yields a forest if and only if it is refused or does not come from a node with the empty id. |
| `CapabilityForest.DelegatedKeepsRule` | daemon/src/security/capability_tree.cpp:42-49 | Delegation keeps every child within its parent's capabilities. |
| `CapabilityForest.EmptyParentLeavesDanglingChild` | daemon/src/security/capability_tree.cpp:158-169 | A node delegated from a node with the empty id is erased without leaving its parent's list. |
| `CapabilityForest.StripSubtreeKeepsRule` | daemon/src/security/capability_tree.cpp:130-146 | Taking a capability from a whole subtree keeps forest and subset rule. |
| `CapabilityForest.PruneKeepsForest` | daemon/src/security/capability_tree.cpp:148-170 | Deleting a set closed under descent keeps forest and subset rule. |
| `CapabilityForest.DetachIsPrune` | daemon/src/security/capability_tree.cpp:155-169 | Editing only the parent's list leaves no list naming the deleted node. |
| `CapabilityForest.PruneSubtreeLists` | daemon/src/security/capability_tree.cpp:158-167 | After removal the parent's list lacks just the node, in unchanged order, other surviving lists are unchanged, and no list names a removed node. |
| `CapabilityTrees.CapabilityTree.InitRoot` | daemon/src/security/capability_tree.cpp:8-24 | Leaves just `daemon`, parentless, at depth 0, with exactly the given capabilities and no children. |
| `CapabilityTrees.CapabilityTree.Delegate` | daemon/src/security/capability_tree.cpp:26-65 | Accepts exactly when the parent exists, the child does not and the capabilities are the parent's; then the child holds just those, one level below, last in its parent's list, and all else is as before. States exactly when the tree is still a forest. |
| `CapabilityTrees.CapabilityTree.HoldsAll` | daemon/src/security/capability_tree.cpp:43-49 | The scan succeeds exactly on subsets. |
| `CapabilityTrees.CapabilityTree.Revoke` | daemon/src/security/capability_tree.cpp:67-77 | Each node below the given one loses the capability and keeps the rest, every other node is unchanged, and the count is the number of those that held it. |
| `CapabilityTrees.CapabilityTree.RevokeRecursive` | daemon/src/security/capability_tree.cpp:130-146 | The same for the recursive walk, which ends because subtrees shrink. |
| `CapabilityTrees.CapabilityTree.EraseCapability` | daemon/src/security/capability_tree.cpp:136-138 | Erasing reports whether the node held the capability. |
| `CapabilityTrees.CapabilityTree.RemoveSubtree` | daemon/src/security/capability_tree.cpp:95-99 | Exactly the node and all below it leave both maps and every list; the others are unchanged. |
| `CapabilityTrees.CapabilityTree.RemoveRecursive` | daemon/src/security/capability_tree.cpp:148-170 | The same for the walk that edits the lists it runs over, which ends. |
| `CapabilityTrees.CapabilityTree.ValidateInvariant` | daemon/src/security/capability_tree.cpp:107-123 | On any two maps, true if and only if every parent exists and holds what its children hold. |
| `CapabilityTrees.CapabilityTree.HasCapability` | daemon/src/security/capability_tree.cpp:79-85 | True exactly for holders; in a good tree a positive answer holds of all ancestors too. |
| `CapabilityTrees.CapabilityTree.DepthOf` | daemon/src/security/capability_tree.cpp:101-105 | The stored depth, in a forest the number of ancestors, or -1 for an absent node. |
| `CapabilityRuns.Run` | daemon/src/security/capability_tree.cpp:8-99 | Every tree reached by any run of the four operations without an accepted delegation from an empty id is a forest that obeys the subset rule, so the validation succeeds. |
| `CapabilityRuns.NeverFromEmptyIsAnchored` | daemon/src/security/capability_tree.cpp:26-40 | A run qualifies if none of its delegations names the empty parent; empty child ids and refused delegations are covered. |
| `CapabilityRuns.DelegationGrantsExactly` | daemon/src/security/capability_tree.cpp:51-57 | After an accepted delegation the child holds exactly what was asked for, and every other node is as before. |
| `CapabilityRuns.StepTakesExactly` | daemon/src/security/capability_tree.cpp:26-99 | A step takes from a node that stays exactly the capability it revokes from the node or above it, and does not move it. |
| `CapabilityRuns.StepKeepsAncestors` | daemon/src/security/capability_tree.cpp:26-99 | While a node is there its ancestors stay the same. |
| `CapabilityRuns.ExactAuthority` | daemon/src/security/capability_tree.cpp:26-99 | Over any run without initialisation a node that stays present holds what it held less exactly what was revoked from it or from an ancestor; so it never gains a capability. |
| `CapabilityRuns.RootAuthority` | daemon/src/security/capability_tree.cpp:8-77 | After any run the root, if it stayed, holds a capability exactly if it was initialised with it and it was not revoked from the root. |
| `CapabilityRuns.RevocationIsPermanent` | daemon/include/astra/security/capability_tree.hpp:17-20 | After a revocation nobody below the node holds the capability again for as long as the node stays, whatever is delegated. |
| `CapabilityRuns.RootRevocationIsFinal` | daemon/src/security/capability_tree.cpp:67-77 | A capability revoked from the root is held by nobody in any later tree until initialisation. |
| `CapabilityRuns.AuthorityComesFromRoot` | daemon/src/security/capability_tree.cpp:8-65 | No run lets a node hold what the root was not given. |
| `CapabilityRuns.RemoveUndoesDelegate` | daemon/src/security/capability_tree.cpp:57-59 | Removing a child just delegated restores the tree, sibling order included. |
| `RateLimiter.AdmittedFromNow` | daemon/src/ipc/module_bus.cpp:109-120 | From a running window: its rest plus one full window for each that can still open. |
| `RateLimiter.AdmittedInInterval` | daemon/src/ipc/module_bus.cpp:109-120 | The bound for any half-open interval from any limiter state. |
| `RateLimiter.WindowBound` | daemon/src/ipc/module_bus.cpp:112-119 | At most 100 messages pass in one window. |
| `RateLimiter.RateBound` | daemon/src/ipc/module_bus.cpp:109-120 | At most 100 * (1 + ceil(L / 1000)) pass in any interval of L ms under a clock that does not go back. |
| `RateLimiter.RefusalLeavesNoTrace` | daemon/src/ipc/module_bus.cpp:117-117 | Deleting a refused reading from a run changes no other answer. |
| `RateLimiter.PassesAfterOneSecond` | daemon/src/ipc/module_bus.cpp:112-116 | A reading a second or more after the last one that passed passes, whatever was refused in between. |
| `RateLimiter.AtMostPeak` | daemon/src/ipc/module_bus.cpp:109-120 | Once the clock is past its first second, at most 100 * ceil(L / 1000) pass in any interval of L ms with L mod 1000 = 1, and at most 99 + 100 * ceil(L / 1000) in any other. |
| `RateLimiter.PeakAttained` | daemon/src/ipc/module_bus.cpp:109-120 | For each L up to four seconds below the 64-bit clock range some run passes exactly that many, so the bound is the maximum. |
| `RateLimiter.HundredPerInstantOnly` | daemon/include/astra/ipc/module_bus.hpp:19 | 100 per interval of a given length holds of all runs if and only if the length is at most one millisecond. |
| `ModuleBuses.ModuleBus.Send` | daemon/src/ipc/module_bus.cpp:14-70 | Accepted exactly if the payload is at most 65536 bytes, the sender has its token, the limiter passes it, and the topic has subscribers or the recipient has token and subscription; states the whole new state in each outcome. |
| `ModuleBuses.ModuleBus.Dispatch` | daemon/src/ipc/module_bus.cpp:45-69 | Succeeds exactly for a topic with subscribers or a recipient with token and subscription; states queues and counters either way. |
| `ModuleBuses.ModuleBus.Broadcast` | daemon/src/ipc/module_bus.cpp:51-55 | Pushes to the subscribers in order, passing over the sender, and counts each push. |
| `ModuleBuses.ModuleBus.CheckRateLimit` | daemon/src/ipc/module_bus.cpp:109-120 | Passes and updates the sender's window as the limiter does, unsigned subtraction included; a refusal writes nothing. |
| `ModuleBuses.ModuleBus.Poll` | daemon/src/ipc/module_bus.cpp:72-84 | Hands out as many messages as wait, at most the maximum, oldest first; what is left follows in order, other queues are untouched. |
| `ModuleBuses.ModuleBus.Subscribe` | daemon/src/ipc/module_bus.cpp:86-93 | Appends the module to the topic unless it is there; other topics are untouched. |
| `ModuleBuses.ModuleBus.Unsubscribe` | daemon/src/ipc/module_bus.cpp:95-102 | Afterwards the topic has exactly its other subscribers; other topics are untouched. |
| `BusRuns.QueueAfterSend` | daemon/src/ipc/module_bus.cpp:40-67 | A send adds the message, with its own sender, recipient, topic and payload, the stamping time and the sender's next number, once to the queue of each module it is meant for and to no other. |
| `BusRuns.SubscriptionsStayUnique` | daemon/src/ipc/module_bus.cpp:86-102 | No operation makes a module appear twice in a topic. |
| `BusRuns.RunKeepsSound` | daemon/src/ipc/module_bus.cpp:14-102 | Every run keeps queued payloads at most 64 KiB, numbers growing per sender along each queue and covered by the counters, and subscriptions unique. |
| `BusRuns.ReachableIsSound` | daemon/src/ipc/module_bus.cpp:14-102 | So it is in every state reachable from the idle bus. |
| `BusRuns.FifoDelivery` | daemon/src/ipc/module_bus.cpp:40-84 | All poll results in order, followed by the queue, are the old queue followed by the deliveries. |
| `BusRuns.DeliveriesInOrder` | daemon/src/ipc/module_bus.cpp:40-43 | Along a module's deliveries each sender's sequence numbers strictly increase from its counter. |
| `BusRuns.ExactlyOnceInOrder` | daemon/src/ipc/module_bus.cpp:40-102 | From an idle bus polls and queue are exactly the messages sent to the module with all tokens and subscriptions in place, as they were sent, each sender's in order and none twice. |
| `BusRuns.Conservation` | daemon/src/ipc/module_bus.cpp:14-84 | In every reachable state sent is the number of sends, rate limited that of the limiter's refusals, rejected that of the other failures, and delivered = polled + waiting over all queues. |
| `BusRuns.RefusedSendOnlyCounts` | daemon/src/ipc/module_bus.cpp:19-38 | A send refused for size, token or rate moves two counters and nothing else. |
| `BusRuns.SequenceCountsPasses` | daemon/src/ipc/module_bus.cpp:34-42 | A sender's counter is the number of its sends that passed the limiter. |
| `BusRuns.LimiterIsPerSender` | daemon/src/ipc/module_bus.cpp:111-119 | Other senders and other operations do not affect a sender's limit. |
| `BusRuns.BusRateBound` | daemon/src/ipc/module_bus.cpp:34-38 | The rate bound for each module over every run of the bus. |
| `BusRuns.BusAtMostPeak` | daemon/src/ipc/module_bus.cpp:34-38 | The exact maximum bounds each module over every run once the clock is past its first second. |
| `BusRuns.SenderPassesAfterOneSecond` | daemon/src/ipc/module_bus.cpp:109-120 | A second after a sender's last message passed the limiter its next one passes, however many were refused and whatever else happened. |
| `Base64Url.Encode` | rust/src/capability_token.rs:188-206 | Output length 4 * (n / 3) plus 0, 2 or 3. |
| `Base64Url.Base64UrlEncode` | rust/src/capability_token.rs:188-206 | The chunk loop computes the encoding. |
| `Base64Url.DecodeEncode` | rust/src/capability_token.rs:187-206 | A strict decoder by section 5 of RFC 4648 gives every byte string back. |
| `Base64Url.EncodeDecode` | rust/src/capability_token.rs:187-206 | Every text the decoder accepts is the encoding of its value. |
| `Base64Url.EncodeInjective` | rust/src/capability_token.rs:188-206 | Encodings are equal exactly for equal byte strings. |
| `Base64Url.EncodeStaysInAlphabet` | rust/src/capability_token.rs:189-189 | Every output character is one of the 64. |
| `TokenPayload.SamePayload` | rust/src/capability_token.rs:161-165 | Payloads agree if and only if times and nonce do and module and capability join to one text. |
| `TokenPayload.PayloadDeterminesToken` | rust/src/capability_token.rs:161-165 | Without colons in module ids and nonces the payload determines all five fields, whatever the capability holds. |
| `TokenPayload.PlainPayloadIsUnique` | rust/src/capability_token.rs:161-165 | A token without colons shares its payload with no other token, whatever that one holds. |
| `TokenPayload.TwinIffColon` | rust/src/capability_token.rs:161-165 | A token with a colon-free nonce, as every issued one has, shares its payload with some other token if and only if its module id or capability holds a colon. |
| `TokenPayload.DecimalReadsBack` | rust/src/capability_token.rs:162-165 | A reader of decimal text gives every printed number back, and there are no leading zeros. |
| `TokenPayload.PayloadFields` | rust/src/capability_token.rs:162-165 | Split at its colons, the payload of a token without colons is module id, capability, issue time, expiry and nonce. |
| `CapabilityTokens.TokenAuthority.Issue` | rust/src/capability_token.rs:96-132 | The token's module, capability and issue time are the given ones, its expiry saturates, its nonce reads back as the first eight hash bytes at the old counter, its tag decodes to the keyed hash of its payload; the counter advances with wrap-around. |
| `CapabilityTokens.TokenAuthority.Verify` | rust/src/capability_token.rs:140-158 | True if and only if the module matches, the expiry is not past and the tag decodes to the keyed hash of the payload. |
| `CapabilityTokens.ConstantTimeEq` | rust/src/capability_token.rs:176-185 | The OR of XORs is zero exactly on equal byte strings. |
| `CapabilityTokens.HexHasNoColon` | rust/src/capability_token.rs:209-211 | Issued nonces are colon-free, two characters per byte. |
| `CapabilityTokens.HexReadsBack` | rust/src/capability_token.rs:209-211 | A reader of lower-case hexadecimal text gives the bytes back. |
| `CapabilityTokens.NoncesFollowCounter` | rust/src/capability_token.rs:107-119 | Tokens issued alike at two counts share a nonce exactly when the first eight hash bytes agree. |
| `CapabilityTokens.IssueVerifyExact` | rust/src/capability_token.rs:96-158 | An issued token is accepted exactly for its module and until issue time plus duration, saturated at the largest 64-bit number. |
| `CapabilityTokens.TagFixesPayload` | rust/src/capability_token.rs:155-171 | Properly tagged tokens with one tag have one payload unless the keyed hash collides on the two. |
| `CapabilityTokens.TagBindsToken` | rust/src/capability_token.rs:19-23 | If module id and capability were issued without colons, any accepted token with the issued tag is the issued token, unless the keyed hash collides on the two payloads. |
| `CapabilityTokens.TagBindsIffNoColon` | rust/src/capability_token.rs:19-23 | With a keyed hash free of collisions, some other token is accepted with an issued tag if and only if the issued module id or capability holds a colon. |
| `CapabilityTokens.ColonCapabilityChangesExpiry` | rust/src/capability_token.rs:140-165 | A capability ending in two numbers lets its tag pass for the shorter name, valid exactly until the second number. |
| `Frames.PayloadsOfStream` | daemon/src/ipc/socket_server.cpp:242-257 | Framed payloads of allowed length are read back in order, whatever follows. |
| `Frames.CutStream` | daemon/src/ipc/socket_server.cpp:242-257 | A stream cut after any number of bytes yields exactly the frames that end within them. |
| `Frames.NetLongDigits` | daemon/src/ipc/socket_server.cpp:273-273 | Lengths go out with the most significant byte first. |
| `Frames.BadLengthEnds` | daemon/src/ipc/socket_server.cpp:249-252 | A length of zero or above 8 MiB ends the session without a request or a byte. |
| `Frames.EmptyAnswerEnds` | daemon/src/ipc/socket_server.cpp:267-271 | An empty answer is written as four zero bytes and ends the session. |
| `Frames.SessionServesAll` | daemon/src/ipc/socket_server.cpp:242-280 | If no answer is empty, every complete frame is served and every answer framed. |
| `Frames.SessionServesPrefix` | daemon/src/ipc/socket_server.cpp:242-280 | However a session ends, it served complete frames only, from the first on. |
| `Frames.AnswersEcho` | daemon/src/main.cpp:185-191 | Each answer of the daemon's handler to a non-empty request is the request's type byte followed by the JSON text for it. |
| `Frames.DaemonAnswersEveryFrame` | daemon/src/main.cpp:456-460 | With that handler every complete frame of every stream is answered and the zero-length ending never happens. |
| `Frames.DaemonServesCutStream` | daemon/src/ipc/socket_server.cpp:242-280 | Requests cut off anywhere: exactly the complete ones are served and answered. |
| `Frames.AnswerReadableIff` | daemon/src/ipc/socket_server.cpp:267-275 | A framed answer reads back if and only if it is not empty and shorter than 4 GiB, as its length is cut to 32 bits. |
| `Frames.RequestsGetTheirAnswers` | daemon/src/ipc/socket_server.cpp:242-280 | A client that frames its requests decodes exactly the answers to them, while answers stay below 4 GiB. |
| `SocketServers.ReadExact` | daemon/src/ipc/socket_server.cpp:86-111 | Fills the buffer with the next bytes under any fragmentation and interruption; on a clean connection fails only at the end of the stream. |
| `SocketServers.WriteExact` | daemon/src/ipc/socket_server.cpp:133-145 | Writes all bytes in order under any fragmentation, or a prefix and fails. |
| `SocketServers.ReadFrame` | daemon/src/ipc/socket_server.cpp:244-257 | Returns the stream's first payload exactly when it is complete and of allowed length. |
| `SocketServers.WriteResponse` | daemon/src/ipc/socket_server.cpp:267-278 | The framed response, or a zero length for the empty one. |
| `SocketServers.ServeOne` | daemon/src/ipc/socket_server.cpp:244-278 | One round advances the session by one request and its response. |
| `SocketServers.HandleClient` | daemon/src/ipc/socket_server.cpp:242-280 | For every schedule the handler sees a prefix of the stream's requests and the client gets the framed responses to just those, all but the last in full; without error, timeout or stop all requests are served and all responses complete. |
| `LeaseModel.SimulationSurvives` | daemon/src/security/lease_tracker.cpp:14-76 | Each operation, and each sweep on one side only, keeps swept and unswept states alike but for marks on expired leases. |
| `LeaseModel.SimulationAnswersAlike` | daemon/src/security/lease_tracker.cpp:31-57 | Such states give the same answers from then on. |
| `LeaseModel.SweepsUnobservable` | daemon/src/security/lease_tracker.cpp:59-76 | Runs that differ only in their sweeps get the same answers to all queries under clocks that do not go back. |
| `LeaseModel.SweepShowsIff` | daemon/src/security/lease_tracker.cpp:59-76 | With a clock that may go back, a sweep changes the count if and only if it marked a lease still live at the later reading. |
| `LeaseModel.AnswerAfterUpsert` | daemon/src/security/lease_tracker.cpp:14-24 | After an upsert a query is answered by the new lease's own fields or by another lease. |
| `LeaseModel.AnswerAfterRemove` | daemon/src/security/lease_tracker.cpp:26-29 | After a removal only the other leases answer. |
| `LeaseTrackers.LeaseTracker.HasActiveLease` | daemon/src/security/lease_tracker.cpp:31-44 | True exactly if some lease has the module and the capability, is not revoked, and never expires or expires later. |
| `LeaseTrackers.LeaseTracker.ActiveCount` | daemon/src/security/lease_tracker.cpp:46-57 | The number of leases not revoked that never expire or expire later. |
| `LeaseTrackers.LeaseTracker.SweepLeases` | daemon/src/security/lease_tracker.cpp:59-76 | Marks exactly the expired unrevoked leases, never one without expiry. |
| `PolicyModel.FirstEntryWins` | kernel/astra_root.c:90-101 | The rules hold exactly the uids in the table, each with its first entry. |
| `PolicyModel.RulesArePermanent` | kernel/astra_root.c:208-219 | No run of SET_POLICY changes or drops the rule of a uid that has one. |
| `PolicyModel.AnswersArePermanent` | kernel/astra_root.c:75-105 | Once a uid has an entry no later run changes any of its answers. |
| `PolicyModel.UnlistedIsRefused` | kernel/astra_root.c:85-104 | With enforcement a uid that no root call got into the table is refused whatever it asks. |
| `PolicyModel.FullStaysFull` | kernel/astra_root.c:209-217 | A full table of 128 refuses further entries with -ENOSPC and stays as it is. |
| `PolicyTables.PolicyTable.Check` | kernel/astra_root.c:75-105 | Grants exactly if enforcement is off, or the uid's first entry in the array has the full-root flag for a full-root request and every requested bit for any other. |
| `PolicyTables.PolicyTable.SetEntry` | kernel/astra_root.c:198-220 | -EPERM, -EFAULT, 0 or -ENOSPC by caller, copy and room; on success the entry is last and the others are as before, else nothing changes. |
| `PolicyModel.CoversBitwise` | kernel/astra_root.c:95-97 | The masked comparison holds exactly if every requested bit is allowed. |
| `CapabilityMasks.CapsToLinux` | daemon/src/policy_to_kernel.cpp:126-132 | A bit is in the result exactly if some name in the list is known to stand for it. |
| `CapabilityMasks.MergedCovered` | daemon/src/policy_to_kernel.cpp:126-132 | A mask covers the merged mask if and only if it covers each part. |
| `CapabilityMasks.MergedDependsOnSet` | daemon/src/policy_to_kernel.cpp:126-132 | Order and repetition of names do not matter. |
| `CapabilityMasks.MergedRequestIsCompositional` | kernel/astra_root.c:95-97 | The kernel grants a merged request if and only if it would grant every name alone. |
| `JsonEscape.Escape` | daemon/src/main.cpp:55-76 | The output followed by a quote reads as the input, by the string grammar of section 7 of RFC 8259. |
| `JsonEscape.EscapeRoundTrip` | daemon/src/main.cpp:55-76 | The literal reads back as the text and closes at the quote put behind it, whatever follows. |
| `JsonEscape.NoRawControls` | daemon/src/main.cpp:66-70 | No byte below 0x20 is left in the output. |
| `JsonEscape.PlainTextUnchanged` | daemon/src/main.cpp:71-73 | Text without quotes, backslashes and control bytes stays as it is. |
| `ShellQuote.RequotedAddsCommand` | app/src/main/java/com/astraveil/app/adb/AdbManager.kt:53-53 | Between quotes, the requoted command stands for the command. |
| `ShellQuote.CommandIsOneWord` | app/src/main/java/com/astraveil/app/adb/AdbManager.kt:51-57 | With root the shell splits the line into `su`, `2000`, `sh`, `-c` and the command as one word, by sections 2.2.1 and 2.2.2 of the POSIX Shell Command Language. |
| `ShellQuote.CommandUnchangedWithoutRoot` | app/src/main/java/com/astraveil/app/adb/AdbManager.kt:54-56 | Without root the command is passed on unchanged. |

## Left out

- SHA-256, HMAC, Ed25519 and random secrets: the hashes are parameters, and the byte layout of the nonce's hash input is not modelled.
- The proof protocol of `rust/src/zk_capability.rs`, whose content rests on hash behaviour.
- JSON parsing and printing by libraries, the foreign-function layer of the token library, and the bodies of the request types in the daemon's handler, which are one function parameter here.
- Accepting connections, peer credentials and socket set-up: system calls around the session.
- Credential commits in the kernel module, and the mask `cap_permitted`, which the policy check does not look at.
- Wrap-around of the bus counters, of sequence numbers and of the 32-bit depth.
- Trees after an accepted delegation from a node with the empty id: beyond the lemma that shows how removal goes wrong there, revocation and removal are stated for forests.
- Interruptions that never end: the number of interrupted calls and empty writes is arbitrary but finite.
- The execute gate, risk scores, permission database, module management, providers, spoofing modules and user interface: small decisions, or plumbing around files and devices.
- `capabilitiesOf`, `size` and `stats`: reads of a field.
