# Verified model of Robonomics

A Dafny model of five parts of the Robonomics repository, with proofs about whole runs
rather than single calls:

- **Liability pallet** (`Scale`, `Currency`, `Liability`, `LiabilityRuns`, `LiabilityMoney`,
  `LiabilityLifecycle`).
  Agreements between a promisee and a promisor, stored as SCALE bytes, with open-market
  economics: creating a liability reserves its price, finalizing it pays the promisor. The
  pallet object is `Liability.Module`; `Dispatch` is its meaning on values, and every theorem
  is about runs of `Dispatch` from an empty storage over an arbitrary sound ledger.
- **PubSub worker** (`Gossipsub`, `GossipsubRuns`). The request queue, the inbox table and
  message dispatch. A run is any interleaving of sends, swarm events and handled requests;
  results are stated over the trace of what the worker did.
- **Discovery** (`Discovery`, `DiscoveryStack`). The bincode message, the two tasks of a node,
  a network that reorders, repeats and loses messages, and the same safety result, with its
  completeness, on a network whose nodes run the worker above.
- **Vanity search** (`Vanity`). Seed counter, score and search loop of subkey.
- **Runtime arithmetic and datalog** (`Votes`, `Fees`, `Datalog`).

`Arithmetic`, `LittleEndian`, `Wrappers` and `FrameSystem` hold what several of these share.

## What is assumed

- Signatures are a parameter `verify` of the runtime, and a key pair is genuine if its own
  signatures verify. The only other things from outside are the SHA-256 form of a topic, the
  base58 form of a peer id, the random source and address of a seed (ASCII, at most 48
  characters), which characters beyond ASCII are alphanumeric, what the swarm answers, and
  the clock; all are parameters.
- Unsigned arithmetic wraps, as in a release build.
- The ledger follows Substrate's balances pallet: `reserve`, `unreserve` and
  `repatriate_reserved` with their 128-bit limits, a dead beneficiary rejected, and an account
  whose total falls below the existential deposit removed together with what it has left
  (counted as `dust`). `unreserve` returns the amount that could not be unreserved.
- The liability index is a `u64` that wraps. Run theorems take fewer than 2^64 transactions;
  `WrapLosesIndex` shows what happens at the end.

## Where the code and its promises differ

- `traits.rs` promises that finishing a liability transfers the locked funds. With an
  existential deposit above one unit (the runtime's is 1 COASE) this can fail: in the run of
  `EscrowCanFail` a finalized liability pays nothing, because an earlier payment removed the
  promisee's account and its remaining escrow. `DepositExactly` shows that one unit is the
  limit. For any deposit, `RunSolvent` and `RunBalanced` say exactly which runs keep every
  escrow covered and every book exact, by guards that can be checked before each call, and
  `RunPaysInFull` that payments are then complete.
- `subscribe` files an inbox under the plain topic and `unsubscribe` removes the SHA-256 form.
  `CleanExactly` shows that table and subscriptions agree on all runs only if the two keys
  are equal, and `InboxLost` that a subscriber can lose its inbox; `DeliveryExact`,
  `TableExact` and `RunCovered` say what holds on every run.
- The cast in the vote conversion loses bits for some issuances: `LosslessExactly` and
  `MonotoneExactly` give the exact condition.
- The vanity search admits letters beyond ASCII and then slices by byte: `PanicsExactly`.

## Model

| member | source | states |
|---|---|---|
| `Scale.CompactRoundTrip` | robonomics/frame/liability/src/signed.rs:37-52 | a vector length read back from its compact form, with anything after it, is the same length |
| `Scale.CompactCanonical` | robonomics/frame/liability/src/signed.rs:37-52 | only the shortest compact form of a length is accepted |
| `Scale.CompactLayout` | robonomics/frame/liability/src/signed.rs:37-52 | for each of the four ranges of a length, how many bytes its compact form has, its two tag bits and the number whose base-256 digits they are |
| `Scale.BlobExact` | robonomics/frame/liability/src/technics.rs:25-32 | a byte vector decodes to `b` with a suffix left over if and only if the input is the encoding of `b` and that suffix |
| `Scale.LiabilityExact` | robonomics/frame/liability/src/signed.rs:37-52 | bytes decode to a liability and a suffix if and only if they are its encoding followed by the suffix |
| `Scale.EmptyIsNoLiability` | robonomics/frame/liability/src/lib.rs:188 | an absent storage entry does not decode |
| `Scale.EncodeInjective` | robonomics/frame/liability/src/lib.rs:159-161 | two liabilities with the same bytes are the same |
| `Scale.EncodeParamsInjective` | robonomics/frame/liability/src/signed.rs:122-125 | the signed parameter bytes determine technics and price |
| `Scale.EncodeReportInjective` | robonomics/frame/liability/src/signed.rs:127-129 | the signed report bytes determine index and report |
| `Scale.ReportLayout` | robonomics/frame/liability/src/signed.rs:127-129 | the signed report is the eight digits of the index, lowest first, and then the report; read with any suffix the index comes first and the report second |
| `Scale.ParamsLayout` | robonomics/frame/liability/src/signed.rs:122-125 | the signed parameters are the technics and then the sixteen digits of the price |
| `Scale.LiabilityLayout` | robonomics/frame/liability/src/signed.rs:37-52 | a stored liability is its signed parameters, the promisee and the promisor, at these offsets |
| `Scale.BlobLayout` | robonomics/frame/liability/src/technics.rs:25-32 | a byte vector is its compact length and its bytes |
| `Scale.Specimens` | robonomics/frame/liability/src/signed.rs:122-129 | three encodings byte by byte, one of each kind |
| `Currency.ReserveExact` | robonomics/frame/liability/src/signed.rs:77-79 | locking a price succeeds exactly when it is free, and moves just that amount from free to reserved |
| `Currency.RepatriateConserves` | robonomics/frame/liability/src/signed.rs:81-89 | paying out succeeds exactly for a living payee (or nothing to move); issuance plus dust is conserved; the dropped remainder is what the reserve lacked |
| `Currency.RepatriateExact` | robonomics/frame/liability/src/signed.rs:81-89 | exactly the price changes hands, or as much as is in reserve, also when both parties are one account; the remainder is what lacked, and only the payer can be removed |
| `Currency.RepatriateOthers` | robonomics/frame/liability/src/signed.rs:81-89 | whatever is paid out, no reserve but the payer's changes and no other account is removed |
| `Liability.Module.constructor` | robonomics/frame/liability/src/lib.rs:103-117 | storage starts empty |
| `Liability.Module.Create` | robonomics/frame/liability/src/lib.rs:125-172 | the step-by-step call has the dispatched state and outcome; on success one entry, one index, one event and the reservation, otherwise nothing |
| `Liability.Module.Finalize` | robonomics/frame/liability/src/lib.rs:176-209 | the step-by-step call has the dispatched state and outcome; on success the report, the flag, one event and the payment of the stored liability, otherwise nothing |
| `Liability.GateAgreesWithDispatch` | robonomics/frame/liability/src/lib.rs:216-271 | an unsigned call succeeds if and only if the pool accepts it and the ledger can carry it out; a failed call changes nothing |
| `Liability.GateExact` | robonomics/frame/liability/src/lib.rs:216-271 | which verdict the gate gives, from the signatures over which bytes by whom, and the bytes of its tag; a report on nothing stored is a bad call, not a bad proof |
| `Liability.TagsIdentifyCalls` | robonomics/frame/liability/src/lib.rs:241-263 | equal pool tags mean equal agreements among creations, and equal index and report among reports |
| `LiabilityRuns.StepCases` | robonomics/frame/liability/src/lib.rs:125-209 | a transaction does nothing, stores one doubly proved liability, or stores one proved report on an open liability |
| `LiabilityRuns.RunIndexed` | robonomics/frame/liability/src/lib.rs:103-117 | in every reachable state the liabilities fill the indices below the latest, every entry decodes whole, and an index is flagged if and only if it has a report |
| `LiabilityRuns.RunExtends` | robonomics/frame/liability/src/lib.rs:157-162 | stored liabilities and reports are never changed or removed later |
| `LiabilityRuns.FinalizeRefused` | robonomics/frame/liability/src/lib.rs:184-188 | an index never created is always refused, and one finalized once is refused for ever |
| `LiabilityRuns.WrapLosesIndex` | robonomics/frame/liability/src/lib.rs:162 | at the last 64-bit index the successor is zero and the index invariant is lost |
| `LiabilityRuns.JournalRebuildsStorage` | robonomics/frame/liability/src/lib.rs:157-205 | replaying the events rebuilds all four storage items after any run |
| `LiabilityRuns.EventsFaithful` | robonomics/frame/liability/src/lib.rs:164-205 | every event still describes what is stored, and no index is announced or reported twice |
| `LiabilityRuns.RunAuthentic` | robonomics/frame/liability/src/lib.rs:144-192 | every stored liability was proved by both parties in some transaction, every stored report by the promisor of its liability |
| `LiabilityMoney.CreateBooks` | robonomics/frame/liability/src/lib.rs:154-162 | a creation adds its price to the promisee's escrow and changes no other column of the books |
| `LiabilityMoney.FinalizeBooks` | robonomics/frame/liability/src/lib.rs:194-202 | a report moves its price out of escrow into what the promisee paid and the promisor earned |
| `LiabilityMoney.RunConserves` | robonomics/frame/liability/src/signed.rs:77-97 | over any run total issuance plus dust never changes and the ledger stays sound |
| `LiabilityMoney.FinalizePays` | robonomics/frame/liability/src/signed.rs:81-89 | a report succeeds exactly under its listed conditions; for a solvent promisee the ignored remainder is zero and exactly the price moves |
| `LiabilityMoney.StepSolvent` | robonomics/frame/liability/src/lib.rs:125-209 | from any reachable kind of state, a transaction leaves a solvent account solvent if and only if it does not remove it with anything else in escrow |
| `LiabilityMoney.RunSolvent` | robonomics/frame/liability/src/signed.rs:77-97 | with any deposit, an account covers its open liabilities at every moment of a run if and only if every transaction spares it |
| `LiabilityMoney.RunPaysInFull` | robonomics/frame/liability/src/signed.rs:83-89 | as long as its promisee was spared, every closed liability is paid in full: remainder zero, exactly the price moved |
| `LiabilityMoney.StepBalanced` | robonomics/frame/liability/src/lib.rs:125-209 | a transaction keeps all books exact if and only if it does not remove a promisee that had more than the price, which is if and only if it leaves no dust |
| `LiabilityMoney.RunBalanced` | robonomics/frame/liability/src/signed.rs:77-97 | with any deposit, at every moment each account's reserve grew by its open escrow and its total by earned less paid prices, if and only if every transaction keeps the books; if and only if no dust was left |
| `LiabilityLifecycle.EscrowCanFail` | robonomics/frame/liability/src/signed.rs:83-89 | with every deposit above one unit and any two genuine keys, a run after which a liability is finalized with its whole price missing |
| `LiabilityLifecycle.DepositExactly` | robonomics/frame/liability/src/signed.rs:77-97 | books are exact on all runs if and only if the deposit is at most one unit |
| `LiabilityLifecycle.CreateOutcome` | robonomics/frame/liability/src/lib.rs:134-155 | which error a creation returns, if any, in terms of origin, the two proofs and the free balance |
| `LiabilityLifecycle.FinalizeOutcome` | robonomics/frame/liability/src/lib.rs:182-208 | which error a report returns, if any, in terms of origin, stored report, index, proof and the payee's account |
| `LiabilityLifecycle.CreateAgain` | robonomics/frame/liability/src/lib.rs:216-248 | an accepted creation sent again is accepted by the gate again, and succeeds again if and only if twice the price was free |
| `LiabilityLifecycle.ProofNamesNoParty` | robonomics/frame/liability/src/signed.rs:122-125 | a promisee's proof is as good for any other promisor who proves the same technics and price |
| `LiabilityLifecycle.HonestLifecycle` | robonomics/frame/liability/src/signed.rs:159-182 | on any chain, proofs built by genuine keys pass the gate; creation succeeds exactly when the price can be locked and the report after it exactly when the promisor can be paid; every account's funds afterwards, one party being both included |
| `LiabilityLifecycle.DelayedLifecycle` | robonomics/frame/liability/src/signed.rs:159-182 | the same with any transactions in between that spare the promisee: the whole price is paid |
| `Gossipsub.PubSubWorker.constructor` | robonomics/protocol/src/pubsub/gossipsub.rs:97-103 | the worker starts with no subscriber |
| `Gossipsub.PubSubWorker.Enqueue` | robonomics/protocol/src/pubsub/gossipsub.rs:248-292 | a service call opens a fresh channel, queues its request last and touches nothing else of the queue |
| `Gossipsub.PubSubWorker.AddSubscription` | robonomics/protocol/src/pubsub/gossipsub.rs:127-142 | a first subscription joins the topic and files its inbox; a double one changes nothing |
| `Gossipsub.PubSubWorker.RemoveSubscription` | robonomics/protocol/src/pubsub/gossipsub.rs:144-155 | ending a subscription leaves the topic and removes the entry under its SHA-256 form |
| `Gossipsub.PubSubWorker.DispatchMessage` | robonomics/protocol/src/pubsub/gossipsub.rs:178-191 | the loop over a message's topics delivers as specified |
| `Gossipsub.DeliverExact` | robonomics/protocol/src/pubsub/gossipsub.rs:178-191 | every inbox keeps its mail and gets one copy for each listed topic that is filed under it |
| `Gossipsub.PubSubWorker.TakeNext` | robonomics/protocol/src/pubsub/gossipsub.rs:201-220 | handling one request takes the oldest, gives just the answer or publication it asks for, and is one step of a run |
| `Gossipsub.PubSubWorker.TakeEvents` | robonomics/protocol/src/pubsub/gossipsub.rs:169-197 | the first loop takes every ready event, each once and in order: the trace grows by exactly these; no request is touched |
| `Gossipsub.PubSubWorker.Turn` | robonomics/protocol/src/pubsub/gossipsub.rs:200-221 | one look at the queue handles the oldest request with the answer given, or finds none |
| `Gossipsub.PubSubWorker.DrainQueue` | robonomics/protocol/src/pubsub/gossipsub.rs:199-224 | the second loop handles the old queue and then what comes in, in order and each request once, and stops at the first look that finds nothing |
| `Gossipsub.PubSubWorker.Poll` | robonomics/protocol/src/pubsub/gossipsub.rs:168-225 | the trace grows by all ready events in order and then by every request of the old queue and all that other threads sent before the last look, in order, each once and with its answer; on return no request is ready |
| `GossipsubRuns.RequestsConserved` | robonomics/protocol/src/pubsub/gossipsub.rs:199-224 | at every point of every run, handled requests followed by queued ones are the requests sent, in order |
| `GossipsubRuns.RunDistinct` | robonomics/protocol/src/pubsub/gossipsub.rs:248-286 | no two handled requests share a channel |
| `GossipsubRuns.RunTables` | robonomics/protocol/src/pubsub/gossipsub.rs:127-155 | subscriptions and inbox table are what the trace of requests says, in every reachable state |
| `GossipsubRuns.SubscribedExactly` | robonomics/protocol/src/pubsub/gossipsub.rs:127-155 | a topic counts as subscribed if and only if some subscription to it was handled and no unsubscription since |
| `GossipsubRuns.DeliveryExact` | robonomics/protocol/src/pubsub/gossipsub.rs:168-197 | a successful subscription's inbox gets, in order, one copy per occurrence of its topic in each message until it is replaced or dropped; a double subscription gets nothing |
| `GossipsubRuns.EventsDelivered` | robonomics/protocol/src/pubsub/gossipsub.rs:168-197 | taking events adds to a current subscription's inbox exactly the stream of those events |
| `GossipsubRuns.StreamAppend` | robonomics/protocol/src/pubsub/gossipsub.rs:168-197 | a stream takes deeds in order and loses none |
| `GossipsubRuns.StreamOne` | robonomics/protocol/src/pubsub/gossipsub.rs:178-191 | of a received message a stream has as many copies as the message names the topic, and nothing of any other deed |
| `GossipsubRuns.AnsweredOnce` | robonomics/protocol/src/pubsub/gossipsub.rs:202-216 | each handled request that expects an answer has exactly one, the right one, ever after |
| `GossipsubRuns.OneReply` | robonomics/protocol/src/pubsub/gossipsub.rs:202-216 | there is one reply on the channel of such a request, it is the one due, and no other reply is on that channel |
| `GossipsubRuns.NotYetAnswered` | robonomics/protocol/src/pubsub/gossipsub.rs:199-224 | a request not yet handled has no answer |
| `GossipsubRuns.PublishedExactly` | robonomics/protocol/src/pubsub/gossipsub.rs:157-162 | the swarm is given exactly the handled publications, in order |
| `GossipsubRuns.TableExact` | robonomics/protocol/src/pubsub/gossipsub.rs:127-155 | in every run a topic has an inbox if and only if its latest successful subscription was not dropped since, and then that one's inbox |
| `GossipsubRuns.StepCovered` | robonomics/protocol/src/pubsub/gossipsub.rs:144-150 | an action costs some subscription its inbox if and only if it ends one whose SHA-256 form is another topic still subscribed |
| `GossipsubRuns.RunCovered` | robonomics/protocol/src/pubsub/gossipsub.rs:127-155 | every subscription has an inbox at every moment of a run if and only if that never happens |
| `GossipsubRuns.InboxLost` | robonomics/protocol/src/pubsub/gossipsub.rs:136-149 | for every topic that is not its own SHA-256 form, a run in which another subscriber loses its inbox |
| `GossipsubRuns.TableWithoutClash` | robonomics/protocol/src/pubsub/gossipsub.rs:127-155 | if no subscribed name is the SHA-256 form of an unsubscribed one, the table's keys are the topics ever subscribed, and equal the subscriptions if and only if all of those are subscribed now |
| `GossipsubRuns.CleanExactly` | robonomics/protocol/src/pubsub/gossipsub.rs:136-149 | table and subscriptions agree on every run if and only if each topic is its own SHA-256 form |
| `Discovery.MessageRoundTrip` | robonomics/protocol/src/pubsub/discovery.rs:33-39 | a discovery message read back from its bytes is the same |
| `Discovery.MessageExact` | robonomics/protocol/src/pubsub/discovery.rs:33-39 | bytes read as a message with a rest left over if and only if they are its encoding followed by that rest |
| `Discovery.MessageLayout` | robonomics/protocol/src/pubsub/discovery.rs:33-39 | where length, peer id, timestamp, count and listeners stand in the bytes, integers in eight bytes |
| `Discovery.DiscoveryNode.Broadcast` | robonomics/protocol/src/pubsub/discovery.rs:68-79 | one round publishes nothing without listeners, and otherwise one message of this peer with its id, the time and all its listeners |
| `Discovery.DiscoveryNode.Connect` | robonomics/protocol/src/pubsub/discovery.rs:86-107 | the loop dials exactly the listeners read from another's message, in order, and none for own or unreadable messages |
| `Discovery.BroadcastSends` | robonomics/protocol/src/pubsub/discovery.rs:65-79 | in every run a broadcast sends nothing if and only if its node listens nowhere; otherwise exactly one message, from it, that reads as its peer id, the time and its addresses |
| `Discovery.ListeningIs` | robonomics/protocol/src/pubsub/discovery.rs:69 | a node listens where it was last told, and before that nowhere |
| `Discovery.SentWasAnnounced` | robonomics/protocol/src/pubsub/discovery.rs:65-79 | every message in the network is some node's broadcast, and its other readers dial just the addresses broadcast |
| `Discovery.DialsAreAnnounced` | robonomics/protocol/src/pubsub/discovery.rs:45-107 | under any reordering, repetition or loss, every dialed address was broadcast earlier by a different node then listening on it |
| `Discovery.BroadcastIsDialed` | robonomics/protocol/src/pubsub/discovery.rs:92-98 | a received broadcast of another node is dialed in full and in order |
| `DiscoveryStack.MailIsOnTopic` | robonomics/protocol/src/pubsub/discovery.rs:49-53 | everything in the discovery inbox was received by the worker on the discovery topic |
| `DiscoveryStack.DialsAreLearned` | robonomics/protocol/src/pubsub/discovery.rs:45-107 | with queues, workers and inboxes in between: when a node dials an address, a different node's worker has already published it in a list its swarm had reported |
| `DiscoveryStack.DialIsSent` | robonomics/protocol/src/pubsub/discovery.rs:93-96 | every dialed address was sent to the worker as a connect request by the move that dialed it |
| `DiscoveryStack.SentBy` | robonomics/protocol/src/pubsub/discovery.rs:45-98 | every request a worker was sent comes from one move: starting, another user, telling, or a dial and then with the address dialed |
| `DiscoveryStack.DialedAreConnects` | robonomics/protocol/src/pubsub/discovery.rs:93-96 | where no other user connects, the dialed addresses are the connect requests sent, in order |
| `DiscoveryStack.ReadsAreDialed` | robonomics/protocol/src/pubsub/discovery.rs:86-98 | in every run what a node has dialed and is about to dial are exactly the addresses of the messages it has read, in the order of its inbox |
| `DiscoveryStack.BroadcastReaches` | robonomics/protocol/src/pubsub/discovery.rs:45-107 | after any run in which a peer reads its filed inbox and another knows where it listens, telling, publishing, hearing, reading and dialing add just the other's addresses, in order |
| `Vanity.NextSeed` | bin/subkey/src/vanity.rs:32-44 | the in-place increment is +1 modulo 256^n on the little-endian value |
| `Vanity.WalkAdds` | bin/subkey/src/vanity.rs:32-44 | k increments add k modulo 256^n |
| `Vanity.CandidatesDistinct` | bin/subkey/src/vanity.rs:93-98 | between two draws of the random source no seed is tried twice |
| `Vanity.CandidateStep` | bin/subkey/src/vanity.rs:93-98 | each candidate is a fresh draw at multiples of 100000 and otherwise the successor of the last |
| `Vanity.Base58Alphabet` | bin/subkey/src/vanity.rs:67-71 | the character check leaves exactly the 58 characters of the base58 alphabet |
| `Vanity.AcceptableExactly` | bin/subkey/src/vanity.rs:77-84 | which patterns pass: not empty, ASCII characters from that alphabet, others alphanumeric |
| `Vanity.CalculateScore` | bin/subkey/src/vanity.rs:56-65 | for all strings, the loop with early return computes the specified score or panics on slicing inside a character |
| `Vanity.PanicsExactly` | bin/subkey/src/vanity.rs:57-59 | against an ASCII address scoring panics if and only if the pattern is not ASCII |
| `Vanity.ScorePacks` | bin/subkey/src/vanity.rs:60-62 | for addresses of any length the score tells the best match if and only if that is within the first 48 places |
| `Vanity.ScoreExact` | bin/subkey/src/vanity.rs:56-65 | the score is zero if and only if no prefix occurs, and otherwise packs the longest matched prefix and its first place without loss |
| `Vanity.ScoreOrders` | bin/subkey/src/vanity.rs:56-65 | scores order addresses exactly by longest prefix, then by earliest place |
| `Vanity.TopExactly` | bin/subkey/src/vanity.rs:88 | the threshold is reached if and only if the whole pattern is at place 0, 1 or 2 |
| `Vanity.Best` | bin/subkey/src/vanity.rs:103-104 | the running best is an upper bound of the scores seen and is one of them |
| `Vanity.WaypointExactly` | bin/subkey/src/vanity.rs:23-30 | a count is due a progress line if and only if it is a multiple of 100000, past a million of a million, past ten million of ten million, past a hundred million of a hundred million |
| `Vanity.GenerateKey` | bin/subkey/src/vanity.rs:73-121 | bad patterns are rejected; a non-ASCII one that is admitted panics at once; otherwise the first candidate to reach the threshold is returned and has the pattern in its first three places, or the search still goes on; `best` is the maximum of the scores seen, for one character the last, at the end and in every progress line; lines come at exactly the listed counts, each once |
| `Votes.FactorExact` | bin/node/robonomics-runtime/src/impls.rs:36-51 | below twice 2^64-1 both conversions are the identity on 64-bit amounts; from 2^64-1 on they divide and multiply by the issuance over 2^64-1 |
| `Votes.LosslessExactly` | bin/node/robonomics-runtime/src/impls.rs:36-46 | the cast keeps every balance up to the issuance T if and only if T <= 2^64-1 or T mod (2^64-1) < T div (2^64-1); the quotient is at most 2(2^64-1)-1 |
| `Votes.VoteRoundTrip` | bin/node/robonomics-runtime/src/impls.rs:42-51 | a kept balance comes back smaller by less than one factor |
| `Votes.MonotoneExactly` | bin/node/robonomics-runtime/src/impls.rs:42-46 | votes follow the order of balances if and only if the same condition on the issuance holds |
| `Votes.IssuanceThatWraps` | bin/node/robonomics-runtime/src/impls.rs:36-46 | an issuance for which the cast loses bits |
| `Votes.VotesNeverInflate` | bin/node/robonomics-runtime/src/impls.rs:48-51 | stakes summing to at most the issuance convert, summed, back to no more, without 128-bit overflow |
| `Fees.DealWithFees.OnUnbalanceds` | bin/node/robonomics-runtime/src/lib.rs:116-127 | of a fee and a tip the treasury receives its part of each and treasury and author together exactly both; anything further is burned |
| `Fees.TreasuryShareExact` | bin/node/robonomics-runtime/src/lib.rs:118-123 | absent saturation the treasury gets 80% rounded down, less one exactly when the two roundings lose a unit |
| `Fees.PartSaturates` | bin/node/robonomics-runtime/src/lib.rs:118-123 | what the treasury gets of an amount whose eighty-fold exceeds 128 bits |
| `Fees.TreasuryShareBound` | bin/node/robonomics-runtime/src/lib.rs:118-123 | the treasury never gets more than 80% |
| `Datalog.Module.Record` | robonomics/frame/datalog/src/lib.rs:67-75 | a signed record is appended to its sender's log and announced; any other origin changes nothing |
| `Datalog.Module.Erase` | robonomics/frame/datalog/src/lib.rs:79-83 | a signed erasure removes its sender's log and is announced; any other origin changes nothing |
| `Datalog.StepExact` | robonomics/frame/datalog/src/lib.rs:61-84 | a signed record lengthens its sender's log by itself at the current time, a signed erasure empties it, both are announced, and no other log changes |
| `Datalog.LogMatchesJournal` | robonomics/frame/datalog/src/lib.rs:53-84 | in every run an account's log is its announced records since its last announced erasure, in order |
| `Datalog.LogsSorted` | robonomics/frame/datalog/src/lib.rs:66-75 | if the clock never goes back every log is in time order |

## Left out

- `on_finish(false)`: no caller reaches it; the code compares what `unreserve` could not release with the full price.
- Communism economics, which the deployed runtime uses: it moves no money and encodes no price, so it would only repeat the storage results.
- `AppProofSigner`: the same bytes signed through a runtime key that may be missing.
- Priority, longevity and propagation of accepted transactions: constants.
- Liquidity locks and other pallets' reservations between liability calls: runs contain liability transactions only.
- That the vanity search ends: it is watched for any number of candidates instead.
- Wakers, timers, heartbeat and dropped receivers of the worker; that a scheduler lets a broadcast through, beyond `BroadcastReaches`.
- Validity of a multiaddress and of UTF-8 inside discovery messages: a message that fails these checks is not produced by `discovery`.
- A block author's account that does not exist and receives less than the deposit.
- Launch pallet, command line, node service, RPC and ROS wiring, runtime constants: nothing unbounded to prove.
