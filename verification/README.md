# A model of yip in Dafny

yip is a mesh VPN in Rust. This project models six parts of it that keep state over time, and proves what their
documentation and structure promise over whole runs: for every input, every interleaving and every way bytes can be cut
into reads.

- **The signing quorum** of the certificate authority. `Roast` is the coordinator's state and steps,
  `RoastCoordinator` the object that updates its fields in place, `RoastRuns` what every run keeps, `RoastRobustness` the
  ROAST argument and `RoastBreaks` runs that show its hypotheses are needed. `Signer` is the nonce vault and the request
  handler, `SignerNonces` the nonces behind the slots, `NonceFlow` coordinator and signer joined by lossy connections, with restarts and other connections speaking
  in the signer's name. `Enrollment` is any number of clients on one shared coordinator, `EnrollmentRobustness` what
  ROAST gives them. `CertTbs` is the canonical encoding that is signed. FROST is section 5 of RFC 9591; identifiable
  abort is section 5.4.
- **Session epochs and rekeying.** `Epoch` and `EpochObject` (the object) for one side, `Rekey` for two sides and a
  network that loses, duplicates and reorders, `RekeyKnowledge` for what the initiator can tell of the other side.
- **The REALITY replay guard.** `Replay` is the sharded ring against the plain history of accepted seals, `RealityGate`
  the guard behind the skew gate.
- **The relay's byte streams.** `Framing` and `Relay` for framed tunnels and the hand-off after classification,
  `TlsRecord` and `RealityConn` for the first TLS record and the splice to the real upstream.
- **The ClientHello parser** (`ClientHello`), against the serialisation of section 4.1.2 of RFC 8446, and `HelloForms`,
  exactly which bytes it accepts.
- **Bounded accounting**: `Limiter`, `Tunnel` (the limiter and the frame reader together), `SentLog`, `Routes`, `Cidr`.

How it is put together. Where the source updates fields in place, a class holds the fields, a function gives its abstract
value, and each method is proved to take the step that a function on abstract values defines; the theorems are about that
function, folded over every finite run. Loops of the source are loops here. Cryptography, the clock, randomness and the
network enter as parameters: FROST verification and aggregation are arbitrary functions, arrival times and drawn nonces
are arguments, the chunks a socket yields are a sequence. Nothing here was executed.

These claims need a hypothesis the code does not enforce. For each, the second column names what breaks it, and the third
the lemma with the exact condition:

| claim | breaks | exactly when it holds |
|---|---|---|
| only faulty signers are banished | `BadShareInAnyNameBanishes`: the coordinator believes the name in a message (bin/yip-ca/src/serve.rs:111-118) | `OnlyFaultyAreBanishedIff` |
| ROAST's debts stay exclusive (nobody owes two sessions, whoever owes one is busy with it or banished) | `RepeatedAnswerBreaksRobustness` | `AcceptedShareKeepsExclusiveIff` for a step, `ExclusiveThroughoutIff` for a run |
| a requested nonce is there to be spent | `RestartStrandsOffers`, `ForeignOfferIsRequested`: offers are only appended, under any name (bin/yip-ca/src/serve.rs:88-98) | `RefusedIffUnissuedOrSpent`; `RefusedIffNotOfThisBoot` for a slot nobody else named |
| an enrolling client gets its certificate | `SilentParticipantHoldsUpItsClient` | `CertificateIffOwnSessionCompletes` |
| a seal is accepted once | `ClockStepAdmitsASealTwice` | `SecondAcceptIffRecycled` |
| a rekey leaves the initiator reachable | `UnconfirmedRoundBlackHoles` | `EarlyRoundCutsOffIff`; by what the initiator sees, `SafeToBeginIffHeard` |
| a framed envelope is read back | envelopes of 0 or more than 2048 bytes | `FramedIsReadBackIff` |

Where code and comments disagree the model follows the code. The ring of the replay guard has 21 buckets
(bin/yip-rendezvous/src/reality_replay.rs:38); comments at lines 93 and 143 still say 11. The comment above
`read_and_classify` (bin/yip-rendezvous/src/conn.rs:216-218) says a read error gives no decision; the code decides for the
decoy (line 248). A sent log of capacity 0 holds one entry (bin/yipd/src/dataplane.rs:72-80), so `LogIsSuffix` speaks of
`max(capacity, 1)`.

## Model

| member | source | states |
|---|---|---|
| `RoastCoordinator.Coordinator.constructor` | bin/yip-ca/src/roast_coordinator.rs:38-54 | a new coordinator is the fresh state every run starts from |
| `RoastCoordinator.Coordinator.RegisterCommitments` | bin/yip-ca/src/roast_coordinator.rs:57-70 | takes the register step: offers go to the back of the queue, a free signer becomes responsive, a banished one changes nothing |
| `RoastCoordinator.Coordinator.TakeEligible` | bin/yip-ca/src/roast_coordinator.rs:81-97 | the loop in identifier order yields exactly the smallest `threshold` eligible signers, and enough of them iff a session can be spawned |
| `RoastCoordinator.Coordinator.PopFronts` | bin/yip-ca/src/roast_coordinator.rs:106-118 | the loop takes every chosen signer out of the pool and hands out the front offer of each |
| `RoastCoordinator.Coordinator.TrySpawnSession` | bin/yip-ca/src/roast_coordinator.rs:74-133 | takes the spawn step, and returns session id, package and slots iff enough signers are eligible |
| `RoastCoordinator.Coordinator.ReceiveShare` | bin/yip-ca/src/roast_coordinator.rs:138-195 | takes the receive step on every path (unknown session, outsider, unknown identifier, invalid share, aggregation) |
| `Roast.Earliest` | bin/yip-ca/src/roast_coordinator.rs:81-93 | of any set, the chosen are `min(k, size)` many and all smaller than those left |
| `RoastRuns.EveryRunIsValid` | bin/yip-ca/src/roast_coordinator.rs:57-195 | over every run: responsive and busy, and banished and busy, are disjoint; every session has exactly `threshold` participants and only verified shares from them; busy signers take part in the session recorded |
| `RoastRuns.AggregatesIffComplete` | bin/yip-ca/src/roast_coordinator.rs:181-192 | aggregation is attempted iff the collected signers are exactly the participants |
| `RoastRuns.EveryShareIsAnswered` | bin/yip-ca/src/roast_coordinator.rs:145-194 | the answer to every share in any reachable state: nothing for strangers and while a participant is missing, each error to its own cause, and with all shares in, what aggregating exactly those over the session's package gives |
| `RoastRuns.RunsOnlyGrow` | bin/yip-ca/src/roast_coordinator.rs:81-130 | a session's participants and package never change, shares are never lost, and a banished signer is in no session spawned after its ban |
| `RoastRuns.OffersAreConserved` | bin/yip-ca/src/roast_coordinator.rs:65-69 | for every signer, everything it offered equals everything handed out, in order, followed by its queue |
| `RoastRobustness.SingleAnswersAreExclusive` | bin/yip-ca/src/roast_coordinator.rs:138-195 | if no signer answers a session twice, the signers owed to different sessions are disjoint over the whole run |
| `RoastRobustness.AcceptedShareKeepsExclusiveIff` | bin/yip-ca/src/roast_coordinator.rs:174-181 | an accepted share keeps the debts exclusive iff its signer is not busy with another session |
| `RoastRobustness.ExclusiveThroughoutIff` | bin/yip-ca/src/roast_coordinator.rs:138-195 | over whole runs: they stay exclusive at every prefix iff no accepted share came from a signer busy with another session |
| `RoastBreaks.RepeatedAnswerBreaksRobustness` | bin/yip-ca/src/roast_coordinator.rs:174-181 | threshold 2, distinct offers: a valid answer to session 1, repeated while busy with session 2, makes its signer owe sessions 2 and 3; the share need verify for session 1 only |
| `RoastRobustness.FaultySignersStallFewSessions` | bin/yip-ca/src/roast_coordinator.rs:138-195 | with f faulty signers, at most f sessions stay incomplete once all honest shares are in |
| `RoastRobustness.OnlyFaultyAreBanishedIff` | bin/yip-ca/src/roast_coordinator.rs:160-171 | only faulty signers are banished iff no share that fails to verify came, for a session it takes part in, in the name of any other signer |
| `RoastBreaks.BadShareInAnyNameBanishes` | bin/yip-ca/src/serve.rs:111-118 | one message naming a signer, with a share that does not verify, banishes that signer after any continuation of the run |
| `RoastRobustness.HonestSignersCanSpawn` | bin/yip-ca/src/roast_coordinator.rs:81-97 | if nobody but faulty signers was blamed and owes, `threshold` others holding queued offers suffice for the next session |
| `RoastRobustness.SomeSessionCompletes` | bin/yip-ca/src/roast_coordinator.rs:135-195 | one of the first f + 1 sessions completes |
| `RoastRobustness.CompleteMeansAggregated` | bin/yip-ca/src/roast_coordinator.rs:183-192 | a complete session was aggregated by some step of the run, over its own package |
| `RoastRobustness.SomeSessionIsSigned` | bin/yip-ca/src/roast_coordinator.rs:135-195 | so a step of the run returned a signature for some session among the first f + 1, over the package that session was opened with |
| `CertTbs.ToCanonicalBytes` | bin/yip-ca/src/rpc.rs:44-61 | appending field by field and tag by tag builds the canonical bytes |
| `CertTbs.AppendTags` | bin/yip-ca/src/rpc.rs:53-59 | the tag loop appends kind, length and value of every tag, in order |
| `Wire.BigEndianOrders` | bin/yip-ca/src/rpc.rs:50-53 | integers are written most significant byte first: byte strings are ordered as the numbers are |
| `CertTbs.DecodeInvertsCanonical` | bin/yip-ca/src/rpc.rs:44-61 | every encodable certificate is recovered from its canonical bytes |
| `CertTbs.CanonicalInvertsDecode` | bin/yip-ca/src/rpc.rs:44-61 | bytes that decode are the canonical bytes of what they decode to |
| `CertTbs.CanonicalIsInjective` | bin/yip-ca/src/rpc.rs:44-61 | equal canonical bytes, equal certificates |
| `CertTbs.PopMessageIsInjective` | bin/yip-ca/src/rpc.rs:190-193 | equal proof-of-possession messages, equal challenge and equal certificate |
| `Signer.SignerState.constructor` | bin/yip-ca/src/signer_daemon.rs:38-46 | a new vault holds no nonce and numbers slots from 1 |
| `Signer.SignerState.PreprocessBatch` | bin/yip-ca/src/signer_daemon.rs:54-76 | the loop issues consecutive new slots of this boot and publishes one offer for each |
| `Signer.IssueStores` | bin/yip-ca/src/signer_daemon.rs:61-74 | the k-th slot of a batch holds the nonces of the k-th draw, and the offer published for it carries that draw's commitment |
| `Signer.IssueKeeps` | bin/yip-ca/src/signer_daemon.rs:61-74 | what was active before a batch keeps its nonces |
| `Signer.SignerState.TakeOnce` | bin/yip-ca/src/signer_daemon.rs:80-85 | removes and returns the nonce iff the slot is of this boot and still active |
| `Signer.SignerState.HandleSignRequest` | bin/yip-ca/src/signer_daemon.rs:128-188 | takes the request step with its four refusals; a nonce is spent even if signing then fails |
| `Signer.NonceSignsAtMostOnce` | bin/yip-ca/src/signer_daemon.rs:78-85 | over any run of batches, arbitrary requests and restarts with distinct boot epochs, no two emitted shares use the same slot |
| `SignerNonces.SharesUseDifferentNonces` | bin/yip-ca/src/signer_daemon.rs:54-85 | if no draw repeats another, any two shares ever emitted, across restarts, were made by signing with different nonces, each drawn for its own slot |
| `SignerNonces.EveryRequestIsAnswered` | bin/yip-ca/src/signer_daemon.rs:128-188 | in any reachable state each refusal goes to its own cause, in order; matching payload, a lifetime of 1 to `max_ttl_secs` and a slot issued and unspent get as far as signing with that slot's nonces, of which one replacement is stored and offered |
| `Signer.IssuedIsActiveOrTaken` | bin/yip-ca/src/signer_daemon.rs:54-85 | every slot issued by this boot is either active or was spent, never both, and there are no others |
| `Signer.SignedMessagesObeyPolicy` | bin/yip-ca/src/signer_daemon.rs:132-151 | every message a signer signs is the encoding of exactly one certificate, whose lifetime is positive and within the policy |
| `NonceFlow.QueuedSlotsAreTracked` | bin/yip-ca/src/roast_coordinator.rs:106-118 | over every run with restarts and messages in the signer's name, a slot nobody else named is in flight, queued or requested at most once, and while it is, its boot is over or its nonce is still in the vault |
| `NonceFlow.RefusedIffUnissuedOrSpent` | bin/yip-ca/src/signer_daemon.rs:155-166 | in any reachable state, a request that passes the checks is refused for its nonce iff this boot did not issue the slot or has spent it |
| `NonceFlow.RefusedIffNotOfThisBoot` | bin/yip-ca/src/signer_daemon.rs:80-85 | delivered once, for a slot nobody else named, it is refused iff the slot is not one the current boot issued |
| `NonceFlow.RequestsFindTheirNonce` | bin/yip-ca/src/signer_daemon.rs:155-166 | so without a restart it is never refused for its nonce |
| `NonceFlow.RestartStrandsOffers` | bin/yip-ca/src/roast_coordinator.rs:65-66 | a run in which a restart leaves a queued offer behind and the next session asks for it in vain |
| `NonceFlow.ForeignOfferIsRequested` | bin/yip-ca/src/serve.rs:88-98 | a run in which an offer another connection registered in the signer's name is asked of the signer |
| `Enrollment.EnrollmentsDoNotMix` | bin/yip-ca/src/serve.rs:175-249 | over every interleaving of clients overwriting the one `message`, sessions, dispatches and certificates stay with their own client |
| `Enrollment.IssuedCertificateIsTheClientsOwn` | bin/yip-ca/src/serve.rs:223-249 | a returned signature aggregates verified shares of all participants over the client's own canonical bytes, which are another client's only if they asked for the same certificate |
| `EnrollmentRobustness.CoordinatorFollowsTrace` | bin/yip-ca/src/serve.rs:181-200 | the shared coordinator goes through a run of its own, so all its theorems hold of it |
| `EnrollmentRobustness.CertificateIffOwnSessionCompletes` | bin/yip-ca/src/serve.rs:211-230 | over every run, a client gets its certificate iff one of its polls finds its own session complete and aggregating |
| `EnrollmentRobustness.SilentParticipantHoldsUpItsClient` | bin/yip-ca/src/serve.rs:206-230 | while one participant of its session stays silent a client is never served, whatever all other sessions do |
| `EnrollmentRobustness.FewClientsWait` | bin/yip-ca/src/serve.rs:181-230 | with single answers, once only faulty signers owe, at most f clients wait on an incomplete session, however many enroll |
| `EnrollmentRobustness.AllButFewClientsAreServed` | bin/yip-ca/src/serve.rs:211-230 | all other clients past their spawn are served by their next poll, and those few by none in that state |
| `Replay.ReplayGuard.constructor` | bin/yip-rendezvous/src/reality_replay.rs:65-82 | all buckets of all shards start empty |
| `Replay.ReplayGuard.CheckSeal` | bin/yip-rendezvous/src/reality_replay.rs:86-125 | on the array of buckets: gives the verdict and takes the step, including rotation and the wrapping overflow counter |
| `Replay.RingRefinesHistory` | bin/yip-rendezvous/src/reality_replay.rs:86-125 | under a clock that does not go back, a seal is refused iff it predates the start, was accepted at most 20 minutes ago, or this minute's bucket of its shard is full; stated on the history alone |
| `Replay.AcceptedIffFresh` | bin/yip-rendezvous/src/reality_replay.rs:118-124 | that history holds exactly the calls answered `Fresh` |
| `Replay.RunAgrees` | bin/yip-rendezvous/src/reality_replay.rs:100-104 | minute m lives only in slot m mod 21, with exactly the seals accepted in that minute and shard, and no bucket still within the window is lost |
| `Replay.BucketsStayBounded` | bin/yip-rendezvous/src/reality_replay.rs:118-123 | no bucket exceeds `max_bucket`, whatever the clock does |
| `Replay.OverflowCountsFullBuckets` | bin/yip-rendezvous/src/reality_replay.rs:119-121 | `overflow` counts, modulo 2^64, exactly the calls refused for nothing but a full bucket |
| `Replay.ShardIsMasked` | bin/yip-rendezvous/src/reality_replay.rs:92 | the shard is the seal's first byte under the mask 15 |
| `RealityGate.SealAcceptedAtMostOnce` | bin/yip-rendezvous/src/tls_front.rs:31-44 | behind the skew gate a seal with its fixed timestamp is accepted at most once, ever |
| `RealityGate.AcceptIff` | bin/yip-rendezvous/src/tls_front.rs:453-467 | under arrivals in time order, a hello is accepted iff it is authentic, stamped within 10 minutes either way and not before the start, its seal was not accepted in the last 20 minutes, and there is room |
| `RealityGate.RefusedIffBucketKept` | bin/yip-rendezvous/src/reality_replay.rs:100-115 | for any clock, a once-accepted seal is refused within the window iff no call has recycled its bucket |
| `RealityGate.SecondAcceptIffRecycled` | bin/yip-rendezvous/src/tls_front.rs:453-467 | end to end, for any clock: the next hello with an accepted seal and timestamp is accepted again iff it is authentic and in skew, the bucket has been recycled since, and its own is not full |
| `RealityGate.ClockStepAdmitsASealTwice` | bin/yip-rendezvous/src/tls_front.rs:453-467 | a clock that jumps 21 minutes ahead and back admits a seal twice, inside the skew gate each time |
| `EpochObject.EpochSet.constructor` | bin/yipd/src/epoch.rs:82-92 | starts as epoch 1 with only a current session, its own lineage |
| `EpochObject.EpochSet.SetPeerAddr` | bin/yipd/src/epoch.rs:166-177 | redirects every held epoch and the rekey in flight; the lineage stands |
| `EpochObject.EpochSet.InboundOpen` | bin/yipd/src/epoch.rs:199-230 | tries current, next, previous in that order, and switches iff only `next` opens the frame, which extends the lineage by it at time `now` |
| `EpochObject.EpochSet.PromoteFromRekey` | bin/yipd/src/epoch.rs:235-242 | the initiator's switch extends the lineage and is timed `now`; `previous` is then its last but one, held until 15 s later |
| `EpochObject.EpochSet.InstallNext` | bin/yipd/src/epoch.rs:250-261 | replaces `next` and its cached answer, nothing else |
| `EpochObject.EpochSet.NextCachedRespFor` | bin/yipd/src/epoch.rs:269-274 | the cached answer, for the round behind `next` only |
| `EpochObject.EpochSet.RekeyIsDue` | bin/yipd/src/epoch.rs:285-295 | due iff no round is in flight and the current session is one interval old, two for the side that does not start by rights |
| `EpochObject.EpochSet.RetirePreviousIfDue` | bin/yipd/src/epoch.rs:276-280 | drops `previous` iff the deadline has come; the lineage stands |
| `Epoch.EveryRunKeepsLineage` | bin/yipd/src/epoch.rs:199-280 | over every run, `previous` is the immediate predecessor of `current`, held until 15 s after the time of the last promoting event, from which the age of `current` counts too; the epoch number is 1 plus the promotions (saturating) |
| `Epoch.TicksRetireExactlyAtTheDeadline` | bin/yipd/src/epoch.rs:276-280 | in any reachable state a held `previous` is dropped iff the event is a tick 15 s or more after the switch |
| `Epoch.DueAfterTheInterval` | bin/yipd/src/epoch.rs:285-295 | both schedules in time since the switch: one interval for the side that starts by rights, two for the other |
| `Epoch.RoamIsNotUndone` | bin/yipd/src/epoch.rs:166-177 | after a roam every epoch, also one promoted or completed later, sends to the new address |
| `Epoch.RoamingIsTransparent` | bin/yipd/src/epoch.rs:166-177 | leaving the roams out of any run leaves the same sessions, rounds, cached answer and times, and opens every frame alike |
| `Rekey.EveryRunKeepsInv` | bin/yipd/src/peer_manager/rekey.rs:264-370 | the protocol invariant over every disciplined run under loss, duplication and reordering |
| `Rekey.SidesStayInStep` | bin/yipd/src/epoch.rs:199-274 | the initiator's session is the responder's current or next; the responder's is the initiator's or the one it replaced |
| `Rekey.TimesCountFromTheSwitch` | bin/yipd/src/epoch.rs:235-242 | the initiator's age and grace deadline count from the clock time of its last switch |
| `Rekey.RoundIsDueIff` | bin/yipd/src/peer_manager/rekey.rs:63-74 | a round is due iff none is in flight and an interval has passed since the switch |
| `Rekey.RekeyNeverBlackHoles` | bin/yipd/src/epoch.rs:53-69 | in every reachable state the responder opens what the initiator sends, and conversely for at least 15 s after a switch the responder has not followed |
| `Rekey.AcceptableRespNamesNext` | bin/yipd/src/peer_manager/rekey.rs:437-465 | a Resp the initiator can still accept names exactly the responder's `next`, and is its cached answer |
| `Rekey.InboundFrameConfirms` | bin/yipd/src/epoch.rs:199-230 | a frame from the responder under the initiator's session means the switch is confirmed |
| `Rekey.CautiousIsDisciplined` | bin/yipd/src/epoch.rs:199-230 | rounds begun only after opening a frame under the current session, which the initiator sees, are begun only after confirmation |
| `Rekey.CautiousNeverBlackHoles` | bin/yipd/src/epoch.rs:53-69 | so an initiator that waits to hear is never cut off |
| `Rekey.EarlyRoundCutsOffIff` | bin/yipd/src/epoch.rs:250-261 | when a round is due, beginning it leaves the initiator reachable iff the previous switch was confirmed |
| `RekeyKnowledge.MutedRunShadows` | bin/yipd/src/epoch.rs:199-230 | losing all frames of a session the initiator never heard under gives a run it cannot tell from the real one |
| `RekeyKnowledge.UnheardMayCutOff` | bin/yipd/src/peer_manager/rekey.rs:56-135 | an initiator that has not heard has such a run in which the round that is due cuts it off |
| `RekeyKnowledge.SafeToBeginIffHeard` | bin/yipd/src/peer_manager/rekey.rs:56-135 | having heard is exactly what makes the round safe in every run the initiator cannot tell from this one |
| `Rekey.UnconfirmedRoundBlackHoles` | bin/yipd/src/peer_manager/rekey.rs:56-135 | at the scheduled times, for any interval: a switch the responder never hears of, then the next round, and the initiator is cut off |
| `Framing.FramedIsReadBackIff` | bin/yip-rendezvous/src/main.rs:61-74 | a framed envelope followed by anything is read back iff it has 1 to 2048 bytes |
| `Framing.WholeFrameForm` | bin/yip-rendezvous/src/conn_tunnel.rs:122-133 | a buffer yields an envelope iff it is its length in two big-endian bytes, 1 to 2048 of it, and the rest |
| `Framing.OtherForms` | bin/yip-rendezvous/src/conn_tunnel.rs:122-131 | it is refused iff it declares 0 or more than 2048, and waits for more iff it is shorter than what it declares |
| `Framing.FrameReader.DrainOne` | bin/yip-rendezvous/src/conn_tunnel.rs:121-152 | one turn consumes one frame or ends as draining ends |
| `Framing.FrameReader.DrainFrames` | bin/yip-rendezvous/src/conn_tunnel.rs:115-153 | the loop drains the buffer as the recursive parser does |
| `Framing.FrameReader.Pump` | bin/yip-rendezvous/src/conn_tunnel.rs:77-98 | prefix and any chunks drained one by one give the state of draining all the bytes at once; no byte lost or parsed twice |
| `Framing.DrainAppend` | bin/yip-rendezvous/src/conn_tunnel.rs:115-153 | draining, then draining with more bytes behind, equals draining them together |
| `Framing.DrainProcessesFrames` | bin/yip-rendezvous/src/conn_tunnel.rs:115-153 | draining a stream of frames is processing their envelopes in order; it fails as that does or if a length that cannot be one follows, and on success only an unfinished tail is left |
| `Framing.FramingRoundTrip` | bin/yip-rendezvous/src/main.rs:64-74 | framing any list of messages and draining gives the list back |
| `Framing.FailsIffFlooded` | bin/yip-rendezvous/src/conn_tunnel.rs:143-151 | among well-formed frames the tunnel fails iff 2001 in a row were throttled |
| `Framing.StreamFailsIffFlooded` | bin/yip-rendezvous/src/conn_tunnel.rs:115-153 | the same for the bytes of a stream |
| `Relay.ReadAndClassify` | bin/yip-rendezvous/src/conn.rs:219-252 | for every chunking and ending, the decision is that of the whole stream, and every byte is buffered or unread |
| `Relay.HandleConnection` | bin/yip-rendezvous/src/conn.rs:165-195 | classification, hand-off and all later drains together equal parsing the whole stream at once |
| `Relay.TunnelledIffAdmitted` | bin/yip-rendezvous/src/conn.rs:46-110 | a stream is tunnelled iff it opens with an admitted frame, and then all that follows is drained; every other stream goes to the decoy whole |
| `Relay.PipelinedMessagesAreRouted` | bin/yip-rendezvous/src/conn_tunnel.rs:77-81 | a Register with any messages pipelined behind it has them all routed, in order |
| `TlsRecord.Socket.ReadFull` | bin/yip-rendezvous/src/reality_io.rs:142-153 | yields the first bytes asked for, or all that arrive before the reads are cut |
| `TlsRecord.Socket.ReadFirstTlsRecord` | bin/yip-rendezvous/src/reality_io.rs:180-210 | the outcome depends only on the bytes that arrive before the cut, and bytes returned plus bytes unread, also those after the deadline, are the client's stream |
| `TlsRecord.WholeRecordIsComplete` | bin/yip-rendezvous/src/reality_io.rs:180-210 | a record laid out as in section 5.1 of RFC 8446, with a body of up to 16384 bytes, is read as itself whatever follows |
| `TlsRecord.CutRecordPassesThrough` | bin/yip-rendezvous/src/reality_io.rs:186-208 | any proper prefix of it passes through as itself, and only nothing is empty |
| `TlsRecord.OversizedRecordPassesThrough` | bin/yip-rendezvous/src/reality_io.rs:191-195 | one that declares more passes through as its five header bytes |
| `RealityConn.RunRealityConn` | bin/yip-rendezvous/src/tls_front.rs:242-443 | upstream gets exactly the client's stream, what is sent after the deadline included; dropped iff nothing arrived before the cut; served iff the guard, asked only for authentic in-skew seals, says `Fresh` and all pre-write steps succeed |
| `RealityConn.HelloIsServedIff` | bin/yip-rendezvous/src/tls_front.rs:278-382 | a hello in one record is served iff its name is allowed and has cached fields, its 32-byte seal opens within 10 minutes and is fresh to the guard, it brings the key share the captured group calls for, and the answer can be made |
| `RealityConn.KeyIsSelected` | bin/yip-rendezvous/src/tls_front.rs:197-203 | that key is the last 32 bytes of the first hybrid key for group 4588, the first plain key for group 29, none otherwise |
| `ClientHello.ScanKeyShare` | bin/yip-rendezvous/src/reality.rs:187-223 | the entry scan finds the first key of that group and length, on any bytes |
| `ClientHello.WalkExtensions` | bin/yip-rendezvous/src/reality.rs:131-166 | the extension loop equals the recursive parser, on any bytes |
| `ClientHello.HelloRoundTrip` | bin/yip-rendezvous/src/reality.rs:68-120 | parsing the serialisation of any well-formed ClientHello gives its random, session id and what its extensions contribute |
| `ClientHello.HelloFieldsAreRecovered` | bin/yip-rendezvous/src/reality.rs:68-234 | for every well-formed hello without repeated extensions, parsing its serialisation gives random, session id, host name, first x25519 key and the 1184/32 split of the first hybrid key, and nothing for what is absent |
| `HelloForms.FormIsRead` | bin/yip-rendezvous/src/reality.rs:68-120 | every message of the form of a ClientHello with well-framed extensions, repeated or unknown ones and trailing bytes included, is accepted and read in order |
| `HelloForms.AcceptedHasForm` | bin/yip-rendezvous/src/reality.rs:68-166 | nothing else is accepted |
| `HelloForms.NameIsReadIff` | bin/yip-rendezvous/src/reality.rs:173-182 | a server_name body yields a name iff it is a list length, type 0, and that UTF-8 name behind its length |
| `HelloForms.EntriesAreReadIff` | bin/yip-rendezvous/src/reality.rs:188-189 | the entries of a key_share body are what its length prefix covers, if all there |
| `HelloForms.KeyOfThatFormIsFound` | bin/yip-rendezvous/src/reality.rs:187-223 | a key behind well-framed entries that do not match is found, whatever follows |
| `HelloForms.FoundKeyHasForm` | bin/yip-rendezvous/src/reality.rs:187-223 | and no other key ever is |
| `ClientHello.HostNameIsFound` | bin/yip-rendezvous/src/reality.rs:173-182 | among what the extensions contribute: the host name of the server_name extension, wherever it stands |
| `ClientHello.KeysAreFound` | bin/yip-rendezvous/src/reality.rs:187-223 | among what the extensions contribute: the keys of the key_share extension, wherever it stands |
| `Limiter.FrameRateLimiter.AcquireTokens` | bin/yip-rendezvous/src/conn_tunnel.rs:38-49 | refill capped at capacity, then grant iff the cost is covered |
| `Limiter.WindowIsRateLimited` | bin/yip-rendezvous/src/conn_tunnel.rs:38-49 | in any window of any run, frames granted are at most capacity plus rate times its length |
| `Limiter.RefusedIffOverLimit` | bin/yip-rendezvous/src/conn_tunnel.rs:38-49 | the exact law from a full bucket: a frame is refused iff granting it would take some window that ends with it over capacity plus rate times its length |
| `Limiter.BurstIsGranted` | bin/yip-rendezvous/src/conn_tunnel.rs:38-49 | so a burst of up to `capacity` frames passes whole |
| `Limiter.StepBackEarnsNothing` | bin/yip-rendezvous/src/conn_tunnel.rs:39-42 | a clock that steps back earns nothing and is counted from afresh |
| `Limiter.RunStaysValid` | bin/yip-rendezvous/src/conn_tunnel.rs:38-49 | tokens stay between 0 and capacity |
| `Limiter.PacedSenderIsNeverThrottled` | bin/yip-rendezvous/src/conn_tunnel.rs:38-49 | frames spaced by 1/rate are all granted |
| `Tunnel.PacedTunnelRoutesEverything` | bin/yip-rendezvous/src/conn_tunnel.rs:115-153 | with the bucket as the reader's limiter, a sender so paced has every message routed, in order, and is never disconnected |
| `Tunnel.RoutedIsRateLimited` | bin/yip-rendezvous/src/conn_tunnel.rs:115-153 | and whatever a sender does, the messages routed for it are at most capacity plus rate times the time taken |
| `SentLog.LossAccounting.InsertEntry` | bin/yipd/src/dataplane.rs:72-80 | takes the insert step on map and deque, leaving the report mark alone |
| `SentLog.LossAccounting.CountClassesInRange` | bin/yipd/src/dataplane.rs:91-106 | counts each class over the deque, saturating at 32 bits |
| `SentLog.LossAccounting.OnReport` | bin/yipd/src/dataplane.rs:570-592 | an advancing report is set against its own window and moves the mark; any other against the whole log |
| `SentLog.LogIsSuffix` | bin/yipd/src/dataplane.rs:57-80 | under increasing counters, deque and map both hold exactly the last `max(capacity, 1)` sends |
| `SentLog.AsMapHolds` | bin/yipd/src/dataplane.rs:82-84 | looking a counter up finds it iff it is logged, with its own class |
| `SentLog.MapCountsLikeDeque` | bin/yipd/src/dataplane.rs:87-89 | counting map values equals counting over the deque |
| `SentLog.CountsAreSizes` | bin/yipd/src/dataplane.rs:87-106 | both queries return, in each class's own field, the number of its logged counters in range, sticking at 2^32 - 1 |
| `SentLog.HighNeverDecreases` | bin/yipd/src/dataplane.rs:570-577 | `last_loss_report_high` never decreases |
| `SentLog.HighIsLargestReported` | bin/yipd/src/dataplane.rs:570-577 | a report advances iff it tops all reports before it |
| `SentLog.WindowsAreDisjoint` | bin/yipd/src/dataplane.rs:570-580 | no counter lies in the windows of two advancing reports |
| `SentLog.ChargedExactlyOnce` | bin/yipd/src/dataplane.rs:570-580 | a counter still logged when the first report reaching it arrives lies in that report's window and no other |
| `SentLog.ReportsCountSendsAtMostOnce` | bin/yipd/src/dataplane.rs:570-592 | for each class, the counts all advancing reports of a run are set against add up to at most the sends |
| `SentLog.LossFractionIsAFraction` | bin/yipd/src/dataplane.rs:849-856 | the loss fraction is in [0, 1], zero iff nothing is missing, exact below 2^16 and of 65535 above |
| `Routes.RouteTable.Register` | bin/yip-rendezvous/src/conn_tunnel.rs:67-74 | the newest channel takes the entry |
| `Routes.RouteTable.Leave` | bin/yip-rendezvous/src/conn_tunnel.rs:99-110 | removes the entry iff it is still this tunnel's own |
| `Routes.RouteIsLatestLiveTunnel` | bin/yip-rendezvous/src/conn_tunnel.rs:67-110 | for every interleaving, a node's entry is its most recently registered tunnel if that has not exited, else absent |
| `Cidr.MatchesIffQuotientsAgree` | bin/yipd/src/control.rs:489-521 | on all inputs, an address matches iff it is of the network's family, the prefix is in range and integer division by 2^(width - prefix) agrees, for 32 and 128 bits |
| `Cidr.MatchingIsEquivalence` | bin/yipd/src/control.rs:489-521 | matching at a prefix in range is an equivalence relation |
| `Cidr.LongerPrefixIsNarrower` | bin/yipd/src/control.rs:489-521 | a match at a longer prefix is a match at every shorter one |
| `Cidr.MatchesIp` | bin/yipd/src/control.rs:427-434 | true iff some listed network matches |
| `Cidr.ShouldBypass` | bin/yipd/src/control.rs:436-444 | while enabled, Exclude bypasses exactly what matches and Include exactly what does not |

## Left out

- Cryptography and foreign crates (FROST, Noise, AEAD, obfuscation, rcgen, BoringSSL): arbitrary functions or the session a data plane belongs to; `VerifiedSharesAggregate` names the one FROST guarantee that is used.
- Floating-point rounding: `Limiter` and the loss fractions are over `real`.
- SentLog.LossFractionIsAFraction: does not model `f32` rounding, only the 16-bit saturation and the clamp.
- Counter overflow that panics in the source (2^128 session ids, 2^64 nonce slots, tag counts and lengths past 16 bits): a `requires` on the method that would panic.
- Rekey: one side initiates, on the schedule of the side that starts by rights; glare, the other side's fallback, retransmission timing and relay wrapping are outside, and a round may be abandoned at any time. Both sides are values in one state machine, not two `EpochSet` objects.
- EpochSet: the data planes' own state (FEC, statistics, obfuscation keys) is reduced to session and peer address.
- NonceFlow: coordinator and signer are values in one state machine; the signer's own connection delivers at most once, and requests come from the coordinator. That a refusal closes the connection (bin/yip-ca/src/serve.rs:120) is one way messages are lost.
- Enrollment: the spawn and polling loops are single locked steps taken any number of times, so the limits of 60 and 200 turns and the sleeps are not modelled; challenge and credential checks happen before the first step.
- Framing: the limiter's verdicts are an oracle per frame; `Tunnel` puts the bucket in its place, with the times given. Deliveries to a peer are not modelled.
- Relay: connecting to the decoy, writing the reply, the generic rejection on the REALITY path and the node's admission itself (`classify_first_frame_at` past the framing) are parameters or absent.
- RealityConn: nothing after the commit point; leaf forging, key loading and ServerHello emission are one condition.
- ClientHello: UTF-8 validity is an arbitrary predicate on bytes, and a host name is its bytes.
- SentLog: which reported counters are missing, retransmission and the loss estimator are outside.
- Routes: sending through a channel is not modelled, only whose channel the entry is.
- Config and flag parsing, control-socket dispatch, dashboards, SVG generators, `reality_cert.rs` refresh and `addr.rs`: many easy branches and no invariant over time.
