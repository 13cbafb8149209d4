# Consensus and ledger core of the JUNCA Social Ecosystem Chain, verified

This Dafny project models the part of `jaios/social_ecosystem_chain` whose guarantees appear
only over whole runs: finality and the signing journal, fork choice and snapshots, vote gossip,
the bridge and its event index, the mempool and block execution, and the native-token Genesis.
Run `dafny verify dfyconfig.toml` to check it.

Each component has a specification on values (`Finality`, `SigningJournal`, `ForkChoice`,
`Gossip`, `Bridge`, `EventIndex`, `Mempool`, `Candidate`, `Kernel`, `Genesis...`), about which the
results are proved, and where the program keeps an object that it updates in place, a class with
the same fields (`FinalityStateMachine`, `ConsensusSigningJournal`, `FinalizedForkChoice`,
`ReliableAuthenticatedVoteGossip`, `BridgeProtocol`, `BridgeEventIndexer`, `TransactionPool`)
whose methods are proved to do exactly what the specification says. What an operation answers and
leaves is stated a second time without the functions that compute it, over the inputs and over runs
(`FinalityReplies`, `JournalReplies`, `ForkChoiceReplies`, `SnapshotReplies`, `GossipReplies`,
`BridgeReplies`, `IngestExactly`, `MempoolReplies`, `RestoreReplies`, `KernelReplies`, `TipsPaid`,
`GenesisReplies`, `GenesisUnbound`), and so is which texts are hashes, addresses and numbers
(`TextForms`). The components compose:
`Agreement` runs replicas, journalled validators and Byzantine validators together, `SyncSafety`
puts fork choice on top of that, and `BlockProduction` joins the mempool to block execution.

## Main results

- **Agreement.** If honest votes leave only through signing journals and at most a third of the
  power is Byzantine, no two replicas ever hold certificates of one height and round for different
  blocks, whatever checkpoints they start and restart from (`AgreementPerRound`). Exactly when it
  fails is `DisagreementIff`: for any Byzantine validators and any places where the honest ones may
  sign, some run finalizes two blocks of a height if and only if two quorums can part. Hence agreement
  per round holds exactly when no two quorums meet in Byzantine validators only
  (`AgreementPerRoundIff`), and agreement per height, with at most a Byzantine third, exactly when no
  two rounds of the height may be signed in (`AgreementPerHeightIff`).
- **Journal safety.** `NeverDoubleSigns`, over any sequence of opens, calls, failures, crashes and
  reopens from any tables whatever. What was signed once is returned again after any later history
  (`SignedIsReturnedAgain`).
- **Finality.** When a vote is accepted, what it is answered and when it finalizes, exactly; invariant, monotonicity, order independence, and the exact conditions for
  finalizing and for reporting an equivocation.
- **Index refinement.** The relational tables agree with a plain list on which an ingest is
  "truncate, then append", exactly when nothing final is replaced and nothing kept is repeated; what is
  final is permanent.
- **Bridge.** Over all runs a record waits exactly while attestations or confirmations are short
  (`WaitsExactlyWhilePending`); a bound on executed and ready value that is reached, and exactly when
  the daily limit is safe.
- **Mempool and execution.** Greedy optimality and its converse, in rewards and in the tips of the
  executed block (`GreedyBlockPaysMost`), snapshot round trip, when a block
  executes, when money is conserved, when a transaction can run twice, when a candidate executes.
- **Genesis.** Compiler and checker agree exactly, with a plan and, up to the digest of the plan,
  without one (`UnboundIff`); the three decisions apply exactly when they take nothing back.

## Where the code does not do what one might expect

- Agreement is per height and round only: nothing ties a validator to a block across rounds, and two
  rounds are enough for two blocks without a Byzantine validator (`RoundsCanDisagree`).
- The bridge checks the daily limit when a record becomes ready and counts value when it is
  executed, so two ready records can exceed it (`DailyLimitCanBeExceeded`). It is safe exactly when
  each preparation fits beside what is already ready, which is not checked (`DailyLimitIff`).
- Fork choice checks parent links downwards only, so links can break (`LinkedThroughoutIff`,
  `BackfillUnlinks`).
- The order of final events is not determined for equal log indexes of one block
  (`ListingDeterminedIff`, `FinalizedEventsDetermined`), and such events can be final (`TieIsReachable`).
- Building a snapshot descriptor does not check the 2 MiB chunk limit that verification enforces
  (`BuiltDescriptorAccepts`). Verification compares chunk hashes in any case, but the checkpoint covers
  their spelling (`SpellingIsCommitted`).
- Gossip recomputes a certificate hash with both powers fixed at the number of signers, which is the
  machine's hash only when signed and total power both equal that number (`RecomputedHashIff`).
- Block execution reads the recipient before it writes the sender, so a payment to oneself costs
  neither money nor a nonce: it creates money and can run again (`ConservedIff`, `SelfPaymentCreatesMoney`,
  `RunsAgainIff`).
- Candidates are picked at the head's base fee and executed at the next one, so after a block over
  the target, and only then, a picked transaction can refuse the whole block (`PricedOutIff`). A
  candidate can also fail for balance, because admission looks at each transaction alone
  (`OverspendingIff`, `CandidateCanOverspend`).
- Where rewards rise with the nonce, greedy selection can earn less than another selection
  (`GreedyCanLose`, `GreedWinsIff`).
- A vote that spells its block hash with upper-case digits counts for the certificate but is not
  found again when the certificate is announced (`AnnouncedIff`).

## Assumptions

- SHA-256 over canonical JSON is injective: digests are datatype values that hold what was hashed,
  with a constructor for digests that match nothing. Transaction hashes are an uninterpreted function
  in `Protocol.Config`, and snapshot hashes one in `Snapshot`.
- Signatures of honest validators cannot be forged (`Agreement.Verdict`); other verifiers are
  arbitrary functions of the vote or transaction.
- Addresses are canonical lower case in the mempool and in block execution. Hash and address text is
  accepted as Python's integer parser reads base 16 (`Prelude.IsBase16`: signs, underscores, a second
  0x and white space included), with the decimal digits of Unicode 15. Case folding is that of ASCII,
  the only letters in such text.
- SQLite transactions are atomic; its tables are maps, and a uniqueness violation rolls back.
- Values have the right JSON or Python type, and documents the right field sets. In the Genesis modules
  the constant fields of a document are one header value, a timestamp carries whether it parses, and
  dates are year-month-day numbers.
- Clocks, randomness, the network and signers are parameters.

## Model

| member | source | states |
|---|---|---|
| FinalityStateMachines.FinalityStateMachine.Create | jaios/social_ecosystem_chain/finality.py:95-122 | A machine is built exactly when the chain id is positive, the checkpoint is at least -1 and there are three or more validators with distinct identities; it then holds their powers and nothing else |
| FinalityStateMachines.FinalityStateMachine.constructor | jaios/social_ecosystem_chain/finality.py:95-122 | A new machine is consistent and empty |
| FinalityStateMachines.FinalityStateMachine.ById | jaios/social_ecosystem_chain/finality.py:110-122 | The dictionary of powers and their sum, with a repeated identity showing as a smaller dictionary |
| FinalityStateMachines.DistinctIffAsMany | jaios/social_ecosystem_chain/finality.py:110-118 | Comparing the two sizes detects repeated identities, and nothing else |
| FinalityStateMachines.FinalityStateMachine.QuorumPower | jaios/social_ecosystem_chain/finality.py:124-126 | The quorum is two thirds of the total, rounded down, plus one |
| FinalityStateMachines.FinalityStateMachine.LatestFinalizedHeight | jaios/social_ecosystem_chain/finality.py:128-130 | The greatest finalized height, or the checkpoint |
| FinalityStateMachines.FinalityStateMachine.ValidateVote | jaios/social_ecosystem_chain/finality.py:186-220 | Refuses a vote for the first reason that applies |
| FinalityStateMachines.FinalityStateMachine.Matching | jaios/social_ecosystem_chain/finality.py:136-178 | The validators recorded for a block in a round, and the sum of their powers |
| FinalityStateMachines.FinalityStateMachine.BuildCertificate | jaios/social_ecosystem_chain/finality.py:222-253 | The certificate over all recorded supporters, in identity order |
| FinalityStateMachines.FinalityStateMachine.AddVote | jaios/social_ecosystem_chain/finality.py:136-178 | One vote changes the machine and answers as the specification says, in every branch, and keeps the invariant |
| Finality.AddVoteKeepsInvariant | jaios/social_ecosystem_chain/finality.py:136-178 | Every vote keeps the invariant: finalized heights without gaps, certificates equal to what the recorded votes carry, unfinalized tallies below quorum |
| Finality.RunInvariant | jaios/social_ecosystem_chain/finality.py:136-220 | The invariant holds after any sequence of votes |
| FinalityStateMachines.FinalityStateMachine.RecordVote | jaios/social_ecosystem_chain/finality.py:150-178 | Recording a vote: tally, quorum and certificate |
| FinalityStateMachines.FinalityStateMachine.SettleCertificate | jaios/social_ecosystem_chain/finality.py:169-178 | Both late guards as the program has them, and then the certificate takes its place |
| Finality.LateGuardsNeverFire | jaios/social_ecosystem_chain/finality.py:169-176 | Neither guard behind the quorum test, another certificate or a gap in heights, can ever refuse |
| Finality.CertificateListsItsSigners | jaios/social_ecosystem_chain/finality.py:222-253 | The validator list of a certificate is the one ascending listing of its recorded supporters |
| Finality.CertificateExceedsTwoThirds | jaios/social_ecosystem_chain/finality.py:222-253 | A certificate lists distinct validators whose powers add up to its signed power, more than two thirds of the total |
| Finality.RunIsMonotone | jaios/social_ecosystem_chain/finality.py:136-178 | Certificates, recorded votes and detected equivocations never change or vanish |
| Finality.FinalizedHeightsAreAnInterval | jaios/social_ecosystem_chain/finality.py:128-130 | Finalized heights are exactly an interval that starts at the checkpoint or one above it |
| Finality.EquivocationReported | jaios/social_ecosystem_chain/finality.py:152-164 | An equivocation is reported if and only if a valid vote meets a recorded vote of the same validator, height and round for another block, and only then added to the set |
| Finality.EquivocationsIff | jaios/social_ecosystem_chain/finality.py:136-164 | Over any run, an identity counts as equivocating exactly when some delivery was a valid vote against its recorded one while the height was open |
| Finality.FinalizedIffQuorum | jaios/social_ecosystem_chain/finality.py:136-178 | One round of non-equivocating votes finalizes exactly when the support of some block reaches the quorum, whatever the order |
| Finality.QuorumsIntersect | jaios/social_ecosystem_chain/finality.py:124-126 | Two quorums share more than a third of the total power |
| Finality.QuorumBlockUnique | jaios/social_ecosystem_chain/finality.py:136-178 | At most one block of a round reaches a quorum |
| Finality.DeliveryOrderIrrelevant | jaios/social_ecosystem_chain/finality.py:136-178 | Any two orders of the same votes of a round finalize the same block or none |
| Finality.ThreeVotesGiveOneCertificate | jaios/social_ecosystem_chain/finality.py:222-253 | With three validators of power one, every order of their three votes yields the same certificate |
| FinalityReplies.AcceptedIff | jaios/social_ecosystem_chain/finality.py:136-178 | A valid vote is accepted exactly when no other block is finalized at its height and, while the height is open, its validator voted for no other block there; the answer is the height's certificate if there is one now |
| FinalityReplies.FinalizesIff | jaios/social_ecosystem_chain/finality.py:150-178 | A vote finalizes its height exactly when it is counted and more than two thirds of the power stand behind its block; a counted vote is recorded and nothing else changes |
| FinalityReplies.RefusedEarlyIff | jaios/social_ecosystem_chain/finality.py:186-220 | Each refusal of a malformed vote is given exactly when its check is the first that fails |
| FinalityReplies.RefusedLaterIff | jaios/social_ecosystem_chain/finality.py:136-220 | Why a sound vote is refused: its height lies below or beyond every latest height, another block is finalized there, or while it is open its validator voted for another block |
| FinalityReplies.SettledIff | jaios/social_ecosystem_chain/finality.py:169-178 | The late guards alone: a certificate takes its place exactly when its height is free or holds the same certificate, and is the first, the latest or the next |
| TextForms.HashIff | jaios/social_ecosystem_chain/finality.py:264-270 | A hash is 0x and 64 characters that form a number: blanks, a sign, a prefix, digits with single underscores, blanks |
| TextForms.Base16Iff | jaios/social_ecosystem_chain/finality.py:264-270 | The reader of hashes takes a text exactly when it is a number by its parts |
| TextForms.LowerSameIff | jaios/social_ecosystem_chain/finality.py:142-147 | Folded texts are equal exactly when the texts differ in capitals only |
| ConsensusSigningJournals.ConsensusSigningJournal.Open | jaios/social_ecosystem_chain/consensus_signing_journal.py:28-73 | Opening changes the tables and succeeds or fails exactly as specified |
| ConsensusSigningJournals.ConsensusSigningJournal.RestoreWatermarks | jaios/social_ecosystem_chain/consensus_signing_journal.py:253-289 | Every watermark becomes the later of itself and the latest stored signature of its validator |
| ConsensusSigningJournals.ConsensusSigningJournal.ValidatePersistedState | jaios/social_ecosystem_chain/consensus_signing_journal.py:291-369 | Accepts exactly when all rows are canonical and the watermarks equal the maxima of the signatures |
| ConsensusSigningJournals.ConsensusSigningJournal.GetOrSign | jaios/social_ecosystem_chain/consensus_signing_journal.py:79-201 | One signing call, including replay, refusal, signer and verifier failure and rollback |
| SigningJournal.OpenRaisesWatermarks | jaios/social_ecosystem_chain/consensus_signing_journal.py:253-289 | Opening leaves each watermark at the lexicographic maximum of itself and the stored signatures |
| SigningJournal.OpenSucceedsIff | jaios/social_ecosystem_chain/consensus_signing_journal.py:28-73 | Opening succeeds if and only if the chain matches, every row is canonical and no watermark lies beyond the signatures |
| SigningJournal.OpenRebuildsWatermarks | jaios/social_ecosystem_chain/consensus_signing_journal.py:253-289 | A journal without watermarks gets them from its signatures |
| SigningJournal.ReopenIsIdentity | jaios/social_ecosystem_chain/consensus_signing_journal.py:238-369 | Reopening a sound journal changes nothing and succeeds for its own chain only |
| SigningJournal.CreatedBeyondWatermark | jaios/social_ecosystem_chain/consensus_signing_journal.py:119-197 | A call that creates a signature creates it beyond the watermark |
| SigningJournal.GetOrSignKeepsSound | jaios/social_ecosystem_chain/consensus_signing_journal.py:119-201 | Every call keeps the tables canonical and the watermarks equal to the maxima |
| SigningJournal.NeverDoubleSigns | jaios/social_ecosystem_chain/consensus_signing_journal.py:79-201 | Over any opens, calls, failures, crashes and reopens, from any tables: one block and one signature per slot, and created signatures of a validator strictly increase |
| JournalReplies.AnsweredIff | jaios/social_ecosystem_chain/consensus_signing_journal.py:79-201 | A call on sound tables is answered exactly when the request is sound and either the stored signature of that very block verifies, or the slot is empty and not behind the watermark and the signer returned 64 or 65 bytes that verify; the answer is what the slot then holds, and a stored answer leaves the tables alone |
| JournalReplies.RefusedIff | jaios/social_ecosystem_chain/consensus_signing_journal.py:119-197 | Why a sound request is refused, each reason exactly when it applies first |
| JournalReplies.RequestErrorIff | jaios/social_ecosystem_chain/consensus_signing_journal.py:79-118 | Each fault of a request is reported exactly when it is the first one |
| JournalReplies.SignedIsReturnedAgain | jaios/social_ecosystem_chain/consensus_signing_journal.py:144-147 | Over any later opens, calls, crashes and reopens: asked again for a vote it signed, an open journal returns the very signature exactly when that verifies, and changes nothing |
| JournalReplies.LoggedWasAccepted | jaios/social_ecosystem_chain/consensus_signing_journal.py:79-201 | Over runs, every signature handed out comes from an accepted call |
| JournalReplies.CallEffect | jaios/social_ecosystem_chain/consensus_signing_journal.py:175-201 | A call that is answered and not lost before the commit leaves its tables and one log entry, any other leaves nothing |
| JournalReplies.OpensIff | jaios/social_ecosystem_chain/consensus_signing_journal.py:28-73 | A journal opens exactly on its own chain or none, with every row as the journal would have written it and no watermark beyond the signatures of its validator |
| JournalReplies.OpeningFailsIff | jaios/social_ecosystem_chain/consensus_signing_journal.py:28-73 | Why opening fails, and what it has written by then |
| JournalReplies.OpeningMarks | jaios/social_ecosystem_chain/consensus_signing_journal.py:253-289 | What opening leaves in the watermarks, whether it succeeds or not |
| TextForms.CanonicalHashIff | jaios/social_ecosystem_chain/consensus_signing_journal.py:94-102 | A canonical hash is 0x and 64 of the sixteen lower-case digits |
| Agreement.ReleasedBlockUnique | jaios/social_ecosystem_chain/consensus_signing_journal.py:119-197 | An honest journal releases at most one block per height and round over its whole history |
| RoundDisagreement.SignsBeyond | jaios/social_ecosystem_chain/consensus_signing_journal.py:119-201 | A journal that opens signs any block at any place beyond its signatures, and is sound after it |
| RoundDisagreement.JournalSignsTwice | jaios/social_ecosystem_chain/consensus_signing_journal.py:152-158 | A journal with room signs one block in a round and then any other block in any later round of the same height |
| Agreement.RunKeepsInvariant | jaios/social_ecosystem_chain/finality.py:136-178 | In every run of journals, deliveries and restarts, each replica is consistent and holds honest votes only as their journals released them |
| Agreement.AgreementPerRound | jaios/social_ecosystem_chain/finality.py:124-178 | If Byzantine power is at most a third, no two replicas ever hold certificates of one height and round for different blocks, at any two times, each from its own checkpoint and across restarts |
| Agreement.CertificateRound | jaios/social_ecosystem_chain/finality.py:124-178 | When honest validators sign each height in one round, certificates carry that round |
| Agreement.AgreementPerHeight | jaios/social_ecosystem_chain/finality.py:124-178 | With one round per height, replicas agree on every height they have ever finalized |
| RoundDisagreement.CampsCanDisagree | jaios/social_ecosystem_chain/finality.py:136-178 | Whatever validators are Byzantine: two quorums that share no honest validator in one round, and whose honest members may sign where they vote, can make two replicas finalize one height differently, with honest signatures in the allowed places only |
| RoundDisagreement.RoundsCanDisagree | jaios/social_ecosystem_chain/finality.py:136-178 | For every committee of names that the journal takes, every height above 0, two rounds and two blocks there is a run without Byzantine validators, signing in these two rounds only, in which two replicas finalize the height differently |
| AgreementExactly.DisagreementParts | jaios/social_ecosystem_chain/finality.py:124-178 | Whenever two replicas have held certificates of one height for different blocks, their signers are two quorums whose honest members signed in allowed places, and that share only Byzantine validators if the rounds are the same |
| AgreementExactly.DisagreementIff | jaios/social_ecosystem_chain/finality.py:124-178 | For any committee, Byzantine validators, allowed places, height and two rounds: some run finalizes two blocks if and only if two quorums can part |
| AgreementExactly.AgreementPerRoundIff | jaios/social_ecosystem_chain/finality.py:124-178 | Agreement per round holds in all runs if and only if no two quorums meet in Byzantine validators only |
| AgreementExactly.AgreementPerHeightIff | jaios/social_ecosystem_chain/finality.py:124-178 | With at most a Byzantine third, agreement per height holds in all runs if and only if honest validators may not sign in two rounds of the height |
| SyncSafety.ClaimQuorumIsFinalityQuorum | jaios/social_ecosystem_chain/consensus_sync.py:26-37 | The quorum test on claims is the quorum of the finality machine |
| FinalizedForkChoices.FinalizedForkChoice.Create | jaios/social_ecosystem_chain/consensus_sync.py:49-69 | Builds an empty fork choice exactly for a valid policy |
| FinalizedForkChoices.FinalizedForkChoice.Head | jaios/social_ecosystem_chain/consensus_sync.py:75-77 | The canonical claim of the greatest height |
| FinalizedForkChoices.FinalizedForkChoice.Observe | jaios/social_ecosystem_chain/consensus_sync.py:83-121 | One claim changes the state and answers exactly as specified |
| FinalizedForkChoices.FinalizedForkChoice.RecordProtocolFault | jaios/social_ecosystem_chain/consensus_sync.py:123-131 | One reported fault changes the discipline of its peer as specified |
| FinalizedForkChoices.FinalizedForkChoice.Fault | jaios/social_ecosystem_chain/consensus_sync.py:153-155 | A fault raises the count of its peer and quarantines at the limit |
| ForkChoice.RunInvariant | jaios/social_ecosystem_chain/consensus_sync.py:83-155 | After any run each kept claim matches the canonical hash of its height, and a peer is quarantined exactly from the limit on |
| ForkChoice.RunExtends | jaios/social_ecosystem_chain/consensus_sync.py:83-155 | Canonical entries are write-once, peers never fall back and a halt is absorbing |
| ForkChoice.HeadNeverFalls | jaios/social_ecosystem_chain/consensus_sync.py:75-77 | The height of the head never falls |
| ForkChoice.QuarantineSilences | jaios/social_ecosystem_chain/consensus_sync.py:83-121 | A quarantined peer changes neither canonical state nor claims nor the halt, nor the discipline of others |
| ForkChoice.HaltNeedsContradiction | jaios/social_ecosystem_chain/consensus_sync.py:83-121 | A halt needs two observed claims that contradict each other |
| ForkChoice.ContradictionHalts | jaios/social_ecosystem_chain/consensus_sync.py:83-121 | An admissible claim halts the node if and only if it contradicts the canonical entry |
| ForkChoice.LinkageKeptIff | jaios/social_ecosystem_chain/consensus_sync.py:112-117 | An accepted claim keeps parent links intact if and only if it is not put below an installed child that names another parent |
| ForkChoice.LinkedThroughoutIff | jaios/social_ecosystem_chain/consensus_sync.py:112-117 | Over runs, links hold at every point if and only if no accepted claim was put below a block that does not name it |
| ForkChoice.BackfillUnlinks | jaios/social_ecosystem_chain/consensus_sync.py:112-117 | Two claims that pass the screen, the higher first and not naming the lower, are both accepted and end unlinked |
| ForkChoice.UpwardRunsStayLinked | jaios/social_ecosystem_chain/consensus_sync.py:112-117 | Links hold in every run in which no height is installed below an installed one |
| ForkChoiceReplies.AcceptedIff | jaios/social_ecosystem_chain/consensus_sync.py:83-121 | A claim is accepted exactly when the node runs, the claim is for its network and committee, the peer is neither quarantined nor falling back, and no canonical block of this or the height below contradicts it; then it is kept, and canonical unless the height was taken |
| ForkChoiceReplies.HaltedIff | jaios/social_ecosystem_chain/consensus_sync.py:104-121 | A screened claim that contests a canonical block halts the node, and halting is all it does |
| ForkChoiceReplies.RefusedIff | jaios/social_ecosystem_chain/consensus_sync.py:83-121 | Each refusal is given exactly when its check is the first that fails |
| ForkChoiceReplies.FaultsAreCharges | jaios/social_ecosystem_chain/consensus_sync.py:123-155 | After any run a peer's count is the number of faults charged to it, and it is quarantined exactly when charged and at the threshold |
| ForkChoiceReplies.KeptClaimsAreOurs | jaios/social_ecosystem_chain/consensus_sync.py:83-121 | No run ever keeps or makes canonical a claim of another chain, another genesis or another total power |
| ForkChoiceReplies.ClaimValidIff | jaios/social_ecosystem_chain/consensus_sync.py:26-38 | A claim can be made exactly when its fields are in form and less than a third of the power is missing |
| SyncSafety.HaltProvesByzantineThird | jaios/social_ecosystem_chain/consensus_sync.py:83-121 | If claims repeat certificates of a run with one round per height, a halt means more than a third of the power is Byzantine |
| Snapshot.Verify | jaios/social_ecosystem_chain/consensus_sync.py:198-226 | Accepts exactly the finalized claim with exactly the committed chunks, hashes in any case, and counts their bytes |
| Snapshot.AcceptedChunksUnique | jaios/social_ecosystem_chain/consensus_sync.py:198-226 | Two lists of chunks that one descriptor accepts are equal or hold a hash collision |
| Snapshot.BuiltDescriptorAccepts | jaios/social_ecosystem_chain/consensus_sync.py:261-297 | Hash collisions aside, a built descriptor accepts its own chunks only, and them if and only if none exceeds 2 MiB |
| Snapshot.SpellingIsCommitted | jaios/social_ecosystem_chain/consensus_sync.py:213-226 | A descriptor that spells its chunk hashes in another way accepts the same chunks if and only if its checkpoint hash stays the same |
| SnapshotReplies.AcceptedIff | jaios/social_ecosystem_chain/consensus_sync.py:198-226 | A snapshot is accepted exactly when descriptor and claim are of this chain and agree on height, block and state root, each listed hash is that of its chunk, no chunk exceeds 2 MiB and the checkpoint covers it all |
| SnapshotReplies.BuiltIff | jaios/social_ecosystem_chain/consensus_sync.py:261-286 | A descriptor is built exactly from chunks with numbers and hashes in form, and lists the chunks' hashes in order |
| SnapshotReplies.ValidIff | jaios/social_ecosystem_chain/consensus_sync.py:167-174 | Which descriptors can be made |
| VoteGossip.ReliableAuthenticatedVoteGossip.MarkSeen | jaios/social_ecosystem_chain/finality_gossip.py:440-449 | Reports new exactly when the frame is not remembered, and moves or appends it |
| VoteGossip.ReliableAuthenticatedVoteGossip.CachePacket | jaios/social_ecosystem_chain/finality_gossip.py:431-438 | Files the packet under its round and evicts the oldest rounds |
| VoteGossip.ReliableAuthenticatedVoteGossip.RememberFinalization | jaios/social_ecosystem_chain/finality_gossip.py:451-460 | Remembers the announcement as the newest and evicts the oldest |
| VoteGossip.Evict | jaios/social_ecosystem_chain/finality_gossip.py:431-460 | Keeps exactly the newest keys and their values |
| RecencyCache.CacheIsExact | jaios/social_ecosystem_chain/finality_gossip.py:440-449 | After any history the cache is exactly the most recently touched distinct keys, in order |
| RecencyCache.ReportedNewIff | jaios/social_ecosystem_chain/finality_gossip.py:440-449 | A key is reported new exactly when it was never touched or as many other keys as fit were touched since |
| VoteGossip.SeenVotesAreExact | jaios/social_ecosystem_chain/finality_gossip.py:440-449 | The seen cache holds precisely the 4096 most recent distinct frames |
| Gossip.RecomputedHashIff | jaios/social_ecosystem_chain/finality_gossip.py:498-520 | The hash gossip recomputes equals the hash of the machine exactly when signed power, total power and number of signers coincide |
| Gossip.AcceptedIsCommitted | jaios/social_ecosystem_chain/finality_gossip.py:295-402 | Acceptance is the header checks and a commitment to the vote set |
| Gossip.AcceptedSetRebuildsCertificate | jaios/social_ecosystem_chain/finality_gossip.py:295-402 | Feeding an accepted vote set, in any order, to a new machine yields exactly the announced certificate |
| Gossip.AnnouncedIff | jaios/social_ecosystem_chain/finality_gossip.py:229-293 | From votes that spell the hash in any case: an announcement is built exactly when all spell it in lower case, timestamps agree and the head matches; other spellings are missing from the cache, and what is built is accepted |
| Gossip.BuiltAnnouncementAccepted | jaios/social_ecosystem_chain/finality_gossip.py:257-402 | The same for a cache that holds all three votes |
| GossipReplies.AcceptedIff | jaios/social_ecosystem_chain/finality_gossip.py:295-402 | An announced vote set is accepted exactly when it comes from this peer, holds one well-formed vote of each of three endpoints that repeats the announcement, and lists names, vote hashes and certificate hash accordingly |
| GossipReplies.AcceptedVotesRebuild | jaios/social_ecosystem_chain/finality_gossip.py:295-402 | From acceptance alone: the announced votes, verified and in any order, end in exactly the announced certificate, signatures up to the machine's 4096 bytes |
| GossipReplies.HeaderErrorIff | jaios/social_ecosystem_chain/finality_gossip.py:295-350 | What an announcement is refused for before its votes are looked at, the first reason that applies |
| GossipReplies.VotesErrorIff | jaios/social_ecosystem_chain/finality_gossip.py:351-376 | What announced votes are refused for: a malformed one, then other voters, then one that diverges |
| GossipReplies.HashesRefusedIff | jaios/social_ecosystem_chain/finality_gossip.py:378-402 | What remains to refuse an announcement for: the vote hashes, then the certificate hash |
| GossipReplies.BuiltIff | jaios/social_ecosystem_chain/finality_gossip.py:257-293 | An announcement is built exactly when the cache holds one vote of each signer and of nobody else, at one time, and the head is the certified block; it then repeats certificate, head and votes |
| Base58.SymbolIsAlphabet | jaios/social_ecosystem_chain/interoperability.py:68-77 | Symbol values are positions in the alphabet |
| Base58.ByteCount | jaios/social_ecosystem_chain/interoperability.py:68-77 | Rounding the bit length up to bytes counts the base-256 digits |
| Base58.Base58Decode | jaios/social_ecosystem_chain/interoperability.py:68-77 | The loop computes the positional decoding, or fails on a foreign symbol |
| Base58.DecodeInvertsEncode | jaios/social_ecosystem_chain/interoperability.py:68-77 | Every byte string is decoded from its encoding |
| Base58.EncodeInvertsDecode | jaios/social_ecosystem_chain/interoperability.py:68-77 | Every alphabet string is the encoding of what it decodes to |
| Base58.DecodeIsBijective | jaios/social_ecosystem_chain/interoperability.py:68-77 | One-to-one from alphabet strings onto byte strings, leading ones to leading zero bytes |
| BridgeProtocols.BridgeProtocol.Create | jaios/social_ecosystem_chain/bridge_protocol.py:110-144 | Builds the protocol exactly for a valid policy |
| BridgeProtocols.BridgeProtocol.ObserveMessage | jaios/social_ecosystem_chain/bridge_protocol.py:146-157 | Records a valid new message |
| BridgeProtocols.BridgeProtocol.ApplyConfirmations | jaios/social_ecosystem_chain/bridge_protocol.py:159-169 | Raises confirmations and moves the record as specified |
| BridgeProtocols.BridgeProtocol.AttestMessage | jaios/social_ecosystem_chain/bridge_protocol.py:171-183 | Adds one relayer and moves the record as specified, also back from ready to attested |
| BridgeProtocols.BridgeProtocol.PrepareExecution | jaios/social_ecosystem_chain/bridge_protocol.py:185-192 | Makes an attested record ready if the daily limit allows |
| BridgeProtocols.BridgeProtocol.MarkExecuted | jaios/social_ecosystem_chain/bridge_protocol.py:194-201 | Counts the value and records the execution transaction, paused or not |
| BridgeProtocols.BridgeProtocol.RejectMessage | jaios/social_ecosystem_chain/bridge_protocol.py:203-209 | Rejects any record that is not executed |
| BridgeProtocols.BridgeProtocol.Pause | jaios/social_ecosystem_chain/bridge_protocol.py:211-212 | Sets the pause flag and nothing else |
| Bridge.RunKeepsInvariant | jaios/social_ecosystem_chain/bridge_protocol.py:146-212 | After any run: executed value is the sum over executed records, no two records share a source transaction or nonce, and a record that is not rejected is in its first two states exactly when attestations or confirmations are short |
| Bridge.ValueBound | jaios/social_ecosystem_chain/bridge_protocol.py:171-209 | Executed plus ready value never exceeds the daily limit plus (m - 1) per-transaction limits, m being the most records ready at once |
| BridgeAttained.BoundIsAttained | jaios/social_ecosystem_chain/bridge_protocol.py:171-209 | That bound is reached: after fresh messages worth the daily limit less one per-transaction limit, any m further fresh messages of the per-transaction limit can be ready at once |
| BridgeLimit.PrepareIsSafeIff | jaios/social_ecosystem_chain/bridge_protocol.py:185-192 | An accepted preparation leaves the daily limit safe exactly when executed, ready and new value together are within it |
| BridgeLimit.DailyLimitIff | jaios/social_ecosystem_chain/bridge_protocol.py:185-201 | Over runs, the daily limit is safe at every point if and only if every accepted preparation fitted beside what was ready |
| Bridge.DailyLimitWhenOneReady | jaios/social_ecosystem_chain/bridge_protocol.py:185-201 | With one record ready at a time the daily limit holds |
| BridgeOvershoot.DailyLimitCanBeExceeded | jaios/social_ecosystem_chain/bridge_protocol.py:185-201 | When two valid messages within the per-transaction limit are worth more than the daily limit together, a run executes both and exceeds it |
| Bridge.AdvanceMoves | jaios/social_ecosystem_chain/bridge_protocol.py:159-209 | Which moves between states are possible; only ready records execute |
| Bridge.ExecutedRecordsStay | jaios/social_ecosystem_chain/bridge_protocol.py:159-209 | An executed record never changes |
| BridgeReplies.WaitsExactlyWhilePending | jaios/social_ecosystem_chain/bridge_protocol.py:159-201 | Over all runs a record that is not rejected waits exactly while it has fewer attestations than the threshold or fewer confirmations than required; attestations are of distinct relayers of the policy |
| BridgeReplies.RecordedWasObserved | jaios/social_ecosystem_chain/bridge_protocol.py:146-157 | Over all runs a recorded message was on the route when an event of the run observed it |
| BridgeReplies.ObservedIff | jaios/social_ecosystem_chain/bridge_protocol.py:146-157 | A message is recorded exactly when it is on the route and its digest, source transaction and source nonce are new; it starts observed, and nothing else changes |
| BridgeReplies.ValidMessageIff | jaios/social_ecosystem_chain/bridge_protocol.py:218-243 | Which messages are on the route, field by field |
| BridgeReplies.ConfirmedIff | jaios/social_ecosystem_chain/bridge_protocol.py:159-169 | Confirmations are taken exactly from records that wait and never fall |
| BridgeReplies.AttestedIff | jaios/social_ecosystem_chain/bridge_protocol.py:171-183 | An attestation is counted exactly when it is of a relayer that has not attested, for this message, signed in form and verified |
| BridgeReplies.AttestationRefusedFor | jaios/social_ecosystem_chain/bridge_protocol.py:171-183 | Why an attestation is refused, the first reason that applies |
| BridgeReplies.UnknownIsRefused | jaios/social_ecosystem_chain/bridge_protocol.py:214-216 | An action on an unknown message is refused and changes nothing |
| BridgeReplies.PreparedIff | jaios/social_ecosystem_chain/bridge_protocol.py:185-192 | A record is made ready exactly when it is attested, the bridge runs and the value fits both limits |
| BridgeReplies.ExecutedIff | jaios/social_ecosystem_chain/bridge_protocol.py:194-201 | A record is executed exactly when it is ready and the transaction is a hash |
| BridgeReplies.RejectedIff | jaios/social_ecosystem_chain/bridge_protocol.py:203-209 | A record is rejected exactly when it is not executed and a reason is given, which is kept without space around it |
| TextForms.StripIs | jaios/social_ecosystem_chain/bridge_protocol.py:203-209 | Stripping takes the white space before and after, and no more |
| BridgeEventIndexers.BridgeEventIndexer.ValidatedEvents | jaios/social_ecosystem_chain/event_indexer.py:177-221 | The reported events in order of checks, refusing repeats |
| BridgeEventIndexers.BridgeEventIndexer.IngestBlock | jaios/social_ecosystem_chain/event_indexer.py:71-129 | One transaction on the tables does what one ingest does to the list, or leaves both tables as they were |
| BridgeEventIndexers.BridgeEventIndexer.PlaceBlock | jaios/social_ecosystem_chain/event_indexer.py:99-129 | Confirms a block that is there, refuses to replace a final one, and replaces what is not final |
| BridgeEventIndexers.BridgeEventIndexer.Replace | jaios/social_ecosystem_chain/event_indexer.py:100-129 | Truncates at the number and appends, or rolls back on a repeated hash or event |
| BridgeEventIndexers.BridgeEventIndexer.InsertOrRestore | jaios/social_ecosystem_chain/event_indexer.py:100-129 | Inserts, or puts both tables back on a repeated hash or event |
| BridgeEventIndexers.BridgeEventIndexer.Insert | jaios/social_ecosystem_chain/event_indexer.py:100-129 | Inserts block and events and marks what became final |
| BridgeEventIndexers.BridgeEventIndexer.RollbackFrom | jaios/social_ecosystem_chain/event_indexer.py:166-175 | Deletes blocks and, by cascade, events from a number up; its guard cannot fire |
| BridgeEventIndexers.BridgeEventIndexer.FinalizedEvents | jaios/social_ecosystem_chain/event_indexer.py:145-164 | Lists exactly the events of final blocks, in order of number and log index |
| EventIndex.RunKeepsInvariant | jaios/social_ecosystem_chain/event_indexer.py:71-175 | Blocks are contiguous from 0 and hash-linked, with no block hash and no event identity twice |
| EventIndex.FinalizedPartIsPermanent | jaios/social_ecosystem_chain/event_indexer.py:71-175 | What is final is a prefix that is never altered |
| EventIndex.FinalBlocksWereConfirmed | jaios/social_ecosystem_chain/event_indexer.py:71-129 | Each final block was made final by one ingest that observed the confirmations above it, and has not changed since |
| EventIndex.RefusedLeaveNoTrace | jaios/social_ecosystem_chain/event_indexer.py:71-129 | A history ends in the same index without its refused ingests, and without them nothing in it is refused |
| EventIndex.FinalizedEventsGrowAtEnd | jaios/social_ecosystem_chain/event_indexer.py:145-164 | Later listings of final events begin with a listing of the earlier ones |
| EventIndex.FinalizedEventsDetermined | jaios/social_ecosystem_chain/event_indexer.py:145-164 | When log indexes differ within each block that is final so far, the list of final events only grows at its end |
| EventIndex.ListingDeterminedIff | jaios/social_ecosystem_chain/event_indexer.py:145-164 | The list of final events is determined if and only if no two events of a final block share a log index |
| EventIndex.TiedEventsMaySwap | jaios/social_ecosystem_chain/event_indexer.py:145-164 | Two neighbours with equal number and log index may be listed either way |
| EventIndex.ReportedEventsTie | jaios/social_ecosystem_chain/event_indexer.py:71-129 | Two events of different transactions with one log index, reported in the first block, tie once it is final |
| EventIndex.TieIsReachable | jaios/social_ecosystem_chain/event_indexer.py:71-129 | Whatever the confirmations, one sound ingest into the empty index makes a final block with a tie |
| IngestExactly.AcceptedIff | jaios/social_ecosystem_chain/event_indexer.py:71-129 | An ingest is accepted exactly when its input is sound, its parent is there, and its block is there already or replaces nothing final and repeats no kept hash or event |
| IngestExactly.AcceptedLeaves | jaios/social_ecosystem_chain/event_indexer.py:99-129 | Then the blocks are as they were or cut at the number with the block put there, and final are as many as before or as have their confirmations observed, whichever is more |
| IngestExactly.RefusedIff | jaios/social_ecosystem_chain/event_indexer.py:99-129 | Why a sound ingest is refused |
| IngestExactly.ValidatedIff | jaios/social_ecosystem_chain/event_indexer.py:177-221 | The report is taken exactly when every event is sound and no two have one identity |
| IngestExactly.UnsoundIff | jaios/social_ecosystem_chain/event_indexer.py:82-98 | Why an unsound input is refused: hashes, height, parent, then the first event at fault |
| IngestExactly.ListingIff | jaios/social_ecosystem_chain/event_indexer.py:145-164 | A listing holds the events of final blocks, each once, by block and within a block by log index |
| TextForms.IndexHashIff | jaios/social_ecosystem_chain/event_indexer.py:214-221 | A hash here is 64 characters that form a number, with or without 0x |
| TextForms.ZeroHashIff | jaios/social_ecosystem_chain/event_indexer.py:85-86 | The parent of block 0 is 64 zeros, with or without 0x |
| TransactionPools.TransactionPool.AdmitTransaction | jaios/social_ecosystem_chain/mempool.py:87-121 | Admits, replaces or refuses exactly as specified |
| TransactionPools.TransactionPool.RemoveIncludedTransactions | jaios/social_ecosystem_chain/mempool.py:123-129 | Removes exactly the listed transactions that are pending |
| TransactionPools.TransactionPool.PruneTransactions | jaios/social_ecosystem_chain/mempool.py:131-143 | Keeps exactly what can still be included and lists the removed hashes in order |
| TransactionPools.TransactionPool.Executable | jaios/social_ecosystem_chain/mempool.py:155-170 | Finds every sender's executable head in whatever order senders are visited |
| TransactionPools.TransactionPool.Minimum | jaios/social_ecosystem_chain/mempool.py:170-180 | The best head by reward, then hash |
| TransactionPools.TransactionPool.Choose | jaios/social_ecosystem_chain/mempool.py:160-180 | The best executable head, if there is one |
| TransactionPools.TransactionPool.BuildCandidate | jaios/social_ecosystem_chain/mempool.py:145-191 | The greedy picks for the limit, with their gas and digest, whatever the order of senders |
| TransactionPools.TransactionPool.Fill | jaios/social_ecosystem_chain/mempool.py:157-180 | The loop takes exactly the greedy picks that fit the limit, and terminates |
| TransactionPools.TransactionPool.RestoreSnapshot | jaios/social_ecosystem_chain/mempool.py:213-268 | Restores or leaves the pool untouched |
| Mempool.RunKeepsInvariant | jaios/social_ecosystem_chain/mempool.py:87-143 | After any run the hash set is exactly the hashes of the stored transactions, all distinct, within both capacity bounds |
| Mempool.ReplacedMeansOutbid | jaios/social_ecosystem_chain/mempool.py:111-121 | An admission replaces exactly when the boundary passes, the hash is new and the old occupant is outbid |
| Mempool.ReplacementsCompound | jaios/social_ecosystem_chain/mempool.py:303-315 | After k replacements the fee has grown by (100 + b)^k / 100^k |
| Mempool.ReplacementsAreBounded | jaios/social_ecosystem_chain/mempool.py:271-315 | A balance B allows fewer than B / g replacements at intrinsic gas g |
| MempoolReplies.AdmittedIff | jaios/social_ecosystem_chain/mempool.py:87-121 | A transaction is admitted exactly when it is sound, verified, within the nonce gap, pays the base fee and is covered, is not pending, and has room or outbids by the bump; it takes its place and nothing else changes |
| MempoolReplies.UnfitIff | jaios/social_ecosystem_chain/mempool.py:271-301 | Why a transaction is not fit, the first reason that applies |
| MempoolReplies.RefusedIff | jaios/social_ecosystem_chain/mempool.py:87-121 | Why a fit transaction is refused: known, no bump on one of the fees, or no room |
| MempoolReplies.PrunedIff | jaios/social_ecosystem_chain/mempool.py:131-143 | Pruning keeps exactly what is neither consumed nor beyond the nonce gap and still offers the base fee |
| MempoolReplies.PrunedIffUnfit | jaios/social_ecosystem_chain/mempool.py:131-143 | Of what was fit once, pruning keeps exactly what a sender that can cover it would have admitted again |
| MempoolReplies.RemovedIff | jaios/social_ecosystem_chain/mempool.py:123-129 | Removal drops exactly the listed transactions that are pending |
| MempoolReplies.PendingWasAdmitted | jaios/social_ecosystem_chain/mempool.py:87-143 | Over runs, whatever is pending was admitted, verified and fit, by an event of the run |
| MempoolReplies.BumpedIff | jaios/social_ecosystem_chain/mempool.py:303-315 | A bump is the least fee that is at least the old one raised by the percentage |
| MempoolSnapshot.RestoreInvertsExport | jaios/social_ecosystem_chain/mempool.py:193-268 | Restoring an export succeeds exactly when every transaction still passes, and gives back the same pool |
| MempoolSnapshot.RestoredPoolIsConsistent | jaios/social_ecosystem_chain/mempool.py:213-268 | Whatever a snapshot holds, a restored pool is consistent |
| RestoreReplies.RestoredIff | jaios/social_ecosystem_chain/mempool.py:213-268 | A snapshot is restored exactly when the pool is empty, the snapshot genuine, and admission takes its transactions in turn, each under its own hash; nothing else is in the pool then |
| RestoreReplies.RefusedIff | jaios/social_ecosystem_chain/mempool.py:213-245 | Why a snapshot is refused before its transactions are looked at |
| Candidate.PicksInNonceOrder | jaios/social_ecosystem_chain/mempool.py:155-185 | Picks take each sender's nonces in turn from the account nonce, all pending and paying, and stop only when heads run out |
| Candidate.PicksArePrefix | jaios/social_ecosystem_chain/mempool.py:160-185 | Fewer picks are the beginning of more picks |
| Candidate.SelectionFillsTheBlock | jaios/social_ecosystem_chain/mempool.py:145-191 | The candidate stays within the limit, stops only for gas or heads, and is a prefix of that for any larger limit |
| Candidate.GreedyIsOptimal | jaios/social_ecosystem_chain/mempool.py:160-180 | If rewards never rise with the nonce, the first k picks earn at least any nonce-respecting k paying transactions |
| Candidate.GreedyCanLose | jaios/social_ecosystem_chain/mempool.py:160-180 | In any pool where a reward rises with the nonce and a preferred last transaction of another sender lies below the risen reward, at some account nonces the picks earn less than another selection |
| Candidate.GreedWinsIff | jaios/social_ecosystem_chain/mempool.py:160-180 | Greed wins at all account nonces and against every newcomer if and only if no reward rises with the nonce, given that rivals of equal reward and lower hash exist |
| TipsPaid.RewardIsCapped | jaios/social_ecosystem_chain/mempool.py:318-324 | The reward is the largest amount that exceeds neither the offered tip nor what the fee cap leaves above the base fee |
| TipsPaid.TipIsReward | jaios/social_ecosystem_chain/mempool.py:318-324 | The tip on a transaction's receipt is the intrinsic gas times the reward it was selected by |
| TipsPaid.GreedyBlockPaysMost | jaios/social_ecosystem_chain/mempool.py:145-191 | When rewards do not rise with the nonce, no block of pending transactions that executes at the candidate's base fee pays more in tips than the candidate's block |
| Kernel.BaseFeeFollowsUsage | jaios/social_ecosystem_chain/protocol_kernel.py:144-174 | The base fee rises, stays or falls with usage, is never below 1 and moves by at most one part in the denominator, or 1 |
| KernelReplies.NextBaseFeeIs | jaios/social_ecosystem_chain/protocol_kernel.py:144-174 | The exact next fee: the step is fee times gap over target times denominator, rounded down; up by it but at least 1, down by it but not below 1 |
| Kernel.ExecuteBlock | jaios/social_ecosystem_chain/protocol_kernel.py:177-266 | A block is refused for its accounts, its parent or its first refused transaction, and otherwise holds the fold of its transactions at the next base fee with state root and receipts |
| Kernel.ExecuteTransactions | jaios/social_ecosystem_chain/protocol_kernel.py:195-254 | The loop computes the fold of single transfers, or the first refusal |
| Kernel.ExecuteTransaction | jaios/social_ecosystem_chain/protocol_kernel.py:195-254 | One turn of the loop: the checks in order, the transfer and the receipt |
| Kernel.ReceiptsAddUp | jaios/social_ecosystem_chain/protocol_kernel.py:240-262 | The receipts account for all gas, burned fees and tips of the block |
| Kernel.StateRootCommits | jaios/social_ecosystem_chain/protocol_kernel.py:269-279 | Two account books have the same state root if and only if they are equal |
| Kernel.TransferMoves | jaios/social_ecosystem_chain/protocol_kernel.py:212-236 | What one transfer does to every account, including a payment to oneself |
| Kernel.ExecutesIff | jaios/social_ecosystem_chain/protocol_kernel.py:177-266 | A block executes if and only if a ledger told without running it allows each transaction, and then balances, nonces, gas, burn and receipts are the ledger's |
| TipsPaid.PriorityFeeIsCapped | jaios/social_ecosystem_chain/protocol_kernel.py:200-254 | The priority fee charged is the largest within tip and fee cap, and the receipt splits the price of the gas into the burned base fee and the tip |
| KernelReplies.TxErrorIff | jaios/social_ecosystem_chain/protocol_kernel.py:294-328 | Each fault of a transaction is reported exactly when it is the first one |
| KernelReplies.ApplyErrorIff | jaios/social_ecosystem_chain/protocol_kernel.py:200-236 | Why a sound transaction does not run where the block stands |
| KernelReplies.FirstRefusal | jaios/social_ecosystem_chain/protocol_kernel.py:195-254 | A block is refused for the reason of its first transaction that does not run |
| KernelReplies.BlockIff | jaios/social_ecosystem_chain/protocol_kernel.py:177-266 | When a block runs, what it says, and otherwise the first reason against it |
| TextForms.AddressIff | jaios/social_ecosystem_chain/protocol_kernel.py:331-338 | An address is 0x and 40 characters that form a number |
| Conservation.BlockSupply | jaios/social_ecosystem_chain/protocol_kernel.py:212-254 | Supply after, plus burned and tips, is supply before plus what payments to oneself were forgiven |
| Conservation.ConservedIff | jaios/social_ecosystem_chain/protocol_kernel.py:177-266 | A block conserves money if and only if nobody in it pays itself; it never destroys money |
| Conservation.ChainConserves | jaios/social_ecosystem_chain/protocol_kernel.py:177-266 | The same over any chain of blocks |
| Conservation.RunsAtMostOnce | jaios/social_ecosystem_chain/protocol_kernel.py:200-236 | On any chain, a sender's nonces strictly rise past each transaction that is not a payment to oneself |
| Conservation.SelfPaymentCreatesMoney | jaios/social_ecosystem_chain/protocol_kernel.py:212-236 | Under every configuration and base fee there is a block with a payment to oneself that executes and creates money |
| Conservation.RunsAgainIff | jaios/social_ecosystem_chain/protocol_kernel.py:200-236 | A transaction of a block can run again at the next base fee if and only if it is still sound and covered and from it on its sender has only paid itself |
| Conservation.LoneRunsAgainIff | jaios/social_ecosystem_chain/protocol_kernel.py:200-236 | Alone and at an unchanged base fee, exactly a payment to oneself runs again |
| BlockProduction.ExecuteCandidate | jaios/social_ecosystem_chain/node_pipeline.py:68-115 | Runs the pool's candidate for the head, or reports the kernel's refusal |
| BlockProduction.CandidateExecutesIff | jaios/social_ecosystem_chain/node_pipeline.py:82-93 | A candidate executes exactly when each transaction is sound at the base fee, verified, covered, and follows no payment of its sender to itself; nonces, duplicates and gas never fail |
| BlockProduction.NeverPricedOut | jaios/social_ecosystem_chain/node_pipeline.py:82-93 | After a block at or under the target every pick pays the next base fee |
| BlockProduction.PricedOut | jaios/social_ecosystem_chain/node_pipeline.py:82-93 | In any pool, one pick below the next base fee refuses the whole block |
| BlockProduction.PricedOutIff | jaios/social_ecosystem_chain/node_pipeline.py:82-93 | Sound transactions can be admitted to a pool with such a pick if and only if the head's block was over the target |
| BlockProduction.LonePricedOut | jaios/social_ecosystem_chain/node_pipeline.py:82-93 | After a block over the target a lone transaction that offers the head's base fee is picked and its block refused for the fee |
| Overspending.OverspendingIff | jaios/social_ecosystem_chain/node_pipeline.py:82-93 | Two successive transactions of one sender to others, each covered alone, are admitted and picked together; their block is refused for balance if and only if their debits together exceed it |
| Overspending.CandidateCanOverspend | jaios/social_ecosystem_chain/node_pipeline.py:82-93 | After a block at the target two sound transactions are admitted into an empty pool, picked together, and their block refused for balance |
| BlockProduction.IncludedLeave | jaios/social_ecosystem_chain/node_pipeline.py:117-136 | Once a block is final exactly its transactions have left the pool |
| NativeTokenGenesis.ReadAllocations | jaios/social_ecosystem_chain/native_token_genesis.py:1705-1728 | Accounts in normal form, or nothing if one is malformed or repeats an address |
| NativeTokenGenesis.ReadMilestones | jaios/social_ecosystem_chain/native_token_genesis.py:2109-2132 | Milestones in normal form, or nothing if one departs from the fixed plan or claims a gate that has not passed |
| GenesisPlan.ReadyIff | jaios/social_ecosystem_chain/native_token_genesis.py:461-479 | A plan whose gates match its approvals is ready exactly when every gate has passed |
| GenesisPlan.CompletedMeansReady | jaios/social_ecosystem_chain/native_token_genesis.py:2075-2132 | A plan whose milestones are all completed is ready |
| GenesisPlan.MissedTargetIsOverdue | jaios/social_ecosystem_chain/native_token_genesis.py:481-497 | Past the target date a plan that is not ready always has an overdue milestone, and a plan on track has none |
| GenesisReplies.BlockersAre | jaios/social_ecosystem_chain/native_token_genesis.py:461-479 | Each blocker is listed exactly when there is something behind it, and a gate exactly when it has not passed |
| GenesisReplies.ScheduleIs | jaios/social_ecosystem_chain/native_token_genesis.py:481-497 | Where a valid plan stands on a day, each state exactly when it applies |
| GenesisReplies.PlanValidIff | jaios/social_ecosystem_chain/native_token_genesis.py:1388-1474 | A plan is valid exactly when it is clean, its sections are valid, the first three gates have passed exactly where the sections are locked, and it keeps the seven milestones |
| GenesisReplies.BodyCleanIff | jaios/social_ecosystem_chain/native_token_genesis.py:1395-1398 | No free text of a valid plan holds the name of a secret |
| GenesisReplies.CleanIff | jaios/social_ecosystem_chain/native_token_genesis.py:898-902 | Such names are recognized anywhere in a text and in letters of any case |
| GenesisReplies.GatesFollowLocks | jaios/social_ecosystem_chain/native_token_genesis.py:2075-2106 | In a valid plan each of the first three gates has passed exactly when its section is locked, and sections lock in order |
| GenesisReplies.MilestoneValidIff | jaios/social_ecosystem_chain/native_token_genesis.py:2109-2132 | Which milestones are valid; a completed one has all its gates passed |
| GenesisReplies.TermsValidIff | jaios/social_ecosystem_chain/native_token_genesis.py:1664-1702 | Which terms are valid, field by field |
| GenesisReplies.SymbolIff | jaios/social_ecosystem_chain/native_token_genesis.py:1664-1702 | A symbol is two to ten capitals and digits, a capital first |
| GenesisReplies.AccountsValidIff | jaios/social_ecosystem_chain/native_token_genesis.py:1705-1728 | Accounts are valid exactly when each is and no two addresses are the same but for capitals |
| GenesisReplies.CustodyValidIff | jaios/social_ecosystem_chain/native_token_genesis.py:1919-1960 | Which custody is valid; locked custody has three custodians, a threshold of two or more of them, and evidence |
| GenesisReplies.EconomicsValidIff | jaios/social_ecosystem_chain/native_token_genesis.py:1731-1796 | Economics are open without an approval, or locked, complete and approved by digest |
| GenesisReplies.AllocationsValidIff | jaios/social_ecosystem_chain/native_token_genesis.py:1799-1916 | Allocations are open, or locked on locked economics, ordered, adding up to the supply and approved with them |
| GenesisReplies.SafekeepingValidIff | jaios/social_ecosystem_chain/native_token_genesis.py:1963-2072 | Custody is open, or locked on both, ordered and approved with them |
| GenesisReplies.TextValidIff | jaios/social_ecosystem_chain/native_token_genesis.py:2153-2157 | A text is valid exactly when something is left of it without the white space around it, and not too much |
| GenesisReplies.AddressValidIff | jaios/social_ecosystem_chain/native_token_genesis.py:2216-2222 | An account address is 0x and 40 base-16 digits, not all zero |
| GenesisCandidate.ReadyIsCanonical | jaios/social_ecosystem_chain/native_token_genesis.py:701-720 | In a ready plan everything is approved and already in order, so sorting changes nothing |
| GenesisCandidate.CompiledIsValid | jaios/social_ecosystem_chain/native_token_genesis.py:701-754 | The compiled candidate of a valid ready plan passes the independent checks |
| GenesisCandidate.AcceptsIffCompiled | jaios/social_ecosystem_chain/native_token_genesis.py:1477-1586 | The checker bound to a valid plan accepts exactly the compiled candidate, and only if the plan is ready |
| GenesisCandidate.AcceptedAllotsTheSupply | jaios/social_ecosystem_chain/native_token_genesis.py:1889-1970 | An accepted candidate allots distinct ordered addresses, positive amounts summing to the supply, and enough distinct custodians |
| GenesisUnbound.UnboundIff | jaios/social_ecosystem_chain/native_token_genesis.py:1477-1586 | A candidate in normal form passes the checker without a plan if and only if it is what the compiler makes of some valid plan that is ready, apart from the digest it names as its source |
| GenesisUnbound.AcceptedComesFromPlan | jaios/social_ecosystem_chain/native_token_genesis.py:1477-1586 | Whatever the checker accepts without a plan comes from a plan once it is put into normal form |
| NativeTokenGenesis.MarkMilestone | jaios/social_ecosystem_chain/native_token_genesis.py:1162-1166 | Marks the first milestone of the name |
| NativeTokenGenesis.ApplyEconomicsDecision | jaios/social_ecosystem_chain/native_token_genesis.py:1118-1168 | Updates a copy of the plan, or refuses |
| NativeTokenGenesis.ApplyAllocationDecision | jaios/social_ecosystem_chain/native_token_genesis.py:1171-1259 | Updates a copy of the plan, or refuses |
| NativeTokenGenesis.ApplyCustodyDecision | jaios/social_ecosystem_chain/native_token_genesis.py:1262-1385 | Updates a copy of the plan, or refuses |
| GenesisDecisions.EvaluatedEconomicsIsSound | jaios/social_ecosystem_chain/native_token_genesis.py:890-950 | A checked economics decision is in normal form and complete |
| GenesisDecisions.EvaluatedAllocationsIsSound | jaios/social_ecosystem_chain/native_token_genesis.py:953-1036 | A checked allocation decision is canonical and adds up |
| GenesisDecisions.EvaluatedCustodyIsSound | jaios/social_ecosystem_chain/native_token_genesis.py:1039-1115 | A checked custody decision is locked and canonical |
| GenesisDecisions.EconomicsAppliesIff | jaios/social_ecosystem_chain/native_token_genesis.py:1118-1168 | A sound decision applies if and only if the plan is valid and the decision fits; the last check never refuses |
| GenesisDecisions.AllocationsApplyIff | jaios/social_ecosystem_chain/native_token_genesis.py:1171-1259 | The same for allocations |
| GenesisDecisions.CustodyAppliesIff | jaios/social_ecosystem_chain/native_token_genesis.py:1262-1385 | The same for custody |
| GenesisReplies.EconomicsAppliedIff | jaios/social_ecosystem_chain/native_token_genesis.py:1118-1168 | A sound economics decision applies to a valid plan exactly when it keeps the terms that are filled in and the approval if there is one; what it leaves |
| GenesisReplies.AllocationsAppliedIff | jaios/social_ecosystem_chain/native_token_genesis.py:1171-1259 | A sound allocation decision applies exactly when economics have passed, it is about them and their whole supply, and it keeps what is there; what it leaves |
| GenesisReplies.CustodyAppliedIff | jaios/social_ecosystem_chain/native_token_genesis.py:1262-1385 | A sound custody decision applies exactly when both gates have passed, it is about both, and it keeps what is there; what it leaves |
| GenesisReplies.EconomicsEvaluatedIff | jaios/social_ecosystem_chain/native_token_genesis.py:890-950 | Which documents are economics decisions |
| GenesisReplies.AllocationsEvaluatedIff | jaios/social_ecosystem_chain/native_token_genesis.py:953-1036 | Which documents are allocation decisions |
| GenesisReplies.CustodyEvaluatedIff | jaios/social_ecosystem_chain/native_token_genesis.py:1039-1115 | Which documents are custody decisions |
| GenesisDecisions.EconomicsIdempotent | jaios/social_ecosystem_chain/native_token_genesis.py:1118-1168 | Applying the same decision again changes nothing |
| GenesisDecisions.AllocationsIdempotent | jaios/social_ecosystem_chain/native_token_genesis.py:1171-1259 | Applying the same decision again changes nothing |
| GenesisDecisions.CustodyIdempotent | jaios/social_ecosystem_chain/native_token_genesis.py:1262-1385 | Applying the same decision again changes nothing |
| GenesisDecisions.DecisionsStayInTheirSection | jaios/social_ecosystem_chain/native_token_genesis.py:1118-1385 | Each decision changes its own section, gate and milestone only |
| GenesisDecisions.DecisionsInOrder | jaios/social_ecosystem_chain/native_token_genesis.py:1182-1288 | Allocations are refused before economics, and custody before both |
| GenesisDecisions.OnlyOtherGatesBlock | jaios/social_ecosystem_chain/native_token_genesis.py:1118-1385 | After all three decisions only the other gates that had not passed can block |
| GenesisDecisions.DecidedPlanCompiles | jaios/social_ecosystem_chain/native_token_genesis.py:701-754 | With every gate passed, the decided plan compiles to an accepted candidate that holds exactly what was decided |

## Left out

- Sockets, threads, locks, retries and liveness of gossip: I/O; votes are marked seen before they are processed, so delivery is not decided by this code.
- `get_certificate` and the listing of equivocations in `finality.py`: plain reads.
- The 128-byte bound on validator identities in `finality.py`: a flat field check.
- State persistence (`state_store.py`), the validator node and the HTTP surface: not modelled; the pipeline takes head and accounts as parameters.
- `ValidatorSetSchedule` and `CertifiedFinalityVerifier` in `sync_finality.py`: the certificate it rebuilds is covered by `Gossip.AcceptedSetRebuildsCertificate`.
- The status field of receipts, which is constant.
- Candidate.GreedWinsIff: its converse assumes that for every pending paying transaction some new sender's transaction has the same reward and a lower hash; the hash function is uninterpreted.
- Decision packets, evidence records and display strings of the Genesis plan: static renderings.
- JSON text, regular expressions and date parsing: replaced by datatypes as listed under Assumptions.
- Static evidence, readiness, architecture and release checkers: flat field checks.
- Development signer and liveness loop: test stand-ins.
- BridgeEventIndexers.BridgeEventIndexer.FinalizedEvents: states every listing in the required order rather than one list, because the query leaves ties open.
- SigningJournal.NeverDoubleSigns: covers failures of signer and verifier and crashes around the commit, not the corruption of a database file between opens.
- Agreement.AgreementPerHeight: needs one round per height, because per height alone it is false; `AgreementExactly.AgreementPerHeightIff` has the exact condition.
- AgreementExactly.AgreementPerRoundIff, AgreementExactly.AgreementPerHeightIff: for committees whose names the journal takes; `AgreementExactly.DisagreementIff` is for any names.
- BridgeAttained.BoundIsAttained: takes the messages as given, because there are only finitely many transaction hashes to make them fresh with.
