# Verified models of arags

Dafny models of the parts of arags (a retrieval server with a volunteer network) that carry
hard promises, and proofs of those promises. `dafny verify dfyconfig.toml` checks everything.

| files | subject |
|---|---|
| `Clique`, `Similarity`, `Publish`, `TrustOrder`, `Consensus`, `Quorums`, `Seats` | one quorum round: the search for the best agreeing set, the choice of the published text and what trust does to it, the Byzantine bound, when accepted sets meet, who is left out |
| `QuorumState`, `QuorumEngine`, `QuorumRounds`, `QuorumPublished`, `QuorumRuns`, `QuorumStage`, `QuorumFanOut`, `QuorumCap`, `QuorumLedger`, `QuorumVotes`, `QuorumWitnesses` | the quorum engine over whole runs: submissions, slots, strikes, trust, exclusions, re-fan-outs, with any storage call failing |
| `Wildcard`, `PathMatch`, `Walk` | ignore and force patterns of the indexer, and its pruning walk |
| `Gitignore`, `Discover` | the client's `.gitignore` matcher, and its walk with an explicit stack |
| `Utf8`, `Utf8Text`, `Chunker`, `ChunkCuts`, `Windows` | cutting text into chunks, by tokens and by bytes |
| `StripCot`, `StripOutput`, `ChunkedBody` | the chain-of-thought stripper and the HTTP chunked decoder |
| `EmbedCache`, `Reconcile`, `Bootstrap`, `DerivedRuns` | embeddings and vector spaces derived from canonical text |
| `Rrf`, `Budget` | rank fusion and the token budget |
| `Lists`, `Segments`, `WhiteSpace`, `Wrappers` | shared vocabulary |

How the code becomes Dafny. Loops and updates in place are methods and classes, each proved
against a specification function or a relation about which the theorems are then proved.
`f32` and `f64` are exact reals (in the cache: bit patterns); `sqrt` is any function that
returns the non-negative root; the tokenizer is any function that is zero exactly on the
empty text; SHA-256 is any injective function. Calls that can fail (SQLite, the embedder, the
vector index) fail nondeterministically, unless the object is marked reliable, or as a parameter
says, at every place where the code handles a failure. SQL queries return their rows in an arbitrary order where no order is
asked for. A run of the quorum is a run of one subject; what decisions on other subjects do to the
trust table, which all share, are events of it. The file system is a finite tree, a project's canonical rows are a map.

## Where the code differs from what is written about it

- The accepted agreeing set need not be unique: an honest candidate can lose its seat to a
  malicious one (`HonestCandidateCanLoseItsSeat`; exactly when: `SeatIsLostIff`). Sets accepted
  among n candidates need not share an honest member, unless n is at most 3 or 1 more than a
  multiple of 3 (`FanOutMeetsIff`).
- Trust is a factor of the score, not the first criterion (`TrustIsNotTheFirstCriterion`; exactly
  when it comes first: `TrustIsFirstIff`, `LongestTrustIsFirstIff`).
- A subject with an accepted submission is decided again when new candidates are pending
  (`DecisionActsIff`, `AcceptedSubjectIsDecidedAgain`).
- A volunteer can have two candidates pending, after a finished group was enqueued again with a
  candidate pending or handed in, or a rejection was not written. A ban does not prevent it, since
  other subjects can lift it (`ReEnqueueLetsAVolunteerVoteTwice`,
  `LiftedBanLetsAVolunteerVoteTwice`, `HandedInVotesTwice`,
  `FailedRejectionLetsAVolunteerVoteTwice`; exactly when: `ReEnqueueIsSafeIff`,
  `DecisionIsSafeIff`).
- Strikes are taken back on acceptance, so they count rejections only up to that
  (`StrikesAreExact`); the cap on re-fan-outs does not bind while the generation cannot be read,
  unless it is 0 (`EveryRoundIsReached`, `CapHoldsIff`), and cancellations use it up without a
  re-fan-out (`CancelsUseUpTheCap`).
- A force-included file below an ignored directory may never be reached
  (`ForcedFileCanBePruned`).
- A `.gitignore` rule for directories only does not match the files beneath them; the walk
  leaves them out because it does not enter the directory (`RuleMatchesMeaning`).
- With `max_tokens == 0` the hard split does not advance (`HardCutAdvancesIff`); with
  `max_chunk_bytes < 100` the window loop can run for ever (`ProgressesOnAllFilesIff`).
- The recorded line numbers drift by one line a window (`RecordedLineDrifts`), and the
  estimate counts one chunk for an empty file, which has none (`CountBounds`).
- Stripped output can hold a tag glued together from its surroundings (`StrippedTextCanHoldTag`;
  exactly when: `OutputHasTagIff`).
- The chunked decoder does not look at the two bytes behind each chunk, so of a trailer
  section it takes the first two bytes and leaves the rest (`DecodingInvertsCoding`).
- `processed` of a reconcile report includes rows whose marker could not be taken off.
- Reconcile passes repair marked rows only. A rebuild that stops half-way or goes on after
  failures leaves unmarked rows without vectors (`RebuildIsSyncedIff`, `RebuiltIsSyncedIff`), and
  so does a quorum decision whose node vector cannot be stored, which marks nothing
  (`StoringStaysInStepIff`, `StoringCanLeaveAGap`). Such a gap lasts until a rebuild
  (`GapsLast`), and a space whose size is right by accident is not rebuilt (`BootstrapChunks`,
  `RightSizeCanBeWrong`).

## Model

| member | source | states |
|---|---|---|
| `Clique.BestAgreeingClique` | crates/arags-server/src/quorum.rs:594-625 | the bitmask search returns exactly the best agreeing set: an agreeing list no agreeing list is preferred to (larger first, then stronger weakest pair, then the earlier mask), or the empty list |
| `Clique.SweepMasks` | crates/arags-server/src/quorum.rs:600-624 | the loop over the masks 1 up to 2^n computes the sweep |
| `Clique.WeighPairs` | crates/arags-server/src/quorum.rs:607-617 | the two inner loops decide whether every pair agrees and find the weakest similarity |
| `Clique.MaskDenotesSet` | crates/arags-server/src/quorum.rs:600-603 | every strictly increasing index list has a mask below 2^n that denotes it, so the sweep misses no set |
| `Clique.SetDeterminesMask` | crates/arags-server/src/quorum.rs:600-603 | and every mask is the mask of the set it denotes: masks and sets correspond one to one |
| `Clique.MembersAreTheBits` | crates/arags-server/src/quorum.rs:602 | the members of a mask are its set bits, in increasing order |
| `Clique.WeakestMeaning` | crates/arags-server/src/quorum.rs:607-617 | the weakest similarity of a set is attained by one of its pairs and no pair is weaker |
| `Clique.SweepFindsBestClique` | crates/arags-server/src/quorum.rs:591-625 | the complete sweep is preferred to or equal to every agreeing set of any size |
| `Clique.EmptyIffNoPairAgrees` | crates/arags-server/src/quorum.rs:591-625 | the search comes back empty if and only if no pair reaches the threshold |
| `Clique.BestCliqueIsUnique` | crates/arags-server/src/quorum.rs:591-625 | the promise of the search names exactly one list |
| `Similarity.CosineSymmetric` | crates/arags-search/src/qa_cache.rs:12-23 | the similarity of two vectors does not depend on their order |
| `Similarity.CosinePositive` | crates/arags-search/src/qa_cache.rs:12-23 | the cosine is positive if and only if the dot product is |
| `Similarity.DotIsSum` | crates/arags-search/src/qa_cache.rs:16 | the dot product is the sum of the products of the components |
| `Similarity.DotIsBounded` | crates/arags-search/src/qa_cache.rs:16-22 | the inequality of Cauchy and Schwarz |
| `Similarity.CosineMeaning` | crates/arags-search/src/qa_cache.rs:12-23 | the cosine times both norms is the dot product, so the clamp never binds; it is 0 for vectors of different length and for zero vectors |
| `Similarity.Centroid` | crates/arags-server/src/quorum.rs:628-641 | the in-place accumulation computes the mean of the agreeing vectors |
| `Similarity.CentroidIsMean` | crates/arags-server/src/quorum.rs:628-641 | in each dimension the centroid is the mean of the agreeing vectors, and of them alone |
| `Similarity.CentroidPointsAtMembers` | crates/arags-server/src/quorum.rs:628-641 | if all pairs of the agreeing set have positive cosine, every member has a positive dot product with the centroid |
| `Publish.ChoosePublished` | crates/arags-server/src/quorum.rs:652-687 | the loop returns index 0 for an empty set, else the earliest member that no other member outscores |
| `Publish.ByteLengthIsEncoded` | crates/arags-server/src/quorum.rs:663-668 | the length that the longest strategy compares is the number of bytes of the UTF-8 code |
| `Publish.WeightOfTrust` | crates/arags-server/src/quorum.rs:677-680 | an author without a record or with trust 1 keeps the base, trust 0 or less halves it, and in between it grows evenly |
| `Publish.PublishedIsUnique` | crates/arags-server/src/quorum.rs:652-687 | the published index is determined by the round |
| `Publish.TrustHelpsIffBasePositive` | crates/arags-server/src/quorum.rs:666-683 | of two members with the same base the more trusted one scores higher if and only if the base is positive |
| `Publish.TrustNeverInverts` | crates/arags-server/src/quorum.rs:652-687 | with a positive threshold trust never inverts the ranking under the centroid strategies |
| `Consensus.QuorumHasHonestSupport` | crates/arags-server/src/quorum.rs:158-179 | with at most f malicious candidates an accepted set holds f + 1 honest members, and each of its members is honest or similar to all of those |
| `Consensus.HonestAgreementIsAccepted` | crates/arags-server/src/quorum.rs:158-179 | if n >= 2 and the honest candidates agree pairwise the decision is to accept, and honest members outnumber malicious ones |
| `Quorums.AcceptableIff` | crates/arags-server/src/quorum.rs:158-179 | the sets a decision on m candidates can accept in some round of vectors are exactly those of at least max(2, 2f + 1) members |
| `Quorums.QuorumsMeetIff` | crates/arags-server/src/quorum.rs:158-179 | any two such sets share f + 1 members if and only if m <= 3f + 1, or f = 0 and m <= 3 |
| `Quorums.FanOutMeetsIff` | crates/arags-server/src/quorum.rs:158-179 | among exactly n candidates they do if and only if n <= 3 or n leaves remainder 1 when divided by 3 |
| `Seats.HonestKeepTheirSeats` | crates/arags-server/src/quorum.rs:158-179 | honest candidates that agree pairwise are all accepted if each malicious one agrees with all of them or fails with more of them than there are malicious ones |
| `Seats.SomeSeatIsLostIff` | crates/arags-server/src/quorum.rs:158-179 | when the honest candidates agree pairwise, for any malicious ones: an honest one is left out if and only if some group of them that agree, put in the place of the honest ones it misses, ranks at least as high as every group that misses none together with all the honest ones |
| `Seats.SeatIsLostIff` | crates/arags-server/src/quorum.rs:158-179 | with one malicious candidate an honest one is left out if and only if the malicious one agrees with all the other honest ones, not with this one, and the swapped set ranks higher |
| `Seats.HonestCandidateCanLoseItsSeat` | crates/arags-server/src/quorum.rs:158-179 | the accepted set is not unique: four vectors, f = 1, honest candidates that agree, and a quorum that leaves an honest one out for the malicious one |
| `TrustOrder.LessTrustedWinsIff` | crates/arags-server/src/quorum.rs:666-683 | of two members the less trusted one scores higher if and only if its base exceeds the other one's by more than the ratio of the weights |
| `TrustOrder.TrustIsFirstIff` | crates/arags-server/src/quorum.rs:652-687 | in a round a most trusted author is published if and only if some most trusted member's base withstands every less trusted one by that ratio |
| `TrustOrder.LongestTrustIsFirstIff` | crates/arags-server/src/quorum.rs:242-252 | when the longest text is published, a most trusted author is published for every choice of texts if and only if all agreeing authors are trusted equally |
| `TrustOrder.TrustIsNotTheFirstCriterion` | crates/arags-server/src/quorum.rs:242-252 | the comment that trust comes first and closeness breaks ties is wrong under every strategy: two vectors that agree, and the less trusted author is published |
| `QuorumEngine.SubjectStore.RecordStrike` | crates/arags-storage/src/sqlite/submissions.rs:227-252 | adds one strike, decays the trust, and touches no other author |
| `QuorumEngine.SubjectStore.BumpTrustOnAccept` | crates/arags-storage/src/sqlite/submissions.rs:262-281 | lifts the trust, takes one strike back, and touches no other author |
| `QuorumEngine.SubjectStore.EnqueueRlmJob` | crates/arags-storage/src/sqlite/rlm/jobs.rs:46-138 | the three cases of the enqueue: fresh slots, a live group left alone, a new generation with or without a new group and exclusions; returns the generation and whether the subject is new |
| `QuorumEngine.SubjectStore.InsertSubmission` | crates/arags-storage/src/sqlite/submissions.rs:58-90 | appends a candidate under the next id and changes no other row |
| `QuorumEngine.SubjectStore.ReassignOnDivergence` | crates/arags-server/src/quorum.rs:432-589 | the re-fan-out with both caps, also when generation and roster cannot be read |
| `QuorumEngine.SubjectStore.RejectEveryone` | crates/arags-server/src/quorum.rs:181-203 | the loop of the branch without a quorum |
| `QuorumEngine.SubjectStore.MarkRound` | crates/arags-server/src/quorum.rs:285-325 | the loop of the branch with a quorum, whatever call fails for whichever row |
| `QuorumEngine.SubjectStore.ChooseWinner` | crates/arags-server/src/quorum.rs:242-252 | scores the agreeing answers and returns the position of the published one |
| `QuorumEngine.SubjectStore.PublishAndMark` | crates/arags-server/src/quorum.rs:227-325 | publishes the chosen text under its author and then marks the rows, or stops with nothing changed when trust or publish fails |
| `QuorumEngine.SubjectStore.DecideRlmQuorum` | crates/arags-server/src/quorum.rs:73-397 | the whole decision, on every path and under every combination of failures, is the specification function the theorems below are about |
| `QuorumState.AgreedIsARound` | crates/arags-server/src/quorum.rs:167-173 | the agreeing set is a list of positions in the pending rows |
| `QuorumRounds.MarkRowsKeeps` | crates/arags-server/src/quorum.rs:285-325 | marking changes nothing but the named rows and the standing |
| `QuorumRounds.MarkRowsSettles` | crates/arags-server/src/quorum.rs:285-325 | each named row is settled according to membership, unless its first call fails |
| `QuorumRounds.MarkRowsReportsAll` | crates/arags-server/src/quorum.rs:285-325 | when calls work each row is reported exactly once |
| `QuorumRounds.MarkRowsReportsTruly` | crates/arags-server/src/quorum.rs:285-325 | whatever fails, only rows that are in the set (outside it) and whose calls worked are reported accepted (rejected) |
| `QuorumRounds.DivergersAreTheRejected` | crates/arags-server/src/quorum.rs:196-202 | the divergers are exactly the authors of the rejected rows |
| `QuorumRounds.DecideExtends` | crates/arags-server/src/quorum.rs:73-397 | a decision alters no text, no author and no decided status, and drops no published revision, whatever fails |
| `QuorumRounds.MarkedRoundSplits` | crates/arags-server/src/quorum.rs:285-325 | a marked round is split into accepted and rejected, and nothing stays pending |
| `QuorumRounds.DecisionSplitsBatch` | crates/arags-server/src/quorum.rs:73-397 | a decision splits its batch exactly, publishes the text of an accepted submission under its author, or rejects all and publishes nothing |
| `QuorumRounds.DecisionActsIff` | crates/arags-server/src/quorum.rs:61-137 | a decision acts if and only if enough answers are pending; an earlier accepted submission does not stop it, against the documentation |
| `QuorumRounds.DecidingTwiceIsDecidingOnce` | crates/arags-server/src/quorum.rs:97-126 | deciding again right away changes nothing |
| `QuorumPublished.RoundIsThePending` | crates/arags-server/src/quorum.rs:80-150 | a decision reads the text, author and embedding of every pending row, oldest first, and each author's trust on record, full for a newcomer |
| `QuorumPublished.RoundComparesThePending` | crates/arags-server/src/quorum.rs:149-156 | and the cosine of every two of the embeddings |
| `QuorumPublished.AgreedIsTheBest` | crates/arags-server/src/quorum.rs:167-173 | the agreeing set is the best agreeing list of the pending rows, or the oldest row when one answer is asked for |
| `QuorumPublished.DecisionPublishesTheBest` | crates/arags-server/src/quorum.rs:242-280 | with a quorum, unless reading trust or publishing fails, the decision publishes text and author of the pending row that is the earliest member of the agreeing set no other member outscores |
| `QuorumPublished.ChosenIsUnique` | crates/arags-server/src/quorum.rs:242-252 | there is one such text and author |
| `QuorumPublished.DecisionPublishesIff` | crates/arags-server/src/quorum.rs:176-280 | and only then anything is published |
| `QuorumPublished.SoleAnswerIsChosen` | crates/arags-server/src/quorum.rs:167-173 | when one answer is asked for, the oldest pending one is published |
| `QuorumPublished.DecisionSettlesTheRows` | crates/arags-server/src/quorum.rs:181-325 | every row of the agreeing set is accepted and every other one rejected, and exactly the rows whose calls both worked are reported as such |
| `QuorumPublished.IdleDecisionReports` | crates/arags-server/src/quorum.rs:97-126 | with nothing pending a decision changes nothing and reports the oldest accepted text |
| `QuorumPublished.EveryRevisionWasChosen` | crates/arags-server/src/quorum.rs:73-397 | over every run, revision number i was the best answer of the round that some decision of the run found with i revisions published before, by the trust then on record |
| `QuorumFanOut.ReFanOutIff` | crates/arags-server/src/quorum.rs:432-589 | a decision is followed by a re-fan-out if and only if enough answers are in and embedded without a quorum, no slot is open, the enqueue works, every generation is below the limit, and nobody diverged, fewer than n volunteers are on record, or one on record has fewer strikes than the limit and did not diverge; when generation and roster cannot be read, a limit above 0 is enough |
| `QuorumFanOut.ReFanOutOpens` | crates/arags-server/src/quorum.rs:549-571 | it opens n pending slots of the next generation, in a group no subject had before, from which those who diverged are excluded and nobody else; the old group when nobody is known to have diverged |
| `QuorumRuns.RunExtends` | crates/arags-server/src/quorum.rs:73-397 | over every run decided statuses are final and nothing recorded is lost |
| `QuorumRuns.PublishedWasSubmitted` | crates/arags-server/src/quorum.rs:252-280 | over every run each published revision is the text of a submission by its named author |
| `QuorumRuns.MarkedRoundFrame` | crates/arags-server/src/quorum.rs:285-325 | marking a round leaves slots, exclusions and counters alone |
| `QuorumRuns.ReFanOutsAreCapped` | crates/arags-server/src/quorum.rs:498-511 | over every run a subject is re-fanned-out at most strikes_limit times, plus once per unreadable generation |
| `QuorumRuns.ReadableCapHolds` | crates/arags-server/src/quorum.rs:498-511 | if the roster can always be read the cap is strikes_limit |
| `QuorumCap.EveryRoundIsReached` | crates/arags-server/src/quorum.rs:493-511 | for every number k, and any texts without a quorum, a run from the empty store with k re-fan-outs: up to the limit in which nothing fails, beyond it in which only generation and roster cannot be read |
| `QuorumCap.CapHoldsIff` | crates/arags-server/src/quorum.rs:493-511 | no run whatever re-fans out more than strikes_limit times if and only if the limit is 0 or no texts can be without a quorum |
| `QuorumFanOut.CancelsUseUpTheCap` | crates/arags-storage/src/sqlite/rlm/jobs.rs:178-222 | cancellations count against the cap: a run in which nothing fails, with an unbanned volunteer at hand, whose first round ends without a quorum and is not re-fanned-out |
| `QuorumCap.CalmRunsReachIff` | crates/arags-server/src/quorum.rs:493-571 | runs in which nothing fails reach k re-fan-outs if and only if k is at most strikes_limit, provided some texts have no quorum |
| `QuorumCap.OrthogonalTextsDiverge` | crates/arags-server/src/quorum.rs:493-511 | two texts with orthogonal embeddings have none |
| `QuorumRuns.ExcludedNeverHold` | crates/arags-storage/src/sqlite/rlm/complete.rs:165-249 | over every run a volunteer excluded from a group never holds one of its slots |
| `QuorumRuns.NewHolderWasAllowed` | crates/arags-storage/src/sqlite/rlm/complete.rs:165-249 | in whatever step a slot changes hands, its new holder claimed it while it was open, held no other slot of the group, was never seen or has fewer strikes than the limit, and was not excluded |
| `QuorumRuns.FreeSlotIsDealt` | crates/arags-storage/src/sqlite/rlm/complete.rs:165-249 | whoever asks for such a slot gets it |
| `QuorumRuns.DivergersAreExcluded` | crates/arags-server/src/quorum.rs:566-571 | a re-fan-out excludes every author it just rejected from the group it opens |
| `QuorumLedger.StrikesAreEarned` | crates/arags-storage/src/sqlite/submissions.rs:227-281 | over every run, other subjects included, strikes never exceed the author's rejections here and the strikes from elsewhere, and trust stays within 0 and 1 |
| `QuorumLedger.StrikesAreExact` | crates/arags-storage/src/sqlite/submissions.rs:227-281 | over every run with any failures, strikes are exactly the rejections here, less those whose strike was not written, less the acceptances here that met a positive count, plus the strikes other subjects wrote, less those they took back |
| `QuorumLedger.StrikesCountRejections` | crates/arags-storage/src/sqlite/submissions.rs:227-281 | when standings are written with their statuses, strikes lie between all rejections less all acceptances and all rejections, here and elsewhere; they equal the rejections of an author nobody accepted |
| `QuorumStage.NewcomerAfter` | crates/arags-storage/src/sqlite/submissions.rs:227-281 | a newcomer struck k times and then accepted m times has k - m strikes (at least 0) and trust 1 - k/5 (at least 0) plus m/10 (at most 1) |
| `QuorumVotes.VotesAreDistinct` | crates/arags-storage/src/sqlite/rlm/complete.rs:165-249 | over every safe run, one that deals new slots only when nothing is pending and nothing is handed in and not yet staged (a limit of 0 aside), nobody has two votes out, whatever other subjects decide |
| `QuorumVotes.SafeIff` | crates/arags-storage/src/sqlite/rlm/complete.rs:165-249 | behind a safe run the condition is exact: an event is safe if and only if no claims, hand-ins, releases, cancellations and decisions on other subjects after it give anybody two pending candidates |
| `QuorumVotes.ReEnqueueIsSafeIff` | crates/arags-storage/src/sqlite/rlm/jobs.rs:46-138 | behind a safe run, enqueueing a finished group again is safe if and only if nothing is pending or handed in, except with a limit of 0 for volunteers on record |
| `QuorumVotes.DecisionIsSafeIff` | crates/arags-server/src/quorum.rs:181-203 | behind a safe run, a decision that re-fans out is safe if and only if every rejection was written and nothing is handed in and not yet staged |
| `QuorumVotes.ExclusionsStayKnown` | crates/arags-storage/src/sqlite/rlm/jobs.rs:100-112 | over every run nobody is excluded from a group that is yet to come |
| `QuorumWitnesses.ReEnqueueLetsAVolunteerVoteTwice` | crates/arags-storage/src/sqlite/rlm/jobs.rs:46-138 | a run in which a finished group is enqueued again and one volunteer has two pending candidates |
| `QuorumWitnesses.LiftedBanLetsAVolunteerVoteTwice` | crates/arags-storage/src/sqlite/submissions.rs:262-281 | the same although the volunteer is banned when the group is enqueued: other subjects lift the ban |
| `QuorumWitnesses.HandedInVotesTwice` | crates/arags-server/src/grpc/rlm/quorum.rs:66-91 | the same although nothing is pending: completing and staging are two calls |
| `QuorumWitnesses.FailedRejectionLetsAVolunteerVoteTwice` | crates/arags-server/src/quorum.rs:181-203 | a run in which one rejection is not written, its author claims in the new group, and has two pending candidates |
| `QuorumWitnesses.AcceptedSubjectIsDecidedAgain` | crates/arags-server/src/quorum.rs:61-137 | a run to a subject with an accepted submission on which another decision acts |
| `QuorumWitnesses.SoleVolunteerIsDecidedAgain` | crates/arags-server/src/quorum.rs:61-137 | with a fan-out of one, any text makes such a run |
| `QuorumVotes.FewMaliciousPositions` | crates/arags-server/src/quorum.rs:158-163 | with one vote each, f malicious volunteers hold at most f positions |
| `QuorumVotes.HonestSupportOverRuns` | crates/arags-server/src/quorum.rs:158-252 | end to end: after any safe run with at most f malicious volunteers, text about to be published has the support of f + 1 honest ones |
| `QuorumVotes.PublishedIsAccepted` | crates/arags-server/src/quorum.rs:252-325 | over every run in which decided statuses can be written, each published revision is the text of an accepted submission |
| `Wildcard.CellDecides` | crates/arags-embedding/src/pipeline/files.rs:291-307 | the last cell of the table is true if and only if the name can be cut as the pattern says |
| `Wildcard.Shortcuts` | crates/arags-embedding/src/pipeline/files.rs:284-289 | the equality and the no-star shortcuts are sound |
| `Wildcard.WildDecides` | crates/arags-embedding/src/pipeline/files.rs:283-308 | the matcher accepts exactly the language of the pattern |
| `Wildcard.WildcardComponent` | crates/arags-embedding/src/pipeline/files.rs:283-308 | the shortcuts and the table filled in place compute that matcher |
| `PathMatch.ComponentsOfJoin` | crates/arags-embedding/src/pipeline/files.rs:244-246 | splitting a joined path gives back its components |
| `PathMatch.ComponentsOfConcat` | crates/arags-embedding/src/pipeline/files.rs:244-246 | a path is cut at every slash, whatever stands on either side, and into non-empty names only |
| `PathMatch.ComponentMatchMeaning` | crates/arags-embedding/src/pipeline/files.rs:262-280 | the recursion with ** accepts exactly the paths that can be aligned with the pattern, ** standing for any run of components |
| `PathMatch.IgnoringMeaning` | crates/arags-embedding/src/pipeline/files.rs:209-227 | a path is ignored if and only if a pattern of one component has some component of the path, at whatever depth, in its language, or a pattern of several is matched component by component by the start of the path |
| `PathMatch.SingleIgnoresAnywhere` | crates/arags-embedding/src/pipeline/files.rs:216-217 | with one component, a path is ignored if and only if its front or its rest is |
| `PathMatch.SeveralIgnoreByTheFront` | crates/arags-embedding/src/pipeline/files.rs:218-224 | with several, only as many components at the front count |
| `PathMatch.ForcingMeaning` | crates/arags-embedding/src/pipeline/files.rs:233-257 | a path is forced if and only if it or one of its ancestors can be aligned with one of the patterns |
| `PathMatch.IgnoringIsHereditary` | crates/arags-embedding/src/pipeline/files.rs:209-227 | everything below an ignored directory is ignored |
| `PathMatch.ForcingIsHereditary` | crates/arags-embedding/src/pipeline/files.rs:233-257 | everything below a forced directory is forced |
| `Walk.Discovery.Visit` | crates/arags-embedding/src/pipeline/files.rs:132-199 | the recursion that pushes onto one list appends exactly the walk of the tree |
| `Walk.WalkIsFilter` | crates/arags-embedding/src/pipeline/files.rs:132-199 | the pruning walk is a filter over the leaves of the whole tree |
| `Walk.KeptIffSelected` | crates/arags-embedding/src/pipeline/files.rs:132-199 | pruning decides each file by the flat rule on its own path |
| `Walk.WalkReturnsTheSelected` | crates/arags-embedding/src/pipeline/files.rs:132-199 | the walk returns exactly the selected files, in order |
| `Walk.LeavesAreTheFiles` | crates/arags-embedding/src/pipeline/files.rs:132-199 | the leaves of the tree are the files that can be looked up in it by name, and no others |
| `Walk.ReturnedIff` | crates/arags-embedding/src/pipeline/files.rs:132-199 | a path is returned if and only if a file is found under it and the flat rule selects it |
| `Walk.IsTextFileMeaning` | crates/arags-embedding/src/pipeline/files.rs:326-338 | a text file is named by a non-empty stem, a dot and one of the listed extensions |
| `Walk.WalkHasNoRepeats` | crates/arags-embedding/src/pipeline/files.rs:132-199 | no file is returned twice |
| `Walk.ForcedFileCanBePruned` | crates/arags-embedding/src/pipeline/files.rs:38-42 | the promise that a force-included file is always indexed fails for a file below an ignored directory above the pattern's own path |
| `Gitignore.GlobImpl` | crates/arags-cli/src/gitignore.rs:193-243 | the backtracking recursion with early returns computes the glob |
| `Gitignore.DerivesMeaning` | crates/arags-cli/src/gitignore.rs:187-243 | a reading of a text is a cut into runs that make it up, each admissible before what follows |
| `Gitignore.GlobMeaning` | crates/arags-cli/src/gitignore.rs:187-243 | the glob accepts a text if and only if it has a reading under the parsed pattern |
| `Gitignore.TokensOfPattern` | crates/arags-cli/src/gitignore.rs:193-243 | how every pattern reads from the left: ** with the slash behind it, *, ?, or a character |
| `Gitignore.AncestorCandidates` | crates/arags-cli/src/gitignore.rs:131-141 | the loop collects exactly the path and its ancestor prefixes |
| `Gitignore.AllSuffixSegments` | crates/arags-cli/src/gitignore.rs:173-182 | the loop collects exactly the suffixes that start a segment |
| `Gitignore.Matches` | crates/arags-cli/src/gitignore.rs:120-149 | a rule matches if and only if one of its candidates does: the path or an ancestor when anchored, a segment-aligned suffix otherwise |
| `Gitignore.RelativeToMeaning` | crates/arags-cli/src/gitignore.rs:162-169 | a path lies in the directory of a rule if and only if it is the directory, a slash and what the rule sees |
| `Gitignore.RuleMatchesMeaning` | crates/arags-cli/src/gitignore.rs:120-149 | a rule matches if and only if the path is a directory where one is asked for, lies in the directory of the rule, and it, an ancestor (anchored) or a rest behind a slash (not anchored) has a reading under the pattern |
| `Gitignore.CoverageIsInherited` | crates/arags-cli/src/gitignore.rs:131-148 | what an anchored rule covers it covers with everything beneath; what another rule covers it covers at any depth |
| `Gitignore.GitignoreDecides` | crates/arags-cli/src/dispatch/discover.rs:60-68 | the loop returns the verdict of the last matching rule |
| `Gitignore.VerdictAppend` | crates/arags-cli/src/dispatch/discover.rs:60-68 | a matching rule overrides all before it, a non-matching one has no say |
| `Gitignore.ForeignRulesAreIrrelevant` | crates/arags-cli/src/gitignore.rs:162-169 | deleting all rules whose directory does not contain the path never changes the verdict |
| `Discover.CollectFindsWanted` | crates/arags-cli/src/dispatch/discover.rs:15-56 | the walk finds the wanted files whose directories are all wanted |
| `Discover.FoundIff` | crates/arags-cli/src/dispatch/discover.rs:15-56 | a path is found if and only if there is a file under it, and it and every directory on the way to it is forced, or neither hidden nor ignored |
| `Discover.DiscoverFiles` | crates/arags-cli/src/dispatch/discover.rs:15-56 | the explicit stack yields the same files as the recursive walk, each as often |
| `Utf8.PrevCharBoundary` | crates/arags-embedding/src/chunker/mod.rs:62-67 | the loop finds the greatest boundary at or below the index |
| `Utf8.PrevBoundaryIsGreatest` | crates/arags-embedding/src/chunker/mod.rs:62-67 | no boundary at or below the index is greater |
| `Utf8Text.EncodeIsValid` | crates/arags-embedding/src/chunker/mod.rs:62-67 | encoded text consists of whole characters, which the chunker takes for granted |
| `Chunker.SplitChains` | crates/arags-embedding/src/chunker/recursive.rs:84-109 | splitting on any separator loses nothing and cuts no character |
| `Chunker.SplitsAtFirstOccurrences` | crates/arags-embedding/src/chunker/recursive.rs:85-87 | each piece runs up to the first occurrence of the separator in what is left, the last one to the end |
| `Chunker.HardCutAdvancesIff` | crates/arags-embedding/src/chunker/recursive.rs:112-130 | a hard cut gets past its start if and only if the limit is at least one token |
| `Chunker.ChunksTile` | crates/arags-embedding/src/chunker/recursive.rs:61-133 | the chunks of a range tile it, within the size limits |
| `Chunker.ChunksAreTheText` | crates/arags-embedding/src/chunker/recursive.rs:61-133 | chunks concatenate to the input, each is the slice at its recorded offsets, whole characters, within max_tokens or 4 * max_tokens bytes |
| `ChunkCuts.SeparatorsEndChunks` | crates/arags-embedding/src/chunker/recursive.rs:84-109 | in a range over the limit, each first-to-last, non-overlapping occurrence of the separator in use ends a chunk |
| `ChunkCuts.EmptySeparatorCutsEverywhere` | crates/arags-embedding/src/chunker/recursive.rs:84-109 | with the empty separator every character does |
| `ChunkCuts.PartsAreChunkedAlone` | crates/arags-embedding/src/chunker/recursive.rs:88-109 | the chunks of each part between them are those the part has when chunked alone with the remaining separators |
| `ChunkCuts.WithinLimitIsOneChunk` | crates/arags-embedding/src/chunker/recursive.rs:67-82 | a range within the limit is one chunk |
| `ChunkCuts.PartWithinLimitIsOneChunk` | crates/arags-embedding/src/chunker/recursive.rs:67-109 | and so is a part within the limit of a range over it |
| `ChunkCuts.EveryCutHasAReason` | crates/arags-embedding/src/chunker/recursive.rs:61-133 | each chunk but the last ends inside a range over the limit in which no earlier separator is left, behind an occurrence of the next one, or, when none is left at all, at the last character boundary within four bytes a token |
| `Chunker.ChunkRecursive` | crates/arags-embedding/src/chunker/recursive.rs:61-133 | the recursion with its loops pushes exactly those chunks and terminates |
| `StripCot.IsOpenTag` | crates/arags-cli/src/llm_post.rs:11-37 | finds where the opening tag at a position ends, if one stands there |
| `StripCot.FindCloseTag` | crates/arags-cli/src/llm_post.rs:42-80 | finds the end of the first closing tag |
| `StripCot.TagEndsAreUnique` | crates/arags-cli/src/llm_post.rs:11-80 | the scanners find exactly the complete tags |
| `StripCot.BlocksAreBlocks` | crates/arags-cli/src/llm_post.rs:94-115 | the removed regions run from the first opening tag to the end of the first closing tag behind it, or to the end |
| `StripCot.KeepRanges` | crates/arags-cli/src/llm_post.rs:88-115 | the scan computes the stretches between the blocks |
| `StripOutput.KeptIsSeparate` | crates/arags-cli/src/llm_post.rs:88-115 | kept ranges are non-empty, in bounds, in order and apart |
| `StripOutput.StripCoT` | crates/arags-cli/src/llm_post.rs:88-132 | the output is the kept text, at most one space for each removed block, trimmed |
| `StripOutput.NeighboursAreSpaced` | crates/arags-cli/src/llm_post.rs:117-131 | between two neighbouring kept stretches stands one space if neither is white there, and nothing otherwise |
| `StripOutput.StripShortens` | crates/arags-cli/src/llm_post.rs:88-132 | the output is never longer than the input, and shorter by six for every block |
| `StripOutput.TaglessIsOnlyTrimmed` | crates/arags-cli/src/llm_post.rs:88-132 | text without an opening tag is only trimmed |
| `StripOutput.KeptTextIsTagless` | crates/arags-cli/src/llm_post.rs:94-115 | no kept stretch holds a complete opening tag |
| `StripOutput.OutputHasTagIff` | crates/arags-cli/src/llm_post.rs:82-132 | the output still holds a tag if and only if some kept stretch of the input ends in an unfinished tag, only tag space is kept behind it, and the next stretch begins with what the tag lacks |
| `StripOutput.StrippedTextCanHoldTag` | crates/arags-cli/src/llm_post.rs:82-87 | such an input, against the promise that every occurrence is stripped |
| `StripOutput.StripIsIdempotentIff` | crates/arags-cli/src/llm_post.rs:82-132 | stripping twice is stripping once if and only if there are no such stretches |
| `ChunkedBody.Reader.ReadLine` | crates/arags-embedding/src/embedder/ollama.rs:205-206 | reads up to and including the next line feed, and refuses a line that is not UTF-8 |
| `ChunkedBody.Reader.ReadExact` | crates/arags-embedding/src/embedder/ollama.rs:213-221 | reads exactly that many bytes or fails |
| `ChunkedBody.ReadChunked` | crates/arags-embedding/src/embedder/ollama.rs:202-224 | the loop over the reader computes the decoder and leaves the reader behind the message |
| `ChunkedBody.SizeTextIsDigits` | crates/arags-embedding/src/embedder/ollama.rs:207 | from a size line with blanks and an extension the digits are read |
| `ChunkedBody.DecodingInvertsCoding` | crates/arags-embedding/src/embedder/ollama.rs:198-224 | decoding inverts chunked coding (section 7.1 of RFC 9112, no trailers): the body comes back and exactly the encoded bytes are consumed; sizes wider than a machine word are refused |
| `ChunkedBody.EveryCutHasCoding` | crates/arags-embedding/src/embedder/ollama.rs:198-201 | every cut of every body into non-empty chunks has such a coding |
| `ChunkedBody.MessageIsSelfDelimiting` | crates/arags-embedding/src/embedder/ollama.rs:202-224 | on every stream: what follows a message does not matter, and a message without its last byte is refused wherever the stream breaks off |
| `ChunkedBody.DigitsCount` | crates/arags-embedding/src/embedder/ollama.rs:208 | hexadecimal digits of either case count 0 to 15 |
| `ChunkedBody.ParseHexMeaning` | crates/arags-embedding/src/embedder/ollama.rs:208 | a size is what hexadecimal digits say, with or without one plus sign, up to a machine word |
| `Utf8Text.DecodeInvertsEncode` | crates/arags-embedding/src/embedder/ollama.rs:205-206 | every text comes back from its UTF-8 bytes |
| `Utf8Text.DecodesIff` | crates/arags-embedding/src/embedder/ollama.rs:205-206 | bytes are read as a text if and only if they are its UTF-8 code |
| `EmbedCache.EmbeddingToBytes` | crates/arags-embedding/src/embedder/cache.rs:162-168 | the loop writes the little-endian blob |
| `EmbedCache.BytesToEmbedding` | crates/arags-embedding/src/embedder/cache.rs:171-187 | the loop reads it back, and refuses a wrong length |
| `EmbedCache.BlobRoundTrip` | crates/arags-embedding/src/embedder/cache.rs:162-187 | a stored embedding comes back bit for bit |
| `EmbedCache.FloatsRoundTrip` | crates/arags-embedding/src/embedder/cache.rs:162-187 | no other blob reads as the same embedding |
| `EmbedCache.BlobIsLittleEndian` | crates/arags-embedding/src/embedder/cache.rs:162-168 | each float takes four bytes, the low one first |
| `EmbedCache.EmbeddingCache.Get` | crates/arags-embedding/src/embedder/cache.rs:72-92 | answers the stored embedding, none, or an error |
| `EmbedCache.EmbeddingCache.Put` | crates/arags-embedding/src/embedder/cache.rs:100-118 | replaces the entry, or changes nothing and fails |
| `EmbedCache.WriteAnswers` | crates/arags-embedding/src/embedder/cache.rs:100-118 | after a write that text is answered by what was written and every other text as before |
| `EmbedCache.WriteKeepsCoherence` | crates/arags-embedding/src/embedder/cache.rs:100-118 | writing what the model computes keeps every answer the model's |
| `EmbedCache.CollisionsBreakCoherence` | crates/arags-embedding/src/embedder/cache.rs:60-65 | with two texts of one hash it would not |
| `EmbedCache.CachedEmbedder.Embed` | crates/arags-embedding/src/embedder/cache.rs:213-222 | the model's embedding or the model's error, whatever the cache does; with a cache whose calls work, the model is asked only if the cache has no answer, and the cache has it afterwards |
| `EmbedCache.CachedEmbedder.EmbedBatch` | crates/arags-embedding/src/embedder/cache.rs:224-247 | the same for a batch, in order, for any mix of hits, misses and duplicates; with a cache whose calls work, the model is asked exactly for the texts without an answer |
| `EmbedCache.EmbedInBatches` | crates/arags-embedding/src/embedder/batch.rs:70-74 | asking in batches of any size is asking for all |
| `EmbedCache.EmbedWithCache` | crates/arags-embedding/src/embedder/batch.rs:41-108 | on success the model's embeddings in order; the model was asked exactly for the texts the cache lacked, which it now has; when no call fails it succeeds |
| `EmbedCache.EmbedBatchCached` | crates/arags-embedding/src/pipeline.rs:215-262 | the pipeline's copy keeps the same promise |
| `Reconcile.EmbedAndInsert` | crates/arags-server/src/reconcile.rs:440-509 | every input is either cleared, with its vector in place, or failed; nothing else changes |
| `Reconcile.ReconcileBatch` | crates/arags-server/src/reconcile.rs:164-195 | one batch settles rows only, and counts each row once |
| `Reconcile.ReconcileOwner` | crates/arags-server/src/reconcile.rs:141-197 | a pass over any store, under any failures, only settles pending rows, clears a marker only over its vector, leaves rows and vectors in step if and only if they were, and pending_before = processed + remaining + unread |
| `Reconcile.ReconcilePendingVectors` | crates/arags-server/src/reconcile.rs:86-138 | the same over all projects or buffers; without a failure only rows without text stay pending, and there is none when every call works |
| `Reconcile.ProgressKeepsSynced` | crates/arags-server/src/reconcile.rs:141-197 | settling pending rows keeps rows and vectors in step |
| `Reconcile.ProgressSyncedIff` | crates/arags-server/src/reconcile.rs:141-197 | and a pass never brings rows and vectors in step that were not |
| `Reconcile.ProgressAddsUp` | crates/arags-server/src/reconcile.rs:160-195 | passes over disjoint rows add up |
| `Reconcile.ClearingSettles` | crates/arags-storage/src/sqlite/chunks/vector.rs:152-174 | clearing the markers of inserted rows is all that happens to the rows |
| `Reconcile.PassesAddUp` | crates/arags-server/src/reconcile.rs:160-195 | so do the counts |
| `Reconcile.UnmarkedGapStays` | crates/arags-server/src/bootstrap.rs:12-15 | a pass never repairs a row that lacks its vector without being marked |
| `Reconcile.FinishedStays` | crates/arags-server/src/reconcile.rs:96-119 | a later pass undoes nothing |
| `Bootstrap.BootstrapChunks` | crates/arags-server/src/bootstrap.rs:105-194 | a rebuilt chunk space holds the vectors of a prefix of the inputs; without a failure the space ends up exact if and only if it was, or its size was wrong; an exact space is never rebuilt |
| `Bootstrap.RebuildSimpleSpace` | crates/arags-server/src/bootstrap.rs:199-228 | whatever fails, says which inputs have their vectors, which ids kept an old one, and that there is nothing else; without a failure all inputs and nothing old |
| `Bootstrap.BootstrapSimple` | crates/arags-server/src/bootstrap.rs:231-298 | the same for a space whose size is wrong; without a failure exact if and only if it was, or its size was wrong; an exact space is never rebuilt |
| `Bootstrap.RebuildIsExactIff` | crates/arags-server/src/bootstrap.rs:151-178 | a rebuild is exact if and only if it got through all inputs |
| `Bootstrap.RebuildIsSyncedIff` | crates/arags-server/src/bootstrap.rs:151-178 | a stopped rebuild leaves rows and vectors in step if and only if every row it did not reach is marked |
| `Bootstrap.RebuiltIsSyncedIff` | crates/arags-server/src/bootstrap.rs:199-228 | a rebuild with holes leaves rows and vectors in step if and only if the vector of every unmarked row is newly derived, or kept and right |
| `Bootstrap.RebuiltIsExactIff` | crates/arags-server/src/bootstrap.rs:199-228 | and is exact if and only if that holds for every row with text and nothing else was kept |
| `Bootstrap.InsertVectors` | crates/arags-storage/src/lance/vectors.rs:121-164 | inserts a prefix of the entries, all of them unless it fails |
| `DerivedRuns.CarefulRunsStayInStep` | crates/arags-server/src/grpc/index.rs:104-151 | over every run of stores, purges, deletions, passes and rebuilds, with any failures, each unmarked row has the vector of its canonical text, as long as what is lost is marked |
| `DerivedRuns.StepKeepsInStep` | crates/arags-server/src/grpc/index.rs:104-151 | each such event keeps rows and vectors in step |
| `DerivedRuns.StoringStaysInStepIff` | crates/arags-server/src/quorum.rs:327-347 | storing a row with its vector keeps them in step if and only if the vector arrives, the row is marked, or the vector left under the id is the right one; publishing a quorum never marks |
| `DerivedRuns.RebuildStaysInStepIff` | crates/arags-server/src/bootstrap.rs:199-228 | from a state in step, a rebuild with any failures ends in step if and only if every unmarked row was derived again or kept its vector |
| `DerivedRuns.GapsLast` | crates/arags-server/src/bootstrap.rs:12-15 | an unmarked row without its vector stays so over every run without a rebuild or an event on the row, however many passes |
| `DerivedRuns.CompleteRebuildClosesGaps` | crates/arags-server/src/bootstrap.rs:151-178 | a rebuild that gets through makes the space exact, whatever was there |
| `DerivedRuns.StoringCanLeaveAGap` | crates/arags-server/src/quorum.rs:327-347 | a run from the empty store to such a gap |
| `DerivedRuns.RightSizeCanBeWrong` | crates/arags-server/src/bootstrap.rs:134-148 | a run from the empty store to a space of the right size that is not exact, which the start-up check passes |
| `Rrf.RrfFuse` | crates/arags-search/src/hybrid/rrf.rs:23-57 | returns the best top_k of the fused ranking, in whatever order the map is read |
| `Rrf.SortResults` | crates/arags-search/src/hybrid/rrf.rs:42-47 | sorts by score, then id |
| `Rrf.RrfScore` | crates/arags-search/src/hybrid/rrf.rs:12-14 | the reciprocal of the rank, counted from 1, on top of the constant |
| `Rrf.ConstantDecidesOrder` | crates/arags-search/src/hybrid/rrf.rs:12-14 | one first place beats two third places if and only if the constant is at most 1 |
| `Rrf.FusedOrder` | crates/arags-search/src/hybrid/rrf.rs:42-47 | an item is before another if and only if it scores more, or as much with the lower id |
| `Rrf.FusionIsUnique` | crates/arags-search/src/hybrid/rrf.rs:39-47 | the fused ranking is a function of the lists |
| `Rrf.FusionIgnoresListOrder` | crates/arags-search/src/hybrid/rrf.rs:28-33 | permuting the lists does not change it |
| `Rrf.DominanceInScore` | crates/arags-search/src/hybrid/rrf.rs:12-14 | an item above another wherever that one appears scores more |
| `Rrf.DominanceIsKept` | crates/arags-search/src/hybrid/rrf.rs:12-57 | and comes before it in the result |
| `Windows.FindLineBoundary` | crates/arags-memory/src/knowledge/helpers.rs:7-16 | the backward search finds the boundary |
| `Windows.BoundaryMeaning` | crates/arags-memory/src/knowledge/helpers.rs:7-16 | it is just behind the last newline of the last hundred bytes, or the limit itself |
| `Windows.IndexFile` | crates/arags-memory/src/knowledge/mod.rs:188-249 | the loop produces the windows of the file whenever each round advances |
| `Windows.ProgressesOnAllFilesIff` | crates/arags-memory/src/knowledge/mod.rs:193-201 | each round advances on every file if and only if max_chunk_bytes is at least 100 |
| `Windows.StallsForEver` | crates/arags-memory/src/knowledge/mod.rs:193-201 | below that, a file on which the loop never gets past the first window |
| `Windows.WindowsTile` | crates/arags-memory/src/knowledge/mod.rs:188-249 | the windows end to end are the file |
| `Windows.WindowSizes` | crates/arags-memory/src/knowledge/mod.rs:193-203 | each window has at most max bytes, each but the last at least max - 99 |
| `Windows.CountIsLeast` | crates/arags-memory/src/knowledge/mod.rs:283-292 | the estimate is the least c with c * max at least the length, and 1 for an empty file |
| `Windows.CountBounds` | crates/arags-memory/src/knowledge/mod.rs:283-292 | the estimate is a lower bound on the number of windows if and only if the file is not empty, and (k - 1) * (max - 99) < length |
| `Windows.NewlinesAreCounted` | crates/arags-memory/src/knowledge/mod.rs:203-207 | the line count of a window is the number of its newlines |
| `Windows.RecordedLineDrifts` | crates/arags-memory/src/knowledge/mod.rs:207-248 | the recorded first line of window i is the true line plus i |
| `Budget.WordsOfJoin` | crates/arags-search/src/context.rs:218-223 | joined words split into the same words |
| `Budget.WordsAreSeparated` | crates/arags-search/src/context.rs:194-207 | a text falls apart at every white character, and a stretch without one is a single word |
| `Budget.EstimateIsRoundedUp` | crates/arags-search/src/context.rs:194-207 | the estimate is the least integer not below 1.3 for each word |
| `Budget.WordsFitIff` | crates/arags-search/src/context.rs:194-216 | a number of words is allowed if and only if its estimate is within the budget |
| `Budget.TruncationFits` | crates/arags-search/src/context.rs:209-224 | truncated text is within its budget |
| `Budget.ApplyTokenBudget` | crates/arags-search/src/context.rs:161-191 | selects the found chunks that fit in result order, then the next one cut down if more than 100 tokens are left |
| `Budget.BudgetIsKept` | crates/arags-search/src/context.rs:161-191 | the selection never costs more than the budget |
| `Budget.SelectedWordsFit` | crates/arags-search/src/context.rs:161-207 | in plain numbers: 1.3 for each word, rounded up for each selected chunk, adds up to at most the budget |
| `Budget.NextChunkDoesNotFit` | crates/arags-search/src/context.rs:172-186 | the first chunk not taken whole would exceed it, and it is taken cut down if and only if more than 100 tokens are left |
| `Budget.FoundMeaning` | crates/arags-search/src/context.rs:167-171 | a result stands for the first chunk with its id, or for none |
| `Budget.SelectionIsGreedy` | crates/arags-search/src/context.rs:161-191 | the number of whole chunks is the greatest that fits |
| `Budget.LastChunkIsCut` | crates/arags-search/src/context.rs:176-186 | the last chunk really loses words, and keeps the first ones, as many as the rest of the budget allows |

## Left out

- QuorumEngine.SubjectStore.DecideRlmQuorum: a decision is one step here, although the program waits between reading the pending rows and writing their statuses, so two decisions on one batch can overlap, and so can a decision here and one on another subject; rounds of more than 31 pending candidates, where the 32-bit shift of the mask loop overflows (the theorems about the specification function have no such limit); the similarity recorded for auditing, the vector of a published node and the cascade to the parent level.
- QuorumEngine.SubjectStore.EnqueueRlmJob: the id of the row it returns; slots have no ids here.
- Clique.BestAgreeingClique: more than 31 candidates, for the same reason.
- EmbedCache.EmbedWithCache: a batch size of 0, on which the program panics.
- Rrf.RrfFuse: floating-point rounding of the sums, and a constant k of -1 or less, which makes a denominator zero or negative.
- Budget.ApplyTokenBudget: 32-bit overflow of the token sum, which takes texts of billions of words.
- ChunkedBody.DecodingInvertsCoding: trailer sections, which the decoder does not read, and the limit that memory sets to a chunk before 64 bits do.
- Reconcile.ReconcileOwner: rows that change between the reading of their text and the clearing of their marker.
- Windows.IndexFile: files on which a round does not advance (the loop then never ends, see `ProgressesOnAllFilesIff`), and the lossy text, hash, language, token estimate and entities stored with a window, and the skipping of unchanged files.
- Chunker.ChunkRecursive: the token count stored with a chunk.
- Order of submissions with equal creation times; ids stand for it here.
- Reading and parsing of `.gitignore` files, the default ignore lists of the client, symbolic links and unreadable directories.
- The counter of skipped files, logging, timing and report fields that only repeat a count.
- The vector index itself and its persistence; a failed call may leave the old vector, none, or the new one. The buffer of a chunk is part of what its space stores for it.
- Inner embedders that return another number of embeddings than texts, or different embeddings for the same text.
- `CodeChunker`, `MarkdownChunker` and `TextChunker`, whose structure helpers would add only easy members.
- gRPC handlers, authentication, configuration, prompts and rendering.
