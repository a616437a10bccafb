# A verified model of the BOLD validator's core

BOLD settles disputes about the state of a rollup chain. A validator commits to its execution history with Merkle
trees, bisects disagreements on chain edge by edge, and wins when its edges have stayed unrivaled for a challenge
period. This project models five connected parts of the validator in Dafny and proves what they promise.

1. **Commitments** (`Bits`, `Merkle`, `Expansion`, `MerkleExpansions`, `Levels`, `PrefixProofs`, `PrefixTheorems`,
   `InclusionProofs`, `History`). A Merkle expansion is a binary number whose set bits carry the roots of complete
   subtrees; appending is addition with carry. `Merkle.MerkleRoot`, a tree built layer by layer with zeros on the right,
   is the independent reference for roots. Hashes are free terms, so collision freedom needs no axiom. The main results:
   prefix proofs are complete and sound, the exact set of inputs the verifier accepts, the two tree builders agree, and
   an inclusion proof reaches a commitment only if it is the generated one.
2. **Bisection and the challenge tree** (`Bisection`, `Protocol`, `Moves`, `Timers`, `TreeIndex`, `Ancestors`,
   `PathTimers`, `ChallengeTree`, `TreeRuns`). The on-chain edge store is a state machine whose runs are arbitrary lists of
   transactions; a transaction whose checks fail changes nothing. `ChallengeTree.HonestChallengeTree` is the mutable
   object, proved against the value-level functions of `TreeIndex`, `Ancestors` and `PathTimers`. A `TreeRuns.TreeRun`
   puts a run of the chain next to a run of calls on the tree about edges of that chain; reads of the chain and of the
   state provider may fail in it, but do not lie. Over every such run: the unrivaled times along a path of ancestors never
   overlap, the tree's indexes agree with a plain list of everything added, a tracked edge's rivals are all that were
   added, and the ancestor search returns a list exactly if it is the tracked path to the block level root.
3. **Opcode indexes** (`HistoryProvider`). Heights per challenge level are the digits of a mixed-radix number; the
   levels line up and the digits are unique.
4. **The edge tracker** (`Fsm`, `EdgeTracker`, `Confirmation`). One round of `Act` over a table-driven state machine, the
   safety and progress of every run of rounds, and the grounds of a confirmation. `Confirmation` follows confirmation by
   time from the chain's timers through the tree to the tracker.
5. **The chain wrapper** (`OriginHeights`, `AssertionChain`). The walk that collects origin heights, and the cache of
   completed challenges.

`Outcomes` holds the result types. `dafny verify dfyconfig.toml` checks the whole project.

## Findings

Five properties one might expect of the code do not hold on all inputs. Each is given a concrete input and the exact
condition under which it holds.

- The prefix proof verifier accepts a pre-expansion with zeros on top, whose root is the commitment to no list at all:
  `PrefixTheorems.PaddedPreExpansionAccepted`. An accepted pre-root is the commitment to the prefix exactly when the top
  entry of the pre-expansion is not zero: `PrefixTheorems.PreRootIsCommitmentIff`. When the pre-root is the commitment to
  some list, that list is a prefix: `PrefixTheorems.Soundness`.
- `Bisect` wraps around for start heights of 2^64 - 2 and above. It refuses exactly the ranges shorter than two if and
  only if the start is below that or the end is zero at the very top: `Bisection.BisectRefusesIff`, with
  `Bisection.BisectWraps` as an input it does not refuse.
- The tree records an edge whose start it disagrees with only if the edge is honest. The recorded group of a mutual id
  is a scan of all added edges if and only if the start is agreed with or all its added edges are tracked:
  `TreeIndex.GroupIsScanIff`; `TreeRuns.DisagreedGroupIsNotScan` is a run after which it is not. For tracked edges it
  always is: `TreeRuns.TrackedGroupIsScan`.
- A one-step proof may be fetched for an opcode other than the one between the two states it is returned with:
  `HistoryProvider.OneStepFromOneIsOff` and `HistoryProvider.OneStepAboveLastLevelIsOff` are two accepted requests. Over
  all accepted requests, the opcode is right if and only if the request starts at height 0, its leaves are one opcode
  apart and no sum leaves the word range: `HistoryProvider.OneStepExact`. The tracker's own requests, on the last level
  from height 0, meet this: `HistoryProvider.TrackerProvesStep`.
- The ancestor search follows children it finds on chain without checking that the tree has them, and would dereference
  nil: `TreeRuns.MissingChildIsReached` is a run that gets there. No search does if and only if each tracked edge's way
  down from its level's root is tracked as far as the chain has it: `TreeRuns.NoMissingChildIff`. It is enough that the
  halves of tracked edges are tracked: `TreeRuns.TrackedHalvesSuffice`.

## Model

| member | source | states |
|---|---|---|
| Merkle.CommitInjective | state-commitments/prefix-proofs/prefix_proofs.go:150-186 | two non-empty leaf lists, of whatever lengths, have the same root exactly if they are the same list |
| Merkle.MerkleRootInjective | state-commitments/prefix-proofs/prefix_proofs.go:150-186 | a padded root determines the nodes below it once their depth is known |
| Merkle.MerkleRootNotPadded | state-commitments/prefix-proofs/prefix_proofs.go:150-186 | the root over more than one node is never a node hashed with the zero padding |
| Merkle.DepthFromPredecessor | state-commitments/inclusion-proofs/inclusion_proofs.go:97 | the most significant bit of n - 1 gives the number of layers above n nodes |
| Merkle.DepthFromBits | state-commitments/inclusion-proofs/inclusion_proofs.go:24-37 | the tree builder's layer count, from the most and least significant bit of n, is the number of layers |
| Expansion.RootMeaning | state-commitments/prefix-proofs/prefix_proofs.go:153-186 | folding the expansion of a node list gives the root of the zero-padded tree over it |
| Expansion.RootInjective | state-commitments/prefix-proofs/prefix_proofs.go:153-186 | the fold determines the expansion among those of the same length and size |
| Expansion.RootBinds | state-commitments/prefix-proofs/prefix_proofs.go:153-186 | an expansion of the right size folds to the commitment of a list exactly if it is that list's expansion |
| Expansion.RootFoldPadded | state-commitments/prefix-proofs/prefix_proofs.go:153-186 | an expansion with a zero on top folds to a node whose right half is zero |
| Expansion.SizeMeaning | state-commitments/prefix-proofs/prefix_proofs.go:189-197 | the size read off an expansion is the number of nodes it was built from |
| Expansion.AppendMeaning | state-commitments/prefix-proofs/prefix_proofs.go:205-281 | appending the root of 2^k nodes at level k, at an aligned size, gives the expansion of the concatenated list |
| Expansion.AppendSize | state-commitments/prefix-proofs/prefix_proofs.go:205-281 | an append at level k adds 2^k to the size |
| Expansion.EmptyBelowIffAligned | state-commitments/prefix-proofs/prefix_proofs.go:238-247 | no level below k is occupied exactly if 2^k divides the size |
| Expansion.AppendPadded | state-commitments/prefix-proofs/prefix_proofs.go:205-281 | zeros on top of an expansion pass through an append unchanged |
| Expansion.AppendInjective | state-commitments/prefix-proofs/prefix_proofs.go:205-281 | the carries can be undone: equal results of an append come from equal expansions and equal subtree roots |
| Expansion.AppendedGrows | state-commitments/prefix-proofs/prefix_proofs.go:240-275 | an append adds a level exactly if the size reaches the next power of two |
| MerkleExpansions.Root | state-commitments/prefix-proofs/prefix_proofs.go:153-186 | the loop computes the fold, with the errors for empty and oversized expansions |
| MerkleExpansions.RootRefusesIff | state-commitments/prefix-proofs/prefix_proofs.go:153-160 | a root is refused exactly for empty expansions and for more than 64 levels |
| MerkleExpansions.TreeSize | state-commitments/prefix-proofs/prefix_proofs.go:189-197 | the loop over powers of two computes the size |
| MerkleExpansions.Propagate | state-commitments/prefix-proofs/prefix_proofs.go:232-275 | the carry loop fails exactly if a level below the append level is occupied, and otherwise yields the recursive carry |
| MerkleExpansions.AppendCompleteSubTree | state-commitments/prefix-proofs/prefix_proofs.go:205-281 | the append with all its error cases, in the order the code checks them |
| MerkleExpansions.AppendOkIff | state-commitments/prefix-proofs/prefix_proofs.go:205-281 | an append succeeds exactly if the subtree is not empty, 2^level divides the size, the level exists, and old and new size stay within 64 levels; which error says what |
| MerkleExpansions.AppendLeaf | state-commitments/prefix-proofs/prefix_proofs.go:286-292 | a leaf is hashed once and appended at level zero |
| MerkleExpansions.ExpFits | state-commitments/prefix-proofs/prefix_proofs.go:205-281 | an expansion stays within 64 levels exactly for lists shorter than 2^64 |
| MerkleExpansions.ExpansionFromLeaves | state-commitments/prefix-proofs/merkle_expansions.go:49-59 | appending leaf by leaf yields the expansion of the leaf hashes, and fails only from 2^64 leaves on |
| MerkleExpansions.RootFetcherFromExpansion | state-commitments/prefix-proofs/merkle_expansions.go:63-69 | fetches the commitment to the first leaves, and fails exactly for none or too many |
| MerkleExpansions.Compact | state-commitments/prefix-proofs/merkle_expansions.go:20-30 | the non-zero entries in order, and the size |
| MerkleExpansions.MerkleExpansionFromCompact | state-commitments/prefix-proofs/merkle_expansions.go:32-47 | spreads hashes over the set bits of the size and reads as many hashes as there are set bits |
| MerkleExpansions.CompactRoundTrip | state-commitments/prefix-proofs/merkle_expansions.go:20-47 | spreading the compact form by the size gives the expansion back, whatever proof follows it |
| MerkleExpansions.CompactCount | state-commitments/prefix-proofs/merkle_expansions.go:20-47 | the compact form has one hash per set bit of the size |
| MerkleExpansions.CompactRoundTripOfLeaves | layer2-state-provider/history_commitment_provider.go:321-322 | for the expansion of a leaf list the number of hashes read is the set bits of its length, so the proof behind it is untouched |
| Levels.MaximumAppendIsLevel | state-commitments/prefix-proofs/prefix_proofs.go:299-340 | the masked bit expressions compute the level found bit by bit, and fail exactly if start is not below end |
| Levels.LevelIsLargest | state-commitments/prefix-proofs/prefix_proofs.go:299-340 | a level is at most the chosen one exactly if 2^k divides the start and start + 2^k does not exceed the end |
| Levels.MaskedBits | state-commitments/prefix-proofs/prefix_proofs.go:368-405 | prover and verifier read the same level off the masked sizes |
| Levels.StepsBound | state-commitments/prefix-proofs/prefix_proofs.go:449-474 | the greedy choice of levels gets from start to end in at most 2 * msb(start xor end) + 1 steps |
| PrefixProofs.NextSubtree | state-commitments/prefix-proofs/prefix_proofs.go:368-405 | the prover's next subtree has 2 to the chosen level leaves |
| PrefixProofs.SubtreeRoots | state-commitments/prefix-proofs/prefix_proofs.go:368-405 | the prover's loop emits the roots of exactly the greedy subtrees between the two sizes |
| PrefixProofs.GeneratePrefixProof | state-commitments/prefix-proofs/prefix_proofs.go:342-407 | the compact prefix expansion followed by the greedy subtree roots, with the error cases for zero sizes and wrap-around |
| PrefixProofs.ProofForShift | state-commitments/prefix-proofs/prefix_proofs.go:342-407 | the proof made from the later leaves alone is the one made from the whole list |
| PrefixProofs.ProofLength | state-commitments/prefix-proofs/prefix_proofs.go:368-405 | a generated proof has one root per greedy step, so at most 2 * msb(start xor end) + 1 of them |
| PrefixProofs.VerifyPrefixProof | state-commitments/prefix-proofs/prefix_proofs.go:421-496 | the loop implements the recursive replay with every check of the code, in order |
| PrefixTheorems.ReplayForward | state-commitments/prefix-proofs/prefix_proofs.go:449-474 | replaying the generated proof from the prefix's expansion ends in the whole list's expansion with no proof left over |
| PrefixTheorems.ReplayBackward | state-commitments/prefix-proofs/prefix_proofs.go:449-474 | a replay that ends in the list's expansion began with its prefix's expansion and used exactly the generated proof |
| PrefixTheorems.VerifyExact | state-commitments/prefix-proofs/prefix_proofs.go:421-496 | against a committed list, exactly the configurations with the prefix's expansion, up to zeros on top, its folded root and the generated proof are accepted |
| PrefixTheorems.AcceptedProofLength | state-commitments/prefix-proofs/prefix_proofs.go:449-496 | every accepted proof, whatever the roots, has exactly one hash per greedy step and keeps that bound |
| PrefixTheorems.Completeness | state-commitments/prefix-proofs/prefix_proofs.go:342-496 | the generated proof of every proper non-empty prefix is accepted |
| PrefixTheorems.Soundness | state-commitments/prefix-proofs/prefix_proofs.go:421-496 | if both roots are commitments to lists of the given sizes, acceptance makes one a proper prefix of the other and the configuration the generated one |
| PrefixTheorems.ProvableIffPrefix | state-commitments/prefix-proofs/prefix_proofs.go:421-496 | some expansion and proof are accepted for two lists exactly if one is a proper prefix of the other |
| PrefixTheorems.PreRootIsCommitmentIff | state-commitments/prefix-proofs/prefix_proofs.go:421-496 | an accepted pre-root is the commitment to the prefix exactly if the pre-expansion has no zero on top, and with one it commits to no list at all |
| PrefixTheorems.PaddedPreExpansionAccepted | state-commitments/prefix-proofs/prefix_proofs.go:421-496 | a pre-expansion with a zero on top that is accepted although its root is the commitment to no list |
| PrefixTheorems.CorruptionsAreTold | state-commitments/prefix-proofs/prefix_proofs.go:421-496 | every single corruption of a generated proof, in root, size, order or length, is refused with its own error |
| InclusionProofs.BuildLayer | state-commitments/inclusion-proofs/inclusion_proofs.go:42-51 | one layer of the tree, the last node padded with zero |
| InclusionProofs.FullTree | state-commitments/inclusion-proofs/inclusion_proofs.go:23-56 | all layers of the reference tree, and the number allocated beforehand is exact |
| InclusionProofs.LayerAbove | state-commitments/inclusion-proofs/inclusion_proofs.go:42-54 | each layer is the padded pairing of the one below, and only the last has one node |
| InclusionProofs.BatchesTile | state-commitments/inclusion-proofs/inclusion_proofs.go:69-91 | the batches are consecutive and cover all leaves, for every number of workers |
| InclusionProofs.Rehash | state-commitments/inclusion-proofs/inclusion_proofs.go:69-91 | hashing in batches hashes every leaf once, for every number of workers |
| InclusionProofs.GenerateInclusionProof | state-commitments/inclusion-proofs/inclusion_proofs.go:59-115 | the siblings on the way from the leaf to the root, and an error exactly for an index out of range |
| InclusionProofs.FillProof | state-commitments/inclusion-proofs/inclusion_proofs.go:97-112 | one sibling per layer, zero where the layer ends |
| InclusionProofs.PathAt | state-commitments/inclusion-proofs/inclusion_proofs.go:103-112 | the proof entry of a layer is the sibling, in that layer, of the node above the leaf |
| InclusionProofs.CalculateRootFromProof | state-commitments/inclusion-proofs/inclusion_proofs.go:118-132 | the loop over index bits hashes upwards along the proof; proofs longer than 256 are refused |
| InclusionProofs.PathReachesRoot | state-commitments/inclusion-proofs/inclusion_proofs.go:59-132 | the generated proof of every node leads to the root of the padded tree |
| InclusionProofs.InclusionExact | state-commitments/inclusion-proofs/inclusion_proofs.go:118-132 | a proof reaches the commitment exactly if it is the one generated for a position holding that leaf, index bits above the depth being ignored |
| History.New | state-commitments/history/commitments.go:37-91 | root, height and end leaves of the list; both leaf proofs lead to the root the expansion gives |
| History.RequestRange | layer2-state-provider/history_commitment_provider.go:275-297 | the checks let exactly the well-formed ranges through, and say which of the others fails which check |
| History.SplitProof | layer2-state-provider/history_commitment_provider.go:321-322 | dropping the compact expansion leaves the proof proper |
| History.CheckedPrefixProof | layer2-state-provider/history_commitment_provider.go:299-335 | for every proper non-empty prefix the checked proof is returned: the local verification never fails |
| History.PrefixProof | layer2-state-provider/history_commitment_provider.go:261-336 | every request for a proper prefix of the available leaves succeeds; all others fail, with the error of the first check they miss while sizes fit a word, and none at the local check |
| History.DetermineBisectionHistoryWithProof | challenge-manager/edge-tracker/tracker.go:552-638 | every edge of length two or more gets the commitment at its bisection point with a proof the verifier accepts; shorter ones are refused |
| Bisection.BisectIsMid | math/math.go:21-31 | on every range of length two or more the result is the number strictly inside with the most trailing zeros; the branch for length two is no exception |
| Bisection.MidIsCanonical | math/math.go:21-31 | every other number strictly inside has fewer trailing zeros |
| Bisection.BisectRefusesIff | math/math.go:21-31 | ranges shorter than two are refused, and only they, exactly outside the wrap-around at the top of the word range |
| Bisection.BisectWraps | math/math.go:21-31 | an empty range, from the last word to 1, that is bisected at 0 |
| Bisection.RankIsMsb | math/math.go:28-30 | the rank of a range is the highest differing bit of the start and the last height before the end |
| Bisection.RankFalls | challenge-manager/challenge-tree/generalized_path_timer.go:208-252 | both halves of a range have a smaller rank |
| Bisection.RankAtMost64 | challenge-manager/challenge-tree/generalized_path_timer.go:208-252 | ranks of word ranges are at most 64 |
| Bisection.BisectionDepth | challenge-manager/challenge-tree/generalized_path_timer.go:208-252 | a chain of successive halves of a word range has at most 64 steps |
| Bisection.Laminar | challenge-manager/challenge-tree/generalized_path_timer.go:208-252 | two ranges bisected from one root are nested in the tree or do not overlap |
| Bisection.ParentUnique | challenge-manager/challenge-tree/generalized_path_timer.go:208-252 | a range is a half of only one other |
| Protocol.AddKeepsInv | contracts/src/challengeV2/libraries/EdgeChallengeManagerLib.sol:156-197 | adding an admissible edge keeps the store well formed: first and first rival are the earliest two of their group |
| Protocol.BisectKeepsInv | contracts/src/challengeV2/libraries/EdgeChallengeManagerLib.sol:543-596 | a bisection keeps the store well formed, also when the lower child exists already |
| Protocol.SubchallengeRootKeepsInv | contracts/src/challengeV2/libraries/EdgeChallengeManagerLib.sol:209-320 | a subchallenge on a length-one rival keeps the store well formed |
| Protocol.ExecInv | contracts/src/challengeV2/libraries/EdgeChallengeManagerLib.sol:156-596 | after every run each edge but a block level root has a parent group that was rivaled when the edge was created |
| Protocol.ParentGroupUnique | contracts/src/challengeV2/libraries/EdgeChallengeManagerLib.sol:543-596 | a group of rivals comes about from one parent group only |
| Moves.HasRivalIff | contracts/src/challengeV2/libraries/EdgeChallengeManagerLib.sol:447-462 | the store reports a rival exactly if another edge has the same mutual id |
| Moves.ExecBorn | contracts/src/challengeV2/libraries/EdgeChallengeManagerLib.sol:407-596 | over every run each edge was created on an edge that exists or by a bisection |
| Moves.UpperHalfMeansBisected | contracts/src/challengeV2/libraries/EdgeChallengeManagerLib.sol:534-536 | over every run an edge's upper half exists exactly if the edge was bisected |
| Moves.PathToBlockRoot | challenge-manager/challenge-tree/generalized_path_timer.go:107-191 | over every run each edge has a path of parents and claimed edges up to a block level root |
| Moves.BlockRootIsCreated | contracts/src/challengeV2/libraries/EdgeChallengeManagerLib.sol:387-423 | a block level edge is added with the assertion it claims, exactly if it is new and of the right height |
| Moves.SubchallengeIsOpened | contracts/src/challengeV2/libraries/EdgeChallengeManagerLib.sol:263-320 | over every run a subchallenge opens exactly on a length-one edge with a rival and a level below, and its new edge claims that very edge |
| Moves.EdgeIsBisected | contracts/src/challengeV2/libraries/EdgeChallengeManagerLib.sol:543-596 | over every run an edge is bisected exactly if it has length two or more, a rival, and was not bisected; which halves it gets |
| Moves.TimePasses | contracts/src/challengeV2/libraries/EdgeChallengeManagerLib.sol:476-511 | a block changes nothing but the time |
| Timers.EarliestRival | challenge-manager/challenge-tree/local_timer.go:45-58 | the least creation block among the other edges of a group, and nothing exactly if there are none |
| Timers.TimerSlope | challenge-manager/challenge-tree/local_timer.go:16-41 | a local timer never falls and grows by at most one per block |
| Timers.LateRivalKeepsTimer | challenge-manager/challenge-tree/local_timer.go:16-41 | a rival created at block b changes no timer at or before b |
| Timers.OneTimerPerGroup | challenge-manager/challenge-tree/local_timer.go:16-41 | of two rivals at most one ever has a positive timer, at whatever blocks they are read |
| Timers.TimerMatchesContract | contracts/src/challengeV2/libraries/EdgeChallengeManagerLib.sol:476-511 | over every run the validator's timer of an edge is the contract's, which looks only at the first rival |
| Timers.ParentStopsFirst | challenge-manager/edge-tracker/tracker.go:242-258 | a parent's group is rivaled by the time the first edge of the child's group is created |
| Timers.NoDoubleCounting | challenge-manager/challenge-tree/generalized_path_timer.go:79-191 | over every run, along every path of ancestors, each ancestor's timer stops before the edges below it are created, so the timers add up to at most the blocks since the top group began |
| TreeIndex.CallKeepsIndex | challenge-manager/challenge-tree/tree.go:92-292 | one AddEdge, AddHonestEdge or read of rivals keeps the three indexes in agreement with the plain list |
| TreeIndex.ReadKeepsIndex | challenge-manager/challenge-tree/local_timer.go:98-105 | the empty entry a read of unknown rivals inserts changes no answer of the index |
| TreeIndex.RunKeepsIndex | challenge-manager/challenge-tree/tree.go:92-292 | after every list of additions and reads tracked edges sit under their mutual id with their creation block, and claiming ones exactly once in the root list of their level |
| TreeIndex.RepeatedAddChangesNothing | challenge-manager/challenge-tree/tree.go:92-256 | adding an edge again changes nothing |
| TreeIndex.GroupIsScanIff | challenge-manager/challenge-tree/local_timer.go:98-117 | the recorded group of a mutual id is the scan of all added edges exactly if its start is agreed with or all of them are tracked |
| TreeIndex.BlockRootIff | challenge-manager/challenge-tree/tree.go:69-83 | the honest block level root is found exactly if there is one tracked claiming edge of level 0 and no other |
| Ancestors.FindOriginMember | challenge-manager/challenge-tree/generalized_path_timer.go:299-309 | the root found has the origin asked for, and none is found only if no root has it |
| Ancestors.DescendExact | challenge-manager/challenge-tree/generalized_path_timer.go:196-257 | the descent by bisection heights passes exactly the edges between the root and the edge asked for |
| Ancestors.SearchYieldsPath | challenge-manager/challenge-tree/generalized_path_timer.go:110-257 | whatever list the search returns, it completes the edge to a path of tracked parents and claimed edges up to a block level root |
| Ancestors.DescentMissesIff | challenge-manager/challenge-tree/generalized_path_timer.go:232-251 | one level's descent follows a child the tree does not have exactly if some edge on its way on chain is not tracked |
| Ancestors.DescentEnds | challenge-manager/challenge-tree/generalized_path_timer.go:208-252 | with all edges on its way tracked, a descent ends at the edge asked for or with the error that tells why the chain does not lead on |
| PathTimers.ReachesIffSomeSuffix | challenge-manager/challenge-tree/generalized_path_timer.go:52-74 | the early-exit scan succeeds exactly if some suffix of the list, with the assertion's blocks, reaches the period |
| PathTimers.PathTimerIsSuffix | challenge-manager/challenge-tree/generalized_path_timer.go:79-105 | the path timer of an ancestor is a suffix sum of the timers along the edge's path |
| ChallengeTree.HonestChallengeTree.constructor | challenge-manager/challenge-tree/tree.go:47-65 | an empty tree with two levels more than big-step levels |
| ChallengeTree.HonestChallengeTree.HonestBlockChallengeRootEdge | challenge-manager/challenge-tree/tree.go:69-83 | the block level root of the model, which TreeIndex.BlockRootIff pins down |
| ChallengeTree.HonestChallengeTree.AddEdge | challenge-manager/challenge-tree/tree.go:92-256 | the new indexes and the answer for every outcome of the checks; TreeRuns.AddEdgeAnswersTruly, AddEdgeOkIff and AddEdgeRefuses say what they mean |
| ChallengeTree.HonestChallengeTree.AddHonestEdge | challenge-manager/challenge-tree/tree.go:259-292 | tracks and records an edge once |
| ChallengeTree.HonestChallengeTree.RivalsWithCreationTimes | challenge-manager/challenge-tree/local_timer.go:98-117 | lists the other edges of the group, each exactly once, and inserts an empty entry exactly if there was none |
| ChallengeTree.HonestChallengeTree.EarliestCreatedRivalBlockNumber | challenge-manager/challenge-tree/local_timer.go:45-58 | the loop finds the earliest rival |
| ChallengeTree.HonestChallengeTree.UnrivaledAtBlockNum | challenge-manager/challenge-tree/local_timer.go:62-86 | an error exactly before the edge's creation; unrivaled exactly before its earliest rival |
| ChallengeTree.HonestChallengeTree.LocalTimerAt | challenge-manager/challenge-tree/local_timer.go:16-41 | the blocks from creation to the earlier of the block asked for and the first rival, and never negative |
| ChallengeTree.HonestChallengeTree.FindHonestAncestorsWithinChallengeLevel | challenge-manager/challenge-tree/generalized_path_timer.go:196-257 | the descent terminates and returns its edges with the local timer of each at the same position |
| ChallengeTree.HonestChallengeTree.SearchLevel | challenge-manager/challenge-tree/generalized_path_timer.go:134-149 | one level of the search: the root found and the ancestors below it, child first |
| ChallengeTree.HonestChallengeTree.ComputeAncestorsWithTimers | challenge-manager/challenge-tree/generalized_path_timer.go:110-191 | the loop over levels returns the recursive search's answer, error or list, with matching timers |
| ChallengeTree.HonestChallengeTree.ComputeHonestPathTimer | challenge-manager/challenge-tree/generalized_path_timer.go:79-105 | the edge's timer, the assertion's blocks and the ancestors' timers added as words, with the error cases |
| ChallengeTree.HonestChallengeTree.ComputeHonestPathTimerByBlockNumber | challenge-manager/chain-watcher/watcher.go:183-205 | the path timer over the ancestors the search finds, with those and their timers, or the error of either step |
| ChallengeTree.HonestChallengeTree.HasConfirmableAncestor | challenge-manager/challenge-tree/generalized_path_timer.go:52-74 | the running sum's answer, with the empty list and the failing read |
| TreeRuns.AgreementsAreTrue | challenge-manager/challenge-tree/tree.go:149-216 | what AddEdge concludes from the two agreements is whether end and start are on the local history |
| TreeRuns.HonestEndHasHonestStart | challenge-manager/challenge-tree/tree.go:149-216 | an edge whose end is on the local history starts on it |
| TreeRuns.TrackedAreHonest | challenge-manager/challenge-tree/tree.go:219-222 | over every run all tracked edges are on the local history |
| TreeRuns.AddEdgeAnswersTruly | challenge-manager/challenge-tree/tree.go:217-256 | over every run a successful AddEdge reports an honest edge exactly if its end, and agreement exactly if its start is on the local history, tracks exactly the honest edges and records those with an honest start |
| TreeRuns.AddEdgeOkIff | challenge-manager/challenge-tree/tree.go:92-216 | over every run AddEdge succeeds exactly if the edge is new, of this challenge, the assertion its challenge claims is known, and its heights and commitments can be read |
| TreeRuns.AddEdgeRefuses | challenge-manager/challenge-tree/tree.go:93-103 | tracked edges and edges of another challenge are refused, each with its own error, and nothing else is |
| TreeRuns.TrackedBlockRootIsFound | challenge-manager/challenge-tree/tree.go:69-83 | over every run about one challenge a tracked block level edge with a claim is the block root found |
| TreeRuns.TrackedGroupIsScan | challenge-manager/challenge-tree/local_timer.go:98-117 | over every run the recorded rivals of a tracked edge are exactly those among all edges ever added |
| TreeRuns.RepeatedAddHonestChangesNothing | challenge-manager/challenge-tree/tree.go:259-264 | over every run adding an own edge that was added before, in whatever way, changes nothing |
| TreeRuns.TrackedGroupIsChains | challenge-manager/challenge-tree/local_timer.go:98-117 | once all edges a group has on chain were added, the tree knows exactly the group the chain has |
| TreeRuns.PathTimerIsSum | challenge-manager/challenge-tree/generalized_path_timer.go:79-105 | on a tracked path whose groups were added the tree's path timer is the sum of the chain's timers and the assertion's blocks |
| TreeRuns.DisagreedGroupIsNotScan | challenge-manager/challenge-tree/tree.go:239-251 | a run in which a forged half-edge is added but not recorded |
| TreeRuns.HonestRootUnique | challenge-manager/challenge-tree/generalized_path_timer.go:267-282 | a challenge has at most one honest level zero edge |
| TreeRuns.TrackedRootIsRegistered | challenge-manager/challenge-tree/generalized_path_timer.go:267-282 | over every run the lookup by origin finds each tracked level zero edge |
| TreeRuns.RunIsSearchable | challenge-manager/challenge-tree/tree.go:92-292 | after every run the preconditions of the search hold and every root lookup succeeds |
| TreeRuns.AncestorsExact | challenge-manager/challenge-tree/generalized_path_timer.go:110-257 | over every run the search returns a list exactly if it leads from the edge through tracked parents and claimed edges, child first, to a block level root |
| TreeRuns.NoMissingChildIff | challenge-manager/challenge-tree/generalized_path_timer.go:232-251 | over every run, no search follows a child the tree does not have exactly if the way from each level's root to each tracked edge is tracked as far as the chain has it |
| TreeRuns.TrackedHalvesSuffice | challenge-manager/challenge-tree/generalized_path_timer.go:232-251 | that is so once the halves of all tracked edges are tracked |
| TreeRuns.MissingChildIsReached | challenge-manager/challenge-tree/generalized_path_timer.go:232-251 | a run in which the tree has the root and a quarter but not the half between them, and the descent follows the missing half |
| TreeRuns.ReachesIffAncestorConfirmable | challenge-manager/challenge-tree/generalized_path_timer.go:52-105 | over every run the scan over an edge's ancestor timers succeeds exactly if some ancestor's own path timer, over its own ancestor list, reaches the period |
| TreeRuns.PathTimerBound | challenge-manager/challenge-tree/generalized_path_timer.go:79-191 | over every run, once the groups along the path were added, a tracked edge's path timer exceeds the assertion's unrivaled blocks by at most the blocks since the block level root's group began |
| TreeRuns.TimersFit | challenge-manager/challenge-tree/generalized_path_timer.go:66-104 | the ancestors' sum and the whole path timer then fit a word if the block number and the assertion's blocks together do |
| HistoryProvider.ComputeMachineStartIndex | layer2-state-provider/history_commitment_provider.go:471-503 | the double loop computes the mixed-radix index, and fails exactly if it does not fit a word |
| HistoryProvider.ComputeStepSize | layer2-state-provider/history_commitment_provider.go:511-524 | the product of the leaf heights below a level, modulo 2^64 |
| HistoryProvider.ComputeRequiredNumberOfHashes | layer2-state-provider/history_commitment_provider.go:406-441 | the number of leaves from start to end inclusive, with the errors for levels and heights out of range |
| HistoryProvider.SubchallengeLeaves | layer2-state-provider/history_commitment_provider.go:119-185 | the states a subchallenge request collects: first index, number and step size, and which error comes first |
| HistoryProvider.LevelsLineUp | layer2-state-provider/history_commitment_provider.go:471-524 | a subchallenge opened at leaf h starts at that leaf's opcode and its last leaf lands on leaf h + 1's |
| HistoryProvider.SubchallengeContinuesEdge | layer2-state-provider/history_commitment_provider.go:119-185 | the leaves of a subchallenge begin and end with the two states of the edge it refines |
| HistoryProvider.HeightsRoundTrip | layer2-state-provider/history_commitment_provider.go:471-503 | in-range heights give an index below the opcode count and can be read back from it |
| HistoryProvider.OpcodeRoundTrip | layer2-state-provider/history_commitment_provider.go:471-503 | every index below the opcode count is the index of in-range heights |
| HistoryProvider.OneStepProofData | layer2-state-provider/history_commitment_provider.go:338-399 | fails exactly if one of its two requests is refused; otherwise which opcodes its two states are at and which opcode the proof is for |
| HistoryProvider.OneStepOpcodes | layer2-state-provider/history_commitment_provider.go:338-399 | over all accepted requests, the proof is for the before state's opcode exactly if the leaves since the start of the request span as many opcodes as the height and the sum fits a word |
| HistoryProvider.OneStepExact | layer2-state-provider/history_commitment_provider.go:338-399 | over all accepted requests, the opcode proved is the one between the two states exactly from height 0, with leaves one opcode apart and sums that fit a word |
| HistoryProvider.OneStepOnLastLevel | layer2-state-provider/history_commitment_provider.go:338-399 | on the last level the proof is for the before state exactly from height 0 with a sum that fits a word |
| HistoryProvider.TrackerProvesStep | challenge-manager/edge-tracker/tracker.go:934-945 | the tracker's requests are accepted and prove the step whenever a block's opcodes can be counted in a word |
| HistoryProvider.OneStepFromOneIsOff | layer2-state-provider/history_commitment_provider.go:338-399 | an accepted request from height 1 that is off by one opcode |
| HistoryProvider.OneStepAboveLastLevelIsOff | layer2-state-provider/history_commitment_provider.go:338-399 | an accepted request from height 0 above the last level that is off by seven opcodes |
| Fsm.EnteredRepresents | containers/fsm/fsm.go:92-101 | entering a row into the transition map makes it represent the longer table, later rows winning |
| Fsm.Fsm.constructor | containers/fsm/fsm.go:75-103 | the maps represent the whole table and the machine is in its start state |
| Fsm.Fsm.CanTransition | containers/fsm/fsm.go:107-115 | true exactly if the table leads from the current state by the event |
| Fsm.Fsm.Do | containers/fsm/fsm.go:122-150 | moves where the table leads and records it; otherwise nothing changes and the error says whether the event is known at all |
| EdgeTracker.TableLookup | challenge-manager/edge-tracker/transition_table.go:14-58 | the table and the transition function agree on all 36 pairs |
| EdgeTracker.Tracker.TryToConfirm | challenge-manager/edge-tracker/tracker.go:468-548 | whether the edge ends up confirmed and whether the tracker confirmed it, which ConfirmsOnGround and ConfirmsIff explain |
| EdgeTracker.Tracker.Decide | challenge-manager/edge-tracker/tracker.go:217-343 | the event a round asks for and what it changes on chain; StartedRound, MoveRound, LastRound and GivesUpIff say which, told by the edge |
| EdgeTracker.Tracker.Act | challenge-manager/edge-tracker/tracker.go:217-343 | one round on the machine and the chain, and exactly when it returns an error |
| EdgeTracker.RoundKeepsSafe | challenge-manager/edge-tracker/tracker.go:217-343 | a round with truthful answers keeps the safety invariant and asks only for allowed transitions |
| EdgeTracker.RunSafety | challenge-manager/edge-tracker/tracker.go:217-343 | over every run no transition is refused, a confirmed tracker's edge is confirmed on chain, at most one challenge move succeeds and none follows it, at most one challenge transaction goes through even if calls fail after theirs, only edges of length two or more are bisected, only single steps above the last level get a subchallenge, only single steps of the last level are one-step proved, and confirmation is awaited only after a move |
| EdgeTracker.ConfirmedIsAbsorbing | challenge-manager/edge-tracker/tracker.go:337-339 | a confirmed tracker stays confirmed and moves no more |
| EdgeTracker.ConfirmsOnGround | challenge-manager/edge-tracker/tracker.go:483-547 | the tracker confirms only with confirmed children, a confirmed claim or a path timer of at least the period, and never against a confirmed rival |
| EdgeTracker.ConfirmsIff | challenge-manager/edge-tracker/tracker.go:468-548 | with all reads and transactions succeeding it confirms exactly if the edge is confirmed, or has a ground and no confirmed rival |
| EdgeTracker.ConfirmedForAReason | challenge-manager/edge-tracker/tracker.go:468-548 | over every run a confirmed edge was confirmed by someone else, by a one-step proof or on a ground |
| EdgeTracker.StartedRound | challenge-manager/edge-tracker/tracker.go:222-257 | where a started tracker goes, told by length, level, rival and ground for confirmation |
| EdgeTracker.GivesUpIff | challenge-manager/edge-tracker/tracker.go:222-244 | a round ends in an error exactly if a tracker that can neither prove nor confirm cannot read its rivals |
| EdgeTracker.MoveRound | challenge-manager/edge-tracker/tracker.go:266-324 | a move that returns leads to the wait for confirmation, one that fails to the start; what is counted |
| EdgeTracker.LastRound | challenge-manager/edge-tracker/tracker.go:258-265 | provers and waiting trackers end up confirmed exactly if their attempt succeeds |
| EdgeTracker.TwoRoundsMove | challenge-manager/edge-tracker/tracker.go:217-343 | from the start, two rounds with answered reads and successful moves prove, bisect or open a subchallenge, whichever the edge calls for |
| EdgeTracker.UnhinderedRoundConfirmsIff | challenge-manager/edge-tracker/tracker.go:325-336 | over every run an unhindered attempt ends confirmed exactly if there is a ground and no confirmed rival, or it was confirmed |
| Confirmation.TimerIsOnChainSum | challenge-manager/chain-watcher/watcher.go:183-205 | over every run the timer the tracker hears is the sum of the on-chain timers along the path and the assertion's blocks |
| Confirmation.NoTimerNoConfirmation | challenge-manager/edge-tracker/tracker.go:520-531 | a timer that could not be computed confirms nothing |
| Confirmation.ConfirmsByTimeIff | challenge-manager/edge-tracker/tracker.go:519-547 | over every run the tracker confirms by time exactly if that sum reaches the challenge period |
| Confirmation.TimeMustPass | challenge-manager/edge-tracker/tracker.go:519-547 | over every run it does so only if the assertion's blocks and the blocks since the block level root's group began make up the period |
| OriginHeights.ExecKeepsOrigins | contracts/src/challengeV2/libraries/EdgeChallengeManagerLib.sol:209-320 | over every run the mutual id a subchallenge originates from has a first rival |
| OriginHeights.SourceIsClaimed | chain-abstraction/sol-implementation/edge_challenge_manager.go:365-377 | the first-rival lookup finds a member of the group the edge's subchallenge was opened on, one level up |
| OriginHeights.TopLevelClaimHeight | chain-abstraction/sol-implementation/edge_challenge_manager.go:351-390 | over every run the walk succeeds and yields the start heights of the claimed groups, top level first |
| OriginHeights.SubchallengeHeights | challenge-manager/edge-tracker/tracker.go:679-781 | the height list built for opening a subchallenge is the claimed start heights extended by the edge's own |
| OriginHeights.HeightsConsistent | challenge-manager/edge-tracker/tracker.go:679-858 | that list is the claim height list of the new leaf and of every edge ever bisected from it |
| AssertionChain.Wrapper.IsChallengeComplete | chain-abstraction/sol-implementation/assertion_chain.go:167-195 | the answer and the cache afterwards, for cached, unconfirmed and latest parents and for either read failing |
| AssertionChain.Wrapper.ConfirmAssertionByChallengeWinner | chain-abstraction/sol-implementation/assertion_chain.go:334-398 | confirms only children of the latest confirmed assertion, with the no-op cases, every failing read, and the receipt without logs that hides a confirmation |
| AssertionChain.RunKeepsLine | chain-abstraction/sol-implementation/assertion_chain.go:334-398 | over every run the confirmed assertions form one line from genesis to the latest |
| AssertionChain.NoConfirmedSiblings | chain-abstraction/sol-implementation/assertion_chain.go:334-398 | over every run no two confirmed assertions share a parent |
| AssertionChain.SuccessMeansConfirmed | chain-abstraction/sol-implementation/assertion_chain.go:334-398 | over every run a reported success means the assertion is confirmed, and an error other than missing logs that nothing changed |
| AssertionChain.ConfirmsIffParentIsLatest | chain-abstraction/sol-implementation/assertion_chain.go:360-398 | over every run, with nothing failing, an assertion is confirmed, becomes the latest and is reported so exactly if its parent was the latest confirmed |
| AssertionChain.ParentlessIsLeftAlone | chain-abstraction/sol-implementation/assertion_chain.go:351-354 | an assertion without a parent is left alone without an error |
| AssertionChain.CachedAnswerIsTrue | chain-abstraction/sol-implementation/assertion_chain.go:167-195 | over every run the answer, cached or not, is what the chain would say; when there is an answer; and exactly the true ones are kept |

## Left out

- Keccak is replaced by free hash terms, so leaf and node hashes never collide and are never zero.
- Goroutines, mutexes and the threadsafe containers: calls run one after another; for the batched leaf hashing only the index ranges matter and the worker count is a parameter.
- Context cancellation, logging, metrics, retries, tickers and random delays.
- `api/`, `solgen/`, gas estimation, event parsing, the watcher's polling, the assertion poster and scanner: input and output around the modelled core.
- The edge store keeps leaf lists where the contract keeps their commitments. `Merkle.CommitInjective` and `PrefixTheorems.Soundness` justify it; roots that commit to nothing are kept out of the store by the contract's own append, which refuses an expansion with a zero on top (contracts/src/challengeV2/libraries/MerkleTreeLib.sol, line 228) where the Go append does not. The inclusion and prefix proofs a transaction carries are therefore not replayed in `Protocol`; leaving the inclusion checks of subchallenge leaves out only allows more runs.
- On-chain confirmations, mini-stakes and `confirmEdgeByTime`'s own sum: the tracker sees confirmations as answers.
- Tracker.ShouldDespawn, the despawning of trackers, and the spawning of child trackers.
- EdgeTracker.Tracker.Act: what a second transaction would do is an answer; the model takes from the contract only that edges which exist already cannot be created again.
- EdgeTracker.RunSafety: the act interval is positive, which the tracker's constructor checks.
- EdgeTracker.Tracker.Decide: challenge levels are unbounded numbers, so `totalChallengeLevels - 1` does not wrap for zero levels.
- TreeRuns.TrackedAreHonest: the local history of a challenge is a fixed function of its level and origin heights; it does not depend on the claimed assertion's batches, and each read fails or succeeds once and for all.
- ChallengeTree.HonestChallengeTree.AddEdge: reading an edge's creation block does not fail, as in the chain's own edges (chain-abstraction/sol-implementation/edge_challenge_manager.go, lines 106-108).
- ChallengeTree.HonestChallengeTree.FindHonestAncestorsWithinChallengeLevel: a child missing from the tree, where the code would dereference nil, is an error value of its own; a failed read of an edge's children ends the search as an edge without children does, so only the kind of error differs.
- ChallengeTree.HonestChallengeTree.ComputeAncestorsWithTimers: its precondition is what `TreeRuns.RunIsSearchable` establishes for every run.
- TreeRuns.ReachesIffAncestorConfirmable: the timer sum fits a word; `TreeRuns.TimersFit` says when it does.
- MerkleExpansions.MerkleExpansionFromCompact: sizes below 2^63, because the code's loop variable is doubled in a word, and at least as many hashes as the size has set bits, because the code indexes without a check.
- History.PrefixProof: lists shorter than 2^63, the largest slice length in Go.
- PrefixProofs.GeneratePrefixProof: the error returns of the calls inside the loop, which cannot be reached.
- TreeSize's floating-point powers are modelled as the powers of two they are.
- HistoryProvider.ComputeMachineStartIndex: appending the start height to the caller's slice may write into its backing array in Go; the model works on values.
- HistoryProvider.OneStepProofData: the collectors of hashes and proofs never fail, and the two leaf inclusion proofs it passes on are those of `History.New`.
- Block level leaves come from the `L2MessageStatesUpTo` collector, which is an external call.
- Fsm.Fsm.constructor: keys are the events and states themselves rather than their strings, and options are the one flag there is.
- The reversal of the ancestor lists is a function, not an in-place swap.
