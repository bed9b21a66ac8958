# Verified model of libsignal's key-transparency verifier and four stateful protocols

This project models, in Dafny, the logic of libsignal that decides whether a server is believed:

* the key-transparency verifier (`rust/keytrans`): a flat left-balanced tree, the Log Tree with batch
  inclusion and consistency proofs, the binary search over an implicit tree, the acceptance of searches,
  tree heads and monitor responses, and the monitoring data a client keeps;
* the two-thread frame pipeline of `rust/message-backup`;
* streaming AES-256-GCM in `rust/crypto`;
* certificate chain sorting and Noise packet chunking in `rust/attest`.

Code that computes with expressions is modelled by functions; loops, objects and in-place updates are
methods, classes and arrays, each proved against a specification function or predicate.

**Hashes and ciphers are parameters.** `TreeHash`, `PrefixHash`, `Hashes`, `Gcm` and `Cipher` hold
uninterpreted functions. No hash to strings of a fixed length is free of collisions, so soundness does not
assume that: it says that a property holds or that the response and the log *exhibit* a collision, two
different inputs with the same hash among those actually hashed (`ClashBelow`, `ConsistencyClash`,
`OpeningClash`, `SearchClash`, `MonitorClash`). The contracts of the two verifications tie those inputs to the
response. That ideal hash functions never do is proved beside them.
Completeness, that honest answers are accepted, holds for all hash functions. The AEAD law (`IsAead`) is a
hypothesis where it is needed. Signatures and clock windows are the predicates in `Checks`, one value for
each response.

**Integers** are unbounded. For positions below 2^63 - 1 the tree steps stay in a 64-bit word
(`LeftBalanced.StepsFitWord`), and for at most 2^62 leaves so do the sums of the log's arithmetic
(`ConsistencyIds.SumsFitWord`).

**Calls that do not return.** Panics and loops that never return are outcomes of the model (`None`, `NoReturn`),
with the exact condition under which they happen. The condition that matters is a server's choice: the full
monitoring path of an entry is walked before the announced tree size is checked, and it returns iff the
entry lies in that tree below the root of the search (`ImplicitTree.FullMonitoringPath`,
`ImplicitTree.WalkWithoutEnd`).

**Main results**

1. *Exact proofs.* Against a log, a batch inclusion proof evaluates to the root, and a consistency proof is
   accepted, iff every hash in it is the log's own (`LogProofs.BatchProofIsExact`,
   `ConsistencyProofs.ConsistencyIsExact`).
2. *Searches.* An accepted search has found the least position of the version and opened that position's
   commitment; an honest answer is always accepted (`Search.SearchIsSound`, `VerifySearch.Verify`).
3. *One history.* All heads accepted in a run, and all audited ones, belong to prefixes of one log
   (`TreeHeads.OneHistory`). Over a client's whole life, in any mix of searches and monitor responses, every
   answer and every stored pointer is true of that log (`ClientRuns.WholeLifeIsTrue`).
4. *Monitoring.* Nothing a server sends makes the client lose track of a mapping; against an honest log no
   sequence of operations fails, and every stored pointer stays true (`Monitoring.RunKeeps`,
   `Monitoring.HonestRun`, `VerifyMonitor.Verify`).
5. *Pipeline.* Every interleaving returns what sequential reading returns, except that a read error may
   overtake a frame's failure iff at most 20 frames follow that frame; nothing gets stuck
   (`FramePipeline.RefinesSequential`, `FramePipeline.ReadErrorExactly`, `FramePipeline.NeverStuck`).
6. *Streams.* GCM decryption under any division inverts encryption under any other, and Noise returns every
   message of a run (`GcmStream.RoundTrip`, `NoiseTransport.RunRoundTrip`).
7. *Certificates.* The chains that sorting restores from every order are exactly those without detours
   (`CertChain.RestoredExactly`).

**Files.** `Bits`, `Wrappers` and `Sequences` are general. `LeftBalanced`, `ImplicitTree` and `Guide` are the
positions and the search. `Merkle`, `RootCalculator`, `LogMath`, `BatchCopath`, `ConsistencyIds`,
`LogProofs` and `ConsistencyProofs` are the Log Tree. `Prefix`, `PrefixTree`, `Search`, `TreeHeads`, `Monitoring`,
`VerifySearch`, `VerifyMonitor` and `ClientRuns` are the client. `FramePipeline`, `GcmStream`, `CertChain` and
`NoiseTransport` are the other components.

**Vocabulary.** Node (k, j) is the j-th node of level k; `Id(k, j)` is its position and `Start(k, j)` its first
leaf. `Lo(x)` and `Hi(x)` bound the positions below x. `Canon(n, k, j)` is the id that stands for the leaves of
(k, j) in a tree of n leaves. A `Cut` chooses the blocks given by one hash; `Tiles` are their ids from left to
right, `TileHashes` a log's hashes there, and `Eval` the hash computed from given ones.

**Where code and documentation differ.** The Log Tree follows section 2.1 of RFC 6962 except for its hash,
which prefixes every child with a byte telling leaf from inner node; the model follows the code. In the
pipeline, a frame's failure is not always what is returned: `FramePipeline.ReadErrorExactly` says when.

## Model

| member | source | states |
|---|---|---|
| LeftBalanced.Coordinates | libsignal-client/rust/keytrans/src/left_balanced.rs:44-46 | every position is the node of its level and index, so (level, index) names each node once |
| LeftBalanced.ChildrenOf | libsignal-client/rust/keytrans/src/left_balanced.rs:48-66 | the xor forms of the child steps are x minus and plus 2^(k-1); both children are one level down, have x as parent, and their intervals with x split the interval of x |
| LeftBalanced.ParentOf | libsignal-client/rust/keytrans/src/left_balanced.rs:62-66 | the parent is one level up and has x as its left or right child |
| LeftBalanced.IntervalWidth | libsignal-client/rust/keytrans/src/left_balanced.rs:44-66 | the subtree of x is the interval of 2^k - 1 positions to either side |
| LeftBalanced.Nested | libsignal-client/rust/keytrans/src/left_balanced.rs:48-66 | subtrees are nested and levels fall strictly on the way down |
| LeftBalanced.StepsFitWord | libsignal-client/rust/keytrans/src/left_balanced.rs:33-66 | for positions below 2^63 - 1 no shift amount, operand or result leaves a 64-bit word |
| ImplicitTree.MoveWithin | libsignal-client/rust/keytrans/src/implicit.rs:12-21 | ends inside [start, n) iff the subtree meets that range, and then at the one node whose subtree covers all of the common part; otherwise the source panics |
| ImplicitTree.CoversUnique | libsignal-client/rust/keytrans/src/implicit.rs:12-36 | a range has only one position whose subtree covers it, so search tree nodes are determined |
| ImplicitTree.Root | libsignal-client/rust/keytrans/src/implicit.rs:24-26 | the position of [start, n) that covers the range; the source panics iff the range is empty |
| ImplicitTree.Left | libsignal-client/rust/keytrans/src/implicit.rs:29-31 | the root of the part left of x, at a lower level and with x as its right neighbour |
| ImplicitTree.Right | libsignal-client/rust/keytrans/src/implicit.rs:34-36 | the root of the part right of x, at a lower level and with x as its left neighbour |
| ImplicitTree.Parent | libsignal-client/rust/keytrans/src/implicit.rs:38-44 | the nearest ancestor below n; the source returns iff there is an ancestor below n |
| ImplicitTree.DirectPath | libsignal-client/rust/keytrans/src/implicit.rs:46-56 | returns iff the position is below the root of the search; then exactly the ancestors below n up to that root, and those above x are the monitoring path |
| ImplicitTree.MonitoringPathOf | libsignal-client/rust/keytrans/src/implicit.rs:60-62 | the computed path does not depend on start; it is returned iff the position is below the root of the search |
| ImplicitTree.MonitoringPathIsAncestors | libsignal-client/rust/keytrans/src/implicit.rs:60-62 | a position is on the path iff it is an ancestor, in the unbounded tree, strictly between x and n |
| ImplicitTree.MonitoringPathIncreasing | libsignal-client/rust/keytrans/src/implicit.rs:60-62 | the path is strictly increasing between x and n |
| ImplicitTree.MonitoringPathAppendOnly | libsignal-client/rust/keytrans/src/implicit.rs:60-62 | the path for a larger log extends the path for a smaller one |
| ImplicitTree.MonitoringPathSuffix | libsignal-client/rust/keytrans/src/implicit.rs:60-62 | from each of its positions the path goes on as that position's own path |
| ImplicitTree.FrontierOf | libsignal-client/rust/keytrans/src/implicit.rs:65-73 | equals the frontier defined from its right end, with at most log2(n) + 1 members; panics iff the range is empty |
| ImplicitTree.FrontierIsAncestors | libsignal-client/rust/keytrans/src/implicit.rs:65-73 | the frontier is the set of positions from start on whose subtree reaches the last one |
| ImplicitTree.PathMeetsFrontier | libsignal-client/rust/keytrans/src/implicit.rs:75-98 | the entry or the end of its monitoring path is on the frontier, for every entry in the log below the root |
| ImplicitTree.MonitoringFrontier | libsignal-client/rust/keytrans/src/implicit.rs:75-83 | the frontier after its last member among the entries; the source's `expect` fails iff there is none |
| ImplicitTree.FullMonitoringPath | libsignal-client/rust/keytrans/src/implicit.rs:87-98 | returns iff the entry is in the log and below the root of the search; for the others the walk never returns or the `expect` fails; the set it keeps never removes anything |
| ImplicitTree.WalkWithoutEnd | libsignal-client/rust/keytrans/src/implicit.rs:38-56 | the failing family has an input: with 4 positions announced, every proper ancestor of entry 8 lies beyond them |
| ImplicitTree.FullPathShape | libsignal-client/rust/keytrans/src/implicit.rs:87-98 | strictly increasing between entry and n; empty iff the entry is last, and otherwise ends at n - 1 |
| ImplicitTree.FullPathIsAncestors | libsignal-client/rust/keytrans/src/implicit.rs:87-98 | its members are the ancestors of the entry, then the ancestors of the last position right of the topmost of these |
| ImplicitTree.FirstParentToTheRight | libsignal-client/rust/keytrans/src/implicit.rs:101-107 | the size at which the position after the subtree of the entry exists |
| ImplicitTree.NextMonitor | libsignal-client/rust/keytrans/src/implicit.rs:109-115 | the exact least size at which some entry has a nonempty monitoring path |
| Guide.ProofGuide.New | libsignal-client/rust/keytrans/src/guide.rs:42-71 | starts a valid search, whose lookups are bounded by log2(n) + 1, or 2 log2(n) + 1 for the most recent version; panics iff pos >= n |
| Guide.ProofGuide.NextId | libsignal-client/rust/keytrans/src/guide.rs:131-133 | the next id lies in [pos, n) and is the first one not looked up |
| Guide.ProofGuide.Insert | libsignal-client/rust/keytrans/src/guide.rs:136-138 | records a counter and keeps the search valid |
| Guide.ProofGuide.Poll | libsignal-client/rust/keytrans/src/guide.rs:74-128 | asks for one more distinct id, or the lookups pin the boundary; fails only when counters are out of order |
| Guide.ProofGuide.Result | libsignal-client/rust/keytrans/src/guide.rs:141-161 | the answer is settled by the lookups alone: the boundary holds the version, or nothing does |
| Guide.ProofGuide.Consume | libsignal-client/rust/keytrans/src/guide.rs:166-178 | for nondecreasing counters: never fails, finds the least position with the version or reports that there is none, with at most log2(n) + 1 lookups, or 2 log2(n) + 1 for the most recent version; the ids asked are those of a plain binary search |
| Guide.ProofGuide.IdsLead | libsignal-client/rust/keytrans/src/guide.rs:74-138 | while counters agree with a reference, only a prefix of the ids the reference search asks is asked |
| Guide.SettledIsLeftmost | libsignal-client/rust/keytrans/src/guide.rs:141-161 | with nondecreasing counters a settled answer is the leftmost position of the version, and no answer means it never occurs |
| Guide.FrontierWindow | libsignal-client/rust/keytrans/src/guide.rs:86-101 | the first frontier member with the last version opens a window that contains the answer |
| Guide.BoundaryAt | libsignal-client/rust/keytrans/src/guide.rs:141-161 | in a finished search the first counter not below the version sits at the boundary |
| Guide.NotNondecreasing | libsignal-client/rust/keytrans/src/guide.rs:74-84 | counters out of order refute every nondecreasing counter function |
| Merkle.BlockIsTree | libsignal-client/rust/keytrans/src/log.rs:252-261 | the hash of a node is the recursive largest-power-of-two-split Merkle hash of the leaves below it |
| Merkle.RootLaws | libsignal-client/rust/keytrans/src/log.rs:252-261 | the root of one leaf is the leaf; otherwise it hashes the root of the first 2^e leaves, for the one e with 2^e < n <= 2^(e+1), with that of the rest, each flagged iff it is not a single leaf |
| Merkle.FullBlockIsStable | libsignal-client/rust/keytrans/src/log.rs:252-261 | filled subtrees keep their hash when the log grows |
| Merkle.EvalIsExact | libsignal-client/rust/keytrans/src/log.rs:263-320 | given hashes evaluate to the root iff they are the log's, unless they and the log exhibit a collision |
| Merkle.NoClash | libsignal-client/rust/keytrans/src/log.rs:252-261 | collision-free hash functions never exhibit one |
| RootCalculator.SimpleRootCalculator.Insert | libsignal-client/rust/keytrans/src/log.rs:272-296 | the loop equals a recursive put with carry: occupied slots are combined upwards and emptied until a free one is found |
| RootCalculator.SimpleRootCalculator.Root | libsignal-client/rust/keytrans/src/log.rs:298-319 | equals folding the occupied slots from the lowest up; an empty chain is an error |
| RootCalculator.RunFullBlock | libsignal-client/rust/keytrans/src/log.rs:272-296 | inserting the tiles of a full subtree equals inserting its one node, for any chain and cut |
| RootCalculator.RunIsEval | libsignal-client/rust/keytrans/src/log.rs:263-320 | inserting hashes for all tiles and taking the root evaluates them |
| RootCalculator.AnyCutGivesRoot | libsignal-client/rust/keytrans/src/log.rs:263-320 | whichever subtrees, also a ragged last one, stand for their leaves, the root is the Merkle root of the log |
| RootCalculator.PutCounts | libsignal-client/rust/keytrans/src/log.rs:272-296 | putting the next block increments the counter |
| RootCalculator.CounterSlots | libsignal-client/rust/keytrans/src/log.rs:263-320 | after the leaves, slot t is occupied iff bit t of their number is set, and holds the Merkle hash of those 2^t leaves |
| LogMath.NodeIds | libsignal-client/rust/keytrans/src/log.rs:21-26 | an id is below the node width iff it is a leaf or has leaves below both children |
| LogMath.RootIsTop | libsignal-client/rust/keytrans/src/log.rs:29-31 | the root id is the node that covers all leaves |
| LogMath.CanonIsRoot | libsignal-client/rust/keytrans/src/log.rs:29-46 | relative to its first leaf, every block is a tree of its own size |
| LogMath.Right | libsignal-client/rust/keytrans/src/log.rs:39-46 | the id standing for the leaves right of the middle, also when the tree is ragged |
| LogMath.Parent | libsignal-client/rust/keytrans/src/log.rs:49-60 | the first node above x that the tree has |
| LogMath.Sibling | libsignal-client/rust/keytrans/src/log.rs:63-66 | the id of the other child of that node |
| BatchCopath.CombineLevel | libsignal-client/rust/keytrans/src/log.rs:134-180 | one round lifts the touched nodes to a higher level and adds exactly the siblings that become copath nodes |
| BatchCopath.CombineRest | libsignal-client/rust/keytrans/src/log.rs:134-180 | a single remaining node is lifted or promoted without losing a copath node |
| BatchCopath.CopathOf | libsignal-client/rust/keytrans/src/log.rs:134-180 | terminates for every increasing leaf list below n and yields the copath in order of ids |
| BatchCopath.CopathPartitions | libsignal-client/rust/keytrans/src/log.rs:134-180 | a leaf is below some copath node iff it is not a given leaf |
| BatchCopath.CopathSeparated | libsignal-client/rust/keytrans/src/log.rs:134-180 | copath nodes are increasing and have disjoint subtrees, so no leaf is covered twice |
| BatchCopath.CopathSiblings | libsignal-client/rust/keytrans/src/log.rs:134-180 | each copath node is a subtree without given leaves whose sibling holds one |
| ConsistencyIds.SubProof | libsignal-client/rust/keytrans/src/log.rs:98-131 | the loop with its in-place fix-up equals the recursive sub-proof of section 2.1.2 of RFC 6962, appended to what was there |
| ConsistencyIds.ConsistencyProof | libsignal-client/rust/keytrans/src/log.rs:94-96 | the ids of the proof from m to n |
| ConsistencyIds.SubIdsAreTiles | libsignal-client/rust/keytrans/src/log.rs:98-131 | the ids of a sub-proof are the tiles of the tree cut at m |
| ConsistencyIds.FullSubtreeMeans | libsignal-client/rust/keytrans/src/log.rs:69-74 | a node is full iff all its leaves exist |
| ConsistencyIds.FullSubtrees | libsignal-client/rust/keytrans/src/log.rs:77-90 | lists the maximal full subtrees from left to right |
| ConsistencyIds.FullTilesLead | libsignal-client/rust/keytrans/src/log.rs:77-131 | the full subtrees of m lead the tiles of every larger log cut at m |
| ConsistencyIds.ProofIds | libsignal-client/rust/keytrans/src/log.rs:77-131 | the proof ids are the tiles, without the old root when m is a power of two, and the full subtrees of m lead them |
| ConsistencyIds.SumsFitWord | libsignal-client/rust/keytrans/src/log.rs:21-131 | for at most 2^62 leaves the node width, the full-subtree test and the moved ids stay in a 64-bit word |
| LogProofs.BatchTiles | libsignal-client/rust/keytrans/src/log.rs:134-180 | given leaves and copath, merged by id, are the tiles of the whole log |
| LogProofs.EvaluateBatchProof | libsignal-client/rust/keytrans/src/log.rs:324-369 | errors for malformed lists and lengths, otherwise the evaluation of the merged tiles |
| LogProofs.BatchProofAccepts | libsignal-client/rust/keytrans/src/log.rs:324-369 | the log's own leaves and hashes evaluate to its root |
| LogProofs.BatchProofIsExact | libsignal-client/rust/keytrans/src/log.rs:324-369 | evaluates to the root of a log iff each value is the log's leaf at its index and the proof is the log's hashes at the copath, unless proof and log exhibit a collision |
| ConsistencyProofs.VerifyConsistencyProof | libsignal-client/rust/keytrans/src/log.rs:373-432 | its verdict; the error for an id that does not match the path never occurs |
| ConsistencyProofs.OldRootExact | libsignal-client/rust/keytrans/src/log.rs:388-421 | given hashes make up the old root iff they are the log's hashes at the full subtrees of m |
| ConsistencyProofs.NewRootExact | libsignal-client/rust/keytrans/src/log.rs:423-432 | given hashes make up the new root iff they are the log's hashes at the tiles |
| ConsistencyProofs.ConsistencyIsExact | libsignal-client/rust/keytrans/src/log.rs:373-432 | against a log with the new root: accepted iff the old root is that of the prefix and the proof is the log's hashes at the proof ids, unless proof and log exhibit a collision |
| ConsistencyProofs.ConsistencyAccepts | libsignal-client/rust/keytrans/src/log.rs:373-432 | the log's own hashes at the proof ids are accepted between the roots of a prefix and of the log, whatever the hash functions |
| Prefix.Evaluate | libsignal-client/rust/keytrans/src/prefix.rs:37-67 | the loop over 256 siblings equals the climb, which by PrefixTree.TreeOpens goes up the tree over big-endian keys; wrong sizes are errors |
| Prefix.ClimbBinds | libsignal-client/rust/keytrans/src/prefix.rs:37-60 | equal results mean equal starts and equal siblings, unless the two climbs exhibit a collision |
| Prefix.OpeningIsBinding | libsignal-client/rust/keytrans/src/prefix.rs:37-67 | a root opens a key at a position to one counter only, by one proof only, unless the two openings exhibit a collision |
| PrefixTree.ByteOfBits | libsignal-client/rust/keytrans/src/prefix.rs:48-57 | the bits that choose the side at each level are, byte by byte, the binary digits of the key, the most significant first |
| PrefixTree.KeyBitIs | libsignal-client/rust/keytrans/src/prefix.rs:48-57 | they are the binary digits of the key read as one 256-bit big-endian number |
| PrefixTree.TreeOpens | libsignal-client/rust/keytrans/src/prefix.rs:37-67 | in the binary tree of depth 256 over all key numbers, defined from the root down with the left child first, the leaf of a key and the siblings on its path open to the root |
| Search.HashList | libsignal-client/rust/keytrans/src/verify.rs:83-89 | fails iff some hash has the wrong size |
| Search.EvaluateStep | libsignal-client/rust/keytrans/src/verify.rs:474-497 | evaluating the prefix proof by its loop and hashing the leaf gives the step's leaf and counter, or its error |
| Search.IntoSortedPairs | libsignal-client/rust/keytrans/src/verify.rs:940-944 | the entries of the map in increasing order of position |
| Search.ConsumeSteps | libsignal-client/rust/keytrans/src/verify.rs:460-505 | records the leaf of each step asked for; the recorded counters settle the search, and honest steps are all consumed; panics iff the proof's position is not in the tree |
| Search.EvaluateSearch | libsignal-client/rust/keytrans/src/verify.rs:460-528 | success certifies leaves, counters and root together; steps that answer what is asked, with a fitting inclusion proof, succeed |
| Search.StepIsLeaf | libsignal-client/rust/keytrans/src/verify.rs:474-497 | a step that hashes to the log's leaf has the log's version and commitment |
| Search.CertifiedAgrees | libsignal-client/rust/keytrans/src/verify.rs:460-528 | an evaluation to a log's root has seen the true version and commitment at every position asked |
| Search.SearchIsSound | libsignal-client/rust/keytrans/src/verify.rs:460-528 | the result is the least position in [pos, n) holding the version, the last version when none is requested, and the opened commitment is the one there; or response and log exhibit a collision |
| Search.NoSearchClash | libsignal-client/rust/keytrans/src/verify.rs:460-528 | collision-free hash functions never exhibit one |
| Search.HonestEvaluates | libsignal-client/rust/keytrans/src/verify.rs:460-528 | an honest proof evaluates to the log's root and has an answer, whatever the hash functions |
| Search.LogOfTrees | libsignal-client/rust/keytrans/src/verify.rs:474-497 | a log of prefix trees, each opening the key with the version at its position, is a log of these versions and commitments, so the theorems about such logs apply to it |
| TreeHeads.CheckBaseline | libsignal-client/rust/keytrans/src/verify.rs:275-331 | accepts iff the head equals the stored one with no proof, or is larger, not older and proved consistent |
| TreeHeads.VerifyAuditor | libsignal-client/rust/keytrans/src/verify.rs:192-257 | accepts iff fresh, signed with that auditor's key, not ahead, at most ten million entries behind, and equal or proved consistent |
| TreeHeads.ExtendsExactly | libsignal-client/rust/keytrans/src/verify.rs:275-331 | a stored head passes iff there is none and no proof, it is the same head and there is no proof, or it is smaller and not newer and the proof verifies |
| TreeHeads.AuditorExactly | libsignal-client/rust/keytrans/src/verify.rs:192-257 | an auditor passes iff its head is fresh and signed with its key, and is either of the same size without root and proof, or smaller by at most 10000000 entries with a root and a proof that verifies |
| TreeHeads.VerifyFullTreeHead | libsignal-client/rust/keytrans/src/verify.rs:129-261 | accepts iff both baselines, the signature, the clock and all auditors do; returns head and root. On success the head returned is signed and fresh, and every auditor has signed, with its own key, a fresh head that is not larger and at most 10000000 entries behind |
| TreeHeads.VerdictIsPrefix | libsignal-client/rust/keytrans/src/verify.rs:275-331 | what a head of a log is proved consistent with is a head of a prefix of that log |
| TreeHeads.RunIsMonotone | libsignal-client/rust/keytrans/src/verify.rs:129-155 | along a run, in which every response meets its own clock, sizes and timestamps never fall below those of the stored head or of any earlier one, and heads of equal size are equal |
| TreeHeads.OneHistory | libsignal-client/rust/keytrans/src/verify.rs:129-261 | if the last root of a run is that of a log, every accepted, stored, distinguished and audited head is that of a prefix of it, unless a response and the log exhibit a collision |
| TreeHeads.HonestHeadIsAccepted | libsignal-client/rust/keytrans/src/verify.rs:129-261 | a signed, fresh head of a log whose proofs are the log's own hashes from earlier heads of it, auditors included, is accepted whatever the hash functions; an accepted head of a log is of this kind, unless a collision is exhibited |
| TreeHeads.IdealRun | libsignal-client/rust/keytrans/src/verify.rs:129-261 | collision-free hash functions never exhibit one |
| Monitoring.FindUpdatedMapping | libsignal-client/rust/keytrans/src/verify.rs:882-904 | moves a mapping up its path as far as the steps go; fails iff a version falls or a step lacks one |
| Monitoring.MovedGoesUp | libsignal-client/rust/keytrans/src/verify.rs:882-904 | a mapping stays or moves up its own monitoring path, never to a lower version |
| Monitoring.MovedIsIdempotent | libsignal-client/rust/keytrans/src/verify.rs:882-904 | moving again with the same steps changes nothing |
| Monitoring.MovedIs | libsignal-client/rust/keytrans/src/verify.rs:882-904 | a mapping moves past exactly the leading positions of its path that have steps, to the last of them and its version; fails iff one of these has no version or one below its own |
| Monitoring.UpdateSettles | libsignal-client/rust/keytrans/src/verify.rs:845-873 | after an update no pointer has a step for the next position of its path |
| Monitoring.UpdateIsUnique | libsignal-client/rust/keytrans/src/verify.rs:845-873 | only one map holds exactly the moved mappings, so the iteration order does not matter |
| Monitoring.UpdateIsIdempotent | libsignal-client/rust/keytrans/src/verify.rs:845-873 | updating an updated map succeeds and yields it again |
| Monitoring.MonitoringDataWrapper.constructor | libsignal-client/rust/keytrans/src/verify.rs:755-759 | wraps the stored data |
| Monitoring.MonitoringDataWrapper.StartMonitoring | libsignal-client/rust/keytrans/src/verify.rs:767-783 | adds the first pointer if nothing is stored, and changes nothing otherwise |
| Monitoring.CheckedIs | libsignal-client/rust/keytrans/src/verify.rs:785-839 | a result fits the stored data iff key and first position are the stored ones and either its position is tracked with exactly its version, or the first tracked position of its path, if any, has a version at least as high |
| Monitoring.MonitoringDataWrapper.CheckSearchConsistency | libsignal-client/rust/keytrans/src/verify.rs:785-839 | succeeds iff key and first position are the stored ones, a pointer at the position has exactly the version, and otherwise the first tracked position on the path has one at least as high; then ownership is the old one or the argument, and the pointers gain exactly this one iff neither it nor its path is tracked; unchanged on failure |
| Monitoring.MonitoringDataWrapper.Update | libsignal-client/rust/keytrans/src/verify.rs:845-924 | succeeds iff every pointer can move and no two disagree where they meet, for every iteration order; exactly the moved mappings result; unchanged on failure |
| Monitoring.StepKeeps | libsignal-client/rust/keytrans/src/verify.rs:767-924 | no operation, whatever the server sends, loses a mapping: a pointer on its own monitoring path covers it with a version at least as high |
| Monitoring.RunKeeps | libsignal-client/rust/keytrans/src/verify.rs:767-924 | over every run, honest or not, in which each response names an index and first position of its own, a mapping tracked once stays covered on its own monitoring path |
| Monitoring.HonestStep | libsignal-client/rust/keytrans/src/verify.rs:767-924 | against an honest log no operation fails, and every pointer keeps its true version within [pos, n) |
| Monitoring.HonestRun | libsignal-client/rust/keytrans/src/verify.rs:767-924 | the same for every sequence of operations with sizes that never fall |
| VerifySearch.Remember | libsignal-client/rust/keytrans/src/verify.rs:546-568 | start, check and update happen in this order, each exactly once; fails iff check or update does; pointers stay below n |
| VerifySearch.RememberedIs | libsignal-client/rust/keytrans/src/verify.rs:546-568 | what is stored afterwards is nothing only if nothing was stored or asked for; it keeps every earlier mapping, tracks the result, is owned iff it was before or the search is, and no pointer has a step for its next path position |
| VerifySearch.FoundIsTrue | libsignal-client/rust/keytrans/src/verify.rs:460-528 | answer, version, opened commitment and all recorded steps are those of the log |
| VerifySearch.HonestAnswerIsTrue | libsignal-client/rust/keytrans/src/verify.rs:460-528 | the answer found in an honest proof is the least position with its commitment, whatever the hash functions |
| VerifySearch.HonestServer | libsignal-client/rust/keytrans/src/verify.rs:437-568 | a search answer with an honest head and proof is honest in the sense of VerifySearch.Verify, so it is accepted: no acceptance is presupposed |
| VerifySearch.RememberedIsTrue | libsignal-client/rust/keytrans/src/verify.rs:546-568 | recording a true result in true data cannot fail and keeps it true |
| VerifySearch.AcceptedSearchIsTrue | libsignal-client/rust/keytrans/src/verify.rs:437-568 | an accepted response about a log has found the least position of the version and opened the commitment there, and keeps true data true, unless its evaluation exhibits a collision |
| VerifySearch.Verify | libsignal-client/rust/keytrans/src/verify.rs:437-568 | an accepted response has an accepted head, signed, fresh and vouched for by every auditor within 10000000 entries; its root and answer are what its own steps and inclusion proof make, and the answer's commitment opens; the stored data is the old data started, checked and moved along the steps, so that all earlier mappings and the result stay tracked; against a log the result is the least position of the version, and true data stays true and never fails, or this evaluation exhibits a collision; honest responses are accepted, whatever the hash functions; panics iff the proof's position is not in the announced tree |
| VerifyMonitor.MonitorProofAcc.constructor | libsignal-client/rust/keytrans/src/verify.rs:690-697 | nothing is recorded at first |
| VerifyMonitor.MonitorProofAcc.Process | libsignal-client/rust/keytrans/src/verify.rs:699-747 | accepts iff the key is known and every position of its full path has one step with a leaf that nothing recorded contradicts; records exactly these; does not return iff the known key's entry has no full path |
| VerifyMonitor.EvaluateRoot | libsignal-client/rust/keytrans/src/verify.rs:615-632 | the candidate root from leaves and inclusion proof; without leaves the proof is one hash, which is the root; succeeds whenever a root exists |
| VerifyMonitor.MonitoredIsTrue | libsignal-client/rust/keytrans/src/verify.rs:605-632 | steps accepted with a log's root carry the true versions of their key, unless a collision is exhibited |
| VerifyMonitor.ProcessAll | libsignal-client/rust/keytrans/src/verify.rs:605-610 | does not return iff it comes to a known key whose entry has no full path, all keys before it being accepted; the recorded positions are those of all full paths, and each key's steps are those of its proof; honest steps are accepted and record the log's leaves |
| VerifyMonitor.UpdateKeys | libsignal-client/rust/keytrans/src/verify.rs:644-671 | succeeds iff every key can be updated; there is new data for exactly the requested keys, each with its pointers moved along the steps of its last request, so no mapping is lost; true data and steps never fail and stay true |
| VerifyMonitor.HonestCandidate | libsignal-client/rust/keytrans/src/verify.rs:612-632 | the log's leaves with an honest inclusion proof make up the log's root |
| VerifyMonitor.HonestServer | libsignal-client/rust/keytrans/src/verify.rs:586-678 | the same for monitor responses |
| VerifyMonitor.AcceptedMonitorIsTrue | libsignal-client/rust/keytrans/src/verify.rs:586-678 | an accepted response about a log keeps true data of all keys true, unless its leaves or steps exhibit a collision |
| VerifyMonitor.Verify | libsignal-client/rust/keytrans/src/verify.rs:586-678 | an accepted response has an accepted head, signed, fresh and vouched for by every auditor within 10000000 entries, and a path for every entry; its leaves are those of its steps, and with the inclusion proof they make up the accepted root; the new data of each key is the stored data with its pointers moved along that key's steps; against a log true data stays true and the update cannot fail, or these leaves and steps exhibit a collision; honest responses are accepted, whatever the hash functions; does not return iff processing comes to a known key without a path |
| VerifyMonitor.NoMonitorClash | libsignal-client/rust/keytrans/src/verify.rs:586-678 | collision-free hash functions never exhibit one |
| ClientRuns.LifeIsRun | libsignal-client/rust/keytrans/src/verify.rs:437-678 | the tree heads of any mix of accepted searches and monitor responses are a run in which each is checked against the one before |
| ClientRuns.LifeIsValid | libsignal-client/rust/keytrans/src/verify.rs:437-678 | over a client's life all stored pointers lie in the last accepted tree, which is what both verifications ask for |
| ClientRuns.StoredKeyIsNamed | libsignal-client/rust/keytrans/src/verify.rs:785-810 | a search for a key with stored data is accepted only for the stored index and first position |
| ClientRuns.WholeLifeIsTrue | libsignal-client/rust/keytrans/src/verify.rs:437-678 | if the last root of a life is that of a log, every head ever accepted is that of a prefix, every answer ever accepted was the least position of its version in the log as it was with its commitment, and all stored pointers are true at all times; or some response exhibits a collision |
| FramePipeline.RunInv | libsignal-client/rust/message-backup/src/lib.rs:259-327 | an invariant of every state of every interleaving |
| FramePipeline.FramesInOrder | libsignal-client/rust/message-backup/src/lib.rs:259-327 | processed, in work, queued and held frames are in this order the frames read; at most 20 are queued |
| FramePipeline.RefinesSequential | libsignal-client/rust/message-backup/src/lib.rs:259-327 | what is returned is what sequential reading returns, which FramePipeline.GoodBackup, FramePipeline.GoodBackupReturned and FramePipeline.FailureMeans spell out; only a read error may replace an earlier frame's failure, and only when at most 20 frames follow that frame |
| FramePipeline.GoodBackup | libsignal-client/rust/message-backup/src/lib.rs:259-327 | a good backup is returned only if the HMAC matches, the stream ended, and the frames lead through states from the initial one to it; the unknown fields are the first frame's, then in order exactly those of each frame j, tagged j + 1 |
| FramePipeline.GoodBackupReturned | libsignal-client/rust/message-backup/src/lib.rs:259-327 | and then it is what is returned |
| FramePipeline.FailureMeans | libsignal-client/rust/message-backup/src/lib.rs:259-327 | an HMAC failure means that all frames were processed and the HMAC does not match; a read failure that the reader failed; a frame failure that this frame failed after all before it were processed |
| FramePipeline.ReadErrorMayWin | libsignal-client/rust/message-backup/src/lib.rs:259-327 | for every job with a read error and at most 20 frames after the first failing one, a run that returns the read error |
| FramePipeline.ReadErrorExactly | libsignal-client/rust/message-backup/src/lib.rs:259-327 | some run returns the read error iff there is one and no frame fails or at most 20 frames follow the first that does |
| FramePipeline.FirstFailure | libsignal-client/rust/message-backup/src/lib.rs:259-327 | the failure that is reported is the one of the first failing frame |
| FramePipeline.NeverStuck | libsignal-client/rust/message-backup/src/lib.rs:259-327 | until the reader returns, some thread can take a step that changes something |
| FramePipeline.StepsDecrease | libsignal-client/rust/message-backup/src/lib.rs:259-327 | such steps decrease a measure, so every run has finitely many |
| GcmStream.GcmGhash.constructor | libsignal-client/rust/crypto/src/aes_gcm.rs:29-42 | the padded associated data is absorbed, and no message yet |
| GcmStream.GcmGhash.Update | libsignal-client/rust/crypto/src/aes_gcm.rs:44-88 | after any pieces, hash state, buffer and length are those of the whole message |
| GcmStream.GcmGhash.Finalize | libsignal-client/rust/crypto/src/aes_gcm.rs:90-108 | the tag of the whole message as sections 6.4 and 7.1 of NIST SP 800-38D define it; GcmStream.TagIs spells it out |
| GcmStream.BigEndianIs | libsignal-client/rust/crypto/src/aes_gcm.rs:90-108 | the big-endian bytes, weighted with the powers of 256, add up to the number modulo 256^k |
| GcmStream.BigEndianDigit | libsignal-client/rust/crypto/src/aes_gcm.rs:90-108 | byte i of k is the digit of 256^(k-1-i) |
| GcmStream.TagIs | libsignal-client/rust/crypto/src/aes_gcm.rs:29-108 | the tag is the hash state after absorbing, block by block, the associated data and the ciphertext, each padded with zeros, and one block of 16 bytes given one by one: both lengths in bits; masked with the pad |
| GcmStream.AbsorbMore | libsignal-client/rust/crypto/src/aes_gcm.rs:44-88 | buffered bytes followed by new ones are absorbed as if they came at once |
| GcmStream.Session.Encrypt | libsignal-client/rust/crypto/src/aes_gcm.rs:147-150 | encrypts in place with the key stream at the session's position, and absorbs the ciphertext |
| GcmStream.Session.Decrypt | libsignal-client/rust/crypto/src/aes_gcm.rs:171-174 | decrypts in place, and absorbs the ciphertext as it was before |
| GcmStream.Session.ComputeTag | libsignal-client/rust/crypto/src/aes_gcm.rs:152-154 | the tag of all ciphertext of the session |
| GcmStream.Session.VerifyTag | libsignal-client/rust/crypto/src/aes_gcm.rs:176-190 | accepts exactly that tag, and reports an invalid tag otherwise |
| GcmStream.EncryptPieces | libsignal-client/rust/crypto/src/aes_gcm.rs:111-154 | any division gives the one-shot encryption of the joined message, with its errors |
| GcmStream.SealedIs | libsignal-client/rust/crypto/src/aes_gcm.rs:111-154 | the nonce has 12 bytes and the key 32, or that is the error; ciphertext byte i is combined with key-stream byte 32 + i, and tag byte i with byte 16 + i, so the two never overlap |
| GcmStream.DecryptPieces | libsignal-client/rust/crypto/src/aes_gcm.rs:111-190 | any division gives the one-shot decryption of the joined ciphertext, with its errors |
| GcmStream.RoundTrip | libsignal-client/rust/crypto/src/aes_gcm.rs:111-190 | for all divisions of message and ciphertext: decryption returns a message iff ciphertext and tag are what encrypting that message gives |
| CertChain.LastSelfIssued | libsignal-client/rust/attest/src/cert_chain.rs:116-121 | the last self-issued certificate, or there is none |
| CertChain.LastIssuedBy | libsignal-client/rust/attest/src/cert_chain.rs:127-132 | the last earlier certificate issued by the current one, or there is none |
| CertChain.Sort | libsignal-client/rust/attest/src/cert_chain.rs:109-134 | succeeds iff the backward search from the last self-issued certificate does, and leaves its result in place |
| CertChain.SortedIsChain | libsignal-client/rust/attest/src/cert_chain.rs:109-134 | a success is a chain from leaf to self-issued root and a permutation of the input |
| CertChain.RestoredExactly | libsignal-client/rust/attest/src/cert_chain.rs:109-134 | a chain is restored from every order of its certificates iff it has no second root and no detour |
| CertChain.OrderMatters | libsignal-client/rust/attest/src/cert_chain.rs:109-134 | with a detour, one order of the same certificates is sorted and another is refused |
| CertChain.New | libsignal-client/rust/attest/src/cert_chain.rs:37-45 | empty input is that error; otherwise the sorted chain, which is a chain of the same certificates, or the other error |
| NoiseTransport.ClientConnection.Send | libsignal-client/rust/attest/src/client_connection.rs:40-55 | never fails, so the buffer is long enough; the result is the packets in order, and the counter grows by their number |
| NoiseTransport.ClientConnection.Receive | libsignal-client/rust/attest/src/client_connection.rs:58-68 | succeeds iff every 65535-byte piece opens, with the joined plaintext |
| NoiseTransport.SealedLength | libsignal-client/rust/attest/src/client_connection.rs:40-55 | a ciphertext is longer by 16 bytes per packet, and the receiver cuts as many pieces as there are packets |
| NoiseTransport.PacketAt | libsignal-client/rust/attest/src/client_connection.rs:40-55 | the i-th packet stands at byte 65535 i and seals the payload from byte 65519 i on, at most 65519 bytes of it, with the i-th packet number |
| NoiseTransport.CeilDivIs | libsignal-client/rust/attest/src/client_connection.rs:40-55 | the number of packets is the source's rounded-up quotient |
| NoiseTransport.OpenedSealed | libsignal-client/rust/attest/src/client_connection.rs:40-68 | the pieces the receiver cuts are the packets sent, so the plaintext comes back |
| NoiseTransport.RunRoundTrip | libsignal-client/rust/attest/src/client_connection.rs:40-68 | opening a run of sealed messages of any lengths, with the packet numbers threaded through, gives them back and leaves equal numbers |
| NoiseTransport.SendAll | libsignal-client/rust/attest/src/client_connection.rs:40-55 | a run of messages leaves as the sealed run |
| NoiseTransport.ReceiveAll | libsignal-client/rust/attest/src/client_connection.rs:58-68 | a run of ciphertexts is opened in turn, failing from the first that does not open |
| NoiseTransport.Exchange | libsignal-client/rust/attest/src/client_connection.rs:40-68 | what travels are the sealed packets of the run, opening them gives every message back, and both counters end at the same packet number |

## Left out

- SHA-256, HMAC, Ed25519, the VRF, AES and the GHASH multiplication are uninterpreted functions or predicates.
- The size trimming for the search key "distinguished" in searches and monitoring, and `verify_distinguished`: the theorems are for ordinary keys.
- The contents of the clock windows and signed messages; they are the predicates of `Checks`.
- The VRF proof that yields a key's index: the index is a parameter.
- Protobuf decoding, the first frame, the visitor and asynchronous I/O of message-backup; processing a frame is a parameter of `Job`.
- ClientRuns.WholeLifeIsTrue: asks that a search for a key of which nothing is stored names the first position the log is about, because the log says nothing about leaves before it; for all other searches this is proved.
- Error texts, and the cause of a failure where the source's hash map order decides which error comes first.
- `padded_length`, which rests on floating-point logarithms.
- Running out of Noise packet numbers, and the handshake.
- Which server signature belongs to which auditor: `serverSigned` stands for all of them.
- SGX and DCAP attestation, X.509 parsing and signature checks: `issued` is a parameter of the certificate sort.
- Everything in `node/`, `java/` and `swift/`, the bridges, the network stack and the other Rust crates.
- ImplicitTree.Left: asks that the range left of x be nonempty, as its callers ensure; the walk panics otherwise, see ImplicitTree.MoveWithin.
- ImplicitTree.Right: asks that the range right of x be nonempty, as its callers ensure; the walk panics otherwise, see ImplicitTree.MoveWithin.
- VerifySearch.Verify: asks that the stored pointers lie below the last accepted head, as they always do by ClientRuns.LifeIsValid.
- VerifyMonitor.Verify: asks that the stored pointers lie below the last accepted head, as they always do by ClientRuns.LifeIsValid.
- Monitoring.MonitoringDataWrapper.Update: states when it succeeds but not which error it reports when several pointers fail, because the source takes them in hash map order.
- The separate structs for encryption and decryption, which have the same fields: here they are one class, `GcmStream.Session`.
- GcmStream.BigEndian: bit lengths are taken modulo 2^64, where the source multiplies the length by 8 in a 64-bit word; a build with overflow checks would panic instead.
