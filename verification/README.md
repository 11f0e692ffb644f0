# A Dafny model of the Polkadot-Ethereum bridge

This project models the parts of the bridge that decide what is true about the other chain, and proves what
they promise.

* **The Ethereum light client pallet** (`LightClient`, `LightClientInvariant`, `LightClientRuns`, `Pallet`,
  `FinalityProgress`, `FinalityGaps`, `ShortFork`, `Forks`, `Verifier`, `ImportRules`, over `Ancestry`, `Difficulty`,
  `EthashProof`, `ReceiptProof`, `HeaderRlp` and `Rlp`). The pallet stores headers as they are offered, tracks the heaviest chain, finalizes what lies D blocks below it, and
  prunes old headers a few at a time. `LightClient` gives its operations as functions on the storage; `Pallet`
  is the pallet as an object that updates its five storage items step by step and is proved against those
  functions; `LightClientInvariant` and `LightClientRuns` prove the invariant of every run, where an observer
  remembers each header ever stored and each header ever flagged final. `FinalityProgress`, `ShortFork` and
  `FinalityGaps` decide for which D the finality search can fail and for which it can skip a block. `Verifier` draws the
  two conclusions that the bridge lives on: a verified message is in the receipt trie of a final block, and an imported
  header was mined. `ImportRules` says of every call what it answers and writes, with the rules of a valid header and
  all numbers written out.
* **The relayer** (`MerkleTree`, `ParachainProof`, `Catchup`, `MissedMessages`, `HeaderCache`, `ExtrinsicPool`,
  `TrieOrder`) and the cache of the Ethash prover (`EthashCache`): the Merkle proofs it builds and the contract that
  checks them, its catch-up on lost commitments, its caches, its pool of watched extrinsics, and the order in which
  it fills a receipt trie.

Foreign code enters as parameters: Keccak and SHA-256, RLP and SCALE decoders, hashimoto, the RPC answers and the
loaders. What is assumed of them is always a named predicate:

* `LightClientInvariant.SoundEnv`: among the headers that are ever offered (the set `universe`) an equal hash means an
  equal block number, and the parent of the initial header, if it is offered too, is lower. The first part follows from
  Keccak not colliding on their RLP encodings (`HeaderRlp.KeccakFixesNumbers`). Different headers may share an encoding
  and a hash, and the runs allow that (`SameEncodingExactly`, `EmptySealItem`).
* `ReceiptProof.SoundCodec`: Keccak gives 32 bytes and does not collide among the trie nodes at hand; no byte string of
  32 bytes or less decodes to a receipt, which holds a 256-byte bloom.
* `EthashProof.FreeOn` and `MerkleTree.FreeOn`: the pair hash does not collide among the pairs that the committed tree
  and the proof at hand hash (`TreeIn`, `NodeIn`, `ProofIn`, `FoldsIn`). No hash is assumed to be injective as a whole.
* `EthashProof.PicksBelow`: hashimoto asks for rows of the dataset in consecutive pairs.

Proofs use `hide` to keep out the definitions they do not need.

Machine integers are bounded where the code depends on it: 64-bit block numbers wrap, 256-bit operations that
overflow abort (`Panic`), and the total difficulty is a checked addition.

## Where the code differs from what it says

* `Unknown` "should never be returned" (lib.rs:170-171). Validation returns it exactly for a header whose parent lies
  below the finalized height (`ValidateExact`), which needs a wrong block number; `StrayIsUnknown` has such a run for every D. An
  accepted header gets it exactly when it becomes the best block less than D blocks above the finalized block and at
  least D above genesis (`AcceptedOutcome`); the header stays stored and the best block stays moved. Over all runs that
  can happen exactly if D is at least 7 (`UnknownExactlyFromSeven`): up to six blocks outweigh every shorter fork
  (`LongerIsHeavier`), and from seven on there is a run for each D (`ShorterOutweighs`). The runtimes use 1 and 3.
* A header below the finalized one on its chain need not be flagged, since only the new finalized header is. It happens
  exactly if D is at least 6 (`SkipsExactlyFromSix`); a skipped block is never flagged later (`SkippedForever`) and its
  messages are never verified (`SkippedNeverVerified`).
* The hash of a header does not fix the header. The seal items enter the encoding as they are and the base fee follows
  them (header.rs:174-182), so an empty seal item leaves no trace (`EmptySealItem`). Two headers share an encoding
  exactly if they agree on the thirteen other fields and on the bytes of seal and base fee together
  (`SameEncodingExactly`), and that is enough for the pallet's invariants.
* "Only ever called after nextCache has been set to nil" (header_cache_state.go:277-278) does not hold: a preparation
  overtaken by an epoch change finds a next cache and fails (`PreparationCanFail`). Over a run that is impossible exactly
  if no call asks for another epoch, and can load it, while a preparation is outstanding (`PatientIsExact`).
* A watched extrinsic with nonce 0 gives up at its first failure, because the maximum seen starts at 0
  (`NonceZeroGivesUp`). A loop gives up before its nonce is included exactly with nonce 0 on an account that has sent
  nothing (`GivesUpEarlyExactly`).
* A loop that ends with an error does not always hold its token: after its extrinsic was seen in a block the token is
  given back, and then the callback may still fail (`ErrorWithoutToken`).
* The Ethash cache is meant to evict the least recently used epoch, but its timestamps are header numbers
  (ethashproof.rs:225-237) and may step back. It is least recently used throughout exactly if every access is newer than
  the last accesses of the epochs that are to stay (`RecencyIsExact`; `StaleTimestampEvicts` is a counterexample).
* The last node of a receipt proof is read as a short node without counting its items. No receipt can be forged
  that way, because inner nodes hold nothing longer than a hash (`CheckReceiptProofExact`).
* The catch-up search loses commitments exactly if some block holds an undelivered commitment behind a delivered one of
  its channel (`SearchIsComplete`, `SecondCommitmentLost`); two undelivered ones in a block are both kept.
* `CreateParachainMerkleProof` for an ID that is not among the heads proves the first head and returns no pre-leaf.

## Model

| member | source | states |
|---|---|---|
| `LightClientRuns.FinalitySafety` | parachain/pallets/ethereum-light-client/src/lib.rs:333-431 | Between any two points of any run, whatever the calls return, the finalized number never drops and the later finalized block descends from the earlier; all headers ever flagged lie on one chain, at most one per height; each but genesis has an imported descendant D generations above it |
| `LightClientRuns.FlaggedOnOneChain` | parachain/pallets/ethereum-light-client/src/lib.rs:377-386 | The one-chain part in every state with the invariant |
| `LightClientRuns.BestChain` | parachain/pallets/ethereum-light-client/src/lib.rs:334-370 | After any run every stored total difficulty is the initial one plus the sum along its chain; the best block has the maximum over all headers ever imported, descends from the finalized block and has no child |
| `LightClientRuns.BestIsHeaviest` | parachain/pallets/ethereum-light-client/src/lib.rs:362-370 | The same in every state with the invariant |
| `LightClientRuns.Retention` | parachain/pallets/ethereum-light-client/src/lib.rs:348-397 | After any run the keep bound is 50000 below the finalized block, or genesis if that is higher; the index lists each stored hash once, at its number, and nothing else; all imported headers from the keep bound on are stored, all below the unpruned bound are gone, and parent links have no gap above the boundary |
| `LightClientRuns.InvKeepsExactly` | parachain/pallets/ethereum-light-client/src/lib.rs:389-397 | The same in every state with the invariant |
| `LightClientRuns.HistoryRules` | parachain/pallets/ethereum-light-client/src/lib.rs:278-302 | Every imported header but genesis has the difficulty of the formula, a gas limit within a 1024th of its parent's, and a later timestamp |
| `LightClientRuns.TimestampsIncrease` | parachain/pallets/ethereum-light-client/src/lib.rs:284 | A proper ancestor of an imported header has an earlier timestamp |
| `LightClientRuns.NoReentry` | parachain/pallets/ethereum-light-client/src/lib.rs:240-255 | Any header with the hash of a pruned one is refused and changes nothing |
| `LightClientRuns.ValidateExact` | parachain/pallets/ethereum-light-client/src/lib.rs:240-272 | The outcome of validation in every invariant state: `Unknown` exactly for a parent below the finalized height, `HeaderOnStaleFork` exactly when the finalized block is not an ancestor-or-self of the parent |
| `LightClientRuns.ValidateNeverUnknown` | parachain/pallets/ethereum-light-client/src/lib.rs:261-268 | A header numbered one above its parent never gets `Unknown` from validation |
| `LightClientRuns.GetBestFinalizedExact` | parachain/pallets/ethereum-light-client/src/lib.rs:405-431 | When the finality search keeps, advances or fails: it fails exactly for a best block at least D above genesis and less than D above the finalized block; what it advances to descends from the finalized block and is D below the best |
| `LightClientRuns.FinalityFailsExactly` | parachain/pallets/ethereum-light-client/src/lib.rs:414-431 | The same of any storage: an ancestor above the finalized block is taken, the finalized block itself is kept, any other is an error |
| `LightClientRuns.AcceptedOutcome` | parachain/pallets/ethereum-light-client/src/lib.rs:334-401 | Both directions of every late exit of an import, and which writes stay |
| `LightClientRuns.AcceptableReturns` | parachain/pallets/ethereum-light-client/src/lib.rs:194-234 | A new header upon a stored block at or above finality that passes the checks is imported, with the exact outcome |
| `LightClientRuns.AcceptableMoves` | parachain/pallets/ethereum-light-client/src/lib.rs:362-386 | Which block is then best and which is finalized |
| `LightClientRuns.StepKeepsInv` | parachain/pallets/ethereum-light-client/src/lib.rs:194-234 | Every call keeps the whole invariant, also on error exits, and only moves finality, best work and the pruning range forward |
| `LightClientRuns.GenesisInv` | parachain/pallets/ethereum-light-client/src/lib.rs:128-141 | The genesis build establishes the invariant |
| `LightClientRuns.RunContinues` | parachain/pallets/ethereum-light-client/src/lib.rs:194-234 | Any later point of a run continues any earlier one: nothing imported or flagged is forgotten, finality and best work never go back |
| `FinalityProgress.UnknownUnreachable` | parachain/pallets/ethereum-light-client/src/lib.rs:414-431 | With D <= 6, after any run, no call returns `Unknown` for a header numbered one above its parent |
| `FinalityProgress.ImportNeverUnknown` | parachain/pallets/ethereum-light-client/src/lib.rs:405-431 | The same in every state with the invariant |
| `FinalityProgress.LongerIsHeavier` | parachain/primitives/ethereum/src/difficulty.rs:87-110 | From one block, a chain of up to six blocks outweighs every shorter fork, whatever the timestamps, ommers and bombs |
| `FinalityProgress.BestFarAboveFinalized` | parachain/pallets/ethereum-light-client/src/lib.rs:409-423 | With D <= 6 the best block is D above the finalized one in every state with the invariant, unless only genesis is final |
| `FinalityProgress.WorkAlong` | parachain/pallets/ethereum-light-client/src/lib.rs:338-340 | The work of a descendant is its ancestor's plus the difficulties between them, each in reach of the one before |
| `ShortFork.UnknownExactlyFromSeven` | parachain/pallets/ethereum-light-client/src/lib.rs:405-431 | Some run of some environment answers a valid header with `Unknown` if and only if D is at least 7 |
| `ShortFork.ShorterOutweighs` | parachain/pallets/ethereum-light-client/src/lib.rs:363-386 | For every D from 7 on, a concrete run without any two headers of one hash in which a valid header becomes the best block and gets `Unknown` |
| `ShortFork.FastIsHeavier` | parachain/primitives/ethereum/src/difficulty.rs:87-99 | From height 7 on, blocks one second apart outweigh blocks 1000 seconds apart that reach one height more |
| `ShortFork.TooEarly` | parachain/pallets/ethereum-light-client/src/lib.rs:414-431 | After any run, an acceptable header that becomes the best block D above genesis and less than D above the finalized block is valid and yet gets `Unknown` |
| `ShortFork.StrayIsUnknown` | parachain/pallets/ethereum-light-client/src/lib.rs:257-268 | For every D a concrete run after which validation answers with `Unknown` |
| `ShortFork.BelowFinalized` | parachain/pallets/ethereum-light-client/src/lib.rs:257-268 | After any run validation answers so exactly for a header that is not stored, upon a stored block below the finalized one, with a number above the finalized block's |
| `FinalityGaps.SkipsExactlyFromSix` | parachain/pallets/ethereum-light-client/src/lib.rs:377-386 | In some run of some environment a block below the finalized one, on its chain, is not flagged, if and only if D is at least 6 |
| `FinalityGaps.NoGapUpToFive` | parachain/pallets/ethereum-light-client/src/lib.rs:363-386 | With D <= 5, after any run the finalized block is exactly D below the best one, or genesis while the best is at most D above it, and every imported block under the finalized one is flagged |
| `FinalityGaps.SkipsFromSix` | parachain/pallets/ethereum-light-client/src/lib.rs:363-386 | For every D from 6 on, a concrete run without any two headers of one hash in which finality skips a block |
| `FinalityGaps.JumpSkips` | parachain/pallets/ethereum-light-client/src/lib.rs:377-386 | Whenever finality advances by two or more, a block is skipped |
| `FinalityGaps.SkippedForever` | parachain/pallets/ethereum-light-client/src/lib.rs:377-386 | A block that finality has passed without flagging it is not flagged by any later call |
| `FinalityGaps.SkippedNeverVerified` | parachain/pallets/ethereum-light-client/src/lib.rs:484-494 | Its messages are answered with `HeaderNotFinalized` or `MissingHeader` ever after |
| `LightClientRuns.StepEither` | parachain/pallets/ethereum-light-client/src/lib.rs:194-234 | A call changes nothing unless its header is new, upon a stored block at or above finality, and passes the checks |
| `ImportRules.ImportExact` | parachain/pallets/ethereum-light-client/src/lib.rs:194-401 | In every state with the invariant: a signed call with a new header upon a stored descendant of the finalized block, valid by the rules written out and with a total difficulty below 2^256, is imported with everything that follows; it answers `Success`, or `Unknown` where finality cannot be found; every other call changes nothing |
| `ImportRules.RefusalExact` | parachain/pallets/ethereum-light-client/src/lib.rs:194-331 | Which error a refused call gets: the first condition that fails decides |
| `ImportRules.AcceptableWrites` | parachain/pallets/ethereum-light-client/src/lib.rs:334-401 | All writes of an import: submitter, total difficulty and place in the index of the header, best and finalized block, the one new flag; the first 8 headers in (number, insertion) order, or all there are, up to 50000 below the finalized block go if the header becomes the best block and finality is found, and nothing goes otherwise |
| `ImportRules.SettleWrites` | parachain/pallets/ethereum-light-client/src/lib.rs:372-401 | The finality and pruning part of it |
| `ImportRules.BasicChecksExact` | parachain/pallets/ethereum-light-client/src/lib.rs:278-288 | Which headers pass the basic checks: gas limit within a 1024th of the parent and at least 5000, gas used within it, later, one higher, short extra data; when the check aborts |
| `ImportRules.DifficultyCheckExact` | parachain/pallets/ethereum-light-client/src/lib.rs:296-302 | The difficulty check passes exactly for the difficulty of the formula, and when it aborts |
| `ImportRules.SealChecksExact` | parachain/pallets/ethereum-light-client/src/lib.rs:278-328 | All checks pass exactly for a header that follows its parent, has the difficulty of the formula, was mined over the true dataset, and comes with the honest proof; when they abort |
| `ImportRules.AcceptableExactly` | parachain/pallets/ethereum-light-client/src/lib.rs:240-331 | These are the headers that an import accepts |
| `LightClientInvariant.WalkFinds` | parachain/pallets/ethereum-light-client/src/lib.rs:498-505 | Above the keep bound the walk along stored headers finds the true ancestor at a height, and nothing above its start |
| `LightClientInvariant.WalkNth` | parachain/pallets/ethereum-light-client/src/lib.rs:409-412 | The D-th entry of the walk is the true ancestor D lower, found unless pruned |
| `LightClientInvariant.InsertKeepsCore` | parachain/pallets/ethereum-light-client/src/lib.rs:341-360 | Storing and indexing a header that joins the history keeps the invariant |
| `LightClientInvariant.FinalizeKeepsCore` | parachain/pallets/ethereum-light-client/src/lib.rs:377-386 | Moving finality to a confirmed descendant and flagging it keeps the invariant |
| `LightClientInvariant.PruneKeepsCore` | parachain/pallets/ethereum-light-client/src/lib.rs:389-397 | Pruning up to 50000 below the finalized block keeps the invariant |
| `LightClient.PruneExact` | parachain/pallets/ethereum-light-client/src/lib.rs:436-479 | Pruning removes exactly the first min(budget, available) headers in (number, insertion) order, leaves the rest queued in order, touches nothing from the keep bound on, and ends with the budget spent or the range empty |
| `LightClient.PruneAdditive` | parachain/pallets/ethereum-light-client/src/lib.rs:436-479 | Pruning with budgets a and then b towards one end is pruning with a + b |
| `Pallet.EthereumLightClient.constructor` | parachain/pallets/ethereum-light-client/src/lib.rs:528-602 | The genesis build of one header, with its flagging loop, ends in the genesis storage and a valid object |
| `Pallet.EthereumLightClient.FindAncestorAt` | parachain/pallets/ethereum-light-client/src/lib.rs:261-262 | The loop over the ancestry finds the first header with a number, and terminates |
| `Pallet.EthereumLightClient.FindNthAncestor` | parachain/pallets/ethereum-light-client/src/lib.rs:410-412 | The counted loop over the ancestry finds the n-th stored ancestor |
| `Pallet.EthereumLightClient.ValidateHeaderToImport` | parachain/pallets/ethereum-light-client/src/lib.rs:240-331 | The checks in order give the outcome of the specification |
| `Pallet.EthereumLightClient.GetBestFinalizedHeader` | parachain/pallets/ethereum-light-client/src/lib.rs:405-431 | Returns the specified finalized block or error |
| `Pallet.EthereumLightClient.PruneHeaderRange` | parachain/pallets/ethereum-light-client/src/lib.rs:436-479 | The nested loops with their early exits compute the specified pruning and range |
| `Pallet.EthereumLightClient.ImportValidatedHeader` | parachain/pallets/ethereum-light-client/src/lib.rs:334-401 | The writes in order lead to the specified storage and outcome, on every exit |
| `Pallet.EthereumLightClient.Import` | parachain/pallets/ethereum-light-client/src/lib.rs:194-234 | Whatever it returns, the object invariant over everything ever stored is kept and finality only moves forward |
| `Verifier.VerifyExact` | parachain/pallets/ethereum-light-client/src/lib.rs:484-522 | In every state with the invariant, which answer a message gets: the log that its data encodes if its block is stored and flagged and its proof is a root-to-leaf path, through the receipt trie of that block, to a receipt with that log; otherwise the error of the first condition that fails |
| `Verifier.VerifiesExactly` | parachain/pallets/ethereum-light-client/src/lib.rs:484-522 | A given log is the answer if and only if the block is stored and flagged, the data encodes that log and the proof leads to a receipt with it |
| `Verifier.InclusionReads` | parachain/primitives/ethereum/src/header.rs:82-108 | The proof is accepted with a receipt exactly if it leads to that receipt, and it leads to at most one |
| `Verifier.VerifiedIsFinal` | parachain/pallets/ethereum-light-client/src/lib.rs:484-494 | The block of a verified message lies under the finalized and the best block and, unless genesis, under D imported blocks |
| `Verifier.VerifiedStays` | parachain/pallets/ethereum-light-client/src/lib.rs:484-522 | A message verified at one point of a run is at every later point verified with the same log, or its block was pruned and it gets `MissingHeader` |
| `Verifier.ImportedIsMined` | parachain/pallets/ethereum-light-client/src/lib.rs:310-328 | Every header ever imported but genesis was mined: hashimoto over the full dataset gives its mix hash and a value under its boundary, unless an offered proof exhibits a collision |
| `Verifier.PowCheckExact` | parachain/pallets/ethereum-light-client/src/lib.rs:310-328 | The proof-of-work check passes if and only if the header was mined over the true dataset and the proof holds the 64 pairs that hashimoto reads, each with its path, unless the proof exhibits a collision |
| `HeaderRlp.SameEncodingExactly` | parachain/primitives/ethereum/src/header.rs:145-185 | Two headers have one encoding if and only if they agree on the thirteen positional fields and on the bytes of seal and base fee |
| `HeaderRlp.FieldPlaces` | parachain/primitives/ethereum/src/header.rs:160-172 | What a reader finds at each of the thirteen places of the list, and that the tail follows |
| `HeaderRlp.TailPlaces` | parachain/primitives/ethereum/src/header.rs:174-182 | What a reader finds behind them: the seal items in order and then the base fee |
| `HeaderRlp.EmptySealItem` | parachain/primitives/ethereum/src/header.rs:174-182 | Every header shares its encoding with a different one |
| `HeaderRlp.SameHashExactly` | parachain/primitives/ethereum/src/header.rs:73-75 | The same condition for equal hashes, if Keccak does not collide on the encodings |
| `HeaderRlp.KeccakFixesNumbers` | parachain/primitives/ethereum/src/header.rs:73-75 | The invariant's assumption on hashes follows from that |
| `Rlp.AllRead` | parachain/primitives/ethereum/src/header.rs:158-171 | Encoded strings can be read back one after the other, with what follows them |
| `Rlp.StringRoundTrip` | parachain/primitives/ethereum/src/header.rs:160-172 | An encoded string is read back, with what follows it |
| `Rlp.ListRoundTrip` | parachain/primitives/ethereum/src/header.rs:155-159 | An encoded list is read back |
| `Rlp.PlacesRead` | parachain/primitives/ethereum/src/header.rs:160-172 | The string at each place of a list is read back |
| `Rlp.UintRoundTrip` | parachain/primitives/ethereum/src/header.rs:167-171 | The bytes of a number stand for it |
| `Rlp.EncodingForm` | parachain/primitives/ethereum/src/header.rs:155-172 | The encodings of strings and lists written out, with lengths without leading zeros |
| `ReceiptProof.CheckReceiptProofExact` | parachain/primitives/ethereum/src/header.rs:82-108 | Against the root of a receipt trie exactly the node lists of its root-to-leaf paths are accepted, with the receipt of the leaf |
| `ReceiptProof.FoldSound` | parachain/primitives/ethereum/src/header.rs:98-107 | A list that folds to a trie's hash and ends in a receipt is a path of that trie |
| `ReceiptProof.FoldComplete` | parachain/primitives/ethereum/src/header.rs:98-107 | The nodes of a path fold to the trie's hash and prove the leaf's value |
| `ReceiptProof.NodeContains` | parachain/primitives/ethereum/src/mpt.rs:11-95 | A decoded node of a trie contains exactly the hashes of its children |
| `ReceiptProof.OnlyLeavesHoldReceipts` | parachain/primitives/ethereum/src/mpt.rs:73-89 | No inner node, read as a short node, yields a receipt |
| `EthashProof.HashimotoMerkleExact` | parachain/primitives/ethereum/src/ethashproof.rs:165-223 | Against a root that commits to a dataset, with no collision among what its tree and the checks hash, exactly the honest proof of 64 pairs is accepted, and then the result is that of hashimoto over the rows of the full dataset, each with its two halves of 32 bytes reversed; which error any other proof gets |
| `EthashProof.Binding` | parachain/primitives/ethereum/src/ethashproof.rs:48-64 | From a given index only the committed pair with its own path climbs to the root, if nothing that the check hashes collides with what the tree hashes |
| `EthashProof.RunHashimotoMerkle` | parachain/primitives/ethereum/src/ethashproof.rs:165-223 | The loop with its running index and success flag, in range throughout, computes the specified result |
| `EthashProof.ComputeMerkleRoot` | parachain/primitives/ethereum/src/ethashproof.rs:48-64 | The loop over the path computes the climbed digest, or fails beyond 64 levels |
| `EthashProof.LookUp` | parachain/primitives/ethereum/src/ethashproof.rs:192-214 | A lookup serves the row of its node with bytes 31 to 0 before bytes 63 to 32, and checks the path on even lookups |
| `EthashProof.FlipIsDatasetRow` | parachain/primitives/ethereum/src/ethashproof.rs:203-214 | The rows that are served are those of the dataset, byte for byte |
| `EthashProof.NoRootNoProof` | parachain/primitives/ethereum/src/ethashproof.rs:173-190 | For an epoch without a root nothing is accepted |
| `EthashCache.Cache.Get` | parachain/primitives/ethereum/src/ethashproof.rs:98-120 | For every access sequence the result is what the generator computes; list and map keep the same distinct epochs within capacity |
| `EthashCache.RecencyIsExact` | parachain/primitives/ethereum/src/ethashproof.rs:98-120 | For every access sequence, whatever the timestamps: the cache holds the last `capacity` distinct epochs in order of last access throughout, if and only if every access is newer than the last accesses of the other epochs that are to stay |
| `EthashCache.LruStep` | parachain/primitives/ethereum/src/ethashproof.rs:98-120 | The same for one access |
| `EthashCache.LeastRecentlyUsed` | parachain/primitives/ethereum/src/ethashproof.rs:98-120 | In particular with increasing timestamps |
| `EthashCache.StaleTimestampEvicts` | parachain/primitives/ethereum/src/ethashproof.rs:106-118 | With a timestamp that steps back the epoch accessed last can be evicted |
| `Difficulty.CalcDifficultyExact` | parachain/primitives/ethereum/src/difficulty.rs:58-111 | When the calculation fails, aborts and succeeds, and that success gives the formula of EIP-100 with the bomb of the fork in force, all written out in numbers; nothing underflows |
| `Difficulty.BombDelay` | parachain/primitives/ethereum/src/difficulty.rs:58-69 | The delay is that of the latest of the four forks that is in force, and there is none before all of them |
| `Difficulty.DelayIsUnique` | parachain/primitives/ethereum/src/difficulty.rs:58-69 | At most one delay is in force at a block |
| `Difficulty.CalcDifficultyMonotone` | parachain/primitives/ethereum/src/difficulty.rs:82-110 | A later timestamp never raises the difficulty nor turns success into failure |
| `Difficulty.CalcDifficultyRate` | parachain/primitives/ethereum/src/difficulty.rs:87-110 | The result is at least 131072 and, without the bomb, between 1949/2048 and 2050/2048 of the parent's |
| `MerkleTree.DepthIsCeilLog2` | relayer/crypto/merkle/merkle.go:24-26 | The number of halvings is the binary logarithm rounded up |
| `MerkleTree.PathComplete` | relayer/crypto/merkle/merkle.go:126-160 | For every size and index the path of a leaf recomputes the root |
| `MerkleTree.PathShape` | relayer/crypto/merkle/merkle.go:137-157 | The sides of a path depend on the index and the number of leaves alone |
| `MerkleTree.PathBinds` | relayer/crypto/merkle/merkle.go:217-232 | A path of a leaf's shape that recomputes the root, without a collision with the tree, starts at that leaf and is its path |
| `MerkleTree.ContractAcceptsExactly` | ethereum/contracts/utils/MerkleProof.sol:15-98 | Without a collision with the tree the contract accepts for a position exactly the leaf there with the digests of its path, and ignores what follows them |
| `MerkleTree.RootAtPositionFolds` | ethereum/contracts/utils/MerkleProof.sol:56-98 | The contract folds the path whose sides are the shape of the position, so a hash-only proof loses nothing |
| `MerkleTree.ComputeRootFromProofAtPosition` | ethereum/contracts/utils/MerkleProof.sol:56-98 | The contract's loop computes the specified root or reverts |
| `MerkleTree.BuiltRoot` | relayer/crypto/merkle/merkle.go:164-207 | The levels end in one digest, the Merkle root of any of them |
| `MerkleTree.Tree.Hash` | relayer/crypto/merkle/merkle.go:164-207 | Builds all levels from the leaves, or fails for none and changes nothing |
| `MerkleTree.Tree.NextLevel` | relayer/crypto/merkle/merkle.go:185-201 | Pairs are hashed and an odd last digest is promoted |
| `MerkleTree.Tree.FindIndex` | relayer/crypto/merkle/merkle.go:89-103 | The first index of a leaf, or -1 |
| `MerkleTree.Tree.MerklePath` | relayer/crypto/merkle/merkle.go:126-160 | The path of the first leaf that hashes like the pre-leaf, empty if none does |
| `MerkleTree.Prove` | relayer/crypto/merkle/merkle.go:217-232 | Accepts exactly when the fold along the path gives the root |
| `MerkleTree.GenerateMerkleProof` | relayer/crypto/merkle/merkle.go:234-261 | Its own check never fails; leaf, root and path digests belong to the first pre-leaf that hashes like the requested one |
| `ParachainProof.CreateParachainMerkleProof` | relayer/relays/parachain/merkle-proof.go:72-113 | The requested head stands at the returned index of the sorted heads and the contract recomputes the root from it; what happens for an ID that is missing |
| `ParachainProof.SliceUnique` | relayer/relays/parachain/merkle-proof.go:73-80 | The sorted list does not depend on the order in which the map is read |
| `ParachainProof.SortedSlice` | relayer/relays/parachain/merkle-proof.go:73-80 | Lists exactly the heads by ascending ID |
| `Catchup.SearchIsComplete` | relayer/relays/parachain/catchup.go:245-326 | On a chain that is readable from some block on, with nonces that rise from block to block and, unless that is block 0, a delivered commitment of each channel, the search that stops early finds exactly the commitments all of whose nonces exceed the delivered one, if and only if no block has an undelivered commitment behind a delivered one of its channel; otherwise it finds fewer |
| `Catchup.ScanExact` | relayer/relays/parachain/catchup.go:284-314 | What the scan of one block keeps, when it keeps less than is undelivered, and which channels it finds |
| `Catchup.SearchFailsExactly` | relayer/relays/parachain/catchup.go:254-326 | On any chain the search fails if and only if it gets to a block that cannot be fetched, or to a commitment that cannot be read on a channel that it is still searching |
| `Catchup.ScanFails` | relayer/relays/parachain/catchup.go:284-314 | The same for the scan of one block |
| `Catchup.SearchForLostCommitments` | relayer/relays/parachain/catchup.go:245-326 | The backward loop terminates and computes the specified search, errors included |
| `Catchup.ScanBlock` | relayer/relays/parachain/catchup.go:284-314 | The loop over a block's items computes the specified scan |
| `Catchup.CheckMessageNonces` | relayer/relays/parachain/catchup.go:328-361 | True exactly if some nonce is not above the delivered one |
| `Catchup.SecondCommitmentLost` | relayer/relays/parachain/catchup.go:286-300 | A chain on which the search finds nothing although a commitment is undelivered |
| `MissedMessages.CatchUpIsExact` | relayer/relays/parachain/catchup.go:97-141 | Exactly the undelivered commitments are packaged, once each, in chain order, each with the greatest relay block that carries its parachain block, if and only if no block is split as above and the relay chain and the MMR can prove every block with an undelivered commitment; the nonces ascend per channel |
| `MissedMessages.WalkExact` | relayer/relays/parachain/catchup.go:149-240 | For heads that never go down since the first readable one and descending targets, the shared cursor succeeds exactly if every target is the head of some relay block whose last one the MMR covers, and finds that block for each |
| `MissedMessages.PackagesMatch` | relayer/relays/parachain/catchup.go:192-238 | Whatever the chains: every package names the given parachain and a relay block with its parachain block as head; its MMR leaf is the relay block less the starting block, in 64 bits, and holds the root of those heads |
| `MissedMessages.LeafOfNext` | relayer/chain/relaychain/connection.go:86 | The leaf that covers a relay block is its number less the starting block, in 64 bits |
| `MissedMessages.FindHead` | relayer/relays/parachain/catchup.go:158-190 | The inner loop terminates at the highest relay block with the head, or fails |
| `MissedMessages.FindRelayBlocks` | relayer/relays/parachain/catchup.go:149-240 | The outer loop terminates and finds the specified relay blocks, or fails where their heads root is not that of the MMR leaf |
| `MissedMessages.ReverseBlocks` | relayer/relays/parachain/catchup.go:120-123 | The in-place loop reverses the blocks |
| `MissedMessages.ReversedIsInOrder` | relayer/relays/parachain/catchup.go:120-123 | Reversing what the search returns puts the commitments in chain order |
| `MissedMessages.InOrderAscends` | relayer/relays/parachain/types.go:38-61 | In chain order each channel's commitments have ascending nonces, if they rise within each block too, and are all undelivered |
| `MissedMessages.CreateMessagePackages` | relayer/relays/parachain/types.go:38-61 | The nested loops package every commitment with its block's proofs, in order |
| `MissedMessages.BuildMissedMessagePackages` | relayer/relays/parachain/catchup.go:97-141 | Early return, search, cursor, reversal and packaging compute the specified packages or error |
| `HeaderCache.BlockCache.Insert` | relayer/chain/ethereum/header_cache_state.go:54-88 | The three maps keep agreeing within capacity; only the blocks of the least height go, and only for a new height at capacity |
| `HeaderCache.BlockCache.MinNumber` | relayer/chain/ethereum/header_cache_state.go:65-70 | The least cached height |
| `HeaderCache.BlockCache.Get` | relayer/chain/ethereum/header_cache_state.go:90-97 | Finds a block exactly if one with the hash is cached, and the trie with it has that block's receipt root |
| `HeaderCache.BlockCache.GetReceiptTrie` | relayer/chain/ethereum/header_cache_state.go:192-219 | A returned trie has the receipt root of the cached block or else of the loaded one; when it fails; what it caches |
| `HeaderCache.CachesAgree` | relayer/chain/ethereum/header_cache_state.go:225-289 | Under every interleaving a returned cache is that of number/30000 and the next cache is nil or the following epoch's |
| `HeaderCache.GetExact` | relayer/chain/ethereum/header_cache_state.go:225-270 | When a call succeeds, that a failed one changes nothing, and which cache is kept as the next one |
| `HeaderCache.PrepareExact` | relayer/chain/ethereum/header_cache_state.go:272-289 | When a preparation adds the cache of the following epoch |
| `HeaderCache.EthashproofCacheState.GetEthashproofCache` | relayer/chain/ethereum/header_cache_state.go:225-270 | A call leads to the specified state and answer |
| `HeaderCache.EthashproofCacheState.PrepareNextEthashproofCache` | relayer/chain/ethereum/header_cache_state.go:272-289 | A preparation leads to the specified state and answer |
| `HeaderCache.PreparationCanFail` | relayer/chain/ethereum/header_cache_state.go:277-281 | Two interleavings in which a preparation finds a next cache |
| `HeaderCache.OvertakingIsExact` | relayer/chain/ethereum/header_cache_state.go:264-281 | A call lets a later preparation fail exactly if it asks for another epoch, and can load it, while one is outstanding |
| `HeaderCache.PatientIsExact` | relayer/chain/ethereum/header_cache_state.go:225-281 | At no point of a run can a preparation find a next cache, if and only if no call asks for another epoch, and can load it, while one is outstanding |
| `HeaderCache.PatientFromStart` | relayer/chain/ethereum/header_cache_state.go:141-289 | The same from the state in which the relayer starts |
| `ExtrinsicPool.PoolIsSafe` | relayer/chain/parachain/outgoing_extrinsics.go:37-114 | Over every interleaving the tokens taken are those of live loops and of loops that failed before their extrinsic was seen in a block, at most ten, and a loop can start exactly while they are fewer; no receive under the lock blocks; the maximum is the largest nonce seen in a block, also if the callback failed; no loop with a positive nonce stops without error before its nonce is included |
| `ExtrinsicPool.StepKeepsInv` | relayer/chain/parachain/outgoing_extrinsics.go:53-112 | Every step keeps the invariant and never lowers the maximum |
| `ExtrinsicPool.ErrorWithoutToken` | relayer/chain/parachain/outgoing_extrinsics.go:95-107 | A loop whose callback fails ends with an error and holds no token |
| `ExtrinsicPool.GivesUpEarlyExactly` | relayer/chain/parachain/outgoing_extrinsics.go:74-80 | A loop gives up before its nonce is included if and only if the nonce is 0 and the account has sent nothing |
| `ExtrinsicPool.RetriesExactly` | relayer/chain/parachain/outgoing_extrinsics.go:66-93 | After any interleaving a loop that wakes up stops exactly if a nonce as high as its own was seen in a block or its own is 0, and otherwise watches again or fails |
| `ExtrinsicPool.LoopMoves` | relayer/chain/parachain/outgoing_extrinsics.go:53-112 | Only the loop that steps changes its phase, in which way, and never its nonce |
| `ExtrinsicPool.NonceZeroGivesUp` | relayer/chain/parachain/outgoing_extrinsics.go:74-80 | Nonce 0 stops at its first failure with nothing included |
| `TrieOrder.KeysAscend` | relayer/chain/ethereum/trie.go:32-50 | For every length the RLP keys come in strictly ascending lexicographic order and none is a prefix of another |
| `TrieOrder.InsertedOnce` | relayer/chain/ethereum/trie.go:36-50 | Every index is inserted at exactly one place |
| `TrieOrder.CreateTrie` | relayer/chain/ethereum/trie.go:26-52 | The three loops insert in that order and end with exactly the list's items under their keys |

## Left out

- Keccak, SHA-256, RLP decoders, SCALE codecs, secp256k1: parameters with the assumptions listed above; of RLP the encoding and a plain reader are modelled, not the decoders of receipts and trie nodes.
- HeaderRlp.SameEncodingExactly: for headers whose fields and encoding are shorter than 2^64 bytes, as memory allows; the partial hash without the seal stays a parameter.
- The `ethash` crate and the table of dataset roots: hashimoto is any process that reads 64 pairs; the committed tree is any perfect tree of depth up to 64.
- The decoding of mix hash and nonce from the seal, and the conversion of the proof-of-work result to a number: functions of the environment.
- Development mode without proof-of-work checks: block numbers are unconstrained there and the chain invariants do not apply.
- `initialize_storage` with several headers: used by tests and benchmarks; the single-header call of the genesis build is modelled.
- Pallet.EthereumLightClient.Import: an abort in a 256-bit operation is modelled as a failed call that changes nothing.
- HeaderCache.BlockCache.constructor: requires a capacity of at least 1; with capacity 0 the code never evicts.
- HeaderCache.CachesAgree: one caller of `GetEthashproofCache` at a time, as in the relayer; its first, unlocked comparison is part of the same step.
- ExtrinsicPool.PoolIsSafe: the loops are a state machine on values, not threads; the chain includes nonces in order.
- MissedMessages.BuildMissedMessagePackages: reading the nonces from both chains is left out, and of an MMR proof only the leaf index and the heads root are kept.
- ParachainProof.CreateParachainMerkleProof: requires at least one head, without which the code aborts; encoding never fails.
- `math.Log2` rounding in `depth`: the integer logarithm is used.
- Slices that share memory in `append(left, right...)`: digests are values; the hasher in use returns full slices.
- Asset, channel, dispatch and XCM pallets, the BEEFY light client and the other contracts, connections, subscriptions, configuration and benchmarks: bookkeeping and plumbing that would only add easier members.
