# BagsVault verification

BagsVault is a fixed-denomination privacy pool on Solana: a depositor puts a note commitment into a Merkle tree kept by
the program, and a relayer later pays out a note against a zero-knowledge proof and a nullifier. This project models the
program, the off-chain code that serves paths and public inputs, the backend's concurrent protocols and the text and byte
formats, and proves what they are for.

The main results:

- **The tree.** `insert`, which touches one node per level of a cache of left siblings, returns the root of the full tree
  of that depth with unused leaves zero, and the ring of ten roots is exactly the last ten of them (any depth below 64;
  the program's is 20).
- **Paths.** Every leaf's siblings fold to the root; under a collision-free hash only the leaf that is there opens a
  position, and it stays that leaf through all later insertions. For each answer of the path endpoint, the exact leaves
  for which it opens the root the program holds, and those for which it opens the endpoint's own.
- **The pool, step by step.** A withdrawal changes every account by exactly the recipient's part, the relayer's cut and
  the amount the vault gives, whichever coincide; a proof is accepted for the recipient, relayer, amount and fee it
  claims and for no others; a paused pool stands still.
- **The pool over every run.** Terms never change, funds are conserved whatever accounts coincide, every payout is the
  exact split, no nullifier is recorded twice.
- **Solvency, with its exact condition.** Take the withdrawal circuit together with a rule on which index a proof may
  hash for given side bits, and a sound and complete verifier for the two. Call a leaf opened once a recorded nullifier is
  an allowed nullifier hash of its note. Every run of every pool is solvent (recorded withdrawals and unopened leaves
  together never exceed the deposits, and the vault holds one denomination for every deposit not paid out) if and only if
  the rule leaves at most one index per vector of side bits. Under such a rule a note may still share its nullifier hash
  with a note elsewhere and be blocked once that one is paid; every run keeps exact books (withdrawals and unopened leaves
  together are the deposits) if and only if positions and indices are one to one. The circuit as it stands has no rule,
  and the run that fails is given, for every denomination and fee; tying the index to the sides is one to one, and then
  an accepted withdrawal always finds its amount in the vault and an unspent note is paid through nine further deposits.
- **Concurrency.** In every interleaving of registrations the stored indices are 0..n-1, all successful callers agree, and
  an insert succeeds exactly if its count is current and its commitment new;
  in every interleaving of relays, rebroadcasts and landings each nullifier is paid at most once and every row names the
  payout; a stored idempotency record never changes, and a request is sure not to run its handler exactly if an answer
  for its key was returned before it arrived.
- **Formats.** Notes, instruction bytes and public inputs, each with the exact condition under which they round-trip.

The hash is a parameter with an injectivity hypothesis where one is needed (`IndexRule.TrustedCanBeMet` shows that all
the hypotheses can hold together, for every rule); Groth16 verification is an abstract predicate.

Files, from the bottom up: `Arithmetic`, `Words`; `FullTree` (the mathematics), `IncrementalTree` (merkle.rs, state.rs),
`Paths` (prover's fold), `Replay` (path endpoint); `Ledger`, `Pool` (state machine), `Instructions` (what each step does
and refuses), `PoolProgram` (handlers in place, each proved to be its step), `Accounting`, `Solvency`, `HonestUse`,
`IndexRule` and `ExactBooks` (runs);
`Registration`, `Broadcast`, `Relay`, `Idempotency`; `ByteCodec`, `WithdrawData`, `FieldInputs`, `Notes`.

Where code and documentation differ, the model follows the code:

- `backend/app/routers/anonymity.py` documents (lines 153-158) that the recorded sibling is the empty value on the left
  and the cached subtree on the right; line 175 picks the two the other way round. Measured against the root of the
  replay itself, the documented path always folds to it and the written one exactly when every cached sibling is still
  empty, which for a hash that never yields the zero word means for the first leaf only.
- The same lines call the sibling the one the on-chain verifier expects, but the replay takes zero for an empty subtree
  at every level where the program takes the root of an all-zero subtree (and SHA-256 for the program's Poseidon, as
  its own text says). Measured against the root the program holds right after the leaf, with one hash for both that never
  yields the zero word, the documented path folds to it for the last two leaves of the tree only, and the written path
  for none (but for one degenerate tree of depth two).
- The same file calls its fallback answer, zero at every level, sound for the very first deposit (lines 90-97, 135-138).
  At depth two or more it opens the root the program holds for no leaf. The replay's own root it opens for the first
  leaf, and for the second one after a zero leaf.
- `programs/bagsvault/src/verifier.rs` lines 80-84 say that off-chain code masks public keys above the field modulus.
  `zk_proof_service.py` reduces them instead, so the two public-input vectors agree exactly below the modulus.
- `circuits/bagsvault_withdraw/src/main.nr` describes `leaf_index` as the commitment's position (line 23) but does not
  constrain it by `is_left`. Solvency needs such a constraint; `IndexRule.SolventIffOneIndex` says exactly which, and
  `IndexRule.OtherDepositorIsRefused` is the run without it. That two notes with one nullifier value keep apart (lines
  47-48) needs the other half of one-to-one, `ExactBooks.NullifiersStayApart`.
- `backend/app/middleware/idempotency.py` describes the conflict as being about one method and path (lines 25-26). The
  lookup is by key alone: `Idempotency.OtherPathIsReplayed` has a request answered from the record of another path.
- The same file promises that a retry does not run the handler again (lines 4-7). That is sure exactly of a request that
  arrives after an answer for its key was returned; retries that overlap may both run.

## Model

| member | source | states |
|---|---|---|
| `FullTree.RootIsPlainRoot` | programs/bagsvault/src/merkle.rs:20-41 | taking the precomputed value for each empty subtree gives the same root as hashing out the whole tree with unused leaves zero |
| `FullTree.CompleteNodeStays` | programs/bagsvault/src/merkle.rs:85-88 | a subtree whose leaves are all filled keeps its root whatever is inserted later |
| `IncrementalTree.FilledAtSetBit` | programs/bagsvault/src/merkle.rs:77-93 | for each set bit l of the count n, the cache holds the root of the complete subtree at index (n>>l)-1, also in every later tree |
| `IncrementalTree.InsertOnLeft` | programs/bagsvault/src/merkle.rs:78-84 | a walk at an even index is at the last node of its level, so its sibling is empty and it becomes the cached one |
| `IncrementalTree.InsertOnRight` | programs/bagsvault/src/merkle.rs:85-92 | a walk at an odd index finds its true left sibling in the cache, which stays |
| `IncrementalTree.ZeroValues` | programs/bagsvault/src/merkle.rs:29-41 | level l holds the root of an all-zero subtree of height l |
| `IncrementalTree.EmptyRoot` | programs/bagsvault/src/merkle.rs:50-59 | the root of the tree without leaves |
| `IncrementalTree.MerkleTreeState.Climb` | programs/bagsvault/src/merkle.rs:73-93 | the in-place walk ends with the full tree's root and leaves the cache of the longer tree |
| `IncrementalTree.MerkleTreeState.PushRoot` | programs/bagsvault/src/merkle.rs:95-103 | after the root is written under the cursor, ring, cursor and count are those of the longer history |
| `IncrementalTree.MerkleTreeState.Insert` | programs/bagsvault/src/merkle.rs:64-106 | appends the leaf and returns the root of the full tree padded with zeros; a full tree or a leaf the hasher refuses is TreeFull with nothing written |
| `IncrementalTree.MerkleTreeState.constructor` | programs/bagsvault/src/instructions/initialize.rs:49-62 | a new pool has the cache and ring of the empty tree, with the empty root as its only root |
| `IncrementalTree.RingAfterInsert` | programs/bagsvault/src/merkle.rs:95-103 | one write under the cursor turns the ring of n deposits into that of n + 1 |
| `IncrementalTree.WindowIsRing` | programs/bagsvault/src/state.rs:44-45 | the roots of the last ten deposits, and no others, are what the slots were last written with |
| `IncrementalTree.MerkleTreeState.RingIsWindow` | programs/bagsvault/src/state.rs:65-73 | a nonzero value is in the ring exactly when it is one of the last min(n, 10) roots, or the empty root before any deposit |
| `IncrementalTree.MerkleTreeState.RootIsKnown` | programs/bagsvault/src/state.rs:65-73 | accepts exactly the nonzero roots of the window |
| `IncrementalTree.RootStaysKnown` | programs/bagsvault/src/state.rs:7-11 | a nonzero root is accepted through nine further deposits of any leaves |
| `Solvency.RootKnownExactlyNine` | programs/bagsvault/src/state.rs:7-11 | without collisions and zero leaves, a root is accepted through exactly nine further deposits and never after that |
| `Paths.SidesEncodeIndex` | backend/app/routers/anonymity.py:139-145 | the levels whose bit says "right" add up to the leaf index modulo 2^depth |
| `Paths.SidesOfIndex` | backend/app/routers/anonymity.py:168-183 | side bits and positions below 2^depth determine each other |
| `Paths.MerkleRootFromPath` | backend/app/services/zk_proof_service.py:203-220 | folds the witness, and fails exactly on unequal lengths |
| `Paths.PathOpensNode` | backend/app/services/zk_proof_service.py:214-220 | every leaf's siblings fold to the node above it at each height, for any values of the empty subtrees |
| `Paths.PathOpensRoot` | backend/app/services/zk_proof_service.py:214-220 | completeness: the siblings of any leaf of any tree fold to its root |
| `Paths.OpeningsAgree` | circuits/bagsvault_withdraw/src/main.nr:54-61 | binding: along the same sides, two openings reach one root exactly when leaf and siblings are equal |
| `Paths.OpeningIsLeaf` | circuits/bagsvault_withdraw/src/main.nr:54-61 | an opening reaches the tree's root exactly when it is the leaf at its position with that leaf's siblings |
| `Paths.LongerTreeDiffers` | programs/bagsvault/src/merkle.rs:61-63 | every insertion of a nonzero leaf leads to a root no shorter tree had |
| `Paths.OpenedLeafStays` | programs/bagsvault/src/state.rs:65-73 | a nonzero leaf opened under an older root was inserted before it and is still at its index after all later insertions |
| `Replay.LoadLeaves` | backend/app/routers/anonymity.py:107-133 | each stored leaf lands at its own index, every gap is a zero leaf, and the target is found exactly when it is stored |
| `Replay.ReplayLeaf` | backend/app/routers/anonymity.py:168-183 | one replayed insertion moves the cache to that of the longer tree and records the written siblings and the sides of the requested leaf only |
| `Replay.ReplayAll` | backend/app/routers/anonymity.py:161-186 | the loop over all leaves ends with what was recorded at the requested one |
| `Replay.GetMerklePath` | backend/app/routers/anonymity.py:107-194 | the whole response: fallback on an empty collection, not-found exactly when the leaf is not stored, else the path of the written rule against the gap-padded earlier leaves, with side bits that encode the index in both branches |
| `Replay.DocumentedPathOpens` | backend/app/routers/anonymity.py:153-158 | the documented rule gives a path that folds to the root its own tree reaches right after the leaf, whatever that tree takes for empty subtrees |
| `Replay.WrittenPathOpensIffCacheEmpty` | backend/app/routers/anonymity.py:174-175 | the rule as written gives a path to the root of its own tree exactly when every cached sibling is still the empty value |
| `Replay.WrittenPathOpensIffFirst` | backend/app/routers/anonymity.py:163-183 | with the replay's zeros and a hash that never yields the zero word, the written path folds to the replay's own root for the first leaf only |
| `Replay.CompleteNodeIgnoresEmpty` | programs/bagsvault/src/merkle.rs:85-88 | a complete subtree has the same root in program and replay, whatever they take for empty ones |
| `Replay.OpensPoolIff` | programs/bagsvault/src/merkle.rs:77-95 | a path opens the root the program computes after the leaf exactly when it holds the program's siblings at every level |
| `Replay.DocumentedPathOpensPoolIffLast` | backend/app/routers/anonymity.py:153-166 | with the replay's zeros the documented path opens the program's root exactly for the last two leaves of the tree |
| `Replay.WrittenPathOpensPoolIff` | backend/app/routers/anonymity.py:163-183 | the path as written opens the program's root for no leaf, but for the second leaf of a depth-two tree after a zero leaf |
| `Replay.FallbackNeverOpensPool` | backend/app/routers/anonymity.py:135-145 | the fallback answer opens the root the program holds after the leaf for no leaf index |
| `Replay.FallbackOpensReplayIff` | backend/app/routers/anonymity.py:88-97 | the fallback answer opens the replay's own root exactly for the first leaf and for the second one after a zero leaf |
| `Replay.WrittenPathCounterexample` | backend/app/routers/anonymity.py:174-175 | a tree of two leaves where the written path misses the replay's own root and the documented one reaches it |
| `Pool.SplitPayoutIsExact` | programs/bagsvault/src/instructions/withdraw.rs:31-44 | for every u64 amount and fee up to 10000 bps nothing overflows or truncates, the parts sum to the amount and the cut is the exact floor |
| `Instructions.NativeWithdrawalPays` | programs/bagsvault/src/instructions/withdraw.rs:218-241 | who is paid: every account changes by exactly minus the amount if it is the vault, plus the amount less the cut if it is the recipient, plus the cut if it is the relayer, whichever coincide; the cut is the fee in ten thousandths rounded down |
| `Instructions.TokenWithdrawalPays` | programs/bagsvault/src/instructions/withdraw.rs:364-399 | the same for the three token accounts, which belong to vault, recipient and relayer |
| `Instructions.NativeDepositIff` | programs/bagsvault/src/instructions/deposit.rs:53-101 | a native deposit goes through exactly if the pool is open and native, the tree takes the leaf, and depositor and vault balance allow it |
| `Instructions.NativeDepositMoves` | programs/bagsvault/src/instructions/deposit.rs:85-101 | it moves one denomination from depositor to vault, appends the leaf, and changes nothing else |
| `Instructions.TokenDepositIff` | programs/bagsvault/src/instructions/deposit.rs:106-180 | a token deposit goes through exactly if besides the accounts exist and belong to depositor and vault |
| `Instructions.TokenDepositMoves` | programs/bagsvault/src/instructions/deposit.rs:161-180 | it moves one denomination from an account of the depositor to one of the vault, appends the leaf, and changes nothing else |
| `Instructions.VaultNeverSigns` | programs/bagsvault/src/instructions/deposit.rs:57-59 | no instruction goes through on the vault's own signature, and nobody moves another's account |
| `Instructions.WrongKindIsRefused` | programs/bagsvault/src/instructions/withdraw.rs:155-158 | native instructions go through in native pools only, token instructions in token pools only |
| `Instructions.AuthorityPauses` | programs/bagsvault/src/instructions/admin.rs:6-27 | pausing and unpausing take the authority and change the flag only |
| `Instructions.RotationHandsOver` | programs/bagsvault/src/instructions/admin.rs:29-32 | after a rotation the new authority decides and the old one does not |
| `Instructions.PausedPoolIsStill` | programs/bagsvault/src/instructions/withdraw.rs:155 | from a pause on, whatever else runs, no deposit and no withdrawal goes through until it is lifted |
| `Instructions.ProofIsThreeParts` | programs/bagsvault/src/verifier.rs:38-67 | a proof is accepted exactly if it is 64, 128 and 64 bytes that the pairing check accepts as its three points |
| `Instructions.ProofBindsTheClaim` | programs/bagsvault/src/instructions/withdraw.rs:88-106 | a proof of one claim is accepted for that root, nullifier, recipient, amount, relayer and fee, and for no others |
| `Instructions.HonestClaimPassesIff` | programs/bagsvault/src/instructions/withdraw.rs:78-106 | a withdrawal true to its proof passes exactly if its nullifier is fresh, its root known and its amount the denomination |
| `Instructions.FeeCap` | programs/bagsvault/src/instructions/initialize.rs:8-68 | a fee above a tenth opens no pool; up to it the pool starts open and empty on the terms asked for |
| `Accounting.PaySolSum` | programs/bagsvault/src/instructions/withdraw.rs:228-241 | for any group of accounts a native payout changes the group's total by exactly the parts that enter and leave it, also when vault, recipient and relayer coincide |
| `Accounting.PaySplSum` | programs/bagsvault/src/instructions/withdraw.rs:373-399 | the same for the two token transfers |
| `Accounting.CoveredPayoutGoesThrough` | programs/bagsvault/src/instructions/withdraw.rs:228-241 | when all lamports together fit a word, a payout the vault can cover has no failing addition |
| `Accounting.DepositKeeps` | programs/bagsvault/src/instructions/deposit.rs:85-101 | a deposit adds one denomination to the vault and one leaf, and keeps terms, conservation, receipts and nullifiers |
| `Accounting.WithdrawSolKeeps` | programs/bagsvault/src/instructions/withdraw.rs:191-244 | a native withdrawal keeps the books, and its nullifier is new |
| `Accounting.WithdrawSplKeeps` | programs/bagsvault/src/instructions/withdraw.rs:337-402 | so does a token withdrawal |
| `Accounting.StepKeeps` | programs/bagsvault/src/lib.rs:50-128 | every instruction, every outside transfer and every spend in another pool keeps the invariant |
| `Accounting.RunIsSound` | programs/bagsvault/src/instructions/withdraw.rs:66-122 | over every run from `initialize`: mint, denomination and fee fixed, total funds unchanged, vault = start + denomination × (deposits − withdrawals) + other inflow, every payout exact, no nullifier twice |
| `Accounting.TakingsNearShare` | programs/bagsvault/src/instructions/withdraw.rs:35-44 | over k withdrawals the relayers' takings are never above the exact share and less than k units below it |
| `Accounting.TokenPayoutGoesThroughIff` | programs/bagsvault/src/instructions/withdraw.rs:373-399 | the two transfers go through exactly when their source holds both parts, or the larger one if the first transfer is to itself |
| `Accounting.AcceptedTokensArePaidIff` | programs/bagsvault/src/instructions/withdraw.rs:337-402 | in every reachable unpaused token pool a withdrawal goes through exactly when the named accounts fit, the checks pass and the named source holds what it needs |
| `Accounting.OneOfTwoAccountsRefuses` | programs/bagsvault/src/instructions/withdraw.rs:281-289 | with two vault-owned accounts, a withdrawal that passes its checks is paid from one that holds its amount and refused from a bare one |
| `HonestUse.BareAccountIsReached` | programs/bagsvault/src/instructions/withdraw.rs:337-402 | the run that gets there: a token pool is opened, one note is deposited into one of the accounts, and its withdrawal is paid from that one and refused from the other |
| `Solvency.LeafSpentOnce` | circuits/bagsvault_withdraw/src/main.nr:46-50 | under a rule with one index per position, one leaf has one nullifier hash |
| `Solvency.AcceptedSpendsALeaf` | programs/bagsvault/src/instructions/withdraw.rs:66-122 | under any rule, a withdrawal that passes all checks spends a leaf deposited before, with an index allowed at its position |
| `Solvency.DistinctSpendsTakeDistinctLeaves` | programs/bagsvault/src/instructions/withdraw.rs:161-171 | under a rule with one index per position, different nullifiers need different leaves |
| `Solvency.RunSpendsLeaves` | programs/bagsvault/src/instructions/withdraw.rs:66-122 | under any rule, over every run each recorded nullifier belongs to an inserted leaf |
| `Solvency.RunIsSolvent` | programs/bagsvault/src/instructions/withdraw.rs:228-231 | under a rule with one index per position, over every run recorded withdrawals and unopened leaves together never exceed the deposits, and the vault holds one denomination for every deposit not paid out, on top of what came from elsewhere |
| `Solvency.AcceptedIsCovered` | programs/bagsvault/src/instructions/withdraw.rs:228-231 | under such a rule, in every reachable state a withdrawal that passes the checks finds its amount in the vault, so the subtraction succeeds |
| `Solvency.AcceptedIsPaid` | programs/bagsvault/src/instructions/withdraw.rs:191-244 | under such a rule, in an unpaused native pool a withdrawal goes through exactly when its checks pass |
| `Solvency.NoteIsProvable` | backend/app/services/zk_proof_service.py:225-244 | the note behind any deposited leaf has a witness for every index allowed at its position |
| `Solvency.HonestWithdrawalPasses` | programs/bagsvault/src/instructions/withdraw.rs:66-122 | with an accepted proof against a root at most nine deposits old, the checks pass exactly when the nullifier is unspent |
| `Solvency.OwnerHasWithdrawal` | programs/bagsvault/src/instructions/withdraw.rs:66-122 | under any rule, a note's owner has a withdrawal for each allowed index, to any recipient and relayer, and only a spent nullifier stops it |
| `Solvency.UnspentNoteIsPaid` | programs/bagsvault/src/instructions/withdraw.rs:191-244 | from deposit to payout: under a rule with one index per position, an unspent note is paid through nine further deposits, all but the relayer's cut to the recipient its owner names |
| `IndexRule.SolventIffOneIndex` | circuits/bagsvault_withdraw/src/main.nr:43-61 | every run of every pool is solvent (recorded withdrawals plus unopened leaves at most the deposits, each deposit not paid out still in the vault) if and only if the rule leaves at most one index per vector of side bits |
| `ExactBooks.ExactIffOneToOne` | circuits/bagsvault_withdraw/src/main.nr:43-61 | in every run of every pool recorded withdrawals plus unopened leaves are exactly the deposits if and only if positions and indices are one to one |
| `ExactBooks.RunBooksExact` | programs/bagsvault/src/instructions/withdraw.rs:66-122 | under a one-to-one rule, over every run each recorded withdrawal opened exactly one leaf |
| `ExactBooks.NullifiersStayApart` | circuits/bagsvault_withdraw/src/main.nr:46-50 | if no index serves two positions, notes at different positions have different nullifier hashes even when two depositors drew the same nullifier value |
| `ExactBooks.SharedIndexBlocksALeaf` | circuits/bagsvault_withdraw/src/main.nr:46-50 | an index allowed at two positions: a note deposited at both is paid once, both leaves count as opened, and the second can no longer pass the checks |
| `ExactBooks.BoundIndexIsOneToOne` | circuits/bagsvault_withdraw/src/main.nr:20-25 | tying the index to the position the sides encode is one to one |
| `IndexRule.TwoIndicesPayTwice` | programs/bagsvault/src/instructions/withdraw.rs:191-244 | in a native pool that holds two denominations, two allowed indices pay one leaf twice |
| `IndexRule.TwoIndicesBreakSolvency` | circuits/bagsvault_withdraw/src/main.nr:43-61 | two allowed indices for any one position give a pool and a run from `initialize` that is not solvent |
| `IndexRule.WithoutRuleNotSolvent` | circuits/bagsvault_withdraw/src/main.nr:43-61 | the circuit as it stands, which allows every index, has a pool and a run that is not solvent |
| `IndexRule.OtherDepositorIsRefused` | programs/bagsvault/src/instructions/withdraw.rs:228-231 | without a rule, for every denomination and fee: two deposits, one note paid twice, and the other depositor's withdrawal passes every check and fails at the vault |
| `HonestUse.DepositsRun` | programs/bagsvault/src/instructions/deposit.rs:85-101 | for any denomination and fee, any number of deposits that fit the tree and the payer's means go through, each moving one denomination into the vault |
| `IndexRule.BoundIndexIsOneIndex` | circuits/bagsvault_withdraw/src/main.nr:20-25 | tying the index to the position the sides encode is a rule with one index |
| `IndexRule.SameNullifierIffSameIndex` | circuits/bagsvault_withdraw/src/main.nr:46-61 | two openings of one leaf have one nullifier hash exactly when they hash the same index |
| `IndexRule.CircuitLeavesIndexFree` | circuits/bagsvault_withdraw/src/main.nr:43-61 | the constraints alone hold for any index, so no rule follows from them |
| `IndexRule.TrustedCanBeMet` | circuits/bagsvault_withdraw/src/main.nr:29-61 | for every depth and every rule, the free one of the circuit included, there are hashes, a verifier and an initial pool that meet all the hypotheses |
| `PoolProgram.InitializePool` | programs/bagsvault/src/instructions/initialize.rs:39-69 | creates the initial state with every field set, or nothing above the fee cap |
| `PoolProgram.Program.Pause` | programs/bagsvault/src/instructions/admin.rs:19-22 | only the authority's signature sets the flag; nothing else changes |
| `PoolProgram.Program.Unpause` | programs/bagsvault/src/instructions/admin.rs:24-27 | only the authority's signature clears the flag; nothing else changes |
| `PoolProgram.Program.RotateAuthority` | programs/bagsvault/src/instructions/admin.rs:29-32 | only the authority's signature replaces the authority; nothing else changes |
| `PoolProgram.Program.DepositInto` | programs/bagsvault/src/instructions/deposit.rs:28-47 | transfer and insertion happen both or not at all |
| `PoolProgram.Program.DepositSol` | programs/bagsvault/src/instructions/deposit.rs:53-101 | the in-place handler is the deposit step of the state machine, with the same refusal in each case |
| `PoolProgram.Program.DepositSpl` | programs/bagsvault/src/instructions/deposit.rs:106-180 | the same for the token deposit and its account constraints |
| `PoolProgram.Program.Verify` | programs/bagsvault/src/instructions/withdraw.rs:66-106 | the guards in their order, against the ring in place, decide as the specification over the whole deposit history does |
| `PoolProgram.Program.MoveLamports` | programs/bagsvault/src/instructions/withdraw.rs:222-241 | the sequential writes on current balances are the checked debit and credits of the specification, under any aliasing |
| `PoolProgram.Program.WithdrawSol` | programs/bagsvault/src/instructions/withdraw.rs:128-244 | the in-place handler is the native withdrawal step, all or nothing |
| `PoolProgram.Program.WithdrawSpl` | programs/bagsvault/src/instructions/withdraw.rs:249-402 | the in-place handler is the token withdrawal step, all or nothing |
| `Registration.InsertedAtTheEnd` | backend/app/services/deposit_service.py:109-124 | a counted index that passes the unique indexes is the current size |
| `Registration.OnlySuccessInserts` | backend/app/services/deposit_service.py:94-141 | a step that does not make its caller succeed writes no row |
| `Registration.CountedSucceedsIff` | backend/app/services/deposit_service.py:111-124 | a counted caller's insert succeeds exactly if its count is still the size and its commitment new; then its row has that index and its own data, else it lost the race and nothing is written |
| `Registration.StoredRowDecides` | backend/app/services/deposit_service.py:75-92 | at the lookup and after a lost race, the one row of the commitment decides: returned to its own signature, a conflict to any other; without a row the caller goes on, or the duplicate key is raised |
| `Registration.NodeAnswerDecides` | backend/app/services/deposit_service.py:94-107 | an unknown transaction is not found, a failed one invalid, a landed one goes on |
| `Registration.UndisturbedRegistration` | backend/app/services/deposit_service.py:57-156 | left alone, a landed deposit of a new commitment is stored at the next index with all its data, and returned |
| `Registration.EveryRunIsGood` | backend/app/services/deposit_service.py:57-141 | in every interleaving: gap-free rows, one per commitment, each with a transaction seen landed, each owned by a successful caller with its data |
| `Registration.RowsArePermanent` | backend/app/services/deposit_service.py:122-123 | a row never changes or disappears |
| `Registration.IndicesAreGapFree` | backend/app/database.py:21-23 | the stored `merkle_index` values are exactly 0..n-1, each once |
| `Registration.RegistrationsAgree` | backend/app/services/deposit_service.py:75-141 | all callers that succeed for a commitment get the same stored row with their own signature, and a conflict means another signature |
| `Broadcast.BroadcastWithRetry` | backend/app/clients/tx_executor.py:356-414 | at most max(1, limit) sends; all but the last were refused as retryable; a fatal refusal ends the loop; every payload is the original or the last rebuilt one; the sleeps before send k add up to base × (2^(k-1) − 1) |
| `Broadcast.RetryableIff` | backend/app/clients/tx_executor.py:182-189 | an error is retryable exactly if a retryable marker occurs in its lower-cased text and no fatal one does |
| `Broadcast.DocumentedFatal` | backend/app/clients/tx_executor.py:159-164 | the errors documented as fatal are, wherever they stand in the text |
| `Broadcast.DocumentedRetryable` | backend/app/clients/tx_executor.py:152-158 | those documented as retryable are, unless a fatal one stands in the same text |
| `Broadcast.PayloadIsLastRebuilt` | backend/app/clients/tx_executor.py:394-403 | an attempt sends what the last successful rebuild before it gave |
| `Broadcast.PayloadIsOriginal` | backend/app/clients/tx_executor.py:368-376 | without a successful rebuild it sends the original |
| `Broadcast.DoublingSum` | backend/app/clients/tx_executor.py:404-405 | pauses that double from the base add up to base × (2^n − 1) |
| `Broadcast.CommitmentOrder` | backend/app/clients/tx_executor.py:192-204 | a status meets a target by the order processed, confirmed, finalized; an unknown target counts as confirmed and an unknown level meets none |
| `Broadcast.ErrorDecidesFirst` | backend/app/clients/tx_executor.py:430-443 | an on-chain error decides before any level does |
| `Broadcast.AwaitConfirmation` | backend/app/clients/tx_executor.py:419-455 | ends with the first poll that decides: an on-chain error, a sufficient commitment level, or neither and a passed deadline |
| `Relay.LandKeepsGood` | programs/bagsvault/src/instructions/withdraw.rs:161-171 | whatever lands, and whenever, the chain's log names each nullifier once |
| `Relay.AdvanceKeepsGood` | backend/app/services/withdrawal_service.py:427-567 | every next await of a relay keeps the invariant, with any answer from node and database |
| `Relay.LookupDecides` | backend/app/services/withdrawal_service.py:426-434 | an arrived relay is refused exactly if its spelling has a row |
| `Relay.StoredSpellingIsRefused` | backend/app/services/withdrawal_service.py:426-434 | a relay that arrives when its spelling has a row is never built, sent or answered, however the run goes on |
| `Relay.StoppedBeforeSending` | backend/app/services/withdrawal_service.py:468-490 | an unreadable spelling, a missing blockhash and a failed required simulation stop a relay before its first send, and nothing else does |
| `Relay.RetriesFollowLoop` | backend/app/clients/tx_executor.py:371-405 | after k retryable refusals the relay sends the payload that the broadcast loop sends at attempt k |
| `Relay.LastReplyDecides` | backend/app/clients/tx_executor.py:371-414 | an acceptance goes on to confirmation; a fatal refusal, or the last one allowed, fails the relay |
| `Relay.SingleSendWithoutExecutor` | backend/app/services/withdrawal_service.py:512-548 | without an executor there is one send and no poll |
| `Relay.LandingPaysIff` | programs/bagsvault/src/instructions/withdraw.rs:161-171 | a transaction is processed once and pays exactly if otherwise valid and its nullifier unspent |
| `Relay.PollFollowsLoop` | backend/app/clients/tx_executor.py:427-455 | each poll has the consequence the confirmation loop draws from the status it sees |
| `Relay.AnswerLeavesRow` | backend/app/services/withdrawal_service.py:550-567 | an answer given while the database can be reached leaves a row for its spelling, and never a second one |
| `Relay.UndisturbedRelay` | backend/app/services/withdrawal_service.py:421-587 | left alone, a relay pays its order once to its nullifier, stores its row and answers with that payout, with or without an executor |
| `Relay.EveryRunIsGood` | backend/app/services/withdrawal_service.py:421-567 | the invariant holds in every interleaving of relays, rebroadcasts and landings |
| `Relay.AtMostOnce` | programs/bagsvault/src/instructions/withdraw.rs:161-171 | each 32-byte nullifier is paid at most once and each spelling of it has at most one row |
| `Relay.RowsNameThePayout` | backend/app/services/withdrawal_service.py:498-567 | on the executor path every row's and every answer's signature is the one payout of its nullifier, to the order asked for |
| `Idempotency.BufferBody` | backend/app/middleware/idempotency.py:94-98 | the buffered body has every chunk right after those before it and nothing else |
| `Idempotency.ConcatAppends` | backend/app/middleware/idempotency.py:97-98 | a response streamed in two runs of chunks is the first followed by the second |
| `Idempotency.WhatIsGuarded` | backend/app/middleware/idempotency.py:61-67 | the cache is for POST, PUT and PATCH in any case of letters, with a key that is not empty |
| `Idempotency.OthersPassThrough` | backend/app/middleware/idempotency.py:62-67 | any other request gets its own handler's answer, whatever is on record, and leaves none |
| `Idempotency.RaisedLeavesNoRecord` | backend/app/middleware/idempotency.py:89-117 | a handler that raises leaves no record of its key |
| `Idempotency.EveryRunIsGood` | backend/app/middleware/idempotency.py:61-128 | in every interleaving no record changes, each is the response of a request with its key, and exactly the callers answered from a record had no handler run |
| `Idempotency.RecordedKeyStopsHandlers` | backend/app/middleware/idempotency.py:73-81 | a lookup after the insert is answered with the recorded status and body, or with a conflict exactly when the body hash differs, and its handler never runs |
| `Idempotency.ReplaysAgree` | backend/app/middleware/idempotency.py:73-81 | all replays of a key are one response, the one a handled request with the same body hash got |
| `Idempotency.OnlyTheHashDecides` | backend/app/middleware/idempotency.py:74-81 | whatever verb and path, a caller spared its handler was replayed exactly when the body hashes agree and refused exactly when they differ |
| `Idempotency.OtherPathIsReplayed` | backend/app/middleware/idempotency.py:73-81 | a request with the key and body hash of an earlier one, on whatever verb and path, gets the earlier one's response |
| `Idempotency.AnswersAreRecorded` | backend/app/middleware/idempotency.py:116-128 | in every interleaving, no answer leaves before its key is on record |
| `Idempotency.LaterRequestsAreSpared` | backend/app/middleware/idempotency.py:4-7 | a request that arrives after any answer for its key was returned never runs its handler, however the run goes on, and gets that record or a conflict |
| `Idempotency.SparedIffAnsweredBefore` | backend/app/middleware/idempotency.py:61-89 | a request is sure, however the run goes on, not to run its handler exactly if an answer for its key was returned before it arrived |
| `Idempotency.OverlappingRetriesBothRun` | backend/app/middleware/idempotency.py:116-128 | two equal requests looked up before either response is stored both run and keep their own responses; the first one stored stays |
| `ByteCodec.BeRoundTrip` | backend/app/services/zk_proof_service.py:69-70 | a value that fits is recovered from its big-endian bytes |
| `ByteCodec.BeIsExact` | backend/app/services/zk_proof_service.py:63-66 | big-endian bytes are the only ones of their length with their value |
| `ByteCodec.LeRoundTrip` | backend/app/services/withdrawal_service.py:274-279 | a value that fits is recovered from its little-endian bytes |
| `ByteCodec.LeIsExact` | backend/app/services/withdrawal_service.py:274-279 | little-endian bytes are the only ones of their length with their value |
| `ByteCodec.BigEndFirst` | backend/app/services/zk_proof_service.py:63-66 | the first byte is the most significant |
| `ByteCodec.LittleIsReversedBig` | backend/app/services/withdrawal_service.py:274-279 | little-endian is big-endian reversed |
| `ByteCodec.PadKeepsValue` | backend/app/services/withdrawal_service.py:264-265 | left padding and cutting to a width keeps the big-endian value modulo 256^width |
| `WithdrawData.Build` | backend/app/services/withdrawal_service.py:264-279 | fails exactly on a proof of 2^32 bytes or more or an amount above 64 bits; otherwise the program reads back proof, padded root and nullifier, recipient and amount |
| `WithdrawData.EncodingIsLaidOut` | backend/app/services/withdrawal_service.py:271-279 | each field stands at its own offset: discriminator, proof length, proof, root, nullifier hash, recipient, amount |
| `WithdrawData.ReadBack` | programs/bagsvault/src/lib.rs:100-109 | reading an encoding gives back its arguments |
| `WithdrawData.WrittenForm` | programs/bagsvault/src/lib.rs:100-109 | data that reads as some arguments starts with their encoding |
| `FieldInputs.U64ToField` | programs/bagsvault/src/verifier.rs:74-78 | the copy into the zeroed buffer is the 32-byte big-endian form of the value |
| `FieldInputs.CanonicalIffRendered` | backend/app/services/zk_proof_service.py:54-66 | rendering the value of 32 bytes gives them back exactly when it is below the modulus |
| `FieldInputs.PublicInputsAgree` | programs/bagsvault/src/instructions/withdraw.rs:88-96 | prover's and program's six inputs are equal exactly when root, nullifier hash and both keys are below the modulus; amount and fee always agree |
| `FieldInputs.ProverMeetsPoolIff` | programs/bagsvault/src/instructions/withdraw.rs:88-96 | the prover's vector for a withdrawal is the one the pool's own check uses exactly when all four words are below the modulus |
| `FieldInputs.ModulusIs` | backend/app/services/zk_proof_service.py:47-51 | the modulus in its usual hexadecimal form |
| `FieldInputs.LargestKeyDisagrees` | programs/bagsvault/src/verifier.rs:80-87 | a key of all ones, as recipient or as relayer, makes the two vectors differ |
| `Notes.JoinOfSplit` | frontend/src/lib/zk_client.js:57-64 | joining the pieces of a split restores the text |
| `Notes.PiecesAreHyphenFree` | frontend/src/lib/zk_client.js:57 | no piece of a split has a hyphen |
| `Notes.TrimKeepsInside` | frontend/src/lib/zk_client.js:54 | trimming takes the white space off both ends and leaves the text between |
| `Notes.SpacesAre` | frontend/src/lib/zk_client.js:54 | the white space trimmed, by code point |
| `Notes.HexDigitsAre` | frontend/src/lib/zk_client.js:65 | the hex digits, in either case |
| `Notes.PrintedExample` | frontend/src/lib/zk_client.js:44-47 | a printed note, letter by letter, and the default token |
| `Notes.ParseNote` | frontend/src/lib/zk_client.js:52-69 | popping three fields off the split body computes the parse that the two lemmas below characterise |
| `Notes.ParsedHasShape` | frontend/src/lib/zk_client.js:49-68 | an accepted text is the prefix, a token, a hyphen-free amount and two hex fields, and the parsed fields are those |
| `Notes.ShapeIsParsed` | frontend/src/lib/zk_client.js:49-68 | every text of that shape is accepted with exactly those fields |
| `Notes.ParseOfBuild` | frontend/src/lib/zk_client.js:44-69 | for any case mappings of the runtime: parsing a printed note gives it back exactly when its token is nonempty and survives lower and then upper case (hyphens allowed), its amount is hyphen-free and nullifier and secret are hex |
| `Notes.BuildOfParse` | frontend/src/lib/zk_client.js:44-69 | for any case mappings: printing a parsed text gives the trimmed text back exactly when its token is nonempty and survives upper and then lower case |
| `Notes.AsciiKeeps` | frontend/src/lib/zk_client.js:44-69 | where only the letters A to Z have case, those tokens are the nonempty ones in upper case, and those texts the ones in lower case |
| `Notes.AsciiIsSane` | frontend/src/lib/zk_client.js:45-64 | the ASCII mappings meet what the round trips ask of case mappings |
| `Notes.SharpSIsLost` | frontend/src/lib/zk_client.js:45-64 | a token "ß" is lost by mappings that turn it into "SS", as those of JavaScript do |

## Left out

- Poseidon, SHA-256 and the Groth16 pairing are parameters; the optional verifier program route of
  `programs/bagsvault/src/sunspot.rs` and `register_fee_share` are not modelled.
- Solvency.RunIsSolvent: assumes injective hashes, no note on the zero leaf, a sound verifier, and a rule with one index
  per position, which the circuit text lacks; `IndexRule.SolventIffOneIndex` shows that the rule is needed.
- IndexRule.SolventIffOneIndex: its converse half also takes a complete verifier, a hasher that accepts every note, no
  pair that hashes to the zero word, and accounts that own themselves.
- IncrementalTree.MerkleTreeState.Insert: a leaf the hasher refuses is detected before the walk instead of at its first
  hash, since the failing instruction takes back the one cache write in between; the hasher is taken to accept its own
  outputs.
- Solvency.AcceptedIsCovered: for a token pool it speaks of the vault's token accounts together; whether the one account
  the relayer names is enough is `Accounting.AcceptedTokensArePaidIff`.
- Solvency.AcceptedIsPaid: with `Solvency.UnspentNoteIsPaid`, takes it as given that the runtime lets the program debit
  the vault and credit any recipient; the program never creates the vault account, and who owns it is decided outside.
- Solana runtime rules: rent, account ownership, address derivation, compute limits. `init` on a nullifier account means
  "fails if it exists", and each instruction is all or nothing. Token accounts have one fixed owner over a run and are
  not created or closed during it.
- The clock and the emitted events; the `bump` fields; second initialization of the same pool.
- The order in which Anchor reports several violated constraints at once is one fixed order.
- Registration, Relay and Idempotency are step machines over values rather than classes with mutated fields, because
  their claims are about every interleaving at the awaits; one collection operation is one atomic step. In-place update
  and aliasing of driver objects are not captured.
- Relay: a signature stands for its transaction, the response of the node to a send is taken to be that signature, and
  there is one relayer key; settings checks, relayer ranking, the `last_seen` update and account lists are not modelled.
- Registration: `merkle.sync_now` (best effort, after the insert), row timestamps and logging.
- Idempotency: 24-hour expiry, response headers and JSON re-serialisation; two bodies with one SHA-256 are one body.
- Broadcast: the text of an error object is given, so the dictionary branch of `_classify_rpc_error` is not modelled;
  lower-casing is that of ASCII; sleeps are in milliseconds.
- Replay.GetMerklePath: the query is a strictly sorted list of rows up to the index, as the unique index makes it; rows
  of the wrong type and the hex decoding of a leaf are not modelled.
- WithdrawData.Build: account lists, the choice between the two discriminators and the hex decoding before it.
- Instructions.ProofBindsTheClaim: takes different keys and words to be different field elements, which holds of the
  program's inputs below the modulus (`FieldInputs.PublicInputsAgree`).
- FieldInputs: the text layer of `_hex32` and negative integers.
- Notes: the case mappings of the runtime are parameters; amounts are text.
- Merkle indexer, key-pool rotation, anonymity statistics, risk scores, token metadata and the pages.
