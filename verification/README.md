# Ametsuchi: a verified model

This project models the three parts of Ametsuchi that carry its guarantees and proves what they promise.

**The array Merkle tree** (`MerkleSpec`, `ChainSpec`, `MerkleRuns`, `MerkleCells`, `MerkleClimb`, `MerkleTree`). A
perfect binary tree lies in a flat array and is filled leaf by leaf; a full block seeds the next one with its root; old
blocks are evicted; a rollback goes back across block borders. The reference root splits at the largest power of two
below the leaf count, which is the shape of section 2.1 of RFC 6962 without its prefixes. Three layers are connected:
the class works on arrays and is proved against functions on the kept blocks of leaves, and whole runs of those
functions are proved to agree with a machine that knows only the surviving items and a depth.

**The narrow Merkle tree** (`CircularStack`, `NarrowSpec`, `NarrowRuns`, `NarrowReference`, `NarrowMerkleTree`). Ring
buffers hold prefix hashes at multiples of the powers of the capacity. The class is proved against functions on layers;
an invariant kept by every add and drop ties each stored hash to a prefix of the items, and every run follows a machine
that knows only which positions are held.

**The ledger** (`Currency`, `World`, `MapSum`, `WsvSpec`, `WsvLaws`, `WsvEffects`, `Wsv`, `LedgerSpec`,
`LedgerLaws`, `TxStore`, `Ametsuchi`). A database is a working and a committed copy of its tables. The objects that
mirror tables in memory are classes whose methods are proved against functions on one ledger value; the effect of each
command on every record and table is stated independently, and runs of appends, commits, rollbacks and reopenings are
proved about those functions.

`Arith` holds the facts about division and powers, `Wrappers` an option type. The hash is an arbitrary binary function;
neither tree needs it to be associative or to have a unit. `dafny verify dfyconfig.toml` checks the project.

## What the proofs found

- `ceil2` does not round up to a power of two. Its comment gives 8 for 5, the code gives 5, and for 7 it gives 5 as
  well (`FiveAndSevenRoundToFive`). `Ceil2` states exactly when the result is a power of two, and `RoundsUpOnlyIf` when
  it is not below the argument. Every other result is odd, and with an odd leaf count the first leaf of a block, so also
  the root of the block before it, is lost as soon as another follows (`FirstItemIsLost`, `RootOfTwo`). Pushes are
  specified for every leaf count (`WriteLeaf`); the tree as a whole is modelled for those that give a power of two.
- The header says that 2 blocks and 4 leaves allow at most 6 steps back. The code keeps one more tree than the number
  of blocks, so the depth moves between 6 and 8 (`DepthAfterPushes`, `DepthOfTwoBlocksOfFour`).
- `drop` below every checkpoint answers the index asked for although nothing is left (`DropIsOptimal`,
  `DropBelowCheckpoints`); after adds alone, `CheckpointAfterAdds` says which indices those are. When the index is not
  above the previous drop it is returned too, and nothing changes (`AnswerIsSizeIff`, `SecondDropIsIgnored`); the
  previous drop is only forgotten by `drop(0)`, so this goes on whatever is added (`LaterDropsBelowAreIgnored`).
- `drop` beyond the end is not refused: it can lose every hash and raise the count to the index (`DropBeyond`,
  `DropBeyondForgets`).
- `asset_transfer` can throw after the sender was debited (`TransferHalfDone`), and does so in a run from the empty
  world (`HalfDoneIsReachable`).
- `Ametsuchi::rollback` leaves the Merkle tree as it is (`RollbackKeepsTreeIffSaved`, `RollbackKeepsTreeIff`,
  `RollbackLeavesTheLeaf`). A reopening before the next commit repairs this; a commit makes it permanent
  (`GhostStep`, `GhostsStay`).
- Comparing currencies compares their values exactly when both have the same precision or one has precision 0
  (`MixedPrecisionCompares`, `MixedPrecisionEquals`); for any other pair of precisions some amounts are misordered.
- `ASSET_EXISTS` and `ACCOUNT_EXISTS` are never thrown: the tables are written without the flag that would report an
  existing key, so a second creation overwrites the first (`ExistsIsNeverReported`, `SecondCreationOverwrites`).
- Adding an asset that is not created succeeds. The record can be neither found nor removed until its asset is created
  (`AddedIsFoundIffCreated`, `StrandedUntilCreated`), and a second addition overwrites it instead of adding to it
  (`AddsUpIff`).

## Reading the model

Where the source throws, a method returns an outcome or an option. Steps that the source writes inline are sometimes
methods of their own (`push` is `StoreLeaf`, `WriteLeaf`, `Climb`, `StartBlock`; `rollback` is `GiveUp` and `Repush`;
`add` is `AddBottom` and `CarryUp`). A constructor that throws is a method that answers an option (`NewMerkleTree`,
`NewCircularStack`, `NewNarrowMerkleTree`). The remaining preconditions are those the code forces on its callers: a
leaf count that is 0 or a power of two of at least 2 before a tree is pushed to; one push before a rollback of a
positive number of steps, because on an empty tree `max_rollback` wraps to 2^64 - 1 and the rollback would then pop the
only tree; a capacity of at least 2 before the second `add` to a narrow tree, because with capacity 1 it does not end in
`height`; and for `drop` an index that is not so near 2^64 that a whole layer above it would wrap again.

In the ledger, `Unimplemented` stands for every command that is stored and indexed but that the world state refuses, and
`Wrong` for those the transaction store refuses as well.

## Model

| member | source | states |
|---|---|---|
| MerkleRuns.RunIsExact | src/ametsuchi/merkle_tree/merkle_tree.cc:70-156 | After every interleaving of pushes and rollbacks that starts with a push, the root is the chained root of exactly the surviving items, across any number of block borders, and the possible rollback depth is that of a machine that knows no blocks |
| MerkleRuns.RolledBackPushesLeaveNoTrace | src/ametsuchi/merkle_tree/merkle_tree.cc:127-156 | Two runs that leave the same items show the same leaves, hence the same root, after every further sequence of pushes, whatever blocks they keep |
| MerkleRuns.RollbackThenRepush | src/ametsuchi/merkle_tree/merkle_tree.cc:70-156 | Rolling back n steps and pushing the same n items again restores every kept block |
| MerkleRuns.DepthAfterPushes | src/ametsuchi/merkle_tree/merkle_tree.cc:231-233 | After n pushes alone the depth of the kept blocks, which max_rollback answers, is min(n - 1, B(L-1) + (n-1) mod (L-1)) for L leaves and B blocks |
| MerkleRuns.DepthOfTwoBlocksOfFour | src/ametsuchi/merkle_tree/merkle_tree.cc:231-233 | With 2 blocks of 4 leaves the depth stays between 6 and 8 from the seventh push on, and is 8 after nine |
| MerkleRuns.PushDepth | src/ametsuchi/merkle_tree/merkle_tree.cc:108-124 | A push raises the depth by one, or lowers it from B(L-1) + L - 2 to B(L-1) when a block is evicted |
| MerkleRuns.StepAgrees | src/ametsuchi/merkle_tree/merkle_tree.cc:70-156 | One operation keeps the kept blocks and the block-free machine in agreement |
| ChainSpec.RollbackKeeps | src/ametsuchi/merkle_tree/merkle_tree.cc:127-156 | A legal rollback of n steps leaves exactly what the history without its last n items fills, and never gives up every item |
| ChainSpec.RollbackCompose | src/ametsuchi/merkle_tree/merkle_tree.cc:127-156 | Rolling back a steps and then b steps is rolling back a + b steps |
| ChainSpec.RollbackBlocks | src/ametsuchi/merkle_tree/merkle_tree.cc:127-156 | A legal rollback lowers the depth by exactly n, keeps at least one leaf and leaves the last block unfilled |
| ChainSpec.CutIsRollback | src/ametsuchi/merkle_tree/merkle_tree.cc:137-154 | Popping whole trees and truncating the last one is the rollback by the number of leaves that were not seeds |
| ChainSpec.BlocksHoldItems | src/ametsuchi/merkle_tree/merkle_tree.cc:108-124 | The blocks hold every pushed item once and in order, and each later block starts with the root of the whole block before it |
| ChainSpec.LeavesSnoc | src/ametsuchi/merkle_tree/merkle_tree.cc:70-125 | The chained root, defined from the first item on, is computed by a step that remembers only the leaves of the current block |
| ChainSpec.SameLeavesSameFuture | src/ametsuchi/merkle_tree/merkle_tree.cc:70-125 | Histories that agree on the current leaves agree after any further items |
| ChainSpec.PushStepsLeaves | src/ametsuchi/merkle_tree/merkle_tree.cc:70-125 | What the last block becomes depends on the last block alone |
| ChainSpec.UndoExtend | src/ametsuchi/merkle_tree/merkle_tree.cc:70-156 | One step back undoes a push, also across the border it filled |
| MerkleSpec.NodeIsRoot | src/ametsuchi/merkle_tree/merkle_tree.cc:89-97 | The value of every cell is the reference root, split at the largest power of two, of the leaves below it; a lone left child is passed up |
| MerkleSpec.NodeOfPrefix | src/ametsuchi/merkle_tree/merkle_tree.cc:81-104 | A cell with all its leaves present does not depend on later leaves |
| MerkleSpec.SmallRoots | src/ametsuchi/merkle_tree/merkle_tree.cc:89-97 | The reference root of one to five leaves, written out |
| MerkleCells.ClimbStopsAtCommonAncestor | src/ametsuchi/merkle_tree/merkle_tree.cc:84-104 | The climb from leaf j stops at the lowest node that is also above the leftmost leaf |
| MerkleCells.ClimbValue | src/ametsuchi/merkle_tree/merkle_tree.cc:89-97 | The climb reads only the path cell below and, when that is a right child, its settled left sibling; stale cells are never read |
| MerkleCells.ClimbStep | src/ametsuchi/merkle_tree/merkle_tree.cc:89-104 | One turn of the loop, in array indices, stays in bounds, never starts from cell 0 and makes one more path cell right |
| MerkleCells.SettledExtend | src/ametsuchi/merkle_tree/merkle_tree.cc:81-106 | After the climb every cell whose leaves are all present holds its true value, the new leaf included |
| MerkleCells.SettledPrefix | src/ametsuchi/merkle_tree/merkle_tree.cc:152-155 | Cells that are right for a list of leaves are right for each of its prefixes, so a rollback needs no repair below the cut |
| MerkleCells.RootCell | src/ametsuchi/merkle_tree/merkle_tree.cc:68-68 | The cell where the climb stopped holds the reference root of all leaves present |
| MerkleCells.RootOfCompleteTree | src/ametsuchi/merkle_tree/merkle_tree.cc:108-118 | The root of a complete tree is in cell 0 |
| MerkleCells.Family | src/ametsuchi/merkle_tree/merkle_tree.cc:163-169 | left, right and parent are the children and the parent in the tree of levels |
| MerkleCells.SlotInjective | src/ametsuchi/merkle_tree/merkle_tree.cc:163-169 | Different nodes have different array indices |
| MerkleTree.Log2 | src/ametsuchi/merkle_tree/merkle_tree.cc:32-39 | The shift loop computes the floor of the binary logarithm, and 0 for 0 |
| MerkleTree.Ceil2 | src/ametsuchi/merkle_tree/merkle_tree.cc:41-48 | Meant to round up to a power of two: the result is a power of two exactly when the argument is one or is 0; otherwise it is odd and one more than the power of two below the argument |
| MerkleTree.RoundsUpOnlyIf | src/ametsuchi/merkle_tree/merkle_tree.cc:41-48 | The result is at least the argument exactly for 0, powers of two and their successors |
| MerkleTree.FiveAndSevenRoundToFive | src/ametsuchi/merkle_tree/merkle_tree.cc:41-48 | An instance: the documented example 5 is answered by 5, not 8, and 7 by 5 |
| MerkleClimb.FirstItemIsLost | src/ametsuchi/merkle_tree/merkle_tree.cc:70-106 | With an odd leaf count of at least 3, the first leaf of a block, which is the root of the block before it, influences no other cell and not the root, however many items follow it in the block |
| MerkleClimb.RootOfTwo | src/ametsuchi/merkle_tree/merkle_tree.cc:70-106 | The root after two pushes, whatever the cells held: the hash of both items when the leaf count is even, the second item alone when it is odd |
| MerkleClimb.WrittenIsPushed | src/ametsuchi/merkle_tree/merkle_tree.cc:70-106 | For every leaf count: a push stores the leaf, gives each cell on the way up the value of a left child or the hash of both children, for as many levels as the number of leaves before it has binary digits, and touches no other cell |
| MerkleClimb.WrittenSettles | src/ametsuchi/merkle_tree/merkle_tree.cc:70-106 | For a power of two, one push into an array that is settled for the leaves so far settles it for the longer list and ends in the root cell, whatever the other cells hold |
| MerkleTree.MerkleTree.constructor | src/ametsuchi/merkle_tree/merkle_tree.cc:52-66 | A new tree of any leaf count has the rounded count of leaf cells, holds no leaf and keeps the given number of blocks; it is valid when the rounded count is a power of two of at least 2 |
| MerkleTree.NewMerkleTree | src/ametsuchi/merkle_tree/merkle_tree.cc:52-66 | No tree is built exactly when no block is to be kept; otherwise a tree with the rounded leaf count |
| MerkleTree.MerkleTree.GetRoot | src/ametsuchi/merkle_tree/merkle_tree.cc:68-68 | The reference root of the leaves of the current block; the value of a fresh cell when there are none |
| MerkleTree.MerkleTree.Climb | src/ametsuchi/merkle_tree/merkle_tree.cc:84-104 | The loop makes exactly the turns from the new leaf to the common ancestor with the first leaf, for every leaf count |
| MerkleTree.MerkleTree.StoreLeaf | src/ametsuchi/merkle_tree/merkle_tree.cc:70-106 | Storing a leaf into a tree whose root and unsettled cells may hold anything gives a settled tree with a right root |
| MerkleTree.MerkleTree.WriteLeaf | src/ametsuchi/merkle_tree/merkle_tree.cc:72-104 | Stores the leaf and climbs from it, for every leaf count: the array and the root cell become those of the specified push |
| MerkleTree.MerkleTree.StartBlock | src/ametsuchi/merkle_tree/merkle_tree.cc:108-124 | A complete block seeds a new tree with its root, and the oldest tree goes when one too many is kept |
| MerkleTree.MerkleTree.Push | src/ametsuchi/merkle_tree/merkle_tree.cc:70-125 | The array tree does to its cells what a push does to the kept blocks, from any state in which there is a free leaf |
| MerkleTree.MerkleTree.MaxRollback | src/ametsuchi/merkle_tree/merkle_tree.cc:231-233 | The number of leaves in the kept blocks that are not seeds, less one; 2^64 - 1 on an empty tree |
| MerkleTree.MerkleTree.GiveUp | src/ametsuchi/merkle_tree/merkle_tree.cc:137-154 | The popping loop and the border step keep at least one tree and account for every step |
| MerkleTree.MerkleTree.Repush | src/ametsuchi/merkle_tree/merkle_tree.cc:152-155 | Pushing the last surviving leaf again makes the tree valid whatever the cells above and right of it hold |
| MerkleTree.MerkleTree.Rollback | src/ametsuchi/merkle_tree/merkle_tree.cc:127-156 | Succeeds exactly for n up to the depth, and then the kept blocks lose n steps; otherwise nothing changes |
| MerkleTree.MerkleTree.LastBlock | src/ametsuchi/merkle_tree/merkle_tree.cc:235-246 | The cells from begin to end are the leaves of the current block |
| CircularStack.BoundedHoldsNewest | include/ametsuchi/merkle_tree/circular_stack.h:176-195 | After every run of pushes and pops the stack holds the newest elements of an unbounded stack, in order |
| CircularStack.WindowPush | include/ametsuchi/merkle_tree/circular_stack.h:176-188 | Writing at the end of the ring and moving it appends the element, forgetting the oldest one when full, through any number of wraps |
| CircularStack.WindowPop | include/ametsuchi/merkle_tree/circular_stack.h:190-195 | Moving the end back drops the newest elements |
| CircularStack.KeptEnds | include/ametsuchi/merkle_tree/circular_stack.h:176-195 | A push keeps the newest elements up to the capacity, and a pop keeps the oldest ones, exactly as many as are left |
| CircularStack.CircularStack.constructor | include/ametsuchi/merkle_tree/circular_stack.h:147-152 | A new stack of a positive size is empty |
| CircularStack.NewCircularStack | include/ametsuchi/merkle_tree/circular_stack.h:147-152 | No stack is built exactly for size 0; otherwise an empty one |
| CircularStack.CircularStack.Push | include/ametsuchi/merkle_tree/circular_stack.h:176-188 | Appends, and forgets the oldest element when full |
| CircularStack.CircularStack.Pop | include/ametsuchi/merkle_tree/circular_stack.h:190-195 | Removes the newest min(n, size) elements |
| CircularStack.CircularStack.Front | include/ametsuchi/merkle_tree/circular_stack.h:197-206 | The oldest element, or an error when empty |
| CircularStack.CircularStack.Back | include/ametsuchi/merkle_tree/circular_stack.h:208-217 | The newest element, or an error when empty |
| CircularStack.CircularStack.At | include/ametsuchi/merkle_tree/circular_stack.h:219-229 | The element at that distance from the oldest, or an error beyond the size |
| NarrowRuns.RunIsExact | include/ametsuchi/merkle_tree/narrow_merkle_tree.h:203-270 | After every run of adds and drops the invariant of the layers holds, the root is the running hash of exactly the items left, size() counts them, and nothing is lost below them while every drop finds a checkpoint |
| NarrowReference.RunFollows | include/ametsuchi/merkle_tree/narrow_merkle_tree.h:203-262 | Every run of adds and drops follows a machine without layers, which knows only the count, the items left and the set of positions held at each spacing: the tree holds exactly those positions, its root is the running hash of those items, and every drop answers what the machine does |
| NarrowReference.DropAnswers | include/ametsuchi/merkle_tree/narrow_merkle_tree.h:229-262 | The answer of a drop is a function of the positions held: the greatest one at or below the index, the index when there is none, it is 0, or it is not above the previous drop |
| NarrowRuns.AddHolds | include/ametsuchi/merkle_tree/narrow_merkle_tree.h:203-227 | In every reachable state, also after drops, an add leaves layer k holding exactly the new position, if its spacing divides it, and those old positions that are among the last c multiples |
| NarrowRuns.DropIsOptimal | include/ametsuchi/merkle_tree/narrow_merkle_tree.h:229-262 | A drop answers the greatest position not above the index that any layer holds, with the running hash there as root; some layer keeps a hash if and only if there is such a position, and otherwise the answer is the index and the root that of an empty tree |
| NarrowRuns.AnswerIsSizeIff | include/ametsuchi/merkle_tree/narrow_merkle_tree.h:229-239 | The answer of a drop is the new size if and only if the index is 0, or above the previous drop, or the size itself; from 1 up to the previous drop nothing changes |
| NarrowRuns.LaterDropsBelowAreIgnored | include/ametsuchi/merkle_tree/narrow_merkle_tree.h:238-239 | After a drop that answers r, and any adds, every drop to an index from 1 to r answers that index and changes nothing |
| NarrowRuns.SecondDropIsIgnored | include/ametsuchi/merkle_tree/narrow_merkle_tree.h:238-239 | An instance: after four adds with capacity 2 and a drop to 3, a drop to 2 answers 2 and keeps three items under the root of all three |
| NarrowRuns.DropKeepsBelow | include/ametsuchi/merkle_tree/narrow_merkle_tree.h:247-257 | Every layer keeps exactly its positions at or below the index |
| NarrowRuns.OvershootBound | include/ametsuchi/merkle_tree/narrow_merkle_tree.h:242-257 | After adds alone, dropping at most (c-1)c^k items down to c^k or above ends less than c^k below the index; with k = 0 the drop is exact |
| NarrowRuns.CheckpointAfterAdds | include/ametsuchi/merkle_tree/narrow_merkle_tree.h:203-257 | After n adds alone a drop finds a checkpoint if and only if its index is at least a threshold computed from the capacity and n |
| NarrowRuns.AddOnlyIsExact | include/ametsuchi/merkle_tree/narrow_merkle_tree.h:203-227 | After n adds layer k holds exactly the last min(c, n / c^k) multiples of c^k, and the layers are as many as the height, one at least |
| NarrowRuns.StorageIsLogarithmic | include/ametsuchi/merkle_tree/narrow_merkle_tree.h:203-227 | n adds keep at most c hashes for each layer, and the layer count h satisfies c^(h-1) <= n < c^h |
| NarrowRuns.StorageInEveryRun | include/ametsuchi/merkle_tree/narrow_merkle_tree.h:203-262 | In every run, drops included, there are exactly as many layers as the height of the most items held since the last drop(0), one at least, and at most c hashes for each |
| NarrowRuns.DropCountsNeverWrap | include/ametsuchi/merkle_tree/narrow_merkle_tree.h:247-255 | In every run, for every layer a drop visits: while the capacity, and the capacity times the most items held, are below the word size, no spacing overflows and the removal count modulo the word size is the right one |
| NarrowRuns.DropBelowCheckpoints | include/ametsuchi/merkle_tree/narrow_merkle_tree.h:229-262 | After eight adds with capacity 2, drop(1) answers 1 but leaves the root of an empty tree |
| NarrowSpec.DropBeyond | include/ametsuchi/merkle_tree/narrow_merkle_tree.h:242-257 | A drop beyond the end empties exactly the layers in which the index lies in a later interval than the end, and falls back to the start of the interval in the lowest layer left, with the running hash there as root; if none is left all hashes are lost and the index becomes the count |
| NarrowRuns.DropBeyondForgets | include/ametsuchi/merkle_tree/narrow_merkle_tree.h:242-257 | An instance: after four adds with capacity 2, drop(8) answers 8 and leaves the count 8 with the root of an empty tree |
| NarrowMerkleTree.CountBeyond | include/ametsuchi/merkle_tree/narrow_merkle_tree.h:249-249 | Beyond the end the unsigned difference wraps exactly when the index lies in a later interval, and then exceeds the size of the layer |
| NarrowSpec.CapacityOne | include/ametsuchi/merkle_tree/narrow_merkle_tree.h:196-262 | The whole of what a tree of capacity 1 can do: one add, and every drop before or after it |
| NarrowSpec.AddKeepsInv | include/ametsuchi/merkle_tree/narrow_merkle_tree.h:203-227 | An add, also after drops, keeps a contiguous run of prefix hashes ending at the last multiple in every layer |
| NarrowSpec.DropKeepsInv | include/ametsuchi/merkle_tree/narrow_merkle_tree.h:229-262 | A drop keeps the invariant for the items that survive it |
| NarrowSpec.DropEverything | include/ametsuchi/merkle_tree/narrow_merkle_tree.h:244-256 | Below every checkpoint a drop empties all layers and still counts the index |
| NarrowSpec.SomethingLeft | include/ametsuchi/merkle_tree/narrow_merkle_tree.h:247-254 | Some layer keeps a hash if and only if some layer's oldest position is not above the index |
| NarrowSpec.KeptIffOldest | include/ametsuchi/merkle_tree/narrow_merkle_tree.h:249-250 | One layer keeps a hash if and only if its oldest position is not above the index |
| NarrowSpec.RoundDownTwice | include/ametsuchi/merkle_tree/narrow_merkle_tree.h:252-252 | Falling back in a lower layer leaves the quotients of all higher layers unchanged |
| NarrowSpec.RootIsPrefix | include/ametsuchi/merkle_tree/narrow_merkle_tree.h:264-270 | The back of the lowest nonempty layer is the running hash of all items left |
| NarrowSpec.GrowsAtPower | include/ametsuchi/merkle_tree/narrow_merkle_tree.h:208-210 | A layer is added exactly when the count reaches the next power of the capacity |
| NarrowSpec.HeightBounds | include/ametsuchi/merkle_tree/narrow_merkle_tree.h:118-129 | The height h of n satisfies c^(h-1) <= n < c^h |
| NarrowMerkleTree.CarryStep | include/ametsuchi/merkle_tree/narrow_merkle_tree.h:217-226 | The test on the way up holds exactly when the next power of the capacity divides the count |
| NarrowMerkleTree.CountAbove | include/ametsuchi/merkle_tree/narrow_merkle_tree.h:249-249 | The removal count is the number of multiples above the index, and its intermediate sum is never negative |
| NarrowMerkleTree.CountSurvivesWrap | include/ametsuchi/merkle_tree/narrow_merkle_tree.h:249-249 | In unsigned arithmetic the difference may wrap, but the sum is the right one when n + cap fits the word |
| NarrowMerkleTree.NextMultiple | include/ametsuchi/merkle_tree/narrow_merkle_tree.h:248-256 | Subtracting the digit moves the position to the last multiple of the next power |
| NarrowMerkleTree.NarrowMerkleTree.constructor | include/ametsuchi/merkle_tree/narrow_merkle_tree.h:196-201 | A new tree of a positive capacity has one empty layer and no items |
| NarrowMerkleTree.NewNarrowMerkleTree | include/ametsuchi/merkle_tree/narrow_merkle_tree.h:196-201 | No tree is built exactly for capacity 0; otherwise a tree with one empty layer and no items |
| NarrowMerkleTree.NarrowMerkleTree.HeightOf | include/ametsuchi/merkle_tree/narrow_merkle_tree.h:118-129 | The loop computes the height |
| NarrowMerkleTree.NarrowMerkleTree.GetRoot | include/ametsuchi/merkle_tree/narrow_merkle_tree.h:264-270 | The back of the lowest nonempty layer, or the empty value |
| NarrowMerkleTree.NarrowMerkleTree.CarryUp | include/ametsuchi/merkle_tree/narrow_merkle_tree.h:217-226 | The loop gives the new hash to every layer whose spacing divides the count and to no other |
| NarrowMerkleTree.NarrowMerkleTree.Add | include/ametsuchi/merkle_tree/narrow_merkle_tree.h:203-227 | The ring buffers change as the specified add says, whose effect on every layer `AddHolds` gives, the first add to a tree of capacity 1 included |
| NarrowMerkleTree.NarrowMerkleTree.DropLoop | include/ametsuchi/merkle_tree/narrow_merkle_tree.h:242-257 | The loop removes from each layer its positions above the index and finds the checkpoint of the lowest nonempty one |
| NarrowMerkleTree.NarrowMerkleTree.DropFromLayer | include/ametsuchi/merkle_tree/narrow_merkle_tree.h:247-254 | One turn removes from the layer exactly what a drop asks for, wrapped arithmetic included, and the newest hash left is at the computed position |
| NarrowMerkleTree.NarrowMerkleTree.Drop | include/ametsuchi/merkle_tree/narrow_merkle_tree.h:229-262 | The ring buffers, the count and the remembered drop change as the state does under a drop: drop(0), the early return, and an index beyond the end included |
| Currency.Make | src/ametsuchi/currency.cc:25-34 | Refuses a precision above 18; otherwise splits the amount by the power of ten the loop computes |
| Currency.Divisor | src/ametsuchi/currency.cc:30-30 | The divisor is 10^precision and fits in 64 bits |
| Currency.PartsOfAmount | src/ametsuchi/currency.cc:32-33 | The integer and fractional parts make up the amount |
| Currency.OrderIsAmountOrder | src/ametsuchi/currency.cc:44-52 | With one precision the orders by parts, and equality (lines 67-69), are those of the amounts |
| Currency.MixedPrecisionCompares | src/ametsuchi/currency.cc:44-52 | For precisions p and q, comparing parts is comparing values for all amounts if and only if p = q, or p = 0, or q = 0 |
| Currency.MixedPrecisionEquals | src/ametsuchi/currency.cc:67-69 | Equality of parts is equality of values for all amounts under exactly the same condition |
| Currency.MixedPrecisionMisorders | src/ametsuchi/currency.cc:44-47 | An instance: with precisions 1 and 2, 1.5 is taken to be less than 1.25 |
| World.BeforeTotal | include/ametsuchi/comparator.h:30-45 | Keys are totally ordered |
| World.BeforeTransitive | include/ametsuchi/comparator.h:30-45 | The order of keys is transitive |
| World.BeforeIsLexicographic | include/ametsuchi/comparator.h:30-45 | Keys are ordered by the first place where they differ, a prefix first |
| World.LookupIsExact | src/ametsuchi/wsv.cc:456-507 | In a sorted list a lookup by key, whatever the amount, finds exactly the one record with that key |
| World.PutKeepsSorted | src/ametsuchi/wsv.cc:236-248 | A put keeps the list strictly sorted, whatever record it writes |
| World.PutAdds | src/ametsuchi/wsv.cc:236-248 | A record for a new key is added to the others |
| World.PutOverwrites | src/ametsuchi/wsv.cc:236-248 | A record with an equal key is overwritten where it stands |
| World.PutBalance | src/ametsuchi/wsv.cc:236-248 | A put sets the balance of its key and no other |
| World.ReplaceKeepsOrder | src/ametsuchi/wsv.cc:223-226 | Overwriting the record under the cursor keeps the order and changes one balance |
| WsvSpec.ApplyKeepsGood | src/ametsuchi/wsv.cc:50-93 | Every command whatever, succeeding or throwing, keeps all lists sorted without repetition and the created assets equal to their table |
| WsvSpec.ApplyKeepsNamed | src/ametsuchi/wsv.cc:50-93 | A command that adds no asset before its creation keeps every record under the name of a created asset |
| WsvEffects.OutcomeIsVerdict | src/ametsuchi/wsv.cc:50-93 | The outcome of every command, in every state, is the one its guards give, read off the records before it: which lookups fail, which precision is refused, who holds too little |
| WsvEffects.HoldingsFollow | src/ametsuchi/wsv.cc:50-93 | After every command, succeeding or throwing, every account holds under every key exactly the record it must: an addition credits its account, a removal debits its account, a transfer debits the sender and then credits the receiver, a removed account holds nothing, all else is as before |
| WsvEffects.TablesFollow | src/ametsuchi/wsv.cc:120-163 | A creation writes one record, the given names with amount and precision 0, in the table and in memory, and leaves every other key; accounts (lines 317-358) are added and removed one at a time; no other command touches these tables |
| WsvEffects.BalancesFollow | src/ametsuchi/wsv.cc:50-93 | With one precision for each asset, a command that succeeds changes every balance as it names, and one that throws changes nothing |
| WsvEffects.RecordsDetermineList | src/ametsuchi/wsv.cc:456-507 | Sorted lists with the same record under every key are equal, so the laws about records fix an account's whole list |
| WsvEffects.CreatedInRun | src/ametsuchi/wsv.cc:120-163 | After a run the created assets are exactly those created before and those some command of the run names |
| WsvLaws.RunKeepsSorted | src/ametsuchi/wsv.cc:184-315 | Over every run of commands whatever lists stay strictly sorted, and a record is found exactly by its key once its asset is created |
| WsvLaws.RunConserves | src/ametsuchi/wsv.cc:184-381 | Over a whole run whose additions stay below 2^64 every supply stays below 2^64 and changes only by what was added, overwritten, removed, or deleted with an account |
| WsvLaws.ApplyConserves | src/ametsuchi/wsv.cc:50-93 | One command changes each supply by its flow, and keeps sorted lists, one precision for each asset, and every supply below 2^64 |
| WsvLaws.AddConserves | src/ametsuchi/wsv.cc:184-253 | An addition touches that supply alone; for a created asset it adds exactly the amount if and only if the balance does not pass 2^64; for another the amount replaces what the account held |
| WsvLaws.RemoveConserves | src/ametsuchi/wsv.cc:255-304 | A removal succeeds exactly when the asset is created and the account holds enough, takes exactly the amount, and otherwise changes nothing |
| WsvLaws.TransferConserves | src/ametsuchi/wsv.cc:306-315 | A transfer changes no supply, succeeds exactly when the asset is created and the sender holds enough, and changes nothing when it throws |
| WsvLaws.TransferMoves | src/ametsuchi/wsv.cc:306-315 | The sender loses and the receiver gains the amount; both cancel for one account |
| WsvLaws.TransferHalfDone | src/ametsuchi/wsv.cc:306-315 | Without one precision for each asset: a failing transfer leaves the sender debited if and only if the amount is positive, every guard of the debit passes, and the receiver has a record with a precision above 18 |
| WsvLaws.HalfDoneIsReachable | src/ametsuchi/wsv.cc:306-315 | From the empty world, three commands lead to a transfer that throws with the sender three units short and the receiver unchanged |
| WsvLaws.RemoveGuards | src/ametsuchi/wsv.cc:255-289 | A removal succeeds if and only if the asset is created, the record exists, both precisions are at most 18, and the record does not compare as less than the amount |
| WsvLaws.SecondCreationOverwrites | src/ametsuchi/wsv.cc:120-163 | A note on the tables' flags: creating an asset under an existing key, and an account with an existing public key (lines 317-341), succeeds and overwrites the first |
| WsvLaws.ExistsIsNeverReported | src/ametsuchi/wsv.cc:50-93 | A note: no branch of any command answers ASSET_EXISTS or ACCOUNT_EXISTS |
| WsvLaws.AddedIsFoundIffCreated | src/ametsuchi/wsv.cc:184-248 | After a successful addition the account's record is found if and only if the asset is created |
| WsvLaws.StrandedUntilCreated | src/ametsuchi/wsv.cc:120-315 | A record of an asset that is not created is neither found nor removed nor transferred; once the asset is created it is found exactly as it was added |
| WsvLaws.AddsUpIff | src/ametsuchi/wsv.cc:184-248 | Below 2^64 an addition adds to the balance if and only if the asset is created or nothing was held; otherwise it overwrites |
| WsvLaws.RemovedAccountIsGone | src/ametsuchi/wsv.cc:343-381 | Removing an account succeeds exactly when it exists, takes its holdings along, leaves every other account alone, and cannot be repeated |
| WsvLaws.CreateAddFind | src/ametsuchi/wsv.cc:120-253 | A created asset added to an account that has none of it is then found there exactly as given |
| Wsv.WSV.constructor | src/ametsuchi/wsv.cc:25-48 | The created assets in memory are those of the table |
| Wsv.WSV.ReadCreatedAssets | src/ametsuchi/wsv.cc:97-109 | The loop copies the whole table |
| Wsv.WSV.AccountGetAsset | src/ametsuchi/wsv.cc:440-514 | Finds the record of a created asset, or reports that there is none |
| Wsv.WSV.AccountAddCurrency | src/ametsuchi/wsv.cc:184-253 | Changes the world state as an addition does, exceptions included, whether the asset is created or not |
| Wsv.WSV.AccountRemoveCurrency | src/ametsuchi/wsv.cc:255-304 | Changes the world state as a removal does, exceptions included |
| Wsv.WSV.AssetTransfer | src/ametsuchi/wsv.cc:306-315 | Changes the world state as a transfer does, exceptions included |
| Wsv.WSV.AssetCreate | src/ametsuchi/wsv.cc:120-163 | Creates as the specification does, of which `TablesFollow` says that it writes that one record under the concatenated key and nothing else |
| Wsv.WSV.DropAccount | src/ametsuchi/wsv.cc:343-381 | Removes an existing account with all its holdings; otherwise reports that there is none |
| Wsv.WSV.Update | src/ametsuchi/wsv.cc:50-93 | Dispatches to the specified command, whose outcome and effect on every record and table `OutcomeIsVerdict`, `HoldingsFollow` and `TablesFollow` give |
| LedgerSpec.RootOfRecords | src/ametsuchi/tx_store.cc:139-144 | Without a rollback the Merkle root is at every moment the chained root of the stored records that have a leaf, in the order of their numbers, through failures, commits and reopenings |
| LedgerSpec.RootOfPushed | src/ametsuchi/tx_store.cc:139-144 | In every run, rollbacks included, the Merkle root is the chained root of the leaves pushed since the last opening on top of those committed before it; a rollback takes none of them back |
| LedgerSpec.RecordsAreHistory | src/ametsuchi/tx_store.cc:26-46 | In every run record k is the k-th surviving transaction, in the working tables and on disk |
| LedgerSpec.MirrorsAlwaysAgree | src/ametsuchi/ametsuchi.cc:45-89 | In every run the last number in memory is the largest record key and the created assets in memory are those of the table; after a rollback or a reopening both are those of the last commit |
| LedgerSpec.WorldStaysGood | src/ametsuchi/ametsuchi.cc:45-89 | Account lists stay sorted, working and committed, through failures, commits, rollbacks and reopenings; while assets are created before they are added, they name created assets only |
| LedgerSpec.CommitThenReopen | src/ametsuchi/tx_store.cc:395-432 | The committed ledger is a fixed point of reopening, and pushing any number of its saved leaves one by one gives exactly those leaves, so the replay never fills a block |
| LedgerSpec.RollbackKeepsTreeIffSaved | src/ametsuchi/ametsuchi.cc:36-82 | Whatever the tree showed before, after a rollback it reflects the records if and only if the saved leaves are those of the committed records and the leaves in memory are the saved ones; after a reopening if and only if the saved leaves are |
| LedgerLaws.RollbackKeepsTreeIff | src/ametsuchi/ametsuchi.cc:79-82 | In every run, earlier rollbacks included: unless the root of a new block equals the seed of the saved one, the tree reflects the records after a rollback if and only if the saved leaves do and no leaf was pushed since they were saved, however many blocks were filled |
| LedgerSpec.RollbackLeavesTheLeaf | src/ametsuchi/ametsuchi.cc:79-82 | One transaction, rolled back, leaves no record but its leaf |
| LedgerLaws.GhostStep | src/ametsuchi/ametsuchi.cc:45-89 | How one operation changes the number of leaves in the tree that belong to no record: an append by nothing, a rollback to those saved plus those pushed since |
| LedgerLaws.GhostsStay | src/ametsuchi/ametsuchi.cc:45-89 | Saved leaves that belong to no record never go away, whatever is done later, reopenings included |
| LedgerLaws.NoGhostsInStep | src/ametsuchi/ametsuchi.cc:45-89 | In every run there is no such leaf if and only if the leaves pushed are exactly those of the surviving records, in memory and as saved |
| LedgerLaws.InStepWithoutGhosts | src/ametsuchi/ametsuchi.cc:45-89 | In every run without such leaves the tree reflects exactly the stored records |
| LedgerLaws.WorldIsReplay | src/ametsuchi/ametsuchi.cc:45-89 | In every run the world state is what the surviving transactions, replayed in order on the empty one, make of it: the working tables with those not rolled back, the committed ones with those committed |
| LedgerLaws.CreatedByHistory | src/ametsuchi/ametsuchi.cc:45-89 | In every run the created assets, in memory and in the table, are exactly those that some surviving transaction creates; likewise for the committed ones |
| LedgerLaws.SupplyOfHistory | src/ametsuchi/ametsuchi.cc:45-89 | In every run the supply of an asset is what the surviving transactions brought in, and a rollback returns it to its committed value |
| LedgerSpec.AppendKeepsMirrors | src/ametsuchi/ametsuchi.cc:45-53 | An append, even one that throws, stores the transaction under the next number and touches nothing committed |
| LedgerLaws.AppendEffect | src/ametsuchi/ametsuchi.cc:45-53 | An append answers WRONG_COMMAND or what the guards of its command give, and changes records, leaves and world state accordingly and nothing committed |
| LedgerSpec.AppendKeepsAligned | src/ametsuchi/tx_store.cc:26-145 | An append keeps the tree in step with the records, with WRONG_COMMAND storing a record without a leaf |
| LedgerSpec.BatchStoresPrefix | src/ametsuchi/ametsuchi.cc:55-62 | A batch is not atomic: it stores a prefix of its transactions under consecutive numbers, the failing one included, and all of them when none fails |
| LedgerSpec.BatchStopsAtFailure | src/ametsuchi/ametsuchi.cc:55-62 | A batch stops at its first failure: each transaction it stores but the last succeeded on its own, the last one gave the answer if it failed, and the ledger is that of appending those, and no more, one by one |
| LedgerSpec.BatchInRun | src/ametsuchi/ametsuchi.cc:55-62 | In a run a batch is the run of appends of what it stores, and the root afterwards is the chained root of all leaves pushed |
| TxStore.TxStore.constructor | src/ametsuchi/tx_store.cc:183-183 | A store over given tables with an empty tree and the last number read |
| TxStore.TxStore.Init | src/ametsuchi/tx_store.cc:147-172 | A new transaction shows other tables and leaves the tree alone |
| TxStore.TxStore.SetTxTotal | src/ametsuchi/tx_store.cc:187-201 | The last key, or 0 for an empty table |
| TxStore.TxStore.Append | src/ametsuchi/tx_store.cc:26-145 | Stores the record under the next number, then pushes its hash and answers the root of the leaves, or fails with the record stored |
| TxStore.TxStore.MerkleRoot | src/ametsuchi/tx_store.cc:391-393 | The root of the leaves of the current block, or the value of a fresh cell |
| TxStore.TxStore.Commit | src/ametsuchi/tx_store.cc:395-421 | The saved leaves are exactly those of the current block |
| TxStore.TxStore.SaveCells | src/ametsuchi/tx_store.cc:404-420 | The loop saves each leaf cell under its array index |
| TxStore.TxStore.PushSaved | src/ametsuchi/tx_store.cc:424-431 | A replayed leaf lands in the cell it was saved from |
| TxStore.TxStore.InitMerkleTree | src/ametsuchi/tx_store.cc:422-432 | Replaying the saved cells in key order rebuilds exactly the saved leaves |
| Ametsuchi.Ametsuchi.constructor | src/ametsuchi/ametsuchi.cc:92-148 | Opening a database gives its committed tables, mirrors read from them, and the saved Merkle leaves |
| Ametsuchi.Ametsuchi.Append | src/ametsuchi/ametsuchi.cc:45-53 | The objects change as the ledger does under an append; the outcome is WRONG_COMMAND or the verdict of the command's guards on the world state before; a successful one answers the root of the new leaves |
| Ametsuchi.Ametsuchi.AppendBatch | src/ametsuchi/ametsuchi.cc:55-62 | The objects change as the ledger does under a batch, which ends at the first exception; a batch that ends without one answers the reference root of the leaves, or the value of a fresh cell when there are none |
| Ametsuchi.Ametsuchi.Commit | src/ametsuchi/ametsuchi.cc:65-76 | The working tables with the current leaves become the committed ones |
| Ametsuchi.Ametsuchi.Rollback | src/ametsuchi/ametsuchi.cc:79-82 | Tables and mirrors return to the last commit; the tree keeps its leaves |
| Ametsuchi.Ametsuchi.InitAppendTx | src/ametsuchi/ametsuchi.cc:151-167 | A new transaction starts from the committed tables and reads the mirrors from them |
| Ametsuchi.Reopen | src/ametsuchi/ametsuchi.cc:36-42 | Closing and opening again gives the ledger of the last commit |
| Ametsuchi.CommitReopen | src/ametsuchi/ametsuchi.cc:36-76 | The object built from the committed tables shows exactly what the committing object shows, its tree rebuilt from the saved leaves |
| Ametsuchi.CommitReopenAppend | src/ametsuchi/ametsuchi.cc:36-76 | After a commit, a reopened database and the old object give the same outcome, the same tables and the same Merkle root for every batch |

## Left out

- LedgerLaws.RollbackKeepsTreeIff: it assumes that, when a positive whole number of blocks was pushed since the last commit, the seed in memory differs from the saved one, because otherwise the hash has collided; `RollbackKeepsTreeIffSaved` is the condition without that assumption.
- NarrowMerkleTree.NarrowMerkleTree.Drop: it does not model an index beyond the end that lies within the capacity times the top spacing of 2^64, where the wrapped count could be less than the size of a layer.
- MerkleTree.MerkleTree.Rollback: it does not model a positive rollback of an empty tree, which pops the only tree and then reads the last one.
- MerkleTree.MerkleTree.Push: it does not model a tree with 1 leaf, whose second push writes outside the array, or with an odd number of leaves; what one push writes there is `MerkleTree.WriteLeaf`.
- TxStore.TxStore.constructor: it asks for a power of two of at least 2; the source passes a compile-time constant, 1024 unless it is overridden (include/ametsuchi/ametsuchi.h, line 44).
- Widths: indices, counts and powers are unbounded; 64 bits are modelled for amounts and for the one subtraction of `drop` that wraps. `ceil2` shifts a 32-bit one, so leaf counts are taken to be below 2^32.
- Asset keys: ledger, domain and asset name are concatenated without a separator, so differently split names share a key; totals and lookups are stated for keys.
- LMDB: cursors, handles, read-only transactions, its failures and directories are replaced by working and committed maps; a lookup in a sorted list is a function, and a put under an equal key overwrites, as documented for tables of sorted duplicates. LMDB itself is not part of this model.
- Sizes of blobs: all records of one asset are taken to have blobs of one size, which the source asserts before it changes one.
- Storage of ring buffers: moving a `CircularStack` and reallocating the vector of layers are not modelled.
- The index trees and `getTxByKey`: the read uses `MDB_FIRST`, which ignores its key, and some commands fall through to other indexes, so their agreement is not a property of this code.
- Queries outside the open transaction, `accountGetAllAssets` and peer commands: they would only add map reads and updates.
- `CircularStack::resize` and `ForwardIter`: the narrow tree uses neither.
- SHA3, flatbuffer layout and the hash-length assertions: the hash is an arbitrary function and blobs are records.
- `path_diff`, `popcount`, `to_string`, `dump` and logging: floating point, unused or for display only.
