# UTXO transaction handler and block-chain index, in Dafny

This project models the core of a small single-node ledger, written in Java. It has two parts.

- **Transaction handler** (`TxHandler`). It decides whether one transaction is valid against a pool of unspent outputs (UTXOs). It also accepts a mutually consistent subset of an unordered batch by making passes until a fixed point is reached.
- **Block chain** (`BlockChain`). It keeps block nodes in a map keyed by block hash. Each node holds a block, its height and the UTXO pool right after that block. The chain keeps a max-height pointer (first seen wins on ties) and a min-height pointer. Adding a block validates it against its parent's pool, inserts the node, moves the max pointer, and takes one pruning step.

Files:

- `utxo.dfy` (module `Utxo`): output ids, outputs, inputs, transactions, the pool, and the two pool updates. `Apply` removes the claimed outputs and adds the new ones. `AddOutputs` adds outputs unchecked, as done for a coinbase.
- `tx_handler.dfy` (module `TxHandler`):
  - `IsValidTx`, written as two scans that follow the source's two loops, with a proof that it equals the five-clause reference predicate `ValidSpec`;
  - `HandleTxs` (the while loop), `Pass` (the inner for loop) and `Consider` (the loop body);
  - `ApplySeq`, the replay of accepted transactions in acceptance order;
  - lemmas about double spends and chained spends.
- `block_chain.dfy` (module `BlockChain`): `Genesis` (the constructor), `Insert`, `Prune` and the pruning `Walk`, `Attach` and `AddBlock`.

The handler in the source copies the pool it is given. Here every pool is an immutable value, so neither `IsValidTx` nor `HandleTxs` can change the caller's pool. For the same reason a rejected `AddBlock` returns the chain it was given (`r == c`), including the parent's pool.

The code's pruning behaves as follows, so it does not bound memory:

- Pruning removes only one map entry per added block: the old min node's. It does not evict every node older than the new floor.
- The pruning condition is checked after every accepted block, not only after the max pointer moves.
- So the number of retained nodes is not bounded by `CUT_OFF_AGE + 1`.

The chain invariant `Valid` says that every node is stored under its own block hash, that both pointers are stored nodes, and that no stored node is higher than the max node. `Genesis` establishes it. `Prune` preserves it unconditionally. `Insert`, `Attach` and `AddBlock` preserve it when the added block's hash is not stored yet.

## Model

| member | source | states |
|---|---|---|
| TxHandler.IsValidTxIff | TxHandler.java:24-55 | isValidTx is true exactly when all five clauses hold: every claimed output is in the pool, every signature verifies under the claimed output's address, no output is claimed twice, no output value is negative, and the claimed input value is at least the output value |
| TxHandler.ScanInputsMeaning | TxHandler.java:36-48 | the input loop finishes without `return false` exactly when clauses 1-3 hold for all inputs, and it then has summed the values of all claimed outputs |
| TxHandler.ScanOutputsMeaning | TxHandler.java:49-53 | the output loop finishes exactly when no output value is negative, and it then has summed all output values |
| TxHandler.MissingClaimRejected | TxHandler.java:38-40 | an input whose claimed output is not in the pool makes the transaction invalid |
| TxHandler.BadSignatureRejected | TxHandler.java:41-43 | an input whose signature does not verify against the claimed output's address over its raw data makes the transaction invalid |
| TxHandler.DoubleClaimRejected | TxHandler.java:44-46 | two inputs claiming the same output make the transaction invalid |
| TxHandler.NegativeOutputRejected | TxHandler.java:49-51 | a negative output value makes the transaction invalid |
| TxHandler.ValueConservationDecides | TxHandler.java:47-54 | once the other clauses hold, the verdict is input sum >= output sum, so equal sums are accepted |
| TxHandler.Consider | TxHandler.java:70-77 | a member is accepted exactly when it is not yet accepted and is valid against the current pool; it is then appended to the acceptance order and the replay still holds; otherwise nothing changes |
| TxHandler.AcceptOne | TxHandler.java:72-77 | accepting a valid, not yet accepted member extends the replay by applying it, and removes it from the unaccepted positions |
| TxHandler.Pass | TxHandler.java:68-78 | one pass keeps the replay invariant and only appends to the acceptance order; a pass that accepts something strictly shrinks the set of unaccepted members, and the first member it accepts is the least unaccepted position valid on the pool at the start of the pass; a pass that accepts nothing leaves every unaccepted member invalid against the pool |
| TxHandler.HandleTxs | TxHandler.java:62-81 | returns distinct batch positions; replaying them in acceptance order from the start pool (each valid when applied, its claims removed and its outputs added) gives exactly the returned pool; every member not returned is invalid against that pool; the first member accepted is the least position valid on the start pool |
| TxHandler.DistinctBound | TxHandler.java:65-73 | the number of accepted members never exceeds the batch size |
| TxHandler.ReplayPrefix | TxHandler.java:69-77 | every prefix of an acceptance order is itself a valid replay |
| TxHandler.ReplayLineage | TxHandler.java:74-77 | in a fresh batch, every output in the pool was in the start pool or was created by an accepted member, and every output an accepted member claimed is gone for good |
| TxHandler.AcceptedClaimsDisjoint | TxHandler.java:69-77 | in a fresh batch, no two accepted members claim a common output |
| TxHandler.DoubleSpendAtMostOne | TxHandler.java:66-79 | of two batch members claiming the same output, handleTxs accepts at most one |
| TxHandler.FirstClaimantWins | TxHandler.java:69-77 | of two members of a fresh batch [a, b] claiming the same output, with a valid on the start pool, handleTxs accepts a and only a: the member considered first wins |
| TxHandler.CreatorAcceptedFirst | TxHandler.java:66-79 | in the batch [spender, creator], if only the creator is valid at the start, it is the first member accepted |
| TxHandler.ChainedSpendAccepted | TxHandler.java:66-79 | a spender that is valid only after its creator is applied is still accepted even though it comes first in the batch: the order is creator then spender, and the pool shows both applied |
| Utxo.ApplyEffect | TxHandler.java:74-77 | after applying an accepted transaction, an output is in the pool exactly when it was there and the transaction did not claim it, or the transaction created it; created entries hold the transaction's outputs and untouched entries keep their values |
| Utxo.AddOutputsEffect | BlockChain.java:90-93 | adding a coinbase keeps every old key and the value of every entry not under the coinbase hash, and adds `UTXO(coinbase.hash, i)` holding output `i`, without any validation; nothing else enters |
| BlockChain.Genesis | BlockChain.java:35-47 | the chain satisfies Valid; it holds exactly one node, the genesis block at height 1; its pool holds exactly the genesis coinbase outputs `UTXO(coinbase.hash, i)`, and both pointers point to it |
| BlockChain.MaxHeightBlock | BlockChain.java:50-52 | on a Valid chain, the returned block is stored under its hash, and no stored node is higher than its node |
| BlockChain.MaxHeightUtxoPool | BlockChain.java:55-57 | on a Valid chain, the returned pool is the one stored with the max-height block |
| BlockChain.Walk | BlockChain.java:101-107 | the pruning walk ends on the max node itself or on a node stored in the map |
| BlockChain.WalkStopsAtFirstOld | BlockChain.java:101-107 | the walk follows stored prev-hash links; every node it passes has height >= max.height - CUT_OFF_AGE; it stops at the first node below that bound, at the first node whose parent is not stored, or where its fuel of one step per stored node runs out |
| BlockChain.Insert | BlockChain.java:94-98 | the node is stored under its block hash and no other entry changes; the max pointer becomes the new node only when its height is strictly greater, so the max height never decreases and on a tie the first-seen node stays best; inserting a node under a hash not yet stored preserves Valid |
| BlockChain.Prune | BlockChain.java:99-101 | pruning runs only when min.height < max.height - CUT_OFF_AGE; it then removes exactly the old min node's key and changes no other entry; the max pointer is untouched; the new min is the max node or a stored node; on a Valid chain it removes exactly one entry, never the max node's, and keeps Valid |
| BlockChain.FuelStopMeansCycle | BlockChain.java:102-107 | when the walk's fuel of one step per stored node runs out at a node within the bound whose parent is stored, some node repeats among the parent links followed: the links form a cycle, on which the source's loop never ends |
| BlockChain.PrunedMinMeetsLoopExit | BlockChain.java:99-107 | after pruning, the min pointer meets the source loop's exit condition (below max.height - CUT_OFF_AGE, or no stored parent) unless the stored parent links above the max node form a cycle |
| BlockChain.PrunedMinIsFirstOldAncestor | BlockChain.java:99-107 | after pruning, the min pointer is reached from the max node through stored prev-hash links and is the first node on that path where the walk stops |
| BlockChain.Attach | BlockChain.java:90-108 | the child (block, parent height + 1, handler pool plus coinbase outputs) is stored under the block hash unless that hash is the old min's; every other entry is kept except possibly the old min's, and no other key appears; the max height never decreases; a strictly higher child becomes the max-height block, otherwise the max pointer is unchanged; on a Valid chain and a new hash the child is stored and Valid is kept |
| BlockChain.AddBlock | BlockChain.java:76-110 | rejects, changing nothing, when the parent hash is null or not stored, or when parent.height + 1 <= maxHeight - CUT_OFF_AGE; a rejection that passes both checks comes from a handler run that accepted fewer transactions than the block holds; on success every block transaction was replayed validly from the parent's pool, and the child (height parent + 1, pool = handler pool plus the unvalidated coinbase outputs) is inserted and pruning runs; on success every other entry except the old min's is kept, and on a Valid chain with a new block hash the child is stored under that hash; adding a block with a new hash keeps Valid |

## Left out

- Signature verification (`Crypto.verifySignature`, TxHandler.java:42) is a foreign call. It is the function parameter `verify`, of type `(address, message, signature) -> bool`, with no properties assumed.
- Hashes, `getRawDataToSign` and `ByteArrayWrapper` are opaque. Hashes, addresses and signatures are natural numbers. The payload signed by input `i` of `tx` is the value `RawDataToSign(tx, i)`.
- Output values are whole numbers. The source sums them as `double`, and rounding is not modelled.
- Block heights are unbounded integers. Java's 32-bit `int` wrap-around is not modelled; it cannot be reached by a realistic chain.
- `TransactionPool`, `addTransaction` and `getTransactionPool` (BlockChain.java:27, 37, 60-62, 113-115) are thin wrappers over a class that is not part of this model.
- `getMaxHeightUTXOPool` returns the max node's pool by reference (BlockChain.java:55-57). Here `MaxHeightUtxoPool` returns a value, so aliasing is not modelled.
- The accepted set is a set of batch positions, not a `HashSet<Transaction>`. A block that lists one transaction twice is therefore handled per position. With content equality, Java would count the copy once and reject the block.
- A null prev-hash reached during the pruning walk counts as a missing parent. Java would build a `ByteArrayWrapper` from null. That class is not part of this model.
- Walk: bounded by a fuel of `|nodes|` parent steps. The Java loop has no bound and would not terminate on a prev-hash cycle. `FuelStopMeansCycle` shows that the fuel decides only on such a cycle. On a cycle the model stops where the source would loop forever.
- WalkStopsAtFirstOld: one stop reason is that the fuel ran out. The source has no such reason. `FuelStopMeansCycle` shows it arises only on a prev-hash cycle, where the source does not terminate.
- PrunedMinIsFirstOldAncestor: includes the same fuel stop reason. `PrunedMinMeetsLoopExit` removes it whenever the parent links above the max node have no cycle.
- AddBlock: Valid is shown preserved only when the block's hash is not stored yet. Re-adding a stored hash, or a colliding one, overwrites that entry while the max pointer may keep the old node, as the source's map and pointer do.
- Prune: "never removes the max node" and "exactly one entry fewer" are stated only for Valid chains.
- DoubleSpendAtMostOne: requires a fresh batch. Batch hashes must be pairwise distinct, and no pool output may carry a batch member's hash. Without this, a member with a colliding hash could re-create a spent output.
- AcceptedClaimsDisjoint, ReplayLineage, FirstClaimantWins: require the same fresh batch, for the same reason.
- HandleTxs: the index-order rule is stated for the first member each pass accepts. For a conflict settled later within a pass, that the earlier position wins has no lemma of its own.
- AddBlock: acceptance is stated one way only. Success implies a full valid replay; a late rejection implies a handler run that accepted fewer transactions. The converse, that a block whose transactions can all be replayed is always accepted, is not proved.
- No bound on the number of retained nodes is stated. The code removes at most one node per added block, the old min node. Nodes that never become the min, such as most side-branch nodes, are never removed.
- The chain-length property "N valid blocks give height N + 1" and the concrete genesis-and-one-block scenarios are not stated.
- The commentary on coinbase hash collisions (BlockChain.java:118-135) is not code and is not modelled.
