/**
 The block-chain index: block nodes keyed by block hash, each holding its
 block, its height and the UTXO pool right after the block; a pointer to the
 highest node (first seen wins on ties) and one to the oldest retained node.

 Nodes are values, so the two pointers hold node values where the source
 holds object references; a node is looked up in the map only by block hash.
 */
module BlockChain {
  import opened Utxo
  import TxHandler

  /** How far below the highest node a block may still be attached. */
  const CUT_OFF_AGE: int := 10

  /** A block: its hash, its parent's hash (None when absent), its coinbase and its other transactions. */
  datatype Block = Block(hash: Hash, prevBlockHash: Option<Hash>, coinbase: Transaction, txs: seq<Transaction>)

  datatype BlockNode = BlockNode(block: Block, height: int, utxoPool: Pool)

  datatype Chain = Chain(nodes: map<Hash, BlockNode>, maxNode: BlockNode, minNode: BlockNode)

  /**
   The chain's invariant: every node is stored under its own block hash, both
   pointers are stored nodes, and no stored node is higher than the max node.
   */
  ghost predicate Valid(c: Chain) {
    && (forall h :: h in c.nodes ==> c.nodes[h].block.hash == h)
    && c.maxNode.block.hash in c.nodes && c.nodes[c.maxNode.block.hash] == c.maxNode
    && c.minNode.block.hash in c.nodes && c.nodes[c.minNode.block.hash] == c.minNode
    && (forall h :: h in c.nodes ==> c.nodes[h].height <= c.maxNode.height)
  }

  /** The chain holding only the genesis block, at height 1; its coinbase is trusted. */
  function Genesis(genesisBlock: Block): (c: Chain)
    ensures Valid(c)
    ensures c.nodes.Keys == {genesisBlock.hash}
    ensures c.maxNode == c.minNode == c.nodes[genesisBlock.hash]
    ensures c.maxNode.block == genesisBlock && c.maxNode.height == 1
    ensures forall u :: u in c.maxNode.utxoPool <==>
      u.txHash == genesisBlock.coinbase.hash && u.index < |genesisBlock.coinbase.outputs|
    ensures forall i :: 0 <= i < |genesisBlock.coinbase.outputs| ==>
      c.maxNode.utxoPool[UTXO(genesisBlock.coinbase.hash, i)] == genesisBlock.coinbase.outputs[i]
  {
    AddOutputsEffect(map[], genesisBlock.coinbase);
    var node := BlockNode(genesisBlock, 1, AddOutputs(map[], genesisBlock.coinbase));
    Chain(map[genesisBlock.hash := node], node, node)
  }

  /** getMaxHeightBlock: the block of a stored node no other stored node is higher than. */
  function MaxHeightBlock(c: Chain): (b: Block)
    ensures Valid(c) ==> b.hash in c.nodes && c.nodes[b.hash].block == b
    ensures Valid(c) ==> forall h :: h in c.nodes ==> c.nodes[h].height <= c.nodes[b.hash].height
  {
    c.maxNode.block
  }

  /** getMaxHeightUTXOPool: the pool stored with the max-height block. */
  function MaxHeightUtxoPool(c: Chain): (p: Pool)
    ensures Valid(c) ==> p == c.nodes[MaxHeightBlock(c).hash].utxoPool
  {
    c.maxNode.utxoPool
  }

  /** The stored node under hash `h`; None when `h` is absent or not stored. */
  function Lookup(nodes: map<Hash, BlockNode>, h: Option<Hash>): Option<BlockNode> {
    match h
    case None => None
    case Some(k) => if k in nodes then Some(nodes[k]) else None
  }

  /** The stored node under `node`'s parent hash, if any. */
  function Parent(nodes: map<Hash, BlockNode>, node: BlockNode): Option<BlockNode> {
    Lookup(nodes, node.block.prevBlockHash)
  }

  /** The node `k` parent links above `from` through `nodes`, if every link is stored. */
  ghost function Ancestor(nodes: map<Hash, BlockNode>, from: BlockNode, k: nat): Option<BlockNode>
    decreases k
  {
    if k == 0 then Some(from)
    else match Parent(nodes, from)
      case None => None
      case Some(p) => Ancestor(nodes, p, k - 1)
  }

  /**
   The pruning walk: from `cur`, step to the parent while the current node's
   height is at least `bound` and the parent is stored, for at most `fuel` steps.
   */
  function Walk(nodes: map<Hash, BlockNode>, cur: BlockNode, bound: int, fuel: nat): (r: BlockNode)
    ensures r == cur || r in nodes.Values
    decreases fuel
  {
    if cur.height < bound || fuel == 0 then cur
    else match Parent(nodes, cur)
      case None => cur
      case Some(p) => Walk(nodes, p, bound, fuel - 1)
  }

  /**
   `r` is `k` stored parent links above `cur`, every node before it on the way
   has height at least `bound`, and the walk has a reason to stop at `r`: its
   height is below `bound`, its parent is not stored, or `k` used all the fuel.
   */
  ghost predicate StopsAt(nodes: map<Hash, BlockNode>, cur: BlockNode, bound: int, fuel: nat, r: BlockNode, k: nat) {
    && k <= fuel
    && Ancestor(nodes, cur, k) == Some(r)
    && (forall j: nat :: j < k ==> Ancestor(nodes, cur, j).Some? && Ancestor(nodes, cur, j).value.height >= bound)
    && (r.height < bound || Parent(nodes, r).None? || k == fuel)
  }

  /** The walk ends on the first node along the parent links that gives it a reason to stop. */
  lemma {:induction false} WalkStopsAtFirstOld(nodes: map<Hash, BlockNode>, cur: BlockNode, bound: int, fuel: nat)
    ensures exists k: nat :: StopsAt(nodes, cur, bound, fuel, Walk(nodes, cur, bound, fuel), k)
    decreases fuel
  {
    var r := Walk(nodes, cur, bound, fuel);
    if cur.height < bound || fuel == 0 || Parent(nodes, cur).None? {
      assert StopsAt(nodes, cur, bound, fuel, r, 0);
    } else {
      var p := Parent(nodes, cur).value;
      assert r == Walk(nodes, p, bound, fuel - 1);
      WalkStopsAtFirstOld(nodes, p, bound, fuel - 1);
      var k: nat :| StopsAt(nodes, p, bound, fuel - 1, r, k);
      forall j: nat | j < k + 1
        ensures Ancestor(nodes, cur, j).Some? && Ancestor(nodes, cur, j).value.height >= bound
      {
        if j > 0 {
          assert Ancestor(nodes, cur, j) == Ancestor(nodes, p, j - 1);
        }
      }
      assert StopsAt(nodes, cur, bound, fuel, r, k + 1);
    }
  }

  /** One more parent link: the ancestor `j + 1` links up is the stored parent of the one `j` links up. */
  lemma {:induction false} AncestorStep(nodes: map<Hash, BlockNode>, from: BlockNode, j: nat)
    requires Ancestor(nodes, from, j).Some?
    ensures Ancestor(nodes, from, j + 1) == Parent(nodes, Ancestor(nodes, from, j).value)
    decreases j
  {
    if j > 0 {
      AncestorStep(nodes, Parent(nodes, from).value, j - 1);
    }
  }

  /** More positions than values in `S`: some value repeats. */
  lemma {:induction false} Pigeonhole(s: seq<Hash>, S: set<Hash>)
    requires forall i :: 0 <= i < |s| ==> s[i] in S
    requires |s| > |S|
    ensures exists i, j :: 0 <= i < j < |s| && s[i] == s[j]
    decreases |s|
  {
    var x := s[|s| - 1];
    var pre := s[..|s| - 1];
    if x in pre {
      var i :| 0 <= i < |pre| && pre[i] == x;
      assert s[i] == s[|s| - 1];
    } else {
      Pigeonhole(pre, S - {x});
      var i, j :| 0 <= i < j < |pre| && pre[i] == pre[j];
      assert s[i] == s[j];
    }
  }

  /** Following stored parent links from `cur`, some node within `n` links comes round again. */
  ghost predicate HasCycleAbove(nodes: map<Hash, BlockNode>, cur: BlockNode, n: nat) {
    exists i, j :: 1 <= i < j <= n && Ancestor(nodes, cur, i).Some? && Ancestor(nodes, cur, i) == Ancestor(nodes, cur, j)
  }

  /** The stored key of the parent of the node `j` links above `cur` (0 when there is none). */
  ghost function ParentKey(nodes: map<Hash, BlockNode>, cur: BlockNode, j: nat): Hash {
    match Ancestor(nodes, cur, j)
    case None => 0
    case Some(a) => if a.block.prevBlockHash.Some? then a.block.prevBlockHash.value else 0
  }

  /**
   The walk's fuel of `|nodes|` steps decides only on a prev-hash cycle: when
   it runs out at a node that is still within the bound and has a stored
   parent, the `|nodes| + 1` parent lookups made so far hit some key twice, so
   a node repeats and the unbounded loop of the source would never end.
   */
  lemma FuelStopMeansCycle(nodes: map<Hash, BlockNode>, cur: BlockNode, bound: int, r: BlockNode, k: nat)
    requires StopsAt(nodes, cur, bound, |nodes|, r, k)
    requires r.height >= bound && Parent(nodes, r).Some?
    ensures HasCycleAbove(nodes, cur, k + 1)
  {
    assert k == |nodes|;
    var s := seq(k + 1, j requires 0 <= j => ParentKey(nodes, cur, j));
    forall j | 0 <= j < k + 1
      ensures s[j] in nodes.Keys
      ensures Ancestor(nodes, cur, j + 1).Some?
    {
      if j < k {
        assert Ancestor(nodes, cur, j).Some?;
        if j + 1 < k {
          assert Ancestor(nodes, cur, j + 1).Some?;
        }
        AncestorStep(nodes, cur, j);
      } else {
        AncestorStep(nodes, cur, k);
      }
    }
    Pigeonhole(s, nodes.Keys);
    var i, j :| 0 <= i < j < |s| && s[i] == s[j];
    AncestorStep(nodes, cur, i);
    AncestorStep(nodes, cur, j);
    assert Ancestor(nodes, cur, i + 1) == Ancestor(nodes, cur, j + 1);
    assert Ancestor(nodes, cur, i + 1).Some?;
  }

  /**
   Attaches `node` under its block hash; the max pointer moves to it only when
   it is strictly higher, so the first node seen at a height stays the best.
   */
  function Insert(c: Chain, node: BlockNode): (r: Chain)
    ensures r.nodes.Keys == c.nodes.Keys + {node.block.hash}
    ensures r.nodes[node.block.hash] == node
    ensures forall h :: h in c.nodes && h != node.block.hash ==> r.nodes[h] == c.nodes[h]
    ensures r.minNode == c.minNode
    ensures r.maxNode == c.maxNode || r.maxNode == node
    ensures r.maxNode.height >= c.maxNode.height && r.maxNode.height >= node.height
    ensures node.height <= c.maxNode.height ==> r.maxNode == c.maxNode
    ensures Valid(c) && node.block.hash !in c.nodes ==> Valid(r)
  {
    Chain(c.nodes[node.block.hash := node], if node.height > c.maxNode.height then node else c.maxNode, c.minNode)
  }

  /** The pruning condition: the oldest retained node is more than CUT_OFF_AGE below the highest. */
  predicate NeedsPruning(c: Chain) {
    c.minNode.height < c.maxNode.height - CUT_OFF_AGE
  }

  /**
   Pruning: when needed, drop the old min node's entry and walk a new min
   pointer down from the max node.
   */
  function Prune(c: Chain): (r: Chain)
    ensures r.maxNode == c.maxNode
    ensures !NeedsPruning(c) ==> r == c
    ensures NeedsPruning(c) ==> r.nodes.Keys == c.nodes.Keys - {c.minNode.block.hash}
    ensures forall h :: h in r.nodes ==> h in c.nodes && r.nodes[h] == c.nodes[h]
    ensures NeedsPruning(c) && c.minNode.block.hash in c.nodes ==> |r.nodes| == |c.nodes| - 1
    ensures NeedsPruning(c) ==> r.minNode == c.maxNode || r.minNode in r.nodes.Values
    ensures Valid(c) && NeedsPruning(c) ==> c.maxNode.block.hash in r.nodes && |r.nodes| == |c.nodes| - 1
    ensures Valid(c) ==> Valid(r)
  {
    if NeedsPruning(c) then
      var nodes := c.nodes - {c.minNode.block.hash};
      assert nodes.Keys == c.nodes.Keys - {c.minNode.block.hash};
      Chain(nodes, c.maxNode, Walk(nodes, c.maxNode, c.maxNode.height - CUT_OFF_AGE, |nodes|))
    else c
  }

  /** The min pointer of `r` is where the pruning walk from its max node stops, `k` links up. */
  ghost predicate MinWalkedFromMax(r: Chain, k: nat) {
    StopsAt(r.nodes, r.maxNode, r.maxNode.height - CUT_OFF_AGE, |r.nodes|, r.minNode, k)
  }

  /**
   After pruning, the new min pointer is the max node or an ancestor of it
   through stored parent links: the first one below the window, or the last
   one whose parent is not stored (or the one where the walk's fuel ran out).
   */
  lemma PrunedMinIsFirstOldAncestor(c: Chain)
    requires NeedsPruning(c)
    ensures exists k: nat :: MinWalkedFromMax(Prune(c), k)
  {
    var r := Prune(c);
    var bound, fuel := c.maxNode.height - CUT_OFF_AGE, |r.nodes|;
    assert r.minNode == Walk(r.nodes, c.maxNode, bound, fuel);
    WalkStopsAtFirstOld(r.nodes, c.maxNode, bound, fuel);
    var k: nat :| StopsAt(r.nodes, c.maxNode, bound, fuel, r.minNode, k);
    assert MinWalkedFromMax(r, k);
  }

  /**
   The new min pointer satisfies the exit condition of the source's loop: it
   is below the window or has no stored parent, unless the stored parent links
   above the max node run in a cycle, where the source's loop never ends.
   */
  lemma PrunedMinMeetsLoopExit(c: Chain)
    requires NeedsPruning(c)
    ensures var r := Prune(c);
      || r.minNode.height < r.maxNode.height - CUT_OFF_AGE
      || Parent(r.nodes, r.minNode).None?
      || HasCycleAbove(r.nodes, r.maxNode, |r.nodes| + 1)
  {
    var r := Prune(c);
    PrunedMinIsFirstOldAncestor(c);
    var k: nat :| MinWalkedFromMax(r, k);
    if r.minNode.height >= r.maxNode.height - CUT_OFF_AGE && Parent(r.nodes, r.minNode).Some? {
      FuelStopMeansCycle(r.nodes, r.maxNode, r.maxNode.height - CUT_OFF_AGE, r.minNode, k);
    }
  }

  /** The node addBlock creates for `block` under `parent`, given the handler's pool `q`. */
  function Child(parent: BlockNode, block: Block, q: Pool): BlockNode {
    BlockNode(block, 1 + parent.height, AddOutputs(q, block.coinbase))
  }

  /**
   The success path of addBlock: the child of `parent` gets height one more and
   the handler's pool `q` plus the coinbase outputs; it is inserted, then pruning runs.
   */
  function Attach(c: Chain, parent: BlockNode, block: Block, q: Pool): (r: Chain)
    ensures block.hash != c.minNode.block.hash ==> block.hash in r.nodes && r.nodes[block.hash] == Child(parent, block, q)
    ensures forall h :: h in c.nodes && h != block.hash && h != c.minNode.block.hash ==> h in r.nodes && r.nodes[h] == c.nodes[h]
    ensures forall h :: h in r.nodes && h != block.hash ==> h in c.nodes && r.nodes[h] == c.nodes[h]
    ensures r.maxNode.height >= c.maxNode.height
    ensures 1 + parent.height > c.maxNode.height ==> MaxHeightBlock(r) == block && r.maxNode.height == 1 + parent.height
    ensures 1 + parent.height <= c.maxNode.height ==> r.maxNode == c.maxNode
    ensures Valid(c) && block.hash !in c.nodes ==> Valid(r) && block.hash in r.nodes && r.nodes[block.hash] == Child(parent, block, q)
  {
    Prune(Insert(c, Child(parent, block, q)))
  }

  /**
   addBlock: attaches `block` under its stored parent when the parent is
   recent enough and the handler, seeded with the parent's pool, accepts every
   transaction of the block; the new pool adds the coinbase outputs unchecked.
   Then the max pointer and pruning are updated. On rejection nothing changes.
   */
  method AddBlock(verify: Verifier, c: Chain, block: Block) returns (ok: bool, r: Chain)
    ensures !ok ==> r == c
    ensures Lookup(c.nodes, block.prevBlockHash).None? ==> !ok
    ensures var parent := Lookup(c.nodes, block.prevBlockHash);
      parent.Some? && 1 + parent.value.height <= c.maxNode.height - CUT_OFF_AGE ==> !ok
    ensures var parent := Lookup(c.nodes, block.prevBlockHash);
      ok ==> parent.Some? && 1 + parent.value.height > c.maxNode.height - CUT_OFF_AGE
    ensures var parent := Lookup(c.nodes, block.prevBlockHash);
      ok ==> exists q :: TxHandler.AcceptsAll(verify, parent.value.utxoPool, block.txs, q) && r == Attach(c, parent.value, block, q)
    ensures var parent := Lookup(c.nodes, block.prevBlockHash);
      !ok && parent.Some? && 1 + parent.value.height > c.maxNode.height - CUT_OFF_AGE ==>
        exists order, q :: TxHandler.HandleTxsResult(verify, parent.value.utxoPool, block.txs, order, q) && |order| < |block.txs|
    ensures r.maxNode.height >= c.maxNode.height
    ensures var parent := Lookup(c.nodes, block.prevBlockHash);
      ok && 1 + parent.value.height > c.maxNode.height ==> MaxHeightBlock(r) == block
    ensures var parent := Lookup(c.nodes, block.prevBlockHash);
      ok && 1 + parent.value.height <= c.maxNode.height ==> r.maxNode == c.maxNode
    ensures var parent := Lookup(c.nodes, block.prevBlockHash);
      ok && Valid(c) && block.hash !in c.nodes ==>
        block.hash in r.nodes && r.nodes[block.hash].block == block && r.nodes[block.hash].height == 1 + parent.value.height
    ensures ok ==> forall h :: h in c.nodes && h != block.hash && h != c.minNode.block.hash ==> h in r.nodes && r.nodes[h] == c.nodes[h]
    ensures Valid(c) && block.hash !in c.nodes ==> Valid(r)
  {
    var parent := Lookup(c.nodes, block.prevBlockHash);
    if parent.None? {
      return false, c;
    }
    var parentNode := parent.value;
    if 1 + parentNode.height <= c.maxNode.height - CUT_OFF_AGE {
      return false, c;
    }
    var order, q := TxHandler.HandleTxs(verify, parentNode.utxoPool, block.txs);
    if |order| != |block.txs| {
      TxHandler.DistinctBound(order, |block.txs|);
      assert TxHandler.HandleTxsResult(verify, parentNode.utxoPool, block.txs, order, q);
      return false, c;
    }
    assert TxHandler.AcceptsAll(verify, parentNode.utxoPool, block.txs, q);
    ok, r := true, Attach(c, parentNode, block, q);
  }
}
