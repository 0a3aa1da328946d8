/**
 The transaction handler: the validity test of one transaction against a UTXO
 pool, and the fixed-point acceptance of an unordered batch.

 The handler owns its own copy of the pool it was built from; here every pool
 is an immutable value, so the caller's pool is never affected.
 */
module TxHandler {
  import opened Utxo

  // ---------------------------------------------------------------------
  // The five validity clauses, stated independently of the checking loops.
  // ---------------------------------------------------------------------

  /** (1) Every claimed output is in the pool. */
  predicate AllClaimsInPool(pool: Pool, tx: Transaction) {
    forall i :: 0 <= i < |tx.inputs| ==> tx.inputs[i].Claim() in pool
  }

  /** (2) Every input's signature verifies under the address of the output it claims. */
  predicate SignaturesVerify(verify: Verifier, pool: Pool, tx: Transaction) {
    forall i :: 0 <= i < |tx.inputs| && tx.inputs[i].Claim() in pool ==>
      verify(pool[tx.inputs[i].Claim()].address, RawDataToSign(tx, i), tx.inputs[i].signature)
  }

  /** (3) No output is claimed by two inputs of the transaction. */
  predicate NoDoubleClaim(tx: Transaction) {
    forall i, j :: 0 <= i < j < |tx.inputs| ==> tx.inputs[i].Claim() != tx.inputs[j].Claim()
  }

  /** (4) No output value is negative. */
  predicate OutputsNonNegative(tx: Transaction) {
    forall j :: 0 <= j < |tx.outputs| ==> tx.outputs[j].value >= 0
  }

  /** Total value of the outputs claimed by `ins` (an absent claim contributes nothing). */
  function ClaimedValue(pool: Pool, ins: seq<Input>): int {
    if ins == [] then 0
    else (if ins[0].Claim() in pool then pool[ins[0].Claim()].value else 0) + ClaimedValue(pool, ins[1..])
  }

  /** Total value of `outs`. */
  function OutputValue(outs: seq<Output>): int {
    if outs == [] then 0 else outs[0].value + OutputValue(outs[1..])
  }

  /** The reference definition: all five clauses, (5) being value conservation. */
  predicate ValidSpec(verify: Verifier, pool: Pool, tx: Transaction) {
    && AllClaimsInPool(pool, tx)
    && SignaturesVerify(verify, pool, tx)
    && NoDoubleClaim(tx)
    && OutputsNonNegative(tx)
    && ClaimedValue(pool, tx.inputs) >= OutputValue(tx.outputs)
  }

  // ---------------------------------------------------------------------
  // isValidTx, in the shape of its two loops.
  // ---------------------------------------------------------------------

  /**
   The input loop from input `i` on: `visited` holds the outputs claimed so
   far and `sum` their value. None is an early `return false`.
   */
  function ScanInputs(verify: Verifier, pool: Pool, tx: Transaction, i: nat, visited: set<UTXO>, sum: int): Option<int>
    requires i <= |tx.inputs|
    decreases |tx.inputs| - i
  {
    if i == |tx.inputs| then Some(sum)
    else
      var utxo := tx.inputs[i].Claim();
      if utxo !in pool then None
      else if !verify(pool[utxo].address, RawDataToSign(tx, i), tx.inputs[i].signature) then None
      else if utxo in visited then None
      else ScanInputs(verify, pool, tx, i + 1, visited + {utxo}, sum + pool[utxo].value)
  }

  /** The output loop from output `j` on; None is an early `return false`. */
  function ScanOutputs(outs: seq<Output>, j: nat, sum: int): Option<int>
    requires j <= |outs|
    decreases |outs| - j
  {
    if j == |outs| then Some(sum)
    else if outs[j].value < 0 then None
    else ScanOutputs(outs, j + 1, sum + outs[j].value)
  }

  /** isValidTx: the pool is only read. */
  function IsValidTx(verify: Verifier, pool: Pool, tx: Transaction): bool {
    match ScanInputs(verify, pool, tx, 0, {}, 0)
    case None => false
    case Some(inSum) =>
      match ScanOutputs(tx.outputs, 0, 0)
      case None => false
      case Some(outSum) => inSum >= outSum
  }

  /** The claims of the first `i` inputs. */
  function ClaimsBefore(tx: Transaction, i: nat): set<UTXO>
    requires i <= |tx.inputs|
  {
    set k | 0 <= k < i :: tx.inputs[k].Claim()
  }

  lemma {:induction false} ScanInputsMeaning(verify: Verifier, pool: Pool, tx: Transaction, i: nat, visited: set<UTXO>, sum: int)
    requires i <= |tx.inputs|
    requires visited == ClaimsBefore(tx, i)
    requires forall k :: 0 <= k < i ==> tx.inputs[k].Claim() in pool
    requires forall k :: 0 <= k < i ==>
      verify(pool[tx.inputs[k].Claim()].address, RawDataToSign(tx, k), tx.inputs[k].signature)
    requires forall k, l :: 0 <= k < l < i ==> tx.inputs[k].Claim() != tx.inputs[l].Claim()
    ensures ScanInputs(verify, pool, tx, i, visited, sum).Some? <==>
      AllClaimsInPool(pool, tx) && SignaturesVerify(verify, pool, tx) && NoDoubleClaim(tx)
    ensures ScanInputs(verify, pool, tx, i, visited, sum).Some? ==>
      ScanInputs(verify, pool, tx, i, visited, sum).value == sum + ClaimedValue(pool, tx.inputs[i..])
    decreases |tx.inputs| - i
  {
    if i == |tx.inputs| {
      assert tx.inputs[i..] == [];
    } else {
      var utxo := tx.inputs[i].Claim();
      if utxo !in pool {
      } else if !verify(pool[utxo].address, RawDataToSign(tx, i), tx.inputs[i].signature) {
      } else if utxo in visited {
        var k :| 0 <= k < i && tx.inputs[k].Claim() == utxo;
        assert !NoDoubleClaim(tx);
      } else {
        assert visited + {utxo} == ClaimsBefore(tx, i + 1);
        ScanInputsMeaning(verify, pool, tx, i + 1, visited + {utxo}, sum + pool[utxo].value);
        assert tx.inputs[i..][1..] == tx.inputs[i + 1..];
      }
    }
  }

  lemma {:induction false} ScanOutputsMeaning(outs: seq<Output>, j: nat, sum: int)
    requires j <= |outs|
    ensures ScanOutputs(outs, j, sum).Some? <==> forall k :: j <= k < |outs| ==> outs[k].value >= 0
    ensures ScanOutputs(outs, j, sum).Some? ==> ScanOutputs(outs, j, sum).value == sum + OutputValue(outs[j..])
    decreases |outs| - j
  {
    if j == |outs| {
      assert outs[j..] == [];
    } else if outs[j].value >= 0 {
      ScanOutputsMeaning(outs, j + 1, sum + outs[j].value);
      assert outs[j..][1..] == outs[j + 1..];
    }
  }

  /** isValidTx holds exactly when all five clauses hold. */
  lemma IsValidTxIff(verify: Verifier, pool: Pool, tx: Transaction)
    ensures IsValidTx(verify, pool, tx) <==> ValidSpec(verify, pool, tx)
  {
    assert ClaimsBefore(tx, 0) == {};
    ScanInputsMeaning(verify, pool, tx, 0, {}, 0);
    ScanOutputsMeaning(tx.outputs, 0, 0);
    assert tx.inputs[0..] == tx.inputs;
    assert tx.outputs[0..] == tx.outputs;
  }

  lemma MissingClaimRejected(verify: Verifier, pool: Pool, tx: Transaction, i: nat)
    requires i < |tx.inputs| && tx.inputs[i].Claim() !in pool
    ensures !IsValidTx(verify, pool, tx)
  {
    IsValidTxIff(verify, pool, tx);
  }

  lemma BadSignatureRejected(verify: Verifier, pool: Pool, tx: Transaction, i: nat)
    requires i < |tx.inputs| && tx.inputs[i].Claim() in pool
    requires !verify(pool[tx.inputs[i].Claim()].address, RawDataToSign(tx, i), tx.inputs[i].signature)
    ensures !IsValidTx(verify, pool, tx)
  {
    IsValidTxIff(verify, pool, tx);
  }

  lemma DoubleClaimRejected(verify: Verifier, pool: Pool, tx: Transaction, i: nat, j: nat)
    requires i < j < |tx.inputs| && tx.inputs[i].Claim() == tx.inputs[j].Claim()
    ensures !IsValidTx(verify, pool, tx)
  {
    IsValidTxIff(verify, pool, tx);
  }

  lemma NegativeOutputRejected(verify: Verifier, pool: Pool, tx: Transaction, j: nat)
    requires j < |tx.outputs| && tx.outputs[j].value < 0
    ensures !IsValidTx(verify, pool, tx)
  {
    IsValidTxIff(verify, pool, tx);
  }

  /**
   Once the first four clauses hold, the verdict is value conservation alone:
   equal sums are accepted, a larger output sum is rejected.
   */
  lemma ValueConservationDecides(verify: Verifier, pool: Pool, tx: Transaction)
    requires AllClaimsInPool(pool, tx) && SignaturesVerify(verify, pool, tx)
    requires NoDoubleClaim(tx) && OutputsNonNegative(tx)
    ensures IsValidTx(verify, pool, tx) <==> ClaimedValue(pool, tx.inputs) >= OutputValue(tx.outputs)
  {
    IsValidTxIff(verify, pool, tx);
  }

  // ---------------------------------------------------------------------
  // handleTxs: fixed-point acceptance of an unordered batch.
  // ---------------------------------------------------------------------

  /** Every entry of `order` is a position of a batch of `n` transactions. */
  predicate InBatch(order: seq<nat>, n: nat) {
    forall k :: 0 <= k < |order| ==> order[k] < n
  }

  /** No batch position is accepted twice. */
  predicate Distinct(order: seq<nat>) {
    forall k, l :: 0 <= k < l < |order| ==> order[k] != order[l]
  }

  /**
   Replays the batch members `order` names, in that order, from `pool`: each
   must be valid against the pool left by the ones before it. None when one is not.
   */
  function ApplySeq(verify: Verifier, pool: Pool, txs: seq<Transaction>, order: seq<nat>): Option<Pool>
    requires InBatch(order, |txs|)
    decreases |order|
  {
    if order == [] then Some(pool)
    else
      match ApplySeq(verify, pool, txs, order[..|order| - 1])
      case None => None
      case Some(q) =>
        var tx := txs[order[|order| - 1]];
        if IsValidTx(verify, q, tx) then Some(Apply(q, tx)) else None
  }

  /** A batch of `n` members has at most `n` distinct accepted positions. */
  lemma {:induction false} DistinctBound(order: seq<nat>, n: nat)
    requires InBatch(order, n) && Distinct(order)
    ensures |order| <= n
    decreases |order|
  {
    if order != [] {
      var last := order[|order| - 1];
      var pre := order[..|order| - 1];
      // Renumber the other positions into 0 .. n - 2 by closing the gap at `last`.
      var shifted := seq(|pre|, k requires 0 <= k < |pre| => if pre[k] > last then pre[k] - 1 else pre[k]);
      assert forall k :: 0 <= k < |pre| ==> pre[k] == order[k] && pre[k] != last;
      DistinctBound(shifted, n - 1);
    }
  }

  /** The set of batch positions not (yet) accepted. */
  ghost function Unaccepted(order: seq<nat>, n: nat): set<nat> {
    set k | 0 <= k < n && k !in order
  }

  /**
   What a run of handleTxs guarantees: `order` lists distinct batch members in
   acceptance order, replaying them from `pool` gives `result`, and every
   member left out is invalid against `result` (no further pass would accept it).
   */
  ghost predicate HandleTxsResult(verify: Verifier, pool: Pool, txs: seq<Transaction>, order: seq<nat>, result: Pool) {
    && InBatch(order, |txs|)
    && Distinct(order)
    && ApplySeq(verify, pool, txs, order) == Some(result)
    && forall k :: 0 <= k < |txs| && k !in order ==> !IsValidTx(verify, result, txs[k])
  }

  /** Accepting the unaccepted, currently valid member `i` extends the replay by one step. */
  lemma AcceptOne(verify: Verifier, pool: Pool, txs: seq<Transaction>, order: seq<nat>, result: Pool, i: nat)
    requires InBatch(order, |txs|) && Distinct(order)
    requires ApplySeq(verify, pool, txs, order) == Some(result)
    requires i < |txs| && i !in order && IsValidTx(verify, result, txs[i])
    ensures InBatch(order + [i], |txs|) && Distinct(order + [i])
    ensures ApplySeq(verify, pool, txs, order + [i]) == Some(Apply(result, txs[i]))
    ensures Unaccepted(order + [i], |txs|) == Unaccepted(order, |txs|) - {i}
    ensures i in Unaccepted(order, |txs|)
  {
    assert (order + [i])[..|order|] == order;
  }

  /**
   The body of a pass for member `i`: accept and apply it when it is not yet
   accepted and is valid against the current pool.
   */
  method Consider(verify: Verifier, pool: Pool, txs: seq<Transaction>, order0: seq<nat>, result0: Pool, i: nat)
    returns (order: seq<nat>, result: Pool, accepted: bool)
    requires InBatch(order0, |txs|) && Distinct(order0) && i < |txs|
    requires ApplySeq(verify, pool, txs, order0) == Some(result0)
    ensures InBatch(order, |txs|) && Distinct(order)
    ensures ApplySeq(verify, pool, txs, order) == Some(result)
    ensures accepted <==> i !in order0 && IsValidTx(verify, result0, txs[i])
    ensures accepted ==> order == order0 + [i] && Unaccepted(order, |txs|) == Unaccepted(order0, |txs|) - {i}
    ensures accepted ==> i in Unaccepted(order0, |txs|)
    ensures !accepted ==> order == order0 && result == result0
  {
    if i !in order0 && IsValidTx(verify, result0, txs[i]) {
      AcceptOne(verify, pool, txs, order0, result0, i);
      order, result, accepted := order0 + [i], Apply(result0, txs[i]), true;
    } else {
      order, result, accepted := order0, result0, false;
    }
  }

  /**
   The first member `order` accepts beyond `order0` is the least position not
   in `order0` that is valid against `start`: passes scan the batch in index order.
   */
  ghost predicate FirstAcceptedIsLeast(verify: Verifier, start: Pool, txs: seq<Transaction>, order0: seq<nat>, order: seq<nat>) {
    |order| > |order0| ==>
      var f := order[|order0|];
      && f < |txs| && f !in order0
      && IsValidTx(verify, start, txs[f])
      && forall k :: 0 <= k < f && k !in order0 ==> !IsValidTx(verify, start, txs[k])
  }

  /**
   One pass of handleTxs over the whole batch: every member not yet accepted
   and valid against the current pool is accepted and applied on the spot.
   `progress` says whether the pass accepted anything.
   */
  method Pass(verify: Verifier, pool: Pool, txs: seq<Transaction>, order0: seq<nat>, result0: Pool)
    returns (order: seq<nat>, result: Pool, progress: bool)
    requires InBatch(order0, |txs|) && Distinct(order0)
    requires ApplySeq(verify, pool, txs, order0) == Some(result0)
    ensures InBatch(order, |txs|) && Distinct(order)
    ensures ApplySeq(verify, pool, txs, order) == Some(result)
    ensures progress ==> Unaccepted(order, |txs|) < Unaccepted(order0, |txs|)
    ensures !progress ==> order == order0 && result == result0
    ensures !progress ==> forall k :: 0 <= k < |txs| && k !in order ==> !IsValidTx(verify, result, txs[k])
    ensures order0 <= order && (progress <==> |order| > |order0|)
    ensures FirstAcceptedIsLeast(verify, result0, txs, order0, order)
  {
    order, result, progress := order0, result0, false;
    var i := 0;
    while i < |txs|
      invariant 0 <= i <= |txs|
      invariant InBatch(order, |txs|) && Distinct(order)
      invariant ApplySeq(verify, pool, txs, order) == Some(result)
      invariant Unaccepted(order, |txs|) <= Unaccepted(order0, |txs|)
      invariant progress ==> Unaccepted(order, |txs|) < Unaccepted(order0, |txs|)
      invariant !progress ==> order == order0 && result == result0
      invariant !progress ==> forall k :: 0 <= k < i && k !in order ==> !IsValidTx(verify, result, txs[k])
      invariant order0 <= order && (progress <==> |order| > |order0|)
      invariant FirstAcceptedIsLeast(verify, result0, txs, order0, order)
    {
      var accepted;
      ghost var before := order;
      order, result, accepted := Consider(verify, pool, txs, order, result, i);
      if progress {
        assert order[|order0|] == before[|order0|];
      }
      progress := progress || accepted;
      if !progress {
        forall k | 0 <= k < i + 1 && k !in order
          ensures !IsValidTx(verify, result, txs[k])
        {
          if k == i {
            assert !accepted;
          }
        }
      }
      i := i + 1;
    }
  }

  /**
   The whole batch is accepted: a replay of every member, each once, valid
   step by step, ends in `result`.
   */
  ghost predicate AcceptsAll(verify: Verifier, pool: Pool, txs: seq<Transaction>, result: Pool) {
    exists order :: InBatch(order, |txs|) && Distinct(order) && |order| == |txs| &&
      ApplySeq(verify, pool, txs, order) == Some(result)
  }

  /**
   handleTxs: passes over the batch until a whole pass accepts nothing.
   Returns the accepted positions in acceptance order and the resulting pool.
   */
  method HandleTxs(verify: Verifier, pool: Pool, txs: seq<Transaction>) returns (order: seq<nat>, result: Pool)
    ensures InBatch(order, |txs|) && Distinct(order)
    ensures ApplySeq(verify, pool, txs, order) == Some(result)
    ensures forall k :: 0 <= k < |txs| && k !in order ==> !IsValidTx(verify, result, txs[k])
    ensures FirstAcceptedIsLeast(verify, pool, txs, [], order)
  {
    order := [];
    result := pool;
    var progress := true;
    while progress
      invariant InBatch(order, |txs|) && Distinct(order)
      invariant ApplySeq(verify, pool, txs, order) == Some(result)
      invariant FirstAcceptedIsLeast(verify, pool, txs, [], order)
      invariant !progress ==> forall k :: 0 <= k < |txs| && k !in order ==> !IsValidTx(verify, result, txs[k])
      decreases Unaccepted(order, |txs|), if progress then 1 else 0
    {
      ghost var before := order;
      order, result, progress := Pass(verify, pool, txs, order, result);
      if |before| > 0 {
        assert order[0] == before[0];
      }
    }
  }

  // ---------------------------------------------------------------------
  // Double spends and chained spends within one batch.
  // ---------------------------------------------------------------------

  /**
   Content hashes behave as identifiers for the batch: the members' hashes are
   pairwise distinct, and no output already in the pool was created by a member.
   */
  ghost predicate FreshBatch(pool: Pool, txs: seq<Transaction>) {
    && (forall a, b :: 0 <= a < b < |txs| ==> txs[a].hash != txs[b].hash)
    && (forall u, k :: u in pool && 0 <= k < |txs| ==> u.txHash != txs[k].hash)
  }

  /** Hashes of the members `order` names. */
  ghost function Created(txs: seq<Transaction>, order: seq<nat>): set<Hash>
    requires InBatch(order, |txs|)
    decreases |order|
  {
    if order == [] then {} else Created(txs, order[..|order| - 1]) + {txs[order[|order| - 1]].hash}
  }

  /** Outputs claimed by the members `order` names. */
  ghost function Spent(txs: seq<Transaction>, order: seq<nat>): set<UTXO>
    requires InBatch(order, |txs|)
    decreases |order|
  {
    if order == [] then {} else Spent(txs, order[..|order| - 1]) + Claims(txs[order[|order| - 1]])
  }

  lemma {:induction false} CreatedSpentMembers(txs: seq<Transaction>, order: seq<nat>)
    requires InBatch(order, |txs|)
    ensures forall h :: h in Created(txs, order) ==> exists k :: 0 <= k < |order| && txs[order[k]].hash == h
    ensures forall k :: 0 <= k < |order| ==> Claims(txs[order[k]]) <= Spent(txs, order)
    decreases |order|
  {
    if order != [] {
      var pre := order[..|order| - 1];
      CreatedSpentMembers(txs, pre);
      assert forall k :: 0 <= k < |pre| ==> pre[k] == order[k];
    }
  }

  /** The last member of a distinct `order` did not create anything its predecessors did. */
  lemma NextHashFresh(txs: seq<Transaction>, order: seq<nat>)
    requires InBatch(order, |txs|) && Distinct(order) && |order| > 0
    requires forall a, b :: 0 <= a < b < |txs| ==> txs[a].hash != txs[b].hash
    ensures InBatch(order[..|order| - 1], |txs|)
    ensures txs[order[|order| - 1]].hash !in Created(txs, order[..|order| - 1])
  {
    var n := |order|;
    var pre := order[..n - 1];
    CreatedSpentMembers(txs, pre);
  }

  /** The last step of a successful replay applied a transaction valid at that point. */
  lemma ReplayLastStep(verify: Verifier, pool: Pool, txs: seq<Transaction>, order: seq<nat>)
    requires InBatch(order, |txs|) && |order| > 0
    requires ApplySeq(verify, pool, txs, order).Some?
    ensures InBatch(order[..|order| - 1], |txs|)
    ensures ApplySeq(verify, pool, txs, order[..|order| - 1]).Some?
    ensures var q := ApplySeq(verify, pool, txs, order[..|order| - 1]).value;
      && IsValidTx(verify, q, txs[order[|order| - 1]])
      && Claims(txs[order[|order| - 1]]) <= q.Keys
      && ApplySeq(verify, pool, txs, order) == Some(Apply(q, txs[order[|order| - 1]]))
  {
    var q := ApplySeq(verify, pool, txs, order[..|order| - 1]).value;
    IsValidTxIff(verify, q, txs[order[|order| - 1]]);
  }

  /** A prefix of a successful replay is a successful replay. */
  lemma {:induction false} ReplayPrefix(verify: Verifier, pool: Pool, txs: seq<Transaction>, order: seq<nat>, k: nat)
    requires InBatch(order, |txs|) && k <= |order|
    requires ApplySeq(verify, pool, txs, order).Some?
    ensures InBatch(order[..k], |txs|)
    ensures ApplySeq(verify, pool, txs, order[..k]).Some?
    decreases |order|
  {
    if k < |order| {
      ReplayLastStep(verify, pool, txs, order);
      var pre := order[..|order| - 1];
      ReplayPrefix(verify, pool, txs, pre, k);
      assert pre[..k] == order[..k];
    } else {
      assert order[..k] == order;
    }
  }

  /** The first member of a successful replay was valid against the start pool. */
  lemma ReplayFirstStep(verify: Verifier, pool: Pool, txs: seq<Transaction>, order: seq<nat>)
    requires InBatch(order, |txs|) && |order| > 0
    requires ApplySeq(verify, pool, txs, order).Some?
    ensures IsValidTx(verify, pool, txs[order[0]])
    ensures ApplySeq(verify, pool, txs, order[..1]) == Some(Apply(pool, txs[order[0]]))
  {
    ReplayPrefix(verify, pool, txs, order, 1);
    ReplayLastStep(verify, pool, txs, order[..1]);
    assert order[..1][..0] == [];
  }

  /**
   Lineage of a pool reached by a replay from `pool`: every output in `q` was in
   the start pool or created by a replayed member (hash in `created`), and every
   output a replayed member claimed (`spent`) has left for good.
   */
  ghost predicate Lineage(pool: Pool, q: Pool, created: set<Hash>, spent: set<UTXO>) {
    && (forall u :: u in q ==> u in pool || u.txHash in created)
    && (forall u :: u in spent ==> u !in q && (u in pool || u.txHash in created))
  }

  /** One replay step keeps the lineage. */
  lemma LineageStep(pool: Pool, q: Pool, t: Transaction, created: set<Hash>, spent: set<UTXO>)
    requires Lineage(pool, q, created, spent)
    requires Claims(t) <= q.Keys
    requires t.hash !in created
    requires forall u :: u in pool ==> u.txHash != t.hash
    ensures Lineage(pool, Apply(q, t), created + {t.hash}, spent + Claims(t))
  {
    ApplyEffect(q, t);
    forall u | u in spent + Claims(t)
      ensures u !in Apply(q, t) && (u in pool || u.txHash in created + {t.hash})
    {
      if u in Claims(t) {
        assert u in q;
      }
    }
  }

  /**
   Along a replay of distinct members of a fresh batch the lineage holds: in
   particular no output a replayed member claimed is ever re-created.
   */
  lemma {:induction false} ReplayLineage(verify: Verifier, pool: Pool, txs: seq<Transaction>, order: seq<nat>, q: Pool)
    requires InBatch(order, |txs|) && Distinct(order) && FreshBatch(pool, txs)
    requires ApplySeq(verify, pool, txs, order) == Some(q)
    ensures Lineage(pool, q, Created(txs, order), Spent(txs, order))
    decreases |order|
  {
    if order != [] {
      var pre := order[..|order| - 1];
      var t := txs[order[|order| - 1]];
      ReplayLastStep(verify, pool, txs, order);
      var q0 := ApplySeq(verify, pool, txs, pre).value;
      assert Distinct(pre);
      ReplayLineage(verify, pool, txs, pre, q0);
      NextHashFresh(txs, order);
      LineageStep(pool, q0, t, Created(txs, pre), Spent(txs, pre));
    }
  }

  /** No two members `order` names claim a common output. */
  ghost predicate ClaimsPairwiseDisjoint(txs: seq<Transaction>, order: seq<nat>)
    requires InBatch(order, |txs|)
  {
    forall i, j :: 0 <= i < j < |order| ==> Claims(txs[order[i]]) !! Claims(txs[order[j]])
  }

  lemma DisjointStep(txs: seq<Transaction>, order: seq<nat>)
    requires InBatch(order, |txs|) && |order| > 0
    requires ClaimsPairwiseDisjoint(txs, order[..|order| - 1])
    requires Claims(txs[order[|order| - 1]]) !! Spent(txs, order[..|order| - 1])
    ensures ClaimsPairwiseDisjoint(txs, order)
  {
    var n := |order|;
    var pre := order[..n - 1];
    CreatedSpentMembers(txs, pre);
    forall i, j | 0 <= i < j < n
      ensures Claims(txs[order[i]]) !! Claims(txs[order[j]])
    {
      assert pre[i] == order[i];
      if j < n - 1 {
        assert pre[j] == order[j];
      }
    }
  }

  /** Two members accepted in one replay of a fresh batch never claim a common output. */
  lemma {:induction false} AcceptedClaimsDisjoint(verify: Verifier, pool: Pool, txs: seq<Transaction>, order: seq<nat>, q: Pool)
    requires InBatch(order, |txs|) && Distinct(order) && FreshBatch(pool, txs)
    requires ApplySeq(verify, pool, txs, order) == Some(q)
    ensures ClaimsPairwiseDisjoint(txs, order)
    decreases |order|
  {
    if order != [] {
      var pre := order[..|order| - 1];
      ReplayLastStep(verify, pool, txs, order);
      var q0 := ApplySeq(verify, pool, txs, pre).value;
      assert Distinct(pre);
      AcceptedClaimsDisjoint(verify, pool, txs, pre, q0);
      ReplayLineage(verify, pool, txs, pre, q0);
      DisjointStep(txs, order);
    }
  }

  /**
   Of two batch members claiming the same output, handleTxs accepts at most
   one (for a fresh batch).
   */
  lemma DoubleSpendAtMostOne(verify: Verifier, pool: Pool, txs: seq<Transaction>, order: seq<nat>, result: Pool,
                             a: nat, b: nat, u: UTXO)
    requires HandleTxsResult(verify, pool, txs, order, result) && FreshBatch(pool, txs)
    requires a < |txs| && b < |txs| && a != b
    requires u in Claims(txs[a]) && u in Claims(txs[b])
    ensures !(a in order && b in order)
  {
    AcceptedClaimsDisjoint(verify, pool, txs, order, result);
  }

  /**
   Of two members claiming the same output, the one handleTxs considers first
   wins: in the fresh batch [a, b] with `a` valid on the start pool, only `a`
   is accepted, whatever `b` is.
   */
  lemma FirstClaimantWins(verify: Verifier, pool: Pool, a: Transaction, b: Transaction,
                          order: seq<nat>, result: Pool, u: UTXO)
    requires HandleTxsResult(verify, pool, [a, b], order, result)
    requires FirstAcceptedIsLeast(verify, pool, [a, b], [], order)
    requires FreshBatch(pool, [a, b])
    requires IsValidTx(verify, pool, a)
    requires u in Claims(a) && u in Claims(b)
    ensures order == [0]
  {
    DoubleSpendAtMostOne(verify, pool, [a, b], order, result, 0, 1, u);
    DistinctBound(order, 2);
  }

  /**
   In a batch [spender, creator] where only the creator is valid on the start
   pool, handleTxs accepts the creator first.
   */
  lemma CreatorAcceptedFirst(verify: Verifier, pool: Pool, spender: Transaction, creator: Transaction,
                             order: seq<nat>, result: Pool)
    requires !IsValidTx(verify, pool, spender)
    requires IsValidTx(verify, pool, creator)
    requires HandleTxsResult(verify, pool, [spender, creator], order, result)
    ensures 1 <= |order| <= 2 && order[0] == 1
  {
    var txs := [spender, creator];
    assert txs[0] == spender && txs[1] == creator;
    DistinctBound(order, 2);
    if |order| == 0 {
      assert false;
    } else {
      ReplayFirstStep(verify, pool, txs, order);
    }
  }

  /**
   A chained spend is accepted as a unit: `spender` is invalid on the start pool
   but valid once `creator` is applied; although the spender comes first in the
   batch, handleTxs accepts the creator, then the spender.
   */
  lemma ChainedSpendAccepted(verify: Verifier, pool: Pool, spender: Transaction, creator: Transaction,
                             order: seq<nat>, result: Pool)
    requires !IsValidTx(verify, pool, spender)
    requires IsValidTx(verify, pool, creator)
    requires IsValidTx(verify, Apply(pool, creator), spender)
    requires HandleTxsResult(verify, pool, [spender, creator], order, result)
    ensures order == [1, 0]
    ensures result == Apply(Apply(pool, creator), spender)
  {
    var txs := [spender, creator];
    assert txs[0] == spender && txs[1] == creator;
    CreatorAcceptedFirst(verify, pool, spender, creator, order, result);
    ReplayFirstStep(verify, pool, txs, order);
    if |order| == 1 {
      assert false;
    } else {
      ReplayLastStep(verify, pool, txs, order);
    }
  }
}
