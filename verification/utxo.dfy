/**
 The unspent-output model shared by the transaction handler and the block
 chain: output identifiers, outputs, transactions and the UTXO pool.

 Hashes, addresses and signatures are opaque identifiers; the bytes they stand
 for and the functions computing them are not part of this model.
 */
module Utxo {

  /** Opaque content hash of a transaction or a block. */
  type Hash = nat

  /** Opaque public key that owns an output. */
  type Address = nat

  /** Opaque signature carried by an input. */
  type Signature = nat

  datatype Option<+T> = None | Some(value: T)

  /** Identifies one output: the transaction that created it and its position. */
  datatype UTXO = UTXO(txHash: Hash, index: nat)

  /** A value (a whole number here) locked to an owner address. */
  datatype Output = Output(value: int, address: Address)

  /** An input claims the output `outputIndex` of the transaction `prevTxHash`. */
  datatype Input = Input(prevTxHash: Hash, outputIndex: nat, signature: Signature) {
    function Claim(): UTXO {
      UTXO(prevTxHash, outputIndex)
    }
  }

  datatype Transaction = Transaction(hash: Hash, inputs: seq<Input>, outputs: seq<Output>)

  /** The payload input `index` of `tx` signs (the raw data to sign). */
  datatype Message = RawDataToSign(tx: Transaction, index: nat)

  /** The external signature check: (owner address, payload, signature) -> verdict. */
  type Verifier = (Address, Message, Signature) -> bool

  /** The pool of unspent outputs. */
  type Pool = map<UTXO, Output>

  /** Every UTXO some input of `tx` claims. */
  function Claims(tx: Transaction): (s: set<UTXO>)
    ensures forall i :: 0 <= i < |tx.inputs| ==> tx.inputs[i].Claim() in s
    ensures forall u :: u in s ==> exists i :: 0 <= i < |tx.inputs| && tx.inputs[i].Claim() == u
  {
    set i | 0 <= i < |tx.inputs| :: tx.inputs[i].Claim()
  }

  /** The outputs `tx` creates, keyed by `UTXO(tx.hash, i)`. */
  function OutputsOf(tx: Transaction): (m: Pool)
    ensures forall u :: u in m <==> u.txHash == tx.hash && u.index < |tx.outputs|
    ensures forall i :: 0 <= i < |tx.outputs| ==> m[UTXO(tx.hash, i)] == tx.outputs[i]
  {
    map i | 0 <= i < |tx.outputs| :: UTXO(tx.hash, i) := tx.outputs[i]
  }

  /**
   Adds every output of `tx` to `pool` without validating anything, as is done
   for a block's coinbase; an output id already present is overwritten.
   */
  function AddOutputs(pool: Pool, tx: Transaction): Pool {
    pool + OutputsOf(tx)
  }

  /**
   Applies an accepted transaction: its claimed outputs leave the pool, then
   its own outputs enter it.
   */
  function Apply(pool: Pool, tx: Transaction): Pool {
    (pool - Claims(tx)) + OutputsOf(tx)
  }

  /** The pool after AddOutputs: the old entries, plus `UTXO(tx.hash, i)` for each output `i`. */
  lemma AddOutputsEffect(pool: Pool, tx: Transaction)
    ensures forall u :: u in AddOutputs(pool, tx) <==> u in pool || (u.txHash == tx.hash && u.index < |tx.outputs|)
    ensures forall i :: 0 <= i < |tx.outputs| ==> AddOutputs(pool, tx)[UTXO(tx.hash, i)] == tx.outputs[i]
    ensures forall u :: u in pool && u.txHash != tx.hash ==> AddOutputs(pool, tx)[u] == pool[u]
  {
  }

  /**
   The pool after Apply: an output is present iff it was present and not
   claimed by `tx`, or `tx` created it; the entries `tx` does not touch keep their value.
   */
  lemma ApplyEffect(pool: Pool, tx: Transaction)
    ensures forall u :: u in Apply(pool, tx) <==> (u in pool && u !in Claims(tx)) || (u.txHash == tx.hash && u.index < |tx.outputs|)
    ensures forall i :: 0 <= i < |tx.outputs| ==> Apply(pool, tx)[UTXO(tx.hash, i)] == tx.outputs[i]
    ensures forall u :: u in pool && u !in Claims(tx) && u.txHash != tx.hash ==> Apply(pool, tx)[u] == pool[u]
  {
  }
}
