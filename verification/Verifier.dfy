/** What the bridge relies on: messages verified against finalized headers, and headers that were mined.  The lemmas
  hold in every state with the pallet's invariant, and so after any run (`LightClientRuns.Run`). */
module Verifier {
  import opened Primitives
  import opened EthereumHeader
  import opened LightClient
  import opened LightClientInvariant
  import opened LightClientRuns
  import EthashProof
  import ReceiptProof

  /** `values` are the proof nodes; the code ignores the other parts of a message's proof. */
  datatype Proof = Proof(blockHash: H256, txIndex: nat, keys: seq<Bytes>, values: seq<Bytes>)
  datatype Message = Message(data: Bytes, proof: Proof)

  function VerifyReceiptInclusion(codec: ReceiptProof.Codec, s: Storage, proof: Proof)
    : Result<ReceiptProof.Receipt, Error>
  {
    if proof.blockHash !in s.headers then Err(MissingHeader)
    else if !s.headers[proof.blockHash].finalized then Err(HeaderNotFinalized)
    else
      match ReceiptProof.CheckReceiptProof(codec, s.headers[proof.blockHash].header.receiptsRoot, proof.values)
      case None => Err(InvalidProof)
      case Some(receipt) => Ok(receipt)
  }

  function Verify(codec: ReceiptProof.Codec, s: Storage, message: Message): Result<ReceiptProof.Log, Error> {
    match VerifyReceiptInclusion(codec, s, message.proof)
    case Err(e) => Err(e)
    case Ok(receipt) =>
      match codec.log(message.data)
      case None => Err(InvalidProof)
      case Some(log) => if log in receipt.logs then Ok(log) else Err(InvalidProof)
  }

  /** The message's proof leads through the trie `t` to a receipt. */
  ghost predicate LeadsTo(
    codec: ReceiptProof.Codec, encode: ReceiptProof.Trie -> Bytes, t: ReceiptProof.Trie, message: Message,
    receipt: ReceiptProof.Receipt)
  {
    exists value :: ReceiptProof.IsPath(encode, t, message.proof.values, value) && codec.receipt(value) == Some(receipt)
  }

  /** It leads to no receipt. */
  ghost predicate LeadsNowhere(
    codec: ReceiptProof.Codec, encode: ReceiptProof.Trie -> Bytes, t: ReceiptProof.Trie, message: Message)
  {
    forall receipt :: !LeadsTo(codec, encode, t, message, receipt)
  }

  /** What is read of the receipt trie of the message's block. */
  lemma InclusionReads(
    codec: ReceiptProof.Codec, encode: ReceiptProof.Trie -> Bytes, inputs: iset<Bytes>, t: ReceiptProof.Trie,
    message: Message, root: H256)
    requires ReceiptProof.SoundCodec(codec, inputs) && ReceiptProof.Encodes(codec, encode, inputs, t)
    requires forall i :: 0 <= i < |message.proof.values| ==> message.proof.values[i] in inputs
    requires root == codec.keccak(encode(t))
    ensures
      match ReceiptProof.CheckReceiptProof(codec, root, message.proof.values)
      case Some(receipt) => LeadsTo(codec, encode, t, message, receipt)
      case None => LeadsNowhere(codec, encode, t, message)
    ensures forall receipt, other ::
              LeadsTo(codec, encode, t, message, receipt) && LeadsTo(codec, encode, t, message, other) ==>
                receipt == other
  {
    hide ReceiptProof.CheckReceiptProof;
    hide ReceiptProof.IsPath;
    hide ReceiptProof.SoundCodec;
    hide ReceiptProof.Encodes;
    forall receipt
      ensures ReceiptProof.CheckReceiptProof(codec, root, message.proof.values) == Some(receipt) <==>
              LeadsTo(codec, encode, t, message, receipt)
    {
      ReceiptProof.CheckReceiptProofExact(codec, encode, inputs, t, message.proof.values, receipt);
    }
  }

  /** Exactly what is answered to a message, in every state of every run.  It is verified, with the log that its data
      encodes, if its block is stored and flagged and its proof is a root-to-leaf path, through the receipt trie of that
      very block, to a receipt with that log.  Otherwise the first condition that fails decides the error. */
  lemma VerifyExact(
    env: Env, c: Chain, codec: ReceiptProof.Codec, encode: ReceiptProof.Trie -> Bytes,
    inputs: iset<Bytes>, t: ReceiptProof.Trie, message: Message, receipt: ReceiptProof.Receipt)
    requires Inv(env, c)
    requires ReceiptProof.SoundCodec(codec, inputs) && ReceiptProof.Encodes(codec, encode, inputs, t)
    requires forall i :: 0 <= i < |message.proof.values| ==> message.proof.values[i] in inputs
    requires message.proof.blockHash in c.history ==>
               c.history[message.proof.blockHash].receiptsRoot == codec.keccak(encode(t))
    ensures
      var k, answer := message.proof.blockHash, Verify(codec, c.store, message);
      && (k !in c.store.headers ==> answer == Err(MissingHeader))
      && (k in c.store.headers && k !in c.flagged ==> answer == Err(HeaderNotFinalized))
      && (k in c.store.headers && k in c.flagged && LeadsNowhere(codec, encode, t, message) ==>
            answer == Err(InvalidProof))
      && (k in c.store.headers && k in c.flagged && LeadsTo(codec, encode, t, message, receipt) ==>
            match codec.log(message.data)
            case None => answer == Err(InvalidProof)
            case Some(log) => answer == if log in receipt.logs then Ok(log) else Err(InvalidProof))
  {
    hide LeadsTo;
    hide ReceiptProof.CheckReceiptProof;
    hide ReceiptProof.SoundCodec;
    hide ReceiptProof.Encodes;
    var k := message.proof.blockHash;
    if k in c.store.headers {
      assert StoredAt(env, c, k);
      InclusionReads(codec, encode, inputs, t, message, c.history[k].receiptsRoot);
    }
    hide Inv;
  }

  /** In short: which log is verified, and when. */
  lemma VerifiesExactly(
    env: Env, c: Chain, codec: ReceiptProof.Codec, encode: ReceiptProof.Trie -> Bytes,
    inputs: iset<Bytes>, t: ReceiptProof.Trie, message: Message, log: ReceiptProof.Log)
    requires Inv(env, c)
    requires ReceiptProof.SoundCodec(codec, inputs) && ReceiptProof.Encodes(codec, encode, inputs, t)
    requires forall i :: 0 <= i < |message.proof.values| ==> message.proof.values[i] in inputs
    requires message.proof.blockHash in c.history ==>
               c.history[message.proof.blockHash].receiptsRoot == codec.keccak(encode(t))
    ensures
      var k := message.proof.blockHash;
      Verify(codec, c.store, message) == Ok(log) <==>
        && k in c.store.headers && k in c.flagged && codec.log(message.data) == Some(log)
        && exists receipt :: LeadsTo(codec, encode, t, message, receipt) && log in receipt.logs
  {
    hide LeadsTo;
    hide Verify;
    hide Inv;
    hide ReceiptProof.SoundCodec;
    hide ReceiptProof.Encodes;
    if receipt :| LeadsTo(codec, encode, t, message, receipt) {
      VerifyExact(env, c, codec, encode, inputs, t, message, receipt);
      if other :| LeadsTo(codec, encode, t, message, other) && log in other.logs {
        VerifyExact(env, c, codec, encode, inputs, t, message, other);
      }
    } else {
      VerifyExact(env, c, codec, encode, inputs, t, message, ReceiptProof.Receipt([], 0, [], []));
    }
  }

  /** A verified message comes from a block on the finalized chain, under the latest finalized block and,
      unless it is genesis, under D imported blocks. */
  lemma VerifiedIsFinal(env: Env, c: Chain, codec: ReceiptProof.Codec, message: Message)
    requires Inv(env, c) && Verify(codec, c.store, message).Ok?
    ensures
      var k := message.proof.blockHash;
      && Above(env, c.history, k, c.store.finalized.hash)
      && Above(env, c.history, k, c.store.best.hash)
      && (k != Root(env) ==> Confirmed(env, c.history, k))
  {
    var k := message.proof.blockHash;
    assert StoredAt(env, c, k);
    assert FlaggedAt(env, c, k);
    Ancestry.AncestorTransitive(c.history, Root(env), k, c.store.finalized.hash, c.store.best.hash);
  }

  /** What was verified stays verified, with the same log, until the block is pruned. */
  lemma ContinuesVerified(env: Env, c: Chain, c': Chain, codec: ReceiptProof.Codec, message: Message)
    requires Inv(env, c) && Inv(env, c') && Continues(env, c, c') && Verify(codec, c.store, message).Ok?
    ensures
      var k := message.proof.blockHash;
      && k in c'.history
      && Verify(codec, c'.store, message) ==
         (if k in c'.store.headers then Verify(codec, c.store, message) else Err(MissingHeader))
      && (k !in c'.store.headers ==> c'.history[k].number < c'.store.toPrune.oldestBlockToKeep)
  {
    hide ReceiptProof.CheckReceiptProof;
    var k := message.proof.blockHash;
    assert StoredAt(env, c, k);
    assert k in c'.store.headers ==> StoredAt(env, c', k);
    assert RetainedAt(c', k);
  }

  /** Over a run: a message verified at one point is at every later point verified with the same log, or its block was
      pruned and it is answered with `MissingHeader`. */
  lemma VerifiedStays(env: Env, calls: seq<Call>, m: nat, codec: ReceiptProof.Codec, message: Message)
    requires SoundEnv(env) && CallsIn(env, calls) && m <= |calls|
    requires Verify(codec, Run(env, calls[..m]).store, message).Ok?
    ensures
      var k, late := message.proof.blockHash, Run(env, calls);
      && k in late.history
      && Verify(codec, late.store, message) ==
         (if k in late.store.headers then Verify(codec, Run(env, calls[..m]).store, message) else Err(MissingHeader))
      && (k !in late.store.headers ==> late.history[k].number < late.store.toPrune.oldestBlockToKeep)
  {
    hide Run;
    hide Verify;
    hide SoundEnv;
    hide Inv;
    hide Continues;
    RunContinues(env, calls, m);
    ContinuesVerified(env, Run(env, calls[..m]), Run(env, calls), codec, message);
  }

  // ----- proof of work -----

  /** `t` is the dataset of the epoch of block `number`, committed by the root table. */
  ghost predicate IsDataset(env: Env, number: nat, t: EthashProof.DagTree, depth: nat) {
    var epoch := number / 30000;
    && EthashProof.Perfect(t, depth) && depth <= 64
    && epoch < |env.dagRoots| && env.dagRoots[epoch] == EthashProof.Root(env.dagHasher, t)
    && forall hash, nonce :: EthashProof.PicksBelow(env.hashimoto(hash, nonce, epoch), |EthashProof.Pairs(t)|)
  }

  /** Hashimoto over the dataset `t` gives the header's mix hash and a value under its boundary. */
  ghost predicate Mined(env: Env, header: Header, t: EthashProof.DagTree, depth: nat)
    requires IsDataset(env, header.number, t, depth)
  {
    && env.mixHash(header).Some? && env.nonce(header).Some?
    && var process := env.hashimoto(env.partialHash(header), env.nonce(header).value, header.number / 30000);
       var result := process.finish(EthashProof.FullRun(process, t, 64));
       result.mixHash == env.mixHash(header).value && result.value < env.boundary(header.difficulty)
  }

  /** The header's run of hashimoto, None if the seal does not decode. */
  function HeaderProcess(env: Env, header: Header): Option<EthashProof.Process<PowResult>> {
    match env.nonce(header)
    case None => None
    case Some(nonce) =>
      Some(env.hashimoto(env.partialHash(header), nonce, header.number / 30000))
  }

  /** Nothing that the dataset's tree hashes collides with what is hashed to check the proof for the header. */
  ghost predicate NoCollision(
    env: Env, header: Header, proof: seq<EthashProof.DoubleNode>, t: EthashProof.DagTree, inputs: EthashProof.Hashed)
  {
    && EthashProof.FreeOn(env.dagHasher, inputs) && EthashProof.TreeIn(env.dagHasher, t, inputs)
    && (HeaderProcess(env, header).Some? ==>
          EthashProof.ProofIn(env.dagHasher, HeaderProcess(env, header).value, proof, inputs))
  }

  /** The proof holds, for the header, the 64 pairs that hashimoto reads, each with its path. */
  ghost predicate ProvesWork(
    env: Env, header: Header, proof: seq<EthashProof.DoubleNode>, t: EthashProof.DagTree, depth: nat)
    requires IsDataset(env, header.number, t, depth) && HeaderProcess(env, header).Some?
  {
    && |proof| == 64
    && EthashProof.IsHonestProof(env.dagHasher, t, depth, HeaderProcess(env, header).value, proof, 64)
  }

  /** The proof-of-work check passes exactly for a header mined over the true dataset, with the honest proof. */
  lemma PowCheckExact(
    env: Env, header: Header, proof: seq<EthashProof.DoubleNode>, t: EthashProof.DagTree, depth: nat,
    inputs: EthashProof.Hashed)
    requires IsDataset(env, header.number, t, depth) && NoCollision(env, header, proof, t, inputs)
    ensures PowCheck(env, header, proof) ==
            if Mined(env, header, t, depth) && ProvesWork(env, header, proof, t, depth) then Success
            else Failure(InvalidHeader)
  {
    hide EthashProof.FreeOn;
    hide EthashProof.TreeIn;
    hide EthashProof.ProofIn;
    hide EthashProof.IsHonestProof;
    hide EthashProof.HashimotoMerkle;
    if HeaderProcess(env, header).Some? {
      var process := HeaderProcess(env, header).value;
      EthashProof.HashimotoMerkleExact(env.dagHasher, env.dagRoots, t, depth, process, header.number, proof, inputs);
    }
  }

  /** Every imported header but genesis was mined, if none of the offered proofs exhibits a collision. */
  lemma ImportedIsMined(
    env: Env, c: Chain, k: H256, t: EthashProof.DagTree, depth: nat, inputs: EthashProof.Hashed)
    requires Inv(env, c)
    requires k in c.history && k != Root(env) && IsDataset(env, c.history[k].number, t, depth)
    requires forall proof :: proof in env.proofs ==> NoCollision(env, c.history[k], proof, t, inputs)
    ensures Mined(env, c.history[k], t, depth)
  {
    assert Ancestry.LinkedAt(c.history, Root(env), k) && RecordedAt(env, c.history, k);
    var header := c.history[k];
    var proof :| proof in env.proofs && SealChecks(env, header, c.history[header.parentHash], proof) == Success;
    assert PowCheck(env, header, proof) == Success;
    hide PowCheck;
    hide NoCollision;
    PowCheckExact(env, header, proof, t, depth, inputs);
  }
}
