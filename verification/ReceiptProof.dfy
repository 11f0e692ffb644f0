/** Receipt inclusion proofs, parachain/primitives/ethereum/src/header.rs and mpt.rs.

  A proof is a list of trie nodes, root first.  The code folds it from the last node
  upwards: each node must contain the hash of the node below it.  The result proved
  here is that, against the root of a receipt trie, exactly the node lists of
  root-to-leaf paths of that trie are accepted.
*/
module ReceiptProof {
  import opened Primitives

  datatype Log = Log(address: Bytes, topics: seq<H256>, data: Bytes)
  datatype Receipt = Receipt(postStateOrStatus: Bytes, cumulativeGasUsed: U64, bloom: Bytes, logs: seq<Log>)

  /** An item of an RLP list: a byte string or a nested list. */
  datatype Item = Str(bytes: Bytes) | List

  /** Keccak and the RLP decoders.  `items` is None for what is not an RLP list. */
  datatype Codec = Codec(
    keccak: Bytes -> H256,
    items: Bytes -> Option<seq<Item>>,
    receipt: Bytes -> Option<Receipt>,
    log: Bytes -> Option<Log>)

  datatype Node = FullNode(children: seq<Option<H256>>) | ShortNode(key: Bytes, value: Bytes)

  // ----- mpt.rs -----

  predicate IsChild(item: Item) {
    item.Str? && (|item.bytes| == 0 || |item.bytes| == 32)
  }

  function DecodeFull(items: seq<Item>): Option<Node> {
    if forall i :: 0 <= i < |items| ==> IsChild(items[i]) then
      Some(FullNode(seq(|items|, i requires 0 <= i < |items| =>
        if IsChild(items[i]) && items[i].bytes != [] then Some(H256(items[i].bytes)) else None)))
    else None
  }

  /** Reads the first two items and does not look for more. */
  function DecodeShort(items: seq<Item>): Option<Node> {
    if |items| >= 2 && items[0].Str? && items[1].Str? then Some(ShortNode(items[0].bytes, items[1].bytes))
    else None
  }

  function DecodeNode(codec: Codec, bytes: Bytes): Option<Node> {
    match codec.items(bytes)
    case None => None
    case Some(items) =>
      if |items| == 2 then DecodeShort(items)
      else if |items| == 17 then DecodeFull(items)
      else None
  }

  predicate ContainsHash(node: Node, hash: H256) {
    match node
    case FullNode(children) => Some(hash) in children
    case ShortNode(_, value) => value == hash.bytes
  }

  // ----- header.rs -----

  /** The fold over the proof from its last node upwards. */
  function FoldHashes(codec: Codec, proof: seq<Bytes>): Option<H256>
    requires proof != []
  {
    if |proof| == 1 then Some(codec.keccak(proof[0]))
    else
      match (FoldHashes(codec, proof[1..]), DecodeNode(codec, proof[0]))
      case (Some(expected), Some(node)) => if ContainsHash(node, expected) then Some(codec.keccak(proof[0])) else None
      case _ => None
  }

  /** The value of the last node, read as a short node whatever its length. */
  function ProvenValue(codec: Codec, last: Bytes): Option<Bytes> {
    match codec.items(last)
    case None => None
    case Some(items) =>
      match DecodeShort(items)
      case Some(ShortNode(_, value)) => Some(value)
      case _ => None
  }

  function ApplyMerkleProof(codec: Codec, proof: seq<Bytes>): Option<(H256, Bytes)> {
    if proof == [] then None
    else
      match (ProvenValue(codec, proof[|proof| - 1]), FoldHashes(codec, proof))
      case (Some(value), Some(hash)) => Some((hash, value))
      case _ => None
  }

  function CheckReceiptProof(codec: Codec, receiptsRoot: H256, proof: seq<Bytes>): Option<Receipt> {
    match ApplyMerkleProof(codec, proof)
    case Some((root, data)) => if root == receiptsRoot then codec.receipt(data) else None
    case None => None
  }

  // ----- the receipt trie -----

  /** A receipt trie; no key is a prefix of another, so branches hold no values. */
  datatype Trie =
    | Branch(children: seq<Option<Trie>>)
    | Extension(key: Bytes, child: Trie)
    | Leaf(key: Bytes, value: Bytes)

  /** What is known of the encoding of the trie `t` and all its nodes: each node decodes to its items, with its
      children by hash, and is among the inputs on which Keccak does not collide. */
  ghost predicate Encodes(codec: Codec, encode: Trie -> Bytes, inputs: iset<Bytes>, t: Trie) {
    && encode(t) in inputs
    && match t
       case Branch(children) =>
         && |children| == 16
         && (forall i :: 0 <= i < 16 && children[i].Some? ==> Encodes(codec, encode, inputs, children[i].value))
         && codec.items(encode(t)) == Some(BranchItems(codec, encode, children))
       case Extension(key, child) =>
         && Encodes(codec, encode, inputs, child)
         && codec.items(encode(t)) == Some([Str(key), Str(codec.keccak(encode(child)).bytes)])
       case Leaf(key, value) =>
         && |value| > 32
         && codec.items(encode(t)) == Some([Str(key), Str(value)])
  }

  ghost function BranchItems(codec: Codec, encode: Trie -> Bytes, children: seq<Option<Trie>>): (items: seq<Item>)
    requires |children| == 16
  {
    seq(17, i requires 0 <= i < 17 =>
      if i < 16 && children[i].Some? then Str(codec.keccak(encode(children[i].value)).bytes) else Str([]))
  }

  /** What is known of Keccak and of receipts: digests have 32 bytes and do not collide on the inputs
      at hand; a receipt carries a 256-byte bloom, so nothing of 32 bytes or less decodes to one. */
  ghost predicate SoundCodec(codec: Codec, inputs: iset<Bytes>) {
    && CollisionFreeOn(codec.keccak, inputs)
    && (forall bytes :: |codec.keccak(bytes).bytes| == 32)
    && (forall bytes :: codec.receipt(bytes).Some? ==> |bytes| > 32)
  }

  predicate IsChildOf(t: Trie, child: Trie) {
    match t
    case Branch(children) => Some(child) in children
    case Extension(_, c) => c == child
    case Leaf(_, _) => false
  }

  /** `proof` lists the nodes from `t` down to a leaf that holds `value`. */
  ghost predicate IsPath(encode: Trie -> Bytes, t: Trie, proof: seq<Bytes>, value: Bytes)
    decreases |proof|
  {
    && proof != []
    && proof[0] == encode(t)
    && (if t.Leaf? then |proof| == 1 && t.value == value
        else |proof| > 1 && exists child :: IsChildOf(t, child) && IsPath(encode, child, proof[1..], value))
  }

  // ----- proofs -----

  /** A node contains exactly the hashes of its children. */
  lemma NodeContains(codec: Codec, encode: Trie -> Bytes, inputs: iset<Bytes>, t: Trie, h: H256)
    requires SoundCodec(codec, inputs) && Encodes(codec, encode, inputs, t) && |h.bytes| == 32
    ensures DecodeNode(codec, encode(t)).Some?
            || t.Leaf?
    ensures DecodeNode(codec, encode(t)).Some? && ContainsHash(DecodeNode(codec, encode(t)).value, h) ==>
              exists child :: IsChildOf(t, child) && codec.keccak(encode(child)) == h
    ensures forall child :: IsChildOf(t, child) && codec.keccak(encode(child)) == h ==>
              ContainsHash(DecodeNode(codec, encode(t)).value, h)
  {
    match t
    case Branch(children) =>
      var node := DecodeFull(BranchItems(codec, encode, children));
      if ContainsHash(node.value, h) {
        var i :| 0 <= i < 17 && node.value.children[i] == Some(h);
        assert children[i] in children && IsChildOf(t, children[i].value);
      }
      forall child | IsChildOf(t, child) && codec.keccak(encode(child)) == h
        ensures ContainsHash(node.value, h)
      {
        var i :| 0 <= i < 16 && children[i] == Some(child);
        assert node.value.children[i] == Some(h);
      }
    case Extension(_, child) =>
      assert H256(codec.keccak(encode(child)).bytes) == codec.keccak(encode(child));
    case Leaf(_, _) =>
  }

  lemma ChildEncodes(codec: Codec, encode: Trie -> Bytes, inputs: iset<Bytes>, t: Trie, child: Trie)
    requires Encodes(codec, encode, inputs, t) && IsChildOf(t, child)
    ensures Encodes(codec, encode, inputs, child)
  {
    if t.Branch? {
      var i :| 0 <= i < |t.children| && t.children[i] == Some(child);
    }
  }

  /** Read as a short node, no inner node yields a receipt. */
  lemma OnlyLeavesHoldReceipts(codec: Codec, encode: Trie -> Bytes, inputs: iset<Bytes>, t: Trie, value: Bytes)
    requires SoundCodec(codec, inputs) && Encodes(codec, encode, inputs, t)
    requires ProvenValue(codec, encode(t)) == Some(value) && codec.receipt(value).Some?
    ensures t.Leaf? && t.value == value
  {
  }

  /** Only the nodes of a path fold to the hash of `t` and end in a receipt. */
  lemma {:induction false} FoldSound(
    codec: Codec, encode: Trie -> Bytes, inputs: iset<Bytes>, t: Trie, proof: seq<Bytes>, value: Bytes)
    requires SoundCodec(codec, inputs) && Encodes(codec, encode, inputs, t)
    requires proof != [] && (forall i :: 0 <= i < |proof| ==> proof[i] in inputs)
    requires FoldHashes(codec, proof) == Some(codec.keccak(encode(t)))
    requires ProvenValue(codec, proof[|proof| - 1]) == Some(value) && codec.receipt(value).Some?
    ensures IsPath(encode, t, proof, value)
    decreases |proof|
  {
    assert encode(t) in inputs && proof[0] == encode(t);
    hide Encodes;
    if |proof| == 1 {
      OnlyLeavesHoldReceipts(codec, encode, inputs, t, value);
    } else {
      var rest := proof[1..];
      var h := FoldHashes(codec, rest).value;
      assert h == codec.keccak(rest[0]);
      NodeContains(codec, encode, inputs, t, h);
      var child :| IsChildOf(t, child) && codec.keccak(encode(child)) == h;
      ChildEncodes(codec, encode, inputs, t, child);
      assert forall i :: 0 <= i < |rest| ==> rest[i] == proof[i + 1];
      FoldSound(codec, encode, inputs, child, rest, value);
      assert IsChildOf(t, child) && IsPath(encode, child, proof[1..], value);
    }
  }

  lemma LeafProvesValue(codec: Codec, encode: Trie -> Bytes, inputs: iset<Bytes>, t: Trie)
    requires t.Leaf? && Encodes(codec, encode, inputs, t)
    ensures ProvenValue(codec, encode(t)) == Some(t.value)
  {
  }

  lemma {:induction false} FoldComplete(
    codec: Codec, encode: Trie -> Bytes, inputs: iset<Bytes>, t: Trie, proof: seq<Bytes>, value: Bytes)
    requires SoundCodec(codec, inputs) && Encodes(codec, encode, inputs, t)
    requires IsPath(encode, t, proof, value)
    ensures FoldHashes(codec, proof) == Some(codec.keccak(encode(t)))
    ensures ProvenValue(codec, proof[|proof| - 1]) == Some(value)
    decreases |proof|
  {
    hide Encodes;
    if t.Leaf? {
      LeafProvesValue(codec, encode, inputs, t);
    } else {
      var rest := proof[1..];
      var child :| IsChildOf(t, child) && IsPath(encode, child, rest, value);
      ChildEncodes(codec, encode, inputs, t, child);
      FoldComplete(codec, encode, inputs, child, rest, value);
      NodeContains(codec, encode, inputs, t, codec.keccak(encode(child)));
    }
  }

  /** Main result.  A receipt is accepted against the root of a trie exactly when the proof lists a
      root-to-leaf path of that trie and the receipt is what the leaf's value decodes to. */
  lemma CheckReceiptProofExact(
    codec: Codec, encode: Trie -> Bytes, inputs: iset<Bytes>, t: Trie, proof: seq<Bytes>, receipt: Receipt)
    requires SoundCodec(codec, inputs) && Encodes(codec, encode, inputs, t)
    requires forall i :: 0 <= i < |proof| ==> proof[i] in inputs
    ensures CheckReceiptProof(codec, codec.keccak(encode(t)), proof) == Some(receipt) <==>
            exists value :: IsPath(encode, t, proof, value) && codec.receipt(value) == Some(receipt)
  {
    if CheckReceiptProof(codec, codec.keccak(encode(t)), proof) == Some(receipt) {
      var value := ProvenValue(codec, proof[|proof| - 1]).value;
      FoldSound(codec, encode, inputs, t, proof, value);
      assert IsPath(encode, t, proof, value) && codec.receipt(value) == Some(receipt);
    }
    if value :| IsPath(encode, t, proof, value) && codec.receipt(value) == Some(receipt) {
      FoldComplete(codec, encode, inputs, t, proof, value);
    }
  }
}
