/** Merkle-checked Ethash, parachain/primitives/ethereum/src/ethashproof.rs.

  The Ethash dataset ("DAG") is committed by the root of a perfect binary tree
  whose leaves are pairs of 64-byte rows.  A header arrives with 64 such pairs and
  their Merkle paths; hashimoto reads its rows from the pairs instead of from the
  dataset.  The result proved here is that an accepted run is a run over the dataset.
*/
module EthashProof {
  import opened Arithmetic
  import opened Primitives

  const EPOCH_LENGTH: nat := 30000
  const MIXHASHES: nat := 2
  const ACCESSES: nat := 64

  /** One 64-byte row of the dataset. */
  type Row = Bytes

  /** A truncated SHA-256 digest. */
  datatype H128 = H128(bytes: Bytes)

  /** `leaf` hashes a pair of rows (128 bytes), `node` a pair of digests (64 bytes). */
  datatype Hasher = Hasher(leaf: (Row, Row) -> H128, node: (H128, H128) -> H128)

  /** Pairs of rows and pairs of digests that are hashed somewhere. */
  datatype Hashed = Hashed(rows: iset<(Row, Row)>, digests: iset<(H128, H128)>)

  /** No two of those inputs collide. */
  ghost predicate FreeOn(h: Hasher, inputs: Hashed) {
    && (forall p, q :: p in inputs.rows && q in inputs.rows && h.leaf(p.0, p.1) == h.leaf(q.0, q.1) ==> p == q)
    && (forall p, q :: p in inputs.digests && q in inputs.digests && h.node(p.0, p.1) == h.node(q.0, q.1) ==> p == q)
    && (forall p, q :: p in inputs.rows && q in inputs.digests ==> h.leaf(p.0, p.1) != h.node(q.0, q.1))
  }

  datatype DoubleNode = DoubleNode(first: Row, second: Row, proof: seq<H128>)

  // ----- Merkle paths -----

  /** The digest reached from `leaf` along `proof`, taking its side at level i from bit i of `index`. */
  function Climb(h: Hasher, index: nat, leaf: H128, proof: seq<H128>): H128 {
    if proof == [] then leaf
    else
      var n := |proof| - 1;
      var below := Climb(h, index, leaf, proof[..n]);
      if Bit(index, n) == 0 then h.node(below, proof[n]) else h.node(proof[n], below)
  }

  /** None is the "Failed to shift index" error. */
  function ApplyMerkleProof(h: Hasher, node: DoubleNode, index: nat): Option<H128> {
    if |node.proof| > 64 then None
    else Some(Climb(h, index, h.leaf(node.first, node.second), node.proof))
  }

  method ComputeMerkleRoot(h: Hasher, node: DoubleNode, index: U64) returns (root: Option<H128>)
    ensures root == ApplyMerkleProof(h, node, index)
  {
    var leaf := h.leaf(node.first, node.second);
    var shifted: nat := index;
    for i := 0 to |node.proof|
      invariant i <= 64
      invariant shifted == index / Pow2(i)
      invariant leaf == Climb(h, index, h.leaf(node.first, node.second), node.proof[..i])
    {
      if i >= 64 {
        return None;
      }
      assert node.proof[..i + 1][..i] == node.proof[..i];
      if shifted % 2 == 0 {
        leaf := h.node(leaf, node.proof[i]);
      } else {
        leaf := h.node(node.proof[i], leaf);
      }
      HalveQuotient(index, Pow2(i));
      shifted := shifted / 2;
    }
    assert node.proof[..|node.proof|] == node.proof;
    root := Some(leaf);
  }

  // ----- the committed dataset -----

  datatype DagTree = Leaf(first: Row, second: Row) | Node(left: DagTree, right: DagTree)

  predicate Perfect(t: DagTree, depth: nat) {
    match t
    case Leaf(_, _) => depth == 0
    case Node(l, r) => depth > 0 && Perfect(l, depth - 1) && Perfect(r, depth - 1)
  }

  function Root(h: Hasher, t: DagTree): H128 {
    match t
    case Leaf(a, b) => h.leaf(a, b)
    case Node(l, r) => h.node(Root(h, l), Root(h, r))
  }

  /** The row pairs in order. */
  function Pairs(t: DagTree): (s: seq<(Row, Row)>) {
    match t
    case Leaf(a, b) => [(a, b)]
    case Node(l, r) => Pairs(l) + Pairs(r)
  }

  lemma {:induction false} PairsCount(t: DagTree, depth: nat)
    requires Perfect(t, depth)
    ensures |Pairs(t)| == Pow2(depth)
  {
    if t.Node? {
      PairsCount(t.left, depth - 1);
      PairsCount(t.right, depth - 1);
    }
  }

  /** The siblings on the way from leaf `index` to the root, leaf end first. */
  function Path(h: Hasher, t: DagTree, depth: nat, index: nat): (s: seq<H128>)
    requires Perfect(t, depth)
    ensures |s| == depth
  {
    match t
    case Leaf(_, _) => []
    case Node(l, r) =>
      if Bit(index, depth - 1) == 0 then Path(h, l, depth - 1, index) + [Root(h, r)]
      else Path(h, r, depth - 1, index) + [Root(h, l)]
  }

  /** The pair at `index` (modulo the number of leaves), found by descending the tree. */
  lemma {:induction false} DescendPairs(t: DagTree, depth: nat, index: nat)
    requires Perfect(t, depth) && depth > 0
    ensures |Pairs(t)| == Pow2(depth) && |Pairs(t.left)| == |Pairs(t.right)| == Pow2(depth - 1)
    ensures index % Pow2(depth) < Pow2(depth) && index % Pow2(depth - 1) < Pow2(depth - 1)
    ensures Pairs(t)[index % Pow2(depth)] ==
            if Bit(index, depth - 1) == 0 then Pairs(t.left)[index % Pow2(depth - 1)]
            else Pairs(t.right)[index % Pow2(depth - 1)]
  {
    PairsCount(t, depth);
    PairsCount(t.left, depth - 1);
    PairsCount(t.right, depth - 1);
    HalveQuotient(index, Pow2(depth - 1));
  }

  /** `node` is the committed pair at `index` together with its path. */
  predicate IsCommitted(h: Hasher, t: DagTree, depth: nat, index: nat, node: DoubleNode)
    requires Perfect(t, depth)
  {
    && node.proof == Path(h, t, depth, index)
    && index % Pow2(depth) < |Pairs(t)|
    && Pairs(t)[index % Pow2(depth)] == (node.first, node.second)
  }

  /** `inputs` holds what is hashed to build the tree. */
  ghost predicate TreeIn(h: Hasher, t: DagTree, inputs: Hashed) {
    match t
    case Leaf(a, b) => (a, b) in inputs.rows
    case Node(l, r) => (Root(h, l), Root(h, r)) in inputs.digests && TreeIn(h, l, inputs) && TreeIn(h, r, inputs)
  }

  /** `inputs` holds the pairs of digests that are hashed along the proof. */
  ghost predicate ClimbIn(h: Hasher, index: nat, leaf: H128, proof: seq<H128>, inputs: Hashed)
    decreases |proof|
  {
    proof != [] ==>
      var n := |proof| - 1;
      var below := Climb(h, index, leaf, proof[..n]);
      && ClimbIn(h, index, leaf, proof[..n], inputs)
      && (if Bit(index, n) == 0 then (below, proof[n]) else (proof[n], below)) in inputs.digests
  }

  /** `inputs` holds what is hashed to check a pair from `index`. */
  ghost predicate NodeIn(h: Hasher, index: nat, node: DoubleNode, inputs: Hashed) {
    && (node.first, node.second) in inputs.rows
    && ClimbIn(h, index, h.leaf(node.first, node.second), node.proof, inputs)
  }

  lemma CommittedLeaf(h: Hasher, t: DagTree, index: nat, node: DoubleNode, inputs: Hashed)
    requires FreeOn(h, inputs) && TreeIn(h, t, inputs) && NodeIn(h, index, node, inputs) && t.Leaf?
    ensures Climb(h, index, h.leaf(node.first, node.second), node.proof) == Root(h, t)
            <==> IsCommitted(h, t, 0, index, node)
  {
    assert index % 1 == 0;
  }

  /** The last step of a climb to the root of an inner node. */
  lemma LastStep(h: Hasher, t: DagTree, index: nat, node: DoubleNode, inputs: Hashed)
    requires FreeOn(h, inputs) && TreeIn(h, t, inputs) && NodeIn(h, index, node, inputs)
    requires t.Node? && node.proof != []
    ensures
      var n := |node.proof| - 1;
      var leaf := h.leaf(node.first, node.second);
      Climb(h, index, leaf, node.proof) == Root(h, t) <==>
        if Bit(index, n) == 0
        then Climb(h, index, leaf, node.proof[..n]) == Root(h, t.left) && node.proof[n] == Root(h, t.right)
        else Climb(h, index, leaf, node.proof[..n]) == Root(h, t.right) && node.proof[n] == Root(h, t.left)
  {
    hide Bit;
    var n := |node.proof| - 1;
    var below := Climb(h, index, h.leaf(node.first, node.second), node.proof[..n]);
    assert (Root(h, t.left), Root(h, t.right)) in inputs.digests;
    if Bit(index, n) == 0 {
      assert (below, node.proof[n]) in inputs.digests;
    } else {
      assert (node.proof[n], below) in inputs.digests;
    }
  }

  lemma CommittedStep(h: Hasher, t: DagTree, depth: nat, index: nat, node: DoubleNode)
    requires Perfect(t, depth) && depth > 0 && node.proof != []
    ensures
      var n := |node.proof| - 1;
      var shorter := node.(proof := node.proof[..n]);
      && (IsCommitted(h, t, depth, index, node) <==>
            if Bit(index, depth - 1) == 0
            then IsCommitted(h, t.left, depth - 1, index, shorter) && node.proof[n] == Root(h, t.right)
            else IsCommitted(h, t.right, depth - 1, index, shorter) && node.proof[n] == Root(h, t.left))
      && (IsCommitted(h, t.left, depth - 1, index, shorter) ==> n == depth - 1)
      && (IsCommitted(h, t.right, depth - 1, index, shorter) ==> n == depth - 1)
  {
    DescendPairs(t, depth, index);
    hide Pairs;
    hide Pow2;
    var n := |node.proof| - 1;
    assert node.proof == node.proof[..n] + [node.proof[n]];
    var path := Path(h, t, depth, index);
    assert path == path[..depth - 1] + [path[depth - 1]];
  }

  lemma NoProofForNode(h: Hasher, t: DagTree, depth: nat, index: nat, node: DoubleNode, inputs: Hashed)
    requires FreeOn(h, inputs) && TreeIn(h, t, inputs) && NodeIn(h, index, node, inputs) && Perfect(t, depth)
    requires t.Node? && node.proof == []
    ensures Climb(h, index, h.leaf(node.first, node.second), node.proof) != Root(h, t)
    ensures !IsCommitted(h, t, depth, index, node)
  {
    assert h.leaf(node.first, node.second) != Root(h, t);
  }

  lemma OneLevelDown(h: Hasher, t: DagTree, index: nat, node: DoubleNode, inputs: Hashed)
    requires TreeIn(h, t, inputs) && NodeIn(h, index, node, inputs) && t.Node? && node.proof != []
    ensures TreeIn(h, t.left, inputs) && TreeIn(h, t.right, inputs)
    ensures NodeIn(h, index, node.(proof := node.proof[..|node.proof| - 1]), inputs)
  {
  }

  /** Only the committed pair, with its own path, climbs to the root from a given index, if nothing that the check
      hashes collides with what the tree hashes. */
  lemma {:induction false} Binding(h: Hasher, t: DagTree, depth: nat, index: nat, node: DoubleNode, inputs: Hashed)
    requires FreeOn(h, inputs) && TreeIn(h, t, inputs) && NodeIn(h, index, node, inputs) && Perfect(t, depth)
    ensures Climb(h, index, h.leaf(node.first, node.second), node.proof) == Root(h, t)
            <==> IsCommitted(h, t, depth, index, node)
    decreases depth
  {
    hide FreeOn;
    hide TreeIn;
    hide NodeIn;
    hide Climb;
    hide IsCommitted;
    hide Bit;
    if t.Leaf? {
      CommittedLeaf(h, t, index, node, inputs);
    } else if node.proof == [] {
      NoProofForNode(h, t, depth, index, node, inputs);
    } else {
      var shorter := node.(proof := node.proof[..|node.proof| - 1]);
      LastStep(h, t, index, node, inputs);
      OneLevelDown(h, t, index, node, inputs);
      Binding(h, t.left, depth - 1, index, shorter, inputs);
      Binding(h, t.right, depth - 1, index, shorter, inputs);
      CommittedStep(h, t, depth, index, node);
    }
  }

  /** The same for the code's function, when the index lies within the tree. */
  lemma AppliedIsCommitted(h: Hasher, t: DagTree, depth: nat, index: nat, node: DoubleNode, inputs: Hashed)
    requires FreeOn(h, inputs) && TreeIn(h, t, inputs) && (|node.proof| <= 64 ==> NodeIn(h, index, node, inputs))
    requires Perfect(t, depth) && depth <= 64 && index < |Pairs(t)|
    ensures ApplyMerkleProof(h, node, index) == Some(Root(h, t)) <==> IsCommitted(h, t, depth, index, node)
    ensures IsCommitted(h, t, depth, index, node) ==> Pairs(t)[index] == (node.first, node.second)
  {
    if |node.proof| <= 64 {
      Binding(h, t, depth, index, node, inputs);
    }
    PairsCount(t, depth);
    Quotient(index, Pow2(depth), 0, index);
  }

  // ----- hashimoto -----

  /** Hashimoto as a process of 64 rounds.  A round picks a pair `p` and reads the rows 2p and 2p + 1;
      the choice, and the result, may depend on all rows read before. */
  datatype Process<R> = Process(pick: seq<Row> -> nat, finish: seq<Row> -> R)

  ghost predicate PicksBelow<R(!new)>(process: Process<R>, pairs: nat) {
    forall served :: process.pick(served) < pairs
  }

  /** `served` is the row with both of its 32-byte halves reversed, as Ethash reads it. */
  ghost predicate IsReversed(row: Row, served: Row) {
    if |row| != 64 then served == row
    else
      && |served| == 64
      && (forall i :: 0 <= i < 32 ==> served[i] == row[31 - i])
      && (forall i :: 32 <= i < 64 ==> served[i] == row[95 - i])
  }

  lemma ReversedOnce(row: Row, a: Row, b: Row)
    requires IsReversed(row, a) && IsReversed(row, b)
    ensures a == b
  {
  }

  /** Rows are stored with both 32-byte halves reversed. */
  function Flip(row: Row): (served: Row)
    ensures IsReversed(row, served)
  {
    if |row| == 64 then Reverse(row[..32]) + Reverse(row[32..]) else row
  }

  function Reverse(s: Bytes): Bytes {
    seq(|s|, i requires 0 <= i < |s| => s[|s| - 1 - i])
  }

  /** A row of the dataset as Ethash reads it: bytes 31 down to 0, then 63 down to 32. */
  function DatasetRow(row: Row): Row {
    if |row| != 64 then row
    else seq(64, i requires 0 <= i < 64 => if i < 32 then row[31 - i] else row[95 - i])
  }

  /** The rows that `process` reads from the dataset itself in its first `rounds` rounds. */
  ghost function FullRun<R(!new)>(process: Process<R>, t: DagTree, rounds: nat): seq<Row>
    requires PicksBelow(process, |Pairs(t)|)
  {
    if rounds == 0 then []
    else
      var before := FullRun(process, t, rounds - 1);
      var pair := Pairs(t)[process.pick(before)];
      before + [DatasetRow(pair.0), DatasetRow(pair.1)]
  }

  /** The code's rows are those. */
  lemma FlipIsDatasetRow(row: Row)
    ensures Flip(row) == DatasetRow(row)
  {
    ReversedOnce(row, Flip(row), DatasetRow(row));
  }

  datatype Error = EpochOutOfRange | InvalidMerkleProof | UnexpectedNumberOfNodes

  /** The rows that the supplied nodes serve in the first `rounds` rounds, whatever is asked. */
  function Served(nodes: seq<DoubleNode>, rounds: nat): seq<Row>
    requires rounds <= |nodes|
  {
    if rounds == 0 then []
    else Served(nodes, rounds - 1) + [Flip(nodes[rounds - 1].first), Flip(nodes[rounds - 1].second)]
  }

  /** Pair `i` climbs to `root` from the position asked for. */
  predicate PairChecked<R(!new)>(
    h: Hasher, root: H128, process: Process<R>, nodes: seq<DoubleNode>, i: nat)
    requires i < |nodes|
  {
    ApplyMerkleProof(h, nodes[i], process.pick(Served(nodes, i))) == Some(root)
  }

  predicate AllChecked<R(!new)>(
    h: Hasher, root: H128, process: Process<R>, nodes: seq<DoubleNode>, rounds: nat)
    requires rounds <= |nodes|
  {
    forall i :: 0 <= i < rounds ==> PairChecked(h, root, process, nodes, i)
  }

  function HashimotoMerkle<R(!new)>(
    h: Hasher, roots: seq<H128>, process: Process<R>, number: nat, nodes: seq<DoubleNode>): Result<R, Error>
  {
    if |nodes| != ACCESSES then Err(UnexpectedNumberOfNodes)
    else if number / EPOCH_LENGTH >= |roots| then Err(EpochOutOfRange)
    else if AllChecked(h, roots[number / EPOCH_LENGTH], process, nodes, ACCESSES) then
      Ok(process.finish(Served(nodes, ACCESSES)))
    else Err(InvalidMerkleProof)
  }

  lemma NoneChecked<R(!new)>(h: Hasher, root: H128, process: Process<R>, nodes: seq<DoubleNode>)
    ensures AllChecked(h, root, process, nodes, 0)
  {
  }

  lemma AllCheckedNext<R(!new)>(h: Hasher, root: H128, process: Process<R>, nodes: seq<DoubleNode>, rounds: nat)
    requires rounds < |nodes|
    ensures AllChecked(h, root, process, nodes, rounds + 1) <==>
            AllChecked(h, root, process, nodes, rounds) && PairChecked(h, root, process, nodes, rounds)
  {
    hide PairChecked;
  }

  /** The code: hashimoto's loop around one lookup closure, which keeps a running index and a success flag. */
  method RunHashimotoMerkle<R(!new)>(
    h: Hasher, roots: seq<H128>, process: Process<R>, number: nat, nodes: seq<DoubleNode>)
    returns (result: Result<R, Error>)
    requires PicksBelow(process, TWO_64)
    ensures result == HashimotoMerkle(h, roots, process, number, nodes)
  {
    hide ApplyMerkleProof;
    hide Flip;
    hide IsReversed;
    hide AllChecked;
    if |nodes| != MIXHASHES * ACCESSES / 2 {
      return Err(UnexpectedNumberOfNodes);
    }
    var epoch := number / EPOCH_LENGTH;
    if epoch >= |roots| {
      return Err(EpochOutOfRange);
    }
    var index, success, served := 0, true, [];
    NoneChecked(h, roots[epoch], process, nodes);
    for round := 0 to ACCESSES
      invariant index == 2 * round
      invariant served == Served(nodes, round)
      invariant success <==> AllChecked(h, roots[epoch], process, nodes, round)
    {
      var pair := process.pick(served);
      var row, ok := LookUp(h, roots[epoch], nodes, index, 2 * pair);
      index, success := index + 1, success && ok;
      var row', ok' := LookUp(h, roots[epoch], nodes, index, 2 * pair + 1);
      index, success := index + 1, success && ok';
      ReversedOnce(nodes[round].first, row, Flip(nodes[round].first));
      ReversedOnce(nodes[round].second, row', Flip(nodes[round].second));
      served := served + [row, row'];
      assert success <==>
             AllChecked(h, roots[epoch], process, nodes, round) && PairChecked(h, roots[epoch], process, nodes, round);
      AllCheckedNext(h, roots[epoch], process, nodes, round);
    }
    result := if success then Ok(process.finish(served)) else Err(InvalidMerkleProof);
  }

  /** One lookup: row `index % 2` of node `index / 2`, whose path is checked on the even lookup. */
  method LookUp(h: Hasher, root: H128, nodes: seq<DoubleNode>, index: nat, offset: nat)
    returns (row: Row, ok: bool)
    requires index < 2 * |nodes| && offset / 2 < TWO_64
    ensures IsReversed(if index % 2 == 0 then nodes[index / 2].first else nodes[index / 2].second, row)
    ensures ok <==> (index % 2 == 0 ==> ApplyMerkleProof(h, nodes[index / 2], offset / 2) == Some(root))
  {
    var node := nodes[index / 2];
    ok := true;
    if index % 2 == 0 {
      var computed := ComputeMerkleRoot(h, node, offset / 2);
      ok := computed == Some(root);
    }
    row := Flip(if index % 2 == 0 then node.first else node.second);
  }

  // ----- refinement -----

  /** The pairs and paths that an honest prover sends for the run over the dataset. */
  ghost predicate IsHonestProof<R(!new)>(
    h: Hasher, t: DagTree, depth: nat, process: Process<R>, nodes: seq<DoubleNode>, rounds: nat)
    requires Perfect(t, depth) && PicksBelow(process, |Pairs(t)|) && rounds <= |nodes|
  {
    forall i :: 0 <= i < rounds ==>
      IsCommitted(h, t, depth, process.pick(FullRun(process, t, i)), nodes[i])
  }

  /** `inputs` holds what is hashed to check the supplied pairs, each from the position asked for. */
  ghost predicate ProofIn<R(!new)>(h: Hasher, process: Process<R>, nodes: seq<DoubleNode>, inputs: Hashed) {
    forall i :: 0 <= i < |nodes| && |nodes[i].proof| <= 64 ==>
      NodeIn(h, process.pick(Served(nodes, i)), nodes[i], inputs)
  }

  /** One round after an honest start. */
  lemma PairIsHonest<R(!new)>(
    h: Hasher, t: DagTree, depth: nat, process: Process<R>, nodes: seq<DoubleNode>, i: nat, inputs: Hashed)
    requires FreeOn(h, inputs) && TreeIn(h, t, inputs) && ProofIn(h, process, nodes, inputs)
    requires Perfect(t, depth) && depth <= 64 && PicksBelow(process, |Pairs(t)|)
    requires i < |nodes| && Served(nodes, i) == FullRun(process, t, i)
    ensures PairChecked(h, Root(h, t), process, nodes, i) <==>
            IsCommitted(h, t, depth, process.pick(FullRun(process, t, i)), nodes[i])
    ensures PairChecked(h, Root(h, t), process, nodes, i) ==> Served(nodes, i + 1) == FullRun(process, t, i + 1)
  {
    hide IsCommitted;
    hide ApplyMerkleProof;
    hide Flip;
    hide NodeIn;
    hide FreeOn;
    hide TreeIn;
    FlipIsDatasetRow(nodes[i].first);
    FlipIsDatasetRow(nodes[i].second);
    hide DatasetRow;
    AppliedIsCommitted(h, t, depth, process.pick(FullRun(process, t, i)), nodes[i], inputs);
  }

  /** Round by round: the checks pass exactly for the honest proof, and then the dataset's rows are served. */
  lemma {:induction false} CheckedIsHonest<R(!new)>(
    h: Hasher, t: DagTree, depth: nat, process: Process<R>, nodes: seq<DoubleNode>, rounds: nat, inputs: Hashed)
    requires FreeOn(h, inputs) && TreeIn(h, t, inputs) && ProofIn(h, process, nodes, inputs)
    requires Perfect(t, depth) && depth <= 64
    requires PicksBelow(process, |Pairs(t)|) && rounds <= |nodes|
    ensures AllChecked(h, Root(h, t), process, nodes, rounds) <==> IsHonestProof(h, t, depth, process, nodes, rounds)
    ensures IsHonestProof(h, t, depth, process, nodes, rounds) ==>
              Served(nodes, rounds) == FullRun(process, t, rounds)
  {
    hide IsCommitted;
    hide PairChecked;
    hide ProofIn;
    hide FreeOn;
    hide TreeIn;
    if rounds > 0 {
      var i := rounds - 1;
      CheckedIsHonest(h, t, depth, process, nodes, i, inputs);
      assert AllChecked(h, Root(h, t), process, nodes, rounds) <==>
             AllChecked(h, Root(h, t), process, nodes, i) && PairChecked(h, Root(h, t), process, nodes, i);
      assert IsHonestProof(h, t, depth, process, nodes, rounds) <==>
             && IsHonestProof(h, t, depth, process, nodes, i)
             && IsCommitted(h, t, depth, process.pick(FullRun(process, t, i)), nodes[i]);
      if IsHonestProof(h, t, depth, process, nodes, i) {
        PairIsHonest(h, t, depth, process, nodes, i, inputs);
      }
    }
  }

  /** Main result.  With a root that commits to the dataset `t`, and no collision among what the dataset's tree and the
      checks hash, exactly the honest proof of 64 pairs is accepted, and then the answer is that of hashimoto over the
      full dataset.  Otherwise the error says what is wrong. */
  lemma HashimotoMerkleExact<R(!new)>(
    h: Hasher, roots: seq<H128>, t: DagTree, depth: nat, process: Process<R>, number: nat, nodes: seq<DoubleNode>,
    inputs: Hashed)
    requires FreeOn(h, inputs) && TreeIn(h, t, inputs) && ProofIn(h, process, nodes, inputs)
    requires Perfect(t, depth) && depth <= 64
    requires PicksBelow(process, |Pairs(t)|)
    requires number / 30000 < |roots| && roots[number / 30000] == Root(h, t)
    ensures HashimotoMerkle(h, roots, process, number, nodes) ==
            if |nodes| != 64 then Err(UnexpectedNumberOfNodes)
            else if IsHonestProof(h, t, depth, process, nodes, 64) then Ok(process.finish(FullRun(process, t, 64)))
            else Err(InvalidMerkleProof)
  {
    if |nodes| == ACCESSES {
      CheckedIsHonest(h, t, depth, process, nodes, ACCESSES, inputs);
    }
  }

  /** Without a root for the epoch nothing is accepted. */
  lemma NoRootNoProof<R(!new)>(
    h: Hasher, roots: seq<H128>, process: Process<R>, number: nat, nodes: seq<DoubleNode>)
    requires number / 30000 >= |roots|
    ensures HashimotoMerkle(h, roots, process, number, nodes) ==
            Err(if |nodes| != 64 then UnexpectedNumberOfNodes else EpochOutOfRange)
  {
  }
}
