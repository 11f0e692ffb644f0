/** The relayer's Merkle tree, relayer/crypto/merkle/merkle.go, and the contract that checks its proofs,
  ethereum/contracts/utils/MerkleProof.sol.

  A level with an odd number of digests promotes its last one unchanged.  The path of
  a leaf therefore has no entry at a level where it is promoted, and which entries it
  has, and on which side, is a function of the leaf's index and the number of leaves.
*/
module MerkleTree {
  import opened Primitives
  import opened Arithmetic

  datatype Digest = Digest(bytes: Bytes)

  /** `leaf` hashes a pre-leaf, `node` the concatenation of two digests. */
  datatype Hasher = Hasher(leaf: Bytes -> Digest, node: (Digest, Digest) -> Digest)

  datatype Position = Left | Right

  /** A step of a path: the sibling's digest and the side it is on. */
  datatype PathNode = PathNode(hash: Digest, position: Position)

  type Pair = (Digest, Digest)

  /** The pair hash has no collision among the pairs in `inputs`. */
  ghost predicate FreeOn(h: Hasher, inputs: iset<Pair>) {
    forall p, q :: p in inputs && q in inputs && h.node(p.0, p.1) == h.node(q.0, q.1) ==> p == q
  }

  // ----- specification -----

  function Half(n: nat): nat { (n + 1) / 2 }

  /** Entry `i` of the level above `level`. */
  function Merged(h: Hasher, level: seq<Digest>, i: nat): Digest
    requires i < Half(|level|)
  {
    if 2 * i + 1 < |level| then h.node(level[2 * i], level[2 * i + 1]) else level[2 * i]
  }

  function LevelUp(h: Hasher, level: seq<Digest>): seq<Digest> {
    seq(Half(|level|), i requires 0 <= i < Half(|level|) => Merged(h, level, i))
  }

  function MerkleRoot(h: Hasher, level: seq<Digest>): Digest
    requires level != []
    decreases |level|
  {
    if |level| == 1 then level[0] else MerkleRoot(h, LevelUp(h, level))
  }

  /** Number of halvings, rounding up, from `n` to 1. */
  function Depth(n: nat): nat
    requires n > 0
  {
    if n == 1 then 0 else 1 + Depth(Half(n))
  }

  predicate Promoted(i: nat, n: nat) {
    i + 1 == n && n % 2 != 0
  }

  function Sibling(level: seq<Digest>, i: nat): PathNode
    requires i < |level| && !Promoted(i, |level|)
  {
    if i % 2 != 0 then PathNode(level[i - 1], Left) else PathNode(level[i + 1], Right)
  }

  function PathOf(h: Hasher, level: seq<Digest>, i: nat): seq<PathNode>
    requires i < |level|
    decreases |level|
  {
    if |level| == 1 then []
    else if Promoted(i, |level|) then PathOf(h, LevelUp(h, level), i / 2)
    else [Sibling(level, i)] + PathOf(h, LevelUp(h, level), i / 2)
  }

  lemma PathStep(h: Hasher, level: seq<Digest>, i: nat)
    requires i < |level| && Depth(|level|) > 0
    ensures i / 2 < |LevelUp(h, level)|
    ensures PathOf(h, level, i) ==
            (if Promoted(i, |level|) then [] else [Sibling(level, i)]) + PathOf(h, LevelUp(h, level), i / 2)
  {
    assert |level| > 1;
    StepUp(h, level, i);
    hide LevelUp;
    hide Depth;
    hide Promoted;
    hide Sibling;
  }

  lemma PathEnds(h: Hasher, level: seq<Digest>, i: nat)
    requires i < |level| && Depth(|level|) == 0
    ensures PathOf(h, level, i) == []
  {
  }

  /** The sides of the path of leaf `i` among `n`. */
  function Shape(i: nat, n: nat): seq<Position>
    requires i < n
    decreases n
  {
    if n == 1 then []
    else if Promoted(i, n) then Shape(i / 2, Half(n))
    else [if i % 2 != 0 then Left else Right] + Shape(i / 2, Half(n))
  }

  function Positions(path: seq<PathNode>): seq<Position> {
    seq(|path|, k requires 0 <= k < |path| => path[k].position)
  }

  function Hashes(path: seq<PathNode>): seq<Digest> {
    seq(|path|, k requires 0 <= k < |path| => path[k].hash)
  }

  function Combine(h: Hasher, hash: Digest, step: PathNode): Digest {
    match step.position
    case Left => h.node(step.hash, hash)
    case Right => h.node(hash, step.hash)
  }

  function Fold(h: Hasher, hash: Digest, path: seq<PathNode>): Digest
    decreases |path|
  {
    if path == [] then hash else Fold(h, Combine(h, hash, path[0]), path[1..])
  }

  // ----- which pairs are hashed -----

  /** `inputs` holds the pairs that are hashed to build the tree upon `level`. */
  ghost predicate TreeIn(h: Hasher, level: seq<Digest>, inputs: iset<Pair>)
    decreases |level|
  {
    |level| > 1 ==>
      && (forall i :: 0 <= i < |level| && i % 2 == 0 && i + 1 < |level| ==> (level[i], level[i + 1]) in inputs)
      && TreeIn(h, LevelUp(h, level), inputs)
  }

  /** The pair that `Combine` hashes. */
  function CombinedPair(hash: Digest, step: PathNode): Pair {
    match step.position
    case Left => (step.hash, hash)
    case Right => (hash, step.hash)
  }

  /** `inputs` holds the pairs that are hashed along the path. */
  ghost predicate FoldsIn(h: Hasher, hash: Digest, path: seq<PathNode>, inputs: iset<Pair>)
    decreases |path|
  {
    path != [] ==>
      CombinedPair(hash, path[0]) in inputs && FoldsIn(h, Combine(h, hash, path[0]), path[1..], inputs)
  }

  // ----- properties of the specification -----

  /** `Depth` is the binary logarithm rounded up. */
  lemma {:induction false} DepthIsCeilLog2(n: nat)
    requires n > 0
    ensures n <= Pow2(Depth(n))
    ensures n > 1 ==> Pow2(Depth(n) - 1) < n
  {
    if n > 1 {
      DepthIsCeilLog2(Half(n));
    }
  }

  /** One level up, an entry is promoted or combined with its sibling. */
  lemma StepUp(h: Hasher, level: seq<Digest>, i: nat)
    requires i < |level|
    ensures i / 2 < |LevelUp(h, level)| == Half(|level|)
    ensures LevelUp(h, level)[i / 2] ==
            if Promoted(i, |level|) then level[i] else Combine(h, level[i], Sibling(level, i))
  {
    assert LevelUp(h, level)[i / 2] == Merged(h, level, i / 2);
    assert i == 2 * (i / 2) + i % 2;
  }

  lemma {:induction false} PathComplete(h: Hasher, level: seq<Digest>, i: nat)
    requires i < |level|
    ensures Fold(h, level[i], PathOf(h, level, i)) == MerkleRoot(h, level)
    decreases |level|
  {
    if |level| > 1 {
      StepUp(h, level, i);
      hide LevelUp;
      var up := LevelUp(h, level);
      PathComplete(h, up, i / 2);
      if !Promoted(i, |level|) {
        hide Promoted;
        var path := PathOf(h, level, i);
        assert path == [Sibling(level, i)] + path[1..];
        assert path[1..] == PathOf(h, up, i / 2);
      }
    }
  }

  lemma {:induction false} PathShape(h: Hasher, level: seq<Digest>, i: nat)
    requires i < |level|
    ensures Positions(PathOf(h, level, i)) == Shape(i, |level|)
    decreases |level|
  {
    if |level| > 1 {
      var up := LevelUp(h, level);
      PathShape(h, up, i / 2);
      if !Promoted(i, |level|) {
        assert PathOf(h, level, i) == [Sibling(level, i)] + PathOf(h, up, i / 2);
        PositionsCons(Sibling(level, i), PathOf(h, up, i / 2));
      }
    }
  }

  lemma PositionsCons(step: PathNode, path: seq<PathNode>)
    ensures Positions([step] + path) == [step.position] + Positions(path)
  {
  }

  /** Binding: if no pair hashed by the tree collides with one hashed along the path, a path of the shape of leaf `i`
      that recomputes the root starts at the leaf that really is at `i`, and is its path. */
  lemma {:induction false} PathBinds(
    h: Hasher, level: seq<Digest>, i: nat, hash: Digest, path: seq<PathNode>, inputs: iset<Pair>)
    requires FreeOn(h, inputs) && TreeIn(h, level, inputs) && FoldsIn(h, hash, path, inputs)
    requires i < |level| && Positions(path) == Shape(i, |level|)
    requires Fold(h, hash, path) == MerkleRoot(h, level)
    ensures hash == level[i] && path == PathOf(h, level, i)
    decreases |level|
  {
    assert |path| == |Positions(path)|;
    if |level| > 1 {
      StepUp(h, level, i);
      hide LevelUp;
      var up := LevelUp(h, level);
      if Promoted(i, |level|) {
        PathBinds(h, up, i / 2, hash, path, inputs);
      } else {
        SiblingIn(h, level, i, inputs);
        hide Promoted;
        hide TreeIn;
        SplitShape(path, i, |level|);
        TreeInUp(h, level, inputs);
        PathBinds(h, up, i / 2, Combine(h, hash, path[0]), path[1..], inputs);
        assert path[0].position == Sibling(level, i).position;
        assert CombinedPair(hash, path[0]) == CombinedPair(level[i], Sibling(level, i));
        assert path == [Sibling(level, i)] + path[1..];
      }
    }
  }

  lemma TreeInUp(h: Hasher, level: seq<Digest>, inputs: iset<Pair>)
    requires TreeIn(h, level, inputs) && |level| > 1
    ensures TreeIn(h, LevelUp(h, level), inputs)
  {
  }

  lemma SiblingIn(h: Hasher, level: seq<Digest>, i: nat, inputs: iset<Pair>)
    requires TreeIn(h, level, inputs) && i < |level| && |level| > 1 && !Promoted(i, |level|)
    ensures CombinedPair(level[i], Sibling(level, i)) in inputs
  {
    var k := if i % 2 == 0 then i else i - 1;
    assert (level[k], level[k + 1]) in inputs;
  }

  lemma SplitShape(path: seq<PathNode>, i: nat, n: nat)
    requires i < n && n > 1 && !Promoted(i, n) && Positions(path) == Shape(i, n)
    ensures path != [] && path[0].position == (if i % 2 != 0 then Left else Right)
    ensures Positions(path[1..]) == Shape(i / 2, Half(n))
  {
    assert |path| == |Positions(path)| > 0;
    assert path[0].position == Positions(path)[0];
    assert path == [path[0]] + path[1..];
    PositionsCons(path[0], path[1..]);
    assert Positions(path)[1..] == Positions(path[1..]);
  }

  // ----- the contract's verifier -----

  /** `computeRootFromProofAtPosition`; None is a revert.  Proof entries beyond the needed ones are ignored. */
  method ComputeRootFromProofAtPosition(h: Hasher, leaf: Digest, pos: nat, width: nat, proof: seq<Digest>)
    returns (root: Option<Digest>)
    ensures root == RootAtPosition(h, leaf, pos, width, proof)
  {
    if pos >= width {
      return None;
    }
    var computed, p, w, i := leaf, pos, width, 0;
    while w > 1
      invariant p < w && i <= |proof|
      invariant RootAtPosition(h, computed, p, w, proof[i..]) == RootAtPosition(h, leaf, pos, width, proof)
    {
      var computedHashLeft := p % 2 == 0;
      if p + 1 == w && computedHashLeft {
        p, w := p / 2, (w - 1) / 2 + 1;
        continue;
      }
      if i >= |proof| {
        return None;
      }
      assert proof[i..][1..] == proof[i + 1..];
      computed := if computedHashLeft then h.node(computed, proof[i]) else h.node(proof[i], computed);
      p, w, i := p / 2, (w - 1) / 2 + 1, i + 1;
    }
    root := Some(computed);
  }

  function RootAtPosition(h: Hasher, leaf: Digest, pos: nat, width: nat, proof: seq<Digest>): Option<Digest>
    decreases width
  {
    if pos >= width then None
    else if width == 1 then Some(leaf)
    else if pos + 1 == width && pos % 2 == 0 then RootAtPosition(h, leaf, pos / 2, Half(width), proof)
    else if proof == [] then None
    else
      var above := if pos % 2 == 0 then h.node(leaf, proof[0]) else h.node(proof[0], leaf);
      RootAtPosition(h, above, pos / 2, Half(width), proof[1..])
  }

  /** The digests of a hash-only proof, with the sides put back. */
  function WithSides(hashes: seq<Digest>, sides: seq<Position>): seq<PathNode>
    requires |hashes| == |sides|
  {
    seq(|sides|, k requires 0 <= k < |sides| => PathNode(hashes[k], sides[k]))
  }

  /** The contract folds the path whose sides are the shape of the position: nothing is lost by leaving them out. */
  lemma {:induction false} RootAtPositionFolds(h: Hasher, leaf: Digest, pos: nat, width: nat, proof: seq<Digest>)
    requires pos < width
    ensures
      var sides := Shape(pos, width);
      RootAtPosition(h, leaf, pos, width, proof) ==
        if |proof| < |sides| then None else Some(Fold(h, leaf, WithSides(proof[..|sides|], sides)))
    decreases width
  {
    hide Fold;
    hide WithSides;
    if width == 1 {
      FoldNothing(h, leaf, proof[..0]);
    } else if Promoted(pos, width) {
      RootAtPositionFolds(h, leaf, pos / 2, Half(width), proof);
    } else if proof != [] {
      var sides := Shape(pos, width);
      var above := Combine(h, leaf, PathNode(proof[0], sides[0]));
      RootAtPositionFolds(h, above, pos / 2, Half(width), proof[1..]);
      if |proof| >= |sides| {
        FoldFirst(h, leaf, proof[..|sides|], sides);
        assert proof[..|sides|][1..] == proof[1..][..|sides| - 1];
        assert sides[1..] == Shape(pos / 2, Half(width));
      }
    }
  }

  lemma FoldNothing(h: Hasher, leaf: Digest, hashes: seq<Digest>)
    requires hashes == []
    ensures Fold(h, leaf, WithSides(hashes, [])) == leaf
  {
  }

  lemma FoldFirst(h: Hasher, leaf: Digest, hashes: seq<Digest>, sides: seq<Position>)
    requires |hashes| == |sides| > 0
    ensures Fold(h, leaf, WithSides(hashes, sides)) ==
            Fold(h, Combine(h, leaf, PathNode(hashes[0], sides[0])), WithSides(hashes[1..], sides[1..]))
  {
    assert WithSides(hashes, sides)[1..] == WithSides(hashes[1..], sides[1..]);
  }

  /** The contract accepts the digests of a leaf's path. */
  lemma ContractAcceptsPath(h: Hasher, leaves: seq<Digest>, pos: nat)
    requires pos < |leaves|
    ensures RootAtPosition(h, leaves[pos], pos, |leaves|, Hashes(PathOf(h, leaves, pos))) == Some(MerkleRoot(h, leaves))
  {
    var path := PathOf(h, leaves, pos);
    var sides := Shape(pos, |leaves|);
    RootAtPositionFolds(h, leaves[pos], pos, |leaves|, Hashes(path));
    PathShape(h, leaves, pos);
    PathComplete(h, leaves, pos);
    assert |path| == |Positions(path)| == |sides|;
    assert Hashes(path)[..|sides|] == Hashes(path);
    assert WithSides(Hashes(path), sides) == path by {
      forall k | 0 <= k < |path| ensures WithSides(Hashes(path), sides)[k] == path[k] {
        assert path[k].position == Positions(path)[k];
      }
    }
  }

  /** What the contract accepts for the root of `leaves`, if no pair hashed by the tree collides with one that the
      contract hashes: exactly the leaf at the position, with the digests of its path and anything after them. */
  lemma ContractAcceptsExactly(
    h: Hasher, leaves: seq<Digest>, pos: nat, leaf: Digest, proof: seq<Digest>, inputs: iset<Pair>)
    requires FreeOn(h, inputs) && TreeIn(h, leaves, inputs) && pos < |leaves|
    requires
      var sides := Shape(pos, |leaves|);
      |proof| >= |sides| ==> FoldsIn(h, leaf, WithSides(proof[..|sides|], sides), inputs)
    ensures RootAtPosition(h, leaf, pos, |leaves|, proof) == Some(MerkleRoot(h, leaves)) <==>
            leaf == leaves[pos] && Hashes(PathOf(h, leaves, pos)) <= proof
  {
    var sides := Shape(pos, |leaves|);
    var path := PathOf(h, leaves, pos);
    RootAtPositionFolds(h, leaf, pos, |leaves|, proof);
    PathShape(h, leaves, pos);
    assert |path| == |Positions(path)| == |sides|;
    if |proof| >= |sides| {
      var given := WithSides(proof[..|sides|], sides);
      assert Positions(given) == sides;
      if Fold(h, leaf, given) == MerkleRoot(h, leaves) {
        PathBinds(h, leaves, pos, leaf, given, inputs);
        assert Hashes(given) == proof[..|sides|];
      }
      if leaf == leaves[pos] && Hashes(path) <= proof {
        PathComplete(h, leaves, pos);
        assert given == path by {
          forall k | 0 <= k < |sides| ensures given[k] == path[k] {
            assert path[k].position == Positions(path)[k];
            assert path[k].hash == Hashes(path)[k];
          }
        }
      }
    }
  }

  // ----- the relayer's tree -----

  function LeafHashes(h: Hasher, preLeaves: seq<Bytes>): seq<Digest> {
    seq(|preLeaves|, i requires 0 <= i < |preLeaves| => h.leaf(preLeaves[i]))
  }

  /** The first index of `leaf`, if any. */
  function FirstIndex(leaves: seq<Digest>, leaf: Digest): (i: int)
    ensures -1 <= i < |leaves|
    ensures i >= 0 ==> leaves[i] == leaf && leaf !in leaves[..i]
    ensures i == -1 <==> leaf !in leaves
  {
    if leaves == [] then -1
    else if leaves[0] == leaf then 0
    else
      var i := FirstIndex(leaves[1..], leaf);
      if i == -1 then -1 else i + 1
  }

  lemma {:induction false} FirstIndexLeast(leaves: seq<Digest>, j: nat)
    requires j < |leaves|
    ensures 0 <= FirstIndex(leaves, leaves[j]) <= j
    ensures (forall i :: 0 <= i < j ==> leaves[i] != leaves[j]) ==> FirstIndex(leaves, leaves[j]) == j
  {
    if leaves[0] != leaves[j] {
      FirstIndexLeast(leaves[1..], j - 1);
    }
  }

  /** All levels, the root's first and the leaves' last. */
  ghost predicate Built(h: Hasher, levels: seq<seq<Digest>>) {
    && levels != []
    && (forall i :: 0 <= i < |levels| ==> levels[i] != [] && Depth(|levels[i]|) == i)
    && (forall i :: 0 < i < |levels| ==> levels[i - 1] == LevelUp(h, levels[i]))
  }

  /** The top level holds one digest, the root of any level. */
  lemma {:induction false} BuiltRoot(h: Hasher, levels: seq<seq<Digest>>, i: nat)
    requires Built(h, levels) && i < |levels|
    ensures levels[0] == [MerkleRoot(h, levels[i])]
  {
    if i > 0 {
      assert levels[i - 1] == LevelUp(h, levels[i]);
      assert Depth(|levels[i]|) == i;
      BuiltRoot(h, levels, i - 1);
    } else {
      assert Depth(|levels[0]|) == 0;
    }
  }

  /** `Prove`: recomputes the root from a pre-leaf along a path. */
  method Prove(preLeaf: Bytes, root: Digest, path: seq<PathNode>, h: Hasher) returns (ok: bool)
    ensures ok <==> Fold(h, h.leaf(preLeaf), path) == root
  {
    var hash := h.leaf(preLeaf);
    for k := 0 to |path|
      invariant Fold(h, hash, path[k..]) == Fold(h, h.leaf(preLeaf), path)
    {
      assert path[k..][1..] == path[k + 1..];
      hash := Combine(h, hash, path[k]);
    }
    ok := hash == root;
  }

  class Tree {
    var levels: seq<seq<Digest>>
    var hasher: Option<Hasher>

    ghost predicate Valid()
      reads this
    {
      levels != [] ==> hasher.Some? && Built(hasher.value, levels)
    }

    constructor ()
      ensures Valid() && levels == []
    {
      levels, hasher := [], None;
    }

    /** Builds the tree; false is the error for no pre-leaves. */
    method Hash(preLeaves: seq<Bytes>, h: Hasher) returns (ok: bool)
      modifies this
      ensures ok <==> preLeaves != []
      ensures !ok ==> unchanged(this)
      ensures ok ==> && Valid() && hasher == Some(h)
                     && |levels| == Depth(|preLeaves|) + 1
                     && levels[|levels| - 1] == LeafHashes(h, preLeaves)
    {
      if |preLeaves| == 0 {
        return false;
      }
      hasher := Some(h);
      var d := Depth(|preLeaves|);
      var built := seq(d + 1, _ => []);
      built := built[d := LeafHashes(h, preLeaves)];
      var i := d;
      while i > 0
        invariant hasher == Some(h)
        invariant 0 <= i <= d && |built| == d + 1
        invariant forall j :: i <= j <= d ==> built[j] != [] && Depth(|built[j]|) == j
        invariant forall j :: i < j <= d ==> built[j - 1] == LevelUp(h, built[j])
        invariant built[d] == LeafHashes(h, preLeaves)
      {
        var next := NextLevel(built[i], h);
        built := built[i - 1 := next];
        i := i - 1;
      }
      levels := built;
      ok := true;
    }

    /** One level from the level below it. */
    method NextLevel(level: seq<Digest>, h: Hasher) returns (next: seq<Digest>)
      ensures next == LevelUp(h, level)
    {
      next := [];
      var j := 0;
      while j < |level| - 1
        invariant j == 2 * |next| && j <= |level|
        invariant forall k :: 0 <= k < |next| ==> next[k] == Merged(h, level, k)
      {
        next := next + [h.node(level[j], level[j + 1])];
        j := j + 2;
      }
      if |level| % 2 != 0 {
        next := next + [level[|level| - 1]];
      }
      assert |next| == Half(|level|);
    }

    method FindIndex(leaf: Digest) returns (index: int)
      requires Valid()
      ensures index == if levels == [] then -1 else FirstIndex(levels[|levels| - 1], leaf)
    {
      if levels == [] {
        return -1;
      }
      var leaves := levels[|levels| - 1];
      for i := 0 to |leaves|
        invariant leaf !in leaves[..i]
      {
        if leaves[i] == leaf {
          return i;
        }
        assert leaves[..i + 1] == leaves[..i] + [leaves[i]];
      }
      assert leaves[..|leaves|] == leaves;
      index := -1;
    }

    /** What one level adds to a path: nothing where the entry is promoted, its sibling otherwise. */
    method NextStep(level: seq<Digest>, index: nat) returns (step: seq<PathNode>)
      requires index < |level|
      ensures step == if Promoted(index, |level|) then [] else [Sibling(level, index)]
    {
      if index == |level| - 1 && |level| % 2 != 0 {
        return [];
      }
      if index % 2 != 0 {
        step := [PathNode(level[index - 1], Left)];
      } else {
        step := [PathNode(level[index + 1], Right)];
      }
    }

    /** The path of the first leaf that hashes like `preLeaf`, empty if there is none. */
    method MerklePath(preLeaf: Bytes) returns (path: seq<PathNode>)
      requires Valid() && levels != []
      ensures
        var leaves := levels[|levels| - 1];
        var i := FirstIndex(leaves, hasher.value.leaf(preLeaf));
        path == if i == -1 then [] else PathOf(hasher.value, leaves, i)
    {
      hide PathOf;
      hide LevelUp;
      hide Promoted;
      var h := hasher.value;
      var found := FindIndex(h.leaf(preLeaf));
      if found < 0 {
        return [];
      }
      var i, index: nat := |levels| - 1, found;
      ghost var goal := PathOf(h, levels[i], index);
      path := [];
      assert path + goal == goal;
      while i > 0
        invariant 0 <= i < |levels| && index < |levels[i]|
        invariant path + PathOf(h, levels[i], index) == goal
      {
        var level := levels[i];
        assert levels[i - 1] == LevelUp(h, level) && Depth(|level|) == i;
        PathStep(h, level, index);
        var step := NextStep(level, index);
        assert path + (step + PathOf(h, levels[i - 1], index / 2)) == path + step + PathOf(h, levels[i - 1], index / 2);
        path := path + step;
        index, i := index / 2, i - 1;
      }
      assert levels[0] != [] && Depth(|levels[0]|) == 0;
      PathEnds(h, levels[0], index);
    }
  }

  datatype Generated = Generated(leaf: Digest, root: Digest, proof: seq<Digest>)

  /** `GenerateMerkleProof`: the check of its own proof never fails, and what it returns belongs to the first
      pre-leaf that hashes like the requested one. */
  method GenerateMerkleProof(preLeaves: seq<Bytes>, leafIndex: nat, h: Hasher) returns (result: Option<Generated>)
    requires leafIndex < |preLeaves|
    ensures
      var leaves := LeafHashes(h, preLeaves);
      var first := FirstIndex(leaves, leaves[leafIndex]);
      && 0 <= first <= leafIndex
      && result == Some(Generated(leaves[leafIndex], MerkleRoot(h, leaves), Hashes(PathOf(h, leaves, first))))
  {
    var tree := new Tree();
    var _ := tree.Hash(preLeaves, h);
    ghost var leaves := LeafHashes(h, preLeaves);
    BuiltRoot(h, tree.levels, |tree.levels| - 1);
    var root := tree.levels[0][0];
    var path := tree.MerklePath(preLeaves[leafIndex]);
    ghost var first := FirstIndex(leaves, leaves[leafIndex]);
    FirstIndexLeast(leaves, leafIndex);
    PathComplete(h, leaves, first);
    var verified := Prove(preLeaves[leafIndex], root, path, h);
    if !verified {
      return None;
    }
    result := Some(Generated(h.leaf(preLeaves[leafIndex]), root, Hashes(path)));
  }
}
