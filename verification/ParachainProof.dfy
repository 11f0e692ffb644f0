/** The proof of a parachain head within all heads of a relay chain block,
  relayer/relays/parachain/merkle-proof.go. */
module ParachainProof {
  import opened Primitives
  import opened MerkleTree

  datatype ParaHead = ParaHead(paraID: nat, data: Bytes)

  datatype MerkleProofData = MerkleProofData(
    preLeaves: seq<Bytes>,
    numberOfLeaves: nat,
    provenPreLeaf: Bytes,
    provenLeaf: Digest,
    provenLeafIndex: nat,
    root: Digest,
    proof: seq<Digest>)

  type Heads = map<nat, ParaHead>

  /** Heads are kept under their own ID. */
  predicate Keyed(heads: Heads) {
    forall id :: id in heads ==> heads[id].paraID == id
  }

  predicate Ascending(s: seq<ParaHead>) {
    forall i, j :: 0 <= i < j < |s| ==> s[i].paraID < s[j].paraID
  }

  /** `s` lists exactly the heads, by ascending ID. */
  ghost predicate IsSlice(heads: Heads, s: seq<ParaHead>) {
    && Ascending(s)
    && (forall i :: 0 <= i < |s| ==> s[i].paraID in heads && heads[s[i].paraID] == s[i])
    && (forall id :: id in heads ==> heads[id] in s)
  }

  /** There is only one such list, so the order in which the map is read does not matter. */
  lemma {:induction false} SliceUnique(heads: Heads, s: seq<ParaHead>, s': seq<ParaHead>)
    requires Keyed(heads) && IsSlice(heads, s) && IsSlice(heads, s')
    ensures s == s'
    decreases |s|
  {
    hide IsSlice;
    hide Keyed;
    SliceEmpty(heads, s);
    SliceEmpty(heads, s');
    if s != [] {
      var last, last' := s[|s| - 1], s'[|s'| - 1];
      LastIsHighest(heads, s);
      LastIsHighest(heads, s');
      assert last.paraID <= last'.paraID <= last.paraID;
      DropLast(heads, s);
      DropLast(heads, s');
      SliceUnique(heads - {last.paraID}, s[..|s| - 1], s'[..|s'| - 1]);
      assert s == s[..|s| - 1] + [last] && s' == s'[..|s'| - 1] + [last'];
    }
  }

  lemma SliceEmpty(heads: Heads, s: seq<ParaHead>)
    requires IsSlice(heads, s)
    ensures s == [] <==> heads == map[]
  {
    if heads != map[] {
      var id :| id in heads;
      assert heads[id] in s;
    }
    assert s != [] ==> s[0].paraID in heads;
  }

  lemma LastIsHighest(heads: Heads, s: seq<ParaHead>)
    requires Keyed(heads) && IsSlice(heads, s) && s != []
    ensures s[|s| - 1].paraID in heads && heads[s[|s| - 1].paraID] == s[|s| - 1]
    ensures forall id :: id in heads ==> id <= s[|s| - 1].paraID
  {
    forall id | id in heads
      ensures id <= s[|s| - 1].paraID
    {
      var i :| 0 <= i < |s| && s[i] == heads[id];
    }
  }

  lemma DropLast(heads: Heads, s: seq<ParaHead>)
    requires Keyed(heads) && IsSlice(heads, s) && s != []
    ensures Keyed(heads - {s[|s| - 1].paraID})
    ensures IsSlice(heads - {s[|s| - 1].paraID}, s[..|s| - 1])
  {
    var n := |s| - 1;
    forall id | id in heads - {s[n].paraID}
      ensures heads[id] in s[..n]
    {
      var i :| 0 <= i < |s| && s[i] == heads[id];
      assert s[..n][i] == s[i];
    }
  }

  // ----- sorting -----

  /** `head` put in its place among heads of other IDs. */
  function Insert(s: seq<ParaHead>, head: ParaHead): (r: seq<ParaHead>)
    requires Ascending(s) && forall i :: 0 <= i < |s| ==> s[i].paraID != head.paraID
    ensures Ascending(r)
    ensures forall x :: x in r <==> x in s || x == head
  {
    if s == [] || head.paraID < s[0].paraID then [head] + s
    else
      var rest := Insert(s[1..], head);
      assert forall x :: x in rest ==> s[0].paraID < x.paraID;
      assert s == [s[0]] + s[1..];
      [s[0]] + rest
  }

  lemma InsertSlice(heads: Heads, s: seq<ParaHead>, head: ParaHead)
    requires IsSlice(heads, s) && head.paraID !in heads
    ensures forall i :: 0 <= i < |s| ==> s[i].paraID != head.paraID
    ensures IsSlice(heads[head.paraID := head], Insert(s, head))
  {
    var r := Insert(s, head);
    forall i | 0 <= i < |r|
      ensures r[i].paraID in heads[head.paraID := head] && heads[head.paraID := head][r[i].paraID] == r[i]
    {
      assert r[i] in r;
    }
  }

  /** The map's values in some order of iteration, sorted by ID. */
  method SortedSlice(heads: Heads) returns (s: seq<ParaHead>)
    requires Keyed(heads)
    ensures IsSlice(heads, s)
  {
    s := [];
    var ids := heads.Keys;
    while ids != {}
      invariant ids <= heads.Keys
      invariant IsSlice(heads - ids, s)
      decreases ids
    {
      var id :| id in ids;
      InsertSlice(heads - ids, s, heads[id]);
      s := Insert(s, heads[id]);
      assert heads - (ids - {id}) == (heads - ids)[id := heads[id]];
      ids := ids - {id};
    }
    assert heads - {} == heads;
  }

  // ----- the proof -----

  ghost function Encoded(encode: ParaHead -> Bytes, s: seq<ParaHead>): seq<Bytes> {
    seq(|s|, i requires 0 <= i < |s| => encode(s[i]))
  }

  /** Different heads have different leaves. */
  ghost predicate DistinctLeaves(heads: Heads, encode: ParaHead -> Bytes, h: Hasher) {
    forall a, b :: a in heads && b in heads && a != b ==> h.leaf(encode(heads[a])) != h.leaf(encode(heads[b]))
  }

  /** With the requested ID among the heads, the result proves that head: it stands at the returned index of the
      sorted list, and the contract's verifier recomputes the root of all heads from it.  Without it, the code
      proves the first head and returns no pre-leaf. */
  method CreateParachainMerkleProof(heads: Heads, paraID: nat, encode: ParaHead -> Bytes, h: Hasher)
    returns (data: MerkleProofData, ghost slice: seq<ParaHead>)
    requires Keyed(heads) && heads != map[]
    ensures IsSlice(heads, slice) && slice != []
    ensures data.preLeaves == Encoded(encode, slice) && data.numberOfLeaves == |slice|
    ensures data.root == MerkleRoot(h, LeafHashes(h, data.preLeaves))
    ensures data.provenLeafIndex < |slice| && data.provenLeaf == h.leaf(data.preLeaves[data.provenLeafIndex])
    ensures if paraID in heads
            then slice[data.provenLeafIndex] == heads[paraID] && data.provenPreLeaf == encode(heads[paraID])
            else data.provenLeafIndex == 0 && data.provenPreLeaf == []
    ensures DistinctLeaves(heads, encode, h) ==>
              && data.proof == Hashes(PathOf(h, LeafHashes(h, data.preLeaves), data.provenLeafIndex))
              && RootAtPosition(h, data.provenLeaf, data.provenLeafIndex, data.numberOfLeaves, data.proof)
                 == Some(data.root)
  {
    var heads' := SortedSlice(heads);
    slice := heads';
    assert slice != [] by {
      var id :| id in heads;
      assert heads[id] in slice;
    }
    var preLeaves: seq<Bytes>, headerToProve: Bytes, headerIndex := [], [], 0;
    for i := 0 to |heads'|
      invariant |preLeaves| == i && forall k :: 0 <= k < i ==> preLeaves[k] == encode(slice[k])
      invariant headerIndex == 0 || headerIndex < i
      invariant if exists k :: 0 <= k < i && slice[k].paraID == paraID
                then headerIndex < i && slice[headerIndex].paraID == paraID
                     && headerToProve == encode(slice[headerIndex])
                else headerIndex == 0 && headerToProve == []
    {
      var preLeaf := encode(heads'[i]);
      preLeaves := preLeaves + [preLeaf];
      if heads'[i].paraID == paraID {
        headerToProve, headerIndex := preLeaf, i;
      }
    }
    assert preLeaves == Encoded(encode, slice);
    assert paraID in heads ==> heads[paraID] in slice;
    var generated := GenerateMerkleProof(preLeaves, headerIndex, h);
    var g := generated.value;
    data := MerkleProofData(preLeaves, |preLeaves|, headerToProve, g.leaf, headerIndex, g.root, g.proof);
    ContractAccepts(heads, slice, preLeaves, headerIndex, encode, h);
  }

  lemma ContractAccepts(
    heads: Heads, slice: seq<ParaHead>, preLeaves: seq<Bytes>, i: nat, encode: ParaHead -> Bytes, h: Hasher)
    requires Keyed(heads) && IsSlice(heads, slice) && preLeaves == Encoded(encode, slice) && i < |slice|
    ensures
      var leaves := LeafHashes(h, preLeaves);
      DistinctLeaves(heads, encode, h) ==>
        && FirstIndex(leaves, leaves[i]) == i
        && RootAtPosition(h, leaves[i], i, |leaves|, Hashes(PathOf(h, leaves, i))) == Some(MerkleRoot(h, leaves))
  {
    var leaves := LeafHashes(h, preLeaves);
    if DistinctLeaves(heads, encode, h) {
      forall k | 0 <= k < i
        ensures leaves[k] != leaves[i]
      {
        assert slice[k].paraID < slice[i].paraID;
        assert heads[slice[k].paraID] == slice[k] && heads[slice[i].paraID] == slice[i];
      }
      FirstIndexLeast(leaves, i);
      ContractAcceptsPath(h, leaves, i);
    }
  }
}
