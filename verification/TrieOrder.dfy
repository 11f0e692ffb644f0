/** The order in which a receipt trie is filled, relayer/chain/ethereum/trie.go.

  The keys are the RLP encodings of the list indices (Appendix B of the Ethereum Yellow
  Paper).  Index 0 encodes as 0x80, after the single bytes 0x01 to 0x7f and before the
  longer encodings, which is why it is inserted third.
*/
module TrieOrder {
  import opened Primitives
  import opened Rlp

  /** The key of an index: the RLP of an unsigned integer. */
  function Key(i: U64): Bytes {
    UintBytesFit(i);
    EncodeString(UintBytes(i))
  }

  lemma UintBytesFit(i: U64)
    ensures |UintBytes(i)| <= 8
  {
    BigEndianLength(i);
  }

  /** The key written out. */
  lemma KeyForm(i: U64)
    ensures Key(i) ==
            if i == 0 then [0x80]
            else if i < 0x80 then [i]
            else (BigEndianLength(i); [0x80 + |BigEndian(i)|] + BigEndian(i))
  {
    BigEndianLength(i);
    if i == 0 {
      assert [0x80] + [] == [0x80];
    }
  }

  // ----- order of keys -----

  /** `a` and `b` differ at some position of both, and at the first such position `a` is smaller. */
  predicate Before(a: Bytes, b: Bytes) {
    a != [] && b != [] && (a[0] < b[0] || (a[0] == b[0] && Before(a[1..], b[1..])))
  }

  /** Lexicographic order. */
  predicate LexLess(a: Bytes, b: Bytes) {
    b != [] && (a == [] || a[0] < b[0] || (a[0] == b[0] && LexLess(a[1..], b[1..])))
  }

  lemma {:induction false} BeforeIsLexLess(a: Bytes, b: Bytes)
    requires Before(a, b)
    ensures LexLess(a, b) && !(a <= b) && !(b <= a)
  {
    if a[0] == b[0] {
      BeforeIsLexLess(a[1..], b[1..]);
    }
  }

  lemma {:induction false} BeforeExtends(a: Bytes, b: Bytes, x: Byte, y: Byte)
    requires |a| == |b|
    ensures Before(a, b) ==> Before(a + [x], b + [y])
    ensures a == b && x < y ==> Before(a + [x], b + [y])
  {
    if a != [] {
      BeforeExtends(a[1..], b[1..], x, y);
      assert (a + [x])[1..] == a[1..] + [x] && (b + [y])[1..] == b[1..] + [y];
    }
  }

  lemma {:induction false} LongerIsLarger(i: nat, j: nat)
    requires 0 < i <= j
    ensures |BigEndian(i)| <= |BigEndian(j)|
  {
    if i >= 256 {
      LongerIsLarger(i / 256, j / 256);
    }
  }

  /** Among encodings of one length, big-endian order is numeric order. */
  lemma {:induction false} BigEndianOrder(i: nat, j: nat)
    requires 0 < i < j && |BigEndian(i)| == |BigEndian(j)|
    ensures Before(BigEndian(i), BigEndian(j))
  {
    if i >= 256 {
      if i / 256 < j / 256 {
        BigEndianOrder(i / 256, j / 256);
      }
      BeforeExtends(BigEndian(i / 256), BigEndian(j / 256), i % 256, j % 256);
    }
  }

  /** The rank of an index in the insertion order: 1 .. 0x7f, then 0, then the rest. */
  function Rank(i: nat): nat {
    if i == 0 then 0x7f else if i <= 0x7f then i - 1 else i
  }

  /** Keys follow the ranks. */
  lemma KeysFollowRanks(i: U64, j: U64)
    requires Rank(i) < Rank(j)
    ensures Before(Key(i), Key(j))
  {
    KeyForm(i);
    KeyForm(j);
    hide Key;
    if i >= 0x80 {
      LongerIsLarger(i, j);
      if |BigEndian(i)| == |BigEndian(j)| {
        BigEndianOrder(i, j);
        assert Key(i)[1..] == BigEndian(i) && Key(j)[1..] == BigEndian(j);
      }
    }
  }

  // ----- the insertions -----

  /** A trie as the sequence of its insertions and the map they make. */
  class Trie {
    var inserted: seq<nat>
    var entries: map<Bytes, Bytes>

    method Reset()
      modifies this
      ensures inserted == [] && entries == map[]
    {
      inserted, entries := [], map[];
    }

    method Update(index: U64, key: Bytes, value: Bytes)
      requires key == Key(index)
      modifies this
      ensures inserted == old(inserted) + [index] && entries == old(entries)[key := value]
    {
      inserted, entries := inserted + [index], entries[key := value];
    }
  }

  /** The index inserted at place `k` among `n`. */
  function Inserted(n: nat, k: nat): nat
    requires k < n
  {
    if n <= 0x80 then (if k == n - 1 then 0 else k + 1)
    else if k < 0x7f then k + 1 else if k == 0x7f then 0 else k
  }

  /** Every index below `n` is inserted, at exactly one place. */
  lemma InsertedOnce(n: nat, i: nat)
    requires i < n
    ensures exists k :: 0 <= k < n && Inserted(n, k) == i
    ensures forall k, l :: 0 <= k < n && 0 <= l < n && Inserted(n, k) == Inserted(n, l) ==> k == l
    ensures forall k :: 0 <= k < n ==> Inserted(n, k) < n
  {
    var k := if i == 0 then Min(n - 1, 0x7f) else if i <= 0x7f then i - 1 else i;
    assert 0 <= k < n && Inserted(n, k) == i;
  }

  /** Main result: for every length the keys come in strictly ascending lexicographic order, and none is a prefix of
      another. */
  lemma KeysAscend(n: nat, k: nat, l: nat)
    requires n <= TWO_64 && k < l < n
    ensures Inserted(n, k) < TWO_64 && Inserted(n, l) < TWO_64
    ensures
      var a, b := Key(Inserted(n, k)), Key(Inserted(n, l));
      LexLess(a, b) && !(a <= b) && !(b <= a)
  {
    KeysFollowRanks(Inserted(n, k), Inserted(n, l));
    BeforeIsLexLess(Key(Inserted(n, k)), Key(Inserted(n, l)));
  }

  lemma KeysDiffer(i: U64, j: U64)
    requires i != j
    ensures Key(i) != Key(j)
  {
    if Rank(i) < Rank(j) {
      KeysFollowRanks(i, j);
      BeforeIsLexLess(Key(i), Key(j));
    } else {
      KeysFollowRanks(j, i);
      BeforeIsLexLess(Key(j), Key(i));
    }
  }

  ghost predicate HoldsAt(list: seq<Bytes>, entries: map<Bytes, Bytes>, k: nat)
    requires |list| <= TWO_64 && k < |list|
  {
    var i := Inserted(|list|, k);
    i < |list| && Key(i) in entries && entries[Key(i)] == list[i]
  }

  /** The trie holds exactly the items at the first `m` places. */
  ghost predicate Holds(list: seq<Bytes>, entries: map<Bytes, Bytes>, m: nat)
    requires |list| <= TWO_64 && m <= |list|
  {
    && (forall k :: 0 <= k < m ==> HoldsAt(list, entries, k))
    && (forall key :: key in entries ==>
          exists k :: 0 <= k < m && HoldsAt(list, entries, k) && key == Key(Inserted(|list|, k)))
  }

  lemma HoldsNext(list: seq<Bytes>, entries: map<Bytes, Bytes>, m: nat)
    requires |list| <= TWO_64 && m < |list| && Holds(list, entries, m)
    ensures Inserted(|list|, m) < |list|
    ensures Holds(list, entries[Key(Inserted(|list|, m)) := list[Inserted(|list|, m)]], m + 1)
  {
    InsertedOnce(|list|, 0);
    var entries' := entries[Key(Inserted(|list|, m)) := list[Inserted(|list|, m)]];
    forall k | 0 <= k < m + 1
      ensures HoldsAt(list, entries', k)
    {
      if k < m {
        assert HoldsAt(list, entries, k);
        KeysDiffer(Inserted(|list|, k), Inserted(|list|, m));
      }
    }
  }

  /** The first `m` insertions are done. */
  ghost predicate Filled(list: seq<Bytes>, trie: Trie, m: nat)
    requires |list| <= TWO_64 && m <= |list|
    reads trie
  {
    && |trie.inserted| == m
    && (forall k :: 0 <= k < m ==> trie.inserted[k] == Inserted(|list|, k))
    && Holds(list, trie.entries, m)
  }

  /** One loop body: encode the index, insert the item. */
  method InsertItem(list: seq<Bytes>, trie: Trie, i: nat, ghost m: nat)
    requires |list| <= TWO_64 && m < |list| && i < |list| && i == Inserted(|list|, m)
    requires Filled(list, trie, m)
    modifies trie
    ensures Filled(list, trie, m + 1)
  {
    HoldsNext(list, trie.entries, m);
    trie.Update(i, Key(i), list[i]);
  }

  /** `CreateTrie`: inserts every index once, in the order of `Inserted`, and ends with exactly the list's items. */
  method CreateTrie(list: seq<Bytes>, trie: Trie)
    requires |list| <= TWO_64
    modifies trie
    ensures Filled(list, trie, |list|)
  {
    trie.Reset();
    var i := 1;
    assert Filled(list, trie, 0);
    hide Filled;
    while i < |list| && i <= 0x7f
      invariant 1 <= i <= 0x80 && i <= Max(1, |list|)
      invariant Filled(list, trie, i - 1)
    {
      InsertItem(list, trie, i, i - 1);
      i := i + 1;
    }
    if |list| > 0 {
      InsertItem(list, trie, 0, i - 1);
    }
    i := 0x80;
    while i < |list|
      invariant 0x80 <= i <= Max(0x80, |list|)
      invariant Filled(list, trie, Min(i, |list|))
    {
      InsertItem(list, trie, i, i);
      i := i + 1;
    }
  }
}
