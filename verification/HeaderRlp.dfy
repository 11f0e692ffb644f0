/** The RLP of a header and what its hash fixes, `Header::rlp` and `compute_hash` in
  parachain/primitives/ethereum/src/header.rs.

  Thirteen fields stand at fixed places of the list.  The seal items follow as they are
  and the base fee comes last, so that headers which divide the same bytes differently
  between the two share their encoding and their hash.
*/
module HeaderRlp {
  import opened Primitives
  import opened EthereumHeader
  import opened LightClient
  import opened LightClientInvariant
  import Rlp

  /** The fields with a place of their own, in the order of the encoding. */
  function Fields(header: Header): seq<Bytes> {
    [header.parentHash.bytes, header.ommersHash.bytes, header.author, header.stateRoot.bytes,
     header.transactionsRoot.bytes, header.receiptsRoot.bytes, header.logsBloom,
     Rlp.UintBytes(header.difficulty), Rlp.UintBytes(header.number), Rlp.UintBytes(header.gasLimit),
     Rlp.UintBytes(header.gasUsed), Rlp.UintBytes(header.timestamp), header.extraData]
  }

  function Concat(items: seq<Bytes>): Bytes {
    if items == [] then [] else items[0] + Concat(items[1..])
  }

  function BaseFee(header: Header): Bytes {
    match header.baseFee
    case None => []
    case Some(fee) =>
      Rlp.UintLength(fee);
      Rlp.EncodeString(Rlp.UintBytes(fee))
  }

  /** What follows the fields. */
  function Tail(header: Header): Bytes {
    Concat(header.seal) + BaseFee(header)
  }

  /** The sizes that memory allows. */
  predicate Fits(header: Header) {
    Rlp.Encodable(Fields(header)) && |Rlp.EncodeAll(Fields(header)) + Tail(header)| < TWO_64
  }

  function Encode(header: Header): Bytes
    requires Fits(header)
  {
    Rlp.EncodeList(Rlp.EncodeAll(Fields(header)) + Tail(header))
  }

  /** `a` and `b` agree on all fields with a place of their own. */
  predicate SameFields(a: Header, b: Header) {
    a.(seal := b.seal, baseFee := b.baseFee) == b
  }

  lemma FieldsAreFixed(a: Header, b: Header)
    ensures Fields(a) == Fields(b) <==> SameFields(a, b)
  {
    if Fields(a) == Fields(b) {
      forall i | 0 <= i < 13
        ensures Fields(a)[i] == Fields(b)[i]
      {
      }
      hide Rlp.UintBytes;
      Rlp.UintBytesInjective(a.difficulty, b.difficulty);
      Rlp.UintBytesInjective(a.number, b.number);
      Rlp.UintBytesInjective(a.gasLimit, b.gasLimit);
      Rlp.UintBytesInjective(a.gasUsed, b.gasUsed);
      Rlp.UintBytesInjective(a.timestamp, b.timestamp);
    }
  }

  /** When two headers have one encoding: they agree on the thirteen fields, and their seal items and base fee make
      up the same bytes. */
  lemma SameEncodingExactly(a: Header, b: Header)
    requires Fits(a) && Fits(b)
    ensures Encode(a) == Encode(b) <==> SameFields(a, b) && Tail(a) == Tail(b)
  {
    FieldsAreFixed(a, b);
    hide Fields;
    hide Tail;
    if Encode(a) == Encode(b) {
      Rlp.ListReads(Rlp.EncodeAll(Fields(a)) + Tail(a), Rlp.EncodeAll(Fields(b)) + Tail(b));
      FieldCount(a);
      FieldCount(b);
      Rlp.AllRead(Fields(a), Fields(b), Tail(a), Tail(b));
    }
  }

  lemma FieldCount(header: Header)
    ensures |Fields(header)| == 13
  {
  }

  /** What a reader finds in the list: thirteen items, each at its place, and the tail behind them. */
  lemma FieldPlaces(header: Header)
    requires Fits(header)
    ensures Rlp.ReadSized(Encode(header), 0xc0) == Some((Rlp.EncodeAll(Fields(header)) + Tail(header), []))
    ensures
      var list := Rlp.ReadSized(Encode(header), 0xc0).value.0;
      && HoldsBytes(list, 0, header.parentHash.bytes)
      && HoldsBytes(list, 1, header.ommersHash.bytes)
      && HoldsBytes(list, 2, header.author)
      && HoldsBytes(list, 3, header.stateRoot.bytes)
      && HoldsBytes(list, 4, header.transactionsRoot.bytes)
      && HoldsBytes(list, 5, header.receiptsRoot.bytes)
      && HoldsBytes(list, 6, header.logsBloom)
      && HoldsNumber(list, 7, header.difficulty)
      && HoldsNumber(list, 8, header.number)
      && HoldsNumber(list, 9, header.gasLimit)
      && HoldsNumber(list, 10, header.gasUsed)
      && HoldsNumber(list, 11, header.timestamp)
      && Rlp.ReadAt(list, 12) == Some((header.extraData, Tail(header)))
  {
    PlacesHold(header);
    FieldsInOrder(header);
    var list, items := Rlp.ReadSized(Encode(header), 0xc0).value.0, Fields(header);
    hide *;
    NumberAt(list, 7, items[7], header.difficulty);
    NumberAt(list, 8, items[8], header.number);
    NumberAt(list, 9, items[9], header.gasLimit);
    NumberAt(list, 10, items[10], header.gasUsed);
    NumberAt(list, 11, items[11], header.timestamp);
  }

  lemma NumberAt(list: Bytes, i: nat, item: Bytes, n: nat)
    requires HoldsBytes(list, i, item) && item == Rlp.UintBytes(n)
    ensures HoldsNumber(list, i, n)
  {
    Rlp.UintRoundTrip(n);
  }

  lemma FieldsInOrder(header: Header)
    ensures
      var items := Fields(header);
      && |items| == 13
      && items[0] == header.parentHash.bytes && items[1] == header.ommersHash.bytes && items[2] == header.author
      && items[3] == header.stateRoot.bytes && items[4] == header.transactionsRoot.bytes
      && items[5] == header.receiptsRoot.bytes && items[6] == header.logsBloom
      && items[7] == Rlp.UintBytes(header.difficulty) && items[8] == Rlp.UintBytes(header.number)
      && items[9] == Rlp.UintBytes(header.gasLimit) && items[10] == Rlp.UintBytes(header.gasUsed)
      && items[11] == Rlp.UintBytes(header.timestamp) && items[12] == header.extraData
  {
    hide Rlp.UintBytes;
  }

  lemma PlacesHold(header: Header)
    requires Fits(header)
    ensures |Fields(header)| == 13
    ensures Rlp.ReadSized(Encode(header), 0xc0) == Some((Rlp.EncodeAll(Fields(header)) + Tail(header), []))
    ensures
      var list := Rlp.ReadSized(Encode(header), 0xc0).value.0;
      && (forall i :: 0 <= i < 13 ==> HoldsBytes(list, i, Fields(header)[i]))
      && Rlp.ReadAt(list, 12) == Some((Fields(header)[12], Tail(header)))
  {
    FieldCount(header);
    hide Fields;
    hide Tail;
    hide Rlp.ReadSized;
    hide Rlp.ReadAt;
    var items, tail := Fields(header), Tail(header);
    Rlp.ListRoundTrip(Rlp.EncodeAll(items) + tail);
    forall i | 0 <= i < 13
      ensures HoldsBytes(Rlp.EncodeAll(items) + tail, i, items[i])
    {
      Rlp.PlacesRead(items, tail, i);
    }
    Rlp.PlacesRead(items, tail, 12);
    assert Rlp.EncodeAll(items[13..]) + tail == tail;
  }

  predicate HoldsBytes(list: Bytes, i: nat, b: Bytes) {
    Rlp.ReadAt(list, i).Some? && Rlp.ReadAt(list, i).value.0 == b
  }

  predicate HoldsNumber(list: Bytes, i: nat, n: nat) {
    Rlp.ReadAt(list, i).Some? && Rlp.Value(Rlp.ReadAt(list, i).value.0) == n
  }

  /** What a reader finds behind the fields: the seal items in their order, if they are encoded strings, and then the
      base fee, if there is one. */
  lemma TailPlaces(header: Header, items: seq<Bytes>, i: nat)
    requires Rlp.Encodable(items) && |header.seal| == |items|
    requires forall k :: 0 <= k < |items| ==> header.seal[k] == Rlp.EncodeString(items[k])
    ensures i < |items| ==> HoldsBytes(Tail(header), i, items[i])
    ensures
      match header.baseFee
      case None => i >= |items| ==> Rlp.ReadAt(Tail(header), i).None?
      case Some(fee) =>
        && HoldsNumber(Tail(header), |items|, fee)
        && Rlp.ReadAt(Tail(header), |items|).value.1 == []
  {
    SealEncoded(header.seal, items);
    if i < |items| {
      Rlp.PlacesRead(items, BaseFee(header), i);
    } else if header.baseFee.None? {
      Rlp.NothingAt(items, i);
      assert Rlp.EncodeAll(items) + [] == Rlp.EncodeAll(items);
    }
    if header.baseFee.Some? {
      var fee := header.baseFee.value;
      Rlp.UintLength(fee);
      Rlp.UintRoundTrip(fee);
      var all := items + [Rlp.UintBytes(fee)];
      Rlp.EncodeAllAppend(items, Rlp.UintBytes(fee));
      Rlp.PlacesRead(all, [], |items|);
      assert Rlp.EncodeAll(all) + [] == Tail(header);
    }
  }

  lemma {:induction false} SealEncoded(seal: seq<Bytes>, items: seq<Bytes>)
    requires Rlp.Encodable(items) && |seal| == |items|
    requires forall k :: 0 <= k < |items| ==> seal[k] == Rlp.EncodeString(items[k])
    ensures Concat(seal) == Rlp.EncodeAll(items)
  {
    if items != [] {
      SealEncoded(seal[1..], items[1..]);
    }
  }

  /** The encoding is not injective: an empty seal item leaves no trace. */
  lemma EmptySealItem(header: Header)
    requires Fits(header)
    ensures
      var other := header.(seal := header.seal + [[]]);
      other != header && Fits(other) && Encode(other) == Encode(header)
  {
    var other := header.(seal := header.seal + [[]]);
    ConcatEmpty(header.seal);
    assert Tail(other) == Tail(header);
    assert Fields(other) == Fields(header);
  }

  lemma {:induction false} ConcatEmpty(items: seq<Bytes>)
    ensures Concat(items + [[]]) == Concat(items)
  {
    if items == [] {
      assert items + [[]] == [[]];
    } else {
      assert (items + [[]])[1..] == items[1..] + [[]];
      ConcatEmpty(items[1..]);
    }
  }

  /** The pallet hashes headers with `keccak`, which does not collide on the encodings of the offered ones. */
  ghost predicate HashesWith(env: Env, keccak: Bytes -> H256) {
    && (forall header :: header in env.universe ==> Fits(header) && env.hash(header) == keccak(Encode(header)))
    && CollisionFreeOn(keccak, iset header | header in env.universe && Fits(header) :: Encode(header))
  }

  /** Offered headers share a hash exactly if they agree on the thirteen fields and on the bytes that follow. */
  lemma SameHashExactly(env: Env, keccak: Bytes -> H256, a: Header, b: Header)
    requires HashesWith(env, keccak) && a in env.universe && b in env.universe
    ensures env.hash(a) == env.hash(b) <==> SameFields(a, b) && Tail(a) == Tail(b)
  {
    hide Encode;
    hide Tail;
    SameEncodingExactly(a, b);
  }

  /** What the light client's invariant assumes of hashes follows from Keccak. */
  lemma KeccakFixesNumbers(env: Env, keccak: Bytes -> H256)
    requires HashesWith(env, keccak)
    ensures HashFixesNumber(env)
  {
    hide Tail;
    hide Encode;
    hide HashesWith;
    forall a, b | a in env.universe && b in env.universe && env.hash(a) == env.hash(b)
      ensures a.number == b.number
    {
      SameHashExactly(env, keccak, a, b);
    }
  }
}
