/** RLP, the encoding of Appendix B of the Ethereum Yellow Paper: byte strings, unsigned integers and lists. */
module Rlp {
  import opened Primitives

  /** Big-endian bytes without leading zeros. */
  function BigEndian(i: nat): (b: Bytes)
    requires i > 0
    ensures b != []
  {
    if i < 256 then [i] else BigEndian(i / 256) + [i % 256]
  }

  function Pow256(n: nat): nat {
    if n == 0 then 1 else 256 * Pow256(n - 1)
  }

  lemma {:induction false} Pow256Add(a: nat, b: nat)
    ensures Pow256(a + b) == Pow256(a) * Pow256(b)
  {
    if a > 0 {
      Pow256Add(a - 1, b);
      assert 256 * Pow256(a - 1) * Pow256(b) == 256 * (Pow256(a - 1) * Pow256(b));
    }
  }

  lemma {:induction false} LengthBound(i: nat, n: nat)
    requires 0 < i < Pow256(n)
    ensures |BigEndian(i)| <= n
  {
    if i >= 256 {
      LengthBound(i / 256, n - 1);
    }
  }

  lemma BigEndianLength(i: U64)
    ensures i > 0 ==> |BigEndian(i)| <= 8
  {
    if i > 0 {
      assert Pow256(4) == 0x1_0000_0000;
      Pow256Add(4, 4);
      LengthBound(i, 8);
    }
  }

  lemma {:induction false} BigEndianInjective(i: nat, j: nat)
    requires i > 0 && j > 0 && BigEndian(i) == BigEndian(j)
    ensures i == j
  {
    var b, c := BigEndian(i), BigEndian(j);
    if i >= 256 && j >= 256 {
      assert BigEndian(i / 256) == b[..|b| - 1] == c[..|c| - 1] == BigEndian(j / 256);
      BigEndianInjective(i / 256, j / 256);
      assert i % 256 == b[|b| - 1] == c[|c| - 1] == j % 256;
    }
  }

  /** The bytes of an unsigned integer; zero is the empty string. */
  function UintBytes(i: nat): Bytes {
    if i == 0 then [] else BigEndian(i)
  }

  lemma UintLength(i: U256)
    ensures |UintBytes(i)| <= 32
  {
    if i > 0 {
      assert Pow256(4) == 0x1_0000_0000;
      hide Pow256;
      Pow256Add(4, 4);
      Pow256Add(8, 8);
      Pow256Add(16, 16);
      LengthBound(i, 32);
    }
  }

  lemma {:induction false} UintBytesInjective(i: nat, j: nat)
    requires UintBytes(i) == UintBytes(j)
    ensures i == j
  {
    if i > 0 && j > 0 {
      BigEndianInjective(i, j);
    }
  }

  /** What precedes `n` bytes: one byte up to 55, else the length of the length and the length. */
  function LengthPrefix(offset: Byte, n: nat): Bytes
    requires offset <= 0xc0 && n < TWO_64
  {
    BigEndianLength(n);
    if n <= 55 then [offset + n] else [offset + 55 + |BigEndian(n)|] + BigEndian(n)
  }

  predicate IsSingle(b: Bytes) {
    |b| == 1 && b[0] < 0x80
  }

  function EncodeString(b: Bytes): Bytes
    requires |b| < TWO_64
  {
    if IsSingle(b) then b else LengthPrefix(0x80, |b|) + b
  }

  function EncodeList(payload: Bytes): Bytes
    requires |payload| < TWO_64
  {
    LengthPrefix(0xc0, |payload|) + payload
  }

  /** The encodings written out: a string up to 55 bytes has one byte of prefix, a longer one has its length, without
      leading zeros, after the length of that. */
  lemma EncodingForm(b: Bytes, length: Bytes)
    requires |b| < TWO_64 && Value(length) == |b| && (length == [] || length[0] != 0)
    ensures EncodeString(b) ==
            if |b| == 1 && b[0] < 128 then b
            else if |b| <= 55 then [128 + |b|] + b
            else (LengthFits(length, |b|); [183 + |length|] + length + b)
    ensures EncodeList(b) ==
            if |b| <= 55 then [192 + |b|] + b
            else (LengthFits(length, |b|); [247 + |length|] + length + b)
  {
    if |b| > 55 {
      LengthFits(length, |b|);
    }
  }

  lemma LengthFits(length: Bytes, n: nat)
    requires n < TWO_64 && Value(length) == n && (length == [] || length[0] != 0)
    ensures length == UintBytes(n) && |length| <= 8
  {
    BigEndianLength(n);
    CanonicalBytes(length);
  }

  /** Bytes without leading zeros are the encoding of their value. */
  lemma {:induction false} CanonicalBytes(b: Bytes)
    requires b == [] || b[0] != 0
    ensures UintBytes(Value(b)) == b
  {
    if b != [] {
      var front := b[..|b| - 1];
      CanonicalBytes(front);
      assert b == front + [b[|b| - 1]];
      if front != [] {
        PositiveValue(front);
        assert Value(b) / 256 == Value(front) && Value(b) % 256 == b[|b| - 1];
      } else {
        assert Value(front) == 0;
      }
    }
  }

  lemma {:induction false} PositiveValue(b: Bytes)
    requires b != [] && b[0] != 0
    ensures Value(b) > 0
  {
    if |b| > 1 {
      PositiveValue(b[..|b| - 1]);
    }
  }

  lemma SplitsAt<T>(a: seq<T>, b: seq<T>, s: seq<T>, t: seq<T>)
    requires a + s == b + t && |a| == |b|
    ensures a == b && s == t
  {
    assert a == (a + s)[..|a|] == (b + t)[..|b|] == b;
    assert s == (a + s)[|a|..] == (b + t)[|b|..] == t;
  }

  /** A length prefix says where it ends and what length it announces. */
  lemma PrefixReads(offset: Byte, m: nat, n: nat, s: Bytes, t: Bytes)
    requires offset <= 0xc0 && m < TWO_64 && n < TWO_64
    requires LengthPrefix(offset, m) + s == LengthPrefix(offset, n) + t
    ensures m == n && s == t
  {
    BigEndianLength(m);
    BigEndianLength(n);
    var a, b := LengthPrefix(offset, m), LengthPrefix(offset, n);
    assert (a + s)[0] == (b + t)[0];
    SplitsAt(a, b, s, t);
    if m > 55 {
      assert BigEndian(m) == a[1..] == b[1..] == BigEndian(n);
      BigEndianInjective(m, n);
    }
  }

  lemma FirstByte(b: Bytes)
    requires |b| < TWO_64
    ensures EncodeString(b) != [] && (EncodeString(b)[0] < 0x80 <==> IsSingle(b))
  {
  }

  /** An encoded string says where it ends and what string it holds. */
  lemma StringReads(a: Bytes, b: Bytes, s: Bytes, t: Bytes)
    requires |a| < TWO_64 && |b| < TWO_64
    requires EncodeString(a) + s == EncodeString(b) + t
    ensures a == b && s == t
  {
    hide LengthPrefix;
    FirstByte(a);
    FirstByte(b);
    assert EncodeString(a)[0] == (EncodeString(a) + s)[0] == (EncodeString(b) + t)[0] == EncodeString(b)[0];
    if !IsSingle(a) {
      var p, q := LengthPrefix(0x80, |a|), LengthPrefix(0x80, |b|);
      assert p + a + s == p + (a + s) && q + b + t == q + (b + t);
      PrefixReads(0x80, |a|, |b|, a + s, b + t);
    }
    SplitsAt(a, b, s, t);
  }

  lemma ListReads(a: Bytes, b: Bytes)
    requires |a| < TWO_64 && |b| < TWO_64 && EncodeList(a) == EncodeList(b)
    ensures a == b
  {
    PrefixReads(0xc0, |a|, |b|, a, b);
  }

  predicate Encodable(items: seq<Bytes>) {
    forall i :: 0 <= i < |items| ==> |items[i]| < TWO_64
  }

  function EncodeAll(items: seq<Bytes>): Bytes
    requires Encodable(items)
  {
    if items == [] then [] else EncodeString(items[0]) + EncodeAll(items[1..])
  }

  /** As many encoded strings as are expected can be read back, with what follows them. */
  lemma {:induction false} AllRead(a: seq<Bytes>, b: seq<Bytes>, s: Bytes, t: Bytes)
    requires Encodable(a) && Encodable(b) && |a| == |b|
    requires EncodeAll(a) + s == EncodeAll(b) + t
    ensures a == b && s == t
    decreases |a|
  {
    hide EncodeString;
    if a == [] {
      assert s == [] + s == [] + t == t;
    } else {
      var x, y := EncodeAll(a[1..]), EncodeAll(b[1..]);
      assert EncodeAll(a) + s == EncodeString(a[0]) + (x + s);
      assert EncodeAll(b) + t == EncodeString(b[0]) + (y + t);
      StringReads(a[0], b[0], x + s, y + t);
      AllRead(a[1..], b[1..], s, t);
      assert a == [a[0]] + a[1..] && b == [b[0]] + b[1..];
    }
  }

  // ----- reading -----

  /** The number that bytes stand for, most significant first. */
  function Value(b: Bytes): nat {
    if b == [] then 0 else 256 * Value(b[..|b| - 1]) + b[|b| - 1]
  }

  lemma {:induction false} UintRoundTrip(i: nat)
    ensures Value(UintBytes(i)) == i
  {
    if i >= 256 {
      UintRoundTrip(i / 256);
      assert UintBytes(i)[..|UintBytes(i)| - 1] == BigEndian(i / 256);
    } else if i > 0 {
      assert Value([]) == 0;
    }
  }

  /** The first `n` bytes and the rest, if there are as many. */
  function Take(b: Bytes, n: nat): Option<(Bytes, Bytes)> {
    if |b| < n then None else Some((b[..n], b[n..]))
  }

  /** What a length prefix with the given offset announces, and what follows. */
  function ReadSized(b: Bytes, offset: Byte): Option<(Bytes, Bytes)> {
    if b == [] || b[0] < offset || b[0] > offset + 63 then None
    else if b[0] <= offset + 55 then Take(b[1..], b[0] - offset)
    else
      match Take(b[1..], b[0] - offset - 55)
      case None => None
      case Some((length, rest)) => Take(rest, Value(length))
  }

  /** The string at the start of `b` and what follows it. */
  function ReadString(b: Bytes): Option<(Bytes, Bytes)> {
    if b != [] && b[0] < 0x80 then Take(b, 1) else ReadSized(b, 0x80)
  }

  /** The string at place `i` and what follows it. */
  function ReadAt(b: Bytes, i: nat): Option<(Bytes, Bytes)>
    decreases i
  {
    match ReadString(b)
    case None => None
    case Some((item, rest)) => if i == 0 then Some((item, rest)) else ReadAt(rest, i - 1)
  }

  lemma TakeExact(a: Bytes, b: Bytes)
    ensures Take(a + b, |a|) == Some((a, b))
  {
    assert (a + b)[..|a|] == a && (a + b)[|a|..] == b;
  }

  lemma SizedRoundTrip(offset: Byte, b: Bytes, rest: Bytes)
    requires 0 < offset <= 0xc0 && |b| < TWO_64
    ensures ReadSized(LengthPrefix(offset, |b|) + b + rest, offset) == Some((b, rest))
  {
    var n := |b|;
    var all := LengthPrefix(offset, n) + b + rest;
    BigEndianLength(n);
    TakeExact(b, rest);
    if n <= 55 {
      assert all[1..] == b + rest;
    } else {
      var length := BigEndian(n);
      assert all[1..] == length + (b + rest);
      TakeExact(length, b + rest);
      UintRoundTrip(n);
      assert UintBytes(n) == length;
    }
  }

  /** An encoded string is read back, with what follows it. */
  lemma StringRoundTrip(b: Bytes, rest: Bytes)
    requires |b| < TWO_64
    ensures ReadString(EncodeString(b) + rest) == Some((b, rest))
  {
    if IsSingle(b) {
      TakeExact(b, rest);
    } else {
      FirstByte(b);
      hide LengthPrefix;
      SizedRoundTrip(0x80, b, rest);
    }
  }

  /** And so is a list. */
  lemma ListRoundTrip(payload: Bytes)
    requires |payload| < TWO_64
    ensures ReadSized(EncodeList(payload), 0xc0) == Some((payload, []))
  {
    SizedRoundTrip(0xc0, payload, []);
    assert EncodeList(payload) + [] == EncodeList(payload);
  }

  /** What is read at each place of encoded strings. */
  lemma {:induction false} PlacesRead(items: seq<Bytes>, rest: Bytes, i: nat)
    requires Encodable(items) && i < |items|
    ensures ReadAt(EncodeAll(items) + rest, i) == Some((items[i], EncodeAll(items[i + 1..]) + rest))
    decreases |items|
  {
    hide EncodeString;
    hide ReadString;
    var others := EncodeAll(items[1..]);
    assert EncodeAll(items) + rest == EncodeString(items[0]) + (others + rest);
    StringRoundTrip(items[0], others + rest);
    if i > 0 {
      PlacesRead(items[1..], rest, i - 1);
      assert items[1..][i..] == items[i + 1..];
    }
  }

  lemma {:induction false} NothingAt(items: seq<Bytes>, i: nat)
    requires Encodable(items) && i >= |items|
    ensures ReadAt(EncodeAll(items), i).None?
    decreases |items|
  {
    hide EncodeString;
    if items != [] {
      StringRoundTrip(items[0], EncodeAll(items[1..]));
      NothingAt(items[1..], i - 1);
    }
  }

  lemma {:induction false} EncodeAllAppend(items: seq<Bytes>, last: Bytes)
    requires Encodable(items) && |last| < TWO_64
    ensures EncodeAll(items + [last]) == EncodeAll(items) + EncodeString(last)
  {
    hide EncodeString;
    if items == [] {
      assert EncodeAll([last]) == EncodeString(last) + EncodeAll([last][1..]);
    } else {
      assert (items + [last])[1..] == items[1..] + [last];
      EncodeAllAppend(items[1..], last);
    }
  }
}
