/** The cache of Ethash data by epoch, `EthashCache` in parachain/primitives/ethereum/src/ethashproof.rs.

  The cache keeps the data of its epochs in a map and, beside it, a list of (timestamp,
  epoch) pairs sorted after every access; the first pair is evicted when it is full.
*/
module EthashCache {
  import opened Primitives

  /** (timestamp, epoch) */
  type Access = (nat, nat)

  predicate Less(a: Access, b: Access) {
    a.0 < b.0 || (a.0 == b.0 && a.1 < b.1)
  }

  /** Ascending, and so without repetition. */
  predicate Sorted(s: seq<Access>) {
    forall i, j :: 0 <= i < j < |s| ==> Less(s[i], s[j])
  }

  predicate NoRepeats(s: seq<Access>) {
    forall i, j :: 0 <= i < j < |s| ==> s[i] != s[j]
  }

  ghost predicate SameMembers(a: seq<Access>, b: seq<Access>) {
    forall x :: x in a <==> x in b
  }

  // ----- sorting -----

  function Insert(s: seq<Access>, x: Access): (r: seq<Access>)
    requires Sorted(s) && x !in s
    ensures Sorted(r) && |r| == |s| + 1 && forall y :: y in r <==> y in s || y == x
  {
    if s == [] || Less(x, s[0]) then [x] + s
    else
      var rest := Insert(s[1..], x);
      assert s == [s[0]] + s[1..];
      assert forall y :: y in rest ==> Less(s[0], y);
      [s[0]] + rest
  }

  /** `Vec::sort`, on lists without repetition. */
  function Sort(s: seq<Access>): (r: seq<Access>)
    requires NoRepeats(s)
    ensures Sorted(r) && |r| == |s| && SameMembers(r, s)
  {
    if s == [] then []
    else
      assert s == [s[0]] + s[1..];
      Insert(Sort(s[1..]), s[0])
  }

  /** A sorted list is determined by its members. */
  lemma {:induction false} SortedUnique(a: seq<Access>, b: seq<Access>)
    requires Sorted(a) && Sorted(b) && |a| == |b| && SameMembers(a, b)
    ensures a == b
    decreases |a|
  {
    if a != [] {
      assert a[0] in b && b[0] in a;
      assert a[0] == b[0];
      assert a == [a[0]] + a[1..] && b == [b[0]] + b[1..];
      forall x
        ensures x in a[1..] <==> x in b[1..]
      {
        assert x in a <==> x == a[0] || x in a[1..];
        assert x in b <==> x == b[0] || x in b[1..];
        assert a[0] !in a[1..] && b[0] !in b[1..];
      }
      SortedUnique(a[1..], b[1..]);
    }
  }

  // ----- one access -----

  function Epochs(recent: seq<Access>): seq<nat> {
    seq(|recent|, i requires 0 <= i < |recent| => recent[i].1)
  }

  predicate Distinct(s: seq<nat>) {
    forall i, j :: 0 <= i < j < |s| ==> s[i] != s[j]
  }

  function IndexOf(s: seq<nat>, e: nat): (i: nat)
    requires e in s
    ensures i < |s| && s[i] == e
  {
    if s[0] == e then 0 else 1 + IndexOf(s[1..], e)
  }

  /** The list before it is sorted: the epoch's own pair, the first pair or a new pair gets the timestamp. */
  function Touched(capacity: nat, recent: seq<Access>, epoch: nat, timestamp: nat): seq<Access>
    requires capacity > 0 && |recent| <= capacity
  {
    if epoch in Epochs(recent) then recent[IndexOf(Epochs(recent), epoch) := (timestamp, epoch)]
    else if |recent| == capacity then recent[0 := (timestamp, epoch)]
    else recent + [(timestamp, epoch)]
  }

  function Accessed(capacity: nat, recent: seq<Access>, epoch: nat, timestamp: nat): seq<Access>
    requires capacity > 0 && |recent| <= capacity && Distinct(Epochs(recent))
  {
    TouchedDistinct(capacity, recent, epoch, timestamp);
    DistinctHasNoRepeats(Touched(capacity, recent, epoch, timestamp));
    Sort(Touched(capacity, recent, epoch, timestamp))
  }

  class Cache {
    const maxCapacity: nat
    const generate: nat -> Bytes
    var cachesByEpoch: map<nat, Bytes>
    var recent: seq<Access>

    /** List and map hold the same distinct epochs, at most `maxCapacity`, each with its generated data. */
    ghost predicate Valid()
      reads this
    {
      && maxCapacity > 0
      && |recent| <= maxCapacity
      && Distinct(Epochs(recent))
      && (forall e :: e in cachesByEpoch <==> e in Epochs(recent))
      && (forall e :: e in cachesByEpoch ==> cachesByEpoch[e] == generate(e))
    }

    constructor (max: nat, generate: nat -> Bytes)
      requires max > 0
      ensures Valid() && maxCapacity == max && this.generate == generate && recent == []
    {
      maxCapacity, this.generate := max, generate;
      cachesByEpoch, recent := map[], [];
    }

    /** Whatever was accessed before, the result is what the generator computes. */
    method Get(epoch: nat, timestamp: nat) returns (data: Bytes)
      requires Valid()
      modifies this
      ensures Valid()
      ensures data == generate(epoch)
      ensures recent == Accessed(maxCapacity, old(recent), epoch, timestamp)
    {
      ghost var touched := Touched(maxCapacity, recent, epoch, timestamp);
      TouchedDistinct(maxCapacity, recent, epoch, timestamp);
      if epoch in cachesByEpoch {
        var i := Find(epoch);
        recent := recent[i := (timestamp, epoch)];
      } else {
        if |recent| == maxCapacity {
          cachesByEpoch := cachesByEpoch - {recent[0].1};
          recent := recent[0 := (timestamp, epoch)];
        } else {
          recent := recent + [(timestamp, epoch)];
        }
        cachesByEpoch := cachesByEpoch[epoch := generate(epoch)];
      }
      assert recent == touched;
      DistinctHasNoRepeats(touched);
      SortKeepsEpochs(touched);
      recent := Sort(recent);
      data := cachesByEpoch[epoch];
    }

    /** The `find` on the recency list; it always succeeds. */
    method Find(epoch: nat) returns (i: nat)
      requires epoch in Epochs(recent)
      ensures i == IndexOf(Epochs(recent), epoch)
    {
      i := 0;
      ghost var epochs := Epochs(recent);
      while recent[i].1 != epoch
        invariant i < |recent|
        invariant epoch in epochs[i..] && i + IndexOf(epochs[i..], epoch) == IndexOf(epochs, epoch)
        decreases |recent| - i
      {
        assert epochs[i..][1..] == epochs[i + 1..];
        i := i + 1;
      }
      assert epochs[i..][0] == epoch;
    }
  }

  /** Which epochs are listed after an access. */
  lemma TouchedDistinct(capacity: nat, recent: seq<Access>, epoch: nat, timestamp: nat)
    requires capacity > 0 && |recent| <= capacity && Distinct(Epochs(recent))
    ensures
      var touched := Touched(capacity, recent, epoch, timestamp);
      && |touched| <= capacity && Distinct(Epochs(touched))
      && forall e :: e in Epochs(touched) <==>
           || e == epoch
           || (e in Epochs(recent) && (epoch in Epochs(recent) || |recent| < capacity || e != recent[0].1))
  {
    var touched := Touched(capacity, recent, epoch, timestamp);
    var before, after := Epochs(recent), Epochs(touched);
    if epoch in before {
      assert after == before;
    } else if |recent| == capacity {
      assert after == [epoch] + before[1..];
      assert before == [before[0]] + before[1..];
    } else {
      assert after == before + [epoch];
    }
  }

  lemma DistinctHasNoRepeats(s: seq<Access>)
    requires Distinct(Epochs(s))
    ensures NoRepeats(s)
  {
    forall i, j | 0 <= i < j < |s|
      ensures s[i] != s[j]
    {
      assert Epochs(s)[i] != Epochs(s)[j];
    }
  }

  lemma EpochsOfMembers(a: seq<Access>, b: seq<Access>)
    requires forall x :: x in a ==> x in b
    ensures forall e :: e in Epochs(a) ==> e in Epochs(b)
  {
    forall e | e in Epochs(a)
      ensures e in Epochs(b)
    {
      var i :| 0 <= i < |a| && Epochs(a)[i] == e;
      assert a[i] in b;
      var j :| 0 <= j < |b| && b[j] == a[i];
      assert Epochs(b)[j] == e;
    }
  }

  /** Sorting keeps the listed epochs. */
  lemma SortKeepsEpochs(s: seq<Access>)
    requires Distinct(Epochs(s)) && NoRepeats(s)
    ensures Distinct(Epochs(Sort(s)))
    ensures forall e :: e in Epochs(Sort(s)) <==> e in Epochs(s)
  {
    var r := Sort(s);
    EpochsOfMembers(r, s);
    EpochsOfMembers(s, r);
    forall i, j | 0 <= i < j < |r|
      ensures r[i].1 != r[j].1
    {
      assert Less(r[i], r[j]);
      assert r[i] in s && r[j] in s;
      var a :| 0 <= a < |s| && s[a] == r[i];
      var b :| 0 <= b < |s| && s[b] == r[j];
      assert Epochs(s)[a] != Epochs(s)[b];
    }
  }

  // ----- least recently used -----

  /** All epochs ever accessed, once each, in the order of their last access: an access is left out if its epoch
      is accessed again. */
  function ByLastAccess(accesses: seq<Access>): seq<nat> {
    if accesses == [] then []
    else if accesses[0].1 in Epochs(accesses[1..]) then ByLastAccess(accesses[1..])
    else [accesses[0].1] + ByLastAccess(accesses[1..])
  }

  /** `s` without the first `e`. */
  function Without(s: seq<nat>, e: nat): seq<nat> {
    if s == [] then [] else if s[0] == e then s[1..] else [s[0]] + Without(s[1..], e)
  }

  function LastOf(s: seq<nat>, n: nat): seq<nat> {
    if |s| <= n then s else s[|s| - n..]
  }

  predicate Increasing(accesses: seq<Access>) {
    forall i, j :: 0 <= i < j < |accesses| ==> accesses[i].0 < accesses[j].0
  }

  /** The recency list after the accesses, from an empty cache. */
  function RecentAfter(capacity: nat, accesses: seq<Access>): (recent: seq<Access>)
    requires capacity > 0
    ensures |recent| <= capacity && Distinct(Epochs(recent)) && Sorted(recent)
  {
    if accesses == [] then []
    else
      var n := |accesses| - 1;
      var before := RecentAfter(capacity, accesses[..n]);
      TouchedDistinct(capacity, before, accesses[n].1, accesses[n].0);
      DistinctHasNoRepeats(Touched(capacity, before, accesses[n].1, accesses[n].0));
      SortKeepsEpochs(Touched(capacity, before, accesses[n].1, accesses[n].0));
      Accessed(capacity, before, accesses[n].1, accesses[n].0)
  }

  lemma {:induction false} WithoutAt(s: seq<nat>, e: nat)
    requires e in s
    ensures Without(s, e) == s[..IndexOf(s, e)] + s[IndexOf(s, e) + 1..]
    ensures |Without(s, e)| == |s| - 1
  {
    if s[0] != e {
      WithoutAt(s[1..], e);
    }
  }

  lemma {:induction false} WithoutAbsent(s: seq<nat>, e: nat)
    requires e !in s
    ensures Without(s, e) == s
  {
    if s != [] {
      WithoutAbsent(s[1..], e);
    }
  }

  lemma {:induction false} WithoutLeft(a: seq<nat>, b: seq<nat>, e: nat)
    requires e in a
    ensures Without(a + b, e) == Without(a, e) + b
  {
    assert (a + b)[1..] == a[1..] + b;
    if a[0] != e {
      WithoutLeft(a[1..], b, e);
    }
  }

  lemma {:induction false} WithoutRight(a: seq<nat>, b: seq<nat>, e: nat)
    requires e !in a
    ensures Without(a + b, e) == a + Without(b, e)
  {
    if a == [] {
      assert a + b == b;
    } else {
      assert (a + b)[1..] == a[1..] + b;
      WithoutRight(a[1..], b, e);
    }
  }

  /** The listed epochs after an access with the newest timestamp. */
  function NextEpochs(capacity: nat, epochs: seq<nat>, e: nat): seq<nat>
    requires capacity > 0 && |epochs| <= capacity
  {
    if e in epochs then Without(epochs, e) + [e]
    else if |epochs| == capacity then epochs[1..] + [e]
    else epochs + [e]
  }

  lemma EpochsLength(recent: seq<Access>)
    ensures |Epochs(recent)| == |recent|
  {
  }

  lemma EpochsMoved(recent: seq<Access>, i: nat, x: Access)
    requires i < |recent|
    ensures Epochs(recent[..i] + recent[i + 1..] + [x]) == Epochs(recent)[..i] + Epochs(recent)[i + 1..] + [x.1]
  {
  }

  /** The accessed pair at the end, in place of its older one or of the first. */
  function Moved(capacity: nat, recent: seq<Access>, e: nat, t: nat): seq<Access>
    requires capacity > 0 && |recent| <= capacity
  {
    if e in Epochs(recent) then
      var i := IndexOf(Epochs(recent), e);
      recent[..i] + recent[i + 1..] + [(t, e)]
    else if |recent| == capacity then recent[..0] + recent[1..] + [(t, e)]
    else recent + [(t, e)]
  }

  /** Every other pair that stays is older. */
  predicate Fresh(capacity: nat, recent: seq<Access>, e: nat, t: nat)
    requires capacity > 0 && |recent| <= capacity
  {
    var moved := Moved(capacity, recent, e, t);
    forall k :: 0 <= k < |moved| - 1 ==> Less(moved[k], (t, e))
  }

  lemma ReplacedMembers(s: seq<Access>, i: nat, x: Access)
    requires i < |s|
    ensures SameMembers(s[i := x], s[..i] + s[i + 1..] + [x])
  {
    assert s[i := x] == s[..i] + [x] + s[i + 1..];
  }

  lemma MovedMembers(capacity: nat, recent: seq<Access>, e: nat, t: nat)
    requires capacity > 0 && |recent| <= capacity
    ensures SameMembers(Touched(capacity, recent, e, t), Moved(capacity, recent, e, t))
    ensures |Touched(capacity, recent, e, t)| == |Moved(capacity, recent, e, t)|
  {
    if e in Epochs(recent) {
      ReplacedMembers(recent, IndexOf(Epochs(recent), e), (t, e));
    } else if |recent| == capacity {
      ReplacedMembers(recent, 0, (t, e));
    }
  }

  lemma MovedSorted(capacity: nat, recent: seq<Access>, e: nat, t: nat)
    requires capacity > 0 && |recent| <= capacity && Sorted(recent) && Fresh(capacity, recent, e, t)
    ensures Sorted(Moved(capacity, recent, e, t))
  {
    hide IndexOf;
  }

  /** The accessed pair is the only one of its epoch. */
  lemma OnlyPair(capacity: nat, recent: seq<Access>, e: nat, t: nat, x: Access)
    requires capacity > 0 && |recent| <= capacity && Distinct(Epochs(recent))
    requires x in Touched(capacity, recent, e, t) && x.1 == e
    ensures x == (t, e)
  {
    var touched := Touched(capacity, recent, e, t);
    TouchedDistinct(capacity, recent, e, t);
    var i :| 0 <= i < |touched| && touched[i] == x;
    var j := if e in Epochs(recent) then IndexOf(Epochs(recent), e) else if |recent| == capacity then 0 else |recent|;
    assert touched[j] == (t, e);
    assert Epochs(touched)[i] == Epochs(touched)[j];
  }

  /** One access keeps the order of last access exactly if it is fresh. */
  lemma AccessExact(capacity: nat, recent: seq<Access>, e: nat, t: nat)
    requires capacity > 0 && |recent| <= capacity && Distinct(Epochs(recent)) && Sorted(recent)
    ensures Epochs(Accessed(capacity, recent, e, t)) == NextEpochs(capacity, Epochs(recent), e)
            <==> Fresh(capacity, recent, e, t)
  {
    hide Touched;
    hide Sort;
    hide NextEpochs;
    hide Moved;
    var moved, after := Moved(capacity, recent, e, t), Accessed(capacity, recent, e, t);
    MovedMembers(capacity, recent, e, t);
    MovedEpochs(capacity, recent, e, t);
    MovedLast(capacity, recent, e, t);
    if Fresh(capacity, recent, e, t) {
      MovedSorted(capacity, recent, e, t);
      AccessGives(capacity, recent, (t, e), moved);
    } else if Epochs(after) == Epochs(moved) {
      TouchedDistinct(capacity, recent, e, t);
      DistinctHasNoRepeats(Touched(capacity, recent, e, t));
      var n := |after| - 1;
      assert after[n].1 == Epochs(after)[n] == Epochs(moved)[n] == e;
      OnlyPair(capacity, recent, e, t, after[n]);
      var k :| 0 <= k < |moved| - 1 && !Less(moved[k], (t, e));
      assert moved[k] in after;
      var j :| 0 <= j < |after| && after[j] == moved[k];
      assert j == n ==> Epochs(moved)[k] == e;
      MovedDistinct(capacity, recent, e, t);
      assert false;
    }
  }

  lemma MovedLast(capacity: nat, recent: seq<Access>, e: nat, t: nat)
    requires capacity > 0 && |recent| <= capacity
    ensures
      var moved := Moved(capacity, recent, e, t);
      |moved| > 0 && moved[|moved| - 1] == (t, e)
  {
  }

  lemma MovedDistinct(capacity: nat, recent: seq<Access>, e: nat, t: nat)
    requires capacity > 0 && |recent| <= capacity && Distinct(Epochs(recent))
    ensures Distinct(Epochs(Moved(capacity, recent, e, t)))
  {
    var epochs := Epochs(recent);
    var moved := Epochs(Moved(capacity, recent, e, t));
    if e in epochs {
      EpochsMoved(recent, IndexOf(epochs, e), (t, e));
      assert moved == epochs[..IndexOf(epochs, e)] + epochs[IndexOf(epochs, e) + 1..] + [e];
    } else if |recent| == capacity {
      EpochsMoved(recent, 0, (t, e));
      assert moved == epochs[..0] + epochs[1..] + [e];
    } else {
      EpochsAppended(recent, (t, e));
    }
  }

  lemma MovedEpochs(capacity: nat, recent: seq<Access>, e: nat, t: nat)
    requires capacity > 0 && |recent| <= capacity
    ensures Epochs(Moved(capacity, recent, e, t)) == NextEpochs(capacity, Epochs(recent), e)
  {
    hide Epochs;
    hide Without;
    hide IndexOf;
    var epochs := Epochs(recent);
    EpochsLength(recent);
    if e in epochs {
      EpochsMoved(recent, IndexOf(epochs, e), (t, e));
      WithoutAt(epochs, e);
    } else if |recent| == capacity {
      EpochsMoved(recent, 0, (t, e));
      assert epochs[..0] + epochs[1..] == epochs[1..];
    } else {
      EpochsAppended(recent, (t, e));
    }
  }

  lemma EpochsAppended(recent: seq<Access>, x: Access)
    ensures Epochs(recent + [x]) == Epochs(recent) + [x.1]
  {
  }

  lemma {:induction false} ListsAccessed(accesses: seq<Access>)
    ensures forall e :: e in ByLastAccess(accesses) <==> e in Epochs(accesses)
    ensures Distinct(ByLastAccess(accesses))
  {
    if accesses != [] {
      ListsAccessed(accesses[1..]);
      assert Epochs(accesses) == [accesses[0].1] + Epochs(accesses[1..]);
    }
  }

  /** A further access moves its epoch to the end. */
  lemma {:induction false} AppendAccess(accesses: seq<Access>, x: Access)
    ensures ByLastAccess(accesses + [x]) == Without(ByLastAccess(accesses), x.1) + [x.1]
  {
    if accesses == [] {
      assert [] + [x] == [x] && [x][1..] == [];
    } else {
      var rest := accesses[1..];
      AppendAccess(rest, x);
      ListsAccessed(rest);
      assert (accesses + [x])[1..] == rest + [x];
      EpochsAppended(rest, x);
      if accesses[0].1 !in Epochs(rest) && accesses[0].1 == x.1 {
        WithoutAbsent(ByLastAccess(rest), x.1);
      }
    }
  }

  lemma LastOfSuffix(a: seq<nat>, b: seq<nat>, n: nat)
    requires |b| == n || (|b| < n && a == [])
    ensures LastOf(a + b, n) == b
  {
  }

  lemma KeepsLastHit(capacity: nat, dropped: seq<nat>, kept: seq<nat>, e: nat)
    requires capacity > 0 && Distinct(dropped + kept) && e in kept
    requires |kept| == capacity || (|kept| < capacity && dropped == [])
    ensures NextEpochs(capacity, kept, e) == LastOf(Without(dropped + kept, e) + [e], capacity)
  {
    assert e !in dropped by {
      var i := IndexOf(kept, e);
      assert (dropped + kept)[|dropped| + i] == e;
      assert forall j :: 0 <= j < |dropped| ==> (dropped + kept)[j] == dropped[j];
    }
    WithoutRight(dropped, kept, e);
    WithoutAt(kept, e);
    var moved := Without(kept, e) + [e];
    hide Without;
    hide Distinct;
    assert Without(dropped + kept, e) + [e] == dropped + moved;
    LastOfSuffix(dropped, moved, capacity);
  }

  lemma KeepsLastMiss(capacity: nat, front: seq<nat>, kept: seq<nat>, e: nat)
    requires capacity > 0 && e !in kept
    requires |kept| == capacity || (|kept| < capacity && front == [])
    ensures NextEpochs(capacity, kept, e) == LastOf(front + kept + [e], capacity)
  {
    if |kept| == capacity {
      assert front + kept + [e] == (front + [kept[0]]) + (kept[1..] + [e]);
      LastOfSuffix(front + [kept[0]], kept[1..] + [e], capacity);
    } else {
      assert front + kept + [e] == kept + [e];
    }
  }

  /** Keeping the last `capacity` epochs commutes with an access. */
  lemma KeepsLast(capacity: nat, all: seq<nat>, e: nat)
    requires capacity > 0 && Distinct(all)
    ensures NextEpochs(capacity, LastOf(all, capacity), e) == LastOf(Without(all, e) + [e], capacity)
  {
    hide Distinct;
    hide NextEpochs;
    var kept := LastOf(all, capacity);
    var dropped := all[..|all| - |kept|];
    assert all == dropped + kept;
    if e in kept {
      KeepsLastHit(capacity, dropped, kept, e);
    } else if e in dropped {
      WithoutLeft(dropped, kept, e);
      KeepsLastMiss(capacity, Without(dropped, e), kept, e);
    } else {
      WithoutAbsent(all, e);
      KeepsLastMiss(capacity, dropped, kept, e);
    }
  }

  lemma RecentAfterAppend(capacity: nat, accesses: seq<Access>, x: Access)
    requires capacity > 0
    ensures RecentAfter(capacity, accesses + [x]) == Accessed(capacity, RecentAfter(capacity, accesses), x.1, x.0)
  {
    assert (accesses + [x])[..|accesses|] == accesses;
  }

  /** The result of one access, given as a sorted list of the right pairs. */
  lemma AccessGives(capacity: nat, recent: seq<Access>, x: Access, after: seq<Access>)
    requires capacity > 0 && |recent| <= capacity && Distinct(Epochs(recent)) && Sorted(after)
    requires |after| == |Touched(capacity, recent, x.1, x.0)| && SameMembers(Touched(capacity, recent, x.1, x.0), after)
    ensures Accessed(capacity, recent, x.1, x.0) == after
  {
    hide Touched;
    var touched := Touched(capacity, recent, x.1, x.0);
    TouchedDistinct(capacity, recent, x.1, x.0);
    DistinctHasNoRepeats(touched);
    SortedUnique(Sort(touched), after);
  }

  // ----- when the cache is least recently used -----

  /** The timestamp of the last access of an epoch. */
  function LastTime(accesses: seq<Access>, e: nat): nat {
    if accesses == [] then 0
    else
      var n := |accesses| - 1;
      if accesses[n].1 == e then accesses[n].0 else LastTime(accesses[..n], e)
  }

  lemma AccessedMembers(capacity: nat, recent: seq<Access>, e: nat, t: nat, x: Access)
    requires capacity > 0 && |recent| <= capacity && Distinct(Epochs(recent))
    requires x in Accessed(capacity, recent, e, t)
    ensures x in recent || x == (t, e)
    ensures x.1 == e ==> x == (t, e)
  {
    TouchedDistinct(capacity, recent, e, t);
    DistinctHasNoRepeats(Touched(capacity, recent, e, t));
    assert x in Touched(capacity, recent, e, t);
    if x.1 == e {
      OnlyPair(capacity, recent, e, t, x);
    }
  }

  /** A listed pair holds the time of its epoch's last access, in order or not. */
  lemma {:induction false} RecentTimes(capacity: nat, accesses: seq<Access>)
    requires capacity > 0
    ensures forall x :: x in RecentAfter(capacity, accesses) ==> x.0 == LastTime(accesses, x.1)
  {
    if accesses != [] {
      var n := |accesses| - 1;
      var before := RecentAfter(capacity, accesses[..n]);
      var e, t := accesses[n].1, accesses[n].0;
      RecentTimes(capacity, accesses[..n]);
      hide Accessed;
      hide Distinct;
      forall x | x in RecentAfter(capacity, accesses)
        ensures x.0 == LastTime(accesses, x.1)
      {
        AccessedMembers(capacity, before, e, t, x);
      }
    }
  }

  /** The cache holds the last `capacity` distinct epochs, in the order of their last access. */
  predicate IsLru(capacity: nat, accesses: seq<Access>)
    requires capacity > 0
  {
    Epochs(RecentAfter(capacity, accesses)) == LastOf(ByLastAccess(accesses), capacity)
  }

  /** The access is newer than the last access of every other epoch that is to stay, ties broken by the epoch. */
  predicate Newest(capacity: nat, accesses: seq<Access>, access: Access) {
    var kept := LastOf(ByLastAccess(accesses + [access]), capacity);
    forall k :: 0 <= k < |kept| - 1 ==>
      || LastTime(accesses, kept[k]) < access.0
      || (LastTime(accesses, kept[k]) == access.0 && kept[k] < access.1)
  }

  /** A least recently used cache stays one exactly if the access is the newest. */
  lemma LruStep(capacity: nat, accesses: seq<Access>, access: Access)
    requires capacity > 0 && IsLru(capacity, accesses)
    ensures IsLru(capacity, accesses + [access]) <==> Newest(capacity, accesses, access)
  {
    hide Epochs;
    hide ByLastAccess;
    hide LastOf;
    hide RecentAfter;
    hide NextEpochs;
    var recent := RecentAfter(capacity, accesses);
    var e, t := access.1, access.0;
    ListsAccessed(accesses);
    KeepsLast(capacity, ByLastAccess(accesses), e);
    AppendAccess(accesses, access);
    RecentAfterAppend(capacity, accesses, access);
    AccessExact(capacity, recent, e, t);
    FreshIsNewest(capacity, accesses, access);
  }

  lemma FreshIsNewest(capacity: nat, accesses: seq<Access>, access: Access)
    requires capacity > 0
    requires LastOf(ByLastAccess(accesses + [access]), capacity) ==
             NextEpochs(capacity, Epochs(RecentAfter(capacity, accesses)), access.1)
    ensures Fresh(capacity, RecentAfter(capacity, accesses), access.1, access.0) <==> Newest(capacity, accesses, access)
  {
    hide ByLastAccess;
    hide LastOf;
    hide NextEpochs;
    hide RecentAfter;
    var recent := RecentAfter(capacity, accesses);
    var moved := Moved(capacity, recent, access.1, access.0);
    MovedEpochs(capacity, recent, access.1, access.0);
    RecentTimes(capacity, accesses);
    forall k | 0 <= k < |moved| - 1
      ensures moved[k] == (LastTime(accesses, Epochs(moved)[k]), Epochs(moved)[k])
    {
      assert moved[k] in recent;
    }
  }

  /** Least recently used after each of the accesses. */
  predicate LruThroughout(capacity: nat, accesses: seq<Access>)
    requires capacity > 0
  {
    forall m :: 0 <= m <= |accesses| ==> IsLru(capacity, accesses[..m])
  }

  lemma LruThroughoutStep(capacity: nat, accesses: seq<Access>, access: Access)
    requires capacity > 0
    ensures LruThroughout(capacity, accesses + [access]) <==>
            LruThroughout(capacity, accesses) && IsLru(capacity, accesses + [access])
    ensures LruThroughout(capacity, accesses) ==> IsLru(capacity, accesses)
  {
    hide IsLru;
    var all := accesses + [access];
    assert forall m :: 0 <= m <= |accesses| ==> all[..m] == accesses[..m];
    assert all[..|all|] == all && accesses[..|accesses|] == accesses;
  }

  /** Every access is the newest among those whose epochs are to stay. */
  predicate NewestThroughout(capacity: nat, accesses: seq<Access>) {
    forall m :: 0 <= m < |accesses| ==> Newest(capacity, accesses[..m], accesses[m])
  }

  lemma NewestThroughoutStep(capacity: nat, accesses: seq<Access>, access: Access)
    ensures NewestThroughout(capacity, accesses + [access]) <==>
            NewestThroughout(capacity, accesses) && Newest(capacity, accesses, access)
  {
    hide Newest;
    var all := accesses + [access];
    forall m | 0 <= m < |accesses|
      ensures all[..m] == accesses[..m] && all[m] == accesses[m]
    {
    }
    assert all[..|accesses|] == accesses;
    if NewestThroughout(capacity, all) {
      assert Newest(capacity, all[..|accesses|], all[|accesses|]);
      forall m | 0 <= m < |accesses|
        ensures Newest(capacity, accesses[..m], accesses[m])
      {
        assert Newest(capacity, all[..m], all[m]);
      }
    }
  }

  lemma EmptyThroughout(capacity: nat)
    requires capacity > 0
    ensures LruThroughout(capacity, []) && NewestThroughout(capacity, [])
  {
    var none: seq<Access> := [];
    assert IsLru(capacity, none);
    hide IsLru;
    assert forall m :: 0 <= m <= 0 ==> none[..m] == none;
  }

  /** Main result: whatever the timestamps, the cache is least recently used throughout exactly if every access is the
      newest among those whose epochs are to stay. */
  lemma {:induction false} RecencyIsExact(capacity: nat, accesses: seq<Access>)
    requires capacity > 0
    ensures LruThroughout(capacity, accesses) <==> NewestThroughout(capacity, accesses)
  {
    hide Newest;
    hide IsLru;
    hide LruThroughout;
    hide NewestThroughout;
    if accesses == [] {
      EmptyThroughout(capacity);
    } else {
      var n := |accesses| - 1;
      var front := accesses[..n];
      RecencyIsExact(capacity, front);
      assert accesses == front + [accesses[n]];
      LruThroughoutStep(capacity, front, accesses[n]);
      NewestThroughoutStep(capacity, front, accesses[n]);
      if LruThroughout(capacity, front) {
        LruStep(capacity, front, accesses[n]);
      }
    }
  }

  lemma {:induction false} LastTimeIsOld(accesses: seq<Access>, e: nat, t: nat)
    requires e in Epochs(accesses) && forall i :: 0 <= i < |accesses| ==> accesses[i].0 < t
    ensures LastTime(accesses, e) < t
  {
    var n := |accesses| - 1;
    if accesses[n].1 != e {
      assert e in Epochs(accesses[..n]) by {
        var i :| 0 <= i < |accesses| && Epochs(accesses)[i] == e;
        assert Epochs(accesses[..n])[i] == e;
      }
      LastTimeIsOld(accesses[..n], e, t);
    }
  }

  /** With increasing timestamps the cache holds exactly the last `capacity` distinct epochs. */
  lemma LeastRecentlyUsed(capacity: nat, accesses: seq<Access>)
    requires capacity > 0 && Increasing(accesses)
    ensures IsLru(capacity, accesses)
  {
    hide IsLru;
    hide ByLastAccess;
    hide LastTime;
    RecencyIsExact(capacity, accesses);
    forall m | 0 <= m < |accesses|
      ensures Newest(capacity, accesses[..m], accesses[m])
    {
      NewerIsNewest(capacity, accesses[..m], accesses[m]);
    }
    assert accesses[..|accesses|] == accesses;
  }

  lemma NewerIsNewest(capacity: nat, accesses: seq<Access>, access: Access)
    requires capacity > 0 && forall i :: 0 <= i < |accesses| ==> accesses[i].0 < access.0
    ensures Newest(capacity, accesses, access)
  {
    hide ByLastAccess;
    var all := ByLastAccess(accesses + [access]);
    var kept := LastOf(all, capacity);
    ListsAccessed(accesses + [access]);
    AppendAccess(accesses, access);
    EpochsAppended(accesses, access);
    forall k | 0 <= k < |kept| - 1
      ensures LastTime(accesses, kept[k]) < access.0
    {
      var i := k + |all| - |kept|;
      assert kept[k] == all[i] && all[|all| - 1] == access.1;
      assert all[i] in Epochs(accesses + [access]) && all[i] != access.1;
      LastTimeIsOld(accesses, kept[k], access.0);
    }
  }

  lemma StaleSecond()
    ensures RecentAfter(2, [(5, 1), (3, 2)]) == [(3, 2), (5, 1)]
  {
    hide Sort;
    assert [] + [(5, 1)] == [(5, 1)] && [(5, 1)] + [(3, 2)] == [(5, 1), (3, 2)];
    RecentAfterAppend(2, [], (5, 1));
    AccessGives(2, [], (5, 1), [(5, 1)]);
    RecentAfterAppend(2, [(5, 1)], (3, 2));
    AccessGives(2, [(5, 1)], (3, 2), [(3, 2), (5, 1)]);
  }

  /** With a timestamp that steps back the cache can evict the epoch it accessed last: here epoch 2 goes and
      epoch 1, accessed before it, stays. */
  lemma StaleTimestampEvicts()
    ensures Epochs(RecentAfter(2, [(5, 1), (3, 2)] + [(6, 3)])) == [1, 3]
    ensures RecentAfter(2, [(5, 1), (3, 2)]) == [(3, 2), (5, 1)]
  {
    hide Sort;
    StaleSecond();
    RecentAfterAppend(2, [(5, 1), (3, 2)], (6, 3));
    var recent := [(3, 2), (5, 1)];
    assert Epochs(recent) == [2, 1];
    assert Touched(2, recent, 3, 6) == [(6, 3), (5, 1)];
    AccessGives(2, recent, (6, 3), [(5, 1), (6, 3)]);
  }
}
