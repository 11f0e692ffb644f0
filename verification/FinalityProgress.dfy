/** When the finality search of an import can fail.

  The search fails when a heavier fork becomes the best chain while it is still less
  than D blocks above the finalized block.  The difficulty rule moves the difficulty
  of a block only within 1949/2048 and 2050/2048 of its parent's, so a shorter fork
  cannot outweigh up to six blocks.  For D <= 6 (the runtimes use 1 and 3) the failure
  is therefore unreachable; seven blocks can be outweighed by six.
*/
module FinalityProgress {
  import opened Primitives
  import opened EthereumHeader
  import opened Ancestry
  import opened LightClient
  import opened LightClientInvariant
  import opened LightClientRuns
  import Difficulty

  /** The bomb at a height, which all forks share. */
  ghost function BombAt(env: Env, number: nat): nat {
    match Difficulty.BombDelay(env.difficultyConfig, number)
    case None => 0
    case Some(delay) => Difficulty.Bomb(number, delay)
  }

  /** Without the bomb, `d` lies between 1949/2048 and 2050/2048 of `base`. */
  predicate Within(base: nat, d: nat, bomb: nat) {
    1949 * base <= 2048 * (d - bomb) <= 2050 * base
  }

  /** A difficulty of `d` at height `number` is within the reach of a parent of difficulty `p`. */
  ghost predicate InReach(env: Env, number: nat, p: nat, d: nat) {
    var base := Max(Difficulty.MINIMUM_DIFFICULTY, p);
    d >= Difficulty.MINIMUM_DIFFICULTY && Within(base, d, BombAt(env, number))
  }

  /** The reach of an imported block. */
  lemma DifficultyInReach(env: Env, hist: History, k: H256)
    requires HistoryOk(env, hist) && k in hist && k != Root(env)
    ensures hist[k].parentHash in hist && hist[k].number == hist[hist[k].parentHash].number + 1
    ensures hist[k].difficulty > 0
    ensures InReach(env, hist[k].number, hist[hist[k].parentHash].difficulty, hist[k].difficulty)
  {
    assert LinkedAt(hist, Root(env), k) && RecordedAt(env, hist, k);
    var parent := hist[hist[k].parentHash];
    var proof :| proof in env.proofs && SealChecks(env, hist[k], parent, proof) == Success;
    Difficulty.CalcDifficultyRate(env.difficultyConfig, hist[k].timestamp, parent);
  }

  /** One step down the chain towards `a`: the parent, the work and the reach. */
  lemma OneStep(env: Env, hist: History, a: H256, k: H256)
    requires HistoryOk(env, hist) && Above(env, hist, a, k) && k != a
    ensures hist[k].parentHash in hist
    ensures hist[k].number == hist[hist[k].parentHash].number + 1
    ensures Above(env, hist, a, hist[k].parentHash)
    ensures hist[k].number == hist[a].number + 1 ==> hist[k].parentHash == a
    ensures Work(env, hist, k) == Work(env, hist, hist[k].parentHash) + hist[k].difficulty
    ensures hist[k].difficulty > 0
    ensures InReach(env, hist[k].number, hist[hist[k].parentHash].difficulty, hist[k].difficulty)
  {
    hide InReach;
    assert LinkedAt(hist, Root(env), k);
    DifficultyInReach(env, hist, k);
  }

  /** The arithmetic: of `k` blocks `x` that fall as fast as they can from `p` and `k - 1` blocks `y` that rise as fast
      as they can, both with the bombs `b`, the former weigh more. */
  lemma Outweigh(
    k: nat, p: nat, b1: nat, b2: nat, b3: nat, b4: nat, b5: nat, b6: nat,
    x1: nat, x2: nat, x3: nat, x4: nat, x5: nat, x6: nat, y1: nat, y2: nat, y3: nat, y4: nat, y5: nat)
    requires 2 <= k <= 6 && p > 0
    requires Within(p, x1, b1) && Within(x1, x2, b2) && Within(p, y1, b1)
    requires if k >= 3 then Within(x2, x3, b3) && Within(y1, y2, b2) else x3 == 0 == y2
    requires if k >= 4 then Within(x3, x4, b4) && Within(y2, y3, b3) else x4 == 0 == y3
    requires if k >= 5 then Within(x4, x5, b5) && Within(y3, y4, b4) else x5 == 0 == y4
    requires if k >= 6 then Within(x5, x6, b6) && Within(y4, y5, b5) else x6 == 0 == y5
    ensures x1 + x2 + x3 + x4 + x5 + x6 > y1 + y2 + y3 + y4 + y5
  {
    if k == 2 {
    } else if k == 3 {
    } else if k == 4 {
    } else if k == 5 {
    }
  }

  // ----- difficulties along a chain -----

  /** From `a`'s own difficulty up to `k`'s. */
  ghost function Difficulties(env: Env, hist: History, a: H256, k: H256): (s: seq<nat>)
    requires HistoryOk(env, hist) && Above(env, hist, a, k)
    ensures |s| == hist[k].number - hist[a].number + 1
    decreases hist[k].number
  {
    if k == a then [hist[a].difficulty]
    else
      OneStep(env, hist, a, k);
      Difficulties(env, hist, a, hist[k].parentHash) + [hist[k].difficulty]
  }

  /** The sum without the first. */
  function Total(s: seq<nat>): nat {
    if |s| <= 1 then 0 else Total(s[..|s| - 1]) + s[|s| - 1]
  }

  /** Each difficulty is in reach of the one before it; the second stands at height `n`. */
  ghost predicate InReachAll(env: Env, n: nat, s: seq<nat>) {
    forall i :: 0 < i < |s| ==> InReach(env, n + i - 1, s[i - 1], s[i])
  }

  lemma {:induction false} WorkAlong(env: Env, hist: History, a: H256, k: H256)
    requires HistoryOk(env, hist) && Above(env, hist, a, k)
    ensures
      var s := Difficulties(env, hist, a, k);
      && s[0] == hist[a].difficulty && s[|s| - 1] == hist[k].difficulty
      && Work(env, hist, k) == Work(env, hist, a) + Total(s)
      && InReachAll(env, hist[a].number + 1, s)
    decreases hist[k].number
  {
    hide InReach;
    if k != a {
      OneStep(env, hist, a, k);
      WorkAlong(env, hist, a, hist[k].parentHash);
      var before := Difficulties(env, hist, a, hist[k].parentHash);
      var s := Difficulties(env, hist, a, k);
      assert s[..|s| - 1] == before;
      hide Work;
      forall i | 0 < i < |s|
        ensures InReach(env, hist[a].number + 1 + i - 1, s[i - 1], s[i])
      {
        assert i < |before| ==> InReach(env, hist[a].number + 1 + i - 1, before[i - 1], before[i]);
      }
    }
  }

  lemma {:induction false} TotalIs(s: seq<nat>, k: nat)
    requires 0 < k < |s|
    ensures Total(s[..k + 1]) == Total(s[..k]) + s[k]
  {
    assert s[..k + 1][..k] == s[..k];
  }

  function Nth(s: seq<nat>, i: nat): nat {
    if i < |s| then s[i] else 0
  }

  /** Unfolds the sum of up to six. */
  lemma TotalUpToSix(s: seq<nat>)
    requires 1 <= |s| <= 7
    ensures Total(s) == Nth(s, 1) + Nth(s, 2) + Nth(s, 3) + Nth(s, 4) + Nth(s, 5) + Nth(s, 6)
  {
    hide Total;
    TotalNone(s[..1]);
    if |s| > 1 { TotalIs(s, 1); }
    if |s| > 2 { TotalIs(s, 2); }
    if |s| > 3 { TotalIs(s, 3); }
    if |s| > 4 { TotalIs(s, 4); }
    if |s| > 5 { TotalIs(s, 5); }
    if |s| > 6 { TotalIs(s, 6); }
    assert s[..|s|] == s;
  }

  lemma TotalNone(s: seq<nat>)
    requires |s| == 1
    ensures Total(s) == 0
  {
  }

  /** What the reach means for the i-th difficulty. */
  lemma Reached(env: Env, n: nat, s: seq<nat>, i: nat, height: nat)
    requires InReachAll(env, n, s) && 0 < i && s != [] && height == n + i - 1
    ensures
      var base := if i == 1 then Max(Difficulty.MINIMUM_DIFFICULTY, s[0]) else Nth(s, i - 1);
      i < |s| ==> Within(base, Nth(s, i), BombAt(env, height))
    ensures if i < |s| then Nth(s, i) > 0 else Nth(s, i) == 0
  {
    if i < |s| {
      assert InReach(env, n + i - 1, s[i - 1], s[i]);
      if i > 1 {
        assert InReach(env, n + i - 2, s[i - 2], s[i - 1]);
      }
    }
  }

  /** The i-th step of the longer chain and the step before it of the shorter one. */
  lemma Premise(env: Env, n: nat, xs: seq<nat>, ys: seq<nat>, i: nat, low: nat, high: nat)
    requires InReachAll(env, n, xs) && InReachAll(env, n, ys) && |ys| == |xs| - 1 > 0
    requires 3 <= i && low == n + i - 2 && high == n + i - 1
    ensures if |xs| - 1 >= i
            then && Within(Nth(xs, i - 1), Nth(xs, i), BombAt(env, high))
                 && Within(Nth(ys, i - 2), Nth(ys, i - 1), BombAt(env, low))
            else Nth(xs, i) == 0 == Nth(ys, i - 1)
  {
    hide Within;
    hide InReachAll;
    hide BombAt;
    Reached(env, n, xs, i, high);
    Reached(env, n, ys, i - 1, low);
  }

  /** Up to six blocks outweigh a fork that is one block shorter. */
  lemma Outweighs(env: Env, n: nat, xs: seq<nat>, ys: seq<nat>)
    requires 2 <= |xs| <= 7 && |ys| == |xs| - 1 && xs[0] == ys[0]
    requires InReachAll(env, n, xs) && InReachAll(env, n, ys)
    ensures Total(xs) > Total(ys)
  {
    hide Total;
    hide InReachAll;
    hide BombAt;
    hide Within;
    var p: nat := Max(Difficulty.MINIMUM_DIFFICULTY, xs[0]);
    assert p > 0;
    hide Max;
    Reached(env, n, xs, 1, n);
    TotalUpToSix(xs);
    TotalUpToSix(ys);
    if |xs| > 2 {
      Reached(env, n, xs, 2, n + 1);
      Reached(env, n, ys, 1, n);
      Premise(env, n, xs, ys, 3, n + 1, n + 2);
      Premise(env, n, xs, ys, 4, n + 2, n + 3);
      Premise(env, n, xs, ys, 5, n + 3, n + 4);
      Premise(env, n, xs, ys, 6, n + 4, n + 5);
      assert Nth(ys, 6) == 0;
      hide Nth;
      Outweigh(
        |xs| - 1, p,
        BombAt(env, n), BombAt(env, n + 1), BombAt(env, n + 2),
        BombAt(env, n + 3), BombAt(env, n + 4), BombAt(env, n + 5),
        Nth(xs, 1), Nth(xs, 2), Nth(xs, 3), Nth(xs, 4), Nth(xs, 5), Nth(xs, 6),
        Nth(ys, 1), Nth(ys, 2), Nth(ys, 3), Nth(ys, 4), Nth(ys, 5));
    }
  }

  /** Up to six blocks outweigh any shorter fork from the same block. */
  lemma LongerIsHeavier(env: Env, hist: History, a: H256, x: H256, y: H256)
    requires HistoryOk(env, hist) && Above(env, hist, a, x) && Above(env, hist, a, y)
    requires hist[y].number < hist[x].number <= hist[a].number + 6
    ensures Work(env, hist, y) < Work(env, hist, x)
  {
    hide Work;
    hide InReachAll;
    var x' := Ancestor(hist, Root(env), x, hist[y].number + 1);
    AncestorSelf(env, hist, x, hist[y].number + 1);
    AncestorsComparable(hist, Root(env), a, x', x);
    WorkAlong(env, hist, a, x');
    WorkAlong(env, hist, a, y);
    Outweighs(env, hist[a].number + 1, Difficulties(env, hist, a, x'), Difficulties(env, hist, a, y));
    NotLighter(env, hist, x', x);
  }

  lemma {:induction false} NotLighter(env: Env, hist: History, a: H256, k: H256)
    requires HistoryOk(env, hist) && Above(env, hist, a, k)
    ensures Work(env, hist, a) <= Work(env, hist, k)
    decreases hist[k].number
  {
    if k != a {
      OneStep(env, hist, a, k);
      NotLighter(env, hist, a, hist[k].parentHash);
    }
  }

  /** With D <= 6 the best block is always D above the finalized one, unless that is still genesis. */
  lemma BestFarAboveFinalized(env: Env, c: Chain)
    requires Inv(env, c) && env.descendantsUntilFinalized <= 6
    ensures c.store.finalized.hash == Root(env)
            || c.store.finalized.number + env.descendantsUntilFinalized <= c.store.best.number
  {
    var f := c.store.finalized.hash;
    if f != Root(env) {
      assert FlaggedAt(env, c, f);
      var b :| ConfirmedBy(env, c.history, f, b);
      if c.store.best.number < c.history[b].number {
        LongerIsHeavier(env, c.history, f, b, c.store.best.hash);
        assert false;
      }
    }
  }

  lemma SettleSucceeds(env: Env, c: Chain, sender: Account, header: Header, total: U256)
    requires Inv(env, c) && Joins(env, c.history, header) && env.descendantsUntilFinalized <= 6
    requires header.number > c.store.finalized.number
    requires Above(env, c.history, c.store.finalized.hash, header.parentHash)
    requires total == Work(env, c.history, header.parentHash) + header.difficulty
    ensures Settle(env, Record(env, c.store, sender, header, total)).1 == Success
  {
    RecordKeepsInv(env, c, sender, header, total);
    var c2 := Recorded(env, c, sender, header, total);
    BestFarAboveFinalized(env, c2);
    SettleKeepsInv(env, c2);
  }

  lemma ImportValidatedSucceeds(env: Env, c: Chain, sender: Account, header: Header)
    requires Inv(env, c) && Joins(env, c.history, header) && env.descendantsUntilFinalized <= 6
    requires header.number > c.store.finalized.number
    requires Above(env, c.history, c.store.finalized.hash, header.parentHash)
    requires header.parentHash in c.store.headers
    ensures ImportValidated(env, c.store, sender, header).1 in {Success, Failure(TotalDifficultyOverflow)}
  {
    hide Settle;
    assert StoredAt(env, c, header.parentHash);
    var total := TotalWith(c.store, header);
    if total.Some? {
      SettleSucceeds(env, c, sender, header, total.value);
    }
  }

  lemma ImportNeverUnknown(env: Env, c: Chain, call: Call)
    requires Inv(env, c) && Offers(env, call.header, call.proof) && env.descendantsUntilFinalized <= 6
    requires call.header.parentHash in c.history ==>
               call.header.number == c.history[call.header.parentHash].number + 1
    ensures Descending(c.store.headers)
    ensures ImportHeader(env, c.store, call).1 != Failure(Unknown)
  {
    ValidateNeverUnknown(env, c, call.header, call.proof);
    if call.origin.Signed? && Validate(env, c.store, call.header, call.proof) == Success {
      assert call.header.parentHash in c.store.headers;
      hide Validate;
      hide ImportValidated;
      AcceptedJoins(env, c, call.header, call.proof);
      ImportValidatedSucceeds(env, c, call.origin.who, call.header);
    }
  }

  /** With D <= 6, after any run, no call returns `Unknown` for a header numbered one above its parent. */
  lemma UnknownUnreachable(env: Env, calls: seq<Call>, call: Call)
    requires SoundEnv(env) && CallsIn(env, calls) && Offers(env, call.header, call.proof)
    requires env.descendantsUntilFinalized <= 6
    requires
      var hist := Run(env, calls).history;
      call.header.parentHash in hist ==> call.header.number == hist[call.header.parentHash].number + 1
    ensures Descending(Run(env, calls).store.headers)
    ensures ImportHeader(env, Run(env, calls).store, call).1 != Failure(Unknown)
  {
    ImportNeverUnknown(env, Run(env, calls), call);
  }
}
