/** Concrete runs of the pallet with one fork.

  The blocks up to the height `base` are common, nine seconds apart, so that they keep
  the difficulty.  From there on two chains go on: a slow one with a block every 1000
  seconds and a fast one with a block every second.  The environment is as simple as the
  pallet allows: every block carries proof of work, and hashes do not collide at all.
*/
module Forks {
  import opened Primitives
  import opened EthereumHeader
  import opened Ancestry
  import opened LightClient
  import opened LightClientInvariant
  import opened LightClientRuns
  import Arithmetic
  import Difficulty
  import EthashProof

  // ----- the blocks -----

  const TOP: nat := 257

  const INITIAL: nat := 0x1_0000_0000

  /** The difficulty upon a block of difficulty `d`. */
  function Next(d: nat, sigma: int): nat {
    Max(Difficulty.MINIMUM_DIFFICULTY, d + d / 2048 * sigma)
  }

  /** Of the slow block `k` above the common ones. */
  function SlowDifficulty(k: nat): (d: nat)
    ensures d <= INITIAL
  {
    if k == 0 then INITIAL
    else
      var d := SlowDifficulty(k - 1);
      Arithmetic.Scaled(d / 2048, -99, 0);
      Next(d, -99)
  }

  /** Of the fast block `k` above the common ones. */
  function FastDifficulty(k: nat): (d: nat)
    requires k <= TOP
    ensures INITIAL <= d <= INITIAL + k * 0x40_0000
  {
    if k == 0 then INITIAL else Next(FastDifficulty(k - 1), 1)
  }

  /** The common blocks count as slow ones. */
  predicate Exists(base: nat, n: nat, fast: bool) {
    n <= TOP && (fast ==> n > base)
  }

  function DifficultyAt(base: nat, n: nat, fast: bool): (d: nat)
    requires Exists(base, n, fast)
    ensures d < 0x2_0000_0000
  {
    if n <= base then INITIAL else if fast then FastDifficulty(n - base) else SlowDifficulty(n - base)
  }

  function Name(n: nat, fast: bool): H256
    requires n <= TOP
  {
    H256([n / 256, n % 256, if fast then 1 else 0])
  }

  /** Of the block that block `n` stands upon. */
  function ParentName(base: nat, n: nat, fast: bool): H256
    requires Exists(base, n, fast) && n > 0
  {
    Name(n - 1, fast && n - 1 > base)
  }

  function Timestamp(base: nat, n: nat, fast: bool): U64
    requires Exists(base, n, fast)
  {
    if n <= base then 9 * n else 9 * base + (if fast then 1 else 1000) * (n - base)
  }

  function Block(base: nat, n: nat, fast: bool): Header
    requires Exists(base, n, fast)
  {
    Header(
      parentHash := if n == 0 then H256([]) else ParentName(base, n, fast),
      timestamp := Timestamp(base, n, fast),
      number := n,
      author := [], transactionsRoot := H256([]), ommersHash := EMPTY_OMMERS_HASH, extraData := [],
      stateRoot := H256([]), receiptsRoot := H256([]), logsBloom := [],
      gasUsed := if fast then 1 else 0, gasLimit := 10000,
      difficulty := DifficultyAt(base, n, fast),
      seal := [], baseFee := None)
  }

  /** The block that `Block(base, n, fast)` stands upon. */
  function Parent(base: nat, n: nat, fast: bool): Header
    requires Exists(base, n, fast) && n > 0
  {
    Block(base, n - 1, fast && n - 1 > base)
  }

  /** A header upon genesis that claims to be block 5. */
  function Stray(base: nat): Header {
    Block(base, 5, false).(parentHash := Name(0, false), gasUsed := 2)
  }

  function Proof(): seq<EthashProof.DoubleNode> {
    seq(EthashProof.ACCESSES, _ => EthashProof.DoubleNode([], [], []))
  }

  ghost predicate IsOffered(base: nat, header: Header) {
    header == Stray(base) || exists n: nat, fast: bool :: Exists(base, n, fast) && header == Block(base, n, fast)
  }

  ghost function Environment(d: U8, base: nat): Env {
    Env(
      genesis := Block(base, 0, false),
      initialDifficulty := 0,
      descendantsUntilFinalized := d,
      difficultyConfig := Difficulty.DifficultyConfig(0, 0, 0, 0),
      hash := (header: Header) => H256([header.number / 256 % 256, header.number % 256, header.gasUsed % 256]),
      partialHash := (header: Header) => H256([]),
      mixHash := (header: Header) => Some(H256([])),
      nonce := (header: Header) => Some([]),
      boundary := (difficulty: U256) => 1,
      dagHasher := EthashProof.Hasher((a, b) => EthashProof.H128([]), (a, b) => EthashProof.H128([])),
      dagRoots := [EthashProof.H128([])],
      hashimoto := (hash, nonce, epoch) => EthashProof.Process(rows => 0, rows => PowResult(H256([]), 0)),
      universe := (iset header: Header | IsOffered(base, header)),
      proofs := iset{Proof()})
  }

  // ----- names and hashes -----

  lemma BlockHash(d: U8, base: nat, n: nat, fast: bool)
    requires Exists(base, n, fast)
    ensures Environment(d, base).hash(Block(base, n, fast)) == Name(n, fast) && Block(base, n, fast).number == n
    ensures Block(base, n, fast) in Environment(d, base).universe
  {
    hide DifficultyAt;
    hide Timestamp;
    assert IsOffered(base, Block(base, n, fast));
  }

  lemma StrayHash(d: U8, base: nat)
    ensures Environment(d, base).hash(Stray(base)) == H256([0, 5, 2])
    ensures Offers(Environment(d, base), Stray(base), Proof())
    ensures Stray(base).number == 5 && Stray(base).parentHash == Name(0, false)
  {
    hide DifficultyAt;
    hide Timestamp;
  }

  lemma NameInjective(n: nat, f: bool, k: nat, g: bool)
    requires n <= TOP && k <= TOP && Name(n, f) == Name(k, g)
    ensures n == k && f == g
  {
    var a, b := Name(n, f).bytes, Name(k, g).bytes;
    assert a[0] == b[0] && a[1] == b[1] && a[2] == b[2];
  }

  lemma NameIsNoStray(n: nat, f: bool)
    requires n <= TOP
    ensures Name(n, f) != H256([0, 5, 2])
  {
    assert Name(n, f).bytes[2] != 2;
  }

  lemma HashInjective(d: U8, base: nat, a: Header, b: Header)
    requires IsOffered(base, a) && IsOffered(base, b) && Environment(d, base).hash(a) == Environment(d, base).hash(b)
    ensures a == b
  {
    hide Stray;
    hide Environment;
    hide Block;
    StrayHash(d, base);
    if a != Stray(base) && b != Stray(base) {
      var n: nat, f: bool :| Exists(base, n, f) && a == Block(base, n, f);
      var k: nat, g: bool :| Exists(base, k, g) && b == Block(base, k, g);
      BlockHash(d, base, n, f);
      BlockHash(d, base, k, g);
      NameInjective(n, f, k, g);
    } else if a != Stray(base) {
      var n: nat, f: bool :| Exists(base, n, f) && a == Block(base, n, f);
      BlockHash(d, base, n, f);
      NameIsNoStray(n, f);
    } else if b != Stray(base) {
      var k: nat, g: bool :| Exists(base, k, g) && b == Block(base, k, g);
      BlockHash(d, base, k, g);
      NameIsNoStray(k, g);
    }
  }

  /** No hash is shared at all. */
  lemma EnvironmentIsSound(d: U8, base: nat)
    ensures SoundEnv(Environment(d, base))
    ensures CollisionFreeOn(Environment(d, base).hash, Environment(d, base).universe)
    ensures Environment(d, base).descendantsUntilFinalized == d
  {
    var env := Environment(d, base);
    hide DifficultyAt;
    hide Timestamp;
    hide Stray;
    BlockHash(d, base, 0, false);
    assert env.genesis == Block(base, 0, false) && env.genesis.parentHash == H256([]);
    hide Block;
    forall a, b | a in env.universe && b in env.universe && env.hash(a) == env.hash(b)
      ensures a == b
    {
      HashInjective(d, base, a, b);
    }
  }

  // ----- every block passes the checks -----

  lemma PowPasses(d: U8, base: nat, header: Header)
    requires header.number < EthashProof.EPOCH_LENGTH
    ensures PowCheck(Environment(d, base), header, Proof()) == Success
  {
    var env := Environment(d, base);
    assert header.number / EthashProof.EPOCH_LENGTH == 0;
    var process := env.hashimoto(env.partialHash(header), env.nonce(header).value, 0);
    forall i | 0 <= i < EthashProof.ACCESSES
      ensures EthashProof.PairChecked(env.dagHasher, env.dagRoots[0], process, Proof(), i)
    {
    }
  }

  /** The difficulty of the next block at these heights, where the bomb is zero. */
  lemma NextDifficulty(d: U8, base: nat, time: U64, parent: Header)
    requires parent.number <= TOP && !HasOmmers(parent) && parent.timestamp <= time && parent.difficulty < 0x2_0000_0000
    ensures Difficulty.CalcDifficulty(Environment(d, base).difficultyConfig, time, parent) ==
            Ok(Next(parent.difficulty, Max(1 - (time - parent.timestamp) / 9, -99)))
  {
    var config := Environment(d, base).difficultyConfig;
    Difficulty.CalcDifficultyIs(config, time, parent);
    Arithmetic.Scaled(parent.difficulty / 2048, Max(1 - (time - parent.timestamp) / 9, -99), 1);
  }

  /** The difficulty and the age of a block upon its parent. */
  lemma BlockRule(base: nat, n: nat, fast: bool)
    requires Exists(base, n, fast) && n > 0
    ensures
      var block, parent := Block(base, n, fast), Parent(base, n, fast);
      && parent.number <= TOP && !HasOmmers(parent) && parent.timestamp <= block.timestamp
      && parent.difficulty < 0x2_0000_0000
      && block.difficulty == Next(parent.difficulty, Max(1 - (block.timestamp - parent.timestamp) / 9, -99))
  {
    var elapsed := Timestamp(base, n, fast) - Timestamp(base, n - 1, fast && n - 1 > base);
    assert elapsed == if n <= base then 9 else if fast then 1 else 1000;
    hide Timestamp;
    assert Max(1 - elapsed / 9, -99) == if n <= base then 0 else if fast then 1 else -99;
    assert Next(INITIAL, 0) == INITIAL;
    hide Next;
    if n > base {
      DifficultyFollows(base, n, fast);
    }
  }

  lemma DifficultyFollows(base: nat, n: nat, fast: bool)
    requires Exists(base, n, fast) && n > base
    ensures DifficultyAt(base, n, fast) ==
            Next(DifficultyAt(base, n - 1, fast && n - 1 > base), if fast then 1 else -99)
  {
    hide Next;
  }

  lemma DifficultyPasses(d: U8, base: nat, n: nat, fast: bool)
    requires Exists(base, n, fast) && n > 0
    ensures DifficultyCheck(Environment(d, base), Block(base, n, fast), Parent(base, n, fast)) == Success
  {
    hide Difficulty.CalcDifficulty;
    hide Next;
    hide Block;
    hide Parent;
    BlockRule(base, n, fast);
    NextDifficulty(d, base, Block(base, n, fast).timestamp, Parent(base, n, fast));
  }

  lemma BasicPasses(base: nat, n: nat, fast: bool)
    requires Exists(base, n, fast) && n > 0
    ensures BasicChecks(Block(base, n, fast), Parent(base, n, fast)) == Success
  {
    hide DifficultyAt;
  }

  lemma SealPasses(d: U8, base: nat, n: nat, fast: bool)
    requires Exists(base, n, fast) && n > 0
    ensures SealChecks(Environment(d, base), Block(base, n, fast), Parent(base, n, fast), Proof()) == Success
  {
    hide Block;
    hide Environment;
    hide PowCheck;
    hide DifficultyCheck;
    hide BasicChecks;
    BlockHash(d, base, n, fast);
    PowPasses(d, base, Block(base, n, fast));
    DifficultyPasses(d, base, n, fast);
    BasicPasses(base, n, fast);
  }

  // ----- what the imports need to know of the environment -----

  ghost predicate Hosts(env: Env, base: nat) {
    && SoundEnv(env) && env.genesis.number == 0
    && Root(env) == Name(0, false) && env.initialDifficulty == 0 && Proof() in env.proofs
    && (forall header :: header in env.universe && header.number <= Min(base, 1) ==>
          env.hash(header) == Name(header.number, false))
    && (forall n: nat, fast :: Exists(base, n, fast) ==> HostsBlock(env, base, n, fast))
  }

  /** The block is offered, alone has its name, and passes the checks upon its parent. */
  ghost predicate HostsBlock(env: Env, base: nat, n: nat, fast: bool)
    requires Exists(base, n, fast)
  {
    && Block(base, n, fast) in env.universe && env.hash(Block(base, n, fast)) == Name(n, fast)
    && (forall header :: header in env.universe && env.hash(header) == Name(n, fast) ==> header == Block(base, n, fast))
    && (n > 0 ==> SealChecks(env, Block(base, n, fast), Parent(base, n, fast), Proof()) == Success)
  }

  lemma BlockHosted(d: U8, base: nat, n: nat, fast: bool)
    requires Exists(base, n, fast)
    ensures HostsBlock(Environment(d, base), base, n, fast)
  {
    hide SealChecks;
    hide Block;
    hide Environment;
    BlockHash(d, base, n, fast);
    if n > 0 {
      SealPasses(d, base, n, fast);
    }
    EnvironmentIsSound(d, base);
  }

  lemma CommonBlock(d: U8, base: nat, header: Header)
    requires IsOffered(base, header) && header.number <= Min(base, 1)
    ensures Environment(d, base).hash(header) == Name(header.number, false)
  {
    hide Block;
    hide Environment;
    hide Stray;
    StrayHash(d, base);
    var n: nat, fast: bool :| Exists(base, n, fast) && header == Block(base, n, fast);
    BlockHash(d, base, n, fast);
  }

  lemma EnvironmentHosts(d: U8, base: nat)
    ensures Hosts(Environment(d, base), base)
  {
    EnvironmentIsSound(d, base);
    BlockHash(d, base, 0, false);
    forall n: nat, fast | Exists(base, n, fast)
      ensures HostsBlock(Environment(d, base), base, n, fast)
    {
      BlockHosted(d, base, n, fast);
    }
    hide HostsBlock;
    hide Block;
    forall header | header in Environment(d, base).universe && header.number <= Min(base, 1)
      ensures Environment(d, base).hash(header) == Name(header.number, false)
    {
      CommonBlock(d, base, header);
    }
    hide IsOffered;
  }

  function Import(base: nat, n: nat, fast: bool): Call
    requires Exists(base, n, fast)
  {
    Call(Signed(0), Block(base, n, fast), Proof())
  }

  lemma ImportIs(base: nat, n: nat, f: bool)
    requires Exists(base, n, f)
    ensures Import(base, n, f).origin == Signed(0) && Import(base, n, f).proof == Proof()
    ensures Import(base, n, f).header == Block(base, n, f)
  {
  }

  lemma Hosted(env: Env, base: nat, n: nat, fast: bool)
    requires Hosts(env, base) && Exists(base, n, fast) && n > 0
    ensures Offers(env, Block(base, n, fast), Proof()) && env.hash(Block(base, n, fast)) == Name(n, fast)
    ensures SealChecks(env, Block(base, n, fast), Parent(base, n, fast), Proof()) == Success
  {
    hide Block;
    hide SealChecks;
    assert HostsBlock(env, base, n, fast);
  }

  lemma KnownBlock(env: Env, base: nat, hist: History, n: nat, fast: bool)
    requires Hosts(env, base) && HistoryOk(env, hist) && Exists(base, n, fast) && Name(n, fast) in hist
    ensures hist[Name(n, fast)] == Block(base, n, fast)
  {
    hide Block;
    hide SealChecks;
    assert RecordedAt(env, hist, Name(n, fast)) && HostsBlock(env, base, n, fast);
  }

  /** At the heights 0 and 1, as far as they are common, there is one block, and all others are above it. */
  lemma AboveCommon(env: Env, base: nat, hist: History, m: nat, k: H256)
    requires Hosts(env, base) && HistoryOk(env, hist) && m <= Min(base, 1) && k in hist && hist[k].number >= m
    ensures Ancestor(hist, Root(env), k, m) == Name(m, false)
    ensures Above(env, hist, Name(m, false), k)
  {
    hide HostsBlock;
    assert RecordedAt(env, hist, Ancestor(hist, Root(env), k, m));
  }

  // ----- total difficulties -----

  /** The total difficulty of the block's chain. */
  function Total(base: nat, n: nat, fast: bool): nat
    requires Exists(base, n, fast)
  {
    if n == 0 then 0 else Total(base, n - 1, fast && n - 1 > base) + DifficultyAt(base, n, fast)
  }

  lemma BlockFields(base: nat, n: nat, fast: bool)
    requires Exists(base, n, fast) && n > 0
    ensures Block(base, n, fast).parentHash == ParentName(base, n, fast)
    ensures Block(base, n, fast).number == n && Parent(base, n, fast).number == n - 1
    ensures Total(base, n, fast) == Total(base, n - 1, fast && n - 1 > base) + Block(base, n, fast).difficulty
  {
    hide DifficultyAt;
  }

  lemma TotalGrows(base: nat, n: nat, fast: bool)
    requires Exists(base, n, fast) && n > 0
    ensures Total(base, n, fast) > Total(base, n - 1, fast && n - 1 > base)
  {
  }

  lemma {:induction false} TotalsFit(base: nat, n: nat, fast: bool)
    requires Exists(base, n, fast)
    ensures Total(base, n, fast) <= n * 0x2_0000_0000
  {
    hide DifficultyAt;
    if n > 0 {
      TotalsFit(base, n - 1, fast && n - 1 > base);
    }
  }

  /** What `k` blocks above the common ones weigh. */
  function Sum(k: nat, fast: bool): nat
    requires k <= TOP
  {
    if k == 0 then 0 else Sum(k - 1, fast) + if fast then FastDifficulty(k) else SlowDifficulty(k)
  }

  lemma {:induction false} TotalIsSum(base: nat, k: nat, fast: bool)
    requires base + k <= TOP && (fast ==> k > 0)
    ensures Total(base, base + k, fast) == Total(base, base, false) + Sum(k, fast)
  {
    hide SlowDifficulty;
    hide FastDifficulty;
    if k > 0 {
      TotalIsSum(base, k - 1, fast && k - 1 > 0);
      if k == 1 {
        assert Sum(0, fast) == Sum(0, false);
      }
    }
  }

  lemma SlowSums()
    ensures Sum(7, false) == 24780816748 && Sum(8, false) == 27670265600
  {
    assert SlowDifficulty(1) == 4087349248 && SlowDifficulty(2) == 3889767424;
    assert SlowDifficulty(3) == 3701736724 && SlowDifficulty(4) == 3522795412;
    assert SlowDifficulty(5) == 3352504126 && SlowDifficulty(6) == 3190444690;
    assert SlowDifficulty(7) == 3036219124 && SlowDifficulty(8) == 2889448852;
    hide SlowDifficulty;
    assert Sum(2, false) == 7977116672 && Sum(4, false) == 15201648808 && Sum(6, false) == 21744597624;
  }

  lemma FastSums()
    ensures Sum(6, true) == 25813879822
  {
    assert FastDifficulty(1) == 4297064448 && FastDifficulty(2) == 4299162624;
    assert FastDifficulty(3) == 4301261824 && FastDifficulty(4) == 4303362049;
    assert FastDifficulty(5) == 4305463300 && FastDifficulty(6) == 4307565577;
    hide FastDifficulty;
    assert Sum(2, true) == 8596227072 && Sum(4, true) == 17200850945;
  }

  // ----- one import -----

  /** How far the imports have come: the last slow and the last fast block, the best block, and the height of the
      finalized one, which is common. */
  datatype Place = Place(slow: nat, fast: nat, top: nat, topFast: bool, final: nat)

  predicate IsPlace(base: nat, p: Place) {
    && p.slow <= TOP && base <= p.fast <= TOP && p.final <= Min(base, 1)
    && Exists(base, p.top, p.topFast) && p.top <= if p.topFast then p.fast else p.slow
  }

  /** `Block(base, n, f)` is the next one on its side. */
  predicate IsNext(base: nat, p: Place, n: nat, f: bool) {
    && Exists(base, n, f) && n == (if f then p.fast else p.slow) + 1
    && (f ==> p.slow >= base) && n > p.final
  }

  /** After the import of the next block, if the finality search does not fail. */
  function After(base: nat, d: nat, p: Place, n: nat, f: bool): Place
    requires IsPlace(base, p) && IsNext(base, p, n, f)
  {
    var leads := Total(base, n, f) > Total(base, p.top, p.topFast);
    Place(
      if f then p.slow else n, if f then n else p.fast, if leads then n else p.top, if leads then f else p.topFast,
      if leads && n >= d && n >= p.final + d then n - d else p.final)
  }

  /** The slow blocks up to `slow` and the fast ones up to `fast` are in the history, with their total difficulties. */
  ghost predicate HasUpTo(env: Env, base: nat, hist: History, slow: nat, fast: nat)
    requires HistoryOk(env, hist)
  {
    && (forall n: nat, f :: Exists(base, n, f) ==> (Name(n, f) in hist <==> n <= if f then fast else slow))
    && (forall n: nat, f :: Exists(base, n, f) && Name(n, f) in hist ==>
          Work(env, hist, Name(n, f)) == Total(base, n, f))
  }

  ghost predicate At(env: Env, base: nat, c: Chain, p: Place) {
    && IsPlace(base, p) && Inv(env, c) && HasUpTo(env, base, c.history, p.slow, p.fast)
    && c.store.best == HeaderId(p.top, Name(p.top, p.topFast))
    && c.store.finalized == HeaderId(p.final, Name(p.final, false))
  }

  lemma AtInv(env: Env, base: nat, c: Chain, p: Place)
    requires At(env, base, c, p)
    ensures Inv(env, c) && HistoryOk(env, c.history) && Root(env) in c.history
  {
  }

  /** What is imported, and its total difficulty. */
  lemma Has(env: Env, base: nat, c: Chain, p: Place, n: nat, f: bool)
    requires At(env, base, c, p) && Exists(base, n, f)
    ensures Name(n, f) in c.history <==> n <= if f then p.fast else p.slow
    ensures Name(n, f) in c.history ==> Work(env, c.history, Name(n, f)) == Total(base, n, f)
  {
  }

  lemma BestTotal(env: Env, base: nat, c: Chain, p: Place)
    requires At(env, base, c, p)
    ensures c.store.bestDifficulty == Total(base, p.top, p.topFast)
  {
    hide Total;
    Has(env, base, c, p, p.top, p.topFast);
  }

  lemma NothingPruned(env: Env, base: nat, c: Chain, k: H256)
    requires Hosts(env, base) && Inv(env, c) && c.store.finalized.number <= 1 && k in c.history
    ensures k in c.store.headers
  {
    hide HostsBlock;
    assert RetainedAt(c, k);
  }

  lemma AcceptableFrom(env: Env, base: nat, c: Chain, m: nat, n: nat, f: bool)
    requires Hosts(env, base) && Inv(env, c) && m <= Min(base, 1) && c.store.finalized == HeaderId(m, Name(m, false))
    requires Exists(base, n, f) && m < n && Name(n, f) !in c.history && ParentName(base, n, f) in c.history
    requires Work(env, c.history, ParentName(base, n, f)) == Total(base, n - 1, f && n - 1 > base)
    ensures Acceptable(env, c, Block(base, n, f), Proof())
    ensures TotalUpon(env, c, Block(base, n, f)) == Total(base, n, f)
  {
    hide Block;
    hide SealChecks;
    hide Proof;
    hide Hosts;
    hide Total;
    hide Work;
    assert HistoryOk(env, c.history);
    hide Core;
    hide BestOk;
    Hosted(env, base, n, f);
    BlockFields(base, n, f);
    TotalsFit(base, n, f);
    KnownBlock(env, base, c.history, n - 1, f && n - 1 > base);
    AboveCommon(env, base, c.history, m, ParentName(base, n, f));
    NothingPruned(env, base, c, ParentName(base, n, f));
  }

  /** The next block is acceptable. */
  lemma NextAcceptable(env: Env, base: nat, c: Chain, p: Place, n: nat, f: bool)
    requires Hosts(env, base) && At(env, base, c, p) && IsNext(base, p, n, f)
    ensures Inv(env, c) && Acceptable(env, c, Block(base, n, f), Proof())
    ensures TotalUpon(env, c, Block(base, n, f)) == Total(base, n, f)
  {
    hide Hosts;
    hide Block;
    hide SealChecks;
    hide Total;
    AtInv(env, base, c, p);
    Has(env, base, c, p, n, f);
    Has(env, base, c, p, n - 1, f && n - 1 > base);
    assert IsPlace(base, p) && c.store.finalized == HeaderId(p.final, Name(p.final, false));
    hide At;
    hide Inv;
    hide HistoryOk;
    hide Acceptable;
    AcceptableFrom(env, base, c, p.final, n, f);
  }

  /** The works after the import of an acceptable block. */
  lemma WorksAfter(env: Env, c: Chain, header: Header, proof: seq<EthashProof.DoubleNode>, k: H256)
    requires Inv(env, c) && Acceptable(env, c, header, proof) && k in c.history
    ensures HistoryOk(env, Extended(env, c.history, header))
    ensures Work(env, Extended(env, c.history, header), k) == Work(env, c.history, k)
    ensures Work(env, Extended(env, c.history, header), env.hash(header)) == TotalUpon(env, c, header)
  {
    hide SealChecks;
    AcceptableIsValid(env, c, header, proof);
    hide Validate;
    AcceptedJoins(env, c, header, proof);
    HistoryGrows(env, c.history, header);
    WorkGrows(env, c.history, header, k);
  }

  /** What is in the history after the next block. */
  lemma NextHas(env: Env, base: nat, c: Chain, p: Place, n: nat, f: bool, k: nat, g: bool)
    requires Hosts(env, base) && At(env, base, c, p) && IsNext(base, p, n, f) && Exists(base, k, g)
    requires Acceptable(env, c, Block(base, n, f), Proof())
    requires TotalUpon(env, c, Block(base, n, f)) == Total(base, n, f)
    ensures
      var hist := Extended(env, c.history, Block(base, n, f));
      && HistoryOk(env, hist)
      && (Name(k, g) in hist <==> k <= (if g == f then n else if g then p.fast else p.slow))
      && (Name(k, g) in hist ==> Work(env, hist, Name(k, g)) == Total(base, k, g))
  {
    hide Block;
    hide SealChecks;
    hide Proof;
    hide Total;
    Hosted(env, base, n, f);
    hide Hosts;
    Has(env, base, c, p, k, g);
    AtInv(env, base, c, p);
    hide At;
    hide Core;
    hide BestOk;
    WorksAfter(env, c, Block(base, n, f), Proof(), if Name(k, g) in c.history then Name(k, g) else Root(env));
    hide Acceptable;
    hide HistoryOk;
    hide Work;
    if Name(k, g) == Name(n, f) {
      NameInjective(k, g, n, f);
    }
  }

  lemma NextHasUpTo(env: Env, base: nat, c: Chain, p: Place, n: nat, f: bool)
    requires Hosts(env, base) && At(env, base, c, p) && IsNext(base, p, n, f)
    requires Acceptable(env, c, Block(base, n, f), Proof())
    requires TotalUpon(env, c, Block(base, n, f)) == Total(base, n, f)
    ensures
      var hist := Extended(env, c.history, Block(base, n, f));
      HistoryOk(env, hist) && HasUpTo(env, base, hist, if f then p.slow else n, if f then n else p.fast)
  {
    hide SealChecks;
    hide Block;
    hide Hosts;
    hide At;
    hide Proof;
    hide Acceptable;
    var hist := Extended(env, c.history, Block(base, n, f));
    NextHas(env, base, c, p, n, f, 0, false);
    hide HistoryOk;
    hide Work;
    hide Total;
    hide TotalUpon;
    forall k: nat, g | Exists(base, k, g)
      ensures Name(k, g) in hist <==> k <= (if g then (if f then n else p.fast) else (if f then p.slow else n))
      ensures Name(k, g) in hist ==> Work(env, hist, Name(k, g)) == Total(base, k, g)
    {
      NextHas(env, base, c, p, n, f, k, g);
    }
  }

  /** The best and the finalized block after the next block. */
  lemma NextHeads(env: Env, base: nat, c: Chain, c': Chain, p: Place, n: nat, f: bool)
    requires Hosts(env, base) && At(env, base, c, p) && IsNext(base, p, n, f)
    requires After(base, env.descendantsUntilFinalized, p, n, f).final <= Min(base, 1)
    requires Block(base, n, f).parentHash in c.history && TotalUpon(env, c, Block(base, n, f)) == Total(base, n, f)
    requires HistoryOk(env, c'.history) && Name(n, f) in c'.history && Moves(env, c, c', Block(base, n, f))
    ensures
      var q := After(base, env.descendantsUntilFinalized, p, n, f);
      && c'.store.best == HeaderId(q.top, Name(q.top, q.topFast))
      && c'.store.finalized == HeaderId(q.final, Name(q.final, false))
  {
    hide SealChecks;
    hide Block;
    hide Total;
    hide Work;
    hide HostsBlock;
    assert env.genesis.number == 0 && c.store.best == HeaderId(p.top, Name(p.top, p.topFast));
    assert c.store.finalized == HeaderId(p.final, Name(p.final, false));
    hide Hosts;
    KnownBlock(env, base, c'.history, n, f);
    BlockFields(base, n, f);
    Hosted(env, base, n, f);
    BestTotal(env, base, c, p);
    hide At;
    hide TotalUpon;
    hide HistoryOk;
    var q := After(base, env.descendantsUntilFinalized, p, n, f);
    if q.final <= n {
      AboveCommon(env, base, c'.history, q.final, Name(n, f));
    }
    hide Above;
  }

  lemma NextState(env: Env, base: nat, c: Chain, c': Chain, p: Place, n: nat, f: bool)
    requires Hosts(env, base) && At(env, base, c, p) && IsNext(base, p, n, f)
    requires After(base, env.descendantsUntilFinalized, p, n, f).final <= Min(base, 1)
    requires Acceptable(env, c, Block(base, n, f), Proof())
    requires TotalUpon(env, c, Block(base, n, f)) == Total(base, n, f)
    requires Inv(env, c') && c'.history == Extended(env, c.history, Block(base, n, f))
    requires Moves(env, c, c', Block(base, n, f))
    ensures At(env, base, c', After(base, env.descendantsUntilFinalized, p, n, f))
  {
    hide SealChecks;
    hide Block;
    hide Moves;
    hide Hosts;
    hide Total;
    hide TotalUpon;
    hide Work;
    hide Core;
    hide BestOk;
    NextHasUpTo(env, base, c, p, n, f);
    NextHas(env, base, c, p, n, f, n, f);
    hide HasUpTo;
    NextHeads(env, base, c, c', p, n, f);
  }

  /** One call further. */
  lemma NextAt(env: Env, base: nat, c: Chain, p: Place, n: nat, f: bool)
    requires Hosts(env, base) && At(env, base, c, p) && IsNext(base, p, n, f)
    requires After(base, env.descendantsUntilFinalized, p, n, f).final <= Min(base, 1)
    ensures Descending(c.store.headers)
    ensures At(env, base, Step(env, c, Import(base, n, f)), After(base, env.descendantsUntilFinalized, p, n, f))
  {
    NextAcceptable(env, base, c, p, n, f);
    ImportIs(base, n, f);
    hide *;
    AcceptableSteps(env, c, Import(base, n, f));
    AcceptableMoves(env, c, Import(base, n, f));
    NextState(env, base, c, Step(env, c, Import(base, n, f)), p, n, f);
  }

  // ----- runs -----

  function Begin(base: nat): Place {
    Place(0, base, 0, false, 0)
  }

  /** The calls lead to the place. */
  ghost predicate RunsTo(env: Env, base: nat, calls: seq<Call>, p: Place) {
    SoundEnv(env) && CallsIn(env, calls) && At(env, base, Run(env, calls), p)
  }

  lemma StartAt(env: Env, base: nat)
    requires Hosts(env, base) && base <= TOP
    ensures At(env, base, Start(env), Begin(base))
  {
    hide HostsBlock;
    GenesisInv(env);
    forall n: nat, f | Exists(base, n, f)
      ensures Name(n, f) in Start(env).history <==> n <= if f then base else 0
    {
      if Name(n, f) == Name(0, false) {
        NameInjective(n, f, 0, false);
      }
    }
  }

  lemma SoundHost(env: Env, base: nat)
    requires Hosts(env, base)
    ensures SoundEnv(env)
  {
  }

  lemma RunStarts(env: Env, base: nat)
    requires Hosts(env, base) && base <= TOP
    ensures RunsTo(env, base, [], Begin(base))
  {
    hide Hosts;
    hide At;
    SoundHost(env, base);
    StartAt(env, base);
  }

  lemma OneCall(env: Env, base: nat, before: seq<Call>, n: nat, f: bool)
    requires Hosts(env, base) && SoundEnv(env) && CallsIn(env, before) && Exists(base, n, f) && n > 0
    ensures CallsIn(env, before + [Import(base, n, f)])
    ensures Descending(Run(env, before).store.headers)
    ensures Run(env, before + [Import(base, n, f)]) == Step(env, Run(env, before), Import(base, n, f))
  {
    hide Hosts;
    hide Block;
    hide Import;
    hide SoundEnv;
    hide SealChecks;
    Hosted(env, base, n, f);
    ImportIs(base, n, f);
    RunSteps(env, before, Import(base, n, f));
  }

  lemma RunOn(env: Env, base: nat, before: seq<Call>, p: Place, n: nat, f: bool)
    requires Hosts(env, base) && IsPlace(base, p) && RunsTo(env, base, before, p) && IsNext(base, p, n, f)
    requires After(base, env.descendantsUntilFinalized, p, n, f).final <= Min(base, 1)
    ensures
      RunsTo(env, base, before + [Import(base, n, f)], After(base, env.descendantsUntilFinalized, p, n, f))
  {
    hide Hosts;
    hide At;
    hide Run;
    hide SoundEnv;
    hide Import;
    hide After;
    NextAt(env, base, Run(env, before), p, n, f);
    OneCall(env, base, before, n, f);
  }
}
