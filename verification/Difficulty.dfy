/** Block difficulty, parachain/primitives/ethereum/src/difficulty.rs.

  `CalcDifficulty` follows the code operation by operation, with its checked and
  panicking 256-bit arithmetic.  `BlockDifficulty` is the closed formula of
  EIP-100 with the delayed bomb of EIP-649, EIP-1234, EIP-2384 and EIP-3554, over
  unbounded integers.
*/
module Difficulty {
  import opened Arithmetic
  import opened Primitives
  import opened EthereumHeader

  const EXP_DIFFICULTY_PERIOD: nat := 100000
  const MINIMUM_DIFFICULTY: nat := 131072
  const TWO_63: nat := 0x8000_0000_0000_0000

  datatype DifficultyConfig = DifficultyConfig(
    byzantiumForkBlock: U64,
    constantinopleForkBlock: U64,
    muirGlacierForkBlock: U64,
    londonForkBlock: U64)

  /** `Panic` is the abort of an overflowing U256 operation. */
  datatype CalcError = Invalid | Panic
  type CalcResult = Result<U256, CalcError>

  /** The delay of the bomb at a block, from the last fork that is in force: EIP-3554, EIP-2384, EIP-1234, EIP-649. */
  predicate IsDelayAt(config: DifficultyConfig, number: nat, delay: nat) {
    || (delay == 9700000 && number >= config.londonForkBlock)
    || (delay == 9000000 && config.muirGlacierForkBlock <= number < config.londonForkBlock)
    || (delay == 5000000 && config.constantinopleForkBlock <= number
        && number < config.muirGlacierForkBlock && number < config.londonForkBlock)
    || (delay == 3000000 && config.byzantiumForkBlock <= number && number < config.constantinopleForkBlock
        && number < config.muirGlacierForkBlock && number < config.londonForkBlock)
  }

  /** No fork with a delay is in force. */
  predicate BeforeAllForks(config: DifficultyConfig, number: nat) {
    && number < config.byzantiumForkBlock && number < config.constantinopleForkBlock
    && number < config.muirGlacierForkBlock && number < config.londonForkBlock
  }

  function BombDelay(config: DifficultyConfig, blockNumber: nat): (delay: Option<nat>)
    ensures delay.None? <==> BeforeAllForks(config, blockNumber)
    ensures delay.Some? ==> IsDelayAt(config, blockNumber, delay.value)
  {
    if blockNumber >= config.londonForkBlock then Some(9700000)
    else if blockNumber >= config.muirGlacierForkBlock then Some(9000000)
    else if blockNumber >= config.constantinopleForkBlock then Some(5000000)
    else if blockNumber >= config.byzantiumForkBlock then Some(3000000)
    else None
  }

  lemma DelayIsUnique(config: DifficultyConfig, number: nat, delay: nat)
    requires IsDelayAt(config, number, delay)
    ensures BombDelay(config, number) == Some(delay)
  {
  }

  // ----- the code -----

  function CheckedU256(x: int): Option<U256> {
    if 0 <= x < TWO_256 then Some(x) else None
  }

  /** `U256::from(2).pow(e)`, which panics from exponent 256 on. */
  function PowerOfTwo(e: nat): Option<U256> {
    if e < 256 then CheckedU256(Pow2(e)) else None
  }

  function Sigma(hasOmmers: bool, blockTimeDiv9: nat): int {
    Max((if hasOmmers then 2 else 1) - blockTimeDiv9, -99)
  }

  /** The parent difficulty adjusted by sigma; None when a U256 operation overflows. */
  function Adjusted(difficulty: U256, sigma: int): Option<U256> {
    var step := difficulty / 2048;
    if sigma < 0 then
      match CheckedU256(step * -sigma)
      case None => None
      case Some(product) => CheckedU256(difficulty - product)
    else
      match CheckedU256(step * sigma)
      case None => None
      case Some(product) => CheckedU256(difficulty + product)
  }

  /** The minimum difficulty and the bomb on top of the adjusted parent difficulty. */
  function WithBomb(adjusted: U256, parentNumber: U64, delay: nat): CalcResult
    requires delay > 0
  {
    var withoutExp := Max(adjusted, MINIMUM_DIFFICULTY);
    var fakeBlockNumber := SaturatingSub(parentNumber, delay - 1);
    var periodCount := fakeBlockNumber / EXP_DIFFICULTY_PERIOD;
    if periodCount >= 2 then
      match PowerOfTwo(periodCount - 2)
      case None => Err(Panic)
      case Some(bomb) =>
        match CheckedU256(withoutExp + bomb)
        case None => Err(Panic)
        case Some(total) => Ok(total)
    else Ok(withoutExp)
  }

  function CalcDifficulty(config: DifficultyConfig, time: U64, parent: Header): CalcResult {
    match BombDelay(config, (parent.number + 1) % TWO_64)
    case None => Err(Invalid)
    case Some(delay) =>
      if time < parent.timestamp then Err(Invalid)
      else if (time - parent.timestamp) / 9 >= TWO_63 then Err(Invalid)
      else
        match Adjusted(parent.difficulty, Sigma(HasOmmers(parent), (time - parent.timestamp) / 9))
        case None => Err(Panic)
        case Some(adjusted) => WithBomb(adjusted, parent.number, delay)
  }

  // ----- the reference formula -----

  function Bomb(number: nat, delay: nat): (r: nat) {
    var period := (if number < delay then 0 else number - delay) / 100000;
    if period >= 2 then Pow2(period - 2) else 0
  }

  /** Difficulty of block `number`, `elapsed` seconds after a parent of difficulty `d`. */
  function BlockDifficulty(number: nat, delay: nat, d: nat, hasOmmers: bool, elapsed: nat): (r: int) {
    var y := if hasOmmers then 2 else 1;
    Max(131072, d + d / 2048 * Max(y - elapsed / 9, -99)) + Bomb(number, delay)
  }

  // ----- proofs -----

  lemma PowerOfTwoExact(e: nat)
    ensures PowerOfTwo(e) == if Pow2(e) < TWO_256 then Some(Pow2(e)) else None
  {
    Pow2At256();
    if e < 256 {
      Pow2Monotone(e, 255);
      assert Pow2(256) == 2 * Pow2(255);
    } else {
      Pow2Monotone(256, e);
    }
  }

  /** The adjustment never underflows; it overflows only upwards. */
  lemma AdjustedExact(d: U256, sigma: int)
    requires -99 <= sigma <= 2
    ensures 0 <= d + d / 2048 * sigma
    ensures Adjusted(d, sigma) == if d + d / 2048 * sigma < TWO_256 then Some(d + d / 2048 * sigma) else None
  {
    var step := d / 2048;
    assert 0 <= step && 2048 * step <= d;
    if sigma < 0 {
      Scaled(step, -99, sigma);
      assert step * -sigma == -(step * sigma);
    } else {
      Scaled(step, sigma, 2);
    }
  }

  lemma WithBombExact(adjusted: U256, parentNumber: U64, delay: nat)
    requires delay > 0
    ensures
      var total := Max(MINIMUM_DIFFICULTY, adjusted) + Bomb(parentNumber + 1, delay);
      WithBomb(adjusted, parentNumber, delay) == if total < TWO_256 then Ok(total) else Err(Panic)
  {
    var period := SaturatingSub(parentNumber, delay - 1) / EXP_DIFFICULTY_PERIOD;
    assert SaturatingSub(parentNumber, delay - 1) == SaturatingSub(parentNumber + 1, delay);
    if period >= 2 {
      PowerOfTwoExact(period - 2);
    }
  }

  /** When the calculation fails, panics and succeeds, and with which value: the formula of EIP-100 with the delayed
      bomb, written out.  The block number is computed in 64 bits where the fork is chosen. */
  lemma CalcDifficultyExact(config: DifficultyConfig, time: U64, parent: Header, delay: nat)
    ensures BeforeAllForks(config, (parent.number + 1) % TWO_64) || time < parent.timestamp ==>
              CalcDifficulty(config, time, parent) == Err(Invalid)
    ensures IsDelayAt(config, (parent.number + 1) % TWO_64, delay) && time >= parent.timestamp ==>
              var y := if parent.ommersHash == EMPTY_OMMERS_HASH then 1 else 2;
              var d, elapsed := parent.difficulty, time - parent.timestamp;
              var fake := if parent.number + 1 < delay then 0 else parent.number + 1 - delay;
              var bomb := if fake / 100000 >= 2 then Pow2(fake / 100000 - 2) else 0;
              var exact := Max(131072, d + d / 2048 * Max(y - elapsed / 9, -99)) + bomb;
              CalcDifficulty(config, time, parent) == if exact < TWO_256 then Ok(exact) else Err(Panic)
  {
    if BeforeAllForks(config, (parent.number + 1) % TWO_64) || time < parent.timestamp {
      CalcDifficultyIs(config, time, parent);
      hide CalcDifficulty;
    }
    if IsDelayAt(config, (parent.number + 1) % TWO_64, delay) && time >= parent.timestamp {
      hide *;
      DelayInForce(config, time, parent, delay);
      WrittenOut(parent.number + 1, delay, parent.difficulty, HasOmmers(parent), time - parent.timestamp);
      OmmersCount(parent);
    }
  }

  lemma OmmersCount(parent: Header)
    ensures HasOmmers(parent) <==> parent.ommersHash != EMPTY_OMMERS_HASH
  {
  }

  lemma DelayInForce(config: DifficultyConfig, time: U64, parent: Header, delay: nat)
    requires IsDelayAt(config, (parent.number + 1) % TWO_64, delay) && time >= parent.timestamp
    ensures
      var exact := BlockDifficulty(
        parent.number + 1, delay, parent.difficulty, HasOmmers(parent), time - parent.timestamp);
      CalcDifficulty(config, time, parent) == if exact < TWO_256 then Ok(exact) else Err(Panic)
  {
    DelayIsUnique(config, (parent.number + 1) % TWO_64, delay);
    CalcDifficultyIs(config, time, parent);
    hide *;
  }

  lemma WrittenOut(number: nat, delay: nat, d: nat, hasOmmers: bool, elapsed: nat)
    ensures
      var y := if hasOmmers then 2 else 1;
      var fake := if number < delay then 0 else number - delay;
      var bomb := if fake / 100000 >= 2 then Pow2(fake / 100000 - 2) else 0;
      BlockDifficulty(number, delay, d, hasOmmers, elapsed) ==
      Max(131072, d + d / 2048 * Max(y - elapsed / 9, -99)) + bomb
  {
    hide Pow2;
  }

  lemma CalcDifficultyIs(config: DifficultyConfig, time: U64, parent: Header)
    ensures
      var r := CalcDifficulty(config, time, parent);
      var delay := BombDelay(config, (parent.number + 1) % TWO_64);
      if delay.None? || time < parent.timestamp then r == Err(Invalid)
      else
        var exact := BlockDifficulty(
          parent.number + 1, delay.value, parent.difficulty, HasOmmers(parent), time - parent.timestamp);
        r == if exact < TWO_256 then Ok(exact) else Err(Panic)
  {
    hide Bomb;
    hide WithBomb;
    var delay := BombDelay(config, (parent.number + 1) % TWO_64);
    if delay.Some? && time >= parent.timestamp {
      var sigma := Sigma(HasOmmers(parent), (time - parent.timestamp) / 9);
      AdjustedExact(parent.difficulty, sigma);
      hide Adjusted;
      hide Sigma;
      var adjusted := Adjusted(parent.difficulty, sigma);
      if adjusted.Some? {
        WithBombExact(adjusted.value, parent.number, delay.value);
      }
    }
  }

  /** A later timestamp never raises the difficulty, nor turns success into failure. */
  lemma CalcDifficultyMonotone(config: DifficultyConfig, early: U64, late: U64, parent: Header)
    requires parent.number + 1 < TWO_64
    requires early <= late
    requires CalcDifficulty(config, early, parent).Ok?
    ensures CalcDifficulty(config, late, parent).Ok?
    ensures CalcDifficulty(config, late, parent).value <= CalcDifficulty(config, early, parent).value
  {
    CalcDifficultyIs(config, early, parent);
    CalcDifficultyIs(config, late, parent);
    var s := Sigma(HasOmmers(parent), (early - parent.timestamp) / 9);
    var s' := Sigma(HasOmmers(parent), (late - parent.timestamp) / 9);
    assert s' <= s;
    Scaled(parent.difficulty / 2048, s', s);
  }

  lemma RateOf(d: nat, sigma: int)
    requires -99 <= sigma <= 2
    ensures
      var r, base := Max(131072, d + d / 2048 * sigma), Max(MINIMUM_DIFFICULTY, d);
      1949 * base <= 2048 * r <= 2050 * base
  {
    var step := d / 2048;
    Scaled(step, -99, sigma);
    Scaled(step, sigma, 2);
    var change := step * sigma;
    assert -99 * step <= change <= 2 * step;
    hide *;
    assert 2048 * step <= d;
  }

  /** How far one block can move the difficulty: between 1949/2048 and 2050/2048 of the
      parent's (counted as at least the minimum), plus the bomb, which only the height fixes. */
  lemma CalcDifficultyRate(config: DifficultyConfig, time: U64, parent: Header)
    requires parent.number + 1 < TWO_64
    requires CalcDifficulty(config, time, parent).Ok?
    ensures BombDelay(config, parent.number + 1).Some?
    ensures
      var r := CalcDifficulty(config, time, parent).value;
      var bomb := Bomb(parent.number + 1, BombDelay(config, parent.number + 1).value);
      var base := Max(MINIMUM_DIFFICULTY, parent.difficulty);
      && r >= MINIMUM_DIFFICULTY
      && 1949 * base <= 2048 * (r - bomb) <= 2050 * base
  {
    CalcDifficultyIs(config, time, parent);
    hide CalcDifficulty;
    hide Bomb;
    hide BombDelay;
    RateOf(parent.difficulty, Sigma(HasOmmers(parent), (time - parent.timestamp) / 9));
  }
}
