/** The free-standing helpers of `src/world.rs`: the machine integer casts the
    code relies on, the cell-index codec, the random step of a mover, the odds
    of moving and the age of an entity.

    Rust's `usize` is 64 bits wide here and the release build wraps on
    overflow, so every `usize` sum and product is reduced modulo 2^64, and every
    `as` cast is written out. */
module Grid {

  /** 2^64, the number of `usize` values. */
  const USIZE: int := 0x1_0000_0000_0000_0000
  /** 2^32, the number of `i32` values. */
  const I32_RANGE: int := 0x1_0000_0000
  const I32_MIN: int := -0x8000_0000
  const I32_MAX: int := 0x7fff_ffff

  type USize = n: int | 0 <= n < USIZE
  type I32 = n: int | I32_MIN <= n <= I32_MAX

  /** `center_reference`: the coordinate steps drift towards, on both axes. */
  const CENTRE: nat := 50

  /** One year of simulated days. */
  const YEAR: nat := 365

  // ---------------------------------------------------------------------
  // Casts
  // ---------------------------------------------------------------------

  /** `u as i32`: keep the low 32 bits, read them as two's complement. */
  function AsI32(u: USize): (r: I32)
    ensures u <= I32_MAX ==> r == u
  {
    var low := u % I32_RANGE;
    if low > I32_MAX then low - I32_RANGE else low
  }

  /** An `i32` addition that wraps, as the release build does. */
  function WrapI32(v: int): (r: I32)
    ensures I32_MIN <= v <= I32_MAX ==> r == v
  {
    (v - I32_MIN) % I32_RANGE + I32_MIN
  }

  /** `v as usize` for an `i32` value: sign extension, so -1 becomes 2^64 - 1. */
  function AsUSize(v: I32): (r: USize)
    ensures 0 <= v ==> r == v
    ensures v < 0 ==> r == USIZE + v
  {
    v % USIZE
  }

  /** The target coordinate of a step `d` from coordinate `c`, computed as
      `(c as i32 + d) as usize`. */
  function StepTarget(c: USize, d: I32): USize
  {
    AsUSize(WrapI32(AsI32(c) + d))
  }

  /** Away from the edges a step lands where arithmetic says it should. */
  lemma StepTargetInRange(c: USize, d: I32)
    requires d == 1 || d == -1
    requires 0 <= c + d && c < I32_MAX
    ensures StepTarget(c, d) == c + d
  {
  }

  /** A step left (or down) from coordinate 0 does not go negative: it wraps to
      the largest `usize`. */
  lemma StepFromZeroWraps()
    ensures StepTarget(0, -1) == USIZE - 1
  {
  }

  // ---------------------------------------------------------------------
  // The cell-index codec (`xy_to_index`, `index_to_xy`)
  // ---------------------------------------------------------------------

  /** `xy_to_index`: cells are numbered row by row from 1, so that 0 can stand
      for "no position". */
  function XyToIndex(width: USize, x: USize, y: USize): USize
  {
    (1 + y * width + x) % USIZE
  }

  /** `index_to_xy`: undo the numbering; index 0 wraps to 2^64 - 1 first. */
  function IndexToXy(width: USize, idx: USize): (xy: (USize, USize))
    requires width > 0
    ensures xy.0 < width
  {
    var adjusted := (idx - 1) % USIZE;
    (adjusted % width, adjusted / width)
  }

  /** A positive multiple of a positive number is at least that number. */
  lemma MultipleAtLeast(k: int, w: int)
    requires k >= 1 && w >= 1
    ensures k * w >= w
  {
    assert k * w == (k - 1) * w + w;
  }

  /** Quotient and remainder are determined by a decomposition `q * w + r`
      with `0 <= r < w`. */
  lemma DivModUnique(n: int, w: int, q: int, r: int)
    requires w > 0 && 0 <= r < w && n == q * w + r
    ensures n / w == q && n % w == r
  {
    var q', r' := n / w, n % w;
    assert n == q' * w + r';
    if q' < q {
      assert (q - q') * w == q * w - q' * w;
      MultipleAtLeast(q - q', w);
    } else if q' > q {
      assert (q' - q) * w == q' * w - q * w;
      MultipleAtLeast(q' - q, w);
    }
  }

  /** Decoding an encoded cell gives back its coordinates, as long as `x` lies
      inside a row and the sum does not overflow. */
  lemma XyRoundTrip(width: USize, x: USize, y: USize)
    requires x < width
    requires 1 + y * width + x < USIZE
    ensures XyToIndex(width, x, y) >= 1
    ensures IndexToXy(width, XyToIndex(width, x, y)) == (x, y)
  {
    var idx := XyToIndex(width, x, y);
    assert idx == 1 + y * width + x;
    assert (idx - 1) % USIZE == y * width + x;
    DivModUnique(y * width + x, width, y, x);
  }

  /** Encoding a decoded index gives back the index, for every index but 0. */
  lemma IndexRoundTrip(width: USize, idx: USize)
    requires width > 0 && idx >= 1
    ensures var (x, y) := IndexToXy(width, idx); x < width && XyToIndex(width, x, y) == idx
  {
    var adjusted := idx - 1;
    assert (idx - 1) % USIZE == adjusted;
    assert adjusted == adjusted / width * width + adjusted % width;
  }

  /** A coordinate that wrapped to 2^64 - 1 lands on the last cell of the
      previous row: the sum `1 + y * width + x` wraps as well. */
  lemma WrappedColumnLandsOnPreviousRow(width: USize, y: USize)
    requires width > 0 && y >= 1 && y * width < USIZE
    ensures XyToIndex(width, USIZE - 1, y) == XyToIndex(width, width - 1, y - 1)
  {
    assert (y - 1) * width + width - 1 == y * width - 1;
  }

  /** A step right from the last column is encoded as the first cell of the
      next row: `xy_to_index` does not check that `x` lies inside a row. */
  lemma ColumnPastRowLandsOnNextRow(width: USize, y: USize)
    requires width > 0 && 1 + (y + 1) * width < USIZE
    ensures XyToIndex(width, width, y) == XyToIndex(width, 0, y + 1)
  {
    assert y * width + width == (y + 1) * width;
  }

  /** A row that wrapped to 2^64 - 1 does not land on a neighbouring row: the
      product `y * width` wraps as well, so the cell is numbered just below
      2^64, far beyond the grid, or is cell 0 from the last column. */
  lemma WrappedRowLandsBeyondGrid(width: USize, x: USize)
    requires 0 < width && x < width
    ensures x + 1 < width ==> XyToIndex(width, x, USIZE - 1) == USIZE + 1 + x - width
    ensures x + 1 == width ==> XyToIndex(width, x, USIZE - 1) == 0
  {
    var n := 1 + (USIZE - 1) * width + x;
    assert n == (width - 1) * USIZE + (USIZE + 1 + x - width);
    if x + 1 < width {
      DivModUnique(n, USIZE, width - 1, USIZE + 1 + x - width);
    } else {
      assert n == width * USIZE;
      DivModUnique(n, USIZE, width, 0);
    }
  }

  /** Column `width` of the wrapped row 2^64 - 1 is cell 1, the grid's own
      (0, 0). */
  lemma ColumnPastWrappedRowIsCellOne(width: USize)
    requires 0 < width
    ensures XyToIndex(width, width, USIZE - 1) == 1
  {
    assert 1 + (USIZE - 1) * width + width == width * USIZE + 1;
    DivModUnique(1 + (USIZE - 1) * width + width, USIZE, width, 1);
  }

  /** A step of (+1, -1) from the last two columns of row 0 lands back on
      the grid's own numbers: cell 0 from column `width - 2` and cell 1,
      which is (0, 0), from column `width - 1`. */
  lemma DownStepFromLastColumns(width: USize)
    requires 2 <= width < I32_MAX
    ensures XyToIndex(width, StepTarget(width - 2, 1), StepTarget(0, -1)) == 0
    ensures XyToIndex(width, StepTarget(width - 1, 1), StepTarget(0, -1)) == 1
  {
    StepFromZeroWraps();
    StepTargetInRange(width - 2, 1);
    StepTargetInRange(width - 1, 1);
    WrappedRowLandsBeyondGrid(width, width - 1);
    ColumnPastWrappedRowIsCellOne(width);
  }

  /** A step of (-1, -1) from (0, 1) wraps `x` on row 0 and so lands on cell
      0, the number that otherwise means "no position". */
  lemma CornerStepLandsOnCellZero(width: USize)
    ensures XyToIndex(width, StepTarget(0, -1), StepTarget(1, -1)) == 0
  {
    StepFromZeroWraps();
    StepTargetInRange(1, -1);
  }

  // ---------------------------------------------------------------------
  // The random step (`generate_random_move`)
  // ---------------------------------------------------------------------

  /** The coin flips one call of `generate_random_move` makes: one per axis
      (heads means the likelier outcome), and the two of the fallback branch. */
  datatype StepCoins = StepCoins(x: bool, y: bool, fallbackX: bool, fallbackY: bool)

  /** The step on one axis: towards the centre on heads, away on tails; at the
      centre heads means +1. */
  function AxisStep(c: USize, heads: bool): (d: I32)
    ensures d == 1 || d == -1
    ensures c < CENTRE ==> (d == 1 <==> heads)
    ensures c > CENTRE ==> (d == -1 <==> heads)
    ensures c == CENTRE ==> (d == 1 <==> heads)
  {
    if c < CENTRE then (if heads then 1 else -1)
    else if c > CENTRE then (if heads then -1 else 1)
    else (if heads then 1 else -1)
  }

  /** The fair fallback draw: +1 on heads, -1 on tails. */
  function CoinStep(heads: bool): I32
  {
    if heads then 1 else -1
  }

  /** `generate_random_move`: a diagonal step biased towards the centre. Both
      components are always +1 or -1, so the fallback branch for a zero step
      is never taken. */
  function GenerateRandomMove(x: USize, y: USize, coins: StepCoins): (step: (I32, I32))
    ensures step.0 == 1 || step.0 == -1
    ensures step.1 == 1 || step.1 == -1
    ensures step == (AxisStep(x, coins.x), AxisStep(y, coins.y))
  {
    var moveX := AxisStep(x, coins.x);
    var moveY := AxisStep(y, coins.y);
    if moveX == 0 && moveY == 0 then
      (CoinStep(coins.fallbackX), CoinStep(coins.fallbackY))
    else
      (moveX, moveY)
  }

  // ---------------------------------------------------------------------
  // The odds of moving, in hundredths
  // ---------------------------------------------------------------------

  function Min(a: int, b: int): int { if a <= b then a else b }

  /** `move_probability` in hundredths: 90 for a lone resident, 1 when the
      bounty feeds everyone, otherwise 1 plus ten per extra mouth, capped at 20.
      The floating-point values 0.9, 0.01 and 0.01 + min(0.1 d, 0.19) are
      represented exactly as these integers. */
  function MovePercent(residentCount: nat, bounty: nat): (pct: nat)
    ensures 1 <= pct <= 90
    ensures pct == 90 <==> residentCount == 1
    ensures residentCount != 1 ==> pct <= 20
  {
    var difference := residentCount - bounty;
    if residentCount == 1 then 90
    else if difference <= 0 then 1
    else 1 + Min(difference * 10, 19)
  }

  /** More residents never lower the odds, once the lone-resident case is set
      aside. */
  lemma MovePercentMonotone(fewer: nat, more: nat, bounty: nat)
    requires fewer != 1 && more != 1 && fewer <= more
    ensures MovePercent(fewer, bounty) <= MovePercent(more, bounty)
  {
  }

  // ---------------------------------------------------------------------
  // Ages
  // ---------------------------------------------------------------------

  /** `get_age`: a `usize` subtraction, so the birthday may not lie in the
      future. */
  function GetAge(day: nat, birthday: nat): (age: nat)
    requires birthday <= day
    ensures age <= day
  {
    day - birthday
  }
}
