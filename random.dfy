/** The integer generators of the property-testing support: a seed-passing
  * generator of uint32 values, the linear congruential step, the `count`
  * and seed threading of the permuted congruential generator, and
  * IntRangeGenerator, which maps a uint32 into `[rangeStart, rangeEnd]`. */
module Random {
  import opened Wrappers
  import opened Errors
  import opened Bits

  datatype Seed = Seed(state: int)

  /** `GeneratorOutput`: a value and the seed for the next draw. */
  datatype Output<T> = Output(generated: T, nextSeed: Seed)

  type Uint32 = x: int | 0 <= x < TWO_32

  /** A source of unsigned 32-bit values, the generator an IntRangeGenerator
    * wraps. The permuted congruential generator's `(word >>> 22) ^ word` is
    * a signed 32-bit value, so its negative draws are outside this type. */
  type Source = Seed -> Output<Uint32>

  /** `ConstantGenerator`: always the same value, the seed passed through. */
  function Constant(value: Uint32): (source: Source)
    ensures forall seed :: source(seed) == Output(value, seed)
  {
    seed => Output(value, seed)
  }

  const MULTIPLIER: int := 1664525
  const INCREMENT: int := 1013904223
  const MODULO: int := TWO_32

  /** The linear congruential step: `(state * 1664525 + 1013904223) % 2^32`,
    * whose output is also the next seed's state. The source computes it in
    * doubles, exact while the sum stays below 2^53; the contract speaks of
    * uint32 states, which covers every state the step hands on. */
  function LcgGenerate(seed: Seed): (r: Output<int>)
    ensures r.nextSeed == Seed(r.generated)
    ensures 0 <= seed.state < TWO_32 ==> 0 <= r.generated < TWO_32
    ensures 0 <= seed.state < TWO_32 ==> r.generated == (seed.state * MULTIPLIER + INCREMENT) % TWO_32
  {
    var generated := JsRemainder(seed.state * MULTIPLIER + INCREMENT, MODULO);
    Output(generated, Seed(generated))
  }

  /** What the permuted congruential generator computes before its
    * permutation: the rotation `count` and the seed it hands on. */
  datatype PcgDraw = PcgDraw(count: nat, nextSeed: Seed)

  function PcgGenerate(seed: Seed): (r: PcgDraw)
    ensures r.count < 16
    ensures r.nextSeed == LcgGenerate(seed).nextSeed
    ensures 0 <= seed.state < TWO_32 ==> r.count == LcgGenerate(seed).generated / Pow2(28)
  {
    var lcgOutput := LcgGenerate(seed);
    Pow2Table();
    PcgDraw(UnsignedShiftRight(lcgOutput.generated, 28), lcgOutput.nextSeed)
  }

  /** An IntRangeGenerator as its constructor leaves it. */
  datatype IntRangeGenerator = IntRangeGenerator(rangeStart: int, range: int, source: Source)

  /** The constructor: fails unless `rangeStart < rangeEnd`. */
  function NewIntRangeGenerator(rangeStart: int, rangeEnd: int, source: Source): (r: Result<IntRangeGenerator>)
    ensures r.Success? <==> rangeStart < rangeEnd
    ensures r.Success? ==> r.value.rangeStart == rangeStart && r.value.source == source
    ensures r.Success? ==> r.value.rangeStart + r.value.range - 1 == rangeEnd && r.value.range >= 2
  {
    if rangeStart >= rangeEnd then Failure(EmptyRange)
    else Success(IntRangeGenerator(rangeStart, rangeEnd - rangeStart + 1, source))
  }

  function RangeEnd(g: IntRangeGenerator): int
  {
    g.rangeStart + g.range - 1
  }

  /** `isRangePowerOfTwo`: `((range - 1) & range) === 0`. */
  function IsRangePowerOfTwo(g: IntRangeGenerator): bool
  {
    JsAnd(g.range - 1, g.range) == 0
  }

  /** `generateWhenRangeIsPowerOfTwo`: keeps the low bits of the draw. */
  function GenerateWhenRangeIsPowerOfTwo(g: IntRangeGenerator, seed: Seed): (r: Output<int>)
    ensures r.nextSeed == g.source(seed).nextSeed
    ensures 1 <= g.range <= TWO_31 ==> g.rangeStart <= r.generated <= RangeEnd(g)
  {
    var output := g.source(seed);
    Output(JsAnd(output.generated, g.range - 1) + g.rangeStart, output.nextSeed)
  }

  /** `generateWhenRangeIsNotPowerOfTwo`: rejects draws below `2^32 % range`
    * and retries with the next seed. The source recursion need not end (a
    * constant source below the threshold never does), so `fuel` bounds the
    * retries and `None` stands for running out of it. */
  function GenerateWhenRangeIsNotPowerOfTwo(g: IntRangeGenerator, seed: Seed, fuel: nat): (r: Option<Output<int>>)
    requires g.range >= 1
    ensures r.Some? ==> g.rangeStart <= r.value.generated <= RangeEnd(g)
    decreases fuel
  {
    var output := g.source(seed);
    var threshold := JsRemainder(TWO_32, g.range);
    if output.generated < threshold then
      if fuel == 0 then None else GenerateWhenRangeIsNotPowerOfTwo(g, output.nextSeed, fuel - 1)
    else
      Some(Output(JsRemainder(output.generated, g.range) + g.rangeStart, output.nextSeed))
  }

  /** `generate`: dispatches on `isRangePowerOfTwo`. */
  function Generate(g: IntRangeGenerator, seed: Seed, fuel: nat): Option<Output<int>>
    requires g.range >= 1
  {
    if IsRangePowerOfTwo(g) then Some(GenerateWhenRangeIsPowerOfTwo(g, seed))
    else GenerateWhenRangeIsNotPowerOfTwo(g, seed, fuel)
  }

  /** `2^32 % range`: draws below it are rejected. */
  function Threshold(g: IntRangeGenerator): int
    requires g.range >= 1
  {
    JsRemainder(TWO_32, g.range)
  }

  /** The seed after `k` draws from `seed`. */
  function SeedAfter(g: IntRangeGenerator, seed: Seed, k: nat): Seed
    decreases k
  {
    if k == 0 then seed else SeedAfter(g, g.source(seed).nextSeed, k - 1)
  }

  /** Draw number `k` (from 0) of the retries starting at `seed`. */
  function Draw(g: IntRangeGenerator, seed: Seed, k: nat): Output<Uint32> {
    g.source(SeedAfter(g, seed, k))
  }

  predicate Rejected(g: IntRangeGenerator, seed: Seed, k: nat)
    requires g.range >= 1
  {
    Draw(g, seed, k).generated < Threshold(g)
  }

  /** Within `fuel` retries, `generateWhenRangeIsNotPowerOfTwo` keeps the
    * first draw that is not rejected, reduced modulo the range, and hands
    * on the seed that draw returned; it finds none exactly when every draw
    * up to the last retry is rejected. */
  lemma {:induction false} NotPowerOfTwoAccepted(g: IntRangeGenerator, seed: Seed, fuel: nat)
    requires g.range >= 1
    ensures var r := GenerateWhenRangeIsNotPowerOfTwo(g, seed, fuel);
      (r.None? <==> forall j :: 0 <= j <= fuel ==> Rejected(g, seed, j))
      && (r.Some? ==>
            exists k ::
              0 <= k <= fuel && !Rejected(g, seed, k)
              && (forall j :: 0 <= j < k ==> Rejected(g, seed, j))
              && r.value == Output(Draw(g, seed, k).generated % g.range + g.rangeStart, Draw(g, seed, k).nextSeed))
    decreases fuel
  {
    var output := g.source(seed);
    var next := output.nextSeed;
    assert Draw(g, seed, 0) == output;
    forall j: nat
      ensures Draw(g, seed, j + 1) == Draw(g, next, j)
    {
      assert SeedAfter(g, seed, j + 1) == SeedAfter(g, next, j);
    }
    if output.generated < Threshold(g) {
      if fuel > 0 {
        NotPowerOfTwoAccepted(g, next, fuel - 1);
        var r := GenerateWhenRangeIsNotPowerOfTwo(g, next, fuel - 1);
        if r.Some? {
          var k :| 0 <= k <= fuel - 1 && !Rejected(g, next, k)
            && (forall j :: 0 <= j < k ==> Rejected(g, next, j))
            && r.value == Output(Draw(g, next, k).generated % g.range + g.rangeStart, Draw(g, next, k).nextSeed);
          assert !Rejected(g, seed, k + 1);
          forall j | 0 <= j < k + 1
            ensures Rejected(g, seed, j)
          {
            if j > 0 {
              assert Rejected(g, next, j - 1);
            }
          }
        } else {
          forall j | 0 <= j <= fuel
            ensures Rejected(g, seed, j)
          {
            if j > 0 {
              assert Rejected(g, next, j - 1);
            }
          }
        }
      }
    } else {
      assert !Rejected(g, seed, 0);
      assert JsRemainder(output.generated, g.range) == output.generated % g.range;
    }
  }

  /** Every value drawn lies in `[rangeStart, rangeEnd]` when the range
    * has at most 2^31 values; a power-of-two range takes a single draw and
    * hands on its seed. */
  lemma GenerateInRange(g: IntRangeGenerator, seed: Seed, fuel: nat)
    requires 2 <= g.range <= TWO_31
    ensures var r := Generate(g, seed, fuel);
      r.Some? ==> g.rangeStart <= r.value.generated <= RangeEnd(g)
    ensures IsRangePowerOfTwo(g) ==>
      Generate(g, seed, fuel) == Some(Output(g.source(seed).generated % g.range + g.rangeStart, g.source(seed).nextSeed))
  {
    if IsRangePowerOfTwo(g) {
      PowerOfTwoBranchIsRemainder(g, seed);
    }
  }

  /** As written, the range 0..2^32-1 escapes its bounds: `range - 1` reads
    * as -1 and `range` as 0 in 32 bits, so the range passes as a power of
    * two, and the draw 2^32-1 masked with -1 reads back as -1. */
  lemma FullRangeEscapes(seed: Seed)
    ensures var g := NewIntRangeGenerator(0, 0xFFFF_FFFF, Constant(0xFFFF_FFFF));
      g.Success? && Generate(g.value, seed, 0) == Some(Output(-1, seed))
  {
    var c := Constant(0xFFFF_FFFF);
    var g := NewIntRangeGenerator(0, 0xFFFF_FFFF, c).value;
    assert g.range == TWO_32;
    assert c(seed) == Output(0xFFFF_FFFF, seed);
    assert JsAnd(g.range - 1, g.range) == 0 by {
      assert ToUint32(g.range) == 0;
      assert BitAnd(ToUint32(g.range - 1), 0) == 0;
    }
    assert JsAnd(0xFFFF_FFFF, g.range - 1) == -1 by {
      assert ToUint32(g.range - 1) == 0xFFFF_FFFF;
      BitAndSelf(0xFFFF_FFFF);
    }
  }

  /** As written, a range of more than 2^32 values that is not a power of
    * two rejects every draw: `2^32 % range` is 2^32 itself. */
  lemma {:induction false} WideRangeNeverAccepts(g: IntRangeGenerator, seed: Seed, fuel: nat)
    requires g.range > TWO_32
    ensures GenerateWhenRangeIsNotPowerOfTwo(g, seed, fuel).None?
    decreases fuel
  {
    assert Threshold(g) == TWO_32;
    if fuel > 0 {
      WideRangeNeverAccepts(g, g.source(seed).nextSeed, fuel - 1);
    }
  }

  /** `generate` as intended: the power-of-two test and the mask on exact
    * integers, so that every value drawn lies in `[rangeStart, rangeEnd]`
    * for every range the constructor accepts. */
  function GenerateExact(g: IntRangeGenerator, seed: Seed, fuel: nat): (r: Option<Output<int>>)
    requires g.range >= 1
    ensures r.Some? ==> g.rangeStart <= r.value.generated <= RangeEnd(g)
  {
    if IsPowerOfTwo(g.range) then
      var output := g.source(seed);
      Some(Output(output.generated % g.range + g.rangeStart, output.nextSeed))
    else GenerateWhenRangeIsNotPowerOfTwo(g, seed, fuel)
  }

  /** Up to 2^31 values the corrected `generate` is the one as written. */
  lemma GenerateExactAgrees(g: IntRangeGenerator, seed: Seed, fuel: nat)
    requires 2 <= g.range <= TWO_31
    ensures GenerateExact(g, seed, fuel) == Generate(g, seed, fuel)
  {
    var m := g.range;
    BitAndAtMostLeft(m - 1, m);
    assert JsAnd(m - 1, m) == BitAnd(m - 1, m);
    PowerOfTwoTest(m);
    if IsPowerOfTwo(m) {
      PowerOfTwoBranchIsRemainder(g, seed);
    }
  }

  /** For a range that passes `isRangePowerOfTwo`, the low-bits draw is
    * the same reduction the other branch makes: the draw modulo the range. */
  lemma PowerOfTwoBranchIsRemainder(g: IntRangeGenerator, seed: Seed)
    requires 2 <= g.range <= TWO_31 && IsRangePowerOfTwo(g)
    ensures IsPowerOfTwo(g.range)
    ensures GenerateWhenRangeIsPowerOfTwo(g, seed).generated == g.source(seed).generated % g.range + g.rangeStart
  {
    var x, m := g.source(seed).generated, g.range;
    assert JsAnd(m - 1, m) == BitAnd(m - 1, m);
    PowerOfTwoTest(m);
    BitAndLowMask(x, m);
    assert JsAnd(x, m - 1) == BitAnd(x, m - 1);
  }

  /** `isRangePowerOfTwo` on the ranges of the source's own examples:
    * 0..7, 0..15 and 0..31 are powers of two, 1..65, 2..130 and 3..260 are not. */
  lemma PowerOfTwoExamples(source: Source)
    ensures IsRangePowerOfTwo(NewIntRangeGenerator(0, 7, source).value)
    ensures IsRangePowerOfTwo(NewIntRangeGenerator(0, 15, source).value)
    ensures IsRangePowerOfTwo(NewIntRangeGenerator(0, 31, source).value)
    ensures !IsRangePowerOfTwo(NewIntRangeGenerator(1, 65, source).value)
    ensures !IsRangePowerOfTwo(NewIntRangeGenerator(2, 130, source).value)
    ensures !IsRangePowerOfTwo(NewIntRangeGenerator(3, 260, source).value)
  {
    assert BitAnd(7, 8) == 0;
    assert BitAnd(15, 16) == 0;
    assert BitAnd(31, 32) == 0;
    assert BitAnd(64, 65) == 64;
    assert BitAnd(128, 129) == 128;
    assert BitAnd(257, 258) == 256;
  }

  /** The constant draw 2^32 - 1 on the source's example ranges: 0..7
    * gives 7, 1..65 gives 61, -7..0 gives 0 and -65..-1 gives -5. */
  lemma ConstantDrawPowerOfTwo(seed: Seed)
    ensures Generate(NewIntRangeGenerator(0, 7, Constant(TWO_32 - 1)).value, seed, 0) == Some(Output(7, seed))
    ensures Generate(NewIntRangeGenerator(-7, 0, Constant(TWO_32 - 1)).value, seed, 0) == Some(Output(0, seed))
  {
    var c := Constant(TWO_32 - 1);
    assert c(seed) == Output(TWO_32 - 1, seed);
    assert BitAnd(7, 8) == 0;
    assert BitAnd(0xFFFF_FFFF, 7) == 7;
    assert JsAnd(TWO_32 - 1, 7) == 7;
  }

  lemma ConstantDrawRejection(seed: Seed)
    ensures Generate(NewIntRangeGenerator(1, 65, Constant(TWO_32 - 1)).value, seed, 0) == Some(Output(61, seed))
    ensures Generate(NewIntRangeGenerator(-65, -1, Constant(TWO_32 - 1)).value, seed, 0) == Some(Output(-5, seed))
  {
    ConstantDrawOf65(1, seed);
    ConstantDrawOf65(-65, seed);
  }

  /** The constant draw 2^32 - 1 on a range of 65 values: 2^32 % 65 is 61,
    * the draw is not below it, and it lands 60 values after the start. */
  lemma ConstantDrawOf65(rangeStart: int, seed: Seed)
    ensures Generate(NewIntRangeGenerator(rangeStart, rangeStart + 64, Constant(TWO_32 - 1)).value, seed, 0) ==
      Some(Output(rangeStart + 60, seed))
  {
    var c := Constant(TWO_32 - 1);
    var g := NewIntRangeGenerator(rangeStart, rangeStart + 64, c).value;
    assert g == IntRangeGenerator(rangeStart, 65, c);
    assert c(seed) == Output(TWO_32 - 1, seed);
    assert !IsRangePowerOfTwo(g) by {
      assert BitAnd(64, 65) == 64;
    }
    assert JsRemainder(TWO_32, 65) == 61;
    assert JsRemainder(TWO_32 - 1, 65) == 60;
  }
}
