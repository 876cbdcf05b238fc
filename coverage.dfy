/**
 * Coverage masks of SpanDrawerMultisampling.
 *
 * With a sample count S the drawer rasterises at S times the resolution in
 * both directions and folds every S x S block of samples into one pixel: a
 * span buffer holds one cell per pixel of the current row, and each cell has
 * a 32-bit mask with bit (x % S) + (y % S) * S set for every covered sample
 * (x, y). The first span that touches an empty cell also stores its fragment
 * data and userdata there.
 *
 * A mask is modelled as the set of the indices of its 1-bits; `Value` gives
 * the unsigned number it stands for. This module holds the value-level part:
 * the bit layout, the update of one cell, the whole effect of one span on the
 * buffer (defined sample by sample, then described cell by cell by lemmas)
 * and the list of fragments that emitting a row produces.
 */
module Coverage {
  import opened Fragment

  /** The sample count is at least 1 and its S * S samples fit the 32-bit mask. */
  predicate ValidSampleCount(S: nat) {
    1 <= S && S * S <= 32
  }

  lemma SampleCountBound(S: nat)
    requires ValidSampleCount(S)
    ensures S <= 5
  {
    MulMono(6, S, S);
    MulMono(6, S, 6);
  }

  // ---------------------------------------------------------------- masks

  /** An unsigned 32-bit mask, as the set of the indices of its 1-bits. */
  type Mask = set<nat>

  /** `m << t` on an unsigned 32-bit value: bits moved past bit 31 are lost. */
  function ShiftLeft(m: Mask, t: nat): (r: Mask)
    ensures forall k :: k in r <==> t <= k < 32 && k - t in m
  {
    set k | k in m && k + t < 32 :: k + t
  }

  /** `0x01 << k`. */
  function Bit(k: nat): (m: Mask)
    requires k < 32
    ensures m == {k}
  {
    ShiftLeft({0}, k)
  }

  /** 2 to the power k. */
  function Pow2(k: nat): (p: nat)
    ensures p >= 1
  {
    if k == 0 then 1 else 2 * Pow2(k - 1)
  }

  /** The sum of 2^k over the bits k < j of m. */
  function ValueBelow(m: Mask, j: nat): nat {
    if j == 0 then 0 else ValueBelow(m, j - 1) + (if j - 1 in m then Pow2(j - 1) else 0)
  }

  /** The unsigned number a 32-bit mask stands for. */
  function Value(m: Mask): nat {
    ValueBelow(m, 32)
  }

  /** The sample bit indices of one pixel: 0 .. S*S - 1. */
  lemma SampleIndexBound(S: nat, i: nat, r: nat)
    requires ValidSampleCount(S) && i < S && r < S
    ensures i + r * S < S * S <= 32
  {
    assert r * S <= (S - 1) * S;
  }

  /** `row_shift`: the first bit of sample row y in a pixel's mask. */
  function RowShift(S: nat, y: nat): (t: nat)
    requires ValidSampleCount(S)
    ensures t + S <= 32 && t == (y % S) * S
  {
    SampleIndexBound(S, S - 1, y % S);
    (y % S) * S
  }

  /**
   * The bit of sample (x, y) in the mask of its pixel, as the drawer
   * computes it: `(0x01 << (x % S)) << row_shift`. It is the single bit
   * (x % S) + (y % S) * S.
   */
  function PixelBit(S: nat, x: nat, y: nat): (m: Mask)
    requires ValidSampleCount(S)
    ensures m == {SampleBit(S, x, y)}
  {
    ShiftLeft(Bit(x % S), RowShift(S, y))
  }

  /** The index of the bit of sample (x, y): (x % S) + (y % S) * S. */
  function SampleBit(S: nat, x: nat, y: nat): nat
    requires ValidSampleCount(S)
  {
    x % S + RowShift(S, y)
  }

  /** With two samples per direction, the bits of the four samples of a pixel are 1, 2, 4 and 8. */
  lemma TwoByTwoLayout(x: nat, y: nat)
    ensures Value(PixelBit(2, x, y)) == if y % 2 == 0 then (if x % 2 == 0 then 0x01 else 0x02)
                                        else (if x % 2 == 0 then 0x04 else 0x08)
  {
    var xm, ym := x % 2, y % 2;
    assert (xm == 0 || xm == 1) && (ym == 0 || ym == 1);
    PixelBitTwo(x, y);
    LowBitValue(PixelBit(2, x, y), xm + ym * 2);
  }

  /** With two samples per direction, sample (x, y) has bit (x % 2) + 2 (y % 2). */
  lemma PixelBitTwo(x: nat, y: nat)
    ensures PixelBit(2, x, y) == {x % 2 + (y % 2) * 2}
  {
    assert RowShift(2, y) == (y % 2) * 2;
  }

  /** The bits 0 to 3 are worth 0x01, 0x02, 0x04 and 0x08. */
  lemma LowBitValue(m: Mask, k: nat)
    requires k < 4 && m == {k}
    ensures Value(m) == if k == 0 then 0x01 else if k == 1 then 0x02 else if k == 2 then 0x04 else 0x08
  {
    ValueOfBit(k);
    assert Pow2(1) == 0x02 && Pow2(2) == 0x04 && Pow2(3) == 0x08;
  }

  /** A single bit k is worth 2^k. */
  lemma ValueOfBit(k: nat)
    requires k < 32
    ensures Value({k}) == Pow2(k)
  {
    ValueBelowSingle(k, 32);
  }

  lemma {:induction false} ValueBelowSingle(k: nat, j: nat)
    ensures ValueBelow({k}, j) == if k < j then Pow2(k) else 0
  {
    if j > 0 {
      ValueBelowSingle(k, j - 1);
    }
  }

  /** The lowest j bits. */
  function LowBits(j: nat): (m: Mask)
    ensures forall k: nat :: k in m <==> k < j
  {
    if j == 0 then {} else LowBits(j - 1) + {j - 1}
  }

  /** The lowest j bits are worth 2^j - 1. */
  lemma {:induction false} LowBitsValue(j: nat)
    requires j <= 32
    ensures ValueBelow(LowBits(j), j) == Pow2(j) - 1
    ensures Value(LowBits(j)) == Pow2(j) - 1
  {
    if j > 0 {
      LowBitsValue(j - 1);
      ValueBelowAgree(LowBits(j - 1), LowBits(j), j - 1);
    }
    ValueBelowAbove(LowBits(j), j, 32);
  }

  /** Masks that agree below j have the same value below j. */
  lemma {:induction false} ValueBelowAgree(a: Mask, b: Mask, j: nat)
    requires forall k | k < j :: k in a <==> k in b
    ensures ValueBelow(a, j) == ValueBelow(b, j)
  {
    if j > 0 {
      ValueBelowAgree(a, b, j - 1);
    }
  }

  /** Bits at or above j add nothing when there are none. */
  lemma {:induction false} ValueBelowAbove(m: Mask, j: nat, h: nat)
    requires j <= h
    requires forall k | j <= k < h :: k !in m
    ensures ValueBelow(m, h) == ValueBelow(m, j)
    decreases h
  {
    if h > j {
      ValueBelowAbove(m, j, h - 1);
    }
  }

  /**
   * `span_mask`, computed as the drawer does it: S times OR in
   * `1 << (i % S)`. It is the S lowest bits, that is 2^S - 1.
   */
  method SpanMask(S: nat) returns (m: Mask)
    requires ValidSampleCount(S)
    ensures m == LowBits(S)
    ensures Value(m) == Pow2(S) - 1
  {
    SampleCountBound(S);
    m := {};
    var i := 0;
    while i < S
      invariant 0 <= i <= S
      invariant m == LowBits(i)
    {
      DivUnique(i, S, 0, i);
      m := m + Bit(i % S);
      i := i + 1;
    }
    LowBitsValue(S);
  }

  /** Bits t .. t + j - 1: the first j samples of a row whose bits start at t. */
  function RowMask(t: nat, j: nat): (m: Mask)
    ensures forall k :: k in m <==> t <= k < t + j
  {
    if j == 0 then {} else RowMask(t, j - 1) + {t + j - 1}
  }

  /**
   * `span_mask << row_shift` is the mask the S samples of one pixel row set
   * one by one.
   */
  lemma SpanMaskShifted(S: nat, shift: nat)
    requires shift + S <= 32
    ensures ShiftLeft(LowBits(S), shift) == RowMask(shift, S)
  {}

  // --------------------------------------------------------------- cells

  /**
   * Sample column p lies in cell `CellOf(S, p)` (the drawer's `p / S`) at
   * column `ColOf(S, p)` inside it (`p % S`); cell c starts at sample
   * column `CellStart(S, c)`, that is c * S. They are defined by repeated
   * subtraction and addition, and `CellColDivMod` and `CellStartProduct`
   * tie them to division and multiplication.
   */
  function CellOf(S: nat, p: nat): nat
    decreases p
  {
    if S == 0 || p < S then 0 else CellOf(S, p - S) + 1
  }

  function ColOf(S: nat, p: nat): (k: nat)
    ensures S > 0 ==> k < S
    decreases p
  {
    if S == 0 || p < S then p else ColOf(S, p - S)
  }

  function CellStart(S: nat, c: nat): nat {
    if c == 0 then 0 else CellStart(S, c - 1) + S
  }

  /** Sample p sits at column ColOf(S, p) of cell CellOf(S, p). */
  lemma {:induction false} CellColRecompose(S: nat, p: nat)
    requires S > 0
    ensures p == CellStart(S, CellOf(S, p)) + ColOf(S, p)
    decreases p
  {
    if p >= S {
      CellColRecompose(S, p - S);
    }
  }

  /** Column j of cell c is sample CellStart(S, c) + j, and no other sample is. */
  lemma {:induction false} CellColWithin(S: nat, c: nat, j: nat)
    requires S > 0 && j < S
    ensures CellOf(S, CellStart(S, c) + j) == c && ColOf(S, CellStart(S, c) + j) == j
  {
    if c > 0 {
      CellColWithin(S, c - 1, j);
    }
  }

  lemma {:induction false} CellStartMonotone(S: nat, c1: nat, c2: nat)
    ensures c1 <= c2 ==> CellStart(S, c1) <= CellStart(S, c2)
    decreases c2
  {
    if c1 < c2 {
      CellStartMonotone(S, c1, c2 - 1);
    }
  }

  /** Moving one sample right stays in the cell unless it crosses into the next one. */
  lemma CellColStep(S: nat, p: nat)
    requires S > 0
    ensures ColOf(S, p) + 1 == S ==> CellOf(S, p + 1) == CellOf(S, p) + 1 && ColOf(S, p + 1) == 0
    ensures ColOf(S, p) + 1 < S ==> CellOf(S, p + 1) == CellOf(S, p) && ColOf(S, p + 1) == ColOf(S, p) + 1
  {
    var c, j := CellOf(S, p), ColOf(S, p);
    CellColRecompose(S, p);
    if j + 1 == S {
      CellColWithin(S, c + 1, 0);
    } else {
      CellColWithin(S, c, j + 1);
    }
  }

  lemma {:induction false} CellMonotone(S: nat, a: nat, b: nat)
    requires S > 0 && a <= b
    ensures CellOf(S, a) <= CellOf(S, b)
    decreases b - a
  {
    if a < b {
      CellMonotone(S, a, b - 1);
      CellColStep(S, b - 1);
    }
  }

    /** Cell c starts at c * S. */
  lemma {:induction false} CellStartProduct(S: nat, c: nat)
    ensures CellStart(S, c) == c * S
  {
    if c > 0 {
      CellStartProduct(S, c - 1);
    }
  }

  /** `CellOf` and `ColOf` are the drawer's `p / S` and `p % S`. */
  lemma CellColDivMod(S: nat, p: nat)
    requires S > 0
    ensures CellOf(S, p) == p / S && ColOf(S, p) == p % S
  {
    CellColRecompose(S, p);
    CellStartProduct(S, CellOf(S, p));
    DivUnique(p, S, CellOf(S, p), ColOf(S, p));
  }

  /** A sample below S * cells lies in one of the first `cells` cells. */
  lemma {:induction false} CellBelow(S: nat, p: nat, cells: nat)
    requires S > 0 && p < S * cells
    ensures CellOf(S, p) < cells
    decreases cells
  {
    assert cells > 0;
    CellStartProduct(S, cells - 1);
    if p < S * (cells - 1) {
      CellBelow(S, p, cells - 1);
    } else {
      CellColWithin(S, cells - 1, p - CellStart(S, cells - 1));
    }
  }

  /** The first cell boundary at or after x; the samples before it share x's cell. */
  function RoundUp(S: nat, x: nat): (b: nat)
    requires S > 0
    ensures x <= b < x + S && ColOf(S, b) == 0
    ensures forall p | x <= p < b :: ColOf(S, p) != 0 && CellOf(S, p) == CellOf(S, x)
  {
    CellColRecompose(S, x);
    var c := CellOf(S, x);
    if ColOf(S, x) == 0 then x
    else
      CellColWithin(S, c + 1, 0);
      assert forall p | x <= p < CellStart(S, c + 1) :: ColOf(S, p) != 0 && CellOf(S, p) == c by {
        forall p | x <= p < CellStart(S, c + 1)
          ensures ColOf(S, p) != 0 && CellOf(S, p) == c
        {
          CellColWithin(S, c, p - CellStart(S, c));
        }
      }
      CellStart(S, c + 1)
  }

  // ---------------------------------------------------------- span buffer

  /** One cell of the span buffer: `coverage_mask`, `fd` and `userdata`. */
  datatype SampleData = SampleData(coverageMask: Mask, fd: FragmentData, userdata: UserData)

  /** A value-initialised cell: empty mask, zero data, null userdata. */
  function EmptySample(cfg: ShaderConfig): (c: SampleData)
    ensures c.coverageMask == {} && WellFormed(cfg, c.fd)
  {
    SampleData({}, ZeroFragment(cfg), 0)
  }

  /** Every cell's data has the shader's shape. */
  ghost predicate CellsWellFormed(cfg: ShaderConfig, buf: seq<SampleData>) {
    forall c | 0 <= c < |buf| :: WellFormed(cfg, buf[c].fd)
  }

  /**
   * What the drawer does to the cell of one covered sample, or of one block
   * of samples: an empty cell first takes the fragment data and userdata,
   * then the sample bits are ORed into the mask.
   */
  function Visit(cell: SampleData, bits: Mask, fd: FragmentData, u: UserData): (v: SampleData)
    ensures v.coverageMask == cell.coverageMask + bits
  {
    var w := if cell.coverageMask == {} then cell.(fd := fd, userdata := u) else cell;
    w.(coverageMask := w.coverageMask + bits)
  }

  /** A second visit to a cell the first one made non-empty only adds bits. */
  lemma VisitTwice(cell: SampleData, b1: Mask, b2: Mask, f1: FragmentData, f2: FragmentData, u: UserData)
    requires b1 != {}
    ensures Visit(Visit(cell, b1, f1, u), b2, f2, u) == Visit(cell, b1 + b2, f1, u)
  {}


  /** Some sample of lo .. hi - 1 lies in cell c. */
  predicate Touched(S: nat, c: int, lo: nat, hi: nat) {
    lo < hi && CellOf(S, lo) <= c <= CellOf(S, hi - 1)
  }

  /** The first sample at or after lo that lies in cell c. */
  function FirstSample(S: nat, c: nat, lo: nat): nat {
    if lo > CellStart(S, c) then lo else CellStart(S, c)
  }

  /** The bits that the samples lo .. hi - 1 of a row starting at bit `shift` set in cell c. */
  function CellBits(S: nat, c: int, lo: nat, hi: nat, shift: nat): set<nat>
    decreases hi
  {
    if hi <= lo then {}
    else CellBits(S, c, lo, hi - 1, shift) + (if CellOf(S, hi - 1) == c then {ColOf(S, hi - 1) + shift} else {})
  }

  /** One more sample adds its bit to its own cell's share only. */
  lemma CellBitsExtend(S: nat, c: int, lo: nat, x: nat, shift: nat)
    requires lo <= x
    ensures CellBits(S, c, lo, x + 1, shift)
            == CellBits(S, c, lo, x, shift) + (if CellOf(S, x) == c then {ColOf(S, x) + shift} else {})
  {}

  /** A bit is in the cell's share exactly when one of the samples in the cell sets it. */
  lemma {:induction false} CellBitsMembers(S: nat, c: int, lo: nat, hi: nat, shift: nat, k: nat)
    ensures k in CellBits(S, c, lo, hi, shift) <==>
            exists p :: lo <= p < hi && CellOf(S, p) == c && k == ColOf(S, p) + shift
    decreases hi
  {
    if hi > lo {
      var p := hi - 1;
      CellBitsMembers(S, c, lo, p, shift, k);
      if k in CellBits(S, c, lo, hi, shift) && k !in CellBits(S, c, lo, p, shift) {
        assert lo <= p < hi && CellOf(S, p) == c && k == ColOf(S, p) + shift;
      }
      if exists q :: lo <= q < hi && CellOf(S, q) == c && k == ColOf(S, q) + shift {
        var q :| lo <= q < hi && CellOf(S, q) == c && k == ColOf(S, q) + shift;
        if q < p {
          assert exists q' :: lo <= q' < p && CellOf(S, q') == c && k == ColOf(S, q') + shift by {
            assert lo <= q < p && CellOf(S, q) == c && k == ColOf(S, q) + shift;
          }
        }
      }
    }
  }

  /** A cell touched by the samples has its first sample among them. */
  lemma FirstSampleInCell(S: nat, c: nat, lo: nat, hi: nat)
    requires S > 0 && Touched(S, c, lo, hi)
    ensures lo <= FirstSample(S, c, lo) < hi && CellOf(S, FirstSample(S, c, lo)) == c
  {
    CellColWithin(S, c, 0);
    if lo > CellStart(S, c) {
      CellColRecompose(S, lo);
      CellStartMonotone(S, CellOf(S, lo) + 1, c);
    } else {
      CellColRecompose(S, hi - 1);
      CellStartMonotone(S, c, CellOf(S, hi - 1));
    }
  }

  /** A touched cell gets at least the bit of its first sample. */
  lemma TouchedHasBits(S: nat, c: nat, lo: nat, hi: nat, shift: nat)
    requires S > 0 && Touched(S, c, lo, hi)
    ensures ColOf(S, FirstSample(S, c, lo)) + shift in CellBits(S, c, lo, hi, shift)
  {
    FirstSampleInCell(S, c, lo, hi);
    var q := FirstSample(S, c, lo);
    CellBitsMembers(S, c, lo, hi, shift, ColOf(S, q) + shift);
  }

  /**
   * What one span does to cell c: if one of its samples lo .. hi - 1 lies
   * in the cell, the cell is visited with the bits of all of them and the
   * fragment data of the first; otherwise the cell is left alone.
   */
  function SpanCell(cfg: ShaderConfig, S: nat, cell: SampleData, c: nat, lo: nat, hi: nat, shift: nat,
                    fdIn: FragmentData, step: FragmentData, u: UserData): SampleData
    requires WellFormed(cfg, fdIn) && WellFormed(cfg, step)
  {
    if Touched(S, c, lo, hi) then
      Visit(cell, CellBits(S, c, lo, hi, shift), AddScaled(cfg, fdIn, step, FirstSample(S, c, lo) - lo), u)
    else cell
  }

  /**
   * The span buffer after covering the samples lo .. hi - 1 of one sample
   * row, whose bits start at `shift`, with fragment data fdIn at lo that
   * grows by step per sample and with userdata u.
   */
  function SpanEffect(cfg: ShaderConfig, S: nat, buf: seq<SampleData>, lo: nat, hi: nat, shift: nat,
                      fdIn: FragmentData, step: FragmentData, u: UserData): (r: seq<SampleData>)
    requires WellFormed(cfg, fdIn) && WellFormed(cfg, step)
    ensures |r| == |buf|
    ensures forall c | 0 <= c < |r| :: r[c] == SpanCell(cfg, S, buf[c], c, lo, hi, shift, fdIn, step, u)
  {
    seq(|buf|, c requires 0 <= c < |buf| => SpanCell(cfg, S, buf[c], c, lo, hi, shift, fdIn, step, u))
  }

  /** An empty span changes nothing. */
  lemma SpanEffectEmpty(cfg: ShaderConfig, S: nat, buf: seq<SampleData>, lo: nat, shift: nat,
                        fdIn: FragmentData, step: FragmentData, u: UserData)
    requires WellFormed(cfg, fdIn) && WellFormed(cfg, step)
    ensures SpanEffect(cfg, S, buf, lo, lo, shift, fdIn, step, u) == buf
  {}

  /** A span leaves the buffer's data well formed. */
  lemma SpanEffectWellFormed(cfg: ShaderConfig, S: nat, buf: seq<SampleData>, lo: nat, hi: nat, shift: nat,
                             fdIn: FragmentData, step: FragmentData, u: UserData)
    requires WellFormed(cfg, fdIn) && WellFormed(cfg, step)
    requires CellsWellFormed(cfg, buf)
    ensures CellsWellFormed(cfg, SpanEffect(cfg, S, buf, lo, hi, shift, fdIn, step, u))
  {}

  /** A cell no sample reaches gets no bits. */
  lemma {:induction false} CellBitsUntouched(S: nat, c: nat, lo: nat, hi: nat, shift: nat)
    requires S > 0 && !Touched(S, c, lo, hi)
    ensures CellBits(S, c, lo, hi, shift) == {}
    decreases hi
  {
    if hi > lo {
      CellMonotone(S, lo, hi - 1);
      if lo < hi - 1 {
        CellMonotone(S, hi - 2, hi - 1);
      }
      CellBitsUntouched(S, c, lo, hi - 1, shift);
    }
  }

  /** Sample x leaves the other cells' share of a span as it was. */
  lemma SpanCellStepOther(cfg: ShaderConfig, S: nat, cell: SampleData, c: nat, lo: nat, x: nat, shift: nat,
                          fdIn: FragmentData, step: FragmentData, u: UserData)
    requires S > 0 && lo <= x && c != CellOf(S, x)
    requires WellFormed(cfg, fdIn) && WellFormed(cfg, step)
    ensures SpanCell(cfg, S, cell, c, lo, x + 1, shift, fdIn, step, u)
            == SpanCell(cfg, S, cell, c, lo, x, shift, fdIn, step, u)
  {
    CellMonotone(S, lo, x);
    CellBitsExtend(S, c, lo, x, shift);
    if lo < x {
      CellColStep(S, x - 1);
    }
  }

  /** Sample x adds its bit to its own cell; if it is the cell's first sample, it is its first writer. */
  lemma SpanCellStepOwn(cfg: ShaderConfig, S: nat, cell: SampleData, lo: nat, x: nat, shift: nat,
                        fdIn: FragmentData, step: FragmentData, u: UserData)
    requires S > 0 && lo <= x
    requires WellFormed(cfg, fdIn) && WellFormed(cfg, step)
    ensures SpanCell(cfg, S, cell, CellOf(S, x), lo, x + 1, shift, fdIn, step, u)
            == Visit(SpanCell(cfg, S, cell, CellOf(S, x), lo, x, shift, fdIn, step, u),
                     {ColOf(S, x) + shift}, AddScaled(cfg, fdIn, step, x - lo), u)
  {
    if Touched(S, CellOf(S, x), lo, x) {
      StepIntoTouched(cfg, S, cell, lo, x, shift, fdIn, step, u);
    } else {
      StepIntoFresh(cfg, S, cell, lo, x, shift, fdIn, step, u);
    }
  }

  lemma StepIntoTouched(cfg: ShaderConfig, S: nat, cell: SampleData, lo: nat, x: nat, shift: nat,
                        fdIn: FragmentData, step: FragmentData, u: UserData)
    requires S > 0 && lo <= x && Touched(S, CellOf(S, x), lo, x)
    requires WellFormed(cfg, fdIn) && WellFormed(cfg, step)
    ensures SpanCell(cfg, S, cell, CellOf(S, x), lo, x + 1, shift, fdIn, step, u)
            == Visit(SpanCell(cfg, S, cell, CellOf(S, x), lo, x, shift, fdIn, step, u),
                     {ColOf(S, x) + shift}, AddScaled(cfg, fdIn, step, x - lo), u)
  {
    var c := CellOf(S, x);
    assert Touched(S, c, lo, x + 1) by { CellMonotone(S, lo, x); }
    assert CellBits(S, c, lo, x + 1, shift) == CellBits(S, c, lo, x, shift) + {ColOf(S, x) + shift} by {
      CellBitsExtend(S, c, lo, x, shift);
    }
    assert CellBits(S, c, lo, x, shift) != {} by { TouchedHasBits(S, c, lo, x, shift); }
    VisitTwice(cell, CellBits(S, c, lo, x, shift), {ColOf(S, x) + shift},
               AddScaled(cfg, fdIn, step, FirstSample(S, c, lo) - lo), AddScaled(cfg, fdIn, step, x - lo), u);
  }

  lemma StepIntoFresh(cfg: ShaderConfig, S: nat, cell: SampleData, lo: nat, x: nat, shift: nat,
                      fdIn: FragmentData, step: FragmentData, u: UserData)
    requires S > 0 && lo <= x && !Touched(S, CellOf(S, x), lo, x)
    requires WellFormed(cfg, fdIn) && WellFormed(cfg, step)
    ensures SpanCell(cfg, S, cell, CellOf(S, x), lo, x + 1, shift, fdIn, step, u)
            == Visit(SpanCell(cfg, S, cell, CellOf(S, x), lo, x, shift, fdIn, step, u),
                     {ColOf(S, x) + shift}, AddScaled(cfg, fdIn, step, x - lo), u)
  {
    var c := CellOf(S, x);
    var b := ColOf(S, x) + shift;
    assert Touched(S, c, lo, x + 1) by { CellMonotone(S, lo, x); }
    assert CellBits(S, c, lo, x + 1, shift) == {b} by {
      CellBitsExtend(S, c, lo, x, shift);
      CellBitsUntouched(S, c, lo, x, shift);
    }
    assert FirstSample(S, c, lo) == x by { FirstSampleAtEntry(S, lo, x); }
    assert SpanCell(cfg, S, cell, c, lo, x, shift, fdIn, step, u) == cell;
  }

  /** The first sample of x's cell at or after lo is x when lo .. x - 1 miss the cell. */
  lemma FirstSampleAtEntry(S: nat, lo: nat, x: nat)
    requires S > 0 && lo <= x && !Touched(S, CellOf(S, x), lo, x)
    ensures FirstSample(S, CellOf(S, x), lo) == x
  {
    if lo < x {
      CellMonotone(S, lo, x - 1);
      CellMonotone(S, x - 1, x);
      CellEntry(S, x);
    } else {
      CellColRecompose(S, x);
    }
  }

  /** A sample whose left neighbour lies in an earlier cell starts its cell. */
  lemma CellEntry(S: nat, x: nat)
    requires S > 0 && x > 0 && CellOf(S, x - 1) < CellOf(S, x)
    ensures x == CellStart(S, CellOf(S, x))
  {
    CellColRecompose(S, x);
    CellColStep(S, x - 1);
  }

  /** Covering one more sample x is one more visit of x's cell. */
  lemma SpanEffectStep(cfg: ShaderConfig, S: nat, buf: seq<SampleData>, lo: nat, x: nat, shift: nat,
                       fdIn: FragmentData, step: FragmentData, u: UserData)
    requires S > 0 && lo <= x && CellOf(S, x) < |buf|
    requires WellFormed(cfg, fdIn) && WellFormed(cfg, step)
    ensures var e := SpanEffect(cfg, S, buf, lo, x, shift, fdIn, step, u);
            var k := CellOf(S, x);
            SpanEffect(cfg, S, buf, lo, x + 1, shift, fdIn, step, u)
              == e[k := Visit(e[k], {ColOf(S, x) + shift}, AddScaled(cfg, fdIn, step, x - lo), u)]
  {
    var e := SpanEffect(cfg, S, buf, lo, x, shift, fdIn, step, u);
    var r := SpanEffect(cfg, S, buf, lo, x + 1, shift, fdIn, step, u);
    var k := CellOf(S, x);
    var t := e[k := Visit(e[k], {ColOf(S, x) + shift}, AddScaled(cfg, fdIn, step, x - lo), u)];
    forall c | 0 <= c < |buf|
      ensures r[c] == t[c]
    {
      if c == k {
        SpanCellStepOwn(cfg, S, buf[c], lo, x, shift, fdIn, step, u);
      } else {
        SpanCellStepOther(cfg, S, buf[c], c, lo, x, shift, fdIn, step, u);
      }
    }
  }
  /**
   * Covering a whole cell from its first sample x is one visit with the bits
   * of a full sample row: the drawer's `span_mask << row_shift`.
   */
  lemma BlockStep(cfg: ShaderConfig, S: nat, buf: seq<SampleData>, lo: nat, x: nat, shift: nat,
                  fdIn: FragmentData, step: FragmentData, u: UserData)
    requires S > 0 && lo <= x && ColOf(S, x) == 0 && CellOf(S, x) < |buf|
    requires WellFormed(cfg, fdIn) && WellFormed(cfg, step)
    ensures var e := SpanEffect(cfg, S, buf, lo, x, shift, fdIn, step, u);
            var c := CellOf(S, x);
            SpanEffect(cfg, S, buf, lo, x + S, shift, fdIn, step, u)
              == e[c := Visit(e[c], RowMask(shift, S), AddScaled(cfg, fdIn, step, x - lo), u)]
  {
    BlockPrefix(cfg, S, buf, lo, x, S, shift, fdIn, step, u);
  }

  lemma {:induction false} BlockPrefix(cfg: ShaderConfig, S: nat, buf: seq<SampleData>, lo: nat, x: nat, j: nat,
                                       shift: nat, fdIn: FragmentData, step: FragmentData, u: UserData)
    requires S > 0 && lo <= x && ColOf(S, x) == 0 && CellOf(S, x) < |buf| && 1 <= j <= S
    requires WellFormed(cfg, fdIn) && WellFormed(cfg, step)
    ensures var e := SpanEffect(cfg, S, buf, lo, x, shift, fdIn, step, u);
            var c := CellOf(S, x);
            SpanEffect(cfg, S, buf, lo, x + j, shift, fdIn, step, u)
              == e[c := Visit(e[c], RowMask(shift, j), AddScaled(cfg, fdIn, step, x - lo), u)]
    decreases j
  {
    var e := SpanEffect(cfg, S, buf, lo, x, shift, fdIn, step, u);
    var c := CellOf(S, x);
    var f := AddScaled(cfg, fdIn, step, x - lo);
    if j == 1 {
      assert RowMask(shift, 1) == {shift};
      assert SpanEffect(cfg, S, buf, lo, x + 1, shift, fdIn, step, u)
             == e[c := Visit(e[c], {ColOf(S, x) + shift}, f, u)] by {
        SpanEffectStep(cfg, S, buf, lo, x, shift, fdIn, step, u);
      }
    } else {
      var p := x + (j - 1);
      var v1 := Visit(e[c], RowMask(shift, j - 1), f, u);
      var e2 := SpanEffect(cfg, S, buf, lo, p, shift, fdIn, step, u);
      assert e2 == e[c := v1] by {
        BlockPrefix(cfg, S, buf, lo, x, j - 1, shift, fdIn, step, u);
      }
      assert CellOf(S, p) == c && ColOf(S, p) == j - 1 by {
        CellColRecompose(S, x);
        CellColWithin(S, c, j - 1);
      }
      var f2 := AddScaled(cfg, fdIn, step, p - lo);
      assert SpanEffect(cfg, S, buf, lo, p + 1, shift, fdIn, step, u)
             == e2[c := Visit(e2[c], {shift + (j - 1)}, f2, u)] by {
        SpanEffectStep(cfg, S, buf, lo, p, shift, fdIn, step, u);
      }
      assert Visit(v1, {shift + (j - 1)}, f2, u) == Visit(e[c], RowMask(shift, j), f, u) by {
        assert RowMask(shift, j) == RowMask(shift, j - 1) + {shift + (j - 1)};
        VisitTwice(e[c], RowMask(shift, j - 1), {shift + (j - 1)}, f, f2, u);
      }
      assert e2[c] == v1;
      assert e2[c := Visit(v1, {shift + (j - 1)}, f2, u)] == e[c := Visit(e[c], RowMask(shift, j), f, u)];
      assert p + 1 == x + j;
    }
  }
  // ------------------------------------------------- what one span means

  /**
   * A span over the samples lo .. hi - 1 of sample row y sets in cell c
   * exactly the bits `(p % S) + (y % S) * S` of its samples p with
   * `p / S == c`, on top of the bits already there.
   */
  lemma SpanEffectCoverage(cfg: ShaderConfig, S: nat, buf: seq<SampleData>, lo: nat, hi: nat, y: nat,
                           fdIn: FragmentData, step: FragmentData, u: UserData, c: nat, k: nat)
    requires ValidSampleCount(S) && c < |buf|
    requires WellFormed(cfg, fdIn) && WellFormed(cfg, step)
    ensures k in SpanEffect(cfg, S, buf, lo, hi, RowShift(S, y), fdIn, step, u)[c].coverageMask
            <==> k in buf[c].coverageMask || exists p :: lo <= p < hi && p / S == c && k == SampleBit(S, p, y)
  {
    SpanEffectMask(cfg, S, buf, lo, hi, RowShift(S, y), fdIn, step, u, c);
    CellBitsPixels(S, c, lo, hi, y, k);
  }

  /** A span adds to cell c exactly the cell's share of its bits. */
  lemma SpanEffectMask(cfg: ShaderConfig, S: nat, buf: seq<SampleData>, lo: nat, hi: nat, shift: nat,
                       fdIn: FragmentData, step: FragmentData, u: UserData, c: nat)
    requires S > 0 && c < |buf|
    requires WellFormed(cfg, fdIn) && WellFormed(cfg, step)
    ensures SpanEffect(cfg, S, buf, lo, hi, shift, fdIn, step, u)[c].coverageMask
            == buf[c].coverageMask + CellBits(S, c, lo, hi, shift)
  {
    if !Touched(S, c, lo, hi) {
      CellBitsUntouched(S, c, lo, hi, shift);
    }
  }

  /** The cell's share of the bits of row y are the pixel bits of its samples. */
  lemma CellBitsPixels(S: nat, c: nat, lo: nat, hi: nat, y: nat, k: nat)
    requires ValidSampleCount(S)
    ensures k in CellBits(S, c, lo, hi, RowShift(S, y))
            <==> exists p :: lo <= p < hi && p / S == c && k == SampleBit(S, p, y)
  {
    var shift := RowShift(S, y);
    CellBitsMembers(S, c, lo, hi, shift, k);
    if k in CellBits(S, c, lo, hi, shift) {
      var p :| lo <= p < hi && CellOf(S, p) == c && k == ColOf(S, p) + shift;
      assert p / S == c && k == SampleBit(S, p, y) by {
        CellColDivMod(S, p);
      }
    }
    if exists p :: lo <= p < hi && p / S == c && k == SampleBit(S, p, y) {
      var p :| lo <= p < hi && p / S == c && k == SampleBit(S, p, y);
      assert CellOf(S, p) == c && k == ColOf(S, p) + shift by {
        CellColDivMod(S, p);
      }
    }
  }

  /** A span leaves every cell outside `lo / S .. (hi - 1) / S` as it was. */
  lemma SpanEffectOutside(cfg: ShaderConfig, S: nat, buf: seq<SampleData>, lo: nat, hi: nat, shift: nat,
                          fdIn: FragmentData, step: FragmentData, u: UserData, c: nat)
    requires S > 0 && c < |buf|
    requires WellFormed(cfg, fdIn) && WellFormed(cfg, step)
    requires hi <= lo || c < lo / S || (hi - 1) / S < c
    ensures SpanEffect(cfg, S, buf, lo, hi, shift, fdIn, step, u)[c] == buf[c]
  {
    CellColDivMod(S, lo);
    if hi > 0 {
      CellColDivMod(S, hi - 1);
    }
    assert !Touched(S, c, lo, hi);
  }

  /**
   * A span only adds coverage to the cells lo / S .. hi / S: a cell with
   * coverage afterwards either had coverage before or lies in that range.
   */
  lemma SpanEffectRange(cfg: ShaderConfig, S: nat, buf: seq<SampleData>, lo: nat, hi: nat, shift: nat,
                        fdIn: FragmentData, step: FragmentData, u: UserData, c: nat)
    requires S > 0 && c < |buf|
    requires WellFormed(cfg, fdIn) && WellFormed(cfg, step)
    ensures SpanEffect(cfg, S, buf, lo, hi, shift, fdIn, step, u)[c].coverageMask != {} ==>
              buf[c].coverageMask != {} || lo / S <= c <= hi / S
  {
    if hi <= lo || c < lo / S || (hi - 1) / S < c {
      SpanEffectOutside(cfg, S, buf, lo, hi, shift, fdIn, step, u, c);
    } else {
      CellColDivMod(S, hi - 1);
      CellColDivMod(S, hi);
      CellMonotone(S, hi - 1, hi);
    }
  }

  /**
   * First writer wins: a cell that already had coverage keeps its fragment
   * data and userdata; an empty cell takes those of the span's first sample
   * p in it (p is lo itself or the first sample of the cell), that is
   * fdIn + (p - lo) * step, and the span's userdata.
   */
  lemma SpanEffectFirstWriter(cfg: ShaderConfig, S: nat, buf: seq<SampleData>, lo: nat, hi: nat, shift: nat,
                              fdIn: FragmentData, step: FragmentData, u: UserData, c: nat, p: nat)
    requires S > 0 && c < |buf|
    requires WellFormed(cfg, fdIn) && WellFormed(cfg, step)
    requires lo <= p < hi && p / S == c && (p == lo || p % S == 0)
    ensures var r := SpanEffect(cfg, S, buf, lo, hi, shift, fdIn, step, u)[c];
            if buf[c].coverageMask == {} then r.fd == AddScaled(cfg, fdIn, step, p - lo) && r.userdata == u
            else r.fd == buf[c].fd && r.userdata == buf[c].userdata
  {
    assert FirstSample(S, c, lo) == p && Touched(S, c, lo, hi) by {
      CellColDivMod(S, p);
      CellColRecompose(S, p);
      CellMonotone(S, lo, p);
      CellMonotone(S, p, hi - 1);
      if p > lo {
        assert CellStart(S, c) == p;
      } else {
        assert CellOf(S, lo) == c;
        CellColRecompose(S, lo);
      }
    }
  }

  /** The end of span `x, n` in the drawer as written: the first loop always finishes x's cell. */
  function SpanEnd(S: nat, x: nat, n: nat): (e: nat)
    requires S > 0
    ensures e >= x + n && e >= RoundUp(S, x)
    ensures e == x + n || (n < S && e == RoundUp(S, x) && e - x < S)
  {
    if x + n >= RoundUp(S, x) then x + n else RoundUp(S, x)
  }

  /**
   * With four samples per direction a one-sample span at sample column 1
   * also sets the bits of samples 2 and 3 of cell 0.
   */
  lemma FirstLoopOverrun(cfg: ShaderConfig, buf: seq<SampleData>, shift: nat,
                         fdIn: FragmentData, step: FragmentData, u: UserData)
    requires |buf| >= 1
    requires WellFormed(cfg, fdIn) && WellFormed(cfg, step)
    ensures SpanEnd(4, 1, 1) == 4
    ensures 3 + shift in SpanEffect(cfg, 4, buf, 1, SpanEnd(4, 1, 1), shift, fdIn, step, u)[0].coverageMask
    ensures 3 + shift !in SpanEffect(cfg, 4, buf, 1, 1 + 1, shift, fdIn, step, u)[0].coverageMask
            || 3 + shift in buf[0].coverageMask
  {
    assert ColOf(4, 1) == 1 && CellOf(4, 1) == 0;
    assert CellStart(4, 1) == 4;
    assert RoundUp(4, 1) == 4;
    assert CellOf(4, 3) == 0 && ColOf(4, 3) == 3;
    assert Touched(4, 0, 1, 4) && Touched(4, 0, 1, 2);
    assert 3 + shift in CellBits(4, 0, 1, 4, shift) by {
      CellBitsMembers(4, 0, 1, 4, shift, 3 + shift);
    }
    assert CellBits(4, 0, 1, 2, shift) == {1 + shift};
  }

  // ------------------------------------------------------------ emission

  /** One `single_fragment(x, y, fd, userdata, mask)` call of the multisampling drawer. */
  datatype SampleFragment = SampleFragment(x: int, y: int, fd: FragmentData, userdata: UserData, mask: Mask)

  /** The call that emits cell i of row y. */
  function EmitCell(buf: seq<SampleData>, i: nat, y: int): (f: SampleFragment)
    requires i < |buf|
    ensures f.x == i && f.y == y && f.mask == buf[i].coverageMask
  {
    SampleFragment(i, y, buf[i].fd, buf[i].userdata, buf[i].coverageMask)
  }

  /**
   * The calls that emitting cells lo .. hi of row y makes: one per cell with
   * a non-empty mask, in increasing cell order.
   */
  function EmitList(buf: seq<SampleData>, lo: int, hi: int, y: int): (r: seq<SampleFragment>)
    requires lo > hi || (0 <= lo && hi < |buf|)
    ensures lo > hi ==> r == []
    ensures forall k | 0 <= k < |r| :: lo <= r[k].x <= hi
    ensures forall k | 0 <= k < |r| :: r[k] == EmitCell(buf, r[k].x, y) && r[k].mask != {}
    ensures forall k, l | 0 <= k < l < |r| :: r[k].x < r[l].x
    decreases hi - lo
  {
    if lo > hi then []
    else EmitList(buf, lo, hi - 1, y) + (if buf[hi].coverageMask != {} then [EmitCell(buf, hi, y)] else [])
  }

  /** Every cell of lo .. hi with a non-empty mask is emitted. */
  lemma {:induction false} EmitListComplete(buf: seq<SampleData>, lo: int, hi: int, y: int, i: int)
    requires 0 <= lo <= i <= hi < |buf| && buf[i].coverageMask != {}
    ensures exists k :: 0 <= k < |EmitList(buf, lo, hi, y)| && EmitList(buf, lo, hi, y)[k].x == i
    decreases hi - lo
  {
    var r := EmitList(buf, lo, hi, y);
    var r0 := EmitList(buf, lo, hi - 1, y);
    assert r == r0 + (if buf[hi].coverageMask != {} then [EmitCell(buf, hi, y)] else []);
    if i == hi {
      assert r[|r0|].x == i;
    } else {
      EmitListComplete(buf, lo, hi - 1, y, i);
      var k :| 0 <= k < |r0| && r0[k].x == i;
      assert r[k] == r0[k];
    }
  }

  /** Cell c has a call among `calls`. */
  predicate Shaded(calls: seq<SampleFragment>, c: int) {
    exists k | 0 <= k < |calls| :: calls[k].x == c
  }

  /**
   * When every covered cell lies in lo .. hi, emitting lo .. hi shades
   * every covered cell; with the increasing order of `EmitList`, exactly once.
   */
  lemma EmitListShadesAll(buf: seq<SampleData>, lo: int, hi: int, y: int)
    requires lo > hi || (0 <= lo && hi < |buf|)
    requires forall c | 0 <= c < |buf| && buf[c].coverageMask != {} :: lo <= c <= hi
    ensures forall c | 0 <= c < |buf| && buf[c].coverageMask != {} :: Shaded(EmitList(buf, lo, hi, y), c)
  {
    forall c | 0 <= c < |buf| && buf[c].coverageMask != {}
      ensures Shaded(EmitList(buf, lo, hi, y), c)
    {
      EmitListComplete(buf, lo, hi, y, c);
    }
  }

  /** The buffer with the masks of cells lo .. hi cleared. */
  function Cleared(buf: seq<SampleData>, lo: int, hi: int): (r: seq<SampleData>)
    ensures |r| == |buf|
    ensures forall i | 0 <= i < |r| :: r[i] == if lo <= i <= hi then buf[i].(coverageMask := {}) else buf[i]
  {
    seq(|buf|, i requires 0 <= i < |buf| => if lo <= i <= hi then buf[i].(coverageMask := {}) else buf[i])
  }

  /** Emitting one more cell: clearing cell i extends the cleared range by one. */
  lemma ClearedStep(buf0: seq<SampleData>, lo: int, i: nat, buf: seq<SampleData>)
    requires lo <= i < |buf0| && buf == Cleared(buf0, lo, i - 1)
    ensures buf[i] == buf0[i]
    ensures buf[i := buf[i].(coverageMask := {})] == Cleared(buf0, lo, i)
    ensures buf0[i].coverageMask == {} ==> buf == Cleared(buf0, lo, i)
  {
    var r := Cleared(buf0, lo, i);
    assert forall j | 0 <= j < |buf| :: buf[i := buf[i].(coverageMask := {})][j] == r[j];
    if buf0[i].coverageMask == {} {
      assert forall j | 0 <= j < |buf| :: buf[j] == r[j];
    }
  }

  /** Emitting one more cell: the call list grows by at most that cell's call. */
  lemma EmitStep(buf0: seq<SampleData>, lo: int, i: nat, y: int)
    requires 0 <= lo <= i < |buf0|
    ensures EmitList(buf0, lo, i, y)
            == EmitList(buf0, lo, i - 1, y) + (if buf0[i].coverageMask != {} then [EmitCell(buf0, i, y)] else [])
  {}
}

