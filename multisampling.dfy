/**
 * SpanDrawerMultisampling: the span drawer that accumulates S x S sub-samples
 * per pixel in a row buffer and emits each covered pixel once, with its
 * coverage mask.
 *
 * The drawer's state lives in function-local statics shared by every call;
 * here they are the fields of one `MultisampleDrawer` object. The shader's
 * `single_fragment` calls are recorded, in order, in the field `emitted`.
 * The three loops of `affine_span` are the methods `CoverFirstCell`,
 * `CoverBlocks` and `CoverTail`, each proved against `SpanEffect`.
 */
module Multisampling {
  import opened Fragment
  import opened Coverage

  function Min(a: int, b: int): int { if a < b then a else b }

  function Max(a: int, b: int): int { if a < b then b else a }

  /**
   * The first loop of `affine_span` as written: `while (x % S != 0)`, with
   * no test of n. It runs to the end of x's cell whatever n is, so the
   * buffer ends up covered up to `RoundUp(S, x)`.
   */
  method CoverFirstCell(cfg: ShaderConfig, S: nat, buf0: seq<SampleData>, x: nat, n0: int, shift: nat,
                        fd: FragmentData, step: FragmentData, u: UserData)
    returns (buf: seq<SampleData>, p: nat, n: int, jumpstep: nat, fdv: FragmentData)
    requires S > 0 && shift + S <= 32 && RoundUp(S, x) <= S * |buf0|
    requires WellFormed(cfg, fd) && WellFormed(cfg, step)
    ensures p == RoundUp(S, x) && n == n0 - (p - x) && jumpstep <= p - x
    ensures WellFormed(cfg, fdv) && fdv == AddScaled(cfg, fd, step, p - x - jumpstep)
    ensures buf == SpanEffect(cfg, S, buf0, x, p, shift, fd, step, u)
  {
    buf, p, n, jumpstep, fdv := buf0, x, n0, 0, fd;
    ghost var k := 0;
    AddScaledZero(cfg, fd, step);
    SpanEffectEmpty(cfg, S, buf0, x, shift, fd, step, u);
    if x < S * |buf0| {
      CellBelow(S, x, |buf0|);
    }
    while p % S != 0
      invariant x <= p <= RoundUp(S, x) && |buf| == |buf0|
      invariant n == n0 - (p - x) && jumpstep <= p - x
      invariant k == p - x - jumpstep && WellFormed(cfg, fdv) && fdv == AddScaled(cfg, fd, step, k)
      invariant p > x ==> CellOf(S, x) < |buf| && buf[CellOf(S, x)].coverageMask != {}
      invariant buf == SpanEffect(cfg, S, buf0, x, p, shift, fd, step, u)
      decreases RoundUp(S, x) - p
    {
      assert p < RoundUp(S, x) by {
        CellColDivMod(S, p);
      }
      assert CellOf(S, p) == CellOf(S, x) && CellOf(S, p) < |buf0| by {
        CellBelow(S, p, |buf0|);
      }
      var next := p + 1;
      buf, jumpstep, fdv, k := HeadPass(cfg, S, buf0, x, shift, fd, step, u, buf, p, next, jumpstep, fdv, k);
      p := next;
      n := n - 1;
    }
    CellColDivMod(S, p);
  }

  /**
   * One pass of the sample loops covers one more sample, provided the data
   * the drawer carries is right whenever it is stored, that is when the
   * cell is still empty.
   */
  lemma SampleStep(cfg: ShaderConfig, S: nat, buf0: seq<SampleData>, x: nat, p: nat, p': nat, shift: nat,
                   fd: FragmentData, step: FragmentData, u: UserData, buf: seq<SampleData>, fdv: FragmentData,
                   bit: Mask, cell: SampleData)
    requires S > 0 && x <= p && p' == p + 1 && CellOf(S, p) < |buf0|
    requires WellFormed(cfg, fd) && WellFormed(cfg, step)
    requires buf == SpanEffect(cfg, S, buf0, x, p, shift, fd, step, u)
    requires buf[CellOf(S, p)].coverageMask == {} ==> fdv == AddScaled(cfg, fd, step, p - x)
    requires bit == {ColOf(S, p) + shift} && cell == Visit(buf[CellOf(S, p)], bit, fdv, u)
    ensures buf[CellOf(S, p) := cell] == SpanEffect(cfg, S, buf0, x, p', shift, fd, step, u)
  {
    var c := CellOf(S, p);
    SpanEffectStep(cfg, S, buf0, x, p, shift, fd, step, u);
    assert Visit(buf[c], bit, fdv, u) == Visit(buf[c], bit, AddScaled(cfg, fd, step, p - x), u);
  }

  /** Sample p lies in cell `p / S` and sets bit `(0x01 << (p % S)) << shift` of it. */
  lemma SampleAt(S: nat, p: nat, shift: nat)
    requires S > 0 && shift + S <= 32
    ensures p / S == CellOf(S, p) && p % S == ColOf(S, p)
    ensures ShiftLeft(Bit(p % S), shift) == {ColOf(S, p) + shift}
  {
    CellColDivMod(S, p);
  }

  /**
   * The second loop of `affine_span`: `while (n >= S)`, one whole cell per
   * pass, ORing in `span_mask << row_shift`. A cell that already has
   * coverage only adds S to `jumpstep`; the next empty cell first catches
   * the fragment data up by `jumpstep` steps.
   */
  method CoverBlocks(cfg: ShaderConfig, S: nat, buf0: seq<SampleData>, x: nat, shift: nat,
                     fd: FragmentData, step: FragmentData, u: UserData, spanMask: Mask,
                     buf1: seq<SampleData>, p1: nat, n1: int, jump1: nat, fd1: FragmentData)
    returns (buf: seq<SampleData>, p: nat, n: int, jumpstep: nat, fdv: FragmentData)
    requires S > 0 && shift + S <= 32 && spanMask == LowBits(S)
    requires WellFormed(cfg, fd) && WellFormed(cfg, step)
    requires x <= p1 && (ColOf(S, p1) == 0 || n1 < S) && p1 + n1 <= S * |buf0|
    requires jump1 <= p1 - x && WellFormed(cfg, fd1) && fd1 == AddScaled(cfg, fd, step, p1 - x - jump1)
    requires buf1 == SpanEffect(cfg, S, buf0, x, p1, shift, fd, step, u)
    ensures p + n == p1 + n1 && (if n1 < S then p == p1 else 0 <= n < S)
    ensures ColOf(S, p) == 0 || p == p1
    ensures jumpstep <= p - x && WellFormed(cfg, fdv) && fdv == AddScaled(cfg, fd, step, p - x - jumpstep)
    ensures buf == SpanEffect(cfg, S, buf0, x, p, shift, fd, step, u)
  {
    buf, p, n, jumpstep, fdv := buf1, p1, n1, jump1, fd1;
    ghost var k := p1 - x - jump1;
    var rowMask := ShiftLeft(spanMask, shift);
    assert rowMask == RowMask(shift, S) by {
      SpanMaskShifted(S, shift);
    }
    while n >= S
      invariant p1 <= p && p + n == p1 + n1 && (n1 < S ==> p == p1) && (n1 >= S ==> n >= 0)
      invariant ColOf(S, p) == 0 || (p == p1 && n < S)
      invariant |buf| == |buf0|
      invariant jumpstep <= p - x && k == p - x - jumpstep
      invariant WellFormed(cfg, fdv) && fdv == AddScaled(cfg, fd, step, k)
      invariant buf == SpanEffect(cfg, S, buf0, x, p, shift, fd, step, u)
      decreases n
    {
      var next := p + S;
      buf, jumpstep, fdv, k := BlockPass(cfg, S, buf0, x, shift, fd, step, u, rowMask, buf, p, next, jumpstep, fdv, k);
      p := next;
      n := n - S;
      assert ColOf(S, p) == 0 by {
        CellColRecompose(S, p - S);
        CellColWithin(S, CellOf(S, p - S) + 1, 0);
      }
    }
  }

  /**
   * The catch-up before a store in the block and tail loops: the samples
   * skipped since the last store, `jumpstep` of them, are stepped over at
   * once, and the count restarts.
   */
  method CatchUp(cfg: ShaderConfig, fd: FragmentData, step: FragmentData, fdv: FragmentData, jumpstep: nat, ghost k: int)
    returns (fdv': FragmentData, jumpstep': nat)
    requires WellFormed(cfg, fd) && WellFormed(cfg, step) && WellFormed(cfg, fdv) && fdv == AddScaled(cfg, fd, step, k)
    ensures jumpstep' == 0 && WellFormed(cfg, fdv') && fdv' == AddScaled(cfg, fd, step, k + jumpstep)
  {
    fdv', jumpstep' := fdv, jumpstep;
    if jumpstep' != 0 {
      AddScaledTwice(cfg, fd, step, k, jumpstep');
      fdv' := AddScaled(cfg, fdv', step, jumpstep');
      jumpstep' := 0;
    }
  }

  /** One pass of the block loop: cell `p / S` and its S samples. */
  method BlockPass(cfg: ShaderConfig, S: nat, buf0: seq<SampleData>, x: nat, shift: nat,
                   fd: FragmentData, step: FragmentData, u: UserData, rowMask: Mask,
                   buf: seq<SampleData>, p: nat, next: nat, jumpstep: nat, fdv: FragmentData, ghost k: int)
    returns (buf': seq<SampleData>, jumpstep': nat, fdv': FragmentData, ghost k': int)
    requires S > 0 && rowMask == RowMask(shift, S)
    requires WellFormed(cfg, fd) && WellFormed(cfg, step)
    requires x <= p && next == p + S && ColOf(S, p) == 0 && next <= S * |buf0|
    requires jumpstep <= p - x && k == p - x - jumpstep && WellFormed(cfg, fdv) && fdv == AddScaled(cfg, fd, step, k)
    requires buf == SpanEffect(cfg, S, buf0, x, p, shift, fd, step, u)
    ensures jumpstep' <= next - x && k' == next - x - jumpstep'
    ensures WellFormed(cfg, fdv') && fdv' == AddScaled(cfg, fd, step, k')
    ensures buf' == SpanEffect(cfg, S, buf0, x, next, shift, fd, step, u)
  {
    jumpstep', fdv', k' := jumpstep, fdv, k;
    var c := p / S;
    assert c == CellOf(S, p) && c < |buf| by {
      CellColDivMod(S, p);
      CellBelow(S, p, |buf0|);
    }
    ghost var stored := fdv;
    var cell := buf[c];
    if cell.coverageMask == {} {
      fdv', jumpstep' := CatchUp(cfg, fd, step, fdv', jumpstep', k);
      stored := fdv';
      cell := cell.(fd := fdv', userdata := u);
      assert AddScaled(cfg, fdv', step, S) == AddScaled(cfg, fd, step, next - x) by {
        AddScaledTwice(cfg, fd, step, p - x, S);
      }
      fdv' := AddScaled(cfg, fdv', step, S);
      k' := next - x;
    } else {
      jumpstep' := jumpstep' + S;
    }
    cell := cell.(coverageMask := cell.coverageMask + rowMask);
    assert cell == Visit(buf[c], RowMask(shift, S), stored, u);
    BlockStepAt(cfg, S, buf0, x, p, next, shift, fd, step, u, buf, stored, cell);
    buf' := buf[c := cell];
  }

  /**
   * The third loop of `affine_span`: `while (n > 0)`, sample by sample in
   * the one cell that is left. Its `else` branch does not count `jumpstep`
   * on; the fragment data is not stored again in this span, so that does
   * not matter.
   */
  method CoverTail(cfg: ShaderConfig, S: nat, buf0: seq<SampleData>, x: nat, shift: nat,
                   fd: FragmentData, step: FragmentData, u: UserData,
                   buf1: seq<SampleData>, p1: nat, n1: int, jump1: nat, fd1: FragmentData)
    returns (buf: seq<SampleData>, p: nat)
    requires S > 0 && shift + S <= 32
    requires WellFormed(cfg, fd) && WellFormed(cfg, step)
    requires x <= p1 && n1 < S && (n1 > 0 ==> ColOf(S, p1) == 0) && p1 + n1 <= S * |buf0|
    requires jump1 <= p1 - x && WellFormed(cfg, fd1) && fd1 == AddScaled(cfg, fd, step, p1 - x - jump1)
    requires buf1 == SpanEffect(cfg, S, buf0, x, p1, shift, fd, step, u)
    ensures p == if n1 > 0 then p1 + n1 else p1
    ensures buf == SpanEffect(cfg, S, buf0, x, p, shift, fd, step, u)
  {
    buf, p := buf1, p1;
    var n, jumpstep: nat, fdv := n1, jump1, fd1;
    if n1 > 0 {
      CellBelow(S, p1, |buf0|);
    }
    while n > 0
      invariant p1 <= p && (n1 > 0 ==> 0 <= n && p + n == p1 + n1) && (n1 <= 0 ==> p == p1)
      invariant |buf| == |buf0|
      invariant WellFormed(cfg, fdv)
      invariant p == p1 ==> jumpstep <= p - x && fdv == AddScaled(cfg, fd, step, p - x - jumpstep)
      invariant p > p1 ==> CellOf(S, p1) < |buf| && buf[CellOf(S, p1)].coverageMask != {}
      invariant buf == SpanEffect(cfg, S, buf0, x, p, shift, fd, step, u)
      decreases n
    {
      assert CellOf(S, p) == CellOf(S, p1) && CellOf(S, p) < |buf0| by {
        TailCell(S, p1, p);
        CellBelow(S, p, |buf0|);
      }
      var next := p + 1;
      buf, jumpstep, fdv := TailPass(cfg, S, buf0, x, shift, fd, step, u, buf, p, next, jumpstep, fdv);
      p := next;
      n := n - 1;
    }
  }

  /**
   * One pass of the first loop, at sample p: an empty cell takes the
   * running fragment data and userdata and the data steps on; otherwise
   * `jumpstep` counts the skipped sample. Then the sample's bit is ORed in.
   */
  method HeadPass(cfg: ShaderConfig, S: nat, buf0: seq<SampleData>, x: nat, shift: nat,
                  fd: FragmentData, step: FragmentData, u: UserData,
                  buf: seq<SampleData>, p: nat, next: nat, jumpstep: nat, fdv: FragmentData, ghost k: nat)
    returns (buf': seq<SampleData>, jumpstep': nat, fdv': FragmentData, ghost k': nat)
    requires S > 0 && shift + S <= 32 && x <= p && next == p + 1 && CellOf(S, p) < |buf0| && |buf| == |buf0|
    requires WellFormed(cfg, fd) && WellFormed(cfg, step)
    requires jumpstep <= p - x && k == p - x - jumpstep && WellFormed(cfg, fdv) && fdv == AddScaled(cfg, fd, step, k)
    requires buf[CellOf(S, p)].coverageMask == {} ==> jumpstep == 0
    requires buf == SpanEffect(cfg, S, buf0, x, p, shift, fd, step, u)
    ensures |buf'| == |buf0| && buf'[CellOf(S, p)].coverageMask != {}
    ensures jumpstep' <= next - x && k' == next - x - jumpstep'
    ensures WellFormed(cfg, fdv') && fdv' == AddScaled(cfg, fd, step, k')
    ensures buf' == SpanEffect(cfg, S, buf0, x, next, shift, fd, step, u)
  {
    SampleAt(S, p, shift);
    var c := p / S;
    var bit := ShiftLeft(Bit(p % S), shift);
    jumpstep', fdv', k' := jumpstep, fdv, k;
    var cell := buf[c];
    if cell.coverageMask == {} {
      cell := cell.(fd := fdv, userdata := u);
      assert AddScaled(cfg, fdv, step, 1) == AddScaled(cfg, fd, step, k + 1) by {
        AddScaledTwice(cfg, fd, step, k, 1);
      }
      fdv' := AddScaled(cfg, fdv, step, 1);
      k' := k + 1;
    } else {
      jumpstep' := jumpstep + 1;
    }
    cell := cell.(coverageMask := cell.coverageMask + bit);
    assert cell == Visit(buf[c], bit, fdv, u);
    SampleStep(cfg, S, buf0, x, p, next, shift, fd, step, u, buf, fdv, bit, cell);
    buf' := buf[c := cell];
  }

  /**
   * The cell-level work of one pass of the tail loop: a still empty cell
   * first catches the fragment data up, then stores it and steps once;
   * every cell ORs in its sample bit.
   */
  method TailSample(cfg: ShaderConfig, fd: FragmentData, step: FragmentData, u: UserData,
                    cell0: SampleData, bit: Mask, jumpstep: nat, fdv: FragmentData, ghost k: int, ghost t: int)
    returns (cell: SampleData, jumpstep': nat, fdv': FragmentData, ghost stored: FragmentData)
    requires WellFormed(cfg, fd) && WellFormed(cfg, step) && WellFormed(cfg, fdv) && t == k + jumpstep
    requires cell0.coverageMask == {} ==> fdv == AddScaled(cfg, fd, step, k)
    ensures WellFormed(cfg, fdv') && cell == Visit(cell0, bit, stored, u)
    ensures cell0.coverageMask == {} ==> stored == AddScaled(cfg, fd, step, t)
  {
    jumpstep', fdv', stored := jumpstep, fdv, fdv;
    cell := cell0;
    if cell.coverageMask == {} {
      fdv', jumpstep' := CatchUp(cfg, fd, step, fdv', jumpstep', k);
      stored := fdv';
      cell := cell.(fd := fdv', userdata := u);
      fdv' := AddScaled(cfg, fdv', step, 1);
    }
    cell := cell.(coverageMask := cell.coverageMask + bit);
  }

  /**
   * One pass of the third loop, at sample p: an empty cell first catches
   * the running data up by `jumpstep` steps, takes it and the userdata,
   * and the data steps on. Then the sample's bit is ORed in.
   */
  method TailPass(cfg: ShaderConfig, S: nat, buf0: seq<SampleData>, x: nat, shift: nat,
                  fd: FragmentData, step: FragmentData, u: UserData,
                  buf: seq<SampleData>, p: nat, next: nat, jumpstep: nat, fdv: FragmentData)
    returns (buf': seq<SampleData>, jumpstep': nat, fdv': FragmentData)
    requires S > 0 && shift + S <= 32 && x <= p && next == p + 1 && CellOf(S, p) < |buf0| && |buf| == |buf0|
    requires WellFormed(cfg, fd) && WellFormed(cfg, step) && WellFormed(cfg, fdv)
    requires buf[CellOf(S, p)].coverageMask == {} ==>
               jumpstep <= p - x && fdv == AddScaled(cfg, fd, step, p - x - jumpstep)
    requires buf == SpanEffect(cfg, S, buf0, x, p, shift, fd, step, u)
    ensures |buf'| == |buf0| && buf'[CellOf(S, p)].coverageMask != {} && WellFormed(cfg, fdv')
    ensures buf' == SpanEffect(cfg, S, buf0, x, next, shift, fd, step, u)
  {
    SampleAt(S, p, shift);
    var c := p / S;
    var bit := ShiftLeft(Bit(p % S), shift);
    var cell; ghost var stored;
    cell, jumpstep', fdv', stored := TailSample(cfg, fd, step, u, buf[CellOf(S, p)], bit, jumpstep, fdv, p - x - jumpstep, p - x);
    SampleStep(cfg, S, buf0, x, p, next, shift, fd, step, u, buf, stored, bit, cell);
    buf' := buf[c := cell];
  }

  /** The samples of the last, partial cell all lie in the cell that starts at p1. */
  lemma TailCell(S: nat, p1: nat, p: nat)
    requires S > 0 && ColOf(S, p1) == 0 && p1 <= p < p1 + S
    ensures CellOf(S, p) == CellOf(S, p1) && ColOf(S, p) == p - p1
    ensures p / S == CellOf(S, p) && p % S == ColOf(S, p)
  {
    CellColRecompose(S, p1);
    CellColWithin(S, CellOf(S, p1), p - p1);
    CellColDivMod(S, p);
  }

  /** One pass of the block loop covers one more whole cell. */
  lemma BlockStepAt(cfg: ShaderConfig, S: nat, buf0: seq<SampleData>, x: nat, p: nat, next: nat, shift: nat,
                    fd: FragmentData, step: FragmentData, u: UserData, buf: seq<SampleData>, fdv: FragmentData,
                    cell: SampleData)
    requires S > 0 && x <= p && next == p + S && ColOf(S, p) == 0 && CellOf(S, p) < |buf0|
    requires WellFormed(cfg, fd) && WellFormed(cfg, step)
    requires buf == SpanEffect(cfg, S, buf0, x, p, shift, fd, step, u)
    requires buf[CellOf(S, p)].coverageMask == {} ==> fdv == AddScaled(cfg, fd, step, p - x)
    requires cell == Visit(buf[CellOf(S, p)], RowMask(shift, S), fdv, u)
    ensures buf[CellOf(S, p) := cell] == SpanEffect(cfg, S, buf0, x, next, shift, fd, step, u)
  {
    var c := CellOf(S, p);
    BlockStep(cfg, S, buf0, x, p, shift, fd, step, u);
    assert Visit(buf[c], RowMask(shift, S), fdv, u)
           == Visit(buf[c], RowMask(shift, S), AddScaled(cfg, fd, step, p - x), u);
  }

  /**
   * The bounded first loop, `while (n > 0 && x % S != 0)`: the intended
   * version of `CoverFirstCell`, which stops after n samples.
   */
  method CoverFirstCellBounded(cfg: ShaderConfig, S: nat, buf0: seq<SampleData>, x: nat, n0: nat, shift: nat,
                               fd: FragmentData, step: FragmentData, u: UserData)
    returns (buf: seq<SampleData>, p: nat, n: int, jumpstep: nat, fdv: FragmentData)
    requires S > 0 && shift + S <= 32 && x + n0 <= S * |buf0|
    requires WellFormed(cfg, fd) && WellFormed(cfg, step)
    ensures p == Min(RoundUp(S, x), x + n0) && n == n0 - (p - x) && jumpstep <= p - x
    ensures ColOf(S, p) == 0 || n == 0
    ensures WellFormed(cfg, fdv) && fdv == AddScaled(cfg, fd, step, p - x - jumpstep)
    ensures buf == SpanEffect(cfg, S, buf0, x, p, shift, fd, step, u)
  {
    buf, p, n, jumpstep, fdv := buf0, x, n0, 0, fd;
    ghost var k := 0;
    AddScaledZero(cfg, fd, step);
    SpanEffectEmpty(cfg, S, buf0, x, shift, fd, step, u);
    if x < S * |buf0| {
      CellBelow(S, x, |buf0|);
    }
    while n > 0 && p % S != 0
      invariant x <= p <= RoundUp(S, x) && p <= x + n0 && |buf| == |buf0|
      invariant n == n0 - (p - x) && jumpstep <= p - x
      invariant k == p - x - jumpstep && WellFormed(cfg, fdv) && fdv == AddScaled(cfg, fd, step, k)
      invariant p > x ==> CellOf(S, x) < |buf| && buf[CellOf(S, x)].coverageMask != {}
      invariant buf == SpanEffect(cfg, S, buf0, x, p, shift, fd, step, u)
      decreases n
    {
      assert p < RoundUp(S, x) by {
        CellColDivMod(S, p);
      }
      assert CellOf(S, p) == CellOf(S, x) && CellOf(S, p) < |buf0| by {
        CellBelow(S, p, |buf0|);
      }
      var next := p + 1;
      buf, jumpstep, fdv, k := HeadPass(cfg, S, buf0, x, shift, fd, step, u, buf, p, next, jumpstep, fdv, k);
      p := next;
      n := n - 1;
    }
    CellColDivMod(S, p);
  }

  /**
   * The loop of `emit_span_data`: for i = lo .. hi, a cell with a non-empty
   * mask is handed to the shader and its mask cleared.
   */
  method EmitCells(buf0: seq<SampleData>, lo: int, hi: int, y: int) returns (buf: seq<SampleData>, calls: seq<SampleFragment>)
    requires lo > hi || (0 <= lo && hi < |buf0|)
    ensures buf == Cleared(buf0, lo, hi) && calls == EmitList(buf0, lo, hi, y)
  {
    buf, calls := buf0, [];
    if lo > hi {
      assert forall j | 0 <= j < |buf| :: buf[j] == Cleared(buf0, lo, hi)[j];
      return;
    }
    var i := lo;
    assert forall j | 0 <= j < |buf| :: buf[j] == Cleared(buf0, lo, i - 1)[j];
    while i <= hi
      invariant lo <= i <= hi + 1
      invariant buf == Cleared(buf0, lo, i - 1)
      invariant calls == EmitList(buf0, lo, i - 1, y)
    {
      ghost var before := buf;
      assert buf[i] == buf0[i] by {
        ClearedStep(buf0, lo, i, buf);
      }
      if buf[i].coverageMask != {} {
        calls := calls + [SampleFragment(i, y, buf[i].fd, buf[i].userdata, buf[i].coverageMask)];
        buf := buf[i := buf[i].(coverageMask := {})];
      }
      assert buf == Cleared(buf0, lo, i) by {
        ClearedStep(buf0, lo, i, before);
      }
      assert calls == EmitList(buf0, lo, i, y) by {
        EmitStep(buf0, lo, i, y);
      }
      i := i + 1;
    }
  }

  /**
   * The three loops of `affine_span` on the cell buffer, as written: the
   * first loop runs until x is a multiple of S however small n is, so the
   * samples covered are x .. SpanEnd(S, x, n) - 1.
   */
  method CoverSpan(cfg: ShaderConfig, S: nat, buf0: seq<SampleData>, x: nat, y: nat,
                   fd: FragmentData, step: FragmentData, n: nat, u: UserData)
    returns (buf: seq<SampleData>, p: nat)
    requires ValidSampleCount(S) && SpanEnd(S, x, n) <= S * |buf0|
    requires WellFormed(cfg, fd) && WellFormed(cfg, step)
    ensures p == SpanEnd(S, x, n)
    ensures buf == SpanEffect(cfg, S, buf0, x, p, RowShift(S, y), fd, step, u)
  {
    var spanMask := SpanMask(S);
    var rowShift := (y % S) * S;
    assert rowShift == RowShift(S, y);
    var n1, jumpstep, fdv;
    buf, p, n1, jumpstep, fdv := CoverFirstCell(cfg, S, buf0, x, n, rowShift, fd, step, u);
    buf, p, n1, jumpstep, fdv := CoverBlocks(cfg, S, buf0, x, rowShift, fd, step, u, spanMask, buf, p, n1, jumpstep, fdv);
    buf, p := CoverTail(cfg, S, buf0, x, rowShift, fd, step, u, buf, p, n1, jumpstep, fdv);
  }

  /** The three loops of `affine_span` with the first loop bounded by n: exactly the samples x .. x + n - 1. */
  method CoverSpanIntended(cfg: ShaderConfig, S: nat, buf0: seq<SampleData>, x: nat, y: nat,
                           fd: FragmentData, step: FragmentData, n: nat, u: UserData)
    returns (buf: seq<SampleData>, p: nat)
    requires ValidSampleCount(S) && x + n <= S * |buf0|
    requires WellFormed(cfg, fd) && WellFormed(cfg, step)
    ensures p == x + n
    ensures buf == SpanEffect(cfg, S, buf0, x, p, RowShift(S, y), fd, step, u)
  {
    var spanMask := SpanMask(S);
    var rowShift := (y % S) * S;
    assert rowShift == RowShift(S, y);
    var n1, jumpstep, fdv;
    buf, p, n1, jumpstep, fdv := CoverFirstCellBounded(cfg, S, buf0, x, n, rowShift, fd, step, u);
    buf, p, n1, jumpstep, fdv := CoverBlocks(cfg, S, buf0, x, rowShift, fd, step, u, spanMask, buf, p, n1, jumpstep, fdv);
    buf, p := CoverTail(cfg, S, buf0, x, rowShift, fd, step, u, buf, p, n1, jumpstep, fdv);
  }

  /** `detect_begin_end_span(y)` ends the pending pixel row: y is a new sample row that starts a pixel row. */
  predicate RowEnds(S: nat, lastSpanY: int, spanDataY: int, y: int)
    requires S > 0
  {
    lastSpanY != y && spanDataY != -1 && CRem(y, S) == 0
  }

  /** The size `initialize(m)` asks for: `ceil28_4(m)`. */
  function RequestedSize(ops: Arith, m: int): int {
    ops.ceil28_4(m)
  }

  /**
   * The statics of one SpanDrawerMultisampling<FragmentShader, S>
   * instantiation, and the fragments it has handed to the shader.
   */
  class MultisampleDrawer {
    const cfg: ShaderConfig
    const ops: Arith
    const S: nat
    var spanBuffer: seq<SampleData>
    var spanDataY: int
    var spanMinX: int
    var spanMaxX: int
    var lastSpanY: int
    var emitted: seq<SampleFragment>

    /**
     * The cells that `emit_span_data` visits exist, every cell has the
     * shader's shape, and all coverage belongs to the pending row.
     */
    ghost predicate Valid()
      reads this
    {
      ValidSampleCount(S) && |spanBuffer| >= 1 && 0 <= spanMinX && 0 <= spanMaxX < |spanBuffer|
      && CellsWellFormed(cfg, spanBuffer)
      && CoverageTracked()
    }

    /**
     * A cell with coverage lies in the pending row: a row is pending and
     * the cell is in `span_min_x .. span_max_x`, the range emission visits.
     */
    ghost predicate CoverageTracked()
      reads this
    {
      forall c | 0 <= c < |spanBuffer| && spanBuffer[c].coverageMask != {} ::
        spanDataY != -1 && spanMinX <= c <= spanMaxX
    }

    /** Every coverage mask is empty. */
    ghost predicate NoCoverage()
      reads this
    {
      forall c | 0 <= c < |spanBuffer| :: spanBuffer[c].coverageMask == {}
    }

    /** Every cell that had coverage before has been handed to the shader since. */
    twostate predicate CoveredCellsShaded()
      reads this
    {
      |emitted| >= |old(emitted)|
      && forall c | 0 <= c < |old(spanBuffer)| && old(spanBuffer)[c].coverageMask != {} ::
           Shaded(emitted[|old(emitted)|..], c)
    }

    /** The statics' initial values: 2048 value-initialised cells, `span_data_y == -1`, `span_min_x == INT_MAX`. */
    constructor (cfg: ShaderConfig, ops: Arith, S: nat)
      requires ValidSampleCount(S)
      ensures Valid()
      ensures this.cfg == cfg && this.ops == ops && this.S == S
      ensures |spanBuffer| == 2048 && forall i | 0 <= i < 2048 :: spanBuffer[i] == EmptySample(cfg)
      ensures spanDataY == -1 && spanMinX == INT_MAX && spanMaxX == 0 && lastSpanY == 0 && emitted == []
    {
      this.cfg := cfg;
      this.ops := ops;
      this.S := S;
      spanBuffer := seq(2048, _ => EmptySample(cfg));
      spanDataY := -1;
      spanMinX := INT_MAX;
      spanMaxX := 0;
      lastSpanY := 0;
      emitted := [];
    }

    /**
     * The state after `initialize(m)`: the buffer grown to at least
     * `ceil28_4(m)` cells (new cells value-initialised), every mask
     * cleared, the rest of each cell kept, and the tracking state reset.
     */
    twostate predicate InitializedFor(m: int)
      reads this
    {
      |spanBuffer| == Max(|old(spanBuffer)|, RequestedSize(ops, m))
      && (forall i | 0 <= i < |spanBuffer| ::
            spanBuffer[i] == if i < |old(spanBuffer)| then old(spanBuffer)[i].(coverageMask := {}) else EmptySample(cfg))
      && spanDataY == -1 && spanMinX == INT_MAX && spanMaxX == 0 && lastSpanY == -1
      && emitted == old(emitted)
    }

    /**
     * The state after `emit_span_data` with a pending row: one fragment per
     * non-empty cell of `span_min_x .. span_max_x`, those masks cleared.
     */
    twostate predicate RowEmitted()
      requires old(Valid())
      reads this
    {
      spanBuffer == Cleared(old(spanBuffer), old(spanMinX), old(spanMaxX))
      && emitted == old(emitted) + EmitList(old(spanBuffer), old(spanMinX), old(spanMaxX), old(spanDataY))
    }

    method Initialize(maxXCoord: int)
      requires Valid() && RequestedSize(ops, maxXCoord) >= 0
      modifies this
      ensures Valid() && InitializedFor(maxXCoord)
    {
      var maxx := RequestedSize(ops, maxXCoord);
      if |spanBuffer| < maxx {
        spanBuffer := spanBuffer + seq(maxx - |spanBuffer|, _ => EmptySample(cfg));
      }
      ghost var grown := spanBuffer;
      assert forall i | 0 <= i < |grown| ::
               grown[i] == if i < |old(spanBuffer)| then old(spanBuffer)[i] else EmptySample(cfg);
      var i := 0;
      while i < |spanBuffer|
        invariant 0 <= i <= |spanBuffer| == |grown|
        invariant forall j | 0 <= j < |grown| :: spanBuffer[j] == if j < i then grown[j].(coverageMask := {}) else grown[j]
        invariant emitted == old(emitted)
      {
        spanBuffer := spanBuffer[i := spanBuffer[i].(coverageMask := {})];
        i := i + 1;
      }
      spanDataY := -1;
      spanMinX := INT_MAX;
      spanMaxX := 0;
      lastSpanY := -1;
    }

    method EmitSpanData()
      requires Valid()
      modifies this
      ensures Valid() && NoCoverage() && CoveredCellsShaded()
      ensures spanDataY == old(spanDataY) && spanMinX == old(spanMinX) && spanMaxX == old(spanMaxX)
      ensures lastSpanY == old(lastSpanY)
      ensures old(spanDataY) == -1 ==> spanBuffer == old(spanBuffer) && emitted == old(emitted)
      ensures old(spanDataY) != -1 ==> RowEmitted()
    {
      if spanDataY != -1 {
        var buf, calls := EmitCells(spanBuffer, spanMinX, spanMaxX, spanDataY);
        EmitListShadesAll(spanBuffer, spanMinX, spanMaxX, spanDataY);
        spanBuffer, emitted := buf, emitted + calls;
        assert emitted[|old(emitted)|..] == calls;
      }
    }

    /** The tracking state after `end_span` has emitted a row. */
    ghost predicate TrackingReset()
      reads this
    {
      spanDataY == -1 && spanMinX == INT_MAX && spanMaxX == 0 && lastSpanY == -1
    }

    method EndSpan(y: int)
      requires Valid()
      modifies this
      ensures Valid()
      ensures CRem(y, S) == 0 && old(spanDataY) != -1 ==>
                RowEmitted() && TrackingReset() && NoCoverage() && CoveredCellsShaded()
      ensures !(CRem(y, S) == 0 && old(spanDataY) != -1) ==> unchanged(this)
    {
      if CRem(y, S) == 0 && spanDataY != -1 {
        EmitSpanData();
        spanDataY := -1;
        spanMinX := INT_MAX;
        spanMaxX := 0;
        lastSpanY := -1;
      }
    }

    /** `begin_span` does nothing, so a new sample row only records y after maybe ending the pending row. */
    method DetectBeginEndSpan(y: int)
      requires Valid()
      modifies this
      ensures Valid() && lastSpanY == y
      ensures RowEnds(S, old(lastSpanY), old(spanDataY), y) ==>
                RowEmitted() && spanDataY == -1 && spanMinX == INT_MAX && spanMaxX == 0
                && NoCoverage() && CoveredCellsShaded()
      ensures !RowEnds(S, old(lastSpanY), old(spanDataY), y) ==>
                spanBuffer == old(spanBuffer) && emitted == old(emitted)
                && spanDataY == old(spanDataY) && spanMinX == old(spanMinX) && spanMaxX == old(spanMaxX)
    {
      if lastSpanY != y {
        if spanDataY != -1 {
          EndSpan(y);
        }
        lastSpanY := y;
      }
    }

    method BeginLine(v1: Vertex, v2: Vertex)
      requires Valid() && RequestedSize(ops, CDiv(Max(v1.x, v2.x), S) + 1) >= 0
      modifies this
      ensures Valid() && InitializedFor(CDiv(Max(v1.x, v2.x), S) + 1)
    {
      var maxXCoord := Max(v1.x, v2.x);
      Initialize(CDiv(maxXCoord, S) + 1);
    }

    method EndLine(v1: Vertex, v2: Vertex)
      requires Valid()
      modifies this
      ensures Valid() && NoCoverage() && CoveredCellsShaded()
      ensures old(spanDataY) != -1 ==> RowEmitted()
      ensures spanDataY == old(spanDataY) && spanMinX == old(spanMinX) && spanMaxX == old(spanMaxX)
      ensures lastSpanY == old(lastSpanY)
      ensures old(spanDataY) == -1 ==> unchanged(this)
    {
      if spanDataY != -1 {
        EmitSpanData();
      }
    }

    method BeginTriangle(v1: Vertex, v2: Vertex, v3: Vertex, area2: int, userdata: UserData)
      requires Valid() && RequestedSize(ops, CDiv(Max(Max(v1.x + v1.w, v2.x + v2.w), v3.x + v3.w), S) + 1) >= 0
      modifies this
      ensures Valid() && InitializedFor(CDiv(Max(Max(v1.x + v1.w, v2.x + v2.w), v3.x + v3.w), S) + 1)
    {
      var maxXCoord := Max(Max(v1.x + v1.w, v2.x + v2.w), v3.x + v3.w);
      Initialize(CDiv(maxXCoord, S) + 1);
    }

    method EndTriangle(v1: Vertex, v2: Vertex, v3: Vertex, userdata: UserData)
      requires Valid()
      modifies this
      ensures Valid() && NoCoverage() && CoveredCellsShaded()
      ensures old(spanDataY) != -1 ==> RowEmitted()
      ensures spanDataY == old(spanDataY) && spanMinX == old(spanMinX) && spanMaxX == old(spanMaxX)
      ensures lastSpanY == old(lastSpanY)
      ensures old(spanDataY) == -1 ==> unchanged(this)
    {
      if spanDataY != -1 {
        EmitSpanData();
      }
    }

    /**
     * The state after `affine_span` has covered the samples x .. e - 1 of
     * sample row y: the pending row was emitted (and its masks cleared) if
     * y starts a new pixel row, the covered samples are ORed into the
     * buffer as SpanEffect says, and the row's cell range is widened.
     */
    twostate predicate SpanDrawn(x: nat, y: nat, fd: FragmentData, step: FragmentData, e: nat, u: UserData)
      requires old(Valid()) && WellFormed(cfg, fd) && WellFormed(cfg, step)
      reads this
    {
      var ends := RowEnds(S, old(lastSpanY), old(spanDataY), y);
      lastSpanY == y && spanDataY == y / S
      && emitted == old(emitted) + (if ends then EmitList(old(spanBuffer), old(spanMinX), old(spanMaxX), old(spanDataY)) else [])
      && spanBuffer == SpanEffect(cfg, S, if ends then Cleared(old(spanBuffer), old(spanMinX), old(spanMaxX)) else old(spanBuffer),
                                  x, e, RowShift(S, y), fd, step, u)
      && spanMinX == Min(if ends then INT_MAX else old(spanMinX), x / S)
      && spanMaxX == Max(if ends then 0 else old(spanMaxX), e / S)
    }

    /**
     * `affine_span` as written: the samples x .. SpanEnd(S, x, n) - 1 are
     * covered, which is more than n when n is shorter than the distance
     * from x to the next multiple of S.
     */
    method AffineSpan(x: int, y: int, fd: FragmentData, step: FragmentData, n: nat, u: UserData)
      requires Valid() && WellFormed(cfg, fd) && WellFormed(cfg, step)
      requires 0 <= x && 0 <= y && SpanEnd(S, x, n) < S * |spanBuffer|
      modifies this
      ensures Valid() && SpanDrawn(x, y, fd, step, SpanEnd(S, x, n), u)
      ensures spanMinX <= x / S && spanMaxX >= (x + n) / S
    {
      DetectBeginEndSpan(y);
      var minX := Min(spanMinX, x / S);
      var buf, p := CoverSpan(cfg, S, spanBuffer, x, y, fd, step, n, u);
      var maxX := Max(spanMaxX, p / S);
      forall c | 0 <= c < |buf| && buf[c].coverageMask != {}
        ensures minX <= c <= maxX
      {
        SpanEffectRange(cfg, S, spanBuffer, x, p, RowShift(S, y), fd, step, u, c);
      }
      assert 0 <= minX && 0 <= maxX < |buf| && maxX >= (x + n) / S && CellsWellFormed(cfg, buf) by {
        CellColDivMod(S, x);
        CellColDivMod(S, p);
        CellColDivMod(S, x + n);
        CellMonotone(S, x + n, p);
        CellBelow(S, p, |buf|);
        SpanEffectWellFormed(cfg, S, spanBuffer, x, p, RowShift(S, y), fd, step, u);
      }
      spanDataY, spanMinX, spanBuffer, spanMaxX := y / S, minX, buf, maxX;
    }

    /** `affine_span` with the first loop bounded by n: exactly the samples x .. x + n - 1 are covered. */
    method AffineSpanIntended(x: int, y: int, fd: FragmentData, step: FragmentData, n: nat, u: UserData)
      requires Valid() && WellFormed(cfg, fd) && WellFormed(cfg, step)
      requires 0 <= x && 0 <= y && x + n < S * |spanBuffer|
      modifies this
      ensures Valid() && SpanDrawn(x, y, fd, step, x + n, u)
      ensures spanMinX <= x / S && spanMaxX >= (x + n) / S
    {
      DetectBeginEndSpan(y);
      var minX := Min(spanMinX, x / S);
      var buf, p := CoverSpanIntended(cfg, S, spanBuffer, x, y, fd, step, n, u);
      var maxX := Max(spanMaxX, p / S);
      forall c | 0 <= c < |buf| && buf[c].coverageMask != {}
        ensures minX <= c <= maxX
      {
        SpanEffectRange(cfg, S, spanBuffer, x, p, RowShift(S, y), fd, step, u, c);
      }
      assert 0 <= minX && 0 <= maxX < |buf| && maxX >= (x + n) / S && CellsWellFormed(cfg, buf) by {
        CellColDivMod(S, x);
        CellColDivMod(S, p);
        CellColDivMod(S, x + n);
        CellMonotone(S, x + n, p);
        CellBelow(S, p, |buf|);
        SpanEffectWellFormed(cfg, S, spanBuffer, x, p, RowShift(S, y), fd, step, u);
      }
      spanDataY, spanMinX, spanBuffer, spanMaxX := y / S, minX, buf, maxX;
    }
  }
}
