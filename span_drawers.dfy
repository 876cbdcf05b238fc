/**
 * The span drawers that call the fragment shader directly:
 * SpanDrawerBase::perspective_span, which cuts a run of pixels into affine
 * chunks, and the affine_span of GenericSpanDrawer and of
 * SpanDrawer16BitColorAndDepth, which step fragment data pixel by pixel.
 *
 * A call into shader code is recorded as a value in the sequence the method
 * returns, in the order the source makes the calls.
 */
module SpanDrawers {
  import opened Fragment

  /** One call of `FragmentShader::affine_span(x, y, fd, step, n, userdata)`. */
  datatype AffineCall = AffineCall(x: int, y: int, fd: FragmentData, step: FragmentData, n: nat, userdata: UserData)

  /** One call of the generic drawer's `single_fragment(x, y, fd, userdata)`. */
  datatype FragmentCall = FragmentCall(x: int, y: int, fd: FragmentData, userdata: UserData)

  /**
   * One call of the 16-bit drawer's `single_fragment(fd, color, depth, userdata)`;
   * `color` and `depth` are the positions of the cells passed by reference,
   * as offsets into the caller's colour and depth buffers.
   */
  datatype ColorDepthCall = ColorDepthCall(fd: FragmentData, color: int, depth: int, userdata: UserData)

  /**
   * The shader's `color_pointer(x, y, userdata)` and `depth_pointer(x, y,
   * userdata)`, as functions that give a cell position in the caller's buffers.
   */
  datatype CellPointers = CellPointers(colorPointer: (int, int, UserData) -> int, depthPointer: (int, int, UserData) -> int)

  /** The perspective-divided fragment data `m` pixels into the span. */
  function Boundary(cfg: ShaderConfig, ops: Arith, fdIn: FragmentDataPerspective, step: FragmentDataPerspective, m: int)
    : (r: FragmentData)
    requires WellFormedP(cfg, fdIn) && WellFormedP(cfg, step)
    ensures WellFormed(cfg, r)
  {
    FdFromFds(cfg, ops, AddScaledP(cfg, fdIn, step, m))
  }

  /**
   * The affine step of the chunk of length `len` that starts `m` pixels into
   * the span: from the divided values at its two ends, by truncating division
   * for a full chunk and by the fixed-point reciprocal of `len` otherwise.
   */
  function ChunkStep(cfg: ShaderConfig, ops: Arith, fdIn: FragmentDataPerspective, step: FragmentDataPerspective,
                     m: int, len: nat): (r: FragmentData)
    requires WellFormedP(cfg, fdIn) && WellFormedP(cfg, step)
    ensures WellFormed(cfg, r)
  {
    var l := Boundary(cfg, ops, fdIn, step, m);
    var h := Boundary(cfg, ops, fdIn, step, m + len);
    if len == AFFINE_LENGTH then ComputeStepAl(cfg, l, h)
    else ComputeStep(cfg, ops, l, h, ops.invert(len * 0x1_0000))
  }

  /**
   * The shape of the chunk calls of a span of `n` pixels at (x, y): n / 24
   * full chunks and, when 24 does not divide n, one shorter chunk of n % 24,
   * placed one after the other from x on row y.
   */
  ghost predicate IsChunking(spans: seq<AffineCall>, x: int, y: int, n: nat, userdata: UserData) {
    && |spans| == n / AFFINE_LENGTH + (if n % AFFINE_LENGTH != 0 then 1 else 0)
    && forall k | 0 <= k < |spans| ::
         && spans[k].x == x + AFFINE_LENGTH * k
         && spans[k].y == y
         && spans[k].userdata == userdata
         && spans[k].n == (if k < n / AFFINE_LENGTH then AFFINE_LENGTH else n % AFFINE_LENGTH)
  }

  /**
   * A chunk call starts from the divided data at its left boundary and
   * carries the step towards the divided data at its right boundary.
   */
  ghost predicate ChunkInterpolates(cfg: ShaderConfig, ops: Arith, x: int,
                                    fdIn: FragmentDataPerspective, step: FragmentDataPerspective, c: AffineCall)
    requires WellFormedP(cfg, fdIn) && WellFormedP(cfg, step)
  {
    && c.fd == Boundary(cfg, ops, fdIn, step, c.x - x)
    && c.step == ChunkStep(cfg, ops, fdIn, step, c.x - x, c.n)
  }

  /** Every chunk call of the span interpolates between its boundaries. */
  ghost predicate ChunksInterpolate(cfg: ShaderConfig, ops: Arith, spans: seq<AffineCall>, x: int,
                                    fdIn: FragmentDataPerspective, step: FragmentDataPerspective)
    requires WellFormedP(cfg, fdIn) && WellFormedP(cfg, step)
  {
    forall k | 0 <= k < |spans| :: ChunkInterpolates(cfg, ops, x, fdIn, step, spans[k])
  }

  lemma ChunksInterpolateAppend(cfg: ShaderConfig, ops: Arith, spans: seq<AffineCall>, x: int,
                                fdIn: FragmentDataPerspective, step: FragmentDataPerspective, c: AffineCall)
    requires WellFormedP(cfg, fdIn) && WellFormedP(cfg, step)
    requires ChunksInterpolate(cfg, ops, spans, x, fdIn, step)
    requires ChunkInterpolates(cfg, ops, x, fdIn, step, c)
    ensures ChunksInterpolate(cfg, ops, spans + [c], x, fdIn, step)
  {
    var s := spans + [c];
    forall k | 0 <= k < |s|
      ensures ChunkInterpolates(cfg, ops, x, fdIn, step, s[k])
    {
      if k < |spans| { assert s[k] == spans[k]; } else { assert s[k] == c; }
    }
  }

  /** Sum of the lengths of a sequence of chunk calls. */
  function TotalLength(spans: seq<AffineCall>): nat {
    if spans == [] then 0 else TotalLength(spans[..|spans| - 1]) + spans[|spans| - 1].n
  }

  /** The first k chunks of a chunking cover exactly 24 * k pixels. */
  lemma {:induction false} ChunkingPrefixLength(spans: seq<AffineCall>, x: int, y: int, n: nat, userdata: UserData, k: nat)
    requires IsChunking(spans, x, y, n, userdata)
    requires k <= n / AFFINE_LENGTH
    ensures TotalLength(spans[..k]) == AFFINE_LENGTH * k
  {
    if k > 0 {
      ChunkingPrefixLength(spans, x, y, n, userdata, k - 1);
      assert spans[..k][..k - 1] == spans[..k - 1];
    }
  }

  /** The chunk lengths add up to the span length; a span of 0 pixels has no chunk. */
  lemma ChunkingTotal(spans: seq<AffineCall>, x: int, y: int, n: nat, userdata: UserData)
    requires IsChunking(spans, x, y, n, userdata)
    ensures TotalLength(spans) == n
    ensures n == 0 <==> spans == []
  {
    var q := n / AFFINE_LENGTH;
    ChunkingPrefixLength(spans, x, y, n, userdata, q);
    if n % AFFINE_LENGTH != 0 {
      assert spans[..|spans| - 1] == spans[..q];
    } else {
      assert spans == spans[..q];
    }
  }

  /**
   * Every pixel of the span lies in exactly one chunk, the one with index
   * (p - x) / 24.
   */
  lemma ChunkOfPixel(spans: seq<AffineCall>, x: int, y: int, n: nat, userdata: UserData, p: int)
    requires IsChunking(spans, x, y, n, userdata)
    requires x <= p < x + n
    ensures var k := (p - x) / AFFINE_LENGTH;
      && k < |spans|
      && spans[k].x <= p < spans[k].x + spans[k].n
      && forall j | 0 <= j < |spans| && j != k :: !(spans[j].x <= p < spans[j].x + spans[j].n)
  {
    var k := (p - x) / AFFINE_LENGTH;
    forall j | 0 <= j < |spans| && j != k
      ensures !(spans[j].x <= p < spans[j].x + spans[j].n)
    {
      assert spans[j].n <= AFFINE_LENGTH;
    }
  }

  lemma ChunkCount(n: nat, q: nat, r: int)
    requires n == AFFINE_LENGTH * q + r && 0 <= r < AFFINE_LENGTH
    ensures n / AFFINE_LENGTH == q && n % AFFINE_LENGTH == r
  {
  }

  /**
   * perspective_span: the run of `n` pixels at (x, y) becomes chunk calls of
   * `affine_span`. Each chunk starts from the perspective-divided fragment
   * data at its left boundary and steps towards the divided data at its right
   * boundary; division happens at chunk boundaries only.
   */
  method PerspectiveSpan(cfg: ShaderConfig, ops: Arith, x: int, y: int, fdIn: FragmentDataPerspective,
                         step: FragmentDataPerspective, n: nat, userdata: UserData)
    returns (spans: seq<AffineCall>)
    requires WellFormedP(cfg, fdIn) && WellFormedP(cfg, step)
    ensures IsChunking(spans, x, y, n, userdata)
    ensures ChunksInterpolate(cfg, ops, spans, x, fdIn, step)
  {
    var fds0 := fdIn;
    var fd0 := FdFromFds(cfg, ops, fds0);
    var cx: int, cn: nat := x, n;
    spans := [];
    AddScaledZero(cfg, fdIn.fd, step.fd);
    while AFFINE_LENGTH <= cn
      invariant cx == x + AFFINE_LENGTH * |spans| && cn == n - AFFINE_LENGTH * |spans|
      invariant fds0 == AddScaledP(cfg, fdIn, step, cx - x)
      invariant fd0 == FdFromFds(cfg, ops, fds0)
      invariant forall k | 0 <= k < |spans| ::
                  && spans[k].x == x + AFFINE_LENGTH * k && spans[k].y == y
                  && spans[k].userdata == userdata && spans[k].n == AFFINE_LENGTH
      invariant ChunksInterpolate(cfg, ops, spans, x, fdIn, step)
    {
      var fds1 := AddScaledP(cfg, fds0, step, AFFINE_LENGTH);
      var fd1 := FdFromFds(cfg, ops, fds1);
      var chunkStep := ComputeStepAl(cfg, fd0, fd1);
      ghost var m := cx - x;
      AddScaledPTwice(cfg, fdIn, step, m, AFFINE_LENGTH);
      assert fds1 == AddScaledP(cfg, fdIn, step, m + AFFINE_LENGTH);
      assert fd1 == Boundary(cfg, ops, fdIn, step, m + AFFINE_LENGTH);
      assert fd0 == Boundary(cfg, ops, fdIn, step, m);
      assert chunkStep == ChunkStep(cfg, ops, fdIn, step, m, AFFINE_LENGTH);
      ghost var c := AffineCall(cx, y, fd0, chunkStep, AFFINE_LENGTH, userdata);
      assert c.x - x == m;
      assert ChunkInterpolates(cfg, ops, x, fdIn, step, c);
      ChunksInterpolateAppend(cfg, ops, spans, x, fdIn, step, c);
      spans := spans + [AffineCall(cx, y, fd0, chunkStep, AFFINE_LENGTH, userdata)];
      cx, cn := cx + AFFINE_LENGTH, cn - AFFINE_LENGTH;
      fds0, fd0 := fds1, fd1;
    }
    ChunkCount(n, |spans|, cn);
    if cn != 0 {
      var invN := ops.invert(cn * 0x1_0000);
      var fds1 := AddScaledP(cfg, fds0, step, cn);
      var fd1 := FdFromFds(cfg, ops, fds1);
      var chunkStep := ComputeStep(cfg, ops, fd0, fd1, invN);
      ghost var m := cx - x;
      AddScaledPTwice(cfg, fdIn, step, m, cn);
      assert fds1 == AddScaledP(cfg, fdIn, step, m + cn);
      assert fd1 == Boundary(cfg, ops, fdIn, step, m + cn);
      assert fd0 == Boundary(cfg, ops, fdIn, step, m);
      assert chunkStep == ChunkStep(cfg, ops, fdIn, step, m, cn);
      ghost var c := AffineCall(cx, y, fd0, chunkStep, cn, userdata);
      assert c.x - x == m;
      assert ChunkInterpolates(cfg, ops, x, fdIn, step, c);
      ChunksInterpolateAppend(cfg, ops, spans, x, fdIn, step, c);
      spans := spans + [AffineCall(cx, y, fd0, chunkStep, cn, userdata)];
    }
  }

  /**
   * GenericSpanDrawer::affine_span: exactly `n` shader calls, the k-th at
   * pixel (x + k, y) with the fragment data stepped k times.
   */
  method GenericAffineSpan(cfg: ShaderConfig, x: int, y: int, fd: FragmentData, step: FragmentData, n: nat,
                           userdata: UserData)
    returns (calls: seq<FragmentCall>)
    requires WellFormed(cfg, fd) && WellFormed(cfg, step)
    ensures |calls| == n
    ensures forall k | 0 <= k < n :: calls[k] == FragmentCall(x + k, y, AddScaled(cfg, fd, step, k), userdata)
  {
    var cx, cur, i := x, fd, 0;
    calls := [];
    AddScaledZero(cfg, fd, step);
    while i < n
      invariant 0 <= i <= n && |calls| == i
      invariant cx == x + i && cur == AddScaled(cfg, fd, step, i)
      invariant forall k | 0 <= k < i :: calls[k] == FragmentCall(x + k, y, AddScaled(cfg, fd, step, k), userdata)
    {
      calls := calls + [FragmentCall(cx, y, cur, userdata)];
      cx := cx + 1;
      AddScaledTwice(cfg, fd, step, i, 1);
      cur := AddScaled(cfg, cur, step, 1);
      i := i + 1;
    }
  }

  /**
   * SpanDrawer16BitColorAndDepth::affine_span: exactly `n` shader calls; the
   * k-th gets the k-th colour and depth cells after the ones the shader
   * places at (x, y), and the fragment data stepped k times.
   */
  method ColorDepthAffineSpan(cfg: ShaderConfig, cells: CellPointers, x: int, y: int, fd: FragmentData,
                              step: FragmentData, n: nat, userdata: UserData)
    returns (calls: seq<ColorDepthCall>)
    requires WellFormed(cfg, fd) && WellFormed(cfg, step)
    ensures |calls| == n
    ensures forall k | 0 <= k < n ::
              calls[k] == ColorDepthCall(AddScaled(cfg, fd, step, k),
                                         cells.colorPointer(x, y, userdata) + k,
                                         cells.depthPointer(x, y, userdata) + k, userdata)
  {
    var color16 := cells.colorPointer(x, y, userdata);
    var depth16 := cells.depthPointer(x, y, userdata);
    var cur, i := fd, 0;
    calls := [];
    AddScaledZero(cfg, fd, step);
    while i < n
      invariant 0 <= i <= n && |calls| == i
      invariant color16 == cells.colorPointer(x, y, userdata) + i
      invariant depth16 == cells.depthPointer(x, y, userdata) + i
      invariant cur == AddScaled(cfg, fd, step, i)
      invariant forall k | 0 <= k < i ::
                  calls[k] == ColorDepthCall(AddScaled(cfg, fd, step, k),
                                             cells.colorPointer(x, y, userdata) + k,
                                             cells.depthPointer(x, y, userdata) + k, userdata)
    {
      calls := calls + [ColorDepthCall(cur, color16, depth16, userdata)];
      AddScaledTwice(cfg, fd, step, i, 1);
      cur := AddScaled(cfg, cur, step, 1);
      color16, depth16 := color16 + 1, depth16 + 1;
      i := i + 1;
    }
  }

  /**
   * The call a perspective-correct run of n pixels makes for pixel x + k:
   * the data of its chunk's left boundary stepped k % 24 times by that
   * chunk's step.
   */
  function PixelCall(cfg: ShaderConfig, ops: Arith, x: int, y: int, fdIn: FragmentDataPerspective,
                     step: FragmentDataPerspective, n: nat, userdata: UserData, k: nat): (c: FragmentCall)
    requires WellFormedP(cfg, fdIn) && WellFormedP(cfg, step)
    ensures c.x == x + k && c.y == y && c.userdata == userdata
  {
    var start := AFFINE_LENGTH * (k / AFFINE_LENGTH);
    var len := if k < AFFINE_LENGTH * (n / AFFINE_LENGTH) then AFFINE_LENGTH else n % AFFINE_LENGTH;
    FragmentCall(x + k, y,
                 AddScaled(cfg, Boundary(cfg, ops, fdIn, step, start), ChunkStep(cfg, ops, fdIn, step, start, len),
                           k % AFFINE_LENGTH),
                 userdata)
  }

  /** Pixel i of chunk j, as the generic affine_span shades it, is pixel 24 j + i of the run. */
  lemma ChunkPixel(cfg: ShaderConfig, ops: Arith, x: int, y: int, fdIn: FragmentDataPerspective,
                   step: FragmentDataPerspective, n: nat, userdata: UserData, s: AffineCall, j: nat, i: nat, k: nat)
    requires WellFormedP(cfg, fdIn) && WellFormedP(cfg, step) && k == AFFINE_LENGTH * j + i
    requires s.x == x + AFFINE_LENGTH * j && s.y == y && s.userdata == userdata
    requires s.n == (if j < n / AFFINE_LENGTH then AFFINE_LENGTH else n % AFFINE_LENGTH)
    requires ChunkInterpolates(cfg, ops, x, fdIn, step, s) && i < s.n
    ensures FragmentCall(s.x + i, s.y, AddScaled(cfg, s.fd, s.step, i), s.userdata)
            == PixelCall(cfg, ops, x, y, fdIn, step, n, userdata, k)
  {
    assert k / AFFINE_LENGTH == j && k % AFFINE_LENGTH == i;
    assert k < AFFINE_LENGTH * (n / AFFINE_LENGTH) <==> j < n / AFFINE_LENGTH;
  }

  /**
   * perspective_span of a shader built on GenericSpanDrawer: each chunk goes
   * to the generic affine_span. Every pixel of the run is shaded exactly
   * once, left to right, as PixelCall says.
   */
  method GenericPerspectiveSpan(cfg: ShaderConfig, ops: Arith, x: int, y: int, fdIn: FragmentDataPerspective,
                                step: FragmentDataPerspective, n: nat, userdata: UserData)
    returns (calls: seq<FragmentCall>)
    requires WellFormedP(cfg, fdIn) && WellFormedP(cfg, step)
    ensures |calls| == n
    ensures forall k | 0 <= k < n :: calls[k] == PixelCall(cfg, ops, x, y, fdIn, step, n, userdata, k)
  {
    var spans := PerspectiveSpan(cfg, ops, x, y, fdIn, step, n, userdata);
    calls := [];
    var j := 0;
    while j < |spans|
      invariant 0 <= j <= |spans|
      invariant |calls| == (if j <= n / AFFINE_LENGTH then AFFINE_LENGTH * j else n)
      invariant forall k | 0 <= k < |calls| :: calls[k] == PixelCall(cfg, ops, x, y, fdIn, step, n, userdata, k)
    {
      var s := spans[j];
      var part := GenericAffineSpan(cfg, s.x, s.y, s.fd, s.step, s.n, s.userdata);
      ghost var before := calls;
      calls := calls + part;
      forall k | |before| <= k < |calls|
        ensures calls[k] == PixelCall(cfg, ops, x, y, fdIn, step, n, userdata, k)
      {
        assert |before| == AFFINE_LENGTH * j && calls[k] == part[k - |before|];
        ChunkPixel(cfg, ops, x, y, fdIn, step, n, userdata, s, j, k - |before|, k);
      }
      j := j + 1;
    }
  }
}
