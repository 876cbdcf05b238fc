/**
 * Fragment data and the pure helpers of SpanDrawerBase: the step between two
 * span end points and the perspective division at a chunk boundary.
 *
 * Integers are unbounded here; the source works on 32-bit `int` and 16.16
 * fixed point, and a signed overflow there is undefined behaviour, so no
 * wrap-around is modelled. C's `/` truncates toward zero; `CDiv` models it.
 */
module Fragment {

  /** An opaque user-data handle (the `void *userdata` threaded through every call). */
  type UserData = int

  /** The compile-time properties of a fragment shader that the span drawers read. */
  datatype ShaderConfig = ShaderConfig(varyingCount: nat, interpolateZ: bool)

  /**
   * Interpolated per-fragment state: depth and the varyings. Only the first
   * `varyingCount` varyings are ever read or written, so the model keeps
   * exactly those.
   */
  datatype FragmentData = FragmentData(z: int, varyings: seq<int>)

  /** Fragment data in perspective form (varying times 1/w) with the 1/w term. */
  datatype FragmentDataPerspective = FragmentDataPerspective(fd: FragmentData, oow: int)

  /**
   * A screen-space vertex as the rasterizer hands it to the per-primitive
   * callbacks: fixed-point x and y, depth, w, and the varyings.
   */
  datatype Vertex = Vertex(x: int, y: int, z: int, w: int, varyings: seq<int>)

  /**
   * The fixed-point helpers whose bodies are not part of this model:
   * `fixmul<16>`, `invert` and `ceil28_4`. They are arbitrary total functions,
   * so everything proved here holds whatever they compute.
   */
  datatype Arith = Arith(fixmul16: (int, int) -> int, invert: int -> int, ceil28_4: int -> int)

  /** Length of one affine chunk of a perspective-correct span. */
  const AFFINE_LENGTH: nat := 24

  /** Largest value of a 32-bit `int`. */
  const INT_MAX: int := 0x7fff_ffff

  predicate WellFormed(cfg: ShaderConfig, f: FragmentData) {
    |f.varyings| == cfg.varyingCount
  }

  predicate WellFormedP(cfg: ShaderConfig, p: FragmentDataPerspective) {
    WellFormed(cfg, p.fd)
  }

  /** `q` is the quotient of `a` by `b` rounded toward zero, as C's `/` gives it. */
  predicate TruncQuotient(a: int, b: int, q: int) {
    && (a >= 0 ==> 0 <= a - q * b < b)
    && (a < 0 ==> -b < a - q * b <= 0)
  }

  /** C's integer division for a positive divisor. */
  function CDiv(a: int, b: int): (q: int)
    requires b > 0
    ensures TruncQuotient(a, b, q)
  {
    if a >= 0 then a / b else -((-a) / b)
  }

  /** C's `%` for a positive divisor: the remainder takes the sign of `a`. */
  function CRem(a: int, b: int): (r: int)
    requires b > 0
    ensures a == CDiv(a, b) * b + r
    ensures a >= 0 ==> 0 <= r < b
    ensures a < 0 ==> -b < r <= 0
  {
    a - CDiv(a, b) * b
  }

  /** Truncating division has exactly one answer, so `CDiv` is C's `/`. */
  lemma TruncQuotientUnique(a: int, b: int, q1: int, q2: int)
    requires b > 0
    requires TruncQuotient(a, b, q1) && TruncQuotient(a, b, q2)
    ensures q1 == q2
  {
    MulMono(q1 + 1, q2, b);
    MulMono(q2 + 1, q1, b);
  }

  /** Multiplying by a non-negative factor keeps the order. */
  lemma MulMono(a: int, c: int, b: int)
    requires b >= 0
    ensures a <= c ==> a * b <= c * b
    ensures (a + 1) * b == a * b + b
  {
    if a <= c {
      assert c * b - a * b == (c - a) * b;
    }
  }

/** The quotient and remainder are determined by a == q * S + r. */
  lemma DivUnique(a: int, S: int, q: int, r: int)
    requires S > 0 && 0 <= r < S && a == q * S + r
    ensures a / S == q && a % S == r
  {
    var q2 := a / S;
    assert a == q2 * S + a % S;
    MulMono(q + 1, q2, S);
    MulMono(q2 + 1, q, S);
  }

  /** The value-initialised fragment data `FragmentData()`: everything zero. */
  function ZeroFragment(cfg: ShaderConfig): (r: FragmentData)
    ensures WellFormed(cfg, r)
    ensures r.z == 0 && forall i | 0 <= i < |r.varyings| :: r.varyings[i] == 0
  {
    FragmentData(0, seq(cfg.varyingCount, _ => 0))
  }

  /**
   * `f += k * s` as FRAGMENTDATA_APPLY performs it: on `z` only when the
   * shader interpolates z, and on every varying.
   */
  function AddScaled(cfg: ShaderConfig, f: FragmentData, s: FragmentData, k: int): (r: FragmentData)
    requires WellFormed(cfg, f) && WellFormed(cfg, s)
    ensures WellFormed(cfg, r)
    ensures r.z == if cfg.interpolateZ then f.z + k * s.z else f.z
  {
    FragmentData(
      if cfg.interpolateZ then f.z + k * s.z else f.z,
      seq(|f.varyings|, i requires 0 <= i < |f.varyings| => f.varyings[i] + k * s.varyings[i]))
  }

  /** `p += k * s` as FRAGMENTDATA_PERSPECTIVE_APPLY performs it: also on 1/w. */
  function AddScaledP(cfg: ShaderConfig, p: FragmentDataPerspective, s: FragmentDataPerspective, k: int)
    : (r: FragmentDataPerspective)
    requires WellFormedP(cfg, p) && WellFormedP(cfg, s)
    ensures WellFormedP(cfg, r)
    ensures r.fd == AddScaled(cfg, p.fd, s.fd, k) && r.oow == p.oow + k * s.oow
  {
    FragmentDataPerspective(AddScaled(cfg, p.fd, s.fd, k), p.oow + k * s.oow)
  }

  /** Adding no step leaves fragment data as it is. */
  lemma AddScaledZero(cfg: ShaderConfig, f: FragmentData, s: FragmentData)
    requires WellFormed(cfg, f) && WellFormed(cfg, s)
    ensures AddScaled(cfg, f, s, 0) == f
  {
    assert AddScaled(cfg, f, s, 0).varyings == f.varyings;
  }

  /** Stepping `a` times and then `b` times is stepping `a + b` times. */
  lemma AddScaledTwice(cfg: ShaderConfig, f: FragmentData, s: FragmentData, a: int, b: int)
    requires WellFormed(cfg, f) && WellFormed(cfg, s)
    ensures AddScaled(cfg, AddScaled(cfg, f, s, a), s, b) == AddScaled(cfg, f, s, a + b)
  {
    var l := AddScaled(cfg, AddScaled(cfg, f, s, a), s, b);
    var r := AddScaled(cfg, f, s, a + b);
    forall i | 0 <= i < |f.varyings|
      ensures l.varyings[i] == r.varyings[i]
    {
      calc {
        l.varyings[i];
        f.varyings[i] + a * s.varyings[i] + b * s.varyings[i];
        { assert a * s.varyings[i] + b * s.varyings[i] == (a + b) * s.varyings[i]; }
        r.varyings[i];
      }
    }
    assert l.varyings == r.varyings;
    assert l.z == r.z by {
      if cfg.interpolateZ {
        assert a * s.z + b * s.z == (a + b) * s.z;
      }
    }
  }

  /** The same as `AddScaledTwice` for perspective fragment data. */
  lemma AddScaledPTwice(cfg: ShaderConfig, p: FragmentDataPerspective, s: FragmentDataPerspective, a: int, b: int)
    requires WellFormedP(cfg, p) && WellFormedP(cfg, s)
    ensures AddScaledP(cfg, AddScaledP(cfg, p, s, a), s, b) == AddScaledP(cfg, p, s, a + b)
  {
    AddScaledTwice(cfg, p.fd, s.fd, a, b);
    assert a * s.oow + b * s.oow == (a + b) * s.oow;
  }

  /**
   * compute_step_al: the per-pixel step across one full affine chunk, the
   * difference of the end points divided by AFFINE_LENGTH with truncation.
   * Depth is stepped only when the shader interpolates z; the step's unused
   * depth member is never initialised in the source and is 0 here.
   */
  function ComputeStepAl(cfg: ShaderConfig, fdl: FragmentData, fdr: FragmentData): (r: FragmentData)
    requires WellFormed(cfg, fdl) && WellFormed(cfg, fdr)
    ensures WellFormed(cfg, r)
    ensures cfg.interpolateZ ==> TruncQuotient(fdr.z - fdl.z, AFFINE_LENGTH, r.z)
    ensures !cfg.interpolateZ ==> r.z == 0
    ensures forall i | 0 <= i < |r.varyings| ::
              TruncQuotient(fdr.varyings[i] - fdl.varyings[i], AFFINE_LENGTH, r.varyings[i])
  {
    FragmentData(
      if cfg.interpolateZ then CDiv(fdr.z - fdl.z, AFFINE_LENGTH) else 0,
      seq(cfg.varyingCount, i requires 0 <= i < cfg.varyingCount =>
        CDiv(fdr.varyings[i] - fdl.varyings[i], AFFINE_LENGTH)))
  }

  /**
   * Stepping AFFINE_LENGTH times from the left end point with the step of
   * `ComputeStepAl` lands within AFFINE_LENGTH - 1 of the right end point in
   * every interpolated channel, short of it and never beyond it.
   */
  lemma StepAlReachesRightEnd(cfg: ShaderConfig, fdl: FragmentData, fdr: FragmentData)
    requires WellFormed(cfg, fdl) && WellFormed(cfg, fdr)
    ensures var e := AddScaled(cfg, fdl, ComputeStepAl(cfg, fdl, fdr), AFFINE_LENGTH);
      && (forall i | 0 <= i < cfg.varyingCount ::
            var d := fdr.varyings[i] - e.varyings[i];
            (fdr.varyings[i] >= fdl.varyings[i] ==> 0 <= d < AFFINE_LENGTH)
            && (fdr.varyings[i] < fdl.varyings[i] ==> -(AFFINE_LENGTH as int) < d <= 0))
      && (cfg.interpolateZ ==>
            var d := fdr.z - e.z;
            (fdr.z >= fdl.z ==> 0 <= d < AFFINE_LENGTH)
            && (fdr.z < fdl.z ==> -(AFFINE_LENGTH as int) < d <= 0))
  {
    var st := ComputeStepAl(cfg, fdl, fdr);
    var e := AddScaled(cfg, fdl, st, AFFINE_LENGTH);
    forall i | 0 <= i < cfg.varyingCount
      ensures fdr.varyings[i] - e.varyings[i]
           == (fdr.varyings[i] - fdl.varyings[i]) - st.varyings[i] * AFFINE_LENGTH
    {
      assert e.varyings[i] == fdl.varyings[i] + AFFINE_LENGTH * st.varyings[i];
    }
    if cfg.interpolateZ {
      assert e.z == fdl.z + AFFINE_LENGTH * st.z;
    }
  }

  /**
   * compute_step: the per-pixel step of a chunk of any length, the difference
   * of the end points times the fixed-point reciprocal `invDelta` of the
   * length, each product through `fixmul<16>`.
   */
  function ComputeStep(cfg: ShaderConfig, ops: Arith, fdl: FragmentData, fdr: FragmentData, invDelta: int)
    : (r: FragmentData)
    requires WellFormed(cfg, fdl) && WellFormed(cfg, fdr)
    ensures WellFormed(cfg, r)
    ensures r.z == if cfg.interpolateZ then ops.fixmul16(fdr.z - fdl.z, invDelta) else 0
    ensures forall i | 0 <= i < |r.varyings| ::
              r.varyings[i] == ops.fixmul16(fdr.varyings[i] - fdl.varyings[i], invDelta)
  {
    FragmentData(
      if cfg.interpolateZ then ops.fixmul16(fdr.z - fdl.z, invDelta) else 0,
      seq(cfg.varyingCount, i requires 0 <= i < cfg.varyingCount =>
        ops.fixmul16(fdr.varyings[i] - fdl.varyings[i], invDelta)))
  }

  /**
   * The two step computations agree whenever multiplying by `invDelta` is
   * exactly C's division by AFFINE_LENGTH: the full-chunk step is the
   * general step specialised to a known length.
   */
  lemma ComputeStepGeneralises(cfg: ShaderConfig, ops: Arith, fdl: FragmentData, fdr: FragmentData, invDelta: int)
    requires WellFormed(cfg, fdl) && WellFormed(cfg, fdr)
    requires forall d :: ops.fixmul16(d, invDelta) == CDiv(d, AFFINE_LENGTH)
    ensures ComputeStep(cfg, ops, fdl, fdr, invDelta) == ComputeStepAl(cfg, fdl, fdr)
  {
    var a := ComputeStep(cfg, ops, fdl, fdr, invDelta);
    var b := ComputeStepAl(cfg, fdl, fdr);
    forall i | 0 <= i < cfg.varyingCount
      ensures a.varyings[i] == b.varyings[i]
    {
      var d := fdr.varyings[i] - fdl.varyings[i];
      TruncQuotientUnique(d, AFFINE_LENGTH, a.varyings[i], b.varyings[i]);
    }
    assert a.varyings == b.varyings;
    if cfg.interpolateZ {
      TruncQuotientUnique(fdr.z - fdl.z, AFFINE_LENGTH, a.z, b.z);
    }
  }

  /**
   * fd_from_fds: perspective division at a chunk boundary. Starting from
   * all-zero data, depth is copied only when the shader interpolates z, and
   * every varying is multiplied by one common factor, the reciprocal of 1/w,
   * which is computed only when there are varyings.
   */
  function FdFromFds(cfg: ShaderConfig, ops: Arith, p: FragmentDataPerspective): (r: FragmentData)
    requires WellFormedP(cfg, p)
    ensures WellFormed(cfg, r)
    ensures r.z == if cfg.interpolateZ then p.fd.z else ZeroFragment(cfg).z
    ensures cfg.varyingCount > 0 ==>
              var w := ops.invert(p.oow);
              forall i | 0 <= i < |r.varyings| :: r.varyings[i] == ops.fixmul16(p.fd.varyings[i], w)
  {
    var r := ZeroFragment(cfg);
    var r := if cfg.interpolateZ then r.(z := p.fd.z) else r;
    if cfg.varyingCount > 0 then
      var w := ops.invert(p.oow);
      r.(varyings := seq(cfg.varyingCount, i requires 0 <= i < cfg.varyingCount =>
                       ops.fixmul16(p.fd.varyings[i], w)))
    else
      r
  }

  /**
   * Perspective data agreeing on the members FRAGMENTDATA_PERSPECTIVE_APPLY
   * copies (depth when interpolated, the varyings, 1/w) divide to the same
   * fragment data: the depth of a shader that does not interpolate z is
   * never read.
   */
  lemma FdFromFdsReadsOnlyApplied(cfg: ShaderConfig, ops: Arith, p: FragmentDataPerspective, q: FragmentDataPerspective)
    requires WellFormedP(cfg, p) && WellFormedP(cfg, q)
    requires p.fd.varyings == q.fd.varyings && p.oow == q.oow
    requires cfg.interpolateZ ==> p.fd.z == q.fd.z
    ensures FdFromFds(cfg, ops, p) == FdFromFds(cfg, ops, q)
  {
  }
}
