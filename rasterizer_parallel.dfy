/**
 * RasterizerParallel: a rows x cols grid of sub-rasterizers, each clipped
 * to its own tile of the clip rectangle, to which every setting and every
 * primitive is forwarded.
 */
module Parallel {
  import opened Fragment

  /** A clip rectangle: origin, width and height. */
  datatype Rect = Rect(x: int, y: int, w: int, h: int)

  predicate InRect(rect: Rect, px: int, py: int) {
    rect.x <= px < rect.x + rect.w && rect.y <= py < rect.y + rect.h
  }

  /** The fragment shader a `fragment_shader<FragSpan>()` call selects. */
  type ShaderId = nat

  /** A primitive forwarded to a sub-rasterizer. */
  datatype DrawCall =
    | TriangleCall(v1: Vertex, v2: Vertex, v3: Vertex)
    | LineCall(v1: Vertex, v2: Vertex)
    | PointCall(v1: Vertex)
    | TriangleListCall(vertices: seq<Vertex>, indices: seq<nat>, indexCount: nat)
    | LineListCall(vertices: seq<Vertex>, indices: seq<nat>, indexCount: nat)
    | PointListCall(vertices: seq<Vertex>, indices: seq<nat>, indexCount: nat)

  /**
   * The state of one sub-rasterizer that the parallel rasterizer sets, and
   * the primitives it has received.
   */
  datatype SubRasterizer = SubRasterizer(
    perspectiveCorrection: bool,
    thresholdW: int,
    thresholdH: int,
    shader: ShaderId,
    clip: Rect,
    userdata: UserData,
    draws: seq<DrawCall>)

  /** Sub-rasterizer `index` received `call`. */
  datatype Forwarded = Forwarded(index: nat, call: DrawCall)

  /** One call handed to sub-rasterizers 0 .. n - 1, in index order. */
  function Fanout(n: nat, call: DrawCall): (r: seq<Forwarded>)
    ensures |r| == n && forall i | 0 <= i < n :: r[i] == Forwarded(i, call)
  {
    seq(n, i requires 0 <= i < n => Forwarded(i, call))
  }

  // One-dimensional split: `parts` pieces of `length / parts` cells, and
  // the piece numbered `last` takes whatever its start leaves of `length`.

  function SegmentStart(origin: int, length: int, parts: int, i: int): int
    requires parts > 0
  {
    origin + CDiv(length, parts) * i
  }

  function SegmentSize(length: int, parts: int, last: int, i: int): int
    requires parts > 0
  {
    if i == last then length - i * CDiv(length, parts) else CDiv(length, parts)
  }

  predicate InSegment(origin: int, length: int, parts: int, last: int, i: int, p: int)
    requires parts > 0
  {
    SegmentStart(origin, length, parts, i) <= p < SegmentStart(origin, length, parts, i) + SegmentSize(length, parts, last, i)
  }

  /** The piece that holds p when the last piece takes the remainder. */
  function SegmentOf(origin: int, length: int, parts: int, p: int): int
    requires parts > 0 && length >= 0
  {
    var q := length / parts;
    if q == 0 then parts - 1
    else if (p - origin) / q < parts - 1 then (p - origin) / q
    else parts - 1
  }

  /** For a non-negative dividend C's `/` is Dafny's, and the quotient is non-negative. */
  lemma QuotientNonNeg(a: int, b: int)
    requires a >= 0 && b > 0
    ensures CDiv(a, b) == a / b && a / b >= 0 && 0 <= a - (a / b) * b < b
  {
    assert a == (a / b) * b + a % b;
    MulMono(a / b, -1, b);
  }

  /** An inner piece of width q > 0 holds d exactly when d's quotient by q is its number. */
  lemma InnerPiece(q: int, i: int, d: int)
    requires q > 0 && i >= 0
    ensures q * i <= d < q * i + q <==> 0 <= d && d / q == i
  {
    MulMono(0, i, q);
    if q * i <= d < q * i + q {
      DivUnique(d, q, i, d - q * i);
    }
    if 0 <= d && d / q == i {
      assert d == (d / q) * q + d % q;
    }
  }

  /** The last piece, from q * last on, holds d exactly when d's quotient by q is at least last. */
  lemma LastPiece(q: int, last: int, d: int)
    requires q > 0 && last >= 0 && d >= 0
    ensures q * last <= d <==> d / q >= last
  {
    assert d == (d / q) * q + d % q;
    if d / q >= last {
      MulMono(last, d / q, q);
    } else {
      MulMono(d / q + 1, last, q);
    }
  }

  /** When `parts` does not fit into `length`, the last piece is the whole range and the others are empty. */
  lemma PartitionNoQuotient(origin: int, length: int, parts: int, i: int, p: int)
    requires parts > 0 && length >= 0 && 0 <= i < parts && length / parts == 0
    ensures InSegment(origin, length, parts, parts - 1, i, p)
            <==> origin <= p < origin + length && i == SegmentOf(origin, length, parts, p)
  {
    QuotientNonNeg(length, parts);
    assert i * CDiv(length, parts) == 0;
  }

  /** An inner piece holds exactly the in-range points whose quotient is its number. */
  lemma PartitionInner(origin: int, length: int, parts: int, i: int, p: int)
    requires parts > 0 && length >= 0 && 0 <= i < parts - 1 && length / parts > 0
    ensures InSegment(origin, length, parts, parts - 1, i, p)
            <==> origin <= p < origin + length && i == SegmentOf(origin, length, parts, p)
  {
    QuotientNonNeg(length, parts);
    var q := length / parts;
    var d := p - origin;
    assert q * (i + 1) <= q * parts by {
      MulMono(i + 1, parts, q);
    }
    assert q * i + q == q * (i + 1);
    InnerPiece(q, i, d);
  }

  /** The last piece holds exactly the in-range points whose quotient reaches its number. */
  lemma PartitionLast(origin: int, length: int, parts: int, p: int)
    requires parts > 0 && length >= 0 && length / parts > 0
    ensures InSegment(origin, length, parts, parts - 1, parts - 1, p)
            <==> origin <= p < origin + length && parts - 1 == SegmentOf(origin, length, parts, p)
  {
    QuotientNonNeg(length, parts);
    var q := length / parts;
    var d := p - origin;
    assert SegmentSize(length, parts, parts - 1, parts - 1) == length - q * (parts - 1);
    MulMono(parts - 1, parts, q);
    if d >= 0 {
      LastPiece(q, parts - 1, d);
    } else {
      MulMono(0, parts - 1, q);
    }
  }

  /**
   * When the last piece takes the remainder, the pieces partition
   * origin .. origin + length - 1: p lies in piece i exactly when p is in
   * range and i is the piece SegmentOf names.
   */
  lemma SegmentsPartition(origin: int, length: int, parts: int, i: int, p: int)
    requires parts > 0 && length >= 0 && 0 <= i < parts
    ensures InSegment(origin, length, parts, parts - 1, i, p)
            <==> origin <= p < origin + length && i == SegmentOf(origin, length, parts, p)
  {
    QuotientNonNeg(length, parts);
    if length / parts == 0 {
      PartitionNoQuotient(origin, length, parts, i, p);
    } else if i < parts - 1 {
      PartitionInner(origin, length, parts, i, p);
    } else {
      PartitionLast(origin, length, parts, p);
    }
  }

  /**
   * The rectangle `clip_rect` gives tile (r, c) when row `lastRow` takes
   * the remaining height: columns of `w / cols`, the last column taking
   * the remaining width, rows of `h / rows`.
   */
  function Tile(x: int, y: int, w: int, h: int, rows: int, cols: int, lastRow: int, r: int, c: int): Rect
    requires rows > 0 && cols > 0
  {
    Rect(SegmentStart(x, w, cols, c), SegmentStart(y, h, rows, r),
         SegmentSize(w, cols, cols - 1, c), SegmentSize(h, rows, lastRow, r))
  }

  /** `clip_rect` as written: the row numbered `cols - 1` takes the remaining height. */
  function TileRect(x: int, y: int, w: int, h: int, rows: int, cols: int, r: int, c: int): Rect
    requires rows > 0 && cols > 0
  {
    Tile(x, y, w, h, rows, cols, cols - 1, r, c)
  }

  /** `clip_rect` as intended: the last row takes the remaining height. */
  function TileRectIntended(x: int, y: int, w: int, h: int, rows: int, cols: int, r: int, c: int): Rect
    requires rows > 0 && cols > 0
  {
    Tile(x, y, w, h, rows, cols, rows - 1, r, c)
  }

  /** Tile (r, c) is stored at index r * cols + c, and distinct tiles get distinct indices. */
  lemma TileIndex(rows: int, cols: int, r: int, c: int)
    requires 0 <= r < rows && 0 <= c < cols
    ensures 0 <= r * cols + c < rows * cols
    ensures (r * cols + c) / cols == r && (r * cols + c) % cols == c
  {
    DivUnique(r * cols + c, cols, r, c);
    MulMono(r + 1, rows, cols);
    MulMono(0, r, cols);
  }

  /**
   * The intended tiles partition the clip rectangle: a pixel lies in tile
   * (r, c) exactly when it lies in the rectangle and (r, c) is the tile
   * SegmentOf selects in each direction.
   */
  lemma TilesPartitionIntended(x: int, y: int, w: int, h: int, rows: int, cols: int, r: int, c: int, px: int, py: int)
    requires rows > 0 && cols > 0 && w >= 0 && h >= 0 && 0 <= r < rows && 0 <= c < cols
    ensures InRect(TileRectIntended(x, y, w, h, rows, cols, r, c), px, py)
            <==> InRect(Rect(x, y, w, h), px, py) && c == SegmentOf(x, w, cols, px) && r == SegmentOf(y, h, rows, py)
  {
    SegmentsPartition(x, w, cols, c, px);
    SegmentsPartition(y, h, rows, r, py);
  }

  /** With as many rows as columns, the tiles as written partition the clip rectangle. */
  lemma TilesPartitionSquare(x: int, y: int, w: int, h: int, n: int, r: int, c: int, px: int, py: int)
    requires n > 0 && w >= 0 && h >= 0 && 0 <= r < n && 0 <= c < n
    ensures InRect(TileRect(x, y, w, h, n, n, r, c), px, py)
            <==> InRect(Rect(x, y, w, h), px, py) && c == SegmentOf(x, w, n, px) && r == SegmentOf(y, h, n, py)
  {
    TilesPartitionIntended(x, y, w, h, n, n, r, c, px, py);
  }

  /**
   * Whatever the row count, the columns as written partition the width:
   * within one row, pixel column px lies in column c exactly when it is in
   * range and c is the column SegmentOf selects.
   */
  lemma ColumnsPartition(x: int, y: int, w: int, h: int, rows: int, cols: int, r: int, c: int, px: int)
    requires rows > 0 && cols > 0 && w >= 0 && 0 <= c < cols
    ensures var t := TileRect(x, y, w, h, rows, cols, r, c);
            t.x <= px < t.x + t.w <==> x <= px < x + w && c == SegmentOf(x, w, cols, px)
  {
    SegmentsPartition(x, w, cols, c, px);
  }

  /**
   * With more rows than columns, row cols - 1 takes the remaining height
   * and overlaps the next row: the first pixel row of row `cols` lies in
   * both.
   */
  lemma RowsOverlapAsWritten(y: int, h: int, rows: int, cols: int)
    requires 1 <= cols < rows && h >= rows
    ensures var py := y + h / rows * cols;
            InSegment(y, h, rows, cols - 1, cols - 1, py) && InSegment(y, h, rows, cols - 1, cols, py)
  {
    QuotientNonNeg(h, rows);
    var q := CDiv(h, rows);
    assert q >= 1;
    MulMono(cols, rows, q);
    assert (cols - 1) * q + q == cols * q;
  }

  /**
   * With fewer rows than columns no row takes the remainder, so when rows
   * does not divide h the last pixel row of the rectangle lies in no row.
   */
  lemma RowsGapAsWritten(y: int, h: int, rows: int, cols: int, r: int)
    requires 1 <= rows < cols && h >= 0 && h % rows != 0 && 0 <= r < rows
    ensures y <= y + h - 1 < y + h
    ensures !InSegment(y, h, rows, cols - 1, r, y + h - 1)
  {
    QuotientNonNeg(h, rows);
    var q := CDiv(h, rows);
    assert h == q * rows + h % rows;
    if q > 0 {
      MulMono(r + 1, rows, q);
      assert (r + 1) * q == r * q + q;
    }
  }

  /** The parallel rasterizer: its grid, its thread count and the sub-rasterizers it owns. */
  class RasterizerParallel {
    const rows: int
    const cols: int
    const rasterizers: array<SubRasterizer>
    var threadCount: int
    /** Every primitive forwarded, in the order the sub-rasterizers received it. */
    var forwarded: seq<Forwarded>

    /**
     * Creates rows * cols sub-rasterizers, each starting as `init` (the
     * sub-rasterizer's own default state), then turns perspective
     * correction on and the perspective threshold to 0 x 0 on all of them.
     * The thread count defaults to 4.
     */
    constructor (init: SubRasterizer, rows: int, cols: int, threadCount: int := 4)
      requires rows >= 0 && cols >= 0
      ensures this.rows == rows && this.cols == cols && this.threadCount == threadCount
      ensures rasterizers.Length == rows * cols && fresh(rasterizers) && forwarded == []
      ensures forall i | 0 <= i < rasterizers.Length ::
                rasterizers[i] == init.(perspectiveCorrection := true, thresholdW := 0, thresholdH := 0)
    {
      this.rows := rows;
      this.cols := cols;
      this.threadCount := threadCount;
      if cols > 0 {
        MulMono(0, rows, cols);
      }
      rasterizers := new SubRasterizer[rows * cols](_ => init);
      forwarded := [];
      new;
      PerspectiveCorrection(true);
      PerspectiveThreshold(0, 0);
    }

    method SetThreadCount(count: int)
      modifies this
      ensures threadCount == count && forwarded == old(forwarded)
    {
      threadCount := count;
    }

    method ThreadCount() returns (count: int)
      ensures count == threadCount
    {
      count := threadCount;
    }

    /** The loop every setter runs: sub-rasterizer i, for i = 0 .. size - 1, is updated in place. */
    method Broadcast(update: SubRasterizer -> SubRasterizer)
      modifies rasterizers
      ensures forall i | 0 <= i < rasterizers.Length :: rasterizers[i] == update(old(rasterizers[i]))
    {
      var i := 0;
      while i < rasterizers.Length
        invariant 0 <= i <= rasterizers.Length
        invariant forall j | 0 <= j < i :: rasterizers[j] == update(old(rasterizers[j]))
        invariant forall j | i <= j < rasterizers.Length :: rasterizers[j] == old(rasterizers[j])
      {
        rasterizers[i] := update(rasterizers[i]);
        i := i + 1;
      }
    }

    method PerspectiveCorrection(enable: bool)
      modifies rasterizers
      ensures forall i | 0 <= i < rasterizers.Length ::
                rasterizers[i] == old(rasterizers[i]).(perspectiveCorrection := enable)
    {
      Broadcast((s: SubRasterizer) => s.(perspectiveCorrection := enable));
    }

    method PerspectiveThreshold(w: int, h: int)
      modifies rasterizers
      ensures forall i | 0 <= i < rasterizers.Length ::
                rasterizers[i] == old(rasterizers[i]).(thresholdW := w, thresholdH := h)
    {
      Broadcast((s: SubRasterizer) => s.(thresholdW := w, thresholdH := h));
    }

    method FragmentShader(shader: ShaderId)
      modifies rasterizers
      ensures forall i | 0 <= i < rasterizers.Length :: rasterizers[i] == old(rasterizers[i]).(shader := shader)
    {
      Broadcast((s: SubRasterizer) => s.(shader := shader));
    }

    method SetUserdata(userdata: UserData)
      modifies rasterizers
      ensures forall i | 0 <= i < rasterizers.Length :: rasterizers[i] == old(rasterizers[i]).(userdata := userdata)
    {
      Broadcast((s: SubRasterizer) => s.(userdata := userdata));
    }

    /** The user data of sub-rasterizer 0, which `SetUserdata` keeps equal to every other's. */
    method Userdata() returns (userdata: UserData)
      requires rasterizers.Length > 0
      ensures userdata == rasterizers[0].userdata
    {
      userdata := rasterizers[0].userdata;
    }

    /** The tile sub-rasterizer k is clipped to when row `lastRow` takes the remaining height. */
    function TileAt(x: int, y: int, w: int, h: int, lastRow: int, k: int): Rect
      requires rows > 0 && cols > 0
    {
      Tile(x, y, w, h, rows, cols, lastRow, k / cols, k % cols)
    }

    /**
     * The body of the inner loop of `clip_rect` for (r, c): the index and
     * the clip rectangle it computes are those of tile `r * cols + c`.
     */
    method ClipCell(x: int, y: int, w: int, h: int, lastRow: int, r: int, c: int, woffset: int, hoffset: int)
      returns (index: int, rect: Rect)
      requires rows > 0 && cols > 0 && 0 <= r < rows && 0 <= c < cols
      requires woffset == CDiv(w, cols) && hoffset == CDiv(h, rows)
      ensures index == r * cols + c && 0 <= index < rows * cols
      ensures rect == TileAt(x, y, w, h, lastRow, index)
    {
      index := r * cols + c;
      TileIndex(rows, cols, r, c);
      var clipwidth := if c == cols - 1 then w - c * woffset else woffset;
      var clipheight := if r == lastRow then h - r * hoffset else hoffset;
      rect := Rect(x + woffset * c, y + hoffset * r, clipwidth, clipheight);
    }

    /** One pass of the inner loop of `clip_rect`: the sub-rasterizers of row r, c = 0 .. cols - 1. */
    method ClipRow(x: int, y: int, w: int, h: int, lastRow: int, r: int, woffset: int, hoffset: int)
      requires rows > 0 && cols > 0 && rasterizers.Length == rows * cols && 0 <= r < rows
      requires woffset == CDiv(w, cols) && hoffset == CDiv(h, rows)
      modifies rasterizers
      ensures r * cols + cols <= rasterizers.Length
      ensures forall k | r * cols <= k < r * cols + cols ::
                rasterizers[k] == old(rasterizers[k]).(clip := TileAt(x, y, w, h, lastRow, k))
      ensures forall k | 0 <= k < r * cols || r * cols + cols <= k < rasterizers.Length ::
                rasterizers[k] == old(rasterizers[k])
    {
      MulMono(r + 1, rows, cols);
      var base := r * cols;
      var c := 0;
      while c < cols
        invariant 0 <= c <= cols && 0 <= base && base + cols <= rasterizers.Length
        invariant forall k | base <= k < base + c ::
                    rasterizers[k] == old(rasterizers[k]).(clip := TileAt(x, y, w, h, lastRow, k))
        invariant forall k | 0 <= k < base || base + c <= k < rasterizers.Length ::
                    rasterizers[k] == old(rasterizers[k])
      {
        var index, rect := ClipCell(x, y, w, h, lastRow, r, c, woffset, hoffset);
        rasterizers[index] := rasterizers[index].(clip := rect);
        c := c + 1;
      }
    }

    /** The nested loop of `clip_rect`, with row `lastRow` taking the remaining height. */
    method ClipTiles(x: int, y: int, w: int, h: int, lastRow: int)
      requires rows > 0 && cols > 0 && rasterizers.Length == rows * cols
      modifies rasterizers
      ensures forall k | 0 <= k < rasterizers.Length ::
                rasterizers[k] == old(rasterizers[k]).(clip := TileAt(x, y, w, h, lastRow, k))
    {
      var woffset := CDiv(w, cols);
      var hoffset := CDiv(h, rows);
      var r := 0;
      while r < rows
        invariant 0 <= r <= rows
        invariant forall k | 0 <= k < r * cols ::
                    rasterizers[k] == old(rasterizers[k]).(clip := TileAt(x, y, w, h, lastRow, k))
        invariant forall k | r * cols <= k < rasterizers.Length :: rasterizers[k] == old(rasterizers[k])
      {
        ClipRow(x, y, w, h, lastRow, r, woffset, hoffset);
        assert (r + 1) * cols == r * cols + cols;
        r := r + 1;
      }
    }

    /** `clip_rect` as written: sub-rasterizer k gets TileRect of tile (k / cols, k % cols). */
    method ClipRect(x: int, y: int, w: int, h: int)
      requires rows > 0 && cols > 0 && rasterizers.Length == rows * cols
      modifies rasterizers
      ensures forall k | 0 <= k < rasterizers.Length ::
                rasterizers[k] == old(rasterizers[k]).(clip := TileRect(x, y, w, h, rows, cols, k / cols, k % cols))
    {
      ClipTiles(x, y, w, h, cols - 1);
    }

    /** `clip_rect` with the last row taking the remaining height. */
    method ClipRectIntended(x: int, y: int, w: int, h: int)
      requires rows > 0 && cols > 0 && rasterizers.Length == rows * cols
      modifies rasterizers
      ensures forall k | 0 <= k < rasterizers.Length ::
                rasterizers[k] == old(rasterizers[k]).(clip := TileRectIntended(x, y, w, h, rows, cols, k / cols, k % cols))
    {
      ClipTiles(x, y, w, h, rows - 1);
    }

    /** The loop every draw call runs: sub-rasterizer i receives `call`, for i = 0 .. size - 1. */
    method ForwardToAll(call: DrawCall)
      modifies this, rasterizers
      ensures forall i | 0 <= i < rasterizers.Length ::
                rasterizers[i] == old(rasterizers[i]).(draws := old(rasterizers[i]).draws + [call])
      ensures forwarded == old(forwarded) + Fanout(rasterizers.Length, call)
      ensures threadCount == old(threadCount)
    {
      var i := 0;
      while i < rasterizers.Length
        invariant 0 <= i <= rasterizers.Length
        invariant forall j | 0 <= j < i :: rasterizers[j] == old(rasterizers[j]).(draws := old(rasterizers[j]).draws + [call])
        invariant forall j | i <= j < rasterizers.Length :: rasterizers[j] == old(rasterizers[j])
        invariant forwarded == old(forwarded) + Fanout(i, call)
        invariant threadCount == old(threadCount)
      {
        rasterizers[i] := rasterizers[i].(draws := rasterizers[i].draws + [call]);
        forwarded := forwarded + [Forwarded(i, call)];
        assert Fanout(i + 1, call) == Fanout(i, call) + [Forwarded(i, call)];
        i := i + 1;
      }
    }

    method DrawTriangle(v1: Vertex, v2: Vertex, v3: Vertex)
      modifies this, rasterizers
      ensures forall i | 0 <= i < rasterizers.Length ::
                rasterizers[i] == old(rasterizers[i]).(draws := old(rasterizers[i]).draws + [TriangleCall(v1, v2, v3)])
      ensures forwarded == old(forwarded) + Fanout(rasterizers.Length, TriangleCall(v1, v2, v3))
      ensures threadCount == old(threadCount)
    {
      ForwardToAll(TriangleCall(v1, v2, v3));
    }

    method DrawLine(v1: Vertex, v2: Vertex)
      modifies this, rasterizers
      ensures forall i | 0 <= i < rasterizers.Length ::
                rasterizers[i] == old(rasterizers[i]).(draws := old(rasterizers[i]).draws + [LineCall(v1, v2)])
      ensures forwarded == old(forwarded) + Fanout(rasterizers.Length, LineCall(v1, v2))
      ensures threadCount == old(threadCount)
    {
      ForwardToAll(LineCall(v1, v2));
    }

    method DrawPoint(v1: Vertex)
      modifies this, rasterizers
      ensures forall i | 0 <= i < rasterizers.Length ::
                rasterizers[i] == old(rasterizers[i]).(draws := old(rasterizers[i]).draws + [PointCall(v1)])
      ensures forwarded == old(forwarded) + Fanout(rasterizers.Length, PointCall(v1))
      ensures threadCount == old(threadCount)
    {
      ForwardToAll(PointCall(v1));
    }
    /**
     * `draw_triangle_list`: the same vertex and index lists go to every
     * sub-rasterizer once; the parallel loop is run in index order.
     */
    method DrawTriangleList(vertices: seq<Vertex>, indices: seq<nat>, indexCount: nat)
      modifies this, rasterizers
      ensures forall i | 0 <= i < rasterizers.Length ::
                rasterizers[i] == old(rasterizers[i]).(draws := old(rasterizers[i]).draws
                                                        + [TriangleListCall(vertices, indices, indexCount)])
      ensures forwarded == old(forwarded) + Fanout(rasterizers.Length, TriangleListCall(vertices, indices, indexCount))
      ensures threadCount == old(threadCount)
    {
      ForwardToAll(TriangleListCall(vertices, indices, indexCount));
    }

    /** `draw_line_list`, run sequentially in index order. */
    method DrawLineList(vertices: seq<Vertex>, indices: seq<nat>, indexCount: nat)
      modifies this, rasterizers
      ensures forall i | 0 <= i < rasterizers.Length ::
                rasterizers[i] == old(rasterizers[i]).(draws := old(rasterizers[i]).draws
                                                        + [LineListCall(vertices, indices, indexCount)])
      ensures forwarded == old(forwarded) + Fanout(rasterizers.Length, LineListCall(vertices, indices, indexCount))
      ensures threadCount == old(threadCount)
    {
      ForwardToAll(LineListCall(vertices, indices, indexCount));
    }

    /** `draw_point_list`, run sequentially in index order. */
    method DrawPointList(vertices: seq<Vertex>, indices: seq<nat>, indexCount: nat)
      modifies this, rasterizers
      ensures forall i | 0 <= i < rasterizers.Length ::
                rasterizers[i] == old(rasterizers[i]).(draws := old(rasterizers[i]).draws
                                                        + [PointListCall(vertices, indices, indexCount)])
      ensures forwarded == old(forwarded) + Fanout(rasterizers.Length, PointListCall(vertices, indices, indexCount))
      ensures threadCount == old(threadCount)
    {
      ForwardToAll(PointListCall(vertices, indices, indexCount));
    }
  }
}
