/**
 * Terminal-cell rectangles and the rectangle algebra the output writer uses to work out
 * which cells a cancelled or replaced image left behind.
 */
module Rects {
  import opened Bytes

  /** A rectangle of terminal cells: column, row, width and height, each a `u16`. */
  datatype Rect = Rect(x: u16, y: u16, width: u16, height: u16) {
    function Right(): int { x + width }
    function Bottom(): int { y + height }
    function Area(): nat { width * height }
    predicate IsEmpty() { width == 0 || height == 0 }

    /** Whether cell (`px`, `py`) belongs to the rectangle. */
    predicate Contains(px: int, py: int) {
      x <= px < Right() && y <= py < Bottom()
    }
  }

  /** The right and bottom edges are representable as `u16`, as the writer's casts require. */
  predicate Fits(r: Rect) {
    r.Right() <= U16_MAX && r.Bottom() <= U16_MAX
  }

  /** `a` lies within `b`, edges included. */
  predicate Inside(a: Rect, b: Rect) {
    b.x <= a.x && a.Right() <= b.Right() && b.y <= a.y && a.Bottom() <= b.Bottom()
  }

  /** No cell belongs to both. */
  predicate Disjoint(a: Rect, b: Rect) {
    a.IsEmpty() || b.IsEmpty()
    || a.Right() <= b.x || b.Right() <= a.x || a.Bottom() <= b.y || b.Bottom() <= a.y
  }

  function Max(a: int, b: int): int { if a < b then b else a }
  function Min(a: int, b: int): int { if a < b then a else b }

  lemma DisjointMeansNoCommonCell(a: Rect, b: Rect)
    ensures Disjoint(a, b) <==> forall px, py :: !(a.Contains(px, py) && b.Contains(px, py))
  {
    if !Disjoint(a, b) {
      var px, py := Max(a.x, b.x), Max(a.y, b.y);
      assert a.Contains(px, py) && b.Contains(px, py);
    }
  }

  /**
   * The overlap of two rectangles, or `None` when they share no cell (rectangles that only
   * touch along an edge, or an empty one, give `None`).
   */
  function Intersection(a: Rect, b: Rect): (r: Option<Rect>)
    ensures r.None? <==> Disjoint(a, b)
    ensures r.Some? ==> !r.value.IsEmpty() && Inside(r.value, a) && Inside(r.value, b)
    ensures r.Some? ==> forall px, py :: r.value.Contains(px, py) <==> a.Contains(px, py) && b.Contains(px, py)
  {
    var x0, y0 := Max(a.x, b.x), Max(a.y, b.y);
    var x1, y1 := Min(a.Right(), b.Right()), Min(a.Bottom(), b.Bottom());
    if x1 <= x0 || y1 <= y0 then None
    else Some(Rect(x0, y0, x1 - x0, y1 - y0))
  }

  /** The two rectangles have a common cell exactly when the intersection exists. */
  lemma IntersectionIffCommonCell(a: Rect, b: Rect)
    ensures Intersection(a, b).Some? <==> exists px, py :: a.Contains(px, py) && b.Contains(px, py)
  {
    DisjointMeansNoCommonCell(a, b);
    if Intersection(a, b).Some? {
      var i := Intersection(a, b).value;
      assert i.Contains(i.x, i.y);
    }
  }

  /** The bounding box of two rectangles. */
  function Union(a: Rect, b: Rect): (r: Rect)
    requires Fits(a) && Fits(b)
    ensures Fits(r)
    ensures Inside(a, r) && Inside(b, r)
    ensures forall c: Rect :: Inside(a, c) && Inside(b, c) ==> Inside(r, c)
  {
    var x0, y0 := Min(a.x, b.x), Min(a.y, b.y);
    var x1, y1 := Max(a.Right(), b.Right()), Max(a.Bottom(), b.Bottom());
    Rect(x0, y0, x1 - x0, y1 - y0)
  }

  /** The bounding box of a rectangle with itself is the rectangle. */
  lemma UnionSelf(r: Rect)
    requires Fits(r)
    ensures Union(r, r) == r
  {
  }

  /** A rectangle that contains the other is their union. */
  lemma UnionOfContained(outer: Rect, inner: Rect)
    requires Fits(outer) && Fits(inner) && Inside(inner, outer)
    ensures Union(outer, inner) == outer && Union(inner, outer) == outer
  {
  }

  lemma UnionCommutes(a: Rect, b: Rect)
    requires Fits(a) && Fits(b)
    ensures Union(a, b) == Union(b, a)
  {
  }

  /**
   * The cells of `prev` that `next` does not cover, as at most four bands: above the overlap,
   * below it, and to its left and right within the overlap's rows. Without an overlap the
   * whole of `prev` is returned.
   */
  function Diff(prev: Rect, next: Rect): (r: seq<Rect>)
    requires Fits(prev)
    ensures |r| <= 4
    ensures forall k | 0 <= k < |r| :: Inside(r[k], prev) && Fits(r[k])
    ensures Intersection(prev, next).None? ==> r == [prev]
    ensures Intersection(prev, next).Some? ==>
      forall k | 0 <= k < |r| :: !r[k].IsEmpty() && Disjoint(r[k], next)
  {
    match Intersection(prev, next)
    case None => [prev]
    case Some(inter) =>
      Pieces(prev, inter)
  }

  /** `rect_diff` as the writer runs it: one push per band that is present. */
  method RectDiff(prev: Rect, next: Rect) returns (out: seq<Rect>)
    requires Fits(prev)
    ensures out == Diff(prev, next)
  {
    out := [];
    var inter := Intersection(prev, next);
    if inter.None? {
      out := out + [prev];
      return;
    }
    var i := inter.value;
    var top := Rect(prev.x, prev.y, prev.width, i.y - prev.y);
    var bottom := Rect(prev.x, i.Bottom(), prev.width, prev.Bottom() - i.Bottom());
    var left := Rect(prev.x, i.y, i.x - prev.x, i.height);
    var right := Rect(i.Right(), i.y, prev.Right() - i.Right(), i.height);
    if prev.y < i.y {
      out := out + [top];
    }
    assert out == Band(prev.y < i.y, top);
    if i.Bottom() < prev.Bottom() {
      out := out + [bottom];
    }
    assert out == Band(prev.y < i.y, top) + Band(i.Bottom() < prev.Bottom(), bottom);
    if prev.x < i.x {
      out := out + [left];
    }
    assert out == Band(prev.y < i.y, top) + Band(i.Bottom() < prev.Bottom(), bottom) + Band(prev.x < i.x, left);
    if i.Right() < prev.Right() {
      out := out + [right];
    }
  }

  /** The bands of `prev` around `inter`, in the order the writer erases them. */
  function Pieces(prev: Rect, inter: Rect): (r: seq<Rect>)
    requires Fits(prev) && Inside(inter, prev)
  {
    Band(prev.y < inter.y, Rect(prev.x, prev.y, prev.width, inter.y - prev.y))
    + Band(inter.Bottom() < prev.Bottom(), Rect(prev.x, inter.Bottom(), prev.width, prev.Bottom() - inter.Bottom()))
    + Band(prev.x < inter.x, Rect(prev.x, inter.y, inter.x - prev.x, inter.height))
    + Band(inter.Right() < prev.Right(), Rect(inter.Right(), inter.y, prev.Right() - inter.Right(), inter.height))
  }

  function Band(present: bool, r: Rect): seq<Rect> {
    if present then [r] else []
  }

  /** With an overlap, the pieces cover exactly the cells of `prev` outside `next`. */
  lemma DiffCovers(prev: Rect, next: Rect, px: int, py: int)
    requires Fits(prev)
    ensures Intersection(prev, next).Some? ==>
      ((exists k | 0 <= k < |Diff(prev, next)| :: Diff(prev, next)[k].Contains(px, py))
       <==> prev.Contains(px, py) && !next.Contains(px, py))
  {
    if Intersection(prev, next).Some? {
      var inter := Intersection(prev, next).value;
      var r := Diff(prev, next);
      forall k | 0 <= k < |r| && r[k].Contains(px, py)
        ensures prev.Contains(px, py) && !next.Contains(px, py)
      {
        DisjointMeansNoCommonCell(r[k], next);
      }
      if prev.Contains(px, py) && !next.Contains(px, py) {
        assert !inter.Contains(px, py);
        var k := DiffPieceOf(prev, next, px, py);
      }
    }
  }

  /** The index of the piece that holds an uncovered cell of `prev`. */
  lemma DiffPieceOf(prev: Rect, next: Rect, px: int, py: int) returns (k: nat)
    requires Fits(prev) && Intersection(prev, next).Some?
    requires prev.Contains(px, py) && !next.Contains(px, py)
    ensures k < |Diff(prev, next)| && Diff(prev, next)[k].Contains(px, py)
  {
    var inter := Intersection(prev, next).value;
    var nTop := if prev.y < inter.y then 1 else 0;
    var nBottom := if inter.Bottom() < prev.Bottom() then 1 else 0;
    var nLeft := if prev.x < inter.x then 1 else 0;
    if py < inter.y {
      k := 0;
    } else if inter.Bottom() <= py {
      k := nTop;
    } else if px < inter.x {
      k := nTop + nBottom;
    } else {
      assert inter.Right() <= px;
      k := nTop + nBottom + nLeft;
    }
  }

  /** No cell is in two pieces. */
  lemma DiffPiecesDisjoint(prev: Rect, next: Rect)
    requires Fits(prev)
    ensures forall i, j | 0 <= i < j < |Diff(prev, next)| :: Disjoint(Diff(prev, next)[i], Diff(prev, next)[j])
  {
  }

  /** The pieces' areas add up to the area of `prev` less the area of the overlap. */
  lemma DiffArea(prev: Rect, next: Rect)
    requires Fits(prev)
    ensures var inter := Intersection(prev, next);
      TotalArea(Diff(prev, next)) == prev.Area() - (if inter.Some? then inter.value.Area() else 0)
  {
    match Intersection(prev, next)
    case None =>
      assert TotalArea([prev]) == prev.Area() + TotalArea([]);
    case Some(inter) =>
      PiecesArea(prev, inter);
  }

  lemma PiecesArea(prev: Rect, inter: Rect)
    requires Fits(prev) && Inside(inter, prev)
    ensures TotalArea(Pieces(prev, inter)) == prev.Area() - inter.Area()
  {
    var tH := inter.y - prev.y;
    var bH := prev.Bottom() - inter.Bottom();
    var lW := inter.x - prev.x;
    var rW := prev.Right() - inter.Right();
    var top := Band(prev.y < inter.y, Rect(prev.x, prev.y, prev.width, tH));
    var bottom := Band(inter.Bottom() < prev.Bottom(), Rect(prev.x, inter.Bottom(), prev.width, bH));
    var left := Band(prev.x < inter.x, Rect(prev.x, inter.y, lW, inter.height));
    var right := Band(inter.Right() < prev.Right(), Rect(inter.Right(), inter.y, rW, inter.height));
    TotalAreaAppend(top, bottom);
    TotalAreaAppend(top + bottom, left);
    TotalAreaAppend(top + bottom + left, right);
    BandArea(prev.y < inter.y, prev.width, tH, Rect(prev.x, prev.y, prev.width, tH));
    BandArea(inter.Bottom() < prev.Bottom(), prev.width, bH, Rect(prev.x, inter.Bottom(), prev.width, bH));
    BandArea(prev.x < inter.x, lW, inter.height, Rect(prev.x, inter.y, lW, inter.height));
    BandArea(inter.Right() < prev.Right(), rW, inter.height, Rect(inter.Right(), inter.y, rW, inter.height));
    AreaIdentity(prev.width, prev.height, inter.width, inter.height, tH, bH, lW, rW);
  }

  lemma BandArea(present: bool, w: int, h: int, r: Rect)
    requires r.width == w && r.height == h
    requires !present ==> w == 0 || h == 0
    ensures TotalArea(Band(present, r)) == w * h
  {
    if present {
      assert TotalArea([r]) == r.Area() + TotalArea([]);
    }
  }

  lemma AreaIdentity(w: int, h: int, iw: int, ih: int, tH: int, bH: int, lW: int, rW: int)
    requires h == tH + ih + bH && w == lW + iw + rW
    ensures w * h - iw * ih == w * tH + w * bH + lW * ih + rW * ih
  {
    assert w * h == w * tH + w * ih + w * bH;
    assert w * ih == lW * ih + iw * ih + rW * ih;
  }

  function TotalArea(rs: seq<Rect>): nat {
    if rs == [] then 0 else rs[0].Area() + TotalArea(rs[1..])
  }

  lemma {:induction false} TotalAreaAppend(a: seq<Rect>, b: seq<Rect>)
    ensures TotalArea(a + b) == TotalArea(a) + TotalArea(b)
  {
    if a == [] {
      assert a + b == b;
    } else {
      assert (a + b)[1..] == a[1..] + b;
      TotalAreaAppend(a[1..], b);
    }
  }

  /** Replacing a rectangle by itself leaves nothing behind. */
  lemma DiffIdentical(r: Rect)
    requires Fits(r) && !r.IsEmpty()
    ensures Diff(r, r) == []
  {
  }

  /**
   * The cells of the previously dirty area that the next image will not paint over; no
   * dirty area means nothing to clean up.
   */
  function CleanupRects(area: Rect, dirty: Option<Rect>): (r: seq<Rect>)
    requires dirty.Some? ==> Fits(dirty.value)
    ensures dirty.None? ==> r == []
    ensures dirty.Some? ==> forall k | 0 <= k < |r| :: Inside(r[k], dirty.value) && Fits(r[k])
  {
    match dirty
    case None => []
    case Some(d) => Diff(d, area)
  }

  // ------------------------------------------------------------ tile grid

  /**
   * The first cell of tile `i` of `n` along an extent of `total` cells. The tile compositor
   * and the tile cursor overlay use this same formula.
   */
  function TileEdge(i: nat, n: nat, total: nat): (r: nat)
    requires 0 < n && i <= n
    ensures r <= total
    ensures i == 0 ==> r == 0
    ensures i == n ==> r == total
  {
    TileEdgeBounds(i, n, total);
    i * total / n
  }

  lemma TileEdgeBounds(i: nat, n: nat, total: nat)
    requires 0 < n && i <= n
    ensures i * total / n <= total
    ensures i == n ==> i * total / n == total
  {
    MulMonotone(i, n, total);
    DivMonotone(i * total, n * total, n);
    MulDivCancel(n, total);
  }

  lemma MulNonneg(n: int, k: int)
    requires 0 <= n && 0 <= k
    ensures 0 <= n * k
  {
  }

  lemma MulDivCancel(n: nat, t: nat)
    requires 0 < n
    ensures n * t / n == t
  {
    var q, r := n * t / n, n * t % n;
    assert n * t == n * q + r;
    assert n * (t - q - 1) == r - n;
    assert n * (q - t - 1) == -r - n;
    if t - q - 1 >= 0 {
      MulNonneg(n, t - q - 1);
      assert false;
    }
    if q - t - 1 >= 0 {
      MulNonneg(n, q - t - 1);
      assert false;
    }
  }

  /** Tile edges never go backwards, so consecutive tiles partition the extent. */
  lemma TileEdgeMonotone(i: nat, j: nat, n: nat, total: nat)
    requires 0 < n && i <= j <= n
    ensures TileEdge(i, n, total) <= TileEdge(j, n, total)
  {
    MulMonotone(i, j, total);
    DivMonotone(i * total, j * total, n);
  }

  lemma MulMonotone(i: nat, j: nat, t: nat)
    requires i <= j
    ensures i * t <= j * t
  {
    assert j * t == i * t + (j - i) * t;
  }

  lemma DivMonotone(a: nat, b: nat, n: nat)
    requires 0 < n && a <= b
    ensures a / n <= b / n
  {
    var qa, qb := a / n, b / n;
    assert a == n * qa + a % n;
    assert b == n * qb + b % n;
    assert n * (qa - qb - 1) < 0;
    if qa - qb - 1 >= 0 {
      MulNonneg(n, qa - qb - 1);
      assert false;
    }
  }

  /** The row of an index inside a `cols` x `rows` grid is one of its rows. */
  lemma DivBelow(idx: nat, cols: nat, rows: nat)
    requires 0 < cols && idx < cols * rows
    ensures idx / cols < rows
  {
    var q := idx / cols;
    assert q * cols <= idx;
    if q >= rows {
      MulMonotone(rows, q, cols);
      assert false;
    }
  }

  /** Division with remainder determines both: quotient and remainder are unique. */
  lemma DivModUnique(a: int, n: int, q: int, m: int)
    requires 0 <= m < n && a == q * n + m
    ensures a / n == q && a % n == m
  {
    var q2, m2 := a / n, a % n;
    assert a == q2 * n + m2;
    assert (q - q2) * n == m2 - m;
    if q - q2 >= 1 {
      MulMonotone(1, q - q2, n);
      assert false;
    }
    if q2 - q >= 1 {
      MulMonotone(1, q2 - q, n);
      assert false;
    }
  }

  /** Tile `i` of `n` along an extent of `total` cells starting at `origin`: first cell and end. */
  function TileSpan(origin: nat, i: nat, n: nat, total: nat): (r: (nat, nat))
    requires i < n
    ensures origin <= r.0 <= r.1 <= origin + total
  {
    TileEdgeMonotone(i, i + 1, n, total);
    (origin + TileEdge(i, n, total), origin + TileEdge(i + 1, n, total))
  }

  /** The next index in the same grid row is the next column of that row. */
  lemma NextInRow(idx: nat, cols: nat, rows: nat)
    requires 0 < cols && idx < cols * rows && idx % cols < cols - 1
    ensures (idx + 1) % cols == idx % cols + 1 && (idx + 1) / cols == idx / cols
    ensures idx + 1 < cols * rows
  {
    var q, m := idx / cols, idx % cols;
    assert idx + 1 == q * cols + (m + 1);
    DivModUnique(idx + 1, cols, q, m + 1);
    DivBelow(idx, cols, rows);
    MulMonotone(q + 1, rows, cols);
  }

  /** The index one row further down is in the same column of the next row. */
  lemma NextInColumn(idx: nat, cols: nat, rows: nat)
    requires 0 < cols && idx + cols < cols * rows
    ensures (idx + cols) % cols == idx % cols && (idx + cols) / cols == idx / cols + 1
    ensures idx / cols + 1 < rows
  {
    var q, m := idx / cols, idx % cols;
    assert idx + cols == (q + 1) * cols + m;
    DivModUnique(idx + cols, cols, q + 1, m);
    DivBelow(idx + cols, cols, rows);
  }

  /** A grid with an index in it has at least one column and one row. */
  lemma GridNonEmpty(idx: nat, cols: nat, rows: nat)
    requires idx < cols * rows
    ensures 0 < cols && 0 < rows
  {
    assert cols == 0 || rows == 0 ==> cols * rows == 0;
  }

  /** The column and row of index `idx` in a row-major `cols` x `rows` grid. */
  function GridCell(idx: nat, cols: nat, rows: nat): (r: (nat, nat))
    requires idx < cols * rows
    ensures 0 < cols && r.0 < cols && r.1 < rows
    ensures r == (idx % cols, idx / cols)
  {
    GridNonEmpty(idx, cols, rows);
    DivBelow(idx, cols, rows);
    (idx % cols, idx / cols)
  }
}
