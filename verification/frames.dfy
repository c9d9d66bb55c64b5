/** Frames as row-major pixel grids and the two rectangle operations the
    monitoring loop performs on them: slicing a region of interest out of a
    frame, and writing a same-sized image back into that region.

    A frame is a sequence of rows; `f[row][col]` is one pixel. The pixel type
    is left abstract: nothing here depends on channels or depth. A rectangle
    `Rect(x, y, w, h)` covers rows `y .. y+h` and columns `x .. x+w`, the
    half-open ranges of a NumPy slice `frame[y:y+h, x:x+w]`. */
module Frames {

  type Frame<P> = seq<seq<P>>

  datatype Rect = Rect(x: int, y: int, w: int, h: int)

  /** `f` has exactly `rows` rows, each exactly `cols` pixels wide. */
  ghost predicate IsGrid<P>(f: Frame<P>, rows: int, cols: int) {
    |f| == rows && forall i :: 0 <= i < |f| ==> |f[i]| == cols
  }

  /** Pixel (row, col) lies inside `r`. */
  predicate InRect(r: Rect, row: int, col: int) {
    r.y <= row < r.y + r.h && r.x <= col < r.x + r.w
  }

  /** `r` lies inside `f`: no negative origin or extent, and every row the
      rectangle spans is wide enough for its columns. (NumPy would silently
      clamp a slice that runs past the edge; the model does not allow it.) */
  ghost predicate Fits<P>(r: Rect, f: Frame<P>) {
    && 0 <= r.x && 0 <= r.y && 0 <= r.w && 0 <= r.h
    && r.y + r.h <= |f|
    && forall i :: r.y <= i < r.y + r.h ==> r.x + r.w <= |f[i]|
  }

  /** Row `i` of the sub-image: row `r.y + i` of the frame, columns
      `r.x .. r.x+r.w`. */
  function ExtractRow<P>(f: Frame<P>, r: Rect, i: int): (row: seq<P>)
    requires Fits(r, f) && 0 <= i < r.h
    ensures |row| == r.w
    ensures forall j {:trigger row[j]} :: 0 <= j < r.w ==> row[j] == f[r.y + i][r.x + j]
  {
    seq(r.w, j requires 0 <= j < r.w => f[r.y + i][r.x + j])
  }

  /** The sub-image `f[r.y : r.y+r.h, r.x : r.x+r.w]`. */
  function Extract<P>(f: Frame<P>, r: Rect): (sub: Frame<P>)
    requires Fits(r, f)
    ensures IsGrid(sub, r.h, r.w)
    ensures forall i, j {:trigger sub[i][j]} :: 0 <= i < r.h && 0 <= j < r.w ==>
              sub[i][j] == f[r.y + i][r.x + j]
  {
    seq(r.h, i requires 0 <= i < r.h => ExtractRow(f, r, i))
  }

  /** Row `i` of a composite: the frame's row with the rectangle's columns
      taken from the sub-image when the row lies inside the rectangle. */
  function CompositeRow<P>(f: Frame<P>, sub: Frame<P>, r: Rect, i: int): (row: seq<P>)
    requires Fits(r, f) && IsGrid(sub, r.h, r.w) && 0 <= i < |f|
    ensures |row| == |f[i]|
    ensures forall j {:trigger row[j]} :: 0 <= j < |f[i]| ==>
              row[j] == if InRect(r, i, j) then sub[i - r.y][j - r.x] else f[i][j]
  {
    seq(|f[i]|, j requires 0 <= j < |f[i]| =>
      if InRect(r, i, j) then sub[i - r.y][j - r.x] else f[i][j])
  }

  /** The assignment `f[r.y : r.y+r.h, r.x : r.x+r.w] = sub`, as a new frame. */
  function Composite<P>(f: Frame<P>, sub: Frame<P>, r: Rect): (g: Frame<P>)
    requires Fits(r, f) && IsGrid(sub, r.h, r.w)
    ensures |g| == |f| && forall i :: 0 <= i < |f| ==> |g[i]| == |f[i]|
    ensures forall i, j {:trigger g[i][j]} :: 0 <= i < |f| && 0 <= j < |f[i]| ==>
              g[i][j] == if InRect(r, i, j) then sub[i - r.y][j - r.x] else f[i][j]
  {
    seq(|f|, i requires 0 <= i < |f| => CompositeRow(f, sub, r, i))
  }

  /** Pixels outside the rectangle are the same in `f` and `g`. */
  ghost predicate SameOutside<P>(f: Frame<P>, g: Frame<P>, r: Rect) {
    && |g| == |f|
    && (forall i :: 0 <= i < |f| ==> |g[i]| == |f[i]|)
    && forall i, j :: 0 <= i < |f| && 0 <= j < |f[i]| && !InRect(r, i, j) ==> g[i][j] == f[i][j]
  }

  /** Writing a sub-image back touches nothing outside the rectangle. */
  lemma CompositeChangesOnlyRect<P>(f: Frame<P>, sub: Frame<P>, r: Rect)
    requires Fits(r, f) && IsGrid(sub, r.h, r.w)
    ensures SameOutside(f, Composite(f, sub, r), r)
  {
  }

  /** Two frames with the same shape and the same pixels are the same frame. */
  lemma PixelwiseEqual<P>(a: Frame<P>, b: Frame<P>)
    requires |a| == |b| && forall i :: 0 <= i < |a| ==> |a[i]| == |b[i]|
    requires forall i, j :: 0 <= i < |a| && 0 <= j < |a[i]| ==> a[i][j] == b[i][j]
    ensures a == b
  {
    forall i | 0 <= i < |a|
      ensures a[i] == b[i]
    {
      assert |a[i]| == |b[i]|;
    }
  }

  /** Writing back the unmodified region reproduces the frame exactly. */
  lemma CompositeOfExtractIsIdentity<P>(f: Frame<P>, r: Rect)
    requires Fits(r, f)
    ensures Composite(f, Extract(f, r), r) == f
  {
    var e := Extract(f, r);
    var g := Composite(f, e, r);
    forall i, j | 0 <= i < |f| && 0 <= j < |f[i]|
      ensures g[i][j] == f[i][j]
    {
      if InRect(r, i, j) {
        assert e[i - r.y][j - r.x] == f[i][j];
      }
    }
    PixelwiseEqual(g, f);
  }

  /** Reading the region back after a write returns exactly what was written. */
  lemma ExtractOfCompositeIsPatch<P>(f: Frame<P>, sub: Frame<P>, r: Rect)
    requires Fits(r, f) && IsGrid(sub, r.h, r.w)
    ensures Fits(r, Composite(f, sub, r))
    ensures Extract(Composite(f, sub, r), r) == sub
  {
    var g := Composite(f, sub, r);
    var e := Extract(g, r);
    forall i, j | 0 <= i < |e| && 0 <= j < |e[i]|
      ensures e[i][j] == sub[i][j]
    {
      assert e[i][j] == g[r.y + i][r.x + j];
      assert InRect(r, r.y + i, r.x + j);
    }
    PixelwiseEqual(e, sub);
  }

  /** Two writes into the same rectangle: the second one wins entirely. */
  lemma CompositeLastWriteWins<P>(f: Frame<P>, a: Frame<P>, b: Frame<P>, r: Rect)
    requires Fits(r, f) && IsGrid(a, r.h, r.w) && IsGrid(b, r.h, r.w)
    ensures Fits(r, Composite(f, a, r))
    ensures Composite(Composite(f, a, r), b, r) == Composite(f, b, r)
  {
    var g1 := Composite(Composite(f, a, r), b, r);
    var g2 := Composite(f, b, r);
    PixelwiseEqual(g1, g2);
  }
}
