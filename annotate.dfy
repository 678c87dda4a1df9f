/** The debug annotation of compute/glyph/annotate.rs: the outline of every
    glyph cell is drawn in red, in place, into a frame. The frame is an
    `array2` indexed `[x, y]`, `Length0` its width and `Length1` its height,
    as `RgbImage::put_pixel(x, y, _)` addresses it. */
module Annotate {
  import opened Glyph

  /** The clamped corners of an outline, inclusive on both ends. */
  datatype Box = Box(x0: nat, y0: nat, x1: nat, y1: nat)

  /** `v.clamp(0, n - 1)` on `u32`: nothing is below 0. */
  function ClampTo(v: nat, n: nat): (c: nat)
    requires n >= 1
    ensures c < n && c <= v
    ensures c == v || c == n - 1
  {
    Min(v, n - 1)
  }

  /** The corners `draw_rect_outline` computes. `img_w - 1`, `img_h - 1`
      and `rect.x + rect.width - 1`, `rect.y + rect.height - 1` are `u32`
      subtractions, so a non-empty image and a far corner that does not
      underflow are what the caller must supply. */
  function Corners(w: nat, h: nat, r: Rect): (b: Box)
    requires w >= 1 && h >= 1
    requires r.x + r.width >= 1 && r.y + r.height >= 1
    ensures b.x0 < w && b.x1 < w && b.y0 < h && b.y1 < h
    ensures b.x0 <= r.x && b.y0 <= r.y && b.x1 <= r.x + r.width - 1 && b.y1 <= r.y + r.height - 1
  {
    Box(ClampTo(r.x, w), ClampTo(r.y, h), ClampTo(r.x + r.width - 1, w), ClampTo(r.y + r.height - 1, h))
  }

  /** A pixel on the top or bottom row or on the left or right column of a
      box. */
  predicate OnBorder(b: Box, x: nat, y: nat) {
    || (b.x0 <= x <= b.x1 && (y == b.y0 || y == b.y1))
    || (b.y0 <= y <= b.y1 && (x == b.x0 || x == b.x1))
  }

  /** The pixels `draw_rect_outline` sets: none when the clamped box is
      empty (the early return), else its border. */
  predicate Drawn(w: nat, h: nat, r: Rect, x: nat, y: nat)
    requires w >= 1 && h >= 1
    requires r.x + r.width >= 1 && r.y + r.height >= 1
  {
    var b := Corners(w, h, r);
    b.x0 <= b.x1 && b.y0 <= b.y1 && OnBorder(b, x, y)
  }

  /** Clamping is monotone, so a rectangle at least one pixel wide and
      high never takes the early return. */
  lemma NoEarlyReturn(w: nat, h: nat, r: Rect)
    requires w >= 1 && h >= 1 && r.width >= 1 && r.height >= 1
    ensures var b := Corners(w, h, r); b.x0 <= b.x1 && b.y0 <= b.y1
  {
  }

  /** A zero-wide rectangle that starts inside the image takes the early
      return: its far corner lies left of its near one. */
  lemma ZeroWidthDrawsNothing(w: nat, h: nat, r: Rect, x: nat, y: nat)
    requires w >= 1 && h >= 1 && r.x >= 1 && r.y + r.height >= 1
    requires r.width == 0 && r.x < w
    ensures Corners(w, h, r).x1 < Corners(w, h, r).x0
    ensures !Drawn(w, h, r, x, y)
  {
  }

  /** Inside the image the clamps do nothing and the outline is exactly the
      rectangle's border: its first and last row over its width and its
      first and last column over its height. */
  lemma OutlineOfInsideRect(w: nat, h: nat, r: Rect, x: nat, y: nat)
    requires w >= 1 && h >= 1 && r.width >= 1 && r.height >= 1
    requires r.x + r.width <= w && r.y + r.height <= h
    ensures Drawn(w, h, r, x, y) <==>
      || (r.x <= x < r.x + r.width && (y == r.y || y == r.y + r.height - 1))
      || (r.y <= y < r.y + r.height && (x == r.x || x == r.x + r.width - 1))
  {
    var b := Corners(w, h, r);
    assert b == Box(r.x, r.y, r.x + r.width - 1, r.y + r.height - 1);
  }

  /** Whatever the rectangle, only pixels of the image are drawn, on the
      clamped corners' rows and columns. */
  lemma DrawnInsideBox(w: nat, h: nat, r: Rect, x: nat, y: nat)
    requires w >= 1 && h >= 1 && r.x + r.width >= 1 && r.y + r.height >= 1
    requires Drawn(w, h, r, x, y)
    ensures x < w && y < h
    ensures var b := Corners(w, h, r); b.x0 <= x <= b.x1 && b.y0 <= y <= b.y1
  {
  }

  /** `draw_rect_outline`: the two horizontal edges, then the two vertical
      ones; every pixel the outline does not cover keeps its colour. */
  method DrawRectOutline(img: array2<Rgb>, rect: Rect, color: Rgb)
    requires img.Length0 >= 1 && img.Length1 >= 1
    requires rect.x + rect.width >= 1 && rect.y + rect.height >= 1
    modifies img
    ensures forall x, y | 0 <= x < img.Length0 && 0 <= y < img.Length1 ::
      img[x, y] == if Drawn(img.Length0, img.Length1, rect, x, y) then color else old(img[x, y])
  {
    var b := Corners(img.Length0, img.Length1, rect);
    if b.x0 > b.x1 || b.y0 > b.y1 {
      return;
    }
    for x := b.x0 to b.x1 + 1
      invariant forall i, j | 0 <= i < img.Length0 && 0 <= j < img.Length1 ::
        img[i, j] == if b.x0 <= i < x && (j == b.y0 || j == b.y1) then color else old(img[i, j])
    {
      img[x, b.y0] := color;
      img[x, b.y1] := color;
    }
    for y := b.y0 to b.y1 + 1
      invariant forall i, j | 0 <= i < img.Length0 && 0 <= j < img.Length1 ::
        img[i, j] == if (b.x0 <= i <= b.x1 && (j == b.y0 || j == b.y1)) || (b.y0 <= j < y && (i == b.x0 || i == b.x1))
                     then color else old(img[i, j])
    {
      img[b.x0, y] := color;
      img[b.x1, y] := color;
    }
  }

  /** `OUTLINE_COLOR`. */
  const OutlineColor: Rgb := Rgb(255, 0, 0)

  /** A row whose cells can be outlined without a `u32` underflow. */
  predicate Drawable(row: GlyphRow) {
    row.columns == 0 || (row.right + row.width >= 1 && row.top + row.height >= 1)
  }

  lemma CellDrawable(row: GlyphRow, col: nat)
    requires Drawable(row) && col < row.columns
    ensures CellRect(row, col).x + CellRect(row, col).width >= 1
    ensures CellRect(row, col).y + CellRect(row, col).height >= 1
  {
    assert CellRect(row, col).x >= row.right;
  }

  /** The pixels outlined for the first `cols` cells of a row. */
  predicate InRow(w: nat, h: nat, row: GlyphRow, cols: nat, x: nat, y: nat)
    requires w >= 1 && h >= 1 && Drawable(row) && cols <= row.columns
    decreases cols
  {
    cols > 0 && (InRow(w, h, row, cols - 1, x, y) || (CellDrawable(row, cols - 1); Drawn(w, h, CellRect(row, cols - 1), x, y)))
  }

  /** The pixels outlined for every cell of every row. */
  predicate InRows(w: nat, h: nat, rows: seq<GlyphRow>, x: nat, y: nat)
    requires w >= 1 && h >= 1 && forall ri :: 0 <= ri < |rows| ==> Drawable(rows[ri])
    decreases |rows|
  {
    var n := |rows| - 1;
    rows != [] && (InRows(w, h, rows[..n], x, y) || InRow(w, h, rows[n], rows[n].columns, x, y))
  }

  predicate CellDrawableAt(row: GlyphRow, col: nat) {
    CellRect(row, col).x + CellRect(row, col).width >= 1 && CellRect(row, col).y + CellRect(row, col).height >= 1
  }

  /** Cell `col` of `row` exists and its outline covers `(x, y)`. */
  predicate CellDraws(w: nat, h: nat, row: GlyphRow, col: nat, x: nat, y: nat)
    requires w >= 1 && h >= 1
  {
    col < row.columns && CellDrawableAt(row, col) && Drawn(w, h, CellRect(row, col), x, y)
  }

  /** A pixel is outlined for the first `cols` cells of a row exactly when
      one of them draws it. */
  lemma {:induction false} InRowIff(w: nat, h: nat, row: GlyphRow, cols: nat, x: nat, y: nat)
    requires w >= 1 && h >= 1 && Drawable(row) && cols <= row.columns
    ensures InRow(w, h, row, cols, x, y) <==> exists col: nat :: col < cols && CellDraws(w, h, row, col, x, y)
    decreases cols
  {
    if cols > 0 {
      InRowIff(w, h, row, cols - 1, x, y);
      CellDrawable(row, cols - 1);
      if Drawn(w, h, CellRect(row, cols - 1), x, y) {
        assert CellDraws(w, h, row, cols - 1, x, y);
      }
    }
  }

  /** A pixel ends up red exactly when the outline of some cell of some row
      draws it. */
  lemma {:induction false} InRowsIff(w: nat, h: nat, rows: seq<GlyphRow>, x: nat, y: nat)
    requires w >= 1 && h >= 1 && forall ri :: 0 <= ri < |rows| ==> Drawable(rows[ri])
    ensures InRows(w, h, rows, x, y) <==> exists ri, col: nat :: 0 <= ri < |rows| && CellDraws(w, h, rows[ri], col, x, y)
    decreases |rows|
  {
    if rows != [] {
      var n := |rows| - 1;
      var front := rows[..n];
      InRowsIff(w, h, front, x, y);
      InRowIff(w, h, rows[n], rows[n].columns, x, y);
      if InRows(w, h, front, x, y) {
        var ri, col: nat :| 0 <= ri < n && CellDraws(w, h, front[ri], col, x, y);
        assert front[ri] == rows[ri];
      }
      if exists ri, col: nat :: 0 <= ri < |rows| && CellDraws(w, h, rows[ri], col, x, y) {
        var ri, col: nat :| 0 <= ri < |rows| && CellDraws(w, h, rows[ri], col, x, y);
        if ri < n {
          assert front[ri] == rows[ri];
        }
      }
    }
  }

  lemma InRowsStep(w: nat, h: nat, rows: seq<GlyphRow>, ri: nat)
    requires w >= 1 && h >= 1 && forall k :: 0 <= k < |rows| ==> Drawable(rows[k])
    requires ri < |rows|
    ensures forall x: nat, y: nat ::
      InRows(w, h, rows[..ri + 1], x, y) == (InRows(w, h, rows[..ri], x, y) || InRow(w, h, rows[ri], rows[ri].columns, x, y))
  {
    assert rows[..ri + 1][..ri] == rows[..ri];
  }

  /** `annotate_image`: the outline of every cell of every glyph row, in
      red; the pixels no outline covers keep their colour. */
  method AnnotateImage(img: array2<Rgb>, rows: seq<GlyphRow>)
    requires img.Length0 >= 1 && img.Length1 >= 1
    requires forall ri :: 0 <= ri < |rows| ==> Drawable(rows[ri])
    modifies img
    ensures forall x, y | 0 <= x < img.Length0 && 0 <= y < img.Length1 ::
      img[x, y] == if InRows(img.Length0, img.Length1, rows, x, y) then OutlineColor else old(img[x, y])
  {
    var w, h := img.Length0, img.Length1;
    for ri := 0 to |rows|
      invariant forall i, j | 0 <= i < w && 0 <= j < h ::
        img[i, j] == if InRows(w, h, rows[..ri], i, j) then OutlineColor else old(img[i, j])
    {
      var row := rows[ri];
      for col := 0 to row.columns
        invariant forall i, j | 0 <= i < w && 0 <= j < h ::
          img[i, j] == if InRows(w, h, rows[..ri], i, j) || InRow(w, h, row, col, i, j) then OutlineColor else old(img[i, j])
      {
        CellDrawable(row, col);
        DrawRectOutline(img, CellRect(row, col), OutlineColor);
      }
      InRowsStep(w, h, rows, ri);
    }
    assert rows[..|rows|] == rows;
  }
}
