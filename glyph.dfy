/** The glyph matcher of compute/glyph.rs: frames are cut into fixed-pitch
    cells, each cell is reduced to a black and white mask, masks are scored
    against a reference alphabet, and the two scraped strings are parsed as
    a latitude and a longitude. */
module Glyph {
  import opened Wrappers
  import opened Digits

  type Byte = b: int | 0 <= b < 256

  datatype Rgb = Rgb(r: Byte, g: Byte, b: Byte)

  /** An RGB image as rows of pixels, top to bottom. */
  datatype RgbImage = RgbImage(width: nat, height: nat, rows: seq<seq<Rgb>>)

  /** A one-channel image as rows of pixels. */
  datatype GrayImage = GrayImage(width: nat, height: nat, rows: seq<seq<Byte>>)

  ghost predicate WellFormed(img: RgbImage) {
    |img.rows| == img.height && forall y :: 0 <= y < |img.rows| ==> |img.rows[y]| == img.width
  }

  ghost predicate GrayWellFormed(img: GrayImage) {
    |img.rows| == img.height && forall y :: 0 <= y < |img.rows| ==> |img.rows[y]| == img.width
  }

  datatype GlyphMask = GlyphMask(bmp: GrayImage)

  //
  // GlyphMask::from
  //

  const WHITE_AVG_MIN: nat := 220
  const WHITE_MAX_CHROMA: nat := 30

  function Max3(a: Byte, b: Byte, c: Byte): Byte {
    if a >= b && a >= c then a else if b >= c then b else c
  }

  function Min3(a: Byte, b: Byte, c: Byte): Byte {
    if a <= b && a <= c then a else if b <= c then b else c
  }

  /** A pixel is white (255) when the truncated average of its channels is
      at least 220 and its channels differ by at most 30, else black. */
  function MaskPixel(p: Rgb): (v: Byte)
    ensures v == 255 || v == 0
    ensures v == 255 <==> (p.r as int + p.g as int + p.b as int) / 3 >= WHITE_AVG_MIN
                          && Max3(p.r, p.g, p.b) as int - Min3(p.r, p.g, p.b) as int <= WHITE_MAX_CHROMA
  {
    var avg: int := (p.r as int + p.g as int + p.b as int) / 3;
    var chroma: int := Max3(p.r, p.g, p.b) as int - Min3(p.r, p.g, p.b) as int;
    if avg >= WHITE_AVG_MIN && chroma <= WHITE_MAX_CHROMA then 255 else 0
  }

  /** A white pixel has every channel at least 200. */
  lemma WhiteIsBright(p: Rgb)
    requires MaskPixel(p) == 255
    ensures p.r >= 200 && p.g >= 200 && p.b >= 200
  {
    var mx: int := Max3(p.r, p.g, p.b);
    var mn: int := Min3(p.r, p.g, p.b);
    assert p.r as int + p.g as int + p.b as int <= mn + 2 * mx;
  }

  /** A gray pixel is white exactly when its level is at least 220. */
  lemma GrayThreshold(v: Byte)
    ensures MaskPixel(Rgb(v, v, v)) == 255 <==> v >= 220
  {
    assert (v as int + v as int + v as int) / 3 == v as int;
  }

  /** `GlyphMask::from`: the mask has the image's dimensions and each of
      its pixels is the classification of the image pixel at that place. */
  function MaskFrom(img: RgbImage): (m: GlyphMask)
    requires WellFormed(img)
    ensures m.bmp.width == img.width && m.bmp.height == img.height && GrayWellFormed(m.bmp)
    ensures forall y, x :: 0 <= y < img.height && 0 <= x < img.width ==> m.bmp.rows[y][x] == MaskPixel(img.rows[y][x])
  {
    GlyphMask(GrayImage(img.width, img.height,
      seq(img.height, y requires 0 <= y < img.height =>
        seq(img.width, x requires 0 <= x < img.width => MaskPixel(img.rows[y][x])))))
  }

  //
  // GlyphMask::score_similarity
  //

  /** The exact ratio `matched / total` that the source turns into an f64. */
  datatype Score = Score(matched: nat, total: nat)

  /** 0.0, where the search for a best score starts. */
  const Zero := Score(0, 1)

  /** `a > b` on the two quotients. A zero total divides to NaN, which
      compares false either way. */
  predicate Exceeds(a: Score, b: Score) {
    a.total > 0 && b.total > 0 && a.matched * b.total > b.matched * a.total
  }

  /** A pixel pair is worth 15 when either of them is brighter than 127. */
  function Weight(a: Byte, b: Byte): (w: nat)
    ensures w == 1 || w == 15
  {
    if a > 127 || b > 127 then 15 else 1
  }

  /** The pixels in the row-major order `pixels()` visits them. */
  function Flatten<T>(rows: seq<seq<T>>): seq<T>
    decreases |rows|
  {
    if rows == [] then [] else Flatten(rows[..|rows| - 1]) + rows[|rows| - 1]
  }

  /** The weighted tally over the first `n` pixel pairs. */
  function Tally(xs: seq<Byte>, ys: seq<Byte>, n: nat): Score
    requires n <= |xs| && n <= |ys|
    decreases n
  {
    if n == 0 then Score(0, 0)
    else
      var s := Tally(xs, ys, n - 1);
      var w := Weight(xs[n - 1], ys[n - 1]);
      Score(s.matched + (if xs[n - 1] == ys[n - 1] then w else 0), s.total + w)
  }

  function Min(a: nat, b: nat): nat {
    if a <= b then a else b
  }

  function Pixels(m: GlyphMask): seq<Byte> {
    Flatten(m.bmp.rows)
  }

  /** The score over the zipped pixel streams, which stop at the shorter
      one when the dimensions differ. */
  function Similarity(a: GlyphMask, b: GlyphMask): Score {
    Tally(Pixels(a), Pixels(b), Min(|Pixels(a)|, |Pixels(b)|))
  }

  /** `score_similarity`. */
  method ScoreSimilarity(a: GlyphMask, b: GlyphMask) returns (s: Score)
    ensures s == Similarity(a, b)
  {
    var xs := Flatten(a.bmp.rows);
    var ys := Flatten(b.bmp.rows);
    var n := if |xs| <= |ys| then |xs| else |ys|;
    var matchScore := 0;
    var totalScore := 0;
    for i := 0 to n
      invariant Tally(xs, ys, i) == Score(matchScore, totalScore)
    {
      var score := if xs[i] > 127 || ys[i] > 127 then 15 else 1;
      if xs[i] == ys[i] {
        matchScore := matchScore + score;
      }
      totalScore := totalScore + score;
    }
    s := Score(matchScore, totalScore);
  }

  /** Matches never exceed the total, which is between 1 and 15 per pixel. */
  lemma {:induction false} TallyBounds(xs: seq<Byte>, ys: seq<Byte>, n: nat)
    requires n <= |xs| && n <= |ys|
    ensures Tally(xs, ys, n).matched <= Tally(xs, ys, n).total
    ensures n <= Tally(xs, ys, n).total <= 15 * n
    decreases n
  {
    if n > 0 {
      TallyBounds(xs, ys, n - 1);
    }
  }

  /** The score does not depend on which mask comes first. */
  lemma {:induction false} TallySymmetric(xs: seq<Byte>, ys: seq<Byte>, n: nat)
    requires n <= |xs| && n <= |ys|
    ensures Tally(xs, ys, n) == Tally(ys, xs, n)
    decreases n
  {
    if n > 0 {
      TallySymmetric(xs, ys, n - 1);
    }
  }

  lemma SimilaritySymmetric(a: GlyphMask, b: GlyphMask)
    ensures Similarity(a, b) == Similarity(b, a)
  {
    TallySymmetric(Pixels(a), Pixels(b), Min(|Pixels(a)|, |Pixels(b)|));
  }

  /** A mask matches itself everywhere: a score of exactly 1 unless it has
      no pixels, where 0 / 0 is NaN. */
  lemma {:induction false} TallySelf(xs: seq<Byte>, n: nat)
    requires n <= |xs|
    ensures Tally(xs, xs, n).matched == Tally(xs, xs, n).total
    ensures n > 0 ==> Tally(xs, xs, n).total > 0
    decreases n
  {
    if n > 0 {
      TallySelf(xs, n - 1);
    }
  }

  lemma SelfSimilarity(a: GlyphMask)
    ensures Similarity(a, a).matched == Similarity(a, a).total
    ensures |Pixels(a)| > 0 ==> !Exceeds(Score(1, 1), Similarity(a, a)) && !Exceeds(Similarity(a, a), Score(1, 1))
    ensures |Pixels(a)| == 0 ==> Similarity(a, a).total == 0
  {
    TallySelf(Pixels(a), |Pixels(a)|);
  }

  /** All black against all white matches nowhere and every pair weighs 15. */
  lemma {:induction false} TallyBlackWhite(xs: seq<Byte>, ys: seq<Byte>, n: nat)
    requires n <= |xs| && n <= |ys|
    requires forall k :: 0 <= k < n ==> xs[k] == 0 && ys[k] == 255
    ensures Tally(xs, ys, n) == Score(0, 15 * n)
    decreases n
  {
    if n > 0 {
      TallyBlackWhite(xs, ys, n - 1);
    }
  }

  /** A mask whose every pixel is `v`. */
  ghost predicate Uniform(m: GlyphMask, v: Byte) {
    GrayWellFormed(m.bmp) && forall y, x :: 0 <= y < m.bmp.height && 0 <= x < m.bmp.width ==> m.bmp.rows[y][x] == v
  }

  lemma {:induction false} FlattenUniform(rows: seq<seq<Byte>>, w: nat, v: Byte)
    requires forall y :: 0 <= y < |rows| ==> |rows[y]| == w
    requires forall y, x :: 0 <= y < |rows| && 0 <= x < w ==> rows[y][x] == v
    ensures |Flatten(rows)| == |rows| * w
    ensures forall k :: 0 <= k < |Flatten(rows)| ==> Flatten(rows)[k] == v
    decreases |rows|
  {
    if rows != [] {
      var init, last := rows[..|rows| - 1], rows[|rows| - 1];
      assert forall y :: 0 <= y < |init| ==> init[y] == rows[y];
      FlattenUniform(init, w, v);
      forall k | 0 <= k < |Flatten(rows)|
        ensures Flatten(rows)[k] == v
      {
        if k >= |Flatten(init)| {
          assert Flatten(rows)[k] == last[k - |Flatten(init)|];
        }
      }
    }
  }

  /** An all-black mask against an all-white one of the same size matches
      nowhere, and every pixel pair weighs 15. */
  lemma BlackWhiteSimilarity(black: GlyphMask, white: GlyphMask)
    requires Uniform(black, 0) && Uniform(white, 255)
    requires black.bmp.width == white.bmp.width && black.bmp.height == white.bmp.height
    ensures Similarity(black, white) == Score(0, 15 * (black.bmp.width * black.bmp.height))
  {
    FlattenUniform(black.bmp.rows, black.bmp.width, 0);
    FlattenUniform(white.bmp.rows, white.bmp.width, 255);
    TallyBlackWhite(Pixels(black), Pixels(white), |Pixels(black)|);
  }

  //
  // Comparing scores
  //

  /** No two scores exceed each other. */
  lemma ExceedsAsymmetric(a: Score, b: Score)
    requires Exceeds(a, b)
    ensures !Exceeds(b, a)
  {
  }

  /** A score not above `old` is below anything above `old`, unless it is
      NaN. */
  lemma BelowNewBest(x: Score, oldBest: Score, newBest: Score)
    requires x.total > 0 && oldBest.total > 0
    requires !Exceeds(x, oldBest) && Exceeds(newBest, oldBest)
    ensures Exceeds(newBest, x)
  {
    var xm, xt := x.matched, x.total;
    var om, ot := oldBest.matched, oldBest.total;
    var nm, nt := newBest.matched, newBest.total;
    assert xm * ot <= om * xt;
    assert nm * ot > om * nt;
    MulLe(xm * ot, om * xt, nt);
    MulLt(om * nt, nm * ot, xt);
    assert xm * ot * nt <= om * xt * nt;
    assert om * nt * xt < nm * ot * xt;
    assert om * xt * nt == om * nt * xt;
    assert xm * nt * ot < nm * xt * ot by {
      assert xm * ot * nt == xm * nt * ot;
      assert nm * ot * xt == nm * xt * ot;
    }
    if nm * xt <= xm * nt {
      MulLe(nm * xt, xm * nt, ot);
    }
  }

  /** Anything above a positive score is positive. */
  lemma AbovePositive(a: Score, b: Score)
    requires Exceeds(a, b) && (b == Zero || Exceeds(b, Zero))
    ensures Exceeds(a, Zero)
  {
    if b != Zero {
      assert b.matched > 0;
      MulLt(0, b.matched, a.total);
      assert a.matched * b.total > 0;
    }
  }

  //
  // The best-match search of scrape_string (and of organize_glyphs)
  //

  /** The search over a list of scores: start at 0.0 with no candidate and
      move to each score that strictly beats the best so far. */
  function Pick(scores: seq<Score>): (r: (Option<nat>, Score))
    ensures r.0.Some? ==> r.0.value < |scores| && r.1 == scores[r.0.value]
    ensures r.0.None? ==> r.1 == Zero
    decreases |scores|
  {
    if scores == [] then (None, Zero)
    else
      var n := |scores| - 1;
      var prev := Pick(scores[..n]);
      if Exceeds(scores[n], prev.1) then (Some(n), scores[n]) else prev
  }

  /** The pick is the first score strictly above all others and above 0;
      no candidate means no score is above 0. */
  lemma {:induction false} PickIsFirstMaximum(scores: seq<Score>)
    ensures Pick(scores).0.None? <==> forall j :: 0 <= j < |scores| ==> !Exceeds(scores[j], Zero)
    ensures Pick(scores).0.Some? ==> Exceeds(Pick(scores).1, Zero)
    ensures forall j :: 0 <= j < |scores| ==> !Exceeds(scores[j], Pick(scores).1)
    ensures Pick(scores).0.Some? ==> forall j :: 0 <= j < Pick(scores).0.value ==>
              scores[j].total == 0 || Exceeds(Pick(scores).1, scores[j])
    decreases |scores|
  {
    if scores != [] {
      var n := |scores| - 1;
      var init := scores[..n];
      PickIsFirstMaximum(init);
      var prev := Pick(init);
      assert forall j :: 0 <= j < n ==> init[j] == scores[j];
      if Exceeds(scores[n], prev.1) {
        AbovePositive(scores[n], prev.1);
        forall j | 0 <= j < n ensures !Exceeds(scores[j], scores[n]) && (scores[j].total == 0 || Exceeds(scores[n], scores[j])) {
          if scores[j].total > 0 {
            BelowNewBest(scores[j], prev.1, scores[n]);
            ExceedsAsymmetric(scores[n], scores[j]);
          }
        }
        assert !Exceeds(scores[n], scores[n]);
      } else {
        if prev.0.Some? {
          assert prev.1 == scores[prev.0.value];
        }
      }
    }
  }

  /** The scores of a mask against each reference mask, in order. */
  function ScoresAgainst(g: GlyphMask, refs: seq<GlyphMask>): (s: seq<Score>)
    ensures |s| == |refs| && forall i :: 0 <= i < |refs| ==> s[i] == Similarity(g, refs[i])
  {
    seq(|refs|, i requires 0 <= i < |refs| => Similarity(g, refs[i]))
  }

  /** The inner loop of `scrape_string` and of `organize_glyphs`: the first
      reference with the strictly highest score above 0, with that score. */
  method BestMatch(g: GlyphMask, refs: seq<GlyphMask>) returns (best: Option<nat>, bestScore: Score)
    ensures (best, bestScore) == Pick(ScoresAgainst(g, refs))
  {
    best, bestScore := None, Zero;
    for i := 0 to |refs|
      invariant (best, bestScore) == Pick(ScoresAgainst(g, refs)[..i])
    {
      var score := ScoreSimilarity(g, refs[i]);
      assert ScoresAgainst(g, refs)[..i + 1][..i] == ScoresAgainst(g, refs)[..i];
      if Exceeds(score, bestScore) {
        best, bestScore := Some(i), score;
      }
    }
    assert ScoresAgainst(g, refs)[..|refs|] == ScoresAgainst(g, refs);
  }

  //
  // GlyphRow
  //

  /** A row of `columns` equal cells, the first with its left edge at
      `right`, each `width` wide, all at height `top`. */
  datatype GlyphRow = GlyphRow(top: nat, right: nat, width: nat, height: nat, columns: nat)

  datatype Rect = Rect(x: nat, y: nat, width: nat, height: nat)

  /** Cell `col` of a row. */
  function CellRect(row: GlyphRow, col: nat): (r: Rect)
    ensures r.y == row.top && r.width == row.width && r.height == row.height
  {
    Rect(row.right + col * row.width, row.top, row.width, row.height)
  }

  /** The cells lie at a fixed pitch: each starts where the previous one
      ends. */
  lemma CellsAbut(row: GlyphRow, col: nat)
    ensures CellRect(row, col + 1).x == CellRect(row, col).x + row.width
    ensures CellRect(row, 0).x == row.right
  {
  }

  /** `crop_imm(..).to_image()`: the origin is clamped into the image and
      the size to what remains of it. */
  function Crop(img: RgbImage, r: Rect): (c: RgbImage)
    requires WellFormed(img)
    ensures WellFormed(c)
    ensures c.width == Min(r.width, img.width - Min(r.x, img.width))
    ensures c.height == Min(r.height, img.height - Min(r.y, img.height))
    ensures forall j, i :: 0 <= j < c.height && 0 <= i < c.width ==>
              c.rows[j][i] == img.rows[Min(r.y, img.height) + j][Min(r.x, img.width) + i]
  {
    var x := Min(r.x, img.width);
    var y := Min(r.y, img.height);
    var h := Min(r.height, img.height - y);
    var w := Min(r.width, img.width - x);
    RgbImage(w, h, seq(h, j requires 0 <= j < h => img.rows[y + j][x..x + w]))
  }

  /** A cell wholly inside the image is cut out unclamped. */
  lemma CropInside(img: RgbImage, r: Rect)
    requires WellFormed(img) && r.x + r.width <= img.width && r.y + r.height <= img.height
    ensures Crop(img, r).width == r.width && Crop(img, r).height == r.height
    ensures forall j, i :: 0 <= j < r.height && 0 <= i < r.width ==> Crop(img, r).rows[j][i] == img.rows[r.y + j][r.x + i]
  {
  }

  /** The mask of cell `col`. */
  function CellMask(row: GlyphRow, img: RgbImage, col: nat): GlyphMask
    requires WellFormed(img)
  {
    MaskFrom(Crop(img, CellRect(row, col)))
  }

  /** `GlyphRow::glyphs`: exactly `columns` masks, cell by cell. */
  function Glyphs(row: GlyphRow, img: RgbImage): (gs: seq<GlyphMask>)
    requires WellFormed(img)
    ensures |gs| == row.columns && forall col :: 0 <= col < row.columns ==> gs[col] == CellMask(row, img, col)
  {
    seq(row.columns, col requires 0 <= col < row.columns => CellMask(row, img, col))
  }

  function Masks(chars: seq<(string, GlyphMask)>): (ms: seq<GlyphMask>)
    ensures |ms| == |chars| && forall i :: 0 <= i < |chars| ==> ms[i] == chars[i].1
  {
    seq(|chars|, i requires 0 <= i < |chars| => chars[i].1)
  }

  /** The character a mask is read as: the best match's string, or the
      empty string when no reference scores above 0. */
  function Chosen(g: GlyphMask, chars: seq<(string, GlyphMask)>): string {
    match Pick(ScoresAgainst(g, Masks(chars))).0
    case None => ""
    case Some(i) => chars[i].0
  }

  lemma ChosenIsBestMatch(g: GlyphMask, chars: seq<(string, GlyphMask)>)
    ensures Chosen(g, chars) == "" || exists i :: 0 <= i < |chars| && Chosen(g, chars) == chars[i].0
    ensures (forall i :: 0 <= i < |chars| ==> !Exceeds(Similarity(g, chars[i].1), Zero)) ==> Chosen(g, chars) == ""
    ensures forall i :: 0 <= i < |chars| && Exceeds(Similarity(g, chars[i].1), Zero)
              && (forall j :: 0 <= j < |chars| && j != i ==> Exceeds(Similarity(g, chars[i].1), Similarity(g, chars[j].1)))
              ==> Chosen(g, chars) == chars[i].0
  {
    var scores := ScoresAgainst(g, Masks(chars));
    PickIsFirstMaximum(scores);
    forall i | 0 <= i < |chars| && Exceeds(Similarity(g, chars[i].1), Zero)
              && (forall j :: 0 <= j < |chars| && j != i ==> Exceeds(Similarity(g, chars[i].1), Similarity(g, chars[j].1)))
      ensures Chosen(g, chars) == chars[i].0
    {
      var p := Pick(scores).0;
      assert p.Some?;
      var k := p.value;
      assert !Exceeds(scores[i], scores[k]);
      assert k == i;
    }
  }

  function Concat(pieces: seq<string>): string
    decreases |pieces|
  {
    if pieces == [] then [] else Concat(pieces[..|pieces| - 1]) + pieces[|pieces| - 1]
  }

  /** What `scrape_string` reads off a row: the chosen strings of its
      cells in column order. */
  function RowString(row: GlyphRow, img: RgbImage, chars: seq<(string, GlyphMask)>): string
    requires WellFormed(img)
  {
    Concat(seq(row.columns, col requires 0 <= col < row.columns => Chosen(CellMask(row, img, col), chars)))
  }

  /** `GlyphRow::scrape_string`. */
  method ScrapeString(row: GlyphRow, img: RgbImage, chars: seq<(string, GlyphMask)>) returns (s: string)
    requires WellFormed(img)
    ensures s == RowString(row, img, chars)
  {
    var glyphs := Glyphs(row, img);
    var refs := Masks(chars);
    ghost var pieces := seq(row.columns, col requires 0 <= col < row.columns => Chosen(CellMask(row, img, col), chars));
    s := "";
    for col := 0 to row.columns
      invariant s == Concat(pieces[..col])
    {
      var best, bestScore := BestMatch(glyphs[col], refs);
      var bestC := if best.Some? then chars[best.value].0 else "";
      assert bestC == pieces[col];
      assert pieces[..col + 1][..col] == pieces[..col];
      s := s + bestC;
    }
    assert pieces[..row.columns] == pieces;
  }

  lemma {:induction false} ConcatSingles(pieces: seq<string>)
    requires forall i :: 0 <= i < |pieces| ==> |pieces[i]| == 1
    ensures |Concat(pieces)| == |pieces|
    ensures forall i :: 0 <= i < |pieces| ==> Concat(pieces)[i] == pieces[i][0]
    decreases |pieces|
  {
    if pieces != [] {
      var n := |pieces| - 1;
      assert forall i :: 0 <= i < n ==> pieces[..n][i] == pieces[i];
      ConcatSingles(pieces[..n]);
    }
  }

  /** With one-character alphabet entries and every cell recognised, the
      row reads as one character per column, cell by cell. */
  lemma RowStringPerColumn(row: GlyphRow, img: RgbImage, chars: seq<(string, GlyphMask)>)
    requires WellFormed(img)
    requires forall i :: 0 <= i < |chars| ==> |chars[i].0| == 1
    requires forall col :: 0 <= col < row.columns ==> Pick(ScoresAgainst(CellMask(row, img, col), Masks(chars))).0.Some?
    ensures |RowString(row, img, chars)| == row.columns
    ensures forall col :: 0 <= col < row.columns ==> [RowString(row, img, chars)[col]] == Chosen(CellMask(row, img, col), chars)
  {
    var pieces := seq(row.columns, col requires 0 <= col < row.columns => Chosen(CellMask(row, img, col), chars));
    ConcatSingles(pieces);
    forall col | 0 <= col < row.columns ensures [RowString(row, img, chars)[col]] == pieces[col] {
      assert |pieces[col]| == 1;
    }
  }

  //
  // GlyphConfig::load_glyph_masks
  //

  /** `load_glyph_masks`: the reference masks in configuration order, each
      the luma image loaded for its entry; the first load error aborts. */
  method LoadGlyphMasks(glyphChars: seq<(string, Result<GrayImage>)>) returns (r: Result<seq<(string, GlyphMask)>>)
    ensures r == Collect(seq(|glyphChars|, i requires 0 <= i < |glyphChars| => LoadEntry(glyphChars[i])))
  {
    ghost var loads := seq(|glyphChars|, i requires 0 <= i < |glyphChars| => LoadEntry(glyphChars[i]));
    var charMasks: seq<(string, GlyphMask)> := [];
    for i := 0 to |glyphChars|
      invariant Collect(loads[..i]) == Ok(charMasks)
    {
      assert loads[..i + 1][..i] == loads[..i];
      if glyphChars[i].1.Err? {
        CollectKeepsError(loads, i + 1);
        return Err(glyphChars[i].1.error);
      }
      charMasks := charMasks + [(glyphChars[i].0, GlyphMask(glyphChars[i].1.value))];
    }
    assert loads[..|glyphChars|] == loads;
    r := Ok(charMasks);
  }

  function LoadEntry(gc: (string, Result<GrayImage>)): Result<(string, GlyphMask)> {
    match gc.1
    case Err(e) => Err(e)
    case Ok(img) => Ok((gc.0, GlyphMask(img)))
  }

  //
  // LatLng::parse_lat_lng
  //

  predicate IsSep(c: char) {
    c == ':' || c == '.' || c == ' '
  }

  /** The end of the run of digits starting at `i`. */
  function DigitRunEnd(s: string, i: nat): (j: nat)
    requires i <= |s|
    ensures i <= j <= |s| && DigitsAt(s, i, j) && (j == |s| || !IsDigit(s[j]))
    decreases |s| - i
  {
    if i < |s| && IsDigit(s[i]) then DigitRunEnd(s, i + 1) else i
  }

  /** The three capture groups. */
  datatype Captures = Captures(cardinal: char, major: string, decimal: string)

  /** `(C|D)[:. ](\d{2,3})[:. ](\d+)` tried at position `p` with the
      backtracking order of the regex crate: three digits for the major
      part when a separator and a digit follow them, else two; the
      decimal part as many digits as there are. */
  function MatchAt(s: string, p: nat, pos: char, neg: char): (m: Option<Captures>)
    requires p <= |s|
  {
    if p + 6 <= |s| && (s[p] == pos || s[p] == neg) && IsSep(s[p + 1]) then
      if p + 7 <= |s| && DigitsAt(s, p + 2, p + 5) && IsSep(s[p + 5]) && IsDigit(s[p + 6]) then
        Some(Captures(s[p], s[p + 2..p + 5], s[p + 6..DigitRunEnd(s, p + 6)]))
      else if DigitsAt(s, p + 2, p + 4) && IsSep(s[p + 4]) && IsDigit(s[p + 5]) then
        Some(Captures(s[p], s[p + 2..p + 4], s[p + 5..DigitRunEnd(s, p + 5)]))
      else None
    else None
  }

  ghost predicate AllDigits(t: string) {
    forall k :: 0 <= k < |t| ==> IsDigit(t[k])
  }

  /** The pattern's text at `p` with major part `major` and decimal part
      `decimal`, the latter not followed by another digit. */
  ghost predicate LaidOutAt(s: string, p: nat, pos: char, neg: char, c: Captures) {
    && (c.cardinal == pos || c.cardinal == neg)
    && (|c.major| == 2 || |c.major| == 3) && AllDigits(c.major)
    && |c.decimal| >= 1 && AllDigits(c.decimal)
    && var q := p + 2 + |c.major| + 1;
    && q + |c.decimal| <= |s|
    && s[p] == c.cardinal && IsSep(s[p + 1]) && s[p + 2..p + 2 + |c.major|] == c.major
    && IsSep(s[q - 1]) && s[q..q + |c.decimal|] == c.decimal
    && (q + |c.decimal| == |s| || !IsDigit(s[q + |c.decimal|]))
  }

  /** A match at `p` is the pattern's text at `p`. */
  lemma MatchAtSound(s: string, p: nat, pos: char, neg: char)
    requires p <= |s| && MatchAt(s, p, pos, neg).Some?
    ensures LaidOutAt(s, p, pos, neg, MatchAt(s, p, pos, neg).value)
  {
    var m := MatchAt(s, p, pos, neg).value;
    var q := p + 2 + |m.major| + 1;
    assert forall k :: 0 <= k < |m.decimal| ==> m.decimal[k] == s[q + k];
    assert forall k :: 0 <= k < |m.major| ==> m.major[k] == s[p + 2 + k];
  }

  /** Whenever the text admits the pattern at `p` there is a match there. */
  lemma MatchAtComplete(s: string, p: nat, pos: char, neg: char, c: Captures)
    requires p <= |s| && LaidOutAt(s, p, pos, neg, c)
    ensures MatchAt(s, p, pos, neg).Some?
  {
    var q := p + 2 + |c.major| + 1;
    assert s[q] == c.decimal[0];
    assert DigitsAt(s, p + 2, p + 2 + |c.major|) by {
      forall k | p + 2 <= k < p + 2 + |c.major| ensures IsDigit(s[k]) {
        assert s[k] == s[p + 2..p + 2 + |c.major|][k - p - 2] == c.major[k - p - 2];
      }
    }
  }

  /** When the text admits a three-digit major part, that is the match:
      the regex crate tries the longer repetition first. */
  lemma MatchAtPrefersThree(s: string, p: nat, pos: char, neg: char, c: Captures)
    requires p <= |s| && LaidOutAt(s, p, pos, neg, c) && |c.major| == 3
    ensures MatchAt(s, p, pos, neg) == Some(c)
  {
    var q := p + 6;
    assert s[q] == c.decimal[0];
    assert DigitsAt(s, p + 2, p + 5) by {
      forall k | p + 2 <= k < p + 5 ensures IsDigit(s[k]) {
        assert s[k] == s[p + 2..p + 5][k - p - 2] == c.major[k - p - 2];
      }
    }
    DigitRunIsDecimal(s, q, c.decimal);
  }

  /** The digit run from `q` is `decimal` when `decimal` is there and no
      digit follows it. */
  lemma {:induction false} DigitRunIsDecimal(s: string, q: nat, decimal: string)
    requires q + |decimal| <= |s| && s[q..q + |decimal|] == decimal && AllDigits(decimal)
    requires q + |decimal| == |s| || !IsDigit(s[q + |decimal|])
    ensures DigitRunEnd(s, q) == q + |decimal|
    decreases |decimal|
  {
    if |decimal| > 0 {
      assert s[q] == decimal[0];
      assert s[q + 1..q + |decimal|] == decimal[1..];
      DigitRunIsDecimal(s, q + 1, decimal[1..]);
    }
  }

  /** `Regex::captures`: the leftmost position with a match. */
  function Find(s: string, p: nat, pos: char, neg: char): (r: Option<(nat, Captures)>)
    requires p <= |s|
    ensures r.Some? ==> p <= r.value.0 <= |s| && MatchAt(s, r.value.0, pos, neg) == Some(r.value.1)
    ensures r.Some? ==> forall q :: p <= q < r.value.0 ==> MatchAt(s, q, pos, neg).None?
    ensures r.None? ==> forall q :: p <= q <= |s| ==> MatchAt(s, q, pos, neg).None?
    decreases |s| - p
  {
    match MatchAt(s, p, pos, neg)
    case Some(c) => Some((p, c))
    case None => if p == |s| then None else Find(s, p + 1, pos, neg)
  }

  /** A coordinate as the exact decimal `major.decimal`, negated for the
      second cardinal: `units / 10^scale`. */
  datatype Coord = Coord(negative: bool, units: nat, scale: nat)

  function DigitsValue(t: string): nat
    requires AllDigits(t)
  {
    Number(t, 0, |t|)
  }

  /** `parse_lat_lng` with the pattern for the cardinals `pos` and `neg`.
      The f64 parse of `major.decimal` cannot fail on digits; the third
      cardinal arm of the source's match is unreachable. */
  function ParseLatLng(s: string, pos: char, neg: char): (r: Result<Coord>)
    ensures r.Err? <==> forall q :: 0 <= q <= |s| ==> MatchAt(s, q, pos, neg).None?
    ensures r.Err? ==> r.error == "match regular expression"
  {
    match Find(s, 0, pos, neg)
    case None => Err("match regular expression")
    case Some((_, c)) =>
      MatchAtSound(s, Find(s, 0, pos, neg).value.0, pos, neg);
      Ok(Coord(c.cardinal == neg && c.cardinal != pos, DigitsValue(c.major + c.decimal), |c.decimal|))
  }

  ghost predicate LeftmostMatch(s: string, p: nat, pos: char, neg: char)
    requires p <= |s|
  {
    MatchAt(s, p, pos, neg).Some? && forall q :: 0 <= q < p ==> MatchAt(s, q, pos, neg).None?
  }

  /** The value the captures spell. */
  ghost function Reading(c: Captures, neg: char): Coord
    requires AllDigits(c.major + c.decimal)
  {
    Coord(c.cardinal == neg, DigitsValue(c.major + c.decimal), |c.decimal|)
  }

  /** The parsed value is read from the leftmost match: its sign from the
      cardinal and its digits from the two groups. */
  lemma ParseReadsLeftmostMatch(s: string, pos: char, neg: char)
    requires pos != neg
    ensures ParseLatLng(s, pos, neg).Ok? ==>
      exists p :: 0 <= p <= |s| && LeftmostMatch(s, p, pos, neg)
        && ParseLatLng(s, pos, neg).value == Reading(MatchAt(s, p, pos, neg).value, neg)
  {
    if Find(s, 0, pos, neg).Some? {
      var p := Find(s, 0, pos, neg).value.0;
      MatchAtSound(s, p, pos, neg);
    }
  }

  const LAT_POS := 'N'
  const LAT_NEG := 'S'
  const LNG_POS := 'E'
  const LNG_NEG := 'W'

  datatype LatLng = LatLng(lat: Coord, lng: Coord)

  /** `LatLng::default()`: both coordinates 0. */
  const DefaultLatLng := LatLng(Coord(false, 0, 0), Coord(false, 0, 0))

  /** `LatLng::from_strings`: latitude from the first string, longitude
      from the second, the first failure reported. */
  function FromStrings(lat: string, lng: string): (r: Result<LatLng>)
    ensures r.Ok? <==> ParseLatLng(lat, LAT_POS, LAT_NEG).Ok? && ParseLatLng(lng, LNG_POS, LNG_NEG).Ok?
    ensures r.Ok? ==> r.value == LatLng(ParseLatLng(lat, LAT_POS, LAT_NEG).value, ParseLatLng(lng, LNG_POS, LNG_NEG).value)
    ensures ParseLatLng(lat, LAT_POS, LAT_NEG).Err? ==> r == Err("parse latitude")
    ensures ParseLatLng(lat, LAT_POS, LAT_NEG).Ok? && ParseLatLng(lng, LNG_POS, LNG_NEG).Err? ==> r == Err("parse longitude")
  {
    match ParseLatLng(lat, LAT_POS, LAT_NEG)
    case Err(_) => Err("parse latitude")
    case Ok(a) =>
      match ParseLatLng(lng, LNG_POS, LNG_NEG)
      case Err(_) => Err("parse longitude")
      case Ok(b) => Ok(LatLng(a, b))
  }

  /** An overlay reading "N 40 7128" is latitude +40.7128. */
  lemma ParseExampleNorth()
    ensures ParseLatLng("N 40 7128", LAT_POS, LAT_NEG) == Ok(Coord(false, 407128, 4))
  {
    var s := "N 40 7128";
    assert s[0] == 'N' && s[1] == ' ' && s[4] == ' ' && s[5] == '7';
    assert !IsDigit(s[4]);
    assert DigitsAt(s, 2, 4);
    assert s[5..9] == "7128" && s[2..4] == "40";
    DigitRunIsDecimal(s, 5, "7128");
    assert MatchAt(s, 0, 'N', 'S') == Some(Captures('N', "40", "7128"));
    assert Find(s, 0, 'N', 'S') == Some((0, Captures('N', "40", "7128")));
    assert "40" + "7128" == "407128";
    assert DigitsValue("407128") == 407128;
  }

  /** "W:074.0060" is longitude -74.0060 with the three-digit major part. */
  lemma ParseExampleWest()
    ensures ParseLatLng("W:074.0060", LNG_POS, LNG_NEG) == Ok(Coord(true, 740060, 4))
  {
    var s := "W:074.0060";
    assert s[0] == 'W' && s[1] == ':' && s[5] == '.' && s[6] == '0';
    assert DigitsAt(s, 2, 5);
    assert s[6..10] == "0060" && s[2..5] == "074";
    DigitRunIsDecimal(s, 6, "0060");
    assert MatchAt(s, 0, 'E', 'W') == Some(Captures('W', "074", "0060"));
    assert Find(s, 0, 'E', 'W') == Some((0, Captures('W', "074", "0060")));
    assert "074" + "0060" == "0740060";
    assert DigitsValue("0740060") == 740060;
  }

  /** The pattern wants a separator after the cardinal: "N40.7128" does
      not parse. */
  lemma ParseExampleNoSeparator()
    ensures ParseLatLng("N40.7128", LAT_POS, LAT_NEG).Err?
  {
    var s := "N40.7128";
    forall q | 0 <= q <= |s| ensures MatchAt(s, q, 'N', 'S').None? {
      if q == 0 {
        assert !IsSep(s[1]);
      }
    }
  }

  //
  // scrape_clip_location and scrape_locations
  //

  /** `scrape_clip_location`: the cancellation check and the first frame
      (`frame` is the outcome of extracting and decoding it) propagate
      their errors; the strings read off the first two rows are parsed,
      and a parse failure becomes the default location. The source
      indexes the first two strings, so it needs two rows. */
  function ScrapeClipLocation(cancelled: bool, frame: Result<RgbImage>, rows: seq<GlyphRow>,
                              chars: seq<(string, GlyphMask)>): (r: Result<LatLng>)
    requires |rows| >= 2
    requires frame.Ok? ==> WellFormed(frame.value)
    ensures cancelled ==> r == Err("job is cancelled")
    ensures !cancelled && frame.Err? ==> r == Err(frame.error)
    ensures !cancelled && frame.Ok? ==> r.Ok?
    ensures r.Ok? ==>
      var parsed := FromStrings(RowString(rows[0], frame.value, chars), RowString(rows[1], frame.value, chars));
      r.value == if parsed.Ok? then parsed.value else DefaultLatLng
  {
    if cancelled then Err("job is cancelled")
    else match frame
      case Err(e) => Err(e)
      case Ok(rgb) =>
        var res := FromStrings(RowString(rows[0], rgb, chars), RowString(rows[1], rgb, chars));
        Ok(if res.Ok? then res.value else DefaultLatLng)
  }

  /** `scrape_locations` once the reference masks are loaded: one location
      per clip in timeline order, collected from the ordered channel, the
      first clip error in that order failing the whole scrape. */
  function ScrapeLocations(cancelled: bool, frames: seq<Result<RgbImage>>, rows: seq<GlyphRow>,
                           chars: seq<(string, GlyphMask)>): (r: Result<seq<LatLng>>)
    requires |rows| >= 2
    requires forall i :: 0 <= i < |frames| && frames[i].Ok? ==> WellFormed(frames[i].value)
    ensures r.Ok? <==> frames == [] || (!cancelled && forall i :: 0 <= i < |frames| ==> frames[i].Ok?)
  {
    var rs := seq(|frames|, i requires 0 <= i < |frames| => ScrapeClipLocation(cancelled, frames[i], rows, chars));
    assert forall i :: 0 <= i < |frames| ==> (rs[i].Ok? <==> !cancelled && frames[i].Ok?);
    Collect(rs)
  }

  /** Every clip whose strings do not parse gets the default location, the
      others their parsed one, in timeline order. */
  lemma ScrapeLocationsPerClip(frames: seq<Result<RgbImage>>, rows: seq<GlyphRow>, chars: seq<(string, GlyphMask)>)
    requires |rows| >= 2
    requires forall i :: 0 <= i < |frames| && frames[i].Ok? ==> WellFormed(frames[i].value)
    ensures var r := ScrapeLocations(false, frames, rows, chars);
      r.Ok? ==> |r.value| == |frames| && forall i :: 0 <= i < |frames| ==>
        var parsed := FromStrings(RowString(rows[0], frames[i].value, chars), RowString(rows[1], frames[i].value, chars));
        r.value[i] == if parsed.Ok? then parsed.value else DefaultLatLng
  {
  }
}
