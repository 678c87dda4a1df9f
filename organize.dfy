/** The glyph clustering of compute/glyph/organize.rs: every cell mask of
    every clip's first frame is compared with the masks kept so far, joins
    the best one when it is similar enough and is kept as a new one
    otherwise; each mask is exported under its cluster and its running
    number. */
module Organize {
  import opened Wrappers
  import opened Glyph

  /** `best_score >= 0.85` on the exact ratio: `m / t >= 17 / 20`. NaN
      (a zero total) is never at least the threshold. */
  predicate AtLeastThreshold(s: Score) {
    s.total > 0 && 20 * s.matched >= 17 * s.total
  }

  /** The start of the search, 0.0, is below the threshold. */
  lemma ZeroBelowThreshold()
    ensures !AtLeastThreshold(Zero)
  {
  }

  /** The index a mask is filed under and the masks kept after it: the
      best match when its score reaches the threshold, else the mask
      itself, appended. */
  function Classify(unique: seq<GlyphMask>, g: GlyphMask): (r: (nat, seq<GlyphMask>))
    ensures r.0 < |r.1|
    ensures r.1 == unique || r.1 == unique + [g]
  {
    var (best, bestScore) := Pick(ScoresAgainst(g, unique));
    var bestIdx := if best.Some? then best.value else 0;
    if AtLeastThreshold(bestScore) then (bestIdx, unique)
    else (|unique|, unique + [g])
  }

  /** A mask joins a kept mask exactly when the best score reaches the
      threshold, and then joins the first kept mask with the strictly
      highest score; otherwise it is appended and filed under the new last
      index. */
  lemma ClassifyJoinsOrAppends(unique: seq<GlyphMask>, g: GlyphMask)
    ensures var (idx, u) := Classify(unique, g); var scores := ScoresAgainst(g, unique);
      && (u == unique <==> AtLeastThreshold(Pick(scores).1))
      && (u == unique ==> idx < |unique| && Pick(scores).0 == Some(idx)
                          && AtLeastThreshold(Similarity(g, unique[idx]))
                          && forall j :: 0 <= j < |unique| ==> !Exceeds(Similarity(g, unique[j]), Similarity(g, unique[idx])))
      && (u != unique ==> u == unique + [g] && idx == |unique|)
  {
    var scores := ScoresAgainst(g, unique);
    PickIsFirstMaximum(scores);
    assert unique != unique + [g];
  }

  /** Where one mask is exported: `glyph/{cluster}/g_{number}.bmp`. */
  datatype Export = Export(cluster: nat, number: nat, mask: GlyphMask)

  datatype Clustering = Clustering(unique: seq<GlyphMask>, exports: seq<Export>)

  /** Filing one mask into a clustering: it is classified against the kept
      masks and exported under the next number, the running counter
      `n_glyphs`. */
  function Step(c: Clustering, g: GlyphMask): Clustering {
    var (idx, u) := Classify(c.unique, g);
    Clustering(u, c.exports + [Export(idx, |c.exports|, g)])
  }

  /** Filing a stream of masks, in order, into a clustering. */
  function Fold(c: Clustering, gs: seq<GlyphMask>): Clustering
    decreases |gs|
  {
    if gs == [] then c else Step(Fold(c, gs[..|gs| - 1]), gs[|gs| - 1])
  }

  /** The clustering of a stream of masks, starting from no kept masks. */
  function ClusterAll(masks: seq<GlyphMask>): Clustering {
    Fold(Clustering([], []), masks)
  }

  /** Filing `a` and then `b` is filing `a + b`. */
  lemma {:induction false} FoldConcat(c: Clustering, a: seq<GlyphMask>, b: seq<GlyphMask>)
    ensures Fold(c, a + b) == Fold(Fold(c, a), b)
    decreases |b|
  {
    if b == [] {
      assert a + b == a;
    } else {
      var n := |b| - 1;
      assert (a + b)[..|a + b| - 1] == a + b[..n];
      FoldConcat(c, a, b[..n]);
    }
  }

  /** Each mask is exported once, numbered by its position, and at most one
      mask is kept per mask seen. */
  lemma {:induction false} ClusterNumbering(masks: seq<GlyphMask>)
    ensures |ClusterAll(masks).exports| == |masks| && |ClusterAll(masks).unique| <= |masks|
    ensures forall k :: 0 <= k < |masks| ==>
      ClusterAll(masks).exports[k].number == k && ClusterAll(masks).exports[k].mask == masks[k]
    decreases |masks|
  {
    if masks != [] {
      var n := |masks| - 1;
      ClusterNumbering(masks[..n]);
      var p := ClusterAll(masks[..n]);
      var cl := Classify(p.unique, masks[n]);
      var c := ClusterAll(masks);
      assert c == Clustering(cl.1, p.exports + [Export(cl.0, |p.exports|, masks[n])]);
      assert |cl.1| <= |p.unique| + 1;
      forall k | 0 <= k < |masks| ensures c.exports[k].number == k && c.exports[k].mask == masks[k] {
        if k < n {
          assert c.exports[k] == p.exports[k] && masks[..n][k] == masks[k];
        }
      }
    }
  }

  /** Every mask is filed under a kept mask and is either that cluster's
      representative or at least 0.85 similar to it. */
  ghost predicate Filed(c: Clustering, masks: seq<GlyphMask>)
    requires |c.exports| == |masks|
  {
    forall k :: 0 <= k < |masks| ==>
      && c.exports[k].cluster < |c.unique|
      && (c.unique[c.exports[k].cluster] == masks[k] || AtLeastThreshold(Similarity(masks[k], c.unique[c.exports[k].cluster])))
  }

  lemma {:induction false} ClusterMembership(masks: seq<GlyphMask>)
    ensures |ClusterAll(masks).exports| == |masks| && Filed(ClusterAll(masks), masks)
    decreases |masks|
  {
    ClusterNumbering(masks);
    if masks != [] {
      var n := |masks| - 1;
      var p := ClusterAll(masks[..n]);
      ClusterMembership(masks[..n]);
      ClusterNumbering(masks[..n]);
      ClassifyJoinsOrAppends(p.unique, masks[n]);
      var c := ClusterAll(masks);
      assert forall i :: 0 <= i < |p.unique| ==> c.unique[i] == p.unique[i];
      forall k | 0 <= k < n
        ensures c.exports[k].cluster < |c.unique|
        ensures c.unique[c.exports[k].cluster] == masks[k] || AtLeastThreshold(Similarity(masks[k], c.unique[c.exports[k].cluster]))
      {
        assert c.exports[k] == p.exports[k] && masks[..n][k] == masks[k];
      }
    }
  }

  /** The kept masks and the exports only grow: clustering a prefix of the
      stream gives prefixes of both. */
  lemma {:induction false} ClusterPrefix(masks: seq<GlyphMask>, j: nat)
    requires j <= |masks|
    ensures var c := ClusterAll(masks); var d := ClusterAll(masks[..j]);
      && |d.unique| <= |c.unique| && c.unique[..|d.unique|] == d.unique
      && |d.exports| <= |c.exports| && c.exports[..|d.exports|] == d.exports
    decreases |masks| - j
  {
    if j == |masks| {
      assert masks[..j] == masks;
    } else {
      var n := |masks| - 1;
      assert masks[..n][..j] == masks[..j];
      ClusterPrefix(masks[..n], j);
      var p := ClusterAll(masks[..n]);
      var c := ClusterAll(masks);
      var d := ClusterAll(masks[..j]);
      assert c.unique[..|p.unique|] == p.unique;
      assert c.unique[..|d.unique|] == p.unique[..|d.unique|];
      assert c.exports[..|d.exports|] == p.exports[..|d.exports|];
    }
  }

  /** The first mask always starts cluster 0: no mask is kept yet and the
      search starts at 0.0. */
  lemma FirstMaskStartsCluster(masks: seq<GlyphMask>)
    requires |masks| > 0
    ensures ClusterAll(masks).exports[0].cluster == 0
    ensures |ClusterAll(masks).unique| > 0 && ClusterAll(masks).unique[0] == masks[0]
  {
    var one := ClusterAll(masks[..1]);
    var none: seq<GlyphMask> := [];
    assert masks[..1][..0] == none;
    assert ScoresAgainst(masks[0], none) == [];
    assert Pick(ScoresAgainst(masks[0], none)) == (None, Zero);
    assert Classify(none, masks[0]).1 == [masks[0]];
    assert Classify(none, masks[0]).0 == 0;
    assert ClusterAll(none) == Clustering(none, []);
    assert masks[..1][0] == masks[0];
    assert one.unique == [masks[0]] && one.exports == [Export(0, 0, masks[0])];
    ClusterPrefix(masks, 1);
  }

  //
  // The loop of organize_glyphs
  //

  /** Every cell mask of one frame, row by row. */
  function FrameMasks(frame: RgbImage, rows: seq<GlyphRow>): seq<GlyphMask>
    requires WellFormed(frame)
    decreases |rows|
  {
    if rows == [] then []
    else FrameMasks(frame, rows[..|rows| - 1]) + Glyphs(rows[|rows| - 1], frame)
  }

  ghost predicate FramesWellFormed(frames: seq<Result<RgbImage>>) {
    forall i :: 0 <= i < |frames| && frames[i].Ok? ==> WellFormed(frames[i].value)
  }

  /** Every cell mask of the frames, clip by clip; all of them decoded. */
  function AllMasks(frames: seq<Result<RgbImage>>, rows: seq<GlyphRow>): seq<GlyphMask>
    requires FramesWellFormed(frames) && forall i :: 0 <= i < |frames| ==> frames[i].Ok?
    decreases |frames|
  {
    if frames == [] then []
    else
      var n := |frames| - 1;
      AllMasks(frames[..n], rows) + FrameMasks(frames[n].value, rows)
  }

  /** The first clip whose frame could not be obtained, or the count. */
  function FirstError(frames: seq<Result<RgbImage>>): (k: nat)
    ensures k <= |frames| && (forall i :: 0 <= i < k ==> frames[i].Ok?)
    ensures k < |frames| ==> frames[k].Err?
    decreases |frames|
  {
    if frames == [] || frames[0].Err? then 0 else 1 + FirstError(frames[1..])
  }

  /** The body of the innermost loop of `organize_glyphs`: compare one
      mask with the kept masks, keep it when nothing is similar enough,
      export it under its cluster and count it. */
  method FileMask(unique0: seq<GlyphMask>, exports0: seq<Export>, nGlyphs0: nat, gmask: GlyphMask)
    returns (unique: seq<GlyphMask>, exports: seq<Export>, nGlyphs: nat)
    requires nGlyphs0 == |exports0|
    ensures Clustering(unique, exports) == Step(Clustering(unique0, exports0), gmask) && nGlyphs == |exports|
  {
    unique := unique0;
    var best, bestScore := BestMatch(gmask, unique);
    var bestIdx := if best.Some? then best.value else 0;
    var idx;
    if AtLeastThreshold(bestScore) {
      idx := bestIdx;
    } else {
      unique := unique + [gmask];
      idx := |unique| - 1;
    }
    assert (idx, unique) == Classify(unique0, gmask);
    exports := exports0 + [Export(idx, nGlyphs0, gmask)];
    nGlyphs := nGlyphs0 + 1;
  }

  /** The loop over the cells of one row. */
  method OrganizeRow(unique0: seq<GlyphMask>, exports0: seq<Export>, nGlyphs0: nat, glyphs: seq<GlyphMask>)
    returns (unique: seq<GlyphMask>, exports: seq<Export>, nGlyphs: nat)
    requires nGlyphs0 == |exports0|
    ensures Clustering(unique, exports) == Fold(Clustering(unique0, exports0), glyphs) && nGlyphs == |exports|
  {
    unique, exports, nGlyphs := unique0, exports0, nGlyphs0;
    for col := 0 to |glyphs|
      invariant Clustering(unique, exports) == Fold(Clustering(unique0, exports0), glyphs[..col]) && nGlyphs == |exports|
    {
      unique, exports, nGlyphs := FileMask(unique, exports, nGlyphs, glyphs[col]);
      assert glyphs[..col + 1][..col] == glyphs[..col];
    }
    assert glyphs[..|glyphs|] == glyphs;
  }

  /** The two inner loops of `organize_glyphs` over one frame: the rows in
      order, and the cells of each. */
  method OrganizeFrame(unique0: seq<GlyphMask>, exports0: seq<Export>, nGlyphs0: nat,
                       rgb: RgbImage, rows: seq<GlyphRow>)
    returns (unique: seq<GlyphMask>, exports: seq<Export>, nGlyphs: nat)
    requires WellFormed(rgb) && nGlyphs0 == |exports0|
    ensures Clustering(unique, exports) == Fold(Clustering(unique0, exports0), FrameMasks(rgb, rows)) && nGlyphs == |exports|
  {
    unique, exports, nGlyphs := unique0, exports0, nGlyphs0;
    for ri := 0 to |rows|
      invariant Clustering(unique, exports) == Fold(Clustering(unique0, exports0), FrameMasks(rgb, rows[..ri])) && nGlyphs == |exports|
    {
      var glyphs := Glyphs(rows[ri], rgb);
      unique, exports, nGlyphs := OrganizeRow(unique, exports, nGlyphs, glyphs);
      FrameMasksStep(rgb, rows, ri);
      FoldConcat(Clustering(unique0, exports0), FrameMasks(rgb, rows[..ri]), glyphs);
    }
    assert rows[..|rows|] == rows;
  }

  lemma FrameMasksStep(frame: RgbImage, rows: seq<GlyphRow>, ri: nat)
    requires WellFormed(frame) && ri < |rows|
    ensures FrameMasks(frame, rows[..ri + 1]) == FrameMasks(frame, rows[..ri]) + Glyphs(rows[ri], frame)
  {
    assert rows[..ri + 1][..ri] == rows[..ri];
  }

  lemma AllMasksStep(frames: seq<Result<RgbImage>>, rows: seq<GlyphRow>, i: nat)
    requires FramesWellFormed(frames) && i < |frames| && forall j :: 0 <= j <= i ==> frames[j].Ok?
    ensures FramesWellFormed(frames[..i]) && FramesWellFormed(frames[..i + 1])
    ensures AllMasks(frames[..i + 1], rows) == AllMasks(frames[..i], rows) + FrameMasks(frames[i].value, rows)
  {
    assert frames[..i + 1][..i] == frames[..i];
  }

  /** `organize_glyphs`: `frames[i]` is clip i's first frame, or the error
      of cancelling, extracting or decoding it, which ends the run. The
      masks seen up to there are clustered as `ClusterAll` says. */
  method OrganizeGlyphs(frames: seq<Result<RgbImage>>, rows: seq<GlyphRow>)
    returns (r: Outcome, unique: seq<GlyphMask>, exports: seq<Export>)
    requires FramesWellFormed(frames)
    ensures var k := FirstError(frames);
      && (r.Pass? <==> k == |frames|)
      && (r.Fail? ==> k < |frames| && r == Fail(frames[k].error))
      && FramesWellFormed(frames[..k])
      && Clustering(unique, exports) == ClusterAll(AllMasks(frames[..k], rows))
  {
    var nGlyphs := 0;
    unique, exports := [], [];
    for i := 0 to |frames|
      invariant forall j :: 0 <= j < i ==> frames[j].Ok?
      invariant FramesWellFormed(frames[..i])
      invariant Clustering(unique, exports) == ClusterAll(AllMasks(frames[..i], rows)) && nGlyphs == |exports|
    {
      if frames[i].Err? {
        FirstErrorAt(frames, i);
        return Fail(frames[i].error), unique, exports;
      }
      AllMasksStep(frames, rows, i);
      unique, exports, nGlyphs := OrganizeFrame(unique, exports, nGlyphs, frames[i].value, rows);
      FoldConcat(Clustering([], []), AllMasks(frames[..i], rows), FrameMasks(frames[i].value, rows));
    }
    FirstErrorAt(frames, |frames|);
    assert frames[..|frames|] == frames;
    return Pass, unique, exports;
  }

  lemma {:induction false} FirstErrorAt(frames: seq<Result<RgbImage>>, i: nat)
    requires i <= |frames| && forall j :: 0 <= j < i ==> frames[j].Ok?
    requires i < |frames| ==> frames[i].Err?
    ensures FirstError(frames) == i
    decreases i
  {
    if i > 0 {
      FirstErrorAt(frames[1..], i - 1);
    }
  }
}
