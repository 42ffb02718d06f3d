/**
 * The fold detector of utils/folds.py: HoughLinesP segments from the bottom quarter
 * of a page rectangle are normalised, filtered to nearly horizontal ones and merged
 * into running boxes (merge_lines); the widest, then lowest, merged line that spans
 * the page and sits inside the band marks the fold, and the rectangle is shortened
 * to end there (detect_fold). The Canny/HoughLinesP stage is an input: the segments
 * it found, or None.
 */
module Folds {
  import opened Numbers
  import opened Outcomes
  import opened Geometry
  import opened Sorting

  /** A segment (x1, y1, x2, y2) as HoughLinesP reports it, in band coordinates. */
  datatype Segment = Segment(x1: int, y1: int, x2: int, y2: int)

  /** y_tolerance that detect_fold passes to merge_lines. */
  const FoldTolerance := 30

  /** The segment's end points sorted per axis, as a box. */
  function Normalise(s: Segment): (b: Box)
    ensures b.left <= b.right && b.top <= b.bottom
    ensures {b.left, b.right} == {s.x1, s.x2} && {b.top, b.bottom} == {s.y1, s.y2}
  {
    Box(Min(s.x1, s.x2), Min(s.y1, s.y2), Max(s.x1, s.x2), Max(s.y1, s.y2))
  }

  /** Kept unless (x_right - x_left) / (y_bottom - y_top + 1) < 50. */
  predicate NearlyHorizontal(b: Box) {
    b.right - b.left >= 50 * (b.bottom - b.top + 1)
  }

  lemma NearlyHorizontalAsWritten(b: Box)
    requires b.top <= b.bottom
    ensures NearlyHorizontal(b) <==> !((b.right - b.left) as real / (b.bottom - b.top + 1) as real < 50.0)
  {
    DivLess((b.right - b.left) as real, (b.bottom - b.top + 1) as real, 50.0);
  }

  /** abs((y_top + y_bottom - m_top - m_bottom) / 2) < y_tolerance: the vertical midpoints are close. */
  predicate Near(b: Box, m: Box, tol: int) {
    Abs(b.top + b.bottom - m.top - m.bottom) < 2 * tol
  }

  lemma NearAsWritten(b: Box, m: Box, tol: int)
    ensures Near(b, m, tol) <==>
      (var d := (b.top + b.bottom - m.top - m.bottom) as real / 2.0;
       (if d < 0.0 then -d else d) < tol as real)
  {
  }

  /** The merged box extended to cover b. */
  function Widen(m: Box, b: Box): (r: Box)
    ensures Covers(r, m) && Covers(r, b)
    ensures forall o :: Covers(o, m) && Covers(o, b) ==> Covers(o, r)
  {
    Box(Min(m.left, b.left), Min(m.top, b.top), Max(m.right, b.right), Max(m.bottom, b.bottom))
  }

  predicate Covers(outer: Box, inner: Box) {
    outer.left <= inner.left && outer.top <= inner.top &&
    inner.right <= outer.right && inner.bottom <= outer.bottom
  }

  predicate WellFormed(b: Box) {
    b.left <= b.right && b.top <= b.bottom
  }

  /** Index of the first merged box near b, or |ms| when there is none. */
  function FirstNear(ms: seq<Box>, b: Box, tol: int): (j: nat)
    ensures j <= |ms|
    ensures j < |ms| ==> Near(b, ms[j], tol)
    ensures forall k :: 0 <= k < j ==> !Near(b, ms[k], tol)
  {
    if ms == [] then 0
    else if Near(b, ms[0], tol) then 0
    else 1 + FirstNear(ms[1..], b, tol)
  }

  /** One step of merge_lines: widen the first near box, or append b as a new one. */
  function Absorb(ms: seq<Box>, b: Box, tol: int): seq<Box>
  {
    var j := FirstNear(ms, b, tol);
    if j < |ms| then ms[j := Widen(ms[j], b)] else ms + [b]
  }

  /** The merged boxes before the final sort, segments taken in order. */
  function Grouped(segs: seq<Segment>, tol: int): seq<Box>
  {
    if segs == [] then []
    else
      var prev := Grouped(segs[..|segs| - 1], tol);
      var b := Normalise(segs[|segs| - 1]);
      if NearlyHorizontal(b) then Absorb(prev, b, tol) else prev
  }

  /** Sort key of merge_lines: top + bottom, twice the vertical midpoint. */
  predicate MidLe(a: Box, b: Box) {
    a.top + a.bottom <= b.top + b.bottom
  }

  lemma MidLeIsTotalPreorder()
    ensures TotalPreorder(MidLe)
  {
  }

  /** What merge_lines returns. */
  function MergedLines(lines: Option<seq<Segment>>, tol: int): seq<Box>
  {
    match lines
    case None => []
    case Some(segs) => StableSort(Grouped(segs, tol), MidLe)
  }

  /** merge_lines, with the grouping loop and the in-place widening of a merged box. */
  method MergeLines(lines: Option<seq<Segment>>, tol: int) returns (merged: seq<Box>)
    ensures merged == MergedLines(lines, tol)
    ensures lines.None? ==> merged == []
    ensures lines.Some? ==> |merged| <= |lines.value|
    ensures forall b <- merged :: WellFormed(b)
    ensures Sorted(merged, MidLe)
  {
    if lines.None? {
      return [];
    }
    var segs := lines.value;
    merged := [];
    var i := 0;
    while i < |segs|
      invariant 0 <= i <= |segs|
      invariant merged == Grouped(segs[..i], tol)
    {
      var b := Normalise(segs[i]);
      assert segs[..i + 1][..i] == segs[..i];
      if NearlyHorizontal(b) {
        ghost var before := merged;
        var added := false;
        var j := 0;
        while j < |merged|
          invariant 0 <= j <= |merged| && merged == before && !added
          invariant forall k :: 0 <= k < j ==> !Near(b, merged[k], tol)
        {
          if Near(b, merged[j], tol) {
            merged := merged[j := Widen(merged[j], b)];
            added := true;
            break;
          }
          j := j + 1;
        }
        if !added {
          merged := merged + [b];
        }
        assert merged == Absorb(before, b, tol);
      }
      i := i + 1;
    }
    assert segs[..|segs|] == segs;
    GroupedLength(segs, tol);
    GroupedWellFormed(segs, tol);
    MidLeIsTotalPreorder();
    SortSorted(Grouped(segs, tol), MidLe);
    merged := StableSort(merged, MidLe);
    forall b <- merged ensures WellFormed(b) {
      assert b in multiset(merged);
    }
  }

  /** Merging never produces more boxes than there were segments. */
  lemma {:induction false} GroupedLength(segs: seq<Segment>, tol: int)
    ensures |Grouped(segs, tol)| <= |segs|
  {
    if segs != [] {
      GroupedLength(segs[..|segs| - 1], tol);
    }
  }

  /** Every merged box has left <= right and top <= bottom. */
  lemma {:induction false} GroupedWellFormed(segs: seq<Segment>, tol: int)
    ensures forall m <- Grouped(segs, tol) :: WellFormed(m)
  {
    if segs != [] {
      GroupedWellFormed(segs[..|segs| - 1], tol);
    }
  }

  /** Every kept segment lies inside some merged box: merging only widens boxes. */
  lemma {:induction false} GroupedCovers(segs: seq<Segment>, tol: int, i: nat)
    requires i < |segs| && NearlyHorizontal(Normalise(segs[i]))
    ensures exists m <- Grouped(segs, tol) :: Covers(m, Normalise(segs[i]))
  {
    var prev := Grouped(segs[..|segs| - 1], tol);
    var b := Normalise(segs[|segs| - 1]);
    var out := Grouped(segs, tol);
    var j := FirstNear(prev, b, tol);
    if i == |segs| - 1 {
      assert out == Absorb(prev, b, tol);
      if j < |prev| {
        assert out[j] == Widen(prev[j], b) && out[j] in out;
      } else {
        assert out[|prev|] == b && out[|prev|] in out && Covers(b, b);
      }
    } else {
      assert segs[..|segs| - 1][i] == segs[i];
      GroupedCovers(segs[..|segs| - 1], tol, i);
      var m :| m in prev && Covers(m, Normalise(segs[i]));
      var k :| 0 <= k < |prev| && prev[k] == m;
      if NearlyHorizontal(b) {
        assert out == Absorb(prev, b, tol);
        assert Covers(out[k], m) && out[k] in out;
        assert Covers(out[k], Normalise(segs[i]));
      } else {
        assert out == prev;
      }
    }
  }

  /** Merged boxes stay within the rows [lo, hi) that every segment lies in. */
  lemma {:induction false} GroupedWithinRows(segs: seq<Segment>, tol: int, lo: int, hi: int)
    requires forall s <- segs :: lo <= s.y1 < hi && lo <= s.y2 < hi
    ensures forall m <- Grouped(segs, tol) :: lo <= m.top && m.bottom < hi
  {
    if segs != [] {
      GroupedWithinRows(segs[..|segs| - 1], tol, lo, hi);
    }
  }

  /** Segment i is one merge_lines keeps. */
  predicate KeptSegment(segs: seq<Segment>, i: int) {
    0 <= i < |segs| && NearlyHorizontal(Normalise(segs[i]))
  }

  /** Each edge of m is the same edge of some kept segment. */
  ghost predicate EdgesFrom(m: Box, segs: seq<Segment>) {
    && (exists i :: KeptSegment(segs, i) && Normalise(segs[i]).left == m.left)
    && (exists i :: KeptSegment(segs, i) && Normalise(segs[i]).top == m.top)
    && (exists i :: KeptSegment(segs, i) && Normalise(segs[i]).right == m.right)
    && (exists i :: KeptSegment(segs, i) && Normalise(segs[i]).bottom == m.bottom)
  }

  lemma EdgesFromInit(m: Box, segs: seq<Segment>)
    requires segs != [] && EdgesFrom(m, segs[..|segs| - 1])
    ensures EdgesFrom(m, segs)
  {
    var init := segs[..|segs| - 1];
    var a :| KeptSegment(init, a) && Normalise(init[a]).left == m.left;
    var b :| KeptSegment(init, b) && Normalise(init[b]).top == m.top;
    var c :| KeptSegment(init, c) && Normalise(init[c]).right == m.right;
    var d :| KeptSegment(init, d) && Normalise(init[d]).bottom == m.bottom;
    assert init[a] == segs[a] && init[b] == segs[b] && init[c] == segs[c] && init[d] == segs[d];
  }

  lemma EdgesFromWiden(m: Box, segs: seq<Segment>, n: nat)
    requires EdgesFrom(m, segs) && KeptSegment(segs, n)
    ensures EdgesFrom(Widen(m, Normalise(segs[n])), segs)
  {
  }

  /**
   * Merging never invents an edge: every edge of a merged line is that edge of some kept
   * segment, so a merged line is no wider than the kept segments reach.
   */
  lemma {:induction false} GroupedTight(segs: seq<Segment>, tol: int)
    ensures forall m <- Grouped(segs, tol) :: EdgesFrom(m, segs)
  {
    if segs != [] {
      var n := |segs| - 1;
      var init := segs[..n];
      var prev := Grouped(init, tol);
      var b := Normalise(segs[n]);
      GroupedTight(init, tol);
      forall m <- prev ensures EdgesFrom(m, segs) {
        EdgesFromInit(m, segs);
      }
      if NearlyHorizontal(b) {
        assert EdgesFrom(b, segs) by {
          assert KeptSegment(segs, n);
        }
        var out := Absorb(prev, b, tol);
        var j := FirstNear(prev, b, tol);
        forall m <- out ensures EdgesFrom(m, segs) {
          var k :| 0 <= k < |out| && out[k] == m;
          if j < |prev| && k == j {
            EdgesFromWiden(prev[j], segs, n);
          } else if k < |prev| {
            assert m == prev[k] && prev[k] in prev;
          }
        }
      }
    }
  }

  /** The lines merge_lines returns have their edges all taken from kept segments. */
  lemma MergedLinesTight(lines: Option<seq<Segment>>, tol: int)
    requires lines.Some?
    ensures forall m <- MergedLines(lines, tol) :: EdgesFrom(m, lines.value)
  {
    GroupedTight(lines.value, tol);
    forall m <- MergedLines(lines, tol) ensures EdgesFrom(m, lines.value) {
      assert m in multiset(Grouped(lines.value, tol));
    }
  }

  /** merge_lines(None) is empty; otherwise its boxes are sorted by midpoint and hold every kept segment. */
  lemma MergedLinesProperties(lines: Option<seq<Segment>>, tol: int)
    ensures lines.None? ==> MergedLines(lines, tol) == []
    ensures Sorted(MergedLines(lines, tol), MidLe)
    ensures lines.Some? ==> |MergedLines(lines, tol)| <= |lines.value|
    ensures lines.Some? ==> forall i :: 0 <= i < |lines.value| && NearlyHorizontal(Normalise(lines.value[i])) ==>
              exists m <- MergedLines(lines, tol) :: Covers(m, Normalise(lines.value[i]))
  {
    MidLeIsTotalPreorder();
    if lines.Some? {
      var segs := lines.value;
      SortSorted(Grouped(segs, tol), MidLe);
      GroupedLength(segs, tol);
      forall i | 0 <= i < |segs| && NearlyHorizontal(Normalise(segs[i]))
        ensures exists m <- MergedLines(lines, tol) :: Covers(m, Normalise(segs[i]))
      {
        GroupedCovers(segs, tol, i);
        var m :| m in Grouped(segs, tol) && Covers(m, Normalise(segs[i]));
        assert m in multiset(MergedLines(lines, tol));
      }
    }
  }

  /** bottom_y = int(h * 3 / 4): first row of the analysed band, relative to the rectangle's top. */
  function BandStart(h: nat): (b: nat)
    ensures b <= h
  {
    (3 * h) / 4
  }

  /** Rows in the bottom part, h - bottom_y. */
  function BandHeight(h: nat): nat
  {
    h - BandStart(h)
  }

  /** The entry detect_fold keeps for a merged line: ((y1 + y2) / 2, x2 - x1), the midpoint held doubled. */
  datatype Candidate = Candidate(mid2: int, span: int)

  function CandidateOf(m: Box): Candidate
  {
    Candidate(m.top + m.bottom, m.right - m.left)
  }

  /** Spans more than 3/4 of the width and its top lies strictly inside 10%..80% of the band. */
  predicate IsFoldLine(m: Box, w: nat, h: nat) {
    4 * (m.right - m.left) > 3 * w &&
    10 * m.top > BandHeight(h) && 10 * m.top < 8 * BandHeight(h)
  }

  lemma IsFoldLineAsWritten(m: Box, w: nat, h: nat)
    ensures IsFoldLine(m, w, h) <==>
      (m.right - m.left) as real > w as real * 0.75 &&
      m.top as real > 0.1 * BandHeight(h) as real && m.top as real < 0.8 * BandHeight(h) as real
  {
  }

  /** filtered_lines: the candidates of the merged lines, in order. */
  function Candidates(ms: seq<Box>, w: nat, h: nat): seq<Candidate>
  {
    if ms == [] then []
    else
      var prev := Candidates(ms[..|ms| - 1], w, h);
      var m := ms[|ms| - 1];
      if IsFoldLine(m, w, h) then prev + [CandidateOf(m)] else prev
  }

  /** Sort key (x2 - x1, mid) with reverse=True: the wider line first, then the lower one. */
  predicate FoldFirst(a: Candidate, b: Candidate) {
    a.span > b.span || (a.span == b.span && a.mid2 >= b.mid2)
  }

  lemma FoldFirstIsTotalPreorder()
    ensures TotalPreorder(FoldFirst)
  {
  }

  /**
   * The new bottom edge detect_fold gives the rectangle: y + fold_y with
   * fold_y = mid + bottom_y, cast to int32; None when no merged line qualifies.
   */
  function FoldBottom(r: Rect, lines: Option<seq<Segment>>): Option<int>
  {
    var cands := Candidates(MergedLines(lines, FoldTolerance), r.w, r.h);
    if cands == [] then None
    else
      var best := StableSort(cands, FoldFirst)[0];
      Some(TruncHalf(2 * r.y + best.mid2 + 2 * BandStart(r.h)))
  }

  /** What detect_fold returns for a contour whose bounding rectangle is r. */
  function FoldedContour(contour: seq<Point>, r: Rect, lines: Option<seq<Segment>>): seq<Point>
  {
    match FoldBottom(r, lines)
    case None => contour
    case Some(bottom) => [Point(r.x, r.y), Point(r.x + r.w, r.y), Point(r.x + r.w, bottom), Point(r.x, bottom)]
  }

  /**
   * detect_fold: `bounds` is boundingRect(contour) and `lines` what HoughLinesP found
   * in the bottom quarter. The result is the shortened rectangle, or the contour itself.
   */
  method DetectFold(contour: seq<Point>, bounds: Rect, lines: Option<seq<Segment>>) returns (r: seq<Point>)
    ensures r == FoldedContour(contour, bounds, lines)
  {
    var merged := MergeLines(lines, FoldTolerance);
    var foldY2 := FoldRow(merged, bounds.w, bounds.h);
    FoldedAtRow(contour, bounds, lines, foldY2);
    if foldY2 != 0 {
      var bottom := TruncHalf(2 * bounds.y + foldY2);
      r := [Point(bounds.x, bounds.y), Point(bounds.x + bounds.w, bounds.y),
            Point(bounds.x + bounds.w, bottom), Point(bounds.x, bottom)];
    } else {
      r := contour;
    }
  }

  /** Twice detect_fold's fold_y: 0 when no merged line qualifies, else the best line's midpoint plus bottom_y. */
  method FoldRow(merged: seq<Box>, w: nat, h: nat) returns (foldY2: int)
    ensures var cands := Candidates(merged, w, h);
      foldY2 == if cands == [] then 0 else StableSort(cands, FoldFirst)[0].mid2 + 2 * BandStart(h)
  {
    var bottomY := (3 * h) / 4;
    foldY2 := 0;
    if |merged| > 0 {
      var filtered := SelectCandidates(merged, w, h);
      if |filtered| > 0 {
        filtered := StableSort(filtered, FoldFirst);
        foldY2 := filtered[0].mid2 + 2 * bottomY;
      }
    }
  }

  /** The contour detect_fold returns, given its fold_y (doubled). */
  lemma FoldedAtRow(contour: seq<Point>, r: Rect, lines: Option<seq<Segment>>, foldY2: int)
    requires var cands := Candidates(MergedLines(lines, FoldTolerance), r.w, r.h);
      foldY2 == if cands == [] then 0 else StableSort(cands, FoldFirst)[0].mid2 + 2 * BandStart(r.h)
    ensures foldY2 == 0 ==> FoldedContour(contour, r, lines) == contour
    ensures foldY2 != 0 ==>
      var bottom := TruncHalf(2 * r.y + foldY2);
      FoldedContour(contour, r, lines) == [Point(r.x, r.y), Point(r.x + r.w, r.y), Point(r.x + r.w, bottom), Point(r.x, bottom)]
  {
    FoldDecision(r, lines);
  }

  /** The filtering loop of detect_fold. */
  method SelectCandidates(merged: seq<Box>, w: nat, h: nat) returns (filtered: seq<Candidate>)
    ensures filtered == Candidates(merged, w, h)
  {
    var bottomY := (3 * h) / 4;
    filtered := [];
    var i := 0;
    while i < |merged|
      invariant 0 <= i <= |merged|
      invariant filtered == Candidates(merged[..i], w, h)
    {
      var m := merged[i];
      assert merged[..i + 1][..i] == merged[..i];
      if 4 * (m.right - m.left) > 3 * w {
        if 10 * m.top > h - bottomY && 10 * m.top < 8 * (h - bottomY) {
          filtered := filtered + [Candidate(m.top + m.bottom, m.right - m.left)];
        }
      }
      i := i + 1;
    }
    assert merged[..|merged|] == merged;
  }

  /** The code's test fold_y != 0 is the same as "some candidate exists". */
  lemma FoldDecision(r: Rect, lines: Option<seq<Segment>>)
    ensures var cands := Candidates(MergedLines(lines, FoldTolerance), r.w, r.h);
      && (cands == [] <==> FoldBottom(r, lines).None?)
      && (cands != [] ==>
            var y2 := StableSort(cands, FoldFirst)[0].mid2 + 2 * BandStart(r.h);
            y2 != 0 && FoldBottom(r, lines) == Some(TruncHalf(2 * r.y + y2)))
  {
    var cands := Candidates(MergedLines(lines, FoldTolerance), r.w, r.h);
    if cands != [] {
      var best := StableSort(cands, FoldFirst)[0];
      assert best in multiset(cands);
      MergedWellFormed(lines);
      CandidatesPositive(MergedLines(lines, FoldTolerance), r.w, r.h);
    }
  }

  /** c is a candidate exactly when some merged line qualifies and yields it. */
  lemma {:induction false} CandidatesIff(ms: seq<Box>, w: nat, h: nat, c: Candidate)
    ensures c in Candidates(ms, w, h) <==> exists m <- ms :: IsFoldLine(m, w, h) && c == CandidateOf(m)
  {
    if ms != [] {
      var init := ms[..|ms| - 1];
      CandidatesIff(init, w, h, c);
      assert ms == init + [ms[|ms| - 1]];
      if exists m <- ms :: IsFoldLine(m, w, h) && c == CandidateOf(m) {
        var m :| m in ms && IsFoldLine(m, w, h) && c == CandidateOf(m);
        if m != ms[|ms| - 1] {
          assert m in init;
        }
      }
    }
  }

  /** A qualifying well-formed line has its top below the band's first row, so its doubled midpoint is positive. */
  lemma CandidatesPositive(ms: seq<Box>, w: nat, h: nat)
    requires forall m <- ms :: WellFormed(m)
    ensures forall c <- Candidates(ms, w, h) :: c.mid2 >= 2
  {
    forall c <- Candidates(ms, w, h) ensures c.mid2 >= 2 {
      CandidatesIff(ms, w, h, c);
    }
  }

  /**
   * The chosen fold line is the widest candidate, and the lowest among the widest;
   * fold_y = midpoint + bottom_y.
   */
  lemma FoldIsWidestLowest(r: Rect, lines: Option<seq<Segment>>)
    requires FoldBottom(r, lines).Some?
    ensures var cands := Candidates(MergedLines(lines, FoldTolerance), r.w, r.h);
      exists best <- cands ::
        && FoldBottom(r, lines) == Some(TruncHalf(2 * r.y + best.mid2 + 2 * BandStart(r.h)))
        && forall c <- cands :: c.span < best.span || (c.span == best.span && c.mid2 <= best.mid2)
  {
    var cands := Candidates(MergedLines(lines, FoldTolerance), r.w, r.h);
    FirstIsBest(cands);
  }

  /** The head of the candidates sorted by (span, mid) descending is a widest, and among those a lowest, candidate. */
  lemma FirstIsBest(cands: seq<Candidate>)
    requires cands != []
    ensures var best := StableSort(cands, FoldFirst)[0];
      && best in cands
      && forall c <- cands :: c.span < best.span || (c.span == best.span && c.mid2 <= best.mid2)
  {
    var sorted := StableSort(cands, FoldFirst);
    var best := sorted[0];
    assert best in multiset(cands);
    FoldFirstIsTotalPreorder();
    SortSorted(cands, FoldFirst);
    forall c <- cands ensures c.span < best.span || (c.span == best.span && c.mid2 <= best.mid2) {
      assert c in multiset(sorted);
      SortedHeadFirst(sorted, FoldFirst, c);
    }
  }

  /** A fold is reported exactly when some merged line qualifies, and it always lies below the band's first row. */
  lemma {:induction false} FoldFoundIff(r: Rect, lines: Option<seq<Segment>>)
    ensures FoldBottom(r, lines).Some? <==>
      exists m <- MergedLines(lines, FoldTolerance) :: IsFoldLine(m, r.w, r.h)
    ensures FoldBottom(r, lines).Some? ==> r.y + BandStart(r.h) < FoldBottom(r, lines).value
  {
    var ms := MergedLines(lines, FoldTolerance);
    var cands := Candidates(ms, r.w, r.h);
    if exists m <- ms :: IsFoldLine(m, r.w, r.h) {
      var m :| m in ms && IsFoldLine(m, r.w, r.h);
      CandidatesIff(ms, r.w, r.h, CandidateOf(m));
    }
    if cands != [] {
      CandidatesIff(ms, r.w, r.h, cands[0]);
      FoldBelowBand(r, lines);
    }
  }

  lemma FoldBelowBand(r: Rect, lines: Option<seq<Segment>>)
    requires FoldBottom(r, lines).Some?
    ensures r.y + BandStart(r.h) < FoldBottom(r, lines).value
  {
    var ms := MergedLines(lines, FoldTolerance);
    var cands := Candidates(ms, r.w, r.h);
    var best := StableSort(cands, FoldFirst)[0];
    assert best in multiset(cands);
    MergedWellFormed(lines);
    CandidatesPositive(ms, r.w, r.h);
  }

  lemma MergedWellFormed(lines: Option<seq<Segment>>)
    ensures forall m <- MergedLines(lines, FoldTolerance) :: WellFormed(m)
  {
    if lines.Some? {
      GroupedWellFormed(lines.value, FoldTolerance);
      forall m <- MergedLines(lines, FoldTolerance) ensures WellFormed(m) {
        assert m in multiset(Grouped(lines.value, FoldTolerance));
      }
    }
  }

  /**
   * When every segment lies in the band rows [0, h - bottom_y), the fold stays above
   * the rectangle's bottom edge: the result is never taller than the input.
   */
  lemma FoldNeverTaller(r: Rect, lines: Option<seq<Segment>>)
    requires lines.Some? ==> forall s <- lines.value ::
      0 <= s.y1 < BandHeight(r.h) && 0 <= s.y2 < BandHeight(r.h)
    requires FoldBottom(r, lines).Some?
    ensures r.y + BandStart(r.h) < FoldBottom(r, lines).value < r.y + r.h
  {
    var ms := MergedLines(lines, FoldTolerance);
    var cands := Candidates(ms, r.w, r.h);
    var best := StableSort(cands, FoldFirst)[0];
    assert best in multiset(cands);
    FoldBelowBand(r, lines);
    CandidatesIff(ms, r.w, r.h, best);
    var m :| m in ms && IsFoldLine(m, r.w, r.h) && best == CandidateOf(m);
    GroupedWithinRows(lines.value, FoldTolerance, 0, BandHeight(r.h));
    assert m in multiset(Grouped(lines.value, FoldTolerance));
  }

  /**
   * A photographed page whose rectangle is (100, 100, 800, 1200) with the two edges of a
   * thick horizontal line at image rows 1250 and 1260, i.e. band rows 250 and 260 below
   * bottom_y = 900: the merged line's top is past 80% of the 300-row band, so no fold.
   */
  lemma LineNearBandBottomIsNoFold()
    ensures FoldBottom(Rect(100, 100, 800, 1200),
                       Some([Segment(20, 250, 780, 250), Segment(20, 260, 780, 260)])) == None
  {
    var segs := [Segment(20, 250, 780, 250), Segment(20, 260, 780, 260)];
    assert segs[..1] == [segs[0]] && segs[..1][..0] == [];
    assert Grouped(segs[..1], FoldTolerance) == [Box(20, 250, 780, 250)];
    assert Grouped(segs, FoldTolerance) == [Box(20, 250, 780, 260)];
    var ms := [Box(20, 250, 780, 260)];
    assert StableSort(ms, MidLe) == ms;
    assert BandHeight(1200) == 300;
    assert ms[..0] == [];
    assert Candidates(ms, 800, 1200) == [];
  }

  /** The same line at band rows 150 and 160: the rectangle is cut at row 100 + 900 + 155. */
  lemma LineInBandIsFold()
    ensures FoldBottom(Rect(100, 100, 800, 1200),
                       Some([Segment(20, 150, 780, 150), Segment(20, 160, 780, 160)])) == Some(1155)
  {
    var segs := [Segment(20, 150, 780, 150), Segment(20, 160, 780, 160)];
    assert segs[..1] == [segs[0]] && segs[..1][..0] == [];
    assert Grouped(segs[..1], FoldTolerance) == [Box(20, 150, 780, 150)];
    assert Grouped(segs, FoldTolerance) == [Box(20, 150, 780, 160)];
    var ms := [Box(20, 150, 780, 160)];
    assert StableSort(ms, MidLe) == ms;
    assert BandHeight(1200) == 300;
    assert ms[..0] == [];
    var cs := [Candidate(310, 760)];
    assert Candidates(ms, 800, 1200) == cs;
    assert StableSort(cs, FoldFirst) == cs;
  }
}
