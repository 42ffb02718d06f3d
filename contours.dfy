/**
 * The page locator and border trimmer of utils/contours.py. findContours, contourArea,
 * convexHull and boundingRect are OpenCV calls: a contour is modelled by what the code
 * reads from them (its bounding rectangle, its area and its hull's area), the contours
 * each preparation finds are an input, and boundingRect of a corner polygon is a parameter.
 */
module Contours {
  import opened Numbers
  import opened Outcomes
  import opened Geometry
  import opened Sorting
  import opened Folds

  /** A contour: boundingRect(contour), contourArea(contour), contourArea(convexHull(contour)). */
  datatype Contour = Contour(bounds: Rect, area: real, hullArea: real)

  /** contour_to_rectangle: the corners of the bounding rectangle, clockwise from the top-left. */
  function ContourToRectangle(r: Rect): (corners: seq<Point>)
    ensures |corners| == 4
    ensures corners[0] == Point(r.x, r.y) && corners[2] == Point(r.x + r.w, r.y + r.h)
    ensures corners[1] == Point(corners[2].x, corners[0].y) && corners[3] == Point(corners[0].x, corners[2].y)
  {
    [Point(r.x, r.y), Point(r.x + r.w, r.y), Point(r.x + r.w, r.y + r.h), Point(r.x, r.y + r.h)]
  }

  /** detect_fold's shortened contour is the rectangle with the same x, y and w, ending at the fold. */
  lemma FoldedIsRectangle(contour: seq<Point>, r: Rect, lines: Option<seq<Segment>>)
    requires FoldBottom(r, lines).Some?
    ensures FoldBottom(r, lines).value > r.y
    ensures FoldedContour(contour, r, lines) ==
            ContourToRectangle(Rect(r.x, r.y, r.w, FoldBottom(r, lines).value - r.y))
  {
    FoldBelowBand(r, lines);
  }

  // ---- filter_contours ----

  /** w / h or h / w in the aspect ratio divides by zero. */
  predicate Degenerate(c: Contour) {
    c.bounds.w == 0 || c.bounds.h == 0
  }

  /**
   * Kept by filter_contours: a non-zero hull area, a bounding-box area strictly between
   * 10% and 90% of the image, and an aspect ratio below 1.7 (all cross-multiplied).
   */
  predicate PageLike(c: Contour, height: nat, width: nat) {
    var w, h := c.bounds.w, c.bounds.h;
    && c.hullArea != 0.0
    && height * width < 10 * (w * h) < 9 * (height * width)
    && 10 * w < 17 * h && 10 * h < 17 * w
  }

  function RealMax(a: real, b: real): real { if a >= b then a else b }

  /** PageLike is the code's test 0.1*H*W < w*h < 0.9*H*W and max(w/h, h/w) < 1.7, over exact reals. */
  lemma PageLikeAsWritten(c: Contour, height: nat, width: nat)
    requires !Degenerate(c)
    ensures var w, h := c.bounds.w as real, c.bounds.h as real;
      PageLike(c, height, width) <==>
        && c.hullArea != 0.0
        && 0.1 * height as real * width as real < w * h < 0.9 * height as real * width as real
        && RealMax(w / h, h / w) < 1.7
  {
    var w, h := c.bounds.w as real, c.bounds.h as real;
    var hw := (height * width) as real;
    assert 0.1 * height as real * width as real == 0.1 * hw;
    assert 0.9 * height as real * width as real == 0.9 * hw;
    assert w * h == (c.bounds.w * c.bounds.h) as real;
    DivLess(w, h, 1.7);
    DivLess(h, w, 1.7);
  }

  /** solidity = contour_area / hull_area, for the contours that reach it. */
  function Solidity(c: Contour): real {
    if c.hullArea == 0.0 then 0.0 else c.area / c.hullArea
  }

  /** Sort key of filter_contours, reverse=True: the more solid contour first. */
  predicate SolidityGe(a: Contour, b: Contour) {
    Solidity(a) >= Solidity(b)
  }

  lemma SolidityGeIsTotalPreorder()
    ensures TotalPreorder(SolidityGe)
  {
  }

  /** valid_contours before the sort: the page-like contours in input order. */
  function Kept(cs: seq<Contour>, height: nat, width: nat): seq<Contour>
  {
    if cs == [] then []
    else
      var prev := Kept(cs[..|cs| - 1], height, width);
      if PageLike(cs[|cs| - 1], height, width) then prev + [cs[|cs| - 1]] else prev
  }

  /** What filter_contours returns, or the ZeroDivisionError it raises. */
  function FilterSpec(cs: seq<Contour>, height: nat, width: nat): Result<seq<Contour>, Error>
  {
    if exists c <- cs :: Degenerate(c) then Failure(ZeroDivisionError)
    else Success(StableSort(Kept(cs, height, width), SolidityGe))
  }

  /** filter_contours for an image of the given height and width. */
  method FilterContours(contours: seq<Contour>, height: nat, width: nat) returns (r: Result<seq<Contour>, Error>)
    ensures r == FilterSpec(contours, height, width)
    ensures r.Failure? <==> exists c <- contours :: Degenerate(c)
  {
    var valid: seq<Contour> := [];
    var i := 0;
    while i < |contours|
      invariant 0 <= i <= |contours|
      invariant valid == Kept(contours[..i], height, width)
      invariant forall c <- contours[..i] :: !Degenerate(c)
    {
      var c := contours[i];
      assert contours[..i + 1][..i] == contours[..i];
      var w, h := c.bounds.w, c.bounds.h;
      if w == 0 || h == 0 {
        // aspect_ratio = max(w / h, h / w) raises
        assert contours[i] in contours;
        return Failure(ZeroDivisionError);
      }
      if c.hullArea != 0.0 {
        if height * width < 10 * (w * h) < 9 * (height * width) && 10 * w < 17 * h && 10 * h < 17 * w {
          valid := valid + [c];
        }
      }
      i := i + 1;
    }
    assert contours[..|contours|] == contours;
    if valid != [] {
      valid := StableSort(valid, SolidityGe);
    }
    return Success(valid);
  }

  lemma {:induction false} KeptIff(cs: seq<Contour>, height: nat, width: nat, c: Contour)
    ensures c in Kept(cs, height, width) <==> c in cs && PageLike(c, height, width)
  {
    if cs != [] {
      KeptIff(cs[..|cs| - 1], height, width, c);
      assert cs == cs[..|cs| - 1] + [cs[|cs| - 1]];
    }
  }

  /**
   * filter_contours keeps exactly the page-like contours (with their multiplicity), ranks
   * them by solidity, highest first, and never divides by a zero hull area.
   */
  lemma FilterKeepsRanked(cs: seq<Contour>, height: nat, width: nat)
    requires FilterSpec(cs, height, width).Success?
    ensures var out := FilterSpec(cs, height, width).value;
      && multiset(out) == multiset(Kept(cs, height, width))
      && (forall c :: c in out <==> c in cs && PageLike(c, height, width))
      && (forall c <- out :: c.hullArea != 0.0)
      && (forall i, j :: 0 <= i < j < |out| ==> Solidity(out[i]) >= Solidity(out[j]))
  {
    var out := FilterSpec(cs, height, width).value;
    forall c ensures c in out <==> c in cs && PageLike(c, height, width) {
      KeptIff(cs, height, width, c);
      assert c in out <==> c in multiset(Kept(cs, height, width));
    }
    SolidityGeIsTotalPreorder();
    SortSorted(Kept(cs, height, width), SolidityGe);
  }

  /** Contours of equal solidity keep their input order. */
  lemma FilterStable(cs: seq<Contour>, height: nat, width: nat, k: Contour)
    requires FilterSpec(cs, height, width).Success?
    ensures Peers(FilterSpec(cs, height, width).value, k, SolidityGe) == Peers(Kept(cs, height, width), k, SolidityGe)
  {
    SolidityGeIsTotalPreorder();
    SortStable(Kept(cs, height, width), k, SolidityGe);
  }

  /** Among the page-like contours of cs, c is one of the most solid. */
  ghost predicate MostSolid(c: Contour, cs: seq<Contour>, height: nat, width: nat) {
    c in cs && PageLike(c, height, width) &&
    forall d <- cs :: PageLike(d, height, width) ==> Solidity(d) <= Solidity(c)
  }

  /** The first filtered contour, the one detect_fold receives, is a most solid page-like contour. */
  lemma FilterHeadMostSolid(cs: seq<Contour>, height: nat, width: nat)
    requires FilterSpec(cs, height, width).Success?
    ensures FilterSpec(cs, height, width).value != [] <==> exists c <- cs :: PageLike(c, height, width)
    ensures FilterSpec(cs, height, width).value != [] ==> MostSolid(FilterSpec(cs, height, width).value[0], cs, height, width)
  {
    var out := FilterSpec(cs, height, width).value;
    FilterKeepsRanked(cs, height, width);
    if exists c <- cs :: PageLike(c, height, width) {
      var c :| c in cs && PageLike(c, height, width);
      assert c in out;
    }
    if out != [] {
      assert out[0] in out;
      forall d <- cs | PageLike(d, height, width) ensures Solidity(d) <= Solidity(out[0]) {
        assert d in out;
        var j :| 0 <= j < |out| && out[j] == d;
        if j > 0 {
          assert Solidity(out[0]) >= Solidity(out[j]);
        }
      }
    }
  }

  // ---- final_crop ----

  /** What final_crop does to its image: nothing, or crop it to a box. */
  datatype Trim = Untrimmed | TrimTo(box: Rect)

  function Lefts(cs: seq<Contour>): (s: seq<int>)
    ensures |s| == |cs| && forall i :: 0 <= i < |cs| ==> s[i] == cs[i].bounds.x
  {
    seq(|cs|, i requires 0 <= i < |cs| => cs[i].bounds.x)
  }

  function Tops(cs: seq<Contour>): (s: seq<int>)
    ensures |s| == |cs| && forall i :: 0 <= i < |cs| ==> s[i] == cs[i].bounds.y
  {
    seq(|cs|, i requires 0 <= i < |cs| => cs[i].bounds.y)
  }

  function Rights(cs: seq<Contour>): (s: seq<int>)
    ensures |s| == |cs| && forall i :: 0 <= i < |cs| ==> s[i] == cs[i].bounds.x + cs[i].bounds.w
  {
    seq(|cs|, i requires 0 <= i < |cs| => cs[i].bounds.x + cs[i].bounds.w)
  }

  function Bottoms(cs: seq<Contour>): (s: seq<int>)
    ensures |s| == |cs| && forall i :: 0 <= i < |cs| ==> s[i] == cs[i].bounds.y + cs[i].bounds.h
  {
    seq(|cs|, i requires 0 <= i < |cs| => cs[i].bounds.y + cs[i].bounds.h)
  }

  function MinOf(s: seq<int>): (m: int)
    requires s != []
    ensures m in s && forall x <- s :: m <= x
  {
    if |s| == 1 then s[0]
    else
      var m := MinOf(s[1..]);
      assert forall x <- s :: x == s[0] || x in s[1..];
      assert m in s;
      Min(s[0], m)
  }

  function MaxOf(s: seq<int>): (m: int)
    requires s != []
    ensures m in s && forall x <- s :: x <= m
  {
    if |s| == 1 then s[0]
    else
      var m := MaxOf(s[1..]);
      assert forall x <- s :: x == s[0] || x in s[1..];
      assert m in s;
      Max(s[0], m)
  }

  /** final_crop's box: the least x and y of all boxes; the greatest right and bottom edges, counted from 0. */
  function UnionBox(cs: seq<Contour>): Rect
    requires cs != []
  {
    var x, y := MinOf(Lefts(cs)), MinOf(Tops(cs));
    var maxX, maxY := Max(0, MaxOf(Rights(cs))), Max(0, MaxOf(Bottoms(cs)));
    assert x <= Lefts(cs)[0] <= Rights(cs)[0] <= maxX;
    assert y <= Tops(cs)[0] <= Bottoms(cs)[0] <= maxY;
    Rect(x, y, maxX - x, maxY - y)
  }

  function TrimSpec(cs: seq<Contour>): Trim
  {
    if cs == [] then Untrimmed else TrimTo(UnionBox(cs))
  }

  /** Python's max(contours, key=cv2.contourArea): the first contour of greatest area. */
  function LargestIndex(cs: seq<Contour>): (i: nat)
    requires cs != []
    ensures i < |cs|
  {
    if |cs| == 1 then 0
    else
      var j := 1 + LargestIndex(cs[1..]);
      if cs[0].area >= cs[j].area then 0 else j
  }

  /** The largest contour has the greatest area, and every contour before it a smaller one. */
  lemma {:induction false} LargestIndexIsFirstMax(cs: seq<Contour>)
    requires cs != []
    ensures var i := LargestIndex(cs);
      && (forall j :: 0 <= j < |cs| ==> cs[j].area <= cs[i].area)
      && (forall j :: 0 <= j < i ==> cs[j].area < cs[i].area)
  {
    if |cs| > 1 {
      LargestIndexIsFirstMax(cs[1..]);
    }
  }

  /** final_crop on the contours found in the pre-cropped image. */
  method FinalCrop(contours: seq<Contour>) returns (t: Trim)
    ensures t == TrimSpec(contours)
  {
    if contours == [] {
      return Untrimmed;
    }
    var l := LargestIndex(contours);
    var largest := contours[l];
    var x, y := largest.bounds.x, largest.bounds.y;
    var maxX, maxY := 0, 0;
    // where each edge was last taken from
    ghost var ix, iy, ir, ib := l, l, 0, 0;
    var i := 0;
    while i < |contours|
      invariant 0 <= i <= |contours|
      invariant 0 <= ix < |contours| && x == contours[ix].bounds.x
      invariant 0 <= iy < |contours| && y == contours[iy].bounds.y
      invariant forall k :: 0 <= k < i ==> x <= contours[k].bounds.x
      invariant forall k :: 0 <= k < i ==> y <= contours[k].bounds.y
      invariant 0 <= ir < |contours| && 0 <= maxX && (maxX == 0 || maxX == contours[ir].bounds.x + contours[ir].bounds.w)
      invariant 0 <= ib < |contours| && 0 <= maxY && (maxY == 0 || maxY == contours[ib].bounds.y + contours[ib].bounds.h)
      invariant forall k :: 0 <= k < i ==> contours[k].bounds.x + contours[k].bounds.w <= maxX
      invariant forall k :: 0 <= k < i ==> contours[k].bounds.y + contours[k].bounds.h <= maxY
    {
      var b := contours[i].bounds;
      if b.x < x { x := b.x; ix := i; }
      if b.y < y { y := b.y; iy := i; }
      if b.x + b.w > maxX { maxX := b.x + b.w; ir := i; }
      if b.y + b.h > maxY { maxY := b.y + b.h; ib := i; }
      i := i + 1;
    }
    UnionBoxIs(contours, x, y, maxX, maxY, ix, iy, ir, ib);
    t := TrimTo(Rect(x, y, maxX - x, maxY - y));
  }

  /** Edges taken from the witnessing contours, and bounding all of them, are the union box. */
  lemma UnionBoxIs(cs: seq<Contour>, x: int, y: int, maxX: int, maxY: int, ix: nat, iy: nat, ir: nat, ib: nat)
    requires ix < |cs| && x == cs[ix].bounds.x && forall k :: 0 <= k < |cs| ==> x <= cs[k].bounds.x
    requires iy < |cs| && y == cs[iy].bounds.y && forall k :: 0 <= k < |cs| ==> y <= cs[k].bounds.y
    requires ir < |cs| && 0 <= maxX && (maxX == 0 || maxX == cs[ir].bounds.x + cs[ir].bounds.w)
    requires forall k :: 0 <= k < |cs| ==> cs[k].bounds.x + cs[k].bounds.w <= maxX
    requires ib < |cs| && 0 <= maxY && (maxY == 0 || maxY == cs[ib].bounds.y + cs[ib].bounds.h)
    requires forall k :: 0 <= k < |cs| ==> cs[k].bounds.y + cs[k].bounds.h <= maxY
    ensures x <= maxX && y <= maxY
    ensures UnionBox(cs) == Rect(x, y, maxX - x, maxY - y)
  {
    LeftIs(cs, x, ix);
    TopIs(cs, y, iy);
    RightIs(cs, maxX, ir);
    BottomIs(cs, maxY, ib);
    assert x <= cs[0].bounds.x && cs[0].bounds.x + cs[0].bounds.w <= maxX;
    assert y <= cs[0].bounds.y && cs[0].bounds.y + cs[0].bounds.h <= maxY;
  }

  lemma LeftIs(cs: seq<Contour>, x: int, k: nat)
    requires k < |cs| && x == cs[k].bounds.x
    requires forall k :: 0 <= k < |cs| ==> x <= cs[k].bounds.x
    ensures MinOf(Lefts(cs)) == x
  {
    assert Lefts(cs)[k] in Lefts(cs);
    var j :| 0 <= j < |cs| && Lefts(cs)[j] == MinOf(Lefts(cs));
  }

  lemma TopIs(cs: seq<Contour>, y: int, k: nat)
    requires k < |cs| && y == cs[k].bounds.y
    requires forall k :: 0 <= k < |cs| ==> y <= cs[k].bounds.y
    ensures MinOf(Tops(cs)) == y
  {
    assert Tops(cs)[k] in Tops(cs);
    var j :| 0 <= j < |cs| && Tops(cs)[j] == MinOf(Tops(cs));
  }

  lemma RightIs(cs: seq<Contour>, maxX: int, k: nat)
    requires k < |cs| && 0 <= maxX
    requires maxX == 0 || maxX == cs[k].bounds.x + cs[k].bounds.w
    requires forall k :: 0 <= k < |cs| ==> cs[k].bounds.x + cs[k].bounds.w <= maxX
    ensures Max(0, MaxOf(Rights(cs))) == maxX
  {
    assert Rights(cs)[k] in Rights(cs);
    var j :| 0 <= j < |cs| && Rights(cs)[j] == MaxOf(Rights(cs));
  }

  lemma BottomIs(cs: seq<Contour>, maxY: int, k: nat)
    requires k < |cs| && 0 <= maxY
    requires maxY == 0 || maxY == cs[k].bounds.y + cs[k].bounds.h
    requires forall k :: 0 <= k < |cs| ==> cs[k].bounds.y + cs[k].bounds.h <= maxY
    ensures Max(0, MaxOf(Bottoms(cs))) == maxY
  {
    assert Bottoms(cs)[k] in Bottoms(cs);
    var j :| 0 <= j < |cs| && Bottoms(cs)[j] == MaxOf(Bottoms(cs));
  }

  /** final_crop's box holds every contour's box. */
  lemma TrimCoversAll(cs: seq<Contour>)
    requires cs != []
    ensures var b := UnionBox(cs);
      forall c <- cs :: b.x <= c.bounds.x && b.y <= c.bounds.y &&
                        c.bounds.x + c.bounds.w <= b.x + b.w && c.bounds.y + c.bounds.h <= b.y + b.h
  {
    forall c <- cs ensures UnionBox(cs).x <= c.bounds.x && UnionBox(cs).y <= c.bounds.y &&
                          c.bounds.x + c.bounds.w <= UnionBox(cs).x + UnionBox(cs).w &&
                          c.bounds.y + c.bounds.h <= UnionBox(cs).y + UnionBox(cs).h {
      var k :| 0 <= k < |cs| && cs[k] == c;
      assert Lefts(cs)[k] == c.bounds.x && Tops(cs)[k] == c.bounds.y;
      assert Rights(cs)[k] == c.bounds.x + c.bounds.w && Bottoms(cs)[k] == c.bounds.y + c.bounds.h;
      assert Lefts(cs)[k] in Lefts(cs) && Tops(cs)[k] in Tops(cs);
      assert Rights(cs)[k] in Rights(cs) && Bottoms(cs)[k] in Bottoms(cs);
    }
  }

  /** With boxes inside the image's quadrant, each edge of final_crop's box is some contour's edge. */
  lemma TrimIsTight(cs: seq<Contour>)
    requires cs != []
    requires forall c <- cs :: 0 <= c.bounds.x && 0 <= c.bounds.y
    ensures var b := UnionBox(cs);
      && (exists c <- cs :: b.x == c.bounds.x)
      && (exists c <- cs :: b.y == c.bounds.y)
      && (exists c <- cs :: b.x + b.w == c.bounds.x + c.bounds.w)
      && (exists c <- cs :: b.y + b.h == c.bounds.y + c.bounds.h)
  {
    LeftAttained(cs);
    TopAttained(cs);
    RightAttained(cs);
    BottomAttained(cs);
  }

  lemma LeftAttained(cs: seq<Contour>)
    requires cs != []
    ensures exists c <- cs :: MinOf(Lefts(cs)) == c.bounds.x
  {
    var i :| 0 <= i < |cs| && Lefts(cs)[i] == MinOf(Lefts(cs));
    assert cs[i] in cs;
  }

  lemma TopAttained(cs: seq<Contour>)
    requires cs != []
    ensures exists c <- cs :: MinOf(Tops(cs)) == c.bounds.y
  {
    var i :| 0 <= i < |cs| && Tops(cs)[i] == MinOf(Tops(cs));
    assert cs[i] in cs;
  }

  lemma RightAttained(cs: seq<Contour>)
    requires cs != [] && forall c <- cs :: 0 <= c.bounds.x
    ensures exists c <- cs :: Max(0, MaxOf(Rights(cs))) == c.bounds.x + c.bounds.w
  {
    var i :| 0 <= i < |cs| && Rights(cs)[i] == MaxOf(Rights(cs));
    assert cs[i] in cs;
  }

  lemma BottomAttained(cs: seq<Contour>)
    requires cs != [] && forall c <- cs :: 0 <= c.bounds.y
    ensures exists c <- cs :: Max(0, MaxOf(Bottoms(cs))) == c.bounds.y + c.bounds.h
  {
    var i :| 0 <= i < |cs| && Bottoms(cs)[i] == MaxOf(Bottoms(cs));
    assert cs[i] in cs;
  }

  // ---- crop_to_page ----

  /** The three ways crop_to_page prepares the photo before findContours. */
  datatype Preparation =
    | Cover     // median blur 71, threshold 60, closing
    | Interior  // median blur 31, threshold 70, opening
    | Adaptive  // median blur 41, adaptive Gaussian threshold: the fallback

  datatype PageCrop = Original | CropTo(box: Rect)

  /** Pages "0000" and "0001" are the book's covers. */
  function PrimaryPreparation(filename: string): (p: Preparation)
    ensures p == Cover <==> filename == "0000" || filename == "0001"
    ensures p != Adaptive
  {
    if filename == "0000" || filename == "0001" then Cover else Interior
  }

  /** The crop box crop_to_page derives from its chosen contour: rectangle, fold, bounding rectangle. */
  function PageBox(c: Contour, foldLines: Rect -> Option<seq<Segment>>, boundingRect: seq<Point> -> Rect): Rect
  {
    var rect := ContourToRectangle(c.bounds);
    var analysed := boundingRect(rect);
    boundingRect(FoldedContour(rect, analysed, foldLines(analysed)))
  }

  ghost predicate Raises(cs: seq<Contour>) {
    exists c <- cs :: Degenerate(c)
  }

  ghost predicate HasPage(cs: seq<Contour>, height: nat, width: nat) {
    exists c <- cs :: PageLike(c, height, width)
  }

  /** Every page-like contour before the first occurrence of c in cs is strictly less solid than c. */
  ghost predicate AheadOfTies(c: Contour, cs: seq<Contour>, height: nat, width: nat) {
    exists k :: 0 <= k < |cs| && cs[k] == c &&
      forall j :: 0 <= j < k && PageLike(cs[j], height, width) ==> Solidity(cs[j]) < Solidity(c)
  }

  /**
   * c is the contour filtered_contours[0] names: a most solid page-like contour that the
   * stable sort leaves ahead of its ties.
   */
  ghost predicate FirstMostSolid(c: Contour, cs: seq<Contour>, height: nat, width: nat) {
    MostSolid(c, cs, height, width) && AheadOfTies(c, cs, height, width)
  }

  lemma AheadOfTiesInit(c: Contour, cs: seq<Contour>, height: nat, width: nat)
    requires cs != [] && AheadOfTies(c, cs[..|cs| - 1], height, width)
    ensures AheadOfTies(c, cs, height, width)
  {
    var init := cs[..|cs| - 1];
    var k :| 0 <= k < |init| && init[k] == c &&
      forall j :: 0 <= j < k && PageLike(init[j], height, width) ==> Solidity(init[j]) < Solidity(c);
    assert cs[k] == c;
    assert forall j :: 0 <= j < k ==> cs[j] == init[j];
  }

  /** A new page-like contour heads the sort only when it is more solid than every earlier one. */
  lemma NewHeadBeatsEarlier(init: seq<Contour>, x: Contour, height: nat, width: nat)
    requires var prev := Kept(init, height, width);
      prev == [] || !SolidityGe(StableSort(prev, SolidityGe)[0], x)
    ensures forall j :: 0 <= j < |init| && PageLike(init[j], height, width) ==> Solidity(init[j]) < Solidity(x)
  {
    var prev := Kept(init, height, width);
    var sorted := StableSort(prev, SolidityGe);
    forall j | 0 <= j < |init| && PageLike(init[j], height, width) ensures Solidity(init[j]) < Solidity(x) {
      assert init[j] in init;
      KeptIff(init, height, width, init[j]);
      assert init[j] in multiset(sorted);
      SolidityGeIsTotalPreorder();
      SortSorted(prev, SolidityGe);
      SortedHeadFirst(sorted, SolidityGe, init[j]);
    }
  }

  /** Appending a page-like contour puts it through Insert. */
  lemma KeptLastInserted(cs: seq<Contour>, height: nat, width: nat)
    requires cs != [] && PageLike(cs[|cs| - 1], height, width)
    ensures StableSort(Kept(cs, height, width), SolidityGe) ==
      Insert(cs[|cs| - 1], StableSort(Kept(cs[..|cs| - 1], height, width), SolidityGe), SolidityGe)
  {
    var prev := Kept(cs[..|cs| - 1], height, width);
    assert Kept(cs, height, width) == prev + [cs[|cs| - 1]];
    assert (prev + [cs[|cs| - 1]])[..|prev|] == prev;
  }

  /** The sorted head stays when the new contour is not page-like or does not beat it. */
  lemma KeptHeadStays(cs: seq<Contour>, height: nat, width: nat)
    requires cs != [] && Kept(cs[..|cs| - 1], height, width) != []
    requires var x := cs[|cs| - 1];
      !PageLike(x, height, width) ||
      SolidityGe(StableSort(Kept(cs[..|cs| - 1], height, width), SolidityGe)[0], x)
    ensures StableSort(Kept(cs, height, width), SolidityGe)[0] ==
            StableSort(Kept(cs[..|cs| - 1], height, width), SolidityGe)[0]
  {
    if PageLike(cs[|cs| - 1], height, width) {
      KeptLastInserted(cs, height, width);
    }
  }

  /** A page-like contour that beats the sorted head, or meets none, becomes the new head. */
  lemma KeptHeadNew(cs: seq<Contour>, height: nat, width: nat)
    requires cs != [] && PageLike(cs[|cs| - 1], height, width)
    requires var prev := Kept(cs[..|cs| - 1], height, width);
      prev == [] || !SolidityGe(StableSort(prev, SolidityGe)[0], cs[|cs| - 1])
    ensures StableSort(Kept(cs, height, width), SolidityGe)[0] == cs[|cs| - 1]
  {
    KeptLastInserted(cs, height, width);
  }

  lemma AheadOfTiesLast(init: seq<Contour>, cs: seq<Contour>, height: nat, width: nat)
    requires cs != [] && init == cs[..|cs| - 1]
    requires forall j :: 0 <= j < |init| && PageLike(init[j], height, width) ==>
      Solidity(init[j]) < Solidity(cs[|cs| - 1])
    ensures AheadOfTies(cs[|cs| - 1], cs, height, width)
  {
    assert forall j :: 0 <= j < |init| ==> cs[j] == init[j];
  }

  /** The head of the sorted page-like contours is page-like and ahead of its ties in cs. */
  lemma {:induction false} KeptHeadFirst(cs: seq<Contour>, height: nat, width: nat)
    requires Kept(cs, height, width) != []
    ensures var head := StableSort(Kept(cs, height, width), SolidityGe)[0];
      PageLike(head, height, width) && AheadOfTies(head, cs, height, width)
  {
    var n := |cs| - 1;
    var init, x := cs[..n], cs[n];
    var prev := Kept(init, height, width);
    if PageLike(x, height, width) && (prev == [] || !SolidityGe(StableSort(prev, SolidityGe)[0], x)) {
      KeptHeadNew(cs, height, width);
      NewHeadBeatsEarlier(init, x, height, width);
      AheadOfTiesLast(init, cs, height, width);
    } else {
      KeptHeadStays(cs, height, width);
      KeptHeadFirst(init, height, width);
      AheadOfTiesInit(StableSort(prev, SolidityGe)[0], cs, height, width);
    }
  }

  /** filtered_contours[0] is the first most solid page-like contour in findContours order. */
  lemma FilterHeadFirst(cs: seq<Contour>, height: nat, width: nat)
    requires FilterSpec(cs, height, width).Success?
    ensures FilterSpec(cs, height, width).value != [] ==>
      FirstMostSolid(FilterSpec(cs, height, width).value[0], cs, height, width)
  {
    FilterHeadMostSolid(cs, height, width);
    if FilterSpec(cs, height, width).value != [] {
      KeptHeadFirst(cs, height, width);
    }
  }

  /**
   * crop_to_page for a photo of the given height and width: `found` gives the contours
   * findContours returns after each preparation, `foldLines` the HoughLinesP segments of
   * the bottom quarter of a rectangle of the grayscale photo.
   */
  function CropToPage(filename: string, height: nat, width: nat, found: Preparation -> seq<Contour>,
                      foldLines: Rect -> Option<seq<Segment>>, boundingRect: seq<Point> -> Rect)
    : (r: Result<PageCrop, Error>)
    ensures var p := found(PrimaryPreparation(filename));
            var a := found(Adaptive);
      && (r.Failure? <==> Raises(p) || (!HasPage(p, height, width) && Raises(a)))
      && (r == Success(Original) <==>
            !Raises(p) && !HasPage(p, height, width) && !Raises(a) && !HasPage(a, height, width))
      && (!Raises(p) && HasPage(p, height, width) ==>
            exists c :: FirstMostSolid(c, p, height, width) && r == Success(CropTo(PageBox(c, foldLines, boundingRect))))
      && (!Raises(p) && !HasPage(p, height, width) && !Raises(a) && HasPage(a, height, width) ==>
            exists c :: FirstMostSolid(c, a, height, width) && r == Success(CropTo(PageBox(c, foldLines, boundingRect))))
  {
    var primary := found(PrimaryPreparation(filename));
    var fallback := found(Adaptive);
    var filtered := FilterSpec(primary, height, width);
    if filtered.Failure? then Failure(filtered.error)
    else
      FilterHeadMostSolid(primary, height, width);
      FilterHeadFirst(primary, height, width);
      if filtered.value != [] then Success(CropTo(PageBox(filtered.value[0], foldLines, boundingRect)))
      else
        // the adaptive-threshold retry
        var filtered := FilterSpec(fallback, height, width);
        if filtered.Failure? then Failure(filtered.error)
        else
          FilterHeadMostSolid(fallback, height, width);
          FilterHeadFirst(fallback, height, width);
          if filtered.value == [] then Success(Original)
          else Success(CropTo(PageBox(filtered.value[0], foldLines, boundingRect)))
  }

  /** The fallback preparation is consulted only when the primary one yields no page-like contour. */
  lemma FallbackOnlyWhenEmpty(filename: string, height: nat, width: nat,
                              found1: Preparation -> seq<Contour>, found2: Preparation -> seq<Contour>,
                              foldLines: Rect -> Option<seq<Segment>>, boundingRect: seq<Point> -> Rect)
    requires found1(PrimaryPreparation(filename)) == found2(PrimaryPreparation(filename))
    requires var p := found1(PrimaryPreparation(filename));
      Raises(p) || HasPage(p, height, width)
    ensures CropToPage(filename, height, width, found1, foldLines, boundingRect) ==
            CropToPage(filename, height, width, found2, foldLines, boundingRect)
  {
    var p := found1(PrimaryPreparation(filename));
    if !Raises(p) {
      FilterHeadMostSolid(p, height, width);
    }
  }
}
