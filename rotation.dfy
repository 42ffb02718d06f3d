/**
 * The orientation decision of utils/rotation.py. Tesseract's orientation and script
 * detection is an input giving, for a crop box of the photo and an attempt, either the
 * reading (rotate, orientation_conf) or None when the call raised; the Hough transform
 * is an input giving the near-vertical candidates in degrees, or None when it found no lines.
 */
module Rotation {
  import opened Numbers
  import opened Outcomes
  import opened Geometry

  /** int(n * scale), which for 0 <= scale <= 1 lies between 0 and n. */
  function ScaledLength(n: nat, scale: real): (m: int)
    ensures 0.0 <= scale <= 1.0 ==> 0 <= m <= n
  {
    ScaledWithin(n, scale);
    Trunc(n as real * scale)
  }

  lemma ScaledWithin(n: nat, scale: real)
    ensures 0.0 <= scale <= 1.0 ==> 0 <= Trunc(n as real * scale) <= n
  {
    if 0.0 <= scale <= 1.0 {
      assert n as real * scale <= n as real * 1.0;
    }
  }

  /** crop_image: the box of a crop scaled by `scale`, with the margins split evenly (the odd pixel right and below). */
  function CropImage(image: Size, scale: real): (b: Box)
    ensures b.right - b.left == ScaledLength(image.width, scale)
    ensures b.bottom - b.top == ScaledLength(image.height, scale)
    ensures 0.0 <= scale <= 1.0 ==>
      && 0 <= b.left <= b.right <= image.width && 0 <= b.top <= b.bottom <= image.height
      && 0 <= (image.width - b.right) - b.left <= 1
      && 0 <= (image.height - b.bottom) - b.top <= 1
  {
    var newWidth := ScaledLength(image.width, scale);
    var newHeight := ScaledLength(image.height, scale);
    var startX := (image.width - newWidth) / 2;
    var startY := (image.height - newHeight) / 2;
    Box(startX, startY, startX + newWidth, startY + newHeight)
  }

  /** The left half [0, width // 2) and the right half [width // 2, width), both of full height. */
  function Halves(image: Size): (halves: (Box, Box))
    ensures var (l, r) := halves;
      && l.left == 0 && l.right == r.left && r.right == image.width
      && l.top == r.top == 0 && l.bottom == r.bottom == image.height
      && 0 <= l.right <= image.width
      && 0 <= (r.right - r.left) - (l.right - l.left) <= 1
  {
    var middle := image.width / 2;
    (Box(0, 0, middle, image.height), Box(middle, 0, image.width, image.height))
  }

  /** A reading of image_to_osd: osd['rotate'] and osd['orientation_conf']. */
  datatype Osd = Osd(rotate: int, confidence: real)

  /** The two attempts of get_box_orientation: the grayscale crop at 100 dpi, then the blurred one at 200 dpi. */
  datatype Attempt = Plain | Denoised

  /** An attempt counts when it returned a reading with confidence at least 2.0. */
  function Confident(reading: Option<Osd>): (angle: Option<int>)
    ensures angle.Some? <==> reading.Some? && reading.value.confidence >= 2.0
    ensures angle.Some? ==> angle.value == reading.value.rotate
  {
    if reading.Some? && !(reading.value.confidence < 2.0) then Some(reading.value.rotate) else None
  }

  /** get_box_orientation: the first attempt's angle if it counts, else the second's; None when it raises. */
  function BoxOrientation(plain: Option<Osd>, denoised: Option<Osd>): (angle: Option<int>)
    ensures angle.Some? <==> Confident(plain).Some? || Confident(denoised).Some?
  {
    match Confident(plain)
    case Some(a) => Some(a)
    case None => Confident(denoised)
  }

  /** BoxOrientation is the first confident reading of its two attempts. */
  lemma BoxOrientationFirstConfident(plain: Option<Osd>, denoised: Option<Osd>)
    ensures BoxOrientation(plain, denoised) == FirstSome([Confident(plain), Confident(denoised)])
  {
    var attempts := [Confident(plain), Confident(denoised)];
    if Confident(plain).None? && Confident(denoised).Some? {
      var i :| 0 <= i < |attempts| && attempts[i] == FirstSome(attempts) &&
               forall j :: 0 <= j < i ==> attempts[j].None?;
    }
  }

  /** The centre crop at 0.95, then the left half, then the right half: the boxes get_text_orientation tries. */
  function Regions(image: Size): (boxes: seq<Box>)
    ensures |boxes| == 3
  {
    var (left, right) := Halves(image);
    [CropImage(image, 0.95), left, right]
  }

  function Reading(osd: (Box, Attempt) -> Option<Osd>, region: Box): Option<int>
  {
    BoxOrientation(osd(region, Plain), osd(region, Denoised))
  }

  /** The coarse angle get_text_orientation detects before the landscape rule. */
  function DetectedAngle(image: Size, osd: (Box, Attempt) -> Option<Osd>): (angle: int)
    ensures var rs := Regions(image);
      angle == FirstSome([Reading(osd, rs[0]), Reading(osd, rs[1]), Reading(osd, rs[2])]).GetOr(0)
  {
    var rs := Regions(image);
    var attempts := [Reading(osd, rs[0]), Reading(osd, rs[1]), Reading(osd, rs[2])];
    var r := FirstSome(attempts);
    if Reading(osd, rs[0]).Some? then
      Reading(osd, rs[0]).value
    else if Reading(osd, rs[1]).Some? then
      assert attempts[1].Some?;
      var i :| 0 <= i < |attempts| && attempts[i] == r && forall j :: 0 <= j < i ==> attempts[j].None?;
      Reading(osd, rs[1]).value
    else if Reading(osd, rs[2]).Some? then
      assert attempts[2].Some?;
      var i :| 0 <= i < |attempts| && attempts[i] == r && forall j :: 0 <= j < i ==> attempts[j].None?;
      Reading(osd, rs[2]).value
    else
      0
  }

  /** The coarse angle: a zero detection on a landscape frame becomes 90. */
  function CoarseAngle(image: Size, osd: (Box, Attempt) -> Option<Osd>): (angle: int)
    ensures DetectedAngle(image, osd) == 0 && image.width > image.height <==> angle == 90 && DetectedAngle(image, osd) != 90
    ensures angle != 90 ==> angle == DetectedAngle(image, osd)
    ensures angle == 0 ==> image.width <= image.height
  {
    var detected := DetectedAngle(image, osd);
    if detected == 0 && image.width > image.height then 90 else detected
  }

  /** rotation_angle after the try chain, for each way the chain can end. */
  lemma CoarseAngleCases(image: Size, osd: (Box, Attempt) -> Option<Osd>)
    ensures var rs := Regions(image);
      && (Reading(osd, rs[0]).Some? ==> DetectedAngle(image, osd) == Reading(osd, rs[0]).value)
      && (Reading(osd, rs[0]).None? && Reading(osd, rs[1]).Some? ==> DetectedAngle(image, osd) == Reading(osd, rs[1]).value)
      && (Reading(osd, rs[0]).None? && Reading(osd, rs[1]).None? && Reading(osd, rs[2]).Some? ==>
            DetectedAngle(image, osd) == Reading(osd, rs[2]).value)
      && (Reading(osd, rs[0]).None? && Reading(osd, rs[1]).None? && Reading(osd, rs[2]).None? ==>
            DetectedAngle(image, osd) == 0)
  {
    var rs := Regions(image);
    var attempts := [Reading(osd, rs[0]), Reading(osd, rs[1]), Reading(osd, rs[2])];
    var r := FirstSome(attempts);
    if r.Some? {
      var i :| 0 <= i < |attempts| && attempts[i] == r && forall j :: 0 <= j < i ==> attempts[j].None?;
    }
  }

  /** The near-vertical candidates kept by fine_grained_rotation: strictly between 85 and 95 degrees. */
  function NearVertical(angles: seq<real>): seq<real>
  {
    if angles == [] then []
    else
      var prev := NearVertical(angles[..|angles| - 1]);
      var a := angles[|angles| - 1];
      if 85.0 < a < 95.0 then prev + [a] else prev
  }

  lemma {:induction false} NearVerticalIff(angles: seq<real>, a: real)
    ensures a in NearVertical(angles) <==> a in angles && 85.0 < a < 95.0
  {
    if angles != [] {
      NearVerticalIff(angles[..|angles| - 1], a);
      assert angles == angles[..|angles| - 1] + [angles[|angles| - 1]];
    }
  }

  lemma NearVerticalBounds(angles: seq<real>)
    ensures forall i :: 0 <= i < |NearVertical(angles)| ==> 85.0 < NearVertical(angles)[i] < 95.0
  {
    forall i | 0 <= i < |NearVertical(angles)| ensures 85.0 < NearVertical(angles)[i] < 95.0 {
      NearVerticalIff(angles, NearVertical(angles)[i]);
    }
  }

  /** The fine correction: 90 minus the mean of the near-vertical angles, or 0 when there are none. */
  function FineAngle(lines: Option<seq<real>>): (fine: real)
    ensures -5.0 < fine < 5.0
    ensures (lines.None? || forall a <- lines.value :: !(85.0 < a < 95.0)) ==> fine == 0.0
  {
    if lines.None? then 0.0
    else
      var angles := NearVertical(lines.value);
      if angles == [] then 0.0
      else
        NearVerticalBounds(lines.value);
        MeanBounds(angles, 85.0, 95.0);
        assert angles[0] in angles;
        NearVerticalIff(lines.value, angles[0]);
        -(Sum(angles) / |angles| as real - 90.0)
  }

  /** With some near-vertical angle, 90 - FineAngle is their mean. */
  lemma FineAngleIsCentredMean(lines: Option<seq<real>>, a: real)
    requires lines.Some? && a in lines.value && 85.0 < a < 95.0
    ensures var angles := NearVertical(lines.value);
      angles != [] && 90.0 - FineAngle(lines) == Sum(angles) / |angles| as real
  {
    NearVerticalIff(lines.value, a);
  }

  /** fine_grained_rotation on the angles of the lines HoughLines returned. */
  method FineGrainedRotation(lines: Option<seq<real>>) returns (fine: real)
    ensures fine == FineAngle(lines)
  {
    if lines.None? {
      return 0.0;
    }
    var angles: seq<real> := [];
    for k := 0 to |lines.value|
      invariant angles == NearVertical(lines.value[..k])
    {
      var angle := lines.value[k];
      assert lines.value[..k + 1][..k] == lines.value[..k];
      if 85.0 < angle < 95.0 {
        angles := angles + [angle];
      }
    }
    assert lines.value[..|lines.value|] == lines.value;
    var meanOffset := 0.0;
    if angles != [] {
      meanOffset := Sum(angles) / |angles| as real - 90.0;
    }
    fine := -meanOffset;
  }

  /**
   * get_text_orientation: the coarse angle plus the fine correction measured on the
   * centre crop turned by the coarse angle (`hough` gives that measurement for each coarse angle).
   */
  function TextOrientation(image: Size, osd: (Box, Attempt) -> Option<Osd>, hough: int -> Option<seq<real>>): (total: real)
    ensures var coarse := CoarseAngle(image, osd) as real;
      coarse - 5.0 < total < coarse + 5.0
    ensures total == CoarseAngle(image, osd) as real + FineAngle(hough(CoarseAngle(image, osd)))
  {
    var coarse := CoarseAngle(image, osd);
    coarse as real + FineAngle(hough(coarse))
  }

  /** A landscape frame on which no attempt counts ends up within five degrees of a quarter turn. */
  lemma LandscapeWithoutReadingTurnsQuarter(image: Size, osd: (Box, Attempt) -> Option<Osd>, hough: int -> Option<seq<real>>)
    requires image.width > image.height
    requires forall b: Box, t: Attempt :: Confident(osd(b, t)).None?
    ensures CoarseAngle(image, osd) == 90
    ensures 85.0 < TextOrientation(image, osd, hough) < 95.0
  {
    var rs := Regions(image);
    assert Confident(osd(rs[0], Plain)).None? && Confident(osd(rs[0], Denoised)).None?;
    assert Confident(osd(rs[1], Plain)).None? && Confident(osd(rs[1], Denoised)).None?;
    assert Confident(osd(rs[2], Plain)).None? && Confident(osd(rs[2], Denoised)).None?;
    CoarseAngleCases(image, osd);
  }

  /** A 2000 x 1000 photo whose readings all say 0 and with no Hough lines is turned by exactly 90 degrees. */
  lemma LandscapeZeroReadingExample()
    ensures TextOrientation(Size(2000, 1000), (b: Box, t: Attempt) => Some(Osd(0, 5.0)), (c: int) => None) == 90.0
  {
    var osd := (b: Box, t: Attempt) => Some(Osd(0, 5.0));
    CoarseAngleCases(Size(2000, 1000), osd);
  }
}
