/** `fcaesDes/test_refinement.py`: a second version of the gap crop, with
    a more sensitive threshold and a wider confirmation window, compared on
    one bulletin with the plain tight box of the first engine. */
module Refinement {
  import opened Wrappers
  import opened Grid
  import opened GapScan

  const Threshold: int := 245

  /** A column denser than 20% is photo; a gap is below 3% and stays at
      most 10% over the five columns it starts. */
  const Rule: GapRule := Window(20, 3, 5, 10)

  /** The threshold of the plain tight box it is compared with. */
  const V1Threshold: int := 240

  /** `best_right` of the scan of the crop under `box`. */
  function BestRight(img: Area, box: Box): (c: nat)
    requires img.Valid() && Inside(box, img.width, img.Height())
    ensures c <= box.right - box.left
  {
    FirstCut(Rule, CropColumns(img, Threshold, box), box.bottom - box.top, 0)
  }

  /** `fine_crop_v2(img, initial_box)` for a box inside the image: the
      tight box of the content left of the gap, or the initial box when
      there is none. `None` is the division by a zero height that a box of
      no rows but some columns runs into. Unlike the first version, no
      dense column needs to have been seen. */
  function RefineV2(img: Area, box: Box): (r: Option<Box>)
    requires img.Valid() && Inside(box, img.width, img.Height())
    ensures r.None? <==> box.right - box.left > 0 && box.bottom - box.top == 0
    ensures r.Some? ==> Nested(r.value, box)
  {
    if box.right - box.left > 0 && box.bottom - box.top == 0 then None
    else Some(TightBox(img, Threshold, LeftPart(box, BestRight(img, box))).GetOr(box))
  }

  /** The loop of `fine_crop_v2`, proved against `RefineV2`. */
  method FineCropV2(img: Area, box: Box) returns (r: Option<Box>)
    requires img.Valid() && Inside(box, img.width, img.Height())
    ensures r == RefineV2(img, box)
  {
    var width, height := box.right - box.left, box.bottom - box.top;
    if width > 0 && height == 0 {
      return None;
    }
    var profile := CropColumns(img, Threshold, box);
    var bestRight, found := Scan(Rule, profile, height);
    assert bestRight == BestRight(img, box);
    var finalBox := TightBox(img, Threshold, LeftPart(box, bestRight));
    if finalBox.Some? {
      r := finalBox;
    } else {
      r := Some(box);
    }
  }

  /** With content left of the gap the result is its tight box: holding
      all that content, with content on its four edges; otherwise it is the
      initial box. */
  lemma RefineV2Tight(img: Area, box: Box)
    requires img.Valid() && Inside(box, img.width, img.Height()) && box.bottom - box.top > 0
    ensures var part := LeftPart(box, BestRight(img, box));
            var r := RefineV2(img, box).value;
            if BlankUnder(img, Threshold, part) then r == box
            else Nested(r, part) && CoversUnder(img, Threshold, part, r) && EdgesInked(img, Threshold, r)
  {
  }

  /** When a dense column was seen the tight box always exists, so the
      initial box is returned only when the scan saw no photo column. */
  lemma RefineV2Seen(img: Area, box: Box)
    requires img.Valid() && Inside(box, img.width, img.Height()) && box.bottom - box.top > 0
    requires Seen(Rule, CropColumns(img, Threshold, box), box.bottom - box.top, box.right - box.left)
    ensures RefineV2(img, box) == TightBox(img, Threshold, LeftPart(box, BestRight(img, box)))
  {
    LeftOfCutHasContent(Rule, img, Threshold, box, BestRight(img, box));
  }

  /** The guess of `main` for its 640 x 480 bulletin. */
  const Guess: Box := Box(5, 60, 230, 360)

  /** The two boxes `main` compares: the plain tight box at the first
      engine's threshold, `None` when that part is blank, and the second
      version's box (`None` never arises: the guess has rows). */
  function Compare(img: Area): (r: (Option<Box>, Option<Box>))
    requires img.Valid() && Inside(Guess, img.width, img.Height())
    ensures r.0.None? <==> BlankUnder(img, V1Threshold, Guess)
    ensures r.0.Some? ==> Nested(r.0.value, Guess) && CoversUnder(img, V1Threshold, Guess, r.0.value)
    ensures r.1.Some? && Nested(r.1.value, Guess)
  {
    (TightBox(img, V1Threshold, Guess), RefineV2(img, Guess))
  }
}
