/** `fcaesDes/step2_fine_crop.py`: crops the photo of every downloaded
    bulletin, cutting its right edge at the first white column gap after
    the photo and trimming the rest to the tight box of the content. */
module Step2FineCrop {
  import opened Wrappers
  import opened Text
  import opened Names
  import opened Grid
  import opened GapScan

  const Threshold: int := 240

  /** A column denser than 15% is photo; a gap is below 2% and stays at
      most 5% over the two columns it starts. */
  const Rule: GapRule := Window(15, 2, 2, 5)

  /** The content counts of the columns of the crop under `box`. */
  function Columns(img: Area, box: Box): (p: seq<nat>)
    requires img.Valid() && Inside(box, img.width, img.Height())
    ensures |p| == box.right - box.left
  {
    CropColumns(img, Threshold, box)
  }

  /** `best_right`: the first confirmed gap column, or the crop width. */
  function BestRight(img: Area, box: Box): (c: nat)
    requires img.Valid() && Inside(box, img.width, img.Height())
    ensures c <= box.right - box.left
  {
    FirstCut(Rule, Columns(img, box), box.bottom - box.top, 0)
  }

  /** `has_seen_dense_content` at the end of the scan. */
  predicate SeenDense(img: Area, box: Box)
    requires img.Valid() && Inside(box, img.width, img.Height())
  {
    Seen(Rule, Columns(img, box), box.bottom - box.top, box.right - box.left)
  }

  /** `fine_crop(img, initial_box)` for a box inside the image. `None` is
      the division by the zero height that a box of no rows but some columns
      runs into; the caller catches it as a cropping error. Otherwise the
      tight box of the content left of the gap when a dense column was seen,
      else the initial box. */
  function Refine(img: Area, box: Box): (r: Option<Box>)
    requires img.Valid() && Inside(box, img.width, img.Height())
    ensures r.None? <==> box.right - box.left > 0 && box.bottom - box.top == 0
    ensures r.Some? ==> Nested(r.value, box)
  {
    if box.right - box.left > 0 && box.bottom - box.top == 0 then None
    else
      var bbox := TightBox(img, Threshold, LeftPart(box, BestRight(img, box)));
      if bbox.Some? && SeenDense(img, box) then bbox else Some(box)
  }

  /** The loop of `fine_crop`, proved against `Refine`. */
  method FineCrop(img: Area, box: Box) returns (r: Option<Box>)
    requires img.Valid() && Inside(box, img.width, img.Height())
    ensures r == Refine(img, box)
  {
    var width, height := box.right - box.left, box.bottom - box.top;
    if width > 0 && height == 0 {
      return None;
    }
    var profile := Columns(img, box);
    var bestRight, seen := Scan(Rule, profile, height);
    assert bestRight == BestRight(img, box) && seen == SeenDense(img, box);
    var finalBox := TightBox(img, Threshold, LeftPart(box, bestRight));
    if finalBox.Some? && seen {
      r := finalBox;
    } else {
      r := Some(box);
    }
  }

  /** Without a dense column the initial box is kept. */
  lemma RefineWithoutDense(img: Area, box: Box)
    requires img.Valid() && Inside(box, img.width, img.Height()) && box.bottom - box.top > 0
    requires forall x :: 0 <= x < box.right - box.left ==>
               100 * Columns(img, box)[x] <= 15 * (box.bottom - box.top)
    ensures Refine(img, box) == Some(box)
  {
    var p := Columns(img, box);
    var h := box.bottom - box.top;
    forall i | 0 <= i < |p|
      ensures !Dense(Rule, p, h, i)
    {
      assert 100 * p[i] <= 15 * h;
    }
  }

  /** A dense column lies left of the gap, so the part left of the gap is
      never blank once one was seen. */
  lemma LeftPartHasContent(img: Area, box: Box)
    requires img.Valid() && Inside(box, img.width, img.Height())
    requires SeenDense(img, box)
    ensures !BlankUnder(img, Threshold, LeftPart(box, BestRight(img, box)))
    ensures TightBox(img, Threshold, LeftPart(box, BestRight(img, box))).Some?
  {
    LeftOfCutHasContent(Rule, img, Threshold, box, BestRight(img, box));
  }

  /** Once a dense column is seen, the result is the tight box around the
      content left of the gap: inside the initial box, ending at or before
      the gap, holding every content pixel left of the gap, and with content
      on all four edges. */
  lemma RefineWithDense(img: Area, box: Box)
    requires img.Valid() && Inside(box, img.width, img.Height()) && box.bottom - box.top > 0
    requires SeenDense(img, box)
    ensures Refine(img, box).Some?
    ensures Refine(img, box) == TightBox(img, Threshold, LeftPart(box, BestRight(img, box)))
    ensures Nested(Refine(img, box).value, LeftPart(box, BestRight(img, box)))
    ensures CoversUnder(img, Threshold, LeftPart(box, BestRight(img, box)), Refine(img, box).value)
    ensures EdgesInked(img, Threshold, Refine(img, box).value)
  {
    LeftPartHasContent(img, box);
  }

  /** When the scan stops before the right edge, the stopping column is a
      gap in pixel terms: under 2% content, at most 5% in it and the next
      column (when there is one), and some column before it is over 15%. */
  lemma BestRightIsGap(img: Area, box: Box)
    requires img.Valid() && Inside(box, img.width, img.Height())
    requires BestRight(img, box) < box.right - box.left
    ensures var a, x, h := Crop(img, box), BestRight(img, box), box.bottom - box.top;
            100 * ColCount(a, Threshold, x, h) < 2 * h &&
            (forall c :: x <= c < Min(x + 2, box.right - box.left) ==> 100 * ColCount(a, Threshold, c, h) <= 5 * h) &&
            (exists d :: 0 <= d < x && 100 * ColCount(a, Threshold, d, h) > 15 * h)
  {
    var p := Columns(img, box);
    var h := box.bottom - box.top;
    var x := BestRight(img, box);
    assert IsCut(Rule, p, h, x);
    var d :| 0 <= d < x + 1 && Dense(Rule, p, h, d);
    BelowNotAbove(p[x], h, Rule.gapPct, Rule.densePct);
    assert d != x;
  }

  /** The initial guess of `process_year_folder` for a `w x h` bulletin. */
  function InitialBox(w: nat, h: nat): (b: Box)
    ensures Inside(b, w, h)
    ensures (w, h) != (640, 480) && (w, h) != (680, 528) ==> b == RatioBox(w, h, 2, 10, 50, 80)
  {
    if (w, h) == (640, 480) then Box(5, 60, 245, 380)
    else if (w, h) == (680, 528) then Box(10, 80, 420, 450)
    else RatioBox(w, h, 2, 10, 50, 80)
  }

  /** The box cut for one bulletin, or `None` when opening it (given as
      `None`) or cutting it failed. */
  function CropBulletin(loaded: Option<Area>): (r: Option<Box>)
    requires loaded.Some? ==> loaded.value.Valid()
    ensures loaded.None? ==> r.None?
    ensures loaded.Some? ==>
              var b := InitialBox(loaded.value.width, loaded.value.Height());
              (r.None? <==> b.right - b.left > 0 && b.bottom - b.top == 0) &&
              (r.Some? ==> Nested(r.value, b))
  {
    match loaded
    case None => None
    case Some(img) => Refine(img, InitialBox(img.width, img.Height()))
  }

  /** The crop of `filename` is saved as `foto_<filename>`; the input name
      can be read back from it. */
  function OutputName(filename: string): (r: string)
    ensures StartsWith(r, "foto_") && r[5..] == filename
  {
    "foto_" + filename
  }

  /** Which listed files `process_year_folder` crops: images whose output
      is not among the existing files of the crop folder. */
  function Pending(existing: set<string>): (r: string -> bool)
    ensures forall name :: r(name) <==> IsImageName(name) && OutputName(name) !in existing
  {
    name => IsImageName(name) && OutputName(name) !in existing
  }

  /** The loop of `process_year_folder` over the listing of the full
      bulletins folder: nothing when that folder is missing, otherwise the
      pending files in listing order. */
  method PendingFiles(fullDirExists: bool, listing: seq<string>, existing: set<string>)
    returns (todo: seq<string>)
    ensures !fullDirExists ==> todo == []
    ensures fullDirExists ==> todo == Filter(listing, Pending(existing))
  {
    todo := [];
    if !fullDirExists {
      return;
    }
    var pending := Pending(existing);
    var i := 0;
    while i < |listing|
      invariant 0 <= i <= |listing|
      invariant todo == Filter(listing[..i], pending)
    {
      var name := listing[i];
      FilterStep(listing, i, pending);
      if pending(name) {
        todo := todo + [name];
      }
      i := i + 1;
    }
    assert listing[..i] == listing;
  }

  /** Every file cropped is an image whose photo is still missing. */
  lemma PendingAreNew(listing: seq<string>, existing: set<string>, name: string)
    requires name in Filter(listing, Pending(existing))
    ensures name in listing && IsImageName(name) && OutputName(name) !in existing
  {
  }

  /** `folder.isdigit()`: a nonempty run of decimal digits, so a year
      folder is never taken for an image file, and every year written in
      decimal is one. */
  predicate IsYearName(name: string)
    ensures IsYearName(name) ==> !IsImageName(name)
  {
    assert AllDigits(name) ==> '.' !in name by {
      if AllDigits(name) {
        forall k | 0 <= k < |name| ensures name[k] != '.' {
          assert IsDigit(name[k]);
        }
      }
    }
    |name| > 0 && AllDigits(name)
  }

  /** The decimal rendering of a year names a year folder. */
  lemma YearFolderName(year: nat)
    ensures IsYearName(NatToString(year))
  {
  }

  /** The folders `main` processes: directories named by digits, in listing
      order. */
  function YearFolders(listing: seq<string>, isDir: string -> bool): (r: seq<string>)
    ensures forall f :: f in r <==> f in listing && isDir(f) && IsYearName(f)
  {
    Filter(listing, f => isDir(f) && IsYearName(f))
  }
}
