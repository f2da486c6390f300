/** `fcaesDes/test_v2_batch.py`: the gap crop cut on both sides, first at
    a column gap and then at a row gap inside the columns kept, run on the
    first bulletins of one year in name order. */
module V2Batch {
  import opened Wrappers
  import opened Names
  import opened Grid
  import opened GapScan

  const Threshold: int := 240

  /** A line denser than 30% is content; a gap is two lines in a row below
      2%. The same rule cuts columns and rows. */
  const Rule: GapRule := Pair(30, 2)

  /** `best_right`: the first column gap of the crop under `box`, or its
      width. */
  function BestRight(img: Area, box: Box): (c: nat)
    requires img.Valid() && Inside(box, img.width, img.Height())
    ensures c <= box.right - box.left
  {
    FirstCut(Rule, CropColumns(img, Threshold, box), box.bottom - box.top, 0)
  }

  /** `best_bottom`: the first row gap within the columns left of
      `best_right`, the row densities taken over those columns (0 when there
      are none), or the crop height. */
  function BestBottom(img: Area, box: Box): (c: nat)
    requires img.Valid() && Inside(box, img.width, img.Height())
    ensures c <= box.bottom - box.top
  {
    var right := BestRight(img, box);
    FirstCut(Rule, CropRows(img, Threshold, box, right), right, 0)
  }

  /** The kept part of `box`, left of the column gap and above the row gap. */
  function Kept(img: Area, box: Box): (k: Box)
    requires img.Valid() && Inside(box, img.width, img.Height())
    ensures Nested(k, box)
  {
    Corner(box, BestRight(img, box), BestBottom(img, box))
  }

  /** `fine_crop_refined(img, initial_box)` for a box inside the image: the
      tight box of the content of the kept part, or the initial box when
      it is blank. `None` is the division by a zero height that a box of no
      rows but some columns runs into. */
  function RefineBoth(img: Area, box: Box): (r: Option<Box>)
    requires img.Valid() && Inside(box, img.width, img.Height())
    ensures r.None? <==> box.right - box.left > 0 && box.bottom - box.top == 0
    ensures r.Some? ==> Nested(r.value, box)
  {
    if box.right - box.left > 0 && box.bottom - box.top == 0 then None
    else Some(TightBox(img, Threshold, Kept(img, box)).GetOr(box))
  }

  /** The two scans of `fine_crop_refined`, proved against `RefineBoth`. */
  method FineCropRefined(img: Area, box: Box) returns (r: Option<Box>)
    requires img.Valid() && Inside(box, img.width, img.Height())
    ensures r == RefineBoth(img, box)
  {
    var width, height := box.right - box.left, box.bottom - box.top;
    if width > 0 && height == 0 {
      return None;
    }
    var columns := CropColumns(img, Threshold, box);
    var bestRight, seenColumn := Scan(Rule, columns, height);
    assert bestRight == BestRight(img, box);
    var rows := CropRows(img, Threshold, box, bestRight);
    var bestBottom, seenRow := Scan(Rule, rows, bestRight);
    assert Corner(box, bestRight, bestBottom) == Kept(img, box);
    var finalBox := TightBox(img, Threshold, Corner(box, bestRight, bestBottom));
    if finalBox.Some? {
      r := finalBox;
    } else {
      r := Some(box);
    }
  }

  /** The result is the tight box of the kept part when it has content
      (holding all of it, with content on every edge), else the initial
      box. */
  lemma RefineBothTight(img: Area, box: Box)
    requires img.Valid() && Inside(box, img.width, img.Height()) && box.bottom - box.top > 0
    ensures var k, r := Kept(img, box), RefineBoth(img, box).value;
            if BlankUnder(img, Threshold, k) then r == box
            else Nested(r, k) && CoversUnder(img, Threshold, k, r) && EdgesInked(img, Threshold, r)
  {
  }

  /** A column gap is two columns in a row below 2% after a column over
      30%; in particular a nearly empty last column alone never cuts. */
  lemma ColumnGap(img: Area, box: Box)
    requires img.Valid() && Inside(box, img.width, img.Height())
    requires BestRight(img, box) < box.right - box.left
    ensures var a, x, h := Crop(img, box), BestRight(img, box), box.bottom - box.top;
            x + 1 < box.right - box.left &&
            100 * ColCount(a, Threshold, x, h) < 2 * h && 100 * ColCount(a, Threshold, x + 1, h) < 2 * h &&
            (exists d :: 0 <= d < x && 100 * ColCount(a, Threshold, d, h) > 30 * h)
  {
    var p := CropColumns(img, Threshold, box);
    var h := box.bottom - box.top;
    var x := BestRight(img, box);
    assert IsCut(Rule, p, h, x);
    var d :| 0 <= d < x + 1 && Dense(Rule, p, h, d);
    assert d != x;
  }

  /** A row over 30% of the kept columns lies above the row gap, so the
      kept part then has content. */
  lemma KeptHasContent(img: Area, box: Box)
    requires img.Valid() && Inside(box, img.width, img.Height())
    requires Seen(Rule, CropRows(img, Threshold, box, BestRight(img, box)), BestRight(img, box), box.bottom - box.top)
    ensures !BlankUnder(img, Threshold, Kept(img, box))
  {
    AboveCutHasContent(Rule, img, Threshold, box, BestRight(img, box), BestBottom(img, box));
  }

  /** Once a row over 30% of the kept columns is seen, the result is the
      tight box of the kept part. */
  lemma RowSeenTight(img: Area, box: Box)
    requires img.Valid() && Inside(box, img.width, img.Height()) && box.bottom - box.top > 0
    requires Seen(Rule, CropRows(img, Threshold, box, BestRight(img, box)), BestRight(img, box), box.bottom - box.top)
    ensures RefineBoth(img, box) == TightBox(img, Threshold, Kept(img, box))
  {
    KeptHasContent(img, box);
  }

  /** The guess of `process_test` for a `w x h` bulletin. */
  function InitialBox(w: nat, h: nat): (b: Box)
    ensures Inside(b, w, h)
    ensures (w, h) != (640, 480) ==> b == RatioBox(w, h, 2, 10, 50, 80)
  {
    if (w, h) == (640, 480) then Box(5, 60, 240, 380)
    else RatioBox(w, h, 2, 10, 50, 80)
  }

  /** The files `process_test` crops: the `.jpg` bulletins of the listing,
      sorted, the first min(`limit`, number of them) of them. */
  function BatchFiles(listing: seq<string>, limit: nat): (r: seq<string>)
    ensures var jpgs := Filter(listing, IsJpgName);
            |r| == (if limit < |jpgs| then limit else |jpgs|) && multiset(r) <= multiset(jpgs)
    ensures Sorted(r)
    ensures forall f :: f in r ==> f in listing && IsJpgName(f)
  {
    var jpgs := Filter(listing, IsJpgName);
    var sorted := Sort(jpgs);
    var r := Take(sorted, limit);
    assert forall f :: f in r ==> f in jpgs by {
      forall f | f in r ensures f in jpgs {
        assert f in multiset(r);
      }
    }
    TakeSorted(sorted, limit);
    r
  }

  /** The batch is the first `limit` `.jpg` files by name: every `.jpg`
      of the listing left out comes after every file in the batch, and
      one is left out only when there are more than `limit` of them. */
  lemma BatchIsFirst(listing: seq<string>, limit: nat)
    ensures var batch := BatchFiles(listing, limit);
            forall f, g :: f in batch && g in listing && IsJpgName(g) && g !in batch ==> LessEq(f, g)
    ensures var batch := BatchFiles(listing, limit);
            |Filter(listing, IsJpgName)| <= limit ==> forall g :: g in listing && IsJpgName(g) ==> g in batch
  {
    var jpgs := Filter(listing, IsJpgName);
    var sorted := Sort(jpgs);
    var batch := BatchFiles(listing, limit);
    assert batch == Take(sorted, limit);
    forall g | g in listing && IsJpgName(g) ensures g in sorted {
      assert g in jpgs;
      assert g in multiset(jpgs);
      assert g in multiset(sorted);
    }
    forall f, g | f in batch && g in listing && IsJpgName(g) && g !in batch ensures LessEq(f, g) {
      TakeSmallest(sorted, limit, f, g);
    }
  }

  /** The box saved for a batch file of the given size and pixels. `None`
      is the division by zero of the scan, an exception `process_test` does
      not catch, so it ends the whole batch. */
  function CropBulletin(img: Area): (r: Option<Box>)
    requires img.Valid()
    ensures var b := InitialBox(img.width, img.Height());
            r.None? <==> b.right - b.left > 0 && b.bottom - b.top == 0
    ensures r.Some? ==> Nested(r.value, InitialBox(img.width, img.Height()))
  {
    RefineBoth(img, InitialBox(img.width, img.Height()))
  }
}
