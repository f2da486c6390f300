/** Grayscale pixel grids and the PIL box operations the bulletin croppers
    rely on: `crop` inside the image, thresholding (gray above the threshold
    is background, anything else is content), `getbbox` of the content, and
    the boxes derived from fixed ratios of the image size. */
module Grid {
  import opened Wrappers

  /** A PIL box: left, top, right, bottom, with right and bottom exclusive. */
  datatype Box = Box(left: int, top: int, right: int, bottom: int)

  /** A grayscale image or area: `width` columns and its rows, top first. */
  datatype Area = Area(width: nat, rows: seq<seq<int>>) {
    predicate Valid() {
      forall y :: 0 <= y < |rows| ==> |rows[y]| == width
    }

    function Height(): nat {
      |rows|
    }
  }

  /** `[0, w) x [0, h)` is a region of the valid area `a`. */
  predicate InRegion(a: Area, w: nat, h: nat) {
    a.Valid() && w <= a.width && h <= a.Height()
  }

  /** `b` lies inside a `width` x `height` image. */
  predicate Inside(b: Box, width: nat, height: nat) {
    0 <= b.left <= b.right <= width && 0 <= b.top <= b.bottom <= height
  }

  /** `inner` lies inside `outer`. */
  predicate Nested(inner: Box, outer: Box) {
    outer.left <= inner.left <= inner.right <= outer.right &&
    outer.top <= inner.top <= inner.bottom <= outer.bottom
  }

  /** `img.crop(b)` for a box inside the image. */
  function Crop(img: Area, b: Box): (r: Area)
    requires img.Valid() && Inside(b, img.width, img.Height())
    ensures r.Valid() && r.width == b.right - b.left && r.Height() == b.bottom - b.top
    ensures IsCrop(r, img, b)
  {
    Area(b.right - b.left, CroppedRows(img, b, b.bottom - b.top))
  }

  /** `area` holds the pixels of `img` under `box`, moved to the origin. */
  predicate IsCrop(area: Area, img: Area, box: Box)
    requires img.Valid() && Inside(box, img.width, img.Height())
  {
    area.Valid() && area.width == box.right - box.left && area.Height() == box.bottom - box.top &&
    forall x, y :: 0 <= x < area.width && 0 <= y < area.Height() ==>
      area.rows[y][x] == img.rows[box.top + y][box.left + x]
  }

  /** The first `n` rows of the crop, each cut to the box's columns. */
  function CroppedRows(img: Area, b: Box, n: nat): (rows: seq<seq<int>>)
    requires img.Valid() && Inside(b, img.width, img.Height()) && n <= b.bottom - b.top
    ensures |rows| == n
    ensures forall y :: 0 <= y < n ==> |rows[y]| == b.right - b.left
    ensures forall x, y :: 0 <= x < b.right - b.left && 0 <= y < n ==>
              rows[y][x] == img.rows[b.top + y][b.left + x]
  {
    if n == 0 then [] else CroppedRows(img, b, n - 1) + [img.rows[b.top + n - 1][b.left..b.right]]
  }

  /** Pixel (x, y) is content: its gray value is not above the threshold. */
  predicate Content(a: Area, thr: int, x: nat, y: nat)
    requires a.Valid() && x < a.width && y < a.Height()
  {
    a.rows[y][x] <= thr
  }

  /** Column `x` holds content in one of its first `h` rows. */
  predicate ColHas(a: Area, thr: int, x: nat, h: nat)
    requires a.Valid() && x < a.width && h <= a.Height()
  {
    exists y :: 0 <= y < h && Content(a, thr, x, y)
  }

  /** Row `y` holds content in one of its first `w` columns. */
  predicate RowHas(a: Area, thr: int, y: nat, w: nat)
    requires a.Valid() && w <= a.width && y < a.Height()
  {
    exists x :: 0 <= x < w && Content(a, thr, x, y)
  }

  /** Number of content pixels among the first `h` rows of column `x`. */
  function ColCount(a: Area, thr: int, x: nat, h: nat): (n: nat)
    requires a.Valid() && x < a.width && h <= a.Height()
    ensures n <= h
    ensures n > 0 <==> ColHas(a, thr, x, h)
  {
    if h == 0 then 0
    else ColCount(a, thr, x, h - 1) + (if Content(a, thr, x, h - 1) then 1 else 0)
  }

  /** Number of content pixels among the first `w` columns of row `y`. */
  function RowCount(a: Area, thr: int, y: nat, w: nat): (n: nat)
    requires a.Valid() && w <= a.width && y < a.Height()
    ensures n <= w
    ensures n > 0 <==> RowHas(a, thr, y, w)
  {
    if w == 0 then 0
    else RowCount(a, thr, y, w - 1) + (if Content(a, thr, w - 1, y) then 1 else 0)
  }

  /** The first column at or after `from` with content, or `w`. */
  function FirstCol(a: Area, thr: int, w: nat, h: nat, from: nat): (c: nat)
    requires InRegion(a, w, h) && from <= w
    ensures from <= c <= w
    ensures c < w ==> ColHas(a, thr, c, h)
    decreases w - from
  {
    if from == w then w
    else if ColHas(a, thr, from, h) then from
    else FirstCol(a, thr, w, h, from + 1)
  }

  /** No column before the one `FirstCol` finds has content. */
  lemma {:induction false} FirstColSkips(a: Area, thr: int, w: nat, h: nat, from: nat)
    requires InRegion(a, w, h) && from <= w
    ensures forall x :: from <= x < FirstCol(a, thr, w, h, from) ==> !ColHas(a, thr, x, h)
    decreases w - from
  {
    if from < w && !ColHas(a, thr, from, h) {
      FirstColSkips(a, thr, w, h, from + 1);
    }
  }

  /** One past the last column before `to` with content, or 0. */
  function EndCol(a: Area, thr: int, to: nat, h: nat): (c: nat)
    requires InRegion(a, to, h)
    ensures c <= to
    ensures c > 0 ==> ColHas(a, thr, c - 1, h)
  {
    if to == 0 then 0
    else if ColHas(a, thr, to - 1, h) then to
    else EndCol(a, thr, to - 1, h)
  }

  /** No column from the end `EndCol` finds up to `to` has content. */
  lemma {:induction false} EndColSkips(a: Area, thr: int, to: nat, h: nat)
    requires InRegion(a, to, h)
    ensures forall x :: EndCol(a, thr, to, h) <= x < to ==> !ColHas(a, thr, x, h)
  {
    if to > 0 && !ColHas(a, thr, to - 1, h) {
      EndColSkips(a, thr, to - 1, h);
    }
  }

  /** The first row at or after `from` with content, or `h`. */
  function FirstRow(a: Area, thr: int, w: nat, h: nat, from: nat): (r: nat)
    requires InRegion(a, w, h) && from <= h
    ensures from <= r <= h
    ensures r < h ==> RowHas(a, thr, r, w)
    decreases h - from
  {
    if from == h then h
    else if RowHas(a, thr, from, w) then from
    else FirstRow(a, thr, w, h, from + 1)
  }

  /** No row before the one `FirstRow` finds has content. */
  lemma {:induction false} FirstRowSkips(a: Area, thr: int, w: nat, h: nat, from: nat)
    requires InRegion(a, w, h) && from <= h
    ensures forall y :: from <= y < FirstRow(a, thr, w, h, from) ==> !RowHas(a, thr, y, w)
    decreases h - from
  {
    if from < h && !RowHas(a, thr, from, w) {
      FirstRowSkips(a, thr, w, h, from + 1);
    }
  }

  /** One past the last row before `to` with content, or 0. */
  function EndRow(a: Area, thr: int, w: nat, to: nat): (r: nat)
    requires InRegion(a, w, to)
    ensures r <= to
    ensures r > 0 ==> RowHas(a, thr, r - 1, w)
  {
    if to == 0 then 0
    else if RowHas(a, thr, to - 1, w) then to
    else EndRow(a, thr, w, to - 1)
  }

  /** No row from the end `EndRow` finds up to `to` has content. */
  lemma {:induction false} EndRowSkips(a: Area, thr: int, w: nat, to: nat)
    requires InRegion(a, w, to)
    ensures forall y :: EndRow(a, thr, w, to) <= y < to ==> !RowHas(a, thr, y, w)
  {
    if to > 0 && !RowHas(a, thr, to - 1, w) {
      EndRowSkips(a, thr, w, to - 1);
    }
  }

  /** No content pixel in the region `[0, w) x [0, h)`. */
  predicate Blank(a: Area, thr: int, w: nat, h: nat)
    requires InRegion(a, w, h)
  {
    forall x, y :: 0 <= x < w && 0 <= y < h ==> !Content(a, thr, x, y)
  }

  /** `b` holds every content pixel of the region `[0, w) x [0, h)`. */
  predicate Covers(a: Area, thr: int, w: nat, h: nat, b: Box)
    requires InRegion(a, w, h)
  {
    forall x, y :: 0 <= x < w && 0 <= y < h && Content(a, thr, x, y) ==>
      b.left <= x < b.right && b.top <= y < b.bottom
  }

  /** PIL `getbbox` of the thresholded region `[0, w) x [0, h)`: the tight
      box around its content pixels, or `None` when it has none. */
  function BBox(a: Area, thr: int, w: nat, h: nat): (r: Option<Box>)
    requires InRegion(a, w, h)
    ensures r.None? <==> Blank(a, thr, w, h)
    ensures r.Some? ==> Tight(a, thr, w, h, r.value)
  {
    var left := FirstCol(a, thr, w, h, 0);
    if left == w then
      assert Blank(a, thr, w, h) by {
        FirstColSkips(a, thr, w, h, 0);
        forall x, y | 0 <= x < w && 0 <= y < h
          ensures !Content(a, thr, x, y)
        {
          assert !ColHas(a, thr, x, h);
        }
      }
      None
    else
      ColGivesRow(a, thr, w, h, left);
      EdgeScans(a, thr, w, h);
      var b := Box(left, FirstRow(a, thr, w, h, 0), EndCol(a, thr, w, h), EndRow(a, thr, w, h));
      assert Covers(a, thr, w, h, b) by {
        forall x, y | 0 <= x < w && 0 <= y < h && Content(a, thr, x, y)
          ensures b.left <= x < b.right && b.top <= y < b.bottom
        {
          assert ColHas(a, thr, x, h);
          assert RowHas(a, thr, y, w);
        }
      }
      Some(b)
  }

  /** What the four edge scans of `getbbox` skip holds no content. */
  lemma EdgeScans(a: Area, thr: int, w: nat, h: nat)
    requires InRegion(a, w, h)
    ensures forall x :: 0 <= x < FirstCol(a, thr, w, h, 0) ==> !ColHas(a, thr, x, h)
    ensures forall x :: EndCol(a, thr, w, h) <= x < w ==> !ColHas(a, thr, x, h)
    ensures forall y :: 0 <= y < FirstRow(a, thr, w, h, 0) ==> !RowHas(a, thr, y, w)
    ensures forall y :: EndRow(a, thr, w, h) <= y < h ==> !RowHas(a, thr, y, w)
  {
    FirstColSkips(a, thr, w, h, 0);
    EndColSkips(a, thr, w, h);
    FirstRowSkips(a, thr, w, h, 0);
    EndRowSkips(a, thr, w, h);
  }

  /** A column with content crosses a row with content. */
  lemma ColGivesRow(a: Area, thr: int, w: nat, h: nat, x: nat)
    requires InRegion(a, w, h) && x < w && ColHas(a, thr, x, h)
    ensures exists y :: 0 <= y < h && RowHas(a, thr, y, w)
  {
    var y :| 0 <= y < h && Content(a, thr, x, y);
    assert RowHas(a, thr, y, w);
  }

  /** `b` is a nonempty box of the region `[0, w) x [0, h)` that holds all
      its content, with content on each of its four edge lines. */
  predicate Tight(a: Area, thr: int, w: nat, h: nat, b: Box)
    requires InRegion(a, w, h)
  {
    Inside(b, w, h) && b.left < b.right && b.top < b.bottom && Covers(a, thr, w, h, b) &&
    ColHas(a, thr, b.left, h) && ColHas(a, thr, b.right - 1, h) &&
    RowHas(a, thr, b.top, w) && RowHas(a, thr, b.bottom - 1, w)
  }

  /** A box found inside an area, moved into the coordinates of the image
      the area was cropped from at `origin`. */
  function Offset(b: Box, origin: Box): Box {
    Box(origin.left + b.left, origin.top + b.top, origin.left + b.right, origin.top + b.bottom)
  }

  /** A box inside a `w x h` area cropped at `origin` to exactly `origin`'s
      size lands inside `origin` once offset. */
  lemma OffsetNested(b: Box, origin: Box, w: nat, h: nat)
    requires Inside(b, w, h)
    requires w == origin.right - origin.left && h == origin.bottom - origin.top
    ensures Nested(Offset(b, origin), origin)
  {
  }

  /** The part of `box` left of column `right` of its crop. */
  function LeftPart(box: Box, right: nat): Box {
    Box(box.left, box.top, box.left + right, box.bottom)
  }

  /** The top left part of `box`: its first `right` columns and `bottom`
      rows. */
  function Corner(box: Box, right: nat, bottom: nat): Box {
    Box(box.left, box.top, box.left + right, box.top + bottom)
  }

  /** Content of `img` at (x, y). */
  predicate Ink(img: Area, thr: int, x: int, y: int)
    requires img.Valid()
  {
    0 <= x < img.width && 0 <= y < img.Height() && img.rows[y][x] <= thr
  }

  /** No content of `img` under `box`. */
  predicate BlankUnder(img: Area, thr: int, box: Box)
    requires img.Valid()
  {
    forall x, y :: box.left <= x < box.right && box.top <= y < box.bottom ==> !Ink(img, thr, x, y)
  }

  /** Every content pixel of `img` under `box` is inside `r`. */
  predicate CoversUnder(img: Area, thr: int, box: Box, r: Box)
    requires img.Valid()
  {
    forall x, y :: box.left <= x < box.right && box.top <= y < box.bottom && Ink(img, thr, x, y) ==>
      r.left <= x < r.right && r.top <= y < r.bottom
  }

  /** Column `x` of `img` has content between rows `top` and `bottom`. */
  predicate ColInk(img: Area, thr: int, x: int, top: int, bottom: int)
    requires img.Valid()
  {
    exists y :: top <= y < bottom && Ink(img, thr, x, y)
  }

  /** Row `y` of `img` has content between columns `left` and `right`. */
  predicate RowInk(img: Area, thr: int, y: int, left: int, right: int)
    requires img.Valid()
  {
    exists x :: left <= x < right && Ink(img, thr, x, y)
  }

  /** Each of the four edge lines of `r` holds content, so no smaller box
      holds all of it. */
  predicate EdgesInked(img: Area, thr: int, r: Box)
    requires img.Valid()
  {
    ColInk(img, thr, r.left, r.top, r.bottom) && ColInk(img, thr, r.right - 1, r.top, r.bottom) &&
    RowInk(img, thr, r.top, r.left, r.right) && RowInk(img, thr, r.bottom - 1, r.left, r.right)
  }

  /** `r` is a nonempty box inside `box` that holds all the content under
      `box`, with content on each of its four edge lines. */
  predicate TightUnder(img: Area, thr: int, box: Box, r: Box)
    requires img.Valid()
  {
    Nested(r, box) && r.left < r.right && r.top < r.bottom &&
    CoversUnder(img, thr, box, r) && EdgesInked(img, thr, r)
  }

  /** The tight box, in image coordinates, around the content of the part of
      `img` under `box`: `getbbox` of the thresholded crop, offset by the box
      corner; None when that part has no content. */
  function TightBox(img: Area, thr: int, box: Box): (r: Option<Box>)
    requires img.Valid() && Inside(box, img.width, img.Height())
    ensures r.None? <==> BlankUnder(img, thr, box)
    ensures r.Some? ==> Nested(r.value, box) && r.value.left < r.value.right && r.value.top < r.value.bottom
    ensures r.Some? ==> CoversUnder(img, thr, box, r.value) && EdgesInked(img, thr, r.value)
  {
    var found := BBox(Crop(img, box), thr, box.right - box.left, box.bottom - box.top);
    CropBBox(img, thr, box, Crop(img, box), found);
    match found
    case None => None
    case Some(b) => Some(Offset(b, box))
  }

  /** What `getbbox` finds in the crop, offset back into the image: nothing
      exactly when nothing under `box` is content, otherwise a tight box of
      the content under `box`. */
  lemma CropBBox(img: Area, thr: int, box: Box, area: Area, found: Option<Box>)
    requires img.Valid() && Inside(box, img.width, img.Height()) && IsCrop(area, img, box)
    requires found.None? ==> Blank(area, thr, box.right - box.left, box.bottom - box.top)
    requires found.Some? ==> Tight(area, thr, box.right - box.left, box.bottom - box.top, found.value)
    ensures found.None? <==> BlankUnder(img, thr, box)
    ensures found.Some? ==> TightUnder(img, thr, box, Offset(found.value, box))
  {
    if found.None? {
      CropBlank(img, thr, box, area);
    } else {
      CropTight(img, thr, box, area, found.value);
      CropNotBlank(img, thr, box, area, found.value);
    }
  }

  /** A tight box of the crop, offset back into the image, is a tight box of
      the content under `box`. */
  lemma CropTight(img: Area, thr: int, box: Box, area: Area, b: Box)
    requires img.Valid() && Inside(box, img.width, img.Height()) && IsCrop(area, img, box)
    requires Tight(area, thr, box.right - box.left, box.bottom - box.top, b)
    ensures TightUnder(img, thr, box, Offset(b, box))
  {
    CropCovers(img, thr, box, area, b);
    CropEdges(img, thr, box, area, b);
  }

  /** Any box that holds all the content under `box` contains the tight
      box: it is the smallest such box. */
  lemma TightBoxMinimal(img: Area, thr: int, box: Box, other: Box)
    requires img.Valid() && Inside(box, img.width, img.Height())
    requires TightBox(img, thr, box).Some? && CoversUnder(img, thr, box, other)
    ensures Nested(TightBox(img, thr, box).value, other)
  {
    EdgesInkedMinimal(img, thr, box, TightBox(img, thr, box).value, other);
  }

  /** A box inside `box` whose four edge lines hold content lies inside
      any box covering the content under `box`. */
  lemma EdgesInkedMinimal(img: Area, thr: int, box: Box, r: Box, other: Box)
    requires img.Valid() && Nested(r, box) && r.left < r.right && r.top < r.bottom
    requires EdgesInked(img, thr, r) && CoversUnder(img, thr, box, other)
    ensures Nested(r, other)
  {
    ColInkCovered(img, thr, box, other, r.left, r.top, r.bottom);
    ColInkCovered(img, thr, box, other, r.right - 1, r.top, r.bottom);
    RowInkCovered(img, thr, box, other, r.top, r.left, r.right);
    RowInkCovered(img, thr, box, other, r.bottom - 1, r.left, r.right);
  }

  /** A column with content under `box` lies within any box covering it. */
  lemma ColInkCovered(img: Area, thr: int, box: Box, other: Box, x: int, top: int, bottom: int)
    requires img.Valid() && CoversUnder(img, thr, box, other)
    requires box.left <= x < box.right && box.top <= top && bottom <= box.bottom
    requires ColInk(img, thr, x, top, bottom)
    ensures other.left <= x < other.right
  {
    var y :| top <= y < bottom && Ink(img, thr, x, y);
  }

  /** A row with content under `box` lies within any box covering it. */
  lemma RowInkCovered(img: Area, thr: int, box: Box, other: Box, y: int, left: int, right: int)
    requires img.Valid() && CoversUnder(img, thr, box, other)
    requires box.top <= y < box.bottom && box.left <= left && right <= box.right
    requires RowInk(img, thr, y, left, right)
    ensures other.top <= y < other.bottom
  {
    var x :| left <= x < right && Ink(img, thr, x, y);
  }

  /** A crop with a tight box is not blank under the box. */
  lemma CropNotBlank(img: Area, thr: int, box: Box, area: Area, b: Box)
    requires img.Valid() && Inside(box, img.width, img.Height()) && IsCrop(area, img, box)
    requires Tight(area, thr, box.right - box.left, box.bottom - box.top, b)
    ensures !BlankUnder(img, thr, box)
  {
    var y :| 0 <= y < box.bottom - box.top && Content(area, thr, b.left, y);
    assert Ink(img, thr, box.left + b.left, box.top + y);
  }

  /** A blank crop means nothing under the box is content. */
  lemma CropBlank(img: Area, thr: int, box: Box, area: Area)
    requires img.Valid() && Inside(box, img.width, img.Height()) && IsCrop(area, img, box)
    requires Blank(area, thr, box.right - box.left, box.bottom - box.top)
    ensures BlankUnder(img, thr, box)
  {
    forall x, y | box.left <= x < box.right && box.top <= y < box.bottom
      ensures !Ink(img, thr, x, y)
    {
      assert !Content(area, thr, x - box.left, y - box.top);
    }
  }

  /** The box found in the crop, offset back, holds the content under `box`. */
  lemma CropCovers(img: Area, thr: int, box: Box, area: Area, b: Box)
    requires img.Valid() && Inside(box, img.width, img.Height()) && IsCrop(area, img, box)
    requires Tight(area, thr, box.right - box.left, box.bottom - box.top, b)
    ensures Nested(Offset(b, box), box) && b.left < b.right && b.top < b.bottom
    ensures CoversUnder(img, thr, box, Offset(b, box))
  {
    forall x, y | box.left <= x < box.right && box.top <= y < box.bottom && Ink(img, thr, x, y)
      ensures Offset(b, box).left <= x < Offset(b, box).right && Offset(b, box).top <= y < Offset(b, box).bottom
    {
      assert Content(area, thr, x - box.left, y - box.top);
    }
  }

  /** The box found in the crop, offset back, has content on each edge line. */
  lemma CropEdges(img: Area, thr: int, box: Box, area: Area, b: Box)
    requires img.Valid() && Inside(box, img.width, img.Height()) && IsCrop(area, img, box)
    requires Tight(area, thr, box.right - box.left, box.bottom - box.top, b)
    ensures EdgesInked(img, thr, Offset(b, box))
  {
    var r := Offset(b, box);
    CropCol(img, thr, box, area, b, b.left, r.left, r.top, r.bottom);
    CropCol(img, thr, box, area, b, b.right - 1, r.right - 1, r.top, r.bottom);
    CropRow(img, thr, box, area, b, b.top, r.top, r.left, r.right);
    CropRow(img, thr, box, area, b, b.bottom - 1, r.bottom - 1, r.left, r.right);
  }

  /** A column of the crop with content, all of it inside `b`, is a column of
      the image with content between the offset edges of `b`. */
  lemma CropCol(img: Area, thr: int, box: Box, area: Area, b: Box, cx: nat, x: int, top: int, bottom: int)
    requires img.Valid() && Inside(box, img.width, img.Height()) && IsCrop(area, img, box)
    requires Inside(b, box.right - box.left, box.bottom - box.top)
    requires Covers(area, thr, box.right - box.left, box.bottom - box.top, b)
    requires cx < box.right - box.left && ColHas(area, thr, cx, box.bottom - box.top)
    requires x == box.left + cx && top == box.top + b.top && bottom == box.top + b.bottom
    ensures ColInk(img, thr, x, top, bottom)
  {
    var y :| 0 <= y < box.bottom - box.top && Content(area, thr, cx, y);
    assert Ink(img, thr, x, box.top + y);
  }

  /** A row of the crop with content, all of it inside `b`, is a row of the
      image with content between the offset edges of `b`. */
  lemma CropRow(img: Area, thr: int, box: Box, area: Area, b: Box, cy: nat, y: int, left: int, right: int)
    requires img.Valid() && Inside(box, img.width, img.Height()) && IsCrop(area, img, box)
    requires Inside(b, box.right - box.left, box.bottom - box.top)
    requires Covers(area, thr, box.right - box.left, box.bottom - box.top, b)
    requires cy < box.bottom - box.top && RowHas(area, thr, cy, box.right - box.left)
    requires y == box.top + cy && left == box.left + b.left && right == box.left + b.right
    ensures RowInk(img, thr, y, left, right)
  {
    var x :| 0 <= x < box.right - box.left && Content(area, thr, x, cy);
    assert Ink(img, thr, box.left + x, y);
  }

  /** A column of the crop with content is a column of the image with
      content under the box. */
  lemma CropColInk(img: Area, thr: int, box: Box, area: Area, cx: nat)
    requires img.Valid() && Inside(box, img.width, img.Height()) && IsCrop(area, img, box)
    requires cx < box.right - box.left && ColHas(area, thr, cx, box.bottom - box.top)
    ensures ColInk(img, thr, box.left + cx, box.top, box.bottom)
  {
    var y :| 0 <= y < box.bottom - box.top && Content(area, thr, cx, y);
    assert Ink(img, thr, box.left + cx, box.top + y);
  }

  /** A box over a column with content is not blank. */
  lemma ColInkNotBlank(img: Area, thr: int, box: Box, x: int)
    requires img.Valid() && box.left <= x < box.right && ColInk(img, thr, x, box.top, box.bottom)
    ensures !BlankUnder(img, thr, box)
  {
    var y :| box.top <= y < box.bottom && Ink(img, thr, x, y);
  }

  /** A box over a row with content is not blank. */
  lemma RowInkNotBlank(img: Area, thr: int, box: Box, y: int)
    requires img.Valid() && box.top <= y < box.bottom && RowInk(img, thr, y, box.left, box.right)
    ensures !BlankUnder(img, thr, box)
  {
    var x :| box.left <= x < box.right && Ink(img, thr, x, y);
  }

  /** `(int(w*l), int(h*t), int(w*r), int(h*b))` for ratios given in hundredths. */
  function RatioBox(w: nat, h: nat, l: nat, t: nat, r: nat, b: nat): (box: Box)
    requires l <= r <= 100 && t <= b <= 100
    ensures Inside(box, w, h)
  {
    Box(w * l / 100, h * t / 100, w * r / 100, h * b / 100)
  }
}
