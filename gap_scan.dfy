/** The gap scan shared by the refining croppers: walk a density profile
    (one content count per column, or per row) from the start, remember
    whether a dense line has been seen, and stop at the first nearly empty
    line, after a dense one, that the rule confirms as a real gap. */
module GapScan {
  import opened Wrappers
  import opened Grid

  /** `count / total > pct / 100`, by cross-multiplication; a zero total
      is density 0. */
  predicate Above(count: nat, total: nat, pct: nat) {
    total > 0 && 100 * count > pct * total
  }

  /** `count / total < pct / 100`, by cross-multiplication; a zero total
      is density 0. */
  predicate Below(count: nat, total: nat, pct: nat) {
    total == 0 || 100 * count < pct * total
  }

  /** A line above some density holds content. */
  lemma AboveHasContent(count: nat, total: nat, pct: nat)
    requires Above(count, total, pct)
    ensures count > 0
  {
    assert pct * total >= 0;
  }

  /** How a candidate gap is confirmed.
      `Window`: every line of the `width` lines starting at the candidate
      (fewer at the far edge) has density at most `clearPct`.
      `Pair`: the next line exists and is below `gapPct` as well. */
  datatype GapRule =
    | Window(densePct: nat, gapPct: nat, width: nat, clearPct: nat)
    | Pair(densePct: nat, gapPct: nat)

  /** Line `i` is dense. */
  predicate Dense(rule: GapRule, p: seq<nat>, total: nat, i: nat)
    requires i < |p|
  {
    Above(p[i], total, rule.densePct)
  }

  /** One of the first `n` lines is dense. */
  predicate Seen(rule: GapRule, p: seq<nat>, total: nat, n: nat)
    requires n <= |p|
  {
    exists i :: 0 <= i < n && Dense(rule, p, total, i)
  }

  /** One more line seen: the flag after line `n` is the flag before it or
      the density of line `n`. */
  lemma SeenNext(rule: GapRule, p: seq<nat>, total: nat, n: nat)
    requires n < |p|
    ensures Seen(rule, p, total, n + 1) <==> Seen(rule, p, total, n) || Dense(rule, p, total, n)
  {
    if Seen(rule, p, total, n + 1) && !Dense(rule, p, total, n) {
      var i :| 0 <= i < n + 1 && Dense(rule, p, total, i);
      assert i < n;
    }
  }

  /** The rule's confirmation of a candidate gap at line `x`. */
  predicate Confirmed(rule: GapRule, p: seq<nat>, total: nat, x: nat)
    requires x < |p|
  {
    match rule
    case Window(_, _, width, clearPct) =>
      forall c :: x <= c < Min(x + width, |p|) ==> !Above(p[c], total, clearPct)
    case Pair(_, gapPct) =>
      x + 1 < |p| && Below(p[x + 1], total, gapPct)
  }

  /** Line `x` is where the scan stops: a dense line has been seen up to and
      including `x`, line `x` is below the gap density, and the rule
      confirms it. */
  predicate IsCut(rule: GapRule, p: seq<nat>, total: nat, x: nat)
    requires x < |p|
  {
    Seen(rule, p, total, x + 1) && Below(p[x], total, rule.gapPct) && Confirmed(rule, p, total, x)
  }

  /** The first cut at or after `from`, or `|p|` when there is none. */
  function FirstCut(rule: GapRule, p: seq<nat>, total: nat, from: nat): (c: nat)
    requires from <= |p|
    ensures from <= c <= |p|
    ensures c < |p| ==> IsCut(rule, p, total, c)
    ensures forall x :: from <= x < c ==> !IsCut(rule, p, total, x)
    decreases |p| - from
  {
    if from == |p| then |p|
    else if IsCut(rule, p, total, from) then from
    else FirstCut(rule, p, total, from + 1)
  }

  /** A line that is a cut with no cut before it is the first cut. */
  lemma FirstCutUnique(rule: GapRule, p: seq<nat>, total: nat, c: nat)
    requires c <= |p|
    requires c < |p| ==> IsCut(rule, p, total, c)
    requires forall x :: 0 <= x < c ==> !IsCut(rule, p, total, x)
    ensures FirstCut(rule, p, total, 0) == c
  {
  }

  /** When the gap density does not exceed the dense density (true of every
      rule in use), a dense line seen by the end of the scan lies before the
      stopping line: the cut line itself is too empty to be dense. */
  lemma DenseBeforeCut(rule: GapRule, p: seq<nat>, total: nat)
    requires rule.gapPct <= rule.densePct && Seen(rule, p, total, |p|)
    ensures exists i :: 0 <= i < FirstCut(rule, p, total, 0) && Dense(rule, p, total, i)
  {
    var c := FirstCut(rule, p, total, 0);
    if c < |p| {
      var i :| 0 <= i < c + 1 && Dense(rule, p, total, i);
      BelowNotAbove(p[c], total, rule.gapPct, rule.densePct);
      assert i != c;
    }
  }

  /** A line below the gap density is not above a larger dense density. */
  lemma BelowNotAbove(count: nat, total: nat, gapPct: nat, densePct: nat)
    requires gapPct <= densePct && Below(count, total, gapPct)
    ensures !Above(count, total, densePct)
  {
    assert gapPct * total <= densePct * total;
  }

  /** Under the same condition, some line before the stopping line holds
      content. */
  lemma ContentBeforeCut(rule: GapRule, p: seq<nat>, total: nat)
    requires rule.gapPct <= rule.densePct && Seen(rule, p, total, |p|)
    ensures exists i :: 0 <= i < FirstCut(rule, p, total, 0) && p[i] > 0
  {
    DenseBeforeCut(rule, p, total);
    var i :| 0 <= i < FirstCut(rule, p, total, 0) && Dense(rule, p, total, i);
    AboveHasContent(p[i], total, rule.densePct);
  }

  /** The scan loop: `cut` is the stopping line (or `|p|`) and `seen`
      the final value of the flag, which ends up telling whether any line at
      all is dense. */
  method Scan(rule: GapRule, p: seq<nat>, total: nat) returns (cut: nat, seen: bool)
    ensures cut == FirstCut(rule, p, total, 0)
    ensures seen == Seen(rule, p, total, |p|)
  {
    cut, seen := |p|, false;
    var x := 0;
    while x < |p|
      invariant 0 <= x <= |p|
      invariant cut == |p|
      invariant seen == Seen(rule, p, total, x)
      invariant forall c :: 0 <= c < x ==> !IsCut(rule, p, total, c)
    {
      if Above(p[x], total, rule.densePct) {
        seen := true;
      }
      SeenNext(rule, p, total, x);
      if seen && Below(p[x], total, rule.gapPct) {
        var confirmed: bool;
        match rule {
          case Window(_, _, width, clearPct) =>
            confirmed := true;
            var end := Min(x + width, |p|);
            var c := x;
            while c < end
              invariant x <= c <= end
              invariant forall k :: x <= k < c ==> !Above(p[k], total, clearPct)
            {
              if Above(p[c], total, clearPct) {
                confirmed := false;
                break;
              }
              c := c + 1;
            }
          case Pair(_, gapPct) =>
            confirmed := x + 1 < |p| && Below(p[x + 1], total, gapPct);
        }
        assert confirmed == Confirmed(rule, p, total, x);
        if confirmed {
          cut := x;
          FirstCutUnique(rule, p, total, cut);
          return;
        }
      }
      x := x + 1;
    }
    FirstCutUnique(rule, p, total, cut);
  }

  /** Content counts of the first `w` columns, each over the first `h` rows. */
  function ColProfile(a: Area, thr: int, w: nat, h: nat): (p: seq<nat>)
    requires InRegion(a, w, h)
    ensures |p| == w && forall x :: 0 <= x < w ==> p[x] == ColCount(a, thr, x, h)
  {
    seq(w, x requires 0 <= x < w => ColCount(a, thr, x, h))
  }

  /** Content counts of the first `h` rows, each over the first `w` columns. */
  function RowProfile(a: Area, thr: int, w: nat, h: nat): (p: seq<nat>)
    requires InRegion(a, w, h)
    ensures |p| == h && forall y :: 0 <= y < h ==> p[y] == RowCount(a, thr, y, w)
  {
    seq(h, y requires 0 <= y < h => RowCount(a, thr, y, w))
  }

  /** The content counts of the columns of the crop of `img` under `box`. */
  function CropColumns(img: Area, thr: int, box: Box): (p: seq<nat>)
    requires img.Valid() && Inside(box, img.width, img.Height())
    ensures |p| == box.right - box.left
    ensures forall x :: 0 <= x < |p| ==>
              p[x] == ColCount(Crop(img, box), thr, x, box.bottom - box.top)
  {
    ColProfile(Crop(img, box), thr, box.right - box.left, box.bottom - box.top)
  }

  /** Once the column scan of the crop under `box` has seen a dense
      column, the part of the box left of the cut is not blank: the dense
      column lies before the cut. */
  lemma LeftOfCutHasContent(rule: GapRule, img: Area, thr: int, box: Box, cut: nat)
    requires img.Valid() && Inside(box, img.width, img.Height())
    requires rule.gapPct <= rule.densePct
    requires Seen(rule, CropColumns(img, thr, box), box.bottom - box.top, box.right - box.left)
    requires cut == FirstCut(rule, CropColumns(img, thr, box), box.bottom - box.top, 0)
    ensures !BlankUnder(img, thr, LeftPart(box, cut))
    ensures TightBox(img, thr, LeftPart(box, cut)).Some?
  {
    var p := CropColumns(img, thr, box);
    ContentBeforeCut(rule, p, box.bottom - box.top);
    var i :| 0 <= i < cut && p[i] > 0;
    ColumnInk(img, thr, box, i);
    ColInkNotBlank(img, thr, LeftPart(box, cut), box.left + i);
  }

  /** A column of the crop with a positive count has content in the image. */
  lemma ColumnInk(img: Area, thr: int, box: Box, i: nat)
    requires img.Valid() && Inside(box, img.width, img.Height())
    requires i < box.right - box.left && CropColumns(img, thr, box)[i] > 0
    ensures ColInk(img, thr, box.left + i, box.top, box.bottom)
  {
    assert ColHas(Crop(img, box), thr, i, box.bottom - box.top);
    CropColInk(img, thr, box, Crop(img, box), i);
  }

  /** The content counts of the rows of the crop of `img` under `box`,
      each over its first `right` columns. */
  function CropRows(img: Area, thr: int, box: Box, right: nat): (p: seq<nat>)
    requires img.Valid() && Inside(box, img.width, img.Height()) && right <= box.right - box.left
    ensures |p| == box.bottom - box.top
    ensures forall y :: 0 <= y < |p| ==> p[y] == RowCount(Crop(img, box), thr, y, right)
  {
    RowProfile(Crop(img, box), thr, right, box.bottom - box.top)
  }

  /** Once the row scan over the first `right` columns of the crop under
      `box` has seen a dense row, the part of those columns above the cut
      is not blank. */
  lemma AboveCutHasContent(rule: GapRule, img: Area, thr: int, box: Box, right: nat, bottom: nat)
    requires img.Valid() && Inside(box, img.width, img.Height()) && right <= box.right - box.left
    requires rule.gapPct <= rule.densePct
    requires Seen(rule, CropRows(img, thr, box, right), right, box.bottom - box.top)
    requires bottom == FirstCut(rule, CropRows(img, thr, box, right), right, 0)
    ensures !BlankUnder(img, thr, Corner(box, right, bottom))
    ensures TightBox(img, thr, Corner(box, right, bottom)).Some?
  {
    var p := CropRows(img, thr, box, right);
    ContentBeforeCut(rule, p, right);
    var y :| 0 <= y < bottom && p[y] > 0;
    RowInkAt(img, thr, box, right, y);
    RowInkNotBlank(img, thr, Corner(box, right, bottom), box.top + y);
  }

  /** A row of the crop with a positive count over its first `right`
      columns has content in the image there. */
  lemma RowInkAt(img: Area, thr: int, box: Box, right: nat, y: nat)
    requires img.Valid() && Inside(box, img.width, img.Height()) && right <= box.right - box.left
    requires y < box.bottom - box.top && CropRows(img, thr, box, right)[y] > 0
    ensures RowInk(img, thr, box.top + y, box.left, box.left + right)
  {
    var area := Crop(img, box);
    assert RowHas(area, thr, y, right);
    var x :| 0 <= x < right && Content(area, thr, x, y);
    assert Ink(img, thr, box.left + x, box.top + y);
  }
}
