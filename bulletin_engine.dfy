/** `python/bulletin_engine.py`: the one-pass bulletin engine. For each
    bulletin link it derives the year folder and file names, skips a
    bulletin whose two files already exist, and otherwise crops the photo
    with a table or ratio guess refined to the tight box of its content. */
module BulletinEngine {
  import opened Wrappers
  import opened Grid
  import opened BulletinUrls

  /** Gray values above this are white background. */
  const Threshold: int := 240

  /** `fine_crop(img, initial_box)`: the tight box around the content under
      the box, or the box itself when there is none. */
  function FineCrop(img: Area, box: Box): (r: Box)
    requires img.Valid() && Inside(box, img.width, img.Height())
    ensures Nested(r, box)
    ensures BlankUnder(img, Threshold, box) ==> r == box
    ensures !BlankUnder(img, Threshold, box) ==>
              CoversUnder(img, Threshold, box, r) && EdgesInked(img, Threshold, r)
  {
    TightBox(img, Threshold, box).GetOr(box)
  }

  /** The refined box is the smallest holding all the content under the box. */
  lemma FineCropMinimal(img: Area, box: Box, other: Box)
    requires img.Valid() && Inside(box, img.width, img.Height())
    requires !BlankUnder(img, Threshold, box) && CoversUnder(img, Threshold, box, other)
    ensures Nested(FineCrop(img, box), other)
  {
    TightBoxMinimal(img, Threshold, box, other);
  }

  /** The initial guess for a bulletin of `w x h` pixels: a table entry for
      the two known layouts, a ratio of the size otherwise; it always lies
      inside the image. */
  function InitialBox(w: nat, h: nat): (b: Box)
    ensures Inside(b, w, h)
    ensures (w, h) != (640, 480) && (w, h) != (680, 528) ==> b == RatioBox(w, h, 2, 10, 50, 80)
  {
    if (w, h) == (640, 480) then Box(5, 60, 230, 360)
    else if (w, h) == (680, 528) then Box(10, 80, 400, 450)
    else RatioBox(w, h, 2, 10, 50, 80)
  }

  datatype Status = Exists | New | Error

  /** What `process_bulletin` did: its status and file name, the two paths
      (as path components), and the box of the saved photo crop. */
  datatype Report = Report(status: Status, filename: string, fullPath: seq<string>,
                           cropPath: seq<string>, saved: Option<Box>)

  /** `process_bulletin(url, base_dir)`. The file system and the network
      are inputs: whether the full bulletin and the photo crop already
      exist, the image obtained by downloading and opening the bulletin
      (`None` when either step raised), and whether cutting and saving the
      photo went through without an exception. Any exception in the `try`
      makes the bulletin an error. */
  function ProcessBulletin(url: string, baseDir: seq<string>, fullExists: bool, cropExists: bool,
                           download: Option<Area>, written: bool): (r: Report)
    requires download.Some? ==> download.value.Valid()
    ensures r.filename == FileName(url)
    ensures r.fullPath == baseDir + [Year(url), "boletines_completos", r.filename]
    ensures r.cropPath == baseDir + [Year(url), "fotos_recortadas", "foto_" + r.filename]
    ensures r.status == Exists <==> fullExists && cropExists
    ensures r.status == Error <==> !(fullExists && cropExists) && (download.None? || !written)
    ensures r.status == New <==> !(fullExists && cropExists) && download.Some? && written
    ensures r.saved.Some? <==> r.status == New
    ensures r.status == New ==>
              var img := download.value;
              r.saved.value == FineCrop(img, InitialBox(img.width, img.Height())) &&
              Inside(r.saved.value, img.width, img.Height())
  {
    var year := Year(url);
    var filename := FileName(url);
    var fullPath := baseDir + [year, "boletines_completos", filename];
    var cropPath := baseDir + [year, "fotos_recortadas", "foto_" + filename];
    if fullExists && cropExists then Report(Exists, filename, fullPath, cropPath, None)
    else
      match download
      case None => Report(Error, filename, fullPath, cropPath, None)
      case Some(img) =>
        if !written then Report(Error, filename, fullPath, cropPath, None)
        else Report(New, filename, fullPath, cropPath, Some(FineCrop(img, InitialBox(img.width, img.Height()))))
  }

  /** The counters of `main`'s loop over the statuses of the bulletins. */
  method Tally(statuses: seq<Status>) returns (newItems: nat, errors: nat)
    ensures newItems == multiset(statuses)[New]
    ensures errors == multiset(statuses)[Error]
    ensures newItems + errors + multiset(statuses)[Exists] == |statuses|
  {
    newItems, errors := 0, 0;
    var i := 0;
    while i < |statuses|
      invariant 0 <= i <= |statuses|
      invariant newItems == multiset(statuses[..i])[New]
      invariant errors == multiset(statuses[..i])[Error]
      invariant newItems + errors + multiset(statuses[..i])[Exists] == i
    {
      assert statuses[..i + 1] == statuses[..i] + [statuses[i]];
      if statuses[i] == New {
        newItems := newItems + 1;
      } else if statuses[i] == Error {
        errors := errors + 1;
      }
      i := i + 1;
    }
    assert statuses[..i] == statuses;
  }
}
