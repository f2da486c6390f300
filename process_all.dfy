/** `fcaesDes/process_all_bulletins.py`: the first end-to-end pass. It
    places files exactly as the engine does but cuts the photo with a fixed
    table box, or fixed ratios of the size, without refining it. */
module ProcessAll {
  import opened Wrappers
  import opened Grid
  import opened BulletinUrls
  import BulletinEngine

  /** The `crops` table of `main`, with the ratio fallback of
      `process_bulletin`; the box always lies inside the image. */
  function FixedCrop(w: nat, h: nat): (b: Box)
    ensures Inside(b, w, h)
    ensures (w, h) != (640, 480) && (w, h) != (680, 528) ==> b == RatioBox(w, h, 5, 15, 45, 75)
  {
    if (w, h) == (640, 480) then Box(5, 70, 215, 355)
    else if (w, h) == (680, 528) then Box(15, 95, 360, 435)
    else RatioBox(w, h, 5, 15, 45, 75)
  }

  /** What `process_bulletin` returned, with the paths it used and the box
      of the photo it saved. */
  datatype Outcome = Outcome(isNew: bool, filename: string, fullPath: seq<string>,
                             cropPath: seq<string>, saved: Option<Box>)

  /** `process_bulletin(url, base_dir, crops)`; the file system and the
      network are inputs, as for the engine: whether the two files exist,
      the size of the downloaded bulletin (`None` when downloading or
      opening it raised), and whether cutting and saving the photo went
      through without an exception. Any exception in the `try` makes the
      result `False`. */
  function ProcessBulletin(url: string, baseDir: seq<string>, fullExists: bool, cropExists: bool,
                           size: Option<(nat, nat)>, written: bool): (r: Outcome)
    ensures r.filename == FileName(url)
    ensures r.fullPath == baseDir + [Year(url), "boletines_completos", r.filename]
    ensures r.cropPath == baseDir + [Year(url), "fotos_recortadas", "foto_" + r.filename]
    ensures r.isNew <==> !(fullExists && cropExists) && size.Some? && written
    ensures r.saved.Some? <==> r.isNew
    ensures r.isNew ==> r.saved.value == FixedCrop(size.value.0, size.value.1)
  {
    var year := Year(url);
    var filename := FileName(url);
    var fullPath := baseDir + [year, "boletines_completos", filename];
    var cropPath := baseDir + [year, "fotos_recortadas", "foto_" + filename];
    if fullExists && cropExists then Outcome(false, filename, fullPath, cropPath, None)
    else
      match size
      case None => Outcome(false, filename, fullPath, cropPath, None)
      case Some((w, h)) =>
        if !written then Outcome(false, filename, fullPath, cropPath, None)
        else Outcome(true, filename, fullPath, cropPath, Some(FixedCrop(w, h)))
  }

  /** The two passes lay the files out alike: the same file name and paths
      for a bulletin, and a bulletin is new here exactly when the engine
      reports it new for an image of that size and the same fate of the
      save. */
  lemma SameLayoutAsEngine(url: string, baseDir: seq<string>, fullExists: bool, cropExists: bool,
                           download: Option<Area>, written: bool)
    requires download.Some? ==> download.value.Valid()
    ensures var size := if download.Some? then Some((download.value.width, download.value.Height())) else None;
            var mine := ProcessBulletin(url, baseDir, fullExists, cropExists, size, written);
            var engine := BulletinEngine.ProcessBulletin(url, baseDir, fullExists, cropExists, download, written);
            mine.filename == engine.filename && mine.fullPath == engine.fullPath &&
            mine.cropPath == engine.cropPath && (mine.isNew <==> engine.status == BulletinEngine.New)
  {
  }

  /** The counters of `main`: every bulletin counts as processed, and the
      successful ones as new. */
  method Tally(successes: seq<bool>) returns (processed: nat, newCount: nat)
    ensures processed == |successes|
    ensures newCount == multiset(successes)[true]
    ensures newCount <= processed
  {
    processed, newCount := 0, 0;
    var i := 0;
    while i < |successes|
      invariant 0 <= i <= |successes|
      invariant processed == i
      invariant newCount == multiset(successes[..i])[true] <= i
    {
      assert successes[..i + 1] == successes[..i] + [successes[i]];
      processed := processed + 1;
      if successes[i] {
        newCount := newCount + 1;
      }
      i := i + 1;
    }
    assert successes[..i] == successes;
  }
}
