/** `fcaesDes/test_crop_10.py`: the first engine's tight crop, guarded
    against boxes that leave the image, run over the first bulletins of one
    year folder in name order until a number of them have been cropped. */
module CropLimited {
  import opened Grid
  import opened Names
  import BulletinEngine

  /** `fine_crop(img, initial_box)`: the whole image when the box reaches
      past its right or bottom edge, else the tight crop of the engine. */
  function FineCrop(img: Area, box: Box): (r: Box)
    requires img.Valid() && 0 <= box.left <= box.right && 0 <= box.top <= box.bottom
    ensures Inside(r, img.width, img.Height())
    ensures img.width < box.right || img.Height() < box.bottom ==> r == Box(0, 0, img.width, img.Height())
    ensures Inside(box, img.width, img.Height()) ==> r == BulletinEngine.FineCrop(img, box)
  {
    if img.width < box.right || img.Height() < box.bottom then Box(0, 0, img.width, img.Height())
    else BulletinEngine.FineCrop(img, box)
  }

  /** The guessed boxes are the engine's, so the guard never fires on them. */
  lemma GuessNeverGuarded(img: Area)
    requires img.Valid()
    ensures var box := BulletinEngine.InitialBox(img.width, img.Height());
            FineCrop(img, box) == BulletinEngine.FineCrop(img, box)
  {
  }

  /** The files the loop crops: image files for which the crop succeeds
      (`ok`, standing for opening, cropping and saving without an
      exception). */
  function Croppable(ok: string -> bool): string -> bool {
    name => IsImageName(name) && ok(name)
  }

  /** `process_year_folder_limited(year_path, limit)`: nothing is cropped
      when the full bulletins folder is missing; otherwise the loop runs
      over the listing in name order. */
  method CropFirst(fullDirExists: bool, listing: seq<string>, limit: nat, ok: string -> bool)
    returns (cropped: seq<string>)
    ensures !fullDirExists ==> cropped == []
    ensures fullDirExists ==> cropped == Take(Filter(Sort(listing), Croppable(ok)), limit)
    ensures |cropped| <= limit && Sorted(cropped)
  {
    if !fullDirExists {
      return [];
    }
    var files := Sort(listing);
    cropped := CropLoop(files, limit, ok);
    FilterSorted(files, Croppable(ok));
    TakeSorted(Filter(files, Croppable(ok)), limit);
  }

  /** The loop: it stops once `limit` crops have succeeded, skips names
      that are not images without counting them, and counts only the crops
      that succeeded, so it crops the first `limit` croppable files. */
  method CropLoop(files: seq<string>, limit: nat, ok: string -> bool) returns (cropped: seq<string>)
    ensures cropped == Take(Filter(files, Croppable(ok)), limit)
  {
    cropped := [];
    var croppable := Croppable(ok);
    var count := 0;
    var i := 0;
    while i < |files|
      invariant 0 <= i <= |files|
      invariant cropped == Filter(files[..i], croppable)
      invariant count == |cropped| <= limit
    {
      if count >= limit {
        break;
      }
      FilterStep(files, i, croppable);
      assert croppable(files[i]) == (IsImageName(files[i]) && ok(files[i]));
      if IsImageName(files[i]) && ok(files[i]) {
        cropped := cropped + [files[i]];
        count := count + 1;
      }
      i := i + 1;
    }
    TakeFilterPrefix(files, i, croppable, limit);
  }
}
