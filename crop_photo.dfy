/** `fcaesDes/crop_photo.py`: the first, standalone cropper. It cuts the
    photo out of every bulletin image of a folder with the fixed table box
    or the fixed ratios, and names each output after its input. */
module CropPhoto {
  import opened Wrappers
  import opened Text
  import opened Names
  import opened Grid
  import ProcessAll

  const OutputPrefix: string := "photo_"

  /** The files of the folder that are cropped: images not named as
      outputs. */
  predicate Selected(name: string)
    ensures Selected(name) ==> IsImageName(name)
    ensures StartsWith(name, OutputPrefix) ==> !Selected(name)
    ensures EndsWith(name, ".PNG") && !StartsWith(name, OutputPrefix) ==> Selected(name)
  {
    IsImageName(name) && !StartsWith(name, OutputPrefix)
  }

  /** The crop of `name` is saved as `photo_<name>`; the input name can be
      read back from it. */
  function OutputName(name: string): (r: string)
    ensures StartsWith(r, OutputPrefix) && r[|OutputPrefix|..] == name
  {
    OutputPrefix + name
  }

  /** One crop: the input name, the output name, and the box cut, `None`
      when opening the image raised. */
  datatype Job = Job(input: string, output: string, box: Option<Box>)

  /** The box cut from an image of the given size (`None` when it could
      not be opened): the table of the full pass, or its ratios. */
  function PhotoBox(size: Option<(nat, nat)>): (b: Option<Box>)
    ensures b.Some? <==> size.Some?
    ensures b.Some? ==> Inside(b.value, size.value.0, size.value.1)
  {
    match size
    case None => None
    case Some((w, h)) => Some(ProcessAll.FixedCrop(w, h))
  }

  /** The jobs for the selected names, in listing order. */
  function Jobs(names: seq<string>, sizes: string -> Option<(nat, nat)>): (js: seq<Job>)
    ensures |js| == |names|
    ensures forall k :: 0 <= k < |names| ==>
              js[k] == Job(names[k], OutputName(names[k]), PhotoBox(sizes(names[k])))
  {
    seq(|names|, k requires 0 <= k < |names| => Job(names[k], OutputName(names[k]), PhotoBox(sizes(names[k]))))
  }

  /** One more selected name adds its job at the end. */
  lemma JobsAppend(names: seq<string>, name: string, sizes: string -> Option<(nat, nat)>)
    ensures Jobs(names + [name], sizes) == Jobs(names, sizes) + [Job(name, OutputName(name), PhotoBox(sizes(name)))]
  {
    var a, b := Jobs(names + [name], sizes), Jobs(names, sizes) + [Job(name, OutputName(name), PhotoBox(sizes(name)))];
    assert |a| == |b|;
    forall k | 0 <= k < |a| ensures a[k] == b[k] {
      assert (names + [name])[k] == if k < |names| then names[k] else name;
    }
  }

  /** The loop of `crop_bulletin_photo` over the folder listing: one job
      per selected file, in listing order. `sizes` gives the size of each
      image once opened. */
  method CropBulletinPhotos(listing: seq<string>, sizes: string -> Option<(nat, nat)>) returns (jobs: seq<Job>)
    ensures jobs == Jobs(Filter(listing, Selected), sizes)
  {
    jobs := [];
    var selected: seq<string> := [];
    var i := 0;
    while i < |listing|
      invariant 0 <= i <= |listing|
      invariant selected == Filter(listing[..i], Selected)
      invariant jobs == Jobs(selected, sizes)
    {
      var name := listing[i];
      FilterConcat(listing[..i], [name], Selected);
      assert listing[..i + 1] == listing[..i] + [name];
      if Selected(name) {
        JobsAppend(selected, name, sizes);
        selected := selected + [name];
        jobs := jobs + [Job(name, OutputName(name), PhotoBox(sizes(name)))];
      }
      i := i + 1;
    }
    assert listing[..i] == listing;
  }

  /** An output name is never selected again, so a second run over a folder
      holding the outputs crops only the bulletins. */
  lemma OutputNotSelected(name: string)
    ensures !Selected(OutputName(name))
  {
    assert OutputName(name)[..|OutputPrefix|] == OutputPrefix;
  }
}
