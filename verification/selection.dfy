/** Which images of a dataset are work items (DataManagement.filterNewImages
    and filterAllImages). */
module Selection {
  import opened Results
  import opened JavaLang
  import opened Sequences

  const RawTag: string := "raw"
  const ProcessedTag: string := "processed"
  /** The marker of the overview image that a .vsi file carries besides the slide. */
  const MacroMark: string := "[macro image]"

  /** One image of the dataset listing: its id, its name, and the outcome of
      reading its tag names from the server. */
  datatype Image = Image(id: int, name: string, tags: Result<seq<string>>)

  /** NewOnly keeps images never seen before; All also keeps raw images that
      were already processed once. */
  datatype Mode = NewOnly | All

  predicate Keep(mode: Mode, tags: seq<string>, name: string) {
    match mode
    case NewOnly =>
      (forall t :: t in tags ==> t != RawTag && t != ProcessedTag) && !Contains(name, MacroMark)
    case All =>
      (forall t :: t in tags ==> t != ProcessedTag) && !Contains(name, MacroMark)
  }

  predicate AllTagsRead(images: seq<Image>) {
    forall i :: 0 <= i < |images| ==> images[i].tags.Ok?
  }

  /** The stream filter over the listing.  The filter reads the tags first; a
      failing read is rethrown as a RuntimeException, which ends the whole
      listing. */
  function FilterImages(images: seq<Image>, mode: Mode): (r: Result<seq<Image>>)
    ensures r.Throws? <==> !AllTagsRead(images)
    ensures r.Throws? ==> r.error == Runtime
    ensures r.Ok? ==> forall x :: x in r.value <==> x in images && x.tags.Ok? && Keep(mode, x.tags.value, x.name)
    ensures r.Ok? ==> IsSubsequence(r.value, images)
  {
    if |images| == 0 then Ok([])
    else
      match images[0].tags
      case Throws(_) => Throws(Runtime)
      case Ok(tags) =>
        var rest := FilterImages(images[1..], mode);
        assert AllTagsRead(images[1..]) <==> AllTagsRead(images) by {
          if AllTagsRead(images[1..]) {
            forall i | 0 <= i < |images| ensures images[i].tags.Ok? {
              if i > 0 { assert images[i] == images[1..][i - 1]; }
            }
          }
        }
        assert forall x :: x in images <==> x == images[0] || x in images[1..] by {
          assert images == [images[0]] + images[1..];
        }
        match rest
        case Throws(e) => Throws(e)
        case Ok(kept) =>
          if Keep(mode, tags, images[0].name) then
            var res := [images[0]] + kept;
            assert res[1..] == kept;
            Ok(res)
          else
            SkipFirst(kept, images);
            Ok(kept)
  }

  /** Every image kept as new is also kept when all images are processed, and
      in the same relative order: the new-only list is a subsequence of the
      all-images list. */
  lemma {:induction false} NewWithinAll(images: seq<Image>)
    ensures FilterImages(images, NewOnly).Ok? <==> FilterImages(images, All).Ok?
    ensures FilterImages(images, NewOnly).Ok? ==>
      IsSubsequence(FilterImages(images, NewOnly).value, FilterImages(images, All).value)
    decreases |images|
  {
    if |images| > 0 && images[0].tags.Ok? {
      NewWithinAll(images[1..]);
      var n, a := FilterImages(images[1..], NewOnly), FilterImages(images[1..], All);
      if n.Ok? {
        var tags := images[0].tags.value;
        var name := images[0].name;
        if Keep(NewOnly, tags, name) {
          var nv := [images[0]] + n.value;
          var av := [images[0]] + a.value;
          assert nv[1..] == n.value && av[1..] == a.value;
        } else if Keep(All, tags, name) {
          var av := [images[0]] + a.value;
          assert av[1..] == a.value;
          SkipFirst(n.value, av);
        }
      }
    }
  }
}
