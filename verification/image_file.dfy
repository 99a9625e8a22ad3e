/** An image under analysis (ImageFile.java): its name, the key-values read
    from the name, its tags and its channels. */
module ImageFiles {
  import opened Results
  import opened JavaLang
  import opened Names
  import opened ImageName
  import opened Channels
  import ImageNameExample

  datatype ImageFile = ImageFile(
    name: string, nameWithoutExtension: string, id: int,
    fields: Option<Fields>,
    tags: seq<string>,
    keyValues: map<string, string>,
    channels: seq<Channel>)

  /** The seven keys a well-formed name fills in. */
  const NameKeys: set<string> :=
    {"Microscope", "Objective", "Immersion", "Zoom", "ArgoSlide_name", "ArgoSlide_pattern", "Acquisition_date"}

  /** The key-values of the seven named groups. */
  function FieldEntries(f: Fields): (r: map<string, string>)
    ensures r.Keys == NameKeys
    ensures r["Microscope"] == f.microscope && r["Acquisition_date"] == f.date
  {
    map["Objective" := f.objective, "Immersion" := f.immersion, "Zoom" := f.zoom,
        "ArgoSlide_name" := f.argoSlide, "ArgoSlide_pattern" := f.pattern,
        "Acquisition_date" := f.date, "Microscope" := f.microscope]
  }

  /** The constructor: the display name is the name without its extension
      (the same rule as DataManagement's), and parseImageName fills the seven
      keys on a match and writes nothing otherwise. */
  function NewImageFile(title: string, id: int): (r: ImageFile)
    ensures r.name == title && r.id == id && r.tags == [] && r.channels == []
    ensures r.nameWithoutExtension == NameWithoutExtension(title)
    ensures r.fields == ParseImageName(title)
    ensures r.fields.None? <==> r.keyValues == map[]
    ensures r.fields.Some? ==> r.keyValues.Keys == NameKeys && r.keyValues == FieldEntries(r.fields.value)
  {
    var fields := ParseImageName(title);
    var kv := if fields.Some? then FieldEntries(fields.value) else map[];
    assert fields.Some? ==> "Microscope" in kv;
    ImageFile(title, NameWithoutExtension(title), id, fields, [], kv, [])
  }

  /** The example name of the format message yields the documented keys. */
  lemma ExampleImageFile(id: int)
    ensures var f := NewImageFile("lsm980_o63x_z1.2_oil_ArgoSLG511_b_d20230223_1.extension", id);
      f.keyValues == FieldEntries(Fields("lsm980", "63x", "1.2", "oil", "ArgoSLG511", "b", "20230223")) &&
      f.keyValues["Microscope"] == "lsm980" && f.keyValues["Acquisition_date"] == "20230223"
  {
    ImageNameExample.ExampleText();
    ImageNameExample.ExampleParses();
  }

  /** addChannel: the channel goes at the end. */
  function AddChannel(f: ImageFile, c: Channel): (r: ImageFile)
    ensures |r.channels| == |f.channels| + 1 && r.channels[..|f.channels|] == f.channels
    ensures r == f.(channels := r.channels)
  {
    f.(channels := f.channels + [c])
  }

  /** getChannel: null for an id at or past the end; a negative id is not
      guarded and the list access throws. */
  function GetChannel(f: ImageFile, id: int): (r: Result<Option<Channel>>)
    ensures r.Throws? <==> id < 0
    ensures r.Throws? ==> r.error == IndexOutOfBounds
    ensures r == Ok(None) <==> id >= |f.channels|
    ensures r.Ok? && r.value.Some? ==> r.value.value == f.channels[id]
  {
    if id >= |f.channels| then Ok(None)
    else if id < 0 then Throws(IndexOutOfBounds)
    else Ok(Some(f.channels[id]))
  }

  /** A channel added last is found at the old channel count, and the
      channels before it are found where they were. */
  lemma GetAddedChannel(f: ImageFile, c: Channel, id: int)
    ensures GetChannel(AddChannel(f, c), |f.channels|) == Ok(Some(c))
    ensures 0 <= id < |f.channels| ==> GetChannel(AddChannel(f, c), id) == GetChannel(f, id)
  {
    var g := AddChannel(f, c);
    assert g.channels[|f.channels|] == c;
    if 0 <= id < |f.channels| {
      assert g.channels[id] == g.channels[..|f.channels|][id];
    }
  }

  /** addTags: the tags go at the end, in order, duplicates kept. */
  function AddTags(f: ImageFile, tags: seq<string>): (r: ImageFile)
    ensures |r.tags| == |f.tags| + |tags|
    ensures r.tags[..|f.tags|] == f.tags && r.tags[|f.tags|..] == tags
    ensures multiset(r.tags) == multiset(f.tags) + multiset(tags)
    ensures r == f.(tags := r.tags)
  {
    var all := f.tags + tags;
    assert all[..|f.tags|] == f.tags && all[|f.tags|..] == tags;
    f.(tags := all)
  }

  /** Adding a tag that is already there adds it a second time. */
  lemma AddTagsKeepsDuplicates(f: ImageFile, tag: string)
    requires tag in f.tags
    ensures multiset(AddTags(f, [tag]).tags)[tag] == multiset(f.tags)[tag] + 1 >= 2
  {
  }

  /** addKeyValue (a HashMap put): the key now maps to the value and the
      other keys keep theirs. */
  function AddKeyValue(f: ImageFile, key: string, value: string): (r: ImageFile)
    ensures key in r.keyValues && r.keyValues[key] == value
    ensures r.keyValues.Keys == f.keyValues.Keys + {key}
    ensures forall k :: k in f.keyValues && k != key ==> r.keyValues[k] == f.keyValues[k]
    ensures r == f.(keyValues := r.keyValues)
  {
    f.(keyValues := f.keyValues[key := value])
  }

  /** Writing a key read from the name replaces the value the name gave. */
  lemma KeyValueOverridesName(title: string, id: int, value: string)
    requires ParseImageName(title).Some?
    ensures AddKeyValue(NewImageFile(title, id), "Microscope", value).keyValues["Microscope"] == value
    ensures AddKeyValue(NewImageFile(title, id), "Microscope", value).keyValues.Keys == NameKeys
  {
  }
}
