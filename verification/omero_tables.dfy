// How a summary table reaches an OMERO object (DataManagement.java:301-343,
// 508-540, 700-774): the choice between replacing and creating, the
// add-before-delete order of replaceTable, and which attached files the csv
// replacement deletes.  The OMERO server is abstract state: a map of table
// annotations and a list of file annotations, with failures given as inputs.

module OmeroTables {
  import opened Results
  import opened JavaLang
  import opened Sequences

  /** A file annotation attached to an object. */
  datatype FileAnnotation = FileAnnotation(id: int, fileName: string, format: string)

  /** What an OMERO object carries: its tables by annotation id and its
      attached files in listing order. */
  datatype Repo = Repo(tables: map<int, string>, files: seq<FileAnnotation>)

  /** The two ways a table is sent. */
  datatype Route = ReplaceExisting | CreateNew

  /** sendDatasetTableToOmero: the replace path is taken iff a table is given
      and not every image is being reprocessed; the create path renames the
      given table, so without one it dereferences null. */
  function DatasetRoute(hasTable: bool, processAll: bool): (r: Result<Route>)
    ensures r == Ok(ReplaceExisting) <==> hasTable && !processAll
    ensures r == Ok(CreateNew) <==> hasTable && processAll
    ensures r.Throws? <==> !hasTable
    ensures r.Throws? ==> r.error == NullPointer
  {
    if hasTable && !processAll then Ok(ReplaceExisting)
    else if !hasTable then Throws(NullPointer)
    else Ok(CreateNew)
  }

  /** sendImageTableToOmero: the previous table comes from the latest-table
      lookup, whose index exception is not among the ones caught there. */
  function ImageRoute(previous: Result<Option<nat>>, processAll: bool): (r: Result<Route>)
    ensures r.Throws? <==> previous.Throws?
    ensures r.Throws? ==> r.error == previous.error
    ensures r == Ok(ReplaceExisting) <==> previous.Ok? && previous.value.Some? && !processAll
    ensures r == Ok(CreateNew) <==> previous.Ok? && (previous.value.None? || processAll)
  {
    match previous
    case Throws(e) => Throws(e)
    case Ok(t) => if t.Some? && !processAll then Ok(ReplaceExisting) else Ok(CreateNew)
  }

  /** addTable: attaches the table unless the server call fails, which is
      only logged. */
  function AddTable(repo: Repo, newId: int, title: string, fails: bool): (r: Repo)
    requires newId !in repo.tables
    ensures fails ==> r == repo
    ensures !fails ==> r.tables.Keys == repo.tables.Keys + {newId} && r.tables[newId] == title
    ensures forall id :: id in repo.tables ==> id in r.tables && r.tables[id] == repo.tables[id]
    ensures r.files == repo.files
  {
    if fails then repo else repo.(tables := repo.tables[newId := title])
  }

  /** replaceTable: the new table is added first and the previous one deleted
      afterwards; a failure of either step is logged and ends the update. */
  function ReplaceTable(repo: Repo, oldId: int, newId: int, title: string, addFails: bool, deleteFails: bool): (r: Repo)
    requires newId !in repo.tables && newId != oldId
    ensures addFails ==> r == repo
    ensures !addFails ==> newId in r.tables && r.tables[newId] == title
    ensures oldId in r.tables <==> oldId in repo.tables && (addFails || deleteFails)
    ensures oldId in repo.tables && oldId !in r.tables ==> newId in r.tables
    ensures forall id :: id in repo.tables && id != oldId ==> id in r.tables && r.tables[id] == repo.tables[id]
    ensures forall id :: id in r.tables ==> id in repo.tables || id == newId
    ensures r.files == repo.files
  {
    var added := AddTable(repo, newId, title, addFails);
    if addFails || deleteFails then added
    else added.(tables := added.tables - {oldId})
  }

  /** The regular expression "_Table.csv" as replaceAll compiles it: the dot
      stands for any character but a line terminator. */
  const TableSuffix: seq<PatChar> := Literal("_Table") + [AnyChar] + Literal("csv")

  /** The deletion filter as written: `csv || xls && match` groups as
      `csv || (xls && match)`, so every csv attachment is stale whatever its
      name, and an xls one only when the table name contains its file name
      with "_Table.csv" (regex) removed. */
  predicate Stale(f: FileAnnotation, tableName: string) {
    f.format == "csv" || (f.format == "xls" && Contains(tableName, ReplaceAll(f.fileName, TableSuffix, "")))
  }

  /** The stale attachments, in listing order. */
  function StaleFiles(files: seq<FileAnnotation>, tableName: string): (r: seq<FileAnnotation>)
    ensures forall f :: f in r <==> f in files && Stale(f, tableName)
    ensures IsSubsequence(r, files)
  {
    if |files| == 0 then []
    else
      var rest := StaleFiles(files[1..], tableName);
      assert forall f :: f in files <==> f == files[0] || f in files[1..] by {
        assert files == [files[0]] + files[1..];
      }
      if Stale(files[0], tableName) then
        var r := [files[0]] + rest;
        assert r[1..] == rest;
        r
      else
        SkipFirst(rest, files);
        rest
  }

  /** client.deleteFile(id): drops every attachment with that id. */
  function RemoveId(files: seq<FileAnnotation>, id: int): (r: seq<FileAnnotation>)
    ensures forall f :: f in r <==> f in files && f.id != id
  {
    if |files| == 0 then []
    else
      var rest := RemoveId(files[1..], id);
      assert forall f :: f in files <==> f == files[0] || f in files[1..] by {
        assert files == [files[0]] + files[1..];
      }
      if files[0].id == id then rest else [files[0]] + rest
  }

  /** The outcome of the deletion loop: what is still attached, and whether
      every deletion went through. */
  datatype Deletion = Deletion(kept: seq<FileAnnotation>, complete: bool)

  /** Some victim before position `k` has id `id`. */
  predicate DeletedBefore(victims: seq<FileAnnotation>, k: int, id: int) {
    exists j :: 0 <= j < k && j < |victims| && victims[j].id == id
  }

  /** The position of the first victim the server refuses, or the number of
      victims when it refuses none. */
  function FirstRefused(victims: seq<FileAnnotation>, refused: set<int>): (k: nat)
    ensures k <= |victims|
    ensures forall j :: 0 <= j < k ==> victims[j].id !in refused
    ensures k < |victims| ==> victims[k].id in refused
  {
    if |victims| == 0 || victims[0].id in refused then 0
    else 1 + FirstRefused(victims[1..], refused)
  }

  /** The deletion loop: victims are deleted in order, and the first one the
      server refuses throws out of the loop, leaving it and all later ones. */
  function DeleteInOrder(files: seq<FileAnnotation>, victims: seq<FileAnnotation>, refused: set<int>): (r: Deletion)
    ensures r.complete <==> FirstRefused(victims, refused) == |victims|
    ensures forall f :: f in r.kept <==> f in files && !DeletedBefore(victims, FirstRefused(victims, refused), f.id)
    decreases |victims|
  {
    if |victims| == 0 then Deletion(files, true)
    else if victims[0].id in refused then Deletion(files, false)
    else
      DeleteStep(victims, FirstRefused(victims[1..], refused));
      DeleteInOrder(RemoveId(files, victims[0].id), victims[1..], refused)
  }

  /** Shifting the victim list by one: deleted before k+1 in the whole list is
      the head or deleted before k in the tail. */
  lemma DeleteStep(victims: seq<FileAnnotation>, k: nat)
    requires |victims| > 0 && k <= |victims| - 1
    ensures forall id :: DeletedBefore(victims, k + 1, id) <==> victims[0].id == id || DeletedBefore(victims[1..], k, id)
  {
    forall id
      ensures DeletedBefore(victims, k + 1, id) <==> victims[0].id == id || DeletedBefore(victims[1..], k, id)
    {
      if DeletedBefore(victims, k + 1, id) && victims[0].id != id {
        var j :| 0 <= j < k + 1 && j < |victims| && victims[j].id == id;
        assert victims[1..][j - 1].id == id;
      }
      if DeletedBefore(victims[1..], k, id) {
        var j :| 0 <= j < k && j < |victims[1..]| && victims[1..][j].id == id;
        assert victims[j + 1].id == id;
      }
      if victims[0].id == id {
        assert DeletedBefore(victims, k + 1, id);
      }
    }
  }

  /** The server's answers during a csv replacement. */
  datatype CsvServer = CsvServer(listFails: bool, refused: set<int>, upload: Result<int>)

  /** The name the csv copy of a table is uploaded under. */
  function CsvName(title: string): string {
    Replace(title, " ", "_") + ".csv"
  }

  /** The uploaded attachment, when addFile returned a real id. */
  function Uploaded(files: seq<FileAnnotation>, title: string, upload: Result<int>): (r: seq<FileAnnotation>)
    ensures upload.Ok? && upload.value != -1 ==> r == files + [FileAnnotation(upload.value, CsvName(title), "csv")]
    ensures !(upload.Ok? && upload.value != -1) ==> r == files
  {
    if upload.Ok? && upload.value != -1 then files + [FileAnnotation(upload.value, CsvName(title), "csv")]
    else files
  }

  /** The loop runs to the end exactly when the server refuses no victim. */
  lemma NoneRefused(victims: seq<FileAnnotation>, refused: set<int>)
    ensures FirstRefused(victims, refused) == |victims| <==> forall v :: v in victims ==> v.id !in refused
  {
    var k := FirstRefused(victims, refused);
    if k < |victims| {
      assert victims[k] in victims;
    } else {
      forall v | v in victims ensures v.id !in refused {
        var j :| 0 <= j < |victims| && victims[j] == v;
      }
    }
  }

  /** A loop that runs to the end deletes the id of every victim. */
  lemma VictimsDeleted(victims: seq<FileAnnotation>)
    ensures forall v :: v in victims ==> DeletedBefore(victims, |victims|, v.id)
  {
    forall v | v in victims ensures DeletedBefore(victims, |victims|, v.id) {
      var j :| 0 <= j < |victims| && victims[j] == v;
    }
  }

  /** replaceTableCSVFile: list the attachments, delete the stale ones in
      order, then upload the fresh csv; a failure at any step is caught,
      logged, and skips the steps after it.  A refused deletion therefore
      means no upload; when every deletion goes through, no stale
      attachment is left and the upload, if it returned an id, is attached. */
  function ReplaceCsvFile(files: seq<FileAnnotation>, tableName: string, title: string, server: CsvServer): (r: seq<FileAnnotation>)
    ensures server.listFails ==> r == files
    ensures forall f :: f in files && !Stale(f, tableName) && (forall v :: v in files && Stale(v, tableName) ==> v.id != f.id) ==> f in r
    ensures !server.listFails && (exists v :: v in files && Stale(v, tableName) && v.id in server.refused) ==>
      forall f :: f in r ==> f in files
    ensures !server.listFails && (forall v :: v in files && Stale(v, tableName) ==> v.id !in server.refused) ==>
      (forall f :: f in files && Stale(f, tableName) && f in r ==>
         server.upload.Ok? && f == FileAnnotation(server.upload.value, CsvName(title), "csv")) &&
      (server.upload.Ok? && server.upload.value != -1 ==> FileAnnotation(server.upload.value, CsvName(title), "csv") in r)
  {
    if server.listFails then files
    else
      var victims := StaleFiles(files, tableName);
      var d := DeleteInOrder(files, victims, server.refused);
      NoneRefused(victims, server.refused);
      VictimsDeleted(victims);
      if d.complete then Uploaded(d.kept, title, server.upload) else d.kept
  }

  /** When the server answers every call, the only csv file left is the
      uploaded one, and it is there: every earlier csv attachment is gone,
      whatever its name. */
  lemma ReplaceLeavesOneCsv(files: seq<FileAnnotation>, tableName: string, title: string, server: CsvServer)
    requires !server.listFails && server.refused == {} && server.upload.Ok? && server.upload.value != -1
    ensures var r := ReplaceCsvFile(files, tableName, title, server);
      FileAnnotation(server.upload.value, CsvName(title), "csv") in r &&
      forall f :: f in r && f.format == "csv" ==> f == FileAnnotation(server.upload.value, CsvName(title), "csv")
  {
    var victims := StaleFiles(files, tableName);
    VictimsDeleted(victims);
  }

  /** An xls attachment survives a complete replacement iff its stem is not
      part of the table name (and no stale file shares its id). */
  lemma XlsKeptUnlessNamed(files: seq<FileAnnotation>, tableName: string, title: string, server: CsvServer, f: FileAnnotation)
    requires !server.listFails && server.refused == {}
    requires f in files && f.format == "xls"
    requires forall v :: v in files && v.id == f.id ==> v == f
    ensures f in ReplaceCsvFile(files, tableName, title, server) <==> !Contains(tableName, ReplaceAll(f.fileName, TableSuffix, ""))
  {
    var victims := StaleFiles(files, tableName);
    var d := DeleteInOrder(files, victims, server.refused);
    if DeletedBefore(victims, |victims|, f.id) {
      var j :| 0 <= j < |victims| && victims[j].id == f.id;
      assert victims[j] in victims;
    }
    if Stale(f, tableName) {
      assert f in victims;
      var j :| 0 <= j < |victims| && victims[j] == f;
      assert DeletedBefore(victims, |victims|, f.id);
    }
  }

  /** The stem test removes a "_Table?csv" suffix, where `?` is any character
      but a line terminator, from a stem without underscores. */
  lemma {:induction false} TableSuffixStripped(stem: string, sep: char)
    requires '_' !in stem && !IsLineTerminator(sep)
    ensures ReplaceAll(stem + "_Table" + [sep] + "csv", TableSuffix, "") == stem
  {
    var tail := "_Table" + [sep] + "csv";
    assert stem + "_Table" + [sep] + "csv" == stem + tail;
    forall i: nat | i < |stem| ensures !MatchesAt(stem + tail, TableSuffix, i) {
      assert (stem + tail)[i] == stem[i];
      assert TableSuffix[0] == Lit('_');
    }
    RemoveAllPrefix(stem, tail, TableSuffix, "");
    assert MatchesAt(tail, TableSuffix, 0) by {
      forall k | 0 <= k < |TableSuffix| ensures PatCharMatches(TableSuffix[k], tail[k]) {
        if k == 6 { assert TableSuffix[6] == AnyChar && tail[6] == sep; }
        else { assert TableSuffix[k] == Lit(tail[k]); }
      }
    }
    assert tail[|TableSuffix|..] == "";
    assert stem + "" == stem;
  }
}
