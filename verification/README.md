# ArgoLight quality-control bookkeeping, in Dafny

This project models the bookkeeping of the BIOP ArgoLight quality-control
pipeline. The pipeline analyses images of an ArgoLight calibration slide,
channel by channel, and publishes the results to an OMERO server or a local
folder. The optical analysis itself is not modelled. What is modelled is
everything deterministic around it:

- **Selecting work.** Which images of a dataset are new, and which are
  processed again.
- **Reading image names.** The name shown for an image, the acquisition date
  read from its name or metadata, and the seven key-values the file-name
  grammar fills in.
- **Tagging.** Images are tagged idempotently.
- **Versioning summary tables.** The latest table is the one whose leading
  timestamp token is greatest. The zero-padded timestamp makes string order
  agree with time order. The parent table is either created fresh or
  extended.
- **Publishing to OMERO.** The add-before-delete order of table replacement,
  and the filter that chooses which attached csv/xls files to delete.
- **Writing csv text.** The key-value, per-channel results, channel-pair
  correlation and summary tables.
- **Heat maps.** The integer part of heat-map drawing:
  - the grid side;
  - the NaN placeholder for the unmeasured centre ring;
  - the row-major grid;
  - the canvas size;
  - the painting loop.
- **Statistics.** Mean, variance, min and max of ring measurements, and the
  shape checks of the Pearson correlation.
- **Channel and image records.** Their accumulators and summary maps.
- **The processing loop.** Per-image failure isolation, the summary gathered
  for the parent table, the single final table call, and the table of which
  heat maps and results tables are sent for which protocol and field of view.

The modules follow the Java classes:

| Module | Models |
|---|---|
| `Results` | Outcomes and cells: `Option`, `Result` and Java exceptions; a Java double is `Cell = NaN \| Num(real)`. |
| `JavaLang` | The `String` and `Integer` behaviour the code relies on. |
| `Names` | `getNameWithoutExtension` and `getAcquisitionDate`. |
| `Selection` | `filterNewImages` and `filterAllImages`. |
| `Tags` | `addTag`, `addTags` and `sendTags`. |
| `Versioning` | The latest-table lookups and the timestamp. |
| `OmeroTables` | Table and csv replacement on OMERO. |
| `CsvText` | Separator-terminated and separator-prefixed text. |
| `LocalSender` | The local folder sender. |
| `Heatmap` | The integer side of `computeHeatMap`. |
| `Statistics` | `computeStatistics` and `computePCC`. |
| `Channels` | `ImageChannel`. |
| `ImageName` | The file-name grammar as a backtracking matcher, with a relational reading. |
| `ImageNameExample` | The example name, matched step by step. |
| `ImageFiles` | `ImageFile`. |
| `Processing` | `Processing.run` and `sendResults`. |

Java semantics are written out:

- `String.split` drops trailing empty strings.
- `String.replace` removes non-overlapping occurrences from the left.
- `replaceAll` treats `.` as a wildcard.
- A Java string is a `string`, one `char` per Java char. This is exact for text without supplementary characters (code points above U+FFFF); see "## Left out".
- `compareTo` is lexicographic by character.
- `Integer.parseInt` takes an optional sign and ASCII digits, limited to 32 bits, and fails on anything else.
- `int` division truncates toward zero.
- NaN compares above every number in `Comparator.naturalOrder`.

## Behaviour worth knowing

- **Failures can escape.**
  - `Processing.run` wraps each image in try/catch, yet its catch block calls `getImage(i).getTitle()` again, so an exception there leaves the loop (`Processing.Loop`, `Escapes`).
  - `getAcquisitionDate` does not catch its `parseInt` (`Names.SixTokenWithoutDigits`).
  - `sendDatasetTableToOmero` dereferences a null table on its create path (`OmeroTables.DatasetRoute`).
- **Column-major scan.** The correlation's loops run over columns outside and
  rows inside, so `Statistics.Columns` lists the samples column by column.
- **Local extension appends and renames.** To extend the summary table, the
  local sender appends to the latest table and then renames it, and renames
  only if the append succeeded (`LocalSender.PopulateParentTable`).
- **`ImageChannel` statistics have no empty guard.** `Tools.computeStatistics`
  gives a defined result for an empty list, but `ImageChannel`'s private copy
  throws (`Statistics.ChannelStatistics`, `Channels.MetricStatistics`).
- **Truncation.** The code truncates the heat-map target size and the rotated
  coordinates with `(int)` where a rounding might be expected. The model
  leaves both to an abstract placement map (`Heatmap.Painting.target`).

## Model

| member | source | states |
|---|---|---|
| `Selection.FilterImages` | src/main/java/ch/epfl/biop/DataManagement.java:45-77 | The listing fails, with a RuntimeException, iff some image's tags cannot be read; otherwise the result holds exactly the images passing the mode's test, in listing order. New-only mode: no "raw" or "processed" tag. All mode: no "processed" tag. Both modes: no "[macro image]" in the name. |
| `Selection.NewWithinAll` | src/main/java/ch/epfl/biop/DataManagement.java:47-76 | Both filters fail on the same listings, and the new-only selection is a subsequence of the all-images selection. |
| `Names.NameWithoutExtension` | src/main/java/ch/epfl/biop/DataManagement.java:86-100 | Never longer than the name. A ".lif" or ".vsi" name loses at least four characters (which ones: `Names.LifRemoved`, `Names.VsiRemoved`, `Names.LifBeforeVsi`). Otherwise the name comes back unchanged iff its last "." is at index 0 or absent, and when it changes it is the part before the last ".". |
| `Names.RemoveJoined` | src/main/java/ch/epfl/biop/DataManagement.java:89-92 | `String.replace(t, "")` removes every occurrence: pieces free of `t`, joined by `t`, come back run together. This needs the last character of `t` to appear nowhere earlier in `t`, as for ".lif" and ".vsi". |
| `Names.LifRemoved` | src/main/java/ch/epfl/biop/DataManagement.java:88-89 | A name made of ".lif"-free pieces joined by ".lif" is shown as the pieces run together: every ".lif" goes, whatever else the name holds. |
| `Names.VsiRemoved` | src/main/java/ch/epfl/biop/DataManagement.java:91-92 | Without a ".lif", a name made of ".vsi"-free pieces joined by ".vsi" is shown as the pieces run together. |
| `Names.LifBeforeVsi` | src/main/java/ch/epfl/biop/DataManagement.java:88-92 | ".lif" is checked first: a name ending in its only ".lif" keeps everything before it, any ".vsi" included. |
| `Names.LifBeforeVsiExample` | src/main/java/ch/epfl/biop/DataManagement.java:88-92 | "a.vsi.lif" is shown as "a.vsi". |
| `Names.RemoveLiteralShrinks` | src/main/java/ch/epfl/biop/DataManagement.java:88-92 | Removing every occurrence of an extension that does occur shortens the name by at least its length. |
| `Names.LifSuffixRemoved` | src/main/java/ch/epfl/biop/DataManagement.java:88-89 | A name with one ".lif" is shown with exactly that ".lif" cut out, whatever follows it. |
| `Names.ExtensionStripped` | src/main/java/ch/epfl/biop/DataManagement.java:94-97 | A name base.ext with a dot-free extension and no container extension is shown as base. |
| `Names.NoDotUnchanged` | src/main/java/ch/epfl/biop/DataManagement.java:94-99 | A name without a dot is shown unchanged. |
| `Names.DateTimeText` | src/main/java/ch/epfl/biop/DataManagement.java:192 | The metadata timestamp's text is longer than ten characters, so the date prefix can always be taken. |
| `Names.AcquisitionDate` | src/main/java/ch/epfl/biop/DataManagement.java:170-195 | Outside the five-token LIF and six-token cases, the result is -1 iff the metadata holds no date, and otherwise the number yyyymmdd of the metadata's date. Any value is a 32-bit int, and the only exceptions are NumberFormat and IndexOutOfBounds. |
| `Names.MetadataDateValue` | src/main/java/ch/epfl/biop/DataManagement.java:192-193 | The metadata fallback's text, its first ten characters without dashes, parses to the number yyyymmdd of the acquisition date. |
| `Names.SixTokenDate` | src/main/java/ch/epfl/biop/DataManagement.java:184-186 | In a six-token name the fifth token "d<digits>" gives the date, whatever the format and metadata. |
| `Names.LifDate` | src/main/java/ch/epfl/biop/DataManagement.java:178-182 | In a five-token LIF name the part of the fifth token before its "." gives the date. |
| `Names.SixTokenWithoutDigits` | src/main/java/ch/epfl/biop/DataManagement.java:184-186 | A six-token name whose fifth token has no digit makes the call throw NumberFormatException; the parse is not guarded. |
| `Tags.AddTag` | src/main/java/ch/epfl/biop/DataManagement.java:121-140 | The tag is linked iff it was absent and no server call failed; a new tag object is created iff the catalog has no tag of that name. Otherwise nothing changes, and other images are never touched. |
| `Tags.AddTagIdempotent` | src/main/java/ch/epfl/biop/DataManagement.java:127-135 | Applying a tag a second time finds it already linked and changes nothing. |
| `Tags.AddTags` | src/main/java/ch/epfl/biop/senders/LocalSender.java:269-291 | Each tag is tried in order and a failed tag does not stop the rest. Every tag whose calls succeed ends up on the image. Earlier links are kept, every new link is one of the tags, no tag is linked twice, and other images are untouched. |
| `Tags.AddTagsIdempotent` | src/main/java/ch/epfl/biop/DataManagement.java:109-111 | Without failures, applying a list of tags twice equals applying it once. |
| `Tags.AllPresentUnchanged` | src/main/java/ch/epfl/biop/senders/LocalSender.java:276-285 | Tags already on the image leave the server unchanged. |
| `Versioning.LeadingToken` | src/main/java/ch/epfl/biop/DataManagement.java:364 | `name.split("_")[0]` throws iff the name is a non-empty run of underscores. Otherwise it is the underscore-free prefix that ends at the first "_" or at the end. |
| `Versioning.LeadingTokenOf` | src/main/java/ch/epfl/biop/DataManagement.java:364 | A name "token_rest" has leading token `token`. |
| `Versioning.Tokens` | src/main/java/ch/epfl/biop/DataManagement.java:363-364 | The leading tokens of all names, in order; the collection throws if any single name does. |
| `Versioning.FirstContaining` | src/main/java/ch/epfl/biop/DataManagement.java:370 | The first index whose name contains the token, or none when no name does. |
| `Versioning.Latest` | src/main/java/ch/epfl/biop/DataManagement.java:358-372 | No names gives null. A name made of underscores throws. Otherwise the answer is the first name, in listing order, that contains the greatest leading token under compareTo. |
| `Versioning.TokenContained` | src/main/java/ch/epfl/biop/DataManagement.java:370 | A name contains its own leading token, so the final lookup of the latest table never comes back empty. |
| `Versioning.LastOmeroTable` | src/main/java/ch/epfl/biop/DataManagement.java:353-377 | A failed listing gives null; otherwise it is the latest-table choice over the table names. |
| `Versioning.Candidates` | src/main/java/ch/epfl/biop/DataManagement.java:394-405 | Exactly the regular files whose text after the last "." is "csv" and whose name contains the microscope name, in listing order (a subsequence of the listing's names, which decides ties in the latest-table choice); each holds a ".". |
| `Versioning.LastLocalTable` | src/main/java/ch/epfl/biop/DataManagement.java:387-422 | Never throws. It returns null iff the folder cannot be listed or has no candidate; otherwise it returns the candidate the latest-table choice picks. |
| `Versioning.ChosenIsCandidate` | src/main/java/ch/epfl/biop/DataManagement.java:418 | The table returned is one of the candidate csv files. |
| `Versioning.LastTableInOwnFolder` | src/main/java/ch/epfl/biop/senders/LocalSender.java:324-361 | The same choice, with the folder's own name as the microscope name; the table found names the folder and is a dotted csv name. |
| `Versioning.TwoDigits` | src/main/java/ch/epfl/biop/utils/Tools.java:52-56 | The `v < 10 ? "0" + v : v` rendering is the two-digit zero-padded rendering for every value below 100. |
| `Versioning.Timestamp` | src/main/java/ch/epfl/biop/utils/Tools.java:47-58 | For four-digit years the timestamp is 17 characters: yyyyMMdd-HHhMMmSS with every field zero-padded. |
| `Versioning.TimestampOrder` | src/main/java/ch/epfl/biop/senders/LocalSender.java:198-203 | For four-digit years, one timestamp is less than another as a string iff its clock reading is earlier, and two timestamps are equal iff the readings are. |
| `Versioning.TimeOfDayOrder` | src/main/java/ch/epfl/biop/utils/Tools.java:54-56 | The "-HHhMMmSS" tails compare as the times of day do. |
| `Versioning.FixedDigitsOrder` | src/main/java/ch/epfl/biop/utils/Tools.java:52-53 | Zero-padded renderings of equal width compare as the numbers do. |
| `Versioning.TimestampLeads` | src/main/java/ch/epfl/biop/senders/LocalSender.java:225 | A table named "<timestamp>_..." has the timestamp as its leading token, which the lookup later compares. |
| `OmeroTables.DatasetRoute` | src/main/java/ch/epfl/biop/DataManagement.java:301-312 | Replace iff a table is given and not all images are processed; create iff a table is given and all are. A null table throws a NullPointerException on the create path. |
| `OmeroTables.ImageRoute` | src/main/java/ch/epfl/biop/DataManagement.java:323-343 | Replace iff a previous table exists and not all images are processed; otherwise create; a lookup exception propagates. |
| `OmeroTables.AddTable` | src/main/java/ch/epfl/biop/DataManagement.java:533-540 | A failed add leaves the object unchanged; otherwise exactly the new table is added and nothing else changes. |
| `OmeroTables.ReplaceTable` | src/main/java/ch/epfl/biop/DataManagement.java:508-523 | The new table is added before the old one is deleted. A failed add changes nothing, and the old table is gone iff both calls succeed. The old table is never lost without the new one present, and other tables and files are untouched. |
| `OmeroTables.StaleFiles` | src/main/java/ch/epfl/biop/DataManagement.java:710-713 | Exactly the attachments the filter selects, in listing order (a subsequence of the listing, which fixes the deletion order). The filter parses as `csv \|\| (xls && table name contains the file's stem)`. |
| `OmeroTables.RemoveId` | src/main/java/ch/epfl/biop/DataManagement.java:717 | Deleting by id removes exactly the attachments with that id. |
| `OmeroTables.FirstRefused` | src/main/java/ch/epfl/biop/DataManagement.java:716-719 | The position of the first victim the server refuses, every victim before it being accepted. |
| `OmeroTables.DeleteInOrder` | src/main/java/ch/epfl/biop/DataManagement.java:716-719 | Victims are deleted in order until the first refusal aborts the loop. An attachment survives iff no victim before that point had its id, and the loop completes iff nothing was refused. |
| `OmeroTables.DeleteStep` | src/main/java/ch/epfl/biop/DataManagement.java:716-717 | Deleted before position k+1 means the first victim's id or deleted before k in the rest: the loop unrolls one deletion at a time. |
| `OmeroTables.NoneRefused` | src/main/java/ch/epfl/biop/DataManagement.java:716-719 | The deletion loop runs to the end iff the server refuses none of the victims. |
| `OmeroTables.Uploaded` | src/main/java/ch/epfl/biop/DataManagement.java:722-728 | The csv copy is attached iff the upload returned an id other than -1. |
| `OmeroTables.ReplaceCsvFile` | src/main/java/ch/epfl/biop/DataManagement.java:700-738 | A failed listing leaves the attachments unchanged. Any attachment that is not stale, and shares no id with a stale one, is kept. A refused deletion ends the method before the upload, so nothing new is attached. When no stale deletion is refused, no stale attachment is left (only an identical upload), and an upload that returned an id is attached. |
| `OmeroTables.ReplaceLeavesOneCsv` | src/main/java/ch/epfl/biop/DataManagement.java:712-725 | When every call succeeds, the new upload is attached and is the only csv attachment left. |
| `OmeroTables.XlsKeptUnlessNamed` | src/main/java/ch/epfl/biop/DataManagement.java:712 | After a complete replacement, an xls attachment survives iff the table name does not contain its file name with the "_Table.csv" pattern removed. |
| `OmeroTables.TableSuffixStripped` | src/main/java/ch/epfl/biop/DataManagement.java:712 | Since replaceAll reads "." as any character, a "stem_Table?csv" name loses the whole suffix for any separator character. |
| `LocalSender.FirstMicroscopeDir` | src/main/java/ch/epfl/biop/senders/LocalSender.java:50-52 | The first child directory whose name contains the microscope name, or none. |
| `LocalSender.ParentFolder` | src/main/java/ch/epfl/biop/senders/LocalSender.java:43-79 | The folder is chosen in this order: the target if its name contains the microscope; else the first child directory naming it; else target/microscope when mkdir succeeds; otherwise the target. |
| `LocalSender.ParentNamesMicroscope` | src/main/java/ch/epfl/biop/senders/LocalSender.java:45-78 | The chosen folder is the target or a child of it whose name contains the microscope name. |
| `LocalSender.KeyValueLines` | src/main/java/ch/epfl/biop/senders/LocalSender.java:138-140 | One "key,value" line per entry, in iteration order. |
| `LocalSender.KeyValuesText` | src/main/java/ch/epfl/biop/senders/LocalSender.java:135-145 | Nothing is written iff the map is empty. Otherwise the text is the "key,value" header and one line per entry, each newline-terminated. With plain entries it reads back as those lines and a final empty piece. |
| `LocalSender.ReadKeyValues` | src/main/java/ch/epfl/biop/senders/LocalSender.java:137-140 | Splitting the key-value text at newlines and commas gives the header, then each entry's key and value in order. |
| `LocalSender.ResultRows` | src/main/java/ch/epfl/biop/senders/LocalSender.java:183-185 | Row i holds the i-th distortion, uniformity and FWHM values, comma-separated. |
| `LocalSender.ResultsTableText` | src/main/java/ch/epfl/biop/senders/LocalSender.java:180-190 | The file is written iff the three lists have one length, under "Results_table_ch<id>.csv", with the fixed header and one row per index. |
| `LocalSender.ReadResults` | src/main/java/ch/epfl/biop/senders/LocalSender.java:182-185 | Reading the results text back gives the header, then row i splits into the i-th value of each list. |
| `LocalSender.RowPairs` | src/main/java/ch/epfl/biop/senders/LocalSender.java:242-245 | The inner loop yields exactly the pairs (i, j) with j from its start to n-1, in increasing order. |
| `LocalSender.PairsFromMembers` | src/main/java/ch/epfl/biop/senders/LocalSender.java:241-245 | The nested loops from row i yield exactly the pairs i <= a < b < n. |
| `LocalSender.PairsFromSorted` | src/main/java/ch/epfl/biop/senders/LocalSender.java:241-245 | The pairs come out in strictly increasing lexicographic order. |
| `LocalSender.PairsExact` | src/main/java/ch/epfl/biop/senders/LocalSender.java:241-249 | The header lists every channel pair 0 <= i < j < n and nothing else, each exactly once, n(n-1)/2 in all. |
| `LocalSender.PairsCount` | src/main/java/ch/epfl/biop/senders/LocalSender.java:241-245 | The loops from row i yield the triangular number of n - i pairs. |
| `LocalSender.TriangleClosed` | src/main/java/ch/epfl/biop/senders/LocalSender.java:241-245 | The triangular number of m is m(m-1)/2. |
| `LocalSender.PairNames` | src/main/java/ch/epfl/biop/senders/LocalSender.java:247-249 | One "ch<i>_ch<j>" name per pair, in order. |
| `LocalSender.PccRows` | src/main/java/ch/epfl/biop/senders/LocalSender.java:252-255 | One line per coefficient list, each value followed by a comma. |
| `LocalSender.ReadPcc` | src/main/java/ch/epfl/biop/senders/LocalSender.java:237-259 | The PCC text reads back as the header line, with the pair names and a trailing empty field, then one line per list with its values and a trailing empty field. |
| `LocalSender.PairNamesClean` | src/main/java/ch/epfl/biop/senders/LocalSender.java:248 | Pair names contain neither comma nor newline, so the header splits back into them. |
| `LocalSender.PccLinesClean` | src/main/java/ch/epfl/biop/senders/LocalSender.java:246-255 | No line of the PCC table contains a newline, so the table splits back into its lines. |
| `LocalSender.ImageRows` | src/main/java/ch/epfl/biop/senders/LocalSender.java:218-222 | One row "id,name,m1,...,mk" per metrics list of an image. |
| `LocalSender.SummaryRowsExact` | src/main/java/ch/epfl/biop/senders/LocalSender.java:216-222 | Exactly one row per metrics list over all images. Each row splits back into the image's id, its name and that list's values. |
| `LocalSender.RowFields` | src/main/java/ch/epfl/biop/senders/LocalSender.java:219-221 | A summary row splits at commas into the id, the name and the metric values. |
| `LocalSender.HeaderIffFresh` | src/main/java/ch/epfl/biop/senders/LocalSender.java:208-222 | The text starts with the "Image ID,Label" header iff the table is fresh. |
| `LocalSender.FreshStartsWithHeader` | src/main/java/ch/epfl/biop/senders/LocalSender.java:209-213 | A fresh table's text begins with "Image ID,Label". |
| `LocalSender.AppendedStartsWithId` | src/main/java/ch/epfl/biop/senders/LocalSender.java:216-222 | Text appended to an existing table never begins with the header's first letter, because rows start with a number. |
| `LocalSender.PopulateParentTable` | src/main/java/ch/epfl/biop/senders/LocalSender.java:193-234 | A fresh table is created when extension is not asked for or the last table is missing. It is saved under "<date>_<folder>_Table.csv" and leaves every other file as it was. Otherwise the rows are appended to the last table. The extended table takes the dated name only if the append and the rename both succeed, and a failed append changes nothing. |
| `LocalSender.ExtendedTableNamesFolder` | src/main/java/ch/epfl/biop/senders/LocalSender.java:205 | The table chosen for extension is a csv file of the folder whose name contains the folder's name. |
| `CsvText.TerminatedIsJoin` | src/main/java/ch/epfl/biop/senders/LocalSender.java:137-140 | Text built by `text += item + sep` is the join of the items and one final empty piece. |
| `CsvText.PrefixedIsJoin` | src/main/java/ch/epfl/biop/senders/LocalSender.java:209-211 | A first field followed by `"," + field` for each field is the comma join of all of them. |
| `CsvText.ReadTerminated` | src/main/java/ch/epfl/biop/senders/LocalSender.java:138-140 | When no item contains the separator, splitting terminated text gives the items back, then an empty piece. |
| `CsvText.ReadPrefixed` | src/main/java/ch/epfl/biop/senders/LocalSender.java:219-220 | When no field contains the separator, splitting prefixed text gives the first field, then each field. |
| `CsvText.TerminatedConcat` | src/main/java/ch/epfl/biop/senders/LocalSender.java:252-255 | Terminated text of two lists is the text of the first followed by that of the second. |
| `CsvText.TerminatedSnoc` | src/main/java/ch/epfl/biop/senders/LocalSender.java:139 | One more loop iteration appends the item and the separator. |
| `Heatmap.IntSqrt` | src/main/java/ch/epfl/biop/utils/Tools.java:160 | `(int) Math.sqrt(m)` is the n with n^2 <= m < (n+1)^2. |
| `Heatmap.IntSqrtUnique` | src/main/java/ch/epfl/biop/utils/Tools.java:160 | That n is unique. |
| `Heatmap.InsertAt` | src/main/java/ch/epfl/biop/utils/Tools.java:164 | `List.add(i, v)`: v at i, earlier elements in place, later ones shifted up by one. |
| `Heatmap.RemoveAt` | src/main/java/ch/epfl/biop/utils/Tools.java:166 | `List.remove(i)`: element i gone, earlier ones in place, later ones shifted down. |
| `Heatmap.RemoveInsert` | src/main/java/ch/epfl/biop/utils/Tools.java:164-166 | Removing at the index just inserted at gives the list back. |
| `Heatmap.WithSentinel` | src/main/java/ch/epfl/biop/utils/Tools.java:164 | The extended list is one longer, with NaN at floor(len/2). |
| `Heatmap.GridFits` | src/main/java/ch/epfl/biop/utils/Tools.java:160-165 | The n-by-n grid never needs more values than the extended list holds. |
| `Heatmap.GridIndexInRange` | src/main/java/ch/epfl/biop/utils/Tools.java:165 | Row-major index y*n+x of a grid pixel lies below n^2. |
| `Heatmap.GridCoversList` | src/main/java/ch/epfl/biop/utils/Tools.java:160-165 | When len+1 is a square, every element k of the extended list is shown, as pixel (k mod n, k div n). |
| `Heatmap.SentinelAtCentre` | src/main/java/ch/epfl/biop/utils/Tools.java:160-165 | For (2c+1)^2 - 1 values the grid side is 2c+1 and the NaN sits at the centre pixel (c, c). |
| `Heatmap.ToolsCallerList` | src/main/java/ch/epfl/biop/utils/Tools.java:164-166 | As written: the NaN goes in at floor(len/2) and is removed at floor((len+1)/2); the caller's list keeps its length. |
| `Heatmap.ToolsRestoresEven` | src/main/java/ch/epfl/biop/utils/Tools.java:164-166 | With an even number of values the caller's list comes back unchanged. |
| `Heatmap.ToolsOddOverwritesMiddle` | src/main/java/ch/epfl/biop/utils/Tools.java:164-166 | With an odd number of values the middle value is replaced by NaN and every other value is kept. |
| `Heatmap.ToolsOddCounterexample` | src/main/java/ch/epfl/biop/utils/Tools.java:164-166 | [1, 2, 3] comes back as [1, NaN, 3]. |
| `Heatmap.RestoredCallerList` | src/main/java/ch/epfl/biop/utils/Tools.java:164-166 | Removing at the insertion index restores the caller's list for every length. |
| `Heatmap.ChannelAfterHeatMap` | src/main/java/ch/epfl/biop/ImageChannel.java:174-181 | ImageChannel inserts the NaN into its own list and never removes it: the list grows by one, with NaN at floor(len/2). |
| `Heatmap.SentinelCounted` | src/main/java/ch/epfl/biop/ImageChannel.java:179 | Each drawing adds exactly one NaN and keeps every value. |
| `Heatmap.SentinelsAccumulate` | src/main/java/ch/epfl/biop/ImageChannel.java:179 | After k drawings the stored list is k entries longer. |
| `Heatmap.SentinelsOnly` | src/main/java/ch/epfl/biop/ImageChannel.java:179 | After k drawings the stored values are the original ones plus exactly k NaNs. |
| `Heatmap.ChannelSentinelRemovable` | src/main/java/ch/epfl/biop/ImageChannel.java:179 | Removing at the insertion index would give the channel's list back. |
| `Heatmap.CanvasWidth` | src/main/java/ch/epfl/biop/utils/Tools.java:168 | The canvas width is floor(256 * imgWidth / imgHeight). |
| `Heatmap.EnlargedSide` | src/main/java/ch/epfl/biop/utils/Tools.java:177 | The enlarged grid's side is max(targetScaledSize, 1). |
| `Heatmap.LastHit` | src/main/java/ch/epfl/biop/utils/Tools.java:187-197 | The last step before (i, j), in i-outer, j-inner order, that lands inside the canvas on (x, y), and none when no step does. |
| `Heatmap.Paint` | src/main/java/ch/epfl/biop/utils/Tools.java:187-197 | The canvas is height by width. Each pixel holds the value of the last enlarged pixel that lands on it inside the bounds, or black when none does. |
| `Statistics.SquaredDeviations` | src/main/java/ch/epfl/biop/utils/Tools.java:138-140 | The sum of squared deviations is never negative. |
| `Statistics.Min` | src/main/java/ch/epfl/biop/utils/Tools.java:143 | `min(naturalOrder)`: a member of the list at or below every element. |
| `Statistics.Max` | src/main/java/ch/epfl/biop/utils/Tools.java:145 | `max(naturalOrder)`: a member of the list at or above every element. |
| `Statistics.SumBounds` | src/main/java/ch/epfl/biop/utils/Tools.java:135 | The sum lies between n copies of a lower and an upper bound of the values. |
| `Statistics.ComputeStatistics` | src/main/java/ch/epfl/biop/utils/Tools.java:131-148 | No values gives [0,0,0,0]. Otherwise: n means add up to the sum; n variances add up to the squared deviations from the mean, so the variance is non-negative; min <= mean <= max; min and max are members bounding every value. |
| `Statistics.Variance` | src/main/java/ch/epfl/biop/utils/Tools.java:138-140 | The population variance: non-negative, and n copies of it add up to the squared deviations. |
| `Statistics.MeanBetween` | src/main/java/ch/epfl/biop/utils/Tools.java:135-145 | The mean lies between the minimum and the maximum. |
| `Statistics.ChannelStatistics` | src/main/java/ch/epfl/biop/ImageChannel.java:157-172 | ImageChannel's copy throws NoSuchElementException iff the list is empty, and otherwise agrees with Tools. |
| `Statistics.StatisticsAgree` | src/main/java/ch/epfl/biop/utils/Tools.java:132-133 | Only the empty list separates the two versions. Where ImageChannel's succeeds, min <= mean <= max and the variance is non-negative. |
| `Statistics.Columns` | src/main/java/ch/epfl/biop/utils/Tools.java:274-279 | The scan of k columns has k * height values. |
| `Statistics.ColumnsAt` | src/main/java/ch/epfl/biop/utils/Tools.java:274-279 | Pixel (a, b) is sample a * height + b. |
| `Statistics.PatchPcc` | src/main/java/ch/epfl/biop/utils/Tools.java:263-284 | Patches of different width or height give NaN; otherwise the correlation of their two sample arrays. |
| `Statistics.SamplesAligned` | src/main/java/ch/epfl/biop/utils/Tools.java:270-279 | Patches of one size give sample arrays of w * h values, and both arrays' entry k * h + l comes from pixel (k, l). |
| `Statistics.ComputePcc` | src/main/java/ch/epfl/biop/utils/Tools.java:239-252 | Lists of different lengths give an empty list; otherwise one coefficient per pair, in order. |
| `Channels.NewChannel` | src/main/java/ch/epfl/biop/ImageChannel.java:21-38 | A new channel has its id and size, no metrics, rings or key-values, and no centre cross. |
| `Channels.AddMetric` | src/main/java/ch/epfl/biop/ImageChannel.java:40-50 | The values are appended to the end of the metric's list. Earlier values stay in place and the other metrics are untouched. |
| `Channels.AddMetricTwice` | src/main/java/ch/epfl/biop/ImageChannel.java:40-42 | Two additions are one addition of both lists, in order. |
| `Channels.AddMetricsCommute` | src/main/java/ch/epfl/biop/ImageChannel.java:40-50 | Additions to different metrics commute. |
| `Channels.AddRings` | src/main/java/ch/epfl/biop/ImageChannel.java:52-58 | Rings are appended to the grid or ideal list, the other list unchanged. |
| `Channels.AddKeyValue` | src/main/java/ch/epfl/biop/ImageChannel.java:64-66 | The key maps to the new value, other keys keep theirs, and nothing else changes. |
| `Channels.KeyValueOverwrites` | src/main/java/ch/epfl/biop/ImageChannel.java:64-66 | A second put on a key overwrites the first. |
| `Channels.HeatMap` | src/main/java/ch/epfl/biop/ImageChannel.java:90-104 | The title is "<name>_ch<id>_FWHM", "_FieldDistortion" or "_FieldUniformity", and the feature "fwhm", "field_distortion" or "field_uniformity". The size is 256 and the grid side is floor(sqrt(len+1)). The shown values are the metric list with NaN inserted at floor(len/2), and the channel keeps that longer list. |
| `Channels.AfterHeatMap` | src/main/java/ch/epfl/biop/ImageChannel.java:174-181 | Drawing a heat map changes only its own metric's list, which gains the NaN. |
| `Channels.HeatMapGridSide` | src/main/java/ch/epfl/biop/ImageChannel.java:175 | The grid side n satisfies n^2 <= len+1 < (n+1)^2. |
| `Channels.HeatMapTitlesDistinct` | src/main/java/ch/epfl/biop/ImageChannel.java:91-101 | The three heat maps of one channel never share a title. |
| `Channels.MetricStatistics` | src/main/java/ch/epfl/biop/ImageChannel.java:157-172 | An empty list throws. With numbers only, the statistics bound the values. Any NaN makes the mean, spread and maximum NaN. The minimum is then NaN iff every value is; otherwise it is the smallest number in the list, since NaN sorts above every number. |
| `Channels.Numbers` | src/main/java/ch/epfl/biop/ImageChannel.java:167 | The numbers of a list with NaN: each value v is in it iff the list holds Num(v). |
| `Channels.MetricStatisticsAgree` | src/main/java/ch/epfl/biop/ImageChannel.java:158-169 | Over numbers only, a channel's statistics are the Tools statistics. |
| `Channels.Half` | src/main/java/ch/epfl/biop/ImageChannel.java:115-116 | Java `n / 2` truncates toward zero for either sign. |
| `Channels.HalfIsJavaDiv` | src/main/java/ch/epfl/biop/ImageChannel.java:115-116 | That is Java int division by two. |
| `Channels.CrossShift` | src/main/java/ch/epfl/biop/ImageChannel.java:113-116 | The shift is the centroid minus half the image size in int arithmetic, which lies within one pixel of the centroid minus the exact half. |
| `Channels.SummaryMap` | src/main/java/ch/epfl/biop/ImageChannel.java:108-136 | The map has exactly the sixteen keys, with "Channel" mapped to the id and the cross shifts under their keys. |
| `Channels.Summary` | src/main/java/ch/epfl/biop/ImageChannel.java:107-155 | It succeeds iff there is a centre cross and all three metric lists are non-empty. A missing cross throws NullPointerException and an empty list throws NoSuchElementException. On success the map holds the id, the rotation, the cross shifts and the four statistics of each metric. |
| `Channels.SummaryAfterHeatMap` | src/main/java/ch/epfl/biop/ImageChannel.java:120-124 | After the distortion heat map is drawn, the summary still succeeds but reports a NaN maximum distortion. |
| `ImageName.Run` | src/main/java/ch/epfl/biop/ImageFile.java:16 | The longest run of class characters from a position: every character in it matches the class, and the next one does not. |
| `ImageName.MatchSound` | src/main/java/ch/epfl/biop/ImageFile.java:16 | What the backtracking matcher returns is a way for the pattern to match. |
| `ImageName.TryStarSound` | src/main/java/ch/epfl/biop/ImageFile.java:16 | A greedy star that gives back characters one at a time only returns ways to match. |
| `ImageName.MatchComplete` | src/main/java/ch/epfl/biop/ImageFile.java:16 | Whenever some way to match exists from a position, the matcher finds one. |
| `ImageName.FindCorrect` | src/main/java/ch/epfl/biop/ImageFile.java:74-76 | `find()` succeeds iff the pattern matches from some later position, and then its groups are a match from such a position. |
| `ImageName.FindLeftmost` | src/main/java/ch/epfl/biop/ImageFile.java:74-76 | `find()` returns the greedy matcher's captures at the first start position where the pattern matches: no earlier position admits any match. |
| `ImageName.PatternGroups` | src/main/java/ch/epfl/biop/ImageFile.java:16 | The pattern has nine groups. |
| `ImageName.SpansCaptureCount` | src/main/java/ch/epfl/biop/ImageFile.java:16 | Every way to match captures one string per group. |
| `ImageName.ParseImageName` | src/main/java/ch/epfl/biop/ImageFile.java:73-99 | The name parses iff some split of it fits the grammar `<m>_o<o>_z<z>_<i>_<s>_<p>_d<digits>[_]<series>.<ext>`. The fields are then the named groups of such a split. |
| `ImageName.ParseLeftmost` | src/main/java/ch/epfl/biop/ImageFile.java:73-99 | The parsed fields are the groups the greedy matcher captures at the leftmost start where the name matches, the span `Matcher.find()` picks. |
| `ImageNameExample.WholeMatch` | src/main/java/ch/epfl/biop/ImageFile.java:16 | The matcher takes the example name from its first position, with the nine expected groups. |
| `ImageNameExample.ExampleText` | src/main/java/ch/epfl/biop/ImageFile.java:96 | The chunks spell "lsm980_o63x_z1.2_oil_ArgoSLG511_b_d20230223_1.extension". |
| `ImageNameExample.ExampleParses` | src/main/java/ch/epfl/biop/ImageFile.java:76-96 | The example name parses to lsm980 / 63x / 1.2 / oil / ArgoSLG511 / b / 20230223. |
| `ImageFiles.FieldEntries` | src/main/java/ch/epfl/biop/ImageFile.java:85-91 | The seven keys Microscope, Objective, Immersion, Zoom, ArgoSlide_name, ArgoSlide_pattern and Acquisition_date, each holding its group. |
| `ImageFiles.NewImageFile` | src/main/java/ch/epfl/biop/ImageFile.java:33-39 | The display name is the name without extension, by the same rule as DataManagement's. The key-values are empty iff the name does not parse, and are exactly the seven name keys when it does. |
| `ImageFiles.ExampleImageFile` | src/main/java/ch/epfl/biop/ImageFile.java:85-96 | The example name fills the seven keys with the documented values. |
| `ImageFiles.AddChannel` | src/main/java/ch/epfl/biop/ImageFile.java:41-43 | The channel goes at the end and nothing else changes. |
| `ImageFiles.GetChannel` | src/main/java/ch/epfl/biop/ImageFile.java:65-71 | Null iff id >= the channel count. A negative id throws IndexOutOfBounds, and any other id gives the id-th channel. |
| `ImageFiles.GetAddedChannel` | src/main/java/ch/epfl/biop/ImageFile.java:41-71 | A channel added last is found at the old count; earlier ones are found where they were. |
| `ImageFiles.AddTags` | src/main/java/ch/epfl/biop/ImageFile.java:44-46 | Tags are appended in order, duplicates kept: the multiset of tags is the sum of both. |
| `ImageFiles.AddTagsKeepsDuplicates` | src/main/java/ch/epfl/biop/ImageFile.java:44-46 | Adding a present tag counts it twice. |
| `ImageFiles.AddKeyValue` | src/main/java/ch/epfl/biop/ImageFile.java:48-50 | The key maps to the value and other keys keep theirs. |
| `ImageFiles.KeyValueOverridesName` | src/main/java/ch/epfl/biop/ImageFile.java:48-50 | Writing a key the name filled overwrites it and adds no key. |
| `JavaLang.IndexOfFrom` | src/main/java/ch/epfl/biop/DataManagement.java:88 | The first occurrence at or after a position, or -1 exactly when there is none. |
| `JavaLang.ContainsSelf` | src/main/java/ch/epfl/biop/DataManagement.java:370 | Every string contains itself. |
| `JavaLang.LastIndexOf` | src/main/java/ch/epfl/biop/DataManagement.java:94 | The last index holding the character, no later one holding it, or -1. |
| `JavaLang.LastIndexOfAbsent` | src/main/java/ch/epfl/biop/DataManagement.java:94-97 | -1 iff the character is absent. |
| `JavaLang.LiteralMatches` | src/main/java/ch/epfl/biop/DataManagement.java:89 | A literal pattern matches exactly where the string occurs. |
| `JavaLang.RemoveAllShrinks` | src/main/java/ch/epfl/biop/DataManagement.java:89 | Removing all occurrences never lengthens the string; it leaves it unchanged when there is none and shortens it by at least one occurrence otherwise. |
| `JavaLang.RemoveAllPrefix` | src/main/java/ch/epfl/biop/DataManagement.java:712 | Removal passes unchanged through a prefix at which no occurrence starts. |
| `JavaLang.Without` | src/main/java/ch/epfl/biop/DataManagement.java:181 | Removing a character leaves no copy of it and never lengthens the string. |
| `JavaLang.RemoveCharIsWithout` | src/main/java/ch/epfl/biop/DataManagement.java:181 | `replace("d", "")` is the string without its d's. |
| `JavaLang.WithoutAbsent` | src/main/java/ch/epfl/biop/DataManagement.java:192 | Removing an absent character changes nothing. |
| `JavaLang.SplitAll` | src/main/java/ch/epfl/biop/DataManagement.java:174 | At least one piece, none containing the separator. |
| `JavaLang.JoinSplitAll` | src/main/java/ch/epfl/biop/DataManagement.java:174 | Joining the pieces gives the string back. |
| `JavaLang.SplitAllJoin` | src/main/java/ch/epfl/biop/DataManagement.java:174 | Splitting a join of separator-free pieces gives the pieces back. |
| `JavaLang.Split` | src/main/java/ch/epfl/biop/DataManagement.java:174 | `String.split` pieces contain no separator. |
| `JavaLang.SplitJoin` | src/main/java/ch/epfl/biop/DataManagement.java:174-184 | Splitting a join gives the pieces back when none contains the separator and the last is non-empty. |
| `JavaLang.FirstPieceBeforeSeparator` | src/main/java/ch/epfl/biop/DataManagement.java:180 | Splitting "a.b" at "." starts with a. |
| `JavaLang.LexLessIrreflexive` | src/main/java/ch/epfl/biop/DataManagement.java:367 | compareTo order: no string is below itself. |
| `JavaLang.LexLessTransitive` | src/main/java/ch/epfl/biop/DataManagement.java:367 | compareTo order is transitive. |
| `JavaLang.LexLessTotal` | src/main/java/ch/epfl/biop/DataManagement.java:367 | Any two strings are equal or ordered. |
| `JavaLang.LexLessAsymmetric` | src/main/java/ch/epfl/biop/DataManagement.java:367 | The order is asymmetric. |
| `JavaLang.LexLessConcat` | src/main/java/ch/epfl/biop/DataManagement.java:367 | Strings with equally long heads compare by head, then by tail. |
| `JavaLang.MaxString` | src/main/java/ch/epfl/biop/DataManagement.java:366-370 | The first element after a reverse sort: a member of the list at or above every element. |
| `JavaLang.MaxStringUnique` | src/main/java/ch/epfl/biop/DataManagement.java:367-370 | Any member bounding all the others is that maximum. |
| `JavaLang.ParseInt` | src/main/java/ch/epfl/biop/DataManagement.java:181 | A string parses iff, after an optional sign, it is one or more digits whose signed value fits in 32 bits; the value is then the digits' decimal value, negated after a "-". |
| `JavaLang.NatToString` | src/main/java/ch/epfl/biop/senders/LocalSender.java:219 | `"" + n` gives digits with no leading zero whose value is n. |
| `JavaLang.ParseIntToString` | src/main/java/ch/epfl/biop/DataManagement.java:186 | Parsing a rendered 32-bit int gives it back. |
| `JavaLang.FixedDigits` | src/main/java/ch/epfl/biop/utils/Tools.java:52 | The w-digit zero-padded rendering has w digits. |
| `JavaLang.DigitsValueConcat` | src/main/java/ch/epfl/biop/utils/Tools.java:51-56 | The value of concatenated digits is the first value times 10^|b| plus the second. |
| `JavaLang.FixedDigitsValue` | src/main/java/ch/epfl/biop/utils/Tools.java:52-56 | A padded rendering of v < 10^w reads back as v. |
| `JavaLang.JavaDiv` | src/main/java/ch/epfl/biop/ImageChannel.java:115 | Int division truncates toward zero: the quotient times the divisor plus the sign-of-dividend remainder gives the dividend back. |
| `Processing.ProtocolFor` | src/main/java/ch/epfl/biop/processing/Processing.java:54-60 | The old protocol runs iff the slide name contains "ArgoSimOld". |
| `Processing.LastContributor` | src/main/java/ch/epfl/biop/processing/Processing.java:71 | The last image among the first n whose body ran to the end, or none. |
| `Processing.Loop` | src/main/java/ch/epfl/biop/processing/Processing.java:39-77 | The run survives iff no catch block's own retry throws. An image then has a summary entry iff its body ran to the end, and is tagged iff its body got past sendTags. |
| `Processing.LoopKeysIncreasing` | src/main/java/ch/epfl/biop/processing/Processing.java:39 | Summary entries appear once each, in increasing image order. |
| `Processing.LoopTagsIncreasing` | src/main/java/ch/epfl/biop/processing/Processing.java:66 | Tags are sent once per image, in increasing image order. |
| `Processing.LoopRows` | src/main/java/ch/epfl/biop/processing/Processing.java:70-73 | Each summary entry holds the rows of its image's first metrics entry. |
| `Processing.LoopHeaders` | src/main/java/ch/epfl/biop/processing/Processing.java:71 | The headers are those of the last image whose body ran to the end, and empty if there is none. |
| `Processing.Run` | src/main/java/ch/epfl/biop/processing/Processing.java:34-81 | One parent-table call after the loop, with populateExisting = !processingAll and a summary of exactly the images that ran through. |
| `Processing.FailureIsolated` | src/main/java/ch/epfl/biop/processing/Processing.java:40-76 | Replacing an image that neither contributes nor is tagged by one that throws inside the body changes nothing. |
| `Processing.LoopPrefix` | src/main/java/ch/epfl/biop/processing/Processing.java:39-77 | The loop over the first n images depends only on those images. |
| `Processing.TaggedWithoutSummary` | src/main/java/ch/epfl/biop/processing/Processing.java:65-73 | An image whose sendResults throws is tagged but has no summary row. |
| `Processing.SummaryImpliesTagged` | src/main/java/ch/epfl/biop/processing/Processing.java:65-73 | Every image with a summary row was tagged first. |
| `Processing.Reported` | src/main/java/ch/epfl/biop/processing/Processing.java:118-127 | Full field of view: distortion and uniformity; any other: FWHM. |
| `Processing.HeatMapsOf` | src/main/java/ch/epfl/biop/processing/Processing.java:117-121 | A channel's heat maps are exactly those of the reported metrics. |
| `Processing.TablesOf` | src/main/java/ch/epfl/biop/processing/Processing.java:125-127 | The results tables are exactly those of the reported metrics. |
| `Processing.MergeKeyValues` | src/main/java/ch/epfl/biop/processing/Processing.java:105 | Channel key-values are put over the image's. Image keys stay, every key comes from the image or a channel, and the last channel's values win. |
| `Processing.ChannelActions` | src/main/java/ch/epfl/biop/processing/Processing.java:102-122 | Both grid-point sets of every channel are sent. Heat maps are drawn exactly for the reported metrics of each channel, and only with saving on under the new protocol. |
| `Processing.StoppedActions` | src/main/java/ch/epfl/biop/processing/Processing.java:107-118 | A null field of view under the new protocol stops the body after grid points only. |
| `Processing.CompletedActions` | src/main/java/ch/epfl/biop/processing/Processing.java:102-132 | The key-values go last, merged, with "Image_ID" only for the local sender. Results tables are sent exactly for the reported metrics under the new protocol. |
| `Processing.SendResultsOf` | src/main/java/ch/epfl/biop/processing/Processing.java:90-133 | The PCC table goes first iff there is more than one channel. A null field of view under the new protocol throws NullPointerException, before any heat map, table or key-value is sent. |
| `Processing.HeatMapsSent` | src/main/java/ch/epfl/biop/processing/Processing.java:116-121 | A heat map of metric m for a channel is sent iff saving is on, the protocol is new, the field of view is known and m is reported for it. |
| `Processing.TablesSent` | src/main/java/ch/epfl/biop/processing/Processing.java:124-127 | A results table of m is sent iff the protocol is new, the field of view is known and m is reported for it. |
| `Processing.DecisionTable` | src/main/java/ch/epfl/biop/processing/Processing.java:116-127 | New protocol: full field of view sends distortion and uniformity tables and no FWHM table; any other field of view sends the FWHM table only. |
| `Processing.OldProtocolSendsNoMetrics` | src/main/java/ch/epfl/biop/processing/Processing.java:118-127 | The old protocol sends neither results tables nor heat maps. |

## Left out

- `ImageName.ParseLeftmost`: which split is taken at the leftmost start is given by the matcher's definition (each star takes its longest run and gives back one character at a time), not by a relational statement of the priority among splits.
- **Server and disk as inputs.** OMERO client calls are not modelled one by
  one. This covers `getTags`, `addTag`, `addTable`, `deleteFile`, `addFile`,
  `getFileAnnotations` and `getMetadata`, and equally the disk calls
  `saveCsvFile`, `appendCsvFile`, `renameTo` and `mkdir`. Instead, state is
  a map or list, and each call's success or failure is an input.
- **Logging.** It is left out because it has no effect on results.
- **Clock as input.** `LocalDateTime.now()` is a `Clock` parameter.
- **Rendered numbers.** `Double.toString` is not modelled: the csv writers
  take numbers already rendered as text.
- **Java map order.** A map's entries arrive in their iteration order, as a
  sequence. The summary map is keyed by image index instead of by the image
  wrapper.
- **ImageJ internals.** `resize`, `FloatProcessor`, the "Fire" lookup table
  and `show()` are external. The resized grid is an abstract source of pixel
  values.
- **Heat-map geometry.** The ratio, `targetScaledSize`, cos/sin rotation and
  centroid scaling are floating point. They are folded into the abstract
  placement map of `Heatmap.Paint`.
- **The optical analysis.** `ArgoSlideProcessing.run` and
  `ArgoSlideOldProcessing.run` are not part of this model. Their effect on
  an image is the per-image outcome given to `Processing.Loop`.
- **`ImageFile.summaryForParentTable`** is an empty stub in the file that
  declares it, while `Processing.run` reads a map from it. The loop models
  what `Processing.run` expects: a list of metrics entries per image.
- **Other-revision signatures.** `Processing.sendResults` calls
  `sendResultsTable` with a four-argument signature that the local sender
  does not declare. The per-metric tables are therefore modelled as actions
  (`Processing.TablesOf`). The three-list csv writer is modelled separately
  (`LocalSender.ResultsTableText`).
- **`Sender` and `Retriever`.** These are interfaces without logic. They are
  only abstract signatures here.
- **Other DataManagement operations.** These are not part of this model:
  `generateKeyValuesForProject` (it depends on OMERO objective metadata),
  `addKeyValues`, `populateDatasetTable`, `readCsvTableAsResultsTable`,
  `concatenateResultsTables`, `addTableAsCSV`, the heat-map save and upload
  helpers, and the row addition of `sendImageTableToOmero`. They only move
  data through ImageJ tables and OMERO calls.
- **Other sender operations.** `sendGridPoints`' ROI zip encoding,
  `sendHeatMaps`, `initialize` and temporary-file deletion are side effects
  on an opaque file system. `Processing` records them only as actions.
- `Statistics.ComputeStatistics`: the standard deviation is reported as the variance it is the square root of, because reals have no square root here; the variance itself is stated exactly.
- Supplementary characters: Java strings are UTF-16, and a character above U+FFFF is two Java chars but one Dafny `char`. Lengths, `lastIndexOf` positions and `compareTo` order can differ for such text, and the model leaves it out.
- `JavaLang.ParseInt`: accepts the ASCII digits only; `Integer.parseInt` also accepts the other Unicode decimal digits (`Character.digit`), which are left out.
- `JavaLang.LexLessIrreflexive`: `LexLess` is Java's `compareTo` only on text without supplementary characters (see above).
- `JavaLang.LexLessTransitive`: as for `JavaLang.LexLessIrreflexive`.
- `JavaLang.LexLessTotal`: as for `JavaLang.LexLessIrreflexive`.
- `JavaLang.LexLessAsymmetric`: as for `JavaLang.LexLessIrreflexive`.
- `JavaLang.LexLessConcat`: as for `JavaLang.LexLessIrreflexive`.
- `Statistics.PatchPcc`: the Pearson coefficient itself is an abstract function of the two sample arrays; only the shape guards and the sample order are modelled.
- `Channels.MetricStatistics`: doubles are idealised as reals or NaN; rounding and infinities are not modelled.
- `Channels.CrossShift`: the centroid is an abstract function of the cross region.
- `Names.AcquisitionDate`: its own ensures state the metadata fallback's value and the exception kinds. The date values of the two name layouts are stated by `Names.SixTokenDate` and `Names.LifDate`, which assume "d<digits>" tokens.
- `Names.DateTimeText`: only dates with a four-digit year and two-digit month and day are modelled, the only case `LocalDateTime.toString` writes as yyyy-MM-dd.
- `Versioning.TimestampOrder`: string order equals time order only for four-digit years; other years are unpadded in the source and are left out.
- `LocalSender.PopulateParentTable`: the latest table is a parameter, the choice `LocalSender.LastTable` makes from the folder listing, rather than a lookup inside the function.
- `Heatmap.SentinelsOnly`: the growth of a channel's list is stated over repeated drawings of one metric list (`Heatmap.Redrawn`) rather than over interleaved channel updates.
- `Processing.Loop`: failures are given per image as the stage that throws; the exception types of the analysis are not distinguished.
- `Tags.AddTags`: each tag's failure is an input, and a failure anywhere in one tag's calls aborts that tag only.

## Findings

| source | as written | input that shows it | evidently intended | confidence | as-written member | corrected member |
|---|---|---|---|---|---|---|
| src/main/java/ch/epfl/biop/utils/Tools.java:164-166 | The NaN placeholder is inserted at floor(len/2) but removed at floor((len+1)/2) of the longer list. For an odd number of values this removes a measured value instead of the placeholder. | The values [1, 2, 3]: the caller's list comes back as [1, NaN, 3] | Remove at the index the placeholder went in, so that the caller's list is restored for every length | not executed | `Heatmap.ToolsOddCounterexample` | `Heatmap.RestoredCallerList` |
