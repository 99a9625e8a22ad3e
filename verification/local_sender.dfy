// The local-disk sender (LocalSender.java): where results go, the text of
// the csv files it writes, and how the dated summary table is created or
// extended.  The disk is abstract: a folder is a map from file name to
// content, and every write, append or rename reports success as an input.
// Numbers reach these writers already rendered as text (Double.toString is
// not modelled), and a Java map's entries arrive in iteration order.

module LocalSender {
  import opened Results
  import opened JavaLang
  import opened CsvText
  import Versioning

  // ---------------------------------------------------------------------------
  // The parent folder (constructor)

  /** A child of the chosen target folder. */
  datatype Child = Child(name: string, isDirectory: bool)

  predicate NamesMicroscope(c: Child, microscope: string) {
    c.isDirectory && Contains(c.name, microscope)
  }

  /** The first child directory whose name contains the microscope name. */
  function FirstMicroscopeDir(children: seq<Child>, microscope: string): (r: Option<nat>)
    ensures r.Some? ==> r.value < |children| && NamesMicroscope(children[r.value], microscope)
    ensures r.Some? ==> forall j :: 0 <= j < r.value ==> !NamesMicroscope(children[j], microscope)
    ensures r.None? ==> forall j :: 0 <= j < |children| ==> !NamesMicroscope(children[j], microscope)
  {
    if |children| == 0 then None
    else if NamesMicroscope(children[0], microscope) then Some(0)
    else match FirstMicroscopeDir(children[1..], microscope)
      case None => None
      case Some(k) => Some(k + 1)
  }

  /** No child (or no listing at all) is a directory naming the microscope. */
  predicate NoMicroscopeDir(children: Option<seq<Child>>, microscope: string) {
    children.None? || forall j :: 0 <= j < |children.value| ==> !NamesMicroscope(children.value[j], microscope)
  }

  /** The constructor's choice of parent folder: the target when its own name
      contains the microscope name, else the first child directory that
      does, else a new `target/microscope` folder when it can be made, else
      the target after all. */
  function ParentFolder(target: string, targetName: string, children: Option<seq<Child>>,
                        microscope: string, mkdirSucceeds: bool): (r: string)
    ensures Contains(targetName, microscope) ==> r == target
    ensures !Contains(targetName, microscope) && !NoMicroscopeDir(children, microscope) ==>
      exists k :: 0 <= k < |children.value| && NamesMicroscope(children.value[k], microscope) &&
        (forall j :: 0 <= j < k ==> !NamesMicroscope(children.value[j], microscope)) &&
        r == target + "/" + children.value[k].name
    ensures !Contains(targetName, microscope) && NoMicroscopeDir(children, microscope) ==>
      r == (if mkdirSucceeds then target + "/" + microscope else target)
  {
    if Contains(targetName, microscope) then target
    else
      var created := if mkdirSucceeds then target + "/" + microscope else target;
      match children
      case None => created
      case Some(cs) =>
        match FirstMicroscopeDir(cs, microscope)
        case Some(k) => target + "/" + cs[k].name
        case None => created
  }

  /** Unless it falls back to the target, the chosen folder is a child of the
      target whose name contains the microscope name. */
  lemma ParentNamesMicroscope(target: string, targetName: string, children: Option<seq<Child>>,
                              microscope: string, mkdirSucceeds: bool)
    ensures var r := ParentFolder(target, targetName, children, microscope, mkdirSucceeds);
      r == target || exists name :: Contains(name, microscope) && r == target + "/" + name
  {
    var r := ParentFolder(target, targetName, children, microscope, mkdirSucceeds);
    if r != target {
      if !Contains(targetName, microscope) && !NoMicroscopeDir(children, microscope) {
        var k :| 0 <= k < |children.value| && NamesMicroscope(children.value[k], microscope) &&
          r == target + "/" + children.value[k].name;
      } else {
        ContainsSelf(microscope);
      }
    }
  }

  // ---------------------------------------------------------------------------
  // keyValues.csv

  /** One "key,value" line per entry. */
  function KeyValueLines(entries: seq<(string, string)>): (r: seq<string>)
    ensures |r| == |entries|
    ensures forall i :: 0 <= i < |entries| ==> r[i] == entries[i].0 + "," + entries[i].1
  {
    seq(|entries|, i requires 0 <= i < |entries| => entries[i].0 + "," + entries[i].1)
  }

  /** Neither keys nor values hold a comma or a line break. */
  predicate PlainEntries(entries: seq<(string, string)>) {
    forall i :: 0 <= i < |entries| ==>
      ',' !in entries[i].0 && ',' !in entries[i].1 && '\n' !in entries[i].0 && '\n' !in entries[i].1
  }

  /** sendKeyValues: nothing for an empty map; otherwise a "key,value"
      header and one line per entry, each read back as its key and value. */
  method KeyValuesText(entries: seq<(string, string)>) returns (text: Option<string>)
    ensures text.None? <==> |entries| == 0
    ensures text.Some? ==> text.value == Terminated(["key,value"] + KeyValueLines(entries), '\n')
    ensures text.Some? && PlainEntries(entries) ==>
      var lines := SplitAll(text.value, '\n');
      |lines| == |entries| + 2 && lines[0] == "key,value" && lines[|entries| + 1] == "" &&
      forall i :: 0 <= i < |entries| ==> SplitAll(lines[i + 1], ',') == [entries[i].0, entries[i].1]
  {
    if |entries| == 0 {
      return None;
    }
    var lines := KeyValueLines(entries);
    var t := "key,value\n";
    assert t == Terminated(["key,value"] + lines[..0], '\n');
    var i := 0;
    while i < |entries|
      invariant 0 <= i <= |entries|
      invariant t == Terminated(["key,value"] + lines[..i], '\n')
    {
      t := t + entries[i].0 + "," + entries[i].1 + "\n";
      TerminatedSnoc(["key,value"] + lines[..i], lines[i], '\n');
      assert ["key,value"] + lines[..i] + [lines[i]] == ["key,value"] + lines[..i + 1];
      i := i + 1;
    }
    assert lines[..|entries|] == lines;
    text := Some(t);
    if PlainEntries(entries) {
      ReadKeyValues(entries);
    }
  }

  lemma ReadKeyValues(entries: seq<(string, string)>)
    requires PlainEntries(entries)
    ensures var lines := SplitAll(Terminated(["key,value"] + KeyValueLines(entries), '\n'), '\n');
      |lines| == |entries| + 2 && lines[0] == "key,value" && lines[|entries| + 1] == "" &&
      forall i :: 0 <= i < |entries| ==> SplitAll(lines[i + 1], ',') == [entries[i].0, entries[i].1]
  {
    var all := ["key,value"] + KeyValueLines(entries);
    forall k | 0 <= k < |all| ensures '\n' !in all[k] {
      if k > 0 {
        assert all[k] == entries[k - 1].0 + "," + entries[k - 1].1;
      }
    }
    ReadTerminated(all, '\n');
    forall i | 0 <= i < |entries| ensures SplitAll(all[i + 1], ',') == [entries[i].0, entries[i].1] {
      assert all[i + 1] == Join([entries[i].0, entries[i].1], ',');
      SplitAllJoin([entries[i].0, entries[i].1], ',');
    }
  }

  // ---------------------------------------------------------------------------
  // Results_table_ch<id>.csv

  /** A file to be written: its name within the image folder and its text. */
  datatype CsvFile = CsvFile(name: string, text: string)

  const ResultsHeader := "field_distortion,field_uniformity,FWHM"

  /** Row i holds the i-th value of each of the three lists. */
  function ResultRows(fd: seq<string>, fu: seq<string>, fwhm: seq<string>): (r: seq<string>)
    requires |fd| == |fu| == |fwhm|
    ensures |r| == |fd|
    ensures forall i :: 0 <= i < |fd| ==> r[i] == fd[i] + "," + fu[i] + "," + fwhm[i]
  {
    seq(|fd|, i requires 0 <= i < |fd| => fd[i] + "," + fu[i] + "," + fwhm[i])
  }

  /** No value holds a comma or a line break. */
  predicate PlainValues(xs: seq<string>) {
    forall i :: 0 <= i < |xs| ==> ',' !in xs[i] && '\n' !in xs[i]
  }

  /** sendResultsTable: written only when the three lists have one length;
      then the fixed header and one row per index, read back as the three
      values at that index. */
  method ResultsTableText(fd: seq<string>, fu: seq<string>, fwhm: seq<string>, channelId: int)
    returns (file: Option<CsvFile>)
    ensures file.None? <==> !(|fd| == |fu| == |fwhm|)
    ensures file.Some? ==> file.value.name == "Results_table_ch" + IntToString(channelId) + ".csv"
    ensures file.Some? ==> file.value.text == Terminated([ResultsHeader] + ResultRows(fd, fu, fwhm), '\n')
    ensures file.Some? && PlainValues(fd) && PlainValues(fu) && PlainValues(fwhm) ==>
      var lines := SplitAll(file.value.text, '\n');
      |lines| == |fd| + 2 && lines[0] == ResultsHeader && lines[|fd| + 1] == "" &&
      forall i :: 0 <= i < |fd| ==> SplitAll(lines[i + 1], ',') == [fd[i], fu[i], fwhm[i]]
  {
    if !(|fd| == |fu| && |fu| == |fwhm|) {
      return None;
    }
    var rows := ResultRows(fd, fu, fwhm);
    var t := ResultsHeader + "\n";
    assert t == Terminated([ResultsHeader] + rows[..0], '\n');
    var i := 0;
    while i < |fd|
      invariant 0 <= i <= |fd|
      invariant t == Terminated([ResultsHeader] + rows[..i], '\n')
    {
      t := t + fd[i] + "," + fu[i] + "," + fwhm[i] + "\n";
      TerminatedSnoc([ResultsHeader] + rows[..i], rows[i], '\n');
      assert [ResultsHeader] + rows[..i] + [rows[i]] == [ResultsHeader] + rows[..i + 1];
      i := i + 1;
    }
    assert rows[..|fd|] == rows;
    file := Some(CsvFile("Results_table_ch" + IntToString(channelId) + ".csv", t));
    if PlainValues(fd) && PlainValues(fu) && PlainValues(fwhm) {
      ReadResults(fd, fu, fwhm);
    }
  }

  lemma ReadResults(fd: seq<string>, fu: seq<string>, fwhm: seq<string>)
    requires |fd| == |fu| == |fwhm|
    requires PlainValues(fd) && PlainValues(fu) && PlainValues(fwhm)
    ensures var lines := SplitAll(Terminated([ResultsHeader] + ResultRows(fd, fu, fwhm), '\n'), '\n');
      |lines| == |fd| + 2 && lines[0] == ResultsHeader && lines[|fd| + 1] == "" &&
      forall i :: 0 <= i < |fd| ==> SplitAll(lines[i + 1], ',') == [fd[i], fu[i], fwhm[i]]
  {
    var all := [ResultsHeader] + ResultRows(fd, fu, fwhm);
    forall k | 0 <= k < |all| ensures '\n' !in all[k] {
      if k > 0 {
        assert all[k] == fd[k - 1] + "," + fu[k - 1] + "," + fwhm[k - 1];
      }
    }
    ReadTerminated(all, '\n');
    forall i | 0 <= i < |fd| ensures SplitAll(all[i + 1], ',') == [fd[i], fu[i], fwhm[i]] {
      JoinThree(fd[i], fu[i], fwhm[i], ',');
      SplitAllJoin([fd[i], fu[i], fwhm[i]], ',');
    }
  }

  lemma JoinThree(a: string, b: string, c: string, sep: char)
    ensures Join([a, b, c], sep) == a + [sep] + b + [sep] + c
  {
    assert [a, b, c][1..] == [b, c];
    assert [b, c][1..] == [c];
    assert Join([b, c], sep) == b + [sep] + c;
    assert Join([a, b, c], sep) == a + [sep] + (b + [sep] + c);
  }

  // ---------------------------------------------------------------------------
  // PCC_table.csv

  /** Channel pairs in lexicographic order. */
  predicate PairLess(a: (int, int), b: (int, int)) {
    a.0 < b.0 || (a.0 == b.0 && a.1 < b.1)
  }

  predicate StrictlySorted(ps: seq<(int, int)>) {
    forall a, b :: 0 <= a < b < |ps| ==> PairLess(ps[a], ps[b])
  }

  /** The inner loop: (i, j) for j from `j` up to n - 1. */
  function RowPairs(i: int, j: int, n: int): (r: seq<(int, int)>)
    ensures forall p :: p in r <==> p.0 == i && j <= p.1 < n
    ensures |r| == if j < n then n - j else 0
    ensures StrictlySorted(r)
    decreases n - j
  {
    if j >= n then []
    else
      var rest := RowPairs(i, j + 1, n);
      assert forall p :: p in [(i, j)] + rest <==> p == (i, j) || p in rest;
      [(i, j)] + rest
  }

  /** The outer loop from `i`: rows i, i + 1, ..., n - 2. */
  function PairsFrom(i: int, n: int): seq<(int, int)>
    decreases n - i
  {
    if i >= n - 1 then [] else RowPairs(i, i + 1, n) + PairsFrom(i + 1, n)
  }

  /** The outer loop yields every pair (i', j) with i <= i' < j < n and
      nothing else. */
  lemma {:induction false} PairsFromMembers(i: int, n: int)
    ensures forall p :: p in PairsFrom(i, n) <==> i <= p.0 < p.1 < n
    decreases n - i
  {
    if i < n - 1 {
      PairsFromMembers(i + 1, n);
      var row := RowPairs(i, i + 1, n);
      var rest := PairsFrom(i + 1, n);
      assert PairsFrom(i, n) == row + rest;
      assert forall p :: p in row + rest <==> p in row || p in rest;
    }
  }

  /** ... in lexicographic order. */
  lemma {:induction false} PairsFromSorted(i: int, n: int)
    ensures StrictlySorted(PairsFrom(i, n))
    decreases n - i
  {
    if i < n - 1 {
      PairsFromSorted(i + 1, n);
      PairsFromMembers(i + 1, n);
      var row := RowPairs(i, i + 1, n);
      var rest := PairsFrom(i + 1, n);
      assert PairsFrom(i, n) == row + rest;
      SortedConcat(row, rest);
    }
  }

  lemma SortedConcat(a: seq<(int, int)>, b: seq<(int, int)>)
    requires StrictlySorted(a) && StrictlySorted(b)
    requires forall x, y :: x in a && y in b ==> PairLess(x, y)
    ensures StrictlySorted(a + b)
  {
    forall x, y | 0 <= x < y < |a + b| ensures PairLess((a + b)[x], (a + b)[y]) {
      if y < |a| {
      } else if x >= |a| {
        assert (a + b)[x] == b[x - |a|] && (a + b)[y] == b[y - |a|];
      } else {
        assert (a + b)[x] in a && (a + b)[y] in b;
      }
    }
  }

  /** The pairs the header of the PCC table lists. */
  function Pairs(n: int): seq<(int, int)> {
    PairsFrom(0, n)
  }

  /** Every pair 0 <= i < j < n appears, nothing else does, each exactly once,
      in lexicographic order, and there are n(n-1)/2 of them. */
  lemma PairsExact(n: int)
    ensures forall p :: p in Pairs(n) <==> 0 <= p.0 < p.1 < n
    ensures forall a, b :: 0 <= a < b < |Pairs(n)| ==> Pairs(n)[a] != Pairs(n)[b]
    ensures n >= 0 ==> 2 * |Pairs(n)| == n * (n - 1)
  {
    var ps := Pairs(n);
    PairsFromMembers(0, n);
    PairsFromSorted(0, n);
    forall a, b | 0 <= a < b < |ps| ensures ps[a] != ps[b] {
      assert PairLess(ps[a], ps[b]);
    }
    if n >= 0 {
      PairsCount(0, n);
      TriangleClosed(n);
    }
  }

  /** 0 + 1 + ... + (m - 1): the pairs below the diagonal of an m-by-m grid. */
  function Triangle(m: int): int
    decreases m
  {
    if m <= 1 then 0 else (m - 1) + Triangle(m - 1)
  }

  lemma {:induction false} PairsCount(i: int, n: int)
    requires 0 <= i <= n
    ensures |PairsFrom(i, n)| == Triangle(n - i)
    decreases n - i
  {
    if i < n - 1 {
      PairsCount(i + 1, n);
      PairsFromLength(i, n);
      assert Triangle(n - i) == (n - i - 1) + Triangle(n - (i + 1));
    }
  }

  /** Row i contributes n - i - 1 pairs. */
  lemma PairsFromLength(i: int, n: int)
    requires 0 <= i < n - 1
    ensures |PairsFrom(i, n)| == (n - i - 1) + |PairsFrom(i + 1, n)|
  {
    assert PairsFrom(i, n) == RowPairs(i, i + 1, n) + PairsFrom(i + 1, n);
  }

  lemma {:induction false} TriangleClosed(m: int)
    requires m >= 0
    ensures 2 * Triangle(m) == m * (m - 1)
    decreases m
  {
    if m > 1 {
      TriangleClosed(m - 1);
      TriangleStep(m - 1, Triangle(m - 1));
    }
  }

  /** One more row of k pairs on top of the triangle of side k. */
  lemma TriangleStep(k: int, x: int)
    requires 2 * x == k * (k - 1)
    ensures 2 * (k + x) == (k + 1) * k
  {
  }

  /** "ch<i>_ch<j>" */
  function PairName(p: (int, int)): string {
    "ch" + IntToString(p.0) + "_ch" + IntToString(p.1)
  }

  function PairNames(ps: seq<(int, int)>): (r: seq<string>)
    ensures |r| == |ps|
    ensures forall k :: 0 <= k < |ps| ==> r[k] == PairName(ps[k])
  {
    seq(|ps|, k requires 0 <= k < |ps| => PairName(ps[k]))
  }

  /** One line per list of coefficients, each value followed by a comma. */
  function PccRows(pcc: seq<seq<string>>): (r: seq<string>)
    ensures |r| == |pcc|
    ensures forall k :: 0 <= k < |pcc| ==> r[k] == Terminated(pcc[k], ',')
  {
    seq(|pcc|, k requires 0 <= k < |pcc| => Terminated(pcc[k], ','))
  }

  /** sendPCCTable: the header names every channel pair, each followed by a
      comma, then one line per list of coefficients. */
  function PccText(pcc: seq<seq<string>>, nChannels: int): CsvFile {
    CsvFile("PCC_table.csv", Terminated([Terminated(PairNames(Pairs(nChannels)), ',')] + PccRows(pcc), '\n'))
  }

  /** Reading the PCC table back: its header splits into the pair names and
      each following line into one list's values. */
  lemma ReadPcc(pcc: seq<seq<string>>, nChannels: int)
    requires forall k :: 0 <= k < |pcc| ==> PlainValues(pcc[k])
    ensures var lines := SplitAll(PccText(pcc, nChannels).text, '\n');
      |lines| == |pcc| + 2 && lines[|pcc| + 1] == "" &&
      SplitAll(lines[0], ',') == PairNames(Pairs(nChannels)) + [""] &&
      forall k :: 0 <= k < |pcc| ==> SplitAll(lines[k + 1], ',') == pcc[k] + [""]
  {
    var names := PairNames(Pairs(nChannels));
    var all := [Terminated(names, ',')] + PccRows(pcc);
    PairNamesClean(Pairs(nChannels));
    PccLinesClean(names, pcc);
    ReadTerminated(all, '\n');
    ReadTerminated(names, ',');
    forall k | 0 <= k < |pcc| ensures SplitAll(all[k + 1], ',') == pcc[k] + [""] {
      ReadTerminated(pcc[k], ',');
    }
  }

  lemma PairNamesClean(ps: seq<(int, int)>)
    ensures Clean(PairNames(ps), ',') && Clean(PairNames(ps), '\n')
  {
    var names := PairNames(ps);
    forall k | 0 <= k < |names| ensures ',' !in names[k] && '\n' !in names[k] {
      PairNameChars(ps[k]);
    }
  }

  lemma PccLinesClean(names: seq<string>, pcc: seq<seq<string>>)
    requires Clean(names, '\n')
    requires forall k :: 0 <= k < |pcc| ==> PlainValues(pcc[k])
    ensures Clean([Terminated(names, ',')] + PccRows(pcc), '\n')
  {
    var all := [Terminated(names, ',')] + PccRows(pcc);
    NoBreakInTerminated(names, ',', '\n');
    forall k | 1 <= k < |all| ensures '\n' !in all[k] {
      assert all[k] == Terminated(pcc[k - 1], ',');
      NoBreakInTerminated(pcc[k - 1], ',', '\n');
    }
  }

  lemma PairNameChars(p: (int, int))
    ensures ',' !in PairName(p) && '\n' !in PairName(p)
  {
    IntToStringChars(p.0);
    IntToStringChars(p.1);
  }

  /** A rendered int is digits with perhaps a leading minus sign. */
  lemma IntToStringChars(v: int)
    ensures forall k :: 0 <= k < |IntToString(v)| ==> IntToString(v)[k] == '-' || IsAsciiDigit(IntToString(v)[k])
    ensures |IntToString(v)| > 0 && (IntToString(v)[0] == '-' || IsAsciiDigit(IntToString(v)[0]))
  {
    if v < 0 {
      var d := NatToString(-v);
      assert IntToString(v) == "-" + d;
      assert forall k :: 0 <= k < |d| ==> IsAsciiDigit(d[k]);
    } else {
      var d := NatToString(v);
      assert forall k :: 0 <= k < |d| ==> IsAsciiDigit(d[k]);
    }
  }

  lemma {:induction false} NoBreakInTerminated(items: seq<string>, c: char, b: char)
    requires b != c && Clean(items, b)
    ensures b !in Terminated(items, c)
    decreases |items|
  {
    if |items| > 0 {
      NoBreakInTerminated(items[1..], c, b);
      assert b !in items[0];
    }
  }

  // ---------------------------------------------------------------------------
  // The summary table (populateParentTable)

  /** An image of the summary, as its id and name. */
  datatype ImageRef = ImageRef(id: int, name: string)

  /** What the disk does with the one write the call makes. */
  datatype Disk = Disk(saveSucceeds: bool, appendSucceeds: bool, renameSucceeds: bool)

  /** "Image ID,Label" followed by one ",<header>" per header. */
  function HeaderLine(headers: seq<string>): string {
    "Image ID,Label" + Prefixed(headers, ',')
  }

  /** One line per metrics list of each image: "id,name,m1,...,mk". */
  function SummaryRows(summary: seq<(ImageRef, seq<seq<string>>)>): (r: seq<string>)
    decreases |summary|
  {
    if |summary| == 0 then []
    else ImageRows(summary[0].0, summary[0].1) + SummaryRows(summary[1..])
  }

  function ImageRows(img: ImageRef, lists: seq<seq<string>>): (r: seq<string>)
    ensures |r| == |lists|
    ensures forall k :: 0 <= k < |lists| ==> r[k] == IntToString(img.id) + "," + img.name + Prefixed(lists[k], ',')
  {
    seq(|lists|, k requires 0 <= k < |lists| => IntToString(img.id) + "," + img.name + Prefixed(lists[k], ','))
  }

  /** The number of metrics lists over all images. */
  function ListCount(summary: seq<(ImageRef, seq<seq<string>>)>): nat
    decreases |summary|
  {
    if |summary| == 0 then 0 else |summary[0].1| + ListCount(summary[1..])
  }

  /** Exactly one row per metrics list, and each row reads back as the image
      id, the image name and the list's values. */
  lemma {:induction false} SummaryRowsExact(summary: seq<(ImageRef, seq<seq<string>>)>)
    requires forall s :: 0 <= s < |summary| ==> ',' !in summary[s].0.name
    requires forall s, k :: 0 <= s < |summary| && 0 <= k < |summary[s].1| ==> Clean(summary[s].1[k], ',')
    ensures |SummaryRows(summary)| == ListCount(summary)
    ensures forall r :: r in SummaryRows(summary) ==>
      exists s, k :: 0 <= s < |summary| && 0 <= k < |summary[s].1| &&
        SplitAll(r, ',') == [IntToString(summary[s].0.id), summary[s].0.name] + summary[s].1[k]
    decreases |summary|
  {
    if |summary| > 0 {
      var tail := summary[1..];
      SummaryRowsExact(tail);
      var img := summary[0].0;
      var head := ImageRows(img, summary[0].1);
      forall r | r in head
        ensures exists k :: (0 <= k < |summary[0].1| &&
                  SplitAll(r, ',') == [IntToString(img.id), img.name] + summary[0].1[k])
      {
        var k :| 0 <= k < |head| && head[k] == r;
        RowFields(img, summary[0].1[k]);
      }
      forall r | r in SummaryRows(summary)
        ensures exists s, k :: (0 <= s < |summary| && 0 <= k < |summary[s].1| &&
                  SplitAll(r, ',') == [IntToString(summary[s].0.id), summary[s].0.name] + summary[s].1[k])
      {
        if r in head {
          var k :| 0 <= k < |summary[0].1| && SplitAll(r, ',') == [IntToString(img.id), img.name] + summary[0].1[k];
          assert summary[0].0 == img;
        } else {
          assert r in SummaryRows(tail);
          var s, k :| 0 <= s < |tail| && 0 <= k < |tail[s].1| &&
            SplitAll(r, ',') == [IntToString(tail[s].0.id), tail[s].0.name] + tail[s].1[k];
          assert tail[s] == summary[s + 1];
        }
      }
    }
  }

  lemma RowFields(img: ImageRef, metrics: seq<string>)
    requires ',' !in img.name && Clean(metrics, ',')
    ensures SplitAll(IntToString(img.id) + "," + img.name + Prefixed(metrics, ','), ',')
      == [IntToString(img.id), img.name] + metrics
  {
    IntToStringChars(img.id);
    var id := IntToString(img.id);
    assert ',' !in id by {
      forall k | 0 <= k < |id| ensures id[k] != ',' {
      }
    }
    assert id + "," + img.name + Prefixed(metrics, ',') == id + Prefixed([img.name] + metrics, ',') by {
      assert Prefixed([img.name] + metrics, ',') == [','] + img.name + Prefixed(metrics, ',') by {
        assert ([img.name] + metrics)[1..] == metrics;
      }
    }
    assert Clean([img.name] + metrics, ',');
    ReadPrefixed(id, [img.name] + metrics, ',');
  }

  /** The table gets the column header iff it starts a fresh file. */
  function TableText(summary: seq<(ImageRef, seq<seq<string>>)>, headers: seq<string>, isFresh: bool): string {
    (if isFresh then HeaderLine(headers) + "\n" else "") + Terminated(SummaryRows(summary), '\n')
  }

  /** Rows start with an id, so only a fresh table's text starts with the
      column header. */
  lemma HeaderIffFresh(summary: seq<(ImageRef, seq<seq<string>>)>, headers: seq<string>, isFresh: bool)
    ensures var t := TableText(summary, headers, isFresh);
      isFresh <==> |t| >= 14 && t[..14] == "Image ID,Label"
  {
    if isFresh {
      FreshStartsWithHeader(summary, headers);
    } else {
      AppendedStartsWithId(summary, headers);
    }
  }

  lemma FreshStartsWithHeader(summary: seq<(ImageRef, seq<seq<string>>)>, headers: seq<string>)
    ensures var t := TableText(summary, headers, true);
      |t| >= 14 && t[..14] == "Image ID,Label"
  {
    var h := "Image ID,Label";
    var p := Prefixed(headers, ',');
    var rows := Terminated(SummaryRows(summary), '\n');
    assert TableText(summary, headers, true) == (h + p) + "\n" + rows;
    assert (h + p) + "\n" + rows == h + (p + "\n" + rows);
    TextPrefix(h, p + "\n" + rows);
  }

  lemma TextPrefix(a: string, b: string)
    ensures |a + b| >= |a| && (a + b)[..|a|] == a
  {
  }

  lemma AppendedStartsWithId(summary: seq<(ImageRef, seq<seq<string>>)>, headers: seq<string>)
    ensures var t := TableText(summary, headers, false);
      |t| == 0 || t[0] != 'I'
  {
    var rows := SummaryRows(summary);
    var t := TableText(summary, headers, false);
    assert t == Terminated(rows, '\n');
    if |rows| > 0 {
      assert |rows[0]| > 0 && rows[0][0] != 'I' by {
        RowsStartWithId(summary);
        assert rows[0] in rows;
      }
      TerminatedStartsWithFirst(rows, '\n');
    }
  }

  lemma TerminatedStartsWithFirst(items: seq<string>, c: char)
    requires |items| > 0 && |items[0]| > 0
    ensures |Terminated(items, c)| > 0 && Terminated(items, c)[0] == items[0][0]
  {
    assert Terminated(items, c) == items[0] + ([c] + Terminated(items[1..], c));
  }

  lemma RowsStartWithId(summary: seq<(ImageRef, seq<seq<string>>)>)
    ensures forall r :: r in SummaryRows(summary) ==> |r| > 0 && r[0] != 'I'
    decreases |summary|
  {
    if |summary| > 0 {
      RowsStartWithId(summary[1..]);
      var img := summary[0].0;
      IntToStringChars(img.id);
      forall r | r in ImageRows(img, summary[0].1) ensures |r| > 0 && r[0] != 'I' {
        var k :| 0 <= k < |summary[0].1| && ImageRows(img, summary[0].1)[k] == r;
        assert r[0] == IntToString(img.id)[0];
      }
    }
  }

  /** The listing of a folder, as the latest-table lookup sees it. */
  function Listing(names: seq<string>): (r: seq<Versioning.Entry>)
    ensures |r| == |names|
    ensures forall k :: 0 <= k < |names| ==> r[k] == Versioning.Entry(names[k], true)
    ensures forall e :: e in r ==> e.name in names
  {
    seq(|names|, k requires 0 <= k < |names| => Versioning.Entry(names[k], true))
  }

  /** The latest table of the folder, by the folder's own name. */
  function LastTable(folderName: string, order: seq<string>): Option<string> {
    Versioning.LastTableInOwnFolder(folderName, Some(Listing(order))).value
  }

  /** "<date>_<folderName>_Table.csv" */
  function TableName(date: string, folderName: string): string {
    date + "_" + folderName + "_Table.csv"
  }

  /** The summary table starts a fresh file unless asked to extend the last
      one and that one exists. */
  predicate Fresh(folder: map<string, string>, last: Option<string>, populateExisting: bool) {
    !populateExisting || last.None? || last.value !in folder
  }

  /** A fresh table is saved under its dated name, if the save succeeds,
      and every other file is left as it was. */
  predicate SavedFresh(folder: map<string, string>, name: string, text: string, saved: bool,
                       r: map<string, string>) {
    (forall n :: n in folder && n != name ==> n in r && r[n] == folder[n]) &&
    (saved ==> r.Keys == folder.Keys + {name} && name in r && r[name] == text) &&
    (!saved ==> r == folder)
  }

  /** The latest table `prev` grows by the new rows if the append succeeds,
      and then takes the dated name if the rename succeeds; every other file
      is left as it was. */
  predicate ExtendedLast(folder: map<string, string>, prev: string, name: string, grown: string, disk: Disk,
                         r: map<string, string>)
    requires prev in folder
  {
    (!disk.appendSucceeds ==> r == folder) &&
    (disk.appendSucceeds && (!disk.renameSucceeds || prev == name) ==> r == folder[prev := grown]) &&
    (disk.appendSucceeds && disk.renameSucceeds && prev != name ==>
      prev !in r && name in r && r[name] == grown &&
      forall n :: n in folder && n != prev && n != name ==> n in r && r[n] == folder[n])
  }

  /** populateParentTable over a folder whose latest table is `last` (as
      LastTable finds it in the folder's listing): a fresh table is saved
      under the dated name and touches nothing else; otherwise the rows are
      appended to the latest table, which then takes the dated name if the
      append and the rename both succeed. */
  function PopulateParentTable(folder: map<string, string>, last: Option<string>, folderName: string, date: string,
                               summary: seq<(ImageRef, seq<seq<string>>)>, headers: seq<string>,
                               populateExisting: bool, disk: Disk): (r: map<string, string>)
    ensures Fresh(folder, last, populateExisting) ==>
      SavedFresh(folder, TableName(date, folderName), TableText(summary, headers, true), disk.saveSucceeds, r)
    ensures !Fresh(folder, last, populateExisting) ==>
      ExtendedLast(folder, last.value, TableName(date, folderName),
        folder[last.value] + TableText(summary, headers, false), disk, r)
  {
    var name := TableName(date, folderName);
    if Fresh(folder, last, populateExisting) then
      if disk.saveSucceeds then folder[name := TableText(summary, headers, true)] else folder
    else
      var prev := last.value;
      var grown := folder[prev] + TableText(summary, headers, false);
      if !disk.appendSucceeds then folder
      else if !disk.renameSucceeds || prev == name then folder[prev := grown]
      else (folder - {prev})[name := grown]
  }

  /** The table chosen for extension is one of the folder's csv files that
      names the folder. */
  lemma ExtendedTableNamesFolder(folderName: string, order: seq<string>)
    ensures var last := LastTable(folderName, order);
      last.Some? ==> last.value in order && Contains(last.value, folderName)
  {
    var last := LastTable(folderName, order);
    if last.Some? {
      Versioning.ChosenIsCandidate(Some(Listing(order)), folderName);
      var c := Versioning.Candidates(Listing(order), folderName);
      assert last.value in c;
      var e :| e in Listing(order) && e.name == last.value && Contains(last.value, folderName);
    }
  }
}
