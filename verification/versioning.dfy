/** Summary-table versioning: the latest table is the one whose leading
    `_`-token is greatest (DataManagement.getLastOmeroTable and
    getLastLocalTable, LocalSender.getLastLocalTable), and table names start
    with a zero-padded timestamp (Tools.getCurrentDateAndHour and the copy in
    LocalSender.populateParentTable) whose string order is time order. */
module Versioning {
  import opened Results
  import opened JavaLang
  import opened Sequences

  // ---------------------------------------------------------------------------
  // The leading token

  predicate AllUnderscores(s: string) {
    AllChar(s, '_')
  }

  /** name.split("_")[0]: the text before the first underscore.  A non-empty
      name made only of underscores splits into no piece at all, and the
      index 0 throws. */
  function LeadingToken(name: string): (r: Result<string>)
    ensures r.Throws? <==> |name| > 0 && AllUnderscores(name)
    ensures r.Throws? ==> r.error == IndexOutOfBounds
    ensures r.Ok? ==> |r.value| <= |name| && name[..|r.value|] == r.value && '_' !in r.value
    ensures r.Ok? ==> |r.value| == |name| || name[|r.value|] == '_'
  {
    var pieces := Split(name, '_');
    SplitEmptyIff(name, '_');
    if |pieces| == 0 then Throws(IndexOutOfBounds)
    else
      FirstPieceEnds(name, '_');
      Ok(pieces[0])
  }

  /** The first piece of a split is a prefix of the string that ends at the
      first separator or at the end. */
  lemma FirstPieceEnds(s: string, c: char)
    requires |Split(s, c)| > 0
    ensures |Split(s, c)[0]| <= |s| && s[..|Split(s, c)[0]|] == Split(s, c)[0]
    ensures |Split(s, c)[0]| == |s| || s[|Split(s, c)[0]|] == c
  {
    SplitFirstIsPrefix(s, c);
    if c in s {
      SplitAllFirstFollowed(s, c);
      assert Split(s, c)[0] == SplitAll(s, c)[0];
    }
  }

  /** Split drops every piece exactly when the string is a non-empty run of
      the separator. */
  lemma SplitEmptyIff(s: string, c: char)
    ensures |Split(s, c)| == 0 <==> |s| > 0 && AllChar(s, c)
  {
    SplitAllEmptyIff(s, c);
    var all := SplitAll(s, c);
    if c in s {
      var r := DropTrailingEmpty(all);
      if |r| > 0 {
        assert r[|r| - 1] == all[|r| - 1];
      }
    }
  }

  predicate AllEmpty(xs: seq<string>) {
    forall k :: 0 <= k < |xs| ==> xs[k] == ""
  }

  predicate AllChar(s: string, c: char) {
    forall i :: 0 <= i < |s| ==> s[i] == c
  }

  lemma {:induction false} SplitAllEmptyIff(s: string, c: char)
    ensures AllEmpty(SplitAll(s, c)) <==> AllChar(s, c)
    decreases |s|
  {
    if |s| > 0 {
      SplitAllEmptyIff(s[1..], c);
      var rest := SplitAll(s[1..], c);
      var all := SplitAll(s, c);
      if s[0] == c {
        assert all == [""] + rest;
        assert AllEmpty(all) <==> AllEmpty(rest) by {
          assert forall k :: 1 <= k < |all| ==> all[k] == rest[k - 1];
          assert forall k :: 0 <= k < |rest| ==> rest[k] == all[k + 1];
        }
        assert AllChar(s, c) <==> AllChar(s[1..], c) by {
          assert forall i :: 1 <= i < |s| ==> s[i] == s[1..][i - 1];
          assert forall i :: 0 <= i < |s| - 1 ==> s[1..][i] == s[i + 1];
        }
      } else {
        assert all[0] == [s[0]] + rest[0];
      }
    }
  }

  /** When the separator occurs, the first piece is followed by it. */
  lemma {:induction false} SplitAllFirstFollowed(s: string, c: char)
    requires c in s
    ensures |SplitAll(s, c)[0]| < |s| && s[|SplitAll(s, c)[0]|] == c
    decreases |s|
  {
    if s[0] != c {
      assert c in s[1..] by {
        var i :| 0 <= i < |s| && s[i] == c;
        assert s[1..][i - 1] == c;
      }
      SplitAllFirstFollowed(s[1..], c);
    }
  }

  /** A name starting with an underscore-free token and an underscore has
      that token in front. */
  lemma LeadingTokenOf(token: string, rest: string)
    requires |token| > 0 && '_' !in token
    ensures LeadingToken(token + "_" + rest) == Ok(token)
  {
    var name := token + "_" + rest;
    assert name[0] == token[0];
    FirstPieceBeforeSeparator(token, rest, '_');
  }

  // ---------------------------------------------------------------------------
  // Latest-table selection

  function Tokens(names: seq<string>): (r: Result<seq<string>>)
    ensures r.Ok? <==> forall i :: 0 <= i < |names| ==> LeadingToken(names[i]).Ok?
    ensures r.Ok? ==> |r.value| == |names|
    ensures r.Ok? ==> forall i :: 0 <= i < |names| ==> r.value[i] == LeadingToken(names[i]).value
    ensures r.Throws? ==> r.error == IndexOutOfBounds
  {
    if |names| == 0 then Ok([])
    else
      match LeadingToken(names[0])
      case Throws(e) => Throws(e)
      case Ok(t) =>
        match Tokens(names[1..])
        case Throws(e) => Throws(e)
        case Ok(ts) => Ok([t] + ts)
  }

  /** The index of the first name containing `t`. */
  function FirstContaining(names: seq<string>, t: string): (r: Option<nat>)
    ensures r.Some? ==> r.value < |names| && Contains(names[r.value], t)
    ensures r.Some? ==> forall j :: 0 <= j < r.value ==> !Contains(names[j], t)
    ensures r.None? ==> forall j :: 0 <= j < |names| ==> !Contains(names[j], t)
  {
    if |names| == 0 then None
    else if Contains(names[0], t) then Some(0)
    else
      match FirstContaining(names[1..], t)
      case None => None
      case Some(i) => Some(i + 1)
  }

  /** The choice made by all three getLast*Table functions over the candidate
      names, in listing order: null (None) for no candidate; otherwise the
      first candidate containing the greatest leading token.  The token
      extraction runs over every name first, so one name made of underscores
      throws before any choice is made. */
  function Latest(names: seq<string>): (r: Result<Option<nat>>)
    ensures r == Ok(None) <==> |names| == 0
    ensures r.Throws? <==> exists i :: 0 <= i < |names| && |names[i]| > 0 && AllUnderscores(names[i])
    ensures r.Ok? && r.value.Some? ==>
      && r.value.value < |names|
      && var best := LeadingToken(names[r.value.value]);
      && (exists i :: 0 <= i < |names| && LeadingToken(names[i]) == Ok(GreatestToken(names)))
      && (forall i :: 0 <= i < |names| ==> LexLessEq(LeadingToken(names[i]).value, GreatestToken(names)))
      && Contains(names[r.value.value], GreatestToken(names))
      && (forall j :: 0 <= j < r.value.value ==> !Contains(names[j], GreatestToken(names)))
  {
    match Tokens(names)
    case Throws(e) => Throws(e)
    case Ok(ts) =>
      if |ts| == 0 then Ok(None)
      else
        var m := MaxString(ts);
        var i :| 0 <= i < |ts| && ts[i] == m;
        TokenContained(names[i]);
        Ok(Some(FirstContaining(names, m).value))
  }

  /** The greatest leading token of a list whose tokens all exist. */
  function GreatestToken(names: seq<string>): string
    requires |names| > 0 && Tokens(names).Ok?
  {
    MaxString(Tokens(names).value)
  }

  /** A name contains its own leading token, which is why the final lookup of
      the selection never comes back empty. */
  lemma TokenContained(name: string)
    requires LeadingToken(name).Ok?
    ensures Contains(name, LeadingToken(name).value)
  {
    var t := LeadingToken(name).value;
    PrefixContained(name, t);
  }

  // ---------------------------------------------------------------------------
  // The three callers

  /** getLastOmeroTable over the names of the tables attached to an object:
      a failing table listing is logged and gives null, an empty one gives
      null, and an underscore-only name escapes as an exception. */
  function LastOmeroTable(tables: Result<seq<string>>): (r: Result<Option<nat>>)
    ensures tables.Throws? ==> r == Ok(None)
    ensures tables.Ok? ==> r == Latest(tables.value)
  {
    match tables
    case Throws(_) => Ok(None)
    case Ok(names) => if |names| == 0 then Ok(None) else Latest(names)
  }

  /** A directory entry: its name and whether it is a regular file. */
  datatype Entry = Entry(name: string, isFile: bool)

  /** A regular file whose name has a "." and whose text after the last "."
      is exactly "csv". */
  predicate IsCsvFile(e: Entry) {
    e.isFile && Contains(e.name, ".") && e.name[LastIndexOf(e.name, '.') + 1..] == "csv"
  }

  /** The csv file names of a listing that contain the microscope name, in
      listing order. */
  function Candidates(entries: seq<Entry>, microscope: string): (r: seq<string>)
    ensures forall x :: x in r <==> exists e :: e in entries && IsCsvFile(e) && e.name == x && Contains(x, microscope)
    ensures forall k :: 0 <= k < |r| ==> '.' in r[k]
    ensures IsSubsequence(r, EntryNames(entries))
  {
    if |entries| == 0 then []
    else
      var rest := Candidates(entries[1..], microscope);
      var e := entries[0];
      assert forall x :: x in entries <==> x == e || x in entries[1..] by {
        assert entries == [e] + entries[1..];
      }
      if IsCsvFile(e) && Contains(e.name, microscope) then
        DotInCsvName(e);
        var r := [e.name] + rest;
        assert r[1..] == rest;
        r
      else
        SkipFirst(rest, EntryNames(entries));
        rest
  }

  /** The names of a listing, in listing order. */
  function EntryNames(entries: seq<Entry>): (r: seq<string>)
    ensures |r| == |entries| && forall k :: 0 <= k < |entries| ==> r[k] == entries[k].name
  {
    if |entries| == 0 then [] else [entries[0].name] + EntryNames(entries[1..])
  }

  lemma DotInCsvName(e: Entry)
    requires IsCsvFile(e)
    ensures '.' in e.name
  {
    var i :| 0 <= i <= |e.name| && OccursAt(e.name, ".", i);
    assert e.name[i] == e.name[i..i + 1][0];
  }

  /** A name with a "." in it is not made of underscores only. */
  lemma DottedNotUnderscores(names: seq<string>)
    requires forall k :: 0 <= k < |names| ==> '.' in names[k]
    ensures forall k :: 0 <= k < |names| ==> !AllUnderscores(names[k])
  {
    forall k | 0 <= k < |names| ensures !AllUnderscores(names[k]) {
      var i :| 0 <= i < |names[k]| && names[k][i] == '.';
      assert names[k][i] != '_';
    }
  }

  /** DataManagement.getLastLocalTable(folder, microscope): null for a folder
      that cannot be listed or has no csv file naming the microscope;
      otherwise the latest such file by leading token.  Every candidate holds
      a ".", so the token extraction cannot throw. */
  function LastLocalTable(listing: Option<seq<Entry>>, microscope: string): (r: Result<Option<string>>)
    ensures r.Ok?
    ensures r.value.None? <==> listing.None? || |Candidates(listing.value, microscope)| == 0
    ensures r.value.Some? ==>
      var c := Candidates(listing.value, microscope);
      exists k :: 0 <= k < |c| && Latest(c) == Ok(Some(k)) && r.value.value == c[k]
  {
    match listing
    case None => Ok(None)
    case Some(entries) =>
      var c := Candidates(entries, microscope);
      if |c| == 0 then Ok(None)
      else
        DottedNotUnderscores(c);
        var k := Latest(c).value.value;
        Ok(Some(c[k]))
  }

  /** LocalSender.getLastLocalTable(folderPath): the same choice, with the
      microscope name taken from the folder's own name. */
  function LastTableInOwnFolder(folderName: string, listing: Option<seq<Entry>>): (r: Result<Option<string>>)
    ensures r.Ok?
    ensures r.value.None? <==> listing.None? || |Candidates(listing.value, folderName)| == 0
    ensures r.value.Some? ==> Contains(r.value.value, folderName) && '.' in r.value.value
  {
    ChosenIsCandidate(listing, folderName);
    LastLocalTable(listing, folderName)
  }

  lemma ChosenIsCandidate(listing: Option<seq<Entry>>, microscope: string)
    ensures LastLocalTable(listing, microscope).value.Some? ==>
      LastLocalTable(listing, microscope).value.value in Candidates(listing.value, microscope)
  {
    var r := LastLocalTable(listing, microscope);
    if r.value.Some? {
      var c := Candidates(listing.value, microscope);
      var k :| 0 <= k < |c| && Latest(c) == Ok(Some(k)) && r.value.value == c[k];
    }
  }

  // ---------------------------------------------------------------------------
  // The timestamp

  /** The wall-clock reading the timestamp is built from. */
  datatype Clock = Clock(year: int, month: int, day: int, hour: int, minute: int, second: int)

  predicate ValidClock(c: Clock) {
    1 <= c.month <= 12 && 1 <= c.day <= 31 && 0 <= c.hour < 24 && 0 <= c.minute < 60 && 0 <= c.second < 60
  }

  /** `v < 10 ? "0" + v : v` */
  function TwoDigits(v: nat): (s: string)
    ensures v < 100 ==> s == FixedDigits(v, 2)
  {
    if v < 10 then
      assert FixedDigits(v, 2) == FixedDigits(0, 1) + [DigitChar(v)];
      "0" + NatToString(v)
    else
      TwoDigitRendering(v);
      NatToString(v)
  }

  lemma TwoDigitRendering(v: nat)
    ensures 10 <= v < 100 ==> NatToString(v) == FixedDigits(v, 2)
  {
    if 10 <= v < 100 {
      assert Pow10(1) == 10 && Pow10(2) == 100;
      NatToStringFixed(v, 2);
    }
  }

  /** yyyyMMdd-HHhMMmSS: the year as written, every other field padded to two
      digits. */
  function Timestamp(c: Clock): (t: string)
    requires ValidClock(c)
    ensures 1000 <= c.year <= 9999 ==> |t| == 17 && t == FixedTimestamp(c)
  {
    NatToStringFixedYear(c.year);
    IntToString(c.year)
      + (TwoDigits(c.month) + (TwoDigits(c.day) + ("-" + (TwoDigits(c.hour)
      + ("h" + (TwoDigits(c.minute) + ("m" + TwoDigits(c.second))))))))
  }

  function FixedTimestamp(c: Clock): string
    requires ValidClock(c) && 0 <= c.year
  {
    FixedDigits(c.year, 4)
      + (FixedDigits(c.month, 2) + (FixedDigits(c.day, 2) + ("-" + (FixedDigits(c.hour, 2)
      + ("h" + (FixedDigits(c.minute, 2) + ("m" + FixedDigits(c.second, 2))))))))
  }

  lemma NatToStringFixedYear(y: int)
    ensures 1000 <= y <= 9999 ==> IntToString(y) == FixedDigits(y, 4)
  {
    if 1000 <= y <= 9999 {
      assert Pow10(3) == 1000 && Pow10(4) == 10000;
      NatToStringFixed(y, 4);
    }
  }

  /** A number with exactly `w` digits is written as its `w`-digit rendering. */
  lemma {:induction false} NatToStringFixed(v: nat, w: nat)
    requires 1 <= w && Pow10(w - 1) <= v < Pow10(w)
    ensures NatToString(v) == FixedDigits(v, w)
    decreases w
  {
    if w == 1 {
      assert FixedDigits(v, 1) == FixedDigits(0, 0) + [DigitChar(v)];
    } else {
      assert Pow10(w) == 10 * Pow10(w - 1) && Pow10(w - 1) == 10 * Pow10(w - 2);
      assert Pow10(w - 2) <= v / 10 < Pow10(w - 1);
      NatToStringFixed(v / 10, w - 1);
    }
  }

  /** Chronological order of clock readings. */
  predicate Earlier(a: Clock, b: Clock) {
    a.year < b.year || (a.year == b.year &&
    (a.month < b.month || (a.month == b.month &&
    (a.day < b.day || (a.day == b.day &&
    (a.hour < b.hour || (a.hour == b.hour &&
    (a.minute < b.minute || (a.minute == b.minute && a.second < b.second)))))))))
  }

  /** For four-digit years, comparing two timestamps as strings is the same
      as comparing the times they stand for. */
  lemma TimestampOrder(a: Clock, b: Clock)
    requires ValidClock(a) && ValidClock(b)
    requires 1000 <= a.year <= 9999 && 1000 <= b.year <= 9999
    ensures LexLess(Timestamp(a), Timestamp(b)) <==> Earlier(a, b)
    ensures Timestamp(a) == Timestamp(b) <==> a == b
  {
    assert Pow10(2) == 100 && Pow10(4) == 10000;
    TimeOfDayOrder(a, b);
    var ta, tb := TimeOfDay(a), TimeOfDay(b);
    FieldOrder(a.day, b.day, 2, ta, tb);
    var da, db := FixedDigits(a.day, 2) + ta, FixedDigits(b.day, 2) + tb;
    FieldOrder(a.month, b.month, 2, da, db);
    var ma, mb := FixedDigits(a.month, 2) + da, FixedDigits(b.month, 2) + db;
    FieldOrder(a.year, b.year, 4, ma, mb);
    TimestampShape(a);
    TimestampShape(b);
  }

  /** A timestamp is its date fields followed by its time-of-day tail. */
  lemma TimestampShape(c: Clock)
    requires ValidClock(c) && 1000 <= c.year <= 9999
    ensures Timestamp(c) == FixedDigits(c.year, 4) + (FixedDigits(c.month, 2) + (FixedDigits(c.day, 2) + TimeOfDay(c)))
  {
  }

  /** The "-HHhMMmSS" tail of a timestamp. */
  function TimeOfDay(c: Clock): string
    requires ValidClock(c)
  {
    "-" + (FixedDigits(c.hour, 2) + ("h" + (FixedDigits(c.minute, 2) + ("m" + FixedDigits(c.second, 2)))))
  }

  /** The time-of-day tails compare as the times of day do. */
  lemma TimeOfDayOrder(a: Clock, b: Clock)
    requires ValidClock(a) && ValidClock(b)
    ensures LexLess(TimeOfDay(a), TimeOfDay(b)) <==>
      a.hour < b.hour || (a.hour == b.hour && (a.minute < b.minute || (a.minute == b.minute && a.second < b.second)))
    ensures TimeOfDay(a) == TimeOfDay(b) <==> a.hour == b.hour && a.minute == b.minute && a.second == b.second
  {
    assert Pow10(2) == 100;
    FixedDigitsOrder(a.second, b.second, 2);
    var ta1 := "m" + FixedDigits(a.second, 2);
    var tb1 := "m" + FixedDigits(b.second, 2);
    SeparatorOrder("m", FixedDigits(a.second, 2), FixedDigits(b.second, 2));
    var ta2 := FixedDigits(a.minute, 2) + ta1;
    var tb2 := FixedDigits(b.minute, 2) + tb1;
    FieldOrder(a.minute, b.minute, 2, ta1, tb1);
    var ta3 := "h" + ta2;
    var tb3 := "h" + tb2;
    SeparatorOrder("h", ta2, tb2);
    var ta4 := FixedDigits(a.hour, 2) + ta3;
    var tb4 := FixedDigits(b.hour, 2) + tb3;
    FieldOrder(a.hour, b.hour, 2, ta3, tb3);
    SeparatorOrder("-", ta4, tb4);
  }

  /** A padded field followed by the rest: the field decides unless equal. */
  lemma FieldOrder(x: nat, y: nat, w: nat, ra: string, rb: string)
    requires x < Pow10(w) && y < Pow10(w)
    ensures LexLess(FixedDigits(x, w) + ra, FixedDigits(y, w) + rb) <==> x < y || (x == y && LexLess(ra, rb))
    ensures FixedDigits(x, w) + ra == FixedDigits(y, w) + rb <==> x == y && ra == rb
  {
    FixedDigitsOrder(x, y, w);
    LexLessConcat(FixedDigits(x, w), ra, FixedDigits(y, w), rb);
    var fa, fb := FixedDigits(x, w), FixedDigits(y, w);
    if fa + ra == fb + rb {
      assert fa == (fa + ra)[..w] == (fb + rb)[..w] == fb;
      assert ra == (fa + ra)[w..] == (fb + rb)[w..] == rb;
    }
  }

  /** A common separator in front does not change the order. */
  lemma SeparatorOrder(sep: string, ra: string, rb: string)
    ensures LexLess(sep + ra, sep + rb) <==> LexLess(ra, rb)
    ensures sep + ra == sep + rb <==> ra == rb
  {
    LexLessConcat(sep, ra, sep, rb);
    LexLessIrreflexive(sep);
    if sep + ra == sep + rb {
      assert ra == (sep + ra)[|sep|..] == (sep + rb)[|sep|..] == rb;
    }
  }

  /** Padded renderings of numbers below 10^w compare like the numbers. */
  lemma {:induction false} FixedDigitsOrder(x: nat, y: nat, w: nat)
    requires x < Pow10(w) && y < Pow10(w)
    ensures LexLess(FixedDigits(x, w), FixedDigits(y, w)) <==> x < y
    ensures FixedDigits(x, w) == FixedDigits(y, w) <==> x == y
    decreases w
  {
    FixedDigitsValue(x, w);
    FixedDigitsValue(y, w);
    if w > 0 {
      var p := Pow10(w - 1);
      assert Pow10(w) == 10 * p;
      assert x / 10 < p && y / 10 < p;
      FixedDigitsOrder(x / 10, y / 10, w - 1);
      var dx, dy := [DigitChar(x % 10)], [DigitChar(y % 10)];
      LexLessConcat(FixedDigits(x / 10, w - 1), dx, FixedDigits(y / 10, w - 1), dy);
      assert LexLess(dx, dy) <==> x % 10 < y % 10 by {
        assert dx[1..] == [] && dy[1..] == [];
      }
      assert x == 10 * (x / 10) + x % 10 && y == 10 * (y / 10) + y % 10;
    }
  }

  /** A table named after a timestamp has that timestamp as its leading token. */
  lemma TimestampLeads(c: Clock, rest: string)
    requires ValidClock(c) && 1000 <= c.year <= 9999
    ensures LeadingToken(Timestamp(c) + "_" + rest) == Ok(Timestamp(c))
  {
    var t := Timestamp(c);
    assert '_' !in t by {
      forall i | 0 <= i < |t| ensures t[i] != '_' {
        assert t == FixedTimestamp(c);
        FixedTimestampChars(c);
      }
    }
    LeadingTokenOf(t, rest);
  }

  lemma FixedTimestampChars(c: Clock)
    requires ValidClock(c) && 0 <= c.year
    ensures forall i :: 0 <= i < |FixedTimestamp(c)| ==> FixedTimestamp(c)[i] != '_'
  {
    var parts := [FixedDigits(c.year, 4), FixedDigits(c.month, 2), FixedDigits(c.day, 2), "-",
                  FixedDigits(c.hour, 2), "h", FixedDigits(c.minute, 2), "m", FixedDigits(c.second, 2)];
    forall k | 0 <= k < |parts| ensures '_' !in parts[k] {
      if AllDigits(parts[k]) {
        assert forall i :: 0 <= i < |parts[k]| ==> IsAsciiDigit(parts[k][i]);
      }
    }
  }
}
