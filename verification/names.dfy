/** Image-name handling of DataManagement: stripping the extension for display
    and reading the acquisition date from the `_`-separated name tokens, with
    the image metadata as fallback. */
module Names {
  import opened Results
  import opened JavaLang

  // ---------------------------------------------------------------------------
  // getNameWithoutExtension

  /** The name shown for an image: container extensions `.lif` and `.vsi` are
      removed wherever they occur (`.lif` checked first); any other name loses
      the text from its last `.` on, unless that dot is the first character. */
  function NameWithoutExtension(name: string): (r: string)
    ensures |r| <= |name|
    ensures Contains(name, ".lif") || Contains(name, ".vsi") ==> |r| <= |name| - 4
    ensures !Contains(name, ".lif") && !Contains(name, ".vsi") ==>
      (r == name <==> LastIndexOf(name, '.') <= 0)
    ensures !Contains(name, ".lif") && !Contains(name, ".vsi") && r != name ==>
      0 < |r| < |name| && name[..|r|] == r && name[|r|] == '.' && '.' !in name[|r| + 1..]
  {
    if Contains(name, ".lif") then
      RemoveLiteralShrinks(name, ".lif");
      Replace(name, ".lif", "")
    else if Contains(name, ".vsi") then
      RemoveLiteralShrinks(name, ".vsi");
      Replace(name, ".vsi", "")
    else
      var pos := LastIndexOf(name, '.');
      if pos > 0 then name[..pos] else name
  }

  lemma RemoveLiteralShrinks(s: string, t: string)
    requires |t| > 0 && Contains(s, t)
    ensures |Replace(s, t, "")| <= |s| - |t|
  {
    var i :| 0 <= i <= |s| && OccursAt(s, t, i);
    LiteralMatches(s, t, i);
    RemoveAllShrinks(s, Literal(t));
  }

  /** A `.lif` name loses its `.lif`: `stem.lifrest` is shown as `stemrest`
      when no other occurrence of `.lif` overlaps the stem or the rest. */
  lemma LifSuffixRemoved(stem: string, rest: string)
    requires !Contains(stem + ".li", ".lif")
    requires !Contains(rest, ".lif")
    ensures NameWithoutExtension(stem + ".lif" + rest) == stem + rest
  {
    var name := stem + ".lif" + rest;
    assert OccursAt(name, ".lif", |stem|);
    assert Contains(name, ".lif");
    assert ".lif"[..3] == ".li";
    RemoveOccurrence(stem, rest, ".lif");
  }

  /** Removing `t` from `stem t rest`, where `t` occurs nowhere else. */
  lemma RemoveOccurrence(stem: string, rest: string, t: string)
    requires |t| > 0
    requires !Contains(stem + t[..|t| - 1], t)
    requires !Contains(rest, t)
    ensures Replace(stem + t + rest, t, "") == stem + rest
  {
    RemoveLeading(stem, rest, t);
    NoMatchAnywhere(rest, t);
    RemoveAllShrinks(rest, Literal(t));
  }

  /** The scan passes the stem, drops the occurrence of `t` after it, and
      goes on with the rest. */
  lemma RemoveLeading(stem: string, rest: string, t: string)
    requires |t| > 0
    requires !Contains(stem + t[..|t| - 1], t)
    ensures Replace(stem + t + rest, t, "") == stem + Replace(rest, t, "")
  {
    var pat := Literal(t);
    assert stem + t + rest == stem + (t + rest);
    NoMatchInStem(stem, rest, t);
    RemoveAllPrefix(stem, t + rest, pat, "");
    LiteralMatches(t + rest, t, 0);
    assert (t + rest)[|t|..] == rest;
  }

  /** The pieces with `sep` between each two. */
  function JoinWith(pieces: seq<string>, sep: string): string
    requires |pieces| >= 1
  {
    if |pieces| == 1 then pieces[0] else pieces[0] + sep + JoinWith(pieces[1..], sep)
  }

  /** The pieces run together. */
  function Concat(pieces: seq<string>): string {
    if |pieces| == 0 then "" else pieces[0] + Concat(pieces[1..])
  }

  /** A string without some character of `t` does not contain `t`. */
  lemma MissingChar(s: string, t: string, c: char)
    requires c in t && c !in s
    ensures !Contains(s, t)
  {
    var j :| 0 <= j < |t| && t[j] == c;
    forall i | 0 <= i <= |s| ensures !OccursAt(s, t, i) {
      if i + |t| <= |s| {
        assert s[i..i + |t|][j] == s[i + j];
      }
    }
  }

  /** Following a `t`-free string with all of `t` but its last character
      cannot complete `t`, when that last character appears nowhere earlier
      in `t`. */
  lemma NoCompletion(p: string, t: string)
    requires |t| > 0 && t[|t| - 1] !in t[..|t| - 1]
    requires !Contains(p, t)
    ensures !Contains(p + t[..|t| - 1], t)
  {
    var s := p + t[..|t| - 1];
    forall i | 0 <= i <= |s| ensures !OccursAt(s, t, i) {
      if i + |t| <= |p| {
        assert s[i..i + |t|] == p[i..i + |t|];
        assert !OccursAt(p, t, i);
      } else if i + |t| <= |s| {
        var k := i + |t| - 1;
        assert s[k] == t[..|t| - 1][k - |p|];
        assert s[i..i + |t|][|t| - 1] == s[k];
      }
    }
  }

  /** String.replace(t, "") removes every `t`: pieces free of `t`, joined by
      `t`, come back run together. */
  lemma {:induction false} RemoveJoined(pieces: seq<string>, t: string)
    requires |pieces| >= 1 && |t| > 0 && t[|t| - 1] !in t[..|t| - 1]
    requires forall k :: 0 <= k < |pieces| ==> !Contains(pieces[k], t)
    ensures Replace(JoinWith(pieces, t), t, "") == Concat(pieces)
    decreases |pieces|
  {
    if |pieces| == 1 {
      NoMatchAnywhere(pieces[0], t);
      RemoveAllShrinks(pieces[0], Literal(t));
      assert Concat(pieces) == pieces[0] + Concat([]);
    } else {
      NoCompletion(pieces[0], t);
      RemoveLeading(pieces[0], JoinWith(pieces[1..], t), t);
      RemoveJoined(pieces[1..], t);
    }
  }

  /** A name made of two or more pieces joined by `t` contains `t`. */
  lemma JoinedContains(pieces: seq<string>, t: string)
    requires |pieces| >= 2
    ensures Contains(JoinWith(pieces, t), t)
  {
    var name := JoinWith(pieces, t);
    assert name == pieces[0] + t + JoinWith(pieces[1..], t);
    assert OccursAt(name, t, |pieces[0]|);
  }

  /** Every `.lif` is removed: a name made of `.lif`-free pieces joined by
      `.lif` is shown as the pieces run together. */
  lemma LifRemoved(pieces: seq<string>)
    requires |pieces| >= 2
    requires forall k :: 0 <= k < |pieces| ==> !Contains(pieces[k], ".lif")
    ensures NameWithoutExtension(JoinWith(pieces, ".lif")) == Concat(pieces)
  {
    JoinedContains(pieces, ".lif");
    LifJoined(pieces);
    LifBranch(JoinWith(pieces, ".lif"));
  }

  lemma LifJoined(pieces: seq<string>)
    requires |pieces| >= 1
    requires forall k :: 0 <= k < |pieces| ==> !Contains(pieces[k], ".lif")
    ensures Replace(JoinWith(pieces, ".lif"), ".lif", "") == Concat(pieces)
  {
    LifLastFresh();
    RemoveJoined(pieces, ".lif");
  }

  lemma LifLastFresh()
    ensures ".lif"[3] !in ".lif"[..3]
  {
    assert ".lif"[..3] == ".li";
  }

  lemma LifBranch(name: string)
    requires Contains(name, ".lif")
    ensures NameWithoutExtension(name) == Replace(name, ".lif", "")
  {
  }

  /** Without a `.lif`, every `.vsi` is removed the same way. */
  lemma VsiRemoved(pieces: seq<string>)
    requires |pieces| >= 2
    requires forall k :: 0 <= k < |pieces| ==> !Contains(pieces[k], ".vsi")
    requires !Contains(JoinWith(pieces, ".vsi"), ".lif")
    ensures NameWithoutExtension(JoinWith(pieces, ".vsi")) == Concat(pieces)
  {
    JoinedContains(pieces, ".vsi");
    VsiJoined(pieces);
    VsiBranch(JoinWith(pieces, ".vsi"));
  }

  lemma VsiJoined(pieces: seq<string>)
    requires |pieces| >= 1
    requires forall k :: 0 <= k < |pieces| ==> !Contains(pieces[k], ".vsi")
    ensures Replace(JoinWith(pieces, ".vsi"), ".vsi", "") == Concat(pieces)
  {
    VsiLastFresh();
    RemoveJoined(pieces, ".vsi");
  }

  lemma VsiLastFresh()
    ensures ".vsi"[3] !in ".vsi"[..3]
  {
    assert ".vsi"[..3] == ".vs";
  }

  lemma VsiBranch(name: string)
    requires !Contains(name, ".lif") && Contains(name, ".vsi")
    ensures NameWithoutExtension(name) == Replace(name, ".vsi", "")
  {
  }

  /** `.lif` is checked first: a name ending in its one `.lif` keeps
      everything before it, a `.vsi` included. */
  lemma LifBeforeVsi(stem: string)
    requires !Contains(stem, ".lif")
    ensures NameWithoutExtension(stem + ".lif") == stem
  {
    var pieces := [stem, ""];
    assert JoinWith(pieces, ".lif") == stem + ".lif";
    assert pieces[1..] == [""] && [""][1..] == [];
    assert Concat(pieces) == stem + Concat([""]);
    MissingChar("", ".lif", '.');
    LifRemoved(pieces);
  }

  /** "a.vsi.lif" is shown as "a.vsi". */
  lemma LifBeforeVsiExample()
    ensures NameWithoutExtension("a.vsi.lif") == "a.vsi"
  {
    MissingChar("a.vsi", ".lif", 'f');
    LifBeforeVsi("a.vsi");
    assert "a.vsi" + ".lif" == "a.vsi.lif";
  }

  lemma NoMatchInStem(stem: string, rest: string, t: string)
    requires |t| > 0
    requires !Contains(stem + t[..|t| - 1], t)
    ensures forall i: nat :: i < |stem| ==> !MatchesAt(stem + t + rest, Literal(t), i)
  {
    forall i: nat | i < |stem| ensures !MatchesAt(stem + t + rest, Literal(t), i) {
      NoMatchInStemAt(stem, rest, t, i);
      LiteralMatches(stem + t + rest, t, i);
    }
  }

  /** No occurrence of `t` starts inside the stem: it would end before the
      last character of the one occurrence that follows. */
  lemma NoMatchInStemAt(stem: string, rest: string, t: string, i: nat)
    requires |t| > 0 && i < |stem|
    requires !Contains(stem + t[..|t| - 1], t)
    ensures !OccursAt(stem + t + rest, t, i)
  {
    var name := stem + t + rest;
    var short := stem + t[..|t| - 1];
    ShortPrefix(stem, t, rest);
    OccursInPrefix(name, short, t, i);
    assert !OccursAt(short, t, i);
  }

  lemma ShortPrefix(stem: string, t: string, rest: string)
    requires |t| > 0
    ensures |stem + t[..|t| - 1]| <= |stem + t + rest|
    ensures (stem + t + rest)[..|stem| + |t| - 1] == stem + t[..|t| - 1]
  {
    assert stem + t + rest == (stem + t[..|t| - 1]) + ([t[|t| - 1]] + rest);
  }

  /** An occurrence that ends within a prefix is an occurrence in the prefix. */
  lemma OccursInPrefix(s: string, pre: string, t: string, i: nat)
    requires |pre| <= |s| && s[..|pre|] == pre
    ensures i + |t| <= |pre| ==> (OccursAt(s, t, i) <==> OccursAt(pre, t, i))
    ensures i + |t| > |pre| ==> !OccursAt(pre, t, i)
  {
    if i + |t| <= |pre| {
      forall j | i <= j < i + |t| ensures s[j] == pre[j] {
        assert pre[j] == s[..|pre|][j];
      }
      assert s[i..i + |t|] == pre[i..i + |t|];
    }
  }

  lemma NoMatchAnywhere(s: string, t: string)
    requires !Contains(s, t)
    ensures forall i: nat :: !MatchesAt(s, Literal(t), i)
  {
    forall i: nat ensures !MatchesAt(s, Literal(t), i) {
      LiteralMatches(s, t, i);
      if i <= |s| { assert !OccursAt(s, t, i); }
    }
  }

  /** A name with an ordinary extension is shown without it. */
  lemma ExtensionStripped(base: string, ext: string)
    requires |base| > 0 && '.' !in ext
    requires !Contains(base + "." + ext, ".lif") && !Contains(base + "." + ext, ".vsi")
    ensures NameWithoutExtension(base + "." + ext) == base
  {
    var name := base + "." + ext;
    assert name[|base|] == '.';
    assert forall k :: |base| < k < |name| ==> name[k] == ext[k - |base| - 1];
    assert LastIndexOf(name, '.') == |base|;
  }

  /** A name without any dot is shown unchanged. */
  lemma NoDotUnchanged(name: string)
    requires '.' !in name
    ensures NameWithoutExtension(name) == name
  {
    forall i | 0 <= i <= |name| ensures !OccursAt(name, ".lif", i) && !OccursAt(name, ".vsi", i) {
      if i + 4 <= |name| { assert name[i..i + 4][0] == name[i]; }
    }
    LastIndexOfAbsent(name, '.');
  }

  // ---------------------------------------------------------------------------
  // getAcquisitionDate

  /** The acquisition timestamp stored in the image metadata; `clock` is the
      text LocalDateTime.toString() prints after the date. */
  datatype DateTime = DateTime(year: int, month: int, day: int, clock: string)

  /** Dates whose LocalDateTime text starts with a plain `yyyy-MM-dd`. */
  predicate ValidDate(d: DateTime) {
    0 <= d.year <= 9999 && 1 <= d.month <= 12 && 1 <= d.day <= 31
  }

  /** LocalDateTime.toString(): `yyyy-MM-dd` followed by `T` and the time. */
  function DateTimeText(d: DateTime): (t: string)
    requires ValidDate(d)
    ensures |t| > 10
  {
    FixedDigits(d.year, 4) + "-" + FixedDigits(d.month, 2) + "-" + FixedDigits(d.day, 2) + "T" + d.clock
  }

  /** Integer.parseInt of `s` with every `d` removed. */
  function ParseWithoutD(s: string): Result<int> {
    match ParseInt(Replace(s, "d", ""))
    case Some(v) => Ok(v)
    case None => Throws(NumberFormat)
  }

  /** DataManagement.getAcquisitionDate.  The name is split at `_`:
      - a LIF image with five tokens: the fifth token up to its first `.`,
        without its `d`s, parsed as an int;
      - any image with six tokens: the fifth token without its `d`s, parsed;
      - otherwise the metadata date as the int yyyymmdd, or -1 when the
        metadata holds no date.
      Neither the parse nor the `.` split is guarded, so their exceptions
      escape to the caller. */
  function AcquisitionDate(name: string, format: string, metadata: Option<DateTime>): (r: Result<int>)
    requires metadata.Some? ==> ValidDate(metadata.value)
    ensures var n := |Split(name, '_')|;
      !(format == "LIF" && n == 5) && n != 6 ==> (r == Ok(-1) <==> metadata.None?)
    ensures var n := |Split(name, '_')|;
      !(format == "LIF" && n == 5) && n != 6 && metadata.Some? ==>
        r == Ok(metadata.value.year * 10000 + metadata.value.month * 100 + metadata.value.day)
    ensures r.Ok? ==> INT_MIN <= r.value <= INT_MAX
    ensures r.Throws? ==> r.error == NumberFormat || r.error == IndexOutOfBounds
  {
    var tokens := Split(name, '_');
    if format == "LIF" && |tokens| == 5 then
      var parts := Split(tokens[4], '.');
      if |parts| == 0 then Throws(IndexOutOfBounds)
      else ParseWithoutD(parts[0])
    else if |tokens| == 6 then
      ParseWithoutD(tokens[4])
    else if metadata.None? then
      Ok(-1)
    else
      var text := DateTimeText(metadata.value);
      MetadataDateValue(metadata.value);
      match ParseInt(Replace(text[..10], "-", ""))
      case Some(v) => Ok(v)
      case None => Throws(NumberFormat)
  }

  /** The metadata fallback parses to the number yyyymmdd. */
  lemma MetadataDateValue(d: DateTime)
    requires ValidDate(d)
    ensures ParseInt(Replace(DateTimeText(d)[..10], "-", "")) == Some(d.year * 10000 + d.month * 100 + d.day)
  {
    var y, m, dd := FixedDigits(d.year, 4), FixedDigits(d.month, 2), FixedDigits(d.day, 2);
    assert DateTimeText(d)[..10] == y + "-" + m + "-" + dd;
    StripDashes(y, m, dd);
    DateDigitsValue(d);
  }

  lemma StripDashes(y: string, m: string, dd: string)
    requires AllDigits(y) && AllDigits(m) && AllDigits(dd)
    ensures Replace(y + "-" + m + "-" + dd, "-", "") == y + m + dd
  {
    var ym := y + "-" + m;
    RemoveCharIsWithout(ym + "-" + dd, '-');
    WithoutAround(ym, dd, '-');
    WithoutAround(y, m, '-');
    WithoutAbsentDigits(y);
    WithoutAbsentDigits(m);
    WithoutAbsentDigits(dd);
  }

  lemma WithoutAround(a: string, b: string, c: char)
    ensures Without(a + [c] + b, c) == Without(a, c) + Without(b, c)
  {
    var ac := a + [c];
    assert a + [c] + b == ac + b;
    WithoutConcat(ac, b, c);
    WithoutConcat(a, [c], c);
    assert [c][1..] == [];
    assert Without([c], c) == [];
    assert Without(a, c) + [] == Without(a, c);
  }

  lemma DateDigitsValue(d: DateTime)
    requires ValidDate(d)
    ensures ParseInt(FixedDigits(d.year, 4) + FixedDigits(d.month, 2) + FixedDigits(d.day, 2))
         == Some(d.year * 10000 + d.month * 100 + d.day)
  {
    var y, m, dd := FixedDigits(d.year, 4), FixedDigits(d.month, 2), FixedDigits(d.day, 2);
    var digits := y + m + dd;
    DigitsValueConcat(y, m);
    DigitsValueConcat(y + m, dd);
    assert Pow10(2) == 100;
    FixedDigitsValue(d.year, 4);
    FixedDigitsValue(d.month, 2);
    FixedDigitsValue(d.day, 2);
    assert DigitsValue(digits) == (d.year * 100 + d.month) * 100 + d.day;
    assert IsAsciiDigit(digits[0]);
  }

  lemma {:induction false} WithoutConcat(a: string, b: string, c: char)
    ensures Without(a + b, c) == Without(a, c) + Without(b, c)
    decreases |a|
  {
    if |a| == 0 {
      assert a + b == b;
    } else {
      var head := if a[0] == c then [] else [a[0]];
      assert (a + b)[0] == a[0] && (a + b)[1..] == a[1..] + b;
      assert Without(a + b, c) == head + Without(a[1..] + b, c);
      WithoutConcat(a[1..], b, c);
      assert Without(a, c) == head + Without(a[1..], c);
      assert head + (Without(a[1..], c) + Without(b, c)) == (head + Without(a[1..], c)) + Without(b, c);
    }
  }

  lemma WithoutAbsentDigits(s: string)
    requires AllDigits(s)
    ensures Without(s, '-') == s && Without(s, 'd') == s
  {
    assert forall k :: 0 <= k < |s| ==> s[k] != '-' && s[k] != 'd';
    WithoutAbsent(s, '-');
    WithoutAbsent(s, 'd');
  }

  /** `"d" + digits` parses to the digits' value once its `d` is removed. */
  lemma DatedTokenValue(n: nat)
    requires n <= INT_MAX
    ensures ParseWithoutD("d" + NatToString(n)) == Ok(n)
  {
    var t := "d" + NatToString(n);
    RemoveCharIsWithout(t, 'd');
    WithoutConcat("d", NatToString(n), 'd');
    WithoutAbsentDigits(NatToString(n));
    assert Without("d", 'd') == "";
    assert Replace(t, "d", "") == NatToString(n);
    ParseIntToString(n);
  }

  /** A well-formed six-token name carries its date in the fifth token,
      whatever the file format. */
  lemma SixTokenDate(t0: string, t1: string, t2: string, t3: string, n: nat, t5: string,
                     format: string, metadata: Option<DateTime>)
    requires forall t :: t in [t0, t1, t2, t3, t5] ==> '_' !in t
    requires t5 != "" && n <= INT_MAX
    requires metadata.Some? ==> ValidDate(metadata.value)
    ensures AcquisitionDate(Join([t0, t1, t2, t3, "d" + NatToString(n), t5], '_'), format, metadata) == Ok(n)
  {
    var pieces := [t0, t1, t2, t3, "d" + NatToString(n), t5];
    DatedNoUnderscore(n);
    assert forall k :: 0 <= k < |pieces| ==> '_' !in pieces[k] by {
      assert forall k :: 0 <= k < |pieces| && k != 4 ==> pieces[k] in [t0, t1, t2, t3, t5];
    }
    SplitJoin(pieces, '_');
    DatedTokenValue(n);
  }

  /** A well-formed LIF name has five tokens, the last one being
      `d<date>.<rest>`; the date is read up to that dot. */
  lemma LifDate(t0: string, t1: string, t2: string, t3: string, n: nat, rest: string,
                metadata: Option<DateTime>)
    requires forall t :: t in [t0, t1, t2, t3, rest] ==> '_' !in t
    requires n <= INT_MAX
    requires metadata.Some? ==> ValidDate(metadata.value)
    ensures AcquisitionDate(Join([t0, t1, t2, t3, "d" + NatToString(n) + "." + rest], '_'), "LIF", metadata) == Ok(n)
  {
    var dated := "d" + NatToString(n);
    var last := dated + "." + rest;
    LifTokens(t0, t1, t2, t3, n, rest);
    LifLastToken(n, rest);
    DatedTokenValue(n);
  }

  /** The five tokens of a well-formed LIF name. */
  lemma LifTokens(t0: string, t1: string, t2: string, t3: string, n: nat, rest: string)
    requires forall t :: t in [t0, t1, t2, t3, rest] ==> '_' !in t
    ensures var last := "d" + NatToString(n) + "." + rest;
      Split(Join([t0, t1, t2, t3, last], '_'), '_') == [t0, t1, t2, t3, last]
  {
    var dated := "d" + NatToString(n);
    var last := dated + "." + rest;
    var pieces := [t0, t1, t2, t3, last];
    DatedNoUnderscore(n);
    assert '_' !in last by {
      assert forall k :: 0 <= k < |last| ==> last[k] == (if k < |dated| then dated[k] else if k == |dated| then '.' else rest[k - |dated| - 1]);
    }
    assert forall k :: 0 <= k < |pieces| ==> '_' !in pieces[k] by {
      assert forall k :: 0 <= k < 4 ==> pieces[k] in [t0, t1, t2, t3, rest];
    }
    assert last != "";
    SplitJoin(pieces, '_');
  }

  /** The last token of a LIF name, split at `.`, starts with the dated part. */
  lemma LifLastToken(n: nat, rest: string)
    ensures var dated := "d" + NatToString(n);
      |Split(dated + "." + rest, '.')| > 0 && Split(dated + "." + rest, '.')[0] == dated
  {
    DatedNoDot(n);
    FirstPieceBeforeSeparator("d" + NatToString(n), rest, '.');
  }

  lemma DatedNoUnderscore(n: nat)
    ensures '_' !in "d" + NatToString(n)
  {
    var t := "d" + NatToString(n);
    assert forall k :: 1 <= k < |t| ==> IsAsciiDigit(t[k]) by {
      assert forall k :: 1 <= k < |t| ==> t[k] == NatToString(n)[k - 1];
    }
  }

  lemma DatedNoDot(n: nat)
    ensures '.' !in "d" + NatToString(n)
  {
    var t := "d" + NatToString(n);
    assert forall k :: 1 <= k < |t| ==> IsAsciiDigit(t[k]) by {
      assert forall k :: 1 <= k < |t| ==> t[k] == NatToString(n)[k - 1];
    }
  }

  /** A six-token name whose fifth token holds no digit makes the parse throw;
      getAcquisitionDate does not catch it. */
  lemma SixTokenWithoutDigits(t0: string, t1: string, t2: string, t3: string, t4: string, t5: string,
                              format: string, metadata: Option<DateTime>)
    requires forall t :: t in [t0, t1, t2, t3, t4, t5] ==> '_' !in t
    requires t5 != ""
    requires forall k :: 0 <= k < |t4| ==> !IsAsciiDigit(t4[k])
    requires metadata.Some? ==> ValidDate(metadata.value)
    ensures AcquisitionDate(Join([t0, t1, t2, t3, t4, t5], '_'), format, metadata) == Throws(NumberFormat)
  {
    var pieces := [t0, t1, t2, t3, t4, t5];
    assert forall k :: 0 <= k < |pieces| ==> '_' !in pieces[k] by {
      assert forall k :: 0 <= k < |pieces| ==> pieces[k] in [t0, t1, t2, t3, t4, t5];
    }
    SplitJoin(pieces, '_');
    RemoveCharIsWithout(t4, 'd');
    WithoutKeepsNoDigit(t4, 'd');
  }

  lemma {:induction false} WithoutKeepsNoDigit(s: string, c: char)
    requires forall k :: 0 <= k < |s| ==> !IsAsciiDigit(s[k])
    ensures forall k :: 0 <= k < |Without(s, c)| ==> !IsAsciiDigit(Without(s, c)[k])
    decreases |s|
  {
    if |s| > 0 { WithoutKeepsNoDigit(s[1..], c); }
  }
}
