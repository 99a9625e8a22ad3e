/** The slice of java.lang the bookkeeping code relies on: String.contains,
    lastIndexOf, replace / replaceAll, split, compareTo, Integer.parseInt,
    decimal rendering of ints and truncating int division.  A Java string is
    modelled as a `string`, one `char` per Java char.  A Dafny `char` is a
    Unicode scalar value and a Java char a UTF-16 code unit, so the two agree
    on text without supplementary characters (code points above U+FFFF),
    which is the text this model covers. */
module JavaLang {
  import opened Results

  // ---------------------------------------------------------------------------
  // Searching

  /** `p` occurs in `s` at index `i`. */
  predicate OccursAt(s: string, p: string, i: int) {
    0 <= i && i + |p| <= |s| && s[i..i + |p|] == p
  }

  /** String.contains: some occurrence of `p` in `s`. */
  predicate Contains(s: string, p: string) {
    exists i | 0 <= i <= |s| :: OccursAt(s, p, i)
  }

  /** Index of the first occurrence of `p` at or after `from`, by a left-to-right scan. */
  function IndexOfFrom(s: string, p: string, from: nat): (r: int)
    ensures r == -1 || (from <= r && OccursAt(s, p, r))
    ensures r == -1 ==> forall i: nat :: from <= i ==> !OccursAt(s, p, i)
    ensures r != -1 ==> forall i: nat :: from <= i < r ==> !OccursAt(s, p, i)
    decreases |s| - from
  {
    if from + |p| > |s| then -1
    else if s[from..from + |p|] == p then from
    else IndexOfFrom(s, p, from + 1)
  }

  lemma ContainsSelf(s: string)
    ensures Contains(s, s)
  {
    assert OccursAt(s, s, 0);
  }

  lemma PrefixContained(s: string, p: string)
    requires |p| <= |s| && s[..|p|] == p
    ensures Contains(s, p)
  {
    assert OccursAt(s, p, 0);
  }

  /** A single character as a one-character string. */
  function Str(c: char): string { [c] }

  /** String.lastIndexOf(char): the last index holding `c`, or -1. */
  function LastIndexOf(s: string, c: char): (r: int)
    ensures -1 <= r < |s|
    ensures r >= 0 ==> s[r] == c
    ensures forall k :: r < k < |s| ==> s[k] != c
  {
    if |s| == 0 then -1
    else if s[|s| - 1] == c then |s| - 1
    else LastIndexOf(s[..|s| - 1], c)
  }

  lemma LastIndexOfAbsent(s: string, c: char)
    ensures LastIndexOf(s, c) == -1 <==> c !in s
  {
    if c in s {
      var k :| 0 <= k < |s| && s[k] == c;
      assert LastIndexOf(s, c) >= k;
    }
  }

  // ---------------------------------------------------------------------------
  // Replacement

  /** One position of a search pattern: a literal character, or the regex `.`
      (any character except a line terminator). */
  datatype PatChar = Lit(c: char) | AnyChar

  /** The characters that `.` does not match in a java.util.regex pattern
      compiled without DOTALL. */
  predicate IsLineTerminator(c: char) {
    c == '\n' || c == '\r' || c == '\U{85}' || c == '\U{2028}' || c == '\U{2029}'
  }

  predicate PatCharMatches(pc: PatChar, c: char) {
    match pc
    case Lit(x) => c == x
    case AnyChar => !IsLineTerminator(c)
  }

  /** The literal pattern for a plain search string, as String.replace uses it. */
  function Literal(p: string): (pat: seq<PatChar>)
    ensures |pat| == |p|
    ensures forall k :: 0 <= k < |p| ==> pat[k] == Lit(p[k])
  {
    if |p| == 0 then [] else [Lit(p[0])] + Literal(p[1..])
  }

  /** `pat` matches `s` at index `i`. */
  predicate MatchesAt(s: string, pat: seq<PatChar>, i: nat) {
    i + |pat| <= |s| && forall k :: 0 <= k < |pat| ==> PatCharMatches(pat[k], s[i + k])
  }

  lemma LiteralMatches(s: string, p: string, i: nat)
    ensures MatchesAt(s, Literal(p), i) <==> OccursAt(s, p, i)
  {
    if i + |p| <= |s| {
      if MatchesAt(s, Literal(p), i) {
        assert forall k :: 0 <= k < |p| ==> s[i..i + |p|][k] == p[k] by {
          forall k | 0 <= k < |p| ensures s[i..i + |p|][k] == p[k] {
            assert PatCharMatches(Literal(p)[k], s[i + k]);
          }
        }
      }
      if OccursAt(s, p, i) {
        forall k | 0 <= k < |p| ensures PatCharMatches(Literal(p)[k], s[i + k]) {
          assert s[i..i + |p|][k] == s[i + k];
        }
      }
    }
  }

  /** Replaces every occurrence of `pat`, scanning left to right and never
      reusing a matched character: String.replace for a literal pattern and
      String.replaceAll for a pattern made of literals and `.`. */
  function ReplaceAll(s: string, pat: seq<PatChar>, repl: string): string
    requires |pat| > 0
    decreases |s|
  {
    if |s| < |pat| then s
    else if MatchesAt(s, pat, 0) then repl + ReplaceAll(s[|pat|..], pat, repl)
    else [s[0]] + ReplaceAll(s[1..], pat, repl)
  }

  /** String.replace(target, replacement) with a non-empty target. */
  function Replace(s: string, target: string, repl: string): string
    requires |target| > 0
  {
    ReplaceAll(s, Literal(target), repl)
  }

  lemma MatchesAtShift(s: string, pat: seq<PatChar>, d: nat, i: nat)
    requires d <= |s|
    ensures MatchesAt(s[d..], pat, i) <==> MatchesAt(s, pat, d + i)
  {
    if i + |pat| <= |s| - d {
      forall k | 0 <= k < |pat|
        ensures PatCharMatches(pat[k], s[d..][i + k]) == PatCharMatches(pat[k], s[d + i + k])
      {
      }
    }
  }

  /** Removing a pattern never lengthens the string; it leaves the string
      unchanged when the pattern occurs nowhere, and otherwise shortens it by
      at least one pattern length. */
  lemma RemoveAllShrinks(s: string, pat: seq<PatChar>)
    requires |pat| > 0
    ensures |ReplaceAll(s, pat, "")| <= |s|
    ensures (forall i: nat :: !MatchesAt(s, pat, i)) ==> ReplaceAll(s, pat, "") == s
    ensures (exists i: nat :: MatchesAt(s, pat, i)) ==> |ReplaceAll(s, pat, "")| <= |s| - |pat|
  {
    RemoveAllLength(s, pat);
    if forall i: nat :: !MatchesAt(s, pat, i) {
      RemoveAllUnchanged(s, pat);
    } else {
      var i: nat :| MatchesAt(s, pat, i);
      RemoveAllShortens(s, pat, i);
    }
  }

  lemma {:induction false} RemoveAllLength(s: string, pat: seq<PatChar>)
    requires |pat| > 0
    ensures |ReplaceAll(s, pat, "")| <= |s|
    decreases |s|
  {
    if |s| < |pat| {
    } else if MatchesAt(s, pat, 0) {
      RemoveAllLength(s[|pat|..], pat);
    } else {
      RemoveAllLength(s[1..], pat);
    }
  }

  lemma {:induction false} RemoveAllUnchanged(s: string, pat: seq<PatChar>)
    requires |pat| > 0
    requires forall i: nat :: !MatchesAt(s, pat, i)
    ensures ReplaceAll(s, pat, "") == s
    decreases |s|
  {
    if |s| >= |pat| {
      assert !MatchesAt(s, pat, 0);
      forall i: nat ensures !MatchesAt(s[1..], pat, i) {
        MatchesAtShift(s, pat, 1, i);
      }
      RemoveAllUnchanged(s[1..], pat);
      assert [s[0]] + s[1..] == s;
    }
  }

  lemma {:induction false} RemoveAllShortens(s: string, pat: seq<PatChar>, i: nat)
    requires |pat| > 0 && MatchesAt(s, pat, i)
    ensures |ReplaceAll(s, pat, "")| <= |s| - |pat|
    decreases |s|
  {
    assert |s| >= |pat|;
    if MatchesAt(s, pat, 0) {
      RemoveAllLength(s[|pat|..], pat);
    } else {
      assert i > 0;
      MatchesAtShift(s, pat, 1, i - 1);
      RemoveAllShortens(s[1..], pat, i - 1);
    }
  }

  /** Removal passes through a prefix at which no occurrence starts. */
  lemma {:induction false} RemoveAllPrefix(a: string, b: string, pat: seq<PatChar>, repl: string)
    requires |pat| > 0
    requires forall i: nat :: i < |a| ==> !MatchesAt(a + b, pat, i)
    ensures ReplaceAll(a + b, pat, repl) == a + ReplaceAll(b, pat, repl)
    decreases |a|
  {
    if |a| > 0 {
      var s := a + b;
      assert !MatchesAt(s, pat, 0);
      assert s[1..] == a[1..] + b;
      forall i: nat | i < |a| - 1 ensures !MatchesAt(a[1..] + b, pat, i) {
        MatchesAtShift(s, pat, 1, i);
      }
      RemoveAllPrefix(a[1..], b, pat, repl);
      if |s| >= |pat| {
        assert ReplaceAll(s, pat, repl) == [s[0]] + ReplaceAll(s[1..], pat, repl);
      } else {
        assert ReplaceAll(s[1..], pat, repl) == s[1..];
      }
      assert [a[0]] + a[1..] == a;
    } else {
      assert a + b == b;
    }
  }

  /** Removing a one-character literal keeps exactly the other characters. */
  function Without(s: string, c: char): (r: string)
    ensures c !in r
    ensures |r| <= |s|
  {
    if |s| == 0 then [] else (if s[0] == c then [] else [s[0]]) + Without(s[1..], c)
  }

  lemma {:induction false} RemoveCharIsWithout(s: string, c: char)
    ensures Replace(s, Str(c), "") == Without(s, c)
    decreases |s|
  {
    var pat := Literal(Str(c));
    assert pat == [Lit(c)];
    if |s| == 0 {
    } else {
      RemoveCharIsWithout(s[1..], c);
      if s[0] == c {
        assert MatchesAt(s, pat, 0);
      } else {
        assert !PatCharMatches(pat[0], s[0]);
        assert !MatchesAt(s, pat, 0);
      }
    }
  }

  lemma {:induction false} WithoutAbsent(s: string, c: char)
    requires c !in s
    ensures Without(s, c) == s
    decreases |s|
  {
    if |s| > 0 {
      WithoutAbsent(s[1..], c);
      assert [s[0]] + s[1..] == s;
    }
  }

  // ---------------------------------------------------------------------------
  // Splitting

  /** All the pieces between occurrences of `c` (one more than the number of
      occurrences), before Java drops the trailing empty ones. */
  function SplitAll(s: string, c: char): (pieces: seq<string>)
    ensures |pieces| >= 1
    ensures forall k :: 0 <= k < |pieces| ==> c !in pieces[k]
    decreases |s|
  {
    if |s| == 0 then [""]
    else
      var rest := SplitAll(s[1..], c);
      if s[0] == c then [""] + rest
      else [[s[0]] + rest[0]] + rest[1..]
  }

  /** The pieces joined back with the separator. */
  function Join(pieces: seq<string>, c: char): string
    requires |pieces| >= 1
  {
    if |pieces| == 1 then pieces[0] else pieces[0] + [c] + Join(pieces[1..], c)
  }

  lemma {:induction false} JoinSplitAll(s: string, c: char)
    ensures Join(SplitAll(s, c), c) == s
    decreases |s|
  {
    if |s| > 0 {
      var rest := SplitAll(s[1..], c);
      JoinSplitAll(s[1..], c);
      if s[0] == c {
        assert SplitAll(s, c)[1..] == rest;
      } else {
        var pieces := SplitAll(s, c);
        assert pieces[1..] == rest[1..];
        if |rest| == 1 {
        } else {
          assert rest == [rest[0]] + rest[1..];
        }
      }
    }
  }

  lemma {:induction false} SplitAllJoin(pieces: seq<string>, c: char)
    requires |pieces| >= 1
    requires forall k :: 0 <= k < |pieces| ==> c !in pieces[k]
    ensures SplitAll(Join(pieces, c), c) == pieces
    decreases |pieces|, |pieces[0]|
  {
    var s := Join(pieces, c);
    if |pieces[0]| == 0 {
      if |pieces| > 1 {
        SplitAllJoin(pieces[1..], c);
        assert s == [c] + Join(pieces[1..], c);
        assert s[1..] == Join(pieces[1..], c);
        assert pieces == [""] + pieces[1..];
      }
    } else {
      var tail := [pieces[0][1..]] + pieces[1..];
      assert forall k :: 0 <= k < |tail| ==> c !in tail[k] by {
        assert forall x :: x in pieces[0][1..] ==> x in pieces[0];
      }
      SplitAllJoin(tail, c);
      if |pieces| == 1 {
        assert s[1..] == Join(tail, c);
      } else {
        assert s[1..] == Join(tail, c) by {
          assert s == pieces[0] + [c] + Join(pieces[1..], c);
          assert Join(tail, c) == pieces[0][1..] + [c] + Join(pieces[1..], c);
        }
      }
      assert s[0] == pieces[0][0] && s[0] != c;
      assert [s[0]] + pieces[0][1..] == pieces[0];
      assert pieces == [pieces[0]] + tail[1..];
    }
  }

  /** Removes the empty strings at the end of a list. */
  function DropTrailingEmpty(xs: seq<string>): (r: seq<string>)
    ensures |r| <= |xs| && r == xs[..|r|]
    ensures |r| > 0 ==> r[|r| - 1] != ""
    ensures forall k :: |r| <= k < |xs| ==> xs[k] == ""
  {
    if |xs| == 0 then []
    else if xs[|xs| - 1] == "" then DropTrailingEmpty(xs[..|xs| - 1])
    else xs
  }

  /** String.split with a one-character separator and limit 0: the whole
      string when the separator is absent, otherwise every piece except the
      empty ones at the end. */
  function Split(s: string, c: char): (r: seq<string>)
    ensures forall k :: 0 <= k < |r| ==> c !in r[k]
  {
    if c !in s then [s] else DropTrailingEmpty(SplitAll(s, c))
  }

  /** Splitting a join gives back the pieces, provided none holds the
      separator and the last one is not an empty piece that Java would drop. */
  lemma SplitJoin(pieces: seq<string>, c: char)
    requires |pieces| >= 1
    requires forall k :: 0 <= k < |pieces| ==> c !in pieces[k]
    requires |pieces| == 1 || pieces[|pieces| - 1] != ""
    ensures Split(Join(pieces, c), c) == pieces
  {
    SplitAllJoin(pieces, c);
    var s := Join(pieces, c);
    if |pieces| >= 2 {
      JoinHasSeparator(pieces, c);
    }
  }

  lemma {:induction false} JoinHasSeparator(pieces: seq<string>, c: char)
    requires |pieces| >= 2
    ensures c in Join(pieces, c)
  {
    var s := Join(pieces, c);
    assert s == pieces[0] + [c] + Join(pieces[1..], c);
    assert s[|pieces[0]|] == c;
  }

  /** Splitting `a c b` at `c` starts with `a` when `a` is a non-empty piece. */
  lemma FirstPieceBeforeSeparator(a: string, b: string, c: char)
    requires a != "" && c !in a
    ensures |Split(a + [c] + b, c)| > 0 && Split(a + [c] + b, c)[0] == a
  {
    var s := a + [c] + b;
    assert s[|a|] == c;
    SplitAllAfterPiece(a, b, c);
    var all := SplitAll(s, c);
    assert all[0] == a;
  }

  lemma {:induction false} SplitAllAfterPiece(a: string, b: string, c: char)
    requires c !in a
    ensures SplitAll(a + [c] + b, c) == [a] + SplitAll(b, c)
    decreases |a|
  {
    var s := a + [c] + b;
    if |a| == 0 {
      assert s == [c] + b;
      assert s[1..] == b;
    } else {
      assert s[1..] == a[1..] + [c] + b;
      SplitAllAfterPiece(a[1..], b, c);
      assert [a[0]] + a[1..] == a;
    }
  }

  /** The first piece of a split is a prefix of the string. */
  lemma {:induction false} SplitFirstIsPrefix(s: string, c: char)
    requires |Split(s, c)| > 0
    ensures |Split(s, c)[0]| <= |s| && s[..|Split(s, c)[0]|] == Split(s, c)[0]
  {
    if c in s {
      SplitAllFirstIsPrefix(s, c);
    }
  }

  lemma {:induction false} SplitAllFirstIsPrefix(s: string, c: char)
    ensures |SplitAll(s, c)[0]| <= |s| && s[..|SplitAll(s, c)[0]|] == SplitAll(s, c)[0]
    decreases |s|
  {
    if |s| > 0 && s[0] != c {
      SplitAllFirstIsPrefix(s[1..], c);
    }
  }

  // ---------------------------------------------------------------------------
  // Comparison

  /** String.compareTo(a, b) < 0: the first differing code unit decides, and a
      proper prefix comes first. */
  predicate LexLess(a: string, b: string) {
    if |a| == 0 then |b| > 0
    else if |b| == 0 then false
    else if a[0] != b[0] then a[0] < b[0]
    else LexLess(a[1..], b[1..])
  }

  predicate LexLessEq(a: string, b: string) {
    a == b || LexLess(a, b)
  }

  lemma {:induction false} LexLessIrreflexive(a: string)
    ensures !LexLess(a, a)
  {
    if |a| > 0 { LexLessIrreflexive(a[1..]); }
  }

  lemma {:induction false} LexLessTransitive(a: string, b: string, c: string)
    requires LexLess(a, b) && LexLess(b, c)
    ensures LexLess(a, c)
  {
    if |a| > 0 && |c| > 0 && a[0] == b[0] && b[0] == c[0] {
      LexLessTransitive(a[1..], b[1..], c[1..]);
    }
  }

  lemma {:induction false} LexLessTotal(a: string, b: string)
    ensures a == b || LexLess(a, b) || LexLess(b, a)
  {
    if |a| > 0 && |b| > 0 && a[0] == b[0] {
      LexLessTotal(a[1..], b[1..]);
      if a[1..] == b[1..] {
        assert a == [a[0]] + a[1..] && b == [b[0]] + b[1..];
      }
    }
  }

  lemma {:induction false} LexLessAsymmetric(a: string, b: string)
    requires LexLess(a, b)
    ensures !LexLess(b, a)
  {
    if |a| > 0 && |b| > 0 && a[0] == b[0] { LexLessAsymmetric(a[1..], b[1..]); }
  }

  /** Comparing two strings that start with equally long heads: the heads
      decide unless they are equal. */
  lemma {:induction false} LexLessConcat(a1: string, a2: string, b1: string, b2: string)
    requires |a1| == |b1|
    ensures LexLess(a1 + a2, b1 + b2) <==> LexLess(a1, b1) || (a1 == b1 && LexLess(a2, b2))
    decreases |a1|
  {
    if |a1| > 0 {
      assert (a1 + a2)[0] == a1[0] && (b1 + b2)[0] == b1[0];
      assert (a1 + a2)[1..] == a1[1..] + a2 && (b1 + b2)[1..] == b1[1..] + b2;
      LexLessConcat(a1[1..], a2, b1[1..], b2);
      if a1[0] == b1[0] && a1[1..] == b1[1..] {
        assert a1 == [a1[0]] + a1[1..] && b1 == [b1[0]] + b1[1..];
      }
    } else {
      assert a1 + a2 == a2 && b1 + b2 == b2;
      assert !LexLess(a1, b1);
    }
  }

  /** The greatest string of a non-empty list under compareTo: what
      `sort(Comparator.reverseOrder())` puts at index 0. */
  function MaxString(xs: seq<string>): (m: string)
    requires |xs| > 0
    ensures m in xs
    ensures forall k :: 0 <= k < |xs| ==> LexLessEq(xs[k], m)
  {
    if |xs| == 1 then xs[0]
    else
      var rest := MaxString(xs[1..]);
      LexLessTotal(xs[0], rest);
      if LexLess(rest, xs[0]) then
        assert forall k :: 1 <= k < |xs| ==> LexLessEq(xs[k], xs[0]) by {
          forall k | 1 <= k < |xs| ensures LexLessEq(xs[k], xs[0]) {
            assert xs[k] == xs[1..][k - 1];
            if xs[k] != rest { LexLessTransitive(xs[k], rest, xs[0]); }
          }
        }
        xs[0]
      else
        assert forall k :: 1 <= k < |xs| ==> LexLessEq(xs[k], rest) by {
          forall k | 1 <= k < |xs| ensures LexLessEq(xs[k], rest) {
            assert xs[k] == xs[1..][k - 1];
          }
        }
        rest
  }

  /** The maximum is unique: any element bounding all others equals it. */
  lemma MaxStringUnique(xs: seq<string>, m: string)
    requires |xs| > 0 && m in xs
    requires forall k :: 0 <= k < |xs| ==> LexLessEq(xs[k], m)
    ensures MaxString(xs) == m
  {
    var mx := MaxString(xs);
    if mx != m {
      assert LexLess(m, mx);
      var k :| 0 <= k < |xs| && xs[k] == mx;
      assert LexLessEq(mx, m);
      LexLessAsymmetric(m, mx);
    }
  }

  // ---------------------------------------------------------------------------
  // Integers

  const INT_MIN: int := -0x8000_0000
  const INT_MAX: int := 0x7fff_ffff

  predicate IsAsciiDigit(c: char) { '0' <= c <= '9' }

  predicate AllDigits(s: string) {
    forall k :: 0 <= k < |s| ==> IsAsciiDigit(s[k])
  }

  /** The value of a string of decimal digits, most significant first. */
  function DigitsValue(s: string): (v: nat)
    requires AllDigits(s)
  {
    if |s| == 0 then 0
    else DigitsValue(s[..|s| - 1]) * 10 + (s[|s| - 1] as int - '0' as int)
  }

  /** The text after an optional leading sign. */
  function Unsigned(s: string): string {
    if |s| > 0 && (s[0] == '-' || s[0] == '+') then s[1..] else s
  }

  /** Integer.parseInt(s) in radix 10: an optional sign, at least one digit,
      and a value that fits in a 32-bit int; None where Java throws
      NumberFormatException.  Digits are the ASCII digits. */
  function ParseInt(s: string): (r: Option<int>)
    ensures r.Some? ==> INT_MIN <= r.value <= INT_MAX
    ensures r.Some? <==>
      |Unsigned(s)| > 0 && AllDigits(Unsigned(s)) &&
      DigitsValue(Unsigned(s)) <= (if s[0] == '-' then -INT_MIN else INT_MAX)
    ensures r.Some? ==> var d: int := DigitsValue(Unsigned(s)); r.value == if s[0] == '-' then -d else d
  {
    if |s| == 0 then None
    else
      var neg := s[0] == '-';
      var body := if s[0] == '-' || s[0] == '+' then s[1..] else s;
      if |body| == 0 || !AllDigits(body) then None
      else
        var d: int := DigitsValue(body);
        var v := if neg then -d else d;
        if INT_MIN <= v <= INT_MAX then Some(v) else None
  }

  function DigitChar(d: nat): (c: char)
    requires d < 10
    ensures IsAsciiDigit(c)
  {
    ('0' as int + d) as char
  }

  /** Decimal rendering of a natural number, without leading zeros. */
  function NatToString(n: nat): (s: string)
    ensures |s| > 0 && AllDigits(s)
    ensures DigitsValue(s) == n
    ensures n < 10 ==> |s| == 1
    ensures n >= 10 ==> s[0] != '0'
  {
    if n < 10 then [DigitChar(n)]
    else
      var h := NatToString(n / 10);
      var s := h + [DigitChar(n % 10)];
      assert s[..|s| - 1] == h;
      s
  }

  /** Decimal rendering of an int, as `"" + n` produces it. */
  function IntToString(n: int): string {
    if n < 0 then "-" + NatToString(-n) else NatToString(n)
  }

  /** Parsing a rendered int gives it back. */
  lemma ParseIntToString(n: int)
    requires INT_MIN <= n <= INT_MAX
    ensures ParseInt(IntToString(n)) == Some(n)
  {
    if n < 0 {
      var s := IntToString(n);
      assert s[1..] == NatToString(-n);
    }
  }

  function Pow10(n: nat): (p: nat)
    ensures p >= 1
  {
    if n == 0 then 1 else 10 * Pow10(n - 1)
  }

  /** The `w`-digit zero-padded rendering of `v` (its last `w` digits). */
  function FixedDigits(v: nat, w: nat): (s: string)
    ensures |s| == w && AllDigits(s)
  {
    if w == 0 then "" else FixedDigits(v / 10, w - 1) + [DigitChar(v % 10)]
  }

  lemma {:induction false} DigitsValueConcat(a: string, b: string)
    requires AllDigits(a) && AllDigits(b)
    ensures AllDigits(a + b)
    ensures DigitsValue(a + b) == DigitsValue(a) * Pow10(|b|) + DigitsValue(b)
    decreases |b|
  {
    if |b| == 0 {
      assert a + b == a;
    } else {
      var front := b[..|b| - 1];
      DigitsValueConcat(a, front);
      var d := b[|b| - 1] as int - '0' as int;
      DigitsLast(a + b, a + front);
      DigitsLast(b, front);
      ConcatStep(DigitsValue(a), DigitsValue(front), d, Pow10(|front|));
    }
  }

  /** Peeling off the last digit. */
  lemma DigitsLast(s: string, front: string)
    requires AllDigits(s) && |s| > 0 && front == s[..|s| - 1]
    ensures AllDigits(front)
    ensures DigitsValue(s) == DigitsValue(front) * 10 + (s[|s| - 1] as int - '0' as int)
  {
  }

  lemma ConcatStep(x: int, y: int, d: int, p: int)
    ensures (x * p + y) * 10 + d == x * (10 * p) + (y * 10 + d)
  {
    assert (x * p) * 10 == x * (10 * p);
  }

  lemma {:induction false} FixedDigitsValue(v: nat, w: nat)
    requires v < Pow10(w)
    ensures DigitsValue(FixedDigits(v, w)) == v
  {
    if w > 0 {
      FixedDigitsValue(v / 10, w - 1);
      var s := FixedDigits(v, w);
      assert s[..|s| - 1] == FixedDigits(v / 10, w - 1);
    }
  }

  /** Java's int division truncates toward zero, unlike Dafny's Euclidean `/`. */
  function JavaDiv(a: int, b: int): (q: int)
    requires b != 0
    ensures a >= 0 && b > 0 ==> q == a / b
    ensures q * b == a - JavaRem(a, b)
  {
    if (a >= 0) == (b > 0) then
      (if a >= 0 then a / b else (-a) / (-b))
    else -((if a >= 0 then a else -a) / (if b > 0 then b else -b))
  }

  /** The remainder matching JavaDiv: it takes the sign of the dividend. */
  function JavaRem(a: int, b: int): int
    requires b != 0
  {
    var aa := if a >= 0 then a else -a;
    var bb := if b > 0 then b else -b;
    if a >= 0 then aa % bb else -(aa % bb)
  }
}
