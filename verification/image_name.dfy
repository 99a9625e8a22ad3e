/** The file-name grammar of ImageFile:

      (?<microscope>.*)_o(?<objective>.*)_z(?<zoom>.*)_(?<immersion>.*)_
      (?<argoslide>.*)_(?<pattern>.*)_d(?<date>[\d]*)_?(?<series>.*)?\.(?<extension>.*)

    searched with Matcher.find().  The pattern is modelled as a list of
    elements run by a backtracking matcher with java.util.regex's greedy
    order: a starred class first takes as many characters as it can and gives
    them back one at a time; `_?` first tries to take its underscore.  The
    optional group `(.*)?` is modelled as a plain `.*`: the engine tries the
    group first, and since `.*` may match the empty string, skipping the group
    can only succeed where taking it empty already did. */
module ImageName {
  import opened Results
  import opened JavaLang

  /** `.` (anything but a line terminator) and `[\d]` (an ASCII digit). */
  datatype CharClass = Dot | Digit

  predicate InClass(cls: CharClass, c: char) {
    match cls
    case Dot => !IsLineTerminator(c)
    case Digit => IsAsciiDigit(c)
  }

  predicate AllInClass(cls: CharClass, s: string) {
    forall k :: 0 <= k < |s| ==> InClass(cls, s[k])
  }

  /** One element of the pattern: literal text, optional literal text, or a
      greedy starred class captured as a group. */
  datatype Elem = Text(t: string) | OptText(t: string) | Star(cls: CharClass)

  /** The ImageFile pattern; its nine stars capture, in order, microscope,
      objective, zoom, immersion, argoslide, pattern, date, series and
      extension. */
  const ImagePattern: seq<Elem> :=
    [Star(Dot), Text("_o"), Star(Dot), Text("_z")] + [Star(Dot), Text("_"), Star(Dot), Text("_")]
    + [Star(Dot), Text("_"), Star(Dot), Text("_d")] + [Star(Digit), OptText("_"), Star(Dot)]
    + [Text("."), Star(Dot)]

  /** The longest run of `cls` characters starting at `pos`. */
  function Run(cls: CharClass, s: string, pos: nat): (n: nat)
    requires pos <= |s|
    ensures pos + n <= |s|
    ensures AllInClass(cls, s[pos..pos + n])
    ensures pos + n == |s| || !InClass(cls, s[pos + n])
    decreases |s| - pos
  {
    if pos < |s| && InClass(cls, s[pos]) then
      var n := 1 + Run(cls, s, pos + 1);
      assert s[pos..pos + n] == [s[pos]] + s[pos + 1..pos + n];
      n
    else 0
  }

  /** Backtracking match of `elems` against `s` from `pos`, returning the
      captures of the stars on success.  The match is not anchored at the
      end, as with find(). */
  function Match(elems: seq<Elem>, s: string, pos: nat): Option<seq<string>>
    requires pos <= |s|
    decreases |elems|, |s| - pos + 1
  {
    if |elems| == 0 then Some([])
    else
      match elems[0]
      case Text(t) =>
        if pos + |t| <= |s| && s[pos..pos + |t|] == t then Match(elems[1..], s, pos + |t|) else None
      case OptText(t) =>
        if pos + |t| <= |s| && s[pos..pos + |t|] == t && Match(elems[1..], s, pos + |t|).Some? then
          Match(elems[1..], s, pos + |t|)
        else Match(elems[1..], s, pos)
      case Star(cls) =>
        TryStar(elems[1..], s, pos, Run(cls, s, pos))
  }

  /** A star that took `k` characters: go on with the rest, and on failure
      give back one character. */
  function TryStar(rest: seq<Elem>, s: string, pos: nat, k: nat): Option<seq<string>>
    requires pos + k <= |s|
    decreases |rest| + 1, k
  {
    match Match(rest, s, pos + k)
    case Some(caps) => Some([s[pos..pos + k]] + caps)
    case None => if k == 0 then None else TryStar(rest, s, pos, k - 1)
  }

  /** Matcher.find(): the first start position at which the pattern matches. */
  function FindFrom(elems: seq<Elem>, s: string, p: nat): Option<seq<string>>
    requires p <= |s|
    decreases |s| - p
  {
    match Match(elems, s, p)
    case Some(caps) => Some(caps)
    case None => if p == |s| then None else FindFrom(elems, s, p + 1)
  }

  // ---------------------------------------------------------------------------
  // The relational reading of a pattern

  function StarCount(elems: seq<Elem>): nat {
    if |elems| == 0 then 0 else (if elems[0].Star? then 1 else 0) + StarCount(elems[1..])
  }

  /** `caps` are the star captures of one way for `elems` to match `s` from
      `pos`: every literal is present, every capture is a run of its class,
      and the pieces follow each other. */
  predicate Spans(elems: seq<Elem>, s: string, pos: nat, caps: seq<string>)
    requires pos <= |s|
    decreases |elems|
  {
    if |elems| == 0 then caps == []
    else
      match elems[0]
      case Text(t) =>
        pos + |t| <= |s| && s[pos..pos + |t|] == t && Spans(elems[1..], s, pos + |t|, caps)
      case OptText(t) =>
        (pos + |t| <= |s| && s[pos..pos + |t|] == t && Spans(elems[1..], s, pos + |t|, caps))
        || Spans(elems[1..], s, pos, caps)
      case Star(cls) =>
        |caps| > 0 && pos + |caps[0]| <= |s| && s[pos..pos + |caps[0]|] == caps[0]
        && AllInClass(cls, caps[0]) && Spans(elems[1..], s, pos + |caps[0]|, caps[1..])
  }

  /** What the matcher returns is a way to match. */
  lemma {:induction false} MatchSound(elems: seq<Elem>, s: string, pos: nat)
    requires pos <= |s|
    ensures Match(elems, s, pos).Some? ==> Spans(elems, s, pos, Match(elems, s, pos).value)
    decreases |elems|, |s| - pos + 1
  {
    if |elems| > 0 {
      match elems[0]
      case Text(t) =>
        if pos + |t| <= |s| && s[pos..pos + |t|] == t { MatchSound(elems[1..], s, pos + |t|); }
      case OptText(t) =>
        if pos + |t| <= |s| && s[pos..pos + |t|] == t { MatchSound(elems[1..], s, pos + |t|); }
        MatchSound(elems[1..], s, pos);
      case Star(cls) =>
        TryStarSound(cls, elems[1..], s, pos, Run(cls, s, pos));
    }
  }

  lemma {:induction false} TryStarSound(cls: CharClass, rest: seq<Elem>, s: string, pos: nat, k: nat)
    requires pos + k <= |s| && k <= Run(cls, s, pos)
    ensures TryStar(rest, s, pos, k).Some? ==>
      Spans([Star(cls)] + rest, s, pos, TryStar(rest, s, pos, k).value)
    decreases |rest| + 1, k
  {
    MatchSound(rest, s, pos + k);
    match Match(rest, s, pos + k)
    case Some(caps) =>
      RunPrefix(cls, s, pos, k);
      StarSpans(cls, rest, s, pos, k, caps);
    case None =>
      if k > 0 { TryStarSound(cls, rest, s, pos, k - 1); }
  }

  /** Any prefix of the longest run is a run. */
  lemma RunPrefix(cls: CharClass, s: string, pos: nat, k: nat)
    requires pos + k <= |s| && k <= Run(cls, s, pos)
    ensures AllInClass(cls, s[pos..pos + k])
  {
    var n := Run(cls, s, pos);
    assert s[pos..pos + k] == s[pos..pos + n][..k];
  }

  /** A star that takes a run, followed by a way to match the rest. */
  lemma StarSpans(cls: CharClass, rest: seq<Elem>, s: string, pos: nat, k: nat, caps: seq<string>)
    requires pos + k <= |s| && AllInClass(cls, s[pos..pos + k]) && Spans(rest, s, pos + k, caps)
    ensures Spans([Star(cls)] + rest, s, pos, [s[pos..pos + k]] + caps)
  {
    var elems := [Star(cls)] + rest;
    assert elems[0] == Star(cls) && elems[1..] == rest;
    var all := [s[pos..pos + k]] + caps;
    assert all[0] == s[pos..pos + k] && all[1..] == caps;
  }

  /** Whenever some way to match exists, the matcher finds one. */
  lemma {:induction false} MatchComplete(elems: seq<Elem>, s: string, pos: nat, caps: seq<string>)
    requires pos <= |s| && Spans(elems, s, pos, caps)
    ensures Match(elems, s, pos).Some?
    decreases |elems|
  {
    if |elems| > 0 {
      match elems[0]
      case Text(t) =>
        MatchComplete(elems[1..], s, pos + |t|, caps);
      case OptText(t) =>
        if pos + |t| <= |s| && s[pos..pos + |t|] == t && Spans(elems[1..], s, pos + |t|, caps) {
          MatchComplete(elems[1..], s, pos + |t|, caps);
        } else {
          MatchComplete(elems[1..], s, pos, caps);
        }
      case Star(cls) =>
        var k := |caps[0]|;
        MatchComplete(elems[1..], s, pos + k, caps[1..]);
        RunBound(cls, s, pos, k);
        TryStarComplete(elems[1..], s, pos, k, Run(cls, s, pos));
    }
  }

  /** A run of class characters is never longer than the longest run. */
  lemma {:induction false} RunBound(cls: CharClass, s: string, pos: nat, k: nat)
    requires pos + k <= |s| && AllInClass(cls, s[pos..pos + k])
    ensures k <= Run(cls, s, pos)
    decreases k
  {
    if k > 0 {
      assert InClass(cls, s[pos..pos + k][0]);
      assert s[pos + 1..pos + k] == s[pos..pos + k][1..];
      RunBound(cls, s, pos + 1, k - 1);
    }
  }

  lemma {:induction false} TryStarComplete(rest: seq<Elem>, s: string, pos: nat, k: nat, top: nat)
    requires k <= top && pos + top <= |s|
    requires Match(rest, s, pos + k).Some?
    ensures TryStar(rest, s, pos, top).Some?
    decreases top
  {
    if top > k && Match(rest, s, pos + top).None? {
      TryStarComplete(rest, s, pos, k, top - 1);
    }
  }

  /** find() succeeds exactly when the pattern can match from some position,
      and what it returns is such a match. */
  lemma {:induction false} FindCorrect(elems: seq<Elem>, s: string, p: nat)
    requires p <= |s|
    ensures (exists q: nat, caps :: p <= q <= |s| && Spans(elems, s, q, caps)) ==> FindFrom(elems, s, p).Some?
    ensures FindFrom(elems, s, p).Some? ==>
      exists q: nat :: p <= q <= |s| && Spans(elems, s, q, FindFrom(elems, s, p).value)
    ensures FindFrom(elems, s, p).Some? ==> |FindFrom(elems, s, p).value| == StarCount(elems)
    decreases |s| - p
  {
    MatchSound(elems, s, p);
    forall q: nat, caps | p <= q <= |s| && Spans(elems, s, q, caps)
      ensures Match(elems, s, p).Some? || p < q
    {
      if q == p { MatchComplete(elems, s, p, caps); }
    }
    match Match(elems, s, p)
    case Some(caps) =>
      SpansCaptureCount(elems, s, p, caps);
    case None =>
      if p < |s| { FindCorrect(elems, s, p + 1); }
  }

  /** find() takes the leftmost start: the pattern can match at no earlier
      position, and the captures are the greedy matcher's at that start. */
  lemma {:induction false} FindLeftmost(elems: seq<Elem>, s: string, p: nat) returns (q: nat)
    requires p <= |s|
    ensures FindFrom(elems, s, p).Some? ==>
      p <= q <= |s| && FindFrom(elems, s, p) == Match(elems, s, q)
      && forall q2: nat, caps :: p <= q2 < q ==> !Spans(elems, s, q2, caps)
    decreases |s| - p
  {
    q := p;
    match Match(elems, s, p)
    case Some(_) =>
    case None =>
      if p < |s| {
        q := FindLeftmost(elems, s, p + 1);
        forall caps ensures !Spans(elems, s, p, caps) {
          if Spans(elems, s, p, caps) { MatchComplete(elems, s, p, caps); }
        }
      }
  }

  // ---------------------------------------------------------------------------
  // ImageFile.parseImageName

  /** The groups of a successful match. */
  datatype Fields = Fields(microscope: string, objective: string, zoom: string, immersion: string,
                           argoSlide: string, pattern: string, date: string)

  /** The pattern has nine groups. */
  lemma PatternGroups()
    ensures StarCount(ImagePattern) == 9
  {
    var a: seq<Elem> := [Star(Dot), Text("_o"), Star(Dot), Text("_z")];
    var b: seq<Elem> := [Star(Dot), Text("_"), Star(Dot), Text("_")];
    var c: seq<Elem> := [Star(Dot), Text("_"), Star(Dot), Text("_d")];
    var d: seq<Elem> := [Star(Digit), OptText("_"), Star(Dot)];
    var e: seq<Elem> := [Text("."), Star(Dot)];
    StarCountConcat(a, b);
    StarCountConcat(a + b, c);
    StarCountConcat(a + b + c, d);
    StarCountConcat(a + b + c + d, e);
  }

  lemma {:induction false} StarCountConcat(a: seq<Elem>, b: seq<Elem>)
    ensures StarCount(a + b) == StarCount(a) + StarCount(b)
    decreases |a|
  {
    if |a| > 0 {
      assert (a + b)[0] == a[0] && (a + b)[1..] == a[1..] + b;
      StarCountConcat(a[1..], b);
    } else {
      assert a + b == b;
    }
  }

  function FieldsOf(caps: seq<string>): Fields
    requires |caps| >= 7
  {
    Fields(caps[0], caps[1], caps[2], caps[3], caps[4], caps[5], caps[6])
  }

  /** The named groups read from a successful match, or None (the fields stay
      null) when the name does not fit the grammar. */
  function ParseImageName(name: string): (r: Option<Fields>)
    ensures r.Some? <==> exists q: nat, caps :: q <= |name| && Spans(ImagePattern, name, q, caps)
    ensures r.Some? ==> exists q: nat, caps :: q <= |name| && Spans(ImagePattern, name, q, caps)
                                          && |caps| == 9 && r.value == FieldsOf(caps)
  {
    FindCorrect(ImagePattern, name, 0);
    PatternGroups();
    match FindFrom(ImagePattern, name, 0)
    case None => None
    case Some(caps) => Some(FieldsOf(caps))
  }

  /** The fields come from the leftmost start at which the name matches, read
      by the greedy matcher there, as Matcher.find() does. */
  lemma ParseLeftmost(name: string)
    ensures ParseImageName(name).Some? ==>
      exists q: nat, caps :: q <= |name| && Match(ImagePattern, name, q) == Some(caps)
                           && |caps| == 9 && ParseImageName(name).value == FieldsOf(caps)
                           && forall q2: nat, other :: q2 < q ==> !Spans(ImagePattern, name, q2, other)
  {
    FindCorrect(ImagePattern, name, 0);
    PatternGroups();
    var q := FindLeftmost(ImagePattern, name, 0);
    if ParseImageName(name).Some? {
      var caps := FindFrom(ImagePattern, name, 0).value;
      assert Match(ImagePattern, name, q) == Some(caps);
      assert ParseImageName(name).value == FieldsOf(caps);
    }
  }

  lemma {:induction false} SpansCaptureCount(elems: seq<Elem>, s: string, pos: nat, caps: seq<string>)
    requires pos <= |s| && Spans(elems, s, pos, caps)
    ensures |caps| == StarCount(elems)
    decreases |elems|
  {
    if |elems| > 0 {
      match elems[0]
      case Text(t) => SpansCaptureCount(elems[1..], s, pos + |t|, caps);
      case OptText(t) =>
        if pos + |t| <= |s| && s[pos..pos + |t|] == t && Spans(elems[1..], s, pos + |t|, caps) {
          SpansCaptureCount(elems[1..], s, pos + |t|, caps);
        } else {
          SpansCaptureCount(elems[1..], s, pos, caps);
        }
      case Star(cls) => SpansCaptureCount(elems[1..], s, pos + |caps[0]|, caps[1..]);
    }
  }
}
