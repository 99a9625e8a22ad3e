/** The worked example of the ImageFile grammar: the name
    "lsm980_o63x_z1.2_oil_ArgoSLG511_b_d20230223_1.extension" is traced through
    the greedy matcher step by step.  The trace shows that the backtracking
    order matters: "_oil" also starts with "_o", and the greedy microscope
    group first tries to stop there before settling on "lsm980". */
module ImageNameExample {
  import opened Results
  import opened JavaLang
  import opened ImageName

  // ---------------------------------------------------------------------------
  // Stepping the matcher

  lemma TextTaken(elems: seq<Elem>, s: string, pos: nat)
    requires |elems| > 0 && elems[0].Text? && pos + |elems[0].t| <= |s|
    requires forall j :: 0 <= j < |elems[0].t| ==> s[pos + j] == elems[0].t[j]
    ensures Match(elems, s, pos) == Match(elems[1..], s, pos + |elems[0].t|)
  {
    assert s[pos..pos + |elems[0].t|] == elems[0].t;
  }

  /** A literal of at most two characters fails where its first or second
      character is missing. */
  lemma TextMissed(elems: seq<Elem>, s: string, pos: nat)
    requires pos <= |s| && |elems| > 0 && elems[0].Text? && 0 < |elems[0].t| <= 2
    requires pos + |elems[0].t| > |s| || s[pos] != elems[0].t[0]
             || (|elems[0].t| == 2 && s[pos + 1] != elems[0].t[1])
    ensures Match(elems, s, pos).None?
  {
    var t := elems[0].t;
    if pos + |t| <= |s| {
      assert s[pos..pos + |t|][0] == s[pos];
      if |t| == 2 { assert s[pos..pos + |t|][1] == s[pos + 1]; }
    }
  }

  /** Giving back characters past positions where the rest cannot match. */
  lemma {:induction false} SkipFailing(rest: seq<Elem>, s: string, pos: nat, lo: nat, hi: nat)
    requires lo <= hi && pos + hi <= |s|
    requires forall q :: pos + lo < q <= pos + hi ==> Match(rest, s, q).None?
    ensures TryStar(rest, s, pos, hi) == TryStar(rest, s, pos, lo)
    decreases hi
  {
    if lo < hi {
      SkipFailing(rest, s, pos, lo, hi - 1);
    }
  }

  lemma StarTakes(elems: seq<Elem>, s: string, pos: nat, k: nat, caps: seq<string>)
    requires |elems| > 0 && elems[0].Star? && pos <= |s|
    requires k <= Run(elems[0].cls, s, pos)
    requires forall q :: pos + k < q <= pos + Run(elems[0].cls, s, pos) ==> Match(elems[1..], s, q).None?
    requires Match(elems[1..], s, pos + k) == Some(caps)
    ensures Match(elems, s, pos) == Some([s[pos..pos + k]] + caps)
  {
    SkipFailing(elems[1..], s, pos, k, Run(elems[0].cls, s, pos));
  }

  lemma StarFails(elems: seq<Elem>, s: string, pos: nat)
    requires |elems| > 0 && elems[0].Star? && pos <= |s|
    requires forall q :: pos <= q <= pos + Run(elems[0].cls, s, pos) ==> Match(elems[1..], s, q).None?
    ensures Match(elems, s, pos).None?
  {
    SkipFailing(elems[1..], s, pos, 0, Run(elems[0].cls, s, pos));
  }

  lemma {:induction false} RunExact(cls: CharClass, s: string, pos: nat, n: nat)
    requires pos + n <= |s|
    requires forall i :: pos <= i < pos + n ==> InClass(cls, s[i])
    requires pos + n == |s| || !InClass(cls, s[pos + n])
    ensures Run(cls, s, pos) == n
    decreases n
  {
    if n > 0 {
      RunExact(cls, s, pos + 1, n - 1);
    }
  }

  // ---------------------------------------------------------------------------
  // The name and the pattern, position by position

  /** The example name, written in chunks so that its characters can be
      looked up cheaply. */
  const S: string := "lsm980_o63x_z" + "1.2_oil_ArgoS" + "LG511_b_d2023" + "0223_1.extension"

  function P(i: nat): seq<Elem>
    requires i <= |ImagePattern|
  {
    ImagePattern[i..]
  }

  lemma PatternShape()
    ensures |ImagePattern| == 17
    ensures ImagePattern[0] == Star(Dot) && ImagePattern[1] == Text("_o")
    ensures ImagePattern[2] == Star(Dot) && ImagePattern[3] == Text("_z")
    ensures ImagePattern[4] == Star(Dot) && ImagePattern[5] == Text("_")
    ensures ImagePattern[6] == Star(Dot) && ImagePattern[7] == Text("_")
    ensures ImagePattern[8] == Star(Dot) && ImagePattern[9] == Text("_")
    ensures ImagePattern[10] == Star(Dot) && ImagePattern[11] == Text("_d")
    ensures ImagePattern[12] == Star(Digit) && ImagePattern[13] == OptText("_")
    ensures ImagePattern[14] == Star(Dot) && ImagePattern[15] == Text(".")
    ensures ImagePattern[16] == Star(Dot)
  {
  }

  lemma Step(i: nat)
    requires i < 17
    ensures |ImagePattern| == 17
    ensures P(i)[0] == ImagePattern[i] && P(i)[1..] == P(i + 1)
  {
    PatternShape();
  }

  /** The characters the literals of the pattern meet on the way. */
  lemma NameShape()
    ensures |S| == 55
    ensures S[6] == '_' && S[11] == '_' && S[16] == '_' && S[20] == '_' && S[31] == '_' && S[33] == '_'
    ensures S[43] == '_' && S[45] == '.'
    ensures S[7] == 'o' && S[12] == 'z' && S[17] == 'o' && S[21] == 'A' && S[32] == 'b'
    ensures S[34] == 'd' && S[44] == '1'
  {
  }

  /** Where the underscores and the dot of the name are. */
  lemma NameGaps()
    ensures |S| == 55
    ensures forall j :: 0 <= j < 55 && S[j] == '_' ==>
      j == 6 || j == 11 || j == 16 || j == 20 || j == 31 || j == 33 || j == 43
    ensures forall j :: 44 <= j < 55 && S[j] == '.' ==> j == 45
    ensures S[7] == 'o' && S[12] == 'z' && S[17] == 'o' && S[21] == 'A' && S[32] == 'b'
    ensures S[34] == 'd' && S[44] == '1'
  {
  }

  /** The date digits, and the underscore that ends them. */
  lemma DateDigits()
    ensures |S| == 55
    ensures forall j :: 35 <= j < 43 ==> IsAsciiDigit(S[j])
    ensures !IsAsciiDigit(S[43])
  {
  }

  lemma NamePrintable()
    ensures |S| == 55
    ensures forall j :: 0 <= j < 55 ==> ' ' <= S[j] <= '~'
  {
  }

  /** No line terminator from `pos` on, so every `.*` can take the rest. */
  lemma DotRun(pos: nat)
    requires pos <= 55
    ensures |S| == 55 && Run(Dot, S, pos) == 55 - pos
  {
    NamePrintable();
    RunExact(Dot, S, pos, 55 - pos);
  }

  // ---------------------------------------------------------------------------
  // The literals of the pattern, one position at a time

  /** The positions of the underscores in the name. */
  predicate IsUnderscore(r: nat) {
    r == 6 || r == 11 || r == 16 || r == 20 || r == 31 || r == 33 || r == 43
  }

  /** A "_" literal (pattern elements 5, 7 and 9) steps over an underscore. */
  lemma UnderscoreTaken(k: nat, r: nat)
    requires k == 5 || k == 7 || k == 9
    requires IsUnderscore(r)
    ensures |S| == 55 && r < 55 && Match(P(k), S, r) == Match(P(k + 1), S, r + 1)
  {
    UnderscoreLiteral(k);
    UnderscoreAt(r);
    assert forall j :: 0 <= j < 1 ==> S[r + j] == "_"[j];
    TextTaken(P(k), S, r);
  }

  lemma UnderscoreLiteral(k: nat)
    requires k == 5 || k == 7 || k == 9
    ensures P(k)[0] == Text("_") && P(k)[1..] == P(k + 1)
  {
    Step(k); PatternShape();
  }

  lemma UnderscoreAt(r: nat)
    requires IsUnderscore(r)
    ensures |S| == 55 && r < 55 && S[r] == '_'
  {
    NameShape();
  }

  /** ... and fails everywhere else. */
  lemma UnderscoreMissed(k: nat, r: nat)
    requires k == 5 || k == 7 || k == 9
    requires r <= 55 && !IsUnderscore(r)
    ensures |S| == 55 && Match(P(k), S, r).None?
  {
    NameGaps(); Step(k); PatternShape();
    TextMissed(P(k), S, r);
  }

  /** The two-character literals "_o" (element 1), "_z" (3) and "_d" (11)
      fail wherever the name does not spell them. */
  lemma PairMissed(k: nat, r: nat)
    requires k == 1 || k == 3 || k == 11
    requires r <= 55
    requires k == 1 ==> r != 6 && r != 16
    requires k == 3 ==> r != 11
    requires k == 11 ==> r != 33
    ensures |S| == 55 && Match(P(k), S, r).None?
  {
    NameGaps(); Step(k); PatternShape();
    TextMissed(P(k), S, r);
  }

  /** The "_o" of "_oil". */
  lemma OilTaken()
    ensures |S| == 55 && Match(P(1), S, 16) == Match(P(2), S, 18)
  {
    NameShape(); Step(1); PatternShape();
    TextTaken(P(1), S, 16);
  }

  /** The "." literal (element 15) fails after the extension dot. */
  lemma DotMissed(r: nat)
    requires 45 < r <= 55
    ensures |S| == 55 && Match(P(15), S, r).None?
  {
    NameGaps(); Step(15); PatternShape();
    TextMissed(P(15), S, r);
  }

  // ---------------------------------------------------------------------------
  // Dead ends the matcher backs out of

  /** From 34 on there is no "_d", so the pattern group cannot end. */
  lemma PatternFails(q: nat)
    requires 34 <= q <= 55
    ensures |S| == 55 && Match(P(10), S, q).None?
  {
    Step(10); DotRun(q);
    forall r | q <= r <= 55 ensures Match(P(11), S, r).None? {
      PairMissed(11, r);
    }
    StarFails(P(10), S, q);
  }

  /** From 32 on, every later underscore leads into PatternFails. */
  lemma ArgoSlideFails(q: nat)
    requires 32 <= q <= 55
    ensures |S| == 55 && Match(P(8), S, q).None?
  {
    Step(8); DotRun(q);
    forall r | q <= r <= 55 ensures Match(P(9), S, r).None? {
      if IsUnderscore(r) {
        UnderscoreTaken(9, r);
        PatternFails(r + 1);
      } else {
        UnderscoreMissed(9, r);
      }
    }
    StarFails(P(8), S, q);
  }

  /** From 21 on, every later underscore leads into ArgoSlideFails. */
  lemma ImmersionFails(q: nat)
    requires 21 <= q <= 55
    ensures |S| == 55 && Match(P(6), S, q).None?
  {
    Step(6); DotRun(q);
    forall r | q <= r <= 55 ensures Match(P(7), S, r).None? {
      if IsUnderscore(r) {
        UnderscoreTaken(7, r);
        ArgoSlideFails(r + 1);
      } else {
        UnderscoreMissed(7, r);
      }
    }
    StarFails(P(6), S, q);
  }

  /** From 12 on there is no "_z", so the objective group cannot end. */
  lemma ObjectiveFails(q: nat)
    requires 12 <= q <= 55
    ensures |S| == 55 && Match(P(2), S, q).None?
  {
    Step(2); DotRun(q);
    forall r | q <= r <= 55 ensures Match(P(3), S, r).None? {
      PairMissed(3, r);
    }
    StarFails(P(2), S, q);
  }

  // ---------------------------------------------------------------------------
  // The successful path, from the extension back to the microscope

  /** The nine captures of the match, in group order. */
  function Groups(): seq<string>
    requires |S| == 55
  {
    [S[0..6], S[8..11], S[13..16], S[17..20], S[21..31], S[32..33], S[35..43], S[44..45], S[46..55]]
  }

  lemma TailStep(g: nat)
    requires g < 9 && |S| == 55
    ensures Groups()[g..] == [Groups()[g]] + Groups()[g + 1..]
  {
  }

  // Each group is taken by a star (the "...Star" lemmas) that first gives
  // back the characters after which the rest cannot match (the
  // "...GivesBack" lemmas); the literal before it is then matched (the
  // "...On" lemmas).

  /** The extension takes the rest of the name. */
  lemma ExtensionStar()
    ensures |S| == 55 && Match(P(16), S, 46) == Some(Groups()[8..])
  {
    Step(16);
    DotRun(46);
    PatternEnd();
    LastGroup();
    StarTakes(P(16), S, 46, 9, []);
  }

  /** Past the last element the match succeeds with no captures. */
  lemma PatternEnd()
    ensures |S| == 55 && Match(P(17), S, 55) == Some([])
  {
    assert P(17) == [];
  }

  lemma LastGroup()
    ensures |S| == 55 && Groups()[8..] == [S[46..55]] + []
  {
  }

  lemma ExtensionOn()
    ensures |S| == 55 && Match(P(15), S, 45) == Some(Groups()[8..])
  {
    NameShape(); Step(15); PatternShape();
    ExtensionStar();
    TextTaken(P(15), S, 45);
  }

  /** Nothing after the "." lets the extension group end. */
  lemma ExtensionGivesBack()
    ensures |S| == 55
    ensures forall q :: 45 < q <= 55 ==> Match(P(15), S, q).None?
  {
    forall q | 45 < q <= 55 ensures Match(P(15), S, q).None? {
      DotMissed(q);
    }
    NameShape();
  }

  lemma SeriesStar()
    ensures |S| == 55 && Match(P(14), S, 44) == Some(Groups()[7..])
  {
    Step(14);
    ExtensionOn();
    ExtensionGivesBack();
    DotRun(44);
    TailStep(7);
    StarTakes(P(14), S, 44, 1, Groups()[8..]);
  }

  /** The optional "_" before the series is present. */
  lemma SeriesAndExtension()
    ensures |S| == 55 && Match(P(13), S, 43) == Some(Groups()[7..])
  {
    NameShape(); Step(13); PatternShape();
    SeriesStar();
    assert S[43..44] == [S[43]];
  }

  lemma DateStar()
    ensures |S| == 55 && Match(P(12), S, 35) == Some(Groups()[6..])
  {
    Step(12);
    SeriesAndExtension();
    DateDigits();
    RunExact(Digit, S, 35, 8);
    TailStep(6);
    StarTakes(P(12), S, 35, 8, Groups()[7..]);
  }

  lemma DateOn()
    ensures |S| == 55 && Match(P(11), S, 33) == Some(Groups()[6..])
  {
    NameShape(); Step(11); PatternShape();
    DateStar();
    TextTaken(P(11), S, 33);
  }

  /** No "_d" after the pattern letter. */
  lemma DateGivesBack()
    ensures |S| == 55
    ensures forall q :: 33 < q <= 55 ==> Match(P(11), S, q).None?
  {
    forall q | 33 < q <= 55 ensures Match(P(11), S, q).None? {
      PairMissed(11, q);
    }
    NameShape();
  }

  lemma PatternStar()
    ensures |S| == 55 && Match(P(10), S, 32) == Some(Groups()[5..])
  {
    Step(10);
    DateOn();
    DotRun(32);
    DateGivesBack();
    TailStep(5);
    StarTakes(P(10), S, 32, 1, Groups()[6..]);
  }

  lemma PatternOn()
    ensures |S| == 55 && Match(P(9), S, 31) == Some(Groups()[5..])
  {
    NameShape(); Step(9); PatternShape();
    PatternStar();
    TextTaken(P(9), S, 31);
  }

  /** Every later underscore leads into PatternFails. */
  lemma PatternGivesBack()
    ensures |S| == 55
    ensures forall q :: 31 < q <= 55 ==> Match(P(9), S, q).None?
  {
    forall q | 31 < q <= 55 ensures Match(P(9), S, q).None? {
      if IsUnderscore(q) {
        UnderscoreTaken(9, q);
        PatternFails(q + 1);
      } else {
        UnderscoreMissed(9, q);
      }
    }
    NameShape();
  }

  lemma ArgoSlideStar()
    ensures |S| == 55 && Match(P(8), S, 21) == Some(Groups()[4..])
  {
    Step(8);
    PatternOn();
    DotRun(21);
    PatternGivesBack();
    TailStep(4);
    StarTakes(P(8), S, 21, 10, Groups()[5..]);
  }

  lemma ArgoSlideOn()
    ensures |S| == 55 && Match(P(7), S, 20) == Some(Groups()[4..])
  {
    NameShape(); Step(7); PatternShape();
    ArgoSlideStar();
    TextTaken(P(7), S, 20);
  }

  /** Every later underscore leads into ArgoSlideFails. */
  lemma ArgoSlideGivesBack()
    ensures |S| == 55
    ensures forall q :: 20 < q <= 55 ==> Match(P(7), S, q).None?
  {
    forall q | 20 < q <= 55 ensures Match(P(7), S, q).None? {
      if IsUnderscore(q) {
        UnderscoreTaken(7, q);
        ArgoSlideFails(q + 1);
      } else {
        UnderscoreMissed(7, q);
      }
    }
    NameShape();
  }

  lemma ImmersionStar()
    ensures |S| == 55 && Match(P(6), S, 17) == Some(Groups()[3..])
  {
    Step(6);
    ArgoSlideOn();
    DotRun(17);
    ArgoSlideGivesBack();
    TailStep(3);
    StarTakes(P(6), S, 17, 3, Groups()[4..]);
  }

  lemma ImmersionOn()
    ensures |S| == 55 && Match(P(5), S, 16) == Some(Groups()[3..])
  {
    NameShape(); Step(5); PatternShape();
    ImmersionStar();
    TextTaken(P(5), S, 16);
  }

  /** Every later underscore leads into ImmersionFails. */
  lemma ZoomGivesBack()
    ensures |S| == 55
    ensures forall q :: 16 < q <= 55 ==> Match(P(5), S, q).None?
  {
    forall q | 16 < q <= 55 ensures Match(P(5), S, q).None? {
      if IsUnderscore(q) {
        UnderscoreTaken(5, q);
        ImmersionFails(q + 1);
      } else {
        UnderscoreMissed(5, q);
      }
    }
    NameShape();
  }

  lemma ZoomStar()
    ensures |S| == 55 && Match(P(4), S, 13) == Some(Groups()[2..])
  {
    Step(4);
    ImmersionOn();
    DotRun(13);
    ZoomGivesBack();
    TailStep(2);
    StarTakes(P(4), S, 13, 3, Groups()[3..]);
  }

  lemma ZoomOn()
    ensures |S| == 55 && Match(P(3), S, 11) == Some(Groups()[2..])
  {
    NameShape(); Step(3); PatternShape();
    ZoomStar();
    TextTaken(P(3), S, 11);
  }

  /** There is no second "_z". */
  lemma ObjectiveGivesBack()
    ensures |S| == 55
    ensures forall q :: 11 < q <= 55 ==> Match(P(3), S, q).None?
  {
    forall q | 11 < q <= 55 ensures Match(P(3), S, q).None? {
      PairMissed(3, q);
    }
    NameShape();
  }

  lemma ObjectiveStar()
    ensures |S| == 55 && Match(P(2), S, 8) == Some(Groups()[1..])
  {
    Step(2);
    ZoomOn();
    DotRun(8);
    ObjectiveGivesBack();
    TailStep(1);
    StarTakes(P(2), S, 8, 3, Groups()[2..]);
  }

  lemma ObjectiveOn()
    ensures |S| == 55 && Match(P(1), S, 6) == Some(Groups()[1..])
  {
    NameShape(); Step(1); PatternShape();
    ObjectiveStar();
    TextTaken(P(1), S, 6);
  }

  /** The microscope group first tries to end at the "_o" of "_oil"; the
      objective group then finds no "_z" and the matcher backs out. */
  lemma MicroscopeGivesBack()
    ensures |S| == 55
    ensures forall q :: 6 < q <= 55 ==> Match(P(1), S, q).None?
  {
    forall q | 6 < q <= 55 ensures Match(P(1), S, q).None? {
      if q == 16 {
        OilTaken();
        ObjectiveFails(18);
      } else {
        PairMissed(1, q);
      }
    }
    NameShape();
  }

  lemma WholeMatch()
    ensures |S| == 55 && Match(ImagePattern, S, 0) == Some(Groups())
  {
    Step(0);
    ObjectiveOn();
    DotRun(0);
    MicroscopeGivesBack();
    TailStep(0);
    StarTakes(P(0), S, 0, 6, Groups()[1..]);
    assert P(0) == ImagePattern;
  }

  /** The chunks spell the example name. */
  lemma ExampleText()
    ensures S == "lsm980_o63x_z1.2_oil_ArgoSLG511_b_d20230223_1.extension"
  {
    assert "lsm980_o63x_z" + "1.2_oil_ArgoS" == "lsm980_o63x_z1.2_oil_ArgoS";
    assert "lsm980_o63x_z1.2_oil_ArgoS" + "LG511_b_d2023" == "lsm980_o63x_z1.2_oil_ArgoSLG511_b_d2023";
  }

  /** The example name of the ImageFile grammar yields the documented
      fields; in particular the microscope is "lsm980", not
      "lsm980_o63x_z1.2". */
  lemma ExampleParses()
    ensures ParseImageName(S)
         == Some(Fields("lsm980", "63x", "1.2", "oil", "ArgoSLG511", "b", "20230223"))
  {
    ExampleFound();
    ExampleFields();
  }

  /** The search succeeds at the first position. */
  lemma ExampleFound()
    ensures |S| == 55 && FindFrom(ImagePattern, S, 0) == Some(Groups())
  {
    WholeMatch();
  }

  /** The seven named captures, spelled out. */
  lemma ExampleFields()
    ensures |S| == 55
    ensures FieldsOf(Groups()) == Fields("lsm980", "63x", "1.2", "oil", "ArgoSLG511", "b", "20230223")
  {
    assert S[0..6] == "lsm980" && S[8..11] == "63x" && S[13..16] == "1.2" && S[17..20] == "oil";
    assert S[21..31] == "ArgoSLG511" && S[32..33] == "b" && S[35..43] == "20230223";
  }
}
