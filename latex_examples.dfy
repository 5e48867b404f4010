/**
 * The sanitizer on concrete texts: a line-break marker kept, doubled command
 * backslashes collapsed, a spacing directive removed, escaped brackets inside
 * display math repaired, and a text on which a second pass changes the result.
 */
module LatexExamples {
  import opened Text
  import opened Latex

  /** Stages 2 and 3 leave a text alone that has no `[`, no `$` and no `)`. */
  lemma LaterStagesKeep(t: string)
    requires '[' !in t && '$' !in t && ')' !in t
    ensures RemoveSpacingDirectives(t) == t
    ensures FixMathSpans(t, DisplayDelimiter, DisplayDelimiter) == t
    ensures FixMathSpans(t, InlineOpen, InlineClose) == t
  {
    RemovePlain(t);
    FindMissing(t, DisplayDelimiter, '$');
    FixSpansPlain(t, DisplayDelimiter, DisplayDelimiter);
    assert InlineClose[|InlineClose| - 1] == ')';
    FixSpansNoCloser(t, InlineOpen, InlineClose);
  }

  /** Characters that no stage of the sanitizer reacts to. */
  predicate Inert(t: string) {
    BS !in t && '[' !in t && '$' !in t && ')' !in t
  }

  /**
   * A lone pair of backslashes in otherwise inert text: before a letter or a
   * square bracket it becomes one backslash, before anything else it stays.
   */
  lemma SanitizeLonePair(a: string, b: string)
    requires Inert(a) && Inert(b)
    ensures SanitizeLatex(a + ([BS, BS] + b))
      == a + ((if b != [] && IsCommandChar(b[0]) then [BS] else [BS, BS]) + b)
  {
    CommandBackslashesPair(a, b);
    CommandBackslashesPlain(a);
    CommandBackslashesPlain(b);
    LaterStagesKeep(a + ((if b != [] && IsCommandChar(b[0]) then [BS] else [BS, BS]) + b));
  }

  /** `a`, two backslashes, a space, `b`: the line-break marker survives. */
  lemma LineBreakKept()
    ensures SanitizeLatex("a" + ([BS, BS] + " b")) == "a" + ([BS, BS] + " b")
  {
    SanitizeLonePair("a", " b");
  }

  /** Stage 1 on a doubled backslash before a command name, in text without backslashes. */
  lemma OnePairStage1(x: string, y: string)
    requires BS !in x && BS !in y && y != [] && IsCommandChar(y[0])
    ensures CollapseCommandBackslashes(x + ([BS, BS] + y)) == x + ([BS] + y)
  {
    CommandBackslashesPair(x, y);
    CommandBackslashesPlain(x);
    CommandBackslashesPlain(y);
  }

  /** Stage 1 on a text that starts with a doubled backslash before a command name. */
  lemma LeadingPairStage1(b: string)
    requires b != [] && IsCommandChar(b[0])
    ensures CollapseCommandBackslashes([BS, BS] + b) == [BS] + CollapseCommandBackslashes(b)
  {
    CommandBackslashesPair([], b);
    CommandBackslashesPlain([]);
    assert [] + ([BS, BS] + b) == [BS, BS] + b;
  }

  /** Two doubled backslashes, each before a command name, in inert text. */
  lemma SanitizeTwoCommands(x: string, y: string)
    requires Inert(x) && Inert(y) && x != [] && IsCommandChar(x[0]) && y != [] && IsCommandChar(y[0])
    ensures SanitizeLatex([BS, BS] + (x + ([BS, BS] + y))) == [BS] + (x + ([BS] + y))
  {
    OnePairStage1(x, y);
    LeadingPairStage1(x + ([BS, BS] + y));
    LaterStagesKeep([BS] + (x + ([BS] + y)));
  }

  /** Doubled backslashes before `mu_n` and `frac{W}{L}` become single ones. */
  lemma CommandsCollapsed()
    ensures SanitizeLatex([BS, BS] + ("mu_n " + ([BS, BS] + "frac{W}{L}")))
      == [BS] + ("mu_n " + ([BS] + "frac{W}{L}"))
  {
    SanitizeTwoCommands("mu_n ", "frac{W}{L}");
  }

  /** Stages 1 and 2 on a display span, a space, a directive and more text. */
  lemma SpanDirectiveStages12(m: string, d: Directive, b: string)
    requires Inert(m) && Inert(b) && WellFormed(d)
    requires BS !in RenderThen(d, b)
    ensures var s := "$$" + (m + ("$$" + (" " + RenderThen(d, b))));
      RemoveSpacingDirectives(CollapseCommandBackslashes(s)) == "$$" + (m + ("$$" + (" " + b)))
  {
    var a := "$$" + (m + ("$$" + " "));
    ConcatAssoc("$$", m, "$$" + (" " + RenderThen(d, b)));
    ConcatAssoc("$$", " ", RenderThen(d, b));
    ConcatAssoc("$$" + m, "$$" + " ", RenderThen(d, b));
    ConcatAssoc("$$", m, "$$" + " ");
    CommandBackslashesPlain(a + RenderThen(d, b));
    NoDirectiveInPlain(a);
    RemoveDirective(a, d, b);
    RemovePlain(b);
    ConcatAssoc("$$", m, "$$" + (" " + b));
    ConcatAssoc("$$", " ", b);
    ConcatAssoc("$$" + m, "$$" + " ", b);
    ConcatAssoc("$$", m, "$$" + " ");
  }

  /** The display repair on a span of inert text followed by inert text. */
  lemma InertSpanDisplay(m: string, rest: string)
    requires Inert(m) && Inert(rest)
    ensures var t := "$$" + (m + ("$$" + rest));
      FixMathSpans(t, DisplayDelimiter, DisplayDelimiter) == t
  {
    assert "$$" + (m + ("$$" + rest)) == [] + ("$$" + (m + ("$$" + rest)));
    ClosesAtEndPlain(m, "$$");
    FixSpansMatched([], "$$", m, "$$", rest);
    FixOverescapeIsStripEscapes(m);
    MathEscapesPlain(m);
    FindMissing(rest, "$$", '$');
    FixSpansPlain(rest, "$$", "$$");
  }

  /** Stage 3 on a display span of inert text followed by inert text. */
  lemma SpanStage3(m: string, rest: string)
    requires Inert(m) && Inert(rest)
    ensures var t := "$$" + (m + ("$$" + rest));
      FixMathSpans(FixMathSpans(t, DisplayDelimiter, DisplayDelimiter), InlineOpen, InlineClose) == t
  {
    InertSpanDisplay(m, rest);
    FindMissing("$$" + (m + ("$$" + rest)), InlineOpen, BS);
    FixSpansPlain("$$" + (m + ("$$" + rest)), InlineOpen, InlineClose);
  }

  /** A display span of inert text, a space, a directive, and more inert text: the directive goes, the spaces stay. */
  lemma SanitizeSpanThenDirective(m: string, d: Directive, b: string)
    requires Inert(m) && Inert(b) && WellFormed(d)
    requires BS !in RenderThen(d, b)
    ensures SanitizeLatex("$$" + (m + ("$$" + (" " + RenderThen(d, b))))) == "$$" + (m + ("$$" + (" " + b)))
  {
    SpanDirectiveStages12(m, d, b);
    SpanStage3(m, " " + b);
  }

  /** `[6pt]` after a display span is deleted; the spaces on both sides of it stay. */
  lemma DirectiveRemoved()
    ensures SanitizeLatex("$$" + (" x = 1 " + ("$$" + (" " + ("[6pt]" + " more text")))))
      == "$$" + (" x = 1 " + ("$$" + (" " + " more text")))
  {
    var d := Directive("", "6", "", "", "pt", "");
    assert WellFormed(d);
    assert RenderThen(d, " more text") == "[6pt]" + " more text";
    SanitizeSpanThenDirective(" x = 1 ", d, " more text");
  }

  /** `[` and digits then a comma, as in `[0, 1]`, start no directive: a unit or a dot must follow the digits. */
  lemma NumberListHead(w: string, t: string)
    requires w != [] && All(w, Digit)
    requires t != [] && t[0] == ','
    ensures ParseDirective(['['] + (w + t)).None?
  {
    var a := ['['] + (w + t);
    assert a[1..] == w + t;
    assert [] + (w + t) == w + t && [] + t == t;
    SpanRun([], w + t, Whitespace);
    SpanRun(w, t, Digit);
    SpanRun([], t, Whitespace);
  }

  lemma NumberListNoDirective(w: string, t: string)
    requires w != [] && All(w, Digit)
    requires t != [] && t[0] == ',' && '[' !in t
    ensures NoDirectiveIn(['['] + (w + t))
  {
    var a := ['['] + (w + t);
    NumberListHead(w, t);
    assert '[' !in w;
    forall i | 1 <= i < |a| ensures ParseDirective(a[i..]).None? {
      assert a[i..][0] == a[i];
    }
  }

  /** `[0, 1]` is no directive. */
  lemma ListNoDirective()
    ensures NoDirectiveIn("[0, 1] ")
  {
    assert All("0", Digit);
    NumberListNoDirective("0", ", 1] ");
    assert ['['] + ("0" + ", 1] ") == "[0, 1] ";
  }

  /** Stage 2 keeps the list `[0, 1]` and deletes the directive that follows it. */
  lemma ListKeptDirectiveRemoved()
    ensures RemoveSpacingDirectives("[0, 1] " + "[6pt]") == "[0, 1] "
  {
    var d := Directive("", "6", "", "", "pt", "");
    assert WellFormed(d);
    assert RenderThen(d, []) == "[6pt]";
    ListNoDirective();
    RemoveDirective("[0, 1] ", d, []);
  }

  /** `$$$a` holds an opener but no closer after it, so the display pass leaves it alone. */
  lemma UnmatchedDisplayOpener()
    ensures FixMathSpans("$$$a", DisplayDelimiter, DisplayDelimiter) == "$$$a"
  {
    var s := "$$$a";
    assert StartsWith(s, "$$") && s[2..] == "$a";
    FindMissing("a", "$$", '$');
    assert s[2..][1] != '$' && s[2..][1..] == "a";
    assert !StartsWith(s[2..], "$$");
    FixSpansUnclosed(s, "$$", "$$");
  }

  /** The pieces of a display span with commands and escaped brackets. */
  predicate MathPieces(c0: string, x1: string, x2: string, y3: string) {
    && Inert(c0) && Inert(x1) && Inert(x2)
    && BS !in y3 && '[' !in y3 && '$' !in y3
    && x1 != [] && 'a' <= x1[0] <= 'z'
    && x2 != [] && 'a' <= x2[0] <= 'z'
    && y3 != [] && !IsSpace(y3[0]) && !IsDigit(y3[0])
  }

  /** `$$`, `c0`, `\x1`, `\x2`, `\[`, `y3`, `\]`, `$$`. */
  function MathInput(c0: string, x1: string, x2: string, y3: string): string {
    "$$" + (c0 + ([BS] + (x1 + ([BS] + (x2 + ([BS] + ("[" + (y3 + ([BS] + "]$$")))))))))
  }

  /** The same with the brackets unescaped. */
  function MathOutput(c0: string, x1: string, x2: string, y3: string): string {
    "$$" + (c0 + ([BS] + (x1 + ([BS] + (x2 + ("[" + (y3 + "]$$")))))))
  }

  /** One lone backslash in front of a text stage 1 keeps. */
  lemma LoneStep(x: string, t: string)
    requires BS !in x && t != [] && t[0] != BS
    requires CollapseCommandBackslashes(t) == t
    ensures CollapseCommandBackslashes(x + ([BS] + t)) == x + ([BS] + t)
  {
    CommandBackslashesPlain(x);
    CommandBackslashesLone(x, t);
  }

  lemma MathStage1(c0: string, x1: string, x2: string, y3: string)
    requires MathPieces(c0, x1, x2, y3)
    ensures CollapseCommandBackslashes(MathInput(c0, x1, x2, y3)) == MathInput(c0, x1, x2, y3)
  {
    var x4 := "]$$";
    var t3 := "[" + (y3 + ([BS] + x4));
    var t2 := x2 + ([BS] + t3);
    var t1 := x1 + ([BS] + t2);
    CommandBackslashesPlain(x4);
    LoneStep("[" + y3, x4);
    ConcatAssoc("[", y3, [BS] + x4);
    LoneStep(x2, t3);
    LoneStep(x1, t2);
    LoneStep("$$" + c0, t1);
    ConcatAssoc("$$", c0, [BS] + t1);
  }

  lemma MathStage2(c0: string, x1: string, x2: string, y3: string)
    requires MathPieces(c0, x1, x2, y3)
    ensures RemoveSpacingDirectives(MathInput(c0, x1, x2, y3)) == MathInput(c0, x1, x2, y3)
  {
    var p := "$$" + (c0 + ([BS] + (x1 + ([BS] + (x2 + [BS])))));
    var q := y3 + ([BS] + "]$$");
    assert MathInput(c0, x1, x2, y3) == p + (['['] + q);
    RemovePlainPrefix(p, ['['] + q);
    RemoveAtBracket(q);
    RemovePlain(q);
  }

  lemma MathDisplayTail(x2: string, y3: string)
    requires BS !in x2 && BS !in y3
    ensures StripMathEscapes(x2 + ([BS, '['] + (y3 + [BS, ']']))) == x2 + (['['] + (y3 + [']']))
  {
    var r3 := y3 + [BS, ']'];
    MathEscapesPlainPrefix(x2, [BS, '['] + r3);
    MathEscapesEscape('[', r3);
    MathEscapesPlainPrefix(y3, [BS, ']']);
    MathEscapesEscape(']', []);
  }

  /** The interior of the span in `MathInput`. */
  function MathInterior(c0: string, x1: string, x2: string, y3: string): string {
    c0 + ([BS] + (x1 + ([BS] + (x2 + ([BS, '['] + (y3 + [BS, ']']))))))
  }

  /** The interior of the span in `MathOutput`. */
  function FixedInterior(c0: string, x1: string, x2: string, y3: string): string {
    c0 + ([BS] + (x1 + ([BS] + (x2 + (['['] + (y3 + [']']))))))
  }

  lemma MathDisplayInterior(c0: string, x1: string, x2: string, y3: string)
    requires MathPieces(c0, x1, x2, y3)
    ensures StripMathEscapes(MathInterior(c0, x1, x2, y3)) == FixedInterior(c0, x1, x2, y3)
  {
    var r2 := x2 + ([BS, '['] + (y3 + [BS, ']']));
    var r1 := [BS] + r2;
    var r0 := [BS] + (x1 + r1);
    MathDisplayTail(x2, y3);
    MathEscapesPlainPrefix(c0, r0);
    MathEscapesBackslash(x1 + r1);
    MathEscapesPlainPrefix(x1, r1);
    MathEscapesBackslash(r2);
  }

  lemma MathInputShape(c0: string, x1: string, x2: string, y3: string)
    ensures MathInput(c0, x1, x2, y3) == [] + ("$$" + (MathInterior(c0, x1, x2, y3) + ("$$" + [])))
  {
    var r3 := y3 + [BS, ']'];
    var r2 := x2 + ([BS, '['] + r3);
    var r1 := x1 + ([BS] + r2);
    var m := c0 + ([BS] + r1);
    assert r3 + "$$" == y3 + ([BS] + "]$$");
    assert ([BS, '['] + r3) + "$$" == [BS] + ("[" + (r3 + "$$"));
    assert r2 + "$$" == x2 + ([BS] + ("[" + (y3 + ([BS] + "]$$"))));
    assert r1 + "$$" == x1 + ([BS] + (r2 + "$$"));
    assert m + "$$" == c0 + ([BS] + (r1 + "$$"));
  }

  lemma MathOutputDisplayShape(c0: string, x1: string, x2: string, y3: string)
    ensures MathOutput(c0, x1, x2, y3) == [] + ("$$" + (FixedInterior(c0, x1, x2, y3) + ("$$" + [])))
  {
    var f2 := x2 + (['['] + (y3 + [']']));
    var f1 := x1 + ([BS] + f2);
    var fixed := c0 + ([BS] + f1);
    assert f2 + "$$" == x2 + ("[" + (y3 + "]$$"));
    assert f1 + "$$" == x1 + ([BS] + (f2 + "$$"));
    assert fixed + "$$" == c0 + ([BS] + (f1 + "$$"));
  }

  lemma MathDisplay(c0: string, x1: string, x2: string, y3: string)
    requires MathPieces(c0, x1, x2, y3)
    ensures FixMathSpans(MathInput(c0, x1, x2, y3), DisplayDelimiter, DisplayDelimiter) == MathOutput(c0, x1, x2, y3)
  {
    var m := MathInterior(c0, x1, x2, y3);
    MathInputShape(c0, x1, x2, y3);
    MathOutputDisplayShape(c0, x1, x2, y3);
    assert '$' !in m;
    ClosesAtEndPlain(m, "$$");
    FixSpansMatched([], "$$", m, "$$", []);
    FixOverescapeIsStripEscapes(m);
    MathDisplayInterior(c0, x1, x2, y3);
  }

  /** A backslash before a command name is not the inline opener and is copied with the name. */
  lemma InlineSkipCommand(x: string, t: string)
    requires BS !in x && x != [] && x[0] != '('
    ensures FixMathSpans([BS] + (x + t), InlineOpen, InlineClose) == [BS] + (x + FixMathSpans(t, InlineOpen, InlineClose))
  {
    var s := [BS] + (x + t);
    assert !StartsWith(s, InlineOpen) by {
      assert s[1] == x[0];
    }
    FixSpansCopyHead(BS, x + t, InlineOpen, InlineClose);
    FixSpansPlainPrefix(x, t, InlineOpen, InlineClose);
  }

  lemma InlinePrefix(c0: string, t: string)
    requires BS !in c0
    ensures FixMathSpans(("$$" + c0) + t, InlineOpen, InlineClose) == ("$$" + c0) + FixMathSpans(t, InlineOpen, InlineClose)
  {
    FixSpansPlainPrefix("$$" + c0, t, InlineOpen, InlineClose);
  }

  lemma MathOutputShape(c0: string, x1: string, x2: string, y3: string)
    ensures MathOutput(c0, x1, x2, y3) == ("$$" + c0) + ([BS] + (x1 + ([BS] + (x2 + ("[" + (y3 + "]$$"))))))
  {
  }

  lemma MathInline(c0: string, x1: string, x2: string, y3: string)
    requires MathPieces(c0, x1, x2, y3)
    ensures FixMathSpans(MathOutput(c0, x1, x2, y3), InlineOpen, InlineClose) == MathOutput(c0, x1, x2, y3)
  {
    var tail := "[" + (y3 + "]$$");
    var t2 := [BS] + (x2 + tail);
    var t1 := [BS] + (x1 + t2);
    FindMissing(tail, InlineOpen, BS);
    FixSpansPlain(tail, InlineOpen, InlineClose);
    InlineSkipCommand(x2, tail);
    InlineSkipCommand(x1, t2);
    InlinePrefix(c0, t1);
    MathOutputShape(c0, x1, x2, y3);
  }

  /** Inside display math, `\[` and `\]` lose their backslash; `\mu` and `\frac` keep theirs. */
  lemma MathBracketsRepaired()
    ensures SanitizeLatex(MathInput(" I_D = ", "mu_n C_{ox}", "frac{W}{L}", "(V_{GS}-V_T)V_{DS}"))
      == MathOutput(" I_D = ", "mu_n C_{ox}", "frac{W}{L}", "(V_{GS}-V_T)V_{DS}")
  {
    var c0, x1, x2, y3 := " I_D = ", "mu_n C_{ox}", "frac{W}{L}", "(V_{GS}-V_T)V_{DS}";
    assert MathPieces(c0, x1, x2, y3);
    MathStage1(c0, x1, x2, y3);
    MathStage2(c0, x1, x2, y3);
    MathDisplay(c0, x1, x2, y3);
    MathInline(c0, x1, x2, y3);
  }

  /** Stage 1 on three backslashes before a letter: the pair scan collapses the last two. */
  lemma ThreeBackslashesStage1()
    ensures CollapseCommandBackslashes([BS, BS, BS, 'a']) == [BS, BS, 'a']
  {
    var s := [BS, BS, BS, 'a'];
    assert !PairAt(s);
    assert s[1..] == [BS, BS] + "a";
    PairsAtPair("a");
    CommandBackslashesPlain("a");
    assert CollapseCommandPairs(s) == [BS] + CollapseCommandPairs(s[1..]);
    RunsAtShort([BS, BS], "a");
  }

  /** Three backslashes before a letter come out as two. */
  lemma ThreeBackslashes()
    ensures SanitizeLatex([BS, BS, BS, 'a']) == [BS, BS, 'a']
  {
    ThreeBackslashesStage1();
    LaterStagesKeep([BS, BS, 'a']);
  }

  /** Two backslashes before a letter collapse to one. */
  lemma TwoBackslashes()
    ensures SanitizeLatex([BS, BS, 'a']) == [BS, 'a']
  {
    assert [BS, BS, 'a'] == [BS, BS] + "a";
    LeadingPairStage1("a");
    CommandBackslashesPlain("a");
    LaterStagesKeep([BS, 'a']);
  }

  /**
   * The sanitizer is not idempotent: the two backslashes the first pass
   * leaves before a letter are collapsed by a second pass.
   */
  lemma SanitizeNotIdempotent()
    ensures SanitizeLatex(SanitizeLatex([BS, BS, BS, 'a'])) != SanitizeLatex([BS, BS, BS, 'a'])
  {
    ThreeBackslashes();
    TwoBackslashes();
  }
}
