/**
 * `sanitize_latex` of app.py and its helpers. Every `re.sub` there is one
 * left-to-right scan that tries the pattern at each position, replaces a match
 * and resumes after it, or copies one character and moves on; each scan below
 * is that loop written as a recursive function over the text.
 */
module Latex {
  import opened Wrappers
  import opened Text

  const BS: char := '\\'

  /** What the lookahead `[A-Za-z\[\]]` of app.py:75 accepts. */
  predicate IsCommandChar(c: char) {
    'A' <= c <= 'Z' || 'a' <= c <= 'z' || c == '[' || c == ']'
  }

  // ---------------------------------------------------------------------------
  // Stage 1: `_collapse_command_backslashes`
  // ---------------------------------------------------------------------------

  /** The pattern `\\\\(?=[A-Za-z\[\]])` of app.py:75 matches at the start of `s`. */
  predicate PairAt(s: string) {
    |s| >= 3 && s[0] == BS && s[1] == BS && IsCommandChar(s[2])
  }

  /**
   * `re.sub(r"\\\\(?=[A-Za-z\[\]])", r"\\", s)`: two backslashes before a letter
   * or bracket become one. At each position the scan emits the first
   * character (the one backslash of the replacement, on a match) and moves past
   * the match or past that one character.
   */
  function CollapseCommandPairs(s: string): (r: string)
    ensures |r| <= |s|
    decreases |s|
  {
    if s == [] then []
    else
      var w := if PairAt(s) then 2 else 1;
      [s[0]] + CollapseCommandPairs(s[w..])
  }

  /**
   * Emitting the first character of `s` and skipping backslashes up to `w`
   * keeps every non-backslash.
   */
  lemma DropAfterSkip(s: string, w: nat, r: string)
    requires 1 <= w <= |s|
    requires forall i :: 1 <= i < w ==> s[i] == BS
    requires Drop(r, Backslash) == Drop(s[w..], Backslash)
    ensures Drop([s[0]] + r, Backslash) == Drop(s, Backslash)
  {
    assert s == [s[0]] + s[1..w] + s[w..];
    DropConcat([s[0]] + s[1..w], s[w..], Backslash);
    DropConcat([s[0]], s[1..w], Backslash);
    assert All(s[1..w], Backslash) by {
      forall i | 0 <= i < w - 1 ensures s[1..w][i] == BS {
        assert s[1..w][i] == s[i + 1];
      }
    }
    DropAll(s[1..w], Backslash);
    DropConcat([s[0]], r, Backslash);
  }

  /** The pair scan only ever drops backslashes: the other characters come out unchanged and in order. */
  lemma {:induction false} CommandPairsDrop(s: string)
    ensures Drop(CollapseCommandPairs(s), Backslash) == Drop(s, Backslash)
    decreases |s|
  {
    if s != [] {
      var w := if PairAt(s) then 2 else 1;
      CommandPairsDrop(s[w..]);
      DropAfterSkip(s, w, CollapseCommandPairs(s[w..]));
    }
  }

  /** The pair scan keeps the last character of the text. */
  lemma {:induction false} CommandPairsLast(s: string)
    ensures var r := CollapseCommandPairs(s); s != [] ==> r != [] && r[|r| - 1] == s[|s| - 1]
    decreases |s|
  {
    if |s| > 1 {
      var w := if PairAt(s) then 2 else 1;
      CommandPairsLast(s[w..]);
    }
  }

  /** The number of backslashes `s` starts with. */
  function LeadingBackslashes(s: string): (n: nat)
    ensures n <= |s|
  {
    if s != [] && s[0] == BS then 1 + LeadingBackslashes(s[1..]) else 0
  }

  /** The leading run is all backslashes and is followed by something else. */
  lemma {:induction false} LeadingBackslashesRun(s: string)
    ensures var n := LeadingBackslashes(s);
      (forall i :: 0 <= i < n ==> s[i] == BS) && (n < |s| ==> s[n] != BS)
    decreases |s|
  {
    if s != [] && s[0] == BS {
      LeadingBackslashesRun(s[1..]);
    }
  }

  /** No three backslashes in a row anywhere in `r`. */
  predicate NoTripleBackslash(r: string) {
    forall i :: 0 <= i && i + 2 < |r| ==> !(r[i] == BS && r[i + 1] == BS && r[i + 2] == BS)
  }

  /** How far the run scan moves at the start of a non-empty `s`: past a run of three or more backslashes, or past one character. */
  function RunStep(s: string): (w: nat)
    requires s != []
    ensures 1 <= w <= |s|
  {
    var n := LeadingBackslashes(s);
    if n >= 3 then n else 1
  }

  /**
   * `re.sub(r"\\{3,}", r"\\", s)`: a run of three or more backslashes becomes
   * one; runs of one or two are copied.
   */
  function CollapseBackslashRuns(s: string): (r: string)
    ensures |r| <= |s|
    decreases |s|
  {
    if s == [] then [] else [s[0]] + CollapseBackslashRuns(s[RunStep(s)..])
  }

  /** The run scan only ever drops backslashes. */
  lemma {:induction false} BackslashRunsDrop(s: string)
    ensures Drop(CollapseBackslashRuns(s), Backslash) == Drop(s, Backslash)
    decreases |s|
  {
    if s != [] {
      var w := RunStep(s);
      BackslashRunsDrop(s[w..]);
      LeadingBackslashesRun(s);
      DropAfterSkip(s, w, CollapseBackslashRuns(s[w..]));
    }
  }

  /**
   * After the run scan the text starts with one backslash where it started with
   * a run of three or more, and with as many as before otherwise, and it holds
   * no run of three backslashes anywhere.
   */
  lemma {:induction false} BackslashRunsNoTriple(s: string)
    ensures var r := CollapseBackslashRuns(s);
      LeadingBackslashes(r) == (if LeadingBackslashes(s) >= 3 then 1 else LeadingBackslashes(s))
      && NoTripleBackslash(r)
    decreases |s|
  {
    if s != [] {
      var n := LeadingBackslashes(s);
      var w := RunStep(s);
      var rest := CollapseBackslashRuns(s[w..]);
      BackslashRunsNoTriple(s[w..]);
      assert ([s[0]] + rest)[1..] == rest;
      if n >= 3 {
        LeadingBackslashesRun(s);
        assert LeadingBackslashes(s[w..]) == 0;
      } else {
        assert s[0] == BS ==> LeadingBackslashes(s[1..]) == n - 1;
      }
      PrependKeepsNoTriple(s[0], rest);
    }
  }

  lemma PrependKeepsNoTriple(c: char, r: string)
    requires NoTripleBackslash(r)
    requires LeadingBackslashes([c] + r) < 3
    ensures NoTripleBackslash([c] + r)
  {
    var t := [c] + r;
    LeadingBackslashesRun(t);
    forall i | 0 <= i && i + 2 < |t|
      ensures !(t[i] == BS && t[i + 1] == BS && t[i + 2] == BS)
    {
      if i > 0 {
        assert t[i] == r[i - 1] && t[i + 1] == r[i] && t[i + 2] == r[i + 1];
      }
    }
  }

  /** Stage 1 of the pipeline, `_collapse_command_backslashes`. */
  function CollapseCommandBackslashes(s: string): (r: string)
    ensures |r| <= |s|
  {
    CollapseBackslashRuns(CollapseCommandPairs(s))
  }

  /**
   * After stage 1 no three backslashes stand in a row, and only backslashes
   * were removed.
   */
  lemma CommandBackslashesSafe(s: string)
    ensures NoTripleBackslash(CollapseCommandBackslashes(s))
    ensures Drop(CollapseCommandBackslashes(s), Backslash) == Drop(s, Backslash)
  {
    var p := CollapseCommandPairs(s);
    CommandPairsDrop(s);
    BackslashRunsDrop(p);
    BackslashRunsNoTriple(p);
  }

  /** The pair scan never looks across a boundary that follows a non-backslash. */
  lemma {:induction false} CommandPairsSplit(a: string, t: string)
    requires a == [] || a[|a| - 1] != BS
    ensures CollapseCommandPairs(a + t) == CollapseCommandPairs(a) + CollapseCommandPairs(t)
    decreases |a|
  {
    if a == [] {
      assert a + t == t;
    } else {
      PairAtSplit(a, t);
      var w := if PairAt(a) then 2 else 1;
      assert (a + t)[w..] == a[w..] + t;
      CommandPairsSplit(a[w..], t);
    }
  }

  lemma PairAtSplit(a: string, t: string)
    requires a != [] && a[|a| - 1] != BS
    ensures PairAt(a + t) == PairAt(a)
  {
    if PairAt(a + t) {
      assert a[0] == BS && a[1] == BS && |a| >= 3 && a[2] == (a + t)[2];
    }
  }

  lemma {:induction false} LeadingBackslashesSplit(a: string, t: string)
    requires a != [] && a[|a| - 1] != BS
    ensures LeadingBackslashes(a + t) == LeadingBackslashes(a) < |a|
    decreases |a|
  {
    if a[0] == BS {
      assert (a + t)[1..] == a[1..] + t;
      LeadingBackslashesSplit(a[1..], t);
    }
  }

  /** The run scan never looks across a boundary that follows a non-backslash. */
  lemma {:induction false} BackslashRunsSplit(a: string, t: string)
    requires a == [] || a[|a| - 1] != BS
    ensures CollapseBackslashRuns(a + t) == CollapseBackslashRuns(a) + CollapseBackslashRuns(t)
    decreases |a|
  {
    if a == [] {
      assert a + t == t;
    } else {
      LeadingBackslashesSplit(a, t);
      var w := RunStep(a);
      assert (a + t)[w..] == a[w..] + t;
      BackslashRunsSplit(a[w..], t);
    }
  }

  /** A text without backslashes passes stage 1 unchanged. */
  lemma {:induction false} CommandBackslashesPlain(s: string)
    requires BS !in s
    ensures CollapseCommandPairs(s) == s
    ensures CollapseBackslashRuns(s) == s
    ensures CollapseCommandBackslashes(s) == s
    decreases |s|
  {
    if s != [] {
      CommandBackslashesPlain(s[1..]);
    }
  }

  /** The pair scan on a text that starts with exactly two backslashes. */
  lemma PairsAtPair(b: string)
    requires b == [] || b[0] != BS
    ensures CollapseCommandPairs([BS, BS] + b) ==
      (if b != [] && IsCommandChar(b[0]) then [BS] else [BS, BS]) + CollapseCommandPairs(b)
  {
    if b != [] && IsCommandChar(b[0]) {
      assert ([BS, BS] + b)[2..] == b;
    } else {
      assert ([BS, BS] + b)[1..] == [BS] + b;
      assert ([BS] + b)[1..] == b;
    }
  }

  /** The pair scan keeps the first character of a text that does not start with a backslash. */
  lemma PairsHead(b: string)
    requires b != [] && b[0] != BS
    ensures var cb := CollapseCommandPairs(b); cb != [] && cb[0] == b[0]
  {
  }

  /** The run scan copies one or two backslashes followed by a non-backslash. */
  lemma RunsAtShort(p: string, c: string)
    requires p == [BS] || p == [BS, BS]
    requires c == [] || c[0] != BS
    ensures CollapseBackslashRuns(p + c) == p + CollapseBackslashRuns(c)
  {
    if |p| == 1 {
      assert (p + c)[1..] == c;
    } else {
      assert (p + c)[1..] == [BS] + c;
      assert ([BS] + c)[1..] == c;
    }
  }

  /**
   * A lone pair of backslashes (no backslash on either side) is collapsed to one
   * backslash when a letter or square bracket follows it, and otherwise, as
   * before a space, a line end or the end of the text, survives as two; the
   * text on either side is processed on its own.
   */
  lemma CommandBackslashesPair(a: string, b: string)
    requires a == [] || a[|a| - 1] != BS
    requires b == [] || b[0] != BS
    ensures CollapseCommandBackslashes(a + ([BS, BS] + b)) ==
      CollapseCommandBackslashes(a)
      + ((if b != [] && IsCommandChar(b[0]) then [BS] else [BS, BS]) + CollapseCommandBackslashes(b))
  {
    var p := if b != [] && IsCommandChar(b[0]) then [BS] else [BS, BS];
    var ca := CollapseCommandPairs(a);
    var cb := CollapseCommandPairs(b);
    PairsAroundPair(a, b);
    CommandPairsLast(a);
    if b != [] {
      PairsHead(b);
    }
    RunsAroundShort(ca, p, cb);
  }

  /** A lone backslash, with no backslash on either side, survives stage 1. */
  lemma CommandBackslashesLone(a: string, b: string)
    requires a == [] || a[|a| - 1] != BS
    requires b == [] || b[0] != BS
    ensures CollapseCommandBackslashes(a + ([BS] + b)) ==
      CollapseCommandBackslashes(a) + ([BS] + CollapseCommandBackslashes(b))
  {
    var ca := CollapseCommandPairs(a);
    var cb := CollapseCommandPairs(b);
    CommandPairsSplit(a, [BS] + b);
    assert ([BS] + b)[1..] == b;
    CommandPairsLast(a);
    if b != [] {
      PairsHead(b);
    }
    RunsAroundShort(ca, [BS], cb);
  }

  /** `n` backslashes. */
  function Backslashes(n: nat): (r: string)
    ensures |r| == n && All(r, Backslash)
  {
    seq(n, _ => BS)
  }

  /** A run of `n` backslashes counts as `n` leading backslashes, whatever non-backslash follows. */
  lemma {:induction false} LeadingBackslashesOf(n: nat, c: string)
    requires c == [] || c[0] != BS
    ensures LeadingBackslashes(Backslashes(n) + c) == n
  {
    if n > 0 {
      assert (Backslashes(n) + c)[1..] == Backslashes(n - 1) + c;
      LeadingBackslashesOf(n - 1, c);
    }
  }

  /** One more backslash in front of a run. */
  lemma BackslashesCons(n: nat)
    requires n >= 1
    ensures [BS] + Backslashes(n - 1) == Backslashes(n)
  {
  }

  /** Three backslashes in a row are no pair before a letter, so the first is copied. */
  lemma PairsSkipOne(n: nat, b: string)
    requires n >= 3
    ensures CollapseCommandPairs(Backslashes(n) + b) == [BS] + CollapseCommandPairs(Backslashes(n - 1) + b)
  {
    var s := Backslashes(n) + b;
    assert s[1..] == Backslashes(n - 1) + b;
    assert s[0] == BS && s[2] == BS;
  }

  /**
   * The pair scan on a run of `n` backslashes: only the last two of the run can
   * stand before a letter or bracket, so the run loses one backslash exactly
   * when it has at least two and one of those follows it.
   */
  lemma {:induction false} PairsAtRun(n: nat, b: string)
    requires b == [] || b[0] != BS
    ensures CollapseCommandPairs(Backslashes(n) + b) ==
      Backslashes(if n >= 2 && b != [] && IsCommandChar(b[0]) then n - 1 else n) + CollapseCommandPairs(b)
  {
    var s := Backslashes(n) + b;
    if n == 0 {
      assert s == b;
    } else if n == 1 {
      assert s[1..] == b;
    } else if n == 2 {
      assert Backslashes(2) == [BS, BS];
      PairsAtPair(b);
    } else {
      var m := if b != [] && IsCommandChar(b[0]) then n - 1 else n;
      PairsSkipOne(n, b);
      PairsAtRun(n - 1, b);
      BackslashesCons(m);
      ConcatAssoc([BS], Backslashes(m - 1), CollapseCommandPairs(b));
    }
  }

  /** The run scan on a run of `m` backslashes: three or more become one, shorter runs are copied. */
  lemma RunsAtRun(m: nat, c: string)
    requires c == [] || c[0] != BS
    ensures CollapseBackslashRuns(Backslashes(m) + c) == Backslashes(if m >= 3 then 1 else m) + CollapseBackslashRuns(c)
  {
    var s := Backslashes(m) + c;
    if m == 0 {
      assert s == c;
    } else if m >= 3 {
      LeadingBackslashesOf(m, c);
      assert s[m..] == c;
      assert Backslashes(1) == [s[0]];
    } else {
      assert Backslashes(1) == [BS];
      assert Backslashes(2) == [BS, BS];
      RunsAtShort(Backslashes(m), c);
    }
  }

  /**
   * Stage 1 on a run of `n` backslashes with no backslash on either side. The
   * first substitution takes one backslash off a run of two or more before a
   * letter or square bracket. The second then collapses what is left to a
   * single backslash when three or more remain and keeps it otherwise. So a
   * lone pair before a letter gives one, three give two, four or more give
   * one; before anything else a run of one or two is kept and longer runs
   * give one. The text on either side is processed on its own.
   */
  lemma CommandBackslashesRun(a: string, n: nat, b: string)
    requires a == [] || a[|a| - 1] != BS
    requires b == [] || b[0] != BS
    ensures var m := if n >= 2 && b != [] && IsCommandChar(b[0]) then n - 1 else n;
      CollapseCommandBackslashes(a + (Backslashes(n) + b)) ==
      CollapseCommandBackslashes(a) + (Backslashes(if m >= 3 then 1 else m) + CollapseCommandBackslashes(b))
  {
    var m := if n >= 2 && b != [] && IsCommandChar(b[0]) then n - 1 else n;
    var ca := CollapseCommandPairs(a);
    var cb := CollapseCommandPairs(b);
    CommandPairsSplit(a, Backslashes(n) + b);
    PairsAtRun(n, b);
    CommandPairsLast(a);
    if b != [] {
      PairsHead(b);
    }
    BackslashRunsSplit(ca, Backslashes(m) + cb);
    RunsAtRun(m, cb);
  }

  /** The run scan around one or two backslashes that stand alone. */
  lemma RunsAroundShort(ca: string, p: string, cb: string)
    requires ca == [] || ca[|ca| - 1] != BS
    requires p == [BS] || p == [BS, BS]
    requires cb == [] || cb[0] != BS
    ensures CollapseBackslashRuns(ca + (p + cb)) == CollapseBackslashRuns(ca) + (p + CollapseBackslashRuns(cb))
  {
    BackslashRunsSplit(ca, p + cb);
    RunsAtShort(p, cb);
  }

  /** Stage 1's first scan around a lone pair of backslashes. */
  lemma PairsAroundPair(a: string, b: string)
    requires a == [] || a[|a| - 1] != BS
    requires b == [] || b[0] != BS
    ensures CollapseCommandPairs(a + ([BS, BS] + b)) ==
      CollapseCommandPairs(a)
      + ((if b != [] && IsCommandChar(b[0]) then [BS] else [BS, BS]) + CollapseCommandPairs(b))
  {
    CommandPairsSplit(a, [BS, BS] + b);
    PairsAtPair(b);
  }
  // ---------------------------------------------------------------------------
  // Stage 2: spacing directives such as `[6pt]` (app.py:89)
  // ---------------------------------------------------------------------------

  /** The units `(?:pt|em|ex|mm|cm|in|bp|px)`. */
  predicate IsUnit(u: string) {
    u == "pt" || u == "em" || u == "ex" || u == "mm" || u == "cm" || u == "in" || u == "bp" || u == "px"
  }

  lemma UnitLetters(u: string)
    requires IsUnit(u)
    ensures |u| == 2 && 'a' <= u[0] <= 'z'
  {
  }

  /**
   * A text matched by `\[\s*\d+(?:\.\d+)?\s*(?:pt|em|ex|mm|cm|in|bp|px)\s*\]`,
   * cut along the parts of the pattern: the spaces after `[`, the whole
   * digits, the fraction (a dot and digits, or nothing), the spaces before the
   * unit, the unit, and the spaces before `]`.
   */
  datatype Directive = Directive(lead: string, whole: string, frac: string, gap: string, unit: string, trail: string)

  /** `(?:\.\d+)?`: nothing, or a dot followed by at least one digit. */
  predicate IsFrac(f: string) {
    f == [] || (|f| >= 2 && f[0] == '.' && All(f[1..], Digit))
  }

  predicate WellFormed(d: Directive) {
    && All(d.lead, Whitespace)
    && d.whole != [] && All(d.whole, Digit)
    && IsFrac(d.frac)
    && All(d.gap, Whitespace)
    && IsUnit(d.unit)
    && All(d.trail, Whitespace)
  }

  /** The text of `d`, then `t`. */
  function RenderThen(d: Directive, t: string): string {
    ['['] + (d.lead + (d.whole + (d.frac + (d.gap + (d.unit + (d.trail + ([']'] + t)))))))
  }

  /** The optional fraction at the start of `s`, and the rest. */
  function FracSpan(s: string): (r: (string, string))
    ensures |r.0| + |r.1| == |s|
  {
    if |s| >= 2 && s[0] == '.' && IsDigit(s[1]) then
      var (digits, rest) := Span(s[1..], Digit);
      (['.'] + digits, rest)
    else ([], s)
  }

  lemma FracSpanParts(s: string)
    ensures FracSpan(s).0 + FracSpan(s).1 == s
    ensures IsFrac(FracSpan(s).0)
  {
    if |s| >= 2 && s[0] == '.' && IsDigit(s[1]) {
      SpanJoin(s[1..], Digit);
      SpanStops(s[1..], Digit);
      var (digits, rest) := Span(s[1..], Digit);
      assert (['.'] + digits)[1..] == digits;
      assert ['.'] + digits + rest == ['.'] + (digits + rest);
      assert digits != [] by {
        assert s[1..][0] == s[1];
      }
    }
  }

  lemma FracSpanRun(f: string, t: string)
    requires IsFrac(f)
    requires t == [] || (t[0] != '.' && !IsDigit(t[0]))
    ensures FracSpan(f + t) == (f, t)
  {
    if f != [] {
      assert (f + t)[1..] == f[1..] + t;
      SpanRun(f[1..], t, Digit);
      assert ['.'] + f[1..] == f;
    } else {
      assert f + t == t;
    }
  }

  /**
   * The directive pattern tried at the start of `s`: the directive and the
   * text after it, or `None`. Neighbouring parts of the pattern draw on
   * character classes that do not overlap, so the pattern matches exactly
   * when this greedy left-to-right reading succeeds, and the match is the one
   * it reads.
   */
  function ParseDirective(s: string): (r: Option<(Directive, string)>)
    ensures r.Some? ==> |r.value.1| < |s|
  {
    if s == [] || s[0] != '[' then None
    else
      var (lead, s2) := Span(s[1..], Whitespace);
      var (whole, s3) := Span(s2, Digit);
      var (frac, s4) := FracSpan(s3);
      var (gap, s5) := Span(s4, Whitespace);
      if whole == [] || |s5| < 2 || !IsUnit(s5[..2]) then None
      else
        var (trail, s7) := Span(s5[2..], Whitespace);
        if s7 == [] || s7[0] != ']' then None
        else Some((Directive(lead, whole, frac, gap, s5[..2], trail), s7[1..]))
  }

  /** What is read is a well-formed directive. */
  lemma DirectiveWellFormed(s: string)
    ensures var r := ParseDirective(s); r.Some? ==> WellFormed(r.value.0)
  {
    if ParseDirective(s).Some? {
      var s1 := s[1..];
      var (lead, s2) := Span(s1, Whitespace);
      var (whole, s3) := Span(s2, Digit);
      var (frac, s4) := FracSpan(s3);
      var (gap, s5) := Span(s4, Whitespace);
      SpanStops(s1, Whitespace);
      SpanStops(s2, Digit);
      FracSpanParts(s3);
      SpanStops(s4, Whitespace);
      SpanStops(s5[2..], Whitespace);
    }
  }

  /** What is read is exactly the text it was read from. */
  lemma DirectiveRenders(s: string)
    ensures var r := ParseDirective(s); r.Some? ==> s == RenderThen(r.value.0, r.value.1)
  {
    if ParseDirective(s).Some? {
      var s1 := s[1..];
      var (lead, s2) := Span(s1, Whitespace);
      var (whole, s3) := Span(s2, Digit);
      var (frac, s4) := FracSpan(s3);
      var (gap, s5) := Span(s4, Whitespace);
      var (trail, s7) := Span(s5[2..], Whitespace);
      SpanJoin(s1, Whitespace);
      SpanJoin(s2, Digit);
      FracSpanParts(s3);
      SpanJoin(s4, Whitespace);
      SpanJoin(s5[2..], Whitespace);
      SliceTwo(s5, 2);
      HeadSplit(s7);
      HeadSplit(s);
      RenderOfParts(s, s1, lead, s2, whole, s3, frac, s4, gap, s5, s5[..2], s5[2..], trail, s7, s7[1..]);
      assert ParseDirective(s) == Some((Directive(lead, whole, frac, gap, s5[..2], trail), s7[1..]));
    }
  }

  /** Text assembled piece by piece is the rendering of the directive made of those pieces. */
  lemma RenderOfParts(s: string, s1: string, lead: string, s2: string, whole: string, s3: string, frac: string,
                      s4: string, gap: string, s5: string, unit: string, s6: string, trail: string, s7: string, t: string)
    requires s == ['['] + s1 && s1 == lead + s2 && s2 == whole + s3 && s3 == frac + s4
    requires s4 == gap + s5 && s5 == unit + s6 && s6 == trail + s7 && s7 == [']'] + t
    ensures s == RenderThen(Directive(lead, whole, frac, gap, unit, trail), t)
  {
  }

  /** What is read is a well-formed directive, and it is exactly the text it was read from. */
  lemma DirectiveSound(s: string)
    ensures var r := ParseDirective(s);
      r.Some? ==> WellFormed(r.value.0) && s == RenderThen(r.value.0, r.value.1)
  {
    DirectiveWellFormed(s);
    DirectiveRenders(s);
  }

  /** A well-formed directive is read back whole, whatever follows it. */
  lemma DirectiveRoundTrip(d: Directive, t: string)
    requires WellFormed(d)
    ensures ParseDirective(RenderThen(d, t)) == Some((d, t))
  {
    UnitLetters(d.unit);
    var r5 := d.trail + ([']'] + t);
    var r4 := d.unit + r5;
    var r3 := d.gap + r4;
    var r2 := d.frac + r3;
    var r1 := d.whole + r2;
    var s := RenderThen(d, t);
    assert s[1..] == d.lead + r1;
    assert r4[0] == d.unit[0];
    assert r3[0] == if d.gap == [] then d.unit[0] else d.gap[0];
    assert r2[0] == if d.frac == [] then r3[0] else '.';
    assert r1[0] == d.whole[0];
    SpanRun(d.lead, r1, Whitespace);
    SpanRun(d.whole, r2, Digit);
    FracSpanRun(d.frac, r3);
    SpanRun(d.gap, r4, Whitespace);
    assert r4[..2] == d.unit && r4[2..] == r5;
    SpanRun(d.trail, [']'] + t, Whitespace);
  }
  /**
   * `re.sub(r"\[\s*\d+(?:\.\d+)?\s*(?:pt|em|ex|mm|cm|in|bp|px)\s*\]", "", s)`:
   * the scan tries the directive pattern at each position, drops a match and
   * resumes after it, or copies one character. The text around a directive,
   * spaces included, is kept.
   */
  function RemoveSpacingDirectives(s: string): (r: string)
    ensures |r| <= |s|
    decreases |s|
  {
    if s == [] then []
    else
      match ParseDirective(s)
      case Some((_, rest)) => RemoveSpacingDirectives(rest)
      case None => [s[0]] + RemoveSpacingDirectives(s[1..])
  }

  /** A `[` followed by neither a space nor a digit does not open a directive and is copied. */
  lemma RemoveAtBracket(t: string)
    requires t == [] || (!IsSpace(t[0]) && !IsDigit(t[0]))
    ensures RemoveSpacingDirectives(['['] + t) == ['['] + RemoveSpacingDirectives(t)
  {
    var s := ['['] + t;
    assert s[1..] == t;
    SpanRun([], t, Whitespace);
    SpanRun([], t, Digit);
    assert [] + t == t;
  }

  /** Text without `[` is copied: no directive can start in it. */
  lemma {:induction false} RemovePlainPrefix(a: string, t: string)
    requires '[' !in a
    ensures RemoveSpacingDirectives(a + t) == a + RemoveSpacingDirectives(t)
    decreases |a|
  {
    if a == [] {
      assert a + t == t;
    } else {
      assert (a + t)[1..] == a[1..] + t;
      RemovePlainPrefix(a[1..], t);
      assert [a[0]] + (a[1..] + RemoveSpacingDirectives(t)) == a + RemoveSpacingDirectives(t);
    }
  }

  /** A text without `[` passes stage 2 unchanged. */
  lemma RemovePlain(s: string)
    requires '[' !in s
    ensures RemoveSpacingDirectives(s) == s
  {
    RemovePlainPrefix(s, []);
    assert s + [] == s;
  }

  /** No directive starts anywhere in `a`, read on its own. */
  predicate NoDirectiveIn(a: string) {
    forall i :: 0 <= i < |a| ==> ParseDirective(a[i..]).None?
  }

  /** Text without `[` holds no directive. */
  lemma NoDirectiveInPlain(a: string)
    requires '[' !in a
    ensures NoDirectiveIn(a)
  {
    forall i | 0 <= i < |a| ensures ParseDirective(a[i..]).None? {
      assert a[i..][0] == a[i];
    }
  }

  /** A directive after its opening `[`: the spaces, digits, fraction, unit and `]`. */
  function Body(d: Directive): string {
    d.lead + (d.whole + (d.frac + (d.gap + (d.unit + (d.trail + [']'])))))
  }

  lemma RenderBody(d: Directive, t: string)
    ensures RenderThen(d, t) == ['['] + (Body(d) + t)
  {
    var p6 := d.trail + [']'];
    var p5 := d.unit + p6;
    var p4 := d.gap + p5;
    var p3 := d.frac + p4;
    var p2 := d.whole + p3;
    ConcatAssoc(d.trail, [']'], t);
    ConcatAssoc(d.unit, p6, t);
    ConcatAssoc(d.gap, p5, t);
    ConcatAssoc(d.frac, p4, t);
    ConcatAssoc(d.whole, p3, t);
    ConcatAssoc(d.lead, p2, t);
  }

  /** Only the first character of a directive is a `[`. */
  lemma BodyNoBracket(d: Directive)
    requires WellFormed(d)
    ensures '[' !in Body(d)
  {
    assert '[' !in d.lead && '[' !in d.whole && '[' !in d.gap && '[' !in d.trail;
    assert '[' !in d.frac by {
      if d.frac != [] {
        assert forall i :: 1 <= i < |d.frac| ==> d.frac[i] == d.frac[1..][i - 1];
      }
    }
    assert '[' !in d.unit;
  }

  /** A directive that fits inside `x` is read from `x` alone. */
  lemma DirectiveWithin(x: string, t: string, d: Directive, r: string)
    requires WellFormed(d)
    requires x + t == ['['] + (Body(d) + r) && |x| >= 1 + |Body(d)|
    ensures ParseDirective(x).Some?
  {
    var p := ['['] + Body(d);
    ConcatAssoc(['['], Body(d), r);
    var y := x[|p|..];
    assert x[..|p|] == (x + t)[..|p|];
    assert (p + r)[..|p|] == p;
    SliceTwo(x, |p|);
    ConcatAssoc(['['], Body(d), y);
    RenderBody(d, y);
    DirectiveRoundTrip(d, y);
  }

  /** Past its first character, a directive holds no `[`. */
  lemma BracketOnlyFirst(d: Directive, r: string, k: nat)
    requires WellFormed(d) && 1 <= k < 1 + |Body(d)|
    ensures (['['] + (Body(d) + r))[k] != '['
  {
    BodyNoBracket(d);
    assert (['['] + (Body(d) + r))[k] == Body(d)[k - 1];
  }

  /**
   * A directive that does not start at the beginning of `x` cannot start
   * there once a `[` follows `x` either: it would have to end before that `[`.
   */
  lemma DirectiveStopsAtBracket(x: string, t: string)
    requires x != [] && ParseDirective(x).None?
    requires t == [] || t[0] == '['
    ensures ParseDirective(x + t).None?
  {
    if t == [] {
      assert x + t == x;
    } else if ParseDirective(x + t).Some? {
      var (d, r) := ParseDirective(x + t).value;
      DirectiveSound(x + t);
      RenderBody(d, r);
      if |x| >= 1 + |Body(d)| {
        DirectiveWithin(x, t, d, r);
      } else {
        BracketOnlyFirst(d, r, |x|);
      }
    }
  }

  /**
   * Text in which no directive starts is copied when a `[` or nothing follows
   * it: `[0, 1]` or `[1]` are kept, and the scan goes on after them.
   */
  lemma {:induction false} RemoveBeforeBracket(a: string, t: string)
    requires NoDirectiveIn(a)
    requires t == [] || t[0] == '['
    ensures RemoveSpacingDirectives(a + t) == a + RemoveSpacingDirectives(t)
    decreases |a|
  {
    if a == [] {
      assert a + t == t;
    } else {
      assert a[0..] == a;
      DirectiveStopsAtBracket(a, t);
      assert (a + t)[1..] == a[1..] + t;
      assert NoDirectiveIn(a[1..]) by {
        forall i | 0 <= i < |a| - 1 ensures ParseDirective(a[1..][i..]).None? {
          assert a[1..][i..] == a[i + 1..];
        }
      }
      RemoveBeforeBracket(a[1..], t);
      HeadSplit(a);
      ConcatAssoc([a[0]], a[1..], RemoveSpacingDirectives(t));
    }
  }

  /** A text in which no directive starts passes stage 2 unchanged. */
  lemma RemoveNone(s: string)
    requires NoDirectiveIn(s)
    ensures RemoveSpacingDirectives(s) == s
  {
    RemoveBeforeBracket(s, []);
    assert s + [] == s;
  }

  /**
   * A directive after text in which none starts is removed whole and nothing
   * else is: the spaces on either side stay, so `a [6pt] b` becomes `a  b`,
   * and `[0, 1] [6pt]` becomes `[0, 1] `.
   */
  lemma RemoveDirective(a: string, d: Directive, b: string)
    requires NoDirectiveIn(a)
    requires WellFormed(d)
    ensures RemoveSpacingDirectives(a + RenderThen(d, b)) == a + RemoveSpacingDirectives(b)
  {
    RemoveBeforeBracket(a, RenderThen(d, b));
    DirectiveRoundTrip(d, b);
  }

  lemma AllDirectiveChars(x: string, k: Class)
    requires k == Whitespace || k == Digit
    requires All(x, k)
    ensures All(x, DirectiveChar)
  {
  }

  /** A directive is written only with directive characters. */
  lemma DropRendered(d: Directive, t: string)
    requires WellFormed(d)
    ensures Drop(RenderThen(d, t), DirectiveChar) == Drop(t, DirectiveChar)
  {
    var k := DirectiveChar;
    AllDirectiveChars(d.lead, Whitespace);
    AllDirectiveChars(d.whole, Digit);
    AllDirectiveChars(d.gap, Whitespace);
    AllDirectiveChars(d.trail, Whitespace);
    if d.frac != [] {
      AllDirectiveChars(d.frac[1..], Digit);
      assert All(d.frac, k) by {
        forall i | 1 <= i < |d.frac| ensures In(d.frac[i], k) {
          assert d.frac[i] == d.frac[1..][i - 1];
        }
      }
    }
    assert All(d.unit, k);
    DropAll(['['], k);
    DropAll(d.lead, k);
    DropAll(d.whole, k);
    DropAll(d.frac, k);
    DropAll(d.gap, k);
    DropAll(d.unit, k);
    DropAll(d.trail, k);
    DropAll([']'], k);
    var r6 := [']'] + t;
    var r5 := d.trail + r6;
    var r4 := d.unit + r5;
    var r3 := d.gap + r4;
    var r2 := d.frac + r3;
    var r1 := d.whole + r2;
    var r0 := d.lead + r1;
    DropConcat([']'], t, k);
    DropConcat(d.trail, r6, k);
    DropConcat(d.unit, r5, k);
    DropConcat(d.gap, r4, k);
    DropConcat(d.frac, r3, k);
    DropConcat(d.whole, r2, k);
    DropConcat(d.lead, r1, k);
    DropConcat(['['], r0, k);
  }

  /**
   * Stage 2 removes only characters a directive is written with: every other
   * character survives, in order.
   */
  lemma {:induction false} RemoveKeepsOtherChars(s: string)
    ensures Drop(RemoveSpacingDirectives(s), DirectiveChar) == Drop(s, DirectiveChar)
    decreases |s|
  {
    if s != [] {
      match ParseDirective(s)
      case Some((d, rest)) =>
        DirectiveSound(s);
        RemoveKeepsOtherChars(rest);
        DropRendered(d, rest);
      case None =>
        RemoveKeepsOtherChars(s[1..]);
        DropConcat([s[0]], RemoveSpacingDirectives(s[1..]), DirectiveChar);
        assert s == [s[0]] + s[1..];
        DropConcat([s[0]], s[1..], DirectiveChar);
    }
  }

  // ---------------------------------------------------------------------------
  // Stage 3: `_fix_overescape_in_math` inside math spans (app.py:79-85, 91-93)
  // ---------------------------------------------------------------------------

  /** The characters `= ( ) [ ] + - * / ^ _` of the class in app.py:81. */
  predicate IsMathPunct(c: char) {
    c == '=' || c == '(' || c == ')' || c == '[' || c == ']' || c == '+'
    || c == '-' || c == '*' || c == '/' || c == '^' || c == '_'
  }

  /** The escape pattern of app.py:81, a backslash and one math punctuation character, matches at the start of `m`. */
  predicate EscapeAt(m: string) {
    |m| >= 2 && m[0] == BS && IsMathPunct(m[1])
  }

  /**
   * The `re.sub` of app.py:81: a backslash before math punctuation is
   * deleted. The scan emits the punctuation of a match (or the
   * one character it is at) and moves past it.
   */
  function StripMathEscapes(m: string): (r: string)
    ensures |r| <= |m|
    decreases |m|
  {
    if m == [] then []
    else
      var w := if EscapeAt(m) then 2 else 1;
      [m[w - 1]] + StripMathEscapes(m[w..])
  }

  /** Only backslashes are deleted: every other character survives, in order. */
  lemma {:induction false} MathEscapesDrop(m: string)
    ensures Drop(StripMathEscapes(m), Backslash) == Drop(m, Backslash)
    decreases |m|
  {
    if m != [] {
      var w := if EscapeAt(m) then 2 else 1;
      MathEscapesDrop(m[w..]);
      DropConcat([m[w - 1]], StripMathEscapes(m[w..]), Backslash);
      assert m == m[..w] + m[w..];
      DropConcat(m[..w], m[w..], Backslash);
      if w == 2 {
        assert m[..w] == [BS] + [m[1]];
        DropConcat([BS], [m[1]], Backslash);
      }
    }
  }

  /** A character other than a backslash is copied. */
  lemma MathEscapesCons(c: char, x: string)
    requires c != BS
    ensures StripMathEscapes([c] + x) == [c] + StripMathEscapes(x)
  {
    assert ([c] + x)[1..] == x;
  }

  /** A backslash not followed by math punctuation is copied. */
  lemma MathEscapesBackslash(x: string)
    requires x == [] || !IsMathPunct(x[0])
    ensures StripMathEscapes([BS] + x) == [BS] + StripMathEscapes(x)
  {
    assert ([BS] + x)[1..] == x;
  }

  /** A backslash before math punctuation is deleted. */
  lemma MathEscapesEscape(c: char, x: string)
    requires IsMathPunct(c)
    ensures StripMathEscapes([BS, c] + x) == [c] + StripMathEscapes(x)
  {
    assert ([BS, c] + x)[2..] == x;
  }

  /** A text without backslashes is unchanged. */
  lemma {:induction false} MathEscapesPlain(m: string)
    requires BS !in m
    ensures StripMathEscapes(m) == m
    decreases |m|
  {
    if m != [] {
      MathEscapesPlain(m[1..]);
    }
  }

  /** Text without backslashes in front of the rest is copied. */
  lemma MathEscapesPlainPrefix(a: string, t: string)
    requires BS !in a
    ensures StripMathEscapes(a + t) == a + StripMathEscapes(t)
  {
    MathEscapesSplit(a, t);
    MathEscapesPlain(a);
  }

  /**
   * The scan never looks across a boundary unless an escape straddles it: a
   * backslash ending `a` and math punctuation starting `t`.
   */
  lemma {:induction false} MathEscapesSplit(a: string, t: string)
    requires a == [] || t == [] || a[|a| - 1] != BS || !IsMathPunct(t[0])
    ensures StripMathEscapes(a + t) == StripMathEscapes(a) + StripMathEscapes(t)
    decreases |a|
  {
    if a == [] {
      assert a + t == t;
    } else {
      assert EscapeAt(a + t) == EscapeAt(a) by {
        if |a| == 1 {
          assert (a + t)[0] == a[0];
          if t != [] {
            assert (a + t)[1] == t[0];
          }
        } else {
          assert (a + t)[..2] == a[..2];
        }
      }
      var w := if EscapeAt(a) then 2 else 1;
      var rest := a[w..];
      assert (a + t)[w..] == rest + t;
      assert (a + t)[w - 1] == a[w - 1];
      assert rest == [] || rest[|rest| - 1] == a[|a| - 1];
      MathEscapesSplit(rest, t);
      ConcatAssoc([a[w - 1]], StripMathEscapes(rest), StripMathEscapes(t));
    }
  }

  /**
   * Wherever it stands, a backslash before math punctuation is deleted, and
   * the text on either side is rewritten on its own.
   */
  lemma MathEscapesRemoved(a: string, c: char, b: string)
    requires IsMathPunct(c)
    ensures StripMathEscapes(a + ([BS, c] + b)) == StripMathEscapes(a) + ([c] + StripMathEscapes(b))
  {
    MathEscapesSplit(a, [BS, c] + b);
    MathEscapesEscape(c, b);
  }

  /** Wherever it stands, a backslash not followed by math punctuation is kept. */
  lemma MathEscapesKept(a: string, b: string)
    requires b == [] || !IsMathPunct(b[0])
    ensures StripMathEscapes(a + ([BS] + b)) == StripMathEscapes(a) + ([BS] + StripMathEscapes(b))
  {
    MathEscapesSplit(a, [BS] + b);
    MathEscapesBackslash(b);
  }

  /** `s.replace(pat, rep)`: each occurrence of `pat`, left to right and without overlap, becomes `rep`. */
  function Replace(s: string, pat: string, rep: string): (r: string)
    requires pat != []
    ensures |s| < |pat| ==> r == s
    decreases |s|
  {
    if s == [] then []
    else if StartsWith(s, pat) then rep + Replace(s[|pat|..], pat, rep)
    else [s[0]] + Replace(s[1..], pat, rep)
  }

  /** Text that does not hold the first character of `pat` is copied. */
  lemma {:induction false} ReplacePlainPrefix(a: string, t: string, pat: string, rep: string)
    requires pat != [] && pat[0] !in a
    ensures Replace(a + t, pat, rep) == a + Replace(t, pat, rep)
    decreases |a|
  {
    if a == [] {
      assert a + t == t;
    } else {
      assert (a + t)[1..] == a[1..] + t;
      ReplacePlainPrefix(a[1..], t, pat, rep);
      assert [a[0]] + (a[1..] + Replace(t, pat, rep)) == a + Replace(t, pat, rep);
    }
  }

  /** Text before the first occurrence of `pat` is copied. */
  lemma {:induction false} ReplaceBeforeFirst(a: string, t: string, pat: string, rep: string)
    requires pat != [] && ClosesAtEnd(a, pat)
    ensures Replace(a + (pat + t), pat, rep) == a + Replace(pat + t, pat, rep)
    decreases |a|
  {
    if a == [] {
      assert a + (pat + t) == pat + t;
    } else {
      ClosesAtEndTail(a, pat, t);
      ReplaceBeforeFirst(a[1..], t, pat, rep);
      HeadSplit(a);
      ConcatAssoc([a[0]], a[1..], Replace(pat + t, pat, rep));
    }
  }

  /**
   * The first occurrence is replaced, the text before it is kept, and the
   * replacement goes on after it.
   */
  lemma ReplaceOccurrence(a: string, pat: string, b: string, rep: string)
    requires pat != [] && ClosesAtEnd(a, pat)
    ensures Replace(a + (pat + b), pat, rep) == a + (rep + Replace(b, pat, rep))
  {
    ReplaceBeforeFirst(a, b, pat, rep);
    assert (pat + b)[..|pat|] == pat && (pat + b)[|pat|..] == b;
  }

  /** A text in which `pat` does not occur is unchanged. */
  lemma {:induction false} ReplaceAbsent(s: string, pat: string, rep: string)
    requires pat != [] && Find(s, pat) < 0
    ensures Replace(s, pat, rep) == s
    decreases |s|
  {
    if s != [] {
      ReplaceAbsent(s[1..], pat, rep);
      HeadSplit(s);
    }
  }

  /** The first character of a replacement's result. */
  lemma ReplaceHead(s: string, pat: string, rep: string)
    requires pat != [] && rep != [] && s != []
    ensures var r := Replace(s, pat, rep);
      r != [] && r[0] == (if StartsWith(s, pat) then rep[0] else s[0])
  {
  }

  /** What the escape deletion needs of a replacement `w` to `v` for the replacement to be redundant. */
  predicate Redundant(w: string, v: string) {
    && |w| >= 2 && w[0] == BS && !IsMathPunct(w[1]) && w[|w| - 1] != BS
    && v != [] && v[0] == BS && v[|v| - 1] != BS
    && StripMathEscapes(w) == v && StripMathEscapes(v) == v
  }

  lemma SubsumedAtMatch(s: string, w: string, v: string)
    requires Redundant(w, v) && StartsWith(s, w)
    requires StripMathEscapes(Replace(s[|w|..], w, v)) == StripMathEscapes(s[|w|..])
    ensures StripMathEscapes(Replace(s, w, v)) == StripMathEscapes(s)
  {
    var t := s[|w|..];
    MathEscapesSplit(v, Replace(t, w, v));
    assert s == w + t;
    MathEscapesSplit(w, t);
  }

  lemma SubsumedAtPlain(s: string, w: string, v: string)
    requires Redundant(w, v) && s != [] && s[0] != BS
    requires StripMathEscapes(Replace(s[1..], w, v)) == StripMathEscapes(s[1..])
    ensures StripMathEscapes(Replace(s, w, v)) == StripMathEscapes(s)
  {
    MathEscapesCons(s[0], Replace(s[1..], w, v));
    assert s == [s[0]] + s[1..];
    MathEscapesCons(s[0], s[1..]);
  }

  lemma SubsumedAtBackslash(s: string, w: string, v: string)
    requires Redundant(w, v) && s != [] && s[0] == BS && !StartsWith(s, w)
    requires |s| == 1 || !IsMathPunct(s[1])
    requires StripMathEscapes(Replace(s[1..], w, v)) == StripMathEscapes(s[1..])
    ensures StripMathEscapes(Replace(s, w, v)) == StripMathEscapes(s)
  {
    var t := s[1..];
    assert s == [BS] + t;
    if t != [] {
      ReplaceHead(t, w, v);
    }
    MathEscapesBackslash(Replace(t, w, v));
    MathEscapesBackslash(t);
  }

  lemma SubsumedAtEscape(s: string, w: string, v: string)
    requires |w| >= 2 && w[0] == BS && !IsMathPunct(w[1])
    requires |s| >= 2 && s[0] == BS && IsMathPunct(s[1])
    requires StripMathEscapes(Replace(s[2..], w, v)) == StripMathEscapes(s[2..])
    ensures StripMathEscapes(Replace(s, w, v)) == StripMathEscapes(s)
  {
    var u := s[2..];
    ReplaceAtEscape(s, w, v);
    MathEscapesEscape(s[1], Replace(u, w, v));
    SliceTwo(s, 2);
    assert s[..2] == [BS, s[1]];
    MathEscapesEscape(s[1], u);
  }

  /** An escape that `w` cannot start at is copied whole by the replacement. */
  lemma ReplaceAtEscape(s: string, w: string, v: string)
    requires |w| >= 2 && w[0] == BS && !IsMathPunct(w[1])
    requires |s| >= 2 && s[0] == BS && IsMathPunct(s[1])
    ensures Replace(s, w, v) == [BS, s[1]] + Replace(s[2..], w, v)
  {
    ReplaceCopy(s, w, v);
    ReplaceCopy(s[1..], w, v);
    assert s[1..][1..] == s[2..];
    ConcatAssoc([BS], [s[1]], Replace(s[2..], w, v));
  }

  /** Where `pat` does not start, one character is copied. */
  lemma ReplaceCopy(s: string, pat: string, rep: string)
    requires pat != [] && s != [] && !StartsWith(s, pat)
    ensures Replace(s, pat, rep) == [s[0]] + Replace(s[1..], pat, rep)
  {
  }

  /**
   * Replacing `w` by `v` before deleting escapes changes nothing when the
   * deletion already turns `w` into `v` and leaves `v` as it is.
   */
  lemma {:induction false} ReplaceSubsumed(s: string, w: string, v: string)
    requires Redundant(w, v)
    ensures StripMathEscapes(Replace(s, w, v)) == StripMathEscapes(s)
    decreases |s|
  {
    if s == [] {
    } else if StartsWith(s, w) {
      ReplaceSubsumed(s[|w|..], w, v);
      SubsumedAtMatch(s, w, v);
    } else if s[0] != BS {
      ReplaceSubsumed(s[1..], w, v);
      SubsumedAtPlain(s, w, v);
    } else if |s| == 1 || !IsMathPunct(s[1]) {
      ReplaceSubsumed(s[1..], w, v);
      SubsumedAtBackslash(s, w, v);
    } else {
      ReplaceSubsumed(s[2..], w, v);
      SubsumedAtEscape(s, w, v);
    }
  }

  /** A text that starts with a backslash and then holds none: the escape deletion keeps it. */
  lemma MathEscapesCommand(x: string)
    requires BS !in x && (x == [] || !IsMathPunct(x[0]))
    ensures StripMathEscapes([BS] + x) == [BS] + x
  {
    MathEscapesBackslash(x);
    MathEscapesPlain(x);
  }

  /** The deletion turns the escaped form of a bracket command into the plain one and keeps that. */
  lemma BracketFixRedundant(name: string, bracket: char)
    requires BS !in name && name != [] && 'a' <= name[0] <= 'z'
    requires bracket == '[' || bracket == ']'
    ensures Redundant([BS] + name + [BS, bracket], [BS] + name + [bracket])
  {
    var w := [BS] + name + [BS, bracket];
    var v := [BS] + name + [bracket];
    MathEscapesCommand(name);
    MathEscapesCommand(name + [bracket]);
    MathEscapesEscape(bracket, []);
    MathEscapesSplit([BS] + name, [BS, bracket]);
    assert [BS, bracket] + [] == [BS, bracket];
    assert v == [BS] + (name + [bracket]);
  }

  /** The literals of app.py:80: `\left\[`, `\left[`, `\right\]` and `\right]`. */
  const LeftEscaped: string := [BS] + "left" + [BS, '[']
  const LeftPlain: string := [BS] + "left" + ['[']
  const RightEscaped: string := [BS] + "right" + [BS, ']']
  const RightPlain: string := [BS] + "right" + [']']

  lemma BracketFixesRedundant()
    ensures Redundant(LeftEscaped, LeftPlain) && Redundant(RightEscaped, RightPlain)
  {
    BracketFixRedundant("left", '[');
    BracketFixRedundant("right", ']');
  }

  /** `_fix_overescape_in_math`: the two `replace` calls, then the escape deletion. */
  function FixOverescapeInMath(m: string): string {
    StripMathEscapes(Replace(Replace(m, LeftEscaped, LeftPlain), RightEscaped, RightPlain))
  }

  /**
   * The `\left\[` and `\right\]` replacements are subsumed by the escape
   * deletion, which turns the bracket escapes into the same brackets.
   */
  lemma FixOverescapeIsStripEscapes(m: string)
    ensures FixOverescapeInMath(m) == StripMathEscapes(m)
  {
    BracketFixesRedundant();
    ReplaceSubsumed(m, LeftEscaped, LeftPlain);
    ReplaceSubsumed(Replace(m, LeftEscaped, LeftPlain), RightEscaped, RightPlain);
  }

  /**
   * `_MATH_DISPLAY` or `_MATH_INLINE` (app.py:84-85), `open(.*?)close` with
   * DOTALL, tried at the start of `s`: the lazy group stops at the first
   * `close` after the opener, whatever characters come before it. The
   * interior and the text after the closer, or `None` when `s` does not
   * start with `open` or no `close` follows.
   */
  function MathAt(s: string, open: string, close: string): (r: Option<(string, string)>)
    ensures r.Some? ==> |open| + |r.value.1| <= |s|
  {
    if !StartsWith(s, open) then None
    else
      var after := s[|open|..];
      var j := Find(after, close);
      if j < 0 then None else Some((after[..j], after[j + |close|..]))
  }

  /** `close` occurs in `m + close` first at its end: `m` holds no `close`, not even one that runs into the closer. */
  predicate ClosesAtEnd(m: string, close: string) {
    Find(m + close, close) == |m|
  }

  /**
   * No occurrence of `pat` starts before its first one: a text that starts
   * with such an `a` does not start with `pat`, and the rest of `a` is again
   * free of it.
   */
  lemma ClosesAtEndTail(a: string, pat: string, t: string)
    requires a != [] && ClosesAtEnd(a, pat)
    ensures !StartsWith(a + (pat + t), pat)
    ensures ClosesAtEnd(a[1..], pat)
    ensures (a + (pat + t))[1..] == a[1..] + (pat + t)
  {
    var x := a + pat;
    assert x[1..] == a[1..] + pat;
    assert (a + (pat + t))[..|pat|] == x[..|pat|];
  }

  /** A first occurrence stays the first when more text follows. */
  lemma {:induction false} FindExtend(x: string, y: string, pat: string)
    requires Find(x, pat) >= 0
    ensures Find(x + y, pat) == Find(x, pat)
    decreases |x|
  {
    if !StartsWith(x, pat) {
      assert (x + y)[..|pat|] == x[..|pat|];
      assert (x + y)[1..] == x[1..] + y;
      FindExtend(x[1..], y, pat);
    }
  }

  /** An occurrence at `k` bounds the first occurrence. */
  lemma FindAtMost(s: string, pat: string, k: nat)
    requires k <= |s| && StartsWith(s[k..], pat)
    ensures 0 <= Find(s, pat) <= k
  {
    FindSpec(s, pat);
  }

  /** The text before the first closer holds no closer of its own. */
  lemma FirstCloser(m: string, close: string, rest: string)
    requires Find(m + (close + rest), close) == |m|
    ensures ClosesAtEnd(m, close)
  {
    assert m + (close + rest) == (m + close) + rest;
    assert (m + close)[|m|..] == close;
    FindAtMost(m + close, close, |m|);
    FindExtend(m + close, rest, close);
  }

  /** A text cut at the first occurrence of `close`: what comes before it, the closer, and what follows. */
  lemma FindSplit(after: string, close: string)
    requires Find(after, close) >= 0
    ensures var j := Find(after, close);
      after == after[..j] + (close + after[j + |close|..]) && ClosesAtEnd(after[..j], close)
  {
    var j := Find(after, close);
    FindMatch(after, close);
    SliceThree(after, j, j + |close|);
    FirstCloser(after[..j], close, after[j + |close|..]);
  }

  /** A match is an opener, an interior holding no closer, a closer and the rest. */
  lemma MathAtSound(s: string, open: string, close: string)
    ensures var r := MathAt(s, open, close);
      r.Some? ==> s == open + (r.value.0 + (close + r.value.1)) && ClosesAtEnd(r.value.0, close)
  {
    if MathAt(s, open, close).Some? {
      var after := s[|open|..];
      FindSplit(after, close);
      assert s == s[..|open|] + after;
    }
  }

  /** Conversely, an opener, an interior holding no closer and a closer are matched. */
  lemma MathAtComplete(open: string, m: string, close: string, rest: string)
    requires ClosesAtEnd(m, close)
    ensures MathAt(open + (m + (close + rest)), open, close) == Some((m, rest))
  {
    var s := open + (m + (close + rest));
    assert s[..|open|] == open;
    var after := s[|open|..];
    assert after == (m + close) + rest;
    FindExtend(m + close, rest, close);
    assert after[..|m|] == m;
    assert after[|m| + |close|..] == rest;
  }

  /** An interior without the closer's first character holds no closer. */
  lemma ClosesAtEndPlain(m: string, close: string)
    requires close != [] && close[0] !in m
    ensures ClosesAtEnd(m, close)
  {
    var x := m + close;
    FindSpec(x, close);
    assert x[|m|..] == close;
    FindAtMost(x, close, |m|);
    var i := Find(x, close);
    if i < |m| {
      assert x[i..][0] == m[i];
    }
  }

  /**
   * `_MATH_DISPLAY.sub(_fix_display, s)` or `_MATH_INLINE.sub(_fix_inline, s)`
   * (app.py:90-93): each span is rebuilt from its delimiters and its repaired
   * interior and the scan resumes after it; elsewhere one character is copied.
   */
  function FixMathSpans(s: string, open: string, close: string): (r: string)
    requires open != []
    decreases |s|
  {
    if s == [] then []
    else
      match MathAt(s, open, close)
      case Some((m, rest)) => open + (FixOverescapeInMath(m) + (close + FixMathSpans(rest, open, close)))
      case None => [s[0]] + FixMathSpans(s[1..], open, close)
  }

  /** Text without the opener's first character is copied: no span starts in it. */
  lemma {:induction false} FixSpansPlainPrefix(a: string, t: string, open: string, close: string)
    requires open != [] && open[0] !in a
    ensures FixMathSpans(a + t, open, close) == a + FixMathSpans(t, open, close)
    decreases |a|
  {
    if a == [] {
      assert a + t == t;
    } else {
      assert (a + t)[1..] == a[1..] + t;
      assert !StartsWith(a + t, open) by {
        assert (a + t)[0] == a[0];
      }
      FixSpansPlainPrefix(a[1..], t, open, close);
      assert [a[0]] + (a[1..] + FixMathSpans(t, open, close)) == a + FixMathSpans(t, open, close);
    }
  }

  /**
   * A text in which the opener does not occur passes unchanged, whatever
   * else it holds (for the inline pass, escaped square brackets outside math).
   */
  lemma {:induction false} FixSpansPlain(s: string, open: string, close: string)
    requires open != [] && Find(s, open) < 0
    ensures FixMathSpans(s, open, close) == s
    decreases |s|
  {
    if s != [] {
      FixSpansPlain(s[1..], open, close);
    }
  }

  /**
   * A span after text in which none can start is repaired inside, its
   * delimiters are kept, and the scan goes on after it; the text before it is
   * left alone.
   */
  lemma FixSpansMatched(a: string, open: string, m: string, close: string, b: string)
    requires open != [] && ClosesAtEnd(a, open)
    requires ClosesAtEnd(m, close)
    ensures FixMathSpans(a + (open + (m + (close + b))), open, close)
      == a + (open + (FixOverescapeInMath(m) + (close + FixMathSpans(b, open, close))))
  {
    FixSpansBeforeOpener(a, m + (close + b), open, close);
    MathAtComplete(open, m, close, b);
  }

  /** Text before the first opener is copied, whatever it holds. */
  lemma {:induction false} FixSpansBeforeOpener(a: string, t: string, open: string, close: string)
    requires open != [] && ClosesAtEnd(a, open)
    ensures FixMathSpans(a + (open + t), open, close) == a + FixMathSpans(open + t, open, close)
    decreases |a|
  {
    if a == [] {
      assert a + (open + t) == open + t;
    } else {
      ClosesAtEndTail(a, open, t);
      FixSpansBeforeOpener(a[1..], t, open, close);
      HeadSplit(a);
      ConcatAssoc([a[0]], a[1..], FixMathSpans(open + t, open, close));
    }
  }

  /** No occurrence at all means none in a part that ends the text. */
  lemma {:induction false} FindSuffixNone(x: string, y: string, pat: string)
    requires Find(x + y, pat) < 0
    ensures Find(y, pat) < 0
    decreases |x|
  {
    if x == [] {
      assert x + y == y;
    } else {
      assert (x + y)[1..] == x[1..] + y;
      FindSuffixNone(x[1..], y, pat);
    }
  }

  /**
   * No span is matched in `x + u` when `u` holds no closer and `x` is no
   * longer than the opener: any closer would have to follow an opener that
   * starts in the text, so it would lie inside `u`.
   */
  lemma {:induction false} FixSpansTail(x: string, u: string, open: string, close: string)
    requires open != [] && |x| <= |open| && Find(u, close) < 0
    ensures FixMathSpans(x + u, open, close) == x + u
    decreases |x| + |u|
  {
    var s := x + u;
    if s != [] {
      if StartsWith(s, open) {
        var k := |open| - |x|;
        assert s[|open|..] == u[k..];
        assert u == u[..k] + u[k..];
        FindSuffixNone(u[..k], u[k..], close);
      }
      if x != [] {
        assert s[1..] == x[1..] + u;
        FixSpansTail(x[1..], u, open, close);
      } else {
        assert s == [] + u && s[1..] == [] + u[1..];
        HeadSplit(u);
        FindSuffixNone([u[0]], u[1..], close);
        FixSpansTail([], u[1..], open, close);
      }
      HeadSplit(s);
    }
  }

  /**
   * An opener with no closer after it is left as literal text: when no `close`
   * occurs after the first character, or the text starts with the opener and
   * no `close` occurs after it, nothing is changed.
   */
  lemma FixSpansUnclosed(s: string, open: string, close: string)
    requires open != []
    requires s == [] || Find(s[1..], close) < 0 || (StartsWith(s, open) && Find(s[|open|..], close) < 0)
    ensures FixMathSpans(s, open, close) == s
  {
    if s != [] {
      if Find(s[1..], close) < 0 {
        SliceTwo(s, 1);
        FixSpansTail(s[..1], s[1..], open, close);
      } else {
        SliceTwo(s, |open|);
        FixSpansTail(s[..|open|], s[|open|..], open, close);
      }
    }
  }

  /** An opener with no closer anywhere after it is left as it is. */
  lemma FixSpansNoCloser(s: string, open: string, close: string)
    requires open != [] && close != [] && close[|close| - 1] !in s
    ensures FixMathSpans(s, open, close) == s
  {
    if s != [] {
      FindMissing(s[1..], close, close[|close| - 1]);
    }
    FixSpansUnclosed(s, open, close);
  }

  /** Where the text does not start with the opener, its first character is copied. */
  lemma FixSpansCopyHead(c: char, t: string, open: string, close: string)
    requires open != [] && !StartsWith([c] + t, open)
    ensures FixMathSpans([c] + t, open, close) == [c] + FixMathSpans(t, open, close)
  {
    assert ([c] + t)[1..] == t;
  }

  /** Repairing the spans deletes only backslashes. */
  lemma {:induction false} FixSpansDrop(s: string, open: string, close: string)
    requires open != []
    ensures Drop(FixMathSpans(s, open, close), Backslash) == Drop(s, Backslash)
    decreases |s|
  {
    if s != [] {
      match MathAt(s, open, close)
      case Some((m, rest)) =>
        MathAtSound(s, open, close);
        FixSpansDrop(rest, open, close);
        FixOverescapeIsStripEscapes(m);
        MathEscapesDrop(m);
        DropInFrame(open, FixOverescapeInMath(m), m, close, FixMathSpans(rest, open, close), rest);
      case None =>
        FixSpansDrop(s[1..], open, close);
        DropConcat([s[0]], FixMathSpans(s[1..], open, close), Backslash);
        assert s == [s[0]] + s[1..];
        DropConcat([s[0]], s[1..], Backslash);
    }
  }

  /** Replacing the middle and the end of a framed text by parts that keep the same non-backslashes. */
  lemma DropInFrame(open: string, m': string, m: string, close: string, t': string, t: string)
    requires Drop(m', Backslash) == Drop(m, Backslash) && Drop(t', Backslash) == Drop(t, Backslash)
    ensures Drop(open + (m' + (close + t')), Backslash) == Drop(open + (m + (close + t)), Backslash)
  {
    var k := Backslash;
    DropConcat(close, t', k);
    DropConcat(close, t, k);
    DropConcat(m', close + t', k);
    DropConcat(m, close + t, k);
    DropConcat(open, m' + (close + t'), k);
    DropConcat(open, m + (close + t), k);
  }

  /** Spans in a text without backslashes need no repair. */
  lemma {:induction false} FixSpansNoBackslash(s: string, open: string, close: string)
    requires open != [] && BS !in s
    ensures FixMathSpans(s, open, close) == s
    decreases |s|
  {
    if s != [] {
      match MathAt(s, open, close)
      case Some((m, rest)) =>
        MathAtSound(s, open, close);
        FixSpansNoBackslash(rest, open, close);
        FixOverescapeIsStripEscapes(m);
        MathEscapesPlain(m);
      case None =>
        FixSpansNoBackslash(s[1..], open, close);
    }
  }

  // ---------------------------------------------------------------------------
  // The pipeline
  // ---------------------------------------------------------------------------

  const DisplayDelimiter: string := "$$"
  const InlineOpen: string := [BS, '(']
  const InlineClose: string := [BS, ')']

  /** `sanitize_latex` (app.py:87-94): the stages in order, display spans before inline ones. */
  function SanitizeLatex(s: string): string {
    var collapsed := CollapseCommandBackslashes(s);
    var undirected := RemoveSpacingDirectives(collapsed);
    var display := FixMathSpans(undirected, DisplayDelimiter, DisplayDelimiter);
    FixMathSpans(display, InlineOpen, InlineClose)
  }

  /** Dropping two classes of characters, in either order. */
  lemma {:induction false} DropCommute(s: string, k1: Class, k2: Class)
    ensures Drop(Drop(s, k1), k2) == Drop(Drop(s, k2), k1)
    decreases |s|
  {
    if s != [] {
      DropCommute(s[1..], k1, k2);
      var h1 := if In(s[0], k1) then [] else [s[0]];
      var h2 := if In(s[0], k2) then [] else [s[0]];
      DropConcat(h1, Drop(s[1..], k1), k2);
      DropConcat(h2, Drop(s[1..], k2), k1);
    }
  }

  /**
   * The sanitizer deletes only backslashes and the characters spacing
   * directives are written with: every other character of the text survives,
   * in order.
   */
  lemma SanitizeKeepsText(s: string)
    ensures Drop(Drop(SanitizeLatex(s), Backslash), DirectiveChar) == Drop(Drop(s, Backslash), DirectiveChar)
  {
    var collapsed := CollapseCommandBackslashes(s);
    var undirected := RemoveSpacingDirectives(collapsed);
    var display := FixMathSpans(undirected, DisplayDelimiter, DisplayDelimiter);
    CommandBackslashesSafe(s);
    RemoveKeepsOtherChars(collapsed);
    FixSpansDrop(undirected, DisplayDelimiter, DisplayDelimiter);
    FixSpansDrop(display, InlineOpen, InlineClose);
    DropCommute(undirected, Backslash, DirectiveChar);
    DropCommute(collapsed, Backslash, DirectiveChar);
  }

  /** A text with no backslash and no `[` comes out unchanged, spans or not. */
  lemma SanitizePlain(s: string)
    requires BS !in s && '[' !in s
    ensures SanitizeLatex(s) == s
  {
    CommandBackslashesPlain(s);
    RemovePlain(s);
    FixSpansNoBackslash(s, DisplayDelimiter, DisplayDelimiter);
    FindMissing(s, InlineOpen, BS);
    FixSpansPlain(s, InlineOpen, InlineClose);
  }

  /** The empty text stays empty. */
  lemma SanitizeEmpty()
    ensures SanitizeLatex([]) == []
  {
    SanitizePlain([]);
  }
}
