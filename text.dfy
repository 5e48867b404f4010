/**
 * The handful of Python `str` operations the modelled code relies on:
 * `isspace`/`strip`, `find`/`rfind`, `split(sep)`, `splitlines`, `lower` and
 * `int(str)`. Strings are sequences of Unicode code points, as in Python 3.
 */
module Text {
  import opened Wrappers

  /** Python's `str.isspace()` for one code point (also what `\s` matches in a `str` pattern). */
  predicate IsSpace(c: char) {
    c == ' ' || '\t' <= c <= '\r' || '\U{1C}' <= c <= '\U{1F}' || c == '\U{85}' || c == '\U{A0}'
    || c == '\U{1680}' || '\U{2000}' <= c <= '\U{200A}' || c == '\U{2028}' || c == '\U{2029}'
    || c == '\U{202F}' || c == '\U{205F}' || c == '\U{3000}'
  }

  /** The code points at which `str.splitlines()` ends a line. */
  predicate IsLineBreak(c: char) {
    '\n' <= c <= '\r' || '\U{1C}' <= c <= '\U{1E}' || c == '\U{85}' || c == '\U{2028}' || c == '\U{2029}'
  }

  /** ASCII decimal digits (the model's reading of `\d` and of the digits `int()` accepts). */
  predicate IsDigit(c: char) {
    '0' <= c <= '9'
  }

  /** The character classes the modelled code tests characters against. */
  datatype Class =
    | Whitespace
    | Digit
    | LineBreak
    | NonBreak
    | Backslash
      /** What a LaTeX spacing directive such as `[6pt]` is written with. */
    | DirectiveChar
      /**
       * What `int()` skips around its digits: the ASCII whitespace of C's
       * `isspace()` and every non-ASCII whitespace code point, but not the
       * ASCII separators U+001C..U+001F that `str.isspace()` also counts.
       */
    | IntSpace

  predicate In(c: char, k: Class) {
    match k
    case Whitespace => IsSpace(c)
    case Digit => IsDigit(c)
    case LineBreak => IsLineBreak(c)
    case NonBreak => !IsLineBreak(c)
    case Backslash => c == '\\'
    case DirectiveChar =>
      c == '[' || c == ']' || c == '.' || IsSpace(c) || IsDigit(c)
      || c == 'p' || c == 't' || c == 'e' || c == 'm' || c == 'x' || c == 'c' || c == 'i' || c == 'n' || c == 'b'
    case IntSpace => c == ' ' || '\t' <= c <= '\r' || (c as int >= 128 && IsSpace(c))
  }

  /** Every character of `s` is in class `k`. */
  predicate All(s: string, k: Class) {
    forall i :: 0 <= i < |s| ==> In(s[i], k)
  }

  /** No character of `s` is in class `k`. */
  predicate NoneIn(s: string, k: Class) {
    forall i :: 0 <= i < |s| ==> !In(s[i], k)
  }

  predicate StartsWith(s: string, prefix: string) {
    |prefix| <= |s| && s[..|prefix|] == prefix
  }

  // ---------------------------------------------------------------------------
  // Cutting sequences
  // ---------------------------------------------------------------------------

  /** A sequence cut at one point is its two pieces put back together. */
  lemma SliceTwo<T>(s: seq<T>, i: nat)
    requires i <= |s|
    ensures s == s[..i] + s[i..]
  {
  }

  /** A non-empty sequence is its first element and the rest. */
  lemma HeadSplit<T>(s: seq<T>)
    requires s != []
    ensures s == [s[0]] + s[1..]
  {
  }

  /** Concatenation regroups freely. */
  lemma ConcatAssoc<T>(x: seq<T>, y: seq<T>, z: seq<T>)
    ensures x + (y + z) == (x + y) + z
  {
  }

  /** A sequence cut at two points is its three pieces put back together. */
  lemma SliceThree<T>(s: seq<T>, i: nat, k: nat)
    requires i <= k <= |s|
    ensures s == s[..i] + (s[i..k] + s[k..])
  {
  }

  // ---------------------------------------------------------------------------
  // Greedy runs of one class
  // ---------------------------------------------------------------------------

  /** `s` cut after its longest prefix of characters in `k`, as a greedy `[…]*` reads it. */
  function Span(s: string, k: Class): (r: (string, string))
    ensures |r.0| + |r.1| == |s|
    decreases |s|
  {
    if s == [] || !In(s[0], k) then ([], s)
    else
      var r := Span(s[1..], k);
      ([s[0]] + r.0, r.1)
  }

  /** The two parts of a span put back together give the text. */
  lemma {:induction false} SpanJoin(s: string, k: Class)
    ensures Span(s, k).0 + Span(s, k).1 == s
    decreases |s|
  {
    if s != [] && In(s[0], k) {
      SpanJoin(s[1..], k);
      var r := Span(s[1..], k);
      assert [s[0]] + r.0 + r.1 == [s[0]] + (r.0 + r.1);
    }
  }

  /** The run is all in `k`, and what follows it does not start with a character in `k`. */
  lemma {:induction false} SpanStops(s: string, k: Class)
    ensures All(Span(s, k).0, k)
    ensures Span(s, k).1 == [] || !In(Span(s, k).1[0], k)
    decreases |s|
  {
    if s != [] && In(s[0], k) {
      SpanStops(s[1..], k);
      var r := Span(s[1..], k);
      assert forall i :: 1 <= i < |[s[0]] + r.0| ==> ([s[0]] + r.0)[i] == r.0[i - 1];
    }
  }

  /** A greedy read of class `k` stops exactly where the run ends. */
  lemma {:induction false} SpanRun(x: string, t: string, k: Class)
    requires All(x, k)
    requires t == [] || !In(t[0], k)
    ensures Span(x + t, k) == (x, t)
    decreases |x|
  {
    if x == [] {
      assert x + t == t;
    } else {
      assert (x + t)[1..] == x[1..] + t;
      SpanRun(x[1..], t, k);
      assert [x[0]] + x[1..] == x;
    }
  }

  /** Python's `a or b` where `a` is an optional string: absent and empty are both falsy. */
  function OrElse(a: Option<string>, b: string): string
  {
    if a.Some? && a.value != [] then a.value else b
  }

  // ---------------------------------------------------------------------------
  // strip
  // ---------------------------------------------------------------------------

  /** `s` without its leading characters of class `k` (`str.lstrip()` for `Whitespace`). */
  function TrimStart(s: string, k: Class): (r: string)
    ensures |r| <= |s|
  {
    Span(s, k).1
  }

  /** `s` without its trailing characters of class `k` (`str.rstrip()` for `Whitespace`). */
  function TrimEnd(s: string, k: Class): (r: string)
    ensures |r| <= |s|
  {
    if s != [] && In(s[|s| - 1], k) then TrimEnd(s[..|s| - 1], k) else s
  }

  /** `s` without its characters of class `k` at either end. */
  function Trim(s: string, k: Class): (r: string)
    ensures |r| <= |s|
  {
    TrimEnd(TrimStart(s, k), k)
  }

  /** `str.strip()`. */
  function Strip(s: string): (r: string)
    ensures |r| <= |s|
  {
    Trim(s, Whitespace)
  }

  lemma {:induction false} TrimEndParts(s: string, k: Class)
    ensures var r := TrimEnd(s, k);
      r == s[..|r|] && All(s[|r|..], k) && (r != [] ==> !In(r[|r| - 1], k))
    decreases |s|
  {
    if s != [] && In(s[|s| - 1], k) {
      var p := s[..|s| - 1];
      TrimEndParts(p, k);
      var r := TrimEnd(p, k);
      assert p[..|r|] == s[..|r|];
      assert forall i :: |r| <= i < |s| - 1 ==> s[i] == p[i];
    }
  }

  lemma TrimStartParts(s: string, k: Class)
    ensures var t := TrimStart(s, k); var i := |s| - |t|;
      && s[i..] == t
      && All(s[..i], k)
      && (t != [] ==> !In(t[0], k))
  {
    SpanJoin(s, k);
    SpanStops(s, k);
    var (lead, t) := Span(s, k);
    assert s[..|lead|] == lead;
  }

  /**
   * Trimming removes a run of class `k` at each end and nothing else: the
   * result sits in `s` after a prefix and before a suffix made only of `k`,
   * and it neither starts nor ends with a character of `k`. For `Whitespace`
   * this is what `strip()` does.
   */
  lemma TrimParts(s: string, k: Class)
    ensures var r := Trim(s, k); var i := |s| - |TrimStart(s, k)|;
      && i + |r| <= |s|
      && s[i..i + |r|] == r
      && All(s[..i], k)
      && All(s[i + |r|..], k)
      && (r != [] ==> !In(r[0], k) && !In(r[|r| - 1], k))
  {
    TrimStartParts(s, k);
    var t := TrimStart(s, k);
    TrimEndParts(t, k);
    var r := TrimEnd(t, k);
    var i := |s| - |t|;
    assert s[i..i + |r|] == s[i..][..|r|];
    assert s[i + |r|..] == s[i..][|r|..];
    if r != [] {
      assert r[0] == t[0];
    }
  }

  /** Trimming gives the empty string exactly for a text made only of `k`; `strip()` for an all-whitespace text. */
  lemma TrimEmpty(s: string, k: Class)
    ensures Trim(s, k) == [] <==> All(s, k)
  {
    TrimParts(s, k);
    var r := Trim(s, k);
    var i := |s| - |TrimStart(s, k)|;
    if r == [] {
      assert s == s[..i] + s[i..];
      forall j | 0 <= j < |s| ensures In(s[j], k) {
        if j >= i {
          assert s[j] == s[i..][j - i];
        }
      }
    } else {
      assert In(s[i], k) == In(r[0], k);
    }
  }

  /** A string that does not start or end with a character of `k` is its own trim. */
  lemma TrimUnpadded(s: string, k: Class)
    requires s != [] && !In(s[0], k) && !In(s[|s| - 1], k)
    ensures Trim(s, k) == s
  {
    assert TrimStart(s, k) == s;
    assert TrimEnd(s, k) == s;
  }

  // ---------------------------------------------------------------------------
  // find / rfind
  // ---------------------------------------------------------------------------

  /** `s.find(pat)`: the first index where `pat` occurs, or -1. */
  function Find(s: string, pat: string): (i: int)
    ensures -1 <= i && (i >= 0 ==> i + |pat| <= |s|)
    decreases |s|
  {
    if StartsWith(s, pat) then 0
    else if s == [] then -1
    else
      var j := Find(s[1..], pat);
      if j < 0 then -1 else j + 1
  }

  /** `find` answers the first occurrence, and -1 exactly when there is none. */
  lemma {:induction false} FindSpec(s: string, pat: string)
    ensures var i := Find(s, pat);
      && (i >= 0 ==> StartsWith(s[i..], pat))
      && (forall k :: 0 <= k <= |s| && (i < 0 || k < i) ==> !StartsWith(s[k..], pat))
    decreases |s|
  {
    if !StartsWith(s, pat) && s != [] {
      FindSpec(s[1..], pat);
      assert forall k :: 1 <= k <= |s| ==> s[1..][k - 1..] == s[k..];
    }
  }

  /** Where `find` answers an index, `pat` stands there. */
  lemma {:induction false} FindMatch(s: string, pat: string)
    requires Find(s, pat) >= 0
    ensures s[Find(s, pat)..Find(s, pat) + |pat|] == pat
    decreases |s|
  {
    if !StartsWith(s, pat) {
      FindMatch(s[1..], pat);
      assert s[1..][Find(s, pat) - 1..Find(s, pat) - 1 + |pat|] == s[Find(s, pat)..Find(s, pat) + |pat|];
    }
  }

  /** A pattern holding a character the text lacks is not found. */
  lemma FindMissing(s: string, pat: string, c: char)
    requires c in pat && c !in s
    ensures Find(s, pat) == -1
  {
    var i := Find(s, pat);
    if i >= 0 {
      FindMatch(s, pat);
      assert false;
    }
  }

  /** The last index `i <= k` where `pat` occurs, or -1. */
  function RFindUpTo(s: string, pat: string, k: nat): (i: int)
    requires k <= |s|
    ensures -1 <= i <= k
    decreases k
  {
    if StartsWith(s[k..], pat) then k
    else if k == 0 then -1
    else RFindUpTo(s, pat, k - 1)
  }

  /** `s.rfind(pat)`: the last index where `pat` occurs, or -1. */
  function RFind(s: string, pat: string): (i: int)
    ensures -1 <= i <= |s|
  {
    RFindUpTo(s, pat, |s|)
  }

  lemma {:induction false} RFindUpToSpec(s: string, pat: string, k: nat)
    requires k <= |s|
    ensures var i := RFindUpTo(s, pat, k);
      && (i >= 0 ==> StartsWith(s[i..], pat))
      && (forall j :: i < j <= k ==> !StartsWith(s[j..], pat))
    decreases k
  {
    if !StartsWith(s[k..], pat) && k > 0 {
      RFindUpToSpec(s, pat, k - 1);
    }
  }

  /** What a search for one character means, stated on characters. */
  lemma FindChar(s: string, c: char)
    ensures var i := Find(s, [c]);
      && (i >= 0 ==> i < |s| && s[i] == c && c !in s[..i])
      && (i == -1 <==> c !in s)
  {
    FindSpec(s, [c]);
    var i := Find(s, [c]);
    if i >= 0 {
      assert s[i..][..1] == [c];
    }
    forall k | 0 <= k < |s| && (i < 0 || k < i) ensures s[k] != c {
      assert !StartsWith(s[k..], [c]);
      assert s[k..][..1] == [s[k]];
    }
  }

  /** As `FindChar`, for the last occurrence. */
  lemma RFindChar(s: string, c: char)
    ensures var i := RFind(s, [c]);
      && (i >= 0 ==> i < |s| && s[i] == c && c !in s[i + 1..])
      && (i == -1 <==> c !in s)
  {
    RFindUpToSpec(s, [c], |s|);
    var i := RFind(s, [c]);
    if i >= 0 {
      assert s[i..][..1] == [c];
    }
    forall k | i < k < |s| ensures s[k] != c {
      assert !StartsWith(s[k..], [c]);
      assert s[k..][..1] == [s[k]];
    }
  }

  // ---------------------------------------------------------------------------
  // Dropping a class of characters
  // ---------------------------------------------------------------------------

  /** The characters of `s` outside class `k`, in order. */
  function Drop(s: string, k: Class): (r: string)
    ensures |r| <= |s|
  {
    if s == [] then [] else (if In(s[0], k) then [] else [s[0]]) + Drop(s[1..], k)
  }

  lemma {:induction false} DropConcat(a: string, b: string, k: Class)
    ensures Drop(a + b, k) == Drop(a, k) + Drop(b, k)
    decreases |a|
  {
    if a != [] {
      assert (a + b)[1..] == a[1..] + b;
      DropConcat(a[1..], b, k);
    } else {
      assert a + b == b;
    }
  }

  lemma {:induction false} DropNone(s: string, k: Class)
    requires NoneIn(s, k)
    ensures Drop(s, k) == s
    decreases |s|
  {
    if s != [] {
      DropNone(s[1..], k);
    }
  }

  lemma {:induction false} DropAll(s: string, k: Class)
    requires All(s, k)
    ensures Drop(s, k) == []
    decreases |s|
  {
    if s != [] {
      DropAll(s[1..], k);
    }
  }

  // ---------------------------------------------------------------------------
  // split and splitlines
  // ---------------------------------------------------------------------------

  /** `sep.join(parts)`. */
  function Join(parts: seq<string>, sep: char): string
  {
    if parts == [] then ""
    else if |parts| == 1 then parts[0]
    else parts[0] + ([sep] + Join(parts[1..], sep))
  }

  /** `s.split(sep)` for a one-character separator: the pieces between separators, at least one. */
  function Split(s: string, sep: char): (parts: seq<string>)
    ensures |parts| >= 1
    decreases |s|
  {
    if s == [] then [""]
    else
      var rest := Split(s[1..], sep);
      if s[0] == sep then [""] + rest else [[s[0]] + rest[0]] + rest[1..]
  }

  /** Putting a character in front of the first piece puts it in front of the joined text. */
  lemma JoinCons(c: char, parts: seq<string>, sep: char)
    requires parts != []
    ensures Join([[c] + parts[0]] + parts[1..], sep) == [c] + Join(parts, sep)
  {
    var longer := [[c] + parts[0]] + parts[1..];
    if |parts| > 1 {
      assert longer[1..] == parts[1..];
      var tail := [sep] + Join(parts[1..], sep);
      assert ([c] + parts[0]) + tail == [c] + (parts[0] + tail);
    }
  }

  /** Joining the pieces with the separator gives the text back. */
  lemma {:induction false} SplitJoin(s: string, sep: char)
    ensures Join(Split(s, sep), sep) == s
    decreases |s|
  {
    if s != [] {
      var rest := Split(s[1..], sep);
      SplitJoin(s[1..], sep);
      assert s == [s[0]] + s[1..];
      if s[0] == sep {
        assert ([""] + rest)[1..] == rest;
      } else {
        JoinCons(s[0], rest, sep);
      }
    }
  }

  /** No piece contains the separator. */
  lemma {:induction false} SplitClean(s: string, sep: char)
    ensures forall i :: 0 <= i < |Split(s, sep)| ==> sep !in Split(s, sep)[i]
    decreases |s|
  {
    if s != [] {
      SplitClean(s[1..], sep);
    }
  }

  /** Width of the line break that starts `s` (`\r\n` counts as one break). */
  function BreakWidth(s: string): (w: nat)
    requires s != []
    ensures 1 <= w <= |s|
  {
    if |s| >= 2 && s[0] == '\r' && s[1] == '\n' then 2 else 1
  }

  function Concat(lines: seq<string>): string
  {
    if lines == [] then "" else lines[0] + Concat(lines[1..])
  }

  /**
   * `s.splitlines()`: the pieces between line breaks, with no empty piece
   * after a final break; an empty text has no lines.
   */
  function SplitLines(s: string): (lines: seq<string>)
    ensures lines == [] <==> s == []
    decreases |s|
  {
    if s == [] then []
    else
      var (line, rest) := Span(s, NonBreak);
      if rest == [] then [line]
      else [line] + SplitLines(rest[BreakWidth(rest)..])
  }

  /** No line holds a line break. */
  lemma {:induction false} SplitLinesClean(s: string)
    ensures forall i :: 0 <= i < |SplitLines(s)| ==> NoneIn(SplitLines(s)[i], LineBreak)
    decreases |s|
  {
    if s != [] {
      var (line, rest) := Span(s, NonBreak);
      SpanStops(s, NonBreak);
      if rest != [] {
        SplitLinesClean(rest[BreakWidth(rest)..]);
      }
    }
  }

  /** Joining the lines gives back the text with its line breaks removed. */
  lemma {:induction false} SplitLinesConcat(s: string)
    ensures Concat(SplitLines(s)) == Drop(s, LineBreak)
    decreases |s|
  {
    if s != [] {
      var (line, rest) := Span(s, NonBreak);
      SpanJoin(s, NonBreak);
      SpanStops(s, NonBreak);
      DropConcat(line, rest, LineBreak);
      DropNone(line, LineBreak);
      if rest == [] {
        assert Concat([line]) == line + Concat([]);
      } else {
        var w := BreakWidth(rest);
        var tail := SplitLines(rest[w..]);
        SplitLinesConcat(rest[w..]);
        assert Concat([line] + tail) == line + Concat(tail) by {
          assert ([line] + tail)[1..] == tail;
        }
        DropBreak(rest);
      }
    }
  }

  /** A nonempty text without a line break is one line. */
  lemma SplitLinesOne(x: string)
    requires x != [] && NoneIn(x, LineBreak)
    ensures SplitLines(x) == [x]
  {
    assert x + [] == x;
    SpanRun(x, [], NonBreak);
  }

  /**
   * A line ends at the first line break, which is dropped, and the lines of
   * the rest follow; a break at the very end adds no empty line.
   */
  lemma SplitLinesBreak(x: string, c: char, t: string)
    requires NoneIn(x, LineBreak) && IsLineBreak(c)
    requires !(c == '\r' && t != [] && t[0] == '\n')
    ensures SplitLines(x + ([c] + t)) == [x] + SplitLines(t)
  {
    SpanRun(x, [c] + t, NonBreak);
    assert ([c] + t)[1..] == t;
  }

  /** `\r\n` is one line break. */
  lemma SplitLinesCrLf(x: string, t: string)
    requires NoneIn(x, LineBreak)
    ensures SplitLines(x + ("\r\n" + t)) == [x] + SplitLines(t)
  {
    SpanRun(x, "\r\n" + t, NonBreak);
    assert ("\r\n" + t)[2..] == t;
  }

  /** The line break at the start of `rest` is dropped whole. */
  lemma DropBreak(rest: string)
    requires rest != [] && IsLineBreak(rest[0])
    ensures Drop(rest, LineBreak) == Drop(rest[BreakWidth(rest)..], LineBreak)
  {
    if BreakWidth(rest) == 2 {
      assert rest[1..][1..] == rest[2..];
    }
  }

  // ---------------------------------------------------------------------------
  // lower
  // ---------------------------------------------------------------------------

  function LowerChar(c: char): char
  {
    if 'A' <= c <= 'Z' then (c as int + 32) as char else c
  }

  /** `str.lower()` on the ASCII letters; every other code point is kept. */
  function AsciiLower(s: string): (r: string)
    ensures |r| == |s|
    ensures forall i :: 0 <= i < |s| ==> r[i] == LowerChar(s[i])
  {
    if s == [] then [] else [LowerChar(s[0])] + AsciiLower(s[1..])
  }

  // ---------------------------------------------------------------------------
  // int(str) and str(int)
  // ---------------------------------------------------------------------------

  /** Digits with single underscores between them, as `int()` accepts. */
  predicate IsDigitGroup(t: string) {
    && |t| > 0
    && IsDigit(t[0])
    && forall k :: 0 <= k < |t| ==> IsDigit(t[k]) || (t[k] == '_' && k + 1 < |t| && IsDigit(t[k + 1]))
  }

  /** The decimal value of the digits of `t`, ignoring anything else. */
  function DigitsValue(t: string): nat
  {
    if t == [] then 0
    else if IsDigit(t[|t| - 1]) then 10 * DigitsValue(t[..|t| - 1]) + (t[|t| - 1] as int - '0' as int)
    else DigitsValue(t[..|t| - 1])
  }

  /**
   * CPython's default `sys.int_max_str_digits`: `int()` of a decimal string
   * with more digits raises `ValueError`, and so does `str()` of such a number.
   */
  const MaxStrDigits: nat := 4300

  /** How many decimal digits `t` holds (the count CPython checks against the limit). */
  function DigitCount(t: string): (n: nat)
    ensures n <= |t|
  {
    if t == [] then 0 else (if IsDigit(t[0]) then 1 else 0) + DigitCount(t[1..])
  }

  lemma {:induction false} DigitCountAll(t: string)
    requires All(t, Digit)
    ensures DigitCount(t) == |t|
  {
    if t != [] {
      DigitCountAll(t[1..]);
    }
  }

  /**
   * `int(s)` for a `str`: surrounding `IntSpace`, an optional sign, then decimal
   * digits, at most `MaxStrDigits` of them. `None` where Python raises
   * `ValueError`.
   */
  function ParseInt(s: string): (r: Option<int>)
  {
    var t := Trim(s, IntSpace);
    if t == [] || DigitCount(t) > MaxStrDigits then None
    else if t[0] == '+' || t[0] == '-' then
      if IsDigitGroup(t[1..]) then
        var magnitude: int := DigitsValue(t[1..]);
        Some(if t[0] == '-' then -magnitude else magnitude)
      else None
    else if IsDigitGroup(t) then Some(DigitsValue(t) as int)
    else None
  }

  /** `int()` of a blank string raises. */
  lemma ParseIntBlank(s: string)
    requires All(s, Whitespace)
    ensures ParseInt(s) == None
  {
    TrimParts(s, IntSpace);
    var t := Trim(s, IntSpace);
    if t != [] {
      assert t[0] == s[|s| - |TrimStart(s, IntSpace)|];
    }
  }

  /**
   * `int()` skips a line feed, a tab and a no-break space around the digits,
   * but a U+001F separator, which `str.isspace()` counts as whitespace, makes
   * it raise.
   */
  lemma ParseIntSpaces()
    ensures ParseInt("\t5\n") == Some(5)
    ensures ParseInt("\U{A0}5") == Some(5)
    ensures ParseInt("\U{1F}5") == None
  {
    TrimUnpadded("\U{1F}5", IntSpace);
    assert TrimStart("\t5\n", IntSpace) == "5\n";
    assert TrimStart("\U{A0}5", IntSpace) == "5";
  }

  function DigitChar(d: nat): char
    requires d < 10
  {
    ('0' as int + d) as char
  }

  /** Decimal notation of a natural number, without leading zeros. */
  function NatToString(n: nat): (r: string)
    ensures |r| > 0 && forall k :: 0 <= k < |r| ==> IsDigit(r[k])
    ensures IsDigitGroup(r) && DigitsValue(r) == n
    ensures n > 0 ==> r[0] != '0'
  {
    if n < 10 then [DigitChar(n)]
    else
      var p := NatToString(n / 10);
      var r := p + [DigitChar(n % 10)];
      assert r[..|r| - 1] == p;
      assert forall k :: 0 <= k < |p| ==> r[k] == p[k];
      r
  }

  /** `str(n)` for a Python `int`. */
  function IntToString(n: int): string
  {
    if n < 0 then "-" + NatToString(-n) else NatToString(n)
  }

  /** The magnitude of `n` written in decimal. */
  function Magnitude(n: int): string
  {
    if n < 0 then NatToString(-n) else NatToString(n)
  }

  /**
   * `int(str(n)) == n` for every `n` of at most `MaxStrDigits` digits; `int()`
   * rejects the decimal form of any longer number.
   */
  lemma ParseIntRoundTrip(n: int)
    ensures ParseInt(IntToString(n)) == if |Magnitude(n)| <= MaxStrDigits then Some(n) else None
  {
    var s := IntToString(n);
    TrimUnpadded(s, IntSpace);
    DigitCountAll(Magnitude(n));
    if n < 0 {
      assert s[1..] == Magnitude(n);
      assert s == [s[0]] + s[1..];
      assert DigitCount(s) == DigitCount(s[1..]);
    }
  }

  /** A cell of 4301 ones is one digit too long for `int()`. */
  lemma ParseIntTooLong()
    ensures ParseInt(seq(MaxStrDigits + 1, _ => '1')) == None
  {
    var s := seq(MaxStrDigits + 1, _ => '1');
    TrimUnpadded(s, IntSpace);
    DigitCountAll(s);
  }
}
