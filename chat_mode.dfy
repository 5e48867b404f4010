/**
 * How the `/chat` handler of app.py picks its mode: the `mode` field of the
 * JSON payload, else the `mode` query parameter, else `"chat"`; stripped and
 * lower-cased; and a `"chat"` request that carries a `csv` or `schema` key is
 * sent to the analytics path instead.
 */
module ChatMode {
  import opened Wrappers
  import opened Text

  const DefaultMode: string := "chat"
  const AnalyticsMode: string := "analyze_adaptive_quiz"

  /** The requested mode, before the analytics safeguard. */
  function RequestedMode(payloadMode: Option<string>, queryMode: Option<string>): string
  {
    AsciiLower(Strip(OrElse(payloadMode, OrElse(queryMode, DefaultMode))))
  }

  /**
   * The mode the handler dispatches on. `hasCsv` and `hasSchema` say whether
   * the payload has a `csv` or a `schema` key, whatever its value.
   */
  function SelectMode(payloadMode: Option<string>, queryMode: Option<string>, hasCsv: bool, hasSchema: bool): (mode: string)
    ensures hasCsv || hasSchema ==> mode != DefaultMode
  {
    var requested := RequestedMode(payloadMode, queryMode);
    if requested == DefaultMode && (hasCsv || hasSchema) then AnalyticsMode else requested
  }

  /**
   * The analytics path is taken exactly when it was asked for, or when a chat
   * request carries CSV data or a schema; a request with neither key keeps
   * the mode it asked for.
   */
  lemma AnalyticsWhen(payloadMode: Option<string>, queryMode: Option<string>, hasCsv: bool, hasSchema: bool)
    ensures var requested := RequestedMode(payloadMode, queryMode);
      SelectMode(payloadMode, queryMode, hasCsv, hasSchema) == AnalyticsMode
      <==> requested == AnalyticsMode || (requested == DefaultMode && (hasCsv || hasSchema))
    ensures !hasCsv && !hasSchema ==>
      SelectMode(payloadMode, queryMode, hasCsv, hasSchema) == RequestedMode(payloadMode, queryMode)
  {
  }

  lemma LowerSpace(c: char)
    ensures IsSpace(LowerChar(c)) <==> IsSpace(c)
  {
  }

  /** `lower()` of a stripped text is still stripped. */
  lemma {:induction false} StripLower(s: string)
    ensures Strip(AsciiLower(Strip(s))) == AsciiLower(Strip(s))
  {
    TrimParts(s, Whitespace);
    var t := Strip(s);
    var r := AsciiLower(t);
    if t != [] {
      LowerSpace(t[0]);
      LowerSpace(t[|t| - 1]);
      TrimUnpadded(r, Whitespace);
    }
  }

  /** `lower()` twice is `lower()` once. */
  lemma LowerTwice(s: string)
    ensures AsciiLower(AsciiLower(s)) == AsciiLower(s)
  {
  }

  /** A text without ASCII capitals is its own `lower()`. */
  lemma LowerKeeps(s: string)
    requires forall i :: 0 <= i < |s| ==> !('A' <= s[i] <= 'Z')
    ensures AsciiLower(s) == s
  {
  }

  /** The two fixed modes are already in normal form. */
  lemma ModesNormal()
    ensures Strip(DefaultMode) == DefaultMode && AsciiLower(DefaultMode) == DefaultMode
    ensures Strip(AnalyticsMode) == AnalyticsMode && AsciiLower(AnalyticsMode) == AnalyticsMode
  {
    assert Strip(DefaultMode) == DefaultMode by {
      TrimUnpadded(DefaultMode, Whitespace);
    }
    assert Strip(AnalyticsMode) == AnalyticsMode by {
      TrimUnpadded(AnalyticsMode, Whitespace);
    }
    assert AsciiLower(DefaultMode) == DefaultMode by {
      LowerKeeps(DefaultMode);
    }
    assert AsciiLower(AnalyticsMode) == AnalyticsMode by {
      LowerKeeps(AnalyticsMode);
    }
  }

  /** The selected mode is always in normal form: no surrounding whitespace and no ASCII capital. */
  lemma SelectedModeNormal(payloadMode: Option<string>, queryMode: Option<string>, hasCsv: bool, hasSchema: bool)
    ensures var mode := SelectMode(payloadMode, queryMode, hasCsv, hasSchema);
      Strip(mode) == mode && AsciiLower(mode) == mode
  {
    var given := OrElse(payloadMode, OrElse(queryMode, DefaultMode));
    StripLower(given);
    LowerTwice(Strip(given));
    ModesNormal();
  }

  /**
   * With no usable mode in the payload or the query string, a request is a
   * chat request unless it carries CSV data or a schema.
   */
  lemma DefaultsToChat(payloadMode: Option<string>, queryMode: Option<string>, hasCsv: bool, hasSchema: bool)
    requires payloadMode == None || payloadMode == Some("")
    requires queryMode == None || queryMode == Some("")
    ensures SelectMode(payloadMode, queryMode, hasCsv, hasSchema)
      == if hasCsv || hasSchema then AnalyticsMode else DefaultMode
  {
    assert OrElse(payloadMode, OrElse(queryMode, DefaultMode)) == DefaultMode;
    ModesNormal();
    assert RequestedMode(payloadMode, queryMode) == DefaultMode;
  }

  /**
   * A payload mode made only of whitespace is truthy, so it hides the query
   * parameter, and it strips to the empty mode, which is neither chat nor
   * analytics: the request goes down the tutor path.
   */
  lemma BlankPayloadModeHidesQuery(p: string, queryMode: Option<string>, hasCsv: bool, hasSchema: bool)
    requires p != [] && All(p, Whitespace)
    ensures SelectMode(Some(p), queryMode, hasCsv, hasSchema) == ""
  {
    TrimEmpty(p, Whitespace);
  }

  /** Case and surrounding spaces do not matter: `" Chat "` with CSV data goes to analytics. */
  lemma PaddedChatWithCsv(queryMode: Option<string>)
    ensures SelectMode(Some(" Chat "), queryMode, true, false) == AnalyticsMode
  {
    assert Span(" Chat ", Whitespace).1 == "Chat " by {
      SpanRun(" ", "Chat ", Whitespace);
      assert " " + "Chat " == " Chat ";
    }
    assert TrimEnd("Chat ", Whitespace) == "Chat" by {
      assert "Chat "[..4] == "Chat";
    }
    assert AsciiLower("Chat") == DefaultMode;
  }
}
