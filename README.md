# Chat and analytics server core, modelled in Dafny

The server answers electronics questions through a language-model API and
previews learning-analytics requests. Almost all of it is HTTP and API
plumbing. Around that sit a few pieces of real logic, and this project models
and proves them:

- **The answer cache** (`LRU` in app.py). It is an ordered dictionary bounded by
  `maxsize`. Reading a key makes it the most recently used one. Writing a new
  key into a full cache evicts the least recently used entry first.
  `lru.dfy` models it as a class with a key order (`seq`) and a key-to-value
  `map`, and its methods update both in place.
- **The LaTeX sanitizer** (`sanitize_latex` and its helpers in app.py). It runs
  three stages:
  1. it collapses doubled command backslashes and runs of three or more
     backslashes;
  2. it deletes spacing directives such as `[6pt]`;
  3. inside `$$…$$` and `\(…\)` spans it deletes a backslash before math
     punctuation, and repairs `\left\[`/`\right\]`.

  `latex.dfy` writes each `re.sub` as a recursive left-to-right scan.
  `latex_examples.dfy` proves the documented examples on the whole pipeline.
- **Mode selection in `/chat`** (app.py), in `chat_mode.dfy`.
- **`extract_json_block`** (app2.py), in `json_block.dfy`. Whether a text is
  JSON is a parameter.
- **The dry run of `/analyze`** (app2.py), in `dry_run.dfy`. It turns CSV text
  into at most two preview items. It is a method with a loop, proved against a
  function that specifies it.

`text.dfy` holds the Python `str` operations these rely on:
- `strip`, as trimming of a character class;
- `find`/`rfind`;
- `split(",")` and `splitlines`;
- `lower`;
- `int()`.

`wrappers.dfy` holds `Option` and `Result`.

## Behaviour worth knowing

- The sanitizer is **not idempotent**. `\\\a` (three backslashes) becomes `\\a`,
  and a second pass gives `\a`, although one might expect a second pass to change
  nothing; the model follows the code (`LatexExamples.SanitizeNotIdempotent`).
- Deleting a spacing directive keeps the spaces on both sides of it.
  `$$ x = 1 $$ [6pt] more text` becomes `$$ x = 1 $$  more text` with two
  spaces, not one (`LatexExamples.DirectiveRemoved`).
- The `\left\[` → `\left[` and `\right\]` → `\right]` replacements can never
  change the result. The escape deletion that follows them turns `\[` and `\]`
  into the same brackets anyway (`Latex.FixOverescapeIsStripEscapes`).
- `LRU.put` can raise. This happens only when `maxsize < 1`, for a new key on an
  empty cache, because `popitem` has nothing to evict. The model returns
  `false` there and leaves the cache unchanged (`Lru.LRU.Put`).
- A payload `mode` made only of spaces is truthy, so the query parameter is
  never consulted. Stripped, it becomes the empty mode, and the request takes
  the tutor path (`ChatMode.BlankPayloadModeHidesQuery`).
- A `userid` cell made only of spaces is truthy, so it does not default to 0.
  `int()` then rejects it, and the handler answers 500
  (`DryRun.UserIdBlankCell`).
- `int()` refuses a string of more than 4300 digits (CPython's default
  `sys.int_max_str_digits`). A `userid` cell that long gets the 500 answer
  (`DryRun.UserIdTooLong`). The model follows CPython 3.11 and later and the
  security releases that brought the limit to older versions; before those,
  `int()` had no limit.

## Model

| member | source | states |
|---|---|---|
| Lru.LRU.constructor | app.py:56-58 | A new cache is empty, has the given `maxsize`, and satisfies the cache invariant. |
| Lru.Removed | app.py:61 | `OrderedDict.pop` on the key order: the result holds exactly the other keys. It stays duplicate-free and is one shorter when the key was present. |
| Lru.RemovedAt | app.py:61 | Removing the key at position p closes the gap and keeps the relative order of all other keys. |
| Lru.LRU.Pop | app.py:61 | `pop(k)` returns the stored value, removes k from both the map and the order, and keeps the ordered-dictionary invariant. |
| Lru.LRU.SetItem | app.py:62 | `__setitem__` updates the value. A new key goes to the most recent end; a present key keeps its place. |
| Lru.LRU.PopFirst | app.py:69 | `popitem(last=False)` removes and returns the least recently used entry. On an empty dictionary it reports failure and changes nothing. |
| Lru.LRU.Get | app.py:59-64 | A hit returns the stored value and moves the key to the most recent end, leaving the values unchanged. A miss returns None and changes nothing. The capacity invariant holds throughout. |
| Lru.LRU.Put | app.py:65-70 | After a put, the key holds the new value and is the most recent. A present key is moved to the end; a new key is appended, after the least recently used key is evicted if the cache is full. The size never exceeds `maxsize`. Failure happens exactly when `maxsize < 1`. |
| Latex.CollapseCommandPairs | app.py:75 | The first substitution of `_collapse_command_backslashes`, as a left-to-right scan; it never lengthens the text. Its properties are in `Latex.PairsAtRun`, `Latex.CommandPairsDrop`, `Latex.CommandPairsLast` and `Latex.CommandPairsSplit`. |
| Latex.PairsAtRun | app.py:75 | A leading run of n backslashes loses exactly one backslash when n is at least 2 and a letter or square bracket follows. Otherwise the run is kept. The text after the run is rewritten on its own. |
| Latex.CommandPairsDrop | app.py:75 | The command-pair substitution only removes backslashes: every other character survives, in order. |
| Latex.CommandPairsLast | app.py:75 | The substitution keeps the last character of the text. |
| Latex.LeadingBackslashesRun | app.py:76 | The counted prefix consists of backslashes and is followed by a non-backslash. |
| Latex.CollapseBackslashRuns | app.py:76 | The second substitution, `\\{3,}` to one backslash; it never lengthens the text. Its properties are in `Latex.RunsAtRun`, `Latex.BackslashRunsDrop`, `Latex.BackslashRunsNoTriple` and `Latex.BackslashRunsSplit`. |
| Latex.RunsAtRun | app.py:76 | A leading run of m backslashes becomes one backslash when m is at least 3 and is kept otherwise. The text after it is rewritten on its own. |
| Latex.BackslashRunsDrop | app.py:76 | Collapsing backslash runs removes only backslashes. |
| Latex.BackslashRunsNoTriple | app.py:76 | After the run collapse, no three consecutive backslashes remain. A leading run of three or more becomes a single backslash; shorter runs are kept. |
| Latex.CollapseCommandBackslashes | app.py:74-77 | Stage 1, the two substitutions in order. Its properties are in `Latex.CommandBackslashesRun`, `Latex.CommandBackslashesSafe`, `Latex.CommandBackslashesPlain`, `Latex.CommandBackslashesPair` and `Latex.CommandBackslashesLone`. |
| Latex.CommandBackslashesRun | app.py:74-77 | For a maximal run of n backslashes anywhere in the text: n becomes n − 1 when n ≥ 2 and a letter or square bracket follows, and the count m this gives becomes 1 when m ≥ 3. The text on either side is rewritten on its own. So before a letter two backslashes give one, three give two (the case `LatexExamples.SanitizeNotIdempotent` rests on) and four or more give one. Before anything else a run becomes one only from three on. |
| Latex.CommandBackslashesSafe | app.py:74-77 | Stage 1 leaves no run of three backslashes and removes nothing but backslashes. |
| Latex.CommandBackslashesPlain | app.py:74-77 | Text without a backslash passes stage 1 unchanged. |
| Latex.CommandPairsSplit | app.py:75 | Text ending in a non-backslash is rewritten independently of what follows it. |
| Latex.BackslashRunsSplit | app.py:76 | As for the run collapse: a boundary after a non-backslash is a cut point. |
| Latex.CommandBackslashesPair | app.py:74-77 | A lone doubled backslash becomes one backslash before a letter or square bracket. Before anything else (a space, a line end) it is kept: this is how a line break survives. |
| Latex.CommandBackslashesLone | app.py:74-77 | A single backslash between non-backslashes is kept by stage 1. |
| Latex.FracSpanParts | app.py:89 | The optional `.digits` part splits the text without loss, and what it takes is a well-formed fraction. |
| Latex.FracSpanRun | app.py:89 | A fraction followed by neither a dot nor a digit is taken whole. |
| Latex.ParseDirective | app.py:89 | The spacing-directive pattern tried at one position; a match leaves a shorter rest. What it accepts is stated by `Latex.DirectiveSound` and `Latex.DirectiveRoundTrip`. |
| Latex.DirectiveSound | app.py:89 | Whatever the directive pattern matches is a well-formed directive: `[`, optional spaces, digits, an optional fraction, optional spaces, a unit, optional spaces, `]`. The match and the rest give back the text. |
| Latex.DirectiveRoundTrip | app.py:89 | Every well-formed directive is matched exactly, and the text after it is left as the rest. |
| Latex.RemoveSpacingDirectives | app.py:89 | Stage 2, `re.sub` of the directive pattern with `""`; it never lengthens the text. Its behaviour on every text is stated by `Latex.RemoveBeforeBracket` (text in which no directive starts), `Latex.RemoveDirective` (a directive), `Latex.RemoveAtBracket` (a `[` that starts none) and `Latex.RemoveNone`, with `Latex.RemoveKeepsOtherChars`. |
| Latex.RemoveAtBracket | app.py:89 | A `[` that is followed by neither whitespace nor a digit is kept. |
| Latex.RemovePlainPrefix | app.py:89 | Text without `[` is copied, and the scan continues after it. |
| Latex.RemovePlain | app.py:89 | Text without `[` passes stage 2 unchanged. |
| Latex.RemoveDirective | app.py:89 | A directive is deleted whole, brackets included. Whatever text comes before it is kept, provided no directive starts in that text (it may hold other `[`), and the scan continues after it. |
| Latex.RemoveBeforeBracket | app.py:89 | Text in which no directive starts, followed by a `[` or by nothing, is copied, and the scan continues at that `[`. |
| Latex.RemoveNone | app.py:89 | Text in which no directive starts, such as a list `[0, 1]`, passes stage 2 unchanged. |
| Latex.DirectiveStopsAtBracket | app.py:89 | A position at which no directive starts still starts none when a `[` is appended, because a directive holds no `[` after its first character. |
| Latex.DropRendered | app.py:89 | A directive is made only of directive characters. |
| Latex.RemoveKeepsOtherChars | app.py:89 | Stage 2 removes only characters that can occur in a directive. |
| Latex.StripMathEscapes | app.py:81 | The escape deletion of `_fix_overescape_in_math`: a backslash before math punctuation goes; it never lengthens the text. Its properties are in `Latex.MathEscapesRemoved`, `Latex.MathEscapesKept`, `Latex.MathEscapesSplit`, `Latex.MathEscapesDrop` and `Latex.MathEscapesPlain`. |
| Latex.MathEscapesDrop | app.py:81 | Escape deletion removes only backslashes. |
| Latex.MathEscapesPlain | app.py:81 | Text without a backslash is unchanged. |
| Latex.MathEscapesSplit | app.py:81 | The text on each side of a boundary is rewritten independently, unless a backslash ends the first part and math punctuation starts the second. |
| Latex.MathEscapesRemoved | app.py:81 | Anywhere in the text, a backslash before `= ( ) [ ] + - * / ^ _` is deleted, and the text before and after it is rewritten on its own. |
| Latex.MathEscapesKept | app.py:81 | Anywhere in the text, a backslash not followed by math punctuation is kept. |
| Latex.Replace | app.py:80 | `str.replace`: a text shorter than the pattern comes back unchanged. Its meaning is stated by `Latex.ReplaceAbsent` and `Latex.ReplaceOccurrence`, which together fix it for every text. |
| Latex.ReplacePlainPrefix | app.py:80 | `str.replace` copies text that cannot start an occurrence. |
| Latex.ReplaceOccurrence | app.py:80 | `str.replace` keeps whatever text precedes the first occurrence, replaces that occurrence, and continues after it. |
| Latex.ReplaceBeforeFirst | app.py:80 | `str.replace` copies the text before the first occurrence, whatever it holds. |
| Latex.ReplaceAbsent | app.py:80 | A text in which the pattern does not occur is unchanged by `str.replace`. |
| Latex.ReplaceSubsumed | app.py:80-81 | When a replacement is redundant (its pattern and its replacement reduce to the same text under escape deletion), replacing first never changes the result of escape deletion. |
| Latex.BracketFixesRedundant | app.py:80 | The `\left\[` and `\right\]` replacements are both redundant in that sense. |
| Latex.FixOverescapeInMath | app.py:79-82 | `_fix_overescape_in_math`: the two bracket replacements, then the escape deletion. `Latex.FixOverescapeIsStripEscapes` shows the replacements change nothing. |
| Latex.FixOverescapeIsStripEscapes | app.py:79-82 | `_fix_overescape_in_math` equals the escape deletion alone. |
| Latex.MathAt | app.py:84-85 | A lazy DOTALL span match of `_MATH_DISPLAY` or `_MATH_INLINE` at one position. What it matches is stated by `Latex.MathAtSound` and `Latex.MathAtComplete`. |
| Latex.MathAtSound | app.py:84-85 | A lazy span match splits the text into opener, interior, closer and rest. The interior contains no earlier closer. |
| Latex.MathAtComplete | app.py:84-85 | Whenever the interior holds no earlier closer, the span is matched with exactly that interior and rest. |
| Latex.ClosesAtEndPlain | app.py:84-85 | An interior without the closer's first character ends at the first closer. |
| Latex.FindExtend | app.py:84-85 | A first occurrence stays first when more text follows. |
| Latex.FixMathSpans | app.py:90-93 | `re.sub` of a span pattern with a function that rebuilds the span around its repaired interior. Its behaviour on every text is stated by `Latex.FixSpansPlain` (no opener), `Latex.FixSpansBeforeOpener` (text before the first opener), `Latex.FixSpansMatched` (a closed span) and `Latex.FixSpansUnclosed` (no closer). |
| Latex.FixSpansPlainPrefix | app.py:92-93 | Text without the opener's first character is copied, and the scan continues after it. |
| Latex.FixSpansPlain | app.py:92-93 | Text in which the opener does not occur passes unchanged, whatever else it holds, including escaped brackets outside math. |
| Latex.FixSpansMatched | app.py:92-93 | The first span keeps its delimiters and gets its interior repaired. Whatever text comes before its opener is kept, backslashes included, and the scan resumes after the closer. |
| Latex.FixSpansBeforeOpener | app.py:92-93 | The text before the first opener is copied, whatever it holds. |
| Latex.FixSpansUnclosed | app.py:92-93 | A text is unchanged when no closer follows its first character, or when it starts with an opener and no closer follows that opener. In `$$$a` the opener at the start has no closer after it, so the text is kept. |
| Latex.FixSpansTail | app.py:92-93 | Once the rest of the text holds no closer, no span can be matched in it, and the text is copied. |
| Latex.FixSpansNoCloser | app.py:92-93 | Text that lacks the closer's last character is unchanged. |
| Latex.FixSpansDrop | app.py:92-93 | Span repair removes only backslashes. |
| Latex.FixSpansNoBackslash | app.py:92-93 | Text without backslashes is unchanged by span repair. |
| Latex.SanitizeLatex | app.py:87-94 | `sanitize_latex`: stage 1, stage 2, then display spans and inline spans. Its properties are in `Latex.SanitizeKeepsText`, `Latex.SanitizePlain`, `Latex.SanitizeEmpty` and the `LatexExamples` lemmas. |
| Latex.SanitizeKeepsText | app.py:87-94 | The sanitizer deletes only backslashes and spacing-directive characters. Every other character survives, in order. |
| Latex.SanitizePlain | app.py:87-94 | Text with no backslash and no `[` is returned unchanged. |
| Latex.SanitizeEmpty | app.py:87-94 | Empty input gives empty output. |
| LatexExamples.SanitizeLonePair | app.py:87-94 | In text free of other markup, a doubled backslash becomes one before a letter or bracket and is kept otherwise. |
| LatexExamples.LineBreakKept | app.py:87-94 | `a\\ b` (a line-break marker) is returned unchanged. |
| LatexExamples.SanitizeTwoCommands | app.py:87-94 | Two double-escaped commands are both reduced to one backslash. |
| LatexExamples.CommandsCollapsed | app.py:87-94 | `\\mu_n \\frac{W}{L}` sanitizes to `\mu_n \frac{W}{L}`. |
| LatexExamples.SanitizeSpanThenDirective | app.py:87-94 | A directive after a display span is deleted. The span and the spaces around the directive are kept. |
| LatexExamples.DirectiveRemoved | app.py:87-94 | `$$ x = 1 $$ [6pt] more text` sanitizes to `$$ x = 1 $$  more text`. |
| LatexExamples.MathBracketsRepaired | app.py:87-94 | In `$$ I_D = \mu_n C_{ox}\frac{W}{L}\[(V_{GS}-V_T)V_{DS}\]$$` the escaped brackets lose their backslashes. The command backslashes stay. |
| LatexExamples.ListKeptDirectiveRemoved | app.py:89 | In `[0, 1] [6pt]` the list is kept and the directive is deleted. |
| LatexExamples.UnmatchedDisplayOpener | app.py:92 | `$$$a` passes display-span repair unchanged. |
| LatexExamples.SanitizeNotIdempotent | app.py:74-77 | Sanitizing twice can differ from sanitizing once: three backslashes before a letter give two, then one. |
| ChatMode.RequestedMode | app.py:227 | The mode asked for: the payload's `mode` if truthy, else the query's, else `chat`, stripped and lower-cased. Its normal form is proved in `ChatMode.SelectedModeNormal`. |
| ChatMode.SelectMode | app.py:227-231 | A request carrying a `csv` or `schema` key never ends up with the mode `chat`. Which other mode it gets is stated by `ChatMode.AnalyticsWhen`. |
| ChatMode.AnalyticsWhen | app.py:227-231 | The analytics path is taken exactly when it is requested, or when chat is requested with a `csv` or `schema` key. Without those keys the requested mode is used as is. |
| ChatMode.SelectedModeNormal | app.py:227-231 | The selected mode is always stripped and lower-case. |
| ChatMode.DefaultsToChat | app.py:227-231 | With no usable mode in the payload or the query, the mode is `chat`, or analytics when `csv` or `schema` is present. |
| ChatMode.BlankPayloadModeHidesQuery | app.py:227 | A whitespace-only payload mode hides the query parameter and yields the empty mode. |
| ChatMode.PaddedChatWithCsv | app.py:227-231 | ` Chat ` with CSV data goes to analytics. |
| JsonBlock.ExtractJsonBlock | app2.py:28-35 | The result is empty, or it starts with `{`, ends with `}` and is valid JSON. |
| JsonBlock.ExtractSound | app2.py:28-35 | A non-empty result is the slice of the text that starts at its first `{`. No `}` follows the slice. |
| JsonBlock.ExtractComplete | app2.py:28-35 | Given the first `{` and the last `}`, the result is the slice between them if `{` comes first and the slice is JSON, and empty otherwise. |
| JsonBlock.ExtractNeedsBoth | app2.py:30-31 | A text lacking `{` or `}` yields the empty string. |
| JsonBlock.ExtractIdempotent | app2.py:28-35 | Extracting from an extracted block gives the block back. |
| JsonBlock.WidestSliceOnly | app2.py:30-35 | Only the widest slice is tried: `{} }` yields nothing even though `{}` is JSON. |
| Text.Strip | app.py:227 | `str.strip()`: trimming of the whitespace class at both ends. Its properties are in `Text.TrimParts` and `Text.TrimEmpty`. |
| Text.TrimParts | app.py:227 | Trimming a class removes exactly a prefix and a suffix made of that class, and the result neither starts nor ends with it. For whitespace this is `strip()`. |
| Text.TrimEmpty | app2.py:62 | Trimming gives the empty string exactly for text made only of the class: `strip()` is empty exactly for all-whitespace text. |
| Text.Find | app2.py:30 | `str.find`: -1 or an index at which the pattern fits. Its meaning is stated by `Text.FindSpec`. |
| Text.FindSpec | app2.py:30 | `find` answers the first occurrence, and -1 exactly when there is none. |
| Text.FindChar | app2.py:30 | `find` of one character returns its first position, and -1 exactly when it is absent. |
| Text.RFind | app2.py:30 | `str.rfind`: -1 or an index within the text. Its meaning for one character is stated by `Text.RFindChar`. |
| Text.RFindChar | app2.py:30 | `rfind` of one character returns its last position, and -1 exactly when it is absent. |
| Text.Split | app2.py:72 | `str.split(",")`: always at least one piece. Its meaning is stated by `Text.SplitJoin` and `Text.SplitClean`. |
| Text.SplitJoin | app2.py:72 | Joining the pieces of `split(",")` with commas gives the text back. |
| Text.SplitClean | app2.py:72 | No piece of `split(",")` contains a comma. |
| Text.SplitLines | app2.py:71 | `str.splitlines()`: no lines exactly for the empty text. `Text.SplitLinesOne`, `Text.SplitLinesBreak` and `Text.SplitLinesCrLf` fix its lines one at a time. |
| Text.SplitLinesOne | app2.py:71 | A nonempty text without a line break is one line. |
| Text.SplitLinesBreak | app2.py:71 | A line ends at the first line break, which is dropped, and the lines of the rest follow. A break at the very end adds no empty line, and an empty line between two breaks is kept. |
| Text.SplitLinesCrLf | app2.py:71 | `\r\n` ends one line, not two. |
| Text.SplitLinesConcat | app2.py:71 | The lines of `splitlines()`, concatenated, are the text without its line breaks. |
| Text.SplitLinesClean | app2.py:71 | No line contains a line break. |
| Text.AsciiLower | app.py:227 | `lower()` on ASCII letters: each capital `A`-`Z` becomes its lower-case letter and every other character is kept, so the length is kept. Only the ASCII part of `lower()` is modelled (see Left out). |
| Text.ParseInt | app2.py:76 | `int()` of a `str`: surrounding spaces, an optional sign, digits with single underscores between them, at most 4300 of them. It skips only the spaces CPython skips. Its properties are in `Text.ParseIntRoundTrip`, `Text.ParseIntTooLong`, `Text.ParseIntBlank` and `Text.ParseIntSpaces`. |
| Text.ParseIntRoundTrip | app2.py:76 | `int(str(n)) == n` for every integer of at most 4300 digits. `int()` rejects the decimal form of any longer one. |
| Text.ParseIntTooLong | app2.py:76 | A string of 4301 ones is rejected. |
| Text.ParseIntBlank | app2.py:76 | `int()` of a blank string fails. |
| Text.ParseIntSpaces | app2.py:76 | `int()` skips a tab, a line feed or a no-break space around the digits, but fails on the separator U+001F, which `str.isspace()` counts as whitespace. |
| DryRun.DryRunResult | app2.py:62-86 | What the dry run answers: the 400 for missing CSV, the first bad user id, or the run label and the items. `DryRun.MissingCsvExactly`, `DryRun.DryRunItemsSpec` and `DryRun.ItemsSpec` state it in plain terms. |
| DryRun.DryRunItems | app2.py:62-86 | The dry-run loop answers exactly what `DryRunResult` specifies. That covers the 400 for missing CSV, stopping at the first bad user id, and one item per data row in order. |
| DryRun.MissingCsvExactly | app2.py:62-67 | The 400 answer is given exactly when `csv` is missing, empty or all whitespace. |
| DryRun.DryRunItemsSpec | app2.py:63-86 | A successful dry run has the run label and `min(2, lines - 1)` items. Item k is built from non-blank line k+1 under the header of the first non-blank line, and carries the fixed score, confidence, drivers and messages. |
| DryRun.HasHeader | app2.py:62-72 | CSV text that is not all whitespace always has a first non-blank line, so a header. |
| DryRun.Lines | app2.py:71 | The non-blank lines of the CSV text, in order. It is fixed line by line by `DryRun.LinesBreak` and `DryRun.LinesOne`; see also `DryRun.NonBlankMembers` and `DryRun.HasHeader`. |
| DryRun.LinesBreak | app2.py:71 | The text up to the first line break is kept as a line exactly when it is not blank, and the lines of the rest follow it. |
| DryRun.LinesOne | app2.py:71 | A text without line breaks gives itself as its one line, or no line when it is blank. |
| DryRun.NonBlankMembers | app2.py:71 | A line is kept exactly when it is one of the lines and not whitespace-only. |
| DryRun.Header | app2.py:72 | The first line split at commas, or no columns when there is no line; see `DryRun.HasHeader`. |
| DryRun.NonBlankSpec | app2.py:71 | Every kept line is non-blank. A list without blank lines is kept whole. |
| DryRun.NonBlankConcat | app2.py:71 | Filtering blank lines works piecewise: filtering a concatenation filters each part. |
| DryRun.DataRows | app2.py:74 | `lines[1:3]` holds lines 1 and 2 where they exist, with Python's clamping. |
| DryRun.Zip | app2.py:75 | `zip` pairs the i-th header with the i-th cell, up to the shorter length. |
| DryRun.Dict | app2.py:75 | `dict(pairs)`; its meaning is stated by `DryRun.DictSpec`. |
| DryRun.RecordOf | app2.py:75 | `dict(zip(hdr, cols))`; its meaning is stated by `DryRun.RecordSpec`. |
| DryRun.DictSpec | app2.py:75 | `dict(pairs)` holds exactly the keys of the pairs. Each key has the value of its last pair. |
| DryRun.RecordSpec | app2.py:75 | A row's record holds exactly the columns among the first `min(len(header), len(cells))`. A repeated column gets the cell of its last occurrence. |
| DryRun.UserId | app2.py:76 | `int(rec.get("userid", "0") or 0)`, with a failure where `int()` raises. Its cases are stated by `DryRun.UserIdDefault`, `DryRun.UserIdRoundTrip`, `DryRun.UserIdBlankCell` and `DryRun.UserIdTooLong`. |
| DryRun.UserIdDefault | app2.py:76 | A missing or empty `userid` reads as 0. |
| DryRun.UserIdRoundTrip | app2.py:76 | A `userid` cell holding the decimal form of n reads as n when n has at most 4300 digits. A longer one is rejected, giving the 500 answer. |
| DryRun.UserIdTooLong | app2.py:76 | A `userid` cell of 4301 ones is rejected, giving the 500 answer. |
| DryRun.UserIdBlankCell | app2.py:76 | A `userid` cell of spaces is rejected, giving the 500 answer. |
| DryRun.UserIdSeparatorCell | app2.py:76 | A `userid` cell of U+001F followed by `5` is rejected, giving the 500 answer, because `int()` does not skip that separator. |
| DryRun.RowItem | app2.py:74-84 | The preview item of one data row; see `DryRun.ItemsFailOnUserId` and `DryRun.DryRunItemsSpec`. |
| DryRun.ItemsFailOnUserId | app2.py:74-84 | The rows can fail only on a user id. |
| DryRun.ItemsSpec | app2.py:74-84 | The items succeed exactly when every row does, and then hold one item per row in order. Otherwise the error is that of the first failing row. |
| DryRun.CollectSucceeds | app2.py:74-84 | Collecting the rows in a loop succeeds exactly when every row succeeds. |
| DryRun.CollectValues | app2.py:74-84 | A successful collection holds every value, in order. |
| DryRun.CollectFirstFailure | app2.py:74-84 | A failed collection reports the first failure, and every earlier row succeeded. |
| DryRun.CollectFailureStays | app2.py:74-84 | Once a row fails, later rows do not change the answer. |

## Left out

- HTTP routing, CORS, `get_payload_json`, the `/ping` handlers, the error handler's message formatting, and `jsonify`: HTTP plumbing. The model keeps only the distinction between a 400 and a 500 answer.
- All language-model calls (`get_full_answer`, streaming, `call_llm_json`, the non-dry-run half of `/analyze`, `handle_analyze_adaptive_quiz`) and `extract_json_from_responses`: foreign calls over opaque responses.
- The keep-alive thread and concurrent access to `answer_cache`: the code has no locking, and concurrency is outside this model.
- The branch condition `dryrun or not OPENAI_API_KEY` (app2.py:70) and the `schema` default (app2.py:58-61): they only choose between the dry run and the API call. The model starts inside the dry run.
- JSON validity (`json.loads`): `JsonBlock.ExtractJsonBlock` takes it as a function parameter, so every result holds for any notion of validity.
- `time.strftime` in the default run label: the date is the parameter `today`.
- Payload values that are not strings, for `mode`, `csv` and `run_label`: the model takes these as optional strings. In the source a falsy value of another type (`0`, `[]`, `False`) counts as absent, as the model's `None` or empty string does. A truthy non-string `mode` or `csv` makes `.strip()` raise, giving a 500 the model does not represent. A truthy non-string `run_label` is echoed back unchanged. CSV cells always come from `str.split`, so they are always strings.
- Text.AsciiLower: models `str.lower()` on ASCII letters only. Python also lowers letters of other scripts and turns U+0130 into two characters, so for non-ASCII text the result, and even its length, can differ.
- ChatMode.SelectMode: inherits the ASCII-only lower-casing of `Text.AsciiLower`, so a mode written with non-ASCII capitals may be selected differently.
- Text.ParseInt: reads ASCII digits only. Python's `int()` also accepts decimal digits of other scripts.
- DryRun.UserId: inherits the ASCII-only digits of `Text.ParseInt`.
- Latex.RemoveSpacingDirectives: reads `\d` as ASCII digits. Python's `\d` on `str` patterns also matches other decimal digits.
- DryRun.RecordOf: the record is a `map`, so the key order that `jsonify` would print is not modelled.
