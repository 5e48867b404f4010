/**
 * The dry run of the `/analyze` handler of app2.py: the CSV text of the
 * payload, with blank lines dropped, becomes at most two preview items, one
 * per data row after the header, each carrying the row as a column-to-cell
 * record and its `userid`.
 */
module DryRun {
  import opened Wrappers
  import opened Text

  /** Why the dry run gives no items. */
  datatype Error =
      /** The payload's `csv` is missing or blank: the 400 "Missing 'csv' content" answer. */
    | MissingCsv
      /** `int()` rejected a `userid` cell: the exception becomes the handler's 500 answer. */
    | BadUserId(cell: string)

  /** A data row keyed by column name (`dict(zip(header, cells))`). */
  type Record = map<string, string>

  datatype Item = Item(
    userid: int,
    riskScore: real,
    confidence: real,
    drivers: seq<string>,
    studentMessage: string,
    teacherMessage: string,
    features: Record)

  datatype Response = Response(runLabel: string, items: seq<Item>)

  const RiskScore: real := 50.0
  const Confidence: real := 0.3
  const Drivers: seq<string> := ["dryrun mode"]
  const StudentMessage: string := "Dry-run preview."
  const TeacherMessage: string := "Verify data flow."
  const UserIdColumn: string := "userid"
  const Comma: char := ','

  function Min(a: int, b: int): int
  {
    if a <= b then a else b
  }

  /** `(payload.get("csv") or "").strip()`. */
  function CsvText(csv: Option<string>): string
  {
    Strip(OrElse(csv, ""))
  }

  /** `payload.get("run_label") or f"manual_{date}"`; the date is a parameter. */
  function RunLabel(given: Option<string>, today: string): string
  {
    OrElse(given, "manual_" + today)
  }

  // ---------------------------------------------------------------------------
  // Lines, header and data rows
  // ---------------------------------------------------------------------------

  predicate Blank(line: string) {
    Strip(line) == []
  }

  /** The lines that are not blank, in their order. */
  function NonBlank(lines: seq<string>): (kept: seq<string>)
    ensures |kept| <= |lines|
  {
    if lines == [] then []
    else (if Blank(lines[0]) then [] else [lines[0]]) + NonBlank(lines[1..])
  }

  /** Every kept line is non-blank, and a list without blank lines is kept whole. */
  lemma {:induction false} NonBlankSpec(lines: seq<string>)
    ensures forall i :: 0 <= i < |NonBlank(lines)| ==> !Blank(NonBlank(lines)[i])
    ensures (forall i :: 0 <= i < |lines| ==> !Blank(lines[i])) ==> NonBlank(lines) == lines
    decreases |lines|
  {
    if lines != [] {
      NonBlankSpec(lines[1..]);
      var head := if Blank(lines[0]) then [] else [lines[0]];
      assert NonBlank(lines) == head + NonBlank(lines[1..]);
      if forall i :: 0 <= i < |lines| ==> !Blank(lines[i]) {
        assert forall i :: 0 <= i < |lines| - 1 ==> lines[1..][i] == lines[i + 1];
        assert [lines[0]] + lines[1..] == lines;
      }
    }
  }

  /** Filtering a concatenation filters each part. */
  lemma {:induction false} NonBlankConcat(a: seq<string>, b: seq<string>)
    ensures NonBlank(a + b) == NonBlank(a) + NonBlank(b)
    decreases |a|
  {
    if a == [] {
      assert a + b == b;
    } else {
      NonBlankConcat(a[1..], b);
      assert (a + b)[1..] == a[1..] + b;
      var head := if Blank(a[0]) then [] else [a[0]];
      assert NonBlank(a + b) == head + NonBlank(a[1..] + b);
      assert NonBlank(a) == head + NonBlank(a[1..]);
      ConcatAssoc(head, NonBlank(a[1..]), NonBlank(b));
    }
  }

  /** A line is kept exactly when it is one of the lines and not blank. */
  lemma {:induction false} NonBlankMembers(lines: seq<string>, x: string)
    ensures x in NonBlank(lines) <==> x in lines && !Blank(x)
    decreases |lines|
  {
    if lines != [] {
      NonBlankMembers(lines[1..], x);
      HeadSplit(lines);
    }
  }

  /** `[ln for ln in csv_text.splitlines() if ln.strip()]`. */
  function Lines(text: string): seq<string>
  {
    NonBlank(SplitLines(text))
  }

  /**
   * The text up to its first line break gives one kept line unless it is
   * blank, and the lines of the rest follow.
   */
  lemma LinesBreak(x: string, c: char, t: string)
    requires NoneIn(x, LineBreak) && IsLineBreak(c)
    requires !(c == '\r' && t != [] && t[0] == '\n')
    ensures Lines(x + ([c] + t)) == (if Blank(x) then [] else [x]) + Lines(t)
  {
    SplitLinesBreak(x, c, t);
    NonBlankConcat([x], SplitLines(t));
  }

  /** A text without line breaks is one kept line unless it is blank. */
  lemma LinesOne(x: string)
    requires NoneIn(x, LineBreak)
    ensures Lines(x) == if Blank(x) then [] else [x]
  {
    if x != [] {
      SplitLinesOne(x);
    }
  }

  /** `lines[0].split(",") if lines else []`. */
  function Header(lines: seq<string>): seq<string>
  {
    if lines == [] then [] else Split(lines[0], Comma)
  }

  /** `lines[1:3]`, with Python's clamping of slice bounds. */
  function DataRows(lines: seq<string>): (rows: seq<string>)
    ensures |rows| == if |lines| <= 1 then 0 else Min(2, |lines| - 1)
    ensures forall k :: 0 <= k < |rows| ==> rows[k] == lines[k + 1]
  {
    lines[Min(1, |lines|)..Min(3, |lines|)]
  }

  // ---------------------------------------------------------------------------
  // Records
  // ---------------------------------------------------------------------------

  /** `zip(a, b)`: pairs up to the shorter length. */
  function Zip(a: seq<string>, b: seq<string>): (pairs: seq<(string, string)>)
    ensures |pairs| == Min(|a|, |b|)
    ensures forall i :: 0 <= i < |pairs| ==> pairs[i] == (a[i], b[i])
  {
    if a == [] || b == [] then [] else [(a[0], b[0])] + Zip(a[1..], b[1..])
  }

  /** `dict(pairs)`: entries inserted in order, so a later pair overwrites an earlier one with the same key. */
  function Dict(pairs: seq<(string, string)>): Record
  {
    if pairs == [] then map[]
    else Dict(pairs[..|pairs| - 1])[pairs[|pairs| - 1].0 := pairs[|pairs| - 1].1]
  }

  /** A key is in `dict(pairs)` exactly when some pair has it, and its value is that of the last such pair. */
  lemma {:induction false} DictSpec(pairs: seq<(string, string)>, key: string)
    ensures key in Dict(pairs) <==> exists i :: 0 <= i < |pairs| && pairs[i].0 == key
    ensures forall i :: 0 <= i < |pairs| && pairs[i].0 == key && (forall j :: i < j < |pairs| ==> pairs[j].0 != key) ==>
      key in Dict(pairs) && Dict(pairs)[key] == pairs[i].1
    decreases |pairs|
  {
    if pairs != [] {
      var n := |pairs| - 1;
      var init := pairs[..n];
      DictSpec(init, key);
      assert forall i :: 0 <= i < n ==> init[i] == pairs[i];
      if pairs[n].0 != key {
        if key in Dict(pairs) {
          var i :| 0 <= i < n && init[i].0 == key;
          assert pairs[i].0 == key;
        }
      }
    }
  }

  /** `dict(zip(header, cells))`. */
  function RecordOf(header: seq<string>, cells: seq<string>): Record
  {
    Dict(Zip(header, cells))
  }

  /**
   * The record of a row: a column is present when it names one of the first
   * `min(len(header), len(cells))` cells, and its value is the cell of its
   * last occurrence among them.
   */
  lemma RecordSpec(header: seq<string>, cells: seq<string>, column: string)
    ensures var n := Min(|header|, |cells|);
      && (column in RecordOf(header, cells) <==> exists i :: 0 <= i < n && header[i] == column)
      && (forall i :: 0 <= i < n && header[i] == column && (forall j :: i < j < n ==> header[j] != column) ==>
            column in RecordOf(header, cells) && RecordOf(header, cells)[column] == cells[i])
  {
    var pairs := Zip(header, cells);
    DictSpec(pairs, column);
    var n := Min(|header|, |cells|);
    forall i | 0 <= i < n && header[i] == column && (forall j :: i < j < n ==> header[j] != column)
      ensures column in RecordOf(header, cells) && RecordOf(header, cells)[column] == cells[i]
    {
      assert pairs[i].0 == column;
      assert forall j :: i < j < n ==> pairs[j].0 == header[j];
    }
    if column in RecordOf(header, cells) {
      var i :| 0 <= i < n && pairs[i].0 == column;
      assert header[i] == column;
    }
  }

  /** `int(rec.get("userid", "0") or 0)`: a missing or empty cell reads as 0. */
  function UserId(rec: Record): Result<int, Error>
  {
    var cell := if UserIdColumn in rec then rec[UserIdColumn] else "0";
    if cell == [] then Success(0)
    else
      match ParseInt(cell)
      case None => Failure(BadUserId(cell))
      case Some(n) => Success(n)
  }

  /** A record without a `userid` column, or with an empty one, gets user id 0. */
  lemma UserIdDefault(rec: Record)
    requires UserIdColumn !in rec || rec[UserIdColumn] == ""
    ensures UserId(rec) == Success(0)
  {
    if UserIdColumn !in rec {
      ParseIntRoundTrip(0);
    }
  }

  /**
   * A cell holding the decimal form of `n` gives `n` back when `n` has at
   * most `MaxStrDigits` digits; a longer one makes `int()` raise.
   */
  lemma UserIdRoundTrip(rec: Record, n: int)
    requires UserIdColumn in rec && rec[UserIdColumn] == IntToString(n)
    ensures UserId(rec) == if |Magnitude(n)| <= MaxStrDigits then Success(n) else Failure(BadUserId(IntToString(n)))
  {
    ParseIntRoundTrip(n);
  }

  /** A cell of 4301 ones is rejected, and the handler answers 500. */
  lemma UserIdTooLong()
    ensures var cell := seq(MaxStrDigits + 1, _ => '1');
      UserId(map[UserIdColumn := cell]) == Failure(BadUserId(cell))
  {
    ParseIntTooLong();
  }

  /** A cell of spaces is truthy, so it is not defaulted, and `int()` rejects it. */
  lemma UserIdBlankCell(rec: Record)
    requires UserIdColumn in rec && rec[UserIdColumn] != [] && All(rec[UserIdColumn], Whitespace)
    ensures UserId(rec) == Failure(BadUserId(rec[UserIdColumn]))
  {
    ParseIntBlank(rec[UserIdColumn]);
  }

  /**
   * A cell holding the separator U+001F before a digit is rejected: `int()`
   * does not skip that character, although `str.isspace()` counts it as
   * whitespace.
   */
  lemma UserIdSeparatorCell()
    ensures UserId(map[UserIdColumn := "\U{1F}5"]) == Failure(BadUserId("\U{1F}5"))
  {
    ParseIntSpaces();
  }

  // ---------------------------------------------------------------------------
  // Items
  // ---------------------------------------------------------------------------

  /** The preview item for one data row. */
  function RowItem(header: seq<string>, row: string): Result<Item, Error>
  {
    var rec := RecordOf(header, Split(row, Comma));
    match UserId(rec)
    case Failure(e) => Failure(e)
    case Success(uid) => Success(Item(uid, RiskScore, Confidence, Drivers, StudentMessage, TeacherMessage, rec))
  }

  /**
   * The values of `results` in order, or the first failure: a loop that
   * appends each value and stops at the first exception.
   */
  function Collect<T, E>(results: seq<Result<T, E>>): Result<seq<T>, E>
    decreases |results|
  {
    if results == [] then Success([])
    else
      match Collect(results[..|results| - 1])
      case Failure(e) => Failure(e)
      case Success(values) =>
        match results[|results| - 1]
        case Failure(e) => Failure(e)
        case Success(v) => Success(values + [v])
  }

  /** Collecting succeeds exactly when every result is a success. */
  lemma {:induction false} CollectSucceeds<T, E>(results: seq<Result<T, E>>)
    ensures Collect(results).Success? <==> forall k :: 0 <= k < |results| ==> results[k].Success?
    decreases |results|
  {
    if results != [] {
      var n := |results| - 1;
      CollectSucceeds(results[..n]);
      assert forall k :: 0 <= k < n ==> results[..n][k] == results[k];
    }
  }

  /** A successful collection holds every value, in order. */
  lemma {:induction false} CollectValues<T, E>(results: seq<Result<T, E>>)
    requires Collect(results).Success?
    ensures |Collect(results).value| == |results|
    ensures forall k :: 0 <= k < |results| ==> Success(Collect(results).value[k]) == results[k]
    decreases |results|
  {
    if results != [] {
      var n := |results| - 1;
      var init := results[..n];
      CollectValues(init);
      assert forall k :: 0 <= k < n ==> init[k] == results[k];
    }
  }

  /** A failed collection reports its first failure. */
  lemma {:induction false} CollectFirstFailure<T, E>(results: seq<Result<T, E>>)
    requires Collect(results).Failure?
    ensures exists k :: 0 <= k < |results| && results[k] == Failure(Collect(results).error)
                        && forall j :: 0 <= j < k ==> results[j].Success?
    decreases |results|
  {
    var n := |results| - 1;
    var init := results[..n];
    assert forall k :: 0 <= k < n ==> init[k] == results[k];
    if Collect(init).Failure? {
      CollectFirstFailure(init);
      var k :| 0 <= k < n && init[k] == Failure(Collect(init).error) && forall j :: 0 <= j < k ==> init[j].Success?;
      assert results[k] == Failure(Collect(results).error);
    } else {
      CollectSucceeds(init);
    }
  }

  /** Once a prefix fails, the whole collection fails with that error. */
  lemma {:induction false} CollectFailureStays<T, E>(results: seq<Result<T, E>>, i: nat)
    requires i <= |results| && Collect(results[..i]).Failure?
    ensures Collect(results) == Collect(results[..i])
    decreases |results| - i
  {
    if i < |results| {
      assert results[..i + 1][..i] == results[..i];
      CollectFailureStays(results, i + 1);
    } else {
      assert results[..i] == results;
    }
  }

  /** The result of each data row, in order. */
  function RowResults(header: seq<string>, rows: seq<string>): (results: seq<Result<Item, Error>>)
    ensures |results| == |rows|
    ensures forall k :: 0 <= k < |rows| ==> results[k] == RowItem(header, rows[k])
  {
    seq(|rows|, k requires 0 <= k < |rows| => RowItem(header, rows[k]))
  }

  /** The items for `rows` in order, or the error of the first row that fails. */
  function Items(header: seq<string>, rows: seq<string>): Result<seq<Item>, Error>
  {
    Collect(RowResults(header, rows))
  }

  /**
   * Items succeed exactly when every row does, and then hold one item per
   * row in row order; otherwise the error is that of the first failing row.
   */
  lemma ItemsSpec(header: seq<string>, rows: seq<string>)
    ensures Items(header, rows).Success? <==> forall k :: 0 <= k < |rows| ==> RowItem(header, rows[k]).Success?
    ensures Items(header, rows).Success? ==>
      && |Items(header, rows).value| == |rows|
      && forall k :: 0 <= k < |rows| ==> Success(Items(header, rows).value[k]) == RowItem(header, rows[k])
    ensures Items(header, rows).Failure? ==>
      exists k :: 0 <= k < |rows| && RowItem(header, rows[k]) == Failure(Items(header, rows).error)
                  && forall j :: 0 <= j < k ==> RowItem(header, rows[j]).Success?
  {
    var results := RowResults(header, rows);
    CollectSucceeds(results);
    if Collect(results).Success? {
      CollectValues(results);
    } else {
      CollectFirstFailure(results);
    }
  }

  // ---------------------------------------------------------------------------
  // The dry run
  // ---------------------------------------------------------------------------

  /** What the dry run answers, as a function of the payload fields and the date. */
  function DryRunResult(csv: Option<string>, runLabel: Option<string>, today: string): Result<Response, Error>
  {
    var text := CsvText(csv);
    if text == [] then Failure(MissingCsv)
    else
      var lines := Lines(text);
      match Items(Header(lines), DataRows(lines))
      case Failure(e) => Failure(e)
      case Success(items) => Success(Response(RunLabel(runLabel, today), items))
  }

  /** The dry-run block: one preview item per data row, built in a loop. */
  method DryRunItems(csv: Option<string>, runLabel: Option<string>, today: string) returns (r: Result<Response, Error>)
    ensures r == DryRunResult(csv, runLabel, today)
  {
    var text := CsvText(csv);
    if text == [] {
      return Failure(MissingCsv);
    }
    var lines := Lines(text);
    var header := Header(lines);
    var rows := DataRows(lines);
    var items: seq<Item> := [];
    ghost var results := RowResults(header, rows);
    var i := 0;
    while i < |rows|
      invariant 0 <= i <= |rows|
      invariant Collect(results[..i]) == Success(items)
    {
      var rec := RecordOf(header, Split(rows[i], Comma));
      var uid := UserId(rec);
      assert results[..i + 1][..i] == results[..i];
      if uid.Failure? {
        CollectFailureStays(results, i + 1);
        return Failure(uid.error);
      }
      items := items + [Item(uid.value, RiskScore, Confidence, Drivers, StudentMessage, TeacherMessage, rec)];
      i := i + 1;
    }
    assert results[..i] == results;
    r := Success(Response(RunLabel(runLabel, today), items));
  }

  // ---------------------------------------------------------------------------
  // Properties of the dry run
  // ---------------------------------------------------------------------------

  lemma {:induction false} ConcatBlank(lines: seq<string>)
    requires forall i :: 0 <= i < |lines| ==> All(lines[i], Whitespace)
    ensures All(Concat(lines), Whitespace)
    decreases |lines|
  {
    if lines != [] {
      ConcatBlank(lines[1..]);
      var c := Concat(lines);
      assert All(lines[0], Whitespace);
      forall k | 0 <= k < |c| ensures IsSpace(c[k]) {
        if k >= |lines[0]| {
          assert c[k] == Concat(lines[1..])[k - |lines[0]|];
        }
      }
    }
  }

  lemma {:induction false} DropBreaksBlank(s: string)
    requires All(Drop(s, LineBreak), Whitespace)
    ensures All(s, Whitespace)
    decreases |s|
  {
    if s != [] {
      var head := if IsLineBreak(s[0]) then [] else [s[0]];
      assert Drop(s, LineBreak) == head + Drop(s[1..], LineBreak);
      assert All(Drop(s[1..], LineBreak), Whitespace) by {
        forall k | 0 <= k < |Drop(s[1..], LineBreak)| ensures IsSpace(Drop(s[1..], LineBreak)[k]) {
          assert Drop(s[1..], LineBreak)[k] == Drop(s, LineBreak)[|head| + k];
        }
      }
      DropBreaksBlank(s[1..]);
      if !IsLineBreak(s[0]) {
        assert s[0] == Drop(s, LineBreak)[0];
      }
      assert forall k :: 1 <= k < |s| ==> s[k] == s[1..][k - 1];
    }
  }

  lemma {:induction false} AllBlankFiltered(lines: seq<string>)
    requires NonBlank(lines) == []
    ensures forall i :: 0 <= i < |lines| ==> All(lines[i], Whitespace)
    decreases |lines|
  {
    if lines != [] {
      AllBlankFiltered(lines[1..]);
      TrimEmpty(lines[0], Whitespace);
      forall i | 1 <= i < |lines| ensures All(lines[i], Whitespace) {
        assert lines[i] == lines[1..][i - 1];
      }
    }
  }

  /** A text that is not all whitespace has a non-blank line, so the header exists. */
  lemma HasHeader(text: string)
    requires !All(text, Whitespace)
    ensures Lines(text) != []
  {
    if Lines(text) == [] {
      AllBlankFiltered(SplitLines(text));
      ConcatBlank(SplitLines(text));
      SplitLinesConcat(text);
      DropBreaksBlank(text);
      assert false;
    }
  }

  /** Only a user id cell can make the rows fail. */
  lemma ItemsFailOnUserId(header: seq<string>, rows: seq<string>)
    ensures Items(header, rows).Failure? ==> Items(header, rows).error.BadUserId?
  {
    ItemsSpec(header, rows);
  }

  /** The 400 answer is given exactly for a missing, empty or all-whitespace `csv`. */
  lemma MissingCsvExactly(csv: Option<string>, runLabel: Option<string>, today: string)
    ensures DryRunResult(csv, runLabel, today) == Failure(MissingCsv) <==> All(OrElse(csv, ""), Whitespace)
  {
    TrimEmpty(OrElse(csv, ""), Whitespace);
    var lines := Lines(CsvText(csv));
    ItemsFailOnUserId(Header(lines), DataRows(lines));
  }

  /**
   * A successful dry run answers with the run label and one item for each of
   * the second and third non-blank lines that exist, in order, each built
   * from that line's record under the header of the first non-blank line.
   */
  lemma DryRunItemsSpec(csv: Option<string>, runLabel: Option<string>, today: string)
    requires DryRunResult(csv, runLabel, today).Success?
    ensures var lines := Lines(CsvText(csv));
      var response := DryRunResult(csv, runLabel, today).value;
      && lines != []
      && response.runLabel == RunLabel(runLabel, today)
      && |response.items| == Min(2, |lines| - 1)
      && forall k :: 0 <= k < |response.items| ==>
        var rec := RecordOf(Split(lines[0], Comma), Split(lines[k + 1], Comma));
        && response.items[k].features == rec
        && Success(response.items[k].userid) == UserId(rec)
        && response.items[k].riskScore == RiskScore
        && response.items[k].confidence == Confidence
        && response.items[k].drivers == Drivers
        && response.items[k].studentMessage == StudentMessage
        && response.items[k].teacherMessage == TeacherMessage
  {
    var text := CsvText(csv);
    TrimParts(OrElse(csv, ""), Whitespace);
    TrimEmpty(text, Whitespace);
    HasHeader(text);
    var lines := Lines(text);
    ItemsSpec(Header(lines), DataRows(lines));
  }

  /** The label defaults to `manual_` and the date when the payload has none. */
  lemma DefaultRunLabel(today: string)
    ensures RunLabel(None, today) == "manual_" + today && RunLabel(Some(""), today) == "manual_" + today
  {
  }
}
