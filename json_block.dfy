/**
 * `extract_json_block` of app2.py: the text from the first `{` to the last
 * `}`, kept only when that one slice is valid JSON. Whether a text parses as
 * JSON (`json.loads`) is the parameter `isJson`.
 */
module JsonBlock {
  import opened Text

  const Open: char := '{'
  const Close: char := '}'

  /** The block, or `""` when there is none. */
  function ExtractJsonBlock(text: string, isJson: string -> bool): (block: string)
    ensures block == [] || (|block| >= 2 && block[0] == Open && block[|block| - 1] == Close && isJson(block))
  {
    if text == [] then ""
    else
      var start := Find(text, [Open]);
      var end := RFind(text, [Close]);
      FindChar(text, Open);
      RFindChar(text, Close);
      if start != -1 && end != -1 && end > start then
        var candidate := text[start..end + 1];
        if isJson(candidate) then candidate else ""
      else ""
  }

  /**
   * The block is the slice of `text` that begins at its first `{` and ends at
   * its last `}`: no `{` comes before it and no `}` after it.
   */
  lemma ExtractSound(text: string, isJson: string -> bool)
    ensures var block := ExtractJsonBlock(text, isJson);
      var start := Find(text, [Open]);
      block != [] ==>
        && 0 <= start && start + |block| <= |text|
        && text[start..start + |block|] == block
        && Open !in text[..start]
        && Close !in text[start + |block|..]
  {
    FindChar(text, Open);
    RFindChar(text, Close);
  }

  /**
   * Given the first `{` at `i` and the last `}` at `j`, the result is the
   * slice between them when `{` comes first and the slice is JSON, and `""`
   * otherwise: no other slice is ever tried.
   */
  lemma ExtractComplete(text: string, isJson: string -> bool, i: nat, j: nat)
    requires i < |text| && text[i] == Open && Open !in text[..i]
    requires j < |text| && text[j] == Close && Close !in text[j + 1..]
    ensures ExtractJsonBlock(text, isJson) == if i < j && isJson(text[i..j + 1]) then text[i..j + 1] else ""
  {
    FindChar(text, Open);
    RFindChar(text, Close);
  }

  /** A text without a `{` or without a `}` has no block. */
  lemma ExtractNeedsBoth(text: string, isJson: string -> bool)
    requires Open !in text || Close !in text
    ensures ExtractJsonBlock(text, isJson) == ""
  {
    FindChar(text, Open);
    RFindChar(text, Close);
  }

  lemma FindAtStart(s: string, c: char)
    requires s != [] && s[0] == c
    ensures Find(s, [c]) == 0
  {
    assert s[..1] == [c];
  }

  lemma RFindAtEnd(s: string, c: char)
    requires s != [] && s[|s| - 1] == c
    ensures RFind(s, [c]) == |s| - 1
  {
    assert s[|s| - 1..][..1] == [c];
    assert RFindUpTo(s, [c], |s| - 1) == |s| - 1;
    assert !StartsWith(s[|s|..], [c]);
  }

  /** A block is its own block: extracting again gives it back unchanged. */
  lemma ExtractIdempotent(text: string, isJson: string -> bool)
    ensures var block := ExtractJsonBlock(text, isJson);
      ExtractJsonBlock(block, isJson) == block
  {
    var block := ExtractJsonBlock(text, isJson);
    if block != [] {
      FindAtStart(block, Open);
      RFindAtEnd(block, Close);
      assert block[0..|block|] == block;
    }
  }

  /**
   * Only the widest slice is tried: in `{} }` the slice `{}` is JSON, but the
   * slice from the first `{` to the last `}` is `{} }`, which is not, so
   * nothing is extracted.
   */
  lemma WidestSliceOnly()
    ensures ExtractJsonBlock("{} }", s => s == "{}") == ""
  {
    var text := "{} }";
    assert text[..0] == [];
    assert text[4..] == [];
    ExtractComplete(text, s => s == "{}", 0, 3);
    assert text[0..4] == text;
  }
}
