/** The MIME type table of mime.go: the per-line rules that build the map
    from media type to extension out of the lines of a mime.types file, and
    `ExtensionByType`, which parses a full media type and looks its bare
    type up in that map. Opening and scanning the file is not modelled: the
    loader takes the file's lines. */
module Mime {
  import opened Wrappers
  import opened GoText
  import Assoc

  /** `mime.ParseMediaType` reduced to what `ExtensionByType` uses of it:
      the bare `type/subtype` of a full media type such as
      `text/html; charset=utf-8`, or `None` when the text is not a media
      type by the grammar of section 5.1 of RFC 2045. The standard-library
      parser is not part of this model; each handler is given one. */
  type MediaTypeParser = string -> Option<string>

  datatype MediaTypeError = InvalidMediaType

  /** `ExtensionByType`: the extension registered for the bare type, the
      empty string when none is (which is not an error), and an error
      only when the media type does not parse. The extension is the
      table's value as it stands: no leading dot is added and there is
      no built-in list to fall back on. */
  function ExtensionByType(parse: MediaTypeParser, table: map<string, string>, fullType: string)
    : (r: Result<string, MediaTypeError>)
    ensures r.Err? <==> parse(fullType).None?
    ensures r.Ok? && parse(fullType).value in table ==> r.value == table[parse(fullType).value]
    ensures r.Ok? && parse(fullType).value !in table ==> r.value == ""
  {
    match parse(fullType)
    case None => Err(InvalidMediaType)
    case Some(justType) => Ok(if justType in table then table[justType] else "")
  }

  // ---------------------------------------------------------------------
  // Building the table

  /** The panic for a line that is neither a comment nor an entry. */
  datatype LoadError = InvalidLine(line: string)

  /** What the loader does with one line of the file: a line whose first
      character is `#` is skipped; any other line must consist of exactly
      two whitespace-separated fields, the type and its extension, which
      it writes into the table; otherwise loading panics. */
  function LineStep(line: string): (r: Result<Option<(string, string)>, LoadError>)
    ensures r == Ok(None) <==> |line| > 0 && line[0] == '#'
    ensures r.Err? ==> r.error == InvalidLine(line)
    ensures r.Ok? && r.value.Some? ==>
              var (t, ext) := r.value.value;
              t != [] && ext != [] && NoSpace(t) && NoSpace(ext) && !IsComment(line)
  {
    if IsComment(line) then Ok(None)
    else
      var fields := Fields(line);
      if |fields| != 2 then Err(InvalidLine(line)) else Ok(Some((fields[0], fields[1])))
  }

  /** The table the loader builds from the lines of the file, or the
      panic it stops at. */
  function TableOf(lines: seq<string>): Result<map<string, string>, LoadError> {
    Assoc.Collect(LineStep, lines)
  }

  /** The loading loop of mime.go's `init`, over the lines of the file. */
  method LoadTable(lines: seq<string>) returns (r: Result<map<string, string>, LoadError>)
    ensures r == TableOf(lines)
  {
    var mimeMap: map<string, string> := map[];
    for i := 0 to |lines|
      invariant TableOf(lines[..i]) == Ok(mimeMap)
    {
      var line := lines[i];
      assert lines[..i + 1][..i] == lines[..i];
      if IsComment(line) {
        continue;
      }
      var fields := Fields(line);
      if |fields| != 2 {
        Assoc.CollectErrorSticks(LineStep, lines, i + 1);
        return Err(InvalidLine(line));
      }
      mimeMap := mimeMap[fields[0] := fields[1]];
    }
    assert lines[..|lines|] == lines;
    return Ok(mimeMap);
  }

  /** A comment line of `mime.types`: `#` in the very first column. */
  predicate IsComment(line: string) {
    HasPrefix(line, "#")
  }

  /** Loading succeeds exactly when every line is a comment or has
      exactly two fields. */
  lemma TableOfSucceeds(lines: seq<string>)
    ensures TableOf(lines).Ok? <==> forall i | 0 <= i < |lines| :: IsComment(lines[i]) || |Fields(lines[i])| == 2
  {
    Assoc.CollectSucceeds(LineStep, lines);
  }

  /** Loading stops at the first line that is neither a comment nor a
      pair of fields, and panics with that line. */
  lemma TableOfFirstInvalid(lines: seq<string>, k: nat)
    requires k < |lines| && !IsComment(lines[k]) && |Fields(lines[k])| != 2
    requires forall i | 0 <= i < k :: IsComment(lines[i]) || |Fields(lines[i])| == 2
    ensures TableOf(lines) == Err(InvalidLine(lines[k]))
  {
    Assoc.CollectFirstError(LineStep, lines, k);
  }

  /** After loading, a type is in the table exactly when some
      non-comment line names it as its first field. */
  lemma TableKeys(lines: seq<string>, t: string)
    requires TableOf(lines).Ok?
    ensures t in TableOf(lines).value <==>
            exists i | 0 <= i < |lines| :: !IsComment(lines[i]) && |Fields(lines[i])| == 2 && Fields(lines[i])[0] == t
  {
    Assoc.CollectKeys(LineStep, lines, t);
  }

  /** A later line for the same type overwrites an earlier one: the
      table holds the extension of the last line that names the type. */
  lemma TableLastEntryWins(lines: seq<string>, i: nat)
    requires TableOf(lines).Ok?
    requires i < |lines| && !IsComment(lines[i]) && |Fields(lines[i])| == 2
    requires forall j | i < j < |lines| ::
               IsComment(lines[j]) || |Fields(lines[j])| != 2 || Fields(lines[j])[0] != Fields(lines[i])[0]
    ensures var fields := Fields(lines[i]);
            fields[0] in TableOf(lines).value && TableOf(lines).value[fields[0]] == fields[1]
  {
    var fields := Fields(lines[i]);
    TableOfSucceeds(lines);
    Assoc.CollectLastWins(LineStep, lines, i, fields[0], fields[1]);
  }

  /** Every extension in a loaded table is non-empty: fields never are. */
  lemma {:induction false} TableExtensionsNonEmpty(lines: seq<string>)
    requires TableOf(lines).Ok?
    ensures forall t | t in TableOf(lines).value :: TableOf(lines).value[t] != ""
    decreases |lines|
  {
    if lines != [] {
      TableExtensionsNonEmpty(lines[..|lines| - 1]);
    }
  }

  /** A blank or all-space line has no fields and stops loading. */
  lemma BlankLineIsInvalid(line: string)
    requires AllSpace(line)
    ensures LineStep(line) == Err(InvalidLine(line))
  {
    FieldsEmptyIffBlank(line);
    if line != [] {
      assert line[0] != '#';
    }
  }

  /** Only a `#` in the very first column makes a comment: an indented
      `#` starts an ordinary entry. */
  lemma IndentedHashIsAnEntry()
    ensures LineStep(" #x y") == Ok(Some(("#x", "y")))
  {
    var pads, words := [" ", " ", ""], ["#x", "y"];
    assert Spaced(pads, words) == " #x y" by {
      assert Spaced(pads[2..], words[2..]) == "";
      assert Spaced(pads[1..], words[1..]) == " y";
    }
    FieldsOfSpaced(pads, words);
  }

  /** With a loaded table, an empty extension means the parsed type is not
      registered, and a non-empty one is that of the type's last entry. */
  lemma ExtensionOfLoadedTable(parse: MediaTypeParser, lines: seq<string>, fullType: string)
    requires TableOf(lines).Ok? && parse(fullType).Some?
    ensures var table := TableOf(lines).value;
            ExtensionByType(parse, table, fullType) == Ok("") <==> parse(fullType).value !in table
  {
    TableExtensionsNonEmpty(lines);
  }
}
