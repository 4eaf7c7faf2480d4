/**
 * `erdantic/pydantic.py`: the HTML-like table a Pydantic model is drawn as, with its header,
 * its description and one row per field, the word wrap applied to descriptions, and the field
 * cache of `PydanticModel`.
 */
module Pydantic {

  import opened Wrappers
  import opened PyStr
  import opened Base

  const HEADER_ROW_COLOR := "#f3f797"
  const DESCRIPTION_ROW_COLOR := "#fcffcc"
  const ODD_ROW_COLOR := "#FFFFFF"
  const EVEN_ROW_COLOR := "#e3e3e3"

  const CHARACTER_LIMIT := 40
  const HEADER_CHARACTER_LIMIT := 100

  const LINE_SEPARATOR := "\n<br></br>"
  const TABLE_OPEN := "<<table border=\"0\" cellborder=\"1\" cellpadding=\"5\" cellspacing=\"0\">"
  const TABLE_CLOSE := "</table>>"

  /** Python truthiness of an optional string: present and not empty. */
  predicate Truthy(s: Option<string>)
  {
    s.Some? && s.value != ""
  }

  // ---------------------------------------------------------------------------------------------
  // get_type_name

  /**
   * One repetition of `".+",?`: a quote, at least one character other than a newline (which
   * `.` does not match), a quote, and perhaps a comma.
   */
  ghost predicate QuotedOption(u: string)
  {
    exists w: string :: w != [] && '\n' !in w && (u == "\"" + w + "\"" || u == "\"" + w + "\",")
  }

  /** `(".+",?)+`: one or more repetitions in a row. */
  ghost predicate QuotedOptions(x: string)
    decreases |x|
  {
    || QuotedOption(x)
    || exists k :: 0 < k < |x| && QuotedOption(x[..k]) && QuotedOptions(x[k..])
  }

  /**
   * `TEXT_OPTION_PATTERN.search(s)` for `^Union\[(".+",?)+]$`: `^` anchors at the start, and `$`
   * matches at the end or just before a final newline.
   */
  ghost predicate TextOptionPattern(s: string)
  {
    exists x :: QuotedOptions(x) && (s == "Union[" + x + "]" || s == "Union[" + x + "]\n")
  }

  /** A recogniser for `(".+",?)+`: a quote first, a quote or a quote and a comma last, no newline. */
  predicate IsQuotedOptions(x: string)
  {
    && '\n' !in x
    && |x| >= 3 && x[0] == '"'
    && (x[|x| - 1] == '"' || (|x| >= 4 && x[|x| - 2..] == "\","))
  }

  /** A recogniser for `TEXT_OPTION_PATTERN.search`. */
  predicate MatchesTextOption(s: string)
  {
    var t := if s != [] && s[|s| - 1] == '\n' then s[..|s| - 1] else s;
    |t| >= 7 && t[..6] == "Union[" && t[|t| - 1] == ']' && IsQuotedOptions(t[6..|t| - 1])
  }

  lemma QuotedOptionShape(u: string)
    requires QuotedOption(u)
    ensures IsQuotedOptions(u)
  {
    var w: string :| w != [] && '\n' !in w && (u == "\"" + w + "\"" || u == "\"" + w + "\",");
    assert u[0] == '"';
    if u == "\"" + w + "\"" {
      assert u[|u| - 1] == '"';
    } else {
      assert u[|u| - 2..] == "\",";
    }
  }

  lemma ShapeQuotedOption(x: string)
    requires IsQuotedOptions(x)
    ensures QuotedOption(x)
  {
    if x[|x| - 1] == '"' {
      var w := x[1..|x| - 1];
      assert x == "\"" + w + "\"";
    } else {
      var w := x[1..|x| - 2];
      assert x == "\"" + w + "\",";
    }
  }

  /** Two repetitions in a row are again a repetition, as far as the recogniser can tell. */
  lemma QuotedOptionsConcat(head: string, tail: string)
    requires IsQuotedOptions(head) && IsQuotedOptions(tail)
    ensures IsQuotedOptions(head + tail)
  {
    var x := head + tail;
    var k := |head|;
    assert x[0] == head[0];
    assert forall i :: 0 <= i < |tail| ==> x[k + i] == tail[i];
    assert x[|x| - 1] == tail[|tail| - 1];
    assert x[|x| - 2] == tail[|tail| - 2];
    assert x[|x| - 2..] == tail[|tail| - 2..];
    forall i | 0 <= i < |x|
      ensures x[i] != '\n'
    {
      if i < k {
        assert x[i] == head[i];
      } else {
        assert x[i] == tail[i - k];
      }
    }
  }

  lemma {:induction false} QuotedOptionsShape(x: string)
    requires QuotedOptions(x)
    ensures IsQuotedOptions(x)
    decreases |x|
  {
    if QuotedOption(x) {
      QuotedOptionShape(x);
    } else {
      var k :| 0 < k < |x| && QuotedOption(x[..k]) && QuotedOptions(x[k..]);
      QuotedOptionShape(x[..k]);
      QuotedOptionsShape(x[k..]);
      QuotedOptionsConcat(x[..k], x[k..]);
      assert x == x[..k] + x[k..];
    }
  }

  /** The recogniser accepts exactly the strings the repetition matches. */
  lemma QuotedOptionsIff(x: string)
    ensures QuotedOptions(x) <==> IsQuotedOptions(x)
  {
    if IsQuotedOptions(x) {
      ShapeQuotedOption(x);
    }
    if QuotedOptions(x) {
      QuotedOptionsShape(x);
    }
  }

  lemma PatternMatches(s: string)
    requires TextOptionPattern(s)
    ensures MatchesTextOption(s)
  {
    var x :| QuotedOptions(x) && (s == "Union[" + x + "]" || s == "Union[" + x + "]\n");
    QuotedOptionsIff(x);
    var t := "Union[" + x + "]";
    if s == t + "\n" {
      assert s[..|s| - 1] == t;
    }
    assert t[..6] == "Union[";
    assert t[6..|t| - 1] == x;
  }

  lemma MatchesPattern(s: string)
    requires MatchesTextOption(s)
    ensures TextOptionPattern(s)
  {
    var t := if s != [] && s[|s| - 1] == '\n' then s[..|s| - 1] else s;
    var x := t[6..|t| - 1];
    QuotedOptionsIff(x);
    assert t == t[..6] + x + [t[|t| - 1]];
    assert t == "Union[" + x + "]";
    if s != [] && s[|s| - 1] == '\n' {
      assert s == t + "\n";
    }
  }

  /** `MatchesTextOption` decides the pattern. */
  lemma TextOptionIff(s: string)
    ensures TextOptionPattern(s) <==> MatchesTextOption(s)
  {
    if TextOptionPattern(s) {
      PatternMatches(s);
    }
    if MatchesTextOption(s) {
      MatchesPattern(s);
    }
  }

  /**
   * `get_type_name(field)`: `"str"` for a union of string literals, which is how a `Literal`
   * of strings is rendered; the type name unchanged otherwise.
   */
  function GetTypeName(field: Field): (r: string)
    ensures TextOptionPattern(field.typeName) ==> r == "str"
    ensures !TextOptionPattern(field.typeName) ==> r == field.typeName
  {
    TextOptionIff(field.typeName);
    if MatchesTextOption(field.typeName) then "str" else field.typeName
  }

  // ---------------------------------------------------------------------------------------------
  // split_description_lines

  /** `re.sub("\n+", " ", m)` followed by `re.sub(" +", " ", m)`. */
  function Normalize(message: string): (r: string)
    ensures '\n' !in r
    ensures forall i :: 0 <= i < |r| - 1 ==> !(r[i] == ' ' && r[i + 1] == ' ')
  {
    CollapseSpacesNoDouble(CollapseRuns(message, '\n'));
    CollapseRuns(CollapseRuns(message, '\n'), ' ')
  }

  /** `lines` and `current_message` between two turns of the loop over the pieces. */
  datatype WrapState = WrapState(lines: seq<string>, current: string)

  /** Normalising keeps the words of the message, newlines read as spaces. */
  lemma NormalizeWords(message: string)
    ensures Words(Normalize(message)) == Words(SpacedOut(message, '\n'))
  {
    var once := CollapseRuns(message, '\n');
    CollapseRunsWords(once, ' ');
    SpacedOutSpace(once);
    CollapseRunsWords(message, '\n');
  }

  /** One turn of the loop: start a new line with `piece` when it would not fit on the current one. */
  function WrapStep(st: WrapState, piece: string, limit: int): WrapState
  {
    if st.current != "" then
      if |st.current + piece| + 1 > limit then WrapState(st.lines + [st.current], piece)
      else WrapState(st.lines, st.current + " " + piece)
    else WrapState(st.lines, piece)
  }

  /** The loop from piece `i` on, then the final flush of a non-empty current line. */
  function WrapFrom(pieces: seq<string>, i: nat, st: WrapState, limit: int): seq<string>
    requires i <= |pieces|
    decreases |pieces| - i
  {
    if i == |pieces| then (if st.current != "" then st.lines + [st.current] else st.lines)
    else WrapFrom(pieces, i + 1, WrapStep(st, pieces[i], limit), limit)
  }

  /** The lines a message too long to be kept as it is gets wrapped into. */
  function DescriptionLines(message: string, limit: int): seq<string>
  {
    WrapFrom(Split(Normalize(message), ' '), 0, WrapState([], ""), limit)
  }

  /** `split_description_lines(message, character_limit)` */
  function SplitDescription(message: string, limit: int): string
  {
    if |message| < limit then message else Join(DescriptionLines(message, limit), LINE_SEPARATOR)
  }

  /** `split_description_lines`, with its loop. */
  method SplitDescriptionLines(message: string, limit: int := CHARACTER_LIMIT) returns (r: string)
    ensures r == SplitDescription(message, limit)
  {
    if |message| < limit {
      return message;
    }
    var lines: seq<string> := [];
    var normalized := CollapseRuns(message, '\n');
    normalized := CollapseRuns(normalized, ' ');
    var current := "";
    var pieces := Split(normalized, ' ');
    for i := 0 to |pieces|
      invariant WrapFrom(pieces, i, WrapState(lines, current), limit) == DescriptionLines(message, limit)
    {
      var piece := pieces[i];
      if current != "" {
        if |current + piece| + 1 > limit {
          lines := lines + [current];
          current := piece;
        } else {
          current := current + " " + piece;
        }
      } else {
        current := piece;
      }
    }
    if current != "" {
      lines := lines + [current];
    }
    r := Join(lines, LINE_SEPARATOR);
  }

  /** A wrapped line: not empty, no newline, and within the limit unless it is a single word. */
  predicate LineOk(line: string, limit: int)
  {
    line != "" && '\n' !in line && (|line| <= limit || ' ' !in line)
  }

  lemma {:induction false} WrapFromLines(pieces: seq<string>, i: nat, st: WrapState, limit: int)
    requires i <= |pieces|
    requires forall k :: i <= k < |pieces| ==> ' ' !in pieces[k] && '\n' !in pieces[k]
    requires '\n' !in st.current && (|st.current| <= limit || ' ' !in st.current)
    requires forall k :: 0 <= k < |st.lines| ==> LineOk(st.lines[k], limit)
    ensures forall k :: 0 <= k < |WrapFrom(pieces, i, st, limit)| ==> LineOk(WrapFrom(pieces, i, st, limit)[k], limit)
    decreases |pieces| - i
  {
    if i < |pieces| {
      var next := WrapStep(st, pieces[i], limit);
      if st.current != "" && |st.current + pieces[i]| + 1 <= limit {
        assert next.current == st.current + " " + pieces[i];
        assert |next.current| == |st.current + pieces[i]| + 1;
      }
      WrapFromLines(pieces, i + 1, next, limit);
    }
  }

  /**
   * Every line of a wrapped description is non-empty and free of newlines, and is at most
   * `character_limit` long unless it is a single word longer than that.
   */
  lemma DescriptionLinesOk(message: string, limit: int)
    ensures forall k :: 0 <= k < |DescriptionLines(message, limit)| ==>
              LineOk(DescriptionLines(message, limit)[k], limit)
  {
    var pieces := Split(Normalize(message), ' ');
    forall k | 0 <= k < |pieces|
      ensures '\n' !in pieces[k]
    {
      JoinContains(pieces, [' '], k);
    }
    WrapFromLines(pieces, 0, WrapState([], ""), limit);
  }

  /** The characters of a part are among those of its join. */
  lemma {:induction false} JoinContains(parts: seq<string>, sep: string, k: nat)
    requires k < |parts|
    ensures forall ch :: ch in parts[k] ==> ch in Join(parts, sep)
  {
    if k > 0 {
      JoinContains(parts[1..], sep, k - 1);
      assert Join(parts, sep) == parts[0] + sep + Join(parts[1..], sep);
    } else if |parts| > 1 {
      assert Join(parts, sep) == parts[0] + (sep + Join(parts[1..], sep));
    }
  }

  /** The words of each line, in order. */
  function WordsOfLines(lines: seq<string>): seq<string>
  {
    if lines == [] then [] else WordsOfLines(lines[..|lines| - 1]) + Words(lines[|lines| - 1])
  }

  lemma WordsOfLinesAppend(lines: seq<string>, line: string)
    ensures WordsOfLines(lines + [line]) == WordsOfLines(lines) + Words(line)
  {
    assert (lines + [line])[..|lines|] == lines;
  }

  /** One turn of the loop keeps the words of the lines and the current line, and adds the piece's. */
  lemma WrapStepWords(st: WrapState, piece: string, limit: int)
    requires ' ' !in piece
    ensures var next := WrapStep(st, piece, limit);
            WordsOfLines(next.lines) + Words(next.current)
            == WordsOfLines(st.lines) + Words(st.current) + NonEmpty([piece])
  {
    WordsOfPiece(piece);
    if st.current != "" {
      if |st.current + piece| + 1 > limit {
        WordsOfLinesAppend(st.lines, st.current);
      } else {
        WordsAround(st.current, piece);
      }
    } else {
      WordsEmpty();
    }
  }

  /** The final flush keeps the words of the lines and the current line. */
  lemma FlushWords(st: WrapState)
    ensures WordsOfLines(if st.current != "" then st.lines + [st.current] else st.lines)
            == WordsOfLines(st.lines) + Words(st.current)
  {
    WordsEmpty();
    if st.current != "" {
      WordsOfLinesAppend(st.lines, st.current);
    }
  }

  lemma {:induction false} WrapFromWords(pieces: seq<string>, i: nat, st: WrapState, limit: int)
    requires i <= |pieces|
    requires forall k :: i <= k < |pieces| ==> ' ' !in pieces[k]
    ensures WordsOfLines(WrapFrom(pieces, i, st, limit))
            == WordsOfLines(st.lines) + Words(st.current) + NonEmpty(pieces[i..])
    decreases |pieces| - i
  {
    if i == |pieces| {
      FlushWords(st);
      assert pieces[i..] == [];
    } else {
      var next := WrapStep(st, pieces[i], limit);
      WrapFromWords(pieces, i + 1, next, limit);
      WrapStepWords(st, pieces[i], limit);
      assert pieces[i..] == [pieces[i]] + pieces[i + 1..];
      NonEmptyAppend([pieces[i]], pieces[i + 1..]);
    }
  }

  /**
   * Wrapping drops and splits no word: the words of the lines, in order, are the words of the
   * normalised message.
   */
  lemma DescriptionWords(message: string, limit: int)
    ensures WordsOfLines(DescriptionLines(message, limit)) == Words(Normalize(message))
  {
    var pieces := Split(Normalize(message), ' ');
    WrapFromWords(pieces, 0, WrapState([], ""), limit);
    WordsEmpty();
    assert pieces[0..] == pieces;
  }

  /** Joining the lines back with spaces gives the same words. */
  lemma {:induction false} WordsOfJoin(lines: seq<string>)
    ensures Words(Join(lines, " ")) == WordsOfLines(lines)
  {
    if lines == [] {
      WordsEmpty();
    } else if |lines| == 1 {
      assert lines == [] + [lines[0]];
      WordsOfLinesAppend([], lines[0]);
    } else {
      var init := lines[..|lines| - 1];
      var last := lines[|lines| - 1];
      assert lines == init + [last];
      WordsOfJoin(init);
      JoinAppend(init, last, " ");
      WordsAround(Join(init, " "), last);
      WordsOfLinesAppend(init, last);
    }
  }

  /**
   * A message shorter than the limit comes back unchanged; a longer one comes back as its
   * wrapped lines joined with `"\n<br></br>"`, and those lines carry the words of the message
   * (separated by spaces and newlines) in order, none dropped or split, each line within the
   * limit unless it is a single overlong word.
   */
  lemma SplitDescriptionSpec(message: string, limit: int)
    ensures |message| < limit ==> SplitDescription(message, limit) == message
    ensures |message| >= limit ==>
              var lines := DescriptionLines(message, limit);
              && SplitDescription(message, limit) == Join(lines, LINE_SEPARATOR)
              && Words(Join(lines, " ")) == Words(SpacedOut(message, '\n'))
              && forall k :: 0 <= k < |lines| ==> LineOk(lines[k], limit)
  {
    DescriptionWords(message, limit);
    NormalizeWords(message);
    DescriptionLinesOk(message, limit);
    WordsOfJoin(DescriptionLines(message, limit));
  }

  // ---------------------------------------------------------------------------------------------
  // Rows

  /** One `<td>` of a row: its colour, its port, its column span and what it shows. */
  datatype Cell = Cell(color: string, port: Option<string>, colspan: Option<int>, content: string)

  function RenderCell(c: Cell): string
  {
    "<td bgcolor=\"" + c.color + "\""
    + (if c.port.Some? then " port=\"" + c.port.value + "\"" else "")
    + (if c.colspan.Some? then " colspan=\"" + IntToString(c.colspan.value) + "\"" else "")
    + ">" + c.content + "</td>"
  }

  function RenderCells(cells: seq<Cell>): string
  {
    if cells == [] then "" else RenderCell(cells[0]) + RenderCells(cells[1..])
  }

  function RenderRow(cells: seq<Cell>): string
  {
    "<tr>" + RenderCells(cells) + "</tr>"
  }

  /** The cell of `get_model_name_row`: the bold name over `column_count` columns. */
  function ModelNameCell(name: string, columnCount: int): Cell
  {
    Cell(HEADER_ROW_COLOR, Some("_root"), Some(columnCount), "<b>" + name + "</b>")
  }

  /** `get_model_name_row(name, column_count)` */
  function ModelNameRow(name: string, columnCount: int := 2): string
  {
    RenderRow([ModelNameCell(name, columnCount)])
  }

  /** `s[0:s.index("\n\n")] if "\n\n" in s else s`: the text before the first blank line. */
  function FirstParagraph(s: string): (r: string)
    ensures |r| <= |s| && r == s[..|r|]
    ensures forall k :: 0 <= k <= |r| ==> !OccursAt(r, "\n\n", k)
    ensures |r| < |s| ==> OccursAt(s, "\n\n", |r|)
    ensures forall k :: 0 <= k < |r| ==> !OccursAt(s, "\n\n", k)
  {
    match IndexOf(s, "\n\n")
    case Some(k) =>
      assert forall j :: 0 <= j <= k ==> !OccursAt(s[..k], "\n\n", j) by {
        forall j | 0 <= j <= k && OccursAt(s[..k], "\n\n", j)
          ensures false
        {
          assert s[..k][j..j + 2] == s[j..j + 2];
          assert OccursAt(s, "\n\n", j);
        }
      }
      s[..k]
    case None => s
  }

  /** The cell of `get_description_row`: the wrapped, escaped first paragraph in italics. */
  function DescriptionCell(description: string, columnCount: int, escape: string -> string): Cell
  {
    var text := SplitDescription(escape(FirstParagraph(description)), HEADER_CHARACTER_LIMIT);
    Cell(DESCRIPTION_ROW_COLOR, Some("description"), Some(columnCount), "<i>" + text + "</i>")
  }

  /**
   * `get_description_row(description, column_count)`, with `html.escape` as `escape`: no row
   * for a missing or empty description, otherwise a row of one cell over `column_count` columns.
   */
  function DescriptionRow(description: Option<string> := None, columnCount: int := 2, escape: string -> string): (r: Option<string>)
    ensures r.None? <==> !Truthy(description)
    ensures r.Some? ==> r.value == RenderRow([DescriptionCell(description.value, columnCount, escape)])
    ensures r.Some? ==> r.value != ""
  {
    if Truthy(description) then Some(RenderRow([DescriptionCell(description.value, columnCount, escape)])) else None
  }

  /** What `get_header_rows` joins: the name row, then the description row if there is one. */
  function HeaderRows(name: string, description: Option<string> := None, columnCount: int := 2, escape: string -> string): string
  {
    match DescriptionRow(description, columnCount, escape)
    case Some(row) => ModelNameRow(name, columnCount) + row
    case None => ModelNameRow(name, columnCount)
  }

  /**
   * `get_header_rows(name, description, column_count)`: always starts with the name row, and is
   * longer exactly when the description is neither missing nor empty.
   */
  method GetHeaderRows(name: string, description: Option<string> := None, columnCount: int := 2, escape: string -> string)
    returns (r: string)
    ensures r == HeaderRows(name, description, columnCount, escape)
    ensures |ModelNameRow(name, columnCount)| <= |r| && r[..|ModelNameRow(name, columnCount)|] == ModelNameRow(name, columnCount)
    ensures |r| > |ModelNameRow(name, columnCount)| <==> Truthy(description)
  {
    var rows := [ModelNameRow(name, columnCount)];
    var descriptionRow := DescriptionRow(description, columnCount, escape);
    if descriptionRow.Some? && descriptionRow.value != "" {
      rows := rows + [descriptionRow.value];
      ConcatAppend([ModelNameRow(name, columnCount)], descriptionRow.value);
    }
    r := Concat(rows);
  }

  /** The row colour of a 0-based row index: rows 1, 3, ... (indices 0, 2, ...) are the odd rows. */
  function RowColor(rowIndex: int): (r: string)
    ensures r == ODD_ROW_COLOR <==> rowIndex % 2 == 0
    ensures r == EVEN_ROW_COLOR <==> rowIndex % 2 == 1
  {
    // Python's `%` floors; for the divisor 2 it agrees with Dafny's Euclidean `%`.
    if (rowIndex + 1) % 2 == 1 then ODD_ROW_COLOR else EVEN_ROW_COLOR
  }

  /** `render_description`, defaulting to whether the field has a description at all. */
  function Described(field: Field, renderDescription: Option<bool>): bool
  {
    if renderDescription.Some? then renderDescription.value else field.description.Some?
  }

  /**
   * The cells of `get_field_row`: with a description, the bold name, the raw type name and the
   * wrapped escaped description; without, the name and the `get_type_name` of the field. All in
   * the row's colour, with the west port on the first cell and the east port on the last.
   */
  function FieldRowCells(rowIndex: int, field: Field, renderDescription: Option<bool> := None, escape: string -> string)
    : (cells: seq<Cell>)
    ensures |cells| == (if Described(field, renderDescription) then 3 else 2)
    ensures forall k :: 0 <= k < |cells| ==> cells[k].color == RowColor(rowIndex) && cells[k].colspan.None?
    ensures cells[0].port == Some(field.name + "_w") && cells[|cells| - 1].port == Some(field.name + "_e")
    ensures Described(field, renderDescription) ==>
              && cells[0].content == "<b>" + field.name + "</b>"
              && cells[1].content == field.typeName && cells[1].port.None?
              && cells[2].content == SplitDescription(escape(if field.description.Some? then field.description.value else ""), CHARACTER_LIMIT)
    ensures !Described(field, renderDescription) ==>
              cells[0].content == field.name && cells[1].content == GetTypeName(field)
  {
    var color := RowColor(rowIndex);
    if Described(field, renderDescription) then
      var description := if field.description.Some? then field.description.value else "";
      [Cell(color, Some(field.name + "_w"), None, "<b>" + field.name + "</b>"),
       Cell(color, None, None, field.typeName),
       Cell(color, Some(field.name + "_e"), None, SplitDescription(escape(description), CHARACTER_LIMIT))]
    else
      [Cell(color, Some(field.name + "_w"), None, field.name),
       Cell(color, Some(field.name + "_e"), None, GetTypeName(field))]
  }

  /** `get_field_row(row_index, field, render_description)` */
  function FieldRow(rowIndex: int, field: Field, renderDescription: Option<bool> := None, escape: string -> string): string
  {
    RenderRow(FieldRowCells(rowIndex, field, renderDescription, escape))
  }

  /** `get_field_rows(fields, render_description)`: the rows of the fields, numbered in order. */
  function FieldRows(fields: seq<Field>, renderDescription: bool, escape: string -> string): string
  {
    Concat(seq(|fields|, i requires 0 <= i < |fields| => FieldRow(i, fields[i], Some(renderDescription), escape)))
  }

  /** Field rows come in field order: one more field adds its row, numbered next, at the end. */
  lemma FieldRowsAppend(fields: seq<Field>, field: Field, renderDescription: bool, escape: string -> string)
    ensures FieldRows(fields + [field], renderDescription, escape)
            == FieldRows(fields, renderDescription, escape) + FieldRow(|fields|, field, Some(renderDescription), escape)
  {
    var all := fields + [field];
    var rows := seq(|all|, i requires 0 <= i < |all| => FieldRow(i, all[i], Some(renderDescription), escape));
    var init := seq(|fields|, i requires 0 <= i < |fields| => FieldRow(i, fields[i], Some(renderDescription), escape));
    assert rows == init + [FieldRow(|fields|, field, Some(renderDescription), escape)];
    ConcatAppend(init, FieldRow(|fields|, field, Some(renderDescription), escape));
  }

  /** `column_count`: three columns when the fields are described, two otherwise. */
  function ColumnCount(described: bool): int
  {
    if described then 3 else 2
  }

  /** `_table_template.format(header=header, rows=rows)` */
  function ModelTable(header: string, rows: string): string
  {
    TABLE_OPEN + header + rows + TABLE_CLOSE
  }

  /** Some field has a description that is neither missing nor empty. */
  predicate AnyDescribed(fields: seq<Field>)
  {
    exists k :: 0 <= k < |fields| && Truthy(fields[k].description)
  }

  // ---------------------------------------------------------------------------------------------
  // PydanticModel and build_model_table

  /** The parts of a `PydanticModel` the table is built from, with its private field cache. */
  class PydanticModel {
    const name: string
    /** `inspect.getdoc(model)` */
    const modelDescription: Option<string>
    /** `model.__fields__`, adapted, in declaration order. */
    const declaredFields: seq<Field>
    /** The private `__fields` list. */
    var cachedFields: seq<Field>

    /** The cache is empty or holds the declared fields. */
    ghost predicate Valid()
      reads this
    {
      cachedFields == [] || cachedFields == declaredFields
    }

    constructor (name: string, modelDescription: Option<string>, declaredFields: seq<Field>)
      ensures this.name == name && this.modelDescription == modelDescription
      ensures this.declaredFields == declaredFields && cachedFields == []
      ensures Valid()
    {
      this.name := name;
      this.modelDescription := modelDescription;
      this.declaredFields := declaredFields;
      cachedFields := [];
    }

    /** `fields`: fills an empty cache with the declared fields, then returns the cache. */
    method Fields() returns (fields: seq<Field>)
      modifies this
      ensures cachedFields == (if old(cachedFields) == [] then declaredFields else old(cachedFields))
      ensures fields == cachedFields
      ensures old(Valid()) ==> Valid() && fields == declaredFields
    {
      if cachedFields == [] {
        cachedFields := declaredFields;
      }
      fields := cachedFields;
    }

    /** `has_field_descriptions`: looks at the cache only, never fills it. */
    method HasFieldDescriptions() returns (described: bool)
      ensures described == AnyDescribed(cachedFields)
    {
      for k := 0 to |cachedFields|
        invariant forall j :: 0 <= j < k ==> !Truthy(cachedFields[j].description)
      {
        if cachedFields[k].description.Some? && cachedFields[k].description.value != "" {
          return true;
        }
      }
      return false;
    }
  }

  /**
   * `build_model_table(model)`. The column count is decided before `model.fields` is read, on
   * what the cache holds then; the rows are rendered after, on what it holds once filled.
   */
  method BuildModelTable(model: PydanticModel, escape: string -> string) returns (table: string)
    modifies model
    ensures model.cachedFields
            == (if old(model.cachedFields) == [] then model.declaredFields else old(model.cachedFields))
    ensures table == ModelTable(
              HeaderRows(model.name, model.modelDescription, ColumnCount(AnyDescribed(old(model.cachedFields))), escape),
              FieldRows(model.cachedFields, AnyDescribed(model.cachedFields), escape))
  {
    var described := model.HasFieldDescriptions();
    var columnCount := if described then 3 else 2;
    var header := GetHeaderRows(model.name, model.modelDescription, columnCount, escape);
    var fields := model.Fields();
    var renderDescription := model.HasFieldDescriptions();
    var rows := FieldRows(fields, renderDescription, escape);
    table := ModelTable(header, rows);
  }

  /**
   * The header's column span equals the number of cells of every field row exactly when the
   * cache was already filled before `build_model_table` or no field has a description: on the
   * first render of a model with described fields the header spans two columns over rows of
   * three cells.
   */
  lemma ColumnCountMatchesRows(cachedBefore: seq<Field>, declared: seq<Field>, name: string,
                               k: nat, escape: string -> string)
    requires cachedBefore == [] || cachedBefore == declared
    requires k < |declared|
    ensures var cachedAfter := if cachedBefore == [] then declared else cachedBefore;
            var header := ModelNameCell(name, ColumnCount(AnyDescribed(cachedBefore)));
            var row := FieldRowCells(k, cachedAfter[k], Some(AnyDescribed(cachedAfter)), escape);
            (header.colspan == Some(|row|)) <==> (cachedBefore != [] || !AnyDescribed(declared))
  {
  }

  /**
   * A model whose only field is described, drawn before anything read its fields: the header
   * spans two columns while the field row has three cells.
   */
  lemma FirstRenderColumnMismatch(escape: string -> string)
    ensures var note := Field("note", "str", Some("A note."), false, false);
            && ModelNameCell("Memo", ColumnCount(AnyDescribed([]))).colspan == Some(2)
            && |FieldRowCells(0, note, Some(AnyDescribed([note])), escape)| == 3
  {
    var note := Field("note", "str", Some("A note."), false, false);
    assert Truthy([note][0].description);
  }

  /**
   * `build_model_table` with the fields read before the column count is decided: the header
   * then spans exactly as many columns as every field row has cells, on the first render too.
   */
  method BuildModelTableFieldsFirst(model: PydanticModel, escape: string -> string) returns (table: string)
    modifies model
    ensures model.cachedFields
            == (if old(model.cachedFields) == [] then model.declaredFields else old(model.cachedFields))
    ensures table == ModelTable(
              HeaderRows(model.name, model.modelDescription, ColumnCount(AnyDescribed(model.cachedFields)), escape),
              FieldRows(model.cachedFields, AnyDescribed(model.cachedFields), escape))
    ensures forall k :: 0 <= k < |model.cachedFields| ==>
              ModelNameCell(model.name, ColumnCount(AnyDescribed(model.cachedFields))).colspan
              == Some(|FieldRowCells(k, model.cachedFields[k], Some(AnyDescribed(model.cachedFields)), escape)|)
  {
    var fields := model.Fields();
    var described := model.HasFieldDescriptions();
    var columnCount := if described then 3 else 2;
    var header := GetHeaderRows(model.name, model.modelDescription, columnCount, escape);
    var rows := FieldRows(fields, described, escape);
    table := ModelTable(header, rows);
  }
}
