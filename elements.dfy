/**
  The content elements that extraction produces from a document body, and
  what extraction produces for one paragraph or one table
  (convert_with_paragraph_breaks.py, `_load_styles` to `_process_regular_table`).
  The methods that build these lists step by step are in module Converter; the
  functions here are their specifications.
 */
module Elements {
  import opened Wrappers
  import opened Strings
  import opened DocxTree

  type HeadingLevel = k: int | 1 <= k <= 3 witness 1

  /** One extracted element, tagged as the Python dictionaries' 'type' field tags it. */
  datatype Element =
    | Title(content: string)
    | Heading(level: HeadingLevel, content: string)
    | NumberedList(content: string, ilvl: int, numId: int)
    | Text(content: string)
    | Image(filename: string, path: string)
    | Code(content: string, language: string)
    | Table(data: seq<seq<string>>)

  /** An entry of the style index: the style's display name and its `w:type`. */
  datatype StyleInfo = StyleInfo(name: string, styleType: string)

  /** A style node enters the index when it has a non-empty id and a `w:name` child. */
  predicate Indexed(node: StyleNode) {
    node.styleId != "" && node.name.Some?
  }

  /** The style index after reading `nodes` into `index`, in order; a later node overrides an earlier one. */
  function StylesAfter(index: map<string, StyleInfo>, nodes: seq<StyleNode>): map<string, StyleInfo>
    decreases |nodes|
  {
    if nodes == [] then index
    else
      var before := StylesAfter(index, nodes[..|nodes| - 1]);
      var node := nodes[|nodes| - 1];
      if Indexed(node) then before[node.styleId := StyleInfo(node.name.value, node.styleType)] else before
  }

  /**
    What `_load_styles` leaves for a style id: the last indexed node with that
    id, or the earlier entry when no node defines it.
   */
  lemma {:induction false} StylesAfterLookup(index: map<string, StyleInfo>, nodes: seq<StyleNode>, id: string)
    ensures (exists k :: 0 <= k < |nodes| && Indexed(nodes[k]) && nodes[k].styleId == id) || id in index
            <==> id in StylesAfter(index, nodes)
    ensures forall k :: 0 <= k < |nodes| && Indexed(nodes[k]) && nodes[k].styleId == id
                        && (forall j :: k < j < |nodes| && Indexed(nodes[j]) ==> nodes[j].styleId != id)
                        ==> StylesAfter(index, nodes)[id] == StyleInfo(nodes[k].name.value, nodes[k].styleType)
    ensures (forall k :: 0 <= k < |nodes| && Indexed(nodes[k]) ==> nodes[k].styleId != id) && id in index
            ==> StylesAfter(index, nodes)[id] == index[id]
    decreases |nodes|
  {
    if nodes != [] {
      var init := nodes[..|nodes| - 1];
      StylesAfterLookup(index, init, id);
      var node := nodes[|nodes| - 1];
      forall k | 0 <= k < |init| ensures init[k] == nodes[k] { }
      if Indexed(node) && node.styleId == id {
        assert Indexed(nodes[|nodes| - 1]) && nodes[|nodes| - 1].styleId == id;
      } else {
        if exists k :: 0 <= k < |nodes| && Indexed(nodes[k]) && nodes[k].styleId == id {
          var k :| 0 <= k < |nodes| && Indexed(nodes[k]) && nodes[k].styleId == id;
          assert k < |init| && init[k] == nodes[k];
        }
      }
    }
  }

  /** `_get_paragraph_style`: the index entry named by the paragraph's `w:pStyle`, if any. */
  function StyleOf(index: map<string, StyleInfo>, p: Paragraph): Option<StyleInfo> {
    if p.styleRef.Some? && p.styleRef.value in index then Some(index[p.styleRef.value]) else None
  }

  /** The `{'level', 'numId'}` record of `_get_numbering_info`. */
  datatype NumberingRef = NumberingRef(level: int, numId: int)

  /** `_get_numbering_info`: present only when both `w:ilvl` and `w:numId` exist; a missing `w:val` reads as 0. */
  function NumberingOf(p: Paragraph): (r: Option<NumberingRef>)
    ensures r.Some? <==> p.numPr.Some? && p.numPr.value.ilvl.Some? && p.numPr.value.numId.Some?
    ensures r.Some? ==> (r.value.level == p.numPr.value.ilvl.value.GetOr(0)
                         && r.value.numId == p.numPr.value.numId.value.GetOr(0))
  {
    match p.numPr
    case Some(NumPr(Some(lvl), Some(id))) => Some(NumberingRef(lvl.GetOr(0), id.GetOr(0)))
    case _ => None
  }

  /** A run property switches its formatting on unless its `w:val` is literally "false"; a missing val means on. */
  predicate IsOn(t: Toggle) {
    t.Present? && t.val != Some("false")
  }

  /** The emphasis marker put on both sides of a text: `***`, `**`, `*` or nothing. */
  function Marker(bold: bool, italic: bool): string {
    if bold && italic then "***" else if bold then "**" else if italic then "*" else ""
  }

  /** Bold contributes two asterisks and italic one, and the marker is nothing else. */
  lemma MarkerStars(bold: bool, italic: bool)
    ensures |Marker(bold, italic)| == (if bold then 2 else 0) + (if italic then 1 else 0)
    ensures forall i :: 0 <= i < |Marker(bold, italic)| ==> Marker(bold, italic)[i] == '*'
  {
  }

  function FormatPiece(text: string, bold: bool, italic: bool): string {
    Marker(bold, italic) + text + Marker(bold, italic)
  }

  /** A formatted piece is its text between two copies of one marker, so the text can be read back. */
  lemma FormatPieceUnwraps(text: string, bold: bool, italic: bool)
    ensures var m := Marker(bold, italic); var r := FormatPiece(text, bold, italic);
            |r| == |text| + 2 * |m| && r[..|m|] == m && r[|m|..|r| - |m|] == text && r[|r| - |m|..] == m
  {
    var m := Marker(bold, italic);
    var r := FormatPiece(text, bold, italic);
    assert r == m + text + m;
    assert r[|m|..|r| - |m|] == text;
  }

  /** The pieces of one run: each non-empty `w:t` text, formatted with the run's flags. */
  function RunPieces(texts: seq<string>, bold: bool, italic: bool): (r: seq<string>)
    ensures |r| <= |texts|
    decreases |texts|
  {
    if texts == [] then []
    else (if texts[0] != "" then [FormatPiece(texts[0], bold, italic)] else []) + RunPieces(texts[1..], bold, italic)
  }

  function RunText(run: Run): string {
    Concat(RunPieces(run.texts, IsOn(run.bold), IsOn(run.italic)))
  }

  /** `_extract_text_with_formatting`: the formatted runs, concatenated with nothing between them. */
  function FormattedText(runs: seq<Run>): string
    decreases |runs|
  {
    if runs == [] then "" else RunText(runs[0]) + FormattedText(runs[1..])
  }

  /** The unformatted text of a paragraph: its non-empty `w:t` texts, concatenated. */
  function PlainText(runs: seq<Run>): string
    decreases |runs|
  {
    if runs == [] then "" else Concat(RunPieces(runs[0].texts, false, false)) + PlainText(runs[1..])
  }

  /** Formatting is per run: the text of two run sequences is the two texts side by side. */
  lemma {:induction false} FormattedTextAppend(a: seq<Run>, b: seq<Run>)
    ensures FormattedText(a + b) == FormattedText(a) + FormattedText(b)
    decreases |a|
  {
    if a == [] {
      assert a + b == b;
    } else {
      assert (a + b)[0] == a[0] && (a + b)[1..] == a[1..] + b;
      FormattedTextAppend(a[1..], b);
    }
  }

  lemma {:induction false} RunPiecesPlain(texts: seq<string>)
    ensures Concat(RunPieces(texts, false, false)) == Concat(texts)
    decreases |texts|
  {
    if texts != [] {
      RunPiecesPlain(texts[1..]);
      var first := if texts[0] != "" then [FormatPiece(texts[0], false, false)] else [];
      ConcatAppend(first, RunPieces(texts[1..], false, false));
      assert FormatPiece(texts[0], false, false) == texts[0];
    }
  }

  /** Runs without bold or italic render as their bare texts, exactly the unformatted text. */
  lemma {:induction false} UnformattedRunsArePlain(runs: seq<Run>)
    requires forall k :: 0 <= k < |runs| ==> !IsOn(runs[k].bold) && !IsOn(runs[k].italic)
    ensures FormattedText(runs) == PlainText(runs)
    decreases |runs|
  {
    if runs != [] {
      UnformattedRunsArePlain(runs[1..]);
    }
  }

  lemma {:induction false} RunPiecesEmptyIff(texts: seq<string>, bold: bool, italic: bool)
    ensures Concat(RunPieces(texts, bold, italic)) == "" <==> forall k :: 0 <= k < |texts| ==> texts[k] == ""
    decreases |texts|
  {
    if texts != [] {
      RunPiecesEmptyIff(texts[1..], bold, italic);
      var first := if texts[0] != "" then [FormatPiece(texts[0], bold, italic)] else [];
      ConcatAppend(first, RunPieces(texts[1..], bold, italic));
      assert first != [] ==> Concat(first) == FormatPiece(texts[0], bold, italic) + "";
      forall k | 1 <= k < |texts| ensures texts[k] == texts[1..][k - 1] { }
    }
  }

  /** A paragraph's formatted text is empty exactly when all of its `w:t` texts are. */
  lemma {:induction false} FormattedTextEmptyIff(runs: seq<Run>)
    ensures FormattedText(runs) == "" <==> forall k, j :: 0 <= k < |runs| && 0 <= j < |runs[k].texts| ==> runs[k].texts[j] == ""
    decreases |runs|
  {
    if runs != [] {
      FormattedTextEmptyIff(runs[1..]);
      RunPiecesEmptyIff(runs[0].texts, IsOn(runs[0].bold), IsOn(runs[0].italic));
      assert forall k :: 1 <= k < |runs| ==> runs[k] == runs[1..][k - 1];
    }
  }

  /** How a style name classifies a paragraph. */
  datatype Kind = TitleKind | HeadingKind(level: HeadingLevel) | TextKind

  /** The lower-cased style name is checked for "title", "heading 1", "heading 2", "heading 3", in that order. */
  function StyleKind(style: Option<StyleInfo>): Kind {
    if style.None? then TextKind
    else
      var name := Lower(style.value.name);
      if Contains(name, "title") then TitleKind
      else if Contains(name, "heading 1") then HeadingKind(1)
      else if Contains(name, "heading 2") then HeadingKind(2)
      else if Contains(name, "heading 3") then HeadingKind(3)
      else TextKind
  }

  /** The first matching literal wins, so for instance a "Heading 10" style is a level-1 heading. */
  lemma StyleKindPrecedence(info: StyleInfo)
    ensures var name := Lower(info.name); var kind := StyleKind(Some(info));
      && (kind == TitleKind <==> Contains(name, "title"))
      && (kind == HeadingKind(1) <==> !Contains(name, "title") && Contains(name, "heading 1"))
      && (kind == HeadingKind(2) <==> !Contains(name, "title") && !Contains(name, "heading 1") && Contains(name, "heading 2"))
      && (kind == HeadingKind(3) <==> !Contains(name, "title") && !Contains(name, "heading 1") && !Contains(name, "heading 2")
                                      && Contains(name, "heading 3"))
      && (kind == TextKind <==> !Contains(name, "title") && !Contains(name, "heading 1") && !Contains(name, "heading 2")
                                && !Contains(name, "heading 3"))
  {
  }

  /** The element for a paragraph's text: numbering overrides the style classification. */
  function TextElement(style: Option<StyleInfo>, numbering: Option<NumberingRef>, text: string): Element {
    if numbering.Some? then NumberedList(text, numbering.value.level, numbering.value.numId)
    else match StyleKind(style)
      case TitleKind => Title(text)
      case HeadingKind(l) => Heading(l, text)
      case TextKind => Text(text)
  }

  /** The image element a drawing contributes: only for a non-empty embed id found in the rId table. */
  function ImagePart(p: Paragraph, ridToImage: map<string, string>): seq<Element> {
    if p.drawing.Some? && p.drawing.value.embed.Some? && p.drawing.value.embed.value != ""
       && p.drawing.value.embed.value in ridToImage
    then
      var name := ridToImage[p.drawing.value.embed.value];
      [Image(name, "../images/" + name)]
    else []
  }

  /** `_process_paragraph_formatted`: the image first, then the text element unless the paragraph is a drawing with no text. */
  function ParagraphElements(index: map<string, StyleInfo>, p: Paragraph, ridToImage: map<string, string>): seq<Element> {
    var text := FormattedText(p.runs);
    ImagePart(p, ridToImage)
      + (if text != "" || p.drawing.None? then [TextElement(StyleOf(index, p), NumberingOf(p), text)] else [])
  }

  /** Numbering on a paragraph makes its element a numbered-list item whatever its style. */
  lemma NumberingForcesList(index: map<string, StyleInfo>, p: Paragraph, ridToImage: map<string, string>)
    requires NumberingOf(p).Some?
    requires FormattedText(p.runs) != "" || p.drawing.None?
    ensures var es := ParagraphElements(index, p, ridToImage);
            es != [] && es[|es| - 1] == NumberedList(FormattedText(p.runs), NumberingOf(p).value.level, NumberingOf(p).value.numId)
  {
  }

  /** A paragraph without a drawing yields exactly one element, which carries its formatted text. */
  lemma PlainParagraphYieldsOneElement(index: map<string, StyleInfo>, p: Paragraph, ridToImage: map<string, string>)
    requires p.drawing.None?
    ensures var es := ParagraphElements(index, p, ridToImage);
            |es| == 1 && !es[0].Image? && !es[0].Code? && !es[0].Table? && es[0].content == FormattedText(p.runs)
  {
  }

  /**
    A drawing paragraph without text yields only its image, and nothing when
    its embed id is missing or not in the rId table.
   */
  lemma DrawingWithoutText(index: map<string, StyleInfo>, p: Paragraph, ridToImage: map<string, string>)
    requires p.drawing.Some?
    requires forall k, j :: 0 <= k < |p.runs| && 0 <= j < |p.runs[k].texts| ==> p.runs[k].texts[j] == ""
    ensures var es := ParagraphElements(index, p, ridToImage);
            && |es| <= 1
            && (es != [] <==> p.drawing.value.embed.Some? && p.drawing.value.embed.value in ridToImage
                              && p.drawing.value.embed.value != "")
            && (es != [] ==> es[0] == Image(ridToImage[p.drawing.value.embed.value],
                                            "../images/" + ridToImage[p.drawing.value.embed.value]))
  {
    FormattedTextEmptyIff(p.runs);
  }

  /** An image element only ever names a file of the rId table. */
  lemma ImagesComeFromTable(index: map<string, StyleInfo>, p: Paragraph, ridToImage: map<string, string>)
    ensures forall e :: e in ParagraphElements(index, p, ridToImage) && e.Image? ==> e.filename in ridToImage.Values
  {
    var text := FormattedText(p.runs);
    var tail := if text != "" || p.drawing.None? then [TextElement(StyleOf(index, p), NumberingOf(p), text)] else [];
    assert ParagraphElements(index, p, ridToImage) == ImagePart(p, ridToImage) + tail;
    assert forall e :: e in tail ==> !e.Image?;
  }

  /** The non-empty unformatted paragraph texts of a 1x1 table's cell. */
  function CellCodeLines(paras: seq<Paragraph>): (r: seq<string>)
    ensures |r| <= |paras|
    ensures forall k :: 0 <= k < |r| ==> r[k] != ""
    decreases |paras|
  {
    if paras == [] then []
    else
      var t := PlainText(paras[0].runs);
      (if t != "" then [t] else []) + CellCodeLines(paras[1..])
  }

  /** A table cell of a regular table: its non-empty formatted paragraph texts joined by one space. */
  function CellText(paras: seq<Paragraph>): string {
    Join(NonEmptyTexts(paras), " ")
  }

  function NonEmptyTexts(paras: seq<Paragraph>): (r: seq<string>)
    ensures forall k :: 0 <= k < |r| ==> r[k] != ""
    decreases |paras|
  {
    if paras == [] then []
    else
      var t := FormattedText(paras[0].runs);
      (if t != "" then [t] else []) + NonEmptyTexts(paras[1..])
  }

  function RowData(cells: seq<Tc>): (r: seq<string>)
    ensures |r| == |cells|
    decreases |cells|
  {
    if cells == [] then [] else [CellText(cells[0].paras)] + RowData(cells[1..])
  }

  /** The number of rows that have at least one cell. */
  function RowsWithCells(rows: seq<Tr>): nat
    decreases |rows|
  {
    if rows == [] then 0 else (if rows[0].cells != [] then 1 else 0) + RowsWithCells(rows[1..])
  }

  /** The table data of `_process_regular_table`: one list of cell texts per row, rows with no cell dropped. */
  function TableData(rows: seq<Tr>): (r: seq<seq<string>>)
    ensures |r| == RowsWithCells(rows)
    ensures forall k :: 0 <= k < |r| ==> r[k] != []
    ensures r == [] <==> forall j :: 0 <= j < |rows| ==> rows[j].cells == []
    decreases |rows|
  {
    if rows == [] then []
    else (if rows[0].cells != [] then [RowData(rows[0].cells)] else []) + TableData(rows[1..])
  }

  function RegularTableElements(t: Tbl): seq<Element> {
    var data := TableData(t.rows);
    if data != [] then [Table(data)] else []
  }

  predicate IsOneByOne(t: Tbl) {
    |t.rows| == 1 && |t.rows[0].cells| == 1
  }

  /** `_process_table`: a 1x1 table is a code block, any other shape a regular table. */
  function TableElements(t: Tbl): seq<Element> {
    if IsOneByOne(t) then
      var lines := CellCodeLines(t.rows[0].cells[0].paras);
      if lines != [] then [Code(Join(lines, "\n"), "python")] else []
    else RegularTableElements(t)
  }

  /** A 1x1 table yields at most one element, a python code block of its cell's texts, and never a table. */
  lemma OneByOneTableIsCode(t: Tbl)
    requires IsOneByOne(t)
    ensures var es := TableElements(t); var lines := CellCodeLines(t.rows[0].cells[0].paras);
            && |es| <= 1
            && (es != [] <==> lines != [])
            && (es != [] ==> es[0] == Code(Join(lines, "\n"), "python"))
            && forall k :: 0 <= k < |es| ==> !es[k].Table?
  {
  }

  /**
    Any other table yields one table element holding one row per row with
    cells, each as wide as its row, and nothing when no row has a cell.
   */
  lemma RegularTableShape(t: Tbl)
    requires !IsOneByOne(t)
    ensures var es := TableElements(t);
            && |es| <= 1
            && (es == [] <==> forall j :: 0 <= j < |t.rows| ==> t.rows[j].cells == [])
            && (es != [] ==> es[0].Table? && |es[0].data| == RowsWithCells(t.rows)
                             && forall k :: 0 <= k < |es[0].data| ==> es[0].data[k] != [])
  {
  }

  /** The pieces of two text lists are the pieces of each, in order. */
  lemma {:induction false} RunPiecesAppend(a: seq<string>, b: seq<string>, bold: bool, italic: bool)
    ensures RunPieces(a + b, bold, italic) == RunPieces(a, bold, italic) + RunPieces(b, bold, italic)
    decreases |a|
  {
    if a == [] {
      assert a + b == b;
    } else {
      assert (a + b)[0] == a[0] && (a + b)[1..] == a[1..] + b;
      RunPiecesAppend(a[1..], b, bold, italic);
    }
  }

  /** Appending one text adds its piece, if it is non-empty. */
  lemma RunPiecesAppendOne(texts: seq<string>, t: string, bold: bool, italic: bool)
    ensures RunPieces(texts + [t], bold, italic) == RunPieces(texts, bold, italic) + (if t != "" then [FormatPiece(t, bold, italic)] else [])
  {
    RunPiecesAppend(texts, [t], bold, italic);
    assert [t][1..] == [];
  }

  lemma {:induction false} PlainTextAppend(a: seq<Run>, b: seq<Run>)
    ensures PlainText(a + b) == PlainText(a) + PlainText(b)
    decreases |a|
  {
    if a == [] {
      assert a + b == b;
    } else {
      assert (a + b)[0] == a[0] && (a + b)[1..] == a[1..] + b;
      PlainTextAppend(a[1..], b);
    }
  }

  lemma {:induction false} CellCodeLinesAppend(a: seq<Paragraph>, b: seq<Paragraph>)
    ensures CellCodeLines(a + b) == CellCodeLines(a) + CellCodeLines(b)
    decreases |a|
  {
    if a == [] {
      assert a + b == b;
    } else {
      assert (a + b)[0] == a[0] && (a + b)[1..] == a[1..] + b;
      CellCodeLinesAppend(a[1..], b);
    }
  }

  lemma {:induction false} NonEmptyTextsAppend(a: seq<Paragraph>, b: seq<Paragraph>)
    ensures NonEmptyTexts(a + b) == NonEmptyTexts(a) + NonEmptyTexts(b)
    decreases |a|
  {
    if a == [] {
      assert a + b == b;
    } else {
      assert (a + b)[0] == a[0] && (a + b)[1..] == a[1..] + b;
      NonEmptyTextsAppend(a[1..], b);
    }
  }

  lemma {:induction false} RowDataAppend(a: seq<Tc>, b: seq<Tc>)
    ensures RowData(a + b) == RowData(a) + RowData(b)
    decreases |a|
  {
    if a == [] {
      assert a + b == b;
    } else {
      assert (a + b)[0] == a[0] && (a + b)[1..] == a[1..] + b;
      RowDataAppend(a[1..], b);
    }
  }

  lemma {:induction false} TableDataAppend(a: seq<Tr>, b: seq<Tr>)
    ensures TableData(a + b) == TableData(a) + TableData(b)
    decreases |a|
  {
    if a == [] {
      assert a + b == b;
    } else {
      assert (a + b)[0] == a[0] && (a + b)[1..] == a[1..] + b;
      TableDataAppend(a[1..], b);
    }
  }

  /** The elements of one body child: a paragraph's or a table's, nothing for anything else. */
  function NodeElements(index: map<string, StyleInfo>, node: BodyNode, ridToImage: map<string, string>): seq<Element> {
    match node
    case ParagraphNode(p) => ParagraphElements(index, p, ridToImage)
    case TableNode(t) => TableElements(t)
    case OtherNode => []
  }

  /** The element list of a document body, in document order. */
  function BodyElements(index: map<string, StyleInfo>, nodes: seq<BodyNode>, ridToImage: map<string, string>): seq<Element>
    decreases |nodes|
  {
    if nodes == [] then []
    else BodyElements(index, nodes[..|nodes| - 1], ridToImage) + NodeElements(index, nodes[|nodes| - 1], ridToImage)
  }

  /** Every image element of a body names an image of the rId table; tables never yield one. */
  lemma {:induction false} BodyImagesFromTable(index: map<string, StyleInfo>, nodes: seq<BodyNode>, ridToImage: map<string, string>)
    ensures forall e :: e in BodyElements(index, nodes, ridToImage) && e.Image? ==> e.filename in ridToImage.Values
    decreases |nodes|
  {
    if nodes != [] {
      BodyImagesFromTable(index, nodes[..|nodes| - 1], ridToImage);
      match nodes[|nodes| - 1]
      case ParagraphNode(p) => ImagesComeFromTable(index, p, ridToImage);
      case TableNode(t) =>
      case OtherNode =>
    }
  }
}
