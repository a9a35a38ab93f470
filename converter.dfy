/**
  The converter object of convert_with_paragraph_breaks.py,
  `DocxToMarkdownConverter`: its style index is a field that every loaded
  package adds to, the paragraph and table handlers append to an element list
  in place, and `ConvertToMarkdown` is the rendering loop. Each method is
  proved against the specification functions of modules Elements, Images and
  Renderer.
 */
module Converter {
  import opened Wrappers
  import opened Strings
  import opened DocxTree
  import opened Elements
  import opened Images
  import opened Renderer

  /** `content_elements`, the list the handlers append to. */
  class ElementList {
    var items: seq<Element>

    constructor ()
      ensures items == []
    {
      items := [];
    }

    method Append(e: Element)
      modifies this
      ensures items == old(items) + [e]
    {
      items := items + [e];
    }
  }

  /** What `extract_content_and_images` returns: the elements and the image-name mapping. */
  datatype Extracted = Extracted(elements: seq<Element>, imageMapping: map<string, string>)

  /** The style index after `_load_styles` reads a package whose styles part may be missing. */
  function LoadedStyles(index: map<string, StyleInfo>, styles: Option<seq<StyleNode>>): map<string, StyleInfo> {
    if styles.Some? then StylesAfter(index, styles.value) else index
  }

  /** The image mapping of a package: empty when it has no media directory. */
  function PackageImages(pkg: Package, digest: seq<bv8> -> string): map<string, string> {
    if pkg.media.Some? then ImageMapping(pkg.docStem, pkg.media.value, digest) else map[]
  }

  /**
    `extract_content_and_images` on a package, with the style index it starts
    from: None when reading the relationships fails, else the body's elements
    and the image mapping.
   */
  function Extraction(index: map<string, StyleInfo>, pkg: Package, digest: seq<bv8> -> string): Option<Extracted> {
    var mapping := PackageImages(pkg, digest);
    var rid := if pkg.rels.Some? then RidTable(pkg.rels.value, mapping) else Some(map[]);
    if rid.None? then None
    else
      var elements := if pkg.body.Some? then BodyElements(LoadedStyles(index, pkg.styles), pkg.body.value, rid.value) else [];
      Some(Extracted(elements, mapping))
  }

  /** Extraction fails exactly when the package has an image relationship without a target. */
  lemma ExtractionFailsIff(index: map<string, StyleInfo>, pkg: Package, digest: seq<bv8> -> string)
    ensures Extraction(index, pkg, digest).None? <==> pkg.rels.Some? && exists k :: 0 <= k < |pkg.rels.value| && Fails(pkg.rels.value[k])
  {
    if pkg.rels.Some? {
      RidTableNoneIff(pkg.rels.value, PackageImages(pkg, digest));
    }
  }

  /** Every image element of an extracted document names one of the images copied out of its package. */
  lemma ExtractedImagesWereCopied(index: map<string, StyleInfo>, pkg: Package, digest: seq<bv8> -> string)
    requires Extraction(index, pkg, digest).Some?
    ensures var x := Extraction(index, pkg, digest).value;
            forall e :: e in x.elements && e.Image? ==> e.filename in x.imageMapping.Values
  {
    var mapping := PackageImages(pkg, digest);
    var rid := if pkg.rels.Some? then RidTable(pkg.rels.value, mapping) else Some(map[]);
    if pkg.rels.Some? {
      RidTableValues(pkg.rels.value, mapping);
    }
    if pkg.body.Some? {
      BodyImagesFromTable(LoadedStyles(index, pkg.styles), pkg.body.value, rid.value);
    }
  }

  /** `_load_styles` reads `w:style` nodes in order into the index. */
  method LoadStyleNodes(index: map<string, StyleInfo>, nodes: seq<StyleNode>) returns (r: map<string, StyleInfo>)
    ensures r == StylesAfter(index, nodes)
  {
    r := index;
    for i := 0 to |nodes|
      invariant r == StylesAfter(index, nodes[..i])
    {
      var node := nodes[i];
      assert nodes[..i + 1][..i] == nodes[..i];
      if node.styleId != "" && node.name.Some? {
        r := r[node.styleId := StyleInfo(node.name.value, node.styleType)];
      }
    }
    assert nodes[..|nodes|] == nodes;
  }

  /** The image-mapping loop over `word/media`, in directory order. */
  method CollectImages(docStem: string, media: seq<MediaFile>, digest: seq<bv8> -> string) returns (mapping: map<string, string>)
    ensures mapping == ImageMapping(docStem, media, digest)
  {
    mapping := map[];
    for i := 0 to |media|
      invariant mapping == ImageMapping(docStem, media[..i], digest)
    {
      var f := media[i];
      assert media[..i + 1][..i] == media[..i];
      if Lower(Suffix(f.name)) in [".png", ".jpg", ".jpeg", ".gif", ".bmp"] {
        var docName := ReplaceAll(ReplaceAll(docStem, " ", "_"), ":", "");
        var imageHash := Take(digest(f.bytes), 8);
        var newFilename := docName + "_" + Stem(f.name) + "_" + imageHash + Suffix(f.name);
        mapping := mapping[f.name := newFilename];
      }
    }
    assert media[..|media|] == media;
  }

  /** The relationship loop: None when an image relationship has no `Target`, else the rId table. */
  method CollectRids(rels: seq<Relationship>, mapping: map<string, string>) returns (table: Option<map<string, string>>)
    ensures table == RidTable(rels, mapping)
  {
    var rid: map<string, string> := map[];
    for i := 0 to |rels|
      invariant RidTable(rels[..i], mapping) == Some(rid)
    {
      var rel := rels[i];
      assert rels[..i + 1][..i] == rels[..i];
      if Contains(rel.relType, "image") {
        if rel.target.None? {
          RidTableNoneIff(rels, mapping);
          assert Fails(rels[i]);
          return None;
        }
        var target := rel.target.value;
        if StartsWith(target, "media/") {
          var imageName := BaseName(target);
          if imageName in mapping {
            rid := rid[rel.id := mapping[imageName]];
          }
        }
      }
    }
    assert rels[..|rels|] == rels;
    table := Some(rid);
  }

  /** The `w:t` texts of one run, appended to a paragraph's list when they are non-empty. */
  method AppendNonEmptyTexts(parts: seq<string>, texts: seq<string>) returns (parts': seq<string>)
    requires forall m :: 0 <= m < |parts| ==> parts[m] != ""
    ensures forall m :: 0 <= m < |parts'| ==> parts'[m] != ""
    ensures Concat(parts') == Concat(parts) + Concat(texts)
  {
    parts' := parts;
    for j := 0 to |texts|
      invariant forall m :: 0 <= m < |parts'| ==> parts'[m] != ""
      invariant Concat(parts') == Concat(parts) + Concat(texts[..j])
    {
      ConcatAppend(parts', [texts[j]]);
      ConcatAppend(texts[..j], [texts[j]]);
      assert texts[..j + 1] == texts[..j] + [texts[j]];
      if texts[j] != "" {
        parts' := parts' + [texts[j]];
      }
    }
    assert texts[..|texts|] == texts;
  }

  /** A 1x1 table paragraph's `para_texts`: its non-empty `w:t` texts, unformatted, in order. */
  method PlainTexts(runs: seq<Run>) returns (paraTexts: seq<string>)
    ensures forall m :: 0 <= m < |paraTexts| ==> paraTexts[m] != ""
    ensures Concat(paraTexts) == PlainText(runs)
  {
    paraTexts := [];
    for r := 0 to |runs|
      invariant forall m :: 0 <= m < |paraTexts| ==> paraTexts[m] != ""
      invariant Concat(paraTexts) == PlainText(runs[..r])
    {
      paraTexts := AppendNonEmptyTexts(paraTexts, runs[r].texts);
      RunPiecesPlain(runs[r].texts);
      PlainTextAppend(runs[..r], [runs[r]]);
      assert runs[..r + 1] == runs[..r] + [runs[r]];
    }
    assert runs[..|runs|] == runs;
  }

  /** The cell of a 1x1 table: the texts of its paragraphs that have any. */
  method CodeCellLines(paras: seq<Paragraph>) returns (cellText: seq<string>)
    ensures cellText == CellCodeLines(paras)
  {
    cellText := [];
    for k := 0 to |paras|
      invariant cellText == CellCodeLines(paras[..k])
    {
      var paraTexts := PlainTexts(paras[k].runs);
      NonEmptyConcat(paraTexts);
      CellCodeLinesAppend(paras[..k], [paras[k]]);
      assert paras[..k + 1] == paras[..k] + [paras[k]];
      assert [paras[k]][1..] == [];
      if paraTexts != [] {
        cellText := cellText + [Concat(paraTexts)];
      }
    }
    assert paras[..|paras|] == paras;
  }

  /** A list of non-empty texts concatenates to "" only when it is empty. */
  lemma NonEmptyConcat(parts: seq<string>)
    requires forall m :: 0 <= m < |parts| ==> parts[m] != ""
    ensures Concat(parts) == "" <==> parts == []
  {
    if parts != [] {
      assert |Concat(parts)| >= |parts[0]|;
    }
  }

  /** The pieces of one run: each non-empty text wrapped in the run's markers. */
  method FormatRunTexts(texts: seq<string>, isBold: bool, isItalic: bool) returns (textParts: seq<string>)
    ensures textParts == RunPieces(texts, isBold, isItalic)
  {
    textParts := [];
    for j := 0 to |texts|
      invariant textParts == RunPieces(texts[..j], isBold, isItalic)
    {
      RunPiecesAppendOne(texts[..j], texts[j], isBold, isItalic);
      assert texts[..j + 1] == texts[..j] + [texts[j]];
      if texts[j] != "" {
        var text := texts[j];
        if isBold && isItalic {
          text := "***" + text + "***";
        } else if isBold {
          text := "**" + text + "**";
        } else if isItalic {
          text := "*" + text + "*";
        }
        assert text == FormatPiece(texts[j], isBold, isItalic);
        textParts := textParts + [text];
      }
    }
    assert texts[..|texts|] == texts;
  }

  class DocxToMarkdownConverter {
    /** `self.styles`: style id to name and type, kept across every package converted. */
    var styles: map<string, StyleInfo>
    /** `self.numbering`, which only ever records that a numbering part was seen. */
    var numberingLoaded: bool

    constructor ()
      ensures styles == map[] && !numberingLoaded
    {
      styles := map[];
      numberingLoaded := false;
    }

    /** `_load_styles`: the package's style nodes, when it has a styles part, go into the index. */
    method LoadStyles(nodes: Option<seq<StyleNode>>)
      modifies this
      ensures styles == LoadedStyles(old(styles), nodes)
      ensures numberingLoaded == old(numberingLoaded)
    {
      if nodes.Some? {
        styles := LoadStyleNodes(styles, nodes.value);
      }
    }

    /** `_load_numbering`: only the presence of a numbering part is recorded. */
    method LoadNumbering(present: bool)
      modifies this
      ensures numberingLoaded == (old(numberingLoaded) || present)
      ensures styles == old(styles)
    {
      if present {
        numberingLoaded := true;
      }
    }

    /** `_extract_text_with_formatting`: each run's non-empty texts, wrapped in the run's markers, concatenated. */
    method ExtractTextWithFormatting(p: Paragraph) returns (text: string)
      ensures text == FormattedText(p.runs)
    {
      var formattedText: seq<string> := [];
      for i := 0 to |p.runs|
        invariant Concat(formattedText) == FormattedText(p.runs[..i])
      {
        var run := p.runs[i];
        var isBold := run.bold.Present? && run.bold.val.GetOr("true") != "false";
        var isItalic := run.italic.Present? && run.italic.val.GetOr("true") != "false";
        var textParts := FormatRunTexts(run.texts, isBold, isItalic);
        ConcatAppend(formattedText, [Concat(textParts)]);
        FormattedTextAppend(p.runs[..i], [run]);
        assert p.runs[..i + 1] == p.runs[..i] + [run];
        assert [run][1..] == [];
        if textParts != [] {
          formattedText := formattedText + [Concat(textParts)];
        }
      }
      assert p.runs[..|p.runs|] == p.runs;
      text := Concat(formattedText);
    }

    /** `_process_paragraph_formatted`: appends the paragraph's image, then its text element. */
    method ProcessParagraphFormatted(p: Paragraph, sink: ElementList, ridToImage: map<string, string>)
      modifies sink
      ensures sink.items == old(sink.items) + ParagraphElements(styles, p, ridToImage)
    {
      if p.drawing.Some? {
        var embed := p.drawing.value.embed;
        if embed.Some? && embed.value != "" && embed.value in ridToImage {
          var imageFilename := ridToImage[embed.value];
          sink.Append(Image(imageFilename, "../images/" + imageFilename));
        }
      }
      assert sink.items == old(sink.items) + ImagePart(p, ridToImage);
      var text := ExtractTextWithFormatting(p);
      if text != "" || p.drawing.None? {
        var element := ClassifyParagraph(StyleOf(styles, p), NumberingOf(p), text);
        sink.Append(element);
      }
    }

    /** The element a paragraph's text becomes: numbering wins over the first matching style name. */
    static method ClassifyParagraph(style: Option<StyleInfo>, numbering: Option<NumberingRef>, text: string) returns (element: Element)
      ensures element == TextElement(style, numbering, text)
    {
      element := Text(text);
      if style.Some? {
        var styleName := Lower(style.value.name);
        if Contains(styleName, "title") {
          element := Title(text);
        } else if Contains(styleName, "heading 1") {
          element := Heading(1, text);
        } else if Contains(styleName, "heading 2") {
          element := Heading(2, text);
        } else if Contains(styleName, "heading 3") {
          element := Heading(3, text);
        }
      }
      if numbering.Some? {
        element := NumberedList(text, numbering.value.level, numbering.value.numId);
      }
    }

    /** `_process_table`: a 1x1 table's texts become one python code element, any other table goes to `_process_regular_table`. */
    method ProcessTable(t: Tbl, sink: ElementList)
      modifies sink
      ensures sink.items == old(sink.items) + TableElements(t)
    {
      if |t.rows| == 1 {
        var cells := t.rows[0].cells;
        if |cells| == 1 {
          var cellText := CodeCellLines(cells[0].paras);
          if cellText != [] {
            var fullText := Join(cellText, "\n");
            sink.Append(Code(fullText, "python"));
          }
          return;
        } else {
          ProcessRegularTable(t, sink);
        }
      } else {
        ProcessRegularTable(t, sink);
      }
    }

    /** One cell of a regular table: its paragraphs' non-empty formatted texts. */
    method CellContent(paras: seq<Paragraph>) returns (cellContent: seq<string>)
      ensures cellContent == NonEmptyTexts(paras)
    {
      cellContent := [];
      for q := 0 to |paras|
        invariant cellContent == NonEmptyTexts(paras[..q])
      {
        var paraText := ExtractTextWithFormatting(paras[q]);
        NonEmptyTextsAppend(paras[..q], [paras[q]]);
        assert paras[..q + 1] == paras[..q] + [paras[q]];
        assert [paras[q]][1..] == [];
        if paraText != "" {
          cellContent := cellContent + [paraText];
        }
      }
      assert paras[..|paras|] == paras;
    }

    /** One row of a regular table: each cell's texts joined by a space. */
    method RowCells(cells: seq<Tc>) returns (rowData: seq<string>)
      ensures rowData == RowData(cells)
    {
      rowData := [];
      for c := 0 to |cells|
        invariant rowData == RowData(cells[..c])
      {
        var cellContent := CellContent(cells[c].paras);
        RowDataAppend(cells[..c], [cells[c]]);
        assert cells[..c + 1] == cells[..c] + [cells[c]];
        assert [cells[c]][1..] == [];
        rowData := rowData + [Join(cellContent, " ")];
      }
      assert cells[..|cells|] == cells;
    }

    /** `_process_regular_table`: one row of cell texts per row with cells; a table element when any row remains. */
    method ProcessRegularTable(t: Tbl, sink: ElementList)
      modifies sink
      ensures sink.items == old(sink.items) + RegularTableElements(t)
    {
      var tableData := TableRows(t.rows);
      if tableData != [] {
        sink.Append(Table(tableData));
      }
    }

    /** The row loop of a regular table: the cell texts of each row that has any. */
    method TableRows(rows: seq<Tr>) returns (tableData: seq<seq<string>>)
      ensures tableData == TableData(rows)
    {
      tableData := [];
      for r := 0 to |rows|
        invariant tableData == TableData(rows[..r])
      {
        var rowData := RowCells(rows[r].cells);
        TableDataAppend(rows[..r], [rows[r]]);
        assert rows[..r + 1] == rows[..r] + [rows[r]];
        assert [rows[r]][1..] == [];
        if rowData != [] {
          tableData := tableData + [rowData];
        }
      }
      assert rows[..|rows|] == rows;
    }

    /**
      `extract_content_and_images`: loads the styles and numbering into the
      converter, names the images, builds the rId table and appends each body
      child's elements in order. None is the exception the source raises on an
      image relationship without a target.
     */
    method ExtractContentAndImages(pkg: Package, digest: seq<bv8> -> string) returns (r: Option<Extracted>)
      modifies this
      ensures styles == LoadedStyles(old(styles), pkg.styles)
      ensures numberingLoaded == (old(numberingLoaded) || pkg.hasNumbering)
      ensures r == Extraction(old(styles), pkg, digest)
    {
      LoadStyles(pkg.styles);
      LoadNumbering(pkg.hasNumbering);
      var imageMapping: map<string, string> := map[];
      if pkg.media.Some? {
        imageMapping := CollectImages(pkg.docStem, pkg.media.value, digest);
      }
      var ridToImage: map<string, string> := map[];
      if pkg.rels.Some? {
        var table := CollectRids(pkg.rels.value, imageMapping);
        if table.None? {
          return None;
        }
        ridToImage := table.value;
      }
      var sink := new ElementList();
      if pkg.body.Some? {
        var body := pkg.body.value;
        for i := 0 to |body|
          invariant sink.items == BodyElements(styles, body[..i], ridToImage)
          invariant styles == LoadedStyles(old(styles), pkg.styles)
          invariant numberingLoaded == (old(numberingLoaded) || pkg.hasNumbering)
        {
          assert body[..i + 1][..i] == body[..i];
          match body[i]
          case ParagraphNode(p) => ProcessParagraphFormatted(p, sink, ridToImage);
          case TableNode(t) => ProcessTable(t, sink);
          case OtherNode =>
        }
        assert body[..|body|] == body;
      }
      r := Some(Extracted(sink.items, imageMapping));
    }

    /** The rows after the header, one `| a | b |` line each. */
    static method EmitRows(lines: seq<string>, rows: seq<seq<string>>) returns (out: seq<string>)
      ensures out == lines + RowLines(rows)
    {
      out := lines;
      for k := 0 to |rows|
        invariant out == lines + RowLines(rows[..k])
      {
        RowLinesAppend(rows[..k], [rows[k]]);
        assert rows[..k + 1] == rows[..k] + [rows[k]];
        out := out + ["| " + Join(rows[k], " | ") + " |"];
      }
      assert rows[..|rows|] == rows;
    }

    /** A table's lines: header, a `---` separator as wide as the header, the other rows, then a blank line. */
    static method EmitTable(lines: seq<string>, data: seq<seq<string>>) returns (out: seq<string>)
      requires data != []
      ensures out == lines + TableLines(data) + [""]
    {
      var header := "| " + Join(data[0], " | ") + " |";
      var separator := "| " + Join(seq(|data[0]|, k => "---"), " | ") + " |";
      out := EmitRows(lines + [header, separator], data[1..]);
      out := out + [""];
    }

    /**
      One list item's counting: its numId and level are created when missing,
      its level is incremented, and the deeper levels of its numId are deleted.
     */
    static method CountItem(counters: Counters, numId: int, level: int) returns (r: Counters)
      ensures r == Bump(counters, numId, level)
    {
      r := counters;
      if numId !in r {
        r := r[numId := map[]];
      }
      if level !in r[numId] {
        r := r[numId := r[numId][level := 0]];
      }
      r := r[numId := r[numId][level := r[numId][level] + 1]];
      ghost var base := if numId in counters then counters[numId] else map[];
      assert r[numId] == base[level := (if level in base then base[level] else 0) + 1];
      var bumped := r[numId];
      var inner := map l | l in bumped && l <= level :: bumped[l];
      assert inner == BumpLevel(base, level) by {
        var expected := BumpLevel(base, level);
        assert inner.Keys == expected.Keys;
        assert forall l :: l in inner ==> inner[l] == expected[l];
      }
      r := counters[numId := inner];
    }

    /**
      `convert_to_markdown`: the rendering loop over the elements, then the
      pass that drops a blank line following another. The document name is
      not used.
     */
    method ConvertToMarkdown(contentElements: seq<Element>, docName: string) returns (md: string)
      ensures md == Markdown(contentElements)
    {
      var lines := RenderLines(contentElements);
      var cleaned := CollapseBlankLines(lines);
      md := Join(cleaned, "\n");
    }

    /** The rendering loop: one `RenderStep` per element, with the element that follows it. */
    static method RenderLines(contentElements: seq<Element>) returns (lines: seq<string>)
      ensures lines == LinesAfter(contentElements, |contentElements|)
    {
      lines := [];
      var listCounters: Counters := map[];
      var prevElement: Option<Element> := None;
      var inListContext := false;
      for i := 0 to |contentElements|
        invariant lines == LinesAfter(contentElements, i)
        invariant listCounters == CountersAfter(contentElements, i)
        invariant inListContext == InListAfter(contentElements, i)
        invariant prevElement == PrevOf(contentElements, i)
      {
        var element := contentElements[i];
        var next := if i + 1 < |contentElements| then Some(contentElements[i + 1]) else None;
        lines, listCounters, inListContext := RenderStep(lines, listCounters, inListContext, prevElement, element, next);
        prevElement := Some(element);
      }
    }

    /** The clean-up pass: a blank line that follows a blank line is dropped. */
    static method CollapseBlankLines(lines: seq<string>) returns (cleaned: seq<string>)
      ensures cleaned == Collapse(lines, false)
    {
      cleaned := [];
      var prevEmpty := false;
      for k := 0 to |lines|
        invariant cleaned + Collapse(lines[k..], prevEmpty) == Collapse(lines, false)
      {
        CollapseUnfold(lines, k, prevEmpty);
        ghost var rest := Collapse(lines[k + 1..], lines[k] == "");
        if lines[k] == "" {
          if !prevEmpty {
            assert cleaned + ([""] + rest) == (cleaned + [""]) + rest;
            cleaned := cleaned + [""];
          }
          prevEmpty := true;
        } else {
          assert cleaned + ([lines[k]] + rest) == (cleaned + [lines[k]]) + rest;
          cleaned := cleaned + [lines[k]];
          prevEmpty := false;
        }
      }
      assert lines[|lines|..] == [];
    }

    /** A meaningful paragraph right after a list item resets every counter, leaves the list and asks for a blank line. */
    static method EndListHeuristic(counters: Counters, inList: bool, prev: Option<Element>, element: Element)
      returns (counters': Counters, inList': bool, needsExtraSpace: bool)
      ensures counters' == if EndsList(prev, element) then map[] else counters
      ensures inList' == (inList && !EndsList(prev, element))
      ensures needsExtraSpace == EndsList(prev, element)
    {
      counters' := counters;
      inList' := inList;
      needsExtraSpace := false;
      if prev.Some? && prev.value.NumberedList? && !element.NumberedList? {
        if element.Text? && Strip(element.content) != "" {
          needsExtraSpace := true;
          counters' := map[];
          inList' := false;
        }
      }
    }

    /** A list item right after a paragraph with a cue phrase drops its numId's counters and enters the list. */
    static method CueHeuristic(counters: Counters, inList: bool, prev: Option<Element>, element: Element)
      returns (counters': Counters, inList': bool)
      ensures counters' == if OpensList(prev, element) then counters - {element.numId} else counters
      ensures inList' == (inList || OpensList(prev, element))
    {
      counters' := counters;
      inList' := inList;
      if element.NumberedList? && prev.Some? && !prev.value.NumberedList? {
        if prev.value.Text? && Strip(prev.value.content) != "" {
          if HasCue(prev.value.content) {
            if element.numId in counters' {
              counters' := counters' - {element.numId};
            } else {
              assert counters' - {element.numId} == counters';
            }
            inList' := true;
          }
        }
      }
    }

    /** The element's own lines; a list item also counts itself and enters the list. */
    static method EmitElement(lines: seq<string>, counters: Counters, inList: bool, element: Element, next: Option<Element>)
      returns (lines': seq<string>, counters': Counters, inList': bool)
      ensures counters' == if element.NumberedList? then Bump(counters, element.numId, element.ilvl) else counters
      ensures inList' == (element.NumberedList? || inList)
      ensures lines' == lines + ElementLines(element, next, inList,
                                             if element.NumberedList? then CountOf(counters', element.numId, element.ilvl) else 0)
    {
      counters' := counters;
      inList' := inList;
      match element
      case Title(c) =>
        lines' := lines + ["# " + c, ""];
      case Heading(l, c) =>
        var marker := if l == 1 then "##" else if l == 2 then "###" else "####";
        lines' := lines + [marker + " " + c, ""];
      case NumberedList(c, level, numId) =>
        var indent := RepeatChar(' ', 3 * level);
        counters' := CountItem(counters, numId, level);
        lines' := lines + [indent + NatToString(counters'[numId][level]) + ". " + c];
        inList' := true;
      case Text(c) =>
        lines' := lines;
        if Strip(c) != "" {
          lines' := lines' + [c];
          if next.Some? && !next.value.NumberedList? {
            lines' := lines' + [""];
          }
        } else if !inList {
          lines' := lines' + [""];
        }
      case Image(f, p) =>
        lines' := lines + ["![" + f + "](" + p + ")", ""];
      case Code(c, lang) =>
        var code := ReplaceAll(ReplaceAll(c, "```python", ""), "```", "");
        code := Strip(code);
        lines' := lines + ["```" + lang, code, "```", ""];
      case Table(d) =>
        lines' := lines;
        if d != [] {
          lines' := EmitTable(lines, d);
        }
    }

    /** One iteration of the rendering loop: the two list heuristics, the forced blank line, then the element's own lines. */
    static method RenderStep(lines: seq<string>, counters: Counters, inList: bool, prev: Option<Element>, element: Element,
                             next: Option<Element>)
      returns (lines': seq<string>, counters': Counters, inList': bool)
      ensures counters' == CountersStep(counters, prev, element)
      ensures inList' == InListStep(inList, prev, element)
      ensures lines' == lines + Separator(EndsList(prev, element), lines)
                        + ElementLines(element, next, ContextFor(inList, prev, element),
                                       if element.NumberedList? then CountOf(counters', element.numId, element.ilvl) else 0)
    {
      var ended, endedList, needsExtraSpace := EndListHeuristic(counters, inList, prev, element);
      var reset, context := CueHeuristic(ended, endedList, prev, element);
      assert reset == ResetCounters(counters, prev, element);
      assert context == ContextFor(inList, prev, element);
      var spaced := lines;
      if needsExtraSpace && spaced != [] && spaced[|spaced| - 1] != "" {
        spaced := spaced + [""];
      }
      assert spaced == lines + Separator(EndsList(prev, element), lines);
      lines', counters', inList' := EmitElement(spaced, reset, context, element, next);
    }

    /**
      `convert_file` without the file I/O: the Markdown of a package, or None
      when extracting it raises and the error is only reported.
     */
    method ConvertFile(pkg: Package, digest: seq<bv8> -> string) returns (markdown: Option<string>)
      modifies this
      ensures styles == LoadedStyles(old(styles), pkg.styles)
      ensures var x := Extraction(old(styles), pkg, digest);
              markdown == if x.None? then None else Some(Markdown(x.value.elements))
    {
      var extracted := ExtractContentAndImages(pkg, digest);
      if extracted.None? {
        return None;
      }
      var content := ConvertToMarkdown(extracted.value.elements, pkg.docStem);
      markdown := Some(content);
    }
  }
}
