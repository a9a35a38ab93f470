# Word-to-Markdown conversion and Google Docs harvesting, modelled in Dafny

The repository is a set of scripts. They fetch Google Docs, turn Word
packages (`.docx`) into Markdown, and read code back out of screenshots
with OCR. This project models their deterministic core and proves what
that core promises.

- **Converter** (`convert_with_paragraph_breaks.py`). The class
  `DocxToMarkdownConverter` works in three stages:
  1. It builds a style index from `styles.xml`.
  2. It renames the package's images and resolves relationship ids to the
     new names.
  3. It turns each body paragraph and table into a tagged element (title,
     heading 1-3, numbered list item, text, image, code, table).

  `convert_to_markdown` then renders the element list. It keeps list
  counters per numbering id and level, applies a cue-phrase restart and a
  paragraph-ends-list reset, and finishes with a pass that collapses blank
  lines. The XML is an already-parsed tree (`DocxTree`). The class keeps
  its `styles` field and appends to an `ElementList` in place, as the
  source does.
- **OCR post-processing** (`final_docx_processor.py`,
  `extract_code_from_docx.py`):
  - the two "does this look like code" classifiers;
  - the loop that picks the best Tesseract configuration;
  - the line clean-up of the chosen text;
  - the choice between EasyOCR and Tesseract;
  - `clean_code_text`.

  OCR engines enter only through the strings they return.
- **Google Docs harvesting** (`parse_and_download.py`,
  `extract_and_download_docs.py`):
  - document-id extraction with its pattern precedence;
  - `re.findall`-style URL scanning;
  - order-preserving de-duplication by document id;
  - safe file names;
  - the Markdown index.

Modules, one per file:
- `Wrappers`: Option.
- `Strings`: Python string operations with their meaning lemmas.
- `DocxTree`: the parsed package.
- `Elements`: extraction as functions.
- `Images`: image naming and the rId table.
- `Renderer`: the rendering state machine as functions.
- `Converter`: the two classes and their loops.
- `FinalOcr`, `CodeOcr`: the two OCR scripts.
- `DocIds`: `extract_doc_id` and the safe-title expressions.
- `Dedupe`: the `seen`-set loop.
- `ParseDownload`, `ExtractDownload`: the two download scripts.

Each loop of the source is a method proved equal to a specification
function. The properties are proved as lemmas about that function.

## Model

| member | source | states |
|---|---|---|
| Converter.ElementList.Append | convert_with_paragraph_breaks.py:223-227 | Appending to `content_elements` adds exactly one element at the end and keeps the earlier ones. |
| Converter.DocxToMarkdownConverter.constructor | convert_with_paragraph_breaks.py:33-34 | A new converter has an empty style index and no numbering loaded. |
| Converter.LoadStyleNodes | convert_with_paragraph_breaks.py:121-130 | The loop over `w:style` nodes yields the index `StylesAfter` describes, in node order. |
| Elements.StylesAfterLookup | convert_with_paragraph_breaks.py:121-130 | A style id is in the index iff some node with a non-empty id and a `w:name` carries it, or it was there before. Its entry is the name and `w:type` of the last such node. An id no node names keeps its old entry. |
| Converter.DocxToMarkdownConverter.LoadStyles | convert_with_paragraph_breaks.py:113-130 | `_load_styles` changes only the `styles` field. It adds the package's style nodes when the styles part exists and leaves the index unchanged when it does not. |
| Converter.DocxToMarkdownConverter.LoadNumbering | convert_with_paragraph_breaks.py:132-140 | `_load_numbering` records only that a numbering part exists. The style index is unchanged. |
| Elements.StyleOf | convert_with_paragraph_breaks.py:142-151 | `_get_paragraph_style`: the indexed style of the paragraph's `w:pStyle` id, or none when the paragraph names no style or one the index does not hold. The lemmas about classification use it. |
| Elements.NumberingOf | convert_with_paragraph_breaks.py:153-165 | Numbering info exists iff the paragraph has `w:numPr` with both `w:ilvl` and `w:numId`. Its level and numId are their values, with a missing `w:val` reading as 0. |
| Elements.MarkerStars | convert_with_paragraph_breaks.py:198-203 | Bold contributes two asterisks and italic one, and the marker holds nothing else. |
| Elements.FormatPieceUnwraps | convert_with_paragraph_breaks.py:198-205 | A formatted piece is the text between two copies of one marker, so the text can be read back from it. |
| Converter.FormatRunTexts | convert_with_paragraph_breaks.py:193-205 | The text loop of one run keeps each non-empty `w:t` text, wrapped in the run's marker, in order. |
| Converter.DocxToMarkdownConverter.ExtractTextWithFormatting | convert_with_paragraph_breaks.py:167-210 | `_extract_text_with_formatting` returns the runs' formatted pieces concatenated with no separator. A `b` or `i` is on unless its `w:val` is literally "false"; a missing val counts as on. |
| Elements.FormattedText | convert_with_paragraph_breaks.py:167-210 | The text of `_extract_text_with_formatting`: each run's pieces wrapped in the marker of its bold/italic flags, concatenated without separators. `FormattedTextAppend`, `UnformattedRunsArePlain` and `FormattedTextEmptyIff` state its properties. |
| Elements.FormattedTextAppend | convert_with_paragraph_breaks.py:171-210 | Formatting is per run: the text of two run sequences is their two texts side by side. |
| Elements.UnformattedRunsArePlain | convert_with_paragraph_breaks.py:179-205 | Runs with neither bold nor italic on give exactly their bare, unformatted text. |
| Elements.FormattedTextEmptyIff | convert_with_paragraph_breaks.py:193-210 | A paragraph's formatted text is empty iff every one of its `w:t` texts is empty. |
| Elements.StyleKindPrecedence | convert_with_paragraph_breaks.py:247-256 | The lower-cased style name is checked for "title", "heading 1", "heading 2", "heading 3" in that order, and the first match decides, so "Heading 10" is a level-1 heading. Each kind holds iff its test succeeds and every earlier test fails. |
| Elements.StyleKind | convert_with_paragraph_breaks.py:247-256 | The element type a paragraph style gives: title, heading 1-3 on the lower-cased name, otherwise text. `StyleKindPrecedence` states the order of the tests. |
| Converter.DocxToMarkdownConverter.ClassifyParagraph | convert_with_paragraph_breaks.py:240-262 | The element type chosen by the style tests and then overridden by numbering is the one `TextElement` describes. |
| Elements.NumberingForcesList | convert_with_paragraph_breaks.py:232-264 | Numbering info on a paragraph that emits text makes its last element a numbered-list item carrying the text, level and numId, whatever the style. |
| Elements.PlainParagraphYieldsOneElement | convert_with_paragraph_breaks.py:215-264 | A paragraph without a drawing yields exactly one element, which is a title, heading, list item or text carrying the formatted text. |
| Elements.DrawingWithoutText | convert_with_paragraph_breaks.py:215-232 | A drawing paragraph with no text yields at most the image element. The image is there iff the embed id is non-empty and in the rId table, and its path is `../images/` + the new name. |
| Elements.ImagesComeFromTable | convert_with_paragraph_breaks.py:219-227 | Every image element of a paragraph names a file of the rId table. |
| Elements.ParagraphElements | convert_with_paragraph_breaks.py:212-264 | What `_process_paragraph_formatted` appends: an image element when the drawing's embed is a non-empty id the rId table knows, then the text element unless the text is empty and there is a drawing. The three lemmas above state its cases. |
| Converter.DocxToMarkdownConverter.ProcessParagraphFormatted | convert_with_paragraph_breaks.py:212-264 | `_process_paragraph_formatted` appends exactly the paragraph's elements (`ParagraphElements`) in order and leaves the earlier elements alone. |
| Converter.PlainTexts | convert_with_paragraph_breaks.py:278-281 | A 1x1 table paragraph's texts are non-empty and concatenate to its unformatted text. |
| Converter.AppendNonEmptyTexts | convert_with_paragraph_breaks.py:279-281 | Appending a run's texts keeps the list free of empty strings and adds exactly those texts' characters. |
| Converter.CodeCellLines | convert_with_paragraph_breaks.py:276-283 | The cell loop of a 1x1 table collects the unformatted text of each paragraph that has any, in order. |
| Elements.CellCodeLines | convert_with_paragraph_breaks.py:276-283 | There is at most one code line per paragraph, and none is empty. |
| Elements.OneByOneTableIsCode | convert_with_paragraph_breaks.py:272-294 | A table with exactly one row and one cell yields at most one element and never a table. The element is there iff some paragraph has text, and it is a `python` code block whose content is those texts joined by newlines. |
| Elements.RegularTableShape | convert_with_paragraph_breaks.py:302-322 | Any other table yields at most one element, a table. It is absent iff no row has a cell. It has one non-empty row per row with cells. |
| Elements.TableData | convert_with_paragraph_breaks.py:306-316 | Rows without cells are dropped, every kept row is non-empty, and the data is empty iff no row has a cell. |
| Converter.DocxToMarkdownConverter.CellContent | convert_with_paragraph_breaks.py:309-313 | One cell's loop keeps the non-empty formatted texts of its paragraphs, in order. |
| Converter.DocxToMarkdownConverter.RowCells | convert_with_paragraph_breaks.py:307-314 | One row's loop gives one entry per cell: its texts joined by a space. |
| Converter.DocxToMarkdownConverter.TableRows | convert_with_paragraph_breaks.py:304-316 | The row loop builds exactly `TableData` of the rows. |
| Converter.DocxToMarkdownConverter.ProcessRegularTable | convert_with_paragraph_breaks.py:302-322 | `_process_regular_table` appends a table element when any row remains and nothing otherwise. |
| Converter.DocxToMarkdownConverter.ProcessTable | convert_with_paragraph_breaks.py:266-300 | `_process_table` appends exactly the table's elements: the 1x1 code rule or the regular table. |
| Elements.TableElements | convert_with_paragraph_breaks.py:266-322 | What `_process_table` appends: for a 1×1 table a python code element of the cell's non-empty lines (or nothing), otherwise the regular table element. `OneByOneTableIsCode` and `RegularTableShape` state both branches. |
| Elements.BodyImagesFromTable | convert_with_paragraph_breaks.py:96-104 | Every image element of a document body names a file of the rId table; tables never yield one. |
| Elements.BodyElements | convert_with_paragraph_breaks.py:96-104 | The elements of the body in document order: each paragraph's and each table's elements appended in turn. `BodyImagesFromTable` bounds its images. |
| Images.LastIndexOf | convert_with_paragraph_breaks.py:60-64 | The result is -1 or the position of the last occurrence of the character, with none after it. |
| Images.StemSuffixSplit | convert_with_paragraph_breaks.py:60-64 | Stem and suffix split a file name. A non-empty suffix is a dot and at least one character, none of them dots, after a non-empty stem. |
| Images.DocNameClean | convert_with_paragraph_breaks.py:62 | The document part of an image name holds no space and no colon. |
| Images.Take | convert_with_paragraph_breaks.py:63 | Python's `s[:n]`: the first `min(n, len(s))` characters. |
| Images.Suffix | convert_with_paragraph_breaks.py:59-63 | `PurePath.suffix`: from the last dot on, when that dot is neither the first nor the last character, otherwise empty. `StemSuffixSplit` states the split. |
| Images.Stem | convert_with_paragraph_breaks.py:63 | `PurePath.stem`: the name without its suffix. `StemSuffixSplit` states the split. |
| Images.DocName | convert_with_paragraph_breaks.py:61 | The document stem with spaces turned to `_` and colons removed. `DocNameClean` states what it cannot hold. |
| Images.NewImageNameKeepsSuffix | convert_with_paragraph_breaks.py:60-64 | The new name `{doc}_{stem}_{hash8}{suffix}` keeps the original suffix, so it is again a png/jpg/jpeg/gif/bmp name. |
| Images.NewImageName | convert_with_paragraph_breaks.py:60-63 | `{doc_name}_{stem}_{hash8}{suffix}`, with the md5 digest a parameter. `NewImageNameKeepsSuffix` states that the suffix survives. |
| Converter.CollectImages | convert_with_paragraph_breaks.py:58-71 | The media loop builds exactly the mapping `ImageMapping` describes, in directory order. |
| Images.ImageMappingKeys | convert_with_paragraph_breaks.py:59-71 | A name is in the image mapping iff it is a media file with one of the copied extensions, compared after lower-casing. |
| Images.ImageMappingValue | convert_with_paragraph_breaks.py:59-71 | Each copied file is mapped to its own new name, whatever the directory order. |
| Images.ImageMapping | convert_with_paragraph_breaks.py:57-71 | `image_mapping`: each media file with a copied extension mapped to its new name. `ImageMappingKeys` and `ImageMappingValue` state its keys and values. |
| Images.BaseName | convert_with_paragraph_breaks.py:85 | `os.path.basename` keeps no '/'. |
| Converter.CollectRids | convert_with_paragraph_breaks.py:80-87 | The relationship loop yields the rId table `RidTable` describes, or fails like the source on an image relationship without a target. |
| Images.RidTableNoneIff | convert_with_paragraph_breaks.py:81-84 | Reading the relationships fails iff some relationship whose Type contains "image" has no Target. |
| Images.RidTableValues | convert_with_paragraph_breaks.py:84-87 | Every name in the rId table is a new image name of the mapping. |
| Images.RidTableKey | convert_with_paragraph_breaks.py:81-87 | Every rId in the table comes from a relationship whose Type contains "image", whose Target starts with `media/` and whose basename is a copied image. |
| Images.RidTable | convert_with_paragraph_breaks.py:74-87 | `rid_to_image`, or none when an image relationship has no Target and `target.startswith` raises. `RidTableNoneIff`, `RidTableValues` and `RidTableKey` state when it fails, its values and its keys. |
| Converter.DocxToMarkdownConverter.ExtractContentAndImages | convert_with_paragraph_breaks.py:36-111 | `extract_content_and_images` loads the styles and the numbering into the converter. It names the images, builds the rId table and appends each paragraph's and table's elements in body order, giving `Extraction`. |
| Converter.ExtractionFailsIff | convert_with_paragraph_breaks.py:74-87 | Extraction fails iff the package has an image relationship without a target. |
| Converter.ExtractedImagesWereCopied | convert_with_paragraph_breaks.py:57-104 | Every image element of an extracted document names an image that was copied out of the package. |
| Renderer.BumpLevel | convert_with_paragraph_breaks.py:396-403 | Counting an item at level L sets L's counter to its old value (0 when missing) plus one. It deletes every deeper level and keeps the shallower ones. |
| Renderer.Bump | convert_with_paragraph_breaks.py:392-403 | The item's numId gets its counters bumped at the item's level. Every other numId keeps its counters. |
| Converter.DocxToMarkdownConverter.CountItem | convert_with_paragraph_breaks.py:392-403 | The counter updates on the dictionary of dictionaries, with the deeper-level deletion, give exactly `Bump`. |
| Renderer.Indent | convert_with_paragraph_breaks.py:389 | An item's indent is exactly 3·level spaces (none for level ≤ 0). |
| Renderer.RowLines | convert_with_paragraph_breaks.py:446-447 | Each remaining row becomes one `\| a \| b \|` line, in order. |
| Renderer.TableLinesShape | convert_with_paragraph_breaks.py:440-447 | A table renders as its header row, then a separator with one `---` per header cell, then the other rows. |
| Renderer.ThreeColumnSeparator | convert_with_paragraph_breaks.py:444 | A three-column table's separator is `\| --- \| --- \| --- \|`. |
| Converter.DocxToMarkdownConverter.EmitRows | convert_with_paragraph_breaks.py:446-447 | The row loop appends exactly the row lines. |
| Converter.DocxToMarkdownConverter.EmitTable | convert_with_paragraph_breaks.py:438-448 | A table element appends its table lines and one blank line. |
| Renderer.CleanCodeHasNoFence | convert_with_paragraph_breaks.py:427-434 | The code line of a rendered code block contains no "```": removing every fence leaves none behind. |
| Renderer.FenceRemovalComplete | convert_with_paragraph_breaks.py:429 | `replace('```', '')` never creates a new "```" where two pieces meet. |
| Converter.DocxToMarkdownConverter.EndListHeuristic | convert_with_paragraph_breaks.py:340-346 | A non-blank paragraph right after a list item empties every counter, leaves the list context and asks for a blank line. Anything else changes nothing. |
| Converter.DocxToMarkdownConverter.CueHeuristic | convert_with_paragraph_breaks.py:349-359 | A list item right after a non-blank paragraph with a cue phrase drops its own numId's counters and enters the list context. Anything else changes nothing. |
| Converter.DocxToMarkdownConverter.EmitElement | convert_with_paragraph_breaks.py:365-448 | An element appends its own lines. A list item also counts itself and sets the list context; every other element leaves the counters as they are. |
| Converter.DocxToMarkdownConverter.RenderStep | convert_with_paragraph_breaks.py:333-451 | One loop iteration gives the counters, list context and lines described by `CountersStep`, `InListStep` and `LinesAfter`'s step. |
| Converter.DocxToMarkdownConverter.RenderLines | convert_with_paragraph_breaks.py:326-451 | The rendering loop produces exactly `LinesAfter` of the whole element list. |
| Renderer.CountersAfter | convert_with_paragraph_breaks.py:326-451 | `list_counters` after the first `n` elements of the rendering loop. The Step, Keeps and Restarts lemmas below state how it evolves. |
| Renderer.LinesAfter | convert_with_paragraph_breaks.py:326-451 | `markdown_lines` after the first `n` elements of the rendering loop. `LinesAfterStep` states that each step only appends. |
| Renderer.CountersStepListItem | convert_with_paragraph_breaks.py:349-405 | A list item is numbered 1 after a cue phrase and otherwise one more than its counter. It leaves no deeper level of its numId, and other numIds keep their counters. |
| Renderer.StepEndsList | convert_with_paragraph_breaks.py:340-346 | A paragraph that ends a list drops all counters and clears the list context. |
| Renderer.StepNeutral | convert_with_paragraph_breaks.py:333-451 | An element that is neither a list item nor a non-blank paragraph leaves the counters and list context alone. |
| Renderer.HeadingItemLines | convert_with_paragraph_breaks.py:370-383 | A heading adds its `#` marker line and one blank line. |
| Renderer.ListItemLine | convert_with_paragraph_breaks.py:385-406 | A list item adds exactly one line: indent, counter, ". ", text. Afterwards the list context is on. |
| Renderer.EndingParagraphLines | convert_with_paragraph_breaks.py:340-415 | A paragraph that ends a list gets exactly one blank line before it, and none when the last line is already blank. Its text follows, with a blank line only if a non-list element comes next. |
| Renderer.LinesAfterStep | convert_with_paragraph_breaks.py:333-451 | The lines after one more element are the forced separator and then the element's own lines, in list context and with the counter of that iteration. |
| Renderer.TextLines | convert_with_paragraph_breaks.py:408-418 | A non-blank paragraph emits its text unstripped, followed by a blank line iff a next element exists and is not a list item. A blank paragraph emits one blank line outside a list context and nothing inside one. |
| Renderer.TextLinesMeaningful | convert_with_paragraph_breaks.py:410-415 | A non-blank paragraph's lines are its text and, only when a non-list element follows, one blank line. |
| Renderer.BlankParagraphLines | convert_with_paragraph_breaks.py:416-418 | A blank paragraph emits nothing inside a list and one blank line outside; the list context stays. |
| Renderer.NoHeuristicAfter | convert_with_paragraph_breaks.py:340-359 | Right after a list item or a neutral element, a step that is not a non-blank paragraph neither ends nor opens a list. |
| Renderer.StepSparesLevel | convert_with_paragraph_breaks.py:385-403 | A step that neither ends nor opens a list keeps a level's counter when the element is neutral, another numId, or deeper. |
| Renderer.StepSparesList | convert_with_paragraph_breaks.py:385-403 | A step that neither ends nor opens a list keeps a numId's counters when the element is neutral or another numId. |
| Renderer.KeepsLevelCount | convert_with_paragraph_breaks.py:333-451 | After a list item, elements that spare a level (headings, images, code, tables, blank text, items of other lists or deeper levels) keep that level's counter. |
| Renderer.KeepsListCounters | convert_with_paragraph_breaks.py:333-451 | After a list item, neutral elements and items of other numIds keep a numId's counters. |
| Renderer.ContinuesAcross | convert_with_paragraph_breaks.py:389-405 | Two items of one numId and level with only sparing elements between them are numbered consecutively: a heading, image, code, table or blank text does not reset the count. |
| Renderer.RunNumberedConsecutively | convert_with_paragraph_breaks.py:389-405 | A run of items of one numId and level is numbered consecutively from its first item. |
| Renderer.LeadingRunNumberedFromOne | convert_with_paragraph_breaks.py:389-405 | A document that opens with N items of one list and level numbers them 1..N. |
| Renderer.DeeperLevelRestarts | convert_with_paragraph_breaks.py:396-403 | An item at a deeper level than an earlier item of its numId, with only neutral elements or other numIds between them, is numbered 1, because the earlier item deleted the deeper counters. |
| Renderer.NeutralKeepsCounters | convert_with_paragraph_breaks.py:333-451 | A stretch of neutral elements leaves all counters as they were. |
| Renderer.ParagraphRestartsNumbering | convert_with_paragraph_breaks.py:340-346 | The first list item after a non-blank paragraph that follows a list item is numbered 1, with only neutral elements in between. |
| Renderer.CuePhraseRestartsNumbering | convert_with_paragraph_breaks.py:349-359 | A list item right after a non-blank paragraph with a cue phrase is numbered 1, and every other numId keeps its counters. |
| Renderer.CueNeedsColon | convert_with_paragraph_breaks.py:354 | Every cue phrase ends with a colon, so text without one never triggers the cue restart. |
| Renderer.ListResetScenarioNumbers | convert_with_paragraph_breaks.py:340-405 | In a heading, two items, a remark and a third item of the same list, the items are numbered 1, 2 and then 1 again. |
| Renderer.ListResetScenarioLines | convert_with_paragraph_breaks.py:340-418 | That document's lines before clean-up: heading, blank, "1. a", "2. b", blank, remark, "1. c". |
| Renderer.ListResetScenario | convert_with_paragraph_breaks.py:324-465 | The whole Markdown of that document is those seven lines joined by newlines. |
| Renderer.Collapse | convert_with_paragraph_breaks.py:454-463 | The clean-up pass never lengthens the line list. |
| Converter.DocxToMarkdownConverter.CollapseBlankLines | convert_with_paragraph_breaks.py:454-463 | The `prev_empty` loop gives exactly `Collapse` of the lines. |
| Renderer.CollapseNoDoubleBlank | convert_with_paragraph_breaks.py:454-463 | After the clean-up no two consecutive lines are blank. |
| Renderer.CollapseKeepsText | convert_with_paragraph_breaks.py:454-463 | The clean-up removes only blank lines: every non-blank line survives, in its original order. |
| Renderer.CollapseFixesClean | convert_with_paragraph_breaks.py:454-463 | Lines without two adjacent blanks pass the clean-up unchanged. |
| Renderer.CollapseIdempotent | convert_with_paragraph_breaks.py:454-463 | Cleaning twice is cleaning once. |
| Renderer.MarkdownOfCleanLines | convert_with_paragraph_breaks.py:453-465 | A rendering whose lines have no two adjacent blanks is those lines joined by newlines. |
| Renderer.Markdown | convert_with_paragraph_breaks.py:324-465 | The result of `convert_to_markdown`: the rendered lines with runs of blank lines collapsed, joined by newlines. The Collapse lemmas and `ListResetScenario` state its properties. |
| Converter.DocxToMarkdownConverter.ConvertToMarkdown | convert_with_paragraph_breaks.py:324-465 | `convert_to_markdown` returns `Markdown` of the elements: the rendered lines, collapsed, joined by newlines. The document name plays no part. |
| Converter.DocxToMarkdownConverter.ConvertFile | convert_with_paragraph_breaks.py:467-491 | `convert_file` yields the Markdown of the extracted elements, or nothing when extraction raises. It loads the package's styles into the converter. |
| Strings.ParseNatToString | convert_with_paragraph_breaks.py:405 | The printed list counter reads back as the same number. |
| Strings.StripEmptyIff | convert_with_paragraph_breaks.py:342 | `strip()` gives "" exactly for whitespace-only text, the test for a blank paragraph. |
| Strings.StripEnds | convert_with_paragraph_breaks.py:430 | A stripped string neither starts nor ends with whitespace. |
| Strings.SplitJoin | convert_with_paragraph_breaks.py:465 | `split` undoes `join` when no piece holds the separator. |
| Strings.JoinSplit | final_docx_processor.py:87-99 | `join` undoes `split`. |
| Strings.NormalizeSpacesMeaning | final_docx_processor.py:90 | `' '.join(line.split())` is single-spaced: no whitespace at either end, no two whitespace characters in a row, only ' '. It keeps every non-whitespace character in order. |
| FinalOcr.IndicatorCount | final_docx_processor.py:179 | The indicator count never exceeds the number of patterns. |
| FinalOcr.IndicatorCountIsPresentSize | final_docx_processor.py:168-179 | The count is the number of patterns present in the lower-cased text, each counted once. |
| FinalOcr.IndicatorCountPositive | final_docx_processor.py:179 | The count is positive iff some pattern occurs. |
| FinalOcr.IsCodeLike | final_docx_processor.py:163-186 | Code-like text is never empty and has a stripped length of at least 20. |
| FinalOcr.CodeLikeHasPattern | final_docx_processor.py:179-186 | Code-like text contains at least one pattern, in lower case. |
| FinalOcr.ThreeIndicatorsAreCode | final_docx_processor.py:186 | Long-enough text with three or more distinct indicators is code, whatever its brackets, indentation or operators. |
| FinalOcr.FewIndicatorsNeedStructure | final_docx_processor.py:182-186 | With one or two indicators the text is code iff it has brackets (both round or both curly) and either indentation (four spaces or a tab) or an operator, checked in original case. |
| FinalOcr.NoIndicatorNoCode | final_docx_processor.py:186 | Text with no indicator is never code. |
| FinalOcr.ChooseBest | final_docx_processor.py:70-82 | The configuration loop ends in exactly the selection `SelectionAfter` describes. Configurations that raise are skipped. |
| FinalOcr.SelectionAfter | final_docx_processor.py:70-82 | `best_text`, `best_config` and `max_length` after the first `n` configurations. `SelectionEmptyIff`, `SelectionIsLongest` and `SelectionIsEarliest` state what is chosen. |
| FinalOcr.SelectionEmptyIff | final_docx_processor.py:74-82 | Nothing is chosen iff no configuration returns text with a non-whitespace character. |
| FinalOcr.SelectionIsLongest | final_docx_processor.py:77-80 | No configuration's stripped length exceeds the chosen one. |
| FinalOcr.SelectionIsEarliest | final_docx_processor.py:74-80 | The chosen text and configuration come from the earliest attempt of greatest stripped length. |
| FinalOcr.NormalizeLines | final_docx_processor.py:87-91 | The normalising loop keeps the number of lines and collapses each line's whitespace. |
| FinalOcr.NormalizedLines | final_docx_processor.py:87-91 | Normalising keeps the number of lines. |
| FinalOcr.DropLeading | final_docx_processor.py:94-95 | Dropping leading blank lines never lengthens the list, and what remains does not start with a blank line. |
| FinalOcr.DropLeadingMeaning | final_docx_processor.py:94-95 | The result is a suffix of the lines, and every line dropped before it is blank. |
| FinalOcr.DropTrailing | final_docx_processor.py:96-97 | Dropping trailing blank lines never lengthens the list, and what remains does not end with a blank line. |
| FinalOcr.DropTrailingMeaning | final_docx_processor.py:96-97 | The result is a prefix of the lines, and every line dropped after it is blank. |
| FinalOcr.PopLeading | final_docx_processor.py:94-95 | The `pop(0)` loop yields `DropLeading`. |
| FinalOcr.PopTrailing | final_docx_processor.py:96-97 | The `pop()` loop yields `DropTrailing`. |
| FinalOcr.TrimKeepsInterior | final_docx_processor.py:93-97 | The kept lines are one contiguous block of the input in order, interior blank lines included, and every dropped line is blank. |
| FinalOcr.TrimEnds | final_docx_processor.py:93-97 | The result is empty iff every line is blank; otherwise its first and last lines are non-blank. |
| FinalOcr.NormalizedLinesSingleSpaced | final_docx_processor.py:89-91 | Every cleaned line has no leading or trailing whitespace and no run of two whitespace characters. |
| FinalOcr.TrimmedSingleSpaced | final_docx_processor.py:87-97 | Every kept line is single-spaced. |
| FinalOcr.CleanedLines | final_docx_processor.py:87-99 | The lines of the chosen text, each whitespace-normalised, with empty lines dropped at both ends. `TrimKeepsInterior`, `TrimEnds` and `CleanedTextEnds` state its shape. |
| FinalOcr.SomeLineNonBlank | final_docx_processor.py:85-91 | Text with a non-whitespace character has a line that does not normalise to blank. |
| FinalOcr.CleanedTextEnds | final_docx_processor.py:85-100 | A non-blank best text yields a non-empty list of single-spaced lines whose first and last lines are non-blank. |
| FinalOcr.ExtractTextWithOcr | final_docx_processor.py:54-102 | A failed preprocessing gives ("", "Preprocessing failed"). Otherwise the result is the cleaned best text with its configuration, or ("", "No text extracted"). |
| FinalOcr.OcrResult | final_docx_processor.py:84-102 | The result once preprocessing succeeded: the cleaned text and its configuration, or ("", "No text extracted"). `NoTextExtracted` and `OcrResultNamesConfig` state its cases. |
| FinalOcr.NoTextExtracted | final_docx_processor.py:85-102 | The text is empty iff no configuration yields non-blank text, and then the result is ("", "No text extracted"). |
| FinalOcr.OcrResultNamesConfig | final_docx_processor.py:63-80 | When the four `--psm` configurations are tried in order, the reported configuration is one of them iff some configuration yields non-blank text, and "No text extracted" otherwise. |
| CodeOcr.IsCodeLike | extract_code_from_docx.py:52-55 | Whitespace-only text is never code. |
| CodeOcr.CodeLikeIff | extract_code_from_docx.py:72-79 | Non-blank text is code iff it has two or more distinct indicators, or one with indentation and both round brackets. A colon plays no part. |
| CodeOcr.NoIndicatorNotCode | extract_code_from_docx.py:79 | Text with no indicator is never code. |
| CodeOcr.ChooseEngine | extract_code_from_docx.py:139-150 | The result is EasyOCR's text labelled "EasyOCR" or Tesseract's text labelled "Tesseract". |
| CodeOcr.ThresholdInIntegers | extract_code_from_docx.py:139 | `len(easy) > 0.8·len(tess)` is `5·len(easy) > 4·len(tess)`. |
| CodeOcr.EngineChoice | extract_code_from_docx.py:139-150 | EasyOCR wins iff its text is code-like and more than 0.8 times Tesseract's length, or neither is code-like and EasyOCR's is strictly longer. Otherwise Tesseract wins; ties go to Tesseract. |
| CodeOcr.CollapseSpaces | extract_code_from_docx.py:87 | `re.sub(r' +', ' ', text)`: every run of spaces becomes one space. `CollapseNoDoubleSpace` and `CollapseKeepsNonSpace` state its meaning. |
| CodeOcr.Rewrite | extract_code_from_docx.py:88-91 | One lookaround substitution: each maximal whitespace run is replaced when the rule matches it between its neighbours. `RewriteKeepsNonSpace`, `NoSpaceAfterOpenParen` and `NoSpaceBeforeCloseParen` state its meaning. |
| CodeOcr.CollapseNoDoubleSpace | extract_code_from_docx.py:87 | After the `' +'` collapse no two spaces are adjacent. |
| CodeOcr.CollapseKeepsNonSpace | extract_code_from_docx.py:87 | The space collapse removes only spaces. |
| CodeOcr.RewriteKeepsNonSpace | extract_code_from_docx.py:88-91 | A substitution whose replacement is blank changes only whitespace. |
| CodeOcr.NoSpaceAfterOpenParen | extract_code_from_docx.py:89 | After `(?<=\()\s+` is removed, no `(` is followed by whitespace. |
| CodeOcr.NoSpaceBeforeCloseParen | extract_code_from_docx.py:90 | After `\s+(?=\))` is removed, no `)` is preceded by whitespace. |
| CodeOcr.PrepassKeepsNonSpace | extract_code_from_docx.py:87-91 | With the intended colon replacement, the five substitutions change only whitespace. |
| CodeOcr.CleanLineBlank | extract_code_from_docx.py:108-113 | A line becomes "" iff it is whitespace only. |
| CodeOcr.CleanLineShape | extract_code_from_docx.py:105-113 | A non-blank line becomes its leading-whitespace count in spaces, then the line with its leading and trailing whitespace removed. |
| CodeOcr.CleanLineKeeps | extract_code_from_docx.py:105-113 | A cleaned line keeps its non-whitespace characters and gains no newline. |
| CodeOcr.CleanLines | extract_code_from_docx.py:102-113 | The line loop produces one line per input line. |
| CodeOcr.CleanCodeText | extract_code_from_docx.py:81-115 | `clean_code_text` returns "" for empty text, and otherwise the corrected substitutions then one cleaned line per line, joined by newlines. |
| CodeOcr.CleanedCodeLines | extract_code_from_docx.py:102-115 | The output has exactly one line for each newline-separated line of the substituted text, each the cleaned version of it. |
| CodeOcr.CleanedCode | extract_code_from_docx.py:81-115 | `clean_code_text` with the corrected colon replacement `'\n    '`. `CleanedCodeKeepsNonSpace` states that it changes whitespace only. |
| CodeOcr.CleanedCodeAsWritten | extract_code_from_docx.py:81-115 | `clean_code_text` as written, with the replacement `':\n    '`. `CleanedCodeAsWrittenAddsColon` shows the doubled colon. |
| CodeOcr.LineLoopKeepsNonSpace | extract_code_from_docx.py:102-115 | The line loop changes only whitespace. |
| CodeOcr.CleanedCodeKeepsNonSpace | extract_code_from_docx.py:81-115 | The corrected clean-up changes whitespace only, so the unused O/l/\|/§ replacement table is never applied. |
| CodeOcr.CleanedCodeAsWrittenAddsColon | extract_code_from_docx.py:91 | As written, a colon that ends a line is doubled: `p:\nq` comes out with non-whitespace `p::q`. |
| CodeOcr.OcrImage | extract_code_from_docx.py:117-159 | `ocr_image` labels its result "EasyOCR", "Tesseract" or "Error", and "Error", with empty text, exactly when the image fails to open. The clean-up's colon replacement is a parameter. |
| CodeOcr.OcrImageKeepsChosenText | extract_code_from_docx.py:123-155 | With the corrected colon replacement, the returned text has exactly the non-whitespace characters of the engine output it names. |
| CodeOcr.OcrImageAsWrittenAddsColon | extract_code_from_docx.py:123-155 | As written, with EasyOCR raised and Tesseract reading `p:\nq`, `ocr_image` returns Tesseract's text with non-whitespace `p::q`, one colon more than Tesseract read. |
| DocIds.RunLength | parse_and_download.py:14-16 | The greedy run of `[a-zA-Z0-9-_]` is made of id characters and ends at the text's end or at another character. |
| DocIds.IdAtIsRun | parse_and_download.py:14-22 | The group of a match is a non-empty run of id characters. |
| DocIds.SearchFrom | parse_and_download.py:20-22 | A found group is a run of id characters. |
| DocIds.SearchFound | parse_and_download.py:20-22 | A found id is the greedy run after the leftmost marker occurrence followed by an id character. |
| DocIds.SearchLeftmost | parse_and_download.py:20-22 | Conversely, the leftmost match is what the search returns. |
| DocIds.SearchNoneIff | parse_and_download.py:20-22 | The search fails iff the pattern matches nowhere. |
| DocIds.ExtractDocIdWith | parse_and_download.py:19-23 | An extracted id is a run of id characters. |
| DocIds.ExtractNoneIff | parse_and_download.py:13-23 | No id is extracted iff none of `/document/d/`, `/d/`, `id=` matches anywhere. |
| DocIds.ExtractPrecedence | parse_and_download.py:13-22 | An extracted id comes from the first pattern that matches, at its leftmost match. Every earlier pattern matches nowhere. |
| DocIds.ExtractDocId | parse_and_download.py:11-23 | `extract_doc_id`: the three patterns `/document/d/`, `/d/`, `id=` tried in order. `ExtractNoneIff` and `ExtractPrecedence` state when it fails and which match wins. |
| DocIds.SanitizeConcat | parse_and_download.py:81 | Removing `[^\w\s-]` works character by character, so it distributes over concatenation. |
| DocIds.SanitizeMeaning | parse_and_download.py:81 | The sanitised title consists of word characters, whitespace and dashes and is never longer. A title made only of those characters is left unchanged. |
| DocIds.Sanitize | parse_and_download.py:81 | `re.sub(r'[^\w\s-]', '', s)`: the characters that are not word characters, whitespace or dashes are removed. `SanitizeMeaning` states what remains. |
| DocIds.Prefix | parse_and_download.py:81 | Python's `s[:n]`: a prefix of length `min(n, len(s))`. |
| DocIds.CollapseKeepsNonDash | parse_and_download.py:82 | `re.sub(r'[-\s]+', '-')` keeps every character outside `[-\s]`, in order. |
| DocIds.CollapseSingleDashes | parse_and_download.py:82 | After the collapse no whitespace and no doubled dash remain. |
| DocIds.CollapseShortens | parse_and_download.py:82 | The collapse never lengthens, and turns title characters into word characters and dashes. |
| DocIds.CollapseDashes | parse_and_download.py:82 | `re.sub(r'[-\s]+', '-', s)`: each run of dashes and whitespace becomes one dash. The three Collapse lemmas state its meaning. |
| DocIds.SafeTitleShape | parse_and_download.py:81-82 | A safe title has at most `n` characters, all word characters or dashes, with no two dashes in a row. |
| DocIds.SafeTitle | parse_and_download.py:81-82 | The two `safe_title` substitutions with the 30- or 50-character cut between them. `SafeTitleShape` and `SafeTitleIdempotent` state its shape. |
| DocIds.SafeTitleIdempotent | parse_and_download.py:81-82 | A safe title is its own safe title. |
| ParseDownload.UrlRunLength | parse_and_download.py:28 | The greedy run of `[^\s\)\"\'<>]` is made of URL characters and ends at the text's end or a stop character. |
| ParseDownload.MatchAt | parse_and_download.py:28-33 | A match of either pattern starts where it is asked for, ends inside the text, and its group lies inside the match. |
| ParseDownload.Matches | parse_and_download.py:28-33 | The table has one entry per position: the match there, if any. |
| ParseDownload.Scan | parse_and_download.py:28-33 | Every span of the scan starts at or after the scan's start and ends inside the text, with its group inside the span. |
| ParseDownload.ScanSound | parse_and_download.py:28-33 | Every span of the scan is a match, and each starts at or after the end of the one before. |
| ParseDownload.ScanComplete | parse_and_download.py:28-33 | No match is missed: each match lies inside, or starts, a span of the scan. |
| ParseDownload.FindAll | parse_and_download.py:28-33 | `re.findall` returns one string per span of the scan. |
| ParseDownload.FoundSpanIsMatch | parse_and_download.py:28-33 | Every span `findall` reports is a match of the pattern. |
| ParseDownload.FoundIdAt | parse_and_download.py:32-33 | Every id the second pattern finds follows `docs.google.com/document/d/` at its match, is the greedy id run there, and is a run of id characters. |
| ParseDownload.Candidates | parse_and_download.py:28-35 | There is one candidate per first-pattern URL and one edit URL per found id. |
| ParseDownload.DocIdKeys | parse_and_download.py:41 | There is one extracted id per candidate URL. |
| ParseDownload.CollectUrls | parse_and_download.py:28-35 | The appending loop builds the first pattern's URLs followed by `https://docs.google.com/document/d/{id}/edit` for each found id. |
| ParseDownload.FindGoogleDocsUrls | parse_and_download.py:25-46 | `find_google_docs_urls` returns the de-duplicated candidates `UniqueUrls`. |
| ParseDownload.UniqueUrls | parse_and_download.py:25-46 | The candidate URLs de-duplicated by their extracted id. The three lemmas below state that the ids are distinct, first in order and complete. |
| ParseDownload.EditUrlId | parse_and_download.py:35-41 | The edit URL built from an id yields exactly that id again. |
| ParseDownload.UniqueUrlsDistinct | parse_and_download.py:37-46 | Every returned URL has an id, and no two share one. |
| ParseDownload.UniqueUrlsFirstInOrder | parse_and_download.py:28-46 | The returned URLs are candidates picked in increasing order, first-pattern URLs before edit URLs. Each is the first candidate with its id. |
| ParseDownload.FoundIdReturned | parse_and_download.py:32-46 | Every id the second pattern finds is the id of some returned URL. |
| ParseDownload.DownloadFilename | parse_and_download.py:51-83 | There is no file iff the URL has no id or the format has no export URL. |
| ParseDownload.DownloadFilenameShape | parse_and_download.py:81-83 | The file name is `{stem}_{id[:8]}.{fmt}`. The stem is "doc" without a title, and otherwise the title's safe title, at most 30 characters of word characters and single dashes. |
| Dedupe.Kept | parse_and_download.py:38-44 | The kept indices are increasing and in range. |
| Dedupe.KeptIff | parse_and_download.py:40-44 | An index is kept iff it holds the first occurrence of a present id. |
| Dedupe.SeenIff | parse_and_download.py:38-43 | `seen` holds exactly the ids met so far. |
| Dedupe.FirstIffUnseen | parse_and_download.py:42 | The loop's test `doc_id and doc_id not in seen` is the first-occurrence test. |
| Dedupe.Select | parse_and_download.py:44 | Selecting by indices gives one item per index, in index order. |
| Dedupe.KeptDistinct | parse_and_download.py:42-44 | The kept items have present, pairwise distinct ids. |
| Dedupe.KeptAreFirst | parse_and_download.py:42-44 | Each kept index is a first occurrence. |
| Dedupe.KeptCovers | parse_and_download.py:40-44 | Every present id is the id of some kept item. |
| Dedupe.KeptIsEarliest | parse_and_download.py:40-44 | Of the items sharing an id, the kept one comes first. |
| Dedupe.UniqueByFirstInOrder | extract_and_download_docs.py:72-80 | The de-duplicated list is the first item of each present id, picked out of the input in increasing order. |
| Dedupe.KeepFirst | extract_and_download_docs.py:72-80 | The `seen`-set loop returns exactly `UniqueBy`. |
| Dedupe.UniqueBy | parse_and_download.py:38-46 | The items whose key is present and met for the first time, in input order. The Kept lemmas above state its meaning. |
| ExtractDownload.CollectLinks | extract_and_download_docs.py:59-70 | The first loop builds exactly `DocLinks` of the anchors. |
| ExtractDownload.DocLinks | extract_and_download_docs.py:60-70 | There is at most one link per anchor. |
| ExtractDownload.DocLinksMeaning | extract_and_download_docs.py:60-70 | An anchor gives a link iff its href contains `docs.google.com/document`. The links carry the made-absolute href, the text and the extracted id, in page order. |
| ExtractDownload.AbsoluteUrlKeepsPath | extract_and_download_docs.py:64-65 | A kept href still contains the Docs path once absolute. A `/`-relative one gets `https://docs.google.com` in front; any other is unchanged. |
| ExtractDownload.LinkIds | extract_and_download_docs.py:76 | There is one id per link. |
| ExtractDownload.ExtractGoogleDocsLinks | extract_and_download_docs.py:54-80 | `extract_google_docs_links` returns the de-duplicated links `UniqueLinks`. |
| ExtractDownload.UniqueLinks | extract_and_download_docs.py:54-80 | The document links de-duplicated by their id. `UniqueLinksDistinct`, `UniqueLinksFirstInOrder` and `EveryIdReturned` state its meaning. |
| ExtractDownload.UniqueLinksDistinct | extract_and_download_docs.py:72-80 | Links without a doc id are dropped, and no two returned links share an id. |
| ExtractDownload.UniqueLinksFirstInOrder | extract_and_download_docs.py:73-78 | The result is a subsequence of the candidate links in their order, each the first with its id. |
| ExtractDownload.EveryIdReturned | extract_and_download_docs.py:72-80 | Every doc id found on the page is the id of some returned link. |
| ExtractDownload.DownloadFilename | extract_and_download_docs.py:92-119 | There is no file iff the format is none of pdf, docx, txt, md. |
| ExtractDownload.DownloadFilenameShape | extract_and_download_docs.py:103-119 | The file name is `{safe_title}_{id[:8]}.{fmt}` with a safe title of at most 50 word characters and single dashes. |
| ExtractDownload.EntriesAppend | extract_and_download_docs.py:148-150 | One more link adds its entry, numbered after the earlier ones, at the end. |
| ExtractDownload.CreateIndex | extract_and_download_docs.py:145-150 | The writes of `create_index` produce exactly `IndexMarkdown`: the title, a blank line, then each link's entry numbered from 1. |
| ExtractDownload.EntriesLines | extract_and_download_docs.py:148-150 | The entries split into three lines per link: `{i}. [{text}]({url})`, `   - Doc ID: {id}`, and a blank line. |
| ExtractDownload.IndexLines | extract_and_download_docs.py:147-150 | When no text, URL or id spans a line break, the index's lines are the title, a blank line, and the entry lines in list order. |
| ExtractDownload.IndexMarkdown | extract_and_download_docs.py:145-150 | The text of `index.md`: the title, a blank line, then each link's entry numbered from 1. `IndexLines` and `EntriesLines` state its lines. |

## Left out

- Zip extraction, temporary directories, `shutil.copy2` and all file reads and writes are left out. A package is an already-loaded tree with an optional media list, relationships list and body.
- XML parsing and the XPath `.//` descendant search are left out. Paragraphs are flat run sequences, and nested tables are not modelled.
- The md5 digest is a function parameter `digest`, standing for the foreign hash call.
- `int()` of `w:ilvl` and `w:numId` is left out: levels and ids are integers already.
- `lower()` is ASCII-only and `\w` is ASCII letters, digits and `_`. Whitespace is Python's `str.isspace` set.
- Converter.DocxToMarkdownConverter.CountItem: the deletion of deeper levels, which the source does key by key over `list(...keys())`, is a map comprehension. Its result is the same map.
- CodeOcr.ThresholdInIntegers: the float comparison `len(easy) > len(tess) * 0.8` is compared on exact reals; Python's float rounding of `0.8` and of the product is not modelled.
- OCR engines, Pillow preprocessing and python-docx output (`add_extracted_text_to_doc`) are left out. OCR results are parameters, an engine that raised is `None`, and preprocessing is a boolean.
- The `OCR error:` and `Error` exception paths are left out, except the image that fails to open in `ocr_image`.
- `has_colons` (extract_code_from_docx.py:77) and the `replacements` table (extract_code_from_docx.py:94-99) are unused in the source and have no model. Their having no effect is proved.
- CodeOcr.CleanCodeText: `clean_code_text(None)` is not modelled, since a string cannot be None. It is proved with the corrected colon replacement; the as-written behaviour is in Findings.
- CodeOcr.OcrImage, CodeOcr.OcrImageKeepsChosenText: `ocr_image` calls `clean_code_text` as written, which doubles a colon that ends a line. `OcrImage` takes the colon replacement as a parameter. The text-keeping lemma is proved for the corrected replacement only, and `OcrImageAsWrittenAddsColon` shows what `ocr_image` as written returns.
- CodeOcr.RewriteKeepsNonSpace: the lookaround rewrites act on whole maximal whitespace runs. This agrees with `re.sub` for these patterns but is not derived from a regex engine.
- ParseDownload.FoundIdReturned: it speaks of the ids `re.findall` reports. In an overlapping occurrence such as `docs.google.com/document/d/docs.google.com/document/d/X`, findall resumes after the first match's end and never sees `X`. The model follows findall.
- HTTP downloads, `requests`, `time.sleep`, retries, `input()` prompts, `print` and the `main` functions are left out. BeautifulSoup parsing is left out too: a page is the list of its anchors, each an href and `get_text(strip=True)`.
- The JSON index (extract_and_download_docs.py:140-142) is left out; only the Markdown index is modelled.
- ExtractDownload.DownloadFilename: it requires a doc id, because `doc_id[:8]` on None raises in the source. De-duplication only ever hands it links with one. The `'Untitled'` default of `doc_info.get` never applies, since every link has a `text` entry.
- batch_download_from_list.py is not part of this model. Its two-pattern id scan is `DocIds.ExtractDocIdWith` with the first two markers.
- download_google_docs.py, improved_ocr_test.py and debug_formatting.py are not part of this model: they are download loops, OCR experiments and debug printing.

## Findings

| source | as written | input that shows it | evidently intended | confidence | as-written member | corrected member |
|---|---|---|---|---|---|---|
| extract_code_from_docx.py:91 | `re.sub(r'(?<=:)\s*\n\s*', ':\n    ', text)`: the lookbehind does not consume the colon, so the replacement's own colon doubles it | `"x:\ny"` becomes `"x::\n    y"` | the replacement `'\n    '`, which indents the line after the colon and keeps one colon | high, not executed | CodeOcr.CleanedCodeAsWrittenAddsColon | CodeOcr.CleanedCodeKeepsNonSpace |
