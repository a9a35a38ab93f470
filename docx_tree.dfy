/**
  The parts of a word-processing package that the converter reads, as an
  already-parsed tree. Only the elements and attributes the converter looks at
  are kept; an attribute read with `get(name, '')` is a plain string whose
  absence reads as "".
 */
module DocxTree {
  import opened Wrappers

  /** A `w:b` or `w:i` run property: absent, or present with an optional `w:val`. */
  datatype Toggle = Absent | Present(val: Option<string>)

  /**
    A run `w:r`: its bold and italic properties (both Absent when the run has
    no `w:rPr`) and the text of each of its `w:t` elements, "" for one without text.
   */
  datatype Run = Run(bold: Toggle, italic: Toggle, texts: seq<string>)

  /**
    A `w:numPr`: its `w:ilvl` and `w:numId` children. The outer Option says
    whether the child exists, the inner one whether it has a `w:val`.
   */
  datatype NumPr = NumPr(ilvl: Option<Option<int>>, numId: Option<Option<int>>)

  /** The first `w:drawing` of a paragraph, with the `r:embed` of its `a:blip` (None when either is missing). */
  datatype Drawing = Drawing(embed: Option<string>)

  /**
    A `w:p`: the `w:val` of its `w:pStyle` (None when there is no pPr, no
    pStyle or no val), its `w:numPr`, its runs in document order and its first drawing.
   */
  datatype Paragraph = Paragraph(styleRef: Option<string>, numPr: Option<NumPr>, runs: seq<Run>, drawing: Option<Drawing>)

  /** `w:tbl`, `w:tr` and `w:tc`. */
  datatype Tc = Tc(paras: seq<Paragraph>)
  datatype Tr = Tr(cells: seq<Tc>)
  datatype Tbl = Tbl(rows: seq<Tr>)

  /** A direct child of `w:body`: a paragraph, a table, or anything else (such as `w:sectPr`). */
  datatype BodyNode = ParagraphNode(p: Paragraph) | TableNode(t: Tbl) | OtherNode

  /** A `w:style` of styles.xml: its `w:styleId`, the `w:val` of its `w:name` child (None without one) and its `w:type`. */
  datatype StyleNode = StyleNode(styleId: string, name: Option<string>, styleType: string)

  /** A `Relationship` of document.xml.rels: `Id`, `Type` and `Target` (None when the attribute is missing). */
  datatype Relationship = Relationship(id: string, relType: string, target: Option<string>)

  /** A file of `word/media`: its file name and its bytes. */
  datatype MediaFile = MediaFile(name: string, bytes: seq<bv8>)

  /**
    An opened package: the document's file stem, and each part when it exists
    (`numbering` only records whether numbering.xml exists; `body` is None when
    document.xml or its `w:body` is missing).
   */
  datatype Package = Package(
    docStem: string,
    styles: Option<seq<StyleNode>>,
    hasNumbering: bool,
    media: Option<seq<MediaFile>>,
    rels: Option<seq<Relationship>>,
    body: Option<seq<BodyNode>>)
}
