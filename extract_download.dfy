/**
  The pure core of the link extractor: collecting the Google Docs links of a
  parsed HTML page (`extract_google_docs_links`), naming the downloaded files
  and writing the markdown index (`create_index`).

  The page arrives already parsed, as its `<a href>` elements in document order.
 */
module ExtractDownload {
  import opened Wrappers
  import opened Strings
  import opened DocIds
  import Dedupe

  /** An `<a>` element with an `href`: the attribute and the element's text, already stripped. */
  datatype Anchor = Anchor(href: string, text: string)

  /** One entry of the link list: `{'url': ..., 'text': ..., 'doc_id': ...}`. */
  datatype Link = Link(url: string, text: string, docId: Option<string>)

  const DocsHost: string := "https://docs.google.com"
  /** An href is a Google Docs link when it contains this. */
  const DocsPath: string := "docs.google.com/document"

  predicate IsDocHref(href: string) {
    Contains(href, DocsPath)
  }

  /** The URL kept for an href: a site-relative href gets the Docs host in front. */
  function AbsoluteUrl(href: string): string {
    if StartsWith(href, "/") then DocsHost + href else href
  }

  function LinkOf(a: Anchor): Link {
    Link(AbsoluteUrl(a.href), a.text, ExtractDocId(AbsoluteUrl(a.href)))
  }

  /** The link list before de-duplication: one link per Google Docs anchor, in page order. */
  function DocLinks(anchors: seq<Anchor>): (r: seq<Link>)
    ensures |r| <= |anchors|
  {
    if |anchors| == 0 then []
    else
      var last := anchors[|anchors| - 1];
      DocLinks(anchors[..|anchors| - 1]) + (if IsDocHref(last.href) then [LinkOf(last)] else [])
  }

  function LinkIds(links: seq<Link>): (r: seq<Option<string>>)
    ensures |r| == |links|
  {
    seq(|links|, k requires 0 <= k < |links| => links[k].docId)
  }

  /** What `extract_google_docs_links` returns. */
  function UniqueLinks(anchors: seq<Anchor>): seq<Link> {
    Dedupe.UniqueBy(DocLinks(anchors), LinkIds(DocLinks(anchors)))
  }

  /** The first loop: filter the anchors and build their links. */
  method CollectLinks(anchors: seq<Anchor>) returns (links: seq<Link>)
    ensures links == DocLinks(anchors)
  {
    links := [];
    for i := 0 to |anchors|
      invariant links == DocLinks(anchors[..i])
    {
      assert anchors[..i + 1][..i] == anchors[..i];
      var href := anchors[i].href;
      if IsDocHref(href) {
        if StartsWith(href, "/") {
          href := DocsHost + href;
        }
        links := links + [Link(href, anchors[i].text, ExtractDocId(href))];
      }
    }
    assert anchors[..|anchors|] == anchors;
  }

  method ExtractGoogleDocsLinks(anchors: seq<Anchor>) returns (unique: seq<Link>)
    ensures unique == UniqueLinks(anchors)
  {
    var links := CollectLinks(anchors);
    unique := Dedupe.KeepFirst(links, LinkIds(links));
  }

  /**
    The link list holds exactly the anchors whose href contains
    `docs.google.com/document`, in page order: `idx` lists those anchors.
   */
  lemma {:induction false} DocLinksMeaning(anchors: seq<Anchor>) returns (idx: seq<nat>)
    ensures |idx| == |DocLinks(anchors)|
    ensures forall k :: 0 <= k < |idx| ==> idx[k] < |anchors| && DocLinks(anchors)[k] == LinkOf(anchors[idx[k]])
    ensures forall k, l :: 0 <= k < l < |idx| ==> idx[k] < idx[l]
    ensures forall j :: 0 <= j < |anchors| ==> (j in idx <==> IsDocHref(anchors[j].href))
  {
    if |anchors| > 0 {
      var n := |anchors| - 1;
      var front := anchors[..n];
      var idx' := DocLinksMeaning(front);
      idx := idx' + (if IsDocHref(anchors[n].href) then [n] else []);
      forall j | 0 <= j < |anchors|
        ensures j in idx <==> IsDocHref(anchors[j].href)
      {
        if j < n {
          assert front[j] == anchors[j];
        }
      }
    } else {
      idx := [];
    }
  }

  /** A kept href still contains the Docs path once made absolute, and a relative one now starts with the host. */
  lemma AbsoluteUrlKeepsPath(href: string)
    requires IsDocHref(href)
    ensures IsDocHref(AbsoluteUrl(href))
    ensures StartsWith(href, "/") ==> StartsWith(AbsoluteUrl(href), DocsHost + "/")
    ensures !StartsWith(href, "/") ==> AbsoluteUrl(href) == href
  {
    if StartsWith(href, "/") {
      var i := ContainsWitness(href, DocsPath);
      var url := DocsHost + href;
      assert url[|DocsHost| + i..|DocsHost| + i + |DocsPath|] == href[i..i + |DocsPath|];
      ContainsOccurrence(url, DocsPath, |DocsHost| + i);
      assert url[..|DocsHost| + 1] == DocsHost + href[..1];
    }
  }

  /** The returned links all carry a doc id, and no two the same. */
  lemma UniqueLinksDistinct(anchors: seq<Anchor>)
    ensures forall i :: 0 <= i < |UniqueLinks(anchors)| ==> UniqueLinks(anchors)[i].docId.Some?
    ensures forall i, j :: 0 <= i < j < |UniqueLinks(anchors)| ==>
      UniqueLinks(anchors)[i].docId != UniqueLinks(anchors)[j].docId
  {
    var links := DocLinks(anchors);
    Dedupe.KeptDistinct(LinkIds(links));
  }

  /**
    The returned links are the first link of each doc id, in list order: `idx`
    picks them out of the link list in increasing order.
   */
  lemma UniqueLinksFirstInOrder(anchors: seq<Anchor>) returns (idx: seq<nat>)
    ensures |idx| == |UniqueLinks(anchors)|
    ensures forall k :: 0 <= k < |idx| ==> idx[k] < |DocLinks(anchors)| && UniqueLinks(anchors)[k] == DocLinks(anchors)[idx[k]]
    ensures forall k, l :: 0 <= k < l < |idx| ==> idx[k] < idx[l]
    ensures forall k, j :: 0 <= k < |idx| && 0 <= j < idx[k] ==>
      DocLinks(anchors)[j].docId != DocLinks(anchors)[idx[k]].docId
  {
    var links := DocLinks(anchors);
    var keys := LinkIds(links);
    idx := Dedupe.UniqueByFirstInOrder(links, keys);
    forall k, j | 0 <= k < |idx| && 0 <= j < idx[k]
      ensures links[j].docId != links[idx[k]].docId
    {
      assert Dedupe.IsFirst(keys, idx[k]);
      assert keys[j] != keys[idx[k]];
    }
  }

  /** Every doc id found on the page is the id of a returned link. */
  lemma EveryIdReturned(anchors: seq<Anchor>, j: nat) returns (i: nat)
    requires j < |DocLinks(anchors)| && DocLinks(anchors)[j].docId.Some?
    ensures i < |UniqueLinks(anchors)| && UniqueLinks(anchors)[i].docId == DocLinks(anchors)[j].docId
  {
    var links := DocLinks(anchors);
    var keys := LinkIds(links);
    assert keys[j] == links[j].docId;
    i := Dedupe.KeptCovers(keys, j);
  }

  /** The export formats `download_google_doc` knows. */
  const ExportFormats: seq<string> := ["pdf", "docx", "txt", "md"]

  /**
    The file one format of a link is saved under, `None` for a format without
    an export URL. The link must carry an id: `doc_id[:8]` fails on `None`.
   */
  function DownloadFilename(link: Link, fmt: string): (r: Option<string>)
    requires link.docId.Some?
    ensures r.None? <==> fmt !in ExportFormats
  {
    if fmt !in ExportFormats then None
    else Some(SafeTitle(link.text, 50) + "_" + Prefix(link.docId.value, 8) + "." + fmt)
  }

  /**
    A file name is a stem of at most 50 word characters and single dashes,
    `_`, the first eight characters of the id, `.` and the format.
   */
  lemma DownloadFilenameShape(link: Link, fmt: string) returns (stem: string)
    requires link.docId.Some? && fmt in ExportFormats
    ensures DownloadFilename(link, fmt) == Some(stem + "_" + Prefix(link.docId.value, 8) + "." + fmt)
    ensures |stem| <= 50 && SingleDashes(stem)
    ensures forall i :: 0 <= i < |stem| ==> IsWordChar(stem[i]) || stem[i] == '-'
  {
    stem := SafeTitle(link.text, 50);
    SafeTitleShape(link.text, 50);
  }

  /** The first line of the markdown index. */
  const IndexTitle: string := "# Downloaded Google Docs Index"
  /** The first write of `create_index`: the title and a blank line. */
  const IndexHeader: string := IndexTitle + "\n" + "\n"

  /** How an f-string shows the doc id. */
  function IdText(id: Option<string>): string {
    if id.Some? then id.value else "None"
  }

  function EntryLine(i: nat, link: Link): string {
    NatToString(i) + ". [" + link.text + "](" + link.url + ")"
  }

  function IdLine(link: Link): string {
    "   - Doc ID: " + IdText(link.docId)
  }

  /** The first write of a loop iteration: the entry line. */
  function EntryWrite(i: nat, link: Link): string {
    EntryLine(i, link) + "\n"
  }

  /** The second write of a loop iteration: the id line and a blank line. */
  function IdWrite(link: Link): string {
    (IdLine(link) + "\n") + "\n"
  }

  function IndexEntry(i: nat, link: Link): string {
    EntryWrite(i, link) + IdWrite(link)
  }

  /** The entries of `links`, numbered from `first`. */
  function Entries(links: seq<Link>, first: nat): string
    decreases |links|
  {
    if links == [] then "" else IndexEntry(first, links[0]) + Entries(links[1..], first + 1)
  }

  /** The text `create_index` writes to `index.md`. */
  function IndexMarkdown(links: seq<Link>): string {
    IndexHeader + Entries(links, 1)
  }

  lemma {:induction false} EntriesAppend(links: seq<Link>, first: nat, link: Link)
    ensures Entries(links + [link], first) == Entries(links, first) + IndexEntry(first + |links|, link)
    decreases |links|
  {
    if links == [] {
      assert [link][1..] == [];
    } else {
      assert (links + [link])[1..] == links[1..] + [link];
      EntriesAppend(links[1..], first + 1, link);
    }
  }

  /** The loop of `create_index`, proved against `IndexMarkdown`. */
  method CreateIndex(links: seq<Link>) returns (md: string)
    ensures md == IndexMarkdown(links)
  {
    md := IndexHeader;
    for i := 0 to |links|
      invariant md == IndexHeader + Entries(links[..i], 1)
    {
      var before := md;
      md := md + EntryWrite(i + 1, links[i]);
      md := md + IdWrite(links[i]);
      assert md == before + IndexEntry(i + 1, links[i]) by {
        Associate(before, EntryWrite(i + 1, links[i]), IdWrite(links[i]));
      }
      assert md == IndexHeader + Entries(links[..i + 1], 1) by {
        EntriesAppend(links[..i], 1, links[i]);
        assert links[..i + 1] == links[..i] + [links[i]];
        Associate(IndexHeader, Entries(links[..i], 1), IndexEntry(i + 1, links[i]));
      }
    }
    assert links[..|links|] == links;
  }

  /** The lines of the index from the entry numbered `first` on. */
  function EntryLines(links: seq<Link>, first: nat): seq<string>
    decreases |links|
  {
    if links == [] then [""] else [EntryLine(first, links[0]), IdLine(links[0]), ""] + EntryLines(links[1..], first + 1)
  }

  /** No text, URL or id of the links spans a line break. */
  predicate OneLine(links: seq<Link>) {
    forall k :: 0 <= k < |links| ==>
      '\n' !in links[k].text && '\n' !in links[k].url && '\n' !in IdText(links[k].docId)
  }

  /** A line ended by a line break splits off as the first line. */
  lemma SplitLine(x: string, rest: string)
    requires '\n' !in x
    ensures Split((x + "\n") + rest, '\n') == [x] + Split(rest, '\n')
  {
    var q := "\n" + rest;
    Associate(x, "\n", rest);
    SplitPrefix(x, '\n', q);
    assert q[0] == '\n' && q[1..] == rest;
    assert x + "" == x;
  }

  lemma TitleIsOneLine()
    ensures '\n' !in IndexTitle
  {
  }

  lemma NoBreakInEntry(i: nat, link: Link)
    requires '\n' !in link.text && '\n' !in link.url && '\n' !in IdText(link.docId)
    ensures '\n' !in EntryLine(i, link) && '\n' !in IdLine(link)
  {
  }

  /** The entries split into their lines, three per link and a final empty one. */
  lemma {:induction false} EntriesLines(links: seq<Link>, first: nat)
    requires OneLine(links)
    ensures Split(Entries(links, first), '\n') == EntryLines(links, first)
    decreases |links|
  {
    if links != [] {
      var l := links[0];
      var x, y := EntryLine(first, l), IdLine(l);
      var rest := Entries(links[1..], first + 1);
      NoBreakInEntry(first, l);
      assert Split(Entries(links, first), '\n') == [x] + Split(IdWrite(l) + rest, '\n') by {
        Associate(EntryWrite(first, l), IdWrite(l), rest);
        SplitLine(x, IdWrite(l) + rest);
      }
      assert Split(IdWrite(l) + rest, '\n') == [y] + Split("\n" + rest, '\n') by {
        Associate(y + "\n", "\n", rest);
        SplitLine(y, "\n" + rest);
      }
      assert Split("\n" + rest, '\n') == [""] + Split(rest, '\n') by {
        assert "" + "\n" == "\n";
        SplitLine("", rest);
      }
      assert OneLine(links[1..]) by {
        assert forall k :: 0 <= k < |links[1..]| ==> links[1..][k] == links[k + 1];
      }
      EntriesLines(links[1..], first + 1);
    }
  }

  /**
    Line by line, the index is its title, a blank line, and for entry `i`
    (from 1, in list order) the line `{i}. [{text}]({url})`, the line
    `   - Doc ID: {id}` and a blank line.
   */
  lemma IndexLines(links: seq<Link>)
    requires OneLine(links)
    ensures Split(IndexMarkdown(links), '\n') == [IndexTitle, ""] + EntryLines(links, 1)
  {
    var rest := Entries(links, 1);
    assert Split(IndexMarkdown(links), '\n') == [IndexTitle] + Split("\n" + rest, '\n') by {
      TitleIsOneLine();
      assert IndexMarkdown(links) == ((IndexTitle + "\n") + "\n") + rest;
      Associate(IndexTitle + "\n", "\n", rest);
      SplitLine(IndexTitle, "\n" + rest);
    }
    assert Split("\n" + rest, '\n') == [""] + Split(rest, '\n') by {
      assert "" + "\n" == "\n";
      SplitLine("", rest);
    }
    EntriesLines(links, 1);
  }
}
