/**
  The pure core of the link parser: finding Google Docs URLs in pasted text
  (`find_google_docs_urls`) and naming the downloaded files.

  `re.findall` is modelled by a scan that tries the pattern at each position
  and, after a match, resumes at the match's end, so matches never overlap.
 */
module ParseDownload {
  import opened Wrappers
  import opened Strings
  import opened DocIds
  import Dedupe

  const Host: string := "https://docs.google.com"
  const DocPath: string := "/document/d/"

  /** What follows `https?` in the first pattern. */
  const UrlTail: string := "://docs.google.com/document/"
  /** The literal part of the second pattern. */
  const IdPath: string := "docs.google.com/document/d/"

  /** The class `[^\s\)\"\'<>]` a URL of the first pattern continues with. */
  predicate IsUrlChar(c: char) {
    !IsSpace(c) && c != ')' && c != '"' && c != '\'' && c != '<' && c != '>'
  }

  /** The length of the greedy run of URL characters starting at `i`. */
  function UrlRunLength(s: string, i: nat): (n: nat)
    requires i <= |s|
    ensures i + n <= |s|
    ensures forall k :: i <= k < i + n ==> IsUrlChar(s[k])
    ensures i + n < |s| ==> !IsUrlChar(s[i + n])
    decreases |s| - i
  {
    if i < |s| && IsUrlChar(s[i]) then 1 + UrlRunLength(s, i + 1) else 0
  }

  /** The two patterns of `find_google_docs_urls`. */
  datatype Pattern =
    | DocUrl      // https?://docs\.google\.com/document/[^\s\)\"\'<>]+
    | DocIdAfter  // docs\.google\.com/document/d/([a-zA-Z0-9-_]+)

  /** A match of a pattern: where it starts, where the part `findall` returns starts, and where it ends. */
  datatype Span = Span(start: nat, group: nat, end: nat)

  /** Where the scheme `https?` of a match at `i` ends. */
  function SchemeEnd(s: string, i: nat): nat {
    if i + 4 < |s| && s[i + 4] == 's' then i + 5 else i + 4
  }

  /** The match of `p` that starts at `i`, if any; the quantifiers are greedy. */
  function MatchAt(p: Pattern, s: string, i: nat): (r: Option<Span>)
    ensures r.Some? ==> r.value.start == i <= r.value.group < r.value.end <= |s|
  {
    match p
    case DocUrl =>
      var q := SchemeEnd(s, i) + |UrlTail|;
      if OccursAt(s, "http", i) && OccursAt(s, UrlTail, SchemeEnd(s, i)) && q < |s| && IsUrlChar(s[q])
      then Some(Span(i, i, q + UrlRunLength(s, q)))
      else None
    case DocIdAfter =>
      if MatchesAt(s, IdPath, i)
      then Some(Span(i, i + |IdPath|, i + |IdPath| + RunLength(s, i + |IdPath|)))
      else None
  }

  /** A table of matches, one entry per position: each starts where it sits and ends inside the text. */
  predicate WellFormed(t: seq<Option<Span>>) {
    forall i :: 0 <= i < |t| && t[i].Some? ==> t[i].value.start == i <= t[i].value.group < t[i].value.end <= |t|
  }

  /** The match of `p` at each position of `s`. */
  function Matches(p: Pattern, s: string): (t: seq<Option<Span>>)
    ensures |t| == |s| && WellFormed(t)
    ensures forall i :: 0 <= i < |s| ==> t[i] == MatchAt(p, s, i)
  {
    seq(|s|, i requires 0 <= i < |s| => MatchAt(p, s, i))
  }

  /** The non-overlapping matches from position `i` on, left to right: after a match the scan resumes at its end. */
  function Scan(t: seq<Option<Span>>, i: nat): (r: seq<Span>)
    requires WellFormed(t) && i <= |t|
    ensures forall k :: 0 <= k < |r| ==> i <= r[k].start <= r[k].group < r[k].end <= |t|
    decreases |t| - i
  {
    if i == |t| then []
    else if t[i].Some? then [t[i].value] + Scan(t, t[i].value.end)
    else Scan(t, i + 1)
  }

  /** `re.findall(p, s)`: the whole match, or group 1 when the pattern has one. */
  function FindAll(p: Pattern, s: string): (r: seq<string>)
    ensures |r| == |Scan(Matches(p, s), 0)|
  {
    var spans := Scan(Matches(p, s), 0);
    seq(|spans|, k requires 0 <= k < |spans| => s[spans[k].group..spans[k].end])
  }

  /** Every span of the scan is a match, and each starts at or after the end of the one before. */
  lemma {:induction false} ScanSound(t: seq<Option<Span>>, i: nat)
    requires WellFormed(t) && i <= |t|
    ensures forall k :: 0 <= k < |Scan(t, i)| ==> t[Scan(t, i)[k].start] == Some(Scan(t, i)[k])
    ensures forall k :: 0 <= k < |Scan(t, i)| - 1 ==> Scan(t, i)[k].end <= Scan(t, i)[k + 1].start
    decreases |t| - i
  {
    if i < |t| {
      if t[i].Some? {
        ScanSound(t, t[i].value.end);
        assert Scan(t, i) == [t[i].value] + Scan(t, t[i].value.end);
      } else {
        ScanSound(t, i + 1);
      }
    }
  }

  /** No match is missed: each lies inside, or starts, a span of the scan. */
  lemma {:induction false} ScanComplete(t: seq<Option<Span>>, i: nat, j: nat) returns (k: nat)
    requires WellFormed(t) && i <= j < |t| && t[j].Some?
    ensures k < |Scan(t, i)| && Scan(t, i)[k].start <= j < Scan(t, i)[k].end
    decreases |t| - i
  {
    if t[i].Some? {
      var rest := Scan(t, t[i].value.end);
      assert Scan(t, i) == [t[i].value] + rest;
      if j < t[i].value.end {
        k := 0;
      } else {
        var k' := ScanComplete(t, t[i].value.end, j);
        k := k' + 1;
        assert Scan(t, i)[k] == rest[k'];
      }
    } else {
      k := ScanComplete(t, i + 1, j);
    }
  }

  /** The `k`-th span `findall` reports is a match of the pattern. */
  lemma FoundSpanIsMatch(p: Pattern, s: string, k: nat)
    requires k < |Scan(Matches(p, s), 0)|
    ensures MatchAt(p, s, Scan(Matches(p, s), 0)[k].start) == Some(Scan(Matches(p, s), 0)[k])
  {
    ScanSound(Matches(p, s), 0);
  }

  /**
    The `k`-th id the second pattern finds is the greedy id run right after an
    occurrence of `docs.google.com/document/d/`, at the start of the `k`-th span.
   */
  lemma FoundIdAt(s: string, k: nat) returns (a: nat)
    requires k < |FindAll(DocIdAfter, s)|
    ensures a == Scan(Matches(DocIdAfter, s), 0)[k].start && MatchesAt(s, IdPath, a)
    ensures FindAll(DocIdAfter, s)[k] == IdAt(s, IdPath, a)
    ensures IsIdRun(FindAll(DocIdAfter, s)[k])
  {
    var spans := Scan(Matches(DocIdAfter, s), 0);
    a := spans[k].start;
    FoundSpanIsMatch(DocIdAfter, s, k);
    assert FindAll(DocIdAfter, s)[k] == s[spans[k].group..spans[k].end];
    IdAtIsRun(s, IdPath, a);
  }

  /** The URL `find_google_docs_urls` builds from an id the second pattern found. */
  function EditUrl(id: string): string {
    Host + DocPath + id + "/edit"
  }

  /** The list built before de-duplication: the first pattern's URLs, then one edit URL per found id. */
  function Candidates(text: string): (r: seq<string>)
    ensures |r| == |FindAll(DocUrl, text)| + |FindAll(DocIdAfter, text)|
  {
    var ids := FindAll(DocIdAfter, text);
    FindAll(DocUrl, text) + seq(|ids|, k requires 0 <= k < |ids| => EditUrl(ids[k]))
  }

  function DocIdKeys(urls: seq<string>): (r: seq<Option<string>>)
    ensures |r| == |urls|
  {
    seq(|urls|, k requires 0 <= k < |urls| => ExtractDocId(urls[k]))
  }

  /** What `find_google_docs_urls` returns. */
  function UniqueUrls(text: string): seq<string> {
    Dedupe.UniqueBy(Candidates(text), DocIdKeys(Candidates(text)))
  }

  /** The loop appending the edit URLs to the first pattern's matches. */
  method CollectUrls(text: string) returns (urls: seq<string>)
    ensures urls == Candidates(text)
  {
    urls := FindAll(DocUrl, text);
    var matches := FindAll(DocIdAfter, text);
    for i := 0 to |matches|
      invariant urls == FindAll(DocUrl, text) + seq(i, k requires 0 <= k < i => EditUrl(matches[k]))
    {
      urls := urls + [EditUrl(matches[i])];
    }
  }

  method FindGoogleDocsUrls(text: string) returns (unique: seq<string>)
    ensures unique == UniqueUrls(text)
  {
    var urls := CollectUrls(text);
    unique := Dedupe.KeepFirst(urls, DocIdKeys(urls));
  }

  /** The edit URL of an id gives that id back. */
  lemma EditUrlId(id: string)
    requires IsIdRun(id)
    ensures ExtractDocId(EditUrl(id)) == Some(id)
  {
    var url := EditUrl(id);
    var a := |Host|;
    assert url == Host + (DocPath + id + "/edit");
    assert StartsWith(url, Host);
    assert url[a..a + |DocPath|] == DocPath;
    assert url[a + |DocPath|..a + |DocPath| + |id|] == id;
    assert url[a + |DocPath| + |id|] == '/';
    assert RunLength(url, a + |DocPath|) == |id| by {
      RunLengthOfRun(url, a + |DocPath|, |id|);
    }
    forall j | 0 <= j < a
      ensures !MatchesAt(url, DocPath, j)
    {
      HostHasNoDocPath(url, j);
    }
    SearchLeftmost(url, DocPath, 0, a);
  }

  /** `/document/d/` does not start inside `https://docs.google.com`. */
  lemma HostHasNoDocPath(url: string, j: nat)
    requires StartsWith(url, Host) && j < |Host|
    ensures !OccursAt(url, DocPath, j)
  {
    if j + |DocPath| <= |url| {
      var w := url[j..j + |DocPath|];
      assert w[0] == url[j] == Host[j];
      if j == 6 {
        assert w[1] == url[7] == Host[7];
        assert w[1] != DocPath[1];
      } else if j == 7 {
        assert w[4] == url[11] == Host[11];
        assert w[4] != DocPath[4];
      } else {
        assert Host[j] != '/';
        assert w[0] != DocPath[0];
      }
    }
  }

  /** A run of id characters ended by another character has exactly its length as the greedy run length. */
  lemma {:induction false} RunLengthOfRun(s: string, i: nat, n: nat)
    requires i + n < |s|
    requires forall k :: i <= k < i + n ==> IsIdChar(s[k])
    requires !IsIdChar(s[i + n])
    ensures RunLength(s, i) == n
    decreases n
  {
    if n > 0 {
      RunLengthOfRun(s, i + 1, n - 1);
    }
  }

  /** The returned URLs all carry an id, and no two the same. */
  lemma UniqueUrlsDistinct(text: string)
    ensures forall i :: 0 <= i < |UniqueUrls(text)| ==> ExtractDocId(UniqueUrls(text)[i]).Some?
    ensures forall i, j :: 0 <= i < j < |UniqueUrls(text)| ==>
      ExtractDocId(UniqueUrls(text)[i]) != ExtractDocId(UniqueUrls(text)[j])
  {
    Dedupe.KeptDistinct(DocIdKeys(Candidates(text)));
  }

  /**
    The returned URLs are the first URL of each id, in the order of the candidate
    list: `idx` picks them out of it in increasing order.
   */
  lemma UniqueUrlsFirstInOrder(text: string) returns (idx: seq<nat>)
    ensures |idx| == |UniqueUrls(text)|
    ensures forall k :: 0 <= k < |idx| ==> idx[k] < |Candidates(text)| && UniqueUrls(text)[k] == Candidates(text)[idx[k]]
    ensures forall k, l :: 0 <= k < l < |idx| ==> idx[k] < idx[l]
    ensures forall k, j :: 0 <= k < |idx| && 0 <= j < idx[k] ==>
      ExtractDocId(Candidates(text)[j]) != ExtractDocId(Candidates(text)[idx[k]])
  {
    var c := Candidates(text);
    var keys := DocIdKeys(c);
    idx := Dedupe.UniqueByFirstInOrder(c, keys);
    forall k, j | 0 <= k < |idx| && 0 <= j < idx[k]
      ensures ExtractDocId(c[j]) != ExtractDocId(c[idx[k]])
    {
      assert Dedupe.IsFirst(keys, idx[k]);
      assert keys[j] != keys[idx[k]];
    }
  }

  /** Every id the second pattern finds is the id of a returned URL. */
  lemma FoundIdReturned(text: string, k: nat) returns (i: nat)
    requires k < |FindAll(DocIdAfter, text)|
    ensures i < |UniqueUrls(text)| && ExtractDocId(UniqueUrls(text)[i]) == Some(FindAll(DocIdAfter, text)[k])
  {
    var ids := FindAll(DocIdAfter, text);
    var c := Candidates(text);
    var keys := DocIdKeys(c);
    var j := |FindAll(DocUrl, text)| + k;
    assert c[j] == EditUrl(ids[k]);
    var _ := FoundIdAt(text, k);
    EditUrlId(ids[k]);
    i := Dedupe.KeptCovers(keys, j);
  }

  /** The export formats `download_google_doc` knows. */
  const ExportFormats: seq<string> := ["pdf", "docx", "txt"]

  /**
    The file one format of a document is saved under, or `None` where the
    function gives up: no id in the URL, or a format it has no export URL for.
   */
  function DownloadFilename(docUrl: string, title: string, fmt: string): (r: Option<string>)
    ensures r.None? <==> ExtractDocId(docUrl).None? || fmt !in ExportFormats
  {
    match ExtractDocId(docUrl)
    case None => None
    case Some(id) =>
      if fmt !in ExportFormats then None
      else if title != "" then Some(SafeTitle(title, 30) + "_" + Prefix(id, 8) + "." + fmt)
      else Some("doc_" + Prefix(id, 8) + "." + fmt)
  }

  /**
    A file name is a stem, `_`, the first eight characters of the id, `.` and
    the format; the stem is `doc` without a title and otherwise at most 30 word
    characters and single dashes.
   */
  lemma DownloadFilenameShape(docUrl: string, title: string, fmt: string) returns (stem: string)
    requires ExtractDocId(docUrl).Some? && fmt in ExportFormats
    ensures DownloadFilename(docUrl, title, fmt) == Some(stem + "_" + Prefix(ExtractDocId(docUrl).value, 8) + "." + fmt)
    ensures title == "" ==> stem == "doc"
    ensures |stem| <= 30 && SingleDashes(stem)
    ensures forall i :: 0 <= i < |stem| ==> IsWordChar(stem[i]) || stem[i] == '-'
  {
    if title != "" {
      stem := SafeTitle(title, 30);
      SafeTitleShape(title, 30);
    } else {
      stem := "doc";
      assert "doc_" + Prefix(ExtractDocId(docUrl).value, 8) == stem + "_" + Prefix(ExtractDocId(docUrl).value, 8);
    }
  }
}
