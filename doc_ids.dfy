/**
  Google Docs document ids and download file names, shared by the two download
  scripts: `extract_doc_id` (a `re.search` per URL pattern, first pattern that
  matches wins) and the `safe_title` clean-up
  (`re.sub(r'[^\w\s-]', '', title)[:n]`, then `re.sub(r'[-\s]+', '-', ...)`).
 */
module DocIds {
  import opened Wrappers
  import opened Strings

  /** The regex class `[a-zA-Z0-9-_]` a document id is made of. */
  predicate IsIdChar(c: char) {
    IsAsciiLetter(c) || IsDigit(c) || c == '-' || c == '_'
  }

  /** A string `[a-zA-Z0-9-_]+` matches in full. */
  predicate IsIdRun(s: string) {
    |s| > 0 && forall i :: 0 <= i < |s| ==> IsIdChar(s[i])
  }

  /** The length of the greedy run of id characters starting at `i`. */
  function RunLength(s: string, i: nat): (n: nat)
    requires i <= |s|
    ensures i + n <= |s|
    ensures forall k :: i <= k < i + n ==> IsIdChar(s[k])
    ensures i + n < |s| ==> !IsIdChar(s[i + n])
    decreases |s| - i
  {
    if i < |s| && IsIdChar(s[i]) then 1 + RunLength(s, i + 1) else 0
  }

  /** `marker([a-zA-Z0-9-_]+)` matches at `j`: the marker occurs there and an id character follows it. */
  predicate MatchesAt(s: string, marker: string, j: int) {
    OccursAt(s, marker, j) && j + |marker| < |s| && IsIdChar(s[j + |marker|])
  }

  /** The group of the match at `j`: the greedy id run after the marker. */
  function IdAt(s: string, marker: string, j: int): string
    requires MatchesAt(s, marker, j)
  {
    s[j + |marker|..j + |marker| + RunLength(s, j + |marker|)]
  }

  /** The group of a match is a run of id characters. */
  lemma IdAtIsRun(s: string, marker: string, j: int)
    requires MatchesAt(s, marker, j)
    ensures IsIdRun(IdAt(s, marker, j))
  {
    var g := j + |marker|;
    var id := IdAt(s, marker, j);
    forall i | 0 <= i < |id|
      ensures IsIdChar(id[i])
    {
      assert id[i] == s[g + i];
    }
  }

  /** `re.search(marker + '([a-zA-Z0-9-_]+)', s[i:])`, giving `match.group(1)`. */
  function SearchFrom(s: string, marker: string, i: nat): (r: Option<string>)
    requires i <= |s|
    ensures r.Some? ==> IsIdRun(r.value)
    decreases |s| - i
  {
    if i == |s| then None
    else if MatchesAt(s, marker, i) then Some(IdAt(s, marker, i))
    else SearchFrom(s, marker, i + 1)
  }

  function Search(s: string, marker: string): Option<string> {
    SearchFrom(s, marker, 0)
  }

  /** A found id belongs to the leftmost match. */
  lemma {:induction false} SearchFound(s: string, marker: string, i: nat) returns (j: nat)
    requires i <= |s| && SearchFrom(s, marker, i).Some?
    ensures i <= j && MatchesAt(s, marker, j)
    ensures SearchFrom(s, marker, i) == Some(IdAt(s, marker, j))
    ensures forall k :: i <= k < j ==> !MatchesAt(s, marker, k)
    decreases |s| - i
  {
    if MatchesAt(s, marker, i) {
      j := i;
    } else {
      j := SearchFound(s, marker, i + 1);
    }
  }

  /** Conversely, the leftmost match is what the search finds. */
  lemma {:induction false} SearchLeftmost(s: string, marker: string, i: nat, j: nat)
    requires i <= j && MatchesAt(s, marker, j)
    requires forall k :: i <= k < j ==> !MatchesAt(s, marker, k)
    ensures SearchFrom(s, marker, i) == Some(IdAt(s, marker, j))
    decreases j - i
  {
    if i < j {
      SearchLeftmost(s, marker, i + 1, j);
    }
  }

  /** The search fails exactly when the pattern matches nowhere. */
  lemma {:induction false} SearchNoneIff(s: string, marker: string, i: nat)
    requires i <= |s|
    ensures SearchFrom(s, marker, i) == None <==> forall j :: i <= j < |s| ==> !MatchesAt(s, marker, j)
    decreases |s| - i
  {
    if i < |s| {
      SearchNoneIff(s, marker, i + 1);
    }
  }

  /** The patterns of `extract_doc_id`, in the order they are tried. */
  const DocIdMarkers: seq<string> := ["/document/d/", "/d/", "id="]

  /** The loop over `patterns` with its early return. */
  function ExtractDocIdWith(markers: seq<string>, url: string): (r: Option<string>)
    ensures r.Some? ==> IsIdRun(r.value)
    decreases |markers|
  {
    if |markers| == 0 then None
    else if Search(url, markers[0]).Some? then Search(url, markers[0])
    else ExtractDocIdWith(markers[1..], url)
  }

  function ExtractDocId(url: string): Option<string> {
    ExtractDocIdWith(DocIdMarkers, url)
  }

  /** No id is extracted exactly when no pattern matches anywhere in the URL. */
  lemma {:induction false} ExtractNoneIff(markers: seq<string>, url: string)
    ensures ExtractDocIdWith(markers, url) == None <==>
      forall k, j :: 0 <= k < |markers| && 0 <= j < |url| ==> !MatchesAt(url, markers[k], j)
    decreases |markers|
  {
    if |markers| > 0 {
      ExtractNoneIff(markers[1..], url);
      SearchNoneIff(url, markers[0], 0);
      if ExtractDocIdWith(markers, url) == None {
        forall k, j | 0 <= k < |markers| && 0 <= j < |url|
          ensures !MatchesAt(url, markers[k], j)
        {
          if k > 0 {
            assert markers[k] == markers[1..][k - 1];
          }
        }
      } else if Search(url, markers[0]).None? {
        var k, j :| 0 <= k < |markers[1..]| && 0 <= j < |url| && MatchesAt(url, markers[1..][k], j);
        assert MatchesAt(url, markers[k + 1], j);
      }
    }
  }

  /** An extracted id comes from the first pattern that matches, at its leftmost match. */
  lemma {:induction false} ExtractPrecedence(markers: seq<string>, url: string) returns (k: nat, j: nat)
    requires ExtractDocIdWith(markers, url).Some?
    ensures k < |markers| && MatchesAt(url, markers[k], j)
    ensures ExtractDocIdWith(markers, url) == Search(url, markers[k]) == Some(IdAt(url, markers[k], j))
    ensures forall j' :: 0 <= j' < j ==> !MatchesAt(url, markers[k], j')
    ensures forall k', j' :: 0 <= k' < k && 0 <= j' < |url| ==> !MatchesAt(url, markers[k'], j')
    decreases |markers|
  {
    if Search(url, markers[0]).Some? {
      k := 0;
      j := SearchFound(url, markers[0], 0);
    } else {
      var k1, j1 := ExtractPrecedence(markers[1..], url);
      k, j := k1 + 1, j1;
      SearchNoneIff(url, markers[0], 0);
      forall k', j' | 0 <= k' < k && 0 <= j' < |url|
        ensures !MatchesAt(url, markers[k'], j')
      {
        if k' > 0 {
          assert markers[k'] == markers[1..][k' - 1];
        }
      }
    }
  }

  /** The characters `[^\w\s-]` does not remove. */
  predicate IsTitleChar(c: char) {
    IsWordChar(c) || IsSpace(c) || c == '-'
  }

  /** `re.sub(r'[^\w\s-]', '', s)`. */
  function Sanitize(s: string): (r: string)
    decreases |s|
  {
    if s == [] then ""
    else if IsTitleChar(s[0]) then [s[0]] + Sanitize(s[1..])
    else Sanitize(s[1..])
  }

  /** Sanitising distributes over concatenation. */
  lemma {:induction false} SanitizeConcat(a: string, b: string)
    ensures Sanitize(a + b) == Sanitize(a) + Sanitize(b)
    decreases |a|
  {
    if a == [] {
      assert a + b == b;
    } else {
      SanitizeConcat(a[1..], b);
      assert (a + b)[0] == a[0] && (a + b)[1..] == a[1..] + b;
    }
  }

  /** The sanitised title keeps the title characters and drops the rest. */
  lemma {:induction false} SanitizeMeaning(a: string)
    ensures (forall i :: 0 <= i < |a| ==> IsTitleChar(a[i])) ==> Sanitize(a) == a
    ensures forall i :: 0 <= i < |Sanitize(a)| ==> IsTitleChar(Sanitize(a)[i])
    ensures |Sanitize(a)| <= |a|
    decreases |a|
  {
    if a != [] {
      SanitizeMeaning(a[1..]);
    }
  }

  /** Python's slice `s[:n]`. */
  function Prefix(s: string, n: nat): (r: string)
    ensures |r| == if |s| <= n then |s| else n
    ensures StartsWith(s, r)
  {
    if |s| <= n then s else s[..n]
  }

  predicate IsDashOrSpace(c: char) {
    c == '-' || IsSpace(c)
  }

  /** `re.sub(r'[-\s]+', '-', s)`; `inRun` says the previous character belonged to a run already replaced. */
  function CollapseDashes(s: string, inRun: bool): (r: string)
    decreases |s|
  {
    if s == [] then ""
    else if IsDashOrSpace(s[0]) then (if inRun then "" else "-") + CollapseDashes(s[1..], true)
    else [s[0]] + CollapseDashes(s[1..], false)
  }

  /** The characters outside `[-\s]`, in order. */
  function NonDash(s: string): (r: string)
    decreases |s|
  {
    if s == [] then ""
    else if IsDashOrSpace(s[0]) then NonDash(s[1..])
    else [s[0]] + NonDash(s[1..])
  }

  /** No two dashes in a row. */
  predicate SingleDashes(r: string) {
    forall i :: 0 <= i < |r| - 1 ==> !(r[i] == '-' && r[i + 1] == '-')
  }

  /** The collapse keeps every character outside `[-\s]`, in order. */
  lemma {:induction false} CollapseKeepsNonDash(s: string, inRun: bool)
    ensures NonDash(CollapseDashes(s, inRun)) == NonDash(s)
    decreases |s|
  {
    if s != [] {
      CollapseKeepsNonDash(s[1..], IsDashOrSpace(s[0]));
      var t := CollapseDashes(s[1..], IsDashOrSpace(s[0]));
      if IsDashOrSpace(s[0]) {
        assert ("-" + t)[1..] == t && "" + t == t;
        assert NonDash("-" + t) == NonDash(t);
      } else {
        assert ([s[0]] + t)[1..] == t;
      }
    }
  }

  /** After the collapse no whitespace and no doubled dash is left. */
  lemma {:induction false} CollapseSingleDashes(s: string, inRun: bool)
    ensures forall i :: 0 <= i < |CollapseDashes(s, inRun)| ==> !IsSpace(CollapseDashes(s, inRun)[i])
    ensures SingleDashes(CollapseDashes(s, inRun))
    ensures inRun && |CollapseDashes(s, inRun)| > 0 ==> CollapseDashes(s, inRun)[0] != '-'
    decreases |s|
  {
    if s != [] {
      CollapseSingleDashes(s[1..], IsDashOrSpace(s[0]));
    }
  }

  /** The collapse never lengthens, and turns title characters into word characters and dashes. */
  lemma {:induction false} CollapseShortens(s: string, inRun: bool)
    ensures |CollapseDashes(s, inRun)| <= |s|
    ensures (forall i :: 0 <= i < |s| ==> IsTitleChar(s[i])) ==>
      forall i :: 0 <= i < |CollapseDashes(s, inRun)| ==>
        IsWordChar(CollapseDashes(s, inRun)[i]) || CollapseDashes(s, inRun)[i] == '-'
    decreases |s|
  {
    if s != [] {
      CollapseShortens(s[1..], IsDashOrSpace(s[0]));
    }
  }

  /** `safe_title` of a title: sanitised, cut to `n` characters, dash runs collapsed. */
  function SafeTitle(title: string, n: nat): string {
    CollapseDashes(Prefix(Sanitize(title), n), false)
  }

  /** A safe title is at most `n` characters of word characters and single dashes. */
  lemma SafeTitleShape(title: string, n: nat)
    ensures |SafeTitle(title, n)| <= n
    ensures forall i :: 0 <= i < |SafeTitle(title, n)| ==>
      IsWordChar(SafeTitle(title, n)[i]) || SafeTitle(title, n)[i] == '-'
    ensures SingleDashes(SafeTitle(title, n))
    ensures NonDash(SafeTitle(title, n)) == NonDash(Prefix(Sanitize(title), n))
  {
    var p := Prefix(Sanitize(title), n);
    SanitizeMeaning(title);
    assert forall i :: 0 <= i < |p| ==> IsTitleChar(p[i]) by {
      assert p == Sanitize(title)[..|p|];
    }
    CollapseKeepsNonDash(p, false);
    CollapseSingleDashes(p, false);
    CollapseShortens(p, false);
  }

  /** A title made only of word characters and single dashes is its own safe title once short enough. */
  lemma {:induction false} CollapseKeepsClean(s: string, inRun: bool)
    requires forall i :: 0 <= i < |s| ==> IsWordChar(s[i]) || s[i] == '-'
    requires SingleDashes(s)
    requires inRun ==> |s| == 0 || s[0] != '-'
    ensures CollapseDashes(s, inRun) == s
    decreases |s|
  {
    if s != [] {
      CollapseKeepsClean(s[1..], s[0] == '-');
    }
  }

  lemma SafeTitleIdempotent(title: string, n: nat)
    ensures SafeTitle(SafeTitle(title, n), n) == SafeTitle(title, n)
  {
    var t := SafeTitle(title, n);
    SafeTitleShape(title, n);
    SanitizeMeaning(t);
    CollapseKeepsClean(t, false);
  }
}
