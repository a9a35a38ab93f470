/**
  The Markdown rendering of an element sequence
  (convert_with_paragraph_breaks.py, `convert_to_markdown`), as a state machine
  over the elements: `CountersAfter`, `InListAfter` and `LinesAfter` are the
  loop's variables after a prefix of the elements, and `Markdown` the final
  string after the blank-line clean-up. `DocxToMarkdownConverter.ConvertToMarkdown` in module
  Converter is the loop itself, proved equal to `Markdown`.
 */
module Renderer {
  import opened Wrappers
  import opened Strings
  import opened Elements

  /** `list_counters`: for each numId, the item counter of each level. */
  type Counters = map<int, map<int, nat>>

  /** A text element with something besides whitespace. */
  predicate Meaningful(e: Element) {
    e.Text? && Strip(e.content) != ""
  }

  /** A meaningful paragraph right after a list item ends the list. */
  predicate EndsList(prev: Option<Element>, e: Element) {
    prev.Some? && prev.value.NumberedList? && Meaningful(e)
  }

  /** The phrases that make a paragraph introduce a fresh list. */
  const CuePhrases: seq<string> := ["could instead:", "might:", "approach:", "following:", "these:"]

  /** Whether a paragraph's stripped, lower-cased text contains one of the cue phrases. */
  predicate HasCue(text: string) {
    exists k :: 0 <= k < |CuePhrases| && Contains(Lower(Strip(text)), CuePhrases[k])
  }

  /** A list item right after a meaningful paragraph with a cue phrase restarts its numId. */
  predicate OpensList(prev: Option<Element>, e: Element) {
    e.NumberedList? && prev.Some? && !prev.value.NumberedList? && Meaningful(prev.value) && HasCue(prev.value.content)
  }

  /** The counter of a numId and level, 0 when none is recorded. */
  function CountOf(c: Counters, numId: int, level: int): nat {
    if numId in c && level in c[numId] then c[numId][level] else 0
  }

  /** The counters of one numId, if any are recorded. */
  function Inner(c: Counters, numId: int): Option<map<int, nat>> {
    if numId in c then Some(c[numId]) else None
  }

  /**
    Counting one item within its numId: its level's counter goes up by one
    and the deeper levels are discarded.
   */
  function BumpLevel(inner: map<int, nat>, level: int): (r: map<int, nat>)
    ensures level in r && r[level] == (if level in inner then inner[level] else 0) + 1
    ensures forall l :: l in r ==> l <= level
    ensures forall l :: l < level ==> (l in r <==> l in inner)
    ensures forall l :: l < level && l in r ==> r[l] == inner[l]
  {
    var bumped := inner[level := (if level in inner then inner[level] else 0) + 1];
    map l | l in bumped && l <= level :: bumped[l]
  }

  /** Counting one item: its numId's counters are bumped at its level, and the other numIds stay. */
  function Bump(c: Counters, numId: int, level: int): (r: Counters)
    ensures numId in r && level in r[numId] && r[numId][level] == CountOf(c, numId, level) + 1
    ensures forall l :: l in r[numId] ==> l <= level
    ensures forall l :: l < level ==> (l in r[numId] <==> numId in c && l in c[numId])
    ensures forall l :: l < level && l in r[numId] ==> r[numId][l] == c[numId][l]
    ensures forall m :: m != numId ==> (m in r <==> m in c)
    ensures forall m :: m != numId && m in r ==> r[m] == c[m]
  {
    c[numId := BumpLevel(if numId in c then c[numId] else map[], level)]
  }

  /** Three spaces per nesting level; a negative level indents by nothing. */
  function Indent(level: int): (r: string)
    ensures |r| == if level <= 0 then 0 else 3 * level
    ensures forall k :: 0 <= k < |r| ==> r[k] == ' '
  {
    RepeatChar(' ', 3 * level)
  }

  function ListLine(level: int, count: nat, content: string): string {
    Indent(level) + NatToString(count) + ". " + content
  }

  function HeadingMarker(level: HeadingLevel): string {
    if level == 1 then "##" else if level == 2 then "###" else "####"
  }

  function RowLine(cells: seq<string>): string {
    "| " + Join(cells, " | ") + " |"
  }

  function RowLines(rows: seq<seq<string>>): (r: seq<string>)
    ensures |r| == |rows|
    ensures forall k :: 0 <= k < |rows| ==> r[k] == RowLine(rows[k])
    decreases |rows|
  {
    if rows == [] then [] else [RowLine(rows[0])] + RowLines(rows[1..])
  }

  /** The lines of two row lists are the lines of each, in order. */
  lemma {:induction false} RowLinesAppend(a: seq<seq<string>>, b: seq<seq<string>>)
    ensures RowLines(a + b) == RowLines(a) + RowLines(b)
    decreases |a|
  {
    if a == [] {
      assert a + b == b;
    } else {
      assert (a + b)[0] == a[0] && (a + b)[1..] == a[1..] + b;
      RowLinesAppend(a[1..], b);
    }
  }

  function TableLines(data: seq<seq<string>>): seq<string>
    requires data != []
  {
    [RowLine(data[0]), RowLine(seq(|data[0]|, k => "---"))] + RowLines(data[1..])
  }

  /** A table renders as its header row, a `---` separator as wide as the header, then the other rows. */
  lemma TableLinesShape(data: seq<seq<string>>)
    requires data != []
    ensures var t := TableLines(data);
            && |t| == |data| + 1
            && t[0] == RowLine(data[0])
            && t[1] == RowLine(seq(|data[0]|, k => "---"))
            && forall k :: 1 <= k < |data| ==> t[k + 1] == RowLine(data[k])
  {
  }

  /** The separator of a three-column table. */
  lemma ThreeColumnSeparator()
    ensures RowLine(seq(3, k => "---")) == "| --- | --- | --- |"
  {
    var cells := seq(3, k => "---");
    assert cells == ["---", "---", "---"];
    assert cells[1..] == ["---", "---"];
    assert cells[1..][1..] == ["---"];
    assert Join(cells[1..][1..], " | ") == "---";
    assert Join(cells[1..], " | ") == "--- | ---";
    assert Join(cells, " | ") == "--- | --- | ---";
  }

  /** The code text of a code block: every "```python", then every "```", removed, then stripped. */
  function CleanCode(code: string): string {
    Strip(ReplaceAll(ReplaceAll(code, "```python", ""), "```", ""))
  }

  /** The lines one element contributes, given the lookahead, the list context and its item counter. */
  function ElementLines(e: Element, next: Option<Element>, inList: bool, count: nat): seq<string> {
    match e
    case Title(c) => ["# " + c, ""]
    case Heading(l, c) => [HeadingMarker(l) + " " + c, ""]
    case NumberedList(c, l, _) => [ListLine(l, count, c)]
    case Text(c) =>
      if Strip(c) != "" then [c] + (if next.Some? && !next.value.NumberedList? then [""] else [])
      else if !inList then [""]
      else []
    case Image(f, p) => ["![" + f + "](" + p + ")", ""]
    case Code(c, lang) => ["```" + lang, CleanCode(c), "```", ""]
    case Table(d) => if d != [] then TableLines(d) + [""] else []
  }

  /** The blank line forced in front of a paragraph that ends a list, unless one is already there. */
  function Separator(ends: bool, lines: seq<string>): seq<string> {
    if ends && lines != [] && lines[|lines| - 1] != "" then [""] else []
  }

  /** `list_counters` after the two heuristics: all dropped when a list ends, the item's numId dropped when one opens. */
  function ResetCounters(c: Counters, prev: Option<Element>, e: Element): Counters {
    var c1 := if EndsList(prev, e) then map[] else c;
    if OpensList(prev, e) then c1 - {e.numId} else c1
  }

  /** `list_counters` after one element, given the element before it. */
  function CountersStep(c: Counters, prev: Option<Element>, e: Element): Counters {
    var c2 := ResetCounters(c, prev, e);
    if e.NumberedList? then Bump(c2, e.numId, e.ilvl) else c2
  }

  /** `in_list_context` as the element's own rule sees it, after the two cross-element heuristics. */
  function ContextFor(inList: bool, prev: Option<Element>, e: Element): bool {
    (inList && !EndsList(prev, e)) || OpensList(prev, e)
  }

  /** `in_list_context` after one element: a list item always sets it. */
  function InListStep(inList: bool, prev: Option<Element>, e: Element): bool {
    e.NumberedList? || ContextFor(inList, prev, e)
  }

  /** `prev_element` before position `i`. */
  function PrevOf(elems: seq<Element>, i: nat): Option<Element>
    requires i <= |elems|
  {
    if i == 0 then None else Some(elems[i - 1])
  }

  /** The element after position `i`, the loop's lookahead. */
  function NextOf(elems: seq<Element>, i: nat): Option<Element> {
    if i + 1 < |elems| then Some(elems[i + 1]) else None
  }

  /** `list_counters` after the first `n` elements. */
  function CountersAfter(elems: seq<Element>, n: nat): Counters
    requires n <= |elems|
  {
    if n == 0 then map[] else CountersStep(CountersAfter(elems, n - 1), PrevOf(elems, n - 1), elems[n - 1])
  }

  /** `in_list_context` after the first `n` elements. */
  function InListAfter(elems: seq<Element>, n: nat): bool
    requires n <= |elems|
  {
    if n == 0 then false else InListStep(InListAfter(elems, n - 1), PrevOf(elems, n - 1), elems[n - 1])
  }

  /** The counter printed for the element at position `n - 1` (0 for anything but a list item). */
  function EmittedCount(elems: seq<Element>, n: nat): nat
    requires 0 < n <= |elems|
  {
    var e := elems[n - 1];
    if e.NumberedList? then CountOf(CountersAfter(elems, n), e.numId, e.ilvl) else 0
  }

  /** `markdown_lines` after the first `n` elements. */
  function LinesAfter(elems: seq<Element>, n: nat): seq<string>
    requires n <= |elems|
  {
    if n == 0 then []
    else
      var before := LinesAfter(elems, n - 1);
      var e := elems[n - 1];
      var prev := PrevOf(elems, n - 1);
      before + Separator(EndsList(prev, e), before)
      + ElementLines(e, NextOf(elems, n - 1), ContextFor(InListAfter(elems, n - 1), prev, e), EmittedCount(elems, n))
  }

  /** The clean-up pass: a blank line is kept only when the line before it was not blank. */
  function Collapse(lines: seq<string>, prevEmpty: bool): (r: seq<string>)
    ensures |r| <= |lines|
    decreases |lines|
  {
    if lines == [] then []
    else if lines[0] == "" then (if prevEmpty then [] else [""]) + Collapse(lines[1..], true)
    else [lines[0]] + Collapse(lines[1..], false)
  }

  /** One step of the clean-up pass at position `k`. */
  lemma CollapseUnfold(lines: seq<string>, k: int, prevEmpty: bool)
    requires 0 <= k < |lines|
    ensures Collapse(lines[k..], prevEmpty)
            == (if lines[k] == "" then (if prevEmpty then [] else [""]) else [lines[k]]) + Collapse(lines[k + 1..], lines[k] == "")
  {
    assert lines[k..][1..] == lines[k + 1..];
  }

  /** `convert_to_markdown`'s result. */
  function Markdown(elems: seq<Element>): string {
    Join(Collapse(LinesAfter(elems, |elems|), false), "\n")
  }

  predicate NoDoubleBlank(lines: seq<string>) {
    forall k :: 0 <= k < |lines| - 1 ==> lines[k] != "" || lines[k + 1] != ""
  }

  /** The lines that are not blank, in order. */
  function NonBlank(lines: seq<string>): seq<string>
    decreases |lines|
  {
    if lines == [] then [] else (if lines[0] != "" then [lines[0]] else []) + NonBlank(lines[1..])
  }

  /** After the clean-up no two blank lines are adjacent (and none follows a blank before the start). */
  lemma {:induction false} CollapseNoDoubleBlank(lines: seq<string>, prevEmpty: bool)
    ensures NoDoubleBlank(Collapse(lines, prevEmpty))
    ensures prevEmpty && Collapse(lines, prevEmpty) != [] ==> Collapse(lines, prevEmpty)[0] != ""
    decreases |lines|
  {
    if lines != [] {
      CollapseNoDoubleBlank(lines[1..], lines[0] == "");
      var rest := Collapse(lines[1..], lines[0] == "");
      var r := Collapse(lines, prevEmpty);
      if lines[0] == "" && !prevEmpty {
        assert r == [""] + rest;
        assert forall k :: 1 <= k < |r| ==> r[k] == rest[k - 1];
      } else if lines[0] != "" {
        assert r == [lines[0]] + rest;
        assert forall k :: 1 <= k < |r| ==> r[k] == rest[k - 1];
      }
    }
  }

  /** The clean-up removes only blank lines: the other lines survive, in order. */
  lemma {:induction false} CollapseKeepsText(lines: seq<string>, prevEmpty: bool)
    ensures NonBlank(Collapse(lines, prevEmpty)) == NonBlank(lines)
    decreases |lines|
  {
    if lines != [] {
      CollapseKeepsText(lines[1..], lines[0] == "");
      var rest := Collapse(lines[1..], lines[0] == "");
      var r := Collapse(lines, prevEmpty);
      if lines[0] == "" {
        if !prevEmpty {
          assert r == [""] + rest;
          assert r[1..] == rest;
        } else {
          assert r == rest;
        }
      } else {
        assert r == [lines[0]] + rest;
        assert r[1..] == rest;
      }
    }
  }

  /** Lines that already have no adjacent blanks pass the clean-up unchanged, so it is idempotent. */
  lemma {:induction false} CollapseFixesClean(lines: seq<string>, prevEmpty: bool)
    requires NoDoubleBlank(lines)
    requires prevEmpty && lines != [] ==> lines[0] != ""
    ensures Collapse(lines, prevEmpty) == lines
    decreases |lines|
  {
    if lines != [] {
      assert NoDoubleBlank(lines[1..]) by {
        forall k | 0 <= k < |lines[1..]| - 1 ensures lines[1..][k] != "" || lines[1..][k + 1] != "" {
          assert lines[1..][k] == lines[k + 1] && lines[1..][k + 1] == lines[k + 2];
        }
      }
      if |lines| > 1 {
        assert lines[1..][0] == lines[1];
      }
      CollapseFixesClean(lines[1..], lines[0] == "");
      assert lines == [lines[0]] + lines[1..];
    }
  }

  lemma CollapseIdempotent(lines: seq<string>)
    ensures Collapse(Collapse(lines, false), false) == Collapse(lines, false)
  {
    CollapseNoDoubleBlank(lines, false);
    CollapseFixesClean(Collapse(lines, false), false);
  }

  /** Removing every "```" leaves a string that starts with a backtick only if the input did. */
  lemma TickHead(u: string)
    requires var r := ReplaceAll(u, "```", ""); |r| > 0 && r[0] == '`'
    ensures |u| > 0 && u[0] == '`'
  {
  }

  /** ...and one that starts with two backticks only if the input did. */
  lemma DoubleTickHead(t: string)
    requires var r := ReplaceAll(t, "```", ""); |r| >= 2 && r[0] == '`' && r[1] == '`'
    ensures |t| >= 2 && t[0] == '`' && t[1] == '`'
  {
    if |t| >= 3 && t[..3] != "```" {
      var rest := ReplaceAll(t[1..], "```", "");
      assert ReplaceAll(t, "```", "") == [t[0]] + rest;
      TickHead(t[1..]);
    }
  }

  /** Removing every "```" leaves no "```" behind: no new fence forms across a removed one. */
  lemma {:induction false} FenceRemovalComplete(s: string)
    ensures !Contains(ReplaceAll(s, "```", ""), "```")
    decreases |s|
  {
    var r := ReplaceAll(s, "```", "");
    if |s| < 3 {
      if Contains(r, "```") {
        var i := ContainsWitness(r, "```");
      }
    } else if s[..3] == "```" {
      FenceRemovalComplete(s[3..]);
      assert r == ReplaceAll(s[3..], "```", "");
    } else {
      var rest := ReplaceAll(s[1..], "```", "");
      FenceRemovalComplete(s[1..]);
      assert r == [s[0]] + rest;
      assert r[1..] == rest;
      assert s[0] != '`' || s[1] != '`' || s[2] != '`' by {
        assert s[..3][0] != '`' || s[..3][1] != '`' || s[..3][2] != '`';
      }
      if |rest| >= 2 && rest[0] == '`' && rest[1] == '`' {
        DoubleTickHead(s[1..]);
      }
    }
  }

  /** The code line of a rendered code block holds no code fence. */
  lemma CleanCodeHasNoFence(code: string)
    ensures !Contains(CleanCode(code), "```")
  {
    var removed := ReplaceAll(ReplaceAll(code, "```python", ""), "```", "");
    FenceRemovalComplete(ReplaceAll(code, "```python", ""));
    var i, j := StripIsSlice(removed);
    if Contains(CleanCode(code), "```") {
      ContainsInSlice(removed, i, j, "```");
    }
  }

  /**
    A list item is numbered one past its level's running count, or 1 right
    after a cue paragraph; deeper levels of its numId are discarded and other
    numIds are untouched.
   */
  lemma CountersStepListItem(c: Counters, prev: Option<Element>, e: Element)
    requires e.NumberedList?
    ensures var r := CountersStep(c, prev, e);
      && CountOf(r, e.numId, e.ilvl) == (if OpensList(prev, e) then 1 else CountOf(c, e.numId, e.ilvl) + 1)
      && (forall l :: l in r[e.numId] ==> l <= e.ilvl)
      && (forall m :: m != e.numId ==> Inner(r, m) == Inner(c, m))
  {
  }

  /** A meaningful paragraph after a list item drops every counter and leaves the list context. */
  lemma StepEndsList(c: Counters, inList: bool, prev: Option<Element>, e: Element)
    requires EndsList(prev, e)
    ensures CountersStep(c, prev, e) == map[] && !InListStep(inList, prev, e) && !ContextFor(inList, prev, e)
  {
  }

  /** Any element that is neither a list item nor a meaningful paragraph leaves counters and list context alone. */
  lemma StepNeutral(c: Counters, inList: bool, prev: Option<Element>, e: Element)
    requires !e.NumberedList? && !Meaningful(e)
    ensures CountersStep(c, prev, e) == c && InListStep(inList, prev, e) == inList && ContextFor(inList, prev, e) == inList
  {
  }

  /** A heading's lines: its marker and text, then a blank line. */
  lemma HeadingItemLines(elems: seq<Element>, i: nat)
    requires i < |elems| && elems[i].Heading?
    ensures LinesAfter(elems, i + 1) == LinesAfter(elems, i) + [HeadingMarker(elems[i].level) + " " + elems[i].content, ""]
  {
  }

  /** A list item's line: its indent, its counter and its text, and nothing else. */
  lemma ListItemLine(elems: seq<Element>, i: nat)
    requires i < |elems| && elems[i].NumberedList?
    ensures LinesAfter(elems, i + 1) == LinesAfter(elems, i) + [ListLine(elems[i].ilvl, ItemNumber(elems, i), elems[i].content)]
    ensures InListAfter(elems, i + 1)
  {
  }

  /**
    A paragraph that ends a list is set off by exactly one blank line before
    it, and followed by one only when a non-list element comes next.
   */
  lemma EndingParagraphLines(elems: seq<Element>, i: nat)
    requires i < |elems| && EndsList(PrevOf(elems, i), elems[i])
    ensures var before := LinesAfter(elems, i); var next := NextOf(elems, i);
            && LinesAfter(elems, i + 1) == before + Separator(true, before) + [elems[i].content]
                                           + (if next.Some? && !next.value.NumberedList? then [""] else [])
            && (before != [] ==> (before + Separator(true, before))[|before + Separator(true, before)| - 1] == "")
  {
    var before := LinesAfter(elems, i);
    var e := elems[i];
    LinesAfterStep(elems, i);
    TextLinesMeaningful(e, NextOf(elems, i), ContextFor(InListAfter(elems, i), PrevOf(elems, i), e), EmittedCount(elems, i + 1));
  }

  /** The lines after one more element: the separator and the element's own lines. */
  lemma LinesAfterStep(elems: seq<Element>, i: nat)
    requires i < |elems|
    ensures var before := LinesAfter(elems, i); var e := elems[i]; var prev := PrevOf(elems, i);
            LinesAfter(elems, i + 1)
            == before + Separator(EndsList(prev, e), before)
               + ElementLines(e, NextOf(elems, i), ContextFor(InListAfter(elems, i), prev, e), EmittedCount(elems, i + 1))
  {
  }

  /** A meaningful paragraph's own lines: its text, and a blank line when a non-list element follows. */
  lemma TextLinesMeaningful(e: Element, next: Option<Element>, inList: bool, count: nat)
    requires Meaningful(e)
    ensures ElementLines(e, next, inList, count) == [e.content] + (if next.Some? && !next.value.NumberedList? then [""] else [])
  {
  }

  /** A blank paragraph inside a list emits nothing; outside a list it emits one blank line. */
  lemma BlankParagraphLines(elems: seq<Element>, i: nat)
    requires i < |elems| && elems[i].Text? && Strip(elems[i].content) == ""
    ensures LinesAfter(elems, i + 1) == LinesAfter(elems, i) + (if InListAfter(elems, i) then [] else [""])
    ensures InListAfter(elems, i + 1) == InListAfter(elems, i)
  {
  }

  /**
    A meaningful paragraph gets a blank line after it exactly when another
    element follows that is not a list item; a blank paragraph becomes a blank
    line only outside a list.
   */
  lemma TextLines(e: Element, next: Option<Element>, inList: bool, count: nat)
    requires e.Text?
    ensures Meaningful(e) ==>
              ElementLines(e, next, inList, count)[0] == e.content
              && (|ElementLines(e, next, inList, count)| == 2 <==> next.Some? && !next.value.NumberedList?)
              && |ElementLines(e, next, inList, count)| <= 2
    ensures !Meaningful(e) ==> ElementLines(e, next, inList, count) == (if inList then [] else [""])
    ensures forall k :: 1 <= k < |ElementLines(e, next, inList, count)| ==> ElementLines(e, next, inList, count)[k] == ""
  {
  }

  /** An element between list items that cannot touch the counters. */
  predicate Neutral(e: Element) {
    !e.NumberedList? && !Meaningful(e)
  }

  /** The counter of the item at position `i`, as it was emitted. */
  function ItemNumber(elems: seq<Element>, i: nat): nat
    requires i < |elems| && elems[i].NumberedList?
  {
    CountOf(CountersAfter(elems, i + 1), elems[i].numId, elems[i].ilvl)
  }

  /** Elements that are neutral, or items of other numIds, leave one numId's counters exactly as they were. */
  predicate SparesList(e: Element, numId: int) {
    Neutral(e) || (e.NumberedList? && e.numId != numId)
  }

  /** Elements that are neutral, or items of other numIds or deeper levels, leave one level's counter as it was. */
  predicate SparesLevel(e: Element, numId: int, level: int) {
    Neutral(e) || (e.NumberedList? && (e.numId != numId || e.ilvl > level))
  }

  /** The step at position `k` neither ends nor opens a list when the element before it is not a meaningful paragraph. */
  lemma NoHeuristicAfter(elems: seq<Element>, k: nat)
    requires 0 < k < |elems|
    requires elems[k - 1].NumberedList? || Neutral(elems[k - 1])
    requires !Meaningful(elems[k])
    ensures !EndsList(PrevOf(elems, k), elems[k]) && !OpensList(PrevOf(elems, k), elems[k])
  {
  }

  /** One step that neither ends nor opens a list, of an element sparing a level, keeps that level's counter. */
  lemma StepSparesLevel(c: Counters, prev: Option<Element>, e: Element, numId: int, level: int)
    requires SparesLevel(e, numId, level) && !EndsList(prev, e) && !OpensList(prev, e)
    ensures CountOf(CountersStep(c, prev, e), numId, level) == CountOf(c, numId, level)
  {
    if e.NumberedList? {
      assert CountersStep(c, prev, e) == Bump(c, e.numId, e.ilvl);
    }
  }

  /** One step that neither ends nor opens a list, of an element sparing a numId, keeps that numId's counters. */
  lemma StepSparesList(c: Counters, prev: Option<Element>, e: Element, numId: int)
    requires SparesList(e, numId) && !EndsList(prev, e) && !OpensList(prev, e)
    ensures Inner(CountersStep(c, prev, e), numId) == Inner(c, numId)
  {
    if e.NumberedList? {
      assert CountersStep(c, prev, e) == Bump(c, e.numId, e.ilvl);
    }
  }

  /** After an item, elements that spare a level keep that level's counter. */
  lemma {:induction false} KeepsLevelCount(elems: seq<Element>, i: nat, j: nat, numId: int, level: int)
    requires i < j <= |elems| && elems[i].NumberedList?
    requires forall k :: i < k < j ==> SparesLevel(elems[k], numId, level)
    ensures CountOf(CountersAfter(elems, j), numId, level) == CountOf(CountersAfter(elems, i + 1), numId, level)
    decreases j
  {
    if j > i + 1 {
      assert forall k :: i < k < j - 1 ==> SparesLevel(elems[k], numId, level);
      KeepsLevelCount(elems, i, j - 1, numId, level);
      NoHeuristicAfter(elems, j - 1);
      StepSparesLevel(CountersAfter(elems, j - 1), PrevOf(elems, j - 1), elems[j - 1], numId, level);
    }
  }

  /** After an item, elements that spare a numId keep that numId's counters. */
  lemma {:induction false} KeepsListCounters(elems: seq<Element>, i: nat, j: nat, numId: int)
    requires i < j <= |elems| && elems[i].NumberedList?
    requires forall k :: i < k < j ==> SparesList(elems[k], numId)
    ensures Inner(CountersAfter(elems, j), numId) == Inner(CountersAfter(elems, i + 1), numId)
    decreases j
  {
    if j > i + 1 {
      assert forall k :: i < k < j - 1 ==> SparesList(elems[k], numId);
      KeepsListCounters(elems, i, j - 1, numId);
      NoHeuristicAfter(elems, j - 1);
      StepSparesList(CountersAfter(elems, j - 1), PrevOf(elems, j - 1), elems[j - 1], numId);
    }
  }

  /** Two items of one numId and level, with only sparing elements between them, are numbered consecutively. */
  lemma ContinuesAcross(elems: seq<Element>, i: nat, j: nat)
    requires i < j < |elems| && elems[i].NumberedList? && elems[j].NumberedList?
    requires elems[j].numId == elems[i].numId && elems[j].ilvl == elems[i].ilvl
    requires forall k :: i < k < j ==> SparesLevel(elems[k], elems[i].numId, elems[i].ilvl)
    ensures ItemNumber(elems, j) == ItemNumber(elems, i) + 1
  {
    KeepsLevelCount(elems, i, j, elems[i].numId, elems[i].ilvl);
    assert elems[j - 1].NumberedList? || Neutral(elems[j - 1]);
    NoHeuristicAfter(elems, j);
    CountersStepListItem(CountersAfter(elems, j), PrevOf(elems, j), elems[j]);
  }

  /** A run of items of one numId and level is numbered consecutively. */
  lemma {:induction false} RunNumberedConsecutively(elems: seq<Element>, i: nat, j: nat)
    requires i < j <= |elems| && elems[i].NumberedList?
    requires forall k :: i <= k < j ==> elems[k].NumberedList? && elems[k].numId == elems[i].numId && elems[k].ilvl == elems[i].ilvl
    ensures forall k :: i <= k < j ==> ItemNumber(elems, k) == ItemNumber(elems, i) + (k - i)
    decreases j
  {
    if j > i + 1 {
      assert forall k :: i <= k < j - 1 ==> elems[k].NumberedList? && elems[k].numId == elems[i].numId
                                            && elems[k].ilvl == elems[i].ilvl;
      RunNumberedConsecutively(elems, i, j - 1);
      ContinuesAcross(elems, j - 2, j - 1);
    }
  }

  /** A document that opens with `n` items of one list and level numbers them 1, 2, ..., n. */
  lemma LeadingRunNumberedFromOne(elems: seq<Element>, n: nat)
    requires 0 < n <= |elems| && elems[0].NumberedList?
    requires forall k :: 0 <= k < n ==> elems[k].NumberedList? && elems[k].numId == elems[0].numId && elems[k].ilvl == elems[0].ilvl
    ensures forall k :: 0 <= k < n ==> ItemNumber(elems, k) == k + 1
  {
    RunNumberedConsecutively(elems, 0, n);
    assert CountersAfter(elems, 1) == CountersStep(map[], None, elems[0]);
    CountersStepListItem(map[], None, elems[0]);
  }

  /**
    After an item at some level, the next item of the same numId at a deeper
    level starts again at 1, however far the deeper level had counted before.
   */
  lemma DeeperLevelRestarts(elems: seq<Element>, i: nat, j: nat)
    requires i < j < |elems| && elems[i].NumberedList? && elems[j].NumberedList?
    requires elems[j].numId == elems[i].numId && elems[j].ilvl > elems[i].ilvl
    requires forall k :: i < k < j ==> SparesList(elems[k], elems[i].numId)
    ensures ItemNumber(elems, j) == 1
  {
    var n := elems[i].numId;
    var afterI := CountersAfter(elems, i + 1);
    CountersStepListItem(CountersAfter(elems, i), PrevOf(elems, i), elems[i]);
    assert forall l :: l in afterI[n] ==> l <= elems[i].ilvl;
    KeepsListCounters(elems, i, j, n);
    var beforeJ := CountersAfter(elems, j);
    assert Inner(beforeJ, n) == Inner(afterI, n);
    assert CountOf(beforeJ, n, elems[j].ilvl) == 0;
    assert elems[j - 1].NumberedList? || Neutral(elems[j - 1]);
    NoHeuristicAfter(elems, j);
    CountersStepListItem(beforeJ, PrevOf(elems, j), elems[j]);
  }

  /** Neutral elements leave all counters as they were. */
  lemma {:induction false} NeutralKeepsCounters(elems: seq<Element>, i: nat, j: nat)
    requires i <= j <= |elems|
    requires forall k :: i <= k < j ==> Neutral(elems[k])
    ensures CountersAfter(elems, j) == CountersAfter(elems, i)
    decreases j
  {
    if j > i {
      assert forall k :: i <= k < j - 1 ==> Neutral(elems[k]);
      NeutralKeepsCounters(elems, i, j - 1);
      assert Neutral(elems[j - 1]);
      StepNeutral(CountersAfter(elems, j - 1), InListAfter(elems, j - 1), PrevOf(elems, j - 1), elems[j - 1]);
    }
  }

  /**
    A meaningful paragraph right after a list item ends the list: the next
    item, of any numId and level, is numbered 1.
   */
  lemma ParagraphRestartsNumbering(elems: seq<Element>, i: nat, j: nat)
    requires 0 < i < j < |elems| && elems[i - 1].NumberedList? && Meaningful(elems[i]) && elems[j].NumberedList?
    requires forall k :: i < k < j ==> Neutral(elems[k])
    ensures ItemNumber(elems, j) == 1
  {
    StepEndsList(CountersAfter(elems, i), InListAfter(elems, i), PrevOf(elems, i), elems[i]);
    NeutralKeepsCounters(elems, i + 1, j);
    CountersStepListItem(CountersAfter(elems, j), PrevOf(elems, j), elems[j]);
  }

  /** A list item right after a paragraph with a cue phrase is numbered 1, and the other numIds keep counting. */
  lemma CuePhraseRestartsNumbering(elems: seq<Element>, i: nat)
    requires i + 1 < |elems| && Meaningful(elems[i]) && HasCue(elems[i].content) && elems[i + 1].NumberedList?
    ensures ItemNumber(elems, i + 1) == 1
    ensures var before := CountersAfter(elems, i + 1); var after := CountersAfter(elems, i + 2);
            forall m :: m != elems[i + 1].numId ==> Inner(after, m) == Inner(before, m)
  {
    CountersStepListItem(CountersAfter(elems, i + 1), PrevOf(elems, i + 1), elems[i + 1]);
  }

  /** Every cue phrase ends in a colon, so a paragraph without one never restarts a list. */
  lemma CueNeedsColon(text: string)
    requires HasCue(text)
    ensures ':' in text
  {
    var t := Lower(Strip(text));
    var k :| 0 <= k < |CuePhrases| && Contains(t, CuePhrases[k]);
    var p := CuePhrases[k];
    assert p[|p| - 1] == ':' by {
      assert k == 0 || k == 1 || k == 2 || k == 3 || k == 4;
    }
    ContainsChars(t, p, |p| - 1);
    LowerKeepsOthers(Strip(text), ':');
    var a, b := StripIsSlice(text);
    var j :| 0 <= j < |Strip(text)| && Strip(text)[j] == ':';
    assert text[a..b][j] == text[a + j];
  }

  /** The shape of the scenario below: a heading, two items of one list, a remark, a third item of the same list. */
  predicate IsResetScenario(elems: seq<Element>, intro: string, first: string, second: string, remark: string, third: string, numId: int) {
    && |elems| == 5 && elems[0] == Heading(1, intro) && elems[1] == NumberedList(first, 0, numId)
    && elems[2] == NumberedList(second, 0, numId) && elems[3] == Text(remark) && elems[4] == NumberedList(third, 0, numId)
  }

  /** The item numbers of the scenario below: 1 and 2, then 1 again after the remark. */
  lemma ListResetScenarioNumbers(elems: seq<Element>, intro: string, first: string, second: string, remark: string, third: string, numId: int)
    requires IsResetScenario(elems, intro, first, second, remark, third, numId)
    requires Strip(remark) != "" && ':' !in remark
    ensures ItemNumber(elems, 1) == 1 && ItemNumber(elems, 2) == 2 && ItemNumber(elems, 4) == 1
  {
    if HasCue(remark) {
      CueNeedsColon(remark);
    }
    assert CountersAfter(elems, 1) == map[];
    CountersStepListItem(CountersAfter(elems, 1), PrevOf(elems, 1), elems[1]);
    ContinuesAcross(elems, 1, 2);
    ParagraphRestartsNumbering(elems, 3, 4);
  }

  /** The lines of the scenario below up to its second item. */
  lemma ListResetScenarioHead(elems: seq<Element>, intro: string, first: string, second: string, remark: string, third: string, numId: int)
    requires IsResetScenario(elems, intro, first, second, remark, third, numId)
    requires Strip(remark) != "" && ':' !in remark
    ensures LinesAfter(elems, 3) == ["## " + intro, "", "1. " + first, "2. " + second]
  {
    ListResetScenarioNumbers(elems, intro, first, second, remark, third, numId);
    ScenarioLineTexts(intro, first, second, third);
    HeadingItemLines(elems, 0);
    var l1 := LinesAfter(elems, 1);
    ListItemLine(elems, 1);
    var l2 := LinesAfter(elems, 2);
    assert l2 == l1 + ["1. " + first];
    ListItemLine(elems, 2);
    assert LinesAfter(elems, 3) == l2 + ["2. " + second];
  }

  /** The lines of the scenario below, before the clean-up pass. */
  lemma ListResetScenarioLines(elems: seq<Element>, intro: string, first: string, second: string, remark: string, third: string, numId: int)
    requires IsResetScenario(elems, intro, first, second, remark, third, numId)
    requires Strip(remark) != "" && ':' !in remark
    ensures LinesAfter(elems, 5) == ["## " + intro, "", "1. " + first, "2. " + second, "", remark, "1. " + third]
  {
    ListResetScenarioHead(elems, intro, first, second, remark, third, numId);
    ListResetScenarioNumbers(elems, intro, first, second, remark, third, numId);
    ScenarioLineTexts(intro, first, second, third);
    var l3 := LinesAfter(elems, 3);
    EndingParagraphLines(elems, 3);
    assert Separator(true, l3) == [""];
    var l4 := LinesAfter(elems, 4);
    assert l4 == l3 + [""] + [remark];
    ListItemLine(elems, 4);
    assert LinesAfter(elems, 5) == l4 + ["1. " + third];
    assert l4 == ["## " + intro, "", "1. " + first, "2. " + second, "", remark];
  }

  /** A rendering whose lines have no two blank lines in a row is those lines joined, untouched by the clean-up. */
  lemma MarkdownOfCleanLines(elems: seq<Element>, lines: seq<string>)
    requires LinesAfter(elems, |elems|) == lines && NoDoubleBlank(lines)
    ensures Markdown(elems) == Join(lines, "\n")
  {
    CollapseFixesClean(lines, false);
  }

  /** The scenario's lines have no two blank lines in a row. */
  lemma ScenarioNoDoubleBlank(intro: string, first: string, second: string, remark: string, third: string)
    requires Strip(remark) != ""
    ensures NoDoubleBlank(["## " + intro, "", "1. " + first, "2. " + second, "", remark, "1. " + third])
  {
    assert remark != "";
  }

  /** The texts of the scenario's heading and item lines. */
  lemma ScenarioLineTexts(intro: string, first: string, second: string, third: string)
    ensures HeadingMarker(1) + " " + intro == "## " + intro
    ensures ListLine(0, 1, first) == "1. " + first && ListLine(0, 2, second) == "2. " + second
    ensures ListLine(0, 1, third) == "1. " + third
  {
    assert NatToString(1) == "1" && NatToString(2) == "2";
    assert Indent(0) == "";
  }

  /**
    A heading, two items of one list, a closing remark and a third item of
    the same list: the remark ends the list, so the third item is numbered 1
    again. The remark is any meaningful paragraph without a colon.
   */
  lemma ListResetScenario(intro: string, first: string, second: string, remark: string, third: string, numId: int)
    requires Strip(remark) != "" && ':' !in remark
    ensures var elems := [Heading(1, intro), NumberedList(first, 0, numId), NumberedList(second, 0, numId),
                          Text(remark), NumberedList(third, 0, numId)];
            Markdown(elems) == Join(["## " + intro, "", "1. " + first, "2. " + second, "", remark, "1. " + third], "\n")
  {
    var elems := [Heading(1, intro), NumberedList(first, 0, numId), NumberedList(second, 0, numId),
                  Text(remark), NumberedList(third, 0, numId)];
    assert IsResetScenario(elems, intro, first, second, remark, third, numId);
    ListResetScenarioLines(elems, intro, first, second, remark, third, numId);
    ScenarioNoDoubleBlank(intro, first, second, remark, third);
    MarkdownOfCleanLines(elems, ["## " + intro, "", "1. " + first, "2. " + second, "", remark, "1. " + third]);
  }
}
