/**
  The pure parts of final_docx_processor.py: `is_code_like`, and inside
  `extract_text_with_ocr` the choice among the Tesseract configurations and
  the clean-up of the chosen text. Each OCR call is an input: the text it
  returned, or None when it raised.
 */
module FinalOcr {
  import opened Wrappers
  import opened Strings

  /** The programming indicators `is_code_like` looks for in the lower-cased text. */
  const CodePatterns: seq<string> :=
    [ "def ", "class ", "import ", "from ", "if ", "else:", "elif ",
      "for ", "while ", "try:", "except:", "finally:", "with ",
      "return ", "yield ", "lambda ", "async ", "await ",
      "__init__", "__main__", "self.", "print(", "len(",
      "==", "!=", "<=", ">=", "->", "=>", "{}", "[]",
      "    ", "\t" ]

  /** The operators looked for in the text as written. */
  const Operators: seq<string> := ["==", "!=", "<=", ">=", "+=", "-="]

  /** `sum(1 for pattern in patterns if pattern in t)`. */
  function IndicatorCount(patterns: seq<string>, t: string): (n: nat)
    ensures n <= |patterns|
    decreases |patterns|
  {
    if patterns == [] then 0
    else IndicatorCount(patterns[..|patterns| - 1], t) + (if Contains(t, patterns[|patterns| - 1]) then 1 else 0)
  }

  /** The positions of the patterns that occur in `t`. */
  function Present(patterns: seq<string>, t: string): set<int> {
    set k | 0 <= k < |patterns| && Contains(t, patterns[k])
  }

  /** The count is the number of pattern entries present in `t`, each counted once. */
  lemma {:induction false} IndicatorCountIsPresentSize(patterns: seq<string>, t: string)
    ensures IndicatorCount(patterns, t) == |Present(patterns, t)|
    decreases |patterns|
  {
    if patterns != [] {
      var n := |patterns| - 1;
      var init := patterns[..n];
      IndicatorCountIsPresentSize(init, t);
      assert forall k :: 0 <= k < n ==> init[k] == patterns[k];
      if Contains(t, patterns[n]) {
        assert Present(patterns, t) == Present(init, t) + {n};
        assert n !in Present(init, t);
      } else {
        assert Present(patterns, t) == Present(init, t);
      }
    }
  }

  /** The count is positive exactly when some pattern occurs. */
  lemma IndicatorCountPositive(patterns: seq<string>, t: string)
    ensures IndicatorCount(patterns, t) > 0 <==> exists k :: 0 <= k < |patterns| && Contains(t, patterns[k])
  {
    IndicatorCountIsPresentSize(patterns, t);
    if exists k :: 0 <= k < |patterns| && Contains(t, patterns[k]) {
      var k :| 0 <= k < |patterns| && Contains(t, patterns[k]);
      assert k in Present(patterns, t);
    }
  }

  /** `(` and `)` both present, or `{` and `}` both present. */
  predicate HasBrackets(t: string) {
    ('(' in t && ')' in t) || ('{' in t && '}' in t)
  }

  /** Four spaces or a tab. */
  predicate HasIndentation(t: string) {
    Contains(t, "    ") || '\t' in t
  }

  predicate HasOperators(t: string) {
    exists k :: 0 <= k < |Operators| && Contains(t, Operators[k])
  }

  /** `is_code_like`: long enough, and three indicators, or one with brackets and indentation or an operator. */
  function IsCodeLike(text: string): (r: bool)
    ensures r ==> |Strip(text)| >= 20
  {
    if text == "" || |Strip(text)| < 20 then false
    else
      var count := IndicatorCount(CodePatterns, Lower(text));
      count >= 3 || (count >= 1 && HasBrackets(text) && (HasIndentation(text) || HasOperators(text)))
  }

  /** Code-like text contains at least one of the patterns, in lower case. */
  lemma CodeLikeHasPattern(text: string)
    requires IsCodeLike(text)
    ensures exists k :: 0 <= k < |CodePatterns| && Contains(Lower(text), CodePatterns[k])
  {
    IndicatorCountPositive(CodePatterns, Lower(text));
  }

  /** Text long enough with three distinct indicators is code, whatever brackets, indentation or operators it has. */
  lemma ThreeIndicatorsAreCode(text: string)
    requires |Strip(text)| >= 20 && |Present(CodePatterns, Lower(text))| >= 3
    ensures IsCodeLike(text)
  {
    IndicatorCountIsPresentSize(CodePatterns, Lower(text));
  }

  /** With one or two indicators the structure decides: brackets, and indentation or an operator. */
  lemma FewIndicatorsNeedStructure(text: string)
    requires |Strip(text)| >= 20 && 1 <= |Present(CodePatterns, Lower(text))| <= 2
    ensures IsCodeLike(text) <==> HasBrackets(text) && (HasIndentation(text) || HasOperators(text))
  {
    IndicatorCountIsPresentSize(CodePatterns, Lower(text));
  }

  /** Text without any indicator is never code. */
  lemma NoIndicatorNoCode(text: string)
    requires forall k :: 0 <= k < |CodePatterns| ==> !Contains(Lower(text), CodePatterns[k])
    ensures !IsCodeLike(text)
  {
    IndicatorCountPositive(CodePatterns, Lower(text));
  }

  /** The Tesseract configurations tried, in order. */
  const PsmConfigs: seq<string> := ["--psm 6", "--psm 4", "--psm 3", "--psm 1"]

  /** One OCR call: its configuration and its text, or None when it raised. */
  datatype Attempt = Attempt(config: string, output: Option<string>)

  /** `best_text`, `best_config` and `max_length`. */
  datatype Selection = Selection(text: string, config: string, maxLength: nat)

  /** The selection after the first `n` attempts: a text replaces the best only when its stripped length is greater. */
  function SelectionAfter(attempts: seq<Attempt>, n: nat): Selection
    requires n <= |attempts|
  {
    if n == 0 then Selection("", "", 0)
    else
      var s := SelectionAfter(attempts, n - 1);
      var a := attempts[n - 1];
      if a.output.Some? && StrippedLength(a) > s.maxLength
      then Selection(a.output.value, a.config, |Strip(a.output.value)|)
      else s
  }

  /** An attempt that returned a text with something besides whitespace. */
  predicate Yields(a: Attempt) {
    a.output.Some? && |Strip(a.output.value)| > 0
  }

  /** The stripped length of an attempt's text, 0 when it raised. */
  function StrippedLength(a: Attempt): nat {
    if a.output.Some? then |Strip(a.output.value)| else 0
  }

  /** Nothing is chosen exactly when no attempt yields text. */
  lemma {:induction false} SelectionEmptyIff(attempts: seq<Attempt>, n: nat)
    requires n <= |attempts|
    ensures SelectionAfter(attempts, n).maxLength == 0 <==> forall j :: 0 <= j < n ==> !Yields(attempts[j])
    ensures SelectionAfter(attempts, n).maxLength == 0 ==> SelectionAfter(attempts, n) == Selection("", "", 0)
  {
    if n > 0 {
      SelectionEmptyIff(attempts, n - 1);
    }
  }

  /** No attempt's stripped length exceeds the chosen one. */
  lemma {:induction false} SelectionIsLongest(attempts: seq<Attempt>, n: nat)
    requires n <= |attempts|
    ensures forall j :: 0 <= j < n ==> StrippedLength(attempts[j]) <= SelectionAfter(attempts, n).maxLength
  {
    if n > 0 {
      SelectionIsLongest(attempts, n - 1);
    }
  }

  /** The chosen text is the earliest one of greatest stripped length, with its configuration. */
  lemma {:induction false} SelectionIsEarliest(attempts: seq<Attempt>, n: nat)
    requires n <= |attempts| && SelectionAfter(attempts, n).maxLength > 0
    ensures var s := SelectionAfter(attempts, n);
            exists k :: 0 <= k < n && attempts[k].output == Some(s.text) && attempts[k].config == s.config
                        && StrippedLength(attempts[k]) == s.maxLength
                        && forall j :: 0 <= j < k ==> StrippedLength(attempts[j]) < s.maxLength
  {
    var before := SelectionAfter(attempts, n - 1);
    var s := SelectionAfter(attempts, n);
    if s == before {
      SelectionIsEarliest(attempts, n - 1);
    } else {
      SelectionIsLongest(attempts, n - 1);
      assert attempts[n - 1].output == Some(s.text);
    }
  }

  /** The configuration loop of `extract_text_with_ocr`. */
  method ChooseBest(attempts: seq<Attempt>) returns (s: Selection)
    ensures s == SelectionAfter(attempts, |attempts|)
  {
    var bestText := "";
    var bestConfig := "";
    var maxLength: nat := 0;
    for i := 0 to |attempts|
      invariant Selection(bestText, bestConfig, maxLength) == SelectionAfter(attempts, i)
    {
      var a := attempts[i];
      if a.output.Some? {
        var text := a.output.value;
        if |Strip(text)| > maxLength {
          maxLength := |Strip(text)|;
          bestText := text;
          bestConfig := a.config;
        }
      }
    }
    s := Selection(bestText, bestConfig, maxLength);
  }

  /** The lines with leading blank lines removed. */
  function DropLeading(lines: seq<string>): (r: seq<string>)
    ensures |r| <= |lines|
    ensures r != [] ==> r[0] != ""
    decreases |lines|
  {
    if lines != [] && lines[0] == "" then DropLeading(lines[1..]) else lines
  }

  /** Only blank lines are dropped at the start, and the rest is kept as it is. */
  lemma {:induction false} DropLeadingMeaning(lines: seq<string>)
    ensures DropLeading(lines) == lines[|lines| - |DropLeading(lines)|..]
    ensures forall k :: 0 <= k < |lines| - |DropLeading(lines)| ==> lines[k] == ""
    decreases |lines|
  {
    if lines != [] && lines[0] == "" {
      DropLeadingMeaning(lines[1..]);
    }
  }

  /** The lines with trailing blank lines removed. */
  function DropTrailing(lines: seq<string>): (r: seq<string>)
    ensures |r| <= |lines|
    ensures r != [] ==> r[|r| - 1] != ""
    decreases |lines|
  {
    if lines != [] && lines[|lines| - 1] == "" then DropTrailing(lines[..|lines| - 1]) else lines
  }

  /** Only blank lines are dropped at the end, and the rest is kept as it is. */
  lemma {:induction false} DropTrailingMeaning(lines: seq<string>)
    ensures DropTrailing(lines) == lines[..|DropTrailing(lines)|]
    ensures forall k :: |DropTrailing(lines)| <= k < |lines| ==> lines[k] == ""
    decreases |lines|
  {
    if lines != [] && lines[|lines| - 1] == "" {
      DropTrailingMeaning(lines[..|lines| - 1]);
    }
  }

  /** The `pop(0)` loop. */
  method PopLeading(lines: seq<string>) returns (r: seq<string>)
    ensures r == DropLeading(lines)
  {
    r := lines;
    while r != [] && r[0] == ""
      invariant DropLeading(r) == DropLeading(lines)
      decreases |r|
    {
      r := r[1..];
    }
  }

  /** The `pop()` loop. */
  method PopTrailing(lines: seq<string>) returns (r: seq<string>)
    ensures r == DropTrailing(lines)
  {
    r := lines;
    while r != [] && r[|r| - 1] == ""
      invariant DropTrailing(r) == DropTrailing(lines)
      decreases |r|
    {
      r := r[..|r| - 1];
    }
  }

  /** Each line with its whitespace runs collapsed: `' '.join(line.split())`. */
  method NormalizeLines(lines: seq<string>) returns (cleaned: seq<string>)
    ensures |cleaned| == |lines|
    ensures forall k :: 0 <= k < |lines| ==> cleaned[k] == NormalizeSpaces(lines[k])
  {
    cleaned := [];
    for i := 0 to |lines|
      invariant |cleaned| == i
      invariant forall k :: 0 <= k < i ==> cleaned[k] == NormalizeSpaces(lines[k])
    {
      cleaned := cleaned + [NormalizeSpaces(lines[i])];
    }
  }

  function NormalizedLines(lines: seq<string>): (r: seq<string>)
    ensures |r| == |lines|
  {
    seq(|lines|, k requires 0 <= k < |lines| => NormalizeSpaces(lines[k]))
  }

  /** The clean-up of the chosen text: lines normalised, blank lines at the start and end removed. */
  function CleanedLines(text: string): seq<string> {
    DropTrailing(DropLeading(NormalizedLines(Split(text, '\n'))))
  }

  /** The result of `extract_text_with_ocr` once preprocessing succeeded: cleaned text and configuration. */
  function OcrResult(attempts: seq<Attempt>): (string, string) {
    var s := SelectionAfter(attempts, |attempts|);
    if s.text != "" then (Join(CleanedLines(s.text), "\n"), s.config) else ("", "No text extracted")
  }

  /** `extract_text_with_ocr`: a failed preprocessing step, or the selection loop and then the line clean-up. */
  method ExtractTextWithOcr(preprocessed: bool, attempts: seq<Attempt>) returns (text: string, config: string)
    ensures !preprocessed ==> (text, config) == ("", "Preprocessing failed")
    ensures preprocessed ==> (text, config) == OcrResult(attempts)
  {
    if !preprocessed {
      return "", "Preprocessing failed";
    }
    var best := ChooseBest(attempts);
    if best.text != "" {
      var lines := Split(best.text, '\n');
      var cleaned := NormalizeLines(lines);
      assert cleaned == NormalizedLines(lines);
      cleaned := PopLeading(cleaned);
      cleaned := PopTrailing(cleaned);
      text := Join(cleaned, "\n");
      config := best.config;
    } else {
      text := "";
      config := "No text extracted";
    }
  }

  /** The dropped lines are blank, the kept ones the contiguous block `lines[a..b]`, in order. */
  lemma TrimKeepsInterior(lines: seq<string>) returns (a: nat, b: nat)
    ensures a <= b <= |lines| && DropTrailing(DropLeading(lines)) == lines[a..b]
    ensures forall k :: 0 <= k < a ==> lines[k] == ""
    ensures forall k :: b <= k < |lines| ==> lines[k] == ""
  {
    var l := DropLeading(lines);
    var r := DropTrailing(l);
    DropLeadingMeaning(lines);
    DropTrailingMeaning(l);
    a := |lines| - |l|;
    b := a + |r|;
    assert l == lines[a..];
    assert r == l[..|r|];
    assert lines[a..b] == r;
    forall k | b <= k < |lines| ensures lines[k] == "" {
      assert lines[k] == l[k - a];
    }
  }

  /** A blank-free line list keeps its first and last lines; an all-blank one is emptied. */
  lemma TrimEnds(lines: seq<string>)
    ensures var r := DropTrailing(DropLeading(lines));
            && (r == [] <==> forall k :: 0 <= k < |lines| ==> lines[k] == "")
            && (r != [] ==> r[0] != "" && r[|r| - 1] != "")
  {
    var l := DropLeading(lines);
    var r := DropTrailing(l);
    DropLeadingMeaning(lines);
    DropTrailingMeaning(l);
    if r == [] {
      assert l == [] by {
        if l != [] {
          assert false;
        }
      }
    } else {
      assert r[0] == l[0];
      assert l != [];
      assert exists k :: 0 <= k < |lines| && lines[k] != "" by {
        assert lines[|lines| - |l|] == l[0];
      }
    }
  }

  /** `' '.join(line.split())` is blank exactly when the line is whitespace only. */
  lemma NormalizeSpacesBlank(s: string)
    ensures NormalizeSpaces(s) == "" <==> NonSpace(s) == ""
  {
    NormalizeSpacesMeaning(s);
    var r := NormalizeSpaces(s);
    if r != "" {
      assert r == [r[0]] + r[1..];
      NonSpaceAppend([r[0]], r[1..]);
    }
  }

  /** The non-whitespace characters of joined lines are those of the lines. */
  lemma {:induction false} NonSpaceJoinLines(parts: seq<string>)
    ensures NonSpace(Join(parts, "\n")) == ""  <==> forall k :: 0 <= k < |parts| ==> NonSpace(parts[k]) == ""
    decreases |parts|
  {
    if |parts| > 1 {
      NonSpaceJoinLines(parts[1..]);
      var tail := Join(parts[1..], "\n");
      assert Join(parts, "\n") == (parts[0] + "\n") + tail;
      NonSpaceAppend(parts[0] + "\n", tail);
      NonSpaceAppend(parts[0], "\n");
      assert NonSpace("\n") == "";
      assert forall k :: 1 <= k < |parts| ==> parts[k] == parts[1..][k - 1];
    }
  }

  /** A text with some non-whitespace has a line that does not normalise to blank. */
  lemma SomeLineNonBlank(text: string)
    requires Strip(text) != ""
    ensures exists k :: 0 <= k < |Split(text, '\n')| && NormalizedLines(Split(text, '\n'))[k] != ""
  {
    var lines := Split(text, '\n');
    StripHasNonSpace(text);
    JoinSplit(text, '\n');
    NonSpaceJoinLines(lines);
    var k :| 0 <= k < |lines| && NonSpace(lines[k]) != "";
    NormalizeSpacesBlank(lines[k]);
    assert NormalizedLines(lines)[k] != "";
  }

  /** Every normalised line is single-spaced. */
  lemma NormalizedLinesSingleSpaced(lines: seq<string>)
    ensures forall k :: 0 <= k < |lines| ==> SingleSpaced(NormalizedLines(lines)[k])
  {
    forall k | 0 <= k < |lines| ensures SingleSpaced(NormalizedLines(lines)[k]) {
      NormalizeSpacesMeaning(lines[k]);
    }
  }

  /** Every kept line is single-spaced. */
  lemma TrimmedSingleSpaced(lines: seq<string>)
    ensures var r := DropTrailing(DropLeading(NormalizedLines(lines)));
            forall m :: 0 <= m < |r| ==> SingleSpaced(r[m])
  {
    var normalized := NormalizedLines(lines);
    NormalizedLinesSingleSpaced(lines);
    var a, b := TrimKeepsInterior(normalized);
    var r := normalized[a..b];
    assert forall m :: 0 <= m < |r| ==> r[m] == normalized[a + m];
  }

  /** A chosen text with some non-whitespace leaves a non-blank first and last line, each single-spaced. */
  lemma CleanedTextEnds(text: string)
    requires Strip(text) != ""
    ensures var r := CleanedLines(text);
            && r != [] && r[0] != "" && r[|r| - 1] != ""
            && forall k :: 0 <= k < |r| ==> SingleSpaced(r[k])
  {
    SomeLineNonBlank(text);
    TrimEnds(NormalizedLines(Split(text, '\n')));
    TrimmedSingleSpaced(Split(text, '\n'));
  }

  /** No text comes out exactly when no configuration yields text; then the configuration reads "No text extracted". */
  lemma NoTextExtracted(attempts: seq<Attempt>)
    ensures (forall j :: 0 <= j < |attempts| ==> !Yields(attempts[j])) <==> OcrResult(attempts).0 == ""
    ensures (forall j :: 0 <= j < |attempts| ==> !Yields(attempts[j])) ==> OcrResult(attempts) == ("", "No text extracted")
  {
    var s := SelectionAfter(attempts, |attempts|);
    SelectionEmptyIff(attempts, |attempts|);
    if s.maxLength > 0 {
      SelectionIsEarliest(attempts, |attempts|);
      assert Strip(s.text) != "";
      CleanedTextEnds(s.text);
      var r := CleanedLines(s.text);
      assert Join(r, "\n") != "" by {
        if |r| > 1 {
          assert Join(r, "\n") == r[0] + "\n" + Join(r[1..], "\n");
        }
      }
    }
  }

  /** The attempts `extract_text_with_ocr` makes: one per configuration of `PsmConfigs`, in that order. */
  predicate TriesPsmConfigs(attempts: seq<Attempt>) {
    |attempts| == |PsmConfigs| && forall k :: 0 <= k < |attempts| ==> attempts[k].config == PsmConfigs[k]
  }

  /**
    Over the four configurations the reported configuration is one of them
    exactly when some configuration yields text; otherwise it is the
    "No text extracted" label.
   */
  lemma OcrResultNamesConfig(attempts: seq<Attempt>)
    requires TriesPsmConfigs(attempts)
    ensures OcrResult(attempts).1 in PsmConfigs <==> exists j :: 0 <= j < |attempts| && Yields(attempts[j])
  {
    var s := SelectionAfter(attempts, |attempts|);
    SelectionEmptyIff(attempts, |attempts|);
    NoTextExtracted(attempts);
    if s.maxLength > 0 {
      SelectionIsEarliest(attempts, |attempts|);
      var k :| 0 <= k < |attempts| && attempts[k].output == Some(s.text) && attempts[k].config == s.config
               && StrippedLength(attempts[k]) == s.maxLength;
      assert s.text != "";
      assert OcrResult(attempts).1 == PsmConfigs[k];
    } else {
      assert OcrResult(attempts).1 == "No text extracted";
    }
  }
}
