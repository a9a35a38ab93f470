/**
  The pure parts of extract_code_from_docx.py: `is_code_like`, the choice
  between the EasyOCR and the Tesseract text in `ocr_image`, and
  `clean_code_text`. The OCR engines are inputs: the pieces EasyOCR read (or
  None when it raised) and the Tesseract text (or None when it raised).
 */
module CodeOcr {
  import opened Wrappers
  import opened Strings
  import FinalOcr

  /** The Python keywords, operators, indentation patterns and library names `is_code_like` looks for. */
  const PythonIndicators: seq<string> :=
    [ "def ", "class ", "import ", "from ", "if ", "else:", "elif ",
      "for ", "while ", "try:", "except:", "finally:", "with ",
      "return ", "yield ", "lambda ", "async ", "await ",
      "__init__", "__main__", "self.", "print(", "len(",
      "==", "!=", "<=", ">=", "->", "=>",
      "\n    ", "\n        ",
      "pandas", "numpy", "matplotlib", "sklearn", "torch",
      "fastapi", "flask", "django", "requests" ]

  /** `is_code_like`: not blank, and two indicators, or one with indentation and both round brackets. */
  function IsCodeLike(text: string): (r: bool)
    ensures r ==> Strip(text) != ""
  {
    if Strip(text) == "" then false
    else
      var count := FinalOcr.IndicatorCount(PythonIndicators, Lower(text));
      count >= 2 || (count >= 1 && FinalOcr.HasIndentation(text) && '(' in text && ')' in text)
  }

  /**
    On non-blank text the verdict depends on how many distinct indicators occur,
    on indentation and on round brackets only; a colon plays no part.
   */
  lemma CodeLikeIff(text: string)
    requires Strip(text) != ""
    ensures var n := |FinalOcr.Present(PythonIndicators, Lower(text))|;
            IsCodeLike(text) <==> n >= 2 || (n == 1 && FinalOcr.HasIndentation(text) && '(' in text && ')' in text)
  {
    FinalOcr.IndicatorCountIsPresentSize(PythonIndicators, Lower(text));
  }

  /** Text without any indicator is never code. */
  lemma NoIndicatorNotCode(text: string)
    requires forall k :: 0 <= k < |PythonIndicators| ==> !Contains(Lower(text), PythonIndicators[k])
    ensures !IsCodeLike(text)
  {
    FinalOcr.IndicatorCountPositive(PythonIndicators, Lower(text));
  }

  /**
    The engine choice of `ocr_image`: EasyOCR when its text is code-like and
    longer than 0.8 times the Tesseract text, else Tesseract when its text is
    code-like, else the strictly longer text, ties going to Tesseract.
   */
  function ChooseEngine(easy: string, tess: string): (r: (string, string))
    ensures r == (easy, "EasyOCR") || r == (tess, "Tesseract")
  {
    if IsCodeLike(easy) && (|easy| as real) > (|tess| as real) * 0.8 then (easy, "EasyOCR")
    else if IsCodeLike(tess) then (tess, "Tesseract")
    else if |easy| > |tess| then (easy, "EasyOCR")
    else (tess, "Tesseract")
  }

  /** The 0.8 threshold in integers. */
  lemma ThresholdInIntegers(e: nat, t: nat)
    ensures (e as real) > (t as real) * 0.8 <==> 5 * e > 4 * t
  {
  }

  /**
    EasyOCR is chosen exactly when its text is code-like and more than four
    fifths as long as Tesseract's, or when neither text is code-like and
    EasyOCR's is strictly longer; in every other case Tesseract is chosen.
   */
  lemma EngineChoice(easy: string, tess: string)
    ensures var r := ChooseEngine(easy, tess);
            && (r.1 == "EasyOCR" <==> (IsCodeLike(easy) && 5 * |easy| > 4 * |tess|)
                                      || (!IsCodeLike(easy) && !IsCodeLike(tess) && |easy| > |tess|))
            && (r.1 == "EasyOCR" ==> r.0 == easy)
            && (r.1 != "EasyOCR" ==> r == (tess, "Tesseract"))
  {
    ThresholdInIntegers(|easy|, |tess|);
  }

  /** `' +'` → `' '`: every run of spaces becomes one space; `afterSpace` says the previous character was a space. */
  function CollapseSpaces(s: string, afterSpace: bool): string
    decreases |s|
  {
    if s == [] then ""
    else if s[0] == ' ' then (if afterSpace then "" else " ") + CollapseSpaces(s[1..], true)
    else [s[0]] + CollapseSpaces(s[1..], false)
  }

  /** No two adjacent spaces. */
  predicate NoDoubleSpace(r: string) {
    forall i :: 0 <= i < |r| - 1 ==> !(r[i] == ' ' && r[i + 1] == ' ')
  }

  /** After the space collapse no two spaces are adjacent, and none follows a space already written. */
  lemma {:induction false} CollapseNoDoubleSpace(s: string, afterSpace: bool)
    ensures afterSpace && CollapseSpaces(s, afterSpace) != [] ==> CollapseSpaces(s, afterSpace)[0] != ' '
    ensures NoDoubleSpace(CollapseSpaces(s, afterSpace))
    decreases |s|
  {
    if s != [] {
      var flag := s[0] == ' ';
      CollapseNoDoubleSpace(s[1..], flag);
      var tail := CollapseSpaces(s[1..], flag);
      var head := if s[0] == ' ' then (if afterSpace then "" else " ") else [s[0]];
      assert CollapseSpaces(s, afterSpace) == head + tail;
      NoDoubleSpaceConcat(head, tail);
    }
  }

  /** A space-free character, or one space before text that does not start with a space, keeps the property. */
  lemma NoDoubleSpaceConcat(head: string, tail: string)
    requires |head| <= 1 && NoDoubleSpace(tail)
    requires head == " " && tail != [] ==> tail[0] != ' '
    ensures NoDoubleSpace(head + tail)
  {
    var r := head + tail;
    forall i | 0 <= i < |r| - 1 ensures !(r[i] == ' ' && r[i + 1] == ' ') {
      if i >= |head| {
        var j := i - |head|;
        assert r[i] == tail[j] && r[i + 1] == tail[j + 1];
      } else {
        assert r[i] == head[0] && r[i + 1] == tail[0];
      }
    }
  }

  /** The space collapse removes only spaces. */
  lemma {:induction false} CollapseKeepsNonSpace(s: string, afterSpace: bool)
    ensures NonSpace(CollapseSpaces(s, afterSpace)) == NonSpace(s)
    decreases |s|
  {
    if s != [] {
      var flag := s[0] == ' ';
      CollapseKeepsNonSpace(s[1..], flag);
      var head := if s[0] == ' ' then (if afterSpace then "" else " ") else [s[0]];
      NonSpaceAppend(head, CollapseSpaces(s[1..], flag));
      assert s == [s[0]] + s[1..];
      NonSpaceAppend([s[0]], s[1..]);
    }
  }

  /**
    The four lookaround substitutions of `clean_code_text`. Each of them matches
    a whole maximal whitespace run, selected by the character before the run and
    the character after it:
    `(?<=[a-zA-Z])\s+(?=\()`, `(?<=\()\s+`, `\s+(?=\))`, `(?<=:)\s*\n\s*`.
   */
  datatype RunRule = LetterBeforeParen | AfterOpenParen | BeforeCloseParen | ColonBreak(replacement: string)

  /** Whether the rule's pattern matches the run `run` between `prev` and `next`. */
  predicate Applies(rule: RunRule, prev: Option<char>, run: string, next: Option<char>) {
    match rule
    case LetterBeforeParen => prev.Some? && IsAsciiLetter(prev.value) && next == Some('(')
    case AfterOpenParen => prev == Some('(')
    case BeforeCloseParen => next == Some(')')
    case ColonBreak(_) => prev == Some(':') && '\n' in run
  }

  /** What a matched run is replaced by. */
  function Replacement(rule: RunRule): string {
    if rule.ColonBreak? then rule.replacement else ""
  }

  /** `re.sub` of the rule over `s`, whose preceding character is `prev`: each maximal whitespace run is replaced when the rule matches it. */
  function Rewrite(rule: RunRule, s: string, prev: Option<char>): string
    decreases |s|
  {
    if s == [] then ""
    else if !IsSpace(s[0]) then [s[0]] + Rewrite(rule, s[1..], Some(s[0]))
    else
      var rest := LStrip(s);
      var run := s[..|s| - |rest|];
      var next := if rest == [] then None else Some(rest[0]);
      (if Applies(rule, prev, run, next) then Replacement(rule) else run) + Rewrite(rule, rest, Some(s[|s| - |rest| - 1]))
  }

  /** A rewrite whose replacement is blank changes only whitespace. */
  lemma {:induction false} RewriteKeepsNonSpace(rule: RunRule, s: string, prev: Option<char>)
    requires NonSpace(Replacement(rule)) == ""
    ensures NonSpace(Rewrite(rule, s, prev)) == NonSpace(s)
    decreases |s|
  {
    if s != [] {
      if !IsSpace(s[0]) {
        RewriteKeepsNonSpace(rule, s[1..], Some(s[0]));
        RewriteWordStep(rule, s, prev);
      } else {
        var rest := LStrip(s);
        RewriteKeepsNonSpace(rule, rest, Some(s[|s| - |rest| - 1]));
        RewriteRunStep(rule, s, prev);
      }
    }
  }

  /** The step of `RewriteKeepsNonSpace` at a non-whitespace character. */
  lemma RewriteWordStep(rule: RunRule, s: string, prev: Option<char>)
    requires s != [] && !IsSpace(s[0])
    requires NonSpace(Rewrite(rule, s[1..], Some(s[0]))) == NonSpace(s[1..])
    ensures NonSpace(Rewrite(rule, s, prev)) == NonSpace(s)
  {
    var tail := Rewrite(rule, s[1..], Some(s[0]));
    assert Rewrite(rule, s, prev) == [s[0]] + tail;
    NonSpaceAppend([s[0]], tail);
    assert s == [s[0]] + s[1..];
    NonSpaceAppend([s[0]], s[1..]);
  }

  /** The step of `RewriteKeepsNonSpace` at a whitespace run, whose replacement is blank. */
  lemma RewriteRunStep(rule: RunRule, s: string, prev: Option<char>)
    requires NonSpace(Replacement(rule)) == ""
    requires s != [] && IsSpace(s[0])
    requires var rest := LStrip(s);
             NonSpace(Rewrite(rule, rest, Some(s[|s| - |rest| - 1]))) == NonSpace(rest)
    ensures NonSpace(Rewrite(rule, s, prev)) == NonSpace(s)
  {
    var rest := LStrip(s);
    var k := |s| - |rest|;
    var run := s[..k];
    assert s == run + rest && NonSpace(run) == "" by {
      LStripMeaning(s);
      NonSpaceOfBlank(run);
    }
    var next := if rest == [] then None else Some(rest[0]);
    var chunk := if Applies(rule, prev, run, next) then Replacement(rule) else run;
    var tail := Rewrite(rule, rest, Some(s[k - 1]));
    assert Rewrite(rule, s, prev) == chunk + tail;
    NonSpaceAppend(chunk, tail);
    NonSpaceAppend(run, rest);
  }

  /** No occurrence of `c` is directly followed by whitespace. */
  predicate NoSpaceAfter(r: string, c: char) {
    forall i :: 0 <= i < |r| - 1 && r[i] == c ==> !IsSpace(r[i + 1])
  }

  /** No occurrence of `c` is directly preceded by whitespace. */
  predicate NoSpaceBefore(r: string, c: char) {
    forall i :: 0 <= i < |r| - 1 && r[i + 1] == c ==> !IsSpace(r[i])
  }

  /** A rewrite of a text that starts with a non-whitespace character starts with that character. */
  lemma RewriteHead(rule: RunRule, s: string, prev: Option<char>)
    requires s != [] && !IsSpace(s[0])
    ensures Rewrite(rule, s, prev) != [] && Rewrite(rule, s, prev)[0] == s[0]
  {
  }

  /** After `(?<=\()\s+` → '' no `(` is followed by whitespace. */
  lemma {:induction false} NoSpaceAfterOpenParen(s: string, prev: Option<char>)
    ensures prev == Some('(') && Rewrite(AfterOpenParen, s, prev) != [] ==> !IsSpace(Rewrite(AfterOpenParen, s, prev)[0])
    ensures NoSpaceAfter(Rewrite(AfterOpenParen, s, prev), '(')
    decreases |s|
  {
    var r := Rewrite(AfterOpenParen, s, prev);
    if s != [] {
      if !IsSpace(s[0]) {
        var tail := Rewrite(AfterOpenParen, s[1..], Some(s[0]));
        NoSpaceAfterOpenParen(s[1..], Some(s[0]));
        assert r == [s[0]] + tail;
        forall i | 0 <= i < |r| - 1 && r[i] == '(' ensures !IsSpace(r[i + 1]) {
          if i > 0 {
            assert r[i] == tail[i - 1] && r[i + 1] == tail[i];
          } else {
            assert r[1] == tail[0];
          }
        }
      } else {
        var rest := LStrip(s);
        LStripMeaning(s);
        var run := s[..|s| - |rest|];
        var last := Some(s[|s| - |rest| - 1]);
        var tail := Rewrite(AfterOpenParen, rest, last);
        NoSpaceAfterOpenParen(rest, last);
        if rest != [] {
          RewriteHead(AfterOpenParen, rest, last);
        }
        if prev == Some('(') {
          assert r == tail;
        } else {
          assert r == run + tail;
          forall i | 0 <= i < |r| - 1 && r[i] == '(' ensures !IsSpace(r[i + 1]) {
            if i >= |run| {
              assert r[i] == tail[i - |run|] && r[i + 1] == tail[i + 1 - |run|];
            }
          }
        }
      }
    }
  }

  /** After `\s+(?=\))` → '' no `)` is preceded by whitespace. */
  lemma {:induction false} NoSpaceBeforeCloseParen(s: string, prev: Option<char>)
    ensures NoSpaceBefore(Rewrite(BeforeCloseParen, s, prev), ')')
    decreases |s|
  {
    var r := Rewrite(BeforeCloseParen, s, prev);
    if s != [] {
      if !IsSpace(s[0]) {
        var tail := Rewrite(BeforeCloseParen, s[1..], Some(s[0]));
        NoSpaceBeforeCloseParen(s[1..], Some(s[0]));
        assert r == [s[0]] + tail;
        forall i | 0 <= i < |r| - 1 && r[i + 1] == ')' ensures !IsSpace(r[i]) {
          if i > 0 {
            assert r[i] == tail[i - 1] && r[i + 1] == tail[i];
          }
        }
      } else {
        var rest := LStrip(s);
        LStripMeaning(s);
        var run := s[..|s| - |rest|];
        var next := if rest == [] then None else Some(rest[0]);
        var last := Some(s[|s| - |rest| - 1]);
        var tail := Rewrite(BeforeCloseParen, rest, last);
        NoSpaceBeforeCloseParen(rest, last);
        if rest != [] {
          RewriteHead(BeforeCloseParen, rest, last);
        }
        if next != Some(')') {
          assert r == run + tail;
          forall i | 0 <= i < |r| - 1 && r[i + 1] == ')' ensures !IsSpace(r[i]) {
            if i >= |run| {
              assert r[i] == tail[i - |run|] && r[i + 1] == tail[i + 1 - |run|];
            }
          }
        }
      }
    }
  }

  /** The replacement `clean_code_text` writes for a whitespace run after a colon: `':\n    '`. */
  const ColonBreakAsWritten: string := ":\n    "

  /** The replacement that the comment "Fix indentation after colons" calls for, the colon being kept by the lookbehind. */
  const ColonBreakIntended: string := "\n    "

  /** The five substitutions of `clean_code_text`, with the given replacement for the colon rule. */
  function Prepass(text: string, colonBreak: string): string {
    Rewrite(ColonBreak(colonBreak), EarlySteps(text), None)
  }

  /** The four substitutions before the colon rule. */
  function EarlySteps(text: string): string {
    var t := CollapseSpaces(text, false);
    var t := Rewrite(LetterBeforeParen, t, None);
    var t := Rewrite(AfterOpenParen, t, None);
    Rewrite(BeforeCloseParen, t, None)
  }

  /** With the intended colon replacement the substitutions change only whitespace. */
  lemma PrepassKeepsNonSpace(text: string)
    ensures NonSpace(Prepass(text, ColonBreakIntended)) == NonSpace(text)
  {
    var t1 := CollapseSpaces(text, false);
    CollapseKeepsNonSpace(text, false);
    var t2 := Rewrite(LetterBeforeParen, t1, None);
    RewriteKeepsNonSpace(LetterBeforeParen, t1, None);
    var t3 := Rewrite(AfterOpenParen, t2, None);
    RewriteKeepsNonSpace(AfterOpenParen, t2, None);
    var t4 := Rewrite(BeforeCloseParen, t3, None);
    RewriteKeepsNonSpace(BeforeCloseParen, t3, None);
    assert t4 == EarlySteps(text);
    assert NonSpace(ColonBreakIntended) == "";
    RewriteKeepsNonSpace(ColonBreak(ColonBreakIntended), t4, None);
  }

  /** One line of the final loop: blank lines become "", others keep their leading-whitespace count as spaces. */
  function CleanLine(line: string): string {
    var content := Strip(line);
    if content != "" then RepeatChar(' ', |line| - |LStrip(line)|) + content else ""
  }

  /** Whitespace-only lines, and only those, become "". */
  lemma CleanLineBlank(line: string)
    ensures CleanLine(line) == "" <==> forall i :: 0 <= i < |line| ==> IsSpace(line[i])
  {
    StripEmptyIff(line);
  }

  /**
    A line with content loses its trailing whitespace, keeps its content as it
    is, and has its leading whitespace replaced by as many spaces.
   */
  lemma CleanLineShape(line: string) returns (k: nat, j: nat)
    requires Strip(line) != ""
    ensures k == |line| - |LStrip(line)| && j == k + |Strip(line)|
    ensures k < j == |CleanLine(line)| <= |line|
    ensures forall i :: 0 <= i < k ==> CleanLine(line)[i] == ' ' && IsSpace(line[i])
    ensures CleanLine(line)[k..] == line[k..j]
    ensures !IsSpace(line[j - 1])
    ensures forall i :: j <= i < |line| ==> IsSpace(line[i])
  {
    k, j := StripBounds(line);
    var c := Strip(line);
    StripEnds(line);
    assert line[j - 1] == c[|c| - 1];
    var pad := RepeatChar(' ', k);
    assert CleanLine(line) == pad + c;
    assert (pad + c)[k..] == c;
  }

  /** A line keeps its non-whitespace characters, and gains no newline. */
  lemma CleanLineKeeps(line: string)
    ensures NonSpace(CleanLine(line)) == NonSpace(line)
    ensures '\n' !in line ==> '\n' !in CleanLine(line)
  {
    var content := Strip(line);
    StripKeepsNonSpace(line);
    if content != "" {
      var pad := RepeatChar(' ', |line| - |LStrip(line)|);
      NonSpaceAppend(pad, content);
      NonSpaceOfBlank(pad);
      var i, j := StripIsSlice(line);
      if '\n' in CleanLine(line) {
        var m :| 0 <= m < |CleanLine(line)| && CleanLine(line)[m] == '\n';
        assert content[m - |pad|] == line[i + m - |pad|];
      }
    } else {
      StripEmptyIff(line);
      NonSpaceOfBlank(line);
    }
  }

  /** The final loop over the lines. */
  function CleanLines(lines: seq<string>): (r: seq<string>)
    ensures |r| == |lines|
  {
    seq(|lines|, k requires 0 <= k < |lines| => CleanLine(lines[k]))
  }

  /** `clean_code_text` with the given colon replacement. */
  function CleanedCodeWith(text: string, colonBreak: string): string {
    if text == "" then "" else Join(CleanLines(Split(Prepass(text, colonBreak), '\n')), "\n")
  }

  /** `clean_code_text` with the colon replacement corrected; the rest of the model uses this. */
  function CleanedCode(text: string): string {
    CleanedCodeWith(text, ColonBreakIntended)
  }

  /** `clean_code_text` as written. */
  function CleanedCodeAsWritten(text: string): string {
    CleanedCodeWith(text, ColonBreakAsWritten)
  }

  /** `clean_code_text`: the substitutions rebind `text` one by one, then the loop appends one cleaned line per line. */
  method CleanCodeText(text: string) returns (r: string)
    ensures r == CleanedCode(text)
  {
    if text == "" {
      return "";
    }
    var t := CollapseSpaces(text, false);
    t := Rewrite(LetterBeforeParen, t, None);
    t := Rewrite(AfterOpenParen, t, None);
    t := Rewrite(BeforeCloseParen, t, None);
    t := Rewrite(ColonBreak(ColonBreakIntended), t, None);
    var lines := Split(t, '\n');
    var cleaned: seq<string> := [];
    for i := 0 to |lines|
      invariant cleaned == CleanLines(lines[..i])
    {
      cleaned := cleaned + [CleanLine(lines[i])];
    }
    assert lines[..|lines|] == lines;
    r := Join(cleaned, "\n");
  }

  /** The output has exactly one line per line of the substituted text, each the cleaned version of it. */
  lemma CleanedCodeLines(text: string, colonBreak: string)
    requires text != ""
    ensures var lines := Split(Prepass(text, colonBreak), '\n');
            Split(CleanedCodeWith(text, colonBreak), '\n') == CleanLines(lines)
  {
    var lines := Split(Prepass(text, colonBreak), '\n');
    var cleaned := CleanLines(lines);
    forall k | 0 <= k < |cleaned| ensures '\n' !in cleaned[k] {
      CleanLineKeeps(lines[k]);
    }
    SplitJoin(cleaned, '\n');
  }

  /** Joined line lists whose lines agree on their non-whitespace characters agree on theirs. */
  lemma {:induction false} NonSpaceJoinCongruent(a: seq<string>, b: seq<string>)
    requires |a| == |b|
    requires forall k :: 0 <= k < |a| ==> NonSpace(a[k]) == NonSpace(b[k])
    ensures NonSpace(Join(a, "\n")) == NonSpace(Join(b, "\n"))
    decreases |a|
  {
    if |a| > 1 {
      NonSpaceJoinCongruent(a[1..], b[1..]);
      assert Join(a, "\n") == (a[0] + "\n") + Join(a[1..], "\n");
      assert Join(b, "\n") == (b[0] + "\n") + Join(b[1..], "\n");
      NonSpaceAppend(a[0] + "\n", Join(a[1..], "\n"));
      NonSpaceAppend(b[0] + "\n", Join(b[1..], "\n"));
      NonSpaceAppend(a[0], "\n");
      NonSpaceAppend(b[0], "\n");
    }
  }

  /** The line loop changes only whitespace. */
  lemma LineLoopKeepsNonSpace(p: string)
    ensures NonSpace(Join(CleanLines(Split(p, '\n')), "\n")) == NonSpace(p)
  {
    var lines := Split(p, '\n');
    forall k | 0 <= k < |lines| ensures NonSpace(CleanLines(lines)[k]) == NonSpace(lines[k]) {
      CleanLineKeeps(lines[k]);
    }
    NonSpaceJoinCongruent(CleanLines(lines), lines);
    JoinSplit(p, '\n');
  }

  /**
    The clean-up changes whitespace only: no character other than whitespace is
    removed, inserted or replaced, so the unused table of OCR replacements
    (O, l, |, §) is never applied.
   */
  lemma CleanedCodeKeepsNonSpace(text: string)
    ensures NonSpace(CleanedCode(text)) == NonSpace(text)
  {
    if text != "" {
      PrepassKeepsNonSpace(text);
      CleanedNonSpaceIsPrepass(text, ColonBreakIntended);
    }
  }

  /** Text without spaces is left alone by the space collapse. */
  lemma {:induction false} CollapseWithoutSpaces(s: string, afterSpace: bool)
    requires forall i :: 0 <= i < |s| ==> s[i] != ' '
    ensures CollapseSpaces(s, afterSpace) == s
    decreases |s|
  {
    if s != [] {
      CollapseWithoutSpaces(s[1..], false);
      assert s == [s[0]] + s[1..];
    }
  }

  /** A rewrite passes over a stretch without whitespace unchanged. */
  lemma {:induction false} RewriteOverWord(rule: RunRule, w: string, t: string, prev: Option<char>)
    requires forall i :: 0 <= i < |w| ==> !IsSpace(w[i])
    ensures Rewrite(rule, w + t, prev) == w + Rewrite(rule, t, if w == [] then prev else Some(w[|w| - 1]))
    decreases |w|
  {
    if w == [] {
      assert w + t == t;
    } else {
      RewriteOverWord(rule, w[1..], t, Some(w[0]));
      assert (if w[1..] == [] then Some(w[0]) else Some(w[1..][|w[1..]| - 1])) == Some(w[|w| - 1]);
      RewriteOverWordStep(rule, w, t, prev);
    }
  }

  /** The step of `RewriteOverWord`: the first character of the word is kept, then the rest of the word. */
  lemma RewriteOverWordStep(rule: RunRule, w: string, t: string, prev: Option<char>)
    requires w != [] && !IsSpace(w[0])
    requires Rewrite(rule, w[1..] + t, Some(w[0])) == w[1..] + Rewrite(rule, t, Some(w[|w| - 1]))
    ensures Rewrite(rule, w + t, prev) == w + Rewrite(rule, t, Some(w[|w| - 1]))
  {
    var s := w + t;
    var r := Rewrite(rule, t, Some(w[|w| - 1]));
    assert s[0] == w[0] && !IsSpace(s[0]);
    assert s[1..] == w[1..] + t;
    assert Rewrite(rule, s, prev) == [w[0]] + (w[1..] + r);
    Associate([w[0]], w[1..], r);
    assert w == [w[0]] + w[1..];
  }

  /** The run "\n" before a word is replaced when the rule matches it, and the word is kept. */
  lemma RewriteLineBreak(rule: RunRule, q: string, prev: Option<char>)
    requires q != [] && forall i :: 0 <= i < |q| ==> !IsSpace(q[i])
    ensures Rewrite(rule, "\n" + q, prev) == (if Applies(rule, prev, "\n", Some(q[0])) then Replacement(rule) else "\n") + q
  {
    var s := "\n" + q;
    assert s[1..] == q;
    assert LStrip(s) == q;
    assert s[..|s| - |q|] == "\n";
    RewriteOverWord(rule, q, [], Some('\n'));
    assert q + [] == q;
  }

  /** `p + ":"` followed by `"\n" + q`, split where the rewrite sees it. */
  lemma ColonBreakParts(p: string, q: string)
    requires forall i :: 0 <= i < |p| ==> !IsSpace(p[i])
    ensures var w := p + ":";
            && p + ":" + "\n" + q == w + ("\n" + q)
            && (forall i :: 0 <= i < |w| ==> !IsSpace(w[i]))
            && w[|w| - 1] == ':'
  {
    var w := p + ":";
    assert forall i :: 0 <= i < |p| ==> w[i] == p[i];
  }

  /** A rule over `p + ":\n" + q` passes over `p + ":"` unchanged. */
  lemma RewriteColonBreakHead(rule: RunRule, p: string, q: string)
    requires forall i :: 0 <= i < |p| ==> !IsSpace(p[i])
    ensures Rewrite(rule, p + ":" + "\n" + q, None) == p + ":" + Rewrite(rule, "\n" + q, Some(':'))
  {
    ColonBreakParts(p, q);
    RewriteOverWord(rule, p + ":", "\n" + q, None);
  }

  /** A rule over `p + ":\n" + q` deals with the one run "\n" only. */
  lemma RewriteColonBreak(rule: RunRule, p: string, q: string)
    requires forall i :: 0 <= i < |p| ==> !IsSpace(p[i])
    requires q != [] && forall i :: 0 <= i < |q| ==> !IsSpace(q[i])
    ensures Rewrite(rule, p + ":" + "\n" + q, None)
            == p + ":" + (if Applies(rule, Some(':'), "\n", Some(q[0])) then Replacement(rule) else "\n") + q
  {
    var w := p + ":";
    var x := if Applies(rule, Some(':'), "\n", Some(q[0])) then Replacement(rule) else "\n";
    RewriteColonBreakHead(rule, p, q);
    RewriteLineBreak(rule, q, Some(':'));
    Associate(w, x, q);
  }

  /** The steps before the colon rule leave `p + ":\n" + q` as it is. */
  lemma EarlyStepsKeepColonBreak(p: string, q: string)
    requires forall i :: 0 <= i < |p| ==> !IsSpace(p[i])
    requires q != [] && q[0] != ')' && forall i :: 0 <= i < |q| ==> !IsSpace(q[i])
    ensures EarlySteps(p + ":" + "\n" + q) == p + ":" + "\n" + q
  {
    var t := p + ":" + "\n" + q;
    assert forall i :: 0 <= i < |t| ==> t[i] != ' ' by {
      ColonBreakParts(p, q);
      var w := p + ":";
      forall i | 0 <= i < |t| ensures t[i] != ' ' {
        if i < |w| {
          assert t[i] == w[i];
        } else if i > |w| {
          assert t[i] == q[i - |w| - 1];
        }
      }
    }
    CollapseWithoutSpaces(t, false);
    RewriteColonBreak(LetterBeforeParen, p, q);
    RewriteColonBreak(AfterOpenParen, p, q);
    RewriteColonBreak(BeforeCloseParen, p, q);
  }

  /**
    A line break right after a colon, between two stretches without whitespace:
    the substitutions as written put a second colon in front of the break, the
    corrected ones only indent the next line.
   */
  lemma PrepassAtColonBreak(p: string, q: string)
    requires forall i :: 0 <= i < |p| ==> !IsSpace(p[i])
    requires q != [] && q[0] != ')' && forall i :: 0 <= i < |q| ==> !IsSpace(q[i])
    ensures Prepass(p + ":" + "\n" + q, ColonBreakAsWritten) == p + ":" + ColonBreakAsWritten + q
    ensures Prepass(p + ":" + "\n" + q, ColonBreakIntended) == p + ":" + ColonBreakIntended + q
  {
    EarlyStepsKeepColonBreak(p, q);
    assert '\n' in "\n";
    RewriteColonBreak(ColonBreak(ColonBreakAsWritten), p, q);
    RewriteColonBreak(ColonBreak(ColonBreakIntended), p, q);
  }

  lemma NonSpaceOfColonBreaks()
    ensures NonSpace(ColonBreakAsWritten) == ":"
    ensures NonSpace(ColonBreakIntended) == ""
    ensures NonSpace("\n") == ""
  {
    assert ColonBreakAsWritten == ":" + ColonBreakIntended;
    NonSpaceAppend(":", ColonBreakIntended);
    NonSpaceOfBlank(ColonBreakIntended);
  }

  /**
    As written, `clean_code_text` puts a second colon after every colon that
    ends a line, e.g. "x:\ny" comes out as "x::\n    y": it changes more than
    whitespace.
   */
  lemma CleanedCodeAsWrittenAddsColon(p: string, q: string, t: string)
    requires forall i :: 0 <= i < |p| ==> !IsSpace(p[i])
    requires q != [] && q[0] != ')' && forall i :: 0 <= i < |q| ==> !IsSpace(q[i])
    requires t == p + ":" + "\n" + q
    ensures NonSpace(t) == p + ":" + q
    ensures NonSpace(CleanedCodeAsWritten(t)) == p + ":" + ":" + q
  {
    var x := Prepass(t, ColonBreakAsWritten);
    assert x == p + ":" + ColonBreakAsWritten + q by {
      PrepassAtColonBreak(p, q);
    }
    assert NonSpace(CleanedCodeAsWritten(t)) == NonSpace(x) by {
      CleanedNonSpaceIsPrepass(t, ColonBreakAsWritten);
    }
    assert NonSpace(x) == p + ":" + ":" + q by {
      NonSpaceOfColonBreaks();
      NonSpaceAroundColon(p, ColonBreakAsWritten, q);
    }
    assert NonSpace(t) == p + ":" + q by {
      NonSpaceOfColonBreaks();
      NonSpaceAroundColon(p, "\n", q);
      assert p + ":" + "" + q == p + ":" + q;
    }
  }

  /** Only the substitutions can change non-whitespace characters: the line loop keeps them. */
  lemma CleanedNonSpaceIsPrepass(text: string, colonBreak: string)
    requires text != ""
    ensures NonSpace(CleanedCodeWith(text, colonBreak)) == NonSpace(Prepass(text, colonBreak))
  {
    LineLoopKeepsNonSpace(Prepass(text, colonBreak));
  }

  /** The non-whitespace characters of `p + ":" + mid + q`, for `p` and `q` without whitespace. */
  lemma NonSpaceAroundColon(p: string, mid: string, q: string)
    requires forall i :: 0 <= i < |p| ==> !IsSpace(p[i])
    requires forall i :: 0 <= i < |q| ==> !IsSpace(q[i])
    ensures NonSpace(p + ":" + mid + q) == p + ":" + NonSpace(mid) + q
  {
    NonSpaceOfWord(p);
    NonSpaceOfWord(q);
    NonSpaceOfWord(":");
    NonSpaceAppend(p + ":" + mid, q);
    NonSpaceAppend(p + ":", mid);
    NonSpaceAppend(p, ":");
  }

  /**
    `ocr_image` once the image opened: EasyOCR's pieces joined by spaces
    (or "" when it raised), Tesseract's text (or "" when it raised), the
    engine choice, then the clean-up with `colonBreak` put after a colon that
    ends a line (`ColonBreakAsWritten` is the source's `clean_code_text`,
    `ColonBreakIntended` the corrected one). A failure to open gives ("", "Error").
   */
  function OcrImage(colonBreak: string, loaded: bool, easyPieces: Option<seq<string>>, tessText: Option<string>): (r: (string, string))
    ensures r.1 in {"EasyOCR", "Tesseract", "Error"}
    ensures r.1 == "Error" <==> !loaded
    ensures !loaded ==> r.0 == ""
  {
    if !loaded then ("", "Error")
    else
      var easy := if easyPieces.Some? then Join(easyPieces.value, " ") else "";
      var chosen := ChooseEngine(easy, tessText.GetOr(""));
      (CleanedCodeWith(chosen.0, colonBreak), chosen.1)
  }

  /**
    With the corrected clean-up, the text `ocr_image` returns has exactly the
    non-whitespace characters of the engine output it names.
   */
  lemma OcrImageKeepsChosenText(loaded: bool, easyPieces: Option<seq<string>>, tessText: Option<string>)
    requires loaded
    ensures var r := OcrImage(ColonBreakIntended, loaded, easyPieces, tessText);
            var easy := if easyPieces.Some? then Join(easyPieces.value, " ") else "";
            && (r.1 == "EasyOCR" ==> NonSpace(r.0) == NonSpace(easy))
            && (r.1 == "Tesseract" ==> NonSpace(r.0) == NonSpace(tessText.GetOr("")))
  {
    var easy := if easyPieces.Some? then Join(easyPieces.value, " ") else "";
    var chosen := ChooseEngine(easy, tessText.GetOr(""));
    CleanedCodeKeepsNonSpace(chosen.0);
  }

  /**
    As written, `ocr_image` does not keep the engine's text: when EasyOCR
    raised and Tesseract read "x:\ny", the returned text carries a second
    colon that Tesseract never read.
   */
  lemma OcrImageAsWrittenAddsColon(p: string, q: string, t: string)
    requires forall i :: 0 <= i < |p| ==> !IsSpace(p[i])
    requires q != [] && q[0] != ')' && forall i :: 0 <= i < |q| ==> !IsSpace(q[i])
    requires t == p + ":" + "\n" + q
    ensures var r := OcrImage(ColonBreakAsWritten, true, None, Some(t));
            && r.1 == "Tesseract"
            && NonSpace(t) == p + ":" + q
            && NonSpace(r.0) == p + ":" + ":" + q
  {
    assert !IsCodeLike("") by {
      assert Strip("") == "";
    }
    assert ChooseEngine("", t) == (t, "Tesseract");
    CleanedCodeAsWrittenAddsColon(p, q, t);
  }
}
