/**
  Character classes and the few Python string operations the scripts rely on
  (`strip`, `lower`, `in`, `startswith`, `split`, `join`, `replace`, `str(n)`),
  stated over `seq<char>`.
 */
module Strings {

  /** Python's `str.isspace`: the characters `strip()`, `split()` and the regex `\s` treat as whitespace. */
  predicate IsSpace(c: char) {
    || ('\t' <= c <= '\r')
    || ('\U{1c}' <= c <= ' ')
    || c == '\U{85}' || c == '\U{a0}' || c == '\U{1680}'
    || ('\U{2000}' <= c <= '\U{200a}')
    || c == '\U{2028}' || c == '\U{2029}' || c == '\U{202f}' || c == '\U{205f}' || c == '\U{3000}'
  }

  predicate IsAsciiLetter(c: char) {
    ('a' <= c <= 'z') || ('A' <= c <= 'Z')
  }

  predicate IsDigit(c: char) {
    '0' <= c <= '9'
  }

  /** The regex class `\w`, restricted to ASCII. */
  predicate IsWordChar(c: char) {
    IsAsciiLetter(c) || IsDigit(c) || c == '_'
  }

  /** `str.lower()` on one character, restricted to ASCII. */
  function LowerChar(c: char): (r: char)
    ensures IsAsciiLetter(c) ==> 'a' <= r <= 'z'
    ensures !('A' <= c <= 'Z') ==> r == c
  {
    if 'A' <= c <= 'Z' then (c as int + 32) as char else c
  }

  function Lower(s: string): (r: string)
    ensures |r| == |s|
    ensures forall i :: 0 <= i < |s| ==> r[i] == LowerChar(s[i])
  {
    seq(|s|, i requires 0 <= i < |s| => LowerChar(s[i]))
  }

  predicate StartsWith(s: string, prefix: string) {
    |prefix| <= |s| && s[..|prefix|] == prefix
  }

  /** Python's `sub in s`. */
  predicate Contains(s: string, sub: string)
    decreases |s|
  {
    StartsWith(s, sub) || (|s| > 0 && Contains(s[1..], sub))
  }

  /** `sub` occurs at position `i` of `s`. */
  predicate OccursAt(s: string, sub: string, i: int) {
    0 <= i && i + |sub| <= |s| && s[i..i + |sub|] == sub
  }

  /** An occurrence at any position makes `sub in s` true. */
  lemma {:induction false} ContainsOccurrence(s: string, sub: string, i: int)
    requires OccursAt(s, sub, i)
    ensures Contains(s, sub)
    decreases i
  {
    if i == 0 {
      assert s[..|sub|] == s[0..|sub|];
    } else {
      assert s[1..][i - 1..i - 1 + |sub|] == s[i..i + |sub|];
      ContainsOccurrence(s[1..], sub, i - 1);
    }
  }

  /** `sub in s` holds only through an occurrence at some position. */
  lemma {:induction false} ContainsWitness(s: string, sub: string) returns (i: int)
    requires Contains(s, sub)
    ensures OccursAt(s, sub, i)
    decreases |s|
  {
    if StartsWith(s, sub) {
      i := 0;
    } else {
      var j := ContainsWitness(s[1..], sub);
      assert s[j + 1..j + 1 + |sub|] == s[1..][j..j + |sub|];
      i := j + 1;
    }
  }

  lemma ContainsIffOccurs(s: string, sub: string)
    ensures Contains(s, sub) <==> exists i :: OccursAt(s, sub, i)
  {
    if Contains(s, sub) {
      var i := ContainsWitness(s, sub);
    }
    forall i | OccursAt(s, sub, i) ensures Contains(s, sub) {
      ContainsOccurrence(s, sub, i);
    }
  }

  /** Every character of `sub` appears in any string that contains `sub`. */
  lemma ContainsChars(s: string, sub: string, k: int)
    requires Contains(s, sub) && 0 <= k < |sub|
    ensures sub[k] in s
  {
    var i := ContainsWitness(s, sub);
    assert s[i..i + |sub|][k] == s[i + k];
  }

  /** Lower-casing maps a character outside A-Z to itself and nothing else to it. */
  lemma LowerKeepsOthers(s: string, c: char)
    requires !('A' <= c <= 'Z') && !('a' <= c <= 'z')
    ensures c in Lower(s) <==> c in s
  {
    if c in Lower(s) {
      var i :| 0 <= i < |s| && Lower(s)[i] == c;
      assert LowerChar(s[i]) == c;
    }
    if c in s {
      var i :| 0 <= i < |s| && s[i] == c;
      assert Lower(s)[i] == c;
    }
  }

  /** `lstrip()`: the suffix of `s` left after its leading whitespace. */
  function LStrip(s: string): (r: string)
    ensures |r| <= |s|
    ensures r != [] ==> !IsSpace(r[0])
    decreases |s|
  {
    if s != [] && IsSpace(s[0]) then LStrip(s[1..]) else s
  }

  /** `lstrip()` drops exactly the leading whitespace: what it drops is blank and what it keeps starts with a non-space. */
  lemma {:induction false} LStripMeaning(s: string)
    ensures LStrip(s) == s[|s| - |LStrip(s)|..]
    ensures forall i :: 0 <= i < |s| - |LStrip(s)| ==> IsSpace(s[i])
    decreases |s|
  {
    if s != [] && IsSpace(s[0]) {
      LStripMeaning(s[1..]);
    }
  }

  /** `rstrip()`: the prefix of `s` left after its trailing whitespace. */
  function RStrip(s: string): (r: string)
    ensures |r| <= |s|
    ensures r != [] ==> !IsSpace(r[|r| - 1])
    decreases |s|
  {
    if s != [] && IsSpace(s[|s| - 1]) then RStrip(s[..|s| - 1]) else s
  }

  /** `rstrip()` drops exactly the trailing whitespace. */
  lemma {:induction false} RStripMeaning(s: string)
    ensures RStrip(s) == s[..|RStrip(s)|]
    ensures forall i :: |RStrip(s)| <= i < |s| ==> IsSpace(s[i])
    decreases |s|
  {
    if s != [] && IsSpace(s[|s| - 1]) {
      RStripMeaning(s[..|s| - 1]);
    }
  }

  /** `strip()`: `s` without leading and trailing whitespace. */
  function Strip(s: string): (r: string)
    ensures |r| <= |s|
  {
    RStrip(LStrip(s))
  }

  /** A stripped string neither starts nor ends with whitespace. */
  lemma StripEnds(s: string)
    ensures Strip(s) != [] ==> !IsSpace(Strip(s)[0]) && !IsSpace(Strip(s)[|Strip(s)| - 1])
  {
    var l := LStrip(s);
    LStripMeaning(s);
    RStripMeaning(l);
    if Strip(s) != [] {
      assert Strip(s)[0] == l[0];
    }
  }

  /** Whitespace-only strings (and only those) strip to "". */
  lemma {:induction false} StripEmptyIff(s: string)
    ensures Strip(s) == "" <==> forall i :: 0 <= i < |s| ==> IsSpace(s[i])
  {
    var l := LStrip(s);
    LStripMeaning(s);
    RStripMeaning(l);
    if Strip(s) == "" {
      assert l == [] by {
        if l != [] {
          assert false;
        }
      }
    } else {
      var r := Strip(s);
      assert r == l[..|r|];
      assert l[0] == s[|s| - |l|];
    }
  }

  /** The characters of `s` that are not whitespace, in order. */
  function NonSpace(s: string): (r: string)
    ensures |r| <= |s|
    ensures forall i :: 0 <= i < |r| ==> !IsSpace(r[i])
  {
    if s == [] then [] else (if IsSpace(s[0]) then [] else [s[0]]) + NonSpace(s[1..])
  }

  lemma {:induction false} NonSpaceAppend(a: string, b: string)
    ensures NonSpace(a + b) == NonSpace(a) + NonSpace(b)
    decreases |a|
  {
    if a == [] {
      assert a + b == b;
    } else {
      assert (a + b)[1..] == a[1..] + b;
      NonSpaceAppend(a[1..], b);
    }
  }

  lemma {:induction false} NonSpaceOfWord(s: string)
    requires forall i :: 0 <= i < |s| ==> !IsSpace(s[i])
    ensures NonSpace(s) == s
    decreases |s|
  {
    if s != [] {
      NonSpaceOfWord(s[1..]);
    }
  }

  lemma {:induction false} NonSpaceOfBlank(s: string)
    requires forall i :: 0 <= i < |s| ==> IsSpace(s[i])
    ensures NonSpace(s) == ""
    decreases |s|
  {
    if s != [] {
      NonSpaceOfBlank(s[1..]);
    }
  }

  lemma LStripKeepsNonSpace(s: string)
    ensures NonSpace(LStrip(s)) == NonSpace(s)
  {
    var l := LStrip(s);
    LStripMeaning(s);
    var k := |s| - |l|;
    var blank := s[..k];
    assert s == blank + l;
    assert forall i :: 0 <= i < |blank| ==> IsSpace(blank[i]);
    NonSpaceAppend(blank, l);
    NonSpaceOfBlank(blank);
  }

  lemma RStripKeepsNonSpace(s: string)
    ensures NonSpace(RStrip(s)) == NonSpace(s)
  {
    var r := RStrip(s);
    RStripMeaning(s);
    var blank := s[|r|..];
    assert s == r + blank;
    assert forall i :: 0 <= i < |blank| ==> IsSpace(blank[i]);
    NonSpaceAppend(r, blank);
    NonSpaceOfBlank(blank);
  }

  /** Stripping only removes whitespace. */
  lemma StripKeepsNonSpace(s: string)
    ensures NonSpace(Strip(s)) == NonSpace(s)
  {
    LStripKeepsNonSpace(s);
    RStripKeepsNonSpace(LStrip(s));
  }

  /** A text that does not strip to empty has a non-whitespace character. */
  lemma StripHasNonSpace(s: string)
    requires Strip(s) != ""
    ensures NonSpace(s) != ""
  {
    var t := Strip(s);
    StripEnds(s);
    StripKeepsNonSpace(s);
    assert t == [t[0]] + t[1..];
    NonSpaceAppend([t[0]], t[1..]);
  }

  /** `sep.join(parts)`. */
  function Join(parts: seq<string>, sep: string): (r: string)
    decreases |parts|
  {
    if |parts| == 0 then "" else if |parts| == 1 then parts[0] else parts[0] + sep + Join(parts[1..], sep)
  }

  /** `''.join(parts)`. */
  function Concat(parts: seq<string>): string
    decreases |parts|
  {
    if parts == [] then "" else parts[0] + Concat(parts[1..])
  }

  lemma {:induction false} ConcatAppend(a: seq<string>, b: seq<string>)
    ensures Concat(a + b) == Concat(a) + Concat(b)
    decreases |a|
  {
    if a == [] {
      assert a + b == b;
    } else {
      assert (a + b)[1..] == a[1..] + b;
      ConcatAppend(a[1..], b);
    }
  }

  /** `s.split(c)`: never empty, and no piece contains `c`. */
  function Split(s: string, c: char): (r: seq<string>)
    ensures |r| >= 1
    ensures forall k :: 0 <= k < |r| ==> c !in r[k]
    decreases |s|
  {
    if s == [] then [""]
    else if s[0] == c then [""] + Split(s[1..], c)
    else
      var rest := Split(s[1..], c);
      [[s[0]] + rest[0]] + rest[1..]
  }

  lemma {:induction false} SplitPrefix(a: string, c: char, b: string)
    requires c !in a
    ensures Split(a + b, c) == [a + Split(b, c)[0]] + Split(b, c)[1..]
    decreases |a|
  {
    if a != [] {
      assert (a + b)[1..] == a[1..] + b;
      SplitPrefix(a[1..], c, b);
      var r := Split(b, c);
      var rest := Split(a[1..] + b, c);
      assert a[0] in a;
      assert (a + b)[0] == a[0] != c;
      assert Split(a + b, c) == [[a[0]] + rest[0]] + rest[1..];
      assert [a[0]] + (a[1..] + r[0]) == a + r[0];
    } else {
      assert a + b == b;
      var r := Split(b, c);
      assert r == [r[0]] + r[1..];
      assert a + r[0] == r[0];
    }
  }

  /** `split` undoes `join` when no piece holds the separator. */
  lemma {:induction false} SplitJoin(parts: seq<string>, c: char)
    requires |parts| >= 1
    requires forall k :: 0 <= k < |parts| ==> c !in parts[k]
    ensures Split(Join(parts, [c]), c) == parts
    decreases |parts|
  {
    if |parts| == 1 {
      SplitPrefix(parts[0], c, "");
      assert parts[0] + "" == parts[0];
      assert parts == [parts[0]];
    } else {
      SplitJoin(parts[1..], c);
      var tail := Join(parts[1..], [c]);
      assert Join(parts, [c]) == parts[0] + ([c] + tail);
      var q := [c] + tail;
      SplitPrefix(parts[0], c, q);
      assert q[0] == c && q[1..] == tail;
      assert Split(q, c) == [""] + parts[1..];
      assert parts[0] + "" == parts[0];
      assert parts == [parts[0]] + parts[1..];
    }
  }

  /** `join` undoes `split`. */
  lemma {:induction false} JoinSplit(s: string, c: char)
    ensures Join(Split(s, c), [c]) == s
    decreases |s|
  {
    if s != [] {
      JoinSplit(s[1..], c);
      var rest := Split(s[1..], c);
      if s[0] != c {
        if |rest| == 1 {
          assert Join(rest, [c]) == rest[0];
        } else {
          assert Join(rest, [c]) == rest[0] + [c] + Join(rest[1..], [c]);
        }
      }
    }
  }

  /** `c * n`: `n` copies of the character `c` (none when `n <= 0`). */
  function RepeatChar(c: char, n: int): (r: string)
    ensures |r| == if n <= 0 then 0 else n
    ensures forall i :: 0 <= i < |r| ==> r[i] == c
    decreases n
  {
    if n <= 0 then "" else [c] + RepeatChar(c, n - 1)
  }

  function DigitChar(d: nat): (c: char)
    requires d < 10
    ensures IsDigit(c)
  {
    ['0', '1', '2', '3', '4', '5', '6', '7', '8', '9'][d]
  }

  function DigitValue(c: char): (d: nat)
    requires IsDigit(c)
    ensures d < 10
  {
    c as int - '0' as int
  }

  /** Python's `str(n)` (or an f-string) for a non-negative integer: its decimal digits. */
  function NatToString(n: nat): (r: string)
    ensures |r| >= 1
    ensures forall i :: 0 <= i < |r| ==> IsDigit(r[i])
    ensures r[0] == '0' ==> n == 0
  {
    if n < 10 then [DigitChar(n)] else NatToString(n / 10) + [DigitChar(n % 10)]
  }

  /** The value of a string of decimal digits. */
  function ParseDecimal(s: string): nat
    requires forall i :: 0 <= i < |s| ==> IsDigit(s[i])
    decreases |s|
  {
    if s == [] then 0 else 10 * ParseDecimal(s[..|s| - 1]) + DigitValue(s[|s| - 1])
  }

  /** The decimal rendering of a counter reads back as the same number. */
  lemma {:induction false} ParseNatToString(n: nat)
    ensures ParseDecimal(NatToString(n)) == n
  {
    if n >= 10 {
      ParseNatToString(n / 10);
      var r := NatToString(n);
      assert r[..|r| - 1] == NatToString(n / 10);
    }
  }

  /** `s.replace(pat, rep)`: leftmost, non-overlapping occurrences. */
  function ReplaceAll(s: string, pat: string, rep: string): string
    requires |pat| > 0
    decreases |s|
  {
    if |s| < |pat| then s
    else if s[..|pat|] == pat then rep + ReplaceAll(s[|pat|..], pat, rep)
    else [s[0]] + ReplaceAll(s[1..], pat, rep)
  }

  /** Replacing a one-character pattern leaves only characters of `rep` and characters of `s` other than the pattern. */
  lemma {:induction false} ReplaceCharMembership(s: string, p: char, rep: string, x: char)
    requires x in ReplaceAll(s, [p], rep)
    ensures x in rep || (x in s && x != p)
    decreases |s|
  {
    if |s| >= 1 {
      var rest := ReplaceAll(s[1..], [p], rep);
      if s[..1] == [p] {
        assert ReplaceAll(s, [p], rep) == rep + rest;
        if x !in rep {
          ReplaceCharMembership(s[1..], p, rep, x);
        }
      } else {
        assert ReplaceAll(s, [p], rep) == [s[0]] + rest;
        assert s[0] != p;
        if x != s[0] {
          ReplaceCharMembership(s[1..], p, rep, x);
        }
      }
    }
  }

  /** An occurrence inside a slice is an occurrence in the whole string. */
  lemma ContainsInSlice(s: string, i: int, j: int, sub: string)
    requires 0 <= i <= j <= |s|
    requires Contains(s[i..j], sub)
    ensures Contains(s, sub)
  {
    var k := ContainsWitness(s[i..j], sub);
    var t := s[i..j];
    forall m | 0 <= m < |sub| ensures s[i + k + m] == sub[m] {
      assert t[k..k + |sub|][m] == t[k + m];
    }
    assert s[i + k..i + k + |sub|] == sub;
    ContainsOccurrence(s, sub, i + k);
  }

  /** `strip()` returns a contiguous slice of its input. */
  lemma StripIsSlice(s: string) returns (i: int, j: int)
    ensures 0 <= i <= j <= |s| && Strip(s) == s[i..j]
  {
    var l := LStrip(s);
    var r := RStrip(l);
    LStripMeaning(s);
    RStripMeaning(l);
    i := |s| - |l|;
    j := i + |r|;
    assert s[i..j] == s[i..][..|r|];
  }

  /** `strip()` keeps `s[k..j]`: everything before `k` and from `j` on is whitespace. */
  lemma StripBounds(s: string) returns (k: nat, j: nat)
    ensures k == |s| - |LStrip(s)| && j == k + |Strip(s)| <= |s|
    ensures Strip(s) == s[k..j]
    ensures forall i :: 0 <= i < k ==> IsSpace(s[i])
    ensures forall i :: j <= i < |s| ==> IsSpace(s[i])
  {
    var l := LStrip(s);
    var r := RStrip(l);
    LStripMeaning(s);
    RStripMeaning(l);
    k := |s| - |l|;
    j := k + |r|;
    assert s[k..j] == s[k..][..|r|];
    forall i | j <= i < |s| ensures IsSpace(s[i]) {
      assert s[i] == l[i - k];
    }
  }

  /** The number of leading characters of `s` that are not whitespace. */
  function WordLength(s: string): (k: nat)
    ensures k <= |s|
    ensures forall i :: 0 <= i < k ==> !IsSpace(s[i])
    ensures k < |s| ==> IsSpace(s[k])
    decreases |s|
  {
    if s == [] || IsSpace(s[0]) then 0 else 1 + WordLength(s[1..])
  }

  /** A non-empty string without whitespace. */
  predicate IsWord(w: string) {
    w != "" && forall i :: 0 <= i < |w| ==> !IsSpace(w[i])
  }

  /** Python's `s.split()` with no argument: the maximal runs of non-whitespace. */
  function Words(s: string): (ws: seq<string>)
    ensures forall k :: 0 <= k < |ws| ==> IsWord(ws[k])
    decreases |s|
  {
    var t := LStrip(s);
    if t == [] then [] else
      var k := WordLength(t);
      [t[..k]] + Words(t[k..])
  }

  lemma {:induction false} NonSpaceWordPrefix(t: string)
    ensures NonSpace(t) == t[..WordLength(t)] + NonSpace(t[WordLength(t)..])
    decreases |t|
  {
    if t != [] && !IsSpace(t[0]) {
      NonSpaceWordPrefix(t[1..]);
      var k := WordLength(t);
      assert t[1..][..k - 1] == t[1..k];
      assert t[1..][k - 1..] == t[k..];
      assert [t[0]] + t[1..k] == t[..k];
    }
  }

  lemma WordsUnfold(s: string)
    requires LStrip(s) != []
    ensures 0 < WordLength(LStrip(s))
    ensures Words(s) == [LStrip(s)[..WordLength(LStrip(s))]] + Words(LStrip(s)[WordLength(LStrip(s))..])
  {
  }

  /** The words of `s` are its non-whitespace characters, cut into pieces. */
  lemma {:induction false} WordsConcat(s: string)
    ensures Concat(Words(s)) == NonSpace(s)
    decreases |s|
  {
    var t := LStrip(s);
    LStripKeepsNonSpace(s);
    if t != [] {
      WordsUnfold(s);
      var k := WordLength(t);
      var w, rest := t[..k], t[k..];
      WordsConcat(rest);
      assert Concat(Words(s)) == w + Concat(Words(rest)) by {
        assert ([w] + Words(rest))[1..] == Words(rest);
      }
      NonSpaceWordPrefix(t);
    } else {
      assert Words(s) == [];
    }
  }

  /** `' '.join(line.split())`: whitespace runs collapsed to one space, ends trimmed. */
  function NormalizeSpaces(s: string): string {
    Join(Words(s), " ")
  }

  /** No whitespace at either end, no two whitespace characters in a row, and the only whitespace is ' '. */
  predicate SingleSpaced(r: string) {
    && (r != [] ==> !IsSpace(r[0]) && !IsSpace(r[|r| - 1]))
    && (forall i :: 0 <= i < |r| && IsSpace(r[i]) ==> r[i] == ' ')
    && (forall i :: 0 <= i < |r| - 1 ==> !(IsSpace(r[i]) && IsSpace(r[i + 1])))
  }

  lemma {:induction false} JoinWordsSingleSpaced(ws: seq<string>)
    requires forall k :: 0 <= k < |ws| ==> IsWord(ws[k])
    ensures SingleSpaced(Join(ws, " "))
    ensures NonSpace(Join(ws, " ")) == Concat(ws)
    decreases |ws|
  {
    if |ws| == 1 {
      NonSpaceOfWord(ws[0]);
      assert Concat(ws) == ws[0] + Concat([]);
    } else if |ws| > 1 {
      JoinWordsSingleSpaced(ws[1..]);
      var w, rest := ws[0], Join(ws[1..], " ");
      var r := Join(ws, " ");
      assert r == w + " " + rest;
      assert rest != [] by {
        if |ws[1..]| == 1 { } else { assert rest == ws[1] + " " + Join(ws[2..], " "); }
      }
      forall i | 0 <= i < |r| - 1 ensures !(IsSpace(r[i]) && IsSpace(r[i + 1])) {
        if i < |w| - 1 {
        } else if i == |w| - 1 {
        } else if i == |w| {
          assert r[i + 1] == rest[0];
        } else {
          assert r[i] == rest[i - |w| - 1] && r[i + 1] == rest[i - |w|];
        }
      }
      forall i | 0 <= i < |r| && IsSpace(r[i]) ensures r[i] == ' ' {
        if i > |w| {
          assert r[i] == rest[i - |w| - 1];
        }
      }
      assert r[|r| - 1] == rest[|rest| - 1];
      NonSpaceAppend(w + " ", rest);
      NonSpaceAppend(w, " ");
      NonSpaceOfWord(w);
    }
  }

  /** `' '.join(line.split())` is single-spaced and keeps every non-whitespace character in order. */
  lemma NormalizeSpacesMeaning(s: string)
    ensures SingleSpaced(NormalizeSpaces(s))
    ensures NonSpace(NormalizeSpaces(s)) == NonSpace(s)
  {
    JoinWordsSingleSpaced(Words(s));
    WordsConcat(s);
  }

  /** Regrouping a concatenation of three strings, for proofs where the solver does not find it. */
  lemma Associate(a: string, b: string, c: string)
    ensures (a + b) + c == a + (b + c)
  {
  }
}
