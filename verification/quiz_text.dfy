/** The string operations the quiz parser uses, at the level of JavaScript's `split`, `trim`, `includes` and the
    two marker expressions `/\[(\d+)\] (.+)$/` and `/([A-Za-z])\) (.+)$/`. */
module QuizText {
  import opened Wrappers

  /** Characters `.` does not match. */
  predicate IsTerminator(c: char) {
    c == '\n' || c == '\r' || c == '\U{2028}' || c == '\U{2029}'
  }

  /** Characters `trim` removes. */
  predicate IsSpace(c: char) {
    || IsTerminator(c) || c == ' ' || c == '\t' || c == '\U{B}' || c == '\U{C}' || c == '\U{A0}' || c == '\U{FEFF}'
    || c == '\U{1680}' || '\U{2000}' <= c <= '\U{200A}' || c == '\U{202F}' || c == '\U{205F}' || c == '\U{3000}'
  }

  predicate IsDigit(c: char) { '0' <= c <= '9' }

  predicate IsLetter(c: char) { 'a' <= c <= 'z' || 'A' <= c <= 'Z' }

  predicate OneLine(s: string) {
    forall i :: 0 <= i < |s| ==> !IsTerminator(s[i])
  }

  // ---------- split and join ----------

  predicate NoBreak(s: string) {
    forall i :: 0 <= i < |s| ==> s[i] != '\n'
  }

  /** Position of the first line break from `i` on, or the length. */
  function BreakFrom(s: string, i: nat): (j: nat)
    requires i <= |s|
    ensures i <= j <= |s| && (j < |s| ==> s[j] == '\n')
    ensures forall k :: i <= k < j ==> s[k] != '\n'
    decreases |s| - i
  {
    if i == |s| || s[i] == '\n' then i else BreakFrom(s, i + 1)
  }

  /** The lines between the line breaks. */
  function SplitLines(text: string): (lines: seq<string>)
    ensures lines != []
    decreases |text|
  {
    var j := BreakFrom(text, 0);
    if j == |text| then [text] else [text[..j]] + SplitLines(text[j + 1..])
  }

  function JoinLines(lines: seq<string>): string {
    if lines == [] then "" else if |lines| == 1 then lines[0] else lines[0] + "\n" + JoinLines(lines[1..])
  }

  lemma {:induction false} SplitUndoesJoin(lines: seq<string>)
    requires lines != [] && forall line :: line in lines ==> NoBreak(line)
    ensures SplitLines(JoinLines(lines)) == lines
  {
    var text := JoinLines(lines);
    assert lines[0] in lines;
    if |lines| > 1 {
      var rest := JoinLines(lines[1..]);
      assert text == lines[0] + ("\n" + rest);
      assert text[|lines[0]|] == '\n';
      assert forall k :: 0 <= k < |lines[0]| ==> text[k] == lines[0][k];
      assert BreakFrom(text, 0) == |lines[0]|;
      assert text[..|lines[0]|] == lines[0] && text[|lines[0]| + 1..] == rest;
      assert forall line :: line in lines[1..] ==> line in lines;
      SplitUndoesJoin(lines[1..]);
    }
  }

  // ---------- trim ----------

  /** First position from `i` on that `trim` keeps, or the length. */
  function InkFrom(s: string, i: nat): (j: nat)
    requires i <= |s|
    ensures i <= j <= |s| && (j < |s| ==> !IsSpace(s[j]))
    ensures forall k :: i <= k < j ==> IsSpace(s[k])
    decreases |s| - i
  {
    if i == |s| || !IsSpace(s[i]) then i else InkFrom(s, i + 1)
  }

  /** End of the last stretch `trim` keeps among the first `n` characters, or 0. */
  function InkUpTo(s: string, n: nat): (e: nat)
    requires n <= |s|
    ensures e <= n && (0 < e ==> !IsSpace(s[e - 1]))
    ensures forall k :: e <= k < n ==> IsSpace(s[k])
  {
    if n == 0 || !IsSpace(s[n - 1]) then n else InkUpTo(s, n - 1)
  }

  function Trim(s: string): (t: string) {
    var from, end := InkFrom(s, 0), InkUpTo(s, |s|);
    if from == |s| then "" else s[from..end]
  }

  /** A character `trim` keeps lies between the two ends. */
  lemma VisibleInside(s: string, i: nat)
    requires i < |s| && !IsSpace(s[i])
    ensures InkFrom(s, 0) <= i < InkUpTo(s, |s|)
  {
  }

  /** `trim` finds the stretch between the first and the last kept character. */
  lemma TrimIs(s: string, from: nat, end: nat)
    requires from < end <= |s| && !IsSpace(s[from]) && !IsSpace(s[end - 1])
    requires forall k :: 0 <= k < from || end <= k < |s| ==> IsSpace(s[k])
    ensures Trim(s) == s[from..end]
  {
    assert InkFrom(s, 0) == from;
    assert InkUpTo(s, |s|) == end;
  }

  lemma TrimFirst(s: string, i: nat)
    requires i < |s| && !IsSpace(s[i]) && forall k :: 0 <= k < i ==> IsSpace(s[k])
    ensures Trim(s) != "" && Trim(s)[0] == s[i]
  {
    VisibleInside(s, i);
    assert InkFrom(s, 0) == i;
  }

  // ---------- the two marker expressions ----------

  function DigitsEnd(s: string, i: nat): (j: nat)
    requires i <= |s|
    ensures i <= j <= |s| && (j < |s| ==> !IsDigit(s[j]))
    ensures forall k :: i <= k < j ==> IsDigit(s[k])
    decreases |s| - i
  {
    if i == |s| || !IsDigit(s[i]) then i else DigitsEnd(s, i + 1)
  }

  lemma {:induction false} DigitsEndIs(s: string, i: nat, e: nat)
    requires i <= e <= |s| && (e < |s| ==> !IsDigit(s[e]))
    requires forall k :: i <= k < e ==> IsDigit(s[k])
    ensures DigitsEnd(s, i) == e
    decreases e - i
  {
    if i < e {
      DigitsEndIs(s, i + 1, e);
    }
  }

  /** Where the text starts after "[digits] " at position `i`. */
  function QuestionMarker(s: string, i: nat): (e: Option<nat>)
    requires i < |s|
    ensures e.Some? ==> i < e.value <= |s| && s[i] == '['
  {
    var j := DigitsEnd(s, i + 1);
    if s[i] == '[' && i + 1 < j && j + 1 < |s| && s[j] == ']' && s[j + 1] == ' ' then Some(j + 2) else None
  }

  /** Where the text starts after "letter) " at position `i`. */
  function AnswerMarker(s: string, i: nat): (e: Option<nat>)
    requires i < |s|
    ensures e.Some? ==> i < e.value <= |s| && IsLetter(s[i])
  {
    if i + 2 < |s| && IsLetter(s[i]) && s[i + 1] == ')' && s[i + 2] == ' ' then Some(i + 3) else None
  }

  /** The tail `(.+)$` accepts: something, and no line terminator. */
  predicate Captures(s: string, from: nat)
    requires from <= |s|
  {
    from < |s| && OneLine(s[from..])
  }

  /** The capture of the leftmost match from `i` on. */
  function QuestionFrom(s: string, i: nat): Option<string>
    requires i <= |s|
    decreases |s| - i
  {
    if i == |s| then None
    else
      var e := QuestionMarker(s, i);
      if e.Some? && Captures(s, e.value) then Some(s[e.value..]) else QuestionFrom(s, i + 1)
  }

  function AnswerFrom(s: string, i: nat): Option<string>
    requires i <= |s|
    decreases |s| - i
  {
    if i == |s| then None
    else
      var e := AnswerMarker(s, i);
      if e.Some? && Captures(s, e.value) then Some(s[e.value..]) else AnswerFrom(s, i + 1)
  }

  function QuestionText(line: string): Option<string> { QuestionFrom(line, 0) }

  function AnswerText(line: string): Option<string> { AnswerFrom(line, 0) }

  /** The line holds the correct-answer key, "=>". */
  predicate HasKey(line: string) {
    exists i :: 0 <= i < |line| - 1 && line[i] == '=' && line[i + 1] == '>'
  }

  /** First UTF-16 unit of `toLowerCase` as far as it can reach a letter: ASCII capitals, the Kelvin sign and the
      dotted capital I. */
  function LowerCode(c: char): int {
    if 'A' <= c <= 'Z' then c as int + 32
    else if c == '\U{212A}' then 'k' as int
    else if c == '\U{130}' then 'i' as int
    else c as int
  }

  /** The distance of the first letter, in lower case, from "a"; `None` for an empty string. */
  function LetterIndex(s: string): Option<int> {
    if s == "" then None else Some(LowerCode(s[0]) - 97)
  }

  /** The key letter of a trimmed line: the first visible character after the two characters of the key sign. */
  function KeyIndex(line: string): Option<int> {
    var t := Trim(line);
    LetterIndex(Trim(if |t| <= 2 then "" else t[2..]))
  }

  /** The key of a line is read at the first visible character from its third visible position on. */
  lemma KeyReadsAt(line: string, at: nat, i: nat)
    requires at + 2 <= i < |line| && !IsSpace(line[at]) && !IsSpace(line[i])
    requires forall k :: 0 <= k < at || at + 2 <= k < i ==> IsSpace(line[k])
    ensures Trim(line) != "" && KeyIndex(line) == Some(LowerCode(line[i]) - 97)
  {
    VisibleInside(line, at);
    VisibleInside(line, i);
    var end := InkUpTo(line, |line|);
    TrimIs(line, at, end);
    var u := line[at + 2..end];
    assert Trim(line)[2..] == u;
    TrimFirst(u, i - at - 2);
  }

  /** The key marks answer `k` exactly when that character is at distance `k` from "a", or from "A" for a letter; two
      more characters have an ASCII letter as their lower case. */
  lemma KeyLetterIff(line: string, at: nat, i: nat, k: nat)
    requires at + 2 <= i < |line| && !IsSpace(line[at]) && !IsSpace(line[i])
    requires forall j :: 0 <= j < at || at + 2 <= j < i ==> IsSpace(line[j])
    ensures KeyIndex(line) == Some(k) <==>
            || (line[i] as int == 'a' as int + k && line[i] !in {'\U{130}', '\U{212A}'})
            || (line[i] as int == 'A' as int + k && k < 26)
            || (line[i] == '\U{130}' && k == 8) || (line[i] == '\U{212A}' && k == 10)
  {
    KeyReadsAt(line, at, i);
  }

  /** A key sign with nothing visible after it marks no answer. */
  lemma BareKeyMarksNothing(line: string, at: nat)
    requires at < |line| && !IsSpace(line[at])
    requires forall j :: 0 <= j < at || at + 2 <= j < |line| ==> IsSpace(line[j])
    ensures Trim(line) != "" && KeyIndex(line) == None
  {
    VisibleInside(line, at);
    var end := InkUpTo(line, |line|);
    TrimIs(line, at, end);
    assert end <= at + 2;
  }

  // ---------- what the expressions match ----------

  const BLANKS := "\t\n\U{B}\U{C}\r \U{A0}\U{1680}\U{2028}\U{2029}\U{202F}\U{205F}\U{3000}\U{FEFF}"

  /** A line is blank to `trim` exactly when it holds nothing but the white space of ECMAScript. */
  lemma BlankIff(line: string)
    ensures Trim(line) == "" <==>
            forall i :: 0 <= i < |line| ==> line[i] in BLANKS || '\U{2000}' <= line[i] <= '\U{200A}'
  {
    forall i | 0 <= i < |line|
      ensures IsSpace(line[i]) <==> line[i] in BLANKS || '\U{2000}' <= line[i] <= '\U{200A}'
    {
      BlankChar(line[i]);
    }
    if exists i :: 0 <= i < |line| && !IsSpace(line[i]) {
      var i :| 0 <= i < |line| && !IsSpace(line[i]);
      VisibleInside(line, i);
    }
  }

  lemma BlankChar(c: char)
    ensures IsSpace(c) <==> c in BLANKS || '\U{2000}' <= c <= '\U{200A}'
  {
    assert BLANKS[0] == '\t' && BLANKS[1] == '\n' && BLANKS[2] == '\U{B}' && BLANKS[3] == '\U{C}' && BLANKS[4] == '\r';
    assert BLANKS[5] == ' ' && BLANKS[6] == '\U{A0}' && BLANKS[7] == '\U{1680}' && BLANKS[8] == '\U{2028}';
    assert BLANKS[9] == '\U{2029}' && BLANKS[10] == '\U{202F}' && BLANKS[11] == '\U{205F}';
    assert BLANKS[12] == '\U{3000}' && BLANKS[13] == '\U{FEFF}';
  }

  /** From position `j` on there is something, and no character `.` refuses. */
  ghost predicate Tail(s: string, j: int) {
    0 <= j < |s| && forall k :: j <= k < |s| ==> s[k] !in {'\n', '\r', '\U{2028}', '\U{2029}'}
  }

  /** `\[(\d+)\] (.+)$` matches at `i`, with "]" at `j`. */
  ghost predicate QuestionAt(s: string, i: int, j: int) {
    && 0 <= i && i + 1 < j < |s| && s[i] == '[' && (forall k :: i < k < j ==> '0' <= s[k] <= '9')
    && s[j] == ']' && Tail(s, j + 2) && s[j + 1] == ' '
  }

  /** `([A-Za-z])\) (.+)$` matches at `i`. */
  ghost predicate AnswerAt(s: string, i: int) {
    0 <= i && Tail(s, i + 3) && ('A' <= s[i] <= 'Z' || 'a' <= s[i] <= 'z') && s[i + 1] == ')' && s[i + 2] == ' '
  }

  lemma CapturesIff(s: string, j: nat)
    requires j <= |s|
    ensures Captures(s, j) <==> Tail(s, j)
  {
    assert forall k :: j <= k < |s| ==> s[k] == s[j..][k - j];
  }

  lemma QuestionHere(s: string, i: nat)
    requires i < |s|
    ensures var e := QuestionMarker(s, i); e.Some? && Captures(s, e.value) ==> QuestionAt(s, i, e.value - 2)
    ensures forall j :: QuestionAt(s, i, j) ==> QuestionMarker(s, i) == Some(j + 2) && Captures(s, j + 2)
  {
    var e := QuestionMarker(s, i);
    if e.Some? {
      CapturesIff(s, e.value);
    }
    forall j | QuestionAt(s, i, j) ensures QuestionMarker(s, i) == Some(j + 2) && Captures(s, j + 2) {
      DigitsEndIs(s, i + 1, j);
      CapturesIff(s, j + 2);
    }
  }

  /** No match starts between `i` and `h`. */
  ghost predicate NoQuestionIn(s: string, i: int, h: int) {
    forall h', j' :: i <= h' < h ==> !QuestionAt(s, h', j')
  }

  /** The leftmost match from `i` on, or `None` exactly when there is none. */
  lemma {:induction false} QuestionFromIs(s: string, i: nat) returns (h: nat, j: nat)
    requires i <= |s|
    ensures i <= h <= |s| && NoQuestionIn(s, i, h)
    ensures QuestionFrom(s, i).None? <==> h == |s|
    ensures h < |s| ==> QuestionAt(s, h, j) && QuestionFrom(s, i) == Some(s[j + 2..])
    decreases |s| - i
  {
    h, j := i, i;
    if i < |s| {
      QuestionHere(s, i);
      var e := QuestionMarker(s, i);
      if e.Some? && Captures(s, e.value) {
        j := e.value - 2;
      } else {
        h, j := QuestionFromIs(s, i + 1);
      }
    }
  }

  /** The question text is what the leftmost match captures; there is none exactly when nothing matches. */
  lemma QuestionTextIff(line: string)
    ensures QuestionText(line).None? <==> forall i, j :: !QuestionAt(line, i, j)
    ensures QuestionText(line).Some? ==>
              exists i, j :: && QuestionAt(line, i, j) && QuestionText(line).value == line[j + 2..]
                             && forall i', j' :: QuestionAt(line, i', j') ==> i <= i'
  {
    var h, k := QuestionFromIs(line, 0);
    if h == |line| {
      assert forall i, j :: !QuestionAt(line, i, j);
    } else {
      assert QuestionAt(line, h, k) && forall i', j' :: QuestionAt(line, i', j') ==> h <= i';
    }
  }

  lemma AnswerHere(s: string, i: nat)
    requires i < |s|
    ensures var e := AnswerMarker(s, i);
            (e.Some? && Captures(s, e.value) <==> AnswerAt(s, i)) && (e.Some? ==> e.value == i + 3)
  {
    if i + 3 <= |s| {
      CapturesIff(s, i + 3);
    }
  }

  lemma {:induction false} AnswerFromIs(s: string, i: nat) returns (h: nat)
    requires i <= |s|
    ensures i <= h <= |s| && forall h' :: i <= h' < h ==> !AnswerAt(s, h')
    ensures AnswerFrom(s, i).None? <==> h == |s|
    ensures h < |s| ==> AnswerAt(s, h) && AnswerFrom(s, i) == Some(s[h + 3..])
    decreases |s| - i
  {
    h := i;
    if i < |s| {
      AnswerHere(s, i);
      if !AnswerAt(s, i) {
        h := AnswerFromIs(s, i + 1);
      }
    }
  }

  /** The answer text is what the leftmost match captures; there is none exactly when nothing matches. */
  lemma AnswerTextIff(line: string)
    ensures AnswerText(line).None? <==> forall i :: !AnswerAt(line, i)
    ensures AnswerText(line).Some? ==>
              exists i :: && AnswerAt(line, i) && AnswerText(line).value == line[i + 3..]
                          && forall i' :: AnswerAt(line, i') ==> i <= i'
  {
    var h := AnswerFromIs(line, 0);
    if h < |line| {
      assert AnswerAt(line, h) && forall i' :: AnswerAt(line, i') ==> h <= i';
    }
  }

  lemma HasKeyIff(line: string)
    ensures HasKey(line) <==> exists i :: 0 <= i <= |line| && "=>" <= line[i..]
  {
    if exists i :: 0 <= i <= |line| && "=>" <= line[i..] {
      var i :| 0 <= i <= |line| && "=>" <= line[i..];
      assert line[i..][0] == '=' && line[i..][1] == '>';
    }
    if HasKey(line) {
      var i :| 0 <= i < |line| - 1 && line[i] == '=' && line[i + 1] == '>';
      assert "=>" <= line[i..];
    }
  }

  // ---------- shifting past a prefix without markers ----------

  lemma {:induction false} DigitsShift(pre: string, s: string, i: nat)
    requires i <= |s|
    ensures DigitsEnd(pre + s, |pre| + i) == |pre| + DigitsEnd(s, i)
    decreases |s| - i
  {
    if i < |s| {
      assert (pre + s)[|pre| + i] == s[i];
      DigitsShift(pre, s, i + 1);
    }
  }

  lemma MarkerShift(pre: string, s: string, i: nat)
    requires i < |s|
    ensures QuestionMarker(pre + s, |pre| + i) ==
            if QuestionMarker(s, i).Some? then Some(|pre| + QuestionMarker(s, i).value) else None
  {
    var line, j := pre + s, DigitsEnd(s, i + 1);
    DigitsShift(pre, s, i + 1);
    assert line[|pre| + i] == s[i];
    assert j < |s| ==> line[|pre| + j] == s[j];
    assert j + 1 < |s| ==> line[|pre| + j + 1] == s[j + 1];
  }

  lemma SuffixShift(pre: string, s: string, j: nat)
    requires j <= |s|
    ensures (pre + s)[|pre| + j..] == s[j..]
    ensures Captures(pre + s, |pre| + j) == Captures(s, j)
  {
    assert (pre + s)[|pre| + j..] == s[j..];
  }

  lemma {:induction false} QuestionShift(pre: string, s: string, i: nat)
    requires i <= |s|
    ensures QuestionFrom(pre + s, |pre| + i) == QuestionFrom(s, i)
    decreases |s| - i
  {
    if i < |s| {
      MarkerShift(pre, s, i);
      var e := QuestionMarker(s, i);
      if e.Some? {
        SuffixShift(pre, s, e.value);
      }
      QuestionShift(pre, s, i + 1);
    }
  }

  lemma {:induction false} AnswerShift(pre: string, s: string, i: nat)
    requires i <= |s|
    ensures AnswerFrom(pre + s, |pre| + i) == AnswerFrom(s, i)
    decreases |s| - i
  {
    var line := pre + s;
    if i < |s| {
      assert forall k :: 0 <= k < |s| ==> line[|pre| + k] == s[k];
      assert forall k :: 0 <= k <= |s| ==> line[|pre| + k..] == s[k..];
      AnswerShift(pre, s, i + 1);
    }
  }

  /** A prefix without "[" adds no question. */
  lemma PrefixedQuestion(pre: string, s: string)
    requires forall k :: 0 <= k < |pre| ==> pre[k] != '['
    ensures QuestionText(pre + s) == QuestionText(s)
  {
    SkipToQuestion(pre + s, 0, |pre|);
    QuestionShift(pre, s, 0);
  }

  /** A prefix without letters adds no answer. */
  lemma PrefixedAnswer(pre: string, s: string)
    requires forall k :: 0 <= k < |pre| ==> !IsLetter(pre[k])
    ensures AnswerText(pre + s) == AnswerText(s)
  {
    SkipToAnswer(pre + s, 0, |pre|);
    AnswerShift(pre, s, 0);
  }

  lemma {:induction false} SkipToQuestion(s: string, i: nat, j: nat)
    requires i <= j <= |s| && forall k :: i <= k < j ==> s[k] != '['
    ensures QuestionFrom(s, i) == QuestionFrom(s, j)
    decreases j - i
  {
    if i < j {
      SkipToQuestion(s, i + 1, j);
    }
  }

  lemma {:induction false} SkipToAnswer(s: string, i: nat, j: nat)
    requires i <= j <= |s| && forall k :: i <= k < j ==> !IsLetter(s[k])
    ensures AnswerFrom(s, i) == AnswerFrom(s, j)
    decreases j - i
  {
    if i < j {
      SkipToAnswer(s, i + 1, j);
    }
  }
}
