/** The quiz parser against the format the prompt asks for. Ids and timestamps are left out of the questions. */
module Quiz {
  import opened QuizText
  import opened Wrappers

  datatype Answer = Answer(content: string, isCorrect: bool)

  datatype Question = Question(content: string, answers: seq<Answer>)

  // ---------- the parser ----------

  datatype State = State(questions: seq<Question>, current: Option<Question>)

  function Finish(st: State): seq<Question> {
    if st.current.Some? then st.questions + [st.current.value] else st.questions
  }

  function Mark(answers: seq<Answer>, index: nat): (r: seq<Answer>)
    ensures |r| == |answers|
  {
    if index < |answers| then answers[index := Answer(answers[index].content, true)] else answers
  }

  /** What a line says: a question it opens, an answer it adds, the index of an answer it marks. */
  datatype Reading = Reading(question: Option<string>, answer: Option<string>, mark: Option<nat>)

  function AsIndex(code: Option<int>): Option<nat> {
    if code.Some? && code.value >= 0 then Some(code.value) else None
  }

  function Read(line: string): Reading {
    if Trim(line) == "" then Reading(None, None, None)
    else Reading(QuestionText(line), AnswerText(line), if HasKey(line) then AsIndex(KeyIndex(line)) else None)
  }

  function Begin(st: State, question: Option<string>): State {
    if question.Some? then State(Finish(st), Some(Question(question.value, []))) else st
  }

  function AddAnswer(st: State, answer: Option<string>): State {
    if answer.Some? && st.current.Some?
    then
      var question := st.current.value;
      State(st.questions, Some(question.(answers := question.answers + [Answer(answer.value, false)])))
    else st
  }

  function MarkAnswer(st: State, mark: Option<nat>): State {
    if mark.Some? && st.current.Some?
    then State(st.questions, Some(Question(st.current.value.content, Mark(st.current.value.answers, mark.value))))
    else st
  }

  function Step(st: State, r: Reading): State {
    MarkAnswer(AddAnswer(Begin(st, r.question), r.answer), r.mark)
  }

  function Fold(st: State, readings: seq<Reading>): State
    decreases |readings|
  {
    if readings == [] then st else Fold(Step(st, readings[0]), readings[1..])
  }

  function ReadAll(lines: seq<string>): (readings: seq<Reading>)
    ensures |readings| == |lines| && forall i :: 0 <= i < |lines| ==> readings[i] == Read(lines[i])
  {
    seq(|lines|, i requires 0 <= i < |lines| => Read(lines[i]))
  }

  function Parsed(text: string): seq<Question> {
    Finish(Fold(State([], None), ReadAll(SplitLines(text))))
  }

  /** One pass of the parser's loop. */
  method ParseLine(line: string, questions: seq<Question>, currentQuestion: Option<Question>)
    returns (questions': seq<Question>, currentQuestion': Option<Question>)
    ensures State(questions', currentQuestion') == Step(State(questions, currentQuestion), Read(line))
  {
    questions', currentQuestion' := questions, currentQuestion;
    if Trim(line) == "" {
      return;
    }
    var questionMatch := QuestionText(line);
    if questionMatch.Some? {
      if currentQuestion'.Some? {
        questions' := questions' + [currentQuestion'.value];
      }
      currentQuestion' := Some(Question(questionMatch.value, []));
    }
    assert State(questions', currentQuestion') == Begin(State(questions, currentQuestion), questionMatch);
    var answerMatch := AnswerText(line);
    if answerMatch.Some? && currentQuestion'.Some? {
      var q := currentQuestion'.value;
      currentQuestion' := Some(q.(answers := q.answers + [Answer(answerMatch.value, false)]));
    }
    if HasKey(line) && currentQuestion'.Some? {
      var q := currentQuestion'.value;
      var index := KeyIndex(line);
      if index.Some? && 0 <= index.value < |q.answers| {
        var marked := q.answers[index.value].(isCorrect := true);
        currentQuestion' := Some(q.(answers := q.answers[index.value := marked]));
      }
    }
  }

  /** `_getQuestionFromText`. */
  method GetQuestionFromText(text: string) returns (questions: seq<Question>)
    ensures questions == Parsed(text)
  {
    var lines := SplitLines(text);
    questions := [];
    var currentQuestion: Option<Question> := None;
    ghost var readings := ReadAll(lines);
    for i := 0 to |lines|
      invariant Fold(State(questions, currentQuestion), readings[i..]) == Fold(State([], None), readings)
    {
      assert readings[i..][0] == Read(lines[i]) && readings[i..][1..] == readings[i + 1..];
      questions, currentQuestion := ParseLine(lines[i], questions, currentQuestion);
    }
    if currentQuestion.Some? {
      questions := questions + [currentQuestion.value];
    }
  }

  lemma {:induction false} FoldAppends(st: State, a: seq<Reading>, b: seq<Reading>)
    ensures Fold(st, a + b) == Fold(Fold(st, a), b)
    decreases |a|
  {
    if a == [] {
      assert a + b == b;
    } else {
      assert (a + b)[1..] == a[1..] + b;
      FoldAppends(Step(st, a[0]), a[1..], b);
    }
  }

  // ---------- the printed format ----------

  /** A question to print: its text, its choices, and which one is correct. */
  datatype Item = Item(text: string, choices: seq<string>, correct: nat)

  predicate Printable(item: Item) {
    && item.text != "" && OneLine(item.text)
    && 1 <= |item.choices| <= 26 && item.correct < |item.choices|
    && forall k :: 0 <= k < |item.choices| ==> item.choices[k] != "" && OneLine(item.choices[k])
  }

  /** The prompt shows the format indented; any blank indentation is allowed here. */
  predicate IsIndent(indent: string) {
    forall i :: 0 <= i < |indent| ==> IsSpace(indent[i]) && indent[i] != '\n'
  }

  function Decimal(n: nat): (s: string)
    ensures s != "" && forall i :: 0 <= i < |s| ==> IsDigit(s[i])
  {
    (if n < 10 then "" else Decimal(n / 10)) + [('0' as int + n % 10) as char]
  }

  /** The letter of a choice, in either case. */
  function Letter(k: nat, capital: bool): char
    requires k < 26
  {
    ((if capital then 'A' else 'a') as int + k) as char
  }

  function Label(n: nat): string {
    "[" + Decimal(n) + "] "
  }

  function ChoiceLabel(k: nat, capital: bool): string
    requires k < 26
  {
    [Letter(k, capital), ')', ' ']
  }

  function QuestionLine(indent: string, n: nat, text: string): string {
    indent + (Label(n) + text)
  }

  function ChoiceLine(indent: string, k: nat, capital: bool, text: string): string
    requires k < 26
  {
    indent + (ChoiceLabel(k, capital) + text)
  }

  function KeyLine(indent: string, k: nat, capital: bool): string
    requires k < 26
  {
    indent + "=> " + [Letter(k, capital)]
  }

  /** `capital` says which of the item's labels are capital letters. */
  function ChoiceLines(indent: string, capital: nat -> bool, choices: seq<string>, k: nat): seq<string>
    requires k <= |choices| <= 26
    decreases |choices| - k
  {
    if k == |choices| then []
    else [ChoiceLine(indent, k, capital(k), choices[k])] + ChoiceLines(indent, capital, choices, k + 1)
  }

  /** The key comes after the choices; `capital(|choices|)` is its case. */
  function ItemLines(indent: string, capital: nat -> bool, n: nat, item: Item): seq<string>
    requires Printable(item)
  {
    [QuestionLine(indent, n, item.text)] + ChoiceLines(indent, capital, item.choices, 0)
    + [KeyLine(indent, item.correct, capital(|item.choices|))]
  }

  predicate AllPrintable(items: seq<Item>) {
    forall i :: 0 <= i < |items| ==> Printable(items[i])
  }

  function AllLines(indent: string, capitals: nat -> nat -> bool, n: nat, items: seq<Item>): seq<string>
    requires AllPrintable(items)
    decreases |items|
  {
    if items == [] then []
    else ItemLines(indent, capitals(n), n, items[0]) + AllLines(indent, capitals, n + 1, items[1..])
  }

  /** Each label and key in the case `capitals` chooses for it. */
  function Print(indent: string, capitals: nat -> nat -> bool, items: seq<Item>): string
    requires AllPrintable(items)
  {
    JoinLines(AllLines(indent, capitals, 1, items))
  }

  // ---------- how each printed line reads ----------

  /** The index a key inside a choice is read as: the choice's first visible character, since that is where the text
      after the two characters of "a)" begins. */
  function InkIndex(text: string): Option<nat> {
    AsIndex(LetterIndex(text[InkFrom(text, 0)..]))
  }

  function QuestionReading(text: string): Reading {
    Reading(Some(text), AnswerText(text), None)
  }

  function ChoiceReading(text: string): Reading {
    Reading(QuestionText(text), Some(text), if HasKey(text) then InkIndex(text) else None)
  }

  lemma IndentedNoBreak(indent: string, pre: string, text: string)
    requires IsIndent(indent) && NoBreak(pre) && OneLine(text)
    ensures NoBreak(indent + (pre + text))
  {
    var line := indent + (pre + text);
    assert forall k :: 0 <= k < |line| ==>
      line[k] == if k < |indent| then indent[k]
                 else if k < |indent| + |pre| then pre[k - |indent|]
                 else text[k - |indent| - |pre|];
  }

  /** Question markers are found in the body only, answer markers too. */
  lemma IndentedMatches(indent: string, body: string)
    requires IsIndent(indent)
    ensures QuestionText(indent + body) == QuestionFrom(body, 0)
    ensures AnswerText(indent + body) == AnswerFrom(body, 0)
  {
    PrefixedQuestion(indent, body);
    PrefixedAnswer(indent, body);
  }

  lemma LabelIs(n: nat, text: string)
    ensures var body, d := Label(n) + text, |Decimal(n)|;
            && |Label(n)| == d + 3 && d >= 1
            && body[0] == '[' && body[d + 1] == ']' && body[d + 2] == ' ' && IsDigit(body[1])
            && DigitsEnd(body, 1) == d + 1 && body[d + 3..] == text
            && (forall k :: 0 <= k < d + 3 ==> body[k] == Label(n)[k] && !IsLetter(body[k]) && body[k] != '\n')
  {
    var body, d := Label(n) + text, Decimal(n);
    assert forall k :: 0 <= k < |d| ==> body[1 + k] == d[k];
    DigitsEndIs(body, 1, 1 + |d|);
  }

  /** A question body opens its question with the whole text and answers only if the text does. */
  lemma QuestionBodyMatches(n: nat, text: string)
    requires text != "" && OneLine(text)
    ensures QuestionFrom(Label(n) + text, 0) == Some(text)
    ensures AnswerFrom(Label(n) + text, 0) == AnswerText(text)
  {
    LabelIs(n, text);
    QuestionBodyAnswers(n, text);
  }

  lemma LabelHasNoLetter(n: nat)
    ensures forall k :: 0 <= k < |Label(n)| ==> !IsLetter(Label(n)[k])
  {
    LabelIs(n, "");
  }

  lemma QuestionBodyAnswers(n: nat, text: string)
    ensures AnswerFrom(Label(n) + text, 0) == AnswerText(text)
  {
    LabelHasNoLetter(n);
    PrefixedAnswer(Label(n), text);
  }

  predicate ClosesLabel(c: char) {
    IsDigit(c) || c == ']'
  }

  lemma ClosesBelowLetters(c: char)
    requires ClosesLabel(c)
    ensures !IsSpace(c) && LowerCode(c) < 97
  {
  }

  lemma NoLetterRead(line: string, at: nat)
    requires at + 2 < |line| && !IsSpace(line[at]) && ClosesLabel(line[at + 2])
    requires forall k :: 0 <= k < at ==> IsSpace(line[k])
    ensures Trim(line) != "" && AsIndex(KeyIndex(line)).None?
  {
    ClosesBelowLetters(line[at + 2]);
    KeyReadsAt(line, at, at + 2);
  }

  /** A key in a question line is read at the closing part of the label, which is no letter. */
  lemma QuestionLineMarksNothing(indent: string, n: nat, text: string)
    requires IsIndent(indent)
    ensures var line := indent + (Label(n) + text);
            Trim(line) != "" && AsIndex(KeyIndex(line)).None?
  {
    var body, at := Label(n) + text, |indent|;
    var line := indent + body;
    LabelThirdChar(n, text);
    assert forall k :: 0 <= k < at ==> line[k] == indent[k];
    assert line[at] == body[0] && line[at + 2] == body[2];
    NoLetterRead(line, at);
  }

  lemma LabelThirdChar(n: nat, text: string)
    ensures var body := Label(n) + text; |body| > 2 && body[0] == '[' && ClosesLabel(body[2])
  {
    LabelIs(n, text);
    var body := Label(n) + text;
    assert forall k :: 0 <= k < |Label(n)| ==> body[k] == Label(n)[k];
    assert |Decimal(n)| >= 2 ==> body[2] == Decimal(n)[1];
  }

  lemma QuestionLineReads(indent: string, n: nat, text: string)
    requires IsIndent(indent) && text != "" && OneLine(text)
    ensures NoBreak(QuestionLine(indent, n, text))
    ensures Read(QuestionLine(indent, n, text)) == QuestionReading(text)
  {
    var line := QuestionLine(indent, n, text);
    LabelIs(n, text);
    IndentedNoBreak(indent, Label(n), text);
    IndentedMatches(indent, Label(n) + text);
    QuestionBodyMatches(n, text);
    QuestionLineMarksNothing(indent, n, text);
  }

  lemma ChoiceBodyMatches(k: nat, capital: bool, text: string)
    requires k < 26 && text != "" && OneLine(text)
    ensures var body := ChoiceLabel(k, capital) + text;
            QuestionFrom(body, 0) == QuestionText(text) && AnswerFrom(body, 0) == Some(text)
  {
    var pre := ChoiceLabel(k, capital);
    var body := pre + text;
    assert body[0] == Letter(k, capital) && body[1] == ')' && body[2] == ' ' && body[3..] == text;
    SkipToQuestion(body, 0, 3);
    QuestionShift(pre, text, 0);
  }

  lemma KeyShift(pre: string, text: string)
    requires forall i :: 0 <= i < |pre| ==> pre[i] != '=' && pre[i] != '>'
    ensures HasKey(pre + text) <==> HasKey(text)
  {
    var line := pre + text;
    assert forall i :: 0 <= i < |pre| ==> line[i] == pre[i];
    assert forall i :: 0 <= i < |text| ==> line[|pre| + i] == text[i];
    if HasKey(line) {
      var i :| 0 <= i < |line| - 1 && line[i] == '=' && line[i + 1] == '>';
      assert text[i - |pre|] == '=' && text[i - |pre| + 1] == '>';
    }
    if HasKey(text) {
      var i :| 0 <= i < |text| - 1 && text[i] == '=' && text[i + 1] == '>';
      assert line[|pre| + i] == '=' && line[|pre| + i + 1] == '>';
    }
  }

  lemma KeyIsVisible(text: string)
    requires HasKey(text)
    ensures InkFrom(text, 0) < |text|
  {
    var key :| 0 <= key < |text| - 1 && text[key] == '=' && text[key + 1] == '>';
    VisibleInside(text, key);
  }

  /** A key in a line whose visible part is a two-character label, a blank and the text. */
  lemma LabelledLine(line: string, at: nat, text: string, ink: nat)
    requires |line| == at + 3 + |text| && !IsSpace(line[at]) && line[at + 2] == ' '
    requires forall i :: 0 <= i < at ==> IsSpace(line[i])
    requires forall i :: at + 3 <= i < |line| ==> line[i] == text[i - at - 3]
    requires ink == InkFrom(text, 0) < |text|
    ensures KeyIndex(line) == Some(LowerCode(text[ink]) - 97)
  {
    BlankUpToInk(line, at, text);
    assert line[at + 3 + ink] == text[ink];
    LabelledKey(line, at, at + 3 + ink);
  }

  lemma LabelledKey(line: string, at: nat, i: nat)
    requires at + 2 <= i < |line| && !IsSpace(line[at]) && !IsSpace(line[i])
    requires forall k :: 0 <= k < at ==> IsSpace(line[k])
    requires forall k :: at + 2 <= k < i ==> IsSpace(line[k])
    ensures KeyIndex(line) == Some(LowerCode(line[i]) - 97)
  {
    KeyReadsAt(line, at, i);
  }

  lemma LetterOfSuffix(text: string, k: nat)
    requires k < |text|
    ensures LetterIndex(text[k..]) == Some(LowerCode(text[k]) - 97)
  {
    assert text[k..][0] == text[k];
  }

  lemma BlankUpToInk(line: string, at: nat, text: string)
    requires |line| == at + 3 + |text| && line[at + 2] == ' '
    requires forall i :: at + 3 <= i < |line| ==> line[i] == text[i - at - 3]
    ensures forall i :: at + 2 <= i < at + 3 + InkFrom(text, 0) ==> IsSpace(line[i])
  {
    forall i | at + 3 <= i < at + 3 + InkFrom(text, 0) ensures IsSpace(line[i]) {
      assert IsSpace(text[i - at - 3]);
    }
  }

  lemma TrimVisible(line: string, at: nat)
    requires at < |line| && !IsSpace(line[at])
    ensures Trim(line) != ""
  {
    VisibleInside(line, at);
  }

  lemma ChoiceLineMarks(indent: string, k: nat, capital: bool, text: string)
    requires IsIndent(indent) && k < 26
    ensures var line := ChoiceLine(indent, k, capital, text);
            Trim(line) != "" && (HasKey(text) ==> AsIndex(KeyIndex(line)) == InkIndex(text))
  {
    var body, at := ChoiceLabel(k, capital) + text, |indent|;
    var line := indent + body;
    assert body[0] == Letter(k, capital) && body[2] == ' ';
    assert forall i :: 0 <= i < at ==> line[i] == indent[i];
    assert forall i :: at <= i < |line| ==> line[i] == body[i - at];
    TrimVisible(line, at);
    if HasKey(text) {
      var ink := InkFrom(text, 0);
      KeyIsVisible(text);
      LabelledLine(line, at, text, ink);
      LetterOfSuffix(text, ink);
    }
  }

  lemma ChoiceLineReads(indent: string, k: nat, capital: bool, text: string)
    requires IsIndent(indent) && k < 26 && text != "" && OneLine(text)
    ensures NoBreak(ChoiceLine(indent, k, capital, text))
    ensures Read(ChoiceLine(indent, k, capital, text)) == ChoiceReading(text)
  {
    IndentedNoBreak(indent, ChoiceLabel(k, capital), text);
    IndentedMatches(indent, ChoiceLabel(k, capital) + text);
    ChoiceBodyMatches(k, capital, text);
    KeyShift(indent, ChoiceLabel(k, capital) + text);
    KeyShift(ChoiceLabel(k, capital), text);
    ChoiceLineMarks(indent, k, capital, text);
  }

  lemma KeyLineMatches(k: nat, capital: bool)
    requires k < 26
    ensures var body := "=> " + [Letter(k, capital)]; QuestionFrom(body, 0).None? && AnswerFrom(body, 0).None?
  {
    var body := "=> " + [Letter(k, capital)];
    assert body == ['=', '>', ' ', Letter(k, capital)];
    SkipToQuestion(body, 0, 4);
    SkipToAnswer(body, 0, 3);
    assert AnswerFrom(body, 3) == AnswerFrom(body, 4);
  }

  lemma LetterReads(k: nat, capital: bool)
    requires k < 26
    ensures !IsSpace(Letter(k, capital)) && LowerCode(Letter(k, capital)) - 97 == k
  {
  }

  lemma KeyRead(line: string, at: nat, k: nat, capital: bool)
    requires k < 26 && at + 3 < |line| && !IsSpace(line[at])
    requires line[at + 2] == ' ' && line[at + 3] == Letter(k, capital)
    requires forall i :: 0 <= i < at ==> IsSpace(line[i])
    ensures Trim(line) != "" && KeyIndex(line) == Some(k)
  {
    LetterReads(k, capital);
    KeyReadsAt(line, at, at + 3);
  }

  lemma KeyLineMarks(indent: string, k: nat, capital: bool)
    requires IsIndent(indent) && k < 26
    ensures var line := KeyLine(indent, k, capital); HasKey(line) && Trim(line) != "" && KeyIndex(line) == Some(k)
  {
    var line, at := KeyLine(indent, k, capital), |indent|;
    assert forall i :: 0 <= i < at ==> line[i] == indent[i];
    assert line[at] == '=' && line[at + 1] == '>' && line[at + 2] == ' ' && line[at + 3] == Letter(k, capital);
    KeyRead(line, at, k, capital);
  }

  lemma KeyLineReads(indent: string, k: nat, capital: bool)
    requires IsIndent(indent) && k < 26
    ensures NoBreak(KeyLine(indent, k, capital))
    ensures Read(KeyLine(indent, k, capital)) == Reading(None, None, Some(k))
  {
    var body := "=> " + [Letter(k, capital)];
    assert KeyLine(indent, k, capital) == indent + body && body + "" == body;
    IndentedNoBreak(indent, body, "");
    IndentedMatches(indent, body);
    KeyLineMatches(k, capital);
    KeyLineMarks(indent, k, capital);
  }

  function ChoiceReadings(choices: seq<string>, k: nat): seq<Reading>
    requires k <= |choices|
    decreases |choices| - k
  {
    if k == |choices| then [] else [ChoiceReading(choices[k])] + ChoiceReadings(choices, k + 1)
  }

  function ItemReadings(item: Item): seq<Reading> {
    [QuestionReading(item.text)] + ChoiceReadings(item.choices, 0) + [Reading(None, None, Some(item.correct))]
  }

  function AllReadings(items: seq<Item>): seq<Reading> {
    if items == [] then [] else ItemReadings(items[0]) + AllReadings(items[1..])
  }

  /** The lines survive `split` and read as `readings`. */
  ghost predicate ReadsAs(lines: seq<string>, readings: seq<Reading>) {
    ReadAll(lines) == readings && forall i :: 0 <= i < |lines| ==> NoBreak(lines[i])
  }

  lemma ReadsAsAppend(a: seq<string>, b: seq<string>, ra: seq<Reading>, rb: seq<Reading>)
    requires ReadsAs(a, ra) && ReadsAs(b, rb)
    ensures ReadsAs(a + b, ra + rb)
  {
    ReadAllAppend(a, b);
    forall i | 0 <= i < |a + b| ensures NoBreak((a + b)[i]) {
      assert (a + b)[i] == if i < |a| then a[i] else b[i - |a|];
    }
  }

  lemma ReadAllAppend(a: seq<string>, b: seq<string>)
    ensures ReadAll(a + b) == ReadAll(a) + ReadAll(b)
  {
    forall i | 0 <= i < |a + b| ensures ReadAll(a + b)[i] == (ReadAll(a) + ReadAll(b))[i] {
      assert (a + b)[i] == if i < |a| then a[i] else b[i - |a|];
    }
  }

  lemma ReadsAsOne(line: string, r: Reading)
    requires NoBreak(line) && Read(line) == r
    ensures ReadsAs([line], [r])
  {
  }

  lemma {:induction false} ChoicesRead(indent: string, capital: nat -> bool, item: Item, k: nat)
    requires IsIndent(indent) && Printable(item) && k <= |item.choices|
    ensures ReadsAs(ChoiceLines(indent, capital, item.choices, k), ChoiceReadings(item.choices, k))
    decreases |item.choices| - k
  {
    if k < |item.choices| {
      var line, r := ChoiceLine(indent, k, capital(k), item.choices[k]), ChoiceReading(item.choices[k]);
      ChoiceLineReads(indent, k, capital(k), item.choices[k]);
      ReadsAsOne(line, r);
      ChoicesRead(indent, capital, item, k + 1);
      ReadsAsAppend([line], ChoiceLines(indent, capital, item.choices, k + 1),
                    [r], ChoiceReadings(item.choices, k + 1));
    }
  }

  lemma ItemReads(indent: string, capital: nat -> bool, n: nat, item: Item)
    requires IsIndent(indent) && Printable(item)
    ensures ReadsAs(ItemLines(indent, capital, n, item), ItemReadings(item))
  {
    var first, choices := QuestionLine(indent, n, item.text), ChoiceLines(indent, capital, item.choices, 0);
    var upper := capital(|item.choices|);
    var key := KeyLine(indent, item.correct, upper);
    var r, rs := QuestionReading(item.text), ChoiceReadings(item.choices, 0);
    var k := Reading(None, None, Some(item.correct));
    QuestionLineReads(indent, n, item.text);
    ReadsAsOne(first, r);
    ChoicesRead(indent, capital, item, 0);
    KeyLineReads(indent, item.correct, upper);
    ReadsAsOne(key, k);
    ReadsAsAppend([first], choices, [r], rs);
    ReadsAsAppend([first] + choices, [key], [r] + rs, [k]);
  }

  /** The printed lines read as the items say, whatever the indentation, the numbering and the case of the letters. */
  lemma {:induction false} ItemsRead(indent: string, capitals: nat -> nat -> bool, n: nat, items: seq<Item>)
    requires IsIndent(indent) && AllPrintable(items)
    ensures ReadsAs(AllLines(indent, capitals, n, items), AllReadings(items))
    decreases |items|
  {
    if items != [] {
      ItemReads(indent, capitals(n), n, items[0]);
      ItemsRead(indent, capitals, n + 1, items[1..]);
      ReadsAsAppend(ItemLines(indent, capitals(n), n, items[0]), AllLines(indent, capitals, n + 1, items[1..]),
                    ItemReadings(items[0]), AllReadings(items[1..]));
    }
  }

  // ---------- what a printed item parses to ----------

  /** No text opens something of its own: the question holds no answer marker, no choice holds a question marker. */
  predicate Contained(item: Item) {
    && AnswerText(item.text).None?
    && forall k :: 0 <= k < |item.choices| ==> QuestionText(item.choices[k]).None?
  }

  /** A key inside one of the first `k` choices marks answer `j`. */
  predicate MarkedWithin(item: Item, j: nat, k: nat)
    requires k <= |item.choices|
  {
    exists m :: j <= m < k && HasKey(item.choices[m]) && InkIndex(item.choices[m]) == Some(j)
  }

  function AnswersAfter(item: Item, k: nat): seq<Answer>
    requires k <= |item.choices|
  {
    seq(k, j requires 0 <= j < k => Answer(item.choices[j], MarkedWithin(item, j, k)))
  }

  /** What the parser makes of a contained item: the right texts, with every stray key honoured too. */
  function Decoded(item: Item): Question {
    Question(item.text,
             seq(|item.choices|, j requires 0 <= j < |item.choices| =>
               Answer(item.choices[j], j == item.correct || MarkedWithin(item, j, |item.choices|))))
  }

  function Expected(item: Item): Question {
    Question(item.text,
             seq(|item.choices|, j requires 0 <= j < |item.choices| => Answer(item.choices[j], j == item.correct)))
  }

  function DecodeAll(items: seq<Item>): seq<Question> {
    seq(|items|, i requires 0 <= i < |items| => Decoded(items[i]))
  }

  function ExpectAll(items: seq<Item>): seq<Question> {
    seq(|items|, i requires 0 <= i < |items| => Expected(items[i]))
  }

  lemma ChoiceParses(item: Item, k: nat, base: seq<Question>)
    requires Contained(item) && k < |item.choices|
    ensures Step(State(base, Some(Question(item.text, AnswersAfter(item, k)))), ChoiceReading(item.choices[k])) ==
            State(base, Some(Question(item.text, AnswersAfter(item, k + 1))))
  {
    AnswersOneMore(item, k);
  }

  lemma MarkedAt(answers: seq<Answer>, mark: Option<nat>, j: nat)
    requires j < |answers|
    ensures (if mark.Some? then Mark(answers, mark.value) else answers)[j]
         == Answer(answers[j].content, answers[j].isCorrect || mark == Some(j))
  {
  }

  /** Pushing a choice's answer and marking with the choice's key. */
  lemma AnswersOneMore(item: Item, k: nat)
    requires k < |item.choices|
    ensures var pushed := AnswersAfter(item, k) + [Answer(item.choices[k], false)];
            var mark := ChoiceReading(item.choices[k]).mark;
            AnswersAfter(item, k + 1) == if mark.Some? then Mark(pushed, mark.value) else pushed
  {
    var pushed, mark := AnswersAfter(item, k) + [Answer(item.choices[k], false)], ChoiceReading(item.choices[k]).mark;
    var marked := if mark.Some? then Mark(pushed, mark.value) else pushed;
    forall j | 0 <= j < k + 1 ensures marked[j] == AnswersAfter(item, k + 1)[j] {
      MarkedOneMore(item, j, k);
      MarkedAt(pushed, mark, j);
    }
  }

  lemma {:induction false} ChoicesParse(item: Item, k: nat, base: seq<Question>)
    requires Contained(item) && k <= |item.choices|
    ensures Fold(State(base, Some(Question(item.text, AnswersAfter(item, k)))), ChoiceReadings(item.choices, k)) ==
            State(base, Some(Question(item.text, AnswersAfter(item, |item.choices|))))
    decreases |item.choices| - k
  {
    if k < |item.choices| {
      ChoiceParses(item, k, base);
      ChoicesParse(item, k + 1, base);
      var readings := ChoiceReadings(item.choices, k);
      assert readings[1..] == ChoiceReadings(item.choices, k + 1);
    }
  }

  lemma MarkedOneMore(item: Item, j: nat, k: nat)
    requires j <= k < |item.choices|
    ensures MarkedWithin(item, j, k + 1) <==> MarkedWithin(item, j, k) || ChoiceReading(item.choices[k]).mark == Some(j)
  {
  }

  lemma KeyParses(item: Item, base: seq<Question>)
    requires item.correct < |item.choices|
    ensures Step(State(base, Some(Question(item.text, AnswersAfter(item, |item.choices|)))),
                 Reading(None, None, Some(item.correct))) ==
            State(base, Some(Decoded(item)))
  {
    var answers := AnswersAfter(item, |item.choices|);
    assert Mark(answers, item.correct) == Decoded(item).answers;
  }

  lemma ItemParses(item: Item, st: State)
    requires Contained(item) && item.correct < |item.choices|
    ensures Fold(st, ItemReadings(item)) == State(Finish(st), Some(Decoded(item)))
  {
    var first, choices := QuestionReading(item.text), ChoiceReadings(item.choices, 0);
    var key := Reading(None, None, Some(item.correct));
    var begun := State(Finish(st), Some(Question(item.text, AnswersAfter(item, 0))));
    assert AnswersAfter(item, 0) == [];
    assert Step(st, first) == begun;
    ChoicesParse(item, 0, Finish(st));
    KeyParses(item, Finish(st));
    FoldAppends(st, [first] + choices, [key]);
    FoldAppends(st, [first], choices);
    FoldOne(st, first);
    FoldOne(Fold(begun, choices), key);
  }

  lemma FoldOne(st: State, r: Reading)
    ensures Fold(st, [r]) == Step(st, r)
  {
    assert Fold(Step(st, r), [r][1..]) == Step(st, r);
  }

  lemma {:induction false} ItemsParse(items: seq<Item>, st: State)
    requires forall i :: 0 <= i < |items| ==> Contained(items[i]) && items[i].correct < |items[i].choices|
    ensures Finish(Fold(st, AllReadings(items))) == Finish(st) + DecodeAll(items)
    decreases |items|
  {
    if items != [] {
      var next := State(Finish(st), Some(Decoded(items[0])));
      ItemParses(items[0], st);
      FoldAppends(st, ItemReadings(items[0]), AllReadings(items[1..]));
      ItemsParse(items[1..], next);
      assert DecodeAll(items) == [Decoded(items[0])] + DecodeAll(items[1..]);
    }
  }

  /** The text splits back into the printed lines, which read as the items say. */
  lemma PrintedReadings(indent: string, capitals: nat -> nat -> bool, items: seq<Item>)
    requires IsIndent(indent) && AllPrintable(items)
    ensures Parsed(Print(indent, capitals, items)) == Finish(Fold(State([], None), AllReadings(items)))
  {
    var lines := AllLines(indent, capitals, 1, items);
    ItemsRead(indent, capitals, 1, items);
    if lines == [] {
      assert SplitLines("") == [""];
      var blank := Read("");
      assert ReadAll([""]) == [blank];
      FoldOne(State([], None), blank);
      assert AllReadings(items) == [];
    } else {
      forall line | line in lines ensures NoBreak(line) {
        var i :| 0 <= i < |lines| && lines[i] == line;
      }
      SplitUndoesJoin(lines);
    }
  }

  /** Whatever keys the texts contain, contained items parse to their questions, choices and order. */
  lemma ContainedItemsDecode(indent: string, capitals: nat -> nat -> bool, items: seq<Item>)
    requires IsIndent(indent) && AllPrintable(items) && forall i :: 0 <= i < |items| ==> Contained(items[i])
    ensures Parsed(Print(indent, capitals, items)) == DecodeAll(items)
  {
    PrintedReadings(indent, capitals, items);
    ItemsParse(items, State([], None));
  }

  // ---------- counting matches: what an uncontained text costs ----------

  function QuestionCount(st: State): nat {
    |Finish(st)|
  }

  function AnswerTotal(questions: seq<Question>): nat {
    if questions == [] then 0 else AnswerTotal(questions[..|questions| - 1]) + |questions[|questions| - 1].answers|
  }

  function QuestionReadings(readings: seq<Reading>): nat {
    if readings == [] then 0 else (if readings[0].question.Some? then 1 else 0) + QuestionReadings(readings[1..])
  }

  function AnswerReadings(readings: seq<Reading>): nat {
    if readings == [] then 0 else (if readings[0].answer.Some? then 1 else 0) + AnswerReadings(readings[1..])
  }

  lemma {:induction false} FoldCountsQuestions(st: State, readings: seq<Reading>)
    ensures QuestionCount(Fold(st, readings)) == QuestionCount(st) + QuestionReadings(readings)
    decreases |readings|
  {
    if readings != [] {
      FoldCountsQuestions(Step(st, readings[0]), readings[1..]);
    }
  }

  lemma StepCountsAnswers(st: State, r: Reading)
    requires st.current.Some? || r.question.Some?
    ensures Step(st, r).current.Some?
    ensures AnswerTotal(Finish(Step(st, r))) == AnswerTotal(Finish(st)) + if r.answer.Some? then 1 else 0
  {
    var st' := Step(st, r);
    var all, all' := Finish(st), Finish(st');
    if r.question.Some? {
      assert all'[..|all'| - 1] == all;
    } else {
      assert all'[..|all'| - 1] == st.questions == all[..|all| - 1];
    }
  }

  lemma {:induction false} FoldCountsAnswers(st: State, readings: seq<Reading>)
    requires st.current.Some? || (readings != [] && readings[0].question.Some?)
    ensures AnswerTotal(Finish(Fold(st, readings))) == AnswerTotal(Finish(st)) + AnswerReadings(readings)
    decreases |readings|
  {
    if readings != [] {
      StepCountsAnswers(st, readings[0]);
      FoldCountsAnswers(Step(st, readings[0]), readings[1..]);
    }
  }

  lemma {:induction false} CountsAppend(a: seq<Reading>, b: seq<Reading>)
    ensures QuestionReadings(a + b) == QuestionReadings(a) + QuestionReadings(b)
    ensures AnswerReadings(a + b) == AnswerReadings(a) + AnswerReadings(b)
    decreases |a|
  {
    if a == [] {
      assert a + b == b;
    } else {
      assert (a + b)[1..] == a[1..] + b;
      CountsAppend(a[1..], b);
    }
  }

  lemma {:induction false} ChoiceCounts(choices: seq<string>, k: nat)
    requires k <= |choices|
    ensures AnswerReadings(ChoiceReadings(choices, k)) == |choices| - k
    ensures QuestionReadings(ChoiceReadings(choices, k)) == 0
            <==> forall m :: k <= m < |choices| ==> QuestionText(choices[m]).None?
    decreases |choices| - k
  {
    if k < |choices| {
      ChoiceCounts(choices, k + 1);
      assert ChoiceReadings(choices, k)[1..] == ChoiceReadings(choices, k + 1);
    }
  }

  lemma ItemCounts(item: Item)
    ensures QuestionReadings(ItemReadings(item)) >= 1
    ensures QuestionReadings(ItemReadings(item)) == 1
            <==> forall m :: 0 <= m < |item.choices| ==> QuestionText(item.choices[m]).None?
    ensures AnswerReadings(ItemReadings(item)) == |item.choices| + if AnswerText(item.text).Some? then 1 else 0
  {
    var first, choices := QuestionReading(item.text), ChoiceReadings(item.choices, 0);
    var key := Reading(None, None, Some(item.correct));
    ChoiceCounts(item.choices, 0);
    CountsAppend([first] + choices, [key]);
    CountsAppend([first], choices);
    assert QuestionReadings([first][1..]) == 0 && AnswerReadings([first][1..]) == 0;
    assert QuestionReadings([key][1..]) == 0 && AnswerReadings([key][1..]) == 0;
  }

  function ChoiceTotal(items: seq<Item>): nat {
    if items == [] then 0 else |items[0].choices| + ChoiceTotal(items[1..])
  }

  lemma {:induction false} ItemsCount(items: seq<Item>)
    ensures var all := AllReadings(items);
            && QuestionReadings(all) >= |items| && AnswerReadings(all) >= ChoiceTotal(items)
            && (QuestionReadings(all) == |items| && AnswerReadings(all) == ChoiceTotal(items) ==>
                  forall i :: 0 <= i < |items| ==> Contained(items[i]))
  {
    if items != [] {
      ItemCounts(items[0]);
      ItemsCount(items[1..]);
      CountsAppend(ItemReadings(items[0]), AllReadings(items[1..]));
      assert forall i :: 0 < i < |items| ==> items[i] == items[1..][i - 1];
    }
  }

  lemma {:induction false} ExpectedTotal(items: seq<Item>, k: nat)
    requires k <= |items|
    ensures AnswerTotal(ExpectAll(items)[..k]) + ChoiceTotal(items[k..]) == ChoiceTotal(items)
  {
    if k == 0 {
      assert items[0..] == items;
    } else {
      ExpectedTotal(items, k - 1);
      var prefix := ExpectAll(items)[..k];
      assert prefix[..k - 1] == ExpectAll(items)[..k - 1];
      assert items[k - 1..][1..] == items[k..];
    }
  }

  // ---------- the round trip ----------

  /** No key inside a choice marks a wrong answer that is already there. */
  predicate NoStrayKey(item: Item) {
    forall m :: 0 <= m < |item.choices| && HasKey(item.choices[m]) ==>
      var index := InkIndex(item.choices[m]);
      index.Some? && index.value <= m ==> index.value == item.correct
  }

  lemma DecodedIsExpectedIff(item: Item)
    requires item.correct < |item.choices|
    ensures Decoded(item) == Expected(item) <==> NoStrayKey(item)
  {
    var n := |item.choices|;
    if NoStrayKey(item) {
      forall j | 0 <= j < n ensures MarkedWithin(item, j, n) ==> j == item.correct {}
      assert Decoded(item).answers == Expected(item).answers;
    } else {
      var m :| 0 <= m < n && HasKey(item.choices[m]) && InkIndex(item.choices[m]).Some?
               && InkIndex(item.choices[m]).value <= m && InkIndex(item.choices[m]).value != item.correct;
      var j := InkIndex(item.choices[m]).value;
      assert MarkedWithin(item, j, n);
      assert Decoded(item).answers[j].isCorrect && !Expected(item).answers[j].isCorrect;
    }
  }

  /** Printing and parsing returns the same questions, answers, order and correct flags if and only if no question
      text holds an answer marker, no choice holds a question marker, and no choice holds a key that reads as
      another answer already printed. */
  lemma RoundTripIff(indent: string, capitals: nat -> nat -> bool, items: seq<Item>)
    requires IsIndent(indent) && AllPrintable(items)
    ensures Parsed(Print(indent, capitals, items)) == ExpectAll(items)
            <==> forall i :: 0 <= i < |items| ==> Contained(items[i]) && NoStrayKey(items[i])
  {
    var start := State([], None);
    var all := AllReadings(items);
    PrintedReadings(indent, capitals, items);
    if Parsed(Print(indent, capitals, items)) == ExpectAll(items) && items != [] {
      FoldCountsQuestions(start, all);
      assert all[0] == QuestionReading(items[0].text);
      FoldCountsAnswers(start, all);
      ExpectedTotal(items, |items|);
      assert ExpectAll(items)[..|items|] == ExpectAll(items);
      ItemsCount(items);
    }
    if forall i :: 0 <= i < |items| ==> Contained(items[i]) {
      ContainedItemsDecode(indent, capitals, items);
      forall i | 0 <= i < |items|
        ensures DecodeAll(items)[i] == ExpectAll(items)[i] <==> NoStrayKey(items[i])
      {
        DecodedIsExpectedIff(items[i]);
      }
      if forall i :: 0 <= i < |items| ==> NoStrayKey(items[i]) {
        assert DecodeAll(items) == ExpectAll(items);
      }
    }
  }

  /** Empty, or with a carriage return before the line feed. */
  predicate WindowsEnd(line: string) {
    line == "" || line[|line| - 1] == '\r'
  }

  lemma LineEndHides(line: string)
    requires WindowsEnd(line)
    ensures Read(line).question.None? && Read(line).answer.None?
  {
    QuestionTextIff(line);
    AnswerTextIff(line);
  }

  lemma {:induction false} NothingOpened(readings: seq<Reading>)
    requires forall i :: 0 <= i < |readings| ==> readings[i].question.None?
    ensures Fold(State([], None), readings) == State([], None)
    decreases |readings|
  {
    if readings != [] {
      NothingOpened(readings[1..]);
    }
  }

  lemma HiddenLines(lines: seq<string>, readings: seq<Reading>)
    requires forall i :: 0 <= i < |lines| ==> WindowsEnd(lines[i])
    requires |readings| == |lines| && forall i :: 0 <= i < |lines| ==> readings[i] == Read(lines[i])
    ensures forall i :: 0 <= i < |readings| ==> readings[i].question.None?
  {
    forall i | 0 <= i < |readings| ensures readings[i].question.None? {
      LineEndHides(lines[i]);
    }
  }

  /** The parser splits at line feeds and neither expression matches up to a carriage return: a text with Windows line
      ends parses to no question at all. */
  lemma CarriageReturnsHideEverything(lines: seq<string>)
    requires lines != [] && forall i :: 0 <= i < |lines| ==> NoBreak(lines[i]) && WindowsEnd(lines[i])
    ensures Parsed(JoinLines(lines)) == []
  {
    assert forall line :: line in lines ==> NoBreak(line);
    SplitUndoesJoin(lines);
    HiddenLines(lines, ReadAll(lines));
    NothingOpened(ReadAll(lines));
  }

  /** A choice that holds a key and begins with a letter: "a => b" marks answer a, though the key line says b. */
  lemma StrayKeyBreaksRoundTrip(capitals: nat -> nat -> bool)
    ensures var items := [Item("Q", ["a => b", "c"], 1)];
            AllPrintable(items) && Parsed(Print("", capitals, items)) != ExpectAll(items)
  {
    var text := "a => b";
    var item := Item("Q", [text, "c"], 1);
    assert text[2] == '=' && text[3] == '>' && HasKey(text);
    assert InkFrom(text, 0) == 0 && text[0..] == text;
    assert InkIndex(text) == Some(0);
    assert !NoStrayKey(item) by {
      assert item.choices[0] == text;
    }
    RoundTripIff("", capitals, [item]);
    assert [item][0] == item;
  }
}
