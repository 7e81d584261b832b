/** The reading of the classifier's free-text reply in `analyze_event_ai`:
    the reply is split into lines, a line whose lower-cased text starts with
    "direction", "confidence" or "explanation" sets that field (a later line
    overwrites an earlier one), and a confidence that `int()` rejects turns the
    whole call into the neutral fallback verdict. */
module ReplyParser {
  import opened Text

  /** The triple `(direction, confidence, explanation)` the analyzer returns. */
  datatype Verdict = Verdict(direction: string, confidence: int, explanation: string)

  /** What the completion service gave back: the reply text, or a failure
      (transport error, missing field) described by its message. */
  datatype Reply = Content(text: string) | ServiceError(message: string)

  /** The outcome of reading a reply text. */
  datatype Parse = Parsed(verdict: Verdict) | Malformed(reason: string)

  /** Which assignment of the if/elif chain a line takes. */
  datatype Field = DirectionLine | ConfidenceLine | ExplanationLine | OtherLine

  const DefaultVerdict := Verdict("neutral", 50, "No explanation.")
  const FailurePrefix := "AI analysis failed: "

  /** The verdict of the `except` branch. */
  function Fallback(reason: string): Verdict {
    Verdict("neutral", 50, FailurePrefix + reason)
  }

  function FieldOf(line: string): Field {
    var low := Lower(line);
    if StartsWith(low, "direction") then DirectionLine
    else if StartsWith(low, "confidence") then ConfidenceLine
    else if StartsWith(low, "explanation") then ExplanationLine
    else OtherLine
  }

  /** `line.split(":")[-1].strip().lower()` */
  function DirectionOf(line: string): string {
    Lower(Strip(AfterLast(line, ':')))
  }

  /** `line.split(":")[-1].strip().replace("%", "")`, the text given to `int()` */
  function ConfidenceText(line: string): string {
    RemoveChar(Strip(AfterLast(line, ':')), '%')
  }

  /** `line.split(":", 1)[-1].strip()` */
  function ExplanationOf(line: string): string {
    Strip(AfterFirst(line, ':'))
  }

  /** A confidence line whose number `int()` rejects. */
  predicate IsMalformed(line: string) {
    FieldOf(line) == ConfidenceLine && ParseInt(ConfidenceText(line)).None?
  }

  /** The message of the `ValueError` raised by `int()`. */
  function IntError(text: string): string {
    "invalid literal for int() with base 10: '" + text + "'"
  }

  predicate IsDirectionLine(line: string) { FieldOf(line) == DirectionLine }
  predicate IsConfidenceLine(line: string) { FieldOf(line) == ConfidenceLine }
  predicate IsExplanationLine(line: string) { FieldOf(line) == ExplanationLine }

  /** The direction the lines give: that of the last direction line. */
  function DirectionField(lines: seq<string>): string {
    match LastIndex(lines, IsDirectionLine)
    case None => DefaultVerdict.direction
    case Some(i) => DirectionOf(lines[i])
  }

  /** The confidence the lines give: that of the last confidence line. */
  function ConfidenceField(lines: seq<string>): int
    requires FirstIndex(lines, IsMalformed).None?
  {
    match LastIndex(lines, IsConfidenceLine)
    case None => DefaultVerdict.confidence
    case Some(i) => ParseInt(ConfidenceText(lines[i])).value
  }

  /** The explanation the lines give: that of the last explanation line. */
  function ExplanationField(lines: seq<string>): string {
    match LastIndex(lines, IsExplanationLine)
    case None => DefaultVerdict.explanation
    case Some(i) => ExplanationOf(lines[i])
  }

  /** The reading of a sequence of lines, stated field by field: each field
      comes from the last line that sets it (or keeps its default), and the
      first malformed confidence line, wherever it is, decides the failure. */
  function ParseLines(lines: seq<string>): Parse {
    match FirstIndex(lines, IsMalformed)
    case Some(i) => Malformed(IntError(ConfidenceText(lines[i])))
    case None => Parsed(Verdict(DirectionField(lines), ConfidenceField(lines), ExplanationField(lines)))
  }

  /** The reading of a reply text: its lines are `content.split("\n")`. */
  function ParseContent(content: string): Parse {
    ParseLines(Split(content, '\n'))
  }

  /** What `analyze_event_ai` returns for a given service outcome. */
  function Analysis(reply: Reply): Verdict {
    match reply
    case ServiceError(message) => Fallback(message)
    case Content(text) =>
      match ParseContent(text)
      case Parsed(v) => v
      case Malformed(reason) => Fallback(reason)
  }

  /** The effect of one line on the fields read so far: a confidence that
      `int()` rejects ends the reading, any other line sets at most the field
      it names. */
  function Step(v: Verdict, line: string): Parse {
    match FieldOf(line)
    case DirectionLine => Parsed(v.(direction := DirectionOf(line)))
    case ConfidenceLine =>
      (match ParseInt(ConfidenceText(line))
       case None => Malformed(IntError(ConfidenceText(line)))
       case Some(n) => Parsed(v.(confidence := n)))
    case ExplanationLine => Parsed(v.(explanation := ExplanationOf(line)))
    case OtherLine => Parsed(v)
  }

  /** The loop over the reply's lines, overwriting three locals and leaving at
      the first confidence `int()` rejects. */
  method ParseReply(content: string) returns (r: Parse)
    ensures r == ParseContent(content)
  {
    var lines := Split(content, '\n');
    var direction, confidence, explanation :=
      DefaultVerdict.direction, DefaultVerdict.confidence, DefaultVerdict.explanation;
    var i := 0;
    while i < |lines|
      invariant 0 <= i <= |lines|
      invariant ParseLines(lines[..i]) == Parsed(Verdict(direction, confidence, explanation))
    {
      var line := lines[i];
      ghost var next := Step(Verdict(direction, confidence, explanation), line);
      ParseLinesStep(lines, i, Verdict(direction, confidence, explanation));
      var low := Lower(line);
      if StartsWith(low, "direction") {
        direction := DirectionOf(line);
      } else if StartsWith(low, "confidence") {
        var n := ParseInt(ConfidenceText(line));
        if n.None? {
          return Malformed(IntError(ConfidenceText(line)));
        }
        confidence := n.value;
      } else if StartsWith(low, "explanation") {
        explanation := ExplanationOf(line);
      }
      assert next == Parsed(Verdict(direction, confidence, explanation));
      i := i + 1;
    }
    assert lines[..i] == lines;
    return Parsed(Verdict(direction, confidence, explanation));
  }

  /** The effect of one more line on the reading of a prefix: a malformed
      confidence line fails the whole reading, any other line updates at most
      the field it sets. */
  lemma ParseLinesStep(lines: seq<string>, i: nat, v: Verdict)
    requires i < |lines| && ParseLines(lines[..i]) == Parsed(v)
    ensures Step(v, lines[i]).Malformed? ==> ParseLines(lines) == Step(v, lines[i])
    ensures Step(v, lines[i]).Parsed? ==> ParseLines(lines[..i + 1]) == Step(v, lines[i])
  {
    assert FirstIndex(lines[..i], IsMalformed).None?;
    FirstIndexStep(lines, i, IsMalformed);
    if !IsMalformed(lines[i]) {
      DirectionFieldStep(lines, i);
      ConfidenceFieldStep(lines, i);
      ExplanationFieldStep(lines, i);
    }
  }

  lemma DirectionFieldStep(lines: seq<string>, i: nat)
    requires i < |lines|
    ensures DirectionField(lines[..i + 1])
         == if IsDirectionLine(lines[i]) then DirectionOf(lines[i]) else DirectionField(lines[..i])
  {
    LastIndexStep(lines, i, IsDirectionLine);
    var r := LastIndex(lines[..i], IsDirectionLine);
    if r.Some? {
      assert lines[..i + 1][r.value] == lines[..i][r.value];
    }
    assert lines[..i + 1][i] == lines[i];
  }

  lemma ConfidenceFieldStep(lines: seq<string>, i: nat)
    requires i < |lines|
    requires FirstIndex(lines[..i], IsMalformed).None? && !IsMalformed(lines[i])
    ensures FirstIndex(lines[..i + 1], IsMalformed).None?
    ensures ConfidenceField(lines[..i + 1])
         == if IsConfidenceLine(lines[i]) then ParseInt(ConfidenceText(lines[i])).value else ConfidenceField(lines[..i])
  {
    FirstIndexStep(lines, i, IsMalformed);
    LastIndexStep(lines, i, IsConfidenceLine);
    var r := LastIndex(lines[..i], IsConfidenceLine);
    if r.Some? {
      assert lines[..i + 1][r.value] == lines[..i][r.value];
    }
    assert lines[..i + 1][i] == lines[i];
  }

  lemma ExplanationFieldStep(lines: seq<string>, i: nat)
    requires i < |lines|
    ensures ExplanationField(lines[..i + 1])
         == if IsExplanationLine(lines[i]) then ExplanationOf(lines[i]) else ExplanationField(lines[..i])
  {
    LastIndexStep(lines, i, IsExplanationLine);
    var r := LastIndex(lines[..i], IsExplanationLine);
    if r.Some? {
      assert lines[..i + 1][r.value] == lines[..i][r.value];
    }
    assert lines[..i + 1][i] == lines[i];
  }

  /** `analyze_event_ai` behind its `try`: a service failure or a malformed
      confidence becomes the fallback verdict. */
  method AnalyzeEvent(reply: Reply) returns (v: Verdict)
    ensures v == Analysis(reply)
  {
    match reply
    case ServiceError(message) =>
      v := Fallback(message);
    case Content(text) =>
      var p := ParseReply(text);
      match p
      case Parsed(parsed) => v := parsed;
      case Malformed(reason) => v := Fallback(reason);
  }

  // ---------------------------------------------------------------------------
  // Properties of the reading

  /** A reply with no line that sets a field gives the default verdict. */
  lemma NoFieldLinesGiveDefaults(content: string)
    requires forall line :: line in Split(content, '\n') ==> FieldOf(line) == OtherLine
    ensures ParseContent(content) == Parsed(DefaultVerdict)
    ensures Analysis(Content(content)) == DefaultVerdict
  {
    var lines := Split(content, '\n');
    forall j | 0 <= j < |lines|
      ensures !IsMalformed(lines[j]) && !IsDirectionLine(lines[j])
      ensures !IsConfidenceLine(lines[j]) && !IsExplanationLine(lines[j])
    {
      assert lines[j] in lines;
    }
    assert FirstIndex(lines, IsMalformed).None?;
    assert LastIndex(lines, IsDirectionLine).None?;
    assert LastIndex(lines, IsConfidenceLine).None?;
    assert LastIndex(lines, IsExplanationLine).None?;
  }

  /** When several lines set the direction, the last of them decides it. */
  lemma LastDirectionLineWins(content: string, i: nat)
    requires var lines := Split(content, '\n');
      i < |lines| && IsDirectionLine(lines[i]) &&
      (forall j :: i < j < |lines| ==> !IsDirectionLine(lines[j])) &&
      (forall j :: 0 <= j < |lines| ==> !IsMalformed(lines[j]))
    ensures Analysis(Content(content)).direction == DirectionOf(Split(content, '\n')[i])
  {
    var lines := Split(content, '\n');
    assert FirstIndex(lines, IsMalformed).None?;
    LastIndexIs(lines, IsDirectionLine, i);
  }

  /** When several lines set the confidence, the last of them decides it. */
  lemma LastConfidenceLineWins(content: string, i: nat)
    requires var lines := Split(content, '\n');
      i < |lines| && IsConfidenceLine(lines[i]) &&
      (forall j :: i < j < |lines| ==> !IsConfidenceLine(lines[j])) &&
      (forall j :: 0 <= j < |lines| ==> !IsMalformed(lines[j]))
    ensures Some(Analysis(Content(content)).confidence) == ParseInt(ConfidenceText(Split(content, '\n')[i]))
  {
    var lines := Split(content, '\n');
    assert FirstIndex(lines, IsMalformed).None?;
    LastIndexIs(lines, IsConfidenceLine, i);
    assert !IsMalformed(lines[i]);
    assert ParseContent(content).verdict.confidence == ParseInt(ConfidenceText(lines[i])).value;
  }

  /** When several lines set the explanation, the last of them decides it. */
  lemma LastExplanationLineWins(content: string, i: nat)
    requires var lines := Split(content, '\n');
      i < |lines| && IsExplanationLine(lines[i]) &&
      (forall j :: i < j < |lines| ==> !IsExplanationLine(lines[j])) &&
      (forall j :: 0 <= j < |lines| ==> !IsMalformed(lines[j]))
    ensures Analysis(Content(content)).explanation == ExplanationOf(Split(content, '\n')[i])
  {
    var lines := Split(content, '\n');
    assert FirstIndex(lines, IsMalformed).None?;
    LastIndexIs(lines, IsExplanationLine, i);
  }

  /** One confidence line `int()` rejects, anywhere in the reply, discards
      every field read before or after it; the failure names the first such line. */
  lemma MalformedConfidenceFails(content: string, i: nat)
    requires i < |Split(content, '\n')| && IsMalformed(Split(content, '\n')[i])
    ensures var k := FirstIndex(Split(content, '\n'), IsMalformed);
      k.Some? && k.value <= i &&
      Analysis(Content(content)) == Fallback(IntError(ConfidenceText(Split(content, '\n')[k.value])))
    ensures Analysis(Content(content)).direction == "neutral"
    ensures Analysis(Content(content)).confidence == 50
    ensures StartsWith(Analysis(Content(content)).explanation, FailurePrefix)
  {
    var lines := Split(content, '\n');
    var k := FirstIndex(lines, IsMalformed);
    assert k.Some?;
  }

  /** A service failure never escapes: it gives the neutral 50 verdict. */
  lemma ServiceErrorFallsBack(message: string)
    ensures Analysis(ServiceError(message)) == Verdict("neutral", 50, FailurePrefix + message)
  {
  }

  // ---------------------------------------------------------------------------
  // The reply format the prompt asks for, read back

  /** The three labelled lines of the instruction template. */
  function RenderReply(direction: string, confidence: int, explanation: string): string {
    Join(["Direction: " + direction, "Confidence: " + IntToString(confidence) + "%", "Explanation: " + explanation], '\n')
  }

  lemma FieldOfDirectionLabel(rest: string)
    ensures FieldOf("Direction: " + rest) == DirectionLine
  {
    LowerStartsWith("Direction: " + rest, "direction");
  }

  lemma FieldOfConfidenceLabel(rest: string)
    ensures FieldOf("Confidence: " + rest) == ConfidenceLine
  {
    var line := "Confidence: " + rest;
    LowerStartsWith(line, "confidence");
    LowerAt(line, 0);
    NotStartsWithAt(Lower(line), "direction", 0);
  }

  lemma FieldOfExplanationLabel(rest: string)
    ensures FieldOf("Explanation: " + rest) == ExplanationLine
  {
    var line := "Explanation: " + rest;
    LowerStartsWith(line, "explanation");
    LowerAt(line, 0);
    NotStartsWithAt(Lower(line), "direction", 0);
    NotStartsWithAt(Lower(line), "confidence", 0);
  }

  /** The stripped text after the colon of a labelled line: a prefix ending
      in a colon and a space, then a trimmed value without colons. */
  lemma LabelledValue(prefix: string, t: string)
    requires |prefix| >= 2 && prefix[|prefix| - 2] == ':' && prefix[|prefix| - 1] == ' '
    requires IsTrimmed(t) && t != [] && ':' !in t
    ensures Strip(AfterLast(prefix + t, ':')) == t
  {
    var name := prefix[..|prefix| - 2];
    assert prefix + t == name + [':'] + (" " + t);
    AfterLastSuffix(name, " " + t, ':');
    assert forall i :: 0 <= i < |" "| ==> IsSpace(" "[i]);
    StripAround(" ", t, "");
    assert " " + t + "" == " " + t;
  }

  lemma DirectionOfLabelled(d: string)
    requires IsTrimmed(d) && d != [] && ':' !in d
    ensures DirectionOf("Direction: " + d) == Lower(d)
  {
    LabelledValue("Direction: ", d);
  }

  lemma ConfidenceOfLabelled(n: int)
    ensures ConfidenceText("Confidence: " + IntToString(n) + "%") == IntToString(n)
    ensures ParseInt(ConfidenceText("Confidence: " + IntToString(n) + "%")) == Some(n)
  {
    var digits := IntToString(n);
    var t := digits + "%";
    IntToStringChars(n);
    assert ':' !in t && '%' !in digits;
    assert IsTrimmed(t);
    LabelledValue("Confidence: ", t);
    assert "Confidence: " + digits + "%" == "Confidence: " + t;
    RemovePercent(digits);
    ParseIntToString(n);
  }

  /** The text a labelled confidence line gives to `int()`. */
  lemma ConfidenceTextOfLabelled(body: string)
    requires body != [] && !IsSpace(body[0]) && ':' !in body && '%' !in body
    ensures FieldOf("Confidence: " + body + "%") == ConfidenceLine
    ensures ConfidenceText("Confidence: " + body + "%") == body
  {
    var t := body + "%";
    assert t[0] == body[0] && ':' !in t;
    LabelledValue("Confidence: ", t);
    assert "Confidence: " + body + "%" == "Confidence: " + t;
    FieldOfConfidenceLabel(t);
    RemovePercent(body);
  }

  /** A confidence whose number is followed by an information separator
      before the percent sign is rejected by `int()`, so the whole reply falls
      back, although `strip()` treats the separator as whitespace. */
  lemma InfoSeparatorConfidenceIsMalformed(n: int)
    ensures IsMalformed("Confidence: " + (IntToString(n) + ['\U{1C}']) + "%")
  {
    IntToStringChars(n);
    SeparatedConfidenceIsMalformed(IntToString(n), '\U{1C}');
  }

  /** The same for any number text without a leading space, colon or
      percent sign, and any information separator. */
  lemma SeparatedConfidenceIsMalformed(digits: string, c: char)
    requires digits != [] && !IsSpace(digits[0]) && ':' !in digits && '%' !in digits
    requires IsInfoSeparator(c)
    ensures IsMalformed("Confidence: " + (digits + [c]) + "%")
  {
    var body := digits + [c];
    assert body != [] && !IsSpace(body[0]) && ':' !in body && '%' !in body by {
      assert body[0] == digits[0];
      assert c != ':' && c != '%';
    }
    assert ParseInt(body).None? by {
      InfoSeparatorRejected(digits, c, "");
      assert digits + [c] + "" == body;
    }
    MalformedOfLabelled(body);
  }

  /** A labelled confidence whose text `int()` rejects. */
  lemma MalformedOfLabelled(body: string)
    requires body != [] && !IsSpace(body[0]) && ':' !in body && '%' !in body
    requires ParseInt(body).None?
    ensures IsMalformed("Confidence: " + body + "%")
  {
    ConfidenceTextOfLabelled(body);
  }

  lemma RemovePercent(digits: string)
    requires '%' !in digits
    ensures RemoveChar(digits + "%", '%') == digits
  {
    if digits != [] {
      assert (digits + "%")[1..] == digits[1..] + "%";
      RemovePercent(digits[1..]);
    }
  }

  /** The stripped text after the first colon of a labelled line: a prefix
      whose only colon is followed by its final space, then a trimmed value. */
  lemma LabelledText(prefix: string, t: string)
    requires |prefix| >= 2 && prefix[|prefix| - 2] == ':' && prefix[|prefix| - 1] == ' '
    requires ':' !in prefix[..|prefix| - 2]
    requires IsTrimmed(t) && t != []
    ensures Strip(AfterFirst(prefix + t, ':')) == t
  {
    var name, rest := prefix[..|prefix| - 2], " " + t;
    assert AfterFirst(prefix + t, ':') == rest by {
      assert prefix + t == name + [':'] + rest;
      AfterFirstPrefix(name, rest, ':');
    }
    assert Strip(rest) == t by {
      assert forall i :: 0 <= i < |" "| ==> IsSpace(" "[i]);
      StripAround(" ", t, "");
      assert " " + t + "" == rest;
    }
  }

  lemma ExplanationOfLabelled(e: string)
    requires IsTrimmed(e) && e != []
    ensures ExplanationOf("Explanation: " + e) == e
  {
    var prefix := "Explanation: ";
    assert forall i :: 0 <= i < |prefix| - 2 ==> prefix[i] != ':';
    LabelledText(prefix, e);
  }

  /** The rendered reply consists of exactly its three labelled lines. */
  lemma RenderedReplyLines(direction: string, confidence: int, explanation: string)
    requires '\n' !in direction && '\n' !in explanation
    ensures Split(RenderReply(direction, confidence, explanation), '\n')
         == ["Direction: " + direction, "Confidence: " + IntToString(confidence) + "%", "Explanation: " + explanation]
  {
    var digits := IntToString(confidence);
    var l0, l1, l2 := "Direction: " + direction, "Confidence: " + digits + "%", "Explanation: " + explanation;
    IntToStringChars(confidence);
    assert '\n' !in digits;
    SplitJoin([l0, l1, l2], '\n');
  }

  lemma NoMalformedOfThree(l0: string, l1: string, l2: string)
    requires !IsMalformed(l0) && !IsMalformed(l1) && !IsMalformed(l2)
    ensures FirstIndex([l0, l1, l2], IsMalformed).None?
  {
    var lines := [l0, l1, l2];
    forall j | 0 <= j < |lines| ensures !IsMalformed(lines[j]) {
      assert lines[j] == l0 || lines[j] == l1 || lines[j] == l2;
    }
    FirstIndexNone(lines, IsMalformed);
  }

  lemma DirectionOfThree(l0: string, l1: string, l2: string)
    requires IsDirectionLine(l0) && !IsDirectionLine(l1) && !IsDirectionLine(l2)
    ensures DirectionField([l0, l1, l2]) == DirectionOf(l0)
  {
    LastIndexIs([l0, l1, l2], IsDirectionLine, 0);
  }

  lemma ConfidenceOfThree(l0: string, l1: string, l2: string, n: int)
    requires FirstIndex([l0, l1, l2], IsMalformed).None?
    requires IsConfidenceLine(l1) && !IsConfidenceLine(l2)
    requires ParseInt(ConfidenceText(l1)) == Some(n)
    ensures ConfidenceField([l0, l1, l2]) == n
  {
    ConfidenceIndexOfThree(l0, l1, l2);
  }

  lemma ConfidenceIndexOfThree(l0: string, l1: string, l2: string)
    requires IsConfidenceLine(l1) && !IsConfidenceLine(l2)
    ensures LastIndex([l0, l1, l2], IsConfidenceLine) == Some(1)
  {
    LastIndexIs([l0, l1, l2], IsConfidenceLine, 1);
  }

  lemma ExplanationOfThree(l0: string, l1: string, l2: string)
    requires IsExplanationLine(l2)
    ensures ExplanationField([l0, l1, l2]) == ExplanationOf(l2)
  {
    LastIndexIs([l0, l1, l2], IsExplanationLine, 2);
  }

  /** Three lines, one per field in the order the prompt asks for, give the
      fields they carry. */
  lemma ParseThreeLines(l0: string, l1: string, l2: string, n: int)
    requires FieldOf(l0) == DirectionLine && FieldOf(l2) == ExplanationLine
    requires FieldOf(l1) == ConfidenceLine && ParseInt(ConfidenceText(l1)) == Some(n)
    ensures ParseLines([l0, l1, l2]) == Parsed(Verdict(DirectionOf(l0), n, ExplanationOf(l2)))
  {
    NoMalformedOfThree(l0, l1, l2);
    DirectionOfThree(l0, l1, l2);
    ConfidenceOfThree(l0, l1, l2, n);
    ExplanationOfThree(l0, l1, l2);
  }

  /** The three labelled lines of a reply in the requested format. */
  lemma RenderedLinesParse(direction: string, confidence: int, explanation: string)
    requires IsTrimmed(direction) && direction != [] && ':' !in direction
    requires IsTrimmed(explanation) && explanation != []
    ensures ParseLines(["Direction: " + direction, "Confidence: " + IntToString(confidence) + "%", "Explanation: " + explanation])
         == Parsed(Verdict(Lower(direction), confidence, explanation))
  {
    var l0 := "Direction: " + direction;
    var l1 := "Confidence: " + IntToString(confidence) + "%";
    var l2 := "Explanation: " + explanation;
    FieldOfDirectionLabel(direction);
    assert l1 == "Confidence: " + (IntToString(confidence) + "%");
    FieldOfConfidenceLabel(IntToString(confidence) + "%");
    FieldOfExplanationLabel(explanation);
    DirectionOfLabelled(direction);
    ConfidenceOfLabelled(confidence);
    ExplanationOfLabelled(explanation);
    ParseThreeLines(l0, l1, l2, confidence);
  }

  /** A reply in the requested format is read back field for field, with the
      direction lower-cased. */
  lemma RenderedReplyRoundTrip(direction: string, confidence: int, explanation: string)
    requires IsTrimmed(direction) && direction != [] && ':' !in direction && '\n' !in direction
    requires IsTrimmed(explanation) && explanation != [] && '\n' !in explanation
    ensures Analysis(Content(RenderReply(direction, confidence, explanation)))
         == Verdict(Lower(direction), confidence, explanation)
  {
    RenderedReplyLines(direction, confidence, explanation);
    RenderedLinesParse(direction, confidence, explanation);
  }
}
