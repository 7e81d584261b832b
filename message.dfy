/** The alert text `format_result` builds for a forwarded headline: eight
    lines between newlines, the first and the last empty. */
module Message {
  import opened Text
  import opened ReplyParser

  const Falling := "📉"
  const Rising := "📈"
  const Flat := "➖"

  /** The arrow shown after the direction. */
  function Arrow(direction: string): (a: string)
    ensures a == Falling <==> direction == "down"
    ensures a == Rising <==> direction == "up"
    ensures a == Flat <==> direction != "down" && direction != "up"
  {
    if direction == "down" then Falling else if direction == "up" then Rising else Flat
  }

  /** The eight lines of the message, in order: an empty line, the headline,
      the time, the fixed banner, the upper-cased direction with its arrow,
      the confidence with a percent sign, the explanation, and an empty line. */
  function MessageLines(title: string, v: Verdict, published: string): (ls: seq<string>)
    ensures |ls| == 8
  {
    ["", "📰 " + title, "🕒 Published: " + published, "🤖 AI-based analysis",
     "Direction: " + Upper(v.direction) + " " + Arrow(v.direction),
     "Confidence: " + IntToString(v.confidence) + "%",
     "Explanation: " + v.explanation, ""]
  }

  /** The message for a headline, a verdict and the displayed publication
      time: the formatted string literal is those eight lines joined by
      newlines, so it starts and ends with a newline. */
  function FormatResult(title: string, v: Verdict, published: string): (m: string)
    ensures |m| >= 2 && m[0] == '\n' && m[|m| - 1] == '\n'
  {
    var ls := MessageLines(title, v, published);
    JoinFirst(ls, '\n');
    JoinLast(ls, '\n');
    Join(ls, '\n')
  }

  /** Upper-casing introduces no newline. */
  lemma {:induction false} UpperKeepsNewlines(s: string)
    requires '\n' !in s
    ensures '\n' !in Upper(s)
  {
    if s != [] {
      UpperKeepsNewlines(s[1..]);
    }
  }

  /** With no newline in the headline, the direction, the explanation or the
      time, splitting the message on newlines gives back its eight lines: the
      headline, the time and the explanation each stand on a line of their
      own behind their label. */
  lemma MessageSplitsIntoLines(title: string, v: Verdict, published: string)
    requires '\n' !in title && '\n' !in published
    requires '\n' !in v.direction && '\n' !in v.explanation
    ensures Split(FormatResult(title, v, published), '\n') == MessageLines(title, v, published)
  {
    var ls := MessageLines(title, v, published);
    UpperKeepsNewlines(v.direction);
    IntToStringChars(v.confidence);
    forall i | 0 <= i < |ls|
      ensures '\n' !in ls[i]
    {
    }
    SplitJoin(ls, '\n');
  }

  /** The direction line names the upper-cased direction and its arrow: up
      and down are shown rising and falling, anything else flat. */
  lemma DirectionLineShowsArrow(title: string, v: Verdict, published: string)
    ensures v.direction == "up" ==> MessageLines(title, v, published)[4] == "Direction: UP " + Rising
    ensures v.direction == "down" ==> MessageLines(title, v, published)[4] == "Direction: DOWN " + Falling
  {
    assert Upper("up") == "UP";
    assert Upper("down") == "DOWN";
  }
}
