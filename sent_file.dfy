/** The persisted list of forwarded headlines, `sent_headlines.txt`, as the
    text it holds: `save_sent_headline` appends the title and a newline, and
    `load_sent_headlines` reads the file in text mode (universal newlines),
    takes `readlines()` and keeps the set of stripped lines; a missing file
    loads as the empty set. */
module SentFile {
  import opened Text

  /** The file's text; `None` when the file does not exist. */
  type File = Option<string>

  /** Universal-newline reading: `"\r\n"` and a lone `"\r"` become `"\n"`. */
  function Translate(s: string): (r: string)
    ensures '\r' !in r
    ensures '\r' !in s ==> r == s
    decreases |s|
  {
    if s == [] then []
    else if s[0] == '\r' then
      "\n" + Translate(if |s| > 1 && s[1] == '\n' then s[2..] else s[1..])
    else [s[0]] + Translate(s[1..])
  }

  /** Text before the first carriage return is read unchanged. */
  lemma {:induction false} TranslatePrefix(a: string, x: string)
    requires '\r' !in a
    ensures Translate(a + x) == a + Translate(x)
  {
    if a == [] {
      assert a + x == x;
    } else {
      var c, rest := a[0], a[1..];
      assert c != '\r' && '\r' !in rest by {
        assert a == [c] + rest;
      }
      TranslatePrefix(rest, x);
      calc {
        Translate(a + x);
        { ConsAppend(c, rest, x); }
        Translate([c] + (rest + x));
        { TranslateCons(c, rest + x); }
        [c] + (rest + Translate(x));
        { ConsAppend(c, rest, Translate(x)); }
        a + Translate(x);
      }
    }
  }

  lemma ConsAppend(c: char, rest: string, y: string)
    ensures [c] + (rest + y) == ([c] + rest) + y
  {
  }

  lemma TranslateCons(c: char, y: string)
    requires c != '\r'
    ensures Translate([c] + y) == [c] + Translate(y)
  {
    assert ([c] + y)[1..] == y;
  }

  /** A `"\r\n"` pair is read as one newline. */
  lemma TranslateCrLf(a: string, b: string)
    requires '\r' !in a
    ensures Translate(a + "\r\n" + b) == a + "\n" + Translate(b)
  {
    var x := "\r\n" + b;
    assert a + "\r\n" + b == a + x;
    TranslatePrefix(a, x);
    assert x[0] == '\r' && |x| > 1 && x[1] == '\n' && x[2..] == b;
    assert Translate(x) == "\n" + Translate(b);
  }

  /** A carriage return not followed by a newline is read as a newline. */
  lemma TranslateLoneCr(a: string, b: string)
    requires '\r' !in a
    requires b == [] || b[0] != '\n'
    ensures Translate(a + "\r" + b) == a + "\n" + Translate(b)
  {
    var x := "\r" + b;
    assert a + "\r" + b == a + x;
    TranslatePrefix(a, x);
    assert x[0] == '\r' && x[1..] == b;
    assert !(|x| > 1 && x[1] == '\n');
    assert Translate(x) == "\n" + Translate(b);
  }

  /** The lines `readlines()` gives for the pieces between newlines: every
      piece but the last keeps its newline, and an empty last piece is no line. */
  function LinesOf(parts: seq<string>): (lines: seq<string>)
    requires |parts| >= 1
    ensures |lines| >= |parts| - 1
  {
    if |parts| == 1 then (if parts[0] == [] then [] else [parts[0]])
    else [parts[0] + "\n"] + LinesOf(parts[1..])
  }

  /** `readlines()` on a translated text. */
  function ReadLines(text: string): seq<string> {
    LinesOf(Split(text, '\n'))
  }

  /** `set(line.strip() for line in lines)`, built line by line. */
  function StrippedSet(lines: seq<string>): set<string> {
    if lines == [] then {} else {Strip(lines[0])} + StrippedSet(lines[1..])
  }

  /** Every member of the set is some line, stripped. */
  lemma {:induction false} StrippedSetWitness(lines: seq<string>, x: string)
    requires x in StrippedSet(lines)
    ensures exists i :: 0 <= i < |lines| && x == Strip(lines[i])
  {
    if x != Strip(lines[0]) {
      StrippedSetWitness(lines[1..], x);
      var i :| 0 <= i < |lines[1..]| && x == Strip(lines[1..][i]);
      assert lines[i + 1] == lines[1..][i];
    }
  }

  /** Every line, stripped, is in the set. */
  lemma {:induction false} StrippedSetHas(lines: seq<string>, i: nat)
    requires i < |lines|
    ensures Strip(lines[i]) in StrippedSet(lines)
  {
    var x := Strip(lines[i]);
    if i > 0 {
      var rest := lines[1..];
      assert rest[i - 1] == lines[i];
      StrippedSetHas(rest, i - 1);
      assert x in StrippedSet(rest);
    }
  }

  /** Adding a line at the end adds its stripped form. */
  lemma {:induction false} StrippedSetSnoc(lines: seq<string>, line: string)
    ensures StrippedSet(lines + [line]) == StrippedSet(lines) + {Strip(line)}
  {
    if lines == [] {
      assert lines + [line] == [line];
      assert [line][1..] == [];
    } else {
      assert (lines + [line])[1..] == lines[1..] + [line];
      StrippedSetSnoc(lines[1..], line);
    }
  }

  /** What `load_sent_headlines` returns for the file. */
  function Load(file: File): set<string> {
    match file
    case None => {}
    case Some(text) => StrippedSet(ReadLines(Translate(text)))
  }

  /** The file after `save_sent_headline(title)`: opening in append mode
      creates a missing file. */
  function Save(file: File, title: string): (r: File)
    ensures r.Some?
  {
    match file
    case None => Some(title + "\n")
    case Some(text) => Some(text + title + "\n")
  }

  /** The loop that fills the set, one stripped line at a time. */
  method LoadSentHeadlines(file: File) returns (sent: set<string>)
    ensures sent == Load(file)
  {
    sent := {};
    if file.Some? {
      var lines := ReadLines(Translate(file.value));
      for i := 0 to |lines|
        invariant sent == StrippedSet(lines[..i])
      {
        StrippedSetStep(lines, i);
        sent := sent + {Strip(lines[i])};
      }
      assert lines[..|lines|] == lines;
    }
  }

  lemma StrippedSetStep(lines: seq<string>, i: nat)
    requires i < |lines|
    ensures StrippedSet(lines[..i + 1]) == StrippedSet(lines[..i]) + {Strip(lines[i])}
  {
    assert lines[..i + 1] == lines[..i] + [lines[i]];
    StrippedSetSnoc(lines[..i], lines[i]);
  }

  // ---------------------------------------------------------------------------
  // The text a sequence of saves produces

  /** No line break a read would split on. */
  predicate NoLineBreak(s: string) {
    '\n' !in s && '\r' !in s
  }

  /** The text of a file written only by `save_sent_headline`, in this order. */
  function SavedText(titles: seq<string>): string {
    if titles == [] then [] else titles[0] + "\n" + SavedText(titles[1..])
  }

  lemma {:induction false} SavedTextAppend(titles: seq<string>, title: string)
    ensures SavedText(titles + [title]) == SavedText(titles) + title + "\n"
  {
    if titles == [] {
      assert titles + [title] == [title];
    } else {
      assert (titles + [title])[1..] == titles[1..] + [title];
      SavedTextAppend(titles[1..], title);
    }
  }

  /** Saving appends to the saved text; a missing file starts empty. */
  lemma SaveExtends(titles: seq<string>, title: string)
    ensures Save(Some(SavedText(titles)), title) == Some(SavedText(titles + [title]))
    ensures Save(None, title) == Some(SavedText([title]))
  {
    SavedTextAppend(titles, title);
    assert [title][1..] == [];
    assert SavedText([title]) == title + "\n" + SavedText([]);
    assert title + "\n" + [] == title + "\n";
  }

  /** A missing file behaves like an empty one, for loading and for saving. */
  lemma MissingFileLikeEmpty(title: string)
    ensures Load(None) == Load(Some(SavedText([]))) == {}
    ensures Save(None, title) == Save(Some(SavedText([])), title)
  {
    assert Split([], '\n') == [[]];
    assert [] + title + "\n" == title + "\n";
  }

  lemma {:induction false} SavedTextHasNoReturn(titles: seq<string>)
    requires forall i :: 0 <= i < |titles| ==> NoLineBreak(titles[i])
    ensures '\r' !in SavedText(titles)
  {
    if titles != [] {
      SavedTextHasNoReturn(titles[1..]);
    }
  }

  /** Reading back the saved text gives each saved title, stripped. */
  lemma {:induction false} LoadSavedText(titles: seq<string>)
    requires forall i :: 0 <= i < |titles| ==> NoLineBreak(titles[i])
    ensures StrippedSet(ReadLines(SavedText(titles))) == StrippedSet(titles)
  {
    if titles == [] {
      assert Split([], '\n') == [[]];
    } else {
      var t, rest := titles[0], titles[1..];
      LoadSavedText(rest);
      ReadSavedLines(t, rest);
      StripAppendSpace(t, '\n');
    }
  }

  /** The first saved title is the first line read back, with its newline. */
  lemma ReadSavedLines(t: string, rest: seq<string>)
    requires NoLineBreak(t)
    ensures ReadLines(SavedText([t] + rest)) == [t + "\n"] + ReadLines(SavedText(rest))
  {
    assert ([t] + rest)[1..] == rest;
    assert SavedText([t] + rest) == t + ['\n'] + SavedText(rest);
    SplitPrefix(t, SavedText(rest), '\n');
  }

  /** A file written by saves loads as the set of the saved titles, stripped. */
  lemma LoadOfSaves(titles: seq<string>)
    requires forall i :: 0 <= i < |titles| ==> NoLineBreak(titles[i])
    ensures Load(Some(SavedText(titles))) == StrippedSet(titles)
  {
    SavedTextHasNoReturn(titles);
    LoadSavedText(titles);
  }

  // ---------------------------------------------------------------------------
  // Properties of the round trip

  /** After saving a title without line breaks, the loaded set holds the
      stripped title, besides what the file held before. */
  lemma SaveThenLoad(titles: seq<string>, title: string)
    requires forall i :: 0 <= i < |titles| ==> NoLineBreak(titles[i])
    requires NoLineBreak(title)
    ensures Load(Save(Some(SavedText(titles)), title)) == Load(Some(SavedText(titles))) + {Strip(title)}
    ensures Strip(title) in Load(Save(Some(SavedText(titles)), title))
  {
    SaveExtends(titles, title);
    var all := titles + [title];
    forall i | 0 <= i < |all|
      ensures NoLineBreak(all[i])
    {
      if i < |titles| {
        assert all[i] == titles[i];
      }
    }
    LoadOfSaves(titles);
    LoadOfSaves(all);
    StrippedSetSnoc(titles, title);
  }

  /** Every loaded entry is a stripped line: it has no surrounding whitespace
      and no line break. */
  lemma LoadedEntriesAreTrimmed(file: File, x: string)
    requires x in Load(file)
    ensures IsTrimmed(x) && NoLineBreak(x)
  {
    var text := Translate(file.value);
    var parts := Split(text, '\n');
    var lines := ReadLines(text);
    StrippedSetWitness(lines, x);
    var j :| 0 <= j < |lines| && x == Strip(lines[j]);
    var line := lines[j];
    StripIdempotent(line);
    StripIdentity(x);
    LinePieces(parts, line);
    var k :| 0 <= k < |parts| && (line == parts[k] || line == parts[k] + "\n");
    SplitKeepsAbsent(text, '\n', '\r');
    StripNoBreak(line, parts[k]);
  }

  /** Each line read is a piece between newlines, possibly with its newline. */
  lemma {:induction false} LinePieces(parts: seq<string>, line: string)
    requires |parts| >= 1 && line in LinesOf(parts)
    ensures exists k :: 0 <= k < |parts| && (line == parts[k] || line == parts[k] + "\n")
  {
    if |parts| > 1 && line != parts[0] + "\n" {
      LinePieces(parts[1..], line);
      var k :| 0 <= k < |parts[1..]| && (line == parts[1..][k] || line == parts[1..][k] + "\n");
      assert parts[k + 1] == parts[1..][k];
    }
  }

  /** Stripping a piece without line breaks, or that piece with its newline,
      leaves no line break. */
  lemma StripNoBreak(line: string, piece: string)
    requires NoLineBreak(piece)
    requires line == piece || line == piece + "\n"
    ensures NoLineBreak(Strip(line))
  {
    if line == piece + "\n" {
      StripAppendSpace(piece, '\n');
    }
    StripChars(piece);
  }

  /** A title with surrounding whitespace or a line break is never in a loaded
      set, whatever the file holds: after a reload it is no longer known as
      sent. */
  lemma UntrimmedTitleNeverLoaded(file: File, title: string)
    requires !IsTrimmed(title) || !NoLineBreak(title)
    ensures title !in Load(file)
  {
    if title in Load(file) {
      LoadedEntriesAreTrimmed(file, title);
    }
  }

  /** A saved title comes back from the file exactly when it has no
      surrounding whitespace. */
  lemma SavedTitleFoundIffTrimmed(titles: seq<string>, title: string)
    requires forall i :: 0 <= i < |titles| ==> NoLineBreak(titles[i])
    requires NoLineBreak(title)
    ensures title in Load(Save(Some(SavedText(titles)), title)) <==> IsTrimmed(title)
  {
    SaveThenLoad(titles, title);
    StripIdentity(title);
    if !IsTrimmed(title) {
      UntrimmedTitleNeverLoaded(Save(Some(SavedText(titles)), title), title);
    }
  }
}
