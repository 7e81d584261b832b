/** The publication-time reformat at the top of the article loop: the raw
    `publishedAt` value is read with the `strptime` format
    `%Y-%m-%dT%H:%M:%SZ` and printed with `%Y-%m-%d %H:%M UTC`; a value that
    is missing or does not parse shows as "Unknown time".

    The reading follows the regular expressions CPython's `_strptime` builds
    for those directives (compiled case-insensitively) and the range checks of
    `datetime`: four digits for the year; one or two digits for month, hour,
    minute and second; the day also as a space and one digit. Digits are the
    ASCII digits only. */
module Timestamp {
  import opened Text

  /** The fields `strptime` keeps for this format. */
  datatype DateTime = DateTime(year: nat, month: nat, day: nat, hour: nat, minute: nat, second: nat)

  const UnknownTime := "Unknown time"

  /** The separators of the input format after each field, in order. */
  const Separators := "--T::Z"

  predicate IsLeapYear(y: nat) {
    y % 4 == 0 && (y % 100 != 0 || y % 400 == 0)
  }

  function DaysInMonth(y: nat, m: nat): nat
    requires 1 <= m <= 12
  {
    if m == 2 then (if IsLeapYear(y) then 29 else 28)
    else if m == 4 || m == 6 || m == 9 || m == 11 then 30
    else 31
  }

  /** The values `datetime` accepts. */
  predicate IsValid(dt: DateTime) {
    1 <= dt.year <= 9999 && 1 <= dt.month <= 12 && 1 <= dt.day <= DaysInMonth(dt.year, dt.month)
    && dt.hour <= 23 && dt.minute <= 59 && dt.second <= 59
  }

  // ---------------------------------------------------------------------------
  // Reading

  /** What a field of this format is made of. */
  predicate IsFieldChar(c: char) {
    IsDigit(c) || c == ' '
  }

  /** The length of the field at the start of `s`: the run of digits and
      spaces before the next separator. */
  function FieldLength(s: string): (n: nat)
    ensures n <= |s|
  {
    if s != [] && IsFieldChar(s[0]) then 1 + FieldLength(s[1..]) else 0
  }

  /** The fields of `s` from the `k`-th on, each followed by its separator
      (compared case-insensitively), with nothing left after the last one. */
  function SplitFields(s: string, k: nat): (r: Option<seq<string>>)
    requires k <= |Separators|
    ensures r.Some? ==> |r.value| == |Separators| - k
    decreases |Separators| - k
  {
    if k == |Separators| then
      (if s == [] then Some([]) else None)
    else
      var n := FieldLength(s);
      if n < |s| && LowerChar(s[n]) == LowerChar(Separators[k]) then
        match SplitFields(s[n + 1..], k + 1)
        case None => None
        case Some(rest) => Some([s[..n]] + rest)
      else None
  }

  /** One or two digits whose value lies in `lo..hi`. */
  function Number(t: string, lo: nat, hi: nat): Option<nat> {
    if 1 <= |t| <= 2 && AllDigits(t) && lo <= DigitsValue(t) <= hi then Some(DigitsValue(t)) else None
  }

  /** `%Y`: exactly four digits. */
  function YearField(t: string): Option<nat> {
    if |t| == 4 && AllDigits(t) then Some(DigitsValue(t)) else None
  }

  /** `%d`: `3[01]|[12]\d|0[1-9]|[1-9]| [1-9]`. */
  function DayField(t: string): Option<nat> {
    if |t| == 2 && t[0] == ' ' && IsDigit(t[1]) && t[1] != '0' then Some(DigitValue(t[1]))
    else Number(t, 1, 31)
  }

  /** `strptime(raw, "%Y-%m-%dT%H:%M:%SZ")`, or `None` where it raises. */
  function ParseIso(s: string): (r: Option<DateTime>)
    ensures r.Some? ==> IsValid(r.value)
  {
    match SplitFields(s, 0)
    case None => None
    case Some(f) => ReadFields(f)
  }

  /** The six fields read with their directives, then checked by `datetime`. */
  function ReadFields(f: seq<string>): (r: Option<DateTime>)
    requires |f| == 6
    ensures r.Some? ==> IsValid(r.value)
  {
    // %m: 1[0-2]|0[1-9]|[1-9]   %H: 2[0-3]|[0-1]\d|\d   %M: [0-5]\d|\d   %S: 6[0-1]|[0-5]\d|\d
    match (YearField(f[0]), Number(f[1], 1, 12), DayField(f[2]), Number(f[3], 0, 23), Number(f[4], 0, 59), Number(f[5], 0, 61))
    case (Some(y), Some(mo), Some(d), Some(h), Some(mi), Some(se)) =>
      var dt := DateTime(y, mo, d, h, mi, se);
      if IsValid(dt) then Some(dt) else None
    case _ => None
  }

  // ---------------------------------------------------------------------------
  // Printing

  /** A number below 100 with two digits. */
  function Pad2(n: nat): (r: string)
    requires n < 100
    ensures |r| == 2 && AllDigits(r) && DigitsValue(r) == n
  {
    var r := [DigitChar(n / 10), DigitChar(n % 10)];
    assert r[..1] == [DigitChar(n / 10)] && r[..1][..0] == [];
    assert DigitsValue(r[..1]) == n / 10;
    r
  }

  /** A number below 10000 with four digits. */
  function Pad4(n: nat): (r: string)
    requires n < 10000
    ensures |r| == 4 && AllDigits(r) && DigitsValue(r) == n
  {
    var r := Pad2(n / 100) + Pad2(n % 100);
    assert r[..3] == Pad2(n / 100) + [r[2]];
    assert r[..2] == Pad2(n / 100);
    r
  }

  /** `dt.strftime("%Y-%m-%d %H:%M UTC")` */
  function Display(dt: DateTime): (r: string)
    requires IsValid(dt)
    ensures |r| == 20
  {
    Pad4(dt.year) + "-" + Pad2(dt.month) + "-" + Pad2(dt.day) + " " + Pad2(dt.hour) + ":" + Pad2(dt.minute) + " UTC"
  }

  /** Fields, each followed by its separator. */
  function JoinFields(fs: seq<string>, seps: string): string
    requires |fs| == |seps|
  {
    if fs == [] then [] else fs[0] + [seps[0]] + JoinFields(fs[1..], seps[1..])
  }

  /** The zero-padded text of the input format. */
  function Iso(dt: DateTime): string
    requires dt.year < 10000 && dt.month < 100 && dt.day < 100
    requires dt.hour < 100 && dt.minute < 100 && dt.second < 100
  {
    JoinFields(IsoFields(dt), Separators)
  }

  /** The published-at text of an article: `raw` is `None` when the article
      has no usable `publishedAt` (missing, or not a string). */
  function Reformat(raw: Option<string>): (r: string)
    ensures r == UnknownTime <==> raw.None? || ParseIso(raw.value).None?
  {
    match raw
    case None => UnknownTime
    case Some(s) =>
      match ParseIso(s)
      case None => UnknownTime
      case Some(dt) => Display(dt)
  }

  // ---------------------------------------------------------------------------
  // Properties

  lemma {:induction false} FieldLengthOf(f: string, rest: string)
    requires forall i :: 0 <= i < |f| ==> IsFieldChar(f[i])
    requires rest != [] && !IsFieldChar(rest[0])
    ensures FieldLength(f + rest) == |f|
  {
    if f != [] {
      assert (f + rest)[1..] == f[1..] + rest;
      FieldLengthOf(f[1..], rest);
    } else {
      assert f + rest == rest;
    }
  }

  /** One field and its separator at the front of the input. */
  lemma SplitFieldsCons(f: string, c: char, rest: string, k: nat, fs: seq<string>)
    requires FieldChars(f)
    requires k < |Separators| && !IsFieldChar(c) && LowerChar(c) == LowerChar(Separators[k])
    requires SplitFields(rest, k + 1) == Some(fs)
    ensures SplitFields(f + [c] + rest, k) == Some([f] + fs)
  {
    var s := f + [c] + rest;
    assert s == f + ([c] + rest);
    FieldLengthOf(f, [c] + rest);
    assert s[|f|] == c;
    assert s[..|f|] == f;
    assert s[|f| + 1..] == rest;
  }

  predicate FieldChars(t: string) {
    forall i :: 0 <= i < |t| ==> IsFieldChar(t[i])
  }

  /** Separators that the case-insensitive match accepts from the `k`-th on. */
  predicate MatchesSeparators(seps: string, k: nat)
    requires k <= |Separators|
  {
    |seps| == |Separators| - k
    && forall j :: 0 <= j < |seps| ==> !IsFieldChar(seps[j]) && LowerChar(seps[j]) == LowerChar(Separators[k + j])
  }

  /** Fields of digits and spaces joined by separators the format accepts are
      split back into those fields. */
  lemma {:induction false} SplitJoinFields(fs: seq<string>, seps: string, k: nat)
    requires k <= |Separators| && |fs| == |seps| && MatchesSeparators(seps, k)
    requires forall j :: 0 <= j < |fs| ==> FieldChars(fs[j])
    ensures SplitFields(JoinFields(fs, seps), k) == Some(fs)
  {
    if fs != [] {
      assert MatchesSeparators(seps[1..], k + 1) by {
        forall j | 0 <= j < |seps[1..]|
          ensures !IsFieldChar(seps[1..][j]) && LowerChar(seps[1..][j]) == LowerChar(Separators[k + 1 + j])
        {
          assert seps[1..][j] == seps[j + 1];
        }
      }
      SplitJoinFields(fs[1..], seps[1..], k + 1);
      assert FieldChars(fs[0]);
      assert !IsFieldChar(seps[0]) && LowerChar(seps[0]) == LowerChar(Separators[k]);
      SplitFieldsCons(fs[0], seps[0], JoinFields(fs[1..], seps[1..]), k, fs[1..]);
      assert [fs[0]] + fs[1..] == fs;
    }
  }

  lemma DigitsAreFieldChars(t: string)
    requires AllDigits(t)
    ensures FieldChars(t)
  {
  }

  lemma FormatSeparatorsMatch()
    ensures MatchesSeparators(Separators, 0)
  {
  }

  /** The zero-padded fields of a date-time, in the order of the format. */
  function IsoFields(dt: DateTime): (fs: seq<string>)
    requires dt.year < 10000 && dt.month < 100 && dt.day < 100
    requires dt.hour < 100 && dt.minute < 100 && dt.second < 100
    ensures |fs| == 6
  {
    [Pad4(dt.year), Pad2(dt.month), Pad2(dt.day), Pad2(dt.hour), Pad2(dt.minute), Pad2(dt.second)]
  }

  /** The zero-padded text splits into its six fields. */
  lemma SplitIso(dt: DateTime)
    requires dt.year < 10000 && dt.month < 100 && dt.day < 100
    requires dt.hour < 100 && dt.minute < 100 && dt.second < 100
    ensures SplitFields(Iso(dt), 0) == Some(IsoFields(dt))
  {
    var fs := IsoFields(dt);
    forall j | 0 <= j < |fs| ensures FieldChars(fs[j]) {
      DigitsAreFieldChars(fs[j]);
    }
    FormatSeparatorsMatch();
    SplitJoinFields(fs, Separators, 0);
  }

  /** A two-digit field reads as its value when that lies in the range. */
  lemma NumberOfPad2(n: nat, lo: nat, hi: nat)
    requires n < 100
    ensures Number(Pad2(n), lo, hi) == if lo <= n <= hi then Some(n) else None
  {
  }

  /** A zero-padded day is read like any two-digit field. */
  lemma DayOfPad2(n: nat)
    requires n < 100
    ensures DayField(Pad2(n)) == Number(Pad2(n), 1, 31)
  {
    assert Pad2(n)[0] != ' ';
  }

  /** The zero-padded input text of a date-time is read back exactly when
      `datetime` accepts its values. */
  lemma ParseIsoOfIso(dt: DateTime)
    requires dt.year < 10000 && dt.month < 100 && dt.day < 100
    requires dt.hour < 100 && dt.minute < 100 && dt.second < 100
    ensures ParseIso(Iso(dt)) == if IsValid(dt) then Some(dt) else None
  {
    SplitIso(dt);
    var f := IsoFields(dt);
    NumberOfPad2(dt.month, 1, 12);
    DayOfPad2(dt.day);
    NumberOfPad2(dt.day, 1, 31);
    NumberOfPad2(dt.hour, 0, 23);
    NumberOfPad2(dt.minute, 0, 59);
    NumberOfPad2(dt.second, 0, 61);
    ReadFieldsOf(f, dt);
  }

  /** Fields that read as the values of a date-time, each within its
      directive's range, give that date-time when it is valid. */
  lemma ReadFieldsOf(f: seq<string>, dt: DateTime)
    requires |f| == 6
    requires YearField(f[0]) == Some(dt.year)
    requires Number(f[1], 1, 12) == if 1 <= dt.month <= 12 then Some(dt.month) else None
    requires DayField(f[2]) == if 1 <= dt.day <= 31 then Some(dt.day) else None
    requires Number(f[3], 0, 23) == if dt.hour <= 23 then Some(dt.hour) else None
    requires Number(f[4], 0, 59) == if dt.minute <= 59 then Some(dt.minute) else None
    requires Number(f[5], 0, 61) == if dt.second <= 61 then Some(dt.second) else None
    ensures ReadFields(f) == if IsValid(dt) then Some(dt) else None
  {
  }

  /** A field and its separator added at the end. */
  lemma {:induction false} JoinFieldsSnoc(fs: seq<string>, seps: string, f: string, c: char)
    requires |fs| == |seps|
    ensures JoinFields(fs + [f], seps + [c]) == JoinFields(fs, seps) + f + [c]
  {
    if fs == [] {
      assert fs + [f] == [f] && seps + [c] == [c];
    } else {
      assert (fs + [f])[1..] == fs[1..] + [f];
      assert (seps + [c])[1..] == seps[1..] + [c];
      JoinFieldsSnoc(fs[1..], seps[1..], f, c);
    }
  }

  // The text of the first fields and their separators, one field at a time.

  lemma JoinOne(a: string, seps: string)
    requires |seps| >= 1
    ensures JoinFields([a], seps[..1]) == a + [seps[0]]
  {
    assert [a][1..] == [] && seps[..1][1..] == [];
  }

  lemma JoinTwo(a: string, b: string, seps: string)
    requires |seps| >= 2
    ensures JoinFields([a, b], seps[..2]) == a + [seps[0]] + b + [seps[1]]
  {
    JoinOne(a, seps);
    JoinFieldsSnoc([a], seps[..1], b, seps[1]);
    assert [a] + [b] == [a, b] && seps[..1] + [seps[1]] == seps[..2];
  }

  lemma JoinThree(a: string, b: string, c: string, seps: string)
    requires |seps| >= 3
    ensures JoinFields([a, b, c], seps[..3]) == a + [seps[0]] + b + [seps[1]] + c + [seps[2]]
  {
    JoinTwo(a, b, seps);
    JoinFieldsSnoc([a, b], seps[..2], c, seps[2]);
    assert [a, b] + [c] == [a, b, c] && seps[..2] + [seps[2]] == seps[..3];
  }

  lemma JoinFour(a: string, b: string, c: string, d: string, seps: string)
    requires |seps| >= 4
    ensures JoinFields([a, b, c, d], seps[..4]) == a + [seps[0]] + b + [seps[1]] + c + [seps[2]] + d + [seps[3]]
  {
    JoinThree(a, b, c, seps);
    JoinFieldsSnoc([a, b, c], seps[..3], d, seps[3]);
    assert [a, b, c] + [d] == [a, b, c, d] && seps[..3] + [seps[3]] == seps[..4];
  }

  lemma JoinFive(a: string, b: string, c: string, d: string, e: string, seps: string)
    requires |seps| >= 5
    ensures JoinFields([a, b, c, d, e], seps[..5])
         == a + [seps[0]] + b + [seps[1]] + c + [seps[2]] + d + [seps[3]] + e + [seps[4]]
  {
    JoinFour(a, b, c, d, seps);
    JoinFieldsSnoc([a, b, c, d], seps[..4], e, seps[4]);
    assert [a, b, c, d] + [e] == [a, b, c, d, e] && seps[..4] + [seps[4]] == seps[..5];
  }

  /** The text of six fields joined by six separators. */
  lemma JoinSix(a: string, b: string, c: string, d: string, e: string, f: string, seps: string)
    requires |seps| == 6
    ensures JoinFields([a, b, c, d, e, f], seps)
         == a + [seps[0]] + b + [seps[1]] + c + [seps[2]] + d + [seps[3]] + e + [seps[4]] + f + [seps[5]]
  {
    JoinFive(a, b, c, d, e, seps);
    JoinFieldsSnoc([a, b, c, d, e], seps[..5], f, seps[5]);
    assert [a, b, c, d, e] + [f] == [a, b, c, d, e, f] && seps[..5] + [seps[5]] == seps;
  }

  /** The zero-padded input text, field by field. */
  lemma IsoText(dt: DateTime)
    requires dt.year < 10000 && dt.month < 100 && dt.day < 100
    requires dt.hour < 100 && dt.minute < 100 && dt.second < 100
    ensures Iso(dt) == Pad4(dt.year) + "-" + Pad2(dt.month) + "-" + Pad2(dt.day) + "T"
      + Pad2(dt.hour) + ":" + Pad2(dt.minute) + ":" + Pad2(dt.second) + "Z"
  {
    JoinSix(Pad4(dt.year), Pad2(dt.month), Pad2(dt.day), Pad2(dt.hour), Pad2(dt.minute), Pad2(dt.second), Separators);
  }

  /** The display text is the input text without its seconds, with " UTC". */
  lemma DisplayOfIso(dt: DateTime)
    requires IsValid(dt)
    ensures var iso := Iso(dt); |iso| == 20 && Display(dt) == iso[..10] + " " + iso[11..16] + " UTC"
  {
    IsoText(dt);
    var iso := Iso(dt);
    var y, mo, d := Pad4(dt.year), Pad2(dt.month), Pad2(dt.day);
    var h, mi := Pad2(dt.hour), Pad2(dt.minute);
    assert iso[..10] == y + "-" + mo + "-" + d;
    assert iso[11..16] == h + ":" + mi;
  }

  /** A valid timestamp keeps its date and its hours and minutes, drops its
      seconds and gains " UTC". */
  lemma ReformatDropsSeconds(dt: DateTime)
    requires IsValid(dt)
    ensures var iso := Iso(dt); |iso| == 20 && Reformat(Some(iso)) == iso[..10] + " " + iso[11..16] + " UTC"
  {
    ParseIsoOfIso(dt);
    DisplayOfIso(dt);
  }

  /** A date `datetime` rejects (a 30th of February, a 60th second, month 0)
      shows as "Unknown time", however well-formed its text. */
  lemma InvalidDateIsUnknown(dt: DateTime)
    requires dt.year < 10000 && dt.month < 100 && dt.day < 100
    requires dt.hour < 100 && dt.minute < 100 && dt.second < 100
    requires !IsValid(dt)
    ensures Reformat(Some(Iso(dt))) == UnknownTime
  {
    ParseIsoOfIso(dt);
  }

  /** The display text reads back as the date-time's year, month, day, hour
      and minute, in that order, between the separators of the display
      format. */
  lemma DisplayFields(dt: DateTime)
    requires IsValid(dt)
    ensures var r := Display(dt);
      r[4] == '-' && r[7] == '-' && r[10] == ' ' && r[13] == ':' && r[16..] == " UTC"
      && AllDigits(r[..4]) && DigitsValue(r[..4]) == dt.year
      && AllDigits(r[5..7]) && DigitsValue(r[5..7]) == dt.month
      && AllDigits(r[8..10]) && DigitsValue(r[8..10]) == dt.day
      && AllDigits(r[11..13]) && DigitsValue(r[11..13]) == dt.hour
      && AllDigits(r[14..16]) && DigitsValue(r[14..16]) == dt.minute
  {
    DisplayLayout(Pad4(dt.year), Pad2(dt.month), Pad2(dt.day), Pad2(dt.hour), Pad2(dt.minute));
  }

  /** Where each piece of the display format lies. */
  lemma DisplayLayout(y: string, mo: string, d: string, h: string, mi: string)
    requires |y| == 4 && |mo| == 2 && |d| == 2 && |h| == 2 && |mi| == 2
    ensures var r := y + "-" + mo + "-" + d + " " + h + ":" + mi + " UTC";
      r[4] == '-' && r[7] == '-' && r[10] == ' ' && r[13] == ':' && r[16..] == " UTC"
      && r[..4] == y && r[5..7] == mo && r[8..10] == d && r[11..13] == h && r[14..16] == mi
  {
    var r1 := y + "-";
    var r2 := r1 + mo + "-";
    var r3 := r2 + d + " ";
    var r4 := r3 + h + ":";
    var r := r4 + mi + " UTC";
    assert |r1| == 5 && |r2| == 8 && |r3| == 11 && |r4| == 14;
    assert r[..4] == y && r[4] == '-' by {
      assert r[..5] == r1;
    }
    assert r[5..7] == mo && r[7] == '-' by {
      assert r[..8] == r2;
    }
    assert r[8..10] == d && r[10] == ' ' by {
      assert r[..11] == r3;
    }
    assert r[11..13] == h && r[13] == ':' by {
      assert r[..14] == r4;
    }
    assert r[14..16] == mi && r[16..] == " UTC";
  }

  /** The length of the field at the front of a text that holds a separator
      does not depend on what follows the text. */
  lemma {:induction false} FieldLengthAppend(s: string, t: string)
    requires FieldLength(s) < |s|
    ensures FieldLength(s + t) == FieldLength(s)
  {
    assert (s + t)[0] == s[0];
    if IsFieldChar(s[0]) {
      assert (s + t)[1..] == s[1..] + t;
      FieldLengthAppend(s[1..], t);
    }
  }

  /** Text that splits into the remaining fields leaves nothing over, so
      anything appended to it is refused. */
  lemma {:induction false} SplitFieldsAppend(s: string, t: string, k: nat)
    requires k <= |Separators| && SplitFields(s, k).Some? && t != []
    ensures SplitFields(s + t, k).None?
    decreases |Separators| - k
  {
    if k == |Separators| {
      assert s + t == t;
    } else {
      var n := FieldLength(s);
      FieldLengthAppend(s, t);
      assert (s + t)[n] == s[n];
      assert (s + t)[n + 1..] == s[n + 1..] + t;
      SplitFieldsAppend(s[n + 1..], t, k + 1);
    }
  }

  /** `strptime` raises "unconverted data remains" for text after the `Z`:
      a timestamp followed by anything shows as "Unknown time". */
  lemma TrailingTextRejected(s: string, t: string)
    requires ParseIso(s).Some? && t != []
    ensures ParseIso(s + t).None?
    ensures Reformat(Some(s + t)) == UnknownTime
  {
    SplitFieldsAppend(s, t, 0);
  }

  /** A first field of digits and spaces followed by any other character than
      a hyphen (a slash, a dot, a letter) does not match the format. */
  lemma WrongSeparatorRejected(f: string, c: char, rest: string)
    requires FieldChars(f) && !IsFieldChar(c) && c != '-'
    ensures ParseIso(f + [c] + rest).None?
    ensures Reformat(Some(f + [c] + rest)) == UnknownTime
  {
    var s := f + [c] + rest;
    assert s == f + ([c] + rest);
    FieldLengthOf(f, [c] + rest);
    assert s[|f|] == c;
    assert LowerChar(c) != LowerChar('-');
  }

  /** A missing value and the empty default both show as "Unknown time". */
  lemma MissingIsUnknown()
    ensures Reformat(None) == UnknownTime
    ensures Reformat(Some("")) == UnknownTime
  {
    assert FieldLength("") == 0;
  }

  /** The single-digit and space-padded fields CPython's `strptime` allows. */
  function LenientFields(dt: DateTime): (fs: seq<string>)
    requires dt.year < 10000 && dt.month < 10 && dt.day < 10 && dt.hour < 10 && dt.minute < 10 && dt.second < 10
    ensures |fs| == 6
  {
    [Pad4(dt.year), [DigitChar(dt.month)], [' ', DigitChar(dt.day)],
     [DigitChar(dt.hour)], [DigitChar(dt.minute)], [DigitChar(dt.second)]]
  }

  lemma SplitLenient(dt: DateTime)
    requires dt.year < 10000 && dt.month < 10 && dt.day < 10 && dt.hour < 10 && dt.minute < 10 && dt.second < 10
    ensures SplitFields(JoinFields(LenientFields(dt), "--t::z"), 0) == Some(LenientFields(dt))
  {
    var fs := LenientFields(dt);
    DigitsAreFieldChars(fs[0]);
    assert forall j :: 0 <= j < |fs| ==> FieldChars(fs[j]);
    assert MatchesSeparators("--t::z", 0);
    SplitJoinFields(fs, "--t::z", 0);
  }

  lemma LenientFieldValues(dt: DateTime)
    requires IsValid(dt)
    requires dt.month < 10 && dt.day < 10 && dt.hour < 10 && dt.minute < 10 && dt.second < 10
    ensures var fs := LenientFields(dt);
      YearField(fs[0]) == Some(dt.year) && Number(fs[1], 1, 12) == Some(dt.month) && DayField(fs[2]) == Some(dt.day)
      && Number(fs[3], 0, 23) == Some(dt.hour) && Number(fs[4], 0, 59) == Some(dt.minute)
      && Number(fs[5], 0, 61) == Some(dt.second)
  {
    var fs := LenientFields(dt);
    assert DigitsValue(fs[1]) == dt.month && DigitsValue(fs[3]) == dt.hour;
    assert DigitsValue(fs[4]) == dt.minute && DigitsValue(fs[5]) == dt.second;
  }

  /** Single-digit fields, a space-padded day and a lower-case `t` and `z`
      read as the same date-time as the zero-padded text. */
  lemma LenientFieldsAccepted(dt: DateTime)
    requires IsValid(dt)
    requires dt.month < 10 && dt.day < 10 && dt.hour < 10 && dt.minute < 10 && dt.second < 10
    ensures ParseIso(JoinFields(LenientFields(dt), "--t::z")) == Some(dt)
  {
    SplitLenient(dt);
    LenientFieldValues(dt);
  }
}
