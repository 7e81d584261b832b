/** String helpers with the meaning of the Python `str` methods the analyzer uses:
    `strip`, `lower`, `upper`, `split`, `startswith`, `in`, `replace` of one
    character, and the built-ins `int(...)` and `str(int)`. */
module Text {

  datatype Option<+T> = None | Some(value: T)

  // ---------------------------------------------------------------------------
  // Whitespace and strip()

  /** The characters for which Python's `str.isspace()` holds. */
  predicate IsSpace(c: char) {
    ('\U{9}' <= c <= '\U{D}') || ('\U{1C}' <= c <= ' ') || c == '\U{85}' || c == '\U{A0}'
    || c == '\U{1680}' || ('\U{2000}' <= c <= '\U{200A}') || c == '\U{2028}' || c == '\U{2029}'
    || c == '\U{202F}' || c == '\U{205F}' || c == '\U{3000}'
  }

  function StripRight(s: string): (r: string)
    ensures |r| <= |s| && r == s[..|r|]
    ensures r == [] || !IsSpace(r[|r| - 1])
  {
    if |s| > 0 && IsSpace(s[|s| - 1]) then StripRight(s[..|s| - 1]) else s
  }

  function StripLeft(s: string): (r: string)
    ensures |r| <= |s| && r == s[|s| - |r|..]
    ensures r == [] || !IsSpace(r[0])
  {
    if |s| > 0 && IsSpace(s[0]) then StripLeft(s[1..]) else s
  }

  /** Python's `s.strip()`: drop leading and trailing whitespace. */
  function Strip(s: string): (r: string)
    ensures |r| <= |s|
    ensures r == [] || (!IsSpace(r[0]) && !IsSpace(r[|r| - 1]))
  {
    StripLeft(StripRight(s))
  }

  /** A string that strip() leaves alone. */
  predicate IsTrimmed(s: string) {
    s == [] || (!IsSpace(s[0]) && !IsSpace(s[|s| - 1]))
  }

  lemma StripRightAppendSpace(s: string, w: char)
    requires IsSpace(w)
    ensures StripRight(s + [w]) == StripRight(s)
  {
    assert (s + [w])[..|s|] == s;
  }

  /** One trailing whitespace character (a line's `\n`) does not change strip(). */
  lemma StripAppendSpace(s: string, w: char)
    requires IsSpace(w)
    ensures Strip(s + [w]) == Strip(s)
  {
    StripRightAppendSpace(s, w);
  }

  lemma {:induction false} StripRightTrimmed(s: string)
    requires s == [] || !IsSpace(s[|s| - 1])
    ensures StripRight(s) == s
  {
  }

  lemma {:induction false} StripLeftTrimmed(s: string)
    requires s == [] || !IsSpace(s[0])
    ensures StripLeft(s) == s
  {
  }

  /** strip() is the identity exactly on strings without surrounding whitespace. */
  lemma StripIdentity(s: string)
    ensures Strip(s) == s <==> IsTrimmed(s)
  {
    if IsTrimmed(s) {
      StripRightTrimmed(s);
      StripLeftTrimmed(s);
    }
  }

  /** strip() keeps a contiguous part of its input, so it adds no character. */
  lemma StripChars(s: string)
    ensures forall c :: c in Strip(s) ==> c in s
  {
    var r := StripRight(s);
    var t := StripLeft(r);
    forall c | c in t ensures c in s {
      var i :| 0 <= i < |t| && t[i] == c;
      assert t[i] == r[|r| - |t| + i];
      assert r[|r| - |t| + i] == s[|r| - |t| + i];
    }
  }

  /** strip() is idempotent. */
  lemma StripIdempotent(s: string)
    ensures Strip(Strip(s)) == Strip(s)
  {
    StripIdentity(Strip(s));
  }

  /** Stripping a whitespace prefix and suffix around a trimmed core gives the core. */
  lemma {:induction false} StripLeftSpaces(pre: string, t: string)
    requires forall i :: 0 <= i < |pre| ==> IsSpace(pre[i])
    requires t == [] || !IsSpace(t[0])
    ensures StripLeft(pre + t) == t
  {
    if pre == [] {
      assert pre + t == t;
      StripLeftTrimmed(t);
    } else {
      assert (pre + t)[1..] == pre[1..] + t;
      StripLeftSpaces(pre[1..], t);
    }
  }

  lemma {:induction false} StripRightSpaces(t: string, post: string)
    requires forall i :: 0 <= i < |post| ==> IsSpace(post[i])
    requires t == [] || !IsSpace(t[|t| - 1])
    ensures StripRight(t + post) == t
  {
    if post == [] {
      assert t + post == t;
      StripRightTrimmed(t);
    } else {
      assert (t + post)[..|t + post| - 1] == t + post[..|post| - 1];
      StripRightSpaces(t, post[..|post| - 1]);
    }
  }

  lemma StripAround(pre: string, t: string, post: string)
    requires forall i :: 0 <= i < |pre| ==> IsSpace(pre[i])
    requires forall i :: 0 <= i < |post| ==> IsSpace(post[i])
    requires IsTrimmed(t) && t != []
    ensures Strip(pre + t + post) == t
  {
    assert pre + t + post == pre + (t + post);
    StripRightSpaces(pre + t, post);
    StripLeftSpaces(pre, t);
  }

  // ---------------------------------------------------------------------------
  // lower() and upper(), on ASCII letters

  function LowerChar(c: char): char {
    if 'A' <= c <= 'Z' then (c as int + 32) as char else c
  }

  function UpperChar(c: char): char {
    if 'a' <= c <= 'z' then (c as int - 32) as char else c
  }

  /** Python's `s.lower()`, restricted to the ASCII letters. */
  function Lower(s: string): (r: string)
    ensures |r| == |s|
  {
    if s == [] then [] else [LowerChar(s[0])] + Lower(s[1..])
  }

  /** Python's `s.upper()`, restricted to the ASCII letters. */
  function Upper(s: string): (r: string)
    ensures |r| == |s|
  {
    if s == [] then [] else [UpperChar(s[0])] + Upper(s[1..])
  }

  lemma {:induction false} LowerAt(s: string, i: nat)
    requires i < |s|
    ensures Lower(s)[i] == LowerChar(s[i])
  {
    if i > 0 {
      LowerAt(s[1..], i - 1);
    }
  }

  predicate IsLower(s: string) {
    forall i :: 0 <= i < |s| ==> LowerChar(s[i]) == s[i]
  }

  /** lower() is idempotent and leaves lower-case text alone. */
  lemma {:induction false} LowerIdempotent(s: string)
    ensures Lower(Lower(s)) == Lower(s)
    ensures IsLower(s) ==> Lower(s) == s
  {
    if s != [] {
      LowerIdempotent(s[1..]);
    }
  }

  lemma {:induction false} LowerConcat(a: string, b: string)
    ensures Lower(a + b) == Lower(a) + Lower(b)
  {
    if a != [] {
      assert (a + b)[1..] == a[1..] + b;
      LowerConcat(a[1..], b);
      assert Lower(a + b) == [LowerChar(a[0])] + (Lower(a[1..]) + Lower(b));
    } else {
      assert a + b == b;
    }
  }

  /** Upper-casing first does not change what lower() gives. */
  lemma {:induction false} LowerOfUpper(s: string)
    ensures Lower(Upper(s)) == Lower(s)
  {
    if s != [] {
      LowerOfUpper(s[1..]);
    }
  }

  // ---------------------------------------------------------------------------
  // Prefixes, substrings, removing one character

  /** Python's `s.startswith(p)`. */
  predicate StartsWith(s: string, p: string) {
    p <= s
  }

  /** `s.lower().startswith(p)`, checked character by character. */
  lemma LowerStartsWith(s: string, p: string)
    requires |p| <= |s|
    requires forall k :: 0 <= k < |p| ==> LowerChar(s[k]) == p[k]
    ensures StartsWith(Lower(s), p)
  {
    forall k | 0 <= k < |p|
      ensures Lower(s)[k] == p[k]
    {
      LowerAt(s, k);
    }
  }

  /** A string does not start with `p` when they differ at some position of `p`. */
  lemma NotStartsWithAt(s: string, p: string, i: nat)
    requires i < |p| && i < |s| && s[i] != p[i]
    ensures !StartsWith(s, p)
  {
  }

  /** Python's `sub in s` for strings. */
  predicate IsSubstring(sub: string, s: string)
    decreases |s|
  {
    sub <= s || (|s| > 0 && IsSubstring(sub, s[1..]))
  }

  /** An occurrence anywhere in a string is found. */
  lemma {:induction false} IsSubstringWitness(sub: string, pre: string, post: string)
    ensures IsSubstring(sub, pre + sub + post)
  {
    if pre == [] {
      assert pre + sub + post == sub + post;
    } else {
      assert (pre + sub + post)[1..] == pre[1..] + sub + post;
      IsSubstringWitness(sub, pre[1..], post);
    }
  }

  /** Python's `s.replace(c, "")` for one character `c`. */
  function RemoveChar(s: string, c: char): (r: string)
    ensures c !in r
    ensures |r| <= |s|
    ensures c !in s ==> r == s
  {
    if s == [] then [] else (if s[0] == c then [] else [s[0]]) + RemoveChar(s[1..], c)
  }

  // ---------------------------------------------------------------------------
  // split()

  /** Python's `s.split(c)` for a one-character separator: the pieces between
      the separators, one more piece than there are separators. */
  function Split(s: string, c: char): (r: seq<string>)
    ensures |r| >= 1
    ensures forall i :: 0 <= i < |r| ==> c !in r[i]
    ensures Join(r, c) == s
  {
    if s == [] then [[]]
    else
      var rest := Split(s[1..], c);
      if s[0] == c then [[]] + rest else [[s[0]] + rest[0]] + rest[1..]
  }

  /** A character absent from the text is absent from every piece. */
  lemma {:induction false} SplitKeepsAbsent(s: string, c: char, d: char)
    requires d !in s
    ensures forall i :: 0 <= i < |Split(s, c)| ==> d !in Split(s, c)[i]
  {
    if s != [] {
      SplitKeepsAbsent(s[1..], c, d);
      var rest := Split(s[1..], c);
      assert d !in rest[0];
      if s[0] != c {
        assert [s[0]] + rest[0] == Split(s, c)[0];
      }
    }
  }

  /** `c.join(parts)`, the inverse of splitting. */
  function Join(parts: seq<string>, c: char): string {
    if parts == [] then []
    else if |parts| == 1 then parts[0]
    else parts[0] + [c] + Join(parts[1..], c)
  }

  /** The join of two or more pieces starts with the first piece and the
      separator. */
  lemma JoinFirst(parts: seq<string>, c: char)
    requires |parts| >= 2
    ensures Join(parts, c) == parts[0] + [c] + Join(parts[1..], c)
  {
  }

  /** The join of two or more pieces ends with the separator and the last
      piece. */
  lemma {:induction false} JoinLast(parts: seq<string>, c: char)
    requires |parts| >= 2
    ensures Join(parts, c) == Join(parts[..|parts| - 1], c) + [c] + parts[|parts| - 1]
  {
    if |parts| > 2 {
      var tail := parts[1..];
      JoinLast(tail, c);
      assert tail[..|tail| - 1] == parts[..|parts| - 1][1..];
      assert tail[|tail| - 1] == parts[|parts| - 1];
      assert parts[..|parts| - 1][0] == parts[0];
    } else {
      assert parts[..1] == [parts[0]] && parts[1..] == [parts[1]];
    }
  }

  /** Splitting the join of separator-free pieces gives the pieces back. */
  lemma {:induction false} SplitJoin(parts: seq<string>, c: char)
    requires |parts| >= 1
    requires forall i :: 0 <= i < |parts| ==> c !in parts[i]
    ensures Split(Join(parts, c), c) == parts
  {
    if |parts| == 1 {
      SplitFree(parts[0], c);
    } else {
      SplitJoin(parts[1..], c);
      SplitPrefix(parts[0], Join(parts[1..], c), c);
    }
  }

  lemma {:induction false} SplitFree(s: string, c: char)
    requires c !in s
    ensures Split(s, c) == [s]
  {
    if s != [] {
      SplitFree(s[1..], c);
    }
  }

  lemma {:induction false} SplitPrefix(a: string, b: string, c: char)
    requires c !in a
    ensures Split(a + [c] + b, c) == [a] + Split(b, c)
  {
    if a == [] {
      assert (a + [c] + b)[1..] == b;
    } else {
      assert (a + [c] + b)[1..] == a[1..] + [c] + b;
      SplitPrefix(a[1..], b, c);
      assert [a[0]] + a[1..] == a;
    }
  }

  function Last<T>(s: seq<T>): T
    requires |s| > 0
  {
    s[|s| - 1]
  }

  /** `s.split(c)[-1]`: the text after the last `c`, or all of `s` without one. */
  function AfterLast(s: string, c: char): string {
    Last(Split(s, c))
  }

  /** `s.split(c, 1)[-1]`: the text after the first `c`, or all of `s` without one. */
  function AfterFirst(s: string, c: char): (r: string)
    ensures c !in s ==> r == s
    ensures c in s ==> exists k :: 0 <= k < |s| && s[k] == c && c !in s[..k] && r == s[k + 1..]
  {
    if c !in s then s
    else if s[0] == c then s[1..]
    else
      var r := AfterFirst(s[1..], c);
      assert exists k :: 0 <= k < |s| && s[k] == c && c !in s[..k] && r == s[k + 1..] by {
        var k :| 0 <= k < |s[1..]| && s[1..][k] == c && c !in s[1..][..k] && r == s[1..][k + 1..];
        assert s[..k + 1] == [s[0]] + s[1..][..k];
        assert s[k + 2..] == s[1..][k + 1..];
      }
      r
  }

  /** What follows the last `c` of `a + [c] + b`, when `b` has none, is `b`. */
  lemma {:induction false} AfterLastSuffix(a: string, b: string, c: char)
    requires c !in b
    ensures |Split(a + [c] + b, c)| >= 2
    ensures AfterLast(a + [c] + b, c) == b
  {
    var s := a + [c] + b;
    if a == [] {
      assert s[1..] == b;
      SplitFree(b, c);
    } else {
      assert s[1..] == a[1..] + [c] + b;
      AfterLastSuffix(a[1..], b, c);
    }
  }

  /** With no `c` in the prefix, what follows the first `c` of `a + [c] + b` is `b`. */
  lemma AfterFirstPrefix(a: string, b: string, c: char)
    requires c !in a
    ensures AfterFirst(a + [c] + b, c) == b
  {
    var s := a + [c] + b;
    assert s[|a|] == c;
    var k :| 0 <= k < |s| && s[k] == c && c !in s[..k] && AfterFirst(s, c) == s[k + 1..];
    assert k == |a|;
    assert s[|a| + 1..] == b;
  }

  // ---------------------------------------------------------------------------
  // int() and str() on integers

  predicate IsDigit(c: char) {
    '0' <= c <= '9'
  }

  function DigitValue(c: char): nat
    requires IsDigit(c)
  {
    c as int - '0' as int
  }

  function DigitChar(d: nat): (c: char)
    requires d < 10
    ensures IsDigit(c) && DigitValue(c) == d
  {
    ('0' as int + d) as char
  }

  predicate AllDigits(s: string) {
    forall i :: 0 <= i < |s| ==> IsDigit(s[i])
  }

  /** The decimal value of a string of ASCII digits, most significant first. */
  function DigitsValue(s: string): nat
    requires AllDigits(s)
  {
    if s == [] then 0 else 10 * DigitsValue(s[..|s| - 1]) + DigitValue(s[|s| - 1])
  }

  /** The digit strings `int()` accepts: digits, with single underscores allowed
      between two digits. */
  predicate IsDigitGroups(s: string) {
    |s| > 0 && IsDigit(s[0]) && IsDigit(s[|s| - 1])
    && (forall i :: 0 <= i < |s| ==> IsDigit(s[i]) || s[i] == '_')
    && (forall i :: 0 <= i < |s| - 1 && s[i] == '_' ==> s[i + 1] != '_')
  }

  lemma RemoveUnderscoresDigits(s: string)
    requires forall i :: 0 <= i < |s| ==> IsDigit(s[i]) || s[i] == '_'
    ensures AllDigits(RemoveChar(s, '_'))
  {
    if s != [] {
      RemoveUnderscoresDigits(s[1..]);
    }
  }

  /** The value of a digit string `int()` accepts, or `None`. */
  function ParseUnsigned(body: string): Option<nat> {
    if IsDigitGroups(body) then
      RemoveUnderscoresDigits(body);
      Some(DigitsValue(RemoveChar(body, '_')))
    else None
  }

  /** A stripped string read as an optional sign followed by a digit string. */
  function ParseSigned(t: string): Option<int> {
    if |t| > 0 && (t[0] == '-' || t[0] == '+') then
      match ParseUnsigned(t[1..])
      case None => None
      case Some(n) =>
        var v: int := n;
        Some(if t[0] == '-' then -v else v)
    else
      match ParseUnsigned(t)
      case None => None
      case Some(n) =>
        var v: int := n;
        Some(v)
  }

  /** The information separators U+001C..U+001F: `str.isspace()` holds for
      them, but `int()` passes ASCII characters to its parser unchanged and
      that parser skips only space, tab, newline, vertical tab, form feed and
      carriage return, so none of them is ever accepted by `int()`. */
  predicate IsInfoSeparator(c: char) {
    '\U{1C}' <= c <= '\U{1F}'
  }

  predicate HasInfoSeparator(s: string) {
    exists i :: 0 <= i < |s| && IsInfoSeparator(s[i])
  }

  /** The whitespace `int()` skips around the number: every `str.isspace()`
      character but the information separators. */
  predicate IsIntSpace(c: char) {
    IsSpace(c) && !IsInfoSeparator(c)
  }

  /** Python's `int(s)` in base 10 on ASCII digits: whitespace other than the
      information separators around an optional sign and a digit string;
      `None` where Python raises `ValueError`. */
  function ParseInt(s: string): Option<int> {
    if HasInfoSeparator(s) then None else ParseSigned(Strip(s))
  }

  /** The decimal digits of `n` without leading zeros. */
  function NatToString(n: nat): (r: string)
    ensures |r| > 0 && AllDigits(r)
  {
    if n < 10 then [DigitChar(n)] else NatToString(n / 10) + [DigitChar(n % 10)]
  }

  /** Python's `str(n)` for an integer. */
  function IntToString(n: int): string {
    if n < 0 then "-" + NatToString(-n) else NatToString(n)
  }

  /** A printed integer holds only digits and possibly a leading minus sign. */
  lemma IntToStringChars(n: int)
    ensures forall i :: 0 <= i < |IntToString(n)| ==> IsDigit(IntToString(n)[i]) || IntToString(n)[i] == '-'
  {
    if n < 0 {
      var d := NatToString(-n);
      assert forall i :: 0 <= i < |d| ==> IsDigit(d[i]);
      assert forall i :: 1 <= i < |"-" + d| ==> ("-" + d)[i] == d[i - 1];
    }
  }

  lemma {:induction false} NatToStringValue(n: nat)
    ensures DigitsValue(NatToString(n)) == n
  {
    var s := NatToString(n);
    if n >= 10 {
      NatToStringValue(n / 10);
      assert s[..|s| - 1] == NatToString(n / 10);
    }
  }

  lemma ParseUnsignedDigits(d: string)
    requires |d| > 0 && AllDigits(d)
    ensures ParseUnsigned(d) == Some(DigitsValue(d))
  {
    assert '_' !in d;
  }

  lemma ParseSignedNegative(t: string)
    requires |t| > 1 && t[0] == '-' && AllDigits(t[1..])
    ensures ParseSigned(t) == Some(0 - DigitsValue(t[1..]))
  {
    ParseUnsignedDigits(t[1..]);
  }

  lemma NegativeTrimmed(digits: string)
    requires |digits| > 0 && AllDigits(digits)
    ensures IsTrimmed("-" + digits)
  {
    var t := "-" + digits;
    DigitNotSpace(digits[|digits| - 1]);
    assert t[|t| - 1] == digits[|digits| - 1];
  }

  lemma DigitNotSpace(c: char)
    requires IsDigit(c)
    ensures !IsSpace(c)
  {
  }

  lemma ParseSignedDigits(digits: string)
    requires |digits| > 0 && AllDigits(digits)
    ensures IsTrimmed(digits)
    ensures ParseSigned(digits) == Some(DigitsValue(digits))
  {
    ParseUnsignedDigits(digits);
  }

  /** `int(str(n)) == n`: reading back a printed integer gives the integer. */
  lemma ParseIntToString(n: int)
    ensures ParseInt(IntToString(n)) == Some(n)
  {
    if n < 0 {
      ParseNegativeToString(-n);
    } else {
      ParseNatToString(n);
    }
  }

  lemma ParseNatToString(n: nat)
    ensures ParseInt(IntToString(n)) == Some(n)
  {
    var d := NatToString(n);
    NatToStringValue(n);
    ParseSignedDigits(d);
    StripIdentity(d);
    NoInfoSeparatorInNumber(n);
  }

  lemma ParseNegativeToString(m: nat)
    requires m > 0
    ensures ParseInt(IntToString(-(m as int))) == Some(-(m as int))
  {
    var d := NatToString(m);
    NatToStringValue(m);
    assert ("-" + d)[1..] == d;
    ParseSignedNegative("-" + d);
    NegativeTrimmed(d);
    StripIdentity("-" + d);
    NoInfoSeparatorInNumber(-(m as int));
  }

  lemma NoInfoSeparatorInNumber(n: int)
    ensures !HasInfoSeparator(IntToString(n))
  {
    IntToStringChars(n);
  }

  /** `int()` ignores the whitespace it skips around a number. */
  lemma ParseIntSpaces(pre: string, t: string, post: string)
    requires forall i :: 0 <= i < |pre| ==> IsIntSpace(pre[i])
    requires forall i :: 0 <= i < |post| ==> IsIntSpace(post[i])
    requires IsTrimmed(t) && t != []
    ensures ParseInt(pre + t + post) == ParseInt(t)
  {
    var s := pre + t + post;
    if HasInfoSeparator(t) {
      var k :| 0 <= k < |t| && IsInfoSeparator(t[k]);
      assert s[|pre| + k] == t[k];
    } else {
      forall i | 0 <= i < |s|
        ensures !IsInfoSeparator(s[i])
      {
        if i < |pre| {
          assert s[i] == pre[i];
        } else if i < |pre| + |t| {
          assert s[i] == t[i - |pre|];
        } else {
          assert s[i] == post[i - |pre| - |t|];
        }
      }
      StripAround(pre, t, post);
      StripIdentity(t);
    }
  }

  /** An information separator anywhere makes `int()` raise, although
      `strip()` would drop it at either end. */
  lemma InfoSeparatorRejected(pre: string, c: char, post: string)
    requires IsInfoSeparator(c)
    ensures IsSpace(c)
    ensures ParseInt(pre + [c] + post).None?
  {
    assert (pre + [c] + post)[|pre|] == c;
  }


  // ---------------------------------------------------------------------------
  // Searching a sequence

  /** The index of the first element satisfying `p`. */
  function FirstIndex<T>(s: seq<T>, p: T -> bool): (r: Option<nat>)
    ensures r.Some? ==> r.value < |s| && p(s[r.value])
    ensures r.Some? ==> forall j :: 0 <= j < r.value ==> !p(s[j])
    ensures r.None? ==> forall j :: 0 <= j < |s| ==> !p(s[j])
  {
    if s == [] then None
    else if p(s[0]) then Some(0)
    else
      match FirstIndex(s[1..], p)
      case None => None
      case Some(k) => Some(k + 1)
  }

  /** The index of the last element satisfying `p`. */
  function LastIndex<T>(s: seq<T>, p: T -> bool): (r: Option<nat>)
    ensures r.Some? ==> r.value < |s| && p(s[r.value])
    ensures r.Some? ==> forall j :: r.value < j < |s| ==> !p(s[j])
    ensures r.None? ==> forall j :: 0 <= j < |s| ==> !p(s[j])
  {
    if s == [] then None
    else if p(Last(s)) then Some(|s| - 1)
    else LastIndex(s[..|s| - 1], p)
  }

  /** The first-index search finds nothing when no element satisfies `p`. */
  lemma FirstIndexNone<T>(s: seq<T>, p: T -> bool)
    requires forall j :: 0 <= j < |s| ==> !p(s[j])
    ensures FirstIndex(s, p).None?
  {
  }

  /** The last-index search finds the element after which none satisfies `p`. */
  lemma LastIndexIs<T>(s: seq<T>, p: T -> bool, i: nat)
    requires i < |s| && p(s[i])
    requires forall j :: i < j < |s| ==> !p(s[j])
    ensures LastIndex(s, p) == Some(i)
  {
    var r := LastIndex(s, p);
  }

  /** How the last-index search over a prefix changes when it grows by one. */
  lemma LastIndexStep<T>(s: seq<T>, i: nat, p: T -> bool)
    requires i < |s|
    ensures LastIndex(s[..i + 1], p) == if p(s[i]) then Some(i) else LastIndex(s[..i], p)
  {
    var next := s[..i + 1];
    assert next[..i] == s[..i];
    assert Last(next) == s[i];
  }

  /** The first-index search finds the element before which none satisfies `p`. */
  lemma FirstIndexIs<T>(s: seq<T>, p: T -> bool, i: nat)
    requires i < |s| && p(s[i])
    requires forall j :: 0 <= j < i ==> !p(s[j])
    ensures FirstIndex(s, p) == Some(i)
  {
    var r := FirstIndex(s, p);
  }

  /** How the first-index search over a prefix changes when it grows by one. */
  lemma FirstIndexStep<T>(s: seq<T>, i: nat, p: T -> bool)
    requires i < |s|
    requires FirstIndex(s[..i], p).None?
    ensures !p(s[i]) ==> FirstIndex(s[..i + 1], p).None?
    ensures p(s[i]) ==> FirstIndex(s, p) == Some(i)
  {
    PrefixNone(s, i, p);
    if !p(s[i]) {
      FirstIndexGrows(s, i, p);
    } else {
      FirstIndexIs(s, p, i);
    }
  }

  lemma PrefixNone<T>(s: seq<T>, i: nat, p: T -> bool)
    requires i <= |s|
    requires FirstIndex(s[..i], p).None?
    ensures forall j :: 0 <= j < i ==> !p(s[j])
  {
    forall j | 0 <= j < i
      ensures !p(s[j])
    {
      assert s[j] == s[..i][j];
    }
  }

  lemma FirstIndexGrows<T>(s: seq<T>, i: nat, p: T -> bool)
    requires i < |s| && !p(s[i])
    requires forall j :: 0 <= j < i ==> !p(s[j])
    ensures FirstIndex(s[..i + 1], p).None?
  {
    var next := s[..i + 1];
    forall j | 0 <= j < |next|
      ensures !p(next[j])
    {
      assert next[j] == s[j];
    }
    FirstIndexNone(next, p);
  }
}
