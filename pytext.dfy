/**
  The Python `str` operations the schedule parser is built from, with CPython's
  semantics: `strip()`, `split(sep)`, `split(sep, 1)` and `int(text)`. The one
  departure: `int` here reads only the ASCII digits '0'..'9', whereas CPython
  also accepts every other Unicode decimal digit (`int("\uFF11\uFF12") == 12`).
*/
module PyText {
  import opened Wrappers

  /** `str.isspace()` for one character (the characters CPython strips by default). */
  predicate IsSpace(c: char) {
    || c == ' '
    || ('\t' <= c <= '\r')
    || ('\U{1C}' <= c <= '\U{1F}')
    || c == '\U{85}' || c == '\U{A0}' || c == '\U{1680}'
    || ('\U{2000}' <= c <= '\U{200A}')
    || c == '\U{2028}' || c == '\U{2029}' || c == '\U{202F}' || c == '\U{205F}' || c == '\U{3000}'
  }

  /** `s.lstrip()`. */
  function StripLeft(s: string): (r: string)
    ensures |r| <= |s|
  {
    if s != [] && IsSpace(s[0]) then StripLeft(s[1..]) else s
  }

  /** `lstrip()` drops a whitespace prefix and stops at the first other character. */
  lemma {:induction false} StripLeftSpec(s: string)
    ensures StripLeft(s) == s[|s| - |StripLeft(s)|..]
    ensures StripLeft(s) != [] ==> !IsSpace(StripLeft(s)[0])
    ensures forall k :: 0 <= k < |s| - |StripLeft(s)| ==> IsSpace(s[k])
    decreases |s|
  {
    if s != [] && IsSpace(s[0]) {
      StripLeftSpec(s[1..]);
    }
  }

  /** `s.rstrip()`. */
  function StripRight(s: string): (r: string)
    ensures |r| <= |s|
  {
    if s != [] && IsSpace(s[|s| - 1]) then StripRight(s[..|s| - 1]) else s
  }

  /** `rstrip()` drops a whitespace suffix and stops at the last other character. */
  lemma {:induction false} StripRightSpec(s: string)
    ensures StripRight(s) == s[..|StripRight(s)|]
    ensures StripRight(s) != [] ==> !IsSpace(StripRight(s)[|StripRight(s)| - 1])
    ensures forall k :: |StripRight(s)| <= k < |s| ==> IsSpace(s[k])
    decreases |s|
  {
    if s != [] && IsSpace(s[|s| - 1]) {
      StripRightSpec(s[..|s| - 1]);
    }
  }

  /** `s.strip()`. */
  function Strip(s: string): (r: string)
    ensures |r| <= |s|
  {
    StripRight(StripLeft(s))
  }

  /** What `strip()` keeps starts and ends with a non-whitespace character. */
  lemma StripEdges(s: string)
    ensures var r := Strip(s); r != [] ==> !IsSpace(r[0]) && !IsSpace(r[|r| - 1])
  {
    StripLeftSpec(s);
    StripRightSpec(StripLeft(s));
  }

  /** A string strips to nothing exactly when every character in it is whitespace. */
  lemma StripEmptyIffAllSpace(s: string)
    ensures Strip(s) == [] <==> forall k :: 0 <= k < |s| ==> IsSpace(s[k])
  {
    StripLeftSpec(s);
    StripRightSpec(StripLeft(s));
  }

  /** Stripping only removes characters. */
  lemma StripOmits(s: string, c: char)
    requires c !in s
    ensures c !in Strip(s)
  {
    StripLeftSpec(s);
    var l := StripLeft(s);
    StripRightSpec(l);
    assert c !in l;
  }

  /** A string with no whitespace at either end is its own strip. */
  lemma StripNoEdgeSpace(s: string)
    requires s != [] ==> !IsSpace(s[0]) && !IsSpace(s[|s| - 1])
    ensures Strip(s) == s
  {
  }

  /** Index of the first occurrence of `c` in `s`, as `s.find(c)` when it is not -1. */
  function IndexOf(s: string, c: char): (r: Option<nat>)
    ensures r.None? <==> c !in s
    ensures r.Some? ==> r.value < |s| && s[r.value] == c
  {
    if s == [] then None
    else if s[0] == c then Some(0)
    else match IndexOf(s[1..], c)
      case None => None
      case Some(i) => Some(i + 1)
  }

  /** The index found is that of the first occurrence. */
  lemma {:induction false} IndexOfFirst(s: string, c: char)
    ensures var r := IndexOf(s, c); r.Some? ==> c !in s[..r.value]
  {
    if s != [] && s[0] != c {
      IndexOfFirst(s[1..], c);
      match IndexOf(s[1..], c)
      case None =>
      case Some(i) =>
        assert s[..i + 1] == [s[0]] + s[1..][..i];
    }
  }

  /** `a, b = s.split(sep, 1)`: None when the unpacking would raise (no separator). */
  function SplitOnce(s: string, sep: char): (r: Option<(string, string)>)
    ensures r.None? <==> sep !in s
    ensures r.Some? ==> |r.value.0| + 1 + |r.value.1| == |s|
  {
    match IndexOf(s, sep)
    case None => None
    case Some(i) => Some((s[..i], s[i + 1..]))
  }

  /** The two halves are what lies before and after the first separator. */
  lemma SplitOnceSpec(s: string, sep: char)
    ensures var r := SplitOnce(s, sep);
      r.Some? ==> s == r.value.0 + [sep] + r.value.1 && sep !in r.value.0
  {
    IndexOfFirst(s, sep);
    match IndexOf(s, sep)
    case None =>
    case Some(i) =>
      assert s == s[..i] + [sep] + s[i + 1..];
  }

  /** The first separator after a separator-free prefix sits right after that prefix. */
  lemma {:induction false} IndexOfAfterPrefix(a: string, sep: char, b: string)
    requires sep !in a
    ensures IndexOf(a + [sep] + b, sep) == Some(|a|)
  {
    if a != [] {
      IndexOfAfterPrefix(a[1..], sep, b);
      assert (a + [sep] + b)[1..] == a[1..] + [sep] + b;
    }
  }

  /** Python's split on the first separator cuts at the first one. */
  lemma SplitOnceFirst(a: string, sep: char, b: string)
    requires sep !in a
    ensures SplitOnce(a + [sep] + b, sep) == Some((a, b))
  {
    var s := a + [sep] + b;
    IndexOfAfterPrefix(a, sep, b);
    assert s[..|a|] == a && s[|a| + 1..] == b;
  }

  /** `s.split(sep)` with an explicit one-character separator: every piece, empty ones included. */
  function Split(s: string, sep: char): (parts: seq<string>)
    ensures |parts| >= 1
    decreases |s|
  {
    match SplitOnce(s, sep)
    case None => [s]
    case Some((a, b)) => [a] + Split(b, sep)
  }

  /** No piece of a split holds the separator. */
  lemma {:induction false} SplitPiecesOmitSep(s: string, sep: char)
    ensures forall k :: 0 <= k < |Split(s, sep)| ==> sep !in Split(s, sep)[k]
    decreases |s|
  {
    SplitOnceSpec(s, sep);
    match SplitOnce(s, sep)
    case None =>
    case Some((a, b)) =>
      SplitPiecesOmitSep(b, sep);
      assert Split(s, sep) == [a] + Split(b, sep);
  }

  /** `sep.join(parts)`. */
  function Join(parts: seq<string>, sep: char): string
  {
    if parts == [] then []
    else if |parts| == 1 then parts[0]
    else parts[0] + [sep] + Join(parts[1..], sep)
  }

  /** Splitting loses nothing: joining the pieces back gives the original string. */
  lemma {:induction false} JoinSplit(s: string, sep: char)
    ensures Join(Split(s, sep), sep) == s
    decreases |s|
  {
    SplitOnceSpec(s, sep);
    match SplitOnce(s, sep)
    case None =>
    case Some((a, b)) =>
      JoinSplit(b, sep);
      assert Split(s, sep) == [a] + Split(b, sep);
      assert Split(s, sep)[1..] == Split(b, sep);
  }

  /** An ASCII decimal digit; the other Unicode decimal digits are not modelled. */
  predicate IsDigit(c: char) {
    '0' <= c <= '9'
  }

  function DigitValue(c: char): (d: nat)
    requires IsDigit(c)
    ensures d < 10
  {
    (c as int) - ('0' as int)
  }

  function DigitChar(d: nat): (c: char)
    requires d < 10
    ensures IsDigit(c) && DigitValue(c) == d
  {
    ('0' as int + d) as char
  }

  /** Every underscore in `t` is directly followed by a digit. */
  predicate UnderscoresBeforeDigits(t: string)
    decreases |t|
  {
    |t| < 2 || ((t[0] == '_' ==> IsDigit(t[1])) && UnderscoresBeforeDigits(t[1..]))
  }

  /** Python's integer-literal body: decimal digits, single underscores allowed between digits. */
  predicate IsDigitGroup(t: string) {
    && |t| > 0 && IsDigit(t[0]) && IsDigit(t[|t| - 1])
    && (forall k :: 0 <= k < |t| ==> IsDigit(t[k]) || t[k] == '_')
    && UnderscoresBeforeDigits(t)
  }

  /** The number the digits of `t` spell, underscores ignored. */
  function DigitsValue(t: string): nat
  {
    if t == [] then 0
    else if IsDigit(t[|t| - 1]) then DigitsValue(t[..|t| - 1]) * 10 + DigitValue(t[|t| - 1])
    else DigitsValue(t[..|t| - 1])
  }

  /**
    `int(s)` on a string written with ASCII digits: None where CPython raises
    ValueError. Text holding a non-ASCII decimal digit, which CPython reads as
    a number, is None here too.
  */
  function ParseInt(s: string): (r: Option<int>)
  {
    var t := Strip(s);
    if |t| > 0 && (t[0] == '+' || t[0] == '-') then
      if IsDigitGroup(t[1..]) then
        var magnitude: int := DigitsValue(t[1..]);
        Some(if t[0] == '-' then -magnitude else magnitude)
      else None
    else if IsDigitGroup(t) then Some(DigitsValue(t))
    else None
  }

  /**
    Text that starts with a digit and holds a character that is neither an
    ASCII digit nor '_' is not an integer. For CPython this holds only when
    that character is not a decimal digit of some other script.
  */
  lemma StrayCharNotInt(s: string, k: nat)
    requires Strip(s) == s && |s| > 0 && IsDigit(s[0])
    requires k < |s| && !IsDigit(s[k]) && s[k] != '_'
    ensures ParseInt(s) == None
  {
    assert !IsDigitGroup(s);
  }

  lemma {:induction false} AllDigitsSpaced(t: string)
    requires forall k :: 0 <= k < |t| ==> IsDigit(t[k])
    ensures UnderscoresBeforeDigits(t)
    decreases |t|
  {
    if |t| >= 2 {
      AllDigitsSpaced(t[1..]);
    }
  }

  /** `str(n)` for a natural number. */
  function FormatNat(n: nat): (s: string)
    ensures |s| > 0
    decreases n
  {
    if n < 10 then [DigitChar(n)] else FormatNat(n / 10) + [DigitChar(n % 10)]
  }

  lemma {:induction false} FormatNatDigits(n: nat)
    ensures forall k :: 0 <= k < |FormatNat(n)| ==> IsDigit(FormatNat(n)[k])
    ensures DigitsValue(FormatNat(n)) == n
    decreases n
  {
    if n >= 10 {
      FormatNatDigits(n / 10);
      var s := FormatNat(n);
      assert s[..|s| - 1] == FormatNat(n / 10);
    }
  }

  /** Round trip: `int(str(n)) == n`. */
  lemma ParseFormatNat(n: nat)
    ensures ParseInt(FormatNat(n)) == Some(n)
  {
    var s := FormatNat(n);
    FormatNatDigits(n);
    assert IsDigit(s[0]) && IsDigit(s[|s| - 1]);
    StripNoEdgeSpace(s);
    AllDigitsSpaced(s);
    assert IsDigitGroup(s);
  }
}
