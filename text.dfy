/**
 * The few pieces of Python's str that the parser, the writer and the
 * renderer rely on: strip, ASCII case mapping, split on a character,
 * decimal int() and str() of an int, upper-case hex digits, and lines.
 */
module Text {
  import opened Wrappers

  /** The characters str.strip() removes, restricted to ASCII. */
  predicate IsSpace(c: char)
  {
    c == ' ' || c == '\t' || c == '\n' || c == '\r' || c == '\U{B}' || c == '\U{C}'
    || c == '\U{1C}' || c == '\U{1D}' || c == '\U{1E}' || c == '\U{1F}'
  }

  predicate AllSpace(s: string)
  {
    forall i :: 0 <= i < |s| ==> IsSpace(s[i])
  }

  /** Leading whitespace removed. */
  function TrimStart(s: string): (r: string)
    ensures |r| <= |s| && r == s[|s| - |r|..]
    ensures AllSpace(s[..|s| - |r|])
    ensures r == [] || !IsSpace(r[0])
    decreases |s|
  {
    if s != [] && IsSpace(s[0]) then
      var r := TrimStart(s[1..]);
      assert s[..|s| - |r|] == [s[0]] + s[1..][..|s| - 1 - |r|];
      r
    else s
  }

  /** Trailing whitespace removed. */
  function TrimEnd(s: string): (r: string)
    ensures |r| <= |s| && r == s[..|r|]
    ensures AllSpace(s[|r|..])
    ensures r == [] || !IsSpace(r[|r| - 1])
    decreases |s|
  {
    if s != [] && IsSpace(s[|s| - 1]) then
      var r := TrimEnd(s[..|s| - 1]);
      assert s[|r|..] == s[..|s| - 1][|r|..] + [s[|s| - 1]];
      r
    else s
  }

  /** str.strip(): the text between the leading and the trailing whitespace. */
  function Strip(s: string): (r: string)
    ensures |r| <= |s|
    ensures r == [] || (!IsSpace(r[0]) && !IsSpace(r[|r| - 1]))
  {
    var t := TrimStart(s);
    var r := TrimEnd(t);
    assert r != [] ==> r[0] == t[0];
    r
  }

  /** Whitespace in front of a text that starts with a visible character is all that TrimStart drops. */
  lemma {:induction false} TrimStartPadding(a: string, v: string)
    requires AllSpace(a) && v != [] && !IsSpace(v[0])
    ensures TrimStart(a + v) == v
    decreases |a|
  {
    if a != [] {
      assert (a + v)[0] == a[0] && IsSpace(a[0]);
      assert (a + v)[1..] == a[1..] + v;
      assert AllSpace(a[1..]) by {
        assert forall i :: 0 <= i < |a| - 1 ==> a[1..][i] == a[i + 1];
      }
      TrimStartPadding(a[1..], v);
    } else {
      assert a + v == v;
    }
  }

  /** Whitespace after a text that ends with a visible character is all that TrimEnd drops. */
  lemma {:induction false} TrimEndPadding(v: string, b: string)
    requires AllSpace(b) && v != [] && !IsSpace(v[|v| - 1])
    ensures TrimEnd(v + b) == v
    decreases |b|
  {
    if b != [] {
      assert (v + b)[..|v + b| - 1] == v + b[..|b| - 1];
      TrimEndPadding(v, b[..|b| - 1]);
    } else {
      assert v + b == v;
    }
  }

  /** Stripping a padded text whose ends are visible gives the text back. */
  lemma StripPadding(a: string, v: string, b: string)
    requires AllSpace(a) && AllSpace(b)
    requires v != [] && !IsSpace(v[0]) && !IsSpace(v[|v| - 1])
    ensures Strip(a + v + b) == v
  {
    assert a + v + b == a + (v + b);
    TrimStartPadding(a, v + b);
    TrimEndPadding(v, b);
  }

  function LowerChar(c: char): char
  {
    if 'A' <= c <= 'Z' then (c as int + 32) as char else c
  }

  function UpperChar(c: char): char
  {
    if 'a' <= c <= 'z' then (c as int - 32) as char else c
  }

  /** str.lower() on ASCII letters. */
  function Lower(s: string): (r: string)
    ensures |r| == |s| && forall i :: 0 <= i < |s| ==> r[i] == LowerChar(s[i])
  {
    seq(|s|, i requires 0 <= i < |s| => LowerChar(s[i]))
  }

  /** str.upper() on ASCII letters. */
  function Upper(s: string): (r: string)
    ensures |r| == |s| && forall i :: 0 <= i < |s| ==> r[i] == UpperChar(s[i])
  {
    seq(|s|, i requires 0 <= i < |s| => UpperChar(s[i]))
  }

  /** Upper-casing twice changes nothing more. */
  lemma UpperIdempotent(s: string)
    ensures Upper(Upper(s)) == Upper(s)
  {
  }

  /** The first position of c in s, if any. */
  function FindFirst(s: string, c: char): (r: Option<nat>)
    ensures r.None? <==> c !in s
    ensures r.Some? ==> r.value < |s| && s[r.value] == c && c !in s[..r.value]
    decreases |s|
  {
    if s == [] then None
    else if s[0] == c then Some(0)
    else
      match FindFirst(s[1..], c)
      case None => None
      case Some(i) =>
        assert s[..i + 1] == [s[0]] + s[1..][..i];
        Some(i + 1)
  }

  /** str.split(sep) for a one-character separator: the pieces between the separators. */
  function Split(s: string, sep: char): (r: seq<string>)
    ensures |r| >= 1
    ensures forall i :: 0 <= i < |r| ==> sep !in r[i]
    decreases |s|
  {
    match FindFirst(s, sep)
    case None => [s]
    case Some(i) => [s[..i]] + Split(s[i + 1..], sep)
  }

  /** str.join with a one-character separator. */
  function Join(parts: seq<string>, sep: char): string
  {
    if parts == [] then ""
    else if |parts| == 1 then parts[0]
    else parts[0] + [sep] + Join(parts[1..], sep)
  }

  /** Joining the pieces of a split gives the text back. */
  lemma {:induction false} SplitJoin(s: string, sep: char)
    ensures Join(Split(s, sep), sep) == s
    decreases |s|
  {
    match FindFirst(s, sep)
    case None =>
    case Some(i) =>
      var rest := Split(s[i + 1..], sep);
      SplitJoin(s[i + 1..], sep);
      var parts := [s[..i]] + rest;
      assert |parts| > 1 && parts[0] == s[..i] && parts[1..] == rest;
      assert Join(parts, sep) == s[..i] + [sep] + Join(rest, sep);
      assert s == s[..i] + [sep] + s[i + 1..];
  }

  /** The first c after a prefix without any is at the prefix's length. */
  lemma {:induction false} FindAfterPrefix(a: string, c: char, rest: string)
    requires c !in a
    ensures FindFirst(a + [c] + rest, c) == Some(|a|)
    decreases |a|
  {
    if a == [] {
      assert a + [c] + rest == [c] + rest;
    } else {
      assert (a + [c] + rest)[1..] == a[1..] + [c] + rest;
      FindAfterPrefix(a[1..], c, rest);
    }
  }

  /** Splitting a text that holds one separator gives the two sides. */
  lemma SplitTwo(a: string, b: string, sep: char)
    requires sep !in a && sep !in b
    ensures Split(a + [sep] + b, sep) == [a, b]
  {
    var s := a + [sep] + b;
    FindAfterPrefix(a, sep, b);
    assert s[..|a|] == a;
    assert s[|a| + 1..] == b;
  }

  // ---- decimal numbers ----

  predicate IsDigit(c: char)
  {
    '0' <= c <= '9'
  }

  function DigitChar(d: nat): (c: char)
    requires d < 10
    ensures IsDigit(c)
  {
    ('0' as int + d) as char
  }

  function DigitValue(c: char): (d: nat)
    requires IsDigit(c)
    ensures d < 10 && DigitChar(d) == c
  {
    c as int - '0' as int
  }

  predicate AllDigits(ds: string)
  {
    forall i :: 0 <= i < |ds| ==> IsDigit(ds[i])
  }

  /** The value of a string of decimal digits, most significant first. */
  function DigitsValue(ds: string): nat
    requires AllDigits(ds)
    decreases |ds|
  {
    if ds == [] then 0 else DigitsValue(ds[..|ds| - 1]) * 10 + DigitValue(ds[|ds| - 1])
  }

  /** str() of a natural number: its decimal digits without leading zeros. */
  function NatToString(n: nat): (r: string)
    ensures r != [] && AllDigits(r)
    decreases n
  {
    if n < 10 then [DigitChar(n)] else NatToString(n / 10) + [DigitChar(n % 10)]
  }

  /** str() of an int. */
  function IntToString(n: int): (r: string)
    ensures r != [] && !IsSpace(r[0]) && !IsSpace(r[|r| - 1])
    ensures ',' !in r && '\n' !in r
  {
    if n < 0 then "-" + NatToString(-n) else NatToString(n)
  }

  /** A signed decimal integer: an optional sign then at least one digit. */
  function ParseSigned(t: string): (r: Option<int>)
  {
    if t == [] then None
    else
      var negative := t[0] == '-';
      var digits := if t[0] == '-' || t[0] == '+' then t[1..] else t;
      if digits == [] || !AllDigits(digits) then None
      else
        var v: int := DigitsValue(digits);
        Some(if negative then -v else v)
  }

  /** int() of a string, as a signed decimal number that surrounding whitespace may pad. */
  function ParseInt(s: string): (r: Option<int>)
  {
    ParseSigned(Strip(s))
  }

  /** Reading back the digits of a natural number gives the number. */
  lemma {:induction false} DigitsRoundTrip(n: nat)
    ensures DigitsValue(NatToString(n)) == n
    decreases n
  {
    if n >= 10 {
      var s := NatToString(n);
      DigitsRoundTrip(n / 10);
      assert s[..|s| - 1] == NatToString(n / 10);
    }
  }

  /** The signed-decimal reading of str(n) is n. */
  lemma ParseSignedRoundTrip(n: int)
    ensures ParseSigned(IntToString(n)) == Some(n)
  {
    var s := IntToString(n);
    if n < 0 {
      var ds := NatToString(-n);
      assert s == "-" + ds && s[0] == '-' && s[1..] == ds;
      DigitsRoundTrip(-n);
    } else {
      assert IsDigit(s[0]);
      DigitsRoundTrip(n);
    }
  }

  /** int(str(n)) == n, also with whitespace around. */
  lemma ParseIntRoundTrip(n: int, a: string, b: string)
    requires AllSpace(a) && AllSpace(b)
    ensures ParseInt(a + IntToString(n) + b) == Some(n)
  {
    StripPadding(a, IntToString(n), b);
    ParseSignedRoundTrip(n);
  }

  /** int(str(n)) == n. */
  lemma ParseIntOfString(n: int)
    ensures ParseInt(IntToString(n)) == Some(n)
  {
    var s := IntToString(n);
    assert Strip(s) == s by {
      StripPadding([], s, []);
      assert [] + s + [] == s;
    }
    ParseSignedRoundTrip(n);
  }

  // ---- hexadecimal digits ----

  /** format(n, "X") for a value in 0..15. */
  function HexDigit(n: nat): char
    requires n <= 15
  {
    if n < 10 then DigitChar(n) else ('A' as int + (n - 10)) as char
  }

  /** The value of an upper-case hex digit, if c is one. */
  function HexValue(c: char): (r: Option<nat>)
    ensures r.Some? ==> r.value <= 15
  {
    if IsDigit(c) then Some(DigitValue(c))
    else if 'A' <= c <= 'F' then Some(c as int - 'A' as int + 10)
    else None
  }

  /** Every value in 0..15 has one hex digit, which reads back as the value. */
  lemma HexRoundTrip(n: nat)
    requires n <= 15
    ensures HexValue(HexDigit(n)) == Some(n)
    ensures HexDigit(n) != '\n'
  {
  }

  // ---- lines ----

  /** Each line followed by a newline. */
  function Lines(ls: seq<string>): string
  {
    if ls == [] then "" else ls[0] + "\n" + Lines(ls[1..])
  }

  /** The newline-terminated lines of a text. */
  function SplitLines(s: string): seq<string>
    decreases |s|
  {
    if s == [] then []
    else
      match FindFirst(s, '\n')
      case None => [s]
      case Some(i) => [s[..i]] + SplitLines(s[i + 1..])
  }

  /** Lines without newlines of their own split back apart. */
  lemma {:induction false} SplitLinesRoundTrip(ls: seq<string>)
    requires forall i :: 0 <= i < |ls| ==> '\n' !in ls[i]
    ensures SplitLines(Lines(ls)) == ls
    decreases |ls|
  {
    if ls != [] {
      var s := Lines(ls);
      var l := ls[0];
      assert s == l + ['\n'] + Lines(ls[1..]);
      FindAfterPrefix(l, '\n', Lines(ls[1..]));
      assert s[..|l|] == l;
      assert s[|l| + 1..] == Lines(ls[1..]);
      SplitLinesRoundTrip(ls[1..]);
    }
  }

  /** "\n".join(ls) + "\n" is the same text as the lines each terminated. */
  lemma {:induction false} JoinLines(ls: seq<string>)
    requires ls != []
    ensures Join(ls, '\n') + "\n" == Lines(ls)
    decreases |ls|
  {
    if |ls| > 1 {
      JoinLines(ls[1..]);
    }
  }

  /** A text built from lines ends with a newline. */
  lemma LinesEndWithNewline(ls: seq<string>)
    requires ls != []
    ensures |Lines(ls)| > 0 && Lines(ls)[|Lines(ls)| - 1] == '\n'
    decreases |ls|
  {
    if |ls| > 1 {
      LinesEndWithNewline(ls[1..]);
      assert Lines(ls) == ls[0] + "\n" + Lines(ls[1..]);
    }
  }
}
