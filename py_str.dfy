/**
 The parts of Python's `str` and `bytes` that the copyright hook relies on,
 stated over `seq<char>` (a Python `str` is a sequence of code points) and
 over a `byte` newtype. Each function is given by a simple recursive body and
 a contract that says what it computes in declarative terms.
 */
module PyStr {

  newtype byte = x: int | 0 <= x < 256

  const CR: byte := 13
  const LF: byte := 10

  /** `c.isspace()` in Python 3: the characters whose bidirectional class is
      WS, B or S, or whose category is Zs. U+FEFF and U+200B are not in it. */
  predicate IsSpace(c: char) {
    || ('\t' <= c <= '\r')
    || ('\U{1C}' <= c <= '\U{1F}')
    || c == ' '
    || c == '\U{85}'
    || c == '\U{A0}'
    || c == '\U{1680}'
    || ('\U{2000}' <= c <= '\U{200A}')
    || c == '\U{2028}'
    || c == '\U{2029}'
    || c == '\U{202F}'
    || c == '\U{205F}'
    || c == '\U{3000}'
  }

  /** `s.startswith(p)` */
  predicate StartsWith(s: string, p: string) {
    |p| <= |s| && s[..|p|] == p
  }

  /** `t in s`, as a scan from the left. */
  predicate Contains(s: string, t: string) {
    StartsWith(s, t) || (|s| > 0 && Contains(s[1..], t))
  }

  /** The scan finds `t` exactly when `t` occurs at some position. */
  lemma {:induction false} ContainsIff(s: string, t: string)
    ensures Contains(s, t) <==> exists i :: 0 <= i <= |s| && StartsWith(s[i..], t)
  {
    assert s[0..] == s;
    if |s| > 0 {
      ContainsIff(s[1..], t);
      if i :| 1 <= i <= |s| && StartsWith(s[i..], t) {
        assert s[1..][i - 1..] == s[i..];
      }
      if Contains(s[1..], t) {
        var i :| 0 <= i <= |s[1..]| && StartsWith(s[1..][i..], t);
        assert s[1..][i..] == s[i + 1..];
      }
    }
  }

  lemma {:induction false} ContainsAtEnd(s: string, t: string)
    ensures Contains(s + t, t)
  {
    if s == [] {
      assert s + t == t;
    } else {
      ContainsAtEnd(s[1..], t);
      assert (s + t)[1..] == s[1..] + t;
    }
  }

  lemma {:induction false} ContainsExtended(s: string, t: string, u: string)
    requires Contains(s, t)
    ensures Contains(s + u, t)
  {
    if StartsWith(s, t) {
      assert (s + u)[..|t|] == s[..|t|];
    } else {
      ContainsExtended(s[1..], t, u);
      assert (s + u)[1..] == s[1..] + u;
    }
  }

  lemma {:induction false} ContainsPrepended(p: string, s: string, t: string)
    requires Contains(s, t)
    ensures Contains(p + s, t)
  {
    if p == [] {
      assert p + s == s;
    } else {
      ContainsPrepended(p[1..], s, t);
      assert (p + s)[1..] == p[1..] + s;
    }
  }

  /** `s.lstrip()`: drops the leading whitespace, and only that. */
  function LStrip(s: string): (r: string)
    ensures |r| <= |s| && r == s[|s| - |r|..]
    ensures forall i :: 0 <= i < |s| - |r| ==> IsSpace(s[i])
    ensures r == [] || !IsSpace(r[0])
  {
    if |s| > 0 && IsSpace(s[0]) then LStrip(s[1..]) else s
  }

  /** `s.rstrip()`: drops the trailing whitespace, and only that. */
  function RStrip(s: string): (r: string)
    ensures |r| <= |s| && r == s[..|r|]
    ensures forall i :: |r| <= i < |s| ==> IsSpace(s[i])
    ensures r == [] || !IsSpace(r[|r| - 1])
  {
    if |s| > 0 && IsSpace(s[|s| - 1]) then RStrip(s[..|s| - 1]) else s
  }

  /** `s.strip()` */
  function Strip(s: string): string {
    RStrip(LStrip(s))
  }

  /** `s.lstrip(c)` for a one-character argument: drops every leading `c`. */
  function LStripChar(s: string, c: char): (r: string)
    ensures |r| <= |s| && r == s[|s| - |r|..]
    ensures forall i :: 0 <= i < |s| - |r| ==> s[i] == c
    ensures r == [] || r[0] != c
  {
    if |s| > 0 && s[0] == c then LStripChar(s[1..], c) else s
  }

  /** `s.find(c)` for a one-character argument: the first index of `c`, or -1. */
  function Find(s: string, c: char): (r: int)
    ensures -1 <= r < |s|
    ensures r == -1 <==> c !in s
    ensures r >= 0 ==> s[r] == c && forall j :: 0 <= j < r ==> s[j] != c
  {
    if |s| == 0 then -1
    else if s[0] == c then 0
    else
      var k := Find(s[1..], c);
      assert k < 0 ==> s == [s[0]] + s[1..];
      if k == -1 then -1 else k + 1
  }

  /** The first occurrence of `c`, once pinned down, is what `Find` returns. */
  lemma FindIs(s: string, c: char, k: int)
    requires 0 <= k < |s| && s[k] == c
    requires forall j :: 0 <= j < k ==> s[j] != c
    ensures Find(s, c) == k
  {
  }

  /** Appending text does not move the first occurrence of a character. */
  lemma FindExtended(s: string, u: string, c: char)
    requires c in s
    ensures Find(s + u, c) == Find(s, c)
  {
    var k := Find(s, c);
    assert (s + u)[k] == c;
    assert forall j :: 0 <= j < k ==> (s + u)[j] == s[j];
    FindIs(s + u, c, k);
  }

  /** Text in front that lacks a character shifts its first occurrence by
      the length of that text. */
  lemma FindAfterAbsent(s: string, u: string, c: char)
    requires c !in s && c in u
    ensures Find(s + u, c) == |s| + Find(u, c)
  {
    var k := Find(u, c);
    var t := s + u;
    assert t[|s| + k] == u[k];
    assert forall j :: 0 <= j < |s| ==> t[j] == s[j];
    assert forall j :: 0 <= j < k ==> t[|s| + j] == u[j];
    FindIs(t, c, |s| + k);
  }

  lemma StartsWithExtended(s: string, p: string, u: string)
    requires StartsWith(s, p)
    ensures StartsWith(s + u, p)
  {
    assert (s + u)[..|p|] == s[..|p|];
  }

  /** `s.rfind(c)` for a one-character argument: the last index of `c`, or -1. */
  function RFind(s: string, c: char): (r: int)
    ensures -1 <= r < |s|
    ensures r == -1 <==> c !in s
    ensures r >= 0 ==> s[r] == c && forall j :: r < j < |s| ==> s[j] != c
  {
    if |s| == 0 then -1
    else if s[|s| - 1] == c then |s| - 1
    else
      var k := RFind(s[..|s| - 1], c);
      assert k < 0 ==> s == s[..|s| - 1] + [s[|s| - 1]];
      k
  }

  /** The last occurrence of `c`, once pinned down, is what `RFind` returns. */
  lemma RFindIs(s: string, c: char, k: int)
    requires 0 <= k < |s| && s[k] == c
    requires forall j :: k < j < |s| ==> s[j] != c
    ensures RFind(s, c) == k
  {
  }

  /** `s.split(sep, 1)` for a one-character separator: one part when `sep`
      does not occur, otherwise the text before and after its first occurrence. */
  function SplitOnce(s: string, sep: char): (parts: seq<string>)
    ensures |parts| == 1 || |parts| == 2
    ensures |parts| == 1 <==> sep !in s
    ensures |parts| == 1 ==> parts[0] == s
    ensures |parts| == 2 ==> s == parts[0] + [sep] + parts[1] && sep !in parts[0]
  {
    var k := Find(s, sep);
    if k == -1 then [s]
    else
      assert s == s[..k] + [sep] + s[k + 1..];
      [s[..k], s[k + 1..]]
  }

  /** `s.lower()` restricted to ASCII letters; every other character is kept. */
  function AsciiLower(s: string): (r: string)
    ensures |r| == |s|
    ensures forall i :: 0 <= i < |s| ==> r[i] == LowerChar(s[i])
  {
    if s == [] then [] else [LowerChar(s[0])] + AsciiLower(s[1..])
  }

  function LowerChar(c: char): char {
    if 'A' <= c <= 'Z' then (c as int + 32) as char else c
  }

  /** `b"\r\n" in raw` */
  function HasCrLf(raw: seq<byte>): (b: bool)
    ensures b <==> exists i :: 0 <= i < |raw| - 1 && raw[i] == CR && raw[i + 1] == LF
  {
    if |raw| < 2 then false
    else if raw[0] == CR && raw[1] == LF then true
    else
      var b := HasCrLf(raw[1..]);
      assert forall i :: 1 <= i < |raw| ==> raw[i] == raw[1..][i - 1];
      b
  }

  predicate IsDigit(c: char) {
    '0' <= c <= '9'
  }

  predicate AllDigits(s: string) {
    forall i :: 0 <= i < |s| ==> IsDigit(s[i])
  }

  /** `str(n)` for a non-negative integer: decimal, without leading zeros. */
  function DecimalString(n: nat): (s: string)
    ensures |s| >= 1 && AllDigits(s)
    ensures s[0] == '0' ==> n == 0
  {
    var d := ['0' + (n % 10) as char];
    if n < 10 then d else DecimalString(n / 10) + d
  }

  /** `int(s)` for a string of decimal digits. */
  function ParseDecimal(s: string): nat
    requires AllDigits(s)
  {
    if s == [] then 0 else ParseDecimal(s[..|s| - 1]) * 10 + (s[|s| - 1] as int - '0' as int)
  }

  lemma {:induction false} ParseDecimalString(n: nat)
    ensures ParseDecimal(DecimalString(n)) == n
  {
    var s := DecimalString(n);
    if n >= 10 {
      ParseDecimalString(n / 10);
      assert s[..|s| - 1] == DecimalString(n / 10);
    }
  }
}
