/**
 * The pieces of the C library's text handling that the program relies on:
 * printf's %d, sscanf's %d and %s conversions, the white space they skip,
 * NUL-terminated buffers and snprintf's truncation.
 */
module CText {
  import opened Wrappers

  /** isspace in the "C" locale: blank, tab, newline, vertical tab, form feed, carriage return. */
  predicate IsSpace(c: char) {
    c == ' ' || 9 <= c as int <= 13
  }

  predicate IsDigit(c: char) {
    '0' <= c <= '9'
  }

  predicate AllDigits(s: string) {
    forall i :: 0 <= i < |s| ==> IsDigit(s[i])
  }

  /** A word as sscanf's %s reads it and as a C string can carry it: non-empty, no white space, no NUL. */
  predicate IsWord(s: string) {
    s != [] && forall i :: 0 <= i < |s| ==> !IsSpace(s[i]) && s[i] != '\0'
  }

  function DigitValue(c: char): nat
    requires IsDigit(c)
  {
    c as int - '0' as int
  }

  function DigitChar(d: nat): (c: char)
    requires d < 10
    ensures IsDigit(c) && DigitValue(c) == d
  {
    ('0' as int + d) as char
  }

  /** The decimal digits of n, most significant first, with no leading zero. */
  function NatToDec(n: nat): (s: string)
    ensures 1 <= |s| && AllDigits(s)
    ensures s[0] != '0' || n == 0
    decreases n
  {
    if n < 10 then [DigitChar(n)] else NatToDec(n / 10) + [DigitChar(n % 10)]
  }

  /** printf's %d: a minus sign for a negative value, then the digits of its magnitude. */
  function IntToDec(n: int): (s: string)
    ensures 1 <= |s|
    ensures s[0] == '-' <==> n < 0
    ensures forall i :: 0 <= i < |s| ==> !IsSpace(s[i]) && s[i] != '\0'
  {
    if n < 0 then "-" + NatToDec(-n) else NatToDec(n)
  }

  /** The value of a string of decimal digits, most significant first. */
  function DigitsValue(s: string): nat
    requires AllDigits(s)
    decreases |s|
  {
    if s == [] then 0 else DigitsValue(s[..|s| - 1]) * 10 + DigitValue(s[|s| - 1])
  }

  lemma {:induction false} DigitsValueOfNatToDec(n: nat)
    ensures DigitsValue(NatToDec(n)) == n
    decreases n
  {
    if n >= 10 {
      var s := NatToDec(n);
      assert s[..|s| - 1] == NatToDec(n / 10);
      DigitsValueOfNatToDec(n / 10);
    }
  }

  /** The number of digits at the front of s: the longest prefix %d can read. */
  function DigitRun(s: string): (k: nat)
    ensures k <= |s| && AllDigits(s[..k])
    ensures k < |s| ==> !IsDigit(s[k])
    decreases |s|
  {
    if s != [] && IsDigit(s[0]) then 1 + DigitRun(s[1..]) else 0
  }

  /** The number of non-space characters at the front of s: the longest prefix %s can read. */
  function TokenRun(s: string): (k: nat)
    ensures k <= |s|
    ensures forall i :: 0 <= i < k ==> !IsSpace(s[i])
    ensures k < |s| ==> IsSpace(s[k])
    decreases |s|
  {
    if s != [] && !IsSpace(s[0]) then 1 + TokenRun(s[1..]) else 0
  }

  /** The index of the first character at or after i that is not white space, or |s|. */
  function SpaceEnd(s: string, i: nat): (k: nat)
    requires i <= |s|
    ensures i <= k <= |s|
    ensures forall j :: i <= j < k ==> IsSpace(s[j])
    ensures k < |s| ==> !IsSpace(s[k])
    decreases |s| - i
  {
    if i < |s| && IsSpace(s[i]) then SpaceEnd(s, i + 1) else i
  }

  /** What is left of s once the white space at its front is skipped. */
  function SkipSpace(s: string): (r: string)
    ensures |r| <= |s| && r == s[|s| - |r|..]
    ensures r == [] || !IsSpace(r[0])
    ensures forall i :: 0 <= i < |s| - |r| ==> IsSpace(s[i])
  {
    s[SpaceEnd(s, 0)..]
  }

  /**
   * sscanf's %d: skip white space, accept an optional sign, then at least one
   * digit; gives the value and the unread rest, or None on a matching failure.
   */
  function ScanInt(s: string): Option<(int, string)> {
    ConvertInt(SkipSpace(s))
  }

  /** %d on text whose white space is already skipped. */
  function ConvertInt(t: string): Option<(int, string)> {
    if t != [] && t[0] == '-' then Negate(ConvertDigits(t[1..]))
    else if t != [] && t[0] == '+' then ConvertDigits(t[1..])
    else ConvertDigits(t)
  }

  /** The value and the rest after the digits at the front of u, or None when there are none. */
  function ConvertDigits(u: string): Option<(int, string)> {
    var k := DigitRun(u);
    if k == 0 then None else Some((DigitsValue(u[..k]) as int, u[k..]))
  }

  function Negate(r: Option<(int, string)>): Option<(int, string)> {
    if r.Some? then Some((-r.value.0, r.value.1)) else None
  }

  /**
   * sscanf's %s: skip white space, then read the longest run of non-space
   * characters, which must not be empty.
   */
  function ScanToken(s: string): Option<(string, string)> {
    ConvertToken(SkipSpace(s))
  }

  /** %s on text whose white space is already skipped. */
  function ConvertToken(t: string): Option<(string, string)> {
    var k := TokenRun(t);
    if k == 0 then None else Some((t[..k], t[k..]))
  }

  /** %d reads back exactly what printf's %d wrote, up to the first non-digit. */
  lemma ScanIntOfDec(n: int, rest: string)
    requires rest == [] || !IsDigit(rest[0])
    ensures ScanInt(IntToDec(n) + rest) == Some((n, rest))
  {
    var s := IntToDec(n) + rest;
    DecSkipsNoSpace(n, rest);
    if n < 0 {
      NegativeDecShape(n, rest);
      ConvertDigitsOf(NatToDec(-n), rest);
      DigitsValueOfNatToDec(-n);
      ConvertNegative(s, -n, rest);
    } else {
      ConvertDigitsOf(NatToDec(n), rest);
      DigitsValueOfNatToDec(n);
    }
  }

  lemma DecSkipsNoSpace(n: int, rest: string)
    ensures SkipSpace(IntToDec(n) + rest) == IntToDec(n) + rest
  {
  }

  lemma NegativeDecShape(n: int, rest: string)
    requires n < 0
    ensures (IntToDec(n) + rest)[0] == '-'
    ensures (IntToDec(n) + rest)[1..] == NatToDec(-n) + rest
  {
  }

  lemma ConvertNegative(t: string, m: int, r: string)
    requires t != [] && t[0] == '-'
    requires ConvertDigits(t[1..]) == Some((m, r))
    ensures ConvertInt(t) == Some((-m, r))
  {
  }

  /** The digits in front of a non-digit are read as their value. */
  lemma ConvertDigitsOf(ds: string, rest: string)
    requires 1 <= |ds| && AllDigits(ds)
    requires rest == [] || !IsDigit(rest[0])
    ensures ConvertDigits(ds + rest) == Some((DigitsValue(ds) as int, rest))
  {
    var u := ds + rest;
    DigitRunOfDigits(ds, rest);
    assert u[..|ds|] == ds;
  }

  lemma DigitRunOfDigits(ds: string, rest: string)
    requires AllDigits(ds)
    requires rest == [] || !IsDigit(rest[0])
    ensures DigitRun(ds + rest) == |ds|
  {
    var s := ds + rest;
    assert forall i :: 0 <= i < |ds| ==> s[i] == ds[i];
    assert |ds| < |s| ==> s[|ds|] == rest[0];
  }

  /** %s reads back a word followed by white space or the end of the text. */
  lemma ScanTokenOfWord(w: string, rest: string)
    requires IsWord(w)
    requires rest == [] || IsSpace(rest[0])
    ensures ScanToken(w + rest) == Some((w, rest))
  {
    var s := w + rest;
    assert s[0] == w[0];
    assert SkipSpace(s) == s;
    TokenRunOfWord(w, rest);
    assert s[..|w|] == w && s[|w|..] == rest;
  }

  lemma TokenRunOfWord(w: string, rest: string)
    requires IsWord(w)
    requires rest == [] || IsSpace(rest[0])
    ensures TokenRun(w + rest) == |w|
  {
    var s := w + rest;
    var k := TokenRun(s);
    assert forall i :: 0 <= i < |w| ==> s[i] == w[i];
    assert |w| < |s| ==> s[|w|] == rest[0];
  }

  /** The blank that separates fields in a format is skipped by %s. */
  lemma ScanTokenAfterBlank(w: string, rest: string, s: string)
    requires IsWord(w)
    requires rest == [] || IsSpace(rest[0])
    requires s == " " + w + rest
    ensures ScanToken(s) == Some((w, rest))
  {
    SkipLeadingBlank(s, w + rest);
    ScanTokenOfWord(w, rest);
  }

  /** The blank that separates fields in a format is skipped by %d. */
  lemma ScanIntAfterBlank(n: int, rest: string, s: string)
    requires rest == [] || !IsDigit(rest[0])
    requires s == " " + IntToDec(n) + rest
    ensures ScanInt(s) == Some((n, rest))
  {
    SkipLeadingBlank(s, IntToDec(n) + rest);
    ScanIntOfDec(n, rest);
  }

  /** The same, for the last field of a text. */
  lemma ScanIntAtEnd(n: int, s: string)
    requires s == " " + IntToDec(n)
    ensures ScanInt(s) == Some((n, []))
  {
    assert s == " " + IntToDec(n) + [];
    ScanIntAfterBlank(n, [], s);
  }

  /** A blank in front of the text changes nothing that %s or %d reads. */
  lemma SkipLeadingBlank(s: string, u: string)
    requires s == " " + u
    ensures SkipSpace(s) == SkipSpace(u)
    ensures ScanInt(s) == ScanInt(u) && ScanToken(s) == ScanToken(u)
  {
    var k := SpaceEnd(u, 0);
    var k' := SpaceEnd(s, 0);
    assert forall j :: 0 <= j < k + 1 ==> IsSpace(s[j]) by {
      forall j | 0 <= j < k + 1
        ensures IsSpace(s[j])
      {
        if j > 0 {
          assert s[j] == u[j - 1];
        }
      }
    }
    assert k + 1 < |s| ==> s[k + 1] == u[k];
    assert k' == k + 1;
    assert s[k'..] == u[k..];
  }

  /** printf's %d never writes the same text for two different values. */
  lemma IntToDecInjective(a: int, b: int)
    requires IntToDec(a) == IntToDec(b)
    ensures a == b
  {
    ScanIntOfDec(a, []);
    ScanIntOfDec(b, []);
    assert IntToDec(a) + [] == IntToDec(a);
    assert IntToDec(b) + [] == IntToDec(b);
  }

  /** Index of the first NUL at or after i, or |buf| when there is none. */
  function NulFrom(buf: string, i: nat): (k: nat)
    requires i <= |buf|
    ensures i <= k <= |buf|
    ensures forall j :: i <= j < k ==> buf[j] != '\0'
    ensures k < |buf| ==> buf[k] == '\0'
    decreases |buf| - i
  {
    if i == |buf| || buf[i] == '\0' then i else NulFrom(buf, i + 1)
  }

  /** The C string held in a buffer: everything before the first NUL. */
  function CString(buf: string): (r: string)
    ensures |r| <= |buf| && r == buf[..|r|]
    ensures forall i :: 0 <= i < |r| ==> r[i] != '\0'
    ensures |r| < |buf| ==> buf[|r|] == '\0'
  {
    buf[..NulFrom(buf, 0)]
  }

  /** snprintf into a buffer of cap + 1 bytes keeps at most cap characters of the text. */
  function Truncate(s: string, cap: nat): (r: string)
    ensures |r| <= cap
    ensures |s| <= cap ==> r == s
    ensures |s| > cap ==> |r| == cap && r == s[..cap]
  {
    if |s| <= cap then s else s[..cap]
  }
}
