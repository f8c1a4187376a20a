/** Character classes, bounded copies and number conversions of the C library,
    as the messenger uses them in the "C" locale. A `string` here is the content
    of a C string up to (not including) its terminating NUL. */
module CString {

  const LONG_MAX: int := 0x7FFF_FFFF_FFFF_FFFF
  const LONG_MIN: int := -0x8000_0000_0000_0000
  const UINT32: int := 0x1_0000_0000

  function Min(a: int, b: int): int { if a <= b then a else b }

  /** The first n characters of s, or all of s when it is shorter: what a copy
      into a buffer of n + 1 bytes keeps (strncpy/snprintf/safe_strcpy). */
  function Take(s: string, n: int): (r: string)
    ensures |r| == if n <= 0 then 0 else Min(|s|, n)
    ensures r <= s
  {
    if n <= 0 then [] else if |s| <= n then s else s[..n]
  }

  lemma TakeOfShort(s: string, n: int)
    requires |s| <= n
    ensures Take(s, n) == s
  {
  }

  lemma TakeTake(s: string, m: int, n: int)
    requires 0 <= m <= n
    ensures Take(Take(s, n), m) == Take(s, m)
  {
  }

  lemma TakeAppend(s: string, t: string, n: int)
    requires |s| <= n
    ensures Take(s + t, n) == s + Take(t, n - |s|)
  {
    if n - |s| > 0 && |t| > n - |s| {
      assert (s + t)[..n] == s + t[..n - |s|];
    }
  }

  /** The terminating byte of a C string. */
  const NUL: char := '\0'

  /** The C string stored at the start of a character buffer: everything before
      the first NUL (the whole buffer when it holds none). */
  function CStr(buf: seq<char>): (r: string)
    ensures r <= buf
    ensures NUL !in r
    ensures |r| < |buf| ==> buf[|r|] == NUL
  {
    if buf == [] || buf[0] == NUL then [] else [buf[0]] + CStr(buf[1..])
  }

  /** A buffer holding NULs only. */
  function Nuls(n: nat): (r: seq<char>)
    ensures |r| == n
    ensures forall i :: 0 <= i < n ==> r[i] == NUL
  {
    seq(n, _ => NUL)
  }

  /** isspace() in the "C" locale. */
  predicate IsSpace(c: char) {
    c == ' ' || c == '\t' || c == '\n' || c == '\U{000B}' || c == '\U{000C}' || c == '\r'
  }

  predicate IsDigit(c: char) { '0' <= c <= '9' }
  predicate IsUpper(c: char) { 'A' <= c <= 'Z' }
  predicate IsLower(c: char) { 'a' <= c <= 'z' }

  /** isalnum() in the "C" locale: only the ASCII letters and digits. */
  predicate IsAlnum(c: char) { IsDigit(c) || IsUpper(c) || IsLower(c) }

  /** tolower() in the "C" locale. */
  function ToLower(c: char): (r: char)
    ensures IsUpper(c) ==> IsLower(r)
    ensures !IsUpper(c) ==> r == c
  {
    if IsUpper(c) then (c as int + 32) as char else c
  }

  function LowerAll(s: string): (r: string)
    ensures |r| == |s|
    ensures forall i :: 0 <= i < |s| ==> r[i] == ToLower(s[i])
  {
    if s == [] then [] else [ToLower(s[0])] + LowerAll(s[1..])
  }

  /** The index of the first c in s, or -1: strchr. */
  function IndexOf(s: string, c: char): (r: int)
    ensures -1 <= r < |s|
    ensures r >= 0 ==> s[r] == c && c !in s[..r]
    ensures r == -1 <==> c !in s
  {
    if s == [] then -1
    else if s[0] == c then 0
    else
      var k := IndexOf(s[1..], c);
      assert s[1..][..k + 1] == s[1..k + 2] by { assert k >= 0 ==> s[1..][..k] == s[1..k + 1]; }
      if k < 0 then -1 else k + 1
  }

  /** s without its leading white space. */
  function SkipSpaces(s: string): (r: string)
    ensures |r| <= |s| && r == s[|s| - |r|..]
    ensures r == [] || !IsSpace(r[0])
  {
    if s != [] && IsSpace(s[0]) then SkipSpaces(s[1..]) else s
  }

  /** The longest prefix of s made of decimal digits. */
  function DigitPrefix(s: string): (r: string)
    ensures r <= s
    ensures forall i :: 0 <= i < |r| ==> IsDigit(r[i])
  {
    if s != [] && IsDigit(s[0]) then [s[0]] + DigitPrefix(s[1..]) else []
  }

  /** The value of a string of decimal digits. */
  function DigitsValue(d: string): nat
    requires forall i :: 0 <= i < |d| ==> IsDigit(d[i])
  {
    if d == [] then 0
    else
      var last := d[|d| - 1];
      assert IsDigit(last);
      DigitsValue(d[..|d| - 1]) * 10 + (last as int - '0' as int)
  }

  function DigitChar(d: nat): (c: char)
    requires d < 10
    ensures IsDigit(c)
  {
    ('0' as int + d) as char
  }

  /** The decimal form that printf's %lu and %d give a non-negative number. */
  function NatToString(n: nat): (r: string)
    ensures r != []
    ensures forall i :: 0 <= i < |r| ==> IsDigit(r[i])
  {
    if n < 10 then [DigitChar(n)] else NatToString(n / 10) + [DigitChar(n % 10)]
  }

  /** strtol(s, NULL, 10) in glibc: leading white space, an optional sign, the
      longest run of digits; a value out of range saturates at LONG_MIN/LONG_MAX. */
  function Strtol(s: string): (r: int)
    ensures LONG_MIN <= r <= LONG_MAX
  {
    var t := SkipSpaces(s);
    var negative := t != [] && t[0] == '-';
    var u := if t != [] && (t[0] == '-' || t[0] == '+') then t[1..] else t;
    var v: int := DigitsValue(DigitPrefix(u));
    var signed := if negative then -v else v;
    if signed > LONG_MAX then LONG_MAX else if signed < LONG_MIN then LONG_MIN else signed
  }

  /** Conversion of an integer to a 32-bit unsigned C type (reduction modulo 2^32). */
  function ToUint32(x: int): (r: nat)
    ensures r < UINT32
    ensures r == x % UINT32
  {
    if 0 <= x < UINT32 then x else x % UINT32
  }

  /** Conversion of a long to a 32-bit int as gcc does it (two's complement wrap). */
  function ToInt32(x: int): (r: int)
    ensures -0x8000_0000 <= r < 0x8000_0000
  {
    var u := x % UINT32;
    if u >= 0x8000_0000 then u - UINT32 else u
  }

  lemma {:induction false} DigitPrefixOfDigits(d: string)
    requires forall i :: 0 <= i < |d| ==> IsDigit(d[i])
    ensures DigitPrefix(d) == d
  {
    if d != [] {
      DigitPrefixOfDigits(d[1..]);
    }
  }

  lemma {:induction false} NatToStringValue(n: nat)
    ensures DigitsValue(NatToString(n)) == n
  {
    var r := NatToString(n);
    if n >= 10 {
      NatToStringValue(n / 10);
      assert r[..|r| - 1] == NatToString(n / 10);
    }
  }

  /** Reading back the decimal form of a number gives the number: %lu then strtol. */
  lemma NatToStringStrtol(n: nat)
    requires n <= LONG_MAX
    ensures Strtol(NatToString(n)) == n
  {
    var s := NatToString(n);
    assert SkipSpaces(s) == s;
    DigitPrefixOfDigits(s);
    NatToStringValue(n);
  }

  /** atoi in glibc: strtol's value converted to int. */
  function Atoi(s: string): (r: int)
    ensures -0x8000_0000 <= r < 0x8000_0000
    ensures -0x8000_0000 <= Strtol(s) < 0x8000_0000 ==> r == Strtol(s)
  {
    var v := Strtol(s);
    if -0x8000_0000 <= v < 0x8000_0000 then v else ToInt32(v)
  }

  /** The digit prefix of digits followed by a non-digit is those digits. */
  lemma {:induction false} DigitPrefixStops(d: string, rest: string)
    requires forall i :: 0 <= i < |d| ==> IsDigit(d[i])
    requires rest == [] || !IsDigit(rest[0])
    ensures DigitPrefix(d + rest) == d
  {
    if d != [] {
      assert (d + rest)[1..] == d[1..] + rest;
      DigitPrefixStops(d[1..], rest);
    }
  }

  /** Reading a number back from its decimal form followed by a non-digit
      gives the number. */
  lemma NatToStringStrtolThen(n: nat, rest: string)
    requires n <= LONG_MAX
    requires rest == [] || !IsDigit(rest[0])
    ensures Strtol(NatToString(n) + rest) == n
  {
    var s := NatToString(n);
    var t := s + rest;
    assert t[0] == s[0];
    StrtolOfDigitsFirst(t);
    DigitPrefixStops(s, rest);
    NatToStringValue(n);
  }

  /** strtol on text that starts with a digit reads the digit prefix,
      saturating at LONG_MAX. */
  lemma StrtolOfDigitsFirst(t: string)
    requires t != [] && IsDigit(t[0])
    ensures var v := DigitsValue(DigitPrefix(t)); Strtol(t) == if v > LONG_MAX then LONG_MAX else v
  {
    assert !IsSpace(t[0]) && t[0] != '-' && t[0] != '+';
    assert SkipSpaces(t) == t;
  }
}
