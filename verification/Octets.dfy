/** NUL-terminated byte strings as TFTP requests carry them: the case-insensitive
    comparison of option names, and decimal numbers. */
module Octets {
  import opened Wrappers

  type octet = bv8

  type bytes = seq<octet>

  const ZERO: octet := 0

  // ----------------------------------------------------------------------- strings

  predicate Plain(s: bytes) {
    ZERO !in s
  }

  /** Where the string that starts at offset i ends: at the first NUL, or at the end
      of the buffer. */
  function NulAt(b: bytes, i: nat): (k: nat)
    requires i <= |b|
    ensures i <= k <= |b|
    ensures k < |b| ==> b[k] == ZERO
    ensures forall j :: i <= j < k ==> b[j] != ZERO
    decreases |b| - i
  {
    if i == |b| || b[i] == ZERO then i else NulAt(b, i + 1)
  }

  /** The NUL after a string is the first one. */
  lemma NulAfter(b: bytes, i: nat, s: bytes, rest: bytes)
    requires i <= |b| && b[i..] == s + [ZERO] + rest && Plain(s)
    ensures NulAt(b, i) == i + |s| < |b| && b[i..i + |s|] == s && b[i + |s| + 1..] == rest
  {
    assert forall j :: 0 <= j < |s| ==> b[i + j] == b[i..][j] == s[j];
    assert b[i + |s|] == b[i..][|s|] == ZERO;
    assert b[i + |s| + 1..] == b[i..][|s| + 1..];
  }

  /** An ASCII letter in lower case. */
  function Fold(c: octet): octet {
    if 0x41 <= c <= 0x5a then c + 0x20 else c
  }

  /** The same name, up to the case of its letters. */
  predicate SameName(s: bytes, t: bytes) {
    |s| == |t| && forall i :: 0 <= i < |s| ==> Fold(s[i]) == Fold(t[i])
  }

  /** Two bytes that differ are the same letter exactly when they differ in the bit
      0x20 alone and with it set they lie between a and z. */
  lemma CaseBit(c: octet, d: octet)
    requires c != d
    ensures Fold(c) == Fold(d) <==> c ^ d == 0x20 && 0x61 <= (c | (c ^ d)) <= 0x7a
  {
  }

  /** ascii_strcaseeq, on strings with their terminating NUL. */
  method StrCaseEq(s1: bytes, s2: bytes) returns (same: bool)
    requires ZERO in s1 && ZERO in s2
    ensures same == SameName(s1[..NulAt(s1, 0)], s2[..NulAt(s2, 0)])
  {
    hide Fold;
    ghost var n1, n2 := NulAt(s1, 0), NulAt(s2, 0);
    NulExists(s1);
    NulExists(s2);
    FoldZero();
    var i := 0;
    while true
      invariant i <= n1 && i <= n2
      invariant forall j :: 0 <= j < i ==> Fold(s1[j]) == Fold(s2[j])
      decreases n1 - i
    {
      var c1 := s1[i];
      var cx := c1 ^ s2[i];
      if cx != 0 {
        DifferentBytes(c1, s2[i]);
        CaseBit(c1, s2[i]);
        if cx != 0x20 || (c1 | cx) - 0x61 > 0x7a - 0x61 {
          assert Fold(s1[i]) != Fold(s2[i]);
          assert n1 == n2 ==> !(Fold(s1[..n1][i]) == Fold(s2[..n2][i]));
          return false;
        }
      } else {
        EqualBytes(c1, s2[i]);
      }
      if c1 == ZERO {
        return true;
      }
      i := i + 1;
    }
  }

  lemma FoldZero()
    ensures forall c: octet :: Fold(c) == Fold(ZERO) <==> c == ZERO
  {
  }

  lemma EqualBytes(c: octet, d: octet)
    requires c ^ d == 0
    ensures c == d
  {
  }

  lemma DifferentBytes(c: octet, d: octet)
    requires c ^ d != 0
    ensures c != d
  {
  }

  lemma NulExists(s: bytes)
    requires ZERO in s
    ensures NulAt(s, 0) < |s|
  {
    var k :| 0 <= k < |s| && s[k] == ZERO;
  }

  /** mempcpy: copies and returns where the copy ends. */
  method MemPCpy(to: array<octet>, at: nat, from: bytes) returns (end: nat)
    requires at + |from| <= to.Length
    modifies to
    ensures end == at + |from| && to[..end] == old(to[..at]) + from
  {
    forall i | 0 <= i < |from| {
      to[at + i] := from[i];
    }
    end := at + |from|;
  }

  // ----------------------------------------------------------------------- numbers

  const UINTMAX: nat := 0x1_0000_0000_0000_0000 - 1

  /** The range of off_t. */
  const OFF_MAX: int := 0x7fff_ffff_ffff_ffff
  const OFF_MIN: int := -0x8000_0000_0000_0000

  predicate IsDigit(c: octet) {
    0x30 <= c <= 0x39
  }

  predicate AllDigits(s: bytes) {
    forall i :: 0 <= i < |s| ==> IsDigit(s[i])
  }

  function DigitValue(c: octet): (v: nat)
    ensures v < 10
  {
    if c == 0x31 then 1 else if c == 0x32 then 2 else if c == 0x33 then 3
    else if c == 0x34 then 4 else if c == 0x35 then 5 else if c == 0x36 then 6
    else if c == 0x37 then 7 else if c == 0x38 then 8 else if c == 0x39 then 9 else 0
  }

  function DigitByte(v: nat): (c: octet)
    requires v < 10
    ensures IsDigit(c) && DigitValue(c) == v
  {
    if v == 0 then 0x30 else if v == 1 then 0x31 else if v == 2 then 0x32 else if v == 3 then 0x33
    else if v == 4 then 0x34 else if v == 5 then 0x35 else if v == 6 then 0x36
    else if v == 7 then 0x37 else if v == 8 then 0x38 else 0x39
  }

  /** A number printed in decimal. */
  function Decimal(n: nat): (s: bytes)
    ensures |s| > 0 && forall i :: 0 <= i < |s| ==> IsDigit(s[i])
  {
    if n < 10 then [DigitByte(n)] else Decimal(n / 10) + [DigitByte(n % 10)]
  }

  function Magnitude(s: bytes): nat {
    if s == [] then 0 else 10 * Magnitude(s[..|s| - 1]) + DigitValue(s[|s| - 1])
  }

  predicate IsSpace(c: octet) {
    c == 0x20 || 0x09 <= c <= 0x0d
  }

  function SkipSpace(s: bytes): bytes {
    if s != [] && IsSpace(s[0]) then SkipSpace(s[1..]) else s
  }

  /** strtoumax in base 10, when it uses up the whole string without an error: it
      skips white space and takes a sign, and a minus sign wraps the value around. */
  function ToUMax(s: bytes): (v: Option<nat>)
    ensures v.Some? ==> v.value <= UINTMAX
  {
    var t := SkipSpace(s);
    var signed := t != [] && (t[0] == 0x2b || t[0] == 0x2d);
    var digits := if signed then t[1..] else t;
    if digits == [] || !AllDigits(digits) then None
    else
      var m := Magnitude(digits);
      if m > UINTMAX then None
      else if signed && t[0] == 0x2d && m > 0 then Some(UINTMAX + 1 - m)
      else Some(m)
  }

  lemma {:induction false} MagnitudeDecimal(n: nat)
    ensures Magnitude(Decimal(n)) == n
  {
    if n < 10 {
      var s := [DigitByte(n)];
      assert s[..|s| - 1] == [];
    } else {
      MagnitudeDecimal(n / 10);
      var s := Decimal(n / 10) + [DigitByte(n % 10)];
      assert s[..|s| - 1] == Decimal(n / 10);
    }
  }

  lemma DigitIsPlain(c: octet)
    requires IsDigit(c)
    ensures c != ZERO && !IsSpace(c) && c != 0x2b && c != 0x2d
  {
  }

  /** Reading back a printed number. */
  lemma NumberRoundTrip(n: nat)
    requires n <= UINTMAX
    ensures ToUMax(Decimal(n)) == Some(n) && Plain(Decimal(n)) && IsDigit(Decimal(n)[0])
  {
    var s := Decimal(n);
    MagnitudeDecimal(n);
    DigitIsPlain(s[0]);
    forall i | 0 <= i < |s| ensures s[i] != ZERO {
      DigitIsPlain(s[i]);
    }
  }

  function Pow10(k: nat): nat {
    if k == 0 then 1 else 10 * Pow10(k - 1)
  }

  lemma {:induction false} DecimalLength(n: nat, k: nat)
    requires k > 0 && n < Pow10(k)
    ensures |Decimal(n)| <= k
  {
    if n >= 10 {
      assert Pow10(1) == 10 * Pow10(0);
      assert Pow10(k) == 10 * Pow10(k - 1);
      assert n / 10 < Pow10(k - 1);
      DecimalLength(n / 10, k - 1);
    }
  }

  /** A 64-bit number has at most twenty digits. */
  lemma AtMostTwentyDigits(n: nat)
    requires n <= UINTMAX
    ensures |Decimal(n)| <= 20
  {
    calc {
      Pow10(20);
      10 * 10 * 10 * 10 * 10 * Pow10(15);
      { assert Pow10(15) == 10 * 10 * 10 * 10 * 10 * Pow10(10); }
      10 * 10 * 10 * 10 * 10 * 10 * 10 * 10 * 10 * 10 * Pow10(10);
      { assert Pow10(10) == 10 * 10 * 10 * 10 * 10 * Pow10(5); }
      { assert Pow10(5) == 100000; }
      100000000000000000000;
    }
    DecimalLength(n, 20);
  }
}
