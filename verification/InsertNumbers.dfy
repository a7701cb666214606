/** Decimal text to fixed-width integers: the span converters of the INSERT packer. */
module InsertNumbers {
  import opened Endian

  predicate IsSpace(c: char) { c == ' ' || '\t' <= c <= '\r' }

  predicate IsDigit(c: char) { '0' <= c <= '9' }

  function DigitOf(c: char): (d: nat)
    requires IsDigit(c)
    ensures d < 10
  {
    c as int - '0' as int
  }

  // ---------------------------------------------------------------- the meaning of a text

  function SkipSpaces(s: string, i: nat): (j: nat)
    requires i <= |s|
    ensures i <= j <= |s| && (forall k :: i <= k < j ==> IsSpace(s[k])) && (j < |s| ==> !IsSpace(s[j]))
    decreases |s| - i
  {
    if i < |s| && IsSpace(s[i]) then SkipSpaces(s, i + 1) else i
  }

  function SkipDigits(s: string, i: nat): (j: nat)
    requires i <= |s|
    ensures i <= j <= |s| && (forall k :: i <= k < j ==> IsDigit(s[k])) && (j < |s| ==> !IsDigit(s[j]))
    decreases |s| - i
  {
    if i < |s| && IsDigit(s[i]) then SkipDigits(s, i + 1) else i
  }

  /** The number written by a run of digits. */
  function DigitsValue(s: string, i: nat, j: nat): nat
    requires i <= j <= |s| && forall k :: i <= k < j ==> IsDigit(s[k])
    decreases j
  {
    if i == j then 0 else DigitsValue(s, i, j - 1) * 10 + DigitOf(s[j - 1])
  }

  const INT64_MAX := 0x7fff_ffff_ffff_ffff
  const UINT64_MAX := 0xffff_ffff_ffff_ffff

  predicate IsSign(c: char) { c == '-' || c == '+' }

  /** Where the digits start, and whether a minus sign stands before them. */
  function DigitsStart(s: string): (i: nat)
    ensures i <= |s|
  {
    var i := SkipSpaces(s, 0);
    if i < |s| && IsSign(s[i]) then i + 1 else i
  }

  predicate IsNegative(s: string) {
    var i := SkipSpaces(s, 0);
    i < |s| && s[i] == '-'
  }

  /** The digits after optional spaces and sign, as an unbounded number. */
  function Magnitude(s: string): nat { DigitsValue(s, DigitsStart(s), SkipDigits(s, DigitsStart(s))) }

  function Min(a: nat, b: nat): nat { if a <= b then a else b }

  // ---------------------------------------------------------------- the converters

  /** The digit loop both converters share: it saturates exactly at `lim`. */
  method SaturatingDigits(s: string, start: nat, lim: nat) returns (acc: nat, any: bool)
    requires start <= |s| && lim >= 100
    ensures acc == Min(DigitsValue(s, start, SkipDigits(s, start)), lim)
    ensures !any ==> acc == 0
  {
    var i := start;
    acc, any := 0, false;
    while i < |s| && IsDigit(s[i])
      invariant start <= i <= |s| && SkipDigits(s, i) == SkipDigits(s, start)
      invariant forall k :: start <= k < i ==> IsDigit(s[k])
      invariant acc == Min(DigitsValue(s, start, i), lim) && (!any ==> acc == 0)
    {
      var d := DigitOf(s[i]);
      any := true;
      SaturatingStep(DigitsValue(s, start, i), d, lim);
      var room: int := lim - d;
      if acc > room / 10 { acc := lim; } else { acc := acc * 10 + d; }
      i := i + 1;
    }
  }

  lemma {:induction false} SaturatingStep(v: nat, d: nat, lim: nat)
    requires d < 10 && lim >= 100
    ensures var acc: int := Min(v, lim);
            var room: int := lim - d;
            Min(v * 10 + d, lim) == if acc > room / 10 then lim else acc * 10 + d
  {}

  /** strtoll in base 10: spaces, sign, digits, the rest ignored; saturated to 64 bits. */
  method FastAtoi64(s: string) returns (v: int)
    ensures v == if IsNegative(s) then 0 - Min(Magnitude(s), INT64_MAX + 1) else Min(Magnitude(s), INT64_MAX)
  {
    var i := SkipSpaces(s, 0);
    var neg := false;
    if i < |s| && IsSign(s[i]) {
      neg := s[i] == '-';
      i := i + 1;
    }
    var lim := if neg then INT64_MAX + 1 else INT64_MAX;
    var acc, any := SaturatingDigits(s, i, lim);
    if !any { return 0; }
    var r: int := acc;
    return if neg then -r else r;
  }

  /** strtoull in base 10: a minus sign wraps around. */
  method FastAtou64(s: string) returns (v: nat)
    ensures var m := Min(Magnitude(s), UINT64_MAX);
            v == if IsNegative(s) && m > 0 then UINT64_MAX + 1 - m else m
  {
    var i := SkipSpaces(s, 0);
    var neg := false;
    if i < |s| && IsSign(s[i]) {
      neg := s[i] == '-';
      i := i + 1;
    }
    var acc, any := SaturatingDigits(s, i, UINT64_MAX);
    if !any { return 0; }
    if neg && acc > 0 { return UINT64_MAX + 1 - acc; }
    return acc;
  }

  predicate IsTsText(s: string) { forall i :: 0 <= i < |s| ==> IsDigit(s[i]) || s[i] == '-' }

  function Int64Of(s: string): (v: int)
    ensures InSigned(v, 8)
  {
    Powers();
    if IsNegative(s) then 0 - Min(Magnitude(s), INT64_MAX + 1) else Min(Magnitude(s), INT64_MAX)
  }

  /** Timestamps: any character but digits and minus signs makes the value 0. */
  method FastTsParse(s: string) returns (v: int)
    ensures v == if IsTsText(s) then Int64Of(s) else 0
  {
    for i := 0 to |s|
      invariant forall k :: 0 <= k < i ==> IsDigit(s[k]) || s[k] == '-'
    {
      if !(IsDigit(s[i]) || s[i] == '-') { return 0; }
    }
    v := FastAtoi64(s);
  }

  // ---------------------------------------------------------------- printing

  function Digits(n: nat): (s: string)
    ensures s != [] && forall k :: 0 <= k < |s| ==> IsDigit(s[k])
  {
    var last := ['0' + (n % 10) as char];
    if n < 10 then last else Digits(n / 10) + last
  }

  function Decimal(v: int): (s: string)
    ensures s != [] && IsTsText(s)
  {
    if v < 0 then "-" + Digits(-v) else Digits(v)
  }

  lemma {:induction false} DigitsValueShift(s: string, t: string, i: nat, j: nat)
    requires i <= j <= |t| && (forall k :: i <= k < j ==> IsDigit(t[k]))
    ensures |s| + j <= |s + t| && (forall k :: |s| + i <= k < |s| + j ==> IsDigit((s + t)[k]))
    ensures DigitsValue(s + t, |s| + i, |s| + j) == DigitsValue(t, i, j)
    decreases j
  {
    if i < j {
      DigitsValueShift(s, t, i, j - 1);
      assert (s + t)[|s| + j - 1] == t[j - 1];
    }
  }

  lemma {:induction false} DigitsValueOf(n: nat)
    ensures DigitsValue(Digits(n), 0, |Digits(n)|) == n
    decreases n
  {
    var s := Digits(n);
    if n >= 10 {
      DigitsValueOf(n / 10);
      DigitsValuePrefix(s, |s| - 1);
      assert s[..|s| - 1] == Digits(n / 10);
    }
  }

  lemma {:induction false} DigitsValuePrefix(s: string, j: nat)
    requires j <= |s| && (forall k :: 0 <= k < |s| ==> IsDigit(s[k]))
    ensures DigitsValue(s, 0, j) == DigitsValue(s[..j], 0, j)
    decreases j
  {
    if j > 0 {
      DigitsValuePrefix(s, j - 1);
      DigitsValuePrefix(s[..j], j - 1);
      assert s[..j][..j - 1] == s[..j - 1];
    }
  }

  lemma {:induction false} SkipAllDigits(s: string, i: nat)
    requires i <= |s| && (forall k :: i <= k < |s| ==> IsDigit(s[k]))
    ensures SkipDigits(s, i) == |s|
  {}

  /** A printed 64-bit integer parses back. */
  lemma {:induction false} DecimalParses(v: int)
    requires -INT64_MAX - 1 <= v <= INT64_MAX
    ensures Int64Of(Decimal(v)) == v
  {
    var s := Decimal(v);
    var n := if v < 0 then -v else v;
    DigitsValueOf(n);
    assert !IsSpace(s[0]);
    assert SkipSpaces(s, 0) == 0;
    if v < 0 {
      SkipAllDigits(s, 1);
      DigitsValueShift("-", Digits(n), 0, |Digits(n)|);
    } else {
      assert IsDigit(s[0]);
      SkipAllDigits(s, 0);
    }
  }
}
