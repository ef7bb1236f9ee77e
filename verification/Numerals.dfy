/** `Int2Str` and `Str2Int` from `libraries/utilities/StringUtils.c`. */
module Numerals {
  import opened Bytes

  const ZERO: byte := 48

  /** The decimal digits of `n`, most significant first. */
  function Digits(n: nat): (s: seq<byte>)
    ensures |s| > 0 && forall i :: 0 <= i < |s| ==> 48 <= s[i] <= 57
    ensures n < 10 ==> |s| == 1
  {
    if n < 10 then [ZERO + n] else Digits(n / 10) + [ZERO + n % 10]
  }

  /** The divisors `Int2Str` goes through; ten digits hold any 32-bit number. */
  function Pow10(k: nat): (p: nat)
    requires k <= 10
    ensures p > 0
  {
    match k
    case 0 => 1 case 1 => 10 case 2 => 100 case 3 => 1000 case 4 => 10000 case 5 => 100000
    case 6 => 1000000 case 7 => 10000000 case 8 => 100000000 case 9 => 1000000000
    case _ => 10000000000
  }

  lemma {:induction false} DigitCount(n: nat, k: nat)
    requires 0 < k <= 10 && n < Pow10(k)
    ensures |Digits(n)| <= k
    decreases k
  {
    if n >= 10 {
      assert n / 10 < Pow10(k - 1);
      DigitCount(n / 10, k - 1);
    }
  }

  lemma PowStep(k: nat)
    requires 0 < k <= 10
    ensures Pow10(k) / 10 == Pow10(k - 1)
  { }

  lemma NextDigit(n: nat, k: nat)
    requires 0 < k <= 10
    ensures var d := n % Pow10(k) / Pow10(k - 1);
            && 0 <= d < 10 && n / Pow10(k - 1) == 10 * (n / Pow10(k)) + d
            && n % Pow10(k) % Pow10(k - 1) == n % Pow10(k - 1)
  {
    match k
    case 1 => case 2 => case 3 => case 4 => case 5 => case 6 => case 7 => case 8 => case 9 => case _ =>
  }

  /** The buffer after the leading digits `q` have been printed; `j` is where the next goes.
      Leading zeros are all written to the first cell. */
  ghost predicate Printed(str: seq<byte>, s0: seq<byte>, q: nat, j: nat) {
    && |str| == |s0| >= 10 && j <= |s0|
    && if q == 0 then j == 0 && str[1..] == s0[1..] else j == |Digits(q)| && str == Digits(q) + s0[j..]
  }

  lemma PrintStep(str: seq<byte>, s0: seq<byte>, q: nat, j: nat, digit: nat)
    requires Printed(str, s0, q, j) && j < |str| && digit < 10
    ensures var str', q' := str[j := digit + 48], 10 * q + digit;
            && Printed(str', s0, q', if q' == 0 then 0 else j + 1)
            && (q' == 0 <==> str'[j] == ZERO && j == 0)
            && (q' == 0 ==> str' == Digits(0) + s0[1..])
  {
    var str', q' := str[j := digit + 48], 10 * q + digit;
    if q == 0 {
      assert str' == [digit + 48] + s0[1..];
      assert str'[1..] == s0[1..];
    } else {
      assert q' / 10 == q && q' % 10 == digit;
      assert Digits(q') == Digits(q) + [ZERO + digit];
      assert str' == Digits(q') + s0[j + 1..];
    }
  }

  /** Prints `n` into the front of `str`. No terminator is written: what follows the
      digits is whatever the buffer held. */
  method Int2Str(str: array<byte>, n: nat)
    requires str.Length >= 10 && n < Pow10(10)
    modifies str
    ensures |Digits(n)| <= 10 && str[..] == Digits(n) + old(str[..])[|Digits(n)|..]
  {
    ghost var s0, q := str[..], 0;
    var rest, div, j, status, i := n, 1000000000, 0, 0, 0;
    DigitCount(n, 10);
    while i < 10
      invariant 0 <= i <= 10 && j <= i
      invariant i < 10 ==> div == Pow10(9 - i)
      invariant rest == n % Pow10(10 - i) && q == n / Pow10(10 - i)
      invariant Printed(str[..], s0, q, j)
      invariant status == 0 <==> j == 0
      invariant i > 0 && q == 0 ==> str[..] == Digits(0) + s0[1..]
    {
      hide Pow10, Digits, Printed;
      NextDigit(n, 10 - i);
      if i < 9 { PowStep(9 - i); }
      var digit := rest / div;
      j, status := PrintDigit(str, j, status, digit, s0, q);
      q := 10 * q + digit;
      rest := rest % div;
      div := div / 10;
      i := i + 1;
    }
  }

  /** The loop body's stores: one digit, kept unless it is a leading zero. */
  method PrintDigit(str: array<byte>, j: nat, status: nat, digit: nat, ghost s0: seq<byte>,
      ghost q: nat) returns (j': nat, status': nat)
    requires Printed(str[..], s0, q, j) && j < str.Length && digit < 10 && (status == 0 <==> j == 0)
    modifies str
    ensures Printed(str[..], s0, 10 * q + digit, j') && j' <= j + 1 && (status' == 0 <==> j' == 0)
    ensures 10 * q + digit == 0 ==> str[..] == Digits(0) + s0[1..]
  {
    PrintStep(str[..], s0, q, j, digit);
    hide Digits, Printed;
    ghost var before := str[..];
    str[j] := digit + 48;
    assert str[..] == before[j := str[j]];
    if str[j] == ZERO && status == 0 { j', status' := 0, status; } else { j', status' := j + 1, status + 1; }
  }

  datatype Option<+T> = None | Some(value: T)

  const TWO32: nat := 0x1_0000_0000

  predicate IsDigit(c: byte) { 48 <= c <= 57 }

  predicate IsHex(c: byte) { IsDigit(c) || 65 <= c <= 70 || 97 <= c <= 102 }

  function HexValue(c: byte): nat
    requires IsHex(c)
  {
    if IsDigit(c) then c - 48 else if c <= 70 then c - 55 else c - 87
  }

  function HexFrom(s: seq<byte>, i: nat, val: nat): Option<nat>
    requires |s| >= 11
    decreases 11 - i
  {
    if i >= 11 then None
    else if s[i] == 0 then Some(val)
    else if IsHex(s[i]) then HexFrom(s, i + 1, (val * 16 + HexValue(s[i])) % TWO32)
    else None
  }

  function DecimalFrom(s: seq<byte>, i: nat, val: nat): Option<nat>
    requires |s| >= 11
    decreases 11 - i
  {
    if i >= 11 then None
    else if s[i] == 0 then Some(val)
    else if (s[i] == 107 || s[i] == 75) && i > 0 then Some(val * 1024 % TWO32)
    else if (s[i] == 109 || s[i] == 77) && i > 0 then Some(val * 1048576 % TWO32)
    else if IsDigit(s[i]) then DecimalFrom(s, i + 1, (val * 10 + s[i] - 48) % TWO32)
    else None
  }

  /** `Str2Int`: a hexadecimal or a decimal number of at most ten characters; a decimal one
      may end in `k` or `m`. The value wraps at 32 bits. */
  function Str2Int(s: seq<byte>): Option<nat>
    requires |s| >= 11
  {
    if s[0] == 48 && (s[1] == 120 || s[1] == 88) then (if s[2] == 0 then None else HexFrom(s, 2, 0))
    else DecimalFrom(s, 0, 0)
  }

  method ReadHex(s: array<byte>) returns (value: Option<nat>)
    requires s.Length >= 11
    ensures value == HexFrom(s[..], 2, 0)
  {
    var i, val: nat := 2, 0;
    while i < 11
      invariant 2 <= i <= 11 && HexFrom(s[..], i, val) == HexFrom(s[..], 2, 0)
    {
      if s[i] == 0 { return Some(val); }
      if !IsHex(s[i]) { return None; }
      val := (val * 16 + HexValue(s[i])) % TWO32;
      i := i + 1;
    }
    value := None;
  }

  method ReadDecimal(s: array<byte>) returns (value: Option<nat>)
    requires s.Length >= 11
    ensures value == DecimalFrom(s[..], 0, 0)
  {
    var i, val: nat := 0, 0;
    while i < 11
      invariant 0 <= i <= 11 && DecimalFrom(s[..], i, val) == DecimalFrom(s[..], 0, 0)
    {
      if s[i] == 0 { return Some(val); }
      if (s[i] == 107 || s[i] == 75) && i > 0 { return Some(val * 1024 % TWO32); }
      if (s[i] == 109 || s[i] == 77) && i > 0 { return Some(val * 1048576 % TWO32); }
      if !IsDigit(s[i]) { return None; }
      val := (val * 10 + s[i] - 48) % TWO32;
      i := i + 1;
    }
    value := None;
  }

  method ReadInt(s: array<byte>) returns (value: Option<nat>)
    requires s.Length >= 11
    ensures value == Str2Int(s[..])
  {
    if s[0] == 48 && (s[1] == 120 || s[1] == 88) {
      if s[2] == 0 { return None; }
      value := ReadHex(s);
    } else {
      value := ReadDecimal(s);
    }
  }

  lemma OneDigit(s: seq<byte>, i: nat, val: nat)
    requires |s| >= 11 && i < 11 && IsDigit(s[i]) && val * 10 + s[i] - 48 < TWO32
    ensures DecimalFrom(s, i, val) == DecimalFrom(s, i + 1, val * 10 + s[i] - 48)
  { }

  lemma {:induction false} DigitsParsed(s: seq<byte>, n: nat)
    requires |s| >= 11 && |Digits(n)| <= 10 && s[..|Digits(n)|] == Digits(n) && n < TWO32
    ensures DecimalFrom(s, 0, 0) == DecimalFrom(s, |Digits(n)|, n)
    decreases n
  {
    hide DecimalFrom;
    var d := |Digits(n)|;
    assert s[d - 1] == s[..d][d - 1] == ZERO + n % 10;
    OneDigit(s, d - 1, n / 10);
    if n >= 10 {
      assert Digits(n)[..d - 1] == Digits(n / 10);
      assert s[..d - 1] == s[..d][..d - 1];
      DigitsParsed(s, n / 10);
    }
  }

  /** Parsing undoes printing once a terminator follows the digits. */
  lemma PrintParse(s: seq<byte>, n: nat)
    requires n < TWO32 && |Digits(n)| <= 10
    requires |s| >= 11 && s[..|Digits(n)|] == Digits(n) && s[|Digits(n)|] == 0
    ensures Str2Int(s) == Some(n)
  {
    DigitsParsed(s, n);
    assert s[0] == s[..|Digits(n)|][0];
    if |Digits(n)| > 1 { assert s[1] == s[..|Digits(n)|][1]; }
  }
}
