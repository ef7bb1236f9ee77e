/** Which strings `Str2Int` takes for which numbers, by the figures they are spelled with. */
module NumeralLaws {
  import opened Bytes
  import opened Numerals

  /** The figures 0 to 9 and A to F, and 0 to 9 and a to f. */
  const CAPITALS: seq<byte> :=
    [0x30, 0x31, 0x32, 0x33, 0x34, 0x35, 0x36, 0x37, 0x38, 0x39, 0x41, 0x42, 0x43, 0x44, 0x45, 0x46]
  const SMALLS: seq<byte> :=
    [0x30, 0x31, 0x32, 0x33, 0x34, 0x35, 0x36, 0x37, 0x38, 0x39, 0x61, 0x62, 0x63, 0x64, 0x65, 0x66]

  predicate Figure(c: byte, d: nat) { d < 16 && (c == CAPITALS[d] || c == SMALLS[d]) }

  /** `u` spells `v` to the base of ten or sixteen, with any leading zeros. */
  ghost predicate Spells(u: seq<byte>, base: nat, v: nat)
    requires base in {10, 16}
    decreases |u|
  {
    if u == [] then v == 0
    else Figure(u[|u| - 1], v % base) && Spells(u[..|u| - 1], base, v / base)
  }

  lemma HexFigure(c: byte, d: nat)
    ensures Figure(c, d) <==> IsHex(c) && HexValue(c) == d
    ensures Figure(c, d) ==> d < 16
  {
    if IsHex(c) { assert Figure(c, HexValue(c)); }
  }

  lemma DecimalFigure(c: byte, d: nat)
    requires d < 10
    ensures Figure(c, d) <==> IsDigit(c) && c - 48 == d
  { }

  lemma SpellsLonger(u: seq<byte>, base: nat, v: nat, c: byte, d: nat)
    requires base in {10, 16} && Spells(u, base, v) && d < base && Figure(c, d)
    ensures Spells(u + [c], base, v * base + d)
  {
    hide Figure;
    assert (u + [c])[..|u|] == u;
    Splits(v, base, d);
  }

  lemma Splits(v: nat, base: nat, d: nat)
    requires base in {10, 16} && d < base
    ensures (v * base + d) / base == v && (v * base + d) % base == d
  { }

  lemma {:induction false} SpellsOnce(u: seq<byte>, base: nat, v: nat, w: nat)
    requires base in {10, 16} && Spells(u, base, v) && Spells(u, base, w)
    ensures v == w
    decreases |u|
  {
    if u != [] {
      hide Figure;
      OneFigure(u[|u| - 1], v % base, w % base);
      SpellsOnce(u[..|u| - 1], base, v / base, w / base);
      Quotient(v, base);
      Quotient(w, base);
    }
  }

  lemma OneFigure(c: byte, d: nat, e: nat)
    requires Figure(c, d) && Figure(c, e)
    ensures d == e
  {
    hide Figure;
    HexFigure(c, d);
    HexFigure(c, e);
  }

  lemma Quotient(v: nat, base: nat)
    requires base in {10, 16}
    ensures v == v / base * base + v % base
  { }

  // ---- decimal ----

  /** Behind `k` digits that spell `n` the text ends, or `k`, `K`, `m` or `M` scales the number and
      nothing behind it matters. */
  ghost predicate DecimalEnd(s: seq<byte>, k: nat, n: nat, v: nat)
    requires k < |s|
  {
    || (s[k] == 0 && v == n % 0x1_0000_0000)
    || (k > 0 && s[k] in {0x6B, 0x4B} && v == n * 1024 % 0x1_0000_0000)
    || (k > 0 && s[k] in {0x6D, 0x4D} && v == n * 1048576 % 0x1_0000_0000)
  }

  ghost predicate DecimalText(s: seq<byte>, k: nat, n: nat, v: nat)
    requires |s| >= 11
  {
    k <= 10 && Spells(s[..k], 10, n) && DecimalEnd(s, k, n, v)
  }

  lemma {:induction false} DecimalFromIff(s: seq<byte>, i: nat, n: nat, v: nat)
    requires |s| >= 11 && i <= 11 && Spells(s[..i], 10, n)
    ensures DecimalFrom(s, i, n % TWO32) == Some(v) <==> exists k, m :: k >= i && DecimalText(s, k, m, v)
    decreases 11 - i
  {
    hide Spells, Figure, DecimalFrom;
    if i < 11 {
      DecimalStep(s, i, n);
      if IsDigit(s[i]) {
        NextSpelled(s, i, n);
        DecimalFromIff(s, i + 1, n * 10 + s[i] - 48, v);
        assert forall m :: !DecimalEnd(s, i, m, v);
      } else {
        NoLonger(s, i);
        assert forall k, m :: k > i && k <= 10 ==> !DecimalText(s, k, m, v);
        forall m | DecimalText(s, i, m, v) ensures m == n { SpellsOnce(s[..i], 10, m, n); }
        assert DecimalFrom(s, i, n % TWO32) == Some(v) <==> DecimalText(s, i, n, v);
      }
    } else {
      TooMany(s, n % TWO32);
    }
  }

  lemma TooMany(s: seq<byte>, val: nat)
    requires |s| >= 11
    ensures DecimalFrom(s, 11, val) == None && HexFrom(s, 11, val) == None
  { }

  lemma NextSpelled(s: seq<byte>, i: nat, n: nat)
    requires |s| >= 11 && i < 11 && Spells(s[..i], 10, n) && IsDigit(s[i])
    ensures Spells(s[..i + 1], 10, n * 10 + s[i] - 48)
  {
    DecimalFigure(s[i], s[i] - 48);
    SpellsLonger(s[..i], 10, n, s[i], s[i] - 48);
    assert s[..i + 1] == s[..i] + [s[i]];
  }

  lemma DecimalStep(s: seq<byte>, i: nat, n: nat)
    requires |s| >= 11 && i < 11
    ensures DecimalFrom(s, i, n % TWO32) ==
              if s[i] == 0 then Some(n % TWO32)
              else if i > 0 && s[i] in {0x6B, 0x4B} then Some(n * 1024 % TWO32)
              else if i > 0 && s[i] in {0x6D, 0x4D} then Some(n * 1048576 % TWO32)
              else if IsDigit(s[i]) then DecimalFrom(s, i + 1, (n * 10 + s[i] - 48) % TWO32)
              else None
  {
    Wrapped(n, 1024, 0);
    Wrapped(n, 1048576, 0);
    if IsDigit(s[i]) { Wrapped(n, 10, s[i] - 48); }
  }

  /** A number in 32 bits may be reduced before it is scaled. */
  lemma Wrapped(n: nat, k: nat, d: nat)
    requires k in {10, 16, 1024, 1048576}
    ensures (n % TWO32 * k + d) % TWO32 == (n * k + d) % TWO32
  {
    var q := n / TWO32;
    assert n * k + d == (n % TWO32 * k + d) + TWO32 * (k * q);
    Turns(n % TWO32 * k + d, k * q);
  }

  lemma Turns(x: nat, q: nat)
    ensures (x + TWO32 * q) % TWO32 == x % TWO32
  { }

  /** Digits stop at the first character that is none. */
  lemma {:induction false} AllDigits(u: seq<byte>, n: nat)
    requires Spells(u, 10, n)
    ensures forall i :: 0 <= i < |u| ==> IsDigit(u[i])
    decreases |u|
  {
    if u != [] {
      DecimalFigure(u[|u| - 1], n % 10);
      AllDigits(u[..|u| - 1], n / 10);
    }
  }

  lemma NoLonger(s: seq<byte>, i: nat)
    requires |s| >= 11 && i < 11 && !IsDigit(s[i])
    ensures forall k, m :: i < k <= 10 ==> !Spells(s[..k], 10, m)
  {
    hide Spells;
    forall k, m | i < k <= 10 && Spells(s[..k], 10, m) ensures false {
      assert s[i] == s[..k][i];
      AllDigits(s[..k], m);
    }
  }

  /** A string that does not begin with 0x or 0X is taken exactly when at most ten digits stand in
      front of its end or of a scale. No digit at all is the number 0. */
  lemma DecimalIff(s: seq<byte>, v: nat)
    requires |s| >= 11 && !(s[0] == 0x30 && s[1] in {0x78, 0x58})
    ensures Str2Int(s) == Some(v) <==> exists k, n :: DecimalText(s, k, n, v)
  {
    hide DecimalText, DecimalFrom;
    assert s[..0] == [];
    DecimalFromIff(s, 0, 0, v);
  }

  // ---- hexadecimal ----

  ghost predicate HexText(s: seq<byte>, k: nat, v: nat)
    requires |s| >= 11
  {
    1 <= k <= 8 && s[2 + k] == 0 && Spells(s[2..2 + k], 16, v)
  }

  function Power16(k: nat): (p: nat)
    requires k <= 8
    ensures p > 0
  {
    match k
    case 0 => 1 case 1 => 0x10 case 2 => 0x100 case 3 => 0x1000 case 4 => 0x1_0000 case 5 => 0x10_0000
    case 6 => 0x100_0000 case 7 => 0x1000_0000 case _ => 0x1_0000_0000
  }

  lemma {:induction false} SpelledBelow(u: seq<byte>, v: nat)
    requires |u| <= 8 && Spells(u, 16, v)
    ensures v < Power16(|u|) <= 0x1_0000_0000
    decreases |u|
  {
    if u != [] {
      SpelledBelow(u[..|u| - 1], v / 16);
      Quotient(v, 16);
      assert Power16(|u|) == 16 * Power16(|u| - 1);
    }
  }

  lemma {:induction false} AllHex(u: seq<byte>, n: nat)
    requires Spells(u, 16, n)
    ensures forall i :: 0 <= i < |u| ==> IsHex(u[i])
    decreases |u|
  {
    if u != [] {
      HexFigure(u[|u| - 1], n % 16);
      AllHex(u[..|u| - 1], n / 16);
    }
  }

  lemma NextHex(s: seq<byte>, i: nat, n: nat)
    requires |s| >= 11 && 2 <= i < 11 && Spells(s[2..i], 16, n) && IsHex(s[i])
    ensures Spells(s[2..i + 1], 16, n * 16 + HexValue(s[i]))
    ensures HexFrom(s, i, n % TWO32) == HexFrom(s, i + 1, (n * 16 + HexValue(s[i])) % TWO32)
  {
    hide Spells, Figure, HexValue;
    HexFigure(s[i], HexValue(s[i]));
    assert s[2..i + 1] == s[2..i] + [s[i]];
    SpellsLonger(s[2..i], 16, n, s[i], HexValue(s[i]));
    Wrapped(n, 16, HexValue(s[i]));
  }

  lemma NoMoreHex(s: seq<byte>, i: nat)
    requires |s| >= 11 && 2 <= i < 11 && !IsHex(s[i])
    ensures forall k, m :: i < 2 + k ==> !HexText(s, k, m)
  {
    hide Spells;
    forall k, m | i < 2 + k && HexText(s, k, m) ensures false {
      assert s[i] == s[2..2 + k][i - 2];
      AllHex(s[2..2 + k], m);
    }
  }

  lemma {:induction false} HexFromIff(s: seq<byte>, i: nat, n: nat, v: nat)
    requires |s| >= 11 && 2 <= i <= 11 && Spells(s[2..i], 16, n) && (i == 2 ==> s[2] != 0)
    ensures HexFrom(s, i, n % TWO32) == Some(v) <==> exists k :: 2 + k >= i && HexText(s, k, v)
    decreases 11 - i
  {
    hide Spells, Figure, HexValue, HexFrom;
    if i < 11 {
      if IsHex(s[i]) {
        NextHex(s, i, n);
        HexFromIff(s, i + 1, n * 16 + HexValue(s[i]), v);
        assert !HexText(s, i - 2, v);
      } else {
        NoMoreHex(s, i);
        HexEnd(s, i, n);
        if s[i] == 0 {
          SpelledBelow(s[2..i], n);
          assert HexText(s, i - 2, n);
          if HexText(s, i - 2, v) { SpellsOnce(s[2..i], 16, n, v); }
        }
      }
    } else {
      TooMany(s, n % TWO32);
    }
  }

  lemma HexEnd(s: seq<byte>, i: nat, n: nat)
    requires |s| >= 11 && 2 <= i < 11 && !IsHex(s[i])
    ensures HexFrom(s, i, n % TWO32) == if s[i] == 0 then Some(n % TWO32) else None
  { }

  /** A string that begins with 0x or 0X is taken for `v` exactly when one to eight figures that spell
      `v` follow, and then its end. */
  lemma HexIff(s: seq<byte>, v: nat)
    requires |s| >= 11 && s[0] == 0x30 && s[1] in {0x78, 0x58}
    ensures Str2Int(s) == Some(v) <==> exists k :: HexText(s, k, v)
  {
    hide HexText, HexFrom;
    if s[2] == 0 {
      NoFigures(s, v);
    } else {
      assert s[2..2] == [];
      HexFromIff(s, 2, 0, v);
    }
  }

  lemma NoFigures(s: seq<byte>, v: nat)
    requires |s| >= 11 && s[2] == 0
    ensures forall k :: !HexText(s, k, v)
  {
    hide Spells;
    forall k | HexText(s, k, v) ensures false {
      assert s[2..2 + k][0] == s[2];
      AllHex(s[2..2 + k], v);
    }
  }

  // ---- printing ----

  /** What is printed in decimal spells the number, and no zero leads. */
  lemma {:induction false} DecimalPrinted(n: nat)
    ensures Spells(Digits(n), 10, n) && (|Digits(n)| > 1 ==> Digits(n)[0] != 0x30)
    decreases n
  {
    var u := Digits(n);
    DecimalFigure(u[|u| - 1], n % 10);
    if n >= 10 {
      DecimalPrinted(n / 10);
      assert u[..|u| - 1] == Digits(n / 10);
      if n / 10 < 10 { assert Digits(n / 10) == [ZERO + n / 10]; }
    } else {
      assert u[..|u| - 1] == [];
    }
  }

  /** `n` to the base of sixteen, in small or in capital letters. */
  function HexDigits(n: nat, capitals: bool): (u: seq<byte>)
    ensures u != []
  {
    var c := if capitals then CAPITALS[n % 16] else SMALLS[n % 16];
    if n < 16 then [c] else HexDigits(n / 16, capitals) + [c]
  }

  lemma {:induction false} DigitsSpell(n: nat, capitals: bool, k: nat)
    requires 1 <= k <= 8 && n < Power16(k)
    ensures Spells(HexDigits(n, capitals), 16, n) && |HexDigits(n, capitals)| <= k
    decreases k
  {
    var u := HexDigits(n, capitals);
    assert Figure(u[|u| - 1], n % 16);
    if n >= 16 {
      assert n / 16 < Power16(k - 1);
      DigitsSpell(n / 16, capitals, k - 1);
      assert u[..|u| - 1] == HexDigits(n / 16, capitals);
    } else {
      assert u[..|u| - 1] == [];
    }
  }

  /** Parsing undoes hexadecimal printing, in small and in capital letters, for every 32-bit number. */
  lemma HexPrintParse(s: seq<byte>, n: nat, capitals: bool)
    requires n < 0x1_0000_0000 && |s| >= 11 && s[0] == 0x30 && s[1] in {0x78, 0x58}
    requires var u := HexDigits(n, capitals); 2 + |u| < |s| && s[2..2 + |u|] == u && s[2 + |u|] == 0
    ensures Str2Int(s) == Some(n)
  {
    DigitsSpell(n, capitals, 8);
    hide Spells, HexDigits;
    assert HexText(s, |HexDigits(n, capitals)|, n);
    HexIff(s, n);
  }
}
