/** What size the receiver reads when the sender's digits run on into its stack. */
module HeaderSize {
  import opened Bytes
  import opened Numerals
  import opened Packet
  import opened Block0

  /** Up to the first blank. */
  function UpToBlank(t: seq<byte>): (r: seq<byte>)
    ensures |r| <= |t| && r == t[..|r|] && 32 !in r && (|r| < |t| ==> t[|r|] == 32)
  {
    if t == [] || t[0] == 32 then [] else [t[0]] + UpToBlank(t[1..])
  }

  /** What the receiver sees behind the digits: the bytes of the stack up to a NUL or a blank. */
  function Tail(n: nat, stack: seq<byte>): seq<byte>
    requires n < TWO32 && GoodStack(stack)
  {
    DigitCount(n, 10);
    UpToBlank(CString(stack[|Digits(n)|..]))
  }

  function DigitRun(t: seq<byte>): (j: nat)
    ensures j <= |t| && (forall k :: 0 <= k < j ==> IsDigit(t[k])) && (j < |t| ==> !IsDigit(t[j]))
  {
    if t == [] || !IsDigit(t[0]) then 0 else 1 + DigitRun(t[1..])
  }

  function DigitValue(c: byte): (d: nat)
    requires IsDigit(c)
    ensures d < 10 && d == c - 48
  {
    c - 48
  }

  /** `n` with the first `j` digits of `t` written behind it. */
  function Longer(n: nat, t: seq<byte>, j: nat): (v: nat)
    requires j <= |t| && forall k :: 0 <= k < j ==> IsDigit(t[k])
  {
    if j == 0 then n else 10 * Longer(n, t, j - 1) + DigitValue(t[j - 1])
  }

  predicate IsHexMark(c: byte) { c == 120 || c == 88 }

  predicate IsKilo(c: byte) { c == 107 || c == 75 }

  predicate IsMega(c: byte) { c == 109 || c == 77 }

  function HexRun(u: seq<byte>): (j: nat)
    ensures j <= |u| && (forall k :: 0 <= k < j ==> IsHex(u[k])) && (j < |u| ==> !IsHex(u[j]))
  {
    if u == [] || !IsHex(u[0]) then 0 else 1 + HexRun(u[1..])
  }

  /** The first `j` digits of `u` as a hexadecimal number. */
  function HexNumber(u: seq<byte>, j: nat): (v: nat)
    requires j <= |u| && forall k :: 0 <= k < j ==> IsHex(u[k])
  {
    if j == 0 then 0 else 16 * HexNumber(u, j - 1) + HexValue(u[j - 1])
  }

  /** What follows a leading "0x" must be one to eight hexadecimal digits. */
  function ReadHex(u: seq<byte>): (r: Option<nat>)
    ensures r.Some? ==> r.value < TWO32
  {
    var j := HexRun(u);
    if u == [] || j < |u| || j > 8 then None else Some(HexNumber(u, j) % TWO32)
  }

  /** The number that `t` makes of `n`, in 32 bits; nothing when it is no number. */
  function Read(n: nat, digits: nat, t: seq<byte>): (r: Option<nat>)
    ensures r.Some? ==> r.value < TWO32
  {
    var j := DigitRun(t);
    var v := Longer(n, t, j);
    if n == 0 && t != [] && IsHexMark(t[0]) then ReadHex(t[1..])
    else if digits + j > 10 then None
    else if j == |t| then Some(v % TWO32)
    else if IsKilo(t[j]) then Some(v * 1024 % TWO32)
    else if IsMega(t[j]) then Some(v * 1048576 % TWO32)
    else None
  }

  // ---- the parser is that closed form ----

  lemma ModStep(v: nat, d: nat)
    ensures (v % TWO32 * 10 + d) % TWO32 == (v * 10 + d) % TWO32
  {
    var q := v / TWO32;
    assert v * 10 + d == v % TWO32 * 10 + d + TWO32 * (10 * q);
    Turns(v % TWO32 * 10 + d, 10 * q);
  }

  lemma Turns(x: nat, q: nat)
    ensures (x + TWO32 * q) % TWO32 == x % TWO32
  { }

  lemma ModScale(v: nat)
    ensures v % TWO32 * 1024 % TWO32 == v * 1024 % TWO32
    ensures v % TWO32 * 1048576 % TWO32 == v * 1048576 % TWO32
  {
    var q := v / TWO32;
    assert v == v % TWO32 + TWO32 * q;
    Turns(v % TWO32 * 1024, 1024 * q);
    Turns(v % TWO32 * 1048576, 1048576 * q);
  }

  /** Up to the eleventh character the text `s` goes on with `t` from `i` on, and ends with it. */
  ghost predicate GoesOn(s: seq<byte>, i: nat, t: seq<byte>) {
    && |s| >= 11
    && (forall k :: 0 <= k < |t| && i + k < 11 ==> s[i + k] == t[k])
    && (i + |t| < 11 ==> s[i + |t|] == 0)
  }

  lemma {:induction false} DigitsTaken(s: seq<byte>, i: nat, n: nat, t: seq<byte>, j: nat)
    requires GoesOn(s, i, t) && 0 < i && i + j <= 11 && j <= |t| && forall k :: 0 <= k < j ==> IsDigit(t[k])
    ensures DecimalFrom(s, i, n % TWO32) == DecimalFrom(s, i + j, Longer(n, t, j) % TWO32)
    decreases j
  {
    if j > 0 {
      DigitsTaken(s, i, n, t, j - 1);
      assert s[i + (j - 1)] == t[j - 1];
      ModStep(Longer(n, t, j - 1), DigitValue(t[j - 1]));
    }
  }

  /** Where the digits stop the parser stops too. */
  lemma StopsAs(s: seq<byte>, i: nat, v: nat, t: seq<byte>, j: nat)
    requires GoesOn(s, i, t) && 0 < i && i + j <= 10 && j <= |t| && 0 !in t && (j < |t| ==> !IsDigit(t[j]))
    ensures DecimalFrom(s, i + j, v % TWO32) ==
              if j == |t| then Some(v % TWO32)
              else if IsKilo(t[j]) then Some(v * 1024 % TWO32)
              else if IsMega(t[j]) then Some(v * 1048576 % TWO32)
              else None
  {
    ModScale(v);
    if j < |t| { assert s[i + j] == t[j] && t[j] in t; }
  }

  lemma TooLong(s: seq<byte>, val: nat)
    requires |s| >= 11
    ensures DecimalFrom(s, 11, val) == None
  { }

  lemma ParsedAs(s: seq<byte>, i: nat, n: nat, t: seq<byte>)
    requires GoesOn(s, i, t) && 0 < i <= 10 && n < TWO32 && 0 !in t && !(n == 0 && t != [] && IsHexMark(t[0]))
    ensures DecimalFrom(s, i, n) == Read(n, i, t)
  {
    hide DecimalFrom, GoesOn, Longer, DigitRun;
    var j := DigitRun(t);
    if i + j > 10 {
      DigitsTaken(s, i, n, t, 11 - i);
      LongText(s, i, t);
      TooLong(s, Longer(n, t, 11 - i) % TWO32);
    } else {
      DigitsTaken(s, i, n, t, j);
      StopsAs(s, i, Longer(n, t, j), t, j);
    }
  }

  lemma HexStep(v: nat, d: nat)
    ensures (v % TWO32 * 16 + d) % TWO32 == (v * 16 + d) % TWO32
  {
    var q := v / TWO32;
    assert v * 16 + d == v % TWO32 * 16 + d + TWO32 * (16 * q);
    Turns(v % TWO32 * 16 + d, 16 * q);
  }

  lemma {:induction false} HexTaken(s: seq<byte>, u: seq<byte>, j: nat)
    requires GoesOn(s, 2, u) && 0 !in u && j <= |u| && j <= 9 && forall k :: 0 <= k < j ==> IsHex(u[k])
    ensures HexFrom(s, 2, 0) == HexFrom(s, 2 + j, HexNumber(u, j) % TWO32)
    decreases j
  {
    hide HexFrom, IsHex, HexValue;
    if j > 0 {
      HexTaken(s, u, j - 1);
      assert s[2 + (j - 1)] == u[j - 1] && u[j - 1] in u;
      OneHex(s, 2 + (j - 1), HexNumber(u, j - 1) % TWO32);
      HexStep(HexNumber(u, j - 1), HexValue(u[j - 1]));
    }
  }

  lemma OneHex(s: seq<byte>, i: nat, val: nat)
    requires |s| >= 11 && i < 11 && IsHex(s[i])
    ensures HexFrom(s, i, val) == HexFrom(s, i + 1, (val * 16 + HexValue(s[i])) % TWO32)
  { }

  lemma HexParsedAs(s: seq<byte>, u: seq<byte>)
    requires GoesOn(s, 2, u) && 0 !in u && u != []
    ensures HexFrom(s, 2, 0) == ReadHex(u)
  {
    var j := HexRun(u);
    hide HexRun;
    HexTaken(s, u, if j > 9 then 9 else j);
    if j <= 8 && j < |u| { assert s[2 + j] == u[j] && u[j] in u; }
  }

  /** The text "0" and what follows it. */
  lemma ZeroParsedAs(s: seq<byte>, t: seq<byte>)
    requires GoesOn(s, 1, t) && s[0] == 48 && 0 !in t && t != [] && IsHexMark(t[0])
    ensures Str2Int(s) == Read(0, 1, t)
  {
    hide DecimalFrom, HexFrom, ReadHex, DigitRun;
    var u := t[1..];
    assert s[1 + 0] == t[0];
    forall k | 0 <= k < |u| && 2 + k < 11 ensures s[2 + k] == u[k] { assert s[1 + (k + 1)] == t[k + 1]; }
    GoesOnIs(s, 2, u);
    if u == [] {
      NothingHex();
    } else {
      assert s[2 + 0] == u[0] && u[0] in t;
      HexParsedAs(s, u);
    }
  }

  lemma NothingHex()
    ensures ReadHex([]) == None
  { }

  lemma LongText(s: seq<byte>, i: nat, t: seq<byte>)
    requires GoesOn(s, i, t)
    ensures |s| >= 11
  { }

  // ---- what the receiver recovers ----

  lemma CStringPlain(s: seq<byte>)
    ensures 0 !in CString(s)
  { }

  lemma TextCells(buf: seq<byte>, from: nat, stale: seq<byte>)
    requires |stale| == FILE_SIZE_LENGTH + 1 && from + |stale| <= |buf|
    ensures var k, s := Before(buf, from, 32, FILE_SIZE_LENGTH), CutText(buf, from, 32, stale);
            k <= FILE_SIZE_LENGTH && s[k] == 0 && forall x :: 0 <= x < k ==> s[x] == buf[from + x]
  {
    hide Before;
    var k, s := Before(buf, from, 32, FILE_SIZE_LENGTH), CutText(buf, from, 32, stale);
    var v := buf[from..from + k];
    assert forall x :: 0 <= x < k ==> v[x] == buf[from + x] && s[x] == v[x];
  }

  lemma CutTail(buf: seq<byte>, from: nat, d: seq<byte>, tail: seq<byte>, stale: seq<byte>)
    requires |stale| == FILE_SIZE_LENGTH + 1 && from + |stale| <= |buf| && |d| <= 10 && 32 !in d
    requires from + |d| + |tail| < |buf| && buf[from..from + |d| + |tail|] == d + tail && buf[from + |d| + |tail|] == 0
    ensures var s := CutText(buf, from, 32, stale); s[..|d|] == d && GoesOn(s, |d|, UpToBlank(tail))
  {
    hide CutText, Before, UpToBlank, GoesOn;
    Cells(buf, from, d + tail);
    NoBlankBefore(buf, from, d, tail);
    TextCells(buf, from, stale);
    TailPart(CutText(buf, from, 32, stale), buf, from, d, tail, Before(buf, from, 32, FILE_SIZE_LENGTH));
  }

  lemma Cells(buf: seq<byte>, from: nat, f: seq<byte>)
    requires from + |f| <= |buf| && buf[from..from + |f|] == f
    ensures forall x :: 0 <= x < |f| ==> buf[from + x] == f[x]
  {
    var v := buf[from..from + |f|];
    assert forall x :: 0 <= x < |f| ==> buf[from + x] == v[x];
  }

  lemma TailPart(s: seq<byte>, buf: seq<byte>, from: nat, d: seq<byte>, tail: seq<byte>, k: nat)
    requires |d| <= 10 && from + |d| + |tail| < |buf| && buf[from + |d| + |tail|] == 0
    requires forall x :: 0 <= x < |d + tail| ==> buf[from + x] == (d + tail)[x]
    requires k <= FILE_SIZE_LENGTH < |s| && from + k <= |buf| && s[k] == 0
    requires forall x :: 0 <= x < k ==> s[x] == buf[from + x]
    requires var t := UpToBlank(tail);
             && (k >= |d| + |t| || k == FILE_SIZE_LENGTH)
             && (|t| < |tail| && |d| + |t| < FILE_SIZE_LENGTH ==> k == |d| + |t|)
    ensures s[..|d|] == d && GoesOn(s, |d|, UpToBlank(tail))
  {
    hide UpToBlank;
    var t, f := UpToBlank(tail), d + tail;
    assert forall x :: 0 <= x < |d| ==> f[x] == d[x];
    forall y | 0 <= y < |t| && |d| + y < 11 ensures s[|d| + y] == t[y] {
      assert s[|d| + y] == buf[from + (|d| + y)] == f[|d| + y] == tail[y];
    }
    if |d| + |t| < 11 && k > |d| + |t| { assert s[|d| + |t|] == buf[from + (|d| + |t|)]; }
    GoesOnIs(s, |d|, t);
  }

  lemma GoesOnIs(s: seq<byte>, i: nat, t: seq<byte>)
    requires |s| >= 11 && (i + |t| < 11 ==> s[i + |t|] == 0)
    requires forall k :: 0 <= k < |t| && i + k < 11 ==> s[i + k] == t[k]
    ensures GoesOn(s, i, t)
  { }

  lemma NoBlankBefore(buf: seq<byte>, from: nat, d: seq<byte>, tail: seq<byte>)
    requires from + FILE_SIZE_LENGTH < |buf| && from + |d| + |tail| < |buf| && 32 !in d && |d| <= 10
    requires forall x :: 0 <= x < |d| + |tail| ==> buf[from + x] == (d + tail)[x]
    ensures var k, t := Before(buf, from, 32, FILE_SIZE_LENGTH), UpToBlank(tail);
            && (k >= |d| + |t| || k == FILE_SIZE_LENGTH)
            && (|t| < |tail| && |d| + |t| < FILE_SIZE_LENGTH ==> k == |d| + |t|)
  {
    hide Before, UpToBlank;
    var t := UpToBlank(tail);
    forall i | from <= i < from + |d| + |t| ensures buf[i] != 32 {
      var x := i - from;
      assert buf[from + x] == (d + tail)[x];
      if x < |d| { assert d[x] in d; } else { assert tail[x - |d|] == t[x - |d|] && t[x - |d|] in t; }
    }
    if |t| < |tail| { assert buf[from + (|d| + |t|)] == (d + tail)[|d| + |t|] == 32; }
    BeforeFacts(buf, from, 32, FILE_SIZE_LENGTH);
  }

  lemma BeforeFacts(s: seq<byte>, from: nat, stop: byte, limit: nat)
    requires from + limit < |s|
    ensures var k := Before(s, from, stop, limit);
            && k <= limit && (forall i :: from <= i < from + k ==> s[i] != stop) && (k < limit ==> s[from + k] == stop)
  { }

  /** The sender's own header: the digits, and whatever follows them up to a NUL. */
  ghost predicate MadeHeader(name: seq<byte>, n: nat, stack: seq<byte>, buf: seq<byte>) {
    && GoodName(name, n) && GoodStack(stack) && |Digits(n)| <= 10 && |buf| == BUFFER_SIZE
    && |name| + |CString(DigitBuffer(n, stack))| + 2 <= PACKET_SIZE
    && buf[..PACKET_SIZE + PACKET_HEADER] == HeaderBytes(name, CString(DigitBuffer(n, stack)))
  }

  /** The receiver reads size `n`, whatever else its buffer and its variable hold. */
  ghost predicate SizeRecovered(n: nat, buf: seq<byte>)
    requires |buf| == BUFFER_SIZE
  {
    forall stale: seq<byte>, previous: int :: |stale| == FILE_SIZE_LENGTH + 1 ==> ParsedSize(buf, stale, previous) == n
  }

  lemma NoBlankInDigits(n: nat)
    ensures 32 !in Digits(n)
  { }

  lemma SizeRead(name: seq<byte>, n: nat, stack: seq<byte>, buf: seq<byte>, stale: seq<byte>, previous: int)
    requires MadeHeader(name, n, stack, buf) && |stale| == FILE_SIZE_LENGTH + 1
    ensures ParsedSize(buf, stale, previous) == SizeValue(Read(n, |Digits(n)|, Tail(n, stack)), previous)
  {
    hide Digits, HeaderBytes, DecimalFrom, Read, CutText, DigitBuffer, UpToBlank;
    var d := Digits(n);
    FieldIsDigits(n, stack);
    var tail := CString(stack[|d|..]);
    var from := PACKET_HEADER + |name| + 1;
    HeaderLayout(name, d + tail, buf);
    NameRead(name, buf);
    NoBlankInDigits(n);
    CutTail(buf, from, d, tail, stale);
    var s := CutText(buf, from, 32, stale);
    DigitsParsed(s, n);
    CStringPlain(stack[|d|..]);
    assert s[0] == s[..|d|][0];
    TextParsed(s, n, UpToBlank(tail));
  }

  lemma TextParsed(s: seq<byte>, n: nat, t: seq<byte>)
    requires n < TWO32 && |Digits(n)| <= 10 && 0 !in t && GoesOn(s, |Digits(n)|, t) && s[0] == Digits(n)[0]
    requires DecimalFrom(s, 0, 0) == DecimalFrom(s, |Digits(n)|, n)
    ensures Str2Int(s) == Read(n, |Digits(n)|, t)
  {
    hide Digits, DecimalFrom, HexFrom, Read;
    if n > 0 {
      FirstDigit(n);
      ParsedAs(s, |Digits(n)|, n, t);
    } else {
      ZeroText();
      if t != [] && IsHexMark(t[0]) {
        ZeroParsedAs(s, t);
      } else {
        if t != [] { assert s[1 + 0] == t[0]; }
        ParsedAs(s, 1, 0, t);
      }
    }
  }

  lemma ZeroText()
    ensures Digits(0) == [48]
  { }

  lemma NameRead(name: seq<byte>, buf: seq<byte>)
    requires |buf| == BUFFER_SIZE && 0 !in name && |name| < PACKET_SIZE
    requires buf[PACKET_HEADER..PACKET_HEADER + |name|] == name && buf[PACKET_HEADER + |name|] == 0
    ensures NameLength(buf) == |name|
  {
    var v := buf[PACKET_HEADER..PACKET_HEADER + |name|];
    assert forall i :: PACKET_HEADER <= i < PACKET_HEADER + |name| ==> buf[i] == v[i - PACKET_HEADER];
    BeforeIs(buf, PACKET_HEADER, 0, FILE_NAME_LENGTH, |name|);
  }

  /** The name is recovered whatever the stack holds. */
  lemma NameRecovered(name: seq<byte>, n: nat, stack: seq<byte>, buf: seq<byte>)
    requires MadeHeader(name, n, stack, buf)
    ensures ParsedName(buf) == name
  {
    hide Digits, HeaderBytes, DigitBuffer;
    FieldIsDigits(n, stack);
    HeaderLayout(name, CString(DigitBuffer(n, stack)), buf);
    NameRead(name, buf);
  }

  lemma {:induction false} FirstDigit(n: nat)
    requires n > 0
    ensures Digits(n)[0] != 48
    decreases n
  {
    if n >= 10 { FirstDigit(n / 10); }
  }

  /** The receiver recovers the size if and only if what follows the digits in the sender's memory
      reads as the same 32-bit number, and the number is not negative in the receiver's variable. */
  lemma SizeRecoveredIff(name: seq<byte>, n: nat, stack: seq<byte>, buf: seq<byte>)
    requires MadeHeader(name, n, stack, buf)
    ensures SizeRecovered(n, buf) <==> Read(n, |Digits(n)|, Tail(n, stack)) == Some(n) && n < 0x8000_0000
  {
    hide ParsedSize, Read, Tail, Digits;
    var read := Read(n, |Digits(n)|, Tail(n, stack));
    forall stale: seq<byte>, previous: int | |stale| == FILE_SIZE_LENGTH + 1
      ensures ParsedSize(buf, stale, previous) == SizeValue(read, previous)
    {
      SizeRead(name, n, stack, buf, stale, previous);
    }
    if SizeRecovered(n, buf) {
      var stale := Repeat(0, FILE_SIZE_LENGTH + 1);
      assert ParsedSize(buf, stale, -1) == n && ParsedSize(buf, stale, -2) == n;
    }
  }

  // ---- short fields ----

  lemma DigitBound(n: nat)
    requires n < TWO32
    ensures |Digits(n)| <= 10 && n < Pow10(|Digits(n)|) && (n > 0 ==> n >= Pow10(|Digits(n)| - 1))
    decreases n
  {
    DigitCount(n, 10);
    if n >= 10 {
      DigitBound(n / 10);
      PowUp(|Digits(n / 10)|);
      PowUp(|Digits(n / 10)| - 1);
    }
  }

  lemma PowUp(k: nat)
    requires k < 10
    ensures Pow10(k + 1) == 10 * Pow10(k)
  { }

  lemma {:induction false} LongerBounds(n: nat, t: seq<byte>, j: nat)
    requires j <= |t| && j < 10 && forall k :: 0 <= k < j ==> IsDigit(t[k])
    ensures n * Pow10(j) <= Longer(n, t, j) < (n + 1) * Pow10(j)
    decreases j
  {
    hide Pow10;
    if j == 0 {
      PowZero();
    } else {
      LongerBounds(n, t, j - 1);
      PowUp(j - 1);
      TenTimes(n, Pow10(j - 1), Longer(n, t, j - 1), DigitValue(t[j - 1]));
    }
  }

  lemma PowZero()
    ensures Pow10(0) == 1
  { }

  lemma TenTimes(n: nat, p: nat, v: nat, d: nat)
    requires n * p <= v < (n + 1) * p && d < 10
    ensures n * (10 * p) <= 10 * v + d < (n + 1) * (10 * p)
  {
    assert n * (10 * p) == 10 * (n * p) && (n + 1) * (10 * p) == 10 * ((n + 1) * p);
  }

  /** No kilo suffix behind at most seven digits gives the number they begin with. */
  lemma NoKilo(n: nat, j: nat, v: nat)
    requires n > 0 && j <= 6 && n * Pow10(j) <= v < (n + 1) * Pow10(j) && v < 10000000
    ensures v * 1024 % TWO32 != n
  {
    if v * 1024 % TWO32 == n {
      var q := v * 1024 / TWO32;
      assert v * 1024 == TWO32 * q + n;
      var m := v - 4194304 * q;
      assert n == 1024 * m;
      assert q <= 2;
      KiloCases(m, q, j, v);
    }
  }

  lemma KiloCases(m: int, q: int, j: nat, v: int)
    requires 0 <= q <= 2 && m > 0 && v == m + 4194304 * q && v < 10000000 && j <= 6
    ensures !(1024 * m * Pow10(j) <= v < (1024 * m + 1) * Pow10(j))
  {
    match j
    case 0 =>
    case 1 =>
    case 2 =>
    case 3 =>
    case 4 =>
    case 5 =>
    case _ =>
  }

  lemma NoMega(n: nat, j: nat, v: nat)
    requires n > 0 && j <= 6 && n * Pow10(j) <= v < (n + 1) * Pow10(j) && v < 10000000
    ensures v * 1048576 % TWO32 != n
  {
    if v * 1048576 % TWO32 == n {
      var q := v * 1048576 / TWO32;
      assert v * 1048576 == TWO32 * q + n;
      var m := v - 4096 * q;
      assert n == 1048576 * m;
      MegaCases(m, q, j, v);
    }
  }

  lemma MegaCases(m: int, q: int, j: nat, v: int)
    requires m > 0 && v == m + 4096 * q && v < 10000000 && j <= 6
    ensures !(1048576 * m * Pow10(j) <= v < (1048576 * m + 1) * Pow10(j))
  {
    match j
    case 0 =>
    case 1 =>
    case 2 =>
    case 3 =>
    case 4 =>
    case 5 =>
    case _ =>
  }

  lemma {:induction false} PowProduct(a: nat, b: nat)
    requires a + b <= 10
    ensures Pow10(a) * Pow10(b) == Pow10(a + b)
    decreases b
  {
    hide Pow10;
    if b == 0 {
      PowZero();
    } else {
      PowProduct(a, b - 1);
      PowUp(b - 1);
      PowUp(a + b - 1);
      assert Pow10(a) * (10 * Pow10(b - 1)) == 10 * (Pow10(a) * Pow10(b - 1));
    }
  }

  /** As many digits as there are bound the number they make. */
  lemma LongerBelow(n: nat, t: seq<byte>, j: nat)
    requires 0 < n < TWO32 && j <= |t| && |Digits(n)| + j <= 8 && forall k :: 0 <= k < j ==> IsDigit(t[k])
    ensures Longer(n, t, j) < Pow10(|Digits(n)| + j)
  {
    hide Pow10, Digits;
    DigitBound(n);
    LongerBounds(n, t, j);
    PowProduct(|Digits(n)|, j);
    Scale(n + 1, Pow10(|Digits(n)|), Pow10(j));
  }

  lemma Scale(a: nat, b: nat, p: nat)
    requires a <= b
    ensures a * p <= b * p
  { }

  lemma PowValues()
    ensures forall k: nat :: k <= 7 ==> Pow10(k) <= 10000000
    ensures forall k: nat :: k <= 8 ==> Pow10(k) <= 100000000
    ensures forall k: nat :: 1 <= k <= 10 ==> Pow10(k) >= 10
  { }

  lemma ShortTail(n: nat, t: seq<byte>)
    requires 0 < n < TWO32 && |Digits(n)| + |t| <= 8 && t != []
    ensures Read(n, |Digits(n)|, t) != Some(n)
  {
    hide Pow10, Digits, Longer, DigitRun;
    var j := DigitRun(t);
    var v := Longer(n, t, j);
    PowValues();
    LongerBelow(n, t, j);
    DigitBound(n);
    LongerBounds(n, t, j);
    if j == |t| {
      Scale(10, Pow10(j), n);
      assert v % TWO32 == v;
    } else {
      NoKilo(n, j, v);
      NoMega(n, j, v);
    }
  }

  lemma TailEmptyIff(n: nat, stack: seq<byte>)
    requires n < TWO32 && GoodStack(stack) && |Digits(n)| <= 10
    ensures Tail(n, stack) == [] <==> stack[|Digits(n)|] == 0 || stack[|Digits(n)|] == 32
  {
    hide Digits;
  }

  lemma NothingFollows(n: nat, digits: nat)
    requires n < TWO32 && digits <= 10
    ensures Read(n, digits, []) == Some(n)
  { }

  /** When the digits and what follows them are at most eight bytes: the size is recovered if and
      only if the byte behind the digits is a NUL or a blank. */
  lemma ShortFieldIff(name: seq<byte>, n: nat, stack: seq<byte>, buf: seq<byte>)
    requires MadeHeader(name, n, stack, buf) && n > 0 && |Digits(n)| + |Tail(n, stack)| <= 8
    ensures SizeRecovered(n, buf) <==> stack[|Digits(n)|] == 0 || stack[|Digits(n)|] == 32
  {
    hide SizeRecovered, Read, Tail, Digits;
    SizeRecoveredIff(name, n, stack, buf);
    TailEmptyIff(n, stack);
    DigitBound(n);
    PowValues();
    if Tail(n, stack) == [] { NothingFollows(n, |Digits(n)|); } else { ShortTail(n, Tail(n, stack)); }
  }

  /** A NUL or a blank is enough for every size that is not negative in the receiver's variable. */
  lemma PlainFieldRecovered(name: seq<byte>, n: nat, stack: seq<byte>, buf: seq<byte>)
    requires MadeHeader(name, n, stack, buf) && (stack[|Digits(n)|] == 0 || stack[|Digits(n)|] == 32)
    ensures SizeRecovered(n, buf) <==> n < 0x8000_0000
  {
    hide SizeRecovered, Read, Tail, Digits;
    SizeRecoveredIff(name, n, stack, buf);
    TailEmptyIff(n, stack);
    NothingFollows(n, |Digits(n)|);
  }

  /** It is not needed in longer ones: "10485761m" reads as 1048576 in 32 bits. */
  lemma Coincidence()
    ensures |Digits(1048576)| == 7 && Read(1048576, 7, [0x31, 0x6D]) == Some(1048576)
  {
    hide Pow10, Digits;
    DigitBound(1048576);
    assert DigitRun([0x6D]) == 0;
    assert [0x31, 0x6D][1..] == [0x6D] && DigitRun([0x31, 0x6D]) == 1;
    assert Longer(1048576, [0x31, 0x6D], 1) == 10485761;
    PowAround(|Digits(1048576)|);
  }

  lemma PowAround(k: nat)
    requires k <= 10
    ensures k <= 6 ==> Pow10(k) <= 1000000
    ensures k >= 8 ==> Pow10(k - 1) >= 10000000
  { }

  /** A file of 5 bytes whose digit is followed by a stale "7" arrives as one of 57. */
  lemma SizeLost(name: seq<byte>, stack: seq<byte>, buf: seq<byte>, stale: seq<byte>, previous: int)
    requires MadeHeader(name, 5, stack, buf) && stack[1] == 0x37 && stack[2] == 0 && |stale| == FILE_SIZE_LENGTH + 1
    ensures ParsedSize(buf, stale, previous) == 57
  {
    assert Digits(5) == [0x35];
    assert stack[1..][0] == 0x37 && stack[1..][1..][0] == 0;
    assert CString(stack[1..]) == [0x37];
    assert UpToBlank([0x37]) == [0x37] by { assert [0x37][1..] == []; }
    assert DigitRun([0x37]) == 1 by { assert [0x37][1..] == []; }
    assert Longer(5, [0x37], 1) == 57;
    SizeRead(name, 5, stack, buf, stale, previous);
  }
}
