/** The header block: file name and size, printed by the sender and parsed by the receiver. */
module Block0 {
  import opened Bytes
  import opened Packet
  import opened Numerals

  const FILE_NAME_LENGTH: nat := 256
  const FILE_SIZE_LENGTH: nat := 16

  /** How many bytes from `from` on come before `stop`, looking at no more than `limit`. */
  function Before(s: seq<byte>, from: nat, stop: byte, limit: nat): (k: nat)
    requires from + limit < |s|
    ensures k <= limit
    ensures forall i :: from <= i < from + k ==> s[i] != stop
    ensures k < limit ==> s[from + k] == stop
    decreases limit
  {
    if limit == 0 || s[from] == stop then 0 else 1 + Before(s, from + 1, stop, limit - 1)
  }

  lemma {:induction false} BeforeIs(s: seq<byte>, from: nat, stop: byte, limit: nat, k: nat)
    requires from + limit < |s| && k <= limit
    requires forall i :: from <= i < from + k ==> s[i] != stop
    requires k < limit ==> s[from + k] == stop
    ensures Before(s, from, stop, limit) == k
    decreases limit
  {
    if k > 0 { BeforeIs(s, from + 1, stop, limit - 1, k - 1); }
  }

  /** The C string at the front of `s`. */
  function CString(s: seq<byte>): seq<byte> {
    if s == [] || s[0] == 0 then [] else [s[0]] + CString(s[1..])
  }

  lemma {:induction false} CStringPrefix(v: seq<byte>, rest: seq<byte>)
    requires 0 !in v
    ensures CString(v + rest) == v + CString(rest)
    decreases |v|
  {
    if v == [] {
      assert v + rest == rest;
    } else {
      assert (v + rest)[1..] == v[1..] + rest;
      CStringPrefix(v[1..], rest);
    }
  }

  lemma CStringIs(v: seq<byte>, rest: seq<byte>)
    requires 0 !in v && (rest == [] || rest[0] == 0)
    ensures CString(v + rest) == v
  {
    CStringPrefix(v, rest);
  }

  // ---- sender ----

  /** The header packet without its trailer, for a name and a size field. */
  function HeaderBytes(name: seq<byte>, field: seq<byte>): (h: seq<byte>)
    ensures |h| == PACKET_SIZE + PACKET_HEADER
  {
    ([SOH, 0, 0xFF] + name + [0] + field + Repeat(0, PACKET_SIZE + PACKET_HEADER))[..PACKET_SIZE + PACKET_HEADER]
  }

  /** The memory from the ten-byte digit buffer on, up to a NUL that lies behind it. A NUL further
      away than this would let the copy run out of the packet buffer. */
  predicate GoodStack(stack: seq<byte>) {
    10 < |stack| <= BUFFER_SIZE - PACKET_HEADER - FILE_NAME_LENGTH - 1 && stack[|stack| - 1] == 0
  }

  /** That memory after `Int2Str`: the digits, then what the stack held. */
  function DigitBuffer(n: nat, stack: seq<byte>): (b: seq<byte>)
    requires n < TWO32 && GoodStack(stack)
    ensures |b| == |stack|
  {
    DigitCount(n, 10);
    Digits(n) + stack[|Digits(n)|..]
  }

  /** Copies the C string in `src` to `data` from `at` on. */
  method CopyString(data: array<byte>, at: nat, src: array<byte>) returns (end: nat)
    requires data != src && at + src.Length <= data.Length
    modifies data
    ensures at <= end <= at + src.Length
    ensures data[..end] == old(data[..at]) + CString(src[..])
  {
    hide CString;
    var i := 0;
    ghost var s, front := src[..], data[..at];
    while i < src.Length && src[i] != 0
      invariant 0 <= i <= src.Length && src[..] == s
      invariant data[..at] == front
      invariant forall k :: 0 <= k < i ==> data[at + k] == s[k] && s[k] != 0
    {
      data[at + i] := src[i];
      i := i + 1;
    }
    end := at + i;
    CStringUpTo(s, i);
    assert data[..end] == front + s[..i];
  }

  lemma {:induction false} CStringUpTo(s: seq<byte>, i: nat)
    requires i <= |s| && (forall k :: 0 <= k < i ==> s[k] != 0) && (i < |s| ==> s[i] == 0)
    ensures CString(s) == s[..i]
    decreases i
  {
    if i > 0 {
      CStringUpTo(s[1..], i - 1);
      assert s[..i] == [s[0]] + s[1..][..i - 1];
    }
  }

  /** `Ymodem_PrepareIntialPacket`; `stack` is what its digit buffer and the memory behind it
      happen to hold. */
  method PrepareInitialPacket(data: array<byte>, fileName: array<byte>, length: nat, stack: seq<byte>)
    requires data.Length == BUFFER_SIZE && fileName.Length == FILE_NAME_LENGTH && data != fileName
    requires length < TWO32 && GoodStack(stack)
    modifies data
    ensures data[..PACKET_SIZE + PACKET_HEADER] ==
              HeaderBytes(CString(fileName[..]), CString(DigitBuffer(length, stack)))
  {
    data[0], data[1], data[2] := SOH, 0, 0xFF;
    assert data[..PACKET_HEADER] == [SOH, 0, 0xFF];
    ghost var text := fileName[..];
    ghost var name, field := CString(text), CString(DigitBuffer(length, stack));
    var i := CopyString(data, PACKET_HEADER, fileName);
    ghost var front := data[..i];
    assert front == [SOH, 0, 0xFF] + name;
    data[i] := 0;
    assert data[..i + 1] == front + [0];
    front := front + [0];
    var filePtr := new byte[|stack|];
    forall k | 0 <= k < |stack| { filePtr[k] := stack[k]; }
    assert filePtr[..] == stack;
    Int2Str(filePtr, length);
    assert filePtr[..] == DigitBuffer(length, stack);
    assert data[..i + 1] == front;
    i := CopyString(data, i + 1, filePtr);
    assert data[..i] == front + field;
    assert front + field == [SOH, 0, 0xFF] + name + [0] + field;
    PadZeros(data, i);
    assert data[..PACKET_SIZE + PACKET_HEADER] == HeaderBytes(name, field);
    assert fileName[..] == text;
  }

  method PadZeros(data: array<byte>, from: nat)
    requires from <= data.Length == BUFFER_SIZE
    modifies data
    ensures data[..PACKET_SIZE + PACKET_HEADER] == (old(data[..from]) + Repeat(0,
              PACKET_SIZE + PACKET_HEADER))[..PACKET_SIZE + PACKET_HEADER]
  {
    var j := from;
    while j < PACKET_SIZE + PACKET_HEADER
      invariant from <= j && (j <= PACKET_SIZE + PACKET_HEADER || j == from)
      invariant forall k :: 0 <= k < from ==> data[k] == old(data[k])
      invariant forall k :: from <= k < j ==> data[k] == 0
    {
      data[j] := 0;
      j := j + 1;
    }
  }

  // ---- receiver ----

  function NameLength(buf: seq<byte>): (k: nat)
    requires |buf| == BUFFER_SIZE
    ensures k <= FILE_NAME_LENGTH
  {
    Before(buf, PACKET_HEADER, 0, FILE_NAME_LENGTH)
  }

  /** The name the receiver cuts out of its packet buffer. */
  function ParsedName(buf: seq<byte>): seq<byte>
    requires |buf| == BUFFER_SIZE
  {
    buf[PACKET_HEADER..PACKET_HEADER + NameLength(buf)]
  }

  /** A text buffer after what comes before `stop` is copied into it and terminated. */
  function CutText(buf: seq<byte>, from: nat, stop: byte, text: seq<byte>): (t: seq<byte>)
    requires |text| > 0 && from + |text| <= |buf|
    ensures |t| == |text|
  {
    var k := Before(buf, from, stop, |text| - 1);
    buf[from..from + k] + [0] + text[k + 1..]
  }

  /** A 32-bit value in a signed variable. */
  function Signed(v: nat): int { if v < 0x8000_0000 then v else v - TWO32 }

  /** `Str2Int` stores a value in the signed size variable, or nothing. */
  function SizeValue(parsed: Option<nat>, previous: int): int {
    match parsed
    case None => previous
    case Some(v) => Signed(v)
  }

  /** The size the receiver goes by, `previous` when the field is no number. */
  function ParsedSize(buf: seq<byte>, stale: seq<byte>, previous: int): int
    requires |buf| == BUFFER_SIZE && |stale| == FILE_SIZE_LENGTH + 1
  {
    SizeValue(Str2Int(CutText(buf, PACKET_HEADER + NameLength(buf) + 1, 32, stale)), previous)
  }

  /** The header parse of `Ymodem_Receive`. Both buffers get the extra cell the terminator
      may need. */
  method ParseHeader(packet: array<byte>, fileName: array<byte>, fileSize: array<byte>,
      previous: int) returns (size: int)
    requires packet.Length == BUFFER_SIZE && fileName.Length == FILE_NAME_LENGTH + 1
              && fileSize.Length == FILE_SIZE_LENGTH + 1
    requires packet != fileName && packet != fileSize && fileName != fileSize
    modifies fileName, fileSize
    ensures fileName[..|ParsedName(packet[..])| + 1] == ParsedName(packet[..]) + [0]
    ensures fileSize[..] == CutText(packet[..], PACKET_HEADER + NameLength(packet[..]) + 1, 32, old(fileSize[..]))
    ensures size == ParsedSize(packet[..], old(fileSize[..]), previous)
  {
    var i := ParseText(packet, PACKET_HEADER, 0, fileName);
    assert fileName[..i + 1] == ParsedName(packet[..]) + [0];
    i := ParseText(packet, PACKET_HEADER + i + 1, 32, fileSize);
    var parsed := ReadInt(fileSize);
    size := SizeValue(parsed, previous);
  }

  /** Copies what comes before `stop` into `text`, filling at most all but its last cell, and
      terminates it. */
  method ParseText(packet: array<byte>, from: nat, stop: byte, text: array<byte>) returns (i: nat)
    requires text.Length > 0 && from + text.Length <= packet.Length && packet != text
    modifies text
    ensures i == Before(packet[..], from, stop, text.Length - 1)
    ensures text[..] == CutText(packet[..], from, stop, old(text[..]))
  {
    hide Before, CutText;
    ghost var p, t := packet[..], text[..];
    var filePtr := from;
    i := 0;
    while packet[filePtr] != stop && i < text.Length - 1
      invariant 0 <= i < text.Length && filePtr == from + i
      invariant forall k :: 0 <= k < i ==> text[k] == p[from + k]
      invariant forall k :: from <= k < from + i ==> p[k] != stop
      invariant forall k :: i <= k < text.Length ==> text[k] == t[k]
      decreases text.Length - i
    {
      text[i] := packet[filePtr];
      i, filePtr := i + 1, filePtr + 1;
    }
    BeforeIs(p, from, stop, text.Length - 1, i);
    text[i] := 0;
    CutTextIs(p, from, stop, t, i, text[..]);
  }

  lemma CutTextIs(p: seq<byte>, from: nat, stop: byte, t: seq<byte>, i: nat, now: seq<byte>)
    requires |t| > 0 && from + |t| <= |p| && i == Before(p, from, stop, |t| - 1) && |now| == |t|
    requires forall k :: 0 <= k < |t| ==> now[k] == if k < i then p[from + k] else if k == i then 0 else t[k]
    ensures now == CutText(p, from, stop, t)
  {
    hide Before;
    var v := p[from..from + i];
    assert forall k :: 0 <= k < i ==> v[k] == p[from + k];
  }

  /** What the receiver makes of any header: the name is what comes before a NUL, 256 bytes at most, and
      the size field what comes behind it before a blank, 16 bytes at most; a size of 2^31 or more is
      negative, and a field that is no number changes nothing. */
  lemma HeaderFields(buf: seq<byte>, stale: seq<byte>, previous: int) returns (k: nat, j: nat)
    requires |buf| == BUFFER_SIZE && |stale| == 17
    ensures k <= 256 && ParsedName(buf) == buf[3..3 + k] && 0 !in buf[3..3 + k] && (k < 256 ==> buf[3 + k] == 0)
    ensures j <= 16 && 0x20 !in buf[4 + k..4 + k + j] && (j < 16 ==> buf[4 + k + j] == 0x20)
    ensures ParsedSize(buf, stale, previous) ==
              match Str2Int(buf[4 + k..4 + k + j] + [0] + stale[j + 1..])
              case None => previous
              case Some(v) => if v < 0x8000_0000 then v else v - 0x1_0000_0000
  {
    hide Str2Int, Before;
    k := NameLength(buf);
    j := Before(buf, 4 + k, 0x20, 16);
    CutTextCells(buf, 4 + k, 0x20, stale);
  }

  lemma CutTextCells(buf: seq<byte>, from: nat, stop: byte, text: seq<byte>)
    requires |text| == 17 && from + 17 <= |buf|
    ensures var k := Before(buf, from, stop, 16);
            CutText(buf, from, stop, text) == buf[from..from + k] + [0] + text[k + 1..]
  {
    hide Before;
  }

  // ---- both ends ----

  /** A name and a 32-bit size that fit the header block. */
  ghost predicate GoodName(name: seq<byte>, n: nat) {
    name != [] && 0 !in name && n < TWO32 && |name| + |Digits(n)| + 2 <= PACKET_SIZE
  }

  lemma HeaderLayout(name: seq<byte>, field: seq<byte>, buf: seq<byte>)
    requires |name| + |field| + 2 <= PACKET_SIZE && |buf| >= PACKET_SIZE + PACKET_HEADER
    requires buf[..PACKET_SIZE + PACKET_HEADER] == HeaderBytes(name, field)
    ensures buf[..PACKET_HEADER] == [SOH, 0, 0xFF]
    ensures buf[PACKET_HEADER..PACKET_HEADER + |name|] == name && buf[PACKET_HEADER + |name|] == 0
    ensures var from := PACKET_HEADER + |name| + 1;
            buf[from..from + |field|] == field && buf[from + |field|] == 0
  {
    var h := HeaderBytes(name, field);
    HeaderCells(name, field);
    assert forall i :: 0 <= i < |h| ==> buf[i] == h[i];
    hide HeaderBytes;
    var from := PACKET_HEADER + |name| + 1;
    assert buf[..PACKET_HEADER] == h[..PACKET_HEADER];
    assert buf[PACKET_HEADER..PACKET_HEADER + |name|] == h[PACKET_HEADER..PACKET_HEADER + |name|];
    assert buf[from..from + |field|] == h[from..from + |field|];
  }

  lemma HeaderCells(name: seq<byte>, field: seq<byte>)
    requires |name| + |field| + 2 <= PACKET_SIZE
    ensures var h := HeaderBytes(name, field);
            var from := PACKET_HEADER + |name| + 1;
            && h[..PACKET_HEADER] == [SOH, 0, 0xFF] && h[PACKET_HEADER..PACKET_HEADER + |name|] == name
            && h[PACKET_HEADER + |name|] == 0 && h[from..from + |field|] == field && h[from + |field|] == 0
  {
    var from := PACKET_HEADER + |name| + 1;
    var front := [SOH, 0, 0xFF] + name + [0] + field;
    var h := HeaderBytes(name, field);
    assert h[..|front|] == front;
    assert h[|front|] == 0;
    SliceOfSlice(h, |front|, 0, PACKET_HEADER);
    SliceOfSlice(h, |front|, PACKET_HEADER, PACKET_HEADER + |name|);
    SliceOfSlice(h, |front|, from, |front|);
    assert front[from - 1] == 0 && h[from - 1] == h[..|front|][from - 1];
    assert front[0..PACKET_HEADER] == [SOH, 0, 0xFF] && front[PACKET_HEADER..PACKET_HEADER + |name|] == name
        && front[from..] == field;
  }

  /** Every byte of a header whose name and size field leave room for a NUL behind each. */
  lemma HeaderIs(name: seq<byte>, field: seq<byte>)
    requires |name| + |field| + 2 <= 128
    ensures var (h, k) := (HeaderBytes(name, field), 4 + |name|);
            && |h| == 131 && h[0] == 0x01 && h[1] == 0 && h[2] == 0xFF
            && (forall i :: 0 <= i < |name| ==> h[3 + i] == name[i]) && h[3 + |name|] == 0
            && (forall i :: 0 <= i < |field| ==> h[k + i] == field[i])
            && forall i :: k + |field| <= i < 131 ==> h[i] == 0
  {
    var front := [SOH, 0, 0xFF] + name + [0] + field;
    assert forall i :: 0 <= i < 131 ==> HeaderBytes(name, field)[i] == if i < |front| then front[i] else 0;
  }

  /** What the receiver recovers from a well-made header, whatever else its buffers hold. */
  lemma HeaderRoundTrip(name: seq<byte>, n: nat, buf: seq<byte>, stale: seq<byte>, previous: int)
    requires GoodName(name, n) && |buf| == BUFFER_SIZE && |stale| == FILE_SIZE_LENGTH + 1
    requires buf[..PACKET_SIZE + PACKET_HEADER] == HeaderBytes(name, Digits(n))
    ensures buf[PACKET_HEADER] != 0
    ensures ParsedName(buf) == name && ParsedSize(buf, stale, previous) == Signed(n)
  {
    hide Digits, HeaderBytes, Str2Int, CutText;
    DigitCount(n, 10);
    var d := Digits(n);
    HeaderLayout(name, d, buf);
    var v := buf[PACKET_HEADER..PACKET_HEADER + |name|];
    assert forall i :: PACKET_HEADER <= i < PACKET_HEADER + |name| ==> buf[i] == v[i - PACKET_HEADER];
    BeforeIs(buf, PACKET_HEADER, 0, FILE_NAME_LENGTH, |name|);
    FieldParsed(buf, PACKET_HEADER + |name| + 1, n, stale);
  }

  lemma FieldParsed(buf: seq<byte>, from: nat, n: nat, stale: seq<byte>)
    requires n < TWO32 && |Digits(n)| <= 10 && from + FILE_SIZE_LENGTH < |buf| && |stale| == FILE_SIZE_LENGTH + 1
    requires buf[from..from + |Digits(n)|] == Digits(n) && buf[from + |Digits(n)|] == 0
    ensures Str2Int(CutText(buf, from, 32, stale)) == Some(n)
  {
    hide Digits, Str2Int;
    var d := Digits(n);
    var v := buf[from..from + |d|];
    assert forall i :: from <= i < from + |d| ==> buf[i] == v[i - from];
    var k := Before(buf, from, 32, FILE_SIZE_LENGTH);
    assert k > |d|;
    var s := CutText(buf, from, 32, stale);
    assert s[..|d|] == d && s[|d|] == 0;
    PrintParse(s, n);
  }

  lemma FieldIsDigits(n: nat, stack: seq<byte>)
    requires n < TWO32 && GoodStack(stack) && |Digits(n)| <= 10
    ensures CString(DigitBuffer(n, stack)) == Digits(n) + CString(stack[|Digits(n)|..])
    ensures stack[|Digits(n)|] == 0 ==> CString(DigitBuffer(n, stack)) == Digits(n)
  {
    var d := Digits(n);
    CStringPrefix(d, stack[|d|..]);
    if stack[|d|] == 0 { CStringIs(d, stack[|d|..]); }
  }

  /** The digit buffer has no terminator of its own: the header is well made exactly when the
      stack byte after the digits happens to be 0. */
  lemma HeaderWellMadeIff(name: seq<byte>, n: nat, stack: seq<byte>)
    requires GoodName(name, n) && GoodStack(stack) && |Digits(n)| <= 10
    ensures HeaderBytes(name, CString(DigitBuffer(n, stack))) == HeaderBytes(name, Digits(n)) <==>
              stack[|Digits(n)|] == 0
  {
    var d := Digits(n);
    CStringPrefix(d, stack[|d|..]);
    var field := CString(DigitBuffer(n, stack));
    var at := PACKET_HEADER + |name| + 1 + |d|;
    assert HeaderBytes(name, d)[at] == 0;
    if stack[|d|] == 0 {
      CStringIs(d, stack[|d|..]);
    } else {
      assert field == d + CString(stack[|d|..]);
      assert HeaderBytes(name, field)[at] == field[|d|] == stack[|d|];
    }
  }
}
