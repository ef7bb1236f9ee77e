/** What `findCommandPara` finds: the options a command line was written from. */
module OptionLaws {
  import opened Bytes
  import opened Menu

  /** -1 is returned exactly when no "-NAME" stands anywhere in the line. */
  lemma {:induction false} MissingFrom(cmd: seq<byte>, name: seq<byte>, i: nat)
    requires i <= |cmd|
    ensures FirstOption(cmd, name, i) == -1 <==>
              forall k :: i <= k < |cmd| && 0 !in cmd[i..k] ==> !OptionAt(cmd, name, k)
    decreases |cmd| - i
  {
    if i < |cmd| {
      assert forall k :: i < k <= |cmd| ==> cmd[i..k][0] == cmd[i];
      if cmd[i] == 0 {
        assert !OptionAt(cmd, name, i);
      } else if OptionAt(cmd, name, i) {
        assert cmd[i..i] == [];
      } else {
        MissingFrom(cmd, name, i + 1);
        assert forall k :: i < k <= |cmd| ==> cmd[i..k] == [cmd[i]] + cmd[i + 1..k];
      }
    }
  }

  lemma MissingIff(cmd: seq<byte>, name: seq<byte>, limit: nat)
    ensures Parse(cmd, name, limit) == Missing <==>
              forall k :: 0 <= k < |cmd| && 0 !in cmd[..k] ==> !OptionAt(cmd, name, k)
  {
    MissingFrom(cmd, name, 0);
    assert forall k :: 0 <= k < |cmd| ==> cmd[..k] == cmd[0..k];
  }

  // ---- no two names match in one place ----

  /** No blank, dash or NUL. */
  ghost predicate Plain(s: seq<byte>) { forall k :: 0 <= k < |s| ==> !Stops(s[k]) }

  lemma NameIsPlain(cmd: seq<byte>, a: seq<byte>, i: nat)
    requires Plain(a) && OptionAt(cmd, a, i)
    ensures forall k :: i < k <= i + |a| ==> !Stops(cmd[k])
  {
    forall k | i < k <= i + |a| ensures !Stops(cmd[k]) {
      assert cmd[i + 1 + (k - i - 1)] == Upper(a[k - i - 1]);
    }
  }

  lemma OneName(cmd: seq<byte>, a: seq<byte>, b: seq<byte>, i: nat)
    requires Plain(a) && Plain(b) && OptionAt(cmd, a, i) && OptionAt(cmd, b, i)
    ensures UpperAll(a) == UpperAll(b)
  {
    NameIsPlain(cmd, a, i);
    NameIsPlain(cmd, b, i);
    assert |a| == |b|;
  }

  // ---- the round trip ----

  datatype Setting = Setting(name: seq<byte>, value: seq<byte>)

  ghost predicate Writable(o: Setting) { Plain(o.name) && Plain(o.value) && UpperAll(o.name) == o.name }

  function Piece(o: Setting): seq<byte> {
    [SPACE, DASH] + o.name + (if o.value == [] then [] else [SPACE] + o.value)
  }

  function Written(os: seq<Setting>): seq<byte> {
    if os == [] then [] else Piece(os[0]) + Written(os[1..])
  }

  /** The place of the dash of the first option named `t`. */
  function Where(os: seq<Setting>, t: seq<byte>): (w: int)
    ensures w >= -1
  {
    if os == [] then -1
    else if os[0].name == t then 1
    else var w := Where(os[1..], t); if w < 0 then -1 else |Piece(os[0])| + w
  }

  lemma AtConcat(mem: seq<byte>, p: nat, a: seq<byte>, b: seq<byte>)
    ensures At(mem, p, a + b) <==> At(mem, p, a) && At(mem, p + |a|, b)
  {
    if At(mem, p, a + b) {
      assert forall k :: 0 <= k < |a| ==> (a + b)[k] == a[k];
      forall k | 0 <= k < |b| ensures mem[p + |a| + k] == b[k] {
        assert (a + b)[|a| + k] == b[k] && mem[p + (|a| + k)] == (a + b)[|a| + k];
      }
    }
  }

  /** An option stands at `p`, and a blank or the end of the line after it. */
  ghost predicate PieceAt(cmd: seq<byte>, p: nat, o: Setting) {
    && p + |Piece(o)| < |cmd| && cmd[p + |Piece(o)|] in {SPACE, 0}
    && cmd[p] == SPACE && cmd[p + 1] == DASH && At(cmd, p + 2, o.name)
    && (o.value != [] ==> cmd[p + 2 + |o.name|] == SPACE && At(cmd, p + 3 + |o.name|, o.value))
  }

  lemma RestCut(cmd: seq<byte>, p: nat, os: seq<Setting>)
    requires At(cmd, p, Written(os) + [0])
    ensures p < |cmd| && cmd[p] in {SPACE, 0}
  {
    var t := Written(os) + [0];
    assert cmd[p + 0] == t[0];
    if os != [] { assert t[0] == Piece(os[0])[0]; }
  }

  lemma PieceCut(cmd: seq<byte>, p: nat, o: Setting)
    requires At(cmd, p, Piece(o)) && p + |Piece(o)| < |cmd| && cmd[p + |Piece(o)|] in {SPACE, 0}
    ensures PieceAt(cmd, p, o)
  {
    var tail := if o.value == [] then [] else [SPACE] + o.value;
    AtConcat(cmd, p, [SPACE, DASH] + o.name, tail);
    AtConcat(cmd, p, [SPACE, DASH], o.name);
    assert cmd[p + 0] == [SPACE, DASH][0] && cmd[p + 1] == [SPACE, DASH][1];
    if o.value != [] {
      AtConcat(cmd, p + 2 + |o.name|, [SPACE], o.value);
      assert cmd[p + 2 + |o.name| + 0] == [SPACE][0];
    }
  }

  lemma Cuts(cmd: seq<byte>, p: nat, os: seq<Setting>)
    requires os != [] && At(cmd, p, Written(os) + [0])
    ensures PieceAt(cmd, p, os[0]) && At(cmd, p + |Piece(os[0])|, Written(os[1..]) + [0])
  {
    hide At, PieceAt, Piece;
    var o, rest := os[0], Written(os[1..]);
    assert Written(os) + [0] == Piece(o) + (rest + [0]);
    AtConcat(cmd, p, Piece(o), rest + [0]);
    RestCut(cmd, p + |Piece(o)|, os[1..]);
    PieceCut(cmd, p, o);
  }

  lemma PieceMatches(cmd: seq<byte>, p: nat, o: Setting, name: seq<byte>)
    requires PieceAt(cmd, p, o) && Writable(o) && Plain(name)
    ensures OptionAt(cmd, name, p + 1) <==> UpperAll(name) == o.name
  {
    assert OptionAt(cmd, o.name, p + 1);
    if OptionAt(cmd, name, p + 1) { OneName(cmd, name, o.name, p + 1); }
  }

  lemma {:induction false} Skips(cmd: seq<byte>, name: seq<byte>, i: nat, j: nat)
    requires i <= j <= |cmd| && forall k :: i <= k < j ==> cmd[k] != 0 && cmd[k] != DASH
    ensures FirstOption(cmd, name, i) == FirstOption(cmd, name, j)
    decreases j - i
  {
    if i < j { Skips(cmd, name, i + 1, j); }
  }

  lemma PieceSkipped(cmd: seq<byte>, p: nat, o: Setting, name: seq<byte>)
    requires PieceAt(cmd, p, o) && Writable(o) && Plain(name)
    ensures FirstOption(cmd, name, p) == if UpperAll(name) == o.name
              then p + 1 else FirstOption(cmd, name, p + |Piece(o)|)
  {
    PieceMatches(cmd, p, o, name);
    var q := p + |Piece(o)|;
    forall k | p + 2 <= k < q ensures cmd[k] != 0 && cmd[k] != DASH {
      if k < p + 2 + |o.name| {
        assert cmd[p + 2 + (k - p - 2)] == o.name[k - p - 2];
      } else if k > p + 2 + |o.name| {
        assert cmd[p + 3 + |o.name| + (k - p - 3 - |o.name|)] == o.value[k - p - 3 - |o.name|];
      }
    }
    Skips(cmd, name, p + 2, q);
  }

  lemma {:induction false} FoundWhere(cmd: seq<byte>, p: nat, os: seq<Setting>, name: seq<byte>)
    requires At(cmd, p, Written(os) + [0]) && Plain(name) && forall o :: o in os ==> Writable(o)
    ensures FirstOption(cmd, name, p) == var w := Where(os, UpperAll(name)); if w < 0 then -1 else p + w
    decreases |os|
  {
    if os == [] {
      assert cmd[p + 0] == (Written(os) + [0])[0];
    } else {
      Cuts(cmd, p, os);
      PieceSkipped(cmd, p, os[0], name);
      FoundWhere(cmd, p + |Piece(os[0])|, os[1..], name);
    }
  }

  lemma {:induction false} WordIs(mem: seq<byte>, k: nat, w: seq<byte>)
    requires At(mem, k, w) && Plain(w) && k + |w| < |mem| && Stops(mem[k + |w|])
    ensures Word(mem, k) == w
    decreases |w|
  {
    if w != [] {
      assert mem[k + 0] == w[0];
      forall x | 0 <= x < |w| - 1 ensures mem[k + 1 + x] == w[1..][x] {
        assert mem[k + (x + 1)] == w[x + 1];
      }
      WordIs(mem, k + 1, w[1..]);
    }
  }

  /** The text after a written option: its value, or, when it has none, whatever word begins
      right after it. */
  lemma ValueFound(cmd: seq<byte>, p: nat, o: Setting, name: seq<byte>)
    requires PieceAt(cmd, p, o) && Writable(o) && |name| == |o.name|
    requires o.value == [] ==> p + |Piece(o)| + 1 < |cmd| && cmd[p + |Piece(o)| + 1] in {DASH, 0}
    ensures p + |name| + 3 <= |cmd| && Word(cmd, BodyStart(cmd, name, p + 1)) == o.value
  {
    hide At, Plain, Word, PastBlanks;
    if o.value == [] { NoValue(cmd, p + 3 + |o.name|); } else { ValueStands(cmd, p + 3 + |o.name|, o.value); }
  }

  lemma NoValue(cmd: seq<byte>, k: nat)
    requires k < |cmd| && cmd[k] in {DASH, 0}
    ensures Word(cmd, PastBlanks(cmd, k)) == []
  {}

  lemma ValueStands(cmd: seq<byte>, k: nat, v: seq<byte>)
    requires v != [] && At(cmd, k, v) && Plain(v) && k + |v| < |cmd| && Stops(cmd[k + |v|])
    ensures Word(cmd, PastBlanks(cmd, k)) == v
  {
    assert cmd[k + 0] == v[0];
    WordIs(cmd, k, v);
  }

  lemma FirstValueFound(cmd: seq<byte>, p: nat, os: seq<Setting>, name: seq<byte>)
    requires At(cmd, p, Written(os) + [0]) && os != [] && Writable(os[0]) && |name| == |os[0].name|
    requires os[0].value == [] && |os| == 1 ==> p + |Written(os)| + 1 < |cmd| && cmd[p + |Written(os)| + 1] == 0
    ensures p + |name| + 3 <= |cmd| && Word(cmd, BodyStart(cmd, name, p + 1)) == os[0].value
  {
    hide At, Word, BodyStart, Writable;
    Cuts(cmd, p, os);
    if |os| > 1 { Cuts(cmd, p + |Piece(os[0])|, os[1..]); }
    ValueFound(cmd, p, os[0], name);
  }

  /** Every option of a line written from a command word and distinct options is found, with its
      value; no name is taken for another, one that begins like it included. A last option
      without a value needs a NUL after the one that ends the line. */
  lemma {:induction false} RoundTripFrom(cmd: seq<byte>, p: nat, os: seq<Setting>, m: nat, name: seq<byte>)
    requires At(cmd, p, Written(os) + [0]) && m < |os| && |name| == |os[m].name|
    requires forall o :: o in os ==> Writable(o)
    requires forall a, b :: 0 <= a < b < |os| ==> os[a].name != os[b].name
    requires os[m].value == [] && m == |os| - 1 ==> p + |Written(os)| + 1 < |cmd| && cmd[p + |Written(os)| + 1] == 0
    ensures var w := Where(os, os[m].name);
            w >= 1 && p + w + |name| + 2 <= |cmd| && Word(cmd, BodyStart(cmd, name, p + w)) == os[m].value
    decreases |os|
  {
    hide At, Word, BodyStart, Writable, PieceAt, Piece;
    if m == 0 {
      FirstValueFound(cmd, p, os, name);
    } else {
      Cuts(cmd, p, os);
      assert os[0].name != os[m].name && os[1..][m - 1] == os[m];
      RoundTripFrom(cmd, p + |Piece(os[0])|, os[1..], m - 1, name);
    }
  }

  ghost predicate WrittenLine(cmd: seq<byte>, verb: seq<byte>, os: seq<Setting>) {
    && At(cmd, 0, verb + (Written(os) + [0])) && (forall k :: 0 <= k < |verb| ==> verb[k] != 0 && verb[k] != DASH)
    && (forall o :: o in os ==> Writable(o))
    && (forall a, b :: 0 <= a < b < |os| ==> os[a].name != os[b].name)
  }

  lemma PlainUpper(name: seq<byte>)
    requires Plain(UpperAll(name))
    ensures Plain(name)
  {
    forall k | 0 <= k < |name| ensures !Stops(name[k]) {
      assert !Stops(UpperAll(name)[k]);
    }
  }

  lemma VerbSkipped(cmd: seq<byte>, verb: seq<byte>, os: seq<Setting>, name: seq<byte>)
    requires WrittenLine(cmd, verb, os)
    ensures At(cmd, |verb|, Written(os) + [0]) && FirstOption(cmd, name, 0) == FirstOption(cmd, name, |verb|)
  {
    AtConcat(cmd, 0, verb, Written(os) + [0]);
    forall k | 0 <= k < |verb| ensures cmd[k] == verb[k] { assert cmd[0 + k] == verb[k]; }
    Skips(cmd, name, 0, |verb|);
  }

  lemma RoundTrip(cmd: seq<byte>, verb: seq<byte>, os: seq<Setting>, m: nat, name: seq<byte>, limit: nat)
    requires WrittenLine(cmd, verb, os) && m < |os| && UpperAll(name) == os[m].name
    requires os[m].value == [] && m == |os| - 1 ==>
               |verb| + |Written(os)| + 1 < |cmd| && cmd[|verb| + |Written(os)| + 1] == 0
    ensures Parse(cmd, name, limit) == Found(Cut(os[m].value, limit))
  {
    hide Parse;
    VerbSkipped(cmd, verb, os, name);
    assert os[m] in os;
    PlainUpper(name);
    FoundWhere(cmd, |verb|, os, name);
    RoundTripFrom(cmd, |verb|, os, m, name);
    ParseIs(cmd, name, limit);
  }

  lemma ParseIs(cmd: seq<byte>, name: seq<byte>, limit: nat)
    ensures var i := FirstOption(cmd, name, 0);
            && (i < 0 ==> Parse(cmd, name, limit) == Missing)
            && (i >= 0 && i + |name| + 2 <= |cmd|
                ==> Parse(cmd, name, limit) == Found(Cut(Word(cmd, BodyStart(cmd, name, i)), limit)))
  {}

  lemma {:induction false} Nowhere(os: seq<Setting>, t: seq<byte>)
    ensures Where(os, t) < 0 <==> forall o :: o in os ==> o.name != t
    decreases |os|
  {
    if os != [] {
      Nowhere(os[1..], t);
      assert os == [os[0]] + os[1..];
    }
  }

  lemma NotWrittenNotFound(cmd: seq<byte>, verb: seq<byte>, os: seq<Setting>, name: seq<byte>, limit: nat)
    requires WrittenLine(cmd, verb, os) && Plain(name)
    ensures Parse(cmd, name, limit) == Missing <==> forall o :: o in os ==> o.name != UpperAll(name)
  {
    VerbSkipped(cmd, verb, os, name);
    FoundWhere(cmd, |verb|, os, name);
    Nowhere(os, UpperAll(name));
  }

  // ---- an option at the end of the line ----

  /** The line alone: its text, and nothing but NULs after it. */
  ghost predicate SameLine(a: seq<byte>, b: seq<byte>, end: nat) {
    end < |a| && end < |b| && a[..end + 1] == b[..end + 1] && a[end] == 0 && 0 !in a[..end]
  }

  lemma OptionInLine(a: seq<byte>, b: seq<byte>, end: nat, name: seq<byte>, i: nat)
    requires SameLine(a, b, end) && Name(name) && i <= end
    ensures OptionAt(a, name, i) <==> OptionAt(b, name, i)
    ensures OptionAt(a, name, i) ==> i + 1 + |name| <= end && (a[i + 1 + |name|] == SPACE <==> i + 1 + |name| < end)
  {
    assert forall k :: 0 <= k < end ==> a[..end][k] == a[k] && a[k] in a[..end];
    assert forall k :: 0 <= k <= end ==> a[k] == a[..end + 1][k] && b[k] == b[..end + 1][k];
    if OptionAt(a, name, i) { NoNulInside(a, name, i); }
    if OptionAt(b, name, i) { NoNulInside(b, name, i); }
  }

  lemma {:induction false} FirstInLine(a: seq<byte>, b: seq<byte>, end: nat, name: seq<byte>, i: nat)
    requires SameLine(a, b, end) && Name(name) && i <= end
    ensures FirstOption(a, name, i) == FirstOption(b, name, i) <= end
    decreases end - i
  {
    assert a[i] == a[..end + 1][i] == b[..end + 1][i] == b[i];
    OptionInLine(a, b, end, name, i);
    if i < end {
      assert a[i] == a[..end][i] && a[i] in a[..end];
      FirstInLine(a, b, end, name, i + 1);
    }
  }

  lemma {:induction false} BodyInLine(a: seq<byte>, b: seq<byte>, end: nat, k: nat)
    requires SameLine(a, b, end) && k <= end
    ensures PastBlanks(a, k) == PastBlanks(b, k) <= end && Word(a, k) == Word(b, k)
    decreases end - k
  {
    assert a[k] == a[..end + 1][k] == b[..end + 1][k] == b[k];
    if k < end { BodyInLine(a, b, end, k + 1); }
  }

  ghost predicate StopsBehind(cmd: seq<byte>, end: nat)
    requires end + 1 < |cmd|
  {
    var k := PastBlanks(cmd, end + 1);
    k == |cmd| || Stops(cmd[k])
  }

  lemma CutToNothing(w: seq<byte>, limit: nat)
    ensures Cut(w, limit) == [] <==> w == []
  { }

  /** The value found is the one the line alone gives - the line followed by NULs only - exactly
      when the option found is followed by a blank, or the bytes after the line begin, after
      blanks, with a NUL or a dash. An option that ends its line takes its value from what lies
      behind the line in the buffer. */
  lemma ValueInLineIff(cmd: seq<byte>, end: nat, name: seq<byte>, limit: nat)
    requires Name(name) && end + 1 < |cmd| && cmd[|cmd| - 1] == 0 && cmd[end] == 0 && 0 !in cmd[..end]
    ensures var alone := cmd[..end + 1] + [0];
            var i := FirstOption(cmd, name, 0);
            && Parse(alone, name, limit).Missing? == Parse(cmd, name, limit).Missing?
            && (i >= 0 ==>
                  (Parse(cmd, name, limit) == Parse(alone, name, limit) <==>
                   cmd[i + 1 + |name|] == SPACE || StopsBehind(cmd, end)))
  {
    hide FirstOption, OptionAt, PastBlanks, Word, Parse, SameLine, StopsBehind, Name;
    Alone(cmd, end);
    ParseIs(cmd, name, limit);
    ParseIs(cmd[..end + 1] + [0], name, limit);
    var alone := cmd[..end + 1] + [0];
    FirstInLine(cmd, alone, end, name, 0);
    var i := FirstOption(cmd, name, 0);
    if i >= 0 {
      OptionInLine(cmd, alone, end, name, i);
      if i + 1 + |name| < end {
        InsideLine(cmd, alone, end, i + 2 + |name|);
      } else {
        BehindLine(cmd, end);
        CutToNothing(Word(cmd, PastBlanks(cmd, end + 1)), limit);
      }
    }
  }

  lemma Alone(cmd: seq<byte>, end: nat)
    requires end + 1 < |cmd| && cmd[end] == 0 && 0 !in cmd[..end]
    ensures SameLine(cmd, cmd[..end + 1] + [0], end)
  {
    var alone := cmd[..end + 1] + [0];
    assert alone[..end + 1] == cmd[..end + 1];
  }

  /** A command "x -S" typed into a buffer that still held "0 ab 12": "-S" gets the value "12", or "1"
      where only one character is asked for. */
  lemma StaleValue(limit: nat)
    ensures var cmd := [0x78, SPACE, DASH, 0x53, 0, 0x31, 0x32, 0];
            && Parse(cmd, [0x73], limit) == Found(if limit == 1 then [0x31] else [0x31, 0x32])
            && Parse(cmd[..5] + [0], [0x73], limit) == Found([])
  {
    var cmd := [0x78, SPACE, DASH, 0x53, 0, 0x31, 0x32, 0];
    assert [0x31, 0x32][..1] == [0x31];
    assert UpperAll([0x73]) == [0x53];
    assert OptionAt(cmd, [0x73], 2);
    Skips(cmd, [0x73], 0, 2);
    assert At(cmd, 5, [0x31, 0x32]);
    WordIs(cmd, 5, [0x31, 0x32]);
    Alone(cmd, 4);
    FirstInLine(cmd, cmd[..5] + [0], 4, [0x73], 0);
    BehindLine(cmd, 4);
  }

  lemma InsideLine(a: seq<byte>, b: seq<byte>, end: nat, k: nat)
    requires SameLine(a, b, end) && k <= end
    ensures Word(a, PastBlanks(a, k)) == Word(b, PastBlanks(b, k))
  {
    BodyInLine(a, b, end, k);
    BodyInLine(a, b, end, PastBlanks(a, k));
  }

  lemma BehindLine(cmd: seq<byte>, end: nat)
    requires end + 1 < |cmd| && cmd[|cmd| - 1] == 0
    ensures var alone := cmd[..end + 1] + [0]; Word(alone, PastBlanks(alone, end + 1)) == []
    ensures var k := PastBlanks(cmd, end + 1); (Word(cmd, k) == [] <==> StopsBehind(cmd, end))
  {
    assert (cmd[..end + 1] + [0])[end + 1] == 0;
    LastCell(cmd, end + 1);
  }

  lemma LastCell(mem: seq<byte>, k: nat)
    requires k < |mem| && mem[|mem| - 1] == 0
    ensures PastBlanks(mem, k) < |mem|
  {}

  // ---- in letters ----

  /** A letter as it is looked for: small letters as capitals, anything else as it is. */
  function Capital(c: byte): byte { if 0x61 <= c <= 0x7A then c - 0x20 else c }

  /** Where an option of a name stands: a dash, the name in capitals, and a blank or the end of the line. */
  lemma OptionInCapitals(cmd: seq<byte>, name: seq<byte>, i: nat)
    ensures OptionAt(cmd, name, i) <==>
              && i + 1 + |name| < |cmd| && cmd[i] == 0x2D
              && (forall k :: 0 <= k < |name| ==> cmd[i + 1 + k] == Capital(name[k]))
              && (cmd[i + 1 + |name|] == 0x20 || cmd[i + 1 + |name|] == 0)
  {
    var u := UpperAll(name);
    if OptionAt(cmd, name, i) {
      forall k | 0 <= k < |name| ensures cmd[i + 1 + k] == Capital(name[k]) { assert cmd[i + 1 + k] == u[k]; }
    }
  }

  /** Two spellings of one name: letter by letter the same, but for capitals. */
  ghost predicate SameLetters(a: seq<byte>, b: seq<byte>) {
    |a| == |b| && forall k :: 0 <= k < |a| ==> Capital(a[k]) == Capital(b[k])
  }

  lemma {:induction false} FirstCaseBlind(cmd: seq<byte>, a: seq<byte>, b: seq<byte>, i: nat)
    requires SameLetters(a, b)
    ensures FirstOption(cmd, a, i) == FirstOption(cmd, b, i)
    decreases |cmd| - i
  {
    hide OptionAt, Capital;
    if i < |cmd| {
      OptionInCapitals(cmd, a, i);
      OptionInCapitals(cmd, b, i);
      FirstCaseBlind(cmd, a, b, i + 1);
    }
  }

  /** Asking for "start" or for "START" makes no difference, whatever the line. */
  lemma CaseBlind(cmd: seq<byte>, a: seq<byte>, b: seq<byte>, limit: nat)
    requires SameLetters(a, b)
    ensures Parse(cmd, a, limit) == Parse(cmd, b, limit)
    ensures RunsOff(cmd, a, limit) <==> RunsOff(cmd, b, limit)
  {
    hide FirstOption;
    FirstCaseBlind(cmd, a, b, 0);
    ParseAt(cmd, a, limit);
    ParseAt(cmd, b, limit);
  }

  // ---- the example of the help text ----

  /** "4 -DEV 0 -START 0X400 -END 0X800", as the line stands once it is in capitals. */
  function HelpLine(): seq<byte> {
    [0x34] + [0x20, 0x2D, 0x44, 0x45, 0x56, 0x20, 0x30] +
    [0x20, 0x2D, 0x53, 0x54, 0x41, 0x52, 0x54, 0x20, 0x30, 0x58, 0x34, 0x30, 0x30] +
    [0x20, 0x2D, 0x45, 0x4E, 0x44, 0x20, 0x30, 0x58, 0x38, 0x30, 0x30] + [0]
  }

  function HelpOptions(): seq<Setting> {
    [Setting([0x44, 0x45, 0x56], [0x30]),
     Setting([0x53, 0x54, 0x41, 0x52, 0x54], [0x30, 0x58, 0x34, 0x30, 0x30]),
     Setting([0x45, 0x4E, 0x44], [0x30, 0x58, 0x38, 0x30, 0x30])]
  }

  lemma HelpLineIsWritten()
    ensures HelpLine() == [0x34] + (Written(HelpOptions()) + [0])
  {
    var os := HelpOptions();
    assert Written(os) == Piece(os[0]) + Written(os[1..]);
    assert Written(os[1..]) == Piece(os[1]) + Written(os[1..][1..]) && os[1..][1..] == os[2..];
    assert Written(os[2..]) == Piece(os[2]) + Written(os[2..][1..]) && os[2..][1..] == [];
    assert Piece(os[0]) == [0x20, 0x2D, 0x44, 0x45, 0x56, 0x20, 0x30];
    assert Piece(os[1]) == [0x20, 0x2D, 0x53, 0x54, 0x41, 0x52, 0x54, 0x20, 0x30, 0x58, 0x34, 0x30, 0x30];
    assert Piece(os[2]) == [0x20, 0x2D, 0x45, 0x4E, 0x44, 0x20, 0x30, 0x58, 0x38, 0x30, 0x30];
  }

  lemma HelpOptionsWritable()
    ensures forall o :: o in HelpOptions() ==> Writable(o)
    ensures forall a, b :: 0 <= a < b < |HelpOptions()| ==> HelpOptions()[a].name != HelpOptions()[b].name
  {
    var os := HelpOptions();
    assert UpperAll(os[0].name) == os[0].name && UpperAll(os[1].name) == os[1].name;
    assert UpperAll(os[2].name) == os[2].name;
  }

  /** What the command finds in it, asking in small letters and with the limits it uses. */
  lemma HelpLineParsed(cmd: seq<byte>)
    requires At(cmd, 0, HelpLine())
    ensures Parse(cmd, [0x64, 0x65, 0x76], 1) == Found([0x30])
    ensures Parse(cmd, [0x73, 0x74, 0x61, 0x72, 0x74], 10) == Found([0x30, 0x58, 0x34, 0x30, 0x30])
    ensures Parse(cmd, [0x65, 0x6E, 0x64], 10) == Found([0x30, 0x58, 0x38, 0x30, 0x30])
    ensures Parse(cmd, [0x65], 1) == Missing && Parse(cmd, [0x72], 1) == Missing
  {
    hide At, Parse, Written;
    HelpLineIsWritten();
    HelpOptionsWritable();
    var os := HelpOptions();
    assert UpperAll([0x64, 0x65, 0x76]) == os[0].name && UpperAll([0x65, 0x6E, 0x64]) == os[2].name;
    assert UpperAll([0x73, 0x74, 0x61, 0x72, 0x74]) == os[1].name;
    RoundTrip(cmd, [0x34], os, 0, [0x64, 0x65, 0x76], 1);
    RoundTrip(cmd, [0x34], os, 1, [0x73, 0x74, 0x61, 0x72, 0x74], 10);
    RoundTrip(cmd, [0x34], os, 2, [0x65, 0x6E, 0x64], 10);
    assert UpperAll([0x65]) == [0x45] && UpperAll([0x72]) == [0x52];
    NotWrittenNotFound(cmd, [0x34], os, [0x65], 1);
    NotWrittenNotFound(cmd, [0x34], os, [0x72], 1);
  }
}
