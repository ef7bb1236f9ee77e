/** The line editor of the command line: `getline`. */
module Getline {
  import opened Bytes

  const CNTLQ: byte := 0x11
  const CNTLS: byte := 0x13
  const DEL: byte := 0x7F
  const BACKSPACE: byte := 0x08
  const CR: byte := 0x0D
  const LF: byte := 0x0A
  const SPACE: byte := 0x20

  function Received(c: byte): byte { if c == CR then LF else c }

  predicate Erases(c: byte) { c == BACKSPACE || c == DEL }

  predicate Stores(c: byte) { !Erases(c) && c != CNTLQ && c != CNTLS }

  /** The text after the keystrokes `s`: a character is pushed, a backspace pops one if there
      is one, control-S and control-Q do nothing. */
  function Text(s: seq<byte>): (t: seq<byte>)
    ensures |t| <= |s| && forall i :: 0 <= i < |t| ==> !Erases(t[i])
  {
    if s == [] then []
    else
      var t, c := Text(s[..|s| - 1]), s[|s| - 1];
      if Erases(c) then (if t == [] then [] else t[..|t| - 1]) else if Stores(c) then t + [Received(c)] else t
  }

  /** The line is complete after `k` keystrokes, for a buffer of `n` cells. */
  ghost predicate Complete(n: nat, input: seq<byte>, k: nat) {
    1 <= k <= |input| && (Received(input[k - 1]) == LF || |Text(input[..k])| >= n - 1)
  }

  ghost predicate FirstComplete(n: nat, input: seq<byte>, k: nat) {
    Complete(n, input, k) && forall j :: 0 <= j < k ==> !Complete(n, input, j)
  }

  /** A terminal: cells, and a cursor that backspace moves left. */
  datatype Screen = Screen(cells: seq<byte>, cursor: nat)

  function Shown(echo: seq<byte>): (s: Screen)
    ensures s.cursor <= |s.cells|
  {
    if echo == [] then Screen([], 0)
    else
      var s, c := Shown(echo[..|echo| - 1]), echo[|echo| - 1];
      if c == BACKSPACE then Screen(s.cells, if s.cursor == 0 then 0 else s.cursor - 1)
      else if s.cursor < |s.cells| then Screen(s.cells[s.cursor := c], s.cursor + 1)
      else Screen(s.cells + [c], s.cursor + 1)
  }

  /** The screen shows exactly `text` before the cursor, and blanks after it. */
  ghost predicate Shows(echo: seq<byte>, text: seq<byte>) {
    var s := Shown(echo);
    s.cursor == |text| && s.cells[..s.cursor] == text && forall i :: s.cursor <= i < |s.cells| ==> s.cells[i] == 0x20
  }

  lemma ShownStep(echo: seq<byte>, c: byte)
    ensures Shown(echo + [c]) ==
            var s := Shown(echo);
            if c == BACKSPACE then Screen(s.cells, if s.cursor == 0 then 0 else s.cursor - 1)
            else if s.cursor < |s.cells| then Screen(s.cells[s.cursor := c], s.cursor + 1)
            else Screen(s.cells + [c], s.cursor + 1)
  {
    assert (echo + [c])[..|echo|] == echo;
  }

  lemma EchoStored(echo: seq<byte>, text: seq<byte>, c: byte)
    requires Shows(echo, text) && c != BACKSPACE
    ensures Shows(echo + [c], text + [c])
  {
    hide Shown;
    ShownStep(echo, c);
  }

  lemma EchoErased(echo: seq<byte>, text: seq<byte>)
    requires Shows(echo, text) && text != []
    ensures Shows(echo + [BACKSPACE] + [SPACE] + [BACKSPACE], text[..|text| - 1])
  {
    hide Shown;
    ShownStep(echo, BACKSPACE);
    ShownStep(echo + [BACKSPACE], SPACE);
    ShownStep(echo + [BACKSPACE] + [SPACE], BACKSPACE);
    var before, after := Shown(echo), Shown(echo + [BACKSPACE] + [SPACE] + [BACKSPACE]);
    assert after.cursor == |text| - 1 && after.cells == before.cells[|text| - 1 := SPACE];
    assert after.cells[..after.cursor] == before.cells[..before.cursor][..|text| - 1];
  }

  lemma NothingShown()
    ensures Shows([], []) && Text([]) == []
  {}

  lemma ReceivedIs(k: byte)
    ensures var c := Received(k);
            && Erases(k) == (c == BACKSPACE || c == DEL)
            && Stores(k) == (c != BACKSPACE && c != DEL && c != CNTLQ && c != CNTLS)
  {}

  lemma TextStep(s: seq<byte>, k: nat)
    requires k < |s|
    ensures var t, c := Text(s[..k]), s[k];
            Text(s[..k + 1]) == if Erases(c) then (if t == [] then [] else t[..|t| - 1]) else if Stores(c)
                then t + [Received(c)] else t
  {
    assert s[..k + 1][..k] == s[..k];
  }

  lemma CompleteStep(n: nat, input: seq<byte>, k: nat)
    requires k <= |input|
    ensures Complete(n, input, k) <==> k >= 1 && (Received(input[k - 1]) == LF || |Text(input[..k])| >= n - 1)
  {}

  /** The serial console: keystrokes still to come, and what has been echoed. */
  class Console {
    const keys: seq<byte>
    var read: nat
    var echo: seq<byte>

    constructor (keys: seq<byte>)
      ensures this.keys == keys && read == 0 && echo == []
    {
      this.keys, read, echo := keys, 0, [];
    }

    method PutChar(c: byte)
      modifies `echo
      ensures echo == old(echo) + [c]
    {
      echo := echo + [c];
    }
  }

  /** `text` is in the caller's buffer; the cells it cannot reach are as they were. */
  ghost predicate Stored(n: nat, was: seq<byte>, now: seq<byte>, text: seq<byte>) {
    && |now| == |was| == n + 2 && |text| + 1 <= |now| && now[0] == was[0] && now[1..|text| + 1] == text
    && forall c :: n <= c < |now| && c >= 2 ==> now[c] == was[c]
  }

  /** The last character of `text` is replaced by NUL; of an empty text, the byte before the buffer. */
  ghost predicate Ended(n: nat, was: seq<byte>, now: seq<byte>, text: seq<byte>) {
    && |now| == |was| == n + 2 && |text| + 1 <= |now|
    && if text == [] then now[0] == 0 else now[0] == was[0] && now[1..|text| + 1] == text[..|text| - 1] + [0]
  }

  lemma StoredNothing(n: nat, was: seq<byte>)
    requires |was| == n + 2
    ensures Stored(n, was, was, [])
  { }

  lemma StoredPop(n: nat, was: seq<byte>, now: seq<byte>, text: seq<byte>)
    requires Stored(n, was, now, text) && text != []
    ensures Stored(n, was, now, text[..|text| - 1])
  {
    assert now[1..|text|] == now[1..|text| + 1][..|text| - 1];
  }

  lemma StoredPush(n: nat, was: seq<byte>, now: seq<byte>, text: seq<byte>, c: byte)
    requires Stored(n, was, now, text) && (|text| + 1 < n || text == [])
    ensures |text| + 1 < |now| && Stored(n, was, now[|text| + 1 := c], text + [c])
  {
    var next := now[|text| + 1 := c];
    assert next[1..|text| + 2] == now[1..|text| + 1] + [c];
  }

  lemma StoredEnd(n: nat, was: seq<byte>, now: seq<byte>, text: seq<byte>)
    requires Stored(n, was, now, text) && (|text| < n || |text| <= 1)
    ensures |text| < |now|
    ensures Ended(n, was, now[|text| := 0], text)
    ensures forall c :: n <= c < |now| && c >= 2 ==> now[|text| := 0][c] == was[c]
  {
    if text != [] { assert now[|text| := 0][1..|text| + 1] == now[1..|text| + 1][..|text| - 1] + [0]; }
  }

  lemma StoredKeeps(n: nat, was: seq<byte>, now: seq<byte>, text: seq<byte>)
    requires Stored(n, was, now, text)
    ensures |now| == |was| && forall c :: n <= c < |now| && c >= 2 ==> now[c] == was[c]
  { }

  /** `getline` into a buffer of `n` bytes. Cell `x + 1` of `line` is index `x` of the caller's
      buffer: there is a cell before it and one behind, which a buffer too small gets stored to.
      `done` is false when the keystrokes ran out first, where the program would wait for more. */
  method GetLine(console: Console, line: array<byte>, n: nat) returns (done: bool)
    requires line.Length == n + 2 && console.read == 0 && console.echo == []
    modifies console, line
    ensures !done ==> console.read == |console.keys|
    ensures !done ==> forall k :: 0 <= k <= |console.keys| ==> !Complete(n, console.keys, k)
    ensures done ==>
              && FirstComplete(n, console.keys, console.read)
              && var text := Text(console.keys[..console.read]);
                 && Ended(n, old(line[..]), line[..], text)
                 && (n >= 2 ==> 0 < |text| < n)
                 && Shows(console.echo, text)
    ensures forall c :: n <= c < line.Length && c >= 2 ==> line[c] == old(line[c])
  {
    hide Shows, Shown, Text, Complete, Received, Erases, Stores, Stored, Ended;
    ghost var was := line[..];
    StoredNothing(n, was);
    var cnt, c := 0, 0;
    ghost var keys := console.keys;
    ghost var text := [];
    NothingShown();
    CompleteStep(n, keys, 0);
    assert keys[..0] == [];
    while true
      invariant 0 <= console.read <= |keys|
      invariant text == Text(keys[..console.read]) && cnt == |text|
      invariant (cnt < n - 1 || console.read == 0) && cnt + 1 < line.Length
      invariant Stored(n, was, line[..], text)
      invariant forall j :: 0 <= j <= console.read ==> !Complete(n, keys, j)
      invariant Shows(console.echo, text)
      decreases |keys| - console.read
    {
      if console.read == |console.keys| {
        StoredKeeps(n, was, line[..], text);
        return false;
      }
      TextStep(keys, console.read);
      c := Received(console.keys[console.read]);
      ReceivedIs(console.keys[console.read]);
      console.read := console.read + 1;
      CompleteStep(n, keys, console.read);
      if c == BACKSPACE || c == DEL {
        if cnt != 0 {
          EchoErased(console.echo, text);
          StoredPop(n, was, line[..], text);
          cnt := cnt - 1;
          console.PutChar(BACKSPACE);
          console.PutChar(SPACE);
          console.PutChar(BACKSPACE);
        }
      } else if c != CNTLQ && c != CNTLS {
        EchoStored(console.echo, text, c);
        StoredPush(n, was, line[..], text, c);
        line[cnt + 1] := c;
        console.PutChar(c);
        cnt := cnt + 1;
      }
      text := Text(keys[..console.read]);
      if !(cnt < n - 1 && c != LF) { break; }
    }
    StoredEnd(n, was, line[..], text);
    line[cnt] := 0;
    done := true;
  }

  // ---- what the text is ----

  /** Read from the right: an erasing key cancels the nearest character before it that no later
      one has cancelled. */
  function Surviving(s: seq<byte>, pending: nat): (t: seq<byte>) {
    if s == [] then []
    else
      var front, c := s[..|s| - 1], s[|s| - 1];
      if Erases(c) then Surviving(front, pending + 1)
      else if !Stores(c) then Surviving(front, pending)
      else if pending > 0 then Surviving(front, pending - 1)
      else Surviving(front, 0) + [Received(c)]
  }

  function Chopped(t: seq<byte>, k: nat): seq<byte> { if k <= |t| then t[..|t| - k] else [] }

  lemma {:induction false} TextSurvives(s: seq<byte>, pending: nat)
    ensures Surviving(s, pending) == Chopped(Text(s), pending)
    decreases |s|
  {
    if s != [] {
      var front, c := s[..|s| - 1], s[|s| - 1];
      TextSurvives(front, pending + 1);
      TextSurvives(front, pending);
      TextSurvives(front, 0);
      if pending > 0 { TextSurvives(front, pending - 1); }
    }
  }

  /** What is typed, as pushes and pops, is what no later erasing key cancels. */
  lemma TextIsWhatSurvives(s: seq<byte>)
    ensures Text(s) == Surviving(s, 0)
  {
    TextSurvives(s, 0);
  }

  /** The terminator goes to the last cell stored. That is a cell of the buffer exactly when the
      buffer has two cells or the first key is a character. */
  lemma TerminatorInsideIff(n: nat, input: seq<byte>, k: nat)
    requires n >= 1 && FirstComplete(n, input, k)
    ensures |Text(input[..k])| > 0 <==> n >= 2 || Stores(input[0])
  {
    TextStep(input, k - 1);
    if n == 1 {
      assert input[..0] == [];
      TextStep(input, 0);
      assert Complete(n, input, 1);
    }
  }

  /** Any key that stores nothing - backspace, delete, control-Q, control-S - into a buffer of one
      byte: the line is complete, and empty. */
  lemma TerminatorOutside(c: byte)
    requires c in {BACKSPACE, DEL, CNTLQ, CNTLS}
    ensures FirstComplete(1, [c], 1) && Text([c][..1]) == []
  {
    assert [c][..0] == [];
    TextStep([c], 0);
    CompleteStep(1, [c], 1);
  }

  // ---- the keys ----

  /** What each key does to the text: backspace and delete take the last character off, control-Q and
      control-S do nothing, a carriage return is a line feed, and any other key stands for itself. */
  lemma KeyEffect(s: seq<byte>, c: byte)
    ensures Text(s + [c]) ==
              if c == 0x08 || c == 0x7F then Text(s)[..if Text(s) == [] then 0 else |Text(s)| - 1]
              else if c == 0x11 || c == 0x13 then Text(s)
              else Text(s) + [if c == 0x0D then 0x0A else c]
  {
    assert (s + [c])[..|s|] == s && (s + [c])[..|s| + 1] == s + [c];
    TextStep(s + [c], |s|);
    if c == 0x08 || c == 0x7F { assert Text(s)[..0] == []; }
  }

  /** A key that is an ordinary character. */
  predicate Ordinary(c: byte) { c !in {0x08, 0x0A, 0x0D, 0x11, 0x13, 0x7F} }

  lemma {:induction false} OrdinaryText(s: seq<byte>)
    requires forall i :: 0 <= i < |s| ==> Ordinary(s[i])
    ensures Text(s) == s
    decreases |s|
  {
    if s != [] {
      var front, c := s[..|s| - 1], s[|s| - 1];
      OrdinaryText(front);
      KeyEffect(front, c);
      assert s == front + [c];
    }
  }

  /** Enter - a carriage return, or a line feed - ends the line, and not before: the buffer then holds
      the characters typed and a NUL. */
  lemma EnterEnds(n: nat, s: seq<byte>, e: byte)
    requires |s| + 1 < n && (e == 0x0D || e == 0x0A) && forall i :: 0 <= i < |s| ==> Ordinary(s[i])
    ensures FirstComplete(n, s + [e], |s| + 1)
    ensures (s + [e])[..|s| + 1] == s + [e]
    ensures forall was, now :: Ended(n, was, now, Text(s + [e])) ==>
              |now| == |was| == n + 2 && now[0] == was[0] && now[1..|s| + 2] == s + [0]
  {
    hide Text, Complete, Ended;
    var keys := s + [e];
    assert keys[..|s| + 1] == keys;
    OrdinaryText(s);
    KeyEffect(s, e);
    CompleteStep(n, keys, |s| + 1);
    forall j | 0 <= j < |s| + 1 ensures !Complete(n, keys, j) {
      assert keys[..j] == s[..j];
      OrdinaryText(s[..j]);
      CompleteStep(n, keys, j);
    }
    forall was, now | Ended(n, was, now, s + [0x0A])
      ensures |now| == |was| == n + 2 && now[0] == was[0] && now[1..|s| + 2] == s + [0]
    {
      EndedIs(n, was, now, s, 0x0A);
    }
  }

  lemma EndedIs(n: nat, was: seq<byte>, now: seq<byte>, s: seq<byte>, c: byte)
    requires Ended(n, was, now, s + [c])
    ensures |now| == |was| == n + 2 && |s| + 2 <= |now| && now[0] == was[0] && now[1..|s| + 2] == s + [0]
  {
    assert (s + [c])[..|s|] == s;
  }

  /** The limit ends it too: with one cell to spare for the terminator, which replaces the last key. */
  lemma FullEnds(n: nat, s: seq<byte>)
    requires |s| + 1 == n && n >= 2 && forall i :: 0 <= i < |s| ==> Ordinary(s[i])
    ensures FirstComplete(n, s, |s|)
    ensures forall was, now :: Ended(n, was, now, Text(s)) ==> |now| == n + 2 && now[1..n] == s[..n - 2] + [0]
  {
    hide Text, Complete, Ended;
    assert s[..|s|] == s;
    OrdinaryText(s);
    CompleteStep(n, s, |s|);
    forall j | 0 <= j < |s| ensures !Complete(n, s, j) {
      OrdinaryText(s[..j]);
      CompleteStep(n, s, j);
    }
    forall was, now | Ended(n, was, now, s) ensures |now| == n + 2 && now[1..n] == s[..n - 2] + [0] {
      assert s == s[..n - 2] + [s[n - 2]];
      EndedIs(n, was, now, s[..n - 2], s[n - 2]);
    }
  }

  /** The same keystrokes, but for line feeds in the place of carriage returns. */
  ghost predicate SameKeys(s: seq<byte>, t: seq<byte>) {
    |s| == |t| && forall i :: 0 <= i < |s| ==> s[i] == t[i] || (s[i] in {0x0D, 0x0A} && t[i] in {0x0D, 0x0A})
  }

  /** Nothing tells a carriage return from a line feed. */
  lemma {:induction false} ReturnIsFeed(s: seq<byte>, t: seq<byte>)
    requires SameKeys(s, t)
    ensures Text(s) == Text(t)
    decreases |s|
  {
    if s != [] {
      var n := |s| - 1;
      ReturnIsFeed(s[..n], t[..n]);
      KeyEffect(s[..n], s[n]);
      KeyEffect(t[..n], t[n]);
      assert s == s[..n] + [s[n]] && t == t[..n] + [t[n]];
    }
  }

  lemma ReturnCompletesAsFeed(n: nat, s: seq<byte>, t: seq<byte>, k: nat)
    requires SameKeys(s, t)
    ensures Complete(n, s, k) <==> Complete(n, t, k)
  {
    if 1 <= k <= |s| { ReturnIsFeed(s[..k], t[..k]); }
  }
}
