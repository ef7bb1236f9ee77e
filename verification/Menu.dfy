/** The option parser of the command line: `findCommandPara`. */
module Menu {
  import opened Bytes

  const SPACE: byte := 0x20
  const DASH: byte := 0x2D
  const NAME_ROOM := 100

  function Upper(c: byte): byte { if 97 <= c <= 122 then c - 32 else c }

  function UpperAll(s: seq<byte>): (r: seq<byte>)
    ensures |r| == |s| && forall k :: 0 <= k < |s| ==> r[k] == Upper(s[k])
  {
    seq(|s|, k requires 0 <= k < |s| => Upper(s[k]))
  }

  /** A name as the callers give it: a C string that fits the parser's copy. */
  ghost predicate Name(name: seq<byte>) {
    |name| < NAME_ROOM && 0 !in name
  }

  /** `s` stands in `mem` at `p`. */
  ghost predicate At(mem: seq<byte>, p: nat, s: seq<byte>) {
    p + |s| <= |mem| && forall k :: 0 <= k < |s| ==> mem[p + k] == s[k]
  }

  /** "-NAME" followed by a blank or the end of the line stands at `i`. */
  ghost predicate OptionAt(cmd: seq<byte>, name: seq<byte>, i: nat) {
    i < |cmd| && cmd[i] == DASH && At(cmd, i + 1, UpperAll(name)) &&
    i + 1 + |name| < |cmd| && cmd[i + 1 + |name|] in {SPACE, 0}
  }

  /** The first option of that name at or after `i`, before the end of the line; -1 if there is none. */
  ghost function FirstOption(cmd: seq<byte>, name: seq<byte>, i: nat): (r: int)
    ensures r == -1 || i <= r < |cmd|
    ensures r >= 0 ==> OptionAt(cmd, name, r) && forall k :: i <= k <= r ==> cmd[k] != 0
    ensures r >= 0 ==> forall k :: i <= k < r ==> !OptionAt(cmd, name, k)
    decreases |cmd| - i
  {
    if i >= |cmd| || cmd[i] == 0 then -1
    else if OptionAt(cmd, name, i) then i
    else FirstOption(cmd, name, i + 1)
  }

  function PastBlanks(mem: seq<byte>, k: nat): (r: nat)
    requires k <= |mem|
    ensures k <= r <= |mem| && (r < |mem| ==> mem[r] != SPACE) && forall x :: k <= x < r ==> mem[x] == SPACE
    decreases |mem| - k
  {
    if k < |mem| && mem[k] == SPACE then PastBlanks(mem, k + 1) else k
  }

  predicate Stops(c: byte) { c == SPACE || c == 0 || c == DASH }

  /** The word at `k`. */
  function Word(mem: seq<byte>, k: nat): (w: seq<byte>)
    requires k <= |mem|
    ensures k + |w| <= |mem|
    decreases |mem| - k
  {
    if k == |mem| || Stops(mem[k]) then [] else [mem[k]] + Word(mem, k + 1)
  }

  /** The word is what stands in memory up to the next blank, dash or NUL. */
  lemma {:induction false} WordUpToStop(mem: seq<byte>, k: nat)
    requires k <= |mem|
    ensures var w := Word(mem, k);
            && w == mem[k..k + |w|] && (forall x :: 0 <= x < |w| ==> w[x] !in {0x20, 0x2D, 0})
            && (k + |w| < |mem| ==> mem[k + |w|] in {0x20, 0x2D, 0})
    decreases |mem| - k
  {
    if k < |mem| && !Stops(mem[k]) { WordUpToStop(mem, k + 1); }
  }

  /** Where the text after the option at `i` begins. */
  function BodyStart(cmd: seq<byte>, name: seq<byte>, i: nat): nat
    requires i + |name| + 2 <= |cmd|
  {
    PastBlanks(cmd, i + |name| + 2)
  }

  /** At most `limit` bytes of `w`, all of it when there is no limit. */
  function Cut(w: seq<byte>, limit: nat): seq<byte> {
    if limit == 0 || |w| <= limit then w else w[..limit]
  }

  datatype Found = Missing | Found(body: seq<byte>)

  ghost function Parse(cmd: seq<byte>, name: seq<byte>, limit: nat): Found {
    var i := FirstOption(cmd, name, 0);
    if i < 0 then Missing
    else if i + |name| + 2 > |cmd| then Found([])
    else Found(Cut(Word(cmd, BodyStart(cmd, name, i)), limit))
  }

  /** The buffer's last cell is NUL, and it is not the one that ends the option found. */
  ghost predicate Readable(cmd: seq<byte>, name: seq<byte>) {
    && |cmd| > 0 && cmd[|cmd| - 1] == 0
    && (FirstOption(cmd, name, 0) >= 0 ==> FirstOption(cmd, name, 0) + |name| + 2 < |cmd|)
  }

  /** The search for the value comes to the end of the memory given: what the program does next
      depends on what lies behind. */
  ghost predicate RunsOff(cmd: seq<byte>, name: seq<byte>, limit: nat) {
    var i := FirstOption(cmd, name, 0);
    i >= 0 && i + |name| + 2 <= |cmd| && OffEnd(cmd, i + |name| + 2, limit)
  }

  ghost predicate OffEnd(mem: seq<byte>, from: nat, limit: nat)
    requires from <= |mem|
  {
    var k := PastBlanks(mem, from);
    k + |Word(mem, k)| == |mem| && (limit == 0 || |Word(mem, k)| < limit)
  }

  lemma {:induction false} WordInside(mem: seq<byte>, k: nat)
    requires k < |mem| && mem[|mem| - 1] == 0
    ensures k + |Word(mem, k)| < |mem| && PastBlanks(mem, k) < |mem|
    decreases |mem| - k
  {
    if k + 1 < |mem| { WordInside(mem, k + 1); }
  }

  /** In a readable buffer it never does. */
  lemma ReadableStays(cmd: seq<byte>, name: seq<byte>, limit: nat)
    requires Readable(cmd, name)
    ensures !RunsOff(cmd, name, limit)
  {
    var i := FirstOption(cmd, name, 0);
    if i >= 0 {
      WordInside(cmd, i + |name| + 2);
      WordInside(cmd, PastBlanks(cmd, i + |name| + 2));
    }
  }

  lemma ParseAt(cmd: seq<byte>, name: seq<byte>, limit: nat)
    ensures var i := FirstOption(cmd, name, 0);
            && (i < 0 ==> Parse(cmd, name, limit) == Missing && !RunsOff(cmd, name, limit))
            && (i >= 0 && i + |name| + 2 <= |cmd| ==>
                  && Parse(cmd, name, limit) == Found(Cut(Word(cmd, PastBlanks(cmd, i + |name| + 2)), limit))
                  && (RunsOff(cmd, name, limit) <==> OffEnd(cmd, i + |name| + 2, limit)))
  {}

  lemma NoNulInside(cmd: seq<byte>, name: seq<byte>, i: nat)
    requires Name(name) && OptionAt(cmd, name, i)
    ensures forall k :: i <= k <= i + |name| ==> cmd[k] != 0
  {
    forall k | i < k <= i + |name| ensures cmd[k] != 0 {
      var c := name[k - i - 1];
      assert cmd[i + 1 + (k - i - 1)] == Upper(c) && c in name;
    }
  }

  /** `getline` never stores into the last cell of its buffer, so that a line in a buffer that
      was zero at first has a NUL before its last cell, and there too. */
  lemma LineIsReadable(cmd: seq<byte>, name: seq<byte>, end: nat)
    requires end < |cmd| - 1 && cmd[end] == 0 && cmd[|cmd| - 1] == 0 && Name(name)
    ensures Readable(cmd, name)
  {
    var i := FirstOption(cmd, name, 0);
    if i >= 0 { NoNulInside(cmd, name, i); }
  }

  // ---- the program ----

  /** `strncpy` into 100 bytes, then each character up to the terminator in upper case. */
  method UpperCopy(name: seq<byte>) returns (paraInRam: array<byte>)
    requires Name(name)
    ensures fresh(paraInRam) && HoldsName(paraInRam[..], name)
  {
    paraInRam := new byte[NAME_ROOM](k requires 0 <= k < NAME_ROOM => if k < |name| then name[k] else 0);
    var i := 0;
    assert forall k :: 0 <= k < |name| ==> name[k] != 0;
    while paraInRam[i] != 0
      invariant i <= |name|
      invariant forall k :: 0 <= k < NAME_ROOM ==>
                  paraInRam[k] == if k >= |name| then 0 else if k < i then Upper(name[k]) else name[k]
      decreases |name| - i
    {
      paraInRam[i] := Upper(paraInRam[i]);
      i := i + 1;
    }
  }

  ghost predicate HoldsName(copy: seq<byte>, name: seq<byte>) {
    |name| < |copy| && copy[..|name|] == UpperAll(name) && copy[|name|] == 0
  }

  lemma NameCell(copy: seq<byte>, name: seq<byte>, k: nat)
    requires HoldsName(copy, name) && Name(name) && k <= |name|
    ensures |name| < |copy| && (copy[k] != 0 <==> k < |name|)
    ensures k < |name| ==> copy[k] == UpperAll(name)[k]
  {
    if k < |name| { assert copy[k] == copy[..|name|][k] == Upper(name[k]) && name[k] in name; }
  }

  lemma AtStep(cmd: seq<byte>, p: nat, s: seq<byte>, k: nat)
    requires k < |s| && At(cmd, p, s[..k]) && p + k < |cmd| && cmd[p + k] == s[k]
    ensures At(cmd, p, s[..k + 1])
  {
    assert s[..k + 1] == s[..k] + [s[k]];
  }

  /** Where the comparison with the name stops: past a whole name, or at the first difference. */
  method Compare(cmd: seq<byte>, paraInRam: array<byte>, i: nat, ghost name: seq<byte>, ghost end: nat)
      returns (j: nat, k: nat)
    requires Name(name) && HoldsName(paraInRam[..], name) && i < end < |cmd| && cmd[end] == 0
    ensures k <= |name| && j == i + 1 + k <= end && At(cmd, i + 1, UpperAll(name)[..k])
    ensures k < |name| ==> cmd[j] != UpperAll(name)[k]
  {
    hide HoldsName, At, UpperAll;
    j, k := i + 1, 0;
    ghost var copy := paraInRam[..];
    NameCell(copy, name, 0);
    NothingAt(cmd, i + 1, UpperAll(name));
    while paraInRam[k] != 0
      invariant k <= |name| < paraInRam.Length && j == i + 1 + k <= end && At(cmd, i + 1, UpperAll(name)[..k])
      invariant paraInRam[k] == 0 ==> k == |name|
      decreases |name| - k
    {
      NameCell(copy, name, k);
      if cmd[j] != paraInRam[k] { return; }
      AtStep(cmd, i + 1, UpperAll(name), k);
      j, k := j + 1, k + 1;
      NameCell(copy, name, k);
    }
  }

  lemma NothingAt(cmd: seq<byte>, p: nat, s: seq<byte>)
    requires p <= |cmd|
    ensures At(cmd, p, s[..0])
  { }

  lemma WordStep(mem: seq<byte>, k: nat)
    requires k < |mem|
    ensures Word(mem, k) == if Stops(mem[k]) then [] else [mem[k]] + Word(mem, k + 1)
    ensures mem[k] == SPACE ==> PastBlanks(mem, k) == PastBlanks(mem, k + 1)
    ensures mem[k] != SPACE ==> PastBlanks(mem, k) == k
  {}

  lemma SpliceNothing(s: seq<byte>)
    requires |s| > 0
    ensures Splice(s, 1, []) == s
  {}

  lemma SpliceStep(s: seq<byte>, w: seq<byte>, x: nat)
    requires x < |w| && x + 1 < |s|
    ensures Splice(s, 1, w[..x])[x + 1 := w[x]] == Splice(s, 1, w[..x + 1])
  {}

  /** The first `done` bytes of `word` are copied, into the cells of `was` from 1 on if there is
      a buffer, and the rest of it stands at `k`. */
  ghost predicate Copied(mem: seq<byte>, k: nat, word: seq<byte>, done: nat, was: seq<byte>, now: seq<byte>) {
    && k <= |mem| && done <= |word| && word[done..] == Word(mem, k)
    && (was != [] ==> done + 1 < |was| && now == Splice(was, 1, word[..done]))
  }

  lemma CopyStart(mem: seq<byte>, k: nat, was: seq<byte>)
    requires k <= |mem| && (was == [] || |was| > 1)
    ensures Copied(mem, k, Word(mem, k), 0, was, was)
  {
    var word := Word(mem, k);
    assert word[..0] == [] && word[0..] == word;
    if was != [] { SpliceNothing(was); }
  }

  lemma CopyStep(mem: seq<byte>, k: nat, word: seq<byte>, done: nat, was: seq<byte>, now: seq<byte>, next: seq<byte>)
    requires k < |mem| && Copied(mem, k, word, done, was, now) && !Stops(mem[k])
    requires was != [] ==> done + 2 < |was| && |now| == |was| && next == now[done + 1 := mem[k]]
    ensures Copied(mem, k + 1, word, done + 1, was, next)
  {
    WordStep(mem, k);
    assert word[done] == word[done..][0] && word[done + 1..] == word[done..][1..];
    if was != [] { SpliceStep(was, word, done); }
  }

  lemma CopyEnd(mem: seq<byte>, k: nat, word: seq<byte>, done: nat, was: seq<byte>, now: seq<byte>, limit: nat)
    requires Copied(mem, k, word, done, was, now) && (limit > 0 ==> done <= limit)
    requires k == |mem| || Stops(mem[k]) || done == limit > 0
    ensures |Cut(word, limit)| == done && (was != [] ==> now == Splice(was, 1, Cut(word, limit)))
    ensures k == |mem| || Stops(mem[k]) ==> |word| == done
    ensures done <= |word|
  {
    if k < |mem| { WordStep(mem, k); }
    assert word[..done] == Cut(word, limit);
  }

  method SkipBlanks(cmd: seq<byte>, from: nat) returns (k: nat)
    requires from <= |cmd|
    ensures k == PastBlanks(cmd, from)
  {
    k := from;
    while k < |cmd| && cmd[k] == SPACE
      invariant k <= |cmd| && PastBlanks(cmd, k) == PastBlanks(cmd, from)
      decreases |cmd| - k
    {
      k := k + 1;
    }
  }

  /** `if(paraBody) paraBody[x] = c` */
  method Store(body: array?<byte>, x: int, c: byte)
    requires body != null ==> 0 <= x + 1 < body.Length
    modifies if body == null then {} else {body}
    ensures body != null ==> body[..] == old(body[..])[x + 1 := c]
  {
    if body != null { body[x + 1] := c; }
  }

  /** The text of the option whose name ends before `j`. Cell `x + 1` of `body` is index `x` of
      the caller's buffer. */
  method CopyBody(cmd: seq<byte>, j: nat, body: array?<byte>, limit: nat) returns (retval: nat, overrun: bool)
    requires j < |cmd|
    requires body != null ==> limit > 0 && body.Length == limit + 2
    modifies if body == null then {} else {body}
    ensures overrun <==> OffEnd(cmd, j + 1, limit)
    ensures var w := Cut(Word(cmd, PastBlanks(cmd, j + 1)), limit);
            && retval == |w|
            && (body != null ==> retval <= limit && body[..] == Splice(old(body[..]), 1, w))
  {
    hide Word, PastBlanks, Splice, Cut, Copied;
    var k := SkipBlanks(cmd, j + 1);
    ghost var start, word := k, Word(cmd, k);
    ghost var was := if body != null then body[..] else [];
    ghost var now := was;
    retval := 0;
    CopyStart(cmd, k, was);
    while k < |cmd| && cmd[k] != SPACE && cmd[k] != 0 && cmd[k] != DASH
      invariant k == start + retval <= |cmd| && Copied(cmd, k, word, retval, was, now)
      invariant limit > 0 ==> retval < limit
      invariant body != null ==> now == body[..]
      decreases |cmd| - k
    {
      Store(body, retval, cmd[k]);
      ghost var next := if body != null then body[..] else [];
      CopyStep(cmd, k, word, retval, was, now, next);
      now := next;
      retval := retval + 1;
      if retval == limit {
        CopyEnd(cmd, k + 1, word, retval, was, now, limit);
        return retval, false;
      }
      k := k + 1;
    }
    CopyEnd(cmd, k, word, retval, was, now, limit);
    overrun := k == |cmd|;
  }

  lemma FirstStep(cmd: seq<byte>, name: seq<byte>, i: nat)
    requires i < |cmd|
    ensures FirstOption(cmd, name, i) == if cmd[i] == 0 then -1 else if OptionAt(cmd, name, i)
              then i else FirstOption(cmd, name, i + 1)
  {}

  lemma OptionIff(cmd: seq<byte>, name: seq<byte>, i: nat, k: nat)
    requires i < |cmd| && k <= |name| && i + 1 + k < |cmd| && At(cmd, i + 1, UpperAll(name)[..k])
    requires k < |name| ==> cmd[i + 1 + k] != UpperAll(name)[k]
    ensures OptionAt(cmd, name, i) <==> cmd[i] == DASH && k == |name| && cmd[i + 1 + k] in {SPACE, 0}
  {
    if k == |name| { assert UpperAll(name)[..k] == UpperAll(name); }
  }

  lemma NotDash(cmd: seq<byte>, name: seq<byte>, i: nat)
    requires i < |cmd| && cmd[i] != DASH
    ensures !OptionAt(cmd, name, i)
  {}

  lemma SpliceEnd(s: seq<byte>, w: seq<byte>)
    requires |w| + 1 < |s|
    ensures Splice(s, 1, w)[|w| + 1 := 0] == Splice(s, 1, w + [0])
  {}

  /** The outer loop: the first option of that name, and the character behind it. */
  method Search(cmd: seq<byte>, paraInRam: array<byte>, name: seq<byte>) returns (i: int, j: nat)
    requires Name(name) && 0 in cmd && HoldsName(paraInRam[..], name)
    ensures i == FirstOption(cmd, name, 0) && (i >= 0 ==> j == i + 1 + |name| < |cmd|)
  {
    ghost var end :| 0 <= end < |cmd| && cmd[end] == 0;
    hide FirstOption, OptionAt, At, HoldsName, Name, UpperAll;
    i, j := 0, 0;
    while cmd[i] != 0
      invariant 0 <= i <= end && FirstOption(cmd, name, i) == FirstOption(cmd, name, 0)
      decreases |cmd| - i
    {
      FirstStep(cmd, name, i);
      if cmd[i] == DASH {
        var k;
        j, k := Compare(cmd, paraInRam, i, name, end);
        OptionIff(cmd, name, i, k);
        if k < |name| || (cmd[j] != SPACE && cmd[j] != 0) {
          i := i + 1;
          continue;
        }
        return;
      }
      NotDash(cmd, name, i);
      i := i + 1;
    }
    FirstStep(cmd, name, i);
    i := -1;
  }

  /** The text, and its terminator. */
  method TakeBody(cmd: seq<byte>, j: nat, body: array?<byte>, limit: nat) returns (retval: nat, overrun: bool)
    requires j < |cmd|
    requires body != null ==> limit > 0 && body.Length == limit + 2
    modifies if body == null then {} else {body}
    ensures overrun <==> OffEnd(cmd, j + 1, limit)
    ensures var w := Cut(Word(cmd, PastBlanks(cmd, j + 1)), limit);
            && retval == |w|
            && (body != null ==> body[..] == Splice(old(body[..]), 1, if overrun then w else w + [0]))
  {
    hide Word, PastBlanks, Splice, OffEnd, Cut;
    retval, overrun := CopyBody(cmd, j, body, limit);
    if !overrun {
      if body != null { SpliceEnd(old(body[..]), Cut(Word(cmd, PastBlanks(cmd, j + 1)), limit)); }
      Store(body, retval, 0);
    }
  }

  /** `findCommandPara` on the memory from the command on, which holds a NUL somewhere. `overrun` is
      set when it goes on reading behind that memory. */
  method FindCommandPara(cmd: seq<byte>, name: seq<byte>, body: array?<byte>, limit: nat)
    returns (retval: int, overrun: bool)
    requires Name(name) && 0 in cmd
    requires body != null ==> limit > 0 && body.Length == limit + 2
    modifies if body == null then {} else {body}
    ensures overrun <==> RunsOff(cmd, name, limit)
    ensures match Parse(cmd, name, limit)
            case Missing => retval == -1 && (body != null ==> body[..] == old(body[..])[0 := 0])
            case Found(w) =>
              retval == |w| && (body != null ==> body[..] == Splice(old(body[..]), 1, if overrun then w else w + [0]))
  {
    hide FirstOption, Word, PastBlanks, Splice, HoldsName, OffEnd, Parse, RunsOff, Cut, Name;
    ParseAt(cmd, name, limit);
    var paraInRam := UpperCopy(name);
    var i, j := Search(cmd, paraInRam, name);
    retval, overrun := -1, false;
    if i >= 0 { retval, overrun := TakeBody(cmd, j, body, limit); } else { Store(body, retval, 0); }
  }
}
