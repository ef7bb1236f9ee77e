/** The flash devices behind `platform_flash_*` and `MicoFlash*`. */
module FlashMemory {
  import opened Bytes

  /** `SizePerRW`: how much both installers move at a time. */
  const CHUNK: nat := 4096

  /** The devices themselves, as areas. */
  datatype Device = EmbeddedFlash | SpiFlash

  /** What the device does to one call. Cells past the end of `noise` read 0. */
  datatype Outcome =
    | Works
    | Refuses                                           // an error, nothing stored
    | Scrambles(noise: seq<byte>, reported: bool)       // arbitrary bytes in the range; success may still be reported
    | PowerLost(noise: seq<byte>, finished: bool)       // power goes during the call

  /** Outcomes of the calls in order; once the script is over every call works. */
  type Script = seq<Outcome>

  function OutcomeOf(script: Script, call: nat): Outcome {
    if call < |script| then script[call] else Works
  }

  /** Power may go at any call, but a call that completes does what it says. */
  ghost predicate OnlyPowerFails(script: Script) {
    forall k :: 0 <= k < |script| ==> script[k].Works? || script[k].PowerLost?
  }

  ghost predicate NeverScrambles(script: Script) {
    forall k :: 0 <= k < |script| ==> !script[k].Scrambles?
  }

  predicate RefusedAt(script: Script, call: nat) { call < |script| && script[call].Refuses? }

  predicate Succeeds(o: Outcome) { o.Works? || (o.Scrambles? && o.reported) }

  datatype Status = NoErr | UnsupportedErr | NotFoundErr | ParamErr | DeviceErr | WriteErr | ChecksumErr

  function StatusOf(o: Outcome): Status { if Succeeds(o) then NoErr else DeviceErr }

  datatype Op<+A> = Erased(area: A, at: nat, len: nat) | Written(area: A, at: nat, data: seq<byte>)

  /** Every operation logged since `ops0` was on area `a`. */
  ghost predicate OpsOnlyOn<A>(ops0: seq<Op<A>>, ops: seq<Op<A>>, a: A) {
    ops0 <= ops && forall k :: |ops0| <= k < |ops| ==> ops[k].area == a
  }

  lemma NoOps<A>(ops: seq<Op<A>>, a: A)
    ensures OpsOnlyOn(ops, ops, a)
  { }

  lemma MoreOps<A>(ops0: seq<Op<A>>, ops1: seq<Op<A>>, ops: seq<Op<A>>, a: A)
    requires OpsOnlyOn(ops0, ops1, a) && OpsOnlyOn(ops1, ops, a)
    ensures OpsOnlyOn(ops0, ops, a)
  { }

  function NoiseAt(noise: seq<byte>, i: nat): byte { if i < |noise| then noise[i] else 0 }

  function Noise(noise: seq<byte>, len: nat): (s: seq<byte>)
    ensures |s| == len
  {
    seq(len, i requires 0 <= i => NoiseAt(noise, i))
  }

  /** The bytes a call leaves in the range it addresses. */
  function EraseResult(before: seq<byte>, o: Outcome, atomic: bool): (after: seq<byte>)
    ensures |after| == |before|
  {
    match o
    case Works => Blank(|before|)
    case Refuses => before
    case Scrambles(noise, _) => Noise(noise, |before|)
    case PowerLost(noise, finished) =>
      if !atomic then Noise(noise, |before|) else if finished then Blank(|before|) else before
  }

  /** Programming only clears bits. */
  function Programmed(before: seq<byte>, data: seq<byte>): (after: seq<byte>)
    requires |data| == |before|
    ensures |after| == |before|
    ensures before == Blank(|data|) ==> after == data
  {
    seq(|before|, i requires 0 <= i < |before| => And(before[i], data[i]))
  }

  /** A cell whose programming was cut short keeps some bits it should have lost. */
  function TornCell(before: byte, data: byte, kept: byte): (after: byte)
    ensures data == BLANK ==> after == before
  {
    And(before, Or(data, kept))
  }

  function Torn(before: seq<byte>, data: seq<byte>, noise: seq<byte>): (after: seq<byte>)
    requires |data| == |before|
    ensures |after| == |before|
    ensures forall i :: 0 <= i < |data| && data[i] == BLANK ==> after[i] == before[i]
  {
    var r := seq(|before|, i requires 0 <= i < |before| => TornCell(before[i], data[i], NoiseAt(noise, i)));
    assert forall i :: 0 <= i < |data| ==> r[i] == TornCell(before[i], data[i], NoiseAt(noise, i));
    r
  }

  function WriteResult(before: seq<byte>, data: seq<byte>, o: Outcome): (after: seq<byte>)
    requires |data| == |before|
    ensures |after| == |before|
  {
    match o
    case Works => Programmed(before, data)
    case Refuses => before
    case Scrambles(noise, _) => Noise(noise, |before|)
    case PowerLost(noise, _) => Torn(before, data, noise)
  }

  /** Bits that `data` needs are gone: a faithful write leaves something else. */
  predicate LosesBits(before: seq<byte>, data: seq<byte>)
    requires |data| == |before|
  {
    Programmed(before, data) != data
  }

  lemma BlankLosesNothing(data: seq<byte>)
    ensures !LosesBits(Blank(|data|), data)
  { }

  /** The first byte that lost a bit. */
  function FirstLoss(before: seq<byte>, data: seq<byte>): (k: nat)
    requires |data| == |before|
    ensures k <= |data|
  {
    if data == [] || And(before[0], data[0]) != data[0] then 0 else 1 + FirstLoss(before[1..], data[1..])
  }

  /** Where the unit of programming begins that byte `k` of `len` bytes at address `at` lies in, and
      where it ends: a word, or a byte before the first and behind the last whole word. */
  function Unit(at: nat, len: nat, k: nat): (u: (nat, nat))
    requires k < len
    ensures u.0 <= k < u.1 <= len
  {
    var head := (4 - at % 4) % 4;
    if k < head || k >= head + (len - head) / 4 * 4 then (k, k + 1)
    else (head + (k - head) / 4 * 4, head + (k - head) / 4 * 4 + 4)
  }

  /** What a driver that reads back each unit it has programmed does when bits are lost: it stops
      behind the first unit that differs, and its offset points to that. */
  function Halted(before: seq<byte>, data: seq<byte>, at: nat): (r: (seq<byte>, nat))
    requires |data| == |before|
    ensures |r.0| == |before| && r.1 <= |before|
  {
    var k := FirstLoss(before, data);
    var (from, to) := if k < |data| then Unit(at, |data|, k) else (|data|, |data|);
    (Programmed(before[..to], data[..to]) + before[to..], from)
  }

  lemma {:induction false} FirstLossIs(before: seq<byte>, data: seq<byte>)
    requires |data| == |before|
    ensures var k := FirstLoss(before, data);
            && (forall i :: 0 <= i < k ==> And(before[i], data[i]) == data[i])
            && (k < |data| ==> And(before[k], data[k]) != data[k])
    decreases |data|
  {
    hide And;
    if data != [] {
      FirstLossIs(before[1..], data[1..]);
      var k := FirstLoss(before, data);
      assert forall i :: 1 <= i < k ==> before[i] == before[1..][i - 1] && data[i] == data[1..][i - 1];
      if 0 < k < |data| { assert before[k] == before[1..][k - 1] && data[k] == data[1..][k - 1]; }
    }
  }

  /** It stops exactly when bits are lost: before the offset it reports all data is stored, the unit
      there differs, and of the rest nothing has been programmed. */
  lemma HaltedMeans(before: seq<byte>, data: seq<byte>, at: nat)
    requires |data| == |before|
    ensures LosesBits(before, data) <==> Halted(before, data, at).1 < |data|
    ensures var (after, n) := Halted(before, data, at);
            && (forall i :: 0 <= i < n ==> after[i] == data[i])
            && (forall i :: n + 4 <= i < |data| ==> after[i] == before[i])
            && (n < |data| ==> exists k :: n <= k < n + 4 && k < |data| && after[k] != data[k])
  {
    var k := FirstLoss(before, data);
    FirstLossIs(before, data);
    HaltedCells(before, data, at, k);
    var r := Programmed(before, data);
    assert forall i :: 0 <= i < |data| ==> r[i] == And(before[i], data[i]);
    if k == |data| { assert r == data; }
  }

  lemma HaltedCells(before: seq<byte>, data: seq<byte>, at: nat, k: nat)
    requires |data| == |before| && k == FirstLoss(before, data)
    ensures var (after, n) := Halted(before, data, at);
            && n <= k && (k == |data| ==> n == |data|) && (k < |data| ==> k < n + 4)
            && (forall i :: 0 <= i <= k && i < |data| ==> after[i] == And(before[i], data[i]))
            && (forall i :: n + 4 <= i < |data| ==> after[i] == before[i])
  {
    hide And, FirstLoss;
  }

  /** An area after an erase, or a write, of the range that starts at `at`. */
  function AfterErase(m: seq<byte>, at: nat, len: nat, o: Outcome, atomic: bool): (r: seq<byte>)
    requires at + len <= |m|
    ensures |r| == |m|
  {
    Splice(m, at, EraseResult(m[at..at + len], o, atomic))
  }

  function AfterWrite(m: seq<byte>, at: nat, data: seq<byte>, o: Outcome): (r: seq<byte>)
    requires at + |data| <= |m|
    ensures |r| == |m|
  {
    Splice(m, at, WriteResult(m[at..at + |data|], data, o))
  }

  /** A write to a driver that reads back, when bits are lost. */
  function AfterHalt(m: seq<byte>, at: nat, data: seq<byte>): (r: seq<byte>)
    requires at + |data| <= |m|
    ensures |r| == |m|
  {
    Splice(m, at, Halted(m[at..at + |data|], data, at).0)
  }

  /** A write leaves what lies around it alone, and on blank cells a faithful one stores its data. */
  lemma ChunkWritten(before: seq<byte>, at: nat, chunk: seq<byte>, o: Outcome)
    requires at + |chunk| <= |before|
    ensures var after := AfterWrite(before, at, chunk, o);
            && after[..at] == before[..at] && after[at + |chunk|..] == before[at + |chunk|..]
            && (o.Works? && before[at..at + |chunk|] == Blank(|chunk|) ==> after[at..at + |chunk|] == chunk)
  {
    SpliceSlices(before, at, WriteResult(before[at..at + |chunk|], chunk, o));
  }

  /** Where an erase of `len` bytes at `at` begins and ends: the sectors it touches. */
  type Sweep = (nat, nat) -> (nat, nat)

  /** What such an erase blanks in a memory of `size` bytes. */
  function Reach(sweep: Sweep, at: nat, len: nat, size: nat): (r: (nat, nat))
    requires at + len <= size
    ensures r.0 <= at && at + len <= r.1 <= size
  {
    var (from, to) := sweep(at, len);
    (if from < at then from else at, if to > size then size else if to > at + len then to else at + len)
  }

  /** An erase that touches whole sectors. */
  function AfterSweep(m: seq<byte>, sweep: Sweep, at: nat, len: nat, o: Outcome, atomic: bool): (r: seq<byte>)
    requires at + len <= |m|
    ensures |r| == |m|
  {
    var (from, to) := Reach(sweep, at, len, |m|);
    AfterErase(m, from, to - from, o, atomic)
  }

  /** An erase of a whole area blanks just that, whatever its sectors. */
  lemma WholeSwept(m: seq<byte>, sweep: Sweep, o: Outcome, atomic: bool)
    ensures Reach(sweep, 0, |m|, |m|) == (0, |m|)
    ensures AfterSweep(m, sweep, 0, |m|, o, atomic) == AfterErase(m, 0, |m|, o, atomic)
  { }

  /** How far a call has moved its offset: past everything when it succeeds, past what was
      programmed when it stops half way. */
  function Moved(o: Outcome, len: nat): (n: nat)
    ensures n <= len && (Succeeds(o) ==> n == len)
  {
    match o
    case Works => len
    case Scrambles(noise, reported) => if reported || |noise| > len then len else |noise|
    case Refuses => 0
    case PowerLost(_, _) => 0
  }

  /** Flash as separate areas: partitions, or whole devices. */
  class Flash<A(==)> {
    const script: Script
    const atomic: set<A>     // areas whose erase is all or nothing when power goes
    const sectors: A -> Sweep
    const readsBack: set<A>  // areas whose driver compares what it has programmed
    var mem: map<A, seq<byte>>
    var calls: nat
    var powered: bool
    ghost var ops: seq<Op<A>>

    constructor (script: Script, atomic: set<A>, sectors: A -> Sweep, readsBack: set<A>, mem: map<A, seq<byte>>)
      ensures this.script == script && this.atomic == atomic && this.sectors == sectors && this.mem == mem
      ensures this.readsBack == readsBack && calls == 0 && powered && ops == []
    {
      this.script, this.atomic, this.sectors, this.readsBack, this.mem := script, atomic, sectors, readsBack, mem;
      calls, powered, ops := 0, true, [];
    }

    /** Power returns; memory is what the crash left. */
    method PowerOn()
      modifies `powered
      ensures powered
    {
      powered := true;
    }

    /** What the device will do to the next call. */
    function Next(): Outcome
      reads this
    {
      OutcomeOf(script, calls)
    }

    /** Every call from now on works. */
    ghost predicate Calm()
      reads this
    {
      powered && forall k :: calls <= k < |script| ==> script[k].Works?
    }

    /** Every call from now on works but call `bad`, which is refused. */
    ghost predicate CalmBut(bad: nat)
      reads this
    {
      && powered && calls <= bad && RefusedAt(script, bad)
      && forall k :: calls <= k < |script| && k != bad ==> script[k].Works?
    }

    /** The argument checks, then power. `NoErr` means the device gets the call. */
    function Check(a: A, at: nat, len: nat): Status
      reads this
    {
      if a !in mem then NotFoundErr
      else if at + len > |mem[a]| then ParamErr
      else if !powered then DeviceErr
      else NoErr
    }

    /** Erases every sector the range touches. A range that touches none is left at that. */
    method EraseSectors(a: A, at: nat, len: nat) returns (err: Status)
      modifies `mem, `calls, `powered, `ops
      ensures old(Check(a, at, len)) != NoErr ==>
                && err == old(Check(a, at, len))
                && mem == old(mem) && calls == old(calls) && powered == old(powered) && ops == old(ops)
      ensures old(Check(a, at, len)) == NoErr ==>
                var (from, to) := Reach(sectors(a), at, len, |old(mem)[a]|);
                if from == to then
                  err == NoErr && mem == old(mem) && calls == old(calls) && powered == old(powered) && ops == old(ops)
                else
                  && err == StatusOf(old(Next()))
                  && mem == old(mem)[a := AfterSweep(old(mem)[a], sectors(a), at, len, old(Next()), a in atomic)]
                  && calls == old(calls) + 1 && powered == !old(Next()).PowerLost?
                  && ops == old(ops) + [Erased(a, at, len)]
    {
      err := Check(a, at, len);
      if err != NoErr { return; }
      var (from, to) := Reach(sectors(a), at, len, |mem[a]|);
      if from == to { return; }
      var o := Next();
      mem := mem[a := AfterSweep(mem[a], sectors(a), at, len, o, a in atomic)];
      ops := ops + [Erased(a, at, len)];
      calls, powered := calls + 1, !o.PowerLost?;
      err := StatusOf(o);
    }

    /** The same for a partition, where an empty range is no call at all. */
    method Erase(a: A, at: nat, len: nat) returns (err: Status)
      modifies `mem, `calls, `powered, `ops
      ensures len == 0 || old(Check(a, at, len)) != NoErr ==>
                && err == (if len == 0 then NoErr else old(Check(a, at, len)))
                && mem == old(mem) && calls == old(calls) && powered == old(powered) && ops == old(ops)
      ensures len > 0 && old(Check(a, at, len)) == NoErr ==>
                && err == StatusOf(old(Next()))
                && mem == old(mem)[a := AfterSweep(old(mem)[a], sectors(a), at, len, old(Next()), a in atomic)]
                && calls == old(calls) + 1 && powered == !old(Next()).PowerLost?
                && ops == old(ops) + [Erased(a, at, len)]
    {
      if len == 0 { return NoErr; }
      err := EraseSectors(a, at, len);
    }

    /** The driver notices that the write of `data` loses bits. */
    predicate Notices(a: A, off: nat, data: seq<byte>)
      requires a in mem && off + |data| <= |mem[a]|
      reads this
    {
      a in readsBack && Next().Works? && LosesBits(mem[a][off..off + |data|], data)
    }

    /** Writes the first `len` bytes of `buf` at `off`, which moves past what was programmed. */
    method Write(a: A, off: nat, buf: array<byte>, len: nat) returns (err: Status, off': nat)
      requires len <= buf.Length
      modifies `mem, `calls, `powered, `ops
      ensures off <= off' <= off + len && (err == NoErr ==> off' == off + len)
      ensures len == 0 || old(Check(a, off, len)) != NoErr ==>
                && err == (if len == 0 then NoErr else old(Check(a, off, len)))
                && off' == off && mem == old(mem) && calls == old(calls) && powered == old(powered) && ops == old(ops)
      ensures len > 0 && old(Check(a, off, len)) == NoErr ==>
                && calls == old(calls) + 1 && powered == !old(Next()).PowerLost?
                && ops == old(ops) + [Written(a, off, buf[..len])]
      ensures len > 0 && old(Check(a, off, len)) == NoErr && !old(Notices(a, off, buf[..len])) ==>
                && err == StatusOf(old(Next())) && off' == off + Moved(old(Next()), len)
                && mem == old(mem)[a := AfterWrite(old(mem)[a], off, buf[..len], old(Next()))]
      ensures len > 0 && old(Check(a, off, len)) == NoErr && old(Notices(a, off, buf[..len])) ==>
                && err == ChecksumErr && off' == off + Halted(old(mem)[a][off..off + len], buf[..len], off).1
                && mem == old(mem)[a := AfterHalt(old(mem)[a], off, buf[..len])]
    {
      hide AfterWrite, AfterHalt, Halted, Moved, LosesBits;
      if len == 0 { return NoErr, off; }
      err, off' := Check(a, off, len), off;
      if err != NoErr { return; }
      var o := Next();
      var lost, before := Notices(a, off, buf[..len]), mem[a][off..off + len];
      mem := mem[a := if lost then AfterHalt(mem[a], off, buf[..len]) else AfterWrite(mem[a], off, buf[..len], o)];
      ops := ops + [Written(a, off, buf[..len])];
      calls, powered := calls + 1, !o.PowerLost?;
      err := if lost then ChecksumErr else StatusOf(o);
      off' := off + if lost then Halted(before, buf[..len], off).1 else Moved(o, len);
    }

    /** Reads `len` bytes at `off` into the front of `buf`; a success moves the offset past them.
        A read may fail, but one that reports success has returned what is stored. */
    method Read(a: A, off: nat, buf: array<byte>, len: nat) returns (err: Status, off': nat)
      requires len <= buf.Length
      modifies `calls, `powered, buf
      ensures off' == if err == NoErr then off + len else off
      ensures len == 0 || old(Check(a, off, len)) != NoErr ==>
                && err == (if len == 0 then NoErr else old(Check(a, off, len)))
                && buf[..] == old(buf[..]) && calls == old(calls) && powered == old(powered)
      ensures len > 0 && old(Check(a, off, len)) == NoErr ==>
                && err == StatusOf(old(Next()))
                && (err == NoErr ==> buf[..len] == mem[a][off..off + len] && buf[len..] == old(buf[len..]))
                && (err != NoErr ==> buf[..] == old(buf[..]))
                && calls == old(calls) + 1 && powered == !old(Next()).PowerLost?
    {
      if len == 0 { return NoErr, off; }
      err, off' := Check(a, off, len), off;
      if err != NoErr { return; }
      var o := Next();
      calls, powered := calls + 1, !o.PowerLost?;
      err := StatusOf(o);
      if err == NoErr {
        forall i | 0 <= i < len { buf[i] := mem[a][off + i]; }
        off' := off + len;
      }
    }

    /** Initialises the device, or lifts its write protection: it may fail but stores nothing. */
    method Prepare(a: A) returns (err: Status)
      modifies `calls, `powered
      ensures old(Check(a, 0, 0)) != NoErr ==>
                err == old(Check(a, 0, 0)) && calls == old(calls) && powered == old(powered)
      ensures old(Check(a, 0, 0)) == NoErr ==>
                && err == StatusOf(old(Next())) && calls == old(calls) + 1 && powered == !old(Next()).PowerLost?
    {
      err := Check(a, 0, 0);
      if err != NoErr { return; }
      var o := Next();
      calls, powered := calls + 1, !o.PowerLost?;
      err := StatusOf(o);
    }
  }
}
