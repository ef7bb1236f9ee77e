/** Copying the RF driver to SPI flash at boot: `init_platform_bootloader`. */
module RfCopy {
  import opened Bytes
  import opened FlashMemory

  type Devices = map<Device, seq<byte>>

  // Offsets in embedded flash: the copy flag, its sector, the staged driver, its checksum byte.
  const FLAG: nat := 0x8000
  const SECTOR: nat := 0x4000
  const TEMP: nat := 0x4_0000
  const TEMP_END: nat := 0x7_FFFF

  /** The RF partition in SPI flash, the sectors an erase there touches, and the byte step of the
      CRC-8: any sectors and any step will do. */
  datatype Plan = Plan(start: nat, length: nat, sectors: Sweep, step: (int, byte) -> int)

  /** Where the erase of the partition begins and ends. */
  function Lo(p: Plan, size: nat): (lo: nat)
    ensures lo <= p.start
  {
    if p.start + p.length <= size then Reach(p.sectors, p.start, p.length, size).0 else p.start
  }

  function Hi(p: Plan, size: nat): (hi: nat)
    ensures p.start + p.length <= hi && (p.start + p.length <= size ==> hi <= size)
  {
    if p.start + p.length <= size then Reach(p.sectors, p.start, p.length, size).1 else p.start + p.length
  }

  predicate Fitted(m: Devices) {
    EmbeddedFlash in m && SpiFlash in m && |m[EmbeddedFlash]| > TEMP_END
  }

  /** The partition lies in SPI flash and the staged driver in embedded flash. */
  predicate Fits(p: Plan, m: Devices) {
    Fitted(m) && p.start + p.length <= |m[SpiFlash]| && TEMP + p.length <= |m[EmbeddedFlash]|
  }

  function Flag(m: Devices): byte
    requires Fitted(m)
  {
    m[EmbeddedFlash][FLAG]
  }

  function Stored(m: Devices): byte
    requires Fitted(m)
  {
    m[EmbeddedFlash][TEMP_END]
  }

  function Driver(p: Plan, m: Devices): seq<byte>
    requires Fits(p, m)
  {
    m[EmbeddedFlash][TEMP..TEMP + p.length]
  }

  function Copied(p: Plan, m: Devices): seq<byte>
    requires Fits(p, m)
  {
    m[SpiFlash][p.start..p.start + p.length]
  }

  /** The RF partition has the stored checksum. */
  ghost predicate Matches(p: Plan, m: Devices) {
    Fits(p, m) && Fold(p.step, 0, Copied(p, m)) == Stored(m)
  }

  /** Only bytes from `lo` to `hi` may differ. */
  ghost predicate Outside(d0: seq<byte>, d: seq<byte>, lo: nat, hi: nat) {
    |d| == |d0| && forall i :: 0 <= i < |d| && !(lo <= i < hi) ==> d[i] == d0[i]
  }

  ghost predicate BlankIn(d: seq<byte>, lo: nat, hi: nat) {
    hi <= |d| && forall i :: lo <= i < hi ==> d[i] == BLANK
  }

  /** The first `n` bytes of the driver are in place. */
  ghost predicate InPlace(image: seq<byte>, d: seq<byte>, start: nat, n: nat) {
    n <= |image| && start + n <= |d| && forall i :: start <= i < start + n ==> d[i] == image[i - start]
  }

  lemma WrittenAt(before: seq<byte>, at: nat, chunk: seq<byte>, o: Outcome)
    requires at + |chunk| <= |before|
    ensures var after := AfterWrite(before, at, chunk, o);
            && Outside(before, after, at, at + |chunk|)
            && (o.Works? && BlankIn(before, at, at + |chunk|) ==> InPlace(chunk, after, at, |chunk|))
  {
    if o.Works? && BlankIn(before, at, at + |chunk|) {
      assert before[at..at + |chunk|] == Blank(|chunk|);
    }
  }

  lemma SweptAt(before: seq<byte>, sectors: Sweep, at: nat, len: nat, o: Outcome, atomic: bool)
    requires at + len <= |before|
    ensures var after := AfterSweep(before, sectors, at, len, o, atomic);
            var (from, to) := Reach(sectors, at, len, |before|);
            && Outside(before, after, from, to)
            && (o.Works? ==> BlankIn(after, from, to) && after == Splice(before, from, Blank(to - from)))
  { }

  lemma SweptPlan(p: Plan, d: seq<byte>, o: Outcome)
    requires p.start + p.length <= |d|
    ensures var after := AfterSweep(d, p.sectors, p.start, p.length, o, false);
            Outside(d, after, Lo(p, |d|), Hi(p, |d|)) && (o.Works? ==> after == Wiped(p, d))
    ensures Reach(p.sectors, p.start, p.length, |d|) == (Lo(p, |d|), Hi(p, |d|))
    ensures Lo(p, |d|) == Hi(p, |d|) ==> d == Wiped(p, d)
  {
    SweptAt(d, p.sectors, p.start, p.length, o, false);
  }

  lemma FlagSwept(sectors: Sweep, e: seq<byte>, o: Outcome)
    requires |e| > TEMP_END && sectors(FLAG, 1) == (FLAG, FLAG + SECTOR)
    ensures Reach(sectors, FLAG, 1, |e|) == (FLAG, FLAG + SECTOR)
    ensures var after := AfterSweep(e, sectors, FLAG, 1, o, false);
            Outside(e, after, FLAG, FLAG + SECTOR) && (o.Works? ==> after == Splice(e, FLAG, Blank(SECTOR)))
  {
    SweptAt(e, sectors, FLAG, 1, o, false);
  }

  lemma NothingOutside(d: seq<byte>, lo: nat, hi: nat)
    ensures Outside(d, d, lo, hi)
  { }

  lemma InPlaceIs(image: seq<byte>, d: seq<byte>, start: nat)
    requires InPlace(image, d, start, |image|)
    ensures d[start..start + |image|] == image
  { }

  /** SPI flash with every sector of the partition erased. */
  function Wiped(p: Plan, spi: seq<byte>): (d: seq<byte>)
    requires p.start + p.length <= |spi|
    ensures |d| == |spi|
  {
    Splice(spi, Lo(p, |spi|), Blank(Hi(p, |spi|) - Lo(p, |spi|)))
  }

  lemma WipedIs(p: Plan, spi: seq<byte>)
    requires p.start + p.length <= |spi|
    ensures Outside(spi, Wiped(p, spi), Lo(p, |spi|), Hi(p, |spi|))
    ensures BlankIn(Wiped(p, spi), p.start, p.start + p.length)
  { }

  lemma CopyIs(d1: seq<byte>, d: seq<byte>, start: nat, image: seq<byte>)
    requires InPlace(image, d, start, |image|) && Outside(d1, d, start, start + |image|)
    ensures d == Splice(d1, start, image) && d[start..start + |image|] == image
  {
    InPlaceIs(image, d, start);
  }

  class Copier {
    const flash: Flash<Device>
    const plan: Plan
    const data: array<byte>

    ghost predicate Valid()
      reads flash
    {
      && data.Length == CHUNK && Fitted(flash.mem) && flash.atomic == {} && flash.sectors(SpiFlash) == plan.sectors
      && flash.sectors(EmbeddedFlash)(FLAG, 1) == (FLAG, FLAG + SECTOR) && SpiFlash !in flash.readsBack
    }

    constructor (flash: Flash<Device>, plan: Plan)
      requires Fitted(flash.mem) && flash.atomic == {} && flash.sectors(SpiFlash) == plan.sectors
      requires flash.sectors(EmbeddedFlash)(FLAG, 1) == (FLAG, FLAG + SECTOR) && SpiFlash !in flash.readsBack
      ensures Valid() && this.flash == flash && this.plan == plan && fresh(data)
    {
      this.flash, this.plan := flash, plan;
      data := new byte[CHUNK];
    }

    /** No write fails unnoticed. */
    ghost predicate Honest()
      reads flash
    {
      NeverScrambles(flash.script) || flash.Calm()
    }

    /** `mico_CRC8_Table`. */
    method Crc8(crc: int, counter: nat) returns (crc': int)
      requires Valid() && counter <= CHUNK
      ensures crc' == Fold(plan.step, crc, data[..counter])
    {
      crc' := crc;
      for i := 0 to counter
        invariant crc' == Fold(plan.step, crc, data[..i])
      {
        assert data[..i + 1] == data[..i] + [data[i]];
        FoldConcat(plan.step, crc, data[..i], [data[i]]);
        assert Fold(plan.step, crc', [data[i]]) == Fold(plan.step, plan.step(crc', data[i]), []);
        crc' := plan.step(crc', data[i]);
      }
    }

    /** How long the piece after `i` whole chunks is; 0 when there is none. */
    function PieceLength(i: nat): (len: nat)
      ensures len <= CHUNK
      ensures i <= plan.length / CHUNK ==>
                i * CHUNK + len == if i == plan.length / CHUNK then plan.length else (i + 1) * CHUNK
    {
      if i == plan.length / CHUNK then plan.length % CHUNK else CHUNK
    }

    method CopyPiece(source: nat, dest: nat, copyLength: nat) returns (err: Status, source': nat, dest': nat,
        ghost d: seq<byte>)
      requires Valid() && flash.powered && 0 < copyLength <= CHUNK && dest + copyLength <= |flash.mem[SpiFlash]|
      modifies flash`mem, flash`calls, flash`powered, flash`ops, data
      ensures Valid() && flash.mem == old(flash.mem)[SpiFlash := d]
                && Outside(old(flash.mem)[SpiFlash], d, dest, dest + copyLength)
      ensures flash.calls >= old(flash.calls)
      ensures OpsOnlyOn(old(flash.ops), flash.ops, SpiFlash)
      ensures err == NoErr ==>
                && flash.powered && source' == source + copyLength && dest' == dest + copyLength
                && source' <= |flash.mem[EmbeddedFlash]|
                && (old(Honest()) && BlankIn(old(flash.mem)[SpiFlash], dest, dest') ==>
                      InPlace(flash.mem[EmbeddedFlash][source..source'], d, dest, copyLength))
      ensures old(flash.Calm()) ==> flash.Calm()
      ensures old(flash.Calm()) ==> (err == NoErr <==> source + copyLength <= |flash.mem[EmbeddedFlash]|)
    {
      source', dest', d := source, dest, flash.mem[SpiFlash];
      err, source' := flash.Read(EmbeddedFlash, source', data, copyLength);
      if err != NoErr { return; }
      ghost var chunk := data[..copyLength];
      ghost var o := flash.Next();
      if !flash.powered { assert false; }
      err, dest' := flash.Write(SpiFlash, dest', data, copyLength);
      WrittenAt(d, dest, chunk, o);
      d := AfterWrite(d, dest, chunk, o);
    }

    /** The copy loop, over an erased partition. */
    method CopyPieces() returns (err: Status, ghost d: seq<byte>)
      requires Valid() && flash.powered && (plan.length > 0 ==> plan.start + plan.length <= |flash.mem[SpiFlash]|)
      modifies flash`mem, flash`calls, flash`powered, flash`ops, data
      ensures Valid() && flash.mem == old(flash.mem)[SpiFlash := d]
      ensures Outside(old(flash.mem)[SpiFlash], d, plan.start, plan.start + plan.length)
      ensures flash.calls >= old(flash.calls)
      ensures OpsOnlyOn(old(flash.ops), flash.ops, SpiFlash)
      ensures err == NoErr ==>
                && flash.powered && TEMP + plan.length <= |flash.mem[EmbeddedFlash]|
                && (old(Honest()) && BlankIn(old(flash.mem)[SpiFlash], plan.start, plan.start + plan.length) ==>
                      InPlace(flash.mem[EmbeddedFlash][TEMP..TEMP + plan.length], d, plan.start, plan.length))
      ensures old(flash.Calm()) ==> flash.Calm() && (TEMP + plan.length <= |flash.mem[EmbeddedFlash]| ==> err == NoErr)
    {
      hide Copying, InPlace, Outside, BlankIn, OpsOnlyOn;
      ghost var m0, emb, d0, ops0 := flash.mem, flash.mem[EmbeddedFlash], flash.mem[SpiFlash], flash.ops;
      ghost var clean := Honest() && BlankIn(d0, plan.start, plan.start + plan.length);
      err, d := NoErr, d0;
      NothingCopied(plan, emb, d0, clean);
      NoOps(ops0, SpiFlash);
      var size, i, source, dest := plan.length / CHUNK, 0, TEMP, plan.start;
      ghost var done := 0;
      while i <= size
        invariant 0 <= i <= size + 1 && err == NoErr && flash.powered && Valid()
        invariant done == (if i <= size then i * CHUNK else plan.length) <= plan.length
        invariant source == TEMP + done && dest == plan.start + done
        invariant flash.mem == m0[SpiFlash := d] && Copying(plan, emb, d0, d, done, clean)
        invariant OpsOnlyOn(ops0, flash.ops, SpiFlash)
        invariant flash.calls >= old(flash.calls)
        invariant old(flash.Calm()) ==> flash.Calm()
        invariant old(Honest()) ==> Honest()
      {
        var copyLength := PieceLength(i);
        if i == size && copyLength == 0 { break; }
        ghost var d1, ops1 := d, flash.ops;
        NextBlank(plan, emb, d0, d, done, copyLength, clean);
        err, source, dest, d := CopyPiece(source, dest, copyLength);
        MoreOps(ops0, ops1, flash.ops, SpiFlash);
        if err != NoErr {
          StoppedCopying(plan, emb, d0, d1, d, done, copyLength, clean);
          return;
        }
        PieceCopied(plan, emb, d0, d1, d, done, copyLength, clean);
        done := done + copyLength;
        i := i + 1;
      }
      CopyingIs(plan, emb, d0, d, done, clean);
    }

    /** Initialises both devices and erases every sector of the partition. */
    method WipePartition() returns (err: Status, ghost d: seq<byte>)
      requires Valid()
      modifies flash`mem, flash`calls, flash`powered, flash`ops
      ensures Valid() && flash.mem == old(flash.mem)[SpiFlash := d]
      ensures var d0 := old(flash.mem)[SpiFlash]; Outside(d0, d, Lo(plan, |d0|), Hi(plan, |d0|))
      ensures flash.calls >= old(flash.calls) && (old(flash.powered) ==> flash.calls > old(flash.calls))
      ensures OpsOnlyOn(old(flash.ops), flash.ops, SpiFlash)
      ensures err == NoErr ==>
                && flash.powered && plan.start + plan.length <= |d| == |old(flash.mem)[SpiFlash]|
                && (old(Honest()) ==> d == Wiped(plan, old(flash.mem)[SpiFlash]))
      ensures old(flash.Calm()) ==> flash.Calm() && (Fits(plan, old(flash.mem)) ==> err == NoErr)
    {
      hide Wiped, Lo, Hi, AfterSweep, Outside;
      ghost var m0 := flash.mem;
      d := flash.mem[SpiFlash];
      NothingOutside(d, Lo(plan, |d|), Hi(plan, |d|));
      err := flash.Prepare(SpiFlash);
      if err != NoErr { return; }
      err := flash.Prepare(EmbeddedFlash);
      if err != NoErr { return; }
      if plan.start + plan.length <= |d| { SweptPlan(plan, d, flash.Next()); }
      err := flash.EraseSectors(SpiFlash, plan.start, plan.length);
      d := flash.mem[SpiFlash];
      assert flash.mem == m0[SpiFlash := d];
      if err == NoErr && !flash.powered { assert false; }
    }

    /** Erases the partition, then copies the driver into it. */
    method CopyDriver() returns (err: Status, ghost d: seq<byte>)
      requires Valid()
      modifies flash`mem, flash`calls, flash`powered, flash`ops, data
      ensures Valid() && flash.mem == old(flash.mem)[SpiFlash := d]
      ensures var d0 := old(flash.mem)[SpiFlash]; Outside(d0, d, Lo(plan, |d0|), Hi(plan, |d0|))
      ensures flash.calls >= old(flash.calls) && (old(flash.powered) ==> flash.calls > old(flash.calls))
      ensures OpsOnlyOn(old(flash.ops), flash.ops, SpiFlash)
      ensures err == NoErr ==>
                && flash.powered && TEMP + plan.length <= |flash.mem[EmbeddedFlash]|
                && (old(Honest()) && plan.start + plan.length <= |d| ==>
                      var driver := flash.mem[EmbeddedFlash][TEMP..TEMP + plan.length];
                      && d == Splice(Wiped(plan, old(flash.mem)[SpiFlash]), plan.start, driver)
                      && d[plan.start..plan.start + plan.length] == driver)
      ensures old(flash.Calm()) ==> flash.Calm() && (Fits(plan, old(flash.mem)) ==> err == NoErr)
    {
      hide InPlace, BlankIn, Wiped, Lo, Hi, Outside;
      ghost var m0 := flash.mem;
      ghost var honest := Honest();
      err, d := WipePartition();
      if err != NoErr { return; }
      ghost var d1 := d;
      WipedIs(plan, m0[SpiFlash]);
      err, d := CopyPieces();
      assert flash.mem == m0[SpiFlash := d];
      OutsideWidens(m0[SpiFlash], d1, d, Lo(plan, |d1|), Hi(plan, |d1|), plan.start, plan.start + plan.length);
      if err == NoErr && honest { CopyIs(d1, d, plan.start, m0[EmbeddedFlash][TEMP..TEMP + plan.length]); }
    }

    /** Runs the CRC-8 over the partition, read back piece by piece. */
    method VerifyDriver() returns (err: Status, crc: int)
      requires Valid()
      modifies flash`calls, flash`powered, data
      ensures Valid() && flash.calls >= old(flash.calls)
      ensures err == NoErr && plan.length > 0 ==> plan.start + plan.length <= |flash.mem[SpiFlash]|
      ensures err == NoErr && plan.start + plan.length <= |flash.mem[SpiFlash]| ==>
                crc == Fold(plan.step, 0, flash.mem[SpiFlash][plan.start..plan.start + plan.length])
      ensures old(flash.Calm()) ==> flash.Calm() && (plan.start + plan.length <= |flash.mem[SpiFlash]| ==> err == NoErr)
    {
      ghost var d := flash.mem[SpiFlash];
      err, crc := NoErr, 0;
      var size, i, dest := plan.length / CHUNK, 0, plan.start;
      ghost var done := 0;
      while i <= size
        invariant 0 <= i <= size + 1 && err == NoErr && Valid()
        invariant done == (if i <= size then i * CHUNK else plan.length) <= plan.length && dest == plan.start + done
        invariant done > 0 ==> dest <= |d|
        invariant dest <= |d| ==> crc == Fold(plan.step, 0, d[plan.start..dest])
        invariant flash.calls >= old(flash.calls)
        invariant old(flash.Calm()) ==> flash.Calm()
      {
        var copyLength := PieceLength(i);
        if i == size && copyLength == 0 { break; }
        ghost var at, before := dest, crc;
        err, dest := flash.Read(SpiFlash, dest, data, copyLength);
        if err != NoErr { return; }
        crc := Crc8(crc, copyLength);
        PieceFolded(plan, d, at, dest);
        done := done + copyLength;
        i := i + 1;
      }
    }

    /** Clears the copy flag by erasing its sector. */
    method ClearFlag() returns (err: Status, ghost e: seq<byte>)
      requires Valid()
      modifies flash`mem, flash`calls, flash`powered, flash`ops
      ensures Valid() && flash.mem == old(flash.mem)[EmbeddedFlash := e] && flash.calls >= old(flash.calls)
      ensures Outside(old(flash.mem)[EmbeddedFlash], e, FLAG, FLAG + SECTOR)
      ensures flash.ops == old(flash.ops) + [Erased(EmbeddedFlash, FLAG, 1)]
              || (flash.ops == old(flash.ops) && e == old(flash.mem)[EmbeddedFlash])
      ensures old(flash.Calm()) ==>
                flash.Calm() && err == NoErr && e == Splice(old(flash.mem)[EmbeddedFlash], FLAG, Blank(SECTOR))
    {
      ghost var o := flash.Next();
      e := flash.mem[EmbeddedFlash];
      FlagSwept(flash.sectors(EmbeddedFlash), e, o);
      err := flash.EraseSectors(EmbeddedFlash, FLAG, 1);
      e := flash.mem[EmbeddedFlash];
    }

    /** `init_platform_bootloader`, from the test of the flag on. */
    method Boot() returns (end: End)
      requires Valid()
      modifies flash`mem, flash`calls, flash`powered, flash`ops, data
      ensures Valid() && flash.calls >= old(flash.calls) && old(flash.ops) <= flash.ops
      ensures old(Flag(flash.mem)) != 0 ==> end == Skipped && flash.mem == old(flash.mem) && flash.ops == old(flash.ops)
      ensures old(Flag(flash.mem)) == 0 && old(flash.powered) ==> flash.calls > old(flash.calls)
      ensures Spared(plan, old(flash.mem), flash.mem)
      // whatever the device does, the flag is touched only over a partition that has the stored checksum
      ensures forall k :: |old(flash.ops)| <= k < |flash.ops| && flash.ops[k].area == EmbeddedFlash ==>
                flash.ops[k] == Erased(EmbeddedFlash, FLAG, 1)
                && (plan.start + plan.length <= |flash.mem[SpiFlash]| ==> Matches(plan, flash.mem))
      ensures flash.mem[EmbeddedFlash] != old(flash.mem)[EmbeddedFlash] ==>
                flash.ops != old(flash.ops) && flash.ops[|flash.ops| - 1].area == EmbeddedFlash
      // and, unless writes can fail unnoticed, only over a faithful copy
      ensures old(Honest()) && Fits(plan, old(flash.mem))
                && flash.mem[EmbeddedFlash] != old(flash.mem)[EmbeddedFlash] ==>
                Copied(plan, flash.mem) == Driver(plan, old(flash.mem))
      ensures old(flash.Calm()) && Fits(plan, old(flash.mem)) ==>
                flash.Calm() && (end, flash.mem) == CalmBoot(plan, old(flash.mem))
    {
      ghost var m0 := flash.mem;
      var isDriverNeedCopy, crcResult := flash.mem[EmbeddedFlash][FLAG], flash.mem[EmbeddedFlash][TEMP_END];
      if isDriverNeedCopy != 0 { return Skipped; }
      ghost var honest := Honest();
      ghost var d;
      var err;
      err, d := CopyDriver();
      if err != NoErr { return Stopped(err); }
      var targetCrcResult;
      err, targetCrcResult := VerifyDriver();
      if err != NoErr { return Stopped(err); }
      if crcResult != targetCrcResult { return Halted; }
      ghost var e;
      err, e := ClearFlag();
      end := if err == NoErr then Committed else Stopped(err);
    }
  }

  /** How a boot ends; `Halted` is the endless loop after a checksum error. */
  datatype End = Skipped | Stopped(err: Status) | Halted | Committed

  /** A boot may change only the sectors of the RF partition and the sector of the flag. */
  ghost predicate Spared(p: Plan, m0: Devices, m: Devices) {
    && Fitted(m0) && Fitted(m) && m.Keys == m0.Keys
    && (forall a :: a in m && a != EmbeddedFlash && a != SpiFlash ==> m[a] == m0[a])
    && Outside(m0[EmbeddedFlash], m[EmbeddedFlash], FLAG, FLAG + SECTOR)
    && Outside(m0[SpiFlash], m[SpiFlash], Lo(p, |m0[SpiFlash]|), Hi(p, |m0[SpiFlash]|))
  }

  /** A boot during which no flash call fails. */
  function CalmBoot(p: Plan, m: Devices): (End, Devices)
    requires Fits(p, m)
  {
    var m1 := m[SpiFlash := Splice(Wiped(p, m[SpiFlash]), p.start, Driver(p, m))];
    if Flag(m) != 0 then (Skipped, m)
    else if Fold(p.step, 0, Driver(p, m)) != Stored(m) then (Halted, m1)
    else (Committed, m1[EmbeddedFlash := Splice(m[EmbeddedFlash], FLAG, Blank(SECTOR))])
  }

  lemma PieceFolded(p: Plan, d: seq<byte>, at: nat, to: nat)
    requires p.start <= at <= to <= |d|
    ensures Fold(p.step, 0, d[p.start..to]) == Fold(p.step, Fold(p.step, 0, d[p.start..at]), d[at..to])
  {
    FoldConcat(p.step, 0, d[p.start..at], d[at..to]);
    assert d[p.start..to] == d[p.start..at] + d[at..to];
  }

  lemma OutsideWidens(d0: seq<byte>, d1: seq<byte>, d: seq<byte>, lo: nat, hi: nat, lo': nat, hi': nat)
    requires Outside(d0, d1, lo, hi) && Outside(d1, d, lo', hi') && lo <= lo' && hi' <= hi
    ensures Outside(d0, d, lo, hi) && |d| == |d0|
  { }

  lemma PieceInPlace(emb: seq<byte>, d1: seq<byte>, d: seq<byte>, start: nat, done: nat, len: nat, length: nat)
    requires TEMP + done + len <= |emb| && start + done + len <= start + length <= |d1|
    requires InPlace(emb[TEMP..TEMP + done], d1, start, done) && Outside(d1, d, start + done, start + done + len)
    requires InPlace(emb[TEMP + done..TEMP + done + len], d, start + done, len)
    requires BlankIn(d1, start + done, start + length)
    ensures InPlace(emb[TEMP..TEMP + done + len], d, start, done + len)
    ensures BlankIn(d, start + done + len, start + length)
  {
    var image := emb[TEMP..TEMP + done + len];
    forall i | start <= i < start + done + len ensures d[i] == image[i - start] {
      if i < start + done {
        assert d1[i] == emb[TEMP..TEMP + done][i - start];
      } else {
        assert d[i] == emb[TEMP + done..TEMP + done + len][i - (start + done)];
      }
    }
  }

  /** The copy loop after `done` bytes: only the partition has changed; over blank cells, and with no
      write failing unnoticed, the front of the driver is in place and the rest still blank. */
  ghost predicate Copying(p: Plan, emb: seq<byte>, d0: seq<byte>, d: seq<byte>, done: nat, clean: bool) {
    && TEMP + done <= |emb| && done <= p.length && Outside(d0, d, p.start, p.start + p.length)
    && (clean ==>
          && InPlace(emb[TEMP..TEMP + done], d, p.start, done)
          && BlankIn(d, p.start + done, p.start + p.length))
  }

  lemma NothingCopied(p: Plan, emb: seq<byte>, d: seq<byte>, clean: bool)
    requires TEMP <= |emb| && (clean ==> BlankIn(d, p.start, p.start + p.length))
    ensures Copying(p, emb, d, d, 0, clean)
  { }

  lemma CopyingIs(p: Plan, emb: seq<byte>, d0: seq<byte>, d: seq<byte>, done: nat, clean: bool)
    requires Copying(p, emb, d0, d, done, clean)
    ensures TEMP + done <= |emb| && |d| == |d0| && Outside(d0, d, p.start, p.start + p.length)
    ensures clean ==> InPlace(emb[TEMP..TEMP + done], d, p.start, done)
  {
    hide InPlace, BlankIn;
  }

  /** The next piece goes to blank cells of the partition. */
  lemma NextBlank(p: Plan, emb: seq<byte>, d0: seq<byte>, d: seq<byte>, done: nat, len: nat, clean: bool)
    requires Copying(p, emb, d0, d, done, clean) && done + len <= p.length
    ensures |d| == |d0| && (clean ==> BlankIn(d, p.start + done, p.start + done + len))
  {
    hide InPlace;
  }

  lemma PieceCopied(p: Plan, emb: seq<byte>, d0: seq<byte>, d1: seq<byte>, d: seq<byte>, done: nat, len: nat,
      clean: bool)
    requires Copying(p, emb, d0, d1, done, clean) && done + len <= p.length && p.start + p.length <= |d0|
    requires Outside(d1, d, p.start + done, p.start + done + len) && TEMP + done + len <= |emb|
    requires clean ==> InPlace(emb[TEMP + done..TEMP + done + len], d, p.start + done, len)
    ensures Copying(p, emb, d0, d, done + len, clean)
  {
    hide InPlace, BlankIn, Outside;
    OutsideWidens(d0, d1, d, p.start, p.start + p.length, p.start + done, p.start + done + len);
    NextBlank(p, emb, d0, d1, done, len, clean);
    if clean { PieceInPlace(emb, d1, d, p.start, done, len, p.length); }
  }

  lemma StoppedCopying(p: Plan, emb: seq<byte>, d0: seq<byte>, d1: seq<byte>, d: seq<byte>, done: nat, len: nat,
      clean: bool)
    requires Copying(p, emb, d0, d1, done, clean) && done + len <= p.length
    requires Outside(d1, d, p.start + done, p.start + done + len)
    ensures Outside(d0, d, p.start, p.start + p.length)
  {
    hide InPlace, BlankIn, Outside;
    OutsideWidens(d0, d1, d, p.start, p.start + p.length, p.start + done, p.start + done + len);
  }

  // ---- over any number of boots ----

  /** The flag is still up, or the driver is in place; nothing else has moved. */
  ghost predicate Safe(p: Plan, m0: Devices, m: Devices) {
    && Fits(p, m0) && Spared(p, m0, m)
    && (Flag(m) != 0 ==> Copied(p, m) == Driver(p, m0) && Matches(p, m))
  }

  /** What one boot may leave, whatever the device does short of failing unnoticed. */
  ghost predicate BootEffect(p: Plan, m0: Devices, m: Devices) {
    && Spared(p, m0, m) && (Fitted(m0) && Flag(m0) != 0 ==> m == m0)
    && (Fits(p, m0) && m[EmbeddedFlash] != m0[EmbeddedFlash] ==> Copied(p, m) == Driver(p, m0) && Matches(p, m))
  }

  /** The staged driver and its checksum lie outside the flag's sector. */
  lemma SourceSpared(p: Plan, m0: Devices, m: Devices)
    requires Spared(p, m0, m) && Fits(p, m0)
    ensures Fits(p, m) && Driver(p, m) == Driver(p, m0) && Stored(m) == Stored(m0)
  {
    var e0, e := m0[EmbeddedFlash], m[EmbeddedFlash];
    assert forall i :: TEMP <= i < TEMP + p.length ==> e[i] == e0[i];
  }

  /** A boot cut short anywhere keeps the copy redoable, and a finished copy finished. */
  lemma BootKeepsSafe(p: Plan, m0: Devices, m1: Devices, m2: Devices)
    requires Safe(p, m0, m1) && BootEffect(p, m1, m2)
    ensures Safe(p, m0, m2)
  {
    SourceSpared(p, m0, m1);
    SourceSpared(p, m1, m2);
  }

  /** Any number of boots, each cut short anywhere. */
  lemma {:induction false} BootsKeepSafe(p: Plan, m0: Devices, ms: seq<Devices>)
    requires |ms| > 0 && Safe(p, m0, ms[0])
    requires forall k :: 0 <= k < |ms| - 1 ==> BootEffect(p, ms[k], ms[k + 1])
    ensures Safe(p, m0, ms[|ms| - 1])
    decreases |ms|
  {
    if |ms| > 1 {
      var front := ms[..|ms| - 1];
      BootsKeepSafe(p, m0, front);
      BootKeepsSafe(p, m0, front[|front| - 1], ms[|ms| - 1]);
    }
  }

  /** A boot left alone commits exactly when the staged driver has the stored checksum. With a
      wrong one it copies and then hangs, leaving the flag up for ever. */
  lemma CalmBootCommitsIff(p: Plan, m0: Devices, m: Devices)
    requires Safe(p, m0, m)
    ensures var (end, m') := CalmBoot(p, m);
            && Safe(p, m0, m') && Copied(p, m') == Driver(p, m0)
            && (Flag(m') != 0 <==> Flag(m) != 0 || Fold(p.step, 0, Driver(p, m0)) == Stored(m0))
            && (end == Halted <==> Flag(m') == 0)
  {
    SourceSpared(p, m0, m);
    var (end, m') := CalmBoot(p, m);
    if Flag(m) == 0 {
      SpliceSlices(Wiped(p, m[SpiFlash]), p.start, Driver(p, m));
      assert Copied(p, m') == Driver(p, m);
      SourceSpared(p, m, m');
    }
  }

  /** What a boot that is left alone leaves in every cell. */
  lemma CalmBootCells(p: Plan, m: Devices)
    requires Fits(p, m)
    ensures var (end, m') := CalmBoot(p, m);
            var (e, e', d, d') := (m[EmbeddedFlash], m'[EmbeddedFlash], m[SpiFlash], m'[SpiFlash]);
            var (up, right) := (e[0x8000] == 0, Fold(p.step, 0, e[0x4_0000..0x4_0000 + p.length]) == e[0x7_FFFF]);
            var (lo, hi) := Reach(p.sectors, p.start, p.length, |d|);
            && end == (if !up then Skipped else if right then Committed else Halted)
            && |d'| == |d| && |e'| == |e| && m'.Keys == m.Keys
            && (forall i :: 0 <= i < |d| ==>
                  d'[i] == if !up then d[i]
                           else if p.start <= i < p.start + p.length then e[0x4_0000 + (i - p.start)]
                           else if lo <= i < hi then 0xFF else d[i])
            && (forall i :: 0 <= i < |e| ==> e'[i] == if up && right && 0x8000 <= i < 0xC000 then 0xFF else e[i])
            && (forall a :: a in m && a != EmbeddedFlash && a != SpiFlash ==> m'[a] == m[a])
  {
    hide Fold, Reach;
  }

  /** Boot after boot, each cut short wherever the script says: enough of them always end with
      the driver in place, and with the flag down exactly when its checksum is right. */
  method PowerCycles(copier: Copier, boots: nat)
    requires copier.Valid() && OnlyPowerFails(copier.flash.script) && Fits(copier.plan, copier.flash.mem)
    requires Flag(copier.flash.mem) == 0
    modifies copier.flash, copier.data
    ensures Safe(copier.plan, old(copier.flash.mem), copier.flash.mem)
    ensures boots > |copier.flash.script| ==>
              && Copied(copier.plan, copier.flash.mem) == Driver(copier.plan, old(copier.flash.mem))
              && (Flag(copier.flash.mem) != 0 <==>
                    Fold(copier.plan.step, 0, Driver(copier.plan,
                        old(copier.flash.mem))) == Stored(old(copier.flash.mem)))
  {
    ghost var m0, size := copier.flash.mem, |copier.flash.script|;
    var n := 0;
    while n < boots
      invariant n <= boots && copier.Valid() && Safe(copier.plan, m0, copier.flash.mem)
      invariant Flag(copier.flash.mem) == 0 ==> copier.flash.calls >= n
      invariant n > size ==> Settled(copier.plan, m0, copier.flash.mem)
    {
      ghost var m := copier.flash.mem;
      copier.flash.PowerOn();
      SourceSpared(copier.plan, m0, m);
      CalmBootCommitsIff(copier.plan, m0, m);
      var end := copier.Boot();
      BootKeepsSafe(copier.plan, m0, m, copier.flash.mem);
      n := n + 1;
    }
  }

  /** Nothing is left to do, or nothing can be done. */
  ghost predicate Settled(p: Plan, m0: Devices, m: Devices) {
    Fits(p, m0) && Fits(p, m) && Copied(p, m) == Driver(p, m0)
        && (Flag(m) != 0 <==> Fold(p.step, 0, Driver(p, m0)) == Stored(m0))
  }
}
