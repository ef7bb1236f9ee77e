/** Installing a staged image: `Bootloader/Update_for_OTA.c`. */
module Update {
  import opened Bytes
  import opened FlashMemory
  import opened BootTable
  import opened Checksums

  /** `v` with its first bytes replaced. */
  function Overlay(front: seq<byte>, v: seq<byte>): (r: seq<byte>)
    requires |front| <= |v|
    ensures |r| == |v|
  {
    front + v[|front|..]
  }

  /** How many pieces `length` bytes are read in. */
  function Pieces(length: nat): nat { (length + CHUNK - 1) / CHUNK }

  lemma NoPieces()
    ensures Pieces(0) == 0
  { }

  lemma MorePieces(offset: nat, len: nat, length: nat)
    requires offset % CHUNK == 0 && offset + len <= length && 0 < len <= CHUNK
    ensures Pieces(offset + len) == Pieces(offset) + 1 && Pieces(offset) < Pieces(length)
    ensures len == CHUNK ==> (offset + len) % CHUNK == 0
  { }

  /** One of the reads through which the CRC of `length` bytes is taken, from call `first` on, is refused. */
  ghost predicate CrcReadRefused(script: Script, first: nat, length: nat) {
    exists c :: first <= c < first + Pieces(length) && RefusedAt(script, c)
  }

  /** How far a copy of `image` into `d` has come; `clean` when the rest of `d` is known blank. */
  ghost predicate CopiedTo(image: seq<byte>, d: seq<byte>, at: nat, clean: bool) {
    && at <= |image| && at <= |d| && d[..at] == image[..at]
    && (clean ==> d[at..] == Blank(|d| - at))
  }

  /** What one good chunk does. */
  ghost predicate ChunkCopied(image: seq<byte>, d1: seq<byte>, d2: seq<byte>, at: nat, to: nat) {
    && at <= to <= |image| && to <= |d1| == |d2|
    && d2[..at] == d1[..at] && d2[at..to] == image[at..to] && d2[to..] == d1[to..]
  }

  lemma CopyAdvances(image: seq<byte>, d1: seq<byte>, d2: seq<byte>, at: nat, to: nat, clean: bool)
    requires CopiedTo(image, d1, at, clean) && ChunkCopied(image, d1, d2, at, to)
    ensures CopiedTo(image, d2, to, clean)
  {
    assert d2[..to] == d2[..at] + d2[at..to];
    assert image[..to] == image[..at] + image[at..to];
    if clean { assert d1[to..] == d1[at..][to - at..]; }
  }

  /** The whole chunks of the staging area, and blank after them. */
  function Truncated(image: seq<byte>, length: nat): seq<byte> {
    var k := |image| / CHUNK * CHUNK;
    if k <= length then image[..k] + Blank(length - k) else image
  }

  /** A copy that fails at the first chunk the staging area cannot supply. */
  lemma StoppedShort(image: seq<byte>, d: seq<byte>, i: nat, len: nat)
    requires CopiedTo(image, d, i * CHUNK, true) && len <= CHUNK && i * CHUNK + len > |image|
    ensures d == Truncated(image, |d|)
  {
    var at := i * CHUNK;
    assert |image| / CHUNK == i;
    assert d == d[..at] + d[at..];
  }

  /** A byte that is not blank after a read of `len` bytes over a blank buffer is one of the area. */
  lemma DirtyByte(area: seq<byte>, at: nat, len: nat, buf: seq<byte>, j: nat)
    requires at + len <= |area| && len <= |buf| && j < |buf| && buf[j] != BLANK
    requires buf[..len] == area[at..at + len] && buf[len..] == Blank(|buf| - len)
    ensures area != Blank(|area|)
  {
    var rest := buf[len..];
    assert forall k :: len <= k < |buf| ==> buf[k] == rest[k - len];
    if j < len { assert buf[j] == buf[..len][j] == area[at + j]; }
  }

  lemma ParametersErased(p: seq<byte>, o: Outcome)
    ensures var q := AfterErase(p, 0, |p|, o, true);
            && (o.Works? ==> q == Blank(|p|))
            && (o.PowerLost? ==> q == p || q == Blank(|p|))
            && (o.Refuses? ==> q == p)
  {
    assert p[0..|p|] == p;
    var e := EraseResult(p, o, true);
    assert Splice(p, 0, e) == e;
  }

  /** Writing `saved` back over an erased partition, where `saved` starts with a blanked record. */
  lemma WrittenBack(saved: seq<byte>, o: Outcome)
    requires |saved| >= RECORD_SIZE && saved[..RECORD_SIZE] == Blank(RECORD_SIZE)
    ensures var q := AfterWrite(Blank(|saved|), 0, saved, o);
            && (o.Works? ==> q == saved)
            && (!o.Scrambles? ==> q[..RECORD_SIZE] == Blank(RECORD_SIZE))
  {
    var before := Blank(|saved|);
    assert before[0..|saved|] == before;
    var w := WriteResult(before, saved, o);
    assert Splice(before, 0, w) == w;
    if o.PowerLost? {
      forall i | 0 <= i < RECORD_SIZE ensures w[i] == BLANK { assert saved[i] == saved[..RECORD_SIZE][i]; }
    }
    assert before[..RECORD_SIZE] == Blank(RECORD_SIZE);
  }

  /** A destination that holds the image and nothing else. */
  function Installed(image: seq<byte>, length: nat): seq<byte> {
    if |image| <= length then image + Blank(length - |image|) else image
  }

  /** What a run during which no flash call fails returns and leaves. */
  function CalmUpdate(m: Parts, otaAddress: nat): (r: (Status, Parts)) {
    if OtaTemp !in m || Parameter1 !in m then (UnsupportedErr, m)
    else if |m[Parameter1]| < RECORD_SIZE then (ParamErr, m)
    else if !Accepted(m, otaAddress) then (NoErr, m[OtaTemp := Blank(|m[OtaTemp]|)])
    else if Dest(m) !in m then (UnsupportedErr, m)
    else if ImageLength(m) <= |m[OtaTemp]| then
      (NoErr, m[Dest(m) := Installed(m[OtaTemp][..ImageLength(m)], |m[Dest(m)]|)]
               [Parameter1 := Overlay(Blank(RECORD_SIZE), m[Parameter1])]
               [OtaTemp := Blank(|m[OtaTemp]|)])
    else (ParamErr, m[Dest(m) := Truncated(m[OtaTemp], |m[Dest(m)]|)])
  }

  /** The image is in place and the record that asked for it is gone. */
  ghost predicate Cleared(m0: Parts, otaAddress: nat, m: Parts) {
    && Accepted(m0, otaAddress) && Dest(m0) in m0 && ImageLength(m0) <= |m0[OtaTemp]|
    && OnlyChanged(m0, m, {Dest(m0), Parameter1, OtaTemp})
    && m[Dest(m0)] == Installed(m0[OtaTemp][..ImageLength(m0)], |m0[Dest(m0)]|)
    && RecordOf(m) == Blank(RECORD_SIZE)
  }

  /** The parameter partition after the record. */
  function Settings(m: Parts): seq<byte> {
    if Parameter1 in m && |m[Parameter1]| >= RECORD_SIZE then m[Parameter1][RECORD_SIZE..] else []
  }

  /** The destination holds the staged image as the record measures it. */
  ghost predicate Verified(m0: Parts, otaAddress: nat, m: Parts) {
    && Accepted(m0, otaAddress) && Dest(m0) in m
    && CopiedTo(m0[OtaTemp], m[Dest(m0)], ImageLength(m0), false)
  }

  /** Everything a run may leave when only the power can fail. */
  ghost predicate PowerFailEffect(m0: Parts, otaAddress: nat, m: Parts) {
    || (Accepted(m0, otaAddress) && OnlyChanged(m0, m, {Dest(m0)}))
    || (!Accepted(m0, otaAddress) && OnlyChanged(m0, m, {OtaTemp}))
    || Cleared(m0, otaAddress, m)
  }

  /** Call `c` is one of the reads for the CRC, the first being call `first`. */
  predicate ForCrc(m: Parts, first: nat, c: nat)
    requires Ready(m)
  {
    first <= c < first + Pieces(ImageLength(m))
  }

  /** The staged image is gone. */
  function Unstaged(m: Parts): Parts {
    if OtaTemp in m then m[OtaTemp := Blank(|m[OtaTemp]|)] else m
  }

  /** Everything a run may leave when calls may also be refused, its CRC reads being those from
      call `first` on. */
  ghost predicate RefusalEffect(m0: Parts, otaAddress: nat, script: Script, first: nat, m: Parts) {
    || PowerFailEffect(m0, otaAddress, m)
    || (Accepted(m0, otaAddress) && CrcGiven(m0) && CrcReadRefused(script, first, ImageLength(m0))
        && OnlyChanged(m0, m, {OtaTemp}))
  }

  /** What the three partitions `Install` writes amount to. */
  lemma InstallEffect(m0: Parts, otaAddress: nat, d: seq<byte>, q: seq<byte>, o: seq<byte>, m: Parts)
    requires Accepted(m0, otaAddress) && Dest(m0) in m0
    requires m == m0[Dest(m0) := d][Parameter1 := q][OtaTemp := o]
    requires |d| == |m0[Dest(m0)]| && |q| == |m0[Parameter1]| && |o| == |m0[OtaTemp]|
    ensures q == m0[Parameter1] && o == m0[OtaTemp] ==> m == m0[Dest(m0) := d] && OnlyChanged(m0, m, {Dest(m0)})
    ensures CopiedTo(m0[OtaTemp], d, ImageLength(m0), true) ==> d == Installed(m0[OtaTemp][..ImageLength(m0)], |d|)
    ensures CopiedTo(m0[OtaTemp], d, ImageLength(m0), true) && q[..RECORD_SIZE] == Blank(RECORD_SIZE) ==>
              Cleared(m0, otaAddress, m)
  {
    if CopiedTo(m0[OtaTemp], d, ImageLength(m0), true) {
      assert d == d[..ImageLength(m0)] + d[ImageLength(m0)..];
    }
  }

  class Updater {
    const flash: Flash<PartitionId>
    const otaAddress: nat
    const data: array<byte>
    const newData: array<byte>
    const paraSaveInRam: array<byte>

    ghost predicate Valid() {
      && data.Length == CHUNK && newData.Length == CHUNK && paraSaveInRam.Length == 16 * 1024
      && data != newData && data != paraSaveInRam && newData != paraSaveInRam
      && Parameter1 in flash.atomic
    }

    constructor (flash: Flash<PartitionId>, otaAddress: nat)
      requires Parameter1 in flash.atomic
      ensures Valid() && this.flash == flash && this.otaAddress == otaAddress
    {
      this.flash, this.otaAddress := flash, otaAddress;
      data, newData, paraSaveInRam := new byte[CHUNK], new byte[CHUNK], new byte[16 * 1024];
    }

    /** `CRC16_Update` over the front of `data`, which holds the image from `at` on. */
    method Crc16Update(crc: int, len: nat, ghost image: seq<byte>, ghost at: nat) returns (crc': int)
      requires Valid() && len <= CHUNK && at + len <= |image| && data[..len] == image[at..at + len]
      requires crc == Fold(UpdateCrc16, 0, image[..at]) && 0 <= crc < 0x1_0000
      ensures crc' == Fold(UpdateCrc16, 0, image[..at + len]) && 0 <= crc' < 0x1_0000
    {
      hide UpdateCrc16;
      crc' := crc;
      for i := 0 to len
        invariant crc' == Fold(UpdateCrc16, 0, image[..at + i]) && 0 <= crc' < 0x1_0000
      {
        assert data[i] == data[..len][i] == image[at + i];
        FoldOne(UpdateCrc16, 0, image, at + i);
        crc' := UpdateByte(crc', data[i]);
      }
    }

    /** Reads the staged image through the CRC. The value computed never decides the result. */
    method CheckCrc(crcIn: nat, totalLength: nat) returns (err: Status, crc: int)
      requires Valid() && OtaTemp in flash.mem
      modifies flash`calls, flash`powered, data
      ensures flash.calls >= old(flash.calls)
      ensures crcIn == 0xFFFF ==> err == NoErr && flash.powered == old(flash.powered) && data[..] == old(data[..])
      ensures err == NoErr && crcIn != 0xFFFF ==>
                && totalLength <= |flash.mem[OtaTemp]|
                && crc == Crc16(flash.mem[OtaTemp][..totalLength])
      ensures err != NoErr && |flash.mem[OtaTemp]| < CHUNK ==> data[..] == old(data[..])
      ensures old(flash.Calm()) ==> flash.Calm()
      ensures old(flash.Calm()) ==> (err == NoErr <==> crcIn == 0xFFFF || totalLength <= |flash.mem[OtaTemp]|)
      ensures !old(flash.powered) ==> !flash.powered
      // one refused read is enough, and with power on nothing else makes it fail
      ensures NeverScrambles(flash.script) && err != NoErr ==>
                || !flash.powered || totalLength > |flash.mem[OtaTemp]|
                || CrcReadRefused(flash.script, old(flash.calls), totalLength)
      ensures crcIn != 0xFFFF && totalLength <= |flash.mem[OtaTemp]| ==>
                forall bad: nat :: old(flash.CalmBut(bad)) && bad < old(flash.calls) + Pieces(totalLength) ==>
                  err != NoErr && flash.Calm()
    {
      hide UpdateCrc16, NeverScrambles;
      crc, err := 0, NoErr;
      NoPieces();
      if crcIn == 0xFFFF { return; }
      var left: nat, offset: nat := totalLength, 0;
      while left > 0
        invariant left <= totalLength && offset == totalLength - left && err == NoErr
        invariant left == totalLength || left == 0 || |flash.mem[OtaTemp]| >= CHUNK
        invariant left == totalLength ==> data[..] == old(data[..])
        invariant offset <= |flash.mem[OtaTemp]|
        invariant crc == Fold(UpdateCrc16, 0, flash.mem[OtaTemp][..offset]) && 0 <= crc < 0x1_0000
        invariant old(flash.Calm()) ==> flash.Calm()
        invariant flash.calls == old(flash.calls) + Pieces(offset) && (left > 0 ==> offset % CHUNK == 0)
        invariant forall bad: nat :: old(flash.CalmBut(bad)) ==> flash.CalmBut(bad)
        invariant !old(flash.powered) ==> !flash.powered
      {
        var len := if CHUNK < left then CHUNK else left;
        ghost var before := offset;
        MorePieces(offset, len, totalLength);
        err, offset := ReadStaged(offset, len);
        if err != NoErr { return; }
        left := left - len;
        crc := Crc16Update(crc, len, flash.mem[OtaTemp], before);
      }
      ghost var calls := flash.calls;
      StillAhead();
      crc := Crc16Final(crc);
    }

    /** One read of the staging area. */
    method ReadStaged(at: nat, len: nat) returns (err: Status, offset: nat)
      requires Valid() && OtaTemp in flash.mem && 0 < len <= CHUNK
      modifies flash`calls, flash`powered, data
      ensures offset == if err == NoErr then at + len else at
      ensures err == NoErr ==>
                && at + len <= |flash.mem[OtaTemp]| && flash.calls == old(flash.calls) + 1
                && data[..len] == flash.mem[OtaTemp][at..at + len]
      ensures err != NoErr ==> data[..] == old(data[..]) && flash.calls >= old(flash.calls)
      ensures old(flash.Calm()) ==> flash.Calm() && (err == NoErr <==> at + len <= |flash.mem[OtaTemp]|)
      ensures !old(flash.powered) ==> !flash.powered
      ensures NeverScrambles(flash.script) && err != NoErr ==>
                !flash.powered || at + len > |flash.mem[OtaTemp]| || RefusedAt(flash.script, old(flash.calls))
      ensures forall bad: nat :: old(flash.CalmBut(bad)) && at + len <= |flash.mem[OtaTemp]| ==>
                if bad == old(flash.calls) then err != NoErr && flash.Calm() else err == NoErr && flash.CalmBut(bad)
    {
      err, offset := flash.Read(OtaTemp, at, data, len);
    }

    /** A refused call still to come lies ahead. */
    lemma StillAhead()
      ensures forall bad: nat :: flash.CalmBut(bad) ==> bad >= flash.calls
    { }

    /** Judges the record and names the partition it is for. */
    method UpdateLogCheck(updateLog: array<byte>) returns (log: Log, dest: PartitionId)
      requires Valid() && Ready(flash.mem)
      requires updateLog.Length == RECORD_SIZE && updateLog != data
      requires updateLog[..] == RecordOf(flash.mem)
      modifies flash`calls, flash`powered, data
      ensures flash.calls >= old(flash.calls)
      ensures updateLog[..] == old(updateLog[..])
      ensures log == NeedUpdate ==> Accepted(flash.mem, otaAddress) && dest == Dest(flash.mem)
      ensures log != NeedUpdate && |flash.mem[OtaTemp]| < CHUNK ==> data[..] == old(data[..])
      ensures old(flash.Calm()) ==> flash.Calm() && (log == NeedUpdate <==> Accepted(flash.mem, otaAddress))
      ensures !old(flash.powered) ==> !flash.powered
      ensures NeverScrambles(flash.script) && log != NeedUpdate ==>
                || !flash.powered || !Accepted(flash.mem, otaAddress)
                || (CrcGiven(flash.mem) && CrcReadRefused(flash.script, old(flash.calls), ImageLength(flash.mem)))
      ensures Accepted(flash.mem, otaAddress) && CrcGiven(flash.mem) ==>
                forall bad: nat ::
                  old(flash.CalmBut(bad)) && bad < old(flash.calls) + Pieces(ImageLength(flash.mem)) ==>
                  log != NeedUpdate && flash.Calm()
    {
      log, dest := NotExist, Ate;
      ghost var r := updateLog[..];
      var b := ParseRecord(updateLog[..]);
      var i := 0;
      while i < RECORD_SIZE
        invariant 0 <= i <= RECORD_SIZE
        invariant forall j :: 0 <= j < i ==> updateLog[j] == BLANK
      {
        if updateLog[i] != BLANK { break; }
        i := i + 1;
      }
      if i == RECORD_SIZE {
        assert updateLog[..] == Blank(RECORD_SIZE);
        return;
      }
      assert updateLog[..] != Blank(RECORD_SIZE) by { assert updateLog[..][i] != BLANK; }
      if b.upgradeType != 85 { log := UpdateTagNotExist; return; }
      if b.startAddress != otaAddress { log := StartAddressError; return; }
      if !KnownKind(b.kind) { log := ContentTypeNotExist; return; }
      dest := Target(b.kind);
      if b.length > |Content(flash.mem, dest)| { log := DataLengthOverFlow; return; }
      assert Classify(flash.mem, otaAddress, r) == NeedUpdate;
      var err, _ := CheckCrc(b.crc, b.length);
      assert updateLog[..] == r;
      log := if err == NoErr then NeedUpdate else CrcError;
    }

    /** No valid record: erase the staging area unless it is blank already. */
    method EraseStaging() returns (err: Status, ghost o: seq<byte>)
      requires Valid() && OtaTemp in flash.mem
      requires data[..] == Blank(CHUNK) || |flash.mem[OtaTemp]| >= CHUNK
      modifies flash`mem, flash`calls, flash`powered, flash`ops, data
      ensures flash.calls >= old(flash.calls)
      ensures flash.mem == old(flash.mem)[OtaTemp := o] && |o| == |old(flash.mem)[OtaTemp]|
      ensures !old(flash.powered) ==> !flash.powered && flash.mem == old(flash.mem)
      ensures old(flash.mem[OtaTemp]) == Blank(|old(flash.mem[OtaTemp])|) ==>
                flash.mem == old(flash.mem) && flash.ops == old(flash.ops)
      ensures flash.ops == old(flash.ops) || flash.ops == old(flash.ops) + [Erased(OtaTemp, 0, |flash.mem[OtaTemp]|)]
      ensures old(flash.Calm()) ==>
                && flash.Calm() && err == NoErr && o == Blank(|o|)
                && (flash.mem != old(flash.mem) ==> flash.ops != old(flash.ops))
    {
      err, o := NoErr, flash.mem[OtaTemp];
      ghost var image := o;
      var length := |flash.mem[OtaTemp]|;
      var size, offset, i := length / CHUNK, 0, 0;
      while i <= size
        invariant 0 <= i <= size + 1
        invariant offset == if i <= size then i * CHUNK else length
        invariant image[..offset] == Blank(offset)
        invariant i > 0 || length < CHUNK ==> data[..] == Blank(CHUNK)
        invariant flash.mem == old(flash.mem) && flash.ops == old(flash.ops)
        invariant !old(flash.powered) ==> !flash.powered
        invariant old(flash.Calm()) ==> flash.Calm()
        invariant flash.calls >= old(flash.calls)
        invariant err == NoErr
      {
        var len := if i == size then length % CHUNK else CHUNK;
        ghost var before, rest := offset, data[len..];
        assert rest == Blank(CHUNK - len);
        err, offset := flash.Read(OtaTemp, offset, data, len);
        if err != NoErr { return; }
        assert data[len..] == rest && data[..len] == image[before..before + len];
        var j := 0;
        while j < CHUNK
          invariant 0 <= j <= CHUNK
          invariant forall k :: 0 <= k < j ==> data[k] == BLANK
        {
          if data[j] != BLANK {
            DirtyByte(image, before, len, data[..], j);
            err := flash.Prepare(OtaTemp);
            if err != NoErr { return; }
            WholeSwept(image, flash.sectors(OtaTemp), flash.Next(), OtaTemp in flash.atomic);
            err := flash.Erase(OtaTemp, 0, length);
            o := flash.mem[OtaTemp];
            return;
          }
          j := j + 1;
        }
        assert data[..] == Blank(CHUNK);
        i := i + 1;
      }
      assert image == image[..length];
    }

    /** One chunk: read it, write it, read it back and compare. */
    method CopyChunk(dest: PartitionId, at: nat, copyLength: nat)
      returns (err: Status, offset: nat, destOffset: nat, ghost d: seq<byte>)
      requires Valid() && flash.powered && OtaTemp in flash.mem && dest in flash.mem && dest !in {OtaTemp, Parameter1}
      requires 0 < copyLength <= CHUNK && at + copyLength <= |flash.mem[dest]|
      modifies flash`mem, flash`calls, flash`powered, flash`ops, data, newData
      ensures flash.calls >= old(flash.calls)
      ensures flash.mem == old(flash.mem)[dest := d] && |d| == |old(flash.mem)[dest]|
      ensures OpsOnlyOn(old(flash.ops), flash.ops, dest)
      ensures err == NoErr ==>
                && flash.powered && offset == destOffset == at + copyLength
                && ChunkCopied(flash.mem[OtaTemp], old(flash.mem)[dest], d, at, offset)
      ensures old(flash.Calm()) && old(flash.mem)[dest][at..at + copyLength] == Blank(copyLength) ==>
                && flash.Calm()
                && (err == NoErr <==> at + copyLength <= |flash.mem[OtaTemp]|)
                && (err != NoErr ==> err == ParamErr && d == old(flash.mem)[dest])
    {
      hide AfterWrite, AfterHalt, Halted, LosesBits, Moved;
      offset, destOffset := at, at;
      ghost var image := flash.mem[OtaTemp];
      d := flash.mem[dest];
      err, offset := flash.Read(OtaTemp, offset, data, copyLength);
      if err != NoErr { return; }
      assert data[..copyLength] == image[at..at + copyLength];
      if !flash.powered { assert false; }
      ChunkWritten(d, at, image[at..at + copyLength], flash.Next());
      BlankLosesNothing(image[at..at + copyLength]);
      err, destOffset := flash.Write(dest, destOffset, data, copyLength);
      d := flash.mem[dest];
      if err != NoErr { return; }
      destOffset := destOffset - copyLength;
      err, destOffset := flash.Read(dest, destOffset, newData, copyLength);
      if err != NoErr { return; }
      if data[..copyLength] != newData[..copyLength] { err := WriteErr; }
    }

    /** Copies the image into the erased destination chunk by chunk. */
    method CopyChunks(dest: PartitionId, length: nat) returns (err: Status, ghost d: seq<byte>)
      requires Valid() && flash.powered && OtaTemp in flash.mem && dest in flash.mem && dest !in {OtaTemp, Parameter1}
      requires length <= |flash.mem[dest]|
      modifies flash`mem, flash`calls, flash`powered, flash`ops, data, newData
      ensures flash.calls >= old(flash.calls)
      ensures flash.mem == old(flash.mem)[dest := d] && |d| == |old(flash.mem)[dest]|
      ensures OpsOnlyOn(old(flash.ops), flash.ops, dest)
      ensures err == NoErr ==>
                && flash.powered
                && CopiedTo(flash.mem[OtaTemp], d, length, old(flash.mem)[dest] == Blank(|d|))
      ensures old(flash.Calm()) && old(flash.mem)[dest] == Blank(|d|) ==>
                && flash.Calm()
                && (err == NoErr <==> length <= |flash.mem[OtaTemp]|)
                && (err != NoErr ==> err == ParamErr && d == Truncated(flash.mem[OtaTemp], |d|))
    {
      hide ChunkCopied, Truncated;
      ghost var image, m0, ops0 := flash.mem[OtaTemp], flash.mem, flash.ops;
      d := flash.mem[dest];
      ghost var clean := d == Blank(|d|);
      ghost var calm := clean && flash.Calm();
      err := NoErr;
      var size, i, offset, destOffset := length / CHUNK, 0, 0, 0;
      while i <= size
        invariant 0 <= i <= size + 1
        invariant err == NoErr && flash.powered
        invariant offset == destOffset == if i <= size then i * CHUNK else length
        invariant flash.mem == m0[dest := d] && |d| == |m0[dest]|
        invariant CopiedTo(image, d, offset, clean) && OpsOnlyOn(ops0, flash.ops, dest)
        invariant calm ==> flash.Calm()
        invariant flash.calls >= old(flash.calls)
      {
        var copyLength := CHUNK;
        if i == size {
          if length % CHUNK == 0 { break; }
          copyLength := length % CHUNK;
        }
        ghost var at, d1 := offset, d;
        assert at + copyLength == if i == size then length else (i + 1) * CHUNK;
        if clean { BlankSlice(d1, at, at + copyLength); }
        err, offset, destOffset, d := CopyChunk(dest, offset, copyLength);
        assert m0[dest := d1][dest := d] == m0[dest := d];
        if err != NoErr {
          if calm { StoppedShort(image, d, i, copyLength); }
          return;
        }
        CopyAdvances(image, d1, d, at, offset, clean);
        i := i + 1;
      }
    }

    /** Erases the destination, then copies. An image longer than the staging area is
        found out only after the erase. */
    method CopyImage(dest: PartitionId, length: nat) returns (err: Status, ghost d: seq<byte>)
      requires Valid() && OtaTemp in flash.mem && dest in flash.mem && dest !in {OtaTemp, Parameter1}
      requires length <= |flash.mem[dest]|
      modifies flash`mem, flash`calls, flash`powered, flash`ops, data, newData
      ensures flash.calls >= old(flash.calls)
      ensures flash.mem == old(flash.mem)[dest := d] && |d| == |old(flash.mem)[dest]|
      ensures OpsOnlyOn(old(flash.ops), flash.ops, dest)
      ensures !old(flash.powered) ==> err != NoErr && !flash.powered && d == old(flash.mem)[dest]
      ensures err == NoErr ==>
                && flash.powered
                && CopiedTo(flash.mem[OtaTemp], d, length, NeverScrambles(flash.script))
      ensures old(flash.Calm()) ==>
                && flash.Calm()
                && (err == NoErr <==> length <= |flash.mem[OtaTemp]|)
                && (err == NoErr ==> CopiedTo(flash.mem[OtaTemp], d, length, true))
                && (err != NoErr ==> err == ParamErr && d == Truncated(flash.mem[OtaTemp], |d|))
    {
      d := flash.mem[dest];
      ghost var m0 := flash.mem;
      err := flash.Prepare(dest);
      if err != NoErr { return; }
      ghost var o := flash.Next();
      WholeSwept(d, flash.sectors(dest), o, dest in flash.atomic);
      err := flash.Erase(dest, 0, |flash.mem[dest]|);
      if |d| > 0 {
        assert d[0..|d|] == d;
        d := AfterErase(d, 0, |d|, o, dest in flash.atomic);
        assert o.Works? ==> d == Blank(|d|);
      }
      assert flash.mem == m0[dest := d];
      if err != NoErr { return; }
      if !flash.powered { assert false; }
      err, d := CopyChunks(dest, length);
      assert flash.mem == m0[dest := d];
    }

    /** Saves the parameter partition in RAM with the record blanked. */
    method SaveParameters() returns (err: Status)
      requires Valid() && Parameter1 in flash.mem && RECORD_SIZE <= |flash.mem[Parameter1]| <= paraSaveInRam.Length
      modifies flash`calls, flash`powered, paraSaveInRam
      ensures flash.calls >= old(flash.calls)
      ensures err == NoErr ==>
                paraSaveInRam[..|flash.mem[Parameter1]|] == Overlay(Blank(RECORD_SIZE), flash.mem[Parameter1])
      ensures NeverScrambles(flash.script) && err == NoErr ==> flash.powered
      ensures old(flash.Calm()) ==> flash.Calm() && err == NoErr
    {
      var length := |flash.mem[Parameter1]|;
      err := flash.Prepare(Parameter1);
      if err != NoErr { return; }
      var paraOffset;
      err, paraOffset := flash.Read(Parameter1, 0, paraSaveInRam, length);
      if err != NoErr { return; }
      assert paraSaveInRam[..length] == flash.mem[Parameter1];
      forall i | 0 <= i < RECORD_SIZE { paraSaveInRam[i] := BLANK; }
    }

    /** Blanks the record by saving, erasing and rewriting its partition. */
    method ClearRecord() returns (err: Status, ghost q: seq<byte>)
      requires Valid() && Parameter1 in flash.mem && RECORD_SIZE <= |flash.mem[Parameter1]| <= paraSaveInRam.Length
      modifies flash`mem, flash`calls, flash`powered, flash`ops, paraSaveInRam
      ensures flash.calls >= old(flash.calls)
      ensures flash.mem == old(flash.mem)[Parameter1 := q] && |q| == |old(flash.mem)[Parameter1]|
      ensures OpsOnlyOn(old(flash.ops), flash.ops, Parameter1)
      ensures NeverScrambles(flash.script) && q != old(flash.mem)[Parameter1] ==> q[..RECORD_SIZE] == Blank(RECORD_SIZE)
      ensures NeverScrambles(flash.script) && err == NoErr ==> q[..RECORD_SIZE] == Blank(RECORD_SIZE)
      ensures OnlyPowerFails(flash.script) && flash.powered ==>
                q[RECORD_SIZE..] == old(flash.mem)[Parameter1][RECORD_SIZE..]
      ensures old(flash.Calm()) ==> flash.Calm() && err == NoErr
      ensures old(flash.Calm()) ==> q == Overlay(Blank(RECORD_SIZE), old(flash.mem)[Parameter1])
    {
      ghost var m0 := flash.mem;
      ghost var p0 := flash.mem[Parameter1];
      q := p0;
      var length := |flash.mem[Parameter1]|;
      err := SaveParameters();
      if err != NoErr { return; }
      ghost var saved := paraSaveInRam[..length];
      ghost var o1 := flash.Next();
      WholeSwept(p0, flash.sectors(Parameter1), o1, true);
      err := flash.Erase(Parameter1, 0, length);
      q := flash.mem[Parameter1];
      ParametersErased(p0, o1);
      assert flash.mem == m0[Parameter1 := q];
      if err != NoErr { return; }
      err := WriteBack(length);
      q := flash.mem[Parameter1];
      assert flash.mem == m0[Parameter1 := q];
    }

    /** Writes the saved parameters back. */
    method WriteBack(length: nat) returns (err: Status)
      requires Valid() && Parameter1 in flash.mem && RECORD_SIZE <= length <= paraSaveInRam.Length
      requires length == |flash.mem[Parameter1]| && paraSaveInRam[..RECORD_SIZE] == Blank(RECORD_SIZE)
      modifies flash`mem, flash`calls, flash`powered, flash`ops
      ensures flash.calls >= old(flash.calls) && OpsOnlyOn(old(flash.ops), flash.ops, Parameter1)
      ensures Parameter1 in flash.mem && |flash.mem[Parameter1]| == length
      ensures flash.mem == old(flash.mem)[Parameter1 := flash.mem[Parameter1]]
      ensures !old(flash.powered) ==> err != NoErr && flash.mem == old(flash.mem) && !flash.powered
      ensures NeverScrambles(flash.script) && old(flash.mem)[Parameter1] == Blank(length) ==>
                flash.mem[Parameter1][..RECORD_SIZE] == Blank(RECORD_SIZE)
      ensures OnlyPowerFails(flash.script) && old(flash.mem)[Parameter1] == Blank(length) && flash.powered ==>
                flash.mem[Parameter1] == paraSaveInRam[..length]
      ensures old(flash.Calm()) && old(flash.mem)[Parameter1] == Blank(length) ==>
                flash.Calm() && err == NoErr && flash.mem[Parameter1] == paraSaveInRam[..length]
    {
      hide AfterWrite, AfterHalt, Halted, LosesBits, Moved;
      ghost var saved := paraSaveInRam[..length];
      assert saved[..RECORD_SIZE] == paraSaveInRam[..RECORD_SIZE];
      BlankLosesNothing(saved);
      assert Blank(length)[0..0 + length] == Blank(length);
      WrittenBack(saved, flash.Next());
      var paraOffset;
      err, paraOffset := flash.Write(Parameter1, 0, paraSaveInRam, length);
    }

    /** The accepted path: copy, clear the record, erase the staging area. */
    method Install(dest: PartitionId, length: nat) returns (err: Status, ghost d: seq<byte>, ghost q: seq<byte>,
        ghost o: seq<byte>)
      requires Valid() && OtaTemp in flash.mem && dest in flash.mem && dest !in {OtaTemp, Parameter1}
      requires Parameter1 in flash.mem && RECORD_SIZE <= |flash.mem[Parameter1]| <= paraSaveInRam.Length
      requires length <= |flash.mem[dest]|
      modifies flash`mem, flash`calls, flash`powered, flash`ops, data, newData, paraSaveInRam
      ensures flash.calls >= old(flash.calls)
      ensures flash.mem == old(flash.mem)[dest := d][Parameter1 := q][OtaTemp := o]
      ensures |d| == |old(flash.mem)[dest]| && |q| == |old(flash.mem)[Parameter1]| && |o| == |old(flash.mem)[OtaTemp]|
      ensures old(flash.ops) <= flash.ops
      ensures forall k :: |old(flash.ops)| <= k < |flash.ops| && flash.ops[k].area == Parameter1 ==>
                CopiedTo(old(flash.mem)[OtaTemp], d, length, false)
      ensures old(flash.Calm()) ==>
                && flash.Calm()
                && (length <= |old(flash.mem)[OtaTemp]| ==>
                      && err == NoErr && CopiedTo(old(flash.mem)[OtaTemp], d, length, true)
                      && q == Overlay(Blank(RECORD_SIZE), old(flash.mem)[Parameter1]) && o == Blank(|o|))
                && (length > |old(flash.mem)[OtaTemp]| ==>
                      && err == ParamErr && d == Truncated(old(flash.mem)[OtaTemp], |d|)
                      && q == old(flash.mem)[Parameter1] && o == old(flash.mem)[OtaTemp])
      ensures NeverScrambles(flash.script) ==>
                || (q == old(flash.mem)[Parameter1] && o == old(flash.mem)[OtaTemp])
                || (CopiedTo(old(flash.mem)[OtaTemp], d, length, true) && q[..RECORD_SIZE] == Blank(RECORD_SIZE))
      ensures OnlyPowerFails(flash.script) && flash.powered ==>
                q[RECORD_SIZE..] == old(flash.mem)[Parameter1][RECORD_SIZE..]
    {
      ghost var m0 := flash.mem;
      q, o := m0[Parameter1], m0[OtaTemp];
      err, d := CopyImage(dest, length);
      assert flash.mem == m0[dest := d][Parameter1 := q][OtaTemp := o];
      if err != NoErr { return; }
      err, q := ClearRecord();
      assert flash.mem == m0[dest := d][Parameter1 := q][OtaTemp := o];
      if err != NoErr { return; }
      err := flash.Prepare(OtaTemp);
      if err != NoErr { return; }
      assert o[0..|o|] == o;
      ghost var m1 := flash.mem;
      WholeSwept(o, flash.sectors(OtaTemp), flash.Next(), OtaTemp in flash.atomic);
      err := flash.Erase(OtaTemp, 0, |flash.mem[OtaTemp]|);
      o := flash.mem[OtaTemp];
      assert flash.mem == m1[OtaTemp := o];
    }

    /** Acts on the record that was read. */
    method Act(updateLog: array<byte>) returns (err: Status)
      requires Valid() && Ready(flash.mem) && |flash.mem[Parameter1]| <= paraSaveInRam.Length
      requires updateLog.Length == RECORD_SIZE && updateLog != data && updateLog[..] == RecordOf(flash.mem)
      requires data[..] == Blank(CHUNK)
      modifies flash`mem, flash`calls, flash`powered, flash`ops, data, newData, paraSaveInRam
      ensures flash.calls >= old(flash.calls)
      ensures old(flash.ops) <= flash.ops
      ensures forall k :: |old(flash.ops)| <= k < |flash.ops| && flash.ops[k].area == Parameter1 ==>
                Verified(old(flash.mem), otaAddress, flash.mem)
      ensures old(flash.Calm()) ==> flash.Calm() && (err, flash.mem) == CalmUpdate(old(flash.mem), otaAddress)
      ensures OnlyPowerFails(flash.script) ==> PowerFailEffect(old(flash.mem), otaAddress, flash.mem)
      ensures NeverScrambles(flash.script) ==>
                RefusalEffect(old(flash.mem), otaAddress, flash.script, old(flash.calls), flash.mem)
      ensures Accepted(old(flash.mem), otaAddress) && CrcGiven(old(flash.mem)) ==>
                forall bad: nat :: old(flash.CalmBut(bad)) && ForCrc(old(flash.mem), old(flash.calls), bad) ==>
                  flash.mem == Unstaged(old(flash.mem))
      ensures OnlyPowerFails(flash.script) && flash.powered ==> Settings(flash.mem) == Settings(old(flash.mem))
    {
      ghost var m0 := flash.mem;
      var length := ParseRecord(updateLog[..]).length;
      var log, dest := UpdateLogCheck(updateLog);
      if log != NeedUpdate {
        ghost var o;
        err, o := EraseStaging();
        return;
      }
      if dest !in flash.mem { return UnsupportedErr; }
      ghost var d, q, o;
      err, d, q, o := Install(dest, length);
      InstallEffect(m0, otaAddress, d, q, o, flash.mem);
    }

    /** `update`: install the staged image if the record asks for it. */
    method Update() returns (err: Status)
      requires Valid() && (Parameter1 in flash.mem ==> |flash.mem[Parameter1]| <= paraSaveInRam.Length)
      modifies flash`mem, flash`calls, flash`powered, flash`ops, data, newData, paraSaveInRam
      ensures old(flash.powered) && Ready(old(flash.mem)) ==> flash.calls > old(flash.calls)
      ensures old(flash.ops) <= flash.ops
      // whatever the device does, the record is touched only over a verified copy
      ensures forall k :: |old(flash.ops)| <= k < |flash.ops| && flash.ops[k].area == Parameter1 ==>
                Verified(old(flash.mem), otaAddress, flash.mem)
      ensures old(flash.Calm()) ==> flash.Calm() && (err, flash.mem) == CalmUpdate(old(flash.mem), otaAddress)
      ensures OnlyPowerFails(flash.script) ==> PowerFailEffect(old(flash.mem), otaAddress, flash.mem)
      // a refused call does no more, unless it is a read for the CRC
      ensures NeverScrambles(flash.script) ==>
                RefusalEffect(old(flash.mem), otaAddress, flash.script, old(flash.calls) + 1, flash.mem)
      ensures Accepted(old(flash.mem), otaAddress) && CrcGiven(old(flash.mem)) ==>
                forall bad: nat :: old(flash.CalmBut(bad)) && ForCrc(old(flash.mem), old(flash.calls) + 1, bad) ==>
                  flash.mem == Unstaged(old(flash.mem))
      // the settings after the record can be lost only with the power
      ensures OnlyPowerFails(flash.script) && flash.powered ==> Settings(flash.mem) == Settings(old(flash.mem))
    {
      if OtaTemp !in flash.mem || Parameter1 !in flash.mem { return UnsupportedErr; }
      forall i | 0 <= i < CHUNK { data[i] := BLANK; }
      forall i | 0 <= i < CHUNK { newData[i] := BLANK; }
      forall i | 0 <= i < |flash.mem[Parameter1]| { paraSaveInRam[i] := BLANK; }
      var updateLog := new byte[RECORD_SIZE];
      var bootTableOffset;
      err, bootTableOffset := flash.Read(Parameter1, 0, updateLog, RECORD_SIZE);
      if err != NoErr { return; }
      assert updateLog[..] == RecordOf(flash.mem);
      err := Act(updateLog);
    }
  }
}
