/** What survives power failures during an update, over any number of restarts. */
module UpdateRecovery {
  import opened Bytes
  import opened FlashMemory
  import opened BootTable
  import opened Update

  /** An update that has been asked for: the record's bytes and the staged image. */
  datatype Job = Job(record: seq<byte>, image: seq<byte>)

  ghost predicate GoodJob(job: Job, m: Parts, otaAddress: nat) {
    && OtaTemp in m && Parameter1 in m && RECORD_SIZE <= |m[Parameter1]| && |job.record| == RECORD_SIZE
    && Classify(m, otaAddress, job.record) == NeedUpdate
    && ParseRecord(job.record).length == |job.image| <= |m[OtaTemp]|
    && JobTarget(job) in m
  }

  function JobTarget(job: Job): PartitionId
    requires |job.record| == RECORD_SIZE
  {
    Target(ParseRecord(job.record).kind)
  }

  /** The record and the staged image are both intact. */
  ghost predicate Pending(job: Job, m: Parts, otaAddress: nat) {
    GoodJob(job, m, otaAddress) && RecordOf(m) == job.record && m[OtaTemp][..|job.image|] == job.image
  }

  /** The image is installed and the record is blank. */
  ghost predicate Finished(job: Job, m: Parts, otaAddress: nat) {
    && GoodJob(job, m, otaAddress) && RecordOf(m) == Blank(RECORD_SIZE)
    && m[JobTarget(job)] == Installed(job.image, |m[JobTarget(job)]|)
  }

  ghost predicate Recoverable(job: Job, m: Parts, otaAddress: nat) {
    Pending(job, m, otaAddress) || Finished(job, m, otaAddress)
  }

  lemma GoodJobKept(job: Job, m0: Parts, m: Parts, otaAddress: nat)
    requires GoodJob(job, m0, otaAddress) && SameShape(m0, m)
    ensures GoodJob(job, m, otaAddress)
  {
    var p := Target(ParseRecord(job.record).kind);
    assert |Content(m0, p)| == |Content(m, p)|;
  }

  /** One boot, cut short anywhere, keeps the update recoverable. */
  lemma BootKeepsRecoverable(job: Job, m0: Parts, m: Parts, otaAddress: nat)
    requires Recoverable(job, m0, otaAddress) && PowerFailEffect(m0, otaAddress, m)
    ensures Recoverable(job, m, otaAddress)
    ensures Finished(job, m0, otaAddress) ==> Finished(job, m, otaAddress)
  {
    GoodJobKept(job, m0, m, otaAddress);
    if Finished(job, m0, otaAddress) {
      assert !Accepted(m0, otaAddress);
    } else {
      assert Accepted(m0, otaAddress) && Dest(m0) == JobTarget(job);
    }
  }

  /** Any number of boots, each cut short anywhere. */
  lemma {:induction false} AnyNumberOfBoots(job: Job, ms: seq<Parts>, otaAddress: nat)
    requires |ms| > 0 && Recoverable(job, ms[0], otaAddress)
    requires forall k :: 0 <= k < |ms| - 1 ==> PowerFailEffect(ms[k], otaAddress, ms[k + 1])
    ensures forall k :: 0 <= k < |ms| ==> Recoverable(job, ms[k], otaAddress)
    ensures forall k, l :: 0 <= k <= l < |ms| && Finished(job, ms[k], otaAddress) ==> Finished(job, ms[l], otaAddress)
    decreases |ms|
  {
    if |ms| > 1 {
      BootKeepsRecoverable(job, ms[0], ms[1], otaAddress);
      AnyNumberOfBoots(job, ms[1..], otaAddress);
      forall k | 0 <= k < |ms| ensures Recoverable(job, ms[k], otaAddress) {
        if k > 0 { assert ms[k] == ms[1..][k - 1]; }
      }
      forall k, l | 0 <= k <= l < |ms| && Finished(job, ms[k], otaAddress) ensures Finished(job, ms[l], otaAddress) {
        if l > 0 {
          assert ms[l] == ms[1..][l - 1];
          if k > 0 { assert ms[k] == ms[1..][k - 1]; } else { assert ms[1] == ms[1..][0]; }
        }
      }
    }
  }

  /** The first boot that is left alone finishes the job. */
  lemma CalmBootFinishes(job: Job, m: Parts, otaAddress: nat)
    requires Recoverable(job, m, otaAddress)
    ensures var (err, m') := CalmUpdate(m, otaAddress);
            && err == NoErr && Finished(job, m', otaAddress)
            && m'[OtaTemp] == Blank(|m[OtaTemp]|) && Settings(m') == Settings(m)
            && OnlyChanged(m, m', {JobTarget(job), Parameter1, OtaTemp})
  {
    var (err, m') := CalmUpdate(m, otaAddress);
    if Finished(job, m, otaAddress) {
      assert !Accepted(m, otaAddress);
    } else {
      assert Accepted(m, otaAddress) && Dest(m) == JobTarget(job);
      assert RecordOf(m') == Blank(RECORD_SIZE);
    }
    GoodJobKept(job, m, m', otaAddress);
  }

  /** A second run finds nothing left to do. */
  lemma SecondUpdateChangesNothing(m: Parts, otaAddress: nat)
    ensures var m' := CalmUpdate(m, otaAddress).1;
            CalmUpdate(m', otaAddress).1 == m'
  {
    var m' := CalmUpdate(m, otaAddress).1;
    if Ready(m) && Accepted(m, otaAddress) && Dest(m) in m {
      if ImageLength(m) <= |m[OtaTemp]| {
        assert RecordOf(m') == Blank(RECORD_SIZE);
        assert !Accepted(m', otaAddress);
        assert m'[OtaTemp := Blank(|m[OtaTemp]|)] == m';
      } else {
        assert m'[Dest(m) := m'[Dest(m)]] == m';
      }
    } else if OtaTemp in m && Parameter1 in m && |m[Parameter1]| >= RECORD_SIZE && !Accepted(m, otaAddress) {
      assert RecordOf(m') == RecordOf(m);
      assert m'[OtaTemp := Blank(|m[OtaTemp]|)] == m';
    }
  }

  /** Exactly which accepted records a fault-free run installs: the check of the length
      against the destination is not enough. */
  lemma InstallsIffImageFits(m: Parts, otaAddress: nat)
    requires Accepted(m, otaAddress) && Dest(m) in m
    ensures var (err, m') := CalmUpdate(m, otaAddress);
            && (err == NoErr <==> ImageLength(m) <= |m[OtaTemp]|)
            && (RecordOf(m') == Blank(RECORD_SIZE) <==> ImageLength(m) <= |m[OtaTemp]|)
  {
    var (err, m') := CalmUpdate(m, otaAddress);
    if ImageLength(m) > |m[OtaTemp]| {
      assert RecordOf(m') == RecordOf(m);
    } else {
      assert RecordOf(m') == Blank(RECORD_SIZE);
    }
  }

  lemma BlankCrc()
    ensures ParseRecord(Blank(RECORD_SIZE)).crc == 0xFFFF
  {
    var s := Blank(RECORD_SIZE)[18..20];
    assert s[1..] == [BLANK] && s[1..][1..] == [];
    assert LittleEndian(s[1..]) == 255;
  }

  /** A CRC that is given plays no part: two records that differ in nothing else (and in the
      reserved bytes) meet the same fate, whatever is staged. */
  lemma CrcPlaysNoPart(m1: Parts, p2: seq<byte>, otaAddress: nat)
    requires Ready(m1) && |p2| == |m1[Parameter1]|
    requires var m2 := m1[Parameter1 := p2];
             && RecordOf(m1)[..18] == RecordOf(m2)[..18]
             && ParseRecord(RecordOf(m1)).crc != 0xFFFF && ParseRecord(RecordOf(m2)).crc != 0xFFFF
    ensures var m2 := m1[Parameter1 := p2];
            && (Accepted(m1, otaAddress) <==> Accepted(m2, otaAddress))
            && CalmUpdate(m1, otaAddress).0 == CalmUpdate(m2, otaAddress).0
            && forall p :: p in m1 && p != Parameter1
                ==> CalmUpdate(m1, otaAddress).1[p] == CalmUpdate(m2, otaAddress).1[p]
  {
    var m2 := m1[Parameter1 := p2];
    var r1, r2 := RecordOf(m1), RecordOf(m2);
    BlankCrc();
    SliceOfSlice(r1, 18, 0, 4);
    SliceOfSlice(r2, 18, 0, 4);
    SliceOfSlice(r1, 18, 4, 8);
    SliceOfSlice(r2, 18, 4, 8);
    assert r1[16] == r1[..18][16] == r2[16] && r1[17] == r1[..18][17] == r2[17];
    forall p ensures |Content(m1, p)| == |Content(m2, p)| {}
  }

  /** Boot after boot, each cut short wherever the script says. The script is finite, so
      enough boots always finish the job. */
  method PowerCycles(updater: Updater, boots: nat, ghost job: Job)
    requires updater.Valid() && OnlyPowerFails(updater.flash.script)
    requires Parameter1 in updater.flash.mem && |updater.flash.mem[Parameter1]| <= updater.paraSaveInRam.Length
    requires Recoverable(job, updater.flash.mem, updater.otaAddress)
    modifies updater.flash, updater.data, updater.newData, updater.paraSaveInRam
    ensures Recoverable(job, updater.flash.mem, updater.otaAddress)
    ensures boots > |updater.flash.script| ==>
              Finished(job, updater.flash.mem, updater.otaAddress) &&
              updater.flash.mem[OtaTemp] == Blank(|updater.flash.mem[OtaTemp]|)
  {
    ghost var calls, size := updater.flash.calls, |updater.flash.script|;
    var n := 0;
    while n < boots
      invariant n <= boots && updater.flash.calls >= n
      invariant Recoverable(job, updater.flash.mem, updater.otaAddress)
      invariant Parameter1 in updater.flash.mem && |updater.flash.mem[Parameter1]| <= updater.paraSaveInRam.Length
      invariant n > size ==> Finished(job, updater.flash.mem, updater.otaAddress) && StagingBlank(updater.flash.mem)
    {
      ghost var m := updater.flash.mem;
      updater.flash.PowerOn();
      var err := updater.Update();
      BootKeepsRecoverable(job, m, updater.flash.mem, updater.otaAddress);
      CalmBootFinishes(job, m, updater.otaAddress);
      n := n + 1;
    }
  }

  // ---- a refused call ----

  /** What a change of the staging area alone does to a pending job. */
  lemma StagingKeptIff(job: Job, m0: Parts, m: Parts, otaAddress: nat)
    requires Pending(job, m0, otaAddress) && OnlyChanged(m0, m, {OtaTemp})
    ensures Recoverable(job, m, otaAddress) <==> m[OtaTemp][..|job.image|] == job.image
  {
    GoodJobKept(job, m0, m, otaAddress);
  }

  lemma PendingIsAccepted(job: Job, m: Parts, otaAddress: nat)
    requires Pending(job, m, otaAddress)
    ensures Accepted(m, otaAddress) && Dest(m) == JobTarget(job) && ImageLength(m) == |job.image|
  { }

  /** A boot during which one call is refused and all others work keeps a pending job recoverable
      if and only if the call is not one of the reads for the CRC - or the image is blank anyway.
      Such a read makes the record look invalid, and the staged image is erased under it. */
  method OneRefusal(updater: Updater, ghost bad: nat, ghost job: Job)
    requires updater.Valid() && NeverScrambles(updater.flash.script) && updater.flash.CalmBut(bad)
    requires Parameter1 in updater.flash.mem && |updater.flash.mem[Parameter1]| <= updater.paraSaveInRam.Length
    requires Pending(job, updater.flash.mem, updater.otaAddress)
    modifies updater.flash, updater.data, updater.newData, updater.paraSaveInRam
    ensures Recoverable(job, updater.flash.mem, updater.otaAddress) <==>
              || !old(CrcGiven(updater.flash.mem) && ForCrc(updater.flash.mem, updater.flash.calls + 1, bad))
              || job.image == Blank(|job.image|)
  {
    ghost var m, first, script := updater.flash.mem, updater.flash.calls + 1, updater.flash.script;
    PendingIsAccepted(job, m, updater.otaAddress);
    OnlyRefusal(script, updater.flash.calls, bad);
    var err := updater.Update();
    ghost var m' := updater.flash.mem;
    hide Recoverable, Pending, PowerFailEffect, Accepted, Installed, CalmUpdate;
    if CrcGiven(m) && ForCrc(m, first, bad) {
      Unstages(m);
      StagingKeptIff(job, m, m', updater.otaAddress);
      BlankFront(|m[OtaTemp]|, |job.image|);
    } else {
      StillRecoverable(job, m, m', updater.otaAddress);
    }
  }

  lemma OnlyRefusal(script: Script, calls: nat, bad: nat)
    requires forall k :: calls <= k < |script| && k != bad ==> script[k].Works?
    ensures forall c :: c >= calls && c >= 0 && RefusedAt(script, c) ==> c == bad
  { }

  lemma Unstages(m: Parts)
    requires OtaTemp in m
    ensures OnlyChanged(m, Unstaged(m), {OtaTemp}) && Unstaged(m)[OtaTemp] == Blank(|m[OtaTemp]|)
  { }

  lemma BlankFront(n: nat, k: nat)
    requires k <= n
    ensures Blank(n)[..k] == Blank(k)
  { }

  lemma StillRecoverable(job: Job, m0: Parts, m: Parts, otaAddress: nat)
    requires Pending(job, m0, otaAddress) && PowerFailEffect(m0, otaAddress, m)
    ensures Recoverable(job, m, otaAddress)
  {
    BootKeepsRecoverable(job, m0, m, otaAddress);
  }

  /** What the next boot then installs: nothing but blank bytes, the CRC deciding nothing. */
  lemma BlankInstalled(job: Job, m: Parts, otaAddress: nat)
    requires Pending(job, m, otaAddress)
    ensures var (err, m') := CalmUpdate(Unstaged(m), otaAddress);
            && err == NoErr && JobTarget(job) in m' && m'[JobTarget(job)] == Blank(|m[JobTarget(job)]|)
            && RecordOf(m') == Blank(RECORD_SIZE)
  {
    PendingIsAccepted(job, m, otaAddress);
    var u := Unstaged(m);
    forall p ensures |Content(u, p)| == |Content(m, p)| { }
    assert Accepted(u, otaAddress) && Dest(u) == JobTarget(job);
    var image := u[OtaTemp][..|job.image|];
    BlankFront(|m[OtaTemp]|, |job.image|);
    assert Installed(image, |m[JobTarget(job)]|) == Blank(|m[JobTarget(job)]|);
  }

  // ---- a record that asks for too much ----

  /** The sizes of the MiCOKit-3165: an application one byte longer than the staging area, with no
      CRC given, is accepted, and the application is gone before the copy fails. */
  lemma TooLongAccepted(m: Parts, otaAddress: nat)
    requires Ready(m) && Application in m && |m[OtaTemp]| == 0x7_0000 && |m[Application]| == 0x7_4000
    requires var b := ParseRecord(RecordOf(m));
              && b.startAddress == otaAddress && b.length == 0x7_0001
              && b.kind == 65 && b.upgradeType == 85 && b.crc == 0xFFFF
    ensures Accepted(m, otaAddress)
    ensures var (err, m') := CalmUpdate(m, otaAddress);
            && err != NoErr && m'[Application][0x7_0000..] == Blank(0x4000) && RecordOf(m') == RecordOf(m)
  {
    var (err, m') := CalmUpdate(m, otaAddress);
    assert Dest(m) == Application;
    assert m'[Application] == m[OtaTemp][..0x7_0000] + Blank(0x4000);
  }

  ghost predicate StagingBlank(m: Parts) {
    OtaTemp in m && m[OtaTemp] == Blank(|m[OtaTemp]|)
  }
}
