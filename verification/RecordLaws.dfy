/** What a boot record asks for, in its own bytes. */
module RecordLaws {
  import opened Bytes
  import opened FlashMemory
  import opened BootTable
  import opened Update

  /** Two, and four, bytes of the record, the lowest first. */
  function Half(r: seq<byte>, i: nat): nat
    requires i + 2 <= |r|
  {
    r[i] as int + 0x100 * r[i + 1] as int
  }

  function Word(r: seq<byte>, i: nat): nat
    requires i + 4 <= |r|
  {
    r[i] as int + 0x100 * r[i + 1] as int + 0x1_0000 * r[i + 2] as int + 0x100_0000 * r[i + 3] as int
  }

  /** The letter of a partition: 'B', 'A' or 'D'. */
  predicate Letter(kind: byte, p: PartitionId) {
    (kind == 0x42 && p == Bootloader) || (kind == 0x41 && p == Application) || (kind == 0x44 && p == RfFirmware)
  }

  lemma TwoBytes(s: seq<byte>)
    requires |s| == 2
    ensures LittleEndian(s) == Half(s, 0)
  {
    assert s[1..] == [s[1]] && s[1..][1..] == [];
    assert LittleEndian(s[1..]) == s[1] + 256 * LittleEndian([]);
  }

  lemma FourBytes(s: seq<byte>)
    requires |s| == 4
    ensures LittleEndian(s) == Word(s, 0)
  {
    assert s[1..][1..] == s[2..] && s[1..][0] == s[1];
    TwoBytes(s[2..]);
    assert LittleEndian(s) == s[0] + 256 * LittleEndian(s[1..]);
    assert LittleEndian(s[1..]) == s[1] + 256 * LittleEndian(s[2..]);
  }

  /** Where the fields of the record stand. */
  lemma FieldsAt(r: seq<byte>)
    requires |r| == 24
    ensures var b := ParseRecord(r);
            && b.startAddress == Word(r, 0) && b.length == Word(r, 4) && b.kind == r[16] && b.upgradeType == r[17]
            && b.crc == Half(r, 18)
  {
    hide LittleEndian;
    var a, n, c := r[0..4], r[4..8], r[18..20];
    FourBytes(a);
    FourBytes(n);
    TwoBytes(c);
  }

  lemma BlankIff(r: seq<byte>)
    ensures r == Blank(|r|) <==> forall i :: 0 <= i < |r| ==> r[i] == 0xFF
  { }

  /** The record has been written, is marked 0x55, names its start address, and its length fits the
      partition of its letter. */
  ghost predicate WellFormed(m: Parts, r: seq<byte>, otaAddress: nat)
    requires |r| == 24
  {
    && !(forall i :: 0 <= i < 24 ==> r[i] == 0xFF) && r[17] == 0x55 && Word(r, 0) == otaAddress
    && exists p :: Letter(r[16], p) && Word(r, 4) <= if p in m then |m[p]| else 0
  }

  /** The first check that fails, in the source's order, decides what is returned. */
  lemma ClassifiedAs(m: Parts, r: seq<byte>, otaAddress: nat)
    requires |r| == 24
    ensures var c := Classify(m, otaAddress, r);
            var blank := forall i :: 0 <= i < 24 ==> r[i] == 0xFF;
            && (c == NotExist <==> blank)
            && (c == UpdateTagNotExist <==> !blank && r[17] != 0x55)
            && (c == StartAddressError <==> !blank && r[17] == 0x55 && Word(r, 0) != otaAddress)
            && (c == ContentTypeNotExist <==>
                  !blank && r[17] == 0x55 && Word(r, 0) == otaAddress && r[16] !in {0x41, 0x42, 0x44})
            && (c == DataLengthOverFlow <==>
                  && !blank && r[17] == 0x55 && Word(r, 0) == otaAddress
                  && exists p :: Letter(r[16], p) && Word(r, 4) > if p in m then |m[p]| else 0)
            && c != CrcError
  {
    hide LittleEndian, ParseRecord;
    FieldsAt(r);
    BlankIff(r);
    if KnownKind(r[16]) { assert Letter(r[16], Target(r[16])); }
  }

  lemma ClassifiedIff(m: Parts, r: seq<byte>, otaAddress: nat)
    requires |r| == 24
    ensures Classify(m, otaAddress, r) == NeedUpdate <==> WellFormed(m, r, otaAddress)
  {
    hide LittleEndian, ParseRecord;
    FieldsAt(r);
    BlankIff(r);
    if WellFormed(m, r, otaAddress) {
      var p :| Letter(r[16], p) && Word(r, 4) <= if p in m then |m[p]| else 0;
    }
    if Classify(m, otaAddress, r) == NeedUpdate { assert Letter(r[16], Target(r[16])); }
  }

  /** Exactly which records are acted on. */
  lemma AcceptedIff(m: Parts, otaAddress: nat)
    requires OtaTemp in m && Parameter1 in m && |m[Parameter1]| >= 24
    ensures var r := m[Parameter1][..24];
            Accepted(m, otaAddress) <==>
              WellFormed(m, r, otaAddress) && (Half(r, 18) == 0xFFFF || Word(r, 4) <= |m[OtaTemp]|)
  {
    hide Classify, ParseRecord, WellFormed;
    var r := m[Parameter1][..24];
    ClassifiedIff(m, r, otaAddress);
    FieldsAt(r);
  }

  /** An update that nothing disturbs: besides the record and the staging area only the partition of the
      record's letter changes, and it holds the staged bytes, as many as the record says, with blanks
      behind them; the record and the staging area are blank. */
  lemma InstalledWhere(m: Parts, otaAddress: nat, p: PartitionId)
    requires Accepted(m, otaAddress) && p in m
    ensures var (r, m') := (m[Parameter1][..24], CalmUpdate(m, otaAddress).1);
            && p in m' && |m'[p]| == |m[p]|
            && (m'[p] != m[p] ==> p == Parameter1 || p == OtaTemp || Letter(r[16], p))
            && (Word(r, 4) <= |m[OtaTemp]| && Letter(r[16], p) ==>
                  && Word(r, 4) <= |m[p]| && (forall i :: 0 <= i < Word(r, 4) ==> m'[p][i] == m[OtaTemp][i])
                  && (forall i :: Word(r, 4) <= i < |m[p]| ==> m'[p][i] == 0xFF)
                  && (forall i :: 0 <= i < 24 ==> m'[Parameter1][i] == 0xFF)
                  && m'[Parameter1][24..] == m[Parameter1][24..]
                  && (forall i :: 0 <= i < |m[OtaTemp]| ==> m'[OtaTemp][i] == 0xFF))
  {
    hide Classify, ParseRecord;
    var r := m[Parameter1][..24];
    FieldsAt(r);
    ClassifiedIff(m, r, otaAddress);
    TargetIs(m, r, otaAddress, p);
    assert Dest(m) == Target(r[16]);
  }

  lemma TargetIs(m: Parts, r: seq<byte>, otaAddress: nat, p: PartitionId)
    requires |r| == 24 && WellFormed(m, r, otaAddress)
    ensures Letter(r[16], p) <==> p == Target(r[16])
    ensures p in m && Letter(r[16], p) ==> Word(r, 4) <= |m[p]|
  { }

  /** An image that is too long for the staging area is taken for as many whole chunks of 4096 bytes as
      the area holds; behind them the destination is blank, and the record stays. */
  lemma TooLongLeaves(m: Parts, otaAddress: nat, p: PartitionId)
    requires Accepted(m, otaAddress) && Letter(m[Parameter1][16], p) && p in m
    requires Word(m[Parameter1][..24], 4) > |m[OtaTemp]|
    ensures var (m', k) := (CalmUpdate(m, otaAddress).1, |m[OtaTemp]| / 4096 * 4096);
            && m'.Keys == m.Keys && (forall q :: q in m && q != p ==> m'[q] == m[q])
            && k <= |m'[p]| == |m[p]|
            && forall i :: 0 <= i < |m[p]| ==> m'[p][i] == if i < k then m[OtaTemp][i] else 0xFF
  {
    hide Classify, ParseRecord;
    var r := m[Parameter1][..24];
    FieldsAt(r);
    ClassifiedIff(m, r, otaAddress);
    TargetIs(m, r, otaAddress, p);
    assert Dest(m) == Target(r[16]);
  }

  /** What an update that nothing disturbs returns. */
  lemma StatusIff(m: Parts, otaAddress: nat)
    ensures var err := CalmUpdate(m, otaAddress).0;
            var both := OtaTemp in m && Parameter1 in m;
            var asked := both && |m[Parameter1]| >= 24 && Accepted(m, otaAddress);
            && (err == UnsupportedErr <==> !both || (asked && exists p :: Letter(m[Parameter1][16], p) && p !in m))
            && (err == ParamErr <==>
                  && both
                  && (|m[Parameter1]| < 24
                      || (asked && Word(m[Parameter1][..24], 4) > |m[OtaTemp]|
                          && exists p :: Letter(m[Parameter1][16], p) && p in m)))
            && (err == NoErr || err == UnsupportedErr || err == ParamErr)
  {
    hide Classify, ParseRecord, WellFormed;
    if OtaTemp in m && Parameter1 in m && |m[Parameter1]| >= 24 && Accepted(m, otaAddress) {
      var r := m[Parameter1][..24];
      FieldsAt(r);
      ClassifiedIff(m, r, otaAddress);
      TargetOnly(m, r, otaAddress);
      assert Dest(m) == Target(r[16]);
    }
  }

  lemma TargetOnly(m: Parts, r: seq<byte>, otaAddress: nat)
    requires |r| == 24 && WellFormed(m, r, otaAddress)
    ensures forall p :: Letter(r[16], p) <==> p == Target(r[16])
  {
    forall p ensures Letter(r[16], p) <==> p == Target(r[16]) { TargetIs(m, r, otaAddress, p); }
  }

  /** A record that is not acted on costs the staging area, and nothing else. */
  lemma RefusedKeeps(m: Parts, otaAddress: nat)
    requires OtaTemp in m && Parameter1 in m && |m[Parameter1]| >= 24 && !Accepted(m, otaAddress)
    ensures var m' := CalmUpdate(m, otaAddress).1;
            && m'.Keys == m.Keys && (forall p :: p in m && p != OtaTemp ==> m'[p] == m[p])
            && |m'[OtaTemp]| == |m[OtaTemp]| && forall i :: 0 <= i < |m[OtaTemp]| ==> m'[OtaTemp][i] == 0xFF
  {
    hide Accepted;
  }
}
