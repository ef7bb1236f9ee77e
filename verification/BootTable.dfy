/** The partitions and the boot record that asks for an update. */
module BootTable {
  import opened Bytes

  datatype PartitionId = Bootloader | Application | Ate | OtaTemp | RfFirmware | Parameter1 | Parameter2 | ObjectModel

  /** Contents of the partitions some device holds. */
  type Parts = map<PartitionId, seq<byte>>

  const RECORD_SIZE: nat := 24

  /** The fields of `boot_table_t` the bootloader reads. */
  datatype BootRecord = BootRecord(startAddress: nat, length: nat, kind: byte, upgradeType: byte, crc: nat)

  datatype Log =
    NotExist | NeedUpdate | UpdateTagNotExist | ContentTypeNotExist | DataLengthOverFlow | StartAddressError | CrcError

  function LittleEndian(s: seq<byte>): nat {
    if s == [] then 0 else s[0] + 256 * LittleEndian(s[1..])
  }

  function ParseRecord(r: seq<byte>): BootRecord
    requires |r| == RECORD_SIZE
  {
    BootRecord(LittleEndian(r[0..4]), LittleEndian(r[4..8]), r[16], r[17], LittleEndian(r[18..20]))
  }

  function Content(m: Parts, p: PartitionId): seq<byte> { if p in m then m[p] else [] }

  /** Where an image of this kind belongs. */
  function Target(kind: byte): (p: PartitionId)
    ensures p !in {OtaTemp, Parameter1}
  {
    if kind == 66 then Bootloader else if kind == 65 then Application else if kind == 68 then RfFirmware else Ate
  }

  predicate KnownKind(kind: byte) { kind == 66 || kind == 65 || kind == 68 }

  /** What the checks before the CRC make of the record bytes. */
  function Classify(m: Parts, otaAddress: nat, r: seq<byte>): Log
    requires |r| == RECORD_SIZE
  {
    var b := ParseRecord(r);
    if r == Blank(RECORD_SIZE) then NotExist
    else if b.upgradeType != 85 then UpdateTagNotExist
    else if b.startAddress != otaAddress then StartAddressError
    else if !KnownKind(b.kind) then ContentTypeNotExist
    else if b.length > |Content(m, Target(b.kind))| then DataLengthOverFlow
    else NeedUpdate
  }

  /** Same partitions of the same sizes. */
  ghost predicate SameShape(m0: Parts, m1: Parts) {
    m0.Keys == m1.Keys && forall p :: p in m0 ==> |m0[p]| == |m1[p]|
  }

  /** Nothing outside the partitions of `ps` moved. */
  ghost predicate OnlyChanged(m0: Parts, m1: Parts, ps: set<PartitionId>) {
    SameShape(m0, m1) && forall p :: p in m0 && p !in ps ==> m1[p] == m0[p]
  }

  predicate Ready(m: Parts) {
    OtaTemp in m && Parameter1 in m && |m[Parameter1]| >= RECORD_SIZE
  }

  function RecordOf(m: Parts): (r: seq<byte>)
    requires Ready(m)
    ensures |r| == RECORD_SIZE
  {
    m[Parameter1][..RECORD_SIZE]
  }

  /** The records a fault-free `updateLogCheck` lets through: the CRC value plays no part. */
  predicate Accepted(m: Parts, otaAddress: nat) {
    && Ready(m)
    && Classify(m, otaAddress, RecordOf(m)) == NeedUpdate
    && (ParseRecord(RecordOf(m)).crc == 0xFFFF || ParseRecord(RecordOf(m)).length <= |m[OtaTemp]|)
  }

  function Dest(m: Parts): PartitionId
    requires Ready(m)
  {
    Target(ParseRecord(RecordOf(m)).kind)
  }

  function ImageLength(m: Parts): nat
    requires Ready(m)
  {
    ParseRecord(RecordOf(m)).length
  }

  /** The record gives a CRC: 0xFFFF stands for none. */
  predicate CrcGiven(m: Parts)
    requires Ready(m)
  {
    ParseRecord(RecordOf(m)).crc != 0xFFFF
  }
}
