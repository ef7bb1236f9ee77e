/** Partitions as ranges of the flash devices: why they can be treated as separate areas. */
module Partitions {
  import opened Bytes
  import opened FlashMemory
  import opened BootTable
  import opened Numerals

  /** A row of the partition table; `start` counts from the device's first address. */
  datatype Place = Place(device: Device, start: nat, length: nat)

  type Table = map<PartitionId, Place>

  type Memory = map<Device, seq<byte>>

  ghost predicate Inside(t: Table, m: Memory) {
    forall p :: p in t ==> t[p].device in m && t[p].start + t[p].length <= |m[t[p].device]|
  }

  predicate Apart(a: Place, b: Place) {
    a.device != b.device || a.start + a.length <= b.start || b.start + b.length <= a.start
  }

  ghost predicate Disjoint(t: Table) {
    forall p, q :: p in t && q in t && p != q ==> Apart(t[p], t[q])
  }

  /** What a partition holds. */
  function Range(m: Memory, a: Place): seq<byte>
    requires a.device in m && a.start + a.length <= |m[a.device]|
  {
    m[a.device][a.start..a.start + a.length]
  }

  function View(t: Table, m: Memory): Parts
    requires Inside(t, m)
  {
    map p | p in t :: Range(m, t[p])
  }

  /** The device after new bytes are stored at offset `at` of a partition. */
  function Put(m: Memory, a: Place, at: nat, d: seq<byte>): Memory
    requires a.device in m && a.start + a.length <= |m[a.device]| && at + |d| <= a.length
  {
    m[a.device := Splice(m[a.device], a.start + at, d)]
  }

  lemma PutElsewhere(m: Memory, a: Place, at: nat, d: seq<byte>, b: Place)
    requires a.device in m && a.start + a.length <= |m[a.device]| && at + |d| <= a.length
    requires b.device in m && b.start + b.length <= |m[b.device]| && Apart(a, b)
    ensures Range(Put(m, a, at, d), b) == Range(m, b)
  { }

  lemma PutHere(m: Memory, a: Place, at: nat, d: seq<byte>)
    requires a.device in m && a.start + a.length <= |m[a.device]| && at + |d| <= a.length
    ensures Range(Put(m, a, at, d), a) == Splice(Range(m, a), at, d)
  { }

  /** What a partition of a disjoint table holds after something is stored in partition `p`. */
  lemma PutSeenFrom(t: Table, m: Memory, p: PartitionId, at: nat, d: seq<byte>, q: PartitionId)
    requires Inside(t, m) && Disjoint(t) && p in t && q in t && at + |d| <= t[p].length
    ensures Inside(t, Put(m, t[p], at, d))
    ensures Range(Put(m, t[p], at, d), t[q]) == if q == p then Splice(Range(m, t[p]), at, d) else Range(m, t[q])
  {
    hide Range, Splice;
    if q == p { PutHere(m, t[p], at, d); } else { PutElsewhere(m, t[p], at, d, t[q]); }
  }

  lemma ViewAt(t: Table, m: Memory, p: PartitionId)
    requires Inside(t, m) && p in t
    ensures View(t, m).Keys == t.Keys && View(t, m)[p] == Range(m, t[p]) && |Range(m, t[p])| == t[p].length
  { }

  /** Storing into a partition of a disjoint table changes that partition alone. */
  lemma PutChangesOnePartition(t: Table, m: Memory, p: PartitionId, at: nat, d: seq<byte>)
    requires Inside(t, m) && Disjoint(t) && p in t && at + |d| <= t[p].length
    ensures Inside(t, Put(m, t[p], at, d)) && |Range(m, t[p])| == t[p].length
    ensures View(t, Put(m, t[p], at, d)) == View(t, m)[p := Splice(Range(m, t[p]), at, d)]
  {
    hide Range, Splice, View, Disjoint, Put;
    PutSeenFrom(t, m, p, at, d, p);
    ViewAt(t, m, p);
    var m' := Put(m, t[p], at, d);
    ViewAt(t, m', p);
    forall q | q in t ensures View(t, m')[q] == View(t, m)[p := Splice(Range(m, t[p]), at, d)][q] {
      PutSeenFrom(t, m, p, at, d, q);
      ViewAt(t, m, q);
      ViewAt(t, m', q);
    }
  }

  lemma RangePart(m: Memory, a: Place, at: nat, len: nat)
    requires a.device in m && a.start + a.length <= |m[a.device]| && at + len <= a.length
    ensures m[a.device][a.start + at..a.start + at + len] == Range(m, a)[at..at + len]
  {
    SliceInSlice(m[a.device], a.start, a.start + a.length, at, at + len);
  }

  /** A write at a device address is the write at the partition offset, and nothing else. */
  lemma WriteIsPartitionWrite(t: Table, m: Memory, p: PartitionId, at: nat, data: seq<byte>, o: Outcome)
    requires Inside(t, m) && Disjoint(t) && p in t && at + |data| <= t[p].length
    ensures var a := t[p];
            var m' := m[a.device := AfterWrite(m[a.device], a.start + at, data, o)];
            Inside(t, m') && View(t, m') == View(t, m)[p := AfterWrite(Range(m, a), at, data, o)]
  {
    hide Splice, View, Range, WriteResult, Disjoint;
    RangePart(m, t[p], at, |data|);
    ViewAt(t, m, p);
    PutChangesOnePartition(t, m, p, at, WriteResult(Range(m, t[p])[at..at + |data|], data, o));
  }

  /** An erase of whole sectors at a device address is the erase at the partition offset. */
  lemma EraseIsPartitionErase(t: Table, m: Memory, p: PartitionId, sectors: Sweep, at: nat, len: nat, o: Outcome,
      atomic: bool)
    requires Inside(t, m) && Disjoint(t) && p in t && at + len <= t[p].length
    requires var from := t[p].start + at; Reach(sectors, from, len, |m[t[p].device]|) == (from, from + len)
    ensures var a := t[p];
            var m' := m[a.device := AfterSweep(m[a.device], sectors, a.start + at, len, o, atomic)];
            Inside(t, m') && View(t, m') == View(t, m)[p := AfterErase(Range(m, a), at, len, o, atomic)]
  {
    hide Splice, View, Range, EraseResult, Disjoint, Reach;
    RangePart(m, t[p], at, len);
    ViewAt(t, m, p);
    PutChangesOnePartition(t, m, p, at, EraseResult(Range(m, t[p])[at..at + len], o, atomic));
  }

  /** The devices after every sector of a partition is erased. */
  function Wiped(t: Table, m: Memory, p: PartitionId, sectors: Sweep): (m': Memory)
    requires Inside(t, m) && p in t
    ensures Inside(t, m')
  {
    var a := t[p];
    m[a.device := AfterSweep(m[a.device], sectors, a.start, a.length, Works, false)]
  }

  /** The bytes of `b` that the erase of `a` reaches are blank already. */
  ghost predicate BlankInReach(m: Memory, a: Place, sectors: Sweep, b: Place)
    requires a.device in m && a.start + a.length <= |m[a.device]|
    requires b.device in m && b.start + b.length <= |m[b.device]|
  {
    var (from, to) := Reach(sectors, a.start, a.length, |m[a.device]|);
    a.device == b.device ==>
      forall i :: b.start <= i < b.start + b.length && from <= i < to ==> m[b.device][i] == BLANK
  }

  lemma NeighbourSparedIff(m: Memory, a: Place, sectors: Sweep, b: Place)
    requires a.device in m && a.start + a.length <= |m[a.device]|
    requires b.device in m && b.start + b.length <= |m[b.device]|
    ensures Range(m[a.device := AfterSweep(m[a.device], sectors, a.start, a.length, Works, false)], b) == Range(m, b)
            <==> BlankInReach(m, a, sectors, b)
  {
    var m' := m[a.device := AfterSweep(m[a.device], sectors, a.start, a.length, Works, false)];
    var r, r' := Range(m, b), Range(m', b);
    var d, d' := m[b.device], m'[b.device];
    assert forall k :: 0 <= k < b.length ==> r[k] == d[b.start + k] && r'[k] == d'[b.start + k];
    assert forall i :: b.start <= i < b.start + b.length ==> d[i] == r[i - b.start] && d'[i] == r'[i - b.start];
  }

  /** Erasing a partition spares all the others if and only if what they keep in the sectors it
      touches is blank already; a table of whole sectors meets that whatever they keep. */
  lemma OthersSparedIff(t: Table, m: Memory, p: PartitionId, sectors: Sweep)
    requires Inside(t, m) && p in t
    ensures (forall q :: q in t && q != p ==> Range(Wiped(t, m, p, sectors), t[q]) == Range(m, t[q]))
            <==> (forall q :: q in t && q != p ==> BlankInReach(m, t[p], sectors, t[q]))
  {
    hide Range, BlankInReach, AfterSweep;
    forall q | q in t && q != p
      ensures Range(Wiped(t, m, p, sectors), t[q]) == Range(m, t[q]) <==> BlankInReach(m, t[p], sectors, t[q])
    {
      NeighbourSparedIff(m, t[p], sectors, t[q]);
    }
  }

  // ---- sectors ----

  /** First offset of the embedded sector `x` lies in, and of the next one: the STM32F4's twelve. */
  function EmbeddedSector(x: nat): (s: (nat, nat)) {
    if x < 0x4000 then (0, 0x4000)
    else if x < 0x8000 then (0x4000, 0x8000)
    else if x < 0xC000 then (0x8000, 0xC000)
    else if x < 0x1_0000 then (0xC000, 0x1_0000)
    else if x < 0x2_0000 then (0x1_0000, 0x2_0000)
    else if x < 0x4_0000 then (0x2_0000, 0x4_0000)
    else if x < 0x6_0000 then (0x4_0000, 0x6_0000)
    else if x < 0x8_0000 then (0x6_0000, 0x8_0000)
    else if x < 0xA_0000 then (0x8_0000, 0xA_0000)
    else if x < 0xC_0000 then (0xA_0000, 0xC_0000)
    else if x < 0xE_0000 then (0xC_0000, 0xE_0000)
    else (0xE_0000, 0x10_0000)
  }

  /** SPI sectors have 4 KiB. */
  function Sector(device: Device, x: nat): (s: (nat, nat))
    ensures s.0 <= x
    ensures device == SpiFlash || x < 0x10_0000 ==> x < s.1
  {
    match device
    case SpiFlash => (x / 0x1000 * 0x1000, x / 0x1000 * 0x1000 + 0x1000)
    case EmbeddedFlash => EmbeddedSector(x)
  }

  /** First and last sector are those of the first and the last address. For an empty range the
      last address is the one before the first, below 0 the highest there is: a mistake on SPI
      flash, and in the last sector of embedded flash. */
  function Touched(device: Device, at: nat, len: nat): (nat, nat) {
    if at + len == 0 then (0, if device == SpiFlash then 0 else 0x10_0000)
    else (Sector(device, at).0, Sector(device, at + len - 1).1)
  }

  function Sectors(device: Device): Sweep { (at, len) => Touched(device, at, len) }

  /** A range there are sectors for. */
  predicate Erasable(a: Place) {
    a.length > 0 && (a.device == EmbeddedFlash ==> a.start + a.length <= 0x10_0000)
  }

  /** The range that an erase really blanks: every sector it touches. */
  function Swept(a: Place): (b: Place)
    requires Erasable(a)
    ensures b.start <= a.start && a.start + a.length <= b.start + b.length
  {
    var (from, to) := Touched(a.device, a.start, a.length);
    Place(a.device, from, to - from)
  }

  /** A higher range touches no lower sector. */
  lemma SectorsAscend(device: Device, at: nat, at': nat, len: nat)
    requires at <= at'
    ensures Sectors(device)(at, len).0 <= Sectors(device)(at', len).0
  {
    assert Sectors(device)(at, len) == Touched(device, at, len);
    assert Sectors(device)(at', len) == Touched(device, at', len);
    if device == SpiFlash { SpiAscend(at, at'); }
  }

  lemma SpiAscend(at: nat, at': nat)
    requires at <= at'
    ensures at / 0x1000 * 0x1000 <= at' / 0x1000 * 0x1000
  { }

  /** The rows of the MiCOKit-3165's table. */
  function Row(p: PartitionId): Option<Place> {
    match p
    case Bootloader => Some(Place(EmbeddedFlash, 0, 0x8000))
    case Application => Some(Place(EmbeddedFlash, 0xC000, 0x7_4000))
    case RfFirmware => Some(Place(SpiFlash, 0x2000, 0x3_E000))
    case OtaTemp => Some(Place(SpiFlash, 0x4_0000, 0x7_0000))
    case Parameter1 => Some(Place(SpiFlash, 0, 0x1000))
    case Parameter2 => Some(Place(SpiFlash, 0x1000, 0x1000))
    case Ate => None
    case ObjectModel => None
  }

  const MICOKIT_3165: Table := map p | p in {Bootloader, Application, RfFirmware, OtaTemp, Parameter1,
      Parameter2} :: Row(p).value

  const COPY_FLAG: Place := Place(EmbeddedFlash, 0x8000, 1)

  lemma RowsApart(p: PartitionId, q: PartitionId)
    requires Row(p).Some? && Row(q).Some? && p != q
    ensures Apart(Row(p).value, Row(q).value)
  { }

  lemma EmbeddedSwept()
    ensures Swept(COPY_FLAG) == Place(EmbeddedFlash, 0x8000, 0x4000)
    ensures Swept(Place(EmbeddedFlash, 0, 0x8000)) == Place(EmbeddedFlash, 0, 0x8000)
    ensures Swept(Place(EmbeddedFlash, 0xC000, 0x7_4000)) == Place(EmbeddedFlash, 0xC000, 0x7_4000)
  { }

  lemma SpiSwept(first: nat, count: nat)
    requires count > 0
    ensures Swept(Place(SpiFlash, first * 0x1000, count * 0x1000)) == Place(SpiFlash, first * 0x1000, count * 0x1000)
  {
    assert (first * 0x1000 + count * 0x1000 - 1) / 0x1000 == first + count - 1;
  }

  lemma RowSwept(p: PartitionId)
    requires Row(p).Some?
    ensures Erasable(Row(p).value)
    ensures Swept(Row(p).value) == Row(p).value && Apart(Swept(COPY_FLAG), Row(p).value)
  {
    hide Swept;
    EmbeddedSwept();
    SpiSwept(0x2, 0x3E);
    SpiSwept(0x40, 0x70);
    SpiSwept(0, 1);
    SpiSwept(1, 1);
  }

  /** An erase of a whole row blanks the row and nothing else, on a device of any size it fits. */
  lemma RowErased(p: PartitionId, size: nat)
    requires Row(p).Some? && Row(p).value.start + Row(p).value.length <= size
    ensures var a := Row(p).value;
            Reach(Sectors(a.device), a.start, a.length, size) == (a.start, a.start + a.length)
  {
    RowSwept(p);
    var a := Row(p).value;
    assert Sectors(a.device)(a.start, a.length) == Touched(a.device, a.start, a.length);
    hide Touched, Sectors;
  }

  /** That table is disjoint, erasing a whole partition blanks exactly that partition, and the
      sector of the copy flag is in none. */
  lemma MicoKit3165Fits()
    ensures Disjoint(MICOKIT_3165)
    ensures forall p :: p in MICOKIT_3165 ==>
              Erasable(MICOKIT_3165[p]) && Swept(MICOKIT_3165[p]) == MICOKIT_3165[p]
    ensures forall p :: p in MICOKIT_3165 ==> Apart(Swept(COPY_FLAG), MICOKIT_3165[p])
    ensures Parameter1 in MICOKIT_3165 && MICOKIT_3165[Parameter1].length <= 16 * 1024
  {
    hide Swept, Apart;
    forall p, q | p in MICOKIT_3165 && q in MICOKIT_3165 && p != q ensures Apart(MICOKIT_3165[p], MICOKIT_3165[q]) {
      RowsApart(p, q);
    }
    forall p | p in MICOKIT_3165
      ensures Erasable(MICOKIT_3165[p]) && Swept(MICOKIT_3165[p]) == MICOKIT_3165[p]
                && Apart(Swept(COPY_FLAG), MICOKIT_3165[p])
    {
      RowSwept(p);
    }
  }

  /** Address `x` of a device lies in partition `p` of that table. */
  predicate LiesIn(p: PartitionId, device: Device, x: nat) {
    p in MICOKIT_3165 && MICOKIT_3165[p].device == device
      && MICOKIT_3165[p].start <= x < MICOKIT_3165[p].start + MICOKIT_3165[p].length
  }

  /** The first 512 KiB of embedded flash are the bootloader, the sector of the copy flag and the
      application; the first 704 KiB of SPI flash are partitions without a gap. */
  lemma TableTiles(x: nat)
    ensures x < 0x8000 <==> LiesIn(Bootloader, EmbeddedFlash, x)
    ensures 0xC000 <= x < 0x8_0000 <==> LiesIn(Application, EmbeddedFlash, x)
    ensures x < 0x1000 <==> LiesIn(Parameter1, SpiFlash, x)
    ensures 0x1000 <= x < 0x2000 <==> LiesIn(Parameter2, SpiFlash, x)
    ensures 0x2000 <= x < 0x4_0000 <==> LiesIn(RfFirmware, SpiFlash, x)
    ensures 0x4_0000 <= x < 0xB_0000 <==> LiesIn(OtaTemp, SpiFlash, x)
  { }
}
