/**
 The two partition table formats of the installer's GPT-to-MBR conversion (sections 5.2.1
 and 5.3 of the UEFI Specification), the cylinder/head/sector encoding, and which GPT
 partitions can be expressed in an MBR.
 */
module PartitionTables {
  import opened Journal
  import opened ByteCodec
  import Bits

  const U64: nat := 0x1_0000_0000_0000_0000
  const U32_MAX: nat := 0xffff_ffff

  /** mul_u64_overflow: the test by division is exact. */
  function MulOverflow(a: nat, b: nat): (r: (bool, nat))
    requires a < U64 && b < U64
    ensures r.0 <==> a * b >= U64
    ensures !r.0 ==> r.1 == a * b
  {
    MulOverflowExact(a, b);
    (a != 0 && b > 0xffff_ffff_ffff_ffff / a, a * b % 0x1_0000_0000_0000_0000)
  }

  lemma {:induction false} MulOverflowExact(a: nat, b: nat)
    ensures (a != 0 && b > 0xffff_ffff_ffff_ffff / a) <==> a * b >= U64
  {
    if a == 0 {
      assert a * b == 0;
    } else {
      var q := 0xffff_ffff_ffff_ffff / a;
      assert q * a <= 0xffff_ffff_ffff_ffff < (q + 1) * a;
      if b > q {
        assert b * a >= (q + 1) * a;
      } else {
        assert b * a <= q * a;
      }
    }
  }

  /** add_u64_overflow. */
  function AddOverflow(a: nat, b: nat): (r: (bool, nat))
    requires a < U64 && b < U64
    ensures r.0 <==> a + b >= U64
    ensures !r.0 ==> r.1 == a + b
  {
    (a > 0xffff_ffff_ffff_ffff - b, (a + b) % 0x1_0000_0000_0000_0000)
  }

  // ---- Cylinder, head, sector ----

  const CHS_LIMIT: nat := 16450560  // 1024 * 255 * 63

  /** What lba2chs stores: the head; the sector under the cylinder's two high bits; the cylinder's low byte. */
  function Lba2Chs(lba: nat): seq<byte> {
    var cylinder := lba / 16065;
    if lba > 16450560 || cylinder >= 1024 then [0xfe, 0xff, 0xff]
    else ChsBytes(lba / 63 % 255, lba % 63 + 1, cylinder)
  }

  function ChsBytes(head: nat, sector: nat, cylinder: nat): (chs: seq<byte>)
    requires head < 255
    ensures |chs| == 3
  {
    [head, HighBits(cylinder) * 64 + sector % 64, cylinder % 256]
  }

  /** lba2chs. */
  method EncodeChs(lba: nat) returns (chs: seq<byte>)
    ensures chs == Lba2Chs(lba)
  {
    if lba > 63 * 255 * 1024 {
      return [0xfe, 0xff, 0xff];
    }
    var cylinder := lba / 16065;
    if cylinder >= 1024 {
      return [0xfe, 0xff, 0xff];
    }
    var head, sector := lba / 63 % 255, lba % 63 + 1;
    var second := SectorByte(HighBits(cylinder), sector % 64);
    return [head, second, cylinder % 256];
  }

  /** The or of the sector and the cylinder's high bits in place. */
  method SectorByte(high: nat, sector: nat) returns (b: byte)
    requires high < 4 && sector < 64
    ensures b == high * 64 + sector
  {
    ChsByteFits(high * 64, sector);
    b := Bits.Or(high * 64, sector);
  }

  /** Bits 8 and 9 of the cylinder: bits 6 and 7 of cylinder >> 2. */
  function HighBits(cylinder: nat): (h: nat)
    ensures h < 4
  {
    cylinder / 4 / 64 % 4
  }

  lemma {:induction false} ChsByteFits(high: nat, sector: nat)
    requires high % 64 == 0 && high <= 192 && sector < 64
    ensures Bits.Or(high, sector) == high + sector < 256
  {
    Bits.Pow2Values();
    Bits.OrDisjoint(high, sector, 6);
  }

  /** The block address a CHS triple stands for, on a disk of 255 heads and 63 sectors. */
  function ChsToLba(chs: seq<byte>): int
    requires |chs| == 3
  {
    ChsAddress(chs[0], chs[1], chs[2])
  }

  function ChsAddress(head: int, sector: int, cylinder: int): int {
    ((cylinder + sector / 64 * 256) * 255 + head) * 63 + sector % 64 - 1
  }

  /** The cylinder's two high bits travel in the sector byte. */
  lemma {:induction false} CylinderSplit(cylinder: nat, head: nat, sector: nat)
    requires cylinder < 1024 && sector < 64
    ensures ChsAddress(head, HighBits(cylinder) * 64 + sector, cylinder % 256)
         == (cylinder * 255 + head) * 63 + sector - 1
  {
    var high := cylinder / 256;
    assert HighBits(cylinder) == high;
    assert (high * 64 + sector) / 64 == high && (high * 64 + sector) % 64 == sector;
  }

  lemma {:induction false} ChsBytesRead(head: nat, sector: nat, cylinder: nat)
    requires head < 255 && sector < 64 && cylinder < 1024
    ensures ChsToLba(ChsBytes(head, sector, cylinder)) == (cylinder * 255 + head) * 63 + sector - 1
  {
    CylinderSplit(cylinder, head, sector);
    assert sector % 64 == sector;
  }

  lemma {:induction false} AddressSplit(lba: nat)
    ensures (lba / 16065 * 255 + lba / 63 % 255) * 63 + lba % 63 == lba
  {
    var track := lba / 63;
    assert lba / 16065 == track / 255;
    assert track / 255 * 255 + track % 255 == track;
  }

  /** The triple decodes to the address, or to the last one it can express. */
  lemma {:induction false} ChsRoundTrip(lba: nat)
    ensures |Lba2Chs(lba)| == 3
    ensures ChsToLba(Lba2Chs(lba)) == if lba < CHS_LIMIT then lba else CHS_LIMIT - 1
  {
    if lba < 16450560 {
      ChsBytesRead(lba / 63 % 255, lba % 63 + 1, lba / 16065);
      AddressSplit(lba);
    }
  }

  /** A CHS triple in its standard layout, or the one that stands for an address out of reach. */
  ghost predicate IsChs(chs: seq<byte>, lba: nat) {
    && |chs| == 3
    && if lba < 16450560 then
         && chs[0] == lba / 63 % 255
         && chs[1] % 64 == lba % 63 + 1
         && chs[2] == lba / 16065 % 256 && chs[1] / 64 == lba / 16065 / 256
       else chs == [0xfe, 0xff, 0xff]
  }

  lemma {:induction false} ChsLayout(lba: nat)
    ensures IsChs(Lba2Chs(lba), lba)
  {
    if lba < 16450560 {
      PackedByte(lba / 16065, lba % 63 + 1);
    }
  }

  lemma {:induction false} PackedByte(cylinder: nat, sector: nat)
    requires cylinder < 1024 && sector < 64
    ensures var b := HighBits(cylinder) * 64 + sector % 64;
            b % 64 == sector && b / 64 == cylinder / 256
  {
    var high := cylinder / 256;
    assert HighBits(cylinder) == high;
    assert (high * 64 + sector) / 64 == high && (high * 64 + sector) % 64 == sector;
  }

  // ---- GPT entries ----

  datatype GptEntry = GptEntry(type1: nat, type2: nat, unique1: nat, unique2: nat, start: nat, end: nat)

  function ParseGptEntry(b: seq<byte>): GptEntry
    requires |b| == 128
  {
    GptEntry(LeValue(b[0..8]), LeValue(b[8..16]), LeValue(b[16..24]), LeValue(b[24..32]),
             LeValue(b[32..40]), LeValue(b[40..48]))
  }

  /** The fields of an entry: two GUIDs, the first block and the last block, each number little-endian. */
  lemma {:induction false} GptEntryLayout(t1: nat, t2: nat, u1: nat, u2: nat, s: nat, e: nat, rest: seq<byte>)
    requires t1 < U64 && t2 < U64 && u1 < U64 && u2 < U64 && s < U64 && e < U64 && |rest| == 80
    ensures ParseGptEntry(Le64(t1) + Le64(t2) + Le64(u1) + Le64(u2) + Le64(s) + Le64(e) + rest)
         == GptEntry(t1, t2, u1, u2, s, e)
  {
    SixFields(Le64(t1), Le64(t2), Le64(u1), Le64(u2), Le64(s), Le64(e), rest);
    Le64RoundTrip(t1);
    Le64RoundTrip(t2);
    Le64RoundTrip(u1);
    Le64RoundTrip(u2);
    Le64RoundTrip(s);
    Le64RoundTrip(e);
  }

  lemma {:induction false} SixFields(a: seq<byte>, b: seq<byte>, c: seq<byte>, d: seq<byte>, e: seq<byte>, f: seq<byte>,
                                     rest: seq<byte>)
    requires |a| == 8 && |b| == 8 && |c| == 8 && |d| == 8 && |e| == 8 && |f| == 8
    ensures var s := a + b + c + d + e + f + rest;
            s[0..8] == a && s[8..16] == b && s[16..24] == c && s[24..32] == d && s[32..40] == e && s[40..48] == f
  {
  }

  lemma {:induction false} GptEntryFits(b: seq<byte>)
    requires |b| == 128
    ensures ParseGptEntry(b).start < U64 && ParseGptEntry(b).end < U64
  {
    LeValueBound(b[32..40]);
    LeValueBound(b[40..48]);
    assert Pow256(4) == 0x1_0000_0000;
    assert Pow256(8) == 0x1_0000_0000_0000_0000;
  }

  /** Every entry of the table lies on the device. */
  ghost predicate TableOnDevice(size: nat, base: nat, entrySize: nat, n: nat) {
    forall i: nat | i < n :: EntryEnd(base, entrySize, i) <= size
  }

  function EntryEnd(base: nat, entrySize: nat, i: nat): nat { base + i * entrySize + 128 }

  function EntryAt(d: seq<byte>, base: nat, entrySize: nat, i: nat): GptEntry
    requires EntryEnd(base, entrySize, i) <= |d|
  {
    ParseGptEntry(d[EntryEnd(base, entrySize, i) - 128..EntryEnd(base, entrySize, i)])
  }

  /** The first n entries of a table. */
  ghost function Entries(d: seq<byte>, base: nat, entrySize: nat, n: nat): (r: seq<GptEntry>)
    requires TableOnDevice(|d|, base, entrySize, n)
    ensures |r| == n
  {
    if n == 0 then []
    else Entries(d, base, entrySize, n - 1) + [EntryAt(d, base, entrySize, n - 1)]
  }

  predicate InUse(e: GptEntry) { e.unique1 != 0 || e.unique2 != 0 }

  /** The 16 bytes of the partition's own GUID are not all zero. */
  ghost predicate HasUniqueGuid(b: seq<byte>)
    requires |b| == 128
  {
    exists k :: 16 <= k < 32 && b[k] != 0
  }

  lemma {:induction false} InUseInBytes(b: seq<byte>)
    requires |b| == 128
    ensures InUse(ParseGptEntry(b)) <==> HasUniqueGuid(b)
  {
    ZeroValue(b[16..24]);
    ZeroValue(b[24..32]);
    assert forall k | 16 <= k < 24 :: b[k] == b[16..24][k - 16];
    assert forall k | 24 <= k < 32 :: b[k] == b[24..32][k - 24];
  }

  lemma {:induction false} ZeroValue(b: seq<byte>)
    ensures LeValue(b) == 0 <==> forall k | 0 <= k < |b| :: b[k] == 0
  {
    if b != [] {
      ZeroValue(b[1..]);
      assert forall k | 1 <= k < |b| :: b[k] == b[1..][k - 1];
    }
  }

  /** The entries that describe a partition, in order. */
  function Used(s: seq<GptEntry>): seq<GptEntry> {
    if s == [] then []
    else Used(s[..|s| - 1]) + if InUse(s[|s| - 1]) then [s[|s| - 1]] else []
  }

  lemma {:induction false} UsedAppend(s: seq<GptEntry>, e: GptEntry)
    ensures Used(s + [e]) == Used(s) + if InUse(e) then [e] else []
  {
    assert (s + [e])[..|s|] == s;
  }

  /** More entries only add partitions behind those already found. */
  lemma {:induction false} UsedGrows(s: seq<GptEntry>, m: nat)
    requires m <= |s|
    ensures Used(s[..m]) <= Used(s)
  {
    if m == |s| {
      assert s[..m] == s;
    } else {
      var front := s[..|s| - 1];
      UsedGrows(front, m);
      assert front[..m] == s[..m];
    }
  }

  lemma {:induction false} EntriesPrefix(d: seq<byte>, base: nat, entrySize: nat, m: nat, n: nat)
    requires m <= n && TableOnDevice(|d|, base, entrySize, n)
    ensures Entries(d, base, entrySize, n)[..m] == Entries(d, base, entrySize, m)
  {
    if m < n { EntriesPrefix(d, base, entrySize, m, n - 1); }
  }

  // ---- What can be converted ----

  /** gpt2mbr_type. */
  function MbrType(type1: nat, type2: nat): int {
    if type1 == 0x11d2f81fc12a7328 && type2 == 0x3bc93ec9a0004bba then 0xef
    else if type1 == 0x4433b9e5ebd0a0a2 && type2 == 0xc79926b7b668c087 then 0x07
    else if type1 == 0x11aa000048465300 && type2 == 0xacec4365300011aa then 0xaf
    else -1
  }

  const EFI_SYSTEM: seq<byte> :=
    [0x28, 0x73, 0x2a, 0xc1, 0x1f, 0xf8, 0xd2, 0x11, 0xba, 0x4b, 0x00, 0xa0, 0xc9, 0x3e, 0xc9, 0x3b]
  const BASIC_DATA: seq<byte> :=
    [0xa2, 0xa0, 0xd0, 0xeb, 0xe5, 0xb9, 0x33, 0x44, 0x87, 0xc0, 0x68, 0xb6, 0xb7, 0x26, 0x99, 0xc7]
  const HFS: seq<byte> :=
    [0x00, 0x53, 0x46, 0x48, 0x00, 0x00, 0xaa, 0x11, 0xaa, 0x11, 0x00, 0x30, 0x65, 0x43, 0xec, 0xac]

  /** The MBR type of a GUID as it stands on the disk. */
  function GuidKind(guid: seq<byte>): int {
    if guid == EFI_SYSTEM then 0xef
    else if guid == BASIC_DATA then 0x07
    else if guid == HFS then 0xaf
    else -1
  }

  lemma {:induction false} KindOfGuid(guid: seq<byte>)
    requires |guid| == 16
    ensures MbrType(LeValue(guid[..8]), LeValue(guid[8..])) == GuidKind(guid)
  {
    EfiSystemWords();
    BasicDataWords();
    HfsWords();
    GuidWords(guid, EFI_SYSTEM);
    GuidWords(guid, BASIC_DATA);
    GuidWords(guid, HFS);
  }

  /** Eight bytes as a little-endian word. */
  function WordOf(a: int, b: int, c: int, d: int, e: int, f: int, g: int, h: int): int {
    a + 256 * (b + 256 * (c + 256 * (d + 256 * (e + 256 * (f + 256 * (g + 256 * h))))))
  }

  function WordAt(b: seq<byte>, i: nat): int
    requires i + 8 <= |b|
  {
    WordOf(b[i], b[i + 1], b[i + 2], b[i + 3], b[i + 4], b[i + 5], b[i + 6], b[i + 7])
  }

  lemma {:induction false} EfiSystemWords()
    ensures WordAt(EFI_SYSTEM, 0) == 0x11d2f81fc12a7328 && WordAt(EFI_SYSTEM, 8) == 0x3bc93ec9a0004bba
  {
  }

  lemma {:induction false} BasicDataWords()
    ensures WordAt(BASIC_DATA, 0) == 0x4433b9e5ebd0a0a2 && WordAt(BASIC_DATA, 8) == 0xc79926b7b668c087
  {
  }

  lemma {:induction false} HfsWords()
    ensures WordAt(HFS, 0) == 0x11aa000048465300 && WordAt(HFS, 8) == 0xacec4365300011aa
  {
  }

  lemma {:induction false} GuidWords(guid: seq<byte>, other: seq<byte>)
    requires |guid| == 16 && |other| == 16
    ensures LeValue(guid[..8]) == WordAt(other, 0) && LeValue(guid[8..]) == WordAt(other, 8) <==> guid == other
  {
    EightBytes(other, 0);
    EightBytes(other, 8);
    SameValue(guid[..8], other[0..8]);
    SameValue(guid[8..], other[8..16]);
    Halves(guid, other);
  }

  lemma {:induction false} SameValue(a: seq<byte>, b: seq<byte>)
    requires |a| == |b|
    ensures LeValue(a) == LeValue(b) <==> a == b
  {
    LeValueRoundTrip(a);
    LeValueRoundTrip(b);
  }

  lemma {:induction false} Halves(a: seq<byte>, b: seq<byte>)
    requires |a| == 16 && |b| == 16
    ensures a == b <==> a[..8] == b[0..8] && a[8..] == b[8..16]
  {
    assert a == a[..8] + a[8..] && b == b[0..8] + b[8..16];
  }

  lemma {:induction false} EightBytes(b: seq<byte>, i: nat)
    requires i + 8 <= |b|
    ensures LeValue(b[i..i + 8]) == WordAt(b, i)
  {
    assert LeValue(b[i + 8..i + 8]) == 0;
    OneByte(b, i + 7, i + 8);
    OneByte(b, i + 6, i + 8);
    OneByte(b, i + 5, i + 8);
    OneByte(b, i + 4, i + 8);
    OneByte(b, i + 3, i + 8);
    OneByte(b, i + 2, i + 8);
    OneByte(b, i + 1, i + 8);
    OneByte(b, i, i + 8);
  }

  lemma {:induction false} OneByte(b: seq<byte>, i: nat, end: nat)
    requires i < end <= |b|
    ensures LeValue(b[i..end]) == b[i] as int + 256 * LeValue(b[i + 1..end])
  {
    assert b[i..end][1..] == b[i + 1..end];
  }

  /** lba_end - lba_start + 1 in 64-bit arithmetic. */
  function SectorCount(start: nat, end: nat): nat { (end - start + 1) % 0x1_0000_0000_0000_0000 }

  /** The partition's bounds, its size and its type have an MBR form. */
  predicate Convertible(e: GptEntry) {
    && e.start <= U32_MAX && e.end <= U32_MAX
    && e.start <= e.end + 1 <= e.start + U32_MAX
    && MbrType(e.type1, e.type2) >= 0
  }

  /** The entry in these bytes has an MBR form. */
  ghost predicate HasMbrForm(b: seq<byte>)
    requires |b| == 128
  {
    var start, end := LeValue(b[32..40]), LeValue(b[40..48]);
    && start <= 0xffff_ffff && end <= 0xffff_ffff && start <= end + 1 <= start + 0xffff_ffff
    && GuidKind(b[..16]) in {0xef, 0x07, 0xaf}
  }

  lemma {:induction false} ConvertibleInBytes(b: seq<byte>)
    requires |b| == 128
    ensures Convertible(ParseGptEntry(b)) <==> HasMbrForm(b)
    ensures MbrType(ParseGptEntry(b).type1, ParseGptEntry(b).type2) == GuidKind(b[..16])
  {
    KindOfGuid(b[..16]);
    assert b[..16][..8] == b[0..8] && b[..16][8..] == b[8..16];
  }

  /** The wrapped difference passes the 32-bit test exactly when it is the true one. */
  lemma {:induction false} CountExact(start: nat, end: nat)
    requires start <= U32_MAX && end <= U32_MAX
    ensures SectorCount(start, end) <= U32_MAX <==> start <= end + 1 <= start + U32_MAX
    ensures SectorCount(start, end) <= U32_MAX ==> start + SectorCount(start, end) == end + 1
  {
    if end - start + 1 < 0 {
      assert SectorCount(start, end) == end - start + 1 + U64;
    }
  }

  /** A partition on its way from one table to the other. */
  datatype Partition = Partition(start: nat, end: nat, chsStart: seq<byte>, chsEnd: seq<byte>, kind: byte)

  predicate Writable(p: Partition) {
    && |p.chsStart| == 3 && |p.chsEnd| == 3
    && p.start <= U32_MAX && p.end <= U32_MAX && SectorCount(p.start, p.end) <= U32_MAX
  }

  function Convert(e: GptEntry): (p: Partition)
    requires Convertible(e)
  {
    Partition(e.start, e.end, Lba2Chs(e.start), Lba2Chs(e.end), MbrType(e.type1, e.type2))
  }

  // ---- MBR entries ----

  /** An MBR partition record. */
  datatype MbrEntry = MbrEntry(status: byte, chsStart: seq<byte>, kind: byte, chsEnd: seq<byte>, start: nat, count: nat)

  /** What a reader of the MBR sees in a record. */
  function ParseMbrEntry(b: seq<byte>): MbrEntry
    requires |b| == 16
  {
    MbrEntry(b[0], b[1..4], b[4], b[5..8], LeValue(b[8..12]), LeValue(b[12..16]))
  }

  /** The record a GPT entry should become. */
  function Expected(e: GptEntry): MbrEntry
    requires Convertible(e)
  {
    MbrEntry(0, Lba2Chs(e.start), MbrType(e.type1, e.type2), Lba2Chs(e.end), e.start, e.end + 1 - e.start)
  }

  /** The record in r describes the partition of the GPT entry in b; its status is left open. */
  ghost predicate Describes(r: seq<byte>, b: seq<byte>)
    requires |r| == 16 && |b| == 128
  {
    && LeValue(r[8..12]) == LeValue(b[32..40])
    && LeValue(r[8..12]) + LeValue(r[12..16]) == LeValue(b[40..48]) + 1
    && r[4] == GuidKind(b[..16])
    && IsChs(r[1..4], LeValue(b[32..40])) && IsChs(r[5..8], LeValue(b[40..48]))
  }

  lemma {:induction false} ExpectedDescribes(r: seq<byte>, b: seq<byte>, status: byte)
    requires |r| == 16 && |b| == 128 && Convertible(ParseGptEntry(b))
    requires ParseMbrEntry(r) == Expected(ParseGptEntry(b)).(status := status)
    ensures Describes(r, b) && r[0] == status
  {
    ChsLayout(ParseGptEntry(b).start);
    ChsLayout(ParseGptEntry(b).end);
    ConvertibleInBytes(b);
  }

  function EncodeMbrEntry(status: byte, p: Partition): (b: seq<byte>)
    requires Writable(p)
    ensures |b| == 16
  {
    [status] + p.chsStart + [p.kind] + p.chsEnd + LeBytes(p.start, 4) + LeBytes(SectorCount(p.start, p.end), 4)
  }

  /** A converted entry, encoded and read back: same first block, same last block, same kind. */
  lemma {:induction false} ConvertedEntryReads(e: GptEntry)
    requires Convertible(e)
    ensures Writable(Convert(e)) && ParseMbrEntry(EncodeMbrEntry(0, Convert(e))) == Expected(e)
    ensures ChsToLba(Expected(e).chsStart) == if e.start < CHS_LIMIT then e.start else CHS_LIMIT - 1
    ensures ChsToLba(Expected(e).chsEnd) == if e.end < CHS_LIMIT then e.end else CHS_LIMIT - 1
  {
    var p := Convert(e);
    ChsRoundTrip(e.start);
    ChsRoundTrip(e.end);
    CountExact(e.start, e.end);
    Le32RoundTrip(p.start);
    Le32RoundTrip(SectorCount(p.start, p.end));
    EncodedFields(0, p);
  }

  lemma {:induction false} EncodedFields(status: byte, p: Partition)
    requires Writable(p)
    ensures var b := EncodeMbrEntry(status, p);
            && b[0] == status && b[1..4] == p.chsStart && b[4] == p.kind && b[5..8] == p.chsEnd
            && b[8..12] == LeBytes(p.start, 4) && b[12..16] == LeBytes(SectorCount(p.start, p.end), 4)
  {
    var front := [status] + p.chsStart + [p.kind] + p.chsEnd;
    var first, count := LeBytes(p.start, 4), LeBytes(SectorCount(p.start, p.end), 4);
    FrontFields(status, p.chsStart, p.kind, p.chsEnd);
    ThreeParts(front, first, count);
  }

  lemma {:induction false} FrontFields(status: byte, chsStart: seq<byte>, kind: byte, chsEnd: seq<byte>)
    requires |chsStart| == 3 && |chsEnd| == 3
    ensures var front := [status] + chsStart + [kind] + chsEnd;
            |front| == 8 && front[0] == status && front[1..4] == chsStart && front[4] == kind && front[5..8] == chsEnd
  {
  }

  lemma {:induction false} ThreeParts(front: seq<byte>, first: seq<byte>, count: seq<byte>)
    requires |front| == 8 && |first| == 4 && |count| == 4
    ensures var b := front + first + count;
            && b[0] == front[0] && b[1..4] == front[1..4] && b[4] == front[4] && b[5..8] == front[5..8]
            && b[8..12] == first && b[12..16] == count
  {
  }

  lemma {:induction false} Le32RoundTrip(x: nat)
    requires x <= U32_MAX
    ensures LeValue(LeBytes(x, 4)) == x
  {
    LeRoundTrip(x, 4);
    assert Pow256(4) == 0x1_0000_0000;
  }
}
