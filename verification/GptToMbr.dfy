/**
 The conversion of a hybrid ISO image from GPT to MBR, on the cached and journaled
 device: the partitions are gathered before anything is written.
 */
module GptToMbr {
  import opened Journal
  import opened ByteCodec
  import opened UninstallFile
  import opened BlockDevice
  import opened PartitionTables
  import Bits

  datatype GptHeader = GptHeader(alternateLba: nat, partitionEntryLba: nat, numberOfEntries: nat, sizeOfEntry: nat)

  predicate HeaderFits(h: GptHeader) {
    h.alternateLba < U64 && h.partitionEntryLba < U64 && h.numberOfEntries <= U32_MAX && h.sizeOfEntry <= U32_MAX
  }

  // ---- Gathering ----

  /** The partitions fit an MBR: at most four of them, each with an MBR form. */
  ghost predicate Acceptable(entries: seq<GptEntry>) {
    |Used(entries)| <= 4 && AllConvertible(Used(entries))
  }

  ghost predicate AllConvertible(s: seq<GptEntry>) {
    forall k | 0 <= k < |s| :: Convertible(s[k])
  }

  ghost function ConvertAll(s: seq<GptEntry>): (r: seq<Partition>)
    requires AllConvertible(s)
    ensures |r| == |s|
  {
    seq(|s|, k requires 0 <= k < |s| => Convert(s[k]))
  }

  datatype Gathered = Parts(parts: seq<Partition>) | Unsuitable | ReadError

  /** The whole table can be read and converted. */
  ghost predicate Suitable(d: seq<byte>, base: nat, entrySize: nat, n: nat) {
    TableOnDevice(|d|, base, entrySize, n) && Acceptable(Entries(d, base, entrySize, n))
  }

  /** An entry that does not lie on the device is reached before one that has no MBR form or is the fifth. */
  ghost predicate Unreadable(d: seq<byte>, base: nat, entrySize: nat, n: nat) {
    exists i: nat :: i < n && UnreadableAt(d, base, entrySize, i)
  }

  ghost predicate UnreadableAt(d: seq<byte>, base: nat, entrySize: nat, i: nat) {
    Suitable(d, base, entrySize, i) && base + i * entrySize < U64 && EntryEnd(base, entrySize, i) > |d|
  }

  /** The first n entries have been read and gathered. */
  ghost predicate Collected(d: seq<byte>, base: nat, entrySize: nat, n: nat, parts: seq<Partition>) {
    Suitable(d, base, entrySize, n) && parts == ConvertAll(Used(Entries(d, base, entrySize, n)))
  }

  /** What one more entry does to the partitions gathered. */
  lemma {:induction false} GatheredStep(before: seq<GptEntry>, e: GptEntry, parts: seq<Partition>)
    requires Acceptable(before) && parts == ConvertAll(Used(before))
    ensures if !InUse(e) then Acceptable(before + [e]) && parts == ConvertAll(Used(before + [e]))
            else if |parts| < 4 && Convertible(e) then
              Acceptable(before + [e]) && parts + [Convert(e)] == ConvertAll(Used(before + [e]))
            else !Acceptable(before + [e])
  {
    UsedAppend(before, e);
    var used, used' := Used(before), Used(before + [e]);
    if InUse(e) {
      assert used'[|used|] == e;
    } else {
      assert used' == used;
    }
  }

  lemma {:induction false} CollectedStep(d: seq<byte>, base: nat, entrySize: nat, n: nat, parts: seq<Partition>)
    requires Collected(d, base, entrySize, n, parts) && EntryEnd(base, entrySize, n) <= |d|
    ensures var e := EntryAt(d, base, entrySize, n);
            if !InUse(e) then Collected(d, base, entrySize, n + 1, parts)
            else if |parts| < 4 && Convertible(e) then Collected(d, base, entrySize, n + 1, parts + [Convert(e)])
            else !Suitable(d, base, entrySize, n + 1)
  {
    assert TableOnDevice(|d|, base, entrySize, n + 1);
    GatheredStep(Entries(d, base, entrySize, n), EntryAt(d, base, entrySize, n), parts);
  }

  /** A table with an unsuitable beginning is unsuitable. */
  lemma {:induction false} SuitablePrefix(d: seq<byte>, base: nat, entrySize: nat, m: nat, n: nat)
    requires m <= n
    ensures Suitable(d, base, entrySize, n) ==> Suitable(d, base, entrySize, m)
  {
    if Suitable(d, base, entrySize, n) {
      EntriesPrefix(d, base, entrySize, m, n);
      UsedGrows(Entries(d, base, entrySize, n), m);
    }
  }

  /** The tests one entry has to pass. */
  method TakeEntry(e: GptEntry, parts: seq<Partition>) returns (ok: bool, more: seq<Partition>)
    requires e.start < U64 && e.end < U64
    ensures ok <==> !InUse(e) || (|parts| != 4 && Convertible(e))
    ensures ok ==> more == parts + if InUse(e) then [Convert(e)] else []
  {
    more := parts;
    if e.unique1 == 0 && e.unique2 == 0 { return true, parts; }
    if |parts| == 4 { return false, parts; }
    if e.start > U32_MAX { return false, parts; }
    var chsStart := EncodeChs(e.start);
    if e.end > U32_MAX { return false, parts; }
    var chsEnd := EncodeChs(e.end);
    CountExact(e.start, e.end);
    if SectorCount(e.start, e.end) > U32_MAX { return false, parts; }
    var kind := MbrType(e.type1, e.type2);
    if kind == -1 { return false, parts; }
    return true, parts + [Partition(e.start, e.end, chsStart, chsEnd, kind)];
  }

  lemma {:induction false} OffsetFits(i: nat, entrySize: nat)
    requires i <= U32_MAX && entrySize <= U32_MAX
    ensures i * entrySize < U64
  {
    assert i * entrySize <= i * U32_MAX <= U32_MAX * U32_MAX;
  }

  /** Reads entry i. */
  method ReadEntry(dev: Device, base: nat, entrySize: nat, i: nat) returns (g: Gathered, e: GptEntry)
    requires dev.Recording() && base < U64 && entrySize <= U32_MAX && i <= U32_MAX
    modifies dev`disk, dev`dirty, dev`cachedBlock, dev.cache
    ensures dev.Recording()
    ensures g.Parts? <==> EntryEnd(base, entrySize, i) <= dev.size
    ensures g.ReadError? <==> base + i * entrySize < U64 && EntryEnd(base, entrySize, i) > dev.size
    ensures g.Parts? ==> e == EntryAt(dev.logical, base, entrySize, i) && e.start < U64 && e.end < U64
  {
    e := GptEntry(0, 0, 0, 0, 0, 0);
    OffsetFits(i, entrySize);
    var sum := AddOverflow(base, i * entrySize);
    if sum.0 { return Unsuitable, e; }
    var ok, bytes := dev.ReadLogged(sum.1, 128);
    if !ok { return ReadError, e; }
    GptEntryFits(bytes);
    return Parts([]), ParseGptEntry(bytes);
  }

  /** One round of the gathering loop. */
  method GatherOne(dev: Device, base: nat, entrySize: nat, i: nat, n: nat, parts: seq<Partition>) returns (g: Gathered)
    requires dev.Recording() && base < U64 && entrySize <= U32_MAX && i < n <= U32_MAX
    requires Collected(dev.logical, base, entrySize, i, parts)
    modifies dev`disk, dev`dirty, dev`cachedBlock, dev.cache
    ensures dev.Recording()
    ensures if g.Parts? then Collected(dev.logical, base, entrySize, i + 1, g.parts)
            else !Suitable(dev.logical, base, entrySize, n)
    ensures !g.Parts? ==> (g.ReadError? <==> Unreadable(dev.logical, base, entrySize, n))
  {
    var e;
    g, e := ReadEntry(dev, base, entrySize, i);
    if g.Parts? {
      GoodEntry(dev.logical, base, entrySize, i, n, parts);
      var ok, more := TakeEntry(e, parts);
      g := if ok then Parts(more) else Unsuitable;
    } else {
      BadEntry(dev.logical, base, entrySize, i, n);
    }
  }

  /** An entry that lies on the device is gathered, skipped or spoils the table. */
  lemma {:induction false} GoodEntry(d: seq<byte>, base: nat, entrySize: nat, i: nat, n: nat, parts: seq<Partition>)
    requires Collected(d, base, entrySize, i, parts) && EntryEnd(base, entrySize, i) <= |d| && i < n
    ensures var e := EntryAt(d, base, entrySize, i);
            if !InUse(e) || (|parts| != 4 && Convertible(e)) then
              Collected(d, base, entrySize, i + 1, parts + if InUse(e) then [Convert(e)] else [])
            else !Suitable(d, base, entrySize, n) && !Unreadable(d, base, entrySize, n)
  {
    CollectedStep(d, base, entrySize, i, parts);
    SuitablePrefix(d, base, entrySize, i + 1, n);
    FirstBadEntry(d, base, entrySize, i, n);
    assert parts + [] == parts;
  }

  /** An entry that does not spoils it too. */
  lemma {:induction false} BadEntry(d: seq<byte>, base: nat, entrySize: nat, i: nat, n: nat)
    requires Suitable(d, base, entrySize, i) && EntryEnd(base, entrySize, i) > |d| && i < n
    ensures !Suitable(d, base, entrySize, n)
    ensures Unreadable(d, base, entrySize, n) <==> base + i * entrySize < U64
  {
    SuitablePrefix(d, base, entrySize, i + 1, n);
    FirstBadEntry(d, base, entrySize, i, n);
    NotReadable(d, base, entrySize, i);
  }

  /** Once entry i spoils the table, whether it could be read decides. */
  lemma {:induction false} FirstBadEntry(d: seq<byte>, base: nat, entrySize: nat, i: nat, n: nat)
    requires i < n && Suitable(d, base, entrySize, i)
    ensures !Suitable(d, base, entrySize, i + 1) ==>
              (Unreadable(d, base, entrySize, n) <==> UnreadableAt(d, base, entrySize, i))
  {
    forall j: nat ensures UnreadableAt(d, base, entrySize, j) && !Suitable(d, base, entrySize, i + 1) ==> j == i {
      OneBadEntry(d, base, entrySize, i, j);
    }
  }

  lemma {:induction false} OneBadEntry(d: seq<byte>, base: nat, entrySize: nat, i: nat, j: nat)
    ensures (UnreadableAt(d, base, entrySize, j) && Suitable(d, base, entrySize, i)
             && !Suitable(d, base, entrySize, i + 1)) ==> j == i
  {
    NotReadable(d, base, entrySize, j);
    if j < i { SuitablePrefix(d, base, entrySize, j + 1, i); }
    if i < j { SuitablePrefix(d, base, entrySize, i + 1, j); }
  }

  lemma {:induction false} SuitableIsReadable(d: seq<byte>, base: nat, entrySize: nat, n: nat)
    ensures Suitable(d, base, entrySize, n) ==> !Unreadable(d, base, entrySize, n)
  {
    forall j: nat | j < n && UnreadableAt(d, base, entrySize, j) ensures !Suitable(d, base, entrySize, n) {
      NotReadable(d, base, entrySize, j);
      SuitablePrefix(d, base, entrySize, j + 1, n);
    }
  }

  /** The gathering loop. It changes neither the contents nor the log. */
  method Gather(dev: Device, base: nat, entrySize: nat, n: nat) returns (g: Gathered)
    requires dev.Recording() && base < U64 && entrySize <= U32_MAX && n <= U32_MAX
    modifies dev`disk, dev`dirty, dev`cachedBlock, dev.cache
    ensures dev.Recording()
    ensures g.Parts? <==> Suitable(dev.logical, base, entrySize, n)
    ensures g.ReadError? <==> Unreadable(dev.logical, base, entrySize, n)
    ensures g.Parts? ==> Collected(dev.logical, base, entrySize, n, g.parts)
  {
    g := Parts([]);
    for i := 0 to n
      invariant dev.Recording() && g.Parts? && Collected(dev.logical, base, entrySize, i, g.parts)
    {
      g := GatherOne(dev, base, entrySize, i, n, g.parts);
      if !g.Parts? { return; }
    }
    SuitableIsReadable(dev.logical, base, entrySize, n);
  }

  lemma {:induction false} NotReadable(d: seq<byte>, base: nat, entrySize: nat, i: nat)
    ensures EntryEnd(base, entrySize, i) > |d| ==> !Suitable(d, base, entrySize, i + 1)
  {
  }

  // ---- The table in the bytes of the disk ----

  /** The bytes of entry i. */
  ghost function Slot(d: seq<byte>, base: nat, entrySize: nat, i: nat): (b: seq<byte>)
    requires EntryEnd(base, entrySize, i) <= |d|
    ensures |b| == 128
  {
    d[base + i * entrySize..base + i * entrySize + 128]
  }

  /** The entries with a GUID of their own, in order. */
  ghost function UsedSlots(d: seq<byte>, base: nat, entrySize: nat, n: nat): (r: seq<nat>)
    requires TableOnDevice(|d|, base, entrySize, n)
    ensures forall k | 0 <= k < |r| :: r[k] < n
  {
    if n == 0 then []
    else UsedSlots(d, base, entrySize, n - 1)
         + if HasUniqueGuid(Slot(d, base, entrySize, n - 1)) then [n - 1] else []
  }

  lemma {:induction false} UsedSlotsExactly(d: seq<byte>, base: nat, entrySize: nat, n: nat)
    requires TableOnDevice(|d|, base, entrySize, n)
    ensures var r := UsedSlots(d, base, entrySize, n);
            && (forall j, k | 0 <= j < k < |r| :: r[j] < r[k])
            && forall i: nat :: i in r <==> i < n && HasUniqueGuid(Slot(d, base, entrySize, i))
  {
    if n > 0 { UsedSlotsExactly(d, base, entrySize, n - 1); }
  }

  lemma {:induction false} UsedFromSlots(d: seq<byte>, base: nat, entrySize: nat, n: nat)
    requires TableOnDevice(|d|, base, entrySize, n)
    ensures var used, r := Used(Entries(d, base, entrySize, n)), UsedSlots(d, base, entrySize, n);
            |used| == |r| && forall k | 0 <= k < |r| :: used[k] == ParseGptEntry(Slot(d, base, entrySize, r[k]))
  {
    if n > 0 {
      UsedFromSlots(d, base, entrySize, n - 1);
      UsedAppend(Entries(d, base, entrySize, n - 1), EntryAt(d, base, entrySize, n - 1));
      InUseInBytes(Slot(d, base, entrySize, n - 1));
    }
  }

  /** The table is on the device and at most four entries are used, each with an MBR form. */
  ghost predicate FitsMbr(d: seq<byte>, base: nat, entrySize: nat, n: nat) {
    && (forall i: nat | i < n :: EntryEnd(base, entrySize, i) <= |d|)
    && var r := UsedSlots(d, base, entrySize, n);
       |r| <= 4 && forall k | 0 <= k < |r| :: HasMbrForm(Slot(d, base, entrySize, r[k]))
  }

  lemma {:induction false} SuitableInBytes(d: seq<byte>, base: nat, entrySize: nat, n: nat)
    ensures Suitable(d, base, entrySize, n) <==> FitsMbr(d, base, entrySize, n)
  {
    if TableOnDevice(|d|, base, entrySize, n) {
      var r := UsedSlots(d, base, entrySize, n);
      UsedFromSlots(d, base, entrySize, n);
      forall k | 0 <= k < |r|
        ensures Convertible(Used(Entries(d, base, entrySize, n))[k]) <==> HasMbrForm(Slot(d, base, entrySize, r[k]))
      {
        ConvertibleInBytes(Slot(d, base, entrySize, r[k]));
      }
    }
  }

  /** The record in the k-th place of the MBR describes the k-th used entry of the GPT that the disk had. */
  ghost predicate Carried(d: seq<byte>, after: seq<byte>, base: nat, entrySize: nat, n: nat) {
    && |after| >= 512 && TableOnDevice(|d|, base, entrySize, n)
    && var r := UsedSlots(d, base, entrySize, n);
       |r| <= 4 && forall k: nat | k < |r| ::
         Describes(after[446 + 16 * k..446 + 16 * k + 16], Slot(d, base, entrySize, r[k]))
  }

  lemma {:induction false} RecordsCarry(d: seq<byte>, after: seq<byte>, base: nat, entrySize: nat, n: nat)
    requires |after| >= 512 && Suitable(d, base, entrySize, n)
    requires var used := Used(Entries(d, base, entrySize, n));
             forall k: nat | k < |used| :: RecordAt(after, k) == Expected(used[k]).(status := RecordAt(after, k).status)
    ensures Carried(d, after, base, entrySize, n)
  {
    var r := UsedSlots(d, base, entrySize, n);
    UsedFromSlots(d, base, entrySize, n);
    forall k: nat | k < |r|
      ensures Describes(after[446 + 16 * k..446 + 16 * k + 16], Slot(d, base, entrySize, r[k]))
    {
      ExpectedDescribes(after[446 + 16 * k..446 + 16 * k + 16], Slot(d, base, entrySize, r[k]),
                        RecordAt(after, k).status);
    }
  }

  // ---- Writing ----

  /** device_write while installing: it needs a free log entry. */
  method Put(dev: Device, data: seq<byte>, loc: nat) returns (ok: bool)
    requires dev.Recording() && loc <= NO_BLOCK && data != []
    modifies dev`disk, dev`dirty, dev`cachedBlock, dev.cache, dev`logical, dev.uninstallData, dev`uninstallDataI
    ensures dev.Recording()
    ensures ok <==> loc + |data| <= dev.size && old(dev.uninstallDataI) < UNINSTALL_DATA_MAX
    ensures ok ==> dev.logical == Overwrite(old(dev.logical), loc, data)
    ensures !ok ==> dev.logical == old(dev.logical)
    ensures dev.uninstallDataI == old(dev.uninstallDataI) + if ok then 1 else 0
  {
    ghost var log := dev.Log();
    dev.OpenRecording();
    ok := dev.Write(data, loc);
    if ok {
      assert |dev.Log()| == |log| + 1;
      LogStorableGrows(log, dev.Log()[|log|], dev.size);
    } else {
      assert |dev.Log()| == |log|;
    }
  }

  function Zeros(n: nat): (z: seq<byte>)
    ensures |z| == n
  {
    seq(n, _ => 0)
  }

  ghost predicate Zeroed(before: seq<byte>, after: seq<byte>, lo: nat, hi: nat) {
    |before| == |after| && forall k | 0 <= k < |before| :: after[k] == if lo <= k < hi then 0 else before[k]
  }

  lemma {:induction false} ZeroedStep(before: seq<byte>, d: seq<byte>, lo: nat, at: nat, n: nat)
    requires lo <= at && Zeroed(before, d, lo, at)
    ensures Zeroed(before, Overwrite(d, at, Zeros(n)), lo, at + n)
  {
  }

  lemma {:induction false} BlockStep(a: nat, b: nat, lb: nat)
    ensures (a + 1) * lb == a * lb + lb
    ensures a < b ==> a * lb + lb <= b * lb
  {
    Bits.MulMonotone(a + 1, b, lb);
  }

  /** Zeroes `count` blocks from block `first` on. */
  method WipeBlocks(dev: Device, lb: nat, first: nat, count: nat) returns (ok: bool)
    requires dev.Recording() && 512 <= lb <= 4096 && first + count <= U64 && count > 0
    modifies dev`disk, dev`dirty, dev`cachedBlock, dev.cache, dev`logical, dev.uninstallData, dev`uninstallDataI
    ensures dev.Recording()
    ensures ok <==> (first + count) * lb <= dev.size && old(dev.uninstallDataI) + count <= UNINSTALL_DATA_MAX
    ensures ok ==> Zeroed(old(dev.logical), dev.logical, first * lb, (first + count) * lb)
    ensures ok ==> dev.uninstallDataI == old(dev.uninstallDataI) + count
  {
    for i := 0 to count
      invariant dev.Recording() && Zeroed(old(dev.logical), dev.logical, first * lb, (first + i) * lb)
      invariant dev.uninstallDataI == old(dev.uninstallDataI) + i
      invariant i == 0 || (first + i) * lb <= dev.size
    {
      BlockStep(first + i, first + count, lb);
      Bits.MulMonotone(first, first + i, lb);
      ZeroedStep(old(dev.logical), dev.logical, first * lb, (first + i) * lb, lb);
      var loc := MulOverflow(first + i, lb);
      if loc.0 { return false; }
      ok := Put(dev, Zeros(lb), loc.1);
      if !ok { return; }
    }
    ok := true;
  }

  /** The disk identifier, byte by byte. */
  method WriteDiskId(dev: Device, id: seq<byte>) returns (ok: bool)
    requires dev.Recording() && dev.size >= 512 && |id| == 4
    modifies dev`disk, dev`dirty, dev`cachedBlock, dev.cache, dev`logical, dev.uninstallData, dev`uninstallDataI
    ensures dev.Recording()
    ensures ok <==> old(dev.uninstallDataI) + 4 <= UNINSTALL_DATA_MAX
    ensures ok ==> dev.logical == Overwrite(old(dev.logical), 0x1b8, id)
    ensures ok ==> dev.uninstallDataI == old(dev.uninstallDataI) + 4
  {
    for i := 0 to 4
      invariant dev.Recording() && dev.logical == Overwrite(old(dev.logical), 0x1b8, id[..i])
      invariant dev.uninstallDataI == old(dev.uninstallDataI) + i
    {
      assert Overwrite(Overwrite(old(dev.logical), 0x1b8, id[..i]), 0x1b8 + i, [id[i]])
          == Overwrite(old(dev.logical), 0x1b8, id[..i + 1]);
      ok := Put(dev, [id[i]], 0x1b8 + i);
      if !ok { return; }
    }
    assert id[..4] == id;
    ok := true;
  }

  const TABLE: nat := 0x1be

  /** The fields of one record, in the order they are written. */
  method WriteEntry(dev: Device, p: Partition, i: nat) returns (ok: bool)
    requires dev.Recording() && dev.size >= 512 && i < 4 && Writable(p)
    modifies dev`disk, dev`dirty, dev`cachedBlock, dev.cache, dev`logical, dev.uninstallData, dev`uninstallDataI
    ensures dev.Recording()
    ensures ok <==> old(dev.uninstallDataI) + 5 <= UNINSTALL_DATA_MAX
    ensures ok ==> var at := TABLE + i * 16;
                   dev.logical == Overwrite(old(dev.logical), at, EncodeMbrEntry(old(dev.logical)[at], p))
    ensures ok ==> dev.uninstallDataI == old(dev.uninstallDataI) + 5
  {
    var at := TABLE + i * 16;
    ghost var d := dev.logical;
    ok := Put(dev, [p.kind], at + 4);
    if !ok { return; }
    ok := Put(dev, LeBytes(p.start, 4), at + 8);
    if !ok { return; }
    ok := Put(dev, LeBytes(SectorCount(p.start, p.end), 4), at + 12);
    if !ok { return; }
    ok := Put(dev, p.chsStart, at + 1);
    if !ok { return; }
    ok := Put(dev, p.chsEnd, at + 5);
    RecordWritten(d, at, p);
  }

  /** Five writes that leave the status byte alone make one record. */
  lemma {:induction false} RecordWritten(d: seq<byte>, at: nat, p: Partition)
    requires Writable(p) && at + 16 <= |d|
    ensures var d1 := Overwrite(d, at + 4, [p.kind]);
            var d2 := Overwrite(d1, at + 8, LeBytes(p.start, 4));
            var d3 := Overwrite(d2, at + 12, LeBytes(SectorCount(p.start, p.end), 4));
            var d4 := Overwrite(d3, at + 1, p.chsStart);
            Overwrite(d4, at + 5, p.chsEnd) == Overwrite(d, at, EncodeMbrEntry(d[at], p))
  {
    var b := EncodeMbrEntry(d[at], p);
    EncodedFields(d[at], p);
    RecordPieces(d, at, b);
  }

  lemma {:induction false} RecordPieces(d: seq<byte>, at: nat, b: seq<byte>)
    requires |b| == 16 && at + 16 <= |d| && b[0] == d[at]
    ensures var d1 := Overwrite(d, at + 4, [b[4]]);
            var d2 := Overwrite(d1, at + 8, b[8..12]);
            var d3 := Overwrite(d2, at + 12, b[12..16]);
            var d4 := Overwrite(d3, at + 1, b[1..4]);
            Overwrite(d4, at + 5, b[5..8]) == Overwrite(d, at, b)
  {
  }

  ghost predicate AllWritable(parts: seq<Partition>) {
    forall k | 0 <= k < |parts| :: Writable(parts[k])
  }

  /** The records of a partition table. */
  ghost function TableBytes(parts: seq<Partition>): (b: seq<byte>)
    requires AllWritable(parts)
    ensures |b| == 16 * |parts|
  {
    if parts == [] then [] else TableBytes(parts[..|parts| - 1]) + EncodeMbrEntry(0, parts[|parts| - 1])
  }

  lemma {:induction false} TableRecord(parts: seq<Partition>, k: nat)
    requires k < |parts| && AllWritable(parts)
    ensures TableBytes(parts)[16 * k..16 * k + 16] == EncodeMbrEntry(0, parts[k])
  {
    if k < |parts| - 1 {
      TableRecord(parts[..|parts| - 1], k);
      var front := TableBytes(parts[..|parts| - 1]);
      assert (front + EncodeMbrEntry(0, parts[|parts| - 1]))[16 * k..16 * k + 16] == front[16 * k..16 * k + 16];
    }
  }

  lemma {:induction false} TableGrows(d: seq<byte>, parts: seq<Partition>, i: nat)
    requires i < |parts| <= 4 && AllWritable(parts)
    requires |d| >= 512 && forall k | TABLE <= k < 0x1fe :: d[k] == 0
    ensures var at, table := TABLE + i * 16, Overwrite(d, TABLE, TableBytes(parts[..i]));
            && table[at] == 0
            && Overwrite(table, at, EncodeMbrEntry(0, parts[i])) == Overwrite(d, TABLE, TableBytes(parts[..i + 1]))
  {
    assert parts[..i + 1][..i] == parts[..i];
  }

  /** Writes the partition table into a zeroed sector. */
  method WriteTable(dev: Device, parts: seq<Partition>) returns (ok: bool)
    requires dev.Recording() && dev.size >= 512 && |parts| <= 4
    requires AllWritable(parts)
    requires forall k | TABLE <= k < 0x1fe :: dev.logical[k] == 0
    modifies dev`disk, dev`dirty, dev`cachedBlock, dev.cache, dev`logical, dev.uninstallData, dev`uninstallDataI
    ensures dev.Recording()
    ensures ok <==> old(dev.uninstallDataI) + 5 * |parts| <= UNINSTALL_DATA_MAX
    ensures ok ==> dev.logical == Overwrite(old(dev.logical), TABLE, TableBytes(parts))
    ensures ok ==> dev.uninstallDataI == old(dev.uninstallDataI) + 5 * |parts|
  {
    ghost var d := dev.logical;
    for i := 0 to |parts|
      invariant dev.Recording() && dev.logical == Overwrite(d, TABLE, TableBytes(parts[..i]))
      invariant dev.uninstallDataI == old(dev.uninstallDataI) + 5 * i
    {
      TableGrows(d, parts, i);
      ok := WriteEntry(dev, parts[i], i);
      if !ok { return; }
    }
    assert parts[..|parts|] == parts;
    ok := true;
  }

  // ---- The conversion ----

  datatype Outcome = Converted | Skipped | Failed

  /** "CD001", where an ISO 9660 image has it. */
  ghost predicate IsIso(d: seq<byte>) {
    32774 <= |d| && forall k | 0 <= k < 5 :: d[32769 + k] == "CD001"[k] as int
  }

  lemma {:induction false} IsoBytes(d: seq<byte>)
    requires 32774 <= |d|
    ensures IsIso(d) <==> Range(d, 32769, 5) == [0x43, 0x44, 0x30, 0x30, 0x31]
  {
    var s, text := Range(d, 32769, 5), "CD001";
    assert forall k | 0 <= k < 5 :: s[k] == d[32769 + k];
    assert text[0] as int == 0x43 && text[1] as int == 0x44 && text[4] as int == 0x31;
    assert text[2] as int == 0x30 && text[3] as int == 0x30;
    if IsIso(d) {
      assert s[0] == 0x43 && s[1] == 0x44 && s[2] == 0x30 && s[3] == 0x30 && s[4] == 0x31;
    }
  }

  ghost predicate TableSuits(d: seq<byte>, lb: nat, h: GptHeader) {
    h.partitionEntryLba * lb < U64 && Suitable(d, h.partitionEntryLba * lb, h.sizeOfEntry, h.numberOfEntries)
  }

  ghost predicate TableUnreadable(d: seq<byte>, lb: nat, h: GptHeader) {
    h.partitionEntryLba * lb < U64 && Unreadable(d, h.partitionEntryLba * lb, h.sizeOfEntry, h.numberOfEntries)
  }

  /** The partitions of a disk's GPT. */
  ghost function Partitions(d: seq<byte>, lb: nat, h: GptHeader): seq<GptEntry>
    requires TableSuits(d, lb, h)
  {
    Used(Entries(d, h.partitionEntryLba * lb, h.sizeOfEntry, h.numberOfEntries))
  }

  /** The bytes of the primary GPT with its protective MBR, and of the secondary GPT. */
  ghost predicate InGpt(k: nat, lb: nat, alt: nat) {
    k < 34 * lb || (alt >= 32 && (alt - 32) * lb <= k < (alt + 1) * lb)
  }

  ghost predicate GptWiped(before: seq<byte>, after: seq<byte>, lb: nat, alt: nat) {
    |before| == |after| && forall k | 0 <= k < |before| :: after[k] == if InGpt(k, lb, alt) then 0 else before[k]
  }

  /** The wiped areas lie on the device. */
  ghost predicate GptOnDevice(size: nat, lb: nat, alt: nat) {
    34 * lb <= size && (alt >= 32 ==> (alt + 1) * lb <= size)
  }

  /** The number of log entries the conversion takes. */
  function LogEntries(alt: nat, parts: nat): nat { 34 + (if alt >= 32 then 33 else 0) + 4 + 5 * parts }

  method WipeGpts(dev: Device, lb: nat, alt: nat) returns (ok: bool)
    requires dev.Recording() && 512 <= lb <= 4096 && alt < U64
    modifies dev`disk, dev`dirty, dev`cachedBlock, dev.cache, dev`logical, dev.uninstallData, dev`uninstallDataI
    ensures dev.Recording()
    ensures ok <==> GptOnDevice(dev.size, lb, alt)
                    && old(dev.uninstallDataI) + LogEntries(alt, 0) - 4 <= UNINSTALL_DATA_MAX
    ensures ok ==> GptWiped(old(dev.logical), dev.logical, lb, alt)
    ensures ok ==> dev.uninstallDataI == old(dev.uninstallDataI) + LogEntries(alt, 0) - 4
  {
    ghost var before := dev.logical;
    ok := WipeBlocks(dev, lb, 0, 34);
    if !ok { return; }
    ghost var mid := dev.logical;
    if alt >= 32 {
      ok := WipeBlocks(dev, lb, alt - 32, 33);
    }
    if ok { BothWiped(before, mid, dev.logical, lb, alt); }
  }

  lemma {:induction false} BothWiped(before: seq<byte>, mid: seq<byte>, after: seq<byte>, lb: nat, alt: nat)
    requires Zeroed(before, mid, 0 * lb, (0 + 34) * lb)
    requires if alt >= 32 then Zeroed(mid, after, (alt - 32) * lb, (alt - 32 + 33) * lb) else after == mid
    ensures GptWiped(before, after, lb, alt)
  {
    forall k | 0 <= k < |before| ensures after[k] == if InGpt(k, lb, alt) then 0 else before[k] {
      assert alt >= 32 ==> alt - 32 + 33 == alt + 1;
    }
  }

  /** What the conversion makes of a disk with these partitions. */
  ghost predicate IsConverted(before: seq<byte>, after: seq<byte>, lb: nat, alt: nat, id: seq<byte>,
                              used: seq<GptEntry>) {
    && 512 <= |after| == |before| && |used| <= 4 && AllConvertible(used)
    && after[0x1b8..0x1bc] == id
    && (forall k: nat | k < |used| :: RecordAt(after, k) == Expected(used[k]))
    && forall k | 0 <= k < |after| && !(0x1b8 <= k < 0x1bc) && !(TABLE <= k < TABLE + 16 * |used|) ::
         after[k] == if InGpt(k, lb, alt) then 0 else before[k]
  }

  function RecordAt(d: seq<byte>, k: nat): MbrEntry
    requires k < 4 && |d| >= 512
  {
    ParseMbrEntry(d[TABLE + 16 * k..TABLE + 16 * k + 16])
  }

  lemma {:induction false} PartsWritable(used: seq<GptEntry>)
    requires AllConvertible(used)
    ensures AllWritable(ConvertAll(used))
  {
    forall k | 0 <= k < |used| ensures Writable(ConvertAll(used)[k]) {
      ConvertedEntryReads(used[k]);
    }
  }

  lemma {:induction false} TableReads(d: seq<byte>, used: seq<GptEntry>, k: nat)
    requires AllConvertible(used) && k < |used| <= 4 && |d| >= 512 && AllWritable(ConvertAll(used))
    ensures RecordAt(Overwrite(d, TABLE, TableBytes(ConvertAll(used))), k) == Expected(used[k])
  {
    var parts := ConvertAll(used);
    TableRecord(parts, k);
    TableSlice(d, TableBytes(parts), k);
    ReadRecord(Overwrite(d, TABLE, TableBytes(parts)), k, EncodeMbrEntry(0, parts[k]));
    ConvertedEntryReads(used[k]);
  }

  lemma {:induction false} TableSlice(d: seq<byte>, table: seq<byte>, k: nat)
    requires |d| >= 512 && k < 4 && 16 * k + 16 <= |table| <= 64
    ensures Overwrite(d, TABLE, table)[TABLE + 16 * k..TABLE + 16 * k + 16] == table[16 * k..16 * k + 16]
  {
  }

  lemma {:induction false} ReadRecord(d: seq<byte>, k: nat, r: seq<byte>)
    requires |d| >= 512 && k < 4 && |r| == 16 && d[TABLE + 16 * k..TABLE + 16 * k + 16] == r
    ensures RecordAt(d, k) == ParseMbrEntry(r)
  {
  }

  lemma {:induction false} ConvertedDisk(before: seq<byte>, wiped: seq<byte>, lb: nat, alt: nat, id: seq<byte>,
                                         used: seq<GptEntry>)
    requires GptWiped(before, wiped, lb, alt) && |before| >= 512 && |id| == 4
    requires |used| <= 4 && AllConvertible(used) && AllWritable(ConvertAll(used))
    ensures IsConverted(before, Overwrite(Overwrite(wiped, 0x1b8, id), TABLE, TableBytes(ConvertAll(used))), lb, alt,
                        id, used)
  {
    var named := Overwrite(wiped, 0x1b8, id);
    forall k: nat | k < |used|
      ensures RecordAt(Overwrite(named, TABLE, TableBytes(ConvertAll(used))), k) == Expected(used[k])
    {
      TableReads(named, used, k);
    }
  }

  lemma {:induction false} SectorWiped(before: seq<byte>, wiped: seq<byte>, lb: nat, alt: nat, id: seq<byte>)
    requires GptWiped(before, wiped, lb, alt) && GptOnDevice(|before|, lb, alt) && lb >= 512 && |id| == 4
    ensures |before| >= 512 && forall k | TABLE <= k < 0x1fe :: Overwrite(wiped, 0x1b8, id)[k] == 0
  {
    assert 34 * lb >= 512;
    forall k | TABLE <= k < 0x1fe ensures Overwrite(wiped, 0x1b8, id)[k] == 0 {
      assert InGpt(k, lb, alt);
    }
  }

  /** Everything the conversion writes. */
  method WriteMbr(dev: Device, lb: nat, alt: nat, id: seq<byte>, parts: seq<Partition>, ghost used: seq<GptEntry>)
    returns (ok: bool)
    requires dev.Recording() && 512 <= lb <= 4096 && alt < U64 && |id| == 4
    requires |used| <= 4 && AllConvertible(used) && parts == ConvertAll(used)
    modifies dev`disk, dev`dirty, dev`cachedBlock, dev.cache, dev`logical, dev.uninstallData, dev`uninstallDataI
    ensures dev.Recording()
    ensures ok <==> GptOnDevice(dev.size, lb, alt)
                    && old(dev.uninstallDataI) + LogEntries(alt, |parts|) <= UNINSTALL_DATA_MAX
    ensures ok ==> IsConverted(old(dev.logical), dev.logical, lb, alt, id, used)
    ensures ok ==> dev.uninstallDataI == old(dev.uninstallDataI) + LogEntries(alt, |parts|)
  {
    ok := WipeGpts(dev, lb, alt);
    if !ok { return; }
    ghost var wiped := dev.logical;
    SectorWiped(old(dev.logical), wiped, lb, alt, id);
    PartsWritable(used);
    ok := WriteDiskId(dev, id);
    if !ok { return; }
    ok := WriteTable(dev, parts);
    ConvertedDisk(old(dev.logical), wiped, lb, alt, id, used);
  }

  /**
   The conversion. It is skipped before anything is written or done in full; a failure leaves
   the session as it is, so that the rollback restores the disk.
   */
  method ConvertToMbr(dev: Device, lb: nat, h: GptHeader, id: seq<byte>) returns (o: Outcome)
    requires dev.Recording() && (lb == 512 || lb == 4096) && HeaderFits(h) && |id| == 4
    modifies dev`disk, dev`dirty, dev`cachedBlock, dev.cache, dev`logical, dev.uninstallData, dev`uninstallDataI
    ensures dev.Recording()
    ensures var d := old(dev.logical);
            && (o.Converted? <==>
                && IsIso(d) && TableSuits(d, lb, h) && GptOnDevice(dev.size, lb, h.alternateLba)
                && old(dev.uninstallDataI) + LogEntries(h.alternateLba, |Partitions(d, lb, h)|) <= UNINSTALL_DATA_MAX)
            && (o.Converted? ==> IsConverted(d, dev.logical, lb, h.alternateLba, id, Partitions(d, lb, h)))
    ensures o.Converted? ==>
              Carried(old(dev.logical), dev.logical, h.partitionEntryLba * lb, h.sizeOfEntry, h.numberOfEntries)
    ensures o.Skipped? ==> dev.logical == old(dev.logical) && dev.Log() == old(dev.Log())
    ensures var d := old(dev.logical);
            o.Skipped? <==> |d| >= 32774 && (!IsIso(d) || (!TableSuits(d, lb, h) && !TableUnreadable(d, lb, h)))
    ensures o.Converted? ==> var d := old(dev.logical);
            dev.uninstallDataI == old(dev.uninstallDataI) + LogEntries(h.alternateLba, |Partitions(d, lb, h)|)
  {
    var ok, signature := dev.ReadLogged(32769, 5);
    if !ok { return Failed; }
    IsoBytes(dev.logical);
    if signature != [0x43, 0x44, 0x30, 0x30, 0x31] { return Skipped; }
    var base := MulOverflow(h.partitionEntryLba, lb);
    if base.0 { return Skipped; }
    var g := Gather(dev, base.1, h.sizeOfEntry, h.numberOfEntries);
    match g
    case ReadError => return Failed;
    case Unsuitable => return Skipped;
    case Parts(parts) =>
      ok := WriteMbr(dev, lb, h.alternateLba, id, parts, Partitions(dev.logical, lb, h));
      if !ok { return Failed; }
      RecordsCarry(old(dev.logical), dev.logical, base.1, h.sizeOfEntry, h.numberOfEntries);
      return Converted;
  }
}
