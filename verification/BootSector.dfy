/**
 The last steps of an installation: the boot sector and stage 2 are written over the device
 while the partition table and the timestamp of the old boot sector are carried over.
 */
module BootSector {
  import opened Journal
  import opened ByteCodec
  import opened UninstallFile
  import opened BlockDevice
  import opened PartitionTables
  import opened GptToMbr
  import opened MbrChecks
  import Bits

  /** Byte k of a device after the installation of an image with its stage 2 at the given place. */
  function InstalledByte(before: seq<byte>, image: seq<byte>, stage2: nat, k: nat): byte
    requires k < |before| && |image| >= 512
  {
    if 440 <= k < 510 || 218 <= k < 224 then before[k]
    else if 0x1a4 <= k < 0x1ac then Le64(stage2)[k - 0x1a4]
    else if stage2 <= k < stage2 + |image| - 512 then image[k - stage2 + 512]
    else if k < 512 then image[k]
    else before[k]
  }

  ghost predicate Installed(before: seq<byte>, after: seq<byte>, image: seq<byte>, stage2: nat)
    requires |image| >= 512
  {
    |after| == |before| && forall k: nat | k < |before| :: after[k] == InstalledByte(before, image, stage2, k)
  }

  /** The five writes, in order. */
  function Written(d: seq<byte>, image: seq<byte>, stage2: nat, timestamp: seq<byte>, table: seq<byte>): seq<byte>
    requires |image| > 512
  {
    var d1 := Overwrite(d, 0, image[..512]);
    var d2 := Overwrite(d1, stage2, image[512..]);
    var d3 := Overwrite(d2, 0x1a4, Le64(stage2));
    Overwrite(Overwrite(d3, 218, timestamp), 440, table)
  }

  lemma {:induction false} WrittenIsInstalled(d: seq<byte>, image: seq<byte>, stage2: nat)
    requires |image| > 512 && |d| >= 512
    ensures Installed(d, Written(d, image, stage2, d[218..224], d[440..510]), image, stage2)
  {
  }

  /** Writes the boot code and flushes the cache. */
  method WriteBootCode(dev: Device, image: seq<byte>, stage2: nat) returns (ok: bool)
    requires dev.Recording() && |image| > 512 && stage2 < U64
    modifies dev`disk, dev`dirty, dev`cachedBlock, dev.cache, dev`logical, dev.uninstallData, dev`uninstallDataI
    ensures dev.Recording()
    ensures ok <==> dev.size >= 512 && stage2 + |image| - 512 <= dev.size
                    && old(dev.uninstallDataI) + 5 <= UNINSTALL_DATA_MAX
    ensures ok ==> dev.disk == dev.logical && Installed(old(dev.logical), dev.logical, image, stage2)
    ensures ok ==> dev.uninstallDataI == old(dev.uninstallDataI) + 5
  {
    ghost var d := dev.logical;
    var timestamp, table;
    ok, timestamp := dev.ReadLogged(218, 6);
    if !ok { return; }
    ok, table := dev.ReadLogged(440, 70);
    if !ok { return; }
    ok := Put(dev, image[..512], 0);
    if !ok { return; }
    ok := Put(dev, image[512..], stage2);
    if !ok { return; }
    ok := Put(dev, Le64(stage2), 0x1a4);
    if !ok { return; }
    ok := Put(dev, timestamp, 218);
    if !ok { return; }
    ok := Put(dev, table, 440);
    if !ok { return; }
    WrittenIsInstalled(d, image, stage2);
    ok := dev.FlushLogged();
  }

  /** The partition table in the boot sector reads as before. */
  lemma {:induction false} TableSurvives(before: seq<byte>, after: seq<byte>, image: seq<byte>, stage2: nat, k: nat)
    requires |image| >= 512 && |before| >= 512 && Installed(before, after, image, stage2) && k < 4
    ensures RecordAt(after, k) == RecordAt(before, k)
    ensures after[0x1b8..0x1bc] == before[0x1b8..0x1bc]
  {
    assert after[TABLE + 16 * k..TABLE + 16 * k + 16] == before[TABLE + 16 * k..TABLE + 16 * k + 16];
  }

  /**
   A device without GPT with boot code on it: the records have only changed their status, the boot
   sector and what follows it up to the image's length are the image's, and the rest is as before.
   */
  ghost predicate BootInstalled(before: seq<byte>, after: seq<byte>, image: seq<byte>)
    requires |image| >= 512
  {
    && 512 <= |before| == |after|
    && (forall k: nat | k < 4 :: RecordAt(after, k) == RecordAt(before, k).(status := NewStatus(before, k)))
    && after[0x1b8..0x1bc] == before[0x1b8..0x1bc]
    && (forall k: nat | (218 <= k < 224 || 440 <= k < 510) && !IsStatus(k, 4) :: after[k] == before[k])
    && (forall k: nat | k < |image| && k < |after| && !CarriedOver(k) :: after[k] == image[k])
    && after[0x1a4..0x1ac] == Le64(512)
    && forall k: nat | |image| <= k < |after| :: after[k] == if IsErased(0, before, k) then 0 else before[k]
  }

  /** The bytes of a boot sector that are not the image's: timestamp, stage 2's location, disk identifier and table. */
  predicate CarriedOver(k: nat) { 218 <= k < 224 || 0x1a4 <= k < 0x1ac || 440 <= k < 510 }

  lemma {:induction false} BootInstalledAfter(before: seq<byte>, mid: seq<byte>, after: seq<byte>, image: seq<byte>)
    requires |image| > 512 && Prepared(before, mid) && Installed(mid, after, image, 512)
    ensures BootInstalled(before, after, image)
  {
    forall k: nat | k < 4 ensures RecordAt(after, k) == RecordAt(before, k).(status := NewStatus(before, k)) {
      TableSurvives(mid, after, image, 512, k);
    }
    TableSurvives(mid, after, image, 512, 0);
    IdKept(before, mid);
    forall k: nat | k < |image| && k < |after| && !CarriedOver(k) ensures after[k] == image[k] {
      assert after[k] == InstalledByte(mid, image, 512, k);
    }
    forall k: nat | (218 <= k < 224 || 440 <= k < 510) && !IsStatus(k, 4) ensures after[k] == before[k] {
      assert after[k] == InstalledByte(mid, image, 512, k) && !IsErased(0, before, k);
    }
    forall k | 0 <= k < 8 ensures after[0x1a4..0x1ac][k] == Le64(512)[k] {
      assert after[0x1a4 + k] == InstalledByte(mid, image, 512, 0x1a4 + k);
    }
    forall k: nat | |image| <= k < |after| ensures after[k] == if IsErased(0, before, k) then 0 else before[k] {
      assert after[k] == InstalledByte(mid, image, 512, k);
      assert !IsStatus(k, 4);
    }
  }

  /** The checks, the boot code and the flush on a device without GPT. */
  method InstallToMbr(dev: Device, force: bool, image: seq<byte>) returns (ok: bool)
    requires dev.Recording() && |image| > 512 && dev.size >= 512
    modifies dev`disk, dev`dirty, dev`cachedBlock, dev.cache, dev`logical, dev.uninstallData, dev`uninstallDataI
    ensures dev.Recording()
    ensures ok <==> Installable(old(dev.logical), force, image, old(dev.uninstallDataI))
    ensures ok ==> dev.disk == dev.logical && BootInstalled(old(dev.logical), dev.disk, image)
  {
    ok := PrepareMbr(dev, force);
    if !ok { return; }
    ghost var mid := dev.logical;
    ok := WriteBootCode(dev, image, 512);
    if ok { BootInstalledAfter(old(dev.logical), mid, dev.disk, image); }
  }

  /** The device is accepted, the image fits it, and the log has room. */
  ghost predicate Installable(d: seq<byte>, force: bool, image: seq<byte>, logged: nat)
    requires |d| >= 512
  {
    Accepted(d, force) && |image| <= |d| && logged + CheckWrites(d, force) + 5 <= UNINSTALL_DATA_MAX
  }

  lemma {:induction false} IdKept(d: seq<byte>, d': seq<byte>)
    requires Prepared(d, d')
    ensures d'[0x1b8..0x1bc] == d[0x1b8..0x1bc]
  {
    forall j: nat | 0x1b8 <= j < 0x1bc ensures d'[j] == d[j] {
      assert !IsStatus(j, 4) && !IsErased(0, d, j);
    }
  }

  /** A freshly converted table has no active partition, so the first one becomes active. */
  lemma {:induction false} ConvertedIsInactive(before: seq<byte>, after: seq<byte>, lb: nat, alt: nat, id: seq<byte>,
                                               used: seq<GptEntry>, k: nat)
    requires IsConverted(before, after, lb, alt, id, used) && lb >= 512 && k < 4
    ensures after[At(k)] == 0
  {
    if k < |used| {
      RecordFields(after, k);
      assert RecordAt(after, k) == Expected(used[k]);
    } else {
      assert InGpt(At(k), lb, alt);
    }
  }

  lemma {:induction false} FirstBecomesActive(before: seq<byte>, after: seq<byte>, lb: nat, alt: nat, id: seq<byte>,
                                              used: seq<GptEntry>, k: nat)
    requires IsConverted(before, after, lb, alt, id, used) && lb >= 512 && k < 4
    ensures NewStatus(after, k) == if k == 0 then 0x80 else 0
  {
    forall i: nat | i < 4 ensures after[At(i)] == 0 {
      ConvertedIsInactive(before, after, lb, alt, id, used, i);
    }
  }

  /** The disk's MBR is the GPT it had, in MBR form, with the first partition active. */
  ghost predicate TableTranslated(orig: seq<byte>, disk: seq<byte>, lb: nat, h: GptHeader) {
    && TableSuits(orig, lb, h) && |disk| >= 512
    && disk[446] == 0x80 && disk[462] == 0 && disk[478] == 0 && disk[494] == 0
    && Carried(orig, disk, h.partitionEntryLba * lb, h.sizeOfEntry, h.numberOfEntries)
    && (var used := Partitions(orig, lb, h);
        && |used| <= 4 && AllConvertible(used)
        && (forall k: nat | k < |used| ::
              RecordAt(disk, k) == Expected(used[k]).(status := if k == 0 then 0x80 else 0))
        && forall k: nat | TABLE + 16 * |used| <= k < 510 && !IsStatus(k, 4) :: disk[k] == 0)
  }

  /** Beside the table, the boot code is in place, and behind it only the GPTs are gone. */
  ghost predicate Translated(orig: seq<byte>, disk: seq<byte>, lb: nat, h: GptHeader, id: seq<byte>, image: seq<byte>) {
    && TableTranslated(orig, disk, lb, h) && 512 <= |disk| == |orig| && disk[0x1b8..0x1bc] == id
    && disk[0x1a4..0x1ac] == Le64(512) && (forall k: nat | 218 <= k < 224 :: disk[k] == 0)
    && (forall k: nat | k < |image| && k < |disk| && !CarriedOver(k) :: disk[k] == image[k])
    && forall k: nat | |image| <= k < |disk| && k >= 512 ::
         disk[k] == if InGpt(k, lb, h.alternateLba) then 0 else orig[k]
  }

  lemma {:induction false} TableTranslatedAfter(orig: seq<byte>, mid: seq<byte>, disk: seq<byte>, lb: nat, h: GptHeader,
                                                id: seq<byte>, image: seq<byte>)
    requires TableSuits(orig, lb, h) && lb >= 512 && |image| > 512
    requires IsConverted(orig, mid, lb, h.alternateLba, id, Partitions(orig, lb, h)) && BootInstalled(mid, disk, image)
    ensures TableTranslated(orig, disk, lb, h)
  {
    var used := Partitions(orig, lb, h);
    forall k: nat | k < |used|
      ensures RecordAt(disk, k) == Expected(used[k]).(status := if k == 0 then 0x80 else 0)
    {
      FirstBecomesActive(orig, mid, lb, h.alternateLba, id, used, k);
    }
    RecordsCarry(orig, disk, h.partitionEntryLba * lb, h.sizeOfEntry, h.numberOfEntries);
    ActiveBytes(orig, mid, disk, lb, h.alternateLba, id, used, image, 0, 446);
    ActiveBytes(orig, mid, disk, lb, h.alternateLba, id, used, image, 1, 462);
    ActiveBytes(orig, mid, disk, lb, h.alternateLba, id, used, image, 2, 478);
    ActiveBytes(orig, mid, disk, lb, h.alternateLba, id, used, image, 3, 494);
  }

  lemma {:induction false} ActiveBytes(orig: seq<byte>, mid: seq<byte>, disk: seq<byte>, lb: nat, alt: nat,
                                       id: seq<byte>, used: seq<GptEntry>, image: seq<byte>, k: nat, at: nat)
    requires IsConverted(orig, mid, lb, alt, id, used) && |image| > 512 && BootInstalled(mid, disk, image)
    requires lb >= 512 && k < 4 && at == 446 + 16 * k
    ensures disk[at] == if k == 0 then 0x80 else 0
  {
    FirstBecomesActive(orig, mid, lb, alt, id, used, k);
    RecordFields(disk, k);
    assert RecordAt(disk, k) == RecordAt(mid, k).(status := NewStatus(mid, k));
  }

  lemma {:induction false} TranslatedAfter(orig: seq<byte>, mid: seq<byte>, disk: seq<byte>, lb: nat, h: GptHeader,
                                           id: seq<byte>, image: seq<byte>)
    requires TableSuits(orig, lb, h) && lb >= 512 && |image| > 512
    requires IsConverted(orig, mid, lb, h.alternateLba, id, Partitions(orig, lb, h)) && BootInstalled(mid, disk, image)
    ensures Translated(orig, disk, lb, h, id, image)
  {
    TableTranslatedAfter(orig, mid, disk, lb, h, id, image);
    ConvertedHasNoHint(orig, mid, lb, h.alternateLba, id, Partitions(orig, lb, h));
  }

  /** A partition that is clear of both GPTs, in blocks. */
  predicate ClearOfGpts(e: GptEntry, alt: nat) {
    34 <= e.start && (alt < 32 || e.end + 32 < alt || alt < e.start)
  }

  /** Every partition of the old table that lies behind the boot code and clear of the GPTs keeps its bytes. */
  lemma {:induction false} PartitionKept(orig: seq<byte>, disk: seq<byte>, lb: nat, h: GptHeader, id: seq<byte>,
                                         image: seq<byte>, e: GptEntry, k: nat)
    requires Translated(orig, disk, lb, h, id, image) && e in Partitions(orig, lb, h) && lb >= 512
    requires ClearOfGpts(e, h.alternateLba) && |image| <= e.start * lb
    requires e.start * lb <= k < (e.end + 1) * lb && k < |disk|
    ensures disk[k] == orig[k]
  {
    OutsideGpts(e, lb, h.alternateLba, k);
  }

  lemma {:induction false} OutsideGpts(e: GptEntry, lb: nat, alt: nat, k: nat)
    requires lb >= 512 && ClearOfGpts(e, alt) && e.start * lb <= k < (e.end + 1) * lb
    ensures !InGpt(k, lb, alt) && k >= 34 * 512
  {
    Bits.MulMonotone(34, e.start, lb);
    Bits.MulMonotone(alt + 1, e.start, lb);
    if alt >= 32 {
      Bits.MulMonotone(e.end + 1, alt - 32, lb);
    }
  }

  /** When a conversion and the installation after it succeed. */
  ghost predicate Succeeds(d: seq<byte>, lb: nat, h: GptHeader, image: seq<byte>) {
    && IsIso(d) && TableSuits(d, lb, h) && GptOnDevice(|d|, lb, h.alternateLba) && |image| <= |d|
    && StartsHigh(Partitions(d, lb, h))
  }

  ghost predicate StartsHigh(used: seq<GptEntry>) { forall k | 0 <= k < |used| :: used[k].start >= 63 }

  /** No filesystem signature is left in the wiped GPT. */
  lemma {:induction false} ConvertedHasNoHint(before: seq<byte>, after: seq<byte>, lb: nat, alt: nat, id: seq<byte>,
                                              used: seq<GptEntry>)
    requires IsConverted(before, after, lb, alt, id, used) && lb >= 512
    ensures NoFilesystem(0, after) && HintCount(0, after, 0) == 0
  {
    forall i | 0 <= i < 5 ensures !HasHint(after, Hints(0)[i]) {
      var h := Hints(0)[i];
      assert InGpt(h.at, lb, alt);
      HintsAreGood(0);
      assert GoodHint(0, h) && h.magic[0] != 0;
      assert h.at < |after| ==> after[h.at + 0] == 0;
    }
    NoHintCount(after, 0);
    HintTexts(0, after);
  }

  lemma {:induction false} NoHintCount(d: seq<byte>, i: nat)
    requires i <= 5 && NoHint(0, d, 5)
    ensures HintCount(0, d, i) == 0
    decreases 5 - i
  {
    if i < 5 { NoHintCount(d, i + 1); }
  }

  lemma {:induction false} GoodTableWrites(d: seq<byte>, force: bool, n: nat)
    requires n <= 4 && |d| >= 512 && StatusesGood(d, 4)
    ensures TableWrites(d, force, n) == 0
  {
    if n > 0 { GoodTableWrites(d, force, n - 1); }
  }

  /** The records of a converted table start high enough exactly if the GPT's partitions do. */
  lemma {:induction false} ConvertedStarts(before: seq<byte>, after: seq<byte>, lb: nat, alt: nat, id: seq<byte>,
                                           used: seq<GptEntry>)
    requires IsConverted(before, after, lb, alt, id, used) && lb >= 512
    ensures StartsOk(after, 4) <==> StartsHigh(used)
  {
    forall k: nat | k < 4
      ensures StartOk(after, k) <==> (k < |used| ==> used[k].start >= 63)
    {
      RecordFields(after, k);
      if k < |used| {
        assert RecordAt(after, k) == Expected(used[k]);
      } else {
        assert InGpt(At(k) + 4, lb, alt);
      }
    }
    if StartsOk(after, 4) {
      forall k | 0 <= k < |used| ensures used[k].start >= 63 {
        assert StartOk(after, k);
      }
    }
  }

  lemma {:induction false} ConvertedInstallable(before: seq<byte>, after: seq<byte>, lb: nat, alt: nat, id: seq<byte>,
                                                used: seq<GptEntry>, force: bool, image: seq<byte>, logged: nat)
    requires IsConverted(before, after, lb, alt, id, used) && lb >= 512 && GptOnDevice(|after|, lb, alt)
    requires logged + 6 <= UNINSTALL_DATA_MAX
    ensures Installable(after, force, image, logged) <==> |image| <= |after| && StartsHigh(used)
  {
    ConvertedStarts(before, after, lb, alt, id, used);
    ConvertedHasNoHint(before, after, lb, alt, id, used);
    forall k: nat | k < 4 ensures after[At(k)] == 0 {
      ConvertedIsInactive(before, after, lb, alt, id, used, k);
    }
    GoodTableWrites(after, force, 4);
    AcceptedExactly(after, force);
    assert 34 * lb >= REACH;
  }

  /**
   A session that starts with the conversion. If the device is converted, it ends with the boot
   code and the old partitions in an MBR, and the log restores the original disk; if anything
   fails, the disk is exactly as it was; if the conversion is skipped, nothing has been changed
   and the session goes on.
   */
  method ConvertAndInstall(dev: Device, lb: nat, h: GptHeader, id: seq<byte>, force: bool, image: seq<byte>)
    returns (o: Outcome)
    requires dev.InSession() && dev.Log() == [] && dev.logical == dev.orig
    requires (lb == 512 || lb == 4096) && HeaderFits(h) && |id| == 4 && |image| > 512
    modifies dev, dev.cache, dev.uninstallData, dev.uninstallDataRev
    ensures dev.Valid() && dev.LogValid()
    ensures o.Converted? ==> Translated(dev.orig, dev.disk, lb, h, id, image) && Replay(dev.Log(), dev.disk) == dev.orig
    ensures o.Failed? ==> dev.disk == dev.orig
    ensures o.Converted? ==> LogStorable(dev.Log(), dev.size)
    ensures o.Skipped? ==> dev.InSession() && dev.Log() == [] && dev.logical == dev.orig
    ensures var d := dev.orig;
            o.Skipped? <==> |d| >= 32774 && (!IsIso(d) || (!TableSuits(d, lb, h) && !TableUnreadable(d, lb, h)))
    ensures o.Converted? <==> Succeeds(dev.orig, lb, h, image)
  {
    dev.StartRecording();
    o := ConvertToMbr(dev, lb, h, id);
    ghost var mid := dev.logical;
    if o.Skipped? { return; }
    var ok := false;
    if o.Converted? {
      ConvertedInstallable(dev.orig, mid, lb, h.alternateLba, id, Partitions(dev.orig, lb, h), force, image,
                           dev.uninstallDataI);
      ok := InstallToMbr(dev, force, image);
      if ok { TranslatedAfter(dev.orig, mid, dev.disk, lb, h, id, image); }
    }
    dev.OpenRecording();
    LogStorableReversed(dev.Log(), dev.size);
    dev.CleanUp(ok);
    o := if ok then Converted else Failed;
  }

  /**
   A conversion and installation whose log is stored and read back by the uninstaller in a later run:
   whatever becomes of it, the disk is the original one again.
   */
  method ConvertThenUninstall(contents: seq<byte>, lb: nat, h: GptHeader, id: seq<byte>, force: bool, image: seq<byte>,
                              sector: nat) returns (o: Outcome, ok: bool, after: seq<byte>)
    requires WholeBlocks(|contents|, sector)
    requires (lb == 512 || lb == 4096) && HeaderFits(h) && |id| == 4 && |image| > 512
    ensures after == contents
    ensures (exists g: nat :: IsBlockSize(g, |contents|, sector)) && Succeeds(contents, lb, h, image) ==>
              o.Converted? && ok
  {
    o, ok, after := Failed, false, contents;
    var dev := DeviceInit(contents, sector);
    if dev == null { return; }
    o := ConvertAndInstall(dev, lb, h, id, force, image);
    if !o.Converted? {
      if o.Skipped? { dev.Untouched(); }
      return o, false, dev.disk;
    }
    FileRoundTrip(dev.Log());
    var stored, file := dev.StoreUninstallData();
    ok, after := UninstallMode(dev.disk, file, sector);
  }
}
