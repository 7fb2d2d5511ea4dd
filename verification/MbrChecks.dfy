/**
 The checks on a device without GPT before boot code goes onto it: the records of its
 partition table, and whether it holds a filesystem instead.
 */
module MbrChecks {
  import opened Journal
  import opened ByteCodec
  import opened UninstallFile
  import opened BlockDevice
  import opened PartitionTables
  import opened GptToMbr

  // ---- Filesystem signatures ----

  /** A signature: where it stands, its bytes, and how many bytes are cleared to remove it. */
  datatype Hint = Hint(at: nat, magic: seq<byte>, clear: nat)

  /** "NTFS", twice "FAT", "FAT32", and the ext superblock's 0xef53, for a filesystem that starts at `offset`. */
  function Hints(offset: nat): (h: seq<Hint>)
    ensures |h| == 5
  {
    [Hint(offset + 3, [0x4e, 0x54, 0x46, 0x53], 4), Hint(offset + 54, [0x46, 0x41, 0x54], 5),
     Hint(offset + 82, [0x46, 0x41, 0x54], 5), Hint(offset + 3, [0x46, 0x41, 0x54, 0x33, 0x32], 5),
     Hint(offset + 1080, [0x53, 0xef], 2)]
  }

  /** How far behind the offset the signatures reach. */
  const REACH: nat := 1082

  ghost predicate HasHint(d: seq<byte>, h: Hint) {
    h.at + |h.magic| <= |d| && forall k | 0 <= k < |h.magic| :: d[h.at + k] == h.magic[k]
  }

  /** A text on the device. */
  ghost predicate TextAt(d: seq<byte>, at: nat, text: string) {
    at + |text| <= |d| && forall k | 0 <= k < |text| :: d[at + k] == text[k] as int
  }

  ghost predicate ExtMagicAt(d: seq<byte>, at: nat) { at + 2 <= |d| && d[at] == 0x53 && d[at + 1] == 0xef }

  /** The signatures, read as texts. */
  lemma {:induction false} HintTexts(offset: nat, d: seq<byte>)
    ensures HasHint(d, Hints(offset)[0]) <==> TextAt(d, offset + 3, "NTFS")
    ensures HasHint(d, Hints(offset)[1]) <==> TextAt(d, offset + 54, "FAT")
    ensures HasHint(d, Hints(offset)[2]) <==> TextAt(d, offset + 82, "FAT")
    ensures HasHint(d, Hints(offset)[3]) <==> TextAt(d, offset + 3, "FAT32")
    ensures HasHint(d, Hints(offset)[4]) <==> ExtMagicAt(d, offset + 1080)
  {
    MagicText(d, Hints(offset)[0], "NTFS");
    MagicText(d, Hints(offset)[1], "FAT");
    MagicText(d, Hints(offset)[2], "FAT");
    MagicText(d, Hints(offset)[3], "FAT32");
    ExtMagic(d, Hints(offset)[4]);
  }

  lemma {:induction false} MagicText(d: seq<byte>, h: Hint, text: string)
    requires |text| == |h.magic| && forall k | 0 <= k < |text| :: h.magic[k] == text[k] as int
    ensures HasHint(d, h) <==> TextAt(d, h.at, text)
  {
  }

  lemma {:induction false} ExtMagic(d: seq<byte>, h: Hint)
    requires |h.magic| == 2 && h.magic[0] == 0x53 && h.magic[1] == 0xef
    ensures HasHint(d, h) <==> ExtMagicAt(d, h.at)
  {
    assert h.at + 2 <= |d| ==> d[h.at + 0] == d[h.at];
  }

  /** No filesystem announces itself. */
  ghost predicate NoFilesystem(offset: nat, d: seq<byte>) {
    && !TextAt(d, offset + 3, "NTFS") && !TextAt(d, offset + 54, "FAT") && !TextAt(d, offset + 82, "FAT")
    && !TextAt(d, offset + 3, "FAT32") && !ExtMagicAt(d, offset + 1080)
  }

  /** The bytes that force clears. */
  ghost predicate IsErased(offset: nat, d: seq<byte>, k: nat) {
    || (TextAt(d, offset + 3, "NTFS") && offset + 3 <= k < offset + 7)
    || (TextAt(d, offset + 54, "FAT") && offset + 54 <= k < offset + 59)
    || (TextAt(d, offset + 82, "FAT") && offset + 82 <= k < offset + 87)
    || (TextAt(d, offset + 3, "FAT32") && offset + 3 <= k < offset + 8)
    || (ExtMagicAt(d, offset + 1080) && offset + 1080 <= k < offset + 1082)
  }

  /** Nothing changed but the signatures, which were cleared. */
  ghost predicate Erased(offset: nat, before: seq<byte>, after: seq<byte>) {
    |before| == |after|
    && forall k: nat | k < |before| :: after[k] == if IsErased(offset, before, k) then 0 else before[k]
  }

  /** The same for the first n signatures. */
  ghost predicate ErasedFirst(offset: nat, before: seq<byte>, after: seq<byte>, n: nat)
    requires n <= 5
  {
    |before| == |after|
    && forall k: nat | k < |before| :: after[k] == if InHints(offset, before, n, k) then 0 else before[k]
  }

  ghost predicate InHints(offset: nat, d: seq<byte>, n: nat, k: nat)
    requires n <= 5
  {
    exists i | 0 <= i < n :: InHint(d, Hints(offset)[i], k)
  }

  ghost predicate InHint(d: seq<byte>, h: Hint, k: nat) { HasHint(d, h) && h.at <= k < h.at + h.clear }

  lemma {:induction false} AllErased(offset: nat, before: seq<byte>, after: seq<byte>)
    requires ErasedFirst(offset, before, after, 5)
    ensures Erased(offset, before, after)
  {
    HintTexts(offset, before);
    forall k: nat ensures InHints(offset, before, 5, k) <==> IsErased(offset, before, k) {
      FiveHints(offset, before, k);
    }
  }

  lemma {:induction false} FiveHints(offset: nat, d: seq<byte>, k: nat)
    ensures var h := Hints(offset);
            InHints(offset, d, 5, k) <==>
            InHint(d, h[0], k) || InHint(d, h[1], k) || InHint(d, h[2], k) || InHint(d, h[3], k) || InHint(d, h[4], k)
  {
  }

  lemma {:induction false} EraseNext(offset: nat, d0: seq<byte>, d: seq<byte>, d': seq<byte>, n: nat)
    requires n < 5 && ErasedFirst(offset, d0, d, n)
    requires var h := Hints(offset)[n];
             && (HasHint(d, h) <==> HasHint(d0, h))
             && if HasHint(d, h) then h.at + h.clear <= |d| && d' == Overwrite(d, h.at, Zeros(h.clear)) else d' == d
    ensures ErasedFirst(offset, d0, d', n + 1)
  {
    var h := Hints(offset)[n];
    forall k: nat ensures InHints(offset, d0, n + 1, k) <==> InHints(offset, d0, n, k) || InHint(d0, h, k) {
    }
  }

  predicate InHintArea(offset: nat, k: nat) {
    offset + 3 <= k < offset + 8 || offset + 54 <= k < offset + 59 || offset + 82 <= k < offset + 87
    || offset + 1080 <= k < offset + 1082
  }

  /** Nothing changed but bytes of the signatures' areas, which were cleared. */
  ghost predicate HintsCleared(offset: nat, before: seq<byte>, after: seq<byte>) {
    |before| == |after|
    && forall k: nat | k < |before| :: after[k] == before[k] || (after[k] == 0 && InHintArea(offset, k))
  }

  ghost predicate GoodHint(offset: nat, h: Hint) {
    && 1 <= |h.magic| <= h.clear && offset <= h.at && h.at + h.clear <= offset + REACH
    && (forall k | 0 <= k < |h.magic| :: h.magic[k] != 0)
    && forall k: nat | h.at <= k < h.at + h.clear :: InHintArea(offset, k)
  }

  lemma {:induction false} HintsAreGood(offset: nat)
    ensures forall i | 0 <= i < 5 :: GoodHint(offset, Hints(offset)[i])
    ensures Hints(offset)[4].at + |Hints(offset)[4].magic| == offset + REACH
  {
  }

  /** Clearing bytes cannot make a signature appear. */
  lemma {:induction false} ClearingKeepsAbsence(offset: nat, before: seq<byte>, after: seq<byte>, h: Hint)
    requires HintsCleared(offset, before, after) && GoodHint(offset, h)
    ensures HasHint(after, h) ==> HasHint(before, h)
  {
  }

  lemma {:induction false} ClearingRemoves(offset: nat, d: seq<byte>, h: Hint)
    requires GoodHint(offset, h) && h.at + h.clear <= |d|
    ensures HintsCleared(offset, d, Overwrite(d, h.at, Zeros(h.clear)))
    ensures !HasHint(Overwrite(d, h.at, Zeros(h.clear)), h)
  {
    assert Overwrite(d, h.at, Zeros(h.clear))[h.at + 0] == 0 && h.magic[0] != 0;
  }

  /** Clearing one signature takes no later one away: the two that overlap are never both there. */
  lemma {:induction false} ClearingIsIndependent(offset: nat, d: seq<byte>, i: nat, j: nat)
    requires i < j < 5 && HasHint(d, Hints(offset)[i])
    ensures var h := Hints(offset)[i];
            HasHint(Overwrite(d, h.at, Zeros(h.clear)), Hints(offset)[j]) <==> HasHint(d, Hints(offset)[j])
  {
    var h, later := Hints(offset)[i], Hints(offset)[j];
    var d' := Overwrite(d, h.at, Zeros(h.clear));
    if i == 0 && j == 3 {
      assert h.magic[0] == 0x4e && later.magic[0] == 0x46;
      assert d[h.at + 0] == 0x4e && d'[later.at + 0] == 0;
    } else {
      assert h.at + h.clear <= later.at || later.at + |later.magic| <= h.at;
    }
  }

  /** Looks for one signature and, under force, removes it. */
  method CheckHint(dev: Device, ghost offset: nat, h: Hint, force: bool) returns (err: bool, valid: bool)
    requires dev.Recording() && GoodHint(offset, h) && offset + REACH <= U64
    modifies dev`disk, dev`dirty, dev`cachedBlock, dev.cache, dev`logical, dev.uninstallData, dev`uninstallDataI
    ensures dev.Recording()
    ensures err ==> dev.size < h.at + |h.magic| || (HasHint(old(dev.logical), h) && force)
    ensures !err ==> h.at + |h.magic| <= dev.size && (valid <==> force || !HasHint(old(dev.logical), h))
    ensures !err && valid && HasHint(old(dev.logical), h) ==>
              dev.logical == Overwrite(old(dev.logical), h.at, Zeros(h.clear)) && h.at + h.clear <= dev.size
    ensures err || !valid || !HasHint(old(dev.logical), h) ==> dev.logical == old(dev.logical)
    ensures err && offset + REACH <= dev.size ==> old(dev.uninstallDataI) >= UNINSTALL_DATA_MAX
    ensures dev.uninstallDataI
         == old(dev.uninstallDataI) + if !err && valid && HasHint(old(dev.logical), h) then 1 else 0
  {
    var ok, bytes := dev.ReadLogged(h.at, |h.magic|);
    if !ok { return true, false; }
    if bytes != h.magic { return false, true; }
    if !force { return false, false; }
    ok := Put(dev, Zeros(h.clear), h.at);
    if !ok { return true, false; }
    return false, true;
  }

  ghost predicate NoHint(offset: nat, d: seq<byte>, n: nat)
    requires n <= 5
  {
    forall i | 0 <= i < n :: !HasHint(d, Hints(offset)[i])
  }

  /** The signatures from the n-th on are still as they were. */
  ghost predicate SameHints(offset: nat, before: seq<byte>, after: seq<byte>, n: nat)
  {
    forall i | n <= i < 5 :: HasHint(after, Hints(offset)[i]) <==> HasHint(before, Hints(offset)[i])
  }

  /** How many of the signatures from the i-th on are there. */
  ghost function HintCount(offset: nat, d: seq<byte>, i: nat): nat
    requires i <= 5
    decreases 5 - i
  {
    if i == 5 then 0 else (if HasHint(d, Hints(offset)[i]) then 1 else 0) + HintCount(offset, d, i + 1)
  }

  lemma {:induction false} SameHintCount(offset: nat, d: seq<byte>, d': seq<byte>, i: nat)
    requires i <= 5 && forall j | i <= j < 5 :: HasHint(d', Hints(offset)[j]) <==> HasHint(d, Hints(offset)[j])
    ensures HintCount(offset, d', i) == HintCount(offset, d, i)
    decreases 5 - i
  {
    if i < 5 { SameHintCount(offset, d, d', i + 1); }
  }

  /** One round of the checks: d' is d, or d with the n-th signature cleared. */
  lemma {:induction false} HintStep(offset: nat, d0: seq<byte>, d: seq<byte>, d': seq<byte>, n: nat)
    requires n < 5 && NoHint(offset, d, n) && HintsCleared(offset, d0, d)
    requires ErasedFirst(offset, d0, d, n) && SameHints(offset, d0, d, n)
    requires var h := Hints(offset)[n];
             if HasHint(d, h) then h.at + h.clear <= |d| && d' == Overwrite(d, h.at, Zeros(h.clear)) else d' == d
    ensures HintsCleared(offset, d0, d') && NoHint(offset, d', n + 1)
    ensures ErasedFirst(offset, d0, d', n + 1) && SameHints(offset, d0, d', n + 1)
    ensures HintCount(offset, d', n + 1) == HintCount(offset, d, n + 1)
  {
    HintsAreGood(offset);
    EraseNext(offset, d0, d, d', n);
    var h := Hints(offset)[n];
    if HasHint(d, h) {
      ClearingRemoves(offset, d, h);
      forall i | 0 <= i < n ensures !HasHint(d', Hints(offset)[i]) {
        ClearingKeepsAbsence(offset, d, d', Hints(offset)[i]);
      }
      forall j | n + 1 <= j < 5 ensures HasHint(d', Hints(offset)[j]) <==> HasHint(d, Hints(offset)[j]) {
        ClearingIsIndependent(offset, d, n, j);
      }
      SameHintCount(offset, d, d', n + 1);
    }
  }

  /** The log entries that clearing takes. */
  ghost function HintWrites(offset: nat, d: seq<byte>, force: bool): nat
  {
    if force then HintCount(offset, d, 0) else 0
  }

  /**
   validate_or_force. Without force it only looks; with force it leaves none of the
   signatures on the device, including those checked before the last one was cleared.
   */
  method ValidateOrForce(dev: Device, offset: nat, force: bool) returns (err: bool, valid: bool)
    requires dev.Recording() && offset + REACH <= U64
    modifies dev`disk, dev`dirty, dev`cachedBlock, dev.cache, dev`logical, dev.uninstallData, dev`uninstallDataI
    ensures dev.Recording()
    ensures !force ==> dev.logical == old(dev.logical) && dev.uninstallDataI == old(dev.uninstallDataI)
    ensures var d := old(dev.logical);
            !err && valid <==>
            && offset + 1082 <= dev.size && (force || NoFilesystem(offset, d))
            && old(dev.uninstallDataI) + HintWrites(offset, d, force) <= UNINSTALL_DATA_MAX
    ensures !err && valid ==>
              && Erased(offset, old(dev.logical), dev.logical) && NoFilesystem(offset, dev.logical)
              && dev.uninstallDataI == old(dev.uninstallDataI) + HintWrites(offset, old(dev.logical), force)
  {
    HintsAreGood(offset);
    ghost var d0 := dev.logical;
    HintTexts(offset, d0);
    for i := 0 to 5
      invariant dev.Recording() && HintsCleared(offset, d0, dev.logical) && NoHint(offset, dev.logical, i)
      invariant ErasedFirst(offset, d0, dev.logical, i) && SameHints(offset, d0, dev.logical, i)
      invariant !force ==> dev.logical == d0 && dev.uninstallDataI == old(dev.uninstallDataI)
      invariant i == 5 ==> offset + REACH <= dev.size
      invariant force ==> dev.uninstallDataI + HintCount(offset, dev.logical, i)
                          == old(dev.uninstallDataI) + HintCount(offset, d0, 0)
    {
      ghost var d := dev.logical;
      err, valid := CheckHint(dev, offset, Hints(offset)[i], force);
      if err || !valid { return; }
      HintStep(offset, d0, d, dev.logical, i);
    }
    AllErased(offset, d0, dev.logical);
    HintTexts(offset, dev.logical);
    return false, true;
  }

  // ---- Partition records ----

  function At(k: nat): nat { TABLE + 16 * k }

  predicate GoodStatus(s: byte) { s == 0 || s == 0x80 }

  /** hint8 & 0x80. */
  function ActiveBit(s: byte): byte { if s >= 0x80 then 0x80 else 0 }

  /** An empty record, or one that leaves room for stage 2 behind the boot sector. */
  predicate StartOk(d: seq<byte>, k: nat)
    requires k < 4 && |d| >= 512
  {
    RecordAt(d, k).kind == 0 || RecordAt(d, k).start >= 63
  }

  /** The status bytes of the first n records are reduced to their active bit, all else is unchanged. */
  ghost predicate StatusesNormal(before: seq<byte>, after: seq<byte>, n: nat) {
    |before| == |after|
    && forall j: nat | j < |before| :: after[j] == if IsStatus(j, n) then ActiveBit(before[j]) else before[j]
  }

  predicate IsStatus(j: nat, n: nat) { TABLE <= j < TABLE + 16 * n && (j - TABLE) % 16 == 0 }

  ghost predicate AnyActive(d: seq<byte>, n: nat)
    requires n <= 4 && |d| >= 512
  {
    exists k: nat :: k < n && d[At(k)] >= 0x80
  }

  ghost predicate StatusesGood(d: seq<byte>, n: nat)
    requires n <= 4 && |d| >= 512
  {
    forall k: nat | k < n :: GoodStatus(d[At(k)])
  }

  ghost predicate StartsOk(d: seq<byte>, n: nat)
    requires n <= 4 && |d| >= 512
  {
    forall k: nat | k < n :: StartOk(d, k)
  }

  /** The log entries that correcting a status takes. */
  function StatusWrites(s: byte, force: bool): nat { if force && !GoodStatus(s) then 1 else 0 }

  ghost function TableWrites(d: seq<byte>, force: bool, n: nat): nat
    requires n <= 4 && |d| >= 512
  {
    if n == 0 then 0 else TableWrites(d, force, n - 1) + StatusWrites(d[At(n - 1)], force)
  }

  lemma {:induction false} TableWritesGrow(d: seq<byte>, force: bool, m: nat, n: nat)
    requires m <= n <= 4 && |d| >= 512
    ensures TableWrites(d, force, m) <= TableWrites(d, force, n)
  {
    if m < n { TableWritesGrow(d, force, m, n - 1); }
  }

  /** The checks of one record. */
  method CheckRecord(dev: Device, k: nat, force: bool) returns (err: bool, valid: bool, active: bool)
    requires dev.Recording() && k < 4 && dev.size >= 512
    modifies dev`disk, dev`dirty, dev`cachedBlock, dev.cache, dev`logical, dev.uninstallData, dev`uninstallDataI
    ensures dev.Recording()
    ensures !force ==> dev.logical == old(dev.logical)
    ensures !err ==> (valid <==> force || old(dev.logical)[446 + 16 * k] == 0 || old(dev.logical)[446 + 16 * k] == 0x80)
    ensures !err ==> active == (old(dev.logical)[At(k)] >= 0x80)
    ensures !err ==> StartOk(old(dev.logical), k)
    ensures !err && valid ==> dev.logical == Overwrite(old(dev.logical), At(k), [ActiveBit(old(dev.logical)[At(k)])])
    ensures !err <==> StartOk(old(dev.logical), k)
                      && old(dev.uninstallDataI) + StatusWrites(old(dev.logical)[At(k)], force) <= UNINSTALL_DATA_MAX
    ensures !err ==> dev.uninstallDataI == old(dev.uninstallDataI) + StatusWrites(old(dev.logical)[At(k)], force)
  {
    ghost var d := dev.logical;
    valid := true;
    var ok, hint8 := dev.ReadLogged(At(k), 1);
    var status := hint8[0];
    SameStatus(d, At(k));
    StatusApart(d, Overwrite(d, At(k), [ActiveBit(status)]), k);
    if !GoodStatus(status) {
      if !force {
        valid := false;
      } else {
        status := ActiveBit(status);
        ok := Put(dev, [status], At(k));
        if !ok { return true, false, false; }
      }
    }
    active := status >= 0x80;
    err := CheckStart(dev, k);
  }

  /** Whether the record is in use and starts too low. */
  method CheckStart(dev: Device, k: nat) returns (low: bool)
    requires dev.Recording() && k < 4 && dev.size >= 512
    modifies dev`disk, dev`dirty, dev`cachedBlock, dev.cache
    ensures dev.Recording() && low == !StartOk(dev.logical, k)
  {
    RecordFields(dev.logical, k);
    var ok, kind := dev.ReadLogged(At(k) + 4, 1);
    if kind[0] == 0 { return false; }
    var hint32;
    ok, hint32 := dev.ReadLogged(At(k) + 8, 4);
    return LeValue(hint32) < 63;
  }

  lemma {:induction false} RecordFields(d: seq<byte>, k: nat)
    requires k < 4 && |d| >= 512
    ensures RecordAt(d, k).kind == d[At(k) + 4] && RecordAt(d, k).start == LeValue(Range(d, At(k) + 8, 4))
    ensures RecordAt(d, k).status == d[At(k)]
  {
    var r := d[TABLE + 16 * k..TABLE + 16 * k + 16];
    assert r[8..12] == d[At(k) + 8..At(k) + 12];
  }

  lemma {:induction false} SameStatus(d: seq<byte>, at: nat)
    requires at < |d|
    ensures GoodStatus(d[at]) ==> Overwrite(d, at, [ActiveBit(d[at])]) == d
  {
  }

  /** Records that agree but for their status bytes. */
  lemma {:induction false} StatusApart(d: seq<byte>, d': seq<byte>, k: nat)
    requires k < 4 && |d| >= 512 && |d'| >= 512
    requires forall j: nat | At(k) < j < At(k) + 16 :: d'[j] == d[j]
    ensures RecordAt(d', k) == RecordAt(d, k).(status := d'[At(k)])
  {
    var r, r' := d[At(k)..At(k) + 16], d'[At(k)..At(k) + 16];
    forall i | 1 <= i < 16 ensures r'[i] == r[i] {
      var j: nat := At(k) + i;
      assert d'[j] == d[j];
    }
    assert r'[1..4] == r[1..4] && r'[5..8] == r[5..8] && r'[8..12] == r[8..12] && r'[12..16] == r[12..16];
  }

  lemma {:induction false} NormalStep(d0: seq<byte>, d: seq<byte>, k: nat)
    requires k < 4 && |d0| >= 512 && StatusesNormal(d0, d, k)
    ensures d[At(k)] == d0[At(k)] && RecordAt(d, k) == RecordAt(d0, k)
    ensures StatusesNormal(d0, Overwrite(d, At(k), [ActiveBit(d[At(k)])]), k + 1)
  {
    assert forall j: nat | j < |d| && At(k) <= j < At(k) + 16 :: !IsStatus(j, k);
    assert d[At(k)..At(k) + 16] == d0[At(k)..At(k) + 16];
    assert forall j: nat :: IsStatus(j, k + 1) <==> IsStatus(j, k) || j == At(k);
  }

  lemma {:induction false} RecordStep(d: seq<byte>, k: nat)
    requires k < 4 && |d| >= 512
    ensures AnyActive(d, k + 1) <==> AnyActive(d, k) || d[At(k)] >= 0x80
    ensures StatusesGood(d, k + 1) <==> StatusesGood(d, k) && GoodStatus(d[At(k)])
    ensures StartsOk(d, k + 1) <==> StartsOk(d, k) && StartOk(d, k)
  {
  }

  /** All four records. A bad status is an error of the table, or is corrected under force. */
  method CheckRecords(dev: Device, force: bool) returns (err: bool, mbr: bool, active: bool)
    requires dev.Recording() && dev.size >= 512
    modifies dev`disk, dev`dirty, dev`cachedBlock, dev.cache, dev`logical, dev.uninstallData, dev`uninstallDataI
    ensures dev.Recording()
    ensures !force ==> dev.logical == old(dev.logical)
    ensures !err ==> (mbr <==> force || StatusesGood(old(dev.logical), 4))
    ensures !err ==> active == AnyActive(old(dev.logical), 4) && StartsOk(old(dev.logical), 4)
    ensures !err && mbr ==> StatusesNormal(old(dev.logical), dev.logical, 4)
    ensures !err <==> StartsOk(old(dev.logical), 4)
                      && old(dev.uninstallDataI) + TableWrites(old(dev.logical), force, 4) <= UNINSTALL_DATA_MAX
    ensures !err ==> dev.uninstallDataI == old(dev.uninstallDataI) + TableWrites(old(dev.logical), force, 4)
  {
    ghost var d := dev.logical;
    mbr, active := true, false;
    for k := 0 to 4
      invariant dev.Recording() && (!force ==> dev.logical == d)
      invariant mbr <==> force || StatusesGood(d, k)
      invariant active == AnyActive(d, k) && StartsOk(d, k)
      invariant mbr ==> StatusesNormal(d, dev.logical, k)
      invariant dev.uninstallDataI == old(dev.uninstallDataI) + TableWrites(d, force, k) <= UNINSTALL_DATA_MAX
    {
      RecordStep(d, k);
      TableWritesGrow(d, force, k + 1, 4);
      if mbr { NormalStep(d, dev.logical, k); }
      var valid, on;
      err, valid, on := CheckRecord(dev, k, force);
      if err { return; }
      mbr := mbr && valid;
      active := active || on;
    }
    err := false;
  }

  /** The status bytes as the checks leave them: one partition at least is active. */
  ghost function NewStatus(d: seq<byte>, k: nat): byte
    requires k < 4 && |d| >= 512
  {
    if AnyActive(d, 4) then ActiveBit(d[At(k)]) else if k == 0 then 0x80 else 0
  }

  /** A device that passed the checks: its records are unchanged but for their status. */
  ghost predicate Prepared(before: seq<byte>, after: seq<byte>) {
    && 512 <= |before| == |after|
    && StartsOk(before, 4) && NoFilesystem(0, after)
    && (forall k: nat | k < 4 :: RecordAt(after, k) == RecordAt(before, k).(status := NewStatus(before, k)))
    && forall j: nat | j < |after| && !IsStatus(j, 4) :: after[j] == if IsErased(0, before, j) then 0 else before[j]
  }

  /** The status bytes themselves: 0x80 where bit 7 was set, and in the first record if none had it. */
  lemma {:induction false} NewStatusExactly(d: seq<byte>, k: nat)
    requires k < 4 && |d| >= 512
    ensures NewStatus(d, k) == if d[446 + 16 * k] >= 128
                                  || (k == 0 && d[446] < 128 && d[462] < 128 && d[478] < 128 && d[494] < 128)
                               then 0x80 else 0
  {
    assert At(0) == 446 && At(1) == 462 && At(2) == 478 && At(3) == 494;
  }

  /** What is accepted. */
  ghost predicate MbrAcceptable(d: seq<byte>, force: bool) {
    REACH <= |d| && StartsOk(d, 4) && (force || (StatusesGood(d, 4) && NoFilesystem(0, d)))
  }

  /** The record at this place of the disk is acceptable: it is empty or starts high enough, and its status is one. */
  predicate RecordAccepted(d: seq<byte>, at: nat, force: bool)
    requires at + 16 <= |d|
  {
    (d[at + 4] == 0 || LeValue(d[at + 8..at + 12]) >= 63) && (force || d[at] == 0 || d[at] == 0x80)
  }

  /** What is accepted, in the bytes of the disk. */
  ghost predicate Accepted(d: seq<byte>, force: bool) {
    && 1082 <= |d|
    && RecordAccepted(d, 446, force) && RecordAccepted(d, 462, force)
    && RecordAccepted(d, 478, force) && RecordAccepted(d, 494, force)
    && (force || NoFilesystem(0, d))
  }

  lemma {:induction false} AcceptedExactly(d: seq<byte>, force: bool)
    ensures MbrAcceptable(d, force) <==> Accepted(d, force)
  {
    if REACH <= |d| { RecordsAccepted(d, force); }
  }

  lemma {:induction false} RecordsAccepted(d: seq<byte>, force: bool)
    requires |d| >= 512
    ensures StartsOk(d, 4) && (force || StatusesGood(d, 4)) <==>
            && RecordAccepted(d, 446, force) && RecordAccepted(d, 462, force)
            && RecordAccepted(d, 478, force) && RecordAccepted(d, 494, force)
  {
    OneAccepted(d, 0, 446, force);
    OneAccepted(d, 1, 462, force);
    OneAccepted(d, 2, 478, force);
    OneAccepted(d, 3, 494, force);
  }

  lemma {:induction false} OneAccepted(d: seq<byte>, k: nat, at: nat, force: bool)
    requires k < 4 && |d| >= 512 && at == 446 + 16 * k
    ensures StartsOk(d, k + 1) && (force || StatusesGood(d, k + 1)) <==>
            StartsOk(d, k) && (force || StatusesGood(d, k)) && RecordAccepted(d, at, force)
  {
    RecordStep(d, k);
    RecordFields(d, k);
  }

  /** The log entries the checks take. */
  ghost function CheckWrites(d: seq<byte>, force: bool): nat
    requires |d| >= 512
  {
    TableWrites(d, force, 4) + HintWrites(0, d, force) + if AnyActive(d, 4) then 0 else 1
  }

  lemma {:induction false} PreparedAfter(d: seq<byte>, d1: seq<byte>, d2: seq<byte>, d3: seq<byte>)
    requires |d| >= 512 && StartsOk(d, 4) && StatusesNormal(d, d1, 4) && Erased(0, d1, d2) && NoFilesystem(0, d2)
    requires d3 == if AnyActive(d, 4) then d2 else Overwrite(d2, 446, [0x80])
    ensures Prepared(d, d3)
  {
    forall k: nat ensures IsErased(0, d1, k) ==> InHintArea(0, k) {
    }
    forall k: nat | k < 4 ensures RecordAt(d3, k) == RecordAt(d, k).(status := NewStatus(d, k)) {
      RecordAfter(d, d1, d2, d3, k);
    }
    SameFilesystem(d2, d3);
    SameErased(d, d1);
    BytesAfter(d, d1, d2, d3);
  }

  lemma {:induction false} RecordAfter(d: seq<byte>, d1: seq<byte>, d2: seq<byte>, d3: seq<byte>, k: nat)
    requires |d| >= 512 && StatusesNormal(d, d1, 4) && HintsCleared(0, d1, d2) && k < 4
    requires d3 == if AnyActive(d, 4) then d2 else Overwrite(d2, 446, [0x80])
    ensures RecordAt(d3, k) == RecordAt(d, k).(status := NewStatus(d, k))
  {
    assert IsStatus(At(k), 4) && !InHintArea(0, At(k));
    assert d2[At(k)] == d1[At(k)] == ActiveBit(d[At(k)]);
    assert forall j: nat | At(k) < j < At(k) + 16 :: !IsStatus(j, 4) && !InHintArea(0, j);
    StatusApart(d, d3, k);
  }

  lemma {:induction false} BytesAfter(d: seq<byte>, d1: seq<byte>, d2: seq<byte>, d3: seq<byte>)
    requires |d| >= 512 && StatusesNormal(d, d1, 4) && Erased(0, d1, d2)
    requires forall k: nat :: IsErased(0, d1, k) <==> IsErased(0, d, k)
    requires |d3| == |d2| && forall j: nat | j < |d2| && j != 446 :: d3[j] == d2[j]
    ensures forall j: nat | j < |d3| && !IsStatus(j, 4) :: d3[j] == if IsErased(0, d, j) then 0 else d[j]
  {
    assert IsStatus(446, 4);
  }

  lemma {:induction false} SameFilesystem(d: seq<byte>, d': seq<byte>)
    requires |d| == |d'| && forall j: nat | j < |d| && InHintArea(0, j) :: d'[j] == d[j]
    ensures NoFilesystem(0, d') <==> NoFilesystem(0, d)
    ensures forall k: nat :: IsErased(0, d', k) <==> IsErased(0, d, k)
  {
    HintsAreGood(0);
    HintTexts(0, d);
    HintTexts(0, d');
    forall i | 0 <= i < 5 ensures HasHint(d', Hints(0)[i]) <==> HasHint(d, Hints(0)[i]) {
      SameHint(d, d', Hints(0)[i]);
    }
  }

  lemma {:induction false} SameErased(d: seq<byte>, d': seq<byte>)
    requires |d| >= 512 && StatusesNormal(d, d', 4)
    ensures forall k: nat :: IsErased(0, d', k) <==> IsErased(0, d, k)
  {
    assert forall j: nat | j < |d| && InHintArea(0, j) :: !IsStatus(j, 4);
    SameFilesystem(d, d');
  }

  lemma {:induction false} SameHint(d: seq<byte>, d': seq<byte>, h: Hint)
    requires |d| == |d'| && GoodHint(0, h) && forall j: nat | j < |d| && InHintArea(0, j) :: d'[j] == d[j]
    ensures HasHint(d', h) <==> HasHint(d, h)
  {
  }

  /** Correcting status bytes does not touch the signatures. */
  lemma {:induction false} StatusesApartFromHints(d: seq<byte>, d': seq<byte>)
    requires |d| >= 512 && StatusesNormal(d, d', 4)
    ensures HintCount(0, d', 0) == HintCount(0, d, 0) && (NoFilesystem(0, d') <==> NoFilesystem(0, d))
  {
    HintsAreGood(0);
    assert forall j: nat | j < |d| && InHintArea(0, j) :: !IsStatus(j, 4);
    SameFilesystem(d, d');
    forall i | 0 <= i < 5 ensures HasHint(d', Hints(0)[i]) <==> HasHint(d, Hints(0)[i]) {
      SameHint(d, d', Hints(0)[i]);
    }
    SameHintCount(0, d, d', 0);
  }

  /** All checks on a device without GPT; partition 1 becomes active when none is. */
  method PrepareMbr(dev: Device, force: bool) returns (ok: bool)
    requires dev.Recording() && dev.size >= 512
    modifies dev`disk, dev`dirty, dev`cachedBlock, dev.cache, dev`logical, dev.uninstallData, dev`uninstallDataI
    ensures dev.Recording()
    ensures ok <==> Accepted(old(dev.logical), force)
                    && old(dev.uninstallDataI) + CheckWrites(old(dev.logical), force) <= UNINSTALL_DATA_MAX
    ensures ok ==> Prepared(old(dev.logical), dev.logical)
    ensures ok ==> dev.uninstallDataI == old(dev.uninstallDataI) + CheckWrites(old(dev.logical), force)
  {
    ghost var d := dev.logical;
    AcceptedExactly(d, force);
    var err, mbr, active := CheckRecords(dev, force);
    if err || !mbr { return false; }
    ghost var d1 := dev.logical;
    StatusesApartFromHints(d, d1);
    var valid;
    err, valid := ValidateOrForce(dev, 0, force);
    if err || !valid { return false; }
    ghost var d2 := dev.logical;
    ok := true;
    if !active {
      ok := Put(dev, [0x80], 446);
    }
    if ok { PreparedAfter(d, d1, d2, dev.logical); }
  }
}
