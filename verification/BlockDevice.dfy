/**
 The installer's view of the device: a write-back cache of one block in front of a
 file, with every logged write saving the bytes it overwrites. A flat byte sequence,
 Logical(), is the specification.
 */
module BlockDevice {
  import opened Journal
  import opened ByteCodec
  import opened UninstallFile
  import opened Options
  import Bits

  const NO_BLOCK: nat := 0xffff_ffff_ffff_ffff
  const MAX_SIZE: nat := 0x8000_0000_0000_0000

  /** 64-bit wrap-around. */
  function Wrap(x: nat): nat { x % 0x1_0000_0000_0000_0000 }

  lemma {:induction false} BlockArithmetic(x: nat, size: nat, n: nat)
    requires size > 0 && n % size == 0
    ensures x == x / size * size + x % size && x % size < size
    ensures x / size * size + size <= n <==> x < n
  {
    var q, m := x / size, n / size;
    assert n == m * size && x == q * size + x % size;
    if x < n {
      Bits.MulMonotone(m, q, size);
      Bits.MulMonotone(q + 1, m, size);
      assert (q + 1) * size == q * size + size;
    }
  }

  lemma {:induction false} NoWrap(loc: nat, progress: nat, size: nat)
    requires loc <= NO_BLOCK && size < MAX_SIZE && (progress == 0 || loc + progress <= size)
    ensures Wrap(loc + progress) == loc + progress
  {
  }

  /** The number of a byte's block, and when the block lies on the device. */
  lemma {:induction false} BlockOfByte(pos: nat, size: nat, n: nat)
    requires size >= 512 && pos <= NO_BLOCK && n % size == 0
    ensures pos / size < NO_BLOCK && (pos / size * size + size <= n <==> pos < n)
  {
    BlockArithmetic(pos, size, n);
    SmallerQuotient(pos, size);
  }

  lemma {:induction false} SmallerQuotient(x: nat, size: nat)
    requires size >= 512 && x <= NO_BLOCK
    ensures x / size < NO_BLOCK
  {
    Bits.MulMonotone(NO_BLOCK, x / size, size);
  }

  /** A proof that mentions UnfoldDevice(n) may look inside a folded device invariant. */
  predicate UnfoldDevice(n: nat) { true }

  const NOTHING: Entry := Entry(0, [])

  /** No entry is empty, all fields are 64-bit numbers, and all ranges lie on the device. */
  ghost predicate LogStorable(log: seq<Entry>, size: nat) {
    Storable(log) && Fits(log) && AllInRange(log, size)
  }

  lemma {:induction false} LogStorableGrows(log: seq<Entry>, e: Entry, size: nat)
    requires LogStorable(log, size) && size < MAX_SIZE && e.loc <= NO_BLOCK && e.data != [] && InRange(e, size)
    ensures LogStorable(log + [e], size)
  {
  }

  lemma {:induction false} LogStorableReversed(log: seq<Entry>, size: nat)
    requires LogStorable(log, size)
    ensures LogStorable(Reverse(log), size)
  {
    forall e | e in Reverse(log) ensures e in log { }
  }

  class Device {
    /** The device: a file of `size` bytes, transferred in whole blocks. */
    const size: nat
    const blockSize: nat
    var disk: seq<byte>
    const cache: array<byte>
    var cachedBlock: nat
    var dirty: bool
    var uninstalling: bool
    const uninstallData: array<Entry>
    const uninstallDataRev: array<Entry>
    var uninstallDataI: nat
    /** The contents as seen through the cache, and those at the start of the session. */
    ghost var logical: seq<byte>
    ghost const orig: seq<byte>

    ghost predicate Geometry() {
      && blockSize >= 512 && cache.Length == blockSize && size < MAX_SIZE
      && forall n: nat | UnfoldDevice(n) :: size % blockSize == 0
    }

    /** The block of a byte, its place in it, and when the block lies on the device. */
    lemma {:induction false} BlockOf(pos: nat)
      requires Geometry() && pos <= NO_BLOCK
      ensures pos / blockSize < NO_BLOCK && pos % blockSize < blockSize
      ensures pos == pos / blockSize * blockSize + pos % blockSize
      ensures pos / blockSize * blockSize + blockSize <= size <==> pos < size
    {
      assert UnfoldDevice(0);
      BlockOfByte(pos, blockSize, size);
      BlockArithmetic(pos, blockSize, size);
    }

    ghost predicate Valid()
      reads this, cache
    {
      Geometry() && |logical| == |disk| == size && forall n: nat | UnfoldDevice(n) :: CacheConsistent()
    }

    /**
     The logical contents are the device's with the cached block laid over it; a clean cached
     block equals its block on the device.
     */
    ghost predicate CacheConsistent()
      reads this, cache
    {
      if cachedBlock == NO_BLOCK then !dirty && logical == disk
      else
        && cachedBlock * blockSize + blockSize <= |disk|
        && logical == Overwrite(disk, cachedBlock * blockSize, cache[..])
        && (dirty || logical == disk)
    }

    /** The saved ranges, oldest first until they are reversed. */
    ghost function Log(): seq<Entry>
      reads this, uninstallData
      requires uninstallDataI <= uninstallData.Length
    {
      uninstallData[..uninstallDataI]
    }

    ghost predicate LogValid()
      reads this
    {
      uninstallData.Length == uninstallDataRev.Length == UNINSTALL_DATA_MAX
      && uninstallData != uninstallDataRev && uninstallDataI <= UNINSTALL_DATA_MAX
    }

    /** An installation in progress: every change since its start is in the log. */
    ghost predicate InSession()
      reads this, cache, uninstallData
    {
      Valid() && LogValid() && !uninstalling && forall n: nat | UnfoldDevice(n) :: Journaled(Log(), orig, disk, logical)
    }

    /** A session whose log can be stored in an uninstall file and written back. */
    ghost predicate Recording()
      reads this, cache, uninstallData
    {
      InSession() && forall n: nat | UnfoldDevice(n) :: LogStorable(Log(), size)
    }

    lemma {:induction false} StartRecording()
      requires InSession() && Log() == []
      ensures Recording()
    {
    }

    /** Nothing logged means nothing written. */
    lemma {:induction false} Untouched()
      requires InSession() && Log() == []
      ensures disk == orig
    {
      OpenSession();
      assert forall i | 0 <= i < |disk| :: !Covered(Log(), i);
    }

    lemma {:induction false} OpenRecording()
      requires Recording()
      ensures LogStorable(Log(), size)
    {
      assert UnfoldDevice(0);
    }

    lemma {:induction false} OpenSession()
      requires InSession()
      ensures Journaled(Log(), orig, disk, logical)
    {
      assert UnfoldDevice(0);
    }

    /** device_init once a transfer of one block has succeeded: block 0 is cached. */
    constructor (contents: seq<byte>, guess: nat)
      requires 512 <= guess <= |contents| < MAX_SIZE && |contents| % guess == 0
      ensures InSession() && Log() == [] && size == |contents| && blockSize == guess
      ensures disk == logical == orig == contents
      ensures fresh(cache) && fresh(uninstallData) && fresh(uninstallDataRev)
    {
      size, blockSize, disk, logical, orig := |contents|, guess, contents, contents, contents;
      cache := new byte[guess](i requires 0 <= i < guess => contents[i]);
      cachedBlock, dirty, uninstalling := 0, false, false;
      uninstallData := new Entry[UNINSTALL_DATA_MAX](_ => NOTHING);
      uninstallDataRev := new Entry[UNINSTALL_DATA_MAX](_ => NOTHING);
      uninstallDataI := 0;
      new;
      assert cachedBlock * blockSize == 0;
      assert logical == Overwrite(disk, 0, cache[..]);
    }

    lemma {:induction false} Open()
      requires Valid()
      ensures CacheConsistent()
    {
      assert UnfoldDevice(0);
    }

    /** device_flush_cache. */
    method FlushCache() returns (ok: bool)
      requires Valid()
      modifies `disk, `dirty
      ensures ok && Valid() && !dirty && disk == logical
    {
      Open();
      if dirty {
        disk := Overwrite(disk, cachedBlock * blockSize, cache[..]);
        dirty := false;
      }
      return true;
    }

    /** The fread of device_cache_block: the block at byte offset `base` into the cache buffer. */
    method ReadBlock(base: nat)
      requires cache.Length == blockSize && base + blockSize <= |disk|
      modifies cache
      ensures Overwrite(disk, base, cache[..]) == disk
    {
      forall i | 0 <= i < blockSize {
        cache[i] := disk[base + i];
      }
    }

    /** device_cache_block: a read past the end of the device fails and leaves the buffer alone. */
    method CacheBlock(block: nat) returns (ok: bool)
      requires Valid() && block < NO_BLOCK
      modifies `disk, `dirty, `cachedBlock, cache
      ensures Valid() && FlushedInto(old(disk), disk, logical, NOTHING)
      ensures ok <==> block * blockSize + blockSize <= size
      ensures ok ==> cachedBlock == block
    {
      Open();
      if cachedBlock == block {
        return true;
      }
      if dirty {
        ok := FlushCache();
      }
      assert disk == logical;
      var base := block * blockSize;
      if base + blockSize > |disk| {
        return false;
      }
      ReadBlock(base);
      cachedBlock := block;
      return true;
    }

    /** The head of both transfer loops: caches the block of byte loc + progress. */
    method CacheByte(loc: nat, progress: nat) returns (ok: bool, pos: nat)
      requires Valid() && loc <= NO_BLOCK && (progress == 0 || loc + progress <= size)
      modifies `disk, `dirty, `cachedBlock, cache
      ensures Valid() && FlushedInto(old(disk), disk, logical, NOTHING)
      ensures pos == loc + progress && (ok <==> pos < size)
      ensures ok ==> cachedBlock == pos / blockSize < NO_BLOCK
    {
      pos := Wrap(loc + progress);
      NoWrap(loc, progress, size);
      ok := CacheBlockOf(pos);
    }

    method CacheBlockOf(pos: nat) returns (ok: bool)
      requires Valid() && pos <= NO_BLOCK
      modifies `disk, `dirty, `cachedBlock, cache
      ensures Valid() && FlushedInto(old(disk), disk, logical, NOTHING)
      ensures ok <==> pos < size
      ensures ok ==> cachedBlock == pos / blockSize < NO_BLOCK
    {
      BlockOf(pos);
      ok := CacheBlock(pos / blockSize);
    }

    /** The chunk of a transfer that lies in the block of byte `pos`: at most `left` bytes. */
    function Chunk(pos: nat, left: nat): (c: nat)
      requires blockSize > 0
      ensures c <= left && pos % blockSize + c <= blockSize && (left > 0 ==> c > 0)
    {
      if left > blockSize - pos % blockSize then blockSize - pos % blockSize else left
    }

    /** memcpy out of the cached block. */
    method CopyOut(pos: nat, chunk: nat) returns (bytes: seq<byte>)
      requires Valid() && cachedBlock == pos / blockSize < NO_BLOCK && pos % blockSize + chunk <= blockSize
      ensures pos + chunk <= size && bytes == logical[pos..pos + chunk]
    {
      Open();
      BlockOf(pos);
      bytes := cache[pos % blockSize..pos % blockSize + chunk];
    }

    /** memcpy into the cached block. */
    method CopyIn(pos: nat, bytes: seq<byte>)
      requires Valid() && cachedBlock == pos / blockSize < NO_BLOCK && pos % blockSize + |bytes| <= blockSize
      modifies cache, `dirty, `logical
      ensures Valid() && pos + |bytes| <= size && logical == Overwrite(old(logical), pos, bytes)
    {
      Open();
      BlockOf(pos);
      var offset := pos % blockSize;
      OverwriteInside(disk, cachedBlock * blockSize, cache[..], offset, bytes);
      CopyBytes(offset, bytes);
      dirty := true;
      logical := Overwrite(logical, pos, bytes);
    }

    method CopyBytes(offset: nat, bytes: seq<byte>)
      requires offset + |bytes| <= cache.Length
      modifies cache
      ensures cache[..] == Overwrite(old(cache[..]), offset, bytes)
    {
      forall i | 0 <= i < |bytes| {
        cache[offset + i] := bytes[i];
      }
    }

    /** _device_read. */
    method Read(loc: nat, count: nat) returns (ok: bool, buffer: seq<byte>)
      requires Valid() && loc <= NO_BLOCK
      modifies `disk, `dirty, `cachedBlock, cache
      ensures Valid() && FlushedInto(old(disk), disk, logical, NOTHING)
      ensures ok <==> count == 0 || loc + count <= size
      ensures ok ==> buffer == Range(logical, loc, count)
    {
      buffer := [];
      var progress := 0;
      while progress < count
        invariant progress == |buffer| <= count && (progress == 0 || loc + progress <= size)
        invariant Valid() && FlushedInto(old(disk), disk, logical, NOTHING)
        invariant buffer == Range(logical, loc, progress)
      {
        var pos;
        ok, pos := CacheByte(loc, progress);
        if !ok { return; }
        var bytes := CopyOut(pos, Chunk(pos, count - progress));
        RangeAppend(logical, loc, progress, |bytes|);
        buffer := buffer + bytes;
        progress := progress + |bytes|;
      }
      ok := true;
    }

    /** One round of the loop of _device_write: the part of the buffer that goes into the next block. */
    method WriteChunk(buffer: seq<byte>, loc: nat, progress: nat, ghost before: seq<byte>)
      returns (ok: bool, chunk: nat)
      requires Valid() && loc <= NO_BLOCK && progress < |buffer| && (progress == 0 || loc + progress <= size)
      requires |before| == size && logical == Overwrite(before, loc, buffer[..progress])
      modifies `disk, `dirty, `cachedBlock, cache, `logical
      ensures Valid() && FlushedInto(old(disk), disk, old(logical), NOTHING)
      ensures ok <==> loc + progress < size
      ensures ok ==> 0 < chunk <= |buffer| - progress && loc + progress + chunk <= size
      ensures logical == Overwrite(before, loc, buffer[..if ok then progress + chunk else progress])
    {
      var pos;
      chunk := 0;
      ok, pos := CacheByte(loc, progress);
      if ok {
        chunk := Chunk(pos, |buffer| - progress);
        CopyIn(pos, buffer[progress..progress + chunk]);
        OverwriteOn(before, loc, buffer, progress, chunk);
      }
    }

    /** The loop of _device_write; a write that runs off the device keeps the part before its end. */
    method WriteBlocks(buffer: seq<byte>, loc: nat) returns (ok: bool)
      requires Valid() && loc <= NO_BLOCK
      modifies `disk, `dirty, `cachedBlock, cache, `logical
      ensures Valid() && logical == Overwrite(old(logical), loc, buffer)
      ensures FlushedInto(old(disk), disk, old(logical), Entry(loc, buffer))
      ensures ok <==> InRange(Entry(loc, buffer), size)
    {
      ghost var before := logical;
      var progress := 0;
      OverwriteNothing(before, loc, buffer);
      while progress < |buffer|
        invariant 0 <= progress <= |buffer| && (progress == 0 || loc + progress <= size)
        invariant Valid() && logical == Overwrite(before, loc, buffer[..progress])
        invariant FlushedInto(old(disk), disk, before, Entry(loc, buffer))
      {
        ghost var disk1, logical1 := disk, logical;
        var chunk;
        ok, chunk := WriteChunk(buffer, loc, progress, before);
        FlushedPart(old(disk), disk1, disk, before, logical1, loc, buffer, progress);
        if !ok {
          OverwriteOff(before, loc, buffer, progress);
          return;
        }
        progress := progress + chunk;
      }
      assert buffer[..|buffer|] == buffer;
      ok := true;
    }

    /** The first half of a logged write: the range is read and put behind the log. */
    method SaveRange(loc: nat, count: nat) returns (ok: bool)
      requires Valid() && LogValid() && loc <= NO_BLOCK && uninstallDataI < UNINSTALL_DATA_MAX
      modifies `disk, `dirty, `cachedBlock, cache, uninstallData
      ensures Valid() && FlushedInto(old(disk), disk, logical, NOTHING) && Log() == old(Log())
      ensures ok <==> count == 0 || loc + count <= size
      ensures ok ==> uninstallData[uninstallDataI] == Entry(loc, Range(logical, loc, count))
    {
      var data;
      ok, data := Read(loc, count);
      if ok {
        uninstallData[uninstallDataI] := Entry(loc, data);
      }
    }

    /**
     _device_write. While installing it first reads and logs the range it is about to change;
     the read fails exactly when the write would, so nothing is changed unless all of it is.
     */
    method Write(buffer: seq<byte>, loc: nat) returns (ok: bool)
      requires Valid() && LogValid() && loc <= NO_BLOCK
      modifies `disk, `dirty, `cachedBlock, cache, `logical, uninstallData, `uninstallDataI
      ensures Valid() && LogValid() && (old(InSession()) ==> InSession())
      ensures ok <==> (buffer == [] || loc + |buffer| <= size) && (uninstalling || old(uninstallDataI) < 256)
      ensures ok || uninstalling ==> logical == Overwrite(old(logical), loc, buffer)
      ensures uninstalling || !ok ==> Log() == old(Log())
      ensures !uninstalling && ok ==> Log() == old(Log()) + [Entry(loc, Range(old(logical), loc, |buffer|))]
      ensures !uninstalling && !ok ==> logical == old(logical)
    {
      ghost var log, disk0, logical0 := Log(), disk, logical;
      if InSession() { OpenSession(); }
      if !uninstalling {
        if uninstallDataI >= UNINSTALL_DATA_MAX {
          return false;
        }
        ok := SaveRange(loc, |buffer|);
        if !ok {
          KeptByFlush(log, disk0, logical0);
          return;
        }
      }
      ghost var disk1 := disk;
      ok := WriteBlocks(buffer, loc);
      if ok && !uninstalling {
        uninstallDataI := uninstallDataI + 1;
        assert Log() == log + [Entry(loc, Range(logical0, loc, |buffer|))];
        FlushTwice(disk0, disk1, disk, logical0, Entry(loc, buffer));
        if Journaled(log, orig, disk0, logical0) {
          LoggedWrite(log, orig, disk0, logical0, disk, loc, buffer);
        }
      }
    }

    lemma {:induction false} KeptByFlush(log: seq<Entry>, disk0: seq<byte>, logical0: seq<byte>)
      requires FlushedInto(disk0, disk, logical0, NOTHING) && logical == logical0
      ensures Journaled(log, orig, disk0, logical0) ==> Journaled(log, orig, disk, logical)
    {
      if Journaled(log, orig, disk0, logical0) {
        FlushKeepsJournal(log, orig, disk0, logical0, disk);
      }
    }

    /** reverse_uninstall_data. */
    method ReverseUninstallData()
      requires LogValid()
      modifies uninstallData, uninstallDataRev
      ensures Log() == Reverse(old(Log()))
    {
      var i, j := 0, uninstallDataI - 1;
      while i < uninstallDataI
        invariant 0 <= i <= uninstallDataI && j == uninstallDataI - 1 - i
        invariant uninstallData[..] == old(uninstallData[..])
        invariant forall k | 0 <= k < i :: uninstallDataRev[uninstallDataI - 1 - k] == uninstallData[k]
      {
        uninstallDataRev[j] := uninstallData[i];
        i, j := i + 1, j - 1;
      }
      forall k | 0 <= k < uninstallDataI {
        uninstallData[k] := uninstallDataRev[k];
      }
    }

    /** Forgets the cached block without writing it back. */
    method DropCache()
      requires Valid()
      modifies `dirty, `cachedBlock, `logical
      ensures Valid() && logical == disk && !dirty
    {
      dirty := false;
      cachedBlock := NO_BLOCK;
      logical := disk;
    }

    /** One entry of uninstall: a failed write is tried once more on a fresh cache. */
    method RestoreEntry(e: Entry) returns (ok: bool)
      requires Valid() && LogValid() && uninstalling && e.loc <= NO_BLOCK
      modifies `disk, `dirty, `cachedBlock, cache, `logical, uninstallData, `uninstallDataI
      ensures Valid() && LogValid() && Log() == old(Log())
      ensures logical == Overwrite(old(logical), e.loc, e.data)
      ensures ok <==> InRange(e, size)
    {
      ok := Write(e.data, e.loc);
      if !ok {
        var flushed := FlushCache();
        DropCache();
        OverwriteAgain(old(logical), e.loc, e.data);
        ok := Write(e.data, e.loc);
      }
    }

    /**
     uninstall: discards the cached block, dirty or not, and writes the saved ranges out in
     list order. Ranges that leave the device are restored up to its end and reported.
     */
    method Uninstall() returns (ret: bool)
      requires Valid() && LogValid() && Addressable(Log())
      modifies this, cache, uninstallData
      ensures Valid() && LogValid() && Log() == old(Log())
      ensures disk == logical == Replay(Log(), old(disk))
      ensures ret <==> AllInRange(Log(), size)
    {
      uninstalling := true;
      DropCache();
      ret := RestoreAll();
      var flushed := FlushCache();
      ret := ret && flushed;
    }

    /** The loop of uninstall. */
    method RestoreAll() returns (ok: bool)
      requires Valid() && LogValid() && Addressable(Log()) && uninstalling
      modifies `disk, `dirty, `cachedBlock, cache, `logical, uninstallData, `uninstallDataI
      ensures Valid() && LogValid() && Log() == old(Log())
      ensures logical == Replay(Log(), old(logical))
      ensures ok <==> AllInRange(Log(), size)
    {
      ghost var log := Log();
      ok := true;
      for i := 0 to uninstallDataI
        invariant Valid() && LogValid() && Log() == log
        invariant logical == Replay(log[..i], old(logical))
        invariant ok <==> AllInRange(log[..i], size)
      {
        assert uninstallData[i] == log[i];
        ReplayStep(log, i, old(logical));
        AllInRangeStep(log, i, size);
        var restored := RestoreEntry(uninstallData[i]);
        if !restored {
          ok := false;
        }
      }
      assert log[..|log|] == log;
    }

    /** store_uninstall_data: fwrite reports failure for an item of no bytes. */
    method StoreUninstallData() returns (ok: bool, file: seq<byte>)
      requires LogValid()
      ensures ok <==> Storable(Log())
      ensures ok ==> file == Encode(Log())
    {
      ghost var log := Log();
      file := Le64(uninstallDataI);
      StoredEnds(file, log);
      for i := 0 to uninstallDataI
        invariant Stored(file, log, i)
      {
        ok, file := StoreEntry(file, uninstallData[i], log, i);
        if !ok {
          return;
        }
      }
      StoredEnds(file, log);
      ok := true;
    }

    static method StoreEntry(file: seq<byte>, e: Entry, ghost log: seq<Entry>, ghost i: nat)
      returns (ok: bool, more: seq<byte>)
      requires i < |log| && e == log[i] && Stored(file, log, i)
      ensures ok <==> e.data != []
      ensures if ok then Stored(more, log, i + 1) else !Storable(log)
    {
      StoredStep(file, log, i);
      if |e.data| == 0 {
        return false, file;
      }
      return true, file + (Le64(e.loc) + Le64(|e.data|) + e.data);
    }

    /** One entry of the file. */
    static method LoadEntry(ghost done: seq<Entry>, ghost n: nat, b: seq<byte>, ghost file: seq<byte>)
      returns (ok: bool, e: Entry, rest: seq<byte>)
      requires n > 0 && Loading(done, n, b, file)
      ensures if ok then Loading(done + [e], n - 1, rest, file) else Decode(file).None?
    {
      LoadingStep(done, n, b, file);
      e, rest := NOTHING, b;
      if |b| < 16 {
        return false, e, rest;
      }
      var loc, count := LeValue(b[..8]), LeValue(b[8..16]);
      if count == 0 || |b| - 16 < count {
        return false, e, rest;
      }
      return true, Entry(loc, b[16..16 + count]), b[16 + count..];
    }

    /** load_uninstall_data. */
    method LoadUninstallData(file: seq<byte>) returns (ok: bool)
      requires LogValid()
      modifies uninstallData, `uninstallDataI
      ensures ok <==> Decode(file).Some?
      ensures ok ==> LogValid() && Log() == Decode(file).value
    {
      if |file| < 8 {
        return false;
      }
      uninstallDataI := LeValue(file[..8]);
      if uninstallDataI > UNINSTALL_DATA_MAX {
        return false;
      }
      var n, rest := uninstallDataI, file[8..];
      LoadingStarts(file);
      for i := 0 to n
        modifies uninstallData
        invariant Loading(uninstallData[..i], n - i, rest, file)
      {
        ghost var done := uninstallData[..i];
        var e, more;
        ok, e, more := LoadEntry(done, n - i, rest, file);
        if !ok {
          return;
        }
        uninstallData[i] := e;
        assert uninstallData[..i + 1] == done + [e];
        rest := more;
      }
      LoadingEnds(uninstallData[..n], rest, file);
      return true;
    }

    /** A read while installing. */
    method ReadLogged(loc: nat, count: nat) returns (ok: bool, buffer: seq<byte>)
      requires InSession() && loc <= NO_BLOCK
      modifies `disk, `dirty, `cachedBlock, cache
      ensures InSession() && Log() == old(Log()) && (old(Recording()) ==> Recording())
      ensures ok <==> count == 0 || loc + count <= size
      ensures ok ==> buffer == Range(logical, loc, count)
    {
      OpenSession();
      ghost var disk0 := disk;
      ok, buffer := Read(loc, count);
      KeptByFlush(Log(), disk0, logical);
    }

    method FlushLogged() returns (ok: bool)
      requires InSession()
      modifies `disk, `dirty
      ensures ok && InSession() && disk == logical && Log() == old(Log()) && (old(Recording()) ==> Recording())
    {
      OpenSession();
      ghost var disk0 := disk;
      ok := FlushCache();
      KeptByFlush(Log(), disk0, logical);
    }

    /** The end of an installation: the reversed log is either kept (success) or written out (failure). */
    method CleanUp(success: bool)
      requires InSession() && (success ==> disk == logical)
      modifies this, cache, uninstallData, uninstallDataRev
      ensures Valid() && LogValid()
      ensures !success ==> disk == orig
      ensures success ==> disk == old(disk) && Log() == Reverse(old(Log())) && Replay(Log(), disk) == orig
    {
      OpenSession();
      RollbackIsExact(Log(), orig, disk, logical);
      ReverseUninstallData();
      if !success {
        var restored := Uninstall();
      }
    }

    /** The writes of an installation, in order until one fails. */
    method WriteAll(writes: seq<Entry>) returns (ok: bool)
      requires InSession() && Log() == [] && logical == orig && Addressable(writes)
      modifies `disk, `dirty, `cachedBlock, cache, `logical, uninstallData, `uninstallDataI
      ensures InSession()
      ensures ok <==> |writes| <= UNINSTALL_DATA_MAX && AllInRange(writes, size)
      ensures |Log()| <= |writes| && SameRanges(Log(), writes[..|Log()|])
      ensures ok ==> logical == Replay(writes, orig) && |Log()| == |writes|
    {
      for i := 0 to |writes|
        invariant InSession() && logical == Replay(writes[..i], orig)
        invariant |Log()| == i <= UNINSTALL_DATA_MAX && SameRanges(Log(), writes[..i])
        invariant AllInRange(writes[..i], size)
      {
        ReplayStep(writes, i, orig);
        AllInRangeStep(writes, i, size);
        ghost var log := Log();
        assert writes[i] in writes;
        ok := Write(writes[i].data, writes[i].loc);
        if !ok {
          return;
        }
        SameRangesAppend(log, writes, i, Log()[i]);
      }
      assert writes[..|writes|] == writes;
      ok := true;
    }

    /**
     An installation, from its first write to its cleanup: the writes in order until one fails,
     then the reversed log is either kept (success) or written out (failure).
     */
    method Install(writes: seq<Entry>) returns (ok: bool)
      requires InSession() && Log() == [] && logical == orig && Addressable(writes)
      modifies this, cache, uninstallData, uninstallDataRev
      ensures Valid() && LogValid()
      ensures ok <==> |writes| <= UNINSTALL_DATA_MAX && AllInRange(writes, size)
      ensures !ok ==> disk == orig
      ensures ok ==> disk == Replay(writes, orig) && Replay(Log(), disk) == orig && SameRanges(Log(), Reverse(writes))
    {
      ok := WriteAll(writes);
      if ok {
        ok := FlushLogged();
      }
      SameRangesReversed(Log(), writes);
      assert ok ==> writes[..|Log()|] == writes;
      CleanUp(ok);
    }
  }

  /** g is the smallest of the three guesses of which a whole block can be read. */
  ghost predicate IsBlockSize(g: nat, size: nat, sector: nat) {
    Readable(g, size, sector) && forall h: nat | Readable(h, size, sector) :: g <= h
  }

  predicate Readable(g: nat, size: nat, sector: nat) {
    g in {512, 2048, 4096} && sector <= g <= size
  }

  /** A device of whole blocks, whichever block size is found for it. */
  ghost predicate WholeBlocks(size: nat, sector: nat) {
    size < MAX_SIZE && forall g: nat | IsBlockSize(g, size, sector) :: g > 0 && size % g == 0
  }

  /** device_init: reads of less than a sector fail. */
  method DeviceInit(contents: seq<byte>, sector: nat) returns (dev: Device?)
    requires WholeBlocks(|contents|, sector)
    ensures dev != null ==> fresh(dev) && fresh(dev.cache) && fresh(dev.uninstallData) && fresh(dev.uninstallDataRev)
    ensures dev != null ==> dev.InSession() && dev.Log() == [] && dev.disk == dev.logical == dev.orig == contents
    ensures dev != null ==> dev.size == |contents| && IsBlockSize(dev.blockSize, |contents|, sector)
    ensures dev == null ==> forall g: nat :: !IsBlockSize(g, |contents|, sector)
  {
    var guesses := [512, 2048, 4096];
    for i := 0 to 3
      invariant forall k | 0 <= k < i :: |contents| < guesses[k] || guesses[k] < sector
    {
      if |contents| >= guesses[i] && guesses[i] >= sector {
        forall h: nat | Readable(h, |contents|, sector)
          ensures guesses[i] <= h
        {
          assert guesses[0] == 512 && guesses[1] == 2048;
        }
        assert IsBlockSize(guesses[i], |contents|, sector);
        dev := new Device(contents, guesses[i]);
        return;
      }
    }
    assert |contents| < guesses[0] || guesses[0] < sector;
    assert |contents| < guesses[1] || guesses[1] < sector;
    assert |contents| < guesses[2] || guesses[2] < sector;
    dev := null;
  }

  /** The --uninstall mode: a new run that loads the file and writes its ranges to the device. */
  method UninstallMode(contents: seq<byte>, file: seq<byte>, sector: nat) returns (ok: bool, after: seq<byte>)
    requires WholeBlocks(|contents|, sector)
    ensures if (exists g: nat :: IsBlockSize(g, |contents|, sector)) && Decode(file).Some?
            then after == Replay(Decode(file).value, contents) && ok == AllInRange(Decode(file).value, |contents|)
            else after == contents && !ok
  {
    after := contents;
    var dev := DeviceInit(contents, sector);
    if dev == null { return false, after; }
    ok := dev.LoadUninstallData(file);
    if !ok { return; }
    DecodedIsAddressable(LeValue(file[..8]), file[8..]);
    ok := dev.Uninstall();
    after := dev.disk;
  }

  /**
   Installing, storing the uninstall data and running the uninstaller later on the same
   disk gives the original contents back; so does an installation that fails half-way.
   */
  method InstallThenUninstall(contents: seq<byte>, writes: seq<Entry>, sector: nat) returns (ok: bool, after: seq<byte>)
    requires WholeBlocks(|contents|, sector)
    requires Storable(writes) && Fits(writes)
    ensures after == contents
    ensures (&& (exists g: nat :: IsBlockSize(g, |contents|, sector))
             && |writes| <= UNINSTALL_DATA_MAX
             && AllInRange(writes, |contents|)) ==> ok
  {
    after := contents;
    var dev := DeviceInit(contents, sector);
    if dev == null { return false, after; }
    ok := dev.Install(writes);
    after := dev.disk;
    if !ok { return; }
    ghost var log := dev.Log();
    StoredLog(log, writes, |contents|);
    FileRoundTrip(log);
    var stored, file := dev.StoreUninstallData();
    ok, after := UninstallMode(dev.disk, file, sector);
  }

  /** The log of an installation can be stored. */
  lemma {:induction false} StoredLog(log: seq<Entry>, writes: seq<Entry>, size: nat)
    requires SameRanges(log, Reverse(writes)) && AllInRange(writes, size)
    requires Storable(writes) && Fits(writes)
    ensures Storable(log) && Fits(log) && Addressable(log) && AllInRange(log, size)
  {
    forall e | e in log
      ensures e.loc <= NO_BLOCK && e.data != [] && |e.data| <= NO_BLOCK && InRange(e, size)
    {
      var k :| 0 <= k < |log| && log[k] == e;
      assert writes[|log| - 1 - k] in writes;
    }
  }
}
