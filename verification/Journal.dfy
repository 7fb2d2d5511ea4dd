/**
 The undo journal of the boot-sector installer, on plain byte sequences: what a
 log of overwritten bytes restores, and in which order it has to be replayed.
 */
module Journal {

  type byte = x: int | 0 <= x < 256

  /** `data` laid over `d` from position loc on; what falls past the end is dropped. */
  function Overwrite(d: seq<byte>, loc: nat, data: seq<byte>): (r: seq<byte>)
    ensures |r| == |d|
  {
    seq(|d|, i requires 0 <= i < |d| => if loc <= i < loc + |data| then data[i - loc] else d[i])
  }

  /** The bytes an overwritten range held before. */
  datatype Entry = Entry(loc: nat, data: seq<byte>)

  predicate InRange(e: Entry, n: nat) {
    e.data == [] || e.loc + |e.data| <= n
  }

  predicate Touches(e: Entry, i: nat) {
    e.loc <= i < e.loc + |e.data|
  }

  /** Some entry of the log overwrote byte i. */
  ghost predicate Covered(log: seq<Entry>, i: nat) {
    exists k :: 0 <= k < |log| && Touches(log[k], i)
  }

  /** Restores the saved ranges from the newest to the oldest. */
  function Undo(log: seq<Entry>, d: seq<byte>): (r: seq<byte>)
    ensures |r| == |d|
  {
    if log == [] then d
    else Undo(log[..|log| - 1], Overwrite(d, log[|log| - 1].loc, log[|log| - 1].data))
  }

  /** Writes the ranges of a list in order. */
  function Replay(list: seq<Entry>, d: seq<byte>): (r: seq<byte>)
    ensures |r| == |d|
  {
    if list == [] then d
    else Overwrite(Replay(list[..|list| - 1], d), list[|list| - 1].loc, list[|list| - 1].data)
  }

  function Reverse(s: seq<Entry>): (r: seq<Entry>)
    ensures |r| == |s|
    ensures forall i | 0 <= i < |s| :: r[i] == s[|s| - 1 - i]
  {
    seq(|s|, i requires 0 <= i < |s| => s[|s| - 1 - i])
  }

  lemma {:induction false} ReplayFirst(e: Entry, list: seq<Entry>, d: seq<byte>)
    ensures Replay([e] + list, d) == Replay(list, Overwrite(d, e.loc, e.data))
  {
    if list == [] {
      assert [e] + list == [e];
      assert [e][..0] == [];
    } else {
      var n := |list| - 1;
      assert ([e] + list)[..n + 1] == [e] + list[..n];
      ReplayFirst(e, list[..n], d);
    }
  }

  /** Writing out the reversed log is undoing it. */
  lemma {:induction false} ReplayOfReverse(log: seq<Entry>, d: seq<byte>)
    ensures Replay(Reverse(log), d) == Undo(log, d)
  {
    if log != [] {
      var n := |log| - 1;
      assert Reverse(log) == [log[n]] + Reverse(log[..n]);
      ReplayFirst(log[n], Reverse(log[..n]), d);
      ReplayOfReverse(log[..n], Overwrite(d, log[n].loc, log[n].data));
    }
  }

  lemma {:induction false} CoveredByPrefix(log: seq<Entry>, i: nat)
    requires log != []
    ensures Covered(log, i) <==> Covered(log[..|log| - 1], i) || Touches(log[|log| - 1], i)
  {
    var n := |log| - 1;
    if Covered(log[..n], i) {
      var k :| 0 <= k < n && Touches(log[..n][k], i);
      assert Touches(log[k], i);
    }
    if Covered(log, i) && !Touches(log[n], i) {
      var k :| 0 <= k < |log| && Touches(log[k], i);
      assert Touches(log[..n][k], i);
    }
  }

  /** x and y may differ only where the log has entries. */
  ghost predicate AgreeOutside(log: seq<Entry>, x: seq<byte>, y: seq<byte>) {
    |x| == |y| && forall i | 0 <= i < |x| :: Covered(log, i) || x[i] == y[i]
  }

  /**
   Undoing does not depend on what the logged ranges hold at the time: this is why
   throwing away a dirty cached block before the rollback does no harm.
   */
  lemma {:induction false} UndoIgnoresLoggedBytes(log: seq<Entry>, x: seq<byte>, y: seq<byte>)
    requires AgreeOutside(log, x, y)
    ensures Undo(log, x) == Undo(log, y)
  {
    if log == [] {
      forall i | 0 <= i < |x|
        ensures x[i] == y[i]
      {
        assert !Covered(log, i);
      }
    } else {
      var n := |log| - 1;
      var x', y' := Overwrite(x, log[n].loc, log[n].data), Overwrite(y, log[n].loc, log[n].data);
      forall i | 0 <= i < |x|
        ensures Covered(log[..n], i) || x'[i] == y'[i]
      {
        CoveredByPrefix(log, i);
      }
      UndoIgnoresLoggedBytes(log[..n], x', y');
    }
  }

  lemma {:induction false} UndoKeepsOutside(log: seq<Entry>, d: seq<byte>)
    ensures AgreeOutside(log, d, Undo(log, d))
  {
    if log != [] {
      var n := |log| - 1;
      var d' := Overwrite(d, log[n].loc, log[n].data);
      UndoKeepsOutside(log[..n], d');
      forall i | 0 <= i < |d|
        ensures Covered(log, i) || d[i] == Undo(log, d)[i]
      {
        CoveredByPrefix(log, i);
      }
    }
  }

  /** Putting the old bytes of a range back cancels the write. */
  lemma {:induction false} OverwriteTwice(d: seq<byte>, loc: nat, data: seq<byte>)
    requires InRange(Entry(loc, data), |d|)
    ensures data == [] || Overwrite(Overwrite(d, loc, data), loc, d[loc..loc + |data|]) == d
    ensures data == [] ==> Overwrite(Overwrite(d, loc, data), loc, []) == d
  {
  }

  /** A write inside a range that lies over another sequence. */
  lemma {:induction false} OverwriteInside(d: seq<byte>, loc: nat, data: seq<byte>, at: nat, bytes: seq<byte>)
    requires at + |bytes| <= |data|
    ensures Overwrite(Overwrite(d, loc, data), loc + at, bytes) == Overwrite(d, loc, Overwrite(data, at, bytes))
  {
  }

  /** A range written in parts, from the front. */
  lemma {:induction false} OverwriteOn(d: seq<byte>, loc: nat, data: seq<byte>, n: nat, m: nat)
    requires n + m <= |data|
    ensures Overwrite(Overwrite(d, loc, data[..n]), loc + n, data[n..n + m]) == Overwrite(d, loc, data[..n + m])
  {
  }

  lemma {:induction false} OverwriteNothing(d: seq<byte>, loc: nat, data: seq<byte>)
    ensures Overwrite(d, loc, data[..0]) == d
  {
  }

  /** The part of a range behind the end is dropped. */
  lemma {:induction false} OverwriteOff(d: seq<byte>, loc: nat, data: seq<byte>, n: nat)
    requires n <= |data| && loc + n >= |d|
    ensures Overwrite(d, loc, data[..n]) == Overwrite(d, loc, data)
  {
  }

  /** Writing the same bytes again changes nothing: a retried write is harmless. */
  lemma {:induction false} OverwriteAgain(d: seq<byte>, loc: nat, data: seq<byte>)
    ensures Overwrite(Overwrite(d, loc, data), loc, data) == Overwrite(d, loc, data)
  {
  }

  lemma {:induction false} ReplayStep(list: seq<Entry>, k: nat, d: seq<byte>)
    requires k < |list|
    ensures Replay(list[..k + 1], d) == Overwrite(Replay(list[..k], d), list[k].loc, list[k].data)
  {
    assert list[..k + 1][..k] == list[..k];
  }

  /** The two lists name the same ranges, whatever bytes they hold. */
  ghost predicate SameRanges(a: seq<Entry>, b: seq<Entry>) {
    |a| == |b| && forall k | 0 <= k < |a| :: a[k].loc == b[k].loc && |a[k].data| == |b[k].data|
  }

  ghost predicate Addressable(list: seq<Entry>) {
    forall e | e in list :: e.loc <= 0xffff_ffff_ffff_ffff
  }

  lemma {:induction false} SameRangesAppend(a: seq<Entry>, b: seq<Entry>, n: nat, e: Entry)
    requires n < |b| && SameRanges(a, b[..n]) && e.loc == b[n].loc && |e.data| == |b[n].data|
    ensures SameRanges(a + [e], b[..n + 1])
  {
  }

  lemma {:induction false} SameRangesReversed(a: seq<Entry>, b: seq<Entry>)
    requires |a| <= |b| && SameRanges(a, b[..|a|]) && Addressable(b)
    ensures SameRanges(Reverse(a), Reverse(b[..|a|])) && Addressable(Reverse(a))
  {
    forall e | e in Reverse(a)
      ensures e.loc <= 0xffff_ffff_ffff_ffff
    {
      var k :| 0 <= k < |a| && Reverse(a)[k] == e;
      assert b[|a| - 1 - k] in b;
    }
  }

  /** The bytes of a range, none for an empty one. */
  function Range(d: seq<byte>, loc: nat, count: nat): (r: seq<byte>)
    requires count == 0 || loc + count <= |d|
    ensures |r| == count
  {
    if count == 0 then [] else d[loc..loc + count]
  }

  lemma {:induction false} RangeAppend(d: seq<byte>, loc: nat, n: nat, m: nat)
    requires loc + n + m <= |d|
    ensures Range(d, loc, n) + d[loc + n..loc + n + m] == Range(d, loc, n + m)
  {
  }

  predicate AllInRange(list: seq<Entry>, size: nat) {
    forall e | e in list :: InRange(e, size)
  }

  lemma {:induction false} AllInRangeStep(list: seq<Entry>, k: nat, size: nat)
    requires k < |list|
    ensures AllInRange(list[..k + 1], size) <==> AllInRange(list[..k], size) && InRange(list[k], size)
  {
    assert list[..k + 1] == list[..k] + [list[k]];
  }

  /**
   The state of a journaled device: undoing the log on the logical contents gives the
   original ones, and the device itself differs from them in logged places only.
   */
  ghost predicate Journaled(log: seq<Entry>, orig: seq<byte>, disk: seq<byte>, logical: seq<byte>) {
    Undo(log, logical) == orig && AgreeOutside(log, disk, orig) && |logical| == |orig| && Addressable(log)
  }

  /** disk' is disk with some bytes replaced by the logical ones, plus anything in the written range. */
  ghost predicate FlushedInto(disk: seq<byte>, disk': seq<byte>, logical: seq<byte>, written: Entry) {
    |disk| == |disk'| == |logical|
    && forall i | 0 <= i < |disk| :: disk'[i] == disk[i] || disk'[i] == logical[i] || Touches(written, i)
  }

  lemma {:induction false} FlushTwice(disk: seq<byte>, disk1: seq<byte>, disk2: seq<byte>, logical: seq<byte>,
                                      written: Entry)
    requires FlushedInto(disk, disk1, logical, Entry(0, [])) && FlushedInto(disk1, disk2, logical, written)
    ensures FlushedInto(disk, disk2, logical, written)
  {
  }

  /** Flushing in the middle of a write. */
  lemma {:induction false} FlushedPart(disk: seq<byte>, disk1: seq<byte>, disk2: seq<byte>, before: seq<byte>,
                                       logical: seq<byte>, loc: nat, data: seq<byte>, n: nat)
    requires n <= |data| && logical == Overwrite(before, loc, data[..n])
    requires FlushedInto(disk, disk1, before, Entry(loc, data)) && FlushedInto(disk1, disk2, logical, Entry(0, []))
    ensures FlushedInto(disk, disk2, before, Entry(loc, data))
  {
  }

  /** One logged write keeps the journal, however much of it the cache has already flushed. */
  lemma {:induction false} LoggedWrite(log: seq<Entry>, orig: seq<byte>, disk: seq<byte>, logical: seq<byte>,
                                       disk': seq<byte>, loc: nat, data: seq<byte>)
    requires Journaled(log, orig, disk, logical) && InRange(Entry(loc, data), |logical|)
    requires FlushedInto(disk, disk', logical, Entry(loc, data)) && loc <= 0xffff_ffff_ffff_ffff
    ensures Journaled(log + [Entry(loc, Range(logical, loc, |data|))], orig, disk', Overwrite(logical, loc, data))
  {
    var e := Entry(loc, Range(logical, loc, |data|));
    var log' := log + [e];
    assert log'[..|log|] == log;
    OverwriteTwice(logical, loc, data);
    UndoKeepsOutside(log, logical);
    forall i | 0 <= i < |disk|
      ensures Covered(log', i) || disk'[i] == orig[i]
    {
      CoveredByPrefix(log', i);
    }
  }

  /** Flushing part of the cache keeps the journal. */
  lemma {:induction false} FlushKeepsJournal(log: seq<Entry>, orig: seq<byte>, disk: seq<byte>, logical: seq<byte>,
                                             disk': seq<byte>)
    requires Journaled(log, orig, disk, logical) && FlushedInto(disk, disk', logical, Entry(0, []))
    ensures Journaled(log, orig, disk', logical)
  {
    UndoKeepsOutside(log, logical);
  }

  /** Rollback from the device alone, the cached block discarded, restores the original contents. */
  lemma {:induction false} RollbackIsExact(log: seq<Entry>, orig: seq<byte>, disk: seq<byte>, logical: seq<byte>)
    requires Journaled(log, orig, disk, logical)
    ensures Replay(Reverse(log), disk) == orig
    ensures Replay(Reverse(log), logical) == orig
    ensures Addressable(Reverse(log))
  {
    forall e | e in Reverse(log) ensures e in log { }
    UndoKeepsOutside(log, logical);
    UndoIgnoresLoggedBytes(log, disk, logical);
    ReplayOfReverse(log, disk);
    ReplayOfReverse(log, logical);
  }
}
