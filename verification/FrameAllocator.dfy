/**
 The physical frame allocator: a bitmap with one bit per 4 KiB frame (set means
 in use) behind a pool of twenty prefetched frames.
 */
module FrameAllocation {
  import opened Bits

  const PAGE_SIZE: nat := 0x1000
  const POOL_SIZE: nat := 20
  const NULL: nat := 0

  /** One entry of the boot loader's memory map. */
  datatype MemmapEntry = MemmapEntry(base: nat, length: nat, usable: bool) {
    function End(): nat { base + length }
  }

  ghost predicate IsLeast(x: nat, s: set<nat>) {
    x in s && AtLeast(s, x)
  }

  ghost predicate AtLeast(s: set<nat>, lo: nat) {
    forall y | y in s :: lo <= y
  }

  ghost predicate Below(s: set<nat>, hi: nat) {
    forall y | y in s :: y < hi
  }

  /** Bit n of a bitmap of 32-bit words is clear. */
  predicate ClearAt(words: seq<nat>, n: nat) {
    n < 32 * |words| && !Bit(words[n / 32], n % 32)
  }

  /** The clear bits of the bitmap are exactly the frames in free. */
  ghost predicate Represents(words: seq<nat>, free: set<nat>) {
    forall n: nat {:trigger ClearAt(words, n)} :: ClearAt(words, n) <==> n in free
  }

  lemma {:induction false} SetBitTakes(words: seq<nat>, free: set<nat>, n: nat)
    requires n < 32 * |words| && Represents(words, free)
    ensures Represents(words[n / 32 := Or(words[n / 32], Pow2(n % 32))], free - {n})
  {
    var words' := words[n / 32 := Or(words[n / 32], Pow2(n % 32))];
    forall m: nat
      ensures ClearAt(words', m) <==> ClearAt(words, m) && m != n
    {
      if m / 32 == n / 32 {
        OrBit(words[n / 32], Pow2(n % 32), m % 32);
        Pow2Bit(n % 32, m % 32);
      }
    }
  }

  lemma {:induction false} ClearBitFrees(words: seq<nat>, free: set<nat>, n: nat)
    requires n < 32 * |words| && Represents(words, free)
    ensures Represents(words[n / 32 := AndNot(words[n / 32], Pow2(n % 32))], free + {n})
  {
    var words' := words[n / 32 := AndNot(words[n / 32], Pow2(n % 32))];
    forall m: nat
      ensures ClearAt(words', m) <==> ClearAt(words, m) || m == n
    {
      if m / 32 == n / 32 {
        AndNotBit(words[n / 32], Pow2(n % 32), m % 32);
        Pow2Bit(n % 32, m % 32);
      }
    }
  }

  lemma {:induction false} FullWordHasNoClearBit(words: seq<nat>, free: set<nat>, i: nat)
    requires i < |words| && words[i] == 0xffff_ffff && Represents(words, free) && AtLeast(free, 32 * i)
    ensures AtLeast(free, 32 * i + 32)
  {
    Pow2Values();
    forall n | n in free
      ensures 32 * i + 32 <= n
    {
      assert ClearAt(words, n);
      OnesBit(32, n % 32);
    }
  }

  ghost predicate Within(s: set<nat>, npages: nat) {
    AtLeast(s, 1) && Below(s, npages)
  }

  /** Who owns which frame number: the three parts of a frame allocator's state never overlap. */
  ghost predicate Partition(free: set<nat>, pool: set<nat>, live: set<nat>, npages: nat) {
    free !! pool && free !! live && pool !! live && Within(free, npages) && Within(pool, npages) && Within(live, npages)
  }

  /** A live frame becomes free. */
  lemma {:induction false} GiveBack(free: set<nat>, pool: set<nat>, live: set<nat>, npages: nat, n: nat)
    requires Partition(free, pool, live, npages) && n in live
    ensures Partition(free + {n}, pool, live - {n}, npages) && n < npages
    ensures (free + {n}) + pool + (live - {n}) == free + pool + live
  {
  }

  /** The frames that refills of twenty can take out of n free ones. */
  function WholeRefills(n: nat): (r: nat)
    ensures r <= n < r + 20
  {
    n - n % 20
  }

  lemma {:induction false} OneRefill(n: nat)
    ensures n >= 20 ==> WholeRefills(n) == 20 + WholeRefills(n - 20)
    ensures n < 20 ==> WholeRefills(n) == 0
  {
  }

  /** s lists the addresses of the pool's frames in ascending order; folded. */
  ghost predicate Pooled(s: seq<nat>, pool: set<nat>) {
    |s| == |pool| && forall n: nat | Unfold(n) :: Listed(s, pool)
  }

  ghost predicate Listed(s: seq<nat>, pool: set<nat>) {
    && (forall i | 0 <= i < |s| :: IsFrameOf(s[i], s[i] / 0x1000) && s[i] / 0x1000 in pool)
    && (forall x {:trigger InList(s, x)} | x in pool :: InList(s, x))
    && forall i, j | 0 <= i < j < |s| :: s[i] < s[j]
  }

  predicate IsFrameOf(f: nat, n: nat) { f == n * 0x1000 }

  ghost predicate InList(s: seq<nat>, x: nat) { exists i :: 0 <= i < |s| && IsFrameOf(s[i], x) }

  /** Every number in a is smaller than every one in b. */
  ghost predicate AllBelow(a: set<nat>, b: set<nat>) {
    forall x, y | x in a && y in b :: x < y
  }

  lemma {:induction false} PooledAppend(s: seq<nat>, pool: set<nat>, f: nat, n: nat)
    requires Pooled(s, pool) && n !in pool && f == n * PAGE_SIZE && AllBelow(pool, {n})
    ensures Pooled(s + [f], pool + {n})
  {
    ListBelow(s, pool, n);
    ListGrows(s, pool, f, n);
  }

  lemma {:induction false} ListBelow(s: seq<nat>, pool: set<nat>, n: nat)
    requires Pooled(s, pool) && AllBelow(pool, {n})
    ensures forall i | 0 <= i < |s| :: s[i] < n * 0x1000
  {
    assert Unfold(0);
    forall i | 0 <= i < |s| ensures s[i] < n * 0x1000 {
      assert IsFrameOf(s[i], s[i] / 0x1000) && s[i] / 0x1000 < n;
    }
  }

  lemma {:induction false} ListGrows(s: seq<nat>, pool: set<nat>, f: nat, n: nat)
    requires Pooled(s, pool) && n !in pool && IsFrameOf(f, n) && forall i | 0 <= i < |s| :: s[i] < f
    ensures Pooled(s + [f], pool + {n})
  {
    assert Unfold(0);
    var t := s + [f];
    QuotientUnique(f, 0x1000, n, 0);
    forall x | x in pool + {n} ensures InList(t, x) {
      if x == n {
        assert IsFrameOf(t[|s|], x);
      } else {
        assert InList(s, x);
        var i :| 0 <= i < |s| && IsFrameOf(s[i], x);
        assert IsFrameOf(t[i], x);
      }
    }
  }

  /** Taking the least of the rest keeps what was taken below what is left. */
  lemma {:induction false} BelowAppend(pool: set<nat>, free: set<nat>, n: nat)
    requires AllBelow(pool, free) && IsLeast(n, free)
    ensures AllBelow(pool, {n}) && AllBelow(pool + {n}, free - {n})
  {
  }

  /** The first pooled frame is the least; without it the others are still pooled. */
  lemma {:induction false} FirstIsLeast(s: seq<nat>, pool: set<nat>)
    requires Pooled(s, pool) && s != []
    ensures s[0] % 0x1000 == 0 && IsLeast(s[0] / 0x1000, pool)
    ensures Pooled(s[1..], pool - {s[0] / 0x1000})
  {
    assert Unfold(0);
    var first := s[0] / 0x1000;
    forall x | x in pool ensures first <= x && (x != first ==> InList(s[1..], x)) {
      assert InList(s, x);
      var i :| 0 <= i < |s| && IsFrameOf(s[i], x);
      assert i > 0 ==> IsFrameOf(s[1..][i - 1], x);
    }
    forall i | 1 <= i < |s| ensures s[i] / 0x1000 != first {
      assert IsFrameOf(s[i], s[i] / 0x1000) && IsFrameOf(s[0], first);
    }
  }

  /** The least of what is below the rest is the least of all. */
  lemma {:induction false} LeastOfAll(x: nat, pool: set<nat>, free: set<nat>)
    requires IsLeast(x, pool) && AllBelow(pool, free)
    ensures IsLeast(x, free + pool)
  {
  }

  /** Truncation of a 64-bit sum to the 32-bit variable that receives it. */
  function Truncate32(x: nat): nat { x % 0x1_0000_0000 }

  /** The largest end address of a usable entry; 0 when there is none. */
  function MaxUsableEnd(entries: seq<MemmapEntry>): nat {
    if entries == [] then 0
    else
      var rest := MaxUsableEnd(entries[..|entries| - 1]);
      var e := entries[|entries| - 1];
      if e.usable && e.End() > rest then e.End() else rest
  }

  /** What mem_high computes: the running maximum lives in 32 bits. */
  function TruncatedHigh(entries: seq<MemmapEntry>): nat {
    if entries == [] then 0
    else
      var rest := TruncatedHigh(entries[..|entries| - 1]);
      var e := entries[|entries| - 1];
      if e.usable && e.End() > rest then Truncate32(e.End()) else rest
  }

  lemma {:induction false} TruncatedHighBelow4GiB(entries: seq<MemmapEntry>)
    ensures TruncatedHigh(entries) < WORD32
    ensures MaxUsableEnd(entries) < WORD32 ==> TruncatedHigh(entries) == MaxUsableEnd(entries)
  {
    if entries != [] {
      TruncatedHighBelow4GiB(entries[..|entries| - 1]);
    }
  }

  /** mem_high is right exactly when usable memory ends below 4 GiB. */
  lemma {:induction false} MemHighExactness(entries: seq<MemmapEntry>)
    ensures TruncatedHigh(entries) == MaxUsableEnd(entries) <==> MaxUsableEnd(entries) < WORD32
  {
    TruncatedHighBelow4GiB(entries);
  }

  /** A machine whose only usable entry ends at 4 GiB is seen as having no memory. */
  lemma {:induction false} MemHighLosesFourGiB()
    ensures TruncatedHigh([MemmapEntry(0x10_0000, 0xfff0_0000, true)]) == 0
  {
    assert [MemmapEntry(0x10_0000, 0xfff0_0000, true)][..0] == [];
  }

  lemma {:induction false} MaxUsableEndBounds(entries: seq<MemmapEntry>, k: nat)
    requires k < |entries| && entries[k].usable
    ensures entries[k].End() <= MaxUsableEnd(entries)
  {
    if k < |entries| - 1 {
      assert entries[..|entries| - 1][k] == entries[k];
      MaxUsableEndBounds(entries[..|entries| - 1], k);
    }
  }

  /** Entry i was the last to raise the maximum: its end, cut to 32 bits, is the result, and no later one exceeds it. */
  predicate LastRaise(entries: seq<MemmapEntry>, i: nat, high: nat) {
    && i < |entries| && entries[i].usable && high == (entries[i].base + entries[i].length) % 0x1_0000_0000
    && forall j | i < j < |entries| && entries[j].usable :: entries[j].base + entries[j].length <= high
  }

  lemma {:induction false} HighIsLastRaise(entries: seq<MemmapEntry>)
    ensures var high := TruncatedHigh(entries);
            || (exists i: nat :: LastRaise(entries, i, high))
            || (high == 0 && forall j | 0 <= j < |entries| && entries[j].usable :: entries[j].End() == 0)
  {
    if entries != [] {
      var n, high := |entries| - 1, TruncatedHigh(entries);
      var front := entries[..n];
      HighIsLastRaise(front);
      if entries[n].usable && entries[n].End() > TruncatedHigh(front) {
        assert LastRaise(entries, n, high);
      } else if i: nat :| LastRaise(front, i, TruncatedHigh(front)) {
        forall j | i < j < |entries| && entries[j].usable ensures entries[j].base + entries[j].length <= high {
          if j < n { assert front[j] == entries[j]; }
        }
        assert LastRaise(entries, i, high);
      } else {
        forall j | 0 <= j < |entries| && entries[j].usable ensures entries[j].End() == 0 {
          if j < n { assert front[j] == entries[j]; }
        }
      }
    }
  }

  /** Three GiB below the hole and five above it: the upper part's end, cut to 32 bits, replaces the lower one's. */
  lemma {:induction false} HighAboveHole()
    ensures TruncatedHigh([MemmapEntry(0x10_0000, 0xbfee_0000, true), MemmapEntry(0x1_0000_0000, 0x1_4000_0000, true)])
         == 0x4000_0000
  {
    var low, all := [MemmapEntry(0x10_0000, 0xbfee_0000, true)],
                    [MemmapEntry(0x10_0000, 0xbfee_0000, true), MemmapEntry(0x1_0000_0000, 0x1_4000_0000, true)];
    assert all[..1] == low && low[..0] == [];
    assert TruncatedHigh(low) == 0xbffe_0000;
  }

  method MemHigh(entries: seq<MemmapEntry>) returns (high: nat)
    ensures high == TruncatedHigh(entries)
    ensures || (exists i: nat :: LastRaise(entries, i, high))
            || (high == 0 && forall j | 0 <= j < |entries| && entries[j].usable :: entries[j].End() == 0)
  {
    HighIsLastRaise(entries);
    high := 0;
    for i := 0 to |entries|
      invariant high == TruncatedHigh(entries[..i])
    {
      assert entries[..i + 1][..i] == entries[..i];
      if entries[i].usable && entries[i].base + entries[i].length > high {
        high := Truncate32(entries[i].base + entries[i].length);
      }
    }
    assert entries[..|entries|] == entries;
  }

  function BitmapBytes(npages: nat): nat { (npages + 31) / 32 * 4 }

  /** The least number of whole 32-bit words with a bit for every page. */
  lemma {:induction false} BitmapIsLeast(npages: nat)
    ensures BitmapBytes(npages) % 4 == 0 && npages <= 8 * BitmapBytes(npages) < npages + 32
  {
  }

  /** The first usable entry longer than the bitmap. */
  ghost predicate HoldsBitmap(entries: seq<MemmapEntry>, size: nat, k: nat) {
    k < |entries| && entries[k].usable && entries[k].length > size
    && forall j | 0 <= j < k :: !(entries[j].usable && entries[j].length > size)
  }

  method BitmapAddr(entries: seq<MemmapEntry>, size: nat) returns (paddr: nat, ghost k: nat)
    requires exists j :: 0 <= j < |entries| && entries[j].usable && entries[j].length > size
    ensures HoldsBitmap(entries, size, k) && paddr == entries[k].base
    ensures exists j: nat :: HoldsBitmap(entries, size, j) && paddr == entries[j].base
  {
    var i := 0;
    while !(entries[i].usable && entries[i].length > size)
      invariant i < |entries|
      invariant forall j | 0 <= j < i :: !(entries[j].usable && entries[j].length > size)
      decreases |entries| - i
    {
      i := i + 1;
    }
    return entries[i].base, i;
  }

  /** Usable entries are made of whole pages, and page numbers fit 32 bits. */
  predicate WholePages(entries: seq<MemmapEntry>) {
    forall k | 0 <= k < |entries| && entries[k].usable ::
      entries[k].base % 0x1000 == 0 && entries[k].length % 0x1000 == 0 && entries[k].End() <= 0x1000_0000_0000
  }

  /** Usable entries of whole pages below 4 GiB, one of them longer than the bitmap. */
  ghost predicate BootMap(entries: seq<MemmapEntry>) {
    MaxUsableEnd(entries) < WORD32 && WholePages(entries)
    && exists j :: 0 <= j < |entries| && entries[j].usable
                   && entries[j].length > BitmapBytes(MaxUsableEnd(entries) / 0x1000)
  }

  /** Frame n is freed for entry e: every page of the entry but its last one. */
  predicate FreedBy(e: MemmapEntry, n: nat) {
    e.usable && e.base <= n * PAGE_SIZE && n * PAGE_SIZE + PAGE_SIZE < e.End()
  }

  predicate FreedBySome(entries: seq<MemmapEntry>, n: nat) {
    exists k :: 0 <= k < |entries| && FreedBy(entries[k], n)
  }

  /** The bits of the bitmap that pfa_init lays out for a memory map. */
  function BitmapBits(entries: seq<MemmapEntry>): nat { 32 * ((TruncatedHigh(entries) / 0x1000 + 31) / 32) }

  /** Every bit that free_available_memory clears is a bit of the bitmap. */
  ghost predicate ClearsInBounds(entries: seq<MemmapEntry>, bits: nat) {
    forall n: nat | FreedBySome(entries, n) :: n < bits
  }

  /** No usable entry of more than a page ends more than a page above the bitmap's last one. */
  predicate EndsInBounds(entries: seq<MemmapEntry>, bits: nat) {
    forall k | 0 <= k < |entries| && entries[k].usable && entries[k].length > PAGE_SIZE ::
      entries[k].End() <= bits * PAGE_SIZE + PAGE_SIZE
  }

  /** The clearing loops stay inside the bitmap exactly for maps whose entries do. */
  lemma {:induction false} ClearsInBoundsExactly(entries: seq<MemmapEntry>, bits: nat)
    requires WholePages(entries)
    ensures ClearsInBounds(entries, bits) <==> EndsInBounds(entries, bits)
  {
    if ClearsInBounds(entries, bits) {
      forall k | 0 <= k < |entries| && entries[k].usable && entries[k].length > PAGE_SIZE
        ensures entries[k].End() <= bits * PAGE_SIZE + PAGE_SIZE
      {
        var last: nat := entries[k].End() / 0x1000 - 2;
        assert FreedBy(entries[k], last);
        assert FreedBySome(entries, last);
      }
    }
  }

  /** That is so for every map below 4 GiB, which frees only pages below the highest one. */
  lemma {:induction false} BelowFourGiBInBounds(entries: seq<MemmapEntry>, n: nat)
    requires MaxUsableEnd(entries) < WORD32 && FreedBySome(entries, n)
    ensures n < MaxUsableEnd(entries) / 0x1000 <= BitmapBits(entries)
  {
    TruncatedHighBelow4GiB(entries);
    var k :| 0 <= k < |entries| && FreedBy(entries[k], n);
    MaxUsableEndBounds(entries, k);
  }

  lemma {:induction false} PagesHaveBits(entries: seq<MemmapEntry>, npages: nat, bits: nat)
    requires BootMap(entries) && npages == MaxUsableEnd(entries) / 0x1000 <= bits
    ensures EndsInBounds(entries, bits) && FreedPages(entries, bits) == FreedPages(entries, npages)
  {
    forall n: nat | FreedBySome(entries, n) ensures n < npages {
      BelowFourGiBInBounds(entries, n);
    }
    ClearsInBoundsExactly(entries, bits);
  }

  /** Four GiB of memory from 1 MiB on get a bitmap of 256 bits, and bit 512 is cleared behind it. */
  lemma {:induction false} ClearsOutside()
    ensures var entries := [MemmapEntry(0x10_0000, 0x1_0000_0000, true)];
            WholePages(entries) && BitmapBits(entries) == 256 && FreedBySome(entries, 512)
              && !ClearsInBounds(entries, 256)
  {
    var entries := [MemmapEntry(0x10_0000, 0x1_0000_0000, true)];
    assert entries[..0] == [];
    assert FreedBy(entries[0], 512);
  }

  /** The frames that hold a bitmap of the given size placed at base. */
  ghost function BitmapFrames(base: nat, size: nat): set<nat> {
    Range(base / 0x1000, base / 0x1000 + (size + PAGE_SIZE - 1) / 0x1000)
  }

  /** The free frames pfa_init leaves, for a bitmap placed at physical address base. */
  ghost function InitialFree(entries: seq<MemmapEntry>, npages: nat, base: nat): set<nat> {
    set n | 0 < n < npages && FreedBySome(entries, n) && n !in BitmapFrames(base, BitmapBytes(npages))
  }

  ghost function Range(lo: nat, hi: nat): set<nat> {
    set n: nat {:trigger n in Range(lo, hi)} | lo <= n < hi
  }

  /** The frames below npages freed for one entry. */
  ghost function EntryPages(e: MemmapEntry, npages: nat): set<nat> {
    set n: nat | n < npages && FreedBy(e, n)
  }

  ghost function FreedPages(entries: seq<MemmapEntry>, npages: nat): set<nat> {
    set n: nat | n < npages && FreedBySome(entries, n)
  }

  lemma {:induction false} FreedByOneMore(entries: seq<MemmapEntry>, i: nat, npages: nat)
    requires i < |entries|
    ensures FreedPages(entries[..i + 1], npages) == FreedPages(entries[..i], npages) + EntryPages(entries[i], npages)
  {
    forall n: nat
      ensures FreedBySome(entries[..i + 1], n) <==> FreedBySome(entries[..i], n) || FreedBy(entries[i], n)
    {
      if FreedBy(entries[i], n) {
        assert entries[..i + 1][i] == entries[i];
      }
      if FreedBySome(entries[..i], n) {
        var k :| 0 <= k < i && FreedBy(entries[..i][k], n);
        assert entries[..i + 1][k] == entries[..i][k];
      }
    }
  }

  lemma {:induction false} InitialFreeSet(entries: seq<MemmapEntry>, npages: nat, base: nat)
    ensures InitialFree(entries, npages, base)
            == FreedPages(entries, npages) - BitmapFrames(base, BitmapBytes(npages)) - {0}
  {
  }

  /** The bitmap's frames lie inside the entry chosen for it, hence below npages. */
  lemma {:induction false} BitmapFits(entries: seq<MemmapEntry>, k: nat, npages: nat)
    requires BootMap(entries) && npages == MaxUsableEnd(entries) / 0x1000
    requires HoldsBitmap(entries, BitmapBytes(npages), k)
    ensures npages > 0
    ensures entries[k].base / 0x1000 + (BitmapBytes(npages) + PAGE_SIZE - 1) / 0x1000 <= npages
  {
    MaxUsableEndBounds(entries, k);
    PagesCover(entries[k].base, entries[k].length, BitmapBytes(npages), MaxUsableEnd(entries));
  }

  lemma {:induction false} PagesCover(base: nat, length: nat, size: nat, high: nat)
    requires base % 0x1000 == 0 && length % 0x1000 == 0 && size < length && base + length <= high
    ensures 0 < high / 0x1000 && base / 0x1000 + (size + PAGE_SIZE - 1) / 0x1000 <= high / 0x1000
  {
    var b, l := base / 0x1000, length / 0x1000;
    assert (size + PAGE_SIZE - 1) / 0x1000 <= l;
    assert b + l <= high / 0x1000;
  }

  /** (i << 5) | j is the number of bit j of word i. */
  lemma {:induction false} WordIndex(i: nat, j: nat)
    requires j < 32
    ensures Or(32 * i, j) == 32 * i + j
  {
    Pow2Values();
    OrDisjoint(32 * i, j, 5);
  }

  lemma {:induction false} EmptyBitmap(words: seq<nat>, free: set<nat>)
    requires Represents(words, free) && AtLeast(free, 32 * |words|)
    ensures free == {}
  {
    forall n: nat
      ensures n !in free
    {
      assert ClearAt(words, n) <==> n in free;
    }
  }

  lemma {:induction false} AllOnes(words: seq<nat>)
    requires forall j | 0 <= j < |words| :: words[j] == 0xffff_ffff
    ensures Represents(words, {})
  {
    Pow2Values();
    forall n: nat
      ensures !ClearAt(words, n)
    {
      OnesBit(32, n % 32);
    }
  }

  /** A proof that mentions Unfold(n) may look inside a folded allocator invariant. */
  predicate Unfold(n: nat) { true }

  class FrameAllocator {
    const bitmap: array<nat>
    const npages: nat
    const preFrames: array<nat>
    var allocate: bool
    var pframe: nat
    /** Frame numbers: clear bits, prefetched and unconsumed, handed out and not freed. */
    ghost var free: set<nat>
    ghost var pool: set<nat>
    ghost var live: set<nat>
    ghost var supply: nat

    ghost predicate Shape()
      reads this, bitmap
    {
      npages < WORD32 - 31 && bitmap.Length == (npages + 31) / 32 && preFrames.Length == POOL_SIZE
      && bitmap != preFrames && Represents(bitmap[..], free)
    }

    /** Index of the first prefetched frame not yet consumed. */
    function PoolStart(): nat
      reads this
    {
      if allocate then POOL_SIZE else pframe
    }

    /** The invariant, folded away behind Unfold so that clients do not reason about its parts. */
    ghost predicate Valid()
      reads this, bitmap, preFrames
    {
      forall n: nat | Unfold(n) :: Invariant()
    }

    /** Clear bits, unconsumed pool frames and live frames are pairwise disjoint. */
    ghost predicate Invariant()
      reads this, bitmap, preFrames
    {
      Shape() && pframe <= POOL_SIZE && Pooled(preFrames[PoolStart()..], pool) && Partition(free, pool, live, npages)
      && supply == |pool| + WholeRefills(|free|)
    }

    lemma {:induction false} Open()
      requires Valid()
      ensures Invariant()
    {
      assert Unfold(0);
    }

    lemma {:induction false} Close()
      requires Invariant()
      ensures Valid()
    {
    }

    /** All frames that are free, prefetched or handed out. */
    ghost function Managed(): set<nat>
      reads this
    {
      free + pool + live
    }

    /** The frames that have not been handed out. */
    ghost function Available(): set<nat>
      reads this
    {
      free + pool
    }

    /** The number of KallocFrame calls that will succeed before one fails, absent frees. */
    ghost function Supply(): nat
      reads this
    {
      supply
    }

    lemma {:induction false} SupplyIs()
      requires Valid()
      ensures Supply() == |pool| + WholeRefills(|free|)
    {
      assert Unfold(0);
    }

    method BmSet(n: nat)
      requires Shape() && n < 32 * bitmap.Length
      modifies bitmap, `free
      ensures Shape() && free == old(free) - {n}
    {
      SetBitTakes(bitmap[..], free, n);
      bitmap[n / 32] := Or(bitmap[n / 32], Pow2(n % 32));
      assert bitmap[..] == old(bitmap[..])[n / 32 := Or(old(bitmap[n / 32]), Pow2(n % 32))];
      free := free - {n};
    }

    method BmClear(n: nat)
      requires Shape() && n < 32 * bitmap.Length
      modifies bitmap, `free
      ensures Shape() && free == old(free) + {n}
    {
      ClearBitFrees(bitmap[..], free, n);
      bitmap[n / 32] := AndNot(bitmap[n / 32], Pow2(n % 32));
      assert bitmap[..] == old(bitmap[..])[n / 32 := AndNot(old(bitmap[n / 32]), Pow2(n % 32))];
      free := free + {n};
    }

    /** pfa_init: every frame in use, then the usable pages freed, then the bitmap's own frames taken back. */
    constructor (entries: seq<MemmapEntry>)
      requires BootMap(entries)
      ensures Valid() && fresh(bitmap) && fresh(preFrames) && live == pool == {}
      ensures npages == MaxUsableEnd(entries) / 0x1000
      ensures exists k: nat :: HoldsBitmap(entries, BitmapBytes(npages), k)
                          && free == InitialFree(entries, npages, entries[k].base)
    {
      TruncatedHighBelow4GiB(entries);
      var high := MemHigh(entries);
      var pages := high / 0x1000;
      var size := (pages + 31) / 32 * 4;
      var paddr, k := BitmapAddr(entries, size);
      MaxUsableEndBounds(entries, k);
      bitmap := new nat[(pages + 31) / 32];
      npages := pages;
      preFrames := new nat[POOL_SIZE];
      allocate, pframe, free, pool, live := true, 0, {}, {}, {};
      new;
      LayOutBitmap(entries, paddr, size, k);
      supply := WholeRefills(|free|);
      Close();
    }

    /** The second half of pfa_init. */
    method LayOutBitmap(entries: seq<MemmapEntry>, paddr: nat, size: nat, ghost k: nat)
      requires BootMap(entries) && npages == MaxUsableEnd(entries) / 0x1000 && size == BitmapBytes(npages)
      requires bitmap.Length == (npages + 31) / 32 && preFrames.Length == POOL_SIZE && bitmap != preFrames && free == {}
      requires HoldsBitmap(entries, size, k) && paddr == entries[k].base
      modifies bitmap, `free
      ensures Shape() && free == InitialFree(entries, npages, paddr)
    {
      MarkAllUsed();
      PagesHaveBits(entries, npages, 32 * bitmap.Length);
      FreeAvailableMemory(entries);
      BitmapFits(entries, k, npages);
      ReserveBitmap(paddr, size);
      InitialFreeSet(entries, npages, paddr);
    }

    method MarkAllUsed()
      requires bitmap.Length == (npages + 31) / 32
      modifies bitmap
      ensures Represents(bitmap[..], {})
    {
      for i := 0 to (npages + 31) / 32
        invariant forall j | 0 <= j < i :: bitmap[j] == 0xffff_ffff
      {
        bitmap[i] := 0xffff_ffff;
      }
      AllOnes(bitmap[..]);
    }

    /** Takes the bitmap's own frames and frame 0 out of the free set. */
    method ReserveBitmap(paddr: nat, size: nat)
      requires Shape() && npages > 0
      requires paddr / 0x1000 + (size + PAGE_SIZE - 1) / 0x1000 <= npages
      modifies bitmap, `free
      ensures Shape() && free == old(free) - BitmapFrames(paddr, size) - {0}
    {
      var first := paddr / 0x1000;
      var count := (size + PAGE_SIZE - 1) / 0x1000;
      for i := first to first + count
        invariant Shape() && free == old(free) - Range(first, i)
      {
        BmSet(i);
      }
      BmSet(0);
    }

    /** free_available_memory, for the maps whose pages have a bit. */
    method FreeAvailableMemory(entries: seq<MemmapEntry>)
      requires Shape() && WholePages(entries) && EndsInBounds(entries, 32 * bitmap.Length)
      requires free == {}
      modifies bitmap, `free
      ensures Shape() && free == FreedPages(entries, 32 * bitmap.Length)
    {
      for i := 0 to |entries|
        invariant Shape() && free == FreedPages(entries[..i], 32 * bitmap.Length)
      {
        FreedByOneMore(entries, i, 32 * bitmap.Length);
        if entries[i].usable {
          FreeEntry(entries[i]);
        }
      }
      assert entries[..|entries|] == entries;
    }

    method FreeEntry(e: MemmapEntry)
      requires Shape() && e.usable && e.base % 0x1000 == 0
      requires e.length > PAGE_SIZE ==> e.End() <= 32 * bitmap.Length * PAGE_SIZE + PAGE_SIZE
      modifies bitmap, `free
      ensures Shape() && free == old(free) + EntryPages(e, 32 * bitmap.Length)
    {
      var m := e.base;
      while m + PAGE_SIZE < e.base + e.length
        invariant m % 0x1000 == 0 && e.base <= m
        invariant Shape() && free == old(free) + (EntryPages(e, 32 * bitmap.Length) * Range(0, m / 0x1000))
      {
        BmClear(m / 0x1000);
        assert Range(0, m / 0x1000 + 1) == Range(0, m / 0x1000) + {m / 0x1000};
        m := m + PAGE_SIZE;
      }
      assert EntryPages(e, 32 * bitmap.Length) <= Range(0, m / 0x1000);
    }

    /** First fit over the bitmap, skipping full words: the least clear bit, which it sets. */
    method KallocFrameInt() returns (frame: nat, ghost n: nat)
      requires Shape() && 0 !in free
      modifies bitmap, `free
      ensures Shape()
      ensures frame == NULL <==> old(free) == {}
      ensures frame == NULL ==> free == old(free)
      ensures frame != NULL ==> frame == n * PAGE_SIZE && IsLeast(n, old(free)) && free == old(free) - {n}
    {
      for i := 0 to (npages + 31) / 32
        invariant Shape() && free == old(free) && AtLeast(free, 32 * i)
      {
        if bitmap[i] == 0xffff_ffff {
          FullWordHasNoClearBit(bitmap[..], free, i);
        } else {
          var found, idx := TakeFromWord(i);
          if found {
            return idx * PAGE_SIZE, idx;
          }
        }
      }
      EmptyBitmap(bitmap[..], free);
      return NULL, 0;
    }

    /** The inner loop: tests the 32 bits of word i in turn and sets the first clear one. */
    method TakeFromWord(i: nat) returns (found: bool, idx: nat)
      requires Shape() && i < bitmap.Length && AtLeast(free, 32 * i)
      modifies bitmap, `free
      ensures Shape()
      ensures found ==> IsLeast(idx, old(free)) && free == old(free) - {idx}
      ensures !found ==> free == old(free) && AtLeast(free, 32 * i + 32)
    {
      for j := 0 to 32
        invariant Shape() && free == old(free) && AtLeast(free, 32 * i + j)
      {
        idx := Or(32 * i, j);
        WordIndex(i, j);
        assert ClearAt(bitmap[..], idx) <==> idx in free;
        if !Bit(bitmap[idx / 32], idx % 32) {
          BmSet(idx);
          return true, idx;
        }
      }
      return false, 0;
    }

    /** The refill loop of kalloc_frame: stops part-way when the bitmap runs out. */
    method Refill() returns (ok: bool)
      requires Invariant() && pool == {}
      modifies bitmap, preFrames, `free, `pool
      ensures Shape() && Partition(free, pool, live, npages)
      ensures ok <==> old(|free|) >= POOL_SIZE
      ensures ok ==> |free| == old(|free|) - POOL_SIZE && free + pool == old(free) && Pooled(preFrames[..], pool)
      ensures ok ==> AllBelow(pool, free)
      ensures !ok ==> free == {}
    {
      for i := 0 to POOL_SIZE
        invariant Shape() && Partition(free, pool, live, npages) && Pooled(preFrames[..i], pool)
        invariant |free| == old(|free|) - i && free + pool == old(free) && AllBelow(pool, free)
      {
        ok := Prefetch(i);
        if !ok { return; }
      }
      assert preFrames[..] == preFrames[..POOL_SIZE];
      return true;
    }

    /** One round of the refill loop. */
    method Prefetch(i: nat) returns (ok: bool)
      requires Shape() && Partition(free, pool, live, npages) && i < POOL_SIZE && Pooled(preFrames[..i], pool)
      requires AllBelow(pool, free)
      modifies bitmap, preFrames, `free, `pool
      ensures Shape() && Partition(free, pool, live, npages)
      ensures ok <==> old(free) != {}
      ensures !ok ==> free == {} && pool == old(pool)
      ensures ok ==> Pooled(preFrames[..i + 1], pool) && |free| == old(|free|) - 1 && free + pool == old(free + pool)
      ensures ok ==> AllBelow(pool, free)
    {
      ghost var prefix := preFrames[..i];
      var f, n := KallocFrameInt();
      preFrames[i] := f;
      ok := f != NULL;
      if ok {
        BelowAppend(pool, old(free), n);
        PooledAppend(prefix, pool, f, n);
        assert preFrames[..i + 1] == prefix + [f];
        pool := pool + {n};
      }
    }

    /** The first half of kalloc_frame: refills the pool when it is used up. */
    method EnsurePool() returns (ok: bool)
      requires Valid()
      modifies this, bitmap, preFrames
      ensures Valid()
      ensures live == old(live)
      ensures ok <==> old(Supply()) > 0
      ensures ok ==> !allocate && pframe < POOL_SIZE && Supply() == old(Supply()) && free + pool == old(free + pool)
      ensures !ok ==> free == {} && pool == {}
      ensures ok ==> if old(pool) != {} then pool == old(pool) && free == old(free) else AllBelow(pool, free)
    {
      Open();
      if pframe == POOL_SIZE {
        allocate := true;
      }
      ok := true;
      if allocate {
        assert preFrames[PoolStart()..] == [];
        ok := FillPool();
      }
      Close();
    }

    /** The refill of a used-up pool: all twenty frames, or none and the frames are lost. */
    method FillPool() returns (ok: bool)
      requires Invariant() && allocate
      modifies this, bitmap, preFrames
      ensures Invariant() && live == old(live)
      ensures ok <==> old(Supply()) > 0
      ensures ok ==> !allocate && pframe < POOL_SIZE && Supply() == old(Supply()) && free + pool == old(free + pool)
      ensures !ok ==> free == {} && pool == {}
      ensures ok ==> AllBelow(pool, free)
    {
      OneRefill(|free|);
      assert pool == {};
      ok := Refill();
      if ok {
        pframe := 0;
        allocate := false;
        assert preFrames[PoolStart()..] == preFrames[..];
      } else {
        pool := {};
        supply := 0;
      }
    }

    /** The second half of kalloc_frame: hands out the next prefetched frame. */
    method TakePooled() returns (frame: nat)
      requires Valid() && !allocate && pframe < POOL_SIZE
      modifies `pframe, `live, `pool, `supply
      ensures Valid() && frame % 0x1000 == 0 && 0 < frame / 0x1000 < npages < WORD32
      ensures IsLeast(frame / 0x1000, old(pool)) && frame / 0x1000 !in free && frame / 0x1000 !in old(live)
      ensures live == old(live) + {frame / 0x1000} && pool == old(pool) - {frame / 0x1000}
      ensures Supply() == old(Supply()) - 1
    {
      Open();
      ghost var rest := preFrames[pframe..];
      FirstIsLeast(rest, pool);
      frame := preFrames[pframe];
      assert frame == rest[0];
      pframe := pframe + 1;
      assert preFrames[pframe..] == rest[1..];
      live := live + {frame / 0x1000};
      pool := pool - {frame / 0x1000};
      supply := supply - 1;
      Close();
    }

    /** Hands out a prefetched frame, refilling the pool first when it is used up. */
    method KallocFrame() returns (frame: nat)
      requires Valid()
      modifies this, bitmap, preFrames
      ensures Valid()
      ensures frame != NULL <==> old(Supply()) > 0
      // A refill that runs out part-way keeps the frames it took: they are lost, not handed out.
      ensures frame == NULL ==> live == old(live) && Managed() == live
      ensures frame != NULL ==>
                frame % 0x1000 == 0 && 0 < frame / 0x1000 < npages < WORD32 && frame / 0x1000 in old(Available())
                && Available() == old(Available()) - {frame / 0x1000}
                && frame / 0x1000 !in old(live) && live == old(live) + {frame / 0x1000}
                && Managed() == old(Managed()) && Supply() == old(Supply()) - 1
      ensures frame != NULL ==> IsLeast(frame / 0x1000, if old(pool) == {} then old(free) else old(pool))
    {
      var ok := EnsurePool();
      if ok {
        ghost var filled, left := pool, free;
        frame := TakePooled();
        if old(pool) == {} { LeastOfAll(frame / 0x1000, filled, left); }
      } else {
        frame := NULL;
      }
    }

    method KfreeFrame(frame: nat)
      requires Valid() && frame / 0x1000 in live
      modifies this, bitmap
      ensures Valid()
      ensures free == old(free) + {frame / 0x1000} && pool == old(pool)
      ensures live == old(live) - {frame / 0x1000} && Managed() == old(Managed())
    {
      Open();
      ReturnFrame(frame / 0x1000);
      Close();
    }

    method ReturnFrame(n: nat)
      requires Shape() && Partition(free, pool, live, npages) && n in live
      modifies bitmap, `free, `live, `supply
      ensures Shape() && Partition(free, pool, live, npages) && supply == |pool| + WholeRefills(|free|)
      ensures free == old(free) + {n} && live == old(live) - {n} && Managed() == old(Managed())
    {
      GiveBack(free, pool, live, npages, n);
      BmClear(n);
      live := live - {n};
      supply := |pool| + WholeRefills(|free|);
    }
  }

  /** Five usable pages with the bitmap in the first and the last one never freed. */
  const SMALL_MAP: seq<MemmapEntry> := [MemmapEntry(0x1000, 0x5000, true)]

  lemma {:induction false} SmallMap()
    ensures BootMap(SMALL_MAP) && MaxUsableEnd(SMALL_MAP) == 0x6000
    ensures forall k: nat :: HoldsBitmap(SMALL_MAP, BitmapBytes(6), k) ==> k == 0
    ensures InitialFree(SMALL_MAP, 6, 0x1000) == {2, 3, 4}
  {
    assert SMALL_MAP[..0] == [];
    assert SMALL_MAP[0].usable && SMALL_MAP[0].length > BitmapBytes(6);
    forall n: nat ensures FreedBySome(SMALL_MAP, n) <==> 1 <= n < 5 {
      assert FreedBy(SMALL_MAP[0], n) <==> 1 <= n < 5;
    }
    assert BitmapFrames(0x1000, BitmapBytes(6)) == {1};
  }

  method SmallAllocator() returns (a: FrameAllocator)
    ensures fresh(a) && fresh(a.bitmap) && fresh(a.preFrames) && a.Valid()
    ensures a.free == {2, 3, 4} && a.pool == a.live == {}
  {
    SmallMap();
    a := new FrameAllocator(SMALL_MAP);
  }

  /** A run that loses frames: three are free, none can be had, and then none is left. */
  method LoseFrames() returns (a: FrameAllocator, frame: nat, ghost before: set<nat>)
    ensures fresh(a) && a.Valid() && frame == NULL
    ensures before == {2, 3, 4} && a.Managed() == {}
  {
    a := SmallAllocator();
    before := a.Managed();
    a.SupplyIs();
    assert |a.free| == 3;
    frame := a.KallocFrame();
  }
}
