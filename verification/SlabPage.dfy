/**
 One page of a small-object cache: buffers of `size` bytes, each followed by a 24-byte
 control block whose first word links the free ones, with the 48-byte slab header at the
 end of the page.
 */
module SlabPage {
  import opened Journal
  import opened ByteCodec
  import Bits

  const PAGE: nat := 4096
  const HEADER: nat := 48
  const CONTROL: nat := 24
  const SMALL_OBJ_SIZE: nat := 512

  /** Bytes from one buffer to the next. */
  function Stride(size: nat): nat { size + CONTROL }

  /** How many buffers a page holds. */
  function BufCnt(size: nat): nat { (PAGE - HEADER) / Stride(size) }

  function Offset(size: nat, b: nat): nat { b * Stride(size) }

  /** Where the link word of buffer b is. */
  function LinkOffset(size: nat, b: nat): nat { Offset(size, b) + size }

  function Address(pstart: nat, size: nat, b: nat): nat { pstart + Offset(size, b) }

  function LoadWord(page: seq<byte>, off: nat): nat
    requires off + 8 <= |page|
  {
    LeValue(page[off..off + 8])
  }

  function StoreWord(page: seq<byte>, off: nat, w: nat): seq<byte> {
    Overwrite(page, off, Le64(w))
  }

  lemma {:induction false} LoadStored(page: seq<byte>, off: nat, w: nat)
    requires off + 8 <= |page| && w < 0x1_0000_0000_0000_0000
    ensures LoadWord(StoreWord(page, off, w), off) == w
  {
    assert StoreWord(page, off, w)[off..off + 8] == Le64(w);
    Le64RoundTrip(w);
  }

  /** Writing a range leaves the words outside it alone. */
  lemma {:induction false} LoadKept(page: seq<byte>, loc: nat, bytes: seq<byte>, off: nat)
    requires off + 8 <= |page| && (off + 8 <= loc || loc + |bytes| <= off)
    ensures LoadWord(Overwrite(page, loc, bytes), off) == LoadWord(page, off)
  {
    assert Overwrite(page, loc, bytes)[off..off + 8] == page[off..off + 8];
  }

  /** Buffers and their control blocks do not overlap and end before the header. */
  lemma {:induction false} Disjoint(size: nat, b: nat, c: nat)
    ensures b < c ==> Offset(size, b) + Stride(size) <= Offset(size, c)
    ensures b < BufCnt(size) ==> Offset(size, b) + Stride(size) <= PAGE - HEADER
    ensures Offset(size, b + 1) == Offset(size, b) + Stride(size)
  {
    var s := Stride(size);
    if b < c {
      assert (b + 1) * s <= c * s by { Bits.MulMonotone(b + 1, c, s); }
    }
    if b < BufCnt(size) {
      assert (b + 1) * s <= BufCnt(size) * s by { Bits.MulMonotone(b + 1, BufCnt(size), s); }
      assert BufCnt(size) * s <= PAGE - HEADER;
    }
  }

  /** The page holds as many buffers with their 24 bytes of control words as fit in front of the 48-byte header. */
  lemma {:induction false} BufCntIsMost(size: nat, n: nat)
    ensures n <= BufCnt(size) <==> n * (size + 24) <= 4096 - 48
  {
    var s := Stride(size);
    assert BufCnt(size) * s <= 4048 < (BufCnt(size) + 1) * s;
    if n <= BufCnt(size) {
      Bits.MulMonotone(n, BufCnt(size), s);
    } else {
      Bits.MulMonotone(BufCnt(size) + 1, n, s);
    }
  }

  /** From freelist, the links lead through exactly the buffers in `free`, in that order. */
  ghost predicate FreeChain(page: seq<byte>, pstart: nat, size: nat, freelist: nat, free: seq<nat>) {
    |page| == PAGE && (free != [] ==> freelist == Address(pstart, size, free[0]))
    && (forall i | 0 <= i < |free| :: free[i] < BufCnt(size))
    && (forall i, j | 0 <= i < j < |free| :: free[i] != free[j])
    && forall i {:trigger LinksOn(page, pstart, size, free, i)} | 0 <= i < |free| - 1 ::
        LinksOn(page, pstart, size, free, i)
  }

  ghost predicate LinksOn(page: seq<byte>, pstart: nat, size: nat, free: seq<nat>, i: nat) {
    i + 1 < |free| && LinkOffset(size, free[i]) + 8 <= |page|
    && LoadWord(page, LinkOffset(size, free[i])) == Address(pstart, size, free[i + 1])
  }

  /** A write inside buffer b and its control block, b not free, keeps the chain. */
  lemma {:induction false} WriteKeepsChain(page: seq<byte>, pstart: nat, size: nat, freelist: nat, free: seq<nat>,
                                           b: nat, loc: nat, bytes: seq<byte>)
    requires FreeChain(page, pstart, size, freelist, free) && b !in free
    requires Offset(size, b) <= loc && loc + |bytes| <= Offset(size, b) + Stride(size)
    ensures FreeChain(Overwrite(page, loc, bytes), pstart, size, freelist, free)
  {
    var page' := Overwrite(page, loc, bytes);
    forall i | 0 <= i < |free| - 1
      ensures LinksOn(page', pstart, size, free, i)
    {
      assert LinksOn(page, pstart, size, free, i);
      Disjoint(size, b, free[i]);
      Disjoint(size, free[i], b);
      LoadKept(page, loc, bytes, LinkOffset(size, free[i]));
    }
  }

  /** kmem_cache_alloc takes the first free buffer. */
  lemma {:induction false} TakeFirst(page: seq<byte>, pstart: nat, size: nat, freelist: nat, free: seq<nat>)
    requires FreeChain(page, pstart, size, freelist, free) && free != []
    ensures LinkOffset(size, free[0]) + 8 <= |page|
    ensures FreeChain(StoreWord(page, LinkOffset(size, free[0]), 0xDEADBEEF), pstart, size,
                      LoadWord(page, LinkOffset(size, free[0])), free[1..])
  {
    Disjoint(size, free[0], free[0] + 1);
    var next := LoadWord(page, LinkOffset(size, free[0]));
    var rest := free[1..];
    if rest != [] {
      assert LinksOn(page, pstart, size, free, 0);
    }
    forall i | 0 <= i < |rest| - 1
      ensures LinksOn(page, pstart, size, rest, i)
    {
      assert LinksOn(page, pstart, size, free, i + 1);
    }
    assert free[0] !in rest;
    WriteKeepsChain(page, pstart, size, next, rest, free[0], LinkOffset(size, free[0]), Le64(0xDEADBEEF));
  }

  /** kmem_cache_free puts a buffer in front. */
  lemma {:induction false} PutFirst(page: seq<byte>, pstart: nat, size: nat, freelist: nat, free: seq<nat>, b: nat)
    requires FreeChain(page, pstart, size, freelist, free) && b < BufCnt(size) && b !in free
    requires freelist < 0x1_0000_0000_0000_0000
    ensures LinkOffset(size, b) + 8 <= |page|
    ensures FreeChain(StoreWord(page, LinkOffset(size, b), freelist), pstart, size, Address(pstart, size, b),
                      [b] + free)
  {
    Disjoint(size, b, b + 1);
    var page' := StoreWord(page, LinkOffset(size, b), freelist);
    WriteKeepsChain(page, pstart, size, freelist, free, b, LinkOffset(size, b), Le64(freelist));
    LoadStored(page, LinkOffset(size, b), freelist);
    var free' := [b] + free;
    forall i | 0 <= i < |free'| - 1
      ensures LinksOn(page', pstart, size, free', i)
    {
      if i > 0 {
        assert LinksOn(page', pstart, size, free, i - 1);
      }
    }
  }

  /** The addresses met by following n links from an address. */
  ghost function Follow(page: seq<byte>, pstart: nat, size: nat, at: nat, n: nat): seq<nat>
    decreases n
  {
    if n == 0 then []
    else if pstart <= at && at - pstart + size + 8 <= |page|
    then [at] + Follow(page, pstart, size, LoadWord(page, at - pstart + size), n - 1)
    else [at]
  }

  /** Following the list for as many links as there are free buffers visits each of them once. */
  lemma {:induction false} FollowVisitsFree(page: seq<byte>, pstart: nat, size: nat, freelist: nat, free: seq<nat>)
    requires FreeChain(page, pstart, size, freelist, free)
    ensures Follow(page, pstart, size, freelist, |free|) ==
              seq(|free|, i requires 0 <= i < |free| => Address(pstart, size, free[i]))
    decreases |free|
  {
    if free != [] {
      Disjoint(size, free[0], free[0] + 1);
      var rest := free[1..];
      var next := LoadWord(page, LinkOffset(size, free[0]));
      if rest != [] {
        assert LinksOn(page, pstart, size, free, 0);
      }
      forall i | 0 <= i < |rest| - 1
        ensures LinksOn(page, pstart, size, rest, i)
      {
        assert LinksOn(page, pstart, size, free, i + 1);
      }
      FollowVisitsFree(page, pstart, size, next, rest);
    }
  }

  /** The page after buffer b has been put in front. */
  function PutPage(page: seq<byte>, size: nat, freelist: nat, b: nat): seq<byte> {
    StoreWord(page, LinkOffset(size, b), freelist)
  }

  /** After a second free of buffer free[j] the links still lead from free[i] to free[j]. */
  lemma {:induction false} FollowToFreed(page: seq<byte>, pstart: nat, size: nat, freelist: nat, free: seq<nat>, i: nat,
                                         j: nat, n: nat)
    requires FreeChain(page, pstart, size, freelist, free) && i <= j < |free| && n > j - i
    ensures var walk := Follow(PutPage(page, size, freelist, free[j]), pstart, size, Address(pstart, size, free[i]), n);
            |walk| > j - i && walk[j - i] == Address(pstart, size, free[j])
    decreases j - i
  {
    LinkAfterFree(page, pstart, size, freelist, free, i, j);
    if i < j {
      FollowToFreed(page, pstart, size, freelist, free, i + 1, j, n - 1);
    }
  }

  /** The links in front of free[j] are not touched when it is put in front once more. */
  lemma {:induction false} LinkAfterFree(page: seq<byte>, pstart: nat, size: nat, freelist: nat, free: seq<nat>, i: nat,
                                         j: nat)
    requires FreeChain(page, pstart, size, freelist, free) && i <= j < |free|
    ensures LinkOffset(size, free[i]) + 8 <= PAGE && |PutPage(page, size, freelist, free[j])| == PAGE
    ensures i < j ==> LoadWord(PutPage(page, size, freelist, free[j]), LinkOffset(size, free[i]))
                      == Address(pstart, size, free[i + 1])
  {
    Disjoint(size, free[i], free[i] + 1);
    if i < j {
      assert LinksOn(page, pstart, size, free, i);
      Disjoint(size, free[i], free[j]);
      Disjoint(size, free[j], free[i]);
      LoadKept(page, LinkOffset(size, free[j]), Le64(freelist), LinkOffset(size, free[i]));
    }
  }

  /**
   kmem_cache_free does not stop when the buffer is already free: it puts it in front once more.
   The list then leads from the buffer back to itself, so it would be handed out twice.
   */
  lemma {:induction false} DoubleFree(page: seq<byte>, pstart: nat, size: nat, freelist: nat, free: seq<nat>, j: nat)
    requires FreeChain(page, pstart, size, freelist, free) && j < |free| && freelist < 0x1_0000_0000_0000_0000
    ensures var b := Address(pstart, size, free[j]);
            var walk := Follow(PutPage(page, size, freelist, free[j]), pstart, size, b, |free| + 1);
            |walk| > j + 1 && walk[0] == b && walk[j + 1] == b
  {
    Disjoint(size, free[j], free[j] + 1);
    LoadStored(page, LinkOffset(size, free[j]), freelist);
    FollowToFreed(page, pstart, size, freelist, free, 0, j, |free|);
  }

  /** No list of free buffers describes the page after that. */
  lemma {:induction false} DoubleFreeBreaksChain(page: seq<byte>, pstart: nat, size: nat, freelist: nat, free: seq<nat>,
                                                 j: nat, free': seq<nat>)
    requires FreeChain(page, pstart, size, freelist, free) && j < |free| && freelist < 0x1_0000_0000_0000_0000
    requires |free'| == |free| + 1
    ensures !FreeChain(PutPage(page, size, freelist, free[j]), pstart, size, Address(pstart, size, free[j]), free')
  {
    DoubleFree(page, pstart, size, freelist, free, j);
    var page' := PutPage(page, size, freelist, free[j]);
    if FreeChain(page', pstart, size, Address(pstart, size, free[j]), free') {
      FollowVisitsFree(page', pstart, size, Address(pstart, size, free[j]), free');
      Disjoint(size, free'[0], free'[j + 1]);
      Disjoint(size, free'[j + 1], free'[0]);
    }
  }

  /** Buffers 0 to n - 1 in order. */
  ghost function InOrder(n: nat): (s: seq<nat>)
    ensures |s| == n && forall i | 0 <= i < n :: s[i] == i
  {
    seq(n, i requires 0 <= i < n => i)
  }

  /** The first k buffers are linked in order. */
  ghost predicate LinkedUpTo(page: seq<byte>, pstart: nat, size: nat, k: nat) {
    |page| == PAGE && k <= BufCnt(size)
    && forall i: nat {:trigger LinkOffset(size, i)} | i < k ::
         LinkOffset(size, i) + 8 <= |page| && LoadWord(page, LinkOffset(size, i)) == Address(pstart, size, i + 1)
  }

  lemma {:induction false} LinkOneMore(page: seq<byte>, pstart: nat, size: nat, k: nat)
    requires LinkedUpTo(page, pstart, size, k) && k < BufCnt(size) && pstart + PAGE < 0x1_0000_0000_0000_0000
    ensures LinkedUpTo(StoreWord(page, LinkOffset(size, k), Address(pstart, size, k + 1)), pstart, size, k + 1)
  {
    Disjoint(size, k, k + 1);
    LoadStored(page, LinkOffset(size, k), Address(pstart, size, k + 1));
    forall i: nat | i < k
      ensures LoadWord(StoreWord(page, LinkOffset(size, k), Address(pstart, size, k + 1)), LinkOffset(size, i))
              == LoadWord(page, LinkOffset(size, i))
    {
      Disjoint(size, i, k);
      LoadKept(page, LinkOffset(size, k), Le64(Address(pstart, size, k + 1)), LinkOffset(size, i));
    }
  }

  /** The NULL stored before the loop's final position touches no link word. */
  lemma {:induction false} TrailingNull(page: seq<byte>, pstart: nat, size: nat, k: nat)
    requires LinkedUpTo(page, pstart, size, k) && k >= 1
    ensures Offset(size, k) >= CONTROL
    ensures LinkedUpTo(StoreWord(page, Offset(size, k) - 8, 0), pstart, size, k)
  {
    Disjoint(size, k - 1, k);
    forall i: nat | i < k
      ensures LoadWord(StoreWord(page, Offset(size, k) - 8, 0), LinkOffset(size, i)) ==
                LoadWord(page, LinkOffset(size, i))
    {
      Disjoint(size, i, k);
      LoadKept(page, Offset(size, k) - 8, Le64(0), LinkOffset(size, i));
    }
  }

  lemma {:induction false} ChainInOrder(page: seq<byte>, pstart: nat, size: nat, k: nat)
    requires LinkedUpTo(page, pstart, size, k) && k + 1 >= BufCnt(size)
    ensures FreeChain(page, pstart, size, pstart, InOrder(BufCnt(size)))
  {
    var free := InOrder(BufCnt(size));
    forall i | 0 <= i < |free| - 1
      ensures LinksOn(page, pstart, size, free, i)
    {
      assert LinkOffset(size, i) + 8 <= |page|;
    }
  }

  lemma {:induction false} ManyBuffers(size: nat)
    requires size <= SMALL_OBJ_SIZE
    ensures BufCnt(size) >= 7
  {
    assert 7 * Stride(size) <= PAGE - HEADER;
    Quotient(PAGE - HEADER, Stride(size), 7);
  }

  lemma {:induction false} Quotient(x: nat, d: nat, q: nat)
    requires d > 0
    ensures q * d <= x <==> q <= x / d
  {
    var q', r := x / d, x % d;
    assert x == q' * d + r;
    Bits.MulMonotone(q, q', d);
    Bits.MulMonotone(q' + 1, q, d);
    assert (q' + 1) * d == q' * d + d;
  }

  /** The records fill the page up to the header. */
  predicate FillsPage(size: nat) { Offset(size, BufCnt(size)) == PAGE - HEADER }

  /** The record whose last control word takes the NULL. */
  function NullRecord(size: nat): nat
    requires size <= SMALL_OBJ_SIZE
  {
    ManyBuffers(size);
    if FillsPage(size) then BufCnt(size) - 2 else BufCnt(size) - 1
  }

  /** How often the layout loop runs. */
  lemma {:induction false} LoopCount(size: nat, k: nat)
    requires size <= SMALL_OBJ_SIZE && Offset(size, k) < PAGE - HEADER <= Offset(size, k) + Stride(size)
    ensures k == NullRecord(size) + 1
    ensures k >= 1 && Offset(size, k) - 8 == LinkOffset(size, NullRecord(size)) + 16
  {
    var n := BufCnt(size);
    LoopBound(size, k);
    LoopBound(size, k - 1);
    Quotient(PAGE - HEADER, Stride(size), k);
    ManyBuffers(size);
    assert k == n || k + 1 == n;
    assert Offset(size, n) <= PAGE - HEADER;
  }

  /** The link word of the last buffer. */
  function LastLink(page: seq<byte>, size: nat): nat
    requires |page| == PAGE && size <= SMALL_OBJ_SIZE
  {
    ManyBuffers(size);
    Disjoint(size, BufCnt(size) - 1, 0);
    LoadWord(page, LinkOffset(size, BufCnt(size) - 1))
  }

  /** The link of the last buffer is stored only if the loop reaches it. */
  lemma {:induction false} LastLinkKept(page: seq<byte>, pstart: nat, size: nat, k: nat)
    requires |page| == PAGE && size <= SMALL_OBJ_SIZE && k + 1 < BufCnt(size)
    ensures LastLink(StoreWord(page, LinkOffset(size, k), Address(pstart, size, k + 1)), size) == LastLink(page, size)
  {
    var last := BufCnt(size) - 1;
    Disjoint(size, k, last);
    Disjoint(size, last, last + 1);
    LoadKept(page, LinkOffset(size, k), Le64(Address(pstart, size, k + 1)), LinkOffset(size, last));
  }

  /** What the layout loop and the NULL leave in the control words of the last buffers. */
  ghost predicate LastWords(page: seq<byte>, contents: seq<byte>, pstart: nat, size: nat)
    requires |page| == |contents| == PAGE && size <= SMALL_OBJ_SIZE
  {
    Disjoint(size, NullRecord(size), 0);
    && LoadWord(page, LinkOffset(size, NullRecord(size)) + 16) == 0
    && LastLink(page, size) == if FillsPage(size) then LastLink(contents, size) else Address(pstart, size, BufCnt(size))
  }

  lemma {:induction false} NullEndsNothing(page: seq<byte>, contents: seq<byte>, pstart: nat, size: nat, k: nat)
    requires size <= SMALL_OBJ_SIZE && |contents| == PAGE && k == NullRecord(size) + 1
    requires LinkedUpTo(page, pstart, size, k) && Offset(size, k) - 8 == LinkOffset(size, k - 1) + 16
    requires k < BufCnt(size) ==> LastLink(page, size) == LastLink(contents, size)
    ensures LastWords(StoreWord(page, Offset(size, k) - 8, 0), contents, pstart, size)
  {
    ManyBuffers(size);
    var last := BufCnt(size) - 1;
    Disjoint(size, k - 1, k);
    Disjoint(size, last, last + 1);
    LoadStored(page, Offset(size, k) - 8, 0);
    TrailingNull(page, pstart, size, k);
    LoadKept(page, Offset(size, k) - 8, Le64(0), LinkOffset(size, last));
  }

  /** The list ends with a NULL only if the records fill the page and its old contents had one there. */
  lemma {:induction false} ListEndsWithNull(page: seq<byte>, contents: seq<byte>, pstart: nat, size: nat)
    requires |page| == |contents| == PAGE && size <= SMALL_OBJ_SIZE && LastWords(page, contents, pstart, size)
    ensures LastLink(page, size) == 0 <==> FillsPage(size) && LastLink(contents, size) == 0
  {
    ManyBuffers(size);
    Disjoint(size, 0, BufCnt(size));
  }

  /** Objects of 64 bytes fill the page, objects of 512 bytes do not. */
  lemma {:induction false} NullRecordExamples()
    ensures FillsPage(64) && BufCnt(64) == 46 && NullRecord(64) == 44
    ensures !FillsPage(512) && BufCnt(512) == 7 && NullRecord(512) == 6
  {
    ManyBuffers(64);
    ManyBuffers(512);
  }

  /** A proof that mentions UnfoldPage(n) may look inside a folded page invariant. */
  predicate UnfoldPage(n: nat) { true }

  ghost predicate Carving(page: seq<byte>, contents: seq<byte>, pstart: nat, size: nat, k: nat, p: nat)
    requires |contents| == PAGE && size <= SMALL_OBJ_SIZE
  {
    forall n: nat | UnfoldPage(n) :: Carved(page, contents, pstart, size, k, p)
  }

  /** The layout loop has passed k records: p is where record k starts. */
  ghost predicate Carved(page: seq<byte>, contents: seq<byte>, pstart: nat, size: nat, k: nat, p: nat)
    requires |contents| == PAGE && size <= SMALL_OBJ_SIZE
  {
    && p == Address(pstart, size, k) && p - pstart < PAGE - HEADER
    && LinkedUpTo(page, pstart, size, k)
    && (k < BufCnt(size) ==> LastLink(page, size) == LastLink(contents, size))
  }

  lemma {:induction false} CarveStart(contents: seq<byte>, pstart: nat, size: nat)
    requires |contents| == PAGE && size <= SMALL_OBJ_SIZE
    ensures Carving(contents, contents, pstart, size, 0, pstart)
  {
  }

  lemma {:induction false} CarveStep(page: seq<byte>, contents: seq<byte>, pstart: nat, size: nat, k: nat, p: nat)
    requires |contents| == PAGE && size <= SMALL_OBJ_SIZE && Carving(page, contents, pstart, size, k, p)
    requires pstart <= p && p - pstart + Stride(size) < PAGE - HEADER && pstart + PAGE < 0x1_0000_0000_0000_0000
    ensures Carving(StoreWord(page, p - pstart + size, p + Stride(size)), contents, pstart, size, k + 1,
                    p + Stride(size))
  {
    assert UnfoldPage(0);
    LoopBound(size, k);
    LinkOneMore(page, pstart, size, k);
    if k + 1 < BufCnt(size) { LastLinkKept(page, pstart, size, k); }
  }

  lemma {:induction false} CarveEnd(page: seq<byte>, contents: seq<byte>, pstart: nat, size: nat, k: nat, p: nat)
    requires |contents| == PAGE && size <= SMALL_OBJ_SIZE && Carving(page, contents, pstart, size, k, p)
    requires p - pstart + Stride(size) >= PAGE - HEADER
    ensures p - pstart >= 8 && |page| == PAGE
    ensures var page' := StoreWord(page, p - 8 - pstart, 0);
            FreeChain(page', pstart, size, pstart, InOrder(BufCnt(size))) && LastWords(page', contents, pstart, size)
  {
    assert UnfoldPage(0);
    LoopBound(size, k);
    LoopCount(size, k);
    TrailingNull(page, pstart, size, k);
    NullEndsNothing(page, contents, pstart, size, k);
    ChainInOrder(StoreWord(page, Offset(size, k) - 8, 0), pstart, size, k);
  }

  /** One round of the layout loop: the record at p is linked to the next. */
  method LinkRecord(page: seq<byte>, ghost contents: seq<byte>, pstart: nat, size: nat, ghost k: nat, p: nat)
    returns (page': seq<byte>)
    requires |contents| == PAGE && size <= SMALL_OBJ_SIZE && Carving(page, contents, pstart, size, k, p)
    requires pstart <= p && p - pstart + Stride(size) < PAGE - HEADER && pstart + PAGE < 0x1_0000_0000_0000_0000
    ensures Carving(page', contents, pstart, size, k + 1, p + Stride(size))
  {
    CarveStep(page, contents, pstart, size, k, p);
    page' := StoreWord(page, p - pstart + size, p + (size + CONTROL));
  }

  /** The layout loop of kmem_cache_grow on a page with any contents: p is where it stops. */
  method LinkRecords(contents: seq<byte>, pstart: nat, size: nat) returns (page: seq<byte>, p: nat, ghost k: nat)
    requires |contents| == PAGE && size <= SMALL_OBJ_SIZE
    requires pstart % 4096 == 0 && pstart + PAGE < 0x1_0000_0000_0000_0000
    ensures Carving(page, contents, pstart, size, k, p) && p - pstart + Stride(size) >= PAGE - HEADER
  {
    page, p, k := contents, pstart, 0;
    var slab := AlignDown8(pstart + PAGE - HEADER);
    HeaderAligned(pstart);
    var stride := size + CONTROL;
    CarveStart(contents, pstart, size);
    while p + stride < slab
      invariant p >= pstart && Carving(page, contents, pstart, size, k, p)
      decreases slab - p
    {
      page := LinkRecord(page, contents, pstart, size, k, p);
      p := p + stride;
      k := k + 1;
    }
  }

  /** The page of a new slab: all its buffers chained in order, whatever it held before. */
  method CarvePage(contents: seq<byte>, pstart: nat, size: nat) returns (page: seq<byte>)
    requires |contents| == PAGE && size <= SMALL_OBJ_SIZE
    requires pstart % 4096 == 0 && pstart + PAGE < 0x1_0000_0000_0000_0000
    ensures FreeChain(page, pstart, size, pstart, InOrder(BufCnt(size)))
    ensures LastWords(page, contents, pstart, size)
  {
    var p;
    ghost var k;
    page, p, k := LinkRecords(contents, pstart, size);
    CarveEnd(page, contents, pstart, size, k, p);
    page := StoreWord(page, p - 8 - pstart, 0);
  }

  function AlignDown8(a: nat): nat { a - a % 8 }

  lemma {:induction false} HeaderAligned(pstart: nat)
    requires pstart % 4096 == 0
    ensures AlignDown8(pstart + PAGE - HEADER) == pstart + PAGE - HEADER
  {
    Bits.QuotientUnique(pstart + PAGE - HEADER, 8, 512 * (pstart / 4096) + 506, 0);
  }

  /** The loop guard in terms of the number of buffers passed. */
  lemma {:induction false} LoopBound(size: nat, k: nat)
    ensures Offset(size, 0) == 0 && Offset(size, k + 1) == Offset(size, k) + Stride(size)
    ensures Offset(size, k) + Stride(size) < PAGE - HEADER ==> k < BufCnt(size)
    ensures Offset(size, k) + Stride(size) >= PAGE - HEADER ==> k + 1 >= BufCnt(size)
  {
    Disjoint(size, k, k + 1);
    Quotient(PAGE - HEADER, Stride(size), k + 1);
    Quotient(PAGE - HEADER, Stride(size), k + 2);
    assert (k + 2) * Stride(size) == Offset(size, k + 1) + Stride(size);
  }
}
