/**
 A small-object cache: a doubly linked list of slabs between two sentinels, the full
 slabs first, with `flPtr` at the first slab that has a free buffer.
 Slab headers live in memory at their address; a pointer is an address, 0 is NULL.
 */
module SlabCaches {
  import opened Cardinality
  import opened Journal
  import opened ByteCodec
  import opened SlabPage
  import opened FrameAllocation
  import Bits

  datatype Header = Header(prev: nat, next: nat, freelist: nat, pstart: nat, refs: nat, bufCnt: nat)
  type Headers = map<nat, Header>

  function SetNext(h: Headers, a: nat, x: nat): Headers
    requires a in h
  {
    h[a := h[a].(next := x)]
  }

  function SetPrev(h: Headers, a: nat, x: nat): Headers
    requires a in h
  {
    h[a := h[a].(prev := x)]
  }

  /** Everything but the links is as before. */
  ghost predicate SameData(h: Headers, h': Headers) {
    h.Keys == h'.Keys && forall a | a in h :: h'[a] == h[a].(prev := h'[a].prev, next := h'[a].next)
  }

  /** Slabs i and i + 1 point at each other. */
  ghost predicate PairAt(h: Headers, slabs: seq<nat>, i: nat) {
    i + 1 < |slabs| && slabs[i] in h && slabs[i + 1] in h
    && h[slabs[i]].next == slabs[i + 1] && h[slabs[i + 1]].prev == slabs[i]
  }

  /** prev and next thread the addresses in `slabs`, in order, and are each other's inverse. */
  ghost predicate Linked(h: Headers, slabs: seq<nat>) {
    |slabs| >= 2 && Distinct(slabs) && slabs[0] in h && slabs[|slabs| - 1] in h
    && h[slabs[0]].prev == NULL && h[slabs[|slabs| - 1]].next == NULL
    && forall i: nat {:trigger PairAt(h, slabs, i)} | i < |slabs| - 1 :: PairAt(h, slabs, i)
  }

  function Inserted(slabs: seq<nat>, k: nat, a: nat): seq<nat>
    requires k <= |slabs|
  {
    slabs[..k] + [a] + slabs[k..]
  }

  function Removed(slabs: seq<nat>, k: nat): seq<nat>
    requires k < |slabs|
  {
    slabs[..k] + slabs[k + 1..]
  }

  /** The four assignments of _insert_slab. */
  function InsertBefore(h: Headers, it: nat, a: nat): Headers
    requires it in h && a in h && h[it].prev in h
  {
    var p := h[it].prev;
    SetNext(SetPrev(SetPrev(SetNext(h, p, a), a, p), it, a), a, it)
  }

  lemma {:induction false} InsertLinks(h: Headers, slabs: seq<nat>, k: nat, a: nat)
    requires Linked(h, slabs) && 0 < k < |slabs| && a in h && a !in slabs
    ensures slabs[k] in h && h[slabs[k]].prev in h
    ensures Linked(InsertBefore(h, slabs[k], a), Inserted(slabs, k, a)) && SameData(h, InsertBefore(h, slabs[k], a))
  {
    assert PairAt(h, slabs, k - 1);
    var p, it := slabs[k - 1], slabs[k];
    var h', slabs' := InsertBefore(h, it, a), Inserted(slabs, k, a);
    assert p != it && h'[p].next == a && h'[a].prev == p && h'[a].next == it && h'[it].prev == a;
    forall i: nat | i < |slabs'| - 1
      ensures PairAt(h', slabs', i)
    {
      if i < k - 1 {
        assert PairAt(h, slabs, i);
        assert slabs[i] != p && slabs[i + 1] != it;
      } else if i > k {
        assert PairAt(h, slabs, i - 1);
        assert slabs[i - 1] != p && slabs[i] != it;
      }
    }
  }

  /** The four assignments of _rm_slab. */
  function Unlink(h: Headers, a: nat): Headers
    requires a in h && h[a].prev in h && h[a].next in h
  {
    SetPrev(SetNext(SetPrev(SetNext(h, h[a].prev, h[a].next), h[a].next, h[a].prev), a, NULL), a, NULL)
  }

  lemma {:induction false} RemoveLinks(h: Headers, slabs: seq<nat>, k: nat)
    requires Linked(h, slabs) && 0 < k < |slabs| - 1
    ensures slabs[k] in h && h[slabs[k]].prev in h && h[slabs[k]].next in h
    ensures Linked(Unlink(h, slabs[k]), Removed(slabs, k)) && SameData(h, Unlink(h, slabs[k]))
  {
    assert PairAt(h, slabs, k - 1) && PairAt(h, slabs, k);
    var p, a, n := slabs[k - 1], slabs[k], slabs[k + 1];
    var h', slabs' := Unlink(h, a), Removed(slabs, k);
    assert p != a && n != a && p != n && h'[p].next == n && h'[n].prev == p;
    forall i: nat | i < |slabs'| - 1
      ensures PairAt(h', slabs', i)
    {
      if i < k - 1 {
        assert PairAt(h, slabs, i);
        assert slabs[i] != p && slabs[i + 1] != a && slabs[i + 1] != n;
      } else if i > k - 1 {
        assert PairAt(h, slabs, i + 1);
        assert slabs[i + 1] != p && slabs[i + 2] != n && slabs[i + 1] != a;
      }
    }
  }

  const TO_HEADER: nat := 4048

  /** The header of the page an address lies in. */
  function SlabOf(x: nat): nat { x - x % 4096 + TO_HEADER }

  /** Buffer b of the slab whose header is at a. */
  function BufAt(a: nat, size: nat, b: nat): nat
    requires a >= TO_HEADER
  {
    Address(a - TO_HEADER, size, b)
  }

  predicate HeaderAddress(a: nat) {
    a >= TO_HEADER && (a - TO_HEADER) % 4096 == 0 && a + 4096 < 0x1_0000_0000_0000_0000
  }

  lemma {:induction false} BufferInPage(a: nat, size: nat, b: nat)
    requires HeaderAddress(a) && b < BufCnt(size)
    ensures SlabOf(BufAt(a, size, b)) == a
  {
    Disjoint(size, b, b + 1);
    InPage(a - TO_HEADER, Offset(size, b));
  }

  lemma {:induction false} InPage(p: nat, off: nat)
    requires p % 4096 == 0 && off < 4096
    ensures p + off - (p + off) % 4096 == p
  {
    Bits.QuotientUnique(p + off, 4096, p / 4096, off);
  }

  /** Different buffers have different addresses. */
  lemma {:induction false} BufferInjective(a: nat, b: nat, a': nat, b': nat, size: nat)
    requires HeaderAddress(a) && HeaderAddress(a') && b < BufCnt(size) && b' < BufCnt(size)
    requires BufAt(a, size, b) == BufAt(a', size, b')
    ensures a == a' && b == b'
  {
    BufferInPage(a, size, b);
    BufferInPage(a', size, b');
    Disjoint(size, b, b');
    Disjoint(size, b', b);
  }

  /** Buffers with their control words do not overlap, on one page or on two. */
  lemma {:induction false} BuffersApart(a: nat, b: nat, c: nat, d: nat, size: nat)
    requires HeaderAddress(a) && HeaderAddress(c) && b < BufCnt(size) && d < BufCnt(size)
    ensures BufAt(a, size, b) < BufAt(c, size, d) ==> BufAt(a, size, b) + Stride(size) <= BufAt(c, size, d)
    ensures BufAt(a, size, b) + Stride(size) <= a
  {
    Disjoint(size, b, d);
    Disjoint(size, d, b);
    PlacesApart(a, Offset(size, b), c, Offset(size, d), Stride(size), b == d);
  }

  lemma {:induction false} PlacesApart(a: nat, x: nat, c: nat, y: nat, stride: nat, same: bool)
    requires HeaderAddress(a) && HeaderAddress(c)
    requires x + stride <= TO_HEADER && y + stride <= TO_HEADER
    requires if same then x == y else x + stride <= y || y + stride <= x
    ensures a - TO_HEADER + x < c - TO_HEADER + y ==> a - TO_HEADER + x + stride <= c - TO_HEADER + y
  {
    var p, q := (a - TO_HEADER) / 4096, (c - TO_HEADER) / 4096;
    assert a == 4096 * p + TO_HEADER && c == 4096 * q + TO_HEADER;
  }

  predicate Full(h: Header) { h.refs == h.bufCnt }

  /** A slab's header agrees with its page: refs buffers are out and the rest are chained. */
  ghost predicate SlabOk(h: Header, a: nat, size: nat, pages: map<nat, seq<byte>>, free: seq<nat>) {
    HeaderAddress(a) && h.pstart == a - TO_HEADER && h.pstart in pages
    && h.bufCnt == BufCnt(size) && |free| + h.refs == h.bufCnt && h.freelist < 0x1_0000_0000_0000_0000
    && FreeChain(pages[h.pstart], h.pstart, size, h.freelist, free)
  }

  ghost predicate SlabsOk(h: Headers, size: nat, pages: map<nat, seq<byte>>, mid: set<nat>, free: map<nat, seq<nat>>) {
    forall a | a in mid :: a in h && a in free && SlabOk(h[a], a, size, pages, free[a])
  }

  /** `live` maps the address of every buffer handed out to its number in its slab. */
  ghost predicate LiveOk(size: nat, mid: set<nat>, free: map<nat, seq<nat>>, live: map<nat, nat>) {
    (forall x | x in live ::
       SlabOf(x) in mid && HeaderAddress(SlabOf(x)) && live[x] < BufCnt(size) && x == BufAt(SlabOf(x), size, live[x]))
    && forall a, b: nat {:trigger InUse(a, size, b, live)} | a in mid && HeaderAddress(a) && a in free
      && b < BufCnt(size) ::
         InUse(a, size, b, live) <==> b !in free[a]
  }

  predicate InUse(a: nat, size: nat, b: nat, live: map<nat, nat>)
    requires a >= TO_HEADER
  {
    BufAt(a, size, b) in live
  }

  /** Full slabs before the cut, slabs with a free buffer from it on. */
  ghost predicate Sorted(h: Headers, slabs: seq<nat>, cut: nat) {
    0 < cut < |slabs|
    && (forall i | 0 < i < cut :: slabs[i] in h && Full(h[slabs[i]]))
    && forall i | cut <= i < |slabs| - 1 :: slabs[i] in h && !Full(h[slabs[i]])
  }

  /** The slabs between the sentinels. */
  ghost function Middle(slabs: seq<nat>): set<nat> {
    set i | 0 < i < |slabs| - 1 :: slabs[i]
  }

  /** Handing out the first free buffer of slab a. */
  lemma {:induction false} TakeLive(size: nat, mid: set<nat>, free: map<nat, seq<nat>>, live: map<nat, nat>, a: nat)
    requires LiveOk(size, mid, free, live) && a in mid && HeaderAddress(a) && a in free && free[a] != []
    requires free[a][0] < BufCnt(size) && Distinct(free[a])
    ensures BufAt(a, size, free[a][0]) !in live
    ensures LiveOk(size, mid, free[a := free[a][1..]], live[BufAt(a, size, free[a][0]) := free[a][0]])
  {
    var b := free[a][0];
    var x := BufAt(a, size, b);
    var free', live' := free[a := free[a][1..]], live[x := b];
    BufferInPage(a, size, b);
    assert InUse(a, size, b, live) <==> b !in free[a];
    forall a', b': nat | a' in mid && HeaderAddress(a') && a' in free' && b' < BufCnt(size)
      ensures InUse(a', size, b', live') <==> b' !in free'[a']
    {
      assert InUse(a', size, b', live) <==> b' !in free[a'];
      if BufAt(a', size, b') == x { BufferInjective(a', b', a, b, size); }
      assert free[a] == [b] + free[a][1..];
    }
  }

  /** Taking a buffer back into slab a. */
  lemma {:induction false} ReturnLive(size: nat, mid: set<nat>, free: map<nat, seq<nat>>, live: map<nat, nat>, x: nat)
    requires LiveOk(size, mid, free, live) && x in live && SlabOf(x) in free
    ensures live[x] !in free[SlabOf(x)]
    ensures LiveOk(size, mid, free[SlabOf(x) := [live[x]] + free[SlabOf(x)]], live - {x})
  {
    var a, b := SlabOf(x), live[x];
    var free', live' := free[a := [b] + free[a]], live - {x};
    assert InUse(a, size, b, live) <==> b !in free[a];
    forall a', b': nat | a' in mid && HeaderAddress(a') && a' in free' && b' < BufCnt(size)
      ensures InUse(a', size, b', live') <==> b' !in free'[a']
    {
      assert InUse(a', size, b', live) <==> b' !in free[a'];
      if BufAt(a', size, b') == x { BufferInjective(a', b', a, b, size); }
    }
  }

  /** Changing a slab's free list and count leaves the links alone. */
  lemma {:induction false} DataKeepsLinks(h: Headers, slabs: seq<nat>, a: nat, freelist: nat, refs: nat)
    requires Linked(h, slabs) && a in h
    ensures Linked(h[a := h[a].(freelist := freelist, refs := refs)], slabs)
  {
    var h' := h[a := h[a].(freelist := freelist, refs := refs)];
    forall i: nat | i < |slabs| - 1
      ensures PairAt(h', slabs, i)
    {
      assert PairAt(h, slabs, i);
    }
  }

  /** The list and its dividing pointer. */
  ghost predicate ListOk(h: Headers, slabs: seq<nat>, cut: nat, head: nat, tail: nat, flPtr: nat) {
    Linked(h, slabs) && slabs[0] == head && slabs[|slabs| - 1] == tail && Sorted(h, slabs, cut) && flPtr == slabs[cut]
  }

  /** _append_slab of a slab with a free buffer. */
  lemma {:induction false} AppendKeepsList(h: Headers, slabs: seq<nat>, cut: nat, head: nat, tail: nat, flPtr: nat,
                                           a: nat)
    requires ListOk(h, slabs, cut, head, tail, flPtr) && a in h && a !in slabs && !Full(h[a])
    ensures tail in h && h[tail].prev in h
    ensures var h' := InsertBefore(h, tail, a);
            ListOk(h', Inserted(slabs, |slabs| - 1, a), cut, head, tail, if flPtr == tail then a else flPtr)
              && SameData(h, h')
    ensures Middle(Inserted(slabs, |slabs| - 1, a)) == Middle(slabs) + {a}
  {
    var n := |slabs| - 1;
    InsertLinks(h, slabs, n, a);
    var slabs' := Inserted(slabs, n, a);
    forall x
      ensures x in Middle(slabs') <==> x in Middle(slabs) || x == a
    {
      if x == a { assert slabs'[n] == a; }
      if x in Middle(slabs) {
        var i :| 0 < i < n && slabs[i] == x;
        assert slabs'[i] == x;
      }
    }
    assert flPtr == tail ==> cut == n;
  }

  /** The slab at flPtr has handed out its last buffer: flPtr moves on. */
  lemma {:induction false} AdvanceKeepsList(h: Headers, slabs: seq<nat>, cut: nat, head: nat, tail: nat, flPtr: nat,
                                            freelist: nat, refs: nat)
    requires ListOk(h, slabs, cut, head, tail, flPtr) && flPtr != tail && flPtr in h && refs <= h[flPtr].bufCnt
    ensures var h' := h[flPtr := h[flPtr].(freelist := freelist, refs := refs)];
            ListOk(h', slabs, if refs == h[flPtr].bufCnt then cut + 1 else cut, head, tail,
                   if refs == h[flPtr].bufCnt then h[flPtr].next else flPtr)
  {
    DataKeepsLinks(h, slabs, flPtr, freelist, refs);
    assert cut < |slabs| - 1;
    assert PairAt(h, slabs, cut);
  }

  lemma {:induction false} MiddleIndex(slabs: seq<nat>, a: nat) returns (j: nat)
    requires a in Middle(slabs)
    ensures 0 < j < |slabs| - 1 && slabs[j] == a
  {
    j :| 0 < j < |slabs| - 1 && slabs[j] == a;
  }

  /** Unlinking the slab at position j. */
  lemma {:induction false} RemovedMiddle(slabs: seq<nat>, j: nat)
    requires Distinct(slabs) && 0 < j < |slabs| - 1
    ensures Middle(Removed(slabs, j)) == Middle(slabs) - {slabs[j]}
    ensures slabs[j] !in Removed(slabs, j)
  {
    var r := Removed(slabs, j);
    forall x
      ensures x in Middle(r) <==> x in Middle(slabs) && x != slabs[j]
    {
      if x in Middle(r) {
        var i :| 0 < i < |r| - 1 && r[i] == x;
        assert slabs[if i < j then i else i + 1] == x;
      }
      if x in Middle(slabs) && x != slabs[j] {
        var i :| 0 < i < |slabs| - 1 && slabs[i] == x;
        assert r[if i < j then i else i - 1] == x;
      }
    }
  }

  /** An empty slab behind flPtr is unlinked. */
  lemma {:induction false} DropKeepsList(h: Headers, slabs: seq<nat>, cut: nat, head: nat, tail: nat, flPtr: nat,
                                         j: nat)
    requires ListOk(h, slabs, cut, head, tail, flPtr) && cut < j < |slabs| - 1
    ensures slabs[j] in h && h[slabs[j]].prev in h && h[slabs[j]].next in h
    ensures ListOk(Unlink(h, slabs[j]), Removed(slabs, j), cut, head, tail, flPtr)
  {
    RemoveLinks(h, slabs, j);
  }

  /** A full slab that has got a buffer back moves to the front of the slabs with free buffers. */
  lemma {:induction false} MoveKeepsList(h: Headers, slabs: seq<nat>, cut: nat, head: nat, tail: nat, flPtr: nat,
                                         j: nat)
    requires Linked(h, slabs) && slabs[0] == head && slabs[|slabs| - 1] == tail
    requires 0 < j < cut < |slabs| && flPtr == slabs[cut] && slabs[j] in h && !Full(h[slabs[j]])
    requires forall i | 0 < i < cut && i != j :: slabs[i] in h && Full(h[slabs[i]])
    requires forall i | cut <= i < |slabs| - 1 :: slabs[i] in h && !Full(h[slabs[i]])
    ensures h[slabs[j]].prev in h && h[slabs[j]].next in h
    ensures var h1 := Unlink(h, slabs[j]);
            flPtr in h1 && h1[flPtr].prev in h1 && slabs[j] in h1
            && var h2 := InsertBefore(h1, flPtr, slabs[j]);
               ListOk(h2, Inserted(Removed(slabs, j), cut - 1, slabs[j]), cut - 1, head, tail, slabs[j])
                 && SameData(h, h2)
  {
    var a := slabs[j];
    RemoveLinks(h, slabs, j);
    var h1, r := Unlink(h, a), Removed(slabs, j);
    RemovedMiddle(slabs, j);
    assert r[cut - 1] == flPtr;
    InsertLinks(h1, r, cut - 1, a);
    var h2, s2 := InsertBefore(h1, flPtr, a), Inserted(r, cut - 1, a);
    forall i | 0 < i < |s2| - 1
      ensures s2[i] in h2 && (Full(h2[s2[i]]) <==> i < cut - 1)
    {
      MovedPlace(slabs, j, cut, i);
    }
  }

  /** What stands at place i after the slab at j has moved to place cut - 1. */
  lemma {:induction false} MovedPlace(slabs: seq<nat>, j: nat, cut: nat, i: nat)
    requires 0 < j < cut < |slabs| && i < |slabs|
    ensures var s := Inserted(Removed(slabs, j), cut - 1, slabs[j]);
            |s| == |slabs|
            && s[i] == slabs[if i < j || i >= cut then i else if i == cut - 1 then j else i + 1]
  {
  }

  lemma {:induction false} MovedMiddle(slabs: seq<nat>, j: nat, k: nat)
    requires Distinct(slabs) && 0 < j < |slabs| - 1 && 0 < k < |slabs| - 1
    ensures Middle(Inserted(Removed(slabs, j), k, slabs[j])) == Middle(slabs)
  {
    var r := Removed(slabs, j);
    var s := Inserted(r, k, slabs[j]);
    RemovedMiddle(slabs, j);
    forall x
      ensures x in Middle(s) <==> x in Middle(r) || x == slabs[j]
    {
      if x == slabs[j] { assert s[k] == x; }
      if x in Middle(r) {
        var i :| 0 < i < |r| - 1 && r[i] == x;
        assert s[if i < k then i else i + 1] == x;
      }
      if x in Middle(s) && x != slabs[j] {
        var i :| 0 < i < |s| - 1 && s[i] == x;
        assert r[if i < k then i else i - 1] == x;
      }
    }
    assert slabs[j] in Middle(slabs);
  }

  /** A proof that mentions UnfoldCache(n) may look inside a folded cache invariant. */
  predicate UnfoldCache(n: nat) { true }

  ghost predicate ListFolded(h: Headers, slabs: seq<nat>, cut: nat, head: nat, tail: nat, flPtr: nat) {
    forall n: nat | UnfoldCache(n) :: ListOk(h, slabs, cut, head, tail, flPtr)
  }

  /** Slabs and live buffers, folded. */
  ghost predicate Buffers(h: Headers, size: nat, pages: map<nat, seq<byte>>, mid: set<nat>, free: map<nat, seq<nat>>,
                          live: map<nat, nat>) {
    forall n: nat | UnfoldCache(n) :: SlabsOk(h, size, pages, mid, free) && LiveOk(size, mid, free, live)
  }

  /** Nothing of the cache is in the page at `frame`: what the frame allocator promises of a new frame. */
  ghost predicate NewPage(frame: nat, slabs: seq<nat>) {
    frame % 4096 == 0 && frame + 2 * PAGE < 0x1_0000_0000_0000_0000 && frame + TO_HEADER !in slabs
  }

  /** The bytes a client has in its buffer. */
  ghost function ClientBytes(pages: map<nat, seq<byte>>, size: nat, x: nat): seq<byte> {
    var page := x - x % 4096;
    if page in pages && x % 4096 + size <= |pages[page]| then pages[page][x % 4096..x % 4096 + size] else []
  }

  /** No buffer in use has changed. */
  ghost predicate SameContents(pages: map<nat, seq<byte>>, pages': map<nat, seq<byte>>, size: nat,
                               live: map<nat, nat>) {
    forall x {:trigger ClientBytes(pages', size, x)} | x in live ::
      ClientBytes(pages', size, x) == ClientBytes(pages, size, x)
  }

  /** The word behind a buffer. */
  ghost function LinkWord(pages: map<nat, seq<byte>>, size: nat, x: nat): int {
    var page := x - x % 4096;
    if page in pages && x % 4096 + size + 8 <= |pages[page]| then LoadWord(pages[page], x % 4096 + size) else -1
  }

  /** That word is w; folded. */
  ghost predicate LinkIs(pages: map<nat, seq<byte>>, size: nat, x: nat, w: nat) {
    forall n: nat | UnfoldCache(n) :: LinkWord(pages, size, x) == w
  }

  lemma {:induction false} LinkWordAt(pages: map<nat, seq<byte>>, size: nat, p: nat, off: nat)
    requires p % 4096 == 0 && off + size + 8 <= 4096 && p in pages && |pages[p]| == 4096
    ensures LinkWord(pages, size, p + off) == LoadWord(pages[p], off + size)
  {
    Bits.QuotientUnique(p + off, 4096, p / 4096, off);
  }

  /** The link of a buffer being taken is poisoned after it has been read. */
  lemma {:induction false} LinkPoisoned(pages: map<nat, seq<byte>>, size: nat, p: nat, x: nat)
    requires p % 4096 == 0 && p <= x && x - p + size + 8 <= 4096 && p in pages && |pages[p]| == 4096
    ensures var page := pages[p];
            && LinkWord(pages, size, x) == LoadWord(page, x - p + size)
            && LinkWord(pages[p := StoreWord(page, x - p + size, 0xDEADBEEF)], size, x) == 0xDEADBEEF
  {
    var pages' := pages[p := StoreWord(pages[p], x - p + size, 0xDEADBEEF)];
    LinkWordAt(pages, size, p, x - p);
    LinkWordAt(pages', size, p, x - p);
    LoadStored(pages[p], x - p + size, 0xDEADBEEF);
  }

  /** Where a live buffer lies in its page. */
  lemma {:induction false} LivePlace(size: nat, mid: set<nat>, free: map<nat, seq<nat>>, live: map<nat, nat>, x: nat)
    requires LiveOk(size, mid, free, live) && x in live
    ensures SlabOf(x) in mid && SlabOf(x) == x - x % 4096 + TO_HEADER
    ensures live[x] < BufCnt(size) && x % 4096 == Offset(size, live[x])
  {
  }

  /** A store into the record of one buffer, outside the bytes [lo, hi) of its page. */
  lemma {:induction false} StoreKeepsBytes(page: seq<byte>, loc: nat, bytes: seq<byte>, lo: nat, hi: nat)
    requires lo <= hi <= |page| && (loc + |bytes| <= lo || hi <= loc)
    ensures Overwrite(page, loc, bytes)[lo..hi] == page[lo..hi]
  {
  }

  lemma {:induction false} BuffersLive(h: Headers, size: nat, pages: map<nat, seq<byte>>, mid: set<nat>,
                                       free: map<nat, seq<nat>>, live: map<nat, nat>)
    requires Buffers(h, size, pages, mid, free, live)
    ensures LiveOk(size, mid, free, live)
  {
    assert UnfoldCache(0);
  }

  /** Storing a control word changes no client's bytes. */
  lemma {:induction false} LinkStoreKeepsContents(h: Headers, size: nat, pages: map<nat, seq<byte>>,
                                                  pages': map<nat, seq<byte>>, mid: set<nat>, free: map<nat, seq<nat>>,
                                                  live: map<nat, nat>, p: nat, b: nat, w: nat)
    requires Buffers(h, size, pages, mid, free, live) && p in pages && |pages[p]| == PAGE && b < BufCnt(size)
    requires pages' == pages[p := StoreWord(pages[p], LinkOffset(size, b), w)]
    ensures SameContents(pages, pages', size, live)
  {
    BuffersLive(h, size, pages, mid, free, live);
    forall x | x in live
      ensures ClientBytes(pages', size, x) == ClientBytes(pages, size, x)
    {
      LivePlace(size, mid, free, live, x);
      Disjoint(size, b, live[x]);
      Disjoint(size, live[x], b);
      StoreKeepsBytes(pages[p], LinkOffset(size, b), Le64(w), Offset(size, live[x]), Offset(size, live[x]) + size);
    }
  }

  /** Changing a page of no slab, or dropping it, changes no client's bytes. */
  lemma {:induction false} ForeignPageKeepsContents(h: Headers, size: nat, pages: map<nat, seq<byte>>,
                                                    pages': map<nat, seq<byte>>, mid: set<nat>,
                                                    free: map<nat, seq<nat>>, live: map<nat, nat>, p: nat)
    requires Buffers(h, size, pages, mid, free, live) || Buffers(h, size, pages', mid, free, live)
    requires p + TO_HEADER !in mid && pages - {p} == pages' - {p}
    ensures SameContents(pages, pages', size, live)
  {
    assert UnfoldCache(0);
    forall x | x in live
      ensures ClientBytes(pages', size, x) == ClientBytes(pages, size, x)
    {
      LivePlace(size, mid, free, live, x);
      var page := x - x % 4096;
      assert page != p;
      assert page in pages <==> page in pages - {p};
      assert page in pages' <==> page in pages' - {p};
      assert page in pages ==> pages[page] == (pages - {p})[page];
      assert page in pages' ==> pages'[page] == (pages' - {p})[page];
    }
  }

  // ---- Frames ----

  /** The direct map starts on a page boundary and ends inside the address space. */
  predicate DirectMap(offset: nat) { offset % 4096 == 0 && offset + 0x2000_0000_0000 < 0x1_0000_0000_0000_0000 }

  /** A sentinel is not where the direct map has a slab header. */
  predicate Apart(a: nat, offset: nat) { a < offset || (a - offset) % 4096 != TO_HEADER }

  /** The number of the frame behind an address of the direct map. */
  function FrameOf(x: nat, offset: nat): nat { if x >= offset then (x - offset) / 4096 else 0 }

  /** Every slab's page is a frame that has been handed out; folded. */
  ghost predicate AllOwned(mid: set<nat>, offset: nat, live: set<nat>) {
    forall n: nat | UnfoldFrames(n) :: forall a | a in mid :: Owned(a, offset, live)
  }

  predicate UnfoldFrames(n: nat) { true }

  predicate Owned(a: nat, offset: nat, live: set<nat>) {
    a >= offset && a == offset + FrameOf(a, offset) * 4096 + TO_HEADER && FrameOf(a, offset) in live
  }

  /** A frame that was not handed out before is a new page of the cache. */
  lemma {:induction false} FreshPage(slabs: seq<nat>, head: nat, tail: nat, offset: nat, live: set<nat>, frame: nat)
    requires DirectMap(offset) && Apart(head, offset) && Apart(tail, offset) && AllOwned(Middle(slabs), offset, live)
    requires |slabs| >= 2 && slabs[0] == head && slabs[|slabs| - 1] == tail
    requires frame % 4096 == 0 && frame / 4096 !in live && frame / 4096 < 0x1_0000_0000
    ensures NewPage(frame + offset, slabs)
  {
    assert UnfoldFrames(0);
    var a := frame + offset + TO_HEADER;
    assert FrameOf(a, offset) == frame / 4096;
    assert !Apart(a, offset);
    assert forall i | 0 < i < |slabs| - 1 :: slabs[i] in Middle(slabs);
  }

  lemma {:induction false} OneMoreOwned(mid: set<nat>, offset: nat, live: set<nat>, live': set<nat>, frame: nat)
    requires AllOwned(mid, offset, live) && frame % 4096 == 0 && live' == live + {frame / 4096}
    ensures AllOwned(mid + {frame + offset + TO_HEADER}, offset, live')
  {
    assert UnfoldFrames(0);
    assert FrameOf(frame + offset + TO_HEADER, offset) == frame / 4096;
  }

  lemma {:induction false} OneFewerOwned(mid: set<nat>, offset: nat, live: set<nat>, a: nat)
    requires AllOwned(mid, offset, live) && a in mid
    ensures AllOwned(mid - {a}, offset, live - {FrameOf(a, offset)})
  {
    assert UnfoldFrames(0);
  }

  /** The frame of a buffer's page is its slab's. */
  lemma {:induction false} OwnedFrame(mid: set<nat>, offset: nat, live: set<nat>, a: nat, x: nat)
    requires AllOwned(mid, offset, live) && DirectMap(offset) && a in mid && a == x - x % 4096 + TO_HEADER
    ensures x - x % 4096 >= offset && (x - x % 4096 - offset) / 4096 == FrameOf(a, offset) == FrameOf(x, offset)
    ensures FrameOf(x, offset) in live
  {
    assert UnfoldFrames(0);
    assert a - TO_HEADER == offset + FrameOf(a, offset) * 4096;
  }

  class Cache {
    const size: nat
    const head: nat
    const tail: nat
    /** Where new pages come from, and the virtual address of physical address 0. */
    const pfa: FrameAllocator
    const offset: nat
    var headers: Headers
    var pages: map<nat, seq<byte>>
    var flPtr: nat
    ghost var slabs: seq<nat>
    ghost var cut: nat
    ghost var free: map<nat, seq<nat>>
    ghost var live: map<nat, nat>

    /** The cache, and the frames of its pages, which the allocator has handed out. */
    ghost predicate Valid()
      reads this, pfa, pfa.bitmap, pfa.preFrames
    {
      Intact() && FramesOwned()
    }

    ghost predicate FramesOwned()
      reads this, pfa, pfa.bitmap, pfa.preFrames
    {
      pfa.Valid() && DirectMap(offset) && Apart(head, offset) && Apart(tail, offset)
        && AllOwned(Middle(slabs), offset, pfa.live)
    }

    ghost predicate Intact()
      reads this
    {
      size <= SMALL_OBJ_SIZE && ListFolded(headers, slabs, cut, head, tail, flPtr)
      && Buffers(headers, size, pages, Middle(slabs), free, live)
    }

    /** The sentinels as kmem_cache_create and slab_alloc_init link them. */
    constructor (size: nat, head: nat, tail: nat, pfa: FrameAllocator, offset: nat)
      requires size <= SMALL_OBJ_SIZE && head != tail
      requires pfa.Valid() && DirectMap(offset) && Apart(head, offset) && Apart(tail, offset)
      ensures this.size == size && this.head == head && this.tail == tail && this.pfa == pfa && this.offset == offset
      ensures Valid() && slabs == [head, tail] && live == map[] && flPtr == tail
    {
      this.size, this.head, this.tail, this.pfa, this.offset := size, head, tail, pfa, offset;
      headers := map[head := Header(NULL, tail, NULL, 0, 0, 0), tail := Header(head, NULL, NULL, 0, 0, 0)];
      pages := map[];
      flPtr := tail;
      slabs, cut, free, live := [head, tail], 1, map[], map[];
      new;
      assert PairAt(headers, slabs, 0);
      assert Middle(slabs) == {};
    }

    /** _insert_slab. */
    method InsertSlab(it: nat, slab: nat)
      requires it in headers && slab in headers && headers[it].prev in headers
      modifies `headers
      ensures headers == InsertBefore(old(headers), it, slab)
    {
      var p := headers[it].prev;
      headers := SetNext(headers, p, slab);
      headers := SetPrev(headers, slab, p);
      headers := SetPrev(headers, it, slab);
      headers := SetNext(headers, slab, it);
    }

    /** _rm_slab. */
    method RmSlab(slab: nat)
      requires slab in headers && headers[slab].prev in headers && headers[slab].next in headers
      requires slab != headers[slab].prev && slab != headers[slab].next
      modifies `headers
      ensures headers == Unlink(old(headers), slab)
    {
      headers := SetNext(headers, headers[slab].prev, headers[slab].next);
      headers := SetPrev(headers, headers[slab].next, headers[slab].prev);
      headers := SetNext(headers, slab, NULL);
      headers := SetPrev(headers, slab, NULL);
    }

    /** kmem_cache_grow, small objects: a new frame becomes a slab. */
    method Grow(contents: seq<byte>) returns (a: nat)
      requires Valid() && |contents| == PAGE && pfa.Supply() > 0
      modifies `headers, `pages, `flPtr, `slabs, `free, pfa, pfa.bitmap, pfa.preFrames
      ensures Valid() && SameContents(old(pages), pages, size, live)
      ensures a !in old(slabs) && Middle(slabs) == old(Middle(slabs)) + {a}
      ensures flPtr == if old(flPtr) == tail then a else old(flPtr)
      ensures pfa.Supply() == old(pfa.Supply()) - 1
    {
      var page := NewFrame();
      a := page + TO_HEADER;
      AddSlab(page, contents);
    }

    /** phys_to_virt(kalloc_frame()): a page that is none of the cache's. */
    method NewFrame() returns (page: nat)
      requires Valid() && pfa.Supply() > 0
      modifies pfa, pfa.bitmap, pfa.preFrames
      ensures NewPage(page, slabs) && pfa.Valid() && pfa.Supply() == old(pfa.Supply()) - 1
      ensures AllOwned(Middle(slabs) + {page + TO_HEADER}, offset, pfa.live)
    {
      ghost var live0 := pfa.live;
      TailLinked(headers, slabs, cut, head, tail, flPtr);
      var frame := pfa.KallocFrame();
      FreshPage(slabs, head, tail, offset, live0, frame);
      OneMoreOwned(Middle(slabs), offset, live0, pfa.live, frame);
      page := frame + offset;
    }

    /** The layout of a new slab, and its place in the list. */
    method AddSlab(frame: nat, contents: seq<byte>)
      requires Intact() && NewPage(frame, slabs) && |contents| == PAGE
      modifies `headers, `pages, `flPtr, `slabs, `free
      ensures Intact() && (old(flPtr) == tail ==> flPtr == frame + TO_HEADER)
      ensures old(flPtr) != tail ==> flPtr == old(flPtr)
      ensures Middle(slabs) == old(Middle(slabs)) + {frame + TO_HEADER}
      ensures SameContents(old(pages), pages, size, live)
    {
      var page := CarvePage(contents, frame, size);
      var a := AlignDown8(frame + PAGE - HEADER);
      HeaderAligned(frame);
      ghost var h0, pages0, slabs0, free0, flPtr0 := headers, pages, slabs, free, flPtr;
      TailLinked(headers, slabs, cut, head, tail, flPtr);
      headers := headers[a := Header(NULL, NULL, frame, frame, 0, BufCnt(size))];
      pages := pages[frame := page];
      AppendSlab(a);
      slabs := Inserted(slabs, |slabs| - 1, a);
      free := free[a := InOrder(BufCnt(size))];
      GrowStep(h0, headers, size, pages0, pages, slabs0, slabs, cut, free0, free, live, head, tail, flPtr0, flPtr,
               frame, a, page);
      ForeignPageKeepsContents(h0, size, pages0, pages, Middle(slabs0), free0, live, frame);
    }

    /**
     kmem_cache_alloc: the first free buffer of the slab at flPtr, from a new slab when there is none.
     The second test for a full slab never succeeds.
     */
    method Alloc(contents: seq<byte>) returns (buf: nat)
      requires Valid() && |contents| == PAGE && (flPtr == tail ==> pfa.Supply() > 0)
      modifies this, pfa, pfa.bitmap, pfa.preFrames
      ensures Valid() && buf !in old(live) && live.Keys == old(live.Keys) + {buf}
      ensures SameContents(old(pages), pages, size, old(live)) && LinkIs(pages, size, buf, 0xDEADBEEF)
      ensures old(flPtr) != tail ==> old(flPtr) in old(headers) && buf == old(headers)[old(flPtr)].freelist
      ensures old(flPtr) != tail ==>
                slabs == old(slabs) && SlabOf(buf) == old(flPtr) && pfa.Supply() == old(pfa.Supply())
      ensures old(flPtr) == tail ==>
                && SlabOf(buf) !in old(slabs) && Middle(slabs) == old(Middle(slabs)) + {SlabOf(buf)}
                && pfa.Supply() == old(pfa.Supply()) - 1
    {
      FirstFree(headers, size, pages, slabs, cut, free, live, head, tail, flPtr);
      TailLinked(headers, slabs, cut, head, tail, flPtr);
      if flPtr == NULL || flPtr == tail {
        var a := Grow(contents);
        FirstFree(headers, size, pages, slabs, cut, free, live, head, tail, flPtr);
      }
      assert !Full(headers[flPtr]);
      buf := Take();
    }

    method Take() returns (buf: nat)
      requires Intact() && flPtr != tail
      modifies this
      ensures Intact() && buf !in old(live) && live.Keys == old(live.Keys) + {buf}
      ensures SameContents(old(pages), pages, size, old(live)) && LinkIs(pages, size, buf, 0xDEADBEEF)
      ensures slabs == old(slabs) && SlabOf(buf) == old(flPtr)
      ensures old(flPtr) in old(headers) && buf == old(headers)[old(flPtr)].freelist
    {
      ghost var h0, flPtr0, cut0 := headers, flPtr, cut;
      buf := PopFree();
      if headers[flPtr].refs >= headers[flPtr].bufCnt {
        flPtr := headers[flPtr].next;
        cut := cut + 1;
      }
      TakeListStep(h0, headers, slabs, cut0, cut, head, tail, flPtr0, flPtr);
    }

    /** The buffer kmem_cache_alloc returns when it does not grow the cache. */
    method Chosen() returns (res: nat)
      requires flPtr in headers
      ensures res == headers[flPtr].freelist
    {
      res := headers[flPtr].freelist;
    }

    /** The stores of kmem_cache_alloc. */
    method Unchain(ghost off: nat) returns (buf: nat)
      requires flPtr in headers && headers[flPtr].pstart in pages && headers[flPtr].pstart <= headers[flPtr].freelist
      requires off == headers[flPtr].freelist - headers[flPtr].pstart + size
      requires off + 8 <= |pages[headers[flPtr].pstart]|
      modifies `headers, `pages
      ensures var h := old(headers)[flPtr];
              var page := old(pages)[h.pstart];
              && buf == h.freelist && pages == old(pages)[h.pstart := StoreWord(page, off, 0xDEADBEEF)]
              && headers == old(headers)[flPtr := h.(freelist := LoadWord(page, off), refs := h.refs + 1)]
    {
      var h := headers[flPtr];
      buf := Chosen();
      var link := buf - h.pstart + size;
      var next := LoadWord(pages[h.pstart], link);
      pages := pages[h.pstart := StoreWord(pages[h.pstart], link, 0xDEADBEEF)];
      headers := headers[flPtr := h.(freelist := next, refs := h.refs + 1)];
    }

    /** The first buffer of the free list of the slab at flPtr, its link poisoned. */
    method PopFree() returns (buf: nat)
      requires Intact() && flPtr != tail
      modifies `headers, `pages, `live, `free
      ensures Buffers(headers, size, pages, Middle(slabs), free, live)
      ensures buf !in old(live) && live.Keys == old(live.Keys) + {buf}
      ensures SameContents(old(pages), pages, size, old(live)) && SlabOf(buf) == flPtr
      ensures flPtr in old(headers) && flPtr in headers && old(headers)[flPtr].refs < old(headers)[flPtr].bufCnt
      ensures var h := old(headers)[flPtr];
              && headers == old(headers)[flPtr := h.(freelist := headers[flPtr].freelist, refs := h.refs + 1)]
              && buf == h.freelist && LinkIs(old(pages), size, buf, headers[flPtr].freelist)
      ensures LinkIs(pages, size, buf, 0xDEADBEEF)
    {
      FreeHead(headers, size, pages, slabs, cut, free, live, head, tail, flPtr);
      ghost var h0, pages0, free0, live0 := headers, pages, free, live;
      buf := Unchain(LinkOffset(size, free[flPtr][0]));
      live := live[buf := free[flPtr][0]];
      free := free[flPtr := free[flPtr][1..]];
      PopStep(h0, headers, size, pages0, pages, slabs, cut, free0, free, live0, live, head, tail, flPtr);
    }

    /**
     kmem_cache_free, small objects. The slab is found from the page of the buffer. An emptied slab
     is unlinked and its frame given back; if flPtr was at that slab it is left pointing there.
     */
    method Free(buf: nat)
      requires Valid() && buf in live
      modifies this, pfa, pfa.bitmap
      ensures live == old(live) - {buf} && SameContents(old(pages), pages, size, live)
      ensures Middle(slabs)
           == old(Middle(slabs)) - if Outstanding(old(headers), SlabOf(buf)) == 1 then {SlabOf(buf)} else {}
      ensures Outstanding(old(headers), SlabOf(buf)) != 1 ==> pfa.live == old(pfa.live) && pfa.free == old(pfa.free)
      ensures Outstanding(old(headers), SlabOf(buf)) == 1 ==>
                pfa.live == old(pfa.live) - {FrameOf(buf, offset)} && pfa.free == old(pfa.free) + {FrameOf(buf, offset)}
      ensures Valid() <==> !(old(flPtr) == SlabOf(buf) && Outstanding(old(headers), SlabOf(buf)) == 1)
      ensures !Valid() ==>
                && flPtr == SlabOf(buf) && flPtr !in slabs
                && Linked(headers, slabs) && slabs[0] == head && FramesOwned()
                && flPtr in headers && headers[flPtr].freelist == buf && !Full(headers[flPtr])
    {
      ghost var h0 := headers;
      var page := buf - buf % 4096;
      var slab := page + PAGE - HEADER;
      PutBack(buf, page, slab);
      OwnedFrame(Middle(slabs), offset, pfa.live, slab, buf);
      var refs := headers[slab].refs;
      if refs == 0 {
        ReleaseSlab(slab, page, h0);
      } else if refs == headers[slab].bufCnt - 1 {
        MoveSlab(slab, h0);
      } else {
        CountChanged(h0, headers, slabs, cut, head, tail, flPtr, slab);
      }
    }

    /** An emptied slab leaves the list and its frame goes back to the frame allocator. */
    method ReleaseSlab(slab: nat, page: nat, ghost h0: Headers)
      requires size <= SMALL_OBJ_SIZE && ListFolded(h0, slabs, cut, head, tail, flPtr) && FramesOwned()
      requires Buffers(headers, size, pages, Middle(slabs), free, live)
      requires slab in h0 && slab in Middle(slabs) && slab in headers && page == headers[slab].pstart
      requires headers == h0[slab := h0[slab].(freelist := headers[slab].freelist, refs := 0)] && h0[slab].refs == 1
      requires page >= offset && (page - offset) / 4096 == FrameOf(slab, offset) && FrameOf(slab, offset) in pfa.live
      modifies `headers, `pages, `slabs, pfa, pfa.bitmap
      ensures SameContents(old(pages), pages, size, live) && Middle(slabs) == old(Middle(slabs)) - {slab}
      ensures slab in headers && headers[slab] == old(headers)[slab].(prev := NULL, next := NULL)
      ensures FramesOwned()
      ensures pfa.live == old(pfa.live) - {FrameOf(slab, offset)} && pfa.free == old(pfa.free) + {FrameOf(slab, offset)}
      ensures flPtr != slab ==> Intact()
      ensures flPtr == slab ==> flPtr !in slabs && Linked(headers, slabs) && slabs[0] == head && !Intact()
    {
      OneFewerOwned(Middle(slabs), offset, pfa.live, slab);
      DropSlab(slab, page, h0);
      pfa.KfreeFrame(page - offset);
    }

    /** The first half of kmem_cache_free: the buffer becomes the head of its slab's free list. */
    method PutBack(buf: nat, page: nat, slab: nat)
      requires Intact() && buf in live && page == buf - buf % 4096 && slab == page + PAGE - HEADER
      modifies `headers, `pages, `free, `live
      ensures live == old(live) - {buf} && SameContents(old(pages), pages, size, live)
      ensures Buffers(headers, size, pages, Middle(slabs), free, live)
      ensures slab == SlabOf(buf) && slab in Middle(slabs) && slab in old(headers) && slab in headers
      ensures var h := old(headers)[slab];
              1 <= h.refs <= h.bufCnt && h.bufCnt >= 7 && h.pstart == page
              && headers == old(headers)[slab := h.(freelist := buf, refs := h.refs - 1)]
    {
      FreeFacts(headers, size, pages, slabs, cut, free, live, head, tail, flPtr, buf);
      ghost var h0, pages0, free0, live0 := headers, pages, free, live;
      var h := headers[slab];
      pages := pages[page := StoreWord(pages[page], buf + size - page, h.freelist)];
      headers := headers[slab := h.(freelist := buf, refs := h.refs - 1)];
      free := free[slab := [live[buf]] + free[slab]];
      live := live - {buf};
      ReturnStep(h0, headers, size, pages0, pages, slabs, free0, free, live0, live, buf);
      LinkStoreKeepsContents(h0, size, pages0, pages, Middle(slabs), free0, live0, page, live0[buf], h.freelist);
    }

    /** A client writes inside a buffer it holds: no control word is touched. */
    method ClientWrite(buf: nat, at: nat, bytes: seq<byte>)
      requires Intact() && buf in live && at + |bytes| <= size
      modifies `pages
      ensures Intact() && SameContents(old(pages), pages, size, live - {buf})
      ensures ClientBytes(pages, size, buf) == Overwrite(ClientBytes(old(pages), size, buf), at, bytes)
    {
      FreeFacts(headers, size, pages, slabs, cut, free, live, head, tail, flPtr, buf);
      ghost var pages0 := pages;
      var page := buf - buf % 4096;
      pages := pages[page := Overwrite(pages[page], buf - page + at, bytes)];
      ClientStep(headers, size, pages0, pages, Middle(slabs), free, live, buf, at, bytes);
      ClientStoreContents(headers, size, pages0, pages, Middle(slabs), free, live, buf, at, bytes);
    }

    /** Following a slab's free list for buf_cnt - refs links visits its free buffers once each and no live one. */
    lemma {:induction false} FreeListWalk(a: nat)
      requires Intact() && a in Middle(slabs)
      ensures a in headers && headers[a].pstart in pages && headers[a].refs <= headers[a].bufCnt
      ensures var h := headers[a];
              var walk := Follow(pages[h.pstart], h.pstart, size, h.freelist, h.bufCnt - h.refs);
              |walk| == h.bufCnt - h.refs && Distinct(walk)
              && forall b: nat | b < BufCnt(size) :: Address(h.pstart, size, b) in walk <==>
                  Address(h.pstart, size, b) !in live
    {
      assert UnfoldCache(0);
      WalkIsFree(headers[a], a, size, pages, Middle(slabs), free, live);
    }

    /** Two buffers handed out at the same time share no byte, and none reaches its slab's header. */
    lemma {:induction false} LiveBuffersApart(x: nat, y: nat)
      requires Intact() && x in live && y in live && x < y
      ensures x + size + CONTROL <= y && y + size + CONTROL <= SlabOf(y)
    {
      assert UnfoldCache(0);
      BuffersApart(SlabOf(x), live[x], SlabOf(y), live[y], size);
      BuffersApart(SlabOf(y), live[y], SlabOf(y), live[y], size);
    }

    /** An emptied slab leaves the list and its page goes back to the frame allocator. */
    method DropSlab(slab: nat, page: nat, ghost h0: Headers)
      requires size <= SMALL_OBJ_SIZE && ListFolded(h0, slabs, cut, head, tail, flPtr)
      requires Buffers(headers, size, pages, Middle(slabs), free, live)
      requires slab in h0 && slab in Middle(slabs) && slab in headers && page == headers[slab].pstart
      requires headers == h0[slab := h0[slab].(freelist := headers[slab].freelist, refs := 0)] && h0[slab].refs == 1
      modifies `headers, `pages, `slabs
      ensures SameContents(old(pages), pages, size, live) && Middle(slabs) == old(Middle(slabs)) - {slab}
      ensures slab in headers && headers[slab] == old(headers)[slab].(prev := NULL, next := NULL)
      ensures flPtr != slab ==> Intact()
      ensures flPtr == slab ==> flPtr !in slabs && Linked(headers, slabs) && slabs[0] == head && !Intact()
    {
      ghost var h1, pages1, slabs1 := headers, pages, slabs;
      ghost var j := MiddleIndex(slabs, slab);
      Neighbours(h0, h1, slabs, cut, head, tail, flPtr, j);
      RmSlab(slab);
      pages := pages - {page};
      slabs := Removed(slabs, j);
      DropStep(h0, h1, headers, size, pages1, pages, slabs1, slabs, cut, free, live, head, tail, flPtr, j);
      ForeignPageKeepsContents(headers, size, pages1, pages, Middle(slabs), free, live, page);
    }

    method Relink(slab: nat)
      requires slab in headers && headers[slab].prev in headers && headers[slab].next in headers
      requires slab != headers[slab].prev && slab != headers[slab].next
      requires var h := Unlink(headers, slab); flPtr in h && h[flPtr].prev in h
      modifies `headers
      ensures headers == InsertBefore(Unlink(old(headers), slab), flPtr, slab)
    {
      RmSlab(slab);
      InsertSlab(flPtr, slab);
    }

    /** A slab that was full goes in front of the slabs with free buffers. */
    method MoveSlab(slab: nat, ghost h0: Headers)
      requires size <= SMALL_OBJ_SIZE && ListFolded(h0, slabs, cut, head, tail, flPtr)
      requires Buffers(headers, size, pages, Middle(slabs), free, live)
      requires slab in h0 && slab in Middle(slabs) && slab in headers && Full(h0[slab]) && !Full(headers[slab])
      requires headers == h0[slab := h0[slab].(freelist := headers[slab].freelist, refs := headers[slab].refs)]
      modifies `headers, `flPtr, `slabs, `cut
      ensures Intact() && Middle(slabs) == old(Middle(slabs))
    {
      ghost var j := MiddleIndex(slabs, slab);
      Neighbours(h0, headers, slabs, cut, head, tail, flPtr, j);
      MoveStep(h0, headers, size, pages, slabs, cut, free, live, head, tail, flPtr, j);
      Relink(slab);
      flPtr := slab;
      slabs := Inserted(Removed(slabs, j), cut - 1, slab);
      cut := cut - 1;
    }

    /** _append_slab. */
    method AppendSlab(slab: nat)
      requires tail in headers && slab in headers && headers[tail].prev in headers
      modifies `headers, `flPtr
      ensures headers == InsertBefore(old(headers), tail, slab)
      ensures flPtr == if old(flPtr) == tail then slab else old(flPtr)
    {
      InsertSlab(tail, slab);
      if flPtr == tail {
        flPtr := slab;
      }
    }
  }

  /** The slab at flPtr, if it is one, has a free buffer at the head of its list. */
  lemma {:induction false} FirstFree(h: Headers, size: nat, pages: map<nat, seq<byte>>, slabs: seq<nat>, cut: nat,
                                     free: map<nat, seq<nat>>, live: map<nat, nat>, head: nat, tail: nat, flPtr: nat)
    requires ListFolded(h, slabs, cut, head, tail, flPtr) && Buffers(h, size, pages, Middle(slabs), free, live)
    ensures flPtr != tail ==>
              flPtr != NULL && flPtr in Middle(slabs) && flPtr in h && flPtr in free && !Full(h[flPtr])
              && SlabOk(h[flPtr], flPtr, size, pages, free[flPtr]) && free[flPtr] != []
              && h[flPtr].freelist == BufAt(flPtr, size, free[flPtr][0])
              && h[flPtr].freelist - h[flPtr].pstart + size == LinkOffset(size, free[flPtr][0])
              && LinkOffset(size, free[flPtr][0]) + 8 <= PAGE
  {
    assert UnfoldCache(0);
    if flPtr != tail {
      assert slabs[cut] in Middle(slabs);
      Disjoint(size, free[flPtr][0], free[flPtr][0] + 1);
    }
  }

  /** Where that buffer and its link are. */
  lemma {:induction false} FreeHead(h: Headers, size: nat, pages: map<nat, seq<byte>>, slabs: seq<nat>, cut: nat,
                                    free: map<nat, seq<nat>>, live: map<nat, nat>, head: nat, tail: nat, flPtr: nat)
    requires ListFolded(h, slabs, cut, head, tail, flPtr) && Buffers(h, size, pages, Middle(slabs), free, live)
    requires flPtr != tail
    ensures HasFreeHead(h, size, pages, free, flPtr)
  {
    FirstFree(h, size, pages, slabs, cut, free, live, head, tail, flPtr);
  }

  ghost predicate HasFreeHead(h: Headers, size: nat, pages: map<nat, seq<byte>>, free: map<nat, seq<nat>>, a: nat) {
    && a in h && a in free && free[a] != [] && h[a].pstart in pages && h[a].pstart <= h[a].freelist
    && h[a].freelist - h[a].pstart + size == LinkOffset(size, free[a][0])
    && LinkOffset(size, free[a][0]) + 8 <= |pages[h[a].pstart]|
  }

  lemma {:induction false} PopStep(h: Headers, h': Headers, size: nat, pages: map<nat, seq<byte>>,
                                   pages': map<nat, seq<byte>>, slabs: seq<nat>, cut: nat, free: map<nat, seq<nat>>,
                                   free': map<nat, seq<nat>>, live: map<nat, nat>, live': map<nat, nat>, head: nat,
                                   tail: nat, a: nat)
    requires ListFolded(h, slabs, cut, head, tail, a) && Buffers(h, size, pages, Middle(slabs), free, live)
    requires a != tail && HasFreeHead(h, size, pages, free, a)
    requires var x := h[a];
             var off := LinkOffset(size, free[a][0]);
             pages' == pages[x.pstart := StoreWord(pages[x.pstart], off, 0xDEADBEEF)]
             && h' == h[a := x.(freelist := LoadWord(pages[x.pstart], off), refs := x.refs + 1)]
             && live' == live[x.freelist := free[a][0]] && free' == free[a := free[a][1..]]
    ensures h[a].freelist !in live && Buffers(h', size, pages', Middle(slabs), free', live')
    ensures SameContents(pages, pages', size, live) && SlabOf(h[a].freelist) == a && h[a].refs < h[a].bufCnt
    ensures LinkIs(pages, size, h[a].freelist, h'[a].freelist)
    ensures LinkIs(pages', size, h[a].freelist, 0xDEADBEEF)
  {
    FirstFree(h, size, pages, slabs, cut, free, live, head, tail, a);
    TakeBuffersStep(h, h', size, pages, pages', Middle(slabs), free, free', live, live', a);
  }

  /** The effect of taking a buffer from the slab at flPtr on the list. */
  lemma {:induction false} TakeListStep(h: Headers, h': Headers, slabs: seq<nat>, cut: nat, cut': nat, head: nat,
                                        tail: nat, flPtr: nat, flPtr': nat)
    requires ListFolded(h, slabs, cut, head, tail, flPtr) && flPtr != tail
    requires flPtr in h && flPtr in h' && h[flPtr].refs < h[flPtr].bufCnt
    requires var x := h[flPtr];
             && h' == h[flPtr := x.(freelist := h'[flPtr].freelist, refs := x.refs + 1)]
             && flPtr' == (if x.refs + 1 >= x.bufCnt then x.next else flPtr)
             && cut' == (if x.refs + 1 >= x.bufCnt then cut + 1 else cut)
    ensures ListFolded(h', slabs, cut', head, tail, flPtr')
  {
    assert UnfoldCache(0);
    AdvanceKeepsList(h, slabs, cut, head, tail, flPtr, h'[flPtr].freelist, h[flPtr].refs + 1);
  }

  /** Its effect on the buffers. */
  lemma {:induction false} TakeBuffersStep(h: Headers, h': Headers, size: nat, pages: map<nat, seq<byte>>,
                                           pages': map<nat, seq<byte>>, mid: set<nat>,
                                           free: map<nat, seq<nat>>, free': map<nat, seq<nat>>, live: map<nat, nat>,
                                           live': map<nat, nat>, a: nat)
    requires Buffers(h, size, pages, mid, free, live) && a in mid && a in h && a in free && free[a] != []
    requires SlabOk(h[a], a, size, pages, free[a]) && LinkOffset(size, free[a][0]) + 8 <= PAGE
    requires var x := h[a];
             var off := LinkOffset(size, free[a][0]);
             pages' == pages[x.pstart := StoreWord(pages[x.pstart], off, 0xDEADBEEF)]
             && h' == h[a := x.(freelist := LoadWord(pages[x.pstart], off), refs := x.refs + 1)]
             && live' == live[x.freelist := free[a][0]] && free' == free[a := free[a][1..]]
             && x.freelist == BufAt(a, size, free[a][0])
    ensures h[a].freelist !in live && Buffers(h', size, pages', mid, free', live')
    ensures SameContents(pages, pages', size, live) && SlabOf(h[a].freelist) == a && h[a].refs < h[a].bufCnt
    ensures LinkIs(pages, size, h[a].freelist, h'[a].freelist)
    ensures LinkIs(pages', size, h[a].freelist, 0xDEADBEEF)
  {
    LinkPoisoned(pages, size, h[a].pstart, h[a].freelist);
    LinkStoreKeepsContents(h, size, pages, pages', mid, free, live, h[a].pstart, free[a][0], 0xDEADBEEF);
    BufferInPage(a, size, free[a][0]);
    TakenBuffers(h, h', size, pages, pages', mid, free, free', live, live', a);
  }

  lemma {:induction false} TakenBuffers(h: Headers, h': Headers, size: nat, pages: map<nat, seq<byte>>,
                                        pages': map<nat, seq<byte>>, mid: set<nat>,
                                        free: map<nat, seq<nat>>, free': map<nat, seq<nat>>, live: map<nat, nat>,
                                        live': map<nat, nat>, a: nat)
    requires Buffers(h, size, pages, mid, free, live) && a in mid && a in h && a in free && free[a] != []
    requires SlabOk(h[a], a, size, pages, free[a]) && LinkOffset(size, free[a][0]) + 8 <= PAGE
    requires var x := h[a];
             var off := LinkOffset(size, free[a][0]);
             pages' == pages[x.pstart := StoreWord(pages[x.pstart], off, 0xDEADBEEF)]
             && h' == h[a := x.(freelist := LoadWord(pages[x.pstart], off), refs := x.refs + 1)]
             && live' == live[x.freelist := free[a][0]] && free' == free[a := free[a][1..]]
             && x.freelist == BufAt(a, size, free[a][0])
    ensures h[a].freelist !in live && Buffers(h', size, pages', mid, free', live')
  {
    assert UnfoldCache(0);
    var x := h[a];
    TakeFirst(pages[x.pstart], x.pstart, size, x.freelist, free[a]);
    WordFits(pages[x.pstart], LinkOffset(size, free[a][0]));
    TakeLive(size, mid, free, live, a);
    OtherSlabsKept(h, h', size, pages, pages', mid, free, free', a);
  }

  function Outstanding(h: Headers, a: nat): nat {
    if a in h then h[a].refs else 0
  }

  /** What kmem_cache_free finds at the address it computes for a live buffer. */
  lemma {:induction false} FreeFacts(h: Headers, size: nat, pages: map<nat, seq<byte>>, slabs: seq<nat>, cut: nat,
                                     free: map<nat, seq<nat>>, live: map<nat, nat>, head: nat, tail: nat, flPtr: nat,
                                     buf: nat)
    requires size <= SMALL_OBJ_SIZE && buf in live
    requires ListFolded(h, slabs, cut, head, tail, flPtr) && Buffers(h, size, pages, Middle(slabs), free, live)
    ensures var a := SlabOf(buf);
            a in Middle(slabs) && a in h && a in free && SlabOk(h[a], a, size, pages, free[a])
            && a == buf - buf % 4096 + PAGE - HEADER && h[a].pstart == buf - buf % 4096
            && live[buf] < BufCnt(size) && live[buf] !in free[a] && buf == BufAt(a, size, live[buf])
            && buf + size - (buf - buf % 4096) == LinkOffset(size, live[buf])
            && h[a].refs >= 1 && h[a].bufCnt >= 7
  {
    assert UnfoldCache(0);
    var a, b := SlabOf(buf), live[buf];
    assert InUse(a, size, b, live) <==> b !in free[a];
    ManyBuffers(size);
    assert h[a].pstart + Offset(size, b) == buf;
    MissingOne(free[a], BufCnt(size), b);
  }

  /** The whole step of putting a buffer back on its slab's list. */
  lemma {:induction false} ReturnStep(h: Headers, h': Headers, size: nat, pages: map<nat, seq<byte>>,
                                      pages': map<nat, seq<byte>>, slabs: seq<nat>, free: map<nat, seq<nat>>,
                                      free': map<nat, seq<nat>>, live: map<nat, nat>, live': map<nat, nat>, buf: nat)
    requires Buffers(h, size, pages, Middle(slabs), free, live) && buf in live && SlabOf(buf) in Middle(slabs)
    requires var a := SlabOf(buf);
             a in h && a in free && SlabOk(h[a], a, size, pages, free[a]) && h[a].refs >= 1
             && live[buf] < BufCnt(size) && live[buf] !in free[a] && buf == BufAt(a, size, live[buf])
             && pages' == pages[h[a].pstart := StoreWord(pages[h[a].pstart], LinkOffset(size, live[buf]),
                                                         h[a].freelist)]
             && h' == h[a := h[a].(freelist := buf, refs := h[a].refs - 1)]
             && free' == free[a := [live[buf]] + free[a]] && live' == live - {buf}
    ensures Buffers(h', size, pages', Middle(slabs), free', live')
  {
    assert UnfoldCache(0);
    var a := SlabOf(buf);
    PutFirst(pages[h[a].pstart], h[a].pstart, size, h[a].freelist, free[a], live[buf]);
    ReturnLive(size, Middle(slabs), free, live, buf);
    Disjoint(size, live[buf], live[buf] + 1);
    OtherSlabsKept(h, h', size, pages, pages', Middle(slabs), free, free', a);
  }

  /** A slab between the sentinels has both neighbours. */
  lemma {:induction false} Neighbours(h: Headers, h': Headers, slabs: seq<nat>, cut: nat, head: nat, tail: nat,
                                      flPtr: nat, j: nat)
    requires ListFolded(h, slabs, cut, head, tail, flPtr) && 0 < j < |slabs| - 1
    requires slabs[j] in h && slabs[j] in h'
    requires h' == h[slabs[j] := h[slabs[j]].(freelist := h'[slabs[j]].freelist, refs := h'[slabs[j]].refs)]
    ensures h'[slabs[j]].prev in h' && h'[slabs[j]].next in h'
    ensures slabs[j] != h'[slabs[j]].prev && slabs[j] != h'[slabs[j]].next
    ensures Linked(h', slabs) && Distinct(slabs)
  {
    assert UnfoldCache(0);
    assert PairAt(h, slabs, j - 1) && PairAt(h, slabs, j);
    DataKeepsLinks(h, slabs, slabs[j], h'[slabs[j]].freelist, h'[slabs[j]].refs);
  }

  /** A slab all of whose buffers are free has none live, so it can go. */
  lemma {:induction false} ForgetSlab(h: Headers, h': Headers, size: nat, pages: map<nat, seq<byte>>, mid: set<nat>,
                                      free: map<nat, seq<nat>>, live: map<nat, nat>, a: nat)
    requires Buffers(h, size, pages, mid, free, live) && a in mid && a in h && h[a].refs == 0 && SameData(h, h')
    ensures Buffers(h', size, pages - {h[a].pstart}, mid - {a}, free, live)
  {
    assert UnfoldCache(0);
    forall x | x in live
      ensures SlabOf(x) != a
    {
      if SlabOf(x) == a {
        assert InUse(a, size, live[x], live) <==> live[x] !in free[a];
        MissingOne(free[a], BufCnt(size), live[x]);
      }
    }
    forall a', b: nat | a' in mid - {a} && HeaderAddress(a') && a' in free && b < BufCnt(size)
      ensures InUse(a', size, b, live) <==> b !in free[a']
    {
      assert a' in mid;
    }
  }

  lemma {:induction false} DropStep(h0: Headers, h: Headers, h': Headers, size: nat, pages: map<nat, seq<byte>>,
                                    pages': map<nat, seq<byte>>, slabs: seq<nat>, slabs': seq<nat>, cut: nat,
                                    free: map<nat, seq<nat>>, live: map<nat, nat>, head: nat, tail: nat, flPtr: nat,
                                    j: nat)
    requires size <= SMALL_OBJ_SIZE && ListFolded(h0, slabs, cut, head, tail, flPtr) && 0 < j < |slabs| - 1
    requires Linked(h, slabs) && Distinct(slabs) && Buffers(h, size, pages, Middle(slabs), free, live)
    requires slabs[j] in h0 && slabs[j] in h && h0[slabs[j]].refs == 1
    requires h == h0[slabs[j] := h0[slabs[j]].(freelist := h[slabs[j]].freelist, refs := 0)]
    requires h[slabs[j]].prev in h && h[slabs[j]].next in h && h' == Unlink(h, slabs[j])
    requires slabs' == Removed(slabs, j) && pages' == pages - {h[slabs[j]].pstart}
    ensures slabs[j] !in slabs' && Linked(h', slabs') && slabs'[0] == head
    ensures Middle(slabs') == Middle(slabs) - {slabs[j]} && slabs[j] == h[slabs[j]].pstart + TO_HEADER
    ensures Buffers(h', size, pages', Middle(slabs'), free, live)
    ensures flPtr != slabs[j] ==> ListFolded(h', slabs', cut, head, tail, flPtr)
    ensures flPtr == slabs[j] ==> !ListFolded(h', slabs', cut, head, tail, flPtr)
  {
    assert UnfoldCache(0);
    ManyBuffers(size);
    assert slabs[j] in Middle(slabs);
    RemoveLinks(h, slabs, j);
    RemovedMiddle(slabs, j);
    ForgetSlab(h, h', size, pages, Middle(slabs), free, live, slabs[j]);
    assert j >= cut;
    if flPtr != slabs[j] {
      assert ListOk(h, slabs, cut, head, tail, flPtr);
      DropKeepsList(h, slabs, cut, head, tail, flPtr, j);
    }
  }

  /** The whole step of moving a slab that was full, for its new links and its new place. */
  lemma {:induction false} MoveStep(h0: Headers, h: Headers, size: nat, pages: map<nat, seq<byte>>, slabs: seq<nat>,
                                    cut: nat, free: map<nat, seq<nat>>, live: map<nat, nat>, head: nat, tail: nat,
                                    flPtr: nat, j: nat)
    requires ListFolded(h0, slabs, cut, head, tail, flPtr) && 0 < j < |slabs| - 1
    requires Linked(h, slabs) && Distinct(slabs) && Buffers(h, size, pages, Middle(slabs), free, live)
    requires slabs[j] in h0 && slabs[j] in h && Full(h0[slabs[j]]) && !Full(h[slabs[j]])
    requires h == h0[slabs[j] := h0[slabs[j]].(freelist := h[slabs[j]].freelist, refs := h[slabs[j]].refs)]
    requires h[slabs[j]].prev in h && h[slabs[j]].next in h
    ensures j < cut < |slabs|
    ensures var h1 := Unlink(h, slabs[j]);
            && flPtr in h1 && h1[flPtr].prev in h1 && slabs[j] in h1
            && var h2, slabs' := InsertBefore(h1, flPtr, slabs[j]), Inserted(Removed(slabs, j), cut - 1, slabs[j]);
               && ListFolded(h2, slabs', cut - 1, head, tail, slabs[j]) && Middle(slabs') == Middle(slabs)
               && Buffers(h2, size, pages, Middle(slabs'), free, live)
  {
    FullIsBefore(h0, slabs, cut, head, tail, flPtr, j);
    MoveListStep(h0, h, slabs, cut, head, tail, flPtr, j);
    MoveBuffersStep(h, InsertBefore(Unlink(h, slabs[j]), flPtr, slabs[j]), size, pages, slabs, cut, free, live, j);
  }

  lemma {:induction false} FullIsBefore(h: Headers, slabs: seq<nat>, cut: nat, head: nat, tail: nat, flPtr: nat, j: nat)
    requires ListFolded(h, slabs, cut, head, tail, flPtr) && 0 < j < |slabs| - 1 && slabs[j] in h && Full(h[slabs[j]])
    ensures j < cut < |slabs|
  {
    assert UnfoldCache(0);
  }

  /** The part of the step that concerns the buffers. */
  lemma {:induction false} MoveBuffersStep(h: Headers, h': Headers, size: nat, pages: map<nat, seq<byte>>,
                                           slabs: seq<nat>, cut: nat, free: map<nat, seq<nat>>, live: map<nat, nat>,
                                           j: nat)
    requires Distinct(slabs) && 0 < j < |slabs| - 1 && 1 < cut < |slabs| && SameData(h, h')
    requires Buffers(h, size, pages, Middle(slabs), free, live)
    ensures var slabs' := Inserted(Removed(slabs, j), cut - 1, slabs[j]);
            Middle(slabs') == Middle(slabs) && Buffers(h', size, pages, Middle(slabs'), free, live)
  {
    MovedMiddle(slabs, j, cut - 1);
    SlabsIgnoreLinks(h, h', size, pages, Middle(slabs), free, live);
  }

  /** The part of the step that concerns the list. */
  lemma {:induction false} MoveListStep(h0: Headers, h: Headers, slabs: seq<nat>, cut: nat, head: nat, tail: nat,
                                        flPtr: nat, j: nat)
    requires ListFolded(h0, slabs, cut, head, tail, flPtr) && 0 < j < |slabs| - 1 && j < cut < |slabs|
    requires Linked(h, slabs) && slabs[j] in h0 && slabs[j] in h && Full(h0[slabs[j]]) && !Full(h[slabs[j]])
    requires h == h0[slabs[j] := h0[slabs[j]].(freelist := h[slabs[j]].freelist, refs := h[slabs[j]].refs)]
    requires h[slabs[j]].prev in h && h[slabs[j]].next in h
    ensures var h1 := Unlink(h, slabs[j]);
            && flPtr in h1 && h1[flPtr].prev in h1 && slabs[j] in h1
            && var h2 := InsertBefore(h1, flPtr, slabs[j]);
               && ListFolded(h2, Inserted(Removed(slabs, j), cut - 1, slabs[j]), cut - 1, head, tail, slabs[j])
               && SameData(h, h2)
  {
    assert UnfoldCache(0);
    MoveKeepsList(h, slabs, cut, head, tail, flPtr, j);
  }

  /** A slab that was neither full nor nearly empty stays where it is. */
  lemma {:induction false} CountChanged(h: Headers, h': Headers, slabs: seq<nat>, cut: nat, head: nat, tail: nat,
                                        flPtr: nat, a: nat)
    requires ListFolded(h, slabs, cut, head, tail, flPtr) && a in h && a in h' && !Full(h[a]) && !Full(h'[a])
    requires h' == h[a := h[a].(freelist := h'[a].freelist, refs := h'[a].refs)]
    ensures ListFolded(h', slabs, cut, head, tail, flPtr)
  {
    assert UnfoldCache(0);
    DataKeepsLinks(h, slabs, a, h'[a].freelist, h'[a].refs);
  }

  lemma {:induction false} ClientStep(h: Headers, size: nat, pages: map<nat, seq<byte>>, pages': map<nat, seq<byte>>,
                                      mid: set<nat>, free: map<nat, seq<nat>>, live: map<nat, nat>, buf: nat, at: nat,
                                      bytes: seq<byte>)
    requires Buffers(h, size, pages, mid, free, live) && buf in live && SlabOf(buf) in mid && at + |bytes| <= size
    requires var a := SlabOf(buf);
             a in h && a in free && SlabOk(h[a], a, size, pages, free[a]) && live[buf] !in free[a]
             && buf == BufAt(a, size, live[buf])
             && pages' == pages[h[a].pstart := Overwrite(pages[h[a].pstart], buf - h[a].pstart + at, bytes)]
    ensures Buffers(h, size, pages', mid, free, live)
  {
    assert UnfoldCache(0);
    var a := SlabOf(buf);
    WriteKeepsChain(pages[h[a].pstart], h[a].pstart, size, h[a].freelist, free[a], live[buf], buf - h[a].pstart + at,
                    bytes);
    OtherSlabsKept(h, h, size, pages, pages', mid, free, free, a);
  }

  /** A client's write changes its own bytes and no other client's. */
  lemma {:induction false} ClientStoreContents(h: Headers, size: nat, pages: map<nat, seq<byte>>,
                                               pages': map<nat, seq<byte>>, mid: set<nat>, free: map<nat, seq<nat>>,
                                               live: map<nat, nat>, buf: nat, at: nat, bytes: seq<byte>)
    requires Buffers(h, size, pages, mid, free, live) && buf in live && at + |bytes| <= size
    requires var page := buf - buf % 4096;
             page in pages && |pages[page]| == PAGE
               && pages' == pages[page := Overwrite(pages[page], buf - page + at, bytes)]
    ensures SameContents(pages, pages', size, live - {buf})
    ensures ClientBytes(pages', size, buf) == Overwrite(ClientBytes(pages, size, buf), at, bytes)
  {
    BuffersLive(h, size, pages, mid, free, live);
    var page := buf - buf % 4096;
    LivePlace(size, mid, free, live, buf);
    Disjoint(size, live[buf], live[buf] + 1);
    OwnBytes(pages[page], buf % 4096, size, at, bytes);
    forall x | x in live - {buf}
      ensures ClientBytes(pages', size, x) == ClientBytes(pages, size, x)
    {
      OtherClient(size, mid, free, live, x, buf);
      StoreElsewhere(pages, pages', page, size, x, buf % 4096 + at, bytes);
    }
  }

  /** A store that misses the bytes of x, on its page or on another. */
  lemma {:induction false} StoreElsewhere(pages: map<nat, seq<byte>>, pages': map<nat, seq<byte>>, page: nat, size: nat,
                                          x: nat, loc: nat, bytes: seq<byte>)
    requires page in pages && |pages[page]| == PAGE && pages' == pages[page := Overwrite(pages[page], loc, bytes)]
    requires x % 4096 + size <= 4096
    requires x - x % 4096 == page ==> loc + |bytes| <= x % 4096 || x % 4096 + size <= loc
    ensures ClientBytes(pages', size, x) == ClientBytes(pages, size, x)
  {
    if x - x % 4096 == page {
      StoreKeepsBytes(pages[page], loc, bytes, x % 4096, x % 4096 + size);
    }
  }

  lemma {:induction false} OwnBytes(page: seq<byte>, lo: nat, size: nat, at: nat, bytes: seq<byte>)
    requires lo + size <= |page| && at + |bytes| <= size
    ensures Overwrite(page, lo + at, bytes)[lo..lo + size] == Overwrite(page[lo..lo + size], at, bytes)
  {
  }

  /** Two live buffers on one page lie apart in it. */
  lemma {:induction false} OtherClient(size: nat, mid: set<nat>, free: map<nat, seq<nat>>, live: map<nat, nat>, x: nat,
                                       y: nat)
    requires LiveOk(size, mid, free, live) && x in live && y in live && x != y
    ensures x % 4096 + size <= 4096 && y % 4096 + size <= 4096
    ensures x - x % 4096 == y - y % 4096 ==> x % 4096 + size <= y % 4096 || y % 4096 + size <= x % 4096
  {
    LivePlace(size, mid, free, live, x);
    LivePlace(size, mid, free, live, y);
    Disjoint(size, live[x], live[y]);
    Disjoint(size, live[y], live[x]);
  }

  lemma {:induction false} WalkIsFree(h: Header, a: nat, size: nat, pages: map<nat, seq<byte>>, mid: set<nat>,
                                      free: map<nat, seq<nat>>, live: map<nat, nat>)
    requires a in mid && a in free && SlabOk(h, a, size, pages, free[a]) && LiveOk(size, mid, free, live)
    ensures var walk := Follow(pages[h.pstart], h.pstart, size, h.freelist, |free[a]|);
            |walk| == |free[a]| && Distinct(walk)
            && forall b: nat | b < BufCnt(size) :: Address(h.pstart, size, b) in walk <==>
                Address(h.pstart, size, b) !in live
  {
    FollowVisitsFree(pages[h.pstart], h.pstart, size, h.freelist, free[a]);
    var walk := Follow(pages[h.pstart], h.pstart, size, h.freelist, |free[a]|);
    assert forall i | 0 <= i < |walk| :: walk[i] == BufAt(a, size, free[a][i]);
    forall i, j | 0 <= i < j < |walk|
      ensures walk[i] != walk[j]
    {
      if walk[i] == walk[j] { BufferInjective(a, free[a][i], a, free[a][j], size); }
    }
    forall b: nat | b < BufCnt(size)
      ensures Address(h.pstart, size, b) in walk <==> Address(h.pstart, size, b) !in live
    {
      assert InUse(a, size, b, live) <==> b !in free[a];
      if BufAt(a, size, b) in walk {
        var i :| 0 <= i < |walk| && walk[i] == BufAt(a, size, b);
        BufferInjective(a, free[a][i], a, b, size);
      }
      if b in free[a] {
        var i :| 0 <= i < |free[a]| && free[a][i] == b;
        assert walk[i] == BufAt(a, size, b);
      }
    }
  }

  lemma {:induction false} WordFits(page: seq<byte>, off: nat)
    requires off + 8 <= |page|
    ensures LoadWord(page, off) < 0x1_0000_0000_0000_0000
  {
    LeValueBound(page[off..off + 8]);
    assert Pow256(4) == 0x1_0000_0000;
    assert Pow256(8) == 0x1_0000_0000_0000_0000;
  }

  /** Changing one slab's header data, page and free list leaves the others as they were. */
  lemma {:induction false} OtherSlabsKept(h: Headers, h': Headers, size: nat, pages: map<nat, seq<byte>>,
                                          pages': map<nat, seq<byte>>, mid: set<nat>, free: map<nat, seq<nat>>,
                                          free': map<nat, seq<nat>>, a: nat)
    requires SlabsOk(h, size, pages, mid, free) && a in mid && HeaderAddress(a)
    requires a in h' && h' == h[a := h'[a]] && a in free' && free' == free[a := free'[a]]
    requires h'[a].pstart in pages' && pages' == pages[h'[a].pstart := pages'[h'[a].pstart]]
    requires SlabOk(h'[a], a, size, pages', free'[a])
    ensures SlabsOk(h', size, pages', mid, free')
  {
  }

  lemma {:induction false} TailLinked(h: Headers, slabs: seq<nat>, cut: nat, head: nat, tail: nat, flPtr: nat)
    requires ListFolded(h, slabs, cut, head, tail, flPtr)
    ensures |slabs| >= 2 && slabs[0] == head && slabs[|slabs| - 1] == tail
    ensures tail in slabs && tail in h && h[tail].prev in h
  {
    assert UnfoldCache(0);
    assert PairAt(h, slabs, |slabs| - 2);
  }

  /** The whole step of kmem_cache_grow. */
  lemma {:induction false} GrowStep(h: Headers, h': Headers, size: nat, pages: map<nat, seq<byte>>,
                                    pages': map<nat, seq<byte>>, slabs: seq<nat>, slabs': seq<nat>, cut: nat,
                                    free: map<nat, seq<nat>>, free': map<nat, seq<nat>>, live: map<nat, nat>, head: nat,
                                    tail: nat, flPtr: nat, flPtr': nat, frame: nat, a: nat, page: seq<byte>)
    requires size <= SMALL_OBJ_SIZE && ListFolded(h, slabs, cut, head, tail, flPtr) && NewPage(frame, slabs)
    requires Buffers(h, size, pages, Middle(slabs), free, live)
    requires FreeChain(page, frame, size, frame, InOrder(BufCnt(size))) && a == frame + TO_HEADER
    requires |slabs| >= 2 && tail in h && h[tail].prev in h && tail != a
    requires var h1 := h[a := Header(NULL, NULL, frame, frame, 0, BufCnt(size))];
             h1[tail].prev in h1 && h' == InsertBefore(h1, tail, a)
    requires pages' == pages[frame := page] && slabs' == Inserted(slabs, |slabs| - 1, a)
    requires free' == free[a := InOrder(BufCnt(size))] && flPtr' == if flPtr == tail then a else flPtr
    ensures ListFolded(h', slabs', cut, head, tail, flPtr') && Middle(slabs') == Middle(slabs) + {a}
    ensures Buffers(h', size, pages', Middle(slabs'), free', live)
  {
    var x := Header(NULL, NULL, frame, frame, 0, BufCnt(size));
    ManyBuffers(size);
    ForeignHeader(h, slabs, cut, head, tail, flPtr, a, x);
    NewSlab(h, size, pages, Middle(slabs), free, live, a, x, page);
    AppendFolded(h[a := x], slabs, cut, head, tail, flPtr, a);
    SlabsIgnoreLinks(h[a := x], h', size, pages', Middle(slabs'), free', live);
  }

  /** A carved page joins the slabs; none of its buffers is live. */
  lemma {:induction false} NewSlab(h: Headers, size: nat, pages: map<nat, seq<byte>>, mid: set<nat>,
                                   free: map<nat, seq<nat>>, live: map<nat, nat>, a: nat, x: Header, page: seq<byte>)
    requires Buffers(h, size, pages, mid, free, live) && a !in mid && HeaderAddress(a)
    requires x.pstart == x.freelist == a - TO_HEADER && x.refs == 0 && x.bufCnt == BufCnt(size)
    requires FreeChain(page, x.pstart, size, x.freelist, InOrder(BufCnt(size)))
    ensures Buffers(h[a := x], size, pages[x.pstart := page], mid + {a}, free[a := InOrder(BufCnt(size))], live)
  {
    assert UnfoldCache(0);
    var free', order := free[a := InOrder(BufCnt(size))], InOrder(BufCnt(size));
    forall a', b: nat | a' in mid + {a} && HeaderAddress(a') && a' in free' && b < BufCnt(size)
      ensures InUse(a', size, b, live) <==> b !in free'[a']
    {
      if a' == a {
        BufferInPage(a, size, b);
        assert order[b] == b;
      } else {
        assert InUse(a', size, b, live) <==> b !in free[a'];
      }
    }
  }

  lemma {:induction false} SlabsIgnoreLinks(h: Headers, h': Headers, size: nat, pages: map<nat, seq<byte>>,
                                            mid: set<nat>, free: map<nat, seq<nat>>, live: map<nat, nat>)
    requires Buffers(h, size, pages, mid, free, live) && SameData(h, h')
    ensures Buffers(h', size, pages, mid, free, live)
  {
    assert UnfoldCache(0);
  }

  /** A header outside the list can change freely. */
  lemma {:induction false} ForeignHeader(h: Headers, slabs: seq<nat>, cut: nat, head: nat, tail: nat, flPtr: nat,
                                         a: nat, x: Header)
    requires ListFolded(h, slabs, cut, head, tail, flPtr) && a !in slabs
    ensures ListFolded(h[a := x], slabs, cut, head, tail, flPtr)
  {
    assert UnfoldCache(0);
    var h' := h[a := x];
    forall i: nat | i < |slabs| - 1
      ensures PairAt(h', slabs, i)
    {
      assert PairAt(h, slabs, i);
    }
  }

  lemma {:induction false} AppendFolded(h: Headers, slabs: seq<nat>, cut: nat, head: nat, tail: nat, flPtr: nat, a: nat)
    requires ListFolded(h, slabs, cut, head, tail, flPtr) && a in h && a !in slabs && !Full(h[a])
    ensures |slabs| >= 2 && tail in h && h[tail].prev in h
    ensures var h' := InsertBefore(h, tail, a);
            ListFolded(h', Inserted(slabs, |slabs| - 1, a), cut, head, tail, if flPtr == tail then a else flPtr)
              && SameData(h, h')
    ensures Middle(Inserted(slabs, |slabs| - 1, a)) == Middle(slabs) + {a}
  {
    assert UnfoldCache(0);
    AppendKeepsList(h, slabs, cut, head, tail, flPtr, a);
  }

  /** The slab of the only live buffer has one buffer out. */
  lemma {:induction false} OneOutstanding(h: Header, a: nat, size: nat, pages: map<nat, seq<byte>>, mid: set<nat>,
                                          free: map<nat, seq<nat>>, live: map<nat, nat>, buf: nat)
    requires live.Keys == {buf} && a == SlabOf(buf) && a in free
    requires SlabOk(h, a, size, pages, free[a]) && LiveOk(size, mid, free, live)
    ensures h.refs == 1
  {
    forall c: nat ensures c in free[a] <==> c < BufCnt(size) && c != live[buf] {
      if c < BufCnt(size) {
        assert InUse(a, size, c, live) <==> c !in free[a];
        if BufAt(a, size, c) == buf { BufferInjective(a, c, a, live[buf], size); }
      }
    }
    AllButOne(free[a], BufCnt(size), live[buf]);
  }

  /** flPtr is at the only slab if that has a free buffer. */
  lemma {:induction false} OnlySlab(h: Headers, slabs: seq<nat>, cut: nat, head: nat, tail: nat, flPtr: nat, a: nat)
    requires ListOk(h, slabs, cut, head, tail, flPtr) && Middle(slabs) == {a} && a in h && !Full(h[a])
    ensures flPtr == a
  {
    var j := MiddleIndex(slabs, a);
    assert slabs[1] in Middle(slabs);
  }

  /** A cache with one slab, one buffer of which is out. */
  lemma {:induction false} OneBufferOut(h: Headers, size: nat, pages: map<nat, seq<byte>>, slabs: seq<nat>, cut: nat,
                                        free: map<nat, seq<nat>>, live: map<nat, nat>, head: nat, tail: nat, flPtr: nat,
                                        buf: nat)
    requires size <= SMALL_OBJ_SIZE && live.Keys == {buf} && Middle(slabs) == {SlabOf(buf)}
    requires ListFolded(h, slabs, cut, head, tail, flPtr) && Buffers(h, size, pages, Middle(slabs), free, live)
    ensures flPtr == SlabOf(buf) && Outstanding(h, SlabOf(buf)) == 1
  {
    FreeFacts(h, size, pages, slabs, cut, free, live, head, tail, flPtr, buf);
    assert UnfoldCache(0);
    var a := SlabOf(buf);
    OneOutstanding(h[a], a, size, pages, Middle(slabs), free, live, buf);
    OnlySlab(h, slabs, cut, head, tail, flPtr, a);
  }

  /**
   A run that leaves flPtr dangling: the only buffer of a new cache is allocated and freed. The next
   allocation would take the slab at flPtr, which is not full, and return the same buffer, whose
   frame the frame allocator counts among its free ones.
   */
  method LeaveDanglingPointer(size: nat, head: nat, tail: nat, pfa: FrameAllocator, offset: nat, contents: seq<byte>)
    returns (cache: Cache, again: nat)
    requires size <= SMALL_OBJ_SIZE && head != tail && |contents| == PAGE
    requires pfa.Valid() && pfa.Supply() > 0 && DirectMap(offset) && Apart(head, offset) && Apart(tail, offset)
    modifies pfa, pfa.bitmap, pfa.preFrames
    ensures fresh(cache) && cache.pfa == pfa && cache.tail == tail
    ensures !cache.Valid() && cache.flPtr !in cache.slabs && Middle(cache.slabs) == {} && cache.live == map[]
    ensures cache.flPtr != NULL && cache.flPtr != tail
    ensures cache.flPtr in cache.headers && !Full(cache.headers[cache.flPtr])
    ensures again == cache.headers[cache.flPtr].freelist && FrameOf(again, offset) in pfa.free
  {
    cache := new Cache(size, head, tail, pfa, offset);
    assert Middle(cache.slabs) == {};
    var buf := cache.Alloc(contents);
    OneBufferOut(cache.headers, size, cache.pages, cache.slabs, cache.cut, cache.free, cache.live, head, tail,
                 cache.flPtr, buf);
    cache.Free(buf);
    again := cache.Chosen();
  }
}
