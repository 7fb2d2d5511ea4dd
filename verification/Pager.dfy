/**
 The page-table builder. It writes raw 64-bit entries into table frames taken
 from the frame allocator and is proved against the hardware walk.
 */
module Paging {
  import opened Bits
  import opened PageTables
  import opened FrameAllocation

  /** The last-level entry map_page writes. */
  function SmallWord(paddr: nat, flags: nat): nat {
    Or(Or(paddr, flags % 0x1000), 0x3)
  }

  /** The 2 MiB entry map_page_2m writes. */
  function LargeWord(paddr: nat, flags: nat): nat {
    Or(Or(Or(paddr - paddr % 0x20_0000, flags), 0x80), 0x3)
  }

  /** A last-level entry: the address, the low twelve flags, present and writable. */
  ghost predicate SmallEntry(e: nat, paddr: nat, flags: nat) {
    forall j: nat :: Bit(e, j) <==> Bit(paddr, j) || (j < 12 && Bit(flags, j)) || j < 2
  }

  lemma {:induction false} SmallWordBits(paddr: nat, flags: nat)
    ensures SmallEntry(SmallWord(paddr, flags), paddr, flags)
  {
    Pow2Values();
    forall j: nat ensures Bit(SmallWord(paddr, flags), j) <==> Bit(paddr, j) || (j < 12 && Bit(flags, j)) || j < 2 {
      OrBit(Or(paddr, flags % 0x1000), 3, j);
      OrBit(paddr, flags % 0x1000, j);
      ModBit(flags, 12, j);
      ThreeBit(j);
    }
  }

  /** A 2 MiB entry: the address without its low 21 bits, all flags, present, writable and the page-size bit. */
  ghost predicate LargeEntryBits(e: nat, paddr: nat, flags: nat) {
    forall j: nat :: Bit(e, j) <==> (j >= 21 && Bit(paddr, j)) || Bit(flags, j) || j == 7 || j < 2
  }

  lemma {:induction false} LargeWordBits(paddr: nat, flags: nat)
    ensures LargeEntryBits(LargeWord(paddr, flags), paddr, flags)
  {
    Pow2Values();
    var x := paddr - paddr % 0x20_0000;
    forall j: nat
      ensures Bit(LargeWord(paddr, flags), j) <==> (j >= 21 && Bit(paddr, j)) || Bit(flags, j) || j == 7 || j < 2
    {
      ClearLowBit(x, paddr, 21, j);
      OrBit(x, flags, j);
      Pow2Bit(7, j);
      OrBit(Or(x, flags), 0x80, j);
      OrBit(Or(Or(x, flags), 0x80), 3, j);
      ThreeBit(j);
    }
  }

  /** Flags below the region's alignment do not move the target. */
  lemma {:induction false} LargeTargetAligned(paddr: nat, flags: nat)
    requires flags < 0x20_0000 && paddr < MAXPHYS
    ensures LargeTarget(paddr, flags) == paddr - paddr % 0x20_0000
  {
    PlainQuotient(paddr / 0x20_0000);
  }

  /** Setting the present and writable bits touches nothing above them. */
  lemma {:induction false} OrThree(a: nat, k: nat)
    requires k >= 2
    ensures Present(Or(a, 3)) && Writable(Or(a, 3)) && Shr(Or(a, 3), k) == Shr(a, k)
  {
    OrBit(a, 3, 0);
    OrBit(a, 3, 1);
    OrShr(a, 3, k);
    assert Shr(3, 2) == 0;
    ShrShr(3, 2, k - 2);
    ShrZero(k - 2);
    OrZero(Shr(a, k));
  }

  lemma {:induction false} ShrZero(k: nat)
    ensures Shr(0, k) == 0
  {
    if k > 0 { ShrZero(k - 1); }
  }

  lemma {:induction false} ShrShr(a: nat, j: nat, k: nat)
    ensures Shr(Shr(a, j), k) == Shr(a, j + k)
  {
    if j > 0 { ShrShr(a / 2, j - 1, k); }
  }

  lemma {:induction false} ShrSmall(a: nat, k: nat)
    requires a < Pow2(k)
    ensures Shr(a, k) == 0
  {
    if k > 0 { ShrSmall(a / 2, k - 1); }
  }

  /** Whatever the flags, the entry is present, writable and holds the frame of paddr. */
  lemma {:induction false} SmallWordFields(paddr: nat, flags: nat)
    ensures SmallLeaf(SmallWord(paddr, flags)) == Leaf(Frame(paddr), PAGE, true, SmallWord(paddr, flags))
  {
    Pow2Values();
    var low := flags % 0x1000;
    OrThree(Or(paddr, low), 12);
    OrShr(paddr, low, 12);
    ShrSmall(low, 12);
    OrZero(Shr(paddr, 12));
    ShrIsDivision(paddr, 12);
    ShrIsDivision(SmallWord(paddr, flags), 12);
  }

  /** The physical base of a 2 MiB mapping; flag bits above bit 20 would leak into it. */
  function LargeTarget(paddr: nat, flags: nat): nat {
    (Or(paddr / 0x20_0000, flags / 0x20_0000) % 0x8000_0000) * 0x20_0000
  }

  lemma {:induction false} LargeWordIsLarge(a: nat)
    ensures PageSize(Or(Or(a, 0x80), 3))
  {
    assert Pow2(7) == 0x80;
    Pow2Bit(7, 7);
    OrBit(a, 0x80, 7);
    OrBit(Or(a, 0x80), 3, 7);
  }

  lemma {:induction false} LargeWordBase(a: nat)
    ensures Shr(Or(Or(a, 0x80), 3), 21) == Shr(a, 21)
  {
    Pow2Values();
    OrThree(Or(a, 0x80), 21);
    OrShr(a, 0x80, 21);
    ShrSmall(0x80, 21);
    OrZero(Shr(a, 21));
  }

  /** What a 2 MiB mapping with these flags ends in: flags with a reserved bit make the processor refuse the entry. */
  function LargeResult(paddr: nat, flags: nat): Walk {
    if ReservedClear(flags, 21) then Leaf(LargeTarget(paddr, flags), LARGE, true, LargeWord(paddr, flags)) else Reserved
  }

  /** A 2 MiB page mapped without flags: present, writable and large. */
  function PlainLeaf(paddr: nat): Walk { Leaf(paddr, LARGE, true, paddr + 0x83) }

  /** The reserved bits of the word are those of the flags. */
  lemma {:induction false} LargeWordReserved(x: nat, flags: nat, j: nat)
    requires x % 0x20_0000 == 0 && 13 <= j < 21
    ensures Bit(Or(Or(Or(x, flags), 0x80), 3), j) == Bit(flags, j)
  {
    Pow2Values();
    AlignedBit(x, 21, j);
    OrBit(x, flags, j);
    assert Pow2(7) == 0x80;
    Pow2Bit(7, j);
    OrBit(Or(x, flags), 0x80, j);
    OrBit(Or(Or(x, flags), 0x80), 3, j);
    ZeroBit(j - 2);
    assert Bit(3, j) == Bit(1, j - 1) == Bit(0, j - 2);
  }

  lemma {:induction false} LargeWordFields(paddr: nat, flags: nat)
    ensures LargeLeaf(LargeWord(paddr, flags)) == LargeResult(paddr, flags)
    ensures Present(LargeWord(paddr, flags)) && PageSize(LargeWord(paddr, flags))
  {
    var x := paddr - paddr % 0x20_0000;
    forall j | 13 <= j < 21 ensures Bit(LargeWord(paddr, flags), j) == Bit(flags, j) {
      LargeWordReserved(x, flags, j);
    }
    LargeWordIsLarge(Or(x, flags));
    OrThree(Or(Or(x, flags), 0x80), 2);
    LargeWordQuotient(x, flags);
    assert x / 0x20_0000 == paddr / 0x20_0000;
  }

  /** Flag bit 13 makes the processor refuse a 2 MiB mapping, wherever it leads. */
  lemma {:induction false} ReservedFlag(paddr: nat)
    ensures LargeResult(paddr, 0x2000) == Reserved
  {
    Pow2Values();
    assert 0x2000 == Pow2(13);
    Pow2Bit(13, 13);
    assert Bit(0x2000, 13);
  }

  lemma {:induction false} LargeWordQuotient(x: nat, flags: nat)
    ensures Or(Or(Or(x, flags), 0x80), 3) / 0x20_0000 == Or(x / 0x20_0000, flags / 0x20_0000)
  {
    LargeWordBase(Or(x, flags));
    OrShr(x, flags, 21);
    ShrBy21(x);
    ShrBy21(flags);
    ShrBy21(Or(Or(Or(x, flags), 0x80), 3));
  }

  lemma {:induction false} ShrBy21(x: nat)
    ensures Shr(x, 21) == x / 0x20_0000
  {
    Pow2Values();
    ShrIsDivision(x, 21);
  }

  /** The entry `f | 3` of a page-aligned frame links to that frame. */
  lemma {:induction false} LinkWord(f: nat)
    requires f % 0x1000 == 0 && f < MAXPHYS
    ensures LinkTo(Or(f, 0x3), f)
  {
    Pow2Values();
    OrDisjoint(f, 3, 12);
    OrThree(f, 2);
    AlignedBit(f, 12, 7);
    OrBit(f, 3, 7);
    assert !Bit(3, 7) by { ZeroBit(5); assert Bit(3, 7) == Bit(1, 6) == Bit(0, 5); }
    LinkSum(f);
  }

  lemma {:induction false} LinkSum(f: nat)
    requires f % 0x1000 == 0 && f < MAXPHYS
    ensures Next(f + 3) == f && f + 3 < MAXPHYS
  {
    assert f == f / 0x1000 * 0x1000;
  }

  /** The table indices as both mapping functions compute them, by shifts and masks. */
  method Indices(vaddr: nat) returns (p: Path)
    ensures p == PathOf(vaddr)
  {
    Pow2Values();
    ShrIsDivision(vaddr, 39);
    ShrIsDivision(vaddr, 30);
    ShrIsDivision(vaddr, 21);
    ShrIsDivision(vaddr, 12);
    p := Path(Shr(vaddr, 39) % 512, Shr(vaddr, 30) % 512, Shr(vaddr, 21) % 512, Shr(vaddr, 12) % 512);
  }

  /** How many of the three intermediate tables on a path do not exist yet. */
  function Missing(keys: set<Pos>, p: Path): nat {
    (if L3(p.l4) in keys then 0 else 1) + (if L2(p.l4, p.l3) in keys then 0 else 1)
    + (if L1(p.l4, p.l3, p.l2) in keys then 0 else 1)
  }

  function DirectoryMissing(keys: set<Pos>, p: Path): nat {
    (if L3(p.l4) in keys then 0 else 1) + (if L2(p.l4, p.l3) in keys then 0 else 1)
  }

  /** The page directory entry of the path is a 2 MiB leaf. */
  ghost predicate LargeMapped(mem: Memory, at: map<Pos, nat>, p: Path)
    requires p.Valid()
  {
    L2(p.l4, p.l3) in at
    && Present(Word(mem, at[L2(p.l4, p.l3)], p.l2)) && PageSize(Word(mem, at[L2(p.l4, p.l3)], p.l2))
  }

  /** Physical memory has a word array for each of the allocator's frames. */
  ghost predicate HoldsFrames(mem: Memory, npages: nat) {
    forall f: nat | f % 0x1000 == 0 && f / 0x1000 < npages :: f in mem
  }

  /** Every table frame is one the allocator has handed out. */
  ghost predicate AllLive(at: map<Pos, nat>, live: set<nat>) {
    forall p | p in at :: at[p] / 0x1000 in live
  }

  /** The frame map_page takes for the last-level table of a path that is mapped large: the first one of the page. */
  ghost function DataAt(mem: Memory, at: map<Pos, nat>, p: Path): nat
    requires p.Valid() && LargeMapped(mem, at, p)
  {
    Next(Word(mem, at[L2(p.l4, p.l3)], p.l2))
  }

  /** The path is mapped large and that frame is one of the tables. */
  ghost predicate Misplaced(mem: Memory, at: map<Pos, nat>, p: Path)
    requires p.Valid()
  {
    LargeMapped(mem, at, p) && DataAt(mem, at, p) in at.Values
  }

  /** A region is mapped large exactly when its walks end at a 2 MiB entry. */
  lemma {:induction false} LargeWalk(mem: Memory, root: nat, at: map<Pos, nat>, p: Path)
    requires Tree(mem, root, at) && p.Valid()
    ensures var w := WalkFrom(mem, root, p);
            LargeMapped(mem, at, p) <==> w.Reserved? || (w.Leaf? && w.span == LARGE)
    ensures LargeMapped(mem, at, p) ==> L1(p.l4, p.l3, p.l2) !in at && L3(p.l4) in at
  {
    WalkIsTreeWalk(mem, root, at, p);
    RootAndParents(mem, root, at, p);
    if L2(p.l4, p.l3) in at {
      FollowLink(mem, root, at, L2(p.l4, p.l3), p.l2);
    }
  }

  /** A proof that mentions UnfoldPager(n) may look inside a folded pager invariant. */
  predicate UnfoldPager(n: nat) { true }

  /** Frame f keeps its contents and stays no table. */
  ghost predicate Kept(mem: Memory, mem': Memory, at': map<Pos, nat>, f: nat)
    requires f in mem
  {
    f in mem' && mem'[f] == mem[f] && f !in at'.Values
  }

  /** A proof that mentions UnfoldData(n) may look inside DataKept. */
  predicate UnfoldData(n: nat) { true }

  /** Every frame that is no table and that the allocator could not have handed out keeps its contents. */
  ghost predicate DataKept(mem: Memory, mem': Memory, at: map<Pos, nat>, at': map<Pos, nat>, avail: set<nat>,
                           avail': set<nat>) {
    forall n: nat | UnfoldData(n) :: OthersUntouched(mem, mem', at, at', avail, avail')
  }

  ghost predicate OthersUntouched(mem: Memory, mem': Memory, at: map<Pos, nat>, at': map<Pos, nat>, avail: set<nat>,
                                  avail': set<nat>) {
    avail' <= avail
    && forall f {:trigger Kept(mem, mem', at', f)} | f in mem && f / 0x1000 !in avail && f !in at.Values ::
         Kept(mem, mem', at', f)
  }

  /** What DataKept says of one frame. */
  lemma {:induction false} FrameKept(mem: Memory, mem': Memory, at: map<Pos, nat>, at': map<Pos, nat>, avail: set<nat>,
                                     avail': set<nat>, f: nat)
    requires DataKept(mem, mem', at, at', avail, avail') && f in mem && f / 0x1000 !in avail && f !in at.Values
    ensures Kept(mem, mem', at', f)
  {
    assert UnfoldData(0);
  }

  lemma {:induction false} DataKeptTransitive(mem: Memory, mid: Memory, mem': Memory, at: map<Pos, nat>,
                                              atMid: map<Pos, nat>, at': map<Pos, nat>, avail: set<nat>,
                                              availMid: set<nat>, avail': set<nat>)
    requires DataKept(mem, mid, at, atMid, avail, availMid) && DataKept(mid, mem', atMid, at', availMid, avail')
    ensures DataKept(mem, mem', at, at', avail, avail')
  {
    assert UnfoldData(0);
    forall f | f in mem && f / 0x1000 !in avail && f !in at.Values
      ensures Kept(mem, mem', at', f)
    {
      assert Kept(mem, mid, atMid, f);
      assert Kept(mid, mem', at', f);
    }
  }

  lemma {:induction false} DataKeptAtFirst(mem: Memory, at: map<Pos, nat>, avail: set<nat>)
    ensures DataKept(mem, mem, at, at, avail, avail)
  {
  }

  /** A new table in a fresh frame, linked from an old one. */
  lemma {:induction false} LinkKeepsData(mem: Memory, mem': Memory, at: map<Pos, nat>, at': map<Pos, nat>,
                                         avail: set<nat>, avail': set<nat>, t: nat, i: nat, e: nat, c: Pos, f: nat)
    requires i < 512 && t in at.Values && f / 0x1000 in avail && avail' <= avail
    requires mem' == SetWord(mem[f := EMPTY], t, i, e) && at' == at[c := f]
    ensures DataKept(mem, mem', at, at', avail, avail')
  {
  }

  /** Clearing one frame the allocator had to give, the first table. */
  lemma {:induction false} RootKeepsData(mem: Memory, avail: set<nat>, avail': set<nat>, f: nat)
    requires f / 0x1000 in avail && avail' <= avail
    ensures DataKept(mem, mem[f := EMPTY], map[], map[L4 := f], avail, avail')
  {
  }

  /** A store into a table. */
  lemma {:induction false} StoreKeepsData(mem: Memory, mem': Memory, at: map<Pos, nat>, at': map<Pos, nat>,
                                          avail: set<nat>, t: nat, i: nat, e: nat)
    requires i < 512 && t in at.Values && mem' == SetWord(mem, t, i, e) && at'.Values <= at.Values
    ensures DataKept(mem, mem', at, at', avail, avail)
  {
  }

  class Pager {
    var mem: Memory
    var pml4: nat
    const pfa: FrameAllocator
    ghost var at: map<Pos, nat>

    /** The invariant, folded away behind UnfoldPager. */
    ghost predicate Valid()
      reads this, pfa, pfa.bitmap, pfa.preFrames
    {
      forall n: nat | UnfoldPager(n) :: Invariant()
    }

    /** A proper table tree whose frames are all live in the allocator. */
    ghost predicate Invariant()
      reads this, pfa, pfa.bitmap, pfa.preFrames
    {
      pfa.Valid() && Tree(mem, pml4, at)
      && HoldsFrames(mem, pfa.npages)
      && AllLive(at, pfa.live)
    }

    lemma {:induction false} HasTree()
      requires Valid()
      ensures Tree(mem, pml4, at)
    {
      assert UnfoldPager(0);
    }

    /** An empty PML4 in a frame that the allocator has handed out. */
    constructor (allocator: FrameAllocator, memory: Memory, f: nat)
      requires allocator.Valid() && HoldsFrames(memory, allocator.npages)
      requires TableFrame(memory, f) && f / 0x1000 in allocator.live
      ensures Valid() && pfa == allocator && pml4 == f && at == map[L4 := f] && mem == memory[f := EMPTY]
      ensures forall p: Path | p.Valid() :: WalkFrom(mem, pml4, p) == Fault
    {
      pfa := allocator;
      mem := memory;
      pml4 := f;
      at := map[L4 := f];
      new;
      ZeroTable(pml4);
      EmptyTree(mem, pml4);
    }

    method ZeroTable(paddr: nat)
      requires paddr in mem
      modifies `mem
      ensures mem == old(mem)[paddr := EMPTY]
    {
      for i := 0 to 512
        invariant paddr in mem && mem == old(mem)[paddr := mem[paddr]]
        invariant forall k | 0 <= k < i :: mem[paddr][k] == 0
      {
        mem := mem[paddr := mem[paddr][i := 0]];
      }
      assert mem[paddr] == EMPTY;
    }

    /** A frame from the allocator that no table occupies. */
    method NewFrame() returns (f: nat)
      requires Invariant() && pfa.Supply() > 0
      modifies pfa, pfa.bitmap, pfa.preFrames
      ensures Invariant()
      ensures TableFrame(mem, f) && f !in at.Values && f / 0x1000 in pfa.live
      ensures f / 0x1000 in old(pfa.Available()) && pfa.Available() <= old(pfa.Available())
      ensures pfa.Supply() == old(pfa.Supply()) - 1
    {
      f := pfa.KallocFrame();
      assert f / 0x1000 in pfa.live;
      assert f / 0x1000 < pfa.npages;
    }

    /** The step map_page repeats per level: make the table behind entry i of table t exist, and find it. */
    method EnsureTable(t: nat, i: nat, ghost p: Pos) returns (next: nat)
      requires Invariant() && p in at && !p.L1? && at[p] == t && i < 512
      requires Present(Word(mem, t, i)) ==> Links(p, Word(mem, t, i))
      requires Child(p, i) !in at ==> pfa.Supply() > 0
      modifies `mem, `at, pfa, pfa.bitmap, pfa.preFrames
      ensures Invariant()
      ensures Child(p, i) in at && next == at[Child(p, i)] && at == old(at)[Child(p, i) := next]
      ensures SameWalks(old(mem), mem, pml4)
      ensures pfa.Supply() == old(pfa.Supply()) - if Child(p, i) in old(at) then 0 else 1
      ensures Child(p, i) in old(at) ==> mem == old(mem) && at == old(at)
      ensures DataKept(old(mem), mem, old(at), at, old(pfa.Available()), pfa.Available())
    {
      FollowLink(mem, pml4, at, p, i);
      if !Present(Word(mem, t, i)) {
        var f := NewFrame();
        ghost var mem0 := mem;
        ZeroTable(f);
        assert t != f by { assert t in at.Values; }
        var e := Or(f, 0x3);
        LinkWord(f);
        mem := SetWord(mem, t, i, e);
        LinkEmptyTable(mem0, pml4, at, p, i, f, e);
        LinkKeepsData(mem0, mem, at, at[Child(p, i) := f], old(pfa.Available()), pfa.Available(), t, i, e, Child(p, i),
                      f);
        at := at[Child(p, i) := f];
        FollowLink(mem, pml4, at, p, i);
      }
      next := Next(Word(mem, t, i));
    }

    /** The first two levels, common to map_page and map_page_2m: the page directory of a path. */
    method EnsureDirectory(p: Path) returns (pd: nat)
      requires Invariant() && p.Valid() && pfa.Supply() >= DirectoryMissing(at.Keys, p)
      modifies `mem, `at, pfa, pfa.bitmap, pfa.preFrames
      ensures Invariant()
      ensures SameWalks(old(mem), mem, pml4)
      ensures at.Keys == old(at.Keys) + {L3(p.l4), L2(p.l4, p.l3)} && pd == at[L2(p.l4, p.l3)]
      ensures pfa.Supply() == old(pfa.Supply()) - DirectoryMissing(old(at.Keys), p)
      ensures L2(p.l4, p.l3) in old(at) ==> mem == old(mem) && at == old(at)
      ensures DataKept(old(mem), mem, old(at), at, old(pfa.Available()), pfa.Available())
    {
      RootAndParents(mem, pml4, at, p);
      FollowLink(mem, pml4, at, L4, p.l4);
      var pdpt := EnsureTable(pml4, p.l4, L4);
      ghost var mid, atMid, availMid := mem, at, pfa.Available();
      FollowLink(mem, pml4, at, L3(p.l4), p.l3);
      pd := EnsureTable(pdpt, p.l3, L3(p.l4));
      SameWalksTransitive(old(mem), mid, mem, pml4);
      DataKeptTransitive(old(mem), mid, mem, old(at), atMid, at, old(pfa.Available()), availMid, pfa.Available());
    }

    /** map_page up to its last line: the address it takes for the last-level table. */
    method EnsureLastLevel(p: Path) returns (pt: nat)
      requires Invariant() && p.Valid()
      requires LargeMapped(mem, at, p) || pfa.Supply() >= Missing(at.Keys, p)
      modifies `mem, `at, pfa, pfa.bitmap, pfa.preFrames
      ensures Invariant()
      ensures SameWalks(old(mem), mem, pml4)
      ensures old(LargeMapped(mem, at, p)) ==>
                mem == old(mem) && at == old(at) && pt == Next(Word(mem, at[L2(p.l4, p.l3)], p.l2))
      ensures !old(LargeMapped(mem, at, p)) ==>
                at.Keys == old(at.Keys) + {L3(p.l4), L2(p.l4, p.l3), L1(p.l4, p.l3, p.l2)}
                && pt == at[L1(p.l4, p.l3, p.l2)]
                && pfa.Supply() == old(pfa.Supply()) - Missing(old(at.Keys), p)
      ensures DataKept(old(mem), mem, old(at), at, old(pfa.Available()), pfa.Available())
    {
      LargeWalk(mem, pml4, at, p);
      var pd := EnsureDirectory(p);
      ghost var mid, atMid, availMid := mem, at, pfa.Available();
      SameWalksAt(old(mem), mem, pml4, p);
      LargeWalk(mem, pml4, at, p);
      FollowLink(mem, pml4, at, L2(p.l4, p.l3), p.l2);
      if !Present(Word(mem, pd, p.l2)) {
        pt := EnsureTable(pd, p.l2, L2(p.l4, p.l3));
        SameWalksTransitive(old(mem), mid, mem, pml4);
        DataKeptTransitive(old(mem), mid, mem, old(at), atMid, at, old(pfa.Available()), availMid, pfa.Available());
      } else {
        pt := Next(Word(mem, pd, p.l2));
      }
    }

    /**
     Maps the 4 KiB page of vaddr to the frame of paddr. The page directory entry is not
     tested for being a 2 MiB leaf: then a word of the mapped data frame is overwritten
     instead. No translation changes, unless that frame is itself a table.
     */
    method MapPage(paddr: nat, vaddr: nat, flags: nat)
      requires Valid()
      requires LargeMapped(mem, at, PathOf(vaddr)) || pfa.Supply() >= Missing(at.Keys, PathOf(vaddr))
      modifies `mem, `at, pfa, pfa.bitmap, pfa.preFrames
      ensures old(Misplaced(mem, at, PathOf(vaddr))) || (Valid() && OthersKept(old(mem), mem, pml4, PathOf(vaddr)))
      ensures !old(LargeMapped(mem, at, PathOf(vaddr))) ==>
                && WalkFrom(mem, pml4, PathOf(vaddr)) == Leaf(Frame(paddr), PAGE, true, SmallWord(paddr, flags))
                && SmallEntry(WalkFrom(mem, pml4, PathOf(vaddr)).entry, paddr, flags)
                && DataKept(old(mem), mem, old(at), at, old(pfa.Available()), pfa.Available())
                && var p := PathOf(vaddr);
                   && at.Keys == old(at.Keys) + {L3(p.l4), L2(p.l4, p.l3), L1(p.l4, p.l3, p.l2)}
                   && pfa.Supply() == old(pfa.Supply()) - Missing(old(at.Keys), p)
      ensures old(LargeMapped(mem, at, PathOf(vaddr))) ==>
                && at == old(at)
                && var p := PathOf(vaddr);
                   && mem == SetWord(old(mem), old(DataAt(mem, at, p)), p.l1, SmallWord(paddr, flags))
                   && SmallEntry(SmallWord(paddr, flags), paddr, flags)
      ensures old(LargeMapped(mem, at, PathOf(vaddr)) && !Misplaced(mem, at, PathOf(vaddr))) ==>
                && SameWalks(old(mem), mem, pml4)
                && !LeadsTo(WalkFrom(mem, pml4, PathOf(vaddr)), Frame(paddr), PAGE)
    {
      var p := Indices(vaddr);
      assert UnfoldPager(0);
      LargeWalk(mem, pml4, at, p);
      var pt := EnsureLastLevel(p);
      SmallWordFields(paddr, flags);
      SmallWordBits(paddr, flags);
      ghost var mid, atMid, availMid := mem, at, pfa.Available();
      StoreSmall(pt, p, Or(Or(paddr, flags % 0x1000), 0x3));
      if L1(p.l4, p.l3, p.l2) in at {
        StoreKeepsData(mid, mem, at, at, availMid, pt, p.l1, SmallWord(paddr, flags));
        DataKeptTransitive(old(mem), mid, mem, old(at), atMid, at, old(pfa.Available()), availMid, pfa.Available());
      }
    }

    /** The last line of map_page: one entry of the table at pt. */
    method StoreSmall(pt: nat, p: Path, w: nat)
      requires Invariant() && p.Valid()
      requires L1(p.l4, p.l3, p.l2) in at ==> pt == at[L1(p.l4, p.l3, p.l2)]
      modifies `mem
      ensures mem == SetWord(old(mem), pt, p.l1, w)
      ensures L1(p.l4, p.l3, p.l2) in at || pt !in at.Values ==> Invariant() && OthersKept(old(mem), mem, pml4, p)
      ensures L1(p.l4, p.l3, p.l2) in at ==> WalkFrom(mem, pml4, p) == SmallLeaf(w)
      ensures L1(p.l4, p.l3, p.l2) !in at && pt !in at.Values ==> SameWalks(old(mem), mem, pml4)
    {
      if L1(p.l4, p.l3, p.l2) in at {
        SetSmallEntry(mem, pml4, at, p, w);
      } else if pt !in at.Values {
        SetForeignWord(mem, pml4, at, pt, p.l1, w);
      }
      mem := SetWord(mem, pt, p.l1, w);
    }

    /** Maps the 2 MiB region of vaddr, whatever it held before. */
    method MapPage2M(paddr: nat, vaddr: nat, flags: nat)
      requires Valid() && pfa.Supply() >= DirectoryMissing(at.Keys, PathOf(vaddr))
      modifies `mem, `at, pfa, pfa.bitmap, pfa.preFrames
      ensures Valid()
      ensures RegionMapped(old(mem), mem, pml4, PathOf(vaddr), LargeResult(paddr, flags))
      ensures var p := PathOf(vaddr);
              at.Keys == old(at.Keys) + {L3(p.l4), L2(p.l4, p.l3)} - {L1(p.l4, p.l3, p.l2)}
              && pfa.Supply() == old(pfa.Supply()) - DirectoryMissing(old(at.Keys), p)
              && Word(mem, at[L2(p.l4, p.l3)], p.l2) == LargeWord(paddr, flags)
              && LargeEntryBits(LargeWord(paddr, flags), paddr, flags)
      ensures DataKept(old(mem), mem, old(at), at, old(pfa.Available()), pfa.Available())
    {
      var p := Indices(vaddr);
      assert UnfoldPager(0);
      var pd := EnsureDirectory(p);
      ghost var mid, atMid, availMid := mem, at, pfa.Available();
      LargeWordFields(paddr, flags);
      LargeWordBits(paddr, flags);
      StoreLarge(pd, p, Or(Or(Or(paddr - paddr % 0x20_0000, flags), 0x80), 0x3));
      SameWalksThenRegion(old(mem), mid, mem, pml4, p, LargeResult(paddr, flags));
      DataKeptTransitive(old(mem), mid, mem, old(at), atMid, at, old(pfa.Available()), availMid, pfa.Available());
    }

    /** The last line of map_page_2m: one entry of the page directory. */
    method StoreLarge(pd: nat, p: Path, w: nat)
      requires Invariant() && p.Valid() && L2(p.l4, p.l3) in at && pd == at[L2(p.l4, p.l3)]
      requires Present(w) && PageSize(w)
      modifies `mem, `at
      ensures Invariant() && at == old(at) - {L1(p.l4, p.l3, p.l2)} && Word(mem, pd, p.l2) == w
      ensures RegionMapped(old(mem), mem, pml4, p, LargeLeaf(w))
      ensures DataKept(old(mem), mem, old(at), at, pfa.Available(), pfa.Available())
    {
      SetLargeEntry(mem, pml4, at, p, w);
      FollowLink(mem, pml4, at, L2(p.l4, p.l3), p.l2);
      StoreKeepsData(mem, SetWord(mem, pd, p.l2, w), at, at - {L1(p.l4, p.l3, p.l2)}, pfa.Available(), pd, p.l2, w);
      mem := SetWord(mem, pd, p.l2, w);
      at := at - {L1(p.l4, p.l3, p.l2)};
    }
  }

  /** The start of paging_init: a frame for the PML4, cleared. */
  method StartPaging(allocator: FrameAllocator, memory: Memory) returns (pager: Pager)
    requires allocator.Valid() && allocator.Supply() > 0 && HoldsFrames(memory, allocator.npages)
    modifies allocator, allocator.bitmap, allocator.preFrames
    ensures fresh(pager) && pager.Valid() && pager.pfa == allocator && pager.at.Keys == {L4}
    ensures forall p: Path | p.Valid() :: WalkFrom(pager.mem, pager.pml4, p) == Fault
    ensures allocator.Supply() == old(allocator.Supply()) - 1
    ensures DataKept(memory, pager.mem, map[], pager.at, old(allocator.Available()), allocator.Available())
  {
    var f := allocator.KallocFrame();
    pager := new Pager(allocator, memory, f);
    RootKeepsData(memory, old(allocator.Available()), allocator.Available(), f);
  }

  /** A page mapped without flags is present and writable and nothing else. */
  lemma {:induction false} PlainSmallWord(paddr: nat)
    requires paddr % 0x1000 == 0
    ensures SmallWord(paddr, 0) % 0x1000 == 3
  {
    Pow2Values();
    OrZero(paddr);
    OrDisjoint(paddr, 3, 12);
    QuotientUnique(paddr + 3, 0x1000, paddr / 0x1000, 3);
  }

  /** The data frame of a plain 2 MiB mapping, which is no table and keeps its contents. */
  lemma {:induction false} PlainData(mem: Memory, mem': Memory, root: nat, at: map<Pos, nat>, at': map<Pos, nat>,
                                     avail: set<nat>, avail': set<nat>, p: Path, paddr: nat)
    requires p.Valid() && paddr % 0x20_0000 == 0 && Tree(mem', root, at')
    requires L2(p.l4, p.l3) in at' && Word(mem', at'[L2(p.l4, p.l3)], p.l2) == LargeWord(paddr, 0)
    requires DataKept(mem, mem', at, at', avail, avail')
    requires paddr in mem && paddr / 0x1000 !in avail && paddr !in at.Values
    ensures LargeMapped(mem', at', p) && DataAt(mem', at', p) == paddr && !Misplaced(mem', at', p)
    ensures paddr in mem' && mem'[paddr] == mem[paddr]
  {
    LargeWordFields(paddr, 0);
    PlainLargeWord(paddr);
    FrameKept(mem, mem', at, at', avail, avail', paddr);
  }

  /**
   A run in which map_page destroys data: the region of vaddr is mapped large, then one of its pages is
   mapped to another frame. The page stays where it was and a word of the first data frame is lost.
   */
  method OverwriteData(pager: Pager, paddr: nat, vaddr: nat, other: nat)
    requires pager.Valid() && pager.pfa.Supply() >= DirectoryMissing(pager.at.Keys, PathOf(vaddr))
    requires paddr % 0x20_0000 == 0 && paddr < MAXPHYS
    requires paddr in pager.mem && paddr / 0x1000 !in pager.pfa.Available() && paddr !in pager.at.Values
    modifies pager`mem, pager`at, pager.pfa, pager.pfa.bitmap, pager.pfa.preFrames
    ensures pager.Valid() && WalkFrom(pager.mem, pager.pml4, PathOf(vaddr)) == PlainLeaf(paddr)
    ensures paddr in pager.mem && pager.mem[paddr] == old(pager.mem)[paddr][PathOf(vaddr).l1 := SmallWord(other, 0)]
  {
    MapRegion(pager, paddr, vaddr);
    ghost var mid := pager.mem;
    pager.MapPage(other, vaddr, 0);
    SameWalksAt(mid, pager.mem, pager.pml4, PathOf(vaddr));
  }

  method MapRegion(pager: Pager, paddr: nat, vaddr: nat)
    requires pager.Valid() && pager.pfa.Supply() >= DirectoryMissing(pager.at.Keys, PathOf(vaddr))
    requires paddr % 0x20_0000 == 0 && paddr < MAXPHYS
    requires paddr in pager.mem && paddr / 0x1000 !in pager.pfa.Available() && paddr !in pager.at.Values
    modifies pager`mem, pager`at, pager.pfa, pager.pfa.bitmap, pager.pfa.preFrames
    ensures pager.Valid() && WalkFrom(pager.mem, pager.pml4, PathOf(vaddr)) == PlainLeaf(paddr)
    ensures var p := PathOf(vaddr);
            && LargeMapped(pager.mem, pager.at, p) && DataAt(pager.mem, pager.at, p) == paddr
            && !Misplaced(pager.mem, pager.at, p)
    ensures paddr in pager.mem && pager.mem[paddr] == old(pager.mem)[paddr]
  {
    LargeTargetPlain(paddr);
    pager.MapPage2M(paddr, vaddr, 0);
    pager.HasTree();
    ghost var p := PathOf(vaddr);
    assert SameRegion(p, p);
    PlainData(old(pager.mem), pager.mem, pager.pml4, old(pager.at), pager.at, old(pager.pfa.Available()),
              pager.pfa.Available(), p, paddr);
  }

  lemma {:induction false} PlainLargeWord(paddr: nat)
    requires paddr % 0x20_0000 == 0
    ensures Next(LargeWord(paddr, 0)) == paddr
  {
    PlainLargeSum(paddr);
    PlainOffsets(paddr);
  }

  lemma {:induction false} PlainLargeSum(paddr: nat)
    requires paddr % 0x20_0000 == 0
    ensures LargeWord(paddr, 0) == paddr + 0x83
  {
    Pow2Values();
    PlainOffsets(paddr);
    OrZero(paddr);
    OrDisjoint(paddr, 0x80, 21);
    OrDisjoint(paddr + 0x80, 3, 6);
  }

  lemma {:induction false} PlainOffsets(paddr: nat)
    requires paddr % 0x20_0000 == 0
    ensures (paddr + 0x80) % 64 == 0 && (paddr + 0x83) % 0x1000 == 0x83
  {
    var q := paddr / 0x20_0000;
    QuotientUnique(paddr + 0x80, 64, 0x8000 * q + 2, 0);
    QuotientUnique(paddr + 0x83, 0x1000, 512 * q, 0x83);
  }

  /** Without flags a 2 MiB mapping of an aligned address goes to that address. */
  lemma {:induction false} LargeTargetPlain(paddr: nat)
    requires paddr % 0x20_0000 == 0 && paddr < MAXPHYS
    ensures LargeResult(paddr, 0) == PlainLeaf(paddr)
  {
    forall j | 13 <= j < 21 ensures !Bit(0, j) {
      ZeroBit(j);
    }
    PlainQuotient(paddr / 0x20_0000);
    PlainLargeSum(paddr);
    assert paddr / 0x20_0000 * 0x20_0000 == paddr;
  }

  lemma {:induction false} PlainQuotient(q: nat)
    requires q < 0x8000_0000
    ensures Or(q, 0) % 0x8000_0000 == q
  {
    OrZero(q);
  }
}
