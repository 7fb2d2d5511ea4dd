/**
 Page tables as the processor sees them: 4-level paging of section 4.5 of the
 Intel 64 and IA-32 Architectures Software Developer's Manual, Volume 3A.
 Physical memory maps the address of a 4 KiB frame to its 512 words.
 */
module PageTables {
  import opened Bits

  type Table = t: seq<nat> | |t| == 512 witness seq(512, _ => 0)
  type Memory = map<nat, Table>

  const PAGE: nat := 0x1000
  const LARGE: nat := 0x20_0000
  const HUGE: nat := 0x4000_0000
  const MAXPHYS: nat := 0x10_0000_0000_0000  // 2^52

  // Fields of a paging-structure entry.
  predicate Present(e: nat) { Bit(e, 0) }
  predicate Writable(e: nat) { Bit(e, 1) }
  predicate PageSize(e: nat) { Bit(e, 7) }
  function Frame(e: nat): nat { (e / 0x1000 % 0x100_0000_0000) * 0x1000 }
  function LargeFrame(e: nat): nat { (e / 0x20_0000 % 0x8000_0000) * 0x20_0000 }
  function HugeFrame(e: nat): nat { (e / 0x4000_0000 % 0x40_0000) * 0x4000_0000 }

  /** Bits 13 up to the page's alignment are reserved in an entry that maps a page of 2 MiB or 1 GiB. */
  predicate ReservedClear(e: nat, alignment: nat) {
    forall j | 13 <= j < alignment :: !Bit(e, j)
  }

  /** The table indices selected by a linear address. */
  datatype Path = Path(l4: nat, l3: nat, l2: nat, l1: nat) {
    predicate Valid() { l4 < 512 && l3 < 512 && l2 < 512 && l1 < 512 }
  }

  function PathOf(v: nat): (p: Path)
    ensures p.Valid()
  {
    Path(v / 0x80_0000_0000 % 512, v / 0x4000_0000 % 512, v / 0x20_0000 % 512, v / 0x1000 % 512)
  }

  /**
   What a walk ends in: an entry that is not present, an entry with a reserved bit set (both are page
   faults, told apart by the error code), or a page of `span` bytes at physical address `base` with the
   attributes in the entry that maps it.
   */
  datatype Walk = Fault | Reserved | Leaf(base: nat, span: nat, writable: bool, entry: nat)

  /** The walk ends in a writable page. */
  predicate LeadsTo(w: Walk, base: nat, span: nat) {
    w.Leaf? && w.base == base && w.span == span && w.writable
  }

  function Word(mem: Memory, frame: nat, i: nat): nat
    requires i < 512
  {
    if frame in mem then mem[frame][i] else 0
  }

  /** Memory after a store to word i of a frame. */
  function SetWord(mem: Memory, frame: nat, i: nat, e: nat): Memory
    requires i < 512
  {
    if frame in mem then mem[frame := mem[frame][i := e]] else mem
  }

  /** The hardware walk from the PML4 table at `root`. */
  function WalkFrom(mem: Memory, root: nat, p: Path): Walk
    requires p.Valid()
  {
    var e4 := Word(mem, root, p.l4);
    if !Present(e4) then Fault else
    if PageSize(e4) then Reserved else
    var e3 := Word(mem, Frame(e4), p.l3);
    if !Present(e3) then Fault else
    var w3 := Writable(e4) && Writable(e3);
    if PageSize(e3) then if ReservedClear(e3, 30) then Leaf(HugeFrame(e3), HUGE, w3, e3) else Reserved else
    var e2 := Word(mem, Frame(e3), p.l2);
    if !Present(e2) then Fault else
    var w2 := w3 && Writable(e2);
    if PageSize(e2) then if ReservedClear(e2, 21) then Leaf(LargeFrame(e2), LARGE, w2, e2) else Reserved else
    var e1 := Word(mem, Frame(e2), p.l1);
    if !Present(e1) then Fault else
    Leaf(Frame(e1), PAGE, w2 && Writable(e1), e1)
  }

  /** Where a byte is and with which of the twelve attribute bits of its page's entry. */
  datatype Translation = NotMapped | Rejected | Mapped(paddr: nat, writable: bool, attributes: nat)

  /** The byte of the page a walk ended in. */
  function ByteOf(w: Walk, v: nat): Translation {
    match w
    case Fault => NotMapped
    case Reserved => Rejected
    case Leaf(base, span, writable, entry) =>
      if span == 0 then NotMapped else Mapped(base + v % span, writable, entry % 0x1000)
  }

  /** The physical address of a linear address. */
  function Translate(mem: Memory, root: nat, v: nat): Translation {
    ByteOf(WalkFrom(mem, root, PathOf(v)), v)
  }

  /** A place for a table in the tree, named by the indices that lead to it. */
  datatype Pos = L4 | L3(i4: nat) | L2(i4: nat, i3: nat) | L1(i4: nat, i3: nat, i2: nat)

  function Child(p: Pos, i: nat): Pos
    requires !p.L1?
  {
    match p
    case L4 => L3(i)
    case L3(a) => L2(a, i)
    case L2(a, b) => L1(a, b, i)
  }

  /** The entry refers to a table of the next level. */
  predicate Links(p: Pos, e: nat) {
    Present(e) && !(p.L2? && PageSize(e))
  }

  /** The next-table address as map_page computes it. */
  function Next(e: nat): nat { e - e % 0x1000 }

  /** A present, writable entry that refers to the table at `child`, with no other attribute. */
  predicate LinkTo(e: nat, child: nat) {
    Present(e) && Writable(e) && !PageSize(e) && e < MAXPHYS && Next(e) == child && e % 0x1000 == 3
  }

  ghost predicate Injective(at: map<Pos, nat>) {
    forall p, q | p in at && q in at && at[p] == at[q] :: p == q
  }

  ghost predicate TableFrame(mem: Memory, f: nat) {
    f in mem && f % 0x1000 == 0 && f < MAXPHYS
  }

  /** The entries of the table at p agree with the tree: exactly the children in `at` are linked. */
  ghost predicate LinksMatch(mem: Memory, at: map<Pos, nat>, p: Pos)
    requires !p.L1? && p in at && at[p] in mem
  {
    forall i | 0 <= i < 512 ::
      (Links(p, mem[at[p]][i]) <==> Child(p, i) in at)
      && (Child(p, i) in at ==> LinkTo(mem[at[p]][i], at[Child(p, i)]))
  }

  /** The table tree, folded: proofs about its shape mention UnfoldTree. */
  ghost predicate Tree(mem: Memory, root: nat, at: map<Pos, nat>) {
    forall n: nat | UnfoldTree(n) :: TreeShape(mem, root, at)
  }

  predicate UnfoldTree(n: nat) { true }

  /** `at` gives every table reachable from root exactly one place, and no frame two places. */
  ghost predicate TreeShape(mem: Memory, root: nat, at: map<Pos, nat>) {
    Placed(mem, root, at) && forall p | p in at && !p.L1? :: LinksMatch(mem, at, p)
  }

  /** The places of the tables: frames of memory, none used twice, and each below its parent. */
  ghost predicate Placed(mem: Memory, root: nat, at: map<Pos, nat>) {
    L4 in at && at[L4] == root && Injective(at)
    && (forall p | p in at :: TableFrame(mem, at[p]))
    && (forall a | L3(a) in at :: a < 512)
    && (forall a, b | L2(a, b) in at :: b < 512 && L3(a) in at)
    && (forall a, b, c | L1(a, b, c) in at :: c < 512 && L2(a, b) in at)
  }

  function SmallLeaf(e: nat): Walk {
    if Present(e) then Leaf(Frame(e), PAGE, Writable(e), e) else Fault
  }

  function LargeLeaf(e: nat): Walk {
    if !Present(e) || !PageSize(e) then Fault
    else if ReservedClear(e, 21) then Leaf(LargeFrame(e), LARGE, Writable(e), e) else Reserved
  }

  /** The walk read off the tree. */
  ghost function TreeWalk(mem: Memory, at: map<Pos, nat>, p: Path): Walk
    requires p.Valid()
  {
    if L1(p.l4, p.l3, p.l2) in at then SmallLeaf(Word(mem, at[L1(p.l4, p.l3, p.l2)], p.l1))
    else if L2(p.l4, p.l3) in at then LargeLeaf(Word(mem, at[L2(p.l4, p.l3)], p.l2))
    else Fault
  }

  lemma {:induction false} LinkFields(e: nat, f: nat)
    requires LinkTo(e, f)
    ensures Frame(e) == f
  {
    var q := e / 0x1000;
    assert f == q * 0x1000 && q < 0x100_0000_0000;
  }

  lemma {:induction false} FollowLink(mem: Memory, root: nat, at: map<Pos, nat>, p: Pos, i: nat)
    requires Tree(mem, root, at) && p in at && !p.L1? && i < 512
    ensures at[p] in mem
    ensures var e := Word(mem, at[p], i);
            (Links(p, e) <==> Child(p, i) in at)
            && (Child(p, i) in at ==>
                  && Present(e) && Writable(e) && !PageSize(e)
                  && Frame(e) == at[Child(p, i)] && Next(e) == Frame(e))
  {
    assert UnfoldTree(0);
    assert LinksMatch(mem, at, p);
    if Child(p, i) in at {
      LinkFields(mem[at[p]][i], at[Child(p, i)]);
    }
  }

  lemma {:induction false} RootAndParents(mem: Memory, root: nat, at: map<Pos, nat>, p: Path)
    requires Tree(mem, root, at)
    ensures L4 in at && at[L4] == root
    ensures L2(p.l4, p.l3) in at ==> L3(p.l4) in at
  {
    assert UnfoldTree(0);
  }

  /** The hardware walk is the one read off the tree. */
  lemma {:induction false} WalkIsTreeWalk(mem: Memory, root: nat, at: map<Pos, nat>, p: Path)
    requires Tree(mem, root, at) && p.Valid()
    ensures WalkFrom(mem, root, p) == TreeWalk(mem, at, p)
  {
    assert UnfoldTree(0);
    FollowLink(mem, root, at, L4, p.l4);
    if L3(p.l4) in at {
      FollowLink(mem, root, at, L3(p.l4), p.l3);
      if L2(p.l4, p.l3) in at {
        FollowLink(mem, root, at, L2(p.l4, p.l3), p.l2);
      }
    }
  }

  /** Memory and root determine the tree: `at` names the reachable tables and nothing else. */
  lemma {:induction false} TreeIsUnique(mem: Memory, root: nat, a: map<Pos, nat>, b: map<Pos, nat>)
    requires Tree(mem, root, a) && Tree(mem, root, b)
    ensures a == b
  {
    forall p: Pos
      ensures p in a ==> p in b && a[p] == b[p]
      ensures p in b ==> p in a && a[p] == b[p]
    {
      SamePlace(mem, root, a, b, p);
      SamePlace(mem, root, b, a, p);
    }
  }

  lemma {:induction false} SamePlace(mem: Memory, root: nat, a: map<Pos, nat>, b: map<Pos, nat>, p: Pos)
    requires Tree(mem, root, a) && Tree(mem, root, b)
    ensures p in a ==> p in b && a[p] == b[p]
    decreases match p case L4 => 0 case L3(_) => 1 case L2(_, _) => 2 case L1(_, _, _) => 3
  {
    assert UnfoldTree(0);
    match p
    case L4 =>
    case L3(i) => SameChild(mem, root, a, b, L4, i);
    case L2(x, i) => SamePlace(mem, root, a, b, L3(x)); SameChild(mem, root, a, b, L3(x), i);
    case L1(x, y, i) => SamePlace(mem, root, a, b, L2(x, y)); SameChild(mem, root, a, b, L2(x, y), i);
  }

  lemma {:induction false} SameChild(mem: Memory, root: nat, a: map<Pos, nat>, b: map<Pos, nat>, q: Pos, i: nat)
    requires Tree(mem, root, a) && Tree(mem, root, b) && !q.L1?
    requires q in a ==> q in b && a[q] == b[q]
    ensures Child(q, i) in a ==> Child(q, i) in b && a[Child(q, i)] == b[Child(q, i)]
  {
    assert UnfoldTree(0);
    if Child(q, i) in a {
      FollowLink(mem, root, a, q, i);
      FollowLink(mem, root, b, q, i);
    }
  }

  ghost predicate SameWalks(mem: Memory, mem': Memory, root: nat) {
    forall p: Path {:trigger WalkFrom(mem', root, p)} | p.Valid() :: WalkFrom(mem', root, p) == WalkFrom(mem, root, p)
  }

  lemma {:induction false} SameWalksTransitive(mem: Memory, mid: Memory, mem': Memory, root: nat)
    requires SameWalks(mem, mid, root) && SameWalks(mid, mem', root)
    ensures SameWalks(mem, mem', root)
  {
    forall p: Path | p.Valid()
      ensures WalkFrom(mem', root, p) == WalkFrom(mem, root, p)
    {
      assert WalkFrom(mid, root, p) == WalkFrom(mem, root, p);
    }
  }

  lemma {:induction false} SameWalksAt(mem: Memory, mem': Memory, root: nat, p: Path)
    requires SameWalks(mem, mem', root) && p.Valid()
    ensures WalkFrom(mem', root, p) == WalkFrom(mem, root, p)
  {
  }

  lemma {:induction false} SameWalksThenRegion(mem: Memory, mid: Memory, mem': Memory, root: nat, p: Path, w: Walk)
    requires SameWalks(mem, mid, root) && RegionMapped(mid, mem', root, p, w)
    ensures RegionMapped(mem, mem', root, p, w)
  {
    forall q: Path | q.Valid()
      ensures WalkFrom(mem', root, q) == if SameRegion(p, q) then w else WalkFrom(mem, root, q)
    {
      assert WalkFrom(mid, root, q) == WalkFrom(mem, root, q);
    }
  }

  ghost predicate OthersKept(mem: Memory, mem': Memory, root: nat, p: Path) {
    forall q: Path {:trigger WalkFrom(mem', root, q)} | q.Valid() && q != p ::
      WalkFrom(mem', root, q) == WalkFrom(mem, root, q)
  }

  const EMPTY: Table := seq(512, _ => 0)

  lemma {:induction false} EmptyTree(mem: Memory, root: nat)
    requires TableFrame(mem, root) && mem[root] == EMPTY
    ensures Tree(mem, root, map[L4 := root])
    ensures forall p: Path | p.Valid() :: WalkFrom(mem, root, p) == Fault
  {
    assert UnfoldTree(0);
  }

  /** Linking a zeroed fresh frame into an absent entry grows the tree and changes no translation. */
  lemma {:induction false} LinkEmptyTable(mem: Memory, root: nat, at: map<Pos, nat>, p: Pos, i: nat, f: nat, e: nat)
    requires Tree(mem, root, at) && p in at && !p.L1? && i < 512
    requires !Present(Word(mem, at[p], i))
    requires TableFrame(mem, f) && f !in at.Values && LinkTo(e, f)
    ensures var mem' := SetWord(mem[f := EMPTY], at[p], i, e);
            Tree(mem', root, at[Child(p, i) := f]) && SameWalks(mem, mem', root)
  {
    assert UnfoldTree(0);
    GrownTree(mem, root, at, p, i, f, e);
    var mem' := SetWord(mem[f := EMPTY], at[p], i, e);
    var at' := at[Child(p, i) := f];
    forall q: Path | q.Valid()
      ensures WalkFrom(mem', root, q) == WalkFrom(mem, root, q)
    {
      WalkIsTreeWalk(mem, root, at, q);
      WalkIsTreeWalk(mem', root, at', q);
      GrownWalk(mem, root, at, p, i, f, e, q);
    }
  }

  /** Of the words the tree refers to, the store changes only the new link. */
  lemma {:induction false} GrownWord(mem: Memory, root: nat, at: map<Pos, nat>, p: Pos, i: nat, f: nat, e: nat, r: Pos,
                                     k: nat)
    requires Tree(mem, root, at) && p in at && r in at && i < 512 && k < 512 && f !in at.Values
    ensures r != p || k != i ==> Word(SetWord(mem[f := EMPTY], at[p], i, e), at[r], k) == Word(mem, at[r], k)
    ensures Word(SetWord(mem[f := EMPTY], at[p], i, e), f, k) == 0
  {
    assert UnfoldTree(0);
    assert at[p] in at.Values && at[r] in at.Values;
  }

  lemma {:induction false} GrownWalk(mem: Memory, root: nat, at: map<Pos, nat>, p: Pos, i: nat, f: nat, e: nat, q: Path)
    requires Tree(mem, root, at) && p in at && !p.L1? && i < 512 && q.Valid()
    requires !Present(Word(mem, at[p], i)) && f !in at.Values
    ensures TreeWalk(SetWord(mem[f := EMPTY], at[p], i, e), at[Child(p, i) := f], q) == TreeWalk(mem, at, q)
  {
    var l1, l2, c := L1(q.l4, q.l3, q.l2), L2(q.l4, q.l3), Child(p, i);
    assert c !in at by { FollowLink(mem, root, at, p, i); }
    if l1 in at {
      GrownWord(mem, root, at, p, i, f, e, l1, q.l1);
    } else if l1 == c {
      GrownWord(mem, root, at, p, i, f, e, p, q.l1);
    } else if l2 in at {
      GrownWord(mem, root, at, p, i, f, e, l2, q.l2);
    } else if l2 == c {
      GrownWord(mem, root, at, p, i, f, e, p, q.l2);
    }
  }

  lemma {:induction false} GrownTree(mem: Memory, root: nat, at: map<Pos, nat>, p: Pos, i: nat, f: nat, e: nat)
    requires Tree(mem, root, at) && p in at && !p.L1? && i < 512
    requires !Present(Word(mem, at[p], i))
    requires TableFrame(mem, f) && f !in at.Values && LinkTo(e, f)
    ensures Tree(SetWord(mem[f := EMPTY], at[p], i, e), root, at[Child(p, i) := f])
  {
    var mem' := SetWord(mem[f := EMPTY], at[p], i, e);
    var c := Child(p, i);
    var at' := at[c := f];
    FollowLink(mem, root, at, p, i);
    TreePlaced(mem, root, at);
    GrownPlaced(mem, root, at, p, i, f);
    StoredPlaced(mem[f := EMPTY], root, at', at[p], i, e);
    forall q | q in at' && !q.L1?
      ensures at'[q] in mem' && LinksMatch(mem', at', q)
    {
      if q == c {
        NewTableLinks(mem, root, at, p, i, f, e);
      } else {
        OldTableLinks(mem, root, at, p, i, f, e, q);
      }
    }
  }

  /** The new table links nothing. */
  lemma {:induction false} NewTableLinks(mem: Memory, root: nat, at: map<Pos, nat>, p: Pos, i: nat, f: nat, e: nat)
    requires Tree(mem, root, at) && p in at && !p.L1? && i < 512 && f !in at.Values
    requires Child(p, i) !in at && !Child(p, i).L1?
    ensures var mem' := SetWord(mem[f := EMPTY], at[p], i, e);
            f in mem' && LinksMatch(mem', at[Child(p, i) := f], Child(p, i))
  {
    assert UnfoldTree(0);
    assert at[p] in at.Values;
  }

  /** The other tables link what they did, and the one at p the new one as well. */
  lemma {:induction false} OldTableLinks(mem: Memory, root: nat, at: map<Pos, nat>, p: Pos, i: nat, f: nat, e: nat,
                                         q: Pos)
    requires Tree(mem, root, at) && p in at && !p.L1? && i < 512 && f !in at.Values && LinkTo(e, f)
    requires Child(p, i) !in at && q in at && !q.L1?
    ensures var mem' := SetWord(mem[f := EMPTY], at[p], i, e);
            at[q] in mem' && LinksMatch(mem', at[Child(p, i) := f], q)
  {
    OtherFrame(mem, root, at, q, p);
    assert at[q] in at.Values && at[p] in at.Values;
    var mem', at' := SetWord(mem[f := EMPTY], at[p], i, e), at[Child(p, i) := f];
    forall k | 0 <= k < 512
      ensures (Links(q, mem'[at[q]][k]) <==> Child(q, k) in at')
      ensures Child(q, k) in at' ==> LinkTo(mem'[at[q]][k], at'[Child(q, k)])
    {
      MatchedLink(mem, root, at, q, k);
    }
  }

  /** Writing entry i of the last-level table of p's region changes the walk of that page only. */
  lemma {:induction false} SetSmallEntry(mem: Memory, root: nat, at: map<Pos, nat>, p: Path, e: nat)
    requires Tree(mem, root, at) && p.Valid() && L1(p.l4, p.l3, p.l2) in at
    ensures var mem' := SetWord(mem, at[L1(p.l4, p.l3, p.l2)], p.l1, e);
            Tree(mem', root, at) && WalkFrom(mem', root, p) == SmallLeaf(e)
            && OthersKept(mem, mem', root, p)
  {
    var mem' := SetWord(mem, at[L1(p.l4, p.l3, p.l2)], p.l1, e);
    LeafTree(mem, root, at, p, e);
    forall q: Path | q.Valid()
      ensures WalkFrom(mem', root, q) == if q == p then SmallLeaf(e) else WalkFrom(mem, root, q)
    {
      WalkIsTreeWalk(mem, root, at, q);
      WalkIsTreeWalk(mem', root, at, q);
      LeafWalk(mem, root, at, p, e, q);
    }
  }

  lemma {:induction false} LeafTree(mem: Memory, root: nat, at: map<Pos, nat>, p: Path, e: nat)
    requires Tree(mem, root, at) && p.Valid() && L1(p.l4, p.l3, p.l2) in at
    ensures Tree(SetWord(mem, at[L1(p.l4, p.l3, p.l2)], p.l1, e), root, at)
  {
    assert UnfoldTree(0);
    var mem' := SetWord(mem, at[L1(p.l4, p.l3, p.l2)], p.l1, e);
    forall q | q in at && !q.L1?
      ensures LinksMatch(mem', at, q)
    {
      assert LinksMatch(mem, at, q);
    }
  }

  lemma {:induction false} LeafWalk(mem: Memory, root: nat, at: map<Pos, nat>, p: Path, e: nat, q: Path)
    requires Tree(mem, root, at) && p.Valid() && L1(p.l4, p.l3, p.l2) in at && q.Valid()
    ensures TreeWalk(SetWord(mem, at[L1(p.l4, p.l3, p.l2)], p.l1, e), at, q)
            == if q == p then SmallLeaf(e) else TreeWalk(mem, at, q)
  {
    OtherFrames(mem, root, at, q, L1(p.l4, p.l3, p.l2));
  }

  /** The two tables a walk can end at are not at place r, unless they are the table there. */
  lemma {:induction false} OtherFrames(mem: Memory, root: nat, at: map<Pos, nat>, q: Path, r: Pos)
    requires Tree(mem, root, at) && r in at
    ensures at[r] in mem
    ensures L1(q.l4, q.l3, q.l2) in at && L1(q.l4, q.l3, q.l2) != r ==> at[L1(q.l4, q.l3, q.l2)] != at[r]
    ensures L2(q.l4, q.l3) in at && L2(q.l4, q.l3) != r ==> at[L2(q.l4, q.l3)] != at[r]
  {
    assert UnfoldTree(0);
  }

  predicate SameRegion(p: Path, q: Path) {
    p.l4 == q.l4 && p.l3 == q.l3 && p.l2 == q.l2
  }

  /** Every walk of p's region ends in w; the others are as before. */
  ghost predicate RegionMapped(mem: Memory, mem': Memory, root: nat, p: Path, w: Walk) {
    forall q: Path {:trigger WalkFrom(mem', root, q)} | q.Valid() ::
      WalkFrom(mem', root, q) == if SameRegion(p, q) then w else WalkFrom(mem, root, q)
  }

  /**
   Writing a 2 MiB leaf into the page directory maps the whole region and changes no
   walk outside it; a last-level table that was linked there leaves the tree.
   */
  lemma {:induction false} SetLargeEntry(mem: Memory, root: nat, at: map<Pos, nat>, p: Path, e: nat)
    requires Tree(mem, root, at) && p.Valid() && L2(p.l4, p.l3) in at
    requires Present(e) && PageSize(e)
    ensures var t := at[L2(p.l4, p.l3)];
            var mem' := SetWord(mem, t, p.l2, e);
            Tree(mem', root, at - {L1(p.l4, p.l3, p.l2)})
            && RegionMapped(mem, mem', root, p, LargeLeaf(e))
  {
    assert UnfoldTree(0);
    ReplacedTree(mem, root, at, p, e);
    var t := at[L2(p.l4, p.l3)];
    var mem' := SetWord(mem, t, p.l2, e);
    var at' := at - {L1(p.l4, p.l3, p.l2)};
    forall q: Path | q.Valid()
      ensures WalkFrom(mem', root, q) == if SameRegion(p, q) then LargeLeaf(e) else WalkFrom(mem, root, q)
    {
      WalkIsTreeWalk(mem, root, at, q);
      WalkIsTreeWalk(mem', root, at', q);
      ReplacedWalk(mem, root, at, p, e, q);
    }
  }

  lemma {:induction false} ReplacedTree(mem: Memory, root: nat, at: map<Pos, nat>, p: Path, e: nat)
    requires Tree(mem, root, at) && p.Valid() && L2(p.l4, p.l3) in at
    requires Present(e) && PageSize(e)
    ensures var t := at[L2(p.l4, p.l3)];
            Tree(SetWord(mem, t, p.l2, e), root, at - {L1(p.l4, p.l3, p.l2)})
  {
    var t := at[L2(p.l4, p.l3)];
    var mem' := SetWord(mem, t, p.l2, e);
    var at' := at - {L1(p.l4, p.l3, p.l2)};
    TreePlaced(mem, root, at);
    StoredPlaced(mem, root, at, t, p.l2, e);
    PrunedPlaced(mem', root, at, L1(p.l4, p.l3, p.l2));
    forall q | q in at' && !q.L1?
      ensures at'[q] in mem' && LinksMatch(mem', at', q)
    {
      ReplacedLinks(mem, root, at, p, e, q);
    }
  }

  lemma {:induction false} TreePlaced(mem: Memory, root: nat, at: map<Pos, nat>)
    requires Tree(mem, root, at)
    ensures Placed(mem, root, at)
  {
    assert UnfoldTree(0);
  }

  lemma {:induction false} StoredPlaced(mem: Memory, root: nat, at: map<Pos, nat>, t: nat, i: nat, e: nat)
    requires Placed(mem, root, at) && i < 512
    ensures Placed(SetWord(mem, t, i, e), root, at)
  {
  }

  lemma {:induction false} PrunedPlaced(mem: Memory, root: nat, at: map<Pos, nat>, c: Pos)
    requires Placed(mem, root, at) && c.L1?
    ensures Placed(mem, root, at - {c})
  {
  }

  lemma {:induction false} GrownPlaced(mem: Memory, root: nat, at: map<Pos, nat>, p: Pos, i: nat, f: nat)
    requires Placed(mem, root, at) && p in at && !p.L1? && i < 512 && TableFrame(mem, f) && f !in at.Values
    requires Child(p, i) !in at
    ensures Placed(mem[f := EMPTY], root, at[Child(p, i) := f])
  {
    assert forall q | q in at :: at[q] in at.Values;
  }

  lemma {:induction false} ReplacedLinks(mem: Memory, root: nat, at: map<Pos, nat>, p: Path, e: nat, q: Pos)
    requires Tree(mem, root, at) && p.Valid() && L2(p.l4, p.l3) in at && q in at && !q.L1?
    requires Present(e) && PageSize(e)
    ensures var mem' := SetWord(mem, at[L2(p.l4, p.l3)], p.l2, e);
            at[q] in mem' && LinksMatch(mem', at - {L1(p.l4, p.l3, p.l2)}, q)
  {
    RootAndParents(mem, root, at, p);
    OtherFrame(mem, root, at, q, L2(p.l4, p.l3));
    var mem' := SetWord(mem, at[L2(p.l4, p.l3)], p.l2, e);
    forall i | 0 <= i < 512
      ensures (Links(q, mem'[at[q]][i]) <==> Child(q, i) in at && Child(q, i) != L1(p.l4, p.l3, p.l2))
      ensures Child(q, i) in at && Child(q, i) != L1(p.l4, p.l3, p.l2) ==> LinkTo(mem'[at[q]][i], at[Child(q, i)])
    {
      MatchedLink(mem, root, at, q, i);
    }
  }

  /** Different places have different frames, all in memory. */
  lemma {:induction false} OtherFrame(mem: Memory, root: nat, at: map<Pos, nat>, q: Pos, r: Pos)
    requires Tree(mem, root, at) && q in at && r in at
    ensures at[q] in mem && at[r] in mem && (q != r ==> at[q] != at[r])
  {
    assert UnfoldTree(0);
  }

  lemma {:induction false} MatchedLink(mem: Memory, root: nat, at: map<Pos, nat>, q: Pos, i: nat)
    requires Tree(mem, root, at) && q in at && !q.L1? && i < 512
    ensures at[q] in mem && (Links(q, mem[at[q]][i]) <==> Child(q, i) in at)
    ensures Child(q, i) in at ==> LinkTo(mem[at[q]][i], at[Child(q, i)])
  {
    assert UnfoldTree(0);
    assert LinksMatch(mem, at, q);
  }

  lemma {:induction false} ReplacedWalk(mem: Memory, root: nat, at: map<Pos, nat>, p: Path, e: nat, q: Path)
    requires Tree(mem, root, at) && p.Valid() && L2(p.l4, p.l3) in at && q.Valid()
    requires Present(e) && PageSize(e)
    ensures var t := at[L2(p.l4, p.l3)];
            TreeWalk(SetWord(mem, t, p.l2, e), at - {L1(p.l4, p.l3, p.l2)}, q)
            == if SameRegion(p, q) then LargeLeaf(e) else TreeWalk(mem, at, q)
  {
    OtherFrames(mem, root, at, q, L2(p.l4, p.l3));
  }

  /** Writing a word outside the tables changes no walk. */
  lemma {:induction false} SetForeignWord(mem: Memory, root: nat, at: map<Pos, nat>, f: nat, i: nat, e: nat)
    requires Tree(mem, root, at) && f !in at.Values && i < 512
    ensures var mem' := SetWord(mem, f, i, e);
            Tree(mem', root, at) && SameWalks(mem, mem', root)
  {
    assert UnfoldTree(0);
    var mem' := SetWord(mem, f, i, e);
    forall q | q in at
      ensures at[q] != f && (!q.L1? ==> LinksMatch(mem', at, q))
    {
      assert at[q] in at.Values;
      if !q.L1? { assert LinksMatch(mem, at, q); }
    }
    assert Tree(mem', root, at);
    forall q: Path | q.Valid()
      ensures WalkFrom(mem', root, q) == WalkFrom(mem, root, q)
    {
      WalkIsTreeWalk(mem, root, at, q);
      WalkIsTreeWalk(mem', root, at, q);
    }
  }
}
