/**
 paging_init: the kernel image mapped page by page, then all physical memory
 mapped at the higher-half direct map offset in 2 MiB pages.
 */
module PagingBoot {
  import opened Bits
  import opened Cardinality
  import opened PageTables
  import opened FrameAllocation
  import opened Paging

  const HIGHER_HALF: nat := 0xffff_8000_0000_0000

  /** The linear addresses the processor accepts. */
  predicate Canonical(v: nat) {
    v < 0x8000_0000_0000 || HIGHER_HALF <= v < WORD64
  }

  function RoundUp4K(x: nat): nat { x + 0xfff - (x + 0xfff) % 0x1000 }
  function RoundUp2M(x: nat): nat { x + 0x1f_ffff - (x + 0x1f_ffff) % 0x20_0000 }

  /** The kernel's linear range and where the boot loader put it. */
  datatype Kernel = Kernel(start: nat, end: nat, vbase: nat, pbase: nat)

  /** The highest end address in the memory map. */
  function Top(entries: seq<MemmapEntry>): nat {
    if entries == [] then 0
    else
      var rest := Top(entries[..|entries| - 1]);
      if entries[|entries| - 1].End() > rest then entries[|entries| - 1].End() else rest
  }

  lemma {:induction false} TopBounds(entries: seq<MemmapEntry>, k: nat)
    requires k < |entries|
    ensures entries[k].End() <= Top(entries)
  {
    if k < |entries| - 1 {
      assert entries[..|entries| - 1][k] == entries[k];
      TopBounds(entries[..|entries| - 1], k);
    }
  }

  /** The top is no higher than some entry reaches. */
  lemma {:induction false} TopIsAnEnd(entries: seq<MemmapEntry>)
    ensures entries == [] ==> Top(entries) == 0
    ensures Top(entries) == 0 || exists k :: 0 <= k < |entries| && entries[k].End() == Top(entries)
  {
    if entries != [] {
      var n := |entries| - 1;
      TopIsAnEnd(entries[..n]);
      if Top(entries) == entries[n].End() {
        assert entries[n].End() == Top(entries);
      } else if Top(entries) != 0 {
        var k :| 0 <= k < n && entries[..n][k].End() == Top(entries[..n]);
        assert entries[k].End() == Top(entries);
      }
    }
  }

  /** Rounding up gives the least multiple from x on. */
  lemma {:induction false} RoundUpIsLeast(x: nat)
    ensures RoundUp2M(x) % 0x20_0000 == 0 && x <= RoundUp2M(x) < x + 0x20_0000
    ensures RoundUp4K(x) % 0x1000 == 0 && x <= RoundUp4K(x) < x + 0x1000
  {
    var y, z := x + 0x1f_ffff, x + 0xfff;
    QuotientUnique(y - y % 0x20_0000, 0x20_0000, y / 0x20_0000, 0);
    QuotientUnique(z - z % 0x1000, 0x1000, z / 0x1000, 0);
  }

  /** Page-aligned higher-half kernel; 2 MiB-aligned higher-half window of `size` bytes; the two do not meet. */
  ghost predicate Layout(k: Kernel, offset: nat, size: nat) {
    forall n: nat | UnfoldLayout(n) :: Apart(k, offset, size)
  }

  /** A proof that mentions UnfoldLayout(n) may look inside a layout. */
  predicate UnfoldLayout(n: nat) { true }

  predicate Apart(k: Kernel, offset: nat, size: nat) {
    k.start % 0x1000 == 0 && k.vbase % 0x1000 == 0 && k.pbase % 0x1000 == 0
    && HIGHER_HALF <= k.start <= k.end && k.end + PAGE <= WORD64
    && k.vbase <= k.start && k.end - k.vbase + k.pbase + PAGE <= MAXPHYS
    && offset % 0x20_0000 == 0 && size % 0x20_0000 == 0
    && HIGHER_HALF <= offset && offset + size <= WORD64 && size <= MAXPHYS
    && (offset + size <= k.start || RoundUp4K(k.end) <= offset)
  }

  /** hi is the end of the last kernel page. */
  ghost predicate KernelTop(k: Kernel, hi: nat) {
    forall n: nat | UnfoldLayout(n) :: hi == RoundUp4K(k.end)
  }

  /** The physical address of a kernel address: v - virtual_base + physical_base. */
  function Loaded(k: Kernel, v: nat): nat {
    if k.vbase <= v then v - k.vbase + k.pbase else 0
  }

  /** Where a linear address goes once the kernel is mapped up to `hi` and the window holds `size` bytes. */
  function Expected(k: Kernel, hi: nat, offset: nat, size: nat, v: nat): Translation {
    if k.start <= v < hi then Mapped(Loaded(k, v), true, 0x3)
    else if offset <= v < offset + size then Mapped(v - offset, true, 0x83)
    else NotMapped
  }

  /** Every canonical address goes where it should, and nothing else is mapped. */
  ghost predicate LaidOut(mem: Memory, root: nat, k: Kernel, hi: nat, offset: nat, size: nat) {
    forall v: nat {:trigger GoesTo(mem, root, k, hi, offset, size, v)} | Canonical(v) ::
      GoesTo(mem, root, k, hi, offset, size, v)
  }

  ghost predicate GoesTo(mem: Memory, root: nat, k: Kernel, hi: nat, offset: nat, size: nat, v: nat) {
    Translate(mem, root, v) == Expected(k, hi, offset, size, v)
  }

  /** A page number put together from its four table indices. */
  function PageNumber(p: Path): nat {
    ((p.l4 * 512 + p.l3) * 512 + p.l2) * 512 + p.l1
  }

  /** The four indices are the low 36 bits of the page number. */
  lemma {:induction false} PathIsPageNumber(v: nat)
    ensures PageNumber(PathOf(v)) == v / 0x1000 % 0x10_0000_0000
  {
    var n := v / 0x1000;
    assert v / 0x20_0000 == n / 512;
    assert v / 0x4000_0000 == n / 512 / 512;
    assert v / 0x80_0000_0000 == n / 512 / 512 / 512;
    PageDigits(n);
  }

  lemma {:induction false} PageDigits(n: nat)
    ensures ((n / 512 / 512 / 512 % 512 * 512 + n / 512 / 512 % 512) * 512 + n / 512 % 512) * 512 + n % 512
            == n % 0x10_0000_0000
  {
    var a := n / 512;
    var b := a / 512;
    TwoDigits(b, 512);
    TwoDigits(a, 0x4_0000);
    TwoDigits(n, 0x800_0000);
  }

  lemma {:induction false} TwoDigits(n: nat, m: nat)
    requires m > 0
    ensures n / 512 % m * 512 + n % 512 == n % (512 * m)
  {
    var q := n / 512;
    assert q == m * (q / m) + q % m;
    assert n == 512 * q + n % 512;
    assert n == (512 * m) * (q / m) + (512 * (q % m) + n % 512);
    QuotientUnique(n, 512 * m, q / m, 512 * (q % m) + n % 512);
  }

  lemma {:induction false} PageNumberInjective(p: Path, q: Path)
    requires p.Valid() && q.Valid()
    ensures PageNumber(p) == PageNumber(q) ==> p == q
    ensures PageNumber(p) / 512 == PageNumber(q) / 512 <==> SameRegion(p, q)
  {
    var p3, q3 := p.l4 * 512 + p.l3, q.l4 * 512 + q.l3;
    var p2, q2 := p3 * 512 + p.l2, q3 * 512 + q.l2;
    LastDigit(p.l4, p.l3, q.l4, q.l3);
    LastDigit(p3, p.l2, q3, q.l2);
    LastDigit(p2, p.l1, q2, q.l1);
  }

  lemma {:induction false} LastDigit(a: nat, b: nat, c: nat, d: nat)
    requires b < 512 && d < 512
    ensures (a * 512 + b) / 512 == a && (c * 512 + d) / 512 == c
    ensures a * 512 + b == c * 512 + d <==> a == c && b == d
  {
    QuotientUnique(a * 512 + b, 512, a, b);
    QuotientUnique(c * 512 + d, 512, c, d);
  }

  /** Among canonical addresses the dropped upper bits carry no information. */
  lemma {:induction false} CanonicalPages(v: nat, w: nat)
    requires Canonical(v) && Canonical(w)
    ensures v / 0x1000 % 0x10_0000_0000 == w / 0x1000 % 0x10_0000_0000 ==> v / 0x1000 == w / 0x1000
    ensures v / 0x1000 % 0x10_0000_0000 / 512 == w / 0x1000 % 0x10_0000_0000 / 512 <==> v / 0x20_0000 == w / 0x20_0000
  {
    CanonicalPage(v);
    CanonicalPage(w);
  }

  lemma {:induction false} CanonicalPage(v: nat)
    requires Canonical(v)
    ensures v / 0x1000 % 0x10_0000_0000 == v / 0x1000 - if v < HIGHER_HALF then 0 else 0xf_fff0_0000_0000
    ensures v / 0x1000 / 512 == v / 0x20_0000
    ensures v < HIGHER_HALF ==> v / 0x1000 < 0x8_0000_0000
    ensures v >= HIGHER_HALF ==> v / 0x1000 >= 0xf_fff8_0000_0000
  {
  }

  lemma {:induction false} SamePage(v: nat, w: nat)
    requires Canonical(v) && Canonical(w) && w % 0x1000 == 0
    ensures PathOf(v) == PathOf(w) <==> w <= v < w + PAGE
  {
    PathIsPageNumber(v);
    PathIsPageNumber(w);
    PageNumberInjective(PathOf(v), PathOf(w));
    CanonicalPages(v, w);
    assert v / 0x1000 == w / 0x1000 <==> w <= v < w + PAGE;
  }

  lemma {:induction false} SameLargePage(v: nat, w: nat)
    requires Canonical(v) && Canonical(w) && w % 0x20_0000 == 0
    ensures SameRegion(PathOf(w), PathOf(v)) <==> w <= v < w + LARGE
  {
    PathIsPageNumber(v);
    PathIsPageNumber(w);
    PageNumberInjective(PathOf(w), PathOf(v));
    CanonicalPages(w, v);
    assert v / 0x20_0000 == w / 0x20_0000 <==> w <= v < w + LARGE;
  }

  /** One more kernel page. */
  lemma {:induction false} KernelStep(mem: Memory, mem': Memory, root: nat, k: Kernel, p: nat, offset: nat, size: nat)
    requires Layout(k, offset, size) && KernelAt(k, p) && p < k.end
    requires LaidOut(mem, root, k, p, offset, 0)
    requires OthersKept(mem, mem', root, PathOf(p))
    requires LeadsTo(WalkFrom(mem', root, PathOf(p)), Frame(Loaded(k, p)), PAGE)
    requires WalkFrom(mem', root, PathOf(p)).entry % 0x1000 == 0x3
    ensures LaidOut(mem', root, k, p + PAGE, offset, 0)
  {
    assert UnfoldLayout(0);
    KernelFrame(k, p);
    forall v: nat | Canonical(v)
      ensures GoesTo(mem', root, k, p + PAGE, offset, 0, v)
    {
      assert GoesTo(mem, root, k, p, offset, 0, v);
      SamePage(v, p);
      KernelByte(WalkFrom(mem, root, PathOf(v)), WalkFrom(mem', root, PathOf(v)), k, p, offset, v);
    }
  }

  lemma {:induction false} KernelAligned(k: Kernel, offset: nat, size: nat, p: nat)
    requires Layout(k, offset, size) && KernelAt(k, p)
    ensures Loaded(k, p) % 0x1000 == 0
  {
    assert UnfoldLayout(0);
    QuotientUnique(Loaded(k, p), 0x1000, p / 0x1000 - k.vbase / 0x1000 + k.pbase / 0x1000, 0);
  }

  /** The physical address of a kernel page is a frame. */
  lemma {:induction false} KernelFrame(k: Kernel, p: nat)
    requires p % 0x1000 == 0 && k.vbase % 0x1000 == 0 && k.pbase % 0x1000 == 0
    requires k.vbase <= p && p - k.vbase + k.pbase < MAXPHYS
    ensures Frame(Loaded(k, p)) == Loaded(k, p)
  {
    WholeFrame(p / 0x1000 - k.vbase / 0x1000 + k.pbase / 0x1000, Loaded(k, p));
  }

  lemma {:induction false} WholeFrame(q: int, a: nat)
    requires a == 0x1000 * q && a < MAXPHYS
    ensures Frame(a) == a
  {
    QuotientUnique(a, 0x1000, q, 0);
  }

  /** p is a value of the kernel loop's counter. */
  ghost predicate KernelAt(k: Kernel, p: nat) {
    forall n: nat | UnfoldLayout(n) :: k.start <= p && p % 0x1000 == 0 && p < k.end + PAGE
  }

  lemma {:induction false} KernelLoop(k: Kernel, offset: nat, size: nat, p: nat)
    requires Layout(k, offset, size)
    ensures KernelAt(k, k.start)
    ensures KernelAt(k, p) && p < k.end ==> KernelAt(k, p + PAGE) && KernelAddress(k, p) == Loaded(k, p)
    ensures KernelAt(k, p) && k.end <= p ==> KernelTop(k, p)
  {
    assert UnfoldLayout(0);
    if KernelAt(k, p) {
      NextPage(p, k.end);
    }
  }

  lemma {:induction false} NextPage(p: nat, end: nat)
    requires p % 0x1000 == 0
    ensures (p + PAGE) % 0x1000 == 0
    ensures end <= p < end + PAGE ==> p == RoundUp4K(end)
  {
    QuotientUnique(p + PAGE, 0x1000, p / 0x1000 + 1, 0);
    if end <= p < end + PAGE {
      QuotientUnique(end + 0xfff, 0x1000, p / 0x1000, end + 0xfff - p);
    }
  }

  lemma {:induction false} KernelByte(w: Walk, w': Walk, k: Kernel, p: nat, offset: nat, v: nat)
    requires k.vbase <= k.start <= p && p % 0x1000 == 0
    requires ByteOf(w, v) == Expected(k, p, offset, 0, v)
    requires if p <= v < p + PAGE then LeadsTo(w', Loaded(k, p), PAGE) && w'.entry % 0x1000 == 0x3 else w' == w
    ensures ByteOf(w', v) == Expected(k, p + PAGE, offset, 0, v)
  {
    OffsetInPage(v, p);
  }

  lemma {:induction false} OffsetInPage(v: nat, w: nat)
    ensures w % 0x1000 == 0 && w <= v < w + PAGE ==> v % 0x1000 == v - w
  {
    if w % 0x1000 == 0 && w <= v < w + PAGE {
      QuotientUnique(v, 0x1000, w / 0x1000, v - w);
    }
  }

  lemma {:induction false} OffsetInLargePage(v: nat, w: nat)
    ensures w % 0x20_0000 == 0 && w <= v < w + LARGE ==> v % 0x20_0000 == v - w
  {
    if w % 0x20_0000 == 0 && w <= v < w + LARGE {
      QuotientUnique(v, 0x20_0000, w / 0x20_0000, v - w);
    }
  }

  /** p is a value of the direct-map loop's counter. */
  ghost predicate WindowAt(p: nat, limit: nat) {
    forall n: nat | UnfoldLayout(n) :: p % 0x20_0000 == 0 && p <= limit && limit % 0x20_0000 == 0
  }

  lemma {:induction false} WindowLoop(k: Kernel, offset: nat, size: nat, p: nat)
    requires Layout(k, offset, size)
    ensures WindowAt(0, size)
    ensures WindowAt(p, size) && p < size ==> WindowAt(p + LARGE, size)
    ensures WindowAt(p, size) && p >= size ==> p == size
  {
    assert UnfoldLayout(0);
    if WindowAt(p, size) {
      NextLargePage(p, size);
    }
  }

  lemma {:induction false} NextLargePage(p: nat, limit: nat)
    requires p % 0x20_0000 == 0 && limit % 0x20_0000 == 0
    ensures (p + LARGE) % 0x20_0000 == 0
    ensures p < limit ==> p + LARGE <= limit
  {
    QuotientUnique(p + LARGE, 0x20_0000, p / 0x20_0000 + 1, 0);
  }

  /** One more 2 MiB page of the direct map. */
  lemma {:induction false} WindowStep(mem: Memory, mem': Memory, root: nat, k: Kernel, hi: nat, offset: nat, size: nat,
                                      p: nat)
    requires Layout(k, offset, size) && KernelTop(k, hi) && WindowAt(p, size) && p < size
    requires LaidOut(mem, root, k, hi, offset, p)
    requires RegionMapped(mem, mem', root, PathOf(p + offset), PlainLeaf(p))
    ensures LaidOut(mem', root, k, hi, offset, p + LARGE)
  {
    assert UnfoldLayout(0);
    WindowFits(offset, p, size);
    forall v: nat | Canonical(v)
      ensures GoesTo(mem', root, k, hi, offset, p + LARGE, v)
    {
      assert GoesTo(mem, root, k, hi, offset, p, v);
      SameLargePage(v, p + offset);
      WindowByte(WalkFrom(mem, root, PathOf(v)), WalkFrom(mem', root, PathOf(v)), k, hi, offset, p, v);
    }
  }

  lemma {:induction false} WindowFits(offset: nat, p: nat, size: nat)
    requires p % 0x20_0000 == 0 && offset % 0x20_0000 == 0 && size % 0x20_0000 == 0 && p < size
    ensures (p + offset) % 0x20_0000 == 0 && p + LARGE <= size
  {
    QuotientUnique(p + offset, 0x20_0000, p / 0x20_0000 + offset / 0x20_0000, 0);
    NextLargePage(p, size);
  }

  lemma {:induction false} WindowByte(w: Walk, w': Walk, k: Kernel, hi: nat, offset: nat, p: nat, v: nat)
    requires k.vbase <= k.start && (p + offset) % 0x20_0000 == 0 && p % 0x20_0000 == 0
    requires offset + p + LARGE <= k.start || hi <= offset
    requires ByteOf(w, v) == Expected(k, hi, offset, p, v)
    requires w' == if p + offset <= v < p + offset + LARGE then PlainLeaf(p) else w
    ensures ByteOf(w', v) == Expected(k, hi, offset, p + LARGE, v)
  {
    OffsetInLargePage(v, p + offset);
    PlainOffsets(p);
  }

  function RegionBase(a: nat): nat { a - a % 0x20_0000 }

  /** The direct map of `size` bytes at `offset` consists of plain 2 MiB pages; folded. */
  ghost predicate WindowPages(mem: Memory, root: nat, offset: nat, size: nat) {
    forall n: nat | UnfoldLayout(n) :: forall a: nat | a < size :: WindowPage(mem, root, offset, a)
  }

  /** Byte a of the direct map is in a plain 2 MiB page. */
  ghost predicate WindowPage(mem: Memory, root: nat, offset: nat, a: nat) {
    WalkFrom(mem, root, PathOf(a + offset)) == PlainLeaf(RegionBase(a))
  }

  lemma {:induction false} WindowPagesStep(mem: Memory, mem': Memory, root: nat, k: Kernel, offset: nat, size: nat,
                                           p: nat)
    requires Layout(k, offset, size) && WindowAt(p, size) && p < size
    requires WindowPages(mem, root, offset, p) && RegionMapped(mem, mem', root, PathOf(p + offset), PlainLeaf(p))
    ensures WindowPages(mem', root, offset, p + LARGE)
  {
    assert UnfoldLayout(0);
    WindowFits(offset, p, size);
    forall a: nat | a < p + LARGE
      ensures WindowPage(mem', root, offset, a)
    {
      assert a < p ==> WindowPage(mem, root, offset, a);
      WindowPageStep(mem, mem', root, offset, p, a);
    }
  }

  lemma {:induction false} WindowPageStep(mem: Memory, mem': Memory, root: nat, offset: nat, p: nat, a: nat)
    requires Canonical(a + offset) && Canonical(p + offset) && (p + offset) % 0x20_0000 == 0 && p % 0x20_0000 == 0
    requires RegionMapped(mem, mem', root, PathOf(p + offset), PlainLeaf(p)) && a < p + LARGE
    requires a < p ==> WindowPage(mem, root, offset, a)
    ensures WindowPage(mem', root, offset, a)
  {
    SameLargePage(a + offset, p + offset);
    InRegion(a, p);
  }

  lemma {:induction false} InRegion(a: nat, p: nat)
    requires p % 0x20_0000 == 0
    ensures p <= a < p + LARGE ==> RegionBase(a) == p
  {
    OffsetInLargePage(a, p);
  }

  /** The tables the layout needs, as places in the tree. */
  ghost predicate Covers(needed: set<Pos>, k: Kernel, offset: nat, size: nat) {
    L4 in needed
    && (forall v {:trigger HasTables(needed, PathOf(v))} | k.start <= v < k.end :: HasTables(needed, PathOf(v)))
    && (forall v {:trigger HasDirectories(needed, PathOf(v))} | offset <= v < offset + size ::
          HasDirectories(needed, PathOf(v)))
  }

  predicate HasTables(needed: set<Pos>, p: Path) {
    HasDirectories(needed, p) && L1(p.l4, p.l3, p.l2) in needed
  }

  predicate HasDirectories(needed: set<Pos>, p: Path) {
    L3(p.l4) in needed && L2(p.l4, p.l3) in needed
  }

  ghost predicate NoLastLevel(needed: set<Pos>) {
    forall c | c in needed :: !c.L1?
  }

  ghost function Directories(needed: set<Pos>): (d: set<Pos>)
    ensures NoLastLevel(d) && d <= needed
  {
    set c | c in needed && !c.L1?
  }

  /** The directories of the window, and no last-level table. */
  ghost predicate CoversWindow(needed: set<Pos>, offset: nat, size: nat) {
    forall n: nat | UnfoldLayout(n) ::
      && NoLastLevel(needed)
      && forall v {:trigger HasDirectories(needed, PathOf(v))} | offset <= v < offset + size ::
           HasDirectories(needed, PathOf(v))
  }

  lemma {:induction false} WindowCovered(needed: set<Pos>, k: Kernel, offset: nat, size: nat)
    requires Covers(needed, k, offset, size)
    ensures CoversWindow(Directories(needed), offset, size)
  {
    forall v: nat {:trigger HasDirectories(Directories(needed), PathOf(v))} | offset <= v < offset + size
      ensures HasDirectories(Directories(needed), PathOf(v))
    {
      assert HasDirectories(needed, PathOf(v));
    }
  }

  lemma {:induction false} WindowPageCovered(needed: set<Pos>, offset: nat, size: nat, p: nat)
    requires CoversWindow(needed, offset, size) && p < size
    ensures HasDirectories(needed, PathOf(p + offset)) && NoLastLevel(needed)
  {
    assert UnfoldLayout(0);
  }

  lemma {:induction false} OneFewer(needed: set<Pos>, keys: set<Pos>, c: Pos)
    requires c in needed
    ensures |needed - (keys + {c})| == |needed - keys| - if c in keys then 0 else 1
  {
    if c in keys {
      assert keys + {c} == keys;
    } else {
      assert needed - keys == needed - (keys + {c}) + {c};
    }
  }

  lemma {:induction false} MissingTables(needed: set<Pos>, keys: set<Pos>, p: Path)
    requires HasTables(needed, p)
    ensures |needed - (keys + {L3(p.l4), L2(p.l4, p.l3), L1(p.l4, p.l3, p.l2)})|
            == |needed - keys| - Missing(keys, p)
  {
    MissingDirectories(needed, keys, p);
    var keys' := keys + {L3(p.l4), L2(p.l4, p.l3)};
    OneFewer(needed, keys', L1(p.l4, p.l3, p.l2));
    assert keys' + {L1(p.l4, p.l3, p.l2)} == keys + {L3(p.l4), L2(p.l4, p.l3), L1(p.l4, p.l3, p.l2)};
  }

  lemma {:induction false} MissingDirectories(needed: set<Pos>, keys: set<Pos>, p: Path)
    requires HasDirectories(needed, p)
    ensures |needed - (keys + {L3(p.l4), L2(p.l4, p.l3)})| == |needed - keys| - DirectoryMissing(keys, p)
  {
    OneFewer(needed, keys, L3(p.l4));
    OneFewer(needed, keys + {L3(p.l4)}, L2(p.l4, p.l3));
    assert keys + {L3(p.l4)} + {L2(p.l4, p.l3)} == keys + {L3(p.l4), L2(p.l4, p.l3)};
  }

  lemma {:induction false} DirectoriesLeft(needed: set<Pos>, keys: set<Pos>, p: Path)
    requires HasDirectories(needed, p) && NoLastLevel(needed)
    ensures |needed - (keys + {L3(p.l4), L2(p.l4, p.l3)} - {L1(p.l4, p.l3, p.l2)})|
            == |needed - keys| - DirectoryMissing(keys, p)
  {
    MissingDirectories(needed, keys, p);
    assert needed - (keys + {L3(p.l4), L2(p.l4, p.l3)} - {L1(p.l4, p.l3, p.l2)})
           == needed - (keys + {L3(p.l4), L2(p.l4, p.l3)});
  }

  /** Both views of the direct map after one more page. */
  lemma {:induction false} WindowGrows(mem: Memory, mem': Memory, root: nat, k: Kernel, hi: nat, offset: nat, size: nat,
                                       p: nat)
    requires Layout(k, offset, size) && KernelTop(k, hi) && WindowAt(p, size) && p < size
    requires LaidOut(mem, root, k, hi, offset, p) && WindowPages(mem, root, offset, p)
    requires RegionMapped(mem, mem', root, PathOf(p + offset), PlainLeaf(p))
    ensures LaidOut(mem', root, k, hi, offset, p + LARGE) && WindowPages(mem', root, offset, p + LARGE)
  {
    WindowPagesStep(mem, mem', root, k, offset, size, p);
    WindowStep(mem, mem', root, k, hi, offset, size, p);
  }

  /** One iteration of the kernel loop. */
  method MapKernelPage(pager: Pager, k: Kernel, p: nat, paddr: nat, ghost offset: nat, ghost size: nat,
                       ghost needed: set<Pos>, ghost extra: nat, ghost mem0: Memory, ghost at0: map<Pos, nat>,
                       ghost avail0: set<nat>)
    returns (next: nat)
    requires pager.Valid() && Layout(k, offset, size) && Covers(needed, k, offset, size)
    requires KernelAt(k, p) && p < k.end && paddr == Loaded(k, p)
    requires pager.pfa.Supply() >= |needed - pager.at.Keys| + extra
    requires LaidOut(pager.mem, pager.pml4, k, p, offset, 0)
    requires DataKept(mem0, pager.mem, at0, pager.at, avail0, pager.pfa.Available())
    modifies pager`mem, pager`at, pager.pfa, pager.pfa.bitmap, pager.pfa.preFrames
    ensures next == p + PAGE && KernelAt(k, next) && pager.Valid() && LaidOut(pager.mem, pager.pml4, k, next, offset, 0)
    ensures pager.pfa.Supply() >= |needed - pager.at.Keys| + extra
    ensures DataKept(mem0, pager.mem, at0, pager.at, avail0, pager.pfa.Available())
  {
    next := p + PAGE;
    KernelLoop(k, offset, size, p);
    ghost var before, atMid, availMid := pager.mem, pager.at, pager.pfa.Available();
    pager.HasTree();
    NotLargeWhenUnmapped(pager.mem, pager.pml4, pager.at, k, p, offset, size);
    KernelPageCovered(needed, k, offset, size, p);
    MissingTables(needed, pager.at.Keys, PathOf(p));
    KernelAligned(k, offset, size, p);
    PlainSmallWord(paddr);
    pager.MapPage(paddr, p, 0);
    KernelStep(before, pager.mem, pager.pml4, k, p, offset, size);
    DataKeptTransitive(mem0, before, pager.mem, at0, atMid, pager.at, avail0, availMid, pager.pfa.Available());
  }

  /** p - virtual_base + physical_base in 64-bit arithmetic does not wrap for a kernel page. */
  function KernelAddress(k: Kernel, p: nat): nat {
    (p - k.vbase + k.pbase) % 0x1_0000_0000_0000_0000
  }

  method MapKernel(pager: Pager, k: Kernel, ghost offset: nat, ghost size: nat, ghost needed: set<Pos>,
                   ghost extra: nat)
    returns (ghost hi: nat)
    requires pager.Valid() && Layout(k, offset, size) && Covers(needed, k, offset, size)
    requires pager.pfa.Supply() >= |needed - pager.at.Keys| + extra
    requires LaidOut(pager.mem, pager.pml4, k, k.start, offset, 0)
    modifies pager`mem, pager`at, pager.pfa, pager.pfa.bitmap, pager.pfa.preFrames
    ensures pager.Valid() && LaidOut(pager.mem, pager.pml4, k, hi, offset, 0) && KernelTop(k, hi)
    ensures pager.pfa.Supply() >= |needed - pager.at.Keys| + extra
    ensures DataKept(old(pager.mem), pager.mem, old(pager.at), pager.at, old(pager.pfa.Available()),
                     pager.pfa.Available())
  {
    var p: nat := k.start;
    KernelLoop(k, offset, size, p);
    ghost var mem0, at0, avail0 := pager.mem, pager.at, pager.pfa.Available();
    DataKeptAtFirst(mem0, at0, avail0);
    while p < k.end
      invariant KernelAt(k, p) && pager.Valid() && pager.pfa.Supply() >= |needed - pager.at.Keys| + extra
      invariant LaidOut(pager.mem, pager.pml4, k, p, offset, 0)
      invariant DataKept(mem0, pager.mem, at0, pager.at, avail0, pager.pfa.Available())
      decreases k.end - p
    {
      KernelLoop(k, offset, size, p);
      p := MapKernelPage(pager, k, p, KernelAddress(k, p), offset, size, needed, extra, mem0, at0, avail0);
    }
    KernelLoop(k, offset, size, p);
    hi := p;
  }

  lemma {:induction false} KernelPageCovered(needed: set<Pos>, k: Kernel, offset: nat, size: nat, p: nat)
    requires Covers(needed, k, offset, size) && KernelAt(k, p) && p < k.end
    ensures HasTables(needed, PathOf(p))
  {
    assert UnfoldLayout(0);
  }

  lemma {:induction false} WindowPageFrame(k: Kernel, offset: nat, size: nat, p: nat)
    requires Layout(k, offset, size) && WindowAt(p, size) && p < size
    ensures PlainTarget(p)
  {
    assert UnfoldLayout(0);
    assert p % 0x20_0000 == 0 && p < MAXPHYS;
    LargeTargetPlain(p);
  }

  lemma {:induction false} NotLargeWhenUnmapped(mem: Memory, root: nat, at: map<Pos, nat>, k: Kernel, p: nat,
                                                offset: nat, size: nat)
    requires Tree(mem, root, at) && Layout(k, offset, size) && KernelAt(k, p) && p < k.end
    requires LaidOut(mem, root, k, p, offset, 0)
    ensures !LargeMapped(mem, at, PathOf(p))
  {
    assert UnfoldLayout(0);
    LargeWalk(mem, root, at, PathOf(p));
    assert GoesTo(mem, root, k, p, offset, 0, p);
  }

  /** map_page_2m as the direct map uses it: an aligned address and no flags. */
  method MapDirect(pager: Pager, paddr: nat, vaddr: nat)
    requires pager.Valid() && pager.pfa.Supply() >= DirectoryMissing(pager.at.Keys, PathOf(vaddr))
    requires PlainTarget(paddr)
    modifies pager`mem, pager`at, pager.pfa, pager.pfa.bitmap, pager.pfa.preFrames
    ensures pager.Valid()
    ensures RegionMapped(old(pager.mem), pager.mem, pager.pml4, PathOf(vaddr), PlainLeaf(paddr))
    ensures var p := PathOf(vaddr);
            pager.at.Keys == old(pager.at.Keys) + {L3(p.l4), L2(p.l4, p.l3)} - {L1(p.l4, p.l3, p.l2)}
            && pager.pfa.Supply() == old(pager.pfa.Supply()) - DirectoryMissing(old(pager.at.Keys), p)
    ensures DataKept(old(pager.mem), pager.mem, old(pager.at), pager.at, old(pager.pfa.Available()),
                     pager.pfa.Available())
  {
    assert UnfoldLayout(0);
    pager.MapPage2M(paddr, vaddr, 0);
  }

  /** A 2 MiB entry without flags points at paddr itself. */
  ghost predicate PlainTarget(paddr: nat) {
    forall n: nat | UnfoldLayout(n) :: LargeResult(paddr, 0) == PlainLeaf(paddr)
  }

  /** One iteration of the direct-map loop. */
  method MapWindowPage(pager: Pager, k: Kernel, p: nat, ghost hi: nat, offset: nat, ghost size: nat,
                       ghost needed: set<Pos>, ghost extra: nat, ghost mem0: Memory, ghost at0: map<Pos, nat>,
                       ghost avail0: set<nat>)
    requires pager.Valid() && Layout(k, offset, size)
    requires HasDirectories(needed, PathOf(p + offset)) && NoLastLevel(needed)
    requires WindowAt(p, size) && p < size && KernelTop(k, hi)
    requires pager.pfa.Supply() >= |needed - pager.at.Keys| + extra
    requires LaidOut(pager.mem, pager.pml4, k, hi, offset, p) && WindowPages(pager.mem, pager.pml4, offset, p)
    requires DataKept(mem0, pager.mem, at0, pager.at, avail0, pager.pfa.Available())
    modifies pager`mem, pager`at, pager.pfa, pager.pfa.bitmap, pager.pfa.preFrames
    ensures pager.Valid() && LaidOut(pager.mem, pager.pml4, k, hi, offset, p + LARGE)
    ensures pager.pfa.Supply() >= |needed - pager.at.Keys| + extra
    ensures WindowPages(pager.mem, pager.pml4, offset, p + LARGE)
    ensures DataKept(mem0, pager.mem, at0, pager.at, avail0, pager.pfa.Available())
  {
    ghost var before, atMid, availMid := pager.mem, pager.at, pager.pfa.Available();
    DirectoriesLeft(needed, pager.at.Keys, PathOf(p + offset));
    WindowPageFrame(k, offset, size, p);
    MapDirect(pager, p, p + offset);
    WindowGrows(before, pager.mem, pager.pml4, k, hi, offset, size, p);
    DataKeptTransitive(mem0, before, pager.mem, at0, atMid, pager.at, avail0, availMid, pager.pfa.Available());
  }

  /** The same for a page of the window, whose directories are among those needed. */
  method MapCoveredPage(pager: Pager, k: Kernel, p: nat, ghost hi: nat, offset: nat, ghost size: nat,
                        ghost needed: set<Pos>, ghost extra: nat, ghost mem0: Memory, ghost at0: map<Pos, nat>,
                        ghost avail0: set<nat>)
    returns (next: nat)
    requires pager.Valid() && Layout(k, offset, size) && CoversWindow(needed, offset, size)
    requires WindowAt(p, size) && p < size && KernelTop(k, hi)
    requires pager.pfa.Supply() >= |needed - pager.at.Keys| + extra
    requires LaidOut(pager.mem, pager.pml4, k, hi, offset, p) && WindowPages(pager.mem, pager.pml4, offset, p)
    requires DataKept(mem0, pager.mem, at0, pager.at, avail0, pager.pfa.Available())
    modifies pager`mem, pager`at, pager.pfa, pager.pfa.bitmap, pager.pfa.preFrames
    ensures p < next && WindowAt(next, size) && pager.Valid() && LaidOut(pager.mem, pager.pml4, k, hi, offset, next)
    ensures next == p + LARGE
    ensures pager.pfa.Supply() >= |needed - pager.at.Keys| + extra
    ensures WindowPages(pager.mem, pager.pml4, offset, p + LARGE)
    ensures DataKept(mem0, pager.mem, at0, pager.at, avail0, pager.pfa.Available())
  {
    WindowPageCovered(needed, offset, size, p);
    WindowLoop(k, offset, size, p);
    MapWindowPage(pager, k, p, hi, offset, size, needed, extra, mem0, at0, avail0);
    next := p + LARGE;
  }

  method MapWindow(pager: Pager, k: Kernel, ghost hi: nat, offset: nat, size: nat, ghost needed: set<Pos>,
                   ghost extra: nat)
    requires pager.Valid() && Layout(k, offset, size) && Covers(needed, k, offset, size) && KernelTop(k, hi)
    requires pager.pfa.Supply() >= |needed - pager.at.Keys| + extra
    requires LaidOut(pager.mem, pager.pml4, k, hi, offset, 0)
    modifies pager`mem, pager`at, pager.pfa, pager.pfa.bitmap, pager.pfa.preFrames
    ensures pager.Valid() && LaidOut(pager.mem, pager.pml4, k, hi, offset, size)
    ensures WindowPages(pager.mem, pager.pml4, offset, size) && pager.pfa.Supply() >= extra
    ensures DataKept(old(pager.mem), pager.mem, old(pager.at), pager.at, old(pager.pfa.Available()),
                     pager.pfa.Available())
  {
    ghost var directories := Directories(needed);
    SubsetSize(directories - pager.at.Keys, needed - pager.at.Keys);
    WindowCovered(needed, k, offset, size);
    MapWindowPages(pager, k, hi, offset, size, directories, extra);
  }

  /** The direct-map loop. */
  method MapWindowPages(pager: Pager, k: Kernel, ghost hi: nat, offset: nat, size: nat, ghost needed: set<Pos>,
                        ghost extra: nat)
    requires pager.Valid() && Layout(k, offset, size) && CoversWindow(needed, offset, size) && KernelTop(k, hi)
    requires pager.pfa.Supply() >= |needed - pager.at.Keys| + extra
    requires LaidOut(pager.mem, pager.pml4, k, hi, offset, 0)
    modifies pager`mem, pager`at, pager.pfa, pager.pfa.bitmap, pager.pfa.preFrames
    ensures pager.Valid() && LaidOut(pager.mem, pager.pml4, k, hi, offset, size)
    ensures WindowPages(pager.mem, pager.pml4, offset, size) && pager.pfa.Supply() >= extra
    ensures DataKept(old(pager.mem), pager.mem, old(pager.at), pager.at, old(pager.pfa.Available()),
                     pager.pfa.Available())
  {
    var p: nat := 0;
    WindowLoop(k, offset, size, p);
    ghost var mem0, at0, avail0 := pager.mem, pager.at, pager.pfa.Available();
    DataKeptAtFirst(mem0, at0, avail0);
    while p < size
      invariant WindowAt(p, size)
      invariant pager.Valid() && pager.pfa.Supply() >= |needed - pager.at.Keys| + extra
      invariant LaidOut(pager.mem, pager.pml4, k, hi, offset, p) && WindowPages(pager.mem, pager.pml4, offset, p)
      invariant DataKept(mem0, pager.mem, at0, pager.at, avail0, pager.pfa.Available())
      decreases size - p
    {
      p := MapCoveredPage(pager, k, p, hi, offset, size, needed, extra, mem0, at0, avail0);
    }
    WindowLoop(k, offset, size, p);
  }

  /** The loop of paging_init that finds the top of memory. */
  method HighestEnd(entries: seq<MemmapEntry>) returns (top: nat)
    ensures top == Top(entries)
    ensures forall k | 0 <= k < |entries| :: entries[k].base + entries[k].length <= top
    ensures top == 0 || exists k :: 0 <= k < |entries| && entries[k].base + entries[k].length == top
  {
    top := 0;
    for i := 0 to |entries|
      invariant top == Top(entries[..i])
    {
      assert entries[..i + 1][..i] == entries[..i];
      var end := entries[i].base + entries[i].length;
      if end > top {
        top := end;
      }
    }
    assert entries[..|entries|] == entries;
    TopIsAnEnd(entries);
    forall k | 0 <= k < |entries| ensures entries[k].base + entries[k].length <= top {
      TopBounds(entries, k);
    }
  }

  /**
   After paging_init the kernel is where the boot loader put it, every byte of physical
   memory up to the top of the memory map is at that address plus the offset, and no other
   canonical address is mapped. Memory is changed only in frames the allocator had to give.
   `needed` names the tables the two mappings take.
   */
  method PagingInit(allocator: FrameAllocator, memory: Memory, k: Kernel, entries: seq<MemmapEntry>, offset: nat,
                    ghost needed: set<Pos>)
    returns (pager: Pager)
    requires allocator.Valid() && HoldsFrames(memory, allocator.npages)
    requires var size := RoundUp2M(Top(entries));
             Layout(k, offset, size) && Covers(needed, k, offset, size)
    requires allocator.Supply() >= |needed|
    modifies allocator, allocator.bitmap, allocator.preFrames
    ensures fresh(pager) && pager.Valid() && pager.pfa == allocator
    ensures LaidOut(pager.mem, pager.pml4, k, RoundUp4K(k.end), offset, RoundUp2M(Top(entries)))
    ensures WindowPages(pager.mem, pager.pml4, offset, RoundUp2M(Top(entries)))
    ensures allocator.Supply() >= old(allocator.Supply()) - |needed|
    ensures forall f | f in memory && f / 0x1000 !in old(allocator.Available()) :: Kept(memory, pager.mem, pager.at, f)
  {
    assert |needed| > 0;
    pager := StartPaging(allocator, memory);
    OneFewer(needed, {}, L4);
    assert needed - {} == needed && {} + {L4} == pager.at.Keys;
    NothingMapped(pager.mem, pager.pml4, k, offset);
    var top := HighestEnd(entries);
    var size := RoundUp2M(top);
    ghost var mem1, at1, avail1 := pager.mem, pager.at, allocator.Available();
    ghost var extra: nat := old(allocator.Supply()) - |needed|;
    ghost var hi := MapKernel(pager, k, offset, size, needed, extra);
    ghost var mem2, at2, avail2 := pager.mem, pager.at, allocator.Available();
    DataKeptTransitive(memory, mem1, mem2, map[], at1, at2, old(allocator.Available()), avail1, avail2);
    MapWindow(pager, k, hi, offset, size, needed, extra);
    DataKeptTransitive(memory, mem2, pager.mem, map[], at2, pager.at, old(allocator.Available()), avail2,
                       allocator.Available());
    assert hi == RoundUp4K(k.end) by { assert UnfoldLayout(0); }
    forall f | f in memory && f / 0x1000 !in old(allocator.Available()) ensures Kept(memory, pager.mem, pager.at, f) {
      FrameKept(memory, pager.mem, map[], pager.at, old(allocator.Available()), allocator.Available(), f);
    }
  }

  lemma {:induction false} NothingMapped(mem: Memory, root: nat, k: Kernel, offset: nat)
    requires forall p: Path | p.Valid() :: WalkFrom(mem, root, p) == Fault
    ensures LaidOut(mem, root, k, k.start, offset, 0)
  {
    forall v: nat | Canonical(v)
      ensures GoesTo(mem, root, k, k.start, offset, 0, v)
    {
      assert WalkFrom(mem, root, PathOf(v)) == Fault;
    }
  }

  /** Every byte of every memory-map entry is reachable through the direct map. */
  lemma {:induction false} DirectMapReachesEntry(mem: Memory, root: nat, k: Kernel, entries: seq<MemmapEntry>,
                                                 offset: nat, i: nat, a: nat)
    requires Layout(k, offset, RoundUp2M(Top(entries)))
    requires LaidOut(mem, root, k, RoundUp4K(k.end), offset, RoundUp2M(Top(entries)))
    requires i < |entries| && entries[i].base <= a < entries[i].End()
    ensures Translate(mem, root, a + offset) == Mapped(a, true, 0x83)
  {
    TopBounds(entries, i);
    assert UnfoldLayout(0);
    assert GoesTo(mem, root, k, RoundUp4K(k.end), offset, RoundUp2M(Top(entries)), a + offset);
  }

  /** Nothing else is mapped: neither outside both ranges nor behind all entries of the memory map. */
  lemma {:induction false} NothingElseMapped(mem: Memory, root: nat, k: Kernel, entries: seq<MemmapEntry>, offset: nat,
                                             v: nat)
    requires LaidOut(mem, root, k, RoundUp4K(k.end), offset, RoundUp2M(Top(entries))) && Canonical(v)
    requires v < k.start || k.end + 0xfff <= v
    requires v < offset || forall i | 0 <= i < |entries| :: entries[i].End() + 0x1f_ffff <= v - offset
    ensures Translate(mem, root, v) == NotMapped
  {
    assert GoesTo(mem, root, k, RoundUp4K(k.end), offset, RoundUp2M(Top(entries)), v);
    RoundUpIsLeast(k.end);
    RoundUpIsLeast(Top(entries));
    TopIsAnEnd(entries);
  }

  /** Every byte of the kernel image is mapped where the boot loader loaded it. */
  lemma {:induction false} KernelReachable(mem: Memory, root: nat, k: Kernel, offset: nat, size: nat, v: nat)
    requires Layout(k, offset, size) && k.start <= v < k.end
    requires LaidOut(mem, root, k, RoundUp4K(k.end), offset, size)
    ensures k.vbase <= v && Translate(mem, root, v) == Mapped(v - k.vbase + k.pbase, true, 0x3)
  {
    assert UnfoldLayout(0);
    assert GoesTo(mem, root, k, RoundUp4K(k.end), offset, size, v);
  }

  /** The direct map's page of a byte: a 2 MiB entry whose frame is the region's first. */
  lemma {:induction false} WindowEntry(mem: Memory, root: nat, at: map<Pos, nat>, offset: nat, size: nat, a: nat)
    requires Tree(mem, root, at) && WindowPages(mem, root, offset, size) && a < size
    ensures LargeMapped(mem, at, PathOf(a + offset)) && DataAt(mem, at, PathOf(a + offset)) == RegionBase(a)
  {
    WindowWalk(mem, root, offset, size, a);
    LargeEntry(mem, root, at, PathOf(a + offset), RegionBase(a));
  }

  lemma {:induction false} WindowWalk(mem: Memory, root: nat, offset: nat, size: nat, a: nat)
    requires WindowPages(mem, root, offset, size) && a < size
    ensures WalkFrom(mem, root, PathOf(a + offset)) == PlainLeaf(RegionBase(a)) && RegionBase(a) % 0x20_0000 == 0
  {
    assert UnfoldLayout(0);
    assert WindowPage(mem, root, offset, a);
    RegionAligned(a);
  }

  lemma {:induction false} RegionAligned(a: nat)
    ensures RegionBase(a) % 0x20_0000 == 0
  {
    QuotientUnique(RegionBase(a), 0x20_0000, a / 0x20_0000, 0);
  }

  lemma {:induction false} LargeEntry(mem: Memory, root: nat, at: map<Pos, nat>, p: Path, paddr: nat)
    requires Tree(mem, root, at) && p.Valid() && WalkFrom(mem, root, p) == PlainLeaf(paddr) && paddr % 0x20_0000 == 0
    ensures LargeMapped(mem, at, p) && DataAt(mem, at, p) == paddr
  {
    LargeWalk(mem, root, at, p);
    WalkIsTreeWalk(mem, root, at, p);
    PlainNext(paddr);
  }

  lemma {:induction false} PlainNext(paddr: nat)
    requires paddr % 0x20_0000 == 0
    ensures Next(paddr + 0x83) == paddr
  {
    PlainOffsets(paddr);
  }

  /**
   map_page on an address of the direct map, as the drivers call it for device registers. It maps
   nothing: one word of the region's first frame is overwritten, and if that is no table all
   translations stay as they are.
   */
  method MapInsideWindow(pager: Pager, a: nat, offset: nat, ghost size: nat, flags: nat)
    requires pager.Valid() && WindowPages(pager.mem, pager.pml4, offset, size) && a < size
    modifies pager`mem, pager`at, pager.pfa, pager.pfa.bitmap, pager.pfa.preFrames
    ensures pager.at == old(pager.at)
    ensures pager.mem == SetWord(old(pager.mem), RegionBase(a), PathOf(a + offset).l1, SmallWord(a, flags))
    ensures SmallEntry(SmallWord(a, flags), a, flags)
    ensures RegionBase(a) !in pager.at.Values ==>
              && pager.Valid() && SameWalks(old(pager.mem), pager.mem, pager.pml4)
              && WindowPages(pager.mem, pager.pml4, offset, size)
  {
    pager.HasTree();
    ghost var before := pager.mem;
    WindowEntry(pager.mem, pager.pml4, pager.at, offset, size, a);
    pager.MapPage(a, a + offset, flags);
    SameWindow(before, pager.mem, pager.pml4, offset, size);
  }

  lemma {:induction false} SameWindow(mem: Memory, mem': Memory, root: nat, offset: nat, size: nat)
    requires WindowPages(mem, root, offset, size)
    ensures SameWalks(mem, mem', root) ==> WindowPages(mem', root, offset, size)
  {
    assert UnfoldLayout(0);
    if SameWalks(mem, mem', root) {
      forall a: nat | a < size
        ensures WindowPage(mem', root, offset, a)
      {
        assert WindowPage(mem, root, offset, a);
        SameWalksAt(mem, mem', root, PathOf(a + offset));
      }
    }
  }
}
