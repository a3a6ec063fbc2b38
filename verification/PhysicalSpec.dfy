/** What the physical allocator of Kernel/mm/avmf.c does to its bitmap and to the byte counts of its regions. */
module PhysicalSpec {
  import opened Common

  const SIGNATURE := 0xA1322F
  const VERSION := 1

  datatype Region = Region(signature: nat, version: nat, base: nat, limit: nat, inUse: nat) {
    predicate Usable() { signature == SIGNATURE && version == VERSION && limit >= 1 && limit > base }

    function First(): nat { base / PAGE_SIZE }

    function End(): nat { limit / PAGE_SIZE }

    predicate Owns(page: nat) { Usable() && First() <= page < End() }

    predicate Fits(page: nat, n: nat) { Usable() && First() <= page && page + n <= End() }
  }

  datatype Phys = Phys(bits: set<nat>, regions: seq<Region>)

  datatype Place = Place(region: nat, page: nat)

  /** align4k and the division by the page size; 0 for sizes that the callers reject. */
  function PagesOf(size: nat): nat {
    if size > U64_MAX - (PAGE_SIZE - 1) then 0 else (size + PAGE_SIZE - 1) / PAGE_SIZE
  }

  function Pages(page: nat, n: nat): (s: set<nat>)
    ensures |s| == n && forall q :: q in s <==> page <= q < page + n
  {
    if n == 0 then {} else Pages(page, n - 1) + {page + n - 1}
  }

  ghost predicate AllFree(bits: set<nat>, page: nat, n: nat) { forall q | page <= q < page + n :: q !in bits }

  ghost predicate AllSet(bits: set<nat>, page: nat, n: nat) { forall q | page <= q < page + n :: q in bits }

  /** The lowest run of `n` free pages between `lo` and `hi`. */
  ghost function FirstRun(bits: set<nat>, lo: nat, hi: nat, n: nat): Option<nat>
    decreases hi - lo
  {
    if lo + n > hi || lo >= hi then None
    else if AllFree(bits, lo, n) then Some(lo)
    else FirstRun(bits, lo + 1, hi, n)
  }

  /** The lowest run in the first region, from region `i` on, that has one. */
  ghost function FirstFit(s: Phys, n: nat, i: nat): Option<Place>
    decreases |s.regions| - i
  {
    if i >= |s.regions| then None
    else
      var r := s.regions[i];
      var run := if r.Usable() then FirstRun(s.bits, r.First(), r.End(), n) else None;
      if run.Some? then Some(Place(i, run.value)) else FirstFit(s, n, i + 1)
  }

  function Take(s: Phys, at: Place, n: nat): Phys
    requires at.region < |s.regions|
  {
    var r := s.regions[at.region];
    Phys(s.bits + Pages(at.page, n), s.regions[at.region := r.(inUse := r.inUse + n * PAGE_SIZE)])
  }

  /** avmf_alloc_phys_contiguous: where the block goes, the new state and the returned address. */
  ghost function AllocPlace(s: Phys, size: nat): Option<Place> {
    if PagesOf(size) == 0 then None else FirstFit(s, PagesOf(size), 0)
  }

  ghost function AfterAlloc(s: Phys, size: nat): Phys
    ensures AllocPlace(s, size).Some? ==> AllocPlace(s, size).value.region < |s.regions|
  {
    FirstFitSound(s, PagesOf(size), 0);
    var at := AllocPlace(s, size);
    if at.None? then s else Take(s, at.value, PagesOf(size))
  }

  ghost function AllocResult(s: Phys, size: nat): nat {
    var at := AllocPlace(s, size);
    if at.None? then 0 else at.value.page * PAGE_SIZE
  }

  /** The first region, from region `i` on, in which the whole run lies and is allocated. */
  ghost function Owner(s: Phys, page: nat, n: nat, i: nat): Option<nat>
    decreases |s.regions| - i
  {
    if i >= |s.regions| then None
    else if s.regions[i].Owns(page) && s.regions[i].Fits(page, n) && AllSet(s.bits, page, n) then Some(i)
    else Owner(s, page, n, i + 1)
  }

  function Give(s: Phys, i: nat, page: nat, n: nat): Phys
    requires i < |s.regions|
  {
    var r := s.regions[i];
    var left := if r.inUse >= n * PAGE_SIZE then r.inUse - n * PAGE_SIZE else 0;
    Phys(s.bits - Pages(page, n), s.regions[i := r.(inUse := left)])
  }

  ghost function FreeOwner(s: Phys, phys: nat, size: nat): Option<nat> {
    if PagesOf(size) == 0 then None else Owner(s, phys / PAGE_SIZE, PagesOf(size), 0)
  }

  /** avmf_free_phys_contiguous. */
  ghost function AfterFree(s: Phys, phys: nat, size: nat): Phys {
    OwnerSound(s, phys / PAGE_SIZE, PagesOf(size), 0);
    var i := FreeOwner(s, phys, size);
    if i.None? then s else Give(s, i.value, phys / PAGE_SIZE, PagesOf(size))
  }

  /** avmf_free_phys_page: only the first region that owns the page is looked at. */
  ghost function PageOwner(s: Phys, page: nat, i: nat): Option<nat>
    decreases |s.regions| - i
  {
    if i >= |s.regions| then None else if s.regions[i].Owns(page) then Some(i) else PageOwner(s, page, i + 1)
  }

  ghost function AfterFreePage(s: Phys, phys: nat): Phys {
    PageOwnerSound(s, phys / PAGE_SIZE, 0);
    var i := PageOwner(s, phys / PAGE_SIZE, 0);
    if i.None? || phys / PAGE_SIZE !in s.bits then s else Give(s, i.value, phys / PAGE_SIZE, 1)
  }

  // ----- first fit: sound, complete, lowest -----

  ghost predicate Candidate(s: Phys, at: Place, n: nat) {
    at.region < |s.regions| && s.regions[at.region].Fits(at.page, n) && AllFree(s.bits, at.page, n)
  }

  predicate Before(a: Place, b: Place) { a.region < b.region || (a.region == b.region && a.page <= b.page) }

  lemma {:induction false} FirstRunIs(bits: set<nat>, lo: nat, hi: nat, n: nat, p: nat)
    requires n > 0 && lo <= p && p + n <= hi && AllFree(bits, p, n) && forall q | lo <= q < p :: !AllFree(bits, q, n)
    ensures FirstRun(bits, lo, hi, n) == Some(p)
    decreases p - lo
  {
    if lo < p {
      FirstRunIs(bits, lo + 1, hi, n, p);
    }
  }

  lemma {:induction false} FirstRunNone(bits: set<nat>, lo: nat, hi: nat, n: nat)
    requires n > 0 && forall q | lo <= q && q + n <= hi :: !AllFree(bits, q, n)
    ensures FirstRun(bits, lo, hi, n) == None
    decreases hi - lo
  {
    if lo + n <= hi {
      FirstRunNone(bits, lo + 1, hi, n);
    }
  }

  lemma {:induction false} FirstRunMeans(bits: set<nat>, lo: nat, hi: nat, n: nat)
    requires n > 0
    ensures var p := FirstRun(bits, lo, hi, n);
            if p.Some? then
              lo <= p.value && p.value + n <= hi && AllFree(bits, p.value, n) && forall q | lo <= q < p.value ::
                  !AllFree(bits, q, n)
            else forall q | lo <= q && q + n <= hi :: !AllFree(bits, q, n)
    decreases hi - lo
  {
    if lo + n <= hi && !AllFree(bits, lo, n) {
      FirstRunMeans(bits, lo + 1, hi, n);
    }
  }

  lemma {:induction false} FirstFitSound(s: Phys, n: nat, i: nat)
    ensures FirstFit(s, n, i).Some? ==> i <= FirstFit(s, n, i).value.region < |s.regions|
    decreases |s.regions| - i
  {
    if i < |s.regions| {
      FirstFitSound(s, n, i + 1);
    }
  }

  lemma {:induction false} FirstFitFrom(s: Phys, n: nat, i: nat)
    requires n > 0
    ensures var f := FirstFit(s, n, i);
            if f.Some? then
              && Candidate(s, f.value, n) && f.value.region >= i
              && forall at | Candidate(s, at, n) && at.region >= i :: Before(f.value, at)
            else forall at | Candidate(s, at, n) :: at.region < i
    decreases |s.regions| - i
  {
    if i < |s.regions| {
      var r := s.regions[i];
      if r.Usable() {
        FirstRunMeans(s.bits, r.First(), r.End(), n);
      }
      FirstFitFrom(s, n, i + 1);
    }
  }

  /** Allocation is sound, complete and first-fit: it takes a block exactly when some region has a long enough free run,
      and then it takes the lowest run of the first such region. */
  lemma {:induction false} AllocIsFirstFit(s: Phys, size: nat)
    ensures var at, n := AllocPlace(s, size), PagesOf(size);
            && (at.Some? <==> n > 0 && exists c :: Candidate(s, c, n))
            && (at.Some? ==> Candidate(s, at.value, n) && forall c | Candidate(s, c, n) :: Before(at.value, c))
  {
    if PagesOf(size) > 0 {
      FirstFitFrom(s, PagesOf(size), 0);
    }
  }

  /** The pages for `size` bytes hold them, and no page fewer would. */
  lemma {:induction false} PagesHoldBytes(size: nat)
    ensures size <= U64_MAX - (PAGE_SIZE - 1) ==> size <= PagesOf(size) * PAGE_SIZE < size + PAGE_SIZE
    ensures size > U64_MAX - (PAGE_SIZE - 1) ==> PagesOf(size) == 0
  {
  }

  /** A block of `size` bytes at address `a`: aligned to a page, inside region `i` in whole pages, every byte in a free
      page. */
  ghost predicate ByteBlock(s: Phys, i: nat, a: nat, size: nat) {
    && i < |s.regions| && s.regions[i].Usable() && a % PAGE_SIZE == 0
    && a + PAGE_SIZE > s.regions[i].base && LastPageEnd(a, size) <= s.regions[i].limit
    && forall x | a <= x < a + size :: x / PAGE_SIZE !in s.bits
  }

  /** The end of the page that holds the last of `size` bytes from `a`. */
  function LastPageEnd(a: nat, size: nat): nat {
    if size == 0 then a else (a + size - 1) / PAGE_SIZE * PAGE_SIZE + PAGE_SIZE
  }

  lemma {:induction false} BytesArePages(s: Phys, i: nat, page: nat, size: nat)
    requires 0 < size <= U64_MAX - (PAGE_SIZE - 1)
    ensures Candidate(s, Place(i, page), PagesOf(size)) <==> ByteBlock(s, i, page * PAGE_SIZE, size)
  {
    var n, a := PagesOf(size), page * PAGE_SIZE;
    PagesHoldBytes(size);
    LastPage(page, size);
    if i < |s.regions| {
      RegionPages(s.regions[i].base, s.regions[i].limit, page, n);
    }
    if AllFree(s.bits, page, n) {
      forall x | a <= x < a + size
        ensures x / PAGE_SIZE !in s.bits
      {
        assert page <= x / PAGE_SIZE < page + n;
      }
    }
    if forall x | a <= x < a + size :: x / PAGE_SIZE !in s.bits {
      forall q | page <= q < page + n
        ensures q !in s.bits
      {
        FirstByte(page, n, size, q);
        assert q * PAGE_SIZE / PAGE_SIZE == q;
      }
    }
  }

  lemma {:induction false} FirstByte(page: nat, n: nat, size: nat, q: nat)
    requires n * PAGE_SIZE < size + PAGE_SIZE && page <= q < page + n
    ensures page * PAGE_SIZE <= q * PAGE_SIZE < page * PAGE_SIZE + size
  {
  }

  lemma {:induction false} LastPage(page: nat, size: nat)
    requires 0 < size <= U64_MAX - (PAGE_SIZE - 1)
    ensures LastPageEnd(page * PAGE_SIZE, size) == (page + PagesOf(size)) * PAGE_SIZE
    ensures page * PAGE_SIZE % PAGE_SIZE == 0
  {
    assert (page * PAGE_SIZE + (size - 1)) / PAGE_SIZE == page + (size - 1) / PAGE_SIZE;
    assert PagesOf(size) == (size - 1) / PAGE_SIZE + 1;
  }

  lemma {:induction false} RegionPages(base: nat, limit: nat, page: nat, n: nat)
    ensures base / PAGE_SIZE <= page <==> base < page * PAGE_SIZE + PAGE_SIZE
    ensures page + n <= limit / PAGE_SIZE <==> (page + n) * PAGE_SIZE <= limit
  {
  }

  /** Allocation in bytes: it finds a block if and only if some region has `size` free bytes in whole pages. The block
      that it returns is such a block; its pages, and no others, are allocated by the call. */
  lemma {:induction false} AllocInBytes(s: Phys, size: nat)
    requires 0 < size <= U64_MAX - (PAGE_SIZE - 1)
    ensures AllocPlace(s, size).Some? <==> exists i: nat, a: nat :: ByteBlock(s, i, a, size)
    ensures AllocPlace(s, size).Some? ==>
              var a, after := AllocResult(s, size), AfterAlloc(s, size);
              && (exists i: nat :: ByteBlock(s, i, a, size))
              && forall q: nat :: q in after.bits <==> q in s.bits || a <= q * PAGE_SIZE < a + size
  {
    AllocIsFirstFit(s, size);
    PagesHoldBytes(size);
    var at := AllocPlace(s, size);
    if at.Some? {
      BytesArePages(s, at.value.region, at.value.page, size);
      assert ByteBlock(s, at.value.region, at.value.page * PAGE_SIZE, size);
      TakesBytes(s, size, at.value);
    }
    forall i: nat, a: nat | ByteBlock(s, i, a, size)
      ensures Candidate(s, Place(i, a / PAGE_SIZE), PagesOf(size))
    {
      assert a / PAGE_SIZE * PAGE_SIZE == a;
      BytesArePages(s, i, a / PAGE_SIZE, size);
    }
  }

  lemma {:induction false} TakesBytes(s: Phys, size: nat, at: Place)
    requires 0 < size <= U64_MAX - (PAGE_SIZE - 1) && AllocPlace(s, size) == Some(at)
    ensures forall q: nat :: q in AfterAlloc(s, size).bits <==>
              q in s.bits || AllocResult(s, size) <= q * PAGE_SIZE < AllocResult(s, size) + size
  {
    PagesHoldBytes(size);
    forall q: nat
      ensures q in AfterAlloc(s, size).bits <==>
              q in s.bits || AllocResult(s, size) <= q * PAGE_SIZE < AllocResult(s, size) + size
    {
      PageInRun(at.page, PagesOf(size), size, q);
    }
  }

  lemma {:induction false} PageInRun(page: nat, n: nat, size: nat, q: nat)
    requires size <= n * PAGE_SIZE < size + PAGE_SIZE
    ensures page <= q < page + n <==> page * PAGE_SIZE <= q * PAGE_SIZE < page * PAGE_SIZE + size
  {
  }

  /** The returned address is 0 exactly when there is no block, or when the block that was taken starts at page 0: then
      the caller sees a failure although the bits are set. The kernel's regions start behind its image, above page 0, so
      that there 0 means that there is no block. */
  lemma {:induction false} AllocReportsFailure(s: Phys, size: nat)
    ensures var n := PagesOf(size);
            AllocResult(s, size) == 0 <==>
            || n == 0
            || (forall c :: !Candidate(s, c, n))
            || (exists c :: Candidate(s, c, n) && c.page == 0 && forall d | Candidate(s, d, n) :: Before(c, d))
    ensures (forall i | 0 <= i < |s.regions| :: s.regions[i].First() > 0) ==>
            (AllocResult(s, size) == 0 <==> PagesOf(size) == 0 || forall c :: !Candidate(s, c, PagesOf(size)))
  {
    AllocIsFirstFit(s, size);
    var at := AllocPlace(s, size);
    if at.Some? {
      assert Candidate(s, at.value, PagesOf(size));
    }
  }

  // ----- freeing -----

  lemma {:induction false} OwnerSound(s: Phys, page: nat, n: nat, i: nat)
    ensures var o := Owner(s, page, n, i);
            if o.Some? then
              i <= o.value < |s.regions| && s.regions[o.value].Owns(page) && s.regions[o.value].Fits(page, n) &&
                  AllSet(s.bits, page, n)
            else forall j | i <= j < |s.regions| ::
                   !(s.regions[j].Owns(page) && s.regions[j].Fits(page, n) && AllSet(s.bits, page, n))
    decreases |s.regions| - i
  {
    if i < |s.regions| {
      OwnerSound(s, page, n, i + 1);
    }
  }

  lemma {:induction false} PageOwnerSound(s: Phys, page: nat, i: nat)
    ensures var o := PageOwner(s, page, i);
            if o.Some? then i <= o.value < |s.regions| && s.regions[o.value].Owns(page)
            else forall j | i <= j < |s.regions| :: !s.regions[j].Owns(page)
    decreases |s.regions| - i
  {
    if i < |s.regions| {
      PageOwnerSound(s, page, i + 1);
    }
  }

  /** No page belongs to two regions. */
  ghost predicate Disjoint(regions: seq<Region>) {
    forall i, j, page | 0 <= i < |regions| && 0 <= j < |regions| && regions[i].Owns(page) && regions[j].Owns(page) ::
        i == j
  }

  /** The page ranges of two regions lie apart, or one of the regions is not used. */
  predicate Separate(a: Region, b: Region) {
    !a.Usable() || !b.Usable() || a.First() >= a.End() || b.First() >= b.End() || a.End() <= b.First() ||
    b.End() <= a.First()
  }

  lemma {:induction false} DisjointIff(regions: seq<Region>)
    ensures Disjoint(regions) <==> forall i, j | 0 <= i < j < |regions| :: Separate(regions[i], regions[j])
  {
    if Disjoint(regions) {
      forall i, j | 0 <= i < j < |regions|
        ensures Separate(regions[i], regions[j])
      {
        var page := Max(regions[i].First(), regions[j].First());
        assert !(regions[i].Owns(page) && regions[j].Owns(page));
      }
    }
  }

  /** Freeing changes something exactly when the whole run is allocated inside one region; then exactly its bits go. */
  lemma {:induction false} FreeIsAllOrNothing(s: Phys, phys: nat, size: nat)
    ensures var page, n := phys / PAGE_SIZE, PagesOf(size);
            var ok := n > 0 && AllSet(s.bits, page, n) && exists i ::
              0 <= i < |s.regions| && s.regions[i].Fits(page, n);
            AfterFree(s, phys, size).bits == (if ok then s.bits - Pages(page, n) else s.bits) &&
            (!ok ==> AfterFree(s, phys, size) == s)
  {
    var page, n := phys / PAGE_SIZE, PagesOf(size);
    OwnerSound(s, page, n, 0);
    forall i | 0 <= i < |s.regions| && n > 0
      ensures s.regions[i].Fits(page, n) ==> s.regions[i].Owns(page)
    {
    }
  }

  /** Freeing what was just allocated restores the whole state. */
  lemma {:induction false} FreeUndoesAlloc(s: Phys, size: nat)
    requires Disjoint(s.regions) && AllocPlace(s, size).Some?
    ensures AfterFree(AfterAlloc(s, size), AllocResult(s, size), size) == s
  {
    AllocIsFirstFit(s, size);
    var at, n := AllocPlace(s, size).value, PagesOf(size);
    var s' := AfterAlloc(s, size);
    assert s.regions[at.region].Owns(at.page);
    assert s'.regions[at.region].Owns(at.page) && s'.regions[at.region].Fits(at.page, n) && AllSet(s'.bits, at.page, n);
    OwnerSound(s', at.page, n, 0);
    var o := Owner(s', at.page, n, 0).value;
    assert s.regions[o].Owns(at.page);
    assert o == at.region;
    assert AfterFree(s', at.page * PAGE_SIZE, size).bits == s.bits;
  }

  /** On disjoint regions, avmf_free_phys_page is the one-page case of avmf_free_phys_contiguous. */
  lemma {:induction false} FreePageIsFree(s: Phys, phys: nat)
    requires Disjoint(s.regions)
    ensures AfterFreePage(s, phys) == AfterFree(s, phys, PAGE_SIZE)
  {
    var page := phys / PAGE_SIZE;
    PageOwnerSound(s, page, 0);
    OwnerSound(s, page, 1, 0);
    if PageOwner(s, page, 0).Some? && page in s.bits {
      assert AllSet(s.bits, page, 1);
      var i := PageOwner(s, page, 0).value;
      assert s.regions[i].Fits(page, 1);
    }
  }

  // ----- conservation over every run -----

  /** The allocated pages of a region. */
  function Held(bits: set<nat>, r: Region): set<nat> { set q | q in bits && r.First() <= q < r.End() }

  /** Each region's byte count is the page size times its set bits. */
  ghost predicate Conserved(s: Phys) {
    forall i | 0 <= i < |s.regions| && s.regions[i].Usable() ::
        s.regions[i].inUse == |Held(s.bits, s.regions[i])| * PAGE_SIZE
  }

  lemma {:induction false} HolderGains(s: Phys, at: Place, n: nat)
    requires n > 0 && Candidate(s, at, n)
    ensures var r, s' := s.regions[at.region], Take(s, at, n);
            && r.Owns(at.page)
            && |Held(s'.bits, s'.regions[at.region])| == |Held(s.bits, r)| + n
  {
    var r, s' := s.regions[at.region], Take(s, at, n);
    assert Held(s'.bits, s'.regions[at.region]) == Held(s.bits, r) + Pages(at.page, n);
    assert Held(s.bits, r) !! Pages(at.page, n);
  }

  lemma {:induction false} TakeConserves(s: Phys, at: Place, n: nat)
    requires Conserved(s) && Disjoint(s.regions) && n > 0 && Candidate(s, at, n)
    ensures Conserved(Take(s, at, n)) && Disjoint(Take(s, at, n).regions)
  {
    var s' := Take(s, at, n);
    HolderGains(s, at, n);
    forall i | 0 <= i < |s.regions| && s.regions[i].Usable()
      ensures s'.regions[i].inUse == |Held(s'.bits, s'.regions[i])| * PAGE_SIZE
    {
      if i != at.region {
        OthersApart(s, at.region, i, at.page, n);
        assert Held(s'.bits, s'.regions[i]) == Held(s.bits, s.regions[i]);
      }
    }
    SameOwners(s.regions, s'.regions);
  }

  /** A run inside one region meets no other. */
  lemma {:induction false} OthersApart(s: Phys, i: nat, j: nat, page: nat, n: nat)
    requires Disjoint(s.regions) && i < |s.regions| && j < |s.regions| && i != j
    requires s.regions[i].Fits(page, n) && s.regions[j].Usable()
    ensures forall q | q in Pages(page, n) :: !(s.regions[j].First() <= q < s.regions[j].End())
  {
    forall q | q in Pages(page, n)
      ensures !(s.regions[j].First() <= q < s.regions[j].End())
    {
      assert s.regions[i].Owns(q);
    }
  }

  lemma {:induction false} SameOwners(a: seq<Region>, b: seq<Region>)
    requires Disjoint(a) && |a| == |b| && forall i, q | 0 <= i < |a| :: a[i].Owns(q) == b[i].Owns(q)
    ensures Disjoint(b)
  {
  }

  /** The subtraction of a free never saturates, and it keeps the count exact. */
  lemma {:induction false} GiveConserves(s: Phys, i: nat, page: nat, n: nat)
    requires Conserved(s) && Disjoint(s.regions) && i < |s.regions| && s.regions[i].Fits(page, n) &&
               AllSet(s.bits, page, n)
    ensures s.regions[i].inUse >= n * PAGE_SIZE
    ensures Conserved(Give(s, i, page, n)) && Disjoint(Give(s, i, page, n).regions)
  {
    var s', r := Give(s, i, page, n), s.regions[i];
    assert Held(s.bits, r) == Held(s'.bits, r) + Pages(page, n);
    assert Held(s'.bits, r) !! Pages(page, n);
    assert |Held(s.bits, r)| == |Held(s'.bits, r)| + n;
    forall j | 0 <= j < |s.regions| && s.regions[j].Usable()
      ensures s'.regions[j].inUse == |Held(s'.bits, s'.regions[j])| * PAGE_SIZE
    {
      if j == i {
        assert Held(s'.bits, s'.regions[j]) == Held(s'.bits, r);
      } else {
        OthersApart(s, i, j, page, n);
        assert Held(s'.bits, s'.regions[j]) == Held(s.bits, s.regions[j]);
      }
    }
    SameOwners(s.regions, s'.regions);
  }

  datatype Op = AllocPage | FreePage(phys: nat) | Alloc(size: nat) | Free(phys: nat, size: nat)

  /** A block handed out for `size` bytes and not yet touched by a free. */
  datatype Block = Block(page: nat, n: nat, size: nat) {
    predicate Holds(x: nat) { page * PAGE_SIZE <= x < page * PAGE_SIZE + size }
  }

  datatype Ledger = Ledger(phys: Phys, live: set<Block>)

  predicate Meets(a: Block, b: Block) { a.page < b.page + b.n && b.page < a.page + a.n }

  function AfterHandOut(l: Ledger, phys: Phys, result: nat, size: nat): Ledger {
    Ledger(phys, if result == 0 then l.live else l.live + {Block(result / PAGE_SIZE, PagesOf(size), size)})
  }

  function AfterGivenBack(l: Ledger, phys: Phys, page: nat, n: nat): Ledger {
    Ledger(phys, if phys == l.phys then l.live else set b | b in l.live && !Meets(b, Block(page, n, 0)))
  }

  ghost function Apply(l: Ledger, op: Op): Ledger {
    match op
    case AllocPage => AfterHandOut(l, AfterAlloc(l.phys, PAGE_SIZE), AllocResult(l.phys, PAGE_SIZE), PAGE_SIZE)
    case Alloc(size) => AfterHandOut(l, AfterAlloc(l.phys, size), AllocResult(l.phys, size), size)
    case FreePage(phys) => AfterGivenBack(l, AfterFreePage(l.phys, phys), phys / PAGE_SIZE, 1)
    case Free(phys, size) => AfterGivenBack(l, AfterFree(l.phys, phys, size), phys / PAGE_SIZE, PagesOf(size))
  }

  ghost function RunOps(l: Ledger, ops: seq<Op>): Ledger
    decreases ops
  {
    if ops == [] then l else RunOps(Apply(l, ops[0]), ops[1..])
  }

  ghost predicate Sound(l: Ledger) {
    && Conserved(l.phys) && Disjoint(l.phys.regions)
    && (forall b | b in l.live :: b.n > 0 && b.size <= b.n * PAGE_SIZE && AllSet(l.phys.bits, b.page, b.n))
    && (forall a, b | a in l.live && b in l.live && a != b :: !Meets(a, b))
  }

  lemma {:induction false} FreeIsApart(bits: set<nat>, a: Block, b: Block)
    requires a.n > 0 && b.n > 0 && AllFree(bits, a.page, a.n) && AllSet(bits, b.page, b.n)
    ensures !Meets(a, b) && !Meets(b, a)
  {
    var q := Max(a.page, b.page);
    ghost var set' := q in bits;
    assert Meets(a, b) ==> a.page <= q < a.page + a.n && b.page <= q < b.page + b.n;
  }

  lemma {:induction false} HandOutSound(l: Ledger, size: nat)
    requires Sound(l)
    ensures Sound(AfterHandOut(l, AfterAlloc(l.phys, size), AllocResult(l.phys, size), size))
  {
    AllocIsFirstFit(l.phys, size);
    var at, n := AllocPlace(l.phys, size), PagesOf(size);
    if at.Some? {
      TakeConserves(l.phys, at.value, n);
      var taken := Block(at.value.page, n, size);
      PagesHoldBytes(size);
      forall b | b in l.live
        ensures !Meets(taken, b) && !Meets(b, taken)
      {
        FreeIsApart(l.phys.bits, taken, b);
      }
    }
  }

  lemma {:induction false} GivenBackSound(l: Ledger, i: nat, page: nat, n: nat)
    requires Sound(l) && n > 0 && i < |l.phys.regions| && l.phys.regions[i].Fits(page, n) &&
               AllSet(l.phys.bits, page, n)
    ensures Sound(AfterGivenBack(l, Give(l.phys, i, page, n), page, n))
  {
    GiveConserves(l.phys, i, page, n);
    var l' := AfterGivenBack(l, Give(l.phys, i, page, n), page, n);
    assert page in l.phys.bits && page !in l'.phys.bits;
    forall b | b in l'.live
      ensures AllSet(l'.phys.bits, b.page, b.n)
    {
    }
  }

  lemma {:induction false} FreeSound(l: Ledger, phys: nat, size: nat)
    requires Sound(l)
    ensures Sound(AfterGivenBack(l, AfterFree(l.phys, phys, size), phys / PAGE_SIZE, PagesOf(size)))
  {
    var page, n := phys / PAGE_SIZE, PagesOf(size);
    OwnerSound(l.phys, page, n, 0);
    if FreeOwner(l.phys, phys, size).Some? {
      GivenBackSound(l, Owner(l.phys, page, n, 0).value, page, n);
    }
  }

  /** Over every run of the four operations on disjoint regions: the byte counts stay exact, the subtractions never
      saturate (GiveConserves), and the live blocks are allocated and pairwise disjoint. */
  lemma {:induction false} RunsConserve(l: Ledger, ops: seq<Op>)
    requires Sound(l)
    ensures Sound(RunOps(l, ops))
    decreases ops
  {
    if ops == [] {
    } else {
      match ops[0] {
        case AllocPage => HandOutSound(l, PAGE_SIZE);
        case Alloc(size) => HandOutSound(l, size);
        case Free(phys, size) => FreeSound(l, phys, size);
        case FreePage(phys) =>
          FreePageIsFree(l.phys, phys);
          FreeSound(l, phys, PAGE_SIZE);
      }
      RunsConserve(Apply(l, ops[0]), ops[1..]);
    }
  }

  /** The state that avmf_init leaves: nothing allocated. */
  lemma {:induction false} StartIsSound(regions: seq<Region>)
    requires Disjoint(regions) && forall i | 0 <= i < |regions| :: regions[i].inUse == 0
    ensures Sound(Ledger(Phys({}, regions), {}))
  {
    forall i | 0 <= i < |regions|
      ensures Held({}, regions[i]) == {}
    {
    }
  }

  /** Live blocks share no byte of the sizes that were asked for. */
  lemma {:induction false} LiveBytesApart(l: Ledger, a: Block, b: Block, x: nat)
    requires Sound(l) && a in l.live && b in l.live && a.Holds(x) && b.Holds(x)
    ensures a == b
  {
    var q := x / PAGE_SIZE;
    assert a.page <= q < a.page + a.n;
    assert b.page <= q < b.page + b.n;
    assert Meets(a, b);
  }

  ghost predicate LiveByte(l: Ledger, x: nat) { exists b :: b in l.live && b.Holds(x) }

  /** An allocation makes exactly the bytes live that it hands out. */
  lemma {:induction false} AllocMakesLive(l: Ledger, op: Op, x: nat)
    requires op.AllocPage? || op.Alloc?
    ensures LiveByte(Apply(l, op), x) <==> LiveByte(l, x) || HandsOut(l.phys, op, x)
  {
    var size := if op.AllocPage? then PAGE_SIZE else op.size;
    var a, l' := AllocResult(l.phys, size), Apply(l, op);
    if a != 0 {
      var b := Block(a / PAGE_SIZE, PagesOf(size), size);
      assert b in l'.live && a / PAGE_SIZE * PAGE_SIZE == a;
      assert b.Holds(x) <==> a <= x < a + size;
      assert forall o :: o in l'.live <==> o in l.live || o == b;
    }
  }

  lemma {:induction false} BlockEnds(l: Ledger, phys: Phys, page: nat, n: nat, b: Block)
    requires Sound(l) && n > 0 && (phys == l.phys || phys.bits == l.phys.bits - Pages(page, n))
    ensures b in AfterGivenBack(l, phys, page, n).live <==> b in l.live && AllSet(phys.bits, b.page, b.n)
  {
    if b in l.live && Meets(b, Block(page, n, 0)) && phys != l.phys {
      assert Max(b.page, page) !in phys.bits;
    }
  }

  /** A free ends exactly the blocks that have lost a page. */
  lemma {:induction false} FreeEndsLive(l: Ledger, op: Op, b: Block)
    requires Sound(l) && (op.FreePage? || op.Free?)
    ensures b in Apply(l, op).live <==> b in l.live && AllSet(Apply(l, op).phys.bits, b.page, b.n)
  {
    if op.FreePage? {
      FreePageIsFree(l.phys, op.phys);
      FreeIsAllOrNothing(l.phys, op.phys, PAGE_SIZE);
      PagesHoldBytes(PAGE_SIZE);
      BlockEnds(l, AfterFreePage(l.phys, op.phys), op.phys / PAGE_SIZE, 1, b);
    } else {
      FreeIsAllOrNothing(l.phys, op.phys, op.size);
      if PagesOf(op.size) > 0 {
        BlockEnds(l, AfterFree(l.phys, op.phys, op.size), op.phys / PAGE_SIZE, PagesOf(op.size), b);
      }
    }
  }

  // ----- the same without a ledger -----

  ghost function Does(s: Phys, op: Op): Phys {
    match op
    case AllocPage => AfterAlloc(s, PAGE_SIZE)
    case Alloc(size) => AfterAlloc(s, size)
    case FreePage(phys) => AfterFreePage(s, phys)
    case Free(phys, size) => AfterFree(s, phys, size)
  }

  ghost function PhysAfter(s: Phys, ops: seq<Op>, n: nat): Phys
    requires n <= |ops|
  {
    if n == 0 then s else Does(PhysAfter(s, ops, n - 1), ops[n - 1])
  }

  /** The operation names the page of byte `x` as one to free. */
  predicate FreesByte(op: Op, x: nat) {
    match op
    case FreePage(phys) => phys / PAGE_SIZE == x / PAGE_SIZE
    case Free(phys, size) => phys / PAGE_SIZE <= x / PAGE_SIZE &&
        x / PAGE_SIZE * PAGE_SIZE < phys / PAGE_SIZE * PAGE_SIZE + size
    case _ => false
  }

  /** The operation hands out byte `x`: it returns an address, and `x` is among the bytes asked for. */
  ghost predicate HandsOut(s: Phys, op: Op, x: nat) {
    match op
    case AllocPage => AllocResult(s, PAGE_SIZE) != 0 &&
        AllocResult(s, PAGE_SIZE) <= x < AllocResult(s, PAGE_SIZE) + PAGE_SIZE
    case Alloc(size) => AllocResult(s, size) != 0 && AllocResult(s, size) <= x < AllocResult(s, size) + size
    case _ => false
  }

  lemma {:induction false} HandedOutByte(s: Phys, op: Op, x: nat)
    requires HandsOut(s, op, x)
    ensures x / PAGE_SIZE !in s.bits && x / PAGE_SIZE in Does(s, op).bits
  {
    var size := if op.AllocPage? then PAGE_SIZE else op.size;
    PagesHoldBytes(size);
    AllocInBytes(s, size);
    assert AllocResult(s, size) % PAGE_SIZE == 0;
    var a := AllocResult(s, size);
    var i: nat :| ByteBlock(s, i, a, size);
    PageStart(a, x);
  }

  lemma {:induction false} PageStart(a: nat, x: nat)
    requires a % PAGE_SIZE == 0 && a <= x
    ensures a <= x / PAGE_SIZE * PAGE_SIZE <= x
  {
  }

  lemma {:induction false} ByteStays(s: Phys, op: Op, x: nat)
    requires Disjoint(s.regions) && x / PAGE_SIZE in s.bits && !FreesByte(op, x)
    ensures x / PAGE_SIZE in Does(s, op).bits
  {
    match op
    case AllocPage =>
    case Alloc(size) =>
    case FreePage(phys) =>
      FreePageIsFree(s, phys);
      FreeIsAllOrNothing(s, phys, PAGE_SIZE);
      PagesHoldBytes(PAGE_SIZE);
    case Free(phys, size) =>
      FreeIsAllOrNothing(s, phys, size);
      PagesHoldBytes(size);
      if PagesOf(size) > 0 {
        PageInRun(phys / PAGE_SIZE, PagesOf(size), size, x / PAGE_SIZE);
      }
  }

  lemma {:induction false} RegionsStay(s: Phys, op: Op)
    requires Disjoint(s.regions)
    ensures Disjoint(Does(s, op).regions)
  {
    match op
    case AllocPage => AllocRegions(s, PAGE_SIZE);
    case Alloc(size) => AllocRegions(s, size);
    case FreePage(phys) =>
      FreePageIsFree(s, phys);
      FreeRegions(s, phys, PAGE_SIZE);
    case Free(phys, size) => FreeRegions(s, phys, size);
  }

  lemma {:induction false} AllocRegions(s: Phys, size: nat)
    requires Disjoint(s.regions)
    ensures Disjoint(AfterAlloc(s, size).regions)
  {
    SameOwners(s.regions, AfterAlloc(s, size).regions);
  }

  lemma {:induction false} FreeRegions(s: Phys, phys: nat, size: nat)
    requires Disjoint(s.regions)
    ensures Disjoint(AfterFree(s, phys, size).regions)
  {
    OwnerSound(s, phys / PAGE_SIZE, PagesOf(size), 0);
    SameOwners(s.regions, AfterFree(s, phys, size).regions);
  }

  lemma {:induction false} RegionsStayApart(s: Phys, ops: seq<Op>, n: nat)
    requires Disjoint(s.regions) && n <= |ops|
    ensures Disjoint(PhysAfter(s, ops, n).regions)
  {
    if n == 0 {
    } else {
      RegionsStayApart(s, ops, n - 1);
      RegionsStay(PhysAfter(s, ops, n - 1), ops[n - 1]);
    }
  }

  /** Over every run on disjoint regions, no byte is handed out twice unless a free has named its page in between. */
  lemma {:induction false} NoByteTwice(s: Phys, ops: seq<Op>, i: nat, j: nat, x: nat)
    requires Disjoint(s.regions) && i < j < |ops|
    requires HandsOut(PhysAfter(s, ops, i), ops[i], x) && HandsOut(PhysAfter(s, ops, j), ops[j], x)
    ensures exists k :: i < k < j && FreesByte(ops[k], x)
  {
    HandedOutByte(PhysAfter(s, ops, j), ops[j], x);
    StaysHandedOut(s, ops, i, j, x);
  }

  lemma {:induction false} StaysHandedOut(s: Phys, ops: seq<Op>, i: nat, j: nat, x: nat)
    requires Disjoint(s.regions) && i < j <= |ops| && HandsOut(PhysAfter(s, ops, i), ops[i], x)
    ensures (forall k | i < k < j :: !FreesByte(ops[k], x)) ==> x / PAGE_SIZE in PhysAfter(s, ops, j).bits
  {
    if forall k | i < k < j :: !FreesByte(ops[k], x) {
      HandedOutByte(PhysAfter(s, ops, i), ops[i], x);
      for k := i + 1 to j
        invariant x / PAGE_SIZE in PhysAfter(s, ops, k).bits
      {
        RegionsStayApart(s, ops, k);
        ByteStays(PhysAfter(s, ops, k), ops[k], x);
      }
    }
  }

  // ----- freeing a list of frames -----

  ghost function FreeEach(s: Phys, frames: seq<nat>): Phys
    decreases frames
  {
    if frames == [] then s else FreeEach(AfterFree(s, frames[0], PAGE_SIZE), frames[1..])
  }

  predicate InSomeRegion(regions: seq<Region>, page: nat) { exists i :: 0 <= i < |regions| && regions[i].Owns(page) }

  predicate Names(frames: seq<nat>, q: nat) { exists i :: 0 <= i < |frames| && frames[i] / PAGE_SIZE == q }

  /** Freeing frames one by one clears precisely the bits of those that lie in a region. */
  lemma {:induction false} FreeEachClears(s: Phys, frames: seq<nat>, q: nat)
    ensures q in FreeEach(s, frames).bits <==>
            q in s.bits && !(InSomeRegion(s.regions, q) && Names(frames, q))
    decreases frames
  {
    if frames == [] {
    } else {
      var f := frames[0];
      var s' := AfterFree(s, f, PAGE_SIZE);
      FreeOneClears(s, f, q);
      FreeEachClears(s', frames[1..], q);
      assert forall i | 1 <= i < |frames| :: frames[i] == frames[1..][i - 1];
      assert forall i | 0 <= i < |frames[1..]| :: frames[1..][i] == frames[i + 1];
    }
  }

  lemma {:induction false} FreeOneClears(s: Phys, f: nat, q: nat)
    ensures var s' := AfterFree(s, f, PAGE_SIZE);
            && (q in s'.bits <==> q in s.bits && !(InSomeRegion(s.regions, q) && f / PAGE_SIZE == q))
            && (InSomeRegion(s'.regions, q) <==> InSomeRegion(s.regions, q))
  {
    var page := f / PAGE_SIZE;
    FreeIsAllOrNothing(s, f, PAGE_SIZE);
    OwnerSound(s, page, 1, 0);
    var s' := AfterFree(s, f, PAGE_SIZE);
    assert forall i | 0 <= i < |s.regions| :: s'.regions[i].Owns(q) == s.regions[i].Owns(q);
    if InSomeRegion(s.regions, page) && page in s.bits {
      var i :| 0 <= i < |s.regions| && s.regions[i].Owns(page);
      assert s.regions[i].Fits(page, 1) && AllSet(s.bits, page, 1);
    }
    if InSomeRegion(s.regions, q) {
      var i :| 0 <= i < |s.regions| && s.regions[i].Owns(q);
      assert s'.regions[i].Owns(q);
    }
  }
}
