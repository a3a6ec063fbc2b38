/** The physical allocator (Kernel/mm/avmf.c:52-115 and 856-947): scanning loops over a bitmap array and a region table,
    refining module PhysicalSpec. */
module PhysicalMemory {
  import opened Common
  import opened PhysicalSpec
  import Bitmap

  lemma {:induction false} PagesJoin(before: set<nat>, after: set<nat>, page: nat, n: nat)
    requires forall p :: p in after <==> p in before || page <= p < page + n
    ensures after == before + Pages(page, n)
  {
  }

  lemma {:induction false} PagesLeave(before: set<nat>, after: set<nat>, page: nat, n: nat)
    requires forall p :: p in after <==> p in before && !(page <= p < page + n)
    ensures after == before - Pages(page, n)
  {
  }

  lemma {:induction false} AllocatedAt(s: Phys, size: nat, n: nat, at: Place)
    requires n > 0 && PagesOf(size) == n && FirstFit(s, n, 0) == Some(at)
    ensures at.region < |s.regions| && AfterAlloc(s, size) == Take(s, at, n) &&
              AllocResult(s, size) == at.page * PAGE_SIZE
  {
    FirstFitSound(s, n, 0);
  }

  lemma {:induction false} NotAllocated(s: Phys, size: nat, n: nat)
    requires n > 0 && PagesOf(size) == n && FirstFit(s, n, 0) == None
    ensures AfterAlloc(s, size) == s && AllocResult(s, size) == 0
  {
  }

  class PhysicalMemory {
    const words: array<bv8>
    const regions: array<Region>

    /** The regions end inside the bitmap. */
    ghost predicate Valid()
      reads this, words, regions
    {
      && words.Length == Bitmap.BITMAP_SIZE && words as object != regions
      && forall i | 0 <= i < regions.Length && regions[i].Usable() :: regions[i].End() <= Bitmap.MAX_PAGES
    }

    ghost function State(): Phys
      requires Valid()
      reads this, words, regions
    {
      Phys(Bitmap.Pages(words[..]), regions[..])
    }

    constructor (regions: seq<Region>)
      requires forall i | 0 <= i < |regions| && regions[i].Usable() :: regions[i].End() <= Bitmap.MAX_PAGES
      ensures Valid() && fresh(words) && fresh(this.regions) && State() == Phys({}, regions)
    {
      this.words := new bv8[Bitmap.BITMAP_SIZE](_ => 0);
      this.regions := new Region[|regions|](i requires 0 <= i < |regions| => regions[i]);
      new;
      assert forall p | 0 <= p < Bitmap.MAX_PAGES :: !Bitmap.Bit(words[p / 8], p % 8);
      assert this.regions[..] == regions;
    }

    /** The inner loop of avmf_alloc_phys_contiguous: counts consecutive free pages. */
    method ScanRegion(start: nat, end: nat, n: nat) returns (found: bool, first: nat)
      requires Valid() && n > 0 && end <= Bitmap.MAX_PAGES
      ensures FirstRun(State().bits, start, end, n) == if found then Some(first) else None
    {
      var consecutive: nat := 0;
      first := 0;
      ghost var bits := State().bits;
      var p := start;
      while p < end
        invariant start <= p && (start <= end ==> p <= end) && consecutive < n && consecutive <= p - start
        invariant consecutive > 0 ==> first == p - consecutive
        invariant forall q | p - consecutive <= q < p :: q !in bits
        invariant p - consecutive > start ==> p - consecutive - 1 in bits
        invariant forall q | start <= q && q + n <= p :: !AllFree(bits, q, n)
        decreases end - p
      {
        if !Bitmap.Test(words, p) {
          if consecutive == 0 {
            first := p;
          }
          consecutive := consecutive + 1;
          if consecutive == n {
            FirstRunIs(bits, start, end, n, first);
            return true, first;
          }
          assert p + 1 >= start + n ==> p - consecutive in bits;
        } else {
          consecutive := 0;
        }
        p := p + 1;
      }
      FirstRunNone(bits, start, end, n);
      return false, 0;
    }

    /** Sets the bits of a run and counts its bytes. */
    method TakeRun(i: nat, page: nat, n: nat)
      requires Valid() && i < regions.Length && page + n <= Bitmap.MAX_PAGES
      modifies words, regions
      ensures Valid() && State() == Take(old(State()), Place(i, page), n)
    {
      var r := regions[i];
      ghost var bits := State().bits;
      Bitmap.SetRun(words, page, n);
      PagesJoin(bits, State().bits, page, n);
      regions[i] := r.(inUse := r.inUse + n * PAGE_SIZE);
      assert regions[..] == old(regions[..])[i := r.(inUse := r.inUse + n * PAGE_SIZE)];
    }

    /** Clears the bits of a run and takes its bytes off the count. */
    method GiveRun(i: nat, page: nat, n: nat)
      requires Valid() && i < regions.Length && page + n <= Bitmap.MAX_PAGES
      modifies words, regions
      ensures Valid() && State() == Give(old(State()), i, page, n)
    {
      var r := regions[i];
      ghost var bits := State().bits;
      Bitmap.ClearRun(words, page, n);
      PagesLeave(bits, State().bits, page, n);
      var left := if r.inUse >= n * PAGE_SIZE then r.inUse - n * PAGE_SIZE else 0;
      regions[i] := r.(inUse := left);
      assert regions[..] == old(regions[..])[i := r.(inUse := left)];
    }

    /** avmf_alloc_phys_contiguous. */
    method AllocContiguous(size: nat) returns (phys: nat)
      requires Valid()
      modifies words, regions
      ensures Valid() && State() == AfterAlloc(old(State()), size) && phys == AllocResult(old(State()), size)
    {
      var n := PagesOf(size);
      if n == 0 {
        return 0;
      }
      for i := 0 to regions.Length
        invariant Valid() && State() == old(State())
        invariant FirstFit(State(), n, 0) == FirstFit(State(), n, i)
      {
        var r := regions[i];
        if r.Usable() {
          var found, first := ScanRegion(r.First(), r.End(), n);
          if found {
            FirstRunMeans(State().bits, r.First(), r.End(), n);
            AllocatedAt(State(), size, n, Place(i, first));
            TakeRun(i, first, n);
            return first * PAGE_SIZE;
          }
        }
      }
      return 0;
    }

    /** avmf_alloc_phys_page: the lowest free page, found by its own loop. */
    method AllocPage() returns (phys: nat)
      requires Valid()
      modifies words, regions
      ensures Valid() && State() == AfterAlloc(old(State()), PAGE_SIZE) && phys == AllocResult(old(State()), PAGE_SIZE)
    {
      for i := 0 to regions.Length
        invariant Valid() && State() == old(State())
        invariant FirstFit(State(), 1, 0) == FirstFit(State(), 1, i)
      {
        var r := regions[i];
        if r.Usable() {
          var found, p := ScanPage(r.First(), r.End());
          if found {
            FirstRunMeans(State().bits, r.First(), r.End(), 1);
            AllocatedAt(State(), PAGE_SIZE, 1, Place(i, p));
            TakeRun(i, p, 1);
            return p * PAGE_SIZE;
          }
        }
      }
      NotAllocated(State(), PAGE_SIZE, 1);
      return 0;
    }

    /** Its inner loop, which stops at the first free page. */
    method ScanPage(start: nat, end: nat) returns (found: bool, p: nat)
      requires Valid() && end <= Bitmap.MAX_PAGES
      ensures FirstRun(State().bits, start, end, 1) == if found then Some(p) else None
    {
      ghost var bits := State().bits;
      p := start;
      while p < end
        invariant start <= p
        invariant forall q | start <= q < p && q < end :: q in bits
      {
        if !Bitmap.Test(words, p) {
          forall q | start <= q < p
            ensures !AllFree(bits, q, 1)
          {
            assert q in bits;
          }
          FirstRunIs(bits, start, end, 1, p);
          return true, p;
        }
        p := p + 1;
      }
      forall q | start <= q && q + 1 <= end
        ensures !AllFree(bits, q, 1)
      {
        assert q in bits;
      }
      FirstRunNone(bits, start, end, 1);
      return false, p;
    }

    /** Whether every page of a run is allocated. */
    method RunIsSet(page: nat, n: nat) returns (found: bool)
      requires Valid() && page + n <= Bitmap.MAX_PAGES
      ensures found <==> AllSet(State().bits, page, n)
    {
      for p := page to page + n
        invariant AllSet(State().bits, page, p - page)
      {
        if !Bitmap.Test(words, p) {
          return false;
        }
      }
      return true;
    }

    /** avmf_free_phys_contiguous. */
    method FreeContiguous(phys: nat, size: nat)
      requires Valid()
      modifies words, regions
      ensures Valid() && State() == AfterFree(old(State()), phys, size)
    {
      var n := PagesOf(size);
      if n == 0 {
        return;
      }
      var page := phys / PAGE_SIZE;
      for i := 0 to regions.Length
        invariant Valid() && State() == old(State())
        invariant Owner(State(), page, n, 0) == Owner(State(), page, n, i)
      {
        var r := regions[i];
        if r.Usable() && r.First() <= page < r.End() && n <= r.End() - page {
          var found := RunIsSet(page, n);
          if found {
            assert Owner(old(State()), page, n, i) == Some(i);
            GiveRun(i, page, n);
            return;
          }
        }
      }
    }

    /** avmf_free_phys_page. */
    method FreeOnePage(phys: nat)
      requires Valid()
      modifies words, regions
      ensures Valid() && State() == AfterFreePage(old(State()), phys)
    {
      var page := phys / PAGE_SIZE;
      for i := 0 to regions.Length
        invariant Valid() && State() == old(State())
        invariant PageOwner(State(), page, 0) == PageOwner(State(), page, i)
      {
        var r := regions[i];
        if r.Owns(page) {
          if !Bitmap.Test(words, page) {
            return;
          }
          GiveRun(i, page, 1);
          return;
        }
      }
    }
  }
}
