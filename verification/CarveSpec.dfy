/** Carving a block from the free list: the free-list path of avmf_region_alloc (Kernel/mm/avmf.c:659-757). */
module CarveSpec {
  import opened Common
  import opened FreeListSpec
  import opened Arithmetic

  datatype Carved = Carved(list: FreeList, base: nat)

  /** The rounding of the candidate address, in 64-bit arithmetic. */
  function AlignUp64(x: nat, align: nat): nat
    requires align > 0
  {
    if x % align == 0 then x else (x + (align - x % align)) % U64
  }

  function StartIn(cur: Range, minVirt: nat): nat { if cur.base < minVirt then minVirt else cur.base }

  predicate Wraps(cur: Range, align: nat, minVirt: nat)
    requires align > 0
  {
    var x := StartIn(cur, minVirt);
    x % align != 0 && x + (align - x % align) >= U64
  }

  /** Whether the range can give the block: the chain of `goto next_free` tests. */
  predicate Suits(cur: Range, size: nat, align: nat, minVirt: nat, maxVirt: nat) {
    && cur.size != 0 && cur.End() <= U64_MAX && align != 0
    && (var b := AlignUp64(StartIn(cur, minVirt), align);
        && cur.base <= b <= cur.End() && size <= cur.End() - b
        && (maxVirt != 0 ==> b <= maxVirt && size <= maxVirt - b))
  }

  /** What is left of a range around the block. */
  function Remainder(cur: Range, b: nat, size: nat): seq<Range>
    requires cur.base <= b && b + size <= cur.End()
  {
    (if b > cur.base then [Range(cur.base, b - cur.base)] else [])
    + (if b + size < cur.End() then [Range(b + size, cur.End() - (b + size))] else [])
  }

  /** The path: only the head range is ever looked at, because the label `next_free` stands behind the loop. */
  function Carve(l: FreeList, size: nat, align: nat, minVirt: nat, maxVirt: nat): Option<Carved> {
    if l.count == 0 || l.ranges == [] || !Suits(l.ranges[0], size, align, minVirt, maxVirt) then None
    else
      var cur := l.ranges[0];
      var b := AlignUp64(StartIn(cur, minVirt), align);
      var rest := Remainder(cur, b, size);
      Some(Carved(FreeList(rest + l.ranges[1..], l.count + |rest| - 1), b))
  }

  /** A carve takes an aligned block out of the head range, below maxVirt if that is set, and removes exactly its
      addresses; list and counter stay exact. */
  lemma {:induction false} CarveRemovesExactly(l: FreeList, size: nat, align: nat, minVirt: nat, maxVirt: nat)
    requires Chain(l.ranges) && l.count == |l.ranges| && size > 0
    requires Carve(l, size, align, minVirt, maxVirt).Some?
    ensures var c := Carve(l, size, align, minVirt, maxVirt).value;
            var block := Range(c.base, size);
            && l.ranges[0].base <= c.base && block.End() <= l.ranges[0].End()
            && (maxVirt != 0 ==> block.End() <= maxVirt)
            && (!Wraps(l.ranges[0], align, minVirt) ==> c.base % align == 0)
            && Chain(c.list.ranges) && c.list.count == |c.list.ranges|
            && forall a :: Covers(c.list.ranges, a) <==> Covers(l.ranges, a) && !block.Has(a)
  {
    var cur := l.ranges[0];
    var c := Carve(l, size, align, minVirt, maxVirt).value;
    var rest := Remainder(cur, c.base, size);
    ChainConcat(rest, l.ranges[1..]);
    if !Wraps(cur, align, minVirt) {
      AlignUpAligned(StartIn(cur, minVirt), align);
    }
    forall a: nat
      ensures Covers(c.list.ranges, a) <==> Covers(l.ranges, a) && !Range(c.base, size).Has(a)
    {
      CoversConcat(rest, l.ranges[1..], a);
      TailCovers(l.ranges, a);
      RemainderCovers(cur, c.base, size, a);
      if Covers(l.ranges[1..], a) {
        var i :| 0 <= i < |l.ranges[1..]| && l.ranges[1..][i].Has(a);
        assert l.ranges[i + 1].Has(a);
      }
      if cur.Has(a) {
        assert l.ranges[0].Has(a);
      }
    }
  }

  lemma {:induction false} AlignUpAligned(x: nat, align: nat)
    requires align > 0
    ensures (x + (align - x % align)) % align == 0
  {
    var q := x / align;
    assert x + (align - x % align) == align * (q + 1);
    MultipleMod(align, q + 1);
  }

  lemma {:induction false} MultipleMod(a: nat, q: nat)
    requires a > 0
    ensures (a * q) % a == 0
  {
    DivUnique(a * q, a, q, 0);
  }

  lemma {:induction false} CoversAtMostOne(r: Range, there: bool, a: nat)
    ensures Covers(if there then [r] else [], a) <==> there && r.Has(a)
  {
    if there {
      CoversOne(r, a);
    }
  }

  lemma {:induction false} RemainderCovers(cur: Range, b: nat, size: nat, a: nat)
    requires cur.base <= b && b + size <= cur.End()
    ensures Covers(Remainder(cur, b, size), a) <==> cur.Has(a) && !Range(b, size).Has(a)
  {
    var low, high := b > cur.base, b + size < cur.End();
    var x, y := Range(cur.base, b - cur.base), Range(b + size, cur.End() - (b + size));
    CoversConcat(if low then [x] else [], if high then [y] else [], a);
    CoversAtMostOne(x, low, a);
    CoversAtMostOne(y, high, a);
    assert Remainder(cur, b, size) == (if low then [x] else []) + (if high then [y] else []);
  }

  /** The block starts at or above minVirt exactly when the rounding does not wrap around 2^64. The kernel's only caller
      passes whole pages throughout; `FreeListRuns.PageRunsRespectMinimum` shows that nothing wraps then. */
  lemma {:induction false} CarveRespectsMinimum(l: FreeList, size: nat, align: nat, minVirt: nat, maxVirt: nat)
    requires Carve(l, size, align, minVirt, maxVirt).Some? && minVirt < U64 && l.ranges[0].base < U64 && align < U64
    ensures Carve(l, size, align, minVirt, maxVirt).value.base >= minVirt <==> !Wraps(l.ranges[0], align, minVirt)
  {
  }

  /** A block at `b` that a caller could be given out of the range. */
  predicate Admissible(cur: Range, size: nat, align: nat, minVirt: nat, maxVirt: nat, b: nat)
    requires align > 0
  {
    && b % align == 0 && minVirt <= b
    && cur.base <= b && b + size <= cur.base + cur.size
    && (maxVirt != 0 ==> b + size <= maxVirt)
  }

  /** As long as the rounding does not wrap, the carve succeeds if and only if the head range holds an admissible block,
      and it takes the lowest one. */
  lemma {:induction false} CarveIsLowest(l: FreeList, size: nat, align: nat, minVirt: nat, maxVirt: nat)
    requires Chain(l.ranges) && l.count == |l.ranges| && align > 0 && l.ranges != []
    requires !Wraps(l.ranges[0], align, minVirt)
    ensures var got, cur := Carve(l, size, align, minVirt, maxVirt), l.ranges[0];
            && (got.Some? <==> exists b: nat :: Admissible(cur, size, align, minVirt, maxVirt, b))
            && (got.Some? ==> Admissible(cur, size, align, minVirt, maxVirt, got.value.base))
            && (got.Some? ==>
                  forall b: nat | Admissible(cur, size, align, minVirt, maxVirt, b) :: got.value.base <= b)
  {
    var cur := l.ranges[0];
    var x := StartIn(cur, minVirt);
    AlignUpLeast(x, align);
    forall b: nat | Admissible(cur, size, align, minVirt, maxVirt, b)
      ensures AlignUp64(x, align) <= b && Suits(cur, size, align, minVirt, maxVirt)
    {
      LeastAbove(x, align, b);
    }
    if Suits(cur, size, align, minVirt, maxVirt) {
      assert Admissible(cur, size, align, minVirt, maxVirt, AlignUp64(x, align));
    }
  }

  lemma {:induction false} AlignUpLeast(x: nat, align: nat)
    requires align > 0 && (x % align != 0 ==> x + (align - x % align) < U64)
    ensures x <= AlignUp64(x, align) < x + align && AlignUp64(x, align) % align == 0
  {
    AlignUpAligned(x, align);
  }

  lemma {:induction false} LeastAbove(x: nat, align: nat, b: nat)
    requires align > 0 && x <= b && b % align == 0 && (x % align != 0 ==> x + (align - x % align) < U64)
    ensures AlignUp64(x, align) <= b
  {
    AlignUpLeast(x, align);
    MultiplesApart(b, AlignUp64(x, align), align);
  }

  lemma {:induction false} MultiplesApart(a: nat, b: nat, align: nat)
    requires align > 0 && a % align == 0 && b % align == 0
    ensures a < b ==> a + align <= b
  {
    var p, q := a / align, b / align;
    assert a == align * p && b == align * q;
    if q <= p {
      MulMonotone(align, q, p);
    } else {
      MulMonotone(align, p + 1, q);
    }
  }

  /** Giving the block back restores the very same chain, by uniqueness of the coalesced form. The counter comes back
      too, except when the block was the lower part of the head range: then the append merges only with its upper
      neighbour. */
  lemma {:induction false} AppendUndoesCarve(l: FreeList, size: nat, align: nat, minVirt: nat, maxVirt: nat)
    requires Chain(l.ranges) && l.count == |l.ranges| && size > 0
    requires Carve(l, size, align, minVirt, maxVirt).Some?
    ensures var c := Carve(l, size, align, minVirt, maxVirt).value;
            var block := Range(c.base, size);
            var back := Append(c.list, block);
            && back.Some? && back.value.ranges == l.ranges
            && (back.value.count == l.count <==> !(c.base == l.ranges[0].base && block.End() < l.ranges[0].End()))
  {
    CarveRemovesExactly(l, size, align, minVirt, maxVirt);
    var c := Carve(l, size, align, minVirt, maxVirt).value;
    var block := Range(c.base, size);
    AppendIsUnion(c.list, block);
    forall i | 0 <= i < |c.list.ranges|
      ensures !block.Overlaps(c.list.ranges[i])
    {
      if block.Overlaps(c.list.ranges[i]) {
        CommonAddress(c.list.ranges, i, block);
      }
    }
    forall a: nat
      ensures Covers(Append(c.list, block).value.ranges, a) <==> Covers(l.ranges, a)
    {
      if block.Has(a) {
        assert l.ranges[0].Has(a);
      }
    }
    UniqueForm(Append(c.list, block).value.ranges, l.ranges);
    CarveCount(l, size, align, minVirt, maxVirt);
  }

  lemma {:induction false} CommonAddress(s: seq<Range>, i: nat, r: Range)
    requires Chain(s) && i < |s| && r.size > 0 && r.Overlaps(s[i])
    ensures exists a: nat :: Covers(s, a) && r.Has(a)
  {
    var a := if r.base > s[i].base then r.base else s[i].base;
    assert s[i].Has(a) && r.Has(a);
    assert Covers(s, a);
  }

  lemma {:induction false} CarveCount(l: FreeList, size: nat, align: nat, minVirt: nat, maxVirt: nat)
    requires Chain(l.ranges) && l.count == |l.ranges| && size > 0
    requires Carve(l, size, align, minVirt, maxVirt).Some?
    requires var c := Carve(l, size, align, minVirt, maxVirt).value;
             Append(c.list, Range(c.base, size)).Some? && Chain(c.list.ranges) && c.list.count == |c.list.ranges| &&
             Append(c.list, Range(c.base, size)).value.ranges == l.ranges
    ensures var c := Carve(l, size, align, minVirt, maxVirt).value;
            Append(c.list, Range(c.base, size)).value.count == l.count <==>
            !(c.base == l.ranges[0].base && c.base + size < l.ranges[0].End())
  {
    var c := Carve(l, size, align, minVirt, maxVirt).value;
    var block, cur := Range(c.base, size), l.ranges[0];
    CountStaysExact(c.list, block);
    if c.list.ranges != [] {
      WalkExact(c.list, block, 0);
      Neighbours(l, cur, c.base, size, Walk(c.list, block, 0).value);
    }
  }

  /** The position of the block in the carved chain, and its neighbours there. */
  lemma {:induction false} Neighbours(l: FreeList, cur: Range, b: nat, size: nat, k: nat)
    requires Chain(l.ranges) && l.ranges != [] && l.ranges[0] == cur && size > 0 && cur.base <= b &&
               b + size <= cur.End()
    requires var s := Remainder(cur, b, size) + l.ranges[1..];
             k <= |s| && (forall j | 0 <= j < k :: s[j].End() <= b) &&
                 (forall j | k <= j < |s| :: b + size <= s[j].base)
    requires forall j | 0 <= j < |Remainder(cur, b, size) + l.ranges[1..]| ::
               (Remainder(cur, b, size) + l.ranges[1..])[j].size > 0
    ensures var s, r := Remainder(cur, b, size) + l.ranges[1..], Range(b, size);
            && (MergesNext(s, r, k) <==> b + size < cur.End())
            && (MergesPrev(s, r, k) <==> b > cur.base)
  {
    var rest := Remainder(cur, b, size);
    var s := rest + l.ranges[1..];
    if b > cur.base {
      assert s[0] == Range(cur.base, b - cur.base) && k >= 1;
    }
    if b + size < cur.End() {
      assert s[|rest| - 1] == Range(b + size, cur.End() - (b + size));
    }
    if |s| > |rest| {
      assert s[|rest|] == l.ranges[1];
      assert cur.End() < l.ranges[1].base;
    }
    assert k == if b > cur.base then 1 else 0;
  }

  /** The search is complete, that is, it finds a block whenever some range suits, if and only if the head range suits
      or no range does: the loop never looks at a second range. */
  lemma {:induction false} CarveTriesOnlyHead(l: FreeList, size: nat, align: nat, minVirt: nat, maxVirt: nat)
    requires l.count == |l.ranges|
    ensures var someSuits := exists i :: 0 <= i < |l.ranges| && Suits(l.ranges[i], size, align, minVirt, maxVirt);
            (Carve(l, size, align, minVirt, maxVirt).Some? <==> someSuits) <==>
            !someSuits || Suits(l.ranges[0], size, align, minVirt, maxVirt)
  {
    if Carve(l, size, align, minVirt, maxVirt).Some? {
      assert Suits(l.ranges[0], size, align, minVirt, maxVirt);
    }
  }

  /** Two appends to an empty region after which 16 KiB are free, yet 8 KiB are refused. */
  lemma {:induction false} SmallHeadHidesTheRest()
    ensures var low, high := Range(0x1000, 0x1000), Range(0x8000, 0x4000);
            var l := FreeList([low, high], 2);
            && Append(FreeList([], 0), low) == Some(FreeList([low], 1)) && Append(FreeList([low], 1), high) == Some(l)
            && Suits(high, 0x2000, PAGE_SIZE, 0, 0) && Carve(l, 0x2000, PAGE_SIZE, 0, 0).None?
  {
    var low, high := Range(0x1000, 0x1000), Range(0x8000, 0x4000);
    assert 0x8000 % PAGE_SIZE == 0;
    assert Walk(FreeList([low], 1), high, 0) == Walk(FreeList([low], 1), high, 1) == Some(1);
    assert Insert([low], high, 1) == [low, high];
  }
}
