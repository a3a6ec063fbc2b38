/** The free list of a virtual region (Kernel/mm/avmf.c:351-429 and 659-752) as a sequence of ranges and a counter. */
module FreeListSpec {
  import opened Common

  datatype Range = Range(base: nat, size: nat) {
    function End(): nat { base + size }

    predicate Has(a: nat) { base <= a < End() }

    predicate Overlaps(r: Range) { base < r.End() && r.base < End() }
  }

  /** `count` is the region's free_count: the loops trust it, whatever the length of the chain. */
  datatype FreeList = FreeList(ranges: seq<Range>, count: nat)

  /** Sorted, disjoint, fully coalesced: between two ranges there is always a gap. */
  ghost predicate Chain(s: seq<Range>) {
    && (forall i | 0 <= i < |s| :: s[i].size > 0 && s[i].End() <= U64_MAX)
    && (forall i, j | 0 <= i < j < |s| :: s[i].End() < s[j].base)
  }

  ghost predicate Covers(s: seq<Range>, a: nat) { exists i :: 0 <= i < |s| && s[i].Has(a) }

  // ----- avmf_free_list_append -----

  /** The loop: the position where the walk stops, or None when it meets an overlap or runs off the chain. */
  function Walk(l: FreeList, r: Range, i: nat): Option<nat>
    decreases l.count - i
  {
    if i >= l.count then Some(i)
    else if i >= |l.ranges| || l.ranges[i].End() > U64_MAX || r.Overlaps(l.ranges[i]) then None
    else if r.base < l.ranges[i].base then Some(i)
    else Walk(l, r, i + 1)
  }

  predicate MergesPrev(s: seq<Range>, r: Range, k: nat) { 0 < k <= |s| && s[k - 1].End() == r.base }

  predicate MergesNext(s: seq<Range>, r: Range, k: nat) { k < |s| && r.End() == s[k].base }

  /** The range that the append leaves around `r`, and what stays on its two sides. */
  function Merged(s: seq<Range>, r: Range, k: nat): Range
    requires k <= |s|
  {
    var lo := if MergesPrev(s, r, k) then s[k - 1].base else r.base;
    var hi := if MergesNext(s, r, k) then s[k].End() else r.End();
    Range(lo, if hi >= lo then hi - lo else 0)
  }

  function Low(s: seq<Range>, r: Range, k: nat): seq<Range>
    requires k <= |s|
  {
    if MergesPrev(s, r, k) then s[..k - 1] else s[..k]
  }

  function High(s: seq<Range>, r: Range, k: nat): seq<Range>
    requires k <= |s|
  {
    if MergesNext(s, r, k) then s[k + 1..] else s[k..]
  }

  /** The chain with `r` put in at position `k` and merged with the neighbours that it touches. */
  function Insert(s: seq<Range>, r: Range, k: nat): seq<Range>
    requires k <= |s|
  {
    Low(s, r, k) + [Merged(s, r, k)] + High(s, r, k)
  }

  function CountAfter(l: FreeList, r: Range, k: nat): nat
    requires l.count > 0
  {
    if MergesNext(l.ranges, r, k) then l.count - 1
    else if MergesPrev(l.ranges, r, k) then l.count
    else l.count + 1
  }

  lemma {:induction false} WalkStops(l: FreeList, r: Range, i: nat)
    requires i <= |l.ranges|
    ensures Walk(l, r, i).Some? ==> Walk(l, r, i).value <= |l.ranges| || l.count > |l.ranges|
    ensures Walk(l, r, i).Some? && i <= l.count ==> Walk(l, r, i).value <= l.count
    ensures Walk(l, r, i).Some? ==> i <= Walk(l, r, i).value
    ensures Walk(l, r, i).Some? && l.count > |l.ranges| ==> Walk(l, r, i).value < |l.ranges|
    decreases l.count - i
  {
    if i < l.count && i < |l.ranges| {
      WalkStops(l, r, i + 1);
    }
  }

  /** avmf_free_list_append on a valid region: the new list, or None when it returns false. */
  function Append(l: FreeList, r: Range): Option<FreeList> {
    if r.size == 0 || r.End() > U64_MAX then None
    else if l.ranges == [] || l.count == 0 then Some(FreeList([r], 1))
    else
      var k := Walk(l, r, 0);
      if k.None? || k.value > |l.ranges| then None
      else Some(FreeList(Insert(l.ranges, r, k.value), CountAfter(l, r, k.value)))
  }

  /** The walk of an exact list stops behind the ranges that lie below `r`, or finds an overlap. */
  lemma {:induction false} WalkExact(l: FreeList, r: Range, i: nat)
    requires Chain(l.ranges) && l.count == |l.ranges| && r.size > 0 && i <= l.count
    requires forall j | 0 <= j < i :: l.ranges[j].End() <= r.base
    ensures var k := Walk(l, r, i);
            if k.Some? then
              && k.value <= |l.ranges|
              && (forall j | 0 <= j < k.value :: l.ranges[j].End() <= r.base)
              && (forall j | k.value <= j < |l.ranges| :: r.End() <= l.ranges[j].base)
            else exists j :: 0 <= j < |l.ranges| && r.Overlaps(l.ranges[j])
    decreases l.count - i
  {
    if i < l.count {
      var c := l.ranges[i];
      if r.Overlaps(c) {
      } else if r.base < c.base {
        assert forall j | i < j < |l.ranges| :: c.End() < l.ranges[j].base;
      } else {
        WalkExact(l, r, i + 1);
      }
    }
  }

  ghost predicate Fits(s: seq<Range>, r: Range, k: nat) {
    && Chain(s) && k <= |s| && r.size > 0 && r.End() <= U64_MAX
    && (forall j | 0 <= j < k :: s[j].End() <= r.base)
    && (forall j | k <= j < |s| :: r.End() <= s[j].base)
  }

  lemma {:induction false} LowSide(s: seq<Range>, r: Range, k: nat)
    requires Fits(s, r, k)
    ensures Chain(Low(s, r, k))
    ensures forall i | 0 <= i < |Low(s, r, k)| :: Low(s, r, k)[i].End() < Merged(s, r, k).base
    ensures Merged(s, r, k).base == if MergesPrev(s, r, k) then s[k - 1].base else r.base
  {
    var x := Low(s, r, k);
    forall i | 0 <= i < |x|
      ensures x[i].End() < Merged(s, r, k).base
    {
      if i < k - 1 {
        assert s[i].End() < s[k - 1].base;
      }
    }
  }

  lemma {:induction false} HighSide(s: seq<Range>, r: Range, k: nat)
    requires Fits(s, r, k)
    ensures Chain(High(s, r, k))
    ensures Merged(s, r, k).End() == if MergesNext(s, r, k) then s[k].End() else r.End()
    ensures forall j | 0 <= j < |High(s, r, k)| :: Merged(s, r, k).End() < High(s, r, k)[j].base
    ensures Merged(s, r, k).size >= r.size
  {
    var y, n := High(s, r, k), MergesNext(s, r, k);
    if k < |s| {
      assert forall j | k < j < |s| :: s[k].End() < s[j].base;
    }
    forall j | 0 <= j < |y|
      ensures y[j] == if n then s[j + k + 1] else s[j + k]
    {
    }
  }

  lemma {:induction false} InsertChain(s: seq<Range>, r: Range, k: nat)
    requires Fits(s, r, k)
    ensures Chain(Insert(s, r, k))
  {
    LowSide(s, r, k);
    HighSide(s, r, k);
    ThreeParts(Low(s, r, k), Merged(s, r, k), High(s, r, k));
  }

  lemma {:induction false} ThreeParts(x: seq<Range>, m: Range, y: seq<Range>)
    requires Chain(x) && Chain(y) && m.size > 0 && m.End() <= U64_MAX
    requires forall i | 0 <= i < |x| :: x[i].End() < m.base
    requires forall j | 0 <= j < |y| :: m.End() < y[j].base
    ensures Chain(x + [m] + y)
  {
    ChainConcat(x, [m]);
    var xm := x + [m];
    forall i, j | 0 <= i < |xm| && 0 <= j < |y|
      ensures xm[i].End() < y[j].base
    {
      assert xm[i].End() <= m.End();
    }
    ChainConcat(xm, y);
  }

  lemma {:induction false} ChainConcat(x: seq<Range>, y: seq<Range>)
    requires Chain(x) && Chain(y) && forall i, j | 0 <= i < |x| && 0 <= j < |y| :: x[i].End() < y[j].base
    ensures Chain(x + y)
  {
    var t := x + y;
    forall i, j | 0 <= i < j < |t|
      ensures t[i].End() < t[j].base
    {
      if i < |x| <= j {
        assert x[i].End() < y[j - |x|].base;
      }
    }
  }

  lemma {:induction false} CoversConcat(x: seq<Range>, y: seq<Range>, a: nat)
    ensures Covers(x + y, a) <==> Covers(x, a) || Covers(y, a)
  {
    if Covers(x, a) {
      var i :| 0 <= i < |x| && x[i].Has(a);
      assert (x + y)[i].Has(a);
    }
    if Covers(y, a) {
      var i :| 0 <= i < |y| && y[i].Has(a);
      assert (x + y)[|x| + i].Has(a);
    }
    if Covers(x + y, a) {
      var i :| 0 <= i < |x + y| && (x + y)[i].Has(a);
      assert if i < |x| then x[i].Has(a) else y[i - |x|].Has(a);
    }
  }

  lemma {:induction false} CoversOne(r: Range, a: nat)
    ensures Covers([r], a) <==> r.Has(a)
  {
    assert r.Has(a) ==> [r][0].Has(a);
  }

  lemma {:induction false} InsertCovers(s: seq<Range>, r: Range, k: nat, a: nat)
    requires Fits(s, r, k)
    ensures Covers(Insert(s, r, k), a) <==> Covers(s, a) || r.Has(a)
  {
    var x, m, y := Low(s, r, k), Merged(s, r, k), High(s, r, k);
    CoversConcat(x + [m], y, a);
    CoversConcat(x, [m], a);
    CoversOne(m, a);
    assert s == s[..k] + s[k..];
    CoversConcat(s[..k], s[k..], a);
    MergedHas(s, r, k, a);
    LowCovers(s, r, k, a);
    HighCovers(s, r, k, a);
  }

  lemma {:induction false} MergedHas(s: seq<Range>, r: Range, k: nat, a: nat)
    requires Fits(s, r, k)
    ensures Merged(s, r, k).Has(a) <==>
            r.Has(a) || (MergesPrev(s, r, k) && s[k - 1].Has(a)) || (MergesNext(s, r, k) && s[k].Has(a))
  {
    LowSide(s, r, k);
    HighSide(s, r, k);
  }

  lemma {:induction false} LowCovers(s: seq<Range>, r: Range, k: nat, a: nat)
    requires k <= |s|
    ensures Covers(s[..k], a) <==> Covers(Low(s, r, k), a) || (MergesPrev(s, r, k) && s[k - 1].Has(a))
  {
    if MergesPrev(s, r, k) {
      assert s[..k] == Low(s, r, k) + [s[k - 1]];
      CoversConcat(Low(s, r, k), [s[k - 1]], a);
      CoversOne(s[k - 1], a);
    }
  }

  lemma {:induction false} HighCovers(s: seq<Range>, r: Range, k: nat, a: nat)
    requires k <= |s|
    ensures Covers(s[k..], a) <==> Covers(High(s, r, k), a) || (MergesNext(s, r, k) && s[k].Has(a))
  {
    if MergesNext(s, r, k) {
      assert s[k..] == [s[k]] + High(s, r, k);
      CoversConcat([s[k]], High(s, r, k), a);
      CoversOne(s[k], a);
    }
  }

  /** On a sorted, disjoint, coalesced chain whose counter is exact: the append is refused exactly when the range is
      empty, overflows or overlaps; otherwise the chain is again sorted, disjoint and coalesced, and covers exactly the
      old addresses and the new range. */
  lemma {:induction false} AppendIsUnion(l: FreeList, r: Range)
    requires Chain(l.ranges) && l.count == |l.ranges|
    ensures Append(l, r).None? <==> r.size == 0 || r.End() > U64_MAX || exists i ::
              0 <= i < |l.ranges| && r.Overlaps(l.ranges[i])
    ensures Append(l, r).Some? ==> Chain(Append(l, r).value.ranges)
    ensures Append(l, r).Some? ==> forall a :: Covers(Append(l, r).value.ranges, a) <==> Covers(l.ranges, a) || r.Has(a)
  {
    if r.size > 0 && r.End() <= U64_MAX {
      if l.ranges == [] {
        assert forall a :: r.Has(a) ==> [r][0].Has(a);
      } else {
        WalkExact(l, r, 0);
        var k := Walk(l, r, 0);
        if k.Some? {
          InsertChain(l.ranges, r, k.value);
          forall a: nat {
            InsertCovers(l.ranges, r, k.value, a);
          }
        }
      }
    }
  }

  /** Between two neighbours the range extends only the upper one. */
  ghost predicate OnlyMergesNext(l: FreeList, r: Range) {
    var k := Walk(l, r, 0);
    k.Some? && MergesNext(l.ranges, r, k.value) && !MergesPrev(l.ranges, r, k.value)
  }

  /** The counter stays exact exactly when the append does not merge with the upper neighbour alone: there the code
      counts a node as removed although the new one takes its place. */
  lemma {:induction false} CountStaysExact(l: FreeList, r: Range)
    requires Chain(l.ranges) && l.count == |l.ranges| && Append(l, r).Some?
    ensures Append(l, r).value.count == |Append(l, r).value.ranges| <==> l.ranges == [] || !OnlyMergesNext(l, r)
  {
    if l.ranges != [] {
      WalkExact(l, r, 0);
    }
  }

  /** What the wrong counter does: after one append below a single range the counter is 0, and the next append throws
      the whole list away. */
  lemma {:induction false} CountLosesMemory()
    ensures var l := FreeList([Range(0x2000, 0x1000)], 1);
            var l1 := Append(l, Range(0x1000, 0x1000));
            && l1 == Some(FreeList([Range(0x1000, 0x2000)], 0))
            && Append(l1.value, Range(0x9000, 0x1000)) == Some(FreeList([Range(0x9000, 0x1000)], 1))
            && Covers(l1.value.ranges, 0x1000) && !Covers([Range(0x9000, 0x1000)], 0x1000)
  {
    var l, r := FreeList([Range(0x2000, 0x1000)], 1), Range(0x1000, 0x1000);
    assert Walk(l, r, 0) == Some(0);
    assert Low(l.ranges, r, 0) == [] && High(l.ranges, r, 0) == [];
    assert Insert(l.ranges, r, 0) == [Range(0x1000, 0x2000)];
    CoversOne(Range(0x1000, 0x2000), 0x1000);
    CoversOne(Range(0x9000, 0x1000), 0x1000);
  }

  // ----- the coalesced form is unique -----

  lemma {:induction false} UniqueForm(s: seq<Range>, t: seq<Range>)
    requires Chain(s) && Chain(t) && forall a :: Covers(s, a) <==> Covers(t, a)
    ensures s == t
    decreases s
  {
    SomeCovered(s);
    SomeCovered(t);
    if s != [] && t != [] {
      SameHead(s, t);
      SameHead(t, s);
      assert s[0] == t[0];
      forall a: nat
        ensures Covers(s[1..], a) <==> Covers(t[1..], a)
      {
        TailCovers(s, a);
        TailCovers(t, a);
      }
      UniqueForm(s[1..], t[1..]);
      assert s == [s[0]] + s[1..] && t == [t[0]] + t[1..];
    }
  }

  lemma {:induction false} TailCovers(s: seq<Range>, a: nat)
    requires Chain(s) && s != []
    ensures Covers(s[1..], a) <==> Covers(s, a) && !s[0].Has(a)
  {
    if Covers(s[1..], a) {
      var i :| 0 <= i < |s[1..]| && s[1..][i].Has(a);
      assert s[i + 1].Has(a);
    }
    if Covers(s, a) && !s[0].Has(a) {
      var i :| 0 <= i < |s| && s[i].Has(a);
      assert s[1..][i - 1].Has(a);
    }
  }

  lemma {:induction false} SameHead(s: seq<Range>, t: seq<Range>)
    requires Chain(s) && Chain(t) && s != [] && t != [] && forall a :: Covers(s, a) <==> Covers(t, a)
    ensures t[0].base <= s[0].base && (t[0].base == s[0].base ==> s[0].End() <= t[0].End())
  {
    HeadCovers(s, s[0].base);
    var i :| 0 <= i < |t| && t[i].Has(s[0].base);
    EndIsFree(t);
    HeadCovers(s, t[0].End());
  }

  lemma {:induction false} HeadCovers(s: seq<Range>, x: nat)
    requires s != []
    ensures s[0].Has(x) ==> Covers(s, x)
  {
  }

  lemma {:induction false} SomeCovered(s: seq<Range>)
    requires Chain(s)
    ensures s != [] ==> Covers(s, s[0].base)
  {
    if s != [] {
      HeadCovers(s, s[0].base);
    }
  }

  /** Behind the head range there is a gap. */
  lemma {:induction false} EndIsFree(s: seq<Range>)
    requires Chain(s) && s != []
    ensures !Covers(s, s[0].End())
  {
    forall i | 0 <= i < |s|
      ensures !s[i].Has(s[0].End())
    {
    }
  }
}
