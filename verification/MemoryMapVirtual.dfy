/** The virtual addresses in the entries of the memory map (Bootloader/UEFI/src/bootloader_uefi.c:996-1156). */
module MemoryMapVirtual {
  import opened Common
  import opened MemoryMap

  /** The entry gives each physical address the virtual one that the descriptor gives it, in 64-bit arithmetic; a
      descriptor without a virtual address has an entry without one, or one that happens to agree. */
  predicate SameOffset(e: Entry, d: Desc) {
    (e.virt == 0 && d.virt == 0) || (e.virt - e.phys - (d.virt - d.phys)) % U64 == 0
  }

  ghost predicate Carries(es: seq<Entry>, d: Desc, x: nat) {
    exists k :: 0 <= k < |es| && es[k].Covers(x) && SameOffset(es[k], d)
  }

  /** Entries are added or extended, and none is moved or shortened. */
  ghost predicate Longer(es: seq<Entry>, es': seq<Entry>) {
    |es| <= |es'| && forall k | 0 <= k < |es| :: Extends(es[k], es'[k])
  }

  predicate Extends(e: Entry, e': Entry) { e'.phys == e.phys && e'.virt == e.virt && e'.size >= e.size }

  lemma {:induction false} CarriesStays(es: seq<Entry>, es': seq<Entry>, d: Desc, x: nat)
    requires Longer(es, es') && Carries(es, d, x)
    ensures Carries(es', d, x)
  {
    var k :| 0 <= k < |es| && es[k].Covers(x) && SameOffset(es[k], d);
    assert Extends(es[k], es'[k]);
    assert es'[k].Covers(x) && SameOffset(es'[k], d);
  }

  lemma {:induction false} LongerTwice(a: seq<Entry>, b: seq<Entry>, c: seq<Entry>)
    requires Longer(a, b) && Longer(b, c)
    ensures Longer(a, c)
  {
    forall k | 0 <= k < |a|
      ensures Extends(a[k], c[k])
    {
      assert Extends(a[k], b[k]) && Extends(b[k], c[k]);
    }
  }

  /** A piece at `phys` that joins the last entry is carried by it. */
  lemma {:induction false} JoinCarries(es: seq<Entry>, i: nat, d: Desc, n: nat, kind: Kind)
    requires i < |es| && es[i].phys + es[i].size + n < U64 && Joins(es[i], d.phys, d.virt, kind)
    ensures Longer(es, Grow(es, i, n))
    ensures forall x | d.phys <= x < d.phys + n :: Carries(Grow(es, i, n), d, x)
  {
    var e := Grow(es, i, n)[i];
    assert SameOffset(e, d);
    forall x | d.phys <= x < d.phys + n
      ensures Carries(Grow(es, i, n), d, x)
    {
      assert e.Covers(x);
    }
  }

  lemma {:induction false} NewCarries(es: seq<Entry>, e: Entry, d: Desc)
    requires e.phys == d.phys && e.virt == d.virt
    ensures Longer(es, es + [e])
    ensures forall x | d.phys <= x < d.phys + e.size :: Carries(es + [e], d, x)
  {
    forall x | d.phys <= x < d.phys + e.size
      ensures Carries(es + [e], d, x)
    {
      assert (es + [e])[|es|].Covers(x) && SameOffset(e, d);
    }
  }

  lemma {:induction false} WholeCarries(st: Map, d: Desc, kind: Kind)
    requires st.Tidy() && d.Fits()
    ensures Longer(st.es, Whole(st, d, kind).es)
    ensures forall x | d.Holds(x) :: Carries(Whole(st, d, kind).es, d, x)
  {
    if LastJoins(st, d, kind) {
      JoinCarries(st.es, st.last.value, d, d.Size(), kind);
    } else {
      NewCarries(st.es, Entry(d.phys, d.virt, d.Size(), kind), d);
    }
  }

  lemma {:induction false} FrontCarries(st: Map, d: Desc, lo: nat)
    requires st.Tidy() && d.Fits() && lo < U64
    ensures Longer(st.es, Front(st, d, lo))
    ensures forall x | d.phys <= x < lo :: Carries(Front(st, d, lo), d, x)
  {
    if d.phys < lo {
      if LastJoins(st, d, d.Type()) {
        JoinCarries(st.es, st.last.value, d, lo - d.phys, d.Type());
      } else {
        NewCarries(st.es, Entry(d.phys, d.virt, lo - d.phys, d.Type()), d);
      }
    }
  }

  lemma {:induction false} GrowIsLonger(es: seq<Entry>, i: nat, n: nat)
    requires i < |es| && es[i].size + n < U64
    ensures Longer(es, Grow(es, i, n))
  {
  }

  lemma {:induction false} MiddleIsLonger(st: Map, d: Desc, lo: nat, hi: nat)
    requires st.Tidy() && d.Fits() && lo <= hi < U64 && lo <= d.End() && d.phys <= hi
    ensures Longer(Front(st, d, lo), Middle(st, d, lo, hi))
  {
    FrontCounts(st, d, lo, {}, 0);
    if StructJoins(st, d, lo) {
      GrowIsLonger(Front(st, d, lo), st.last.value, Min(d.End(), hi) - Max(d.phys, lo));
    }
  }

  lemma {:induction false} SplitCarries(st: Map, d: Desc, lo: nat, hi: nat)
    requires st.Tidy() && d.Fits() && lo <= hi < U64 && lo <= d.End() && d.phys <= hi
    ensures Longer(st.es, Split(st, d, lo, hi).es)
    ensures forall x | d.phys <= x < lo :: Carries(Split(st, d, lo, hi).es, d, x)
  {
    var front, es := Front(st, d, lo), Split(st, d, lo, hi).es;
    FrontCarries(st, d, lo);
    MiddleIsLonger(st, d, lo, hi);
    SplitIsBack(st, d, lo, hi);
    LongerTwice(front, Middle(st, d, lo, hi), es);
    LongerTwice(st.es, front, es);
    forall x | d.phys <= x < lo
      ensures Carries(es, d, x)
    {
      CarriesStays(front, es, d, x);
    }
  }

  /** Byte `x` of the descriptor lies before the structure that it is split around, if it is split. */
  predicate InFront(d: Desc, core: Structure, m: Structure, x: nat) {
    d.Holds(x) && (Chosen(d, core, m).Some? ==> x < Chosen(d, core, m).value.Low())
  }

  lemma {:induction false} StepCarries(st: Map, d: Desc, core: Structure, m: Structure)
    requires st.Tidy() && d.Fits() && core.Fits() && m.Fits() && Proper(d, core, m)
    ensures Longer(st.es, Step(st, d, core, m).es)
    ensures forall x | InFront(d, core, m, x) :: Carries(Step(st, d, core, m).es, d, x)
  {
    match Chosen(d, core, m)
    case None => WholeCarries(st, d, if core.Fills(d) || m.Fills(d) then Structs else d.Type());
    case Some(s) =>
      PagesOf(s);
      SplitCarries(st, d, s.Low(), s.High());
  }

  /** The rest behind the structure is entered without a virtual address. That agrees with the descriptor if and only if
      the descriptor has none, or the rest happens to start at virtual address 0. */
  lemma {:induction false} RestLosesVirtual(st: Map, d: Desc, core: Structure, m: Structure, x: nat)
    requires st.Tidy() && d.Fits() && core.Fits() && m.Fits() && Proper(d, core, m)
    requires Chosen(d, core, m).Some? && Chosen(d, core, m).value.High() <= x < d.End()
    ensures var es, hi := Step(st, d, core, m).es, Chosen(d, core, m).value.High();
            && es != [] && es[|es| - 1].Covers(x)
            && (SameOffset(es[|es| - 1], d) <==> d.virt == 0 || (d.virt + (hi - d.phys)) % U64 == 0)
  {
    var s := Chosen(d, core, m).value;
    PagesOf(s);
    SplitIsBack(st, d, s.Low(), s.High());
    Negated(d.virt + (s.High() - d.phys));
  }

  lemma {:induction false} Negated(a: int)
    ensures (-a) % U64 == 0 <==> a % U64 == 0
  {
    if a % U64 == 0 {
      assert -a == U64 * -(a / U64);
    }
    if (-a) % U64 == 0 {
      assert a == U64 * -((-a) / U64);
    }
  }

  /** In the finished map, each byte of a descriptor that is not split, and each byte before the structure in one that
      is, is covered by an entry that gives it the descriptor's virtual address. */
  lemma {:induction false} VirtualIsKept(ds: seq<Desc>, core: Structure, m: Structure, i: nat, x: nat)
    requires AllProper(ds, core, m) && i < |ds| && InFront(ds[i], core, m, x)
    ensures Carries(Run(ds, core, m).es, ds[i], x)
  {
    RunCounts(ds, core, m, {}, x, i);
    StepCarries(RunTo(ds, core, m, i), ds[i], core, m);
    for k := i + 1 to |ds|
      invariant Carries(RunTo(ds, core, m, k).es, ds[i], x)
    {
      RunCounts(ds, core, m, {}, x, k);
      StepCarries(RunTo(ds, core, m, k), ds[k], core, m);
      CarriesStays(RunTo(ds, core, m, k).es, RunTo(ds, core, m, k + 1).es, ds[i], x);
    }
  }
}
