/** The memory-map normaliser of the UEFI bootloader (Bootloader/UEFI/src/bootloader_uefi.c:996-1156): firmware
    descriptors (section 7.2 of the UEFI specification) become entries; neighbours of one kind are merged, and the pages
    of two structures that the loader hands over are cut out of the descriptors that hold them. */
module MemoryMap {
  import opened Common

  /** A 64-bit sum of two words. */
  function Wrap(x: nat): nat { if x < U64 then x else x - U64 }

  datatype Kind = Free | Reserved | AcpiReclaim | AcpiNvs | Unusable | Structs

  const ALL: set<Kind> := {Free, Reserved, AcpiReclaim, AcpiNvs, Unusable, Structs}

  /** A firmware descriptor. */
  datatype Desc = Desc(code: nat, phys: nat, virt: nat, pages: nat) {
    function Size(): nat { pages * PAGE_SIZE }

    function End(): nat { phys + Size() }

    predicate Holds(x: nat) { phys <= x < End() }

    predicate HoldsVirtually(x: nat) { virt <= x < virt + Size() }

    /** Everything ends below the top of the address space, so that no physical sum wraps. */
    predicate Fits() { End() < U64 && virt < U64 }

    function Type(): (k: Kind)
      ensures k != Structs
    {
      match code
      case 1 | 2 | 3 | 4 | 7 | 14 => Free // loader code and data, boot services code and data, conventional, persistent
      case 9 => AcpiReclaim
      case 10 => AcpiNvs
      case 8 => Unusable
      case _ => Reserved
    }
  }

  /** The memory types of the firmware, in the order of their codes (section 7.2 of the UEFI specification). */
  datatype Firmware =
    | ReservedMemory | LoaderCode | LoaderData | BootServicesCode | BootServicesData | RuntimeServicesCode
    | RuntimeServicesData | ConventionalMemory | UnusableMemory | AcpiReclaimMemory | AcpiMemoryNvs | MemoryMappedIo
    | MemoryMappedIoPortSpace | PalCode | PersistentMemory

  const TYPES: seq<Firmware> := [ReservedMemory, LoaderCode, LoaderData, BootServicesCode, BootServicesData,
      RuntimeServicesCode, RuntimeServicesData, ConventionalMemory, UnusableMemory, AcpiReclaimMemory, AcpiMemoryNvs,
      MemoryMappedIo, MemoryMappedIoPortSpace, PalCode, PersistentMemory]

  /** Free is the ordinary memory that no runtime service, device or table needs; ACPI memory and defective memory keep
      their kinds, and everything else, known or not, is reserved. */
  lemma {:induction false} TypeMeans(d: Desc)
    ensures d.code < |TYPES| ==>
              var t := TYPES[d.code];
              && (d.Type() == Free <==>
                    t.LoaderCode? || t.LoaderData? || t.BootServicesCode? || t.BootServicesData? ||
                    t.ConventionalMemory? || t.PersistentMemory?)
              && (d.Type() == AcpiReclaim <==> t.AcpiReclaimMemory?)
              && (d.Type() == AcpiNvs <==> t.AcpiMemoryNvs?)
              && (d.Type() == Unusable <==> t.UnusableMemory?)
    ensures d.code >= |TYPES| ==> d.Type() == Reserved
  {
  }

  /** A descriptor holds its pages: those with the numbers below `pages`, counted from its start. */
  lemma {:induction false} HoldsPages(d: Desc, x: nat)
    ensures d.Holds(x) <==> x >= d.phys && (x - d.phys) / 4096 < d.pages
  {
  }

  datatype Entry = Entry(phys: nat, virt: nat, size: nat, kind: Kind) {
    predicate Covers(x: nat) { phys <= x < phys + size }
  }

  /** A structure to protect: `size` bytes from `start`. */
  datatype Structure = Structure(start: nat, size: nat) {
    predicate Fits() { 0 < size && start + size <= U64 - PAGE_SIZE }

    /** ALIGN_DOWN of its start. */
    function Low(): nat { start - start % PAGE_SIZE }

    /** ALIGN_UP of its end. */
    function High(): nat { start + size + (PAGE_SIZE - 1) - (start + size + (PAGE_SIZE - 1)) % PAGE_SIZE }

    predicate Fills(d: Desc) {
      || (start == d.phys && start + size == d.End())
      || (start == d.virt && start + size == Wrap(d.virt + d.Size()))
    }

    /** Physically inside the descriptor. */
    predicate Inside(d: Desc) { start >= d.phys && start + size <= d.End() }

    /** What the code takes for being inside: the virtual start is tried too. */
    predicate SeemsInside(d: Desc) { Inside(d) || (start >= d.virt && start + size <= Wrap(d.virt + d.Size())) }

    /** Its pages overlap or adjoin the descriptor. */
    predicate Touches(d: Desc) { Low() <= d.End() && d.phys <= High() }
  }

  /** A structure is taken for one inside the descriptor exactly if its bytes are among the physical ones of the
      descriptor, or among the virtual ones, as far as no sum wraps. */
  lemma {:induction false} SeemsInsideMeans(d: Desc, s: Structure)
    requires d.Fits() && s.Fits() && d.virt + d.Size() < U64
    ensures s.SeemsInside(d) <==>
            || (forall x: nat | s.start <= x < s.start + s.size :: d.Holds(x))
            || (forall x: nat | s.start <= x < s.start + s.size :: d.HoldsVirtually(x))
  {
    var last := s.start + s.size - 1;
    assert s.Inside(d) <== d.Holds(s.start) && d.Holds(last);
    assert s.start >= d.virt && s.start + s.size <= Wrap(d.virt + d.Size()) <== d.HoldsVirtually(s.start) &&
        d.HoldsVirtually(last);
  }

  /** It fills the descriptor exactly if its bytes are those of the descriptor, physical or virtual. */
  lemma {:induction false} FillsMeans(d: Desc, s: Structure)
    requires d.Fits() && s.Fits() && d.virt + d.Size() < U64
    ensures s.Fills(d) <==>
            s.size == d.Size() && (s.start == d.phys || s.start == d.virt)
  {
  }

  /** Its pages: from the page of its first byte to that of its last one. */
  lemma {:induction false} PagesOfStructure(s: Structure)
    requires s.Fits()
    ensures s.Low() % 4096 == 0 && s.Low() <= s.start < s.Low() + 4096
    ensures s.High() % 4096 == 0 && s.High() - 4096 <= s.start + s.size - 1 < s.High()
  {
    var end := s.start + s.size + (PAGE_SIZE - 1);
    assert s.High() == PAGE_SIZE * (end / PAGE_SIZE) && s.Low() == PAGE_SIZE * (s.start / PAGE_SIZE);
  }

  /** The entries written so far and `last_entry`. */
  datatype Map = Map(es: seq<Entry>, last: Option<nat>) {
    predicate Ok() {
      && (last.Some? ==> last.value < |es|)
      && forall i | 0 <= i < |es| :: es[i].phys < U64 && es[i].size < U64
    }

    /** No entry reaches the top of the address space. */
    predicate Tidy() { Ok() && forall i | 0 <= i < |es| :: es[i].phys + es[i].size < U64 }
  }

  function EndOf(e: Entry): nat { Wrap(e.phys + e.size) }

  /** A 64-bit difference of two words. */
  function Diff(a: nat, b: nat): nat
    requires b <= U64
  { if a >= b then a - b else U64 + a - b }

  function Grow(es: seq<Entry>, i: nat, n: nat): seq<Entry>
    requires i < |es|
  {
    es[i := es[i].(size := Wrap(es[i].size + n))]
  }

  /** Whether a piece at `phys` can be added to the end of entry `l`. */
  predicate Joins(l: Entry, phys: nat, virt: nat, kind: Kind) {
    phys == EndOf(l) && (virt == Wrap(l.virt + l.size) || (virt == 0 && l.virt == 0)) && kind == l.kind
  }

  // ----- the specification of one descriptor -----

  predicate LastJoins(st: Map, d: Desc, kind: Kind)
    requires st.Ok()
  {
    st.last.Some? && Joins(st.es[st.last.value], d.phys, d.virt, kind)
  }

  /** A descriptor that is entered whole. */
  function Whole(st: Map, d: Desc, kind: Kind): (r: Map)
    requires st.Ok() && d.Fits()
    ensures r.Ok() && |st.es| <= |r.es| <= |st.es| + 1
  {
    if LastJoins(st, d, kind) then Map(Grow(st.es, st.last.value, d.Size()), st.last)
    else Map(st.es + [Entry(d.phys, d.virt, d.Size(), kind)], Some(|st.es|))
  }

  /** The part before the structure's pages. */
  function Front(st: Map, d: Desc, lo: nat): (r: seq<Entry>)
    requires st.Ok() && d.Fits() && lo < U64
    ensures Map(r, st.last).Ok() && |st.es| <= |r| <= |st.es| + 1
  {
    if d.phys >= lo then st.es
    else if LastJoins(st, d, d.Type()) then Grow(st.es, st.last.value, Diff(lo, d.phys))
    else st.es + [Entry(d.phys, d.virt, Diff(lo, d.phys), d.Type())]
  }

  predicate StructJoins(st: Map, d: Desc, lo: nat)
    requires st.Ok() && d.Fits() && lo < U64
  {
    && st.last.Some?
    && var l := Front(st, d, lo)[st.last.value];
       l.kind == Structs && EndOf(l) == Max(d.phys, lo)
  }

  /** The slot that the descriptor's own entry was drafted in is reused for the structure's entry before the type of the
      rest is read from it. */
  predicate TailTaken(st: Map, d: Desc, lo: nat)
    requires st.Ok() && d.Fits() && lo < U64
  {
    |Front(st, d, lo)| == |st.es| && !StructJoins(st, d, lo)
  }

  function Middle(st: Map, d: Desc, lo: nat, hi: nat): (r: seq<Entry>)
    requires st.Ok() && d.Fits() && lo < U64 && hi < U64
    ensures Map(r, st.last).Ok() && 0 < |r| && |st.es| <= |r| <= |st.es| + 2
  {
    var from, to := Max(d.phys, lo), Min(d.End(), hi);
    if StructJoins(st, d, lo) then Grow(Front(st, d, lo), st.last.value, Diff(to, from))
    else Front(st, d, lo) + [Entry(from, 0, Diff(to, from), Structs)]
  }

  /** A descriptor that is split around the pages of `s`. */
  function Split(st: Map, d: Desc, lo: nat, hi: nat): (r: Map)
    requires st.Ok() && d.Fits() && lo < U64 && hi < U64
    ensures r.Ok() && |st.es| <= |r.es| <= |st.es| + 3
  {
    var es, to := Middle(st, d, lo, hi), Min(d.End(), hi);
    if to < d.End() then
      Map(es + [Entry(to, 0, Diff(d.End(), to), if TailTaken(st, d, lo) then Structs else d.Type())], Some(|es|))
    else if StructJoins(st, d, lo) then Map(es, st.last)
    else Map(es, Some(|es| - 1))
  }

  /** The structure that the descriptor is split around, if it is split. */
  function Chosen(d: Desc, core: Structure, m: Structure): Option<Structure> {
    if core.Fills(d) || m.Fills(d) then None
    else if core.SeemsInside(d) then Some(core)
    else if m.SeemsInside(d) then Some(m)
    else None
  }

  function Step(st: Map, d: Desc, core: Structure, m: Structure): (r: Map)
    requires st.Ok() && d.Fits() && core.Fits() && m.Fits()
    ensures r.Ok() && |st.es| <= |r.es| <= |st.es| + 3
  {
    match Chosen(d, core, m)
    case Some(s) => Split(st, d, s.Low(), s.High())
    case None => Whole(st, d, if core.Fills(d) || m.Fills(d) then Structs else d.Type())
  }

  // ----- counting -----

  /** How many entries of a kind in `ks` cover address `x`. */
  function Count(es: seq<Entry>, ks: set<Kind>, x: nat): nat {
    if es == [] then 0
    else Count(es[..|es| - 1], ks, x) + Hit(es[|es| - 1], ks, x)
  }

  function Hit(e: Entry, ks: set<Kind>, x: nat): nat { if e.kind in ks && e.Covers(x) then 1 else 0 }

  lemma {:induction false} CountAppend(es: seq<Entry>, e: Entry, ks: set<Kind>, x: nat)
    ensures Count(es + [e], ks, x) == Count(es, ks, x) + Hit(e, ks, x)
  {
    assert (es + [e])[..|es|] == es;
  }

  lemma {:induction false} CountUpdate(es: seq<Entry>, i: nat, e: Entry, ks: set<Kind>, x: nat)
    requires i < |es|
    ensures Count(es[i := e], ks, x) + Hit(es[i], ks, x) == Count(es, ks, x) + Hit(e, ks, x)
  {
    var n := |es| - 1;
    if i == n {
      assert es[i := e][..n] == es[..n];
    } else {
      assert es[i := e][..n] == es[..n][i := e];
      CountUpdate(es[..n], i, e, ks, x);
    }
  }

  lemma {:induction false} CountGrow(es: seq<Entry>, i: nat, n: nat, ks: set<Kind>, x: nat)
    requires i < |es| && es[i].phys + es[i].size + n < U64
    ensures var end := es[i].phys + es[i].size;
            Count(Grow(es, i, n), ks, x) == Count(es, ks, x) + if es[i].kind in ks && end <= x < end + n then 1 else 0
  {
    CountUpdate(es, i, es[i].(size := Wrap(es[i].size + n)), ks, x);
  }

  /** One covering entry means exactly one. */
  lemma {:induction false} CountsOne(es: seq<Entry>, ks: set<Kind>, x: nat)
    ensures Count(es, ks, x) == 0 <==> forall i | 0 <= i < |es| :: Hit(es[i], ks, x) == 0
    ensures Count(es, ks, x) == 1 <==> exists i :: 0 <= i < |es| && OnlyHit(es, i, ks, x)
  {
    if es == [] {
    } else {
      var n := |es| - 1;
      CountsOne(es[..n], ks, x);
      if Count(es, ks, x) == 1 {
        if Hit(es[n], ks, x) == 1 {
          assert OnlyHit(es, n, ks, x);
        } else {
          var i :| 0 <= i < n && OnlyHit(es[..n], i, ks, x);
          assert OnlyHit(es, i, ks, x);
        }
      }
      if i :| 0 <= i < |es| && OnlyHit(es, i, ks, x) {
        if i < n {
          assert OnlyHit(es[..n], i, ks, x);
        } else {
          forall j | 0 <= j < n
            ensures Hit(es[..n][j], ks, x) == 0
          {
            assert es[j] == es[..n][j];
          }
        }
      }
    }
  }

  predicate OnlyHit(es: seq<Entry>, i: nat, ks: set<Kind>, x: nat)
    requires i < |es|
  {
    Hit(es[i], ks, x) == 1 && forall j | 0 <= j < |es| && j != i :: Hit(es[j], ks, x) == 0
  }

  // ----- what one descriptor does to each byte -----

  /** The kind that a byte of the descriptor ends up with. */
  function Label(st: Map, d: Desc, core: Structure, m: Structure, x: nat): Kind
    requires st.Ok() && d.Fits() && core.Fits() && m.Fits()
  {
    match Chosen(d, core, m)
    case None => if core.Fills(d) || m.Fills(d) then Structs else d.Type()
    case Some(s) => if s.Low() <= x < s.High() || (x >= s.High() && TailTaken(st, d, s.Low())) then Structs
        else d.Type()
  }

  predicate Proper(d: Desc, core: Structure, m: Structure) {
    Chosen(d, core, m).Some? ==> Chosen(d, core, m).value.Touches(d)
  }

  /** A piece of `d`: one more cover for the bytes in it, and nothing else. */
  function In(lo: nat, x: nat, hi: nat, kind: Kind, ks: set<Kind>): nat { if lo <= x < hi && kind in ks then 1 else 0 }

  lemma {:induction false} WholeCounts(st: Map, d: Desc, kind: Kind, ks: set<Kind>, x: nat)
    requires st.Tidy() && d.Fits()
    ensures Whole(st, d, kind).Tidy()
    ensures Count(Whole(st, d, kind).es, ks, x) == Count(st.es, ks, x) + In(d.phys, x, d.End(), kind, ks)
  {
    if LastJoins(st, d, kind) {
      CountGrow(st.es, st.last.value, d.Size(), ks, x);
    } else {
      CountAppend(st.es, Entry(d.phys, d.virt, d.Size(), kind), ks, x);
    }
  }

  lemma {:induction false} FrontCounts(st: Map, d: Desc, lo: nat, ks: set<Kind>, x: nat)
    requires st.Tidy() && d.Fits() && lo < U64
    ensures var es := Front(st, d, lo);
            && Map(es, st.last).Tidy()
            && |st.es| <= |es| <= |st.es| + 1
            && Count(es, ks, x) == Count(st.es, ks, x) + In(d.phys, x, lo, d.Type(), ks)
  {
    if d.phys < lo {
      if LastJoins(st, d, d.Type()) {
        CountGrow(st.es, st.last.value, Diff(lo, d.phys), ks, x);
      } else {
        CountAppend(st.es, Entry(d.phys, d.virt, Diff(lo, d.phys), d.Type()), ks, x);
      }
    }
  }

  lemma {:induction false} MiddleCounts(st: Map, d: Desc, lo: nat, hi: nat, ks: set<Kind>, x: nat)
    requires st.Tidy() && d.Fits() && lo <= hi < U64 && lo <= d.End() && d.phys <= hi
    ensures var es := Middle(st, d, lo, hi);
            && Map(es, st.last).Tidy()
            && |st.es| <= |es|
            && Count(es, ks, x) == Count(Front(st, d, lo), ks, x) + In(Max(d.phys, lo), x, Min(d.End(), hi), Structs,
               ks)
  {
    FrontCounts(st, d, lo, ks, x);
    PieceCounts(Front(st, d, lo), st.last, Max(d.phys, lo), Min(d.End(), hi), StructJoins(st, d, lo), ks, x);
  }

  /** The piece of a structure, joined to the last entry or entered by itself. */
  lemma {:induction false} PieceCounts(front: seq<Entry>, last: Option<nat>, from: nat, to: nat, joins: bool,
          ks: set<Kind>, x: nat)
    requires Map(front, last).Tidy() && from <= to < U64
    requires joins ==> last.Some? && front[last.value].kind == Structs && EndOf(front[last.value]) == from
    ensures var es := if joins then Grow(front, last.value, Diff(to, from))
                      else front + [Entry(from, 0, Diff(to, from), Structs)];
            && Map(es, last).Tidy()
            && |front| <= |es|
            && Count(es, ks, x) == Count(front, ks, x) + In(from, x, to, Structs, ks)
  {
    if joins {
      CountGrow(front, last.value, to - from, ks, x);
    } else {
      CountAppend(front, Entry(from, 0, to - from, Structs), ks, x);
    }
  }

  /** The part behind the structure's pages. */
  function Back(es: seq<Entry>, d: Desc, hi: nat, kind: Kind): seq<Entry>
    requires d.Fits()
  {
    if hi < d.End() then es + [Entry(hi, 0, d.End() - hi, kind)] else es
  }

  lemma {:induction false} BackCounts(es: seq<Entry>, d: Desc, hi: nat, kind: Kind, ks: set<Kind>, x: nat)
    requires d.Fits() && d.phys <= hi && Map(es, None).Tidy()
    ensures Map(Back(es, d, hi, kind), None).Tidy()
    ensures Count(Back(es, d, hi, kind), ks, x) == Count(es, ks, x) + In(hi, x, d.End(), kind, ks)
  {
    if hi < d.End() {
      CountAppend(es, Entry(hi, 0, d.End() - hi, kind), ks, x);
    }
  }

  lemma {:induction false} SplitIsBack(st: Map, d: Desc, lo: nat, hi: nat)
    requires st.Ok() && d.Fits() && lo < U64 && hi < U64
    ensures var r := Split(st, d, lo, hi);
            && r.es == Back(Middle(st, d, lo, hi), d, hi, if TailTaken(st, d, lo) then Structs else d.Type())
            && (r.last.Some? ==> r.last.value < |r.es|)
  {
  }

  lemma {:induction false} SplitCounts(st: Map, d: Desc, lo: nat, hi: nat, ks: set<Kind>, x: nat)
    requires st.Tidy() && d.Fits() && lo <= hi < U64 && lo <= d.End() && d.phys <= hi
    ensures Split(st, d, lo, hi).Tidy()
    ensures Count(Split(st, d, lo, hi).es, ks, x)
         == Count(st.es, ks, x) + In(d.phys, x, lo, d.Type(), ks) + In(Max(d.phys, lo), x, Min(d.End(), hi), Structs,
             ks)
            + In(hi, x, d.End(), if TailTaken(st, d, lo) then Structs else d.Type(), ks)
  {
    FrontCounts(st, d, lo, ks, x);
    MiddleCounts(st, d, lo, hi, ks, x);
    BackCounts(Middle(st, d, lo, hi), d, hi, if TailTaken(st, d, lo) then Structs else d.Type(), ks, x);
    SplitIsBack(st, d, lo, hi);
  }

  lemma {:induction false} PagesOf(s: Structure)
    requires s.Fits()
    ensures s.Low() <= s.start && s.start + s.size <= s.High() < U64
    ensures s.Low() % PAGE_SIZE == 0 && s.High() % PAGE_SIZE == 0
  {
  }

  /** Every byte of the descriptor gains exactly one cover, of the kind that Label says; no other byte changes. */
  lemma {:induction false} StepCounts(st: Map, d: Desc, core: Structure, m: Structure, ks: set<Kind>, x: nat)
    requires st.Tidy() && d.Fits() && core.Fits() && m.Fits() && Proper(d, core, m)
    ensures Step(st, d, core, m).Tidy()
    ensures Count(Step(st, d, core, m).es, ks, x)
         == Count(st.es, ks, x) + if d.Holds(x) && Label(st, d, core, m, x) in ks then 1 else 0
  {
    match Chosen(d, core, m)
    case None => WholeCounts(st, d, if core.Fills(d) || m.Fills(d) then Structs else d.Type(), ks, x);
    case Some(s) =>
      PagesOf(s);
      SplitCounts(st, d, s.Low(), s.High(), ks, x);
  }

  // ----- when a split is sound -----

  /** The map after a step covers each byte of `d` once more than before and treats every other byte as before. */
  ghost predicate Exact(before: seq<Entry>, after: seq<Entry>, d: Desc) {
    forall ks, x :: Count(after, ks, x) == Count(before, ks, x) ||
        (d.Holds(x) && Count(after, ks, x) == Count(before, ks, x) + 1)
  }

  /** The virtual test can pick a structure that lies elsewhere. The sizes then underflow, and the map is wrong: a split
      is exact if and only if the structure's pages overlap or adjoin the descriptor. */
  lemma {:induction false} SplitIsExactIff(st: Map, d: Desc, s: Structure)
    requires st.Tidy() && d.Fits() && s.Fits()
    ensures Exact(st.es, Split(st, d, s.Low(), s.High()).es, d) <==> s.Touches(d)
  {
    PagesOf(s);
    if s.Touches(d) {
      forall ks, x
        ensures var after := Split(st, d, s.Low(), s.High()).es;
                Count(after, ks, x) == Count(st.es, ks, x) ||
                    (d.Holds(x) && Count(after, ks, x) == Count(st.es, ks, x) + 1)
      {
        SplitCounts(st, d, s.Low(), s.High(), ks, x);
      }
    } else if s.High() < d.phys {
      StructureBelow(st, d, s.Low(), s.High());
    } else {
      StructureAbove(st, d, s.Low(), s.High());
    }
  }

  /** A structure's entry that is shrunk by an underflow loses its coverage, and one that is stretched does not cover
      `x`. */
  lemma {:induction false} Shrunk(es: seq<Entry>, i: nat, x: nat, from: nat)
    requires i < |es| && es[i].phys + es[i].size == from < U64 && es[i].kind == Structs && x < from
    ensures var after := Grow(es, i, Diff(x, from));
            if es[i].Covers(x) then Count(after, {Structs}, x) == Count(es, {Structs}, x) - 1
                else Count(after, ALL, x) == Count(es, ALL, x)
  {
    var e := es[i].(size := Wrap(es[i].size + Diff(x, from)));
    CountUpdate(es, i, e, ALL, x);
    CountUpdate(es, i, e, {Structs}, x);
  }

  /** What the structure's entry does to the byte `x` in front of `from`, where it should begin. */
  lemma {:induction false} MiddleUnderflows(st: Map, d: Desc, lo: nat, hi: nat, x: nat)
    requires st.Tidy() && d.Fits() && lo < U64 && hi < U64 && x == Min(d.End(), hi) < Max(d.phys, lo)
    ensures var es, front := Middle(st, d, lo, hi), Front(st, d, lo);
            || Count(es, ALL, x) == Count(front, ALL, x)
            || (StructJoins(st, d, lo) && Count(es, {Structs}, x) == Count(front, {Structs}, x) - 1)
  {
    var from, front := Max(d.phys, lo), Front(st, d, lo);
    FrontCounts(st, d, lo, ALL, x);
    if StructJoins(st, d, lo) {
      Shrunk(front, st.last.value, x, from);
    } else {
      CountAppend(front, Entry(from, 0, Diff(x, from), Structs), ALL, x);
    }
  }

  lemma {:induction false} StructureBelow(st: Map, d: Desc, lo: nat, hi: nat)
    requires st.Tidy() && d.Fits() && lo <= hi < d.phys
    ensures var after := Split(st, d, lo, hi).es;
            Count(after, ALL, hi) == Count(st.es, ALL, hi) + 1 ||
                Count(after, {Structs}, hi) == Count(st.es, {Structs}, hi) - 1
  {
    MiddleUnderflows(st, d, lo, hi, hi);
    SplitIsBack(st, d, lo, hi);
    var es, tail := Middle(st, d, lo, hi),
        Entry(hi, 0, d.End() - hi, if TailTaken(st, d, lo) then Structs else d.Type());
    CountAppend(es, tail, ALL, hi);
    CountAppend(es, tail, {Structs}, hi);
  }

  lemma {:induction false} StructureAbove(st: Map, d: Desc, lo: nat, hi: nat)
    requires st.Tidy() && d.Fits() && d.End() < lo <= hi < U64
    ensures var after, x := Split(st, d, lo, hi).es, d.End();
            Count(after, ALL, x) == Count(st.es, ALL, x) + 1 ||
                Count(after, {Structs}, x) == Count(st.es, {Structs}, x) - 1
  {
    MiddleUnderflows(st, d, lo, hi, d.End());
    SplitIsBack(st, d, lo, hi);
    FrontCounts(st, d, lo, ALL, d.End());
    FrontCounts(st, d, lo, {Structs}, d.End());
  }

  // ----- whole runs -----

  predicate AllFit(ds: seq<Desc>, core: Structure, m: Structure) {
    core.Fits() && m.Fits() && forall i | 0 <= i < |ds| :: ds[i].Fits()
  }

  /** The map after the first `n` descriptors. */
  function RunTo(ds: seq<Desc>, core: Structure, m: Structure, n: nat): (r: Map)
    requires AllFit(ds, core, m) && n <= |ds|
    ensures r.Ok() && |r.es| <= 3 * n
  {
    if n == 0 then Map([], None) else Step(RunTo(ds, core, m, n - 1), ds[n - 1], core, m)
  }

  function Run(ds: seq<Desc>, core: Structure, m: Structure): Map
    requires AllFit(ds, core, m)
  {
    RunTo(ds, core, m, |ds|)
  }

  /** The kind that byte `x` of descriptor `i` gets. */
  function LabelAt(ds: seq<Desc>, core: Structure, m: Structure, i: nat, x: nat): Kind
    requires AllFit(ds, core, m) && i < |ds|
  {
    Label(RunTo(ds, core, m, i), ds[i], core, m, x)
  }

  predicate AllProper(ds: seq<Desc>, core: Structure, m: Structure) {
    AllFit(ds, core, m) && forall i | 0 <= i < |ds| :: Proper(ds[i], core, m)
  }

  lemma {:induction false} StepIsExactIff(st: Map, d: Desc, core: Structure, m: Structure)
    requires st.Tidy() && d.Fits() && core.Fits() && m.Fits()
    ensures Exact(st.es, Step(st, d, core, m).es, d) <==> Proper(d, core, m)
  {
    match Chosen(d, core, m)
    case Some(s) => SplitIsExactIff(st, d, s);
    case None => WholeIsExact(st, d, if core.Fills(d) || m.Fills(d) then Structs else d.Type());
  }

  lemma {:induction false} WholeIsExact(st: Map, d: Desc, kind: Kind)
    requires st.Tidy() && d.Fits()
    ensures Exact(st.es, Whole(st, d, kind).es, d)
  {
    forall ks, x
      ensures var after := Whole(st, d, kind).es;
              Count(after, ks, x) == Count(st.es, ks, x) ||
                  (d.Holds(x) && Count(after, ks, x) == Count(st.es, ks, x) + 1)
    {
      WholeCounts(st, d, kind, ks, x);
    }
  }

  /** The step for descriptor `n` covers each byte of it once more and treats every other byte as before. */
  ghost predicate ExactAt(ds: seq<Desc>, core: Structure, m: Structure, n: nat)
    requires AllFit(ds, core, m) && n < |ds|
  {
    Exact(RunTo(ds, core, m, n).es, RunTo(ds, core, m, n + 1).es, ds[n])
  }

  predicate TidyAt(ds: seq<Desc>, core: Structure, m: Structure, n: nat)
    requires AllFit(ds, core, m) && n <= |ds|
  {
    RunTo(ds, core, m, n).Tidy()
  }

  lemma {:induction false} NextExactIff(ds: seq<Desc>, core: Structure, m: Structure, n: nat)
    requires AllFit(ds, core, m) && n < |ds| && TidyAt(ds, core, m, n)
    ensures ExactAt(ds, core, m, n) <==> Proper(ds[n], core, m)
    ensures Proper(ds[n], core, m) ==> TidyAt(ds, core, m, n + 1)
  {
    StepIsExactIff(RunTo(ds, core, m, n), ds[n], core, m);
    if Proper(ds[n], core, m) {
      StepCounts(RunTo(ds, core, m, n), ds[n], core, m, ALL, 0);
    }
  }

  /** The first `n` steps are exact or proper. */
  ghost predicate GoodTo(ds: seq<Desc>, core: Structure, m: Structure, n: nat)
    requires AllFit(ds, core, m) && n <= |ds|
  {
    forall k | 0 <= k < n :: ExactAt(ds, core, m, k) || Proper(ds[k], core, m)
  }

  lemma {:induction false} TidySoFar(ds: seq<Desc>, core: Structure, m: Structure, n: nat)
    requires AllFit(ds, core, m) && n <= |ds| && GoodTo(ds, core, m, n)
    ensures TidyAt(ds, core, m, n)
  {
    for k := 0 to n
      invariant TidyAt(ds, core, m, k)
    {
      NextExactIff(ds, core, m, k);
    }
  }

  lemma {:induction false} ExactHereIff(ds: seq<Desc>, core: Structure, m: Structure, n: nat)
    requires AllFit(ds, core, m) && n < |ds| && GoodTo(ds, core, m, |ds|)
    ensures ExactAt(ds, core, m, n) <==> Proper(ds[n], core, m)
  {
    TidySoFar(ds, core, m, n);
    NextExactIff(ds, core, m, n);
  }

  /** Every step of the run keeps coverage exact if and only if every structure that is picked touches the descriptor
      that is split around it. */
  lemma {:induction false} RunIsExactIff(ds: seq<Desc>, core: Structure, m: Structure)
    requires AllFit(ds, core, m)
    ensures (forall n | 0 <= n < |ds| :: ExactAt(ds, core, m, n)) <==> AllProper(ds, core, m)
  {
    if GoodTo(ds, core, m, |ds|) {
      forall n | 0 <= n < |ds| {
        ExactHereIff(ds, core, m, n);
      }
    }
  }

  ghost predicate Disjoint(ds: seq<Desc>) {
    forall i, j, x: nat | 0 <= i < j < |ds| && ds[i].Holds(x) :: !ds[j].Holds(x)
  }

  /** How many of the first `n` descriptors give `x` a kind in `ks`. */
  function Labels(ds: seq<Desc>, core: Structure, m: Structure, ks: set<Kind>, x: nat, n: nat): nat
    requires AllFit(ds, core, m) && n <= |ds|
  {
    if n == 0 then 0
    else Labels(ds, core, m, ks, x, n - 1) + if ds[n - 1].Holds(x) && LabelAt(ds, core, m, n - 1, x) in ks then 1 else 0
  }

  lemma {:induction false} NextCounts(ds: seq<Desc>, core: Structure, m: Structure, ks: set<Kind>, x: nat, n: nat)
    requires AllProper(ds, core, m) && n < |ds| && RunTo(ds, core, m, n).Tidy()
    ensures RunTo(ds, core, m, n + 1).Tidy()
    ensures Count(RunTo(ds, core, m, n + 1).es, ks, x)
         == Count(RunTo(ds, core, m, n).es, ks, x) + if ds[n].Holds(x) && LabelAt(ds, core, m, n, x) in ks then 1 else 0
  {
    StepCounts(RunTo(ds, core, m, n), ds[n], core, m, ks, x);
  }

  ghost predicate Tallies(ds: seq<Desc>, core: Structure, m: Structure, ks: set<Kind>, x: nat, n: nat)
    requires AllFit(ds, core, m) && n <= |ds|
  {
    RunTo(ds, core, m, n).Tidy() && Count(RunTo(ds, core, m, n).es, ks, x) == Labels(ds, core, m, ks, x, n)
  }

  lemma {:induction false} NextLabels(ds: seq<Desc>, core: Structure, m: Structure, ks: set<Kind>, x: nat, n: nat)
    requires AllFit(ds, core, m) && n < |ds|
    ensures Labels(ds, core, m, ks, x, n + 1)
         == Labels(ds, core, m, ks, x, n) + if ds[n].Holds(x) && LabelAt(ds, core, m, n, x) in ks then 1 else 0
  {
  }

  lemma {:induction false} NextTallies(ds: seq<Desc>, core: Structure, m: Structure, ks: set<Kind>, x: nat, n: nat)
    requires AllProper(ds, core, m) && n < |ds| && Tallies(ds, core, m, ks, x, n)
    ensures Tallies(ds, core, m, ks, x, n + 1)
  {
    NextCounts(ds, core, m, ks, x, n);
    NextLabels(ds, core, m, ks, x, n);
  }

  lemma {:induction false} FirstTallies(ds: seq<Desc>, core: Structure, m: Structure, ks: set<Kind>, x: nat)
    requires AllFit(ds, core, m)
    ensures Tallies(ds, core, m, ks, x, 0)
  {
  }

  lemma {:induction false} RunCounts(ds: seq<Desc>, core: Structure, m: Structure, ks: set<Kind>, x: nat, n: nat)
    requires AllProper(ds, core, m) && n <= |ds|
    ensures Tallies(ds, core, m, ks, x, n)
  {
    FirstTallies(ds, core, m, ks, x);
    for k := 0 to n
      invariant Tallies(ds, core, m, ks, x, k)
    {
      NextTallies(ds, core, m, ks, x, k);
    }
  }

  lemma {:induction false} NoLabels(ds: seq<Desc>, core: Structure, m: Structure, ks: set<Kind>, x: nat, n: nat)
    requires AllFit(ds, core, m) && n <= |ds| && forall i | 0 <= i < n :: !ds[i].Holds(x)
    ensures Labels(ds, core, m, ks, x, n) == 0
    decreases n
  {
    if n == 0 {
    } else {
      NoLabels(ds, core, m, ks, x, n - 1);
    }
  }

  lemma {:induction false} OneLabel(ds: seq<Desc>, core: Structure, m: Structure, ks: set<Kind>, i: nat, x: nat, n: nat)
    requires AllFit(ds, core, m) && Disjoint(ds) && i < n <= |ds| && ds[i].Holds(x)
    ensures Labels(ds, core, m, ks, x, n) == if LabelAt(ds, core, m, i, x) in ks then 1 else 0
  {
    NoLabels(ds, core, m, ks, x, i);
    NextLabels(ds, core, m, ks, x, i);
    for k := i + 1 to n
      invariant Labels(ds, core, m, ks, x, k) == if LabelAt(ds, core, m, i, x) in ks then 1 else 0
    {
      NextLabels(ds, core, m, ks, x, k);
    }
  }

  /** Exactly one entry covers `x`, and it is of kind `k`. */
  predicate CoveredOnceBy(es: seq<Entry>, x: nat, k: Kind) {
    exists j :: 0 <= j < |es| && OnlyHit(es, j, ALL, x) && es[j].kind == k
  }

  lemma {:induction false} OneCover(es: seq<Entry>, k: Kind, x: nat)
    requires Count(es, ALL, x) == 1 && Count(es, {k}, x) == 1
    ensures CoveredOnceBy(es, x, k)
  {
    CountsOne(es, ALL, x);
    CountsOne(es, {k}, x);
    var j :| 0 <= j < |es| && OnlyHit(es, j, ALL, x);
    var j' :| 0 <= j' < |es| && OnlyHit(es, j', {k}, x);
    assert Hit(es[j'], ALL, x) == 1;
  }

  lemma {:induction false} InAll(k: Kind)
    ensures k in ALL
  {
    match k
    case Free =>
    case Reserved =>
    case AcpiReclaim =>
    case AcpiNvs =>
    case Unusable =>
    case Structs =>
  }

  lemma {:induction false} NoCover(es: seq<Entry>, x: nat)
    requires Count(es, ALL, x) == 0
    ensures forall j | 0 <= j < |es| :: !es[j].Covers(x)
  {
    CountsOne(es, ALL, x);
    forall j | 0 <= j < |es|
      ensures !es[j].Covers(x)
    {
      InAll(es[j].kind);
      assert Hit(es[j], ALL, x) == 0;
    }
  }

  /** Conservation. Every byte of every descriptor lies in exactly one entry, and that entry has the descriptor's own
      kind or is a structure's, so that nothing that was not free becomes free. */
  lemma {:induction false} MapIsExact(ds: seq<Desc>, core: Structure, m: Structure, i: nat, x: nat)
    requires AllProper(ds, core, m) && Disjoint(ds) && i < |ds| && ds[i].Holds(x)
    ensures CoveredOnceBy(Run(ds, core, m).es, x, LabelAt(ds, core, m, i, x))
    ensures LabelAt(ds, core, m, i, x) == ds[i].Type() || LabelAt(ds, core, m, i, x) == Structs
  {
    var k := LabelAt(ds, core, m, i, x);
    forall ks: set<Kind>
      ensures Count(Run(ds, core, m).es, ks, x) == if k in ks then 1 else 0
    {
      RunCounts(ds, core, m, ks, x, |ds|);
      OneLabel(ds, core, m, ks, i, x, |ds|);
    }
    OneCover(Run(ds, core, m).es, k, x);
  }

  /** A byte outside all descriptors lies in no entry. */
  lemma {:induction false} MapAddsNothing(ds: seq<Desc>, core: Structure, m: Structure, x: nat)
    requires AllProper(ds, core, m) && Disjoint(ds) && forall i | 0 <= i < |ds| :: !ds[i].Holds(x)
    ensures forall j | 0 <= j < |Run(ds, core, m).es| :: !Run(ds, core, m).es[j].Covers(x)
  {
    RunCounts(ds, core, m, ALL, x, |ds|);
    NoLabels(ds, core, m, ALL, x, |ds|);
    NoCover(Run(ds, core, m).es, x);
  }

  /** Before virtual addresses are assigned they are all 0, and a large descriptor then seems to hold a structure below
      it. */
  lemma {:induction false} VirtualTestPicksElsewhere()
    ensures var d, s := Desc(7, 0x10_0000, 0, 0x1000), Structure(0x8_0000, 64);
            d.Fits() && s.Fits() && Chosen(d, s, s) == Some(s) && !s.Touches(d)
            && !Exact([], Split(Map([], None), d, s.Low(), s.High()).es, d)
  {
    SplitIsExactIff(Map([], None), Desc(7, 0x10_0000, 0, 0x1000), Structure(0x8_0000, 64));
  }

  /** The virtual test agrees with where the structure physically is. */
  predicate Agrees(d: Desc, s: Structure) { s.SeemsInside(d) || s.Fills(d) ==> s.Inside(d) }

  lemma {:induction false} AgreementIsProper(d: Desc, core: Structure, m: Structure)
    requires d.Fits() && core.Fits() && m.Fits() && Agrees(d, core) && Agrees(d, m)
    ensures Proper(d, core, m)
  {
    PagesOf(core);
    PagesOf(m);
  }

  /** All pages of a structure that is alone in its descriptor are marked as a structure's. */
  lemma {:induction false} StructureIsProtected(ds: seq<Desc>, core: Structure, m: Structure, i: nat, s: Structure,
          x: nat)
    requires AllProper(ds, core, m) && Disjoint(ds) && i < |ds|
    requires s in {core, m} && ds[i].phys % PAGE_SIZE == 0 && s.Inside(ds[i]) && s.Low() <= x < s.High()
    requires s == m ==> !core.SeemsInside(ds[i])
    ensures CoveredOnceBy(Run(ds, core, m).es, x, Structs)
  {
    PagesInside(ds[i], s);
    MapIsExact(ds, core, m, i, x);
  }

  lemma {:induction false} PagesInside(d: Desc, s: Structure)
    requires d.Fits() && d.phys % PAGE_SIZE == 0 && s.Fits() && s.Inside(d)
    ensures d.phys <= s.Low() && s.High() <= d.End()
  {
    PagesOf(s);
    RoundedInside(d.phys / PAGE_SIZE, d.phys / PAGE_SIZE + d.pages, s);
  }

  lemma {:induction false} RoundedInside(first: nat, end: nat, s: Structure)
    requires first * PAGE_SIZE <= s.start && s.start + s.size <= end * PAGE_SIZE
    ensures first * PAGE_SIZE <= s.Low() && s.High() <= end * PAGE_SIZE
  {
  }

  lemma {:induction false} OneKind(es: seq<Entry>, x: nat, k: Kind, k': Kind)
    requires CoveredOnceBy(es, x, k) && CoveredOnceBy(es, x, k')
    ensures k == k'
  {
    var j :| 0 <= j < |es| && OnlyHit(es, j, ALL, x) && es[j].kind == k;
    var j' :| 0 <= j' < |es| && OnlyHit(es, j', ALL, x) && es[j'].kind == k';
    assert j == j';
  }

  /** The kind of a byte in the map that the loop leaves. */
  lemma {:induction false} MapSays(ds: seq<Desc>, core: Structure, m: Structure, i: nat, x: nat, k: Kind)
    requires AllProper(ds, core, m) && Disjoint(ds) && i < |ds| && ds[i].Holds(x)
    ensures CoveredOnceBy(Run(ds, core, m).es, x, k) <==> k == LabelAt(ds, core, m, i, x)
  {
    MapIsExact(ds, core, m, i, x);
    if CoveredOnceBy(Run(ds, core, m).es, x, k) {
      OneKind(Run(ds, core, m).es, x, k, LabelAt(ds, core, m, i, x));
    }
  }

  /** Which bytes of a descriptor the finished map marks as a structure's: its pages, and by accident all that lies
      behind them exactly when the structure's entry is written into the slot that the descriptor was drafted in. That
      is so when no part before the structure got a slot, because the structure lies at the start or that part joined
      the entry before, unless the structure itself joined a structure's entry. */
  lemma {:induction false} OnlyTheTailIsTaken(ds: seq<Desc>, core: Structure, m: Structure, i: nat, x: nat)
    requires AllProper(ds, core, m) && Disjoint(ds) && i < |ds| && ds[i].Holds(x) && !core.Fills(ds[i]) &&
               !m.Fills(ds[i])
    ensures CoveredOnceBy(Run(ds, core, m).es, x, Structs) <==>
            var before, d := RunTo(ds, core, m, i), ds[i];
            && Chosen(d, core, m).Some?
            && var s := Chosen(d, core, m).value;
               x >= s.Low() && (x < s.High() ||
                 (!StructJoins(before, d, s.Low()) && (d.phys >= s.Low() || LastJoins(before, d, d.Type()))))
  {
    MapSays(ds, core, m, i, x, Structs);
  }

  /** A structure at the start of free memory: the rest of that memory is taken for the structure's, too. */
  lemma {:induction false} FreeMemoryIsTaken()
    ensures var d, core, m := Desc(7, 0x10_0000, 0, 16), Structure(0x10_0000, 64), Structure(0x20_0000, 64);
            && AllProper([d], core, m) && Disjoint([d])
            && d.Holds(0x10_2000) && d.Type() == Free && core.High() == 0x10_1000
            && CoveredOnceBy(Run([d], core, m).es, 0x10_2000, Structs)
  {
    var d, core, m := Desc(7, 0x10_0000, 0, 16), Structure(0x10_0000, 64), Structure(0x20_0000, 64);
    assert Chosen(d, core, m) == Some(core);
    OnlyTheTailIsTaken([d], core, m, 0, 0x10_2000);
  }

  /** Two structures in one descriptor: the second test is an else, so the pages of `m` are marked if and only if they
      lie among those of the first structure or in a rest that is marked by accident. */
  lemma {:induction false} BothInOneDescriptor(ds: seq<Desc>, core: Structure, m: Structure, i: nat)
    requires AllProper(ds, core, m) && Disjoint(ds) && i < |ds| && ds[i].phys % PAGE_SIZE == 0
    requires core.Inside(ds[i]) && m.Inside(ds[i]) && !core.Fills(ds[i]) && !m.Fills(ds[i])
    ensures (forall x | m.Low() <= x < m.High() :: CoveredOnceBy(Run(ds, core, m).es, x, Structs)) <==>
            m.Low() >= core.Low() && (m.High() <= core.High() || TailTaken(RunTo(ds, core, m, i), ds[i], core.Low()))
  {
    PagesOf(core);
    PagesOf(m);
    PagesInside(ds[i], m);
    forall x | m.Low() <= x < m.High()
      ensures CoveredOnceBy(Run(ds, core, m).es, x, Structs) <==>
              x >= core.Low() && (x < core.High() || TailTaken(RunTo(ds, core, m, i), ds[i], core.Low()))
    {
      MapSays(ds, core, m, i, x, Structs);
    }
    if m.Low() < core.Low() {
      assert !CoveredOnceBy(Run(ds, core, m).es, m.Low(), Structs);
    } else if m.High() > core.High() && !TailTaken(RunTo(ds, core, m, i), ds[i], core.Low()) {
      assert !CoveredOnceBy(Run(ds, core, m).es, m.High() - 1, Structs);
    }
  }

  /** The kernel is told that the pages of the second structure are free memory. */
  lemma {:induction false} SecondStructureIsFree()
    ensures var d, core, m := Desc(7, 0x10_0000, 0, 16), Structure(0x10_1000, 64), Structure(0x10_3000, 64);
            && AllProper([d], core, m) && Disjoint([d]) && m.Inside(d) && m.Low() == 0x10_3000
            && forall x | m.Low() <= x < m.High() :: CoveredOnceBy(Run([d], core, m).es, x, Free)
  {
    var d, core, m := Desc(7, 0x10_0000, 0, 16), Structure(0x10_1000, 64), Structure(0x10_3000, 64);
    assert Chosen(d, core, m) == Some(core);
    forall x | m.Low() <= x < m.High()
      ensures CoveredOnceBy(Run([d], core, m).es, x, Free)
    {
      MapSays([d], core, m, 0, x, Free);
    }
  }

  // ----- the loop -----

  /** A descriptor that is not split: join `last_entry` or keep the drafted slot. */
  method EnterWhole(mmap: array<Entry>, mcount: nat, last: Option<nat>, d: Desc, kind: Kind)
    returns (count: nat, newLast: Option<nat>)
    requires mcount < mmap.Length && Map(mmap[..mcount], last).Ok() && d.Fits()
    requires mmap[mcount] == Entry(d.phys, d.virt, d.Size(), kind)
    modifies mmap
    ensures count <= mmap.Length && Map(mmap[..count], newLast) == Whole(old(Map(mmap[..mcount], last)), d, kind)
  {
    var e := mmap[mcount];
    if last.Some? && Joins(mmap[last.value], e.phys, e.virt, e.kind) {
      mmap[last.value] := mmap[last.value].(size := Wrap(mmap[last.value].size + e.size));
      return mcount, last;
    }
    return mcount + 1, Some(mcount);
  }

  /** The part before the structure: joined to `last_entry`, or written into the drafted slot, whose type it keeps. */
  method EnterFront(mmap: array<Entry>, mcount: nat, last: Option<nat>, d: Desc, low: nat) returns (count: nat)
    requires mcount < mmap.Length && Map(mmap[..mcount], last).Ok() && d.Fits() && low < U64 &&
               mmap[mcount].kind == d.Type()
    modifies mmap
    ensures mcount <= count <= mcount + 1 && mmap[..count] == Front(old(Map(mmap[..mcount], last)), d, low)
    ensures mmap[mcount].kind == d.Type()
  {
    count := mcount;
    var from := Max(d.phys, low);
    if d.phys < from {
      if last.Some? && Joins(mmap[last.value], d.phys, d.virt, mmap[mcount].kind) {
        mmap[last.value] := mmap[last.value].(size := Wrap(mmap[last.value].size + Diff(from, d.phys)));
      } else {
        mmap[count] := Entry(d.phys, d.virt, Diff(from, d.phys), mmap[mcount].kind);
        count := count + 1;
      }
    }
  }

  /** The structure's pages: joined to a structure's entry, or written into the next slot, which can be the drafted
      one. */
  method EnterMiddle(mmap: array<Entry>, front: nat, ghost st: Map, d: Desc, low: nat, high: nat, last: Option<nat>)
    returns (count: nat)
    requires st.Ok() && d.Fits() && low < U64 && high < U64 && last == st.last
    requires |st.es| <= front < mmap.Length && mmap[..front] == Front(st, d, low) && mmap[|st.es|].kind == d.Type()
    modifies mmap
    ensures front <= count <= front + 1 && (count == front <==> StructJoins(st, d, low))
    ensures mmap[..count] == Middle(st, d, low, high)
    ensures mmap[|st.es|].kind == if TailTaken(st, d, low) then Structs else d.Type()
  {
    count := front;
    var from, to := Max(d.phys, low), Min(d.End(), high);
    if last.Some? && from == EndOf(mmap[last.value]) && mmap[last.value].kind == Structs {
      mmap[last.value] := mmap[last.value].(size := Wrap(mmap[last.value].size + Diff(to, from)));
    } else {
      mmap[count] := Entry(from, 0, Diff(to, from), Structs);
      count := count + 1;
    }
  }

  /** The fragmenting branch. The type of the rest is read from the drafted slot `mmap[mcount]` after the writes
      above. */
  method Fragment(mmap: array<Entry>, mcount: nat, last: Option<nat>, d: Desc, low: nat, high: nat)
    returns (count: nat, newLast: Option<nat>)
    requires mcount + 3 <= mmap.Length && Map(mmap[..mcount], last).Ok() && d.Fits() && low < U64 && high < U64
    requires mmap[mcount] == Entry(d.phys, d.virt, d.Size(), d.Type())
    modifies mmap
    ensures count <= mcount + 3 && Map(mmap[..count], newLast) == Split(old(Map(mmap[..mcount], last)), d, low, high)
  {
    ghost var st := Map(mmap[..mcount], last);
    var front := EnterFront(mmap, mcount, last, d, low);
    count := EnterMiddle(mmap, front, st, d, low, high, last);
    newLast := if count > front then Some(count - 1) else last;
    var to := Min(d.End(), high);
    if to < d.End() {
      ghost var es := mmap[..count];
      mmap[count] := Entry(to, 0, Diff(d.End(), to), mmap[mcount].kind);
      newLast, count := Some(count), count + 1;
      assert mmap[..count] == es + [mmap[count - 1]];
    }
  }

  /** The body of the loop. */
  method TakeDescriptor(mmap: array<Entry>, mcount: nat, last: Option<nat>, d: Desc, core: Structure, m: Structure)
    returns (count: nat, newLast: Option<nat>)
    requires mcount + 3 <= mmap.Length && Map(mmap[..mcount], last).Ok() && d.Fits() && core.Fits() && m.Fits()
    modifies mmap
    ensures count <= mcount + 3 && Map(mmap[..count], newLast) == Step(old(Map(mmap[..mcount], last)), d, core, m)
  {
    ghost var before := mmap[..mcount];
    mmap[mcount] := Entry(d.phys, d.virt, d.Size(), d.Type());
    assert mmap[..mcount] == before;
    if core.Fills(d) || m.Fills(d) {
      mmap[mcount] := mmap[mcount].(kind := Structs);
      assert mmap[..mcount] == before;
    } else if core.SeemsInside(d) {
      count, newLast := Fragment(mmap, mcount, last, d, core.Low(), core.High());
      return;
    } else if m.SeemsInside(d) {
      count, newLast := Fragment(mmap, mcount, last, d, m.Low(), m.High());
      return;
    }
    count, newLast := EnterWhole(mmap, mcount, last, d, mmap[mcount].kind);
  }

  /** The descriptor loop. Five slots for each descriptor are reserved; three are enough. */
  method Normalise(ds: seq<Desc>, core: Structure, m: Structure) returns (mmap: array<Entry>, mcount: nat)
    requires AllFit(ds, core, m)
    ensures mcount <= 3 * |ds| <= mmap.Length && mmap[..mcount] == Run(ds, core, m).es
  {
    mmap := new Entry[5 * |ds|](_ => Entry(0, 0, 0, Free));
    mcount := 0;
    var last := None;
    for i := 0 to |ds|
      invariant mcount <= 3 * i && Map(mmap[..mcount], last) == RunTo(ds, core, m, i)
    {
      mcount, last := TakeDescriptor(mmap, mcount, last, ds[i], core, m);
    }
  }
}
