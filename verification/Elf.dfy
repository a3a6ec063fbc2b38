/** The ELF64 loader (Bootloader/UEFI/src/elf.c:35-229; System V gABI, chapter 5, Program Header).

    Memory is an array of bytes whose index is the physical address. The UEFI allocation services are parameters: what
    they grant lies inside memory, which says all that the loader needs from them. */
module Elf {
  import opened Common

  // ----- reading the file -----

  function U16(d: seq<Byte>, o: nat): nat
    requires o + 2 <= |d|
  {
    d[o] as nat + 0x100 * (d[o + 1] as nat)
  }

  function U32(d: seq<Byte>, o: nat): nat
    requires o + 4 <= |d|
  {
    U16(d, o) + 0x1_0000 * U16(d, o + 2)
  }

  function U64At(d: seq<Byte>, o: nat): (v: nat)
    requires o + 8 <= |d|
    ensures v < U64
  {
    U32(d, o) + 0x1_0000_0000 * U32(d, o + 4)
  }

  const EHDR64_SIZE := 64
  const EHDR32_SIZE := 52
  const PHDR64_SIZE := 56
  const PHDR32_SIZE := 32
  const PT_LOAD := 1
  const EM_X86_64 := 62

  datatype Phdr = Phdr(kind: nat, flags: nat, offset: nat, vaddr: nat, filesz: nat, memsz: nat, align: nat) {
    predicate Loads() { kind == PT_LOAD && memsz != 0 }

    predicate Executable() { flags % 2 == 1 }

    predicate Accessible() { flags % 2 == 1 || flags / 2 % 2 == 1 || flags / 4 % 2 == 1 }

    /** The tests that the loader makes on every PT_LOAD header. */
    predicate Acceptable(size: nat) {
      && align != 0 && PowerOfTwo(align)
      && filesz <= memsz && offset <= size && filesz <= size - offset
      && (align > 1 ==> vaddr % align == offset % align)
      && memsz <= U64_MAX - vaddr
    }

    /** The rounded bounds, in 64-bit arithmetic. */
    function Low(): nat { Down(vaddr) }

    function High(): nat { Up(vaddr + memsz) % U64 }

    predicate Meets(o: Phdr) { vaddr < o.vaddr + o.memsz && o.vaddr < vaddr + memsz }
  }

  /** (a & (a - 1)) == 0 for a 64-bit a. */
  predicate PowerOfTwo(a: nat)
    decreases a
  {
    a == 1 || (a > 1 && a % 2 == 0 && PowerOfTwo(a / 2))
  }

  function PhdrAt(d: seq<Byte>, o: nat): Phdr
    requires o + PHDR64_SIZE <= |d|
  {
    Phdr(U32(d, o), U32(d, o + 4), U64At(d, o + 8), U64At(d, o + 16), U64At(d, o + 32), U64At(d, o + 40),
        U64At(d, o + 48))
  }

  function PhOff(d: seq<Byte>): nat
    requires |d| >= EHDR64_SIZE
  {
    U64At(d, 32)
  }

  function PhNum(d: seq<Byte>): nat
    requires |d| >= EHDR64_SIZE
  {
    U16(d, 56)
  }

  predicate Magic(d: seq<Byte>) { |d| >= 4 && d[0] == 0x7F && d[1] == 0x45 && d[2] == 0x4C && d[3] == 0x46 }

  /** elf64_verify. The overflow guard makes the last test exact. */
  predicate Verify64(d: seq<Byte>)
    requires |d| >= EHDR64_SIZE
  {
    && Magic(d)
    && PhOff(d) < |d| && PhNum(d) != 0 && U16(d, 54) == PHDR64_SIZE
    && PhNum(d) <= (U64_MAX - PhOff(d)) / PHDR64_SIZE
    && (PhOff(d) + PhNum(d) * PHDR64_SIZE) % U64 <= |d|
  }

  predicate Verify32(d: seq<Byte>)
    requires |d| >= EHDR32_SIZE
  {
    && Magic(d)
    && U32(d, 28) < |d| && U16(d, 44) != 0 && U16(d, 42) == PHDR32_SIZE
    && U16(d, 44) <= (U64_MAX - U32(d, 28)) / PHDR32_SIZE
    && U32(d, 28) + U16(d, 44) * PHDR32_SIZE <= |d|
  }

  datatype Ctx = Ctx(valid: bool, b64: bool, le: bool, reloc: bool, size: nat, imageBase: nat, imageSize: nat,
          entry: nat)

  /** A context that belongs to the file: a valid 64-bit one has its program headers inside the file. */
  predicate Describes(ctx: Ctx, d: seq<Byte>) {
    ctx.valid ==> ctx.size == |d| && ctx.entry < U64 && (ctx.b64 ==> |d| >= EHDR64_SIZE && HeadersInside(d))
  }

  predicate HeadersInside(d: seq<Byte>)
    requires |d| >= EHDR64_SIZE
  {
    PhOff(d) + PhNum(d) * PHDR64_SIZE <= |d|
  }

  /** What elf_make_ctx accepts: an executable or shared object for this machine, in one of the two classes. The byte
      order is recorded, not obeyed. */
  predicate Recognised(d: seq<Byte>) {
    && |d| >= EHDR32_SIZE && d[4] in {1, 2} && d[5] in {1, 2} && d[6] == 1
    && U16(d, 16) in {2, 3} && U16(d, 18) == EM_X86_64 && U32(d, 20) == 1
    && if d[4] == 2 then |d| >= EHDR64_SIZE && Verify64(d) else Verify32(d)
  }

  /** elf_make_ctx. */
  method MakeCtx(d: seq<Byte>) returns (ok: bool, ctx: Ctx)
    requires |d| < U64
    ensures ok == ctx.valid == Recognised(d) && Describes(ctx, d)
    ensures ok ==> ctx.b64 == (d[4] == 2) && ctx.le == (d[5] == 1) && ctx.reloc == (U16(d, 16) == 3) &&
                   ctx.entry == if ctx.b64 then U64At(d, 24) else U32(d, 24)
  {
    ctx := Ctx(false, false, false, false, 0, 0, 0, 0);
    if |d| < EHDR32_SIZE || !Magic(d) || d[6] != 1 {
      return false, ctx;
    }
    if d[4] != 1 && d[4] != 2 {
      return false, ctx;
    }
    if d[5] != 1 && d[5] != 2 {
      return false, ctx;
    }
    ctx := ctx.(b64 := d[4] == 2, le := d[5] == 1);
    if U16(d, 18) != EM_X86_64 || U32(d, 20) != 1 {
      return false, ctx;
    }
    if ctx.b64 {
      if |d| < EHDR64_SIZE || !Verify64(d) {
        return false, ctx;
      }
      VerifyMeansInside(d);
      ctx := ctx.(entry := U64At(d, 24));
    } else {
      if !Verify32(d) {
        return false, ctx;
      }
      ctx := ctx.(entry := U32(d, 24));
    }
    var kind := U16(d, 16);
    if kind != 2 && kind != 3 {
      return false, ctx;
    }
    ctx := ctx.(reloc := kind == 3, size := |d|, valid := true);
    return true, ctx;
  }

  /** Without the guard the wrapped sum could pass the size test. */
  lemma {:induction false} VerifyMeansInside(d: seq<Byte>)
    requires |d| >= EHDR64_SIZE && Verify64(d)
    ensures HeadersInside(d)
  {
    var n, room := PhNum(d), U64_MAX - PhOff(d);
    assert n * PHDR64_SIZE <= room / PHDR64_SIZE * PHDR64_SIZE <= room;
  }

  // ----- what a load leaves in memory -----

  function Header(d: seq<Byte>, i: nat): Phdr
    requires |d| >= EHDR64_SIZE && HeadersInside(d) && i < PhNum(d)
  {
    PhdrAt(d, PhOff(d) + i * PHDR64_SIZE)
  }

  function Headers(d: seq<Byte>): (s: seq<Phdr>)
    requires |d| >= EHDR64_SIZE && HeadersInside(d)
    ensures |s| == PhNum(d) && forall i | 0 <= i < |s| :: s[i] == Header(d, i)
  {
    seq(PhNum(d), i requires 0 <= i < PhNum(d) => Header(d, i))
  }

  /** Segment `p` lies in memory at `addr`, every byte of it: the file's bytes first, then zeroes. */
  ghost predicate LoadedAt(mem: seq<Byte>, d: seq<Byte>, p: Phdr, addr: int) {
    && p.offset + p.filesz <= |d| && 0 <= addr && addr + p.memsz <= |mem|
    && forall x | addr <= x < addr + p.memsz :: mem[x] == if x < addr + p.filesz then d[p.offset + (x - addr)] else 0
  }

  ghost predicate Apart(ps: seq<Phdr>) {
    forall i, j | 0 <= i < |ps| && 0 <= j < |ps| && i != j && ps[i].Loads() && ps[j].Loads() :: !ps[i].Meets(ps[j])
  }

  /** No PT_LOAD header ends in the last page of the address space, so that rounding up cannot wrap. */
  ghost predicate RoomToRound(ps: seq<Phdr>) {
    forall i | 0 <= i < |ps| && ps[i].Loads() :: ps[i].vaddr + ps[i].memsz <= U64 - PAGE_SIZE
  }

  function Down(x: nat): nat { x - x % PAGE_SIZE }

  function Up(x: nat): nat { Down(x + (PAGE_SIZE - 1)) }

  lemma {:induction false} RoundBounds(x: nat)
    ensures Down(x) <= x <= Up(x) && Up(x) < x + PAGE_SIZE && Down(x) % PAGE_SIZE == 0 && Up(x) % PAGE_SIZE == 0
  {
  }

  function PagesFor(x: nat): nat { Up(x) / PAGE_SIZE }

  /** The pages asked for hold the bytes. */
  lemma {:induction false} PagesHold(x: nat)
    ensures x <= PagesFor(x) * PAGE_SIZE < x + PAGE_SIZE
  {
    RoundBounds(x);
  }

  /** The grants of the allocation service: a granted block lies in memory. */
  ghost predicate GrantsInside(fixed: iset<(nat, nat)>, anywhere: imap<nat, nat>, limit: nat) {
    && (forall a: nat, n: nat | (a, n) in fixed :: a + n * PAGE_SIZE <= limit)
    && (forall n: nat | n in anywhere :: anywhere[n] + n * PAGE_SIZE <= limit)
  }

  /** memcpy and memset of one segment. */
  method CopySegment(ram: array<Byte>, d: seq<Byte>, p: Phdr, addr: nat)
    requires p.filesz <= p.memsz && p.offset + p.filesz <= |d| && addr + p.memsz <= ram.Length
    modifies ram
    ensures LoadedAt(ram[..], d, p, addr)
    ensures forall x | 0 <= x < ram.Length && !(addr <= x < addr + p.memsz) :: ram[x] == old(ram[x])
  {
    for k := 0 to p.filesz
      invariant forall x | 0 <= x < ram.Length :: ram[x] == if addr <= x < addr + k then d[p.offset + (x - addr)]
                  else old(ram[x])
    {
      ram[addr + k] := d[p.offset + k];
    }
    for k := p.filesz to p.memsz
      invariant forall x | 0 <= x < ram.Length ::
                  ram[x] == if addr <= x < addr + p.filesz then d[p.offset + (x - addr)]
                            else if addr + p.filesz <= x < addr + k then 0 else old(ram[x])
    {
      ram[addr + k] := 0;
    }
  }

  /** A copy into a range that segment `p` does not meet leaves `p` as it was. */
  lemma {:induction false} StaysLoaded(before: seq<Byte>, after: seq<Byte>, d: seq<Byte>, p: Phdr, addr: int, lo: int,
          hi: int)
    requires |before| == |after| && LoadedAt(before, d, p, addr)
    requires forall x | 0 <= x < |after| && !(lo <= x < hi) :: after[x] == before[x]
    requires addr + p.memsz <= lo || hi <= addr
    ensures LoadedAt(after, d, p, addr)
  {
  }

  // ----- the first pass -----

  /** Header `i` and every other loadable header passed the tests, and `i` meets none of them. */
  ghost predicate Checked(ps: seq<Phdr>, i: nat, size: nat)
    requires i < |ps|
  {
    ps[i].Loads() ==>
      ps[i].Acceptable(size) &&
      forall j | 0 <= j < |ps| && j != i && ps[j].Loads() :: ps[j].Acceptable(size) && !ps[i].Meets(ps[j])
  }

  /** The tests of one header: its own, and the inner loop against all the others. */
  method Check(d: seq<Byte>, i: nat, ghost ps: seq<Phdr>) returns (ok: bool)
    requires |d| >= EHDR64_SIZE && HeadersInside(d) && ps == Headers(d) && i < |ps| && ps[i].Loads()
    ensures ok == Checked(ps, i, |d|)
  {
    var ph := Header(d, i);
    if !ph.Acceptable(|d|) {
      return false;
    }
    for j := 0 to PhNum(d)
      invariant forall k | 0 <= k < j && k != i && ps[k].Loads() :: ps[k].Acceptable(|d|) && !ph.Meets(ps[k])
    {
      if j != i {
        var xph := Header(d, j);
        assert xph == ps[j];
        if xph.Loads() && (!xph.Acceptable(|d|) || ph.Meets(xph)) {
          return false;
        }
      }
    }
    return true;
  }

  /** `base` and `end` are the rounded hull of the loadable headers below `n`; the sums are in 64-bit arithmetic. */
  ghost predicate Hull(ps: seq<Phdr>, n: nat, base: nat, end: nat)
    requires n <= |ps|
  {
    && (forall i | 0 <= i < n && ps[i].Loads() :: base <= ps[i].Low() && ps[i].High() <= end)
    && (base != U64_MAX ==> exists i :: 0 <= i < n && ps[i].Loads() && base == ps[i].Low())
    && (end != 0 ==> exists i :: 0 <= i < n && ps[i].Loads() && end == ps[i].High())
  }

  ghost predicate AllChecked(ps: seq<Phdr>, size: nat) { forall i | 0 <= i < |ps| :: Checked(ps, i, size) }

  /** Header `i` passes the first loop: it is checked and, for a fixed image, its memory is granted. */
  ghost predicate Admitted(ps: seq<Phdr>, i: nat, size: nat, reloc: bool, fixed: iset<(nat, nat)>)
    requires i < |ps|
  {
    && Checked(ps, i, size)
    && (ps[i].Loads() && !reloc ==> ps[i].Accessible() && (ps[i].vaddr, PagesFor(ps[i].memsz)) in fixed)
  }

  /** The entry lies in an executable segment below `n`, at distance `shift` from its address. */
  ghost predicate EntryIn(ps: seq<Phdr>, n: nat, entry: nat, shift: int)
    requires n <= |ps|
  {
    exists i :: 0 <= i < n && ps[i].Loads() && ps[i].Executable() &&
        ps[i].vaddr + shift <= entry < ps[i].vaddr + shift + ps[i].memsz
  }

  /** Segments below `n` are in memory at distance `shift`, and nothing else changed. */
  ghost predicate Placed(before: seq<Byte>, mem: seq<Byte>, d: seq<Byte>, ps: seq<Phdr>, n: nat, shift: int)
    requires n <= |ps|
  {
    && |mem| == |before|
    && (forall i | 0 <= i < n && ps[i].Loads() :: LoadedAt(mem, d, ps[i], ps[i].vaddr + shift))
    && (forall x | 0 <= x < |mem| && mem[x] != before[x] ::
          exists i :: 0 <= i < n && ps[i].Loads() && ps[i].vaddr + shift <= x < ps[i].vaddr + shift + ps[i].memsz)
  }

  /** Copying the next segment keeps the earlier ones, because it meets none of them. */
  method PlaceSegment(ram: array<Byte>, d: seq<Byte>, ghost ps: seq<Phdr>, ghost i: nat, ph: Phdr, addr: nat,
          ghost shift: int, ghost before: seq<Byte>)
    requires i < |ps| && ps[i] == ph && ph.Loads() && Checked(ps, i, |d|) && addr == ph.vaddr + shift
    requires addr + ph.memsz <= ram.Length && Placed(before, ram[..], d, ps, i, shift)
    modifies ram
    ensures Placed(before, ram[..], d, ps, i + 1, shift)
  {
    ghost var mid := ram[..];
    CopySegment(ram, d, ph, addr);
    forall j | 0 <= j < i && ps[j].Loads()
      ensures LoadedAt(ram[..], d, ps[j], ps[j].vaddr + shift)
    {
      assert !ph.Meets(ps[j]);
      StaysLoaded(mid, ram[..], d, ps[j], ps[j].vaddr + shift, addr, addr + ph.memsz);
    }
    forall x | 0 <= x < ram.Length && ram[x] != before[x]
      ensures exists j :: 0 <= j < i + 1 && ps[j].Loads() &&
                ps[j].vaddr + shift <= x < ps[j].vaddr + shift + ps[j].memsz
    {
      if addr <= x < addr + ph.memsz {
        assert ps[i].Loads() && ps[i].vaddr + shift <= x;
      } else {
        assert mid[x] != before[x];
      }
    }
  }

  /** Skipping a header that is not loadable. */
  lemma {:induction false} SkipHeader(ps: seq<Phdr>, n: nat, base: nat, end: nat, entry: nat, shift: int,
          before: seq<Byte>, mem: seq<Byte>, d: seq<Byte>)
    requires n < |ps| && !ps[n].Loads()
    ensures Hull(ps, n, base, end) ==> Hull(ps, n + 1, base, end)
    ensures EntryIn(ps, n + 1, entry, shift) == EntryIn(ps, n, entry, shift)
    ensures Placed(before, mem, d, ps, n, shift) ==> Placed(before, mem, d, ps, n + 1, shift)
  {
    if EntryIn(ps, n, entry, shift) {
      var i :| 0 <= i < n && ps[i].Loads() && ps[i].Executable() &&
          ps[i].vaddr + shift <= entry < ps[i].vaddr + shift + ps[i].memsz;
      assert 0 <= i < n + 1;
    }
  }

  lemma {:induction false} GrowHull(ps: seq<Phdr>, n: nat, base: nat, end: nat)
    requires n < |ps| && ps[n].Loads() && Hull(ps, n, base, end) && ps[n].vaddr <= U64_MAX
    ensures var lo, hi := ps[n].Low(), ps[n].High();
            Hull(ps, n + 1, if lo < base then lo else base, if hi > end then hi else end)
  {
    RoundBounds(ps[n].vaddr);
    var lo, hi := ps[n].Low(), ps[n].High();
    assert lo < U64_MAX;
    if lo >= base {
      var i :| 0 <= i < n && ps[i].Loads() && base == ps[i].Low();
      assert 0 <= i < n + 1;
    }
    if 0 < hi <= end {
      var i :| 0 <= i < n && ps[i].Loads() && end == ps[i].High();
      assert 0 <= i < n + 1;
    }
  }

  /** What one checked header does to the hull and to the entry test. */
  method Widen(ghost ps: seq<Phdr>, ghost i: nat, ph: Phdr, entry: nat, base: nat, end: nat, valid: bool)
    returns (b: nat, e: nat, v: bool)
    requires i < |ps| && ps[i] == ph && ph.Loads() && ph.vaddr <= U64_MAX
    requires Hull(ps, i, base, end) && valid == EntryIn(ps, i, entry, 0)
    ensures Hull(ps, i + 1, b, e) && v == EntryIn(ps, i + 1, entry, 0)
  {
    GrowHull(ps, i, base, end);
    var segBase := Down(ph.vaddr);
    var segEnd := Up(ph.vaddr + ph.memsz) % U64;
    b, e, v := base, end, valid;
    if segBase < b {
      b := segBase;
    }
    if segEnd > e {
      e := segEnd;
    }
    GrowEntry(ps, i, entry, 0);
    if ph.Executable() && !v {
      if entry < ph.vaddr + ph.memsz && entry >= ph.vaddr {
        v := true;
      }
    }
  }

  /** A fixed segment: its memory type, its allocation and its copy. */
  method PlaceFixed(d: seq<Byte>, ram: array<Byte>, fixed: iset<(nat, nat)>, ghost ps: seq<Phdr>, ghost i: nat,
          ph: Phdr, ghost before: seq<Byte>)
    returns (ok: bool)
    requires i < |ps| && ps[i] == ph && ph.Loads() && Checked(ps, i, |d|) && Placed(before, ram[..], d, ps, i, 0)
    requires forall a: nat, n: nat | (a, n) in fixed :: a + n * PAGE_SIZE <= ram.Length
    modifies ram
    ensures ok == (ph.Accessible() && (ph.vaddr, PagesFor(ph.memsz)) in fixed)
    ensures ok ==> Placed(before, ram[..], d, ps, i + 1, 0)
  {
    var pages := PagesFor(ph.memsz);
    if !ph.Accessible() || (ph.vaddr, pages) !in fixed {
      return false;
    }
    PagesHold(ph.memsz);
    PlaceSegment(ram, d, ps, i, ph, ph.vaddr, 0, before);
    return true;
  }

  /** The body of the first loop. */
  method FirstTurn(ctx: Ctx, d: seq<Byte>, ram: array<Byte>, fixed: iset<(nat, nat)>, ghost ps: seq<Phdr>, i: nat,
                   base: nat, end: nat, valid: bool, ghost before: seq<Byte>)
    returns (ok: bool, b: nat, e: nat, v: bool)
    requires |d| >= EHDR64_SIZE && HeadersInside(d) && ps == Headers(d) && i < |ps|
    requires Passed(ctx, before, ram[..], d, ps, i, base, end, valid)
    requires forall a: nat, n: nat | (a, n) in fixed :: a + n * PAGE_SIZE <= ram.Length
    modifies ram
    ensures ok == Admitted(ps, i, |d|, ctx.reloc, fixed)
    ensures ok ==> Passed(ctx, before, ram[..], d, ps, i + 1, b, e, v)
  {
    ok, b, e, v := true, base, end, valid;
    var ph := Header(d, i);
    assert ph == ps[i];
    if !ph.Loads() {
      SkipHeader(ps, i, base, end, ctx.entry, 0, before, ram[..], d);
    } else {
      ok := Check(d, i, ps);
      if ok {
        b, e, v := Widen(ps, i, ph, ctx.entry, base, end, valid);
        if !ctx.reloc {
          ok := PlaceFixed(d, ram, fixed, ps, i, ph, before);
        }
      }
    }
  }

  ghost predicate AllAdmitted(ps: seq<Phdr>, n: nat, size: nat, reloc: bool, fixed: iset<(nat, nat)>)
    requires n <= |ps|
  {
    forall i | 0 <= i < n :: Admitted(ps, i, size, reloc, fixed)
  }

  /** What the first loop has done to the headers below `n`. */
  ghost predicate Passed(ctx: Ctx, before: seq<Byte>, mem: seq<Byte>, d: seq<Byte>, ps: seq<Phdr>, n: nat, base: nat,
          end: nat, valid: bool)
    requires n <= |ps|
  {
    && Hull(ps, n, base, end) && valid == EntryIn(ps, n, ctx.entry, 0)
    && if ctx.reloc then mem == before else Placed(before, mem, d, ps, n, 0)
  }

  lemma {:induction false} NothingPassed(ctx: Ctx, mem: seq<Byte>, d: seq<Byte>, ps: seq<Phdr>)
    ensures Passed(ctx, mem, mem, d, ps, 0, U64_MAX, 0, false)
  {
  }

  lemma {:induction false} OneMore(ps: seq<Phdr>, n: nat, size: nat, reloc: bool, fixed: iset<(nat, nat)>)
    requires n < |ps| && AllAdmitted(ps, n, size, reloc, fixed)
    ensures if Admitted(ps, n, size, reloc, fixed) then AllAdmitted(ps, n + 1, size, reloc, fixed)
            else !AllAdmitted(ps, |ps|, size, reloc, fixed)
  {
  }

  /** The first loop of elf64_load: the checks, the hull, the entry test and, for a fixed image, the copies. */
  method FirstPass(ctx: Ctx, d: seq<Byte>, ram: array<Byte>, fixed: iset<(nat, nat)>, ghost ps: seq<Phdr>)
    returns (ok: bool, base: nat, end: nat, entryValid: bool)
    requires |d| >= EHDR64_SIZE && HeadersInside(d) && ps == Headers(d)
    requires forall a: nat, n: nat | (a, n) in fixed :: a + n * PAGE_SIZE <= ram.Length
    modifies ram
    ensures ok == AllAdmitted(ps, |ps|, |d|, ctx.reloc, fixed)
    ensures ok ==> Passed(ctx, old(ram[..]), ram[..], d, ps, |ps|, base, end, entryValid)
  {
    ghost var before := ram[..];
    ok, entryValid, base, end := true, false, U64_MAX, 0;
    NothingPassed(ctx, before, d, ps);
    for i := 0 to PhNum(d)
      invariant AllAdmitted(ps, i, |d|, ctx.reloc, fixed)
      invariant Passed(ctx, before, ram[..], d, ps, i, base, end, entryValid)
    {
      ok, base, end, entryValid := FirstTurn(ctx, d, ram, fixed, ps, i, base, end, entryValid, before);
      OneMore(ps, i, |d|, ctx.reloc, fixed);
      if !ok {
        return;
      }
    }
    ok := true;
  }

  lemma {:induction false} GrowEntry(ps: seq<Phdr>, n: nat, entry: nat, shift: int)
    requires n < |ps| && ps[n].Loads()
    ensures EntryIn(ps, n + 1, entry, shift) <==>
            EntryIn(ps, n, entry, shift) ||
                (ps[n].Executable() && ps[n].vaddr + shift <= entry < ps[n].vaddr + shift + ps[n].memsz)
  {
    if EntryIn(ps, n, entry, shift) {
      var i :| 0 <= i < n && ps[i].Loads() && ps[i].Executable() &&
          ps[i].vaddr + shift <= entry < ps[i].vaddr + shift + ps[i].memsz;
      assert 0 <= i < n + 1;
    }
  }

  /** No segment's end leaves 64 bits. */
  ghost predicate EndsFit(ps: seq<Phdr>) {
    forall i | 0 <= i < |ps| && ps[i].Loads() :: ps[i].vaddr + ps[i].memsz <= U64_MAX
  }

  /** Every loadable segment lies between `base` and `end`. */
  ghost predicate Contained(ps: seq<Phdr>, base: nat, end: nat) {
    forall i | 0 <= i < |ps| && ps[i].Loads() :: base <= ps[i].vaddr && ps[i].vaddr + ps[i].memsz <= end
  }

  /** The hull holds all segments if and only if none of them ends in the last page of the address space: rounding its
      end up would wrap to 0. */
  lemma {:induction false} HullHoldsIff(ps: seq<Phdr>, base: nat, end: nat)
    requires Hull(ps, |ps|, base, end) && EndsFit(ps)
    ensures Contained(ps, base, end) <==> RoomToRound(ps)
  {
    forall i | 0 <= i < |ps| && ps[i].Loads()
      ensures base <= ps[i].vaddr
      ensures ps[i].vaddr + ps[i].memsz <= U64 - PAGE_SIZE ==> ps[i].vaddr + ps[i].memsz <= end
    {
      RoundBounds(ps[i].vaddr);
      RoundedEnd(ps[i]);
    }
    if end != 0 {
      var i :| 0 <= i < |ps| && ps[i].Loads() && end == ps[i].High();
      RoundedEnd(ps[i]);
    }
  }

  /** A low segment and one in the last page of the address space: the hull ends behind the low one and passes the
      tests, and the other segment lies behind the whole image, at whatever distance the image is placed. */
  lemma {:induction false} LastPageIsMissed()
    ensures var p := Phdr(PT_LOAD, 5, 0, 0x1000, 0, 0x100, 1);
            var q := Phdr(PT_LOAD, 6, 0, 0xFFFF_FFFF_FFFF_F000, 0, 0x100, 1);
            && AllChecked([p, q], 0) && Hull([p, q], 2, 0x1000, 0x2000) && EntryIn([p, q], 2, 0x1000, 0)
            && !Contained([p, q], 0x1000, 0x2000) && q.High() == 0 && q.vaddr - 0x1000 >= 0x2000 - 0x1000
  {
    var p := Phdr(PT_LOAD, 5, 0, 0x1000, 0, 0x100, 1);
    var q := Phdr(PT_LOAD, 6, 0, 0xFFFF_FFFF_FFFF_F000, 0, 0x100, 1);
    var ps := [p, q];
    assert p.Low() == 0x1000 && p.High() == 0x2000 && q.Low() == q.vaddr && q.High() == 0;
    assert ps[0].Loads() && ps[0].Low() == 0x1000 && ps[0].High() == 0x2000;
    assert Checked(ps, 0, 0) && Checked(ps, 1, 0);
    assert ps[0].Executable() && ps[0].vaddr + 0 <= 0x1000 < ps[0].vaddr + 0 + ps[0].memsz;
    assert ps[1].Loads();
  }

  lemma {:induction false} RoundedEnd(p: Phdr)
    requires p.vaddr + p.memsz <= U64_MAX
    ensures p.High() <= U64 - PAGE_SIZE
    ensures p.vaddr + p.memsz <= U64 - PAGE_SIZE ==> p.High() >= p.vaddr + p.memsz
  {
    RoundBounds(p.vaddr + p.memsz);
    assert U64 % PAGE_SIZE == 0;
  }

  /** One turn of the second loop. */
  method SecondTurn(entry: nat, d: seq<Byte>, ram: array<Byte>, base: nat, loadBase: nat, valid: bool,
          ghost first: bool,
                    ghost ps: seq<Phdr>, i: nat, ghost before: seq<Byte>)
    returns (v: bool)
    requires |d| >= EHDR64_SIZE && HeadersInside(d) && ps == Headers(d) && i < |ps| && Checked(ps, i, |d|)
    requires ps[i].Loads() ==> base <= ps[i].vaddr && loadBase + (ps[i].vaddr - base) + ps[i].memsz <= ram.Length
    requires Placed(before, ram[..], d, ps, i, loadBase - base) &&
               valid == (first || EntryIn(ps, i, entry, loadBase - base))
    modifies ram
    ensures Placed(before, ram[..], d, ps, i + 1, loadBase - base)
    ensures v == (first || EntryIn(ps, i + 1, entry, loadBase - base))
  {
    var ph := Header(d, i);
    assert ph == ps[i];
    v := valid;
    if !ph.Loads() {
      SkipHeader(ps, i, 0, 0, entry, loadBase - base, before, ram[..], d);
    } else {
      var addr := loadBase + (ph.vaddr - base);
      PlaceSegment(ram, d, ps, i, ph, addr, loadBase - base, before);
      v := TestEntry(ps, i, ph, addr, entry, first, valid, loadBase - base);
    }
  }

  /** The second loop of elf64_load, for a relocatable image loaded at `loadBase`. */
  method SecondPass(entry: nat, d: seq<Byte>, ram: array<Byte>, base: nat, ghost end: nat, loadBase: nat, valid: bool,
          ghost ps: seq<Phdr>)
    returns (entryValid: bool)
    requires |d| >= EHDR64_SIZE && HeadersInside(d) && ps == Headers(d) && Contained(ps, base, end)
    requires AllChecked(ps, |d|)
    requires base <= end && loadBase + (end - base) <= ram.Length
    modifies ram
    ensures Placed(old(ram[..]), ram[..], d, ps, |ps|, loadBase - base)
    ensures entryValid == (valid || EntryIn(ps, |ps|, entry, loadBase - base))
  {
    ghost var before := ram[..];
    entryValid := valid;
    for i := 0 to PhNum(d)
      invariant Placed(before, ram[..], d, ps, i, loadBase - base)
      invariant entryValid == (valid || EntryIn(ps, i, entry, loadBase - base))
    {
      entryValid := SecondTurn(entry, d, ram, base, loadBase, entryValid, valid, ps, i, before);
    }
  }

  method TestEntry(ghost ps: seq<Phdr>, ghost i: nat, ph: Phdr, addr: nat, entry: nat, ghost first: bool, valid: bool,
          ghost shift: int)
    returns (v: bool)
    requires i < |ps| && ps[i] == ph && ph.Loads() && addr == ph.vaddr + shift
    requires valid == (first || EntryIn(ps, i, entry, shift))
    ensures v == (first || EntryIn(ps, i + 1, entry, shift))
  {
    v := valid;
    GrowEntry(ps, i, entry, shift);
    if ph.Executable() && !v {
      if entry < addr + ph.memsz && entry >= addr {
        v := true;
      }
    }
  }

  /** When elf64_load succeeds: the file is a recognised 64-bit one, every header is admitted, the entry lies in an
      executable segment and, for a relocatable image, the hull's pages are granted. */
  ghost predicate Loadable(ctx: Ctx, d: seq<Byte>, fixed: iset<(nat, nat)>, anywhere: imap<nat, nat>)
    requires Describes(ctx, d)
  {
    && ctx.valid && ctx.b64
    && var ps := Headers(d);
       && AllAdmitted(ps, |ps|, |d|, ctx.reloc, fixed)
       && EntryIn(ps, |ps|, ctx.entry, 0)
       && (ctx.reloc ==> Granted(ps, anywhere))
  }

  ghost predicate Granted(ps: seq<Phdr>, anywhere: imap<nat, nat>) {
    exists base: nat, end: nat :: Hull(ps, |ps|, base, end) && base < end && PagesFor(end - base) in anywhere
  }

  /** With an entry inside a segment the hull is not empty, and it is the only one. */
  lemma {:induction false} HullNotEmpty(ps: seq<Phdr>, base: nat, end: nat, entry: nat)
    requires Hull(ps, |ps|, base, end) && Contained(ps, base, end) && EndsFit(ps) && EntryIn(ps, |ps|, entry, 0)
    ensures base != U64_MAX && base < end
  {
    var i :| 0 <= i < |ps| && ps[i].Loads() && ps[i].Executable() &&
        ps[i].vaddr + 0 <= entry < ps[i].vaddr + 0 + ps[i].memsz;
    assert base <= ps[i].Low();
    RoundBounds(ps[i].vaddr);
  }

  lemma {:induction false} HullIsTheOne(ps: seq<Phdr>, base: nat, end: nat, b: nat, e: nat)
    requires Hull(ps, |ps|, base, end) && EndsFit(ps) && base != U64_MAX && base < end && Hull(ps, |ps|, b, e) && b < e
    ensures b == base && e == end
  {
    var i :| 0 <= i < |ps| && ps[i].Loads() && base == ps[i].Low();
    assert b <= ps[i].Low() <= U64_MAX;
    RoundBounds(ps[i].vaddr);
  }

  /** elf64_load. It succeeds exactly on what Loadable says. Then the loadable segments are pairwise disjoint; every
      byte of every segment is in memory at one common distance from its virtual address (0 for a fixed image), file
      bytes first and zeroes up to memsz, so no copy clobbered another; nothing outside the image was written; and the
      entry lies in an executable segment. */
  method Load(ctx: Ctx, d: seq<Byte>, ram: array<Byte>, fixed: iset<(nat, nat)>, anywhere: imap<nat, nat>)
    returns (ok: bool, out: Ctx)
    requires Describes(ctx, d) && |d| < U64 && ram.Length <= U64
    requires ctx.valid && ctx.b64 ==> RoomToRound(Headers(d))
    requires GrantsInside(fixed, anywhere, ram.Length)
    modifies ram
    ensures ok == Loadable(ctx, d, fixed, anywhere)
    ensures ok ==> Loaded(ctx.reloc, ctx.entry, old(ram[..]), ram[..], d, anywhere, out)
  {
    out := ctx;
    if !ctx.valid || ctx.size == 0 || !ctx.b64 {
      return false, out;
    }
    ghost var ps := Headers(d);
    var passed, base, end, entryValid := FirstPass(ctx, d, ram, fixed, ps);
    if !passed {
      return false, out;
    }
    AdmittedMeans(ps, |d|, ctx.reloc, fixed);
    HullHoldsIff(ps, base, end);
    if base == U64_MAX || end <= base {
      EmptyHull(ps, base, end, ctx.entry);
      return false, out;
    }
    LoadableMeans(ctx, d, fixed, anywhere, ps, base, end);
    ok, out := Finish(ctx.(imageSize := end - base), d, ram, anywhere, base, end, entryValid, ps, old(ram[..]));
  }

  /** What elf64_load does behind its first loop. */
  method Finish(ctx: Ctx, d: seq<Byte>, ram: array<Byte>, anywhere: imap<nat, nat>, base: nat, end: nat, valid: bool,
          ghost ps: seq<Phdr>,
                ghost before: seq<Byte>)
    returns (ok: bool, out: Ctx)
    requires |d| >= EHDR64_SIZE && HeadersInside(d) && ps == Headers(d) && AllChecked(ps, |d|) && EndsFit(ps) &&
               Contained(ps, base, end)
    requires base < end && base < U64 && ctx.entry < U64 && ctx.imageSize == end - base && ram.Length <= U64
    requires Passed(ctx, before, ram[..], d, ps, |ps|, base, end, valid)
    requires forall n: nat | n in anywhere :: anywhere[n] + n * PAGE_SIZE <= ram.Length
    modifies ram
    ensures ok == (valid && (ctx.reloc ==> PagesFor(end - base) in anywhere))
    ensures ok ==> Loaded(ctx.reloc, ctx.entry, before, ram[..], d, anywhere, out)
  {
    ChecksMakeApart(ps, |d|);
    if ctx.reloc {
      ok, out := FinishMoved(ctx, d, ram, anywhere, base, end, valid, ps);
    } else {
      ok, out := valid, ctx.(imageBase := base);
      if ok {
        StayingImage(ctx, before, ram[..], d, anywhere, ps, base, end);
      }
    }
  }

  /** The same for a relocatable image. */
  method FinishMoved(ctx: Ctx, d: seq<Byte>, ram: array<Byte>, anywhere: imap<nat, nat>, base: nat, end: nat,
          valid: bool, ghost ps: seq<Phdr>)
    returns (ok: bool, out: Ctx)
    requires |d| >= EHDR64_SIZE && HeadersInside(d) && ps == Headers(d) && AllChecked(ps, |d|) && EndsFit(ps) &&
               Contained(ps, base, end)
    requires base < end && base < U64 && ctx.entry < U64 && ctx.imageSize == end - base && ram.Length <= U64
    requires Hull(ps, |ps|, base, end) && valid == EntryIn(ps, |ps|, ctx.entry, 0)
    requires forall n: nat | n in anywhere :: anywhere[n] + n * PAGE_SIZE <= ram.Length
    modifies ram
    ensures ok == (valid && PagesFor(end - base) in anywhere)
    ensures ok ==> LoadedHull(true, ctx.entry, old(ram[..]), ram[..], d, anywhere, out, base, end)
  {
    if PagesFor(ctx.imageSize) !in anywhere {
      return false, ctx;
    }
    PagesHold(ctx.imageSize);
    var load := anywhere[PagesFor(ctx.imageSize)];
    ok, out := Relocate(ctx, d, ram, load, base, end, valid, ps);
    if ok {
      MovedImage(ctx, old(ram[..]), ram[..], d, anywhere, ps, base, end, load, out);
    }
  }

  lemma {:induction false} StayingImage(ctx: Ctx, before: seq<Byte>, mem: seq<Byte>, d: seq<Byte>, anywhere: imap<nat,
          nat>,
          ps: seq<Phdr>, base: nat, end: nat)
    requires |d| >= EHDR64_SIZE && HeadersInside(d) && ps == Headers(d) && Contained(ps, base, end)
    requires !ctx.reloc && base < end && ctx.imageSize == end - base
    requires Passed(ctx, before, mem, d, ps, |ps|, base, end, true)
    ensures LoadedHull(false, ctx.entry, before, mem, d, anywhere, ctx.(imageBase := base), base, end)
  {
    MakeImage(before, mem, d, ps, ctx.(imageBase := base), base, end, 0);
  }

  lemma {:induction false} MovedImage(ctx: Ctx, before: seq<Byte>, mem: seq<Byte>, d: seq<Byte>,
          anywhere: imap<nat, nat>, ps: seq<Phdr>, base: nat, end: nat, load: nat, out: Ctx)
    requires |d| >= EHDR64_SIZE && HeadersInside(d) && ps == Headers(d) && Hull(ps, |ps|, base, end)
    requires base < end && PagesFor(end - base) in anywhere && load == anywhere[PagesFor(end - base)]
    requires out.imageBase == load && out.imageSize == end - base && out.entry == ctx.entry + (out.imageBase - base)
    requires Image(before, mem, d, out, out.imageBase - base)
    ensures LoadedHull(true, ctx.entry, before, mem, d, anywhere, out, base, end)
  {
  }

  lemma {:induction false} OnlyGrant(ps: seq<Phdr>, anywhere: imap<nat, nat>, base: nat, end: nat)
    requires Hull(ps, |ps|, base, end) && EndsFit(ps) && base != U64_MAX && base < end
    ensures Granted(ps, anywhere) <==> PagesFor(end - base) in anywhere
  {
    if Granted(ps, anywhere) {
      var b: nat, e: nat :| Hull(ps, |ps|, b, e) && b < e && PagesFor(e - b) in anywhere;
      HullIsTheOne(ps, base, end, b, e);
    }
  }

  lemma {:induction false} LoadableMeans(ctx: Ctx, d: seq<Byte>, fixed: iset<(nat, nat)>, anywhere: imap<nat, nat>,
          ps: seq<Phdr>, base: nat, end: nat)
    requires Describes(ctx, d) && ctx.valid && ctx.b64 && ps == Headers(d) &&
               AllAdmitted(ps, |ps|, |d|, ctx.reloc, fixed)
    requires Hull(ps, |ps|, base, end) && EndsFit(ps) && base != U64_MAX && base < end
    ensures Loadable(ctx, d, fixed, anywhere) <==>
            EntryIn(ps, |ps|, ctx.entry, 0) && (ctx.reloc ==> PagesFor(end - base) in anywhere)
  {
    OnlyGrant(ps, anywhere, base, end);
  }

  lemma {:induction false} AdmittedMeans(ps: seq<Phdr>, size: nat, reloc: bool, fixed: iset<(nat, nat)>)
    requires AllAdmitted(ps, |ps|, size, reloc, fixed)
    ensures AllChecked(ps, size) && EndsFit(ps) && Apart(ps)
  {
    forall i | 0 <= i < |ps|
      ensures Checked(ps, i, size) && (ps[i].Loads() ==> ps[i].vaddr + ps[i].memsz <= U64_MAX)
    {
      assert Admitted(ps, i, size, reloc, fixed);
    }
    ChecksMakeApart(ps, size);
  }

  lemma {:induction false} EmptyHull(ps: seq<Phdr>, base: nat, end: nat, entry: nat)
    requires Hull(ps, |ps|, base, end) && Contained(ps, base, end) && EndsFit(ps) && (base == U64_MAX || end <= base)
    ensures !EntryIn(ps, |ps|, entry, 0)
  {
    if EntryIn(ps, |ps|, entry, 0) {
      HullNotEmpty(ps, base, end, entry);
    }
  }

  /** The relocatable half of elf64_load, behind the grant of the pages at `load`. */
  method Relocate(sized: Ctx, d: seq<Byte>, ram: array<Byte>, load: nat, base: nat, end: nat, valid: bool,
          ghost ps: seq<Phdr>)
    returns (ok: bool, out: Ctx)
    requires |d| >= EHDR64_SIZE && HeadersInside(d) && ps == Headers(d) && AllChecked(ps, |d|) && EndsFit(ps) &&
               Contained(ps, base, end)
    requires base < end && base < U64 && sized.entry < U64 && sized.imageSize == end - base &&
               load + (end - base) <= ram.Length <= U64
    requires valid == EntryIn(ps, |ps|, sized.entry, 0)
    modifies ram
    ensures ok == valid && (ok ==> Image(old(ram[..]), ram[..], d, out, out.imageBase - base))
    ensures out.imageBase == load && out.imageSize == sized.imageSize &&
              (ok ==> out.entry == sized.entry + (out.imageBase - base))
  {
    out := sized.(imageBase := load, entry := MovedEntry(sized.entry, base, load));
    RelocatedEntry(ps, sized.entry, base, end, load, ram.Length);
    ok := PlaceImage(out, d, ram, base, end, valid, ps);
  }

  /** The second loop and the entry test of a relocated image. */
  method PlaceImage(out: Ctx, d: seq<Byte>, ram: array<Byte>, base: nat, ghost end: nat, valid: bool,
          ghost ps: seq<Phdr>)
    returns (ok: bool)
    requires |d| >= EHDR64_SIZE && HeadersInside(d) && ps == Headers(d) && AllChecked(ps, |d|)
    requires Contained(ps, base, end) && base < end && out.imageSize == end - base &&
               out.imageBase + (end - base) <= ram.Length
    requires valid == EntryIn(ps, |ps|, out.entry, out.imageBase - base)
    modifies ram
    ensures ok == valid && (ok ==> Image(old(ram[..]), ram[..], d, out, out.imageBase - base))
  {
    ok := SecondPass(out.entry, d, ram, base, end, out.imageBase, valid, ps);
    if ok {
      MakeImage(old(ram[..]), ram[..], d, ps, out, base, end, out.imageBase - base);
    }
  }

  /** What a successful load leaves: the image of the hull lies in the block that was granted for it, or at its own
      address if it is fixed, and every segment and the entry moved by the same distance. */
  ghost predicate Loaded(reloc: bool, entry: nat, before: seq<Byte>, mem: seq<Byte>, d: seq<Byte>, anywhere: imap<nat,
          nat>, out: Ctx) {
    && |d| >= EHDR64_SIZE && HeadersInside(d) && Apart(Headers(d))
    && exists base: nat, end: nat :: LoadedHull(reloc, entry, before, mem, d, anywhere, out, base, end)
  }

  ghost predicate LoadedHull(reloc: bool, entry: nat, before: seq<Byte>, mem: seq<Byte>, d: seq<Byte>,
          anywhere: imap<nat, nat>, out: Ctx,
                             base: nat, end: nat) {
    && |d| >= EHDR64_SIZE && HeadersInside(d) && Hull(Headers(d), PhNum(d), base, end)
    && base < end && out.imageSize == end - base
    && (if reloc then PagesFor(end - base) in anywhere && out.imageBase == anywhere[PagesFor(end - base)]
       else out.imageBase == base)
    && out.entry == entry + (out.imageBase - base) && Image(before, mem, d, out, out.imageBase - base)
  }

  lemma {:induction false} MakeImage(before: seq<Byte>, mem: seq<Byte>, d: seq<Byte>, ps: seq<Phdr>, out: Ctx,
          base: nat, end: nat, shift: int)
    requires |d| >= EHDR64_SIZE && HeadersInside(d) && ps == Headers(d) && Contained(ps, base, end)
    requires Placed(before, mem, d, ps, |ps|, shift) && EntryIn(ps, |ps|, out.entry, shift)
    requires out.imageBase == base + shift && base <= end && out.imageSize == end - base
    ensures Image(before, mem, d, out, shift)
  {
  }

  /** A loaded image at distance `shift`. */
  ghost predicate Image(before: seq<Byte>, mem: seq<Byte>, d: seq<Byte>, out: Ctx, shift: int) {
    && |d| >= EHDR64_SIZE && HeadersInside(d)
    && Placed(before, mem, d, Headers(d), PhNum(d), shift)
    && (forall i | 0 <= i < PhNum(d) && Headers(d)[i].Loads() ::
          out.imageBase <= Headers(d)[i].vaddr + shift
          && Headers(d)[i].vaddr + shift + Headers(d)[i].memsz <= out.imageBase + out.imageSize)
    && EntryIn(Headers(d), PhNum(d), out.entry, shift)
  }

  lemma {:induction false} ChecksMakeApart(ps: seq<Phdr>, size: nat)
    requires AllChecked(ps, size)
    ensures Apart(ps)
  {
    forall i, j | 0 <= i < |ps| && 0 <= j < |ps| && i != j && ps[i].Loads() && ps[j].Loads()
      ensures !ps[i].Meets(ps[j])
    {
      assert Checked(ps, i, size);
    }
  }

  function MovedEntry(entry: nat, base: nat, load: nat): nat
    requires base < U64
  {
    (load + entry + U64 - base) % U64
  }

  /** Relocating the entry in 64-bit arithmetic commutes with the test: the moved entry lies in an executable segment if
      and only if the entry did before the move. */
  lemma {:induction false} RelocatedEntry(ps: seq<Phdr>, entry: nat, base: nat, end: nat, load: nat, limit: nat)
    requires Contained(ps, base, end) && base <= end && load + (end - base) <= limit <= U64 && entry < U64 && base < U64
    requires EndsFit(ps)
    ensures EntryIn(ps, |ps|, MovedEntry(entry, base, load), load - base) <==> EntryIn(ps, |ps|, entry, 0)
    ensures EntryIn(ps, |ps|, entry, 0) ==> MovedEntry(entry, base, load) == entry + (load - base)
  {
    var moved, shift := MovedEntry(entry, base, load), load - base;
    if EntryIn(ps, |ps|, entry, 0) {
      var i :| 0 <= i < |ps| && ps[i].Loads() && ps[i].Executable() &&
          ps[i].vaddr + 0 <= entry < ps[i].vaddr + 0 + ps[i].memsz;
      assert moved == entry + shift;
    }
    if EntryIn(ps, |ps|, moved, shift) {
      var i :| 0 <= i < |ps| && ps[i].Loads() && ps[i].Executable() &&
          ps[i].vaddr + shift <= moved < ps[i].vaddr + shift + ps[i].memsz;
      MovedBack(entry, base, load, moved);
      assert ps[i].vaddr + 0 <= entry < ps[i].vaddr + 0 + ps[i].memsz;
    }
  }

  lemma {:induction false} MovedBack(entry: nat, base: nat, load: nat, moved: nat)
    requires base < U64 && entry < U64 && load <= U64 && moved == MovedEntry(entry, base, load) &&
               0 <= moved - (load - base) < U64
    ensures entry == moved - (load - base)
  {
  }
}
