/** The structures of an ELF file, written in the order of the System V gABI (chapters 4 and 5), are what the loader
    reads. */
module ElfLayout {
  import opened Arithmetic
  import opened Common
  import opened LittleEndian
  import opened Elf

  // ----- the loader's reads are little-endian numbers -----

  lemma {:induction false} ReadsNumber(d: seq<Byte>, o: nat)
    ensures o + 2 <= |d| ==> U16(d, o) == Number(d, o, 2)
    ensures o + 4 <= |d| ==> U32(d, o) == Number(d, o, 4)
    ensures o + 8 <= |d| ==> U64At(d, o) == Number(d, o, 8)
  {
    if o + 2 <= |d| {
      TwoBytes(d, o);
    }
    if o + 4 <= |d| {
      FourBytes(d, o);
    }
    if o + 8 <= |d| {
      EightBytes(d, o);
    }
  }

  lemma {:induction false} TwoBytes(d: seq<Byte>, o: nat)
    requires o + 2 <= |d|
    ensures U16(d, o) == Number(d, o, 2)
  {
    assert Number(d, o + 1, 1) == d[o + 1] + 256 * Number(d, o + 2, 0);
  }

  /** A number of `a + b` bytes is made of its low and its high part. */
  lemma {:induction false} NumberParts(d: seq<Byte>, o: nat, a: nat, b: nat)
    requires o + a + b <= |d|
    ensures Number(d, o, a + b) == Number(d, o, a) + Capacity(a) * Number(d, o + a, b)
    decreases a
  {
    if a == 0 {
    } else {
      NumberParts(d, o + 1, a - 1, b);
      Shift(Number(d, o + 1, a - 1), Capacity(a - 1), Number(d, o + a, b));
    }
  }

  lemma {:induction false} Shift(low: nat, c: nat, high: nat)
    ensures 256 * (low + c * high) == 256 * low + (256 * c) * high
  {
  }

  lemma {:induction false} FourBytes(d: seq<Byte>, o: nat)
    requires o + 4 <= |d|
    ensures U32(d, o) == Number(d, o, 4)
  {
    Capacities();
    TwoBytes(d, o);
    TwoBytes(d, o + 2);
    NumberParts(d, o, 2, 2);
  }

  lemma {:induction false} EightBytes(d: seq<Byte>, o: nat)
    requires o + 8 <= |d|
    ensures U64At(d, o) == Number(d, o, 8)
  {
    Capacities();
    FourBytes(d, o);
    FourBytes(d, o + 4);
    NumberParts(d, o, 4, 4);
  }

  // ----- the program header -----

  /** p_type, p_flags, p_offset, p_vaddr, p_paddr, p_filesz, p_memsz, p_align. */
  function PhdrItems(p: Phdr, paddr: nat): seq<Item> {
    [Item(p.kind, 4), Item(p.flags, 4), Item(p.offset, 8), Item(p.vaddr, 8), Item(paddr, 8), Item(p.filesz, 8),
     Item(p.memsz, 8), Item(p.align, 8)]
  }

  predicate PhdrFits(p: Phdr) {
    && p.kind < 0x1_0000_0000 && p.flags < 0x1_0000_0000 && p.offset < U64 && p.vaddr < U64 && p.filesz < U64
    && p.memsz < U64 && p.align < U64
  }

  lemma {:induction false} PhdrEnds(items: seq<Item>)
    requires |items| == 8 && items[0].size == 4 && items[1].size == 4
    requires forall i | 2 <= i < 8 :: items[i].size == 8
    ensures End(items, 0) == 0 && End(items, 1) == 4 && End(items, 2) == 8 && End(items, 3) == 16 && End(items, 4) == 24
    ensures End(items, 5) == 32 && End(items, 6) == 40 && End(items, 7) == 48 && End(items, 8) == 56
  {
    assert End(items, 1) == 4;
    assert End(items, 2) == 8;
    assert End(items, 3) == 16;
    assert End(items, 4) == 24;
    assert End(items, 5) == 32;
    assert End(items, 6) == 40;
    assert End(items, 7) == 48;
  }

  ghost predicate PhdrThere(d: seq<Byte>, o: nat, p: Phdr, paddr: nat) {
    && o + PHDR64_SIZE <= |d| && End(PhdrItems(p, paddr), 8) == PHDR64_SIZE
    && d[o..o + PHDR64_SIZE] == Serial(PhdrItems(p, paddr), 8)
  }

  lemma {:induction false} PhdrWords(d: seq<Byte>, o: nat, p: Phdr, paddr: nat)
    requires PhdrFits(p) && PhdrThere(d, o, p, paddr)
    ensures U32(d, o) == p.kind && U32(d, o + 4) == p.flags
  {
    var items := PhdrItems(p, paddr);
    Capacities();
    PhdrEnds(items);
    ReadItem(d, o, items, 0);
    ReadItem(d, o, items, 1);
    ReadsNumber(d, o);
    ReadsNumber(d, o + 4);
  }

  lemma {:induction false} PhdrLongs(d: seq<Byte>, o: nat, p: Phdr, paddr: nat, i: nat)
    requires PhdrFits(p) && PhdrThere(d, o, p, paddr) && i in {2, 3, 5, 6, 7}
    ensures U64At(d, o + 8 * (i - 1)) == PhdrItems(p, paddr)[i].value
  {
    var items := PhdrItems(p, paddr);
    Capacities();
    PhdrEnds(items);
    assert End(items, i) == 8 * (i - 1);
    ReadItem(d, o, items, i);
    ReadsNumber(d, o + 8 * (i - 1));
  }

  /** Reading a program header where it was written gives its members, whatever p_paddr is. */
  lemma {:induction false} PhdrFromFile(d: seq<Byte>, o: nat, p: Phdr, paddr: nat)
    requires PhdrFits(p) && PhdrThere(d, o, p, paddr)
    ensures PhdrAt(d, o) == p
  {
    PhdrWords(d, o, p, paddr);
    PhdrLongs(d, o, p, paddr, 2);
    PhdrLongs(d, o, p, paddr, 3);
    PhdrLongs(d, o, p, paddr, 5);
    PhdrLongs(d, o, p, paddr, 6);
    PhdrLongs(d, o, p, paddr, 7);
  }

  /** The loader sees the program headers that were written. */
  lemma {:induction false} HeadersFromFile(d: seq<Byte>, ps: seq<Phdr>, paddrs: seq<nat>)
    requires |d| >= EHDR64_SIZE && HeadersInside(d) && |ps| == |paddrs| == PhNum(d)
    requires forall i | 0 <= i < |ps| :: PhdrFits(ps[i]) && PhdrThere(d, PhOff(d) + i * PHDR64_SIZE, ps[i], paddrs[i])
    ensures Headers(d) == ps
  {
    forall i | 0 <= i < |ps|
      ensures Headers(d)[i] == ps[i]
    {
      PhdrFromFile(d, PhOff(d) + i * PHDR64_SIZE, ps[i], paddrs[i]);
    }
  }

  // ----- the file header -----

  /** What stands behind e_ident in a file header of class 64: e_type, e_machine, e_version, e_entry, e_phoff, e_shoff,
      e_flags, e_ehsize, e_phentsize, e_phnum, e_shentsize, e_shnum, e_shstrndx. In class 32 the middle three have four
      bytes. */
  datatype Ehdr = Ehdr(kind: nat, machine: nat, version: nat, entry: nat, phoff: nat, shoff: nat, flags: nat,
          ehsize: nat,
                       phentsize: nat, phnum: nat, shentsize: nat, shnum: nat, shstrndx: nat) {
    function Items(wide: nat): seq<Item> {
      [Item(kind, 2), Item(machine, 2), Item(version, 4), Item(entry, wide), Item(phoff, wide), Item(shoff, wide),
       Item(flags, 4), Item(ehsize, 2), Item(phentsize, 2), Item(phnum, 2), Item(shentsize, 2), Item(shnum, 2),
       Item(shstrndx, 2)]
    }

    ghost predicate Fits(wide: nat) { forall i | 0 <= i < 13 :: Items(wide)[i].value < Capacity(Items(wide)[i].size) }
  }

  lemma {:induction false} EhdrEnds(e: Ehdr, wide: nat)
    ensures var items := e.Items(wide);
            && End(items, 0) == 0 && End(items, 1) == 2 && End(items, 2) == 4 && End(items, 3) == 8
            && End(items, 4) == 8 + wide && End(items, 5) == 8 + 2 * wide && End(items, 6) == 8 + 3 * wide
            && End(items, 7) == 12 + 3 * wide && End(items, 8) == 14 + 3 * wide && End(items, 9) == 16 + 3 * wide
            && End(items, 10) == 18 + 3 * wide && End(items, 13) == 24 + 3 * wide
  {
    var items := e.Items(wide);
    assert End(items, 1) == 2;
    assert End(items, 2) == 4;
    assert End(items, 3) == 8;
    assert End(items, 4) == 8 + wide;
    assert End(items, 5) == 8 + 2 * wide;
    assert End(items, 6) == 8 + 3 * wide;
    assert End(items, 7) == 12 + 3 * wide;
    assert End(items, 8) == 14 + 3 * wide;
    assert End(items, 9) == 16 + 3 * wide;
    assert End(items, 10) == 18 + 3 * wide;
    assert End(items, 11) == 20 + 3 * wide;
    assert End(items, 12) == 22 + 3 * wide;
  }

  /** The file starts with e_ident and the header `e`, whose addresses have `wide` bytes. */
  ghost predicate EhdrThere(d: seq<Byte>, e: Ehdr, wide: nat) {
    && 40 + 3 * wide <= |d| && End(e.Items(wide), 13) == 24 + 3 * wide
    && d[16..40 + 3 * wide] == Serial(e.Items(wide), 13) && e.Fits(wide)
  }

  lemma {:induction false} EhdrMember(d: seq<Byte>, e: Ehdr, wide: nat, i: nat)
    requires EhdrThere(d, e, wide) && i < 13
    ensures 16 + End(e.Items(wide), i) + e.Items(wide)[i].size <= |d|
    ensures Number(d, 16 + End(e.Items(wide), i), e.Items(wide)[i].size) == e.Items(wide)[i].value
  {
    assert e.Items(wide)[i].value < Capacity(e.Items(wide)[i].size);
    ReadItem(d, 16, e.Items(wide), i);
  }

  lemma {:induction false} EhdrHalf(d: seq<Byte>, e: Ehdr, wide: nat, i: nat, o: nat)
    requires EhdrThere(d, e, wide) && i < 13 && o == 16 + End(e.Items(wide), i) && e.Items(wide)[i].size == 2
    ensures o + 2 <= |d| && U16(d, o) == e.Items(wide)[i].value
  {
    EhdrMember(d, e, wide, i);
    ReadsNumber(d, o);
  }

  lemma {:induction false} EhdrWord(d: seq<Byte>, e: Ehdr, wide: nat, i: nat, o: nat)
    requires EhdrThere(d, e, wide) && i < 13 && o == 16 + End(e.Items(wide), i) && e.Items(wide)[i].size == 4
    ensures o + 4 <= |d| && U32(d, o) == e.Items(wide)[i].value
  {
    EhdrMember(d, e, wide, i);
    ReadsNumber(d, o);
  }

  lemma {:induction false} EhdrLong(d: seq<Byte>, e: Ehdr, wide: nat, i: nat, o: nat)
    requires EhdrThere(d, e, wide) && i < 13 && o == 16 + End(e.Items(wide), i) && e.Items(wide)[i].size == 8
    ensures o + 8 <= |d| && U64At(d, o) == e.Items(wide)[i].value
  {
    EhdrMember(d, e, wide, i);
    ReadsNumber(d, o);
  }

  lemma {:induction false} EhdrStart(d: seq<Byte>, e: Ehdr, wide: nat)
    requires EhdrThere(d, e, wide)
    ensures U16(d, 16) == e.kind && U16(d, 18) == e.machine && U32(d, 20) == e.version
  {
    EhdrEnds(e, wide);
    EhdrHalf(d, e, wide, 0, 16);
    EhdrHalf(d, e, wide, 1, 18);
    EhdrWord(d, e, wide, 2, 20);
  }

  /** Reading the header of a 64-bit file gives the members that were written. */
  lemma {:induction false} EhdrFromFile(d: seq<Byte>, e: Ehdr)
    requires EhdrThere(d, e, 8)
    ensures U16(d, 16) == e.kind && U16(d, 18) == e.machine && U32(d, 20) == e.version && U64At(d, 24) == e.entry
    ensures PhOff(d) == e.phoff && U16(d, 54) == e.phentsize && PhNum(d) == e.phnum
  {
    EhdrStart(d, e, 8);
    EhdrEnds(e, 8);
    EhdrLong(d, e, 8, 3, 24);
    EhdrLong(d, e, 8, 4, 32);
    EhdrHalf(d, e, 8, 8, 54);
    EhdrHalf(d, e, 8, 9, 56);
  }

  /** ... and of a 32-bit file. */
  lemma {:induction false} Ehdr32FromFile(d: seq<Byte>, e: Ehdr)
    requires EhdrThere(d, e, 4)
    ensures U16(d, 16) == e.kind && U16(d, 18) == e.machine && U32(d, 20) == e.version && U32(d, 24) == e.entry
    ensures U32(d, 28) == e.phoff && U16(d, 42) == e.phentsize && U16(d, 44) == e.phnum
  {
    EhdrStart(d, e, 4);
    EhdrEnds(e, 4);
    EhdrWord(d, e, 4, 3, 24);
    EhdrWord(d, e, 4, 4, 28);
    EhdrHalf(d, e, 4, 8, 42);
    EhdrHalf(d, e, 4, 9, 44);
  }

  /** A 64-bit file is recognised if and only if it is an executable or shared object for x86-64 in the current version
      whose program headers have 56 bytes, exist, and lie inside the file. */
  lemma {:induction false} RecognisedIff(d: seq<Byte>, e: Ehdr)
    requires EhdrThere(d, e, 8) && |d| < U64 && d[4] == 2
    ensures Recognised(d) <==>
            && d[0] == 0x7F && d[1..4] == [0x45, 0x4C, 0x46] && d[5] in {1, 2} && d[6] == 1
            && e.kind in {2, 3} && e.machine == 62 && e.version == 1
            && e.phentsize == 56 && e.phnum > 0 && e.phoff + 56 * e.phnum <= |d|
  {
    EhdrFromFile(d, e);
    if Verify64(d) {
      VerifyMeansInside(d);
    }
    if e.phnum > 0 && e.phoff + 56 * e.phnum <= |d| {
      assert e.phnum <= (U64_MAX - e.phoff) / 56;
    }
  }

  /** The same for a 32-bit file, whose program headers have 32 bytes. */
  lemma {:induction false} Recognised32Iff(d: seq<Byte>, e: Ehdr)
    requires EhdrThere(d, e, 4) && |d| < U64 && d[4] == 1
    ensures Recognised(d) <==>
            && d[0] == 0x7F && d[1..4] == [0x45, 0x4C, 0x46] && d[5] in {1, 2} && d[6] == 1
            && e.kind in {2, 3} && e.machine == 62 && e.version == 1
            && e.phentsize == 32 && e.phnum > 0 && e.phoff + 32 * e.phnum <= |d|
  {
    Ehdr32FromFile(d, e);
    Capacities();
    assert e.Items(4)[4].value < Capacity(e.Items(4)[4].size) && e.Items(4)[9].value < Capacity(e.Items(4)[9].size);
  }

  // ----- what the tests on a program header mean -----

  function TwoTo(k: nat): nat { if k == 0 then 1 else 2 * TwoTo(k - 1) }

  lemma {:induction false} PowersOfTwo(a: nat)
    ensures PowerOfTwo(a) <==> exists k: nat :: a == TwoTo(k)
    decreases a
  {
    if PowerOfTwo(a) {
      var k := Exponent(a);
    }
    if k: nat :| a == TwoTo(k) {
      TwoToIsPower(k);
    }
  }

  lemma {:induction false} Exponent(a: nat) returns (k: nat)
    requires PowerOfTwo(a)
    ensures a == TwoTo(k)
    decreases a
  {
    if a == 1 {
      k := 0;
    } else {
      k := Exponent(a / 2);
      k := k + 1;
    }
  }

  lemma {:induction false} TwoToIsPower(k: nat)
    ensures PowerOfTwo(TwoTo(k)) && TwoTo(k) > 0
  {
    if k == 0 {
    } else {
      TwoToIsPower(k - 1);
      assert TwoTo(k) / 2 == TwoTo(k - 1);
    }
  }

  /** A loadable header is accepted if and only if its alignment is a power of two to which address and offset are
      congruent, its bytes in the file are no more than those in memory and lie in the file, and its end fits 64
      bits. */
  lemma {:induction false} AcceptableIff(p: Phdr, size: nat)
    requires PhdrFits(p)
    ensures p.Acceptable(size) <==>
            && (exists k: nat :: p.align == TwoTo(k)) && p.align > 0 && p.vaddr % p.align == p.offset % p.align
            && p.filesz <= p.memsz && p.offset + p.filesz <= size && p.vaddr + p.memsz <= U64_MAX
  {
    PowersOfTwo(p.align);
    TwoToIsPower(0);
  }

  /** The loader deals with headers of type PT_LOAD (1) that ask for memory. */
  lemma {:induction false} LoadsMeans(p: Phdr)
    ensures p.Loads() <==> p.kind == 1 && p.memsz > 0
  {
  }

  /** p_flags is made of PF_X (1), PF_W (2) and PF_R (4), and bits that the loader ignores. */
  lemma {:induction false} FlagsMean(p: Phdr, x: bool, w: bool, r: bool, rest: nat)
    requires p.flags == (if x then 1 else 0) + (if w then 2 else 0) + (if r then 4 else 0) + 8 * rest
    ensures p.Executable() <==> x
    ensures p.Accessible() <==> x || w || r
  {
    LowThree(rest, (if x then 1 else 0) + (if w then 2 else 0) + if r then 4 else 0);
  }
}
