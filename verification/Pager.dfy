/** The kernel pager (Kernel/mm/pager.c): page tables edited in place, refining the flat map of module FlatMap. */
module Pager {
  import opened Common
  import opened PageTables
  import opened FlatMap
  import opened Arithmetic
  import Teardown

  /** The flat map that the tables in memory stand for. */
  ghost function Flatten(mem: Memory, root: nat, dir: map<Node, nat>): Flat
    requires Tree(mem, root, dir)
  {
    imap v | 0 <= v < VPN_LIMIT :: Slot(HugeWord(mem, dir, v), SmallWord(mem, dir, v), Node(1, v / ENTRIES) in dir)
  }

  /** The tables form a consistent flat map, and the processor's walk over them finds its translations. */
  lemma {:induction false} WalkRefinesFlat(mem: Memory, root: nat, dir: map<Node, nat>)
    requires Tree(mem, root, dir)
    ensures Consistent(Flatten(mem, root, dir))
    ensures forall v | 0 <= v < VPN_LIMIT :: Walk(mem, root, v) == Flatten(mem, root, dir)[v].Translation()
  {
    forall v | 0 <= v < VPN_LIMIT
      ensures Walk(mem, root, v) == Flatten(mem, root, dir)[v].Translation() && Flatten(mem, root, dir)[v].Consistent()
    {
      WalkIsFlat(mem, root, dir, v);
      MarkedHasNoTable(mem, root, dir, v);
    }
    forall v, w | 0 <= v < VPN_LIMIT && 0 <= w < VPN_LIMIT && Together(v, w)
      ensures HugeWord(mem, dir, v) == HugeWord(mem, dir, w)
    {
      NestedDiv(v, 0x200, 0x200);
      NestedDiv(w, 0x200, 0x200);
    }
  }

  lemma {:induction false} MarkedHasNoTable(mem: Memory, root: nat, dir: map<Node, nat>, v: nat)
    requires Tree(mem, root, dir) && v < VPN_LIMIT
    ensures Flatten(mem, root, dir)[v].Consistent()
  {
    var pd := Node(2, v / 0x4_0000);
    assert Child(pd, v / 0x200 % ENTRIES) == Node(1, v / 0x200);
    if pd in dir {
      assert SlotOk(mem, dir, pd, v / 0x200 % ENTRIES);
    }
  }

  /** The shift-and-mask indices of an address are the digits of its page number. */
  lemma {:induction false} Indices(virt: nat)
    ensures var v := Vpn(virt);
            && virt / 0x80_0000_0000 % ENTRIES == v / 0x800_0000
            && virt / 0x4000_0000 % ENTRIES == v / 0x4_0000 % ENTRIES
            && virt / 0x20_0000 % ENTRIES == v / 0x200 % ENTRIES
            && virt / 0x1000 % ENTRIES == v % ENTRIES
  {
    var p := virt / PAGE_SIZE;
    var q, v := p / VPN_LIMIT, p % VPN_LIMIT;
    Digit(q, v, 0x800_0000, 0x200);
    Digit(q, v, 0x4_0000, 0x4_0000);
    Digit(q, v, 0x200, 0x800_0000);
    Digit(q, v, 1, VPN_LIMIT);
    NestedDiv(virt, PAGE_SIZE, 0x800_0000);
    NestedDiv(virt, PAGE_SIZE, 0x4_0000);
    NestedDiv(virt, PAGE_SIZE, 0x200);
  }

  lemma {:induction false} Digit(q: nat, v: nat, w: nat, rest: nat)
    requires w > 0 && w * rest == VPN_LIMIT && rest % ENTRIES == 0
    ensures (q * VPN_LIMIT + v) / w % ENTRIES == v / w % ENTRIES
  {
    var k := rest / ENTRIES;
    assert q * VPN_LIMIT + v == w * (q * rest) + v;
    assert (w * (q * rest) + v) / w == q * rest + v / w by { DivAdd(q * rest, v, w); }
    assert rest == k * ENTRIES;
    Regroup(q, k, ENTRIES);
    ModAdd(q * k, v / w, ENTRIES);
  }


  /** A page that was just added can be written if and only if its request has RW. */
  lemma {:induction false} AddedPageRights(mem: Memory, root: nat, dir: map<Node, nat>, m: Flat, v: nat, phys: nat,
          flags: nat, physLimit: nat)
    requires Tree(mem, root, dir) && Consistent(m) && v < VPN_LIMIT
    requires MapOutcome(m[v], phys, flags, physLimit) == Added
    requires Flatten(mem, root, dir) == MapFlat(m, v, phys, flags, physLimit)
    ensures MayWrite(mem, root, v) <==> Writable(flags)
    ensures !MayUse(mem, root, v)
  {
    WalkRefinesFlat(mem, root, dir);
    LeafIsAsRequested(m, v, phys, flags, physLimit);
    LeafDecides(mem, root, dir, v);
    SameSecondBit(Walk(mem, root, v).value.word, flags);
  }

  lemma {:induction false} SameSecondBit(e: nat, flags: nat)
    requires e % PAGE_SIZE / 2 == flags % PAGE_SIZE / 2
    ensures Writable(e) <==> Writable(flags)
  {
    SecondBit(e);
    SecondBit(flags);
  }

  lemma {:induction false} SecondBit(e: nat)
    ensures e / 2 % 2 == e % PAGE_SIZE / 2 % 2
  {
    var q, l := e / PAGE_SIZE, e % PAGE_SIZE;
    assert e == 2 * (q * 2048) + l;
    DivAdd(q * 2048, l, 2);
    ModAdd(q * 1024, l / 2, 2);
  }

  // ----- what each edit of the tables does to the flat map -----

  lemma {:induction false} LinkRefines(mem: Memory, root: nat, dir: map<Node, nat>, n: Node, i: nat, f: nat, v: nat)
    requires n.level == 2 ==> v / ENTRIES == n.prefix * ENTRIES + i
    requires Tree(mem, root, dir) && n in dir && n.level >= 2 && i < ENTRIES
    requires !Present(mem[dir[n]][i]) && !(n.level == 2 && Huge(mem[dir[n]][i])) && f % PAGE_SIZE == 0 && f !in mem
    ensures var mem' := LinkedMemory(mem, dir[n], i, f);
            var dir' := dir[Child(n, i) := f];
            && Tree(mem', root, dir')
            && Flatten(mem', root, dir') ==
               if n.level == 2 then AddTable(Flatten(mem, root, dir), v) else Flatten(mem, root, dir)
  {
    LinkTable(mem, root, dir, n, i, f);
    forall w | 0 <= w < VPN_LIMIT {
      LinkTableKeepsWords(mem, root, dir, n, i, f, w);
    }
  }

  lemma {:induction false} PresentRefines(mem: Memory, root: nat, dir: map<Node, nat>, n: Node, i: nat, v: nat)
    requires v / ENTRIES == n.prefix * ENTRIES + i
    requires Tree(mem, root, dir) && n in dir && n.level == 2 && i < ENTRIES && IsTable(2, mem[dir[n]][i])
    ensures AddTable(Flatten(mem, root, dir), v) == Flatten(mem, root, dir)
  {
    assert SlotOk(mem, dir, n, i);
  }

  lemma {:induction false} DirectoryWordRefines(mem: Memory, root: nat, dir: map<Node, nat>, v: nat, e: nat)
    requires Tree(mem, root, dir) && v < VPN_LIMIT && Node(2, v / 0x4_0000) in dir && Huge(e)
    requires !IsTable(2, mem[dir[Node(2, v / 0x4_0000)]][v / 0x200 % ENTRIES])
    ensures var mem' := SetWord(mem, dir[Node(2, v / 0x4_0000)], v / 0x200 % ENTRIES, e);
            && Tree(mem', root, dir)
            && Flatten(mem', root, dir) == AddHuge(Flatten(mem, root, dir), v, e)
  {
    var n, i := Node(2, v / 0x4_0000), v / 0x200 % ENTRIES;
    SetDirectoryWord(mem, root, dir, n, i, e);
    NestedDiv(v, 0x200, 0x200);
    assert Child(n, i) == Node(1, v / ENTRIES);
    assert SlotOk(mem, dir, n, i);
  }

  lemma {:induction false} TableWordRefines(mem: Memory, root: nat, dir: map<Node, nat>, v: nat, e: nat)
    requires Tree(mem, root, dir) && v < VPN_LIMIT && Node(1, v / ENTRIES) in dir
    ensures var mem' := SetWord(mem, dir[Node(1, v / ENTRIES)], v % ENTRIES, e);
            && Tree(mem', root, dir)
            && Flatten(mem', root, dir) == AddSmall(Flatten(mem, root, dir), v, e)
  {
    SetTableWord(mem, root, dir, Node(1, v / ENTRIES), v % ENTRIES, e);
  }

  /** Creating the table first changes nothing about the 4 KiB insertion. */
  lemma {:induction false} SmallSteps(m: Flat, v: nat, e: nat)
    requires v < VPN_LIMIT && v in m && forall w | w in m && Together(v, w) :: m[w].hasTable == m[v].hasTable
    ensures AddSmall(AddTable(m, v), v, e) == AddSmall(m, v, e)
    ensures m[v].hasTable ==> AddTable(m, v) == m
  {
    if m[v].hasTable {
      forall w | w in m
        ensures AddTable(m, v)[w] == m[w]
      {
      }
    }
  }

  // ----- addresses and page numbers -----

  lemma {:induction false} AddMultiple(a: nat, q: nat, w: nat)
    requires w > 0
    ensures (w * q + a) % w == a % w
  {
    DivAdd(q, a, w);
  }

  lemma {:induction false} PageStep(p: nat, k: nat)
    requires p % VPN_LIMIT + k < VPN_LIMIT
    ensures (p + k) % VPN_LIMIT == p % VPN_LIMIT + k
    ensures (p + k) % ENTRIES == (p % VPN_LIMIT + k) % ENTRIES
  {
    var q, v := p / VPN_LIMIT, p % VPN_LIMIT + k;
    AddMultiple(v, q, VPN_LIMIT);
    AddMultiple(v, q * 0x800_0000, ENTRIES);
    assert p + k == VPN_LIMIT * q + v;
    assert p + k == ENTRIES * (q * 0x800_0000) + v;
  }

  lemma {:induction false} PageAligned(p: nat)
    ensures (p * PAGE_SIZE) / PAGE_SIZE == p
    ensures p * PAGE_SIZE % HUGE_SIZE == 0 <==> p % ENTRIES == 0
  {
    assert p == p / ENTRIES * ENTRIES + p % ENTRIES;
    assert p * PAGE_SIZE == p / ENTRIES * HUGE_SIZE + p % ENTRIES * PAGE_SIZE;
  }

  lemma {:induction false} VpnStep(virt: nat, k: nat)
    requires virt % PAGE_SIZE == 0 && Vpn(virt) + k < VPN_LIMIT
    ensures Vpn(virt + k * PAGE_SIZE) == Vpn(virt) + k
    ensures (virt + k * PAGE_SIZE) % HUGE_SIZE == 0 <==> (Vpn(virt) + k) % ENTRIES == 0
  {
    var p := virt / PAGE_SIZE;
    assert virt + k * PAGE_SIZE == (p + k) * PAGE_SIZE;
    PageAligned(p + k);
    PageStep(p, k);
  }

  lemma {:induction false} PagesLeft(size: nat, k: nat)
    requires k * PAGE_SIZE < size
    ensures k < Pages(size) && (k * PAGE_SIZE + HUGE_SIZE <= size ==> k + ENTRIES <= Pages(size))
  {
  }

  function Rest(size: nat, offset: nat): nat { if offset >= size then 0 else size - offset }

  /** What is left of the range at page `k` of it. */
  ghost function Remaining(m: Flat, v: nat, p: nat, size: nat, k: nat, flags: nat, physLimit: nat): Flat {
    MapChunks(m, Chunks(v + k, p + k, Rest(size, k * PAGE_SIZE), true), flags, physLimit)
  }

  /** The address tests of the loop of pager_map_range. */
  predicate TurnIsHuge(virt: nat, phys: nat, size: nat, offset: nat) {
    size >= offset + HUGE_SIZE && (virt + offset) % HUGE_SIZE == 0 && (phys + offset) % HUGE_SIZE == 0
  }

  lemma {:induction false} TurnTest(virt: nat, phys: nat, size: nat, k: nat)
    requires virt % PAGE_SIZE == 0 && phys % PAGE_SIZE == 0 && k * PAGE_SIZE < size && Vpn(virt) + k < VPN_LIMIT
    ensures Vpn(virt + k * PAGE_SIZE) == Vpn(virt) + k && phys + k * PAGE_SIZE == (phys / PAGE_SIZE + k) * PAGE_SIZE
    ensures TurnIsHuge(virt, phys, size, k * PAGE_SIZE) <==>
              TakesHuge(Vpn(virt) + k, phys / PAGE_SIZE + k, size - k * PAGE_SIZE)
  {
    VpnStep(virt, k);
    PhysStep(phys, k);
  }

  lemma {:induction false} ChunksNext(m: Flat, m1: Flat, v: nat, v1: nat, p: nat, p1: nat, rest: nat, rest1: nat,
          huge: bool, flags: nat, physLimit: nat)
    requires rest > 0 && huge == TakesHuge(v, p, rest)
    requires m1 == MapFlat(m, v, p * PAGE_SIZE, if huge then WithHuge(flags) else flags, physLimit)
    requires if huge then v1 == v + ENTRIES && p1 == p + ENTRIES && rest1 == rest - HUGE_SIZE
             else v1 == v + 1 && p1 == p + 1 && rest1 == if rest <= PAGE_SIZE then 0 else rest - PAGE_SIZE
    ensures MapChunks(m, Chunks(v, p, rest, true), flags, physLimit) == MapChunks(m1, Chunks(v1, p1, rest1, true),
              flags, physLimit)
  {
    var cs := Chunks(v, p, rest, true);
    assert cs[0] == Chunk(v, p, huge) && cs[1..] == Chunks(v1, p1, rest1, true);
    assert MapChunk(m, cs[0], flags, physLimit) == m1;
  }

  lemma {:induction false} RestNext(size: nat, k: nat, k': nat, huge: bool)
    requires k * PAGE_SIZE < size && k' == (if huge then k + ENTRIES else k + 1) &&
               (huge ==> size - k * PAGE_SIZE >= HUGE_SIZE)
    ensures var rest := size - k * PAGE_SIZE;
            && Rest(size, k * PAGE_SIZE) == rest
            && Rest(size, k' * PAGE_SIZE) == if huge then rest - HUGE_SIZE else if rest <= PAGE_SIZE then 0
               else rest - PAGE_SIZE
  {
  }

  lemma {:induction false} RemainingNext(m: Flat, m1: Flat, v: nat, p: nat, size: nat, k: nat, k': nat, huge: bool,
          flags: nat, physLimit: nat)
    requires k * PAGE_SIZE < size && huge == TakesHuge(v + k, p + k, size - k * PAGE_SIZE)
    requires k' == if huge then k + ENTRIES else k + 1
    requires m1 == MapFlat(m, v + k, (p + k) * PAGE_SIZE, if huge then WithHuge(flags) else flags, physLimit)
    ensures Remaining(m, v, p, size, k, flags, physLimit) == Remaining(m1, v, p, size, k', flags, physLimit)
  {
    RestNext(size, k, k', huge);
    ChunksNext(m, m1, v + k, v + k', p + k, p + k', Rest(size, k * PAGE_SIZE), Rest(size, k' * PAGE_SIZE), huge, flags,
        physLimit);
  }

  /** One turn of the loop: its address tests are the page-number tests of TakesHuge. */
  lemma {:induction false} RangeTurn(m: Flat, m1: Flat, virt: nat, phys: nat, size: nat, k: nat, k': nat, offset: nat,
          huge: bool, flags: nat, chosen: nat, physLimit: nat)
    requires virt % PAGE_SIZE == 0 && phys % PAGE_SIZE == 0 && offset == k * PAGE_SIZE < size &&
               Vpn(virt) + k < VPN_LIMIT
    requires m1 == MapFlat(m, Vpn(virt + offset), phys + offset, chosen, physLimit) &&
               chosen == if huge then WithHuge(flags) else flags
    requires huge == TurnIsHuge(virt, phys, size, offset) && k' == if huge then k + ENTRIES else k + 1
    ensures Remaining(m, Vpn(virt), phys / PAGE_SIZE, size, k, flags, physLimit) ==
            Remaining(m1, Vpn(virt), phys / PAGE_SIZE, size, k', flags, physLimit)
  {
    TurnTest(virt, phys, size, k);
    RemainingNext(m, m1, Vpn(virt), phys / PAGE_SIZE, size, k, k', huge, flags, physLimit);
  }

  lemma {:induction false} PhysStep(phys: nat, k: nat)
    requires phys % PAGE_SIZE == 0
    ensures phys + k * PAGE_SIZE == (phys / PAGE_SIZE + k) * PAGE_SIZE
    ensures (phys + k * PAGE_SIZE) % HUGE_SIZE == 0 <==> (phys / PAGE_SIZE + k) % ENTRIES == 0
  {
    var x := phys / PAGE_SIZE + k;
    assert x * PAGE_SIZE % HUGE_SIZE == x % ENTRIES * PAGE_SIZE;
  }

  // ----- the state of a teardown -----

  /** The tables that the teardown of `n` has still to visit when it is at slot `i` are as they were in `mem0`. */
  ghost predicate Pending(mem: Memory, mem0: Memory, dir: map<Node, nat>, n: Node, i: nat, self: bool) {
    && WellSized(mem) && WellSized(mem0) && mem.Keys == mem0.Keys
    && n.level > 0 && (forall m | m in dir :: dir[m] in mem0)
    && forall m | m in dir && Teardown.Listed(m, n, i, self) :: mem[dir[m]] == mem0[dir[m]]
  }

  /** The teardown of `n` changes no table outside its subtree. */
  ghost predicate KeptOutside(before: Memory, after: Memory, dir: map<Node, nat>, n: Node) {
    forall m | m in dir && !Teardown.Under(m, n) :: dir[m] in before && dir[m] in after &&
        after[dir[m]] == before[dir[m]]
  }

  lemma {:induction false} KeptTwice(a: Memory, b: Memory, c: Memory, dir: map<Node, nat>, n: Node)
    requires KeptOutside(a, b, dir, n) && KeptOutside(b, c, dir, n)
    ensures KeptOutside(a, c, dir, n)
  {
  }

  lemma {:induction false} SlotSkipped(mem: Memory, mem0: Memory, dir: map<Node, nat>, n: Node, i: nat)
    requires Pending(mem, mem0, dir, n, i, false)
    ensures Pending(mem, mem0, dir, n, i + 1, false) && KeptOutside(mem, mem, dir, n)
  {
    assert forall m | m in dir && Teardown.Listed(m, n, i + 1, false) :: Teardown.Listed(m, n, i, false);
  }

  lemma {:induction false} SlotFrame(mem: Memory, mem0: Memory, root: nat, dir: map<Node, nat>, n: Node, i: nat)
    requires Tree(mem0, root, dir) && n in dir && n.level > 1 && i < ENTRIES
    requires Pending(mem, mem0, dir, n, i, false) && IsTable(n.level, mem0[dir[n]][i])
    ensures Pending(mem, mem0, dir, Child(n, i), 0, true)
    ensures Child(n, i) in dir && dir[Child(n, i)] == FrameOf(mem0[dir[n]][i])
  {
    assert SlotOk(mem0, dir, n, i);
    forall m | m in dir && Teardown.Listed(m, Child(n, i), 0, true)
      ensures Teardown.Listed(m, n, i, false)
    {
      Teardown.UnderChild(m, n, i);
    }
  }

  /** Where the nodes of later branches, and those outside `n`, lie with respect to the child in slot `i`. */
  lemma {:induction false} ApartFromChild(n: Node, i: nat, m: Node)
    requires n.level > 1 && i < ENTRIES
    ensures Teardown.Listed(m, n, i + 1, false) ==>
              Teardown.Listed(m, n, i, false) && !Teardown.Under(m, Child(n, i)) && m != n
    ensures !Teardown.Under(m, n) ==> !Teardown.Under(m, Child(n, i)) && m != n
    ensures !Teardown.Under(n, Child(n, i))
  {
    Teardown.UnderChild(m, n, i);
    Teardown.UnderChild(n, n, i);
  }

  lemma {:induction false} ClearedElsewhere(mem: Memory, mem0: Memory, root: nat, dir: map<Node, nat>, n: Node, i: nat,
          m: Node)
    requires Tree(mem0, root, dir) && n in dir && m in dir && m != n && i < ENTRIES && WellSized(mem) &&
               mem.Keys == mem0.Keys
    ensures dir[m] in mem && dir[n] in mem && dir[m] != dir[n] && SetWord(mem, dir[n], i, 0)[dir[m]] == mem[dir[m]]
  {
  }

  /** After the child in slot `i` is gone and the slot is cleared, the later branches are still pending. */
  lemma {:induction false} SlotPending(before: Memory, after: Memory, mem0: Memory, root: nat, dir: map<Node, nat>,
          n: Node, i: nat)
    requires Tree(mem0, root, dir) && n in dir && n.level > 1 && i < ENTRIES
    requires Pending(before, mem0, dir, n, i, false)
    requires WellSized(after) && after.Keys == mem0.Keys && KeptOutside(before, after, dir, Child(n, i))
    ensures Pending(SetWord(after, dir[n], i, 0), mem0, dir, n, i + 1, false)
  {
    forall m | m in dir && Teardown.Listed(m, n, i + 1, false) {
      StillPending(before, after, mem0, root, dir, n, i, m);
    }
  }

  lemma {:induction false} StillPending(before: Memory, after: Memory, mem0: Memory, root: nat, dir: map<Node, nat>,
          n: Node, i: nat, m: Node)
    requires Tree(mem0, root, dir) && n in dir && n.level > 1 && i < ENTRIES
    requires Pending(before, mem0, dir, n, i, false)
    requires WellSized(after) && after.Keys == mem0.Keys && KeptOutside(before, after, dir, Child(n, i))
    requires m in dir && Teardown.Listed(m, n, i + 1, false)
    ensures SetWord(after, dir[n], i, 0)[dir[m]] == mem0[dir[m]]
  {
    ApartFromChild(n, i, m);
    ClearedElsewhere(after, mem0, root, dir, n, i, m);
  }

  lemma {:induction false} SlotOutside(before: Memory, after: Memory, mem0: Memory, root: nat, dir: map<Node, nat>,
          n: Node, i: nat)
    requires Tree(mem0, root, dir) && n in dir && n.level > 1 && i < ENTRIES && before.Keys == mem0.Keys
    requires WellSized(after) && after.Keys == mem0.Keys && KeptOutside(before, after, dir, Child(n, i))
    ensures after[dir[n]] == before[dir[n]]
    ensures KeptOutside(before, SetWord(after, dir[n], i, 0), dir, n)
  {
    ApartFromChild(n, i, n);
    forall m | m in dir && !Teardown.Under(m, n)
      ensures dir[m] in before && dir[m] in SetWord(after, dir[n], i, 0) &&
                SetWord(after, dir[n], i, 0)[dir[m]] == before[dir[m]]
    {
      ApartFromChild(n, i, m);
      ClearedElsewhere(after, mem0, root, dir, n, i, m);
    }
  }

  lemma {:induction false} SlotDone(before: Memory, after: Memory, mem0: Memory, root: nat, dir: map<Node, nat>,
          n: Node, i: nat)
    requires Tree(mem0, root, dir) && n in dir && n.level > 1 && i < ENTRIES
    requires Pending(before, mem0, dir, n, i, false)
    requires WellSized(after) && after.Keys == mem0.Keys && KeptOutside(before, after, dir, Child(n, i))
    ensures after[dir[n]] == before[dir[n]]
    ensures Pending(SetWord(after, dir[n], i, 0), mem0, dir, n, i + 1, false)
    ensures KeptOutside(before, SetWord(after, dir[n], i, 0), dir, n)
  {
    SlotPending(before, after, mem0, root, dir, n, i);
    SlotOutside(before, after, mem0, root, dir, n, i);
  }

  class Pager {
    const physLimit: nat // 1 << cpu_phys_bits
    const root: nat
    var mem: Memory
    var supply: seq<nat> // the frames that the physical allocator will hand out for tables
    ghost var dir: map<Node, nat>

    ghost predicate Valid()
      reads this
    {
      && Tree(mem, root, dir)
      && (forall i | 0 <= i < |supply| :: supply[i] % PAGE_SIZE == 0 && supply[i] !in mem)
      && (forall i, j | 0 <= i < j < |supply| :: supply[i] != supply[j])
    }

    ghost function Flat(): Flat
      requires Valid()
      reads this
    {
      Flatten(mem, root, dir)
    }

    /** The pager starts with one zeroed root table. */
    constructor (physLimit: nat, supply: seq<nat>)
      requires |supply| >= 1
      requires forall i | 0 <= i < |supply| :: supply[i] % PAGE_SIZE == 0
      requires forall i, j | 0 <= i < j < |supply| :: supply[i] != supply[j]
      ensures Valid() && this.physLimit == physLimit && this.supply == supply[1..]
      ensures forall v | 0 <= v < VPN_LIMIT :: Flat()[v].Empty()
    {
      this.physLimit := physLimit;
      root := supply[0];
      mem := map[supply[0] := ZeroTable()];
      this.supply := supply[1..];
      dir := map[ROOT := supply[0]];
      new;
      assert forall i | 0 <= i < ENTRIES :: SlotOk(mem, dir, ROOT, i);
      assert dir[ROOT] == root;
    }

    /** alloc_page_table: a zeroed frame, not yet linked. */
    method AllocTable() returns (child: nat)
      requires |supply| >= 1
      modifies this`mem, this`supply
      ensures child == old(supply)[0] && supply == old(supply)[1..] && mem == old(mem)[child := ZeroTable()]
    {
      child := supply[0];
      supply := supply[1..];
      mem := mem[child := ZeroTable()];
    }

    /** One level of pager_map: if the slot is not present, allocate a zeroed table and link it; else follow it. */
    method EnsureTable(frame: nat, idx: nat, ghost n: Node, ghost v: nat) returns (child: nat)
      requires Valid() && |supply| >= 1
      requires n in dir && dir[n] == frame && n.level >= 2 && idx < ENTRIES
      requires n.level == 2 ==> !Huge(mem[frame][idx]) && v / ENTRIES == n.prefix * ENTRIES + idx
      modifies this`mem, this`supply, this`dir
      ensures Valid() && |supply| >= |old(supply)| - 1
      ensures n in dir && Child(n, idx) in dir && dir[Child(n, idx)] == child
      ensures Flat() == if n.level == 2 then AddTable(old(Flat()), v) else old(Flat())
    {
      var e := mem[frame][idx];
      assert SlotOk(mem, dir, n, idx);
      if !Present(e) {
        child := AllocTable();
        LinkRefines(old(mem), root, dir, n, idx, child, v);
        mem := SetWord(mem, frame, idx, TableEntry(child));
        dir := dir[Child(n, idx) := child];
      } else {
        child := FrameOf(e);
        if n.level == 2 {
          PresentRefines(mem, root, dir, n, idx, v);
        }
      }
    }

    /** The walk of pager_map down to the page directory of `virt`, with the tables on the way created as needed. */
    method EnsureDirectory(virt: nat) returns (pd: nat)
      requires Valid() && |supply| >= 2
      modifies this`mem, this`supply, this`dir
      ensures Valid() && |supply| >= |old(supply)| - 2 && Flat() == old(Flat())
      ensures Node(2, Vpn(virt) / 0x4_0000) in dir && dir[Node(2, Vpn(virt) / 0x4_0000)] == pd
    {
      Indices(virt);
      pd := EnsureBoth(virt / 0x80_0000_0000 % ENTRIES, virt / 0x4000_0000 % ENTRIES, Vpn(virt));
    }

    method EnsureBoth(idxPml4: nat, idxPdpt: nat, ghost v: nat) returns (pd: nat)
      requires Valid() && |supply| >= 2 && v < VPN_LIMIT && idxPml4 == v / 0x800_0000 &&
                 idxPdpt == v / 0x4_0000 % ENTRIES
      modifies this`mem, this`supply, this`dir
      ensures Valid() && |supply| >= |old(supply)| - 2 && Flat() == old(Flat())
      ensures Node(2, v / 0x4_0000) in dir && dir[Node(2, v / 0x4_0000)] == pd
    {
      ghost var n := Node(3, v / 0x800_0000);
      assert Child(ROOT, idxPml4) == n && Child(n, idxPdpt) == Node(2, v / 0x4_0000);
      var pdpt := EnsureTable(root, idxPml4, ROOT, v);
      pd := EnsureTable(pdpt, idxPdpt, n, v);
    }

    /** The words that decide page `v`, once its page directory exists. */
    lemma {:induction false} SlotWords(v: nat)
      requires Valid() && v < VPN_LIMIT && Node(2, v / 0x4_0000) in dir
      ensures var word := mem[dir[Node(2, v / 0x4_0000)]][v / 0x200 % ENTRIES];
              && Flat()[v].huge == (if Huge(word) then word else 0)
              && (Flat()[v].hasTable <==> Present(word) && !Huge(word))
              && Flat()[v].Consistent()
    {
      var n := Node(2, v / 0x4_0000);
      assert Child(n, v / 0x200 % ENTRIES) == Node(1, v / ENTRIES);
      assert SlotOk(mem, dir, n, v / 0x200 % ENTRIES);
      MarkedHasNoTable(mem, root, dir, v);
    }

    method MapHuge(pd: nat, virt: nat, phys: nat, flags: nat) returns (ok: bool)
      requires Valid() && Huge(flags) && phys < physLimit
      requires Node(2, Vpn(virt) / 0x4_0000) in dir && dir[Node(2, Vpn(virt) / 0x4_0000)] == pd
      modifies this`mem
      ensures Valid()
      ensures ok <==> MapOutcome(old(Flat())[Vpn(virt)], phys, flags, physLimit) != Refused
      ensures Flat() == MapFlat(old(Flat()), Vpn(virt), phys, flags, physLimit)
    {
      ghost var v := Vpn(virt);
      Indices(virt);
      var idxPd := virt / 0x20_0000 % ENTRIES;
      SlotWords(v);
      var word := mem[pd][idxPd];
      if Present(word) {
        return Huge(word) && HugeFrameOf(word) == HugeFrameOf(phys);
      }
      HugeEntryBits(phys, flags);
      DirectoryWordRefines(mem, root, dir, v, HugeEntry(phys, flags));
      mem := SetWord(mem, pd, idxPd, HugeEntry(phys, flags));
      ok := true;
    }

    method StoreSmall(pt: nat, idx: nat, word: nat, ghost v: nat)
      requires Valid() && v < VPN_LIMIT && idx == v % ENTRIES
      requires Node(1, v / ENTRIES) in dir && dir[Node(1, v / ENTRIES)] == pt
      modifies this`mem
      ensures Valid() && Flat() == AddSmall(old(Flat()), v, word)
    {
      TableWordRefines(mem, root, dir, v, word);
      mem := SetWord(mem, pt, idx, word);
    }

    method LeafTable(pd: nat, idxPd: nat, idxPt: nat, ghost v: nat) returns (pt: nat, leaf: nat)
      requires Valid() && |supply| >= 1 && v < VPN_LIMIT && idxPd == v / 0x200 % ENTRIES && idxPt == v % ENTRIES
      requires Node(2, v / 0x4_0000) in dir && dir[Node(2, v / 0x4_0000)] == pd && !Huge(mem[pd][idxPd])
      modifies this`mem, this`supply, this`dir
      ensures Valid() && |supply| >= |old(supply)| - 1
      ensures Flat() == AddTable(old(Flat()), v)
      ensures Node(1, v / ENTRIES) in dir && dir[Node(1, v / ENTRIES)] == pt
      ensures leaf == old(Flat())[v].small && (leaf != 0 ==> old(Flat())[v].hasTable)
    {
      SlotWords(v);
      pt := EnsureTable(pd, idxPd, Node(2, v / 0x4_0000), v);
      leaf := mem[pt][idxPt];
      assert Flat()[v].small == leaf;
    }

    method MapSmall(pd: nat, virt: nat, phys: nat, flags: nat) returns (ok: bool)
      requires Valid() && |supply| >= 1 && !Huge(flags) && phys < physLimit
      requires Node(2, Vpn(virt) / 0x4_0000) in dir && dir[Node(2, Vpn(virt) / 0x4_0000)] == pd
      modifies this`mem, this`supply, this`dir
      ensures Valid() && |supply| >= |old(supply)| - 1
      ensures ok <==> MapOutcome(old(Flat())[Vpn(virt)], phys, flags, physLimit) != Refused
      ensures Flat() == MapFlat(old(Flat()), Vpn(virt), phys, flags, physLimit)
    {
      ghost var v := Vpn(virt);
      Indices(virt);
      var idxPd := virt / 0x20_0000 % ENTRIES;
      var idxPt := virt / 0x1000 % ENTRIES;
      SlotWords(v);
      if Huge(mem[pd][idxPd]) {
        return HugeFrameOf(mem[pd][idxPd]) == HugeFrameOf(phys);
      }
      SmallSteps(Flat(), v, SmallEntry(phys, flags));
      var pt, leaf := LeafTable(pd, idxPd, idxPt, v);
      if Present(leaf) {
        return FrameOf(leaf) == FrameOf(phys);
      }
      StoreSmall(pt, idxPt, SmallEntry(phys, flags), v);
      ok := true;
    }

    /** pager_map. A page that it adds can be written if and only if the request has RW. */
    method Map(virt: nat, phys: nat, flags: nat) returns (ok: bool)
      requires Valid() && |supply| >= 3
      modifies this`mem, this`supply, this`dir
      ensures Valid() && |supply| >= |old(supply)| - 3
      ensures ok <==> MapOutcome(old(Flat())[Vpn(virt)], phys, flags, physLimit) != Refused
      ensures Flat() == MapFlat(old(Flat()), Vpn(virt), phys, flags, physLimit)
      ensures MapOutcome(old(Flat())[Vpn(virt)], phys, flags, physLimit) == Added ==>
                (MayWrite(mem, root, Vpn(virt)) <==> Writable(flags))
    {
      ghost var before := Flat();
      WalkRefinesFlat(mem, root, dir);
      ok := MapWords(virt, phys, flags);
      if MapOutcome(before[Vpn(virt)], phys, flags, physLimit) == Added {
        AddedPageRights(mem, root, dir, before, Vpn(virt), phys, flags, physLimit);
      }
    }

    method MapWords(virt: nat, phys: nat, flags: nat) returns (ok: bool)
      requires Valid() && |supply| >= 3
      modifies this`mem, this`supply, this`dir
      ensures Valid() && |supply| >= |old(supply)| - 3
      ensures ok <==> MapOutcome(old(Flat())[Vpn(virt)], phys, flags, physLimit) != Refused
      ensures Flat() == MapFlat(old(Flat()), Vpn(virt), phys, flags, physLimit)
    {
      if phys >= physLimit {
        return false;
      }
      var pd := EnsureDirectory(virt);
      if Huge(flags) {
        ok := MapHuge(pd, virt, phys, flags);
      } else {
        ok := MapSmall(pd, virt, phys, flags);
      }
    }

    /** One turn of the loop of pager_map_range, at page `k` of the range. */
    method MapRangeTurn(virt: nat, phys: nat, flags: nat, offset: nat, huge: bool, ghost size: nat, ghost k: nat)
      returns (next: nat, ghost k': nat)
      requires Valid() && |supply| >= 3 && offset == k * PAGE_SIZE < size &&
                 huge == TurnIsHuge(virt, phys, size, offset)
      modifies this`mem, this`supply, this`dir
      ensures Valid() && |supply| >= |old(supply)| - 3
      ensures k' == (if huge then k + ENTRIES else k + 1) && next == k' * PAGE_SIZE
      ensures virt % PAGE_SIZE == 0 && phys % PAGE_SIZE == 0 && Vpn(virt) + k < VPN_LIMIT ==>
                Remaining(old(Flat()), Vpn(virt), phys / PAGE_SIZE, size, k, flags, physLimit) ==
                Remaining(Flat(), Vpn(virt), phys / PAGE_SIZE, size, k', flags, physLimit)
    {
      ghost var before := Flat();
      var chosen := if huge then WithHuge(flags) else flags;
      var _ := Map(virt + offset, phys + offset, chosen);
      next := offset + if huge then HUGE_SIZE else PAGE_SIZE;
      k' := if huge then k + ENTRIES else k + 1;
      if virt % PAGE_SIZE == 0 && phys % PAGE_SIZE == 0 && Vpn(virt) + k < VPN_LIMIT {
        RangeTurn(before, Flat(), virt, phys, size, k, k', offset, huge, flags, chosen, physLimit);
      }
    }

    /** pager_map_range. */
    method MapRange(virt: nat, phys: nat, size: nat, flags: nat)
      requires Valid() && |supply| >= 3 * Pages(size)
      modifies this`mem, this`supply, this`dir
      ensures Valid()
      ensures virt % PAGE_SIZE == 0 && phys % PAGE_SIZE == 0 && Vpn(virt) + Pages(size) <= VPN_LIMIT ==>
                Flat() == RangeFlat(old(Flat()), Vpn(virt), phys / PAGE_SIZE, size, flags, physLimit, true)
    {
      ghost var n, flat, k: nat := Pages(size), Flat(), 0;
      ghost var aligned := virt % PAGE_SIZE == 0 && phys % PAGE_SIZE == 0 && Vpn(virt) + n <= VPN_LIMIT;
      var offset: nat := 0;
      while offset < size
        invariant Valid() && offset == k * PAGE_SIZE && k <= n && |supply| >= 3 * (n - k)
        invariant aligned ==>
                    Remaining(Flat(), Vpn(virt), phys / PAGE_SIZE, size, k, flags, physLimit) ==
                    Remaining(flat, Vpn(virt), phys / PAGE_SIZE, size, 0, flags, physLimit)
        decreases n - k
      {
        PagesLeft(size, k);
        var huge := TurnIsHuge(virt, phys, size, offset);
        offset, k := MapRangeTurn(virt, phys, flags, offset, huge, size, k);
      }
    }

    /** pager_unmap; the result says whether it reaches its invlpg. */
    method Unmap(virt: nat) returns (flushed: bool)
      requires Valid()
      modifies this`mem
      ensures Valid()
      ensures Flat() == UnmapFlat(old(Flat()), Vpn(virt)) && flushed == UnmapFlushes(old(Flat())[Vpn(virt)])
    {
      Indices(virt);
      var idxPml4 := virt / 0x80_0000_0000 % ENTRIES;
      var idxPdpt := virt / 0x4000_0000 % ENTRIES;
      var idxPd := virt / 0x20_0000 % ENTRIES;
      flushed := UnmapAt(idxPml4, idxPdpt, idxPd, virt / 0x1000 % ENTRIES, Vpn(virt));
    }

    /** The walk of pager_unmap, on the indices of page `v`. */
    method UnmapAt(idxPml4: nat, idxPdpt: nat, idxPd: nat, idxPt: nat, ghost v: nat) returns (flushed: bool)
      requires Valid() && v < VPN_LIMIT && idxPml4 == v / 0x800_0000 && idxPdpt == v / 0x4_0000 % ENTRIES
      requires idxPd == v / 0x200 % ENTRIES && idxPt == v % ENTRIES
      modifies this`mem
      ensures Valid()
      ensures Flat() == UnmapFlat(old(Flat()), v) && flushed == UnmapFlushes(old(Flat())[v])
    {
      var found, pd := FindDirectory(idxPml4, idxPdpt, v);
      if !found {
        UnmapEmpty(v);
        return false;
      }
      flushed := UnmapIn(pd, idxPd, idxPt, v);
    }

    lemma {:induction false} UnmapEmpty(v: nat)
      requires Valid() && v < VPN_LIMIT && Flat()[v].Empty()
      ensures UnmapFlat(Flat(), v) == Flat() && !UnmapFlushes(Flat()[v])
    {
      UnmapStepsHere(v);
    }

    /** The last two levels of pager_unmap. */
    method UnmapIn(pd: nat, idxPd: nat, idxPt: nat, ghost v: nat) returns (flushed: bool)
      requires Valid() && v < VPN_LIMIT && Node(2, v / 0x4_0000) in dir && dir[Node(2, v / 0x4_0000)] == pd
      requires idxPd == v / 0x200 % ENTRIES && idxPt == v % ENTRIES
      modifies this`mem
      ensures Valid()
      ensures Flat() == UnmapFlat(old(Flat()), v) && flushed == UnmapFlushes(old(Flat())[v])
    {
      UnmapStepsHere(v);
      SlotWords(v);
      var word := mem[pd][idxPd];
      if Huge(word) {
        ClearHuge(pd, idxPd, v);
        return true;
      }
      if !Present(word) {
        return false;
      }
      ClearSmall(pd, idxPd, idxPt, v);
      return true;
    }

    lemma {:induction false} UnmapStepsHere(v: nat)
      requires Valid() && v < VPN_LIMIT
      ensures Huge(Flat()[v].huge) ==> UnmapFlat(Flat(), v) == AddHuge(Flat(), v, ClearPresent(Flat()[v].huge))
      ensures Flat()[v].hasTable ==> UnmapFlat(Flat(), v) == AddSmall(Flat(), v, ClearPresent(Flat()[v].small))
      ensures !UnmapFlushes(Flat()[v]) ==> UnmapFlat(Flat(), v) == Flat()
    {
      WalkRefinesFlat(mem, root, dir);
      UnmapSteps(Flat(), v);
    }

    /** The first two levels of pager_unmap. */
    method FindDirectory(idxPml4: nat, idxPdpt: nat, ghost v: nat) returns (found: bool, pd: nat)
      requires Valid() && v < VPN_LIMIT && idxPml4 == v / 0x800_0000 && idxPdpt == v / 0x4_0000 % ENTRIES
      ensures found <==> Node(2, v / 0x4_0000) in dir
      ensures found ==> dir[Node(2, v / 0x4_0000)] == pd
      ensures !found ==> Flat()[v].Empty()
    {
      ghost var n3, n2 := Node(3, v / 0x800_0000), Node(2, v / 0x4_0000);
      assert Child(ROOT, idxPml4) == n3 && Child(n3, idxPdpt) == n2;
      assert Parent(n2) == n3 && Parent(Node(1, v / ENTRIES)) == n2;
      assert SlotOk(mem, dir, ROOT, idxPml4);
      pd := 0;
      if !Present(mem[root][idxPml4]) {
        return false, pd;
      }
      var pdpt := FrameOf(mem[root][idxPml4]);
      assert SlotOk(mem, dir, n3, idxPdpt);
      if !Present(mem[pdpt][idxPdpt]) {
        return false, pd;
      }
      return true, FrameOf(mem[pdpt][idxPdpt]);
    }

    method ClearHuge(pd: nat, idx: nat, ghost v: nat)
      requires Valid() && v < VPN_LIMIT && idx == v / 0x200 % ENTRIES
      requires Node(2, v / 0x4_0000) in dir && dir[Node(2, v / 0x4_0000)] == pd && Huge(mem[pd][idx])
      modifies this`mem
      ensures Valid() && Flat() == AddHuge(old(Flat()), v, ClearPresent(old(mem)[pd][idx]))
    {
      ClearPresentBits(mem[pd][idx]);
      DirectoryWordRefines(mem, root, dir, v, ClearPresent(mem[pd][idx]));
      mem := SetWord(mem, pd, idx, ClearPresent(mem[pd][idx]));
    }

    method ClearSmall(pd: nat, idxPd: nat, idxPt: nat, ghost v: nat)
      requires Valid() && v < VPN_LIMIT && idxPd == v / 0x200 % ENTRIES && idxPt == v % ENTRIES
      requires Node(2, v / 0x4_0000) in dir && dir[Node(2, v / 0x4_0000)] == pd && IsTable(2, mem[pd][idxPd])
      modifies this`mem
      ensures Valid() && Flat() == AddSmall(old(Flat()), v, ClearPresent(old(Flat())[v].small))
    {
      ghost var n2, n1 := Node(2, v / 0x4_0000), Node(1, v / ENTRIES);
      assert Child(n2, idxPd) == n1;
      assert SlotOk(mem, dir, n2, idxPd);
      var pt := FrameOf(mem[pd][idxPd]);
      StoreSmall(pt, idxPt, ClearPresent(mem[pt][idxPt]), v);
    }

    /** destroy_table: `freed` lists the frames given to avmf_free_phys_contiguous, in order. While it runs, the tables
        that it has passed are zeroed; `mem0` is the memory as it was when the teardown began. */
    method DestroyTable(table: nat, level: nat, ghost n: Node, ghost mem0: Memory) returns (freed: seq<nat>)
      requires Tree(mem0, root, dir) && n in dir && dir[n] == table && level == n.level
      requires Pending(mem, mem0, dir, n, 0, true)
      modifies this`mem
      ensures WellSized(mem) && mem.Keys == mem0.Keys
      ensures freed == Teardown.Order(mem0, table, level)
      ensures KeptOutside(old(mem), mem, dir, n)
      ensures level > 1 ==> forall i | 0 <= i < ENTRIES :: !IsTable(level, mem[table][i])
      decreases level, 1
    {
      freed := [];
      if level > 1 {
        for i := 0 to ENTRIES
          invariant freed + Teardown.OrderFrom(mem0, table, level, i) == Teardown.OrderFrom(mem0, table, level, 0)
          invariant Pending(mem, mem0, dir, n, i, false) && KeptOutside(old(mem), mem, dir, n)
          invariant forall j | i <= j < ENTRIES :: mem[table][j] == mem0[table][j]
          invariant forall j | 0 <= j < i :: !IsTable(level, mem[table][j])
        {
          ghost var before := mem;
          var sub := DestroySlot(table, level, i, n, mem0);
          KeptTwice(old(mem), before, mem, dir, n);
          freed := freed + sub;
        }
      }
      freed := freed + [table];
    }

    /** The loop body of destroy_table. */
    method DestroySlot(table: nat, level: nat, i: nat, ghost n: Node, ghost mem0: Memory) returns (sub: seq<nat>)
      requires Tree(mem0, root, dir) && n in dir && dir[n] == table && level == n.level && level > 1 && i < ENTRIES
      requires Pending(mem, mem0, dir, n, i, false) && mem[table][i] == mem0[table][i]
      modifies this`mem
      ensures Pending(mem, mem0, dir, n, i + 1, false) && KeptOutside(old(mem), mem, dir, n)
      ensures sub + Teardown.OrderFrom(mem0, table, level, i + 1) == Teardown.OrderFrom(mem0, table, level, i)
      ensures !IsTable(level, mem[table][i])
      ensures forall j | 0 <= j < ENTRIES && j != i :: mem[table][j] == old(mem)[table][j]
      decreases level, 0
    {
      var e := mem[table][i];
      if Present(e) && !(level == 2 && Huge(e)) {
        SlotFrame(mem, mem0, root, dir, n, i);
        sub := DestroyTable(FrameOf(e), level - 1, Child(n, i), mem0);
        SlotDone(old(mem), mem, mem0, root, dir, n, i);
        mem := SetWord(mem, table, i, 0);
      } else {
        SlotSkipped(mem, mem0, dir, n, i);
        sub := [];
      }
    }

    /** pager_destroy_table on the root: every table frame is freed once, nothing else is, and nothing translates any
        more. */
    method DestroyAll() returns (freed: seq<nat>)
      requires Valid()
      modifies this`mem
      ensures freed == Teardown.Order(old(mem), root, 4)
      ensures Teardown.NoDuplicates(freed) && forall f :: f in freed <==> f in old(mem)
      ensures WellSized(mem) && forall v | 0 <= v < VPN_LIMIT :: Walk(mem, root, v) == None
    {
      Teardown.TeardownFreesEachTableOnce(mem, root, dir);
      freed := DestroyTable(root, 4, ROOT, mem);
    }
  }
}
