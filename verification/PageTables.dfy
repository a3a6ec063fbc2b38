/** Page-table words and the four-level walk (Intel SDM Volume 3A, section 4.5).

    A 64-bit entry is a natural number. The masks of the C code become arithmetic: `& 0xFFF` is a remainder,
    `& ~0xFFF` subtracts that remainder, and `|` of words without common bits is a sum. */
module PageTables {
  import opened Arithmetic
  import opened Common

  const HUGE_SIZE := 0x20_0000
  const ENTRIES := 512
  const VPN_LIMIT := 0x10_0000_0000 // 2^36 virtual pages behind 48 translated address bits

  // ----- words -----

  predicate Present(e: nat) { e % 2 == 1 }

  predicate Writable(e: nat) { e / 2 % 2 == 1 }

  predicate User(e: nat) { e / 4 % 2 == 1 }

  predicate Huge(e: nat) { e / 128 % 2 == 1 }

  function FrameOf(e: nat): nat { e - e % PAGE_SIZE }

  function HugeFrameOf(e: nat): nat { e - e % HUGE_SIZE }

  function WithPresent(e: nat): nat { e - e % 2 + 1 }

  function ClearPresent(e: nat): nat { e - e % 2 }

  function TableEntry(frame: nat): nat { frame + 3 } // frame | PAGE_PRESENT | PAGE_RW

  function SmallEntry(phys: nat, flags: nat): nat { FrameOf(phys) + WithPresent(flags % PAGE_SIZE) }

  function HugeEntry(phys: nat, flags: nat): nat { HugeFrameOf(phys) + WithPresent(flags % PAGE_SIZE) }

  lemma {:induction false} TableEntryBits(frame: nat)
    requires frame % PAGE_SIZE == 0
    ensures Present(TableEntry(frame)) && !Huge(TableEntry(frame)) && FrameOf(TableEntry(frame)) == frame
    ensures TableEntry(frame) % PAGE_SIZE == 3
  {
    var q := frame / PAGE_SIZE;
    SumParity(q, 3);
    SumLow(q, 3);
    SumHuge(q, 3);
  }

  lemma {:induction false} SmallEntryBits(phys: nat, flags: nat)
    ensures Present(SmallEntry(phys, flags)) && FrameOf(SmallEntry(phys, flags)) == FrameOf(phys)
  {
    SumBits(phys / PAGE_SIZE, flags % PAGE_SIZE);
  }

  lemma {:induction false} SumParity(q: nat, l: nat)
    ensures (q * PAGE_SIZE + l) % 2 == l % 2
  {
    assert q * PAGE_SIZE + l == 2 * (q * 2048) + l;
  }

  lemma {:induction false} SumLow(q: nat, l: nat)
    requires l < PAGE_SIZE
    ensures (q * PAGE_SIZE + l) % PAGE_SIZE == l
  {
  }

  lemma {:induction false} SumDiv(q: nat, l: nat)
    ensures (q * PAGE_SIZE + l) / 128 == q * 32 + l / 128
  {
    assert q * PAGE_SIZE + l == 128 * (q * 32 + l / 128) + l % 128;
  }

  lemma {:induction false} SumHuge(q: nat, l: nat)
    ensures Huge(q * PAGE_SIZE + l) == Huge(l)
  {
    SumDiv(q, l);
    var a, b := q * 16, l / 128;
    assert (2 * a + b) % 2 == b % 2;
  }

  lemma {:induction false} OddLow(low: nat)
    requires low < PAGE_SIZE
    ensures WithPresent(low) < PAGE_SIZE && WithPresent(low) % 2 == 1 && WithPresent(low) / 128 == low / 128
  {
  }

  /** Adding a low part below 4096 to a multiple of 4096: the low bits come from the low part. */
  lemma {:induction false} SumBits(q: nat, low: nat)
    requires low < PAGE_SIZE
    ensures var e := q * PAGE_SIZE + WithPresent(low);
            Present(e) && e % PAGE_SIZE == WithPresent(low) && Huge(e) == Huge(low)
  {
    OddLow(low);
    SumParity(q, WithPresent(low));
    SumLow(q, WithPresent(low));
    SumHuge(q, WithPresent(low));
  }

  lemma {:induction false} HugeEntryBits(phys: nat, flags: nat)
    ensures Present(HugeEntry(phys, flags)) && HugeFrameOf(HugeEntry(phys, flags)) == HugeFrameOf(phys)
    ensures Huge(HugeEntry(phys, flags)) == Huge(flags)
  {
    var h, low := phys / HUGE_SIZE, flags % PAGE_SIZE;
    OddLow(low);
    SumBits(h * 512, low);
    HugeSum(h, WithPresent(low));
    SumHuge(flags / PAGE_SIZE, low);
    assert HugeFrameOf(phys) == h * HUGE_SIZE;
  }

  lemma {:induction false} HugeSum(h: nat, l: nat)
    requires l < PAGE_SIZE
    ensures HugeFrameOf(h * HUGE_SIZE + l) == h * HUGE_SIZE && h * HUGE_SIZE == h * 512 * PAGE_SIZE
  {
  }

  lemma {:induction false} ClearPresentBits(e: nat)
    ensures !Present(ClearPresent(e)) && Huge(ClearPresent(e)) == Huge(e)
    ensures FrameOf(ClearPresent(e)) == FrameOf(e) && HugeFrameOf(ClearPresent(e)) == HugeFrameOf(e)
  {
    var c := ClearPresent(e);
    assert c / 2 == e / 2;
    assert c / 128 == e / 128 && c / PAGE_SIZE == e / PAGE_SIZE && c / HUGE_SIZE == e / HUGE_SIZE by {
      assert c / 128 == c / 2 / 64 && e / 128 == e / 2 / 64;
      assert c / PAGE_SIZE == c / 2 / 2048 && e / PAGE_SIZE == e / 2 / 2048;
      assert c / HUGE_SIZE == c / 2 / 0x10_0000 && e / HUGE_SIZE == e / 2 / 0x10_0000;
    }
  }

  // ----- the page tables in memory -----

  /** The table frames of physical memory: address of a 4 KiB frame to its 512 words. */
  type Memory = map<nat, seq<nat>>

  ghost predicate WellSized(mem: Memory) { forall f | f in mem :: f % PAGE_SIZE == 0 && |mem[f]| == ENTRIES }

  datatype Leaf = Leaf(word: nat, huge: bool) {
    /** The physical address that the leaf gives to a virtual address. */
    function Address(virt: nat): nat {
      if huge then HugeFrameOf(word) + virt % HUGE_SIZE else FrameOf(word) + virt % PAGE_SIZE
    }
  }

  /** The virtual page number of an address: bits 12 to 47. */
  function Vpn(virt: nat): (v: nat)
    ensures v < VPN_LIMIT
  {
    virt / PAGE_SIZE % VPN_LIMIT
  }

  /** What the processor finds when it translates page `v`, starting from the table at `root`. */
  function Walk(mem: Memory, root: nat, v: nat): Option<Leaf>
    requires v < VPN_LIMIT && WellSized(mem)
  {
    if root !in mem then None else
    var e4 := mem[root][v / 0x800_0000];
    if !Present(e4) || FrameOf(e4) !in mem then None else
    var e3 := mem[FrameOf(e4)][v / 0x4_0000 % ENTRIES];
    if !Present(e3) || FrameOf(e3) !in mem then None else
    var e2 := mem[FrameOf(e3)][v / 0x200 % ENTRIES];
    if !Present(e2) then None else
    if Huge(e2) then Some(Leaf(e2, true)) else
    if FrameOf(e2) !in mem then None else
    var e1 := mem[FrameOf(e2)][v % ENTRIES];
    if Present(e1) then Some(Leaf(e1, false)) else None
  }

  // ----- the tree -----

  /** A table's place in the tree: its level (4 is the root, 1 holds 4 KiB leaves) and the page-number prefix it
      serves. */
  datatype Node = Node(level: nat, prefix: nat)

  predicate IsTable(level: nat, e: nat) { Present(e) && !(level == 2 && Huge(e)) }

  function Child(n: Node, i: nat): Node
    requires n.level > 0
  {
    Node(n.level - 1, n.prefix * ENTRIES + i)
  }

  function Parent(n: Node): Node { Node(n.level + 1, n.prefix / ENTRIES) }

  function Width(level: nat): nat {
    if level == 4 then 1 else if level == 3 then 0x200 else if level == 2 then 0x4_0000 else 0x800_0000
  }

  predicate InRange(n: Node) { 1 <= n.level <= 4 && n.prefix < Width(n.level) }

  const ROOT := Node(4, 0)

  /** The slot of table `n` that has index `i` agrees with the directory: a table pointer leads to the child's frame,
      with PRESENT and RW and no other flag, and anything else means that there is no child. */
  ghost predicate SlotOk(mem: Memory, dir: map<Node, nat>, n: Node, i: nat)
    requires WellSized(mem) && n in dir && dir[n] in mem && n.level >= 2 && i < ENTRIES
  {
    var e := mem[dir[n]][i];
    && (IsTable(n.level, e) <==> Child(n, i) in dir)
    && (IsTable(n.level, e) ==> dir[Child(n, i)] == FrameOf(e) && e % PAGE_SIZE == 3)
  }

  /** The table frames form a tree: `dir` says which frame serves which node. Every frame serves one node, every node
      but the root hangs in its parent's slot, and slots hold nothing that `dir` does not know. */
  ghost predicate Tree(mem: Memory, root: nat, dir: map<Node, nat>) {
    && WellSized(mem)
    && ROOT in dir && dir[ROOT] == root
    && (forall n | n in dir :: InRange(n) && dir[n] in mem)
    && (forall n, m | n in dir && m in dir && n != m :: dir[n] != dir[m])
    && (forall f | f in mem :: exists n | n in dir :: dir[n] == f)
    && (forall n | n in dir && n != ROOT :: Parent(n) in dir)
    && (forall n, i | n in dir && n.level >= 2 && 0 <= i < ENTRIES :: SlotOk(mem, dir, n, i))
  }

  /** The page-directory word that decides page `v`, if it is marked as a huge page; 0 otherwise. */
  ghost function HugeWord(mem: Memory, dir: map<Node, nat>, v: nat): nat
    requires WellSized(mem) && forall n | n in dir :: dir[n] in mem
  {
    var pd := Node(2, v / 0x4_0000);
    if pd !in dir then 0 else
    var e := mem[dir[pd]][v / 0x200 % ENTRIES];
    if Huge(e) then e else 0
  }

  /** The page-table word of page `v`; 0 when its page table does not exist. */
  ghost function SmallWord(mem: Memory, dir: map<Node, nat>, v: nat): nat
    requires WellSized(mem) && forall n | n in dir :: dir[n] in mem
  {
    var pt := Node(1, v / 0x200);
    if pt !in dir then 0 else mem[dir[pt]][v % ENTRIES]
  }

  /** The flat view: the translation of a page from its two deciding words. */
  function LeafOf(hugeWord: nat, smallWord: nat): Option<Leaf> {
    if Huge(hugeWord) then (if Present(hugeWord) then Some(Leaf(hugeWord, true)) else None)
    else if Present(smallWord) then Some(Leaf(smallWord, false)) else None
  }

  /** The hardware walk over the tree computes the flat view. */
  lemma {:induction false} WalkIsFlat(mem: Memory, root: nat, dir: map<Node, nat>, v: nat)
    requires v < VPN_LIMIT && Tree(mem, root, dir)
    ensures Walk(mem, root, v) == LeafOf(HugeWord(mem, dir, v), SmallWord(mem, dir, v))
  {
    var n3, n2, n1 := Node(3, v / 0x800_0000), Node(2, v / 0x4_0000), Node(1, v / 0x200);
    assert Child(ROOT, v / 0x800_0000) == n3;
    assert Child(n3, v / 0x4_0000 % ENTRIES) == n2;
    assert Child(n2, v / 0x200 % ENTRIES) == n1;
    assert Parent(n2) == n3 && Parent(n1) == n2 && Parent(n3) == ROOT;
    assert SlotOk(mem, dir, ROOT, v / 0x800_0000);
    if n3 in dir {
      assert SlotOk(mem, dir, n3, v / 0x4_0000 % ENTRIES);
      if n2 in dir {
        assert SlotOk(mem, dir, n2, v / 0x200 % ENTRIES);
      }
    }
  }

  // ----- access rights -----

  /** The words that the processor reads on its way to the leaf of page `v`, the leaf's word last. */
  function Path(mem: Memory, root: nat, v: nat): seq<nat>
    requires v < VPN_LIMIT && WellSized(mem)
  {
    if root !in mem then [] else
    var e4 := mem[root][v / 0x800_0000];
    if !Present(e4) || FrameOf(e4) !in mem then [e4] else
    var e3 := mem[FrameOf(e4)][v / 0x4_0000 % ENTRIES];
    if !Present(e3) || FrameOf(e3) !in mem then [e4, e3] else
    var e2 := mem[FrameOf(e3)][v / 0x200 % ENTRIES];
    if !Present(e2) || Huge(e2) || FrameOf(e2) !in mem then [e4, e3, e2] else
    [e4, e3, e2, mem[FrameOf(e2)][v % ENTRIES]]
  }

  /** A page can be written if every word on the path allows it, and reached from user mode likewise (section 4.6 of
      Intel SDM Volume 3A). */
  predicate MayWrite(mem: Memory, root: nat, v: nat)
    requires v < VPN_LIMIT && WellSized(mem)
  {
    Walk(mem, root, v).Some? && forall k | 0 <= k < |Path(mem, root, v)| :: Writable(Path(mem, root, v)[k])
  }

  predicate MayUse(mem: Memory, root: nat, v: nat)
    requires v < VPN_LIMIT && WellSized(mem)
  {
    Walk(mem, root, v).Some? && forall k | 0 <= k < |Path(mem, root, v)| :: User(Path(mem, root, v)[k])
  }

  lemma {:induction false} TableRights(e: nat)
    requires e % PAGE_SIZE == 3
    ensures Present(e) && Writable(e) && !User(e) && !Huge(e)
  {
    var q := e / PAGE_SIZE;
    assert e == q * PAGE_SIZE + 3;
    LowThree(q * 512, 3);
    SumHuge(q, 3);
  }

  /** Every table on the path allows writing and forbids user mode: the leaf alone decides whether the page can be
      written, and no page can be reached from user mode. */
  lemma {:induction false} LeafDecides(mem: Memory, root: nat, dir: map<Node, nat>, v: nat)
    requires v < VPN_LIMIT && Tree(mem, root, dir) && Walk(mem, root, v).Some?
    ensures MayWrite(mem, root, v) <==> Writable(Walk(mem, root, v).value.word)
    ensures !MayUse(mem, root, v)
  {
    var n3, n2 := Node(3, v / 0x800_0000), Node(2, v / 0x4_0000);
    assert Child(ROOT, v / 0x800_0000) == n3 && Child(n3, v / 0x4_0000 % ENTRIES) == n2;
    assert SlotOk(mem, dir, ROOT, v / 0x800_0000);
    assert SlotOk(mem, dir, n3, v / 0x4_0000 % ENTRIES);
    assert SlotOk(mem, dir, n2, v / 0x200 % ENTRIES);
    var path := Path(mem, root, v);
    TableRights(path[0]);
    TableRights(path[1]);
    if |path| == 4 {
      TableRights(path[2]);
    }
    assert Walk(mem, root, v).value.word == path[|path| - 1];
    assert !User(path[0]);
  }

  // ----- the three ways in which the tables are edited -----

  function ZeroTable(): (t: seq<nat>)
    ensures |t| == ENTRIES && forall i | 0 <= i < ENTRIES :: t[i] == 0
  {
    seq(ENTRIES, _ => 0)
  }

  function SetWord(mem: Memory, f: nat, i: nat, e: nat): Memory
    requires f in mem && i < |mem[f]|
  {
    var t: seq<nat> := mem[f][i := e];
    mem[f := t]
  }

  function LinkedMemory(mem: Memory, parent: nat, i: nat, f: nat): Memory
    requires parent in mem && i < |mem[parent]| && f !in mem
  {
    SetWord(mem[f := ZeroTable()], parent, i, TableEntry(f))
  }

  /** Hanging a fresh zeroed table in an empty slot keeps the tree. */
  lemma {:induction false} LinkTable(mem: Memory, root: nat, dir: map<Node, nat>, n: Node, i: nat, f: nat)
    requires Tree(mem, root, dir) && n in dir && n.level >= 2 && i < ENTRIES
    requires !Present(mem[dir[n]][i]) && f % PAGE_SIZE == 0 && f !in mem
    ensures Tree(LinkedMemory(mem, dir[n], i, f), root, dir[Child(n, i) := f])
  {
    var c := Child(n, i);
    var mem' := LinkedMemory(mem, dir[n], i, f);
    var dir' := dir[c := f];
    assert SlotOk(mem, dir, n, i);
    assert c !in dir && Parent(c) == n && InRange(c);
    forall m, j | m in dir' && m.level >= 2 && 0 <= j < ENTRIES
      ensures SlotOk(mem', dir', m, j)
    {
      LinkedSlot(mem, root, dir, n, i, f, m, j);
    }
    forall g | g in mem'
      ensures exists m | m in dir' :: dir'[m] == g
    {
      if g == f {
        assert dir'[c] == f;
      } else {
        var m :| m in dir && dir[m] == g;
        assert dir'[m] == g;
      }
    }
  }

  /** ... and changes no deciding word. */
  lemma {:induction false} LinkTableKeepsWords(mem: Memory, root: nat, dir: map<Node, nat>, n: Node, i: nat, f: nat,
          v: nat)
    requires Tree(mem, root, dir) && n in dir && n.level >= 2 && i < ENTRIES
    requires !Present(mem[dir[n]][i]) && !(n.level == 2 && Huge(mem[dir[n]][i])) && f % PAGE_SIZE == 0 && f !in mem
    requires v < VPN_LIMIT
    ensures var mem' := LinkedMemory(mem, dir[n], i, f);
            var dir' := dir[Child(n, i) := f];
            && Tree(mem', root, dir')
            && HugeWord(mem', dir', v) == HugeWord(mem, dir, v) && SmallWord(mem', dir', v) == SmallWord(mem, dir, v)
  {
    LinkTable(mem, root, dir, n, i, f);
    TableEntryBits(f);
    assert SlotOk(mem, dir, n, i);
    var mem' := LinkedMemory(mem, dir[n], i, f);
    var pd, k := Node(2, v / 0x4_0000), v / 0x200 % ENTRIES;
    if pd in dir && !(pd == n && k == i) {
      assert mem'[dir[pd]][k] == mem[dir[pd]][k];
    }
  }

  lemma {:induction false} LinkedSlot(mem: Memory, root: nat, dir: map<Node, nat>, n: Node, i: nat, f: nat, m: Node,
          j: nat)
    requires Tree(mem, root, dir) && n in dir && n.level >= 2 && i < ENTRIES && Child(n, i) !in dir
    requires f % PAGE_SIZE == 0 && f !in mem
    requires m in dir[Child(n, i) := f] && m.level >= 2 && j < ENTRIES
    ensures SlotOk(LinkedMemory(mem, dir[n], i, f), dir[Child(n, i) := f], m, j)
  {
    TableEntryBits(f);
    var c := Child(n, i);
    if m == c {
      assert Parent(Child(c, j)) == c;
    } else {
      assert SlotOk(mem, dir, m, j);
      if Child(m, j) == c {
        assert m == Parent(c) == n && j == i;
      }
    }
  }

  /** Writing a non-table word over a non-table word of a page directory. */
  lemma {:induction false} SetDirectoryWord(mem: Memory, root: nat, dir: map<Node, nat>, n: Node, i: nat, e: nat)
    requires Tree(mem, root, dir) && n in dir && n.level == 2 && i < ENTRIES
    requires !IsTable(2, mem[dir[n]][i]) && Huge(e)
    ensures var mem' := SetWord(mem, dir[n], i, e);
            && Tree(mem', root, dir)
            && forall v | 0 <= v < VPN_LIMIT ::
                 && HugeWord(mem', dir, v) == (if v / 0x200 == n.prefix * ENTRIES + i then e else HugeWord(mem, dir, v))
                 && SmallWord(mem', dir, v) == SmallWord(mem, dir, v)
  {
    StaysTree(mem, root, dir, n, i, e);
    forall v | 0 <= v < VPN_LIMIT {
      WordsAfter(mem, root, dir, n, i, e, v);
    }
  }

  lemma {:induction false} StaysTree(mem: Memory, root: nat, dir: map<Node, nat>, n: Node, i: nat, e: nat)
    requires Tree(mem, root, dir) && n in dir && n.level == 2 && i < ENTRIES
    requires !IsTable(2, mem[dir[n]][i]) && Huge(e)
    ensures Tree(SetWord(mem, dir[n], i, e), root, dir)
  {
    forall m, j | m in dir && m.level >= 2 && 0 <= j < ENTRIES
      ensures SlotOk(SetWord(mem, dir[n], i, e), dir, m, j)
    {
      assert SlotOk(mem, dir, m, j);
    }
  }

  lemma {:induction false} WordsAfter(mem: Memory, root: nat, dir: map<Node, nat>, n: Node, i: nat, e: nat, v: nat)
    requires Tree(mem, root, dir) && n in dir && n.level == 2 && i < ENTRIES &&
               Tree(SetWord(mem, dir[n], i, e), root, dir) && v < VPN_LIMIT
    requires !IsTable(2, mem[dir[n]][i]) && Huge(e)
    ensures var mem' := SetWord(mem, dir[n], i, e);
            && HugeWord(mem', dir, v) == (if v / 0x200 == n.prefix * ENTRIES + i then e else HugeWord(mem, dir, v))
            && SmallWord(mem', dir, v) == SmallWord(mem, dir, v)
  {
    WhereWord(v, n.prefix, i);
    var pd, pt := Node(2, v / 0x4_0000), Node(1, v / 0x200);
    if pd in dir && pd != n {
      assert SetWord(mem, dir[n], i, e)[dir[pd]] == mem[dir[pd]];
    }
    if pt in dir {
      assert SetWord(mem, dir[n], i, e)[dir[pt]] == mem[dir[pt]];
    }
  }

  lemma {:induction false} WhereWord(v: nat, prefix: nat, i: nat)
    requires i < ENTRIES
    ensures v / 0x200 == prefix * ENTRIES + i <==> v / 0x4_0000 == prefix && v / 0x200 % ENTRIES == i
  {
    assert v / 0x4_0000 == v / 0x200 / ENTRIES;
  }

  /** Writing a word of a page table. */
  lemma {:induction false} SetTableWord(mem: Memory, root: nat, dir: map<Node, nat>, n: Node, i: nat, e: nat)
    requires Tree(mem, root, dir) && n in dir && n.level == 1 && i < ENTRIES
    ensures var mem' := SetWord(mem, dir[n], i, e);
            && Tree(mem', root, dir)
            && forall v | 0 <= v < VPN_LIMIT ::
                 && HugeWord(mem', dir, v) == HugeWord(mem, dir, v)
                 && SmallWord(mem', dir, v) == (if v == n.prefix * ENTRIES + i then e else SmallWord(mem, dir, v))
  {
    LeafStaysTree(mem, root, dir, n, i, e);
    forall v | 0 <= v < VPN_LIMIT {
      LeafWordsAfter(mem, root, dir, n, i, e, v);
    }
  }

  lemma {:induction false} LeafStaysTree(mem: Memory, root: nat, dir: map<Node, nat>, n: Node, i: nat, e: nat)
    requires Tree(mem, root, dir) && n in dir && n.level == 1 && i < ENTRIES
    ensures Tree(SetWord(mem, dir[n], i, e), root, dir)
  {
    forall m, j | m in dir && m.level >= 2 && 0 <= j < ENTRIES
      ensures SlotOk(SetWord(mem, dir[n], i, e), dir, m, j)
    {
      assert SlotOk(mem, dir, m, j);
    }
  }

  lemma {:induction false} LeafWordsAfter(mem: Memory, root: nat, dir: map<Node, nat>, n: Node, i: nat, e: nat, v: nat)
    requires Tree(mem, root, dir) && n in dir && n.level == 1 && i < ENTRIES
    requires Tree(SetWord(mem, dir[n], i, e), root, dir) && v < VPN_LIMIT
    ensures var mem' := SetWord(mem, dir[n], i, e);
            && HugeWord(mem', dir, v) == HugeWord(mem, dir, v)
            && SmallWord(mem', dir, v) == (if v == n.prefix * ENTRIES + i then e else SmallWord(mem, dir, v))
  {
    assert v == v / 0x200 * ENTRIES + v % ENTRIES;
  }
}
