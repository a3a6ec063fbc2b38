/** The pager's simple form: one flat map from page number to the words that decide the page.

    What pager_map, pager_unmap and pager_map_range do to the tables is specified here on the flat map, and their
    properties are proved about it. Module Pager shows that the tree edits refine these functions. */
module FlatMap {
  import opened Common
  import opened PageTables
  import opened Arithmetic

  /** `huge` is the page-directory word if it carries the huge mark (0 otherwise), `small` the page-table word (0 if
      there is no table), `hasTable` whether the page directory points to a table. */
  datatype Slot = Slot(huge: nat, small: nat, hasTable: bool) {
    function Translation(): Option<Leaf> { LeafOf(huge, small) }

    predicate Empty() { this == Slot(0, 0, false) }

    predicate Consistent() {
      && (huge != 0 ==> Huge(huge) && !hasTable)
      && (!hasTable ==> small == 0)
    }
  }

  type Flat = imap<nat, Slot>

  /** Two pages that one page-directory word decides. */
  predicate Together(v: nat, w: nat) { v / ENTRIES == w / ENTRIES }

  ghost predicate Consistent(m: Flat) {
    && (forall v | 0 <= v < VPN_LIMIT :: v in m)
    && (forall v | v in m :: v < VPN_LIMIT && m[v].Consistent())
    && (forall v, w {:trigger Together(v, w)} | v in m && w in m && Together(v, w) ::
          m[v].huge == m[w].huge && m[v].hasTable == m[w].hasTable)
  }

  /** The address `virt` translates to, if it does. */
  ghost function Translate(m: Flat, virt: nat): Option<nat>
    requires Consistent(m)
  {
    var t := m[Vpn(virt)].Translation();
    if t.Some? then Some(t.value.Address(virt)) else None
  }

  // ----- pager_map -----

  datatype Outcome = Refused | Found | Added

  function MapOutcome(s: Slot, phys: nat, flags: nat, physLimit: nat): Outcome {
    if phys >= physLimit then Refused
    else if Huge(flags) then
      if s.hasTable then Refused
      else if !Present(s.huge) then Added
      else if HugeFrameOf(s.huge) == HugeFrameOf(phys) then Found else Refused
    else if Huge(s.huge) then
      if HugeFrameOf(s.huge) == HugeFrameOf(phys) then Found else Refused
    else if !Present(s.small) then Added
    else if FrameOf(s.small) == FrameOf(phys) then Found else Refused
  }

  ghost function AddHuge(m: Flat, v: nat, word: nat): Flat {
    imap w | w in m :: if Together(v, w) then Slot(word, 0, false) else m[w]
  }

  ghost function AddTable(m: Flat, v: nat): Flat {
    imap w | w in m :: if Together(v, w) then m[w].(hasTable := true) else m[w]
  }

  ghost function AddSmall(m: Flat, v: nat, word: nat): Flat {
    var t := AddTable(m, v);
    imap w | w in m :: if w == v then t[w].(small := word) else t[w]
  }

  ghost function MapFlat(m: Flat, v: nat, phys: nat, flags: nat, physLimit: nat): Flat {
    if v !in m || MapOutcome(m[v], phys, flags, physLimit) != Added then m
    else if Huge(flags) then AddHuge(m, v, HugeEntry(phys, flags))
    else AddSmall(m, v, SmallEntry(phys, flags))
  }

  /** The pages that a request for page `v` is about. */
  predicate Requested(v: nat, flags: nat, w: nat) { if Huge(flags) then Together(v, w) else w == v }

  /** Insertion: exactly the requested pages change, all of them were untranslated, and all of them get the new leaf. */
  lemma {:induction false} MapAddsExactly(m: Flat, v: nat, phys: nat, flags: nat, physLimit: nat)
    requires Consistent(m) && v < VPN_LIMIT
    ensures var m' := MapFlat(m, v, phys, flags, physLimit);
            var outcome := MapOutcome(m[v], phys, flags, physLimit);
            && Consistent(m')
            && (outcome != Added ==> m' == m)
            && (outcome == Added ==>
                forall w | w in m ::
                  if Requested(v, flags, w) then
                    && m[w].Translation() == None
                    && m'[w].Translation() ==
                       Some(Leaf(if Huge(flags) then HugeEntry(phys, flags) else SmallEntry(phys, flags), Huge(flags)))
                  else m'[w].Translation() == m[w].Translation())
  {
    HugeEntryBits(phys, flags);
    SmallEntryBits(phys, flags);
  }

  /** The leaf that a map adds: the frame is that of the request, bit 0 is set, and of the low twelve bits the others
      are those of the request. */
  lemma {:induction false} LeafIsAsRequested(m: Flat, v: nat, phys: nat, flags: nat, physLimit: nat)
    requires Consistent(m) && v < VPN_LIMIT && MapOutcome(m[v], phys, flags, physLimit) == Added
    ensures var t := MapFlat(m, v, phys, flags, physLimit)[v].Translation();
            && t.Some? && t.value.huge == Huge(flags)
            && var e := t.value.word;
               && e % 2 == 1 && e % PAGE_SIZE / 2 == flags % PAGE_SIZE / 2
               && (if Huge(flags) then e / HUGE_SIZE == phys / HUGE_SIZE && e % HUGE_SIZE < PAGE_SIZE
                   else e / PAGE_SIZE == phys / PAGE_SIZE)
  {
    MapAddsExactly(m, v, phys, flags, physLimit);
    SmallWordIs(phys, flags);
    HugeWordIs(phys, flags);
  }

  lemma {:induction false} SmallWordIs(phys: nat, flags: nat)
    ensures var e := SmallEntry(phys, flags);
            e % 2 == 1 && e % PAGE_SIZE / 2 == flags % PAGE_SIZE / 2 && e / PAGE_SIZE == phys / PAGE_SIZE
  {
    SumBits(phys / PAGE_SIZE, flags % PAGE_SIZE);
  }

  lemma {:induction false} HugeWordIs(phys: nat, flags: nat)
    ensures var e := HugeEntry(phys, flags);
            && e % 2 == 1 && e % PAGE_SIZE / 2 == flags % PAGE_SIZE / 2
            && e / HUGE_SIZE == phys / HUGE_SIZE && e % HUGE_SIZE < PAGE_SIZE
  {
    var h, low := phys / HUGE_SIZE, flags % PAGE_SIZE;
    OddLow(low);
    SumBits(h * 512, low);
    HugeSum(h, WithPresent(low));
    HugeLow(h, WithPresent(low));
  }

  lemma {:induction false} HugeLow(h: nat, l: nat)
    requires l < PAGE_SIZE
    ensures (h * HUGE_SIZE + l) / HUGE_SIZE == h && (h * HUGE_SIZE + l) % HUGE_SIZE == l
  {
  }

  /** The answer of pager_map, by what the page translated to before. */
  lemma {:induction false} AnswerByTranslation(m: Flat, v: nat, phys: nat, flags: nat, physLimit: nat)
    requires Consistent(m) && v < VPN_LIMIT
    ensures var t, answer := m[v].Translation(), MapOutcome(m[v], phys, flags, physLimit);
            && (phys >= physLimit ==> answer == Refused)
            && (phys < physLimit && Huge(flags) ==>
                  && (answer == Added <==> t.None? && !m[v].hasTable)
                  && (answer == Found <==> t.Some? && t.value.huge && t.value.word / HUGE_SIZE == phys / HUGE_SIZE))
            && (phys < physLimit && !Huge(flags) && !Huge(m[v].huge) ==>
                  && (answer == Added <==> t.None?)
                  && (answer == Found <==> t.Some? && t.value.word / PAGE_SIZE == phys / PAGE_SIZE))
  {
    SameFrame(m[v].huge, phys);
    SameFrame(m[v].small, phys);
  }

  lemma {:induction false} SameFrame(e: nat, phys: nat)
    ensures FrameOf(e) == FrameOf(phys) <==> e / PAGE_SIZE == phys / PAGE_SIZE
    ensures HugeFrameOf(e) == HugeFrameOf(phys) <==> e / HUGE_SIZE == phys / HUGE_SIZE
  {
    assert FrameOf(e) == e / PAGE_SIZE * PAGE_SIZE && FrameOf(phys) == phys / PAGE_SIZE * PAGE_SIZE;
    assert HugeFrameOf(e) == e / HUGE_SIZE * HUGE_SIZE && HugeFrameOf(phys) == phys / HUGE_SIZE * HUGE_SIZE;
  }

  /** No call to pager_map ever alters or drops an existing translation. */
  lemma {:induction false} MapNeverAlters(m: Flat, v: nat, phys: nat, flags: nat, physLimit: nat, w: nat)
    requires Consistent(m) && v < VPN_LIMIT && w < VPN_LIMIT && m[w].Translation().Some?
    ensures MapFlat(m, v, phys, flags, physLimit)[w].Translation() == m[w].Translation()
  {
    MapAddsExactly(m, v, phys, flags, physLimit);
  }

  /** When a 4 KiB request that reports success has made `virt` translate into the page of `phys`: always, except in a
      slot that carries the huge mark, where the code compares 2 MiB frames only. There it holds exactly if the mark is
      present and the two offsets inside the 2 MiB page agree. */
  lemma {:induction false} SmallMapTakesEffect(m: Flat, virt: nat, phys: nat, flags: nat, physLimit: nat)
    requires Consistent(m) && !Huge(flags) && MapOutcome(m[Vpn(virt)], phys, flags, physLimit) != Refused
    ensures var m' := MapFlat(m, Vpn(virt), phys, flags, physLimit);
            var h := m[Vpn(virt)].huge;
            && Consistent(m')
            && ((Translate(m', virt).Some? && FrameOf(Translate(m', virt).value) == FrameOf(phys)) <==>
                (Huge(h) ==> Present(h) && virt / PAGE_SIZE % ENTRIES == phys / PAGE_SIZE % ENTRIES))
  {
    var v := Vpn(virt);
    MapAddsExactly(m, v, phys, flags, physLimit);
    SmallEntryBits(phys, flags);
    SmallAddress(virt, SmallEntry(phys, flags));
    SmallAddress(virt, m[v].small);
    if Huge(m[v].huge) {
      FoundHuge(virt, phys, m[v].huge);
    }
  }

  /** A 2 MiB request that reports success has always made `virt` translate into the 2 MiB page of `phys`. */
  lemma {:induction false} HugeMapTakesEffect(m: Flat, virt: nat, phys: nat, flags: nat, physLimit: nat)
    requires Consistent(m) && Huge(flags) && MapOutcome(m[Vpn(virt)], phys, flags, physLimit) != Refused
    ensures var m' := MapFlat(m, Vpn(virt), phys, flags, physLimit);
            Consistent(m') && Translate(m', virt) == Some(HugeFrameOf(phys) + virt % HUGE_SIZE)
  {
    MapAddsExactly(m, Vpn(virt), phys, flags, physLimit);
    HugeEntryBits(phys, flags);
  }

  lemma {:induction false} SmallAddress(virt: nat, word: nat)
    ensures FrameOf(Leaf(word, false).Address(virt)) == FrameOf(word)
  {
    var q := word / PAGE_SIZE;
    assert Leaf(word, false).Address(virt) == q * PAGE_SIZE + virt % PAGE_SIZE;
  }

  lemma {:induction false} FoundHuge(virt: nat, phys: nat, word: nat)
    requires HugeFrameOf(word) == HugeFrameOf(phys)
    ensures FrameOf(Leaf(word, true).Address(virt)) == FrameOf(phys) <==>
            virt / PAGE_SIZE % ENTRIES == phys / PAGE_SIZE % ENTRIES
  {
    var q := phys / HUGE_SIZE;
    var a := Leaf(word, true).Address(virt);
    assert a == q * HUGE_SIZE + virt % HUGE_SIZE;
    assert a / PAGE_SIZE == q * ENTRIES + virt % HUGE_SIZE / PAGE_SIZE;
    assert virt % HUGE_SIZE / PAGE_SIZE == virt / PAGE_SIZE % ENTRIES by {
      assert virt == virt / HUGE_SIZE * HUGE_SIZE + virt % HUGE_SIZE;
      assert virt / PAGE_SIZE == virt / HUGE_SIZE * ENTRIES + virt % HUGE_SIZE / PAGE_SIZE;
    }
    assert phys / PAGE_SIZE == q * ENTRIES + phys / PAGE_SIZE % ENTRIES by {
      assert phys / PAGE_SIZE / ENTRIES == phys / HUGE_SIZE;
    }
  }

  // ----- pager_unmap -----

  /** pager_unmap clears the present bit and leaves the rest of the word. */
  ghost function UnmapFlat(m: Flat, v: nat): Flat
    requires v in m
  {
    if Huge(m[v].huge) then
      imap w | w in m :: if Together(v, w) then m[w].(huge := ClearPresent(m[w].huge)) else m[w]
    else
      imap w | w in m :: if w == v then m[w].(small := ClearPresent(m[w].small)) else m[w]
  }

  /** Whether pager_unmap reaches its invlpg. */
  predicate UnmapFlushes(s: Slot) { Huge(s.huge) || s.hasTable }

  /** Deletion: exactly the 4 KiB or 2 MiB page that contains the address loses its translation, and whenever a
      translation was lost the page is invalidated. */
  lemma {:induction false} UnmapRemovesExactly(m: Flat, v: nat)
    requires Consistent(m) && v < VPN_LIMIT
    ensures var m' := UnmapFlat(m, v);
            && Consistent(m')
            && (forall w | w in m ::
                  m'[w].Translation() ==
                  if w == v || (Huge(m[v].huge) && Together(v, w)) then None else m[w].Translation())
            && (m[v].Translation().Some? ==> UnmapFlushes(m[v]))
  {
    ClearPresentBits(m[v].huge);
    ClearPresentBits(m[v].small);
  }

  /** Unmapping what was just mapped restores every translation. */
  lemma {:induction false} UnmapUndoesMap(m: Flat, v: nat, phys: nat, flags: nat, physLimit: nat)
    requires Consistent(m) && v < VPN_LIMIT && MapOutcome(m[v], phys, flags, physLimit) == Added
    ensures var m' := MapFlat(m, v, phys, flags, physLimit);
            && Consistent(m')
            && forall w | w in m :: UnmapFlat(m', v)[w].Translation() == m[w].Translation()
  {
    MapAddsExactly(m, v, phys, flags, physLimit);
    UnmapRemovesExactly(MapFlat(m, v, phys, flags, physLimit), v);
    HugeEntryBits(phys, flags);
  }

  /** The slot itself is not restored: after a huge page was mapped and unmapped, its mark stays behind, and no later 4
      KiB request in that slot ever maps a page, whatever it reports. */
  lemma {:induction false} HugeMarkStays(m: Flat, v: nat, phys: nat, flags: nat, physLimit: nat, w: nat, phys': nat,
          flags': nat)
    requires Consistent(m) && v < VPN_LIMIT && w < VPN_LIMIT && Together(v, w)
    requires Huge(flags) && !Huge(flags') && MapOutcome(m[v], phys, flags, physLimit) == Added
    ensures var m' := UnmapFlat(MapFlat(m, v, phys, flags, physLimit), v);
            && MapFlat(m', w, phys', flags', physLimit) == m'
            && m'[w].Translation() == None
            && (MapOutcome(m'[w], phys', flags', physLimit) == Found <==>
                phys' < physLimit && HugeFrameOf(phys') == HugeFrameOf(phys))
  {
    HugeEntryBits(phys, flags);
    ClearPresentBits(HugeEntry(phys, flags));
  }

  /** Both stores keep only the low twelve flag bits, so PAGE_XD (bit 63) never reaches a leaf below 2^63: whether a
      page is executable does not depend on the request. */
  lemma {:induction false} ExecuteDisableIsDropped(phys: nat, flags: nat)
    requires phys < 0x8000_0000_0000_0000
    ensures SmallEntry(phys, flags) < 0x8000_0000_0000_0000 && HugeEntry(phys, flags) < 0x8000_0000_0000_0000
    ensures SmallEntry(phys, flags + 0x8000_0000_0000_0000) == SmallEntry(phys, flags)
    ensures HugeEntry(phys, flags + 0x8000_0000_0000_0000) == HugeEntry(phys, flags)
  {
    BelowXd(phys / PAGE_SIZE, phys % PAGE_SIZE);
    BelowXd(phys / HUGE_SIZE * ENTRIES, phys % HUGE_SIZE);
    assert (flags + 0x8_0000_0000_0000 * PAGE_SIZE) % PAGE_SIZE == flags % PAGE_SIZE;
  }

  lemma {:induction false} BelowXd(q: nat, rest: nat)
    requires q * PAGE_SIZE + rest < 0x8000_0000_0000_0000
    ensures q * PAGE_SIZE + PAGE_SIZE <= 0x8000_0000_0000_0000
  {
  }

  /** Clearing the present bit through the page directory or the page table is UnmapFlat; an empty slot has nothing to
      clear. */
  lemma {:induction false} UnmapSteps(m: Flat, v: nat)
    requires Consistent(m) && v < VPN_LIMIT
    ensures Huge(m[v].huge) ==> UnmapFlat(m, v) == AddHuge(m, v, ClearPresent(m[v].huge))
    ensures m[v].hasTable ==> UnmapFlat(m, v) == AddSmall(m, v, ClearPresent(m[v].small))
    ensures !UnmapFlushes(m[v]) ==> UnmapFlat(m, v) == m
  {
    if m[v].hasTable {
      forall w | w in m
        ensures UnmapFlat(m, v)[w] == AddSmall(m, v, ClearPresent(m[v].small))[w]
      {
      }
    }
  }

  // ----- pager_map_range -----

  function WithHuge(flags: nat): nat { if Huge(flags) then flags else flags + 128 } // flags | PAGE_HUGE

  function Pages(size: nat): nat { (size + PAGE_SIZE - 1) / PAGE_SIZE }

  /** One call of pager_map from the loop of pager_map_range: virtual page, physical page, and the choice. */
  datatype Chunk = Chunk(v: nat, p: nat, huge: bool) {
    function Width(): nat { if huge then ENTRIES else 1 }
  }

  /** The choice, on page numbers: `rest` bytes remain at pages `v` and `p`. */
  predicate TakesHuge(v: nat, p: nat, rest: nat) { rest >= HUGE_SIZE && v % ENTRIES == 0 && p % ENTRIES == 0 }

  /** The calls that the loop makes with `rest` bytes to go. With `mayUseHuge` false it maps page by page. */
  function Chunks(v: nat, p: nat, rest: nat, mayUseHuge: bool): seq<Chunk>
    decreases rest
  {
    if rest == 0 then []
    else if mayUseHuge && TakesHuge(v, p, rest) then
      [Chunk(v, p, true)] + Chunks(v + ENTRIES, p + ENTRIES, rest - HUGE_SIZE, mayUseHuge)
    else
      [Chunk(v, p, false)] + Chunks(v + 1, p + 1, if rest <= PAGE_SIZE then 0 else rest - PAGE_SIZE, mayUseHuge)
  }

  ghost function MapChunk(m: Flat, c: Chunk, flags: nat, physLimit: nat): Flat {
    if c.huge then MapFlat(m, c.v, c.p * PAGE_SIZE, WithHuge(flags), physLimit)
    else MapFlat(m, c.v, c.p * PAGE_SIZE, flags, physLimit)
  }

  ghost function MapChunks(m: Flat, cs: seq<Chunk>, flags: nat, physLimit: nat): Flat {
    if cs == [] then m else MapChunks(MapChunk(m, cs[0], flags, physLimit), cs[1..], flags, physLimit)
  }

  /** The loop reaches the region of page `w` at its start and maps it with one 2 MiB request. */
  predicate HugeHere(v: nat, p: nat, size: nat, w: nat) {
    var r := w - w % ENTRIES;
    r >= v && (p + (r - v)) % ENTRIES == 0 && size >= (r - v) * PAGE_SIZE + HUGE_SIZE
  }

  /** Pages `lo` up to `hi` have no translation and no huge mark; their regions may keep emptied tables. */
  ghost predicate Untranslated(m: Flat, lo: nat, hi: nat)
    requires Consistent(m) && hi <= VPN_LIMIT
  {
    forall v | lo <= v < hi :: m[v].huge == 0 && !Present(m[v].small)
  }

  /** Leaf `t` gives page `v` the physical page number `p`. */
  predicate Serves(t: Option<Leaf>, v: nat, p: int) {
    t.Some? && p == if t.value.huge then t.value.word / HUGE_SIZE * ENTRIES + v % ENTRIES else t.value.word / PAGE_SIZE
  }

  lemma {:induction false} ServedAddress(t: Leaf, virt: nat, p: nat)
    requires Serves(Some(t), Vpn(virt), p)
    ensures t.Address(virt) == p * PAGE_SIZE + virt % PAGE_SIZE
  {
    LowDigits(virt);
  }

  lemma {:induction false} ServedTranslation(m: Flat, virt: nat, v: nat, p: nat)
    requires Consistent(m) && v == Vpn(virt) && Serves(m[v].Translation(), v, p)
    ensures Translate(m, virt) == Some(p * PAGE_SIZE + virt % PAGE_SIZE)
  {
    ServedAddress(m[v].Translation().value, virt, p);
  }

  lemma {:induction false} LowDigits(a: nat)
    ensures a % HUGE_SIZE == Vpn(a) % ENTRIES * PAGE_SIZE + a % PAGE_SIZE
  {
    var p := a / PAGE_SIZE;
    PageDigits(p);
    HugeDigits(p / ENTRIES, p % ENTRIES, a % PAGE_SIZE);
    assert p == p / ENTRIES * ENTRIES + p % ENTRIES;
    assert a == p / ENTRIES * HUGE_SIZE + (p % ENTRIES * PAGE_SIZE + a % PAGE_SIZE);
  }

  lemma {:induction false} PageDigits(p: nat)
    ensures p % VPN_LIMIT % ENTRIES == p % ENTRIES
  {
    ModAdd(p / VPN_LIMIT * 0x800_0000, p % VPN_LIMIT, ENTRIES);
    assert p == ENTRIES * (p / VPN_LIMIT * 0x800_0000) + p % VPN_LIMIT;
  }

  lemma {:induction false} HugeDigits(q: nat, r: nat, t: nat)
    requires r < ENTRIES && t < PAGE_SIZE
    ensures (q * HUGE_SIZE + (r * PAGE_SIZE + t)) % HUGE_SIZE == r * PAGE_SIZE + t
  {
  }

  lemma {:induction false} RegionOf(v: nat, w: nat)
    requires v % ENTRIES == 0
    ensures Together(v, w) <==> v <= w < v + ENTRIES
    ensures v <= w < v + ENTRIES ==> w % ENTRIES == w - v
  {
  }

  /** The outcome for one page of a range at distance `d`: it is served, or it stays without a translation. */
  predicate PageDone(t: Option<Leaf>, w: nat, d: int, blocked: bool) {
    if blocked then t == None else Serves(t, w, w + d)
  }

  /** What a range leaves behind: the pages from `lo` to `hi` are served at distance `d`, except the blocked ones; the
      others are untouched. */
  ghost predicate RangeDone(m: Flat, m': Flat, lo: nat, hi: nat, d: int, blocked: iset<nat>)
    requires Consistent(m) && Consistent(m') && hi <= VPN_LIMIT
  {
    && (forall w | lo <= w < hi :: PageDone(m'[w].Translation(), w, d, w in blocked))
    && OutsideKept(m, m', lo, hi)
  }

  ghost predicate OutsideKept(m: Flat, m': Flat, lo: nat, hi: nat)
    requires Consistent(m) && Consistent(m')
  {
    forall w | w in m && !(lo <= w < hi) :: m'[w].Translation() == m[w].Translation()
  }

  ghost function AllIf(m: Flat, b: bool): iset<nat> { iset w | w in m && b }

  /** What the rest of the loop needs of the step from page `lo` to page `mid`. */
  ghost predicate RestKept(m: Flat, m': Flat, mid: nat, hi: nat)
    requires Consistent(m) && Consistent(m') && hi <= VPN_LIMIT
  {
    Untranslated(m', mid, hi) && forall w | mid <= w < hi && w - w % ENTRIES >= mid :: m'[w].hasTable == m[w].hasTable
  }

  /** One 4 KiB step of the loop, on page numbers. */
  lemma {:induction false} SmallStep(m: Flat, v: nat, hi: nat, p: nat, d: int, flags: nat, physLimit: nat)
    requires p == v + d && Consistent(m) && v < hi <= VPN_LIMIT && Untranslated(m, v, hi)
    requires p * PAGE_SIZE < physLimit && !Huge(flags)
    ensures var m' := MapFlat(m, v, p * PAGE_SIZE, flags, physLimit);
            Consistent(m') && RestKept(m, m', v + 1, hi) && RangeDone(m, m', v, v + 1, d, AllIf(m, false))
  {
    var word := SmallEntry(p * PAGE_SIZE, flags);
    assert MapFlat(m, v, p * PAGE_SIZE, flags, physLimit) == AddSmall(m, v, word);
    SmallWordPage(p, flags);
    SmallAdded(m, v, word, d);
    SmallRest(m, v, hi, word);
  }

  lemma {:induction false} SmallWordPage(p: nat, flags: nat)
    ensures var word := SmallEntry(p * PAGE_SIZE, flags); Present(word) && word / PAGE_SIZE == p
  {
    SumBits(p, flags % PAGE_SIZE);
  }

  lemma {:induction false} SmallAdded(m: Flat, v: nat, word: nat, d: int)
    requires Consistent(m) && v < VPN_LIMIT && m[v].huge == 0 && Present(word) && word / PAGE_SIZE == v + d
    ensures Consistent(AddSmall(m, v, word)) && RangeDone(m, AddSmall(m, v, word), v, v + 1, d, AllIf(m, false))
  {
  }

  lemma {:induction false} SmallRest(m: Flat, v: nat, hi: nat, word: nat)
    requires Consistent(m) && v < hi <= VPN_LIMIT && Untranslated(m, v, hi) && Consistent(AddSmall(m, v, word))
    ensures RestKept(m, AddSmall(m, v, word), v + 1, hi)
  {
    forall w | v + 1 <= w < hi && w - w % ENTRIES >= v + 1
      ensures !Together(v, w)
    {
      LaterRegion(v, w);
    }
  }

  lemma {:induction false} LaterRegion(v: nat, w: nat)
    requires w - w % ENTRIES > v
    ensures !Together(v, w)
  {
    assert w - w % ENTRIES == w / ENTRIES * ENTRIES;
  }

  /** One 2 MiB step of the loop: it maps its 512 pages, or none of them if the region still has a table. */
  lemma {:induction false} HugeStep(m: Flat, v: nat, hi: nat, p: nat, d: int, flags: nat, physLimit: nat)
    requires p == v + d && Consistent(m) && v + ENTRIES <= hi <= VPN_LIMIT && Untranslated(m, v, hi)
    requires p * PAGE_SIZE < physLimit && Huge(flags) && v % ENTRIES == 0 && p % ENTRIES == 0
    ensures var m' := MapFlat(m, v, p * PAGE_SIZE, flags, physLimit);
            && Consistent(m') && RestKept(m, m', v + ENTRIES, hi)
            && RangeDone(m, m', v, v + ENTRIES, d, AllIf(m, m[v].hasTable))
  {
    var m' := MapFlat(m, v, p * PAGE_SIZE, flags, physLimit);
    MapAddsExactly(m, v, p * PAGE_SIZE, flags, physLimit);
    HugeWordPage(p, flags);
    forall w: nat {
      RegionOf(v, w);
    }
    if m[v].hasTable {
      assert m' == m;
    } else {
      HugeRest(m, v, hi, HugeEntry(p * PAGE_SIZE, flags));
    }
  }

  lemma {:induction false} HugeRest(m: Flat, v: nat, hi: nat, word: nat)
    requires Consistent(m) && v + ENTRIES <= hi <= VPN_LIMIT && v % ENTRIES == 0 && Untranslated(m, v, hi)
    requires Consistent(AddHuge(m, v, word))
    ensures RestKept(m, AddHuge(m, v, word), v + ENTRIES, hi)
  {
    forall w: nat {
      RegionOf(v, w);
    }
  }

  lemma {:induction false} HugeWordPage(p: nat, flags: nat)
    requires p % ENTRIES == 0
    ensures HugeEntry(p * PAGE_SIZE, flags) / HUGE_SIZE * ENTRIES == p
  {
    var q := p / ENTRIES;
    assert p == q * ENTRIES && p * PAGE_SIZE == q * HUGE_SIZE;
    HugeEntryBits(p * PAGE_SIZE, flags);
  }

  lemma {:induction false} WithHugeIsHuge(flags: nat)
    ensures Huge(WithHuge(flags))
  {
    DivAdd(1, flags, 128);
  }

  /** ... and all other bits stay. */
  lemma {:induction false} WithHugeKeepsTheRest(flags: nat)
    ensures WithHuge(flags) % 128 == flags % 128 && WithHuge(flags) / 256 == flags / 256
  {
    DivAdd(1, flags, 128);
    ModAdd(1, flags, 128);
    if !Huge(flags) {
      var q, l := flags / 256, flags % 256;
      assert flags / 128 == 2 * q + l / 128 by { DivAdd(2 * q, l, 128); }
      DivUnique(flags + 128, 256, q, l + 128);
    }
  }

  // ----- the whole range -----

  /** The flat map after pager_map_range. */
  ghost function RangeFlat(m: Flat, v: nat, p: nat, size: nat, flags: nat, physLimit: nat, mayUseHuge: bool): Flat {
    MapChunks(m, Chunks(v, p, size, mayUseHuge), flags, physLimit)
  }

  /** The pages that the range leaves out: those of a 2 MiB request into a region that still has a table. */
  ghost function Blocked(m: Flat, v: nat, p: nat, size: nat, mayUseHuge: bool): iset<nat> {
    iset w | w in m && mayUseHuge && HugeHere(v, p, size, w) && m[w].hasTable
  }

  /** The pages of the next step. */
  function NextWidth(v: nat, p: nat, size: nat, mayUseHuge: bool): nat {
    if mayUseHuge && TakesHuge(v, p, size) then ENTRIES else 1
  }

  /** The rest of the bytes after a step of `k` pages. */
  function After(size: nat, k: nat): nat { if size <= k * PAGE_SIZE then 0 else size - k * PAGE_SIZE }

  lemma {:induction false} PagesAfter(size: nat, k: nat)
    requires k <= Pages(size)
    ensures Pages(After(size, k)) == Pages(size) - k
  {
    if size <= k * PAGE_SIZE {
      assert size + PAGE_SIZE - 1 < (k + 1) * PAGE_SIZE;
    } else {
      assert size + PAGE_SIZE - 1 == (size - k * PAGE_SIZE + PAGE_SIZE - 1) + k * PAGE_SIZE;
    }
  }

  /** Which pages get a 2 MiB request does not depend on where the loop has got to. */
  lemma {:induction false} HugeHereLater(v: nat, p: nat, size: nat, k: nat, w: nat)
    requires v + k <= w - w % ENTRIES
    ensures HugeHere(v, p, size, w) <==> HugeHere(v + k, p + k, After(size, k), w)
  {
  }

  /** A page behind the step whose region starts before the step's end was reached in the middle. */
  lemma {:induction false} NotHugeLater(v: nat, p: nat, size: nat, w: nat)
    requires v < w && w - w % ENTRIES <= v && !TakesHuge(v, p, size)
    ensures !HugeHere(v, p, size, w) && !HugeHere(v + 1, p + 1, After(size, 1), w)
  {
  }

  /** The blocked pages of the rest are those of the whole range behind the step. */
  lemma {:induction false} BlockedLater(m: Flat, m1: Flat, v: nat, p: nat, size: nat, k: nat, hi: nat, mayUseHuge: bool,
          w: nat)
    requires Consistent(m) && Consistent(m1) && hi <= VPN_LIMIT && RestKept(m, m1, v + k, hi) && v + k <= w < hi
    requires k == NextWidth(v, p, size, mayUseHuge)
    ensures w in Blocked(m1, v + k, p + k, After(size, k), mayUseHuge) <==> w in Blocked(m, v, p, size, mayUseHuge)
  {
    if k == ENTRIES {
      RegionStart(v + k, w);
    }
    if v + k <= w - w % ENTRIES {
      HugeHereLater(v, p, size, k, w);
    } else if mayUseHuge {
      NotHugeLater(v, p, size, w);
    }
  }

  lemma {:induction false} RegionStart(r: nat, w: nat)
    requires r % ENTRIES == 0 && r <= w
    ensures r <= w - w % ENTRIES
  {
  }

  /** The pages of the step itself. */
  lemma {:induction false} BlockedHere(m: Flat, v: nat, p: nat, size: nat, mayUseHuge: bool, k: nat, w: nat)
    requires Consistent(m) && v + k <= VPN_LIMIT && v <= w < v + k
    requires k == NextWidth(v, p, size, mayUseHuge)
    ensures w in Blocked(m, v, p, size, mayUseHuge) <==> w in AllIf(m, k == ENTRIES && m[v].hasTable)
  {
    if k == ENTRIES {
      RegionOf(v, w);
      assert w - w % ENTRIES == v;
    }
  }

  /** Later steps keep what earlier steps did. */
  lemma {:induction false} RangeJoin(m: Flat, m1: Flat, m': Flat, lo: nat, mid: nat, hi: nat, d: int, here: iset<nat>,
          later: iset<nat>, all: iset<nat>)
    requires Consistent(m) && Consistent(m1) && Consistent(m') && lo <= mid <= hi <= VPN_LIMIT
    requires RangeDone(m, m1, lo, mid, d, here) && RangeDone(m1, m', mid, hi, d, later)
    requires (forall w | lo <= w < mid :: w in all <==> w in here) && (forall w | mid <= w < hi :: w in all <==>
               w in later)
    ensures RangeDone(m, m', lo, hi, d, all)
  {
  }

  /** These are the calls of the loop with `size` bytes to go. */
  predicate Calls(cs: seq<Chunk>, v: nat, p: nat, size: nat, mayUseHuge: bool) {
    if cs == [] then size == 0
    else
      var k := NextWidth(v, p, size, mayUseHuge);
      size > 0 && cs[0] == Chunk(v, p, k == ENTRIES) && Calls(cs[1..], v + k, p + k, After(size, k), mayUseHuge)
  }

  lemma {:induction false} ChunksAreCalls(v: nat, p: nat, size: nat, mayUseHuge: bool)
    ensures Calls(Chunks(v, p, size, mayUseHuge), v, p, size, mayUseHuge)
    decreases size
  {
    if size == 0 {
      assert Chunks(v, p, size, mayUseHuge) == [];
    } else {
      var k := NextWidth(v, p, size, mayUseHuge);
      var rest := Chunks(v + k, p + k, After(size, k), mayUseHuge);
      assert Chunks(v, p, size, mayUseHuge) == [Chunk(v, p, k == ENTRIES)] + rest;
      assert Chunks(v, p, size, mayUseHuge)[1..] == rest;
      ChunksAreCalls(v + k, p + k, After(size, k), mayUseHuge);
    }
  }

  lemma {:induction false} RangeStep(m: Flat, v: nat, p: nat, hi: nat, flags: nat, physLimit: nat, k: nat, d: int)
    requires d == p - v && Consistent(m) && v + k <= hi <= VPN_LIMIT && (p + k) * PAGE_SIZE <= physLimit &&
               !Huge(flags) && Untranslated(m, v, hi)
    requires k == 1 || (k == ENTRIES && v % ENTRIES == 0 && p % ENTRIES == 0)
    ensures var m1 := MapChunk(m, Chunk(v, p, k == ENTRIES), flags, physLimit);
            && Consistent(m1) && RestKept(m, m1, v + k, hi)
            && RangeDone(m, m1, v, v + k, d, AllIf(m, k == ENTRIES && m[v].hasTable))
  {
    if k == ENTRIES {
      WithHugeIsHuge(flags);
      HugeStep(m, v, hi, p, d, WithHuge(flags), physLimit);
    } else {
      SmallStep(m, v, hi, p, d, flags, physLimit);
    }
  }

  /** The first step and the rest together. */
  lemma {:induction false} RangeComposes(m: Flat, m1: Flat, m': Flat, v: nat, p: nat, size: nat, mayUseHuge: bool,
          k: nat, hi: nat, d: int)
    requires Consistent(m) && Consistent(m1) && Consistent(m') && v + k <= hi <= VPN_LIMIT && RestKept(m, m1, v + k, hi)
    requires k == NextWidth(v, p, size, mayUseHuge)
    requires RangeDone(m, m1, v, v + k, d, AllIf(m, k == ENTRIES && m[v].hasTable))
    requires RangeDone(m1, m', v + k, hi, d, Blocked(m1, v + k, p + k, After(size, k), mayUseHuge))
    ensures RangeDone(m, m', v, hi, d, Blocked(m, v, p, size, mayUseHuge))
  {
    var all, here := Blocked(m, v, p, size, mayUseHuge), AllIf(m, k == ENTRIES && m[v].hasTable);
    var later := Blocked(m1, v + k, p + k, After(size, k), mayUseHuge);
    forall w | v <= w < v + k
      ensures w in all <==> w in here
    {
      BlockedHere(m, v, p, size, mayUseHuge, k, w);
    }
    forall w | v + k <= w < hi
      ensures w in all <==> w in later
    {
      BlockedLater(m, m1, v, p, size, k, hi, mayUseHuge, w);
    }
    RangeJoin(m, m1, m', v, v + k, hi, d, here, later, all);
  }

  /** A range within the limits, onto pages without a translation and without a huge mark. */
  ghost predicate RangeFits(m: Flat, v: nat, p: nat, size: nat, flags: nat, physLimit: nat) {
    && Consistent(m) && v + Pages(size) <= VPN_LIMIT && (p + Pages(size)) * PAGE_SIZE <= physLimit && !Huge(flags)
    && Untranslated(m, v, v + Pages(size))
  }

  lemma {:induction false} RestFits(m: Flat, m1: Flat, v: nat, p: nat, size: nat, flags: nat, physLimit: nat, k: nat,
          hi: nat)
    requires RangeFits(m, v, p, size, flags, physLimit) && k <= Pages(size) && hi == v + Pages(size)
    requires Consistent(m1) && RestKept(m, m1, v + k, hi)
    ensures RangeFits(m1, v + k, p + k, After(size, k), flags, physLimit) && v + k + Pages(After(size, k)) == hi
  {
    PagesAfter(size, k);
  }

  lemma {:induction false} WidthFits(v: nat, p: nat, size: nat, mayUseHuge: bool)
    requires size > 0
    ensures NextWidth(v, p, size, mayUseHuge) <= Pages(size)
  {
  }

  /** The first call of the loop, and what it leaves for the rest. */
  lemma {:induction false} FirstStep(m: Flat, v: nat, p: nat, size: nat, flags: nat, physLimit: nat, mayUseHuge: bool,
          k: nat, hi: nat, d: int)
    requires RangeFits(m, v, p, size, flags, physLimit) && size > 0 && hi == v + Pages(size) && d == p - v
    requires k == NextWidth(v, p, size, mayUseHuge)
    ensures var m1 := MapChunk(m, Chunk(v, p, k == ENTRIES), flags, physLimit);
            && v + k <= hi && RangeFits(m1, v + k, p + k, After(size, k), flags, physLimit) &&
               v + k + Pages(After(size, k)) == hi
            && RestKept(m, m1, v + k, hi) && RangeDone(m, m1, v, v + k, d, AllIf(m, k == ENTRIES && m[v].hasTable))
  {
    WidthFits(v, p, size, mayUseHuge);
    RangeStep(m, v, p, hi, flags, physLimit, k, d);
    RestFits(m, MapChunk(m, Chunk(v, p, k == ENTRIES), flags, physLimit), v, p, size, flags, physLimit, k, hi);
  }

  /** The calls for `size` bytes from page `v`, onto a map that they fit, have led from `m` to `m'`. */
  ghost predicate Ranged(m: Flat, m': Flat, v: nat, p: nat, size: nat, flags: nat, physLimit: nat, mayUseHuge: bool,
          hi: nat, d: int) {
    RangeFits(m, v, p, size, flags, physLimit) && hi == v + Pages(size) && d == p - v ==>
      Consistent(m') && RangeDone(m, m', v, hi, d, Blocked(m, v, p, size, mayUseHuge))
  }

  lemma {:induction false} StepThenRest(m: Flat, m1: Flat, m': Flat, v: nat, p: nat, size: nat, flags: nat,
          physLimit: nat, mayUseHuge: bool,
                                        k: nat, hi: nat, d: int)
    requires size > 0 && k == NextWidth(v, p, size, mayUseHuge) &&
               m1 == MapChunk(m, Chunk(v, p, k == ENTRIES), flags, physLimit)
    requires Ranged(m1, m', v + k, p + k, After(size, k), flags, physLimit, mayUseHuge, hi, d)
    ensures Ranged(m, m', v, p, size, flags, physLimit, mayUseHuge, hi, d)
  {
    if RangeFits(m, v, p, size, flags, physLimit) && hi == v + Pages(size) && d == p - v {
      FirstStep(m, v, p, size, flags, physLimit, mayUseHuge, k, hi, d);
      RangeComposes(m, m1, m', v, p, size, mayUseHuge, k, hi, d);
    }
  }

  lemma {:induction false} ChunksOutcome(m: Flat, cs: seq<Chunk>, v: nat, p: nat, size: nat, flags: nat, physLimit: nat,
          mayUseHuge: bool, hi: nat, d: int)
    requires Calls(cs, v, p, size, mayUseHuge)
    ensures Ranged(m, MapChunks(m, cs, flags, physLimit), v, p, size, flags, physLimit, mayUseHuge, hi, d)
    decreases cs
  {
    if cs == [] {
    } else {
      var k := NextWidth(v, p, size, mayUseHuge);
      var m1 := MapChunk(m, cs[0], flags, physLimit);
      ChunksOutcome(m1, cs[1..], v + k, p + k, After(size, k), flags, physLimit, mayUseHuge, hi, d);
      StepThenRest(m, m1, MapChunks(m1, cs[1..], flags, physLimit), v, p, size, flags, physLimit, mayUseHuge, k, hi, d);
    }
  }

  /** What pager_map_range does to pages without a translation and without a huge mark, page by page or with the
      huge/small choice: every page of the rounded-up range is mapped at its own offset, except exactly the blocked
      ones, which stay without a translation; and no translation outside changes. */
  lemma {:induction false} RangeIsExact(m: Flat, v: nat, p: nat, size: nat, flags: nat, physLimit: nat,
          mayUseHuge: bool)
    requires RangeFits(m, v, p, size, flags, physLimit)
    ensures var m' := RangeFlat(m, v, p, size, flags, physLimit, mayUseHuge);
            Consistent(m') && RangeDone(m, m', v, v + Pages(size), p - v, Blocked(m, v, p, size, mayUseHuge))
  {
    ChunksAreCalls(v, p, size, mayUseHuge);
    ChunksOutcome(m, Chunks(v, p, size, mayUseHuge), v, p, size, flags, physLimit, mayUseHuge, v + Pages(size), p - v);
  }

  lemma {:induction false} RangeResult(m: Flat, v: nat, p: nat, size: nat, flags: nat, physLimit: nat, mayUseHuge: bool)
    returns (m': Flat)
    requires RangeFits(m, v, p, size, flags, physLimit)
    ensures m' == RangeFlat(m, v, p, size, flags, physLimit, mayUseHuge) && Consistent(m')
    ensures RangeDone(m, m', v, v + Pages(size), p - v, Blocked(m, v, p, size, mayUseHuge))
  {
    RangeIsExact(m, v, p, size, flags, physLimit, mayUseHuge);
    m' := RangeFlat(m, v, p, size, flags, physLimit, mayUseHuge);
  }

  /** The address at distance `d` pages. */
  function Shifted(a: nat, d: int): Option<nat> {
    if Vpn(a) + d >= 0 then Some((Vpn(a) + d) * PAGE_SIZE + a % PAGE_SIZE) else None
  }

  ghost predicate NoneBlocked(lo: nat, hi: nat, blocked: iset<nat>) { forall w | lo <= w < hi :: w !in blocked }

  lemma {:induction false} VpnOfPage(w: nat)
    requires w < VPN_LIMIT
    ensures Vpn(w * PAGE_SIZE) == w
  {
  }

  lemma {:induction false} DoneTranslates(m: Flat, m': Flat, lo: nat, hi: nat, d: int, a: nat, v: nat,
          blocked: iset<nat>)
    requires Consistent(m) && Consistent(m') && hi <= VPN_LIMIT && RangeDone(m, m', lo, hi, d, blocked) && lo + d >= 0
    requires v == Vpn(a) && lo <= v < hi
    ensures if v in blocked then Translate(m', a) == None else Translate(m', a) == Shifted(a, d)
  {
    if v !in blocked {
      ServedTranslation(m', a, v, v + d);
    }
  }

  lemma {:induction false} BytesOfRange(m: Flat, m': Flat, lo: nat, hi: nat, d: int, blocked: iset<nat>)
    requires Consistent(m) && Consistent(m') && hi <= VPN_LIMIT && RangeDone(m, m', lo, hi, d, blocked) && lo + d >= 0
    ensures forall a: nat | lo <= Vpn(a) < hi :: Translate(m', a) == if Vpn(a) in blocked then None else Shifted(a, d)
  {
    forall a: nat | lo <= Vpn(a) < hi
      ensures Translate(m', a) == if Vpn(a) in blocked then None else Shifted(a, d)
    {
      DoneTranslates(m, m', lo, hi, d, a, Vpn(a), blocked);
    }
  }

  /** Every byte of the range translates to its own offset, except exactly those that a 2 MiB request into a region with
      a table leaves out, which translate to nothing; and no translation outside ever changes. */
  lemma {:induction false} RangeMapsEveryByte(m: Flat, v: nat, p: nat, size: nat, flags: nat, physLimit: nat,
          mayUseHuge: bool)
    requires RangeFits(m, v, p, size, flags, physLimit)
    ensures var m' := RangeFlat(m, v, p, size, flags, physLimit, mayUseHuge);
            && Consistent(m') && OutsideKept(m, m', v, v + Pages(size))
            && forall a: nat | v <= Vpn(a) < v + Pages(size) ::
                 Translate(m', a) == if Vpn(a) in Blocked(m, v, p, size, mayUseHuge) then None else Shifted(a, p - v)
  {
    RangeIsExact(m, v, p, size, flags, physLimit, mayUseHuge);
    BytesOfRange(m, RangeFlat(m, v, p, size, flags, physLimit, mayUseHuge), v, v + Pages(size), p - v,
        Blocked(m, v, p, size, mayUseHuge));
  }

  lemma {:induction false} SameTranslation(m: Flat, fast: Flat, simple: Flat, lo: nat, hi: nat, d: int,
          blocked: iset<nat>, none: iset<nat>, a: nat)
    requires Consistent(m) && Consistent(fast) && Consistent(simple) && hi <= VPN_LIMIT && lo + d >= 0
    requires RangeDone(m, fast, lo, hi, d, blocked) && RangeDone(m, simple, lo, hi, d, none) &&
               NoneBlocked(lo, hi, none)
    ensures Translate(fast, a) == Translate(simple, a) <==> !(lo <= Vpn(a) < hi && Vpn(a) in blocked)
  {
    if lo <= Vpn(a) < hi {
      DoneTranslates(m, fast, lo, hi, d, a, Vpn(a), blocked);
      DoneTranslates(m, simple, lo, hi, d, a, Vpn(a), none);
    }
  }

  lemma {:induction false} SameEverywhereIff(m: Flat, fast: Flat, simple: Flat, lo: nat, hi: nat, d: int,
          blocked: iset<nat>, none: iset<nat>)
    requires Consistent(m) && Consistent(fast) && Consistent(simple) && hi <= VPN_LIMIT && lo + d >= 0
    requires RangeDone(m, fast, lo, hi, d, blocked) && RangeDone(m, simple, lo, hi, d, none) &&
               NoneBlocked(lo, hi, none)
    ensures (forall a: nat :: Translate(fast, a) == Translate(simple, a)) <==> NoneBlocked(lo, hi, blocked)
  {
    if w :| lo <= w < hi && w in blocked {
      VpnOfPage(w);
      SameTranslation(m, fast, simple, lo, hi, d, blocked, none, w * PAGE_SIZE);
      assert Translate(fast, w * PAGE_SIZE) != Translate(simple, w * PAGE_SIZE);
    } else {
      forall a: nat
        ensures Translate(fast, a) == Translate(simple, a)
      {
        SameTranslation(m, fast, simple, lo, hi, d, blocked, none, a);
      }
    }
  }

  /** The huge/small choice refines page-by-page mapping if and only if no 2 MiB request meets a region that still has a
      table: then both give the same translation to every address. */
  lemma {:induction false} RangeRefinesPagewise(m: Flat, v: nat, p: nat, size: nat, flags: nat, physLimit: nat)
    requires RangeFits(m, v, p, size, flags, physLimit)
    ensures var fast := RangeFlat(m, v, p, size, flags, physLimit, true);
            var simple := RangeFlat(m, v, p, size, flags, physLimit, false);
            && Consistent(fast) && Consistent(simple)
            && ((forall a: nat :: Translate(fast, a) == Translate(simple, a)) <==>
                NoneBlocked(v, v + Pages(size), Blocked(m, v, p, size, true)))
  {
    var fast := RangeResult(m, v, p, size, flags, physLimit, true);
    var simple := RangeResult(m, v, p, size, flags, physLimit, false);
    SameEverywhereIff(m, fast, simple, v, v + Pages(size), p - v, Blocked(m, v, p, size, true),
        Blocked(m, v, p, size, false));
  }

  /** A region after a 4 KiB page was mapped in it, while it was empty, and unmapped again: an emptied table stays. */
  lemma {:induction false} EmptiedTableStays(m: Flat, v: nat, w: nat, phys: nat, flags: nat, physLimit: nat)
    requires Consistent(m) && v + ENTRIES <= VPN_LIMIT && v % ENTRIES == 0 && v <= w < v + ENTRIES
    requires (forall u | v <= u < v + ENTRIES :: m[u].Empty()) && phys < physLimit && !Huge(flags)
    ensures var m' := UnmapFlat(MapFlat(m, w, phys, flags, physLimit), w);
            Consistent(m') && forall u | v <= u < v + ENTRIES ::
              m'[u].hasTable && m'[u].huge == 0 && !Present(m'[u].small)
  {
    MapAddsExactly(m, w, phys, flags, physLimit);
    SmallEntryBits(phys, flags);
    UnmapRemovesExactly(MapFlat(m, w, phys, flags, physLimit), w);
    ClearPresentBits(SmallEntry(phys, flags));
    forall u | v <= u < v + ENTRIES
      ensures Together(w, u)
    {
      RegionOf(v, u);
      RegionOf(v, w);
    }
  }

  /** A region that keeps an emptied table: mapping all of it as one range does nothing, although no page of it is
      translated and every single page of it could be mapped. */
  lemma {:induction false} EmptiedTableBlocksRange(m: Flat, v: nat, p: nat, flags: nat, physLimit: nat)
    requires Consistent(m) && v + ENTRIES <= VPN_LIMIT && v % ENTRIES == 0 && p % ENTRIES == 0 && !Huge(flags)
    requires forall u | v <= u < v + ENTRIES :: m[u].hasTable && m[u].huge == 0 && !Present(m[u].small)
    ensures RangeFlat(m, v, p, HUGE_SIZE, flags, physLimit, true) == m
    ensures forall u | v <= u < v + ENTRIES ::
              m[u].Translation() == None &&
              ((p + (u - v)) * PAGE_SIZE < physLimit ==>
                  MapOutcome(m[u], (p + (u - v)) * PAGE_SIZE, flags, physLimit) == Added)
  {
    WithHugeIsHuge(flags);
    OneHugeChunk(v, p);
    var c := Chunk(v, p, true);
    assert m[v].hasTable;
    assert MapChunk(m, c, flags, physLimit) == m;
    assert [c][1..] == [];
    assert MapChunks(m, [c], flags, physLimit) == MapChunks(m, [], flags, physLimit);
  }

  lemma {:induction false} OneHugeChunk(v: nat, p: nat)
    requires v % ENTRIES == 0 && p % ENTRIES == 0
    ensures Chunks(v, p, HUGE_SIZE, true) == [Chunk(v, p, true)]
  {
    assert Chunks(v + ENTRIES, p + ENTRIES, 0, true) == [];
  }
}
