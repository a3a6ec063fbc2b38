/** What tearing down the page tables does to the physical allocator (Kernel/mm/pager.c:305-322 calling
    Kernel/mm/avmf.c:904-947 for every table frame). */
module Reclaim {
  import opened Common
  import opened PageTables
  import Teardown
  import opened PhysicalSpec

  /** Freeing what destroy_table frees clears precisely the bits of the table frames that lie in a region: no mapped
      data frame and no other page loses its bit. */
  lemma {:induction false} TeardownReturnsItsFrames(mem: Memory, root: nat, dir: map<Node, nat>, s: Phys, q: nat)
    requires Tree(mem, root, dir)
    ensures var after := FreeEach(s, Teardown.Order(mem, root, 4));
            q in after.bits <==> q in s.bits && !(InSomeRegion(s.regions, q) && IsTableFrame(mem, q))
  {
    var freed := Teardown.Order(mem, root, 4);
    Teardown.TeardownFreesEachTableOnce(mem, root, dir);
    FreeEachClears(s, freed, q);
    if IsTableFrame(mem, q) {
      var f :| f in mem && f / PAGE_SIZE == q;
      var i :| 0 <= i < |freed| && freed[i] == f;
    }
    if Names(freed, q) {
      var i :| 0 <= i < |freed| && freed[i] / PAGE_SIZE == q;
      assert freed[i] in mem;
    }
  }

  ghost predicate IsTableFrame(mem: Memory, q: nat) { exists f :: f in mem && f / PAGE_SIZE == q }
}
