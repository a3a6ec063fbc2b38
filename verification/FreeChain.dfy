/** The linked free list of a region (avmf_range_t and avmf_region_header_t, Kernel/inc/mm/avmf.h), edited in place. */
module FreeChain {
  import opened Common
  import opened FreeListSpec
  import opened CarveSpec

  class Node {
    var base: nat
    var size: nat
    var next: Node?

    constructor (base: nat, size: nat)
      ensures this.base == base && this.size == size && next == null
    {
      this.base, this.size, next := base, size, null;
    }
  }

  ghost function Ranges(chain: seq<Node>): (s: seq<Range>)
    reads chain
    ensures |s| == |chain| && forall i | 0 <= i < |chain| :: s[i] == Range(chain[i].base, chain[i].size)
  {
    seq(|chain|, i requires 0 <= i < |chain| reads chain => Range(chain[i].base, chain[i].size))
  }

  // ----- the four shapes of an insertion -----

  lemma {:induction false} InsertBetween(s: seq<Range>, r: Range, k: nat)
    requires k <= |s| && !MergesPrev(s, r, k) && !MergesNext(s, r, k)
    ensures Insert(s, r, k) == s[..k] + [r] + s[k..]
  {
    assert Merged(s, r, k) == r;
  }

  lemma {:induction false} InsertOnPrev(s: seq<Range>, r: Range, k: nat)
    requires k <= |s| && MergesPrev(s, r, k) && !MergesNext(s, r, k)
    ensures Insert(s, r, k) == s[k - 1 := Range(s[k - 1].base, s[k - 1].size + r.size)]
  {
    assert Merged(s, r, k) == Range(s[k - 1].base, s[k - 1].size + r.size);
  }

  lemma {:induction false} InsertOnNext(s: seq<Range>, r: Range, k: nat)
    requires k <= |s| && !MergesPrev(s, r, k) && MergesNext(s, r, k)
    ensures Insert(s, r, k) == s[k := Range(r.base, r.size + s[k].size)]
  {
    assert Merged(s, r, k) == Range(r.base, r.size + s[k].size);
  }

  lemma {:induction false} InsertOnBoth(s: seq<Range>, r: Range, k: nat)
    requires k <= |s| && MergesPrev(s, r, k) && MergesNext(s, r, k)
    ensures var t := s[k - 1 := Range(s[k - 1].base, s[k - 1].size + r.size + s[k].size)];
            Insert(s, r, k) == t[..k] + t[k + 1..]
  {
    var m := Range(s[k - 1].base, s[k - 1].size + r.size + s[k].size);
    assert Merged(s, r, k) == m;
    assert s[k - 1 := m][..k] == s[..k - 1] + [m];
    assert s[k - 1 := m][k + 1..] == s[k + 1..];
  }

  /** `t` is `s` with `r` put in before position `k`, case by case. */
  ghost predicate Shaped(s: seq<Range>, r: Range, k: nat, t: seq<Range>)
    requires k <= |s|
  {
    if MergesPrev(s, r, k) && MergesNext(s, r, k) then
      var u := s[k - 1 := Range(s[k - 1].base, s[k - 1].size + r.size + s[k].size)];
      t == u[..k] + u[k + 1..]
    else if MergesPrev(s, r, k) then t == s[k - 1 := Range(s[k - 1].base, s[k - 1].size + r.size)]
    else if MergesNext(s, r, k) then t == s[k := Range(r.base, r.size + s[k].size)]
    else t == s[..k] + [r] + s[k..]
  }

  lemma {:induction false} ShapedIsInsert(s: seq<Range>, r: Range, k: nat, t: seq<Range>)
    requires k <= |s| && Shaped(s, r, k, t)
    ensures t == Insert(s, r, k)
  {
    if MergesPrev(s, r, k) && MergesNext(s, r, k) {
      InsertOnBoth(s, r, k);
    } else if MergesPrev(s, r, k) {
      InsertOnPrev(s, r, k);
    } else if MergesNext(s, r, k) {
      InsertOnNext(s, r, k);
    } else {
      InsertBetween(s, r, k);
    }
  }

  // ----- nodes that occur once -----

  predicate InOrder(i: int, j: int, n: int) { 0 <= i < j < n }

  ghost predicate Distinct(s: seq<Node>) {
    forall i, j {:trigger InOrder(i, j, |s|)} | InOrder(i, j, |s|) :: s[i] != s[j]
  }

  lemma {:induction false} DistinctFrom(s: seq<Node>, k: int)
    requires Distinct(s)
    ensures 0 <= k < |s| ==> forall i | 0 <= i < |s| && i != k :: s[i] != s[k]
  {
    forall i | 0 <= i < |s| && i != k && 0 <= k < |s|
      ensures s[i] != s[k]
    {
      assert InOrder(i, k, |s|) || InOrder(k, i, |s|);
    }
  }

  lemma {:induction false} DistinctInsert(s: seq<Node>, k: nat, x: Node)
    requires Distinct(s) && x !in s && k <= |s|
    ensures Distinct(s[..k] + [x] + s[k..])
  {
    var t := s[..k] + [x] + s[k..];
    forall i, j | InOrder(i, j, |t|)
      ensures t[i] != t[j]
    {
      var a, b := if i < k then i else i - 1, if j < k then j else j - 1;
      assert InOrder(a, b, |s|) || i == k || j == k;
    }
  }

  lemma {:induction false} DistinctRemove(s: seq<Node>, k: nat)
    requires Distinct(s) && k < |s|
    ensures Distinct(s[..k] + s[k + 1..])
  {
    var t := s[..k] + s[k + 1..];
    forall i, j | InOrder(i, j, |t|)
      ensures t[i] != t[j]
    {
      assert InOrder(if i < k then i else i + 1, if j < k then j else j + 1, |s|);
    }
  }

  lemma {:induction false} DistinctTail(s: seq<Node>)
    requires Distinct(s) && s != []
    ensures Distinct(s[1..])
  {
    forall i, j | InOrder(i, j, |s[1..]|)
      ensures s[1..][i] != s[1..][j]
    {
      assert InOrder(i + 1, j + 1, |s|);
    }
  }

  lemma {:induction false} DistinctReplace(s: seq<Node>, k: nat, x: Node)
    requires Distinct(s) && x !in s && k < |s|
    ensures Distinct(s[k := x])
  {
    forall i, j | InOrder(i, j, |s|)
      ensures s[k := x][i] != s[k := x][j]
    {
    }
  }

  // ----- links -----

  function After(s: seq<Node>, i: int): Node? { if 0 <= i + 1 < |s| then s[i + 1] else null }

  ghost predicate Linked(s: seq<Node>)
    reads s
  {
    && (forall i {:trigger s[i].next} | 0 <= i < |s| - 1 :: s[i].next == s[i + 1])
    && (s != [] ==> s[|s| - 1].next == null)
  }

  /** Linked, except that node `k` is only said to point to `next`. */
  ghost predicate LinkedBut(s: seq<Node>, k: int, next: Node?)
    reads s
  {
    && (forall i {:trigger s[i].next} | 0 <= i < |s| && i != k :: s[i].next == After(s, i))
    && (0 <= k < |s| ==> s[k].next == next)
  }

  lemma {:induction false} LinkedInsert(s: seq<Node>, k: nat, x: Node)
    requires k <= |s| && LinkedBut(s, k - 1, x) && x.next == (if k < |s| then s[k] else null)
    ensures Linked(s[..k] + [x] + s[k..])
  {
    var t := s[..k] + [x] + s[k..];
    forall i | 0 <= i < |t|
      ensures t[i].next == After(t, i)
    {
      assert t[i] == if i < k then s[i] else if i == k then x else s[i - 1];
      if i < k - 1 || i > k {
        assert After(t, i) == After(s, if i < k then i else i - 1);
      }
    }
  }

  lemma {:induction false} LinkedRemove(s: seq<Node>, k: nat)
    requires 0 < k < |s| && LinkedBut(s, k - 1, After(s, k))
    ensures Linked(s[..k] + s[k + 1..])
  {
    var t := s[..k] + s[k + 1..];
    forall i | 0 <= i < |t|
      ensures t[i].next == After(t, i)
    {
      var j := if i < k then i else i + 1;
      assert t[i] == s[j];
      assert After(t, i) == if i == k - 1 then After(s, k) else After(s, j);
    }
  }

  lemma {:induction false} LinkedReplace(s: seq<Node>, k: nat, x: Node)
    requires k < |s| && LinkedBut(s, k - 1, x) && x.next == After(s, k)
    ensures Linked(s[k := x])
  {
    var t := s[k := x];
    forall i | 0 <= i < |t|
      ensures t[i].next == After(t, i)
    {
      assert i != k - 1 ==> After(t, i) == After(s, i);
    }
  }

  lemma {:induction false} ChainInsert(s: seq<Node>, k: nat, x: Node, t: seq<Node>)
    requires Distinct(s) && x !in s && s != [] && k <= |s|
    requires LinkedBut(s, k - 1, x) && x.next == (if k < |s| then s[k] else null)
    requires t == s[..k] + [x] + s[k..]
    ensures Distinct(t) && Linked(t) && t[0] == (if k == 0 then x else s[0]) &&
              t[|t| - 1] == (if k == |s| then x else s[|s| - 1])
            && Ranges(t) == Ranges(s)[..k] + [Range(x.base, x.size)] + Ranges(s)[k..]
  {
    DistinctInsert(s, k, x);
    LinkedInsert(s, k, x);
  }

  lemma {:induction false} ChainRemove(s: seq<Node>, k: nat, t: seq<Node>)
    requires Distinct(s) && 0 < k < |s| && LinkedBut(s, k - 1, After(s, k))
    requires t == s[..k] + s[k + 1..]
    ensures Distinct(t) && Linked(t) && t[0] == s[0] && t[|t| - 1] == (if k == |s| - 1 then s[k - 1] else s[|s| - 1])
            && Ranges(t) == Ranges(s)[..k] + Ranges(s)[k + 1..]
  {
    DistinctRemove(s, k);
    LinkedRemove(s, k);
  }

  lemma {:induction false} ChainReplace(s: seq<Node>, k: nat, x: Node, t: seq<Node>)
    requires Distinct(s) && x !in s && k < |s| && LinkedBut(s, k - 1, x) && x.next == After(s, k)
    requires t == s[k := x]
    ensures Distinct(t) && Linked(t) && Ranges(t) == Ranges(s)[k := Range(x.base, x.size)]
  {
    DistinctReplace(s, k, x);
    LinkedReplace(s, k, x);
  }

  lemma {:induction false} RemainderCases(s: seq<Range>, b: nat, size: nat)
    requires s != [] && s[0].base <= b && b + size <= s[0].End()
    ensures var t, cur := Remainder(s[0], b, size) + s[1..], s[0];
            if b == cur.base then
              if b + size == cur.End() then t == s[1..] else t == s[0 := Range(b + size, cur.End() - (b + size))]
            else
              if b + size == cur.End() then t == s[0 := Range(cur.base, b - cur.base)]
              else t == [Range(cur.base, b - cur.base), Range(b + size, cur.End() - (b + size))] + s[1..]
  {
  }

  class Region {
    const usable: bool // signature, version and limits are in order
    var freeList: Node?
    var freeCount: nat
    var freeListEnd: Node?
    ghost var chain: seq<Node>

    /** `chain` lists the nodes that `freeList` leads to, each once, and `freeListEnd` is its last node. */
    ghost predicate Valid()
      reads this, chain
    {
      && Distinct(chain)
      && Linked(chain)
      && (if chain == [] then freeList == null && freeListEnd == null
          else freeList == chain[0] && freeListEnd == chain[|chain| - 1])
    }

    ghost function List(): FreeList
      reads this, chain
    {
      FreeList(Ranges(chain), freeCount)
    }

    /** avmf_region_init: one range that covers the region. */
    constructor (usable: bool, node: Node)
      requires node.next == null
      ensures Valid() && this.usable == usable && List() == FreeList([Range(node.base, node.size)], 1)
      ensures chain == [node]
    {
      this.usable := usable;
      freeList, freeListEnd, freeCount := node, node, 1;
      chain := [node];
    }

    /** The walk of avmf_free_list_append: the nodes around the position where it stops. */
    method Find(base: nat, size: nat) returns (ok: bool, prev: Node?, cur: Node?, ghost k: nat)
      requires Valid() && chain != []
      ensures ok <==> Walk(List(), Range(base, size), 0).Some? && Walk(List(), Range(base, size), 0).value <= |chain|
      ensures ok ==> Walk(List(), Range(base, size), 0) == Some(k) && Around(prev, cur, k)
    {
      ghost var l, r := List(), Range(base, size);
      ok, prev, cur, k := true, null, freeList, 0;
      var i, searching := 0, true;
      WalkStops(l, r, 0);
      while searching && i < freeCount
        invariant 0 <= i <= freeCount && k == i && Around(prev, cur, k)
        invariant searching ==> ok && Walk(l, r, 0) == Walk(l, r, i)
        invariant !searching ==> Walk(l, r, 0) == if ok then Some(k) else None
        decreases searching, freeCount - i
      {
        if cur == null || cur.base + cur.size > U64_MAX || (base < cur.base + cur.size && cur.base < base + size) {
          ok, searching := false, false;
        } else if base < cur.base {
          searching := false;
        } else {
          assert cur.next == if i + 1 < |chain| then chain[i + 1] else null;
          prev := cur;
          cur := cur.next;
          i := i + 1;
          k := i;
        }
      }
    }

    ghost predicate Around(prev: Node?, cur: Node?, k: nat)
      reads this
    {
      k <= |chain| && prev == (if k == 0 then null else chain[k - 1]) &&
          cur == (if k == |chain| then null else chain[k])
    }

    /** The nodes are linked up: they are the chain now. */
    ghost method Adopt(c: seq<Node>)
      requires Distinct(c) && Linked(c) && c != [] && freeList == c[0] && freeListEnd == c[|c| - 1]
      modifies this`chain
      ensures Valid() && chain == c && Ranges(c) == old(Ranges(c))
    {
      chain := c;
    }

    /** `if (prev) prev->next = range; else r->free_list = range;` */
    method PointTo(prev: Node?, range: Node?, ghost cur: Node?, ghost k: nat)
      requires Valid() && Around(prev, cur, k)
      modifies this`freeList, (if prev != null then {prev} else {})`next
      ensures LinkedBut(chain, k - 1, range) && Ranges(chain) == old(Ranges(chain))
      ensures freeList == if k == 0 then range else old(freeList)
    {
      DistinctFrom(chain, k - 1);
      if prev != null {
        prev.next := range;
      } else {
        freeList := range;
      }
    }

    /** The stores of the case that merges with both neighbours. */
    method StoreBoth(prev: Node, cur: Node, range: Node, ghost k: nat)
      requires Valid() && Around(prev, cur, k) && freeCount > 0
      modifies this`freeListEnd, this`freeCount, prev
      ensures LinkedBut(chain, k - 1, After(chain, k)) && freeCount == old(freeCount) - 1
      ensures Ranges(chain) == old(Ranges(chain))[k - 1 := old(Range(prev.base, prev.size + range.size + cur.size))]
      ensures freeListEnd == if k == |chain| - 1 then prev else old(freeListEnd)
    {
      DistinctFrom(chain, k - 1);
      DistinctFrom(chain, k);
      prev.size := prev.size + range.size;
      prev.size := prev.size + cur.size;
      prev.next := cur.next;
      if freeListEnd == cur {
        freeListEnd := prev;
      }
      freeCount := freeCount - 1;
    }

    method MergeBoth(prev: Node, cur: Node, range: Node, ghost k: nat)
      requires Valid() && range !in chain && Around(prev, cur, k) && freeCount > 0
      modifies this, chain
      ensures Valid() && freeCount == old(freeCount) - 1
      ensures var t := old(Ranges(chain))[k - 1 := old(Range(prev.base, prev.size + range.size + cur.size))];
              Ranges(chain) == t[..k] + t[k + 1..]
    {
      StoreBoth(prev, cur, range, k);
      ghost var t := chain[..k] + chain[k + 1..];
      ChainRemove(chain, k, t);
      Adopt(t);
    }

    method MergeIntoPrev(prev: Node, cur: Node?, range: Node, ghost k: nat)
      requires Valid() && range !in chain && Around(prev, cur, k)
      modifies chain
      ensures Valid() && Ranges(chain) == old(Ranges(chain))[k - 1 := old(Range(prev.base, prev.size + range.size))]
    {
      DistinctFrom(chain, k - 1);
      prev.size := prev.size + range.size;
    }

    /** The stores of the case that merges with the upper neighbour only. */
    method StoreNext(prev: Node?, cur: Node, range: Node, ghost k: nat)
      requires Valid() && range !in chain && Around(prev, cur, k) && freeCount > 0
      modifies this`freeList, this`freeListEnd, this`freeCount, range, (if prev != null then {prev} else {})`next
      ensures LinkedBut(chain, k - 1, range) && range.next == After(chain, k) && Ranges(chain) == old(Ranges(chain))
      ensures range.base == old(range.base) && range.size == old(range.size + cur.size)
      ensures freeList == (if k == 0 then range else old(freeList)) && freeCount == old(freeCount) - 1
      ensures freeListEnd == if k == |chain| - 1 then range else old(freeListEnd)
    {
      DistinctFrom(chain, k);
      range.size := range.size + cur.size;
      range.next := cur.next;
      PointTo(prev, range, cur, k);
      if freeListEnd == cur {
        freeListEnd := range;
      }
      freeCount := freeCount - 1;
    }

    method MergeIntoNext(prev: Node?, cur: Node, range: Node, ghost k: nat)
      requires Valid() && range !in chain && Around(prev, cur, k) && freeCount > 0
      modifies this, chain, range
      ensures Valid() && freeCount == old(freeCount) - 1
      ensures Ranges(chain) == old(Ranges(chain))[k := old(Range(range.base, range.size + cur.size))]
    {
      StoreNext(prev, cur, range, k);
      ghost var t := chain[k := range];
      ChainReplace(chain, k, range, t);
      Adopt(t);
    }

    /** The stores of the case without a merge. */
    method StoreNew(prev: Node?, cur: Node?, range: Node, ghost k: nat)
      requires Valid() && chain != [] && range !in chain && Around(prev, cur, k)
      modifies this`freeList, this`freeListEnd, this`freeCount, range`next, (if prev != null then {prev} else {})`next
      ensures LinkedBut(chain, k - 1, range) && range.next == cur && Ranges(chain) == old(Ranges(chain))
      ensures freeList == (if k == 0 then range else old(freeList)) && freeCount == old(freeCount) + 1
      ensures freeListEnd == if k == |chain| then range else old(freeListEnd)
    {
      range.next := cur;
      PointTo(prev, range, cur, k);
      if cur == null {
        freeListEnd := range;
      }
      freeCount := freeCount + 1;
    }

    method LinkIn(prev: Node?, cur: Node?, range: Node, ghost k: nat)
      requires Valid() && chain != [] && range !in chain && Around(prev, cur, k)
      modifies this, chain, range
      ensures Valid() && freeCount == old(freeCount) + 1
      ensures Ranges(chain) == old(Ranges(chain))[..k] + [old(Range(range.base, range.size))] + old(Ranges(chain))[k..]
    {
      StoreNew(prev, cur, range, k);
      ghost var t := chain[..k] + [range] + chain[k..];
      ChainInsert(chain, k, range, t);
      Adopt(t);
    }

    /** The four cases of the insertion. */
    method PutIn(prev: Node?, cur: Node?, range: Node, ghost k: nat)
      requires Valid() && chain != [] && range !in chain && Around(prev, cur, k) && freeCount > 0
      modifies this, chain, range
      ensures Valid() && Shaped(old(Ranges(chain)), old(Range(range.base, range.size)), k, Ranges(chain))
      ensures freeCount == CountAfter(old(List()), old(Range(range.base, range.size)), k)
    {
      var mergePrev := prev != null && prev.base + prev.size == range.base;
      var mergeNext := cur != null && range.base + range.size == cur.base;
      if mergePrev {
        if mergeNext {
          MergeBoth(prev, cur, range, k);
        } else {
          MergeIntoPrev(prev, cur, range, k);
        }
      } else if mergeNext {
        MergeIntoNext(prev, cur, range, k);
      } else {
        LinkIn(prev, cur, range, k);
      }
    }

    /** avmf_free_list_append. A refused range leaves the list as it was. */
    method Append(range: Node) returns (ok: bool)
      requires Valid() && range !in chain
      modifies this, chain, range
      ensures Valid()
      ensures ok <==> usable && FreeListSpec.Append(old(List()), old(Range(range.base, range.size))).Some?
      ensures List() == if ok then FreeListSpec.Append(old(List()), old(Range(range.base, range.size))).value
                else old(List())
      ensures !ok ==> chain == old(chain)
    {
      if range.size == 0 || !usable || range.base > U64_MAX - range.size {
        return false;
      }
      if freeList == null || freeCount == 0 {
        range.next := null;
        freeList, freeListEnd, freeCount := range, range, 1;
        chain := [range];
        return true;
      }
      var found, prev, cur, k := Find(range.base, range.size);
      if !found {
        return false;
      }
      ghost var before, r := Ranges(chain), Range(range.base, range.size);
      PutIn(prev, cur, range, k);
      ShapedIsInsert(before, r, k, Ranges(chain));
      return true;
    }

    /** Whether the carve splits the head range in two, so that it needs a node for the upper part. */
    ghost predicate Splits(size: nat, align: nat, minVirt: nat, maxVirt: nat)
      reads this, chain
    {
      var c := Carve(List(), size, align, minVirt, maxVirt);
      c.Some? && List().ranges[0].base < c.value.base && c.value.base + size < List().ranges[0].End()
    }

    /** The free-list path of avmf_region_alloc. Every turn of its loop returns or jumps behind the loop, to the label
        `next_free`, so that the step to the next node is never followed by a second turn. `haveHeader` says whether
        avmf_alloc_ihdr gives a header, and `spare` is what avmf_alloc_irange would give for the upper part of a
        split. */
    method CarveHead(size: nat, align: nat, minVirt: nat, maxVirt: nat, haveHeader: bool, spare: Node?)
      returns (found: bool, base: nat)
      requires Valid() && (spare != null ==> spare !in chain)
      modifies this, chain, (if spare != null then {spare} else {})
      ensures Valid()
      ensures found <==> usable && haveHeader && old(Carve(List(), size, align, minVirt, maxVirt)).Some? &&
                         (spare == null ==> !old(Splits(size, align, minVirt, maxVirt)))
      ensures found ==> old(Carve(List(), size, align, minVirt, maxVirt)) == Some(Carved(List(), base))
      ensures !found ==> List() == old(List()) && chain == old(chain)
    {
      base := 0;
      if !usable || freeCount == 0 || freeList == null {
        return false, base;
      }
      var cur := freeList;
      for i := 0 to freeCount
        invariant i == 0 && cur == freeList != null
        invariant chain == old(chain) && List() == old(List())
        invariant Carve(List(), size, align, minVirt, maxVirt) == old(Carve(List(), size, align, minVirt, maxVirt))
      {
        if cur == null {
          break;
        }
        var suits, done, start := CarveTurn(cur, size, align, minVirt, maxVirt, haveHeader, spare);
        if !suits {
          break;
        }
        return done, start;
      }
      cur := cur.next;
      return false, base;
    }

    /** The body of the loop, for the head range; `suits` is false where the source jumps to the label. */
    method CarveTurn(cur: Node, size: nat, align: nat, minVirt: nat, maxVirt: nat, haveHeader: bool, spare: Node?)
      returns (suits: bool, done: bool, start: nat)
      requires Valid() && chain != [] && freeList == cur && freeCount > 0 && (spare != null ==> spare !in chain)
      modifies this, chain, (if spare != null then {spare} else {})
      ensures Valid()
      ensures suits <==> old(Carve(List(), size, align, minVirt, maxVirt)).Some?
      ensures done <==> suits && haveHeader && (spare == null ==> !old(Splits(size, align, minVirt, maxVirt)))
      ensures done ==> old(Carve(List(), size, align, minVirt, maxVirt)) == Some(Carved(List(), start))
      ensures !done ==> List() == old(List()) && chain == old(chain)
    {
      suits, start := TryHead(cur, size, align, minVirt, maxVirt);
      done := false;
      if suits && haveHeader {
        done := CutHead(cur, start, size, spare);
      }
    }

    /** The tests that the head range must pass, and the aligned start of the block in it. */
    method TryHead(cur: Node, size: nat, align: nat, minVirt: nat, maxVirt: nat) returns (suits: bool, start: nat)
      ensures suits <==> Suits(Range(cur.base, cur.size), size, align, minVirt, maxVirt)
      ensures suits ==> start == AlignUp64(StartIn(Range(cur.base, cur.size), minVirt), align)
    {
      start := if cur.base < minVirt then minVirt else cur.base;
      if cur.size == 0 || cur.base + cur.size > U64_MAX || align == 0 {
        return false, start;
      }
      var rangeEnd := cur.base + cur.size;
      if start % align != 0 {
        start := (start + (align - start % align)) % U64;
      }
      if start < cur.base || start > rangeEnd || size > rangeEnd - start {
        return false, start;
      }
      if maxVirt != 0 && (start > maxVirt || size > maxVirt - start) {
        return false, start;
      }
      return true, start;
    }

    /** The four cases of the carve. */
    method CutHead(cur: Node, start: nat, size: nat, spare: Node?) returns (done: bool)
      requires Valid() && chain != [] && freeList == cur && freeCount > 0 && (spare != null ==> spare !in chain)
      requires cur.base <= start && start + size <= cur.base + cur.size
      modifies this, chain, (if spare != null then {spare} else {})
      ensures Valid()
      ensures done <==> (spare == null ==> !old(cur.base < start && start + size < cur.base + cur.size))
      ensures done ==> var rest := old(Remainder(Range(cur.base, cur.size), start, size));
                       Ranges(chain) == rest + old(Ranges(chain))[1..] && freeCount == old(freeCount) + |rest| - 1
      ensures !done ==> List() == old(List()) && chain == old(chain)
    {
      RemainderCases(Ranges(chain), start, size);
      var rangeEnd := cur.base + cur.size;
      var prefix := start - cur.base;
      var suffix := rangeEnd - (start + size);
      if prefix == 0 && suffix == 0 {
        DropHead(cur);
      } else if prefix == 0 {
        SetHead(cur, start + size, suffix);
      } else if suffix == 0 {
        SetHead(cur, cur.base, prefix);
      } else {
        if spare == null {
          return false;
        }
        SplitHead(cur, prefix, start + size, suffix, spare);
      }
      return true;
    }

    /** The head range is used up. */
    method DropHead(cur: Node)
      requires Valid() && chain != [] && freeList == cur && freeCount > 0
      modifies this
      ensures Valid() && Ranges(chain) == old(Ranges(chain))[1..] && freeCount == old(freeCount) - 1
    {
      freeList := cur.next;
      if freeListEnd == cur {
        freeListEnd := null;
      }
      freeCount := freeCount - 1;
      DistinctFrom(chain, 0);
      DistinctTail(chain);
      chain := chain[1..];
    }

    /** The head range shrinks. */
    method SetHead(cur: Node, base: nat, size: nat)
      requires Valid() && chain != [] && freeList == cur
      modifies cur
      ensures Valid() && Ranges(chain) == old(Ranges(chain))[0 := Range(base, size)]
    {
      DistinctFrom(chain, 0);
      cur.base := base;
      cur.size := size;
    }

    /** The stores that split the head range around the block. */
    method StoreSplit(cur: Node, prefix: nat, base: nat, suffix: nat, spare: Node)
      requires Valid() && chain != [] && freeList == cur && spare !in chain
      modifies this`freeListEnd, this`freeCount, cur, spare
      ensures LinkedBut(chain, 0, spare) && spare.next == After(chain, 0) && spare.base == base && spare.size == suffix
      ensures Ranges(chain) == old(Ranges(chain))[0 := Range(old(cur.base), prefix)]
      ensures freeCount == old(freeCount) + 1 && freeListEnd == if |chain| == 1 then spare else old(freeListEnd)
    {
      DistinctFrom(chain, 0);
      spare.base := base;
      spare.size := suffix;
      spare.next := cur.next;
      cur.size := prefix;
      cur.next := spare;
      if freeListEnd == cur {
        freeListEnd := spare;
      }
      freeCount := freeCount + 1;
    }

    /** The head range is split around the block. */
    method SplitHead(cur: Node, prefix: nat, base: nat, suffix: nat, spare: Node)
      requires Valid() && chain != [] && freeList == cur && spare !in chain
      modifies this, cur, spare
      ensures Valid() && freeCount == old(freeCount) + 1
      ensures Ranges(chain) == [Range(old(cur.base), prefix), Range(base, suffix)] + old(Ranges(chain))[1..]
    {
      ghost var s, lower := Ranges(chain), Range(cur.base, prefix);
      assert s[0 := lower][..1] == [lower] && s[0 := lower][1..] == s[1..];
      DistinctFrom(chain, 0);
      StoreSplit(cur, prefix, base, suffix, spare);
      ghost var t := chain[..1] + [spare] + chain[1..];
      ChainInsert(chain, 1, spare, t);
      Adopt(t);
    }
  }
}
