/** destroy_table (Kernel/mm/pager.c:305-322): which frames it gives back, and in what order. */
module Teardown {
  import opened Common
  import opened PageTables

  /** The frames that destroy_table frees below and at the table in `frame`, in order. */
  function Order(mem: Memory, frame: nat, level: nat): seq<nat>
    requires WellSized(mem)
    decreases level, ENTRIES + 1
  {
    if frame !in mem then [] else
    (if level > 1 then OrderFrom(mem, frame, level, 0) else []) + [frame]
  }

  /** The part of it that comes from slots `i` and up. */
  function OrderFrom(mem: Memory, frame: nat, level: nat, i: nat): seq<nat>
    requires WellSized(mem) && frame in mem && level > 1 && i <= ENTRIES
    decreases level, ENTRIES - i
  {
    if i == ENTRIES then []
    else if IsTable(level, mem[frame][i]) then
      Order(mem, FrameOf(mem[frame][i]), level - 1) + OrderFrom(mem, frame, level, i + 1)
    else OrderFrom(mem, frame, level, i + 1)
  }

  // ----- subtrees -----

  /** The ancestor of `m` on `level`. */
  function Ancestor(m: Node, level: nat): Node
    decreases level - m.level
  {
    if m.level >= level then m else Ancestor(Parent(m), level)
  }

  predicate Under(m: Node, n: Node) { m.level <= n.level && Ancestor(m, n.level) == n }

  lemma {:induction false} AncestorStep(m: Node, level: nat)
    requires m.level < level
    ensures Ancestor(m, level) == Parent(Ancestor(m, level - 1))
    decreases level - m.level
  {
    if m.level + 1 < level {
      AncestorStep(Parent(m), level);
    }
  }

  lemma {:induction false} AncestorLevel(m: Node, level: nat)
    requires m.level <= level
    ensures Ancestor(m, level).level == level
    decreases level - m.level
  {
    if m.level < level {
      AncestorLevel(Parent(m), level);
    }
  }

  /** Whatever lies strictly under `n` lies under exactly one of its children. */
  lemma {:induction false} UnderChild(m: Node, n: Node, i: nat)
    requires n.level > 0 && i < ENTRIES
    ensures Under(m, Child(n, i)) <==> Under(m, n) && m != n && Ancestor(m, n.level - 1).prefix % ENTRIES == i
  {
    if m.level < n.level {
      AncestorStep(m, n.level);
      AncestorLevel(m, n.level - 1);
    }
  }

  lemma {:induction false} AncestorInTree(mem: Memory, root: nat, dir: map<Node, nat>, m: Node, level: nat)
    requires Tree(mem, root, dir) && m in dir && m.level <= level <= 4
    ensures Ancestor(m, level) in dir
    decreases level - m.level
  {
    if m.level < level {
      AncestorInTree(mem, root, dir, Parent(m), level);
    }
  }

  lemma {:induction false} EverythingUnderRoot(mem: Memory, root: nat, dir: map<Node, nat>, m: Node)
    requires Tree(mem, root, dir) && m in dir
    ensures Under(m, ROOT)
  {
    AncestorInTree(mem, root, dir, m, 4);
    AncestorLevel(m, 4);
  }

  // ----- each frame once -----

  ghost predicate NoDuplicates(s: seq<nat>) { forall i, j | 0 <= i < j < |s| :: s[i] != s[j] }

  /** `s` lists, each once, the frames of the nodes under `n` whose branch is `i` or higher; with `self` also that of
      `n`. */
  ghost predicate Lists(s: seq<nat>, dir: map<Node, nat>, n: Node, i: nat, self: bool)
    requires n.level > 0
  {
    && NoDuplicates(s)
    && (forall f | f in s :: exists m | m in dir :: dir[m] == f && Listed(m, n, i, self))
    && (forall m | m in dir && Listed(m, n, i, self) :: dir[m] in s)
  }

  predicate Listed(m: Node, n: Node, i: nat, self: bool)
    requires n.level > 0
  {
    Under(m, n) && if m == n then self else Ancestor(m, n.level - 1).prefix % ENTRIES >= i
  }

  lemma {:induction false} Concat(s: seq<nat>, t: seq<nat>)
    requires NoDuplicates(s) && NoDuplicates(t) && forall f | f in s :: f !in t
    ensures NoDuplicates(s + t)
  {
    forall i, j | 0 <= i < j < |s + t|
      ensures (s + t)[i] != (s + t)[j]
    {
      if i < |s| <= j {
        assert s[i] in s && t[j - |s|] in t;
      }
    }
  }

  lemma {:induction false} OrderLists(mem: Memory, root: nat, dir: map<Node, nat>, n: Node)
    requires Tree(mem, root, dir) && n in dir
    ensures Lists(Order(mem, dir[n], n.level), dir, n, 0, true)
    decreases n.level, ENTRIES + 1
  {
    var s := if n.level > 1 then OrderFrom(mem, dir[n], n.level, 0) else [];
    if n.level > 1 {
      OrderFromLists(mem, root, dir, n, 0);
    } else {
      forall m | m in dir && Under(m, n)
        ensures m == n
      {
      }
    }
    assert Lists(s, dir, n, 0, false);
    forall f | f in s
      ensures f != dir[n]
    {
    }
    Concat(s, [dir[n]]);
    assert Order(mem, dir[n], n.level) == s + [dir[n]];
  }

  lemma {:induction false} OrderFromLists(mem: Memory, root: nat, dir: map<Node, nat>, n: Node, i: nat)
    requires Tree(mem, root, dir) && n in dir && n.level > 1 && i <= ENTRIES
    ensures Lists(OrderFrom(mem, dir[n], n.level, i), dir, n, i, false)
    decreases n.level, ENTRIES - i
  {
    if i < ENTRIES {
      assert SlotOk(mem, dir, n, i);
      OrderFromLists(mem, root, dir, n, i + 1);
      var t := OrderFrom(mem, dir[n], n.level, i + 1);
      var c := Child(n, i);
      if IsTable(n.level, mem[dir[n]][i]) {
        OrderLists(mem, root, dir, c);
        ListsJoin(Order(mem, dir[c], c.level), t, mem, root, dir, n, i);
      } else {
        NothingUnder(mem, root, dir, c);
        ListsSkip(t, dir, n, i);
      }
    }
  }

  lemma {:induction false} NothingUnder(mem: Memory, root: nat, dir: map<Node, nat>, c: Node)
    requires Tree(mem, root, dir) && c !in dir && c.level <= 4
    ensures forall m | m in dir :: !Under(m, c)
  {
    forall m | m in dir && Under(m, c)
      ensures false
    {
      AncestorInTree(mem, root, dir, m, c.level);
    }
  }

  lemma {:induction false} ListsSkip(t: seq<nat>, dir: map<Node, nat>, n: Node, i: nat)
    requires n.level > 0 && i < ENTRIES && Lists(t, dir, n, i + 1, false)
    requires forall m | m in dir :: !Under(m, Child(n, i))
    ensures Lists(t, dir, n, i, false)
  {
    forall m | m in dir
      ensures Listed(m, n, i, false) <==> Listed(m, n, i + 1, false)
    {
      UnderChild(m, n, i);
    }
  }

  lemma {:induction false} ListsJoin(s: seq<nat>, t: seq<nat>, mem: Memory, root: nat, dir: map<Node, nat>, n: Node,
          i: nat)
    requires Tree(mem, root, dir) && n.level > 1 && i < ENTRIES
    requires Lists(s, dir, Child(n, i), 0, true) && Lists(t, dir, n, i + 1, false)
    ensures Lists(s + t, dir, n, i, false)
  {
    var c := Child(n, i);
    forall m | m in dir
      ensures Listed(m, n, i, false) <==> Listed(m, n, i + 1, false) || Listed(m, c, 0, true)
      ensures !(Listed(m, n, i + 1, false) && Listed(m, c, 0, true))
    {
      UnderChild(m, n, i);
    }
    Concat(s, t);
  }

  /** Tearing the tree down from the root frees every table frame, each exactly once, and no other frame. */
  lemma {:induction false} TeardownFreesEachTableOnce(mem: Memory, root: nat, dir: map<Node, nat>)
    requires Tree(mem, root, dir)
    ensures var freed := Order(mem, root, 4);
            NoDuplicates(freed) && forall f :: f in freed <==> f in mem
  {
    OrderLists(mem, root, dir, ROOT);
    forall m | m in dir
      ensures Listed(m, ROOT, 0, true)
    {
      EverythingUnderRoot(mem, root, dir, m);
    }
  }
}
