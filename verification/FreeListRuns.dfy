/** Runs that give ranges back and take blocks out, in any order (Kernel/mm/avmf.c:351-429 and 659-757). */
module FreeListRuns {
  import opened Common
  import opened FreeListSpec
  import opened CarveSpec

  datatype Op = Give(range: Range) | Take(size: nat, align: nat, minVirt: nat, maxVirt: nat)

  datatype Event = Given(range: Range) | Taken(range: Range) | Refused

  datatype Outcome = Outcome(list: FreeList, event: Event)

  function Do(l: FreeList, op: Op): Outcome {
    match op
    case Give(r) =>
      var after := Append(l, r);
      if after.Some? then Outcome(after.value, Given(r)) else Outcome(l, Refused)
    case Take(size, align, minVirt, maxVirt) =>
      var after := Carve(l, size, align, minVirt, maxVirt);
      if after.Some? then Outcome(after.value.list, Taken(Range(after.value.base, size))) else Outcome(l, Refused)
  }

  /** One operation of a run, with the lists before and behind it. */
  datatype Step = Step(before: FreeList, op: Op, event: Event, after: FreeList) {
    predicate Done() { Do(before, op) == Outcome(after, event) }

    predicate Gives(a: nat) { event.Given? && event.range.Has(a) }

    predicate Takes(a: nat) { event.Taken? && event.range.Has(a) }

    /** The address enters the free addresses if it is given and leaves them if it is taken. */
    ghost predicate Moves(a: nat) {
      Covered(after, a) + (if Takes(a) then 1 else 0) == Covered(before, a) + (if Gives(a) then 1 else 0)
    }
  }

  ghost predicate IsRun(l: FreeList, run: seq<Step>) {
    && (run != [] ==> run[0].before == l)
    && (forall n | 0 <= n < |run| :: run[n].Done())
    && (forall n | 0 < n < |run| :: run[n].before == run[n - 1].after)
  }

  /** An append that is accepted and merges with its upper neighbour alone is the case in which the counter goes
      wrong. */
  ghost predicate Harmless(l: FreeList, op: Op) {
    op.Give? && Append(l, op.range).Some? ==> l.ranges == [] || !OnlyMergesNext(l, op.range)
  }

  /** The callers never ask for an empty block. */
  predicate Asked(run: seq<Step>) { forall n | 0 <= n < |run| && run[n].op.Take? :: run[n].op.size > 0 }

  ghost predicate HarmlessRun(l: FreeList, run: seq<Step>) {
    IsRun(l, run) && Asked(run) && forall n | 0 <= n < |run| :: Harmless(run[n].before, run[n].op)
  }

  ghost predicate Exact(l: FreeList) { Chain(l.ranges) && l.count == |l.ranges| }

  ghost function Covered(l: FreeList, a: nat): nat { if Covers(l.ranges, a) then 1 else 0 }

  /** One operation keeps the list exact and moves each address at most once: in, if it was not free, or out, if it
      was. */
  lemma {:induction false} StepMovesAddresses(s: Step)
    requires s.Done() && Exact(s.before) && Harmless(s.before, s.op) && (s.op.Take? ==> s.op.size > 0)
    ensures Exact(s.after) && forall a: nat :: s.Moves(a)
  {
    var l := s.before;
    match s.op
    case Give(r) =>
      AppendIsUnion(l, r);
      if s.event.Given? {
        CountStaysExact(l, r);
        forall a: nat | r.Has(a)
          ensures !Covers(l.ranges, a)
        {
          forall i | 0 <= i < |l.ranges|
            ensures !l.ranges[i].Has(a)
          {
            assert !r.Overlaps(l.ranges[i]);
          }
        }
      }
    case Take(size, align, minVirt, maxVirt) =>
      if s.event.Taken? {
        CarveRemovesExactly(l, size, align, minVirt, maxVirt);
        assert forall a: nat | s.event.range.Has(a) :: l.ranges[0].Has(a);
      }
  }

  /** The list after the first `n` operations, and how often they gave the address back or took it. */
  function After(l: FreeList, run: seq<Step>, n: nat): FreeList
    requires n <= |run|
  {
    if n == 0 then l else run[n - 1].after
  }

  function TimesGiven(run: seq<Step>, n: nat, a: nat): nat
    requires n <= |run|
  {
    if n == 0 then 0 else TimesGiven(run, n - 1, a) + if run[n - 1].Gives(a) then 1 else 0
  }

  function TimesTaken(run: seq<Step>, n: nat, a: nat): nat
    requires n <= |run|
  {
    if n == 0 then 0 else TimesTaken(run, n - 1, a) + if run[n - 1].Takes(a) then 1 else 0
  }

  lemma {:induction false} RunStaysExact(l: FreeList, run: seq<Step>, n: nat)
    requires Exact(l) && HarmlessRun(l, run) && n <= |run|
    ensures Exact(After(l, run, n))
    ensures n < |run| ==> run[n].before == After(l, run, n) && Exact(run[n].after) && forall a: nat :: run[n].Moves(a)
  {
    if n == 0 {
    } else {
      RunStaysExact(l, run, n - 1);
    }
    if n < |run| {
      StepMovesAddresses(run[n]);
    }
  }

  /** A step that leaves the counter exact is harmless. */
  lemma {:induction false} ExactMeansHarmless(s: Step)
    requires s.Done() && Exact(s.before) && Exact(s.after)
    ensures Harmless(s.before, s.op)
  {
    if s.op.Give? && Append(s.before, s.op.range).Some? {
      CountStaysExact(s.before, s.op.range);
    }
  }

  /** The list is exact behind every operation of a run if and only if no append of it is accepted that merges with its
      upper neighbour alone. */
  lemma {:induction false} ExactIffHarmless(l: FreeList, run: seq<Step>)
    requires Exact(l) && IsRun(l, run) && Asked(run)
    ensures (forall n | 0 <= n <= |run| :: Exact(After(l, run, n))) <==> HarmlessRun(l, run)
  {
    if HarmlessRun(l, run) {
      forall n | 0 <= n <= |run|
        ensures Exact(After(l, run, n))
      {
        RunStaysExact(l, run, n);
      }
    }
    if forall n | 0 <= n <= |run| :: Exact(After(l, run, n)) {
      forall n | 0 <= n < |run|
        ensures Harmless(run[n].before, run[n].op)
      {
        assert Exact(After(l, run, n)) && Exact(After(l, run, n + 1));
        ExactMeansHarmless(run[n]);
      }
    }
  }

  /** Over every harmless run the list stays sorted, coalesced and exact, and no address is lost, invented or doubled:
      what is free now and what was taken out is, address by address, what was free at the start and what was given
      back. */
  lemma {:induction false} RunsKeepMemory(l: FreeList, run: seq<Step>, n: nat, a: nat)
    requires Exact(l) && HarmlessRun(l, run) && n <= |run|
    ensures Exact(After(l, run, n))
    ensures Covered(After(l, run, n), a) + TimesTaken(run, n, a) == Covered(l, a) + TimesGiven(run, n, a)
  {
    RunStaysExact(l, run, n);
    if n == 0 {
    } else {
      RunsKeepMemory(l, run, n - 1, a);
      RunStaysExact(l, run, n - 1);
      assert run[n - 1].Moves(a);
    }
  }

  /** What a run does to one address: it is taken only when it is free, and it becomes free only by being given. */
  ghost predicate Lawful(run: seq<Step>, a: nat) {
    && (forall n | 0 <= n < |run| && run[n].Takes(a) ::
          Covers(run[n].before.ranges, a) && !Covers(run[n].after.ranges, a))
    && (forall n | 0 <= n < |run| && Covers(run[n].after.ranges, a) ::
          Covers(run[n].before.ranges, a) || run[n].Gives(a))
    && (forall n | 0 < n < |run| :: run[n].before == run[n - 1].after)
  }

  lemma {:induction false} RunIsLawful(l: FreeList, run: seq<Step>, a: nat)
    requires Exact(l) && HarmlessRun(l, run)
    ensures Lawful(run, a)
  {
    forall n | 0 <= n < |run|
      ensures run[n].Moves(a)
    {
      RunStaysExact(l, run, n);
    }
  }

  /** An address that was taken is not free as long as it is not given back. */
  lemma {:induction false} StaysTaken(run: seq<Step>, i: nat, j: nat, a: nat)
    requires Lawful(run, a) && i < j < |run| && run[i].Takes(a)
    ensures (forall m | i < m < j :: !run[m].Gives(a)) ==> !Covers(run[j].before.ranges, a)
  {
    if forall m | i < m < j :: !run[m].Gives(a) {
      for k := i + 1 to j
        invariant !Covers(run[k].before.ranges, a)
      {
        assert run[k + 1].before == run[k].after;
      }
    }
  }

  /** No address is handed out twice unless it was given back in between. */
  lemma {:induction false} NoDoubleUse(l: FreeList, run: seq<Step>, i: nat, j: nat, a: nat)
    requires Exact(l) && HarmlessRun(l, run) && i < j < |run| && run[i].Takes(a) && run[j].Takes(a)
    ensures exists m :: i < m < j && run[m].Gives(a)
  {
    RunIsLawful(l, run, a);
    StaysTaken(run, i, j, a);
  }

  // ----- whole pages -----

  predicate WholePages(r: Range) { r.base % PAGE_SIZE == 0 && r.size % PAGE_SIZE == 0 }

  ghost predicate AllWhole(s: seq<Range>) { forall i | 0 <= i < |s| :: WholePages(s[i]) }

  /** What the callers pass: whole pages, aligned to pages. */
  predicate PageOp(op: Op) {
    match op
    case Give(r) => WholePages(r)
    case Take(size, align, minVirt, _) => size % PAGE_SIZE == 0 && align == PAGE_SIZE && minVirt % PAGE_SIZE == 0
  }

  lemma {:induction false} WholeRemainder(cur: Range, b: nat, size: nat)
    requires WholePages(cur) && b % PAGE_SIZE == 0 && size % PAGE_SIZE == 0 && cur.base <= b && b + size <= cur.End()
    ensures AllWhole(Remainder(cur, b, size))
  {
    WholeSums(cur.base, cur.size);
    WholeSums(cur.base, b);
    WholeSums(b, size);
    WholeSums(b + size, cur.End());
  }

  lemma {:induction false} StepKeepsPages(s: Step)
    requires s.Done() && AllWhole(s.before.ranges) && PageOp(s.op)
    ensures AllWhole(s.after.ranges)
    ensures s.event.Taken? ==> WholePages(s.event.range) && s.op.Take? && s.op.minVirt <= s.event.range.base
  {
    var l := s.before;
    match s.op
    case Give(r) =>
      var k := Walk(l, r, 0);
      if k.Some? && k.value <= |l.ranges| {
        InsertKeepsPages(l.ranges, r, k.value);
      }
    case Take(size, align, minVirt, maxVirt) =>
      if s.event.Taken? {
        var cur := l.ranges[0];
        assert WholePages(cur);
        WholeRemainder(cur, StartIn(cur, minVirt), size);
      }
  }

  lemma {:induction false} WholeSums(a: nat, b: nat)
    requires a % PAGE_SIZE == 0 && b % PAGE_SIZE == 0
    ensures (a + b) % PAGE_SIZE == 0 && (a <= b ==> (b - a) % PAGE_SIZE == 0)
  {
  }

  lemma {:induction false} WholeMerge(s: seq<Range>, r: Range, k: nat)
    requires AllWhole(s) && WholePages(r) && k <= |s|
    ensures WholePages(Merged(s, r, k))
  {
    var lo := if MergesPrev(s, r, k) then s[k - 1].base else r.base;
    var hi := if MergesNext(s, r, k) then s[k].End() else r.End();
    WholeSums(r.base, r.size);
    if k < |s| {
      WholeSums(s[k].base, s[k].size);
    }
    assert lo % PAGE_SIZE == 0 && hi % PAGE_SIZE == 0;
    WholeSums(lo, hi);
  }

  lemma {:induction false} InsertKeepsPages(s: seq<Range>, r: Range, k: nat)
    requires AllWhole(s) && WholePages(r) && k <= |s|
    ensures AllWhole(Insert(s, r, k))
  {
    WholeMerge(s, r, k);
  }

  /** When everything is in whole pages, the rounding never wraps: every block is page-aligned and at or above its
      minimum. */
  lemma {:induction false} PageRunsRespectMinimum(l: FreeList, run: seq<Step>, n: nat)
    requires IsRun(l, run) && AllWhole(l.ranges) && (forall i | 0 <= i < |run| :: PageOp(run[i].op)) && n < |run|
    ensures AllWhole(run[n].after.ranges)
    ensures run[n].event.Taken? ==>
            WholePages(run[n].event.range) && run[n].op.Take? && run[n].op.minVirt <= run[n].event.range.base
  {
    if n == 0 {
    } else {
      PageRunsRespectMinimum(l, run, n - 1);
    }
    StepKeepsPages(run[n]);
  }
}
