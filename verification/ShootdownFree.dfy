/** What avmf_free (Kernel/mm/avmf.c:1058-1069) does to the bitmap, over runs of the machine of module Shootdown. */
module ShootdownFree {
  import opened Common
  import opened Shootdown

  function Frames(frame: nat, n: nat): (s: set<nat>)
    ensures forall f :: f in s <==> frame <= f < frame + n
  {
    if n == 0 then {} else Frames(frame, n - 1) + {frame + n - 1}
  }

  /** Core `c` is freeing these pages: of the bitmap `was`, as it was at the start, exactly the bits of the frames done
      so far are cleared, and that of the current frame once its turn has begun. Each of these is recorded as freed. */
  ghost predicate Freeing(s: State, c: nat, pages: seq<nat>, frame: nat, was: set<nat>) {
    && c < |s.cores| && s.avmfLock == Some(c) && s.cores[c].job.Some?
    && var j := s.cores[c].job.value;
       && j.pages == pages && j.frame == frame && j.done <= |pages| && (j.bitCleared ==> j.done < |pages|)
       && s.bitmap == was - Frames(frame, Cleared(j)) && AllRecorded(s.freed, pages, frame, Cleared(j))
  }

  function Cleared(j: Job): nat { j.done + if j.bitCleared then 1 else 0 }

  /** The first `n` frames of the block are recorded as freed, each with the page whose leaf mapped it. */
  ghost predicate AllRecorded(freed: set<Freed>, pages: seq<nat>, frame: nat, n: nat) {
    n <= |pages| && forall k | 0 <= k < n :: Recorded(freed, pages[k], frame + k)
  }

  ghost predicate Recorded(freed: set<Freed>, page: nat, frame: nat) {
    exists cut: nat :: Freed(page, frame, cut) in freed
  }

  lemma {:induction false} RecordsStay(freed: set<Freed>, freed': set<Freed>, pages: seq<nat>, frame: nat, n: nat)
    requires AllRecorded(freed, pages, frame, n) && freed <= freed'
    ensures AllRecorded(freed', pages, frame, n)
  {
    forall k | 0 <= k < n
      ensures Recorded(freed', pages[k], frame + k)
    {
      assert Recorded(freed, pages[k], frame + k);
    }
  }

  /** The bitmap changes only where a frame is allocated or its bit is cleared. */
  lemma {:induction false} BitmapStays(s: State, st: Step)
    requires Do(s, st).Some? && !st.Alloc? && !st.FreeBit?
    ensures Do(s, st).value.bitmap == s.bitmap
  {
  }

  lemma {:induction false} FreeBegins(s: State, c: nat, pages: seq<nat>, frame: nat)
    requires Do(s, FreeBegin(c, pages, frame)).Some?
    ensures Freeing(Do(s, FreeBegin(c, pages, frame)).value, c, pages, frame, s.bitmap)
  {
  }

  lemma {:induction false} BitGoes(s: State, c: nat, pages: seq<nat>, frame: nat, was: set<nat>)
    requires Freeing(s, c, pages, frame, was) && Do(s, FreeBit(c)).Some?
    ensures Freeing(Do(s, FreeBit(c)).value, c, pages, frame, was)
  {
    var j, freed' := s.cores[c].job.value, Do(s, FreeBit(c)).value.freed;
    assert Frames(frame, j.done + 1) == Frames(frame, j.done) + {frame + j.done};
    RecordsStay(s.freed, freed', pages, frame, j.done);
    assert Freed(pages[j.done], frame + j.done, s.clock) in freed';
    assert Recorded(freed', pages[j.done], frame + j.done);
  }

  lemma {:induction false} FreeingOther(s: State, st: Step, s': State, c: nat, pages: seq<nat>, frame: nat,
          was: set<nat>)
    requires Freeing(s, c, pages, frame, was) && Do(s, st) == Some(s') && !Frees(st) && !st.Alloc?
    requires !(st.Return? && st.c == c)
    ensures Freeing(s', c, pages, frame, was)
  {
    FrameOf(s, st, c);
    BitmapStays(s, st);
    RecordsStay(s.freed, s'.freed, pages, frame, Cleared(s.cores[c].job.value));
  }

  lemma {:induction false} FreeingReturn(s: State, s': State, c: nat, pages: seq<nat>, frame: nat, was: set<nat>)
    requires Freeing(s, c, pages, frame, was) && JobOk(s, c) && Do(s, Return(c)) == Some(s')
    ensures Freeing(s', c, pages, frame, was)
  {
  }

  lemma {:induction false} FreeingStep(s: State, st: Step, s': State, c: nat, pages: seq<nat>, frame: nat,
          was: set<nat>)
    requires Inv(s) && Freeing(s, c, pages, frame, was) && Do(s, st) == Some(s') && st != FreeEnd(c)
    ensures Freeing(s', c, pages, frame, was)
  {
    assert CoreOk(s, c);
    if st.Return? && st.c == c {
      FreeingReturn(s, s', c, pages, frame, was);
    } else if Frees(st) {
      assert CoreOk(s, st.c);
      BitGoes(s, c, pages, frame, was);
    } else {
      FreeingOther(s, st, s', c, pages, frame, was);
    }
  }

  lemma {:induction false} StaysFreeing(s: State, steps: seq<Step>, c: nat, pages: seq<nat>, frame: nat, was: set<nat>)
    requires Inv(s) && Freeing(s, c, pages, frame, was) && Run(s, steps).Some? && FreeEnd(c) !in steps
    ensures Inv(Run(s, steps).value) && Freeing(Run(s, steps).value, c, pages, frame, was)
    decreases steps
  {
    if steps == [] {
      assert Run(s, steps) == Some(s);
    } else {
      var s' := Do(s, steps[0]).value;
      assert steps[0] in steps;
      StepKeepsInv(s, steps[0]);
      FreeingStep(s, steps[0], s', c, pages, frame, was);
      assert forall st | st in steps[1..] :: st in steps;
      StaysFreeing(s', steps[1..], c, pages, frame, was);
    }
  }

  /** From the start of avmf_free on, whatever other cores do: while it runs, the bitmap is what it was at the start
      without exactly the frames done so far. When it ends, exactly the frames of the block have left it, and they can
      be allocated. */
  lemma {:induction false} FreeClearsTheBlock(s0: State, before: seq<Step>, c: nat, pages: seq<nat>, frame: nat,
          steps: seq<Step>)
    requires Initial(s0) && Run(s0, before).Some?
    requires var s := Run(s0, before).value;
             && Do(s, FreeBegin(c, pages, frame)).Some?
             && Run(Do(s, FreeBegin(c, pages, frame)).value, steps).Some? && FreeEnd(c) !in steps
    ensures var s := Run(s0, before).value;
            var s' := Run(Do(s, FreeBegin(c, pages, frame)).value, steps).value;
            && Freeing(s', c, pages, frame, s.bitmap)
            && (Do(s', FreeEnd(c)).Some? ==>
                  var end := Do(s', FreeEnd(c)).value;
                  && end.bitmap == s.bitmap - Frames(frame, |pages|)
                  && Do(end, Alloc(Frames(frame, |pages|))).Some?
                  && AllRecorded(end.freed, pages, frame, |pages|))
  {
    InitialInv(s0);
    RunKeepsInv(s0, before);
    var s := Run(s0, before).value;
    FreeBegins(s, c, pages, frame);
    StepKeepsInv(s, FreeBegin(c, pages, frame));
    StaysFreeing(Do(s, FreeBegin(c, pages, frame)).value, steps, c, pages, frame, s.bitmap);
  }

  lemma {:induction false} NoBitOutside(s: State, st: Step)
    requires Inv(s) && s.avmfLock == None
    ensures Do(s, st).Some? ==> !st.FreeBit?
  {
    assert st.FreeBit? && st.c < |s.cores| ==> CoreOk(s, st.c);
  }

  /** Outside avmf_free only an allocation changes the bitmap: it takes frames whose bits are all clear, and sets
      exactly them. */
  lemma {:induction false} OnlyAllocOutside(s: State, st: Step)
    requires Inv(s) && s.avmfLock == None && Do(s, st).Some?
    ensures !st.Alloc? ==> Do(s, st).value.bitmap == s.bitmap
    ensures st.Alloc? ==> forall f | f in st.frames :: f !in s.bitmap
    ensures st.Alloc? ==> Do(s, st).value.bitmap == s.bitmap + st.frames
  {
    NoBitOutside(s, st);
    if st.Alloc? {
      forall f | f in st.frames {
        TakenWasFree(s, st.frames, f);
      }
    } else {
      BitmapStays(s, st);
    }
  }

  lemma {:induction false} TakenWasFree(s: State, frames: set<nat>, f: nat)
    ensures Do(s, Alloc(frames)).Some? && f in frames ==> f !in s.bitmap
  {
    assert f in frames && f in s.bitmap ==> f in frames * s.bitmap;
  }

  /** The step is the bitmap_clear of frame `f`. */
  predicate ClearsFrame(s: State, st: Step, f: nat) {
    && st.FreeBit? && st.c < |s.cores| && s.cores[st.c].job.Some?
    && f == s.cores[st.c].job.value.frame + s.cores[st.c].job.value.done
  }

  lemma {:induction false} BitLeaves(s: State, st: Step, f: nat)
    requires f in s.bitmap && Do(s, st).Some? && !ClearsFrame(s, st, f)
    ensures f in Do(s, st).value.bitmap
  {
    if !st.Alloc? && !st.FreeBit? {
      BitmapStays(s, st);
    }
  }

  /** Step `k` of the run clears frame `f`. */
  ghost predicate ClearsAt(s: State, steps: seq<Step>, k: nat, f: nat) {
    k < |steps| && Run(s, steps[..k]).Some? && ClearsFrame(Run(s, steps[..k]).value, steps[k], f)
  }

  lemma {:induction false} StaysAllocated(s: State, steps: seq<Step>, f: nat)
    requires f in s.bitmap && Run(s, steps).Some? && forall k | 0 <= k < |steps| :: !ClearsAt(s, steps, k, f)
    ensures f in Run(s, steps).value.bitmap
    decreases steps
  {
    if steps == [] {
      assert Run(s, steps) == Some(s);
    } else {
      var s', rest := Do(s, steps[0]).value, steps[1..];
      assert steps[..0] == [] && Run(s, steps[..0]) == Some(s);
      assert !ClearsAt(s, steps, 0, f);
      BitLeaves(s, steps[0], f);
      forall k | 0 <= k < |rest|
        ensures !ClearsAt(s', rest, k, f)
      {
        assert steps[..k + 1][1..] == rest[..k] && steps[..k + 1][0] == steps[0];
        assert Run(s, steps[..k + 1]) == Run(s', rest[..k]);
        assert !ClearsAt(s, steps, k + 1, f);
      }
      StaysAllocated(s', rest, f);
    }
  }

  /** An allocated frame can be allocated again only after avmf_free has cleared its bit. */
  lemma {:induction false} AllocatedOnce(s: State, steps: seq<Step>, f: nat, frames: set<nat>)
    requires f in s.bitmap && Run(s, steps).Some? && f in frames && Do(Run(s, steps).value, Alloc(frames)).Some?
    ensures exists k :: 0 <= k < |steps| && ClearsAt(s, steps, k, f)
  {
    TakenWasFree(Run(s, steps).value, frames, f);
    StillAllocated(s, steps, f);
  }

  lemma {:induction false} StillAllocated(s: State, steps: seq<Step>, f: nat)
    requires f in s.bitmap && Run(s, steps).Some?
    ensures (forall k | 0 <= k < |steps| :: !ClearsAt(s, steps, k, f)) ==> f in Run(s, steps).value.bitmap
  {
    if forall k | 0 <= k < |steps| :: !ClearsAt(s, steps, k, f) {
      StaysAllocated(s, steps, f);
    }
  }

  // ----- a block can be freed -----

  /** The machine with one core that has its job at hand, in the given phase. */
  predicate InPhase(s: State, j: Job, phase: Phase) {
    && |s.cores| == 1 && s.bsp == 0 && s.cores[0].present && s.cores[0].handler == Off && s.cores[0].phase == phase
    && s.cores[0].job == Some(j) && s.avmfLock == Some(0)
  }
  /** One core, the bootstrap core, is about to free the next page of a block. */
  predicate AtPage(s: State, pages: seq<nat>, frame: nat, done: nat) {
    && |s.cores| == 1 && s.bsp == 0 && s.cores[0].present && s.cores[0].handler == Off && s.cores[0].phase == Idle
    && s.avmfLock == Some(0) && done <= |pages| && s.cores[0].job.Some?
    && var j := s.cores[0].job.value;
       j.pages == pages && j.frame == frame && j.done == done && !j.bitCleared
  }

  lemma {:induction false} OnePage(s0: State, before: seq<Step>, s: State, pages: seq<nat>, frame: nat, done: nat)
    returns (steps: seq<Step>, s': State)
    requires Run(s0, before) == Some(s) && AtPage(s, pages, frame, done) && done < |pages|
    ensures Run(s0, steps) == Some(s') && AtPage(s', pages, frame, done + 1)
    ensures |steps| >= |before| && steps[..|before|] == before
  {
    var j;
    steps, s', j := FirstHalf(s0, before, s, pages, frame, done);
    steps, s' := SecondHalf(s0, steps, s', j, pages[done], s.clock);
  }

  lemma {:induction false} FirstHalf(s0: State, before: seq<Step>, s: State, pages: seq<nat>, frame: nat, done: nat)
    returns (steps: seq<Step>, s': State, j: Job)
    requires Run(s0, before) == Some(s) && AtPage(s, pages, frame, done) && done < |pages|
    ensures Run(s0, steps) == Some(s') && InPhase(s', j, Scan(pages[done], s.clock, 0))
    ensures j == Job(pages, frame, done, true, s.clock)
    ensures |steps| >= |before| && steps[..|before|] == before
  {
    j := Job(pages, frame, done, true, s.clock);
    steps, s' := Then(s0, before, s, FreeBit(0));
    assert InPhase(s', j, Idle) && s'.clock == s.clock;
    steps, s' := Then(s0, steps, s', Unmap(0, pages[done]));
    assert InPhase(s', j, Flush(pages[done], s.clock));
    steps, s' := Then(s0, steps, s', LocalFlush(0));
  }

  lemma {:induction false} SecondHalf(s0: State, before: seq<Step>, s: State, j: Job, page: nat, cut: nat)
    returns (steps: seq<Step>, s': State)
    requires Run(s0, before) == Some(s) && j.More() && InPhase(s, j, Scan(page, cut, 0))
    ensures Run(s0, steps) == Some(s') && AtPage(s', j.pages, j.frame, j.done + 1)
    ensures |steps| >= |before| && steps[..|before|] == before
  {
    steps, s' := Then(s0, before, s, Skip(0));
    assert InPhase(s', j, Scan(page, cut, 1));
    steps, s' := Then(s0, steps, s', Skip(0));
    assert InPhase(s', j, Done(page, cut));
    steps, s' := Then(s0, steps, s', Return(0));
  }

  /** Every block that the bootstrap core begins to free while it is alone is freed to the end. */
  lemma {:induction false} FreeComesToItsEnd(s0: State, pages: seq<nat>, frame: nat)
    returns (steps: seq<Step>, s: State)
    requires |s0.cores| == 1 && s0.bsp == 0 && s0.cores[0].present && s0.cores[0].handler == Off
    requires s0.cores[0].phase == Idle && s0.cores[0].job == None && s0.avmfLock == None
    ensures Run(s0, steps) == Some(s) && s.avmfLock == None && s.cores != [] && s.cores[0].job == None
    ensures steps != [] && steps[0] == FreeBegin(0, pages, frame) && steps[|steps| - 1] == FreeEnd(0)
  {
    assert Run(s0, []) == Some(s0);
    steps, s := Then(s0, [], s0, FreeBegin(0, pages, frame));
    for done := 0 to |pages|
      invariant Run(s0, steps) == Some(s) && AtPage(s, pages, frame, done)
      invariant steps != [] && steps[0] == FreeBegin(0, pages, frame)
    {
      var more;
      more, s := OnePage(s0, steps, s, pages, frame, done);
      steps := more;
    }
    steps, s := Then(s0, steps, s, FreeEnd(0));
  }
}
