/** When the acknowledgement of smp_tlb_core can be trusted (Kernel/drivers/core/smp.c:293-315 and 898-931). */
module ShootdownMailbox {
  import opened Common
  import opened Shootdown

  /** Core `t` cannot unmask its interrupts before it has passed its own mailbox, because it has avmf_lock and pages to
      unmap. */
  predicate Stuck(k: Core, t: nat) {
    && k.job.Some?
    && var last := k.job.value.done + 1 >= |k.job.value.pages|;
       match k.phase
       case Idle => k.job.value.More()
       case Flush(_, _) => true
       case Scan(_, _, i) => i <= t || !last
       case Locked(_, _, i, _) => i <= t || !last
       case Done(_, _) => !last
  }

  // ----- a target that cannot unmask never answers -----

  ghost predicate Blocked(s: State, c: nat, t: nat) {
    && c < |s.cores| && t < |s.cores| && t != c && t != s.bsp && s.cores[t].present
    && s.cores[c].phase.Locked? && s.cores[c].phase.i == t
    && Stuck(s.cores[t], t) && (s.cores[c].phase.stage != SetResp ==> !s.cores[t].resp)
  }

  lemma {:induction false} BlockedStep(s: State, st: Step, s': State, c: nat, t: nat)
    requires Inv(s) && Blocked(s, c, t) && Do(s, st) == Some(s') && !((st.SeeAck? || st.TimeOut?) && st.c == c)
    ensures Blocked(s', c, t)
  {
    assert CoreOk(s, c) && CoreOk(s, t);
    if Walks(st) && st.c == t {
      BlockedWalk(s, st, s', c, t);
    } else if Calls(st) {
      assert CoreOk(s, st.c);
      BlockedCall(s, st, s', c, t);
    } else if Frees(st) && st.c == t {
      BlockedFree(s, st, s', c, t);
    } else {
      BlockedOther(s, st, s', c, t);
    }
  }

  lemma {:induction false} BlockedOther(s: State, st: Step, s': State, c: nat, t: nat)
    requires Blocked(s, c, t) && MaskOk(s.cores[t]) && Do(s, st) == Some(s')
    requires !Calls(st) && !((Walks(st) || Frees(st)) && st.c == t)
    ensures Blocked(s', c, t)
  {
    FrameOf(s, st, c);
    FrameOf(s, st, t);
  }

  lemma {:induction false} BlockedWalk(s: State, st: Step, s': State, c: nat, t: nat)
    requires Blocked(s, c, t) && JobOk(s, t) && Walks(st) && st.c == t && Do(s, st) == Some(s')
    ensures Blocked(s', c, t)
  {
  }

  lemma {:induction false} BlockedFree(s: State, st: Step, s': State, c: nat, t: nat)
    requires Blocked(s, c, t) && JobOk(s, t) && Frees(st) && st.c == t && Do(s, st) == Some(s')
    ensures Blocked(s', c, t)
  {
  }

  lemma {:induction false} BlockedCall(s: State, st: Step, s': State, c: nat, t: nat)
    requires Blocked(s, c, t) && CallerOk(s, c) && Calls(st) && st.c < |s.cores| && CallerOk(s, st.c)
    requires Do(s, st) == Some(s') && !((st.SeeAck? || st.TimeOut?) && st.c == c)
    ensures Blocked(s', c, t)
  {
    if st.Store? {
      BlockedStore(s, st, s', c, t);
    }
  }

  lemma {:induction false} BlockedStore(s: State, st: Step, s': State, c: nat, t: nat)
    requires Blocked(s, c, t) && CallerOk(s, c) && st.Store? && st.c < |s.cores| && CallerOk(s, st.c) &&
               Do(s, st) == Some(s')
    ensures Blocked(s', c, t)
  {
  }

  lemma {:induction false} BlockedNeverAnswers(s: State, c: nat, t: nat, steps: seq<Step>)
    requires Inv(s) && Blocked(s, c, t) && Run(s, steps).Some? && Stays(steps, c)
    ensures Do(Run(s, steps).value, SeeAck(c)).None?
    decreases steps
  {
    if steps == [] {
      assert Run(s, steps) == Some(s);
    } else {
      var s' := Do(s, steps[0]).value;
      assert steps[0] in steps;
      StepKeepsInv(s, steps[0]);
      BlockedStep(s, steps[0], s', c, t);
      BlockedNeverAnswers(s', c, t, steps[1..]);
    }
  }

  lemma {:induction false} BlockedIsReliable(s: State, c: nat, t: nat, page: nat, cut: nat)
    requires Inv(s) && Blocked(s, c, t)
    ensures Reliable(s, c, t, page, cut)
  {
    forall steps | Stays(steps, c) && Run(s, steps).Some?
      ensures !Acknowledged(s, c, steps)
    {
      BlockedNeverAnswers(s, c, t, steps);
    }
  }

  // ----- a masked target that can unmask will take the stale interrupt -----

  /** Core `c` has just locked the mailbox of core `t`, which is masked, can get on, and has a request for another page
      pending. */
  predicate Held(s: State, c: nat, t: nat, page: nat, cut: nat) {
    && c < |s.cores| && t < |s.cores| && t != c && s.cores[c].handler == Off &&
       s.cores[c].phase == Locked(page, cut, t, SetResp)
    && var k := s.cores[t];
       k.Masked() && !Stuck(k, t) && k.handler == Off && k.ipi && k.addr != page && !Clean(k.tlb, page, cut)
  }

  /** The next step on the way to the end of the masking: the waits on the way, of core `t` and of others, time out. */
  function Opening(s: State, t: nat): Step
    requires t < |s.cores|
  {
    match s.cores[t].phase
    case Idle => FreeEnd(t)
    case Done(_, _) => Return(t)
    case Locked(_, _, _, stage) => if stage == Wait then TimeOut(t) else Store(t)
    case Flush(_, _) => LocalFlush(t)
    case Scan(_, _, i) =>
      if i >= |s.cores| || !s.cores[i].present || i == s.bsp then Skip(t)
      else if s.cores[i].lock.None? then Lock(t)
      else
        var d := s.cores[i].lock.value;
        if StageLeft(s, d) == 0 then TimeOut(d) else Store(d)
  }

  function StageLeft(s: State, d: nat): nat {
    if d < |s.cores| && s.cores[d].phase.Locked? then StoresLeft(s.cores[d].phase.stage) else 0
  }

  /** How far core `t` is from the end of its last pager_unmap. */
  function Way(s: State, t: nat): nat
    requires t < |s.cores|
  {
    match s.cores[t].phase
    case Idle => 0
    case Flush(_, _) => 0
    case Done(_, _) => 1
    case Locked(_, _, i, stage) => if i >= |s.cores| then 2 else 2 + 20 * (|s.cores| - i) + StoresLeft(stage)
    case Scan(_, _, i) =>
      if i >= |s.cores| then 2
      else 12 + 20 * (|s.cores| - i) + if s.cores[i].lock.Some? then 1 + StageLeft(s, s.cores[i].lock.value) else 0
  }

  /** What a step on the way does: it brings the end nearer, or the target is unmasked with the stale request
      pending. */
  ghost predicate Opens(s: State, st: Step, c: nat, t: nat, page: nat, cut: nat)
    requires t < |s.cores|
  {
    && !((st.SeeAck? || st.TimeOut?) && st.c == c) && Do(s, st).Some?
    && var s' := Do(s, st).value;
       (Held(s', c, t, page, cut) && Way(s', t) < Way(s, t)) || Doomed(s', c, t, page, cut)
  }

  lemma {:induction false} OpensAtEnd(s: State, c: nat, t: nat, page: nat, cut: nat)
    requires Held(s, c, t, page, cut) && JobOk(s, t) && (s.cores[t].phase.Idle? || s.cores[t].phase.Done?)
    ensures Opens(s, Opening(s, t), c, t, page, cut)
  {
  }

  lemma {:induction false} OpensBySkip(s: State, c: nat, t: nat, page: nat, cut: nat)
    requires Held(s, c, t, page, cut) && s.cores[t].phase.Scan? && Opening(s, t).Skip?
    ensures Opens(s, Opening(s, t), c, t, page, cut)
  {
  }

  lemma {:induction false} OpensByLock(s: State, c: nat, t: nat, page: nat, cut: nat)
    requires Held(s, c, t, page, cut) && s.cores[t].phase.Scan? && Opening(s, t).Lock?
    ensures Opens(s, Opening(s, t), c, t, page, cut)
  {
  }

  lemma {:induction false} OpensByOtherStore(s: State, c: nat, t: nat, d: nat, page: nat, cut: nat)
    requires Held(s, c, t, page, cut) && s.cores[t].phase.Scan? && s.cores[t].phase.i < |s.cores|
    requires d < |s.cores| && MaskOk(s.cores[d]) && Holds(s, d, s.cores[t].phase.i) &&
               s.cores[s.cores[t].phase.i].lock == Some(d)
    requires Opening(s, t) == Store(d)
    ensures Opens(s, Opening(s, t), c, t, page, cut)
  {
    var i, p := s.cores[t].phase.i, s.cores[d].phase;
    StoredFrame(s.cores[i], p.page, p.stage);
    assert Do(s, Store(d)) == Some(Advance(Put(s, i, Stored(s.cores[i], p.page, p.stage)), d,
        Locked(p.page, p.cut, i, NextStage(p.stage))));
  }

  lemma {:induction false} OpensByOtherTimeOut(s: State, c: nat, t: nat, d: nat, page: nat, cut: nat)
    requires Held(s, c, t, page, cut) && s.cores[t].phase.Scan? && s.cores[t].phase.i < |s.cores|
    requires d < |s.cores| && MaskOk(s.cores[d]) && Holds(s, d, s.cores[t].phase.i) &&
               s.cores[s.cores[t].phase.i].lock == Some(d)
    requires Opening(s, t) == TimeOut(d)
    ensures Opens(s, Opening(s, t), c, t, page, cut)
  {
  }

  lemma {:induction false} OpensByStore(s: State, c: nat, t: nat, page: nat, cut: nat)
    requires Held(s, c, t, page, cut) && s.cores[t].phase.Locked? && s.cores[t].phase.i < |s.cores| &&
               s.cores[t].phase.i != t
    requires s.cores[t].phase.stage != Wait
    ensures Opens(s, Opening(s, t), c, t, page, cut)
  {
  }

  lemma {:induction false} OpensByTimeOut(s: State, c: nat, t: nat, page: nat, cut: nat)
    requires Held(s, c, t, page, cut) && s.cores[t].phase.Locked? && s.cores[t].phase.i < |s.cores| &&
               s.cores[t].phase.i != t
    requires s.cores[t].phase.stage == Wait
    ensures Opens(s, Opening(s, t), c, t, page, cut)
  {
  }

  lemma {:induction false} OpeningStep(s: State, c: nat, t: nat, page: nat, cut: nat)
    requires Inv(s) && Held(s, c, t, page, cut)
    ensures Opens(s, Opening(s, t), c, t, page, cut)
  {
    assert CoreOk(s, c) && CoreOk(s, t);
    match s.cores[t].phase
    case Idle => OpensAtEnd(s, c, t, page, cut);
    case Done(_, _) => OpensAtEnd(s, c, t, page, cut);
    case Locked(_, _, _, stage) =>
      if stage == Wait {
        OpensByTimeOut(s, c, t, page, cut);
      } else {
        OpensByStore(s, c, t, page, cut);
      }
    case Flush(_, _) =>
    case Scan(_, _, i) =>
      if Opening(s, t).Skip? {
        OpensBySkip(s, c, t, page, cut);
      } else if Opening(s, t).Lock? {
        OpensByLock(s, c, t, page, cut);
      } else {
        var d := s.cores[i].lock.value;
        assert CoreOk(s, i);
        assert CoreOk(s, d);
        if StageLeft(s, d) == 0 {
          OpensByOtherTimeOut(s, c, t, d, page, cut);
        } else {
          OpensByOtherStore(s, c, t, d, page, cut);
        }
      }
  }

  lemma {:induction false} HeldFails(s: State, c: nat, t: nat, page: nat, cut: nat)
    requires Inv(s) && Held(s, c, t, page, cut)
    ensures Fails(s, c, t, page, cut)
    decreases Way(s, t)
  {
    var st := Opening(s, t);
    OpeningStep(s, c, t, page, cut);
    var s' := Do(s, st).value;
    StepKeepsInv(s, st);
    if Doomed(s', c, t, page, cut) {
      DoomedFails(s', c, t, page, cut);
    } else {
      HeldFails(s', c, t, page, cut);
    }
    Prepend(s, st, c, t, page, cut);
  }

  // ----- the condition is exact -----

  /** The mailbox condition is exact. Core `c` has just taken the lock of core `t`: whenever it can see an
      acknowledgement, in any continuation, core `t` is clean, if and only if it was clean, or the mailbox is good, or
      core `t` cannot unmask its interrupts before it has passed its own mailbox, so that it never answers. */
  lemma {:induction false} MailboxConditionIsExact(s0: State, before: seq<Step>, c: nat, t: nat, page: nat, cut: nat)
    requires Initial(s0) && Run(s0, before).Some?
    requires var s := Run(s0, before).value;
             c < |s.cores| && t < |s.cores| && t != c && s.cores[c].phase == Locked(page, cut, t, SetResp)
    ensures var s := Run(s0, before).value;
            Reliable(s, c, t, page, cut) <==>
            Clean(s.cores[t].tlb, page, cut) || Good(s.cores[t], page) || Stuck(s.cores[t], t)
  {
    var s := Run(s0, before).value;
    ReachableIsOrderly(s0, before);
    assert CoreOk(s, c) && CoreOk(s, t);
    if Clean(s.cores[t].tlb, page, cut) || Good(s.cores[t], page) {
      GoodIsReliable(s, c, t, page, cut);
    } else if Stuck(s.cores[t], t) {
      BlockedIsReliable(s, c, t, page, cut);
    } else if s.cores[t].Masked() {
      HeldFails(s, c, t, page, cut);
    } else {
      DoomedFails(s, c, t, page, cut);
    }
  }
}
