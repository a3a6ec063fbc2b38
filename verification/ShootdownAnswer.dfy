/** Whether a request of smp_tlb_core is answered at all (Kernel/drivers/core/smp.c:293-315 and 908-931). The handler
    clears the command after its acknowledgement, and by then the next caller may have stored a new one. */
module ShootdownAnswer {
  import opened Common
  import opened Shootdown

  /** Core `c` has asked core `t`, but the command is cleared and no handler is on its way to an acknowledgement. */
  predicate Dropped(s: State, c: nat, t: nat) {
    && c < |s.cores| && t < |s.cores| && s.cores[c].phase.Locked? && s.cores[c].phase.i == t
    && !s.cores[c].phase.stage.SetResp? && !s.cores[c].phase.stage.SetCmd?
    && !s.cores[t].cmd && !s.cores[t].resp && Passive(s.cores[t].handler)
  }

  /** The handler is off, or will not acknowledge unless it still finds a command. */
  predicate Passive(h: Handler) { h == Off || h == ClearResp || h == TestCmd || h == ClearCmd }

  /** The request of core `c` to core `t` is on its way: before its stores core `t` is off, and once core `c` waits it
      is pending, served or answered. */
  predicate Stands(s: State, c: nat, t: nat) {
    && c < |s.cores| && t < |s.cores| && s.cores[c].phase.Locked? && s.cores[c].phase.i == t
    && var k := s.cores[t];
       match s.cores[c].phase.stage
       case SetResp => k.handler == Off && !k.ipi
       case SetCmd => k.handler == Off && !k.ipi
       case Wait => Underway(k)
       case _ => k.handler == Off && !k.ipi && k.cmd
  }

  /** Pending, served or answered. */
  predicate Underway(k: Core) {
    match k.handler
    case Off => if k.ipi then k.cmd else k.resp
    case ClearResp => !k.ipi && k.cmd
    case TestCmd => !k.ipi && k.cmd
    case ClearCmd => !k.ipi && k.resp
    case _ => !k.ipi
  }

  // ----- steps elsewhere -----

  lemma {:induction false} CmdStays(s: State, st: Step, t: nat)
    requires Do(s, st).Some? && t < |s.cores| && !Touches(s, st, t)
    ensures t < |Do(s, st).value.cores| && Do(s, st).value.cores[t].cmd == s.cores[t].cmd
  {
    if Hardware(st) {
    } else if Interrupt(st) {
    } else if Walks(st) {
    } else if Calls(st) {
      CallCmdStays(s, st, t);
    }
  }

  lemma {:induction false} CallCmdStays(s: State, st: Step, t: nat)
    requires Calls(st) && st.c < |s.cores| && DoCall(s, st).Some? && t < |s.cores| && Target(s.cores[st.c].phase) != t
    ensures t < |DoCall(s, st).value.cores| && DoCall(s, st).value.cores[t].cmd == s.cores[t].cmd
  {
  }

  lemma {:induction false} WalksUnlocked(s: State, st: Step)
    ensures Do(s, st).Some? && Walks(st) ==> st.c < |s.cores| && !s.cores[st.c].phase.Locked?
  {
  }

  lemma {:induction false} Elsewhere(s: State, st: Step, s': State, c: nat, t: nat)
    requires Do(s, st) == Some(s') && c < |s.cores| && t < |s.cores| && !Touches(s, st, t)
    requires s.cores[c].phase.Locked? && s.cores[c].phase.i == t
    ensures |s'.cores| == |s.cores| && s'.cores[c].phase == s.cores[c].phase
    ensures SameMailbox(s.cores[t], s'.cores[t]) && s'.cores[t].cmd == s.cores[t].cmd
  {
    FrameOf(s, st, c);
    FrameOf(s, st, t);
    CmdStays(s, st, t);
    WalksUnlocked(s, st);
  }

  /** Only the holder of the lock touches the mailbox. */
  lemma {:induction false} HolderCalls(s: State, st: Step, c: nat, t: nat)
    requires Calls(st) && st.c < |s.cores| && Target(s.cores[st.c].phase) == t && Do(s, st).Some?
    requires c < |s.cores| && s.cores[c].phase.Locked? && s.cores[c].phase.i == t && CallerOk(s, c) && CallerOk(s, st.c)
    ensures st.c == c && !st.Lock?
  {
  }

  // ----- a dropped request is never answered -----

  lemma {:induction false} DroppedStep(s: State, st: Step, s': State, c: nat, t: nat)
    requires Inv(s) && Dropped(s, c, t) && Do(s, st) == Some(s') && !((st.SeeAck? || st.TimeOut?) && st.c == c)
    ensures Dropped(s', c, t)
  {
    assert CoreOk(s, c);
    if Interrupt(st) && st.t == t {
      DroppedHandler(s, st, s', c, t);
    } else if Calls(st) && Target(s.cores[st.c].phase) == t {
      assert CoreOk(s, st.c);
      HolderCalls(s, st, c, t);
      DroppedStore(s, s', c, t);
    } else {
      Elsewhere(s, st, s', c, t);
    }
  }

  lemma {:induction false} DroppedHandler(s: State, st: Step, s': State, c: nat, t: nat)
    requires Dropped(s, c, t) && Do(s, st) == Some(s') && Interrupt(st) && st.t == t
    ensures Dropped(s', c, t)
  {
  }

  lemma {:induction false} DroppedStore(s: State, s': State, c: nat, t: nat)
    requires Dropped(s, c, t) && Do(s, Store(c)) == Some(s')
    ensures Dropped(s', c, t)
  {
  }

  /** Once a request is dropped, its caller waits in vain: it goes on only by its time-out. */
  lemma {:induction false} DroppedIsNeverAnswered(s: State, c: nat, t: nat, steps: seq<Step>)
    requires Inv(s) && Dropped(s, c, t) && Run(s, steps).Some? && Stays(steps, c)
    ensures Dropped(Run(s, steps).value, c, t) && Do(Run(s, steps).value, SeeAck(c)).None?
    decreases steps
  {
    if steps == [] {
      assert Run(s, steps) == Some(s);
    } else {
      var s' := Do(s, steps[0]).value;
      assert steps[0] in steps;
      StepKeepsInv(s, steps[0]);
      DroppedStep(s, steps[0], s', c, t);
      DroppedIsNeverAnswered(s', c, t, steps[1..]);
    }
  }

  // ----- a request that stands is never dropped -----

  lemma {:induction false} StandsStep(s: State, st: Step, s': State, c: nat, t: nat)
    requires Inv(s) && Stands(s, c, t) && Do(s, st) == Some(s') && !((st.SeeAck? || st.TimeOut?) && st.c == c)
    ensures Stands(s', c, t)
  {
    assert CoreOk(s, c);
    if Interrupt(st) && st.t == t {
      StandsHandler(s, st, s', c, t);
    } else if Calls(st) && Target(s.cores[st.c].phase) == t {
      assert CoreOk(s, st.c);
      HolderCalls(s, st, c, t);
      StandsStore(s, s', c, t);
    } else {
      Elsewhere(s, st, s', c, t);
    }
  }

  lemma {:induction false} StandsHandler(s: State, st: Step, s': State, c: nat, t: nat)
    requires Stands(s, c, t) && Do(s, st) == Some(s') && Interrupt(st) && st.t == t
    ensures Stands(s', c, t)
  {
  }

  lemma {:induction false} StandsStore(s: State, s': State, c: nat, t: nat)
    requires Stands(s, c, t) && Do(s, Store(c)) == Some(s')
    ensures Stands(s', c, t)
  {
  }

  lemma {:induction false} StandsThrough(s: State, c: nat, t: nat, steps: seq<Step>)
    requires Inv(s) && Stands(s, c, t) && Run(s, steps).Some? && Stays(steps, c)
    ensures Inv(Run(s, steps).value) && Stands(Run(s, steps).value, c, t)
    decreases steps
  {
    if steps == [] {
      assert Run(s, steps) == Some(s);
    } else {
      var s' := Do(s, steps[0]).value;
      assert steps[0] in steps;
      StepKeepsInv(s, steps[0]);
      StandsStep(s, steps[0], s', c, t);
      StandsThrough(s', c, t, steps[1..]);
    }
  }

  // ----- when a request can be dropped -----

  /** Some continuation drops the request while core `c` waits. */
  ghost predicate CanBeDropped(s: State, c: nat, t: nat) {
    exists steps :: Stays(steps, c) && Run(s, steps).Some? && Dropped(Run(s, steps).value, c, t)
  }

  lemma {:induction false} StandsIsNotDropped(s: State, c: nat, t: nat)
    requires Stands(s, c, t)
    ensures !Dropped(s, c, t)
  {
  }

  lemma {:induction false} StandsMeansNever(s: State, c: nat, t: nat)
    requires Inv(s) && Stands(s, c, t)
    ensures !CanBeDropped(s, c, t)
  {
    forall steps | Stays(steps, c) && Run(s, steps).Some?
      ensures !Dropped(Run(s, steps).value, c, t)
    {
      StandsThrough(s, c, t, steps);
      StandsIsNotDropped(Run(s, steps).value, c, t);
    }
  }

  /** The handler of core `t` is about to clear the command while core `c` makes its stores. */
  predicate Late(s: State, c: nat, t: nat, stage: Stage) {
    && c < |s.cores| && t < |s.cores| && s.cores[c].phase.Locked? && s.cores[c].phase.i == t
    && s.cores[c].phase.stage == stage && s.cores[c].handler == Off && s.cores[t].handler == ClearCmd
    && (stage != SetResp ==> !s.cores[t].resp)
  }

  lemma {:induction false} LateStore(s: State, c: nat, t: nat, stage: Stage)
    requires Late(s, c, t, stage) && stage != Wait
    ensures Do(s, Store(c)).Some? && Late(Do(s, Store(c)).value, c, t, NextStage(stage))
  {
  }

  lemma {:induction false} ClearDrops(s: State, c: nat, t: nat)
    requires Late(s, c, t, SetAddr)
    ensures Do(s, Handle(t)).Some? && Dropped(Do(s, Handle(t)).value, c, t)
  {
  }

  lemma {:induction false} LateClear(s: State, c: nat, t: nat)
    requires Late(s, c, t, SetResp)
    ensures CanBeDropped(s, c, t)
  {
    assert Run(s, []) == Some(s);
    LateStore(s, c, t, SetResp);
    var steps, s' := Then(s, [], s, Store(c));
    LateStore(s', c, t, SetCmd);
    steps, s' := Then(s, steps, s', Store(c));
    ClearDrops(s', c, t);
    steps, s' := Then(s, steps, s', Handle(t));
    assert Stays(steps, c) && Dropped(s', c, t);
  }

  /** In every run without a time-out so far: when core `c` has just locked the mailbox of core `t`, its request can get
      lost if and only if core `t` has answered the caller before it and not yet left its handler. */
  lemma {:induction false} RequestIsLostIff(s0: State, before: seq<Step>, c: nat, t: nat)
    requires Initial(s0) && Run(s0, before).Some? && !Run(s0, before).value.timedOut
    requires var s := Run(s0, before).value;
             && c < |s.cores| && t < |s.cores| && s.cores[c].phase.Locked? && s.cores[c].phase.i == t
             && s.cores[c].phase.stage == SetResp
    ensures CanBeDropped(Run(s0, before).value, c, t) <==> Run(s0, before).value.cores[t].handler == ClearCmd
  {
    var s := Run(s0, before).value;
    InitialInv(s0);
    RunKeepsInv(s0, before);
    RunKeepsQuiet(s0, before);
    assert CoreOk(s, c) && QuietOk(s, t);
    if s.cores[t].handler == ClearCmd {
      LateClear(s, c, t);
    } else {
      StandsMeansNever(s, c, t);
    }
  }

  // ----- a request that stands is answered -----

  /** Steps of core `t`'s own interrupt. */
  ghost predicate ByTarget(steps: seq<Step>, t: nat) { forall st | st in steps :: Interrupt(st) && st.t == t }

  /** How many steps the answer takes. */
  function ToAnswer(k: Core): nat {
    match k.handler
    case Off => if k.ipi then 6 else 0
    case ClearResp => 5
    case TestCmd => 4
    case FetchAddr => 3
    case Invlpg(_) => 2
    case Ack => 1
    case ClearCmd => 0
  }

  lemma {:induction false} NextOnTheWay(s: State, c: nat, t: nat) returns (st: Step, s': State)
    requires Inv(s) && Stands(s, c, t) && s.cores[c].phase.stage == Wait && !s.cores[t].Masked() && !s.cores[t].resp
    ensures Interrupt(st) && st.t == t && Do(s, st) == Some(s') && ToAnswer(s'.cores[t]) < ToAnswer(s.cores[t])
    ensures |s'.cores| == |s.cores| && s'.cores[c].phase == s.cores[c].phase && !s'.cores[t].Masked()
  {
    st := if s.cores[t].handler == Off then Deliver(t) else Handle(t);
    s' := Do(s, st).value;
  }

  /** A core that waits for a request that stands sees its acknowledgement as soon as the target, which does not mask
      its interrupts, has made at most six steps. */
  lemma {:induction false} StandingIsAnswered(s: State, c: nat, t: nat) returns (steps: seq<Step>)
    requires Inv(s) && Stands(s, c, t) && s.cores[c].phase.stage == Wait && !s.cores[t].Masked()
    ensures ByTarget(steps, t) && |steps| <= 6 && Acknowledged(s, c, steps)
    ensures |steps| <= ToAnswer(s.cores[t])
    decreases ToAnswer(s.cores[t])
  {
    assert CoreOk(s, c);
    if s.cores[t].resp {
      steps := [];
      assert Run(s, steps) == Some(s);
    } else {
      var st, s' := NextOnTheWay(s, c, t);
      StepKeepsInv(s, st);
      StandsStep(s, st, s', c, t);
      var rest := StandingIsAnswered(s', c, t);
      steps := [st] + rest;
      assert steps[1..] == rest;
    }
  }

  // ----- a request is lost -----

  /** Two cores without a time-out; core 0 is in phase `p`, and core 1 is `k`. */
  predicate Pair(s: State, p: Phase, k: Core) {
    && |s.cores| == 2 && s.bsp == 0 && s.clock == 0 && !s.timedOut && s.cores[1] == k
    && s.cores[0].present && s.cores[0].handler == Off && s.cores[0].phase == p && s.cores[0].job == None
  }

  lemma {:induction false} Flushes(steps: seq<Step>, s: State, page: nat, k: Core)
    returns (steps': seq<Step>, s': State)
    requires Run(Start(), steps) == Some(s) && Pair(s, Idle, k)
    ensures Run(Start(), steps') == Some(s') && Pair(s', Scan(page, 0, 0), k)
  {
    steps', s' := Then(Start(), steps, s, Unmap(0, page));
    assert Pair(s', Flush(page, 0), k);
    steps', s' := Then(Start(), steps', s', LocalFlush(0));
  }

  lemma {:induction false} Locks(steps: seq<Step>, s: State, page: nat, k: Core) returns (steps': seq<Step>, s': State)
    requires Run(Start(), steps) == Some(s) && Pair(s, Scan(page, 0, 0), k) && k.present && k.lock == None
    ensures Run(Start(), steps') == Some(s') && Pair(s', Locked(page, 0, 1, SetResp), k.(lock := Some(0)))
  {
    steps', s' := Then(Start(), steps, s, Skip(0));
    assert Pair(s', Scan(page, 0, 1), k);
    steps', s' := Then(Start(), steps', s', Lock(0));
  }

  lemma {:induction false} Asks(steps: seq<Step>, s: State, page: nat, k: Core) returns (steps': seq<Step>, s': State)
    requires Run(Start(), steps) == Some(s) && Pair(s, Locked(page, 0, 1, SetResp), k)
    ensures Run(Start(), steps') == Some(s')
    ensures Pair(s', Locked(page, 0, 1, Wait), k.(resp := false, cmd := true, addr := page, ipi := true))
  {
    steps', s' := Then(Start(), steps, s, Store(0));
    assert Pair(s', Locked(page, 0, 1, SetCmd), k.(resp := false));
    steps', s' := Then(Start(), steps', s', Store(0));
    assert Pair(s', Locked(page, 0, 1, SetAddr), k.(resp := false, cmd := true));
    steps', s' := Then(Start(), steps', s', Store(0));
    assert Pair(s', Locked(page, 0, 1, SendIpi), k.(resp := false, cmd := true, addr := page));
    steps', s' := Then(Start(), steps', s', Store(0));
  }

  lemma {:induction false} Serves(steps: seq<Step>, s: State, p: Phase, k: Core) returns (steps': seq<Step>, s': State)
    requires Run(Start(), steps) == Some(s) && Pair(s, p, k) && k.cmd && k.ipi && k.handler == Off && !k.Masked()
    ensures Run(Start(), steps') == Some(s')
    ensures Pair(s', p, k.(ipi := false, resp := true, handler := ClearCmd, tlb := k.tlb - {k.addr}))
  {
    steps', s' := Then(Start(), steps, s, Deliver(1));
    assert Pair(s', p, k.(ipi := false, handler := ClearResp));
    steps', s' := Then(Start(), steps', s', Handle(1));
    assert Pair(s', p, k.(ipi := false, resp := false, handler := TestCmd));
    steps', s' := Then(Start(), steps', s', Handle(1));
    steps', s' := ServesPage(steps', s', p, k.(ipi := false, resp := false, handler := FetchAddr));
  }

  lemma {:induction false} ServesPage(steps: seq<Step>, s: State, p: Phase, k: Core)
    returns (steps': seq<Step>, s': State)
    requires Run(Start(), steps) == Some(s) && Pair(s, p, k) && k.handler == FetchAddr
    ensures Run(Start(), steps') == Some(s')
    ensures Pair(s', p, k.(resp := true, handler := ClearCmd, tlb := k.tlb - {k.addr}))
  {
    steps', s' := Then(Start(), steps, s, Handle(1));
    assert Pair(s', p, k.(handler := Invlpg(k.addr)));
    steps', s' := Then(Start(), steps', s', Handle(1));
    assert Pair(s', p, k.(handler := Ack, tlb := k.tlb - {k.addr}));
    steps', s' := Then(Start(), steps', s', Handle(1));
  }

  lemma {:induction false} Finishes(steps: seq<Step>, s: State, page: nat, k: Core)
    returns (steps': seq<Step>, s': State)
    requires Run(Start(), steps) == Some(s) && Pair(s, Locked(page, 0, 1, Wait), k) && k.resp
    ensures Run(Start(), steps') == Some(s') && Pair(s', Idle, k.(lock := None))
  {
    steps', s' := Then(Start(), steps, s, SeeAck(0));
    assert Pair(s', Scan(page, 0, 2), k.(lock := None));
    steps', s' := Then(Start(), steps', s', Skip(0));
    assert Pair(s', Done(page, 0), k.(lock := None));
    steps', s' := Then(Start(), steps', s', Return(0));
  }

  /** No wait has timed out, and yet a request gets lost: core 1 has answered for page 1 and not left its handler when
      core 0 asks for page 2. In some continuation core 0 then waits in vain, whatever follows. */
  lemma {:induction false} SecondRequestIsLost() returns (before: seq<Step>, s: State)
    ensures Initial(Start()) && Run(Start(), before) == Some(s) && !s.timedOut && |s.cores| == 2
    ensures s.cores[0].phase == Locked(2, 0, 1, SetResp) && CanBeDropped(s, 0, 1)
  {
    var k := Fresh(true).(lock := Some(0), resp := false, cmd := true, addr := 1, ipi := true);
    before, s := FirstRequest(k);
    before, s := Serves(before, s, Locked(1, 0, 1, Wait), k);
    k := k.(ipi := false, resp := true, handler := ClearCmd, tlb := k.tlb - {k.addr});
    before, s := Finishes(before, s, 1, k);
    k := k.(lock := None);
    before, s := Flushes(before, s, 2, k);
    before, s := Locks(before, s, 2, k);
    RequestIsLostIff(Start(), before, 0, 1);
  }

  lemma {:induction false} FirstRequest(k: Core) returns (steps: seq<Step>, s: State)
    requires k == Fresh(true).(lock := Some(0), resp := false, cmd := true, addr := 1, ipi := true)
    ensures Run(Start(), steps) == Some(s) && Pair(s, Locked(1, 0, 1, Wait), k)
  {
    var idle := Fresh(true);
    steps, s := [], Start();
    assert Run(Start(), steps) == Some(s);
    steps, s := Flushes(steps, s, 1, idle);
    steps, s := Locks(steps, s, 1, idle);
    steps, s := Asks(steps, s, 1, idle.(lock := Some(0)));
  }
}
