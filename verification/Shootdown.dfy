/** TLB shootdown (Kernel/mm/pager.c:218-222 and 329-371, Kernel/drivers/core/smp.c:293-315 and 898-950) and the lock
    window of avmf_free (Kernel/mm/avmf.c:1058-1069), as a machine whose steps interleave freely.

    A page is one leaf of the flat map, 4 KiB or 2 MiB: invlpg drops whatever the core caches of it. Every translation
    carries the time at which pager_map created it, so that a cached translation can be told from a later one of the
    same page. The loads and stores of the protocol are separate steps. A core takes the interrupt only while it is not
    masked, and while its handler runs the code that it interrupted stands still. */
module Shootdown {
  import opened Common

  datatype Entry = Entry(frame: nat, stamp: nat)

  /** The stores of smp_tlb_core, in program order, and its wait loop. */
  datatype Stage = SetResp | SetCmd | SetAddr | SendIpi | Wait

  /** Where a core stands in pager_unmap(page); `cut` is the time at which it cleared the entry. */
  datatype Phase =
    | Idle
    | Flush(page: nat, cut: nat)                       // entry cleared, local invlpg to come
    | Scan(page: nat, cut: nat, i: nat)                // the loop of smp_tlb at core i
    | Locked(page: nat, cut: nat, i: nat, stage: Stage) // in smp_tlb_core(i), holding its command_lock
    | Done(page: nat, cut: nat)

  /** Where a core stands in smp_tlb_ipi_handler. */
  datatype Handler = Off | ClearResp | TestCmd | FetchAddr | Invlpg(page: nat) | Ack | ClearCmd

  /** One frame given back by avmf_free: the leaf that mapped it and the time of the bitmap_clear. */
  datatype Freed = Freed(page: nat, frame: nat, cut: nat)

  /** avmf_free of the 4 KiB frames from `frame` on; `pages[k]` is the leaf that holds the k-th of them, so that a 2 MiB
      leaf stands there 512 times. The first `done` are finished; `bitCleared` says whether the bit of the next one is
      cleared, and `since` when. */
  datatype Job = Job(pages: seq<nat>, frame: nat, done: nat, bitCleared: bool, since: nat) {
    predicate More() { done < |pages| }

    function Page(): nat
      requires More()
    {
      pages[done]
    }

    /** The frame that is being freed. */
    function Current(): Freed
      requires More()
    {
      Freed(Page(), frame + done, since)
    }
  }

  datatype Core = Core(
    present: bool,
    tlb: map<nat, Entry>,
    cmd: bool, resp: bool, addr: nat,  // tlb_cmd, tlb_resp, tlb_addr
    lock: Option<nat>,                 // command_lock and its holder
    ipi: bool,                         // a TLB interrupt is pending
    handler: Handler,
    phase: Phase,
    job: Option<Job>)
  {
    /** spin_lock_irqsave disables interrupts: in smp_tlb_core, and in avmf_free from its first bit to its unlock. */
    predicate Masked() { phase.Locked? || job.Some? }
  }

  datatype State = State(
    cores: seq<Core>,
    bsp: nat,
    table: map<nat, Entry>,    // the live translations
    clock: nat,
    timedOut: bool,            // some acknowledgement wait has timed out
    avmfLock: Option<nat>,
    bitmap: set<nat>,          // frames whose bit is set
    freed: set<Freed>,
    unsure: set<nat>,          // cores whose present call has met a time-out or a stale mailbox
    lost: set<Freed>)          // freed frames whose pager_unmap was such a call

  datatype Step =
    | MapPage(page: nat, frame: nat)
    | Fill(c: nat, page: nat)          // a core caches a live translation, at any time
    | Evict(c: nat, page: nat)         // a core drops a cached translation, at any time
    | Unmap(c: nat, page: nat)         // pager_unmap up to the cleared entry
    | LocalFlush(c: nat)
    | Skip(c: nat)                     // the loop of smp_tlb passes an absent core or the bootstrap core, or ends
    | Lock(c: nat)
    | Store(c: nat)                    // the next store of smp_tlb_core
    | SeeAck(c: nat)
    | TimeOut(c: nat)
    | Return(c: nat)
    | Deliver(t: nat)                  // the interrupt enters the handler
    | Handle(t: nat)                   // the next step of the handler
    | FreeBegin(c: nat, pages: seq<nat>, frame: nat)
    | FreeBit(c: nat)
    | FreeEnd(c: nat)
    | Alloc(frames: set<nat>)          // a physical allocation, under avmf_lock

  function Put(s: State, c: nat, k: Core): State
    requires c < |s.cores|
  {
    s.(cores := s.cores[c := k])
  }

  function Advance(s: State, c: nat, p: Phase): State
    requires c < |s.cores|
  {
    Put(s, c, s.cores[c].(phase := p))
  }

  // ----- the mailbox -----

  /** The mailbox condition at the moment when command_lock is taken: no interrupt is pending and no earlier request is
      being served that may still acknowledge, unless it names the same page. */
  predicate Good(k: Core, page: nat) {
    match k.handler
    case Off => k.ipi ==> k.addr == page
    case ClearCmd => k.ipi ==> k.addr == page
    case Invlpg(a) => a == page
    case Ack => false
    case _ => k.addr == page
  }

  // ----- the steps -----

  /** What the next store of smp_tlb_core does to the target. */
  function Stored(k: Core, page: nat, stage: Stage): Core {
    match stage
    case SetResp => k.(resp := false)
    case SetCmd => k.(cmd := true)
    case SetAddr => k.(addr := page)
    case SendIpi => k.(ipi := true)
    case Wait => k
  }

  function NextStage(stage: Stage): Stage {
    match stage
    case SetResp => SetCmd
    case SetCmd => SetAddr
    case SetAddr => SendIpi
    case _ => Wait
  }

  /** The next step of the handler on core `t`. */
  function DoHandle(k: Core): Option<Core> {
    match k.handler
    case Off => None
    case ClearResp => Some(k.(resp := false, handler := TestCmd))
    case TestCmd => Some(k.(handler := if k.cmd then FetchAddr else ClearCmd))
    case FetchAddr => Some(k.(handler := Invlpg(k.addr)))
    case Invlpg(a) => Some(k.(tlb := k.tlb - {a}, handler := Ack))
    case Ack => Some(k.(resp := true, handler := ClearCmd))
    case ClearCmd => Some(k.(cmd := false, handler := Off))
  }

  /** The pager_unmap that a core may begin: any page, or the next page of its avmf_free once the bit is cleared. */
  predicate MayUnmap(k: Core, page: nat) {
    k.present && k.phase == Idle &&
    (k.job.None? || (k.job.value.More() && k.job.value.bitCleared && page == k.job.value.Page()))
  }

  function AfterReturn(job: Option<Job>): Option<Job> {
    if job.None? then None else Some(job.value.(done := job.value.done + 1, bitCleared := false))
  }

  /** The steps that need neither a caller nor a handler. */
  predicate Hardware(st: Step) { st.MapPage? || st.Alloc? || st.Fill? || st.Evict? }

  function DoHardware(s: State, st: Step): Option<State>
    requires Hardware(st)
  {
    match st
    case MapPage(page, frame) =>
      if page in s.table then None
      else Some(s.(table := s.table[page := Entry(frame, s.clock)], clock := s.clock + 1))
    case Alloc(frames) =>
      if s.avmfLock.Some? || frames * s.bitmap != {} then None else Some(s.(bitmap := s.bitmap + frames))
    case Fill(c, page) =>
      if c >= |s.cores| || page !in s.table then None
      else Some(Put(s, c, s.cores[c].(tlb := s.cores[c].tlb[page := s.table[page]])))
    case Evict(c, page) =>
      if c >= |s.cores| then None else Some(Put(s, c, s.cores[c].(tlb := s.cores[c].tlb - {page})))
  }

  /** The steps of the interrupt. */
  predicate Interrupt(st: Step) { st.Deliver? || st.Handle? }

  function DoInterrupt(s: State, st: Step): Option<State>
    requires Interrupt(st)
  {
    if st.t >= |s.cores| then None
    else
      var k := s.cores[st.t];
      if st.Deliver? then
        if k.ipi && k.handler == Off && !k.Masked() then Some(Put(s, st.t, k.(ipi := false, handler := ClearResp)))
            else None
      else if DoHandle(k).None? then None
      else Some(Put(s, st.t, DoHandle(k).value))
  }

  /** The steps of pager_unmap that touch no mailbox. */
  predicate Walks(st: Step) { st.Unmap? || st.LocalFlush? || st.Skip? || st.Return? }

  function DoWalk(s: State, st: Step): Option<State>
    requires Walks(st) && st.c < |s.cores|
  {
    var c := st.c;
    var k := s.cores[c];
    match st
    case Unmap(_, page) =>
      if !MayUnmap(k, page) then None
      else Some(Advance(s.(table := s.table - {page}, unsure := s.unsure - {c}), c, Flush(page, s.clock)))
    case LocalFlush(_) =>
      if !k.phase.Flush? then None
      else Some(Put(s, c, k.(tlb := k.tlb - {k.phase.page}, phase := Scan(k.phase.page, k.phase.cut, 0))))
    case Skip(_) =>
      if !k.phase.Scan? then None
      else if k.phase.i >= |s.cores| then Some(Advance(s, c, Done(k.phase.page, k.phase.cut)))
      else if s.cores[k.phase.i].present && k.phase.i != s.bsp then None
      else Some(Advance(s, c, Scan(k.phase.page, k.phase.cut, k.phase.i + 1)))
    case Return(_) =>
      if !k.phase.Done? then None
      else Some(Put(s.(lost := if c in s.unsure && k.job.Some? &&
          k.job.value.More() then s.lost + {k.job.value.Current()} else s.lost),
                    c, k.(phase := Idle, job := AfterReturn(k.job))))
  }

  /** The steps of smp_tlb_core. */
  predicate Calls(st: Step) { st.Lock? || st.Store? || st.SeeAck? || st.TimeOut? }

  /** The core whose mailbox the phase is about. */
  function Target(p: Phase): nat { if p.Scan? || p.Locked? then p.i else 0 }

  function DoCall(s: State, st: Step): Option<State>
    requires Calls(st) && st.c < |s.cores|
  {
    var c, p := st.c, s.cores[st.c].phase;
    if !(if st.Lock? then p.Scan? else p.Locked?) || p.i >= |s.cores| then None
    else
      var t := s.cores[p.i];
      match st
      case Lock(_) =>
        if !t.present || p.i == s.bsp || t.lock.Some? then None
        else Some(Advance(Put(s.(unsure := if Good(t, p.page) then s.unsure else s.unsure + {c}), p.i,
            t.(lock := Some(c))),
                          c, Locked(p.page, p.cut, p.i, SetResp)))
      case Store(_) =>
        if p.stage == Wait then None
        else Some(Advance(Put(s, p.i, Stored(t, p.page, p.stage)), c, Locked(p.page, p.cut, p.i, NextStage(p.stage))))
      case SeeAck(_) =>
        if p.stage != Wait || !t.resp then None else Some(Unlock(s, c, p))
      case TimeOut(_) =>
        if p.stage != Wait then None else Some(Unlock(s, c, p).(timedOut := true, unsure := s.unsure + {c}))
  }

  function Unlock(s: State, c: nat, p: Phase): State
    requires c < |s.cores| && p.Locked? && p.i < |s.cores|
  {
    Advance(Put(s, p.i, s.cores[p.i].(lock := None)), c, Scan(p.page, p.cut, p.i + 1))
  }

  /** The steps of avmf_free around its calls of pager_unmap. */
  predicate Frees(st: Step) { st.FreeBegin? || st.FreeBit? || st.FreeEnd? }

  function DoFree(s: State, st: Step): Option<State>
    requires Frees(st) && st.c < |s.cores|
  {
    var c := st.c;
    var k := s.cores[c];
    match st
    case FreeBegin(_, pages, frame) =>
      if !k.present || s.avmfLock.Some? || k.phase != Idle || k.job.Some? then None
      else Some(Put(s.(avmfLock := Some(c)), c, k.(job := Some(Job(pages, frame, 0, false, 0)))))
    case FreeBit(_) =>
      if k.job.None? || k.phase != Idle || k.job.value.bitCleared || !k.job.value.More() then None
      else
        var j := k.job.value.(bitCleared := true, since := s.clock);
        Some(Put(s.(bitmap := s.bitmap - {j.frame + j.done}, freed := s.freed + {j.Current()}), c, k.(job := Some(j))))
    case FreeEnd(_) =>
      if k.job.None? || k.phase != Idle || k.job.value.bitCleared || k.job.value.More() then None
      else Some(Put(s.(avmfLock := None), c, k.(job := None)))
  }

  /** One step of the machine; None when it cannot be taken. */
  function Do(s: State, st: Step): Option<State> {
    if Hardware(st) then DoHardware(s, st)
    else if Interrupt(st) then DoInterrupt(s, st)
    else if st.c >= |s.cores| || s.cores[st.c].handler != Off then None
    else if Walks(st) then DoWalk(s, st)
    else if Calls(st) then DoCall(s, st)
    else DoFree(s, st)
  }

  // ----- runs -----

  predicate Initial(s: State) {
    && s.bsp < |s.cores| && s.cores[s.bsp].present
    && (forall c | 0 <= c < |s.cores| ::
          var k := s.cores[c];
          k.tlb == map[] && !k.cmd && !k.resp && k.lock == None && !k.ipi && k.handler == Off && k.phase == Idle &&
              k.job == None)
    && (forall p | p in s.table :: s.table[p].stamp < s.clock)
    && !s.timedOut && s.avmfLock == None && s.freed == {} && s.unsure == {} && s.lost == {}
  }

  function Run(s: State, steps: seq<Step>): Option<State>
    decreases steps
  {
    if steps == [] then Some(s)
    else
      var s' := Do(s, steps[0]);
      if s'.None? then None else Run(s'.value, steps[1..])
  }

  // ----- the invariant -----

  /** The core caches nothing of `page` that is older than `cut`. */
  predicate Clean(tlb: map<nat, Entry>, page: nat, cut: nat) { page in tlb ==> tlb[page].stamp >= cut }

  /** The live table holds nothing of `page` that is older than `cut`. */
  predicate Gone(s: State, page: nat, cut: nat) {
    cut <= s.clock && (page in s.table ==> s.table[page].stamp >= cut)
  }

  /** No core caches anything of `page` older than `cut`, and none can get it any more. */
  ghost predicate Settled(s: State, page: nat, cut: nat) {
    Gone(s, page, cut) && forall t | 0 <= t < |s.cores| && s.cores[t].present :: Clean(s.cores[t].tlb, page, cut)
  }

  predicate Holds(s: State, c: nat, t: nat) {
    c < |s.cores| && s.cores[c].phase.Locked? && s.cores[c].phase.i == t
  }

  /** A request for (page, cut) whose mailbox was good: the target is clean, or whatever will acknowledge is about the
      page. */
  predicate Tracks(k: Core, page: nat, cut: nat, stage: Stage) {
    || Clean(k.tlb, page, cut)
    || (Good(k, page) && (stage != SetResp ==> !k.resp) && (stage == SendIpi || stage == Wait ==> k.addr == page))
  }

  /** What a call that is sure has achieved so far. */
  ghost predicate Achieved(s: State, c: nat, p: Phase)
    requires c < |s.cores| && !p.Idle? && !p.Flush? && (p.Locked? ==> p.i < |s.cores|)
  {
    && Clean(s.cores[c].tlb, p.page, p.cut)
    && (forall j | 0 <= j < |s.cores| && s.cores[j].present && j != s.bsp && (p.Done? || j < p.i) ::
          Clean(s.cores[j].tlb, p.page, p.cut))
    && (p.Locked? ==> Tracks(s.cores[p.i], p.page, p.cut, p.stage))
  }

  /** pager_unmap on core `c`. */
  ghost predicate CallerOk(s: State, c: nat)
    requires c < |s.cores|
  {
    var p := s.cores[c].phase;
    p.Idle? ||
    (&& s.cores[c].present && Gone(s, p.page, p.cut)
     && (p.Locked? ==> p.i < |s.cores| && s.cores[p.i].lock == Some(c))
     && (!p.Flush? && c !in s.unsure ==> Achieved(s, c, p)))
  }

  predicate LockOk(s: State, t: nat)
    requires t < |s.cores|
  {
    s.cores[t].lock.Some? ==> Holds(s, s.cores[t].lock.value, t)
  }

  /** A masked core is in no handler. */
  predicate MaskOk(k: Core) { k.Masked() ==> k.handler == Off }

  /** A core other than the bootstrap core never gets past its own mailbox, except by a time-out. */
  predicate SelfOk(s: State, c: nat)
    requires c < |s.cores|
  {
    var k := s.cores[c];
    match k.phase
    case Scan(_, _, i) => c == s.bsp || c in s.unsure || i <= c
    case Locked(_, _, i, stage) => c == s.bsp || c in s.unsure || i < c || (i == c && (stage != SetResp ==> !k.resp))
    case Done(_, _) => c == s.bsp || c in s.unsure
    case _ => true
  }

  /** A core has an avmf_free in progress exactly while it holds avmf_lock, and unmaps only the page whose bit it
      cleared. */
  predicate JobOk(s: State, c: nat)
    requires c < |s.cores|
  {
    var k := s.cores[c];
    && (k.job.Some? <==> s.avmfLock == Some(c))
    && (k.job.Some? ==>
          var j := k.job.value;
          && (j.bitCleared ==> j.More() && j.since <= s.clock)
          && (k.phase != Idle ==> j.bitCleared && k.phase.page == j.Page() && k.phase.cut >= j.since))
  }

  /** The frame that avmf_free is working on under the lock. */
  predicate InWindow(s: State, r: Freed) {
    && s.avmfLock.Some? && s.avmfLock.value < |s.cores|
    && var k := s.cores[s.avmfLock.value];
       k.job.Some? && k.job.value.bitCleared && k.job.value.More() && k.job.value.Current() == r
  }

  /** A freed frame is settled or lost, unless it is the one in the window. */
  ghost predicate FreedOk(s: State, r: Freed) { r in s.lost || Settled(s, r.page, r.cut) || InWindow(s, r) }

  ghost predicate CoreOk(s: State, c: nat)
    requires c < |s.cores|
  {
    CallerOk(s, c) && LockOk(s, c) && MaskOk(s.cores[c]) && SelfOk(s, c) && JobOk(s, c)
  }

  ghost predicate Inv(s: State) {
    && s.bsp < |s.cores| && s.cores[s.bsp].present
    && (forall p | p in s.table :: s.table[p].stamp < s.clock)
    && (forall c | 0 <= c < |s.cores| :: CoreOk(s, c))
    && (forall r | r in s.freed :: FreedOk(s, r))
  }

  // ----- what a step leaves alone -----

  /** The steps that touch the mailbox, the lock or the handler of core `t`. */
  predicate Touches(s: State, st: Step, t: nat) {
    (Interrupt(st) && st.t == t) || (Calls(st) && st.c < |s.cores| && Target(s.cores[st.c].phase) == t)
  }

  predicate SameMailbox(k: Core, k': Core) {
    k'.resp == k.resp && k'.addr == k.addr && k'.lock == k.lock && k'.ipi == k.ipi && k'.handler == k.handler
  }

  predicate Own(st: Step, c: nat) { (Walks(st) || Calls(st)) && st.c == c }

  /** Cached translations are old ones or live ones. */
  predicate FromTable(s: State, tlb: map<nat, Entry>, tlb': map<nat, Entry>) {
    forall p | p in tlb' :: (p in tlb && tlb'[p] == tlb[p]) || (p in s.table && tlb'[p] == s.table[p])
  }

  predicate Framed(s: State, st: Step, s': State, t: nat)
    requires t < |s.cores| && t < |s'.cores|
  {
    var k, k' := s.cores[t], s'.cores[t];
    && k'.present == k.present && FromTable(s, k.tlb, k'.tlb)
    && (!Own(st, t) ==> k'.phase == k.phase && (t in s'.unsure <==> t in s.unsure))
    && (!Touches(s, st, t) ==> SameMailbox(k, k'))
    && (!((Frees(st) || st.Return?) && st.c == t) ==> k'.job == k.job)
  }

  /** Only new translations enter the table, and history is never forgotten. */
  predicate Aged(s: State, st: Step, s': State) {
    && |s'.cores| == |s.cores| && s'.bsp == s.bsp && s'.clock >= s.clock
    && (s.timedOut ==> s'.timedOut) && s.lost <= s'.lost
    && (forall p | p in s'.table ::
          (p in s.table && s'.table[p] == s.table[p]) || (s'.table[p].stamp == s.clock && s'.clock > s.clock))
    && (!Frees(st) ==> s'.avmfLock == s.avmfLock && s'.freed == s.freed)
  }

  lemma {:induction false} HardwareFrame(s: State, st: Step, t: nat)
    requires Hardware(st) && DoHardware(s, st).Some? && t < |s.cores|
    ensures Aged(s, st, DoHardware(s, st).value) && Framed(s, st, DoHardware(s, st).value, t)
  {
  }

  lemma {:induction false} HandleFrame(k: Core)
    requires DoHandle(k).Some?
    ensures var k' := DoHandle(k).value;
            && k'.present == k.present && k'.phase == k.phase && k'.job == k.job && k'.lock == k.lock
            && forall p | p in k'.tlb :: p in k.tlb && k'.tlb[p] == k.tlb[p]
  {
  }

  lemma {:induction false} InterruptFrame(s: State, st: Step, t: nat)
    requires Interrupt(st) && DoInterrupt(s, st).Some? && t < |s.cores|
    ensures Aged(s, st, DoInterrupt(s, st).value) && Framed(s, st, DoInterrupt(s, st).value, t)
  {
    if st.Handle? {
      HandleFrame(s.cores[st.t]);
    }
  }

  lemma {:induction false} UnmapFrame(s: State, st: Step, t: nat)
    requires st.Unmap? && st.c < |s.cores| && DoWalk(s, st).Some? && t < |s.cores|
    ensures Aged(s, st, DoWalk(s, st).value) && Framed(s, st, DoWalk(s, st).value, t)
  {
  }

  lemma {:induction false} ReturnFrame(s: State, st: Step, t: nat)
    requires st.Return? && st.c < |s.cores| && DoWalk(s, st).Some? && t < |s.cores|
    ensures Aged(s, st, DoWalk(s, st).value) && Framed(s, st, DoWalk(s, st).value, t)
  {
  }

  lemma {:induction false} SkipFrame(s: State, st: Step, t: nat)
    requires (st.Skip? || st.LocalFlush?) && st.c < |s.cores| && DoWalk(s, st).Some? && t < |s.cores|
    ensures Aged(s, st, DoWalk(s, st).value) && Framed(s, st, DoWalk(s, st).value, t)
  {
  }

  lemma {:induction false} WalkFrame(s: State, st: Step, t: nat)
    requires Walks(st) && st.c < |s.cores| && DoWalk(s, st).Some? && t < |s.cores|
    ensures Aged(s, st, DoWalk(s, st).value) && Framed(s, st, DoWalk(s, st).value, t)
  {
    if st.Unmap? {
      UnmapFrame(s, st, t);
    } else if st.Return? {
      ReturnFrame(s, st, t);
    } else {
      SkipFrame(s, st, t);
    }
  }

  lemma {:induction false} LockFrame(s: State, st: Step, t: nat)
    requires st.Lock? && st.c < |s.cores| && DoCall(s, st).Some? && t < |s.cores|
    ensures Aged(s, st, DoCall(s, st).value) && Framed(s, st, DoCall(s, st).value, t)
  {
  }

  lemma {:induction false} StoredFrame(k: Core, page: nat, stage: Stage)
    ensures var k' := Stored(k, page, stage);
            && k'.present == k.present && k'.tlb == k.tlb && k'.phase == k.phase && k'.job == k.job
            && k'.lock == k.lock && k'.handler == k.handler
  {
  }

  lemma {:induction false} StoreFrame(s: State, st: Step, t: nat)
    requires st.Store? && st.c < |s.cores| && DoCall(s, st).Some? && t < |s.cores|
    ensures Aged(s, st, DoCall(s, st).value) && Framed(s, st, DoCall(s, st).value, t)
  {
    var p := s.cores[st.c].phase;
    StoredFrame(s.cores[p.i], p.page, p.stage);
  }

  lemma {:induction false} UnlockFrame(s: State, st: Step, t: nat)
    requires (st.SeeAck? || st.TimeOut?) && st.c < |s.cores| && DoCall(s, st).Some? && t < |s.cores|
    ensures Aged(s, st, DoCall(s, st).value) && Framed(s, st, DoCall(s, st).value, t)
  {
  }

  lemma {:induction false} CallFrame(s: State, st: Step, t: nat)
    requires Calls(st) && st.c < |s.cores| && DoCall(s, st).Some? && t < |s.cores|
    ensures Aged(s, st, DoCall(s, st).value) && Framed(s, st, DoCall(s, st).value, t)
  {
    if st.Lock? {
      LockFrame(s, st, t);
    } else if st.Store? {
      StoreFrame(s, st, t);
    } else {
      UnlockFrame(s, st, t);
    }
  }

  lemma {:induction false} FreeFrame(s: State, st: Step, t: nat)
    requires Frees(st) && st.c < |s.cores| && DoFree(s, st).Some? && t < |s.cores|
    ensures Aged(s, st, DoFree(s, st).value) && Framed(s, st, DoFree(s, st).value, t)
  {
  }

  lemma {:induction false} FrameOf(s: State, st: Step, t: nat)
    requires Do(s, st).Some? && t < |s.cores|
    ensures Aged(s, st, Do(s, st).value) && Framed(s, st, Do(s, st).value, t)
  {
    if Hardware(st) {
      HardwareFrame(s, st, t);
    } else if Interrupt(st) {
      InterruptFrame(s, st, t);
    } else if Walks(st) {
      WalkFrame(s, st, t);
    } else if Calls(st) {
      CallFrame(s, st, t);
    } else {
      FreeFrame(s, st, t);
    }
  }

  /** Every step, in terms of what it leaves alone. */
  ghost predicate Moved(s: State, st: Step, s': State) {
    Aged(s, st, s') && forall t | 0 <= t < |s.cores| :: Framed(s, st, s', t)
  }

  lemma {:induction false} StepMoves(s: State, st: Step)
    requires Do(s, st).Some? && s.cores != []
    ensures Moved(s, st, Do(s, st).value)
  {
    FrameOf(s, st, 0);
    forall t | 0 <= t < |s.cores|
      ensures Framed(s, st, Do(s, st).value, t)
    {
      FrameOf(s, st, t);
    }
  }

  lemma {:induction false} GoneStays(s: State, st: Step, s': State, page: nat, cut: nat)
    requires Aged(s, st, s') && Gone(s, page, cut)
    ensures Gone(s', page, cut)
  {
  }

  lemma {:induction false} CleanStays(s: State, st: Step, s': State, page: nat, cut: nat, t: nat)
    requires Moved(s, st, s') && Gone(s, page, cut) && t < |s.cores| && Clean(s.cores[t].tlb, page, cut)
    ensures Clean(s'.cores[t].tlb, page, cut)
  {
    assert Framed(s, st, s', t);
  }

  lemma {:induction false} SettledStays(s: State, st: Step, s': State, page: nat, cut: nat)
    requires Moved(s, st, s') && Settled(s, page, cut)
    ensures Settled(s', page, cut)
  {
    forall t | 0 <= t < |s'.cores| && s'.cores[t].present
      ensures Clean(s'.cores[t].tlb, page, cut)
    {
      assert Framed(s, st, s', t);
      CleanStays(s, st, s', page, cut, t);
    }
  }

  // ----- every step keeps the invariant -----

  /** A call of another core is not about a mailbox that `c` has locked. */
  lemma {:induction false} HeldMailbox(s: State, st: Step, c: nat, t: nat)
    requires Inv(s) && Do(s, st).Some? && t < |s.cores| && Calls(st) && st.c != c && Target(s.cores[st.c].phase) == t
    ensures s.cores[t].lock != Some(c)
  {
    assert CoreOk(s, st.c);
  }

  lemma {:induction false} HandleTracks(k: Core, page: nat, cut: nat, stage: Stage)
    requires DoHandle(k).Some? && Tracks(k, page, cut, stage)
    ensures Tracks(DoHandle(k).value, page, cut, stage)
  {
  }

  /** Interrupts keep a request on track. */
  lemma {:induction false} InterruptTracks(s: State, st: Step, page: nat, cut: nat, stage: Stage)
    requires Interrupt(st) && DoInterrupt(s, st).Some? && Tracks(s.cores[st.t], page, cut, stage)
    ensures Tracks(DoInterrupt(s, st).value.cores[st.t], page, cut, stage)
  {
    if st.Handle? {
      HandleTracks(s.cores[st.t], page, cut, stage);
    }
  }

  lemma {:induction false} TrackUntouched(s: State, st: Step, s': State, p: Phase)
    requires Moved(s, st, s') && p.Locked? && p.i < |s.cores| && !Touches(s, st, p.i)
    requires Gone(s, p.page, p.cut) && Tracks(s.cores[p.i], p.page, p.cut, p.stage)
    ensures Tracks(s'.cores[p.i], p.page, p.cut, p.stage)
  {
    assert Framed(s, st, s', p.i);
    if Clean(s.cores[p.i].tlb, p.page, p.cut) {
      CleanStays(s, st, s', p.page, p.cut, p.i);
    }
  }

  /** Nobody but the holder of its lock and its own interrupts touches a mailbox. */
  lemma {:induction false} OnlyInterrupts(s: State, st: Step, c: nat)
    requires Inv(s) && Do(s, st).Some? && c < |s.cores| && !Own(st, c) && s.cores[c].phase.Locked?
    ensures s.cores[c].phase.i < |s.cores| && s.cores[s.cores[c].phase.i].lock == Some(c)
    ensures Touches(s, st, s.cores[c].phase.i) ==> Interrupt(st)
  {
    assert CoreOk(s, c);
    if Calls(st) && Target(s.cores[st.c].phase) == s.cores[c].phase.i {
      HeldMailbox(s, st, c, s.cores[c].phase.i);
    }
  }

  lemma {:induction false} TrackStays(s: State, st: Step, s': State, c: nat)
    requires Inv(s) && Do(s, st) == Some(s') && Moved(s, st, s') && c < |s.cores| && !Own(st, c) &&
               s.cores[c].phase.Locked?
    ensures var p := s.cores[c].phase;
            && p.i < |s.cores| && s'.cores[p.i].lock == Some(c)
            && (Tracks(s.cores[p.i], p.page, p.cut, p.stage) ==> Tracks(s'.cores[p.i], p.page, p.cut, p.stage))
  {
    var p := s.cores[c].phase;
    OnlyInterrupts(s, st, c);
    assert CoreOk(s, c) && Framed(s, st, s', p.i);
    InterruptLock(s, st, s', p.i);
    if Tracks(s.cores[p.i], p.page, p.cut, p.stage) {
      if Touches(s, st, p.i) {
        InterruptTracks(s, st, p.page, p.cut, p.stage);
      } else {
        TrackUntouched(s, st, s', p);
      }
    }
  }

  lemma {:induction false} InterruptLock(s: State, st: Step, s': State, t: nat)
    requires Do(s, st) == Some(s') && t < |s.cores|
    ensures Interrupt(st) ==> t < |s'.cores| && s'.cores[t].lock == s.cores[t].lock
  {
  }

  lemma {:induction false} OtherCaller(s: State, st: Step, s': State, c: nat)
    requires Inv(s) && Do(s, st) == Some(s') && Moved(s, st, s') && c < |s.cores| && !Own(st, c)
    ensures CallerOk(s', c)
  {
    var p := s.cores[c].phase;
    assert CoreOk(s, c) && Framed(s, st, s', c);
    if p != Idle {
      GoneStays(s, st, s', p.page, p.cut);
      if p.Locked? {
        TrackStays(s, st, s', c);
      }
      if !p.Flush? && c !in s.unsure {
        AchievedStays(s, st, s', c, p);
      }
    }
  }

  lemma {:induction false} AchievedStays(s: State, st: Step, s': State, c: nat, p: Phase)
    requires Moved(s, st, s') && c < |s.cores| && !p.Idle? && !p.Flush? && (p.Locked? ==> p.i < |s.cores|)
    requires Gone(s, p.page, p.cut) && Achieved(s, c, p)
    requires p.Locked? ==> Tracks(s'.cores[p.i], p.page, p.cut, p.stage)
    ensures Achieved(s', c, p)
  {
    CleanStays(s, st, s', p.page, p.cut, c);
    forall j | 0 <= j < |s'.cores| && s'.cores[j].present && j != s'.bsp && (p.Done? || j < p.i)
      ensures Clean(s'.cores[j].tlb, p.page, p.cut)
    {
      assert Framed(s, st, s', j);
      CleanStays(s, st, s', p.page, p.cut, j);
    }
  }

  /** The caller's own steps on mailboxes. */
  lemma {:induction false} LockingCaller(s: State, c: nat)
    requires Inv(s) && c < |s.cores| && DoCall(s, Lock(c)).Some?
    ensures CallerOk(DoCall(s, Lock(c)).value, c)
  {
    assert CoreOk(s, c);
  }

  lemma {:induction false} StoringCaller(s: State, c: nat)
    requires Inv(s) && c < |s.cores| && DoCall(s, Store(c)).Some?
    ensures CallerOk(DoCall(s, Store(c)).value, c)
  {
    var p := s.cores[c].phase;
    assert CoreOk(s, c);
    StoredFrame(s.cores[p.i], p.page, p.stage);
    StoreTracks(s.cores[p.i], p.page, p.cut, p.stage);
  }

  lemma {:induction false} StoreTracks(k: Core, page: nat, cut: nat, stage: Stage)
    requires stage != Wait
    ensures Tracks(k, page, cut, stage) ==> Tracks(Stored(k, page, stage), page, cut, NextStage(stage))
  {
  }

  lemma {:induction false} LeavingCaller(s: State, st: Step)
    requires Inv(s) && (st.SeeAck? || st.TimeOut?) && st.c < |s.cores| && DoCall(s, st).Some?
    ensures CallerOk(DoCall(s, st).value, st.c)
  {
    assert CoreOk(s, st.c);
  }

  lemma {:induction false} WalkingCaller(s: State, st: Step)
    requires Inv(s) && Walks(st) && st.c < |s.cores| && DoWalk(s, st).Some?
    ensures CallerOk(DoWalk(s, st).value, st.c)
  {
    assert CoreOk(s, st.c);
  }

  lemma {:induction false} CallerStep(s: State, st: Step, s': State, c: nat)
    requires Inv(s) && Do(s, st) == Some(s') && Moved(s, st, s') && c < |s.cores|
    ensures CallerOk(s', c)
  {
    if !Own(st, c) {
      OtherCaller(s, st, s', c);
    } else if Walks(st) {
      WalkingCaller(s, st);
    } else if st.Lock? {
      LockingCaller(s, c);
    } else if st.Store? {
      StoringCaller(s, c);
    } else {
      LeavingCaller(s, st);
    }
  }

  lemma {:induction false} HolderAfterStore(s: State, c: nat, t: nat)
    requires c < |s.cores| && DoCall(s, Store(c)).Some? && t < |s.cores| && Target(s.cores[c].phase) == t
    requires s.cores[t].lock == Some(c)
    ensures LockOk(DoCall(s, Store(c)).value, t)
  {
    StoredFrame(s.cores[t], s.cores[c].phase.page, s.cores[c].phase.stage);
  }

  lemma {:induction false} HolderAfterCall(s: State, st: Step, t: nat)
    requires Calls(st) && st.c < |s.cores| && DoCall(s, st).Some? && t < |s.cores| && Target(s.cores[st.c].phase) == t
    requires st.Lock? || s.cores[t].lock == Some(st.c)
    ensures LockOk(DoCall(s, st).value, t)
  {
    if st.Store? {
      HolderAfterStore(s, st.c, t);
    }
  }

  lemma {:induction false} LockStep(s: State, st: Step, s': State, t: nat)
    requires Inv(s) && Do(s, st) == Some(s') && Moved(s, st, s') && t < |s.cores|
    ensures LockOk(s', t)
  {
    assert CoreOk(s, t) && Framed(s, st, s', t);
    if Calls(st) && Target(s.cores[st.c].phase) == t {
      assert CoreOk(s, st.c);
      HolderAfterCall(s, st, t);
    } else {
      LockUntouched(s, st, s', t);
    }
  }

  lemma {:induction false} LockUntouched(s: State, st: Step, s': State, t: nat)
    requires Do(s, st) == Some(s') && Moved(s, st, s') && t < |s.cores| && LockOk(s, t)
    requires !(Calls(st) && Target(s.cores[st.c].phase) == t)
    ensures LockOk(s', t)
  {
    assert Framed(s, st, s', t);
    InterruptLock(s, st, s', t);
    if s.cores[t].lock.Some? {
      HolderStays(s, st, s', s.cores[t].lock.value, t);
    }
  }

  /** The holder of a lock moves only by steps on that mailbox. */
  lemma {:induction false} HolderStays(s: State, st: Step, s': State, c: nat, t: nat)
    requires Do(s, st) == Some(s') && Moved(s, st, s') && Holds(s, c, t)
    requires !(Calls(st) && Target(s.cores[st.c].phase) == t)
    ensures Holds(s', c, t)
  {
    assert Framed(s, st, s', c);
  }

  lemma {:induction false} MaskStep(s: State, st: Step, s': State, c: nat)
    requires Inv(s) && Do(s, st) == Some(s') && Moved(s, st, s') && c < |s.cores|
    ensures MaskOk(s'.cores[c])
  {
    assert CoreOk(s, c) && Framed(s, st, s', c);
    HandlerFrame(s, st, s', c);
  }

  /** Handlers move only by interrupts, which a masked core does not take, and a core moves only outside its handler. */
  lemma {:induction false} HandlerFrame(s: State, st: Step, s': State, c: nat)
    requires Do(s, st) == Some(s') && c < |s.cores| && MaskOk(s.cores[c])
    ensures c < |s'.cores|
    ensures s'.cores[c].handler != s.cores[c].handler ==> !s.cores[c].Masked() && Interrupt(st)
    ensures s'.cores[c].Masked() && !s.cores[c].Masked() ==> s.cores[c].handler == Off
    ensures Interrupt(st) ==> s'.cores[c].Masked() == s.cores[c].Masked()
  {
    if Interrupt(st) {
      InterruptHandler(s, st, c);
    } else if Calls(st) {
      CallHandler(s, st, c);
    }
  }

  lemma {:induction false} InterruptHandler(s: State, st: Step, c: nat)
    requires Interrupt(st) && DoInterrupt(s, st).Some? && c < |s.cores| && MaskOk(s.cores[c])
    ensures var k := DoInterrupt(s, st).value.cores[c];
            k.handler != s.cores[c].handler ==> !s.cores[c].Masked()
    ensures DoInterrupt(s, st).value.cores[c].Masked() == s.cores[c].Masked()
  {
    if st.Handle? {
      HandleFrame(s.cores[st.t]);
    }
  }

  lemma {:induction false} CallHandler(s: State, st: Step, c: nat)
    requires Calls(st) && st.c < |s.cores| && DoCall(s, st).Some? && c < |s.cores|
    ensures DoCall(s, st).value.cores[c].handler == s.cores[c].handler
    ensures c != st.c ==> DoCall(s, st).value.cores[c].Masked() == s.cores[c].Masked()
  {
    if st.Store? {
      StoredFrame(s.cores[s.cores[st.c].phase.i], s.cores[st.c].phase.page, s.cores[st.c].phase.stage);
    }
  }

  lemma {:induction false} SelfStep(s: State, st: Step, s': State, c: nat)
    requires Inv(s) && Do(s, st) == Some(s') && Moved(s, st, s') && c < |s.cores|
    ensures SelfOk(s', c)
  {
    assert CoreOk(s, c) && Framed(s, st, s', c);
    if !Own(st, c) {
      if s.cores[c].phase.Locked? && s.cores[c].phase.i == c && Touches(s, st, c) {
        SelfTouched(s, st, c);
      }
    } else if Walks(st) {
      SelfWalk(s, st);
    } else {
      SelfCall(s, st);
    }
  }

  /** While a core holds its own mailbox, nobody else touches that. */
  lemma {:induction false} SelfTouched(s: State, st: Step, c: nat)
    requires Inv(s) && Do(s, st).Some? && c < |s.cores| && !Own(st, c) && s.cores[c].phase.Locked? &&
               s.cores[c].phase.i == c
    ensures !Touches(s, st, c)
  {
    assert CoreOk(s, c);
    if Calls(st) && Target(s.cores[st.c].phase) == c {
      HeldMailbox(s, st, c, c);
    }
  }

  lemma {:induction false} SelfWalk(s: State, st: Step)
    requires Walks(st) && st.c < |s.cores| && DoWalk(s, st).Some? && SelfOk(s, st.c) && CallerOk(s, st.c)
    ensures SelfOk(DoWalk(s, st).value, st.c)
  {
  }

  lemma {:induction false} SelfCall(s: State, st: Step)
    requires Calls(st) && st.c < |s.cores| && DoCall(s, st).Some? && SelfOk(s, st.c)
    ensures SelfOk(DoCall(s, st).value, st.c)
  {
  }

  // ----- avmf_free -----

  lemma {:induction false} JobStep(s: State, st: Step, s': State, c: nat)
    requires Inv(s) && Do(s, st) == Some(s') && Moved(s, st, s') && c < |s.cores|
    ensures JobOk(s', c)
  {
    assert CoreOk(s, c) && Framed(s, st, s', c);
    if Frees(st) {
      assert CoreOk(s, st.c);
      FreeJob(s, st, s', c);
    } else if Walks(st) && st.c == c {
      WalkJob(s, st, s');
    } else if Calls(st) && st.c == c {
      CallJob(s, st, s');
    } else {
      OtherJob(s, st, s', c);
    }
  }

  lemma {:induction false} OtherJob(s: State, st: Step, s': State, c: nat)
    requires c < |s.cores| && Moved(s, st, s') && Framed(s, st, s', c) && JobOk(s, c)
    requires !Frees(st) && !(Walks(st) && st.c == c) && !(Calls(st) && st.c == c)
    ensures JobOk(s', c)
  {
  }

  lemma {:induction false} FreeJob(s: State, st: Step, s': State, c: nat)
    requires Frees(st) && st.c < |s.cores| && c < |s.cores| && Do(s, st) == Some(s') && JobOk(s, st.c) && JobOk(s, c)
    ensures c < |s'.cores| && JobOk(s', c)
  {
  }

  lemma {:induction false} WalkJob(s: State, st: Step, s': State)
    requires Walks(st) && st.c < |s.cores| && Do(s, st) == Some(s') && JobOk(s, st.c)
    ensures st.c < |s'.cores| && JobOk(s', st.c)
  {
  }

  lemma {:induction false} CallJob(s: State, st: Step, s': State)
    requires Calls(st) && st.c < |s.cores| && Do(s, st) == Some(s') && JobOk(s, st.c)
    ensures st.c < |s'.cores| && JobOk(s', st.c)
  {
  }

  /** A sure call that is done has settled its page, and it ran on the bootstrap core. */
  lemma {:induction false} SureMeansSettled(s: State, c: nat)
    requires Inv(s) && c < |s.cores| && s.cores[c].phase.Done? && c !in s.unsure
    ensures c == s.bsp && Settled(s, s.cores[c].phase.page, s.cores[c].phase.cut)
  {
    assert CoreOk(s, c);
  }

  /** The frame in the window leaves it settled or lost. */
  lemma {:induction false} WindowCloses(s: State, st: Step, s': State, r: Freed)
    requires Inv(s) && Do(s, st) == Some(s') && Moved(s, st, s') && InWindow(s, r) && st.Return? &&
               Some(st.c) == s.avmfLock
    ensures r in s'.lost || Settled(s', r.page, r.cut)
  {
    var c := st.c;
    assert CoreOk(s, c);
    if c !in s.unsure {
      SureMeansSettled(s, c);
      SettledEarlier(s, r.page, s.cores[c].phase.cut, r.cut);
      SettledStays(s, st, s', r.page, r.cut);
    }
  }

  lemma {:induction false} SettledEarlier(s: State, page: nat, cut: nat, earlier: nat)
    requires Settled(s, page, cut) && earlier <= cut
    ensures Settled(s, page, earlier)
  {
  }

  /** Nothing else ends the window. */
  lemma {:induction false} WindowStays(s: State, st: Step, s': State, r: Freed)
    requires Inv(s) && Do(s, st) == Some(s') && Moved(s, st, s') && InWindow(s, r)
    requires !Frees(st) && !(st.Return? && Some(st.c) == s.avmfLock)
    ensures InWindow(s', r)
  {
    var c := s.avmfLock.value;
    assert CoreOk(s, c) && Framed(s, st, s', c);
  }

  lemma {:induction false} NoFreeInWindow(s: State, st: Step, r: Freed)
    requires Inv(s) && Do(s, st).Some? && Frees(st)
    ensures !InWindow(s, r)
  {
    assert CoreOk(s, st.c);
  }

  lemma {:induction false} NewFreed(s: State, st: Step, s': State, r: Freed)
    requires Inv(s) && Do(s, st) == Some(s') && Moved(s, st, s') && r in s'.freed && r !in s.freed
    ensures InWindow(s', r)
  {
    assert Frees(st);
    assert CoreOk(s, st.c);
  }

  lemma {:induction false} FreedStep(s: State, st: Step, s': State, r: Freed)
    requires Inv(s) && Do(s, st) == Some(s') && Moved(s, st, s') && r in s'.freed
    ensures FreedOk(s', r)
  {
    if r !in s.freed {
      NewFreed(s, st, s', r);
    } else {
      assert FreedOk(s, r);
      if Settled(s, r.page, r.cut) {
        SettledStays(s, st, s', r.page, r.cut);
      } else if r !in s.lost {
        if Frees(st) {
          NoFreeInWindow(s, st, r);
        } else if st.Return? && Some(st.c) == s.avmfLock {
          WindowCloses(s, st, s', r);
        } else {
          WindowStays(s, st, s', r);
        }
      }
    }
  }

  /** Every step keeps the invariant, time-outs included. */
  lemma {:induction false} StepKeepsInv(s: State, st: Step)
    requires Inv(s) && Do(s, st).Some?
    ensures Inv(Do(s, st).value)
  {
    var s' := Do(s, st).value;
    StepMoves(s, st);
    forall c | 0 <= c < |s'.cores|
      ensures CoreOk(s', c)
    {
      CallerStep(s, st, s', c);
      LockStep(s, st, s', c);
      MaskStep(s, st, s', c);
      SelfStep(s, st, s', c);
      JobStep(s, st, s', c);
    }
    forall r | r in s'.freed
      ensures FreedOk(s', r)
    {
      FreedStep(s, st, s', r);
    }
    assert Framed(s, st, s', s.bsp);
  }

  // ----- without time-outs -----

  predicate Quiet(h: Handler) { h == Off || h == ClearCmd }

  /** Without a request the core is quiet, and a request that is waited for is the only one there is. */
  predicate QuietOk(s: State, t: nat)
    requires t < |s.cores|
  {
    var k := s.cores[t];
    if k.lock.Some? && Holds(s, k.lock.value, t) && s.cores[k.lock.value].phase.stage == Wait then
      (k.ipi ==> Quiet(k.handler)) && (k.ipi || !Quiet(k.handler) ==> !k.resp)
    else
      && !k.ipi && Quiet(k.handler)
      && (k.lock.Some? && Holds(s, k.lock.value, t) && s.cores[k.lock.value].phase.stage != SetResp ==> !k.resp)
  }

  /** While no wait has timed out, every mailbox is good whenever it is taken. */
  ghost predicate NoneUnsure(s: State) {
    s.unsure == {} && s.lost == {} && forall t | 0 <= t < |s.cores| :: QuietOk(s, t)
  }

  lemma {:induction false} QuietInterrupt(s: State, st: Step)
    requires Interrupt(st) && DoInterrupt(s, st).Some? && QuietOk(s, st.t) && LockOk(s, st.t)
    ensures QuietOk(DoInterrupt(s, st).value, st.t)
  {
    if st.Handle? {
      HandleFrame(s.cores[st.t]);
      QuietHandle(s.cores[st.t]);
    }
  }

  lemma {:induction false} QuietHandle(k: Core)
    requires DoHandle(k).Some?
    ensures var k' := DoHandle(k).value;
            && k'.ipi == k.ipi
            && (Quiet(k.handler) ==> Quiet(k'.handler) && k'.resp == k.resp)
            && (k'.resp ==> k.resp || Quiet(k'.handler)) && (!Quiet(k'.handler) && !k.resp ==> !k'.resp)
  {
  }

  lemma {:induction false} QuietCall(s: State, st: Step, t: nat)
    requires Calls(st) && st.c < |s.cores| && DoCall(s, st).Some? && t == Target(s.cores[st.c].phase) && t < |s.cores|
    requires QuietOk(s, t) && LockOk(s, t) && !st.TimeOut? && (st.Lock? || s.cores[t].lock == Some(st.c))
    ensures QuietOk(DoCall(s, st).value, t)
    ensures st.c !in s.unsure ==> st.c !in DoCall(s, st).value.unsure
  {
  }

  lemma {:induction false} QuietUntouched(s: State, st: Step, s': State, t: nat)
    requires Do(s, st) == Some(s') && Moved(s, st, s') && t < |s.cores| && QuietOk(s, t) && LockOk(s, t) &&
               !Touches(s, st, t)
    ensures QuietOk(s', t)
  {
    assert Framed(s, st, s', t);
    if s.cores[t].lock.Some? {
      var c := s.cores[t].lock.value;
      assert Framed(s, st, s', c);
      HolderStays(s, st, s', c, t);
    }
  }

  lemma {:induction false} QuietStep(s: State, st: Step, s': State, t: nat)
    requires Inv(s) && NoneUnsure(s) && Do(s, st) == Some(s') && Moved(s, st, s') && !s'.timedOut && t < |s.cores|
    ensures QuietOk(s', t)
  {
    assert CoreOk(s, t) && QuietOk(s, t);
    if Interrupt(st) && st.t == t {
      QuietInterrupt(s, st);
    } else if Calls(st) && Target(s.cores[st.c].phase) == t {
      assert CoreOk(s, st.c);
      QuietCall(s, st, t);
    } else {
      QuietUntouched(s, st, s', t);
    }
  }

  lemma {:induction false} StepKeepsQuiet(s: State, st: Step)
    requires Inv(s) && NoneUnsure(s) && Do(s, st).Some? && !Do(s, st).value.timedOut
    ensures NoneUnsure(Do(s, st).value)
  {
    var s' := Do(s, st).value;
    StepMoves(s, st);
    forall t | 0 <= t < |s'.cores|
      ensures QuietOk(s', t)
    {
      QuietStep(s, st, s', t);
    }
    NobodyUnsure(s, st);
  }

  lemma {:induction false} NobodyUnsure(s: State, st: Step)
    requires Inv(s) && NoneUnsure(s) && Do(s, st).Some? && !Do(s, st).value.timedOut
    ensures Do(s, st).value.unsure == {} && Do(s, st).value.lost == {}
  {
    if st.Lock? {
      assert QuietOk(s, s.cores[st.c].phase.i);
    }
  }

  // ----- whole runs -----

  lemma {:induction false} RunKeepsInv(s: State, steps: seq<Step>)
    requires Inv(s) && Run(s, steps).Some?
    ensures Inv(Run(s, steps).value)
    decreases steps
  {
    if steps == [] {
      assert Run(s, steps) == Some(s);
    } else {
      StepKeepsInv(s, steps[0]);
      RunKeepsInv(Do(s, steps[0]).value, steps[1..]);
    }
  }

  lemma {:induction false} TimeOutSticks(s: State, st: Step)
    requires Do(s, st).Some? && s.cores != [] && s.timedOut
    ensures Do(s, st).value.timedOut
  {
    StepMoves(s, st);
  }

  lemma {:induction false} RunTimeOutSticks(s: State, steps: seq<Step>)
    requires Inv(s) && Run(s, steps).Some? && s.timedOut
    ensures Run(s, steps).value.timedOut
    decreases steps
  {
    if steps == [] {
      assert Run(s, steps) == Some(s);
    } else {
      TimeOutSticks(s, steps[0]);
      StepKeepsInv(s, steps[0]);
      RunTimeOutSticks(Do(s, steps[0]).value, steps[1..]);
    }
  }

  lemma {:induction false} RunKeepsQuiet(s: State, steps: seq<Step>)
    requires Inv(s) && NoneUnsure(s) && Run(s, steps).Some? && !Run(s, steps).value.timedOut
    ensures NoneUnsure(Run(s, steps).value)
    decreases steps
  {
    if steps == [] {
      assert Run(s, steps) == Some(s);
    } else {
      var s' := Do(s, steps[0]).value;
      StepKeepsInv(s, steps[0]);
      if s'.timedOut {
        RunTimeOutSticks(s', steps[1..]);
      }
      StepKeepsQuiet(s, steps[0]);
      RunKeepsQuiet(s', steps[1..]);
    }
  }

  lemma {:induction false} InitialInv(s: State)
    requires Initial(s)
    ensures Inv(s) && NoneUnsure(s)
  {
  }

  /** Shootdown safety, over every interleaving of any number of concurrent calls on any cores, with time-outs anywhere:
      when a pager_unmap is done whose own waits were all acknowledged and that found every mailbox good when it took
      its lock, whatever any core caches of the page was mapped after the entry was cleared. */
  lemma {:induction false} ShootdownSafety(s0: State, steps: seq<Step>, c: nat)
    requires Initial(s0) && Run(s0, steps).Some?
    requires var s := Run(s0, steps).value; c < |s.cores| && s.cores[c].phase.Done? && c !in s.unsure
    ensures var s := Run(s0, steps).value;
            var p := s.cores[c].phase;
            && (forall t | 0 <= t < |s.cores| && s.cores[t].present :: Clean(s.cores[t].tlb, p.page, p.cut))
            && (p.page in s.table ==> s.table[p.page].stamp >= p.cut)
  {
    InitialInv(s0);
    RunKeepsInv(s0, steps);
    SureMeansSettled(Run(s0, steps).value, c);
  }

  /** As long as no wait has timed out, no mailbox is found stale: every call is sure and no freed frame is lost. */
  lemma {:induction false} NoTimeOutNoDoubt(s0: State, steps: seq<Step>)
    requires Initial(s0) && Run(s0, steps).Some? && !Run(s0, steps).value.timedOut
    ensures Run(s0, steps).value.unsure == {} && Run(s0, steps).value.lost == {}
  {
    InitialInv(s0);
    RunKeepsQuiet(s0, steps);
  }

  /** smp_tlb_core masks the interrupt that a core other than the bootstrap core sends to itself, so such a core never
      finishes pager_unmap unless its call has met a time-out; without time-outs only the bootstrap core is ever
      done. */
  lemma {:induction false} OnlyBootstrapFinishes(s0: State, steps: seq<Step>, c: nat)
    requires Initial(s0) && Run(s0, steps).Some?
    requires var s := Run(s0, steps).value; c < |s.cores| && c != s.bsp && s.cores[c].phase.Done?
    ensures c in Run(s0, steps).value.unsure && Run(s0, steps).value.timedOut
  {
    InitialInv(s0);
    RunKeepsInv(s0, steps);
    assert CoreOk(Run(s0, steps).value, c);
    if !Run(s0, steps).value.timedOut {
      NoTimeOutNoDoubt(s0, steps);
    }
  }

  /** Free after shootdown: avmf_free holds avmf_lock from the first bitmap_clear to the last pager_unmap, so when a
      physical allocation happens, no core still caches a translation to a freed frame, unless the pager_unmap of that
      frame met a time-out or a stale mailbox. */
  lemma {:induction false} NoFrameReusedWhileCached(s0: State, steps: seq<Step>, frames: set<nat>, r: Freed, t: nat)
    requires Initial(s0) && Run(s0, steps).Some?
    requires var s := Run(s0, steps).value;
             && Do(s, Alloc(frames)).Some? && r in s.freed && r !in s.lost && r.frame in frames
             && t < |s.cores| && s.cores[t].present
    ensures var tlb := Run(s0, steps).value.cores[t].tlb;
            r.page in tlb ==> tlb[r.page].stamp >= r.cut
  {
    InitialInv(s0);
    RunKeepsInv(s0, steps);
    assert FreedOk(Run(s0, steps).value, r);
  }

  // ----- the mailbox condition is exact -----

  /** Steps during which core `c` does not leave its wait. */
  ghost predicate Stays(steps: seq<Step>, c: nat) {
    forall st | st in steps :: !((st.SeeAck? || st.TimeOut?) && st.c == c)
  }

  /** After these steps core `c` sees its acknowledgement. */
  ghost predicate Acknowledged(s: State, c: nat, steps: seq<Step>) {
    Stays(steps, c) && Run(s, steps).Some? && Do(Run(s, steps).value, SeeAck(c)).Some?
  }

  /** In every continuation in which core `c` sees its acknowledgement from core `t`, core `t` is then clean. */
  ghost predicate Reliable(s: State, c: nat, t: nat, page: nat, cut: nat) {
    forall steps | Acknowledged(s, c, steps) ::
      var s' := Run(s, steps).value;
      t < |s'.cores| && Clean(s'.cores[t].tlb, page, cut)
  }

  /** A continuation in which the acknowledgement comes although core `t` is not clean. */
  ghost predicate Fails(s: State, c: nat, t: nat, page: nat, cut: nat) {
    exists steps :: Acknowledged(s, c, steps) &&
      var s' := Run(s, steps).value;
      t < |s'.cores| && !Clean(s'.cores[t].tlb, page, cut)
  }

  /** A request stays on track until its acknowledgement is seen. */
  lemma {:induction false} RunTracks(s: State, c: nat, steps: seq<Step>, t: nat, page: nat, cut: nat)
    requires Inv(s) && Run(s, steps).Some? && Stays(steps, c) && c < |s.cores|
    requires var p := s.cores[c].phase;
             p.Locked? && p.i == t < |s.cores| && p.page == page && p.cut == cut &&
                 Tracks(s.cores[t], page, cut, p.stage)
    ensures var s' := Run(s, steps).value;
            && |s'.cores| == |s.cores|
            && var p := s'.cores[c].phase;
               p.Locked? && p.i == t && Tracks(s'.cores[t], page, cut, p.stage)
    decreases steps
  {
    if steps == [] {
      assert Run(s, steps) == Some(s);
    } else {
      var s' := Do(s, steps[0]).value;
      assert steps[0] in steps;
      StepKeepsInv(s, steps[0]);
      StepTracks(s, steps[0], s', c);
      RunTracks(s', c, steps[1..], t, page, cut);
    }
  }

  lemma {:induction false} StepTracks(s: State, st: Step, s': State, c: nat)
    requires Inv(s) && Do(s, st) == Some(s') && c < |s.cores| && !((st.SeeAck? || st.TimeOut?) && st.c == c)
    requires var p := s.cores[c].phase;
             p.Locked? && p.i < |s.cores| && Tracks(s.cores[p.i], p.page, p.cut, p.stage)
    ensures |s'.cores| == |s.cores|
    ensures var p, p' := s.cores[c].phase, s'.cores[c].phase;
            p'.Locked? && p'.i == p.i && p'.page == p.page && p'.cut == p.cut &&
                Tracks(s'.cores[p.i], p.page, p.cut, p'.stage)
  {
    var p := s.cores[c].phase;
    StepMoves(s, st);
    if Own(st, c) {
      StoredFrame(s.cores[p.i], p.page, p.stage);
      StoreTracks(s.cores[p.i], p.page, p.cut, p.stage);
    } else {
      assert Framed(s, st, s', c);
      TrackStays(s, st, s', c);
    }
  }

  lemma {:induction false} GoodIsReliable(s: State, c: nat, t: nat, page: nat, cut: nat)
    requires Inv(s) && c < |s.cores| && t < |s.cores| && s.cores[c].phase == Locked(page, cut, t, SetResp)
    requires Clean(s.cores[t].tlb, page, cut) || Good(s.cores[t], page)
    ensures Reliable(s, c, t, page, cut)
  {
    forall steps | Acknowledged(s, c, steps)
      ensures var s' := Run(s, steps).value;
              t < |s'.cores| && Clean(s'.cores[t].tlb, page, cut)
    {
      RunTracks(s, c, steps, t, page, cut);
    }
  }

  /** Core `c` waits for an acknowledgement that will come although core `t` is not clean. */
  predicate Doomed(s: State, c: nat, t: nat, page: nat, cut: nat) {
    && c < |s.cores| && t < |s.cores| && t != c && s.cores[c].handler == Off && !Clean(s.cores[t].tlb, page, cut)
    && s.cores[c].phase.Locked? && s.cores[c].phase.i == t && s.cores[c].phase.page == page
    && (Answered(s.cores[t], s.cores[c].phase.stage) || Astray(s.cores[t], page, s.cores[c].phase.stage))
  }

  predicate Answered(k: Core, stage: Stage) { stage == Wait && k.resp }

  /** The handler serves, or will serve, a request for another page. */
  predicate Astray(k: Core, page: nat, stage: Stage) {
    var before := stage == SetResp || stage == SetCmd || (stage == SetAddr && k.cmd);
    match k.handler
    case Ack => true
    case Invlpg(a) => a != page
    case FetchAddr => k.addr != page && (before || stage == SetAddr)
    case ClearResp => k.addr != page && before
    case TestCmd => k.addr != page && before
    case _ => k.ipi && k.addr != page && !k.Masked() && (stage == SetResp || stage == SetCmd)
  }

  function HandlerSteps(h: Handler): nat {
    match h
    case ClearCmd => 8
    case Off => 7
    case ClearResp => 6
    case TestCmd => 5
    case FetchAddr => 4
    case Invlpg(_) => 3
    case Ack => 2
  }

  function StoresLeft(stage: Stage): nat {
    match stage
    case SetResp => 4
    case SetCmd => 3
    case SetAddr => 2
    case SendIpi => 1
    case Wait => 0
  }

  /** The next step on the way to the wrong acknowledgement. */
  function Misstep(s: State, c: nat, t: nat): Step
    requires c < |s.cores| && t < |s.cores| && s.cores[c].phase.Locked?
  {
    var k, stage := s.cores[t], s.cores[c].phase.stage;
    match k.handler
    case Ack => if stage == Wait then Handle(t) else Store(c)
    case TestCmd => if k.cmd then Handle(t) else Store(c)
    case Off => Deliver(t)
    case _ => Handle(t)
  }

  function Distance(s: State, c: nat, t: nat): nat
    requires c < |s.cores| && t < |s.cores| && s.cores[c].phase.Locked?
  {
    if Answered(s.cores[t], s.cores[c].phase.stage) then 0
    else 1 + HandlerSteps(s.cores[t].handler) + StoresLeft(s.cores[c].phase.stage)
  }

  lemma {:induction false} MisstepDooms(s: State, c: nat, t: nat, page: nat, cut: nat)
    requires Doomed(s, c, t, page, cut) && !Answered(s.cores[t], s.cores[c].phase.stage)
    ensures var st := Misstep(s, c, t);
            && Do(s, st).Some? && Doomed(Do(s, st).value, c, t, page, cut)
            && Distance(Do(s, st).value, c, t) < Distance(s, c, t)
            && !st.SeeAck? && !st.TimeOut?
  {
    var st := Misstep(s, c, t);
    if st.Store? {
      MissingStore(s, c, t, page, cut);
    } else {
      MissingHandler(s, c, t, page, cut);
    }
  }

  lemma {:induction false} MissingStore(s: State, c: nat, t: nat, page: nat, cut: nat)
    requires Doomed(s, c, t, page, cut) && !Answered(s.cores[t], s.cores[c].phase.stage) && Misstep(s, c, t).Store?
    ensures var st := Misstep(s, c, t);
            && Do(s, st).Some? && Doomed(Do(s, st).value, c, t, page, cut) &&
               Distance(Do(s, st).value, c, t) < Distance(s, c, t)
  {
  }

  lemma {:induction false} MissingDeliver(s: State, c: nat, t: nat, page: nat, cut: nat)
    requires Doomed(s, c, t, page, cut) && !Answered(s.cores[t], s.cores[c].phase.stage) && s.cores[t].handler == Off
    ensures var st := Misstep(s, c, t);
            && Do(s, st).Some? && Doomed(Do(s, st).value, c, t, page, cut) &&
               Distance(Do(s, st).value, c, t) < Distance(s, c, t)
  {
  }

  lemma {:induction false} MissingHandle(k: Core, page: nat, cut: nat, stage: Stage)
    requires !Clean(k.tlb, page, cut) && Astray(k, page, stage) && k.handler != Off
    requires (k.handler == Ack ==> stage == Wait) && (k.handler == TestCmd ==> k.cmd)
    ensures DoHandle(k).Some?
    ensures var k' := DoHandle(k).value;
            && !Clean(k'.tlb, page, cut) && (Answered(k', stage) || Astray(k', page, stage))
            && (Answered(k', stage) || HandlerSteps(k'.handler) < HandlerSteps(k.handler))
  {
  }

  lemma {:induction false} MissingHandler(s: State, c: nat, t: nat, page: nat, cut: nat)
    requires Doomed(s, c, t, page, cut) && !Answered(s.cores[t], s.cores[c].phase.stage) && !Misstep(s, c, t).Store?
    ensures var st := Misstep(s, c, t);
            && Do(s, st).Some? && Doomed(Do(s, st).value, c, t, page, cut) &&
               Distance(Do(s, st).value, c, t) < Distance(s, c, t)
  {
    if s.cores[t].handler == Off {
      MissingDeliver(s, c, t, page, cut);
    } else {
      MissingHandle(s.cores[t], page, cut, s.cores[c].phase.stage);
    }
  }

  lemma {:induction false} Prepend(s: State, st: Step, c: nat, t: nat, page: nat, cut: nat)
    requires Do(s, st).Some? && !((st.SeeAck? || st.TimeOut?) && st.c == c) && Fails(Do(s, st).value, c, t, page, cut)
    ensures Fails(s, c, t, page, cut)
  {
    var s1 := Do(s, st).value;
    var steps :| Acknowledged(s1, c, steps) &&
        (var s' := Run(s1, steps).value; t < |s'.cores| && !Clean(s'.cores[t].tlb, page, cut));
    var all := [st] + steps;
    assert all[1..] == steps;
    assert Run(s, all) == Run(s1, steps);
    assert Acknowledged(s, c, all);
  }

  lemma {:induction false} DoomedFails(s: State, c: nat, t: nat, page: nat, cut: nat)
    requires Doomed(s, c, t, page, cut)
    ensures Fails(s, c, t, page, cut)
    decreases Distance(s, c, t)
  {
    if Answered(s.cores[t], s.cores[c].phase.stage) {
      assert Run(s, []) == Some(s);
      assert Acknowledged(s, c, []);
    } else {
      MisstepDooms(s, c, t, page, cut);
      DoomedFails(Do(s, Misstep(s, c, t)).value, c, t, page, cut);
      Prepend(s, Misstep(s, c, t), c, t, page, cut);
    }
  }

  // ----- calls of other cores -----

  /** Only present cores are locked. */
  predicate LocksPresent(s: State) { forall t | 0 <= t < |s.cores| && s.cores[t].lock.Some? :: s.cores[t].present }

  lemma {:induction false} LockStaysPresent(s: State, st: Step, t: nat)
    requires Do(s, st).Some? && t < |s.cores| && (s.cores[t].lock.Some? ==> s.cores[t].present)
    ensures var s' := Do(s, st).value;
            t < |s'.cores| && (s'.cores[t].lock.Some? ==> s'.cores[t].present)
  {
    FrameOf(s, st, t);
    if st.Handle? && st.t == t {
      HandleFrame(s.cores[t]);
    } else if st.Store? {
      StoredFrame(s.cores[s.cores[st.c].phase.i], s.cores[st.c].phase.page, s.cores[st.c].phase.stage);
    }
  }

  /** Nobody sends the bootstrap core a request. */
  ghost predicate BspQuiet(s: State)
    requires s.bsp < |s.cores|
  {
    s.cores[s.bsp].lock == None && !s.cores[s.bsp].ipi && s.cores[s.bsp].handler == Off
  }

  /** The steps by which a core itself changes what it caches of a page. */
  predicate Rids(st: Step, c: nat, page: nat) {
    (st.LocalFlush? && st.c == c) || ((st.Evict? || st.Fill?) && st.c == c && st.page == page)
  }

  lemma {:induction false} BspStep(s: State, st: Step)
    requires Inv(s) && BspQuiet(s) && Do(s, st).Some?
    ensures Do(s, st).value.bsp == s.bsp < |Do(s, st).value.cores| && BspQuiet(Do(s, st).value)
  {
    StepMoves(s, st);
    assert Framed(s, st, Do(s, st).value, s.bsp);
    if Calls(st) {
      assert CoreOk(s, st.c);
    }
  }

  lemma {:induction false} BspTlb(s: State, st: Step, page: nat)
    requires s.bsp < |s.cores| && s.cores[s.bsp].handler == Off && Do(s, st).Some? && !Rids(st, s.bsp, page)
    requires Interrupt(st) ==> st.t != s.bsp
    ensures s.bsp < |Do(s, st).value.cores|
    ensures page in s.cores[s.bsp].tlb ==>
              page in Do(s, st).value.cores[s.bsp].tlb &&
                  Do(s, st).value.cores[s.bsp].tlb[page] == s.cores[s.bsp].tlb[page]
  {
    if Calls(st) {
      CallTlb(s, st, s.bsp);
    }
  }

  lemma {:induction false} CallTlb(s: State, st: Step, t: nat)
    requires Calls(st) && st.c < |s.cores| && DoCall(s, st).Some? && t < |s.cores|
    ensures t < |DoCall(s, st).value.cores| && DoCall(s, st).value.cores[t].tlb == s.cores[t].tlb
  {
    if st.Store? {
      StoredFrame(s.cores[s.cores[st.c].phase.i], s.cores[st.c].phase.page, s.cores[st.c].phase.stage);
    }
  }

  /** What every reachable state keeps besides the invariant. */
  ghost predicate Orderly(s: State) { Inv(s) && BspQuiet(s) && LocksPresent(s) }

  lemma {:induction false} StepStaysOrderly(s: State, st: Step)
    requires Orderly(s) && Do(s, st).Some?
    ensures Orderly(Do(s, st).value) && Do(s, st).value.bsp == s.bsp
  {
    StepKeepsInv(s, st);
    BspStep(s, st);
    StepMoves(s, st);
    forall t | 0 <= t < |Do(s, st).value.cores| && Do(s, st).value.cores[t].lock.Some?
      ensures Do(s, st).value.cores[t].present
    {
      LockStaysPresent(s, st, t);
    }
  }

  lemma {:induction false} RunStaysOrderly(s: State, steps: seq<Step>)
    requires Orderly(s) && Run(s, steps).Some?
    ensures Orderly(Run(s, steps).value)
    decreases steps
  {
    if steps == [] {
      assert Run(s, steps) == Some(s);
    } else {
      StepStaysOrderly(s, steps[0]);
      RunStaysOrderly(Do(s, steps[0]).value, steps[1..]);
    }
  }

  lemma {:induction false} ReachableIsOrderly(s0: State, steps: seq<Step>)
    requires Initial(s0) && Run(s0, steps).Some?
    ensures Orderly(Run(s0, steps).value)
  {
    InitialInv(s0);
    RunStaysOrderly(s0, steps);
  }

  lemma {:induction false} EntryStays(s: State, steps: seq<Step>, page: nat)
    requires Orderly(s) && Run(s, steps).Some? && page in s.cores[s.bsp].tlb
    requires forall st | st in steps :: !Rids(st, s.bsp, page)
    ensures var s' := Run(s, steps).value;
            && s'.bsp == s.bsp < |s'.cores|
            && page in s'.cores[s.bsp].tlb && s'.cores[s.bsp].tlb[page] == s.cores[s.bsp].tlb[page]
    decreases steps
  {
    if steps == [] {
      assert Run(s, steps) == Some(s);
    } else {
      var st := steps[0];
      assert st in steps;
      StepStaysOrderly(s, st);
      BspTlb(s, st, page);
      EntryStays(Do(s, st).value, steps[1..], page);
    }
  }

  /** Whatever the other cores call, the bootstrap core keeps what it caches of a page until it flushes, evicts or
      refills that itself: from any reachable state on, over any run. */
  lemma {:induction false} OthersNeverReachBsp(s0: State, before: seq<Step>, steps: seq<Step>, page: nat)
    requires Initial(s0) && Run(s0, before).Some?
    requires var s := Run(s0, before).value;
             && Run(s, steps).Some? && s.bsp < |s.cores| && page in s.cores[s.bsp].tlb
             && forall st | st in steps :: !Rids(st, s.bsp, page)
    ensures var s := Run(s0, before).value;
            var s' := Run(s, steps).value;
            && s'.bsp == s.bsp < |s'.cores|
            && page in s'.cores[s.bsp].tlb && s'.cores[s.bsp].tlb[page] == s.cores[s.bsp].tlb[page]
  {
    ReachableIsOrderly(s0, before);
    EntryStays(Run(s0, before).value, steps, page);
  }

  // ----- two runs -----

  function Fresh(present: bool): Core {
    Core(present, map[], false, false, 0, None, false, Off, Idle, None)
  }

  /** Two cores, core 0 is the bootstrap core. */
  function Start(): State {
    State([Fresh(true), Fresh(true)], 0, map[], 0, false, None, {}, {}, {}, {})
  }

  /** One more step at the end of a run. */
  lemma {:induction false} Then(s0: State, steps: seq<Step>, s: State, st: Step) returns (steps': seq<Step>, s': State)
    requires Run(s0, steps) == Some(s) && Do(s, st).Some?
    ensures steps' == steps + [st] && Do(s, st) == Some(s') && Run(s0, steps') == Some(s')
  {
    steps', s' := steps + [st], Do(s, st).value;
    RunConcat(s0, steps, [st]);
    assert [st][1..] == [];
    assert Run(s', []) == Some(s');
  }

  lemma {:induction false} RunConcat(s: State, a: seq<Step>, b: seq<Step>)
    requires Run(s, a).Some?
    ensures Run(s, a + b) == Run(Run(s, a).value, b)
    decreases a
  {
    if a == [] {
      assert a + b == b;
    } else {
      assert (a + b)[1..] == a[1..] + b;
      RunConcat(Do(s, a[0]).value, a[1..], b);
    }
  }

  /** The stores of a caller that has locked core `t`. */
  lemma {:induction false} AllStores(s0: State, steps: seq<Step>, s: State, c: nat, t: nat)
    returns (steps': seq<Step>, s': State)
    requires Run(s0, steps) == Some(s) && c < |s.cores| && t < |s.cores| && s.cores[c].handler == Off
    requires s.cores[c].phase.Locked? && s.cores[c].phase.i == t
    ensures Run(s0, steps') == Some(s') && Asked(s, s', c, t)
    decreases StoresLeft(s.cores[c].phase.stage)
  {
    if s.cores[c].phase.stage == Wait {
      return steps, s;
    }
    var st := Store(c);
    OneStore(s, c, t);
    steps', s' := Then(s0, steps, s, st);
    var s1 := s';
    steps', s' := AllStores(s0, steps', s', c, t);
    AskedAfter(s, s1, s', c, t);
  }

  /** Between `s` and `s'` core `c` has made its stores to core `t`. */
  predicate Asked(s: State, s': State, c: nat, t: nat)
    requires c < |s.cores| && t < |s.cores| && s.cores[c].phase.Locked?
  {
    && SameElse(s, s', c, t)
    && s'.cores[c].phase == s.cores[c].phase.(stage := Wait)
    && (s.cores[c].phase.stage != Wait ==> s'.cores[t].ipi)
    && s'.cores[t].addr == (if StoresLeft(s.cores[c].phase.stage) >= 2 then s.cores[c].phase.page else s.cores[t].addr)
    && (StoresLeft(s.cores[c].phase.stage) >= 3 ==> s'.cores[t].cmd)
  }

  predicate SameElse(s: State, s': State, c: nat, t: nat)
    requires c < |s.cores| && t < |s.cores|
  {
    && |s'.cores| == |s.cores| && s'.bsp == s.bsp && s'.table == s.table && s'.clock == s.clock
    && (forall j | 0 <= j < |s.cores| ::
          s'.cores[j].tlb == s.cores[j].tlb && s'.cores[j].handler == s.cores[j].handler &&
              s'.cores[j].present == s.cores[j].present
          && s'.cores[j].job == s.cores[j].job && s'.cores[j].lock == s.cores[j].lock &&
             (j != c ==> s'.cores[j].phase == s.cores[j].phase))
    && (s.cores[t].ipi ==> s'.cores[t].ipi) && (s.cores[t].cmd ==> s'.cores[t].cmd)
  }

  lemma {:induction false} OneStore(s: State, c: nat, t: nat)
    requires c < |s.cores| && t < |s.cores| && s.cores[c].handler == Off
    requires s.cores[c].phase.Locked? && s.cores[c].phase.i == t && s.cores[c].phase.stage != Wait
    ensures Do(s, Store(c)).Some?
    ensures var s', p := Do(s, Store(c)).value, s.cores[c].phase;
            && SameElse(s, s', c, t) && s'.cores[c].phase == p.(stage := NextStage(p.stage))
            && (p.stage == SendIpi ==> s'.cores[t].ipi) && (p.stage == SetCmd ==> s'.cores[t].cmd)
            && s'.cores[t].addr == if p.stage == SetAddr then p.page else s.cores[t].addr
  {
  }

  lemma {:induction false} AskedAfter(s: State, s1: State, s': State, c: nat, t: nat)
    requires c < |s.cores| && t < |s.cores| && s.cores[c].phase.Locked? && s.cores[c].phase.stage != Wait
    requires var p := s.cores[c].phase;
             && SameElse(s, s1, c, t) && s1.cores[c].phase == p.(stage := NextStage(p.stage))
             && (p.stage == SendIpi ==> s1.cores[t].ipi) && (p.stage == SetCmd ==> s1.cores[t].cmd)
             && s1.cores[t].addr == (if p.stage == SetAddr then p.page else s.cores[t].addr)
    requires Asked(s1, s', c, t)
    ensures Asked(s, s', c, t)
  {
  }

  /** Called on another core, pager_unmap times out on that core itself and never reaches the bootstrap core: here core
      1 unmaps page 7, gives up on its own mailbox, and core 0 still caches the old translation. */
  lemma {:induction false} OtherCallerLeavesBsp() returns (steps: seq<Step>, s: State)
    ensures Initial(Start()) && Run(Start(), steps) == Some(s)
    ensures s.bsp == 0 && |s.cores| == 2 && s.cores[0].present && s.cores[1].present
    ensures s.cores[1].phase.Done? && s.cores[1].phase.page == 7 && !Clean(s.cores[0].tlb, 7, s.cores[1].phase.cut)
  {
    steps, s := StaleAtBsp();
    var s1;
    steps, s1 := CoreOneLocksItself(steps, s);
    steps, s := AllStores(Start(), steps, s1, 1, 1);
    steps, s := CoreOneGivesUp(steps, s);
  }

  lemma {:induction false} CoreOneGivesUp(steps: seq<Step>, s: State) returns (steps': seq<Step>, s': State)
    requires Run(Start(), steps) == Some(s) && |s.cores| == 2 && s.bsp == 0 && s.cores[1].handler == Off
    requires s.cores[1].phase == Locked(7, 1, 1, Wait)
    ensures Run(Start(), steps') == Some(s') && |s'.cores| == 2 && s'.bsp == 0
    ensures s'.cores[0] == s.cores[0] && s'.cores[1].present == s.cores[1].present && s'.cores[1].phase == Done(7, 1)
  {
    steps', s' := Then(Start(), steps, s, TimeOut(1));
    steps', s' := Then(Start(), steps', s', Skip(1));
  }

  lemma {:induction false} StaleAtBsp() returns (steps: seq<Step>, s: State)
    ensures Run(Start(), steps) == Some(s)
    ensures s == Start().(cores := [Fresh(true).(tlb := map[7 := Entry(70, 0)]), Fresh(true)],
              table := map[7 := Entry(70, 0)], clock := 1)
  {
    steps, s := [], Start();
    assert Run(Start(), steps) == Some(s);
    steps, s := Then(Start(), steps, s, MapPage(7, 70));
    steps, s := Then(Start(), steps, s, Fill(0, 7));
  }

  lemma {:induction false} CoreOneLocksItself(steps: seq<Step>, s: State) returns (steps': seq<Step>, s': State)
    requires Run(Start(), steps) == Some(s)
    requires s == Start().(cores := [Fresh(true).(tlb := map[7 := Entry(70, 0)]), Fresh(true)],
               table := map[7 := Entry(70, 0)], clock := 1)
    ensures Run(Start(), steps') == Some(s') && s'.bsp == 0 && |s'.cores| == 2
    ensures s'.cores[0].tlb == s.cores[0].tlb && s'.cores[0].present
    ensures s'.cores[1].present && s'.cores[1].handler == Off && s'.cores[1].phase == Locked(7, 1, 1, SetResp)
  {
    steps', s' := Then(Start(), steps, s, Unmap(1, 7));
    steps', s' := Then(Start(), steps', s', LocalFlush(1));
    steps', s' := Then(Start(), steps', s', Skip(1));
    steps', s' := Then(Start(), steps', s', Lock(1));
  }

  // ----- a stale mailbox is within reach -----

  /** The handler of core 1 has read page 1 when core 0 gives up on it; core 1 caches page 2. */
  predicate GaveUp(s: State) {
    && |s.cores| == 2 && s.bsp == 0 && s.cores[0].present && s.cores[0].phase == Idle && s.cores[0].handler == Off &&
       s.cores[0].job == None
    && s.cores[1].present && s.cores[1].handler == Invlpg(1) && s.cores[1].lock == None && !s.cores[1].ipi
    && 2 in s.cores[1].tlb && s.cores[1].tlb[2].stamp < s.clock
  }

  lemma {:induction false} TwoPages() returns (steps: seq<Step>, s: State)
    ensures Run(Start(), steps) == Some(s) && s.bsp == 0 && s.clock == 2
    ensures s.cores == [Fresh(true), Fresh(true).(tlb := map[2 := Entry(20, 1)])]
  {
    steps, s := [], Start();
    assert Run(Start(), steps) == Some(s);
    steps, s := Then(Start(), steps, s, MapPage(1, 10));
    steps, s := Then(Start(), steps, s, MapPage(2, 20));
    steps, s := Then(Start(), steps, s, Fill(1, 2));
  }

  lemma {:induction false} CoreZeroFlushes(s0: State, steps: seq<Step>, s: State, page: nat)
    returns (steps': seq<Step>, s': State)
    requires Run(s0, steps) == Some(s) && |s.cores| == 2 && s.cores[0].present && s.cores[0].phase == Idle
    requires s.cores[0].handler == Off && s.cores[0].job == None
    ensures Run(s0, steps') == Some(s') && steps' == steps + [Unmap(0, page), LocalFlush(0)]
    ensures |s'.cores| == 2 && s'.bsp == s.bsp && s'.clock == s.clock && s'.cores[1] == s.cores[1]
    ensures s'.cores[0].phase == Scan(page, s.clock, 0) && s'.cores[0].handler == Off && s'.cores[0].job == None &&
              s'.cores[0].present
  {
    steps', s' := Then(s0, steps, s, Unmap(0, page));
    steps', s' := Then(s0, steps', s', LocalFlush(0));
  }

  lemma {:induction false} CoreZeroTakes(s0: State, steps: seq<Step>, s: State, page: nat, cut: nat)
    returns (steps': seq<Step>, s': State)
    requires Run(s0, steps) == Some(s) && |s.cores| == 2 && s.bsp == 0 && s.cores[0].phase == Scan(page, cut, 0)
    requires s.cores[0].handler == Off && s.cores[0].job == None && s.cores[0].present && s.cores[1].present &&
               s.cores[1].lock == None
    ensures Run(s0, steps') == Some(s') && steps' == steps + [Skip(0), Lock(0)]
    ensures |s'.cores| == 2 && s'.bsp == 0 && s'.clock == s.clock && s'.cores[1] == s.cores[1].(lock := Some(0))
    ensures s'.cores[0] == s.cores[0].(phase := Locked(page, cut, 1, SetResp))
  {
    steps', s' := Then(s0, steps, s, Skip(0));
    steps', s' := Then(s0, steps', s', Lock(0));
  }

  /** pager_unmap on core 0 of two, up to its lock of core 1. */
  lemma {:induction false} CoreZeroLocks(s0: State, steps: seq<Step>, s: State, page: nat)
    returns (steps': seq<Step>, s': State)
    requires Run(s0, steps) == Some(s) && |s.cores| == 2 && s.bsp == 0 && s.cores[0].present && s.cores[0].phase == Idle
    requires s.cores[0].handler == Off && s.cores[0].job == None && s.cores[1].present && s.cores[1].lock == None
    ensures Run(s0, steps') == Some(s') && steps' == steps + [Unmap(0, page), LocalFlush(0), Skip(0), Lock(0)]
    ensures |s'.cores| == 2 && s'.bsp == 0 && s'.clock == s.clock && s'.cores[0].handler == Off && s'.cores[0].present
    ensures s'.cores[0].phase == Locked(page, s.clock, 1, SetResp) && s'.cores[0].job == None
    ensures s'.cores[1] == s.cores[1].(lock := Some(0))
  {
    var s1;
    steps', s1 := CoreZeroFlushes(s0, steps, s, page);
    steps', s' := CoreZeroTakes(s0, steps', s1, page, s.clock);
  }

  lemma {:induction false} HandlerReads(steps: seq<Step>, s: State) returns (steps': seq<Step>, s': State)
    requires Run(Start(), steps) == Some(s) && |s.cores| == 2
    requires var k := s.cores[1]; k.handler == Off && k.ipi && k.cmd && !k.Masked()
    ensures Run(Start(), steps') == Some(s') && |s'.cores| == 2 && s'.bsp == s.bsp && s'.clock == s.clock
    ensures s'.cores[0] == s.cores[0]
    ensures s'.cores[1] == s.cores[1].(ipi := false, resp := false, handler := Invlpg(s.cores[1].addr))
  {
    steps', s' := Then(Start(), steps, s, Deliver(1));
    steps', s' := Then(Start(), steps', s', Handle(1));
    steps', s' := Then(Start(), steps', s', Handle(1));
    steps', s' := Then(Start(), steps', s', Handle(1));
  }

  lemma {:induction false} CoreZeroGivesUp(steps: seq<Step>, s: State) returns (steps': seq<Step>, s': State)
    requires Run(Start(), steps) == Some(s) && |s.cores| == 2 && s.bsp == 0 && s.cores[0].handler == Off
    requires s.cores[0].phase == Locked(1, 2, 1, Wait) && s.cores[0].job == None
    ensures Run(Start(), steps') == Some(s') && |s'.cores| == 2 && s'.bsp == 0 && s'.clock == s.clock
    ensures s'.cores[0] == s.cores[0].(phase := Idle) && s'.cores[1] == s.cores[1].(lock := None)
  {
    steps', s' := Then(Start(), steps, s, TimeOut(0));
    steps', s' := Then(Start(), steps', s', Skip(0));
    steps', s' := Then(Start(), steps', s', Return(0));
  }

  lemma {:induction false} FirstCallTimesOut() returns (steps: seq<Step>, s: State)
    ensures Run(Start(), steps) == Some(s) && GaveUp(s)
  {
    var s1;
    steps, s := TwoPages();
    steps, s1 := CoreZeroLocks(Start(), steps, s, 1);
    steps, s := AllStores(Start(), steps, s1, 0, 1);
    steps, s := HandlerReads(steps, s);
    steps, s := CoreZeroGivesUp(steps, s);
  }

  predicate SameWait(s: State, s': State, c: nat)
    requires c < |s.cores| && s.cores[c].phase.Locked?
  {
    && |s'.cores| == |s.cores| && s'.bsp == s.bsp
    && var p, p' := s.cores[c].phase, s'.cores[c].phase;
       p'.Locked? && p'.i == p.i && p'.page == p.page && p'.cut == p.cut
  }

  lemma {:induction false} StepStays(s: State, st: Step, c: nat)
    requires Do(s, st).Some? && !((st.SeeAck? || st.TimeOut?) && st.c == c) && c < |s.cores| && s.cores[c].phase.Locked?
    ensures SameWait(s, Do(s, st).value, c)
  {
    StepMoves(s, st);
    assert Framed(s, st, Do(s, st).value, c);
  }

  /** While a caller stays in its wait, it keeps its page and its target. */
  lemma {:induction false} RunStays(s: State, c: nat, steps: seq<Step>)
    requires Run(s, steps).Some? && Stays(steps, c) && c < |s.cores| && s.cores[c].phase.Locked?
    ensures SameWait(s, Run(s, steps).value, c)
    decreases steps
  {
    if steps == [] {
      assert Run(s, steps) == Some(s);
    } else {
      assert steps[0] in steps;
      StepStays(s, steps[0], c);
      RunStays(Do(s, steps[0]).value, c, steps[1..]);
    }
  }

  lemma {:induction false} TwoCoresFinish(s0: State, steps: seq<Step>, s: State) returns (steps': seq<Step>, s': State)
    requires Run(s0, steps) == Some(s) && |s.cores| == 2 && s.bsp == 0 && Do(s, SeeAck(0)).Some? &&
               s.cores[0].phase.i == 1
    ensures Run(s0, steps') == Some(s') && steps' == steps + [SeeAck(0), Skip(0)] && |s'.cores| == 2 && s'.bsp == 0
    ensures s'.cores[0].phase == Done(s.cores[0].phase.page, s.cores[0].phase.cut) && s'.cores[1].tlb == s.cores[1].tlb
  {
    steps', s' := Then(s0, steps, s, SeeAck(0));
    steps', s' := Then(s0, steps', s', Skip(0));
  }

  /** A stale mailbox has a continuation in which the caller sees its acknowledgement. */
  lemma {:induction false} WrongAnswer(s: State, c: nat, t: nat, page: nat, cut: nat)
    returns (steps: seq<Step>, s': State)
    requires Inv(s) && c < |s.cores| && t < |s.cores| && t != c && s.cores[c].phase == Locked(page, cut, t, SetResp)
    requires (s.cores[t].ipi ==> !s.cores[t].Masked()) && !Clean(s.cores[t].tlb, page, cut) && !Good(s.cores[t], page)
    ensures Acknowledged(s, c, steps) && Run(s, steps) == Some(s') && SameWait(s, s', c) &&
              !Clean(s'.cores[t].tlb, page, cut)
  {
    assert CoreOk(s, c);
    DoomedFails(s, c, t, page, cut);
    steps :| Acknowledged(s, c, steps) &&
        (var r := Run(s, steps).value; t < |r.cores| && !Clean(r.cores[t].tlb, page, cut));
    s' := Run(s, steps).value;
    RunStays(s, c, steps);
  }

  /** Core 0 gives up on page 1 while the handler of core 1 is between reading the address and invlpg. The mailbox is
      then stale: a later call for page 2 is acknowledged by that handler, sees no time-out of its own, and is done
      although core 1 still caches page 2. */
  lemma {:induction false} EarlierTimeOutBreaksLaterCall()
    returns (before: seq<Step>, mid: State, after: seq<Step>, s: State)
    ensures Initial(Start()) && Run(Start(), before) == Some(mid) && Run(mid, after) == Some(s)
    ensures |mid.cores| == 2 && mid.cores[0].phase == Idle && forall st | st in after :: !(st.TimeOut? && st.c == 0)
    ensures |s.cores| == 2 && s.bsp == 0 && s.cores[0].phase.Done? && s.cores[0].phase.page == 2
    ensures !Clean(s.cores[1].tlb, 2, s.cores[0].phase.cut)
  {
    before, mid := FirstCallTimesOut();
    assert Initial(Start());
    InitialInv(Start());
    RunKeepsInv(Start(), before);
    after, s := SecondCall(mid);
  }

  lemma {:induction false} SecondCall(mid: State) returns (after: seq<Step>, s: State)
    requires Inv(mid) && GaveUp(mid)
    ensures Run(mid, after) == Some(s) && forall st | st in after :: !(st.TimeOut? && st.c == 0)
    ensures |s.cores| == 2 && s.bsp == 0 && s.cores[0].phase.Done? && s.cores[0].phase.page == 2
    ensures !Clean(s.cores[1].tlb, 2, s.cores[0].phase.cut)
  {
    assert Run(mid, []) == Some(mid);
    var first, s1 := CoreZeroLocks(mid, [], mid, 2);
    RunKeepsInv(mid, first);
    var rest, s2 := WrongAnswer(s1, 0, 1, 2, mid.clock);
    RunConcat(mid, first, rest);
    after, s := TwoCoresFinish(mid, first + rest, s2);
  }
}
