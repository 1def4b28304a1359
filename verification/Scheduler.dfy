/** The process table as a state machine: timer ticks, process calls and messages, and what every run keeps. */
module Scheduler {
  import opened Bytes
  import opened Inboxes

  datatype Regs = Regs(
    eax: nat, ebx: nat, ecx: nat, edx: nat, esp: nat, ebp: nat, esi: nat, edi: nat, eip: nat,
    cs: nat, ds: nat, es: nat, ss: nat, fs: nat, gs: nat, flags: bv32)

  datatype Proc = Proc(valid: bool, active: bool, delete: bool, regs: Regs, parent: nat, inbox: Inbox)

  /** The kernel's globals: the table, the current slot and the scratch registers. */
  datatype State = State(procs: seq<Proc>, cur: nat, scratch: Regs)

  /** What a caller passes when it creates a process. */
  datatype Launch = Launch(permitted: bool, named: bool, program: nat, entry: nat, stack: nat, stackSize: nat,
                           parent: nat, user: nat, argc: nat, argv: nat)

  datatype Event =
    | Tick(hw: Regs)            // the timer, or YIELD 0, with the registers the CPU held
    | Create(launch: Launch)
    | Kill(p: nat)
    | Suspend(p: nat)
    | Resume(p: nat)
    | Reap(p: nat)
    | Send(target: nat, data: seq<byte>)
    | Fetch

  const NO_REGS := Regs(0, 0, 0, 0, 0, 0, 0, 0, 0, 0, 0, 0, 0, 0, 0, 0)
  const INTERRUPTS: bv32 := 0x200

  function EmptyInbox(cap: nat): (q: Inbox)
    requires 0 < cap < 256
    ensures Ring(q) && |q.messages| == cap && Pending(q) == []
  {
    Inbox(seq(cap, _ => Message(0, 0, [], false)), 0, 0, 0)
  }

  function EmptyProc(cap: nat): Proc
    requires 0 < cap < 256
  {
    Proc(false, false, false, NO_REGS, 0, EmptyInbox(cap))
  }

  /** The registers a new process starts with. */
  function StartRegs(l: Launch): Regs {
    var top := (l.stack + l.stackSize) % U32 / 16 * 16;
    Regs(l.user, l.parent, l.argc, l.argv, top, top, 0, 0, (l.program + l.entry) % U32, 0x8, 0x10, 0x10, 0x10, 0x10,
        0x10, 0x202)
  }

  /** Where and with what a new process begins: at its program's entry, on its own stack from the top down, rounded to
      16 bytes, with its caller's data in the first four registers, kernel segments and interrupts on. */
  predicate StartsAt(l: Launch, r: Regs) {
    && r.eip == (l.program + l.entry) % 0x1_0000_0000
    && r.esp == r.ebp
    && (l.stack + l.stackSize < 0x1_0000_0000 ==> r.esp % 16 == 0 && r.esp <= l.stack + l.stackSize < r.esp + 16)
    && r.eax == l.user && r.ebx == l.parent && r.ecx == l.argc && r.edx == l.argv && r.esi == 0 && r.edi == 0
    && r.cs == 8 && r.ds == 0x10 && r.es == 0x10 && r.ss == 0x10 && r.fs == 0x10 && r.gs == 0x10
    && r.flags & 0x200 != 0
  }

  lemma StartRegsStart(l: Launch)
    ensures StartsAt(l, StartRegs(l))
  {
  }

  predicate Runnable(p: Proc) {
    p.valid && p.active
  }

  // ----- The pieces of a step

  /** schedFindInvalidProcess: the lowest slot that is not valid. */
  function FirstInvalid(procs: seq<Proc>, i: nat): (r: Option<nat>)
    ensures r.Some? ==> i <= r.value < |procs| && !procs[r.value].valid
    ensures r.Some? ==> forall j :: i <= j < r.value ==> procs[j].valid
    ensures r.None? ==> forall j :: i <= j < |procs| ==> procs[j].valid
    decreases |procs| - i
  {
    if i >= |procs| then None
    else if !procs[i].valid then Some(i)
    else FirstInvalid(procs, i + 1)
  }

  /** The slot a creation takes, if it is granted one. */
  function CreateSlot(s: State, l: Launch): (r: Option<nat>)
    ensures r.Some? ==> 0 < r.value < |s.procs| && !s.procs[r.value].valid
  {
    var id := FirstInvalid(s.procs, 0);
    if l.permitted && l.named && l.program != 0 && id.Some? && id.value > 0 then id else None
  }

  /** How many steps lead from a to b around a ring of n slots: 1 to n. */
  function Dist(a: nat, b: nat, n: nat): (d: nat)
    requires a < n && b < n
    ensures 1 <= d <= n
  {
    if b > a then b - a else b - a + n
  }

  function Succ(a: nat, n: nat): (b: nat)
    requires a < n
    ensures b < n
    ensures b == if a + 1 == n then 0 else a + 1
  {
    Around(a, n);
    (a + 1) % n
  }

  /** The slot round robin picks after slot a: the nearest runnable one. */
  function NextSlot(procs: seq<Proc>, a: nat): (q: nat)
    requires a < |procs| && Runnable(procs[0])
    ensures q < |procs| && Runnable(procs[q])
    ensures forall p :: 0 <= p < |procs| && Runnable(procs[p]) ==> Dist(a, q, |procs|) <= Dist(a, p, |procs|)
    decreases Dist(a, 0, |procs|)
  {
    var b := Succ(a, |procs|);
    if Runnable(procs[b]) then b else NextSlot(procs, b)
  }

  function Saved(hw: Regs): Regs {
    hw.(flags := hw.flags | INTERRUPTS)
  }

  /** Every register as it was, and every flag but the interrupt flag, which is set. */
  predicate Resumed(hw: Regs, r: Regs) {
    r == hw.(flags := r.flags) && r.flags & 0x200 == 0x200 && r.flags & 0xFFFF_FDFF == hw.flags & 0xFFFF_FDFF
  }

  lemma SavedKeeps(hw: Regs)
    ensures Resumed(hw, Saved(hw))
  {
  }

  predicate Sendable(s: State, target: nat, data: seq<byte>) {
    target < |s.procs| && s.procs[target].valid && |data| <= MAX_MSG_SIZE && !Full(s.procs[target].inbox)
  }

  // ----- Steps and runs

  /** Every slot is empty, running, suspended or a zombie; slot 0 runs; the inboxes are rings. */
  ghost predicate Good(s: State) {
    && s.cur < |s.procs|
    && Runnable(s.procs[0])
    && forall p :: 0 <= p < |s.procs| ==> SlotOk(s.procs[p])
  }

  ghost predicate SlotOk(p: Proc) {
    && (p.active ==> p.valid)
    && (p.delete ==> !p.valid && !p.active)
    && Ring(p.inbox) && Unmarked(p.inbox)
  }

  /** What schedInit leaves: slot 0 runs, every other slot is empty. */
  ghost predicate Booted(s: State) {
    Good(s) && s.cur == 0 && |s.procs| > 1 && forall p :: 0 < p < |s.procs| ==> !s.procs[p].valid
  }

  function Step(s: State, e: Event): (r: State)
    requires Good(s)
    ensures |r.procs| == |s.procs|
  {
    match e
    case Tick(hw) =>
      var procs := s.procs[s.cur := s.procs[s.cur].(regs := Saved(hw))];
      var next := NextSlot(procs, s.cur);
      State(procs, next, procs[next].regs)
    case Create(l) =>
      var id := CreateSlot(s, l);
      if id.None? then s
      else
        var cap := |s.procs[id.value].inbox.messages|;
        s.(procs := s.procs[id.value := Proc(true, true, false, StartRegs(l), l.parent, EmptyInbox(cap))])
    case Kill(p) =>
      if p == 0 || p >= |s.procs| then s
      else s.(procs := s.procs[p := s.procs[p].(active := false, valid := false, delete := true)])
    case Suspend(p) =>
      if p == 0 || p >= |s.procs| || !s.procs[p].active || !s.procs[p].valid then s
      else s.(procs := s.procs[p := s.procs[p].(active := false)])
    case Resume(p) =>
      if p == 0 || p >= |s.procs| || s.procs[p].active || !s.procs[p].valid then s
      else s.(procs := s.procs[p := s.procs[p].(active := true)])
    case Reap(p) =>
      if p >= |s.procs| || !s.procs[p].delete then s
      else s.(procs := s.procs[p := EmptyProc(|s.procs[p].inbox.messages|)])
    case Send(target, data) =>
      if !Sendable(s, target, data) then s
      else
        var q := Enqueue(s.procs[target].inbox, Message(s.cur, target, data, false));
        s.(procs := s.procs[target := s.procs[target].(inbox := q)])
    case Fetch =>
      s.(procs := s.procs[s.cur := s.procs[s.cur].(inbox := Dequeue(s.procs[s.cur].inbox).0)])
  }

  /** Every step keeps the table well-formed. */
  lemma StepGood(s: State, e: Event)
    requires Good(s)
    ensures Good(Step(s, e))
  {
    match e
    case Send(target, data) =>
      if Sendable(s, target, data) {
        var q, m := s.procs[target].inbox, Message(s.cur, target, data, false);
        EnqueueAppends(q, m);
        StillUnmarked(q, m);
      }
    case Fetch =>
      DequeueTakesFirst(s.procs[s.cur].inbox);
      StillUnmarked(s.procs[s.cur].inbox, Message(0, 0, [], false));
    case _ =>
  }

  /** What each event does to who may run: a suspended, killed or cleared slot stops, a resumed or new one starts, and
      nothing else starts or stops any.  Slot 0 cannot be stopped. */
  lemma RunnableAfter(s: State, e: Event, q: nat)
    requires Good(s) && q < |s.procs|
    ensures Runnable(Step(s, e).procs[q]) <==>
              match e
              case Suspend(p) => Runnable(s.procs[q]) && (p != q || q == 0)
              case Kill(p) => Runnable(s.procs[q]) && (p != q || q == 0)
              case Resume(p) => Runnable(s.procs[q]) || (p == q && q != 0 && s.procs[q].valid)
              case Create(l) =>
                || Runnable(s.procs[q])
                || (l.permitted && l.named && l.program != 0 && q != 0 && !s.procs[q].valid
                    && forall j :: 0 <= j < q ==> s.procs[j].valid)
              case _ => Runnable(s.procs[q])
  {
    hide Ring, Enqueue, Dequeue, EmptyInbox, StartRegs, Unmarked;
    assert SlotOk(s.procs[q]);
    if e.Create? {
      SlotTaken(s, e.launch, q);
    }
  }

  /** The slot a creation takes is the lowest that is not valid. */
  lemma SlotTaken(s: State, l: Launch, q: nat)
    requires Good(s) && q < |s.procs|
    ensures CreateSlot(s, l) == Some(q) <==>
              && l.permitted && l.named && l.program != 0 && q != 0 && !s.procs[q].valid
              && forall j :: 0 <= j < q ==> s.procs[j].valid
  {
    hide SlotOk;
  }

  function Run(s: State, es: seq<Event>): (r: State)
    requires Good(s)
    ensures Good(r) && |r.procs| == |s.procs|
    decreases |es|
  {
    if es == [] then s
    else
      StepGood(s, es[0]);
      Run(Step(s, es[0]), es[1..])
  }
}
