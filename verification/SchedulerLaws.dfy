/** What every run of the process table satisfies: fair turns, first-in first-out messages, and registers
    that come back to the process they were taken from. */
module SchedulerLaws {
  import opened Bytes
  import opened Inboxes
  import opened Scheduler

  // ----- Turns

  /** The slots picked at the ticks of a run, in order. */
  function Picks(s: State, es: seq<Event>): seq<nat>
    requires Good(s)
    decreases |es|
  {
    if es == [] then []
    else
      StepGood(s, es[0]);
      var r := Step(s, es[0]);
      (if es[0].Tick? then [r.cur] else []) + Picks(r, es[1..])
  }

  function Ticks(es: seq<Event>): nat {
    if es == [] then 0 else (if es[0].Tick? then 1 else 0) + Ticks(es[1..])
  }

  /** Slot p is runnable at the start of a run and after each of its events. */
  ghost predicate AlwaysRunnable(s: State, es: seq<Event>, p: nat)
    requires Good(s)
    decreases |es|
  {
    StepGood(s, if es == [] then Fetch else es[0]);
    p < |s.procs| && Runnable(s.procs[p]) && (es != [] ==> AlwaysRunnable(Step(s, es[0]), es[1..], p))
  }

  /** A tick hands the CPU to the nearest runnable slot; only a tick moves it. */
  lemma TickPicks(s: State, e: Event)
    requires Good(s)
    ensures !e.Tick? ==> Step(s, e).cur == s.cur
    ensures e.Tick? ==>
              forall p :: 0 <= p < |s.procs| && Runnable(s.procs[p]) ==>
                Dist(s.cur, Step(s, e).cur, |s.procs|) <= Dist(s.cur, p, |s.procs|)
  {
    if e.Tick? {
      var procs := s.procs[s.cur := s.procs[s.cur].(regs := Saved(e.hw))];
      assert forall p :: 0 <= p < |s.procs| && Runnable(s.procs[p]) ==> Runnable(procs[p]);
    }
  }

  /** Fairness: a slot that stays runnable is picked within as many ticks as there are slots, whatever
      happens to the others. */
  lemma {:induction false} PickedInTime(s: State, es: seq<Event>, p: nat)
    requires Good(s) && AlwaysRunnable(s, es, p)
    requires Ticks(es) >= Dist(s.cur, p, |s.procs|)
    ensures p in Picks(s, es)
    decreases |es|
  {
    var e := es[0];
    StepGood(s, e);
    TickPicks(s, e);
    var r := Step(s, e);
    hide Step, NextSlot;
    if !e.Tick? || r.cur != p {
      PickedInTime(r, es[1..], p);
    }
  }

  /** How far slot r lies past slot p on the ring, 0 to n - 1. */
  function Past(p: nat, r: nat, n: nat): (d: nat)
    requires p < n && r < n
    ensures d < n
  {
    if r >= p then r - p else r - p + n
  }

  function Count(s: seq<nat>, r: nat): nat {
    if s == [] then 0 else (if s[0] == r then 1 else 0) + Count(s[1..], r)
  }

  /** The run picks p with its last event and not before. */
  ghost predicate EndsAtFirst(picks: seq<nat>, p: nat) {
    picks != [] && picks[|picks| - 1] == p && p !in picks[..|picks| - 1]
  }

  /** Where the slot q picked after `cur` lies, seen from p: no runnable slot is passed over. */
  lemma TurnPlace(cur: nat, q: nat, p: nat, r: nat, n: nat)
    requires cur < n && q < n && p < n && r < n && r != p
    requires Dist(cur, q, n) <= Dist(cur, p, n) && Dist(cur, q, n) <= Dist(cur, r, n)
    ensures q == p ==> Past(p, r, n) <= Past(p, cur, n)
    ensures q != p && q == r ==> Past(p, r, n) > Past(p, cur, n)
    ensures q != p && q != r ==> (Past(p, r, n) > Past(p, cur, n) <==> Past(p, r, n) > Past(p, q, n))
  {
  }

  lemma CountCons(x: nat, s: seq<nat>, r: nat)
    ensures Count([x] + s, r) == (if x == r then 1 else 0) + Count(s, r)
  {
    assert ([x] + s)[1..] == s;
  }

  /** Dropping a pick that is not p keeps the first pick of p last. */
  lemma EndsLater(x: nat, rest: seq<nat>, p: nat)
    requires EndsAtFirst([x] + rest, p)
    ensures x == p ==> rest == []
    ensures x != p ==> EndsAtFirst(rest, p)
  {
    var s := [x] + rest;
    if rest != [] {
      assert s[..|s| - 1] == [x] + rest[..|rest| - 1];
      assert x in s[..|s| - 1];
    }
  }

  /** Between two turns of p, every other slot that stays runnable has exactly one turn. */
  lemma {:induction false} TurnsLeft(s: State, es: seq<Event>, p: nat, r: nat)
    requires Good(s) && r != p
    requires AlwaysRunnable(s, es, p) && AlwaysRunnable(s, es, r)
    requires EndsAtFirst(Picks(s, es), p)
    ensures Count(Picks(s, es), r) == if Past(p, r, |s.procs|) > Past(p, s.cur, |s.procs|) then 1 else 0
    decreases |es|
  {
    var e := es[0];
    StepGood(s, e);
    TickPicks(s, e);
    var t := Step(s, e);
    var rest := Picks(t, es[1..]);
    hide Step, NextSlot, Dist, Past, Count, EndsAtFirst, Good;
    if !e.Tick? {
      assert Picks(s, es) == rest;
      TurnsLeft(t, es[1..], p, r);
    } else {
      assert Picks(s, es) == [t.cur] + rest;
      EndsLater(t.cur, rest, p);
      TurnPlace(s.cur, t.cur, p, r, |s.procs|);
      CountCons(t.cur, rest, r);
      if t.cur == p {
        EmptyCount(r);
      } else {
        TurnsLeft(t, es[1..], p, r);
        PastSelf(p, t.cur, r, |s.procs|);
      }
    }
  }

  lemma EmptyCount(r: nat)
    ensures Count([], r) == 0
  {
  }

  lemma PastSelf(p: nat, q: nat, r: nat, n: nat)
    requires p < n && q < n && r < n
    ensures q == r ==> Past(p, r, n) == Past(p, q, n)
    ensures r != p ==> Past(p, r, n) > 0
    ensures Past(p, p, n) == 0
  {
  }

  /** From one turn of p to its next, every other slot that stays runnable has exactly one turn. */
  lemma OneTurnEach(s: State, es: seq<Event>, p: nat, r: nat)
    requires Good(s) && s.cur == p && r != p
    requires AlwaysRunnable(s, es, p) && AlwaysRunnable(s, es, r)
    requires EndsAtFirst(Picks(s, es), p)
    ensures Count(Picks(s, es), r) == 1
  {
    hide Step, Good, Picks, EndsAtFirst;
    TurnsLeft(s, es, p, r);
    PastSelf(p, p, r, |s.procs|);
  }

  // ----- Messages

  /** Slot p is neither refilled nor cleared during a run. */
  ghost predicate Lives(s: State, es: seq<Event>, p: nat)
    requires Good(s) && p < |s.procs|
    decreases |es|
  {
    es == [] ||
    (StepGood(s, es[0]);
     && (es[0].Create? ==> CreateSlot(s, es[0].launch) != Some(p))
     && (es[0] == Reap(p) ==> !s.procs[p].delete)
     && Lives(Step(s, es[0]), es[1..], p))
  }

  /** The message one event adds to the queue of slot p, and the one it takes from it. */
  ghost function AcceptedNow(s: State, e: Event, p: nat): seq<Message>
    requires p < |s.procs|
  {
    if e.Send? && e.target == p && Sendable(s, p, e.data) then [Message(s.cur, p, e.data, false)] else []
  }

  ghost function FetchedNow(s: State, e: Event, p: nat): seq<Message>
    requires Good(s) && p < |s.procs|
  {
    var m := Dequeue(s.procs[s.cur].inbox).1;
    if e.Fetch? && s.cur == p && m.Some? then [m.value] else []
  }

  /** The messages slot p was sent and did not refuse during a run, in order. */
  ghost function Accepted(s: State, es: seq<Event>, p: nat): seq<Message>
    requires Good(s) && p < |s.procs|
    decreases |es|
  {
    if es == [] then []
    else
      StepGood(s, es[0]);
      AcceptedNow(s, es[0], p) + Accepted(Step(s, es[0]), es[1..], p)
  }

  /** The messages slot p fetched during a run, in order. */
  ghost function Fetched(s: State, es: seq<Event>, p: nat): seq<Message>
    requires Good(s) && p < |s.procs|
    decreases |es|
  {
    if es == [] then []
    else
      StepGood(s, es[0]);
      FetchedNow(s, es[0], p) + Fetched(Step(s, es[0]), es[1..], p)
  }

  /** What one event does to the queue of slot p. */
  lemma QueueStep(s: State, e: Event, p: nat)
    requires Good(s) && p < |s.procs|
    requires (e.Create? ==> CreateSlot(s, e.launch) != Some(p)) && (e == Reap(p) ==> !s.procs[p].delete)
    requires Good(Step(s, e))
    ensures Pending(s.procs[p].inbox) + AcceptedNow(s, e, p) == FetchedNow(s, e, p) + Pending(Step(s, e).procs[p].inbox)
  {
    hide Pending, Enqueue;
    match e
    case Send(target, data) =>
      if Sendable(s, target, data) {
        EnqueueAppends(s.procs[target].inbox, Message(s.cur, target, data, false));
      }
    case Fetch => DequeueTakesFirst(s.procs[s.cur].inbox);
    case _ =>
  }

  /** Over any run in which slot p lives, the messages waiting at the start and those accepted since are
      exactly those fetched since and those still waiting, in the same order. */
  lemma {:induction false} FirstInFirstOut(s: State, es: seq<Event>, p: nat)
    requires Good(s) && p < |s.procs| && Lives(s, es, p)
    ensures Pending(s.procs[p].inbox) + Accepted(s, es, p) == Fetched(s, es, p) + Pending(Run(s, es).procs[p].inbox)
    decreases |es|
  {
    hide Step, Pending, AcceptedNow, FetchedNow;
    if es == [] {
      assert Pending(s.procs[p].inbox) + [] == [] + Pending(s.procs[p].inbox);
    } else {
      var e := es[0];
      StepGood(s, e);
      QueueStep(s, e, p);
      var t := Step(s, e);
      FirstInFirstOut(t, es[1..], p);
      Interleave(Pending(s.procs[p].inbox), AcceptedNow(s, e, p), Accepted(t, es[1..], p), FetchedNow(s, e, p),
                 Pending(t.procs[p].inbox), Fetched(t, es[1..], p), Pending(Run(t, es[1..]).procs[p].inbox));
    }
  }

  lemma Interleave<T>(a: seq<T>, b: seq<T>, c: seq<T>, d: seq<T>, e: seq<T>, f: seq<T>, g: seq<T>)
    requires a + b == d + e && e + c == f + g
    ensures a + (b + c) == (d + f) + g
  {
    assert a + (b + c) == (a + b) + c;
    assert (d + e) + c == d + (e + c);
    assert d + (f + g) == (d + f) + g;
  }

  /** A send to a valid slot that holds fewer messages than its ring has room for, of at most 256 bytes, appends the
      message with its sender to that slot's queue; no other send, and no send to another slot, changes a queue. */
  lemma SendArrives(s: State, target: nat, data: seq<byte>, p: nat)
    requires Good(s) && p < |s.procs|
    ensures var q, q' := s.procs[p].inbox, Step(s, Send(target, data)).procs[p].inbox;
            && |q.messages| > 0 && |q'.messages| > 0
            && Pending(q') == if target == p && s.procs[p].valid && |data| <= 256 && |Pending(q)| < |q.messages|
               then Pending(q) + [Message(s.cur, p, data, false)]
                              else Pending(q)
  {
    hide Pending, Enqueue;
    assert SlotOk(s.procs[p]);
    if target == p {
      EnqueueAppends(s.procs[p].inbox, Message(s.cur, p, data, false));
    }
  }

  // ----- Registers

  /** The table together with who is who: which process instance each slot holds, which instance has the
      CPU, and the registers each instance is entitled to resume with. */
  datatype Machine = Machine(s: State, inst: seq<nat>, onCpu: nat, due: map<nat, Regs>, born: nat)

  ghost predicate MachineGood(m: Machine) {
    && Good(m.s) && |m.inst| == |m.s.procs|
    && (forall p :: 0 <= p < |m.inst| ==> m.inst[p] < m.born && m.inst[p] in m.due)
    && (forall p, q :: 0 <= p < q < |m.inst| ==> m.inst[p] != m.inst[q])
    && m.onCpu == m.inst[m.s.cur]
    && (forall p :: 0 <= p < |m.inst| && m.s.procs[p].valid && p != m.s.cur ==> m.s.procs[p].regs == m.due[m.inst[p]])
  }

  /** An instance that loses the CPU is due the registers it had; a new one those it starts with. */
  function MachineStep(m: Machine, e: Event): Machine
    requires Good(m.s) && |m.inst| == |m.s.procs|
  {
    var t := Step(m.s, e);
    match e
    case Tick(hw) => Machine(t, m.inst, m.inst[if t.cur < |m.inst| then t.cur else 0], m.due[m.onCpu := Saved(hw)],
        m.born)
    case Create(l) =>
      var id := CreateSlot(m.s, l);
      if id.None? then m.(s := t)
      else Machine(t, m.inst[id.value := m.born], m.onCpu, m.due[m.born := StartRegs(l)], m.born + 1)
    case _ => m.(s := t)
  }

  /** Any well-formed table, each slot holding an instance that is due the registers it has. */
  function StartMachine(s: State): Machine
    requires Good(s)
  {
    var n := |s.procs|;
    Machine(s, seq(n, p => p), s.cur, map p: nat | p < n :: s.procs[p].regs, n)
  }

  lemma StartMachineGood(s: State)
    requires Good(s)
    ensures MachineGood(StartMachine(s))
  {
  }

  /** A creation does not take the slot whose process still has the CPU. */
  predicate KeepsCurrent(s: State, e: Event) {
    e.Create? ==> CreateSlot(s, e.launch) != Some(s.cur)
  }

  /** It never does while the current slot is valid. */
  lemma ValidIsKept(s: State, e: Event)
    requires s.cur < |s.procs| && s.procs[s.cur].valid
    ensures KeepsCurrent(s, e)
  {
  }

  lemma MachineStepGood(m: Machine, e: Event)
    requires MachineGood(m) && KeepsCurrent(m.s, e)
    ensures MachineGood(MachineStep(m, e))
    ensures e.Tick? ==>
              var r := MachineStep(m, e);
              r.s.scratch == r.due[r.onCpu] && r.onCpu == m.inst[r.s.cur]
  {
    StepGood(m.s, e);
    hide Ring;
    match e
    case Tick(hw) => TickKeepsRegs(m, hw);
    case Create(l) => CreateKeepsRegs(m, l);
    case _ => OthersKeepRegs(m, e);
  }

  lemma TickKeepsRegs(m: Machine, hw: Regs)
    requires MachineGood(m) && Good(Step(m.s, Tick(hw)))
    ensures MachineGood(MachineStep(m, Tick(hw)))
    ensures var r := MachineStep(m, Tick(hw)); r.s.scratch == r.due[r.onCpu] && r.onCpu == m.inst[r.s.cur]
  {
    hide Ring, NextSlot, Saved, SlotOk;
  }

  lemma CreateKeepsRegs(m: Machine, l: Launch)
    requires MachineGood(m) && Good(Step(m.s, Create(l))) && KeepsCurrent(m.s, Create(l))
    ensures MachineGood(MachineStep(m, Create(l)))
  {
    hide Ring, CreateSlot, StartRegs, EmptyInbox, SlotOk;
  }

  lemma OthersKeepRegs(m: Machine, e: Event)
    requires MachineGood(m) && !e.Tick? && !e.Create? && Good(Step(m.s, e))
    ensures MachineGood(MachineStep(m, e))
  {
    hide Ring, Enqueue, Dequeue, EmptyInbox, SlotOk, Sendable;
  }

  function MachineRun(m: Machine, es: seq<Event>): Machine
    requires Good(m.s) && |m.inst| == |m.s.procs|
    decreases |es|
  {
    if es == [] then m
    else
      StepGood(m.s, es[0]);
      MachineRun(MachineStep(m, es[0]), es[1..])
  }

  ghost predicate RunKeepsCurrent(s: State, es: seq<Event>)
    requires Good(s)
    decreases |es|
  {
    es == [] || (StepGood(s, es[0]); KeepsCurrent(s, es[0]) && RunKeepsCurrent(Step(s, es[0]), es[1..]))
  }

  /** Isolation over whole runs: whatever the other slots do, the process a tick picks finds in the
      scratch area the registers it last lost the CPU with, or those it was created with. */
  lemma {:induction false} RegistersComeBack(m: Machine, es: seq<Event>, hw: Regs)
    requires MachineGood(m) && RunKeepsCurrent(m.s, es)
    ensures MachineGood(MachineRun(m, es))
    ensures var r := MachineStep(MachineRun(m, es), Tick(hw));
            r.s.scratch == r.due[r.onCpu] && r.onCpu == r.inst[r.s.cur]
    decreases |es|
  {
    if es == [] {
      hide Ring, Step, SlotOk;
      MachineStepGood(m, Tick(hw));
      SameInstances(m, hw);
    } else {
      hide Ring, Step, SlotOk;
      MachineStepGood(m, es[0]);
      SameState(m, es[0]);
      RegistersComeBack(MachineStep(m, es[0]), es[1..], hw);
    }
  }

  /** An instance stays off the CPU, at the start and after every event. */
  ghost predicate OffCpu(m: Machine, es: seq<Event>, id: nat)
    requires Good(m.s) && |m.inst| == |m.s.procs|
    decreases |es|
  {
    m.onCpu != id && (es == [] || (StepGood(m.s, es[0]); OffCpu(MachineStep(m, es[0]), es[1..], id)))
  }

  /** What an instance is due does not change while it is off the CPU. */
  lemma {:induction false} DueStays(m: Machine, es: seq<Event>, id: nat)
    requires MachineGood(m) && RunKeepsCurrent(m.s, es) && id in m.due && id < m.born && OffCpu(m, es, id)
    ensures MachineGood(MachineRun(m, es))
    ensures var r := MachineRun(m, es); id in r.due && r.due[id] == m.due[id] && r.onCpu != id && id < r.born
    decreases |es|
  {
    if es != [] {
      hide Ring, Step, SlotOk, CreateSlot, StartRegs, Saved;
      MachineStepGood(m, es[0]);
      SameState(m, es[0]);
      DueStays(MachineStep(m, es[0]), es[1..], id);
    }
  }

  /** The tick that gives an instance the CPU again leaves in the scratch area what it was due when it went off. */
  lemma PickedWithDue(m: Machine, es: seq<Event>, hw: Regs, id: nat)
    requires MachineGood(m) && RunKeepsCurrent(m.s, es) && id in m.due && id < m.born && OffCpu(m, es, id)
    ensures var r := MachineRun(m, es);
            && Good(r.s) && |r.inst| == |r.s.procs|
            && var t := MachineStep(r, Tick(hw));
            (t.onCpu == id ==> t.s.scratch == m.due[id])
  {
    hide Ring, Step, SlotOk, Saved;
    DueStays(m, es, id);
    RegistersComeBack(m, es, hw);
    TickDue(MachineRun(m, es), hw, id);
  }

  lemma TickDue(m: Machine, hw: Regs, id: nat)
    requires MachineGood(m) && id in m.due && m.onCpu != id
    ensures MachineStep(m, Tick(hw)).due[id] == m.due[id]
  {
    hide Ring, Step, SlotOk, Saved;
  }

  /** The first tick that picks a new process starts it at its program's entry, on its own stack. */
  lemma FirstTickStarts(m: Machine, l: Launch, es: seq<Event>, hw: Regs)
    requires MachineGood(m) && KeepsCurrent(m.s, Create(l)) && CreateSlot(m.s, l).Some?
    requires var m1 := MachineStep(m, Create(l));
             && Good(m1.s) && RunKeepsCurrent(m1.s, es) && |m1.inst| == |m1.s.procs| && OffCpu(m1, es, m.born)
    ensures var m1 := MachineStep(m, Create(l));
            && m1.inst[CreateSlot(m.s, l).value] == m.born
            && var r := MachineRun(m1, es);
            && Good(r.s) && |r.inst| == |r.s.procs|
            && var t := MachineStep(r, Tick(hw));
            (t.onCpu == m.born ==> StartsAt(l, t.s.scratch))
  {
    hide Ring, Step, SlotOk, CreateSlot, StartRegs, StartsAt;
    MachineStepGood(m, Create(l));
    StartRegsStart(l);
    PickedWithDue(MachineStep(m, Create(l)), es, hw, m.born);
  }

  /** A process that lost the CPU finds, at the tick that picks it again, every register as it was, and every flag but
      the interrupt flag, which is set. */
  lemma NextTickResumes(m: Machine, hw: Regs, es: seq<Event>, hw': Regs)
    requires MachineGood(m)
    requires var m1 := MachineStep(m, Tick(hw));
             && Good(m1.s) && RunKeepsCurrent(m1.s, es) && |m1.inst| == |m1.s.procs| && OffCpu(m1, es, m.onCpu)
    ensures var r := MachineRun(MachineStep(m, Tick(hw)), es);
            && Good(r.s) && |r.inst| == |r.s.procs|
            && var t := MachineStep(r, Tick(hw'));
            (t.onCpu == m.onCpu ==> Resumed(hw, t.s.scratch))
  {
    hide *;
    LeavesCpu(m, hw);
    Resumes(MachineStep(m, Tick(hw)), hw, es, hw', m.onCpu);
  }

  lemma LeavesCpu(m: Machine, hw: Regs)
    requires MachineGood(m)
    ensures Good(m.s) && |m.inst| == |m.s.procs|
    ensures var m1 := MachineStep(m, Tick(hw));
            MachineGood(m1) && m.onCpu in m1.due && m1.due[m.onCpu] == Saved(hw) && m.onCpu < m1.born
  {
    hide Ring, Step, SlotOk, Saved;
    MachineStepGood(m, Tick(hw));
  }

  lemma Resumes(m: Machine, hw: Regs, es: seq<Event>, hw': Regs, id: nat)
    requires MachineGood(m) && id in m.due && id < m.born && m.due[id] == Saved(hw)
    requires RunKeepsCurrent(m.s, es) && OffCpu(m, es, id)
    ensures var r := MachineRun(m, es);
            && Good(r.s) && |r.inst| == |r.s.procs|
            && var t := MachineStep(r, Tick(hw'));
            (t.onCpu == id ==> Resumed(hw, t.s.scratch))
  {
    hide Ring, Step, SlotOk, Saved, Resumed, MachineStep, MachineRun, OffCpu,
         RunKeepsCurrent;
    SavedKeeps(hw);
    PickedWithDue(m, es, hw', id);
  }

  lemma SameState(m: Machine, e: Event)
    requires Good(m.s) && |m.inst| == |m.s.procs|
    ensures MachineStep(m, e).s == Step(m.s, e)
  {
    hide Step;
  }

  lemma SameInstances(m: Machine, hw: Regs)
    requires Good(m.s) && |m.inst| == |m.s.procs|
    ensures MachineStep(m, Tick(hw)).inst == m.inst
  {
    hide Step;
  }

  /** The case the condition shuts out: a process that killed itself and still runs creates another,
      which takes its slot.  At the next tick the new process is given the old one's registers. */
  lemma ReusedSlotMixesRegisters(m: Machine, l: Launch, hw: Regs)
    requires MachineGood(m) && !KeepsCurrent(m.s, Create(l))
    ensures var m1 := MachineStep(m, Create(l));
            && Good(m1.s) && |m1.inst| == |m1.s.procs|
            && var m2 := MachineStep(m1, Tick(hw));
            && m2.inst[m.s.cur] == m.born && m.born in m2.due
            && m2.due[m.born] == StartRegs(l)
            && m2.s.procs[m.s.cur].regs == Saved(hw)
  {
    StepGood(m.s, Create(l));
    hide Ring, CreateSlot, StartRegs, EmptyInbox, SlotOk, NextSlot, Saved;
  }

  const SHELL := Launch(true, true, 0x10_0000, 0, 0x20_0000, 0x1_0000, 0, 7, 0, 0)

  /** A run to that case from the start: slot 0 creates a process, which gets the CPU, kills itself and creates
      another.  The other is due 7, its user, in eax, and its slot holds whatever the first one had there. */
  lemma ReuseHappens(s: State, hw: Regs, hw': Regs)
    requires Booted(s)
    ensures var t := Run(s, [Create(SHELL), Tick(hw), Kill(1)]);
            && t.cur == 1 && CreateSlot(t, SHELL) == Some(1) && !KeepsCurrent(t, Create(SHELL))
            && Run(t, [Create(SHELL), Tick(hw')]).procs[1].regs == Saved(hw') && StartRegs(SHELL).eax == 7
  {
    hide Ring, Unmarked, Saved;
    var a := Step(s, Create(SHELL));
    StepGood(s, Create(SHELL));
    var b := Step(a, Tick(hw));
    StepGood(a, Tick(hw));
    assert FirstInvalid(s.procs, 0) == Some(1) && Runnable(a.procs[1]);
    assert b.cur == 1;
    var c := Step(b, Kill(1));
    StepGood(b, Kill(1));
    RunThree(s, Create(SHELL), Tick(hw), Kill(1));
    assert FirstInvalid(c.procs, 0) == Some(1);
    RunTwo(c, Create(SHELL), Tick(hw'));
  }

  lemma RunOne(s: State, e: Event)
    requires Good(s)
    ensures Good(Step(s, e)) && Run(s, [e]) == Step(s, e)
  {
    hide Good, Step;
    StepGood(s, e);
    assert [e][1..] == [];
    assert Run(Step(s, e), []) == Step(s, e);
  }

  lemma RunTwo(s: State, e: Event, f: Event)
    requires Good(s)
    ensures Good(Step(s, e)) && Run(s, [e, f]) == Step(Step(s, e), f)
  {
    hide Good, Step;
    StepGood(s, e);
    RunOne(Step(s, e), f);
    assert [e, f][1..] == [f];
  }

  lemma RunThree(s: State, e: Event, f: Event, g: Event)
    requires Good(s)
    ensures Good(Step(s, e)) && Good(Step(Step(s, e), f)) && Run(s, [e, f, g]) == Step(Step(Step(s, e), f), g)
  {
    hide Good, Step;
    StepGood(s, e);
    RunTwo(Step(s, e), f, g);
    StepGood(Step(s, e), f);
    assert [e, f, g][1..] == [f, g];
  }
}
