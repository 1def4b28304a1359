/** The kernel's process table as the kernel keeps it: one array updated in place, the current slot and
    the scratch registers.  Each method is one step of the state machine in Scheduler. */
module ProcessTable {
  import opened Bytes
  import opened Inboxes
  import opened Scheduler

  class Kernel {
    const processes: array<Proc>
    var current: nat
    var scratch: Regs

    ghost function Abs(): State
      reads this, processes
    {
      State(processes[..], current, scratch)
    }

    /** schedInit: an empty table but for slot 0. */
    constructor (slots: nat, inboxSize: nat, stackTop: nat)
      requires slots > 0 && 0 < inboxSize < 256
      ensures fresh(processes) && processes.Length == slots
      ensures Good(Abs()) && current == 0 && scratch == processes[0].regs && (slots > 1 ==> Booted(Abs()))
      ensures forall p :: 0 < p < slots ==> processes[p] == EmptyProc(inboxSize)
    {
      var regs := Regs(0, 0, 0, 0, stackTop, stackTop, 0, 0, 0, 0x8, 0x10, 0x10, 0x10, 0x10, 0x10, 0x202);
      current := 0;
      scratch := regs;
      var table := new Proc[slots](i => if i
          == 0 then Proc(true, true, false, regs, 0, EmptyInbox(inboxSize)) else EmptyProc(inboxSize));
      processes := table;
      new;
      assert Ring(EmptyInbox(inboxSize)) && processes[0].inbox == EmptyInbox(inboxSize);
      assert SlotOk(EmptyProc(inboxSize));
      assert forall p :: 0 < p < slots ==> processes[p] == EmptyProc(inboxSize);
    }

    method FindInvalidProcess() returns (id: int)
      ensures id == match FirstInvalid(processes[..], 0) case Some(p) => p case None => -1
    {
      var i := 0;
      while i < processes.Length
        invariant 0 <= i <= processes.Length
        invariant FirstInvalid(processes[..], 0) == FirstInvalid(processes[..], i)
      {
        if !processes[i].valid {
          return i;
        }
        i := i + 1;
      }
      return -1;
    }

    method SuspendProcess(pid: nat) returns (refused: bool)
      requires Good(Abs()) && pid < processes.Length
      modifies processes
      ensures Abs() == old(Step(Abs(), Suspend(pid)))
      ensures refused == old(pid == 0 || !processes[pid].active)
    {
      hide Ring;
      if pid == 0 || !processes[pid].active || !processes[pid].valid {
        return true;
      }
      processes[pid] := processes[pid].(active := false);
      return false;
    }

    method ResumeProcess(pid: nat) returns (refused: bool)
      requires Good(Abs()) && pid < processes.Length
      modifies processes
      ensures Abs() == old(Step(Abs(), Resume(pid)))
      ensures refused == old(pid == 0 || processes[pid].active || !processes[pid].valid)
    {
      if pid == 0 || processes[pid].active || !processes[pid].valid {
        return true;
      }
      processes[pid] := processes[pid].(active := true);
      return false;
    }

    /** The bound test lets the number of slots itself through, which is shut out here. */
    method KillProcess(pid: nat) returns (refused: bool)
      requires Good(Abs()) && pid != processes.Length
      modifies processes
      ensures Abs() == old(Step(Abs(), Kill(pid))) && refused == (pid == 0 || pid > processes.Length)
    {
      if pid == 0 || pid > processes.Length {
        return true;
      }
      processes[pid] := processes[pid].(active := false, valid := false, delete := true);
      return false;
    }

    method CreateProcess(l: Launch) returns (pid: nat, valid: bool)
      requires Good(Abs())
      modifies processes
      ensures Abs() == old(Step(Abs(), Create(l)))
      ensures old(CreateSlot(Abs(), l)) == if valid then Some(pid) else None
      ensures valid <==> l.permitted && l.named && l.program != 0
                         && exists p :: 0 <= p < processes.Length && !old(processes[p].valid)
      ensures valid ==>
                && 0 < pid < processes.Length && !old(processes[pid].valid)
                && (forall p :: 0 <= p < pid ==> old(processes[p].valid))
                && (forall p :: 0 <= p < processes.Length && p != pid ==> processes[p] == old(processes[p]))
                && StartsAt(l, processes[pid].regs) && Runnable(processes[pid]) && processes[pid].parent == l.parent
                && processes[pid].inbox.count == 0
      ensures !valid ==> processes[..] == old(processes[..])
    {
      hide StartRegs, EmptyInbox, StartsAt, Ring;
      StartRegsStart(l);
      if !l.permitted {
        return 0, false;
      }
      var id := FindInvalidProcess();
      if l.named && l.program != 0 && id > 0 {
        InboxSize(id);
        processes[id] := Proc(true, true, false, StartRegs(l), l.parent, EmptyInbox(|processes[id].inbox.messages|));
        return id, true;
      }
      return 0, false;
    }

    lemma InboxSize(p: nat)
      requires Good(Abs()) && p < processes.Length
      ensures 0 < |processes[p].inbox.messages| < 256
    {
      assert SlotOk(Abs().procs[p]);
    }

    /** The housekeeping of slot 0: a deleted slot is cleared. */
    method DeleteTask(i: nat)
      requires Good(Abs()) && i < processes.Length
      modifies processes
      ensures Abs() == old(Step(Abs(), Reap(i)))
    {
      hide EmptyInbox;
      if processes[i].delete {
        InboxSize(i);
        processes[i] := EmptyProc(|processes[i].inbox.messages|);
      }
    }

    // ----- The tick

    method SaveContext()
      requires current < processes.Length
      modifies processes
      ensures processes[..] == old(processes[..])[current := old(processes[current]).(regs := Saved(scratch))]
    {
      processes[current] := processes[current].(regs := scratch.(flags := scratch.flags | INTERRUPTS));
    }

    /** The search for the next runnable slot has no bound of its own; slot 0 ends it within one round. */
    method NextContext()
      requires current < processes.Length && Runnable(processes[0])
      modifies `current
      ensures current == NextSlot(processes[..], old(current))
    {
      ghost var procs, n := processes[..], processes.Length;
      var next: nat := current;
      while true
        invariant next < n
        invariant NextSlot(procs, next) == NextSlot(procs, current)
        decreases Dist(next, 0, n)
      {
        next := Succ(next, processes.Length);
        if processes[next].valid && processes[next].active {
          current := next;
          return;
        }
      }
    }

    method LoadContext()
      requires current < processes.Length
      modifies `scratch
      ensures scratch == processes[current].regs
    {
      scratch := processes[current].regs;
    }

    /** The timer interrupt: the CPU's registers go to the scratch area, then save, choose and load. */
    method TimerTick(hw: Regs)
      requires Good(Abs())
      modifies this, processes
      ensures Abs() == old(Step(Abs(), Tick(hw)))
    {
      hide NextSlot, SlotOk;
      scratch := hw;
      SaveContext();
      NextContext();
      LoadContext();
    }

    /** schedFindNextTask looks for a slot that is also not deleted; in a well-formed table that is the
        slot NextContext picks, and there always is one. */
    method FindNextTask() returns (r: int)
      requires Good(Abs())
      ensures r == NextSlot(processes[..], current)
    {
      var n := processes.Length;
      ghost var procs := processes[..];
      var next := Succ(current, n);
      assert SlotOk(procs[next]);
      if processes[next].valid && processes[next].active && !processes[next].delete {
        return next;
      }
      while next != current
        invariant next < n && !Runnable(procs[next])
        invariant NextSlot(procs, next) == NextSlot(procs, current)
        decreases Dist(next, 0, n)
      {
        next := Succ(next, n);
        assert SlotOk(procs[next]);
        if processes[next].valid && processes[next].active && !processes[next].delete {
          return next;
        }
      }
      return -1;
    }

    // ----- Messages

    /** SEND: the answer says which check refused, and a refused message changes nothing. */
    method SendMessage(target: nat, data: seq<byte>) returns (r: int)
      requires Good(Abs())
      modifies processes
      ensures Abs() == old(Step(Abs(), Send(target, data)))
      ensures r == old(if target >= processes.Length || !processes[target].valid then -1
                       else if |data| > MAX_MSG_SIZE then -2
                       else if Full(processes[target].inbox) then -4
                       else 0)
    {
      if target >= processes.Length || !processes[target].valid {
        return -1;
      }
      if |data| > MAX_MSG_SIZE {
        return -2;
      }
      if Full(processes[target].inbox) {
        return -4;
      }
      processes[target] := processes[target].(inbox := Enqueue(processes[target].inbox,
          Message(current, target, data, false)));
      return 0;
    }

    /** FETCH: the oldest message's sender, and as much of it as the caller's buffer takes. */
    method FetchMessage(bufferSize: nat) returns (sender: int, data: seq<byte>)
      requires Good(Abs())
      modifies processes
      ensures Abs() == old(Step(Abs(), Fetch))
      ensures var m := old(Dequeue(processes[current].inbox).1);
              && (m.None? ==> sender == -1 && data == [])
              && (m.Some? ==> sender == m.value.sender
                              && data == m.value.data[..if |m.value.data| < bufferSize then |m.value.data|
                                 else bufferSize])
    {
      var (q, m) := Dequeue(processes[current].inbox);
      processes[current] := processes[current].(inbox := q);
      if m.None? {
        return -1, [];
      }
      var d := m.value.data;
      return m.value.sender, d[..if |d| < bufferSize then |d| else bufferSize];
    }

    /** UNREAD for the current process: is a message from this sender, or from any, in its queue? */
    method HasMessage(sender: Option<nat>) returns (r: bool)
      requires Good(Abs())
      ensures r <==> exists m :: m in Pending(processes[current].inbox)
                                 && (sender.None? || m.sender == sender.value)
    {
      r := Unread(processes[current].inbox, sender);
      assert Unmarked(processes[current].inbox);
    }
  }
}
