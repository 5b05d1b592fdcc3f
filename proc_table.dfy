/** The process table as kernel_proc.c keeps it: the array PT, the head of
    the free list and the process count, updated in place.  Each system
    call is proved to leave the table exactly as the matching function of
    module Processes says, and to keep the table invariant. */
module ProcTable {
  import opened Kernel
  import opened Processes
  import opened ProcessLemmas

  /** initialize_PCB: resets everything but the parent link, the exit value
      and the main task and thread. */
  function InitializePcb(pcb: Pcb): (r: Pcb)
    ensures r.pstate == Free && r.argl == 0 && r.args == None && r.fidt == NullFidt
    ensures r.children == [] && r.exited == [] && r.ptcbs == [] && r.ptcbCounter == 0 && r.threadCount == 0
    ensures r.parent == pcb.parent && r.exitval == pcb.exitval
    ensures r.mainThread == pcb.mainThread && r.mainTask == pcb.mainTask
    ensures pcb.exitval == 0 && pcb.mainThread == None && pcb.mainTask == None ==> r == InitialPcb(pcb.parent)
  {
    pcb.(pstate := Free, argl := 0, args := None, fidt := NullFidt, children := [], exited := [],
         ptcbs := [], ptcbCounter := 0, threadCount := 0)
  }

  /** The loop of sys_Exec over the descriptor slots: slot i of the child's
      table takes the parent's FCB, whose count goes up by one. */
  method CopyFidt(from: Fidt, into: Fidt, refs: map<FcbId, int>) returns (fidt: Fidt, refs': map<FcbId, int>)
    requires |from| == MAX_FILEID && |into| == MAX_FILEID
    ensures fidt == from && refs' == AdjustRefs(refs, from, 1)
  {
    fidt := into;
    refs' := refs;
    var i := 0;
    while i < MAX_FILEID
      invariant 0 <= i <= MAX_FILEID && |fidt| == MAX_FILEID
      invariant forall k :: 0 <= k < i ==> fidt[k] == from[k]
      invariant refs' == AdjustRefs(refs, from[..i], 1)
    {
      var f := from[i];
      fidt := fidt[i := f];
      if f.Some? {
        refs' := refs'[f.value := RefOf(refs', f.value) + 1];
      }
      AdjustRefsSnoc(refs, from[..i], f, 1);
      assert from[..i + 1] == from[..i] + [f];
      i := i + 1;
    }
    assert from[..MAX_FILEID] == from;
  }

  /** The loop of sys_Exit over the descriptor slots: a non-NULL slot is
      cleared and its FCB's count goes down by one. */
  method ClearFidt(fs: Fidt, refs: map<FcbId, int>) returns (fidt: Fidt, refs': map<FcbId, int>)
    requires |fs| == MAX_FILEID
    ensures fidt == NullFidt && refs' == AdjustRefs(refs, fs, -1)
  {
    fidt := fs;
    refs' := refs;
    var i := 0;
    while i < MAX_FILEID
      invariant 0 <= i <= MAX_FILEID && |fidt| == MAX_FILEID
      invariant forall k :: 0 <= k < i ==> fidt[k] == None
      invariant forall k :: i <= k < MAX_FILEID ==> fidt[k] == fs[k]
      invariant refs' == AdjustRefs(refs, fs[..i], -1)
    {
      var f := fidt[i];
      if f.Some? {
        refs' := refs'[f.value := RefOf(refs', f.value) - 1];
        fidt := fidt[i := None];
      }
      AdjustRefsSnoc(refs, fs[..i], f, -1);
      assert fs[..i + 1] == fs[..i] + [f];
      i := i + 1;
    }
    AllNullIsNullFidt(fidt);
    assert fs[..MAX_FILEID] == fs;
  }

  class ProcessTable {
    /** PT[MAX_PROC]. */
    const slots: array<Pcb>
    /** pcb_freelist. */
    var freeHead: Pid
    var processCount: int
    /** The reference counts of the FCBs the descriptor tables point to. */
    var refs: map<FcbId, int>
    /** The free list, spelled out. */
    ghost var freeList: seq<Pid>

    ghost function Snapshot(): Table
      reads this, slots
    {
      Table(slots[..], freeHead, processCount, refs)
    }

    ghost predicate Valid()
      reads this, slots
    {
      slots.Length == MAX_PROC && TableInv(Snapshot(), freeList)
    }

    /** acquire_PCB. */
    method AcquirePcb() returns (pcb: Option<Pid>)
      requires slots.Length == MAX_PROC && Shaped(Snapshot())
      modifies this`freeHead, this`processCount, slots
      ensures (Snapshot(), pcb) == Acquire(old(Snapshot()))
    {
      pcb := None;
      if freeHead != NOPROC {
        var p := freeHead;
        slots[p] := slots[p].(pstate := Alive);
        freeHead := slots[p].parent;
        processCount := processCount + 1;
        pcb := Some(p);
      }
    }

    /** release_PCB. */
    method ReleasePcb(p: Pid)
      requires slots.Length == MAX_PROC && Shaped(Snapshot()) && IsPid(p)
      modifies this`freeHead, this`processCount, slots
      ensures Snapshot() == Release(old(Snapshot()), p)
    {
      slots[p] := slots[p].(pstate := Free, parent := freeHead);
      freeHead := p;
      processCount := processCount - 1;
    }

    /** The descriptor loop of sys_Exec: the child takes the parent's
        table and each FCB in it gains a reference. */
    method InheritFiles(p: Pid, cur: Pid)
      requires slots.Length == MAX_PROC && IsPid(p) && IsPid(cur) && p != cur
      requires |slots[p].fidt| == MAX_FILEID && |slots[cur].fidt| == MAX_FILEID
      modifies this`refs, slots
      ensures slots[..] == old(slots[..])[p := old(slots[p]).(fidt := old(slots[cur].fidt))]
      ensures refs == AdjustRefs(old(refs), old(slots[cur].fidt), 1)
    {
      var fidt, refs' := CopyFidt(slots[cur].fidt, slots[p].fidt, refs);
      refs := refs';
      slots[p] := slots[p].(fidt := fidt);
    }

    /** The descriptor loop of sys_Exit: every non-NULL slot is cleared and
        its FCB loses a reference. */
    method DropFiles(cur: Pid)
      requires slots.Length == MAX_PROC && IsPid(cur) && |slots[cur].fidt| == MAX_FILEID
      modifies this`refs, slots
      ensures slots[..] == old(slots[..])[cur := old(slots[cur]).(fidt := NullFidt)]
      ensures refs == AdjustRefs(old(refs), old(slots[cur].fidt), -1)
    {
      var fidt, refs' := ClearFidt(slots[cur].fidt, refs);
      refs := refs';
      slots[cur] := slots[cur].(fidt := fidt);
    }

    /** The reparenting loop of sys_Exit. */
    method ReparentChildren(cur: Pid)
      requires slots.Length == MAX_PROC && IsPid(cur) && (cur == 1 ==> slots[cur].children == [])
      requires forall c :: c in slots[cur].children ==> IsPid(c)
      modifies slots
      ensures slots[..] == Reparent(old(slots[..]), cur)
    {
      ghost var goal := Reparent(slots[..], cur);
      while slots[cur].children != []
        invariant forall c :: c in slots[cur].children ==> IsPid(c)
        invariant cur == 1 ==> slots[cur].children == []
        invariant Reparent(slots[..], cur) == goal
        decreases |slots[cur].children|
      {
        ghost var before := slots[..];
        var child := slots[cur].children[0];
        assert child in slots[cur].children;
        slots[cur] := slots[cur].(children := slots[cur].children[1..]);
        slots[child] := slots[child].(parent := 1);
        slots[1] := slots[1].(children := [child] + slots[1].children);
        assert slots[..] == ReparentStep(before, cur);
      }
    }

    /** The loop that frees the PTCB list once no thread is counted. */
    method FreeThreadBlocks(cur: Pid)
      requires slots.Length == MAX_PROC && IsPid(cur)
      modifies slots
      ensures slots[..] == old(slots[..])[cur := old(slots[cur]).(ptcbs := [])]
    {
      ghost var s0 := slots[..];
      while slots[cur].ptcbs != []
        invariant slots[..] == s0[cur := s0[cur].(ptcbs := slots[cur].ptcbs)]
        decreases |slots[cur].ptcbs|
      {
        slots[cur] := slots[cur].(ptcbs := slots[cur].ptcbs[1..]);
      }
    }

    /** cleanup_zombie. */
    method CleanupZombie(z: Pid, wantStatus: bool) returns (status: Option<int>)
      requires slots.Length == MAX_PROC && Shaped(Snapshot()) && IsPid(z)
      modifies this`freeHead, this`processCount, slots
      ensures (Snapshot(), status) == Cleanup(old(Snapshot()), z, wantStatus)
    {
      status := if wantStatus then Some(slots[z].exitval) else None;
      var par := slots[z].parent;
      ghost var t0 := Snapshot();
      if par != NOPROC {
        slots[par] := slots[par].(children := Without(slots[par].children, z));
        slots[par] := slots[par].(exited := Without(slots[par].exited, z));
      }
      assert Snapshot() == t0.(slots := if par == NOPROC then t0.slots else
        t0.slots[par := t0.slots[par].(children := Without(t0.slots[par].children, z),
                                       exited := Without(t0.slots[par].exited, z))]);
      ReleasePcb(z);
    }

    /** initialize_processes: reset every PCB of the zero-filled table,
        thread the free list 0, 1, ..., MAX_PROC - 1 through the parent
        fields, and create the idle process, which must get pid 0. */
    constructor (refs0: map<FcbId, int>, idleThread: Tcb)
      ensures Valid() && fresh(slots)
      ensures Snapshot() == Processes.Exec(InitialTable(refs0), NOPROC, None, 0, None, idleThread).0
      ensures slots[0].pstate == Alive && slots[0].parent == NOPROC && slots[0].mainThread == None
      ensures freeHead == 1 && processCount == 1
    {
      slots := new Pcb[MAX_PROC](_ => InitialPcb(NOPROC));
      freeHead := NOPROC;
      processCount := 0;
      refs := refs0;
      freeList := [];
      new;
      BuildTable();
      ghost var t0 := Snapshot();
      assert t0 == InitialTable(refs0);
      assert ExecCallable(t0, NOPROC, 0, None);
      var idle := Exec(NOPROC, None, 0, None, idleThread);
      FirstExecIsIdle(refs0, idleThread);
    }

    /** The two loops of initialize_processes, over a zero-filled table. */
    method BuildTable()
      requires slots.Length == MAX_PROC
      requires forall j :: 0 <= j < MAX_PROC ==> slots[j] == InitialPcb(NOPROC)
      modifies this`freeHead, this`processCount, this`freeList, slots
      ensures Valid() && Snapshot() == InitialTable(refs)
    {
      ResetPcbs();
      assert InitializePcb(InitialPcb(NOPROC)) == InitialPcb(NOPROC);
      BuildFreeList();
      processCount := 0;
      freeList := InitialFreeList();
      assert Snapshot() == InitialTable(refs);
      InitialTableInv(refs);
    }

    /** The first loop of initialize_processes: initialize_PCB on every slot. */
    method ResetPcbs()
      requires slots.Length == MAX_PROC
      modifies slots
      ensures forall j :: 0 <= j < MAX_PROC ==> slots[j] == InitializePcb(old(slots[j]))
    {
      for p := 0 to MAX_PROC
        invariant forall j :: 0 <= j < p ==> slots[j] == InitializePcb(old(slots[j]))
        invariant forall j :: p <= j < MAX_PROC ==> slots[j] == old(slots[j])
      {
        slots[p] := InitializePcb(slots[p]);
      }
    }

    /** The second loop of initialize_processes: from the last slot down,
        each slot's parent field points at the previous head of the free
        list, so the list runs 0, 1, ..., MAX_PROC - 1. */
    method BuildFreeList()
      requires slots.Length == MAX_PROC
      requires forall j :: 0 <= j < MAX_PROC ==> slots[j] == InitialPcb(NOPROC)
      modifies this`freeHead, slots
      ensures slots[..] == InitialSlots() && freeHead == 0
    {
      freeHead := NOPROC;
      var q := MAX_PROC;
      while q > 0
        invariant 0 <= q <= MAX_PROC
        invariant freeHead == if q < MAX_PROC then q else NOPROC
        invariant forall j :: 0 <= j < q ==> slots[j] == InitialPcb(NOPROC)
        invariant forall j :: q <= j < MAX_PROC ==> slots[j] == InitialPcb(if j + 1 < MAX_PROC then j + 1 else NOPROC)
      {
        q := q - 1;
        slots[q] := slots[q].(parent := freeHead);
        freeHead := q;
      }
      assert slots[..] == InitialSlots();
    }

    /** sys_Exec: the new pid, or NOPROC when the table is full. */
    method Exec(cur: Pid, call: Option<Task>, argl: int, args: Option<seq<Byte>>, thread: Tcb) returns (pid: Pid)
      requires Valid() && ExecCallable(Snapshot(), cur, argl, args)
      modifies this, slots
      ensures Valid()
      ensures (Snapshot(), pid) == Processes.Exec(old(Snapshot()), cur, call, argl, args, thread)
      ensures freeList == if old(freeList) == [] then [] else old(freeList)[1..]
    {
      ExecPreservesInv(Snapshot(), freeList, cur, call, argl, args, thread);
      pid := ExecSteps(cur, call, argl, args, thread);
      freeList := if freeList == [] then [] else freeList[1..];
    }

    /** The body of sys_Exec. */
    method ExecSteps(cur: Pid, call: Option<Task>, argl: int, args: Option<seq<Byte>>, thread: Tcb) returns (pid: Pid)
      requires slots.Length == MAX_PROC && ExecCallable(Snapshot(), cur, argl, args)
      modifies this`freeHead, this`processCount, this`refs, slots
      ensures (Snapshot(), pid) == Processes.Exec(old(Snapshot()), cur, call, argl, args, thread)
    {
      ghost var t0 := Snapshot();
      var newproc := AcquirePcb();
      if newproc.None? {
        return NOPROC;
      }
      var p := newproc.value;
      ghost var t1 := Snapshot();
      if p <= 1 {
        slots[p] := slots[p].(parent := NOPROC);
      } else {
        assert p != cur;
        LinkChild(p, cur);
      }
      SetMain(p, call, argl, args, thread);
      pid := GetPid(Some(p));
    }

    /** sys_Exec for a process other than the first two: the caller becomes
        the parent, lists the child first and shares its descriptors. */
    method LinkChild(p: Pid, cur: Pid)
      requires slots.Length == MAX_PROC && IsPid(p) && IsPid(cur) && p != cur
      requires |slots[p].fidt| == MAX_FILEID && |slots[cur].fidt| == MAX_FILEID
      modifies this`refs, slots
      ensures var s := old(slots[..])[p := old(slots[p]).(parent := cur, fidt := old(slots[cur].fidt))];
        && slots[..] == s[cur := s[cur].(children := [p] + s[cur].children)]
        && refs == AdjustRefs(old(refs), old(slots[cur].fidt), 1)
    {
      slots[p] := slots[p].(parent := cur);
      slots[cur] := slots[cur].(children := [p] + slots[cur].children);
      InheritFiles(p, cur);
    }

    /** sys_Exec records the task and its arguments, and starts the main
        thread when there is a task. */
    method SetMain(p: Pid, call: Option<Task>, argl: int, args: Option<seq<Byte>>, thread: Tcb)
      requires slots.Length == MAX_PROC && IsPid(p) && (args.Some? ==> 0 <= argl <= |args.value|)
      modifies slots
      ensures var me := old(slots[p]).(mainTask := call, argl := argl, args := CopyArgs(argl, args));
        slots[..] == old(slots[..])[p := if call.Some? then me.(ptcbCounter := me.ptcbCounter + 1, mainThread := Some(thread)) else me]
    {
      slots[p] := slots[p].(mainTask := call, argl := argl, args := CopyArgs(argl, args));
      if call.Some? {
        slots[p] := slots[p].(ptcbCounter := slots[p].ptcbCounter + 1);
        slots[p] := slots[p].(mainThread := Some(thread));
      }
    }

    /** wait_for_specific_child. */
    method WaitSpecific(cur: Pid, cpid: Pid, wantStatus: bool) returns (outcome: WaitOutcome)
      requires Valid() && IsPid(cur)
      modifies this`freeHead, this`processCount, this`freeList, slots
      ensures Valid()
      ensures (Snapshot(), outcome) == Processes.WaitSpecific(old(Snapshot()), cur, cpid, wantStatus)
      ensures freeList == if outcome.Reaped? then [outcome.pid] + old(freeList) else old(freeList)
    {
      ghost var r := Processes.WaitSpecific(Snapshot(), cur, cpid, wantStatus);
      ghost var fl := if r.1.Reaped? then [r.1.pid] + freeList else freeList;
      WaitSpecificPreservesInv(Snapshot(), freeList, cur, cpid, wantStatus);
      outcome := WaitSpecificSteps(cur, cpid, wantStatus);
      freeList := fl;
      assert Snapshot() == r.0 && TableInv(r.0, fl);
    }

    /** The body of wait_for_specific_child. */
    method WaitSpecificSteps(cur: Pid, cpid: Pid, wantStatus: bool) returns (outcome: WaitOutcome)
      requires slots.Length == MAX_PROC && Shaped(Snapshot()) && IsPid(cur)
      modifies this`freeHead, this`processCount, slots
      ensures (Snapshot(), outcome) == Processes.WaitSpecific(old(Snapshot()), cur, cpid, wantStatus)
    {
      if cpid < 0 || cpid >= MAX_PROC {
        return NoChild;
      }
      var child := GetPcb(slots[..], cpid);
      if child.None? || slots[cpid].parent != cur {
        return NoChild;
      }
      if slots[cpid].pstate == Alive {
        return WouldBlock;
      }
      var status := CleanupZombie(cpid, wantStatus);
      outcome := Reaped(cpid, status);
    }

    /** wait_for_any_child. */
    method WaitAny(cur: Pid, wantStatus: bool) returns (outcome: WaitOutcome)
      requires Valid() && IsPid(cur)
      modifies this`freeHead, this`processCount, this`freeList, slots
      ensures Valid()
      ensures (Snapshot(), outcome) == Processes.WaitAny(old(Snapshot()), cur, wantStatus)
      ensures freeList == if outcome.Reaped? then [outcome.pid] + old(freeList) else old(freeList)
    {
      ghost var r := Processes.WaitAny(Snapshot(), cur, wantStatus);
      ghost var fl := if r.1.Reaped? then [r.1.pid] + freeList else freeList;
      WaitAnyPreservesInv(Snapshot(), freeList, cur, wantStatus);
      outcome := WaitAnySteps(cur, wantStatus);
      freeList := fl;
      assert Snapshot() == r.0 && TableInv(r.0, fl);
    }

    /** The body of wait_for_any_child. */
    method WaitAnySteps(cur: Pid, wantStatus: bool) returns (outcome: WaitOutcome)
      requires slots.Length == MAX_PROC && Shaped(Snapshot()) && IsPid(cur)
      modifies this`freeHead, this`processCount, slots
      ensures (Snapshot(), outcome) == Processes.WaitAny(old(Snapshot()), cur, wantStatus)
    {
      if slots[cur].children == [] {
        return NoChild;
      }
      if slots[cur].exited == [] {
        return WouldBlock;
      }
      var child := slots[cur].exited[0];
      assert child in slots[cur].exited;
      var cpid := GetPid(Some(child));
      var status := CleanupZombie(child, wantStatus);
      outcome := Reaped(cpid, status);
    }

    /** sys_WaitChild. */
    method WaitChild(cur: Pid, cpid: Pid, wantStatus: bool) returns (outcome: WaitOutcome)
      requires Valid() && IsPid(cur)
      modifies this`freeHead, this`processCount, this`freeList, slots
      ensures Valid()
      ensures (Snapshot(), outcome) == Processes.WaitChild(old(Snapshot()), cur, cpid, wantStatus)
      ensures freeList == if outcome.Reaped? then [outcome.pid] + old(freeList) else old(freeList)
    {
      if cpid != NOPROC {
        outcome := WaitSpecific(cur, cpid, wantStatus);
      } else {
        outcome := WaitAny(cur, wantStatus);
      }
    }

    /** sys_Exit, once pid 1 has no children left. */
    method Exit(cur: Pid, exitval: int)
      requires Valid() && ExitCallable(Snapshot(), cur)
      modifies this`refs, slots
      ensures Valid()
      ensures Snapshot() == Processes.Exit(old(Snapshot()), cur, exitval)
    {
      ghost var r := Processes.Exit(Snapshot(), cur, exitval);
      ExitPreservesInv(Snapshot(), freeList, cur, exitval);
      ExitPreFromInv(Snapshot(), freeList, cur);
      ExitSteps(cur, exitval);
      assert Snapshot() == r && TableInv(r, freeList);
    }

    /** The body of sys_Exit after the pid-1 wait loop. */
    method ExitSteps(cur: Pid, exitval: int)
      requires slots.Length == MAX_PROC && IsPid(cur) && |slots[cur].fidt| == MAX_FILEID
      requires cur == 1 ==> slots[cur].children == []
      requires forall c :: c in slots[cur].children ==> IsPid(c)
      requires 1 !in slots[cur].children && cur !in slots[cur].children
      requires slots[cur].parent == NOPROC || IsPid(slots[cur].parent)
      modifies this`refs, slots
      ensures var me := old(slots[cur]);
        var s0 := old(slots[..])[cur := me.(args := None, fidt := NullFidt)];
        && slots[..] == BecomeZombie(JoinExited(HandOverExited(Reparent(s0, cur), cur), cur, me.parent), cur, exitval)
        && refs == AdjustRefs(old(refs), me.fidt, -1)
    {
      DetachChildren(cur);
      var par := slots[cur].parent;
      Bury(cur, par, exitval);
    }

    /** The first half of sys_Exit: resources released, children reparented. */
    method DetachChildren(cur: Pid)
      requires slots.Length == MAX_PROC && IsPid(cur) && |slots[cur].fidt| == MAX_FILEID
      requires cur == 1 ==> slots[cur].children == []
      requires forall c :: c in slots[cur].children ==> IsPid(c)
      requires 1 !in slots[cur].children && cur !in slots[cur].children
      modifies this`refs, slots
      ensures var me := old(slots[cur]);
        var s0 := old(slots[..])[cur := me.(args := None, fidt := NullFidt)];
        && slots[..] == Reparent(s0, cur)
        && slots[cur].parent == me.parent
        && refs == AdjustRefs(old(refs), me.fidt, -1)
    {
      ghost var me := slots[cur];
      ghost var s0 := slots[..][cur := me.(args := None, fidt := NullFidt)];
      ReleaseResources(cur);
      assert slots[..] == s0;
      ReparentChildren(cur);
      ReparentEmptiesCur(s0, cur);
    }

    /** The second half of sys_Exit: exited children handed over, the parent
        told, the process a zombie. */
    method Bury(cur: Pid, par: Pid, exitval: int)
      requires slots.Length == MAX_PROC && IsPid(cur) && (par == NOPROC || IsPid(par))
      modifies slots
      ensures slots[..] == BecomeZombie(JoinExited(HandOverExited(old(slots[..]), cur), cur, par), cur, exitval)
    {
      SpliceExited(cur);
      NotifyParent(cur, par);
      MarkZombie(cur, exitval);
    }

    /** The arguments and the descriptor table of a dying process are released. */
    method ReleaseResources(cur: Pid)
      requires slots.Length == MAX_PROC && IsPid(cur) && |slots[cur].fidt| == MAX_FILEID
      modifies this`refs, slots
      ensures slots[..] == old(slots[..])[cur := old(slots[cur]).(args := None, fidt := NullFidt)]
      ensures refs == AdjustRefs(old(refs), old(slots[cur].fidt), -1)
    {
      if slots[cur].args.Some? {
        slots[cur] := slots[cur].(args := None);
      }
      DropFiles(cur);
    }

    /** A dying process's exited children are handed over to the init process. */
    method SpliceExited(cur: Pid)
      requires slots.Length == MAX_PROC && IsPid(cur)
      modifies slots
      ensures slots[..] == HandOverExited(old(slots[..]), cur)
    {
      if slots[cur].exited != [] {
        slots[1] := slots[1].(exited := slots[1].exited + slots[cur].exited);
        slots[cur] := slots[cur].(exited := []);
      }
    }

    /** The dying process goes to the front of its parent's exited list. */
    method NotifyParent(cur: Pid, par: Pid)
      requires slots.Length == MAX_PROC && (par == NOPROC || IsPid(par))
      modifies slots
      ensures slots[..] == JoinExited(old(slots[..]), cur, par)
    {
      if par != NOPROC {
        slots[par] := slots[par].(exited := [cur] + slots[par].exited);
      }
    }

    /** The dying process becomes a zombie holding its exit value; its thread
        blocks go once the last of them is gone. */
    method MarkZombie(cur: Pid, exitval: int)
      requires slots.Length == MAX_PROC && IsPid(cur)
      modifies slots
      ensures slots[..] == BecomeZombie(old(slots[..]), cur, exitval)
    {
      slots[cur] := slots[cur].(mainThread := None);
      slots[cur] := slots[cur].(pstate := Zombie, exitval := exitval);
      slots[cur] := slots[cur].(ptcbCounter := slots[cur].ptcbCounter - 1);
      if slots[cur].ptcbCounter == 0 {
        FreeThreadBlocks(cur);
      }
      slots[cur] := slots[cur].(threadCount := slots[cur].threadCount - 1);
    }
  }
}
