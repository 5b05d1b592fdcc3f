/** The thread calls of kernel_threads.c: the page-rounded size of a PTCB,
    thread ids, and sys_CreateThread, which appends a PTCB to the calling
    process.  Join, detach and thread exit are stubs in this kernel. */
module Threads {
  import opened Kernel
  import opened Processes
  import opened ProcessLemmas
  import opened ProcTable

  const SYSTEM_PAGE_SIZE: nat := 4096

  /** THREAD_PTCB_SIZE for a PTCB of n bytes: n rounded up to whole pages. */
  function ThreadPtcbSize(n: nat): (r: nat)
    ensures r % SYSTEM_PAGE_SIZE == 0
    ensures n <= r < n + SYSTEM_PAGE_SIZE
  {
    var pages := (n + SYSTEM_PAGE_SIZE - 1) / SYSTEM_PAGE_SIZE;
    assert pages * SYSTEM_PAGE_SIZE <= n + SYSTEM_PAGE_SIZE - 1 < (pages + 1) * SYSTEM_PAGE_SIZE;
    pages * SYSTEM_PAGE_SIZE
  }

  /** No smaller whole number of pages holds the PTCB. */
  lemma PtcbSizeIsLeast(n: nat, m: nat)
    requires m % SYSTEM_PAGE_SIZE == 0 && n <= m
    ensures ThreadPtcbSize(n) <= m
  {
    var r := ThreadPtcbSize(n);
    var k := r / SYSTEM_PAGE_SIZE;
    var j := m / SYSTEM_PAGE_SIZE;
    assert r == k * SYSTEM_PAGE_SIZE && m == j * SYSTEM_PAGE_SIZE;
  }

  /** get_tid: a thread's id is its control block; no block is NOTHREAD. */
  function GetTid(thread: Option<Tcb>): (r: Tid)
    ensures r == NOTHREAD <==> thread.None?
    ensures thread.Some? ==> r == thread.value
  {
    if thread.None? then NOTHREAD else thread.value
  }

  /** The PTCB sys_CreateThread sets up for a thread of process owner. */
  function NewPtcb(owner: Pid, task: Option<Task>, argl: int, args: Option<seq<Byte>>, thread: Tcb): (r: Ptcb)
    ensures r.tid == thread && r.tid != NOTHREAD && r.thread == thread && r.owner == owner
    ensures r.task == task && r.argl == argl && r.args == args
    ensures r.refCount == 0 && !r.isDetached && !r.isExited
  {
    Ptcb(GetTid(Some(thread)), owner, thread, task, argl, args, 0, false, false)
  }

  /** sys_CreateThread in process cur.  thread is the block spawn_thread
      returns.  The new PTCB goes to the back of cur's list; the caller gets
      its tid.  The thread counters are left as they are. */
  method CreateThread(pt: ProcessTable, cur: Pid, task: Option<Task>, argl: int, args: Option<seq<Byte>>,
                      thread: Tcb) returns (tid: Tid)
    requires pt.Valid() && IsPid(cur)
    modifies pt.slots
    ensures pt.Valid()
    ensures tid == thread && tid != NOTHREAD
    ensures pt.slots[..] == old(pt.slots[..])[cur := old(pt.slots[cur]).(ptcbs := old(pt.slots[cur].ptcbs) + [NewPtcb(cur, task, argl, args, thread)])]
    ensures pt.slots[cur].ptcbs[..|old(pt.slots[cur].ptcbs)|] == old(pt.slots[cur].ptcbs)
    ensures pt.slots[cur].ptcbCounter == old(pt.slots[cur].ptcbCounter)
    ensures pt.slots[cur].threadCount == old(pt.slots[cur].threadCount)
  {
    ghost var t := pt.Snapshot();
    var ptcb := Ptcb(0, cur, thread, task, argl, args, 0, false, false);
    pt.slots[cur] := pt.slots[cur].(ptcbs := pt.slots[cur].ptcbs + [ptcb]);
    tid := GetTid(Some(thread));
    var last := |pt.slots[cur].ptcbs| - 1;
    pt.slots[cur] := pt.slots[cur].(ptcbs := pt.slots[cur].ptcbs[last := ptcb.(tid := tid)]);
    assert pt.slots[cur].ptcbs == t.slots[cur].ptcbs + [NewPtcb(cur, task, argl, args, thread)];
    StructureKeepsInv(t, pt.freeList, pt.slots[..]);
    assert pt.Snapshot() == t.(slots := pt.slots[..]);
  }

  /** sys_ThreadJoin is a stub that always fails. */
  function ThreadJoin(tid: Tid): (r: int)
    ensures r == -1
  {
    -1
  }

  /** sys_ThreadDetach is a stub that always fails. */
  function ThreadDetach(tid: Tid): (r: int)
    ensures r == -1
  {
    -1
  }

  /** sys_ThreadExit is a stub that leaves the process table as it is. */
  function ThreadExit(t: Table, exitval: int): (r: Table)
    ensures r == t
  {
    t
  }
}
