/** The process table (kernel_proc.h, kernel_proc.c): a fixed array of
    process control blocks, a free list threaded through the parent field,
    per-process children and exited lists, and descriptor tables whose
    entries are reference counted.

    The intrusive lists become sequences of pids, pointers to PCBs become
    pids (NOPROC for NULL), and the reference counts of the file control
    blocks become one abstract map.  The first half specifies each operation
    as a function over a snapshot of the table and proves what the
    operations keep; the class ProcessTable implements them over the array
    and is proved against those functions. */
module Processes {
  import opened Kernel

  datatype PidState = Free | Alive | Zombie

  /** A descriptor table: MAX_FILEID slots, each NULL or an FCB. */
  type Fidt = seq<Option<FcbId>>

  /** A descriptor table with every slot NULL. */
  const NullFidt: Fidt := [None, None, None, None, None, None, None, None,
                           None, None, None, None, None, None, None, None]

  /** A table of MAX_FILEID slots that are all NULL is the null table. */
  lemma AllNullIsNullFidt(f: Fidt)
    requires |f| == MAX_FILEID && forall k :: 0 <= k < |f| ==> f[k] == None
    ensures f == NullFidt
  {
    assert forall k :: 0 <= k < |f| ==> f[k] == NullFidt[k];
  }

  /** A process thread control block (PTCB).  Its exit value is left
      uninitialised at creation and is not modelled. */
  datatype Ptcb = Ptcb(
    tid: Tid,
    owner: Pid,
    thread: Tcb,
    task: Option<Task>,
    argl: int,
    args: Option<seq<Byte>>,
    refCount: nat,
    isDetached: bool,
    isExited: bool)

  /** A process control block (PCB).  On a free slot, parent is the next
      slot of the free list. */
  datatype Pcb = Pcb(
    pstate: PidState,
    parent: Pid,
    exitval: int,
    mainThread: Option<Tcb>,
    mainTask: Option<Task>,
    argl: int,
    args: Option<seq<Byte>>,
    children: seq<Pid>,
    exited: seq<Pid>,
    ptcbs: seq<Ptcb>,
    ptcbCounter: int,
    fidt: Fidt,
    threadCount: int)

  /** A snapshot of the process table: PT, pcb_freelist, process_count and
      the reference counts of the FCBs the descriptor tables point to. */
  datatype Table = Table(slots: seq<Pcb>, freeHead: Pid, processCount: int, refs: map<FcbId, int>)

  /** What a wait returns: NOPROC, a wait on the child_exit condition, or
      the reaped child with the status written through a non-NULL pointer. */
  datatype WaitOutcome = NoChild | WouldBlock | Reaped(pid: Pid, status: Option<int>)

  predicate IsPid(p: int)
  {
    0 <= p < MAX_PROC
  }

  /** Every pointer in the table is NULL or points into PT, and every
      descriptor table has MAX_FILEID slots. */
  ghost predicate Shaped(t: Table)
  {
    && |t.slots| == MAX_PROC
    && (t.freeHead == NOPROC || IsPid(t.freeHead))
    && (forall p :: 0 <= p < |t.slots| ==> |t.slots[p].fidt| == MAX_FILEID)
    && (forall p :: 0 <= p < |t.slots| ==> t.slots[p].parent == NOPROC || IsPid(t.slots[p].parent))
    && (forall p, c {:trigger c in t.slots[p].children} :: 0 <= p < |t.slots| && c in t.slots[p].children ==> IsPid(c))
    && (forall p, c {:trigger c in t.slots[p].exited} :: 0 <= p < |t.slots| && c in t.slots[p].exited ==> IsPid(c))
  }

  /** The PCB initialize_PCB leaves, with the given free-list link. */
  function InitialPcb(next: Pid): Pcb
  {
    Pcb(Free, next, 0, None, None, 0, None, [], [], [], 0, NullFidt, 0)
  }

  // ---------------------------------------------------------------------
  // Sequences and reference counts

  /** The list with every occurrence of x unlinked. */
  function Without(xs: seq<Pid>, x: Pid): (r: seq<Pid>)
    ensures forall y :: y in r <==> y in xs && y != x
    ensures |r| <= |xs|
  {
    if xs == [] then []
    else if xs[0] == x then Without(xs[1..], x)
    else [xs[0]] + Without(xs[1..], x)
  }

  /** A list whose every entry is on an empty list is empty. */
  lemma ListedInEmpty(xs: seq<Pid>, ys: seq<Pid>)
    requires forall x :: x in xs ==> x in ys
    requires ys == []
    ensures xs == []
  {
    forall x
      ensures multiset(xs)[x] == 0
    {
      assert x !in ys;
    }
    assert multiset(xs) == multiset{};
    assert |xs| == |multiset(xs)|;
  }

  /** The list in reverse order. */
  function Reverse(xs: seq<Pid>): (r: seq<Pid>)
    ensures |r| == |xs|
    ensures forall x :: x in r <==> x in xs
    ensures forall i :: 0 <= i < |xs| ==> r[i] == xs[|xs| - 1 - i]
  {
    if xs == [] then [] else Reverse(xs[1..]) + [xs[0]]
  }

  function RefOf(m: map<FcbId, int>, f: FcbId): int
  {
    if f in m then m[f] else 0
  }

  /** How many descriptor slots point to f. */
  function Occurrences(fs: seq<Option<FcbId>>, f: FcbId): nat
  {
    if fs == [] then 0 else (if fs[0] == Some(f) then 1 else 0) + Occurrences(fs[1..], f)
  }

  /** FCB_incref (d = 1) or FCB_decref (d = -1) on one slot, if it is not NULL. */
  function Bump(m: map<FcbId, int>, x: Option<FcbId>, d: int): map<FcbId, int>
  {
    if x.Some? then m[x.value := RefOf(m, x.value) + d] else m
  }

  /** Bump on every slot of a descriptor table, in order. */
  function AdjustRefs(m: map<FcbId, int>, fs: seq<Option<FcbId>>, d: int): map<FcbId, int>
    decreases |fs|
  {
    if fs == [] then m else AdjustRefs(Bump(m, fs[0], d), fs[1..], d)
  }

  /** Adjusting one more slot at the end is one more Bump. */
  lemma {:induction false} AdjustRefsSnoc(m: map<FcbId, int>, fs: seq<Option<FcbId>>, x: Option<FcbId>, d: int)
    ensures AdjustRefs(m, fs + [x], d) == Bump(AdjustRefs(m, fs, d), x, d)
    decreases |fs|
  {
    if fs != [] {
      assert (fs + [x])[1..] == fs[1..] + [x];
      AdjustRefsSnoc(Bump(m, fs[0], d), fs[1..], x, d);
    } else {
      assert ([] + [x])[1..] == [];
    }
  }

  /** Each FCB's count moves by d once for each slot that points to it. */
  lemma {:induction false} AdjustRefsCounts(m: map<FcbId, int>, fs: seq<Option<FcbId>>, d: int, f: FcbId)
    ensures RefOf(AdjustRefs(m, fs, d), f) == RefOf(m, f) + d * Occurrences(fs, f)
    decreases |fs|
  {
    if fs != [] {
      var m' := Bump(m, fs[0], d);
      AdjustRefsCounts(m', fs[1..], d, f);
      assert RefOf(m', f) == RefOf(m, f) + (if fs[0] == Some(f) then d else 0);
      calc {
        d * Occurrences(fs, f);
        d * ((if fs[0] == Some(f) then 1 else 0) + Occurrences(fs[1..], f));
        (if fs[0] == Some(f) then d else 0) + d * Occurrences(fs[1..], f);
      }
    }
  }

  // ---------------------------------------------------------------------
  // Lookups

  /** get_pcb: NULL exactly for a free slot, else the slot itself. */
  function GetPcb(s: seq<Pcb>, pid: Pid): (r: Option<Pid>)
    requires |s| == MAX_PROC && IsPid(pid)
    ensures r.None? <==> s[pid].pstate == Free
    ensures r.Some? ==> r.value == pid
  {
    if s[pid].pstate == Free then None else Some(pid)
  }

  /** get_pid: NOPROC for NULL, else the index of the slot. */
  function GetPid(pcb: Option<Pid>): (r: Pid)
    requires pcb.Some? ==> IsPid(pcb.value)
    ensures r == NOPROC <==> pcb.None?
    ensures pcb.Some? ==> r == pcb.value
  {
    if pcb.None? then NOPROC else pcb.value
  }

  // ---------------------------------------------------------------------
  // The free list

  /** acquire_PCB: pops the head of the free list and marks it ALIVE, or
      returns NULL when the list is empty. */
  function Acquire(t: Table): (r: (Table, Option<Pid>))
    requires Shaped(t)
    ensures r.1.None? <==> t.freeHead == NOPROC
    ensures r.1.None? ==> r.0 == t
    ensures r.1.Some? ==>
      && |r.0.slots| == MAX_PROC
      && r.1.value == t.freeHead && r.0.slots[t.freeHead].pstate == Alive
      && r.0.freeHead == t.slots[t.freeHead].parent && r.0.processCount == t.processCount + 1
      && (forall q :: 0 <= q < |t.slots| && q != t.freeHead ==> r.0.slots[q] == t.slots[q])
      && r.0.refs == t.refs
  {
    if t.freeHead == NOPROC then (t, None)
    else
      var p := t.freeHead;
      (t.(slots := t.slots[p := t.slots[p].(pstate := Alive)],
          freeHead := t.slots[p].parent,
          processCount := t.processCount + 1), Some(p))
  }

  /** release_PCB: marks the slot FREE and pushes it at the head of the free list. */
  function Release(t: Table, p: Pid): (r: Table)
    requires Shaped(t) && IsPid(p)
    ensures Shaped(r) && r.freeHead == p && r.processCount == t.processCount - 1
  {
    t.(slots := t.slots[p := t.slots[p].(pstate := Free, parent := t.freeHead)],
       freeHead := p,
       processCount := t.processCount - 1)
  }

  /** Releasing what was just acquired restores the table exactly. */
  lemma AcquireReleaseRoundTrip(t: Table)
    requires Shaped(t) && t.freeHead != NOPROC && t.slots[t.freeHead].pstate == Free
    requires IsPid(t.slots[t.freeHead].parent) || t.slots[t.freeHead].parent == NOPROC
    ensures var (t', p) := Acquire(t); p == Some(t.freeHead) && Release(t', p.value) == t
  {
    var (t', p) := Acquire(t);
    assert t'.slots[t.freeHead := t.slots[t.freeHead]] == t.slots;
  }

  /** fl is the free list the links spell out from pcb_freelist: every
      slot on it is FREE, each links to the next, the last to NULL, none
      appears twice, and every FREE slot is on it. */
  ghost predicate FreeChain(t: Table, fl: seq<Pid>)
    requires |t.slots| == MAX_PROC
  {
    && (if fl == [] then t.freeHead == NOPROC else t.freeHead == fl[0])
    && (forall i :: 0 <= i < |fl| ==> IsPid(fl[i]) && t.slots[fl[i]].pstate == Free)
    && (forall i :: 0 <= i < |fl| - 1 ==> t.slots[fl[i]].parent == fl[i + 1])
    && (fl != [] ==> t.slots[fl[|fl| - 1]].parent == NOPROC)
    && (forall i, j :: 0 <= i < j < |fl| ==> fl[i] != fl[j])
    && (forall p :: 0 <= p < |t.slots| && t.slots[p].pstate == Free ==> p in fl)
  }

  // ---------------------------------------------------------------------
  // The family invariant

  /** The parent and children links agree: every child listed by p names p
      as its parent and is in use; the exited children of p are exactly its
      zombie children; every process with a parent is listed by it; the two
      bootstrap processes have no parent; and only a live process has
      children, exited children or open descriptors. */
  ghost predicate Family(s: seq<Pcb>)
    requires |s| == MAX_PROC
  {
    && ChildLinks(s) && ExitedLinks(s) && ZombiesListed(s)
    && ParentLinks(s) && RootsOrphaned(s) && OnlyLiveOwn(s)
  }

  ghost predicate ChildLinks(s: seq<Pcb>)
    requires |s| == MAX_PROC
  {
    forall p, c {:trigger c in s[p].children} :: 0 <= p < |s| && c in s[p].children ==>
      IsPid(c) && s[c].pstate != Free && s[c].parent == p
  }

  ghost predicate ExitedLinks(s: seq<Pcb>)
    requires |s| == MAX_PROC
  {
    forall p, c {:trigger c in s[p].exited} :: 0 <= p < |s| && c in s[p].exited ==>
      c in s[p].children && IsPid(c) && s[c].pstate == Zombie
  }

  ghost predicate ZombiesListed(s: seq<Pcb>)
    requires |s| == MAX_PROC
  {
    forall p, c {:trigger c in s[p].children} :: 0 <= p < |s| && c in s[p].children && 0 <= c < |s| && s[c].pstate == Zombie ==>
      c in s[p].exited
  }

  ghost predicate ParentLinks(s: seq<Pcb>)
    requires |s| == MAX_PROC
  {
    forall c :: 0 <= c < |s| && s[c].pstate != Free && s[c].parent != NOPROC ==>
      IsPid(s[c].parent) && s[c].parent != c && s[s[c].parent].pstate != Free &&
      c in s[s[c].parent].children
  }

  ghost predicate RootsOrphaned(s: seq<Pcb>)
    requires |s| == MAX_PROC
  {
    forall p :: 0 <= p < |s| && s[p].pstate != Free && p <= 1 ==> s[p].parent == NOPROC
  }

  ghost predicate OnlyLiveOwn(s: seq<Pcb>)
    requires |s| == MAX_PROC
  {
    forall p :: 0 <= p < |s| && s[p].pstate != Alive ==>
      s[p].children == [] && s[p].exited == [] && s[p].fidt == NullFidt
  }

  /** The invariant of the process table, given the free list as a sequence. */
  ghost predicate TableInv(t: Table, fl: seq<Pid>)
  {
    && Shaped(t)
    && FreeChain(t, fl)
    && t.processCount == MAX_PROC - |fl|
    && Family(t.slots)
  }

  // ---------------------------------------------------------------------
  // Start-up

  /** The slots initialize_processes leaves: every slot FREE and linked to
      the next one, the last to NULL. */
  function InitialSlots(): (r: seq<Pcb>)
    ensures |r| == MAX_PROC
    ensures forall p :: 0 <= p < |r| ==> r[p].pstate == Free && r[p].children == [] && r[p].exited == []
    ensures forall p :: 0 <= p < |r| ==> r[p].parent == (if p + 1 < MAX_PROC then p + 1 else NOPROC)
    ensures forall p :: 0 <= p < |r| ==> r[p].fidt == NullFidt && r[p].mainThread == None
  {
    var r := seq(MAX_PROC, p => InitialPcb(if p + 1 < MAX_PROC then p + 1 else NOPROC));
    assert forall p :: 0 <= p < |r| ==> r[p] == InitialPcb(if p + 1 < MAX_PROC then p + 1 else NOPROC);
    r
  }

  /** The table before the idle process is created; refs is the FCB
      reference state, which initialize_processes does not touch. */
  function InitialTable(refs: map<FcbId, int>): (r: Table)
    ensures Shaped(r) && r.freeHead == 0
  {
    assert |NullFidt| == MAX_FILEID;
    Table(InitialSlots(), 0, 0, refs)
  }

  /** The free list that start-up builds: 0, 1, ..., MAX_PROC - 1. */
  function InitialFreeList(): seq<Pid>
  {
    seq(MAX_PROC, p => p)
  }

  // ---------------------------------------------------------------------
  // Process creation

  /** The argument buffer sys_Exec stores: a private copy of the first argl
      bytes, or NULL when the caller passes NULL. */
  function CopyArgs(argl: int, args: Option<seq<Byte>>): Option<seq<Byte>>
    requires args.Some? ==> 0 <= argl <= |args.value|
  {
    if args.Some? then Some(args.value[..argl]) else None
  }

  /** What sys_Exec needs of its caller: a running current process whenever
      the pid to be handed out is not one of the two bootstrap pids, and an
      argument buffer holding argl bytes (the head of the free list being
      free is part of the table invariant). */
  ghost predicate ExecCallable(t: Table, cur: Pid, argl: int, args: Option<seq<Byte>>)
  {
    && Shaped(t)
    && (t.freeHead != NOPROC ==> t.slots[t.freeHead].pstate == Free)
    && (t.freeHead > 1 ==> IsPid(cur) && t.slots[cur].pstate == Alive)
    && (args.Some? ==> 0 <= argl <= |args.value|)
  }

  /** sys_Exec.  thread is the handle spawn_thread returns for the main
      thread; it is only used when call is not NULL. */
  function Exec(t: Table, cur: Pid, call: Option<Task>, argl: int, args: Option<seq<Byte>>, thread: Tcb): (r: (Table, Pid))
    requires ExecCallable(t, cur, argl, args)
    ensures Shaped(r.0)
    ensures r.1 == NOPROC <==> t.freeHead == NOPROC
    ensures r.1 == NOPROC ==> r.0 == t
    ensures r.1 != NOPROC ==>
      && r.1 == t.freeHead && r.0.slots[r.1].pstate == Alive && r.0.slots[r.1].mainTask == call
      && r.0.freeHead == t.slots[r.1].parent && r.0.processCount == t.processCount + 1
  {
    var (t1, pcb) := Acquire(t);
    if pcb.None? then (t, NOPROC)
    else
      var p := pcb.value;
      var t2 :=
        if p <= 1 then t1.(slots := t1.slots[p := t1.slots[p].(parent := NOPROC)])
        else
          var s := t1.slots[p := t1.slots[p].(parent := cur, fidt := t1.slots[cur].fidt)];
          t1.(slots := s[cur := s[cur].(children := [p] + s[cur].children)],
              refs := AdjustRefs(t1.refs, t1.slots[cur].fidt, 1));
      var me := t2.slots[p].(mainTask := call, argl := argl, args := CopyArgs(argl, args));
      var me' := if call.Some? then me.(ptcbCounter := me.ptcbCounter + 1, mainThread := Some(thread)) else me;
      (t2.(slots := t2.slots[p := me']), p)
  }

  // ---------------------------------------------------------------------
  // Waiting

  /** cleanup_zombie: hands back the exit value when a status pointer is
      given, unlinks the zombie from its parent's two lists and frees its slot. */
  function Cleanup(t: Table, z: Pid, wantStatus: bool): (r: (Table, Option<int>))
    requires Shaped(t) && IsPid(z)
    ensures Shaped(r.0) && r.0.slots[z].pstate == Free && r.0.freeHead == z
    ensures r.0.processCount == t.processCount - 1
    ensures r.1 == (if wantStatus then Some(t.slots[z].exitval) else None)
    ensures var par := t.slots[z].parent;
      par != NOPROC && par != z ==> z !in r.0.slots[par].children && z !in r.0.slots[par].exited
    ensures var par := t.slots[z].parent;
      par != NOPROC && par != z ==>
        r.0.slots[par] == t.slots[par].(children := Without(t.slots[par].children, z),
                                        exited := Without(t.slots[par].exited, z))
    ensures t.slots[z].parent != z ==> r.0.slots[z] == t.slots[z].(pstate := Free, parent := t.freeHead)
    ensures forall q :: 0 <= q < |t.slots| && q != z && q != t.slots[z].parent ==> r.0.slots[q] == t.slots[q]
    ensures r.0.refs == t.refs
  {
    var status := if wantStatus then Some(t.slots[z].exitval) else None;
    var par := t.slots[z].parent;
    var s :=
      if par == NOPROC then t.slots
      else t.slots[par := t.slots[par].(children := Without(t.slots[par].children, z),
                                        exited := Without(t.slots[par].exited, z))];
    (Release(t.(slots := s), z), status)
  }

  /** wait_for_specific_child. */
  function WaitSpecific(t: Table, cur: Pid, cpid: Pid, wantStatus: bool): (r: (Table, WaitOutcome))
    requires Shaped(t) && IsPid(cur)
    ensures Shaped(r.0)
    ensures r.1.NoChild? <==>
      !IsPid(cpid) || t.slots[cpid].pstate == Free || t.slots[cpid].parent != cur
    ensures r.1.WouldBlock? <==>
      IsPid(cpid) && t.slots[cpid].pstate == Alive && t.slots[cpid].parent == cur
    ensures r.1.NoChild? || r.1.WouldBlock? ==> r.0 == t
    ensures r.1.Reaped? ==>
      r.1.pid == cpid && t.slots[cpid].pstate == Zombie &&
      r.1.status == (if wantStatus then Some(t.slots[cpid].exitval) else None) &&
      r.0.slots[cpid].pstate == Free && r.0.freeHead == cpid &&
      r.0.processCount == t.processCount - 1 &&
      cpid !in r.0.slots[cur].children && cpid !in r.0.slots[cur].exited
    ensures r.1.Reaped? ==>
      && r.0.refs == t.refs
      && (forall q :: 0 <= q < |t.slots| && q != cur && q != cpid ==> r.0.slots[q] == t.slots[q])
      && (cpid != cur ==>
            && r.0.slots[cur] == t.slots[cur].(children := Without(t.slots[cur].children, cpid),
                                               exited := Without(t.slots[cur].exited, cpid))
            && r.0.slots[cpid] == t.slots[cpid].(pstate := Free, parent := t.freeHead))
  {
    if !IsPid(cpid) then (t, NoChild)
    else if GetPcb(t.slots, cpid).None? || t.slots[cpid].parent != cur then (t, NoChild)
    else if t.slots[cpid].pstate == Alive then (t, WouldBlock)
    else
      var (t', status) := Cleanup(t, cpid, wantStatus);
      (t', Reaped(cpid, status))
  }

  /** wait_for_any_child. */
  function WaitAny(t: Table, cur: Pid, wantStatus: bool): (r: (Table, WaitOutcome))
    requires Shaped(t) && IsPid(cur)
    ensures Shaped(r.0)
    ensures r.1.NoChild? <==> t.slots[cur].children == []
    ensures r.1.WouldBlock? <==> t.slots[cur].children != [] && t.slots[cur].exited == []
    ensures r.1.NoChild? || r.1.WouldBlock? ==> r.0 == t
    ensures r.1.Reaped? ==>
      t.slots[cur].exited != [] && r.1.pid == t.slots[cur].exited[0] && IsPid(r.1.pid) &&
      r.1.status == (if wantStatus then Some(t.slots[r.1.pid].exitval) else None) &&
      r.0.slots[r.1.pid].pstate == Free && r.0.freeHead == r.1.pid &&
      r.0.processCount == t.processCount - 1
    ensures r.1.Reaped? ==> var c := r.1.pid; var par := t.slots[c].parent;
      && r.0.refs == t.refs
      && (forall q :: 0 <= q < |t.slots| && q != c && q != par ==> r.0.slots[q] == t.slots[q])
      && (par == cur && c != cur ==>
            && c !in r.0.slots[cur].children && c !in r.0.slots[cur].exited
            && r.0.slots[cur] == t.slots[cur].(children := Without(t.slots[cur].children, c),
                                               exited := Without(t.slots[cur].exited, c))
            && r.0.slots[c] == t.slots[c].(pstate := Free, parent := t.freeHead))
  {
    if t.slots[cur].children == [] then (t, NoChild)
    else if t.slots[cur].exited == [] then (t, WouldBlock)
    else
      var c := t.slots[cur].exited[0];
      assert c in t.slots[cur].exited;
      var (t', status) := Cleanup(t, c, wantStatus);
      (t', Reaped(GetPid(Some(c)), status))
  }

  /** sys_WaitChild: a specific child unless cpid is NOPROC. */
  function WaitChild(t: Table, cur: Pid, cpid: Pid, wantStatus: bool): (r: (Table, WaitOutcome))
    requires Shaped(t) && IsPid(cur)
    ensures Shaped(r.0)
    ensures r.1.NoChild? <==>
      if cpid == NOPROC then t.slots[cur].children == []
      else !IsPid(cpid) || t.slots[cpid].pstate == Free || t.slots[cpid].parent != cur
    ensures r.1.WouldBlock? <==>
      if cpid == NOPROC then t.slots[cur].children != [] && t.slots[cur].exited == []
      else IsPid(cpid) && t.slots[cpid].pstate == Alive && t.slots[cpid].parent == cur
    ensures r.1.NoChild? || r.1.WouldBlock? ==> r.0 == t
    ensures r.1.Reaped? && cpid != NOPROC ==> r.1.pid == cpid
  {
    if cpid != NOPROC then WaitSpecific(t, cur, cpid, wantStatus) else WaitAny(t, cur, wantStatus)
  }

  // ---------------------------------------------------------------------
  // Exit

  /** The reparenting loop of sys_Exit: pop the head of cur's children,
      make init its parent, push it at the front of init's children. */
  function Reparent(s: seq<Pcb>, cur: Pid): (r: seq<Pcb>)
    requires |s| == MAX_PROC && IsPid(cur) && (cur == 1 ==> s[cur].children == [])
    requires forall c :: c in s[cur].children ==> IsPid(c)
    ensures |r| == MAX_PROC
    ensures r[cur].children == []
    decreases |s[cur].children|
  {
    if s[cur].children == [] then s
    else
      var s' := ReparentStep(s, cur);
      assert forall x :: x in s[cur].children[1..] ==> x in s[cur].children;
      Reparent(s', cur)
  }

  /** One turn of the reparenting loop: pop the head of cur's children,
      make init its parent, push it at the front of init's children. */
  function ReparentStep(s: seq<Pcb>, cur: Pid): (r: seq<Pcb>)
    requires |s| == MAX_PROC && IsPid(cur) && cur != 1 && s[cur].children != []
    requires forall c :: c in s[cur].children ==> IsPid(c)
    ensures |r| == MAX_PROC
    ensures r[cur].children == s[cur].children[1..]
  {
    var c := s[cur].children[0];
    assert c in s[cur].children;
    assert IsPid(c);
    var s1 := s[cur := s[cur].(children := s[cur].children[1..])];
    var s2 := s1[c := s1[c].(parent := 1)];
    s2[1 := s2[1].(children := [c] + s2[1].children)]
  }

  /** sys_Exit from the point where the pid-1 wait loop is over: drop every
      descriptor, hand the children and the exited children to init, join
      the parent's exited list at the front, become a zombie holding the
      exit value, and free the thread blocks once no thread is counted. */
  function Exit(t: Table, cur: Pid, exitval: int): (r: Table)
    requires Shaped(t) && IsPid(cur) && (cur == 1 ==> t.slots[cur].children == [])
    ensures |r.slots| == MAX_PROC
    ensures r.slots[cur].pstate == Zombie && r.slots[cur].exitval == exitval && r.slots[cur].mainThread == None
    ensures r.freeHead == t.freeHead && r.processCount == t.processCount
    ensures forall f :: RefOf(r.refs, f) == RefOf(t.refs, f) - Occurrences(t.slots[cur].fidt, f)
  {
    forall f
      ensures RefOf(AdjustRefs(t.refs, t.slots[cur].fidt, -1), f) == RefOf(t.refs, f) - Occurrences(t.slots[cur].fidt, f)
    {
      AdjustRefsCounts(t.refs, t.slots[cur].fidt, -1, f);
    }
    t.(slots := ExitSlotsOf(t.slots, cur, exitval), refs := AdjustRefs(t.refs, t.slots[cur].fidt, -1))
  }

  /** The slots sys_Exit leaves, stage by stage: arguments and descriptors
      released, children reparented, exited children handed over, the
      parent told, the process a zombie. */
  function ExitSlotsOf(s: seq<Pcb>, cur: Pid, exitval: int): seq<Pcb>
    requires |s| == MAX_PROC && IsPid(cur) && (cur == 1 ==> s[cur].children == [])
    requires forall c :: c in s[cur].children ==> IsPid(c)
    requires s[cur].parent == NOPROC || IsPid(s[cur].parent)
  {
    var me := s[cur];
    var s0 := s[cur := me.(args := None, fidt := NullFidt)];
    var s1 := Reparent(s0, cur);
    var s2 := HandOverExited(s1, cur);
    var s3 := JoinExited(s2, cur, me.parent);
    BecomeZombie(s3, cur, exitval)
  }

  /** The exited children of cur move to the back of init's exited list. */
  function HandOverExited(s: seq<Pcb>, cur: Pid): seq<Pcb>
    requires |s| == MAX_PROC && IsPid(cur)
  {
    if s[cur].exited == [] then s
    else
      var s' := s[1 := s[1].(exited := s[1].exited + s[cur].exited)];
      s'[cur := s'[cur].(exited := [])]
  }

  /** cur goes to the front of its parent's exited list, if it has a parent. */
  function JoinExited(s: seq<Pcb>, cur: Pid, par: Pid): seq<Pcb>
    requires |s| == MAX_PROC && (par == NOPROC || IsPid(par))
  {
    if par == NOPROC then s
    else s[par := s[par].(exited := [cur] + s[par].exited)]
  }

  /** cur becomes a zombie holding its exit value; its thread blocks go once
      no thread is counted. */
  function BecomeZombie(s: seq<Pcb>, cur: Pid, exitval: int): seq<Pcb>
    requires |s| == MAX_PROC && IsPid(cur)
  {
    var m := s[cur];
    s[cur := m.(mainThread := None, pstate := Zombie, exitval := exitval,
                ptcbCounter := m.ptcbCounter - 1,
                ptcbs := if m.ptcbCounter - 1 == 0 then [] else m.ptcbs,
                threadCount := m.threadCount - 1)]
  }
}

module ProcessLemmas {
  import opened Kernel
  import opened Processes

  /** The slots after zombie z is unlinked from its parent's lists and its
      slot is marked free with free-list link h. */
  ghost predicate ReapShape(s: seq<Pcb>, s': seq<Pcb>, z: Pid, h: Pid)
  {
    && |s| == MAX_PROC && |s'| == MAX_PROC && IsPid(z)
    && s[z].pstate == Zombie && IsPid(s[z].parent)
    && var par := s[z].parent;
    && (forall j :: IsPid(j) && j != par && j != z ==> s'[j] == s[j])
    && s'[par] == s[par].(children := Without(s[par].children, z), exited := Without(s[par].exited, z))
    && s'[z] == s[z].(pstate := Free, parent := h)
  }

  lemma ReapKeepsChildLinks(s: seq<Pcb>, s': seq<Pcb>, z: Pid, h: Pid)
    requires ReapShape(s, s', z, h) && ChildLinks(s)
    ensures ChildLinks(s')
  {
    forall p, c | 0 <= p < |s'| && c in s'[p].children
      ensures IsPid(c) && s'[c].pstate != Free && s'[c].parent == p
    {
      assert c in s[p].children && c != z;
    }
  }

  lemma ReapKeepsExitedLinks(s: seq<Pcb>, s': seq<Pcb>, z: Pid, h: Pid)
    requires ReapShape(s, s', z, h) && ExitedLinks(s) && ChildLinks(s)
    ensures ExitedLinks(s')
  {
    forall p, c | 0 <= p < |s'| && c in s'[p].exited
      ensures c in s'[p].children && IsPid(c) && s'[c].pstate == Zombie
    {
      assert c in s[p].exited && c != z;
      assert c in s[p].children;
    }
  }

  lemma ReapKeepsZombiesListed(s: seq<Pcb>, s': seq<Pcb>, z: Pid, h: Pid)
    requires ReapShape(s, s', z, h) && ZombiesListed(s)
    ensures ZombiesListed(s')
  {
    forall p, c | 0 <= p < |s'| && c in s'[p].children && 0 <= c < |s'| && s'[c].pstate == Zombie
      ensures c in s'[p].exited
    {
      assert c in s[p].children && c != z;
    }
  }

  lemma ReapKeepsParentLinks(s: seq<Pcb>, s': seq<Pcb>, z: Pid, h: Pid)
    requires ReapShape(s, s', z, h) && Family(s)
    ensures ParentLinks(s')
  {
    forall c | 0 <= c < |s'| && s'[c].pstate != Free && s'[c].parent != NOPROC
      ensures IsPid(s'[c].parent) && s'[c].parent != c && s'[s'[c].parent].pstate != Free
      ensures c in s'[s'[c].parent].children
    {
      assert c != z && s'[c].parent == s[c].parent && s'[c].pstate == s[c].pstate;
      var q := s[c].parent;
      assert c in s[q].children;
      assert q != z;
    }
  }

  /** Unlinking zombie z from its parent's lists and marking its slot free
      keeps the family links consistent. */
  lemma FamilyAfterReap(s: seq<Pcb>, s': seq<Pcb>, z: Pid, h: Pid)
    requires |s| == MAX_PROC && |s'| == MAX_PROC && Family(s)
    requires IsPid(z) && s[z].pstate == Zombie && s[z].parent != NOPROC
    requires var par := s[z].parent;
      && (forall j :: IsPid(j) && j != par && j != z ==> s'[j] == s[j])
      && s'[par] == s[par].(children := Without(s[par].children, z), exited := Without(s[par].exited, z))
      && s'[z] == s[z].(pstate := Free, parent := h)
    ensures Family(s')
  {
    var par := s[z].parent;
    assert par != z && IsPid(par) && s[par].pstate == Alive;
    assert ReapShape(s, s', z, h);
    ReapKeepsChildLinks(s, s', z, h);
    ReapKeepsExitedLinks(s, s', z, h);
    ReapKeepsZombiesListed(s, s', z, h);
    ReapKeepsParentLinks(s, s', z, h);
    forall p | 0 <= p < |s'| && s'[p].pstate != Free && p <= 1
      ensures s'[p].parent == NOPROC
    {
      assert p != z;
    }
    forall p | 0 <= p < |s'| && s'[p].pstate != Alive
      ensures s'[p].children == [] && s'[p].exited == [] && s'[p].fidt == NullFidt
    {
      assert p != par;
    }
  }

  /** Pushing slot z, which was not free, on the free list fl. */
  lemma FreeChainAfterRelease(t: Table, t': Table, fl: seq<Pid>, z: Pid)
    requires |t.slots| == MAX_PROC && |t'.slots| == MAX_PROC && FreeChain(t, fl)
    requires IsPid(z) && t.slots[z].pstate != Free
    requires t'.freeHead == z && t'.slots[z].pstate == Free && t'.slots[z].parent == t.freeHead
    requires forall j :: IsPid(j) && j != z ==>
      t'.slots[j].pstate == t.slots[j].pstate && t'.slots[j].parent == t.slots[j].parent
    ensures FreeChain(t', [z] + fl)
  {
    var fl' := [z] + fl;
    assert z !in fl;
    forall i | 0 <= i < |fl'|
      ensures IsPid(fl'[i]) && t'.slots[fl'[i]].pstate == Free
    {
      if i > 0 {
        assert fl'[i] == fl[i - 1];
      }
    }
    forall i | 0 <= i < |fl'| - 1
      ensures t'.slots[fl'[i]].parent == fl'[i + 1]
    {
      if i > 0 {
        assert fl'[i] == fl[i - 1] && fl[i - 1] != z;
        assert t.slots[fl[i - 1]].parent == fl[i];
      }
    }
    if fl != [] {
      assert fl'[|fl'| - 1] == fl[|fl| - 1];
    }
    forall p | IsPid(p) && t'.slots[p].pstate == Free
      ensures p in fl'
    {
      if p != z {
        assert t.slots[p].pstate == Free;
      }
    }
  }

  /** Reaping a zombie child keeps the table invariant; its slot becomes the
      new head of the free list. */
  lemma CleanupPreservesInv(t: Table, fl: seq<Pid>, z: Pid, wantStatus: bool)
    requires TableInv(t, fl) && IsPid(z) && t.slots[z].pstate == Zombie && t.slots[z].parent != NOPROC
    ensures TableInv(Cleanup(t, z, wantStatus).0, [z] + fl)
  {
    var s := t.slots;
    var par := s[z].parent;
    var t' := Cleanup(t, z, wantStatus).0;
    assert par != z;
    FamilyAfterReap(s, t'.slots, z, t.freeHead);
    FreeChainAfterRelease(t, t', fl, z);
  }

  /** Taking free slot p into use as a child of cur (or, for the two
      bootstrap pids, as a process without a parent) keeps the family links
      consistent. */
  lemma FamilyAfterExec(s: seq<Pcb>, s': seq<Pcb>, p: Pid, cur: Pid)
    requires |s| == MAX_PROC && |s'| == MAX_PROC && Family(s)
    requires IsPid(p) && s[p].pstate == Free
    requires s'[p].pstate == Alive && s'[p].children == s[p].children && s'[p].exited == s[p].exited
    requires p <= 1 ==> s'[p].parent == NOPROC && forall j :: 0 <= j < |s| && j != p ==> s'[j] == s[j]
    requires p > 1 ==>
      && IsPid(cur) && s[cur].pstate == Alive && s'[p].parent == cur
      && s'[cur] == s[cur].(children := [p] + s[cur].children)
      && forall j :: 0 <= j < |s| && j != p && j != cur ==> s'[j] == s[j]
    ensures Family(s')
  {
    assert p > 1 ==> cur != p;
    ExecKeepsChildLinks(s, s', p, cur);
    ExecKeepsExitedLinks(s, s', p, cur);
    ExecKeepsZombiesListed(s, s', p, cur);
    ExecKeepsParentLinks(s, s', p, cur);
    forall q | 0 <= q < |s'| && s'[q].pstate != Alive
      ensures s'[q].children == [] && s'[q].exited == [] && s'[q].fidt == NullFidt
    {
      assert q != p;
      if p > 1 {
        assert q != cur;
      }
    }
  }

  lemma ExecKeepsChildLinks(s: seq<Pcb>, s': seq<Pcb>, p: Pid, cur: Pid)
    requires |s| == MAX_PROC && |s'| == MAX_PROC && ChildLinks(s)
    requires IsPid(p) && s[p].pstate == Free
    requires s'[p].pstate == Alive && s'[p].children == s[p].children
    requires p <= 1 ==> s'[p].parent == NOPROC && forall j :: 0 <= j < |s| && j != p ==> s'[j] == s[j]
    requires p > 1 ==>
      && IsPid(cur) && cur != p && s'[p].parent == cur
      && s'[cur] == s[cur].(children := [p] + s[cur].children)
      && forall j :: 0 <= j < |s| && j != p && j != cur ==> s'[j] == s[j]
    ensures ChildLinks(s')
  {
    forall q, c | 0 <= q < |s'| && c in s'[q].children
      ensures IsPid(c) && s'[c].pstate != Free && s'[c].parent == q
    {
      if !(p > 1 && q == cur && c == p) {
        assert c in s[q].children;
        assert c != p;
      }
    }
  }

  lemma ExecKeepsExitedLinks(s: seq<Pcb>, s': seq<Pcb>, p: Pid, cur: Pid)
    requires |s| == MAX_PROC && |s'| == MAX_PROC && ExitedLinks(s) && ChildLinks(s)
    requires IsPid(p) && s[p].pstate == Free
    requires s'[p].pstate == Alive && s'[p].children == s[p].children && s'[p].exited == s[p].exited
    requires p <= 1 ==> forall j :: 0 <= j < |s| && j != p ==> s'[j] == s[j]
    requires p > 1 ==>
      && IsPid(cur) && cur != p
      && s'[cur] == s[cur].(children := [p] + s[cur].children)
      && forall j :: 0 <= j < |s| && j != p && j != cur ==> s'[j] == s[j]
    ensures ExitedLinks(s')
  {
    forall q, c | 0 <= q < |s'| && c in s'[q].exited
      ensures c in s'[q].children && IsPid(c) && s'[c].pstate == Zombie
    {
      assert c in s[q].exited;
      assert c != p;
    }
  }

  lemma ExecKeepsZombiesListed(s: seq<Pcb>, s': seq<Pcb>, p: Pid, cur: Pid)
    requires |s| == MAX_PROC && |s'| == MAX_PROC && ZombiesListed(s)
    requires IsPid(p) && s[p].pstate == Free
    requires s'[p].pstate == Alive && s'[p].children == s[p].children && s'[p].exited == s[p].exited
    requires p <= 1 ==> forall j :: 0 <= j < |s| && j != p ==> s'[j] == s[j]
    requires p > 1 ==>
      && IsPid(cur) && cur != p
      && s'[cur] == s[cur].(children := [p] + s[cur].children)
      && forall j :: 0 <= j < |s| && j != p && j != cur ==> s'[j] == s[j]
    ensures ZombiesListed(s')
  {
    forall q, c | 0 <= q < |s'| && c in s'[q].children && 0 <= c < |s'| && s'[c].pstate == Zombie
      ensures c in s'[q].exited
    {
      assert c != p;
      assert c in s[q].children;
    }
  }

  lemma ExecKeepsParentLinks(s: seq<Pcb>, s': seq<Pcb>, p: Pid, cur: Pid)
    requires |s| == MAX_PROC && |s'| == MAX_PROC && Family(s)
    requires IsPid(p) && s[p].pstate == Free
    requires s'[p].pstate == Alive
    requires p <= 1 ==> s'[p].parent == NOPROC && forall j :: 0 <= j < |s| && j != p ==> s'[j] == s[j]
    requires p > 1 ==>
      && IsPid(cur) && cur != p && s[cur].pstate == Alive && s'[p].parent == cur
      && s'[cur] == s[cur].(children := [p] + s[cur].children)
      && forall j :: 0 <= j < |s| && j != p && j != cur ==> s'[j] == s[j]
    ensures ParentLinks(s') && RootsOrphaned(s')
  {
    forall c | 0 <= c < |s'| && s'[c].pstate != Free && s'[c].parent != NOPROC
      ensures IsPid(s'[c].parent) && s'[c].parent != c && s'[s'[c].parent].pstate != Free
      ensures c in s'[s'[c].parent].children
    {
      if c != p {
        assert s[c].parent != p;
      }
    }
  }

  /** Popping the head of the free list. */
  lemma FreeChainAfterAcquire(t: Table, t': Table, fl: seq<Pid>)
    requires |t.slots| == MAX_PROC && |t'.slots| == MAX_PROC && FreeChain(t, fl) && fl != []
    requires t'.freeHead == t.slots[fl[0]].parent && t'.slots[fl[0]].pstate == Alive
    requires forall j :: 0 <= j < |t.slots| && j != fl[0] ==>
      (t'.slots[j].pstate == Free <==> t.slots[j].pstate == Free) &&
      (t.slots[j].pstate == Free ==> t'.slots[j].parent == t.slots[j].parent)
    ensures FreeChain(t', fl[1..])
  {
    var fl' := fl[1..];
    forall i | 0 <= i < |fl'|
      ensures IsPid(fl'[i]) && t'.slots[fl'[i]].pstate == Free
    {
      assert fl'[i] == fl[i + 1] && fl[i + 1] != fl[0];
    }
    forall i | 0 <= i < |fl'| - 1
      ensures t'.slots[fl'[i]].parent == fl'[i + 1]
    {
      assert fl'[i] == fl[i + 1] && fl[i + 1] != fl[0];
      assert t.slots[fl[i + 1]].parent == fl[i + 2];
    }
    if |fl| > 1 {
      assert t.slots[fl[0]].parent == fl[1];
      assert fl'[|fl'| - 1] == fl[|fl| - 1] && fl[|fl| - 1] != fl[0];
    }
    forall q | 0 <= q < |t'.slots| && t'.slots[q].pstate == Free
      ensures q in fl'
    {
      assert q in fl && q != fl[0];
      var k :| 0 <= k < |fl| && fl[k] == q;
      assert fl'[k - 1] == q;
    }
  }

  /** sys_Exec keeps the table invariant; the pid it hands out leaves the
      free list. */
  lemma ExecPreservesInv(t: Table, fl: seq<Pid>, cur: Pid, call: Option<Task>, argl: int,
                         args: Option<seq<Byte>>, thread: Tcb)
    requires TableInv(t, fl) && ExecCallable(t, cur, argl, args)
    ensures TableInv(Exec(t, cur, call, argl, args, thread).0, if fl == [] then [] else fl[1..])
  {
    if fl != [] {
      var (t', p) := Exec(t, cur, call, argl, args, thread);
      assert p == fl[0];
      FamilyAfterExec(t.slots, t'.slots, p, cur);
      FreeChainAfterAcquire(t, t', fl);
    }
  }

  lemma ReparentUnfold(s: seq<Pcb>, cur: Pid)
    requires |s| == MAX_PROC && IsPid(cur) && cur != 1 && s[cur].children != []
    requires forall c :: c in s[cur].children ==> IsPid(c)
    requires 1 !in s[cur].children && cur !in s[cur].children
    ensures var s3 := ReparentStep(s, cur); var c := s[cur].children[0];
      && s3[cur] == s[cur].(children := s[cur].children[1..])
      && s3[1] == s[1].(children := [c] + s[1].children)
      && (forall j :: 0 <= j < |s| && j != 1 && j != cur ==>
            s3[j] == (if j == c then s[j].(parent := 1) else s[j]))
      && 1 !in s3[cur].children && cur !in s3[cur].children
      && (forall x :: x in s3[cur].children ==> x in s[cur].children)
  {
    assert s[cur].children[0] in s[cur].children;
    assert forall x :: x in s[cur].children[1..] ==> x in s[cur].children;
  }

  /** The reparenting loop leaves cur without children. */
  lemma {:induction false} ReparentEmptiesCur(s: seq<Pcb>, cur: Pid)
    requires |s| == MAX_PROC && IsPid(cur) && (cur == 1 ==> s[cur].children == [])
    requires forall c :: c in s[cur].children ==> IsPid(c)
    requires 1 !in s[cur].children && cur !in s[cur].children
    ensures Reparent(s, cur)[cur] == s[cur].(children := [])
    decreases |s[cur].children|
  {
    if s[cur].children != [] {
      ReparentUnfold(s, cur);
      ReparentEmptiesCur(ReparentStep(s, cur), cur);
    }
  }

  /** The reparenting loop puts cur's children, reversed, at the front of
      init's list. */
  lemma {:induction false} ReparentFillsInit(s: seq<Pcb>, cur: Pid)
    requires |s| == MAX_PROC && IsPid(cur) && cur != 1
    requires forall c :: c in s[cur].children ==> IsPid(c)
    requires 1 !in s[cur].children && cur !in s[cur].children
    ensures Reparent(s, cur)[1] == s[1].(children := Reverse(s[cur].children) + s[1].children)
    decreases |s[cur].children|
  {
    var k := s[cur].children;
    if k != [] {
      ReparentUnfold(s, cur);
      var s3 := ReparentStep(s, cur);
      ReparentFillsInit(s3, cur);
      ReverseOntoFront(k, s[1].children);
    }
  }

  /** Pushing the head of k in front of the reversed rest is reversing k. */
  lemma ReverseOntoFront(k: seq<Pid>, rest: seq<Pid>)
    requires k != []
    ensures Reverse(k[1..]) + ([k[0]] + rest) == Reverse(k) + rest
  {
    calc {
      Reverse(k) + rest;
      (Reverse(k[1..]) + [k[0]]) + rest;
      Reverse(k[1..]) + ([k[0]] + rest);
    }
  }

  /** Each of cur's children names init as its parent afterwards; every
      other slot is untouched. */
  lemma {:induction false} ReparentMovesChildren(s: seq<Pcb>, cur: Pid, j: Pid)
    requires |s| == MAX_PROC && IsPid(cur) && (cur == 1 ==> s[cur].children == [])
    requires forall c :: c in s[cur].children ==> IsPid(c)
    requires 1 !in s[cur].children && cur !in s[cur].children
    requires 0 <= j < |s| && j != 1 && j != cur
    ensures Reparent(s, cur)[j] == (if j in s[cur].children then s[j].(parent := 1) else s[j])
    decreases |s[cur].children|
  {
    var k := s[cur].children;
    if k != [] {
      ReparentUnfold(s, cur);
      ReparentMovesChildren(ReparentStep(s, cur), cur, j);
      assert j in k <==> j == k[0] || j in k[1..];
    }
  }

  /** What sys_Exit needs: a running process; init only once it has no
      children left; and a running init to adopt the children of anyone else. */
  ghost predicate ExitCallable(t: Table, cur: Pid)
  {
    && Shaped(t) && IsPid(cur) && t.slots[cur].pstate == Alive
    && (cur == 1 ==> t.slots[cur].children == [])
    && (t.slots[cur].children != [] ==> t.slots[1].pstate == Alive)
  }

  /** What the per-slot account of sys_Exit assumes of the exiting process. */
  ghost predicate ExitingSlot(s: seq<Pcb>, cur: Pid)
  {
    && |s| == MAX_PROC && IsPid(cur)
    && var k := s[cur].children; var par := s[cur].parent;
    && (cur == 1 ==> k == [])
    && (forall c :: c in k ==> IsPid(c))
    && 1 !in k && cur !in k && par != cur && (par == NOPROC || IsPid(par))
  }

  lemma ExitedSlotCur(s: seq<Pcb>, cur: Pid, exitval: int)
    requires ExitingSlot(s, cur)
    ensures var m := s[cur];
      ExitSlotsOf(s, cur, exitval)[cur] ==
        m.(args := None, fidt := NullFidt, children := [], exited := [],
           mainThread := None, pstate := Zombie, exitval := exitval,
           ptcbCounter := m.ptcbCounter - 1,
           ptcbs := if m.ptcbCounter - 1 == 0 then [] else m.ptcbs,
           threadCount := m.threadCount - 1)
  {
    var s0 := s[cur := s[cur].(args := None, fidt := NullFidt)];
    var s1 := Reparent(s0, cur);
    ReparentEmptiesCur(s0, cur);
    var s2 := HandOverExited(s1, cur);
    assert s2[cur] == s1[cur].(exited := []);
    assert JoinExited(s2, cur, s[cur].parent)[cur] == s2[cur];
  }

  lemma ExitedSlotInit(s: seq<Pcb>, cur: Pid, exitval: int)
    requires ExitingSlot(s, cur) && cur != 1
    ensures var k := s[cur].children; var par := s[cur].parent;
      ExitSlotsOf(s, cur, exitval)[1] ==
        s[1].(children := Reverse(k) + s[1].children,
              exited := (if par == 1 then [cur] else []) + (s[1].exited + s[cur].exited))
  {
    var k := s[cur].children;
    var s0 := s[cur := s[cur].(args := None, fidt := NullFidt)];
    var s1 := Reparent(s0, cur);
    ReparentEmptiesCur(s0, cur);
    ReparentFillsInit(s0, cur);
    assert s1[1] == s[1].(children := Reverse(k) + s[1].children);
    var s2 := HandOverExited(s1, cur);
    assert s1[1].exited + [] == s1[1].exited;
    assert s2[1] == s1[1].(exited := s[1].exited + s[cur].exited);
  }

  lemma ExitedSlotParent(s: seq<Pcb>, cur: Pid, exitval: int)
    requires ExitingSlot(s, cur)
    requires s[cur].parent != NOPROC && s[cur].parent != 1
    ensures var k := s[cur].children; var par := s[cur].parent;
      ExitSlotsOf(s, cur, exitval)[par] ==
        (if par in k then s[par].(parent := 1) else s[par]).(exited := [cur] + s[par].exited)
  {
    var par := s[cur].parent;
    var s0 := s[cur := s[cur].(args := None, fidt := NullFidt)];
    var s1 := Reparent(s0, cur);
    ReparentMovesChildren(s0, cur, par);
    var s2 := HandOverExited(s1, cur);
    assert s2[par] == s1[par];
  }

  lemma ExitedSlotOther(s: seq<Pcb>, cur: Pid, exitval: int, j: Pid)
    requires ExitingSlot(s, cur)
    requires 0 <= j < |s| && j != 1 && j != cur && j != s[cur].parent
    ensures ExitSlotsOf(s, cur, exitval)[j] == (if j in s[cur].children then s[j].(parent := 1) else s[j])
  {
    var s0 := s[cur := s[cur].(args := None, fidt := NullFidt)];
    var s1 := Reparent(s0, cur);
    ReparentMovesChildren(s0, cur, j);
    var s2 := HandOverExited(s1, cur);
    assert s2[j] == s1[j];
  }

  /** A process sys_Exit may act on satisfies ExitingSlot. */
  lemma ExitingFromShaped(t: Table, cur: Pid)
    requires Shaped(t) && IsPid(cur) && (cur == 1 ==> t.slots[cur].children == [])
    requires 1 !in t.slots[cur].children && cur !in t.slots[cur].children && t.slots[cur].parent != cur
    ensures ExitingSlot(t.slots, cur)
  {
    forall c | c in t.slots[cur].children
      ensures IsPid(c)
    {
      assert c in t.slots[cur].children;
    }
  }

  /** The slots sys_Exit leaves, one by one. */
  lemma ExitSlots(s: seq<Pcb>, cur: Pid, exitval: int)
    requires ExitingSlot(s, cur)
    ensures var s' := ExitSlotsOf(s, cur, exitval);
      var k := s[cur].children; var par := s[cur].parent; var m := s[cur];
      && |s'| == MAX_PROC
      && s'[cur] == m.(args := None, fidt := NullFidt, children := [], exited := [],
                       mainThread := None, pstate := Zombie, exitval := exitval,
                       ptcbCounter := m.ptcbCounter - 1,
                       ptcbs := if m.ptcbCounter - 1 == 0 then [] else m.ptcbs,
                       threadCount := m.threadCount - 1)
      && (cur != 1 ==> s'[1] == s[1].(children := Reverse(k) + s[1].children,
                                      exited := (if par == 1 then [cur] else []) + (s[1].exited + m.exited)))
      && (par != NOPROC && par != 1 ==>
            s'[par] == (if par in k then s[par].(parent := 1) else s[par]).(exited := [cur] + s[par].exited))
      && (forall j :: 0 <= j < |s| && j != 1 && j != cur && j != par ==>
            s'[j] == (if j in k then s[j].(parent := 1) else s[j]))
  {
    ExitedSlotCur(s, cur, exitval);
    if cur != 1 {
      ExitedSlotInit(s, cur, exitval);
    }
    if s[cur].parent != NOPROC && s[cur].parent != 1 {
      ExitedSlotParent(s, cur, exitval);
    }
    forall j | 0 <= j < |s| && j != 1 && j != cur && j != s[cur].parent
      ensures ExitSlotsOf(s, cur, exitval)[j] == (if j in s[cur].children then s[j].(parent := 1) else s[j])
    {
      ExitedSlotOther(s, cur, exitval, j);
    }
  }

  /** sys_Exit's effect on each slot's state, parent, lists and descriptors. */
  ghost predicate ExitShape(s: seq<Pcb>, s': seq<Pcb>, cur: Pid)
    requires |s| == MAX_PROC && |s'| == MAX_PROC && IsPid(cur)
  {
    var k := s[cur].children; var par := s[cur].parent;
    && (forall j :: 0 <= j < |s| && j != cur ==> s'[j].pstate == s[j].pstate && s'[j].fidt == s[j].fidt)
    && (forall j :: 0 <= j < |s| && j != cur ==> s'[j].parent == (if j in k then 1 else s[j].parent))
    && s'[cur].pstate == Zombie && s'[cur].fidt == NullFidt && s'[cur].parent == par
    && s'[cur].children == [] && s'[cur].exited == []
    && (forall j :: 0 <= j < |s| && j != cur && j != 1 ==> s'[j].children == s[j].children)
    && (cur != 1 ==> s'[1].children == Reverse(k) + s[1].children)
    && (forall j :: 0 <= j < |s| && j != cur && j != 1 && j != par ==> s'[j].exited == s[j].exited)
    && (cur != 1 ==> s'[1].exited == (if par == 1 then [cur] else []) + (s[1].exited + s[cur].exited))
    && (par != NOPROC && par != 1 ==> IsPid(par) && s'[par].exited == [cur] + s[par].exited)
  }

  /** What the family invariant and sys_Exit's precondition give about the
      exiting process: neither init nor itself is among its children, it is
      not its own parent, and a parent it has is running and lists it. */
  ghost predicate ExitPre(s: seq<Pcb>, cur: Pid)
    requires |s| == MAX_PROC && IsPid(cur)
  {
    var k := s[cur].children; var par := s[cur].parent;
    && Family(s) && s[cur].pstate == Alive
    && (k != [] ==> cur != 1 && s[1].pstate == Alive)
    && 1 !in k && cur !in k && par != cur
    && (par != NOPROC ==> IsPid(par) && cur in s[par].children && s[par].pstate == Alive)
  }

  lemma ExitKeepsChildLinks(s: seq<Pcb>, s': seq<Pcb>, cur: Pid)
    requires |s| == MAX_PROC && |s'| == MAX_PROC && IsPid(cur)
    requires ExitPre(s, cur) && ExitShape(s, s', cur)
    ensures ChildLinks(s')
  {
    var k := s[cur].children;
    var par := s[cur].parent;
    forall q, c | 0 <= q < |s'| && c in s'[q].children
      ensures IsPid(c) && s'[c].pstate != Free && s'[c].parent == q
    {
      if q == 1 && c in k {
        assert c != cur && s[c].pstate != Free;
      } else {
        assert c in s[q].children && q != cur;
        assert c !in k;
        if c == cur {
          assert q == par;
        }
      }
    }
  }

  lemma ExitKeepsExitedLinks(s: seq<Pcb>, s': seq<Pcb>, cur: Pid)
    requires |s| == MAX_PROC && |s'| == MAX_PROC && IsPid(cur)
    requires ExitPre(s, cur) && ExitShape(s, s', cur)
    ensures ExitedLinks(s')
  {
    var k := s[cur].children;
    var par := s[cur].parent;
    var e := s[cur].exited;
    forall q, c | 0 <= q < |s'| && c in s'[q].exited
      ensures c in s'[q].children && IsPid(c) && s'[c].pstate == Zombie
    {
      assert q != cur;
      if c == cur {
        assert q == par;
      } else if q == 1 && c in e {
        assert c in k;
      } else {
        assert c in s[q].exited;
        assert c in s[q].children;
        assert c !in k;
      }
    }
  }

  lemma ExitKeepsZombiesListed(s: seq<Pcb>, s': seq<Pcb>, cur: Pid)
    requires |s| == MAX_PROC && |s'| == MAX_PROC && IsPid(cur)
    requires ExitPre(s, cur) && ExitShape(s, s', cur)
    ensures ZombiesListed(s')
  {
    var k := s[cur].children;
    var par := s[cur].parent;
    forall q, c | 0 <= q < |s'| && c in s'[q].children && 0 <= c < |s'| && s'[c].pstate == Zombie
      ensures c in s'[q].exited
    {
      assert q != cur;
      if q == 1 && c in k {
        assert c != cur && c in s[cur].exited;
      } else {
        assert c in s[q].children;
        if c == cur {
          assert q == par;
        } else {
          assert c in s[q].exited;
        }
      }
    }
  }

  lemma ExitKeepsParentLinks(s: seq<Pcb>, s': seq<Pcb>, cur: Pid)
    requires |s| == MAX_PROC && |s'| == MAX_PROC && IsPid(cur)
    requires ExitPre(s, cur) && ExitShape(s, s', cur)
    ensures ParentLinks(s')
  {
    var k := s[cur].children;
    forall c | 0 <= c < |s'| && s'[c].pstate != Free && s'[c].parent != NOPROC
      ensures IsPid(s'[c].parent) && s'[c].parent != c && s'[s'[c].parent].pstate != Free
      ensures c in s'[s'[c].parent].children
    {
      if c in k {
        assert s'[c].parent == 1 && c != 1;
      } else if c != cur {
        var q := s[c].parent;
        assert q != cur;
        assert c in s[q].children;
      }
    }
  }

  /** The family links after sys_Exit. */
  lemma FamilyAfterExit(s: seq<Pcb>, s': seq<Pcb>, cur: Pid)
    requires |s| == MAX_PROC && |s'| == MAX_PROC && IsPid(cur)
    requires ExitPre(s, cur) && ExitShape(s, s', cur)
    ensures Family(s')
  {
    ExitKeepsChildLinks(s, s', cur);
    ExitKeepsExitedLinks(s, s', cur);
    ExitKeepsZombiesListed(s, s', cur);
    ExitKeepsParentLinks(s, s', cur);
    var k := s[cur].children;
    forall q | 0 <= q < |s'| && s'[q].pstate != Free && q <= 1
      ensures s'[q].parent == NOPROC
    {
      assert q !in k;
    }
    forall q | 0 <= q < |s'| && s'[q].pstate != Alive
      ensures s'[q].children == [] && s'[q].exited == [] && s'[q].fidt == NullFidt
    {
      if q != cur {
        assert q != 1 || k == [];
        assert q != s[cur].parent;
        if q == 1 {
          ListedInEmpty(s[cur].exited, k);
        }
      }
    }
  }

  lemma ExitPreFromInv(t: Table, fl: seq<Pid>, cur: Pid)
    requires TableInv(t, fl) && ExitCallable(t, cur)
    ensures ExitPre(t.slots, cur)
  {
    var s := t.slots;
    var k := s[cur].children;
    assert 1 !in k;
    assert cur !in k;
  }

  lemma ExitShapeFromSlots(t: Table, cur: Pid, exitval: int)
    requires Shaped(t) && IsPid(cur) && ExitPre(t.slots, cur)
    ensures |Exit(t, cur, exitval).slots| == MAX_PROC
    ensures ExitShape(t.slots, Exit(t, cur, exitval).slots, cur)
  {
    ExitingFromShaped(t, cur);
    ExitSlots(t.slots, cur, exitval);
  }

  /** A free list is untouched by a step that changes no free slot and frees
      none. */
  lemma FreeChainKept(t: Table, t': Table, fl: seq<Pid>)
    requires |t.slots| == MAX_PROC && |t'.slots| == MAX_PROC && FreeChain(t, fl)
    requires t'.freeHead == t.freeHead
    requires forall j :: 0 <= j < |t.slots| ==> (t'.slots[j].pstate == Free <==> t.slots[j].pstate == Free)
    requires forall j :: 0 <= j < |t.slots| && t.slots[j].pstate == Free ==> t'.slots[j].parent == t.slots[j].parent
    ensures FreeChain(t', fl)
  {
  }

  /** sys_Exit keeps the table invariant and the free list. */
  lemma ExitPreservesInv(t: Table, fl: seq<Pid>, cur: Pid, exitval: int)
    requires TableInv(t, fl) && ExitCallable(t, cur)
    ensures TableInv(Exit(t, cur, exitval), fl)
  {
    var s := t.slots;
    var t' := Exit(t, cur, exitval);
    var s' := t'.slots;
    ExitPreFromInv(t, fl, cur);
    ExitShapeFromSlots(t, cur, exitval);
    FamilyAfterExit(s, s', cur);
    assert s[cur].pstate != Free;
    FreeChainKept(t, t', fl);
    assert Shaped(t');
  }

  /** After start-up the free list holds every pid in ascending order and
      the table invariant holds. */
  lemma InitialTableInv(refs: map<FcbId, int>)
    ensures TableInv(InitialTable(refs), InitialFreeList())
  {
    var t := InitialTable(refs);
    var fl := InitialFreeList();
    forall p | 0 <= p < |t.slots| && t.slots[p].pstate == Free
      ensures p in fl
    {
      assert fl[p] == p;
    }
  }

  /** Two tables agree on everything the invariant is about: each slot's
      state, parent, lists and descriptors. */
  ghost predicate SameStructure(s: seq<Pcb>, s': seq<Pcb>)
  {
    && |s'| == |s|
    && (forall p :: 0 <= p < |s| ==> s'[p].pstate == s[p].pstate && s'[p].parent == s[p].parent)
    && (forall p :: 0 <= p < |s| ==> s'[p].children == s[p].children && s'[p].exited == s[p].exited)
    && (forall p :: 0 <= p < |s| ==> s'[p].fidt == s[p].fidt)
  }

  lemma SameStructureChildLinks(s: seq<Pcb>, s': seq<Pcb>)
    requires |s| == MAX_PROC && SameStructure(s, s') && ChildLinks(s)
    ensures ChildLinks(s')
  {
    forall p, c | 0 <= p < |s'| && c in s'[p].children
      ensures IsPid(c) && s'[c].pstate != Free && s'[c].parent == p
    {
      assert c in s[p].children;
    }
  }

  lemma SameStructureExitedLinks(s: seq<Pcb>, s': seq<Pcb>)
    requires |s| == MAX_PROC && SameStructure(s, s') && ExitedLinks(s)
    ensures ExitedLinks(s')
  {
    forall p, c | 0 <= p < |s'| && c in s'[p].exited
      ensures c in s'[p].children && IsPid(c) && s'[c].pstate == Zombie
    {
      assert c in s[p].exited;
    }
  }

  lemma SameStructureZombiesListed(s: seq<Pcb>, s': seq<Pcb>)
    requires |s| == MAX_PROC && SameStructure(s, s') && ZombiesListed(s)
    ensures ZombiesListed(s')
  {
    forall p, c | 0 <= p < |s'| && c in s'[p].children && 0 <= c < |s'| && s'[c].pstate == Zombie
      ensures c in s'[p].exited
    {
      assert c in s[p].children;
    }
  }

  lemma SameStructureParentLinks(s: seq<Pcb>, s': seq<Pcb>)
    requires |s| == MAX_PROC && SameStructure(s, s') && ParentLinks(s)
    ensures ParentLinks(s')
  {
    forall c | 0 <= c < |s'| && s'[c].pstate != Free && s'[c].parent != NOPROC
      ensures IsPid(s'[c].parent) && s'[c].parent != c && s'[s'[c].parent].pstate != Free
      ensures c in s'[s'[c].parent].children
    {
      assert s[c].pstate != Free && s[c].parent != NOPROC;
    }
  }

  lemma SameStructureShaped(t: Table, s': seq<Pcb>)
    requires Shaped(t) && SameStructure(t.slots, s')
    ensures Shaped(t.(slots := s'))
  {
    var s := t.slots;
    forall p, c | 0 <= p < |s'| && c in s'[p].children ensures IsPid(c) {
      assert c in s[p].children;
    }
    forall p, c | 0 <= p < |s'| && c in s'[p].exited ensures IsPid(c) {
      assert c in s[p].exited;
    }
  }

  lemma SameStructureFreeChain(t: Table, fl: seq<Pid>, s': seq<Pcb>)
    requires |t.slots| == MAX_PROC && FreeChain(t, fl) && SameStructure(t.slots, s')
    ensures FreeChain(t.(slots := s'), fl)
  {
  }

  /** Changing only what the invariant does not constrain (thread blocks,
      counters, arguments, exit values) keeps the table invariant. */
  lemma StructureKeepsInv(t: Table, fl: seq<Pid>, s': seq<Pcb>)
    requires TableInv(t, fl) && SameStructure(t.slots, s')
    ensures TableInv(t.(slots := s'), fl)
  {
    var s := t.slots;
    SameStructureShaped(t, s');
    SameStructureFreeChain(t, fl, s');
    SameStructureChildLinks(s, s');
    SameStructureExitedLinks(s, s');
    SameStructureZombiesListed(s, s');
    SameStructureParentLinks(s, s');
  }

  /** The Exec at the end of start-up yields pid 0, the idle process: it has
      no parent and no main thread, and pid 1 is next on the free list. */
  lemma FirstExecIsIdle(refs: map<FcbId, int>, thread: Tcb)
    ensures var r := Exec(InitialTable(refs), NOPROC, None, 0, None, thread);
      && r.1 == 0 && r.0.slots[0].pstate == Alive && r.0.slots[0].parent == NOPROC
      && r.0.slots[0].mainThread == None && r.0.freeHead == 1 && r.0.processCount == 1
  {
    assert InitialTable(refs).slots[0].parent == 1;
  }

  /** With pid 1 at the head of the free list, Exec creates init: pid 1,
      without a parent, running the given task on a fresh main thread. */
  lemma ExecCreatesInit(t: Table, cur: Pid, initTask: Task, argl: int, args: Option<seq<Byte>>, thread: Tcb)
    requires Shaped(t) && t.freeHead == 1 && t.slots[1].pstate == Free
    requires args.Some? ==> 0 <= argl <= |args.value|
    ensures var r := Exec(t, cur, Some(initTask), argl, args, thread);
      && r.1 == 1 && r.0.slots[1].pstate == Alive && r.0.slots[1].parent == NOPROC
      && r.0.slots[1].mainThread == Some(thread) && r.0.slots[1].mainTask == Some(initTask)
  {
  }

  /** Waiting for a specific child keeps the table invariant; a reaped pid
      goes back on the free list. */
  lemma WaitSpecificPreservesInv(t: Table, fl: seq<Pid>, cur: Pid, cpid: Pid, wantStatus: bool)
    requires TableInv(t, fl) && IsPid(cur)
    ensures var r := WaitSpecific(t, cur, cpid, wantStatus);
      TableInv(r.0, if r.1.Reaped? then [r.1.pid] + fl else fl)
  {
    var r := WaitSpecific(t, cur, cpid, wantStatus);
    if r.1.Reaped? {
      CleanupPreservesInv(t, fl, cpid, wantStatus);
    }
  }

  /** Waiting for any child keeps the table invariant; a reaped pid goes
      back on the free list. */
  lemma WaitAnyPreservesInv(t: Table, fl: seq<Pid>, cur: Pid, wantStatus: bool)
    requires TableInv(t, fl) && IsPid(cur)
    ensures var r := WaitAny(t, cur, wantStatus);
      TableInv(r.0, if r.1.Reaped? then [r.1.pid] + fl else fl)
  {
    var r := WaitAny(t, cur, wantStatus);
    if r.1.Reaped? {
      var z := r.1.pid;
      assert z in t.slots[cur].exited;
      assert z in t.slots[cur].children;
      CleanupPreservesInv(t, fl, z, wantStatus);
    }
  }

  /** What a wait returns: NOPROC exactly when there is nothing to wait for,
      and otherwise a zombie child of the caller, which leaves both of the
      caller's lists and the table; no other slot changes. */
  lemma WaitChildReapsZombieChild(t: Table, fl: seq<Pid>, cur: Pid, cpid: Pid, wantStatus: bool)
    requires TableInv(t, fl) && IsPid(cur)
    ensures var r := WaitChild(t, cur, cpid, wantStatus);
      && (r.1.NoChild? <==>
            if cpid == NOPROC then t.slots[cur].children == []
            else !IsPid(cpid) || t.slots[cpid].pstate == Free || t.slots[cpid].parent != cur)
      && (r.1.Reaped? ==>
            && IsPid(r.1.pid) && t.slots[r.1.pid].pstate == Zombie && t.slots[r.1.pid].parent == cur
            && (cpid != NOPROC ==> r.1.pid == cpid)
            && r.1.status == (if wantStatus then Some(t.slots[r.1.pid].exitval) else None)
            && r.1.pid !in r.0.slots[cur].children && r.1.pid !in r.0.slots[cur].exited
            && r.0.slots[r.1.pid].pstate == Free
            && r.0.slots[cur] == t.slots[cur].(children := Without(t.slots[cur].children, r.1.pid),
                                               exited := Without(t.slots[cur].exited, r.1.pid))
            && (forall q :: 0 <= q < |t.slots| && q != cur && q != r.1.pid ==> r.0.slots[q] == t.slots[q])
            && r.0.freeHead == r.1.pid && r.0.processCount == t.processCount - 1 && r.0.refs == t.refs)
  {
    var r := WaitChild(t, cur, cpid, wantStatus);
    if r.1.Reaped? {
      var z := r.1.pid;
      if cpid == NOPROC {
        assert z in t.slots[cur].exited;
        assert z in t.slots[cur].children;
      }
      assert z != cur;
    }
  }

  /** sys_Exec in terms of the free list: NOPROC exactly when it is empty;
      otherwise its head becomes a live process without children, whose
      parent, arguments, main task and thread are as requested, and a child
      of cur goes to the front of cur's children and inherits cur's
      descriptors, each FCB gaining one reference per slot.  No other slot
      changes. */
  lemma ExecEffect(t: Table, fl: seq<Pid>, cur: Pid, call: Option<Task>, argl: int,
                   args: Option<seq<Byte>>, thread: Tcb)
    requires TableInv(t, fl) && ExecCallable(t, cur, argl, args)
    ensures var (t', p) := Exec(t, cur, call, argl, args, thread);
      && (p == NOPROC <==> fl == [])
      && (p == NOPROC ==> t' == t)
      && (p != NOPROC ==>
            && p == fl[0] && t.slots[p].pstate == Free && t'.slots[p].pstate == Alive
            && t'.processCount == t.processCount + 1
            && t'.slots[p].parent == (if p <= 1 then NOPROC else cur)
            && t'.slots[p].mainTask == call && t'.slots[p].argl == argl
            && t'.slots[p].args == CopyArgs(argl, args)
            && (call.Some? ==> t'.slots[p].mainThread == Some(thread))
            && t'.slots[p].children == [] && t'.slots[p].exited == []
            && (p <= 1 ==> t'.refs == t.refs)
            && (p <= 1 ==> forall q :: 0 <= q < |t.slots| && q != p ==> t'.slots[q] == t.slots[q])
            && (p > 1 ==> forall q :: 0 <= q < |t.slots| && q != p && q != cur ==> t'.slots[q] == t.slots[q])
            && (p > 1 ==>
                  && t'.slots[cur] == t.slots[cur].(children := [p] + t.slots[cur].children)
                  && t'.slots[p].fidt == t.slots[cur].fidt
                  && forall f :: RefOf(t'.refs, f) == RefOf(t.refs, f) + Occurrences(t.slots[cur].fidt, f)))
  {
    var (t', p) := Exec(t, cur, call, argl, args, thread);
    if p != NOPROC {
    }
    if p != NOPROC && p > 1 {
      forall f
        ensures RefOf(t'.refs, f) == RefOf(t.refs, f) + Occurrences(t.slots[cur].fidt, f)
      {
        AdjustRefsCounts(t.refs, t.slots[cur].fidt, 1, f);
      }
    }
  }

  /** sys_Exit in terms of the family: the process becomes a zombie holding
      its exit value and nothing else, heads its parent's exited list, its
      children and exited children pass to init, and each FCB it held loses
      one reference per slot. */
  lemma ExitEffect(t: Table, fl: seq<Pid>, cur: Pid, exitval: int)
    requires TableInv(t, fl) && ExitCallable(t, cur)
    ensures var t' := Exit(t, cur, exitval); var m := t.slots[cur];
      && t'.slots[cur].pstate == Zombie && t'.slots[cur].exitval == exitval
      && t'.slots[cur].fidt == NullFidt && t'.slots[cur].args == None
      && t'.slots[cur].children == [] && t'.slots[cur].mainThread == None
      && (m.parent != NOPROC ==> IsPid(m.parent) && t'.slots[m.parent].exited != [] && t'.slots[m.parent].exited[0] == cur)
      && (forall c :: c in m.children ==> t'.slots[c].parent == 1 && c in t'.slots[1].children)
      && (forall c :: c in m.exited ==> c in t'.slots[1].exited)
      && (forall f :: RefOf(t'.refs, f) == RefOf(t.refs, f) - Occurrences(m.fidt, f))
      && t'.freeHead == t.freeHead && t'.processCount == t.processCount
  {
    var m := t.slots[cur];
    ExitPreFromInv(t, fl, cur);
    ExitingFromShaped(t, cur);
    ExitSlots(t.slots, cur, exitval);
    var t' := Exit(t, cur, exitval);
    forall c | c in m.children
      ensures t'.slots[c].parent == 1 && c in t'.slots[1].children
    {
      assert c in Reverse(m.children);
    }
    forall c | c in m.exited
      ensures c in t'.slots[1].exited
    {
      assert c in m.children;
    }
    forall f
      ensures RefOf(t'.refs, f) == RefOf(t.refs, f) - Occurrences(m.fidt, f)
    {
      AdjustRefsCounts(t.refs, m.fidt, -1, f);
    }
  }

  /** The exit value passed to sys_Exit is the status the parent's next
      wait returns, whether it waits for that child or for any child: the
      child that exited last is reaped first. */
  lemma ExitThenWait(t: Table, fl: seq<Pid>, par: Pid, c: Pid, exitval: int)
    requires TableInv(t, fl) && IsPid(par) && c in t.slots[par].children && ExitCallable(t, c)
    ensures var t' := Exit(t, c, exitval);
      && Shaped(t')
      && WaitChild(t', par, NOPROC, true).1 == Reaped(c, Some(exitval))
      && WaitChild(t', par, c, true).1 == Reaped(c, Some(exitval))
  {
    assert t.slots[c].parent == par;
    ExitEffect(t, fl, c, exitval);
    ExitPreservesInv(t, fl, c, exitval);
    var t' := Exit(t, c, exitval);
    assert c in t'.slots[par].exited;
    assert c in t'.slots[par].children;
    ExitPreFromInv(t, fl, c);
    ExitingFromShaped(t, c);
    ExitSlots(t.slots, c, exitval);
    assert t'.slots[c].parent == par;
  }
}
