/** The process-information stream of kernel_proc.c: sys_OpenInfo creates a
    stream whose cursor walks the process table, and each read reports the
    next slot that holds a running or zombie process. */
module SystemInfo {
  import opened Kernel
  import opened Processes
  import opened ProcTable

  /** The fields of a procinfo record.  args holds the first
      min(argl, PROCINFO_MAX_ARGS_SIZE) bytes of the process's arguments. */
  datatype ProcInfo = ProcInfo(pid: Pid, ppid: Pid, alive: bool, threadCount: int,
                               mainTask: Option<Task>, argl: int, args: seq<Byte>)

  /** Whether a read reports slot p: the process is running or a zombie. */
  predicate Listed(s: seq<Pcb>, p: Pid)
    requires |s| == MAX_PROC && IsPid(p)
  {
    s[p].pstate == Alive || s[p].pstate == Zombie
  }

  /** The argument bytes a record carries. */
  function InfoArgs(pcb: Pcb): (r: seq<Byte>)
    ensures |r| <= PROCINFO_MAX_ARGS_SIZE
    ensures pcb.args.Some? && 0 <= pcb.argl <= |pcb.args.value| ==>
      r == pcb.args.value[..if pcb.argl > PROCINFO_MAX_ARGS_SIZE then PROCINFO_MAX_ARGS_SIZE else pcb.argl]
  {
    if pcb.args.None? || pcb.argl <= 0 then []
    else
      var n := if pcb.argl > PROCINFO_MAX_ARGS_SIZE then PROCINFO_MAX_ARGS_SIZE else pcb.argl;
      var n' := if n > |pcb.args.value| then |pcb.args.value| else n;
      pcb.args.value[..n']
  }

  /** The record for slot p. */
  function InfoOf(s: seq<Pcb>, p: Pid): (r: ProcInfo)
    requires |s| == MAX_PROC && IsPid(p)
    ensures r.pid == p && r.ppid == s[p].parent
    ensures r.alive <==> s[p].pstate == Alive
    ensures r.threadCount == s[p].threadCount && r.mainTask == s[p].mainTask && r.argl == s[p].argl
  {
    var pcb := s[p];
    ProcInfo(p, pcb.parent, pcb.pstate == Alive, pcb.threadCount, pcb.mainTask, pcb.argl, InfoArgs(pcb))
  }

  /** The first listed slot at or after c, or MAX_PROC when there is none. */
  function NextListed(s: seq<Pcb>, c: nat): (r: nat)
    requires |s| == MAX_PROC && c <= MAX_PROC
    ensures c <= r <= MAX_PROC
    ensures r < MAX_PROC ==> Listed(s, r)
    ensures forall j :: c <= j < r ==> s[j].pstate == Free
    decreases MAX_PROC - c
  {
    if c == MAX_PROC then MAX_PROC
    else if Listed(s, c) then c
    else NextListed(s, c + 1)
  }

  /** The pids that reads starting at cursor c report, in order. */
  ghost function Listing(s: seq<Pcb>, c: nat): seq<Pid>
    requires |s| == MAX_PROC && c <= MAX_PROC
    decreases MAX_PROC - c
  {
    var r := NextListed(s, c);
    if r == MAX_PROC then [] else [r] + Listing(s, r + 1)
  }

  /** Reading the stream from cursor c to the end reports every running or
      zombie process at or after c, and nothing else. */
  lemma {:induction false} ListingIsListed(s: seq<Pcb>, c: nat)
    requires |s| == MAX_PROC && c <= MAX_PROC
    ensures forall p :: p in Listing(s, c) <==> c <= p < MAX_PROC && Listed(s, p)
    decreases MAX_PROC - c
  {
    var r := NextListed(s, c);
    if r < MAX_PROC {
      ListingIsListed(s, r + 1);
    }
  }

  /** ... in increasing pid order, so no process is reported twice. */
  lemma {:induction false} ListingAscending(s: seq<Pcb>, c: nat)
    requires |s| == MAX_PROC && c <= MAX_PROC
    ensures forall i, j :: 0 <= i < j < |Listing(s, c)| ==> c <= Listing(s, c)[i] < Listing(s, c)[j]
    decreases MAX_PROC - c
  {
    var r := NextListed(s, c);
    if r < MAX_PROC {
      ListingAscending(s, r + 1);
      ListingIsListed(s, r + 1);
      var l := Listing(s, c);
      assert l == [r] + Listing(s, r + 1);
      forall i, j | 0 <= i < j < |l|
        ensures c <= l[i] < l[j]
      {
        var tail := Listing(s, r + 1);
        assert l[j] == tail[j - 1] && tail[j - 1] in tail;
        if i > 0 {
          assert l[i] == tail[i - 1];
        } else {
          assert l[i] == r;
        }
      }
    } else {
      assert Listing(s, c) == [];
    }
  }

  /** The PCINFOCB: a stream whose cursor is a slot index. */
  class InfoStream {
    var cursor: int

    ghost predicate Valid()
      reads this
    {
      0 <= cursor <= MAX_PROC
    }

    /** sys_OpenInfo's initialisation of the control block. */
    constructor ()
      ensures Valid() && cursor == 0
    {
      cursor := 0;
    }

    /** pcinfocb_read: skip free slots; at a listed slot produce its record,
        step past it and return size; at the end of the table return 0. */
    method Read(pt: ProcessTable, size: nat) returns (n: int, info: Option<ProcInfo>)
      requires Valid() && pt.slots.Length == MAX_PROC
      modifies this
      ensures Valid()
      ensures var r := NextListed(pt.slots[..], old(cursor));
        if r < MAX_PROC then n == size && info == Some(InfoOf(pt.slots[..], r)) && cursor == r + 1
        else n == 0 && info == None && cursor == MAX_PROC
    {
      ghost var s := pt.slots[..];
      ghost var goal := NextListed(s, cursor);
      while cursor < MAX_PROC
        invariant Valid() && old(cursor) <= cursor
        invariant NextListed(s, cursor) == goal
        decreases MAX_PROC - cursor
      {
        var pcb := pt.slots[cursor];
        if pcb.pstate == Alive || pcb.pstate == Zombie {
          info := Some(ProcInfo(cursor, pcb.parent, pcb.pstate == Alive, pcb.threadCount,
                                pcb.mainTask, pcb.argl, InfoArgs(pcb)));
          cursor := cursor + 1;
          return size, info;
        }
        cursor := cursor + 1;
      }
      return 0, None;
    }
  }

  /** sys_OpenInfo.  reserved is the outcome of FCB_reserve(1, ...), which is
      not part of this model: NOFILE on failure, otherwise the reserved fid
      with a fresh stream at cursor 0. */
  method OpenInfo(reserved: Option<Fid>) returns (fid: Fid, stream: InfoStream?)
    ensures reserved.None? ==> fid == NOFILE && stream == null
    ensures reserved.Some? ==> fid == reserved.value && stream != null && fresh(stream)
                               && stream.Valid() && stream.cursor == 0
  {
    if reserved.None? {
      return NOFILE, null;
    }
    stream := new InfoStream();
    fid := reserved.value;
  }
}
