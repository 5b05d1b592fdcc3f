# tinyos3 kernel core in Dafny

This project models the bookkeeping core of the tinyos3 teaching kernel and
proves properties of it:

- **Pipes** (`pipe.dfy`, kernel_pipe.c / kernel_pipe.h). A pipe is a fixed-capacity
  circular byte buffer with a read cursor, a write cursor, an element count and
  independent reader-closed and writer-closed flags.
  - The functions `PipeRead` and `PipeWrite` specify the two calls over an
    abstract view: the buffered bytes in FIFO order and the two flags.
  - The class `PipeBlock` holds the array, the cursors, the count and the flags,
    and its methods are proved against those functions. Its invariant ties the
    array to the abstract contents.
  - A call that would reach `kernel_wait` returns `Blocked(n)`, where n is the
    loop counter at that point. `ResumeRead`/`ResumeWrite` continue such a call
    after it is woken, whatever other calls did to the pipe meanwhile.
- **Process table** (`proc.dfy`, `proc_table.dfy`, kernel_proc.c / kernel_proc.h).
  The table is `PT[MAX_PROC]`, with the free list threaded through the parent
  fields, `process_count`, per-slot children and exited lists, and descriptor
  tables whose FCB references are counted in an abstract map.
  - Module `Processes` specifies each operation as a function over a value
    snapshot `Table`: `Exec`, `Cleanup`, `WaitSpecific`, `WaitAny`, `WaitChild`
    and `Exit`.
  - Module `ProcessLemmas` proves that each of them preserves the table
    invariant. The invariant covers the free list spelled out as a sequence,
    `process_count`, and the parent/children/exited links. Each exited list
    holds exactly its owner's zombie children. `ProcessLemmas` also
    proves what each operation promises.
  - Class `ProcTable.ProcessTable` holds `PT` as an array and implements
    `initialize_processes`, `sys_Exec`, the two waits and `sys_Exit` with the
    same loops as the C code. Each method is proved equal to its specification
    function.
  - The current process (`CURPROC`) is a parameter.
  - A wait that would block returns `WouldBlock` and changes nothing.
- **Process information stream** (`sysinfo.dfy`, kernel_proc.c). This covers
  `sys_OpenInfo` and the cursor scan of `pcinfocb_read`.
- **Threads** (`threads.dfy`, kernel_threads.c). This covers the page round-up of
  `THREAD_PTCB_SIZE`, `get_tid`, and `sys_CreateThread` appending a PTCB to the
  calling process, plus the stub calls.
- **Sockets** (`socket.dfy`, kernel_socket.c). This covers `sys_Socket` (port
  check, UNBOUND socket control block, `socket_counter`, port-map reset), plus
  the stub calls.

Constants live in the kernel's public header, which is not part of this model.
`common.dfy` uses the tinyos3 values:

| constant | value |
|---|---|
| `MAX_PROC` | 65536 |
| `MAX_FILEID` | 16 |
| `MAX_PORT` | 1023 |
| `PROCINFO_MAX_ARGS_SIZE` | 128 |
| `NOPROC` | -1 |
| `NOFILE` | -1 |
| `NOTHREAD` | 0 |
| `BUFFER_SIZE` (in `pipe.dfy`) | 8192 |

The page size of 4096 is the one kernel_threads.c:11 defines.

Behaviour of the code worth noting:

- `wait(ANY)` reaps the most recently exited child first, not the first one.
  `sys_Exit` pushes onto the front of the parent's exited list
  (kernel_proc.c:342), and `wait_for_any_child` takes the head
  (kernel_proc.c:276). `ProcessLemmas.ExitThenWait` proves that a child that
  has just exited is the one `WaitChild(NOPROC)` returns.
- Reparenting pops the children one at a time and pushes each onto the front
  of init's list, so they arrive at init in reverse order
  (`ProcessLemmas.ReparentFillsInit`).
- Only pid 1 waits for its children before exiting, not pid 0.
- `sys_CreateThread` changes neither `ptcb_counter` nor `thread_count`.
- Join, detach, thread exit, listen, accept, connect and shutdown are stubs
  with constant results.

## Model

| member | source | states |
|---|---|---|
| Pipes.PipeRead | kernel_pipe.c:14-75 | Fails exactly when the reader end is closed, and then changes nothing. Otherwise the bytes copied are the oldest buffered bytes in order (contents = data + remaining). The count returned is the number of bytes copied, at most size. The flags are unchanged. The call blocks only on an empty pipe whose writer is open. A completed read that returns fewer than size bytes has drained the pipe, and the writer end is closed (end of stream). |
| Pipes.ReadFrom | kernel_pipe.c:31-70 | The read loop from the top of iteration n never fails. It blocks only with both ends open and before size bytes are counted. |
| Pipes.ReadWoken | kernel_pipe.c:40-67 | The same for iteration n entered at the guard of the wait loop. |
| Pipes.ReadFromOutcome | kernel_pipe.c:31-70 | Every run of the read loop from iteration n copies the oldest bytes in order and reports n plus the bytes copied. It never fails. It blocks only on an empty pipe with both ends open. It completes short of size only when the reader end is closed, or when the pipe is drained and the writer end is closed. |
| Pipes.ReadWokenOutcome | kernel_pipe.c:40-67 | The same guarantees for a reader resuming at the guard of its wait loop: the oldest bytes in order, n plus the bytes copied, blocking only on an empty open pipe, and completing short of size only on a closed reader end or on a drained pipe whose writer is closed. |
| Pipes.PipeWrite | kernel_pipe.c:111-158 | Fails exactly when either end is closed, and then changes nothing. When done, all of src is appended in order. When blocked, the buffer is full and holds the old contents plus the first count bytes of src. A count of at most BUFFER_SIZE is preserved. |
| Pipes.WriteFrom | kernel_pipe.c:124-153 | The write loop from iteration n. It appends src[n..count] in order and keeps the flags. With bytes left to write, it fails exactly when the reader end is closed, and then changes nothing. It stops short only if the writer end is closed, and blocks only on a full buffer. |
| Pipes.WriteFromFits | kernel_pipe.c:124-157 | On an open pipe with room for the rest of src, the write stores all of it and does not block. |
| Pipes.ReadFromEnough | kernel_pipe.c:31-73 | On an open pipe holding at least the remaining requested bytes, the read copies exactly the oldest ones and leaves the rest. |
| Pipes.WriteThenReadRoundTrip | kernel_pipe.c:58-151 | Writing S with \|S\| ≤ BUFFER_SIZE into an empty pipe, then reading \|S\| bytes, returns S in order and leaves the pipe empty. |
| Pipes.PhantomByte | kernel_pipe.c:31-67 | As written, a reader woken on an empty pipe whose writer has closed reports n+1 bytes while copying none. |
| Pipes.ResumedReadCountsCopiedBytes | kernel_pipe.c:54-67 | The corrected re-entry always reports exactly the number of bytes it copied. |
| Pipes.PipeBlock.Init | kernel_pipe.h:3-24 | Establishes the PIPCB invariant: both cursors in [0, BUFFER_SIZE), 0 ≤ count ≤ BUFFER_SIZE, count = number of buffered bytes, the write cursor = the read cursor + count mod BUFFER_SIZE. The block is empty with both ends open and both cursors at 0. |
| Pipes.PipeBlock.TakeByte | kernel_pipe.c:58-67 | Consuming a byte returns the oldest buffered byte, removes it, advances the read cursor with wrap-around and keeps the invariant. |
| Pipes.PipeBlock.PutByte | kernel_pipe.c:145-151 | Storing a byte appends it at the back of the contents and keeps the invariant, in particular count ≤ BUFFER_SIZE. |
| Pipes.PipeBlock.ReadIteration | kernel_pipe.c:40-67 | One iteration of the read loop on the array agrees with the re-entry specification. |
| Pipes.PipeBlock.ReadLoop | kernel_pipe.c:31-73 | The for loop of pipe_read on the array agrees with the loop specification (loop invariant against a ghost goal). |
| Pipes.PipeBlock.Read | kernel_pipe.c:14-75 | pipe_read on the array: outcome, bytes and new view equal PipeRead of the old view. |
| Pipes.PipeBlock.ResumeRead | kernel_pipe.c:40-73 | A woken reader on the array agrees with the corrected re-entry specification. |
| Pipes.PipeBlock.WriteLoop | kernel_pipe.c:124-157 | The for loop of pipe_write on the array agrees with WriteFrom. |
| Pipes.PipeBlock.Write | kernel_pipe.c:111-158 | pipe_write on the array: outcome and new view equal PipeWrite of the old view. |
| Pipes.PipeBlock.ResumeWrite | kernel_pipe.c:128-157 | A woken writer continues as WriteFrom from its iteration. |
| Pipes.PipeBlock.ReaderClose | kernel_pipe.c:85-105 | Returns 0. Sets only the reader flag. A second call changes nothing. The block is released exactly when this close finds the writer already closed. |
| Pipes.PipeBlock.WriterClose | kernel_pipe.c:169-189 | The mirror image for the writer end. |
| Pipes.WriterEndRead | kernel_pipe.c:164-166 | Reading from the writer end always returns -1. |
| Pipes.ReaderEndWrite | kernel_pipe.c:81-83 | Writing to the reader end always returns -1. |
| Pipes.SysPipe | kernel_pipe.c:239-274 | Returns -1 exactly when two descriptors cannot be reserved, and then creates nothing. Otherwise the read end is the first fid and the write end the second, both sharing one fresh, empty, open block that records the two FCBs. |
| Processes.GetPcb | kernel_proc.c:22-25 | NULL exactly for a FREE slot; otherwise the slot itself. |
| Processes.GetPid | kernel_proc.h:108-118 | NOPROC exactly for NULL; otherwise the slot's index. |
| Processes.Acquire | kernel_proc.c:94-106 | NULL with no change exactly when the free list is empty. Otherwise it returns the head of the free list, marks it ALIVE, makes its link the new head and raises process_count; no other slot changes. |
| Processes.Release | kernel_proc.c:111-117 | The slot becomes the head of the free list and process_count drops by one. |
| Processes.AcquireReleaseRoundTrip | kernel_proc.c:94-117 | acquire_PCB pops the head of the free list, and release_PCB of that slot restores the table exactly. |
| Processes.AdjustRefsCounts | kernel_proc.c:170-174 | Adjusting the references of a descriptor table moves each FCB's count by d once per slot that points to it. |
| Processes.InitialSlots | kernel_proc.c:67-83 | After start-up every slot is FREE with empty lists and NULL descriptors, and slot p links to p+1, the last one to NULL. |
| Processes.Exec | kernel_proc.c:146-204 | NOPROC with no change exactly when the free list is empty. Otherwise it returns the head of the free list, ALIVE and running the given task. The next free slot becomes the head and process_count rises by one. |
| Processes.Cleanup | kernel_proc.c:220-229 | Hands back exitval when a status is wanted. The parent's children and exited lists lose exactly the zombie. The zombie's slot becomes FREE at the head of the free list, and process_count drops by one. Every other slot and the FCB references are unchanged. |
| Processes.WaitSpecific | kernel_proc.c:232-257 | NOPROC with no change exactly when the pid is out of range, FREE, or not a child of the caller. Blocks with no change exactly when the child is ALIVE. Otherwise it reaps that zombie with its exitval. The caller's two lists lose exactly that pid, its slot heads the free list, and process_count drops by one. No other slot and no FCB reference changes. |
| Processes.WaitAny | kernel_proc.c:260-283 | NOPROC with no change exactly when the caller has no children. Blocks with no change exactly when it has children but none exited. Otherwise it reaps the head of the exited list, which heads the free list, and process_count drops by one. When that child names the caller as parent, the caller's two lists lose exactly that pid. Only the child's slot and its parent's change, and no FCB reference changes. |
| Processes.WaitChild | kernel_proc.c:286-297 | NOPROC with no change exactly when the caller has no children (for NOPROC) or the pid is not a child of the caller. Blocks with no change exactly when no child has exited (for NOPROC) or the child is ALIVE. A specific wait reaps only the pid asked for. |
| Processes.Reparent | kernel_proc.c:326-331 | The reparenting loop ends with the exiting process having no children. |
| Processes.ReparentStep | kernel_proc.c:327-331 | One turn of the reparenting loop removes the head of cur's children. |
| Processes.Exit | kernel_proc.c:308-366 | The process becomes a ZOMBIE holding exitval, without a main thread. The free list and process_count are unchanged. Each FCB loses one reference per descriptor slot that held it. |
| ProcessLemmas.ExecEffect | kernel_proc.c:146-204 | sys_Exec returns NOPROC exactly when the free list is empty, and then changes nothing. Otherwise it returns the head of the free list, now ALIVE with empty children and exited lists, and process_count rises by one. Pids 0 and 1 get no parent, and no other slot changes. Any other pid gets the caller as parent and inherits every descriptor, each FCB's count rising once per slot. The caller's slot changes only by gaining the child at the front of its children, and no third slot changes. main_task, argl and a private copy of the arguments are set. The main thread is set when a task is given. |
| ProcessLemmas.ExecPreservesInv | kernel_proc.c:146-204 | sys_Exec keeps the table invariant, with the free list losing its head. |
| ProcessLemmas.CleanupPreservesInv | kernel_proc.c:220-229 | Reaping a zombie keeps the invariant, with the zombie pushed onto the free list. |
| ProcessLemmas.FamilyAfterReap | kernel_proc.c:225-228 | Unlinking a zombie and freeing its slot keeps every child, exited and parent link consistent. |
| ProcessLemmas.FreeChainAfterRelease | kernel_proc.c:111-117 | Pushing a slot onto the free list keeps the list well formed: FREE slots, linked by parent, ending in NULL, no repeats, and every FREE slot on it. |
| ProcessLemmas.FreeChainAfterAcquire | kernel_proc.c:94-106 | Popping the head keeps the rest of the free list well formed. |
| ProcessLemmas.FamilyAfterExec | kernel_proc.c:155-166 | Linking a new process under its parent keeps the family links consistent. |
| ProcessLemmas.WaitSpecificPreservesInv | kernel_proc.c:232-257 | Waiting for a specific child keeps the invariant, and a reaped pid goes onto the free list. |
| ProcessLemmas.WaitAnyPreservesInv | kernel_proc.c:260-283 | Waiting for any child keeps the invariant, and a reaped pid goes onto the free list. |
| ProcessLemmas.WaitChildReapsZombieChild | kernel_proc.c:286-297 | Under the table invariant, sys_WaitChild returns NOPROC exactly in the documented invalid cases. A reaped pid was a zombie child of the caller (the one asked for, if any). Its status is its exitval. The caller's slot changes only by losing that pid from both lists. The pid's slot becomes FREE at the head of the free list, and process_count drops by one. No other slot and no FCB reference changes. |
| ProcessLemmas.ReparentEmptiesCur | kernel_proc.c:327-331 | The reparenting loop leaves the exiting process without children. |
| ProcessLemmas.ReparentFillsInit | kernel_proc.c:327-331 | The children end up, in reverse order, at the front of init's children. |
| ProcessLemmas.ReparentMovesChildren | kernel_proc.c:327-331 | Each child's parent becomes init, and every other slot is unchanged. |
| ProcessLemmas.ExitSlots | kernel_proc.c:308-366 | sys_Exit's effect on each slot. The exiting slot becomes a ZOMBIE with its exit value, without args, descriptors, children, exited children or main thread; its ptcb_counter and thread_count drop by one, and its thread blocks are freed when the counter reaches 0. Init gains the children and the exited children. The parent's exited list gets the exiting pid at its front. Every other slot changes at most its parent. |
| ProcessLemmas.ExitedSlotCur | kernel_proc.c:311-366 | The exiting slot's final state, as listed for ExitSlots. |
| ProcessLemmas.ExitedSlotInit | kernel_proc.c:326-338 | Init's final children (reversed children of the exiting process, then its own) and exited list. |
| ProcessLemmas.ExitedSlotParent | kernel_proc.c:340-344 | The parent's final exited list starts with the exiting pid. |
| ProcessLemmas.ExitedSlotOther | kernel_proc.c:326-331 | Any other slot changes at most its parent, which becomes init exactly for a child of the exiting process. |
| ProcessLemmas.FamilyAfterExit | kernel_proc.c:324-351 | The exit's reparenting and splicing keep the family links consistent. |
| ProcessLemmas.ExitPreservesInv | kernel_proc.c:300-369 | sys_Exit keeps the table invariant with the free list unchanged. |
| ProcessLemmas.ExitEffect | kernel_proc.c:311-351 | After sys_Exit the process is a ZOMBIE holding exitval, with NULL descriptors and no args, children or main thread. Its pid heads its parent's exited list. Its children and exited children belong to init. Each FCB's count drops once per descriptor slot that held it. The free list and process_count are unchanged. |
| ProcessLemmas.ExitThenWait | kernel_proc.c:340-344 | After a child exits, both WaitChild(ANY) and WaitChild(child) by its parent reap it at once, with its exit value. |
| ProcessLemmas.InitialTableInv | kernel_proc.c:67-83 | The table start-up builds satisfies the invariant, with the free list 0, 1, ..., MAX_PROC-1. |
| ProcessLemmas.FirstExecIsIdle | kernel_proc.c:85-87 | The Exec at the end of start-up yields pid 0, ALIVE, without a parent or main thread, and leaves pid 1 at the head of the free list. |
| ProcessLemmas.ExecCreatesInit | kernel_proc.c:155-158 | With pid 1 at the head of the free list, Exec creates init: pid 1, no parent, running the given task on its main thread. |
| ProcessLemmas.StructureKeepsInv | kernel_proc.h:38-70 | Changing only fields the invariant does not constrain (thread blocks, counters, arguments) keeps the table invariant. |
| ProcTable.ProcessTable.constructor | kernel_proc.c:67-88 | initialize_processes leaves a valid table equal to the specification's first Exec on the start-up table. Pid 0 is ALIVE with no parent, the free list starts at 1, and process_count is 1. |
| ProcTable.ProcessTable.ResetPcbs | kernel_proc.c:70-72 | The first start-up loop applies initialize_PCB to every slot. |
| ProcTable.InitializePcb | kernel_proc.c:39-62 | The slot becomes FREE with argl 0, NULL args, NULL descriptors, empty lists and zero counters. The parent link, exit value, main task and main thread are kept. On a zero-filled slot the result is the start-up PCB with the same link. |
| ProcTable.ProcessTable.BuildFreeList | kernel_proc.c:75-81 | The second start-up loop threads the free list 0, 1, ..., MAX_PROC-1 through the parent fields. |
| ProcTable.CopyFidt | kernel_proc.c:170-174 | The sys_Exec descriptor loop ends with the child's table equal to the parent's, and each FCB's count raised once per slot that holds it. |
| ProcTable.ClearFidt | kernel_proc.c:317-322 | The sys_Exit descriptor loop ends with every slot NULL, and each FCB's count lowered once per slot that held it. |
| ProcTable.ProcessTable.BuildTable | kernel_proc.c:67-83 | The two start-up loops, over the zero-filled table, leave exactly the start-up table, and it is valid. |
| ProcTable.ProcessTable.AcquirePcb | kernel_proc.c:94-106 | acquire_PCB on the array equals Acquire on the snapshot. |
| ProcTable.ProcessTable.ReleasePcb | kernel_proc.c:111-117 | release_PCB on the array equals Release on the snapshot. |
| ProcTable.ProcessTable.InheritFiles | kernel_proc.c:170-174 | The FIDT copy loop gives the child the parent's table and adds one reference per non-NULL slot. |
| ProcTable.ProcessTable.DropFiles | kernel_proc.c:317-322 | The FIDT cleanup loop NULLs every slot and drops one reference per non-NULL slot. |
| ProcTable.ProcessTable.ReparentChildren | kernel_proc.c:326-331 | The reparenting loop on the array equals Reparent on the slots. |
| ProcTable.ProcessTable.FreeThreadBlocks | kernel_proc.c:358-363 | The PTCB sweep empties the process's thread-block list and touches nothing else. |
| ProcTable.ProcessTable.CleanupZombie | kernel_proc.c:220-229 | cleanup_zombie on the array equals Cleanup on the snapshot. |
| ProcTable.ProcessTable.Exec | kernel_proc.c:146-204 | sys_Exec on the array equals Exec on the snapshot, keeps the invariant, and drops the head of the free list. |
| ProcTable.ProcessTable.ExecSteps | kernel_proc.c:150-201 | The body of sys_Exec on the array equals Exec on the snapshot. |
| ProcTable.ProcessTable.LinkChild | kernel_proc.c:161-175 | For a pid above 1 the caller becomes the parent and gains the child at the front of its children. The child shares the caller's descriptors, with the references counted. |
| ProcTable.ProcessTable.SetMain | kernel_proc.c:179-199 | Sets main_task and argl, and a copy of the first argl argument bytes (NULL for NULL). With a task, ptcb_counter rises by one and the main thread is set. |
| ProcTable.ProcessTable.WaitSpecific | kernel_proc.c:232-257 | wait_for_specific_child on the array equals WaitSpecific on the snapshot and keeps the invariant. |
| ProcTable.ProcessTable.WaitSpecificSteps | kernel_proc.c:236-256 | The body of wait_for_specific_child on the array. |
| ProcTable.ProcessTable.WaitAny | kernel_proc.c:260-283 | wait_for_any_child on the array equals WaitAny on the snapshot and keeps the invariant. |
| ProcTable.ProcessTable.WaitAnySteps | kernel_proc.c:264-282 | The body of wait_for_any_child on the array. |
| ProcTable.ProcessTable.WaitChild | kernel_proc.c:286-297 | sys_WaitChild on the array equals WaitChild on the snapshot. |
| ProcTable.ProcessTable.Exit | kernel_proc.c:300-369 | sys_Exit on the array equals Exit on the snapshot and keeps the invariant. |
| ProcTable.ProcessTable.ExitSteps | kernel_proc.c:308-366 | The body of sys_Exit, step by step, equals the composition of the exit stages. |
| ProcTable.ProcessTable.DetachChildren | kernel_proc.c:311-331 | The first half of sys_Exit releases args and descriptors, then hands the children to init. The process keeps its parent. |
| ProcTable.ProcessTable.ReleaseResources | kernel_proc.c:311-322 | The args become NULL, every descriptor slot becomes NULL, and each FCB loses one reference per slot. |
| ProcTable.ProcessTable.Bury | kernel_proc.c:335-366 | The second half of sys_Exit is the composition of hand-over, parent notification and zombie marking. |
| ProcTable.ProcessTable.SpliceExited | kernel_proc.c:335-338 | The exited list is appended to init's and emptied. |
| ProcTable.ProcessTable.NotifyParent | kernel_proc.c:341-344 | The exiting pid goes to the front of its parent's exited list. |
| ProcTable.ProcessTable.MarkZombie | kernel_proc.c:347-366 | The process becomes a ZOMBIE with its exit value. Its counters drop by one, and its thread blocks are freed when ptcb_counter reaches 0. |
| SystemInfo.InfoArgs | kernel_proc.c:402-407 | A record carries at most PROCINFO_MAX_ARGS_SIZE argument bytes, namely the first min(argl, PROCINFO_MAX_ARGS_SIZE). |
| SystemInfo.InfoOf | kernel_proc.c:385-400 | The record of slot p holds pid p, its parent's pid, alive exactly for ALIVE, thread_count, main_task and argl. |
| SystemInfo.NextListed | kernel_proc.c:379-424 | The scan stops at the first ALIVE or ZOMBIE slot at or after the cursor, with every slot skipped FREE, or at MAX_PROC if there is none. |
| SystemInfo.ListingIsListed | kernel_proc.c:379-428 | Reading the stream to the end from cursor c reports exactly the ALIVE and ZOMBIE slots at or after c. |
| SystemInfo.ListingAscending | kernel_proc.c:379-428 | It reports them in increasing pid order, so none twice. |
| SystemInfo.InfoStream.Read | kernel_proc.c:374-429 | pcinfocb_read produces the record of the next listed slot, steps the cursor past it and returns size. At the end of the table it returns 0 with the cursor at MAX_PROC. |
| SystemInfo.OpenInfo | kernel_proc.c:450-473 | NOFILE exactly when no descriptor can be reserved. Otherwise the reserved fid, with a fresh stream at cursor 0. |
| Threads.ThreadPtcbSize | kernel_threads.c:8 | The PTCB size rounded up is a multiple of the page size, at least the size and less than one page more. |
| Threads.PtcbSizeIsLeast | kernel_threads.c:8 | No smaller multiple of the page size holds the PTCB. |
| Threads.GetTid | kernel_threads.c:57-60 | NOTHREAD exactly for NULL; otherwise the control block itself. |
| Threads.NewPtcb | kernel_threads.c:84-101 | The PTCB names the caller as owner and holds the task, argl and args. It has refCount 0 and is neither detached nor exited. Its thread is the spawned one, and its tid is that thread's, never NOTHREAD. |
| Threads.CreateThread | kernel_threads.c:76-105 | Appends a PTCB (refCount 0, not detached, not exited, owner the caller, the given task/argl/args, the spawned thread and its tid) at the back of the caller's list. Earlier entries and both counters are unchanged and the invariant is kept. Returns the new thread's tid, which is never NOTHREAD. |
| Threads.ThreadJoin | kernel_threads.c:118-121 | Always -1. |
| Threads.ThreadDetach | kernel_threads.c:126-129 | Always -1. |
| Threads.ThreadExit | kernel_threads.c:134-137 | Changes nothing. |
| Sockets.NewSocket | kernel_socket.c:35-62 | A socket is created exactly when 0 < port ≤ MAX_PORT and a descriptor is reserved. It is UNBOUND with ref_count 0 and records the port, fid and FCB. |
| Sockets.SocketLayer.Socket | kernel_socket.c:24-63 | sys_Socket returns NOFILE exactly when no socket is created, and otherwise the socket's fid. socket_counter rises by one exactly on success. The port map is reset exactly when socket_counter was 0, even if the call then fails. |
| Sockets.SocketLayer.constructor | kernel_socket.c:11 | socket_counter starts at 0. |
| Sockets.Listen | kernel_socket.c:68-71 | Always -1. |
| Sockets.Accept | kernel_socket.c:74-77 | Always NOFILE. |
| Sockets.Connect | kernel_socket.c:80-83 | Always -1. |
| Sockets.ShutDown | kernel_socket.c:86-89 | Always -1. |

## Left out

- Condition variables, `kernel_wait`, `kernel_broadcast` and `kernel_sleep` are scheduler concurrency. A wait is an explicit outcome (`Blocked(n)`, `WouldBlock`) plus a resume entry point. Who is woken, and when, is not modelled.
- Which condition the closes broadcast is not modelled. `pipe_writer_close` broadcasts `fullCase`, where writers wait, while readers wait on `emptyCase`. `pipe_reader_close` does the opposite. So a blocked reader is not woken by the writer's close, nor a blocked writer by the reader's close. This is a wakeup issue outside the model.
- Processes.Exit: the pid-1 loop `while(sys_WaitChild(NOPROC,NULL)!=NOPROC)` (kernel_proc.c:304-306) is replaced by the precondition that pid 1 has no children left, because it is a sequence of blocking waits.
- Processes.Exit and Processes.Exec require the calling process to be ALIVE (`ExitCallable`, and `ExecCallable` for pids above 1). The source does not guarantee this. `start_thread` (kernel_threads.c:66-71) calls `Exit` whenever a thread made by `sys_CreateThread` returns. So `sys_Exit` or `sys_Exec` can run for a process that is already a ZOMBIE, or even FREE. A second `sys_Exit` would push `exited_node` onto the parent's exited list again (kernel_proc.c:341-344). The model does not capture calls made after the process has exited. `ExitCallable` also requires init (pid 1) to be ALIVE when the caller has children: `get_pcb(1)` (kernel_proc.c:326) would be NULL for a FREE init, and that state is reachable only through such post-exit calls.
- ProcTable.ProcessTable.Exit: the same precondition replaces the pid-1 wait loop, and `kernel_sleep` at the end is not modelled.
- ProcTable.ProcessTable.WaitSpecific: a wait that blocks returns `WouldBlock`. The woken wait is a new call, so the model re-validates where the C loop at kernel_proc.c:250-251 does not re-check the child's parent.
- The scheduler collaborators are parameters: `CURPROC` (`cur`) and the handle `spawn_thread` returns (`thread`). `wakeup`, `sys_GetPid`, `sys_GetPPid` and `sys_ThreadSelf` are reads of the scheduler's state and are not modelled.
- `FCB_reserve`, `FCB_incref`, `FCB_decref`, `initialize_port_map` and `PORT_MAP` are not part of this model. A reservation is a parameter that either succeeds or fails. References are an abstract count map. The port map is a count of resets.
- Memory management is represented abstractly:
  - `malloc`, `xmalloc`, `free`, `aligned_alloc`, `mmap` and `memcpy` are not modelled.
  - Argument buffers are byte sequences.
  - The free of a pipe block is a `released` flag.
  - The thread-block sweep empties a list.
  - Pointer identities (`pcb-PT`, a tid as a TCB address) are indices and opaque handles.
- The SCB allocated in `sys_Socket` before the reservation fails is leaked (kernel_socket.c:38-42). The model does not track that memory.
- SystemInfo.InfoArgs: the byte layout of `memcpy(buf, data, size)` (kernel_proc.c:413) is not modelled; a read returns the record's fields. Where C would copy from a NULL or short buffer, the model yields the bytes that exist. That happens for a zombie (whose args `sys_Exit` freed) or when argl exceeds the buffer.
- Integer widths are not modelled. `ptcb_counter` is `unsigned int`, so decrementing a zero counter wraps around in C; it is an unbounded integer here. The branch on reaching 0 is the same either way, only the stored value differs. `socket_counter`, `process_count` and the pipe counters are also unbounded.
- ProcTable.ProcessTable.constructor: the static `PT` array starts zero-filled in C. The model starts every slot as a FREE slot with NULL links and zero counters before the two loops run.
- PTCB `exitval` and the condition variables inside PCB, PTCB and PIPCB are not modelled, because nothing in the modelled code reads them.
- Socket and pipe `file_ops` tables, and `socket_read`/`socket_write`/`socket_close`, are not modelled: they are only declared or shown as tables. `sys_ThreadJoin`, `sys_ThreadDetach`, `sys_ThreadExit`, `sys_Listen`, `sys_Accept`, `sys_Connect` and `sys_ShutDown` are stubs in this code (kernel_threads.c:118-137, kernel_socket.c:68-89); their constant results are modelled.

## Findings

| source | as written | input that shows it | evidently intended | confidence | as-written member | corrected member |
|---|---|---|---|---|---|---|
| kernel_pipe.c:40-67 | A reader woken with an empty buffer because the writer closed skips the `elementcounter > 0` branch. The `for` loop still increments `bufParser`, and the next iteration returns it, one more than the bytes copied. | A pipe that is empty and open. A reader asking for 2 bytes blocks at iteration 0. A `pipe_write` (even of 0 bytes) broadcasts `emptyCase` at kernel_pipe.c:156, which wakes the reader. The writer end closes before the woken reader runs. The reader then resumes, and the read returns 1 with no byte copied. | Return the number of bytes actually copied (0 here), as the check at the top of each iteration does. | not executed | Pipes.ReadWokenAsWritten, Pipes.PhantomByte | Pipes.ResumedReadCountsCopiedBytes, Pipes.PipeBlock.ResumeRead |
