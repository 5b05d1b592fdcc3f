/** Types and constants shared by the kernel modules.  The constants live in
    the kernel's public header, which is not part of this model; their values
    are those of the tinyos3 distribution. */
module Kernel {

  datatype Option<+T> = None | Some(value: T)

  /** A byte of a stream or an argument buffer. */
  type Byte = bv8

  /** A file id: an index into a process's descriptor table, or NOFILE. */
  type Fid = int

  /** The identity of a file control block (an FCB pointer in the kernel). */
  type FcbId = nat

  /** A process id: an index into the process table, or NOPROC. */
  type Pid = int

  /** The identity of a task (a function pointer in the kernel). */
  type Task = nat

  /** A thread id: the address of a thread control block, or NOTHREAD. */
  type Tid = int

  /** A thread control block as handed out by the scheduler: an opaque,
      non-null handle. */
  type Tcb = t: int | t > 0 witness 1

  const NOPROC: Pid := -1
  const NOTHREAD: Tid := 0
  const NOFILE: Fid := -1
  const MAX_FILEID: nat := 16
  const MAX_PROC: nat := 65536
  const MAX_PORT: int := 1023
  const PROCINFO_MAX_ARGS_SIZE: nat := 128
}
