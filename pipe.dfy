/** The pipe engine (kernel_pipe.h, kernel_pipe.c): a fixed-capacity circular
    byte buffer shared by one reader end and one writer end.

    A call that would reach kernel_wait returns Blocked(n) instead, n being
    the value of the loop counter at that point; ResumeRead and ResumeWrite
    model the same call continuing after it is woken, whatever other calls
    have done to the pipe meanwhile.  The first half of the module specifies
    the calls as functions over the abstract view of a pipe (its buffered
    bytes in FIFO order and its two flags); the class PipeBlock implements
    them over the array and the two cursors and is proved against them. */
module Pipes {
  import opened Kernel

  /** The capacity of every pipe. */
  const BUFFER_SIZE: int := 8192

  /** The outcome of pipe_read or pipe_write. */
  datatype Transfer =
    | Failed              // the call returns -1
    | Done(count: int)    // the call returns count
    | Blocked(count: int) // the call waits, having run count iterations

  /** What a pipe holds: the buffered bytes, oldest first, and the flags. */
  datatype PipeView = PipeView(contents: seq<Byte>, readerClosed: bool, writerClosed: bool)

  /** A read's outcome, the bytes it copied into the caller's buffer and the
      pipe it leaves. */
  datatype ReadStep = ReadStep(result: Transfer, data: seq<Byte>, after: PipeView)

  /** A write's outcome and the pipe it leaves. */
  datatype WriteStep = WriteStep(result: Transfer, after: PipeView)

  function CountOf(t: Transfer): int
  {
    match t
    case Failed => -1
    case Done(c) => c
    case Blocked(c) => c
  }

  function Prefixed(d: seq<Byte>, s: ReadStep): ReadStep
  {
    ReadStep(s.result, d + s.data, s.after)
  }

  lemma PrefixedTwice(d: seq<Byte>, e: seq<Byte>, s: ReadStep)
    ensures Prefixed(d, Prefixed(e, s)) == Prefixed(d + e, s)
  {
    assert d + (e + s.data) == (d + e) + s.data;
  }

  // ---------------------------------------------------------------------
  // Reading

  /** The for loop of pipe_read at the top of the iteration whose counter is n. */
  function ReadFrom(v: PipeView, size: nat, n: nat): (s: ReadStep)
    requires n <= size
    ensures s.result.Done? || s.result.Blocked?
    ensures s.result.Blocked? ==> !v.readerClosed && !v.writerClosed && CountOf(s.result) < size
    decreases size - n, 1
  {
    if n == size then ReadStep(Done(n), [], v)
    else if |v.contents| == 0 && v.writerClosed then ReadStep(Done(n), [], v)
    else ReadWoken(v, size, n)
  }

  /** Iteration n of pipe_read from the guard of its inner wait loop on: the
      point a reader that was woken re-enters. */
  function ReadWoken(v: PipeView, size: nat, n: nat): (s: ReadStep)
    requires n < size
    ensures s.result.Done? || s.result.Blocked?
    ensures s.result.Blocked? ==> !v.readerClosed && !v.writerClosed && CountOf(s.result) < size
    decreases size - n, 0
  {
    if |v.contents| == 0 && !v.readerClosed && !v.writerClosed then ReadStep(Blocked(n), [], v)
    else if v.readerClosed then ReadStep(Done(n), [], v)
    else if |v.contents| > 0 then
      Prefixed([v.contents[0]], ReadFrom(v.(contents := v.contents[1..]), size, n + 1))
    else
      // empty buffer, writer closed: return what was copied (see Findings)
      ReadStep(Done(n), [], v)
  }

  /** What every run of the read loop from iteration n guarantees: the flags
      stay, the bytes copied are the oldest buffered ones in order, the count
      returned is the number of iterations that copied a byte, a reader
      blocks only on an empty pipe with both ends open, and it stops short of
      size only when the reader end is closed or the pipe is drained with
      the writer closed. */
  ghost predicate ReadLoopOutcome(v: PipeView, size: nat, n: nat, s: ReadStep)
  {
    && s.after.readerClosed == v.readerClosed && s.after.writerClosed == v.writerClosed
    && v.contents == s.data + s.after.contents
    && (s.result.Done? || s.result.Blocked?)
    && CountOf(s.result) == n + |s.data| <= size
    && (s.result.Blocked? ==> s.after.contents == [] && !v.readerClosed && !v.writerClosed)
    && (s.result.Done? && CountOf(s.result) < size ==>
          v.readerClosed || (s.after.contents == [] && v.writerClosed))
  }

  lemma {:induction false} ReadFromOutcome(v: PipeView, size: nat, n: nat)
    requires n <= size
    ensures ReadLoopOutcome(v, size, n, ReadFrom(v, size, n))
    decreases size - n, 1
  {
    if n < size && !(|v.contents| == 0 && v.writerClosed) {
      ReadWokenOutcome(v, size, n);
    }
  }

  lemma {:induction false} ReadWokenOutcome(v: PipeView, size: nat, n: nat)
    requires n < size
    ensures ReadLoopOutcome(v, size, n, ReadWoken(v, size, n))
    decreases size - n, 0
  {
    if !v.readerClosed && |v.contents| > 0 {
      var w := v.(contents := v.contents[1..]);
      ReadFromOutcome(w, size, n + 1);
      assert v.contents == [v.contents[0]] + w.contents;
    }
  }

  /** The same re-entry as the code is written: with an empty buffer and the
      writer closed the iteration copies nothing but still counts. */
  function ReadWokenAsWritten(v: PipeView, size: nat, n: nat): (s: ReadStep)
    requires n < size
  {
    if |v.contents| == 0 && !v.readerClosed && v.writerClosed then ReadFrom(v, size, n + 1)
    else ReadWoken(v, size, n)
  }

  /** pipe_read: fails when the reader end is closed, reports end of stream
      on an empty pipe whose writer is closed, and otherwise copies bytes in
      FIFO order until size bytes are copied or it would block. */
  function PipeRead(v: PipeView, size: nat): (s: ReadStep)
    ensures v.readerClosed <==> s.result.Failed?
    ensures s.result.Failed? ==> s.data == [] && s.after == v
    ensures !s.result.Failed? ==> CountOf(s.result) == |s.data| <= size
    ensures s.after.readerClosed == v.readerClosed && s.after.writerClosed == v.writerClosed
    ensures v.contents == s.data + s.after.contents
    ensures s.result.Blocked? ==> s.after.contents == [] && !v.writerClosed
    ensures s.result.Done? && s.result.count < size ==> s.after.contents == [] && v.writerClosed
  {
    if v.readerClosed then ReadStep(Failed, [], v)
    else if |v.contents| == 0 && v.writerClosed then ReadStep(Done(0), [], v)
    else ReadFromOutcome(v, size, 0); ReadFrom(v, size, 0)
  }

  // ---------------------------------------------------------------------
  // Writing

  /** The for loop of pipe_write at the top of the iteration whose counter
      is n; a woken writer re-enters here too, at the guard of the wait loop,
      which for n < |src| is the same point. */
  function WriteFrom(v: PipeView, src: seq<Byte>, n: nat): (s: WriteStep)
    requires n <= |src|
    ensures s.after.readerClosed == v.readerClosed && s.after.writerClosed == v.writerClosed
    ensures s.result.Failed? ==> v.readerClosed && s.after == v
    ensures n < |src| && v.readerClosed ==> s.result.Failed?
    ensures !s.result.Failed? ==>
      n <= CountOf(s.result) <= |src| &&
      s.after.contents == v.contents + src[n..CountOf(s.result)]
    ensures s.result.Done? && CountOf(s.result) < |src| ==> v.writerClosed
    ensures s.result.Blocked? ==>
      CountOf(s.result) < |src| && |s.after.contents| == BUFFER_SIZE && !v.readerClosed
    ensures |v.contents| <= BUFFER_SIZE ==> |s.after.contents| <= BUFFER_SIZE
    decreases |src| - n
  {
    if n == |src| then WriteStep(Done(n), v)
    else if |v.contents| == BUFFER_SIZE && !v.readerClosed then WriteStep(Blocked(n), v)
    else if v.readerClosed then WriteStep(Failed, v)
    else if v.writerClosed then WriteStep(Done(n), v)
    else
      var s := WriteFrom(v.(contents := v.contents + [src[n]]), src, n + 1);
      assert v.contents + [src[n]] + src[n + 1..CountOf(s.result)] == v.contents + src[n..CountOf(s.result)]
        by { if !s.result.Failed? { assert src[n..CountOf(s.result)] == [src[n]] + src[n + 1..CountOf(s.result)]; } }
      s
  }

  /** pipe_write: fails before copying anything when either end is closed,
      and otherwise appends the bytes of src in order until all are stored or
      the buffer is full. */
  function PipeWrite(v: PipeView, src: seq<Byte>): (s: WriteStep)
    ensures s.result.Failed? <==> v.readerClosed || v.writerClosed
    ensures s.result.Failed? ==> s.after == v
    ensures s.result.Done? ==> s.result.count == |src| && s.after.contents == v.contents + src
    ensures s.result.Blocked? ==>
      0 <= s.result.count < |src| && |s.after.contents| == BUFFER_SIZE &&
      s.after.contents == v.contents + src[..s.result.count]
    ensures s.after.readerClosed == v.readerClosed && s.after.writerClosed == v.writerClosed
    ensures |v.contents| <= BUFFER_SIZE ==> |s.after.contents| <= BUFFER_SIZE
  {
    if v.writerClosed || v.readerClosed then WriteStep(Failed, v)
    else WriteFrom(v, src, 0)
  }

  // ---------------------------------------------------------------------
  // Properties

  /** A write into an open pipe with room for the rest of src stores all of
      it without blocking. */
  lemma {:induction false} WriteFromFits(v: PipeView, src: seq<Byte>, n: nat)
    requires n <= |src| && !v.readerClosed && !v.writerClosed
    requires |v.contents| + (|src| - n) <= BUFFER_SIZE
    ensures WriteFrom(v, src, n) == WriteStep(Done(|src|), v.(contents := v.contents + src[n..]))
    decreases |src| - n
  {
    if n < |src| {
      WriteFromFits(v.(contents := v.contents + [src[n]]), src, n + 1);
      assert v.contents + [src[n]] + src[n + 1..] == v.contents + src[n..];
    }
  }

  /** A read on an open pipe that holds at least the requested bytes copies
      exactly the oldest ones. */
  lemma {:induction false} ReadFromEnough(v: PipeView, size: nat, n: nat)
    requires n <= size && !v.readerClosed && !v.writerClosed
    requires |v.contents| >= size - n
    ensures ReadFrom(v, size, n) ==
      ReadStep(Done(size), v.contents[..size - n], v.(contents := v.contents[size - n..]))
    decreases size - n
  {
    if n < size {
      var w := v.(contents := v.contents[1..]);
      ReadFromEnough(w, size, n + 1);
      assert [v.contents[0]] + w.contents[..size - (n + 1)] == v.contents[..size - n];
      assert w.contents[size - (n + 1)..] == v.contents[size - n..];
    }
  }

  /** Round trip: a sequence that fits into an empty pipe comes out of it
      unchanged and in order, and the pipe is empty again. */
  lemma WriteThenReadRoundTrip(src: seq<Byte>)
    requires |src| <= BUFFER_SIZE
    ensures var w := PipeWrite(PipeView([], false, false), src);
            var r := PipeRead(w.after, |src|);
            w.result == Done(|src|) && r.result == Done(|src|) && r.data == src &&
            r.after == PipeView([], false, false)
  {
    var v := PipeView([], false, false);
    WriteFromFits(v, src, 0);
    assert [] + src[0..] == src;
    var u := PipeView(src, false, false);
    if |src| > 0 {
      ReadFromEnough(u, |src|, 0);
      assert src[..|src|] == src;
    }
  }

  /** Finding: a reader woken with an empty buffer and the writer closed
      reports one byte more than it copied. */
  lemma PhantomByte(size: nat, n: nat)
    requires n < size
    ensures var s := ReadWokenAsWritten(PipeView([], false, true), size, n);
            s.result == Done(n + 1) && s.data == []
  {
  }

  /** The corrected re-entry never reports more bytes than it copied. */
  lemma ResumedReadCountsCopiedBytes(v: PipeView, size: nat, n: nat)
    requires n < size
    ensures CountOf(ReadWoken(v, size, n).result) == n + |ReadWoken(v, size, n).data|
  {
    ReadWokenOutcome(v, size, n);
  }

  // ---------------------------------------------------------------------
  // The implementation

  /** Distinct offsets below the capacity land on distinct buffer slots. */
  lemma SlotsDistinct(a: int, i: int, j: int)
    requires 0 <= i < j < BUFFER_SIZE
    ensures (a + i) % BUFFER_SIZE != (a + j) % BUFFER_SIZE
  {
  }

  /** A cursor's pre-increment with wrap-around. */
  function Advance(p: int): int
  {
    if p + 1 >= BUFFER_SIZE then 0 else p + 1
  }

  /** Offsets from an advanced cursor are offsets from the old one, plus one. */
  lemma AdvanceShifts(p: int, k: int)
    requires 0 <= p < BUFFER_SIZE
    ensures (Advance(p) + k) % BUFFER_SIZE == (p + 1 + k) % BUFFER_SIZE
  {
  }

  /** The pipe control block (PIPCB).  The ghost field contents is the
      buffered bytes, oldest first; released stands for the free of the
      block by the second close. */
  class PipeBlock {
    var buffer: array<Byte>
    var readerPos: int
    var writerPos: int
    const readerFcb: FcbId
    const writerFcb: FcbId
    var readerClosed: bool
    var writerClosed: bool
    var elementCount: int
    var released: bool
    ghost var contents: seq<Byte>

    /** Both cursors are indices into the buffer; the count tells an empty
        buffer from a full one; the bytes after the read cursor are the
        contents and the write cursor sits on the newest of them. */
    ghost predicate Valid()
      reads this, buffer
    {
      && buffer.Length == BUFFER_SIZE
      && 0 <= readerPos < BUFFER_SIZE
      && 0 <= writerPos < BUFFER_SIZE
      && 0 <= elementCount <= BUFFER_SIZE
      && |contents| == elementCount
      && writerPos == (readerPos + elementCount) % BUFFER_SIZE
      && (forall i :: 0 <= i < elementCount ==> contents[i] == buffer[(readerPos + 1 + i) % BUFFER_SIZE])
      && (released <==> readerClosed && writerClosed)
    }

    ghost function View(): PipeView
      reads this
    {
      PipeView(contents, readerClosed, writerClosed)
    }

    /** pipe_Init: an empty pipe, both ends open, both cursors at 0. */
    constructor Init(readerFcb: FcbId, writerFcb: FcbId)
      ensures Valid() && fresh(buffer)
      ensures View() == PipeView([], false, false)
      ensures readerPos == 0 && writerPos == 0 && !released
      ensures this.readerFcb == readerFcb && this.writerFcb == writerFcb
    {
      buffer := new Byte[BUFFER_SIZE];
      readerPos, writerPos := 0, 0;
      readerClosed, writerClosed := false, false;
      elementCount := 0;
      released := false;
      this.readerFcb, this.writerFcb := readerFcb, writerFcb;
      contents := [];
    }

    /** The consuming step of pipe_read: pre-increment the read cursor with
        wrap-around, take the byte under it, decrement the count. */
    method TakeByte() returns (b: Byte)
      requires Valid() && elementCount > 0
      modifies this`readerPos, this`elementCount, this`contents
      ensures Valid() && readerClosed == old(readerClosed) && writerClosed == old(writerClosed)
      ensures b == old(contents)[0] && contents == old(contents)[1..]
    {
      ghost var old_ := contents;
      ghost var p0 := readerPos;
      readerPos := Advance(readerPos);
      b := buffer[readerPos];
      AdvanceShifts(p0, 0);
      elementCount := elementCount - 1;
      contents := contents[1..];
      AdvanceShifts(p0, elementCount);
      forall i | 0 <= i < elementCount
        ensures contents[i] == buffer[(readerPos + 1 + i) % BUFFER_SIZE]
      {
        assert contents[i] == old_[i + 1];
        AdvanceShifts(p0, i + 1);
      }
    }

    /** The storing step of pipe_write: pre-increment the write cursor with
        wrap-around, store the byte under it, increment the count. */
    method PutByte(b: Byte)
      requires Valid() && elementCount < BUFFER_SIZE
      modifies this`writerPos, this`elementCount, this`contents, buffer
      ensures Valid() && readerClosed == old(readerClosed) && writerClosed == old(writerClosed)
      ensures contents == old(contents) + [b]
    {
      var count := elementCount;
      AdvanceShifts(writerPos, 0);
      writerPos := Advance(writerPos);
      assert writerPos == (readerPos + 1 + count) % BUFFER_SIZE;
      buffer[writerPos] := b;
      elementCount := count + 1;
      contents := contents + [b];
      forall i | 0 <= i < elementCount
        ensures contents[i] == buffer[(readerPos + 1 + i) % BUFFER_SIZE]
      {
        if i < count {
          SlotsDistinct(readerPos + 1, i, count);
        }
      }
    }

    /** One iteration of pipe_read from the guard of its wait loop on.  When
        stop is Some the call returns that outcome; otherwise one byte was
        copied and the loop goes on with the next iteration. */
    method ReadIteration(size: nat, n: nat) returns (stop: Option<Transfer>, got: seq<Byte>)
      requires Valid() && n < size
      modifies this`readerPos, this`elementCount, this`contents
      ensures Valid() && readerClosed == old(readerClosed) && writerClosed == old(writerClosed)
      ensures stop.Some? ==> ReadStep(stop.value, got, View()) == ReadWoken(old(View()), size, n)
      ensures stop.None? ==> ReadWoken(old(View()), size, n) == Prefixed(got, ReadFrom(View(), size, n + 1))
    {
      if elementCount == 0 && !readerClosed && !writerClosed {
        return Some(Blocked(n)), [];
      }
      if readerClosed {
        return Some(Done(n)), [];
      }
      if elementCount > 0 {
        var b := TakeByte();
        return None, [b];
      }
      return Some(Done(n)), [];
    }

    /** The for loop of pipe_read from the top of iteration start on. */
    method ReadLoop(size: nat, start: nat) returns (r: Transfer, data: seq<Byte>)
      requires Valid() && start <= size
      modifies this`readerPos, this`elementCount, this`contents
      ensures Valid()
      ensures ReadStep(r, data, View()) == ReadFrom(old(View()), size, start)
    {
      ghost var goal := ReadFrom(View(), size, start);
      var n := start;
      data := [];
      while n < size
        invariant Valid() && start <= n <= size
        invariant readerClosed == old(readerClosed) && writerClosed == old(writerClosed)
        invariant goal == Prefixed(data, ReadFrom(View(), size, n))
        decreases size - n
      {
        ghost var v := View();
        if elementCount == 0 && writerClosed {
          assert ReadFrom(v, size, n) == ReadStep(Done(n), [], v);
          return Done(n), data;
        }
        assert ReadFrom(v, size, n) == ReadWoken(v, size, n);
        var stop, got := ReadIteration(size, n);
        if stop.Some? {
          assert goal == Prefixed(data, ReadStep(stop.value, got, View()));
          return stop.value, data + got;
        }
        ghost var rest := ReadFrom(View(), size, n + 1);
        assert goal == Prefixed(data, Prefixed(got, rest));
        PrefixedTwice(data, got, rest);
        data := data + got;
        n := n + 1;
      }
      r := Done(n);
    }

    /** pipe_read. */
    method Read(size: nat) returns (r: Transfer, data: seq<Byte>)
      requires Valid()
      modifies this`readerPos, this`elementCount, this`contents
      ensures Valid()
      ensures ReadStep(r, data, View()) == PipeRead(old(View()), size)
    {
      if readerClosed {
        return Failed, [];
      }
      if elementCount == 0 && writerClosed {
        return Done(0), [];
      }
      r, data := ReadLoop(size, 0);
    }

    /** pipe_read resuming after its wait in the iteration whose counter is n. */
    method ResumeRead(size: nat, n: nat) returns (r: Transfer, data: seq<Byte>)
      requires Valid() && n < size
      modifies this`readerPos, this`elementCount, this`contents
      ensures Valid()
      ensures ReadStep(r, data, View()) == ReadWoken(old(View()), size, n)
    {
      var stop, got := ReadIteration(size, n);
      if stop.Some? {
        return stop.value, got;
      }
      var rest;
      r, rest := ReadLoop(size, n + 1);
      data := got + rest;
    }

    /** The for loop of pipe_write from iteration start on. */
    method WriteLoop(src: seq<Byte>, start: nat) returns (r: Transfer)
      requires Valid() && start <= |src|
      modifies this`writerPos, this`elementCount, this`contents, buffer
      ensures Valid()
      ensures WriteStep(r, View()) == WriteFrom(old(View()), src, start)
    {
      ghost var goal := WriteFrom(View(), src, start);
      var n := start;
      while n < |src|
        invariant Valid() && start <= n <= |src|
        invariant readerClosed == old(readerClosed) && writerClosed == old(writerClosed)
        invariant goal == WriteFrom(View(), src, n)
        decreases |src| - n
      {
        if elementCount == BUFFER_SIZE && !readerClosed {
          return Blocked(n);
        }
        if readerClosed {
          return Failed;
        }
        if writerClosed {
          return Done(n);
        }
        PutByte(src[n]);
        n := n + 1;
      }
      r := Done(n);
    }

    /** pipe_write. */
    method Write(src: seq<Byte>) returns (r: Transfer)
      requires Valid()
      modifies this`writerPos, this`elementCount, this`contents, buffer
      ensures Valid()
      ensures WriteStep(r, View()) == PipeWrite(old(View()), src)
    {
      if writerClosed || readerClosed {
        return Failed;
      }
      r := WriteLoop(src, 0);
    }

    /** pipe_write resuming after its wait in the iteration whose counter is n. */
    method ResumeWrite(src: seq<Byte>, n: nat) returns (r: Transfer)
      requires Valid() && n < |src|
      modifies this`writerPos, this`elementCount, this`contents, buffer
      ensures Valid()
      ensures WriteStep(r, View()) == WriteFrom(old(View()), src, n)
    {
      r := WriteLoop(src, n);
    }

    /** pipe_reader_close: sets only the reader flag, a second call changes
        nothing, and the block is released by the close that finds the
        writer already closed. */
    method ReaderClose() returns (r: int)
      requires Valid()
      modifies this`readerClosed, this`released
      ensures Valid() && r == 0
      ensures readerClosed && writerClosed == old(writerClosed)
      ensures old(readerClosed) ==> released == old(released)
      ensures released && !old(released) <==> !old(readerClosed) && writerClosed
    {
      if readerClosed {
        return 0;
      }
      readerClosed := true;
      if writerClosed {
        released := true;
      }
      r := 0;
    }

    /** pipe_writer_close: the mirror image of ReaderClose. */
    method WriterClose() returns (r: int)
      requires Valid()
      modifies this`writerClosed, this`released
      ensures Valid() && r == 0
      ensures writerClosed && readerClosed == old(readerClosed)
      ensures old(writerClosed) ==> released == old(released)
      ensures released && !old(released) <==> !old(writerClosed) && readerClosed
    {
      if writerClosed {
        return 0;
      }
      writerClosed := true;
      if readerClosed {
        released := true;
      }
      r := 0;
    }
  }

  /** N_pipe_read, the Read entry of the writer end: always fails. */
  function WriterEndRead(size: nat): (r: int)
    ensures r == -1
  {
    -1
  }

  /** N_pipe_write, the Write entry of the reader end: always fails. */
  function ReaderEndWrite(src: seq<Byte>): (r: int)
    ensures r == -1
  {
    -1
  }

  /** The two descriptors sys_Pipe hands back. */
  datatype PipeEnds = PipeEnds(read: Fid, write: Fid)

  /** Two descriptors reserved for a pipe: their fids and FCBs. */
  datatype Reservation = Reservation(fids: (Fid, Fid), fcbs: (FcbId, FcbId))

  /** sys_Pipe.  reserved is the outcome of FCB_reserve(2, ...), which is not
      part of this model.  On failure the result is -1 and the caller's
      pipe_t is untouched (ends is None). */
  method SysPipe(reserved: Option<Reservation>) returns (r: int, ends: Option<PipeEnds>, block: PipeBlock?)
    ensures r == -1 <==> reserved.None?
    ensures r == -1 ==> ends.None? && block == null
    ensures r != -1 ==> r == 0 && block != null && fresh(block) && fresh(block.buffer) && block.Valid()
    ensures r != -1 ==>
      ends == Some(PipeEnds(reserved.value.fids.0, reserved.value.fids.1)) &&
      block.View() == PipeView([], false, false) &&
      block.readerFcb == reserved.value.fcbs.0 && block.writerFcb == reserved.value.fcbs.1
  {
    if reserved.None? {
      return -1, None, null;
    }
    var res := reserved.value;
    block := new PipeBlock.Init(res.fcbs.0, res.fcbs.1);
    ends := Some(PipeEnds(res.fids.0, res.fids.1));
    r := 0;
  }
}
