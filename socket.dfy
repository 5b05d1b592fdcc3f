/** Socket creation of kernel_socket.c.  sys_Socket checks the port, takes
    one descriptor and sets up an unbound socket control block; listen,
    accept, connect and shutdown are stubs in this kernel. */
module Sockets {
  import opened Kernel

  /** The role of a socket.  A new socket is unbound. */
  datatype SockType = Unbound | Listener | Peer

  /** The fields of a socket control block (SCB) that sys_Socket sets. */
  datatype Scb = Scb(refCount: nat, fcb: FcbId, fid: Fid, port: int, sockType: SockType)

  /** A port a socket may be created on: 1 to MAX_PORT. */
  predicate ValidPort(port: int)
  {
    0 < port <= MAX_PORT
  }

  /** The socket sys_Socket creates, given the outcome of FCB_reserve(1, ...):
      none when the port is out of range or no descriptor is left. */
  function NewSocket(port: int, reserved: Option<(Fid, FcbId)>): (r: Option<Scb>)
    ensures r.Some? <==> ValidPort(port) && reserved.Some?
    ensures r.Some? ==> r.value.sockType == Unbound && r.value.refCount == 0 && r.value.port == port
    ensures r.Some? ==> r.value.fid == reserved.value.0 && r.value.fcb == reserved.value.1
  {
    if ValidPort(port) && reserved.Some? then Some(Scb(0, reserved.value.1, reserved.value.0, port, Unbound))
    else None
  }

  /** The global state of the socket layer: socket_counter, and how many
      times the port map has been initialised (initialize_port_map and
      PORT_MAP are not part of this model). */
  class SocketLayer {
    var socketCounter: int
    var portMapInits: nat

    constructor ()
      ensures socketCounter == 0 && portMapInits == 0
    {
      socketCounter := 0;
      portMapInits := 0;
    }

    /** sys_Socket.  reserved is the outcome of FCB_reserve(1, ...), which
        is asked only for a valid port.  The port map is reset whenever no
        socket has been created yet, even when the call then fails. */
    method Socket(port: int, reserved: Option<(Fid, FcbId)>) returns (fid: Fid, scb: Option<Scb>)
      requires reserved.Some? ==> 0 <= reserved.value.0 < MAX_FILEID
      modifies this
      ensures scb == NewSocket(port, reserved)
      ensures fid == NOFILE <==> scb.None?
      ensures scb.Some? ==> fid == scb.value.fid
      ensures socketCounter == old(socketCounter) + (if scb.Some? then 1 else 0)
      ensures portMapInits == old(portMapInits) + (if old(socketCounter) == 0 then 1 else 0)
    {
      if socketCounter == 0 {
        portMapInits := portMapInits + 1;
      }
      if port > 0 && port <= MAX_PORT {
        if reserved.None? {
          return NOFILE, None;
        }
        var (f, fcb) := reserved.value;
        scb := Some(Scb(0, fcb, f, port, Unbound));
        socketCounter := socketCounter + 1;
        return f, scb;
      } else {
        return NOFILE, None;
      }
    }
  }

  /** sys_Listen is a stub that always fails. */
  function Listen(sock: Fid): (r: int)
    ensures r == -1
  {
    -1
  }

  /** sys_Accept is a stub that never yields a connection. */
  function Accept(lsock: Fid): (r: Fid)
    ensures r == NOFILE
  {
    NOFILE
  }

  /** sys_Connect is a stub that always fails. */
  function Connect(sock: Fid, port: int, timeout: int): (r: int)
    ensures r == -1
  {
    -1
  }

  /** sys_ShutDown is a stub that always fails. */
  function ShutDown(sock: Fid, how: int): (r: int)
    ensures r == -1
  {
    -1
  }
}
