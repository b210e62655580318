/** Starting, stopping and destroying a receiver: every resource is given back once. */
module Lifecycle {
  datatype Resource =
    | Object | PacketBuffer | ConvertBuffer | FrameBuffer
    | SocketLayer | Socket | BufferPool | CompletionPort | Thread

  /** A number for each kind of resource. */
  datatype Counts = Counts(block: nat, packet: nat, convert: nat, frames: nat,
                           layer: nat, socket: nat, pool: nat, port: nat, thread: nat) {
    function Of(r: Resource): nat {
      match r
      case Object => block
      case PacketBuffer => packet
      case ConvertBuffer => convert
      case FrameBuffer => frames
      case SocketLayer => layer
      case Socket => socket
      case BufferPool => pool
      case CompletionPort => port
      case Thread => thread
    }

    function Add(r: Resource): Counts {
      match r
      case Object => this.(block := block + 1)
      case PacketBuffer => this.(packet := packet + 1)
      case ConvertBuffer => this.(convert := convert + 1)
      case FrameBuffer => this.(frames := frames + 1)
      case SocketLayer => this.(layer := layer + 1)
      case Socket => this.(socket := socket + 1)
      case BufferPool => this.(pool := pool + 1)
      case CompletionPort => this.(port := port + 1)
      case Thread => this.(thread := thread + 1)
    }

    function Plus(c: Counts): Counts {
      Counts(block + c.block, packet + c.packet, convert + c.convert, frames + c.frames,
             layer + c.layer, socket + c.socket, pool + c.pool, port + c.port, thread + c.thread)
    }
  }

  /** The memory of one receiver: five blocks. */
  ghost predicate OneReceiver(c: Counts) {
    c.block == 1 && c.packet == 1 && c.convert == 1 && c.frames == 2
  }

  ghost predicate OnlyMemory(c: Counts) {
    c.layer == 0 && c.socket == 0 && c.pool == 0 && c.port == 0 && c.thread == 0
  }

  ghost predicate NoMemoryBlocks(c: Counts) {
    c.block == 0 && c.packet == 0 && c.convert == 0 && c.frames == 0
  }

  ghost function One(held: bool): nat {
    if held then 1 else 0
  }

  datatype Code = Started | NoSocketLayer | NoSocket | NoMemory | NoPort | NoThread

  /** Which acquisitions of one start succeed. */
  datatype Outcome = Outcome(layer: bool, socket: bool, pool: bool, port: bool, thread: bool)

  /** The result of a start: the first acquisition that fails, if any does. Only Windows has
      a buffer pool and a completion port. */
  function CodeFor(o: Outcome, windows: bool): Code {
    if !o.layer then NoSocketLayer
    else if !o.socket then NoSocket
    else if windows && !o.pool then NoMemory
    else if windows && !o.port then NoPort
    else if !o.thread then NoThread
    else Started
  }

  /** A start reports the first acquisition that fails, in the order layer, socket, on Windows
      pool and port, thread. */
  lemma CodeIsFirstFailure(o: Outcome, windows: bool)
    ensures var parts := o.layer && o.socket && (windows ==> o.pool && o.port);
            (CodeFor(o, windows) == Started <==> parts && o.thread) &&
            (CodeFor(o, windows) == NoThread <==> parts && !o.thread) &&
            (CodeFor(o, windows) == NoSocketLayer <==> !o.layer) &&
            (CodeFor(o, windows) == NoSocket <==> o.layer && !o.socket) &&
            (CodeFor(o, windows) == NoMemory <==> windows && o.layer && o.socket && !o.pool) &&
            (CodeFor(o, windows) == NoPort <==> windows && o.layer && o.socket && o.pool && !o.port)
  {
  }

  class Handle {
    const windows: bool
    var running: bool
    var socketOpen: bool
    var threadStarted: bool
    var layerReady: bool
    var hasPool: bool
    var hasPort: bool
    ghost var alive: bool
    ghost var acquired: Counts
    ghost var released: Counts

    ghost function Held(): Counts
      reads this
    {
      Counts(One(alive), One(alive), One(alive), 2 * One(alive),
             One(layerReady), One(socketOpen), One(hasPool), One(hasPort), One(threadStarted))
    }

    /** Nothing is held beyond the receiver's own memory. */
    ghost predicate Stopped()
      reads this
    {
      !running && !socketOpen && !threadStarted && !layerReady && !hasPool && !hasPort
    }

    ghost predicate Running()
      reads this
    {
      running && socketOpen && threadStarted && layerReady && hasPool == hasPort == windows
    }

    /** What was acquired is what was released and what is held. */
    ghost predicate Balanced()
      reads this
    {
      acquired == released.Plus(Held()) && OneReceiver(acquired) && (windows || acquired.pool == acquired.port == 0)
    }

    /** Between calls a receiver is wholly running or wholly stopped, and its ledger balances. */
    ghost predicate Valid()
      reads this
    {
      alive && (Stopped() || Running()) && Balanced()
    }

    constructor (win: bool)
      ensures Valid() && Stopped() && windows == win
      ensures OnlyMemory(acquired) && OnlyMemory(released) && NoMemoryBlocks(released)
    {
      windows := win;
      running, socketOpen, threadStarted, layerReady, hasPool, hasPort := false, false, false, false, false, false;
      alive, acquired, released := true, Counts(1, 1, 1, 2, 0, 0, 0, 0, 0), Counts(0, 0, 0, 0, 0, 0, 0, 0, 0);
    }

    ghost method Acquire(r: Resource)
      modifies this`acquired
      ensures acquired == old(acquired).Add(r)
    {
      acquired := acquired.Add(r);
    }

    /** Only what is held can be given back. */
    ghost method Release(r: Resource)
      requires released.Of(r) < acquired.Of(r)
      modifies this`released
      ensures released == old(released).Add(r)
    {
      released := released.Add(r);
    }

    method CloseSocket()
      requires socketOpen && released.Of(Socket) < acquired.Of(Socket)
      modifies this`socketOpen, this`released
      ensures !socketOpen && released == old(released).Add(Socket)
    {
      Release(Socket);
      socketOpen := false;
    }

    method LeaveSocketLayer()
      requires layerReady && released.Of(SocketLayer) < acquired.Of(SocketLayer)
      modifies this`layerReady, this`released
      ensures !layerReady && released == old(released).Add(SocketLayer)
    {
      Release(SocketLayer);
      layerReady := false;
    }

    /** The completion port if there is one, then the pool; freeing no pool is harmless. */
    method FreeWindowsParts()
      requires hasPort ==> released.Of(CompletionPort) < acquired.Of(CompletionPort)
      requires hasPool ==> released.Of(BufferPool) < acquired.Of(BufferPool)
      modifies this`hasPort, this`hasPool, this`released
      ensures !hasPort && !hasPool
      ensures released == old(released).Plus(Counts(0, 0, 0, 0, 0, 0, One(old(hasPool)), One(old(hasPort)), 0))
    {
      if hasPort {
        Release(CompletionPort);
        hasPort := false;
      }
      if hasPool {
        Release(BufferPool);
      }
      hasPool := false;
    }

    /** The socket layer, then the socket. */
    method OpenSocket(o: Outcome) returns (code: Code)
      requires !layerReady && !socketOpen && Balanced()
      modifies this`layerReady, this`socketOpen, this`acquired, this`released
      ensures Balanced() && code == if !o.layer then NoSocketLayer else if !o.socket then NoSocket else Started
      ensures layerReady == socketOpen == (code == Started)
    {
      if !o.layer {
        return NoSocketLayer;
      }
      Acquire(SocketLayer);
      layerReady := true;
      if !o.socket {
        LeaveSocketLayer();
        return NoSocket;
      }
      Acquire(Socket);
      socketOpen := true;
      code := Started;
    }

    /** The pool, then the port; a failure gives back all that the start had acquired. */
    method OpenWindowsParts(o: Outcome) returns (code: Code)
      requires windows && socketOpen && layerReady && !hasPool && !hasPort && Balanced()
      modifies this`hasPool, this`hasPort, this`socketOpen, this`layerReady, this`acquired, this`released
      ensures Balanced() && code == if !o.pool then NoMemory else if !o.port then NoPort else Started
      ensures hasPool == hasPort == socketOpen == layerReady == (code == Started)
    {
      if !o.pool {
        CloseSocket();
        LeaveSocketLayer();
        return NoMemory;
      }
      Acquire(BufferPool);
      hasPool := true;
      if !o.port {
        FreeWindowsParts();
        CloseSocket();
        LeaveSocketLayer();
        return NoPort;
      }
      Acquire(CompletionPort);
      hasPort := true;
      code := Started;
    }

    /** The way back when the thread cannot be created. */
    method Abandon()
      requires socketOpen && layerReady && !threadStarted && Balanced()
      modifies this`running, this`hasPool, this`hasPort, this`socketOpen, this`layerReady, this`released
      ensures Stopped() && Balanced()
    {
      running := false;
      FreeWindowsParts();
      CloseSocket();
      LeaveSocketLayer();
    }

    /** A start either acquires everything, or reports the first failure and gives back all it
        had acquired. On a running receiver it does nothing. */
    method Start(o: Outcome) returns (code: Code)
      requires Valid()
      modifies this
      ensures Valid() && code == if old(running) then Started else CodeFor(o, windows)
      ensures running == (code == Started)
      ensures old(running) ==> acquired == old(acquired) && released == old(released)
      ensures code != Started ==> Stopped()
    {
      if running {
        return Started;
      }
      code := OpenSocket(o);
      if code != Started {
        return;
      }
      if windows {
        code := OpenWindowsParts(o);
        if code != Started {
          return;
        }
      }
      running := true;
      if !o.thread {
        Abandon();
        return NoThread;
      }
      Acquire(Thread);
      threadStarted := true;
      code := Started;
    }

    /** A stop gives back everything a start acquired; a second one changes nothing. */
    method Stop()
      requires Valid()
      modifies this
      ensures Valid() && Stopped() && acquired == old(acquired) == released.Plus(Held())
      ensures old(Stopped()) ==> released == old(released)
    {
      running := false;
      if socketOpen {
        CloseSocket();
      }
      if threadStarted {
        Release(Thread);
        threadStarted := false;
      }
      FreeWindowsParts();
      if layerReady {
        LeaveSocketLayer();
      }
    }

    /** After this every resource ever acquired has been released exactly once. */
    method Destroy()
      requires Valid()
      modifies this
      ensures !alive && Stopped() && acquired == old(acquired) == released
      ensures OneReceiver(released) && (windows || acquired.pool == acquired.port == 0)
    {
      Stop();
      Release(FrameBuffer);
      Release(FrameBuffer);
      Release(ConvertBuffer);
      Release(PacketBuffer);
      Release(Object);
      alive := false;
    }
  }

  /** Which allocations of a creation succeed, and whether the assembler accepts the size and
      format, which it checks before its two buffers. */
  datatype Allocation = Allocation(block: bool, packet: bool, convert: bool, accepted: bool, fill: bool, deliver: bool)

  /** Creation: all five blocks, or none are kept. */
  method Allocate(o: Allocation) returns (ok: bool, acquired: Counts, released: Counts)
    ensures ok <==> o.block && o.packet && o.convert && o.accepted && o.fill && o.deliver
    ensures !ok ==> acquired == released
    ensures ok ==> OneReceiver(acquired) && OnlyMemory(acquired) && NoMemoryBlocks(released) && OnlyMemory(released)
  {
    ok, acquired := false, Counts(0, 0, 0, 0, 0, 0, 0, 0, 0);
    released := acquired;
    if !o.block {
      return;
    }
    acquired := acquired.(block := 1);
    if !o.packet {
      released := released.(block := 1);
      return;
    }
    acquired := acquired.(packet := 1);
    if !o.convert {
      released := released.(packet := 1, block := 1);
      return;
    }
    acquired := acquired.(convert := 1);
    if o.accepted {
      var got := (if o.fill then 1 else 0) + (if o.deliver then 1 else 0);
      acquired := acquired.(frames := got);
      ok := o.fill && o.deliver;
      if !ok {
        released := released.(frames := got);
      }
    }
    if !ok {
      released := released.(convert := 1, packet := 1, block := 1);
    }
  }

  datatype Call = CallStart(o: Outcome) | CallStop

  /** Any calls whatever, in any order and with any outcomes, and then destruction: as many
      releases as acquisitions, of each kind. */
  method UseAndDestroy(windows: bool, calls: seq<Call>) returns (h: Handle)
    ensures fresh(h) && !h.alive && h.acquired == h.released && OneReceiver(h.released)
    ensures windows || h.acquired.pool == h.acquired.port == 0
  {
    hide OneReceiver;
    h := new Handle(windows);
    for i := 0 to |calls|
      invariant fresh(h) && h.windows == windows && h.Valid()
    {
      match calls[i]
      case CallStart(o) => var _ := h.Start(o);
      case CallStop => h.Stop();
    }
    h.Destroy();
  }
}
