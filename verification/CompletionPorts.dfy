/** The objects of kernel/completion.cpp: the ports and the list shared by all of them, with the
    methods that update them. Each method is proved to do what its counterpart in `Completion`
    says, on all ports at once; a method returns `ok == false` where an assert of the source fails.
    A waiter is known by its thread, and its packet field, once set, by an entry in `restarted`. */
module CompletionPorts {
  import opened Common
  import opened Completion

  /** The statics: the listed ports, the running threads, and the threads that were given a packet
      and did not run yet. */
  class Kernel {
    var waitingThreadPorts: seq<CompletionPort>
    var running: set<Thread>
    var restarted: map<Thread, Packet>
    ghost var ports: set<CompletionPort>
    ghost var log: seq<Handout<CompletionPort>>
    ghost var blocked: seq<(CompletionPort, Thread)>

    ghost function Abs(): World<CompletionPort>
      reads this, ports
    {
      World(map p | p in ports :: p.Abs(), waitingThreadPorts, running, restarted, log, blocked)
    }

    ghost predicate Valid()
      reads this, ports
    {
      Inv(Abs())
    }

    method CheckCompletions() returns (ok: bool)
      requires forall p :: p in waitingThreadPorts ==> p in ports
      modifies this, ports
      ensures ports == old(ports)
      ensures ok <==> Completion.CheckCompletions(old(Abs())).Ok?
      ensures ok ==> Abs() == Completion.CheckCompletions(old(Abs())).world
    {
      if waitingThreadPorts == [] { return true; }
      ok := waitingThreadPorts[0].CheckWaiters(this);
    }

    /** thread_impl_t::set_state on a thread that stops running. */
    method Leave(t: Thread) returns (ok: bool)
      requires forall p :: p in waitingThreadPorts ==> p in ports
      modifies this, ports
      ensures ports == old(ports)
      ensures ok <==> Completion.Leave(old(Abs()), t).Ok?
      ensures ok ==> Abs() == Completion.Leave(old(Abs()), t).world
    {
      running := running - {t};
      ok := true;
      if |running| == 0 { ok := CheckCompletions(); }
    }

    /** A restarted thread runs again, inside remove, and returns with its packet. */
    method Resume(t: Thread) returns (packet: Packet)
      requires Valid() && t in restarted
      modifies this
      ensures ports == old(ports) && packet == old(restarted)[t]
      ensures Valid() && Abs() == Completion.Resume(old(Abs()), t)
    {
      packet := restarted[t];
      running := running + {t};
      restarted := restarted - {t};
      assert Abs() == Completion.Resume(old(Abs()), t);
      ResumeKeeps(old(Abs()), t);
    }
  }

  class CompletionPort {
    const numThreads: nat
    var queue: seq<Packet>
    var waiterList: seq<Thread>

    /** Made by completion_factory, which turns a limit of zero into one processor's worth. */
    constructor (num: nat)
      ensures numThreads >= 1 && (num > 0 ==> numThreads == num) && Abs() == Port(numThreads, [], [])
    {
      numThreads := if num == 0 then 1 else num;
      queue, waiterList := [], [];
    }

    ghost function Abs(): Port
      reads this
    {
      Port(numThreads, queue, waiterList)
    }

    method PortWaitIdle(k: Kernel)
      modifies k`waitingThreadPorts
      ensures k.Abs() == Completion.PortWaitIdle(old(k.Abs()), this)
    {
      if this in k.waitingThreadPorts { return; }
      k.waitingThreadPorts := k.waitingThreadPorts + [this];
    }

    /** Starts the first waiter. */
    method StartWaiter(k: Kernel) returns (ok: bool)
      requires this in k.ports && waiterList != []
      modifies k, this
      ensures k.ports == old(k.ports)
      ensures ok <==> Completion.StartWaiter(old(k.Abs()), this).Ok?
      ensures ok ==> k.Abs() == Completion.StartWaiter(old(k.Abs()), this).world
    {
      if queue == [] { return false; }
      var packet, waiter := queue[0], waiterList[0];
      queue := queue[1..];
      waiterList := waiterList[1..];
      if waiterList == [] && this in k.waitingThreadPorts {
        k.waitingThreadPorts := Without(k.waitingThreadPorts, this);
      }
      k.restarted := k.restarted[waiter := packet];
      k.log := k.log + [Handout(this, waiter, packet, true)];
      ok := true;
    }

    method CheckWaiters(k: Kernel) returns (ok: bool)
      requires this in k.ports
      modifies k, this
      ensures k.ports == old(k.ports)
      ensures ok <==> old(waiterList) != [] && Completion.StartWaiter(old(k.Abs()), this).Ok?
      ensures ok ==> k.Abs() == Completion.StartWaiter(old(k.Abs()), this).world
    {
      if waiterList == [] { return false; }
      ok := StartWaiter(k);
    }

    /** queue.append. */
    method AppendPacket(k: Kernel, packet: Packet)
      requires this in k.ports
      modifies this`queue
      ensures queue == old(queue) + [packet]
      ensures k.Abs() ==
        var w := old(k.Abs());
        w.(ports := w.ports[this := w.ports[this].(queue := w.ports[this].queue + [packet])])
    {
      queue := queue + [packet];
    }

    /** queue.unlink of the first packet, for a thread that takes it directly. */
    method TakePacket(k: Kernel, t: Thread) returns (packet: Packet)
      requires this in k.ports && queue != []
      modifies this`queue, k`log
      ensures packet == old(queue)[0]
      ensures k.Abs() == var w := old(k.Abs());
        w.(ports := w.ports[this := w.ports[this].(queue := w.ports[this].queue[1..])],
           log := w.log + [Handout(this, t, packet, false)])
    {
      packet := queue[0];
      queue := queue[1..];
      k.log := k.log + [Handout(this, t, packet, false)];
    }

    /** waiter_list.append. */
    method AppendWaiter(k: Kernel, t: Thread)
      requires this in k.ports
      modifies this`waiterList, k`blocked
      ensures k.Abs() == var w := old(k.Abs());
        w.(ports := w.ports[this := w.ports[this].(waiters := w.ports[this].waiters + [t])],
           blocked := w.blocked + [(this, t)])
    {
      waiterList := waiterList + [t];
      k.blocked := k.blocked + [(this, t)];
    }

    method Set(k: Kernel, packet: Packet) returns (ok: bool)
      requires k.Valid() && this in k.ports
      modifies k, this
      ensures k.ports == old(k.ports)
      ensures ok <==> Completion.Set(old(k.Abs()), this, packet).Ok?
      ensures ok ==> k.Valid() && k.Abs() == Completion.Set(old(k.Abs()), this, packet).world
    {
      AppendPacket(k, packet);
      if waiterList == [] {
        ok := true;
      } else if |k.running| >= numThreads {
        PortWaitIdle(k);
        ok := true;
      } else {
        ok := StartWaiter(k);
        if ok { ok := queue == []; }
      }
      if ok { SetKeeps(old(k.Abs()), this, packet); }
    }

    /** completion_waiter_t::stop, up to the fiber switch. */
    method Stop(k: Kernel, t: Thread) returns (ok: bool)
      requires this in k.ports && forall p :: p in k.waitingThreadPorts ==> p in k.ports
      modifies k, k.ports
      ensures k.ports == old(k.ports)
      ensures ok <==> Completion.Block(old(k.Abs()), this, t).Ok?
      ensures ok ==> k.Abs() == Completion.Block(old(k.Abs()), this, t).world
    {
      AppendWaiter(k, t);
      // fiber_t::start refuses the running fiber, so check_completions must not pick this thread
      if k.running <= {t} && k.waitingThreadPorts != []
         && k.waitingThreadPorts[0].waiterList != [] && k.waitingThreadPorts[0].waiterList[0] == t {
        return false;
      }
      ok := k.Leave(t);
    }

    /** The part of remove before the thread blocks or returns: `reply` is the packet it returns with. */
    method Remove(k: Kernel, t: Thread) returns (ok: bool, reply: Option<Packet>)
      requires k.Valid() && this in k.ports && t in k.running
      modifies k, k.ports
      ensures k.ports == old(k.ports)
      ensures ok <==> Completion.Remove(old(k.Abs()), this, t).Ok?
      ensures ok ==> k.Valid() && k.Abs() == Completion.Remove(old(k.Abs()), this, t).world
      ensures reply == if old(queue) != [] && |old(k.running)| <= numThreads then Some(old(queue)[0]) else None
    {
      reply := None;
      if queue == [] {
        ok := Stop(k, t);
      } else if |k.running| > numThreads {
        PortWaitIdle(k);
        ok := Stop(k, t);
      } else {
        var packet := TakePacket(k, t);
        ok, reply := true, Some(packet);
      }
      if ok { TakeKeeps(old(k.Abs()), this, t); }
    }
  }
}
