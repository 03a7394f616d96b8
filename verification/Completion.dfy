/** The I/O completion port protocol of kernel/completion.cpp, together with the
    part of kernel/thread.cpp that decides when a thread counts as active.

    A `World` is everything the protocol shares: the ports, the list of ports that have
    waiters to wake, the threads that count as active, and the threads that were handed
    a packet but did not run yet. The last two fields are a history: no operation
    reads them. Ports are named by values of an arbitrary type `P`.
 */
module Completion {
  import opened Common

  type Thread = nat

  datatype Packet = Packet(key: nat, value: nat, status: int, info: nat)

  datatype Port = Port(limit: nat, queue: seq<Packet>, waiters: seq<Thread>)

  /** One packet leaving a port: to `thread`, which had waited for it or took it directly. */
  datatype Handout<P> = Handout(port: P, thread: Thread, packet: Packet, waited: bool)

  datatype World<P> = World(
    ports: map<P, Port>,
    ready: seq<P>,                      // waiting_thread_ports
    active: set<Thread>,                // the running threads; num_active_threads is their number
    woken: map<Thread, Packet>,         // restarted inside remove, not running yet
    log: seq<Handout<P>>,               // history: packets handed out, in order
    blocked: seq<(P, Thread)>)          // history: threads put on a waiter list, in order

  /** `Abort` is a failed assert. */
  datatype Outcome<P> = Abort | Ok(world: World<P>)

  // ---------------------------------------------------------------- operations

  /** list_anchor::unlink: drops `p` from a list. */
  function Without<P(==)>(s: seq<P>, p: P): seq<P> {
    if s == [] then [] else if s[0] == p then s[1..] else [s[0]] + Without(s[1..], p)
  }

  function PortWaitIdle<P(==)>(w: World<P>, p: P): World<P> {
    if p in w.ready then w else w.(ready := w.ready + [p])
  }

  function StartWaiter<P(==)>(w: World<P>, p: P): Outcome<P>
    requires p in w.ports && w.ports[p].waiters != []
  {
    var port := w.ports[p];
    if port.queue == [] then Abort else
    var packet, t, rest := port.queue[0], port.waiters[0], port.waiters[1..];
    Ok(w.(ports := w.ports[p := Port(port.limit, port.queue[1..], rest)],
          ready := if rest == [] && p in w.ready then Without(w.ready, p) else w.ready,
          woken := w.woken[t := packet],
          log := w.log + [Handout(p, t, packet, true)]))
  }

  function CheckCompletions<P(==)>(w: World<P>): Outcome<P>
    requires forall p :: p in w.ready ==> p in w.ports
  {
    if w.ready == [] then Ok(w)
    else if w.ports[w.ready[0]].waiters == [] then Abort
    else StartWaiter(w, w.ready[0])
  }

  function Set<P(==)>(w: World<P>, p: P, packet: Packet): Outcome<P>
    requires p in w.ports
  {
    var port := w.ports[p];
    var w1 := w.(ports := w.ports[p := port.(queue := port.queue + [packet])]);
    if port.waiters == [] then Ok(w1)
    else if |w.active| >= port.limit then Ok(PortWaitIdle(w1, p))
    else
      match StartWaiter(w1, p)
      case Abort => Abort
      case Ok(w2) => if w2.ports[p].queue == [] then Ok(w2) else Abort
  }

  /** set_state on a thread that stops running: the last one to stop looks for a completion. */
  function Leave<P(==)>(w: World<P>, t: Thread): Outcome<P>
    requires forall p :: p in w.ready ==> p in w.ports
  {
    var w1 := w.(active := w.active - {t});
    if w1.active == {} then CheckCompletions(w1) else Ok(w1)
  }

  /** Would check_completions restart `t`? fiber_t::start refuses a fiber that is still on the ring. */
  predicate RestartsItself<P(==)>(w: World<P>, t: Thread)
    requires forall p :: p in w.ready ==> p in w.ports
  {
    && w.active <= {t} && w.ready != []
    && w.ports[w.ready[0]].waiters != [] && w.ports[w.ready[0]].waiters[0] == t
  }

  /** completion_waiter_t::stop followed by thread_impl_t::wait, up to the fiber switch. */
  function Block<P(==)>(w: World<P>, p: P, t: Thread): Outcome<P>
    requires p in w.ports && forall q :: q in w.ready ==> q in w.ports
  {
    var port := w.ports[p];
    var w1 := w.(ports := w.ports[p := port.(waiters := port.waiters + [t])],
                 blocked := w.blocked + [(p, t)]);
    if RestartsItself(w1, t) then Abort else Leave(w1, t)
  }

  /** What a running thread `t` does in remove before it blocks or returns. */
  function Remove<P(==)>(w: World<P>, p: P, t: Thread): Outcome<P>
    requires p in w.ports && forall q :: q in w.ready ==> q in w.ports
  {
    var port := w.ports[p];
    if port.queue == [] then Block(w, p, t)
    else if |w.active| > port.limit then Block(PortWaitIdle(w, p), p, t)
    else Ok(w.(ports := w.ports[p := port.(queue := port.queue[1..])],
               log := w.log + [Handout(p, t, port.queue[0], false)]))
  }

  /** A restarted thread runs again inside remove: it counts as active and takes its packet along. */
  function Resume<P>(w: World<P>, t: Thread): World<P> {
    w.(active := w.active + {t}, woken := w.woken - {t})
  }

  // ---------------------------------------------------------------------- runs

  /** `Enter` and `Leave` are threads that start or stop running for any other reason;
      `Check` is a call of check_completions at any time. */
  datatype Event<P> =
    | Post(port: P, packet: Packet)
    | Take(port: P, thread: Thread)
    | Return(thread: Thread)
    | Enter(thread: Thread)
    | Exit(thread: Thread)
    | Check

  ghost predicate Waits<P>(w: World<P>, t: Thread) {
    exists p :: p in w.ports && t in w.ports[p].waiters
  }

  ghost predicate Enabled<P>(w: World<P>, e: Event<P>) {
    match e
    case Post(p, _) => p in w.ports
    case Take(p, t) => p in w.ports && t in w.active
    case Return(t) => t in w.woken
    case Enter(t) => t !in w.active && t !in w.woken && !Waits(w, t)
    case Exit(t) => t in w.active
    case Check => true
  }

  function Step<P(==)>(w: World<P>, e: Event<P>): Outcome<P>
    requires forall p :: p in w.ready ==> p in w.ports
    requires e.Post? || e.Take? ==> e.port in w.ports
  {
    match e
    case Post(p, packet) => Set(w, p, packet)
    case Take(p, t) => Remove(w, p, t)
    case Return(t) => Ok(Resume(w, t))
    case Enter(t) => Ok(w.(active := w.active + {t}))
    case Exit(t) => Leave(w, t)
    case Check => CheckCompletions(w)
  }

  // ----------------------------------------------------------------- invariant

  /** completion_factory never makes a port with limit zero. */
  ghost predicate LimitsOk<P>(w: World<P>) {
    forall p :: p in w.ports ==> w.ports[p].limit >= 1
  }

  ghost predicate ReadyOk<P>(w: World<P>) {
    && Distinct(w.ready)
    && forall p :: p in w.ready ==> p in w.ports && w.ports[p].waiters != []
  }

  /** No lost wake-up: a packet and a waiter in one port make it a listed port. */
  ghost predicate NoLostWakeup<P>(w: World<P>) {
    forall p :: p in w.ports && w.ports[p].queue != [] && w.ports[p].waiters != [] ==> p in w.ready
  }

  /** Every thread is running, or restarted, or in one place of one waiter list, or elsewhere. */
  ghost predicate ThreadsOk<P>(w: World<P>) {
    && (forall p :: p in w.ports ==> Distinct(w.ports[p].waiters))
    && (forall p, q, t :: p in w.ports && q in w.ports && t in w.ports[p].waiters && t in w.ports[q].waiters ==> p == q)
    && (forall p, t :: p in w.ports && t in w.ports[p].waiters ==> t !in w.active && t !in w.woken)
    && (forall t :: t in w.woken ==> t !in w.active)
  }

  /** When nothing runs and nothing is about to run, no port is left with work and a worker. */
  ghost predicate NoHang<P>(w: World<P>) {
    w.active == {} && w.woken == map[] ==> w.ready == []
  }

  ghost predicate Inv<P>(w: World<P>) {
    LimitsOk(w) && ReadyOk(w) && NoLostWakeup(w) && ThreadsOk(w) && NoHang(w)
  }

  lemma {:induction false} WithoutMembers<P>(s: seq<P>, p: P)
    requires Distinct(s)
    ensures Distinct(Without(s, p))
    ensures forall q :: q in Without(s, p) ==> q in s && q != p
    ensures forall q :: q in s && q != p ==> q in Without(s, p)
  {
    if s != [] {
      WithoutMembers(s[1..], p);
      assert s == [s[0]] + s[1..];
      assert s[0] !in s[1..];
    }
  }

  /** start_waiter keeps the list sound, whether or not its port is listed. */
  lemma StartWaiterKeeps<P>(w: World<P>, p: P)
    requires ReadyOk(w) && ThreadsOk(w) && p in w.ports && w.ports[p].waiters != []
    requires StartWaiter(w, p).Ok?
    ensures var w' := StartWaiter(w, p).world;
      && ReadyOk(w') && ThreadsOk(w') && w'.ports.Keys == w.ports.Keys && w'.active == w.active
      && w'.woken == w.woken[w.ports[p].waiters[0] := w.ports[p].queue[0]] && w'.woken != map[]
      && w'.ports == w.ports[p := Port(w.ports[p].limit, w.ports[p].queue[1..], w.ports[p].waiters[1..])]
      && (w'.ports[p].waiters == [] ==> p !in w'.ready)
      && (w'.ports[p].waiters != [] && p in w.ready ==> p in w'.ready)
      && (forall q :: q in w.ready && q != p ==> q in w'.ready)
  {
    WithoutMembers(w.ready, p);
    var w' := StartWaiter(w, p).world;
    var t := w.ports[p].waiters[0];
    assert w.ports[p].waiters == [t] + w'.ports[p].waiters;
    assert t in w'.woken;
    assert t !in w'.ports[p].waiters;
    var r := Without(w.ready, p);
    assert w'.ready == if w'.ports[p].waiters == [] && p in w.ready then r else w.ready;
  }

  lemma CheckKeeps<P>(w: World<P>)
    requires ReadyOk(w) && ThreadsOk(w) && NoLostWakeup(w)
    requires CheckCompletions(w).Ok?
    ensures var w' := CheckCompletions(w).world;
      && ReadyOk(w') && ThreadsOk(w') && NoLostWakeup(w') && NoHang(w')
      && w'.ports.Keys == w.ports.Keys
      && forall p :: p in w.ports ==> w'.ports[p].limit == w.ports[p].limit
  {
    if w.ready != [] { StartWaiterKeeps(w, w.ready[0]); }
  }

  lemma LeaveKeeps<P>(w: World<P>, t: Thread)
    requires LimitsOk(w) && ReadyOk(w) && NoLostWakeup(w) && ThreadsOk(w.(active := w.active - {t}))
    requires Leave(w, t).Ok?
    ensures Inv(Leave(w, t).world)
  {
    var w1 := w.(active := w.active - {t});
    if w1.active == {} { CheckKeeps(w1); }
  }

  lemma BlockKeeps<P>(w: World<P>, p: P, t: Thread)
    requires LimitsOk(w) && p in w.ports && t in w.active && ThreadsOk(w) && Distinct(w.ready)
    requires forall q :: q in w.ready ==> q in w.ports && (q != p ==> w.ports[q].waiters != [])
    requires forall q :: q in w.ports && w.ports[q].queue != [] && (q == p || w.ports[q].waiters != []) ==> q in w.ready
    requires Block(w, p, t).Ok?
    ensures Inv(Block(w, p, t).world)
  {
    var port := w.ports[p];
    var w1 := w.(ports := w.ports[p := port.(waiters := port.waiters + [t])],
                 blocked := w.blocked + [(p, t)]);
    assert ThreadsOk(w1.(active := w1.active - {t}));
    LeaveKeeps(w1, t);
  }

  function Queued<P>(w: World<P>, p: P, packet: Packet): World<P>
    requires p in w.ports
  {
    w.(ports := w.ports[p := w.ports[p].(queue := w.ports[p].queue + [packet])])
  }

  lemma SetListsKeeps<P>(w: World<P>, p: P, packet: Packet)
    requires Inv(w) && p in w.ports && w.ports[p].waiters != [] && |w.active| >= w.ports[p].limit
    ensures Inv(PortWaitIdle(Queued(w, p, packet), p))
  {
  }

  lemma SetStartsKeeps<P>(w: World<P>, p: P, packet: Packet)
    requires Inv(w) && p in w.ports && w.ports[p].waiters != [] && w.ports[p].queue == []
    ensures Inv(StartWaiter(Queued(w, p, packet), p).world)
  {
    StartWaiterKeeps(Queued(w, p, packet), p);
  }

  lemma SetKeeps<P>(w: World<P>, p: P, packet: Packet)
    requires Inv(w) && p in w.ports && Set(w, p, packet).Ok?
    ensures Inv(Set(w, p, packet).world)
  {
    if w.ports[p].waiters != [] {
      if |w.active| >= w.ports[p].limit { SetListsKeeps(w, p, packet); } else { SetStartsKeeps(w, p, packet); }
    }
  }

  lemma TakeKeeps<P>(w: World<P>, p: P, t: Thread)
    requires Inv(w) && p in w.ports && t in w.active && Remove(w, p, t).Ok?
    ensures Inv(Remove(w, p, t).world)
  {
    var port := w.ports[p];
    if port.queue == [] {
      BlockKeeps(w, p, t);
    } else if |w.active| > port.limit {
      BlockKeeps(PortWaitIdle(w, p), p, t);
    }
  }

  lemma ResumeKeeps<P>(w: World<P>, t: Thread)
    requires Inv(w) && t in w.woken
    ensures Inv(Resume(w, t))
  {
  }

  /** Every step that does not abort keeps the invariant. */
  lemma StepKeeps<P>(w: World<P>, e: Event<P>)
    requires Inv(w) && Enabled(w, e) && Step(w, e).Ok?
    ensures Inv(Step(w, e).world)
  {
    match e
    case Post(p, packet) => SetKeeps(w, p, packet);
    case Take(p, t) => TakeKeeps(w, p, t);
    case Return(t) =>
    case Enter(t) =>
    case Exit(t) => LeaveKeeps(w, t);
    case Check => CheckKeeps(w);
  }

  /** The port check_completions would serve has no packet for its waiter. */
  ghost predicate HeadStarved<P>(w: World<P>)
    requires ReadyOk(w)
  {
    w.ready != [] && w.ports[w.ready[0]].queue == []
  }

  /** Exactly when a step fails an assert, in terms of the state before it. */
  ghost predicate Doomed<P>(w: World<P>, e: Event<P>)
    requires ReadyOk(w) && Enabled(w, e)
  {
    match e
    case Post(p, _) =>
      var port := w.ports[p];
      port.waiters != [] && |w.active| < port.limit && port.queue != []
    case Take(p, t) => w.ports[p].queue == [] && w.active == {t} && HeadStarved(w)
    case Exit(t) => w.active == {t} && HeadStarved(w)
    case Check => HeadStarved(w)
    case _ => false
  }

  /** The only asserts that can fail are "a packet is queued" and "the queue is empty afterwards";
      the waiter that check_waiters looks for is there, and no thread restarts itself. */
  lemma AbortsExactly<P>(w: World<P>, e: Event<P>)
    requires Inv(w) && Enabled(w, e)
    ensures Step(w, e).Abort? <==> Doomed(w, e)
  {
    match e
    case Post(p, packet) =>
    case Take(p, t) => TakeAborts(w, p, t);
    case Return(t) =>
    case Enter(t) =>
    case Exit(t) => assert w.active - {t} == {} <==> w.active == {t};
    case Check =>
  }

  lemma TakeAborts<P>(w: World<P>, p: P, t: Thread)
    requires Inv(w) && p in w.ports && t in w.active
    ensures Remove(w, p, t).Abort? <==> Doomed(w, Take(p, t))
  {
    var port := w.ports[p];
    if port.queue == [] {
      BlockAborts(w, p, t);
    } else if |w.active| > port.limit {
      assert w.active != {t};
      BlockAborts(PortWaitIdle(w, p), p, t);
    }
  }

  lemma BlockAborts<P>(w: World<P>, p: P, t: Thread)
    requires p in w.ports && t in w.active && ThreadsOk(w)
    requires forall q :: q in w.ready ==> q in w.ports
    requires w.active == {t} ==> ReadyOk(w)
    ensures Block(w, p, t).Abort? <==> w.active == {t} && HeadStarved(w)
  {
    assert w.active <= {t} <==> w.active == {t};
    assert w.active - {t} == {} <==> w.active == {t};
    if w.active == {t} && w.ready != [] {
      var q := w.ready[0];
      assert w.ports[q].waiters[0] in w.ports[q].waiters;
    }
  }

  /** The world after a run, or `None` if the run aborts or an event in it cannot happen.
      Every world a run reaches satisfies the invariant. */
  ghost function Run<P>(w0: World<P>, es: seq<Event<P>>): (r: Option<World<P>>)
    requires Inv(w0)
    ensures r.Some? ==> Inv(r.value)
  {
    if es == [] then Some(w0) else
    var before := Run(w0, es[..|es| - 1]);
    var e := es[|es| - 1];
    if before.None? || !Enabled(before.value, e) then None else
    match Step(before.value, e)
    case Abort => None
    case Ok(w) => StepKeeps(before.value, e); Some(w)
  }

  /** Over every run: when no thread runs and none is about to, no port holds both a packet and a
      thread waiting for one. */
  lemma IdleKernelHasNoWork<P>(w0: World<P>, es: seq<Event<P>>, p: P)
    requires Inv(w0) && Run(w0, es).Some?
    requires var w := Run(w0, es).value; w.active == {} && w.woken == map[] && p in w.ports
    ensures var port := Run(w0, es).value.ports[p]; port.queue == [] || port.waiters == []
  {
    var w := Run(w0, es).value;
    assert NoHang(w) && NoLostWakeup(w);
  }
}
