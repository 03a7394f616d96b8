/** What whole runs of the completion port protocol guarantee: no packet is lost, duplicated or
    reordered, threads are served in the order they blocked, a listed port is drained waiter by
    waiter, and how far the number of running threads can exceed a port's limit. */
module CompletionRuns {
  import opened Common
  import opened Completion

  // ------------------------------------------------ the history, one port or thread at a time

  function Last<T>(s: seq<T>): T
    requires s != []
  {
    s[|s| - 1]
  }

  function Front<T>(s: seq<T>): seq<T>
    requires s != []
  {
    s[..|s| - 1]
  }

  /** The packets posted to `p` by the events. */
  function Posted<P(==)>(es: seq<Event<P>>, p: P): seq<Packet> {
    if es == [] then [] else
    Posted(Front(es), p) + (match Last(es) case Post(q, packet) => if q == p then [packet] else [] case _ => [])
  }

  function PacketsFrom<P(==)>(log: seq<Handout<P>>, p: P): seq<Packet> {
    if log == [] then [] else
    PacketsFrom(Front(log), p) + if Last(log).port == p then [Last(log).packet] else []
  }

  function PacketsTo<P(==)>(log: seq<Handout<P>>, t: Thread): seq<Packet> {
    if log == [] then [] else
    PacketsTo(Front(log), t) + if Last(log).thread == t then [Last(log).packet] else []
  }

  /** The threads restarted by `p`, in order. */
  function RestartsBy<P(==)>(log: seq<Handout<P>>, p: P): seq<Thread> {
    if log == [] then [] else
    RestartsBy(Front(log), p) + if Last(log).port == p && Last(log).waited then [Last(log).thread] else []
  }

  /** The threads that blocked on `p`, in order. */
  function BlocksOn<P(==)>(blocked: seq<(P, Thread)>, p: P): seq<Thread> {
    if blocked == [] then [] else
    BlocksOn(Front(blocked), p) + if Last(blocked).0 == p then [Last(blocked).1] else []
  }

  /** What remove returns to `t` when event `e` happens in `w`, if it returns. */
  ghost function Reply<P>(w: World<P>, e: Event<P>, t: Thread): seq<Packet> {
    match e
    case Take(p, u) =>
      if u == t && p in w.ports && w.ports[p].queue != [] && |w.active| <= w.ports[p].limit
      then [w.ports[p].queue[0]] else []
    case Return(u) => if u == t && t in w.woken then [w.woken[t]] else []
    case _ => []
  }

  /** The packets that calls of remove by `t` return during a run. */
  ghost function Returned<P>(w0: World<P>, es: seq<Event<P>>, t: Thread): seq<Packet>
    requires Inv(w0)
  {
    if es == [] || Run(w0, Front(es)).None? then [] else
    Returned(w0, Front(es), t) + Reply(Run(w0, Front(es)).value, Last(es), t)
  }

  // ------------------------------------------------------------- conservation, step by step

  ghost function Pending<P>(w: World<P>, t: Thread): seq<Packet> {
    if t in w.woken then [w.woken[t]] else []
  }

  /** The books of port `p` and thread `t`: `flow` went into the port and either left it in that
      order or is still queued; whoever blocked on it was restarted in order or still waits in order;
      and `returned` is what `t` got out of remove, but for a packet it has not come back with. */
  ghost predicate Books<P>(w: World<P>, p: P, t: Thread, flow: seq<Packet>, returned: seq<Packet>) {
    && p in w.ports
    && PacketsFrom(w.log, p) + w.ports[p].queue == flow
    && RestartsBy(w.log, p) + w.ports[p].waiters == BlocksOn(w.blocked, p)
    && PacketsTo(w.log, t) == returned + Pending(w, t)
  }

  lemma LogAppend<P>(log: seq<Handout<P>>, h: Handout<P>, p: P, t: Thread)
    ensures PacketsFrom(log + [h], p) == PacketsFrom(log, p) + if h.port == p then [h.packet] else []
    ensures RestartsBy(log + [h], p) == RestartsBy(log, p) + if h.port == p && h.waited then [h.thread] else []
    ensures PacketsTo(log + [h], t) == PacketsTo(log, t) + if h.thread == t then [h.packet] else []
  {
    assert Front(log + [h]) == log;
  }

  /** Moving the head of `s` to the end of `a` keeps `a` followed by `s`. */
  lemma Shift<T>(a: seq<T>, s: seq<T>)
    requires s != []
    ensures (a + [s[0]]) + s[1..] == a + s
  {
  }

  lemma StartWaiterBooks<P>(w: World<P>, q: P, p: P, t: Thread, flow: seq<Packet>, returned: seq<Packet>)
    requires q in w.ports && w.ports[q].waiters != [] && StartWaiter(w, q).Ok?
    requires w.ports[q].waiters[0] !in w.woken
    requires Books(w, p, t, flow, returned)
    ensures Books(StartWaiter(w, q).world, p, t, flow, returned)
  {
    var w' := StartWaiter(w, q).world;
    var port := w.ports[q];
    var h := Handout(q, port.waiters[0], port.queue[0], true);
    assert w'.log == w.log + [h];
    LogAppend(w.log, h, p, t);
    Shift(PacketsFrom(w.log, p), port.queue);
    Shift(RestartsBy(w.log, p), port.waiters);
  }

  lemma CheckBooks<P>(w: World<P>, p: P, t: Thread, flow: seq<Packet>, returned: seq<Packet>)
    requires ReadyOk(w) && ThreadsOk(w) && CheckCompletions(w).Ok?
    requires Books(w, p, t, flow, returned)
    ensures Books(CheckCompletions(w).world, p, t, flow, returned)
  {
    if w.ready != [] {
      assert w.ports[w.ready[0]].waiters[0] in w.ports[w.ready[0]].waiters;
      StartWaiterBooks(w, w.ready[0], p, t, flow, returned);
    }
  }

  lemma AppendWaiterBooks<P>(
      w: World<P>, w1: World<P>, q: P, u: Thread, p: P, t: Thread, flow: seq<Packet>, returned: seq<Packet>)
    requires q in w.ports && Books(w, p, t, flow, returned)
    requires w1.ports == w.ports[q := w.ports[q].(waiters := w.ports[q].waiters + [u])]
    requires w1.blocked == w.blocked + [(q, u)]
    requires w1.log == w.log && w1.woken == w.woken
    ensures Books(w1, p, t, flow, returned)
  {
    assert Front(w1.blocked) == w.blocked;
    assert BlocksOn(w1.blocked, p) == BlocksOn(w.blocked, p) + if q == p then [u] else [];
  }

  lemma BlockBooks<P>(w: World<P>, q: P, u: Thread, p: P, t: Thread, flow: seq<Packet>, returned: seq<Packet>)
    requires ThreadsOk(w) && q in w.ports && u in w.active && Distinct(w.ready)
    requires forall r :: r in w.ready ==> r in w.ports && (r != q ==> w.ports[r].waiters != [])
    requires Books(w, p, t, flow, returned) && Block(w, q, u).Ok?
    ensures Books(Block(w, q, u).world, p, t, flow, returned)
  {
    var port := w.ports[q];
    var w1 := w.(ports := w.ports[q := port.(waiters := port.waiters + [u])], active := w.active - {u},
                 blocked := w.blocked + [(q, u)]);
    AppendWaiterBooks(w, w1, q, u, p, t, flow, returned);
    if w1.active == {} {
      NewWaiterThreads(w, w1, q, u);
      CheckBooks(w1, p, t, flow, returned);
    }
  }

  /** A running thread that goes to a waiter list is still in one place. */
  lemma NewWaiterThreads<P>(w: World<P>, w1: World<P>, q: P, u: Thread)
    requires ThreadsOk(w) && q in w.ports && u in w.active
    requires w1.ports == w.ports[q := w.ports[q].(waiters := w.ports[q].waiters + [u])]
    requires w1.active == w.active - {u} && w1.woken == w.woken
    ensures ThreadsOk(w1)
  {
  }

  lemma DirectBooks<P>(w: World<P>, q: P, u: Thread, p: P, t: Thread, flow: seq<Packet>, returned: seq<Packet>)
    requires q in w.ports && u !in w.woken && w.ports[q].queue != [] && |w.active| <= w.ports[q].limit
    requires (forall r :: r in w.ready ==> r in w.ports) && Books(w, p, t, flow, returned)
    ensures Books(Remove(w, q, u).world, p, t, flow, returned + Reply(w, Take(q, u), t))
  {
    var port := w.ports[q];
    LogAppend(w.log, Handout(q, u, port.queue[0], false), p, t);
    Shift(PacketsFrom(w.log, p), port.queue);
  }

  lemma BusyBooks<P>(w: World<P>, q: P, u: Thread, p: P, t: Thread, flow: seq<Packet>, returned: seq<Packet>)
    requires ReadyOk(w) && ThreadsOk(w) && q in w.ports && u in w.active && Books(w, p, t, flow, returned)
    requires Block(PortWaitIdle(w, q), q, u).Ok?
    ensures Books(Block(PortWaitIdle(w, q), q, u).world, p, t, flow, returned)
  {
    BlockBooks(PortWaitIdle(w, q), q, u, p, t, flow, returned);
  }

  lemma TakeBooks<P>(w: World<P>, q: P, u: Thread, p: P, t: Thread, flow: seq<Packet>, returned: seq<Packet>)
    requires Inv(w) && q in w.ports && u in w.active && Remove(w, q, u).Ok?
    requires Books(w, p, t, flow, returned)
    ensures Books(Remove(w, q, u).world, p, t, flow, returned + Reply(w, Take(q, u), t))
  {
    var port := w.ports[q];
    assert returned + [] == returned;
    if port.queue == [] {
      BlockBooks(w, q, u, p, t, flow, returned);
    } else if |w.active| > port.limit {
      BusyBooks(w, q, u, p, t, flow, returned);
    } else {
      DirectBooks(w, q, u, p, t, flow, returned);
    }
  }

  lemma SetBooks<P>(w: World<P>, q: P, packet: Packet, p: P, t: Thread, flow: seq<Packet>, returned: seq<Packet>)
    requires Inv(w) && q in w.ports && Set(w, q, packet).Ok?
    requires Books(w, p, t, flow, returned)
    ensures Books(Set(w, q, packet).world, p, t, flow + if q == p then [packet] else [], returned)
  {
    var port := w.ports[q];
    var w1 := w.(ports := w.ports[q := port.(queue := port.queue + [packet])]);
    var flow' := flow + if q == p then [packet] else [];
    assert Books(w1, p, t, flow', returned);
    if port.waiters != [] && |w.active| < port.limit {
      assert port.waiters[0] in port.waiters;
      StartWaiterBooks(w1, q, p, t, flow', returned);
    }
  }

  lemma StepBooks<P>(w: World<P>, e: Event<P>, p: P, t: Thread, flow: seq<Packet>, returned: seq<Packet>)
    requires Inv(w) && Enabled(w, e) && Step(w, e).Ok?
    requires Books(w, p, t, flow, returned)
    ensures Books(Step(w, e).world, p, t, flow + Posted([e], p), returned + Reply(w, e, t))
  {
    assert Posted([e], p) == Posted<P>([], p) + if e.Post? && e.port == p then [e.packet] else [] by {
      assert Front([e]) == [];
    }
    assert flow + [] == flow && returned + [] == returned;
    match e
    case Post(q, packet) => SetBooks(w, q, packet, p, t, flow, returned);
    case Take(q, u) => TakeBooks(w, q, u, p, t, flow, returned);
    case Return(u) =>
    case Enter(u) =>
    case Exit(u) =>
      var w1 := w.(active := w.active - {u});
      assert ThreadsOk(w1) && Books(w1, p, t, flow, returned);
      if w1.active == {} { CheckBooks(w1, p, t, flow, returned); }
    case Check => CheckBooks(w, p, t, flow, returned);
  }

  /** A world in which nothing was posted, taken or waited for yet. */
  ghost predicate Fresh<P>(w: World<P>) {
    && w.ready == [] && w.woken == map[] && w.log == [] && w.blocked == []
    && forall p :: p in w.ports ==> w.ports[p].queue == [] && w.ports[p].waiters == [] && w.ports[p].limit >= 1
  }

  /** Conservation and order, over every run. The packets posted to a port are those it handed out,
      in hand-out order, followed by those still queued. A thread's calls of remove returned exactly
      what was handed to it, in that order, but for a packet it was restarted with and has yet to
      return. The threads that blocked on a port are those it restarted, in that order, followed by
      those still waiting. */
  lemma {:induction false} PacketsAreConserved<P>(w0: World<P>, es: seq<Event<P>>, p: P, t: Thread)
    requires Fresh(w0) && Inv(w0) && p in w0.ports && Run(w0, es).Some?
    ensures var w := Run(w0, es).value;
      && p in w.ports
      && Posted(es, p) == PacketsFrom(w.log, p) + w.ports[p].queue
      && PacketsTo(w.log, t) == Returned(w0, es, t) + Pending(w, t)
      && BlocksOn(w.blocked, p) == RestartsBy(w.log, p) + w.ports[p].waiters
  {
    RunBooks(w0, es, p, t);
  }

  lemma RunLast<P>(w0: World<P>, es: seq<Event<P>>)
    requires Inv(w0) && es != [] && Run(w0, es).Some?
    ensures var before := Run(w0, Front(es));
      before.Some? && Enabled(before.value, Last(es)) && Step(before.value, Last(es)) == Ok(Run(w0, es).value)
  {
  }

  lemma {:induction false} RunBooks<P>(w0: World<P>, es: seq<Event<P>>, p: P, t: Thread)
    requires Fresh(w0) && Inv(w0) && p in w0.ports && Run(w0, es).Some?
    ensures Books(Run(w0, es).value, p, t, Posted(es, p), Returned(w0, es, t))
  {
    if es != [] {
      RunLast(w0, es);
      RunBooks(w0, Front(es), p, t);
      var e := Last(es);
      assert Posted(es, p) == Posted(Front(es), p) + Posted([e], p) by {
        assert Front([e]) == [];
      }
      StepBooks(Run(w0, Front(es)).value, e, p, t, Posted(Front(es), p), Returned(w0, Front(es), t));
    }
  }

  lemma RunAppend<P>(w0: World<P>, es: seq<Event<P>>, e: Event<P>, w: World<P>, w': World<P>)
    requires Inv(w0) && Run(w0, es) == Some(w) && Enabled(w, e) && Step(w, e) == Ok(w')
    ensures Run(w0, es + [e]) == Some(w')
  {
    assert (es + [e])[..|es + [e]| - 1] == es;
  }

  // ------------------------------------------------------------------- the list of ports

  /** From `w` to `w'` at most one port was put behind all others on the list, one without waiters may
      have been taken off, and none was moved. */
  ghost predicate ListStep<P>(w: World<P>, w': World<P>, added: seq<P>, gone: Option<P>) {
    && |added| <= 1 && (forall p :: p in added ==> p !in w.ready)
    && w'.ready == (if gone.None? then w.ready + added else Without(w.ready + added, gone.value))
    && (gone.Some? ==> gone.value in w.ready && gone.value in w'.ports && w'.ports[gone.value].waiters == [])
  }

  lemma StartWaiterList<P>(w: World<P>, p: P) returns (gone: Option<P>)
    requires p in w.ports && w.ports[p].waiters != [] && StartWaiter(w, p).Ok?
    ensures ListStep(w, StartWaiter(w, p).world, [], gone)
  {
    gone := if |w.ports[p].waiters| == 1 && p in w.ready then Some(p) else None;
    assert w.ready + [] == w.ready;
  }

  lemma CheckList<P>(w: World<P>) returns (gone: Option<P>)
    requires ReadyOk(w) && CheckCompletions(w).Ok?
    ensures ListStep(w, CheckCompletions(w).world, [], gone)
  {
    gone := None;
    assert w.ready + [] == w.ready;
    if w.ready != [] { gone := StartWaiterList(w, w.ready[0]); }
  }

  lemma TakeList<P>(w: World<P>, p: P, t: Thread) returns (added: seq<P>, gone: Option<P>)
    requires Inv(w) && p in w.ports && t in w.active && Remove(w, p, t).Ok?
    ensures ListStep(w, Remove(w, p, t).world, added, gone)
  {
    added, gone := [], None;
    assert w.ready + [] == w.ready;
    var port := w.ports[p];
    if port.queue == [] {
      var w1 := w.(ports := w.ports[p := port.(waiters := port.waiters + [t])], active := w.active - {t},
                   blocked := w.blocked + [(p, t)]);
      if w1.active == {} { gone := CheckList(w1); }
    } else if |w.active| > port.limit {
      if p !in w.ready { added := [p]; }
      assert w.active == (w.active - {t}) + {t};
    }
  }

  /** The list of ports is first in, first out. */
  lemma ListIsFifo<P>(w: World<P>, e: Event<P>) returns (added: seq<P>, gone: Option<P>)
    requires Inv(w) && Enabled(w, e) && Step(w, e).Ok?
    ensures ListStep(w, Step(w, e).world, added, gone)
  {
    added, gone := [], None;
    assert w.ready + [] == w.ready;
    match e
    case Post(p, packet) =>
      var port := w.ports[p];
      if port.waiters != [] && |w.active| >= port.limit {
        if p !in w.ready { added := [p]; }
      } else if port.waiters != [] {
        gone := StartWaiterList(w.(ports := w.ports[p := port.(queue := port.queue + [packet])]), p);
      }
    case Take(p, t) => added, gone := TakeList(w, p, t);
    case Return(t) =>
    case Enter(t) =>
    case Exit(t) => if w.active - {t} == {} { gone := CheckList(w.(active := w.active - {t})); }
    case Check => gone := CheckList(w);
  }

  // ------------------------------------------------------------ how many threads can be running

  /** Threads that run or were restarted and are about to: the active count, once they all have. */
  ghost function Load<P>(w: World<P>): nat {
    |w.active| + |w.woken.Keys|
  }

  /** Does the step put a waiter back on the run ring? */
  ghost predicate Restarts<P>(w: World<P>, e: Event<P>)
    requires Enabled(w, e)
  {
    match e
    case Post(p, _) => w.ports[p].waiters != [] && |w.active| < w.ports[p].limit
    case Take(p, t) => w.ports[p].queue == [] && w.active == {t} && w.ready != []
    case Exit(t) => w.active == {t} && w.ready != []
    case Check => w.ready != []
    case _ => false
  }

  /** How many threads the step itself stops: one, or none. */
  ghost function Stops<P>(w: World<P>, e: Event<P>): nat
    requires Enabled(w, e)
  {
    match e
    case Take(p, _) => if w.ports[p].queue == [] || |w.active| > w.ports[p].limit then 1 else 0
    case Exit(_) => 1
    case _ => 0
  }

  lemma StartWaiterLoad<P>(w: World<P>, p: P)
    requires p in w.ports && w.ports[p].waiters != [] && StartWaiter(w, p).Ok?
    requires w.ports[p].waiters[0] !in w.woken
    ensures Load(StartWaiter(w, p).world) == Load(w) + 1
  {
    assert StartWaiter(w, p).world.woken.Keys == w.woken.Keys + {w.ports[p].waiters[0]};
  }

  lemma LeaveLoad<P>(w: World<P>, t: Thread)
    requires t in w.active && (forall p :: p in w.ready ==> p in w.ports) && Leave(w, t).Ok?
    requires forall p, u :: p in w.ports && u in w.ports[p].waiters ==> u !in w.woken
    ensures Load(Leave(w, t).world) == Load(w) - 1 + if w.active == {t} && w.ready != [] then 1 else 0
  {
    var w1 := w.(active := w.active - {t});
    assert w.active == w1.active + {t};
    if w.active == {t} && w.ready != [] {
      assert w1.ports[w.ready[0]].waiters[0] in w.ports[w.ready[0]].waiters;
      StartWaiterLoad(w1, w.ready[0]);
    }
  }

  lemma TakeLoad<P>(w: World<P>, p: P, t: Thread)
    requires Inv(w) && Enabled(w, Take(p, t)) && Remove(w, p, t).Ok?
    ensures Load(Remove(w, p, t).world) + Stops(w, Take(p, t)) == Load(w) + if Restarts(w, Take(p, t)) then 1 else 0
  {
    var port := w.ports[p];
    if port.queue == [] || |w.active| > port.limit {
      var w0 := if port.queue == [] then w else PortWaitIdle(w, p);
      var w1 := w0.(ports := w0.ports[p := port.(waiters := port.waiters + [t])],
                    blocked := w0.blocked + [(p, t)]);
      assert port.queue != [] ==> w.active != {t};
      LeaveLoad(w1, t);
    }
  }

  lemma SetLoad<P>(w: World<P>, p: P, packet: Packet)
    requires p in w.ports && Set(w, p, packet).Ok?
    requires forall t :: t in w.ports[p].waiters ==> t !in w.woken
    ensures Load(Set(w, p, packet).world) == Load(w) + if Restarts(w, Post(p, packet)) then 1 else 0
  {
    if Restarts(w, Post(p, packet)) {
      var port := w.ports[p];
      assert port.waiters[0] in port.waiters;
      StartWaiterLoad(w.(ports := w.ports[p := port.(queue := port.queue + [packet])]), p);
    }
  }

  lemma CheckLoad<P>(w: World<P>)
    requires ReadyOk(w) && CheckCompletions(w).Ok?
    requires forall p, u :: p in w.ports && u in w.ports[p].waiters ==> u !in w.woken
    ensures Load(CheckCompletions(w).world) == Load(w) + if w.ready != [] then 1 else 0
  {
    if w.ready != [] {
      assert w.ports[w.ready[0]].waiters[0] in w.ports[w.ready[0]].waiters;
      StartWaiterLoad(w, w.ready[0]);
    }
  }

  lemma ResumeLoad<P>(w: World<P>, t: Thread)
    requires t in w.woken && t !in w.active
    ensures Load(Resume(w, t)) == Load(w)
  {
    assert w.woken.Keys == Resume(w, t).woken.Keys + {t};
  }

  /** The exact effect of every step on the load. */
  lemma StepLoad<P>(w: World<P>, e: Event<P>)
    requires Inv(w) && Enabled(w, e) && Step(w, e).Ok?
    ensures Load(Step(w, e).world) + Stops(w, e)
         == Load(w) + (if Restarts(w, e) then 1 else 0) + if e.Enter? then 1 else 0
  {
    match e
    case Post(p, packet) => SetLoad(w, p, packet);
    case Take(p, t) => TakeLoad(w, p, t);
    case Return(t) => ResumeLoad(w, t);
    case Enter(t) =>
    case Exit(t) => LeaveLoad(w, t);
    case Check => CheckLoad(w);
  }

  /** Every prefix of a run is a run. */
  lemma {:induction false} PrefixRuns<P>(w0: World<P>, es: seq<Event<P>>, k: nat)
    requires Inv(w0) && Run(w0, es).Some? && k <= |es|
    ensures Run(w0, es[..k]).Some?
    decreases |es|
  {
    if k == |es| {
      assert es[..k] == es;
    } else {
      RunLast(w0, es);
      PrefixRuns(w0, Front(es), k);
      assert Front(es)[..k] == es[..k];
    }
  }

  /** The world before event `k` of a run. */
  ghost function At<P>(w0: World<P>, es: seq<Event<P>>, k: nat): (w: World<P>)
    requires Inv(w0) && Run(w0, es).Some? && k <= |es|
    ensures Inv(w) && (k < |es| ==> Enabled(w, es[k]))
  {
    PrefixRuns(w0, es, k);
    if k < |es| then EventAt(w0, es, k); Run(w0, es[..k]).value else Run(w0, es[..k]).value
  }

  lemma EventAt<P>(w0: World<P>, es: seq<Event<P>>, k: nat)
    requires Inv(w0) && Run(w0, es).Some? && k < |es|
    ensures Run(w0, es[..k]).Some? && Run(w0, es[..k + 1]).Some?
    ensures Enabled(Run(w0, es[..k]).value, es[k])
    ensures Step(Run(w0, es[..k]).value, es[k]) == Ok(Run(w0, es[..k + 1]).value)
  {
    PrefixRuns(w0, es, k + 1);
    RunLast(w0, es[..k + 1]);
    assert Front(es[..k + 1]) == es[..k];
  }

  lemma LoadAt<P>(w0: World<P>, es: seq<Event<P>>, k: nat)
    requires Inv(w0) && Run(w0, es).Some? && k < |es| && !es[k].Enter?
    ensures var w := At(w0, es, k);
      Load(At(w0, es, k + 1)) + Stops(w, es[k]) == Load(w) + if Restarts(w, es[k]) then 1 else 0
  {
    EventAt(w0, es, k);
    StepLoad(At(w0, es, k), es[k]);
  }

  ghost predicate Within<P>(w0: World<P>, es: seq<Event<P>>, bound: nat, k: nat)
    requires Inv(w0) && Run(w0, es).Some? && k <= |es|
  {
    Load(At(w0, es, k)) <= bound
  }

  /** Does event `k` restart a waiter although `bound` other threads run or were restarted already? */
  ghost predicate Overcommits<P>(w0: World<P>, es: seq<Event<P>>, bound: nat, k: nat)
    requires Inv(w0) && Run(w0, es).Some? && k < |es|
  {
    var w := At(w0, es, k);
    Restarts(w, es[k]) && Load(w) - Stops(w, es[k]) >= bound
  }

  lemma WithinStep<P>(w0: World<P>, es: seq<Event<P>>, bound: nat, k: nat)
    requires Inv(w0) && Run(w0, es).Some? && k < |es| && !es[k].Enter?
    ensures Within(w0, es, bound, k) && !Overcommits(w0, es, bound, k) ==> Within(w0, es, bound, k + 1)
    ensures Overcommits(w0, es, bound, k) ==> !Within(w0, es, bound, k + 1)
  {
    LoadAt(w0, es, k);
  }

  lemma {:induction false} WithinUpTo<P>(w0: World<P>, es: seq<Event<P>>, bound: nat, k: nat)
    requires Inv(w0) && Run(w0, es).Some? && Load(w0) <= bound && k <= |es|
    requires forall i :: 0 <= i < |es| ==> !es[i].Enter?
    requires forall i :: 0 <= i < k ==> !Overcommits(w0, es, bound, i)
    ensures Within(w0, es, bound, k)
  {
    if k > 0 {
      WithinUpTo(w0, es, bound, k - 1);
      WithinStep(w0, es, bound, k - 1);
    }
  }

  /** A run in which no other thread starts keeps its load within `bound` exactly when none of its
      restarts happens with `bound` threads already running or restarted. */
  lemma WithinExactly<P>(w0: World<P>, es: seq<Event<P>>, bound: nat)
    requires Inv(w0) && Run(w0, es).Some? && Load(w0) <= bound
    requires forall i :: 0 <= i < |es| ==> !es[i].Enter?
    ensures (forall k :: 0 <= k <= |es| ==> Within(w0, es, bound, k))
       <==> (forall k :: 0 <= k < |es| ==> !Overcommits(w0, es, bound, k))
  {
    forall k | 0 <= k < |es| && Overcommits(w0, es, bound, k)
      ensures !Within(w0, es, bound, k + 1)
    {
      WithinStep(w0, es, bound, k);
    }
    forall k | 0 <= k <= |es| && (forall i :: 0 <= i < |es| ==> !Overcommits(w0, es, bound, i))
      ensures Within(w0, es, bound, k)
    {
      WithinUpTo(w0, es, bound, k);
    }
  }

  /** The concurrency limit holds on runs in which every restarted thread runs before the next
      restart and check_completions is called below the limit. */
  lemma PromptRunsKeepTheLimit<P>(w0: World<P>, es: seq<Event<P>>, limit: nat, k: nat)
    requires Inv(w0) && Run(w0, es).Some? && k <= |es| && limit >= 1
    requires forall i :: 0 <= i < |es| ==> !es[i].Enter?
    requires forall i :: 0 <= i < |es| && Restarts(At(w0, es, i), es[i]) ==>
      var w := At(w0, es, i);
      && w.woken == map[]
      && (es[i].Check? ==> |w.active| < limit)
      && (es[i].Post? ==> w.ports[es[i].port].limit <= limit)
    ensures var bound := if Load(w0) > limit then Load(w0) else limit;
      |At(w0, es, k).active| <= bound
  {
    var bound := if Load(w0) > limit then Load(w0) else limit;
    forall i | 0 <= i < |es| ensures !Overcommits(w0, es, bound, i) {
      var w := At(w0, es, i);
      if Restarts(w, es[i]) { assert Load(w) == |w.active|; }
    }
    WithinUpTo(w0, es, bound, k);
  }

  /** The load is reached: whatever was restarted can run next, and then counts as active. */
  lemma {:induction false} EveryoneReturns<P>(w: World<P>, ts: set<Thread>) returns (es: seq<Event<P>>)
    requires Inv(w) && ts <= w.woken.Keys
    ensures forall i :: 0 <= i < |es| ==> es[i].Return?
    ensures Run(w, es).Some?
    ensures var w' := Run(w, es).value; w'.active == w.active + ts && w'.woken == w.woken - ts
  {
    if ts == {} {
      es := [];
      assert w.woken - {} == w.woken;
    } else {
      var t :| t in ts;
      var es1 := EveryoneReturns(w, ts - {t});
      es := es1 + [Return(t)];
      var w1 := Run(w, es1).value;
      RunAppend(w, es1, Return(t), w1, Resume(w1, t));
      assert ts - {t} + {t} == ts;
      assert w.woken - (ts - {t}) - {t} == w.woken - ts;
    }
  }

  ghost predicate OnlyReturns<P>(rs: seq<Event<P>>) {
    forall i :: 0 <= i < |rs| ==> rs[i].Return?
  }

  /** However many of the restarted threads run next, the active count stays within `bound`. */
  ghost predicate SettlesWithin<P(!new)>(w: World<P>, bound: nat)
    requires Inv(w)
  {
    forall rs: seq<Event<P>> :: OnlyReturns(rs) && Run(w, rs).Some? ==> |Run(w, rs).value.active| <= bound
  }

  lemma {:induction false} ReturnsKeepLoad<P>(w: World<P>, rs: seq<Event<P>>)
    requires Inv(w) && OnlyReturns(rs) && Run(w, rs).Some?
    ensures Load(Run(w, rs).value) == Load(w)
  {
    if rs != [] {
      RunLast(w, rs);
      ReturnsKeepLoad(w, Front(rs));
      StepLoad(Run(w, Front(rs)).value, Last(rs));
    }
  }

  lemma SettlesExactly<P(!new)>(w: World<P>, bound: nat)
    requires Inv(w)
    ensures SettlesWithin(w, bound) <==> Load(w) <= bound
  {
    forall rs: seq<Event<P>> | OnlyReturns(rs) && Run(w, rs).Some?
      ensures |Run(w, rs).value.active| <= Load(w)
    {
      ReturnsKeepLoad(w, rs);
    }
    var rs := EveryoneReturns(w, w.woken.Keys);
    ReturnsKeepLoad(w, rs);
    var w' := Run(w, rs).value;
    assert OnlyReturns(rs) && w'.woken.Keys == {};
  }

  /** The concurrency limit, exactly: on a run in which no other thread starts, the active count stays
      within `bound` at every point, whichever of the restarted threads run there, exactly when no
      event of the run restarts a waiter with `bound` threads already running or restarted. */
  lemma ActiveWithinExactly<P(!new)>(w0: World<P>, es: seq<Event<P>>, bound: nat)
    requires Inv(w0) && Run(w0, es).Some? && Load(w0) <= bound
    requires forall i :: 0 <= i < |es| ==> !es[i].Enter?
    ensures (forall k :: 0 <= k <= |es| ==> SettlesWithin(At(w0, es, k), bound))
       <==> (forall k :: 0 <= k < |es| ==> !Overcommits(w0, es, bound, k))
  {
    forall k | 0 <= k <= |es| ensures SettlesWithin(At(w0, es, k), bound) <==> Within(w0, es, bound, k) {
      SettlesExactly(At(w0, es, k), bound);
    }
    WithinExactly(w0, es, bound);
  }

  // ----------------------------------------------------------------- starving a listed port

  /** The port is listed although it has no packet: serving it would fail an assert. */
  ghost predicate Starved<P>(w: World<P>, p: P)
    requires p in w.ports
  {
    p in w.ready && w.ports[p].queue == []
  }

  /** The step takes the last packet of `p` and leaves it a waiter: either a thread takes the packet
      directly, or check_completions serves one of several waiters. */
  ghost predicate TakesLast<P>(w: World<P>, e: Event<P>, p: P)
    requires Enabled(w, e) && p in w.ports
  {
    var port := w.ports[p];
    && |port.queue| == 1
    && match e
       case Post(_, _) => false
       case Take(q, _) =>
         if q == p then |w.active| <= port.limit && port.waiters != []
         else Restarts(w, e) && w.ready[0] == p && |port.waiters| >= 2
       case _ => Restarts(w, e) && w.ready[0] == p && |port.waiters| >= 2
  }

  lemma CheckStarves<P>(w: World<P>, p: P)
    requires ReadyOk(w) && p in w.ports && CheckCompletions(w).Ok?
    ensures var w' := CheckCompletions(w).world;
      && p in w'.ports
      && (Starved(w', p) <==>
            || Starved(w, p)
            || (w.ready != [] && w.ready[0] == p && |w.ports[p].queue| == 1 && |w.ports[p].waiters| >= 2))
  {
    if w.ready != [] { WithoutMembers(w.ready, w.ready[0]); }
  }

  lemma TakeStarves<P>(w: World<P>, q: P, t: Thread, p: P)
    requires Inv(w) && q in w.ports && t in w.active && p in w.ports && Remove(w, q, t).Ok?
    ensures var w' := Remove(w, q, t).world;
      p in w'.ports && (Starved(w', p) <==> Starved(w, p) || TakesLast(w, Take(q, t), p))
  {
    var port := w.ports[q];
    assert w.active == (w.active - {t}) + {t};
    if port.queue == [] {
      var w1 := w.(ports := w.ports[q := port.(waiters := port.waiters + [t])], active := w.active - {t},
                   blocked := w.blocked + [(q, t)]);
      if w1.active == {} { CheckStarves(w1, p); }
    }
  }

  lemma PostStarves<P>(w: World<P>, q: P, packet: Packet, p: P)
    requires ReadyOk(w) && q in w.ports && p in w.ports && Set(w, q, packet).Ok?
    ensures var w' := Set(w, q, packet).world;
      p in w'.ports && (Starved(w', p) ==> Starved(w, p))
  {
    if w.ports[q].waiters != [] && |w.active| < w.ports[q].limit { WithoutMembers(w.ready, q); }
  }

  lemma ExitStarves<P>(w: World<P>, t: Thread, p: P)
    requires ReadyOk(w) && t in w.active && p in w.ports && Leave(w, t).Ok?
    ensures var w' := Leave(w, t).world;
      p in w'.ports && (Starved(w', p) <==> Starved(w, p) || TakesLast(w, Exit(t), p))
  {
    assert w.active == (w.active - {t}) + {t};
    if w.active == {t} { CheckStarves(w.(active := w.active - {t}), p); }
  }

  /** Exactly the steps that starve a listed port. */
  lemma StarvesExactly<P>(w: World<P>, e: Event<P>, p: P)
    requires Inv(w) && Enabled(w, e) && Step(w, e).Ok? && p in w.ports
    ensures var w' := Step(w, e).world;
      p in w'.ports && (Starved(w', p) && !Starved(w, p) <==> TakesLast(w, e, p))
  {
    match e
    case Post(q, packet) => PostStarves(w, q, packet, p);
    case Take(q, t) => TakeStarves(w, q, t, p);
    case Return(t) =>
    case Enter(t) =>
    case Exit(t) => ExitStarves(w, t, p);
    case Check => CheckStarves(w, p);
  }
}
