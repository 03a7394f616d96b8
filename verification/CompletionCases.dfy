/** Runs that show what the completion port code does not guarantee. Each starts in a fresh world with
    one port, numbered 0, and the threads 1, 2 and 3 running. */
module CompletionCases {
  import opened Common
  import opened Completion
  import opened CompletionRuns

  type Id = nat

  const A := Packet(1, 2, 3, 4)
  const B := Packet(5, 6, 7, 8)

  function Start(limit: nat): World<Id> {
    World(map[0 := Port(limit, [], [])], [], {1, 2, 3}, map[], [], [])
  }

  /** What matters of a world with port 0. */
  ghost predicate Looks(w: World<Id>, port: Port, ready: seq<Id>, active: set<Thread>, woken: set<Thread>) {
    0 in w.ports && w.ports[0] == port && w.ready == ready && w.active == active && w.woken.Keys == woken
  }

  /** The events lead from `w0` to such a world. */
  ghost predicate Reached(
      w0: World<Id>, es: seq<Event<Id>>, port: Port, ready: seq<Id>, active: set<Thread>, woken: set<Thread>) {
    Inv(w0) && Run(w0, es).Some? && Looks(Run(w0, es).value, port, ready, active, woken)
  }

  /** The kernel aborts when `e` happens after the events. */
  ghost predicate Aborts(w0: World<Id>, es: seq<Event<Id>>, e: Event<Id>) {
    Inv(w0) && Run(w0, es).Some? && Enabled(Run(w0, es).value, e) && Step(Run(w0, es).value, e) == Abort
  }

  /** A fresh world as described above. */
  ghost predicate Begins(w0: World<Id>, limit: nat) {
    Fresh(w0) && Reached(w0, [], Port(limit, [], []), [], {1, 2, 3}, {})
  }

  lemma StartBegins(limit: nat)
    requires limit >= 1
    ensures Begins(Start(limit), limit)
  {
  }

  // --------------------------------------------------------------- one lemma for each kind of step

  /** A thread blocks on the empty queue while others run. */
  lemma TakeBlocks(
      w0: World<Id>, es: seq<Event<Id>>, t: Thread, port: Port, ready: seq<Id>, active: set<Thread>, woken: set<Thread>)
    requires Reached(w0, es, port, ready, active, woken) && t in active && active != {t} && port.queue == []
    ensures Reached(w0, es + [Take(0, t)], port.(waiters := port.waiters + [t]), ready, active - {t}, woken)
  {
    var w := Run(w0, es).value;
    assert w.active == (w.active - {t}) + {t};
    RunAppend(w0, es, Take(0, t), w, Step(w, Take(0, t)).world);
  }

  /** A thread takes a packet directly. */
  lemma TakeDirectly(
      w0: World<Id>, es: seq<Event<Id>>, t: Thread, port: Port, ready: seq<Id>, active: set<Thread>, woken: set<Thread>)
    requires Reached(w0, es, port, ready, active, woken) && t in active && port.queue != [] && |active| <= port.limit
    ensures Reached(w0, es + [Take(0, t)], port.(queue := port.queue[1..]), ready, active, woken)
  {
    var w := Run(w0, es).value;
    RunAppend(w0, es, Take(0, t), w, Step(w, Take(0, t)).world);
  }

  /** A packet is posted to a busy port, which is then listed. */
  lemma PostLists(w0: World<Id>, es: seq<Event<Id>>, x: Packet, port: Port, active: set<Thread>, woken: set<Thread>)
    requires Reached(w0, es, port, [], active, woken) && port.waiters != [] && |active| >= port.limit
    ensures Reached(w0, es + [Post(0, x)], port.(queue := port.queue + [x]), [0], active, woken)
  {
    var w := Run(w0, es).value;
    RunAppend(w0, es, Post(0, x), w, Step(w, Post(0, x)).world);
  }

  /** A packet is posted to a port that is not busy, and restarts its first waiter. */
  lemma PostStarts(w0: World<Id>, es: seq<Event<Id>>, x: Packet, port: Port, active: set<Thread>, woken: set<Thread>)
    requires Reached(w0, es, port, [], active, woken) && port.waiters != [] && port.queue == [] && |active| < port.limit
    ensures Reached(w0, es + [Post(0, x)], port.(waiters := port.waiters[1..]), [], active, woken + {port.waiters[0]})
  {
    var w := Run(w0, es).value;
    RunAppend(w0, es, Post(0, x), w, Step(w, Post(0, x)).world);
  }

  /** A thread stops while others run. */
  lemma ExitQuietly(
      w0: World<Id>, es: seq<Event<Id>>, t: Thread, port: Port, ready: seq<Id>, active: set<Thread>, woken: set<Thread>)
    requires Reached(w0, es, port, ready, active, woken) && t in active && active != {t}
    ensures Reached(w0, es + [Exit(t)], port, ready, active - {t}, woken)
  {
    var w := Run(w0, es).value;
    assert w.active == (w.active - {t}) + {t};
    RunAppend(w0, es, Exit(t), w, Step(w, Exit(t)).world);
  }

  /** The last running thread stops, and one of several waiters is restarted. */
  lemma ExitServes(w0: World<Id>, es: seq<Event<Id>>, t: Thread, port: Port, woken: set<Thread>)
    requires Reached(w0, es, port, [0], {t}, woken) && port.queue != [] && |port.waiters| >= 2
    ensures Reached(w0, es + [Exit(t)], Port(port.limit, port.queue[1..], port.waiters[1..]), [0],
                    {}, woken + {port.waiters[0]})
  {
    var w := Run(w0, es).value;
    assert w.active - {t} == {};
    RunAppend(w0, es, Exit(t), w, Step(w, Exit(t)).world);
  }

  /** A restarted thread runs. */
  lemma Returns(
      w0: World<Id>, es: seq<Event<Id>>, t: Thread, port: Port, ready: seq<Id>, active: set<Thread>, woken: set<Thread>)
    requires Reached(w0, es, port, ready, active, woken) && t in woken
    ensures Reached(w0, es + [Return(t)], port, ready, active + {t}, woken - {t})
  {
    var w := Run(w0, es).value;
    RunAppend(w0, es, Return(t), w, Resume(w, t));
  }

  /** The last running thread stops although the listed port has no packet. */
  lemma ExitAborts(w0: World<Id>, es: seq<Event<Id>>, t: Thread, port: Port, woken: set<Thread>)
    requires Reached(w0, es, port, [0], {t}, woken) && port.queue == []
    ensures Aborts(w0, es, Exit(t))
  {
    AbortsExactly(Run(w0, es).value, Exit(t));
  }

  /** A packet is posted to a port that is not busy but has a packet queued. */
  lemma PostAborts(
      w0: World<Id>, es: seq<Event<Id>>, x: Packet, port: Port, ready: seq<Id>, active: set<Thread>, woken: set<Thread>)
    requires Reached(w0, es, port, ready, active, woken)
    requires port.queue != [] && port.waiters != [] && |active| < port.limit
    ensures Aborts(w0, es, Post(0, x))
  {
    AbortsExactly(Run(w0, es).value, Post(0, x));
  }

  // ------------------------------------------------------------------------------------- the runs

  /** Thread 1 waits; a packet is posted while threads 2 and 3 run, so it is queued and the port is
      listed; thread 3 stops. */
  lemma PacketIsQueued(w0: World<Id>, es: seq<Event<Id>>, limit: nat)
    requires Reached(w0, es, Port(limit, [], []), [], {1, 2, 3}, {}) && 1 <= limit <= 2
    ensures Reached(w0, es + [Take(0, 1)] + [Post(0, A)] + [Exit(3)], Port(limit, [A], [1]), [0], {2}, {})
  {
    assert {1, 2, 3} - {1} == {2, 3} && {2, 3} - {3} == {2} && |{2, 3}| == 2;
    TakeBlocks(w0, es, 1, Port(limit, [], []), [], {1, 2, 3}, {});
    PostLists(w0, es + [Take(0, 1)], A, Port(limit, [], [1]), {2, 3}, {});
    ExitQuietly(w0, es + [Take(0, 1)] + [Post(0, A)], 3, Port(limit, [A], [1]), [0], {2, 3}, {});
  }

  /** Port 0 serves one thread at a time. After the above, thread 2 takes the packet directly, which
      leaves the port listed; and when thread 2 stops, check_completions finds no packet for thread 1
      and the assert in start_waiter fails. */
  lemma ListedPortCanStarve(w0: World<Id>) returns (es: seq<Event<Id>>)
    requires Begins(w0, 1)
    ensures Reached(w0, es, Port(1, [], [1]), [0], {2}, {}) && Aborts(w0, es, Exit(2))
  {
    PacketIsQueued(w0, [], 1);
    es := [] + [Take(0, 1)] + [Post(0, A)] + [Exit(3)];
    TakeDirectly(w0, es, 2, Port(1, [A], [1]), [0], {2}, {});
    es := es + [Take(0, 2)];
    ExitAborts(w0, es, 2, Port(1, [], [1]), {});
  }

  /** The assert that the queue is empty after a post that restarts a waiter can fail. Port 0 has limit
      2; after the above the port is no longer busy, but the packet is still queued when the next one
      is posted. */
  lemma QueueCanBeLeftOver(w0: World<Id>) returns (es: seq<Event<Id>>)
    requires Begins(w0, 2)
    ensures Reached(w0, es, Port(2, [A], [1]), [0], {2}, {}) && Aborts(w0, es, Post(0, B))
  {
    PacketIsQueued(w0, [], 2);
    es := [] + [Take(0, 1)] + [Post(0, A)] + [Exit(3)];
    PostAborts(w0, es, B, Port(2, [A], [1]), [0], {2}, {});
  }

  /** Threads 2 and 3 wait. */
  lemma TwoWait(w0: World<Id>, es: seq<Event<Id>>, limit: nat)
    requires Reached(w0, es, Port(limit, [], []), [], {1, 2, 3}, {})
    ensures Reached(w0, es + [Take(0, 2)] + [Take(0, 3)], Port(limit, [], [2, 3]), [], {1}, {})
  {
    assert {1, 2, 3} - {2} == {1, 3} && {1, 3} - {3} == {1} && [2] + [3] == [2, 3];
    TakeBlocks(w0, es, 2, Port(limit, [], []), [], {1, 2, 3}, {});
    TakeBlocks(w0, es + [Take(0, 2)], 3, Port(limit, [], [2]), [], {1, 3}, {});
  }

  lemma FirstIsServed(w0: World<Id>, es: seq<Event<Id>>)
    requires Reached(w0, es, Port(1, [], [2, 3]), [], {1}, {})
    ensures Reached(w0, es + [Post(0, A)] + [Exit(1)], Port(1, [], [3]), [0], {}, {2})
  {
    assert [2, 3][1..] == [3] && {} + {2} == {2};
    PostLists(w0, es, A, Port(1, [], [2, 3]), {1}, {});
    ExitServes(w0, es + [Post(0, A)], 1, Port(1, [A], [2, 3]), {});
  }

  /** A port starves without a direct take, too. After the above one packet is posted to a port of limit
      1; thread 1 stops, which restarts thread 2 and leaves the port listed for thread 3; and when
      thread 2 has run and stops, there is no packet for thread 3. */
  lemma ServedPortCanStarve(w0: World<Id>) returns (es: seq<Event<Id>>)
    requires Begins(w0, 1)
    ensures Reached(w0, es, Port(1, [], [3]), [0], {2}, {}) && Aborts(w0, es, Exit(2))
  {
    TwoWait(w0, [], 1);
    es := [] + [Take(0, 2)] + [Take(0, 3)];
    assert {2} - {2} == {} && {} + {2} == {2};
    FirstIsServed(w0, es);
    es := es + [Post(0, A)] + [Exit(1)];
    Returns(w0, es, 2, Port(1, [], [3]), [0], {}, {2});
    es := es + [Return(2)];
    ExitAborts(w0, es, 2, Port(1, [], [3]), {});
  }

  /** Port 0 has limit 2, and threads 2 and 3 come to wait, so that one thread is active. It posts two
      packets; each finds fewer than two threads active, because a restarted thread does not count
      until it runs; then both waiters run, and three threads are active. */
  lemma LimitCanBeExceeded(w0: World<Id>) returns (before: seq<Event<Id>>, es: seq<Event<Id>>)
    requires Begins(w0, 2)
    ensures before == [] + [Take(0, 2)] + [Take(0, 3)]
    ensures Reached(w0, before, Port(2, [], [2, 3]), [], {1}, {}) && |{1}| == 1
    ensures es == before + [Post(0, A)] + [Post(0, B)] + [Return(2)] + [Return(3)]
    ensures Reached(w0, es, Port(2, [], []), [], {1, 2, 3}, {}) && |{1, 2, 3}| == 3
  {
    TwoWait(w0, [], 2);
    before := [] + [Take(0, 2)] + [Take(0, 3)];
    BothRestart(w0, before);
    BothReturn(w0, before + [Post(0, A)] + [Post(0, B)]);
    es := before + [Post(0, A)] + [Post(0, B)] + [Return(2)] + [Return(3)];
  }

  lemma BothReturn(w0: World<Id>, es: seq<Event<Id>>)
    requires Reached(w0, es, Port(2, [], []), [], {1}, {2, 3})
    ensures Reached(w0, es + [Return(2)] + [Return(3)], Port(2, [], []), [], {1, 2, 3}, {})
  {
    assert {2, 3} - {2} == {3} && {1} + {2} == {1, 2} && {1, 2} + {3} == {1, 2, 3} && {3} - {3} == {};
    Returns(w0, es, 2, Port(2, [], []), [], {1}, {2, 3});
    Returns(w0, es + [Return(2)], 3, Port(2, [], []), [], {1, 2}, {3});
  }

  lemma BothRestart(w0: World<Id>, es: seq<Event<Id>>)
    requires Reached(w0, es, Port(2, [], [2, 3]), [], {1}, {})
    ensures Reached(w0, es + [Post(0, A)] + [Post(0, B)], Port(2, [], []), [], {1}, {2, 3})
  {
    assert [2, 3][1..] == [3] && [3][1..] == [] && {} + {2} == {2} && {2} + {3} == {2, 3};
    PostStarts(w0, es, A, Port(2, [], [2, 3]), {1}, {});
    PostStarts(w0, es + [Post(0, A)], B, Port(2, [], [3]), {1}, {2});
  }
}
