/** What repeated calls of check_completions do: they serve the listed ports one after the other, each
    waiter with its packet, exactly if there are packets enough. */
module CompletionDrain {
  import opened Common
  import opened Completion
  import opened CompletionRuns

  // ------------------------------------------------------------------------------- repeated calls

  ghost function Iterate<S>(f: S -> S, s: S, n: nat): S {
    if n == 0 then s else f(Iterate(f, s, n - 1))
  }

  lemma {:induction false} IterateTwice<S>(f: S -> S, s: S, m: nat, n: nat)
    ensures Iterate(f, s, m + n) == Iterate(f, Iterate(f, s, m), n)
  {
    if n > 0 { IterateTwice(f, s, m, n - 1); }
  }

  lemma {:induction false} IterateFixed<S>(f: S -> S, s: S, n: nat)
    requires f(s) == s
    ensures Iterate(f, s, n) == s
  {
    if n > 0 { IterateFixed(f, s, n - 1); }
  }

  /** check_completions in a kernel that has not aborted. */
  ghost function Check1<P>(o: Outcome<P>): Outcome<P> {
    if o.Ok? && ReadyOk(o.world) then CheckCompletions(o.world) else Abort
  }

  /** `n` calls of check_completions. */
  ghost function Checked<P>(w: World<P>, n: nat): Outcome<P> {
    Iterate(Check1<P>, Ok(w), n)
  }

  lemma CheckedTwice<P>(w: World<P>, m: nat, w1: World<P>, n: nat)
    requires Checked(w, m) == Ok(w1)
    ensures Checked(w, m + n) == Checked(w1, n)
  {
    IterateTwice(Check1<P>, Ok(w), m, n);
  }

  lemma CheckedAborts<P>(w: World<P>, m: nat, w1: World<P>, n: nat)
    requires Checked(w, m) == Ok(w1) && Check1(Ok(w1)) == Abort && m < n
    ensures Checked(w, n) == Abort
  {
    IterateTwice(Check1<P>, Ok(w), m + 1, n - m - 1);
    IterateFixed(Check1<P>, Abort, n - m - 1);
  }

  // ------------------------------------------------------------------------------------- one port

  /** `w'` is `w` after the first listed port gave its first `n` packets to its first `n` waiters,
      the i-th packet to the i-th waiter, and left the list if no waiter remains. */
  ghost predicate Drained<P>(w: World<P>, n: nat, w': World<P>)
    requires w.ready != [] && w.ready[0] in w.ports
    requires var port := w.ports[w.ready[0]]; n <= |port.waiters| && n <= |port.queue|
  {
    var p := w.ready[0];
    var port := w.ports[p];
    && w'.ports == w.ports[p := Port(port.limit, port.queue[n..], port.waiters[n..])]
    && w'.active == w.active
    && w'.ready == (if n == |port.waiters| then w.ready[1..] else w.ready)
    && (forall i :: 0 <= i < n ==> port.waiters[i] in w'.woken && w'.woken[port.waiters[i]] == port.queue[i])
    && (forall t :: t !in port.waiters[..n] ==> Pending(w', t) == Pending(w, t))
  }

  lemma DrainOne<P>(w: World<P>, n: nat, w1: World<P>)
    requires w.ready != [] && w.ready[0] in w.ports && Distinct(w.ports[w.ready[0]].waiters)
    requires var port := w.ports[w.ready[0]]; n < |port.waiters| && n < |port.queue|
    requires Drained(w, n, w1) && ReadyOk(w1)
    ensures CheckCompletions(w1).Ok? && Drained(w, n + 1, CheckCompletions(w1).world)
  {
    var port := w.ports[w.ready[0]];
    assert w1.ready[0] == w.ready[0];
    assert port.waiters[n..][1..] == port.waiters[n + 1..] && port.queue[n..][1..] == port.queue[n + 1..];
    assert port.waiters[..n + 1] == port.waiters[..n] + [port.waiters[n]];
  }

  lemma DrainNone<P>(w: World<P>)
    requires w.ready != [] && w.ready[0] in w.ports && w.ports[w.ready[0]].waiters != []
    ensures Drained(w, 0, w)
  {
    assert w.ports[w.ready[0] := w.ports[w.ready[0]]] == w.ports;
  }

  ghost predicate Listed<P>(w: World<P>) {
    ReadyOk(w) && ThreadsOk(w)
  }

  /** If the first listed port has `n` packets and `n` waiters or more, then `n` calls of
      check_completions serve its first `n` waiters in order, and serving the last one takes the port
      off the list. */
  lemma {:induction false} ChecksDrain<P>(w: World<P>, n: nat) returns (w': World<P>)
    requires Listed(w) && w.ready != []
    requires var port := w.ports[w.ready[0]]; n <= |port.waiters| && n <= |port.queue|
    ensures Checked(w, n) == Ok(w') && Listed(w') && Drained(w, n, w')
  {
    if n == 0 {
      w' := w;
      DrainNone(w);
    } else {
      var w1 := ChecksDrain(w, n - 1);
      DrainOne(w, n - 1, w1);
      w' := CheckCompletions(w1).world;
      StartWaiterKeeps(w1, w1.ready[0]);
    }
  }

  // ------------------------------------------------------------------------------- the whole list

  /** The threads that wait on the ports of a list. */
  ghost function Waiting<P>(ports: map<P, Port>, list: seq<P>): nat
    requires forall p :: p in list ==> p in ports
  {
    if list == [] then 0 else |ports[list[0]].waiters| + Waiting(ports, list[1..])
  }

  /** Every listed port has a packet for each of its waiters. */
  ghost predicate Supplied<P>(w: World<P>)
    requires ReadyOk(w)
  {
    forall p :: p in w.ready ==> |w.ports[p].waiters| <= |w.ports[p].queue|
  }

  /** Every listed port has handed a packet to each of its waiters, and the other ports are as before. */
  ghost predicate PortsServed<P>(w: World<P>, w': World<P>)
    requires ReadyOk(w) && Supplied(w)
  {
    && w'.ready == [] && w'.active == w.active && w'.ports.Keys == w.ports.Keys
    && (forall p :: p in w.ports && p !in w.ready ==> w'.ports[p] == w.ports[p])
    && (forall p :: p in w.ready ==>
          w'.ports[p] == Port(w.ports[p].limit, w.ports[p].queue[|w.ports[p].waiters|..], []))
  }

  ghost predicate WaitsListed<P>(w: World<P>, t: Thread)
    requires ReadyOk(w)
  {
    exists p :: p in w.ready && t in w.ports[p].waiters
  }

  /** The i-th waiter of each listed port got its i-th packet, and no other thread got any. */
  ghost predicate PacketsServed<P>(w: World<P>, w': World<P>)
    requires ReadyOk(w) && Supplied(w)
  {
    && (forall p, i :: p in w.ready && 0 <= i < |w.ports[p].waiters| ==>
          Pending(w', w.ports[p].waiters[i]) == [w.ports[p].queue[i]])
    && (forall t :: !WaitsListed(w, t) ==> Pending(w', t) == Pending(w, t))
  }

  /** Waiters are counted alike where no listed port differs. */
  lemma {:induction false} WaitingSame<P>(ports: map<P, Port>, ports': map<P, Port>, list: seq<P>)
    requires forall p :: p in list ==> p in ports && p in ports' && ports'[p] == ports[p]
    ensures Waiting(ports', list) == Waiting(ports, list)
  {
    if list != [] { WaitingSame(ports, ports', list[1..]); }
  }

  /** `w1` is `w` after all waiters of the first port, which had packets enough, were served. */
  ghost predicate FirstServed<P>(w: World<P>, w1: World<P>) {
    && ReadyOk(w) && ReadyOk(w1) && w.ready != []
    && |w.ports[w.ready[0]].waiters| <= |w.ports[w.ready[0]].queue|
    && Drained(w, |w.ports[w.ready[0]].waiters|, w1)
  }

  /** The first port is off the list then, and the others are as they were. */
  lemma NextPort<P>(w: World<P>, w1: World<P>)
    requires FirstServed(w, w1)
    ensures w.ready == [w.ready[0]] + w1.ready
    ensures forall p :: p in w1.ready ==> p != w.ready[0] && w1.ports[p] == w.ports[p]
    ensures Waiting(w.ports, w.ready) == |w.ports[w.ready[0]].waiters| + Waiting(w1.ports, w1.ready)
    ensures Supplied(w1) <==> Supplied(w)
  {
    forall p | p in w1.ready ensures p != w.ready[0] && w1.ports[p] == w.ports[p] {
      var i :| 0 <= i < |w1.ready| && w1.ready[i] == p;
      assert w.ready[i + 1] == p;
    }
    WaitingSame(w.ports, w1.ports, w1.ready);
  }

  lemma RestOfCalls<P>(w: World<P>, n: nat, w1: World<P>)
    requires FirstServed(w, w1) && n == |w.ports[w.ready[0]].waiters| && Checked(w, n) == Ok(w1)
    ensures Checked(w, Waiting(w.ports, w.ready)) == Checked(w1, Waiting(w1.ports, w1.ready))
  {
    NextPort(w, w1);
    CheckedTwice(w, n, w1, Waiting(w1.ports, w1.ready));
  }

  /** The calls serve the first port, if it has packets enough, and go on with the others. */
  lemma FirstPort<P>(w: World<P>) returns (w1: World<P>)
    requires Listed(w) && w.ready != [] && |w.ports[w.ready[0]].waiters| <= |w.ports[w.ready[0]].queue|
    ensures Listed(w1) && FirstServed(w, w1)
    ensures Checked(w, Waiting(w.ports, w.ready)) == Checked(w1, Waiting(w1.ports, w1.ready))
  {
    var n := |w.ports[w.ready[0]].waiters|;
    w1 := ChecksDrain(w, n);
    RestOfCalls(w, n, w1);
  }

  lemma PortsThenRest<P>(w: World<P>, w1: World<P>, w2: World<P>)
    requires FirstServed(w, w1) && Supplied(w) && Supplied(w1) && PortsServed(w1, w2)
    ensures PortsServed(w, w2)
  {
    NextPort(w, w1);
    var port := w.ports[w.ready[0]];
    assert port.waiters[|port.waiters|..] == [];
    assert forall p :: p in w.ready <==> p == w.ready[0] || p in w1.ready;
  }

  lemma PacketsThenRest<P>(w: World<P>, w1: World<P>, w2: World<P>)
    requires FirstServed(w, w1) && ThreadsOk(w) && Supplied(w) && Supplied(w1) && PacketsServed(w1, w2)
    ensures PacketsServed(w, w2)
  {
    NextPort(w, w1);
    var port := w.ports[w.ready[0]];
    assert port.waiters[..|port.waiters|] == port.waiters;
    forall t | t in port.waiters || !WaitsListed(w, t) ensures !WaitsListed(w1, t) {
    }
  }

  lemma {:induction false} SupplyServesAll<P>(w: World<P>) returns (w': World<P>)
    requires Listed(w) && Supplied(w)
    ensures Checked(w, Waiting(w.ports, w.ready)) == Ok(w') && PortsServed(w, w') && PacketsServed(w, w')
    decreases |w.ready|
  {
    w' := w;
    if w.ready != [] {
      var w1 := FirstPort(w);
      NextPort(w, w1);
      w' := SupplyServesAll(w1);
      PortsThenRest(w, w1, w');
      PacketsThenRest(w, w1, w');
    }
  }

  lemma Exhausted<P>(w: World<P>, q: nat, w1: World<P>)
    requires w.ready != [] && w.ready[0] in w.ports
    requires var port := w.ports[w.ready[0]]; q == |port.queue| < |port.waiters|
    requires Drained(w, q, w1)
    ensures Check1(Ok(w1)) == Abort
  {
  }

  /** A first port with too few packets aborts the kernel. */
  lemma ShortPortAborts<P>(w: World<P>, q: nat, n: nat)
    requires Listed(w) && w.ready != []
    requires var port := w.ports[w.ready[0]]; q == |port.queue| < |port.waiters| <= n
    ensures Checked(w, n) == Abort
  {
    var w1 := ChecksDrain(w, q);
    Exhausted(w, q, w1);
    CheckedAborts(w, q, w1, n);
  }

  lemma {:induction false} ShortageAborts<P>(w: World<P>)
    requires Listed(w) && !Supplied(w)
    ensures Checked(w, Waiting(w.ports, w.ready)) == Abort
    decreases |w.ready|
  {
    var port := w.ports[w.ready[0]];
    if |port.queue| < |port.waiters| {
      ShortPortAborts(w, |port.queue|, Waiting(w.ports, w.ready));
    } else {
      var w1 := FirstPort(w);
      NextPort(w, w1);
      ShortageAborts(w1);
    }
  }

  // ------------------------------------------------------------------------------------ as a run

  function Checks<P>(n: nat): (es: seq<Event<P>>)
    ensures |es| == n
  {
    if n == 0 then [] else Checks(n - 1) + [Check]
  }

  lemma RunAborts<P>(w0: World<P>, es: seq<Event<P>>, e: Event<P>, w: World<P>)
    requires Inv(w0) && Run(w0, es) == Some(w) && Enabled(w, e) && Step(w, e) == Abort
    ensures Run(w0, es + [e]).None?
  {
    assert (es + [e])[..|es + [e]| - 1] == es;
  }

  lemma RunStays<P>(w0: World<P>, es: seq<Event<P>>, e: Event<P>)
    requires Inv(w0) && Run(w0, es).None?
    ensures Run(w0, es + [e]).None?
  {
    assert (es + [e])[..|es + [e]| - 1] == es;
  }

  ghost function Reached<P>(o: Outcome<P>): Option<World<P>> {
    if o.Ok? then Some(o.world) else None
  }

  lemma RunThenCheck<P>(w: World<P>, es: seq<Event<P>>, o: Outcome<P>)
    requires Inv(w) && Run(w, es) == Reached(o)
    ensures Run(w, es + [Check]) == Reached(Check1(o))
  {
    if o.Abort? {
      RunStays(w, es, Check);
    } else if CheckCompletions(o.world).Abort? {
      RunAborts(w, es, Check, o.world);
    } else {
      RunAppend(w, es, Check, o.world, CheckCompletions(o.world).world);
    }
  }

  lemma {:induction false} CheckedIsRun<P>(w: World<P>, n: nat)
    requires Inv(w)
    ensures Run(w, Checks(n)) == Reached(Checked(w, n))
  {
    if n > 0 {
      CheckedIsRun(w, n - 1);
      RunThenCheck(w, Checks(n - 1), Checked(w, n - 1));
    }
  }

  /** As many calls of check_completions as threads wait on listed ports run without a failed assert
      exactly when every listed port has a packet for each of its waiters; and then they serve all of
      them and leave nothing listed. */
  lemma DrainsExactly<P>(w: World<P>)
    requires Inv(w)
    ensures var run := Run(w, Checks(Waiting(w.ports, w.ready)));
      && (run.Some? <==> Supplied(w))
      && (Supplied(w) ==> PortsServed(w, run.value) && PacketsServed(w, run.value))
  {
    CheckedIsRun(w, Waiting(w.ports, w.ready));
    if Supplied(w) {
      var _ := SupplyServesAll(w);
    } else {
      ShortageAborts(w);
    }
  }
}
