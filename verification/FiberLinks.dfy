/** The `next` and `prev` pointers of kernel/fiber.cpp as maps, and the proof that rewriting them
    keeps them in step with the schedule: at every moment they spell out exactly one ring. */
module FiberLinks {
  import opened Common
  import opened FiberSchedule

  /** The two pointers of every fiber; `None` is a null pointer. */
  datatype Links<F> = Links(next: map<F, Option<F>>, prev: map<F, Option<F>>)

  /** Position `j` comes behind position `i` on a ring of `n`. */
  predicate Adjacent(i: int, j: int, n: int) {
    0 <= i < n && 0 <= j < n && j == if i + 1 < n then i + 1 else 0
  }

  ghost predicate NextOk<F>(next: map<F, Option<F>>, o: seq<F>) {
    && (forall f :: f in o ==> f in next)
    && (forall i, j :: Adjacent(i, j, |o|) ==> next[o[i]] == Some(o[j]))
  }

  ghost predicate PrevOk<F>(prev: map<F, Option<F>>, o: seq<F>) {
    && (forall f :: f in o ==> f in prev)
    && (forall i, j :: Adjacent(i, j, |o|) ==> prev[o[j]] == Some(o[i]))
  }

  /** On the runnable fibers `prev` is the inverse of `next`, and `next` leads through them in the
      order of the schedule and back to the current one; every other fiber has a null `prev`. */
  ghost predicate Represents<F>(l: Links<F>, r: Ring<F>) {
    && Valid(r) && l.next.Keys == l.prev.Keys
    && NextOk(l.next, r.order) && PrevOk(l.prev, Runnable(r))
    && forall f :: f in l.prev && f !in Runnable(r) ==> l.prev[f] == None
  }

  /** remove_from_runlist on the current fiber `c`. */
  function Unlink<F>(l: Links<F>, c: F): Links<F>
    requires c in l.next && l.next[c].Some? && c in l.prev && l.prev[c].Some?
  {
    var n, p := l.next[c].value, l.prev[c].value;
    Links(l.next[p := Some(n)], l.prev[n := Some(p)][c := None])
  }

  /** start of `f` while `c` is current. */
  function Insert<F(==)>(l: Links<F>, c: F, f: F): Links<F>
    requires c in l.next && l.next[c].Some?
  {
    var n := l.next[c].value;
    var p := if n == f then f else c;  // f's own prev, should f be its own successor already
    Links(l.next[f := Some(n)][p := Some(f)], l.prev[f := Some(c)][n := Some(f)])
  }

  lemma YieldRepresents<F>(l: Links<F>, r: Ring<F>)
    requires Represents(l, r)
    ensures Represents(l, Yield(r))
  {
    var o, n := r.order, |r.order|;
    var o' := Yield(r).order;
    StepKeeps(r, Yielding);
    SameElements(o);
    forall i, j | Adjacent(i, j, n)
      ensures l.next[o'[i]] == Some(o'[j]) && (!r.detached ==> l.prev[o'[j]] == Some(o'[i]))
    {
      var i0, j0 := if i + 1 < n then i + 1 else 0, if j + 1 < n then j + 1 else 0;
      assert o'[i] == o[i0] && o'[j] == o[j0] && Adjacent(i0, j0, n);
    }
  }

  lemma SameElements<F>(o: seq<F>)
    requires o != []
    ensures forall f :: f in o <==> f in o[1..] + [o[0]]
  {
    assert o == [o[0]] + o[1..];
  }

  lemma UnlinkNext<F>(next: map<F, Option<F>>, o: seq<F>)
    requires NextOk(next, o) && Distinct(o) && |o| > 1
    ensures NextOk(next[o[|o| - 1] := Some(o[1])], o[1..])
  {
    var n := |o|;
    forall i, j | Adjacent(i, j, n - 1) ensures next[o[n - 1] := Some(o[1])][o[1..][i]] == Some(o[1..][j]) {
      assert Adjacent(i + 1, if i + 2 < n then i + 2 else 0, n);
    }
  }

  lemma UnlinkPrev<F>(prev: map<F, Option<F>>, o: seq<F>)
    requires PrevOk(prev, o) && Distinct(o) && |o| > 1
    ensures PrevOk(prev[o[1] := Some(o[|o| - 1])][o[0] := None], o[1..])
  {
    var n := |o|;
    forall i, j | Adjacent(i, j, n - 1)
      ensures prev[o[1] := Some(o[n - 1])][o[0] := None][o[1..][j]] == Some(o[1..][i])
    {
      assert Adjacent(i + 1, if i + 2 < n then i + 2 else 0, n);
    }
  }

  lemma StopRepresents<F>(l: Links<F>, r: Ring<F>)
    requires Represents(l, r) && !r.detached
    ensures var c := r.order[0];
      && c in l.next && l.next[c].Some? && c in l.prev && l.prev[c].Some?
      && Represents(Unlink(l, c), Stop(r))
  {
    var o, n := r.order, |r.order|;
    StepKeeps(r, Stopping);
    assert Adjacent(n - 1, 0, n) && Adjacent(0, if 1 < n then 1 else 0, n);
    if n > 1 {
      UnlinkNext(l.next, o);
      UnlinkPrev(l.prev, o);
      assert o == [o[0]] + o[1..];
    }
  }

  lemma StartRepresents<F>(l: Links<F>, r: Ring<F>, f: F)
    requires Represents(l, r) && f !in Runnable(r) && f in l.next
    ensures var c := r.order[0];
      c in l.next && l.next[c].Some? && Represents(Insert(l, c, f), Start(r, f))
  {
    var o, n := r.order, |r.order|;
    StepKeeps(r, Starting(f));
    assert Adjacent(0, if 1 < n then 1 else 0, n);
    var l' := Insert(l, o[0], f);
    if f != o[0] {
      var o' := Start(r, f).order;
      assert o' == [o[0], f] + o[1..];
      forall i, j | Adjacent(i, j, n + 1)
        ensures l'.next[o'[i]] == Some(o'[j]) && l'.prev[o'[j]] == Some(o'[i])
      {
        if i >= 2 { assert Adjacent(i - 1, if i < n then i else 0, n); }
      }
    }
  }

  // ------------------------------------------------------- the pointer machine

  /** Everything the code looks at: the pointers and current_fiber. */
  datatype Machine<F> = Machine(links: Links<F>, current: F)

  ghost predicate Refines<F>(m: Machine<F>, r: Ring<F>) {
    Represents(m.links, r) && m.current == r.order[0]
  }

  /** yield and the change of current_fiber in switch_fiber. */
  function Switch<F(==)>(m: Machine<F>): Machine<F>
    requires m.current in m.links.next
  {
    var n := m.links.next[m.current];
    if n == None || n == Some(m.current) then m else m.(current := n.value)
  }

  /** One operation; `None` when one of its asserts fails. */
  function Operate<F(==)>(m: Machine<F>, e: Event<F>): Option<Machine<F>>
    requires m.current in m.links.next && m.links.next.Keys == m.links.prev.Keys
    requires e.Starting? ==> e.fiber in m.links.prev
  {
    var l, c := m.links, m.current;
    match e
    case Yielding => Some(Switch(m))
    case Stopping =>
      var n, p := l.next[c], l.prev[c];
      if && n.Some? && p.Some?
         && p.value in l.next && l.next[p.value] == Some(c)
         && n.value in l.prev && l.prev[n.value] == Some(c)
      then Some(Switch(m.(links := Unlink(l, c)))) else None
    case Starting(f) =>
      if l.prev[f] == None && l.next[c].Some? then Some(m.(links := Insert(l, c, f))) else None
  }

  /** An operation passes its asserts exactly when the schedule allows it, and then does what the
      schedule says. */
  lemma OperateRefines<F>(m: Machine<F>, r: Ring<F>, e: Event<F>)
    requires Refines(m, r) && (e.Starting? ==> e.fiber in m.links.prev)
    ensures Operate(m, e).Some? <==> Enabled(r, e)
    ensures Enabled(r, e) ==>
      && Refines(Operate(m, e).value, Step(r, e))
      && Operate(m, e).value.links.next.Keys == m.links.next.Keys
  {
    var o, n := r.order, |r.order|;
    assert Adjacent(n - 1, 0, n) && Adjacent(0, if 1 < n then 1 else 0, n);
    match e
    case Yielding => YieldRepresents(m.links, r);
    case Stopping => if !r.detached { StopRepresents(m.links, r); }
    case Starting(f) =>
      if f !in Runnable(r) { StartRepresents(m.links, r, f); } else { RunnableHasPrev(m.links, r, f); }
  }

  lemma RunnableHasPrev<F>(l: Links<F>, r: Ring<F>, f: F)
    requires Represents(l, r) && f in Runnable(r)
    ensures f in l.prev && l.prev[f].Some?
  {
    var j :| 0 <= j < |r.order| && r.order[j] == f;
    assert Adjacent(if j > 0 then j - 1 else |r.order| - 1, j, |r.order|);
  }

  ghost function RunMachine<F>(m: Machine<F>, r: Ring<F>, es: seq<Event<F>>): (o: Option<Machine<F>>)
    requires Refines(m, r) && forall i :: 0 <= i < |es| && es[i].Starting? ==> es[i].fiber in m.links.next
    ensures o.Some? <==> Run(r, es).Some?
    ensures o.Some? ==> Refines(o.value, Run(r, es).value) && o.value.links.next.Keys == m.links.next.Keys
  {
    if es == [] then Some(m) else
    var before := RunMachine(m, r, es[..|es| - 1]);
    if before.None? then None else
    OperateRefines(before.value, Run(r, es[..|es| - 1]).value, es[|es| - 1]);
    Operate(before.value, es[|es| - 1])
  }

  /** fibers_init, with the fibers that will ever be used: one on the ring, the others unlinked. */
  lemma InitRefines<F>(main: F, all: set<F>)
    requires main in all
    ensures var next := map f | f in all :: if f == main then Some(main) else None;
      Refines(Machine(Links(next, next), main), Ring([main], false))
  {
  }

  /** Following `next` from `f`, `k` times. */
  ghost function Walk<F>(l: Links<F>, f: F, k: nat): Option<F> {
    if k == 0 then Some(f) else
    var before := Walk(l, f, k - 1);
    if before.None? || before.value !in l.next then None else l.next[before.value]
  }

  /** Following `next` from the current fiber visits every fiber of the ring once and comes back. */
  lemma {:induction false} WalkVisitsRing<F>(m: Machine<F>, r: Ring<F>, k: nat)
    requires Refines(m, r) && k <= |r.order|
    ensures Walk(m.links, m.current, k) == Some(r.order[if k < |r.order| then k else 0])
  {
    if k > 0 {
      WalkVisitsRing(m, r, k - 1);
      assert Adjacent(k - 1, if k < |r.order| then k else 0, |r.order|);
    }
  }

  predicate LastFiber<F(==)>(m: Machine<F>)
    requires m.current in m.links.next
  {
    m.links.next[m.current] == Some(m.current)
  }

  /** last_fiber says that at most one fiber is runnable. That it is exactly one, as its name says,
      holds exactly while the current fiber is on the ring. */
  lemma LastFiberExactly<F>(m: Machine<F>, r: Ring<F>)
    requires Refines(m, r)
    ensures LastFiber(m) <==> |Runnable(r)| <= 1
    ensures (LastFiber(m) <==> |Runnable(r)| == 1) <==> !r.detached
  {
    assert Adjacent(0, if 1 < |r.order| then 1 else 0, |r.order|);
  }

  /** The only fiber stops: it goes on running, last_fiber holds, and no fiber is runnable. */
  lemma StopByTheOnlyFiber<F>(m: Machine<F>, main: F)
    requires Refines(m, Ring([main], false))
    ensures Run(Ring([main], false), [Stopping]) == Some(Ring([main], true))
    ensures var m' := RunMachine(m, Ring([main], false), [Stopping]);
      m'.Some? && Refines(m'.value, Ring([main], true)) && LastFiber(m'.value) && Runnable(Ring([main], true)) == []
  {
    var r, r' := Ring([main], false), Ring([main], true);
    var es: seq<Event<F>> := [Stopping];
    assert es[..0] == [] && Run(r, []) == Some(r);
    LastFiberExactly(RunMachine(m, r, [Stopping]).value, r');
  }

  /** A fiber that is created during a run joins the others unlinked. */
  lemma NewFiberRefines<F>(m: Machine<F>, r: Ring<F>, f: F)
    requires Refines(m, r) && f !in m.links.next
    ensures f !in r.order
    ensures Refines(m.(links := Links(m.links.next[f := None], m.links.prev[f := None])), r)
  {
  }
}
