/** The run ring of kernel/fiber.cpp as a sequence: the current fiber first, then the others in the
    order they will run. `detached` is the state after the only runnable fiber stopped: it goes on
    running although it is no longer on the ring. */
module FiberSchedule {
  import opened Common

  datatype Ring<T> = Ring(order: seq<T>, detached: bool)

  ghost predicate Valid<T>(r: Ring<T>) {
    r.order != [] && Distinct(r.order) && (r.detached ==> |r.order| == 1)
  }

  /** The fibers linked in both directions. */
  function Runnable<T>(r: Ring<T>): seq<T> {
    if r.detached then [] else r.order
  }

  function Yield<T>(r: Ring<T>): Ring<T>
    requires r.order != []
  {
    r.(order := r.order[1..] + [r.order[0]])
  }

  /** Always removes the current fiber. */
  function Stop<T>(r: Ring<T>): Ring<T>
    requires r.order != []
  {
    if |r.order| == 1 then r.(detached := true) else r.(order := r.order[1..])
  }

  /** Puts `f` right behind the current fiber; a detached current fiber is back on the ring. */
  function Start<T(==)>(r: Ring<T>, f: T): Ring<T>
    requires r.order != []
  {
    if f == r.order[0] then r.(detached := false) else Ring([r.order[0], f] + r.order[1..], false)
  }

  datatype Event<T> = Yielding | Stopping | Starting(fiber: T)

  /** What the asserts demand: stop needs a current fiber on the ring, start a fiber that is not. */
  ghost predicate Enabled<T>(r: Ring<T>, e: Event<T>) {
    match e
    case Yielding => true
    case Stopping => !r.detached
    case Starting(f) => f !in Runnable(r)
  }

  function Step<T(==)>(r: Ring<T>, e: Event<T>): Ring<T>
    requires r.order != []
  {
    match e
    case Yielding => Yield(r)
    case Stopping => Stop(r)
    case Starting(f) => Start(r, f)
  }

  lemma StepKeeps<T>(r: Ring<T>, e: Event<T>)
    requires Valid(r) && Enabled(r, e)
    ensures Valid(Step(r, e))
  {
    var r' := Step(r, e);
    match e
    case Yielding =>
    case Stopping =>
    case Starting(f) =>
      forall i, j | 0 <= i < j < |r'.order| ensures r'.order[i] != r'.order[j] {
        if r'.order != r.order {
          assert i == 0 || i == 1 || r'.order[i] == r.order[i - 1];
          assert j == 1 || r'.order[j] == r.order[j - 1];
        }
      }
  }

  /** Which fibers are runnable after a step: stop takes the current fiber off the ring and no other,
      and start puts its fiber on, together with a current fiber that had stopped itself. */
  lemma RunnableExactly<T>(r: Ring<T>, e: Event<T>, f: T)
    requires Valid(r) && Enabled(r, e)
    ensures f in Runnable(Step(r, e)) <==>
      match e
      case Yielding => f in Runnable(r)
      case Stopping => f in Runnable(r) && f != r.order[0]
      case Starting(g) => f in Runnable(r) || f == g || f == r.order[0]
  {
    assert r.order == [r.order[0]] + r.order[1..];
  }

  /** Which fiber runs after a step: stop goes to the next one, if there is one; a started fiber waits
      for the next switch and is then the first. */
  lemma CurrentExactly<T>(r: Ring<T>, e: Event<T>)
    requires Valid(r) && Enabled(r, e)
    ensures Step(r, e).order[0] == if e.Starting? || |r.order| == 1 then r.order[0] else r.order[1]
    ensures e.Starting? ==> Yield(Step(r, e)).order[0] == e.fiber
  {
  }

  /** The ring after a run, or `None` if an assert fails on the way. */
  ghost function Run<T>(r: Ring<T>, es: seq<Event<T>>): (o: Option<Ring<T>>)
    requires Valid(r)
    ensures o.Some? ==> Valid(o.value)
  {
    if es == [] then Some(r) else
    var before := Run(r, es[..|es| - 1]);
    var e := es[|es| - 1];
    if before.None? || !Enabled(before.value, e) then None else
    StepKeeps(before.value, e);
    Some(Step(before.value, e))
  }

  lemma RunAppend<T>(r: Ring<T>, es: seq<Event<T>>, e: Event<T>)
    requires Valid(r) && Run(r, es).Some? && Enabled(Run(r, es).value, e)
    ensures Run(r, es + [e]) == Some(Step(Run(r, es).value, e))
  {
    assert (es + [e])[..|es + [e]| - 1] == es;
  }

  /** A fiber that is not on the ring and does not run stays so until it is started. */
  lemma {:induction false} StaysOff<T>(r: Ring<T>, es: seq<Event<T>>, f: T)
    requires Valid(r) && Run(r, es).Some? && f !in r.order && Starting(f) !in es
    ensures f !in Run(r, es).value.order
  {
    if es != [] {
      var front, e := es[..|es| - 1], es[|es| - 1];
      assert es == front + [e];
      StaysOff(r, front, f);
      var r1 := Run(r, front).value;
      RunnableExactly(r1, e, f);
      CurrentExactly(r1, e);
      assert Step(r1, e).detached ==> Step(r1, e).order == [Step(r1, e).order[0]];
    }
  }

  /** A fiber that stops while others are runnable runs again only after it was started. */
  lemma StoppedUntilStarted<T>(r: Ring<T>, es: seq<Event<T>>)
    requires Valid(r) && Enabled(r, Stopping) && |r.order| > 1
    requires Valid(Step(r, Stopping)) && Run(Step(r, Stopping), es).Some? && Starting(r.order[0]) !in es
    ensures var r' := Run(Step(r, Stopping), es).value;
      r.order[0] !in Runnable(r') && r.order[0] != r'.order[0]
  {
    StaysOff(Step(r, Stopping), es, r.order[0]);
  }

  // ------------------------------------------------------------------ delay

  function Switches<T>(es: seq<Event<T>>): nat {
    if es == [] then 0 else Switches(es[..|es| - 1]) + if es[|es| - 1].Starting? then 0 else 1
  }

  function Starts<T>(es: seq<Event<T>>): nat {
    if es == [] then 0 else Starts(es[..|es| - 1]) + if es[|es| - 1].Starting? then 1 else 0
  }

  /** A fiber at distance `d` is not reached before `d` switches plus one for every start. */
  ghost predicate StillWaiting<T>(es: seq<Event<T>>, d: nat) {
    forall k :: 0 <= k < |es| ==> Switches(es[..k]) < d + Starts(es[..k])
  }

  lemma StepShifts<T>(r: Ring<T>, e: Event<T>, d: nat)
    requires Valid(r) && Enabled(r, e) && 1 <= d < |r.order|
    ensures var d' := if e.Starting? then d + 1 else d - 1;
      d' < |Step(r, e).order| && Step(r, e).order[d'] == r.order[d]
  {
  }

  /** Exact scheduling delay: as long as it waits, a fiber at distance `d` is at distance
      `d` plus starts minus switches; so it is first current after exactly `d` plus starts switches. */
  lemma {:induction false} ExactDelay<T>(r: Ring<T>, es: seq<Event<T>>, d: nat)
    requires Valid(r) && d < |r.order| && Run(r, es).Some? && StillWaiting(es, d)
    ensures var r' := Run(r, es).value;
      var now := d + Starts(es) - Switches(es);
      && 0 <= now < |r'.order| && r'.order[now] == r.order[d]
      && (r'.order[0] == r.order[d] <==> Switches(es) == d + Starts(es))
  {
    if es != [] {
      var front := es[..|es| - 1];
      assert forall k :: 0 <= k < |front| ==> front[..k] == es[..k];
      ExactDelay(r, front, d);
      StepShifts(Run(r, front).value, es[|es| - 1], d + Starts(front) - Switches(front));
    }
  }

  function Yields<T>(n: nat): (es: seq<Event<T>>)
    ensures |es| == n
  {
    if n == 0 then [] else Yields(n - 1) + [Yielding]
  }

  function Rotated<T>(s: seq<T>, n: nat): seq<T>
    requires n <= |s|
  {
    s[n..] + s[..n]
  }

  lemma RotateOne<T>(s: seq<T>, n: nat)
    requires n < |s|
    ensures Rotated(s, n)[1..] + [Rotated(s, n)[0]] == Rotated(s, n + 1)
  {
    assert s[..n + 1] == s[..n] + [s[n]];
  }

  /** Round robin: with nothing else happening, the i-th yield makes the i-th fiber of the ring current. */
  lemma {:induction false} RoundRobin<T>(r: Ring<T>, n: nat)
    requires Valid(r) && n <= |r.order|
    ensures Run(r, Yields(n)).Some? && Run(r, Yields(n)).value == r.(order := Rotated(r.order, n))
    ensures var r' := Run(r, Yields(n)).value;
      r'.order[0] == r.order[if n == |r.order| then 0 else n]
  {
    if n == 0 {
      assert Rotated(r.order, 0) == r.order;
    } else {
      RoundRobin(r, n - 1);
      RotateOne(r.order, n - 1);
      RunAppend(r, Yields(n - 1), Yielding);
    }
  }

  /** In one round of `n` yields every fiber of the ring is current after exactly one of them. */
  lemma EachOnceARound<T>(r: Ring<T>, i: nat, k: nat)
    requires Valid(r) && i < |r.order| && k < |r.order|
    ensures Run(r, Yields(k)).Some? && (Run(r, Yields(k)).value.order[0] == r.order[i] <==> k == i)
  {
    RoundRobin(r, k);
  }
}
