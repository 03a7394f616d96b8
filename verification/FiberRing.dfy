/** The fiber objects of kernel/fiber.cpp and the methods that rewrite their links and
    `current_fiber`, proved against the pointer machine of `FiberLinks`. */
module FiberRing {
  import opened Common
  import opened FiberSchedule
  import opened FiberLinks

  class Fiber {
    var next: Fiber?
    var prev: Fiber?

    constructor ()
      ensures next == null && prev == null
    {
      next, prev := null, null;
    }
  }

  ghost function Pointer(f: Fiber?): Option<Fiber> {
    if f == null then None else Some(f)
  }

  class Scheduler {
    var current: Fiber
    ghost var fibers: set<Fiber>

    /** No pointer leads out of the fibers. */
    ghost predicate Inside()
      reads this, fibers
    {
      current in fibers
      && forall f :: f in fibers ==> (f.next != null ==> f.next in fibers) && (f.prev != null ==> f.prev in fibers)
    }

    ghost function Abs(): Machine<Fiber>
      reads this, fibers
    {
      Machine(Links(map f | f in fibers :: Pointer(f.next), map f | f in fibers :: Pointer(f.prev)), current)
    }

    constructor FibersInit()
      ensures Inside() && fresh(fibers) && fibers == {current} && Refines(Abs(), Ring([current], false))
    {
      var t := new Fiber();
      t.next, t.prev := t, t;
      current, fibers := t, {t};
    }

    /** A new fiber is on no ring. */
    method NewFiber() returns (f: Fiber)
      requires Inside()
      modifies this`fibers
      ensures Inside() && fresh(f) && fibers == old(fibers) + {f}
      ensures var l := old(Abs()).links; Abs().links == Links(l.next[f := None], l.prev[f := None])
    {
      f := new Fiber();
      fibers := fibers + {f};
    }

    method SetNext(f: Fiber, g: Fiber?)
      requires f in fibers
      modifies f`next
      ensures f.next == g
      ensures var m := old(Abs()); Abs() == m.(links := m.links.(next := m.links.next[f := Pointer(g)]))
    {
      f.next := g;
    }

    method SetPrev(f: Fiber, g: Fiber?)
      requires f in fibers
      modifies f`prev
      ensures f.prev == g
      ensures var m := old(Abs()); Abs() == m.(links := m.links.(prev := m.links.prev[f := Pointer(g)]))
    {
      f.prev := g;
    }

    /** yield, with the change of current_fiber that switch_fiber makes. */
    method Yield()
      requires Inside()
      modifies this`current
      ensures Inside() && Some(Abs()) == Operate(old(Abs()), Yielding)
    {
      if current.next == null { return; }
      if current.next == current { return; }
      current := current.next;
      assert Abs().links == old(Abs()).links;
      assert old(Abs()).links.next[old(current)] == Some(current);
    }

    /** Takes the current fiber off the ring; its `next` stays for the switch. */
    method RemoveFromRunlist()
      requires Inside() && current.next != null && current.prev != null
      modifies fibers
      ensures Inside() && Abs() == old(Abs()).(links := Unlink(old(Abs()).links, current))
    {
      SetPrev(current.next, current.prev);
      SetNext(current.prev, current.next);
      SetPrev(current, null);
    }

    /** Stops the current fiber, whichever fiber it is called on. */
    method Stop()
      requires Inside() && Operate(Abs(), Stopping).Some?
      modifies this`current, fibers
      ensures Inside() && Some(Abs()) == Operate(old(Abs()), Stopping)
    {
      assert current.next != null && current.prev != null;
      assert current.prev.next == current && current.next.prev == current;
      RemoveFromRunlist();
      Yield();
    }

    /** Puts `f` behind the current fiber. */
    method Start(f: Fiber)
      requires Inside() && f in fibers && Operate(Abs(), Starting(f)).Some?
      modifies fibers
      ensures Inside() && Some(Abs()) == Operate(old(Abs()), Starting(f))
    {
      assert f.prev == null;
      SetNext(f, current.next);
      SetPrev(f, current);
      SetPrev(f.next, f);
      SetNext(f.prev, f);
    }

    method IsLastFiber() returns (last: bool)
      requires Inside()
      ensures last <==> LastFiber(Abs())
    {
      last := current.next == current;
    }
  }
}
