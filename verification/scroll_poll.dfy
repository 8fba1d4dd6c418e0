/**
 The event side of the header script: a scroll event only raises the
 `didScroll` flag, and a timer tick runs the header rule when the flag is up
 and then lowers it. The real-time interval and the browser's event dispatch
 are abstracted into a sequence of events; the scroll position and the
 header's height that a tick reads are carried by the tick event.
 */
module ScrollPoll {
  import opened HeaderRule

  datatype State = State(lastScrollTop: real, didScroll: bool, top: HeaderTop)

  /** The script's state when it loads: no pending scroll, position 0, `top` never written. */
  const Initial: State := State(0.0, false, Unset)

  datatype Event =
    | Scroll                               // the window's scroll handler
    | Tick(st: real, headerHeight: real)   // one firing of the interval timer

  /** The scroll handler only raises the flag. */
  function OnScroll(s: State): (r: State)
    ensures r.didScroll
    ensures r.lastScrollTop == s.lastScrollTop && r.top == s.top
  {
    s.(didScroll := true)
  }

  /** A timer tick: without a pending scroll nothing changes; with one, the
      rule runs once and the flag is lowered. */
  function OnTick(s: State, st: real, headerHeight: real): (r: State)
    ensures !r.didScroll
    ensures !s.didScroll ==> r == s
    ensures s.didScroll ==> r.lastScrollTop == st
    ensures s.didScroll ==> r.top == Apply(HasScrolled(s.lastScrollTop, st, headerHeight).action, s.top)
  {
    if s.didScroll then
      var d := HasScrolled(s.lastScrollTop, st, headerHeight);
      State(d.lastScrollTop, false, Apply(d.action, s.top))
    else s
  }

  function Step(s: State, e: Event): State {
    match e
    case Scroll => OnScroll(s)
    case Tick(st, h) => OnTick(s, st, h)
  }

  /** The state after the events, in order. */
  function Run(s: State, es: seq<Event>): State
    decreases |es|
  {
    if es == [] then s else Run(Step(s, es[0]), es[1..])
  }

  lemma {:induction false} RunAppend(s: State, a: seq<Event>, b: seq<Event>)
    ensures Run(s, a + b) == Run(Run(s, a), b)
    decreases |a|
  {
    if a == [] {
      assert a + b == b;
    } else {
      assert (a + b)[1..] == a[1..] + b;
      RunAppend(Step(s, a[0]), a[1..], b);
    }
  }

  /** Ticks with no scroll pending change nothing, however many there are. */
  lemma {:induction false} IdleTicksChangeNothing(s: State, es: seq<Event>)
    requires !s.didScroll
    requires forall i :: 0 <= i < |es| ==> es[i].Tick?
    ensures Run(s, es) == s
    decreases |es|
  {
    if es != [] {
      assert forall i :: 0 <= i < |es[1..]| ==> es[1..][i] == es[i + 1];
      IdleTicksChangeNothing(s, es[1..]);
    }
  }

  /** Until the first scroll event, ticks leave the script as it loaded: `top`
      never written and the recorded position 0. */
  lemma {:induction false} TicksBeforeFirstScroll(es: seq<Event>)
    requires forall i :: 0 <= i < |es| ==> es[i].Tick?
    ensures Run(Initial, es).top == Unset && Run(Initial, es).lastScrollTop == 0.0
    ensures !Run(Initial, es).didScroll
  {
    IdleTicksChangeNothing(Initial, es);
  }

  /** `n` scroll events in a row. */
  function Scrolls(n: nat): (es: seq<Event>)
    ensures |es| == n && forall i :: 0 <= i < n ==> es[i] == Scroll
  {
    if n == 0 then [] else [Scroll] + Scrolls(n - 1)
  }

  /** Any burst of scroll events between two ticks counts as one. */
  lemma {:induction false} ScrollsCoalesce(s: State, n: nat, es: seq<Event>)
    requires n >= 1
    ensures Run(s, Scrolls(n) + es) == Run(s, [Scroll] + es)
  {
    RunAppend(s, Scrolls(n), es);
    RunAppend(s, [Scroll], es);
    ScrollsRaiseFlag(s, n);
    assert Run(s, [Scroll]) == OnScroll(s) by {
      assert [Scroll][1..] == [];
    }
  }

  lemma {:induction false} ScrollsRaiseFlag(s: State, n: nat)
    requires n >= 1
    ensures Run(s, Scrolls(n)) == OnScroll(s)
    decreases n
  {
    if n > 1 {
      assert Scrolls(n)[1..] == Scrolls(n - 1);
      ScrollsRaiseFlag(OnScroll(s), n - 1);
    } else {
      assert Scrolls(1)[1..] == [];
    }
  }

  /** A tick taken right after a scroll applies the rule exactly once. */
  lemma ScrollThenTick(s: State, st: real, h: real)
    ensures var d := HasScrolled(s.lastScrollTop, st, h);
            Run(s, [Scroll, Tick(st, h)]) == State(st, false, Apply(d.action, s.top))
  {
    var es := [Scroll, Tick(st, h)];
    assert es[1..] == [Tick(st, h)] && es[1..][1..] == [];
    calc {
      Run(s, es);
      Run(OnScroll(s), [Tick(st, h)]);
      Run(OnTick(OnScroll(s), st, h), []);
    }
  }

  /** Where the header's `top` can be after any events: where it started, 0,
      or minus a height read by one of the ticks. */
  ghost predicate TopReachable(top: HeaderTop, start: HeaderTop, es: seq<Event>) {
    top == start || top == TopPx(0.0)
    || exists i :: 0 <= i < |es| && es[i].Tick? && top == TopPx(-es[i].headerHeight)
  }

  lemma {:induction false} TopStaysInRange(s: State, es: seq<Event>)
    ensures TopReachable(Run(s, es).top, s.top, es)
    decreases |es|
  {
    if es != [] {
      var s' := Step(s, es[0]);
      TopStaysInRange(s', es[1..]);
      var t := Run(s, es).top;
      assert t == Run(s', es[1..]).top;
      if exists i :: 0 <= i < |es[1..]| && es[1..][i].Tick? && t == TopPx(-es[1..][i].headerHeight) {
        var i :| 0 <= i < |es[1..]| && es[1..][i].Tick? && t == TopPx(-es[1..][i].headerHeight);
        assert es[i + 1] == es[1..][i];
      } else if t == s'.top && t != s.top && t != TopPx(0.0) {
        assert es[0].Tick? && t == TopPx(-es[0].headerHeight);
      }
    }
  }

  /** While every position a tick reads stays inside one band of width
      `Delta` that also holds the recorded position, the header never moves. */
  lemma {:induction false} JitterNeverMovesHeader(s: State, es: seq<Event>, lo: real)
    requires lo <= s.lastScrollTop <= lo + Delta
    requires forall i :: 0 <= i < |es| && es[i].Tick? ==> lo <= es[i].st <= lo + Delta
    ensures Run(s, es).top == s.top
    decreases |es|
  {
    if es != [] {
      var s' := Step(s, es[0]);
      assert s'.top == s.top && lo <= s'.lastScrollTop <= lo + Delta;
      assert forall i :: 0 <= i < |es[1..]| ==> es[1..][i] == es[i + 1];
      JitterNeverMovesHeader(s', es[1..], lo);
    }
  }

  /** A scroll followed by a tick for each position, in order. */
  function ScrollTicks(ps: seq<real>, h: real): (es: seq<Event>)
    ensures |es| == 2 * |ps|
  {
    if ps == [] then [] else [Scroll, Tick(ps[0], h)] + ScrollTicks(ps[1..], h)
  }

  /**
   Because the recorded position is updated even when a movement is ignored,
   scrolling in steps of at most `Delta` per tick never moves the header, however
   far the page travels in total.
   */
  lemma {:induction false} SlowScrollNeverMovesHeader(s: State, ps: seq<real>, h: real)
    requires |ps| > 0 ==> Abs(s.lastScrollTop - ps[0]) <= Delta
    requires forall i :: 0 < i < |ps| ==> Abs(ps[i - 1] - ps[i]) <= Delta
    ensures Run(s, ScrollTicks(ps, h)).top == s.top
    decreases |ps|
  {
    if ps != [] {
      RunAppend(s, [Scroll, Tick(ps[0], h)], ScrollTicks(ps[1..], h));
      ScrollThenTick(s, ps[0], h);
      var s' := Run(s, [Scroll, Tick(ps[0], h)]);
      assert s'.top == s.top && s'.lastScrollTop == ps[0];
      assert forall i :: 0 < i < |ps[1..]| ==> ps[1..][i - 1] == ps[i] && ps[1..][i] == ps[i + 1];
      SlowScrollNeverMovesHeader(s', ps[1..], h);
    }
  }

  /** No tick among the events after position `i`. */
  ghost predicate OnlyScrollsAfter(es: seq<Event>, i: int) {
    forall j :: 0 <= j < |es| && i < j ==> es[j].Scroll?
  }

  /** A scroll is pending after the events exactly when some scroll event has
      no tick after it, or one was pending before and no tick came at all. */
  lemma {:induction false} PendingScroll(s: State, es: seq<Event>)
    ensures Run(s, es).didScroll <==>
              (exists i :: 0 <= i < |es| && es[i].Scroll? && OnlyScrollsAfter(es, i))
              || (s.didScroll && OnlyScrollsAfter(es, -1))
    decreases |es|
  {
    if es != [] {
      var s', tl := Step(s, es[0]), es[1..];
      PendingScroll(s', tl);
      assert s'.didScroll <==> es[0].Scroll?;
      assert forall j :: 0 <= j < |tl| ==> tl[j] == es[j + 1];
      assert OnlyScrollsAfter(tl, -1) <==> OnlyScrollsAfter(es, 0);
      assert OnlyScrollsAfter(es, -1) <==> es[0].Scroll? && OnlyScrollsAfter(es, 0);
      if exists i :: 0 <= i < |tl| && tl[i].Scroll? && OnlyScrollsAfter(tl, i) {
        var i :| 0 <= i < |tl| && tl[i].Scroll? && OnlyScrollsAfter(tl, i);
        assert es[i + 1].Scroll? && OnlyScrollsAfter(es, i + 1);
      }
      if exists i :: 0 <= i < |es| && es[i].Scroll? && OnlyScrollsAfter(es, i) {
        var i :| 0 <= i < |es| && es[i].Scroll? && OnlyScrollsAfter(es, i);
        if i > 0 {
          assert tl[i - 1].Scroll? && OnlyScrollsAfter(tl, i - 1);
        }
      }
    }
  }

  /** The recorded position is always the one it started from or the position
      read by one of the ticks. */
  lemma {:induction false} RecordedPositionIsRead(s: State, es: seq<Event>)
    ensures var p := Run(s, es).lastScrollTop;
            p == s.lastScrollTop || exists i :: 0 <= i < |es| && es[i].Tick? && p == es[i].st
    decreases |es|
  {
    if es != [] {
      var s' := Step(s, es[0]);
      RecordedPositionIsRead(s', es[1..]);
      var p := Run(s, es).lastScrollTop;
      assert p == Run(s', es[1..]).lastScrollTop;
      if exists i :: 0 <= i < |es[1..]| && es[1..][i].Tick? && p == es[1..][i].st {
        var i :| 0 <= i < |es[1..]| && es[1..][i].Tick? && p == es[1..][i].st;
        assert es[i + 1] == es[1..][i];
      } else if p == s'.lastScrollTop && p != s.lastScrollTop {
        assert es[0].Tick? && p == es[0].st;
      }
    }
  }
}
