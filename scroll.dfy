// utilsPrivate/scroll.js: raf(fn), a throttle that lets at most one call of
// fn per animation frame through. requestAnimationFrame is modelled by the
// queue of frame callbacks the throttle has scheduled and not yet run; the
// browser running the next frame is an explicit step.

module Scroll {
  import opened JsValues

  /** The throttle's closure variable `ticking`, the events captured by its
      scheduled frame callbacks in scheduling order, and the events fn has
      been called with. */
  datatype Throttle = Throttle(ticking: bool, frames: seq<JsValue>, delivered: seq<JsValue>)

  /** A throttle just returned by raf(fn). */
  const Fresh: Throttle := Throttle(false, [], [])

  /** Calling the returned function with an event: unless ticking, schedule
      a frame callback that captures this event; then set ticking. */
  function OnEvent(st: Throttle, event: JsValue): (r: Throttle)
    ensures r.ticking && r.delivered == st.delivered
  {
    if st.ticking then st.(ticking := true)
    else st.(frames := st.frames + [event], ticking := true)
  }

  /** The browser runs the oldest scheduled callback: fn is called with the
      captured event, then ticking is cleared. When fn throws, the statement
      that clears ticking is never reached. */
  function OnFrame(st: Throttle, fnThrows: bool): (r: Throttle)
  {
    if st.frames == [] then st
    else st.(frames := st.frames[1..],
             delivered := st.delivered + [st.frames[0]],
             ticking := if fnThrows then st.ticking else false)
  }

  /** At most one frame is pending, and only while ticking. */
  predicate Inv(st: Throttle) {
    |st.frames| <= 1 && (st.frames != [] ==> st.ticking)
  }

  lemma FreshInv()
    ensures Inv(Fresh) && !Fresh.ticking
  {
  }

  /** A call schedules exactly one frame when not ticking and none when
      ticking, and keeps the invariant. */
  lemma OnEventSchedules(st: Throttle, event: JsValue)
    requires Inv(st)
    ensures Inv(OnEvent(st, event))
    ensures !st.ticking ==> OnEvent(st, event).frames == [event]
    ensures st.ticking ==> OnEvent(st, event).frames == st.frames
  {
  }

  /** Running a frame delivers its captured event, keeps the invariant and,
      unless fn threw, leaves the throttle ready to schedule again. */
  lemma OnFrameDelivers(st: Throttle, fnThrows: bool)
    requires Inv(st) && st.frames != []
    ensures Inv(OnFrame(st, fnThrows))
    ensures OnFrame(st, fnThrows).delivered == st.delivered + [st.frames[0]]
    ensures OnFrame(st, fnThrows).frames == []
    ensures !fnThrows ==> !OnFrame(st, fnThrows).ticking
  {
  }

  /** A run of calls with no frame in between. */
  function OnEvents(st: Throttle, events: seq<JsValue>): Throttle
    decreases events
  {
    if events == [] then st else OnEvents(OnEvent(st, events[0]), events[1..])
  }

  /** While ticking, calls change nothing: their events are dropped. */
  lemma {:induction false} TickingDrops(st: Throttle, events: seq<JsValue>)
    requires st.ticking
    ensures OnEvents(st, events) == st
  {
    if events != [] {
      assert OnEvent(st, events[0]) == st;
      TickingDrops(st, events[1..]);
    }
  }

  /** A burst of calls before the next frame makes fn run once, with the
      event of the first call, not the latest; afterwards the throttle is
      idle again. */
  lemma BurstDeliversFirst(st: Throttle, events: seq<JsValue>)
    requires !st.ticking && st.frames == [] && events != []
    ensures OnFrame(OnEvents(st, events), false) == Throttle(false, [], st.delivered + [events[0]])
  {
    var first := OnEvent(st, events[0]);
    TickingDrops(first, events[1..]);
    assert first.frames == [events[0]];
  }

  /** If fn throws, ticking is never cleared and no later call schedules a
      frame: fn is not called again. */
  lemma ThrowStops(st: Throttle, events: seq<JsValue>, fnThrows: bool)
    requires Inv(st) && st.frames != []
    ensures OnFrame(OnEvents(OnFrame(st, true), events), fnThrows) == OnFrame(st, true)
  {
    TickingDrops(OnFrame(st, true), events);
  }

  /** The function raf(fn) returns, with the closure variable `ticking` and
      this throttle's scheduled frame callbacks. */
  class RafThrottle {
    var ticking: bool
    var frames: seq<JsValue>
    var delivered: seq<JsValue>

    function State(): Throttle
      reads this
    {
      Throttle(ticking, frames, delivered)
    }

    /** raf(fn). */
    constructor ()
      ensures State() == Fresh
    {
      ticking := false;
      frames := [];
      delivered := [];
    }

    /** A call of the returned function with `event`. */
    method Call(event: JsValue)
      modifies this
      ensures State() == OnEvent(old(State()), event)
    {
      if !ticking {
        frames := frames + [event];
      }
      ticking := true;
    }

    /** The next animation frame runs this throttle's oldest callback, if it
        has one. */
    method RunFrame(fnThrows: bool)
      modifies this
      ensures State() == OnFrame(old(State()), fnThrows)
    {
      if frames != [] {
        var event := frames[0];
        frames := frames[1..];
        delivered := delivered + [event];
        if !fnThrows {
          ticking := false;
        }
      }
    }
  }
}
