/**
 * The presence state machine run once per polling tick: whether the target
 * is online, since when, and the event the tick produces.
 */
module Tracking {
  import opened Wrappers
  import opened Presence

  /** The monitor's two loop variables: `available` and `start_ts`. */
  datatype State = State(available: bool, startTs: Option<int>)

  /** A start time is recorded exactly while the target is online. */
  predicate Inv(s: State) {
    s.startTs.Some? <==> s.available
  }

  /** Offline, with no start time, before the first tick. */
  const Initial: State := State(false, None)

  /** What one successful tick reports; times are whole seconds on the caller's clock. */
  datatype Event =
    | WentOnline(at: int)
    | StillOnline(since: int, elapsed: int)
    | WentOffline(since: int, until: int, elapsed: int)
    | StillOffline

  /** The two transitions; every other event is a local log line only. */
  predicate IsEdge(e: Event) {
    e.WentOnline? || e.WentOffline?
  }

  /**
   * One tick with the page read successfully: `present` is the detection
   * result and `now` the clock reading taken for this tick.
   */
  function Step(s: State, present: bool, now: int): (r: (State, Event))
    requires Inv(s)
    ensures Inv(r.0)
    ensures r.0.available == present
    ensures IsEdge(r.1) <==> r.0.available != s.available
    ensures r.0.available && s.available ==> r.0.startTs == s.startTs
    ensures r.0.available && !s.available ==> r.0.startTs == Some(now) && r.1 == WentOnline(now)
    ensures r.1.StillOnline? || r.1.WentOffline? ==>
              s.startTs == Some(r.1.since) && r.1.elapsed == now - r.1.since
    ensures r.1.WentOffline? ==> r.1.until == now
    ensures present && s.available ==> r == (s, StillOnline(s.startTs.value, now - s.startTs.value))
    ensures !present && s.available ==> r.1 == WentOffline(s.startTs.value, now, now - s.startTs.value)
    ensures !present && !s.available ==> r == (s, StillOffline)
  {
    if present && !s.available then
      (State(true, Some(now)), WentOnline(now))
    else if present && s.available then
      (s, StillOnline(s.startTs.value, now - s.startTs.value))
    else if !present && s.available then
      (State(false, None), WentOffline(s.startTs.value, now, now - s.startTs.value))
    else
      (s, StillOffline)
  }

  /** One polling tick: the page's HTML and the clock reading, or a failed content read. */
  datatype Tick = Page(html: string, now: int) | ReadError

  /** A failed read leaves the state alone and reports nothing; a page is detected and stepped. */
  function TickStep(s: State, t: Tick): (r: (State, Option<Event>))
    requires Inv(s)
    ensures Inv(r.0)
    ensures r.1.Some? <==> t.Page?
    ensures t.ReadError? ==> r.0 == s
    ensures t.Page? ==> r.0.available == IsPresent(t.html)
  {
    match t
    case ReadError => (s, None)
    case Page(html, now) =>
      var (s', e) := Step(s, IsPresent(html), now);
      (s', Some(e))
  }

  /** The monitor loop's own state, held in place and updated on every tick. */
  class Tracker {
    var available: bool
    var startTs: Option<int>

    function Snapshot(): State
      reads this
    {
      State(available, startTs)
    }

    ghost predicate Valid()
      reads this
    {
      Inv(Snapshot())
    }

    constructor ()
      ensures Valid() && Snapshot() == Initial
    {
      available := false;
      startTs := None;
    }

    /** Applies one detection result at clock reading `now` and says what happened. */
    method Observe(present: bool, now: int) returns (e: Event)
      requires Valid()
      modifies this
      ensures Valid()
      ensures (Snapshot(), e) == Step(old(Snapshot()), present, now)
    {
      if present && !available {
        available := true;
        startTs := Some(now);
        e := WentOnline(now);
      } else if present && available {
        e := StillOnline(startTs.value, now - startTs.value);
      } else if !present && available {
        e := WentOffline(startTs.value, now, now - startTs.value);
        available := false;
        startTs := None;
      } else {
        e := StillOffline;
      }
    }

    /** One polling tick: a failed read is skipped, a page is checked for the patterns and observed. */
    method Poll(t: Tick) returns (e: Option<Event>)
      requires Valid()
      modifies this
      ensures Valid()
      ensures (Snapshot(), e) == TickStep(old(Snapshot()), t)
    {
      match t
      case ReadError =>
        e := None;
      case Page(html, now) =>
        var ev := Observe(IsPresent(html), now);
        e := Some(ev);
    }
  }
}
