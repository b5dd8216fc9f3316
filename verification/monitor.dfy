/**
 * The polling loop: ticks fed one after another to the tracker, and the
 * transitions it reports turned into outbound notifications, which are posted
 * to the webhook when one is configured and only logged otherwise.
 */
module Monitor {
  import opened Wrappers
  import opened Duration
  import opened Presence
  import opened Tracking

  /** The state after the ticks, from state `s0`. */
  function After(s0: State, ticks: seq<Tick>): (s: State)
    requires Inv(s0)
    ensures Inv(s)
    ensures s.available == LastSample(ticks).GetOr(s0.available)
    decreases |ticks|
  {
    if ticks == [] then s0
    else TickStep(After(s0, ticks[..|ticks| - 1]), ticks[|ticks| - 1]).0
  }

  /** The detection result of the last tick whose page was read, if any was. */
  function LastSample(ticks: seq<Tick>): (r: Option<bool>)
    decreases |ticks|
  {
    if ticks == [] then None
    else match ticks[|ticks| - 1]
      case Page(html, _) => Some(IsPresent(html))
      case ReadError => LastSample(ticks[..|ticks| - 1])
  }

  /** What each tick reported, in order; `None` for a tick whose read failed. */
  function Events(s0: State, ticks: seq<Tick>): (es: seq<Option<Event>>)
    requires Inv(s0)
    ensures |es| == |ticks|
    ensures forall k :: 0 <= k < |ticks| ==> (es[k].None? <==> ticks[k].ReadError?)
    decreases |ticks|
  {
    if ticks == [] then []
    else
      var prefix := ticks[..|ticks| - 1];
      Events(s0, prefix) + [TickStep(After(s0, prefix), ticks[|ticks| - 1]).1]
  }

  /** Tick `k` is stepped from the state the ticks before it left. */
  lemma {:induction false} EventAt(s0: State, ticks: seq<Tick>, k: nat)
    requires Inv(s0) && k < |ticks|
    ensures Events(s0, ticks)[k] == TickStep(After(s0, ticks[..k]), ticks[k]).1
    ensures After(s0, ticks[..k + 1]) == TickStep(After(s0, ticks[..k]), ticks[k]).0
    decreases |ticks|
  {
    var prefix := ticks[..|ticks| - 1];
    assert ticks[..k + 1][..k] == ticks[..k];
    if k < |ticks| - 1 {
      EventAt(s0, prefix, k);
      assert prefix[..k] == ticks[..k] && prefix[..k + 1] == ticks[..k + 1];
    } else {
      assert prefix == ticks[..k];
    }
  }

  /** A tick reports a transition exactly when it changes whether the target is online. */
  lemma EdgeIffChange(s0: State, ticks: seq<Tick>, k: nat)
    requires Inv(s0) && k < |ticks|
    ensures (Events(s0, ticks)[k].Some? && IsEdge(Events(s0, ticks)[k].value))
        <==> After(s0, ticks[..k + 1]).available != After(s0, ticks[..k]).available
  {
    EventAt(s0, ticks, k);
  }

  /** An event that keeps the target online: a repeat sample, or a tick whose read failed. */
  predicate QuietOnline(o: Option<Event>) {
    o.None? || o.value.StillOnline?
  }

  /**
   * While online after the ticks before `k`, the recorded start time is the
   * clock reading of an earlier tick that went online, and every tick since
   * then kept it online.
   */
  lemma {:induction false} OnlineSinceEdge(ticks: seq<Tick>, k: nat)
    requires k <= |ticks| && After(Initial, ticks[..k]).available
    ensures exists j ::
              && 0 <= j < k && ticks[j].Page?
              && Events(Initial, ticks)[j] == Some(WentOnline(ticks[j].now))
              && After(Initial, ticks[..k]).startTs == Some(ticks[j].now)
              && (forall m :: j < m < k ==> QuietOnline(Events(Initial, ticks)[m]))
  {
    if k == 0 {
      assert false;
    } else {
      EventAt(Initial, ticks, k - 1);
      var s := After(Initial, ticks[..k - 1]);
      if s.available {
        OnlineSinceEdge(ticks, k - 1);
        var j :| 0 <= j < k - 1 && ticks[j].Page?
          && Events(Initial, ticks)[j] == Some(WentOnline(ticks[j].now))
          && s.startTs == Some(ticks[j].now)
          && (forall m :: j < m < k - 1 ==> QuietOnline(Events(Initial, ticks)[m]));
        assert QuietOnline(Events(Initial, ticks)[k - 1]);
        assert forall m :: j < m < k ==> QuietOnline(Events(Initial, ticks)[m]);
      } else {
        assert ticks[k - 1].Page?;
        assert Events(Initial, ticks)[k - 1] == Some(WentOnline(ticks[k - 1].now));
      }
    }
  }

  /** Clock readings of successful ticks never go backwards. */
  ghost predicate NonDecreasing(ticks: seq<Tick>) {
    forall i, j :: 0 <= i < j < |ticks| && ticks[i].Page? && ticks[j].Page? ==> ticks[i].now <= ticks[j].now
  }

  /** Tick `j` took the target online, and every tick after it and before `k` kept it online. */
  ghost predicate OnlineEdgeBefore(ticks: seq<Tick>, j: int, k: int) {
    && 0 <= j < k <= |ticks| && ticks[j].Page?
    && Events(Initial, ticks)[j] == Some(WentOnline(ticks[j].now))
    && forall m :: j < m < k ==> QuietOnline(Events(Initial, ticks)[m])
  }

  /**
   * A page read while online is a repeat online sample when the page shows a
   * pattern and the offline edge when it does not; either way it measures
   * `now - start` from the clock reading of the preceding online edge, and that
   * is non-negative when the clock never goes backwards.
   */
  lemma {:induction false} ElapsedSinceOnlineEdge(ticks: seq<Tick>, k: nat)
    requires k < |ticks| && ticks[k].Page? && After(Initial, ticks[..k]).available
    ensures exists j ::
      && OnlineEdgeBefore(ticks, j, k)
      && Events(Initial, ticks)[k] == Some(
           if IsPresent(ticks[k].html) then StillOnline(ticks[j].now, ticks[k].now - ticks[j].now)
           else WentOffline(ticks[j].now, ticks[k].now, ticks[k].now - ticks[j].now))
      && (NonDecreasing(ticks) ==> ticks[k].now - ticks[j].now >= 0)
  {
    OnlineSinceEdge(ticks, k);
    var j :| && 0 <= j < k && ticks[j].Page?
             && Events(Initial, ticks)[j] == Some(WentOnline(ticks[j].now))
             && After(Initial, ticks[..k]).startTs == Some(ticks[j].now)
             && (forall m :: j < m < k ==> QuietOnline(Events(Initial, ticks)[m]));
    assert OnlineEdgeBefore(ticks, j, k);
    OnlineEventAt(ticks, k, ticks[j].now);
    if NonDecreasing(ticks) {
      assert ticks[j].now <= ticks[k].now;
    }
  }

  /** The event of a page read made while online with start time `start`. */
  lemma OnlineEventAt(ticks: seq<Tick>, k: nat, start: int)
    requires k < |ticks| && ticks[k].Page? && After(Initial, ticks[..k]).startTs == Some(start)
    ensures Events(Initial, ticks)[k] == Some(
              if IsPresent(ticks[k].html) then StillOnline(start, ticks[k].now - start)
              else WentOffline(start, ticks[k].now, ticks[k].now - start))
  {
    var s := After(Initial, ticks[..k]);
    assert Events(Initial, ticks)[k] == TickStep(s, ticks[k]).1 by {
      EventAt(Initial, ticks, k);
    }
    assert TickStep(s, ticks[k]).1 == Some(Step(s, IsPresent(ticks[k].html), ticks[k].now).1);
  }

  /** The notices that go out: one at start-up, then one per transition. */
  datatype Notice =
    | Started
    | OnlineAt(at: int)
    | WentOfflineAt(at: int, duration: string)

  /** The notice a tick's event produces; repeat samples and failed reads produce none. */
  function NoticeOf(o: Option<Event>): (n: Option<Notice>)
    ensures n.Some? <==> o.Some? && IsEdge(o.value)
  {
    match o
    case Some(WentOnline(at)) => Some(OnlineAt(at))
    case Some(WentOffline(_, until, elapsed)) => Some(WentOfflineAt(until, FormatDuration(elapsed)))
    case _ => None
  }

  /** A notice is posted to the webhook, or only logged when no webhook is configured. */
  datatype Delivery = Posted(notice: Notice) | LoggedOnly(notice: Notice)

  function Deliver(webhook: string, n: Notice): (d: Delivery)
    ensures d.notice == n
    ensures d.Posted? <==> webhook != ""
  {
    if webhook == "" then LoggedOnly(n) else Posted(n)
  }

  /** The deliveries the ticks' events cause, in order. */
  function Outbox(webhook: string, events: seq<Option<Event>>): (r: seq<Delivery>)
    ensures |r| <= |events|
    decreases |events|
  {
    if events == [] then []
    else
      var rest := Outbox(webhook, events[..|events| - 1]);
      match NoticeOf(events[|events| - 1])
      case Some(n) => rest + [Deliver(webhook, n)]
      case None => rest
  }

  /** One delivery per transition, and none for anything else. */
  function EdgeCount(events: seq<Option<Event>>): nat
    decreases |events|
  {
    if events == [] then 0
    else
      var last := events[|events| - 1];
      EdgeCount(events[..|events| - 1]) + (if last.Some? && IsEdge(last.value) then 1 else 0)
  }

  lemma {:induction false} OutboxFollowsEdges(webhook: string, events: seq<Option<Event>>)
    ensures |Outbox(webhook, events)| == EdgeCount(events)
    ensures webhook == "" ==> forall i :: 0 <= i < |Outbox(webhook, events)| ==> Outbox(webhook, events)[i].LoggedOnly?
    ensures webhook != "" ==> forall i :: 0 <= i < |Outbox(webhook, events)| ==> Outbox(webhook, events)[i].Posted?
    decreases |events|
  {
    if events != [] {
      OutboxFollowsEdges(webhook, events[..|events| - 1]);
    }
  }

  lemma OutboxSnoc(webhook: string, events: seq<Option<Event>>, e: Option<Event>)
    ensures Outbox(webhook, events + [e])
         == Outbox(webhook, events) + (if NoticeOf(e).Some? then [Deliver(webhook, NoticeOf(e).value)] else [])
  {
    assert (events + [e])[..|events|] == events;
  }

  /**
   * A page read without a pattern while online delivers the offline notice:
   * the clock reading of this tick and the rendered time since the preceding
   * online edge.
   */
  lemma OfflineNotice(webhook: string, ticks: seq<Tick>, k: nat)
    requires k < |ticks| && ticks[k].Page? && !IsPresent(ticks[k].html) && After(Initial, ticks[..k]).available
    ensures exists j ::
      && OnlineEdgeBefore(ticks, j, k)
      && Outbox(webhook, Events(Initial, ticks)[..k + 1])
         == Outbox(webhook, Events(Initial, ticks)[..k])
            + [Deliver(webhook, WentOfflineAt(ticks[k].now, FormatDuration(ticks[k].now - ticks[j].now)))]
  {
    ElapsedSinceOnlineEdge(ticks, k);
    var es := Events(Initial, ticks);
    var j :| && OnlineEdgeBefore(ticks, j, k)
             && es[k] == Some(WentOffline(ticks[j].now, ticks[k].now, ticks[k].now - ticks[j].now));
    DeliveryAt(webhook, es, k);
  }

  /** A page read with a pattern while offline records its clock reading and delivers the online notice. */
  lemma OnlineNotice(webhook: string, ticks: seq<Tick>, k: nat)
    requires k < |ticks| && ticks[k].Page? && IsPresent(ticks[k].html) && !After(Initial, ticks[..k]).available
    ensures Events(Initial, ticks)[k] == Some(WentOnline(ticks[k].now))
    ensures After(Initial, ticks[..k + 1]).startTs == Some(ticks[k].now)
    ensures Outbox(webhook, Events(Initial, ticks)[..k + 1])
         == Outbox(webhook, Events(Initial, ticks)[..k]) + [Deliver(webhook, OnlineAt(ticks[k].now))]
  {
    EventAt(Initial, ticks, k);
    DeliveryAt(webhook, Events(Initial, ticks), k);
  }

  /** Event `k` adds its notice, if it has one, to the deliveries of the events before it. */
  lemma DeliveryAt(webhook: string, events: seq<Option<Event>>, k: nat)
    requires k < |events|
    ensures Outbox(webhook, events[..k + 1])
         == Outbox(webhook, events[..k]) + (if NoticeOf(events[k]).Some? then [Deliver(webhook, NoticeOf(events[k]).value)] else [])
  {
    assert events[..k + 1] == events[..k] + [events[k]];
    OutboxSnoc(webhook, events[..k], events[k]);
  }

  /** The last successful read decides `LastSample`: every later tick failed. */
  lemma {:induction false} LastSampleIsLast(ticks: seq<Tick>)
    ensures LastSample(ticks).None? <==> forall k :: 0 <= k < |ticks| ==> ticks[k].ReadError?
    ensures LastSample(ticks).Some? ==>
              exists k :: && 0 <= k < |ticks| && ticks[k].Page? && LastSample(ticks).value == IsPresent(ticks[k].html)
                          && forall m :: k < m < |ticks| ==> ticks[m].ReadError?
    decreases |ticks|
  {
    if ticks != [] {
      var n := |ticks| - 1;
      var prefix := ticks[..n];
      if ticks[n].Page? {
        assert LastSample(ticks).value == IsPresent(ticks[n].html);
      } else {
        LastSampleIsLast(prefix);
        assert LastSample(ticks) == LastSample(prefix);
        assert forall k :: 0 <= k < n ==> prefix[k] == ticks[k];
        if LastSample(prefix).Some? {
          var k :| && 0 <= k < n && prefix[k].Page? && LastSample(prefix).value == IsPresent(prefix[k].html)
                   && forall m :: k < m < n ==> prefix[m].ReadError?;
          assert ticks[k] == prefix[k];
        }
      }
    }
  }

  lemma TickSnoc(ticks: seq<Tick>, i: nat)
    requires i < |ticks|
    ensures After(Initial, ticks[..i + 1]) == TickStep(After(Initial, ticks[..i]), ticks[i]).0
    ensures Events(Initial, ticks[..i + 1]) == Events(Initial, ticks[..i]) + [TickStep(After(Initial, ticks[..i]), ticks[i]).1]
  {
    assert ticks[..i + 1][..i] == ticks[..i];
  }

  /**
   * The monitor run over a finite stretch of ticks: the start-up notice, then
   * for every tick the tracker's event and the delivery it causes.
   */
  method Run(webhook: string, ticks: seq<Tick>) returns (events: seq<Option<Event>>, outbox: seq<Delivery>)
    ensures events == Events(Initial, ticks)
    ensures outbox == [Deliver(webhook, Started)] + Outbox(webhook, events)
  {
    var started := Deliver(webhook, Started);
    var tracker := new Tracker();
    var sent: seq<Delivery> := [];
    events := [];
    var i := 0;
    while i < |ticks|
      invariant 0 <= i <= |ticks|
      invariant tracker.Valid() && tracker.Snapshot() == After(Initial, ticks[..i])
      invariant events == Events(Initial, ticks[..i])
      invariant sent == Outbox(webhook, events)
    {
      ghost var before := tracker.Snapshot();
      var e := tracker.Poll(ticks[i]);
      assert (tracker.Snapshot(), e) == TickStep(before, ticks[i]);
      TickSnoc(ticks, i);
      OutboxSnoc(webhook, events, e);
      var notice := NoticeOf(e);
      if notice.Some? {
        sent := sent + [Deliver(webhook, notice.value)];
      }
      events := events + [e];
      i := i + 1;
    }
    assert ticks[..i] == ticks;
    outbox := [started] + sent;
  }

  /** The ticks of the scenario below: offline, three online samples, offline again, five seconds apart. */
  const ScenarioTicks: seq<Tick> :=
    [Page("", 0), Page(AvailableNow, 5), Page(AvailableNow, 10), Page(AvailableNow, 15), Page("", 20)]

  const ScenarioEvents: seq<Option<Event>> :=
    [Some(StillOffline), Some(WentOnline(5)), Some(StillOnline(5, 5)), Some(StillOnline(5, 10)), Some(WentOffline(5, 20, 15))]

  lemma ScenarioSamples()
    ensures IsPresent(AvailableNow) && !IsPresent("")
  {
    assert CheckPatterns[1..] == [SeenSecondsAgo] && CheckPatterns[1..][1..] == [];
    assert !Contains(AvailableNow, "") && !Contains(SeenSecondsAgo, "");
    assert !AnyOccurs(CheckPatterns[1..][1..], "") && !AnyOccurs(CheckPatterns[1..], "");
  }

  lemma ScenarioTracks()
    ensures Events(Initial, ScenarioTicks) == ScenarioEvents
  {
    var ticks := ScenarioTicks;
    ScenarioSamples();
    assert ticks[..0] == [];
    TickSnoc(ticks, 0);
    TickSnoc(ticks, 1);
    assert After(Initial, ticks[..2]) == State(true, Some(5));
    TickSnoc(ticks, 2);
    TickSnoc(ticks, 3);
    assert After(Initial, ticks[..4]) == State(true, Some(5));
    TickSnoc(ticks, 4);
    assert ticks[..5] == ticks;
  }

  lemma ScenarioNotifies(webhook: string)
    ensures Outbox(webhook, ScenarioEvents)
         == [Deliver(webhook, OnlineAt(5)), Deliver(webhook, WentOfflineAt(20, "15 second(s)"))]
  {
    var events := ScenarioEvents;
    FormatDurationExamples();
    assert events[..0] == [];
    OutboxSnoc(webhook, events[..0], events[0]);
    assert events[..1] == events[..0] + [events[0]];
    OutboxSnoc(webhook, events[..1], events[1]);
    assert events[..2] == events[..1] + [events[1]];
    OutboxSnoc(webhook, events[..2], events[2]);
    assert events[..3] == events[..2] + [events[2]];
    OutboxSnoc(webhook, events[..3], events[3]);
    assert events[..4] == events[..3] + [events[3]];
    OutboxSnoc(webhook, events[..4], events[4]);
    assert events == events[..4] + [events[4]];
  }

  /**
   * Offline, three online samples and offline again, five seconds apart: the
   * tracker reports each tick, two notices go out, and the offline one reports
   * fifteen seconds.
   */
  lemma Scenario(webhook: string)
    ensures Events(Initial, ScenarioTicks) == ScenarioEvents
    ensures Outbox(webhook, Events(Initial, ScenarioTicks))
         == [Deliver(webhook, OnlineAt(5)), Deliver(webhook, WentOfflineAt(20, "15 second(s)"))]
  {
    ScenarioTracks();
    ScenarioNotifies(webhook);
  }
}
