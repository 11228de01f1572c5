/**
 * `downloadTopComments(topNum)`: the page's own reply listener (outside this
 * model) stores each new batch of top-level replies and then calls the
 * registered `onMainChange` handler, which either stops the crawl or asks
 * for more.  Each such call is an event here: the replies the listener
 * stored, and whether the end-of-list marker is on the page.
 */
module TopLevel {
  import opened Replies
  import opened CommentStore

  /**
   * The stop rule of the handler: the target `mainReplyCount` is set
   * (not -1) and reached, or the end-of-list marker is present.
   */
  function MainStop(size: nat, mainReplyCount: int, endMarker: bool): (stop: bool)
    ensures mainReplyCount == -1 ==> (stop <==> endMarker)
    ensures mainReplyCount != -1 && mainReplyCount <= 0 ==> stop
    ensures endMarker ==> stop
  {
    (mainReplyCount != -1 && size >= mainReplyCount) || endMarker
  }

  /** One call of the handler: the replies stored just before it and the end-marker check. */
  datatype Event = Event(replies: seq<Reply>, endMarker: bool)

  /** What one call of the handler sees: `commentInfoMap.size` and the end marker. */
  datatype Observation = Observation(size: nat, endMarker: bool)

  /** How the handler calls went: whether one stopped, how many were made, and the size it resolved with. */
  datatype TopResult = TopResult(finished: bool, calls: nat, size: nat)

  /** The handler armed with `target`, called once per observation until it stops. */
  function FirstStop(target: int, obs: seq<Observation>): (r: TopResult)
    ensures r.calls <= |obs|
    ensures r.finished ==> 1 <= r.calls
    ensures !r.finished ==> r.calls == |obs| && r.size == 0
    decreases |obs|
  {
    if obs == [] then TopResult(false, 0, 0)
    else if MainStop(obs[0].size, target, obs[0].endMarker) then TopResult(true, 1, obs[0].size)
    else
      var rest := FirstStop(target, obs[1..]);
      rest.(calls := rest.calls + 1)
  }

  /**
   * The handler resolves at the first call whose observation meets the stop
   * rule, with the size it saw then; without such a call every observation
   * is consumed and the crawl does not resolve.
   */
  lemma {:induction false} FirstStopIsFirst(target: int, obs: seq<Observation>)
    ensures var r := FirstStop(target, obs);
      && r.calls <= |obs|
      && (r.finished <==> exists j :: 0 <= j < |obs| && MainStop(obs[j].size, target, obs[j].endMarker))
      && (r.finished ==> 1 <= r.calls && MainStop(obs[r.calls - 1].size, target, obs[r.calls - 1].endMarker)
                         && r.size == obs[r.calls - 1].size)
      && (forall j :: 0 <= j < r.calls - 1 ==> !MainStop(obs[j].size, target, obs[j].endMarker))
      && (!r.finished ==> r.calls == |obs|)
    decreases |obs|
  {
    if obs != [] && !MainStop(obs[0].size, target, obs[0].endMarker) {
      FirstStopIsFirst(target, obs[1..]);
      var r := FirstStop(target, obs);
      if r.finished {
        assert obs[1..][r.calls - 2] == obs[r.calls - 1];
      } else {
        forall j | 0 <= j < |obs| ensures !MainStop(obs[j].size, target, obs[j].endMarker) {
          if j > 0 {
            assert obs[1..][j - 1] == obs[j];
          }
        }
      }
      forall j | 1 <= j < r.calls - 1 ensures !MainStop(obs[j].size, target, obs[j].endMarker) {
        assert obs[1..][j - 1] == obs[j];
      }
    }
  }

  /** `start + growth * n`, as `n` calls that each add `growth` produce it. */
  function Grown(start: nat, growth: nat, n: nat): nat
  {
    if n == 0 then start else Grown(start, growth, n - 1) + growth
  }

  lemma {:induction false} GrownIsProduct(start: nat, growth: nat, n: nat)
    ensures Grown(start, growth, n) == start + growth * n
  {
    if n > 0 {
      GrownIsProduct(start, growth, n - 1);
    }
  }

  lemma {:induction false} GrownShift(start: nat, growth: nat, n: nat)
    ensures Grown(start + growth, growth, n) == Grown(start, growth, n + 1)
  {
    if n > 0 {
      GrownShift(start, growth, n - 1);
    }
  }

  /**
   * A crawl whose every call finds `growth` more replies and no end marker
   * stops at the first call that reaches the target, and resolves with the
   * size it saw there.
   */
  lemma {:induction false} FirstStopUnderSteadyGrowth(target: int, start: nat, growth: nat, obs: seq<Observation>)
    requires growth > 0 && target != -1 && start < target
    requires Grown(start, growth, |obs|) >= target
    requires forall j :: 0 <= j < |obs| ==> obs[j] == Observation(Grown(start, growth, j + 1), false)
    ensures var r := FirstStop(target, obs);
      && r.finished && r.calls >= 1
      && Grown(start, growth, r.calls) >= target
      && Grown(start, growth, r.calls - 1) < target
      && r.size == Grown(start, growth, r.calls)
    decreases |obs|
  {
    assert obs[0] == Observation(Grown(start, growth, 1), false);
    if start + growth < target {
      var next := start + growth;
      forall j | 0 <= j < |obs| - 1 ensures obs[1..][j] == Observation(Grown(next, growth, j + 1), false) {
        assert obs[1..][j] == obs[j + 1];
        GrownShift(start, growth, j + 1);
      }
      GrownShift(start, growth, |obs| - 1);
      FirstStopUnderSteadyGrowth(target, next, growth, obs[1..]);
      var rest := FirstStop(target, obs[1..]);
      GrownShift(start, growth, rest.calls);
      GrownShift(start, growth, rest.calls - 1);
    }
  }

  /**
   * The scenario of 0 stored replies, a target of 5 and 2 new replies per
   * call: the third call stops and resolves with 6.
   */
  lemma TargetFiveTwoPerCall(obs: seq<Observation>)
    requires obs == [Observation(2, false), Observation(4, false), Observation(6, false)]
    ensures FirstStop(5, obs) == TopResult(true, 3, 6)
  {
    assert Grown(0, 2, 3) == 6;
    forall j | 0 <= j < 3 ensures obs[j] == Observation(Grown(0, 2, j + 1), false) {
      GrownIsProduct(0, 2, j + 1);
    }
    FirstStopUnderSteadyGrowth(5, 0, 2, obs);
    var r := FirstStop(5, obs);
    GrownIsProduct(0, 2, r.calls);
  }

  /** The sizes the handler sees: the store after each event's replies are written. */
  function Observations(st: Store, events: seq<Event>): (obs: seq<Observation>)
    requires Valid(st)
    ensures |obs| == |events|
    decreases |events|
  {
    if events == [] then []
    else
      SetAllGrows(st, events[0].replies);
      var st' := SetAll(st, events[0].replies);
      [Observation(Size(st'), events[0].endMarker)] + Observations(st', events[1..])
  }

  /**
   * The whole top-level crawl: the handler is armed with `topNum`, then each
   * event writes its replies and calls the handler, until one call stops.
   */
  function DownloadTop(st: Store, target: int, events: seq<Event>): (r: (TopResult, Store))
    requires Valid(st)
    ensures Valid(r.1)
    ensures r.0.finished ==> 1 <= r.0.calls <= |events|
    ensures !r.0.finished ==> r.0.calls == |events| && r.0.size == 0
    ensures |st.keys| <= |r.1.keys| && r.1.keys[..|st.keys|] == st.keys
    ensures r.1.lists == st.lists && r.1.errorReplyCount == st.errorReplyCount
    decreases |events|
  {
    if events == [] then (TopResult(false, 0, 0), st)
    else
      SetAllGrows(st, events[0].replies);
      var st' := SetAll(st, events[0].replies);
      if MainStop(Size(st'), target, events[0].endMarker) then (TopResult(true, 1, Size(st')), st')
      else
        var rest := DownloadTop(st', target, events[1..]);
        (rest.0.(calls := rest.0.calls + 1), rest.1)
  }

  /** One event of the top-level crawl: its replies are stored, then the handler runs. */
  lemma DownloadTopStep(st: Store, target: int, events: seq<Event>)
    requires Valid(st) && events != []
    ensures var st' := SetAll(st, events[0].replies);
      DownloadTop(st, target, events) ==
        if MainStop(Size(st'), target, events[0].endMarker) then (TopResult(true, 1, Size(st')), st')
        else
          var rest := DownloadTop(st', target, events[1..]);
          (rest.0.(calls := rest.0.calls + 1), rest.1)
  {
  }

  /** The crawl stops where the handler's stop rule first holds of the sizes it observes. */
  lemma {:induction false} DownloadTopObserves(st: Store, target: int, events: seq<Event>)
    requires Valid(st)
    ensures DownloadTop(st, target, events).0 == FirstStop(target, Observations(st, events))
    decreases |events|
  {
    if events != [] {
      SetAllGrows(st, events[0].replies);
      var st' := SetAll(st, events[0].replies);
      DownloadTopObserves(st', target, events[1..]);
      var obs := Observations(st, events);
      assert obs[1..] == Observations(st', events[1..]);
    }
  }

  /**
   * The `j`-th call of the handler sees the end marker of the `j`-th event
   * and a store no smaller than the one before the crawl or at the call
   * before: the store only grows while the crawl runs.
   */
  lemma {:induction false} ObservedSizeAt(st: Store, events: seq<Event>, j: nat)
    requires Valid(st) && j < |events|
    ensures var obs := Observations(st, events);
      && obs[j].endMarker == events[j].endMarker
      && Size(st) <= obs[j].size
      && (j > 0 ==> obs[j - 1].size <= obs[j].size)
    decreases j
  {
    var st' := SetAll(st, events[0].replies);
    SetAllGrows(st, events[0].replies);
    ObservationsAt(st, events, j);
    if j > 0 {
      ObservedSizeAt(st', events[1..], j - 1);
      ObservationsAt(st, events, j - 1);
      if j > 1 {
        ObservationsAt(st', events[1..], j - 2);
      }
    }
  }

  /** The sizes the handler observes never fall below the starting size and never decrease. */
  lemma ObservedSizesGrow(st: Store, events: seq<Event>)
    requires Valid(st)
    ensures forall j :: 0 <= j < |events| ==>
      Observations(st, events)[j].endMarker == events[j].endMarker && Size(st) <= Observations(st, events)[j].size
    ensures forall j :: 0 < j < |events| ==> Observations(st, events)[j - 1].size <= Observations(st, events)[j].size
  {
    forall j | 0 <= j < |events|
      ensures Observations(st, events)[j].endMarker == events[j].endMarker
      ensures Size(st) <= Observations(st, events)[j].size
      ensures j > 0 ==> Observations(st, events)[j - 1].size <= Observations(st, events)[j].size
    {
      ObservedSizeAt(st, events, j);
    }
  }

  /**
   * Each event brings `count` replies with distinct identities, none of which
   * is stored when it arrives, and no end marker.
   */
  ghost predicate FreshOnArrival(st: Store, events: seq<Event>, count: nat)
    requires Valid(st)
    decreases |events|
  {
    events == [] ||
      (&& |events[0].replies| == count
       && UniqueKeys(events[0].replies)
       && !events[0].endMarker
       && (forall x :: x in events[0].replies ==> x.rpid !in st.info)
       && (SetAllGrows(st, events[0].replies);
           FreshOnArrival(SetAll(st, events[0].replies), events[1..], count)))
  }

  /** The `j`-th observation of a non-empty run, from the first write and the rest of the run. */
  lemma ObservationsAt(st: Store, events: seq<Event>, j: nat)
    requires Valid(st) && j < |events|
    ensures var st' := SetAll(st, events[0].replies);
      Observations(st, events)[j] ==
        if j == 0 then Observation(Size(st'), events[0].endMarker)
        else Observations(st', events[1..])[j - 1]
  {
    SetAllGrows(st, events[0].replies);
  }

  lemma ShiftedObservation(o: Observation, a: nat, b: nat, count: nat, j: nat)
    requires a == b + count && o == Observation(Grown(a, count, j), false)
    ensures o == Observation(Grown(b, count, j + 1), false)
  {
    GrownShift(b, count, j);
  }

  /** The size the handler sees at its `j`-th call when the events are fresh. */
  lemma {:induction false} ObservationOfFreshEvents(st: Store, events: seq<Event>, count: nat, j: nat)
    requires Valid(st) && FreshOnArrival(st, events, count)
    requires j < |events|
    ensures Observations(st, events)[j] == Observation(Grown(Size(st), count, j + 1), false)
    decreases j
  {
    var first := events[0].replies;
    SetAllGrows(st, first);
    SetAllFresh(st, first);
    var st' := SetAll(st, first);
    ObservationsAt(st, events, j);
    if j > 0 {
      ObservationOfFreshEvents(st', events[1..], count, j - 1);
      assert Size(st') == Size(st) + count;
      ShiftedObservation(Observations(st', events[1..])[j - 1], Size(st'), Size(st), count, j);
    }
  }

  /**
   * Events that each bring `count` fresh replies make the sizes observed
   * grow by exactly `count` per call.
   */
  lemma ObservationsOfFreshEvents(st: Store, events: seq<Event>, count: nat)
    requires Valid(st) && FreshOnArrival(st, events, count)
    ensures var obs := Observations(st, events);
      |obs| == |events| &&
      forall j :: 0 <= j < |obs| ==> obs[j] == Observation(Grown(Size(st), count, j + 1), false)
  {
    forall j | 0 <= j < |events|
      ensures Observations(st, events)[j] == Observation(Grown(Size(st), count, j + 1), false)
    {
      ObservationOfFreshEvents(st, events, count, j);
    }
  }
}
