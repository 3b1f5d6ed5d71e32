/** Repeated alerts: alert_trigger and alert_check_escalation
    (c_src/vault/vault_monitor.c:371-425, intervals of c_src/vault/vault_core.h:122-126). */
module Escalation {
  import opened VaultStatus

  /** Seconds between repeats. */
  const ALERT_INTERVALS: seq<nat> := [
    300, 600, 900, 1800, 3600, 7200, 14400, 28800,
    43200, 86400, 172800, 259200, 604800, 1209600,
    1814400, 2592000, 5184000, 7776000, 15552000, 31536000]

  const NUM_ALERT_INTERVALS: nat := 20

  /** The alert fields of a vault; a time of zero stands for never. */
  datatype Alert = Alert(status: Status, firstTriggered: int, lastAlerted: int, intervalIdx: nat, alertCount: nat)

  const QUIET := Alert(OK, 0, 0, 0, 0)

  /** A poll of the monitor, an alert, or a lockout that takes the status away. */
  datatype Event = Poll(now: int) | Trigger(now: int) | Lockout(now: int)

  function Interval(idx: nat): nat {
    if idx < NUM_ALERT_INTERVALS then ALERT_INTERVALS[idx] else ALERT_INTERVALS[NUM_ALERT_INTERVALS - 1]
  }

  /** Each interval is longer than the one before, from five minutes over a day to a year, where
      it stays. */
  lemma IntervalsGrow(i: nat, j: nat)
    requires i < j
    ensures if i < 19 then Interval(i) < Interval(j) else Interval(i) == Interval(j)
    ensures Interval(0) == 300 && Interval(9) == 86400 && Interval(19) == 365 * 86400
  {
    if j < 20 {
      IntervalsIncrease(i, j);
    } else if i < 19 {
      IntervalsIncrease(i, 19);
    }
  }

  lemma {:induction false} IntervalsIncrease(i: nat, j: nat)
    requires i < j < 20
    ensures ALERT_INTERVALS[i] < ALERT_INTERVALS[j]
  {
    if i + 1 < j {
      IntervalsIncrease(i, j - 1);
    }
  }

  /** Whether a poll raises a repeat. */
  predicate Repeats(a: Alert, e: Event) {
    && e.Poll? && a.status == ALERT
    && (a.lastAlerted == 0 || e.now - a.lastAlerted >= Interval(a.intervalIdx))
  }

  function Step(a: Alert, e: Event): Alert {
    match e
    case Lockout(_) => a.(status := LOCKED)
    case Trigger(now) =>
      a.(status := ALERT, firstTriggered := if a.firstTriggered == 0 then now else a.firstTriggered,
         intervalIdx := if a.firstTriggered == 0 then 0 else a.intervalIdx)
    case Poll(now) =>
      if !Repeats(a, e) then a
      else
        a.(lastAlerted := now, alertCount := a.alertCount + 1,
           intervalIdx := if a.lastAlerted != 0 && a.intervalIdx < NUM_ALERT_INTERVALS - 1 then a.intervalIdx + 1
                          else a.intervalIdx)
  }

  function Run(es: seq<Event>): Alert {
    if es == [] then QUIET else Step(Run(es[..|es| - 1]), es[|es| - 1])
  }

  /** The times of the repeats in a run. */
  function Times(es: seq<Event>): seq<int> {
    if es == [] then []
    else
      var front, e := es[..|es| - 1], es[|es| - 1];
      Times(front) + if Repeats(Run(front), e) then [e.now] else []
  }

  class Monitored {
    var status: Status
    var firstTriggered: int
    var lastAlerted: int
    var intervalIdx: nat
    var alertCount: nat

    ghost function Value(): Alert
      reads this
    {
      Alert(status, firstTriggered, lastAlerted, intervalIdx, alertCount)
    }

    constructor ()
      ensures Value() == QUIET
    {
      status, firstTriggered, lastAlerted, intervalIdx, alertCount := OK, 0, 0, 0, 0;
    }

    /** alert_trigger. */
    method TriggerAlert(now: int)
      modifies this
      ensures Value() == Step(old(Value()), Trigger(now))
      ensures status == ALERT && lastAlerted == old(lastAlerted) && alertCount == old(alertCount)
      ensures if old(firstTriggered) == 0 then firstTriggered == now && intervalIdx == 0
              else firstTriggered == old(firstTriggered) && intervalIdx == old(intervalIdx)
    {
      if firstTriggered == 0 {
        firstTriggered := now;
        intervalIdx := 0;
      }
      status := ALERT;
    }

    /** alert_check_escalation. */
    method CheckEscalation(now: int) returns (repeated: bool)
      modifies this
      ensures Value() == Step(old(Value()), Poll(now))
      ensures repeated <==> Repeats(old(Value()), Poll(now))
      ensures repeated <==>
              && old(status) == ALERT
              && (old(lastAlerted) == 0 || now - old(lastAlerted) >= Interval(old(intervalIdx)))
      ensures status == old(status) && firstTriggered == old(firstTriggered)
      ensures repeated ==>
                && lastAlerted == now && alertCount == old(alertCount) + 1
                && intervalIdx == old(intervalIdx) + if old(lastAlerted) != 0 && old(intervalIdx) < 19 then 1 else 0
      ensures !repeated ==> Value() == old(Value())
    {
      if status != ALERT {
        return false;
      }
      if lastAlerted == 0 {
        alertCount := alertCount + 1;
        lastAlerted := now;
        return true;
      }
      var interval := if intervalIdx < NUM_ALERT_INTERVALS then ALERT_INTERVALS[intervalIdx]
                      else ALERT_INTERVALS[NUM_ALERT_INTERVALS - 1];
      repeated := now - lastAlerted >= interval;
      if repeated {
        alertCount := alertCount + 1;
        lastAlerted := now;
        if intervalIdx < NUM_ALERT_INTERVALS - 1 {
          intervalIdx := intervalIdx + 1;
        }
      }
    }
  }

  // ---- Spacing --------------------------------------------------------------------------

  /** The gap that follows repeat number `k`, counted from one. */
  function GapAfter(k: nat): nat
    requires k >= 1
  {
    Interval(if k - 1 < NUM_ALERT_INTERVALS then k - 1 else NUM_ALERT_INTERVALS - 1)
  }

  ghost predicate ClockIsNeverZero(es: seq<Event>) { forall i :: 0 <= i < |es| ==> es[i].now != 0 }

  /** What the fields hold after the repeats at `times`. */
  ghost predicate Tracks(a: Alert, times: seq<int>) {
    && a.alertCount == |times|
    && a.lastAlerted == (if times == [] then 0 else times[|times| - 1])
    && a.intervalIdx == (if |times| <= 1 then 0 else if |times| - 1 < NUM_ALERT_INTERVALS then |times| - 1 else NUM_ALERT_INTERVALS - 1)
    && (times != [] ==> a.firstTriggered != 0)
    && (a.status == ALERT ==> a.firstTriggered != 0)
  }

  ghost predicate Spaced(times: seq<int>) {
    && (forall i :: 0 <= i < |times| ==> times[i] != 0)
    && forall i :: 0 <= i < |times| - 1 ==> times[i + 1] - times[i] >= GapAfter(i + 1)
  }

  lemma SpacedGrows(times: seq<int>, now: int)
    requires Spaced(times) && now != 0 && (times != [] ==> now - times[|times| - 1] >= GapAfter(|times|))
    ensures Spaced(times + [now])
  {
    var more := times + [now];
    forall i | 0 <= i < |more| - 1
      ensures more[i + 1] - more[i] >= GapAfter(i + 1)
    {
      if i < |times| - 1 {
        assert times[i + 1] - times[i] >= GapAfter(i + 1);
      }
    }
  }

  lemma RepeatIsDue(a: Alert, times: seq<int>, e: Event)
    requires Tracks(a, times) && Repeats(a, e) && Spaced(times)
    ensures times != [] ==> e.now - times[|times| - 1] >= GapAfter(|times|)
  {
  }

  lemma StepTracksFields(a: Alert, times: seq<int>, e: Event)
    requires Tracks(a, times) && e.now != 0 && (times != [] ==> times[|times| - 1] != 0)
    ensures Tracks(Step(a, e), times + if Repeats(a, e) then [e.now] else [])
  {
  }

  lemma StepTracks(a: Alert, times: seq<int>, e: Event)
    requires Tracks(a, times) && Spaced(times) && e.now != 0
    ensures var more := times + if Repeats(a, e) then [e.now] else [];
            Tracks(Step(a, e), more) && Spaced(more)
  {
    StepTracksFields(a, times, e);
    if Repeats(a, e) {
      RepeatIsDue(a, times, e);
      SpacedGrows(times, e.now);
    } else {
      assert times + [] == times;
    }
  }

  /** After `k` repeats the count is `k` and the interval index is `k - 1`, up to the last; the
      next repeat keeps at least the interval of that index, however many alerts are raised in
      between and even if the vault is locked for a while. */
  lemma {:induction false} EscalationIsSpaced(es: seq<Event>)
    requires ClockIsNeverZero(es)
    ensures Tracks(Run(es), Times(es)) && Spaced(Times(es))
  {
    if es != [] {
      var front := es[..|es| - 1];
      EscalationIsSpaced(front);
      StepTracks(Run(front), Times(front), es[|es| - 1]);
    }
  }

  /** The least time `k` repeats take from the first one on. */
  function Span(k: nat): nat {
    if k <= 1 then 0 else Span(k - 1) + GapAfter(k - 1)
  }

  lemma {:induction false} SpanIsTaken(times: seq<int>)
    requires Spaced(times) && times != []
    ensures times[|times| - 1] - times[0] >= Span(|times|)
  {
    var k := |times| - 1;
    if k > 0 {
      var front := times[..k];
      assert forall i :: 0 <= i < k - 1 ==> front[i + 1] - front[i] == times[i + 1] - times[i];
      SpanIsTaken(front);
      assert times[k] - times[k - 1] >= GapAfter(k);
    }
  }

  ghost predicate ClockAdvances(es: seq<Event>) {
    && (forall i :: 0 <= i < |es| ==> es[i].now > 0)
    && forall i, j :: 0 <= i <= j < |es| ==> es[i].now <= es[j].now
  }

  lemma {:induction false} TimesAreOfEvents(es: seq<Event>, i: nat)
    requires i < |Times(es)|
    ensures exists j :: 0 <= j < |es| && es[j].now == Times(es)[i]
  {
    var front := es[..|es| - 1];
    if i < |Times(front)| {
      TimesAreOfEvents(front, i);
      var j :| 0 <= j < |front| && front[j].now == Times(front)[i];
      assert es[j].now == Times(es)[i];
    } else {
      assert es[|es| - 1].now == Times(es)[i];
    }
  }

  /** Between the first event and time `t` there are no more repeats than fit. */
  lemma RepeatsAreLimited(es: seq<Event>, t: int)
    requires es != [] && ClockAdvances(es) && es[|es| - 1].now <= t
    ensures Span(Run(es).alertCount) <= t - es[0].now
  {
    EscalationIsSpaced(es);
    var times := Times(es);
    if times != [] {
      SpanIsTaken(times);
      TimesAreOfEvents(es, 0);
      TimesAreOfEvents(es, |times| - 1);
    }
  }

  lemma {:induction false} SpanGrows(k: nat, m: nat)
    requires k <= m
    ensures Span(k) <= Span(m)
    decreases m - k
  {
    if k < m {
      SpanGrows(k, m - 1);
    }
  }

  /** So the number of repeats is bounded by the prefix sums of the intervals: one more than
      the sums that fit. */
  lemma CountIsBounded(es: seq<Event>, t: int, k: nat)
    requires es != [] && ClockAdvances(es) && es[|es| - 1].now <= t
    requires t - es[0].now < Span(k + 1)
    ensures Run(es).alertCount <= k
  {
    RepeatsAreLimited(es, t);
    if Run(es).alertCount > k {
      SpanGrows(k + 1, Run(es).alertCount);
    }
  }

  lemma Extend(es: seq<Event>, e: Event)
    ensures Run(es + [e]) == Step(Run(es), e)
    ensures Times(es + [e]) == Times(es) + if Repeats(Run(es), e) then [e.now] else []
  {
    assert (es + [e])[..|es|] == es;
  }

  lemma ClockGoesOn(es: seq<Event>, e: Event)
    requires ClockAdvances(es) && es != [] && es[|es| - 1].now <= e.now
    ensures ClockAdvances(es + [e])
  {
  }

  /** In `es` the `k`th repeat comes as early as it can. */
  ghost predicate EarliestRepeats(es: seq<Event>, start: int, k: nat) {
    && ClockAdvances(es) && es != [] && es[0].now == start && es[|es| - 1].now == start + Span(k)
    && Run(es).status == ALERT && Run(es).alertCount == k && Run(es).lastAlerted == start + Span(k)
  }

  /** The bound is met: polling exactly when a repeat is due gives `k` repeats in that time. */
  lemma {:induction false} BoundIsMet(start: int, k: nat) returns (es: seq<Event>)
    requires start > 0 && k >= 1
    ensures EarliestRepeats(es, start, k)
  {
    if k == 1 {
      es := [Trigger(start)];
      Extend([], Trigger(start));
      assert [] + [Trigger(start)] == es;
      Extend(es, Poll(start));
      es := es + [Poll(start)];
    } else {
      es := BoundIsMet(start, k - 1);
      es := PollWhenDue(es, start, k - 1);
    }
  }

  lemma PollWhenDue(front: seq<Event>, start: int, k: nat) returns (es: seq<Event>)
    requires start > 0 && k >= 1 && EarliestRepeats(front, start, k)
    ensures EarliestRepeats(es, start, k + 1)
  {
    var e := Poll(start + Span(k + 1));
    EscalationIsSpaced(front);
    Extend(front, e);
    ClockGoesOn(front, e);
    es := front + [e];
  }

  /** At clock zero nothing is kept apart: zero is taken for never. */
  lemma ClockZeroRepeatsAtOnce()
    ensures Run([Trigger(0), Poll(0), Poll(0)]).alertCount == 2
  {
    Extend([], Trigger(0));
    Extend([Trigger(0)], Poll(0));
    Extend([Trigger(0), Poll(0)], Poll(0));
    assert [] + [Trigger(0)] == [Trigger(0)] && [Trigger(0)] + [Poll(0)] == [Trigger(0), Poll(0)];
    assert [Trigger(0), Poll(0)] + [Poll(0)] == [Trigger(0), Poll(0), Poll(0)];
  }
}
