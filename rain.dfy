/** The rain gauge (rainthread.c).  The gauge's interrupt counts bucket tips; once a
    minute the polling loop turns the count into rainfall, adds it to the day's total,
    clears the count and stores both values. */
module Rain {
  import opened Common

  /** Rainfall per tip of the gauge's bucket. */
  const RAIN_PER_CLICK: real := 0.000045

  /** Seconds between two updates at the least. */
  const UPDATE_PERIOD := 60

  /** The shared tip counter, the published total for the day, and the loop's clock. */
  datatype RainState = RainState(rainCounter: int, rainToday: real, lastUpdate: int)

  /** One pass of the polling loop: the time read at its top, the tips that arrived
      since the previous pass, and the value of `kicked` that the loop condition sees. */
  datatype Poll = Poll(now: int, clicks: nat, kicked: int)

  /** The state after some passes and what they stored. */
  datatype Outcome = Outcome(state: RainState, records: seq<Record>)

  /** The thread at start (rainthread.c:41-48): the counter cleared, the clock set to
      the start time; the day's total keeps the value an earlier run left. */
  function Init(start: int, rainToday: real): (s: RainState)
    ensures s.rainCounter == 0 && s.rainToday == rainToday && s.lastUpdate == start
  {
    RainState(0, rainToday, start)
  }

  /** The rainfall `count` tips measure. */
  function Rainfall(count: int): real
  {
    count as real * RAIN_PER_CLICK
  }

  /** One pass of the loop (rainthread.c:51-67), after the tips since the last pass
      have reached the counter (rainthread.c:28-30). */
  function Step(s: RainState, p: Poll): (o: Outcome)
  {
    var counter := s.rainCounter + p.clicks;
    if p.now - s.lastUpdate >= UPDATE_PERIOD then
      var rainFall := Rainfall(counter);
      var today := s.rainToday + rainFall;
      Outcome(RainState(0, today, p.now), [Record("rainfall", rainFall), Record("rainfall_today", today)])
    else Outcome(s.(rainCounter := counter), [])
  }

  /** The passes of the loop over `polls`, up to and including the first one that finds
      `kicked` set (or until the polls run out). */
  function Run(s: RainState, polls: seq<Poll>): (o: Outcome)
    decreases |polls|
  {
    if polls == [] then Outcome(s, [])
    else
      var o := Step(s, polls[0]);
      if polls[0].kicked != 0 then o
      else
        var rest := Run(o.state, polls[1..]);
        Outcome(rest.state, o.records + rest.records)
  }

  /** rainthread (rainthread.c:34-74): the do-while polling loop from thread start
      until a pass finds `kicked` set.  It leaves the day's total, and the records
      stored, that Run describes. */
  method RainThread(start: int, today0: real, polls: seq<Poll>) returns (rainToday: real, stored: seq<Record>)
    ensures var o := Run(Init(start, today0), polls);
      rainToday == o.state.rainToday && stored == o.records
  {
    ghost var init := Init(start, today0);
    var rainCounter := 0;
    rainToday := today0;
    var lastUpdate := start;
    stored := [];
    var i := 0;
    var kicked := 0;
    while i < |polls| && kicked == 0
      invariant 0 <= i <= |polls|
      invariant RunFrom(init, polls, i, RainState(rainCounter, rainToday, lastUpdate), stored, kicked != 0)
    {
      ghost var cur := RainState(rainCounter, rainToday, lastUpdate);
      var p := polls[i];
      rainCounter := rainCounter + p.clicks;
      var records := [];
      if p.now - lastUpdate >= UPDATE_PERIOD {
        var rainFall := rainCounter as real * RAIN_PER_CLICK;
        rainToday := rainToday + rainFall;
        rainCounter := 0;
        records := [Record("rainfall", rainFall), Record("rainfall_today", rainToday)];
        lastUpdate := p.now;
      }
      RunFromPass(init, polls, i, cur, stored, RainState(rainCounter, rainToday, lastUpdate), records);
      stored := stored + records;
      i := i + 1;
      kicked := p.kicked;
    }
    if kicked == 0 {
      RunFromEnd(init, polls, RainState(rainCounter, rainToday, lastUpdate), stored);
    }
  }

  /** Run from `init` over `polls` is what `i` passes have done (reaching `cur` and
      storing `stored`) followed by the rest of the run, or, once `stopped`, the passes
      done so far. */
  predicate RunFrom(init: RainState, polls: seq<Poll>, i: int, cur: RainState, stored: seq<Record>, stopped: bool)
  {
    0 <= i <= |polls| &&
    Run(init, polls) ==
      if stopped then Outcome(cur, stored)
      else var rest := Run(cur, polls[i..]); Outcome(rest.state, stored + rest.records)
  }

  lemma RunFromPass(init: RainState, polls: seq<Poll>, i: int, cur: RainState, stored: seq<Record>,
                    next: RainState, records: seq<Record>)
    requires i < |polls| && RunFrom(init, polls, i, cur, stored, false)
    requires Step(cur, polls[i]) == Outcome(next, records)
    ensures RunFrom(init, polls, i + 1, next, stored + records, polls[i].kicked != 0)
  {
    assert polls[i..][1..] == polls[i + 1..];
    if polls[i].kicked == 0 {
      var rest := Run(next, polls[i + 1..]);
      assert stored + (records + rest.records) == stored + records + rest.records;
    }
  }

  lemma RunFromEnd(init: RainState, polls: seq<Poll>, cur: RainState, stored: seq<Record>)
    requires RunFrom(init, polls, |polls|, cur, stored, false)
    ensures Run(init, polls) == Outcome(cur, stored)
  {
    assert polls[|polls|..] == [];
    assert stored + [] == stored;
  }

  // ---------------------------------------------------------------------------
  // Properties of the polling loop

  /** 1000 tips of the bucket are 0.045 of rain. */
  lemma ThousandClicks()
    ensures Rainfall(1000) == 0.045
  {
  }

  /** Within a minute of the last update a pass only counts the new tips: nothing is
      stored and the total and the clock stay as they were. */
  lemma QuietPass(s: RainState, p: Poll)
    requires p.now - s.lastUpdate < UPDATE_PERIOD
    ensures Step(s, p) == Outcome(s.(rainCounter := s.rainCounter + p.clicks), [])
  {
  }

  /** A pass a minute or more after the last update turns every tip counted so far into
      rainfall: the total grows by exactly that rainfall, the counter is emptied, the
      clock moves to `now`, and the rainfall and the new total are stored, in that order. */
  lemma UpdatePass(s: RainState, p: Poll)
    requires p.now - s.lastUpdate >= UPDATE_PERIOD
    ensures var o := Step(s, p);
      o.state.rainCounter == 0 && o.state.lastUpdate == p.now &&
      o.state.rainToday - s.rainToday == Rainfall(s.rainCounter + p.clicks) &&
      o.records == [Record("rainfall", o.state.rainToday - s.rainToday), Record("rainfall_today", o.state.rainToday)]
  {
  }

  /** Two updates are at least a minute apart: a pass either keeps the clock or moves it
      a minute or more forward. */
  lemma UpdatesAMinuteApart(s: RainState, p: Poll)
    ensures var t := Step(s, p).state.lastUpdate;
      t == s.lastUpdate || t >= s.lastUpdate + UPDATE_PERIOD
  {
  }

  /** The tips of every poll the run takes part in. */
  function Clicks(polls: seq<Poll>): nat
  {
    if polls == [] then 0 else polls[0].clicks + Clicks(polls[1..])
  }

  /** The sum of the rainfall values among `records`. */
  function Falls(records: seq<Record>): real
  {
    if records == [] then 0.0
    else (if records[0].name == "rainfall" then records[0].value else 0.0) + Falls(records[1..])
  }

  lemma {:induction false} FallsAppend(a: seq<Record>, b: seq<Record>)
    ensures Falls(a + b) == Falls(a) + Falls(b)
  {
    if a == [] {
      assert a + b == b;
    } else {
      assert (a + b)[1..] == a[1..] + b;
      FallsAppend(a[1..], b);
    }
  }

  /** No polls before the last one find `kicked` set, so the run takes them all. */
  predicate Unkicked(polls: seq<Poll>)
  {
    forall k :: 0 <= k < |polls| - 1 ==> polls[k].kicked == 0
  }

  /** No rain is lost or made up: the stored rainfall values add up to the growth of the
      day's total, and together with the tips still counted they account for every tip
      counted at the start or during the run. */
  lemma {:induction false} RainConserved(s: RainState, polls: seq<Poll>)
    requires Unkicked(polls)
    ensures var o := Run(s, polls);
      o.state.rainToday == s.rainToday + Falls(o.records) &&
      Falls(o.records) + Rainfall(o.state.rainCounter) == Rainfall(s.rainCounter + Clicks(polls))
    decreases |polls|
  {
    if polls != [] {
      var o := Step(s, polls[0]);
      StepConserves(s, polls[0]);
      if polls[0].kicked == 0 {
        assert Unkicked(polls[1..]) by {
          forall k | 0 <= k < |polls[1..]| - 1 ensures polls[1..][k].kicked == 0 {
            assert polls[1..][k] == polls[k + 1];
          }
        }
        RainConserved(o.state, polls[1..]);
        var rest := Run(o.state, polls[1..]);
        FallsAppend(o.records, rest.records);
      } else {
        assert polls[1..] == [];
      }
    }
  }

  /** One pass accounts for every tip it finds counted. */
  lemma StepConserves(s: RainState, p: Poll)
    ensures var o := Step(s, p);
      o.state.rainToday == s.rainToday + Falls(o.records) &&
      Falls(o.records) + Rainfall(o.state.rainCounter) == Rainfall(s.rainCounter + p.clicks)
  {
    var o := Step(s, p);
    if p.now - s.lastUpdate >= UPDATE_PERIOD {
      var r := o.records;
      assert r[1..][1..] == [];
      assert r[1].name != "rainfall" by {
        assert |r[1].name| != |"rainfall"|;
      }
      assert Falls(r[1..]) == 0.0;
      assert Falls(r) == r[0].value;
    }
  }

  /** With a counter that never goes below zero, the day's total never falls, and each
      stored total is at least the total at the start. */
  lemma {:induction false} RainTodayGrows(s: RainState, polls: seq<Poll>)
    requires s.rainCounter >= 0
    ensures var o := Run(s, polls);
      o.state.rainToday >= s.rainToday && o.state.rainCounter >= 0 &&
      forall k :: 0 <= k < |o.records| && o.records[k].name == "rainfall_today" ==> o.records[k].value >= s.rainToday
    decreases |polls|
  {
    if polls != [] {
      var o := Step(s, polls[0]);
      if polls[0].kicked == 0 {
        RainTodayGrows(o.state, polls[1..]);
        var rest := Run(o.state, polls[1..]);
        var all := o.records + rest.records;
        forall k | 0 <= k < |all| && all[k].name == "rainfall_today" ensures all[k].value >= s.rainToday {
          if k >= |o.records| {
            assert all[k] == rest.records[k - |o.records|];
          }
        }
      }
    }
  }

  /** The run ends at the first pass that finds `kicked` set: later polls change nothing. */
  lemma KickedStops(s: RainState, polls: seq<Poll>, later: seq<Poll>)
    requires polls != [] && polls[|polls| - 1].kicked != 0
    ensures Run(s, polls + later) == Run(s, polls)
    decreases |polls|
  {
    if polls[0].kicked == 0 {
      assert (polls + later)[1..] == polls[1..] + later;
      KickedStops(Step(s, polls[0]).state, polls[1..], later);
    }
  }
}
