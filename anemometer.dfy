/** The anemometer sampler (anemometerthread.c).  Once a second the click count of the
    last second goes into a 5-slot buffer; each full buffer gives one speed (its mean
    times SPEED_FACTOR) that goes into a 24-slot buffer of speeds, and the largest speed
    held there may raise the gust; each full speed buffer publishes its mean as the wind
    speed, stores speed and gust, and resets the gust.

    The source closes each buffer one sample late (see AsWrittenTick below); the thread
    model, Step and AnemometerThread, closes it when it is full. */
module Anemometer {
  import opened CLib
  import opened Common

  const AVGSIZE := 5
  const BUFSIZE := 24

  /** Clicks per second to wind speed. */
  const SPEED_FACTOR: real := 3.6528

  // ---------------------------------------------------------------------------
  // getAvg, getAvgDouble, getMax

  function Sum(s: seq<int>): int
  {
    if s == [] then 0 else Sum(s[..|s| - 1]) + s[|s| - 1]
  }

  function SumReal(s: seq<real>): real
  {
    if s == [] then 0.0 else SumReal(s[..|s| - 1]) + s[|s| - 1]
  }

  function MeanInt(s: seq<int>): real
    requires |s| > 0
  {
    Sum(s) as real / |s| as real
  }

  function MeanReal(s: seq<real>): real
    requires |s| > 0
  {
    SumReal(s) / |s| as real
  }

  /** The running maximum of a non-empty sequence, kept from the front as getMax does. */
  function MaxOf(s: seq<real>): real
    requires |s| > 0
  {
    if |s| == 1 then s[0]
    else
      var m := MaxOf(s[..|s| - 1]);
      if s[|s| - 1] > m then s[|s| - 1] else m
  }

  /** The running maximum is the largest element: no element exceeds it and it is one
      of them. */
  lemma {:induction false} MaxOfIsMax(s: seq<real>)
    requires |s| > 0
    ensures forall k :: 0 <= k < |s| ==> s[k] <= MaxOf(s)
    ensures exists k :: 0 <= k < |s| && s[k] == MaxOf(s)
  {
    if |s| > 1 {
      var init := s[..|s| - 1];
      MaxOfIsMax(init);
      assert forall k :: 0 <= k < |s| - 1 ==> init[k] == s[k];
      if s[|s| - 1] <= MaxOf(init) {
        var j :| 0 <= j < |init| && init[j] == MaxOf(init);
        assert s[j] == MaxOf(s);
      } else {
        assert s[|s| - 1] == MaxOf(s);
      }
    } else {
      assert s[0] == MaxOf(s);
    }
  }

  lemma {:induction false} SumBounds(s: seq<int>, lo: int, hi: int)
    requires forall k :: 0 <= k < |s| ==> lo <= s[k] <= hi
    ensures lo * |s| <= Sum(s) <= hi * |s|
  {
    if s != [] {
      SumBounds(s[..|s| - 1], lo, hi);
    }
  }

  lemma {:induction false} SumRealBounds(s: seq<real>, lo: real, hi: real)
    requires forall k :: 0 <= k < |s| ==> lo <= s[k] <= hi
    ensures lo * |s| as real <= SumReal(s) <= hi * |s| as real
  {
    if s != [] {
      SumRealBounds(s[..|s| - 1], lo, hi);
    }
  }

  /** The mean of click counts lies between their least and largest value. */
  lemma MeanIntBounds(s: seq<int>, lo: int, hi: int)
    requires |s| > 0
    requires forall k :: 0 <= k < |s| ==> lo <= s[k] <= hi
    ensures lo as real <= MeanInt(s) <= hi as real
  {
    SumBounds(s, lo, hi);
    var n := |s| as real;
    assert lo as real * n <= Sum(s) as real <= hi as real * n;
  }

  /** The mean of speeds lies between their least and largest value. */
  lemma MeanRealBounds(s: seq<real>, lo: real, hi: real)
    requires |s| > 0
    requires forall k :: 0 <= k < |s| ==> lo <= s[k] <= hi
    ensures lo <= MeanReal(s) <= hi
  {
    SumRealBounds(s, lo, hi);
  }

  /** getAvg (anemometerthread.c:33-39): the integer total of dat[0..sz) over sz.
      The total is an unbounded integer here. */
  method GetAvg(dat: array<int>, sz: int) returns (result: real)
    requires 1 <= sz <= dat.Length
    ensures result == MeanInt(dat[..sz])
  {
    var tot := 0;
    var i := 0;
    while i < sz
      invariant 0 <= i <= sz
      invariant tot == Sum(dat[..i])
    {
      assert dat[..i + 1][..i] == dat[..i];
      tot := tot + dat[i];
      i := i + 1;
    }
    result := 1.0 * tot as real / sz as real;
  }

  /** getAvgDouble (anemometerthread.c:42-49): the mean of dat[0..sz). */
  method GetAvgDouble(dat: array<real>, sz: int) returns (result: real)
    requires 1 <= sz <= dat.Length
    ensures result == MeanReal(dat[..sz])
  {
    var tot := 0.0;
    var i := 0;
    while i < sz
      invariant 0 <= i <= sz
      invariant tot == SumReal(dat[..i])
    {
      assert dat[..i + 1][..i] == dat[..i];
      tot := tot + 1.0 * dat[i];
      i := i + 1;
    }
    result := tot / sz as real;
  }

  /** getMax (anemometerthread.c:52-60): the largest of dat[0..sz); it reads dat[0]
      first, so with sz == 0 that is the result. */
  method GetMax(dat: array<real>, sz: int) returns (result: real)
    requires 1 <= dat.Length && 0 <= sz <= dat.Length
    ensures sz >= 1 ==> result == MaxOf(dat[..sz])
    ensures sz >= 1 ==> (forall k :: 0 <= k < sz ==> dat[k] <= result) && exists k :: 0 <= k < sz && dat[k] == result
    ensures sz == 0 ==> result == dat[0]
  {
    var high := dat[0];
    var i := 1;
    assert dat[..1] == [dat[0]];
    while i < sz
      invariant 1 <= i && (sz >= 1 ==> i <= sz)
      invariant sz >= 1 ==> high == MaxOf(dat[..i])
      invariant sz == 0 ==> high == dat[0]
    {
      assert dat[..i + 1][..i] == dat[..i];
      if dat[i] > high {
        high := dat[i];
      }
      i := i + 1;
    }
    result := high;
    if sz >= 1 {
      MaxOfIsMax(dat[..sz]);
    }
  }

  // ---------------------------------------------------------------------------
  // The sampling loop

  /** The thread's locals (avgbuf, avgptr, bvgbuf, bvgptr, lastCount) together with the
      globals it shares: windCounter, which the interrupt increments, and the published
      windGust and windSpeed. */
  datatype WindState = WindState(avgbuf: seq<int>, avgptr: int, bvgbuf: seq<real>, bvgptr: int,
                                 lastCount: int, windCounter: int, windGust: real, windSpeed: real)

  /** One pass of the polling loop: the time read at its top, the interrupts that arrived
      since the previous pass, and the value of `kicked` that the loop condition sees. */
  datatype Poll = Poll(now: int, clicks: nat, kicked: int)

  /** The state after some passes and what they stored in the database. */
  datatype Outcome = Outcome(state: WindState, records: seq<Record>)

  /** Between passes both cursors point into their buffers. */
  predicate Valid(s: WindState)
  {
    |s.avgbuf| == AVGSIZE && |s.bvgbuf| == BUFSIZE && 0 <= s.avgptr < AVGSIZE && 0 <= s.bvgptr < BUFSIZE
  }

  /** No clicks are stored or pending. */
  predicate Quiet(s: WindState)
  {
    (forall k :: 0 <= k < |s.avgbuf| ==> s.avgbuf[k] == 0) &&
    (forall k :: 0 <= k < |s.bvgbuf| ==> s.bvgbuf[k] == 0.0) &&
    s.windCounter == 0
  }

  /** Counts and speeds are never negative. */
  predicate NonNegative(s: WindState)
  {
    (forall k :: 0 <= k < |s.avgbuf| ==> s.avgbuf[k] >= 0) &&
    (forall k :: 0 <= k < |s.bvgbuf| ==> s.bvgbuf[k] >= 0.0) &&
    s.windCounter >= 0
  }

  /** The state when the thread starts (anemometerthread.c:67-85): both buffers zeroed,
      both cursors 0, the click counter cleared and lastCount the start time; the
      published gust and speed keep the values an earlier run left. */
  function Init(start: int, windGust: real, windSpeed: real): (s: WindState)
    ensures Valid(s) && Quiet(s) && NonNegative(s)
    ensures s.lastCount == start && s.windGust == windGust && s.windSpeed == windSpeed
  {
    WindState(seq(AVGSIZE, _ => 0), 0, seq(BUFSIZE, _ => 0.0), 0, start, 0, windGust, windSpeed)
  }

  /** `t` after the count `c` of a second ending at `now` is stored in the next slot of
      avgbuf and the counter restarts. */
  function Sampling(t: WindState, c: int, now: int): WindState
    requires Valid(t)
  {
    t.(avgbuf := t.avgbuf[t.avgptr := c], avgptr := t.avgptr + 1, windCounter := 0, lastCount := now)
  }

  /** anemometerthread.c:88-97: a second is sampled once at least a second has passed. */
  function SampleSecond(s: WindState, now: int): (r: WindState)
    requires Valid(s)
    ensures Sampled(r) && r.bvgbuf == s.bvgbuf && r.bvgptr == s.bvgptr
  {
    if now - s.lastCount >= 1 then Sampling(s, s.windCounter, now) else s
  }

  /** avgbuf may be full, bvgbuf is not. */
  predicate Sampled(s: WindState)
  {
    |s.avgbuf| == AVGSIZE && |s.bvgbuf| == BUFSIZE && 0 <= s.avgptr <= AVGSIZE && 0 <= s.bvgptr < BUFSIZE
  }

  /** anemometerthread.c:98-110 with the guard avgptr >= AVGSIZE: a full avgbuf gives
      one speed, pushed into bvgbuf; the gust becomes the largest speed in bvgbuf when
      that exceeds the mean click count x. */
  function CloseAvgWindow(s: WindState): (r: WindState)
    requires Sampled(s)
    ensures |r.avgbuf| == AVGSIZE && 0 <= r.avgptr < AVGSIZE && |r.bvgbuf| == BUFSIZE && 0 <= r.bvgptr <= BUFSIZE
  {
    if s.avgptr >= AVGSIZE then
      var x := MeanInt(s.avgbuf);
      var b := s.bvgbuf[s.bvgptr := SPEED_FACTOR * x];
      var y := MaxOf(b);
      s.(bvgbuf := b, bvgptr := s.bvgptr + 1, windGust := if y > x then y else s.windGust, avgptr := 0)
    else s
  }

  /** anemometerthread.c:111-125 with the guard bvgptr >= BUFSIZE: a full bvgbuf
      publishes its mean as the wind speed, stores speed and gust, and resets the gust;
      bvgbuf keeps its contents. */
  function CloseSpeedWindow(s: WindState): (o: Outcome)
    requires |s.bvgbuf| == BUFSIZE && 0 <= s.bvgptr <= BUFSIZE
    ensures o.state.bvgptr < BUFSIZE && o.state.bvgbuf == s.bvgbuf && o.state.avgbuf == s.avgbuf && o.state.avgptr == s.avgptr
  {
    if s.bvgptr >= BUFSIZE then
      var speed := MeanReal(s.bvgbuf);
      Outcome(s.(windSpeed := speed, windGust := 0.0, bvgptr := 0),
              [Record("wind_speed", speed), Record("wind_gust", s.windGust)])
    else Outcome(s, [])
  }

  /** One pass of the polling loop (anemometerthread.c:88-128).  With the guards closing
      each buffer when it is full, every write stays inside its array. */
  function Step(s: WindState, p: Poll): (o: Outcome)
    requires Valid(s)
    ensures Valid(o.state)
  {
    var counted := s.(windCounter := s.windCounter + p.clicks);
    CloseSpeedWindow(CloseAvgWindow(SampleSecond(counted, p.now)))
  }

  /** The passes of the loop over `polls`, up to and including the first one that finds
      `kicked` set (or until the polls run out). */
  function Run(s: WindState, polls: seq<Poll>): (o: Outcome)
    requires Valid(s)
    ensures Valid(o.state)
    decreases |polls|
  {
    if polls == [] then Outcome(s, [])
    else
      var o := Step(s, polls[0]);
      if polls[0].kicked != 0 then o
      else
        var rest := Run(o.state, polls[1..]);
        Outcome(rest.state, o.records + rest.records)
  }

  /** The anemometer thread's buffers, cursors and clock, with the shared click counter
      and the published gust and speed, as the polling loop updates them in place. */
  class WindSampler {
    const avgbuf: array<int>
    var avgptr: int
    const bvgbuf: array<real>
    var bvgptr: int
    var lastCount: int
    var windCounter: int
    var windGust: real
    var windSpeed: real

    function State(): WindState
      reads this, avgbuf, bvgbuf
    {
      WindState(avgbuf[..], avgptr, bvgbuf[..], bvgptr, lastCount, windCounter, windGust, windSpeed)
    }

    predicate Sized()
      reads this
    {
      avgbuf.Length == AVGSIZE && bvgbuf.Length == BUFSIZE
    }

    /** Thread start (anemometerthread.c:67-85). */
    constructor(start: int, gust0: real, speed0: real)
      ensures Sized() && fresh(avgbuf) && fresh(bvgbuf)
      ensures State() == Init(start, gust0, speed0)
    {
      avgbuf := new int[AVGSIZE](_ => 0);
      avgptr := 0;
      bvgbuf := new real[BUFSIZE](_ => 0.0);
      bvgptr := 0;
      windCounter := 0;
      lastCount := start;
      windGust, windSpeed := gust0, speed0;
      new;
      assert avgbuf[..] == Init(start, gust0, speed0).avgbuf && bvgbuf[..] == Init(start, gust0, speed0).bvgbuf;
    }

    /** anemometerthread.c:88-97, after `clicks` interrupts. */
    method Sample(clicks: nat, now: int)
      requires Sized() && Valid(State())
      modifies this, avgbuf
      ensures Sized() && State() == SampleSecond(old(State()).(windCounter := old(windCounter) + clicks), now)
    {
      windCounter := windCounter + clicks;
      if now - lastCount >= 1 {
        avgbuf[avgptr] := windCounter;
        avgptr := avgptr + 1;
        windCounter := 0;
        lastCount := now;
      }
    }

    /** anemometerthread.c:98-110. */
    method PushSpeed()
      requires Sized() && Sampled(State())
      modifies this, bvgbuf
      ensures Sized() && State() == CloseAvgWindow(old(State()))
    {
      ghost var s := State();
      ghost var target := CloseAvgWindow(s);
      CloseAvgWindowCases(s);
      if avgptr >= AVGSIZE {
        assert avgbuf[..AVGSIZE] == s.avgbuf;
        var x := GetAvg(avgbuf, AVGSIZE);
        var y := SPEED_FACTOR * x;
        bvgbuf[bvgptr] := y;
        bvgptr := bvgptr + 1;
        assert bvgbuf[..BUFSIZE] == target.bvgbuf;
        y := GetMax(bvgbuf, BUFSIZE);
        if y > x {
          windGust := y;
        }
        avgptr := 0;
        assert windGust == target.windGust;
      }
      assert State() == target;
    }

    /** anemometerthread.c:111-125; `stored` is what goes to the database. */
    method PublishSpeed() returns (stored: seq<Record>)
      requires Sized() && |State().bvgbuf| == BUFSIZE && 0 <= bvgptr <= BUFSIZE
      modifies this
      ensures Sized() && Outcome(State(), stored) == CloseSpeedWindow(old(State()))
    {
      stored := [];
      if bvgptr >= BUFSIZE {
        assert bvgbuf[..BUFSIZE] == bvgbuf[..];
        var x := GetAvgDouble(bvgbuf, BUFSIZE);
        windSpeed := x;
        stored := [Record("wind_speed", windSpeed), Record("wind_gust", windGust)];
        windGust := 0.0;
        bvgptr := 0;
      }
    }

    /** One pass of the do-while body (anemometerthread.c:88-128). */
    method Pass(p: Poll) returns (stored: seq<Record>)
      requires Sized() && Valid(State())
      modifies this, avgbuf, bvgbuf
      ensures Sized() && Outcome(State(), stored) == Step(old(State()), p)
    {
      ghost var s := State();
      Sample(p.clicks, p.now);
      PushSpeed();
      stored := PublishSpeed();
      StepPhases(s, p);
    }
  }

  /** anemometerthread (anemometerthread.c:64-133): the do-while polling loop, from
      thread start until a pass finds `kicked` set.  It leaves the published gust and
      speed, and the records stored, that Run describes. */
  method AnemometerThread(start: int, gust0: real, speed0: real, polls: seq<Poll>)
    returns (windGust: real, windSpeed: real, stored: seq<Record>)
    ensures var o := Run(Init(start, gust0, speed0), polls);
      windGust == o.state.windGust && windSpeed == o.state.windSpeed && stored == o.records
  {
    var w := new WindSampler(start, gust0, speed0);
    ghost var init := w.State();
    stored := [];
    var i := 0;
    var kicked := 0;
    while i < |polls| && kicked == 0
      invariant 0 <= i <= |polls|
      invariant w.Sized() && fresh(w) && fresh(w.avgbuf) && fresh(w.bvgbuf)
      invariant Valid(w.State())
      invariant RunFrom(init, polls, i, w.State(), stored, kicked != 0)
    {
      ghost var cur := w.State();
      var p := polls[i];
      var records := w.Pass(p);
      RunFromPass(init, polls, i, cur, stored, w.State(), records);
      stored := stored + records;
      i := i + 1;
      kicked := p.kicked;
    }
    if kicked == 0 {
      RunFromEnd(init, polls, w.State(), stored);
    }
    windGust, windSpeed := w.windGust, w.windSpeed;
  }

  /** Run from `init` over `polls` is what `i` passes have done (reaching `cur` and
      storing `stored`) followed by the rest of the run, or, once `stopped`, the passes
      done so far. */
  predicate RunFrom(init: WindState, polls: seq<Poll>, i: int, cur: WindState, stored: seq<Record>, stopped: bool)
  {
    Valid(init) && Valid(cur) && 0 <= i <= |polls| &&
    Run(init, polls) ==
      if stopped then Outcome(cur, stored)
      else var rest := Run(cur, polls[i..]); Outcome(rest.state, stored + rest.records)
  }

  lemma RunFromPass(init: WindState, polls: seq<Poll>, i: int, cur: WindState, stored: seq<Record>,
                    next: WindState, records: seq<Record>)
    requires i < |polls| && RunFrom(init, polls, i, cur, stored, false)
    requires Step(cur, polls[i]) == Outcome(next, records)
    ensures RunFrom(init, polls, i + 1, next, stored + records, polls[i].kicked != 0)
  {
    RunFirstPass(cur, polls[i..]);
    assert polls[i..][1..] == polls[i + 1..];
    if polls[i].kicked == 0 {
      var rest := Run(next, polls[i + 1..]);
      assert stored + (records + rest.records) == stored + records + rest.records;
    }
  }

  lemma RunFromEnd(init: WindState, polls: seq<Poll>, cur: WindState, stored: seq<Record>)
    requires RunFrom(init, polls, |polls|, cur, stored, false)
    ensures Run(init, polls) == Outcome(cur, stored)
  {
    assert polls[|polls|..] == [];
    assert stored + [] == stored;
  }

  lemma RunFirstPass(s: WindState, polls: seq<Poll>)
    requires Valid(s) && polls != []
    ensures var o := Step(s, polls[0]);
      Run(s, polls) ==
        if polls[0].kicked != 0 then o
        else var rest := Run(o.state, polls[1..]); Outcome(rest.state, o.records + rest.records)
  {
  }

  lemma CloseAvgWindowCases(s: WindState)
    requires Sampled(s)
    ensures s.avgptr < AVGSIZE ==> CloseAvgWindow(s) == s
    ensures s.avgptr >= AVGSIZE ==>
      var x := MeanInt(s.avgbuf);
      var b := s.bvgbuf[s.bvgptr := SPEED_FACTOR * x];
      CloseAvgWindow(s) == s.(bvgbuf := b, bvgptr := s.bvgptr + 1, windGust := if MaxOf(b) > x then MaxOf(b) else s.windGust, avgptr := 0)
  {
  }

  lemma StepPhases(s: WindState, p: Poll)
    requires Valid(s)
    ensures Step(s, p) == CloseSpeedWindow(CloseAvgWindow(SampleSecond(s.(windCounter := s.windCounter + p.clicks), p.now)))
  {
  }

  // ---------------------------------------------------------------------------
  // Properties of the sampling loop

  /** A pass less than a second after the last sample only adds the new clicks to the
      counter: nothing is stored and no buffer or published value changes. */
  lemma IdlePass(s: WindState, p: Poll)
    requires Valid(s) && p.now - s.lastCount < 1
    ensures Step(s, p) == Outcome(s.(windCounter := s.windCounter + p.clicks), [])
  {
  }

  /** A pass a second or more after the last sample, while avgbuf is not yet full,
      stores the count of that second in slot avgptr, advances avgptr, clears the
      counter and restarts the second at `now`. */
  lemma SamplingPass(s: WindState, p: Poll)
    requires Valid(s) && p.now - s.lastCount >= 1 && s.avgptr < AVGSIZE - 1
    ensures Step(s, p) == Outcome(Sampling(s, s.windCounter + p.clicks, p.now), [])
  {
  }

  /** The pass that fills avgbuf pushes the mean of its five counts, as a speed, into
      bvgbuf; when that fills bvgbuf too, the mean of the 24 speeds is published and
      stored with the gust, and the gust is reset. */
  lemma ClosingPass(s: WindState, p: Poll)
    requires Valid(s) && p.now - s.lastCount >= 1 && s.avgptr == AVGSIZE - 1
    ensures var a := s.avgbuf[AVGSIZE - 1 := s.windCounter + p.clicks];
      var b := s.bvgbuf[s.bvgptr := SPEED_FACTOR * MeanInt(a)];
      var gust := if MaxOf(b) > MeanInt(a) then MaxOf(b) else s.windGust;
      var o := Step(s, p);
      o.state.avgbuf == a && o.state.avgptr == 0 && o.state.bvgbuf == b &&
      o.state.windCounter == 0 && o.state.lastCount == p.now &&
      if s.bvgptr < BUFSIZE - 1 then
        o.state.bvgptr == s.bvgptr + 1 && o.state.windGust == gust && o.state.windSpeed == s.windSpeed &&
        o.records == []
      else
        o.state.bvgptr == 0 && o.state.windGust == 0.0 && o.state.windSpeed == MeanReal(b) &&
        o.records == [Record("wind_speed", MeanReal(b)), Record("wind_gust", gust)]
  {
  }

  /** The counts of five consecutive seconds: what was pending before the first one
      plus the clicks of each. */
  function WindowCounts(pending: int, polls: seq<Poll>): seq<int>
    requires |polls| == AVGSIZE
  {
    [pending + polls[0].clicks, polls[1].clicks, polls[2].clicks, polls[3].clicks, polls[4].clicks]
  }

  /** Five passes that each start a new second, from an empty avgbuf, push one speed:
      SPEED_FACTOR times the mean of the five counts, at the slot bvgptr had. */
  lemma FiveSecondWindow(s: WindState, polls: seq<Poll>)
    requires Valid(s) && s.avgptr == 0 && |polls| == AVGSIZE
    requires forall k :: 0 <= k < AVGSIZE ==> polls[k].kicked == 0
    requires polls[0].now - s.lastCount >= 1
    requires forall k :: 1 <= k < AVGSIZE ==> polls[k].now - polls[k - 1].now >= 1
    ensures var counts := WindowCounts(s.windCounter, polls);
      var o := Run(s, polls);
      o.state.avgptr == 0 && o.state.bvgbuf[s.bvgptr] == SPEED_FACTOR * MeanInt(counts) &&
      o.state.bvgptr == if s.bvgptr < BUFSIZE - 1 then s.bvgptr + 1 else 0
  {
    var counts := WindowCounts(s.windCounter, polls);
    var t := FirstFourSeconds(s, polls);
    var last := polls[AVGSIZE - 1];
    ClosingRun(t, last);
    var a := t.avgbuf[AVGSIZE - 1 := t.windCounter + last.clicks];
    assert forall j :: 0 <= j < AVGSIZE ==> a[j] == counts[j];
    assert a == counts;
  }

  lemma FirstFourSeconds(s: WindState, polls: seq<Poll>) returns (t: WindState)
    requires Valid(s) && s.avgptr == 0 && |polls| == AVGSIZE
    requires forall k :: 0 <= k < AVGSIZE ==> polls[k].kicked == 0
    requires polls[0].now - s.lastCount >= 1
    requires forall k :: 1 <= k < AVGSIZE ==> polls[k].now - polls[k - 1].now >= 1
    ensures Valid(t) && t.avgptr == AVGSIZE - 1 && t.windCounter == 0 && t.lastCount == polls[AVGSIZE - 2].now
    ensures t.bvgbuf == s.bvgbuf && t.bvgptr == s.bvgptr
    ensures forall j :: 0 <= j < AVGSIZE - 1 ==> t.avgbuf[j] == WindowCounts(s.windCounter, polls)[j]
    ensures Run(s, polls) == Run(t, [polls[AVGSIZE - 1]])
  {
    var counts := WindowCounts(s.windCounter, polls);
    var u := TwoSeconds(s, polls, counts[0]);
    assert polls[2..][0] == polls[2] && polls[2..][1] == polls[3] && polls[2..][2..] == polls[4..];
    t := TwoSeconds(u, polls[2..], counts[2]);
    assert polls[4..] == [polls[AVGSIZE - 1]];
  }

  /** Two sampling passes, neither the last of the run. */
  lemma TwoSeconds(t: WindState, polls: seq<Poll>, c: int) returns (u: WindState)
    requires Valid(t) && |polls| >= 3 && polls[0].kicked == 0 && polls[1].kicked == 0
    requires polls[0].now - t.lastCount >= 1 && polls[1].now - polls[0].now >= 1
    requires t.avgptr < AVGSIZE - 2 && c == t.windCounter + polls[0].clicks
    ensures u == Sampling(Sampling(t, c, polls[0].now), polls[1].clicks, polls[1].now) && Valid(u)
    ensures Run(t, polls) == Run(u, polls[2..])
  {
    SamplingRun(t, polls, c);
    var t1 := Sampling(t, c, polls[0].now);
    assert polls[1..][0] == polls[1] && polls[1..][1..] == polls[2..];
    SamplingRun(t1, polls[1..], polls[1].clicks);
    u := Sampling(t1, polls[1].clicks, polls[1].now);
  }

  /** A sampling pass that is not the last of the run just hands the sampled state on. */
  lemma SamplingRun(t: WindState, polls: seq<Poll>, c: int)
    requires Valid(t) && |polls| >= 2 && polls[0].kicked == 0
    requires polls[0].now - t.lastCount >= 1 && t.avgptr < AVGSIZE - 1 && c == t.windCounter + polls[0].clicks
    ensures Valid(Sampling(t, c, polls[0].now))
    ensures Run(t, polls) == Run(Sampling(t, c, polls[0].now), polls[1..])
  {
    var next := Sampling(t, c, polls[0].now);
    SamplingPass(t, polls[0]);
    assert Step(t, polls[0]) == Outcome(next, []);
    RunFirstPass(t, polls);
    var rest := Run(next, polls[1..]);
    assert Run(t, polls) == Outcome(rest.state, [] + rest.records);
    assert [] + rest.records == rest.records;
  }

  lemma ClosingRun(t: WindState, last: Poll)
    requires Valid(t) && last.now - t.lastCount >= 1 && t.avgptr == AVGSIZE - 1
    ensures var a := t.avgbuf[AVGSIZE - 1 := t.windCounter + last.clicks];
      var o := Run(t, [last]);
      o.state.avgptr == 0 && o.state.bvgbuf[t.bvgptr] == SPEED_FACTOR * MeanInt(a) &&
      o.state.bvgptr == if t.bvgptr < BUFSIZE - 1 then t.bvgptr + 1 else 0
  {
    ClosingPass(t, last);
    RunFirstPass(t, [last]);
    assert Run(t, [last]).state == Step(t, last).state;
  }

  /** The gust test compares a speed with the mean click count x, not with a speed.
      While counts are non-negative it amounts to "the largest speed in bvgbuf is
      positive": the pushed speed is SPEED_FACTOR * x, so for x > 0 the test always
      passes, and for x == 0 it passes exactly when some held speed is positive. */
  lemma GustAgainstCountMean(s: WindState)
    requires Sampled(s) && NonNegative(s) && s.avgptr == AVGSIZE
    ensures var b := CloseAvgWindow(s).bvgbuf;
      CloseAvgWindow(s).windGust == if MaxOf(b) > 0.0 then MaxOf(b) else s.windGust
  {
    var x := MeanInt(s.avgbuf);
    MeanIntBounds(s.avgbuf, 0, MaxCount(s.avgbuf));
    var b := s.bvgbuf[s.bvgptr := SPEED_FACTOR * x];
    MaxOfIsMax(b);
    assert b[s.bvgptr] == SPEED_FACTOR * x;
    assert x >= 0.0;
  }

  /** An upper bound of a non-empty sequence of counts. */
  function MaxCount(s: seq<int>): (r: int)
    ensures forall k :: 0 <= k < |s| ==> s[k] <= r
  {
    if s == [] then 0
    else
      var m := MaxCount(s[1..]);
      assert forall k :: 1 <= k < |s| ==> s[1..][k - 1] == s[k];
      if s[0] > m then s[0] else m
  }

  /** Each pass keeps counts and speeds non-negative. */
  lemma StepKeepsNonNegative(s: WindState, p: Poll)
    requires Valid(s) && NonNegative(s)
    ensures NonNegative(Step(s, p).state)
  {
    var counted := s.(windCounter := s.windCounter + p.clicks);
    var t := SampleSecond(counted, p.now);
    assert NonNegative(t);
    if t.avgptr >= AVGSIZE {
      MeanIntBounds(t.avgbuf, 0, MaxCount(t.avgbuf));
    }
  }

  /** A published wind speed lies between the least and the largest speed in bvgbuf. */
  lemma PublishedSpeedInRange(s: WindState, lo: real, hi: real)
    requires |s.bvgbuf| == BUFSIZE && s.bvgptr == BUFSIZE
    requires forall k :: 0 <= k < BUFSIZE ==> lo <= s.bvgbuf[k] <= hi
    ensures lo <= CloseSpeedWindow(s).state.windSpeed <= hi
    ensures CloseSpeedWindow(s).records[0] == Record("wind_speed", CloseSpeedWindow(s).state.windSpeed)
  {
    MeanRealBounds(s.bvgbuf, lo, hi);
  }

  /** With no clicks a quiet state stays quiet; a pass either leaves the gust and the
      speed as they were, or publishes a speed of 0 and resets the gust to 0. */
  lemma CalmPass(s: WindState, p: Poll)
    requires Valid(s) && Quiet(s) && p.clicks == 0
    ensures var o := Step(s, p);
      Quiet(o.state) &&
      ((o.state.windGust == s.windGust && o.state.windSpeed == s.windSpeed && o.records == []) ||
       (o.state.windGust == 0.0 && o.state.windSpeed == 0.0 &&
        o.records == [Record("wind_speed", 0.0), Record("wind_gust", s.windGust)]))
  {
    var t := SampleSecond(s, p.now);
    assert Quiet(t);
    if t.avgptr >= AVGSIZE {
      MeanIntBounds(t.avgbuf, 0, 0);
      var b := t.bvgbuf[t.bvgptr := SPEED_FACTOR * MeanInt(t.avgbuf)];
      assert forall k :: 0 <= k < BUFSIZE ==> b[k] == 0.0;
      MaxOfIsMax(b);
    }
    var c := CloseAvgWindow(t);
    if c.bvgptr >= BUFSIZE {
      MeanRealBounds(c.bvgbuf, 0.0, 0.0);
    }
  }

  /** If every second counts no clicks, a wind speed and gust of 0 stay 0 for the whole
      run, and every value stored is 0. */
  lemma {:induction false} CalmRun(s: WindState, polls: seq<Poll>)
    requires Valid(s) && Quiet(s) && s.windGust == 0.0 && s.windSpeed == 0.0
    requires forall k :: 0 <= k < |polls| ==> polls[k].clicks == 0
    ensures var o := Run(s, polls);
      o.state.windGust == 0.0 && o.state.windSpeed == 0.0 &&
      forall k :: 0 <= k < |o.records| ==> o.records[k].value == 0.0
    decreases |polls|
  {
    if polls != [] {
      CalmPass(s, polls[0]);
      var o := Step(s, polls[0]);
      if polls[0].kicked == 0 {
        CalmRun(o.state, polls[1..]);
      }
    }
  }

  // ---------------------------------------------------------------------------
  // The guards as written

  /** The two cursors. */
  datatype Cursors = Cursors(avgptr: int, bvgptr: int)

  /** What one sampled second does to the cursors under the guards as written
      (anemometerthread.c:93-111): the slot of avgbuf it writes, the slot of bvgbuf it
      pushes into when `avgptr > AVGSIZE`, and the cursors after `bvgptr > BUFSIZE`. */
  datatype Tick = Tick(next: Cursors, avgIndex: int, bvgIndex: Option<int>)

  function AsWrittenTick(c: Cursors): Tick
  {
    var a := c.avgptr + 1;
    if a > AVGSIZE then
      var b := c.bvgptr + 1;
      Tick(Cursors(0, if b > BUFSIZE then 0 else b), c.avgptr, Some(c.bvgptr))
    else
      Tick(Cursors(a, if c.bvgptr > BUFSIZE then 0 else c.bvgptr), c.avgptr, None)
  }

  /** The cursors after `n` sampled seconds under the guards as written. */
  function AsWrittenTicks(c: Cursors, n: nat): Cursors
  {
    if n == 0 then c else AsWrittenTick(AsWrittenTicks(c, n - 1)).next
  }

  /** From thread start, the sixth sampled second writes avgbuf[5], one past the
      5-slot array, and only then is an average taken (of slots 0..4, so that count is
      never averaged). */
  lemma AsWrittenSixthSecondOverflows()
    ensures AsWrittenTicks(Cursors(0, 0), 5) == Cursors(5, 0)
    ensures AsWrittenTick(Cursors(5, 0)) == Tick(Cursors(0, 1), AVGSIZE, Some(0))
  {
  }

  /** Under the guards as written a window of avgbuf takes six sampled seconds. */
  lemma AsWrittenSixTicks(c: Cursors, n: nat, b: int)
    requires 0 <= b < BUFSIZE && AsWrittenTicks(c, n) == Cursors(0, b)
    ensures AsWrittenTicks(c, n + 6) == Cursors(0, b + 1)
  {
    assert AsWrittenTicks(c, n + 1) == Cursors(1, b);
    assert AsWrittenTicks(c, n + 2) == Cursors(2, b);
    assert AsWrittenTicks(c, n + 3) == Cursors(3, b);
    assert AsWrittenTicks(c, n + 4) == Cursors(4, b);
    assert AsWrittenTicks(c, n + 5) == Cursors(5, b);
  }

  lemma {:induction false} AsWrittenWindows(k: nat)
    requires k <= BUFSIZE
    ensures AsWrittenTicks(Cursors(0, 0), 6 * k) == Cursors(0, k)
  {
    if k > 0 {
      AsWrittenWindows(k - 1);
      AsWrittenSixTicks(Cursors(0, 0), 6 * (k - 1), k - 1);
    }
  }

  /** After 144 sampled seconds bvgptr is 24, and the 150th sampled second pushes a
      speed into bvgbuf[24], one past the 24-slot array, before the speed window closes. */
  lemma AsWrittenSpeedBufferOverflows()
    ensures AsWrittenTicks(Cursors(0, 0), 6 * BUFSIZE) == Cursors(0, BUFSIZE)
    ensures AsWrittenTicks(Cursors(0, 0), 6 * BUFSIZE + 5) == Cursors(5, BUFSIZE)
    ensures AsWrittenTick(Cursors(5, BUFSIZE)) == Tick(Cursors(0, 0), AVGSIZE, Some(BUFSIZE))
  {
    AsWrittenWindows(BUFSIZE);
    var c := Cursors(0, 0);
    assert AsWrittenTicks(c, 6 * BUFSIZE + 1) == Cursors(1, BUFSIZE);
    assert AsWrittenTicks(c, 6 * BUFSIZE + 2) == Cursors(2, BUFSIZE);
    assert AsWrittenTicks(c, 6 * BUFSIZE + 3) == Cursors(3, BUFSIZE);
    assert AsWrittenTicks(c, 6 * BUFSIZE + 4) == Cursors(4, BUFSIZE);
  }
}
