/** The supervisor in main.c: the signal handler that sets the `kicked` flag, the
    heartbeat loop that blinks pin 11 while it waits for the flag, the decision taken
    once the four threads have been joined, and the test of the command line that
    chooses between the foreground and a daemon.  Starting and joining the threads is
    abstract: a round of the supervisor starts them, waits, and joins them. */
module Supervisor {
  import opened CLib

  /** Linux signal numbers. */
  const SIGHUP := 1
  const SIGINT := 2
  const SIGTERM := 15
  const SIGPWR := 30

  /** Ticks of 50 ms in one blink of the heartbeat LED, and the ticks it is lit. */
  const PERIOD := 20
  const LIT := 10

  /** sig_handler (main.c:50-69): the value of `kicked` after `signo` arrives when it
      was `kicked` before: a hangup asks for a restart (1), an interrupt or a
      termination for an exit (2); any other signal, the power signal included,
      leaves it as it was. */
  function Kicked(signo: int, kicked: int): (k: int)
    ensures signo == SIGHUP ==> k == 1
    ensures signo == SIGINT || signo == SIGTERM ==> k == 2
    ensures signo != SIGHUP && signo != SIGINT && signo != SIGTERM ==> k == kicked
    ensures kicked != 0 ==> k != 0
    ensures 0 <= kicked <= 2 ==> 0 <= k <= 2
  {
    match signo
      case 1 => 1
      case 2 => 2
      case 15 => 2
      case _ => kicked
  }

  /** The signals that change `kicked`. */
  predicate Effective(signo: int)
  {
    signo == SIGHUP || signo == SIGINT || signo == SIGTERM
  }

  /** `kicked` after `signals` arrive in order, starting from `kicked`; a 0 stands for a
      tick in which no signal arrived. */
  function After(kicked: int, signals: seq<int>): int
  {
    if signals == [] then kicked
    else Kicked(signals[|signals| - 1], After(kicked, signals[..|signals| - 1]))
  }

  /** Only main clears the flag: signals keep it within 0..2, and once set it stays
      set whatever else arrives. */
  lemma {:induction false} FlagStaysSet(kicked: int, signals: seq<int>)
    requires 0 <= kicked <= 2
    ensures 0 <= After(kicked, signals) <= 2
    ensures kicked != 0 ==> After(kicked, signals) != 0
    decreases |signals|
  {
    if signals != [] {
      FlagStaysSet(kicked, signals[..|signals| - 1]);
    }
  }

  /** The last signal that changes the flag decides it; without one the flag keeps its
      value. */
  lemma {:induction false} LastSignalWins(kicked: int, signals: seq<int>, j: int)
    requires 0 <= j < |signals| && Effective(signals[j])
    requires forall m :: j < m < |signals| ==> !Effective(signals[m])
    ensures After(kicked, signals) == Kicked(signals[j], kicked)
    decreases |signals|
  {
    var last := |signals| - 1;
    if j < last {
      var front := signals[..last];
      assert front[j] == signals[j];
      assert forall m :: j < m < |front| ==> front[m] == signals[m];
      LastSignalWins(kicked, front, j);
    }
  }

  lemma {:induction false} NoSignalKeepsFlag(kicked: int, signals: seq<int>)
    requires forall m :: 0 <= m < |signals| ==> !Effective(signals[m])
    ensures After(kicked, signals) == kicked
    decreases |signals|
  {
    if signals != [] {
      var front := signals[..|signals| - 1];
      assert forall m :: 0 <= m < |front| ==> front[m] == signals[m];
      NoSignalKeepsFlag(kicked, front);
    }
  }

  /** The flag reaches 2 only from 2 or through an interrupt or a termination. */
  lemma {:induction false} ExitNeedsStopSignal(kicked: int, signals: seq<int>)
    requires After(kicked, signals) == 2
    ensures kicked == 2 || exists m :: 0 <= m < |signals| && (signals[m] == SIGINT || signals[m] == SIGTERM)
    decreases |signals|
  {
    if signals != [] {
      var last := |signals| - 1;
      var front := signals[..last];
      if signals[last] != SIGINT && signals[last] != SIGTERM {
        ExitNeedsStopSignal(kicked, front);
        if kicked != 2 {
          var m :| 0 <= m < |front| && (front[m] == SIGINT || front[m] == SIGTERM);
          assert signals[m] == front[m];
        }
      }
    }
  }

  /** The level of the heartbeat pin after tick `t` of a wait: lit for the first 10
      ticks of every 20. */
  function Level(t: nat): int
  {
    if t % PERIOD < LIT then 1 else 0
  }

  /** The number of lit ticks among the `n` ticks from `t`. */
  function LitTicks(t: nat, n: nat): nat
  {
    if n == 0 then 0 else LitTicks(t, n - 1) + Level(t + n - 1)
  }

  /** The blink repeats every 20 ticks (one second), and any 20 consecutive ticks hold
      exactly 10 lit ones. */
  lemma HeartbeatPeriod(t: nat)
    ensures Level(t + PERIOD) == Level(t)
    ensures Level(t) == 1 <==> t % PERIOD < LIT
    ensures Level(t) == 0 <==> LIT <= t % PERIOD
    ensures LitTicks(t, PERIOD) == LIT
  {
    LevelRepeats(t);
    DutyCycle(t);
  }

  lemma LevelRepeats(t: nat)
    ensures Level(t + PERIOD) == Level(t)
  {
    assert (t + PERIOD) % PERIOD == t % PERIOD;
  }

  /** Sliding a window of `n` ticks one tick on trades the level of its first tick for
      the level of the tick after it. */
  lemma {:induction false} SlideWindow(t: nat, n: nat)
    ensures LitTicks(t + 1, n) + Level(t) == LitTicks(t, n) + Level(t + n)
    decreases n
  {
    if n > 0 {
      SlideWindow(t, n - 1);
    }
  }

  /** The first `n` ticks of a wait hold `n` lit ones up to 10, and 10 after that. */
  lemma {:induction false} FirstPeriod(n: nat)
    requires n <= PERIOD
    ensures LitTicks(0, n) == if n < LIT then n else LIT
    decreases n
  {
    if n > 0 {
      FirstPeriod(n - 1);
    }
  }

  lemma {:induction false} DutyCycle(t: nat)
    ensures LitTicks(t, PERIOD) == LIT
    decreases t
  {
    if t == 0 {
      FirstPeriod(PERIOD);
    } else {
      DutyCycle(t - 1);
      SlideWindow(t - 1, PERIOD);
      LevelRepeats(t - 1);
    }
  }

  /** The counter `i` of the wait at the start of tick `t`. */
  function Counter(t: nat): int
  {
    (PERIOD - t % PERIOD) % PERIOD
  }

  /** The counter `i` of the wait before tick `t`: it is 0 exactly at the start of a
      blink, when the pin goes high, and 10 half way through, when it goes low; the
      pin keeps its level in every other tick. */
  lemma Blink(t: nat, i: int)
    requires i == Counter(t)
    ensures i == 0 <==> t % PERIOD == 0
    ensures i == LIT <==> t % PERIOD == LIT
    ensures (if i == 0 then PERIOD else i) - 1 == Counter(t + 1)
    ensures i == 0 ==> Level(t) == 1
    ensures i == LIT ==> Level(t) == 0
    ensures i != 0 && i != LIT ==> t > 0 && Level(t) == Level(t - 1)
  {
  }

  /** The number of ticks the wait takes when `signals` arrive in its ticks and the
      flag was `kicked` before it: the first tick after which the flag is set, or every
      tick when it never is.  Ticks before `t` have already left the flag at 0. */
  function WaitFrom(kicked: int, signals: seq<int>, t: nat): (n: nat)
    requires 1 <= t <= |signals|
    ensures t <= n <= |signals|
    decreases |signals| - t
  {
    if After(kicked, signals[..t]) != 0 || t == |signals| then t else WaitFrom(kicked, signals, t + 1)
  }

  function Ticks(kicked: int, signals: seq<int>): (n: nat)
    requires signals != []
    ensures 1 <= n <= |signals|
  {
    WaitFrom(kicked, signals, 1)
  }

  /** The wait takes at least one tick, stops after the first tick that finds the flag
      set, and before that every tick found it clear. */
  lemma {:induction false} WaitFromEnds(kicked: int, signals: seq<int>, t: nat)
    requires 1 <= t <= |signals|
    ensures var n := WaitFrom(kicked, signals, t);
      t <= n <= |signals| && (n < |signals| ==> After(kicked, signals[..n]) != 0) &&
      (After(kicked, signals[..t]) == 0 ==> forall u :: t <= u < n ==> After(kicked, signals[..u]) == 0)
    decreases |signals| - t
  {
    if After(kicked, signals[..t]) == 0 && t < |signals| {
      WaitFromEnds(kicked, signals, t + 1);
    }
  }

  lemma WaitEnds(kicked: int, signals: seq<int>)
    requires signals != []
    ensures var n := Ticks(kicked, signals);
      1 <= n <= |signals| && (n < |signals| ==> After(kicked, signals[..n]) != 0) &&
      forall u :: 1 <= u < n ==> After(kicked, signals[..u]) == 0
  {
    WaitFromEnds(kicked, signals, 1);
  }

  /** A flag already set before the wait ends it after its first tick. */
  lemma {:induction false} SetFlagEndsWait(kicked: int, signals: seq<int>)
    requires signals != [] && kicked != 0
    ensures Ticks(kicked, signals) == 1
  {
    assert signals[..1][..0] == [];
    assert After(kicked, signals[..1]) == Kicked(signals[0], kicked);
  }

  /** What a run of the supervisor did: how often it started the threads, whether it
      left its loop to exit, and the flag at the end. */
  datatype Supervised = Supervised(starts: nat, exited: bool, kicked: int)

  /** The supervisor over `rounds`, the signals that arrive in the ticks of each round's
      wait, starting with the flag at `kicked`: after each wait and the joins, a flag
      of 2 ends the loop and any other restarts the threads with the flag cleared.  A
      round whose signals run out before the flag is set is still waiting at the end. */
  function Supervision(kicked: int, rounds: seq<seq<int>>): Supervised
    requires forall r :: 0 <= r < |rounds| ==> rounds[r] != []
    decreases |rounds|
  {
    if rounds == [] then Supervised(0, false, kicked)
    else
      var e := After(kicked, rounds[0][..Ticks(kicked, rounds[0])]);
      if e == 2 then Supervised(1, true, 2)
      else if e == 0 then Supervised(1, false, 0)
      else
        var rest := Supervision(0, rounds[1..]);
        Supervised(rest.starts + 1, rest.exited, rest.kicked)
  }

  /** The supervisor exits only after an interrupt or a termination (or with the flag
      at 2 from the start). */
  lemma {:induction false} ExitOnlyOnStop(kicked: int, rounds: seq<seq<int>>)
    requires forall r :: 0 <= r < |rounds| ==> rounds[r] != []
    requires Supervision(kicked, rounds).exited
    ensures kicked == 2 ||
      exists r, m :: 0 <= r < |rounds| && 0 <= m < |rounds[r]| && (rounds[r][m] == SIGINT || rounds[r][m] == SIGTERM)
    decreases |rounds|
  {
    var sigs := rounds[0][..Ticks(kicked, rounds[0])];
    var e := After(kicked, sigs);
    if e == 2 {
      ExitNeedsStopSignal(kicked, sigs);
      if kicked != 2 {
        var m :| 0 <= m < |sigs| && (sigs[m] == SIGINT || sigs[m] == SIGTERM);
        assert rounds[0][m] == sigs[m];
      }
    } else {
      var rest := rounds[1..];
      ExitOnlyOnStop(0, rest);
      var r, m :| 0 <= r < |rest| && 0 <= m < |rest[r]| && (rest[r][m] == SIGINT || rest[r][m] == SIGTERM);
      assert rounds[r + 1] == rest[r];
    }
  }

  /** Each round that ends on a hangup restarts the threads: a supervisor whose every
      round ends that way starts them once per round and never exits. */
  lemma {:induction false} HangupsRestart(rounds: seq<seq<int>>)
    requires forall r :: 0 <= r < |rounds| ==> rounds[r] != [] && rounds[r][|rounds[r]| - 1] == SIGHUP
    requires forall r, m :: 0 <= r < |rounds| && 0 <= m < |rounds[r]| - 1 ==> !Effective(rounds[r][m])
    ensures Supervision(0, rounds) == Supervised(|rounds|, false, 0)
    decreases |rounds|
  {
    if rounds != [] {
      var sigs := rounds[0];
      var last := |sigs| - 1;
      forall u | 1 <= u <= last ensures After(0, sigs[..u]) == 0 {
        assert forall m :: 0 <= m < u ==> sigs[..u][m] == sigs[m];
        NoSignalKeepsFlag(0, sigs[..u]);
      }
      LastSignalWins(0, sigs, last);
      assert sigs[..|sigs|] == sigs;
      WaitEnds(0, sigs);
      assert Ticks(0, sigs) == |sigs|;
      var rest := rounds[1..];
      assert forall r :: 0 <= r < |rest| ==> rest[r] == rounds[r + 1];
      HangupsRestart(rest);
    }
  }

  /** main's command-line test (main.c:82): the program stays in the foreground only
      when it has an argument whose first character is 'f'; strncmp(argv[1], "f", 1)
      compares that first character, which is the terminating NUL for an empty
      argument.  `argv` holds the program name and the arguments. */
  function Foreground(argv: seq<seq<char>>): (r: bool)
    requires |argv| >= 1
    ensures r <==> |argv| >= 2 && Strncpy(argv[1], 1) == "f"
  {
    assert |argv| >= 2 ==> Strncpy(argv[1], 1)[0] == if CString(argv[1]) != [] then argv[1][0] else NUL;
    |argv| != 1 && CString(argv[1]) != [] && argv[1][0] == 'f'
  }

  lemma ForegroundExamples()
    ensures Foreground(["weatherstation", "f"])
    ensures Foreground(["weatherstation", "foreground"])
    ensures !Foreground(["weatherstation"])
    ensures !Foreground(["weatherstation", ""])
    ensures !Foreground(["weatherstation", "-f"])
  {
    assert CString("f") == "f";
    assert CString("foreground")[0] == 'f';
    assert CString("-f")[0] == '-';
  }

  /** The state main keeps across its loop: the flag the signal handler sets, and the
      level of the heartbeat pin. */
  class Station {
    var kicked: int
    var pin: int

    /** The flag starts clear, as a zero-initialised global. */
    constructor()
      ensures kicked == 0
    {
      kicked := 0;
      pin := 0;
    }

    /** sig_handler (main.c:50-69). */
    method SigHandler(signo: int)
      modifies this
      ensures kicked == Kicked(signo, old(kicked)) && pin == old(pin)
    {
      if signo == SIGHUP {
        kicked := 1;
      } else if signo == SIGINT || signo == SIGTERM {
        kicked := 2;
      }
    }

    /** The wait of main.c:153-167: each tick of 50 ms blinks the LED on the 20-tick
        counter `i` and lets the signal of that tick (0 for none) reach the handler;
        the do-while loop ends after the first tick that finds the flag set, or when
        the signals run out.  It leaves the pin at the level of its last tick, and
        `levels` holds the level after each tick. */
    method WaitForKick(signals: seq<int>) returns (ticks: nat, levels: seq<int>)
      requires signals != []
      modifies this
      ensures ticks == Ticks(old(kicked), signals)
      ensures kicked == After(old(kicked), signals[..ticks])
      ensures |levels| == ticks && forall t :: 0 <= t < ticks ==> levels[t] == Level(t)
      ensures pin == Level(ticks - 1)
    {
      ghost var k0 := kicked;
      var i := 0;
      ticks, levels := 0, [];
      var waiting := true;
      while waiting
        invariant 0 <= ticks <= |signals|
        invariant waiting ==> ticks < |signals| && Ticks(k0, signals) == WaitFrom(k0, signals, ticks + 1)
        invariant !waiting ==> ticks == Ticks(k0, signals)
        invariant kicked == After(k0, signals[..ticks])
        invariant i == Counter(ticks)
        invariant |levels| == ticks && forall t :: 0 <= t < ticks ==> levels[t] == Level(t)
        invariant ticks > 0 ==> pin == Level(ticks - 1)
        decreases |signals| - ticks
      {
        Blink(ticks, i);
        if i == 0 {
          pin := 1;
          i := PERIOD;
        } else if i == LIT {
          pin := 0;
        }
        SigHandler(signals[ticks]);
        i := i - 1;
        assert signals[..ticks + 1][..ticks] == signals[..ticks];
        levels := levels + [pin];
        ticks := ticks + 1;
        waiting := kicked == 0 && ticks < |signals|;
      }
    }

    /** main's loop (main.c:139-180): each round starts the threads, waits for the
        flag, joins the threads, and then exits on 2 or clears the flag and starts
        again.  It stops early, still waiting, when a round's signals run out. */
    method Supervise(rounds: seq<seq<int>>) returns (starts: nat, exited: bool)
      requires forall r :: 0 <= r < |rounds| ==> rounds[r] != []
      modifies this
      ensures Supervision(old(kicked), rounds) == Supervised(starts, exited, kicked)
    {
      ghost var k0 := kicked;
      starts, exited := 0, false;
      var r := 0;
      var waiting := false;
      while r < |rounds| && !exited && !waiting
        invariant 0 <= r <= |rounds|
        invariant r == 0 ==> kicked == k0 && starts == 0 && !exited && !waiting
        invariant 0 < r && !exited && !waiting ==> (kicked == 0 &&
          Supervision(k0, rounds) == var rest := Supervision(0, rounds[r..]);
            Supervised(rest.starts + starts, rest.exited, rest.kicked))
        invariant exited || waiting ==> Supervision(k0, rounds) == Supervised(starts, exited, kicked)
        decreases |rounds| - r
      {
        ghost var k := kicked;
        starts := starts + 1;
        var ticks, levels := WaitForKick(rounds[r]);
        RoundStep(k0, rounds, r, k, starts - 1);
        if kicked == 2 {
          exited := true;
        } else if kicked == 0 {
          waiting := true;
        } else {
          kicked := 0;
        }
        r := r + 1;
      }
      if !exited && !waiting {
        assert rounds[r..] == [];
      }
    }
  }

  /** One round of Supervision: the round at `r`, entered with flag `k` after `done`
      starts, decides the rest of the run. */
  lemma RoundStep(k0: int, rounds: seq<seq<int>>, r: int, k: int, done: nat)
    requires forall q :: 0 <= q < |rounds| ==> rounds[q] != []
    requires 0 <= r < |rounds|
    requires r == 0 ==> k == k0 && done == 0
    requires 0 < r ==> (k == 0 &&
      Supervision(k0, rounds) == var rest := Supervision(0, rounds[r..]);
        Supervised(rest.starts + done, rest.exited, rest.kicked))
    ensures var e := After(k, rounds[r][..Ticks(k, rounds[r])]);
      (e == 2 ==> Supervision(k0, rounds) == Supervised(done + 1, true, 2)) &&
      (e == 0 ==> Supervision(k0, rounds) == Supervised(done + 1, false, 0)) &&
      (e != 2 && e != 0 ==>
        Supervision(k0, rounds) == var rest := Supervision(0, rounds[r + 1..]);
          Supervised(rest.starts + done + 1, rest.exited, rest.kicked))
  {
    assert rounds[r..][0] == rounds[r];
    assert rounds[r..][1..] == rounds[r + 1..];
  }
}
