/** The 1-wire temperature probe (w1thread.c).  The probe's device file holds two
    lines: the first ends in "YES" when the reading's check passed, the second holds
    the temperature as "t=" and millidegrees Celsius.  The polling loop averages the
    valid readings and publishes the average once a minute; it stops for good when
    the device file cannot be opened. */
module OneWire {
  import opened CLib
  import opened Common

  const BADTEMP: real := -999.0

  /** char buff[80]: the line buffer of getTemperature. */
  const W1_BUFF := 80

  /** The column where the first line must hold "YES". */
  const YES_COLUMN := 36

  /** Seconds after the last publication before the next one, exclusive. */
  const PUBLISH_PERIOD := 60

  /** getTemperature's result code and the value it stores. */
  datatype Reading = Reading(code: int, value: real)

  /** Millidegrees Celsius to degrees Fahrenheit. */
  function Fahrenheit(milli: int): real
  {
    (milli as real / 1000.0) * 1.8 + 32.0
  }

  /** getTemperature(id, &value) (w1thread.c:38-82), with `file` the contents of the
      probe's w1_slave file, or None when it cannot be opened.  Code 3: no id; code 2:
      no device file; code 1: the first line does not read "YES" from column 36 on, or
      the second has no "t="; code 0: the value after "t=", in Fahrenheit.  Each line
      is read with read_line into the 80-character buffer. */
  function GetTemperature(id: seq<char>, file: Option<seq<char>>): (r: Reading)
    ensures r.code in {0, 1, 2, 3}
    ensures r.code != 0 ==> r.value == BADTEMP
  {
    if CString(id) == [] then Reading(3, BADTEMP)
    else if file.None? then Reading(2, BADTEMP)
    else if !YesLine(file.value) then Reading(1, BADTEMP)
    else ParseT(SecondLine(file.value))
  }

  /** The first line, as read into the buffer, holds exactly "YES" from column 36 on
      (strcmp(&buff[36], "YES") == 0). */
  predicate YesLine(text: seq<char>)
  {
    CString(Padded(LineOf(text, W1_BUFF).line, W1_BUFF)[YES_COLUMN..]) == "YES"
  }

  /** The C string the buffer holds after the second read_line. */
  function SecondLine(text: seq<char>): seq<char>
  {
    CString(Padded(LineOf(text[LineOf(text, W1_BUFF).consumed..], W1_BUFF).line, W1_BUFF))
  }

  /** The temperature after the first "t=" of the second line (w1thread.c:69-81). */
  function ParseT(line: seq<char>): Reading
  {
    match Find(line, "t=")
      case None => Reading(1, BADTEMP)
      case Some(p) => Reading(0, Fahrenheit(Atof(line[p + 2..])))
  }

  /** Text with no line end and no NUL. */
  predicate Plain(s: seq<char>)
  {
    '\n' !in s && EOF_BYTE !in s && NUL !in s
  }

  /** The decimal text of a number of millidegrees, with a '-' when it is negative. */
  function MilliText(milli: int): (r: seq<char>)
    ensures Plain(r)
  {
    var d := if milli < 0 then ['-'] + Decimal(-milli) else Decimal(milli);
    assert forall k :: 0 <= k < |d| ==> d[k] == '-' || IsDigit(d[k]);
    d
  }

  /** The contents of a w1_slave file whose check passed: a first line of 36
      characters and then "YES", and a second line of `data` followed by "t=" and the
      temperature. */
  function SlaveText(crc: seq<char>, data: seq<char>, milli: int, rest: seq<char>): seq<char>
  {
    crc + "YES" + "\n" + data + "t=" + MilliText(milli) + "\n" + rest
  }

  /** A reading decodes to its temperature: whatever the first 36 characters and the
      text before "t=" are (as long as they hold no line end, no NUL and no 't', and
      the second line fits the buffer), getTemperature gives code 0 and the
      temperature in Fahrenheit. */
  lemma GetTemperatureDecodes(id: seq<char>, crc: seq<char>, data: seq<char>, milli: int, rest: seq<char>)
    requires CString(id) != []
    requires |crc| == YES_COLUMN && Plain(crc) && Plain(data) && 't' !in data
    requires |data| + 2 + |MilliText(milli)| < W1_BUFF
    ensures GetTemperature(id, Some(SlaveText(crc, data, milli, rest))) == Reading(0, Fahrenheit(milli))
  {
    SlaveLines(crc, data, milli, rest);
    ParseTOf(data, milli);
  }

  /** The two lines of SlaveText as getTemperature reads them. */
  lemma SlaveLines(crc: seq<char>, data: seq<char>, milli: int, rest: seq<char>)
    requires |crc| == YES_COLUMN && Plain(crc) && Plain(data)
    requires |data| + 2 + |MilliText(milli)| < W1_BUFF
    ensures YesLine(SlaveText(crc, data, milli, rest))
    ensures SecondLine(SlaveText(crc, data, milli, rest)) == data + "t=" + MilliText(milli)
  {
    var line1 := crc + "YES";
    var line2 := data + "t=" + MilliText(milli);
    SlaveParts(crc, data, milli, rest);
    FirstLineYes(line1, line2 + "\n" + rest);
    SecondLineRead(line1, line2, rest);
  }

  /** SlaveText is two plain lines, the first ending in "YES" at column 36. */
  lemma SlaveParts(crc: seq<char>, data: seq<char>, milli: int, rest: seq<char>)
    requires |crc| == YES_COLUMN && Plain(crc) && Plain(data)
    ensures var line1 := crc + "YES";
      |line1| == YES_COLUMN + 3 && line1[YES_COLUMN..] == "YES" && Plain(line1)
    ensures Plain(data + "t=" + MilliText(milli))
    ensures SlaveText(crc, data, milli, rest) == (crc + "YES") + ['\n'] + ((data + "t=" + MilliText(milli)) + "\n" + rest)
  {
    PlainConcat(crc, "YES");
    PlainConcat(data, "t=");
    PlainConcat(data + "t=", MilliText(milli));
    assert (crc + "YES")[YES_COLUMN..] == "YES";
  }

  lemma PlainConcat(a: seq<char>, b: seq<char>)
    requires Plain(a) && Plain(b)
    ensures Plain(a + b)
  {
  }

  lemma FirstLineYes(line1: seq<char>, tail: seq<char>)
    requires |line1| == YES_COLUMN + 3 && line1[YES_COLUMN..] == "YES" && Plain(line1)
    ensures YesLine(line1 + ['\n'] + tail)
  {
    LineOfWholeLine(line1, tail, W1_BUFF);
    PaddedTail(line1, YES_COLUMN, W1_BUFF);
  }

  lemma SecondLineRead(line1: seq<char>, line2: seq<char>, rest: seq<char>)
    requires |line1| < W1_BUFF && Plain(line1) && |line2| < W1_BUFF && Plain(line2)
    ensures SecondLine(line1 + ['\n'] + (line2 + "\n" + rest)) == line2
  {
    var tail := line2 + "\n" + rest;
    var text := line1 + ['\n'] + tail;
    LineOfWholeLine(line1, tail, W1_BUFF);
    assert text[LineOf(text, W1_BUFF).consumed..] == tail;
    assert tail == line2 + ['\n'] + rest;
    LineOfWholeLine(line2, rest, W1_BUFF);
    PaddedTail(line2, 0, W1_BUFF);
    assert line2[0..] == line2;
  }

  lemma ParseTOf(data: seq<char>, milli: int)
    requires 't' !in data
    ensures ParseT(data + "t=" + MilliText(milli)) == Reading(0, Fahrenheit(milli))
  {
    var line := data + "t=" + MilliText(milli);
    FindAfter(data, MilliText(milli));
    assert line[|data| + 2..] == MilliText(milli);
    AtofOfMilliText(milli);
  }

  /** A line padded with NULs, read as a C string from column `k`, is the rest of the
      line when that holds no NUL. */
  lemma PaddedTail(line: seq<char>, k: nat, mx: int)
    requires k <= |line| <= mx && NUL !in line[k..]
    ensures CString(Padded(line, mx)[k..]) == line[k..]
  {
    assert Padded(line, mx)[k..] == line[k..] + Zeros(mx - |line|);
    CStringPadded(line[k..], mx - |line|);
    NoNulCString(line[k..]);
  }

  lemma NoNulCString(s: seq<char>)
    requires NUL !in s
    ensures CString(s) == s
  {
  }

  /** strstr finds "t=" right after text without a 't'. */
  lemma FindAfter(data: seq<char>, digits: seq<char>)
    requires 't' !in data
    ensures Find(data + "t=" + digits, "t=") == Some(|data|)
  {
    var s := data + "t=" + digits;
    assert OccursAt(s, "t=", |data|) by {
      assert s[|data|..|data| + 2] == "t=";
    }
    forall k | 0 <= k < |data| ensures !OccursAt(s, "t=", k) {
      assert s[k] == data[k];
    }
  }

  lemma AtofOfMilliText(milli: int)
    ensures Atof(MilliText(milli)) == milli
  {
    if milli < 0 {
      AtofOfDecimal(-milli);
    } else {
      AtofOfDecimal(milli);
    }
  }

  /** A first line that passed its check and a second line "t=23562" read as 23.562
      degrees Celsius, 74.4116 degrees Fahrenheit. */
  lemma ProbeExample(id: seq<char>, crc: seq<char>, rest: seq<char>)
    requires CString(id) != [] && |crc| == YES_COLUMN && Plain(crc)
    ensures GetTemperature(id, Some(SlaveText(crc, "", 23562, rest))) == Reading(0, 74.4116)
  {
    assert Decimal(23) == "23" by {
      assert Decimal(2) == "2";
    }
    assert Decimal(2356) == "2356" by {
      assert Decimal(235) == "235";
    }
    assert MilliText(23562) == "23562";
    GetTemperatureDecodes(id, crc, "", 23562, rest);
  }

  /** Without an id there is nothing to read (code 3); without a device file, code 2. */
  lemma MissingInputs(id: seq<char>, file: Option<seq<char>>)
    ensures CString(id) == [] ==> GetTemperature(id, file) == Reading(3, BADTEMP)
    ensures CString(id) != [] && file.None? ==> GetTemperature(id, file) == Reading(2, BADTEMP)
  {
  }

  /** A first line that does not read "YES" from column 36 on gives code 1, whatever
      follows; so does an empty file. */
  lemma NoYesIsInvalid(id: seq<char>, text: seq<char>)
    requires CString(id) != [] && !YesLine(text)
    ensures GetTemperature(id, Some(text)) == Reading(1, BADTEMP)
  {
  }

  lemma EmptyFileIsInvalid(id: seq<char>)
    requires CString(id) != []
    ensures GetTemperature(id, Some([])) == Reading(1, BADTEMP)
  {
    assert Padded([], W1_BUFF)[YES_COLUMN..] == Zeros(W1_BUFF - YES_COLUMN);
    assert CString(Zeros(W1_BUFF - YES_COLUMN)) == [];
  }

  /** A first line that passed its check and a second line without "t=" gives code 1
      (w1thread.c:69-76), however long the second line is. */
  lemma NoTIsInvalid(id: seq<char>, crc: seq<char>, data: seq<char>, rest: seq<char>)
    requires CString(id) != [] && |crc| == YES_COLUMN && Plain(crc) && Plain(data) && 't' !in data
    ensures GetTemperature(id, Some(crc + "YES" + "\n" + data + "\n" + rest)) == Reading(1, BADTEMP)
  {
    var line1 := crc + "YES";
    var tail := data + "\n" + rest;
    var text := crc + "YES" + "\n" + data + "\n" + rest;
    PlainConcat(crc, "YES");
    assert line1[YES_COLUMN..] == "YES";
    assert text == line1 + ['\n'] + tail;
    FirstLineYes(line1, tail);
    LineOfWholeLine(line1, tail, W1_BUFF);
    assert text[LineOf(text, W1_BUFF).consumed..] == tail;
    NoTLine(data, rest);
    NoTNoFind(SecondLine(text));
  }

  /** The second read_line of a line without 't' holds no 't'. */
  lemma NoTLine(data: seq<char>, rest: seq<char>)
    requires Plain(data) && 't' !in data
    ensures 't' !in CString(Padded(LineOf(data + "\n" + rest, W1_BUFF).line, W1_BUFF))
  {
    var tail := data + "\n" + rest;
    var l2 := LineOf(tail, W1_BUFF).line;
    assert tail[|data|] == '\n' && '\n' !in l2 && l2 == tail[..|l2|];
    assert |l2| <= |data|;
    assert 't' !in l2 && NUL !in l2 by {
      forall k | 0 <= k < |l2| ensures l2[k] != 't' && l2[k] != NUL {
        assert l2[k] == data[k];
      }
    }
    PaddedTail(l2, 0, W1_BUFF);
    assert l2[0..] == l2;
  }

  /** strstr finds no "t=" in a line without 't'. */
  lemma NoTNoFind(line: seq<char>)
    requires 't' !in line
    ensures ParseT(line) == Reading(1, BADTEMP)
  {
    forall k | 0 <= k ensures !OccursAt(line, "t=", k) {
      if k + 2 <= |line| {
        assert line[k..k + 2][0] == line[k] != 't';
      }
    }
  }

  // ---------------------------------------------------------------------------
  // The polling loop

  /** The loop's sum of valid readings, their number, its clock, and the published
      temperature tempA. */
  datatype W1State = W1State(tot: real, samples: nat, lastUpdate: int, tempA: real)

  /** One pass of the loop: the device file's contents (None when it cannot be
      opened), the time read after the reading, and `kicked` at the bottom. */
  datatype Poll = Poll(file: Option<seq<char>>, now: int, kicked: int)

  /** The state after some passes, what they stored, and whether the loop left
      because the device was gone. */
  datatype Outcome = Outcome(state: W1State, records: seq<Record>, gone: bool)

  /** The loop's state at start (w1thread.c:89-91): no samples and a clock at 0, so
      the first valid reading more than a minute after time 0 publishes at once. */
  function Init(tempA: real): (s: W1State)
    ensures s.tot == 0.0 && s.samples == 0 && s.lastUpdate == 0 && s.tempA == tempA
  {
    W1State(0.0, 0, 0, tempA)
  }

  /** One pass (w1thread.c:105-128): code 2 leaves the loop at once; only code 0
      adds to the sum; more than a minute after the last publication, with at least
      one sample, the average is published and stored and the sum restarts. */
  function Step(id: seq<char>, s: W1State, p: Poll): (o: Outcome)
  {
    Absorb(s, GetTemperature(id, p.file), p.now)
  }

  /** The pass once getTemperature has given `r` and the clock reads `now`. */
  function Absorb(s: W1State, r: Reading, now: int): Outcome
  {
    if r.code == 2 then Outcome(s, [], true)
    else
      var t := if r.code == 0 then s.(tot := s.tot + r.value, samples := s.samples + 1) else s;
      if now - t.lastUpdate > PUBLISH_PERIOD && t.samples > 0 then
        var avg := t.tot / t.samples as real;
        Outcome(W1State(0.0, 0, now, avg), [Record("tempA", avg)], false)
      else Outcome(t, [], false)
  }

  /** The passes over `polls`, up to and including the first one that finds the device
      gone or `kicked` set (or until the polls run out). */
  function Run(id: seq<char>, s: W1State, polls: seq<Poll>): (o: Outcome)
    decreases |polls|
  {
    if polls == [] then Outcome(s, [], false)
    else
      var o := Step(id, s, polls[0]);
      if o.gone || polls[0].kicked != 0 then o
      else
        var rest := Run(id, o.state, polls[1..]);
        Outcome(rest.state, o.records + rest.records, rest.gone)
  }

  /** w1thread (w1thread.c:86-137): with no probe id it returns at once; otherwise it
      runs the do-while loop until the device is gone or a pass finds `kicked` set,
      leaving the published temperature and the records Run describes. */
  method W1Thread(id: seq<char>, tempA0: real, polls: seq<Poll>) returns (tempA: real, stored: seq<Record>)
    ensures CString(id) == [] ==> tempA == tempA0 && stored == []
    ensures CString(id) != [] ==> var o := Run(id, Init(tempA0), polls);
      tempA == o.state.tempA && stored == o.records
  {
    tempA, stored := tempA0, [];
    if |CString(id)| < 1 {
      return;
    }
    ghost var init := Init(tempA0);
    var lastUpdate := 0;
    var tot := 0.0;
    var samples: nat := 0;
    var i := 0;
    var stop := false;
    while i < |polls| && !stop
      invariant 0 <= i <= |polls|
      invariant RunFrom(id, init, polls, i, W1State(tot, samples, lastUpdate, tempA), stored, stop)
    {
      ghost var cur := W1State(tot, samples, lastUpdate, tempA);
      var p := polls[i];
      var err := GetTemperature(id, p.file);
      StepAbsorbs(id, cur, p);
      if err.code == 2 {
        RunFromPass(id, init, polls, i, cur, stored, Outcome(cur, [], true));
        assert stored + [] == stored;
        i, stop := i + 1, true;
        break;
      }
      var records;
      tot, samples, lastUpdate, tempA, records := Pass(tot, samples, lastUpdate, tempA, err, p.now);
      RunFromPass(id, init, polls, i, cur, stored, Outcome(W1State(tot, samples, lastUpdate, tempA), records, false));
      stored := stored + records;
      i := i + 1;
      stop := p.kicked != 0;
    }
    if !stop {
      RunFromEnd(id, init, polls, W1State(tot, samples, lastUpdate, tempA), stored);
    }
  }

  /** The body of one pass that found the device (w1thread.c:110-128): the sum and the
      count take a valid reading, and more than a minute after the last publication,
      with at least one sample, the average is published and the sum restarts. */
  method Pass(tot: real, samples: nat, lastUpdate: int, tempA: real, err: Reading, now: int)
    returns (tot': real, samples': nat, lastUpdate': int, tempA': real, records: seq<Record>)
    requires err.code != 2
    ensures Absorb(W1State(tot, samples, lastUpdate, tempA), err, now) ==
      Outcome(W1State(tot', samples', lastUpdate', tempA'), records, false)
  {
    tot', samples', lastUpdate', tempA', records := tot, samples, lastUpdate, tempA, [];
    if err.code == 0 {
      tot' := tot' + err.value;
      samples' := samples' + 1;
    }
    if now - lastUpdate' > PUBLISH_PERIOD && samples' > 0 {
      tempA' := tot' / samples' as real;
      records := [Record("tempA", tempA')];
      lastUpdate' := now;
      tot', samples' := 0.0, 0;
    }
  }

  lemma StepAbsorbs(id: seq<char>, s: W1State, p: Poll)
    ensures Step(id, s, p) == Absorb(s, GetTemperature(id, p.file), p.now)
  {
  }

  /** Run from `init` over `polls` is what `i` passes have done (reaching `cur` and
      storing `stored`) followed by the rest of the run, or, once `stopped`, the passes
      done so far. */
  predicate RunFrom(id: seq<char>, init: W1State, polls: seq<Poll>, i: int, cur: W1State, stored: seq<Record>,
                    stopped: bool)
  {
    0 <= i <= |polls| &&
    var whole := Run(id, init, polls);
    if stopped then whole.state == cur && whole.records == stored
    else var rest := Run(id, cur, polls[i..]); whole.state == rest.state && whole.records == stored + rest.records
  }

  lemma RunFromPass(id: seq<char>, init: W1State, polls: seq<Poll>, i: int, cur: W1State, stored: seq<Record>,
                    o: Outcome)
    requires i < |polls| && RunFrom(id, init, polls, i, cur, stored, false)
    requires Step(id, cur, polls[i]) == o
    ensures RunFrom(id, init, polls, i + 1, o.state, stored + o.records, o.gone || polls[i].kicked != 0)
  {
    assert polls[i..][1..] == polls[i + 1..];
    if !o.gone && polls[i].kicked == 0 {
      var rest := Run(id, o.state, polls[i + 1..]);
      assert stored + (o.records + rest.records) == stored + o.records + rest.records;
    }
  }

  lemma RunFromEnd(id: seq<char>, init: W1State, polls: seq<Poll>, cur: W1State, stored: seq<Record>)
    requires RunFrom(id, init, polls, |polls|, cur, stored, false)
    ensures Run(id, init, polls).state == cur && Run(id, init, polls).records == stored
  {
    assert polls[|polls|..] == [];
    assert stored + [] == stored;
  }

  // ---------------------------------------------------------------------------
  // Properties of the polling loop

  /** The loop stops for good once the device is gone or a pass finds `kicked` set:
      polls after that change nothing. */
  lemma {:induction false} RunEnds(id: seq<char>, s: W1State, polls: seq<Poll>, later: seq<Poll>)
    requires Run(id, s, polls).gone || (polls != [] && polls[|polls| - 1].kicked != 0)
    ensures Run(id, s, polls + later) == Run(id, s, polls)
    decreases |polls|
  {
    var o := Step(id, s, polls[0]);
    assert (polls + later)[0] == polls[0];
    if !o.gone && polls[0].kicked == 0 {
      assert (polls + later)[1..] == polls[1..] + later;
      RunEnds(id, o.state, polls[1..], later);
    }
  }

  /** A pass that cannot open the device file leaves the state as it was, stores
      nothing and ends the loop. */
  lemma DeviceGone(id: seq<char>, s: W1State, p: Poll, later: seq<Poll>)
    requires CString(id) != [] && p.file.None?
    ensures Run(id, s, [p] + later) == Outcome(s, [], true)
  {
    assert Step(id, s, p) == Outcome(s, [], true);
  }

  /** A reading whose check failed is not counted: the pass either leaves the state
      as it was, or publishes the average of the samples already taken. */
  lemma InvalidReadingSkipped(s: W1State, r: Reading, now: int)
    requires r.code == 1
    ensures var o := Absorb(s, r, now);
      !o.gone &&
      (o.records == [] ==> o.state == s) &&
      (o.records != [] ==> s.samples > 0 && o.records == [Record("tempA", s.tot / s.samples as real)])
  {
  }

  /** A pass whose device file has no "t=" on its second line counts no sample: the
      state stays, or the average of the samples already taken is published. */
  lemma NoTPassSkipped(id: seq<char>, crc: seq<char>, data: seq<char>, rest: seq<char>, s: W1State, p: Poll)
    requires CString(id) != [] && |crc| == YES_COLUMN && Plain(crc) && Plain(data) && 't' !in data
    requires p.file == Some(crc + "YES" + "\n" + data + "\n" + rest)
    ensures var o := Step(id, s, p);
      !o.gone &&
      (o.records == [] ==> o.state == s) &&
      (o.records != [] ==> s.samples > 0 && o.records == [Record("tempA", s.tot / s.samples as real)])
  {
    NoTIsInvalid(id, crc, data, rest);
    InvalidReadingSkipped(s, Reading(1, BADTEMP), p.now);
  }

  /** Nothing is published before there is a valid sample. */
  lemma NoSampleNoPublication(s: W1State, r: Reading, now: int)
    requires s.samples == 0 && r.code != 0
    ensures Absorb(s, r, now).records == []
  {
  }

  /** With the clock starting at 0, the first valid reading more than a minute after
      time 0 is published at once, as it is. */
  lemma FirstValidPublishesAtOnce(tempA: real, v: real, now: int)
    requires now > PUBLISH_PERIOD
    ensures Absorb(Init(tempA), Reading(0, v), now) == Outcome(W1State(0.0, 0, now, v), [Record("tempA", v)], false)
  {
    assert (0.0 + v) / (1 as real) == v;
  }

  /** Every poll finds the device file. */
  predicate Present(polls: seq<Poll>)
  {
    forall k :: 0 <= k < |polls| ==> polls[k].file.Some?
  }

  /** The valid readings among the polls: their sum and their number. */
  function ValidSum(id: seq<char>, polls: seq<Poll>): real
  {
    if polls == [] then 0.0
    else
      var r := GetTemperature(id, polls[0].file);
      (if r.code == 0 then r.value else 0.0) + ValidSum(id, polls[1..])
  }

  function ValidCount(id: seq<char>, polls: seq<Poll>): nat
  {
    if polls == [] then 0
    else (if GetTemperature(id, polls[0].file).code == 0 then 1 else 0) + ValidCount(id, polls[1..])
  }

  /** Every pass but the last leaves `kicked` clear and comes within a minute of
      `lastUpdate`. */
  predicate WithinMinute(polls: seq<Poll>, lastUpdate: int)
  {
    forall k :: 0 <= k < |polls| - 1 ==> polls[k].kicked == 0 && polls[k].now - lastUpdate <= PUBLISH_PERIOD
  }

  /** The run ends by clearing the sums, restarting the minute at `now` and storing
      the mean `sum / n` as "tempA". */
  predicate PublishesMean(o: Outcome, sum: real, n: int, now: int)
  {
    n != 0 && o == Outcome(W1State(0.0, 0, now, sum / n as real), [Record("tempA", sum / n as real)], false)
  }

  /** Each publication is the average of the valid readings since the last one: from
      a sum `s.tot` of `s.samples` readings, passes that find the device and stay
      within the minute, and a last one past it, publish and store the mean of all
      the valid readings, invalid ones left out, as long as there is one. */
  lemma {:induction false} MinuteAverage(id: seq<char>, s: W1State, polls: seq<Poll>)
    requires CString(id) != [] && Present(polls) && polls != []
    requires WithinMinute(polls, s.lastUpdate) && polls[|polls| - 1].now - s.lastUpdate > PUBLISH_PERIOD
    requires s.samples + ValidCount(id, polls) > 0
    ensures PublishesMean(Run(id, s, polls), s.tot + ValidSum(id, polls), s.samples + ValidCount(id, polls), polls[|polls| - 1].now)
    decreases |polls|, 1
  {
    if |polls| == 1 {
      LastPassPublishes(id, s, polls);
    } else {
      AveragedAfterFirst(id, s, polls);
    }
  }

  /** The inductive step of MinuteAverage: the first of several passes accumulates,
      and the rest of the run publishes the mean. */
  lemma {:induction false} AveragedAfterFirst(id: seq<char>, s: W1State, polls: seq<Poll>)
    requires CString(id) != [] && Present(polls) && |polls| >= 2
    requires WithinMinute(polls, s.lastUpdate) && polls[|polls| - 1].now - s.lastUpdate > PUBLISH_PERIOD
    requires s.samples + ValidCount(id, polls) > 0
    ensures PublishesMean(Run(id, s, polls), s.tot + ValidSum(id, polls), s.samples + ValidCount(id, polls), polls[|polls| - 1].now)
    decreases |polls|, 0
  {
    var t := AccumulateFirst(id, s, polls);
    var rest := polls[1..];
    assert PublishesMean(Run(id, t, rest), t.tot + ValidSum(id, rest), t.samples + ValidCount(id, rest), rest[|rest| - 1].now) by {
      MinuteAverage(id, t, rest);
    }
  }

  /** A single pass past the minute that finds the device publishes the mean of the
      sum so far and its own reading when valid. */
  lemma {:induction false} LastPassPublishes(id: seq<char>, s: W1State, polls: seq<Poll>)
    requires CString(id) != [] && |polls| == 1 && polls[0].file.Some?
    requires polls[0].now - s.lastUpdate > PUBLISH_PERIOD && s.samples + ValidCount(id, polls) > 0
    ensures var avg := (s.tot + ValidSum(id, polls)) / (s.samples + ValidCount(id, polls)) as real;
      Run(id, s, polls) == Outcome(W1State(0.0, 0, polls[0].now, avg), [Record("tempA", avg)], false)
  {
    var r := GetTemperature(id, polls[0].file);
    assert r.code != 2;
    RunSingle(id, s, polls);
    StepAbsorbs(id, s, polls[0]);
    assert ValidSum(id, polls) == (if r.code == 0 then r.value else 0.0) + ValidSum(id, []) by {
      assert polls[1..] == [];
    }
    assert ValidCount(id, polls) == (if r.code == 0 then 1 else 0) + ValidCount(id, []) by {
      assert polls[1..] == [];
    }
    AbsorbPublishes(s, r, polls[0].now);
  }

  lemma {:induction false} RunSingle(id: seq<char>, s: W1State, polls: seq<Poll>)
    requires |polls| == 1 && !Step(id, s, polls[0]).gone
    ensures Run(id, s, polls) == Step(id, s, polls[0])
  {
    assert polls[1..] == [];
    var o := Step(id, s, polls[0]);
    assert o.records + [] == o.records;
  }

  /** A pass past the minute with at least one sample publishes the mean. */
  lemma AbsorbPublishes(s: W1State, r: Reading, now: int)
    requires r.code == 0 || r.code == 1
    requires now - s.lastUpdate > PUBLISH_PERIOD && s.samples + (if r.code == 0 then 1 else 0) > 0
    ensures var avg := (s.tot + (if r.code == 0 then r.value else 0.0)) / (s.samples + if r.code == 0 then 1 else 0) as real;
      Absorb(s, r, now) == Outcome(W1State(0.0, 0, now, avg), [Record("tempA", avg)], false)
  {
  }

  /** The first of several passes within the minute only adds a valid reading to the
      sum; the rest of the run starts from there. */
  lemma {:induction false} AccumulateFirst(id: seq<char>, s: W1State, polls: seq<Poll>) returns (t: W1State)
    requires CString(id) != [] && Present(polls) && |polls| >= 2
    requires WithinMinute(polls, s.lastUpdate) && polls[|polls| - 1].now - s.lastUpdate > PUBLISH_PERIOD
    ensures t.lastUpdate == s.lastUpdate
    ensures Present(polls[1..]) && WithinMinute(polls[1..], t.lastUpdate)
    ensures polls[1..][|polls[1..]| - 1] == polls[|polls| - 1]
    ensures polls[1..][|polls[1..]| - 1].now - t.lastUpdate > PUBLISH_PERIOD
    ensures Run(id, s, polls) == Run(id, t, polls[1..])
    ensures s.tot + ValidSum(id, polls) == t.tot + ValidSum(id, polls[1..])
    ensures s.samples + ValidCount(id, polls) == t.samples + ValidCount(id, polls[1..])
  {
    var r := GetTemperature(id, polls[0].file);
    t := if r.code == 0 then s.(tot := s.tot + r.value, samples := s.samples + 1) else s;
    assert r.code != 2;
    assert polls[0].now - s.lastUpdate <= PUBLISH_PERIOD && polls[0].kicked == 0;
    StepAbsorbs(id, s, polls[0]);
    assert Absorb(s, r, polls[0].now) == Outcome(t, [], false);
    QuietFirst(id, s, polls, t);
    TailWithinMinute(polls, s.lastUpdate);
  }

  lemma {:induction false} TailWithinMinute(polls: seq<Poll>, lastUpdate: int)
    requires Present(polls) && WithinMinute(polls, lastUpdate) && polls != []
    ensures Present(polls[1..]) && WithinMinute(polls[1..], lastUpdate)
    ensures |polls| >= 2 ==> polls[1..][|polls[1..]| - 1] == polls[|polls| - 1]
  {
    assert forall k :: 0 <= k < |polls[1..]| ==> polls[1..][k] == polls[k + 1];
  }

  /** A first pass that stores nothing and leaves the loop running hands its state to
      the rest of the run. */
  lemma {:induction false} QuietFirst(id: seq<char>, s: W1State, polls: seq<Poll>, t: W1State)
    requires polls != [] && polls[0].kicked == 0 && Step(id, s, polls[0]) == Outcome(t, [], false)
    ensures Run(id, s, polls) == Run(id, t, polls[1..])
  {
    var rest := Run(id, t, polls[1..]);
    assert [] + rest.records == rest.records;
  }
}
