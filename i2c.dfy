/** The I2C sampler (i2cthread.c): an AM2315 humidity and temperature sensor and an
    MPL115A2 barometer with its own temperature sensor.  Bytes read from the devices
    are inputs; the decoders are functions over them, and the polling loop averages
    one reading of each per pass and publishes the averages once a minute. */
module I2c {
  import opened Common

  /** The value a failed AM2315 reading stands in with. */
  const BADTEMP: real := -999.0

  /** Seconds after the last publication before the next one, exclusive. */
  const PUBLISH_PERIOD := 60

  function CToF(c: real): real
  {
    c * 1.8 + 32.0
  }

  function FToC(f: real): real
  {
    (f - 32.0) / 1.8
  }

  lemma CToFRoundTrip(c: real, f: real)
    ensures FToC(CToF(c)) == c && CToF(FToC(f)) == f
  {
  }

  // ---------------------------------------------------------------------------
  // Bytes and words

  /** An unsigned char, or a byte read from a device register. */
  type byte = x: int | 0 <= x < 256

  /** ((uint16_t) hi << 8) | lo: the 16-bit word of a register pair.  The operands
      are non-negative and lo < 256, so the shift is a product and the or a sum. */
  function Word(hi: byte, lo: byte): (w: int)
    ensures 0 <= w < 65536
  {
    hi * 256 + lo
  }

  /** The register pair holding a 16-bit word: its high and low byte. */
  function Hi(w: int): byte
    requires 0 <= w < 65536
  {
    w / 256
  }

  function Lo(w: int): byte
    requires 0 <= w < 65536
  {
    w % 256
  }

  /** A word split into its register pair and joined again is the same word, and a
      register pair joined and split again is the same pair. */
  lemma WordRoundTrip(w: int, hi: byte, lo: byte)
    requires 0 <= w < 65536
    ensures Word(Hi(w), Lo(w)) == w
    ensures Hi(Word(hi, lo)) == hi && Lo(Word(hi, lo)) == lo
  {
  }

  /** The int16_t that a 16-bit word converts to (two's complement). */
  function Int16(w: int): (v: int)
    requires 0 <= w < 65536
    ensures -32768 <= v < 32768
  {
    if w >= 32768 then w - 65536 else w
  }

  /** The 16-bit word of a value that fits an int16_t. */
  function Int16Word(v: int): (w: int)
    requires -32768 <= v < 32768
    ensures 0 <= w < 65536
  {
    if v < 0 then v + 65536 else v
  }

  /** Int16 and Int16Word are inverse. */
  lemma Int16RoundTrip(v: int, w: int)
    requires -32768 <= v < 32768 && 0 <= w < 65536
    ensures Int16(Int16Word(v)) == v && Int16Word(Int16(w)) == w
  {
  }

  // ---------------------------------------------------------------------------
  // read_am2315

  /** Fahrenheit temperature and relative humidity, as read_am2315 returns them. */
  datatype Am2315Reading = Am2315Reading(temp: real, humid: real)

  /** The 8-byte response is valid when it echoes the read request's function code 3
      and its length 4. */
  predicate ValidHeader(response: seq<byte>)
    requires |response| == 8
  {
    response[0] == 3 && response[1] == 4
  }

  /** b & 0x80 != 0 for a byte: its top bit is set. */
  predicate SignBit(b: byte)
  {
    b >= 128
  }

  /** read_am2315 (i2cthread.c:37-70) applied to the response bytes: humidity in
      tenths scaled by 10.1, and a sign-and-magnitude temperature in tenths of a
      degree Celsius (magnitude: the low seven bits of byte 4, b & 0x7F, then byte 5)
      converted to Fahrenheit; a response with a bad header gives the sentinel for
      both, and the temperature sentinel goes through the conversion. */
  function ReadAm2315(response: seq<byte>): Am2315Reading
    requires |response| == 8
  {
    if !ValidHeader(response) then Am2315Reading(CToF(BADTEMP), BADTEMP)
    else
      var humidity := (256 * response[2] as int + response[3] as int) as real / 10.1;
      var magnitude := (256 * (response[4] as int % 128) + response[5] as int) as real / 10.0;
      var celsius := if SignBit(response[4]) then -magnitude else magnitude;
      Am2315Reading(CToF(celsius), humidity)
  }

  /** The response an AM2315 sends for a raw humidity and a temperature in tenths of a
      degree, with two check bytes that read_am2315 does not look at. */
  function Am2315Response(humidRaw: int, tenths: int, crc0: byte, crc1: byte): (r: seq<byte>)
    requires 0 <= humidRaw < 65536 && -32768 < tenths < 32768
    ensures |r| == 8 && ValidHeader(r)
  {
    var magnitude := if tenths < 0 then -tenths else tenths;
    [3, 4, Hi(humidRaw), Lo(humidRaw), Hi(magnitude) + (if tenths < 0 then 128 else 0), Lo(magnitude), crc0, crc1]
  }

  /** Decoding what the sensor sends for a humidity and a temperature gives back that
      humidity over 10.1 and that temperature, in Fahrenheit. */
  lemma Am2315RoundTrip(humidRaw: int, tenths: int, crc0: byte, crc1: byte)
    requires 0 <= humidRaw < 65536 && -32768 < tenths < 32768
    ensures ReadAm2315(Am2315Response(humidRaw, tenths, crc0, crc1)) ==
      Am2315Reading(CToF(tenths as real / 10.0), humidRaw as real / 10.1)
  {
    var r := Am2315Response(humidRaw, tenths, crc0, crc1);
    var magnitude := if tenths < 0 then -tenths else tenths;
    assert r[4] as int % 128 == Hi(magnitude) as int && SignBit(r[4]) == (tenths < 0);
    assert 256 * (r[4] as int % 128) + r[5] as int == magnitude;
  }

  /** A response with a bad header reads as humidity -999 and temperature -1766.2, the
      sentinel converted as if it were degrees Celsius. */
  lemma BadHeaderReading(response: seq<byte>)
    requires |response| == 8 && (response[0] != 3 || response[1] != 4)
    ensures ReadAm2315(response) == Am2315Reading(-1766.2, -999.0)
  {
  }

  /** With a valid header the temperature is below the freezing point of water
      exactly when the sign bit is set and the magnitude is not zero. */
  lemma Am2315Sign(response: seq<byte>)
    requires |response| == 8 && ValidHeader(response)
    ensures ReadAm2315(response).temp < 32.0 <==>
      SignBit(response[4]) && (response[4] as int % 128 != 0 || response[5] != 0)
  {
  }

  // ---------------------------------------------------------------------------
  // read_mpl115a2_coef

  /** The MPL115A2's calibration coefficients. */
  datatype Coef = Coef(a0: real, b1: real, b2: real, c12: real)

  /** c12coeff (i2cthread.c:112): the word of registers 10 and 11 shifted right by
      two, a 14-bit value. */
  function C12Raw(hi: byte, lo: byte): (r: int)
    ensures 0 <= r < 16384
  {
    Word(hi, lo) / 4
  }

  /** read_mpl115a2_coef (i2cthread.c:101-119) over the device's registers: a0, b1 and
      b2 are signed 16-bit fixed-point words with 3, 13 and 14 fraction bits; c12 is
      the unsigned 14-bit value of registers 10-11 with 22 fraction bits. */
  function Coefficients(regs: seq<byte>): Coef
    requires |regs| >= 12
  {
    Coef(Int16(Word(regs[4], regs[5])) as real / 8.0,
         Int16(Word(regs[6], regs[7])) as real / 8192.0,
         Int16(Word(regs[8], regs[9])) as real / 16384.0,
         C12Raw(regs[10], regs[11]) as real / 4194304.0)
  }

  /** Registers 0-11 holding the fixed-point coefficients a0 * 8, b1 * 8192, b2 * 16384
      and c12 * 4194304 (registers 0-3 and the low two bits of register 11 clear). */
  function CoefficientRegisters(a0: int, b1: int, b2: int, c12: int): (r: seq<byte>)
    requires -32768 <= a0 < 32768 && -32768 <= b1 < 32768 && -32768 <= b2 < 32768 && 0 <= c12 < 16384
    ensures |r| == 12
  {
    var wa := Int16Word(a0);
    var wb1 := Int16Word(b1);
    var wb2 := Int16Word(b2);
    var wc := c12 * 4;
    [0, 0, 0, 0, Hi(wa), Lo(wa), Hi(wb1), Lo(wb1), Hi(wb2), Lo(wb2), Hi(wc), Lo(wc)]
  }

  /** Every coefficient the device can hold is read back exactly. */
  lemma CoefficientsRoundTrip(a0: int, b1: int, b2: int, c12: int)
    requires -32768 <= a0 < 32768 && -32768 <= b1 < 32768 && -32768 <= b2 < 32768 && 0 <= c12 < 16384
    ensures Coefficients(CoefficientRegisters(a0, b1, b2, c12)) ==
      Coef(a0 as real / 8.0, b1 as real / 8192.0, b2 as real / 16384.0, c12 as real / 4194304.0)
  {
    var r := CoefficientRegisters(a0, b1, b2, c12);
    WordRoundTrip(Int16Word(a0), 0, 0);
    WordRoundTrip(Int16Word(b1), 0, 0);
    WordRoundTrip(Int16Word(b2), 0, 0);
    WordRoundTrip(c12 * 4, 0, 0);
    Int16RoundTrip(a0, 0);
    Int16RoundTrip(b1, 0);
    Int16RoundTrip(b2, 0);
  }

  /** c12 is never negative and below 2^-8; a0 lies in [-4096, 4096). */
  lemma CoefficientRanges(regs: seq<byte>)
    requires |regs| >= 12
    ensures var c := Coefficients(regs);
      0.0 <= c.c12 <= 16383.0 / 4194304.0 && -4096.0 <= c.a0 < 4096.0
  {
  }

  // ---------------------------------------------------------------------------
  // read_mpl115a2

  /** A 10-bit ADC value from a register pair (i2cthread.c:85-86): the pair's word
      shifted right by six. */
  function Raw10(hi: byte, lo: byte): (r: int)
    ensures 0 <= r <= 1023
  {
    Word(hi, lo) / 64
  }

  /** Every 10-bit value comes back from the registers that hold it, whatever the
      unused low six bits are. */
  lemma Raw10RoundTrip(v: int, junk: int)
    requires 0 <= v < 1024 && 0 <= junk < 64
    ensures Raw10(v / 4, (v % 4) * 64 + junk) == v
  {
  }

  /** The compensated pressure (i2cthread.c:88). */
  function PressureComp(c: Coef, pressure: int, temp: int): real
  {
    c.a0 + (c.b1 + c.c12 * temp as real) * pressure as real + c.b2 * temp as real
  }

  /** kPa from the compensated pressure (i2cthread.c:90). */
  function Kpa(pressureComp: real): real
  {
    (65.0 / 1023.0) * pressureComp + 50.0
  }

  const INHG_PER_KPA: real := 0.295299830714

  /** Celsius from the raw temperature (i2cthread.c:91). */
  function BoardCelsius(temp: int): real
  {
    (temp as real - 498.0) / -5.35 + 25.0
  }

  /** Fahrenheit temperature and pressure in inches of mercury, as read_mpl115a2
      returns them. */
  datatype Mpl115a2Reading = Mpl115a2Reading(temp: real, baro: real)

  /** read_mpl115a2 (i2cthread.c:74-97) over registers 0-3 of the device after a
      conversion. */
  function ReadMpl115a2(c: Coef, regs: seq<byte>): Mpl115a2Reading
    requires |regs| >= 4
  {
    var pressure := Raw10(regs[0], regs[1]);
    var temp := Raw10(regs[2], regs[3]);
    Mpl115a2Reading(CToF(BoardCelsius(temp)), Kpa(PressureComp(c, pressure, temp)) * INHG_PER_KPA)
  }

  /** The scale maps compensated pressures 0 to 1023 onto 50 to 115 kPa. */
  lemma KpaRange(pressureComp: real)
    requires 0.0 <= pressureComp <= 1023.0
    ensures 50.0 <= Kpa(pressureComp) <= 115.0
  {
  }

  /** A raw temperature of 498 is 25 degrees Celsius, and the temperature falls as
      the raw value grows. */
  lemma BoardCelsiusFalls(t1: int, t2: int)
    requires t1 < t2
    ensures BoardCelsius(498) == 25.0 && BoardCelsius(t1) > BoardCelsius(t2)
  {
  }

  /** A worked example: coefficient words 0x3ECE, 0xB3F9, 0xC517 and 0x33C8 and ADC
      words 0x6680 (pressure) and 0x7EC0 (temperature) give a0 = 2009.75,
      raw pressure 410 and raw temperature 507, a compensated pressure of
      768829383/1048576 (733.21...), 96.587... kPa and 23.3... degrees Celsius. */
  lemma WorkedExample()
    ensures var regs: seq<byte> := [0x66, 0x80, 0x7E, 0xC0, 0x3E, 0xCE, 0xB3, 0xF9, 0xC5, 0x17, 0x33, 0xC8];
      var c := Coefficients(regs);
      c == Coef(2009.75, -19463.0 / 8192.0, -15081.0 / 16384.0, 3314.0 / 4194304.0) &&
      Raw10(regs[0], regs[1]) == 410 && Raw10(regs[2], regs[3]) == 507 &&
      PressureComp(c, 410, 507) == 768829383.0 / 1048576.0 &&
      96.58 < Kpa(PressureComp(c, 410, 507)) < 96.59 &&
      23.3 < BoardCelsius(507) < 23.4 &&
      ReadMpl115a2(c, regs) == Mpl115a2Reading(CToF(BoardCelsius(507)), Kpa(768829383.0 / 1048576.0) * INHG_PER_KPA)
  {
    var regs: seq<byte> := [0x66, 0x80, 0x7E, 0xC0, 0x3E, 0xCE, 0xB3, 0xF9, 0xC5, 0x17, 0x33, 0xC8];
    assert C12Raw(regs[10], regs[11]) == 3314;
  }

  // ---------------------------------------------------------------------------
  // The polling loop

  /** One value for each published quantity: outside temperature, humidity, board
      temperature and barometric pressure (a reading, a sum or an average). */
  datatype Sample = Sample(outsideTemp: real, humidity: real, boardTemp: real, barometric: real)

  const Zero := Sample(0.0, 0.0, 0.0, 0.0)

  function Add(a: Sample, b: Sample): Sample
  {
    Sample(a.outsideTemp + b.outsideTemp, a.humidity + b.humidity, a.boardTemp + b.boardTemp, a.barometric + b.barometric)
  }

  function Divide(a: Sample, n: int): Sample
    requires n != 0
  {
    Sample(a.outsideTemp / n as real, a.humidity / n as real, a.boardTemp / n as real, a.barometric / n as real)
  }

  /** The records DataLog hands to the store call, in the loop's order. */
  function Records(avg: Sample): seq<Record>
  {
    [Record("outsideTemp", avg.outsideTemp), Record("humidity", avg.humidity),
     Record("boardTemp", avg.boardTemp), Record("barometric", avg.barometric)]
  }

  /** The loop's sums t1tot, humtot, t2tot, barotot and nsamples, its clock, and the
      four published globals. */
  datatype I2cState = I2cState(tot: Sample, nsamples: nat, lastUpdate: int, published: Sample)

  /** One pass of the loop: the AM2315's response, registers 0-3 of the MPL115A2, the
      time read after the readings and the value of `kicked` that the loop condition sees. */
  datatype Poll = Poll(response: seq<byte>, regs: seq<byte>, now: int, kicked: int)

  predicate WellFormed(p: Poll)
  {
    |p.response| == 8 && |p.regs| >= 4
  }

  predicate AllWellFormed(polls: seq<Poll>)
  {
    forall k :: 0 <= k < |polls| ==> WellFormed(polls[k])
  }

  /** What one pass reads from both devices. */
  function Reading(c: Coef, p: Poll): Sample
    requires WellFormed(p)
  {
    var a := ReadAm2315(p.response);
    var m := ReadMpl115a2(c, p.regs);
    Sample(a.temp, a.humid, m.temp, m.baro)
  }

  /** The thread after its setup (i2cthread.c:159-164); the published values keep
      those an earlier run left. */
  function Init(start: int, published: Sample): (s: I2cState)
    ensures s.tot == Zero && s.nsamples == 0 && s.lastUpdate == start && s.published == published
  {
    I2cState(Zero, 0, start, published)
  }

  datatype Outcome = Outcome(state: I2cState, records: seq<Record>)

  /** One pass of the loop (i2cthread.c:170-204): every reading, the sentinel ones
      too, joins the sums; more than a minute after the last publication the four
      averages are published and stored and the sums restart. */
  function Step(c: Coef, s: I2cState, p: Poll): (o: Outcome)
    requires WellFormed(p)
  {
    var tot := Add(s.tot, Reading(c, p));
    var n := s.nsamples + 1;
    if p.now - s.lastUpdate > PUBLISH_PERIOD then
      var avg := Divide(tot, n);
      Outcome(I2cState(Zero, 0, p.now, avg), Records(avg))
    else Outcome(s.(tot := tot, nsamples := n), [])
  }

  /** The passes of the loop over `polls`, up to and including the first one that finds
      `kicked` set (or until the polls run out). */
  function Run(c: Coef, s: I2cState, polls: seq<Poll>): (o: Outcome)
    requires AllWellFormed(polls)
    decreases |polls|
  {
    if polls == [] then Outcome(s, [])
    else
      var o := Step(c, s, polls[0]);
      if polls[0].kicked != 0 then o
      else
        var rest := Run(c, o.state, polls[1..]);
        Outcome(rest.state, o.records + rest.records)
  }

  /** i2cthread (i2cthread.c:134-212).  `am2315Found` and `mpl115a2Found` say whether
      wiringPiI2CSetup opened each device and `coefRegs` is the barometer's register
      file at start.  When a device cannot be opened the thread returns at once;
      otherwise it reads the coefficients and runs the do-while loop until a pass
      finds `kicked` set, leaving the published values and the records Run describes. */
  method I2cThread(am2315Found: bool, mpl115a2Found: bool, coefRegs: seq<byte>, start: int, published0: Sample,
                   polls: seq<Poll>) returns (published: Sample, stored: seq<Record>)
    requires |coefRegs| >= 12 && AllWellFormed(polls)
    ensures !(am2315Found && mpl115a2Found) ==> published == published0 && stored == []
    ensures am2315Found && mpl115a2Found ==>
      var o := Run(Coefficients(coefRegs), Init(start, published0), polls);
      published == o.state.published && stored == o.records
  {
    published, stored := published0, [];
    if !am2315Found || !mpl115a2Found {
      return;
    }
    var coef := Coefficients(coefRegs);
    var lastUpdate := start;
    var nsamples: nat := 0;
    var t1tot, t2tot, humtot, barotot := 0.0, 0.0, 0.0, 0.0;
    ghost var init := Init(start, published0);
    var i := 0;
    var kicked := 0;
    while i < |polls| && kicked == 0
      invariant 0 <= i <= |polls|
      invariant RunFrom(coef, init, polls, i,
        I2cState(Sample(t1tot, humtot, t2tot, barotot), nsamples, lastUpdate, published), stored, kicked != 0)
    {
      ghost var cur := I2cState(Sample(t1tot, humtot, t2tot, barotot), nsamples, lastUpdate, published);
      var p := polls[i];
      var a := ReadAm2315(p.response);
      t1tot := t1tot + a.temp;
      humtot := humtot + a.humid;
      var m := ReadMpl115a2(coef, p.regs);
      t2tot := t2tot + m.temp;
      barotot := barotot + m.baro;
      nsamples := nsamples + 1;
      var records := [];
      if p.now - lastUpdate > PUBLISH_PERIOD {
        published := Sample(t1tot / nsamples as real, humtot / nsamples as real,
                            t2tot / nsamples as real, barotot / nsamples as real);
        records := Records(published);
        lastUpdate := p.now;
        nsamples := 0;
        t1tot, t2tot, humtot, barotot := 0.0, 0.0, 0.0, 0.0;
      }
      RunFromPass(coef, init, polls, i, cur, stored,
        I2cState(Sample(t1tot, humtot, t2tot, barotot), nsamples, lastUpdate, published), records);
      stored := stored + records;
      i := i + 1;
      kicked := p.kicked;
    }
    if kicked == 0 {
      RunFromEnd(coef, init, polls, I2cState(Sample(t1tot, humtot, t2tot, barotot), nsamples, lastUpdate, published), stored);
    }
  }

  /** Run from `init` over `polls` is what `i` passes have done (reaching `cur` and
      storing `stored`) followed by the rest of the run, or, once `stopped`, the passes
      done so far. */
  predicate RunFrom(c: Coef, init: I2cState, polls: seq<Poll>, i: int, cur: I2cState, stored: seq<Record>, stopped: bool)
  {
    0 <= i <= |polls| && AllWellFormed(polls) &&
    Run(c, init, polls) ==
      if stopped then Outcome(cur, stored)
      else var rest := Run(c, cur, polls[i..]); Outcome(rest.state, stored + rest.records)
  }

  lemma RunFromPass(c: Coef, init: I2cState, polls: seq<Poll>, i: int, cur: I2cState, stored: seq<Record>,
                    next: I2cState, records: seq<Record>)
    requires i < |polls| && RunFrom(c, init, polls, i, cur, stored, false)
    requires Step(c, cur, polls[i]) == Outcome(next, records)
    ensures RunFrom(c, init, polls, i + 1, next, stored + records, polls[i].kicked != 0)
  {
    assert polls[i..][1..] == polls[i + 1..];
    if polls[i].kicked == 0 {
      var rest := Run(c, next, polls[i + 1..]);
      assert stored + (records + rest.records) == stored + records + rest.records;
    }
  }

  lemma RunFromEnd(c: Coef, init: I2cState, polls: seq<Poll>, cur: I2cState, stored: seq<Record>)
    requires RunFrom(c, init, polls, |polls|, cur, stored, false)
    ensures Run(c, init, polls) == Outcome(cur, stored)
  {
    assert polls[|polls|..] == [];
    assert stored + [] == stored;
  }

  // ---------------------------------------------------------------------------
  // Properties of the polling loop

  /** A reading with a bad AM2315 header is not dropped: within the minute it adds
      -1766.2 to the outside temperature sum, -999 to the humidity sum and one sample. */
  lemma BadReadingCounted(c: Coef, s: I2cState, p: Poll)
    requires WellFormed(p) && !ValidHeader(p.response) && p.now - s.lastUpdate <= PUBLISH_PERIOD
    ensures var t := Step(c, s, p).state;
      t.tot.outsideTemp == s.tot.outsideTemp - 1766.2 && t.tot.humidity == s.tot.humidity - 999.0 &&
      t.nsamples == s.nsamples + 1
  {
    BadHeaderReading(p.response);
  }

  /** Exactly a minute after the last publication nothing is published yet. */
  lemma NoPublishAtSixty(c: Coef, s: I2cState, p: Poll)
    requires WellFormed(p) && p.now - s.lastUpdate <= PUBLISH_PERIOD
    ensures Step(c, s, p) == Outcome(s.(tot := Add(s.tot, Reading(c, p)), nsamples := s.nsamples + 1), [])
  {
  }

  /** The sum of the readings of a sequence of passes. */
  function Totals(c: Coef, polls: seq<Poll>): Sample
    requires AllWellFormed(polls)
  {
    if polls == [] then Zero else Add(Reading(c, polls[0]), Totals(c, polls[1..]))
  }

  /** Every pass but the last leaves `kicked` clear and comes within a minute of
      `lastUpdate`. */
  predicate WithinMinute(polls: seq<Poll>, lastUpdate: int)
  {
    forall k :: 0 <= k < |polls| - 1 ==> polls[k].kicked == 0 && polls[k].now - lastUpdate <= PUBLISH_PERIOD
  }

  /** Each publication is the average of every reading taken since the last one: from
      sums `s.tot` over `s.nsamples` samples, passes that stay within the minute and a
      last one past it publish (and store) the mean of all those readings, including
      the passes' own. */
  lemma {:induction false} MinuteAverage(c: Coef, s: I2cState, polls: seq<Poll>)
    requires AllWellFormed(polls) && polls != []
    requires WithinMinute(polls, s.lastUpdate) && polls[|polls| - 1].now - s.lastUpdate > PUBLISH_PERIOD
    ensures var avg := Divide(Add(s.tot, Totals(c, polls)), s.nsamples + |polls|);
      Run(c, s, polls) == Outcome(I2cState(Zero, 0, polls[|polls| - 1].now, avg), Records(avg))
    decreases |polls|
  {
    if |polls| == 1 {
      assert Totals(c, polls) == Add(Reading(c, polls[0]), Zero);
    } else {
      var t := AccumulateFirst(c, s, polls);
      MinuteAverage(c, t, polls[1..]);
    }
  }

  /** The first of several passes within the minute only adds its reading to the sums;
      the rest of the run starts from there. */
  lemma AccumulateFirst(c: Coef, s: I2cState, polls: seq<Poll>) returns (t: I2cState)
    requires AllWellFormed(polls) && |polls| >= 2
    requires WithinMinute(polls, s.lastUpdate) && polls[|polls| - 1].now - s.lastUpdate > PUBLISH_PERIOD
    ensures t == s.(tot := Add(s.tot, Reading(c, polls[0])), nsamples := s.nsamples + 1)
    ensures AllWellFormed(polls[1..]) && WithinMinute(polls[1..], t.lastUpdate)
    ensures polls[1..][|polls[1..]| - 1].now - t.lastUpdate > PUBLISH_PERIOD
    ensures Run(c, s, polls) == Run(c, t, polls[1..])
    ensures Add(s.tot, Totals(c, polls)) == Add(t.tot, Totals(c, polls[1..]))
  {
    t := s.(tot := Add(s.tot, Reading(c, polls[0])), nsamples := s.nsamples + 1);
    assert Step(c, s, polls[0]) == Outcome(t, []);
    assert forall k :: 0 <= k < |polls[1..]| ==> polls[1..][k] == polls[k + 1];
    var rest := Run(c, t, polls[1..]);
    assert [] + rest.records == rest.records;
  }

  /** A publication happens exactly when more than a minute has passed, and it
      divides the sums by the samples counted, this pass's included, so never by 0. */
  lemma PublishesWithSamples(c: Coef, s: I2cState, p: Poll)
    requires WellFormed(p)
    ensures var o := Step(c, s, p);
      (o.records != [] <==> p.now - s.lastUpdate > PUBLISH_PERIOD) &&
      (o.records != [] ==> o.state.published == Divide(Add(s.tot, Reading(c, p)), s.nsamples + 1))
  {
  }
}
