# Weather station core in Dafny

This project models the core of a Raspberry Pi weather station written in C. Four
sampler threads read sensors and store averaged values in a database:

- an anemometer thread turns interrupt clicks into wind speed and gust;
- an I2C thread reads an AM2315 (outside temperature, humidity) and an MPL115A2
  (board temperature, pressure);
- a 1-wire thread reads a DS18B20-style temperature probe through its device file;
- a rain thread turns bucket tips into rainfall.

The model also covers two other parts of the program:

- a supervisor that blinks a heartbeat LED, restarts or stops the threads on signals,
  and chooses between foreground and daemon mode;
- the shared helpers: `read_line`, `ReadConfigString` and the `StoreToDB` retry loop.

Modules:

- `CLib` (clib.dfy): the C string functions the core relies on.
- `Common` (common.dfy): common.c.
- `Anemometer` (anemometer.dfy): anemometerthread.c.
- `I2c` (i2c.dfy): i2cthread.c.
- `OneWire` (onewire.dfy): w1thread.c.
- `Rain` (rain.dfy): rainthread.c.
- `Supervisor` (supervisor.dfy): main.c.

Each sampler thread is modelled twice:

- a pure `Step` over a state datatype, with one `Poll` per pass of its polling loop. A
  `Poll` holds the time read, the interrupts or sensor bytes that arrived, and the value
  of `kicked` that the loop condition sees. `Run` folds `Step` over the polls and stops at the
  first pass that finds `kicked` set (the 1-wire thread also stops when its device is
  gone).
- a method with the source's loop over local variables, proved equal to `Run`.

The anemometer keeps its two buffers as arrays inside a `WindSampler` class. Published
globals (`windSpeed`, `rainToday`, `tempA`, …) are part of each thread's state, and
their value at thread start is a parameter.

Two consequences of the code's formulas:

- A probe reading of `t=23562` gives 74.4116 °F (`OneWire.ProbeExample`).
- The I2C thread adds a bad-header AM2315 reading to its averages as the sentinel
  values (`I2c.BadReadingCounted`).

## Model

| member | source | states |
|---|---|---|
| CLib.CString | weatherstation/w1thread.c:61 | the C string a buffer holds: the prefix before the first NUL, followed in the buffer by a NUL or by nothing |
| CLib.IndexOf | weatherstation/common.c:74 | strchr: the first position of the character, or None exactly when it does not occur |
| CLib.Find | weatherstation/w1thread.c:69 | strstr: the first position where the pattern occurs, or None exactly when it occurs nowhere |
| CLib.Strncpy | weatherstation/common.c:81 | strncpy: exactly n characters, the source's C string and then NULs |
| CLib.Memset | weatherstation/common.c:34 | memset(bp, 0, n): the first n cells become NUL and the rest are unchanged |
| CLib.CopyString | weatherstation/common.c:89 | strncpy into an array: out[..n] is Strncpy(src, n) and the rest is unchanged |
| CLib.CStringPadded | weatherstation/common.c:34-47 | NUL padding after a string does not change the C string it reads as |
| CLib.DigitPrefix | weatherstation/w1thread.c:79 | the longest run of leading digits that atof reads |
| CLib.Atof | weatherstation/w1thread.c:79 | atof on an optional sign and decimal digits; AtofOfDecimal states its round trip |
| CLib.AtofOfDecimal | weatherstation/w1thread.c:79 | atof reads back any decimal numeral, with or without a leading '-' |
| Common.CharStream.Getc | weatherstation/common.c:36 | getc: the next character and one step forward, or EOF at the end with the position kept |
| Common.ReadLineAsWrittenOverflows | weatherstation/common.c:36-47 | as written, read_line with mx = 2 on "abc\n" stores "ab", consumes 'c' without storing it, and writes the NUL at bp[2], past the buffer |
| Common.ScanLine | weatherstation/common.c:36-46 | the corrected loop stores at most `room` characters and takes no more than the input holds |
| Common.ScanLineFacts | weatherstation/common.c:36-46 | the stored characters are a prefix of the input with no newline or EOF byte; one more character is consumed unless the input ran out; the loop stops at a newline, an EOF byte, the end of input or a full buffer; end of file is reported exactly at the end of input or an EOF byte |
| Common.LineOf | weatherstation/common.c:31-48 | read_line's result: -1 exactly when nothing is stored and the file is at its end or at an EOF byte, otherwise the number of characters stored; fewer than mx characters, a prefix of the input without newline or EOF byte; the newline, EOF byte or dropped character after them is consumed unless the input ran out |
| Common.LineOfWholeLine | weatherstation/common.c:36-48 | a line shorter than mx followed by a newline is read whole and the newline is consumed |
| Common.ScanLineWhole | weatherstation/common.c:36-46 | the corrected loop reads a line that fits the buffer whole and consumes its newline |
| Common.ScanAsWritten | weatherstation/common.c:36-46 | the loop as written, `getc` before the room test; ReadLineAsWrittenOverflows and ScanAgrees state its properties |
| Common.ReadLineAsWritten | weatherstation/common.c:31-48 | read_line as written, with the index of the NUL it writes; ReadLineAsWrittenOverflows and CorrectionAgreesInBounds state its properties |
| Common.ScanAgrees | weatherstation/common.c:36-46 | wherever the loop as written stops with fewer than mx characters stored, the corrected loop stores, consumes and reports end of file exactly as it does |
| Common.CorrectionAgreesInBounds | weatherstation/common.c:31-48 | whenever read_line as written writes its NUL inside the buffer, the corrected read_line returns, stores and consumes the same |
| Common.ReadLine | weatherstation/common.c:31-48 | read_line on an array: returns LineOf's result, advances the file by what it consumed, leaves bp[..mx] as the line padded with NULs, and changes nothing past mx |
| Common.PaddedReadsBack | weatherstation/common.c:47 | a line padded with NULs reads back as the same C string |
| Common.ConfigLookupScan | weatherstation/common.c:69-87 | the config lookup takes its first line exactly as read_line returns it into the 100-character buffer |
| Common.NextConfigLine | weatherstation/common.c:69-80 | one loop pass: the setting parsed from the buffer decides the lookup, or else the lookup continues on the rest of the file |
| Common.FirstMatchWins | weatherstation/common.c:69-86 | the first `key=value` line gives `value` for `key`, whatever follows |
| Common.OtherLineSkipped | weatherstation/common.c:72-76 | a comment, a line without '=' or a line naming another key does not change the lookup |
| Common.LineSetting | weatherstation/common.c:72-80 | what one configuration line says about a key: nothing for a comment, a line without '=' or another key, else the text after the first '='; ParseSetting and OtherLineSkipped state its use |
| Common.ConfigLookup | weatherstation/common.c:69-87 | the value the first matching line gives; FirstMatchWins, OtherLineSkipped and EmptyConfigHasNothing state its properties |
| Common.EmptyConfigHasNothing | weatherstation/common.c:69 | an empty file gives no value |
| Common.ParseSetting | weatherstation/common.c:72-79 | the comment test, the split at the first '=' and the key comparison, applied to the C string in the buffer |
| Common.NextSetting | weatherstation/common.c:69-80 | one read_line and parse: at end of file no setting remains; otherwise the file advanced and the lookup is this line's setting or the rest's |
| Common.ReadConfigString | weatherstation/common.c:53-93 | returns 1 with `out` untouched when the file is missing; 1 with the first matching value copied by strncpy; 0 with the default copied when no line matches; nothing past sz changes |
| Common.StoreToDB | weatherstation/common.c:118-145 | without a connection nothing is tried; otherwise 1 to 5 attempts, all but the last failed, stored exactly when the last one succeeded, 5 attempts when none did, and one reconnect per failure |
| Common.QueryFailed | weatherstation/common.c:131 | an attempt fails only when the query reports failure and an error number is set; StoreToDB states its use |
| Anemometer.GetAvg | weatherstation/anemometerthread.c:33-39 | the integer total of dat[0..sz) divided by sz, as MeanInt |
| Anemometer.GetAvgDouble | weatherstation/anemometerthread.c:42-49 | the arithmetic mean of dat[0..sz), as MeanReal |
| Anemometer.GetMax | weatherstation/anemometerthread.c:52-60 | for sz ≥ 1 a value ≥ every dat[i], i < sz, and equal to one of them; dat[0] when sz is 0 |
| Anemometer.MaxOfIsMax | weatherstation/anemometerthread.c:52-60 | MaxOf is an upper bound of the sequence and one of its elements |
| Anemometer.SumBounds | weatherstation/anemometerthread.c:35-37 | a sum of n values within [lo, hi] lies within [n·lo, n·hi] |
| Anemometer.MeanIntBounds | weatherstation/anemometerthread.c:33-39 | the mean of counts within [lo, hi] lies within [lo, hi] |
| Anemometer.MeanRealBounds | weatherstation/anemometerthread.c:42-49 | the mean of speeds within [lo, hi] lies within [lo, hi] |
| Anemometer.Init | weatherstation/anemometerthread.c:67-85 | the start state: buffers zeroed, cursors 0, counter cleared, lastCount the start time, gust and speed kept |
| Anemometer.SampleSecond | weatherstation/anemometerthread.c:88-97 | the per-second sample leaves avgbuf possibly full and bvgbuf untouched |
| Anemometer.CloseAvgWindow | weatherstation/anemometerthread.c:98-110 | closing the 5-sample window leaves both cursors inside their buffers, bvgbuf possibly full |
| Anemometer.CloseSpeedWindow | weatherstation/anemometerthread.c:111-125 | publishing leaves bvgptr inside the buffer and keeps both buffers' contents |
| Anemometer.Step | weatherstation/anemometerthread.c:88-128 | one pass keeps both cursors inside their buffers (with the corrected guards) |
| Anemometer.Run | weatherstation/anemometerthread.c:86-129 | every pass keeps the cursors inside their buffers |
| Anemometer.WindSampler.constructor | weatherstation/anemometerthread.c:66-78 | fresh zeroed buffers whose state is Init |
| Anemometer.WindSampler.Sample | weatherstation/anemometerthread.c:88-97 | the array update equals SampleSecond on the old state |
| Anemometer.WindSampler.PushSpeed | weatherstation/anemometerthread.c:98-110 | the array update equals CloseAvgWindow on the old state |
| Anemometer.WindSampler.PublishSpeed | weatherstation/anemometerthread.c:111-125 | the update and the stored records equal CloseSpeedWindow |
| Anemometer.WindSampler.Pass | weatherstation/anemometerthread.c:88-128 | one pass on the arrays equals Step |
| Anemometer.AnemometerThread | weatherstation/anemometerthread.c:64-133 | the do-while loop over the arrays leaves the gust and speed and stores the records that Run gives |
| Anemometer.IdlePass | weatherstation/anemometerthread.c:90 | within a second of lastCount a pass only adds the clicks to the counter |
| Anemometer.SamplingPass | weatherstation/anemometerthread.c:90-97 | a new second before the window is full stores the count in the next slot and clears the counter |
| Anemometer.ClosingPass | weatherstation/anemometerthread.c:90-125 | the fifth second pushes 3.6528 × the window mean, updates the gust, and on the 24th speed publishes the mean of bvgbuf and stores speed and gust |
| Anemometer.FiveSecondWindow | weatherstation/anemometerthread.c:90-104 | five consecutive seconds push exactly 3.6528 × the mean of their five counts at the old bvgptr slot |
| Anemometer.FirstFourSeconds | weatherstation/anemometerthread.c:90-97 | the first four seconds of a window store their counts in slots 0..3 and push nothing |
| Anemometer.TwoSeconds | weatherstation/anemometerthread.c:90-97 | two sampled seconds in a row are two Sampling steps |
| Anemometer.SamplingRun | weatherstation/anemometerthread.c:90-97 | a sampled second that does not close the window hands its state to the rest of the run |
| Anemometer.ClosingRun | weatherstation/anemometerthread.c:90-110 | a last second that closes the window pushes 3.6528 × its mean |
| Anemometer.GustAgainstCountMean | weatherstation/anemometerthread.c:101-108 | with non-negative counts, comparing the largest held speed with the mean click count raises the gust exactly when that speed is positive |
| Anemometer.StepKeepsNonNegative | weatherstation/anemometerthread.c:93-103 | counts and speeds stay non-negative |
| Anemometer.PublishedSpeedInRange | weatherstation/anemometerthread.c:114-120 | the published wind speed lies between the least and the largest held speed, and is the first stored record |
| Anemometer.CalmPass | weatherstation/anemometerthread.c:101-125 | with no clicks a quiet state stays quiet and the gust and speed stay as they were or become 0 |
| Anemometer.CalmRun | weatherstation/anemometerthread.c:101-125 | if every second counts no clicks, speed and gust stay 0 and every stored value is 0 |
| Anemometer.AsWrittenSixthSecondOverflows | weatherstation/anemometerthread.c:93-103 | under the guard `avgptr > AVGSIZE` the sixth second writes avgbuf[5], past the 5-slot array, before the first average |
| Anemometer.AsWrittenTick | weatherstation/anemometerthread.c:93-111 | the cursors and written slots of one sampled second under the guards as written; the AsWritten lemmas state what they imply |
| Anemometer.AsWrittenSixTicks | weatherstation/anemometerthread.c:93-111 | as written, each speed takes six sampled seconds |
| Anemometer.AsWrittenWindows | weatherstation/anemometerthread.c:93-111 | as written, 6k sampled seconds push k speeds |
| Anemometer.AsWrittenSpeedBufferOverflows | weatherstation/anemometerthread.c:103-111 | under the guard `bvgptr > BUFSIZE` the 25th speed is written to bvgbuf[24], past the 24-slot array |
| Rain.RainThread | weatherstation/rainthread.c:34-74 | the do-while loop leaves the day's total and stores the records that Run gives |
| Rain.Rainfall | weatherstation/rainthread.c:56 | the rainfall a number of tips measures; ThousandClicks states the scale |
| Rain.Step | weatherstation/rainthread.c:51-67 | one pass of the loop; QuietPass, UpdatePass and StepConserves state its properties |
| Rain.Run | weatherstation/rainthread.c:50-70 | the passes up to the first that finds `kicked` set; RainConserved, RainTodayGrows and KickedStops state its properties, RainThread its link to the loop |
| Rain.ThousandClicks | weatherstation/rainthread.c:56 | 1000 tips are 0.045 of rain |
| Rain.QuietPass | weatherstation/rainthread.c:53 | within a minute a pass only counts the new tips and stores nothing |
| Rain.UpdatePass | weatherstation/rainthread.c:53-66 | a minute or more after the last update, every counted tip becomes rainfall added to the total, the counter is emptied, the clock moves, and rainfall then total are stored |
| Rain.UpdatesAMinuteApart | weatherstation/rainthread.c:53-66 | the clock either stays or moves a minute or more forward |
| Rain.StepConserves | weatherstation/rainthread.c:53-66 | one pass accounts for every tip it finds counted |
| Rain.RainConserved | weatherstation/rainthread.c:28-67 | over a run the stored rainfall adds up to the growth of the day's total, and with the tips still counted accounts for every tip |
| Rain.RainTodayGrows | weatherstation/rainthread.c:56-57 | the day's total never falls and every stored total is at least the starting one |
| Rain.KickedStops | weatherstation/rainthread.c:70 | polls after the one that finds `kicked` set change nothing |
| I2c.CToFRoundTrip | weatherstation/i2cthread.c:69 | the Celsius-to-Fahrenheit conversion and its inverse undo each other |
| I2c.Word | weatherstation/i2cthread.c:109 | the 16-bit word of a register pair |
| I2c.WordRoundTrip | weatherstation/i2cthread.c:109 | splitting a word into bytes and joining them are inverse |
| I2c.Int16 | weatherstation/i2cthread.c:103-109 | the int16_t reading of a word lies in [-32768, 32768) |
| I2c.Int16RoundTrip | weatherstation/i2cthread.c:103-111 | the two's-complement reading of a word and its encoding are inverse |
| I2c.ReadAm2315 | weatherstation/i2cthread.c:37-70 | read_am2315 over the eight response bytes; Am2315RoundTrip, BadHeaderReading and Am2315Sign state its properties |
| I2c.Am2315Response | weatherstation/i2cthread.c:53-65 | the response a sensor sends has the valid header 3, 4 |
| I2c.Am2315RoundTrip | weatherstation/i2cthread.c:53-69 | decoding a sensor response gives back humidity / 10.1 and the signed temperature in tenths, in Fahrenheit |
| I2c.BadHeaderReading | weatherstation/i2cthread.c:53-69 | a bad header gives humidity -999 and temperature -1766.2, the sentinel converted to Fahrenheit |
| I2c.Am2315Sign | weatherstation/i2cthread.c:62-64 | the temperature is below freezing exactly when the sign bit is set and the magnitude is not 0 |
| I2c.C12Raw | weatherstation/i2cthread.c:112 | c12coeff is a 14-bit value |
| I2c.Coefficients | weatherstation/i2cthread.c:101-119 | read_mpl115a2_coef over the registers; CoefficientsRoundTrip and CoefficientRanges state its properties |
| I2c.CoefficientsRoundTrip | weatherstation/i2cthread.c:101-119 | the coefficients read back from their registers are a0/8, b1/8192, b2/16384 and c12/4194304 |
| I2c.CoefficientRanges | weatherstation/i2cthread.c:109-118 | c12 lies in [0, 16383/4194304] and a0 in [-4096, 4096) |
| I2c.Raw10 | weatherstation/i2cthread.c:85-86 | a register pair shifted right by 6 is a 10-bit value |
| I2c.Raw10RoundTrip | weatherstation/i2cthread.c:85-86 | any 10-bit value placed in the top bits of a register pair is read back, whatever the low six bits |
| I2c.ReadMpl115a2 | weatherstation/i2cthread.c:74-97 | read_mpl115a2: board temperature in °F and pressure in inHg from registers 0-3; WorkedExample states a concrete reading |
| I2c.PressureComp | weatherstation/i2cthread.c:88 | the compensated pressure from the coefficients and the raw values |
| I2c.Kpa | weatherstation/i2cthread.c:90 | kPa from the compensated pressure; KpaRange states its range |
| I2c.BoardCelsius | weatherstation/i2cthread.c:91 | °C from the raw temperature; BoardCelsiusFalls states its shape |
| I2c.KpaRange | weatherstation/i2cthread.c:90 | a compensated pressure in [0, 1023] gives 50 to 115 kPa |
| I2c.BoardCelsiusFalls | weatherstation/i2cthread.c:91 | a raw temperature of 498 is 25 °C, and the Celsius value falls as the raw value rises |
| I2c.WorkedExample | weatherstation/i2cthread.c:74-119 | a concrete register set gives its exact coefficients, raw values 410 and 507, and about 96.58 kPa at 23.3 °C |
| I2c.Step | weatherstation/i2cthread.c:170-204 | one pass of the loop; BadReadingCounted, NoPublishAtSixty and PublishesWithSamples state its properties |
| I2c.Run | weatherstation/i2cthread.c:166-207 | the passes up to the first that finds `kicked` set; MinuteAverage states what it publishes, I2cThread its link to the loop |
| I2c.I2cThread | weatherstation/i2cthread.c:134-212 | returns at once, storing nothing, when either device is missing; otherwise the loop publishes and stores what Run gives |
| I2c.BadReadingCounted | weatherstation/i2cthread.c:171-180 | a bad AM2315 reading is added to the sums, as -1766.2 and -999, and counted |
| I2c.NoPublishAtSixty | weatherstation/i2cthread.c:184 | at 60 seconds or less nothing is published; the pass only accumulates |
| I2c.MinuteAverage | weatherstation/i2cthread.c:168-204 | each publication is the mean of every reading since the last one, and is stored as four records |
| I2c.AccumulateFirst | weatherstation/i2cthread.c:170-180 | a pass within the minute only adds its reading to the sums |
| I2c.PublishesWithSamples | weatherstation/i2cthread.c:180-199 | a publication happens exactly after more than a minute and divides by a count that includes this pass |
| OneWire.GetTemperature | weatherstation/w1thread.c:38-82 | the result code is 0 to 3, and every failure code comes with the value -999 |
| OneWire.MilliText | weatherstation/w1thread.c:79 | the decimal text of a temperature has no newline, EOF byte or NUL |
| OneWire.YesLine | weatherstation/w1thread.c:59-61 | the first line as read holds "YES" from column 36; FirstLineYes and NoYesIsInvalid state its properties |
| OneWire.SecondLine | weatherstation/w1thread.c:68 | the C string the buffer holds after the second read_line; SecondLineRead states its property |
| OneWire.ParseT | weatherstation/w1thread.c:69-81 | the temperature after the first "t=" of the second line; ParseTOf and NoTNoFind state its properties |
| OneWire.GetTemperatureDecodes | weatherstation/w1thread.c:59-80 | a device file with "YES" at column 36 and "t=" followed by millidegrees decodes to code 0 and that temperature in Fahrenheit |
| OneWire.SlaveLines | weatherstation/w1thread.c:59-68 | the two read_line calls give the "YES" line and the data line of such a file |
| OneWire.FirstLineYes | weatherstation/w1thread.c:59-61 | a 39-character first line ending in "YES" passes the check at column 36 |
| OneWire.SecondLineRead | weatherstation/w1thread.c:68 | the second read_line gives the second line |
| OneWire.ParseTOf | weatherstation/w1thread.c:69-80 | text before "t=" without a 't' decodes to the temperature after it |
| OneWire.FindAfter | weatherstation/w1thread.c:69 | strstr finds "t=" right after text without a 't' |
| OneWire.AtofOfMilliText | weatherstation/w1thread.c:79 | atof reads back a temperature's decimal text |
| OneWire.PaddedTail | weatherstation/w1thread.c:61 | the C string at column k of a NUL-padded line is the rest of the line |
| OneWire.ProbeExample | weatherstation/w1thread.c:59-80 | "t=23562" reads as 74.4116 °F |
| OneWire.MissingInputs | weatherstation/w1thread.c:45-58 | no id gives code 3; no device file gives code 2 |
| OneWire.NoYesIsInvalid | weatherstation/w1thread.c:61-67 | a first line without "YES" at column 36 gives code 1 |
| OneWire.EmptyFileIsInvalid | weatherstation/w1thread.c:59-67 | an empty device file gives code 1 |
| OneWire.NoTIsInvalid | weatherstation/w1thread.c:69-76 | a "YES" first line followed by a data line without "t=" gives code 1 and -999 |
| OneWire.NoTLine | weatherstation/w1thread.c:68 | the second read_line of such a file gives a line without 't' |
| OneWire.NoTNoFind | weatherstation/w1thread.c:69-76 | a line without 't' holds no "t=" and gives code 1 and -999 |
| OneWire.W1Thread | weatherstation/w1thread.c:86-137 | with no id nothing is read or stored; otherwise the loop publishes and stores what Run gives |
| OneWire.Step | weatherstation/w1thread.c:105-128 | one pass: getTemperature, then Absorb on its result; DeviceGone, InvalidReadingSkipped and AbsorbPublishes state its properties |
| OneWire.Absorb | weatherstation/w1thread.c:110-128 | the averaging step on one reading; Pass, AbsorbPublishes and NoSampleNoPublication state its properties |
| OneWire.Run | weatherstation/w1thread.c:105-134 | the passes up to the device going or `kicked` set; RunEnds and MinuteAverage state its properties, W1Thread its link to the loop |
| OneWire.Pass | weatherstation/w1thread.c:110-128 | one pass that found the device updates the sum, count, clock and tempA as Absorb |
| OneWire.RunEnds | weatherstation/w1thread.c:105-134 | once the device is gone or `kicked` is set, later polls change nothing |
| OneWire.DeviceGone | weatherstation/w1thread.c:105-107 | a missing device file ends the loop with nothing stored and the state as it was |
| OneWire.InvalidReadingSkipped | weatherstation/w1thread.c:110-128 | a reading that fails its check is not counted: the state stays, or the earlier samples' mean is published |
| OneWire.NoTPassSkipped | weatherstation/w1thread.c:69-128 | a pass whose data line lacks "t=" is skipped like any invalid reading |
| OneWire.NoSampleNoPublication | weatherstation/w1thread.c:118 | nothing is published without a valid sample |
| OneWire.FirstValidPublishesAtOnce | weatherstation/w1thread.c:110-128 | with the clock starting at 0, the first valid reading after 60 s is published as it is |
| OneWire.MinuteAverage | weatherstation/w1thread.c:102-134 | each publication is the mean of the valid readings since the last one, invalid readings left out |
| OneWire.AveragedAfterFirst | weatherstation/w1thread.c:110-134 | with two or more passes, the first accumulates and the rest publish the mean of all valid readings |
| OneWire.LastPassPublishes | weatherstation/w1thread.c:110-128 | a pass past the minute with a sample publishes the mean including its own valid reading |
| OneWire.AbsorbPublishes | weatherstation/w1thread.c:118-128 | past the minute with at least one sample, the pass publishes the mean and restarts the sum |
| OneWire.AccumulateFirst | weatherstation/w1thread.c:110-114 | a pass within the minute only adds a valid reading to the sum |
| Supervisor.Kicked | weatherstation/main.c:50-69 | SIGHUP sets 1, SIGINT and SIGTERM set 2, any other signal (SIGPWR included) leaves the flag; the handler never clears a set flag and keeps it within 0..2 |
| Supervisor.After | weatherstation/main.c:50-69 | the flag after a series of signals, each through the handler; LastSignalWins, NoSignalKeepsFlag, ExitNeedsStopSignal and FlagStaysSet state its properties |
| Supervisor.FlagStaysSet | weatherstation/main.c:50-69 | signals keep the flag within 0..2, and once set it stays set whatever arrives, so only main clears it |
| Supervisor.LastSignalWins | weatherstation/main.c:50-69 | after a series of signals the flag is decided by the last one that changes it |
| Supervisor.NoSignalKeepsFlag | weatherstation/main.c:52-54 | signals that change nothing leave the flag as it was |
| Supervisor.ExitNeedsStopSignal | weatherstation/main.c:62-67 | the flag reaches 2 only through SIGINT or SIGTERM, or was 2 already |
| Supervisor.Level | weatherstation/main.c:157-166 | the level of the heartbeat pin after each tick; HeartbeatPeriod and Blink state its properties |
| Supervisor.Counter | weatherstation/main.c:155-166 | the 20-tick counter `i` of the wait; Blink states how it drives the pin |
| Supervisor.HeartbeatPeriod | weatherstation/main.c:153-166 | the LED blinks with a period of 20 ticks, and any 20 consecutive ticks hold exactly 10 lit ones |
| Supervisor.Blink | weatherstation/main.c:157-166 | the counter i is 0 exactly at the start of a period (pin high), 10 exactly half way (pin low), and counts down by one per tick |
| Supervisor.WaitFrom | weatherstation/main.c:154-167 | the wait ends between the given tick and the last signal |
| Supervisor.Ticks | weatherstation/main.c:154-167 | the wait takes at least one tick |
| Supervisor.WaitFromEnds | weatherstation/main.c:154-167 | the wait stops after the first tick that finds the flag set |
| Supervisor.WaitEnds | weatherstation/main.c:154-167 | the wait runs at least once, ends only after a tick that finds the flag set (or when the signals run out), and every earlier tick found it clear |
| Supervisor.SetFlagEndsWait | weatherstation/main.c:154-167 | a flag already set ends the wait after its first tick |
| Supervisor.ExitOnlyOnStop | weatherstation/main.c:139-180 | the supervisor leaves its loop only after a SIGINT or SIGTERM |
| Supervisor.HangupsRestart | weatherstation/main.c:170-180 | rounds that each end on a SIGHUP restart the threads once per round, clear the flag, and never exit |
| Supervisor.Supervision | weatherstation/main.c:139-180 | the rounds of the main loop: exit on 2, restart with the flag cleared on 1, still waiting when the signals run out; ExitOnlyOnStop and HangupsRestart state its properties |
| Supervisor.Foreground | weatherstation/main.c:82 | foreground exactly when argv[1] exists and strncmp(argv[1], "f", 1) is 0 |
| Supervisor.ForegroundExamples | weatherstation/main.c:82 | "f" and "foreground" run in the foreground; no argument, "" and "-f" run as a daemon |
| Supervisor.Station.SigHandler | weatherstation/main.c:50-69 | the handler sets the flag to Kicked of the signal and its old value |
| Supervisor.Station.WaitForKick | weatherstation/main.c:153-167 | the heartbeat loop takes Ticks ticks, leaves the flag the signals set, and the pin after tick t is lit exactly when t mod 20 < 10 |
| Supervisor.Station.Supervise | weatherstation/main.c:139-180 | the main loop starts the threads, waits, exits on 2 or clears the flag and restarts, as Supervision describes |

## Left out

- Threads, interrupts and their races. The interrupt handlers become a per-pass count of clicks or tips. The value of the shared `kicked` flag becomes a per-pass input.
- Thread start and join (`pthread_create`, `pthread_join`): a supervisor round starts and joins the threads abstractly.
- Hardware access: `wiringPiI2CSetup`, register reads, raw `read`/`write`, `wiringPiISR`, `digitalWrite` and sysfs paths. Register bytes, sensor responses and device-file contents are inputs; a register read error of -1 is not modelled.
- MySQL: connecting and querying are foreign I/O. Each query's outcome is an input to `Common.StoreToDB`, and `ConnectToDb` is only counted as a reconnect.
- Locking bugs: `ConnectToDb` returns while still holding lock 0 on failure (weatherstation/common.c:103-106). `StoreToDB` calls it while already holding lock 0 (weatherstation/common.c:126 and :135). A sequential model cannot show this.
- weatherstation/logfile.c and every `Log`/`LogDbg`/`printf` call: output only.
- Floating point: `float` and `double` are modelled as exact reals, so rounding and the single-precision intermediates of i2cthread.c are not reproduced.
- `sprintf` formatting ("%5.1f", "%f") of stored values: records carry the exact value.
- `atof` is modelled only for an optional '-' or '+' followed by decimal digits. Fractions, exponents and leading blanks are not modelled.
- C integer widths: `windCounter`, `rainCounter`, the `tot` of getAvg and `time_t` differences are unbounded integers, so their overflow is not modelled. Only the 16-bit sensor words are modelled with their width.
- `time`, `Sleep` and `delay` are not modelled: each pass's time is an input.
- `fork`, `setsid`, the PID file, `wiringPiSetup` and opening the log: process setup only.
- The `readConfig` glue in main.c:31-45 is not modelled; `Common.ReadConfigString` is.
- The MPL115A2 coefficients are a value passed to each step, where the C code keeps them in globals.
- Bit operations: `<<`, `|`, `>>` and `&` on registers are written as arithmetic on non-negative integers.
- Anemometer.GetAvg, Anemometer.GetAvgDouble: require sz ≥ 1. With sz = 0 the C code divides by zero in floating point, which reals cannot express. The thread calls them with 5 and 24 only.
- Anemometer.Step: uses the corrected guards `avgptr >= AVGSIZE` and `bvgptr >= BUFSIZE`. The guards as written are modelled on the cursors alone (`Anemometer.AsWrittenTick`), since their out-of-bounds writes have no meaning in the model.
- Common.ReadLine: models the minimal correction of read_line: the newline and EOF tests come first, and a character that arrives when the buffer is full is consumed and dropped, so the NUL stays inside the buffer. It agrees with the code as written (`Common.ReadLineAsWritten`) wherever that stays in bounds (`Common.CorrectionAgreesInBounds`). getTemperature and ReadConfigString use the corrected reader.
- Supervisor.Station.WaitForKick, Supervisor.Station.Supervise: the source waits forever. The model stops when a round's signals run out, and reports that round as still waiting.
- Supervisor.Foreground: requires argv to hold at least the program name. With argc = 0 the C code reads argv[1], which is NULL.

## Findings

| source | as written | input that shows it | evidently intended | confidence | as-written member | corrected member |
|---|---|---|---|---|---|---|
| weatherstation/anemometerthread.c:98 | `if (avgptr>AVGSIZE)` closes the 5-slot window only after avgptr reaches 6, so avgbuf[5] is written at :93, one past the array | thread start, six sampled seconds: the sixth writes avgbuf[5] | `avgptr>=AVGSIZE`: average every 5 seconds, writes within avgbuf | high; not executed | Anemometer.AsWrittenSixthSecondOverflows | Anemometer.Step |
| weatherstation/anemometerthread.c:111 | `if (bvgptr>BUFSIZE)` publishes only after bvgptr reaches 25, so bvgbuf[24] is written at :103, one past the array | 6·24 + 6 sampled seconds from thread start: the 25th speed goes to bvgbuf[24] | `bvgptr>=BUFSIZE`: publish after 24 speeds, writes within bvgbuf | high; not executed | Anemometer.AsWrittenSpeedBufferOverflows | Anemometer.Step |
| weatherstation/common.c:36 | `getc` runs before the `i<mx` test, so at i == mx a character is taken from the file and dropped, and `bp[i]` at :47 writes bp[mx], past the buffer | read_line(fp, bp, 2) on "abc\n": stores "ab", loses 'c', writes bp[2] | newline and EOF tests as written, then store only while i < mx-1; a character that arrives when the buffer is full is consumed and dropped, and the NUL stays inside the buffer | high; not executed | Common.ReadLineAsWrittenOverflows | Common.ReadLine |
