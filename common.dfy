/** The shared helpers of the weather station: the bounded line reader, the
    `key=value` configuration lookup and the retry policy of the store call. */
module Common {
  import opened CLib

  /** One value handed to the store call: StoreToDB(name, value). */
  datatype Record = Record(name: string, value: real)

  /** What getc gives back: a character, or the end of the file. */
  datatype Got = Char(c: char) | Eof

  /** read_line stops at a 0xFF byte as it does at the end of the file. */
  const EOF_BYTE: char := 'ÿ'

  /** An open file: its fixed contents and the position getc reads next. */
  class CharStream {
    const text: seq<char>
    var pos: nat

    ghost predicate Valid()
      reads this
    {
      pos <= |text|
    }

    /** What is still unread. */
    function Remaining(): seq<char>
      reads this
      requires Valid()
    {
      text[pos..]
    }

    constructor (text: seq<char>)
      ensures Valid() && this.text == text && pos == 0
    {
      this.text := text;
      pos := 0;
    }

    method Getc() returns (g: Got)
      requires Valid()
      modifies this
      ensures Valid()
      ensures old(pos) < |text| ==> g == Char(text[old(pos)]) && pos == old(pos) + 1
      ensures old(pos) == |text| ==> g == Eof && pos == old(pos)
    {
      if pos < |text| {
        g := Char(text[pos]);
        pos := pos + 1;
      } else {
        g := Eof;
      }
    }
  }

  /** The characters one read_line call stores, how many it takes from the file, and
      whether it stopped on the end of the file (or a 0xFF byte). */
  datatype Scan = Scan(line: seq<char>, consumed: nat, eof: bool)

  /** One read_line call as a whole: its return value, the characters it stored and
      how many characters it took from the file. */
  datatype LineRead = LineRead(result: int, line: seq<char>, consumed: nat)

  function Prepend(c: char, s: Scan): Scan
  {
    Scan([c] + s.line, s.consumed + 1, s.eof)
  }

  function Result(s: Scan): int
  {
    if s.eof && s.line == [] then -1 else |s.line|
  }

  // ---------------------------------------------------------------------------
  // read_line as written: getc runs before the `i<mx` test, so at i == mx one
  // more character is taken and dropped, and the terminator goes to bp[mx].

  /** The loop of common.c:36-46 as written, with `room` = mx - i. */
  function ScanAsWritten(input: seq<char>, room: nat): Scan
  {
    if input == [] then Scan([], 0, room > 0)
    else if input[0] == '\n' then Scan([], 1, false)
    else if room == 0 then Scan([], 1, false)
    else if input[0] == EOF_BYTE then Scan([], 1, true)
    else Prepend(input[0], ScanAsWritten(input[1..], room - 1))
  }

  /** read_line(fp, bp, mx) as written: what it returns, stores and takes, and the
      index of the NUL it writes last (common.c:47). */
  function ReadLineAsWritten(input: seq<char>, mx: nat): (r: (LineRead, int))
  {
    var s := ScanAsWritten(input, mx);
    (LineRead(Result(s), s.line, s.consumed), |s.line|)
  }

  /** With mx = 2 and the line "abc": "ab" is stored, 'c' is taken from the file and
      stored nowhere, and the terminator is written to bp[2], one past the buffer. */
  lemma ReadLineAsWrittenOverflows()
    ensures var (r, nulAt) := ReadLineAsWritten("abc\nrest", 2);
      r.line == "ab" && r.consumed == 3 && nulAt == 2
  {
  }

  // ---------------------------------------------------------------------------
  // read_line as intended: the newline and end-of-file tests come first, as in the
  // source, and a character is stored only while fewer than mx - 1 are, so the
  // terminator fits in the mx-byte buffer.  Wherever the loop as written stays
  // inside the buffer the two agree (CorrectionAgreesInBounds).

  /** The corrected loop, with `room` = mx - 1 - i.  A character that arrives when the
      buffer is full is taken from the file and not stored, as in the source. */
  function ScanLine(input: seq<char>, room: nat): (s: Scan)
    ensures |s.line| <= room && s.consumed <= |input|
  {
    if input == [] then Scan([], 0, true)
    else if input[0] == '\n' then Scan([], 1, false)
    else if input[0] == EOF_BYTE then Scan([], 1, true)
    else if room == 0 then Scan([], 1, false)
    else Prepend(input[0], ScanLine(input[1..], room - 1))
  }

  /** The corrected loop stores a prefix of the input that fits `room` and holds no
      line end, takes one more character unless the input ran out, and stops on a
      newline, a 0xFF byte, the end of the input or a full buffer. */
  lemma {:induction false} ScanLineFacts(input: seq<char>, room: nat)
    ensures var s := ScanLine(input, room);
      && |s.line| <= room && |s.line| <= |input| && s.line == input[..|s.line|]
      && '\n' !in s.line && EOF_BYTE !in s.line
      && s.consumed == (if |s.line| == |input| then |s.line| else |s.line| + 1)
      && (|s.line| < |input| ==> input[|s.line|] == '\n' || input[|s.line|] == EOF_BYTE || |s.line| == room)
      && (s.eof <==> (|s.line| == |input| || input[|s.line|] == EOF_BYTE))
  {
    if room > 0 && input != [] && input[0] != '\n' && input[0] != EOF_BYTE {
      ScanLineFacts(input[1..], room - 1);
      var rest := ScanLine(input[1..], room - 1);
      assert input[..|rest.line| + 1] == [input[0]] + input[1..][..|rest.line|];
    }
  }

  /** Where the loop as written writes its terminator inside the buffer, the corrected
      loop stores, takes and reports exactly what it does. */
  lemma {:induction false} ScanAgrees(input: seq<char>, room: nat)
    requires |ScanAsWritten(input, room + 1).line| < room + 1
    ensures ScanLine(input, room) == ScanAsWritten(input, room + 1)
  {
    if input != [] && input[0] != '\n' && input[0] != EOF_BYTE && room > 0 {
      ScanAgrees(input[1..], room - 1);
    }
  }

  /** The correction changes nothing that the source does in bounds: whenever
      read_line as written puts its terminator inside bp[0..mx), the corrected
      read_line returns, stores and takes the same. */
  lemma CorrectionAgreesInBounds(input: seq<char>, mx: nat)
    requires mx >= 1 && ReadLineAsWritten(input, mx).1 < mx
    ensures LineOf(input, mx) == ReadLineAsWritten(input, mx).0
  {
    ScanAgrees(input, mx - 1);
  }

  /** read_line(fp, bp, mx) as intended (common.c:31-48): it stores the characters up
      to the newline, at most mx - 1 of them, and takes from the file what it stores
      plus the character that stopped it.  It returns -1 only when the file ends
      before any character is stored. */
  function LineOf(input: seq<char>, mx: int): (r: LineRead)
    requires mx >= 1
    ensures |r.line| < mx && |r.line| <= |input| && r.line == input[..|r.line|]
    ensures '\n' !in r.line && EOF_BYTE !in r.line
    ensures r.consumed == if |r.line| == |input| then |r.line| else |r.line| + 1
    ensures |r.line| < |input| ==> input[|r.line|] == '\n' || input[|r.line|] == EOF_BYTE || |r.line| == mx - 1
    ensures r.result == -1 <==> r.line == [] && (input == [] || input[0] == EOF_BYTE)
    ensures r.result != -1 ==> r.result == |r.line|
    ensures r.result >= 0 ==> r.consumed >= 1
  {
    ScanLineFacts(input, mx - 1);
    var s := ScanLine(input, mx - 1);
    LineRead(Result(s), s.line, s.consumed)
  }

  /** A line of at most mx - 1 characters followed by a newline is read whole, and
      the newline is taken with it. */
  lemma {:induction false} LineOfWholeLine(line: seq<char>, rest: seq<char>, mx: int)
    requires |line| < mx
    requires '\n' !in line && EOF_BYTE !in line
    ensures LineOf(line + ['\n'] + rest, mx) == LineRead(|line|, line, |line| + 1)
  {
    ScanLineWhole(line, rest, mx - 1);
  }

  lemma {:induction false} ScanLineWhole(line: seq<char>, rest: seq<char>, room: nat)
    requires |line| <= room
    requires '\n' !in line && EOF_BYTE !in line
    ensures ScanLine(line + ['\n'] + rest, room) == Scan(line, |line| + 1, false)
  {
    if line != [] {
      assert (line + ['\n'] + rest)[1..] == line[1..] + ['\n'] + rest;
      ScanLineWhole(line[1..], rest, room - 1);
    } else {
      assert (line + ['\n'] + rest)[0] == '\n';
    }
  }

  /** read_line (common.c:31-48): zero-fills bp[0..mx), stores the characters of the
      next line, and returns how many it stored, or -1 at the end of the file. */
  method ReadLine(fp: CharStream, bp: array<char>, mx: int) returns (n: int)
    requires fp.Valid() && 1 <= mx <= bp.Length
    modifies fp, bp
    ensures fp.Valid()
    ensures n == Result(ScanLine(old(fp.Remaining()), mx - 1))
    ensures fp.pos == old(fp.pos) + ScanLine(old(fp.Remaining()), mx - 1).consumed
    ensures bp[..mx] == Padded(ScanLine(old(fp.Remaining()), mx - 1).line, mx)
    ensures bp[mx..] == old(bp[mx..])
  {
    ghost var input := fp.Remaining();
    ghost var target := ScanLine(input, mx - 1);
    Memset(bp, mx);
    var i := 0;
    while true
      invariant fp.Valid()
      invariant 0 <= i <= mx - 1 && i <= |input|
      invariant fp.pos == old(fp.pos) + i && fp.Remaining() == input[i..]
      invariant bp[..mx] == Padded(input[..i], mx)
      invariant bp[mx..] == old(bp[mx..])
      invariant target == Shift(input[..i], ScanLine(input[i..], mx - 1 - i))
      decreases |input| - i
    {
      ghost var rest := input[i..];
      var g := fp.Getc();
      if g == Char('\n') {
        assert ScanLine(rest, mx - 1 - i) == Scan([], 1, false);
        break;
      }
      if g == Eof || g.c == EOF_BYTE {
        assert ScanLine(rest, mx - 1 - i) == Scan([], if g == Eof then 0 else 1, true);
        if i > 0 {
          break;
        } else {
          return -1;
        }
      }
      if i == mx - 1 {
        assert ScanLine(rest, 0) == Scan([], 1, false);
        break;
      }
      Store(bp, i, g.c, mx, input);
      assert rest[1..] == input[i + 1..];
      ShiftPrepend(input, i, ScanLine(input[i + 1..], mx - 2 - i));
      i := i + 1;
    }
    assert target.line == input[..i] && target.consumed == fp.pos - old(fp.pos);
    bp[i] := NUL;
    n := i;
  }

  /** A buffer of `mx` characters holding `line` and then NULs. */
  function Padded(line: seq<char>, mx: int): seq<char>
    requires |line| <= mx
  {
    line + Zeros(mx - |line|)
  }

  /** bp[i] = c, extending the stored prefix of `input` by one character. */
  method Store(bp: array<char>, i: nat, c: char, mx: int, ghost input: seq<char>)
    requires i < |input| && i < mx <= bp.Length && c == input[i] && bp[..mx] == Padded(input[..i], mx)
    modifies bp
    ensures bp[..mx] == Padded(input[..i + 1], mx) && bp[mx..] == old(bp[mx..])
  {
    bp[i] := c;
    assert bp[..mx] == old(bp[..mx])[i := c];
  }

  /** The scan of the whole input, once `pre` has been stored. */
  function Shift(pre: seq<char>, s: Scan): Scan
  {
    Scan(pre + s.line, |pre| + s.consumed, s.eof)
  }

  lemma ShiftPrepend(input: seq<char>, i: nat, s: Scan)
    requires i < |input|
    ensures Shift(input[..i], Prepend(input[i], s)) == Shift(input[..i + 1], s)
  {
    assert input[..i] + ([input[i]] + s.line) == input[..i + 1] + s.line;
  }

  // ---------------------------------------------------------------------------
  // ReadConfigString

  /** The line buffer of ReadConfigString: char line[100]. */
  const CONFIG_LINE := 100

  predicate IsComment(s: seq<char>)
  {
    |s| > 0 && (s[0] == ';' || s[0] == '#')
  }

  /** What one line of a configuration file says about `key` (common.c:72-80): nothing
      for a comment line, a line without '=' or a line naming another key; otherwise
      the text after the first '='. */
  function LineSetting(s: seq<char>, key: seq<char>): Option<seq<char>>
  {
    if IsComment(s) then None
    else match IndexOf(s, '=')
      case None => None
      case Some(p) => if s[..p] == key then Some(s[p + 1..]) else None
  }

  /** The value the first `key=value` line of a configuration file gives for `key`
      (common.c:69-87), reading the file line by line as ReadConfigString does. */
  function ConfigLookup(input: seq<char>, key: seq<char>): Option<seq<char>>
    decreases |input|
  {
    var l := LineOf(input, CONFIG_LINE);
    if l.result < 0 then None
    else match LineSetting(CString(l.line), key)
      case Some(v) => Some(v)
      case None => ConfigLookup(input[l.consumed..], key)
  }

  lemma ConfigLookupUnfold(input: seq<char>, key: seq<char>)
    requires LineOf(input, CONFIG_LINE).result >= 0
    ensures var l := LineOf(input, CONFIG_LINE);
      var setting := LineSetting(CString(l.line), key);
      ConfigLookup(input, key) == if setting.Some? then setting else ConfigLookup(input[l.consumed..], key)
  {
  }

  /** One step of the lookup as ReadConfigString takes it: `buf` is the line buffer
      after read_line has stored the first line of `input` in it. */
  lemma NextConfigLine(input: seq<char>, buf: seq<char>, key: seq<char>)
    requires Result(ScanLine(input, CONFIG_LINE - 1)) >= 0
    requires buf == Padded(ScanLine(input, CONFIG_LINE - 1).line, CONFIG_LINE)
    ensures var setting := LineSetting(CString(buf), key);
      ConfigLookup(input, key) ==
        if setting.Some? then setting else ConfigLookup(input[ScanLine(input, CONFIG_LINE - 1).consumed..], key)
  {
    var s := ScanLine(input, CONFIG_LINE - 1);
    PaddedReadsBack(s.line, CONFIG_LINE);
    ConfigLookupScan(input, key);
  }

  lemma PaddedReadsBack(line: seq<char>, mx: int)
    requires |line| <= mx
    ensures CString(Padded(line, mx)) == CString(line)
  {
    CStringPadded(line, mx - |line|);
  }

  /** ConfigLookup's first step, in terms of the scan read_line makes. */
  lemma ConfigLookupScan(input: seq<char>, key: seq<char>)
    requires Result(ScanLine(input, CONFIG_LINE - 1)) >= 0
    ensures var s := ScanLine(input, CONFIG_LINE - 1);
      var setting := LineSetting(CString(s.line), key);
      ConfigLookup(input, key) == if setting.Some? then setting else ConfigLookup(input[s.consumed..], key)
  {
    var l := LineOf(input, CONFIG_LINE);
    assert l.line == ScanLine(input, CONFIG_LINE - 1).line && l.consumed == ScanLine(input, CONFIG_LINE - 1).consumed;
    ConfigLookupUnfold(input, key);
  }

  /** A line that fits the buffer, stored as it would be read back. */
  predicate PlainLine(line: seq<char>)
  {
    |line| + 1 < CONFIG_LINE && '\n' !in line && EOF_BYTE !in line && NUL !in line
  }

  /** The first line `key=value` decides the lookup of `key`, whatever follows. */
  lemma FirstMatchWins(key: seq<char>, value: seq<char>, rest: seq<char>)
    requires PlainLine(key + ['='] + value) && '=' !in key && !IsComment(key)
    ensures ConfigLookup(key + ['='] + value + ['\n'] + rest, key) == Some(value)
  {
    var line := key + ['='] + value;
    LineOfWholeLine(line, rest, CONFIG_LINE);
    assert CString(line) == line;
    KeyValueSetting(key, value);
    ConfigLookupUnfold(line + ['\n'] + rest, key);
  }

  /** The line `key=value` sets `key` to `value`. */
  lemma KeyValueSetting(key: seq<char>, value: seq<char>)
    requires '=' !in key && !IsComment(key)
    ensures LineSetting(key + ['='] + value, key) == Some(value)
  {
    var line := key + ['='] + value;
    assert line[|key|] == '=' && line[..|key|] == key && line[|key| + 1..] == value;
    assert line[0] == if key == [] then '=' else key[0];
  }

  /** A line that does not name `key` (a comment, a line without '=', or another
      key) is passed over. */
  lemma {:induction false} OtherLineSkipped(line: seq<char>, key: seq<char>, rest: seq<char>)
    requires PlainLine(line) && NUL !in key
    requires IsComment(line) || '=' !in line || (var p := IndexOf(line, '=').value; line[..p] != key)
    ensures ConfigLookup(line + ['\n'] + rest, key) == ConfigLookup(rest, key)
  {
    LineOfWholeLine(line, rest, CONFIG_LINE);
    assert CString(line) == line;
    assert (line + ['\n'] + rest)[|line| + 1..] == rest;
  }

  /** An empty or unreadable remainder gives no value. */
  lemma EmptyConfigHasNothing(key: seq<char>)
    ensures ConfigLookup([], key) == None
  {
  }

  /** ReadConfigString(var, defaultVal, out, sz, file) (common.c:53-93): `file` is the
      file's contents, or None when fopen fails; then out is untouched and the result
      is 1.  Otherwise out[0..sz) gets strncpy of the first matching value (result 1)
      or of the default (result 0). */
  method ReadConfigString(key: seq<char>, defaultVal: seq<char>, out: array<char>, sz: int,
                          file: Option<seq<char>>) returns (r: int)
    requires NUL !in key
    requires 0 <= sz <= out.Length
    modifies out
    ensures file.None? ==> r == 1 && out[..] == old(out[..])
    ensures file.Some? ==> match ConfigLookup(file.value, key)
      case Some(v) => r == 1 && out[..sz] == Strncpy(v, sz)
      case None => r == 0 && out[..sz] == Strncpy(defaultVal, sz)
    ensures out[sz..] == old(out[sz..])
  {
    if file.None? {
      return 1;
    }
    var f := new CharStream(file.value);
    var line := new char[CONFIG_LINE];
    while true
      invariant f.Valid() && f.text == file.value && fresh(f) && fresh(line)
      invariant line.Length == CONFIG_LINE
      invariant ConfigLookup(file.value, key) == ConfigLookup(f.Remaining(), key)
      invariant out[..] == old(out[..])
      decreases |f.text| - f.pos
    {
      var n, setting := NextSetting(f, line, key);
      if n < 0 {
        break;
      }
      if setting.Some? {
        CopyString(out, setting.value, sz);
        return 1;
      }
    }
    CopyString(out, defaultVal, sz);
    return 0;
  }

  /** One pass of ReadConfigString's loop (common.c:69-80): read_line into `line`,
      then the tests on the line read; the lookup of the text before the pass is the
      setting found, or else the lookup of the text after it. */
  method NextSetting(f: CharStream, line: array<char>, key: seq<char>) returns (n: int, setting: Option<seq<char>>)
    requires f.Valid() && line.Length == CONFIG_LINE
    modifies f, line
    ensures f.Valid()
    ensures n < 0 ==> ConfigLookup(old(f.Remaining()), key) == None
    ensures n >= 0 ==> f.pos > old(f.pos)
    ensures n >= 0 ==>
      ConfigLookup(old(f.Remaining()), key) == if setting.Some? then setting else ConfigLookup(f.Remaining(), key)
  {
    ghost var before := f.Remaining();
    n := ReadLine(f, line, CONFIG_LINE);
    if n < 0 {
      assert LineOf(before, CONFIG_LINE).result < 0;
      return n, None;
    }
    assert LineOf(before, CONFIG_LINE).consumed == ScanLine(before, CONFIG_LINE - 1).consumed >= 1;
    assert f.Remaining() == before[ScanLine(before, CONFIG_LINE - 1).consumed..];
    assert line[..] == line[..CONFIG_LINE];
    NextConfigLine(before, line[..], key);
    setting := ParseSetting(line, key);
  }

  /** The tests ReadConfigString applies to one line it has read (common.c:72-79). */
  method ParseSetting(line: array<char>, key: seq<char>) returns (setting: Option<seq<char>>)
    requires line.Length > 0
    ensures setting == LineSetting(CString(line[..]), key)
  {
    var s := CString(line[..]);
    if line[0] == ';' || line[0] == '#' {
      return None;
    }
    var p := IndexOf(s, '=');
    if p.None? {
      return None;
    }
    if s[..p.value] == key {
      return Some(s[p.value + 1..]);
    }
    return None;
  }

  // ---------------------------------------------------------------------------
  // StoreToDB

  /** StoreToDB tries a query at most this many times. */
  const MAX_TRIES := 5

  /** What mysql_query and then mysql_errno report for one attempt. */
  datatype QueryResult = QueryResult(status: int, errno: int)

  /** The failure test of common.c:131: the query failed AND an error number is set. */
  predicate QueryFailed(q: QueryResult)
  {
    q.status != 0 && q.errno != 0
  }

  /** The retry loop of StoreToDB (common.c:118-145).  `connected` is conn != NULL and
      results[k] is what attempt k reports.  It makes no attempt without a connection;
      otherwise it stops at the first success or after MAX_TRIES attempts, and
      reconnects after every failed one. */
  method StoreToDB(connected: bool, results: seq<QueryResult>) returns (attempts: nat, reconnects: nat, stored: bool)
    requires |results| >= MAX_TRIES
    ensures !connected ==> attempts == 0 && reconnects == 0 && !stored
    ensures connected ==> 1 <= attempts <= MAX_TRIES
    ensures forall k :: 0 <= k < attempts - 1 ==> QueryFailed(results[k])
    ensures stored <==> attempts >= 1 && !QueryFailed(results[attempts - 1])
    ensures connected && !stored ==> attempts == MAX_TRIES
    ensures reconnects == if stored then attempts - 1 else attempts
  {
    attempts, reconnects, stored := 0, 0, false;
    if connected {
      var cnt := 0;
      while cnt < MAX_TRIES
        invariant (cnt == attempts <= MAX_TRIES && !stored) || (cnt == 1000 && stored)
        invariant 0 <= attempts <= MAX_TRIES
        invariant forall k :: 0 <= k < attempts - 1 ==> QueryFailed(results[k])
        invariant !stored ==> forall k :: 0 <= k < attempts ==> QueryFailed(results[k])
        invariant stored ==> attempts >= 1 && !QueryFailed(results[attempts - 1])
        invariant reconnects == if stored then attempts - 1 else attempts
      {
        var q := results[attempts];
        attempts := attempts + 1;
        if QueryFailed(q) {
          // ConnectToDb()
          reconnects := reconnects + 1;
        } else {
          stored := true;
          cnt := 999;
        }
        cnt := cnt + 1;
      }
    }
  }
}
