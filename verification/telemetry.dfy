/**
  The two lines the LED firmware sends over the UART for each reading: a
  JSON object and a human-readable line, each formatted into a 128-byte
  buffer and then pushed out byte by byte.

  A line is a template: literal pieces with a field between each pair. The
  fields are the temperature and humidity texts (`%.2f`, left abstract)
  and the uptime in milliseconds (`%lld`). Each character stands for one
  byte; the degree sign is the two bytes C2 B0.
 */
module Telemetry {
  import opened Options
  import opened Decimal

  /** The size of the formatting buffer, terminating NUL included. */
  const BufferSize: nat := 128

  const JsonTemplate: seq<string> := [
    "{\"temperature\":", ",\"humidity\":", ",\"timestamp\":", "}\r\n"
  ]

  const HumanTemplate: seq<string> := [
    "TEMP: ", "\U{C2}\U{B0}C, HUMID: ", "%, TIME: ", "ms\r\n"
  ]

  /** The literal pieces with the fields put between them, in order. */
  function Render(lits: seq<string>, fields: seq<string>): (line: string)
    requires |lits| == |fields| + 1
    ensures lits[0] <= line
    decreases |fields|
  {
    if |fields| == 0 then lits[0] else lits[0] + fields[0] + Render(lits[1..], fields[1..])
  }

  /** The longest prefix of `s` free of `stop`. */
  function UpTo(s: string, stop: char): (f: string)
    ensures f <= s && stop !in f
    ensures |f| < |s| ==> s[|f|] == stop
  {
    if |s| == 0 || s[0] == stop then [] else [s[0]] + UpTo(s[1..], stop)
  }

  /** The fields can be told apart from the text around them: each literal
      after the first is non-empty, and no field holds the first character
      of the literal that follows it. */
  predicate Separable(lits: seq<string>, fields: seq<string>)
    requires |lits| == |fields| + 1
  {
    forall i :: 0 <= i < |fields| ==> Delimits(lits[i + 1], fields[i])
  }

  /** `lit` is non-empty and its first character does not occur in `field`. */
  predicate Delimits(lit: string, field: string) {
    |lit| > 0 && lit[0] !in field
  }

  /** The reference reader of a rendered line: match each literal, and take
      as the field everything up to the first character of the next one. */
  function Parse(lits: seq<string>, line: string): Option<seq<string>>
    requires |lits| >= 1
    decreases |lits|
  {
    if |lits| == 1 then (if line == lits[0] then Some([]) else None)
    else if !(lits[0] <= line) || |lits[1]| == 0 then None
    else
      var rest := line[|lits[0]|..];
      var field := UpTo(rest, lits[1][0]);
      match Parse(lits[1..], rest[|field|..])
      case None => None
      case Some(fs) => Some([field] + fs)
  }

  lemma {:induction false} UpToStops(f: string, r: string, stop: char)
    requires stop !in f && |r| > 0 && r[0] == stop
    ensures UpTo(f + r, stop) == f
    decreases |f|
  {
    if |f| > 0 {
      assert (f + r)[1..] == f[1..] + r;
      UpToStops(f[1..], r, stop);
      assert f == [f[0]] + f[1..];
    }
  }

  /** Reading a rendered line gives back its fields. */
  lemma {:induction false} ParseRender(lits: seq<string>, fields: seq<string>)
    requires |lits| == |fields| + 1 && Separable(lits, fields)
    ensures Parse(lits, Render(lits, fields)) == Some(fields)
    decreases |fields|
  {
    if |fields| > 0 {
      var line := Render(lits, fields);
      var tail := Render(lits[1..], fields[1..]);
      assert line == lits[0] + (fields[0] + tail);
      var rest := line[|lits[0]|..];
      assert rest == fields[0] + tail;
      assert Delimits(lits[1], fields[0]);
      assert tail[0] == lits[1][0] by {
        assert lits[1..][0] == lits[1];
      }
      UpToStops(fields[0], tail, lits[1][0]);
      assert rest[|fields[0]|..] == tail;
      assert Separable(lits[1..], fields[1..]) by {
        forall i | 0 <= i < |fields[1..]|
          ensures Delimits(lits[1..][i + 1], fields[1..][i])
        {
          assert lits[1..][i + 1] == lits[i + 2] && fields[1..][i] == fields[i + 1];
          assert Delimits(lits[i + 2], fields[i + 1]);
        }
      }
      ParseRender(lits[1..], fields[1..]);
      assert [fields[0]] + fields[1..] == fields;
    }
  }

  /** Whatever the reader accepts is a rendering, of exactly the fields it
      read: the template admits one reading per line. */
  lemma {:induction false} RenderParse(lits: seq<string>, line: string)
    requires |lits| >= 1 && Parse(lits, line).Some?
    ensures |Parse(lits, line).value| == |lits| - 1
    ensures Render(lits, Parse(lits, line).value) == line
    decreases |lits|
  {
    if |lits| > 1 {
      assert lits[0] <= line && |lits[1]| > 0;
      var rest := line[|lits[0]|..];
      assert line == lits[0] + rest;
      var field := UpTo(rest, lits[1][0]);
      var after := rest[|field|..];
      assert rest == field + after;
      assert Parse(lits[1..], after).Some?;
      var fs := Parse(lits[1..], after).value;
      RenderParse(lits[1..], after);
      var all := [field] + fs;
      assert Parse(lits, line).value == all;
      assert all[0] == field && all[1..] == fs;
      assert Render(lits, all) == lits[0] + field + Render(lits[1..], fs);
      assert Render(lits, all) == lits[0] + (field + after);
    }
  }

  /** The characters a number is printed with. */
  const NumberChars: string := "-.0123456789"

  predicate NumberText(s: string) {
    forall i :: 0 <= i < |s| ==> s[i] in NumberChars
  }

  /** The text `%.2f` gives a reading in sensor range: at most six number
      characters ("-50.00" to "150.00"). */
  predicate ReadingText(s: string) {
    |s| <= 6 && NumberText(s)
  }

  lemma IntTextIsNumber(v: int)
    ensures NumberText(IntText(v))
  {
    var s := IntText(v);
    IntTextRoundTrip(v);
    forall i | 0 <= i < |s| ensures s[i] in NumberChars {
      if i > 0 || s[0] != '-' {
        assert IsDigit(s[i]) by {
          if s[0] == '-' {
            assert s[i] == s[1..][i - 1];
          }
        }
      }
    }
  }

  /** Number fields are told apart by any template whose inner literals
      each start with a character that is not a number character. */
  lemma {:induction false} NumberFieldsSeparable(lits: seq<string>, fields: seq<string>)
    requires |lits| == |fields| + 1
    requires forall i :: 0 <= i < |fields| ==> NumberText(fields[i])
    requires forall i :: 1 <= i < |lits| ==> |lits[i]| > 0 && lits[i][0] !in NumberChars
    ensures Separable(lits, fields)
  {
    forall i | 0 <= i < |fields| ensures Delimits(lits[i + 1], fields[i]) {
      var c := lits[i + 1][0];
      assert c !in NumberChars;
      assert forall j :: 0 <= j < |fields[i]| ==> fields[i][j] != c;
    }
  }

  function JsonLine(temperature: string, humidity: string, uptime: int): string {
    Render(JsonTemplate, [temperature, humidity, IntText(uptime)])
  }

  function HumanLine(temperature: string, humidity: string, uptime: int): string {
    Render(HumanTemplate, [temperature, humidity, IntText(uptime)])
  }

  /** What `snprintf` leaves in the buffer: as much of the line as fits
      in front of the terminating NUL, then the NUL. The bytes after the
      NUL are never written and are not modelled. */
  function Formatted(line: string): (buffer: string)
    ensures 1 <= |buffer| <= BufferSize && buffer[|buffer| - 1] == '\0'
    ensures buffer[..|buffer| - 1] <= line
    ensures |line| < BufferSize <==> buffer[..|buffer| - 1] == line
    ensures |line| >= BufferSize ==> |buffer| == BufferSize
  {
    var kept := if |line| < BufferSize then |line| else BufferSize - 1;
    line[..kept] + "\0"
  }

  /** What the send loop pushes out: `buffer[i]` for every `i` below the
      length `snprintf` returned, which is the length of the whole line.
      `Overrun` marks a loop that reads past the written bytes, which
      happens only past the end of the 128-byte array. */
  datatype Transmission = Transmitted(bytes: string) | Overrun(len: nat)

  function Transmit(line: string): (t: Transmission)
    ensures t.Transmitted? <==> |line| <= BufferSize
    ensures |line| < BufferSize ==> t == Transmitted(line)
    ensures |line| == BufferSize ==> t == Transmitted(line[..BufferSize - 1] + "\0")
  {
    var buffer := Formatted(line);
    if |line| <= |buffer| then Transmitted(buffer[..|line|]) else Overrun(|line|)
  }

  /** The line goes out exactly as formatted only when it is shorter than
      the buffer, or when a 128-byte line happens to end in a NUL byte: a
      128-byte line otherwise loses its last byte to the terminator. */
  lemma SentWholeIff(line: string)
    ensures Transmit(line) == Transmitted(line)
        <==> |line| < BufferSize || (|line| == BufferSize && line[BufferSize - 1] == '\0')
  {
    if |line| == BufferSize {
      if line[BufferSize - 1] == '\0' {
        assert line == line[..BufferSize - 1] + "\0";
      } else {
        assert (line[..BufferSize - 1] + "\0")[BufferSize - 1] != line[BufferSize - 1];
      }
    }
  }

  /** How long a rendered line is: the literals plus the fields. */
  lemma {:induction false} RenderLength(lits: seq<string>, fields: seq<string>)
    requires |lits| == |fields| + 1
    ensures |Render(lits, fields)| == LengthSum(lits) + LengthSum(fields)
    decreases |fields|
  {
    if |fields| > 0 {
      RenderLength(lits[1..], fields[1..]);
    }
  }

  function LengthSum(s: seq<string>): nat {
    if |s| == 0 then 0 else |s[0]| + LengthSum(s[1..])
  }

  lemma LengthSumOfThree(s: seq<string>)
    requires |s| == 3
    ensures LengthSum(s) == |s[0]| + |s[1]| + |s[2]|
  {
    assert s[1..][1..][1..] == [];
    assert LengthSum(s[1..][1..]) == |s[2]|;
  }

  lemma LengthSumOfFour(s: seq<string>)
    requires |s| == 4
    ensures LengthSum(s) == |s[0]| + |s[1]| + |s[2]| + |s[3]|
  {
    LengthSumOfThree(s[1..]);
  }

  /** A template's line for three number fields: the fields read back in
      order, the length is the literals' plus the fields', and the line
      ends with the last literal. */
  lemma {:induction false} NumberLine(lits: seq<string>, fields: seq<string>)
    requires |lits| == 4 && |fields| == 3
    requires forall i :: 0 <= i < 3 ==> NumberText(fields[i])
    requires forall i :: 1 <= i < 4 ==> |lits[i]| > 0 && lits[i][0] !in NumberChars
    ensures Parse(lits, Render(lits, fields)) == Some(fields)
    ensures |Render(lits, fields)| == LengthSum(lits) + |fields[0]| + |fields[1]| + |fields[2]|
    ensures var line := Render(lits, fields);
      |lits[3]| <= |line| && line[|line| - |lits[3]|..] == lits[3]
    ensures var line := Render(lits, fields);
      |lits[3]| >= 2 ==> line[|line| - 2..] == lits[3][|lits[3]| - 2..]
  {
    NumberFieldsSeparable(lits, fields);
    ParseRender(lits, fields);
    RenderLength(lits, fields);
    LengthSumOfThree(fields);
    EndsWithLastLiteral(lits, fields);
  }

  /** The literals of the JSON line: 43 bytes, each inner one starting
      with a character no number holds, the last ending in CR LF. */
  lemma JsonTemplateShape()
    ensures LengthSum(JsonTemplate) == 43
    ensures forall i :: 1 <= i < 4 ==> |JsonTemplate[i]| > 0 && JsonTemplate[i][0] !in NumberChars
    ensures |JsonTemplate[3]| >= 2 && JsonTemplate[3][|JsonTemplate[3]| - 2..] == "\r\n"
  {
    LengthSumOfFour(JsonTemplate);
    assert JsonTemplate[1][0] == ',' && JsonTemplate[2][0] == ',' && JsonTemplate[3][0] == '}';
    assert JsonTemplate[3][1..] == "\r\n";
  }

  /** The literals of the human-readable line: 31 bytes, likewise. */
  lemma HumanTemplateShape()
    ensures LengthSum(HumanTemplate) == 31
    ensures forall i :: 1 <= i < 4 ==> |HumanTemplate[i]| > 0 && HumanTemplate[i][0] !in NumberChars
    ensures |HumanTemplate[3]| >= 2 && HumanTemplate[3][|HumanTemplate[3]| - 2..] == "\r\n"
  {
    LengthSumOfFour(HumanTemplate);
    assert HumanTemplate[1][0] == '\U{C2}' && HumanTemplate[2][0] == '%' && HumanTemplate[3][0] == 'm';
    assert HumanTemplate[3][2..] == "\r\n";
  }

  /** The JSON line for a reading in range: the fields in the order
      temperature, humidity, timestamp, each read back from the line; the
      line ends in CR LF and fits the buffer, so it goes out whole. */
  lemma JsonLineSent(temperature: string, humidity: string, uptime: int)
    requires ReadingText(temperature) && ReadingText(humidity) && Int64(uptime)
    ensures var line := JsonLine(temperature, humidity, uptime);
      && Parse(JsonTemplate, line) == Some([temperature, humidity, IntText(uptime)])
      && |line| <= 43 + 6 + 6 + 20
      && line[|line| - 2..] == "\r\n"
      && Transmit(line) == Transmitted(line)
  {
    IntTextIsNumber(uptime);
    Int64TextLength(uptime);
    JsonTemplateShape();
    NumberLine(JsonTemplate, [temperature, humidity, IntText(uptime)]);
  }

  /** The human-readable line, likewise: fields in order, CR LF at the end,
      and short enough to go out whole. */
  lemma HumanLineSent(temperature: string, humidity: string, uptime: int)
    requires ReadingText(temperature) && ReadingText(humidity) && Int64(uptime)
    ensures var line := HumanLine(temperature, humidity, uptime);
      && Parse(HumanTemplate, line) == Some([temperature, humidity, IntText(uptime)])
      && |line| <= 31 + 6 + 6 + 20
      && line[|line| - 2..] == "\r\n"
      && Transmit(line) == Transmitted(line)
  {
    IntTextIsNumber(uptime);
    Int64TextLength(uptime);
    HumanTemplateShape();
    NumberLine(HumanTemplate, [temperature, humidity, IntText(uptime)]);
  }

  /** Everything one call sends: the JSON line, then the human-readable
      line, each with the uptime read when it was formatted. */
  function SendUartData(temperature: string, humidity: string, uptime1: int, uptime2: int): seq<Transmission> {
    [Transmit(JsonLine(temperature, humidity, uptime1)), Transmit(HumanLine(temperature, humidity, uptime2))]
  }

  /** For a reading in range both lines go out whole, JSON first, and the
      output is the two lines back to back, each ending in CR LF. */
  lemma SendUartDataInRange(temperature: string, humidity: string, uptime1: int, uptime2: int)
    requires ReadingText(temperature) && ReadingText(humidity) && Int64(uptime1) && Int64(uptime2)
    ensures var sent := SendUartData(temperature, humidity, uptime1, uptime2);
      && sent[0] == Transmitted(JsonLine(temperature, humidity, uptime1))
      && sent[1] == Transmitted(HumanLine(temperature, humidity, uptime2))
      && sent[0].bytes[|sent[0].bytes| - 2..] == "\r\n"
      && sent[1].bytes[|sent[1].bytes| - 2..] == "\r\n"
  {
    JsonLineSent(temperature, humidity, uptime1);
    HumanLineSent(temperature, humidity, uptime2);
  }

  /** A rendered line ends with the template's last literal. */
  lemma {:induction false} EndsWithLastLiteral(lits: seq<string>, fields: seq<string>)
    requires |lits| == |fields| + 1
    ensures var line, last := Render(lits, fields), lits[|lits| - 1];
      |last| <= |line| && line[|line| - |last|..] == last
    decreases |fields|
  {
    if |fields| > 0 {
      var last := lits[|lits| - 1];
      assert lits[1..][|lits[1..]| - 1] == last;
      EndsWithLastLiteral(lits[1..], fields[1..]);
      SuffixOfAppend(lits[0] + fields[0], Render(lits[1..], fields[1..]), last);
    }
  }

  lemma SuffixOfAppend(a: string, b: string, last: string)
    requires |last| <= |b| && b[|b| - |last|..] == last
    ensures |last| <= |a + b| && (a + b)[|a + b| - |last|..] == last
  {
    assert (a + b)[|a + b| - |last|..] == b[|b| - |last|..];
  }
}
