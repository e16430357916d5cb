/** CLoggerAsync::Log (src/base/log.cpp): one log line, queued piece by piece under one lock. */
module AsyncLogger {
  import opened Bytes
  import opened AsyncRing
  import opened AsyncProtocol
  import opened AsyncCalls
  import opened Common

  datatype Color = Color(r: byte, g: byte, b: byte)

  datatype Message = Message(level: int, color: Option<Color>, line: seq<byte>)

  /** `%d` of a number below 256. */
  function Decimal(n: byte): (r: seq<byte>)
    ensures 1 <= |r| <= 3
    ensures forall d :: d in r ==> 48 <= d < 58
  {
    if n < 10 then [48 + n]
    else if n < 100 then [48 + n / 10, 48 + n % 10]
    else [48 + n / 100, 48 + n / 10 % 10, 48 + n % 10]
  }

  /** ESC [ 38 ; 2 ; r ; g ; b m -- always shorter than the 32 bytes of aAnsi. */
  function AnsiColor(c: Color): (r: seq<byte>)
    ensures |r| < 32
  {
    [27, 91, 51, 56, 59, 50, 59] + Decimal(c.r) + [59] + Decimal(c.g) + [59] + Decimal(c.b) + [109]
  }

  /** ESC [ 0 m */
  const RESET_COLOR: seq<byte> := [27, 91, 48, 109]
  const NEWLINE: seq<byte> := [10]

  // ---------------------------------------------------------------- what a terminal reads

  /** The value of decimal digits. */
  function Number(digits: seq<byte>): int {
    if digits == [] then 0 else 10 * Number(digits[..|digits| - 1]) + (digits[|digits| - 1] as int) - 48
  }

  /** The parts of a text between semicolons. */
  function Fields(text: seq<byte>): (r: seq<seq<byte>>)
    ensures |r| > 0
  {
    if text == [] then [[]]
    else
      var rest := Fields(text[1..]);
      if text[0] == 59 then [[]] + rest else [[text[0]] + rest[0]] + rest[1..]
  }

  lemma {:induction false} FirstField(field: seq<byte>, rest: seq<byte>)
    requires 59 !in field
    ensures Fields(field + ([59] + rest)) == [field] + Fields(rest)
    ensures Fields(field) == [field]
  {
    var text := field + ([59] + rest);
    if field == [] {
      assert text == [59] + rest && text[1..] == rest;
    } else {
      assert text[1..] == field[1..] + ([59] + rest);
      FirstField(field[1..], rest);
      assert [field[0]] + field[1..] == field;
    }
  }

  lemma DecimalIsNumber(n: byte)
    ensures Number(Decimal(n)) == n && 59 !in Decimal(n)
    ensures |Decimal(n)| > 1 ==> Decimal(n)[0] != 48
  {
    var d := Decimal(n);
    if n < 10 {
      OneDigit(d[0]);
    } else if n < 100 {
      assert d[..1] == [d[0]];
      OneDigit(d[0]);
      assert Number(d) == 10 * Number(d[..1]) + (d[1] as int) - 48;
    } else {
      assert d[..2][..1] == [d[0]];
      OneDigit(d[0]);
      assert Number(d[..2]) == 10 * Number(d[..2][..1]) + (d[1] as int) - 48;
      assert Number(d) == 10 * Number(d[..2]) + (d[2] as int) - 48;
      assert n == 100 * (n / 100) + 10 * (n / 10 % 10) + n % 10;
    }
  }

  lemma OneDigit(d: byte)
    ensures Number([d]) == (d as int) - 48
  {
    assert [d][..0] == [];
  }

  /** A control sequence of ANSI terminals with these parameters, ending in `m`: it sets colours and styles. */
  ghost predicate SetsStyle(text: seq<byte>, parameters: seq<int>) {
    && |text| >= 3 && text[..2] == [27, 91] && text[|text| - 1] == 109
    && var fields := Fields(text[2..|text| - 1]);
       |fields| == |parameters| && forall i :: 0 <= i < |fields| ==> Number(fields[i]) == parameters[i]
  }

  function Joined(fields: seq<seq<byte>>): seq<byte>
    requires fields != []
  {
    if |fields| == 1 then fields[0] else fields[0] + ([59] + Joined(fields[1..]))
  }

  lemma {:induction false} FieldsOfJoined(fields: seq<seq<byte>>)
    requires fields != [] && forall i :: 0 <= i < |fields| ==> 59 !in fields[i]
    ensures Fields(Joined(fields)) == fields
  {
    if |fields| > 1 {
      FieldsOfJoined(fields[1..]);
      FirstField(fields[0], Joined(fields[1..]));
      assert [fields[0]] + fields[1..] == fields;
    } else {
      FirstField(fields[0], []);
    }
  }

  lemma FiveJoined(a: seq<byte>, b: seq<byte>, c: seq<byte>, d: seq<byte>, e: seq<byte>)
    ensures Joined([a, b, c, d, e]) == a + [59] + b + [59] + c + [59] + d + [59] + e
  {
    var all := [a, b, c, d, e];
    assert all[1..] == [b, c, d, e] && all[1..][1..] == [c, d, e] && [c, d, e][1..] == [d, e] && [d, e][1..] == [e];
    assert Joined([d, e]) == d + ([59] + e);
    assert Joined([c, d, e]) == c + ([59] + Joined([d, e]));
    assert Joined([b, c, d, e]) == b + ([59] + Joined([c, d, e]));
  }

  lemma ColorText(c: Color)
    ensures var numbers := [[51, 56], [50], Decimal(c.r), Decimal(c.g), Decimal(c.b)];
            AnsiColor(c) == [27, 91] + Joined(numbers) + [109]
  {
    FiveJoined([51, 56], [50], Decimal(c.r), Decimal(c.g), Decimal(c.b));
  }

  lemma StyleOf(text: seq<byte>, fields: seq<seq<byte>>, parameters: seq<int>)
    requires fields != [] && text == [27, 91] + Joined(fields) + [109] && |fields| == |parameters|
    requires forall i :: 0 <= i < |fields| ==> 59 !in fields[i] && Number(fields[i]) == parameters[i]
    ensures SetsStyle(text, parameters)
  {
    FieldsOfJoined(fields);
    assert text[2..|text| - 1] == Joined(fields);
  }

  /** The text before a line selects the 24-bit colour (38;2) with its red, green and blue; the one behind it, none. */
  lemma ColorIsSelected(c: Color)
    ensures SetsStyle(AnsiColor(c), [38, 2, c.r, c.g, c.b]) && SetsStyle(RESET_COLOR, [0])
  {
    DecimalIsNumber(38);
    DecimalIsNumber(2);
    DecimalIsNumber(0);
    DecimalIsNumber(c.r);
    DecimalIsNumber(c.g);
    DecimalIsNumber(c.b);
    ColorText(c);
    StyleOf(AnsiColor(c), [Decimal(38), Decimal(2), Decimal(c.r), Decimal(c.g), Decimal(c.b)], [38, 2, c.r, c.g, c.b]);
    StyleOf(RESET_COLOR, [Decimal(0)], [0]);
  }

  // ---------------------------------------------------------------- a log line

  /** What Log queues for a message, in order. */
  function LogCall(ansiTruecolor: bool, m: Message): (r: Call)
  {
    if ansiTruecolor && m.color.Some? then
      [AnsiColor(m.color.value), m.line, RESET_COLOR, NEWLINE]
    else
      [m.line, NEWLINE]
  }

  /** The text of a message as it is meant to appear in the file. */
  function FormattedLine(ansiTruecolor: bool, m: Message): (r: seq<byte>)
  {
    if ansiTruecolor && m.color.Some? then
      AnsiColor(m.color.value) + m.line + RESET_COLOR + NEWLINE
    else
      m.line + NEWLINE
  }

  lemma LogCallIsFormattedLine(ansiTruecolor: bool, m: Message)
    ensures Flatten(LogCall(ansiTruecolor, m)) == FormattedLine(ansiTruecolor, m)
  {
    if ansiTruecolor && m.color.Some? {
      var a := AnsiColor(m.color.value);
      assert [a, m.line, RESET_COLOR, NEWLINE] == [a, m.line, RESET_COLOR] + [NEWLINE];
      FlattenSnoc([a, m.line, RESET_COLOR], NEWLINE);
      assert [a, m.line, RESET_COLOR] == [a, m.line] + [RESET_COLOR];
      FlattenSnoc([a, m.line], RESET_COLOR);
      assert [a, m.line] == [a] + [m.line];
      FlattenSnoc([a], m.line);
      FlattenSnoc([], a);
      assert [a] == [] + [a];
    } else {
      assert [m.line, NEWLINE] == [m.line] + [NEWLINE];
      FlattenSnoc([m.line], NEWLINE);
      FlattenSnoc([], m.line);
      assert [m.line] == [] + [m.line];
    }
  }

  /** The line of a message, between selecting its colour and selecting none if it is to have one, and a newline. */
  lemma FormattedLineShape(ansiTruecolor: bool, m: Message) returns (start: seq<byte>, end: seq<byte>)
    ensures FormattedLine(ansiTruecolor, m) == start + m.line + end + [10]
    ensures if ansiTruecolor && m.color.Some?
            then var c := m.color.value; SetsStyle(start, [38, 2, c.r, c.g, c.b]) && SetsStyle(end, [0])
            else start == [] && end == []
  {
    start, end := [], [];
    if ansiTruecolor && m.color.Some? {
      start, end := AnsiColor(m.color.value), RESET_COLOR;
      ColorIsSelected(m.color.value);
    }
  }

  class CLoggerAsync {
    const aio: AsyncIo
    const ansiTruecolor: bool
    var maxLevel: int

    constructor (ansiTruecolor: bool, maxLevel: int)
      ensures this.ansiTruecolor == ansiTruecolor && this.maxLevel == maxLevel
      ensures aio.Valid() && aio.Contents() == [] && fresh(aio) && fresh(aio.buffer)
    {
      this.aio := new AsyncIo();
      this.ansiTruecolor := ansiTruecolor;
      this.maxLevel := maxLevel;
    }

    /** One aio_write_unlocked of a string. */
    method Queue(piece: seq<byte>)
      requires aio.Valid() && Fits(|aio.Contents()|, |piece|)
      modifies aio, aio.buffer
      ensures aio.Valid() && (aio.buffer == old(aio.buffer) || fresh(aio.buffer))
      ensures aio.Contents() == old(aio.Contents()) + piece
    {
      var data := new byte[|piece|](i requires 0 <= i < |piece| => piece[i]);
      assert data[..|piece|] == piece;
      aio.WriteUnlocked(data, |piece| as u32);
    }

    /** A piece that is queued only on some condition, and the one after it. */
    method QueueBoth(condition: bool, first: seq<byte>, second: seq<byte>)
      requires aio.Valid() && Fits(|aio.Contents()|, |first| + |second|) && (!condition ==> first == [])
      modifies aio, aio.buffer
      ensures aio.Valid() && (aio.buffer == old(aio.buffer) || fresh(aio.buffer))
      ensures aio.Contents() == old(aio.Contents()) + (first + second)
    {
      ghost var before := aio.Contents();
      if condition {
        Queue(first);
      }
      assert aio.Contents() == before + first;
      Queue(second);
      assert before + first + second == before + (first + second);
    }

    /** The body of Log between aio_lock and aio_unlock: all of the line, or nothing if it is filtered out. */
    method Log(m: Message)
      requires aio.Valid()
      requires m.level <= maxLevel ==> Fits(|aio.Contents()|, |FormattedLine(ansiTruecolor, m)|)
      modifies aio, aio.buffer
      ensures aio.Valid() && (aio.buffer == old(aio.buffer) || fresh(aio.buffer))
      ensures aio.Contents() == old(aio.Contents()) +
                (if m.level > maxLevel then [] else FormattedLine(ansiTruecolor, m))
    {
      if m.level > maxLevel {
        return;
      }
      var colored := ansiTruecolor && m.color.Some?;
      var start := if colored then AnsiColor(m.color.value) else [];
      var end := if colored then RESET_COLOR else [];
      ghost var before := aio.Contents();
      assert FormattedLine(ansiTruecolor, m) == start + m.line + end + NEWLINE;
      QueueBoth(colored, start, m.line);
      QueueBoth(colored, end, NEWLINE);
      assert before + (start + m.line) + (end + NEWLINE) == before + (start + m.line + end + NEWLINE);
    }
  }

  /** In every interleaving, a log line that has reached the file stands there in one piece. */
  lemma LogLinesAreContiguous(s: State, k: nat, ansiTruecolor: bool, m: Message)
    requires Reachable(s) && k < |s.calls| && s.calls[k] == LogCall(ansiTruecolor, m)
    ensures var start := |CallBytes(s.calls[..k])|;
            var text := FormattedLine(ansiTruecolor, m);
            start + |text| <= |s.file| ==> s.file[start..start + |text|] == text
  {
    LogCallIsFormattedLine(ansiTruecolor, m);
    CallsAreContiguous(s, k);
  }

  /** When Log has returned and the writer has made its steps, the line stands in the file in one piece. */
  lemma LoggedLineIsInFile(s: State, c: nat, ansiTruecolor: bool, m: Message,
                           first: seq<Action>, t: State, second: seq<Action>, u: State)
    requires InCall(s, c, Write(LogCall(ansiTruecolor, m)))
    requires Exec(s, first) == Some(t) && c < |t.clients| && t.clients[c] == Idle
    requires Reachable(t) && !WriterLeft(t.writer) && Exec(t, second) == Some(u)
    requires WriterSteps(second) >= 5 * |CallBytes(t.calls)| + 5
    ensures exists before: seq<byte> :: before + FormattedLine(ansiTruecolor, m) <= u.file
  {
    LogCallIsFormattedLine(ansiTruecolor, m);
    ReturnedWriteIsInFile(s, c, LogCall(ansiTruecolor, m), first, t, second, u);
  }
}
