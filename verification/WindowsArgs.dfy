/**
  windows_args_to_wide (src/base/system.cpp) against the rules by which CommandLineToArgvW and the C runtime
  split a command line. An argument is here the wide string it was converted to.
  */
module WindowsArgs {

  // ---------------------------------------------------------------- splitting a command line

  /**
    The splitters differ in what a quote does that directly follows the quote closing a quoted part:
    the documented rules open a new quoted part; others add a quote character, and then either stay
    in the quoted part or leave it.
    */
  datatype Dialect = Documented | DoubledStays | DoubledCloses

  datatype State = State(
    args: seq<string>,  // the arguments completed so far
    cur: string,        // the beginning of the current one, without trailing backslashes
    inArg: bool,
    inQuote: bool,
    slashes: nat,       // backslashes whose meaning depends on the next character
    justClosed: bool    // the last character closed a quoted part
  )

  function Slashes(n: nat): (r: string)
    ensures |r| == n
  {
    seq(n, _ => '\\')
  }

  function Between(args: seq<string>): State {
    State(args, "", false, false, 0, false)
  }

  /** 2n backslashes before a quote are n, and the quote opens or closes; one more makes the quote a character. */
  function Quote(d: Dialect, s: State): State {
    var cur := s.cur + Slashes(s.slashes / 2);
    if s.slashes % 2 == 1 then s.(cur := cur + "\"", slashes := 0, justClosed := false)
    else if s.justClosed && d != Documented then
      s.(cur := cur + "\"", inQuote := d == DoubledStays, justClosed := false)
    else s.(cur := cur, inArg := true, inQuote := !s.inQuote, slashes := 0, justClosed := s.inQuote)
  }

  function Step(d: Dialect, s: State, c: char): State {
    if c == '\\' then s.(inArg := true, slashes := s.slashes + 1, justClosed := false)
    else if c == '"' then Quote(d, s)
    else if c in " \t" && !s.inQuote then
      Between(if s.inArg then s.args + [s.cur + Slashes(s.slashes)] else s.args)
    else State(s.args, s.cur + Slashes(s.slashes) + [c], true, s.inQuote, 0, false)
  }

  function Run(d: Dialect, s: State, text: string): State {
    if text == [] then s else Step(d, Run(d, s, text[..|text| - 1]), text[|text| - 1])
  }

  /** The arguments of a command line, the first ones of which are already split off. */
  function Split(d: Dialect, before: seq<string>, text: string): seq<string> {
    var s := Run(d, Between(before), text);
    if s.inArg then s.args + [s.cur + Slashes(s.slashes)] else s.args
  }

  // ---------------------------------------------------------------- what was written so far

  /** Whatever the dialect and the arguments before, the text is split into done, and ends inside an argument. */
  ghost predicate Inside(text: string, done: seq<string>, cur: string, slashes: nat) {
    forall d: Dialect, before: seq<string> ::
      Run(d, Between(before), text) == State(before + done, cur, true, true, slashes, false)
  }

  /** The same behind the quote that ends an argument, the last one of done. */
  ghost predicate Behind(text: string, done: seq<string>) {
    && done != []
    && forall d: Dialect, before: seq<string> ::
         Run(d, Between(before), text) == State(before + done[..|done| - 1], done[|done| - 1], true, false, 0, true)
  }

  /** The same where the next argument can begin. */
  ghost predicate Before(text: string, done: seq<string>) {
    forall d: Dialect, before: seq<string> :: Run(d, Between(before), text) == Between(before + done)
  }

  lemma RunSnoc(d: Dialect, s: State, text: string, c: char)
    ensures Run(d, s, text + [c]) == Step(d, Run(d, s, text), c)
  {
    assert (text + [c])[..|text|] == text;
  }

  lemma WriteSpace(text: string, done: seq<string>)
    requires Behind(text, done)
    ensures Before(text + " ", done)
  {
    forall d: Dialect, before: seq<string>
      ensures Run(d, Between(before), text + " ") == Between(before + done)
    {
      RunSnoc(d, Between(before), text, ' ');
      assert done[|done| - 1] + Slashes(0) == done[|done| - 1];
      assert before + done[..|done| - 1] + [done[|done| - 1]] == before + done;
    }
  }

  lemma WriteOpening(text: string, done: seq<string>)
    requires Before(text, done)
    ensures Inside(text + "\"", done, "", 0)
  {
    forall d: Dialect, before: seq<string>
      ensures Run(d, Between(before), text + "\"") == State(before + done, "", true, true, 0, false)
    {
      RunSnoc(d, Between(before), text, '"');
    }
  }

  lemma WriteSlash(text: string, done: seq<string>, cur: string, slashes: nat)
    requires Inside(text, done, cur, slashes)
    ensures Inside(text + "\\", done, cur, slashes + 1)
  {
    forall d: Dialect, before: seq<string>
      ensures Run(d, Between(before), text + "\\") == State(before + done, cur, true, true, slashes + 1, false)
    {
      RunSnoc(d, Between(before), text, '\\');
    }
  }

  lemma WriteInnerQuote(text: string, done: seq<string>, cur: string, slashes: nat)
    requires Inside(text, done, cur, 2 * slashes + 1)
    ensures Inside(text + "\"", done, cur + Slashes(slashes) + "\"", 0)
  {
    forall d: Dialect, before: seq<string>
      ensures Run(d, Between(before), text + "\"") ==
              State(before + done, cur + Slashes(slashes) + "\"", true, true, 0, false)
    {
      RunSnoc(d, Between(before), text, '"');
    }
  }

  lemma WriteOther(text: string, done: seq<string>, cur: string, slashes: nat, c: char)
    requires Inside(text, done, cur, slashes) && c != '\\' && c != '"'
    ensures Inside(text + [c], done, cur + Slashes(slashes) + [c], 0)
  {
    forall d: Dialect, before: seq<string>
      ensures Run(d, Between(before), text + [c]) ==
              State(before + done, cur + Slashes(slashes) + [c], true, true, 0, false)
    {
      RunSnoc(d, Between(before), text, c);
    }
  }

  lemma WriteClosing(text: string, done: seq<string>, cur: string, slashes: nat)
    requires Inside(text, done, cur, 2 * slashes)
    ensures Behind(text + "\"", done + [cur + Slashes(slashes)])
  {
    var done' := done + [cur + Slashes(slashes)];
    assert done'[..|done' | - 1] == done;
    forall d: Dialect, before: seq<string>
      ensures Run(d, Between(before), text + "\"") == State(before + done, cur + Slashes(slashes), true, false, 0, true)
    {
      RunSnoc(d, Between(before), text, '"');
    }
  }

  // ---------------------------------------------------------------- windows_args_to_wide

  method WriteSlashes(text0: string, count: nat, ghost done: seq<string>, ghost cur: string, ghost slashes: nat)
    returns (text: string)
    requires Inside(text0, done, cur, slashes)
    ensures Inside(text, done, cur, slashes + count)
  {
    text := text0;
    for j := 0 to count
      invariant Inside(text, done, cur, slashes + j)
    {
      WriteSlash(text, done, cur, slashes + j);
      text := text + "\\";
    }
  }

  /** The body of the loop over the characters of an argument. */
  method WriteChar(text0: string, c: char, backslashes0: nat, ghost done: seq<string>, ghost cur0: string)
    returns (text: string, backslashes: nat, ghost cur: string)
    requires Inside(text0, done, cur0, backslashes0)
    ensures Inside(text, done, cur, backslashes)
    ensures cur + Slashes(backslashes) == cur0 + Slashes(backslashes0) + [c]
  {
    text, backslashes, cur := text0, backslashes0, cur0;
    if c == '\\' {
      WriteSlash(text, done, cur, backslashes);
      assert Slashes(backslashes + 1) == Slashes(backslashes) + "\\";
      backslashes := backslashes + 1;
    } else {
      if c == '"' {
        text := WriteSlashes(text, backslashes + 1, done, cur, backslashes);
        WriteInnerQuote(text, done, cur, backslashes);
      } else {
        WriteOther(text, done, cur, backslashes, c);
      }
      cur := cur + Slashes(backslashes) + [c];
      backslashes := 0;
    }
    text := text + [c];
  }

  /** One argument in quotes. */
  method WriteArg(text0: string, arg: string, ghost done: seq<string>) returns (text: string)
    requires Before(text0, done)
    ensures Behind(text, done + [arg])
  {
    WriteOpening(text0, done);
    text := text0 + "\"";
    var backslashes := 0;
    ghost var cur := "";
    for k := 0 to |arg|
      invariant Inside(text, done, cur, backslashes)
      invariant cur + Slashes(backslashes) == arg[..k]
    {
      text, backslashes, cur := WriteChar(text, arg[k], backslashes, done, cur);
    }
    text := WriteSlashes(text, backslashes, done, cur, backslashes);
    WriteClosing(text, done, cur, backslashes);
    assert arg[..|arg|] == arg;
    text := text + "\"";
  }

  /** Every splitter gets back exactly the arguments, behind those it has already split off. */
  method WindowsArgsToWide(arguments: seq<string>) returns (wide: string)
    ensures forall d: Dialect, before: seq<string> :: Split(d, before, wide) == before + arguments
  {
    wide := "";
    for i := 0 to |arguments|
      invariant if i == 0 then Before(wide, []) else Behind(wide, arguments[..i])
    {
      if i > 0 {
        WriteSpace(wide, arguments[..i]);
        wide := wide + " ";
      }
      wide := WriteArg(wide, arguments[i], arguments[..i]);
      assert arguments[..i] + [arguments[i]] == arguments[..i + 1];
    }
    SplitAtEnd(wide, arguments);
  }

  lemma SplitAtEnd(wide: string, arguments: seq<string>)
    requires if arguments == [] then Before(wide, []) else Behind(wide, arguments[..|arguments|])
    ensures forall d: Dialect, before: seq<string> :: Split(d, before, wide) == before + arguments
  {
    assert arguments[..|arguments|] == arguments;
    forall d: Dialect, before: seq<string> ensures Split(d, before, wide) == before + arguments {
      var s := Run(d, Between(before), wide);
      if arguments != [] {
        assert s.cur + Slashes(0) == s.cur;
        assert before + arguments[..|arguments| - 1] + [arguments[|arguments| - 1]] == before + arguments;
      }
    }
  }
}
