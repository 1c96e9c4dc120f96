/** The command line of the HTTP API: shell-like quoting turned into arguments. A `char`
    is a Unicode scalar value, as in Rust. */
module Command {
  import opened Prelude
  import Resp

  const MAX_COMMAND_LENGTH: nat := 16 * 1024
  const MAX_ARGUMENTS: nat := Resp.MAX_ARGUMENTS

  datatype CommandError = TooLong | IncompleteEscape | UnterminatedQuote | Empty | TooManyArguments

  // -------------------------------------------------------------------- characters, UTF-8

  function EncodeChar(c: char): (r: bytes)
    ensures 1 <= |r| <= 4
  {
    var n := c as int;
    if n < 0x80 then [n]
    else if n < 0x800 then [0xC0 + n / 64, 0x80 + n % 64]
    else if n < 0x10000 then [0xE0 + n / 4096, 0x80 + n / 64 % 64, 0x80 + n % 64]
    else [0xF0 + n / 262144, 0x80 + n / 4096 % 64, 0x80 + n / 64 % 64, 0x80 + n % 64]
  }

  /** The bytes of a Rust `String` holding this text. */
  function EncodeText(s: string): bytes {
    if s == "" then [] else EncodeChar(s[0]) + EncodeText(s[1..])
  }

  /** `char::is_whitespace` */
  predicate IsWhite(c: char) {
    var n := c as int;
    || 9 <= n <= 13 || n == 32 || n == 0x85 || n == 0xA0 || n == 0x1680 || 0x2000 <= n <= 0x200A
    || n == 0x2028 || n == 0x2029 || n == 0x202F || n == 0x205F || n == 0x3000
  }

  function Unescape(c: char): char {
    match c
    case 'n' => '\n'
    case 'r' => '\r'
    case 't' => '\t'
    case _ => c
  }

  // ----------------------------------------------------------------------- tokenization

  /** Text read, and the input after it. */
  datatype Read = Read(text: string, rest: string)

  function Prefixed(c: char, r: Result<Read, CommandError>): (p: Result<Read, CommandError>)
    ensures p.Ok? <==> r.Ok?
    ensures p.Ok? ==> p.value.rest == r.value.rest && p.value.text == [c] + r.value.text
  {
    match r
    case Err(e) => Err(e)
    case Ok(Read(text, rest)) => Ok(Read([c] + text, rest))
  }

  /** Everything up to the closing single quote, taken literally. */
  function SingleQuoted(input: string): (r: Result<Read, CommandError>)
    ensures r.Ok? ==> |r.value.rest| < |input|
  {
    if input == "" then Err(UnterminatedQuote)
    else if input[0] == '\'' then Ok(Read("", input[1..]))
    else Prefixed(input[0], SingleQuoted(input[1..]))
  }

  /** Everything up to the closing double quote, escapes resolved. */
  function DoubleQuoted(input: string): (r: Result<Read, CommandError>)
    ensures r.Ok? ==> |r.value.rest| < |input|
  {
    if input == "" then Err(UnterminatedQuote)
    else if input[0] == '"' then Ok(Read("", input[1..]))
    else if input[0] == '\\' then
      if |input| < 2 then Err(IncompleteEscape) else Prefixed(Unescape(input[1]), DoubleQuoted(input[2..]))
    else Prefixed(input[0], DoubleQuoted(input[1..]))
  }

  function Joined(first: Read, r: Result<Read, CommandError>): Result<Read, CommandError> {
    match r
    case Err(e) => Err(e)
    case Ok(Read(text, rest)) => Ok(Read(first.text + text, rest))
  }

  /** One argument: quoted and bare stretches up to white space or the end. */
  function Word(input: string): (r: Result<Read, CommandError>)
    ensures r.Ok? ==> |r.value.rest| <= |input| && (r.value.rest == "" || IsWhite(r.value.rest[0]))
    ensures r.Ok? && input != "" && !IsWhite(input[0]) ==> |r.value.rest| < |input|
    decreases |input|
  {
    if input == "" || IsWhite(input[0]) then Ok(Read("", input))
    else if input[0] == '\'' || input[0] == '"' then
      match if input[0] == '\'' then SingleQuoted(input[1..]) else DoubleQuoted(input[1..])
      case Err(e) => Err(e)
      case Ok(stretch) => Joined(stretch, Word(stretch.rest))
    else if input[0] == '\\' then
      if |input| < 2 then Err(IncompleteEscape) else Prefixed(Unescape(input[1]), Word(input[2..]))
    else Prefixed(input[0], Word(input[1..]))
  }

  function Push(word: string, r: Result<seq<string>, CommandError>): Result<seq<string>, CommandError> {
    match r
    case Err(e) => Err(e)
    case Ok(words) => Ok([word] + words)
  }

  /** The arguments of a command line. */
  function Words(input: string): Result<seq<string>, CommandError>
    decreases |input|
  {
    if input == "" then Ok([])
    else if IsWhite(input[0]) then Words(input[1..])
    else
      match Word(input)
      case Err(e) => Err(e)
      case Ok(Read(text, rest)) => Push(text, Words(rest))
  }

  /** `parse` */
  function Parse(command: string): Result<seq<string>, CommandError> {
    if |EncodeText(command)| > MAX_COMMAND_LENGTH then Err(TooLong)
    else
      match Words(command)
      case Err(e) => Err(e)
      case Ok(words) =>
        if words == [] then Err(Empty)
        else if |words| > MAX_ARGUMENTS then Err(TooManyArguments)
        else Ok(words)
  }

  // ---------------------------------------------------------------------------- the loop

  datatype Quote = Bare | Single | Double

  /** What the loop still has to produce, from any of its states. */
  function Resume(quote: Quote, current: string, started: bool, input: string): Result<seq<string>, CommandError> {
    if quote.Bare? && !started then Words(input)
    else
      match Finish(quote, current, input)
      case Err(e) => Err(e)
      case Ok(Read(text, rest)) => Push(text, Words(rest))
  }

  /** The rest of the argument being read. */
  function Finish(quote: Quote, current: string, input: string): Result<Read, CommandError> {
    match quote
    case Bare => Joined(Read(current, ""), Word(input))
    case _ =>
      match if quote.Single? then SingleQuoted(input) else DoubleQuoted(input)
      case Err(e) => Err(e)
      case Ok(stretch) => Joined(Read(current, ""), Joined(stretch, Word(stretch.rest)))
  }

  function PushAll(words: seq<string>, r: Result<seq<string>, CommandError>): Result<seq<string>, CommandError> {
    match r
    case Err(e) => Err(e)
    case Ok(more) => Ok(words + more)
  }

  lemma Pushed(words: seq<string>, word: string, r: Result<seq<string>, CommandError>)
    ensures PushAll(words, Push(word, r)) == PushAll(words + [word], r)
  {
    if r.Ok? { Assoc(words, [word], r.value); }
  }

  lemma JoinedOnce(current: string, c: char, r: Result<Read, CommandError>)
    ensures Joined(Read(current, ""), Prefixed(c, r)) == Joined(Read(current + [c], ""), r)
  {
    if r.Ok? { Assoc(current, [c], r.value.text); }
  }

  lemma JoinedTwice(current: string, c: char, r: Result<Read, CommandError>)
    ensures r.Ok? ==>
              Joined(Read(current, ""), Joined(Prefixed(c, r).value, Word(r.value.rest)))
              == Joined(Read(current + [c], ""), Joined(r.value, Word(r.value.rest)))
  {
    if r.Ok? {
      var after := Word(r.value.rest);
      if after.Ok? {
        Assoc([c], r.value.text, after.value.text);
        Assoc(current, [c], r.value.text + after.value.text);
      }
    }
  }

  lemma JoinedNothing(r: Result<Read, CommandError>)
    ensures Joined(Read("", ""), r) == r
    ensures forall rest :: Joined(Read("", rest), r) == r
  {
    if r.Ok? { assert "" + r.value.text == r.value.text; }
  }

  /** One character inside quotes. */
  lemma QuotedStep(quote: Quote, current: string, started: bool, input: string)
    requires !quote.Bare? && input != ""
    ensures var c := input[0];
            Resume(quote, current, started, input) ==
            if quote.Single? then
              if c == '\'' then Resume(Bare, current, true, input[1..])
              else Resume(Single, current + [c], started, input[1..])
            else if c == '"' then Resume(Bare, current, true, input[1..])
            else if c == '\\' then
              if |input| < 2 then Err(IncompleteEscape)
              else Resume(Double, current + [Unescape(input[1])], started, input[2..])
            else Resume(Double, current + [c], started, input[1..])
  {
    hide Words, Word;
    var c := input[0];
    if (quote.Single? && c == '\'') || (quote.Double? && c == '"') {
      JoinedNothing(Word(input[1..]));
    } else if quote.Single? {
      JoinedTwice(current, c, SingleQuoted(input[1..]));
    } else if c != '\\' {
      JoinedTwice(current, c, DoubleQuoted(input[1..]));
    } else if |input| >= 2 {
      JoinedTwice(current, Unescape(input[1]), DoubleQuoted(input[2..]));
    }
  }

  /** One character outside quotes. */
  lemma BareStep(current: string, started: bool, input: string)
    requires input != "" && (!started ==> current == "")
    ensures var c := input[0];
            Resume(Bare, current, started, input) ==
            if c == '\'' then Resume(Single, current, true, input[1..])
            else if c == '"' then Resume(Double, current, true, input[1..])
            else if c == '\\' then
              if |input| < 2 then Err(IncompleteEscape)
              else Resume(Bare, current + [Unescape(input[1])], true, input[2..])
            else if IsWhite(c) then
              if started then Push(current, Resume(Bare, "", false, input[1..]))
              else Resume(Bare, "", false, input[1..])
            else Resume(Bare, current + [c], true, input[1..])
  {
    hide SingleQuoted, DoubleQuoted, IsWhite;
    var c := input[0];
    NotWhite();
    JoinedNothing(Word(input));
    if c == '\'' || c == '"' {
    } else if c == '\\' {
      if |input| >= 2 { JoinedOnce(current, Unescape(input[1]), Word(input[2..])); }
    } else if IsWhite(c) {
      assert current + "" == current;
    } else {
      JoinedOnce(current, c, Word(input[1..]));
    }
  }

  lemma NotWhite()
    ensures !IsWhite('\'') && !IsWhite('"') && !IsWhite('\\')
  {
  }

  lemma PushedNothing(r: Result<seq<string>, CommandError>)
    ensures PushAll([], r) == r
  {
    if r.Ok? { assert [] + r.value == r.value; }
  }

  /** `parse`: one pass over the characters. */
  method ParseCommand(command: string) returns (r: Result<seq<string>, CommandError>)
    ensures r == Parse(command)
  {
    if |EncodeText(command)| > MAX_COMMAND_LENGTH { return Err(TooLong); }
    hide Words, Finish, Resume, Push, IsWhite;
    var arguments: seq<string> := [];
    var current := "";
    var i := 0;
    var quote := Bare;
    var started := false;
    assert command[0..] == command;
    Opening(command);
    while i < |command|
      invariant 0 <= i <= |command|
      invariant !quote.Bare? ==> started
      invariant !started ==> current == ""
      invariant PushAll(arguments, Resume(quote, current, started, command[i..])) == Words(command)
    {
      ghost var input := command[i..];
      assert input[1..] == command[i + 1..];
      assert |input| >= 2 ==> input[2..] == command[i + 2..];
      var c := command[i];
      if !quote.Bare? { QuotedStep(quote, current, started, input); } else { BareStep(current, started, input); }
      i := i + 1;
      match quote
      case Single =>
        if c == '\'' { quote := Bare; } else { current := current + [c]; }
      case Double =>
        if c == '"' {
          quote := Bare;
        } else if c == '\\' {
          if i == |command| { return Err(IncompleteEscape); }
          current := current + [Unescape(command[i])];
          i := i + 1;
        } else {
          current := current + [c];
        }
      case Bare =>
        if c == '\'' || c == '"' {
          quote := if c == '\'' then Single else Double;
          started := true;
        } else if c == '\\' {
          if i == |command| { return Err(IncompleteEscape); }
          current := current + [Unescape(command[i])];
          started := true;
          i := i + 1;
        } else if IsWhite(c) {
          if started {
            Pushed(arguments, current, Resume(Bare, "", false, command[i..]));
            arguments := arguments + [current];
            current := "";
            started := false;
          }
        } else {
          current := current + [c];
          started := true;
        }
    }
    assert command[i..] == "";
    Closing(arguments, quote, current, started);
    if !quote.Bare? { return Err(UnterminatedQuote); }
    if started {
      arguments := arguments + [current];
    }
    if arguments == [] { return Err(Empty); }
    if |arguments| > MAX_ARGUMENTS { return Err(TooManyArguments); }
    return Ok(arguments);
  }

  lemma Opening(command: string)
    ensures PushAll([], Resume(Bare, "", false, command)) == Words(command)
  {
    PushedNothing(Words(command));
  }

  lemma Closing(arguments: seq<string>, quote: Quote, current: string, started: bool)
    requires !quote.Bare? ==> started
    ensures PushAll(arguments, Resume(quote, current, started, ""))
            == if !quote.Bare? then Err(UnterminatedQuote) else Ok(if started then arguments + [current] else arguments)
  {
    var none: seq<string> := [];
    assert Words("") == Ok(none);
    assert current + "" == current && arguments + none == arguments;
    assert [current] + none == [current];
  }
}
