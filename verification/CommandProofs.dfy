/** Written argument lists read back, and the command that reaches the backend is the one
    that was typed and judged. */
module CommandProofs {
  import opened Prelude
  import opened Utf8
  import opened Command
  import Request
  import RequestProofs
  import Policy
  import PolicyProofs

  // ---------------------------------------------------------------------- written arguments

  /** How one argument is written. */
  datatype Style = Plain | InSingle | InDouble

  /** An argument, the way it is written, and the white space before it. */
  datatype Item = Item(gap: string, style: Style, text: string) {
    /** Plain text holds nothing the tokenizer treats specially; single quotes cannot
        hold a single quote; double quotes can hold anything. */
    predicate Writable() {
      match style
      case Plain => text != "" && forall c :: c in text ==> !IsWhite(c) && c !in ['\'', '"', '\\']
      case InSingle => '\'' !in text
      case InDouble => true
    }

    function Written(): string {
      match style
      case Plain => text
      case InSingle => ['\''] + text + ['\'']
      case InDouble => ['"'] + Escaped(text) + ['"']
    }
  }

  function Escaped(text: string): string {
    if text == "" then ""
    else EscapedChar(text[0]) + Escaped(text[1..])
  }

  function EscapedChar(c: char): string {
    if c == '"' || c == '\\' then ['\\', c] else [c]
  }

  predicate AllWhite(s: string) {
    forall c :: c in s ==> IsWhite(c)
  }

  /** Gaps are white space, and only the first may be missing. */
  predicate Separated(items: seq<Item>) {
    && (forall i :: 0 <= i < |items| ==> items[i].Writable() && AllWhite(items[i].gap))
    && (forall i :: 1 <= i < |items| ==> items[i].gap != "")
  }

  function Line(items: seq<Item>, tail: string): string {
    if items == [] then tail else items[0].gap + (items[0].Written() + Line(items[1..], tail))
  }

  function Texts(items: seq<Item>): (r: seq<string>)
    ensures |r| == |items| && forall i :: 0 <= i < |items| ==> r[i] == items[i].text
  {
    if items == [] then [] else [items[0].text] + Texts(items[1..])
  }

  lemma {:induction false} SingleReads(text: string, rest: string)
    requires '\'' !in text
    ensures SingleQuoted(text + (['\''] + rest)) == Ok(Read(text, rest))
  {
    var input := text + (['\''] + rest);
    if text == "" {
      assert input == ['\''] + rest && input[1..] == rest;
    } else {
      assert input[0] == text[0] && text == [text[0]] + text[1..];
      assert input[1..] == text[1..] + (['\''] + rest);
      SingleReads(text[1..], rest);
    }
  }

  lemma {:induction false} DoubleReads(text: string, rest: string)
    ensures DoubleQuoted(Escaped(text) + (['"'] + rest)) == Ok(Read(text, rest))
  {
    hide DoubleQuoted, Escaped, EscapedChar;
    var close := ['"'] + rest;
    EscapedUnfolds(text);
    if text == "" {
      assert Escaped(text) + close == close;
      ClosingQuoteReads(rest);
    } else {
      var after := Escaped(text[1..]) + close;
      DoubleReads(text[1..], rest);
      Assoc(EscapedChar(text[0]), Escaped(text[1..]), close);
      EscapedCharReads(text[0], after);
      assert text == [text[0]] + text[1..];
    }
  }

  lemma EscapedUnfolds(text: string)
    ensures Escaped(text) == if text == "" then "" else EscapedChar(text[0]) + Escaped(text[1..])
  {
  }

  lemma ClosingQuoteReads(rest: string)
    ensures DoubleQuoted(['"'] + rest) == Ok(Read("", rest))
  {
    assert (['"'] + rest)[1..] == rest;
  }

  lemma EscapedCharReads(c: char, after: string)
    ensures DoubleQuoted(EscapedChar(c) + after) == Prefixed(c, DoubleQuoted(after))
  {
    var input := EscapedChar(c) + after;
    assert input[|EscapedChar(c)|..] == after;
  }

  lemma {:induction false} PlainReads(text: string, rest: string)
    requires forall c :: c in text ==> !IsWhite(c) && c !in ['\'', '"', '\\']
    requires rest == "" || IsWhite(rest[0])
    ensures Word(text + rest) == Ok(Read(text, rest))
  {
    if text == "" {
      assert text + rest == rest;
    } else {
      var input := text + rest;
      assert input[0] == text[0] && input[1..] == text[1..] + rest;
      assert text == [text[0]] + text[1..];
      assert text[0] in text && forall c :: c in text[1..] ==> c in text;
      PlainReads(text[1..], rest);
    }
  }

  /** An argument read back ends where it was written to end. */
  lemma WordReads(item: Item, rest: string)
    requires item.Writable()
    requires rest == "" || IsWhite(rest[0])
    ensures Word(item.Written() + rest) == Ok(Read(item.text, rest))
    ensures item.Written() != "" && !IsWhite(item.Written()[0])
  {
    hide Word, SingleQuoted, DoubleQuoted, Escaped, IsWhite;
    NotWhite();
    var input := item.Written() + rest;
    match item.style
    case Plain =>
      assert item.text[0] in item.text;
      PlainReads(item.text, rest);
    case InSingle =>
      Enclosed('\'', item.text, rest);
      SingleReads(item.text, rest);
      QuotedWord(input, item.text, rest);
    case InDouble =>
      Enclosed('"', Escaped(item.text), rest);
      DoubleReads(item.text, rest);
      QuotedWord(input, item.text, rest);
  }

  lemma Enclosed(quote: char, text: string, rest: string)
    ensures var input := [quote] + text + [quote] + rest;
            input[0] == quote && input[1..] == text + ([quote] + rest)
  {
  }

  lemma QuotedWord(input: string, text: string, rest: string)
    requires input != "" && (rest == "" || IsWhite(rest[0]))
    requires if input[0] == '"' then DoubleQuoted(input[1..]) == Ok(Read(text, rest))
             else input[0] == '\'' && SingleQuoted(input[1..]) == Ok(Read(text, rest))
    ensures Word(input) == Ok(Read(text, rest))
  {
    hide SingleQuoted, DoubleQuoted, IsWhite;
    NotWhite();
    assert text + "" == text;
  }

  lemma {:induction false} WhiteIsSkipped(gap: string, input: string)
    requires AllWhite(gap)
    ensures Words(gap + input) == Words(input)
  {
    if gap == "" {
      assert gap + input == input;
    } else {
      assert gap[0] in gap && forall c :: c in gap[1..] ==> c in gap;
      assert (gap + input)[1..] == gap[1..] + input;
      WhiteIsSkipped(gap[1..], input);
    }
  }

  /** However each argument is written and whatever white space separates them, the
      tokenizer gives the arguments back. */
  lemma {:induction false} LineReadsBack(items: seq<Item>, tail: string)
    requires Separated(items) && AllWhite(tail)
    ensures Words(Line(items, tail)) == Ok(Texts(items))
  {
    hide Word, IsWhite;
    if items == [] {
      WhiteIsSkipped(tail, "");
      assert tail + "" == tail;
    } else {
      var item, others := items[0], Line(items[1..], tail);
      var input := item.Written() + others;
      LineReadsBack(items[1..], tail);
      OpensWhite(items[1..], tail);
      WhiteIsSkipped(item.gap, input);
      WordReads(item, others);
      assert input != "" && input[0] == item.Written()[0];
    }
  }

  lemma OpensWhite(items: seq<Item>, tail: string)
    requires Separated(items) && AllWhite(tail) && (items == [] || items[0].gap != "")
    ensures Line(items, tail) == "" || IsWhite(Line(items, tail)[0])
  {
    if items != [] {
      assert items[0].gap[0] in items[0].gap;
    } else if tail != "" {
      assert tail[0] in tail;
    }
  }

  /** Double-quoted arguments joined by single spaces. */
  function Quoted(arguments: seq<string>): seq<Item> {
    seq(|arguments|, i requires 0 <= i < |arguments| => Item(if i == 0 then "" else " ", InDouble, arguments[i]))
  }

  /** Any list of up to 256 arguments, empty ones and white space included, survives being
      quoted, as long as the line is not too long. */
  lemma QuotedLineReadsBack(arguments: seq<string>)
    requires 1 <= |arguments| <= MAX_ARGUMENTS
    requires |EncodeText(Line(Quoted(arguments), ""))| <= MAX_COMMAND_LENGTH
    ensures Parse(Line(Quoted(arguments), "")) == Ok(arguments)
  {
    hide Words, EncodeText;
    LineReadsBack(Quoted(arguments), "");
    assert Texts(Quoted(arguments)) == arguments;
  }

  // ------------------------------------------------------------------ sizes of what is read

  lemma {:induction false} EncodeTextConcat(s: string, t: string)
    ensures EncodeText(s + t) == EncodeText(s) + EncodeText(t)
  {
    if s == "" {
      assert s + t == t;
    } else {
      assert (s + t)[1..] == s[1..] + t;
      EncodeTextConcat(s[1..], t);
      Assoc(EncodeChar(s[0]), EncodeText(s[1..]), EncodeText(t));
    }
  }

  lemma CharIsValid(c: char)
    ensures ValidUtf8(EncodeChar(c))
  {
    var e := EncodeChar(c);
    assert Scan(e) == (|e|, true);
    assert e[|e|..] == [];
  }

  /** A Rust string is valid UTF-8. */
  lemma {:induction false} TextIsValid(s: string)
    ensures ValidUtf8(EncodeText(s))
  {
    if s != "" {
      CharIsValid(s[0]);
      TextIsValid(s[1..]);
      ValidConcat(EncodeChar(s[0]), EncodeText(s[1..]));
    }
  }

  function Size(s: string): nat {
    |EncodeText(s)|
  }

  lemma UnescapeSize(c: char)
    ensures |EncodeChar(Unescape(c))| == |EncodeChar(c)|
  {
  }

  lemma SizeOfPrefixed(c: char, r: Result<Read, CommandError>)
    ensures r.Ok? ==> Size(Prefixed(c, r).value.text) == |EncodeChar(c)| + Size(r.value.text)
  {
    if r.Ok? { assert ([c] + r.value.text)[1..] == r.value.text; }
  }

  lemma SizeOf(input: string)
    ensures input != "" ==> Size(input) == |EncodeChar(input[0])| + Size(input[1..])
    ensures |input| >= 2 ==> Size(input) == |EncodeChar(input[0])| + |EncodeChar(input[1])| + Size(input[2..])
  {
    hide EncodeChar;
    if |input| >= 2 {
      assert input[1..][0] == input[1] && input[1..][1..] == input[2..];
      assert Size(input[1..]) == |EncodeChar(input[1])| + Size(input[2..]);
    }
  }

  lemma {:induction false} SingleSize(input: string)
    ensures SingleQuoted(input).Ok? ==> Size(SingleQuoted(input).value.text) + Size(SingleQuoted(input).value.rest) <= Size(input)
  {
    hide EncodeChar, Size;
    NoSize();
    SizeOf(input);
    if input != "" {
      SingleSize(input[1..]);
      SizeOfPrefixed(input[0], SingleQuoted(input[1..]));
    }
  }

  lemma {:induction false} DoubleSize(input: string)
    ensures DoubleQuoted(input).Ok? ==> Size(DoubleQuoted(input).value.text) + Size(DoubleQuoted(input).value.rest) <= Size(input)
    decreases |input|
  {
    hide EncodeChar, Size;
    NoSize();
    SizeOf(input);
    if input != "" && input[0] == '\\' {
      if |input| >= 2 {
        DoubleSize(input[2..]);
        UnescapeSize(input[1]);
        SizeOfPrefixed(Unescape(input[1]), DoubleQuoted(input[2..]));
      }
    } else if input != "" {
      DoubleSize(input[1..]);
      SizeOfPrefixed(input[0], DoubleQuoted(input[1..]));
    }
  }

  lemma NoSize()
    ensures Size("") == 0
  {
  }

  lemma {:induction false} WordSize(input: string)
    ensures Word(input).Ok? ==> Size(Word(input).value.text) + Size(Word(input).value.rest) <= Size(input)
    decreases |input|
  {
    hide EncodeChar, SingleQuoted, DoubleQuoted, IsWhite;
    if input == "" || IsWhite(input[0]) {
    } else if input[0] == '\'' || input[0] == '"' {
      SingleSize(input[1..]);
      DoubleSize(input[1..]);
      var r := if input[0] == '\'' then SingleQuoted(input[1..]) else DoubleQuoted(input[1..]);
      if r.Ok? {
        WordSize(r.value.rest);
        var after := Word(r.value.rest);
        if after.Ok? { EncodeTextConcat(r.value.text, after.value.text); }
      }
    } else if input[0] == '\\' {
      if |input| >= 2 {
        SizeOf(input);
        WordSize(input[2..]);
        UnescapeSize(input[1]);
        SizeOfPrefixed(Unescape(input[1]), Word(input[2..]));
      }
    } else {
      WordSize(input[1..]);
      SizeOfPrefixed(input[0], Word(input[1..]));
    }
  }

  /** The arguments as the launcher sends them on. */
  function Argv(words: seq<string>): (r: seq<bytes>)
    ensures |r| == |words| && forall i :: 0 <= i < |words| ==> r[i] == EncodeText(words[i])
  {
    if words == [] then [] else [EncodeText(words[0])] + Argv(words[1..])
  }

  /** Taking quotes and escapes away never makes the arguments longer than the line. */
  lemma {:induction false} ArgumentsFitTheLine(input: string)
    ensures Words(input).Ok? ==> Request.TotalLength(Argv(Words(input).value)) <= Size(input)
    decreases |input|
  {
    hide Word, IsWhite, EncodeChar;
    if input != "" {
      if IsWhite(input[0]) {
        ArgumentsFitTheLine(input[1..]);
      } else {
        WordSize(input);
        var r := Word(input);
        if r.Ok? {
          ArgumentsFitTheLine(r.value.rest);
          var others := Words(r.value.rest);
          if others.Ok? {
            var words := Words(input).value;
            assert words == [r.value.text] + others.value;
            assert words[1..] == others.value && Argv(words)[1..] == Argv(others.value);
          }
        }
      }
    }
  }

  lemma {:induction false} EachWithinTotal(args: seq<bytes>)
    ensures forall i :: 0 <= i < |args| ==> |args[i]| <= Request.TotalLength(args)
  {
    if args != [] { EachWithinTotal(args[1..]); }
  }

  /** What is typed over HTTP is judged as the RESP port would judge it, and a reader of
      requests gets exactly the typed arguments back from the bytes sent on. */
  lemma TypedCommandIsTheCommandSent(allowlist: Policy.Allowlist, command: string, rest: bytes)
    requires Parse(command).Ok?
    ensures var argv := Argv(Parse(command).value);
            && argv != [] && PolicyProofs.AllText(argv)
            && Policy.ClassifyText(allowlist, argv) == Policy.ClassifyBytes(allowlist, argv)
            && Request.Acceptable(argv)
            && Request.ParseRequest(Request.EncodeCommand(argv) + rest, Request.MAX_IN_FLIGHT_REQUEST_BYTES)
               == Request.Parsed(Ok(Request.Command(argv)), rest, RequestProofs.Reservation(argv))
  {
    hide Words, EncodeText, Policy.ClassifyText, Policy.ClassifyBytes, Request.ParseRequest, Request.EncodeCommand,
         RequestProofs.Reservation;
    var words := Parse(command).value;
    var argv := Argv(words);
    ArgumentsFitTheLine(command);
    EachWithinTotal(argv);
    forall w | w in argv
      ensures ValidUtf8(w)
    {
      var i :| 0 <= i < |argv| && argv[i] == w;
      TextIsValid(words[i]);
    }
    PolicyProofs.SameDecision(allowlist, argv);
    RequestProofs.CommandRoundTrip(argv, rest, Request.MAX_IN_FLIGHT_REQUEST_BYTES);
  }
}
