/** The command parser undoes the command encoder and holds exactly what the
    command declared. */
module RequestProofs {
  import opened Prelude
  import opened Decimal
  import opened Utf8
  import Text
  import Resp
  import opened RespRoundTrip
  import opened Request

  // ----------------------------------------------------------------------- lines

  lemma {:induction false} PrintLength(n: nat)
    ensures |Print(n)| <= n / 10 + 1
  {
    if n >= 10 {
      PrintLength(n / 10);
    }
  }

  lemma TakeLineOf(text: bytes, rest: bytes)
    requires LF !in text && |text| + 2 <= MAX_REQUEST_LINE + 1
    ensures TakeLine(text + CRLF + rest) == (Line(text), rest)
  {
    hide Resp.LineLength;
    var line := text + [CR] + [LF];
    var input := text + CRLF + rest;
    var window := if |input| > MAX_REQUEST_LINE + 1 then input[..MAX_REQUEST_LINE + 1] else input;
    assert input == line + rest;
    Cut(line, rest);
    if |input| > MAX_REQUEST_LINE + 1 { CutLater(line, rest, MAX_REQUEST_LINE + 1); }
    assert window == line + window[|line|..];
    LineLengthOf(text + [CR], window[|line|..]);
    Cut(text, [CR] + [LF]);
    assert input[..|text|] == line[..|text|];
  }

  lemma Cut(head: bytes, tail: bytes)
    ensures (head + tail)[..|head|] == head && (head + tail)[|head|..] == tail
    ensures |head| >= 2 ==> (head + tail)[|head| - 1] == head[|head| - 1] && (head + tail)[|head| - 2] == head[|head| - 2]
  {
  }

  lemma CutLater(head: bytes, tail: bytes, n: nat)
    requires |head| <= n <= |head| + |tail|
    ensures var window := (head + tail)[..n]; window == head + window[|head|..]
  {
  }

  lemma DigitsAreTrimmed(s: bytes)
    requires s != [] && AllDigits(s)
    ensures Text.Trim(s) == s && ValidUtf8(s)
  {
    assert IsDigit(s[0]) && IsDigit(s[|s| - 1]);
    assert forall b :: b in s ==> b < 0x80;
    AsciiIsValid(s);
  }

  lemma TrimmedNumberOf(n: nat)
    requires n <= I64_MAX
    ensures TrimmedNumber(PrintInt(n)) == Some(n)
    ensures LF !in PrintInt(n)
  {
    DigitsAreTrimmed(PrintInt(n));
    ParsePrint(n);
    NumberHasNoLineFeed(PrintInt(n));
  }

  /** A `<prefix><number>` line is read back. */
  lemma NumberLine(prefix: byte, n: nat, rest: bytes)
    requires prefix != LF && n <= MAX_REQUEST_BULK
    ensures var r := TakeLine([prefix] + PrintInt(n) + CRLF + rest);
            && r.0.Line? && r.1 == rest && r.0.text != [] && r.0.text[0] == prefix
            && TrimmedNumber(r.0.text[1..]) == Some(n)
  {
    TrimmedNumberOf(n);
    PrintLength(n);
    var text := [prefix] + PrintInt(n);
    TakeLineOf(text, rest);
    assert text[1..] == PrintInt(n);
  }

  // ------------------------------------------------------------------ soundness

  lemma {:induction false} TotalLengthSnoc(args: seq<bytes>, a: bytes)
    ensures TotalLength(args + [a]) == TotalLength(args) + |a|
  {
    if args == [] {
      assert [a][1..] == [] && args + [a] == [a];
    } else {
      TotalLengthSnoc(args[1..], a);
      assert (args + [a])[1..] == args[1..] + [a];
    }
  }

  /** What holds between two arguments. */
  predicate WellStarted(p: Progress) {
    && 0 < p.count <= MAX_ARGUMENTS && |p.args| <= p.count
    && (forall i :: 0 <= i < |p.args| ==> |p.args[i]| <= MAX_REQUEST_BULK)
    && p.total == TotalLength(p.args) <= MAX_REQUEST_BYTES
    && Sum(p.reserved) == ARGUMENT_SLOT_OVERHEAD_BYTES * p.count + p.total
  }

  lemma PayloadKeepsReserved(p: Progress, length: nat, input: bytes)
    ensures var r := ReadArgumentPayload(p, length, input).0;
            r.Ok? ==> r.value.reserved == p.reserved && r.value.count == p.count && |r.value.args| == |p.args| + 1
  {
  }

  lemma ArgumentKeepsWellStarted(p: Progress, q: Progress, length: nat, input: bytes)
    requires WellStarted(p) && |p.args| < p.count
    requires q.count == p.count && q.args == p.args && length <= MAX_REQUEST_BULK
    requires q.total == p.total + length <= MAX_REQUEST_BYTES
    requires Sum(q.reserved) == Sum(p.reserved) + length
    requires ReadArgumentPayload(q, length, input).0.Ok?
    ensures var r := ReadArgumentPayload(q, length, input).0.value;
            WellStarted(r) && r.count == p.count && |r.args| == |p.args| + 1 && r.reserved == q.reserved
  {
    TotalLengthSnoc(p.args, input[..length]);
  }

  lemma SuffixOfItself(input: bytes)
    ensures IsSuffix(input, input)
  {
  }

  lemma {:induction false} ParseArgumentsSound(p: Progress, input: bytes, free: nat)
    requires WellStarted(p)
    ensures var r := ParseArguments(p, input, free);
            && IsSuffix(r.rest, input)
            && (r.result.Err? ==> r.reserved == [])
            && (r.result.Ok? ==>
                  && r.result.value.Command? && |r.result.value.arguments| == p.count
                  && Acceptable(r.result.value.arguments)
                  && Sum(r.reserved) == Demand(r.result.value.arguments) <= free + Sum(p.reserved))
    decreases p.count - |p.args|
  {
    hide ReadArgumentHeader, ReadArgumentPayload, TotalLength, IsSuffix, Sum;
    SuffixOfItself(input);
    if |p.args| < p.count {
      var h := ReadArgumentHeader(p, input, free);
      if h.0.Ok? {
        var (q, length) := h.0.value;
        var d := ReadArgumentPayload(q, length, h.1);
        SuffixTrans(input, h.1, d.1);
        if d.0.Ok? {
          ArgumentKeepsWellStarted(p, q, length, h.1);
          ParseArgumentsSound(d.0.value, d.1, free - length);
          SuffixTrans(input, d.1, ParseArguments(d.0.value, d.1, free - length).rest);
        }
      }
    }
  }

  /** Whatever bytes arrive: a failed read holds nothing, and a command that is
      read is acceptable and holds exactly 64 bytes a slot plus its lengths. */
  lemma ParseRequestSound(input: bytes, free: nat)
    ensures var r := ParseRequest(input, free);
            && IsSuffix(r.rest, input)
            && (r.result.Err? || r.result.value.Eof? ==> r.reserved == [])
            && (r.result.Ok? && r.result.value.Command? ==>
                  && Acceptable(r.result.value.arguments)
                  && Sum(r.reserved) == Demand(r.result.value.arguments) <= free)
  {
    hide ParseArguments, StartRequest;
    var s := StartRequest(input, free);
    if s.0.Begun? {
      var left := free - Sum(s.0.progress.reserved);
      ParseArgumentsSound(s.0.progress, s.1, left);
      SuffixTrans(input, s.1, ParseArguments(s.0.progress, s.1, left).rest);
    }
  }

  /** Every command within the limits fits the idle shared budget. */
  lemma AcceptableFitsIdleBudget(args: seq<bytes>)
    requires Acceptable(args)
    ensures Demand(args) <= MAX_IN_FLIGHT_REQUEST_BYTES
  {
  }

  // ------------------------------------------------------------------- round trip

  /** The permits a command holds, in the order they were taken. */
  function PayloadPermits(args: seq<bytes>): seq<nat> {
    if args == [] then []
    else (if args[0] == [] then [] else [|args[0]|]) + PayloadPermits(args[1..])
  }

  function Reservation(args: seq<bytes>): seq<nat> {
    if args == [] then [] else [ARGUMENT_SLOT_OVERHEAD_BYTES * |args|] + PayloadPermits(args)
  }

  lemma {:induction false} ParseEncodedArguments(p: Progress, args: seq<bytes>, rest: bytes, free: nat)
    requires |p.args| + |args| == p.count
    requires forall i :: 0 <= i < |args| ==> |args[i]| <= MAX_REQUEST_BULK
    requires p.total + TotalLength(args) <= MAX_REQUEST_BYTES && TotalLength(args) <= free
    ensures ParseArguments(p, EncodeArguments(args) + rest, free)
            == Parsed(Ok(Command(p.args + args)), rest, p.reserved + PayloadPermits(args))
    decreases |args|
  {
    hide ParseArguments, EncodeArguments, TakeLine, TrimmedNumber;
    if args == [] {
      NoArgumentsEncoded(rest);
      NoneToParse(p, rest, free);
      assert p.args + [] == p.args && p.reserved + [] == p.reserved;
    } else {
      var a, others := args[0], args[1..];
      var next := EncodeArguments(others) + rest;
      assert [a] + others == args;
      EncodedArgumentCut(a, others, rest);
      NumberLine('$' as int, |a|, a + CRLF + next);
      PayloadCut(a, next);
      var held := if a == [] then [] else [|a|];
      var q := p.(total := p.total + |a|, reserved := p.reserved + held);
      var q' := q.(args := q.args + [a]);
      ArgumentStep(p, q, a, EncodeArguments(args) + rest, next, free);
      ParseEncodedArguments(q', others, rest, free - |a|);
      assert q'.args + others == p.args + args;
      Assoc(p.reserved, held, PayloadPermits(others));
    }
  }

  lemma NoneToParse(p: Progress, rest: bytes, free: nat)
    requires |p.args| == p.count
    ensures ParseArguments(p, rest, free) == Parsed(Ok(Command(p.args)), rest, p.reserved)
  {
  }

  lemma EncodedArgumentCut(a: bytes, others: seq<bytes>, rest: bytes)
    ensures EncodeArguments([a] + others) + rest
            == ['$' as int] + PrintInt(|a|) + CRLF + (a + CRLF + (EncodeArguments(others) + rest))
  {
    assert ([a] + others)[1..] == others;
    var line := ['$' as int] + PrintInt(|a|) + CRLF;
    Assoc(line, a + CRLF, EncodeArguments(others));
    Assoc(line, (a + CRLF) + EncodeArguments(others), rest);
    Assoc(a + CRLF, EncodeArguments(others), rest);
  }

  lemma PayloadCut(a: bytes, next: bytes)
    ensures var input := a + CRLF + next;
            && |input| >= |a| + 2 && input[..|a|] == a && input[|a| + 2..] == next
            && EndsWithCrlf(input[..|a| + 2])
  {
    var input := a + CRLF + next;
    assert input[..|a| + 2] == a + CRLF;
    assert (a + CRLF)[|a|..] == CRLF;
  }

  lemma ArgumentStep(p: Progress, q: Progress, a: bytes, input: bytes, next: bytes, free: nat)
    requires |p.args| < p.count && |a| <= MAX_REQUEST_BULK && |a| <= free && p.total + |a| <= MAX_REQUEST_BYTES
    requires var line := TakeLine(input);
             && line.0.Line? && line.1 == a + CRLF + next && line.0.text != []
             && line.0.text[0] == '$' as int && TrimmedNumber(line.0.text[1..]) == Some(|a|)
    requires q == p.(total := p.total + |a|, reserved := p.reserved + if a == [] then [] else [|a|])
    ensures ParseArguments(p, input, free) == ParseArguments(q.(args := q.args + [a]), next, free - |a|)
  {
    hide TakeLine, TrimmedNumber, ParseArguments;
    PayloadCut(a, next);
    assert ReadArgumentHeader(p, input, free).0 == Ok((q, |a|));
    assert ReadArgumentPayload(q, |a|, a + CRLF + next) == (Ok(q.(args := q.args + [a])), next);
    OneArgument(p, q, |a|, input, a + CRLF + next, q.(args := q.args + [a]), next, free);
  }

  lemma OneArgument(p: Progress, q: Progress, length: nat, input: bytes, mid: bytes, q': Progress, next: bytes, free: nat)
    requires |p.args| < p.count && length <= free
    requires ReadArgumentHeader(p, input, free) == (Ok((q, length)), mid)
    requires ReadArgumentPayload(q, length, mid) == (Ok(q'), next)
    ensures ParseArguments(p, input, free) == ParseArguments(q', next, free - length)
  {
    hide ReadArgumentHeader, ReadArgumentPayload;
  }

  /** `read_request` on an encoded command gives back exactly its arguments, leaves
      what follows and holds the declared sizes - for precisely the commands that
      are within the limits and fit what is free. */
  lemma CommandRoundTrip(args: seq<bytes>, rest: bytes, free: nat)
    ensures ParseRequest(EncodeCommand(args) + rest, free) == Parsed(Ok(Command(args)), rest, Reservation(args))
            <==> Acceptable(args) && Demand(args) <= free
  {
    hide ParseRequest, EncodeArguments, EncodeCommand;
    ParseRequestSound(EncodeCommand(args) + rest, free);
    if Acceptable(args) && Demand(args) <= free {
      ParseEncoded(args, rest, free);
    }
  }

  lemma ParseEncoded(args: seq<bytes>, rest: bytes, free: nat)
    requires Acceptable(args) && Demand(args) <= free
    ensures ParseRequest(EncodeCommand(args) + rest, free) == Parsed(Ok(Command(args)), rest, Reservation(args))
  {
    hide TakeLine, TrimmedNumber, ParseArguments, EncodeArguments, PayloadPermits, TotalLength;
    var tail := EncodeArguments(args) + rest;
    var input := EncodeCommand(args) + rest;
    assert input == ['*' as int] + PrintInt(|args|) + CRLF + tail;
    NumberLine('*' as int, |args|, tail);
    if args == [] {
      NoArgumentsEncoded(rest);
    } else {
      var held := [ARGUMENT_SLOT_OVERHEAD_BYTES * |args|];
      var p := Progress(|args|, [], 0, held);
      assert StartRequest(input, free) == (Begun(p), tail);
      assert Sum(held) == held[0] by { assert held[1..] == []; }
      ParseEncodedArguments(p, args, rest, free - held[0]);
      assert [] + args == args;
    }
  }

  lemma NoArgumentsEncoded(rest: bytes)
    ensures EncodeArguments([]) + rest == rest
  {
  }

  /** A command is also one reply value on the wire, so the upstream side can be
      read with either parser. */
  lemma {:induction false} CommandIsArrayOfBulks(args: seq<bytes>)
    ensures EncodeCommand(args) == Resp.Encode(Resp.Array(Bulks(args)))
  {
    hide Resp.EncodeAll, Resp.Encode;
    EncodeParts(Resp.Array(Bulks(args)), []);
    ArgumentsAreBulks(args);
    var v := Resp.Array(Bulks(args));
    assert Resp.Encode(v) + [] == Resp.Encode(v);
    assert Resp.Blob(v) + Resp.EncodeAll(Bulks(args)) + [] == Resp.EncodeAll(Bulks(args));
  }

  function Bulks(args: seq<bytes>): (vs: seq<Resp.RespValue>)
    ensures |vs| == |args|
  {
    if args == [] then [] else [Resp.Bulk(args[0])] + Bulks(args[1..])
  }

  lemma {:induction false} ArgumentsAreBulks(args: seq<bytes>)
    ensures EncodeArguments(args) == Resp.EncodeAll(Bulks(args))
  {
    hide Resp.Encode;
    if args != [] {
      ArgumentsAreBulks(args[1..]);
      BulkEncoding(args[0]);
      assert Bulks(args)[1..] == Bulks(args[1..]);
    }
  }

  lemma BulkEncoding(a: bytes)
    ensures Resp.Encode(Resp.Bulk(a)) == ['$' as int] + PrintInt(|a|) + CRLF + (a + CRLF)
  {
    var v := Resp.Bulk(a);
    EncodeParts(v, []);
    assert Resp.Encode(v) + [] == Resp.Encode(v);
    assert Resp.Blob(v) + Resp.EncodeAll(Resp.Kids(v)) + [] == a + CRLF;
  }
}
