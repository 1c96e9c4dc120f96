/** The refusals of the policy as replies: always text, and one frame each unless a client
    puts a line feed where it is quoted back. */
module PolicyReplies {
  import opened Prelude
  import opened Decimal
  import opened Utf8
  import opened Text
  import opened Grammar
  import opened Range
  import opened Policy
  import opened PolicyProofs
  import Resp
  import RespRoundTrip
  import RespAccounting
  import Request
  import Connection
  import ConnectionTrace

  // ------------------------------------------------------------------- text stays text

  lemma {:induction false} StartStaysValid(s: bytes)
    requires ValidUtf8(s)
    ensures ValidUtf8(TrimStart(s))
  {
    if WhiteHead(s) > 0 {
      assert Scan(s) == (WhiteHead(s), true);
      StartStaysValid(s[WhiteHead(s)..]);
    }
  }

  /** Taking a white-space character off the end leaves whole characters. */
  lemma {:induction false} TailComesOff(s: bytes)
    requires ValidUtf8(s) && WhiteTail(s) > 0
    ensures ValidUtf8(s[..|s| - WhiteTail(s)])
    decreases |s|
  {
    var k := WhiteTail(s);
    var (m, _) := Scan(s);
    var front, tail := s[..|s| - k], s[m..];
    if m + k <= |s| {
      assert WhiteTail(tail) == k;
      TailComesOff(tail);
      assert front[m..] == tail[..|tail| - k];
      assert front != [] && Scan(front) == (m, true);
    } else {
      assert !Continuation(s[|s| - k]);
      assert forall i :: 1 <= i < m ==> Continuation(s[i]);
      assert front == [];
    }
  }

  lemma {:induction false} EndStaysValid(s: bytes)
    requires ValidUtf8(s)
    ensures ValidUtf8(TrimEnd(s))
    decreases |s|
  {
    if WhiteTail(s) > 0 {
      TailComesOff(s);
      EndStaysValid(s[..|s| - WhiteTail(s)]);
    }
  }

  lemma {:induction false} UpperStaysValid(s: bytes)
    requires ValidUtf8(s)
    ensures ValidUtf8(Upper(s))
  {
    if s != [] {
      var u := Upper(s);
      var n := Scan(s).0;
      UpperStaysValid(s[n..]);
      assert u[n..] == Upper(s[n..]);
      assert forall i :: 0 <= i < |s| ==> (s[i] >= 0x80 ==> u[i] == s[i]) && (s[i] < 0x80 ==> u[i] < 0x80);
      assert Scan(u) == Scan(s);
    }
  }

  /** Text, and without line feeds if so asked. */
  predicate Sound(s: bytes, lines: bool) {
    ValidUtf8(s) && (lines ==> LF !in s)
  }

  predicate AllSound(words: seq<bytes>, lines: bool) {
    forall i :: 0 <= i < |words| ==> Sound(words[i], lines)
  }

  lemma NormalizedIsSound(s: bytes, lines: bool)
    requires Sound(s, lines)
    ensures Sound(Normalize(s), lines)
  {
    hide ValidUtf8, TrimStart, TrimEnd;
    var a := TrimStart(s);
    var b := TrimEnd(a);
    StartStaysValid(s);
    StartIsTrimmed(s);
    EndStaysValid(a);
    EndIsTrimmed(a);
    UpperStaysValid(b);
    if LF in Upper(b) {
      var i :| 0 <= i < |b| && Upper(b)[i] == LF;
      assert b[i] == LF && a[i] == LF && s[i + (|s| - |a|)] == LF;
    }
  }

  lemma LossyIsSound(s: bytes, lines: bool)
    requires lines ==> LF !in s
    ensures Sound(Lossy(s), lines)
  {
    LossyRepairs(s);
  }

  lemma Joins(a: bytes, b: bytes, lines: bool)
    requires Sound(a, lines) && Sound(b, lines)
    ensures Sound(a + b, lines)
  {
    ValidConcat(a, b);
  }

  lemma PrintableIsSound(s: bytes, lines: bool)
    requires forall b :: b in s ==> 32 <= b <= 126
    ensures Sound(s, lines)
  {
    AsciiIsValid(s);
  }

  /** Fixed texts are sound. */
  lemma FixedTexts(lines: bool)
    ensures forall text: string :: Sound(Ascii(text), lines)
    ensures forall n: nat :: Sound(Print(n), lines)
  {
    forall text: string
      ensures Sound(Ascii(text), lines)
    {
      PrintableIsSound(Ascii(text), lines);
    }
    forall n: nat
      ensures Sound(Print(n), lines)
    {
      var p := Print(n);
      assert forall i :: 0 <= i < |p| ==> IsDigit(p[i]);
      PrintableIsSound(p, lines);
    }
  }

  lemma Joined(lines: bool)
    ensures forall a, b :: Sound(a, lines) && Sound(b, lines) ==> Sound(a + b, lines)
  {
    forall a, b | Sound(a, lines) && Sound(b, lines)
      ensures Sound(a + b, lines)
    {
      Joins(a, b, lines);
    }
  }

  // ------------------------------------------------------------------ what is echoed

  /** The word at which the options of COPY stop making sense. */
  function CopyEcho(words: seq<bytes>, sawDb: bool, sawReplace: bool): seq<bytes> {
    if words == [] then []
    else if words[0] == KW_DB then
      if sawDb || |words| < 2 || !DatabaseExists(words[1]) then [] else CopyEcho(words[2..], true, sawReplace)
    else if words[0] == KW_REPLACE then
      if sawReplace then [] else CopyEcho(words[1..], sawDb, true)
    else [words[0]]
  }

  /** The word left over after an XTRIM specification. */
  function XtrimEcho(words: seq<bytes>): seq<bytes> {
    if |words| < 3 then []
    else
      match ParseTrim(words[1..])
      case Err(_) => []
      case Ok((_, rest)) => if rest == [] then [] else [rest[0]]
  }

  /** The arguments a rule quotes back when it refuses. */
  function RuleEcho(rule: Rule, arguments: seq<bytes>): seq<bytes> {
    if rule.Copy? && 2 <= |arguments| <= 5 then CopyEcho(arguments[2..], false, false)
    else if rule.Xtrim? then XtrimEcho(arguments)
    else []
  }

  /** The words a command's name is made of. */
  function NameWords(words: seq<bytes>): seq<bytes>
    requires words != []
  {
    if DOT in words[0] || words[0] != KW_COMMAND then [words[0]] else words[1..if |words| < 2 then 1 else 2]
  }

  /** The words of a normalized command that its refusal quotes: those of its name, and what
      its rule quotes if it has one. */
  function Echoed(allowlist: Allowlist, words: seq<bytes>): seq<bytes> {
    match NameAndArguments(words)
    case None => []
    case Some((name, arguments)) =>
      NameWords(words) + match allowlist(name) case None => [] case Some(rule) => RuleEcho(rule, arguments)
  }

  /** The same for a command as the proxy reads it. */
  function EchoedBack(allowlist: Allowlist, command: seq<bytes>): seq<bytes> {
    if command == [] || !ValidUtf8(command[0]) then [] else Echoed(allowlist, View(command))
  }

  predicate SomeLineFeed(words: seq<bytes>) {
    exists i :: 0 <= i < |words| && LF in words[i]
  }

  // ----------------------------------------------------------------------- the reasons

  lemma {:induction false} CopySound(words: seq<bytes>, sawDb: bool, sawReplace: bool, lines: bool)
    requires AllSound(CopyEcho(words, sawDb, sawReplace), lines)
    ensures CopyOptions(words, sawDb, sawReplace).Err? ==> Sound(CopyOptions(words, sawDb, sawReplace).error, lines)
  {
    hide Sound, Ascii, ParseU64, Refuse;
    FixedTexts(lines);
    if words != [] {
      NumberSound(lines);
      if words[0] == KW_DB {
        QuotingIsSound(words[0], lines);
        if |words| >= 2 && !sawDb && DatabaseExists(words[1]) { CopySound(words[2..], true, sawReplace, lines); }
      } else if words[0] == KW_REPLACE {
        QuotingIsSound(words[0], lines);
        if !sawReplace { CopySound(words[1..], sawDb, true, lines); }
      } else {
        assert CopyEcho(words, sawDb, sawReplace)[0] == words[0];
        QuotingIsSound(words[0], lines);
      }
    }
  }

  /** A word quoted between fixed texts. */
  lemma QuotingIsSound(word: bytes, lines: bool)
    requires Sound(word, lines)
    ensures forall text: string :: Sound(Ascii(text) + word, lines) && Sound(word + Ascii(text), lines)
  {
    FixedTexts(lines);
    Joined(lines);
  }

  lemma NumberSound(lines: bool)
    ensures forall text, what :: CheckU64(text, what).Err? ==> Sound(CheckU64(text, what).error, lines)
    ensures forall text :: CheckCount(text).Err? ==> Sound(CheckCount(text).error, lines)
  {
    hide Sound, Ascii, ParseU64;
    FixedTexts(lines);
    Joined(lines);
  }

  lemma {:induction false} ZaddOptionsSound(words: seq<bytes>, seen: seq<bytes>, lines: bool)
    ensures ZaddOptions(words, seen).Err? ==> Sound(ZaddOptions(words, seen).error, lines)
  {
    hide Sound, Ascii, IsZaddOption;
    if words != [] {
      if IsZaddOption(words[0]) { OptionIsSound(words[0], lines); QuotingIsSound(words[0], lines); }
      ZaddOptionsSound(words[1..], seen + [words[0]], lines);
    }
  }

  lemma OptionIsSound(word: bytes, lines: bool)
    requires IsZaddOption(word)
    ensures Sound(word, lines)
  {
    hide Sound, Ascii;
    FixedTexts(lines);
  }

  lemma {:induction false} ScoresSound(words: seq<bytes>, lines: bool)
    requires |words| % 2 == 0
    ensures CheckScores(words).Some? ==> Sound(CheckScores(words).value, lines)
  {
    hide Sound, Ascii, IsScore, IsNan;
    FixedTexts(lines);
    if words != [] { ScoresSound(words[2..], lines); }
  }

  lemma ZaddSound(words: seq<bytes>, lines: bool)
    ensures ParseZadd(words).Err? ==> Sound(ParseZadd(words).error, lines)
  {
    hide Sound, Ascii, ZaddOptions, CheckScores, Refuse, PairUp;
    FixedTexts(lines);
    if |words| >= 3 {
      ZaddOptionsSound(words[1..], [], lines);
      var r := ZaddOptions(words[1..], []);
      if r.Ok? && |r.value.1| % 2 == 0 { ScoresSound(r.value.1, lines); }
    }
  }

  lemma ThresholdSound(strategy: bytes, threshold: bytes, lines: bool)
    ensures CheckThreshold(strategy, threshold).Some? ==> Sound(CheckThreshold(strategy, threshold).value, lines)
  {
    hide Sound, Ascii, CheckU64, FirstDash;
    FixedTexts(lines);
    NumberSound(lines);
  }

  lemma TrimSound(words: seq<bytes>, lines: bool)
    ensures ParseTrim(words).Err? ==> Sound(ParseTrim(words).error, lines)
  {
    hide Sound, Ascii, CheckThreshold, CheckCount, Refuse;
    FixedTexts(lines);
    NumberSound(lines);
    forall i, k | 0 <= i < |words| && 0 <= k < |words|
      ensures CheckThreshold(words[i], words[k]).Some? ==> Sound(CheckThreshold(words[i], words[k]).value, lines)
    {
      ThresholdSound(words[i], words[k], lines);
    }
  }

  lemma XtrimSound(words: seq<bytes>, lines: bool)
    requires AllSound(XtrimEcho(words), lines)
    ensures ParseXtrim(words).Err? ==> Sound(ParseXtrim(words).error, lines)
  {
    hide Sound, Ascii, ParseTrim, Refuse;
    FixedTexts(lines);
    if |words| >= 3 {
      TrimSound(words[1..], lines);
      if XtrimEcho(words) != [] { QuotingIsSound(XtrimEcho(words)[0], lines); }
    }
  }

  lemma EntrySound(words: seq<bytes>, lines: bool)
    ensures ParseEntry(words).Err? ==> Sound(ParseEntry(words).error, lines)
  {
    hide Sound, Ascii, Refuse, PairUp;
    FixedTexts(lines);
  }

  lemma XaddSound(words: seq<bytes>, lines: bool)
    ensures ParseXadd(words).Err? ==> Sound(ParseXadd(words).error, lines)
  {
    hide Sound, Ascii, ParseTrim, ParseEntry, Refuse;
    FixedTexts(lines);
    if |words| >= 4 {
      var after := words[if words[1] == KW_NOMKSTREAM then 2 else 1..];
      TrimSound(after, lines);
      var r := OptionalTrim(after);
      if r.Ok? { EntrySound(r.value.1, lines); }
    }
  }

  lemma CopyCommandSound(words: seq<bytes>, lines: bool)
    requires AllSound(RuleEcho(Copy, words), lines)
    ensures ParseCopy(words).Err? ==> Sound(ParseCopy(words).error, lines)
  {
    hide Sound, Ascii, CopyOptions, Refuse;
    FixedTexts(lines);
    if 2 <= |words| <= 5 { CopySound(words[2..], false, false, lines); }
  }

  lemma CountsSound(n: Small, low: Small, high: Small, words: seq<bytes>, lines: bool)
    ensures JudgeExact(n, words).Some? ==> Sound(JudgeExact(n, words).value, lines)
    ensures JudgeBetween(low, high, words).Some? ==> Sound(JudgeBetween(low, high, words).value, lines)
    ensures JudgeAtMost(n, words).Some? ==> Sound(JudgeAtMost(n, words).value, lines)
  {
    hide Sound, Ascii, Print;
    FixedTexts(lines);
    Joined(lines);
  }

  lemma RangeSound(start: bytes, stop: bytes, limit: nat, what: string, lines: bool)
    ensures JudgeBoundedRange(start, stop, limit, what).Some?
            ==> Sound(JudgeBoundedRange(start, stop, limit, what).value, lines)
  {
    hide Sound, Ascii, Print, BoundedRange, ParseI64;
    FixedTexts(lines);
    Joined(lines);
  }

  lemma SelectSound(words: seq<bytes>, lines: bool)
    ensures JudgeSelect(words).Some? ==> Sound(JudgeSelect(words).value, lines)
  {
    hide Sound, Ascii, CheckU64, JudgeExact;
    FixedTexts(lines);
    CountsSound(1, 0, 0, words, lines);
    NumberSound(lines);
  }

  lemma SetBitSound(words: seq<bytes>, lines: bool)
    ensures JudgeSetBit(words).Some? ==> Sound(JudgeSetBit(words).value, lines)
  {
    hide Sound, Ascii, CheckU64, JudgeExact;
    FixedTexts(lines);
    CountsSound(3, 0, 0, words, lines);
    NumberSound(lines);
  }

  lemma RandomMemberSound(words: seq<bytes>, lines: bool)
    ensures JudgeRandomMember(words).Some? ==> Sound(JudgeRandomMember(words).value, lines)
  {
    hide Sound, Ascii, ParseI64, JudgeBetween;
    FixedTexts(lines);
    CountsSound(0, 1, 3, words, lines);
  }

  lemma SortedRangeSound(words: seq<bytes>, lines: bool)
    ensures JudgeSortedRange(words).Some? ==> Sound(JudgeSortedRange(words).value, lines)
  {
    hide Sound, Ascii, JudgeBoundedRange, JudgeBetween;
    FixedTexts(lines);
    CountsSound(0, 3, 4, words, lines);
    if |words| >= 3 { RangeSound(words[1], words[2], MAX_COLLECTION_PAGE, "range window", lines); }
  }

  lemma LimitedRangeSound(words: seq<bytes>, lines: bool)
    ensures JudgeLimitedRange(words).Some? ==> Sound(JudgeLimitedRange(words).value, lines)
  {
    hide Sound, Ascii, CheckU64, CheckCount, JudgeBetween, Position;
    FixedTexts(lines);
    CountsSound(0, 6, 7, words, lines);
    NumberSound(lines);
  }

  lemma HelloSound(words: seq<bytes>, lines: bool)
    ensures JudgeHello(words).Some? ==> Sound(JudgeHello(words).value, lines)
  {
    hide Sound, Ascii, JudgeExact;
    FixedTexts(lines);
    CountsSound(1, 0, 0, words, lines);
  }

  lemma OptionalCountSound(words: seq<bytes>, lines: bool)
    ensures JudgeOptionalCount(words).Some? ==> Sound(JudgeOptionalCount(words).value, lines)
  {
    hide Sound, Ascii, CheckCount, JudgeBetween;
    FixedTexts(lines);
    CountsSound(0, 1, 2, words, lines);
    NumberSound(lines);
  }

  lemma GetBitSound(words: seq<bytes>, lines: bool)
    ensures JudgeGetBit(words).Some? ==> Sound(JudgeGetBit(words).value, lines)
  {
    hide Sound, Ascii, CheckU64, JudgeExact;
    FixedTexts(lines);
    CountsSound(2, 0, 0, words, lines);
    NumberSound(lines);
  }

  lemma StreamRangeSound(words: seq<bytes>, lines: bool)
    ensures JudgeStreamRange(words).Some? ==> Sound(JudgeStreamRange(words).value, lines)
  {
    hide Sound, Ascii, CheckCount;
    FixedTexts(lines);
    NumberSound(lines);
  }

  lemma RangeWordsSound(words: seq<bytes>, limit: nat, what: string, lines: bool)
    ensures JudgeRangeWords(words, limit, what).Some? ==> Sound(JudgeRangeWords(words, limit, what).value, lines)
  {
    hide Sound, JudgeExact, JudgeBoundedRange;
    CountsSound(3, 0, 0, words, lines);
    if |words| == 3 { RangeSound(words[1], words[2], limit, what, lines); }
  }

  lemma PairsSound(words: seq<bytes>, lines: bool)
    ensures JudgePairs(words).Some? ==> Sound(JudgePairs(words).value, lines)
    ensures JudgeHashPairs(words).Some? ==> Sound(JudgeHashPairs(words).value, lines)
    ensures JudgeKeyedItems(words).Some? ==> Sound(JudgeKeyedItems(words).value, lines)
  {
    hide Sound, Ascii;
    FixedTexts(lines);
  }

  /** Every reason is text, and free of line feeds when what it quotes is. */
  lemma ReasonIsSound(rule: Rule, words: seq<bytes>, lines: bool)
    requires AllSound(RuleEcho(rule, words), lines)
    ensures Judge(rule, words).Some? ==> Sound(Judge(rule, words).value, lines)
  {
    hide Sound, ParseCopy, ParseZadd, ParseXadd, ParseXtrim, JudgeExact, JudgeBetween, JudgeAtMost, JudgeSelect,
         JudgeSetBit, JudgeRandomMember, JudgeSortedRange, JudgeLimitedRange, JudgeHello, JudgePairs,
         JudgeHashPairs, JudgeKeyedItems, JudgeOptionalCount, JudgeGetBit, JudgeRangeWords, JudgeStreamRange,
         XtrimEcho, CopyEcho, AllSound;
    match rule
    case Exact(n) => CountsSound(n, 0, 0, words, lines);
    case AtMost(n) => CountsSound(n, 0, 0, words, lines);
    case Between(low, high) => CountsSound(0, low, high, words, lines);
    case Hello => HelloSound(words, lines);
    case Select => SelectSound(words, lines);
    case SetBit => SetBitSound(words, lines);
    case GetBit => GetBitSound(words, lines);
    case Copy => CopyCommandSound(words, lines);
    case Zadd => ZaddSound(words, lines);
    case Xadd => XaddSound(words, lines);
    case Xtrim => XtrimSound(words, lines);
    case RandomMember => RandomMemberSound(words, lines);
    case SortedCollectionRange => SortedRangeSound(words, lines);
    case LimitedSortedRange => LimitedRangeSound(words, lines);
    case OptionalCount => OptionalCountSound(words, lines);
    case StringRange => RangeWordsSound(words, MAX_STRING_RANGE, "byte range", lines);
    case CollectionRange => RangeWordsSound(words, MAX_COLLECTION_PAGE, "range window", lines);
    case StreamRange => StreamRangeSound(words, lines);
    case KeyValuePairs => PairsSound(words, lines);
    case HashPairs => PairsSound(words, lines);
    case KeyedItems => PairsSound(words, lines);
  }

  // ---------------------------------------------------------------------- the refusals

  lemma ClassifiedIsSound(allowlist: Allowlist, words: seq<bytes>, lines: bool)
    requires AllSound(Echoed(allowlist, words), lines)
    ensures Sound(ClassifyNormalized(allowlist, words).Message(), lines)
  {
    hide Sound, Ascii, Judge, RuleEcho;
    FixedTexts(lines);
    Joined(lines);
    NothingIsSound(lines);
    var named := NameAndArguments(words);
    if named.Some? {
      var (name, arguments) := named.value;
      var echoed := Echoed(allowlist, words);
      assert echoed[0] == NameWords(words)[0];
      NameIsSound(words, lines);
      if allowlist(name).Some? {
        var quoted := RuleEcho(allowlist(name).value, arguments);
        assert echoed[|NameWords(words)|..] == quoted;
        ReasonIsSound(allowlist(name).value, arguments, lines);
      }
    }
  }

  lemma NameIsSound(words: seq<bytes>, lines: bool)
    requires NameAndArguments(words).Some? && Sound(NameWords(words)[0], lines)
    ensures Sound(NameAndArguments(words).value.0, lines)
  {
    hide Sound, Ascii;
    Joined(lines);
    DotIsSound(lines);
  }

  lemma DotIsSound(lines: bool)
    ensures Sound([DOT], lines) && Sound(KW_COMMAND, lines)
  {
    PrintableIsSound([DOT], lines);
    FixedTexts(lines);
  }

  lemma NothingIsSound(lines: bool)
    ensures Sound([], lines)
  {
  }

  predicate FreeOfLineFeeds(words: seq<bytes>) {
    forall i :: 0 <= i < |words| ==> LF !in words[i]
  }

  /** The policy's view of a command is text, and shows line feeds only where it has them. */
  lemma ViewIsSound(words: seq<bytes>, lines: bool)
    requires words != [] && ValidUtf8(words[0]) && (lines ==> FreeOfLineFeeds(words))
    ensures AllSound(View(words), lines)
  {
    hide Sound, Normalize, Lossy, ValidUtf8;
    SoundMeans(words[0], lines);
    NormalizedIsSound(words[0], lines);
    forall i | 1 <= i < |words|
      ensures Sound(Normalize(Lossy(words[i])), lines)
    {
      LossyIsSound(words[i], lines);
      NormalizedIsSound(Lossy(words[i]), lines);
    }
  }

  lemma {:induction false} CopyEchoIsThere(words: seq<bytes>, sawDb: bool, sawReplace: bool)
    ensures forall e :: e in CopyEcho(words, sawDb, sawReplace) ==> e in words
  {
    hide DatabaseExists;
    if words != [] {
      if words[0] == KW_DB {
        if |words| >= 2 { CopyEchoIsThere(words[2..], true, sawReplace); }
      } else if words[0] == KW_REPLACE {
        CopyEchoIsThere(words[1..], sawDb, true);
      }
    }
  }

  lemma RuleEchoIsThere(rule: Rule, arguments: seq<bytes>)
    ensures forall e :: e in RuleEcho(rule, arguments) ==> e in arguments
  {
    hide ParseTrim, CopyEcho;
    if 2 <= |arguments| <= 5 { CopyEchoIsThere(arguments[2..], false, false); }
    if |arguments| >= 3 { TrimReason(arguments[1..]); }
  }

  /** Only words of the command are quoted. */
  lemma EchoIsThere(allowlist: Allowlist, words: seq<bytes>)
    ensures forall e :: e in Echoed(allowlist, words) ==> e in words
  {
    hide RuleEcho;
    var named := NameAndArguments(words);
    if named.Some? && allowlist(named.value.0).Some? {
      RuleEchoIsThere(allowlist(named.value.0).value, named.value.1);
    }
  }

  /** What is quoted is text; it is sound when it holds no line feed. */
  lemma EchoIsSound(allowlist: Allowlist, command: seq<bytes>, lines: bool)
    requires command != [] && ValidUtf8(command[0])
    requires lines ==> !SomeLineFeed(EchoedBack(allowlist, command))
    ensures AllSound(Echoed(allowlist, View(command)), lines)
  {
    hide View, Echoed, ValidUtf8;
    ViewIsSound(command, false);
    EchoIsThere(allowlist, View(command));
    var echoed, view := Echoed(allowlist, View(command)), View(command);
    forall i | 0 <= i < |echoed|
      ensures Sound(echoed[i], lines)
    {
      assert echoed[i] in view;
      var k :| 0 <= k < |view| && view[k] == echoed[i];
      assert Sound(view[k], false);
    }
  }

  lemma NonUtf8IsSound(lines: bool)
    ensures Sound(Rejected(Ascii("<NON-UTF8>"), Ascii("command names must be valid UTF-8")).Message(), lines)
  {
    hide Sound, Ascii;
    FixedTexts(lines);
    Joined(lines);
  }

  lemma RefusalIsSound(allowlist: Allowlist, command: seq<bytes>, lines: bool)
    requires lines ==> !SomeLineFeed(EchoedBack(allowlist, command))
    ensures Refusal(allowlist)(command).Some? ==> Sound(Refusal(allowlist)(command).value, lines)
  {
    hide Sound, Ascii, ClassifyNormalized, View, ValidUtf8, Decision.Message, AllSound, SomeLineFeed;
    if command == [] {
      assert Echoed(allowlist, []) == [];
      assert AllSound([], lines) by { NoneSound(lines); }
      ClassifiedIsSound(allowlist, [], lines);
    } else if ValidUtf8(command[0]) {
      EchoIsSound(allowlist, command, lines);
      ClassifiedIsSound(allowlist, View(command), lines);
    } else {
      NonUtf8IsSound(lines);
    }
  }

  lemma NoneSound(lines: bool)
    ensures AllSound([], lines)
  {
  }

  lemma SoundMeans(s: bytes, lines: bool)
    ensures Sound(s, lines) <==> ValidUtf8(s) && (lines ==> LF !in s)
  {
  }

  // -------------------------------------------------------------- line feeds come through

  lemma {:induction false} CopyQuotes(words: seq<bytes>, sawDb: bool, sawReplace: bool)
    requires SomeLineFeed(CopyEcho(words, sawDb, sawReplace))
    ensures CopyOptions(words, sawDb, sawReplace).Err? && LF in CopyOptions(words, sawDb, sawReplace).error
  {
    hide Ascii, ParseU64, Refuse;
    if words != [] {
      if words[0] == KW_DB {
        CopyQuotes(words[2..], true, sawReplace);
      } else if words[0] == KW_REPLACE {
        CopyQuotes(words[1..], sawDb, true);
      }
    }
  }

  lemma XtrimQuotes(words: seq<bytes>)
    requires SomeLineFeed(XtrimEcho(words))
    ensures ParseXtrim(words).Err? && LF in ParseXtrim(words).error
  {
    hide Ascii, ParseTrim, Refuse;
  }

  lemma ReasonQuotes(rule: Rule, arguments: seq<bytes>)
    requires SomeLineFeed(RuleEcho(rule, arguments))
    ensures Judge(rule, arguments).Some? && LF in Judge(rule, arguments).value
  {
    hide ParseXtrim, XtrimEcho, CopyOptions, CopyEcho, SomeLineFeed;
    NoLineFeeds();
    if rule.Copy? && 2 <= |arguments| <= 5 {
      CopyQuotes(arguments[2..], false, false);
    } else if rule.Xtrim? {
      XtrimQuotes(arguments);
    }
  }

  lemma NoLineFeeds()
    ensures !SomeLineFeed([])
  {
  }

  lemma NameQuotes(words: seq<bytes>)
    requires NameAndArguments(words).Some? && SomeLineFeed(NameWords(words))
    ensures LF in NameAndArguments(words).value.0
  {
    hide Ascii;
  }

  /** A refusal holds every line feed of the words it quotes. */
  lemma MessageQuotes(allowlist: Allowlist, words: seq<bytes>)
    requires ClassifyNormalized(allowlist, words).Rejected? && SomeLineFeed(Echoed(allowlist, words))
    ensures LF in ClassifyNormalized(allowlist, words).Message()
  {
    hide Judge, RuleEcho, Ascii, NameWords;
    var (name, arguments) := NameAndArguments(words).value;
    var echoed, own := Echoed(allowlist, words), NameWords(words);
    var i :| 0 <= i < |echoed| && LF in echoed[i];
    if i < |own| {
      assert LF in own[i];
      NameQuotes(words);
    } else {
      var rule := allowlist(name).value;
      assert RuleEcho(rule, arguments)[i - |own|] == echoed[i];
      ReasonQuotes(rule, arguments);
    }
  }

  /** The refusal of a command the proxy can read is one reply frame exactly when no word it
      quotes holds a line feed: the words of the name, an unknown COPY option, and what
      is left after an XTRIM specification, each as trimmed and repaired. */
  lemma RefusalIsCleanExactly(allowlist: Allowlist, command: seq<bytes>)
    requires ShortNames(allowlist) && Request.Acceptable(command) && Refusal(allowlist)(command).Some?
    ensures ConnectionTrace.CleanMessage(Refusal(allowlist)(command).value) <==> !SomeLineFeed(EchoedBack(allowlist, command))
  {
    hide Connection.EncodeError, ValidUtf8, View, Echoed, SomeLineFeed, ClassifyNormalized, Decision.Message;
    var text := Refusal(allowlist)(command).value;
    RefusalIsSound(allowlist, command, false);
    RefusalFits(allowlist, command);
    ErrorReplyLength(text);
    if SomeLineFeed(EchoedBack(allowlist, command)) {
      NoLineFeeds();
      MessageQuotes(allowlist, View(command));
    } else {
      RefusalIsSound(allowlist, command, true);
    }
  }

  /** A command without line feeds has none quoted back. */
  lemma NoLineFeedNoneQuoted(allowlist: Allowlist, command: seq<bytes>)
    requires FreeOfLineFeeds(command)
    ensures !SomeLineFeed(EchoedBack(allowlist, command))
  {
    hide View, Echoed, ValidUtf8, Sound;
    if command != [] && ValidUtf8(command[0]) {
      ViewIsSound(command, true);
      EchoIsThere(allowlist, View(command));
      var echoed, view := Echoed(allowlist, View(command)), View(command);
      forall i | 0 <= i < |echoed|
        ensures LF !in echoed[i]
      {
        assert echoed[i] in view;
        var k :| 0 <= k < |view| && view[k] == echoed[i];
        SoundMeans(view[k], true);
      }
    }
  }

  /** The reason given for an unknown COPY option quotes it, line feeds included. */
  lemma UnknownOptionIsQuoted(source: bytes, destination: bytes, option: bytes)
    requires option != KW_DB && option != KW_REPLACE
    ensures Judge(Copy, [source, destination, option]) == Some(Ascii("unsupported COPY option ") + option)
    ensures LF in option ==> LF in Judge(Copy, [source, destination, option]).value
  {
    hide Ascii;
    assert [source, destination, option][2..] == [option];
  }

  /** Upper-case ASCII words without white space at their ends are seen as they are. */
  lemma SeenAsIs(word: bytes)
    requires forall b :: b in word ==> b < 97
    requires WhiteHead(word) == 0 && WhiteTail(word) == 0
    ensures ValidUtf8(word) && Normalize(word) == word && Normalize(Lossy(word)) == word
  {
    AsciiIsValid(word);
    LossyRepairs(word);
    TrimIsExact(word);
    assert forall i :: 0 <= i < |word| ==> word[i] in word;
    assert Upper(word) == word;
  }

  const TWO_LINES: bytes := [88, 10, 89]

  /** A command the proxy refuses with more than one frame: `COPY A B` and an option of two
      lines. Its refusal quotes the option, and what the client reads first is not it. */
  lemma TwoLineOptionBreaksTheFrame(allowlist: Allowlist, rest: bytes)
    requires allowlist(Ascii("COPY")) == Some(Copy)
    ensures var command := [Ascii("COPY"), Ascii("A"), Ascii("B"), TWO_LINES];
            var refusal, b := Refusal(allowlist)(command), Resp.FreshBudget(Resp.MAX_RESPONSE_BYTES);
            && refusal.Some? && SomeLineFeed(EchoedBack(allowlist, command))
            && Resp.Decode(Connection.EncodeError(refusal.value) + rest, 0, b)
               != Resp.Outcome(Ok(Resp.Error(refusal.value)), rest, RespRoundTrip.Charged(Resp.Error(refusal.value), b))
  {
    hide Resp.Decode, Connection.EncodeError, ValidUtf8, Normalize, Lossy;
    var copy, a, b, option := Ascii("COPY"), Ascii("A"), Ascii("B"), TWO_LINES;
    var command := [copy, a, b, option];
    assert copy == [67, 79, 80, 89];
    SeenAsIs(copy);
    SeenAsIs(a);
    SeenAsIs(b);
    SeenAsIs(option);
    CopyView(command, copy, a, b, option);
    RefusedCopy(allowlist, command);
    ConnectionTrace.ErrorFrame(Refusal(allowlist)(command).value, rest);
  }

  lemma CopyView(command: seq<bytes>, copy: bytes, a: bytes, b: bytes, option: bytes)
    requires command == [copy, a, b, option]
    requires Normalize(copy) == copy && Normalize(Lossy(a)) == a && Normalize(Lossy(b)) == b && Normalize(Lossy(option)) == option
    ensures View(command) == command
  {
    hide Normalize, Lossy;
    assert command[1..] == [a, b, option];
  }

  lemma RefusedCopy(allowlist: Allowlist, command: seq<bytes>)
    requires |command| == 4 && command[0] == Ascii("COPY") && command[3] == TWO_LINES
    requires View(command) == command && ValidUtf8(command[0]) && allowlist(Ascii("COPY")) == Some(Copy)
    ensures Refusal(allowlist)(command).Some? && LF in Refusal(allowlist)(command).value
    ensures SomeLineFeed(EchoedBack(allowlist, command))
  {
    hide View, ValidUtf8, RuleEcho, Judge;
    var arguments := command[1..];
    UnknownOptionIsQuoted(command[1], command[2], TWO_LINES);
    assert arguments == [command[1], command[2], TWO_LINES];
    assert command[0] == [67, 79, 80, 89] && DOT !in command[0] && |KW_COMMAND| == 7;
    EchoedOption(arguments);
    var echoed := Echoed(allowlist, command);
    assert echoed == [command[0]] + [TWO_LINES];
    assert LF in echoed[1];
    MessageQuotes(allowlist, command);
  }

  lemma EchoedOption(arguments: seq<bytes>)
    requires |arguments| == 3 && arguments[2] == TWO_LINES
    ensures RuleEcho(Copy, arguments) == [TWO_LINES]
  {
    assert |KW_DB| == 2 && |KW_REPLACE| == 7;
    assert arguments[2..] == [TWO_LINES];
  }

  // ------------------------------------------------------------------ the policy connected

  /** Over every run of a client under the policy: while no refused command had a line feed
      quoted back, the client reads one reply for each command, in order. */
  lemma PolicyRepliesOnce(allowlist: Allowlist, input: bytes, turns: seq<ConnectionTrace.Turn>)
    requires ShortNames(allowlist)
    requires ConnectionTrace.Run(Refusal(allowlist), Connection.NewClient(input), turns).Some?
    requires var c := ConnectionTrace.Run(Refusal(allowlist), Connection.NewClient(input), turns).value;
             forall h :: h in c.handled && h.fate.Refused? ==> !SomeLineFeed(EchoedBack(allowlist, h.args))
    ensures ConnectionTrace.RepliesAreRight(
              Refusal(allowlist), ConnectionTrace.Run(Refusal(allowlist), Connection.NewClient(input), turns).value)
  {
    hide Refusal, ConnectionTrace.Run, ConnectionTrace.CleanMessage, ConnectionTrace.RepliesAreRight, EchoedBack,
         SomeLineFeed, Request.Acceptable;
    var policy := Refusal(allowlist);
    var c := ConnectionTrace.Run(policy, Connection.NewClient(input), turns).value;
    HandledAreReadable(policy, input, turns);
    forall h | h in c.handled && policy(h.args).Some?
      ensures ConnectionTrace.CleanMessage(policy(h.args).value)
    {
      RefusalIsCleanExactly(allowlist, h.args);
    }
    ConnectionTrace.OneReplyPerCommand(policy, input, turns);
  }

  /** What a client was sent under the policy reads back as one reply for each command exactly
      when no refused command that was answered had a line feed quoted back. */
  lemma PolicyRepliesExactly(allowlist: Allowlist, input: bytes, turns: seq<ConnectionTrace.Turn>)
    requires ShortNames(allowlist)
    requires ConnectionTrace.Run(Refusal(allowlist), Connection.NewClient(input), turns).Some?
    ensures var c := ConnectionTrace.Run(Refusal(allowlist), Connection.NewClient(input), turns).value;
            && |c.replies| <= |c.handled|
            && (RespAccounting.DecodeStream(Resp.EncodeAll(c.replies)) == Some(c.replies)
                <==> forall i :: 0 <= i < |c.replies| && c.handled[i].fate.Refused?
                                 ==> !SomeLineFeed(EchoedBack(allowlist, c.handled[i].args)))
  {
    hide Refusal, ConnectionTrace.Run, ConnectionTrace.CleanMessage, EchoedBack, SomeLineFeed, Request.Acceptable,
         RespAccounting.DecodeStream, Resp.EncodeAll;
    var policy := Refusal(allowlist);
    var c := ConnectionTrace.Run(policy, Connection.NewClient(input), turns).value;
    HandledAreReadable(policy, input, turns);
    ConnectionTrace.RepliesReadBackExactly(policy, input, turns);
    forall i | 0 <= i < |c.replies| && c.handled[i].fate.Refused?
      ensures ConnectionTrace.CleanRefusal(policy, c.handled[i]) <==> !SomeLineFeed(EchoedBack(allowlist, c.handled[i].args))
    {
      assert c.handled[i] in c.handled;
      RefusalIsCleanExactly(allowlist, c.handled[i].args);
    }
  }

  /** Every command decided on is one the proxy can read, and was refused exactly by the
      policy. */
  lemma HandledAreReadable(policy: Connection.Policy, input: bytes, turns: seq<ConnectionTrace.Turn>)
    requires ConnectionTrace.Run(policy, Connection.NewClient(input), turns).Some?
    ensures forall h :: h in ConnectionTrace.Run(policy, Connection.NewClient(input), turns).value.handled
                        ==> Request.Acceptable(h.args) && (h.fate.Refused? <==> policy(h.args).Some?)
  {
    hide Request.Acceptable, ConnectionTrace.Run, ConnectionTrace.ReadInv, ConnectionTrace.SentInv,
         ConnectionTrace.ReplyInv;
    ConnectionTrace.InvariantAtStart(policy, input);
    ConnectionTrace.RunKeepsInvariant(policy, input, Connection.NewClient(input), turns);
  }
}
