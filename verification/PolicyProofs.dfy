/** What the classification guarantees: one decision for one command however it arrives
    or is spelled, bounded selections, and refusals that always fit an error reply. */
module PolicyProofs {
  import opened Prelude
  import opened Decimal
  import opened Utf8
  import opened Text
  import opened Grammar
  import opened Range
  import opened Policy
  import Resp
  import Request
  import Connection

  // ------------------------------------------------------------------- the same decision

  predicate AllText(words: seq<bytes>) {
    forall w :: w in words ==> ValidUtf8(w)
  }

  lemma NormalizeAllText(words: seq<bytes>)
    requires words != [] && AllText(words)
    ensures NormalizeAll(words) == View(words)
  {
    hide Normalize, ValidUtf8, Lossy;
    forall w | w in words[1..]
      ensures Lossy(w) == w
    {
      assert w in words;
      LossyRepairs(w);
    }
    assert LossyAll(words[1..]) == words[1..];
  }

  /** A command made of text is judged alike over HTTP and over the RESP port. */
  lemma SameDecision(allowlist: Allowlist, words: seq<bytes>)
    requires AllText(words)
    ensures ClassifyBytes(allowlist, words) == ClassifyText(allowlist, words)
  {
    hide ClassifyNormalized, ValidUtf8, Normalize;
    if words != [] {
      assert words[0] in words;
      NormalizeAllText(words);
    }
  }

  /** Letter case and surrounding white space never change a decision. */
  lemma DecisionIgnoresCaseAndSpace(allowlist: Allowlist, a: seq<bytes>, b: seq<bytes>)
    requires |a| == |b| && forall i :: 0 <= i < |a| ==> Normalize(a[i]) == Normalize(b[i])
    ensures ClassifyText(allowlist, a) == ClassifyText(allowlist, b)
    ensures ClassifyText(allowlist, NormalizeAll(a)) == ClassifyText(allowlist, a)
  {
    hide Normalize, ClassifyNormalized;
    assert NormalizeAll(a) == NormalizeAll(b);
    forall i | 0 <= i < |a|
      ensures NormalizeAll(NormalizeAll(a))[i] == NormalizeAll(a)[i]
    {
      NormalizeIsIdempotent(a[i]);
    }
    assert NormalizeAll(NormalizeAll(a)) == NormalizeAll(a);
  }

  /** A subcommand may follow COMMAND as a word or after a dot. */
  lemma CommandSpellings(allowlist: Allowlist, sub: bytes, rest: seq<bytes>)
    ensures ClassifyNormalized(allowlist, [KW_COMMAND, sub] + rest)
         == ClassifyNormalized(allowlist, [KW_COMMAND + [DOT] + sub] + rest)
  {
    var two, one := [KW_COMMAND, sub] + rest, [KW_COMMAND + [DOT] + sub] + rest;
    assert two[2..] == rest && one[1..] == rest;
    assert forall b :: b in KW_COMMAND ==> b != DOT by {
      assert KW_COMMAND == [67, 79, 77, 77, 65, 78, 68];
    }
    assert one[0][|KW_COMMAND|] == DOT;
    hide Judge;
  }

  // ------------------------------------------------------------------ bounded selections

  /** An allowed index range selects a bounded number of elements, whatever the length of
      the collection it is applied to. */
  lemma AllowedRangeIsBounded(rule: Rule, words: seq<bytes>, length: nat)
    requires rule.StringRange? || rule.CollectionRange? || rule.SortedCollectionRange?
    requires Judge(rule, words).None?
    ensures |words| >= 3 && ParseI64(words[1]).Some? && ParseI64(words[2]).Some?
    ensures Selected(ParseI64(words[1]).value, ParseI64(words[2]).value, length)
            <= if rule.StringRange? then MAX_STRING_RANGE else MAX_COLLECTION_PAGE
  {
    hide ParseI64, JudgeRange, Selected, Ascii, Print;
    AcceptedIsBounded(words[1], words[2], if rule.StringRange? then MAX_STRING_RANGE else MAX_COLLECTION_PAGE, length);
  }

  /** The forms of a bounded score or lexical range: the clause alone, or with one more word
      before or after it. */
  datatype LimitForm = Alone | WordFirst(word: bytes) | WordLast(word: bytes) {
    function Write(key: bytes, low: bytes, high: bytes, offset: bytes, count: bytes): seq<bytes> {
      match this
      case Alone => [key, low, high, KW_LIMIT, offset, count]
      case WordFirst(word) => [key, low, high, word, KW_LIMIT, offset, count]
      case WordLast(word) => [key, low, high, KW_LIMIT, offset, count, word]
    }
  }

  /** An earlier word reads LIMIT and what follows it passes for an offset and an allowed
      count: the key with the interval, or, with a word before the clause, the lower end
      with the upper end and that word. */
  predicate Preempted(form: LimitForm, key: bytes, low: bytes, high: bytes) {
    || (key == KW_LIMIT && ParseU64(low).Some? && CheckCount(high).Ok?)
    || (key != KW_LIMIT && form.WordFirst? && low == KW_LIMIT && ParseU64(high).Some? && CheckCount(form.word).Ok?)
  }

  /** In every form of the rule the count of the clause is bounded, whatever is asked for,
      exactly unless an earlier word preempts it: the first LIMIT is the one examined. */
  lemma LimitBoundsTheCount(form: LimitForm, key: bytes, low: bytes, high: bytes)
    ensures (forall offset, count :: Judge(LimitedSortedRange, form.Write(key, low, high, offset, count)).None?
                                     ==> CheckCount(count).Ok?)
            <==> !Preempted(form, key, low, high)
  {
    hide ParseU64, CheckCount, JudgeLimitedRange;
    LimitIsNoNumber();
    forall offset, count
      ensures JudgeLimitedRange(form.Write(key, low, high, offset, count)).None? <==> Judged(form, key, low, high, offset, count)
    {
      LimitedJudged(form, key, low, high, offset, count);
    }
    if Preempted(form, key, low, high) {
      assert Judge(LimitedSortedRange, form.Write(key, low, high, KW_LIMIT, KW_LIMIT)).None?;
    }
  }

  /** With WITHSCORES on either side, as the commands are written, only the key can preempt. */
  lemma WithScoresKeepsTheBound(form: LimitForm, key: bytes, low: bytes, high: bytes)
    requires form.WordFirst? || form.WordLast? ==> form.word == Ascii("WITHSCORES")
    ensures Preempted(form, key, low, high) <==> key == KW_LIMIT && ParseU64(low).Some? && CheckCount(high).Ok?
  {
    hide ParseU64;
    ScoresAreNoNumber();
  }

  lemma ScoresAreNoNumber()
    ensures ParseU64(Ascii("WITHSCORES")).None?
  {
    assert Ascii("WITHSCORES")[0] == 87;
  }

  /** What the rule decides of a form, spelled out. */
  predicate Judged(form: LimitForm, key: bytes, low: bytes, high: bytes, offset: bytes, count: bytes) {
    if key == KW_LIMIT then ParseU64(low).Some? && CheckCount(high).Ok?
    else if low == KW_LIMIT then form.WordFirst? && ParseU64(high).Some? && CheckCount(form.word).Ok?
    else high != KW_LIMIT && !(form.WordFirst? && form.word == KW_LIMIT) && ParseU64(offset).Some? && CheckCount(count).Ok?
  }

  lemma LimitIsNoNumber()
    ensures ParseU64(KW_LIMIT).None? && CheckCount(KW_LIMIT).Err?
  {
    assert KW_LIMIT[0] == 76;
  }

  lemma LimitedJudged(form: LimitForm, key: bytes, low: bytes, high: bytes, offset: bytes, count: bytes)
    ensures JudgeLimitedRange(form.Write(key, low, high, offset, count)).None? <==> Judged(form, key, low, high, offset, count)
  {
    hide ParseU64, CheckCount;
    LimitIsNoNumber();
    var words := form.Write(key, low, high, offset, count);
    FirstIs(words, KW_LIMIT,
            if key == KW_LIMIT then 0
            else if low == KW_LIMIT then 1
            else if high == KW_LIMIT then 2
            else if form.WordFirst? && form.word != KW_LIMIT then 4
            else 3);
  }

  lemma {:induction false} FirstIs(words: seq<bytes>, w: bytes, i: nat)
    requires i < |words| && words[i] == w && forall j :: 0 <= j < i ==> words[j] != w
    ensures Position(words, w) == Some(i)
  {
    if i > 0 {
      FirstIs(words[1..], w, i - 1);
    }
  }

  // --------------------------------------------------------------- the size of a refusal

  predicate AllWithin(words: seq<bytes>, m: nat) {
    forall i :: 0 <= i < |words| ==> |words[i]| <= m
  }

  lemma {:induction false} CopyReason(words: seq<bytes>, sawDb: bool, sawReplace: bool, m: nat)
    requires AllWithin(words, m)
    ensures CopyOptions(words, sawDb, sawReplace).Err? ==> |CopyOptions(words, sawDb, sawReplace).error| <= m + 100
  {
    hide ParseU64;
    if words != [] {
      if words[0] == KW_DB {
        if |words| >= 2 { CopyReason(words[2..], true, sawReplace, m); }
      } else if words[0] == KW_REPLACE {
        CopyReason(words[1..], sawDb, true, m);
      }
    }
  }

  lemma {:induction false} ZaddOptionsReason(words: seq<bytes>, seen: seq<bytes>, m: nat)
    requires AllWithin(words, m)
    ensures ZaddOptions(words, seen).Err? ==> |ZaddOptions(words, seen).error| <= m + 100
  {
    hide IsZaddOption;
    if words != [] {
      ZaddOptionsReason(words[1..], seen + [words[0]], m);
    }
  }

  lemma {:induction false} ScoresReason(words: seq<bytes>)
    requires |words| % 2 == 0
    ensures CheckScores(words).Some? ==> |CheckScores(words).value| <= 100
  {
    hide IsScore, IsNan;
    if words != [] {
      ScoresReason(words[2..]);
    }
  }

  lemma ZaddReason(words: seq<bytes>, m: nat)
    requires AllWithin(words, m)
    ensures ParseZadd(words).Err? ==> |ParseZadd(words).error| <= m + 100
  {
    hide ZaddOptions, CheckScores;
    if |words| >= 3 {
      ZaddOptionsReason(words[1..], [], m);
      var r := ZaddOptions(words[1..], []);
      if r.Ok? && |r.value.1| % 2 == 0 {
        ScoresReason(r.value.1);
      }
    }
  }

  lemma TrimReason(words: seq<bytes>)
    ensures ParseTrim(words).Err? ==> |ParseTrim(words).error| <= 100
    ensures ParseTrim(words).Ok? ==> var rest := ParseTrim(words).value.1; |rest| <= |words| && rest == words[|words| - |rest|..]
  {
    hide ParseU64, FirstDash, Ascii;
  }

  lemma XtrimReason(words: seq<bytes>, m: nat)
    requires AllWithin(words, m)
    ensures ParseXtrim(words).Err? ==> |ParseXtrim(words).error| <= m + 100
  {
    hide ParseTrim, Ascii, Refuse;
    if |words| >= 3 { TrimReason(words[1..]); }
  }

  lemma OptionalTrimReason(words: seq<bytes>)
    ensures OptionalTrim(words).Err? ==> |OptionalTrim(words).error| <= 100
  {
    hide ParseTrim, Ascii, Refuse;
    TrimReason(words);
  }

  lemma EntryReason(words: seq<bytes>)
    ensures ParseEntry(words).Err? ==> |ParseEntry(words).error| <= 100
  {
    hide PairUp, Ascii, Refuse;
  }

  lemma XaddReason(words: seq<bytes>)
    ensures ParseXadd(words).Err? ==> |ParseXadd(words).error| <= 100
  {
    hide OptionalTrim, ParseEntry, Ascii, Refuse;
    if |words| >= 4 {
      var after := words[if words[1] == KW_NOMKSTREAM then 2 else 1..];
      OptionalTrimReason(after);
      if OptionalTrim(after).Ok? { EntryReason(OptionalTrim(after).value.1); }
    }
  }

  lemma RangeReason(start: bytes, stop: bytes, limit: nat, what: string)
    requires |what| <= 20 && limit <= MAX_STRING_RANGE
    ensures JudgeBoundedRange(start, stop, limit, what).Some?
            ==> |JudgeBoundedRange(start, stop, limit, what).value| <= 100
  {
    hide BoundedRange, ParseI64;
    PrintIsShort(limit);
  }

  lemma PrintIsShort(n: nat)
    requires n < 100_000
    ensures |Print(n)| <= 5
    ensures n < 100 ==> |Print(n)| <= 2
  {
    assert |Print(n / 10 / 10 / 10 / 10)| == 1;
    assert |Print(n / 10 / 10 / 10)| <= 2;
    assert |Print(n / 10 / 10)| <= 3;
    assert |Print(n / 10)| <= 4;
  }

  lemma CountReasons(n: Small, low: Small, high: Small, words: seq<bytes>)
    ensures JudgeExact(n, words).Some? ==> |JudgeExact(n, words).value| <= 100
    ensures JudgeBetween(low, high, words).Some? ==> |JudgeBetween(low, high, words).value| <= 100
    ensures JudgeAtMost(n, words).Some? ==> |JudgeAtMost(n, words).value| <= 100
  {
    hide Ascii;
    PrintIsShort(n);
    PrintIsShort(low);
    PrintIsShort(high);
  }

  lemma CheckReasons(text: bytes, what: string)
    requires |what| <= 20
    ensures CheckU64(text, what).Err? ==> |CheckU64(text, what).error| <= 60
    ensures CheckCount(text).Err? ==> |CheckCount(text).error| <= 60
  {
    hide ParseU64;
  }

  lemma NumberReasons(words: seq<bytes>)
    ensures JudgeSelect(words).Some? ==> |JudgeSelect(words).value| <= 100
    ensures JudgeSetBit(words).Some? ==> |JudgeSetBit(words).value| <= 100
  {
    hide CheckU64, JudgeExact;
    CountReasons(1, 0, 0, words);
    CountReasons(3, 0, 0, words);
    if |words| == 1 { CheckReasons(words[0], "database number"); }
    if |words| == 3 { CheckReasons(words[1], "bit offset"); }
  }

  lemma RangeReasons(words: seq<bytes>)
    ensures JudgeRandomMember(words).Some? ==> |JudgeRandomMember(words).value| <= 100
    ensures JudgeSortedRange(words).Some? ==> |JudgeSortedRange(words).value| <= 100
  {
    hide ParseI64, JudgeBetween, JudgeBoundedRange;
    CountReasons(0, 1, 3, words);
    CountReasons(0, 3, 4, words);
    if |words| >= 3 { RangeReason(words[1], words[2], MAX_COLLECTION_PAGE, "range window"); }
  }

  lemma LimitedReason(words: seq<bytes>)
    ensures JudgeLimitedRange(words).Some? ==> |JudgeLimitedRange(words).value| <= 100
  {
    hide CheckU64, CheckCount, Position, JudgeBetween;
    CountReasons(0, 6, 7, words);
    forall i | 0 <= i < |words|
      ensures CheckU64(words[i], "LIMIT offset").Err? ==> |CheckU64(words[i], "LIMIT offset").error| <= 60
      ensures CheckCount(words[i]).Err? ==> |CheckCount(words[i]).error| <= 60
    {
      CheckReasons(words[i], "LIMIT offset");
    }
  }

  lemma ShortReasons(words: seq<bytes>)
    ensures JudgeHello(words).Some? ==> |JudgeHello(words).value| <= 100
    ensures JudgePairs(words).Some? ==> |JudgePairs(words).value| <= 100
    ensures JudgeHashPairs(words).Some? ==> |JudgeHashPairs(words).value| <= 100
    ensures JudgeKeyedItems(words).Some? ==> |JudgeKeyedItems(words).value| <= 100
  {
    hide JudgeExact, Ascii, Reject;
    CountReasons(1, 0, 0, words);
  }

  lemma CountedReasons(words: seq<bytes>)
    ensures JudgeOptionalCount(words).Some? ==> |JudgeOptionalCount(words).value| <= 100
    ensures JudgeGetBit(words).Some? ==> |JudgeGetBit(words).value| <= 100
    ensures JudgeStreamRange(words).Some? ==> |JudgeStreamRange(words).value| <= 100
  {
    hide JudgeExact, JudgeBetween, CheckU64, CheckCount, Ascii;
    CountReasons(2, 1, 2, words);
    forall i | 0 <= i < |words|
      ensures CheckU64(words[i], "bit offset").Err? ==> |CheckU64(words[i], "bit offset").error| <= 60
      ensures CheckCount(words[i]).Err? ==> |CheckCount(words[i]).error| <= 60
    {
      CheckReasons(words[i], "bit offset");
    }
  }

  lemma RangeWordsReason(words: seq<bytes>, limit: nat, what: string)
    requires |what| <= 20 && limit <= MAX_STRING_RANGE
    ensures JudgeRangeWords(words, limit, what).Some? ==> |JudgeRangeWords(words, limit, what).value| <= 100
  {
    hide JudgeExact, JudgeBoundedRange;
    CountReasons(3, 0, 0, words);
    if |words| == 3 { RangeReason(words[1], words[2], limit, what); }
  }

  /** No reason is longer than the longest argument and a hundred bytes. */
  lemma ReasonIsShort(rule: Rule, words: seq<bytes>, m: nat)
    requires AllWithin(words, m)
    ensures Judge(rule, words).Some? ==> |Judge(rule, words).value| <= m + 100
  {
    hide ParseCopy, ParseZadd, ParseXadd, ParseXtrim, JudgeExact, JudgeBetween, JudgeAtMost, JudgeSelect,
         JudgeSetBit, JudgeRandomMember, JudgeSortedRange, JudgeLimitedRange, JudgeHello, JudgePairs,
         JudgeHashPairs, JudgeKeyedItems, JudgeOptionalCount, JudgeGetBit, JudgeRangeWords, JudgeStreamRange;
    match rule
    case Exact(n) => CountReasons(n, 0, 0, words);
    case AtMost(n) => CountReasons(n, 0, 0, words);
    case Between(low, high) => CountReasons(0, low, high, words);
    case Hello => ShortReasons(words);
    case Select => NumberReasons(words);
    case SetBit => NumberReasons(words);
    case Copy => CopyCommandReason(words, m);
    case Zadd => ZaddReason(words, m);
    case Xadd => XaddReason(words);
    case Xtrim => XtrimReason(words, m);
    case RandomMember => RangeReasons(words);
    case SortedCollectionRange => RangeReasons(words);
    case LimitedSortedRange => LimitedReason(words);
    case OptionalCount => CountedReasons(words);
    case GetBit => CountedReasons(words);
    case StreamRange => CountedReasons(words);
    case StringRange => RangeWordsReason(words, MAX_STRING_RANGE, "byte range");
    case CollectionRange => RangeWordsReason(words, MAX_COLLECTION_PAGE, "range window");
    case KeyValuePairs => ShortReasons(words);
    case HashPairs => ShortReasons(words);
    case KeyedItems => ShortReasons(words);
  }

  lemma CopyCommandReason(words: seq<bytes>, m: nat)
    requires AllWithin(words, m)
    ensures ParseCopy(words).Err? ==> |ParseCopy(words).error| <= m + 100
  {
    hide CopyOptions;
    if |words| >= 2 {
      CopyReason(words[2..], false, false, m);
    }
  }

  /** The names on the allowlist are short. */
  ghost predicate ShortNames(allowlist: Allowlist) {
    forall name :: allowlist(name).Some? ==> |name| <= 32
  }

  lemma ClassifiedMessage(allowlist: Allowlist, words: seq<bytes>, m: nat)
    requires ShortNames(allowlist) && AllWithin(words, m)
    ensures |ClassifyNormalized(allowlist, words).Message()| <= m + 300
  {
    hide Judge, Ascii;
    var named := NameAndArguments(words);
    if named.Some? {
      var (name, arguments) := named.value;
      assert |name| <= m + 8;
      if allowlist(name).Some? {
        ReasonIsShort(allowlist(name).value, arguments, m);
      }
    }
  }

  /** Whatever the proxy reads as a command, its refusal fits the error reply's limit:
      lossy text grows at most threefold, and only one argument is ever quoted. */
  lemma RefusalFits(allowlist: Allowlist, words: seq<bytes>)
    requires ShortNames(allowlist) && Request.Acceptable(words)
    ensures var refusal := Refusal(allowlist)(words);
            refusal.Some? ==> |Connection.EncodeError(refusal.value)| <= Resp.MAX_RESPONSE_BYTES
  {
    hide ClassifyBytes, Connection.EncodeError;
    ViewMessage(allowlist, words);
    var refusal := Refusal(allowlist)(words);
    if refusal.Some? {
      ErrorReplyLength(refusal.value);
    }
  }

  lemma ViewMessage(allowlist: Allowlist, words: seq<bytes>)
    requires ShortNames(allowlist) && Request.Acceptable(words)
    ensures |ClassifyBytes(allowlist, words).Message()| <= 3 * Request.MAX_REQUEST_BULK + 300
  {
    hide ClassifyNormalized, Normalize, Lossy, ValidUtf8;
    if words == [] {
      ClassifiedMessage(allowlist, [], 0);
    } else {
      var view := View(words);
      forall i | 0 <= i < |view|
        ensures |view[i]| <= 3 * Request.MAX_REQUEST_BULK
      {
        ViewLength(words[i]);
      }
      ClassifiedMessage(allowlist, view, 3 * Request.MAX_REQUEST_BULK);
    }
  }

  lemma ViewLength(word: bytes)
    ensures |Normalize(word)| <= 3 * |word| && |Normalize(Lossy(word))| <= 3 * |word|
  {
    LossyRepairs(word);
    NormalizeIsIdempotent(word);
    NormalizeIsIdempotent(Lossy(word));
  }

  lemma ErrorReplyLength(text: bytes)
    ensures |Connection.EncodeError(text)| == |text| + 3
  {
    var v := Resp.Error(text);
    assert Resp.EncodeAll(Resp.Kids(v)) == [];
    assert Resp.Encode(v) == Resp.HeadLine(v) + CRLF + Resp.Blob(v) + Resp.EncodeAll(Resp.Kids(v));
  }
}
