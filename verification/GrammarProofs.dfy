/** Each recognizer accepts exactly what its grammar can write, and reads it one way. */
module GrammarProofs {
  import opened Prelude
  import opened Decimal
  import opened Text
  import opened Grammar

  // ------------------------------------------------------------------------------ COPY

  lemma {:induction false} CopyOptionsSound(words: seq<bytes>, sawDb: bool, sawReplace: bool)
    ensures var r := CopyOptions(words, sawDb, sawReplace);
            r.Ok? ==> ValidCopyOptions(r.value, sawDb, sawReplace) && CopyWords(r.value) == words
  {
    hide ParseU64, Ascii;
    var r := CopyOptions(words, sawDb, sawReplace);
    if words != [] && r.Ok? {
      if words[0] == KW_DB {
        CopyOptionsSound(words[2..], true, sawReplace);
        assert r.value[1..] == CopyOptions(words[2..], true, sawReplace).value;
        assert words == [words[0], words[1]] + words[2..];
      } else {
        CopyOptionsSound(words[1..], sawDb, true);
        assert r.value[1..] == CopyOptions(words[1..], sawDb, true).value;
        assert words == [words[0]] + words[1..];
      }
    }
  }

  lemma {:induction false} CopyOptionsComplete(options: seq<CopyOption>, sawDb: bool, sawReplace: bool)
    requires ValidCopyOptions(options, sawDb, sawReplace)
    ensures CopyOptions(CopyWords(options), sawDb, sawReplace) == Ok(options)
  {
    hide ParseU64;
    if options != [] {
      var words, others := CopyWords(options), options[1..];
      assert options[0] in options && forall o :: o in others ==> o in options;
      assert options == [options[0]] + others;
      match options[0]
      case ToDatabase(n) =>
        assert words[0] == KW_DB && words[1] == n && words[2..] == CopyWords(others);
        CopyOptionsComplete(others, true, sawReplace);
      case Replace =>
        assert words[0] == KW_REPLACE && words[1..] == CopyWords(others);
        CopyOptionsComplete(others, sawDb, true);
    }
  }

  lemma {:induction false} CopyIsShort(options: seq<CopyOption>, sawDb: bool, sawReplace: bool)
    requires ValidCopyOptions(options, sawDb, sawReplace)
    ensures |CopyWords(options)| <= (if sawDb then 0 else 2) + (if sawReplace then 0 else 1)
  {
    if options != [] {
      assert options[0] in options && forall o :: o in options[1..] ==> o in options;
      assert options == [options[0]] + options[1..];
      match options[0]
      case ToDatabase(_) => CopyIsShort(options[1..], true, sawReplace);
      case Replace => CopyIsShort(options[1..], sawDb, true);
    }
  }

  lemma CopyReadsBack(c: CopyCommand)
    requires c.Valid()
    ensures ParseCopy(c.Words()) == Ok(c)
  {
    hide CopyOptions, CopyWords;
    CopyOptionsComplete(c.options, false, false);
    CopyIsShort(c.options, false, false);
    assert c.Words()[2..] == CopyWords(c.options);
  }

  /** COPY is accepted exactly when the words are a source, a destination and distinct
      options, and then in one way only. */
  lemma CopyGrammar(words: seq<bytes>)
    ensures ParseCopy(words).Ok? <==> exists c: CopyCommand :: c.Valid() && c.Words() == words
    ensures forall c: CopyCommand :: c.Valid() && c.Words() == words ==> ParseCopy(words) == Ok(c)
  {
    forall c: CopyCommand | c.Valid() && c.Words() == words
      ensures ParseCopy(words) == Ok(c)
    {
      CopyReadsBack(c);
    }
    if ParseCopy(words).Ok? {
      hide CopyOptions, CopyWords, ValidCopyOptions;
      CopyOptionsSound(words[2..], false, false);
      assert words == [words[0], words[1]] + words[2..];
      assert ParseCopy(words).value.Words() == words;
    }
  }

  // ------------------------------------------------------------------------------ ZADD

  predicate Distinct(s: seq<bytes>) {
    forall i, j :: 0 <= i < j < |s| ==> s[i] != s[j]
  }

  predicate AllZaddOptions(s: seq<bytes>) {
    forall o :: o in s ==> IsZaddOption(o)
  }

  predicate NoOptionNext(words: seq<bytes>) {
    words == [] || !IsZaddOption(words[0])
  }

  lemma {:induction false} ZaddOptionsSound(words: seq<bytes>, seen: seq<bytes>)
    requires Distinct(seen) && AllZaddOptions(seen)
    ensures var r := ZaddOptions(words, seen);
            r.Ok? ==>
              && Distinct(r.value.0) && AllZaddOptions(r.value.0) && NoOptionNext(r.value.1)
              && r.value.0 + r.value.1 == seen + words
  {
    hide IsZaddOption;
    if words != [] && IsZaddOption(words[0]) && words[0] !in seen {
      ZaddOptionsSound(words[1..], seen + [words[0]]);
      assert seen + [words[0]] + words[1..] == seen + words;
    }
  }

  lemma {:induction false} ZaddOptionsComplete(more: seq<bytes>, rest: seq<bytes>, seen: seq<bytes>)
    requires Distinct(seen + more) && AllZaddOptions(more) && NoOptionNext(rest)
    ensures ZaddOptions(more + rest, seen) == Ok((seen + more, rest))
  {
    hide IsZaddOption;
    if more == [] {
      assert more + rest == rest && seen + more == seen;
    } else {
      var words := more + rest;
      assert words[0] == more[0] && words[1..] == more[1..] + rest;
      assert seen + [more[0]] + more[1..] == seen + more;
      assert more[0] !in seen by {
        assert (seen + more)[|seen|] == more[0];
        assert forall i :: 0 <= i < |seen| ==> (seen + more)[i] == seen[i];
      }
      ZaddOptionsComplete(more[1..], rest, seen + [more[0]]);
    }
  }

  lemma {:induction false} PairUpWords(pairs: seq<(bytes, bytes)>)
    ensures PairUp(PairWords(pairs)) == pairs
  {
    if pairs != [] {
      PairUpWords(pairs[1..]);
      assert PairWords(pairs)[2..] == PairWords(pairs[1..]);
    }
  }

  lemma NanIsNotScore(s: bytes)
    requires IsNan(s)
    ensures !IsScore(s)
  {
    var body := Unsigned(s);
    var nan := Upper(body);
    assert |body| == 3 && nan[0] == 78 && nan[1] == 65;
    assert Ascii("INF")[1] == 78;
  }

  /** No option can be mistaken for a score. */
  lemma OptionsAreNotScores(word: bytes)
    requires IsZaddOption(word)
    ensures !IsScore(word)
  {
    assert word[0] in [78, 88, 71, 76, 67, 73];
    assert Unsigned(word) == word;
    assert word[0] == 73 ==> |word| == 4;
    assert Upper(word)[0] == word[0];
    assert Ascii("INF")[0] == 73 && Ascii("INFINITY")[0] == 73;
  }

  lemma {:induction false} ScoresChecked(pairs: seq<(bytes, bytes)>)
    ensures CheckScores(PairWords(pairs)).None? <==> forall p :: p in pairs ==> IsScore(p.0)
  {
    hide IsScore, IsNan;
    if pairs != [] {
      ScoresChecked(pairs[1..]);
      assert PairWords(pairs)[2..] == PairWords(pairs[1..]);
      assert pairs == [pairs[0]] + pairs[1..];
      if IsNan(pairs[0].0) {
        NanIsNotScore(pairs[0].0);
      }
    }
  }

  lemma ZaddReadsBack(z: ZaddCommand)
    requires z.Valid()
    ensures ParseZadd(z.Words()) == Ok(z)
  {
    hide IsScore, IsZaddOption, ZaddOptions, CheckScores;
    var pairs := PairWords(z.pairs);
    assert z.pairs[0] in z.pairs;
    assert pairs[0] == z.pairs[0].0;
    if IsZaddOption(pairs[0]) { OptionsAreNotScores(pairs[0]); }
    assert z.Words()[1..] == z.options + pairs;
    assert [] + z.options == z.options;
    ZaddOptionsComplete(z.options, pairs, []);
    ScoresChecked(z.pairs);
    PairUpWords(z.pairs);
  }

  /** ZADD is accepted exactly when the words are a key, distinct options and bounded
      score/member pairs, and then in one way only. */
  lemma ZaddGrammar(words: seq<bytes>)
    ensures ParseZadd(words).Ok? <==> exists z: ZaddCommand :: z.Valid() && z.Words() == words
    ensures forall z: ZaddCommand :: z.Valid() && z.Words() == words ==> ParseZadd(words) == Ok(z)
  {
    hide ParseZadd;
    forall z: ZaddCommand | z.Valid() && z.Words() == words
      ensures ParseZadd(words) == Ok(z)
    {
      ZaddReadsBack(z);
    }
    if ParseZadd(words).Ok? {
      ZaddSound(words);
    }
  }

  lemma ZaddSound(words: seq<bytes>)
    requires ParseZadd(words).Ok?
    ensures ParseZadd(words).value.Valid() && ParseZadd(words).value.Words() == words
  {
    hide IsScore, IsZaddOption, ZaddOptions, CheckScores, Ascii, Refuse, PairUp, PairWords;
    var z := ParseZadd(words).value;
    ZaddOptionsSound(words[1..], []);
    ScoresChecked(z.pairs);
    assert [] + words[1..] == words[1..] && words == [words[0]] + words[1..];
    Assoc([z.key], z.options, PairWords(z.pairs));
  }

  // -------------------------------------------------------------------- stream trimming

  lemma DashIsNoNumber(s: bytes)
    requires DASH in s
    ensures ParseU64(s).None?
  {
    var i :| 0 <= i < |s| && s[i] == DASH;
    var digits := if s[0] == PLUS then s[1..] else s;
    assert i > 0 ==> digits[i - (|s| - |digits|)] == DASH;
  }

  lemma {:induction false} FirstDashAfter(a: bytes, b: bytes)
    requires DASH !in a
    ensures FirstDash(a + [DASH] + b) == |a|
  {
    var s := a + [DASH] + b;
    if a != [] {
      assert s[1..] == a[1..] + [DASH] + b;
      FirstDashAfter(a[1..], b);
    }
  }

  /** Splitting at the first dash finds the two numbers whenever there are any. */
  lemma StreamIdChecked(text: bytes)
    ensures CheckStreamId(text).None? <==> IsStreamId(text)
  {
    hide ParseU64, FirstDash;
    var i := FirstDash(text);
    if CheckStreamId(text).None? {
      assert text == text[..i] + [DASH] + text[i + 1..];
    }
    if IsStreamId(text) {
      var a, b :| text == a + [DASH] + b && ParseU64(a).Some? && ParseU64(b).Some?;
      if DASH in a { DashIsNoNumber(a); }
      FirstDashAfter(a, b);
      assert text[..|a|] == a && text[|a| + 1..] == b;
    }
  }

  lemma ThresholdChecked(strategy: bytes, threshold: bytes)
    ensures CheckThreshold(strategy, threshold).None?
            <==> if strategy == KW_MAXLEN then ParseU64(threshold).Some? else IsStreamId(threshold)
    ensures CheckThreshold(strategy, threshold).None? ==> threshold != EXACTLY && threshold != ABOUT
  {
    hide CheckStreamId;
    StreamIdChecked(threshold);
    if threshold == EXACTLY || threshold == ABOUT {
      NotAnOperator(threshold);
    }
  }

  lemma NotAnOperator(word: bytes)
    requires word == EXACTLY || word == ABOUT
    ensures ParseU64(word).None? && !IsStreamId(word)
  {
    assert |word| == 1 && word[0] in [61, 126];
    assert DASH !in word;
    assert forall a: bytes, b: bytes :: DASH in a + [DASH] + b;
  }

  /** Whether what follows can be taken for a limit the specification does not have. */
  predicate EndsHere(spec: TrimSpec, rest: seq<bytes>) {
    spec.limit == [] && rest != [] ==> rest[0] != KW_LIMIT
  }

  lemma TrimSound(words: seq<bytes>)
    ensures var r := ParseTrim(words);
            r.Ok? ==> r.value.0.Valid() && words == r.value.0.Words() + r.value.1 && EndsHere(r.value.0, r.value.1)
  {
    hide CheckThreshold, CheckCount, IsStreamId, ParseU64, Refuse, Ascii;
    var r := ParseTrim(words);
    if r.Ok? {
      var (spec, rest) := r.value;
      ThresholdChecked(spec.strategy, spec.threshold);
      var after := words[1 + |spec.operator|..];
      assert words == [spec.strategy] + spec.operator + after;
      TrimTail(spec, after, rest);
      Assoc([spec.strategy] + spec.operator, [spec.threshold] + LimitWords(spec), rest);
      assert spec.Words() == [spec.strategy] + spec.operator + ([spec.threshold] + LimitWords(spec));
    }
  }

  function LimitWords(spec: TrimSpec): seq<bytes> {
    if spec.limit == [] then [] else [KW_LIMIT] + spec.limit
  }

  lemma TrimTail(spec: TrimSpec, after: seq<bytes>, rest: seq<bytes>)
    requires |after| > 0 && after[0] == spec.threshold
    requires if spec.limit == [] then rest == after[1..]
             else |after| > 2 && after[1] == KW_LIMIT && spec.limit == [after[2]] && rest == after[3..]
    ensures after == [spec.threshold] + LimitWords(spec) + rest
  {
  }

  lemma TrimReadsBack(spec: TrimSpec, rest: seq<bytes>)
    requires spec.Valid() && EndsHere(spec, rest)
    ensures ParseTrim(spec.Words() + rest) == Ok((spec, rest))
  {
    hide CheckThreshold, CheckCount, IsStreamId, ParseU64;
    var words := spec.Words() + rest;
    ThresholdChecked(spec.strategy, spec.threshold);
    var after := words[1 + |spec.operator|..];
    assert words[0] == spec.strategy;
    if spec.operator == [] {
      assert words[1] == spec.threshold;
    } else {
      assert words[1] == spec.operator[0];
    }
    if spec.limit == [] {
      assert after == [spec.threshold] + rest;
    } else {
      assert spec.limit == [spec.limit[0]];
      assert after == [spec.threshold, KW_LIMIT, spec.limit[0]] + rest;
    }
  }

  /** XTRIM is accepted exactly when the words are a key and one trimming
      specification, with a limit only after `~`, and then in one way only. */
  lemma XtrimGrammar(words: seq<bytes>)
    ensures ParseXtrim(words).Ok? <==> exists x: XtrimCommand :: x.Valid() && x.Words() == words
    ensures forall x: XtrimCommand :: x.Valid() && x.Words() == words ==> ParseXtrim(words) == Ok(x)
  {
    hide ParseTrim, TrimSpec.Valid;
    forall x: XtrimCommand | x.Valid() && x.Words() == words
      ensures ParseXtrim(words) == Ok(x)
    {
      TrimReadsBack(x.spec, []);
      assert words[1..] == x.spec.Words() + [];
    }
    if ParseXtrim(words).Ok? {
      var x := ParseXtrim(words).value;
      TrimSound(words[1..]);
      assert words == [words[0]] + words[1..];
      assert x.Words() == words;
    }
  }

  // ------------------------------------------------------------------------------ XADD

  lemma EntrySound(words: seq<bytes>)
    ensures var r := ParseEntry(words);
            r.Ok? ==> 1 <= |r.value| <= MAX_MULTI_ITEMS && words == [NEW_ID] + PairWords(r.value)
  {
    var r := ParseEntry(words);
    if r.Ok? {
      assert words == [words[0]] + words[1..];
    }
  }

  lemma EntryReadsBack(pairs: seq<(bytes, bytes)>)
    requires 1 <= |pairs| <= MAX_MULTI_ITEMS
    ensures ParseEntry([NEW_ID] + PairWords(pairs)) == Ok(pairs)
  {
    hide ParseEntry, PairUp, PairWords;
    PairUpWords(pairs);
    var words := PairWords(pairs);
    assert |words| == 2 * |pairs|;
    EntryOf(words);
  }

  lemma EntryOf(words: seq<bytes>)
    requires |words| % 2 == 0 && 1 <= |words| / 2 <= MAX_MULTI_ITEMS
    ensures ParseEntry([NEW_ID] + words) == Ok(PairUp(words))
  {
    hide PairUp, PairWords, Refuse, Ascii;
    assert ([NEW_ID] + words)[1..] == words;
  }

  lemma OptionalTrimSound(words: seq<bytes>)
    ensures var r := OptionalTrim(words);
            r.Ok? ==> (r.value.0.Some? ==> r.value.0.value.Valid())
                      && words == (if r.value.0.Some? then r.value.0.value.Words() else []) + r.value.1
  {
    hide ParseTrim, TrimSpec.Valid;
    TrimSound(words);
    assert words == [] + words;
  }

  lemma OptionalTrimReadsBack(trim: Option<TrimSpec>, rest: seq<bytes>)
    requires (trim.Some? ==> trim.value.Valid()) && rest != [] && rest[0] == NEW_ID
    ensures OptionalTrim((if trim.Some? then trim.value.Words() else []) + rest) == Ok((trim, rest))
  {
    hide ParseTrim;
    match trim
    case None =>
      assert [] + rest == rest;
      assert |NEW_ID| == 1;
    case Some(spec) =>
      assert |KW_LIMIT| == 5;
      TrimReadsBack(spec, rest);
  }

  lemma XaddReadsBack(x: XaddCommand)
    requires x.Valid()
    ensures ParseXadd(x.Words()) == Ok(x)
  {
    hide OptionalTrim, ParseEntry, TrimSpec.Valid, TrimSpec.Words, PairWords, Refuse;
    var entry := [NEW_ID] + PairWords(x.pairs);
    var trim := if x.trim.Some? then x.trim.value.Words() else [];
    OptionalTrimReadsBack(x.trim, entry);
    EntryReadsBack(x.pairs);
    TrimOpens(x.trim);
    assert |NEW_ID| == 1 && |KW_MAXLEN| == 6 && |KW_MINID| == 5 && |KW_NOMKSTREAM| == 10;
    XaddWords(x.key, x.noMkStream, trim, entry);
    assert |entry| >= 3;
    XaddFromParts(x, trim, entry);
  }

  lemma XaddFromParts(x: XaddCommand, trim: seq<bytes>, entry: seq<bytes>)
    requires trim == if x.trim.Some? then x.trim.value.Words() else []
    requires entry == [NEW_ID] + PairWords(x.pairs) && |entry| >= 3
    requires var words := [x.key] + (if x.noMkStream then [KW_NOMKSTREAM] else []) + trim + entry;
             && |words| >= 4 && words[0] == x.key
             && (words[1] == KW_NOMKSTREAM <==> x.noMkStream)
             && words[if x.noMkStream then 2 else 1..] == trim + entry
    requires OptionalTrim(trim + entry) == Ok((x.trim, entry)) && ParseEntry(entry) == Ok(x.pairs)
    ensures ParseXadd(x.Words()) == Ok(x)
  {
    hide OptionalTrim, ParseEntry, TrimSpec.Valid, TrimSpec.Words, PairWords, Refuse, Ascii;
    Assoc([x.key] + (if x.noMkStream then [KW_NOMKSTREAM] else []) + trim, [NEW_ID], PairWords(x.pairs));
  }

  lemma XaddWords(key: bytes, noMkStream: bool, trim: seq<bytes>, entry: seq<bytes>)
    requires |entry| >= 3 && entry[0] != KW_NOMKSTREAM && (trim != [] ==> trim[0] != KW_NOMKSTREAM)
    ensures var words := [key] + (if noMkStream then [KW_NOMKSTREAM] else []) + trim + entry;
            && |words| >= 4 && words[0] == key
            && (words[1] == KW_NOMKSTREAM <==> noMkStream)
            && words[if noMkStream then 2 else 1..] == trim + entry
  {
    var words := [key] + (if noMkStream then [KW_NOMKSTREAM] else []) + trim + entry;
    assert !noMkStream ==> words[1] == (trim + entry)[0];
  }

  lemma TrimOpens(trim: Option<TrimSpec>)
    requires trim.Some? ==> trim.value.Valid()
    ensures trim.Some? ==> trim.value.Words() != [] && (trim.value.Words()[0] == KW_MAXLEN || trim.value.Words()[0] == KW_MINID)
  {
  }

  /** XADD is accepted exactly when the words are a key, an optional NOMKSTREAM, an
      optional trimming specification, `*` and bounded pairs, and then in one way only. */
  lemma XaddGrammar(words: seq<bytes>)
    ensures ParseXadd(words).Ok? <==> exists x: XaddCommand :: x.Valid() && x.Words() == words
    ensures forall x: XaddCommand :: x.Valid() && x.Words() == words ==> ParseXadd(words) == Ok(x)
  {
    hide OptionalTrim, ParseEntry, TrimSpec.Valid, PairWords, Refuse, Ascii;
    forall x: XaddCommand | x.Valid() && x.Words() == words
      ensures ParseXadd(words) == Ok(x)
    {
      XaddReadsBack(x);
    }
    if ParseXadd(words).Ok? {
      var x := ParseXadd(words).value;
      var from := if x.noMkStream then 2 else 1;
      OptionalTrimSound(words[from..]);
      var (trim, rest) := OptionalTrim(words[from..]).value;
      EntrySound(rest);
      assert words == [words[0]] + (if x.noMkStream then [KW_NOMKSTREAM] else []) + words[from..];
      assert x.Words() == words;
    }
  }
}
