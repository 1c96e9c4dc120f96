/** Argument lists of COPY, ZADD, XADD and XTRIM. Each grammar is a datatype with the words
    it stands for; the recognizer takes the words apart as the launcher does and is
    proved to be the exact inverse of writing them out. */
module Grammar {
  import opened Prelude
  import opened Decimal
  import opened Text

  const MAX_MULTI_ITEMS: nat := 32
  const MAX_COLLECTION_PAGE: nat := 100
  const MAX_DATABASE: nat := 15

  const KW_DB: bytes := Ascii("DB")
  const KW_REPLACE: bytes := Ascii("REPLACE")
  const KW_INCR: bytes := Ascii("INCR")
  const KW_NOMKSTREAM: bytes := Ascii("NOMKSTREAM")
  const KW_MAXLEN: bytes := Ascii("MAXLEN")
  const KW_MINID: bytes := Ascii("MINID")
  const KW_LIMIT: bytes := Ascii("LIMIT")
  const EXACTLY: bytes := Ascii("=")
  const ABOUT: bytes := Ascii("~")
  const NEW_ID: bytes := Ascii("*")

  /** A refusal, in the words the client is shown. */
  type Reason = bytes

  function Refuse<T>(text: string): (r: Result<T, Reason>)
    ensures r.Err? && r.error == Ascii(text)
  {
    Err(Ascii(text))
  }

  function CheckU64(text: bytes, what: string): Result<int, Reason> {
    match ParseU64(text)
    case Some(n) => Ok(n)
    case None => Err(Ascii(what) + Ascii(" must be a non-negative integer"))
  }

  /** `bounded_positive_count` */
  function CheckCount(text: bytes): Result<int, Reason> {
    match CheckU64(text, "COUNT")
    case Err(e) => Err(e)
    case Ok(n) => if 1 <= n <= MAX_COLLECTION_PAGE then Ok(n) else Refuse("COUNT must be between 1 and 100")
  }

  // ------------------------------------------------------------------------------ COPY

  datatype CopyOption = ToDatabase(number: bytes) | Replace

  datatype CopyCommand = CopyCommand(source: bytes, destination: bytes, options: seq<CopyOption>) {
    /** Each option at most once, and a database that exists. */
    predicate Valid() {
      ValidCopyOptions(options, false, false)
    }

    function Words(): seq<bytes> {
      [source, destination] + CopyWords(options)
    }
  }

  predicate DatabaseExists(number: bytes) {
    ParseU64(number).Some? && ParseU64(number).value <= MAX_DATABASE
  }

  predicate ValidCopyOptions(options: seq<CopyOption>, sawDb: bool, sawReplace: bool) {
    && (forall o :: o in options ==> match o case ToDatabase(n) => !sawDb && DatabaseExists(n) case Replace => !sawReplace)
    && (forall i, j :: 0 <= i < j < |options| ==> options[i].Replace? != options[j].Replace?)
  }

  function CopyWords(options: seq<CopyOption>): seq<bytes> {
    if options == [] then []
    else (match options[0] case ToDatabase(n) => [KW_DB, n] case Replace => [KW_REPLACE]) + CopyWords(options[1..])
  }

  /** The options loop of `copy`, on the words still to read. */
  function CopyOptions(words: seq<bytes>, sawDb: bool, sawReplace: bool): Result<seq<CopyOption>, Reason> {
    if words == [] then Ok([])
    else if words[0] == KW_DB && !sawDb then
      if |words| < 2 then Refuse("DB requires a destination database")
      else
        match CheckU64(words[1], "destination database")
        case Err(e) => Err(e)
        case Ok(n) =>
          if n > MAX_DATABASE then Refuse("destination database must be at most 15")
          else
            match CopyOptions(words[2..], true, sawReplace)
            case Err(e) => Err(e)
            case Ok(options) => Ok([ToDatabase(words[1])] + options)
    else if words[0] == KW_REPLACE && !sawReplace then
      match CopyOptions(words[1..], sawDb, true)
      case Err(e) => Err(e)
      case Ok(options) => Ok([Replace] + options)
    else if words[0] == KW_DB || words[0] == KW_REPLACE then Err(words[0] + Ascii(" may be specified only once"))
    else Err(Ascii("unsupported COPY option ") + words[0])
  }

  function ParseCopy(words: seq<bytes>): Result<CopyCommand, Reason> {
    if !(2 <= |words| <= 5) then Refuse("requires between 2 and 5 argument(s)")
    else
      match CopyOptions(words[2..], false, false)
      case Err(e) => Err(e)
      case Ok(options) => Ok(CopyCommand(words[0], words[1], options))
  }

  // ------------------------------------------------------------------------------ ZADD

  datatype ZaddCommand = ZaddCommand(key: bytes, options: seq<bytes>, pairs: seq<(bytes, bytes)>) {
    /** Distinct options, at most 32 members with a numeric score each, and one member
        only when the score is an increment. */
    predicate Valid() {
      && (forall o :: o in options ==> IsZaddOption(o))
      && (forall i, j :: 0 <= i < j < |options| ==> options[i] != options[j])
      && 1 <= |pairs| <= MAX_MULTI_ITEMS
      && (forall p :: p in pairs ==> IsScore(p.0))
      && (KW_INCR in options ==> |pairs| == 1)
    }

    function Words(): seq<bytes> {
      [key] + options + PairWords(pairs)
    }
  }

  predicate IsZaddOption(word: bytes) {
    word in [Ascii("NX"), Ascii("XX"), Ascii("GT"), Ascii("LT"), Ascii("CH"), KW_INCR]
  }

  function PairWords(pairs: seq<(bytes, bytes)>): (r: seq<bytes>)
    ensures |r| == 2 * |pairs|
  {
    if pairs == [] then [] else [pairs[0].0, pairs[0].1] + PairWords(pairs[1..])
  }

  function PairUp(words: seq<bytes>): (r: seq<(bytes, bytes)>)
    requires |words| % 2 == 0
    ensures 2 * |r| == |words| && PairWords(r) == words
  {
    if words == [] then [] else [(words[0], words[1])] + PairUp(words[2..])
  }

  function DigitRun(s: bytes): (n: nat)
    ensures n <= |s|
  {
    if s == [] || !IsDigit(s[0]) then 0 else 1 + DigitRun(s[1..])
  }

  function Unsigned(s: bytes): bytes {
    if s != [] && (s[0] == PLUS || s[0] == MINUS) then s[1..] else s
  }

  predicate IsExponent(s: bytes) {
    s == [] || ((s[0] == 'e' as int || s[0] == 'E' as int) && Unsigned(s[1..]) != [] && AllDigits(Unsigned(s[1..])))
  }

  /** Digits with at most one point among them, and an optional exponent. */
  predicate IsNumber(s: bytes) {
    var whole := DigitRun(s);
    if whole < |s| && s[whole] == '.' as int then
      var part := DigitRun(s[whole + 1..]);
      whole + part > 0 && IsExponent(s[whole + 1 + part..])
    else whole > 0 && IsExponent(s[whole..])
  }

  predicate IsNan(s: bytes) {
    Upper(Unsigned(s)) == Ascii("NAN")
  }

  /** The texts `parse::<f64>` takes, NaN apart. */
  predicate IsScore(s: bytes) {
    var body := Unsigned(s);
    Upper(body) == Ascii("INF") || Upper(body) == Ascii("INFINITY") || IsNumber(body)
  }

  function CheckScores(words: seq<bytes>): Option<Reason>
    requires |words| % 2 == 0
  {
    if words == [] then None
    else if IsNan(words[0]) then Some(Ascii("sorted-set score must not be NaN"))
    else if !IsScore(words[0]) then Some(Ascii("sorted-set score must be a number"))
    else CheckScores(words[2..])
  }

  /** The options loop of `zadd`: the options seen and the words that follow them. */
  function ZaddOptions(words: seq<bytes>, seen: seq<bytes>): (r: Result<(seq<bytes>, seq<bytes>), Reason>)
    ensures r.Ok? ==> |r.value.1| <= |words|
  {
    if words == [] || !IsZaddOption(words[0]) then Ok((seen, words))
    else if words[0] in seen then Err(words[0] + Ascii(" may be specified only once"))
    else ZaddOptions(words[1..], seen + [words[0]])
  }

  function ParseZadd(words: seq<bytes>): Result<ZaddCommand, Reason> {
    if |words| < 3 then Refuse("requires a key and at least one score/member pair")
    else
      match ZaddOptions(words[1..], [])
      case Err(e) => Err(e)
      case Ok((options, pairs)) =>
        if pairs == [] || |pairs| % 2 != 0 then Refuse("requires complete score/member pairs")
        else if |pairs| / 2 > MAX_MULTI_ITEMS then Refuse("at most 32 members may be added")
        else
          match CheckScores(pairs)
          case Some(e) => Err(e)
          case None =>
            if KW_INCR in options && |pairs| != 2 then Refuse("INCR permits exactly one score/member pair")
            else Ok(ZaddCommand(words[0], options, PairUp(pairs)))
  }

  // -------------------------------------------------------------------- stream trimming

  datatype TrimSpec = TrimSpec(strategy: bytes, operator: seq<bytes>, threshold: bytes, limit: seq<bytes>) {
    /** A limit is given only with approximate trimming. */
    ghost predicate Valid() {
      && (strategy == KW_MAXLEN || strategy == KW_MINID)
      && (operator == [] || operator == [EXACTLY] || operator == [ABOUT])
      && (if strategy == KW_MAXLEN then ParseU64(threshold).Some? else IsStreamId(threshold))
      && (limit == [] || (|limit| == 1 && operator == [ABOUT] && CheckCount(limit[0]).Ok?))
    }

    function Words(): seq<bytes> {
      [strategy] + operator + [threshold] + if limit == [] then [] else [KW_LIMIT] + limit
    }
  }

  const DASH: byte := '-' as int

  /** The position of the first dash, or the length. */
  function FirstDash(s: bytes): (n: nat)
    ensures n <= |s| && (n < |s| ==> s[n] == DASH) && DASH !in s[..n]
  {
    if s == [] || s[0] == DASH then 0 else
      assert s[..1 + FirstDash(s[1..])] == [s[0]] + s[1..][..FirstDash(s[1..])];
      1 + FirstDash(s[1..])
  }

  /** `validate_stream_id` */
  function CheckStreamId(text: bytes): Option<Reason> {
    var i := FirstDash(text);
    if i == |text| then Some(Ascii("stream ID must have milliseconds-sequence form"))
    else
      match CheckU64(text[..i], "stream ID milliseconds")
      case Err(e) => Some(e)
      case Ok(_) =>
        match CheckU64(text[i + 1..], "stream ID sequence")
        case Err(e) => Some(e)
        case Ok(_) => None
  }

  /** Two numbers joined by a dash. */
  ghost predicate IsStreamId(text: bytes) {
    exists a, b :: text == a + [DASH] + b && ParseU64(a).Some? && ParseU64(b).Some?
  }

  /** `validate_stream_trim_spec`: what it read and the words after it. */
  function ParseTrim(words: seq<bytes>): (r: Result<(TrimSpec, seq<bytes>), Reason>)
    ensures r.Ok? ==> |r.value.1| < |words|
  {
    if words == [] then Refuse("trim strategy is required")
    else if words[0] != KW_MAXLEN && words[0] != KW_MINID then Refuse("trim strategy must be MAXLEN or MINID")
    else
      var operator := if |words| > 1 && (words[1] == EXACTLY || words[1] == ABOUT) then [words[1]] else [];
      var after := words[1 + |operator|..];
      if after == [] then Refuse("trim strategy requires a threshold")
      else
        match CheckThreshold(words[0], after[0])
        case Some(e) => Err(e)
        case None =>
          if |after| > 1 && after[1] == KW_LIMIT then
            if operator != [ABOUT] then Refuse("LIMIT is permitted only with approximate (~) trimming")
            else if |after| == 2 then Refuse("LIMIT requires a count")
            else
              match CheckCount(after[2])
              case Err(e) => Err(e)
              case Ok(_) => Ok((TrimSpec(words[0], operator, after[0], [after[2]]), after[3..]))
          else Ok((TrimSpec(words[0], operator, after[0], []), after[1..]))
  }

  function CheckThreshold(strategy: bytes, threshold: bytes): Option<Reason> {
    if strategy == KW_MAXLEN then
      match CheckU64(threshold, "MAXLEN threshold")
      case Err(e) => Some(e)
      case Ok(_) => None
    else CheckStreamId(threshold)
  }

  // ------------------------------------------------------------------------ XTRIM, XADD

  datatype XtrimCommand = XtrimCommand(key: bytes, spec: TrimSpec) {
    ghost predicate Valid() {
      spec.Valid()
    }

    function Words(): seq<bytes> {
      [key] + spec.Words()
    }
  }

  function ParseXtrim(words: seq<bytes>): Result<XtrimCommand, Reason> {
    if |words| < 3 then Refuse("requires a key, trim strategy, and threshold")
    else
      match ParseTrim(words[1..])
      case Err(e) => Err(e)
      case Ok((spec, rest)) =>
        if rest == [] then Ok(XtrimCommand(words[0], spec))
        else Err(Ascii("unsupported XTRIM option ") + rest[0])
  }

  datatype XaddCommand = XaddCommand(key: bytes, noMkStream: bool, trim: Option<TrimSpec>, pairs: seq<(bytes, bytes)>) {
    ghost predicate Valid() {
      && (trim.Some? ==> trim.value.Valid())
      && 1 <= |pairs| <= MAX_MULTI_ITEMS
    }

    function Words(): seq<bytes> {
      [key] + (if noMkStream then [KW_NOMKSTREAM] else [])
      + (if trim.Some? then trim.value.Words() else [])
      + [NEW_ID] + PairWords(pairs)
    }
  }

  function OptionalTrim(words: seq<bytes>): Result<(Option<TrimSpec>, seq<bytes>), Reason> {
    if words != [] && (words[0] == KW_MAXLEN || words[0] == KW_MINID) then
      match ParseTrim(words)
      case Err(e) => Err(e)
      case Ok((spec, rest)) => Ok((Some(spec), rest))
    else Ok((None, words))
  }

  /** The entry ID and the pairs. */
  function ParseEntry(words: seq<bytes>): Result<seq<(bytes, bytes)>, Reason> {
    if words == [] then Refuse("requires an entry ID")
    else if words[0] != NEW_ID then Refuse("XADD entry IDs must use '*' so Ferrite generates a monotonic ID")
    else
      var pairs := words[1..];
      if pairs == [] || |pairs| % 2 != 0 then Refuse("requires complete field/value pairs")
      else if |pairs| / 2 > MAX_MULTI_ITEMS then Refuse("at most 32 field/value pairs may be added")
      else Ok(PairUp(pairs))
  }

  function ParseXadd(words: seq<bytes>): Result<XaddCommand, Reason> {
    if |words| < 4 then Refuse("requires a key, entry ID, and field/value pair")
    else
      var noMkStream := words[1] == KW_NOMKSTREAM;
      match OptionalTrim(words[if noMkStream then 2 else 1..])
      case Err(e) => Err(e)
      case Ok((trim, rest)) =>
        match ParseEntry(rest)
        case Err(e) => Err(e)
        case Ok(pairs) => Ok(XaddCommand(words[0], noMkStream, trim, pairs))
  }
}
