/** Classifying a command: its normalized name is looked up in the allowlist and the rule
    found there judges the arguments. The allowlist itself is a parameter. */
module Policy {
  import opened Prelude
  import opened Decimal
  import opened Utf8
  import opened Text
  import opened Grammar
  import opened Range

  const MAX_STRING_RANGE: nat := 64 * 1024
  const MAX_BIT_OFFSET: nat := MAX_STRING_RANGE * 8 - 1

  type Small = n: nat | n < 100

  /** The validators an allowlist entry can name. */
  datatype Rule =
    | Exact(count: Small)
    | AtMost(count: Small)
    | Between(low: Small, high: Small)
    | Hello
    | Select
    | Copy
    | KeyValuePairs
    | HashPairs
    | KeyedItems
    | OptionalCount
    | GetBit
    | SetBit
    | RandomMember
    | StringRange
    | CollectionRange
    | SortedCollectionRange
    | LimitedSortedRange
    | Zadd
    | Xadd
    | Xtrim
    | StreamRange

  /** The allowlist: which rule a command name has, if any. */
  type Allowlist = bytes -> Option<Rule>

  function Reject(text: string): (r: Option<Reason>)
    ensures r.Some? && |r.value| == |text|
  {
    Some(Ascii(text))
  }

  function ErrorOf<T>(r: Result<T, Reason>): Option<Reason> {
    match r
    case Ok(_) => None
    case Err(e) => Some(e)
  }

  function JudgeExact(count: Small, words: seq<bytes>): Option<Reason> {
    if |words| == count then None
    else Some(Ascii("expected exactly ") + Print(count) + Ascii(" argument(s)"))
  }

  function JudgeBetween(low: Small, high: Small, words: seq<bytes>): Option<Reason> {
    if low <= |words| <= high then None
    else Some(Ascii("requires between ") + Print(low) + Ascii(" and ") + Print(high) + Ascii(" argument(s)"))
  }

  function JudgeBoundedRange(start: bytes, stop: bytes, limit: nat, what: string): Option<Reason> {
    match BoundedRange(start, stop, limit)
    case Accepted => None
    case NotAnInteger =>
      if ParseI64(start).None? then Reject("range start must be an integer")
      else Reject("range stop must be an integer")
    case MixedSigns => Some(Ascii(what) + Ascii(" must use two non-negative or two non-positive indexes"))
    case Unbounded => Some(Ascii(what) + Ascii(" is unbounded"))
    case Invalid => Some(Ascii(what) + Ascii(" is invalid"))
    case TooWide => Some(Ascii(what) + Ascii(" must contain at most ") + Print(limit) + Ascii(" elements"))
  }

  function JudgeSelect(words: seq<bytes>): Option<Reason> {
    if |words| != 1 then JudgeExact(1, words)
    else
      match CheckU64(words[0], "database number")
      case Err(e) => Some(e)
      case Ok(n) => if n <= MAX_DATABASE then None else Reject("database number must be at most 15")
  }

  function JudgeSetBit(words: seq<bytes>): Option<Reason> {
    if |words| != 3 then JudgeExact(3, words)
    else
      match CheckU64(words[1], "bit offset")
      case Err(e) => Some(e)
      case Ok(n) =>
        if n > MAX_BIT_OFFSET then Reject("bit offset must be at most 524287")
        else if words[2] == Ascii("0") || words[2] == Ascii("1") then None
        else Reject("bit value must be 0 or 1")
  }

  function JudgeRandomMember(words: seq<bytes>): Option<Reason> {
    if !(1 <= |words| <= 3) then JudgeBetween(1, 3, words)
    else if |words| > 1 && ParseI64(words[1]).None? then Reject("count must be an integer")
    else if |words| > 1 && (var n := ParseI64(words[1]).value; n == 0 || n > MAX_COLLECTION_PAGE || -n > MAX_COLLECTION_PAGE)
      then Reject("absolute COUNT must be between 1 and 100")
    else if |words| == 3 && words[2] != Ascii("WITHSCORES") && words[2] != Ascii("WITHVALUES")
      then Reject("the only permitted third argument is WITHSCORES or WITHVALUES")
    else None
  }

  function JudgeSortedRange(words: seq<bytes>): Option<Reason> {
    if !(3 <= |words| <= 4) then JudgeBetween(3, 4, words)
    else if |words| == 4 && words[3] != Ascii("WITHSCORES")
      then Reject("only the optional WITHSCORES modifier is permitted")
    else JudgeBoundedRange(words[1], words[2], MAX_COLLECTION_PAGE, "range window")
  }

  /** The position of the first word equal to `w`. */
  function Position(words: seq<bytes>, w: bytes): (r: Option<nat>)
    ensures match r
            case Some(i) => i < |words| && words[i] == w && w !in words[..i]
            case None => w !in words
  {
    if words == [] then None
    else if words[0] == w then Some(0)
    else
      match Position(words[1..], w)
      case None => None
      case Some(i) =>
        assert words[..i + 1] == [words[0]] + words[1..][..i];
        Some(i + 1)
  }

  function JudgeLimitedRange(words: seq<bytes>): Option<Reason> {
    if !(6 <= |words| <= 7) then JudgeBetween(6, 7, words)
    else
      match Position(words, KW_LIMIT)
      case None => Reject("LIMIT is required with a count of at most 100")
      case Some(i) =>
        if i + 1 >= |words| then Reject("LIMIT requires an offset and count")
        else
          match CheckU64(words[i + 1], "LIMIT offset")
          case Err(e) => Some(e)
          case Ok(_) =>
            if i + 2 >= |words| then Reject("LIMIT requires an offset and count")
            else ErrorOf(CheckCount(words[i + 2]))
  }

  function JudgeHello(words: seq<bytes>): Option<Reason> {
    if |words| != 1 then JudgeExact(1, words)
    else if words[0] == Ascii("2") || words[0] == Ascii("3") then None
    else Reject("only RESP protocol versions 2 and 3 are allowed")
  }

  function JudgePairs(words: seq<bytes>): Option<Reason> {
    if words == [] || |words| % 2 != 0 || |words| / 2 > MAX_MULTI_ITEMS
    then Reject("requires key/value pairs for at most 32 keys") else None
  }

  function JudgeHashPairs(words: seq<bytes>): Option<Reason> {
    if |words| < 3 || (|words| - 1) % 2 != 0 || (|words| - 1) / 2 > MAX_MULTI_ITEMS
    then Reject("requires a key and field/value pairs for at most 32 fields") else None
  }

  function JudgeKeyedItems(words: seq<bytes>): Option<Reason> {
    if 2 <= |words| <= MAX_MULTI_ITEMS + 1 then None else Reject("requires a key and between 1 and 32 item(s)")
  }

  function JudgeOptionalCount(words: seq<bytes>): Option<Reason> {
    if !(1 <= |words| <= 2) then JudgeBetween(1, 2, words)
    else if |words| == 2 then ErrorOf(CheckCount(words[1])) else None
  }

  function JudgeGetBit(words: seq<bytes>): Option<Reason> {
    if |words| != 2 then JudgeExact(2, words) else ErrorOf(CheckU64(words[1], "bit offset"))
  }

  /** A key and two indexes. */
  function JudgeRangeWords(words: seq<bytes>, limit: nat, what: string): Option<Reason> {
    if |words| != 3 then JudgeExact(3, words) else JudgeBoundedRange(words[1], words[2], limit, what)
  }

  function JudgeStreamRange(words: seq<bytes>): Option<Reason> {
    if |words| != 5 || words[3] != Ascii("COUNT") then Reject("COUNT is required and must be at most 100")
    else ErrorOf(CheckCount(words[4]))
  }

  function JudgeAtMost(count: Small, words: seq<bytes>): Option<Reason> {
    if |words| <= count then None else Some(Ascii("accepts at most ") + Print(count) + Ascii(" argument(s)"))
  }

  /** The refusal a rule gives; None accepts. */
  function Judge(rule: Rule, words: seq<bytes>): Option<Reason> {
    match rule
    case Exact(n) => JudgeExact(n, words)
    case AtMost(n) => JudgeAtMost(n, words)
    case Between(low, high) => JudgeBetween(low, high, words)
    case Hello => JudgeHello(words)
    case Select => JudgeSelect(words)
    case Copy => ErrorOf(ParseCopy(words))
    case KeyValuePairs => JudgePairs(words)
    case HashPairs => JudgeHashPairs(words)
    case KeyedItems => JudgeKeyedItems(words)
    case OptionalCount => JudgeOptionalCount(words)
    case GetBit => JudgeGetBit(words)
    case SetBit => JudgeSetBit(words)
    case RandomMember => JudgeRandomMember(words)
    case StringRange => JudgeRangeWords(words, MAX_STRING_RANGE, "byte range")
    case CollectionRange => JudgeRangeWords(words, MAX_COLLECTION_PAGE, "range window")
    case SortedCollectionRange => JudgeSortedRange(words)
    case LimitedSortedRange => JudgeLimitedRange(words)
    case Zadd => ErrorOf(ParseZadd(words))
    case Xadd => ErrorOf(ParseXadd(words))
    case Xtrim => ErrorOf(ParseXtrim(words))
    case StreamRange => JudgeStreamRange(words)
  }

  // ---------------------------------------------------------------------- classification

  datatype Decision = Allow | Rejected(command: bytes, reason: Reason) {
    function Message(): bytes {
      match this
      case Allow => []
      case Rejected(command, reason) =>
        Ascii("ERR ") + command + Ascii(" is not permitted by the Ferrite public playground policy: ") + reason
    }
  }

  const DOT: byte := '.' as int
  const KW_COMMAND: bytes := Ascii("COMMAND")

  /** `normalized_name_and_arguments` */
  function NameAndArguments(words: seq<bytes>): Option<(bytes, seq<bytes>)> {
    if words == [] then None
    else if DOT in words[0] then Some((words[0], words[1..]))
    else if words[0] == KW_COMMAND then
      if |words| < 2 then None else Some((words[0] + [DOT] + words[1], words[2..]))
    else Some((words[0], words[1..]))
  }

  function ClassifyNormalized(allowlist: Allowlist, words: seq<bytes>): Decision {
    match NameAndArguments(words)
    case None => Rejected(Ascii("<EMPTY>"), Ascii("empty commands are not allowed"))
    case Some((name, arguments)) =>
      match allowlist(name)
      case None => Rejected(name, Ascii("the command is not on the explicit safe-command allowlist"))
      case Some(rule) =>
        match Judge(rule, arguments)
        case None => Allow
        case Some(reason) => Rejected(name, reason)
  }

  function NormalizeAll(words: seq<bytes>): (r: seq<bytes>)
    ensures |r| == |words| && forall i :: 0 <= i < |words| ==> r[i] == Normalize(words[i])
  {
    if words == [] then [] else [Normalize(words[0])] + NormalizeAll(words[1..])
  }

  function LossyAll(words: seq<bytes>): (r: seq<bytes>)
    ensures |r| == |words| && forall i :: 0 <= i < |words| ==> r[i] == Lossy(words[i])
  {
    if words == [] then [] else [Lossy(words[0])] + LossyAll(words[1..])
  }

  /** `classify_arguments`: a textual command. */
  function ClassifyText(allowlist: Allowlist, words: seq<bytes>): Decision {
    ClassifyNormalized(allowlist, NormalizeAll(words))
  }

  /** The policy's view of a binary command: opaque arguments are made text, lossily. */
  function View(words: seq<bytes>): seq<bytes>
    requires words != []
  {
    [Normalize(words[0])] + NormalizeAll(LossyAll(words[1..]))
  }

  /** `classify_bytes_arguments`: a command from the public RESP port. */
  function ClassifyBytes(allowlist: Allowlist, words: seq<bytes>): Decision {
    if words == [] then ClassifyNormalized(allowlist, [])
    else if !ValidUtf8(words[0]) then Rejected(Ascii("<NON-UTF8>"), Ascii("command names must be valid UTF-8"))
    else ClassifyNormalized(allowlist, View(words))
  }

  /** The refusal text the connection loop sends, if any. */
  function Refusal(allowlist: Allowlist): seq<bytes> -> Option<bytes> {
    words =>
      match ClassifyBytes(allowlist, words)
      case Allow => None
      case Rejected(command, reason) => Some(Rejected(command, reason).Message())
  }
}
