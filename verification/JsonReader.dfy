/** A reader of compact JSON (RFC 8259), to which every text written is unambiguous. */
module JsonReader {
  import opened Prelude
  import opened Decimal
  import opened Resp
  import Base64
  import opened Json
  import opened JsonProofs

  const COMMA: byte := ',' as int
  const COLON: byte := ':' as int
  const OPEN_ARRAY: byte := '[' as int
  const CLOSE_ARRAY: byte := ']' as int
  const OPEN_OBJECT: byte := '{' as int
  const CLOSE_OBJECT: byte := '}' as int

  /** What was read, and the input after it. */
  datatype Read<T> = Read(value: T, rest: bytes)

  function Run(s: bytes): (n: nat)
    ensures n <= |s| && AllDigits(s[..n]) && (n < |s| ==> !IsDigit(s[n]))
  {
    if s == [] || !IsDigit(s[0]) then 0
    else
      assert s[..1 + Run(s[1..])] == [s[0]] + s[1..][..Run(s[1..])];
      1 + Run(s[1..])
  }

  function ReadNumber(input: bytes): (r: Option<Read<int>>)
    ensures r.Some? ==> |r.value.rest| < |input|
  {
    var body := if input != [] && input[0] == MINUS then input[1..] else input;
    var n := Run(body);
    if n == 0 then None
    else
      var value: int := Decimal.Value(body[..n]);
      Some(Read(if input[0] == MINUS then -value else value, body[n..]))
  }

  function ReadString(input: bytes): (r: Option<Read<bytes>>)
    ensures r.Some? ==> |r.value.rest| < |input|
  {
    if input == [] || input[0] != QUOTE then None
    else
      ReadCharsShortens(input[1..]);
      match ReadChars(input[1..])
      case None => None
      case Some((text, rest)) => Some(Read(text, rest))
  }

  lemma {:induction false} ReadCharsShortens(input: bytes)
    ensures ReadChars(input).Some? ==> |ReadChars(input).value.1| < |input|
  {
    if input != [] && input[0] != QUOTE {
      if input[0] != BACKSLASH {
        ReadCharsShortens(input[1..]);
      } else if |input| >= 2 && input[1] != 'u' as int {
        ReadCharsShortens(input[2..]);
      } else if |input| >= 6 {
        ReadCharsShortens(input[6..]);
      }
    }
  }

  function Literal(input: bytes, word: bytes, value: JsonValue): (r: Option<Read<JsonValue>>)
    requires word != []
    ensures r.Some? ==> |r.value.rest| < |input|
  {
    if |word| <= |input| && input[..|word|] == word then Some(Read(value, input[|word|..])) else None
  }

  function ReadValue(input: bytes): (r: Option<Read<JsonValue>>)
    ensures r.Some? ==> |r.value.rest| < |input|
    decreases |input|, 0
  {
    if input == [] then None
    else if input[0] == 'n' as int then Literal(input, Ascii("null"), JNull)
    else if input[0] == 't' as int then Literal(input, Ascii("true"), JBool(true))
    else if input[0] == 'f' as int then Literal(input, Ascii("false"), JBool(false))
    else if input[0] == QUOTE then
      match ReadString(input)
      case None => None
      case Some(Read(text, rest)) => Some(Read(JString(text), rest))
    else if input[0] == OPEN_ARRAY then
      if |input| > 1 && input[1] == CLOSE_ARRAY then Some(Read(JArray([]), input[2..]))
      else
        match ReadItems(input[1..])
        case None => None
        case Some(Read(items, rest)) => Some(Read(JArray(items), rest))
    else if input[0] == OPEN_OBJECT then
      if |input| > 1 && input[1] == CLOSE_OBJECT then Some(Read(JObject([]), input[2..]))
      else
        match ReadMembers(input[1..])
        case None => None
        case Some(Read(members, rest)) => Some(Read(JObject(members), rest))
    else
      match ReadNumber(input)
      case None => None
      case Some(Read(n, rest)) => Some(Read(JInt(n), rest))
  }

  /** At least one value, up to the closing bracket. */
  function ReadItems(input: bytes): (r: Option<Read<seq<JsonValue>>>)
    ensures r.Some? ==> |r.value.rest| < |input|
    decreases |input|, 1
  {
    match ReadValue(input)
    case None => None
    case Some(Read(item, rest)) =>
      if rest == [] then None
      else if rest[0] == CLOSE_ARRAY then Some(Read([item], rest[1..]))
      else if rest[0] != COMMA then None
      else
        match ReadItems(rest[1..])
        case None => None
        case Some(Read(items, after)) => Some(Read([item] + items, after))
  }

  function ReadMember(input: bytes): (r: Option<Read<(bytes, JsonValue)>>)
    ensures r.Some? ==> |r.value.rest| < |input|
    decreases |input|, 1
  {
    match ReadString(input)
    case None => None
    case Some(Read(key, rest)) =>
      if rest == [] || rest[0] != COLON then None
      else
        match ReadValue(rest[1..])
        case None => None
        case Some(Read(value, after)) => Some(Read((key, value), after))
  }

  function ReadMembers(input: bytes): (r: Option<Read<seq<(bytes, JsonValue)>>>)
    ensures r.Some? ==> |r.value.rest| < |input|
    decreases |input|, 2
  {
    match ReadMember(input)
    case None => None
    case Some(Read(member, rest)) =>
      if rest == [] then None
      else if rest[0] == CLOSE_OBJECT then Some(Read([member], rest[1..]))
      else if rest[0] != COMMA then None
      else
        match ReadMembers(rest[1..])
        case None => None
        case Some(Read(members, after)) => Some(Read([member] + members, after))
  }

  // ----------------------------------------------------------------------- reading it back

  /** No float anywhere: how floats print is not part of the model. */
  predicate NoFloat(v: JsonValue)
    decreases v, 1
  {
    match v
    case JFloat(_) => false
    case JArray(items) => NoFloats(items)
    case JObject(members) => NoFloatMembers(members)
    case _ => true
  }

  predicate NoFloats(items: seq<JsonValue>)
    decreases items, 0
  {
    items == [] || (NoFloat(items[0]) && NoFloats(items[1..]))
  }

  predicate NoFloatMembers(members: seq<(bytes, JsonValue)>)
    decreases members, 2
  {
    members == [] || (NoFloatMember(members[0]) && NoFloatMembers(members[1..]))
  }

  predicate NoFloatMember(m: (bytes, JsonValue))
    decreases m, 1
  {
    NoFloat(m.1)
  }

  lemma {:induction false} RunOf(digits: bytes, rest: bytes)
    requires AllDigits(digits) && (rest == [] || !IsDigit(rest[0]))
    ensures Run(digits + rest) == |digits|
  {
    if digits == [] {
      assert digits + rest == rest;
    } else {
      assert (digits + rest)[1..] == digits[1..] + rest;
      RunOf(digits[1..], rest);
    }
  }

  lemma NumberReadsBack(n: int, rest: bytes)
    requires rest == [] || !IsDigit(rest[0])
    ensures ReadNumber(PrintInt(n) + rest) == Some(Read(n, rest))
  {
    hide Print, Decimal.Value;
    var digits := Print(if n < 0 then -n else n);
    ValueOfPrint(if n < 0 then -n else n);
    var input := PrintInt(n) + rest;
    RunOf(digits, rest);
    if n < 0 {
      assert input[1..] == digits + rest;
    } else {
      assert input[0] == digits[0];
    }
    assert (digits + rest)[..|digits|] == digits && (digits + rest)[|digits|..] == rest;
  }

  lemma StringReadsBack(s: bytes, rest: bytes)
    ensures ReadString(Quoted(s) + rest) == Some(Read(s, rest))
  {
    hide ReadChars;
    QuotedReadsBack(s, rest);
    assert (Quoted(s) + rest)[1..] == EscapeAll(s) + [QUOTE] + rest;
  }

  lemma LiteralReadsBack(word: bytes, value: JsonValue, rest: bytes)
    requires word != []
    ensures Literal(word + rest, word, value) == Some(Read(value, rest))
  {
    assert (word + rest)[..|word|] == word && (word + rest)[|word|..] == rest;
  }

  predicate NoDigitNext(rest: bytes) {
    rest == [] || !IsDigit(rest[0])
  }

  lemma Regroup(a: bytes, separator: byte, b: bytes, c: bytes)
    ensures a + [separator] + b + c == a + ([separator] + (b + c))
  {
  }

  /** Reading a value's text gives the value back and stops where the text stops. */
  lemma {:induction false} TextReadsBack(v: JsonValue, rest: bytes)
    requires NoFloat(v) && NoDigitNext(rest)
    ensures ReadValue(Text(v) + rest) == Some(Read(v, rest))
    ensures Text(v) != [] && Text(v)[0] != CLOSE_ARRAY && Text(v)[0] != CLOSE_OBJECT
    decreases v, 1
  {
    match v
    case JNull => ScalarReadsBack(v, rest);
    case JBool(_) => ScalarReadsBack(v, rest);
    case JInt(_) => ScalarReadsBack(v, rest);
    case JString(_) => ScalarReadsBack(v, rest);
    case JArray(items) => ArrayReadsBack(items, rest);
    case JObject(members) => ObjectReadsBack(members, rest);
  }

  lemma ScalarReadsBack(v: JsonValue, rest: bytes)
    requires NoDigitNext(rest) && !v.JFloat? && !v.JArray? && !v.JObject?
    ensures ReadValue(Text(v) + rest) == Some(Read(v, rest))
    ensures Text(v) != [] && Text(v)[0] != CLOSE_ARRAY && Text(v)[0] != CLOSE_OBJECT
  {
    hide Literal, ReadString, ReadNumber, EscapeAll, Print;
    match v
    case JNull => LiteralReadsBack(Ascii("null"), v, rest);
    case JBool(b) => LiteralReadsBack(if b then Ascii("true") else Ascii("false"), v, rest);
    case JInt(n) => NumberReadsBack(n, rest); NumberOpens(n);
    case JString(text) => StringReadsBack(text, rest);
  }

  lemma NumberOpens(n: int)
    ensures PrintInt(n)[0] == MINUS || IsDigit(PrintInt(n)[0])
  {
  }

  lemma {:induction false} ArrayReadsBack(items: seq<JsonValue>, rest: bytes)
    requires NoFloats(items)
    ensures ReadValue(Text(JArray(items)) + rest) == Some(Read(JArray(items), rest))
    decreases items, 3
  {
    hide ReadItems, Items, ReadString, ReadNumber, ReadMembers, Literal;
    var input := Text(JArray(items)) + rest;
    if items == [] {
      assert Items(items) == [] by { NoItems(); }
      assert input == [OPEN_ARRAY, CLOSE_ARRAY] + rest && input[2..] == rest;
    } else {
      ItemsReadBack(items, rest);
      assert input[1..] == Items(items) + ([CLOSE_ARRAY] + rest);
    }
  }

  lemma NoItems()
    ensures Items([]) == [] && Members([]) == []
  {
  }

  lemma {:induction false} ItemsReadBack(items: seq<JsonValue>, rest: bytes)
    requires NoFloats(items) && items != []
    ensures ReadItems(Items(items) + ([CLOSE_ARRAY] + rest)) == Some(Read(items, rest))
    ensures Items(items) != [] && Items(items)[0] != CLOSE_ARRAY
    decreases items, 2
  {
    hide ReadValue, Text, NoFloat;
    if |items| == 1 {
      TextReadsBack(items[0], [CLOSE_ARRAY] + rest);
      assert items == [items[0]] && ([CLOSE_ARRAY] + rest)[1..] == rest;
    } else {
      var more := Items(items[1..]) + ([CLOSE_ARRAY] + rest);
      TextReadsBack(items[0], [COMMA] + more);
      ItemsReadBack(items[1..], rest);
      Regroup(Text(items[0]), COMMA, Items(items[1..]), [CLOSE_ARRAY] + rest);
      assert ([COMMA] + more)[1..] == more && items == [items[0]] + items[1..];
    }
  }

  lemma {:induction false} ObjectReadsBack(members: seq<(bytes, JsonValue)>, rest: bytes)
    requires NoFloatMembers(members)
    ensures ReadValue(Text(JObject(members)) + rest) == Some(Read(JObject(members), rest))
    decreases members, 5
  {
    hide ReadMembers, Members, ReadString, ReadNumber, ReadItems, Literal;
    var input := Text(JObject(members)) + rest;
    if members == [] {
      assert Members(members) == [] by { NoItems(); }
      assert input == [OPEN_OBJECT, CLOSE_OBJECT] + rest && input[2..] == rest;
    } else {
      MembersReadBack(members, rest);
      assert input[1..] == Members(members) + ([CLOSE_OBJECT] + rest);
    }
  }

  lemma {:induction false} MembersReadBack(members: seq<(bytes, JsonValue)>, rest: bytes)
    requires NoFloatMembers(members) && members != []
    ensures ReadMembers(Members(members) + ([CLOSE_OBJECT] + rest)) == Some(Read(members, rest))
    ensures Members(members) != [] && Members(members)[0] != CLOSE_OBJECT
    decreases members, 4
  {
    hide ReadMember, Member, NoFloatMember;
    if |members| == 1 {
      MemberReadsBack(members[0], [CLOSE_OBJECT] + rest);
      assert members == [members[0]] && ([CLOSE_OBJECT] + rest)[1..] == rest;
    } else {
      var more := Members(members[1..]) + ([CLOSE_OBJECT] + rest);
      MemberReadsBack(members[0], [COMMA] + more);
      MembersReadBack(members[1..], rest);
      Regroup(Member(members[0]), COMMA, Members(members[1..]), [CLOSE_OBJECT] + rest);
      assert ([COMMA] + more)[1..] == more && members == [members[0]] + members[1..];
    }
  }

  lemma {:induction false} MemberReadsBack(m: (bytes, JsonValue), rest: bytes)
    requires NoFloatMember(m) && NoDigitNext(rest)
    ensures ReadMember(Member(m) + rest) == Some(Read(m, rest))
    ensures Member(m) != [] && Member(m)[0] == QUOTE
    decreases m, 2
  {
    hide ReadString, ReadValue, Text, EscapeAll;
    var after := Text(m.1) + rest;
    StringReadsBack(m.0, [COLON] + after);
    TextReadsBack(m.1, rest);
    Regroup(Quoted(m.0), COLON, Text(m.1), rest);
    assert ([COLON] + after)[1..] == after;
  }

  /** Different values have different texts. */
  lemma TextIsUnambiguous(v: JsonValue, w: JsonValue)
    requires NoFloat(v) && NoFloat(w) && Text(v) == Text(w)
    ensures v == w
  {
    hide ReadValue, Text, NoFloat;
    TextReadsBack(v, []);
    TextReadsBack(w, []);
  }

  // ---------------------------------------------------------------- replies without doubles

  lemma {:induction false} InsertHasNoFloat(members: seq<(bytes, JsonValue)>, k: bytes, v: JsonValue)
    requires NoFloatMembers(members) && NoFloat(v)
    ensures NoFloatMembers(Insert(members, k, v))
  {
    var r := Insert(members, k, v);
    if members == [] {
      assert r[1..] == [];
    } else if members[0].0 == k {
      assert r[1..] == members[1..];
    } else if Less(k, members[0].0) {
      assert r[1..] == members;
    } else {
      assert r[1..] == Insert(members[1..], k, v);
      InsertHasNoFloat(members[1..], k, v);
    }
  }

  /** The value of a reply without doubles has no float in it. */
  lemma {:induction false} ValueHasNoFloat(v: RespValue, floats: FloatText)
    requires Everywhere(v, NotDouble)
    ensures NoFloat(JsonProofs.Value(v, floats))
    decreases Nodes(v), 0
  {
    hide BinaryObject, ValueItems, ValueEntries, EverywhereAll;
    NodesOfKids(v);
    match v
    case Bulk(data) => BinaryHasNoFloat(data);
    case Array(values) => ItemsHaveNoFloat(values, floats);
    case Set(values) => ItemsHaveNoFloat(values, floats);
    case Push(values) => ItemsHaveNoFloat(values, floats);
    case Map(entries) => NoneBuilt(); EntriesHaveNoFloat(entries, [], floats);
    case _ =>
  }

  lemma NoneBuilt()
    ensures NoFloatMembers([])
  {
  }

  lemma BinaryHasNoFloat(data: bytes)
    ensures NoFloat(BinaryObject(data))
  {
    hide Base64.Encode, Insert;
    var d, e := Ascii("data"), Ascii("encoding");
    var b64, t := JString(Ascii("base64")), JString(Base64.Encode(data));
    NoneBuilt();
    InsertHasNoFloat([], e, b64);
    InsertHasNoFloat(Insert([], e, b64), d, t);
  }

  lemma {:induction false} ItemsHaveNoFloat(vs: seq<RespValue>, floats: FloatText)
    requires EverywhereAll(vs, NotDouble)
    ensures NoFloats(ValueItems(vs, floats))
    decreases NodesAll(vs), 1
  {
    hide JsonProofs.Value, Everywhere, NoFloat;
    if vs != [] {
      ValueHasNoFloat(vs[0], floats);
      ItemsHaveNoFloat(vs[1..], floats);
      var r := ValueItems(vs, floats);
      assert r[1..] == ValueItems(vs[1..], floats);
    }
  }

  lemma {:induction false} EntriesHaveNoFloat(entries: seq<(RespValue, RespValue)>,
                                              built: seq<(bytes, JsonValue)>, floats: FloatText)
    requires EverywhereAll(Flatten(entries), NotDouble) && NoFloatMembers(built)
    ensures NoFloatMembers(ValueEntries(entries, built, floats))
    decreases NodesEntries(entries), 2
  {
    hide JsonProofs.Value, Everywhere, EverywhereAll, NoFloat, Flatten, KeyText, Insert, NoFloatMembers;
    if entries != [] {
      EverywhereEntries(entries, NotDouble);
      assert NodesEntries(entries) == Nodes(entries[0].0) + Nodes(entries[0].1) + NodesEntries(entries[1..]);
      ValueHasNoFloat(entries[0].1, floats);
      var (k, v) := ValueEntry(entries[0], floats);
      InsertHasNoFloat(built, k, v);
      EntriesHaveNoFloat(entries[1..], Insert(built, k, v), floats);
    }
  }
}
