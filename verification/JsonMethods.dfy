/** The JSON conversion as it runs: one budget object charged in place by mutually
    recursive methods. Each is proved equal to the function in `Json`. */
module JsonMethods {
  import opened Prelude
  import opened Decimal
  import opened Utf8
  import opened Resp
  import Base64
  import opened Json

  class JsonBudget {
    const byteLimit: nat
    var bytesUsed: nat

    constructor (byteLimit: nat)
      ensures this.byteLimit == byteLimit && bytesUsed == 0
    {
      this.byteLimit := byteLimit;
      bytesUsed := 0;
    }

    /** Charges bytes, or refuses and charges nothing. */
    method Charge(n: nat) returns (ok: bool)
      modifies this
      ensures Consume(old(bytesUsed), n, byteLimit) == if ok then Some(bytesUsed) else None
      ensures !ok ==> bytesUsed == old(bytesUsed)
      ensures byteLimit < USIZE_MAX ==> (ok <==> old(bytesUsed) + n <= byteLimit)
      ensures byteLimit < USIZE_MAX && ok ==> bytesUsed == old(bytesUsed) + n
    {
      var next := SaturatingAdd(bytesUsed, n);
      if next > byteLimit { return false; }
      bytesUsed := next;
      return true;
    }

    /** Charges the length of the string's JSON text without building it. */
    method ChargeString(value: bytes) returns (ok: bool)
      modifies this
      ensures Consume(old(bytesUsed), |Quoted(value)|, byteLimit) == if ok then Some(bytesUsed) else None
      ensures !ok ==> bytesUsed == old(bytesUsed)
    {
      var encoded: nat := 2;
      assert value[0..] == value;
      for i := 0 to |value|
        invariant bytesUsed == old(bytesUsed)
        invariant SaturatingAdd(encoded, |EscapeAll(value[i..])|) == SaturatingAdd(2, |EscapeAll(value)|)
      {
        assert value[i..][1..] == value[i + 1..];
        encoded := SaturatingAdd(encoded, EscapedLength(value[i]));
      }
      assert value[|value|..] == [];
      ok := Charge(encoded);
    }
  }

  function EscapedLength(b: byte): (n: nat)
    ensures n == |Escape(b)|
  {
    if b == QUOTE || b == BACKSLASH || b == 8 || b == 9 || b == 10 || b == 12 || b == 13 then 2
    else if b <= 0x1f then 6
    else 1
  }

  method BudgetedString(text: bytes, budget: JsonBudget) returns (r: Result<JsonValue, JsonError>)
    modifies budget
    ensures Charged(r, budget.bytesUsed) == Pay(old(budget.bytesUsed), |Quoted(text)|, budget.byteLimit, JString(text))
  {
    var ok := budget.ChargeString(text);
    return if ok then Ok(JString(text)) else Err(OverBudget);
  }

  method BudgetedScalar(n: nat, value: JsonValue, budget: JsonBudget) returns (r: Result<JsonValue, JsonError>)
    modifies budget
    ensures Charged(r, budget.bytesUsed) == Pay(old(budget.bytesUsed), n, budget.byteLimit, value)
  {
    var ok := budget.Charge(n);
    return if ok then Ok(value) else Err(OverBudget);
  }

  /** `bulk_to_json` */
  method BulkValue(data: bytes, budget: JsonBudget) returns (r: Result<JsonValue, JsonError>)
    modifies budget
    ensures Charged(r, budget.bytesUsed) == BulkToJson(data, old(budget.bytesUsed), budget.byteLimit)
  {
    if ValidUtf8(data) {
      r := BudgetedString(data, budget);
    } else {
      var encoded := Base64.EncodedLength(|data|);
      if encoded.None? { return Err(TooLarge); }
      var ok := budget.Charge(SaturatingAdd(SaturatingAdd(BINARY_PREFIX_LENGTH, encoded.value), BINARY_SUFFIX_LENGTH));
      if !ok { return Err(OverBudget); }
      var text := Base64.Base64Encode(data);
      return Ok(JObject(Insert(Insert([], Ascii("encoding"), JString(Ascii("base64"))), Ascii("data"), JString(text))));
    }
  }

  /** `to_json_budgeted` */
  method ToJsonBudgeted(value: RespValue, budget: JsonBudget, floats: FloatText) returns (r: Result<JsonValue, JsonError>)
    modifies budget
    ensures Charged(r, budget.bytesUsed) == Convert(value, old(budget.bytesUsed), budget.byteLimit, floats)
    decreases Nodes(value), 0
  {
    hide Quoted, ConvertList, ConvertEntries, BulkToJson, ValidUtf8, VerbatimText, Lossy, PrintInt, BinaryObject, Pay;
    match value
    case Simple(text) => r := BudgetedString(text, budget);
    case Error(text) => return Err(ReplyError(text));
    case Integer(n) => r := BudgetedScalar(|PrintInt(n)|, JInt(n), budget);
    case NullBulk => r := BudgetedScalar(4, JNull, budget);
    case NullArray => r := BudgetedScalar(4, JNull, budget);
    case Null => r := BudgetedScalar(4, JNull, budget);
    case Bulk(data) => r := BulkValue(data, budget);
    case Array(values) => r := ValuesToJson(values, budget, floats);
    case Set(values) => r := ValuesToJson(values, budget, floats);
    case Push(values) => r := ValuesToJson(values, budget, floats);
    case Boolean(b) => r := BudgetedScalar(if b then 4 else 5, JBool(b), budget);
    case Double(text) =>
      var printed := floats(text);
      if printed.Some? {
        r := BudgetedScalar(|text|, JFloat(printed.value), budget);
      } else {
        r := BudgetedString(text, budget);
      }
    case BigNumber(text) => r := BudgetedString(text, budget);
    case BlobError(blob) => return Err(ReplyError(Lossy(blob)));
    case Verbatim(blob) =>
      if !ValidUtf8(blob) { return Err(JsonError.NotUtf8); }
      r := BudgetedString(VerbatimText(blob), budget);
    case Map(entries) => r := EntriesToJson(entries, budget, floats);
  }

  function Prepended(done: seq<JsonValue>, c: Charged<seq<JsonValue>>): Charged<seq<JsonValue>> {
    match c.result
    case Err(e) => c
    case Ok(items) => Charged(Ok(done + items), c.used)
  }

  lemma PrependNothing(c: Charged<seq<JsonValue>>)
    ensures Prepended([], c) == c
  {
    if c.result.Ok? {
      assert [] + c.result.value == c.result.value;
    }
  }

  lemma {:induction false} EntryNodesAt(entries: seq<(RespValue, RespValue)>, i: nat)
    requires i < |entries|
    ensures Nodes(entries[i].0) + Nodes(entries[i].1) <= NodesEntries(entries)
  {
    if i > 0 {
      EntryNodesAt(entries[1..], i - 1);
    }
  }

  /** `values_to_json` */
  method ValuesToJson(values: seq<RespValue>, budget: JsonBudget, floats: FloatText) returns (r: Result<JsonValue, JsonError>)
    modifies budget
    ensures Charged(r, budget.bytesUsed) == ConvertList(values, old(budget.bytesUsed), budget.byteLimit, floats)
    decreases NodesAll(values), 2
  {
    hide Convert;
    var room := budget.Charge(2);
    if !room { return Err(OverBudget); }
    ghost var goal := ConvertItems(values, 0, budget.bytesUsed, budget.byteLimit, floats);
    var items: seq<JsonValue> := [];
    assert values[0..] == values;
    PrependNothing(goal);
    for index := 0 to |values|
      invariant goal == Prepended(items, ConvertItems(values[index..], index, budget.bytesUsed, budget.byteLimit, floats))
    {
      ItemsStep(values, index, items, budget.bytesUsed, budget.byteLimit, floats);
      NodesAt(values, index);
      var paid := budget.Charge(if index > 0 then 1 else 0);
      if !paid { return Err(OverBudget); }
      var item := ToJsonBudgeted(values[index], budget, floats);
      if item.Err? { return Err(item.error); }
      items := items + [item.value];
    }
    assert values[|values|..] == [] && items + [] == items;
    return Ok(JArray(items));
  }

  /** One turn of the element loop. */
  lemma ItemsStep(values: seq<RespValue>, index: nat, items: seq<JsonValue>, used: nat, limit: nat, floats: FloatText)
    requires index < |values|
    ensures Prepended(items, ConvertItems(values[index..], index, used, limit, floats))
            == match Consume(used, if index > 0 then 1 else 0, limit)
               case None => Charged(Err(OverBudget), used)
               case Some(paid) =>
                 match Convert(values[index], paid, limit, floats)
                 case Charged(Err(e), u) => Charged(Err(e), u)
                 case Charged(Ok(item), u) =>
                   Prepended(items + [item], ConvertItems(values[index + 1..], index + 1, u, limit, floats))
  {
    hide Convert;
    assert values[index..][1..] == values[index + 1..];
    var paid := Consume(used, if index > 0 then 1 else 0, limit);
    if paid.Some? {
      var first := Convert(values[index], paid.value, limit, floats);
      if first.result.Ok? {
        var others := ConvertItems(values[index + 1..], index + 1, first.used, limit, floats);
        if others.result.Ok? {
          Assoc(items, [first.result.value], others.result.value);
        }
      }
    }
  }

  /** The map arm of `to_json_budgeted`. */
  method EntriesToJson(entries: seq<(RespValue, RespValue)>, budget: JsonBudget, floats: FloatText)
    returns (r: Result<JsonValue, JsonError>)
    modifies budget
    ensures Charged(r, budget.bytesUsed) == Convert(Map(entries), old(budget.bytesUsed), budget.byteLimit, floats)
    decreases NodesEntries(entries), 2
  {
    hide Quoted, ConvertEntry;
    var room := budget.Charge(2);
    if !room { return Err(OverBudget); }
    ghost var goal := ConvertEntries(entries, [], 0, budget.bytesUsed, budget.byteLimit, floats);
    var members: seq<(bytes, JsonValue)> := [];
    assert entries[0..] == entries;
    for index := 0 to |entries|
      invariant goal == ConvertEntries(entries[index..], members, index, budget.bytesUsed, budget.byteLimit, floats)
    {
      assert entries[index..][1..] == entries[index + 1..];
      EntryNodesAt(entries, index);
      var member := EntryToJson(entries[index], index > 0, budget, floats);
      if member.Err? { return Err(member.error); }
      members := Insert(members, member.value.0, member.value.1);
    }
    assert entries[|entries|..] == [];
    return Ok(JObject(members));
  }

  /** One turn of the map loop: comma, key, key again as a string, colon, value. */
  method EntryToJson(entry: (RespValue, RespValue), comma: bool, budget: JsonBudget, floats: FloatText)
    returns (r: Result<(bytes, JsonValue), JsonError>)
    modifies budget
    ensures Charged(r, budget.bytesUsed) == ConvertEntry(entry, comma, old(budget.bytesUsed), budget.byteLimit, floats)
    decreases NodesEntry(entry), 1
  {
    hide Quoted, Convert, KeyText;
    var paid := budget.Charge(if comma then 1 else 0);
    if !paid { return Err(OverBudget); }
    var key := ToJsonBudgeted(entry.0, budget, floats);
    if key.Err? { return Err(key.error); }
    var name := KeyText(key.value);
    paid := budget.ChargeString(name);
    if !paid { return Err(OverBudget); }
    paid := budget.Charge(1);
    if !paid { return Err(OverBudget); }
    var value := ToJsonBudgeted(entry.1, budget, floats);
    if value.Err? { return Err(value.error); }
    return Ok((name, value.value));
  }

  /** `to_json_with_budget` */
  method ToJsonWithBudget(value: RespValue, byteLimit: nat, floats: FloatText) returns (r: Result<JsonValue, JsonError>)
    ensures r == ToJson(value, byteLimit, floats)
  {
    var budget := new JsonBudget(byteLimit);
    r := ToJsonBudgeted(value, budget, floats);
  }
}
