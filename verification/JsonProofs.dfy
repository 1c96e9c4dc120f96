/** The bytes charged by the JSON conversion, against the JSON text it stands for. */
module JsonProofs {
  import opened Prelude
  import opened Decimal
  import opened Utf8
  import opened Resp
  import Base64
  import opened Json

  // -------------------------------------------------------------------- whole-tree checks

  /** `p` holds of the value and of everything in it. */
  predicate Everywhere(v: RespValue, p: RespValue -> bool)
    decreases Nodes(v), 0
  {
    NodesOfKids(v);
    p(v) && EverywhereAll(Kids(v), p)
  }

  predicate EverywhereAll(vs: seq<RespValue>, p: RespValue -> bool)
    decreases NodesAll(vs), 1
  {
    vs == [] || (Everywhere(vs[0], p) && EverywhereAll(vs[1..], p))
  }

  lemma EverywhereEntries(entries: seq<(RespValue, RespValue)>, p: RespValue -> bool)
    requires entries != []
    ensures EverywhereAll(Flatten(entries), p)
            <==> Everywhere(entries[0].0, p) && Everywhere(entries[0].1, p) && EverywhereAll(Flatten(entries[1..]), p)
  {
    hide Everywhere;
    var f := Flatten(entries);
    assert f[1..][0] == entries[0].1;
    assert f[1..][1..] == Flatten(entries[1..]);
  }

  /** The value itself can be converted: it is not an error, and verbatim text is UTF-8. */
  predicate ConvertibleHere(v: RespValue) {
    && !v.Error? && !v.BlobError?
    && (v.Verbatim? ==> ValidUtf8(v.blob))
    && (v.Bulk? && !ValidUtf8(v.data) ==> Base64.EncodedLength(|v.data|).Some?)
  }

  predicate Convertible(v: RespValue) {
    Everywhere(v, ConvertibleHere)
  }

  predicate NotMap(v: RespValue) {
    !v.Map?
  }

  /** A finite double's printed form is not longer than its wire text, for which it
      is charged. Values without doubles satisfy this for every way of printing. */
  predicate FloatFits(v: RespValue, floats: FloatText) {
    v.Double? && floats(v.text).Some? ==> |floats(v.text).value| <= |v.text|
  }

  predicate FloatExact(v: RespValue, floats: FloatText) {
    v.Double? && floats(v.text).Some? ==> |floats(v.text).value| == |v.text|
  }

  predicate NotDouble(v: RespValue) {
    !v.Double?
  }

  // ------------------------------------------------- value and cost, without any budget

  /** The JSON value a convertible reply stands for. */
  function Value(v: RespValue, floats: FloatText): JsonValue
    decreases Nodes(v), 0
  {
    match v
    case Simple(text) => JString(text)
    case Integer(n) => JInt(n)
    case Bulk(data) => if ValidUtf8(data) then JString(data) else BinaryObject(data)
    case Array(values) => JArray(ValueItems(values, floats))
    case Set(values) => JArray(ValueItems(values, floats))
    case Push(values) => JArray(ValueItems(values, floats))
    case Boolean(b) => JBool(b)
    case Double(text) => (match floats(text) case Some(printed) => JFloat(printed) case None => JString(text))
    case BigNumber(text) => JString(text)
    case Verbatim(blob) => JString(VerbatimText(blob))
    case Map(entries) => JObject(ValueEntries(entries, [], floats))
    case _ => JNull
  }

  function ValueItems(vs: seq<RespValue>, floats: FloatText): seq<JsonValue>
    decreases NodesAll(vs), 1
  {
    if vs == [] then [] else [Value(vs[0], floats)] + ValueItems(vs[1..], floats)
  }

  /** Later entries overwrite earlier ones with the same key. */
  function ValueEntries(entries: seq<(RespValue, RespValue)>, built: seq<(bytes, JsonValue)>, floats: FloatText):
    seq<(bytes, JsonValue)>
    decreases NodesEntries(entries), 2
  {
    if entries == [] then built
    else
      var (k, v) := ValueEntry(entries[0], floats);
      ValueEntries(entries[1..], Insert(built, k, v), floats)
  }

  function ValueEntry(entry: (RespValue, RespValue), floats: FloatText): (bytes, JsonValue)
    decreases NodesEntry(entry), 1
  {
    (KeyText(Value(entry.0, floats)), Value(entry.1, floats))
  }

  /** Every byte the conversion charges for a convertible reply. */
  function Cost(v: RespValue, floats: FloatText): nat
    decreases Nodes(v), 0
  {
    match v
    case Simple(text) => |Quoted(text)|
    case Integer(n) => |PrintInt(n)|
    case Bulk(data) =>
      if ValidUtf8(data) then |Quoted(data)|
      else BINARY_PREFIX_LENGTH + |Base64.Encode(data)| + BINARY_SUFFIX_LENGTH
    case Array(values) => 2 + CostItems(values, 0, floats)
    case Set(values) => 2 + CostItems(values, 0, floats)
    case Push(values) => 2 + CostItems(values, 0, floats)
    case Boolean(b) => if b then 4 else 5
    case Double(text) => if floats(text).Some? then |text| else |Quoted(text)|
    case BigNumber(text) => |Quoted(text)|
    case Verbatim(blob) => |Quoted(VerbatimText(blob))|
    case Map(entries) => 2 + CostEntries(entries, 0, floats)
    case _ => 4
  }

  function CostItems(vs: seq<RespValue>, index: nat, floats: FloatText): nat
    decreases NodesAll(vs), 1
  {
    if vs == [] then 0
    else (if index > 0 then 1 else 0) + Cost(vs[0], floats) + CostItems(vs[1..], index + 1, floats)
  }

  function CostEntries(entries: seq<(RespValue, RespValue)>, index: nat, floats: FloatText): nat
    decreases NodesEntries(entries), 2
  {
    if entries == [] then 0
    else (if index > 0 then 1 else 0) + CostEntry(entries[0], floats) + CostEntries(entries[1..], index + 1, floats)
  }

  function CostEntry(entry: (RespValue, RespValue), floats: FloatText): nat
    decreases NodesEntry(entry), 1
  {
    Cost(entry.0, floats) + |Quoted(KeyText(Value(entry.0, floats)))| + 1 + Cost(entry.1, floats)
  }

  // --------------------------------------------------- success is exactly fitting the budget

  lemma BinaryCost(data: bytes)
    ensures Base64.EncodedLength(|data|).Some? ==> Base64.EncodedLength(|data|) == Some(|Base64.Encode(data)|)
  {
    Base64.DecodeEncode(data);
  }

  /** A conversion succeeds exactly when the reply is convertible and what it costs
      fits, and then it gives the reply's value and charges exactly that cost. */
  lemma {:induction false} ConvertSettles(v: RespValue, used: nat, limit: nat, floats: FloatText)
    requires used <= limit < USIZE_MAX
    ensures var r := Convert(v, used, limit, floats);
            if Convertible(v) && used + Cost(v, floats) <= limit
            then r == Charged(Ok(Value(v, floats)), used + Cost(v, floats))
            else r.result.Err?
    decreases Nodes(v), 0
  {
    hide Quoted, ConvertList, ConvertEntries, CostItems, CostEntries, ValueItems, ValueEntries, BulkToJson, ValidUtf8,
         Everywhere, EverywhereAll, BinaryObject, VerbatimText, Lossy, Convertible, PrintInt;
    ConvertibleUnfolds(v);
    match v
    case Bulk(data) =>
      BulkSettles(data, used, limit);
    case Array(values) =>
      ConvertListSettles(values, used, limit, floats);
    case Set(values) =>
      ConvertListSettles(values, used, limit, floats);
    case Push(values) =>
      ConvertListSettles(values, used, limit, floats);
    case Map(entries) =>
      if used + 2 <= limit { ConvertEntriesSettles(entries, [], 0, used + 2, limit, floats); }
    case _ =>
  }

  lemma BulkSettles(data: bytes, used: nat, limit: nat)
    requires used <= limit < USIZE_MAX
    ensures var r := BulkToJson(data, used, limit);
            var cost := if ValidUtf8(data) then |Quoted(data)|
                        else BINARY_PREFIX_LENGTH + |Base64.Encode(data)| + BINARY_SUFFIX_LENGTH;
            if (ValidUtf8(data) || Base64.EncodedLength(|data|).Some?) && used + cost <= limit
            then r == Charged(Ok(if ValidUtf8(data) then JString(data) else BinaryObject(data)), used + cost)
            else r.result.Err?
  {
    hide Quoted, Base64.Encode, ValidUtf8, BinaryObject;
    BinaryCost(data);
  }

  lemma {:induction false} ConvertListSettles(vs: seq<RespValue>, used: nat, limit: nat, floats: FloatText)
    requires used <= limit < USIZE_MAX
    ensures var r := ConvertList(vs, used, limit, floats);
            if EverywhereAll(vs, ConvertibleHere) && used + 2 + CostItems(vs, 0, floats) <= limit
            then r == Charged(Ok(JArray(ValueItems(vs, floats))), used + 2 + CostItems(vs, 0, floats))
            else r.result.Err?
    decreases NodesAll(vs), 2
  {
    hide ConvertItems, EverywhereAll, CostItems, ValueItems;
    if used + 2 <= limit { ConvertItemsSettles(vs, 0, used + 2, limit, floats); }
  }

  lemma ConvertibleUnfolds(v: RespValue)
    ensures Convertible(v) <==> ConvertibleHere(v) && EverywhereAll(Kids(v), ConvertibleHere)
    ensures Kids(v) == [] ==> EverywhereAll(Kids(v), ConvertibleHere)
  {
  }

  lemma {:induction false} ConvertItemsSettles(vs: seq<RespValue>, index: nat, used: nat, limit: nat, floats: FloatText)
    requires used <= limit < USIZE_MAX
    ensures var r := ConvertItems(vs, index, used, limit, floats);
            if EverywhereAll(vs, ConvertibleHere) && used + CostItems(vs, index, floats) <= limit
            then r == Charged(Ok(ValueItems(vs, floats)), used + CostItems(vs, index, floats))
            else r.result.Err?
    decreases NodesAll(vs), 1
  {
    hide Convert, Everywhere, Cost, Value;
    if vs != [] {
      var comma := if index > 0 then 1 else 0;
      if used + comma <= limit {
        ConvertSettles(vs[0], used + comma, limit, floats);
        if Convertible(vs[0]) && used + comma + Cost(vs[0], floats) <= limit {
          ConvertItemsSettles(vs[1..], index + 1, used + comma + Cost(vs[0], floats), limit, floats);
        }
      }
    }
  }

  lemma {:induction false} ConvertEntrySettles(entry: (RespValue, RespValue), comma: bool, used: nat,
                                               limit: nat, floats: FloatText)
    requires used <= limit < USIZE_MAX
    ensures var r := ConvertEntry(entry, comma, used, limit, floats);
            var cost := (if comma then 1 else 0) + CostEntry(entry, floats);
            if Convertible(entry.0) && Convertible(entry.1) && used + cost <= limit
            then r == Charged(Ok(ValueEntry(entry, floats)), used + cost)
            else r.result.Err?
    decreases NodesEntry(entry), 1
  {
    hide Convert, Everywhere, Cost, Value, Quoted, KeyText, Convertible;
    var u0 := used + if comma then 1 else 0;
    if u0 <= limit {
      ConvertSettles(entry.0, u0, limit, floats);
      var u1 := u0 + Cost(entry.0, floats);
      if Convertible(entry.0) && u1 <= limit {
        var u3 := u1 + |Quoted(KeyText(Value(entry.0, floats)))| + 1;
        if u3 <= limit {
          ConvertSettles(entry.1, u3, limit, floats);
        }
      }
    }
  }

  lemma {:induction false} ConvertEntriesSettles(entries: seq<(RespValue, RespValue)>,
                                                 built: seq<(bytes, JsonValue)>, index: nat,
                                used: nat, limit: nat, floats: FloatText)
    requires used <= limit < USIZE_MAX
    ensures var r := ConvertEntries(entries, built, index, used, limit, floats);
            if EverywhereAll(Flatten(entries), ConvertibleHere) && used + CostEntries(entries, index, floats) <= limit
            then r == Charged(Ok(JObject(ValueEntries(entries, built, floats))), used + CostEntries(entries, index, floats))
            else r.result.Err?
    decreases NodesEntries(entries), 2
  {
    hide ConvertEntry, Everywhere, EverywhereAll, CostEntry, ValueEntry, Insert, Flatten;
    if entries == [] {
      NoEntries();
    } else {
      EverywhereEntries(entries, ConvertibleHere);
      ConvertEntrySettles(entries[0], index > 0, used, limit, floats);
      var cost := (if index > 0 then 1 else 0) + CostEntry(entries[0], floats);
      if Convertible(entries[0].0) && Convertible(entries[0].1) && used + cost <= limit {
        var (k, v) := ValueEntry(entries[0], floats);
        ConvertEntriesSettles(entries[1..], Insert(built, k, v), index + 1, used + cost, limit, floats);
      }
    }
  }

  lemma NoEntries()
    ensures EverywhereAll(Flatten([]), ConvertibleHere)
  {
  }

  // ------------------------------------------------------- the cost against the JSON text

  /** Doubles are charged by their wire text, and this compares it with what is printed. */
  function Fitting(floats: FloatText): RespValue -> bool {
    (v: RespValue) => FloatFits(v, floats)
  }

  function Exact(floats: FloatText): RespValue -> bool {
    (v: RespValue) => !v.Map? && FloatExact(v, floats)
  }

  /** The lengths of an object's members, each with a comma. */
  function Weight(members: seq<(bytes, JsonValue)>): nat {
    if members == [] then 0 else |Member(members[0])| + 1 + Weight(members[1..])
  }

  lemma {:induction false} MembersLength(members: seq<(bytes, JsonValue)>)
    ensures |Members(members)| == if members == [] then 0 else Weight(members) - 1
  {
    hide Member;
    if |members| > 1 {
      MembersLength(members[1..]);
    }
  }

  /** Overwriting a key never makes the object longer than adding the member would. */
  lemma {:induction false} InsertWeight(members: seq<(bytes, JsonValue)>, k: bytes, v: JsonValue)
    ensures Weight(Insert(members, k, v)) <= Weight(members) + |Member((k, v))| + 1
  {
    hide Member;
    var r := Insert(members, k, v);
    if members == [] {
      assert r[1..] == [];
    } else if members[0].0 == k {
      assert r[1..] == members[1..];
    } else if Less(k, members[0].0) {
      assert r[1..] == members;
    } else {
      assert r[1..] == Insert(members[1..], k, v);
      InsertWeight(members[1..], k, v);
    }
  }

  /** Nothing in an unescaped string is two bytes long. */
  lemma {:induction false} PlainLength(s: bytes)
    requires forall b :: b in s ==> 0x20 <= b && b != QUOTE && b != BACKSLASH
    ensures |Quoted(s)| == |s| + 2
  {
    if s != [] {
      assert s[0] in s;
      assert forall b :: b in s[1..] ==> b in s;
      PlainLength(s[1..]);
    }
  }

  /** The prefix and suffix constants are the text around the base64 payload. */
  lemma BinaryObjectLength(data: bytes)
    ensures |Text(BinaryObject(data))| == BINARY_PREFIX_LENGTH + |Base64.Encode(data)| + BINARY_SUFFIX_LENGTH
  {
    hide Quoted;
    var d, e := Ascii("data"), Ascii("encoding");
    var b64, t := Ascii("base64"), Base64.Encode(data);
    Base64.TextIsLettersThenPadding(data);
    assert d == [100, 97, 116, 97] && e == [101, 110, 99, 111, 100, 105, 110, 103];
    assert b64 == [98, 97, 115, 101, 54, 52];
    PlainLength(d);
    PlainLength(e);
    PlainLength(b64);
    PlainLength(t);
    assert d[0] < e[0];
    var first, second := (d, JString(t)), (e, JString(b64));
    assert Insert([], e, JString(b64)) == [second];
    var members := Insert([second], d, JString(t));
    assert members == [first, second];
    MembersLength(members);
    var last := [second];
    assert members[1..] == last && last[1..] == [];
    assert Text(JString(t)) == Quoted(t) && Text(JString(b64)) == Quoted(b64);
    assert |Member(first)| == |Quoted(d)| + 1 + |Quoted(t)|;
    assert |Member(second)| == |Quoted(e)| + 1 + |Quoted(b64)|;
    assert Weight(last) == |Member(second)| + 1;
  }

  /** No text is longer than what was charged for it; without maps, and with doubles
      printed as long as they came, it is exactly as long. */
  lemma {:induction false} TextWithinCost(v: RespValue, floats: FloatText)
    requires Convertible(v) && Everywhere(v, Fitting(floats))
    ensures |Text(Value(v, floats))| <= Cost(v, floats)
    ensures Everywhere(v, Exact(floats)) ==> |Text(Value(v, floats))| == Cost(v, floats)
    decreases Nodes(v), 0
  {
    hide Quoted, ValidUtf8, BinaryObject, VerbatimText, Base64.Encode, Base64.EncodedLength, EverywhereAll,
         ValueItems, ValueEntries, CostItems, CostEntries, Items, Members;
    NodesOfKids(v);
    match v
    case Bulk(data) =>
      BinaryObjectLength(data);
    case Array(values) =>
      ItemsWithinCost(values, 0, floats);
    case Set(values) =>
      ItemsWithinCost(values, 0, floats);
    case Push(values) =>
      ItemsWithinCost(values, 0, floats);
    case Map(entries) =>
      EntriesWithinCost(entries, [], 0, floats);
      MembersLength(ValueEntries(entries, [], floats));
    case _ =>
  }

  lemma {:induction false} ItemsWithinCost(vs: seq<RespValue>, index: nat, floats: FloatText)
    requires EverywhereAll(vs, ConvertibleHere) && EverywhereAll(vs, Fitting(floats))
    ensures var text := |Items(ValueItems(vs, floats))| + if index > 0 && vs != [] then 1 else 0;
            && text <= CostItems(vs, index, floats)
            && (EverywhereAll(vs, Exact(floats)) ==> text == CostItems(vs, index, floats))
    decreases NodesAll(vs), 2
  {
    hide Text, Value, Cost, Everywhere;
    if vs != [] {
      TextWithinCost(vs[0], floats);
      ItemsWithinCost(vs[1..], index + 1, floats);
      var items := ValueItems(vs, floats);
      assert items[1..] == ValueItems(vs[1..], floats);
      assert |vs| == 1 ==> items[1..] == [];
    }
  }

  lemma {:induction false} EntriesWithinCost(entries: seq<(RespValue, RespValue)>, built: seq<(bytes, JsonValue)>,
                                            index: nat, floats: FloatText)
    requires EverywhereAll(Flatten(entries), ConvertibleHere) && EverywhereAll(Flatten(entries), Fitting(floats))
    ensures Weight(ValueEntries(entries, built, floats)) + (if index > 0 && entries != [] then 1 else 0)
            <= Weight(built) + CostEntries(entries, index, floats) + if entries == [] then 0 else 1
    decreases NodesEntries(entries), 2
  {
    hide Text, Value, Cost, Everywhere, EverywhereAll, Quoted, Flatten, KeyText, Weight, Insert;
    if entries != [] {
      EverywhereEntries(entries, ConvertibleHere);
      EverywhereEntries(entries, Fitting(floats));
      assert NodesEntries(entries) == Nodes(entries[0].0) + Nodes(entries[0].1) + NodesEntries(entries[1..]);
      TextWithinCost(entries[0].1, floats);
      var (k, v) := ValueEntry(entries[0], floats);
      InsertWeight(built, k, v);
      EntriesWithinCost(entries[1..], Insert(built, k, v), index + 1, floats);
    }
  }

  // ------------------------------------------------------------------ members of an object

  function Lookup(members: seq<(bytes, JsonValue)>, k: bytes): Option<JsonValue> {
    if members == [] then None else if members[0].0 == k then Some(members[0].1) else Lookup(members[1..], k)
  }

  /** The value of the last entry with this key. */
  function LastValue(entries: seq<(RespValue, RespValue)>, k: bytes, floats: FloatText): Option<JsonValue> {
    if entries == [] then None
    else
      var later := LastValue(entries[1..], k, floats);
      if later.Some? then later
      else if KeyText(Value(entries[0].0, floats)) == k then Some(Value(entries[0].1, floats))
      else None
  }

  predicate SortedByKey(members: seq<(bytes, JsonValue)>) {
    forall i, j :: 0 <= i < j < |members| ==> Less(members[i].0, members[j].0)
  }

  lemma {:induction false} InsertMember(members: seq<(bytes, JsonValue)>, k: bytes, v: JsonValue, q: bytes)
    ensures Lookup(Insert(members, k, v), q) == if q == k then Some(v) else Lookup(members, q)
  {
    var r := Insert(members, k, v);
    if members == [] {
      assert r[1..] == [];
    } else if members[0].0 == k {
      assert r[1..] == members[1..];
    } else if Less(k, members[0].0) {
      assert r[1..] == members;
    } else {
      assert r[1..] == Insert(members[1..], k, v);
      InsertMember(members[1..], k, v, q);
    }
  }

  lemma {:induction false} InsertSorted(members: seq<(bytes, JsonValue)>, k: bytes, v: JsonValue)
    requires SortedByKey(members)
    ensures SortedByKey(Insert(members, k, v))
    ensures forall m :: m in Insert(members, k, v) ==> m in members || m.0 == k
  {
    hide Less;
    var r := Insert(members, k, v);
    if members != [] && members[0].0 != k {
      LessIsTotal(k, members[0].0);
      if Less(k, members[0].0) {
        forall i | 0 <= i < |members|
          ensures Less(k, members[i].0)
        {
          if i > 0 { LessIsTransitive(k, members[0].0, members[i].0); }
        }
      } else {
        InsertSorted(members[1..], k, v);
        forall j | 1 <= j < |r|
          ensures Less(r[0].0, r[j].0)
        {
          assert r[j] in Insert(members[1..], k, v);
        }
      }
    }
  }

  /** An object's members are in key order, no key twice, and each key has the value of
      the last entry that named it. */
  lemma {:induction false} ObjectHoldsLastValues(entries: seq<(RespValue, RespValue)>, built: seq<(bytes, JsonValue)>,
                                                floats: FloatText, q: bytes)
    requires SortedByKey(built)
    ensures var members := ValueEntries(entries, built, floats);
            && SortedByKey(members)
            && var last := LastValue(entries, q, floats);
               Lookup(members, q) == if last.Some? then last else Lookup(built, q)
    decreases |entries|
  {
    hide Value, KeyText, Insert, Lookup, SortedByKey;
    if entries != [] {
      var (k, v) := ValueEntry(entries[0], floats);
      InsertSorted(built, k, v);
      InsertMember(built, k, v, q);
      ObjectHoldsLastValues(entries[1..], Insert(built, k, v), floats, q);
    }
  }

  // ---------------------------------------------------------------- strings read back

  /** A reader of RFC 8259 gets every string back and stops at its closing quote. */
  lemma {:induction false} QuotedReadsBack(s: bytes, rest: bytes)
    ensures ReadChars(EscapeAll(s) + [QUOTE] + rest) == Some((s, rest))
  {
    if s == [] {
      assert EscapeAll(s) + [QUOTE] + rest == [QUOTE] + rest;
    } else {
      QuotedReadsBack(s[1..], rest);
      var tail := EscapeAll(s[1..]) + [QUOTE] + rest;
      assert EscapeAll(s) + [QUOTE] + rest == Escape(s[0]) + tail;
      EscapeReadsBack(s[0], tail);
      assert [s[0]] + s[1..] == s;
    }
  }

  lemma EscapeReadsBack(b: byte, tail: bytes)
    ensures ReadChars(Escape(b) + tail) == Before(b, ReadChars(tail))
  {
    var e := Escape(b);
    var input := e + tail;
    assert input[|e|..] == tail;
    assert forall i :: 0 <= i < |e| ==> input[i] == e[i];
  }

  // ----------------------------------------------------------------------- main results

  /** No map anywhere, and every finite double printed as long as it came. */
  predicate Plain(v: RespValue, floats: FloatText) {
    Everywhere(v, Exact(floats))
  }

  /** Without maps the charge is exact: conversion succeeds exactly when the compact
      JSON text fits what is left of the limit. */
  lemma ChargeIsExact(v: RespValue, used: nat, limit: nat, floats: FloatText)
    requires used <= limit < USIZE_MAX
    requires Plain(v, floats)
    ensures Convert(v, used, limit, floats).result.Ok?
            <==> Convertible(v) && used + |Text(Value(v, floats))| <= limit
    ensures Convert(v, used, limit, floats).result.Ok?
            ==> Convert(v, used, limit, floats) == Charged(Ok(Value(v, floats)), used + |Text(Value(v, floats))|)
  {
    ExactFits(v, floats);
    ConvertSettles(v, used, limit, floats);
    if Convertible(v) {
      TextWithinCost(v, floats);
    }
  }

  /** With maps, keys are charged twice and overwritten members stay charged; the text
      of a converted value never exceeds the limit. */
  lemma TextFitsTheLimit(v: RespValue, limit: nat, floats: FloatText)
    requires limit < USIZE_MAX
    requires Everywhere(v, Fitting(floats))
    ensures ToJson(v, limit, floats).Ok?
            ==> |Text(ToJson(v, limit, floats).value)| <= Convert(v, 0, limit, floats).used <= limit
  {
    ConvertSettles(v, 0, limit, floats);
    if Convertible(v) {
      TextWithinCost(v, floats);
    }
  }

  lemma {:induction false} EverywhereImplies(v: RespValue, p: RespValue -> bool, q: RespValue -> bool)
    requires Everywhere(v, p) && forall w :: p(w) ==> q(w)
    ensures Everywhere(v, q)
    decreases Nodes(v), 0
  {
    NodesOfKids(v);
    EverywhereAllImplies(Kids(v), p, q);
  }

  lemma {:induction false} EverywhereAllImplies(vs: seq<RespValue>, p: RespValue -> bool, q: RespValue -> bool)
    requires EverywhereAll(vs, p) && forall w :: p(w) ==> q(w)
    ensures EverywhereAll(vs, q)
    decreases NodesAll(vs), 1
  {
    if vs != [] {
      EverywhereImplies(vs[0], p, q);
      EverywhereAllImplies(vs[1..], p, q);
    }
  }

  lemma ExactFits(v: RespValue, floats: FloatText)
    requires Everywhere(v, Exact(floats))
    ensures Everywhere(v, Fitting(floats))
  {
    EverywhereImplies(v, Exact(floats), Fitting(floats));
  }

  /** A reply without doubles needs nothing assumed of how doubles are printed. */
  lemma DoubleFree(v: RespValue, floats: FloatText)
    ensures Everywhere(v, NotDouble) ==> Everywhere(v, Fitting(floats))
    ensures Everywhere(v, (w: RespValue) => NotDouble(w) && NotMap(w)) ==> Plain(v, floats)
  {
    if Everywhere(v, NotDouble) {
      EverywhereImplies(v, NotDouble, Fitting(floats));
    }
    var p := (w: RespValue) => NotDouble(w) && NotMap(w);
    if Everywhere(v, p) {
      EverywhereImplies(v, p, Exact(floats));
    }
  }

  // ------------------------------------------------------------------- doubles, exactly

  /** By how much the finite doubles of a reply print longer, all together, than the wire
      text they are charged for. */
  function Surplus(v: RespValue, floats: FloatText): int
    decreases Nodes(v), 0
  {
    NodesOfKids(v);
    (if v.Double? && floats(v.text).Some? then |floats(v.text).value| - |v.text| else 0) + SurplusAll(Kids(v), floats)
  }

  function SurplusAll(vs: seq<RespValue>, floats: FloatText): int
    decreases NodesAll(vs), 1
  {
    if vs == [] then 0 else Surplus(vs[0], floats) + SurplusAll(vs[1..], floats)
  }

  /** Without maps the text is exactly as long as the charge and the surplus together. */
  lemma {:induction false} TextIsCostAndSurplus(v: RespValue, floats: FloatText)
    requires Convertible(v) && Everywhere(v, NotMap)
    ensures |Text(Value(v, floats))| == Cost(v, floats) + Surplus(v, floats)
    decreases Nodes(v), 0
  {
    hide Quoted, ValidUtf8, BinaryObject, VerbatimText, Base64.Encode, Base64.EncodedLength, EverywhereAll,
         ValueItems, CostItems, Items, SurplusAll;
    NodesOfKids(v);
    NoSurplus(floats);
    match v
    case Bulk(data) =>
      BinaryObjectLength(data);
    case Array(values) =>
      ItemsAreCostAndSurplus(values, 0, floats);
    case Set(values) =>
      ItemsAreCostAndSurplus(values, 0, floats);
    case Push(values) =>
      ItemsAreCostAndSurplus(values, 0, floats);
    case _ =>
  }

  lemma NoSurplus(floats: FloatText)
    ensures SurplusAll([], floats) == 0
  {
  }

  lemma {:induction false} ItemsAreCostAndSurplus(vs: seq<RespValue>, index: nat, floats: FloatText)
    requires EverywhereAll(vs, ConvertibleHere) && EverywhereAll(vs, NotMap)
    ensures |Items(ValueItems(vs, floats))| + (if index > 0 && vs != [] then 1 else 0)
            == CostItems(vs, index, floats) + SurplusAll(vs, floats)
    decreases NodesAll(vs), 2
  {
    hide Text, Value, Cost, Everywhere, Surplus;
    if vs != [] {
      TextIsCostAndSurplus(vs[0], floats);
      ItemsAreCostAndSurplus(vs[1..], index + 1, floats);
      var items := ValueItems(vs, floats);
      assert items[1..] == ValueItems(vs[1..], floats);
      assert |vs| == 1 ==> items[1..] == [];
    }
  }

  /** A converted reply without maps outgrows its limit exactly when its doubles print longer
      than what the charge left over. */
  lemma OutgrowsExactly(v: RespValue, limit: nat, floats: FloatText)
    requires limit < USIZE_MAX && Everywhere(v, NotMap)
    ensures ToJson(v, limit, floats).Ok? ==>
              && ToJson(v, limit, floats).value == Value(v, floats)
              && |Text(Value(v, floats))| == Convert(v, 0, limit, floats).used + Surplus(v, floats)
              && (|Text(Value(v, floats))| > limit <==> Surplus(v, floats) > limit - Convert(v, 0, limit, floats).used)
  {
    hide Convert, Cost, Value, Surplus, Everywhere, Text, Convertible;
    ConvertSettles(v, 0, limit, floats);
    if ToJson(v, limit, floats).Ok? {
      TextIsCostAndSurplus(v, floats);
    }
  }

  // ---------------------------------------------------------------------- maps, exactly

  /** What an object loses when this key is inserted: the member it replaces, if any. */
  function Dropped(built: seq<(bytes, JsonValue)>, k: bytes): nat {
    match Lookup(built, k)
    case None => 0
    case Some(v) => |Member((k, v))| + 1
  }

  /** How much more is charged for a reply than its text is long: every map key is charged
      twice, replaced members stay charged, and doubles are charged as they came. */
  function Excess(v: RespValue, floats: FloatText): int
    decreases Nodes(v), 0
  {
    match v
    case Double(text) => if floats(text).Some? then |text| - |floats(text).value| else 0
    case Array(values) => ExcessItems(values, floats)
    case Set(values) => ExcessItems(values, floats)
    case Push(values) => ExcessItems(values, floats)
    case Map(entries) => ExcessEntries(entries, [], floats)
    case _ => 0
  }

  function ExcessItems(vs: seq<RespValue>, floats: FloatText): int
    decreases NodesAll(vs), 1
  {
    if vs == [] then 0 else Excess(vs[0], floats) + ExcessItems(vs[1..], floats)
  }

  function ExcessEntry(entry: (RespValue, RespValue), floats: FloatText): int
    decreases NodesEntry(entry), 1
  {
    Cost(entry.0, floats) + Excess(entry.1, floats)
  }

  function ExcessEntries(entries: seq<(RespValue, RespValue)>, built: seq<(bytes, JsonValue)>, floats: FloatText): int
    decreases NodesEntries(entries), 2
  {
    if entries == [] then 0
    else
      var (k, v) := ValueEntry(entries[0], floats);
      ExcessEntry(entries[0], floats) + Dropped(built, k) + ExcessEntries(entries[1..], Insert(built, k, v), floats)
  }

  lemma {:induction false} AbsentAfter(members: seq<(bytes, JsonValue)>, k: bytes)
    requires SortedByKey(members) && members != [] && Less(k, members[0].0)
    ensures Lookup(members, k).None?
    decreases |members|
  {
    LessIsTotal(k, members[0].0);
    if |members| > 1 {
      LessIsTransitive(k, members[0].0, members[1].0);
      AbsentAfter(members[1..], k);
    }
  }

  /** Inserting adds the member and drops the one it replaces. */
  lemma {:induction false} InsertWeighsExactly(members: seq<(bytes, JsonValue)>, k: bytes, v: JsonValue)
    requires SortedByKey(members)
    ensures Weight(Insert(members, k, v)) + Dropped(members, k) == Weight(members) + |Member((k, v))| + 1
  {
    hide Member, Less;
    var r := Insert(members, k, v);
    if members == [] {
      assert r[1..] == [];
    } else if members[0].0 == k {
      assert r[1..] == members[1..];
      assert members[0] == (k, members[0].1);
    } else if Less(k, members[0].0) {
      AbsentAfter(members, k);
      assert r[1..] == members;
    } else {
      assert r[1..] == Insert(members[1..], k, v);
      InsertWeighsExactly(members[1..], k, v);
    }
  }

  /** For every convertible reply, text and excess together are exactly the charge. */
  lemma {:induction false} TextAndExcessAreCost(v: RespValue, floats: FloatText)
    requires Convertible(v)
    ensures |Text(Value(v, floats))| + Excess(v, floats) == Cost(v, floats)
    decreases Nodes(v), 0
  {
    hide Quoted, ValidUtf8, BinaryObject, VerbatimText, Base64.Encode, Base64.EncodedLength, EverywhereAll,
         ValueItems, ValueEntries, CostItems, CostEntries, Items, Members, ExcessItems, ExcessEntries;
    NodesOfKids(v);
    match v
    case Bulk(data) =>
      BinaryObjectLength(data);
    case Array(values) =>
      ItemsAndExcessAreCost(values, 0, floats);
    case Set(values) =>
      ItemsAndExcessAreCost(values, 0, floats);
    case Push(values) =>
      ItemsAndExcessAreCost(values, 0, floats);
    case Map(entries) =>
      EntriesAndExcessAreCost(entries, [], 0, floats);
      MembersLength(ValueEntries(entries, [], floats));
      EntriesMakeMembers(entries, floats);
    case _ =>
  }

  lemma {:induction false} EntriesKeepMembers(entries: seq<(RespValue, RespValue)>,
                                              built: seq<(bytes, JsonValue)>, floats: FloatText)
    ensures entries != [] || built != [] ==> ValueEntries(entries, built, floats) != []
    decreases |entries|
  {
    hide Insert;
    if entries != [] {
      var (k, v) := ValueEntry(entries[0], floats);
      EntriesKeepMembers(entries[1..], Insert(built, k, v), floats);
    }
  }

  lemma EntriesMakeMembers(entries: seq<(RespValue, RespValue)>, floats: FloatText)
    ensures ValueEntries(entries, [], floats) == [] <==> entries == []
    ensures Weight([]) == 0
  {
    EntriesKeepMembers(entries, [], floats);
  }

  lemma {:induction false} ItemsAndExcessAreCost(vs: seq<RespValue>, index: nat, floats: FloatText)
    requires EverywhereAll(vs, ConvertibleHere)
    ensures |Items(ValueItems(vs, floats))| + (if index > 0 && vs != [] then 1 else 0) + ExcessItems(vs, floats)
            == CostItems(vs, index, floats)
    decreases NodesAll(vs), 2
  {
    hide Text, Value, Cost, Everywhere, Excess;
    if vs != [] {
      TextAndExcessAreCost(vs[0], floats);
      ItemsAndExcessAreCost(vs[1..], index + 1, floats);
      var items := ValueItems(vs, floats);
      assert items[1..] == ValueItems(vs[1..], floats);
      assert |vs| == 1 ==> items[1..] == [];
    }
  }

  lemma {:induction false} EntriesAndExcessAreCost(entries: seq<(RespValue, RespValue)>, built: seq<(bytes, JsonValue)>,
                                                  index: nat, floats: FloatText)
    requires EverywhereAll(Flatten(entries), ConvertibleHere) && SortedByKey(built)
    ensures Weight(ValueEntries(entries, built, floats)) + (if index > 0 && entries != [] then 1 else 0)
            + ExcessEntries(entries, built, floats)
            == Weight(built) + CostEntries(entries, index, floats) + if entries == [] then 0 else 1
    decreases NodesEntries(entries), 2
  {
    hide Text, Value, Cost, Excess, Everywhere, EverywhereAll, Quoted, Flatten, KeyText, Weight, Insert, Dropped,
         SortedByKey;
    if entries != [] {
      EverywhereEntries(entries, ConvertibleHere);
      assert NodesEntries(entries) == Nodes(entries[0].0) + Nodes(entries[0].1) + NodesEntries(entries[1..]);
      TextAndExcessAreCost(entries[0].1, floats);
      var (k, v) := ValueEntry(entries[0], floats);
      InsertWeighsExactly(built, k, v);
      InsertSorted(built, k, v);
      EntriesAndExcessAreCost(entries[1..], Insert(built, k, v), index + 1, floats);
    }
  }

  /** Every charge is at least a byte. */
  lemma CostIsPositive(v: RespValue, floats: FloatText)
    ensures !v.Double? ==> Cost(v, floats) > 0
  {
    hide EscapeAll, CostItems, CostEntries, Base64.Encode;
  }

  predicate NoMembers(v: RespValue) {
    v.Map? ==> v.entries == []
  }

  /** Without doubles nothing is charged too little, and a reply is charged exactly its text
      exactly when every map in it is empty. */
  lemma {:induction false} ExcessExactly(v: RespValue, floats: FloatText)
    requires Everywhere(v, NotDouble)
    ensures Excess(v, floats) >= 0
    ensures Excess(v, floats) == 0 <==> Everywhere(v, NoMembers)
    decreases Nodes(v), 0
  {
    hide EverywhereAll, ExcessItems, ExcessEntries, Flatten;
    NodesOfKids(v);
    NothingEverywhere();
    match v
    case Array(values) => ExcessItemsExactly(values, floats);
    case Set(values) => ExcessItemsExactly(values, floats);
    case Push(values) => ExcessItemsExactly(values, floats);
    case Map(entries) => ExcessEntriesPositive(entries, [], floats);
    case _ =>
  }

  lemma NothingEverywhere()
    ensures EverywhereAll([], NoMembers) && EverywhereAll(Flatten([]), NoMembers)
  {
  }

  lemma {:induction false} ExcessItemsExactly(vs: seq<RespValue>, floats: FloatText)
    requires EverywhereAll(vs, NotDouble)
    ensures ExcessItems(vs, floats) >= 0
    ensures ExcessItems(vs, floats) == 0 <==> EverywhereAll(vs, NoMembers)
    decreases NodesAll(vs), 2
  {
    hide Excess, Everywhere;
    if vs != [] {
      ExcessExactly(vs[0], floats);
      ExcessItemsExactly(vs[1..], floats);
    }
  }

  lemma {:induction false} ExcessEntriesPositive(entries: seq<(RespValue, RespValue)>,
                                                 built: seq<(bytes, JsonValue)>, floats: FloatText)
    requires EverywhereAll(Flatten(entries), NotDouble)
    ensures ExcessEntries(entries, built, floats) >= 0
    ensures ExcessEntries(entries, built, floats) == 0 <==> entries == []
    decreases NodesEntries(entries), 2
  {
    hide Excess, Everywhere, EverywhereAll, Value, Cost, KeyText, Flatten, Insert, Dropped;
    if entries != [] {
      EverywhereEntries(entries, NotDouble);
      assert NodesEntries(entries) == Nodes(entries[0].0) + Nodes(entries[0].1) + NodesEntries(entries[1..]);
      NotDoubleItself(entries[0].0);
      CostIsPositive(entries[0].0, floats);
      ExcessExactly(entries[0].1, floats);
      var (k, v) := ValueEntry(entries[0], floats);
      ExcessEntriesPositive(entries[1..], Insert(built, k, v), floats);
    }
  }

  lemma NotDoubleItself(v: RespValue)
    requires Everywhere(v, NotDouble)
    ensures !v.Double?
  {
  }

  /** Which replies are charged exactly the length of their text. */
  lemma ChargedExactly(v: RespValue, floats: FloatText)
    requires Convertible(v) && Everywhere(v, NotDouble)
    ensures |Text(Value(v, floats))| <= Cost(v, floats)
    ensures |Text(Value(v, floats))| == Cost(v, floats) <==> Everywhere(v, NoMembers)
  {
    hide Everywhere, Cost, Value, Text, Excess;
    TextAndExcessAreCost(v, floats);
    ExcessExactly(v, floats);
  }

  /** A convertible reply is converted exactly when its text and its excess together fit; so
      it is refused though its text would fit exactly when only the excess does not. */
  lemma RefusedThoughItFitsExactly(v: RespValue, limit: nat, floats: FloatText)
    requires limit < USIZE_MAX && Convertible(v)
    ensures ToJson(v, limit, floats).Ok? <==> |Text(Value(v, floats))| + Excess(v, floats) <= limit
    ensures ToJson(v, limit, floats).Err? && |Text(Value(v, floats))| <= limit
            <==> |Text(Value(v, floats))| <= limit < |Text(Value(v, floats))| + Excess(v, floats)
  {
    hide Convert, Everywhere, Cost, Value, Text, Excess, Convertible;
    ConvertSettles(v, 0, limit, floats);
    TextAndExcessAreCost(v, floats);
  }
}
