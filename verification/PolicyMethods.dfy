/** The validators that advance an index through their arguments, proved equal to the
    recognizers in `Grammar`. */
module PolicyMethods {
  import opened Prelude
  import opened Decimal
  import opened Grammar
  import opened Policy

  /** The `copy` validator. */
  method ValidateCopy(arguments: seq<bytes>) returns (refusal: Option<Reason>)
    ensures refusal == Judge(Copy, arguments)
  {
    if !(2 <= |arguments| <= 5) { return Reject("requires between 2 and 5 argument(s)"); }
    var index := 2;
    var sawDb, sawReplace := false, false;
    while index < |arguments|
      invariant 2 <= index <= |arguments|
      invariant ErrorOf(CopyOptions(arguments[index..], sawDb, sawReplace))
             == ErrorOf(CopyOptions(arguments[2..], false, false))
    {
      hide ParseU64;
      var option := arguments[index];
      assert arguments[index..][1..] == arguments[index + 1..];
      if option == KW_DB && !sawDb {
        if index + 1 >= |arguments| { return Reject("DB requires a destination database"); }
        assert arguments[index..][2..] == arguments[index + 2..];
        var database := CheckU64(arguments[index + 1], "destination database");
        if database.Err? { return Some(database.error); }
        if database.value > MAX_DATABASE { return Reject("destination database must be at most 15"); }
        sawDb := true;
        index := index + 2;
      } else if option == KW_REPLACE && !sawReplace {
        sawReplace := true;
        index := index + 1;
      } else if option == KW_DB || option == KW_REPLACE {
        return Some(option + Ascii(" may be specified only once"));
      } else {
        return Some(Ascii("unsupported COPY option ") + option);
      }
    }
    return None;
  }

  /** The `zadd` validator: an options loop, then one over every score. */
  method ValidateZadd(arguments: seq<bytes>) returns (refusal: Option<Reason>)
    ensures refusal == Judge(Zadd, arguments)
  {
    hide IsScore, IsNan, IsZaddOption, PairUp;
    if |arguments| < 3 { return ErrorOf<ZaddCommand>(Refuse("requires a key and at least one score/member pair")); }
    var index := 1;
    var options: seq<bytes> := [];
    while index < |arguments| && IsZaddOption(arguments[index])
      invariant 1 <= index <= |arguments|
      invariant ZaddOptions(arguments[index..], options) == ZaddOptions(arguments[1..], [])
    {
      assert arguments[index..][1..] == arguments[index + 1..];
      var option := arguments[index];
      if option in options { return Some(option + Ascii(" may be specified only once")); }
      options := options + [option];
      index := index + 1;
    }
    var pairs := arguments[index..];
    assert ZaddOptions(arguments[1..], []) == Ok((options, pairs));
    refusal := ValidatePairs(options, pairs);
  }

  method ValidatePairs(options: seq<bytes>, pairs: seq<bytes>) returns (refusal: Option<Reason>)
    ensures refusal
         == if pairs == [] || |pairs| % 2 != 0 then Reject("requires complete score/member pairs")
            else if |pairs| / 2 > MAX_MULTI_ITEMS then Reject("at most 32 members may be added")
            else if CheckScores(pairs).Some? then CheckScores(pairs)
            else if KW_INCR in options && |pairs| != 2 then Reject("INCR permits exactly one score/member pair")
            else None
  {
    hide IsScore, IsNan;
    if pairs == [] || |pairs| % 2 != 0 { return Reject("requires complete score/member pairs"); }
    if |pairs| / 2 > MAX_MULTI_ITEMS { return Reject("at most 32 members may be added"); }
    var i := 0;
    while i < |pairs|
      invariant 0 <= i <= |pairs| && i % 2 == 0
      invariant CheckScores(pairs[i..]) == CheckScores(pairs)
    {
      assert pairs[i..][2..] == pairs[i + 2..];
      if IsNan(pairs[i]) { return Some(Ascii("sorted-set score must not be NaN")); }
      if !IsScore(pairs[i]) { return Some(Ascii("sorted-set score must be a number")); }
      i := i + 2;
    }
    if KW_INCR in options && |pairs| != 2 { return Reject("INCR permits exactly one score/member pair"); }
    return None;
  }

  /** `validate_stream_trim_spec`: where the words after the specification begin. */
  method ValidateTrim(arguments: seq<bytes>, start: nat) returns (r: Result<nat, Reason>)
    requires start <= |arguments|
    ensures match ParseTrim(arguments[start..])
            case Err(e) => r == Err(e)
            case Ok((_, rest)) => r.Ok? && start < r.value <= |arguments| && rest == arguments[r.value..]
  {
    hide CheckThreshold, CheckCount, Ascii, Refuse;
    ghost var words := arguments[start..];
    if start >= |arguments| { return Refuse("trim strategy is required"); }
    var strategy := arguments[start];
    if strategy != KW_MAXLEN && strategy != KW_MINID { return Refuse("trim strategy must be MAXLEN or MINID"); }
    var index := start + 1;
    var approximate := index < |arguments| && arguments[index] == ABOUT;
    if index < |arguments| && (arguments[index] == EXACTLY || arguments[index] == ABOUT) {
      index := index + 1;
    }
    ghost var operator := if |words| > 1 && (words[1] == EXACTLY || words[1] == ABOUT) then [words[1]] else [];
    ghost var after := words[1 + |operator|..];
    assert index == start + 1 + |operator| && after == arguments[index..];
    assert approximate <==> operator == [ABOUT];
    if index >= |arguments| { return Refuse("trim strategy requires a threshold"); }
    var bad := CheckThreshold(strategy, arguments[index]);
    if bad.Some? { return Err(bad.value); }
    index := index + 1;
    assert after[1..] == arguments[index..];
    if index < |arguments| && arguments[index] == KW_LIMIT {
      if !approximate { return Refuse("LIMIT is permitted only with approximate (~) trimming"); }
      if index + 1 >= |arguments| { return Refuse("LIMIT requires a count"); }
      var limit := CheckCount(arguments[index + 1]);
      if limit.Err? { return Err(limit.error); }
      assert after[3..] == arguments[index + 2..];
      index := index + 2;
    }
    return Ok(index);
  }

  /** The `xtrim` validator. */
  method ValidateXtrim(arguments: seq<bytes>) returns (refusal: Option<Reason>)
    ensures refusal == Judge(Xtrim, arguments)
  {
    hide ParseTrim;
    if |arguments| < 3 { return ErrorOf<XtrimCommand>(Refuse("requires a key, trim strategy, and threshold")); }
    var end := ValidateTrim(arguments, 1);
    if end.Err? { return Some(end.error); }
    if end.value == |arguments| { return None; }
    return Some(Ascii("unsupported XTRIM option ") + arguments[end.value]);
  }

  /** The `xadd` validator. */
  method ValidateXadd(arguments: seq<bytes>) returns (refusal: Option<Reason>)
    ensures refusal == Judge(Xadd, arguments)
  {
    hide ParseTrim, ParseEntry, Ascii;
    if |arguments| < 4 { return ErrorOf<XaddCommand>(Refuse("requires a key, entry ID, and field/value pair")); }
    var index := 1;
    if arguments[index] == KW_NOMKSTREAM {
      index := index + 1;
    }
    ghost var words := arguments[index..];
    if arguments[index] == KW_MAXLEN || arguments[index] == KW_MINID {
      var end := ValidateTrim(arguments, index);
      if end.Err? { return Some(end.error); }
      index := end.value;
    }
    assert OptionalTrim(words).Ok? && OptionalTrim(words).value.1 == arguments[index..];
    refusal := ValidateEntry(arguments, index);
  }

  method ValidateEntry(arguments: seq<bytes>, index: nat) returns (refusal: Option<Reason>)
    requires index <= |arguments|
    ensures refusal == ErrorOf(ParseEntry(arguments[index..]))
  {
    hide PairUp;
    if index >= |arguments| { return Reject("requires an entry ID"); }
    if arguments[index] != NEW_ID {
      return Reject("XADD entry IDs must use '*' so Ferrite generates a monotonic ID");
    }
    var pairs := arguments[index + 1..];
    assert arguments[index..][1..] == pairs;
    if pairs == [] || |pairs| % 2 != 0 { return Reject("requires complete field/value pairs"); }
    if |pairs| / 2 > MAX_MULTI_ITEMS { return Reject("at most 32 field/value pairs may be added"); }
    return None;
  }
}
