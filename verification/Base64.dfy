/** The launcher's own base64 encoder, against section 4 of RFC 4648. */
module Base64 {
  import opened Prelude

  const PAD: byte := '=' as int

  /** The base64 alphabet. */
  function Letter(i: int): (b: byte)
    requires 0 <= i < 64
    ensures b != PAD && 43 <= b <= 122
  {
    if i < 26 then 65 + i
    else if i < 52 then 71 + i
    else if i < 62 then i - 4
    else if i == 62 then '+' as int
    else '/' as int
  }

  /** The value of a letter; None for anything else, padding included. */
  function Sextet(b: byte): (r: Option<int>)
    ensures r.Some? ==> 0 <= r.value < 64 && Letter(r.value) == b
  {
    if 65 <= b <= 90 then Some(b - 65)
    else if 97 <= b <= 122 then Some(b - 71)
    else if 48 <= b <= 57 then Some(b + 4)
    else if b == '+' as int then Some(62)
    else if b == '/' as int then Some(63)
    else None
  }

  /** Four characters for up to three bytes. */
  function EncodeChunk(chunk: bytes): (r: bytes)
    requires 1 <= |chunk| <= 3
    ensures |r| == 4
  {
    var first := chunk[0];
    var second := if |chunk| > 1 then chunk[1] else 0;
    var third := if |chunk| > 2 then chunk[2] else 0;
    [Letter(first / 4),
     Letter((first % 4) * 16 + second / 16),
     if |chunk| > 1 then Letter((second % 16) * 4 + third / 64) else PAD,
     if |chunk| > 2 then Letter(third % 64) else PAD]
  }

  function Encode(data: bytes): bytes {
    if data == [] then []
    else if |data| <= 3 then EncodeChunk(data)
    else EncodeChunk(data[..3]) + Encode(data[3..])
  }

  /** `base64_encoded_length`, with its checked arithmetic. */
  function EncodedLength(n: nat): Option<nat> {
    if n + 2 > USIZE_MAX then None
    else if (n + 2) / 3 * 4 > USIZE_MAX then None
    else Some((n + 2) / 3 * 4)
  }

  /** The arithmetic succeeds for every slice length and, beyond that, exactly up to
      the largest length whose encoding a machine word can count. */
  lemma EncodedLengthDefined(n: nat)
    ensures EncodedLength(n).Some? <==> n <= 13835058055282163709
    ensures n <= I64_MAX ==> EncodedLength(n).Some?
  {
  }

  // -------------------------------------------------------------- the inverse of RFC 4648

  /** Decodes one group of four characters, padded or not; stray bits are refused. */
  function DecodeGroup(g: bytes): Option<bytes>
    requires |g| == 4
  {
    var a, b := Sextet(g[0]), Sextet(g[1]);
    if a.None? || b.None? then None
    else
      var first := a.value * 4 + b.value / 16;
      if g[2] == PAD then
        if g[3] == PAD && b.value % 16 == 0 then Some([first]) else None
      else
        var c := Sextet(g[2]);
        if c.None? then None
        else
          var second := (b.value % 16) * 16 + c.value / 4;
          if g[3] == PAD then
            if c.value % 4 == 0 then Some([first, second]) else None
          else
            var d := Sextet(g[3]);
            if d.None? then None else Some([first, second, (c.value % 4) * 64 + d.value])
  }

  /** Groups of four; only the last may be padded. */
  function Decode(text: bytes): Option<bytes> {
    if text == [] then Some([])
    else if |text| < 4 then None
    else
      match DecodeGroup(text[..4])
      case None => None
      case Some(chunk) =>
        if |text| == 4 then Some(chunk)
        else if |chunk| < 3 then None
        else
          match Decode(text[4..])
          case None => None
          case Some(others) => Some(chunk + others)
  }

  lemma SextetOfLetter(i: int)
    requires 0 <= i < 64
    ensures Sextet(Letter(i)) == Some(i)
  {
  }

  /** Splitting three bytes into sextets and putting them together again. */
  lemma Bits(first: byte, second: byte, third: byte)
    ensures var b, c := (first % 4) * 16 + second / 16, (second % 16) * 4 + third / 64;
            && 0 <= first / 4 < 64 && 0 <= b < 64 && 0 <= c < 64 && 0 <= third % 64 < 64
            && first / 4 * 4 + b / 16 == first
            && (b % 16) * 16 + c / 4 == second
            && (c % 4) * 64 + third % 64 == third
            && (second == 0 ==> b % 16 == 0) && (third == 0 ==> c % 4 == 0)
  {
    Regroup(first % 4, second / 16, 16);
    Regroup(second % 16, third / 64, 4);
  }

  lemma DecodeGroupOfChunk(chunk: bytes)
    requires 1 <= |chunk| <= 3
    ensures DecodeGroup(EncodeChunk(chunk)) == Some(chunk)
  {
    hide Letter, Sextet;
    var first := chunk[0];
    var second := if |chunk| > 1 then chunk[1] else 0;
    var third := if |chunk| > 2 then chunk[2] else 0;
    var b, c := (first % 4) * 16 + second / 16, (second % 16) * 4 + third / 64;
    Bits(first, second, third);
    SextetOfLetter(first / 4);
    SextetOfLetter(b);
    SextetOfLetter(c);
    SextetOfLetter(third % 64);
    assert chunk == if |chunk| == 1 then [first] else if |chunk| == 2 then [first, second] else [first, second, third];
  }

  lemma Regroup(high: nat, low: nat, k: nat)
    requires low < k && (k == 16 || k == 4)
    ensures (high * k + low) / k == high && (high * k + low) % k == low
  {
  }

  /** Decoding gives the input back; the text is as long as `EncodedLength` says. */
  lemma {:induction false} DecodeEncode(data: bytes)
    ensures Decode(Encode(data)) == Some(data)
    ensures |Encode(data)| == (|data| + 2) / 3 * 4
  {
    hide DecodeGroup, EncodeChunk;
    if data == [] {
    } else if |data| <= 3 {
      DecodeGroupOfChunk(data);
      assert EncodeChunk(data)[..4] == EncodeChunk(data);
    } else {
      var head, others := data[..3], data[3..];
      DecodeGroupOfChunk(head);
      DecodeEncode(others);
      assert Encode(data)[..4] == EncodeChunk(head);
      assert Encode(data)[4..] == Encode(others);
      assert |Encode(others)| > 0;
      assert head + others == data;
    }
  }

  function PadCount(text: bytes): nat {
    if text == [] then 0 else (if text[0] == PAD then 1 else 0) + PadCount(text[1..])
  }

  /** How many padding characters a length calls for. */
  function PaddingFor(n: nat): nat {
    (3 - n % 3) % 3
  }

  lemma {:induction false} PadCountConcat(s: bytes, t: bytes)
    ensures PadCount(s + t) == PadCount(s) + PadCount(t)
  {
    if s == [] {
      assert s + t == t;
    } else {
      assert (s + t)[1..] == s[1..] + t;
      PadCountConcat(s[1..], t);
    }
  }

  lemma PadCountOfFour(g: bytes)
    requires |g| == 4
    ensures PadCount(g) == (if g[0] == PAD then 1 else 0) + (if g[1] == PAD then 1 else 0)
                           + (if g[2] == PAD then 1 else 0) + (if g[3] == PAD then 1 else 0)
  {
    assert g[1..][1..] == g[2..] && g[2..][1..] == g[3..] && g[3..][1..] == [];
    assert PadCount(g[3..]) == if g[3] == PAD then 1 else 0;
    assert PadCount(g[2..]) == (if g[2] == PAD then 1 else 0) + PadCount(g[3..]);
    assert PadCount(g[1..]) == (if g[1] == PAD then 1 else 0) + PadCount(g[2..]);
  }

  /** Padding depends only on the length modulo three. */
  lemma {:induction false} PaddingIsExact(data: bytes)
    ensures PadCount(Encode(data)) == PaddingFor(|data|)
  {
    hide EncodeChunk;
    if data == [] {
    } else if |data| <= 3 {
      PadCountOfFour(EncodeChunk(data));
      LettersOfChunk(data);
    } else {
      PaddingIsExact(data[3..]);
      PadCountOfFour(EncodeChunk(data[..3]));
      PadCountConcat(EncodeChunk(data[..3]), Encode(data[3..]));
      LettersOfChunk(data[..3]);
    }
  }

  /** The padding stands at the end, and nothing in the text needs escaping in JSON. */
  lemma {:induction false} TextIsLettersThenPadding(data: bytes)
    ensures var text := Encode(data);
            forall i :: 0 <= i < |text| ==> (text[i] == PAD <==> i >= |text| - PaddingFor(|data|))
    ensures forall b :: b in Encode(data) ==> 43 <= b <= 122 && b != '\\' as int
  {
    hide EncodeChunk;
    if data == [] {
    } else if |data| <= 3 {
      LettersOfChunk(data);
    } else {
      var head, others := EncodeChunk(data[..3]), Encode(data[3..]);
      LettersOfChunk(data[..3]);
      TextIsLettersThenPadding(data[3..]);
      DecodeEncode(data[3..]);
      assert |others| >= 4 && PaddingFor(|data|) == PaddingFor(|data| - 3);
      AfterHead(head, others, PaddingFor(|data|));
    }
  }

  lemma AfterHead(head: bytes, others: bytes, k: nat)
    requires |head| == 4 <= |others| && k < 3 && forall b :: b in head ==> b != PAD
    requires forall i :: 0 <= i < |others| ==> (others[i] == PAD <==> i >= |others| - k)
    ensures var text := head + others;
            forall i :: 0 <= i < |text| ==> (text[i] == PAD <==> i >= |text| - k)
  {
    var text := head + others;
    forall i | 0 <= i < |text|
      ensures text[i] == PAD <==> i >= |text| - k
    {
      if i < 4 {
        assert head[i] in head;
      } else {
        assert text[i] == others[i - 4];
      }
    }
  }

  lemma LettersOfChunk(chunk: bytes)
    requires 1 <= |chunk| <= 3
    ensures var r := EncodeChunk(chunk);
            && r[0] != PAD && r[1] != PAD && (r[2] == PAD <==> |chunk| < 2) && (r[3] == PAD <==> |chunk| < 3)
            && (|chunk| == 3 ==> PAD !in r)
            && forall b :: b in r ==> 43 <= b <= 122 && b != '\\' as int
  {
  }

  lemma EncodeStep(data: bytes)
    requires data != []
    ensures var n := if |data| > 3 then 3 else |data|;
            Encode(data) == EncodeChunk(data[..n]) + Encode(data[n..])
  {
    hide EncodeChunk;
    if |data| <= 3 {
      assert data[..|data|] == data && data[|data|..] == [];
      assert EncodeChunk(data) + [] == EncodeChunk(data);
    }
  }

  /** `base64_encode`: the loop over chunks of three bytes. */
  method Base64Encode(data: bytes) returns (output: bytes)
    ensures output == Encode(data)
    ensures |data| <= I64_MAX ==> EncodedLength(|data|) == Some(|output|)
  {
    hide Encode, EncodeChunk;
    output := [];
    var i := 0;
    EncodeNothing();
    assert data[0..] == data;
    while i < |data|
      invariant 0 <= i <= |data|
      invariant output + Encode(data[i..]) == Encode(data)
    {
      var end := if i + 3 <= |data| then i + 3 else |data|;
      var chunk := data[i..end];
      EncodeStep(data[i..]);
      assert data[i..][end - i..] == data[end..] && data[i..][..end - i] == chunk;
      Assoc(output, EncodeChunk(chunk), Encode(data[end..]));
      output := output + EncodeChunk(chunk);
      i := end;
    }
    assert data[i..] == [] && output + [] == output;
    DecodeEncode(data);
    EncodedLengthDefined(|data|);
  }

  lemma EncodeNothing()
    ensures Encode([]) == []
  {
  }
}
