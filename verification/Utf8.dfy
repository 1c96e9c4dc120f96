/** UTF-8 as Rust's standard library checks and repairs it. Text is kept as its
    bytes: a Rust `String` is a byte sequence satisfying `ValidUtf8`. */
module Utf8 {
  import opened Prelude

  /** The replacement character U+FFFD. */
  const REPLACEMENT: bytes := [0xEF, 0xBF, 0xBD]

  predicate Continuation(b: byte) {
    0x80 <= b <= 0xBF
  }

  /** Which second bytes may follow a lead byte (no overlong forms, no
      surrogates, nothing above U+10FFFF). */
  predicate SecondByte(lead: byte, b: byte) {
    if lead == 0xE0 then 0xA0 <= b <= 0xBF
    else if lead == 0xED then 0x80 <= b <= 0x9F
    else if lead == 0xF0 then 0x90 <= b <= 0xBF
    else if lead == 0xF4 then 0x80 <= b <= 0x8F
    else Continuation(b)
  }

  function Width(lead: byte): nat {
    if lead < 0x80 then 1
    else if 0xC2 <= lead <= 0xDF then 2
    else if 0xE0 <= lead <= 0xEF then 3
    else if 0xF0 <= lead <= 0xF4 then 4
    else 0
  }

  /** How many bytes the decoder takes in one go, and whether they are one
      complete character; otherwise they are one maximal ill-formed part. */
  function Scan(s: bytes): (r: (nat, bool))
    requires s != []
    ensures 1 <= r.0 <= |s| && r.0 <= 4
    ensures r.1 <==> Width(s[0]) == r.0
                     && (r.0 > 1 ==> SecondByte(s[0], s[1]))
                     && (r.0 > 2 ==> Continuation(s[2]))
                     && (r.0 > 3 ==> Continuation(s[3]))
  {
    var w := Width(s[0]);
    if w <= 1 then (1, w == 1)
    else if |s| < 2 || !SecondByte(s[0], s[1]) then (1, false)
    else if w == 2 then (2, true)
    else if |s| < 3 || !Continuation(s[2]) then (2, false)
    else if w == 3 then (3, true)
    else if |s| < 4 || !Continuation(s[3]) then (3, false)
    else (4, true)
  }

  predicate ValidUtf8(s: bytes) {
    s == [] || (Scan(s).1 && ValidUtf8(s[Scan(s).0..]))
  }

  /** `String::from_utf8_lossy`. */
  function Lossy(s: bytes): bytes {
    if s == [] then []
    else
      var (n, ok) := Scan(s);
      (if ok then s[..n] else REPLACEMENT) + Lossy(s[n..])
  }

  lemma ScanPrefix(s: bytes, t: bytes)
    requires s != [] && Scan(s).1
    ensures Scan(s + t) == Scan(s)
  {
  }

  lemma {:induction false} ValidConcat(s: bytes, t: bytes)
    requires ValidUtf8(s) && ValidUtf8(t)
    ensures ValidUtf8(s + t)
  {
    if s == [] {
      assert s + t == t;
    } else {
      var n := Scan(s).0;
      ScanPrefix(s, t);
      ValidConcat(s[n..], t);
      assert (s + t)[n..] == s[n..] + t;
    }
  }

  lemma {:induction false} AsciiIsValid(s: bytes)
    requires forall b :: b in s ==> b < 0x80
    ensures ValidUtf8(s)
  {
    if s != [] {
      assert s[0] in s;
      assert Scan(s) == (1, true);
      assert forall b :: b in s[1..] ==> b in s;
      AsciiIsValid(s[1..]);
    }
  }

  /** The repaired text is valid, at most three times as long, unchanged when the
      input was valid and changed when it was not, and holds a line feed only
      where the input did. */
  lemma LossyRepairs(s: bytes)
    ensures ValidUtf8(Lossy(s))
    ensures |Lossy(s)| <= 3 * |s|
    ensures Lossy(s) == s <==> ValidUtf8(s)
    ensures LF in Lossy(s) <==> LF in s
  {
    hide Lossy, ValidUtf8;
    LossyIsValid(s);
    LossyAtMostTriples(s);
    LossyIdentity(s);
    LossyKeepsLineFeeds(s);
  }

  lemma {:induction false} LossyIsValid(s: bytes)
    ensures ValidUtf8(Lossy(s))
  {
    if s != [] {
      var (n, ok) := Scan(s);
      LossyIsValid(s[n..]);
      if ok {
        assert Scan(s[..n]) == (n, true) && s[..n][n..] == [];
        ValidConcat(s[..n], Lossy(s[n..]));
      } else {
        assert Scan(REPLACEMENT) == (3, true) && REPLACEMENT[3..] == [];
        ValidConcat(REPLACEMENT, Lossy(s[n..]));
      }
    }
  }

  lemma {:induction false} LossyAtMostTriples(s: bytes)
    ensures |Lossy(s)| <= 3 * |s|
  {
    if s != [] {
      LossyAtMostTriples(s[Scan(s).0..]);
    }
  }

  lemma {:induction false} LossyIdentity(s: bytes)
    ensures Lossy(s) == s <==> ValidUtf8(s)
  {
    if s != [] {
      var (n, ok) := Scan(s);
      LossyIdentity(s[n..]);
      if ok {
        assert s == s[..n] + s[n..];
        assert Lossy(s)[n..] == Lossy(s[n..]);
      } else {
        LossyNeverRestores(s);
      }
    }
  }

  lemma {:induction false} LossyKeepsLineFeeds(s: bytes)
    ensures LF in Lossy(s) <==> LF in s
  {
    if s != [] {
      var (n, ok) := Scan(s);
      LossyKeepsLineFeeds(s[n..]);
      assert s == s[..n] + s[n..];
      if !ok {
        BadPartHasNoLineFeed(s);
        assert LF !in REPLACEMENT;
      }
    }
  }

  lemma BadPartHasNoLineFeed(s: bytes)
    requires s != [] && !Scan(s).1
    ensures LF !in s[..Scan(s).0]
  {
    var n := Scan(s).0;
    assert forall i :: 0 <= i < n ==> s[i] >= 0x80;
  }

  lemma LossyNeverRestores(s: bytes)
    requires s != [] && !Scan(s).1
    ensures Lossy(s) != s
  {
    var n := Scan(s).0;
    assert Lossy(s) == REPLACEMENT + Lossy(s[n..]);
    assert Lossy(s)[0] == 0xEF && Lossy(s)[1] == 0xBF && Lossy(s)[2] == 0xBD;
  }
}
