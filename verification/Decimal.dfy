/** Decimal numbers as the launcher prints them (`{}` formatting) and parses
    them (`str::parse::<i64>` and `str::parse::<u64>`). */
module Decimal {
  import opened Prelude

  const MINUS: byte := 45
  const PLUS: byte := 43
  const ZERO: byte := 48

  predicate IsDigit(b: byte) {
    48 <= b <= 57
  }

  predicate AllDigits(s: bytes) {
    forall i :: 0 <= i < |s| ==> IsDigit(s[i])
  }

  /** The shortest decimal text of a number. */
  function Print(n: nat): (s: bytes)
    ensures |s| > 0 && AllDigits(s)
  {
    if n < 10 then [48 + n] else Print(n / 10) + [48 + n % 10]
  }

  /** The number denoted by a run of digits, leading zeros included. */
  function Value(s: bytes): nat
    requires AllDigits(s)
  {
    if s == [] then 0 else Value(s[..|s| - 1]) * 10 + (s[|s| - 1] - 48)
  }

  function PrintInt(i: int): (s: bytes)
    ensures |s| > 0
  {
    if i < 0 then [MINUS] + Print(-i) else Print(i)
  }

  /** Rust's integer grammar: one optional sign, then at least one digit. */
  function ParseSigned(s: bytes): (r: Option<int>) {
    if s == [] then None
    else
      var digits := if s[0] == MINUS || s[0] == PLUS then s[1..] else s;
      if digits == [] || !AllDigits(digits) then None
      else if s[0] == MINUS then Some(0 - Value(digits) as int)
      else Some(Value(digits) as int)
  }

  /** `parse::<i64>`: out-of-range numbers are errors, never wrapped. */
  function ParseI64(s: bytes): Option<int> {
    match ParseSigned(s)
    case None => None
    case Some(n) => if I64_MIN <= n <= I64_MAX then Some(n) else None
  }

  /** `parse::<u64>`: a leading `+` is accepted, a `-` never is. */
  function ParseU64(s: bytes): Option<int> {
    if s != [] && s[0] == MINUS then None
    else
      match ParseSigned(s)
      case None => None
      case Some(n) => if n <= U64_MAX then Some(n) else None
  }

  /** A number text nothing can be removed from: no `+`, no leading zero, no `-0`. */
  predicate CanonicalNumber(s: bytes) {
    && s != []
    && s[0] != PLUS
    && (s[0] == ZERO ==> |s| == 1)
    && (s[0] == MINUS ==> |s| > 1 && s[1] != ZERO)
  }

  lemma {:induction false} ValueOfPrint(n: nat)
    ensures Value(Print(n)) == n
  {
    if n >= 10 {
      ValueOfPrint(n / 10);
      assert Print(n)[..|Print(n)| - 1] == Print(n / 10);
    }
  }

  lemma {:induction false} PrintHead(n: nat)
    ensures n > 0 ==> Print(n)[0] != ZERO
    ensures n == 0 ==> Print(n) == [ZERO]
  {
    if n >= 10 {
      PrintHead(n / 10);
    }
  }

  /** Printing what a digit string denotes never makes it longer, and gives the
      string back exactly when it had no superfluous leading zero. */
  lemma {:induction false} PrintShortest(s: bytes)
    requires s != [] && AllDigits(s)
    ensures |Print(Value(s))| <= |s|
    ensures (s[0] != ZERO || |s| == 1) ==> Print(Value(s)) == s
    ensures s[0] == ZERO && |s| > 1 ==> Print(Value(s)) != s
  {
    var t, d := s[..|s| - 1], s[|s| - 1] - 48;
    PrintHead(Value(s));
    if |s| == 1 {
      assert t == [];
    } else {
      PrintShortest(t);
      ValueHead(t);
      if Value(t) == 0 {
        assert Value(s) == d;
      } else {
        assert Value(s) / 10 == Value(t) && Value(s) % 10 == d;
        assert t + [s[|s| - 1]] == s;
      }
    }
  }

  lemma {:induction false} ValueHead(s: bytes)
    requires s != [] && AllDigits(s)
    ensures s[0] != ZERO ==> Value(s) > 0
  {
    if |s| > 1 {
      ValueHead(s[..|s| - 1]);
    } else {
      assert s[..0] == [];
    }
  }

  /** Parsing undoes printing for every i64. */
  lemma ParsePrint(n: int)
    requires I64_MIN <= n <= I64_MAX
    ensures ParseI64(PrintInt(n)) == Some(n)
  {
    ValueOfPrint(if n < 0 then -n else n);
    if n < 0 {
      assert PrintInt(n)[1..] == Print(-n);
    } else {
      assert IsDigit(PrintInt(n)[0]);
    }
  }

  /** Printing a parsed number never grows, and is the identity exactly on
      canonical texts. */
  lemma PrintParse(s: bytes)
    requires ParseSigned(s).Some?
    ensures |PrintInt(ParseSigned(s).value)| <= |s|
    ensures PrintInt(ParseSigned(s).value) == s <==> CanonicalNumber(s)
  {
    var n := ParseSigned(s).value;
    if s[0] == MINUS {
      PrintShortest(s[1..]);
      ValueHead(s[1..]);
      PrintHead(-n);
      assert s == [MINUS] + s[1..];
      if n < 0 {
        assert PrintInt(n)[1..] == Print(-n);
        if s[1] == ZERO && PrintInt(n) == s { assert false; }
      } else {
        assert PrintInt(n)[0] == ZERO;
      }
    } else if s[0] == PLUS {
      PrintShortest(s[1..]);
      assert IsDigit(PrintInt(n)[0]);
    } else {
      PrintShortest(s);
    }
  }

  /** A printed number holds neither CR nor LF, and neither does any accepted one. */
  lemma NumberHasNoLineFeed(s: bytes)
    requires ParseSigned(s).Some?
    ensures LF !in s && CR !in s
  {
    var digits := if s[0] == MINUS || s[0] == PLUS then s[1..] else s;
    assert digits != s ==> s == [s[0]] + digits;
    assert forall b :: b in digits ==> IsDigit(b);
  }

  lemma PrintIntParses(n: int)
    ensures ParseSigned(PrintInt(n)) == Some(n)
  {
    ValueOfPrint(if n < 0 then -n else n);
    if n < 0 {
      assert PrintInt(n)[1..] == Print(-n);
    } else {
      assert IsDigit(PrintInt(n)[0]);
    }
  }
}
