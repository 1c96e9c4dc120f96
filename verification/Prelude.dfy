/** Shared vocabulary: bytes, machine words, and the usual result datatypes. */
module Prelude {

  type byte = b: int | 0 <= b < 256

  type bytes = seq<byte>

  const USIZE_MAX: nat := 0xFFFF_FFFF_FFFF_FFFF
  const I64_MAX: int := 0x7FFF_FFFF_FFFF_FFFF
  const I64_MIN: int := -0x8000_0000_0000_0000
  const U64_MAX: int := 0xFFFF_FFFF_FFFF_FFFF

  const LF: byte := 10
  const CR: byte := 13
  const CRLF: bytes := [13, 10]

  datatype Option<+T> = None | Some(value: T)

  datatype Result<+T, +E> = Ok(value: T) | Err(error: E)

  /** `usize::saturating_add` on a 64-bit target. */
  function SaturatingAdd(a: nat, b: nat): nat {
    if a + b > USIZE_MAX then USIZE_MAX else a + b
  }

  predicate EndsWithCrlf(s: bytes) {
    |s| >= 2 && s[|s| - 2..] == CRLF
  }

  predicate IsSuffix(rest: bytes, input: bytes) {
    |rest| <= |input| && rest == input[|input| - |rest|..]
  }

  /** The bytes a successful read took. */
  function Consumed(input: bytes, rest: bytes): bytes
    requires IsSuffix(rest, input)
    ensures Consumed(input, rest) + rest == input
  {
    input[..|input| - |rest|]
  }

  lemma SuffixTrans(a: bytes, b: bytes, c: bytes)
    requires IsSuffix(b, a) && IsSuffix(c, b)
    ensures IsSuffix(c, a)
    ensures Consumed(a, c) == Consumed(a, b) + Consumed(b, c)
  {
  }

  predicate IsPrintable(c: char) {
    ' ' <= c <= '~'
  }

  /** The bytes of a printable ASCII literal; any other character counts as `?`. */
  function Ascii(s: string): (r: bytes)
    ensures |r| == |s|
    ensures forall i :: 0 <= i < |s| ==> r[i] == if IsPrintable(s[i]) then s[i] as int else '?' as int
    ensures forall b :: b in r ==> 32 <= b <= 126
  {
    seq(|s|, i requires 0 <= i < |s| => if IsPrintable(s[i]) then s[i] as int else '?' as int)
  }

  lemma Assoc<T>(a: seq<T>, b: seq<T>, c: seq<T>)
    ensures (a + b) + c == a + (b + c)
  {
  }

  function Sum(s: seq<nat>): nat {
    if s == [] then 0 else s[0] + Sum(s[1..])
  }

  lemma {:induction false} SumAppend(s: seq<nat>, t: seq<nat>)
    ensures Sum(s + t) == Sum(s) + Sum(t)
  {
    if s == [] {
      assert s + t == t;
    } else {
      assert (s + t)[1..] == s[1..] + t;
      SumAppend(s[1..], t);
    }
  }

  /** The order of byte strings: byte by byte, a proper prefix first. */
  predicate Less(a: bytes, b: bytes) {
    if a == [] then b != []
    else if b == [] then false
    else if a[0] != b[0] then a[0] < b[0]
    else Less(a[1..], b[1..])
  }

  lemma {:induction false} LessIsTotal(a: bytes, b: bytes)
    ensures a == b || Less(a, b) || Less(b, a)
    ensures !(Less(a, b) && Less(b, a)) && !Less(a, a)
  {
    if a != [] && b != [] {
      LessIsTotal(a[1..], b[1..]);
      assert a == [a[0]] + a[1..] && b == [b[0]] + b[1..];
    }
    if a != [] {
      LessIsTotal(a[1..], a[1..]);
    }
  }

  lemma {:induction false} LessIsTransitive(a: bytes, b: bytes, c: bytes)
    requires Less(a, b) && Less(b, c)
    ensures Less(a, c)
  {
    if a != [] && a[0] == b[0] == c[0] {
      LessIsTransitive(a[1..], b[1..], c[1..]);
    }
  }
}
