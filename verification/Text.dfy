/** Trimming and upper-casing of text, as the policy normalizes its arguments. */
module Text {
  import opened Prelude

  /** The width of the White_Space character that opens a text; zero if there is none. */
  function WhiteHead(s: bytes): (n: nat)
    ensures n <= |s| && n <= 3
  {
    if |s| >= 1 && (9 <= s[0] <= 13 || s[0] == 32) then 1
    else if |s| >= 2 && s[0] == 0xC2 && (s[1] == 0x85 || s[1] == 0xA0) then 2
    else if |s| >= 3 && WideWhite(s[0], s[1], s[2]) then 3
    else 0
  }

  /** U+1680, U+2000 to U+200A, U+2028, U+2029, U+202F, U+205F and U+3000. */
  predicate WideWhite(a: byte, b: byte, c: byte) {
    || (a == 0xE1 && b == 0x9A && c == 0x80)
    || (a == 0xE2 && b == 0x80 && (0x80 <= c <= 0x8A || c == 0xA8 || c == 0xA9 || c == 0xAF))
    || (a == 0xE2 && b == 0x81 && c == 0x9F)
    || (a == 0xE3 && b == 0x80 && c == 0x80)
  }

  /** The width of the White_Space character that ends a text. */
  function WhiteTail(s: bytes): (n: nat)
    ensures n <= |s| && n <= 3
  {
    var n := |s|;
    if n >= 1 && (9 <= s[n - 1] <= 13 || s[n - 1] == 32) then 1
    else if n >= 2 && s[n - 2] == 0xC2 && (s[n - 1] == 0x85 || s[n - 1] == 0xA0) then 2
    else if n >= 3 && WideWhite(s[n - 3], s[n - 2], s[n - 1]) then 3
    else 0
  }

  function TrimStart(s: bytes): bytes {
    var n := WhiteHead(s);
    if n == 0 then s else TrimStart(s[n..])
  }

  function TrimEnd(s: bytes): bytes {
    var n := WhiteTail(s);
    if n == 0 then s else TrimEnd(s[..|s| - n])
  }

  /** `str::trim` */
  function Trim(s: bytes): bytes {
    TrimEnd(TrimStart(s))
  }

  function UpperByte(b: byte): byte {
    if 97 <= b <= 122 then b - 32 else b
  }

  /** `to_ascii_uppercase` */
  function Upper(s: bytes): (r: bytes)
    ensures |r| == |s| && forall i :: 0 <= i < |s| ==> r[i] == UpperByte(s[i])
  {
    seq(|s|, i requires 0 <= i < |s| => UpperByte(s[i]))
  }

  function Normalize(s: bytes): bytes {
    Upper(Trim(s))
  }

  lemma {:induction false} StartIsTrimmed(s: bytes)
    ensures var r := TrimStart(s); |r| <= |s| && r == s[|s| - |r|..] && WhiteHead(r) == 0
  {
    if WhiteHead(s) > 0 { StartIsTrimmed(s[WhiteHead(s)..]); }
  }

  lemma {:induction false} EndIsTrimmed(s: bytes)
    ensures var r := TrimEnd(s); |r| <= |s| && r == s[..|r|] && WhiteTail(r) == 0
  {
    if WhiteTail(s) > 0 { EndIsTrimmed(s[..|s| - WhiteTail(s)]); }
  }

  /** What is left of a trimmed text has no white space at either end, and is the whole
      text when there was none to begin with. */
  lemma TrimIsExact(s: bytes)
    ensures WhiteHead(Trim(s)) == 0 && WhiteTail(Trim(s)) == 0 && |Trim(s)| <= |s|
    ensures WhiteHead(s) == 0 && WhiteTail(s) == 0 ==> Trim(s) == s
  {
    var a := TrimStart(s);
    var b := TrimEnd(a);
    StartIsTrimmed(s);
    EndIsTrimmed(a);
    assert forall i :: 0 <= i < |b| ==> b[i] == a[i];
  }

  /** Normalizing twice is normalizing once. */
  lemma NormalizeIsIdempotent(s: bytes)
    ensures Normalize(Normalize(s)) == Normalize(s)
    ensures |Normalize(s)| <= |s|
  {
    hide Trim, WhiteHead, WhiteTail, Upper;
    var t := Trim(s);
    TrimIsExact(s);
    UpperKeepsWhite(t);
    TrimIsExact(Upper(t));
    UpperTwice(t);
  }

  lemma UpperTwice(t: bytes)
    ensures Upper(Upper(t)) == Upper(t)
  {
  }

  lemma UpperKeepsWhite(t: bytes)
    ensures WhiteHead(Upper(t)) == WhiteHead(t) && WhiteTail(Upper(t)) == WhiteTail(t)
  {
  }
}
