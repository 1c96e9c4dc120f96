/** Strict SemVer strings of unbounded digits, and their order, as the release-ordering
    script validates and compares them. */
module SemVer {
  import opened Prelude
  import opened Decimal

  const DOT: byte := '.' as int
  const DASH: byte := '-' as int

  // ------------------------------------------------------------------- splitting strings

  /** The position of the first `b`, or the length. */
  function Find(s: bytes, b: byte): (n: nat)
    ensures n <= |s| && b !in s[..n] && (n < |s| ==> s[n] == b)
  {
    if s == [] || s[0] == b then 0
    else
      assert s[..1 + Find(s[1..], b)] == [s[0]] + s[1..][..Find(s[1..], b)];
      1 + Find(s[1..], b)
  }

  /** The pieces between separators; always at least one. */
  function Split(s: bytes, b: byte): (r: seq<bytes>)
    ensures r != [] && forall i :: 0 <= i < |r| ==> b !in r[i]
    decreases |s|
  {
    var n := Find(s, b);
    if n == |s| then [s[..n]] else [s[..n]] + Split(s[n + 1..], b)
  }

  function Join(parts: seq<bytes>, b: byte): bytes {
    if parts == [] then []
    else if |parts| == 1 then parts[0]
    else parts[0] + [b] + Join(parts[1..], b)
  }

  /** How `read -a` splits a line: an empty last piece is no field. */
  function Fields(s: bytes): (r: seq<bytes>) {
    var pieces := Split(s, DOT);
    if pieces[|pieces| - 1] == [] then pieces[..|pieces| - 1] else pieces
  }

  /** What a here-string gives to one `read`. */
  function FirstLine(s: bytes): bytes {
    s[..Find(s, LF)]
  }

  /** `${s%%-*}` */
  function BeforeDash(s: bytes): bytes {
    s[..Find(s, DASH)]
  }

  /** `${s#*-}`, or nothing when there is no dash. */
  function AfterDash(s: bytes): bytes {
    if DASH in s then s[Find(s, DASH)..][1..] else []
  }

  // ------------------------------------------------------------------------- validation

  /** A single zero, or digits that do not begin with one. */
  predicate NumericField(s: bytes) {
    s != [] && AllDigits(s) && (s == [ZERO] || s[0] != ZERO)
  }

  predicate IsNumeric(id: bytes) {
    id != [] && AllDigits(id)
  }

  predicate IdentifierByte(b: byte) {
    IsDigit(b) || 65 <= b <= 90 || 97 <= b <= 122 || b == DASH
  }

  predicate Identifier(id: bytes) {
    id != [] && forall b :: b in id ==> IdentifierByte(b)
  }

  predicate LeadingZero(id: bytes) {
    IsNumeric(id) && id != [ZERO] && id[0] == ZERO
  }

  datatype Version = Version(core: seq<bytes>, pre: seq<bytes>) {
    /** What the shape expression asks for. */
    predicate Shaped() {
      && |core| == 3 && (forall i :: 0 <= i < 3 ==> NumericField(core[i]))
      && (forall i :: 0 <= i < |pre| ==> Identifier(pre[i]))
    }

    /** A version of SemVer 2.0. */
    predicate Strict() {
      Shaped() && forall i :: 0 <= i < |pre| ==> !LeadingZero(pre[i])
    }

    function Render(): bytes {
      Join(core, DOT) + if pre == [] then [] else [DASH] + Join(pre, DOT)
    }
  }

  /** A line taken apart at its first dash and its dots. */
  function Parts(line: bytes): Version {
    Version(Split(BeforeDash(line), DOT), if DASH in line then Split(AfterDash(line), DOT) else [])
  }

  predicate LineMatches(line: bytes) {
    Parts(line).Shaped()
  }

  predicate SomeLineMatches(lines: seq<bytes>) {
    exists i :: 0 <= i < |lines| && LineMatches(lines[i])
  }

  predicate NoLeadingZero(ids: seq<bytes>) {
    forall i :: 0 <= i < |ids| ==> !LeadingZero(ids[i])
  }

  /** `validate_semver`: a grep over the lines, then the identifiers of what follows the
      first dash, up to the end of its line. */
  predicate Accepts(v: bytes) {
    SomeLineMatches(Split(v, LF)) && (DASH in v ==> NoLeadingZero(Fields(FirstLine(AfterDash(v)))))
  }

  method ValidateSemver(v: bytes) returns (ok: bool)
    ensures ok == Accepts(v)
  {
    if !SomeLineMatches(Split(v, LF)) { return false; }
    if DASH in v {
      var ids := Fields(FirstLine(AfterDash(v)));
      for i := 0 to |ids|
        invariant forall k :: 0 <= k < i ==> !LeadingZero(ids[k])
      {
        if IsNumeric(ids[i]) && ids[i] != [ZERO] && ids[i][0] == ZERO { return false; }
      }
    }
    return true;
  }

  // -------------------------------------------------------------------------- comparison

  type Sign = n: int | -1 <= n <= 1

  /** `_cmp_numeric_str`: length first, then byte order. */
  function CmpNumericStr(a: bytes, b: bytes): Sign {
    if |a| < |b| then -1
    else if |a| > |b| then 1
    else if Less(a, b) then -1
    else if Less(b, a) then 1
    else 0
  }

  /** The first field that differs decides. */
  function CmpFields(a: seq<bytes>, b: seq<bytes>): Sign
    requires |a| == |b|
  {
    if a == [] then 0
    else if CmpNumericStr(a[0], b[0]) != 0 then CmpNumericStr(a[0], b[0])
    else CmpFields(a[1..], b[1..])
  }

  function CmpIdentifier(a: bytes, b: bytes): Sign {
    if IsNumeric(a) && IsNumeric(b) then CmpNumericStr(a, b)
    else if IsNumeric(a) then -1
    else if IsNumeric(b) then 1
    else if Less(a, b) then -1
    else if Less(b, a) then 1
    else 0
  }

  function CmpIdentifiers(a: seq<bytes>, b: seq<bytes>): Sign {
    if a == [] && b == [] then 0
    else if a == [] then -1
    else if b == [] then 1
    else if CmpIdentifier(a[0], b[0]) != 0 then CmpIdentifier(a[0], b[0])
    else CmpIdentifiers(a[1..], b[1..])
  }

  /** `_cmp_prerelease` */
  function CmpPrerelease(a: bytes, b: bytes): Sign {
    if a == [] && b == [] then 0
    else if a == [] then 1
    else if b == [] then -1
    else CmpIdentifiers(Fields(FirstLine(a)), Fields(FirstLine(b)))
  }

  /** The three fields `_cmp_core` reads. */
  function CoreFields(core: bytes): seq<bytes> {
    Fields(FirstLine(core))
  }

  /** `semver_cmp`, for strings whose cores have their three fields. */
  function SemverCmp(a: bytes, b: bytes): Sign
    requires |CoreFields(BeforeDash(a))| == |CoreFields(BeforeDash(b))| == 3
  {
    var c := CmpFields(CoreFields(BeforeDash(a)), CoreFields(BeforeDash(b)));
    if c != 0 then c else CmpPrerelease(AfterDash(a), AfterDash(b))
  }

  /** The loop of `_cmp_core`. */
  method CompareCore(a: bytes, b: bytes) returns (c: Sign)
    requires |CoreFields(a)| == |CoreFields(b)| == 3
    ensures c == CmpFields(CoreFields(a), CoreFields(b))
  {
    var p, q := CoreFields(a), CoreFields(b);
    assert p[0..] == p && q[0..] == q;
    for i := 0 to 3
      invariant CmpFields(p[i..], q[i..]) == CmpFields(p, q)
    {
      assert p[i..][1..] == p[i + 1..] && q[i..][1..] == q[i + 1..];
      c := CmpNumericStr(p[i], q[i]);
      if c != 0 { return c; }
    }
    return 0;
  }

  /** The loop of `_cmp_prerelease`. */
  method ComparePrerelease(a: bytes, b: bytes) returns (c: Sign)
    ensures c == CmpPrerelease(a, b)
  {
    if a == [] && b == [] { return 0; }
    if a == [] { return 1; }
    if b == [] { return -1; }
    var p, q := Fields(FirstLine(a)), Fields(FirstLine(b));
    var n, m := |p|, |q|;
    var max := if n > m then n else m;
    var i := 0;
    assert p[0..] == p && q[0..] == q;
    while i < max
      invariant 0 <= i <= n && i <= m && i <= max
      invariant CmpIdentifiers(p[i..], q[i..]) == CmpIdentifiers(p, q)
    {
      if i >= n { return -1; }
      if i >= m { return 1; }
      assert p[i..][1..] == p[i + 1..] && q[i..][1..] == q[i + 1..];
      var x, y := p[i], q[i];
      if IsNumeric(x) && IsNumeric(y) {
        c := CmpNumericStr(x, y);
        if c != 0 { return c; }
      } else if IsNumeric(x) {
        return -1;
      } else if IsNumeric(y) {
        return 1;
      } else {
        if Less(x, y) { return -1; }
        if Less(y, x) { return 1; }
      }
      i := i + 1;
    }
    return 0;
  }

  datatype Standing = Newer | EqualSame | EqualDifferent | Older

  /** `classify`, once its arguments are validated. */
  function Classify(candidate: bytes, candidateSha: bytes, current: bytes, currentSha: bytes): Standing
    requires |CoreFields(BeforeDash(candidate))| == |CoreFields(BeforeDash(current))| == 3
  {
    var c := SemverCmp(candidate, current);
    if c > 0 then Newer
    else if c < 0 then Older
    else if candidateSha == currentSha then EqualSame
    else EqualDifferent
  }
}
