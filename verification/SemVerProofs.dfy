/** What validation accepts, and the order against section 11 of SemVer 2.0.0. */
module SemVerProofs {
  import opened Prelude
  import opened Decimal
  import opened SemVer

  // ----------------------------------------------------------------- splitting and joining

  lemma {:induction false} FindInJoined(a: bytes, rest: bytes, b: byte)
    requires b !in a
    ensures Find(a + [b] + rest, b) == |a| && Find(a, b) == |a|
  {
    var s := a + [b] + rest;
    if a != [] {
      assert s[1..] == a[1..] + [b] + rest;
      FindInJoined(a[1..], rest, b);
    }
  }

  lemma {:induction false} FindsMember(s: bytes, b: byte)
    ensures Find(s, b) < |s| <==> b in s
  {
    if s != [] { FindsMember(s[1..], b); }
  }

  lemma {:induction false} JoinSplit(s: bytes, b: byte)
    ensures Join(Split(s, b), b) == s
    decreases |s|
  {
    var n := Find(s, b);
    if n < |s| {
      JoinSplit(s[n + 1..], b);
      var r := Split(s, b);
      assert r[1..] == Split(s[n + 1..], b);
      assert s == s[..n] + [b] + s[n + 1..];
    } else {
      assert s[..n] == s;
    }
  }

  lemma {:induction false} SplitJoin(parts: seq<bytes>, b: byte)
    requires parts != [] && forall i :: 0 <= i < |parts| ==> b !in parts[i]
    ensures Split(Join(parts, b), b) == parts
  {
    if |parts| == 1 {
      FindInJoined(parts[0], [], b);
      assert parts[0][..|parts[0]|] == parts[0];
      assert parts == [parts[0]];
    } else {
      var s, rest := Join(parts, b), Join(parts[1..], b);
      FindInJoined(parts[0], rest, b);
      SplitJoin(parts[1..], b);
      assert s[..|parts[0]|] == parts[0] && s[|parts[0]| + 1..] == rest;
      assert parts == [parts[0]] + parts[1..];
    }
  }

  lemma {:induction false} BytesOfJoin(parts: seq<bytes>, b: byte)
    ensures forall x :: x in Join(parts, b) ==> x == b || exists i :: 0 <= i < |parts| && x in parts[i]
  {
    if |parts| > 1 {
      BytesOfJoin(parts[1..], b);
      forall x | x in Join(parts, b)
        ensures x == b || exists i :: 0 <= i < |parts| && x in parts[i]
      {
        if x !in parts[0] && x != b {
          assert x in Join(parts[1..], b);
          var i :| 0 <= i < |parts[1..]| && x in parts[1..][i];
          assert x in parts[i + 1];
        }
      }
    }
  }

  // -------------------------------------------------------------------------- the shape

  lemma CoreHasNoDash(core: seq<bytes>)
    requires forall i :: 0 <= i < |core| ==> NumericField(core[i])
    ensures DASH !in Join(core, DOT) && LF !in Join(core, DOT)
    ensures forall i :: 0 <= i < |core| ==> DOT !in core[i]
  {
    BytesOfJoin(core, DOT);
  }

  lemma PreBytes(pre: seq<bytes>)
    requires forall i :: 0 <= i < |pre| ==> Identifier(pre[i])
    ensures LF !in Join(pre, DOT)
    ensures forall i :: 0 <= i < |pre| ==> DOT !in pre[i]
  {
    BytesOfJoin(pre, DOT);
  }

  lemma DashSplits(head: bytes, tail: bytes)
    requires DASH !in head
    ensures BeforeDash(head) == head && AfterDash(head) == []
    ensures BeforeDash(head + [DASH] + tail) == head && AfterDash(head + [DASH] + tail) == tail
  {
    FindInJoined(head, tail, DASH);
    var s := head + [DASH] + tail;
    assert s[|head|..] == [DASH] + tail;
  }

  /** Writing a shaped version and taking it apart gives it back. */
  lemma PartsOfRender(v: Version)
    requires v.Shaped()
    ensures Parts(v.Render()) == v
  {
    hide Split, Join, BeforeDash, AfterDash;
    var head := Join(v.core, DOT);
    CoreHasNoDash(v.core);
    PreBytes(v.pre);
    SplitJoin(v.core, DOT);
    assert head + [] == head;
    if v.pre == [] {
      DashSplits(head, []);
    } else {
      var tail := Join(v.pre, DOT);
      DashSplits(head, tail);
      SplitJoin(v.pre, DOT);
      Assoc(head, [DASH], tail);
    }
  }

  /** Taking any line apart loses nothing. */
  lemma RenderOfParts(line: bytes)
    ensures Parts(line).Render() == line
  {
    hide Split, Join;
    JoinSplit(BeforeDash(line), DOT);
    JoinSplit(AfterDash(line), DOT);
    var n := Find(line, DASH);
    FindsMember(line, DASH);
    if DASH in line {
      assert line == line[..n] + ([DASH] + line[n..][1..]);
    } else {
      assert n == |line| && line[..n] + [] == line;
    }
  }

  /** A line has the shape exactly when it can be written from three numeric fields and
      well-formed identifiers, and then from one choice of them only. */
  lemma ShapeIsUnique(line: bytes)
    ensures LineMatches(line) <==> exists v: Version :: v.Shaped() && v.Render() == line
    ensures forall v: Version :: v.Shaped() && v.Render() == line ==> v == Parts(line)
  {
    RenderOfParts(line);
    forall v: Version | v.Shaped() && v.Render() == line
      ensures v == Parts(line)
    {
      PartsOfRender(v);
    }
  }

  /** The text is a version of SemVer 2.0. */
  predicate StrictText(s: bytes) {
    Parts(s).Strict()
  }

  /** A line without an empty last piece is read whole. */
  lemma FieldsOfPieces(s: bytes)
    requires LF !in s
    requires var pieces := Split(s, DOT); pieces[|pieces| - 1] != []
    ensures Fields(FirstLine(s)) == Split(s, DOT)
  {
    hide Split, Find;
    FindsMember(s, LF);
    assert FirstLine(s) == s;
  }

  lemma StrictHasNoLineFeed(s: bytes)
    ensures Parts(s).Shaped() ==> LF !in s
  {
    hide Parts, Join;
    if Parts(s).Shaped() {
      RenderOfParts(s);
      CoreHasNoDash(Parts(s).core);
      PreBytes(Parts(s).pre);
    }
  }

  lemma DashMeansPre(s: bytes)
    ensures DASH in s <==> Parts(s).pre != []
    ensures DASH !in s ==> AfterDash(s) == []
    ensures LF !in s ==> LF !in BeforeDash(s) && LF !in AfterDash(s)
  {
    hide Split;
  }

  /** What the comparison reads from a strict text is what it denotes. */
  lemma FieldsOfStrict(s: bytes)
    requires Parts(s).Shaped()
    ensures LF !in s
    ensures CoreFields(BeforeDash(s)) == Parts(s).core
    ensures Parts(s).pre == [] <==> AfterDash(s) == []
    ensures Parts(s).pre != [] ==> Fields(FirstLine(AfterDash(s))) == Parts(s).pre
  {
    hide Split, AfterDash, BeforeDash, Find, Fields, FirstLine;
    var v := Parts(s);
    StrictHasNoLineFeed(s);
    DashMeansPre(s);
    assert v.core[2] != [];
    FieldsOfPieces(BeforeDash(s));
    if DASH in s {
      assert v.pre[|v.pre| - 1] != [];
      FieldsOfPieces(AfterDash(s));
      NothingHasNoIdentifier(v.pre, AfterDash(s));
    }
  }

  lemma NothingHasNoIdentifier(pre: seq<bytes>, s: bytes)
    requires pre == Split(s, DOT) && forall i :: 0 <= i < |pre| ==> Identifier(pre[i])
    ensures s != []
  {
    assert pre[0] != [];
  }

  /** Validation accepts the strict versions, and beyond them exactly some texts with line
      feeds: on one line it is strict. */
  lemma StrictExactly(s: bytes)
    ensures StrictText(s) <==> Accepts(s) && LF !in s
  {
    hide Fields, FirstLine, AfterDash, BeforeDash, LeadingZero;
    if LF !in s {
      OneLine(s);
      if LineMatches(s) {
        FieldsOfStrict(s);
        DashMeansPre(s);
      }
    } else if Parts(s).Shaped() {
      FieldsOfStrict(s);
      assert false;
    }
  }

  lemma OneLine(s: bytes)
    requires LF !in s
    ensures Split(s, LF) == [s]
    ensures SomeLineMatches(Split(s, LF)) <==> LineMatches(s)
  {
    hide LineMatches;
    FindsMember(s, LF);
    assert s[..|s|] == s;
    var lines := [s];
    assert lines[0] == s;
  }

  /** A second line is not looked at. */
  lemma SecondLineIsIgnored()
    ensures var s := Ascii("1.2.3") + [LF] + Ascii("x"); Accepts(s) && !StrictText(s)
  {
    hide LineMatches;
    var a, x := Ascii("1.2.3"), Ascii("x");
    var s := a + [LF] + x;
    OneTwoThree();
    StrictHasNoLineFeed(s);
    FindInJoined(a, x, LF);
    assert s[..5] == a;
    var lines := Split(s, LF);
    assert lines[0] == a;
    assert DASH !in s;
  }

  lemma OneTwoThree()
    ensures LineMatches(Ascii("1.2.3"))
  {
    var a := Ascii("1.2.3");
    var one, two, three := [49], [50], [51];
    var v := Version([one, two, three], []);
    assert v.core[1..] == [two, three] && v.core[1..][1..] == [three];
    assert Join([three], DOT) == three;
    assert Join([two, three], DOT) == [50, 46, 51];
    assert a == [49, 46, 50, 46, 51];
    assert v.Render() == a;
    PartsOfRender(v);
  }

  // --------------------------------------------------------------------- numbers, in bytes

  function Power(n: nat): nat {
    if n == 0 then 1 else 10 * Power(n - 1)
  }

  lemma {:induction false} ValueBounds(s: bytes)
    requires AllDigits(s)
    ensures Value(s) < Power(|s|)
    ensures s != [] && s[0] != ZERO ==> Power(|s| - 1) <= Value(s)
  {
    if s != [] {
      var t := s[..|s| - 1];
      ValueBounds(t);
      assert t != [] ==> t[0] == s[0];
    }
  }

  lemma {:induction false} PowerGrows(m: nat, n: nat)
    requires m <= n
    ensures Power(m) <= Power(n)
  {
    if m < n { PowerGrows(m, n - 1); }
  }

  lemma {:induction false} LessSnoc(a: bytes, x: byte, b: bytes, y: byte)
    requires |a| == |b|
    ensures Less(a + [x], b + [y]) <==> Less(a, b) || (a == b && x < y)
  {
    if a == [] {
      assert a + [x] == [x] && b + [y] == [y];
    } else {
      assert (a + [x])[1..] == a[1..] + [x] && (b + [y])[1..] == b[1..] + [y];
      LessSnoc(a[1..], x, b[1..], y);
      assert a == [a[0]] + a[1..] && b == [b[0]] + b[1..];
    }
  }

  /** Among digit strings of one length, byte order is the order of the numbers. */
  lemma {:induction false} LessByValue(a: bytes, b: bytes)
    requires |a| == |b| && AllDigits(a) && AllDigits(b)
    ensures Less(a, b) <==> Value(a) < Value(b)
    ensures a == b <==> Value(a) == Value(b)
    decreases |a|
  {
    if a != [] {
      var n := |a| - 1;
      LessByValue(a[..n], b[..n]);
      LessSnoc(a[..n], a[n], b[..n], b[n]);
      assert a == a[..n] + [a[n]] && b == b[..n] + [b[n]];
    }
  }

  /** Length first and then bytes is the order of the numbers denoted, of any size. */
  lemma NumericOrder(a: bytes, b: bytes)
    requires NumericField(a) && NumericField(b)
    ensures CmpNumericStr(a, b) < 0 <==> Value(a) < Value(b)
    ensures CmpNumericStr(a, b) > 0 <==> Value(a) > Value(b)
    ensures CmpNumericStr(a, b) == 0 <==> a == b
  {
    hide Value, Less;
    if |a| < |b| {
      ShorterIsSmaller(a, b);
    } else if |b| < |a| {
      ShorterIsSmaller(b, a);
    } else {
      LessByValue(a, b);
      LessByValue(b, a);
    }
  }

  lemma ShorterIsSmaller(a: bytes, b: bytes)
    requires NumericField(a) && NumericField(b) && |a| < |b|
    ensures Value(a) < Value(b)
  {
    ValueBounds(a);
    ValueBounds(b);
    PowerGrows(|a|, |b| - 1);
  }

  // -------------------------------------------------- section 11 of SemVer 2.0.0, as stated

  /** The first difference decides; a list that runs out first comes first. */
  ghost predicate Lexicographic(p: seq<bytes>, q: seq<bytes>, below: (bytes, bytes) -> bool) {
    exists k :: 0 <= k <= |p| && DecidedAt(p, q, below, k)
  }

  predicate DecidedAt(p: seq<bytes>, q: seq<bytes>, below: (bytes, bytes) -> bool, k: nat)
    requires k <= |p|
  {
    k < |q| && p[..k] == q[..k] && (k < |p| ==> below(p[k], q[k]))
  }

  predicate NumberBelow(x: bytes, y: bytes) {
    AllDigits(x) && AllDigits(y) && Value(x) < Value(y)
  }

  /** Numbers by value, numbers before words, words in ASCII order. */
  predicate IdentifierBelow(x: bytes, y: bytes) {
    if IsNumeric(x) && IsNumeric(y) then NumberBelow(x, y)
    else if IsNumeric(x) || IsNumeric(y) then IsNumeric(x)
    else Less(x, y)
  }

  /** A pre-release comes before its release. */
  ghost predicate Precedes(v: Version, w: Version) {
    || Lexicographic(v.core, w.core, NumberBelow)
    || (v.core == w.core && v.pre != [] && (w.pre == [] || Lexicographic(v.pre, w.pre, IdentifierBelow)))
  }

  lemma LexicographicStep(p: seq<bytes>, q: seq<bytes>, below: (bytes, bytes) -> bool)
    ensures Lexicographic(p, q, below)
            <==> q != [] && (p == [] || below(p[0], q[0]) || (p[0] == q[0] && Lexicographic(p[1..], q[1..], below)))
  {
    if Lexicographic(p, q, below) {
      var k :| 0 <= k <= |p| && DecidedAt(p, q, below, k);
      if k > 0 {
        assert p[0] == p[..k][0] == q[..k][0] == q[0];
        assert p[1..][..k - 1] == p[..k][1..] && q[1..][..k - 1] == q[..k][1..];
        assert DecidedAt(p[1..], q[1..], below, k - 1);
      }
    }
    if q != [] {
      if p == [] || below(p[0], q[0]) {
        assert DecidedAt(p, q, below, 0);
      } else if p[0] == q[0] && Lexicographic(p[1..], q[1..], below) {
        var k :| 0 <= k <= |p[1..]| && DecidedAt(p[1..], q[1..], below, k);
        assert p[..k + 1] == [p[0]] + p[1..][..k] && q[..k + 1] == [q[0]] + q[1..][..k];
        assert DecidedAt(p, q, below, k + 1);
      }
    }
  }

  predicate NumericFields(p: seq<bytes>) {
    forall i :: 0 <= i < |p| ==> NumericField(p[i])
  }

  predicate StrictIdentifiers(p: seq<bytes>) {
    forall i :: 0 <= i < |p| ==> Identifier(p[i]) && !LeadingZero(p[i])
  }

  /** `c` says how `p` and `q` stand to each other. */
  ghost predicate Reports(c: Sign, p: seq<bytes>, q: seq<bytes>, below: (bytes, bytes) -> bool) {
    && (c < 0 <==> Lexicographic(p, q, below))
    && (c > 0 <==> Lexicographic(q, p, below))
    && (c == 0 <==> p == q)
  }

  lemma {:induction false} FieldsOrder(p: seq<bytes>, q: seq<bytes>)
    requires |p| == |q| && NumericFields(p) && NumericFields(q)
    ensures Reports(CmpFields(p, q), p, q, NumberBelow)
  {
    hide Lexicographic, CmpNumericStr, Value, NumericField;
    LexicographicStep(p, q, NumberBelow);
    LexicographicStep(q, p, NumberBelow);
    if p != [] {
      NumericOrder(p[0], q[0]);
      NumericFieldsAreDigits(p[0], q[0]);
      FieldsOrder(p[1..], q[1..]);
      assert p == [p[0]] + p[1..] && q == [q[0]] + q[1..];
    }
  }

  lemma NumericFieldsAreDigits(x: bytes, y: bytes)
    requires NumericField(x) && NumericField(y)
    ensures AllDigits(x) && AllDigits(y)
  {
  }

  lemma IdentifierOrder(x: bytes, y: bytes)
    requires Identifier(x) && Identifier(y) && !LeadingZero(x) && !LeadingZero(y)
    ensures CmpIdentifier(x, y) < 0 <==> IdentifierBelow(x, y)
    ensures CmpIdentifier(x, y) > 0 <==> IdentifierBelow(y, x)
    ensures CmpIdentifier(x, y) == 0 <==> x == y
  {
    hide CmpNumericStr, Value, Less;
    LessIsTotal(x, y);
    if IsNumeric(x) && IsNumeric(y) {
      NumericOrder(x, y);
    }
  }

  lemma {:induction false} IdentifiersOrder(p: seq<bytes>, q: seq<bytes>)
    requires StrictIdentifiers(p) && StrictIdentifiers(q)
    ensures Reports(CmpIdentifiers(p, q), p, q, IdentifierBelow)
  {
    hide Lexicographic, CmpIdentifier, IdentifierBelow, Identifier, LeadingZero;
    LexicographicStep(p, q, IdentifierBelow);
    LexicographicStep(q, p, IdentifierBelow);
    if p != [] && q != [] {
      IdentifierOrder(p[0], q[0]);
      IdentifiersOrder(p[1..], q[1..]);
      assert p == [p[0]] + p[1..] && q == [q[0]] + q[1..];
    }
  }

  lemma CoresAreComplete(a: bytes, b: bytes)
    requires StrictText(a) && StrictText(b)
    ensures |CoreFields(BeforeDash(a))| == |CoreFields(BeforeDash(b))| == 3
  {
    FieldsOfStrict(a);
    FieldsOfStrict(b);
  }

  /** On strict versions the comparison is the precedence of section 11, and it finds two
      versions equal only when they are the same text. */
  lemma AgreesWithSection11(a: bytes, b: bytes)
    requires StrictText(a) && StrictText(b)
    ensures |CoreFields(BeforeDash(a))| == |CoreFields(BeforeDash(b))| == 3
    ensures SemverCmp(a, b) < 0 <==> Precedes(Parts(a), Parts(b))
    ensures SemverCmp(a, b) > 0 <==> Precedes(Parts(b), Parts(a))
    ensures SemverCmp(a, b) == 0 <==> a == b
  {
    hide Lexicographic, CmpFields, CmpIdentifiers, Parts, CoreFields, BeforeDash, AfterDash, Fields, FirstLine,
         NumericField, Identifier, LeadingZero;
    var v, w := Parts(a), Parts(b);
    FieldsOfStrict(a);
    FieldsOfStrict(b);
    FieldsOrder(v.core, w.core);
    IdentifiersOrder(v.pre, w.pre);
    RenderOfParts(a);
    RenderOfParts(b);
  }

  // --------------------------------------------------------------------------- total order

  lemma NumericTransitive(x: bytes, y: bytes, z: bytes)
    requires CmpNumericStr(x, y) < 0 && CmpNumericStr(y, z) < 0
    ensures CmpNumericStr(x, z) < 0
  {
    if |x| == |y| == |z| { LessIsTransitive(x, y, z); }
  }

  lemma IdentifierTransitive(x: bytes, y: bytes, z: bytes)
    requires CmpIdentifier(x, y) < 0 && CmpIdentifier(y, z) < 0
    ensures CmpIdentifier(x, z) < 0
  {
    hide CmpNumericStr, Less;
    if IsNumeric(x) && IsNumeric(y) && IsNumeric(z) {
      NumericTransitive(x, y, z);
    } else if !IsNumeric(x) && !IsNumeric(y) && !IsNumeric(z) {
      LessIsTransitive(x, y, z);
    }
  }

  lemma {:induction false} FieldsTransitive(p: seq<bytes>, q: seq<bytes>, r: seq<bytes>)
    requires |p| == |q| == |r| && NumericFields(p) && NumericFields(q) && NumericFields(r)
    requires CmpFields(p, q) < 0 && CmpFields(q, r) < 0
    ensures CmpFields(p, r) < 0
  {
    hide CmpNumericStr, NumericField, Value;
    NumericOrder(p[0], q[0]);
    NumericOrder(q[0], r[0]);
    NumericOrder(p[0], r[0]);
    if CmpNumericStr(p[0], q[0]) < 0 && CmpNumericStr(q[0], r[0]) < 0 {
      NumericTransitive(p[0], q[0], r[0]);
    } else if p[0] == q[0] == r[0] {
      FieldsTransitive(p[1..], q[1..], r[1..]);
    }
  }

  lemma {:induction false} IdentifiersTransitive(p: seq<bytes>, q: seq<bytes>, r: seq<bytes>)
    requires StrictIdentifiers(p) && StrictIdentifiers(q) && StrictIdentifiers(r)
    requires CmpIdentifiers(p, q) < 0 && CmpIdentifiers(q, r) < 0
    ensures CmpIdentifiers(p, r) < 0
  {
    hide CmpIdentifier, IdentifierBelow, Identifier, LeadingZero;
    if p != [] {
      IdentifierOrder(p[0], q[0]);
      IdentifierOrder(q[0], r[0]);
      IdentifierOrder(p[0], r[0]);
      if CmpIdentifier(p[0], q[0]) < 0 && CmpIdentifier(q[0], r[0]) < 0 {
        IdentifierTransitive(p[0], q[0], r[0]);
      } else if p[0] == q[0] == r[0] {
        IdentifiersTransitive(p[1..], q[1..], r[1..]);
      }
    }
  }

  /** `a` comes strictly before `b`. */
  predicate Before(a: bytes, b: bytes)
    requires StrictText(a) && StrictText(b)
  {
    CoresAreComplete(a, b);
    SemverCmp(a, b) < 0
  }

  lemma BeforeIsTotal(a: bytes, b: bytes)
    requires StrictText(a) && StrictText(b)
    ensures a == b || Before(a, b) || Before(b, a)
    ensures !(Before(a, b) && Before(b, a)) && !Before(a, a)
  {
    hide SemverCmp, StrictText, Precedes;
    CoresAreComplete(a, b);
    AgreesWithSection11(a, b);
    AgreesWithSection11(b, a);
    AgreesWithSection11(a, a);
  }

  lemma BeforeIsTransitive(a: bytes, b: bytes, c: bytes)
    requires StrictText(a) && StrictText(b) && StrictText(c)
    requires Before(a, b) && Before(b, c)
    ensures Before(a, c)
  {
    hide CmpFields, CmpIdentifiers, Parts, CoreFields, BeforeDash, AfterDash, Fields, FirstLine, NumericField,
         Identifier, LeadingZero, Lexicographic;
    var u, v, w := Parts(a), Parts(b), Parts(c);
    FieldsOfStrict(a);
    FieldsOfStrict(b);
    FieldsOfStrict(c);
    FieldsOrder(u.core, v.core);
    FieldsOrder(v.core, w.core);
    if CmpFields(u.core, v.core) < 0 && CmpFields(v.core, w.core) < 0 {
      FieldsTransitive(u.core, v.core, w.core);
    } else if u.core == v.core == w.core && u.pre != [] && v.pre != [] && w.pre != [] {
      IdentifiersTransitive(u.pre, v.pre, w.pre);
    }
  }

  /** A release is newer, older, the same, or the same version with other contents. */
  lemma ClassifyExactly(candidate: bytes, candidateSha: bytes, current: bytes, currentSha: bytes)
    requires StrictText(candidate) && StrictText(current)
    ensures |CoreFields(BeforeDash(candidate))| == |CoreFields(BeforeDash(current))| == 3
    ensures match Classify(candidate, candidateSha, current, currentSha)
            case Newer => Precedes(Parts(current), Parts(candidate))
            case Older => Precedes(Parts(candidate), Parts(current))
            case EqualSame => candidate == current && candidateSha == currentSha
            case EqualDifferent => candidate == current && candidateSha != currentSha
  {
    hide Precedes, SemverCmp, StrictText;
    AgreesWithSection11(candidate, current);
  }
}
