/** The floating tags computed from verified exact releases: `latest`, one per major and
    one per major.minor series. */
module Plan {
  import opened Prelude
  import opened Decimal
  import opened SemVer
  import opened SemVerProofs

  // -------------------------------------------------------------------- ordered dictionaries

  function Get<K(==), V>(d: seq<(K, V)>, k: K): Option<V> {
    if d == [] then None else if d[0].0 == k then Some(d[0].1) else Get(d[1..], k)
  }

  /** A key already present keeps its place. */
  function Put<K(==), V>(d: seq<(K, V)>, k: K, v: V): seq<(K, V)> {
    if d == [] then [(k, v)]
    else if d[0].0 == k then [(k, v)] + d[1..]
    else [d[0]] + Put(d[1..], k, v)
  }

  // ------------------------------------------------------------------------------- records

  /** Three runs of digits between dots. */
  predicate ExactStable(s: bytes) {
    var parts := Split(s, DOT);
    |parts| == 3 && forall i :: 0 <= i < 3 ==> IsNumeric(parts[i])
  }

  /** What both the shape filter and the shared validator accept. */
  predicate IsVersion(s: bytes) {
    ExactStable(s) && Accepts(s)
  }

  /** An exact stable version is strict: it is one line, so validation is exact. */
  lemma VersionIsStrict(s: bytes)
    requires IsVersion(s)
    ensures StrictText(s)
  {
    hide Split, Accepts, Parts;
    StrictExactly(s);
    JoinSplit(s, DOT);
    BytesOfJoin(Split(s, DOT), DOT);
  }

  function FirstVersion(): (s: bytes)
    ensures IsVersion(s)
  {
    assert IsVersion(Ascii("0.0.0")) by { ZeroIsVersion(); }
    Ascii("0.0.0")
  }

  lemma ZeroIsVersion()
    ensures IsVersion(Ascii("0.0.0"))
  {
    hide Split, Accepts, Parts, Join;
    var zero, s := [ZERO], Ascii("0.0.0");
    var core := [zero, zero, zero];
    JoinZeros();
    assert s == Join(core, DOT);
    SplitJoin(core, DOT);
    var v := Version(core, []);
    assert v.Render() == s;
    PartsOfRender(v);
    StrictExactly(s);
  }

  lemma JoinZeros()
    ensures Join([[ZERO], [ZERO], [ZERO]], DOT) == Ascii("0.0.0")
  {
    var zero, s := [ZERO], Ascii("0.0.0");
    var core := [zero, zero, zero];
    assert core[1..] == [zero, zero] && core[1..][1..] == [zero];
    assert Join([zero], DOT) == zero;
    assert Join([zero, zero], DOT) == [48, 46, 48];
    assert s == [48, 46, 48, 46, 48];
  }

  type VersionText = s: bytes | IsVersion(s) witness FirstVersion()

  predicate IsHex(b: byte) {
    IsDigit(b) || 97 <= b <= 102
  }

  /** `sha256:` and 64 lower-case hexadecimal digits. */
  predicate IsDigest(s: bytes) {
    |s| == 71 && s[..7] == Ascii("sha256:") && forall i :: 7 <= i < 71 ==> IsHex(s[i])
  }

  /** One element of the input array; a missing or non-string field is None. */
  datatype RawRecord = NotAnObject | Object(version: Option<bytes>, digest: Option<bytes>)

  datatype PlanError = NotAList | BadRecord | BadVersion | BadDigest | Conflict

  datatype Input = Scalar | List(records: seq<RawRecord>)

  type Verified = seq<(VersionText, bytes)>

  function CheckRecord(record: RawRecord): Result<(VersionText, bytes), PlanError> {
    if record.NotAnObject? then Err(BadRecord)
    else if record.version.None? || !IsVersion(record.version.value) then Err(BadVersion)
    else if record.digest.None? || !IsDigest(record.digest.value) then Err(BadDigest)
    else Ok((record.version.value, record.digest.value))
  }

  /** The loop of `load_verified_records`. */
  function LoadFrom(records: seq<RawRecord>, verified: Verified): Result<Verified, PlanError> {
    if records == [] then Ok(verified)
    else
      match CheckRecord(records[0])
      case Err(e) => Err(e)
      case Ok((version, digest)) =>
        var previous := Get(verified, version);
        if previous.Some? && previous.value != digest then Err(Conflict)
        else LoadFrom(records[1..], Put(verified, version, digest))
  }

  function Load(input: Input): Result<Verified, PlanError> {
    match input
    case Scalar => Err(NotAList)
    case List(records) => LoadFrom(records, [])
  }

  method LoadVerifiedRecords(input: Input) returns (r: Result<Verified, PlanError>)
    ensures r == Load(input)
  {
    if input.Scalar? { return Err(NotAList); }
    var verified: Verified := [];
    var records := input.records;
    assert records[0..] == records;
    for i := 0 to |records|
      invariant LoadFrom(records[i..], verified) == LoadFrom(records, [])
    {
      assert records[i..][1..] == records[i + 1..];
      var checked := CheckRecord(records[i]);
      if checked.Err? { return Err(checked.error); }
      var (version, digest) := checked.value;
      var previous := Get(verified, version);
      if previous.Some? && previous.value != digest { return Err(Conflict); }
      verified := Put(verified, version, digest);
    }
    return Ok(verified);
  }

  // ------------------------------------------------------------------------------ the plan

  const LATEST: bytes := Ascii("latest")

  function Major(v: VersionText): bytes {
    Split(v, DOT)[0]
  }

  function MajorMinor(v: VersionText): bytes {
    Split(v, DOT)[0] + [DOT] + Split(v, DOT)[1]
  }

  function Tags(v: VersionText): seq<bytes> {
    [LATEST, Major(v), MajorMinor(v)]
  }

  function Compare(a: VersionText, b: VersionText): Sign {
    VersionIsStrict(a);
    VersionIsStrict(b);
    CoresAreComplete(a, b);
    SemverCmp(a, b)
  }

  type Desired = seq<(bytes, VersionText)>

  /** `newer_version` */
  predicate NewerVersion(candidate: VersionText, current: Option<VersionText>) {
    current.None? || Compare(candidate, current.value) > 0
  }

  function Offer(desired: Desired, tag: bytes, v: VersionText): Desired {
    if NewerVersion(v, Get(desired, tag)) then Put(desired, tag, v) else desired
  }

  /** One version offered to its three tags. */
  function Consider(desired: Desired, v: VersionText): Desired {
    Offer(Offer(Offer(desired, LATEST, v), Major(v), v), MajorMinor(v), v)
  }

  function ConsiderAll(desired: Desired, versions: seq<VersionText>): Desired
    decreases |versions|
  {
    hide IsVersion;
    if versions == [] then desired else ConsiderAll(Consider(desired, versions[0]), versions[1..])
  }

  /** `compare_entries` */
  function CompareEntries(left: (bytes, VersionText), right: (bytes, VersionText)): Sign {
    if left.0 == LATEST then if right.0 != LATEST then -1 else 0
    else if right.0 == LATEST then 1
    else
      var c := Compare(left.1, right.1);
      if c != 0 then c else if Less(right.0, left.0) then 1 else if Less(left.0, right.0) then -1 else 0
  }

  function InsertEntry(entry: (bytes, VersionText), sorted: Desired): (r: Desired)
    ensures multiset(r) == multiset(sorted) + multiset{entry}
  {
    if sorted == [] then [entry]
    else if CompareEntries(entry, sorted[0]) <= 0 then [entry] + sorted
    else
      assert sorted == [sorted[0]] + sorted[1..];
      [sorted[0]] + InsertEntry(entry, sorted[1..])
  }

  /** The entries in order. */
  function SortEntries(entries: Desired): (r: Desired)
    ensures multiset(r) == multiset(entries)
  {
    if entries == [] then []
    else
      assert entries == [entries[0]] + entries[1..];
      InsertEntry(entries[0], SortEntries(entries[1..]))
  }

  datatype PlanEntry = PlanEntry(tag: bytes, version: VersionText, digest: bytes)

  function Describe(entries: Desired, verified: Verified): seq<PlanEntry> {
    if entries == [] then []
    else
      var (tag, version) := entries[0];
      var digest := match Get(verified, version) case Some(d) => d case None => [];
      [PlanEntry(tag, version, digest)] + Describe(entries[1..], verified)
  }

  function Versions(verified: Verified): seq<VersionText> {
    if verified == [] then [] else [verified[0].0] + Versions(verified[1..])
  }

  /** `compute_plan` */
  function ComputePlan(input: Input): Result<seq<PlanEntry>, PlanError> {
    match Load(input)
    case Err(e) => Err(e)
    case Ok(verified) => Ok(Describe(SortEntries(ConsiderAll([], Versions(verified))), verified))
  }

  method ComputeDesired(verified: Verified) returns (desired: Desired)
    ensures desired == ConsiderAll([], Versions(verified))
  {
    desired := [];
    assert verified[0..] == verified;
    for i := 0 to |verified|
      invariant ConsiderAll(desired, Versions(verified[i..])) == ConsiderAll([], Versions(verified))
    {
      assert verified[i..][1..] == verified[i + 1..];
      var version := verified[i].0;
      assert Versions(verified[i..])[1..] == Versions(verified[i + 1..]);
      ghost var before := desired;
      var tags := Tags(version);
      for k := 0 to 3
        invariant desired == if k == 0 then before
                             else if k == 1 then Offer(before, LATEST, version)
                             else if k == 2 then Offer(Offer(before, LATEST, version), Major(version), version)
                             else Consider(before, version)
      {
        if NewerVersion(version, Get(desired, tags[k])) {
          desired := Put(desired, tags[k], version);
        }
      }
    }
  }

  method Reconcile(input: Input) returns (r: Result<seq<PlanEntry>, PlanError>)
    ensures r == ComputePlan(input)
  {
    var verified := LoadVerifiedRecords(input);
    if verified.Err? { return Err(verified.error); }
    var desired := ComputeDesired(verified.value);
    return Ok(Describe(SortEntries(desired), verified.value));
  }
}
