/** The plan holds the maximum of every series, however the records are ordered. */
module PlanProofs {
  import opened Prelude
  import opened SemVer
  import opened SemVerProofs
  import opened Plan

  // -------------------------------------------------------------------- ordered dictionaries

  predicate DistinctKeys<K(==), V>(d: seq<(K, V)>) {
    forall i, j :: 0 <= i < j < |d| ==> d[i].0 != d[j].0
  }

  lemma {:induction false} GetPut<K, V>(d: seq<(K, V)>, k: K, v: V, q: K)
    ensures Get(Put(d, k, v), q) == if q == k then Some(v) else Get(d, q)
  {
    if d != [] && d[0].0 != k {
      GetPut(d[1..], k, v, q);
    } else {
      assert Put(d, k, v)[1..] == if d == [] then [] else d[1..];
    }
  }

  /** Keys keep their places; a new key comes last. */
  lemma {:induction false} KeysOfPut<K, V>(d: seq<(K, V)>, k: K, v: V)
    ensures var r := Put(d, k, v);
            && |d| <= |r| <= |d| + 1
            && (forall i :: 0 <= i < |d| ==> r[i].0 == d[i].0)
            && (|r| > |d| ==> r[|d|].0 == k && forall i :: 0 <= i < |d| ==> d[i].0 != k)
    ensures DistinctKeys(d) ==> DistinctKeys(Put(d, k, v))
  {
    if d != [] && d[0].0 != k {
      KeysOfPut(d[1..], k, v);
    }
  }

  /** Under distinct keys, looking up is membership. */
  lemma {:induction false} GetIsMember<K, V>(d: seq<(K, V)>, k: K, v: V)
    requires DistinctKeys(d)
    ensures Get(d, k) == Some(v) <==> (k, v) in d
  {
    if d != [] {
      GetIsMember(d[1..], k, v);
      assert d == [d[0]] + d[1..];
      assert forall i :: 0 <= i < |d[1..]| ==> d[1..][i].0 != d[0].0;
    }
  }

  // ------------------------------------------------------------------------------- loading

  predicate Good(r: RawRecord) {
    CheckRecord(r).Ok?
  }

  predicate AllGood(records: seq<RawRecord>) {
    forall r :: r in records ==> Good(r)
  }

  predicate Agree(a: RawRecord, b: RawRecord) {
    Good(a) && Good(b) && a.version == b.version ==> a.digest == b.digest
  }

  predicate NoConflict(records: seq<RawRecord>) {
    forall a, b :: a in records && b in records ==> Agree(a, b)
  }

  /** The record does not contradict what is already loaded. */
  predicate Joins(r: RawRecord, verified: Verified) {
    Good(r) ==> var (v, d) := CheckRecord(r).value; Get(verified, v).Some? ==> Get(verified, v).value == d
  }

  predicate Holds(records: seq<RawRecord>, v: VersionText, d: bytes) {
    exists r :: r in records && CheckRecord(r) == Ok((v, d))
  }

  /** Once `first` is loaded, another record joins exactly when it joined before and does
      not contradict `first`. */
  lemma JoinsNext(first: RawRecord, r: RawRecord, verified: Verified)
    requires Good(first) && Good(r) && Joins(first, verified)
    ensures var (version, digest) := CheckRecord(first).value;
            Joins(r, Put(verified, version, digest)) <==> Agree(first, r) && Joins(r, verified)
  {
    hide IsVersion, IsDigest;
    var (version, digest) := CheckRecord(first).value;
    GetPut(verified, version, digest, CheckRecord(r).value.0);
  }

  predicate Loadable(records: seq<RawRecord>, verified: Verified) {
    AllGood(records) && NoConflict(records) && forall r :: r in records ==> Joins(r, verified)
  }

  lemma LoadableStep(first: RawRecord, others: seq<RawRecord>, verified: Verified)
    requires Good(first) && Joins(first, verified)
    ensures var (version, digest) := CheckRecord(first).value;
            Loadable([first] + others, verified) <==> Loadable(others, Put(verified, version, digest))
  {
    hide CheckRecord, Agree, Joins, Put;
    var (version, digest) := CheckRecord(first).value;
    var records := [first] + others;
    assert first in records && forall r :: r in others ==> r in records;
    assert forall r :: r in records ==> r == first || r in others;
    assert Agree(first, first) by { AgreeIsSymmetric(first, first); }
    forall r | r in others && Good(r)
      ensures Joins(r, Put(verified, version, digest)) <==> Agree(first, r) && Joins(r, verified)
      ensures Agree(r, first) <==> Agree(first, r)
    {
      JoinsNext(first, r, verified);
      AgreeIsSymmetric(first, r);
    }
  }

  lemma AgreeIsSymmetric(a: RawRecord, b: RawRecord)
    ensures Agree(a, b) <==> Agree(b, a)
    ensures Agree(a, a)
  {
  }

  /** Loading succeeds exactly when every record is good and none contradicts another: a
      fact about which records there are, not about their order or number. */
  lemma {:induction false} LoadsExactly(records: seq<RawRecord>, verified: Verified)
    ensures LoadFrom(records, verified).Ok? <==> Loadable(records, verified)
    decreases |records|
  {
    hide IsVersion, IsDigest;
    if records != [] {
      var first, others := records[0], records[1..];
      assert records == [first] + others;
      assert first in records;
      if Good(first) && Joins(first, verified) {
        var (version, digest) := CheckRecord(first).value;
        LoadsExactly(others, Put(verified, version, digest));
        LoadableStep(first, others, verified);
      }
    }
  }

  /** What was loaded is exactly what was recorded. */
  lemma {:induction false} LoadHolds(records: seq<RawRecord>, verified: Verified, v: VersionText, d: bytes)
    requires DistinctKeys(verified) && LoadFrom(records, verified).Ok?
    ensures DistinctKeys(LoadFrom(records, verified).value)
    ensures Get(LoadFrom(records, verified).value, v) == Some(d) <==> Get(verified, v) == Some(d) || Holds(records, v, d)
    decreases |records|
  {
    hide IsVersion, IsDigest, DistinctKeys;
    if records != [] {
      var first, others := records[0], records[1..];
      assert records == [first] + others;
      var (version, digest) := CheckRecord(first).value;
      KeysOfPut(verified, version, digest);
      LoadHolds(others, Put(verified, version, digest), v, d);
      GetPut(verified, version, digest, v);
      HoldsSplits(first, others, v, d);
    }
  }

  lemma HoldsSplits(first: RawRecord, others: seq<RawRecord>, v: VersionText, d: bytes)
    ensures Holds([first] + others, v, d) <==> CheckRecord(first) == Ok((v, d)) || Holds(others, v, d)
  {
    hide CheckRecord;
    var records := [first] + others;
    if CheckRecord(first) == Ok((v, d)) { assert first in records; }
    if Holds(others, v, d) {
      var r :| r in others && CheckRecord(r) == Ok((v, d));
      assert r in records;
    }
  }

  // ---------------------------------------------------------------------- maxima of series

  lemma CompareOrder(a: VersionText, b: VersionText)
    ensures Compare(a, b) == 0 <==> a == b
    ensures Compare(b, a) == -Compare(a, b)
  {
    hide SemverCmp, Precedes, IsVersion, StrictText;
    VersionIsStrict(a);
    VersionIsStrict(b);
    AgreesWithSection11(a, b);
    AgreesWithSection11(b, a);
  }

  lemma CompareTransitive(a: VersionText, b: VersionText, c: VersionText)
    requires Compare(a, b) <= 0 && Compare(b, c) <= 0
    ensures Compare(a, c) <= 0
    ensures Compare(a, b) < 0 || Compare(b, c) < 0 ==> Compare(a, c) < 0
  {
    hide SemverCmp, IsVersion, StrictText;
    VersionIsStrict(a);
    VersionIsStrict(b);
    VersionIsStrict(c);
    CompareOrder(a, b);
    CompareOrder(b, c);
    if Compare(a, b) < 0 && Compare(b, c) < 0 {
      BeforeIsTransitive(a, b, c);
    }
  }

  /** `v` belongs to the tag's series and nothing in the series is newer. */
  predicate IsMaximum(v: VersionText, tag: bytes, versions: seq<VersionText>) {
    v in versions && tag in Tags(v) && forall w :: w in versions && tag in Tags(w) ==> Compare(w, v) <= 0
  }

  lemma MaximumIsUnique(v: VersionText, w: VersionText, tag: bytes, versions: seq<VersionText>)
    requires IsMaximum(v, tag, versions) && IsMaximum(w, tag, versions)
    ensures v == w
  {
    hide Compare, Tags, IsVersion;
    CompareOrder(v, w);
  }

  /** Every tag names the maximum of its series, and tags without a series are absent. */
  predicate TagHolds(desired: Desired, tag: bytes, versions: seq<VersionText>) {
    match Get(desired, tag)
    case None => forall w :: w in versions ==> tag !in Tags(w)
    case Some(v) => IsMaximum(v, tag, versions)
  }

  lemma ConsiderGet(desired: Desired, v: VersionText, tag: bytes)
    ensures Get(Consider(desired, v), tag)
         == if tag in Tags(v) && NewerVersion(v, Get(desired, tag)) then Some(v) else Get(desired, tag)
  {
    hide Compare, IsVersion, Major, MajorMinor, Get, Put;
    CompareOrder(v, v);
    OfferGet(desired, LATEST, v, tag);
    var once := Offer(desired, LATEST, v);
    OfferGet(once, Major(v), v, tag);
    OfferGet(Offer(once, Major(v), v), MajorMinor(v), v, tag);
  }

  lemma OfferGet(desired: Desired, tag: bytes, v: VersionText, q: bytes)
    ensures Get(Offer(desired, tag, v), q)
         == if q == tag && NewerVersion(v, Get(desired, tag)) then Some(v) else Get(desired, q)
  {
    hide IsVersion;
    GetPut(desired, tag, v, q);
  }

  lemma ConsiderKeepsMaxima(desired: Desired, seen: seq<VersionText>, v: VersionText, tag: bytes)
    requires TagHolds(desired, tag, seen)
    ensures TagHolds(Consider(desired, v), tag, seen + [v])
  {
    hide Compare, Tags, Consider, IsVersion;
    ConsiderGet(desired, v, tag);
    CompareOrder(v, v);
    if tag in Tags(v) && Get(desired, tag).Some? {
      var u := Get(desired, tag).value;
      CompareOrder(u, v);
      forall w | w in seen && tag in Tags(w) && Compare(v, u) > 0
        ensures Compare(w, v) <= 0
      {
        CompareTransitive(w, u, v);
      }
    }
  }

  lemma {:induction false} DesiredHoldsMaxima(desired: Desired, seen: seq<VersionText>,
                                              versions: seq<VersionText>, tag: bytes)
    requires TagHolds(desired, tag, seen)
    ensures TagHolds(ConsiderAll(desired, versions), tag, seen + versions)
    decreases |versions|
  {
    hide Consider, IsVersion, TagHolds;
    if versions == [] {
      assert seen + versions == seen;
    } else {
      ConsiderKeepsMaxima(desired, seen, versions[0], tag);
      DesiredHoldsMaxima(Consider(desired, versions[0]), seen + [versions[0]], versions[1..], tag);
      assert seen + [versions[0]] + versions[1..] == seen + versions;
    }
  }

  /** Every tag maps to the unique greatest version of its series. */
  lemma TagsHoldMaxima(versions: seq<VersionText>, tag: bytes)
    ensures TagHolds(ConsiderAll([], versions), tag, versions)
    ensures forall v: VersionText :: IsMaximum(v, tag, versions) ==> Get(ConsiderAll([], versions), tag) == Some(v)
  {
    hide ConsiderAll, IsMaximum, IsVersion;
    var none: seq<VersionText> := [];
    assert TagHolds([], tag, none);
    DesiredHoldsMaxima([], none, versions, tag);
    assert none + versions == versions;
    forall v: VersionText | IsMaximum(v, tag, versions)
      ensures Get(ConsiderAll([], versions), tag) == Some(v)
    {
      MaximumIsTaken(ConsiderAll([], versions), v, tag, versions);
    }
  }

  lemma MaximumIsTaken(desired: Desired, v: VersionText, tag: bytes, versions: seq<VersionText>)
    requires TagHolds(desired, tag, versions) && IsMaximum(v, tag, versions)
    ensures Get(desired, tag) == Some(v)
  {
    hide Compare, Tags, IsVersion;
    if Get(desired, tag).Some? {
      MaximumIsUnique(Get(desired, tag).value, v, tag, versions);
    }
  }

  // ------------------------------------------------------------------------ order of records

  predicate SameMembers<T(==)>(a: seq<T>, b: seq<T>) {
    (forall x :: x in a ==> x in b) && forall x :: x in b ==> x in a
  }

  /** The choice depends only on which versions there are. */
  lemma ChoiceIgnoresOrder(a: seq<VersionText>, b: seq<VersionText>, tag: bytes)
    requires SameMembers(a, b)
    ensures Get(ConsiderAll([], a), tag) == Get(ConsiderAll([], b), tag)
  {
    hide ConsiderAll, Compare, Tags, IsVersion;
    TagsHoldMaxima(a, tag);
    TagsHoldMaxima(b, tag);
    var x := Get(ConsiderAll([], a), tag);
    if x.Some? {
      assert IsMaximum(x.value, tag, b);
    }
  }

  lemma {:induction false} DesiredKeys(desired: Desired, versions: seq<VersionText>)
    requires DistinctKeys(desired)
    ensures DistinctKeys(ConsiderAll(desired, versions))
    decreases |versions|
  {
    hide DistinctKeys, NewerVersion, IsVersion, Major, MajorMinor;
    if versions != [] {
      var v := versions[0];
      var once := Offer(desired, LATEST, v);
      OfferKeys(desired, LATEST, v);
      OfferKeys(once, Major(v), v);
      OfferKeys(Offer(once, Major(v), v), MajorMinor(v), v);
      DesiredKeys(Consider(desired, v), versions[1..]);
    }
  }

  lemma OfferKeys(desired: Desired, tag: bytes, v: VersionText)
    requires DistinctKeys(desired)
    ensures DistinctKeys(Offer(desired, tag, v))
  {
    hide DistinctKeys, NewerVersion, IsVersion;
    KeysOfPut(desired, tag, v);
  }

  // ------------------------------------------------------------------------- sorted entries

  predicate EntryBefore(x: (bytes, VersionText), y: (bytes, VersionText)) {
    CompareEntries(x, y) < 0
  }

  /** Comparing entries is antisymmetric, and finds entries of different tags different. */
  lemma EntryOrder(x: (bytes, VersionText), y: (bytes, VersionText))
    ensures CompareEntries(y, x) == -CompareEntries(x, y)
    ensures CompareEntries(x, y) == 0 ==> x.0 == y.0
    ensures !EntryBefore(x, x)
  {
    hide Compare, IsVersion, Less;
    CompareOrder(x.1, y.1);
    CompareOrder(x.1, x.1);
    LessIsTotal(x.0, y.0);
    LessIsTotal(x.0, x.0);
  }

  lemma EntryTransitive(x: (bytes, VersionText), y: (bytes, VersionText), z: (bytes, VersionText))
    requires EntryBefore(x, y) && EntryBefore(y, z)
    ensures EntryBefore(x, z)
  {
    hide Compare, IsVersion, Less;
    if x.0 != LATEST && y.0 != LATEST && z.0 != LATEST {
      CompareTransitive(x.1, y.1, z.1);
      CompareOrder(x.1, z.1);
      CompareOrder(x.1, y.1);
      CompareOrder(y.1, z.1);
      if Compare(x.1, y.1) == 0 && Compare(y.1, z.1) == 0 {
        LessIsTotal(y.0, x.0);
        LessIsTotal(z.0, y.0);
        LessIsTransitive(x.0, y.0, z.0);
        LessIsTotal(x.0, z.0);
      }
    }
  }

  predicate StrictlySorted(s: Desired) {
    forall i, j :: 0 <= i < j < |s| ==> EntryBefore(s[i], s[j])
  }

  lemma {:induction false} EntryStaysAfter(head: (bytes, VersionText), entry: (bytes, VersionText), sorted: Desired)
    requires EntryBefore(head, entry) && forall i :: 0 <= i < |sorted| ==> EntryBefore(head, sorted[i])
    ensures forall e :: e in InsertEntry(entry, sorted) ==> EntryBefore(head, e)
  {
    hide CompareEntries, IsVersion, EntryBefore;
    if sorted != [] && CompareEntries(entry, sorted[0]) > 0 {
      EntryStaysAfter(head, entry, sorted[1..]);
    }
  }

  lemma {:induction false} InsertKeepsOrder(entry: (bytes, VersionText), sorted: Desired)
    requires StrictlySorted(sorted) && forall i :: 0 <= i < |sorted| ==> sorted[i].0 != entry.0
    ensures StrictlySorted(InsertEntry(entry, sorted))
  {
    hide CompareEntries, IsVersion, EntryBefore;
    if sorted != [] {
      var head := sorted[0];
      EntryOrder(entry, head);
      BeforeMeans(entry, head);
      BeforeMeans(head, entry);
      if CompareEntries(entry, head) <= 0 {
        forall j | 1 <= j < |sorted|
          ensures EntryBefore(entry, sorted[j])
        {
          EntryTransitive(entry, head, sorted[j]);
        }
      } else {
        var r, tail := InsertEntry(entry, sorted), InsertEntry(entry, sorted[1..]);
        InsertKeepsOrder(entry, sorted[1..]);
        EntryStaysAfter(head, entry, sorted[1..]);
        forall j | 1 <= j < |r|
          ensures EntryBefore(r[0], r[j])
        {
          assert r[j] == tail[j - 1] && tail[j - 1] in tail;
        }
      }
    }
  }

  lemma BeforeMeans(x: (bytes, VersionText), y: (bytes, VersionText))
    ensures EntryBefore(x, y) <==> CompareEntries(x, y) < 0
  {
  }

  lemma {:induction false} SortIsSorted(entries: Desired)
    requires DistinctKeys(entries)
    ensures StrictlySorted(SortEntries(entries))
    ensures SameMembers(SortEntries(entries), entries)
  {
    hide IsVersion, EntryBefore, InsertEntry;
    SameByMultiset(SortEntries(entries), entries);
    if entries != [] {
      var first, tail := entries[0], SortEntries(entries[1..]);
      SortIsSorted(entries[1..]);
      forall i | 0 <= i < |tail|
        ensures tail[i].0 != first.0
      {
        assert tail[i] in entries[1..];
      }
      InsertKeepsOrder(first, tail);
    }
  }

  lemma SameByMultiset<T>(a: seq<T>, b: seq<T>)
    requires multiset(a) == multiset(b)
    ensures SameMembers(a, b)
  {
    assert forall x :: x in a <==> x in multiset(a);
    assert forall x :: x in b <==> x in multiset(b);
  }

  /** There is one strictly sorted list of given members. */
  lemma {:induction false} SortedIsUnique(p: Desired, q: Desired)
    requires StrictlySorted(p) && StrictlySorted(q) && SameMembers(p, q)
    ensures p == q
  {
    hide IsVersion, EntryBefore;
    if p != [] { assert p[0] in q; }
    if q != [] { assert q[0] in p; }
    if p != [] {
      var j :| 0 <= j < |q| && q[j] == p[0];
      var i :| 0 <= i < |p| && p[i] == q[0];
      Antisymmetric(p[0], q[0]);
      assert p[0] == q[0];
      TailMembers(p, q);
      SortedIsUnique(p[1..], q[1..]);
    }
  }

  lemma Antisymmetric(x: (bytes, VersionText), y: (bytes, VersionText))
    ensures !(EntryBefore(x, y) && EntryBefore(y, x)) && !EntryBefore(x, x)
  {
    hide CompareEntries, IsVersion;
    EntryOrder(x, y);
    EntryOrder(x, x);
  }

  lemma TailMembers(p: Desired, q: Desired)
    requires StrictlySorted(p) && StrictlySorted(q) && SameMembers(p, q)
    requires p != [] && q != [] && p[0] == q[0]
    ensures SameMembers(p[1..], q[1..])
  {
    hide IsVersion, EntryBefore;
    TailIsAfter(p);
    TailIsAfter(q);
  }

  lemma TailIsAfter(p: Desired)
    requires StrictlySorted(p) && p != []
    ensures forall x :: x in p <==> x == p[0] || x in p[1..]
    ensures p[0] !in p[1..]
  {
    hide IsVersion, EntryBefore;
    assert p == [p[0]] + p[1..];
    if p[0] in p[1..] {
      var j :| 0 <= j < |p[1..]| && p[1..][j] == p[0];
      Antisymmetric(p[0], p[j + 1]);
    }
  }

  // --------------------------------------------------------------------------- main results

  lemma {:induction false} VersionsAreKeys(verified: Verified, v: VersionText)
    ensures v in Versions(verified) <==> Get(verified, v).Some?
  {
    hide IsVersion;
    if verified != [] {
      VersionsAreKeys(verified[1..], v);
    }
  }

  lemma {:induction false} DescribeAgrees(entries: Desired, a: Verified, b: Verified)
    requires forall v: VersionText :: Get(a, v) == Get(b, v)
    ensures Describe(entries, a) == Describe(entries, b)
  {
    hide IsVersion;
    if entries != [] { DescribeAgrees(entries[1..], a, b); }
  }

  /** Loading the same records in any order, any number of times, finds the same digests. */
  lemma LoadIgnoresOrder(a: seq<RawRecord>, b: seq<RawRecord>)
    requires SameMembers(a, b)
    ensures Load(List(a)).Ok? <==> Load(List(b)).Ok?
    ensures Load(List(a)).Ok? ==> forall v: VersionText :: Get(Load(List(a)).value, v) == Get(Load(List(b)).value, v)
  {
    hide LoadFrom, CheckRecord, IsVersion, Joins, Good, Agree;
    LoadsExactly(a, []);
    LoadsExactly(b, []);
    if Load(List(a)).Ok? {
      forall v: VersionText
        ensures Get(Load(List(a)).value, v) == Get(Load(List(b)).value, v)
      {
        SameDigest(a, b, v);
      }
    }
  }

  lemma SameDigest(a: seq<RawRecord>, b: seq<RawRecord>, v: VersionText)
    requires SameMembers(a, b) && LoadFrom(a, []).Ok? && LoadFrom(b, []).Ok?
    ensures Get(LoadFrom(a, []).value, v) == Get(LoadFrom(b, []).value, v)
  {
    hide LoadFrom, CheckRecord, IsVersion;
    var x, y := Get(LoadFrom(a, []).value, v), Get(LoadFrom(b, []).value, v);
    if x.Some? {
      LoadHolds(a, [], v, x.value);
      LoadHolds(b, [], v, x.value);
    }
    if y.Some? {
      LoadHolds(a, [], v, y.value);
      LoadHolds(b, [], v, y.value);
    }
  }

  /** The plan is a function of the set of records: permuting or repeating them gives the
      identical list, and fails exactly when the original fails. */
  lemma PlanIgnoresOrder(a: seq<RawRecord>, b: seq<RawRecord>)
    requires SameMembers(a, b)
    ensures ComputePlan(List(a)).Ok? <==> ComputePlan(List(b)).Ok?
    ensures ComputePlan(List(a)).Ok? ==> ComputePlan(List(a)) == ComputePlan(List(b))
  {
    hide Load, IsVersion, ConsiderAll, SortEntries, Describe, Versions;
    LoadIgnoresOrder(a, b);
    if Load(List(a)).Ok? {
      var x, y := Load(List(a)).value, Load(List(b)).value;
      PlanOfVerified(x, y);
    }
  }

  lemma PlanOfVerified(x: Verified, y: Verified)
    requires forall v: VersionText :: Get(x, v) == Get(y, v)
    ensures Describe(SortEntries(ConsiderAll([], Versions(x))), x) == Describe(SortEntries(ConsiderAll([], Versions(y))), y)
  {
    hide IsVersion, ConsiderAll, SortEntries, Describe, Versions, Get;
    var p, q := ConsiderAll([], Versions(x)), ConsiderAll([], Versions(y));
    SameVersions(x, y);
    DesiredKeys([], Versions(x));
    DesiredKeys([], Versions(y));
    SameEntries(p, q, Versions(x), Versions(y));
    SortIsSorted(p);
    SortIsSorted(q);
    SortedIsUnique(SortEntries(p), SortEntries(q));
    DescribeAgrees(SortEntries(p), x, y);
  }

  lemma SameVersions(x: Verified, y: Verified)
    requires forall v: VersionText :: Get(x, v) == Get(y, v)
    ensures SameMembers(Versions(x), Versions(y))
  {
    hide IsVersion, Versions, Get;
    forall v: VersionText
      ensures v in Versions(x) <==> v in Versions(y)
    {
      VersionsAreKeys(x, v);
      VersionsAreKeys(y, v);
    }
  }

  lemma SameEntries(p: Desired, q: Desired, a: seq<VersionText>, b: seq<VersionText>)
    requires p == ConsiderAll([], a) && q == ConsiderAll([], b) && SameMembers(a, b)
    requires DistinctKeys(p) && DistinctKeys(q)
    ensures SameMembers(p, q)
  {
    hide IsVersion, ConsiderAll, DistinctKeys, Get;
    forall tag: bytes, v: VersionText
      ensures (tag, v) in p <==> (tag, v) in q
    {
      ChoiceIgnoresOrder(a, b, tag);
      GetIsMember(p, tag, v);
      GetIsMember(q, tag, v);
    }
    assert forall e :: e in p ==> (e.0, e.1) in q;
    assert forall e :: e in q ==> (e.0, e.1) in p;
  }

  // --------------------------------------------------------------- what a plan says, outright

  /** The records verify this version. */
  predicate Recorded(records: seq<RawRecord>, v: VersionText) {
    exists r :: r in records && Good(r) && r.version == Some(v)
  }

  /** An entry gives a series its greatest recorded version, with the digest recorded. */
  ghost predicate EntryIsRight(e: PlanEntry, records: seq<RawRecord>) {
    && e.tag in Tags(e.version)
    && Holds(records, e.version, e.digest)
    && forall w: VersionText :: Recorded(records, w) && e.tag in Tags(w) ==> Compare(w, e.version) <= 0
  }

  lemma {:induction false} DescribeEntries(entries: Desired, verified: Verified)
    ensures var r := Describe(entries, verified);
            |r| == |entries| && forall i :: 0 <= i < |r| ==>
              && r[i].tag == entries[i].0 && r[i].version == entries[i].1
              && (Get(verified, entries[i].1).Some? ==> r[i].digest == Get(verified, entries[i].1).value)
  {
    hide IsVersion, Get;
    if entries != [] { DescribeEntries(entries[1..], verified); }
  }

  lemma RecordedVersions(records: seq<RawRecord>, v: VersionText)
    requires LoadFrom(records, []).Ok?
    ensures v in Versions(LoadFrom(records, []).value) <==> Recorded(records, v)
  {
    hide LoadFrom, IsVersion, IsDigest, Get, Versions;
    var verified := LoadFrom(records, []).value;
    VersionsAreKeys(verified, v);
    if Get(verified, v).Some? {
      LoadHolds(records, [], v, Get(verified, v).value);
      NothingLoaded(v);
      var r :| r in records && CheckRecord(r) == Ok((v, Get(verified, v).value));
      assert Good(r);
    }
    if Recorded(records, v) {
      var r :| r in records && Good(r) && r.version == Some(v);
      LoadHolds(records, [], v, r.digest.value);
      assert Holds(records, v, r.digest.value);
    }
  }

  lemma NothingLoaded(v: VersionText)
    ensures var none: Verified := []; Get(none, v) == None
  {
  }

  /** Every entry is right, every series of every recorded version has one, and the entries
      stand in strictly increasing order. */
  lemma PlanIsRight(records: seq<RawRecord>)
    requires ComputePlan(List(records)).Ok?
    ensures var plan := ComputePlan(List(records)).value;
            && (forall i :: 0 <= i < |plan| ==> EntryIsRight(plan[i], records))
            && (forall v: VersionText, tag :: Recorded(records, v) && tag in Tags(v)
                  ==> exists i :: 0 <= i < |plan| && plan[i].tag == tag)
            && (forall i, j :: 0 <= i < j < |plan| ==>
                  EntryBefore((plan[i].tag, plan[i].version), (plan[j].tag, plan[j].version)))
  {
    hide LoadFrom, IsVersion, ConsiderAll, SortEntries, Describe, Versions, EntryBefore, EntryIsRight, Get,
         Recorded, Tags;
    var verified := LoadFrom(records, []).value;
    var versions := Versions(verified);
    var desired := ConsiderAll([], versions);
    var sorted := SortEntries(desired);
    var plan := ComputePlan(List(records)).value;
    DesiredKeys([], versions);
    SortIsSorted(desired);
    DescribeEntries(sorted, verified);
    forall i | 0 <= i < |plan|
      ensures EntryIsRight(plan[i], records)
    {
      assert sorted[i] in desired;
      EntryRight(records, plan[i]);
    }
    forall v: VersionText, tag | Recorded(records, v) && tag in Tags(v)
      ensures exists i :: 0 <= i < |plan| && plan[i].tag == tag
    {
      RecordedVersions(records, v);
      SeriesPresent(versions, v, tag);
      var u := Get(desired, tag).value;
      GetIsMember(desired, tag, u);
      assert (tag, u) in sorted;
      var i :| 0 <= i < |sorted| && sorted[i] == (tag, u);
      assert plan[i].tag == tag;
    }
  }

  lemma SeriesPresent(versions: seq<VersionText>, v: VersionText, tag: bytes)
    requires v in versions && tag in Tags(v)
    ensures Get(ConsiderAll([], versions), tag).Some?
  {
    hide ConsiderAll, IsVersion, Tags, Get, IsMaximum;
    TagsHoldMaxima(versions, tag);
  }

  lemma EntryRight(records: seq<RawRecord>, e: PlanEntry)
    requires LoadFrom(records, []).Ok?
    requires var verified := LoadFrom(records, []).value;
             && DistinctKeys(ConsiderAll([], Versions(verified)))
             && (e.tag, e.version) in ConsiderAll([], Versions(verified))
             && (Get(verified, e.version).Some? ==> e.digest == Get(verified, e.version).value)
    ensures EntryIsRight(e, records)
  {
    hide LoadFrom, IsVersion, ConsiderAll, Versions, Get, Tags, Compare, Recorded, DistinctKeys, Holds;
    var verified := LoadFrom(records, []).value;
    var versions := Versions(verified);
    GetIsMember(ConsiderAll([], versions), e.tag, e.version);
    TagsHoldMaxima(versions, e.tag);
    VersionsAreKeys(verified, e.version);
    NothingLoaded(e.version);
    assert DistinctKeys<VersionText, bytes>([]) by { NoKeys(); }
    LoadHolds(records, [], e.version, e.digest);
    forall w: VersionText | Recorded(records, w) && e.tag in Tags(w)
      ensures Compare(w, e.version) <= 0
    {
      RecordedVersions(records, w);
    }
  }

  lemma NoKeys()
    ensures DistinctKeys<VersionText, bytes>([])
  {
  }

  // ------------------------------------------------------------------ one version more

  lemma {:induction false} ConsiderLast(desired: Desired, versions: seq<VersionText>, v: VersionText)
    ensures ConsiderAll(desired, versions + [v]) == Consider(ConsiderAll(desired, versions), v)
    decreases |versions|
  {
    hide Consider, IsVersion;
    if versions != [] {
      assert (versions + [v])[0] == versions[0] && (versions + [v])[1..] == versions[1..] + [v];
      ConsiderLast(Consider(desired, versions[0]), versions[1..], v);
    } else {
      assert versions + [v] == [v] && [v][1..] == [];
    }
  }

  /** Verifying one version more moves only its own three tags, each of them to that
      version or nowhere, and never backwards. */
  lemma OneMoreVersion(before: seq<VersionText>, after: seq<VersionText>, v: VersionText, tag: bytes)
    requires SameMembers(after, before + [v])
    ensures Moves(Get(ConsiderAll([], before), tag), Get(ConsiderAll([], after), tag), v, tag)
  {
    hide Consider, IsVersion, ConsiderAll, Get, Tags, Compare;
    var chosen := Get(ConsiderAll([], before), tag);
    ChoiceIgnoresOrder(after, before + [v], tag);
    ConsiderLast([], before, v);
    ConsiderGet(ConsiderAll([], before), v, tag);
    CompareOrder(v, v);
    if chosen.Some? {
      CompareOrder(chosen.value, chosen.value);
      CompareOrder(v, chosen.value);
    }
  }

  /** How a tag may move when `v` is verified as well. */
  predicate Moves(earlier: Option<VersionText>, later: Option<VersionText>, v: VersionText, tag: bytes) {
    && (tag !in Tags(v) ==> later == earlier)
    && (tag in Tags(v) ==> (later == Some(v) || later == earlier) && later.Some? && Compare(later.value, v) >= 0)
    && (earlier.Some? ==> later.Some? && Compare(later.value, earlier.value) >= 0)
  }

  lemma PiecesHaveNoDot(v: VersionText)
    ensures |Split(v, DOT)| == 3 && DOT !in Major(v) && DOT in MajorMinor(v) && DOT !in LATEST
    ensures Find(MajorMinor(v), DOT) == |Major(v)|
  {
    var p := Split(v, DOT);
    FindInJoined(p[0], p[1], DOT);
    assert MajorMinor(v)[|p[0]|] == DOT;
    assert LATEST == [108, 97, 116, 101, 115, 116];
  }

  /** Versions of one minor series are of one major series. */
  lemma MinorSeriesNest(v: VersionText, w: VersionText)
    ensures MajorMinor(v) in Tags(w) ==> Major(v) in Tags(w)
    ensures MajorMinor(v) in Tags(v) && Major(v) in Tags(v) && LATEST in Tags(w)
  {
    hide IsVersion;
    PiecesHaveNoDot(v);
    PiecesHaveNoDot(w);
    if MajorMinor(v) == MajorMinor(w) {
      assert Major(v) == MajorMinor(v)[..|Major(v)|] && Major(w) == MajorMinor(w)[..|Major(w)|];
    }
  }

  lemma NarrowerMaximum(v: VersionText, wide: bytes, narrow: bytes, versions: seq<VersionText>)
    requires IsMaximum(v, wide, versions) && narrow in Tags(v)
    requires forall w :: w in versions && narrow in Tags(w) ==> wide in Tags(w)
    ensures IsMaximum(v, narrow, versions)
  {
    hide Compare, Tags, IsVersion;
  }

  /** The plan is coherent: what `latest` names is also named by its own major and minor
      series, and what a major series names by its own minor series. */
  lemma PlanIsCoherent(versions: seq<VersionText>, v: VersionText)
    ensures var d := ConsiderAll([], versions);
            && (Get(d, LATEST) == Some(v) ==> Get(d, Major(v)) == Some(v))
            && (Get(d, Major(v)) == Some(v) ==> Get(d, MajorMinor(v)) == Some(v))
  {
    hide ConsiderAll, IsVersion, Get, IsMaximum, Tags, Major, MajorMinor;
    TagsHoldMaxima(versions, LATEST);
    TagsHoldMaxima(versions, Major(v));
    TagsHoldMaxima(versions, MajorMinor(v));
    forall w: VersionText
      ensures MajorMinor(v) in Tags(w) ==> Major(v) in Tags(w)
      ensures LATEST in Tags(w)
    {
      MinorSeriesNest(v, w);
    }
    MinorSeriesNest(v, v);
    var d := ConsiderAll([], versions);
    if Get(d, LATEST) == Some(v) {
      NarrowerMaximum(v, LATEST, Major(v), versions);
    }
    if Get(d, Major(v)) == Some(v) {
      NarrowerMaximum(v, Major(v), MajorMinor(v), versions);
    }
  }

  // ------------------------------------------------------------------ the printed plan

  /** The version a plan gives a tag. */
  function Named(plan: seq<PlanEntry>, tag: bytes): Option<VersionText> {
    if plan == [] then None else if plan[0].tag == tag then Some(plan[0].version) else Named(plan[1..], tag)
  }

  lemma {:induction false} NamedByDescribe(entries: Desired, verified: Verified, tag: bytes)
    ensures Named(Describe(entries, verified), tag) == Get(entries, tag)
  {
    hide IsVersion;
    if entries != [] {
      NamedByDescribe(entries[1..], verified, tag);
      var r := Describe(entries, verified);
      assert r[1..] == Describe(entries[1..], verified);
    }
  }

  /** What is looked up is a member, and a member's key is found. */
  lemma {:induction false} GetFinds<K, V>(d: seq<(K, V)>, k: K)
    ensures Get(d, k).Some? ==> (k, Get(d, k).value) in d
    ensures Get(d, k).None? ==> forall v: V :: (k, v) !in d
  {
    if d != [] {
      GetFinds(d[1..], k);
      assert d == [d[0]] + d[1..];
    }
  }

  /** The printed list names for every tag the version chosen for it. */
  lemma PlanNamesTheChoice(records: seq<RawRecord>, tag: bytes)
    requires ComputePlan(List(records)).Ok?
    ensures Named(ComputePlan(List(records)).value, tag) == Get(ConsiderAll([], Versions(Load(List(records)).value)), tag)
  {
    hide LoadFrom, IsVersion, ConsiderAll, SortEntries, Describe, Versions, Get, Named, DistinctKeys;
    var verified := LoadFrom(records, []).value;
    var desired := ConsiderAll([], Versions(verified));
    assert DistinctKeys<bytes, VersionText>([]) by { NoTags(); }
    DesiredKeys([], Versions(verified));
    SortIsSorted(desired);
    NamedByDescribe(SortEntries(desired), verified, tag);
    SortedGet(SortEntries(desired), desired, tag);
  }

  lemma NoTags()
    ensures DistinctKeys<bytes, VersionText>([])
  {
  }

  lemma SortedGet(sorted: Desired, desired: Desired, tag: bytes)
    requires DistinctKeys(desired) && SameMembers(sorted, desired)
    ensures Get(sorted, tag) == Get(desired, tag)
  {
    hide IsVersion, Get, DistinctKeys;
    GetFinds(sorted, tag);
    GetFinds(desired, tag);
    if Get(sorted, tag).Some? { GetIsMember(desired, tag, Get(sorted, tag).value); }
  }

  lemma RecordAdded(records: seq<RawRecord>, after: seq<RawRecord>, r: RawRecord)
    requires SameMembers(after, records + [r])
    requires LoadFrom(records, []).Ok? && LoadFrom(after, []).Ok?
    ensures Good(r)
    ensures SameMembers(Versions(LoadFrom(after, []).value), Versions(LoadFrom(records, []).value) + [CheckRecord(r).value.0])
  {
    hide LoadFrom, IsVersion, IsDigest, Versions, Joins, Agree;
    LoadsExactly(after, []);
    assert r in records + [r];
    var v := CheckRecord(r).value.0;
    var earlier, later := Versions(LoadFrom(records, []).value), Versions(LoadFrom(after, []).value);
    forall w: VersionText
      ensures w in later <==> w in earlier + [v]
    {
      RecordedVersions(records, w);
      RecordedVersions(after, w);
      RecordedAdded(records, after, r, w);
    }
  }

  lemma RecordedAdded(records: seq<RawRecord>, after: seq<RawRecord>, r: RawRecord, w: VersionText)
    requires SameMembers(after, records + [r]) && Good(r)
    ensures Recorded(after, w) <==> Recorded(records, w) || w == CheckRecord(r).value.0
  {
    hide IsVersion, IsDigest;
    assert r in records + [r] && forall x :: x in records ==> x in records + [r];
    if Recorded(after, w) {
      var x :| x in after && Good(x) && x.version == Some(w);
      assert x in records + [r];
    }
    if Recorded(records, w) {
      var x :| x in records && Good(x) && x.version == Some(w);
      assert x in after;
    }
  }

  /** One verified record more, wherever it stands in the input, moves only its version's
      three tags in the printed plan, to that version or nowhere, and never backwards. */
  lemma OneMoreRecord(records: seq<RawRecord>, after: seq<RawRecord>, r: RawRecord, tag: bytes)
    requires SameMembers(after, records + [r])
    requires ComputePlan(List(records)).Ok? && ComputePlan(List(after)).Ok?
    ensures Good(r)
    ensures Moves(Named(ComputePlan(List(records)).value, tag), Named(ComputePlan(List(after)).value, tag),
                  CheckRecord(r).value.0, tag)
  {
    hide LoadFrom, IsVersion, ConsiderAll, SortEntries, Describe, Versions, Get, Named, Moves, CheckRecord;
    RecordAdded(records, after, r);
    PlanNamesTheChoice(records, tag);
    PlanNamesTheChoice(after, tag);
    OneMoreVersion(Versions(LoadFrom(records, []).value), Versions(LoadFrom(after, []).value), CheckRecord(r).value.0, tag);
  }

  /** In the printed plan, what `latest` names is also named by its own major series, and
      what a major series names by its own minor series. */
  lemma PrintedPlanIsCoherent(records: seq<RawRecord>, v: VersionText)
    requires ComputePlan(List(records)).Ok?
    ensures var plan := ComputePlan(List(records)).value;
            && (Named(plan, LATEST) == Some(v) ==> Named(plan, Major(v)) == Some(v))
            && (Named(plan, Major(v)) == Some(v) ==> Named(plan, MajorMinor(v)) == Some(v))
  {
    hide LoadFrom, IsVersion, ConsiderAll, SortEntries, Describe, Versions, Get, Named, Major, MajorMinor;
    PlanNamesTheChoice(records, LATEST);
    PlanNamesTheChoice(records, Major(v));
    PlanNamesTheChoice(records, MajorMinor(v));
    PlanIsCoherent(Versions(LoadFrom(records, []).value), v);
  }
}
