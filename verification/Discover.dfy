/** Finding the exact stable tags in the package listing: pages flattened, tags filtered
    and validated, one digest for each, in version order. */
module Discover {
  import opened Prelude
  import opened SemVer
  import opened Plan
  import opened PlanProofs

  // --------------------------------------------------------------------------------- pages

  /** One package version: its digest and its tags, where they are strings and an array. */
  datatype ApiRecord = ApiRecord(digest: Option<bytes>, tags: Option<seq<Option<bytes>>>)

  datatype ApiItem = RecordItem(record: ApiRecord) | PageItem(entries: seq<Option<ApiRecord>>) | OtherItem

  datatype ApiValue = NotArray | Items(items: seq<ApiItem>)

  datatype DiscoverError = MalformedListing | NoTagArray | InvalidDigest | ManyDigests

  function Records(items: seq<ApiItem>): seq<ApiRecord>
    requires forall i :: 0 <= i < |items| ==> items[i].RecordItem?
  {
    if items == [] then [] else [items[0].record] + Records(items[1..])
  }

  function PageRecords(entries: seq<Option<ApiRecord>>): seq<ApiRecord>
    requires None !in entries
  {
    if entries == [] then [] else
      assert entries[0] in entries && forall e :: e in entries[1..] ==> e in entries;
      [entries[0].value] + PageRecords(entries[1..])
  }

  function AllPages(items: seq<ApiItem>): Result<seq<ApiRecord>, DiscoverError>
    requires forall i :: 0 <= i < |items| ==> items[i].PageItem?
  {
    if items == [] then Ok([])
    else if None in items[0].entries then Err(MalformedListing)
    else
      match AllPages(items[1..])
      case Err(e) => Err(e)
      case Ok(more) => Ok(PageRecords(items[0].entries) + more)
  }

  /** `flatten_pages` */
  function FlattenPages(value: ApiValue): Result<seq<ApiRecord>, DiscoverError> {
    match value
    case NotArray => Err(MalformedListing)
    case Items(items) =>
      if forall i :: 0 <= i < |items| ==> items[i].RecordItem? then Ok(Records(items))
      else if forall i :: 0 <= i < |items| ==> items[i].PageItem? then AllPages(items)
      else Err(MalformedListing)
  }

  // ------------------------------------------------------------------------------- the tags

  /** The strings among the tags that look like exact stable versions. */
  function ExactTags(tags: seq<Option<bytes>>): seq<bytes> {
    if tags == [] then []
    else (if tags[0].Some? && ExactStable(tags[0].value) then [tags[0].value] else []) + ExactTags(tags[1..])
  }

  /** The tags of one record, each looked at in turn. */
  function AddTags(tags: seq<bytes>, digest: bytes, discovered: Verified): Result<Verified, DiscoverError>
    requires forall i :: 0 <= i < |tags| ==> ExactStable(tags[i])
    decreases |tags|
  {
    if tags == [] then Ok(discovered)
    else if !Accepts(tags[0]) then AddTags(tags[1..], digest, discovered)
    else
      var tag: VersionText := tags[0];
      var previous := Get(discovered, tag);
      if previous.Some? && previous.value != digest then Err(ManyDigests)
      else AddTags(tags[1..], digest, Put(discovered, tag, digest))
  }

  lemma {:induction false} ExactTagsAreExact(tags: seq<Option<bytes>>)
    ensures forall i :: 0 <= i < |ExactTags(tags)| ==> ExactStable(ExactTags(tags)[i])
    ensures forall t :: t in ExactTags(tags) <==> Some(t) in tags && ExactStable(t)
  {
    hide ExactStable;
    if tags != [] {
      ExactTagsAreExact(tags[1..]);
      assert tags == [tags[0]] + tags[1..];
    }
  }

  function AddRecord(record: ApiRecord, discovered: Verified): Result<Verified, DiscoverError> {
    if record.tags.None? then Err(NoTagArray)
    else
      var exact := ExactTags(record.tags.value);
      ExactTagsAreExact(record.tags.value);
      if exact == [] then Ok(discovered)
      else if record.digest.None? || !IsDigest(record.digest.value) then Err(InvalidDigest)
      else AddTags(exact, record.digest.value, discovered)
  }

  function AddRecords(records: seq<ApiRecord>, discovered: Verified): Result<Verified, DiscoverError>
    decreases |records|
  {
    if records == [] then Ok(discovered)
    else
      match AddRecord(records[0], discovered)
      case Err(e) => Err(e)
      case Ok(next) => AddRecords(records[1..], next)
  }

  // ------------------------------------------------------------------------------- the order

  function InsertVersion(entry: (VersionText, bytes), sorted: Verified): (r: Verified)
    ensures multiset(r) == multiset(sorted) + multiset{entry}
  {
    hide IsVersion;
    if sorted == [] then [entry]
    else if Compare(entry.0, sorted[0].0) <= 0 then [entry] + sorted
    else
      assert sorted == [sorted[0]] + sorted[1..];
      [sorted[0]] + InsertVersion(entry, sorted[1..])
  }

  function SortVersions(entries: Verified): (r: Verified)
    ensures multiset(r) == multiset(entries)
  {
    hide IsVersion;
    if entries == [] then []
    else
      assert entries == [entries[0]] + entries[1..];
      InsertVersion(entries[0], SortVersions(entries[1..]))
  }

  /** `discover_exact_tags` */
  function DiscoverExactTags(value: ApiValue): Result<Verified, DiscoverError> {
    match FlattenPages(value)
    case Err(e) => Err(e)
    case Ok(records) =>
      match AddRecords(records, [])
      case Err(e) => Err(e)
      case Ok(discovered) => Ok(SortVersions(discovered))
  }

  /** The two loops, over the records and over the exact tags of each. */
  method Discover(value: ApiValue) returns (r: Result<Verified, DiscoverError>)
    ensures r == DiscoverExactTags(value)
  {
    var flat := FlattenPages(value);
    if flat.Err? { return Err(flat.error); }
    var records := flat.value;
    var discovered: Verified := [];
    assert records[0..] == records;
    for i := 0 to |records|
      invariant AddRecords(records[i..], discovered) == AddRecords(records, [])
    {
      assert records[i..][1..] == records[i + 1..];
      var record := records[i];
      if record.tags.None? { return Err(NoTagArray); }
      var exact := ExactTags(record.tags.value);
      ExactTagsAreExact(record.tags.value);
      if exact == [] { continue; }
      if record.digest.None? || !IsDigest(record.digest.value) { return Err(InvalidDigest); }
      var added := AddEach(exact, record.digest.value, discovered);
      if added.Err? { return Err(added.error); }
      discovered := added.value;
    }
    return Ok(SortVersions(discovered));
  }

  method AddEach(tags: seq<bytes>, digest: bytes, before: Verified) returns (r: Result<Verified, DiscoverError>)
    requires forall i :: 0 <= i < |tags| ==> ExactStable(tags[i])
    ensures r == AddTags(tags, digest, before)
  {
    hide ExactStable, Accepts;
    var discovered := before;
    assert tags[0..] == tags;
    for k := 0 to |tags|
      invariant AddTags(tags[k..], digest, discovered) == AddTags(tags, digest, before)
    {
      assert tags[k..][1..] == tags[k + 1..];
      if !Accepts(tags[k]) { continue; }
      var tag: VersionText := tags[k];
      var previous := Get(discovered, tag);
      if previous.Some? && previous.value != digest { return Err(ManyDigests); }
      discovered := Put(discovered, tag, digest);
    }
    return Ok(discovered);
  }

  // -------------------------------------------------------------------------- what it means

  /** How a listing is cut into pages makes no difference. */
  lemma {:induction false} PagingIsInvisible(pages: seq<seq<ApiRecord>>)
    ensures FlattenPages(Items(Paged(pages))) == Ok(ConcatPages(pages))
  {
    PagesRead(pages);
    if pages != [] { assert Paged(pages)[0].PageItem?; }
  }

  function Entries(records: seq<ApiRecord>): (r: seq<Option<ApiRecord>>)
    ensures |r| == |records| && forall i :: 0 <= i < |r| ==> r[i] == Some(records[i])
  {
    seq(|records|, i requires 0 <= i < |records| => Some(records[i]))
  }

  function Paged(pages: seq<seq<ApiRecord>>): (r: seq<ApiItem>)
    ensures |r| == |pages| && forall i :: 0 <= i < |r| ==> r[i] == PageItem(Entries(pages[i]))
  {
    seq(|pages|, i requires 0 <= i < |pages| => PageItem(Entries(pages[i])))
  }

  function ConcatPages(pages: seq<seq<ApiRecord>>): seq<ApiRecord> {
    if pages == [] then [] else pages[0] + ConcatPages(pages[1..])
  }

  lemma {:induction false} PageReads(records: seq<ApiRecord>)
    ensures None !in Entries(records) && PageRecords(Entries(records)) == records
  {
    if records != [] {
      PageReads(records[1..]);
      assert Entries(records)[1..] == Entries(records[1..]);
    }
  }

  lemma {:induction false} PagesRead(pages: seq<seq<ApiRecord>>)
    ensures AllPages(Paged(pages)) == Ok(ConcatPages(pages))
  {
    if pages != [] {
      PageReads(pages[0]);
      PagesRead(pages[1..]);
      assert Paged(pages)[1..] == Paged(pages[1..]);
    }
  }

  /** The record is usable: it has a tag array and, if any tag looks exact, a digest. */
  predicate Usable(record: ApiRecord) {
    record.tags.Some?
    && (ExactTags(record.tags.value) != [] ==> record.digest.Some? && IsDigest(record.digest.value))
  }

  /** What one tag of a record contributes, in the form in which records are verified. */
  function Contribution(tags: seq<bytes>, digest: bytes): seq<RawRecord> {
    if tags == [] then []
    else (if Accepts(tags[0]) then [Object(Some(tags[0]), Some(digest))] else []) + Contribution(tags[1..], digest)
  }

  function Contributions(records: seq<ApiRecord>): seq<RawRecord>
    requires forall i :: 0 <= i < |records| ==> Usable(records[i])
  {
    if records == [] then []
    else
      assert Usable(records[0]);
      var exact := ExactTags(records[0].tags.value);
      (if exact == [] then [] else Contribution(exact, records[0].digest.value)) + Contributions(records[1..])
  }

  /** The outcome, whatever the error. */
  function OkOf<T, E>(r: Result<T, E>): Option<T> {
    match r
    case Ok(v) => Some(v)
    case Err(_) => None
  }

  lemma {:induction false} LoadSplits(a: seq<RawRecord>, b: seq<RawRecord>, verified: Verified)
    ensures LoadFrom(a, verified).Ok? ==> LoadFrom(a + b, verified) == LoadFrom(b, LoadFrom(a, verified).value)
    ensures LoadFrom(a, verified).Err? ==> LoadFrom(a + b, verified).Err?
    decreases |a|
  {
    hide CheckRecord, IsVersion;
    if a == [] {
      assert a + b == b;
    } else {
      assert (a + b)[0] == a[0] && (a + b)[1..] == a[1..] + b;
      if CheckRecord(a[0]).Ok? {
        var (version, digest) := CheckRecord(a[0]).value;
        LoadSplits(a[1..], b, Put(verified, version, digest));
      }
    }
  }

  lemma {:induction false} TagsLoad(tags: seq<bytes>, digest: bytes, discovered: Verified)
    requires IsDigest(digest) && forall i :: 0 <= i < |tags| ==> ExactStable(tags[i])
    ensures OkOf(AddTags(tags, digest, discovered)) == OkOf(LoadFrom(Contribution(tags, digest), discovered))
    decreases |tags|
  {
    hide IsDigest, ExactStable, Accepts;
    if tags != [] {
      if Accepts(tags[0]) {
        var tag: VersionText := tags[0];
        var first := Object(Some(tag), Some(digest));
        assert Contribution(tags, digest)[0] == first;
        assert Contribution(tags, digest)[1..] == Contribution(tags[1..], digest);
        assert CheckRecord(first) == Ok((tag, digest));
        TagsLoad(tags[1..], digest, Put(discovered, tag, digest));
      } else {
        assert Contribution(tags, digest) == Contribution(tags[1..], digest);
        TagsLoad(tags[1..], digest, discovered);
      }
    }
  }

  /** Discovery is loading what the usable records contribute. */
  lemma {:induction false} DiscoveryLoads(records: seq<ApiRecord>, discovered: Verified)
    requires forall i :: 0 <= i < |records| ==> Usable(records[i])
    ensures OkOf(AddRecords(records, discovered)) == OkOf(LoadFrom(Contributions(records), discovered))
    decreases |records|
  {
    hide IsDigest, ExactStable, LoadFrom, AddTags, ExactTags;
    if records == [] {
      LoadNothing(discovered);
    } else {
      var first := records[0];
      assert Usable(first);
      var exact := ExactTags(first.tags.value);
      ExactTagsAreExact(first.tags.value);
      if exact == [] {
        assert [] + Contributions(records[1..]) == Contributions(records[1..]);
        DiscoveryLoads(records[1..], discovered);
      } else {
        TagsLoad(exact, first.digest.value, discovered);
        LoadSplits(Contribution(exact, first.digest.value), Contributions(records[1..]), discovered);
        var next := AddTags(exact, first.digest.value, discovered);
        if next.Ok? { DiscoveryLoads(records[1..], next.value); }
      }
    }
  }

  lemma LoadNothing(verified: Verified)
    ensures LoadFrom([], verified) == Ok(verified)
  {
  }

  lemma {:induction false} UnusableFails(records: seq<ApiRecord>, discovered: Verified)
    ensures AddRecords(records, discovered).Ok? ==> forall i :: 0 <= i < |records| ==> Usable(records[i])
    decreases |records|
  {
    hide IsDigest, ExactStable, AddTags, ExactTags;
    if records != [] && AddRecord(records[0], discovered).Ok? {
      UnusableFails(records[1..], AddRecord(records[0], discovered).value);
    }
  }

  /** The listing gives this version this digest. */
  predicate Listed(records: seq<ApiRecord>, v: VersionText, d: bytes) {
    exists i :: 0 <= i < |records| && Lists(records[i], v, d)
  }

  predicate Lists(record: ApiRecord, v: VersionText, d: bytes) {
    record.tags.Some? && Some(v) in record.tags.value && record.digest == Some(d)
  }

  lemma {:induction false} ContributionHolds(tags: seq<bytes>, digest: bytes, r: RawRecord)
    ensures r in Contribution(tags, digest)
            <==> r.Object? && r.version.Some? && r.version.value in tags && Accepts(r.version.value) && r.digest == Some(digest)
  {
    hide Accepts;
    if tags != [] {
      ContributionHolds(tags[1..], digest, r);
      assert tags == [tags[0]] + tags[1..];
    }
  }

  lemma {:induction false} ContributionsHold(records: seq<ApiRecord>, v: VersionText, d: bytes)
    requires forall i :: 0 <= i < |records| ==> Usable(records[i])
    ensures Object(Some(v), Some(d)) in Contributions(records) <==> Listed(records, v, d)
  {
    hide ExactTags, Contribution, IsDigest, ExactStable, Accepts;
    if records != [] {
      var first, r := records[0], Object(Some(v), Some(d));
      var exact := ExactTags(first.tags.value);
      ContributionsHold(records[1..], v, d);
      ExactTagsAreExact(first.tags.value);
      assert IsVersion(v);
      if exact != [] { ContributionHolds(exact, first.digest.value, r); }
      assert r in Contributions(records) <==> Lists(first, v, d) || r in Contributions(records[1..]);
      if Listed(records[1..], v, d) {
        var i :| 0 <= i < |records[1..]| && Lists(records[1..][i], v, d);
        assert Lists(records[i + 1], v, d);
      }
      if Listed(records, v, d) {
        var i :| 0 <= i < |records| && Lists(records[i], v, d);
        if i > 0 { assert Lists(records[1..][i - 1], v, d); }
      }
      if Lists(first, v, d) { assert Lists(records[0], v, d); }
    }
  }

  // --------------------------------------------------------------------------- main result

  predicate Increasing(s: Verified) {
    forall i, j :: 0 <= i < j < |s| ==> Compare(s[i].0, s[j].0) < 0
  }

  lemma {:induction false} StaysAfter(head: VersionText, entry: (VersionText, bytes), sorted: Verified)
    requires Compare(head, entry.0) < 0 && forall i :: 0 <= i < |sorted| ==> Compare(head, sorted[i].0) < 0
    ensures forall e :: e in InsertVersion(entry, sorted) ==> Compare(head, e.0) < 0
  {
    hide Compare, IsVersion;
    if sorted != [] && Compare(entry.0, sorted[0].0) > 0 {
      StaysAfter(head, entry, sorted[1..]);
    }
  }

  lemma {:induction false} InsertKeepsIncreasing(entry: (VersionText, bytes), sorted: Verified)
    requires Increasing(sorted) && forall i :: 0 <= i < |sorted| ==> sorted[i].0 != entry.0
    ensures Increasing(InsertVersion(entry, sorted))
  {
    hide Compare, IsVersion;
    if sorted != [] {
      CompareOrder(entry.0, sorted[0].0);
      if Compare(entry.0, sorted[0].0) <= 0 {
        forall j | 1 <= j < |sorted|
          ensures Compare(entry.0, sorted[j].0) < 0
        {
          CompareTransitive(entry.0, sorted[0].0, sorted[j].0);
        }
      } else {
        var r, tail := InsertVersion(entry, sorted), InsertVersion(entry, sorted[1..]);
        InsertKeepsIncreasing(entry, sorted[1..]);
        StaysAfter(sorted[0].0, entry, sorted[1..]);
        forall j | 1 <= j < |r|
          ensures Compare(r[0].0, r[j].0) < 0
        {
          assert r[j] == tail[j - 1] && tail[j - 1] in tail;
        }
      }
    }
  }

  lemma {:induction false} SortIncreases(entries: Verified)
    requires DistinctKeys(entries)
    ensures Increasing(SortVersions(entries)) && SameMembers(SortVersions(entries), entries)
  {
    hide IsVersion, Compare, InsertVersion;
    SameByMultiset(SortVersions(entries), entries);
    if entries != [] {
      var first, tail := entries[0], SortVersions(entries[1..]);
      SortIncreases(entries[1..]);
      forall i | 0 <= i < |tail|
        ensures tail[i].0 != first.0
      {
        assert tail[i] in entries[1..];
      }
      InsertKeepsIncreasing(first, tail);
    }
  }

  /** No version is listed with two digests. */
  ghost predicate OneDigestEach(records: seq<ApiRecord>) {
    forall v: VersionText, d, e :: Listed(records, v, d) && Listed(records, v, e) ==> d == e
  }

  /** Discovery succeeds exactly when every record is usable and no version has two
      digests, and then lists exactly the versions and digests of the listing, in strictly
      increasing version order: nothing depends on the order of the records. */
  lemma DiscoveredExactly(records: seq<ApiRecord>)
    ensures AddRecords(records, []).Ok?
            <==> (forall i :: 0 <= i < |records| ==> Usable(records[i])) && OneDigestEach(records)
    ensures AddRecords(records, []).Ok? ==>
              var found := SortVersions(AddRecords(records, []).value);
              Increasing(found) && forall v: VersionText, d :: (v, d) in found <==> Listed(records, v, d)
  {
    hide IsVersion, AddRecords, LoadFrom, Usable, Contributions, Listed, SortVersions, Compare, OneDigestEach;
    UnusableFails(records, []);
    if forall i :: 0 <= i < |records| ==> Usable(records[i]) {
      DiscoveryLoads(records, []);
      LoadsOneDigest(records);
      if AddRecords(records, []).Ok? {
        var d := AddRecords(records, []).value;
        FoundMembers(records, d);
        SortIncreases(d);
      }
    }
  }

  lemma {:induction false} ContributionsAreGood(records: seq<ApiRecord>)
    requires forall i :: 0 <= i < |records| ==> Usable(records[i])
    ensures AllGood(Contributions(records))
  {
    hide ExactTags, Contribution, IsDigest, ExactStable, Accepts, Good;
    if records != [] {
      ContributionsAreGood(records[1..]);
      var first := records[0];
      var exact := ExactTags(first.tags.value);
      ExactTagsAreExact(first.tags.value);
      if exact != [] {
        forall r | r in Contribution(exact, first.digest.value)
          ensures Good(r)
        {
          ContributionHolds(exact, first.digest.value, r);
          GoodOne(r);
        }
      }
    }
  }

  lemma GoodOne(r: RawRecord)
    requires r.Object? && r.version.Some? && ExactStable(r.version.value) && Accepts(r.version.value)
    requires r.digest.Some? && IsDigest(r.digest.value)
    ensures Good(r)
  {
  }

  /** Loading the contributions fails only for a version with two digests. */
  lemma LoadsOneDigest(records: seq<ApiRecord>)
    requires forall i :: 0 <= i < |records| ==> Usable(records[i])
    ensures LoadFrom(Contributions(records), []).Ok? <==> OneDigestEach(records)
  {
    hide IsVersion, IsDigest, Usable, Contributions, Listed, LoadFrom;
    var all := Contributions(records);
    LoadsExactly(all, []);
    ContributionsAreGood(records);
    forall v: VersionText, d
      ensures Object(Some(v), Some(d)) in all <==> Listed(records, v, d)
    {
      ContributionsHold(records, v, d);
    }
    if OneDigestEach(records) {
      forall a, b | a in all && b in all
        ensures Agree(a, b)
      {
        assert Good(a) && Good(b);
        AgreeByDigest(records, a, b);
      }
    }
    if NoConflict(all) {
      forall v: VersionText, d, e | Listed(records, v, d) && Listed(records, v, e)
        ensures d == e
      {
        var a, b := Object(Some(v), Some(d)), Object(Some(v), Some(e));
        assert Agree(a, b) && Good(a) && Good(b);
      }
    }
  }

  lemma AgreeByDigest(records: seq<ApiRecord>, a: RawRecord, b: RawRecord)
    requires Good(a) && Good(b) && OneDigestEach(records)
    requires forall v: VersionText, d :: Object(Some(v), Some(d)) in [a, b] ==> Listed(records, v, d)
    ensures Agree(a, b)
  {
    hide IsVersion, IsDigest, Listed;
    if a.version == b.version {
      var (v, d) := CheckRecord(a).value;
      var (w, e) := CheckRecord(b).value;
      assert a == Object(Some(v), Some(d)) && b == Object(Some(v), Some(e));
      assert a in [a, b] && b in [a, b];
    }
  }

  lemma FoundMembers(records: seq<ApiRecord>, found: Verified)
    requires forall i :: 0 <= i < |records| ==> Usable(records[i])
    requires LoadFrom(Contributions(records), []) == Ok(found)
    ensures DistinctKeys(found)
    ensures forall v: VersionText, d :: (v, d) in found <==> Listed(records, v, d)
  {
    hide IsVersion, LoadFrom, Usable, Contributions, Listed, DistinctKeys, Get;
    NoKeys();
    ContributionsAreGood(records);
    LoadHolds(Contributions(records), [], FirstVersion(), []);
    forall v: VersionText, d
      ensures (v, d) in found <==> Listed(records, v, d)
    {
      LoadHolds(Contributions(records), [], v, d);
      NothingLoaded(v);
      GetIsMember(found, v, d);
      HeldIsListed(records, v, d);
    }
  }

  lemma HeldIsListed(records: seq<ApiRecord>, v: VersionText, d: bytes)
    requires forall i :: 0 <= i < |records| ==> Usable(records[i])
    requires AllGood(Contributions(records))
    ensures Holds(Contributions(records), v, d) <==> Listed(records, v, d)
  {
    hide IsVersion, IsDigest, Usable, Contributions, Listed;
    ContributionsHold(records, v, d);
    forall h
      ensures CheckRecord(h) == Ok((v, d)) <==> Good(h) && h == Object(Some(v), Some(d))
    {
      CheckedRecord(h, v, d);
    }
  }

  lemma CheckedRecord(h: RawRecord, v: VersionText, d: bytes)
    ensures CheckRecord(h) == Ok((v, d)) <==> Good(h) && h == Object(Some(v), Some(d))
  {
    hide IsVersion, IsDigest;
  }
}
