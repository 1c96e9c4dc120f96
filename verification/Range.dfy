/** The bound on index ranges, against what a range selects from a collection. */
module Range {
  import opened Prelude
  import opened Decimal

  function CheckedI64(n: int): Option<int> {
    if I64_MIN <= n <= I64_MAX then Some(n) else None
  }

  function Signum(n: int): int {
    if n < 0 then -1 else if n == 0 then 0 else 1
  }

  datatype RangeVerdict =
    | Accepted
    | NotAnInteger
    | MixedSigns
    | Unbounded
    | Invalid
    | TooWide

  /** The decision on two parsed indexes, with the checked arithmetic of the width. */
  function JudgeRange(start: int, stop: int, limit: nat): RangeVerdict {
    if Signum(start) != Signum(stop) && start != 0 && stop != 0 then MixedSigns
    else if start >= 0 && stop < 0 then Unbounded
    else if stop < start then Accepted
    else
      match CheckedI64(stop - start)
      case None => Invalid
      case Some(difference) =>
        match CheckedI64(difference + 1)
        case None => Invalid
        case Some(width) => if width > limit then TooWide else Accepted
  }

  /** `bounded_range` */
  function BoundedRange(start: bytes, stop: bytes, limit: nat): RangeVerdict {
    match (ParseI64(start), ParseI64(stop))
    case (Some(a), Some(b)) => JudgeRange(a, b, limit)
    case _ => NotAnInteger
  }

  /** The position an index names: negative ones count from the end. */
  function Resolve(index: int, length: nat): int {
    if index < 0 then index + length else index
  }

  /** Whether position `k` lies in the clamped range. */
  predicate Selects(start: int, stop: int, length: nat, k: int) {
    0 <= k < length && Resolve(start, length) <= k <= Resolve(stop, length)
  }

  /** How many elements the clamped range selects. */
  function Selected(start: int, stop: int, length: nat): nat {
    var first := if Resolve(start, length) < 0 then 0 else Resolve(start, length);
    var last := if Resolve(stop, length) >= length then length - 1 else Resolve(stop, length);
    if first > last then 0 else last - first + 1
  }

  /** `Selected` counts exactly the positions the range selects. */
  lemma SelectedCounts(start: int, stop: int, length: nat)
    ensures |set k | 0 <= k < length && Selects(start, stop, length, k)| == Selected(start, stop, length)
  {
    var first := if Resolve(start, length) < 0 then 0 else Resolve(start, length);
    assert (set k | 0 <= k < length && Selects(start, stop, length, k))
        == Interval(first, Selected(start, stop, length));
  }

  function Interval(first: int, n: nat): (s: set<int>)
    ensures |s| == n && forall k :: k in s <==> first <= k < first + n
  {
    if n == 0 then {} else Interval(first, n - 1) + {first + n - 1}
  }

  /** The range selects at most `limit` elements from a collection of any length. */
  ghost predicate AlwaysWithin(start: int, stop: int, limit: nat) {
    forall length: nat :: Selected(start, stop, length) <= limit
  }

  /** Except for a negative start with a non-negative stop, acceptance is exactly that the
      range is bounded for every length. Across the end of the collection only stop zero
      is ever accepted, by the width `1 - start`. */
  lemma AcceptedExactly(start: int, stop: int, limit: nat)
    requires I64_MIN <= start <= I64_MAX && I64_MIN <= stop <= I64_MAX
    requires limit <= I64_MAX
    ensures JudgeRange(start, stop, limit) == Accepted
            <==> if start < 0 <= stop then stop == 0 && 1 - start <= limit else AlwaysWithin(start, stop, limit)
  {
    if start < 0 <= stop {
    } else if start >= 0 > stop {
      Witness(start, stop, limit, start - stop + limit + 1);
    } else if start <= stop {
      Witness(start, stop, limit, if start >= 0 then stop + 1 else -start);
    }
  }

  /** One length on which the range selects too much shows it is not bounded. */
  lemma Witness(start: int, stop: int, limit: nat, length: nat)
    ensures Selected(start, stop, length) > limit ==> !AlwaysWithin(start, stop, limit)
  {
  }

  /** Whatever is accepted selects at most `limit` elements, whatever the collection. */
  lemma AcceptedIsBounded(start: bytes, stop: bytes, limit: nat, length: nat)
    requires 1 <= limit <= I64_MAX
    requires BoundedRange(start, stop, limit) == Accepted
    ensures Selected(ParseI64(start).value, ParseI64(stop).value, length) <= limit
  {
    var a, b := ParseI64(start).value, ParseI64(stop).value;
    AcceptedExactly(a, b, limit);
  }

  /** From a negative start to a stop from the front, the selection is never larger than
      either end allows, and for one length it is as large as that. */
  lemma CrossingSelects(start: int, stop: int, length: nat)
    requires start < 0 <= stop
    ensures var most := if -start < stop + 1 then -start else stop + 1;
            Selected(start, stop, length) <= most && Selected(start, stop, most) == most
  {
  }

  /** The ranges refused although they are bounded: exactly those from a negative start to
      a stop from the front whose smaller end is within the limit, unless the stop is
      zero and the start is within the limit as well. */
  lemma BoundedYetRefusedExactly(start: int, stop: int, limit: nat)
    requires I64_MIN <= start <= I64_MAX && I64_MIN <= stop <= I64_MAX
    requires limit <= I64_MAX
    ensures AlwaysWithin(start, stop, limit) && JudgeRange(start, stop, limit) != Accepted
            <==> && start < 0 <= stop
                 && (-start <= limit || stop + 1 <= limit)
                 && !(stop == 0 && 1 - start <= limit)
  {
    AcceptedExactly(start, stop, limit);
    if start < 0 <= stop {
      forall length: nat
        ensures Selected(start, stop, length) <= if -start < stop + 1 then -start else stop + 1
      {
        CrossingSelects(start, stop, length);
      }
      var most := if -start < stop + 1 then -start else stop + 1;
      CrossingSelects(start, stop, most);
      Witness(start, stop, limit, most);
    }
  }

  /** From a negative start to a positive stop the range is bounded by both ends, and
      always refused, whatever the limit. */
  lemma MixedSignsAreBoundedYetRefused(start: int, stop: int, length: nat)
    requires start < 0 < stop
    ensures Selected(start, stop, length) <= if -start < stop + 1 then -start else stop + 1
    ensures forall limit: nat :: JudgeRange(start, stop, limit) == MixedSigns
  {
  }
}
