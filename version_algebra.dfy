/**
 * The values the registry exchanges with its two libraries: versions, the
 * ranges and unions that `semver.parse_constraint` produces, and the ranges
 * and unions the solver (`mixology`) works with. Only membership is modelled;
 * the libraries' intersection and normalisation are not.
 */
module VersionAlgebra {
  import opened Results

  /** A release number `major.minor.patch`. */
  datatype Version = Version(major: nat, minor: nat, patch: nat)

  /** The lexicographic order on release numbers. */
  predicate Less(a: Version, b: Version)
  {
    || a.major < b.major
    || (a.major == b.major && a.minor < b.minor)
    || (a.major == b.major && a.minor == b.minor && a.patch < b.patch)
  }

  lemma LessIsStrictTotalOrder(a: Version, b: Version, c: Version)
    ensures !Less(a, a)
    ensures Less(a, b) && Less(b, c) ==> Less(a, c)
    ensures a == b || Less(a, b) || Less(b, a)
    ensures !(Less(a, b) && Less(b, a))
  {
  }

  /** Whether `v` lies between the bounds; a missing bound is no bound. */
  predicate WithinBounds(min: Option<Version>, max: Option<Version>, includeMin: bool, includeMax: bool, v: Version)
  {
    && (min.None? || Less(min.value, v) || (includeMin && v == min.value))
    && (max.None? || Less(v, max.value) || (includeMax && v == max.value))
  }

  /** `semver.VersionRange`: optional bounds with their inclusion flags. */
  datatype Interval = Interval(min: Option<Version>, max: Option<Version>, includeMin: bool, includeMax: bool)
  {
    predicate Contains(v: Version)
    {
      WithinBounds(min, max, includeMin, includeMax, v)
    }
  }

  /** What `semver.parse_constraint` yields: one `VersionRange`, or a `VersionUnion` of them. */
  datatype VersionConstraint = SingleInterval(interval: Interval) | IntervalUnion(intervals: seq<Interval>)
  {
    predicate Allows(v: Version)
    {
      match this
      case SingleInterval(i) => i.Contains(v)
      case IntervalUnion(ivs) => exists k :: 0 <= k < |ivs| && ivs[k].Contains(v)
    }
  }

  /** The range without bounds that `parse_constraint("*")` stands for. */
  const AnyInterval: Interval := Interval(None, None, false, false)
  const Unbounded: VersionConstraint := SingleInterval(AnyInterval)

  lemma UnboundedAllowsEverything(v: Version)
    ensures Unbounded.Allows(v)
  {
  }

  /** `mixology.range.Range`: bounds, inclusion flags and the text kept for messages. */
  datatype Range = Range(min: Option<Version>, max: Option<Version>, includeMin: bool, includeMax: bool, text: Option<string>)
  {
    predicate Contains(v: Version)
    {
      WithinBounds(min, max, includeMin, includeMax, v)
    }
  }

  /** A solver constraint: one `Range`, or a `Union` whose members are `Range`s. */
  datatype RangeSet = OneRange(range: Range) | RangeUnion(ranges: seq<Range>)
  {
    predicate Allows(v: Version)
    {
      match this
      case OneRange(r) => r.Contains(v)
      case RangeUnion(rs) => exists k :: 0 <= k < |rs| && rs[k].Contains(v)
    }
  }

  /** `Range(v, v, True, True)`, the range the registry tests a candidate version with. */
  function Point(v: Version): (r: Range)
    ensures forall w :: r.Contains(w) <==> w == v
  {
    var r := Range(Some(v), Some(v), true, true, None);
    assert forall w :: r.Contains(w) ==> w == v by {
      forall w | r.Contains(w) ensures w == v {
        LessIsStrictTotalOrder(v, w, v);
      }
    }
    r
  }

  /**
   * `c.allows_any(Point(v))` holds exactly when `c` allows `v`, because `v` is
   * the only version in `Point(v)`; the registry relies on this reading.
   */
  lemma PointOverlapIsMembership(c: RangeSet, v: Version)
    ensures (exists w :: Point(v).Contains(w) && c.Allows(w)) <==> c.Allows(v)
  {
    if c.Allows(v) {
      assert Point(v).Contains(v);
    }
  }
}
