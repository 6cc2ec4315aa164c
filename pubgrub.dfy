/**
 * The package registry the version solver queries (`PackageSource` in
 * src/pipupgrade/pubgrub.py). The solver itself belongs to the `mixology`
 * library and is not modelled; this module models the registry's table,
 * how packages and the synthetic root are registered in it, the two queries
 * the solver makes, and the conversion of a dependency into a solver
 * constraint.
 *
 * The table is nested as the source nests it: name, then extras, then
 * version. The two queries read the second level (the extras level) as if it
 * held versions; the model keeps that as written, so a second-level key is
 * either an extras value or a version.
 */
module PubGrub {
  import opened Results
  import opened VersionAlgebra

  /** The extras requested with a package, such as `requests[socks]`. */
  type Extras = seq<string>

  /** A package as the registry receives it. */
  datatype Package = Package(name: string, extras: Extras)

  /** The extras of a package created from a name alone. */
  const NoExtras: Extras := []

  /** A requirement on another package, with the text its constraint was parsed from. */
  datatype Dependency = Dependency(name: string, constraint: VersionConstraint, prettyConstraint: Option<string>)

  /** The exceptions the registry's operations raise. */
  datatype Error =
    | InvalidVersion(text: string)                  // `Version.parse` rejects the text
    | InvalidConstraint(text: string)               // `parse_constraint` rejects the text
    | AlreadyExists(name: string, version: Version) // the `ValueError` raised by `add`
    | Incomparable                                  // an extras value compared with a version
    | MissingKey                                    // the `KeyError` of a failed lookup

  /** The two parsers the registry borrows from the `semver` library. */
  datatype Parsers = Parsers(version: string -> Option<Version>, constraint: string -> Option<VersionConstraint>)
  {
    /** The library's reading of `"*"`: a range without bounds. */
    predicate StarIsAny()
    {
      constraint("*") == Some(Unbounded)
    }
  }

  /** Python's falsiness of an optional string: `None` or empty. */
  predicate Blank(text: Option<string>)
  {
    text.None? || text.value == ""
  }

  /** `Dependency(package, constraint)`: an absent or empty constraint means `"*"`. */
  function NewDependency(package: Package, constraint: Option<string>, parsers: Parsers): (r: Result<Dependency, Error>)
    ensures r.Ok? ==> r.value.name == package.name && r.value.prettyConstraint == constraint
    ensures Blank(constraint) && parsers.StarIsAny() ==> r == Ok(Dependency(package.name, Unbounded, constraint))
    ensures !Blank(constraint) ==>
      match parsers.constraint(constraint.value)
      case None => r == Err(InvalidConstraint(constraint.value))
      case Some(c) => r.Ok? && r.value.constraint == c
  {
    var text := if Blank(constraint) then "*" else constraint.value;
    match parsers.constraint(text)
    case None => Err(InvalidConstraint(text))
    case Some(c) => Ok(Dependency(package.name, c, constraint))
  }

  /** A key of the table's second level. */
  datatype Key = ExtrasKey(extras: Extras) | VersionKey(version: Version)

  /** What the table holds for one version: `None`, or the dependency list. */
  type Entry = Option<seq<Dependency>>

  /** `_packages`: name, then a second-level key, then version. */
  type Table = map<string, map<Key, map<Version, Entry>>>

  /** The entry at `t[name][key][v]`, if all three keys are present. */
  function Get(t: Table, name: string, key: Key, v: Version): Option<Entry>
  {
    if name in t && key in t[name] && v in t[name][key] then Some(t[name][key][v]) else None
  }

  /** Whether `t[name][key][v]` holds a dependency list (not `None`). */
  predicate HasDependencies(t: Table, name: string, key: Key, v: Version)
  {
    Get(t, name, key, v).Some? && Get(t, name, key, v).value.Some?
  }

  /**
   * The assignment `t[name][key][v] = e`, creating the `name` and `key`
   * levels when they are missing.
   */
  function Put(t: Table, name: string, key: Key, v: Version, e: Entry): (r: Table)
    ensures Get(r, name, key, v) == Some(e)
    ensures forall n, k, w :: (n != name || k != key || w != v) ==> Get(r, n, k, w) == Get(t, n, k, w)
    ensures r.Keys == t.Keys + {name}
    ensures forall n :: n in t && n != name ==> r[n] == t[n]
    ensures r[name].Keys == (if name in t then t[name].Keys else {}) + {key}
    ensures forall k :: name in t && k in t[name] && k != key ==> r[name][k] == t[name][k]
  {
    var level := if name in t then t[name] else map[];
    var versions := if key in level then level[key] else map[];
    t[name := level[key := versions[v := e]]]
  }

  /** One dependency per package, in order, each with the `"*"` constraint. */
  function Unconstrained(packages: seq<Package>): (ds: seq<Dependency>)
    ensures |ds| == |packages|
    ensures forall i :: 0 <= i < |ds| ==> ds[i] == Dependency(packages[i].name, Unbounded, None)
  {
    seq(|packages|, i requires 0 <= i < |packages| => Dependency(packages[i].name, Unbounded, None))
  }

  /** What `add` stores for `deps`. */
  function StoredEntry(deps: Option<seq<Package>>): (e: Entry)
    ensures e.None? <==> deps.None?
    ensures deps.Some? ==> e.value == Unconstrained(deps.value)
  {
    if deps.None? then None else Some(Unconstrained(deps.value))
  }

  /**
   * The table `add(name, extras, version, deps)` leaves behind, or the
   * exception it raises (in which case the table is unchanged).
   */
  function AddTo(t: Table, name: string, extras: Extras, version: string, deps: Option<seq<Package>>, parsers: Parsers): (r: Result<Table, Error>)
    ensures parsers.version(version).None? ==> r == Err(InvalidVersion(version))
    ensures parsers.version(version).Some? ==>
      var v := parsers.version(version).value;
      && (r.Err? <==> deps.Some? && HasDependencies(t, name, ExtrasKey(extras), v))
      && (r.Err? ==> r.error == AlreadyExists(name, v))
      && (r.Ok? ==> Get(r.value, name, ExtrasKey(extras), v) == Some(StoredEntry(deps)))
      && (r.Ok? ==> forall n, k, w :: (n != name || k != ExtrasKey(extras) || w != v) ==> Get(r.value, n, k, w) == Get(t, n, k, w))
    ensures r.Ok? ==> r.value.Keys == t.Keys + {name}
    ensures r.Ok? ==> forall n :: n in t && n != name ==> r.value[n] == t[n]
    ensures r.Ok? ==> r.value[name].Keys == (if name in t then t[name].Keys else {}) + {ExtrasKey(extras)}
    ensures r.Ok? ==> forall k :: name in t && k in t[name] && k != ExtrasKey(extras) ==> r.value[name][k] == t[name][k]
  {
    match parsers.version(version)
    case None => Err(InvalidVersion(version))
    case Some(v) =>
      if deps.Some? && HasDependencies(t, name, ExtrasKey(extras), v) then Err(AlreadyExists(name, v))
      else Ok(Put(t, name, ExtrasKey(extras), v, StoredEntry(deps)))
  }

  /** Registering with `deps = None` never raises "already exists". */
  lemma AddWithoutDepsNeverConflicts(t: Table, name: string, extras: Extras, version: string, parsers: Parsers)
    ensures AddTo(t, name, extras, version, None, parsers).Ok? <==> parsers.version(version).Some?
    ensures parsers.version(version).Some? ==>
      Get(AddTo(t, name, extras, version, None, parsers).value, name, ExtrasKey(extras), parsers.version(version).value) == Some(None)
  {
  }

  /** Every second-level key is an extras value, as every table `add` builds. */
  predicate ExtrasKeyed(t: Table)
  {
    forall n :: n in t ==> forall k :: k in t[n] ==> k.ExtrasKey?
  }

  lemma AddKeepsExtrasKeyed(t: Table, name: string, extras: Extras, version: string, deps: Option<seq<Package>>, parsers: Parsers)
    requires ExtrasKeyed(t)
    ensures AddTo(t, name, extras, version, deps, parsers).Ok? ==> ExtrasKeyed(AddTo(t, name, extras, version, deps, parsers).value)
  {
  }

  /**
   * The releases loop of `root_dep`: `add` each release with `deps = None`,
   * stopping at the first exception. Gives the table reached and the
   * exception, if one was raised.
   */
  function AddReleases(t: Table, name: string, extras: Extras, releases: seq<string>, parsers: Parsers): (r: (Table, Option<Error>))
    ensures r.1.Some? ==> exists i :: 0 <= i < |releases| && parsers.version(releases[i]).None? && r.1.value == InvalidVersion(releases[i])
    decreases |releases|
  {
    if releases == [] then (t, None)
    else
      match AddTo(t, name, extras, releases[0], None, parsers)
      case Err(e) => (t, Some(e))
      case Ok(t') =>
        var r := AddReleases(t', name, extras, releases[1..], parsers);
        assert r.1.Some? ==> exists i :: 0 <= i < |releases| && parsers.version(releases[i]).None? && r.1.value == InvalidVersion(releases[i]) by {
          if r.1.Some? {
            var i :| 0 <= i < |releases[1..]| && parsers.version(releases[1..][i]).None? && r.1.value == InvalidVersion(releases[1..][i]);
            assert releases[1..][i] == releases[i + 1];
          }
        }
        r
  }

  /**
   * The releases loop touches only `name`'s map, and there only the level of
   * `extras`: every other name keeps its map, every other second-level key its
   * versions, and no second-level key other than `extras` appears.
   */
  lemma {:induction false} AddReleasesStaysWithin(t: Table, name: string, extras: Extras, releases: seq<string>, parsers: Parsers)
    ensures var t' := AddReleases(t, name, extras, releases, parsers).0;
      && t.Keys <= t'.Keys <= t.Keys + {name}
      && (forall n :: n in t' && n != name ==> t'[n] == t[n])
      && (name in t' ==> t'[name].Keys <= (if name in t then t[name].Keys else {}) + {ExtrasKey(extras)})
      && (forall k :: name in t && k in t[name] && k != ExtrasKey(extras) ==> k in t'[name] && t'[name][k] == t[name][k])
      && (ExtrasKeyed(t) ==> ExtrasKeyed(t'))
    decreases |releases|
  {
    if releases != [] {
      var a := AddTo(t, name, extras, releases[0], None, parsers);
      if a.Ok? {
        if ExtrasKeyed(t) {
          AddKeepsExtrasKeyed(t, name, extras, releases[0], None, parsers);
        }
        AddReleasesStaysWithin(a.value, name, extras, releases[1..], parsers);
      }
    }
  }

  /** Whether every release text parses as a version. */
  predicate AllParse(releases: seq<string>, parsers: Parsers)
  {
    forall i :: 0 <= i < |releases| ==> parsers.version(releases[i]).Some?
  }

  /** One step of the releases loop, past a first release that is added. */
  lemma AddReleasesStep(t: Table, name: string, extras: Extras, releases: seq<string>, parsers: Parsers)
    requires releases != [] && AddTo(t, name, extras, releases[0], None, parsers).Ok?
    ensures AddReleases(t, name, extras, releases, parsers)
      == AddReleases(AddTo(t, name, extras, releases[0], None, parsers).value, name, extras, releases[1..], parsers)
  {
  }

  /** All releases parse when the first does and all after it do. */
  lemma AllParseStep(releases: seq<string>, parsers: Parsers)
    requires releases != []
    ensures AllParse(releases, parsers) <==> parsers.version(releases[0]).Some? && AllParse(releases[1..], parsers)
  {
    assert forall i :: 0 <= i < |releases[1..]| ==> releases[1..][i] == releases[i + 1];
    if parsers.version(releases[0]).Some? && AllParse(releases[1..], parsers) {
      forall i | 0 <= i < |releases| ensures parsers.version(releases[i]).Some? {
        if i > 0 { assert releases[i] == releases[1..][i - 1]; }
      }
    }
  }

  /**
   * `releases[i]` is the first release that does not parse, `r` carries its
   * exception, and `r`'s table is the one reached over the releases before it.
   */
  predicate FirstFailure(t: Table, name: string, extras: Extras, releases: seq<string>, parsers: Parsers, i: int, r: (Table, Option<Error>))
  {
    && 0 <= i < |releases|
    && AllParse(releases[..i], parsers)
    && parsers.version(releases[i]).None?
    && r.1 == Some(InvalidVersion(releases[i]))
    && r.0 == AddReleases(t, name, extras, releases[..i], parsers).0
  }

  /** A first failure after an added first release is a first failure one position later. */
  lemma FirstFailureStep(t: Table, name: string, extras: Extras, releases: seq<string>, parsers: Parsers, j: int, r: (Table, Option<Error>))
    requires releases != [] && AddTo(t, name, extras, releases[0], None, parsers).Ok?
    requires FirstFailure(AddTo(t, name, extras, releases[0], None, parsers).value, name, extras, releases[1..], parsers, j, r)
    ensures FirstFailure(t, name, extras, releases, parsers, j + 1, r)
  {
    var rest := releases[1..];
    var before := releases[..j + 1];
    assert before[0] == releases[0] && before[1..] == rest[..j];
    AddReleasesStep(t, name, extras, before, parsers);
    AddWithoutDepsNeverConflicts(t, name, extras, releases[0], parsers);
    AllParseStep(before, parsers);
    assert releases[j + 1] == rest[j];
  }

  /**
   * An exception of the releases loop comes from the FIRST release that does
   * not parse: every release before it parses, and the table is the one the
   * loop reached over those earlier releases.
   */
  lemma {:induction false} AddReleasesStopsAtFirstFailure(t: Table, name: string, extras: Extras, releases: seq<string>, parsers: Parsers)
    ensures var r := AddReleases(t, name, extras, releases, parsers);
      r.1.Some? ==> exists i :: FirstFailure(t, name, extras, releases, parsers, i, r)
    decreases |releases|
  {
    var r := AddReleases(t, name, extras, releases, parsers);
    if releases != [] && r.1.Some? {
      AddWithoutDepsNeverConflicts(t, name, extras, releases[0], parsers);
      var a := AddTo(t, name, extras, releases[0], None, parsers);
      if a.Err? {
        assert releases[..0] == [];
        assert FirstFailure(t, name, extras, releases, parsers, 0, r);
      } else {
        AddReleasesStep(t, name, extras, releases, parsers);
        AddReleasesStopsAtFirstFailure(a.value, name, extras, releases[1..], parsers);
        var j :| FirstFailure(a.value, name, extras, releases[1..], parsers, j, r);
        FirstFailureStep(t, name, extras, releases, parsers, j, r);
      }
    }
  }

  /** Whether `v` is the version of one of the releases. */
  predicate IsRelease(releases: seq<string>, parsers: Parsers, v: Version)
  {
    exists i :: 0 <= i < |releases| && parsers.version(releases[i]) == Some(v)
  }

  /**
   * The releases loop stops exactly at an unparsable release; when all parse,
   * each release's version holds `None` and nothing else changes.
   */
  lemma {:induction false} AddReleasesRegistersEach(t: Table, name: string, extras: Extras, releases: seq<string>, parsers: Parsers)
    ensures AddReleases(t, name, extras, releases, parsers).1.None? <==> AllParse(releases, parsers)
    ensures AllParse(releases, parsers) ==>
      var t' := AddReleases(t, name, extras, releases, parsers).0;
      && (forall v :: IsRelease(releases, parsers, v) ==> Get(t', name, ExtrasKey(extras), v) == Some(None))
      && (forall n, k, w :: (n != name || k != ExtrasKey(extras) || !IsRelease(releases, parsers, w)) ==> Get(t', n, k, w) == Get(t, n, k, w))
    decreases |releases|
  {
    if releases != [] {
      AddWithoutDepsNeverConflicts(t, name, extras, releases[0], parsers);
      var r := AddTo(t, name, extras, releases[0], None, parsers);
      if r.Ok? {
        AddReleasesRegistersEach(r.value, name, extras, releases[1..], parsers);
        assert AllParse(releases, parsers) <==> AllParse(releases[1..], parsers) by {
          assert forall i :: 0 <= i < |releases[1..]| ==> releases[1..][i] == releases[i + 1];
          if AllParse(releases[1..], parsers) {
            forall i | 0 <= i < |releases| ensures parsers.version(releases[i]).Some? {
              if i > 0 { assert releases[i] == releases[1..][i - 1]; }
            }
          }
        }
        if AllParse(releases, parsers) {
          var v0 := parsers.version(releases[0]).value;
          forall v ensures IsRelease(releases, parsers, v) <==> v == v0 || IsRelease(releases[1..], parsers, v) {
            if IsRelease(releases, parsers, v) {
              var i :| 0 <= i < |releases| && parsers.version(releases[i]) == Some(v);
              if i > 0 { assert releases[1..][i - 1] == releases[i]; }
            }
            if IsRelease(releases[1..], parsers, v) {
              var i :| 0 <= i < |releases[1..]| && parsers.version(releases[1..][i]) == Some(v);
              assert releases[i + 1] == releases[1..][i];
            }
          }
        }
      } else {
        assert !AllParse(releases, parsers);
      }
    }
  }

  /** What `root_dep` is given by `get_meta`: the release texts and the dependency names. */
  datatype Metadata = Metadata(releases: seq<string>, dependencies: seq<string>)

  /** `[Package(dependency.name) for dependency in metadata["dependencies"]]`. */
  function RequiredPackages(meta: Metadata): (ps: seq<Package>)
    ensures |ps| == |meta.dependencies|
    ensures forall i :: 0 <= i < |ps| ==> ps[i] == Package(meta.dependencies[i], NoExtras)
  {
    seq(|meta.dependencies|, i requires 0 <= i < |meta.dependencies| => Package(meta.dependencies[i], NoExtras))
  }

  /** The registry state after `root_dep`, with its outcome. */
  datatype Registration = Registration(packages: Table, rootDependencies: seq<Dependency>, outcome: Outcome<Error>)

  /**
   * `root_dep(package, constraint)`: append the root dependency, register
   * every release without dependencies, then register the constraint's
   * version with the metadata's dependencies. An exception leaves whatever
   * the earlier steps already did.
   */
  function RootRegistration(t: Table, roots: seq<Dependency>, package: Package, constraint: string, meta: Metadata, parsers: Parsers): (g: Registration)
    ensures NewDependency(package, Some(constraint), parsers).Err? ==>
      g == Registration(t, roots, Fail(NewDependency(package, Some(constraint), parsers).error))
    ensures NewDependency(package, Some(constraint), parsers).Ok? ==>
      g.rootDependencies == roots + [NewDependency(package, Some(constraint), parsers).value]
    ensures t.Keys <= g.packages.Keys <= t.Keys + {package.name}
    ensures forall n :: n in g.packages && n != package.name ==> g.packages[n] == t[n]
    ensures package.name in g.packages ==>
      g.packages[package.name].Keys <= (if package.name in t then t[package.name].Keys else {}) + {ExtrasKey(package.extras)}
  {
    match NewDependency(package, Some(constraint), parsers)
    case Err(e) => Registration(t, roots, Fail(e))
    case Ok(d) =>
      AddReleasesStaysWithin(t, package.name, package.extras, meta.releases, parsers);
      var (t1, failure) := AddReleases(t, package.name, package.extras, meta.releases, parsers);
      if failure.Some? then Registration(t1, roots + [d], Fail(failure.value))
      else
        match AddTo(t1, package.name, package.extras, constraint, Some(RequiredPackages(meta)), parsers)
        case Err(e) => Registration(t1, roots + [d], Fail(e))
        case Ok(t2) => Registration(t2, roots + [d], Pass)
  }

  /**
   * When every text parses, `root_dep` appends one root dependency with the
   * given constraint and registers the constraint's version with one
   * unconstrained dependency per metadata dependency, every other release
   * with `None`. It raises "already exists" exactly when the constraint's
   * version is not a release and was already registered with dependencies.
   */
  lemma RootRegistrationRegistersRoot(t: Table, roots: seq<Dependency>, package: Package, constraint: string, meta: Metadata, parsers: Parsers)
    requires parsers.constraint(constraint).Some? && constraint != ""
    requires AllParse(meta.releases, parsers) && parsers.version(constraint).Some?
    ensures
      var g := RootRegistration(t, roots, package, constraint, meta, parsers);
      var v := parsers.version(constraint).value;
      var key := ExtrasKey(package.extras);
      && g.rootDependencies == roots + [Dependency(package.name, parsers.constraint(constraint).value, Some(constraint))]
      && (g.outcome.Fail? <==> !IsRelease(meta.releases, parsers, v) && HasDependencies(t, package.name, key, v))
      && (g.outcome.Pass? ==> Get(g.packages, package.name, key, v) == Some(Some(Unconstrained(RequiredPackages(meta)))))
      && (g.outcome.Pass? ==> forall w :: w != v && IsRelease(meta.releases, parsers, w) ==> Get(g.packages, package.name, key, w) == Some(None))
      && (forall n, k, w :: (n != package.name || k != key || (w != v && !IsRelease(meta.releases, parsers, w))) ==>
            Get(g.packages, n, k, w) == Get(t, n, k, w))
  {
    AddReleasesRegistersEach(t, package.name, package.extras, meta.releases, parsers);
    var t1 := AddReleases(t, package.name, package.extras, meta.releases, parsers).0;
    var v := parsers.version(constraint).value;
    var key := ExtrasKey(package.extras);
    assert HasDependencies(t1, package.name, key, v) <==> !IsRelease(meta.releases, parsers, v) && HasDependencies(t, package.name, key, v);
  }

  /** `root_dep` only ever adds extras keys at the second level, like `add`. */
  lemma RootRegistrationKeepsExtrasKeyed(t: Table, roots: seq<Dependency>, package: Package, constraint: string, meta: Metadata, parsers: Parsers)
    requires ExtrasKeyed(t)
    ensures ExtrasKeyed(RootRegistration(t, roots, package, constraint, meta, parsers).packages)
  {
    AddReleasesStaysWithin(t, package.name, package.extras, meta.releases, parsers);
    var t1 := AddReleases(t, package.name, package.extras, meta.releases, parsers).0;
    AddKeepsExtrasKeyed(t1, package.name, package.extras, constraint, Some(RequiredPackages(meta)), parsers);
  }

  /** The value `dependencies_for` returns. */
  datatype Lookup =
    | RootDependencies(dependencies: seq<Dependency>)      // `_root_dependencies`
    | StoredLevel(entries: map<Version, Entry>)            // `_packages[package][version]`

  /** The solver's form of a dependency: `mixology.constraint.Constraint`. */
  datatype NamedConstraint = NamedConstraint(name: string, constraint: RangeSet)

  /** Whether a solver `Range` has the bounds and flags of a `semver` range. */
  predicate SameBounds(r: Range, i: Interval)
  {
    r.min == i.min && r.max == i.max && r.includeMin == i.includeMin && r.includeMax == i.includeMax
  }

  /**
   * `convert_dependency`: a single range becomes one solver `Range` carrying
   * the dependency's text; a union becomes a `Union` of one `Range` per
   * member, in order, each carrying `render` of its member (`str(_range)`).
   */
  function ConvertDependency(d: Dependency, render: Interval -> string): (c: NamedConstraint)
    ensures c.name == d.name
    ensures forall v :: c.constraint.Allows(v) <==> d.constraint.Allows(v)
    ensures d.constraint.SingleInterval? ==>
      && c.constraint.OneRange?
      && SameBounds(c.constraint.range, d.constraint.interval)
      && c.constraint.range.text == d.prettyConstraint
    ensures d.constraint.IntervalUnion? ==>
      && c.constraint.RangeUnion?
      && |c.constraint.ranges| == |d.constraint.intervals|
      && forall k :: 0 <= k < |c.constraint.ranges| ==>
           SameBounds(c.constraint.ranges[k], d.constraint.intervals[k])
           && c.constraint.ranges[k].text == Some(render(d.constraint.intervals[k]))
  {
    match d.constraint
    case SingleInterval(i) =>
      NamedConstraint(d.name, OneRange(Range(i.min, i.max, i.includeMin, i.includeMax, d.prettyConstraint)))
    case IntervalUnion(ivs) =>
      var rs := seq(|ivs|, k requires 0 <= k < |ivs| => Range(ivs[k].min, ivs[k].max, ivs[k].includeMin, ivs[k].includeMax, Some(render(ivs[k]))));
      assert forall k :: 0 <= k < |rs| ==> forall v :: rs[k].Contains(v) <==> ivs[k].Contains(v);
      NamedConstraint(d.name, RangeUnion(rs))
  }

  /** Whether no two positions of `s` hold the same key. */
  predicate Distinct(s: seq<Key>)
  {
    forall i, j :: 0 <= i < j < |s| ==> s[i] != s[j]
  }

  /** Newest first, with no version twice. */
  predicate StrictlyDescending(s: seq<Key>)
  {
    forall i, j :: 0 <= i < j < |s| ==> s[i].VersionKey? && s[j].VersionKey? && Less(s[j].version, s[i].version)
  }

  predicate AllVersions(s: seq<Key>)
  {
    forall i :: 0 <= i < |s| ==> s[i].VersionKey?
  }

  /** A version newer than every element of a descending list can be put in front of it. */
  lemma PrependDescending(h: Key, t: seq<Key>)
    requires h.VersionKey? && AllVersions(t) && StrictlyDescending(t)
    requires forall j :: 0 <= j < |t| ==> Less(t[j].version, h.version)
    ensures AllVersions([h] + t) && StrictlyDescending([h] + t)
  {
    var r := [h] + t;
    forall i, j | 0 <= i < j < |r| ensures r[i].VersionKey? && r[j].VersionKey? && Less(r[j].version, r[i].version) {
      assert r[j] == t[j - 1];
      if i > 0 {
        assert r[i] == t[i - 1];
      }
    }
  }

  /** Insert a version key into a list sorted newest first. */
  function InsertDescending(x: Key, s: seq<Key>): (r: seq<Key>)
    requires x.VersionKey? && AllVersions(s) && StrictlyDescending(s) && x !in s
    ensures AllVersions(r) && StrictlyDescending(r)
    ensures |r| == |s| + 1
    ensures forall y :: y in r <==> y in s || y == x
    decreases |s|
  {
    if s == [] then [x]
    else if Less(s[0].version, x.version) then
      PrependDescending(x, s);
      [x] + s
    else
      var tail := InsertDescending(x, s[1..]);
      assert forall j :: 0 <= j < |tail| ==> Less(tail[j].version, s[0].version) by {
        forall j | 0 <= j < |tail| ensures Less(tail[j].version, s[0].version) {
          if tail[j] == x {
            LessIsStrictTotalOrder(x.version, s[0].version, x.version);
          } else {
            assert tail[j] in s[1..];
            var k :| 0 <= k < |s[1..]| && s[1..][k] == tail[j];
            assert s[k + 1] == tail[j];
          }
        }
      }
      PrependDescending(s[0], tail);
      assert forall y :: y in s <==> y == s[0] || y in s[1..] by {
        assert s == [s[0]] + s[1..];
      }
      [s[0]] + tail
  }

  /** `sorted(versions, reverse=True)` on distinct version keys. */
  function SortDescending(s: seq<Key>): (r: seq<Key>)
    requires AllVersions(s) && Distinct(s)
    ensures AllVersions(r) && StrictlyDescending(r)
    ensures |r| == |s|
    ensures forall y :: y in r <==> y in s
    decreases |s|
  {
    if s == [] then []
    else
      assert forall y :: y in s <==> y == s[0] || y in s[1..] by {
        assert s == [s[0]] + s[1..];
      }
      InsertDescending(s[0], SortDescending(s[1..]))
  }

  /** Whether the query keeps `k` under `constraint` (no constraint keeps everything). */
  predicate Admitted(constraint: Option<RangeSet>, k: Key)
  {
    constraint.None? || (k.VersionKey? && constraint.value.Allows(k.version))
  }

  /** Whether some key of the level is an extras value. */
  predicate HasExtrasKey(level: map<Key, map<Version, Entry>>)
  {
    exists k :: k in level && k.ExtrasKey?
  }

  lemma DescendingIsDistinct(s: seq<Key>)
    requires StrictlyDescending(s)
    ensures Distinct(s)
  {
    forall i, j | 0 <= i < j < |s| ensures s[i] != s[j] {
      assert s[i].VersionKey? && s[j].VersionKey?;
      LessIsStrictTotalOrder(s[j].version, s[i].version, s[j].version);
    }
  }

  lemma AppendDistinct(s: seq<Key>, k: Key)
    requires Distinct(s) && k !in s
    ensures Distinct(s + [k]) && forall y :: y in s + [k] <==> y in s || y == k
  {
  }

  /**
   * The loop of `_versions_for` over the keys of one second-level map: the
   * keys the constraint admits, in iteration order. Testing an extras key
   * against a constraint raises.
   */
  method CollectAdmitted(level: map<Key, map<Version, Entry>>, constraint: Option<RangeSet>) returns (r: Result<seq<Key>, Error>)
    ensures r.Err? <==> constraint.Some? && HasExtrasKey(level)
    ensures r.Err? ==> r.error == Incomparable
    ensures r.Ok? ==> Distinct(r.value)
    ensures r.Ok? ==> forall k :: k in r.value <==> k in level && Admitted(constraint, k)
    ensures r.Ok? && constraint.None? ==> |r.value| == |level|
  {
    var remaining := level.Keys;
    var versions: seq<Key> := [];
    ghost var seen: set<Key> := {};
    while remaining != {}
      invariant remaining + seen == level.Keys && remaining !! seen
      invariant forall k :: k in versions <==> k in seen && Admitted(constraint, k)
      invariant constraint.Some? ==> forall k :: k in seen ==> k.VersionKey?
      invariant constraint.None? ==> |versions| == |seen|
      invariant Distinct(versions)
      decreases remaining
    {
      var k :| k in remaining;
      assert k !in versions;
      if constraint.Some? {
        if k.ExtrasKey? {
          return Err(Incomparable);
        }
        if constraint.value.Allows(k.version) {
          AppendDistinct(versions, k);
          versions := versions + [k];
        }
      } else {
        AppendDistinct(versions, k);
        versions := versions + [k];
      }
      remaining := remaining - {k};
      seen := seen + {k};
    }
    assert seen == level.Keys;
    r := Ok(versions);
  }

  /**
   * The two level-creating steps of `add`, then the assignment of the entry:
   * the table before the duplicate check holds a list at `(name, key, v)`
   * exactly when the old one did (and is the old one then), and the
   * assignment gives `Put` of the old table.
   */
  lemma CreateLevels(t: Table, t1: Table, t2: Table, name: string, key: Key, v: Version)
    requires t1 == if name !in t then t[name := map[key := map[]]] else t
    requires t2 == if key !in t1[name] then t1[name := t1[name][key := map[]]] else t1
    ensures name in t2 && key in t2[name]
    ensures (v in t2[name][key] && t2[name][key][v].Some?) <==> HasDependencies(t, name, key, v)
    ensures HasDependencies(t, name, key, v) ==> t2 == t
    ensures forall e :: t2[name := t2[name][key := t2[name][key][v := e]]] == Put(t, name, key, v, e)
  {
    var level := if name in t then t[name] else map[];
    var versions := if key in level then level[key] else map[];
    if name in t && key in t[name] {
      assert t2 == t;
      assert level[key := versions] == level;
      assert t[name := level] == t;
    } else {
      assert t2 == t[name := level[key := versions]];
      assert t2[name][key] == versions && versions == map[];
      forall e ensures t2[name := t2[name][key := t2[name][key][v := e]]] == Put(t, name, key, v, e) {
        assert t2[name][key := versions[v := e]] == level[key := versions[v := e]];
      }
    }
  }

  class PackageSource {
    /** The solver's synthetic root package (set up by `mixology`'s base class). */
    const root: string
    const rootVersion: Version
    var rootDependencies: seq<Dependency>
    var packages: Table

    /** Every second-level key of the table is an extras value, as `add` and `root_dep` build it. */
    predicate Valid()
      reads this
    {
      ExtrasKeyed(packages)
    }

    constructor (root: string)
      ensures this.root == root
      ensures rootVersion == Version(0, 0, 0) && rootDependencies == [] && packages == map[]
      ensures Valid()
    {
      this.root := root;
      rootVersion := Version(0, 0, 0);
      rootDependencies := [];
      packages := map[];
    }

    /** `add(name, extras, version, deps)`. */
    method Add(name: string, extras: Extras, version: string, deps: Option<seq<Package>>, parsers: Parsers) returns (outcome: Outcome<Error>)
      requires parsers.StarIsAny() && Valid()
      modifies this`packages
      ensures Valid()
      ensures AddTo(old(packages), name, extras, version, deps, parsers).Ok? ==>
        outcome == Pass && packages == AddTo(old(packages), name, extras, version, deps, parsers).value
      ensures AddTo(old(packages), name, extras, version, deps, parsers).Err? ==>
        outcome == Fail(AddTo(old(packages), name, extras, version, deps, parsers).error) && packages == old(packages)
    {
      var parsed := parsers.version(version);
      if parsed.None? {
        return Fail(InvalidVersion(version));
      }
      var v := parsed.value;
      var key := ExtrasKey(extras);
      if name !in packages {
        packages := packages[name := map[key := map[]]];
      }
      ghost var withName := packages;
      if key !in packages[name] {
        packages := packages[name := packages[name][key := map[]]];
      }
      CreateLevels(old(packages), withName, packages, name, key, v);
      if v in packages[name][key] && !(deps.None? || packages[name][key][v].None?) {
        return Fail(AlreadyExists(name, v));
      }
      if deps.None? {
        packages := packages[name := packages[name][key := packages[name][key][v := None]]];
      } else {
        var dependencies := [];
        for i := 0 to |deps.value|
          invariant dependencies == Unconstrained(deps.value[..i])
        {
          var d := NewDependency(deps.value[i], None, parsers);
          dependencies := dependencies + [d.value];
        }
        assert deps.value[..|deps.value|] == deps.value;
        packages := packages[name := packages[name][key := packages[name][key][v := Some(dependencies)]]];
      }
      AddKeepsExtrasKeyed(old(packages), name, extras, version, deps, parsers);
      outcome := Pass;
    }

    /** `root_dep(package, constraint)`, with `get_meta`'s answer passed in as `meta`. */
    method RootDep(package: Package, constraint: string, meta: Metadata, parsers: Parsers) returns (outcome: Outcome<Error>)
      requires parsers.StarIsAny() && Valid()
      modifies this`packages, this`rootDependencies
      ensures Valid()
      ensures Registration(packages, rootDependencies, outcome) ==
        RootRegistration(old(packages), old(rootDependencies), package, constraint, meta, parsers)
    {
      var dependency := NewDependency(package, Some(constraint), parsers);
      if dependency.Err? {
        return Fail(dependency.error);
      }
      rootDependencies := rootDependencies + [dependency.value];

      ghost var releasesDone := AddReleases(old(packages), package.name, package.extras, meta.releases, parsers);
      for i := 0 to |meta.releases|
        invariant AddReleases(packages, package.name, package.extras, meta.releases[i..], parsers) == releasesDone
        invariant rootDependencies == old(rootDependencies) + [dependency.value]
        invariant Valid()
      {
        assert meta.releases[i..][0] == meta.releases[i] && meta.releases[i..][1..] == meta.releases[i + 1..];
        var added := Add(package.name, package.extras, meta.releases[i], None, parsers);
        if added.Fail? {
          return added;
        }
      }
      assert meta.releases[|meta.releases|..] == [];

      var deps := [];
      for i := 0 to |meta.dependencies|
        invariant deps == RequiredPackages(Metadata(meta.releases, meta.dependencies[..i]))
      {
        deps := deps + [Package(meta.dependencies[i], NoExtras)];
      }
      assert meta.dependencies[..|meta.dependencies|] == meta.dependencies;
      outcome := Add(package.name, package.extras, constraint, Some(deps), parsers);
    }

    /**
     * `_versions_for(package, constraint)`: the keys at `_packages[package]`
     * that the constraint admits (all of them without a constraint), newest
     * first; `[]` for an unknown package. Testing or sorting an extras key
     * against a version raises.
     */
    method VersionsFor(package: string, constraint: Option<RangeSet>) returns (r: Result<seq<Key>, Error>)
      ensures package !in packages ==> r == Ok([])
      ensures package in packages && constraint.Some? ==> (r.Err? <==> HasExtrasKey(packages[package]))
      ensures package in packages && constraint.None? ==>
        (r.Err? <==> |packages[package]| >= 2 && HasExtrasKey(packages[package]))
      ensures r.Err? ==> r.error == Incomparable
      ensures r.Ok? ==> StrictlyDescending(r.value) && Distinct(r.value)
      ensures r.Ok? && package in packages ==>
        forall k :: k in r.value <==> k in packages[package] && Admitted(constraint, k)
    {
      if package !in packages {
        return Ok([]);
      }
      var collected := CollectAdmitted(packages[package], constraint);
      if collected.Err? {
        return collected;
      }
      var versions := collected.value;
      if |versions| <= 1 {
        r := Ok(versions);
      } else if exists i :: 0 <= i < |versions| && versions[i].ExtrasKey? {
        r := Err(Incomparable);
      } else {
        var sorted := SortDescending(versions);
        DescendingIsDistinct(sorted);
        r := Ok(sorted);
      }
    }

    /**
     * `dependencies_for(package, version)`: the root dependencies for the
     * root, otherwise `_packages[package][version]`, which raises when a key
     * is missing.
     */
    function DependenciesFor(package: string, version: Version): (r: Result<Lookup, Error>)
      reads this
      ensures package == root ==> r == Ok(RootDependencies(rootDependencies))
      ensures package != root ==>
        (r.Ok? <==> package in packages && VersionKey(version) in packages[package])
      ensures package != root && r.Ok? ==> r.value == StoredLevel(packages[package][VersionKey(version)])
      ensures package != root && Valid() ==> r == Err(MissingKey)
      ensures r.Err? ==> r.error == MissingKey
    {
      if package == root then Ok(RootDependencies(rootDependencies))
      else if package in packages && VersionKey(version) in packages[package] then
        Ok(StoredLevel(packages[package][VersionKey(version)]))
      else Err(MissingKey)
    }
  }
}
