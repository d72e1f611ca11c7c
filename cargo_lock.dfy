/**
 * Looking up a package's version in the text of a Cargo.lock file. The
 * regular expression that pairs each `name = "…"` line with the
 * `version = "…"` line after it is not modelled: its matches are given, in
 * order, as a sequence of captures. Parsing a version string is a parameter.
 */
module CargoLock {
  import opened Wrappers
  import opened Semver

  /** One match of the lock-file pattern: a package name and its version text. */
  datatype Capture = Capture(name: string, version: string)

  /**
   * The version recorded for `packageName`: the parsed version text of the
   * first capture that names it, or nothing when no capture does.
   */
  function LockedVersion(packageName: string, captures: seq<Capture>, parse: string -> Option<Version>): Option<Version>
  {
    if |captures| == 0 then None
    else if captures[0].name == packageName then parse(captures[0].version)
    else LockedVersion(packageName, captures[1..], parse)
  }

  /** `find_version`: scan the captures, skip other packages, answer at the first match. */
  method FindVersion(packageName: string, captures: seq<Capture>, parse: string -> Option<Version>) returns (r: Option<Version>)
    ensures r == LockedVersion(packageName, captures, parse)
  {
    var i := 0;
    while i < |captures|
      invariant i <= |captures|
      invariant LockedVersion(packageName, captures[i..], parse) == LockedVersion(packageName, captures, parse)
    {
      if captures[i].name != packageName {
        i := i + 1;
        continue;
      }
      return parse(captures[i].version);
    }
    return None;
  }

  /** The answer is decided by the first capture naming the package, and is its parsed version. */
  lemma {:induction false} FirstMatchDecides(packageName: string, captures: seq<Capture>, parse: string -> Option<Version>, i: nat)
    requires i < |captures| && captures[i].name == packageName
    requires forall j | 0 <= j < i :: captures[j].name != packageName
    ensures LockedVersion(packageName, captures, parse) == parse(captures[i].version)
    decreases i
  {
    if i > 0 {
      FirstMatchDecides(packageName, captures[1..], parse, i - 1);
    }
  }

  /** When no capture names the package, nothing is found. */
  lemma {:induction false} NoMatchIsNone(packageName: string, captures: seq<Capture>, parse: string -> Option<Version>)
    requires forall c | c in captures :: c.name != packageName
    ensures LockedVersion(packageName, captures, parse) == None
    decreases |captures|
  {
    if |captures| > 0 {
      NoMatchIsNone(packageName, captures[1..], parse);
    }
  }

  /** Captures of other packages in front of the rest do not change the answer. */
  lemma {:induction false} OtherPackagesAreSkipped(packageName: string, others: seq<Capture>, captures: seq<Capture>, parse: string -> Option<Version>)
    requires forall c | c in others :: c.name != packageName
    ensures LockedVersion(packageName, others + captures, parse) == LockedVersion(packageName, captures, parse)
    decreases |others|
  {
    if |others| > 0 {
      assert others[0] in others;
      assert (others + captures)[0] == others[0];
      assert (others + captures)[1..] == others[1..] + captures;
      OtherPackagesAreSkipped(packageName, others[1..], captures, parse);
    } else {
      assert others + captures == captures;
    }
  }

  /**
   * A first match whose version text does not parse gives nothing, even when
   * a later capture of the same package would parse.
   */
  lemma UnparsableFirstMatchHidesLater(packageName: string, captures: seq<Capture>, parse: string -> Option<Version>, i: nat, j: nat)
    requires i < j < |captures|
    requires captures[i].name == packageName && captures[j].name == packageName
    requires forall k | 0 <= k < i :: captures[k].name != packageName
    requires parse(captures[i].version) == None && parse(captures[j].version).Some?
    ensures LockedVersion(packageName, captures, parse) == None
  {
    FirstMatchDecides(packageName, captures, parse, i);
  }

  /** When every package appears once, looking each one up gives its own version. */
  lemma DistinctPackagesFindOwnVersions(captures: seq<Capture>, parse: string -> Option<Version>)
    requires forall i, j | 0 <= i < j < |captures| :: captures[i].name != captures[j].name
    ensures forall i | 0 <= i < |captures| ::
      LockedVersion(captures[i].name, captures, parse) == parse(captures[i].version)
  {
  }

  /**
   * The source's `parse_cargo_lock_example`: a lock text whose first entries
   * are these four packages, whatever follows them.
   */
  lemma ParseCargoLockExample(rest: seq<Capture>, parse: string -> Option<Version>)
    requires parse("0.6.4") == Some(Version(0, 6, 4, []))
    requires parse("0.11.0") == Some(Version(0, 11, 0, []))
    requires parse("0.4.7") == Some(Version(0, 4, 7, []))
    requires parse("0.2.10") == Some(Version(0, 2, 10, []))
    ensures var captures := [
        Capture("aho-corasick", "0.6.4"),
        Capture("ansi_term", "0.11.0"),
        Capture("arrayvec", "0.4.7"),
        Capture("atty", "0.2.10")
      ] + rest;
      && LockedVersion("aho-corasick", captures, parse) == Some(Version(0, 6, 4, []))
      && LockedVersion("ansi_term", captures, parse) == Some(Version(0, 11, 0, []))
      && LockedVersion("arrayvec", captures, parse) == Some(Version(0, 4, 7, []))
      && LockedVersion("atty", captures, parse) == Some(Version(0, 2, 10, []))
  {
    var captures := [
        Capture("aho-corasick", "0.6.4"),
        Capture("ansi_term", "0.11.0"),
        Capture("arrayvec", "0.4.7"),
        Capture("atty", "0.2.10")
      ] + rest;
    FirstMatchDecides("arrayvec", captures, parse, 2);
    FirstMatchDecides("atty", captures, parse, 3);
  }
}
