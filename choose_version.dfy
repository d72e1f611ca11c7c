/**
 * Release selection (`choose_version_by_key`): keep the items whose key is
 * a version not above the main version, rank them from greatest version to
 * least, and return the head, or nothing when no item is left.
 */
module ChooseVersion {
  import opened Wrappers
  import opened Semver

  /** An item may be chosen: its key is a version not above `mainVersion`. */
  ghost predicate Eligible<T>(mainVersion: Version, key: T -> Option<Version>, x: T) {
    key(x).Some? && Le(key(x).value, mainVersion)
  }

  /**
   * What the source promises of its result: nothing exactly when no item is
   * eligible, and otherwise an eligible item of the input whose version is at
   * least that of every eligible item. Which of several items of equal
   * version is returned is left open, as an unstable sort leaves it.
   */
  ghost predicate IsBestChoice<T>(mainVersion: Version, items: seq<T>, key: T -> Option<Version>, chosen: Option<T>) {
    match chosen
    case None => forall x | x in items :: !Eligible(mainVersion, key, x)
    case Some(x) =>
      && x in items
      && Eligible(mainVersion, key, x)
      && forall y | y in items && Eligible(mainVersion, key, y) :: Le(key(y).value, key(x).value)
  }

  /**
   * The map/filter/collect pipeline: each item paired with its version.
   * Every kept pair is eligible and every eligible item is kept.
   */
  function Filtered<T>(mainVersion: Version, items: seq<T>, key: T -> Option<Version>): (r: seq<(T, Version)>)
    ensures |r| <= |items|
    ensures forall k | 0 <= k < |r| ::
      r[k].0 in items && key(r[k].0) == Some(r[k].1) && Le(r[k].1, mainVersion)
    ensures forall x | x in items && Eligible(mainVersion, key, x) ::
      exists k :: 0 <= k < |r| && r[k].0 == x
  {
    if |items| == 0 then []
    else
      var rest := Filtered(mainVersion, items[1..], key);
      match key(items[0])
      case Some(v) =>
        if Le(v, mainVersion) then
          var r := [(items[0], v)] + rest;
          assert forall x | x in items[1..] && Eligible(mainVersion, key, x) :: exists k :: 0 <= k < |r| && r[k].0 == x by {
            forall x | x in items[1..] && Eligible(mainVersion, key, x) ensures exists k :: 0 <= k < |r| && r[k].0 == x {
              var k :| 0 <= k < |rest| && rest[k].0 == x;
              assert r[k + 1].0 == x;
            }
          }
          assert r[0].0 == items[0];
          r
        else rest
      case None => rest
  }

  /** `s` is ordered from greatest version to least, as `sort_unstable_by` leaves it. */
  ghost predicate SortedDescending<T>(s: seq<(T, Version)>) {
    forall k | 0 <= k < |s| - 1 :: Le(s[k + 1].1, s[k].1)
  }

  lemma {:induction false} HeadOfDescendingIsMaximum<T>(s: seq<(T, Version)>, k: nat)
    requires SortedDescending(s)
    requires k < |s|
    ensures Le(s[k].1, s[0].1)
    decreases k
  {
    LeIsTotalOrder();
    if k > 0 {
      HeadOfDescendingIsMaximum(s, k - 1);
    }
  }

  /**
   * The source's own mechanism is sound: whatever order an unstable sort
   * leaves equal versions in, the head of any descending arrangement of the
   * filtered items is a best choice.
   */
  lemma SortedHeadIsBestChoice<T>(mainVersion: Version, items: seq<T>, key: T -> Option<Version>, sorted: seq<(T, Version)>)
    requires multiset(sorted) == multiset(Filtered(mainVersion, items, key))
    requires SortedDescending(sorted)
    ensures |sorted| == 0 ==> IsBestChoice(mainVersion, items, key, None)
    ensures |sorted| > 0 ==> IsBestChoice(mainVersion, items, key, Some(sorted[0].0))
  {
    var filtered := Filtered(mainVersion, items, key);
    if |sorted| == 0 {
      assert |filtered| == 0 by {
        assert |multiset(filtered)| == |filtered|;
      }
    } else {
      assert sorted[0] in multiset(filtered);
      forall y | y in items && Eligible(mainVersion, key, y)
        ensures Le(key(y).value, key(sorted[0].0).value)
      {
        var k :| 0 <= k < |filtered| && filtered[k].0 == y;
        assert filtered[k] in multiset(sorted);
        var j :| 0 <= j < |sorted| && sorted[j] == filtered[k];
        HeadOfDescendingIsMaximum(sorted, j);
      }
    }
  }

  /** Two best choices agree on whether there is one, and on its version. */
  lemma BestChoiceVersionIsUnique<T>(mainVersion: Version, items: seq<T>, key: T -> Option<Version>, c: Option<T>, d: Option<T>)
    requires IsBestChoice(mainVersion, items, key, c)
    requires IsBestChoice(mainVersion, items, key, d)
    ensures c.None? <==> d.None?
    ensures c.Some? && d.Some? ==> key(c.value) == key(d.value)
  {
    LeIsTotalOrder();
  }

  /**
   * `choose_version_by_key`. The source sorts the filtered items in place from
   * greatest version to least and removes the head; this scans them once for
   * a greatest version, which picks an item whose version equals that of
   * the sorted head.
   */
  method ChooseVersionByKey<T>(mainVersion: Version, items: seq<T>, key: T -> Option<Version>) returns (chosen: Option<T>)
    requires |items| > 0
    ensures IsBestChoice(mainVersion, items, key, chosen)
  {
    var filtered := Filtered(mainVersion, items, key);
    if |filtered| == 0 {
      return None;
    }
    LeIsTotalOrder();
    var best := 0;
    for i := 1 to |filtered|
      invariant best < |filtered|
      invariant forall j | 0 <= j < i :: Le(filtered[j].1, filtered[best].1)
    {
      LtIsStrictLe(filtered[best].1, filtered[i].1);
      if Lt(filtered[best].1, filtered[i].1) {
        best := i;
      }
    }
    chosen := Some(filtered[best].0);
    forall y | y in items && Eligible(mainVersion, key, y)
      ensures Le(key(y).value, key(filtered[best].0).value)
    {
      var k :| 0 <= k < |filtered| && filtered[k].0 == y;
    }
  }

  // The unit tests of the source, with `Version::parse` as a parameter that
  // is only constrained on the strings the tests use.

  /** Main 0.3.1 with 0.2.0 and 0.3.0: the greatest version below is chosen. */
  lemma ChoosesLatest(parse: string -> Option<Version>, chosen: Option<string>)
    requires parse("0.2.0") == Some(Version(0, 2, 0, []))
    requires parse("0.3.0") == Some(Version(0, 3, 0, []))
    requires IsBestChoice(Version(0, 3, 1, []), ["0.2.0", "0.3.0"], parse, chosen)
    ensures chosen == Some("0.3.0")
  {
    var items := ["0.2.0", "0.3.0"];
    assert items[1] in items;
  }

  /** Main 0.3.1 with 0.2.0, 0.3.0, 0.3.1 and 0.5.2: the exact match beats lower and higher versions. */
  lemma PicksMatchingIfPossible(parse: string -> Option<Version>, chosen: Option<string>)
    requires parse("0.2.0") == Some(Version(0, 2, 0, []))
    requires parse("0.3.0") == Some(Version(0, 3, 0, []))
    requires parse("0.3.1") == Some(Version(0, 3, 1, []))
    requires parse("0.5.2") == Some(Version(0, 5, 2, []))
    requires IsBestChoice(Version(0, 3, 1, []), ["0.2.0", "0.3.0", "0.3.1", "0.5.2"], parse, chosen)
    ensures chosen == Some("0.3.1")
  {
    var items := ["0.2.0", "0.3.0", "0.3.1", "0.5.2"];
    assert items[2] in items;
  }

  /** Main 0.1.1 with 0.2.0, 0.3.0, 0.3.1 and 0.5.2: every version is above, so nothing is chosen. */
  lemma NoMatching(parse: string -> Option<Version>, chosen: Option<string>)
    requires parse("0.2.0") == Some(Version(0, 2, 0, []))
    requires parse("0.3.0") == Some(Version(0, 3, 0, []))
    requires parse("0.3.1") == Some(Version(0, 3, 1, []))
    requires parse("0.5.2") == Some(Version(0, 5, 2, []))
    requires IsBestChoice(Version(0, 1, 1, []), ["0.2.0", "0.3.0", "0.3.1", "0.5.2"], parse, chosen)
    ensures chosen == None
  {
  }

  /** An item whose key is absent is skipped, never chosen and never an error. */
  lemma SkipsUnparsable(parse: string -> Option<Version>, chosen: Option<string>)
    requires parse("not-a-version") == None
    requires parse("0.3.0") == Some(Version(0, 3, 0, []))
    requires IsBestChoice(Version(0, 3, 1, []), ["not-a-version", "0.3.0"], parse, chosen)
    ensures chosen == Some("0.3.0")
  {
    var items := ["not-a-version", "0.3.0"];
    assert items[1] in items;
  }
}
