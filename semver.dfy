/**
 * Semantic versions and their precedence, as `semver::Version` orders them:
 * major, then minor, then patch, then the pre-release identifiers
 * (section 11 of Semantic Versioning 2.0.0). The lemmas prove that this
 * precedence is a total order, which is what sorting and `<=` rely on.
 */
module Semver {

  /** Result of a three-way comparison, like Rust's `std::cmp::Ordering`. */
  datatype Ordering = Less | Equal | Greater {

    /** The comparison seen from the other side. */
    function Reverse(): Ordering {
      match this
      case Less => Greater
      case Equal => Equal
      case Greater => Less
    }

    /** Lexicographic chaining: `next` decides only when `this` is a tie. */
    function Then(next: Ordering): Ordering {
      if this == Equal then next else this
    }
  }

  /** A pre-release identifier: numeric ones sort below alphanumeric ones. */
  datatype Identifier = Numeric(n: nat) | AlphaNumeric(s: string)

  /** major.minor.patch with an optional list of pre-release identifiers. */
  datatype Version = Version(major: nat, minor: nat, patch: nat, pre: seq<Identifier>)

  /** `cmp` is a three-way comparison of a strict total order. */
  ghost predicate IsTotalOrder<T(!new)>(cmp: (T, T) -> Ordering) {
    && (forall x, y :: cmp(x, y) == Equal <==> x == y)
    && (forall x, y :: cmp(y, x) == cmp(x, y).Reverse())
    && (forall x, y, z :: cmp(x, y) == Less && cmp(y, z) == Less ==> cmp(x, z) == Less)
  }

  function CompareNat(a: nat, b: nat): Ordering {
    if a < b then Less else if a == b then Equal else Greater
  }

  function CompareChar(a: char, b: char): Ordering {
    if a < b then Less else if a == b then Equal else Greater
  }

  /** Lexicographic comparison of sequences; a proper prefix comes first. */
  function LexCompare<T>(a: seq<T>, b: seq<T>, cmp: (T, T) -> Ordering): Ordering
    decreases |a|
  {
    if |a| == 0 then (if |b| == 0 then Equal else Less)
    else if |b| == 0 then Greater
    else cmp(a[0], b[0]).Then(LexCompare(a[1..], b[1..], cmp))
  }

  function CompareIdentifier(x: Identifier, y: Identifier): Ordering {
    match (x, y)
    case (Numeric(m), Numeric(n)) => CompareNat(m, n)
    case (Numeric(_), AlphaNumeric(_)) => Less
    case (AlphaNumeric(_), Numeric(_)) => Greater
    case (AlphaNumeric(s), AlphaNumeric(t)) => LexCompare(s, t, CompareChar)
  }

  /** A version without pre-release identifiers ranks above every one with them. */
  function ComparePre(a: seq<Identifier>, b: seq<Identifier>): Ordering {
    if |a| == 0 && |b| == 0 then Equal
    else if |a| == 0 then Greater
    else if |b| == 0 then Less
    else LexCompare(a, b, CompareIdentifier)
  }

  /** Precedence of two versions. */
  function Compare(v: Version, w: Version): Ordering {
    CompareNat(v.major, w.major)
      .Then(CompareNat(v.minor, w.minor))
      .Then(CompareNat(v.patch, w.patch))
      .Then(ComparePre(v.pre, w.pre))
  }

  /** `v <= w` on versions. */
  predicate Le(v: Version, w: Version) {
    Compare(v, w) != Greater
  }

  /** `v < w` on versions. */
  predicate Lt(v: Version, w: Version) {
    Compare(v, w) == Less
  }

  lemma NatOrderIsTotal()
    ensures IsTotalOrder(CompareNat)
  {
  }

  lemma CharOrderIsTotal()
    ensures IsTotalOrder(CompareChar)
  {
  }

  lemma {:induction false} LexCompareEqual<T(!new)>(a: seq<T>, b: seq<T>, cmp: (T, T) -> Ordering)
    requires IsTotalOrder(cmp)
    ensures LexCompare(a, b, cmp) == Equal <==> a == b
    decreases |a|
  {
    if |a| > 0 && |b| > 0 {
      LexCompareEqual(a[1..], b[1..], cmp);
      assert a == [a[0]] + a[1..] && b == [b[0]] + b[1..];
    }
  }

  lemma {:induction false} LexCompareReverse<T(!new)>(a: seq<T>, b: seq<T>, cmp: (T, T) -> Ordering)
    requires IsTotalOrder(cmp)
    ensures LexCompare(b, a, cmp) == LexCompare(a, b, cmp).Reverse()
    decreases |a|
  {
    if |a| > 0 && |b| > 0 {
      LexCompareReverse(a[1..], b[1..], cmp);
    }
  }

  lemma {:induction false} LexCompareTransitive<T(!new)>(a: seq<T>, b: seq<T>, c: seq<T>, cmp: (T, T) -> Ordering)
    requires IsTotalOrder(cmp)
    requires LexCompare(a, b, cmp) == Less && LexCompare(b, c, cmp) == Less
    ensures LexCompare(a, c, cmp) == Less
    decreases |a|
  {
    if |a| > 0 {
      assert |b| > 0 && |c| > 0;
      if cmp(a[0], b[0]) == Equal && cmp(b[0], c[0]) == Equal {
        LexCompareTransitive(a[1..], b[1..], c[1..], cmp);
      }
    }
  }

  lemma IdentifierOrderIsTotal()
    ensures IsTotalOrder(CompareIdentifier)
  {
    CharOrderIsTotal();
    forall x: Identifier, y: Identifier
      ensures (CompareIdentifier(x, y) == Equal <==> x == y)
      ensures CompareIdentifier(y, x) == CompareIdentifier(x, y).Reverse()
    {
      if x.AlphaNumeric? && y.AlphaNumeric? {
        LexCompareEqual(x.s, y.s, CompareChar);
        LexCompareReverse(x.s, y.s, CompareChar);
      }
    }
    forall x: Identifier, y: Identifier, z: Identifier
      | CompareIdentifier(x, y) == Less && CompareIdentifier(y, z) == Less
      ensures CompareIdentifier(x, z) == Less
    {
      if x.AlphaNumeric? && y.AlphaNumeric? && z.AlphaNumeric? {
        LexCompareTransitive(x.s, y.s, z.s, CompareChar);
      }
    }
  }

  lemma PreOrderIsTotal()
    ensures IsTotalOrder(ComparePre)
  {
    IdentifierOrderIsTotal();
    forall a: seq<Identifier>, b: seq<Identifier>
      ensures (ComparePre(a, b) == Equal <==> a == b)
      ensures ComparePre(b, a) == ComparePre(a, b).Reverse()
    {
      LexCompareEqual(a, b, CompareIdentifier);
      LexCompareReverse(a, b, CompareIdentifier);
    }
    forall a: seq<Identifier>, b: seq<Identifier>, c: seq<Identifier>
      | ComparePre(a, b) == Less && ComparePre(b, c) == Less
      ensures ComparePre(a, c) == Less
    {
      if |a| > 0 && |b| > 0 && |c| > 0 {
        LexCompareTransitive(a, b, c, CompareIdentifier);
      }
    }
  }

  /** Version precedence is a strict total order. */
  lemma VersionOrderIsTotal()
    ensures IsTotalOrder(Compare)
  {
    NatOrderIsTotal();
    PreOrderIsTotal();
  }

  /** `Le` is a total order: total, antisymmetric and transitive. */
  lemma LeIsTotalOrder()
    ensures forall v, w :: Le(v, w) || Le(w, v)
    ensures forall v, w :: Le(v, w) && Le(w, v) ==> v == w
    ensures forall u, v, w :: Le(u, v) && Le(v, w) ==> Le(u, w)
  {
    VersionOrderIsTotal();
  }

  /** `Lt` is the strict part of `Le`. */
  lemma LtIsStrictLe(v: Version, w: Version)
    ensures Lt(v, w) <==> !Le(w, v)
  {
    VersionOrderIsTotal();
  }

  /** The precedence chain given as an example in section 11.4 of Semantic Versioning 2.0.0. */
  lemma PrecedenceExample()
    ensures Lt(Version(1, 0, 0, [AlphaNumeric("alpha")]), Version(1, 0, 0, [AlphaNumeric("alpha"), Numeric(1)]))
    ensures Lt(Version(1, 0, 0, [AlphaNumeric("alpha"), Numeric(1)]), Version(1, 0, 0, [AlphaNumeric("alpha"), AlphaNumeric("beta")]))
    ensures Lt(Version(1, 0, 0, [AlphaNumeric("alpha"), AlphaNumeric("beta")]), Version(1, 0, 0, [AlphaNumeric("beta")]))
    ensures Lt(Version(1, 0, 0, [AlphaNumeric("beta")]), Version(1, 0, 0, [AlphaNumeric("beta"), Numeric(2)]))
    ensures Lt(Version(1, 0, 0, [AlphaNumeric("beta"), Numeric(2)]), Version(1, 0, 0, [AlphaNumeric("beta"), Numeric(11)]))
    ensures Lt(Version(1, 0, 0, [AlphaNumeric("beta"), Numeric(11)]), Version(1, 0, 0, [AlphaNumeric("rc"), Numeric(1)]))
    ensures Lt(Version(1, 0, 0, [AlphaNumeric("rc"), Numeric(1)]), Version(1, 0, 0, []))
  {
  }
}
