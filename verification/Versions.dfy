/** Precedence of Semantic Versioning 2.0.0, items 10 and 11. */
module Versions {

  datatype PreId = Numeric(n: nat) | Alphanumeric(s: string)

  datatype Version = Version(major: nat, minor: nat, patch: nat, pre: seq<PreId>, build: string)

  /** ASCII order on identifiers, a proper prefix coming first. */
  predicate TextLess(a: string, b: string) {
    b != [] && (a == [] || a[0] < b[0] || (a[0] == b[0] && TextLess(a[1..], b[1..])))
  }

  predicate PreIdLess(a: PreId, b: PreId) {
    match (a, b)
    case (Numeric(m), Numeric(n)) => m < n
    case (Numeric(_), Alphanumeric(_)) => true
    case (Alphanumeric(_), Numeric(_)) => false
    case (Alphanumeric(s), Alphanumeric(t)) => TextLess(s, t)
  }

  /** Field by field; a longer list of identifiers wins when all before are equal. */
  predicate PreListLess(a: seq<PreId>, b: seq<PreId>) {
    b != [] && (a == [] || PreIdLess(a[0], b[0]) || (a[0] == b[0] && PreListLess(a[1..], b[1..])))
  }

  /** A pre-release comes before its release; build metadata is ignored. */
  predicate Less(a: Version, b: Version) {
    if a.major != b.major then a.major < b.major
    else if a.minor != b.minor then a.minor < b.minor
    else if a.patch != b.patch then a.patch < b.patch
    else if a.pre == [] || b.pre == [] then a.pre != [] && b.pre == []
    else PreListLess(a.pre, b.pre)
  }

  predicate LessEqual(a: Version, b: Version) {
    !Less(b, a)
  }

  lemma {:induction false} TextOrderTotal(a: string, b: string)
    ensures !(TextLess(a, b) && TextLess(b, a))
    ensures a == b || TextLess(a, b) || TextLess(b, a)
  {
    if a != [] && b != [] && a[0] == b[0] {
      TextOrderTotal(a[1..], b[1..]);
      assert a == [a[0]] + a[1..] && b == [b[0]] + b[1..];
    }
  }

  lemma {:induction false} PreListOrderTotal(a: seq<PreId>, b: seq<PreId>)
    ensures !(PreListLess(a, b) && PreListLess(b, a))
    ensures a == b || PreListLess(a, b) || PreListLess(b, a)
  {
    if a != [] && b != [] {
      if a[0].Alphanumeric? && b[0].Alphanumeric? {
        TextOrderTotal(a[0].s, b[0].s);
      }
      if a[0] == b[0] {
        PreListOrderTotal(a[1..], b[1..]);
        assert a == [a[0]] + a[1..] && b == [b[0]] + b[1..];
      }
    }
  }

  /** Precedence is total, and two versions of equal precedence differ at most
      in their build metadata. */
  lemma PrecedenceIsTotal(a: Version, b: Version)
    ensures LessEqual(a, b) || LessEqual(b, a)
    ensures LessEqual(a, b) && LessEqual(b, a) <==> a == b.(build := a.build)
  {
    PreListOrderTotal(a.pre, b.pre);
    PreListOrderTotal(a.pre, a.pre);
  }

  lemma {:induction false} TextOrderTransitive(a: string, b: string, c: string)
    requires TextLess(a, b) && TextLess(b, c)
    ensures TextLess(a, c)
  {
    if a != [] && a[0] == b[0] == c[0] {
      TextOrderTransitive(a[1..], b[1..], c[1..]);
    }
  }

  lemma PreIdOrder(a: PreId, b: PreId, c: PreId)
    ensures !PreIdLess(a, a) && !PreIdLess(b, b)
    ensures PreIdLess(a, b) && PreIdLess(b, c) ==> PreIdLess(a, c)
  {
    if a.Alphanumeric? { TextOrderTotal(a.s, a.s); }
    if b.Alphanumeric? { TextOrderTotal(b.s, b.s); }
    if PreIdLess(a, b) && PreIdLess(b, c) && a.Alphanumeric? {
      TextOrderTransitive(a.s, b.s, c.s);
    }
  }

  lemma {:induction false} PreListOrderTransitive(a: seq<PreId>, b: seq<PreId>, c: seq<PreId>)
    requires PreListLess(a, b) && PreListLess(b, c)
    ensures PreListLess(a, c)
  {
    if a != [] {
      PreIdOrder(a[0], b[0], c[0]);
      if a[0] == b[0] == c[0] {
        PreListOrderTransitive(a[1..], b[1..], c[1..]);
      }
    }
  }

  /** Precedence is transitive, strictly and not. */
  lemma PrecedenceIsTransitive(a: Version, b: Version, c: Version)
    ensures Less(a, b) && Less(b, c) ==> Less(a, c)
    ensures LessEqual(a, b) && LessEqual(b, c) ==> LessEqual(a, c)
  {
    PreListOrderTotal(a.pre, b.pre);
    PreListOrderTotal(b.pre, c.pre);
    PreListOrderTotal(a.pre, c.pre);
    if PreListLess(a.pre, b.pre) && PreListLess(b.pre, c.pre) { PreListOrderTransitive(a.pre, b.pre, c.pre); }
    if PreListLess(c.pre, a.pre) && PreListLess(a.pre, b.pre) { PreListOrderTransitive(c.pre, a.pre, b.pre); }
    if PreListLess(b.pre, c.pre) && PreListLess(c.pre, a.pre) { PreListOrderTransitive(b.pre, c.pre, a.pre); }
  }

  /** The text is an extension of the other, or smaller where they first differ. */
  ghost predicate TextBefore(a: string, b: string) {
    exists k :: 0 <= k <= |a| && k < |b| && a[..k] == b[..k] && (k == |a| || a[k] < b[k])
  }

  /** Numbers by value and before all else, other identifiers by their text. */
  ghost predicate IdBefore(a: PreId, b: PreId) {
    || (a.Numeric? && b.Numeric? && a.n < b.n)
    || (a.Numeric? && b.Alphanumeric?)
    || (a.Alphanumeric? && b.Alphanumeric? && TextBefore(a.s, b.s))
  }

  ghost predicate PreBefore(a: seq<PreId>, b: seq<PreId>) {
    exists k :: 0 <= k <= |a| && k < |b| && a[..k] == b[..k] && (k == |a| || IdBefore(a[k], b[k]))
  }

  lemma PrefixStep<T>(a: seq<T>, b: seq<T>, k: nat)
    requires 0 < k <= |a| && k <= |b|
    ensures a[..k] == b[..k] <==> a[0] == b[0] && a[1..][..k - 1] == b[1..][..k - 1]
  {
    assert a[..k] == [a[0]] + a[1..][..k - 1] && b[..k] == [b[0]] + b[1..][..k - 1];
  }

  /** The first difference of two texts is at the front, or that of what is behind it. */
  lemma TextBeforeStep(a: string, b: string)
    requires a != [] && b != []
    ensures TextBefore(a, b) <==> a[0] < b[0] || (a[0] == b[0] && TextBefore(a[1..], b[1..]))
  {
    if a[0] < b[0] { assert a[..0] == b[..0]; }
    if k :| 0 <= k <= |a| && k < |b| && a[..k] == b[..k] && (k == |a| || a[k] < b[k]) {
      if k > 0 {
        PrefixStep(a, b, k);
        assert 0 <= k - 1 <= |a[1..]|;
      }
    }
    if a[0] == b[0] && TextBefore(a[1..], b[1..]) {
      var k :| 0 <= k <= |a[1..]| && k < |b[1..]| && a[1..][..k] == b[1..][..k] &&
               (k == |a[1..]| || a[1..][k] < b[1..][k]);
      PrefixStep(a, b, k + 1);
    }
  }

  lemma {:induction false} TextLessIsBefore(a: string, b: string)
    ensures TextLess(a, b) <==> TextBefore(a, b)
  {
    if a == [] {
      if b != [] { assert a[..0] == b[..0]; }
    } else if b != [] {
      hide TextBefore;
      TextBeforeStep(a, b);
      TextLessIsBefore(a[1..], b[1..]);
    }
  }

  lemma PreIdLessIsBefore(a: PreId, b: PreId)
    ensures PreIdLess(a, b) <==> IdBefore(a, b)
  {
    if a.Alphanumeric? && b.Alphanumeric? { TextLessIsBefore(a.s, b.s); }
  }

  lemma PreBeforeStep(a: seq<PreId>, b: seq<PreId>)
    requires a != [] && b != [] && !IdBefore(a[0], a[0])
    ensures PreBefore(a, b) <==> IdBefore(a[0], b[0]) || (a[0] == b[0] && PreBefore(a[1..], b[1..]))
  {
    hide IdBefore;
    if IdBefore(a[0], b[0]) { assert a[..0] == b[..0]; }
    if k :| 0 <= k <= |a| && k < |b| && a[..k] == b[..k] && (k == |a| || IdBefore(a[k], b[k])) {
      if k > 0 {
        PrefixStep(a, b, k);
        assert 0 <= k - 1 <= |a[1..]|;
      }
    }
    if a[0] == b[0] && PreBefore(a[1..], b[1..]) {
      var k :| 0 <= k <= |a[1..]| && k < |b[1..]| && a[1..][..k] == b[1..][..k] &&
               (k == |a[1..]| || IdBefore(a[1..][k], b[1..][k]));
      PrefixStep(a, b, k + 1);
    }
  }

  lemma {:induction false} PreListLessIsBefore(a: seq<PreId>, b: seq<PreId>)
    ensures PreListLess(a, b) <==> PreBefore(a, b)
  {
    if a == [] {
      if b != [] { assert a[..0] == b[..0]; }
    } else if b != [] {
      hide PreBefore, IdBefore, PreIdLess;
      PreIdIrreflexive(a[0]);
      PreIdLessIsBefore(a[0], a[0]);
      PreIdLessIsBefore(a[0], b[0]);
      PreBeforeStep(a, b);
      PreListLessIsBefore(a[1..], b[1..]);
    }
  }

  lemma PreIdIrreflexive(a: PreId)
    ensures !PreIdLess(a, a)
  {
    if a.Alphanumeric? { TextOrderTotal(a.s, a.s); }
  }

  /** Versions are compared number by number; then a pre-release comes before its release,
      and two pre-releases are decided where their identifiers first differ. */
  lemma PrecedenceIs(a: Version, b: Version)
    ensures Less(a, b) <==>
      || a.major < b.major
      || (a.major == b.major && a.minor < b.minor)
      || (a.major == b.major && a.minor == b.minor && a.patch < b.patch)
      || (a.major == b.major && a.minor == b.minor && a.patch == b.patch &&
          a.pre != [] && (b.pre == [] || PreBefore(a.pre, b.pre)))
  {
    PreListLessIsBefore(a.pre, b.pre);
  }
}
