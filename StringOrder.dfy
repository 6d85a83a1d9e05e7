/** The order JavaScript's relational operators put on strings, which lodash's
    `sortBy` and `orderBy` use to compare `title`, `server` and option values:
    plain lexicographic comparison, character by character. */
module StringOrder {

  /** `a < b` on strings: a proper prefix comes first, otherwise the first
      differing character decides. */
  predicate Less(a: string, b: string)
    decreases |a|
  {
    if |a| == 0 then |b| > 0
    else if |b| == 0 then false
    else a[0] < b[0] || (a[0] == b[0] && Less(a[1..], b[1..]))
  }

  /** `a <= b` on strings. */
  predicate LessEq(a: string, b: string)
  {
    a == b || Less(a, b)
  }

  /** A reference definition of the same order: `a` is a proper prefix of `b`,
      or the two agree up to some position `k` where `a` has the smaller
      character. */
  ghost predicate LessAt(a: string, b: string, k: nat)
  {
    k <= |a| && k <= |b| && a[..k] == b[..k] &&
    ((k == |a| && k < |b|) || (k < |a| && k < |b| && a[k] < b[k]))
  }

  lemma {:induction false} LessIffFirstDifference(a: string, b: string)
    ensures Less(a, b) <==> exists k: nat :: LessAt(a, b, k)
  {
    forall k: nat | LessAt(a, b, k)
      ensures Less(a, b)
    {
      LessAtIsLess(a, b, k);
    }
    if Less(a, b) {
      var k := LessWitness(a, b);
    }
  }

  /** `Less` gives a witness of the reference definition. */
  lemma {:induction false} LessWitness(a: string, b: string) returns (k: nat)
    requires Less(a, b)
    ensures LessAt(a, b, k)
    decreases |a|
  {
    if |a| == 0 || a[0] < b[0] {
      k := 0;
    } else {
      var j := LessWitness(a[1..], b[1..]);
      assert a[..j + 1] == [a[0]] + a[1..][..j];
      assert b[..j + 1] == [b[0]] + b[1..][..j];
      k := j + 1;
    }
  }

  /** A witness of the reference definition gives `Less`. */
  lemma {:induction false} LessAtIsLess(a: string, b: string, k: nat)
    requires LessAt(a, b, k)
    ensures Less(a, b)
  {
    if k > 0 {
      assert a[0] == a[..k][0] && b[0] == b[..k][0];
      assert a[1..][..k - 1] == a[..k][1..];
      assert b[1..][..k - 1] == b[..k][1..];
      LessAtIsLess(a[1..], b[1..], k - 1);
    }
  }

  lemma {:induction false} LessIrreflexive(a: string)
    ensures !Less(a, a)
    decreases |a|
  {
    if |a| > 0 {
      LessIrreflexive(a[1..]);
    }
  }

  lemma {:induction false} LessTransitive(a: string, b: string, c: string)
    requires Less(a, b) && Less(b, c)
    ensures Less(a, c)
    decreases |a|
  {
    if |a| > 0 && a[0] == b[0] && b[0] == c[0] {
      LessTransitive(a[1..], b[1..], c[1..]);
    }
  }

  /** Any two different strings are ordered one way or the other. */
  lemma {:induction false} LessTrichotomy(a: string, b: string)
    ensures Less(a, b) || a == b || Less(b, a)
    decreases |a|
  {
    if |a| > 0 && |b| > 0 && a[0] == b[0] {
      LessTrichotomy(a[1..], b[1..]);
      if a[1..] == b[1..] {
        assert a == [a[0]] + a[1..] && b == [b[0]] + b[1..];
      }
    }
  }

  lemma {:induction false} LessAsymmetric(a: string, b: string)
    requires Less(a, b)
    ensures !Less(b, a) && a != b
  {
    if Less(b, a) {
      LessTransitive(a, b, a);
      LessIrreflexive(a);
    }
    if a == b {
      LessIrreflexive(a);
    }
  }

  /** `<=` on strings is total and transitive. */
  lemma LessEqTotalOrder()
    ensures forall a, b :: LessEq(a, b) || LessEq(b, a)
    ensures forall a, b, c :: LessEq(a, b) && LessEq(b, c) ==> LessEq(a, c)
    ensures forall a, b :: LessEq(a, b) && LessEq(b, a) ==> a == b
  {
    forall a, b ensures LessEq(a, b) || LessEq(b, a) {
      LessTrichotomy(a, b);
    }
    forall a, b, c | LessEq(a, b) && LessEq(b, c) ensures LessEq(a, c) {
      if Less(a, b) && Less(b, c) {
        LessTransitive(a, b, c);
      }
    }
    forall a, b | LessEq(a, b) && LessEq(b, a) ensures a == b {
      if Less(a, b) {
        LessAsymmetric(a, b);
      }
    }
  }
}
