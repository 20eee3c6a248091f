/** Go's order on strings: lexicographic. */
module Strings {
  predicate Less(a: string, b: string) {
    b != [] && (a == [] || a[0] < b[0] || (a[0] == b[0] && Less(a[1..], b[1..])))
  }

  /** `b` goes on after `a`, or is greater where they first differ. */
  ghost predicate FirstDiffers(a: string, b: string, k: nat) {
    && k <= |a| && k < |b| && a[..k] == b[..k]
    && (k == |a| || a[k] < b[k])
  }

  lemma {:induction false} LessExact(a: string, b: string)
    ensures Less(a, b) <==> exists k: nat :: FirstDiffers(a, b, k)
  {
    if b == [] || a == [] || a[0] < b[0] {
      if b != [] {
        assert FirstDiffers(a, b, 0);
      }
    } else if a[0] == b[0] {
      LessExact(a[1..], b[1..]);
      if Less(a[1..], b[1..]) {
        var k: nat :| FirstDiffers(a[1..], b[1..], k);
        assert a[..k + 1] == [a[0]] + a[1..][..k] && b[..k + 1] == [b[0]] + b[1..][..k];
        assert FirstDiffers(a, b, k + 1);
      }
      if exists k: nat :: FirstDiffers(a, b, k) {
        var k: nat :| FirstDiffers(a, b, k);
        assert a[1..][..k - 1] == a[..k][1..] && b[1..][..k - 1] == b[..k][1..];
        assert FirstDiffers(a[1..], b[1..], k - 1);
      }
    } else {
      forall k: nat ensures !FirstDiffers(a, b, k) {
        if 0 < k <= |a| && k <= |b| {
          assert a[..k][0] == a[0] && b[..k][0] == b[0];
        }
      }
    }
  }

  lemma {:induction false} LessIsStrict(a: string)
    ensures !Less(a, a)
  {
    if a != [] {
      LessIsStrict(a[1..]);
    }
  }

  lemma {:induction false} LessIsTransitive(a: string, b: string, c: string)
    requires Less(a, b) && Less(b, c)
    ensures Less(a, c)
  {
    if a != [] && a[0] == b[0] == c[0] {
      LessIsTransitive(a[1..], b[1..], c[1..]);
    }
  }

  lemma {:induction false} LessIsTotal(a: string, b: string)
    ensures Less(a, b) || a == b || Less(b, a)
  {
    if a != [] && b != [] && a[0] == b[0] {
      LessIsTotal(a[1..], b[1..]);
      assert a[1..] == b[1..] ==> a == [a[0]] + a[1..] == b;
    }
  }

  /** Not greater, then less. */
  lemma LessAfter(a: string, b: string, c: string)
    requires !Less(b, a) && Less(b, c)
    ensures Less(a, c)
  {
    LessIsTotal(a, b);
    if a != b {
      LessIsTransitive(a, b, c);
    }
  }

  lemma LessBefore(a: string, b: string, c: string)
    requires Less(a, b) && !Less(c, b)
    ensures Less(a, c)
  {
    LessIsTotal(b, c);
    if b != c {
      LessIsTransitive(a, b, c);
    }
  }

  lemma NotLessTrans(a: string, b: string, c: string)
    requires !Less(b, a) && !Less(c, b)
    ensures !Less(c, a)
  {
    if Less(c, a) {
      LessIsTotal(b, c);
      if Less(b, c) {
        LessIsTransitive(b, c, a);
      }
    }
  }
}
