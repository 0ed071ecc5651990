/**
 * Object keys and their order. A key is a string of Unicode characters; SQLite's byte order on it is the
 * order by code point.
 */
module KeyOrder {

  /** The strict lexicographic order. */
  predicate Less(a: string, b: string) {
    b != [] && (a == [] || a[0] < b[0] || (a[0] == b[0] && Less(a[1..], b[1..])))
  }

  /** a and b agree up to place k, and there a ends or has the smaller character. */
  predicate SmallerAt(a: string, b: string, k: int) {
    && 0 <= k <= |a| && k < |b| && a[..k] == b[..k]
    && (k < |a| ==> a[k] as int < b[k] as int)
  }

  /** That is the order: a proper prefix comes first, and otherwise the smaller first difference. */
  lemma {:induction false} LessMeans(a: string, b: string)
    ensures Less(a, b) <==> exists k :: SmallerAt(a, b, k)
  {
    if b == [] {
    } else if a == [] || a[0] < b[0] {
      assert SmallerAt(a, b, 0);
    } else if a[0] == b[0] {
      LessMeans(a[1..], b[1..]);
      assert a == [a[0]] + a[1..] && b == [b[0]] + b[1..];
      if k :| SmallerAt(a[1..], b[1..], k) {
        assert a[..k + 1] == [a[0]] + a[1..][..k] && b[..k + 1] == [b[0]] + b[1..][..k];
        assert SmallerAt(a, b, k + 1);
      }
      if k :| SmallerAt(a, b, k) {
        assert k > 0;
        assert a[1..][..k - 1] == a[..k][1..] && b[1..][..k - 1] == b[..k][1..];
        assert SmallerAt(a[1..], b[1..], k - 1);
      }
    } else {
      if k :| SmallerAt(a, b, k) {
        SmallerHead(a, b, k);
      }
    }
  }

  lemma SmallerHead(a: string, b: string, k: int)
    requires SmallerAt(a, b, k) && a != []
    ensures a[0] as int <= b[0] as int
  {
    if k > 0 {
      assert a[..k][0] == b[..k][0];
    }
  }

  lemma {:induction false} LessIrreflexive(a: string)
    ensures !Less(a, a)
  {
    if a != [] {
      LessIrreflexive(a[1..]);
    }
  }

  lemma {:induction false} LessTransitive(a: string, b: string, c: string)
    requires Less(a, b) && Less(b, c)
    ensures Less(a, c)
  {
    if a != [] && a[0] == b[0] == c[0] {
      LessTransitive(a[1..], b[1..], c[1..]);
    }
  }

  lemma LessAsymmetric(a: string, b: string)
    requires Less(a, b)
    ensures !Less(b, a)
  {
    if Less(b, a) {
      LessTransitive(a, b, a);
      LessIrreflexive(a);
    }
  }

  /** Keys with a common prefix are contiguous: whatever lies between them has it too. */
  lemma {:induction false} PrefixBetween(p: string, a: string, b: string, c: string)
    requires p <= a && p <= c && Less(a, b) && Less(b, c)
    ensures p <= b
  {
    if p != [] {
      assert p[1..] <= a[1..] && p[1..] <= c[1..];
      PrefixBetween(p[1..], a[1..], b[1..], c[1..]);
      assert p == [p[0]] + p[1..] && b == [b[0]] + b[1..];
    }
  }

  /** Two strings neither of which extends the other are ordered as any of their extensions. */
  lemma {:induction false} LessByDifference(p: string, q: string, a: string, c: string)
    requires p <= a && q <= c && Less(a, c) && !(p <= q) && !(q <= p)
    ensures Less(p, q)
  {
    assert p != [] && q != [];
    if p[0] == q[0] {
      assert p == [p[0]] + p[1..] && q == [q[0]] + q[1..];
      LessByDifference(p[1..], q[1..], a[1..], c[1..]);
    }
  }

  ghost predicate Ascending(keys: seq<string>) {
    forall i, j :: 0 <= i < j < |keys| ==> Less(keys[i], keys[j])
  }

  lemma AscendingTail(keys: seq<string>, k: nat)
    requires Ascending(keys) && k <= |keys|
    ensures Ascending(keys[k..])
  {
    forall i, j | 0 <= i < j < |keys[k..]|
      ensures Less(keys[k..][i], keys[k..][j])
    {
      assert keys[k..][i] == keys[k + i] && keys[k..][j] == keys[k + j];
    }
  }
}
