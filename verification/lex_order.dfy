/**
 * Python's `<` on `str`: lexicographic comparison by code point, where a
 * proper prefix sorts before the longer string. `list.sort()` orders the
 * source URLs by this relation.
 */
module LexOrder {

  /** `a < b` for Python strings. */
  predicate Less(a: string, b: string)
  {
    if |a| == 0 then |b| > 0
    else if |b| == 0 then false
    else if a[0] != b[0] then a[0] < b[0]
    else Less(a[1..], b[1..])
  }

  /** a is a proper prefix of b. */
  ghost predicate ProperPrefix(a: string, b: string)
  {
    |a| < |b| && a == b[..|a|]
  }

  /** a and b agree before position k, and there a has the smaller character. */
  ghost predicate DifferAt(a: string, b: string, k: int)
  {
    0 <= k < |a| && k < |b| && a[..k] == b[..k] && a[k] < b[k]
  }

  /**
   * The textbook statement of the same order: a is a proper prefix of b, or
   * at the first position where they differ a has the smaller character.
   */
  ghost predicate FirstDifferenceLess(a: string, b: string)
  {
    ProperPrefix(a, b) || exists k :: DifferAt(a, b, k)
  }

  /** With different first characters, the first difference is at position 0. */
  lemma FirstDifferenceAtHead(a: string, b: string)
    requires |a| > 0 && |b| > 0 && a[0] != b[0]
    ensures FirstDifferenceLess(a, b) <==> a[0] < b[0]
  {
    if |a| < |b| {
      assert a[0] != b[..|a|][0];
    }
    forall k | 0 < k < |a| && k < |b|
      ensures a[..k] != b[..k]
    {
      assert a[..k][0] != b[..k][0];
    }
    if a[0] < b[0] {
      assert DifferAt(a, b, 0);
    }
  }

  /** With equal first characters, the comparison moves on to the rest of both strings. */
  lemma FirstDifferenceAfterHead(a: string, b: string)
    requires |a| > 0 && |b| > 0 && a[0] == b[0]
    ensures FirstDifferenceLess(a, b) <==> FirstDifferenceLess(a[1..], b[1..])
  {
    var a', b' := a[1..], b[1..];
    assert a == [a[0]] + a';
    if |a| < |b| {
      assert b[..|a|] == [b[0]] + b'[..|a'|];
    }
    assert ProperPrefix(a, b) <==> ProperPrefix(a', b');
    forall k | 0 < k < |a| && k < |b|
      ensures DifferAt(a, b, k) <==> DifferAt(a', b', k - 1)
    {
      assert a[..k] == [a[0]] + a'[..k - 1];
      assert b[..k] == [b[0]] + b'[..k - 1];
    }
    assert !DifferAt(a, b, 0);
    if exists k :: DifferAt(a', b', k) {
      var k :| DifferAt(a', b', k);
      assert DifferAt(a, b, k + 1);
    }
    if exists k :: DifferAt(a, b, k) {
      var k :| DifferAt(a, b, k);
      assert DifferAt(a', b', k - 1);
    }
  }

  /** The recursive comparison and the first-difference statement agree on every pair of strings. */
  lemma {:induction false} LessIsFirstDifference(a: string, b: string)
    ensures Less(a, b) <==> FirstDifferenceLess(a, b)
  {
    if |a| == 0 {
      assert |b| > 0 ==> a == b[..0];
    } else if |b| == 0 {
    } else if a[0] != b[0] {
      FirstDifferenceAtHead(a, b);
    } else {
      LessIsFirstDifference(a[1..], b[1..]);
      FirstDifferenceAfterHead(a, b);
    }
  }

  lemma {:induction false} Irreflexive(a: string)
    ensures !Less(a, a)
  {
    if |a| > 0 {
      Irreflexive(a[1..]);
    }
  }

  lemma {:induction false} Asymmetric(a: string, b: string)
    ensures Less(a, b) ==> !Less(b, a)
  {
    if |a| > 0 && |b| > 0 && a[0] == b[0] {
      Asymmetric(a[1..], b[1..]);
    }
  }

  lemma {:induction false} Transitive(a: string, b: string, c: string)
    requires Less(a, b) && Less(b, c)
    ensures Less(a, c)
  {
    if |a| > 0 && a[0] == b[0] && b[0] == c[0] {
      Transitive(a[1..], b[1..], c[1..]);
    }
  }

  lemma {:induction false} Connected(a: string, b: string)
    ensures a == b || Less(a, b) || Less(b, a)
  {
    if |a| > 0 && |b| > 0 && a[0] == b[0] {
      Connected(a[1..], b[1..]);
      assert a == [a[0]] + a[1..] && b == [b[0]] + b[1..];
    }
  }

  /** `Less` is a strict total order on strings. */
  lemma StrictTotalOrder()
    ensures forall a :: !Less(a, a)
    ensures forall a, b :: Less(a, b) ==> !Less(b, a)
    ensures forall a, b, c :: Less(a, b) && Less(b, c) ==> Less(a, c)
    ensures forall a, b :: a == b || Less(a, b) || Less(b, a)
  {
    forall a | true
      ensures !Less(a, a)
    {
      Irreflexive(a);
    }
    forall a, b | true
      ensures Less(a, b) ==> !Less(b, a)
      ensures a == b || Less(a, b) || Less(b, a)
    {
      Asymmetric(a, b);
      Connected(a, b);
    }
    forall a, b, c | Less(a, b) && Less(b, c)
      ensures Less(a, c)
    {
      Transitive(a, b, c);
    }
  }
}
