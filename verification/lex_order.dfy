/** The order Python's `sorted` uses on `str` values: lexicographic comparison
    of code points, where a proper prefix comes first. Dafny's own `<` on
    sequences means "proper prefix", so the order is defined here. */
module LexOrder {
  import opened Text

  /** `a <= b` on Python strings. */
  predicate LexLe(a: string, b: string)
    decreases |a|
  {
    || |a| == 0
    || (&& |b| > 0
        && (|| a[0] < b[0]
            || (a[0] == b[0] && LexLe(a[1..], b[1..]))))
  }

  /** `a` and `b` agree before position `k`, and at `k` the code point of `a`
      is the smaller one. */
  ghost predicate FirstDifferenceBelow(a: string, b: string, k: int) {
    0 <= k < |a| && k < |b| && a[..k] == b[..k] && a[k] < b[k]
  }

  /** The textbook definition of the order: `a` is a prefix of `b`, or at the
      first position where they differ `a` has the smaller code point. */
  lemma {:induction false} LexLeCharacterization(a: string, b: string)
    ensures LexLe(a, b) <==> StartsWith(b, a) || exists k :: FirstDifferenceBelow(a, b, k)
    decreases |a|
  {
    if |a| == 0 {
    } else if |b| == 0 {
      assert !StartsWith(b, a);
      assert forall k :: !FirstDifferenceBelow(a, b, k);
    } else if a[0] < b[0] {
      assert FirstDifferenceBelow(a, b, 0);
    } else if a[0] > b[0] {
      assert !StartsWith(b, a);
      assert forall k :: !FirstDifferenceBelow(a, b, k);
    } else {
      var a', b' := a[1..], b[1..];
      LexLeCharacterization(a', b');
      assert a == [a[0]] + a' && b == [b[0]] + b';
      if StartsWith(b', a') {
        assert b[..|a|] == [b[0]] + b'[..|a'|];
      }
      if StartsWith(b, a) {
        assert b'[..|a'|] == b[..|a|][1..];
      }
      if k' :| FirstDifferenceBelow(a', b', k') {
        assert a[..k' + 1] == [a[0]] + a'[..k'];
        assert b[..k' + 1] == [b[0]] + b'[..k'];
        assert FirstDifferenceBelow(a, b, k' + 1);
      }
      if k :| FirstDifferenceBelow(a, b, k) {
        assert k > 0;
        assert a'[..k - 1] == a[..k][1..] && b'[..k - 1] == b[..k][1..];
        assert FirstDifferenceBelow(a', b', k - 1);
      }
    }
  }

  lemma {:induction false} LexLeReflexive(a: string)
    ensures LexLe(a, a)
    decreases |a|
  {
    if |a| > 0 {
      LexLeReflexive(a[1..]);
    }
  }

  lemma {:induction false} LexLeAntisymmetric(a: string, b: string)
    requires LexLe(a, b) && LexLe(b, a)
    ensures a == b
    decreases |a|
  {
    if |a| > 0 {
      LexLeAntisymmetric(a[1..], b[1..]);
      assert a == [a[0]] + a[1..] && b == [b[0]] + b[1..];
    }
  }

  lemma {:induction false} LexLeTransitive(a: string, b: string, c: string)
    requires LexLe(a, b) && LexLe(b, c)
    ensures LexLe(a, c)
    decreases |a|
  {
    if |a| > 0 && a[0] == b[0] && b[0] == c[0] {
      LexLeTransitive(a[1..], b[1..], c[1..]);
    }
  }

  lemma {:induction false} LexLeTotal(a: string, b: string)
    ensures LexLe(a, b) || LexLe(b, a)
    decreases |a|
  {
    if |a| > 0 && |b| > 0 && a[0] == b[0] {
      LexLeTotal(a[1..], b[1..]);
    }
  }

  /** Code-point order is not alphabetical order: upper-case letters come
      before lower-case ones, and digits before letters. */
  lemma CodePointNotAlphabetical()
    ensures LexLe("Z", "a") && !LexLe("a", "Z")
    ensures LexLe("gpt-4", "gpt-a") && !LexLe("gpt-a", "gpt-4")
  {
  }
}
