/**
 * Order-preserving selection from a sequence: the shape shared by the
 * grouping of parse_mappings (records of one fragment, in file order) and
 * by the quality pass of filter_hits (passing records, in list order).
 */
module Subsequences {

  /** The elements of `s` that satisfy `p`, in their original order.
      Defined from the back so that a loop over a prefix extends it. */
  function Keep<T>(s: seq<T>, p: T -> bool): (r: seq<T>)
    ensures |r| <= |s|
    ensures forall x :: x in r ==> p(x)
    decreases |s|
  {
    if s == [] then []
    else Keep(s[..|s| - 1], p) + (if p(s[|s| - 1]) then [s[|s| - 1]] else [])
  }

  /** Appending one element extends the selection by it when it is selected. */
  lemma KeepSnoc<T>(s: seq<T>, x: T, p: T -> bool)
    ensures Keep(s + [x], p) == Keep(s, p) + (if p(x) then [x] else [])
  {
    assert (s + [x])[..|s|] == s;
  }

  /** `a` can be obtained from `b` by deleting elements. */
  predicate IsSubsequence<T(==)>(a: seq<T>, b: seq<T>)
    decreases |b|
  {
    if a == [] then true
    else if b == [] then false
    else if a[|a| - 1] == b[|b| - 1] then IsSubsequence(a[..|a| - 1], b[..|b| - 1])
    else IsSubsequence(a, b[..|b| - 1])
  }

  lemma {:induction false} KeepIsSubsequence<T>(s: seq<T>, p: T -> bool)
    ensures IsSubsequence(Keep(s, p), s)
    decreases |s|
  {
    if s != [] {
      var init := s[..|s| - 1];
      KeepIsSubsequence(init, p);
      var k := Keep(init, p);
      if p(s[|s| - 1]) {
        assert Keep(s, p)[..|Keep(s, p)| - 1] == k;
      } else if k != [] {
        // every kept element satisfies p, the dropped last one does not
        assert k[|k| - 1] in k;
        assert k[|k| - 1] != s[|s| - 1];
        assert Keep(s, p) == k + [];
        assert k + [] == k;
        assert s[..|s| - 1] == init;
        assert IsSubsequence(k, s);
      }
    }
  }

  /** An element is kept exactly when it occurs in `s` and satisfies `p`. */
  lemma {:induction false} KeepMembership<T>(s: seq<T>, p: T -> bool, x: T)
    ensures x in Keep(s, p) <==> x in s && p(x)
    decreases |s|
  {
    if s != [] {
      var init := s[..|s| - 1];
      KeepMembership(init, p, x);
      assert s == init + [s[|s| - 1]];
    }
  }

  /** Keep distributes over concatenation. */
  lemma {:induction false} KeepAppend<T>(a: seq<T>, b: seq<T>, p: T -> bool)
    ensures Keep(a + b, p) == Keep(a, p) + Keep(b, p)
    decreases |b|
  {
    if b == [] {
      assert a + b == a;
    } else {
      var binit := b[..|b| - 1];
      assert (a + b)[..|a + b| - 1] == a + binit;
      KeepAppend(a, binit, p);
    }
  }

  /** Selecting twice with the same predicate selects nothing more. */
  lemma {:induction false} KeepIdempotent<T>(s: seq<T>, p: T -> bool)
    ensures Keep(Keep(s, p), p) == Keep(s, p)
    decreases |s|
  {
    if s != [] {
      var init := s[..|s| - 1];
      var last := s[|s| - 1];
      KeepIdempotent(init, p);
      KeepAppend(Keep(init, p), if p(last) then [last] else [], p);
      if p(last) {
        assert Keep([last], p) == Keep([], p) + [last];
      }
    }
  }
}
