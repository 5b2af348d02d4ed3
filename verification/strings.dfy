/** Substring facts shared by the URL matchers and the scanner's pre-filter, and lists of links seen as sets. */
module Strings {

  /** `t` occurs in `s` starting at index `i`. */
  predicate StartsAt(s: string, i: nat, t: string) {
    i + |t| <= |s| && s[i..i + |t|] == t
  }

  /** Python's `t in s` for strings: `t` occurs somewhere in `s`. */
  predicate Contains(s: string, t: string) {
    exists i: nat | i <= |s| :: StartsAt(s, i, t)
  }

  /** An occurrence of `t` inside the slice `s[a..b]` is an occurrence in `s`. */
  lemma StartsAtSlice(s: string, a: nat, b: nat, i: nat, t: string)
    requires a <= i && i + |t| <= b <= |s|
    ensures StartsAt(s[a..b], i - a, t) <==> StartsAt(s, i, t)
  {
    var x, y := s[a..b][i - a..i - a + |t|], s[i..i + |t|];
    forall k | 0 <= k < |t|
      ensures x[k] == y[k]
    {
    }
    assert x == y;
  }

  /** The links a list holds, as Python's `set(list)`. */
  function Elements(xs: seq<string>): set<string> {
    set x | x in xs
  }

  /** Appending a link adds it to the set; appending a new one keeps the list free of repeats. */
  lemma ElementsAppend(xs: seq<string>, x: string)
    ensures Elements(xs + [x]) == Elements(xs) + {x}
    ensures Distinct(xs) && x !in Elements(xs) ==> Distinct(xs + [x])
  {
    var ys := xs + [x];
    assert forall k :: 0 <= k < |xs| ==> ys[k] == xs[k];
    assert ys[|xs|] == x;
  }

  /** No link appears twice in the list. */
  predicate Distinct(xs: seq<string>) {
    forall i, j :: 0 <= i < j < |xs| ==> xs[i] != xs[j]
  }

  /** A list without repeats has as many elements as its set. */
  lemma {:induction false} DistinctCardinality(xs: seq<string>)
    requires Distinct(xs)
    ensures |Elements(xs)| == |xs|
    decreases |xs|
  {
    if xs != [] {
      var rest := xs[1..];
      assert Distinct(rest) by {
        forall i, j | 0 <= i < j < |rest|
          ensures rest[i] != rest[j]
        {
          assert rest[i] == xs[i + 1] && rest[j] == xs[j + 1];
        }
      }
      DistinctCardinality(rest);
      assert Elements(xs) == {xs[0]} + Elements(rest);
      assert xs[0] !in Elements(rest) by {
        forall j | 0 <= j < |rest|
          ensures rest[j] != xs[0]
        {
          assert rest[j] == xs[j + 1];
        }
      }
    }
  }
}
