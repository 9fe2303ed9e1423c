/** List helpers of the scraper: order-sensitive equality of link lists and the
    "links of a not in b" difference used for the reported link delta. */
module Slices {

  /** The elements of `a` that do not occur in `b`, in `a`'s order, duplicates of `a` kept. */
  function Minus(a: seq<string>, b: seq<string>): seq<string>
  {
    if |a| == 0 then []
    else Minus(a[..|a| - 1], b) + (if a[|a| - 1] in b then [] else [a[|a| - 1]])
  }

  /** `s` can be obtained from `t` by deleting elements. */
  ghost predicate IsSubsequence(s: seq<string>, t: seq<string>)
    decreases |t|
  {
    if |s| == 0 then true
    else if |t| == 0 then false
    else (s[|s| - 1] == t[|t| - 1] && IsSubsequence(s[..|s| - 1], t[..|t| - 1]))
         || IsSubsequence(s, t[..|t| - 1])
  }

  /** stringSlicesEqual: equal length and equal position by position. */
  method StringSlicesEqual(a: seq<string>, b: seq<string>) returns (equal: bool)
    ensures equal <==> |a| == |b| && forall i :: 0 <= i < |a| ==> a[i] == b[i]
    ensures equal <==> a == b
  {
    if |a| != |b| {
      return false;
    }
    for i := 0 to |a|
      invariant forall j :: 0 <= j < i ==> a[j] == b[j]
    {
      if a[i] != b[i] {
        return false;
      }
    }
    assert a == b;
    return true;
  }

  /** stringDifference: a set of the elements of `b`, then a filtering pass over `a`. */
  method StringDifference(a: seq<string>, b: seq<string>) returns (diff: seq<string>)
    ensures diff == Minus(a, b)
  {
    // the Go map[string]bool only ever holds `true`, so a set is the same lookup table
    var mb: set<string> := {};
    for i := 0 to |b|
      invariant forall x :: x in mb <==> x in b[..i]
    {
      assert b[..i + 1] == b[..i] + [b[i]];
      mb := mb + {b[i]};
    }
    assert b[..|b|] == b;
    diff := [];
    for i := 0 to |a|
      invariant diff == Minus(a[..i], b)
    {
      assert a[..i + 1][..i] == a[..i];
      if a[i] !in mb {
        diff := diff + [a[i]];
      }
    }
    assert a[..|a|] == a;
  }

  /** Exactly the elements of `a` outside `b`, each as often as in `a`. */
  lemma {:induction false} MinusCounts(a: seq<string>, b: seq<string>, x: string)
    ensures multiset(Minus(a, b))[x] == if x in b then 0 else multiset(a)[x]
  {
    if |a| > 0 {
      var init, last := a[..|a| - 1], a[|a| - 1];
      assert a == init + [last];
      MinusCounts(init, b, x);
    }
  }

  lemma MinusMembership(a: seq<string>, b: seq<string>, x: string)
    ensures x in Minus(a, b) <==> x in a && x !in b
  {
    MinusCounts(a, b, x);
    assert x in Minus(a, b) <==> x in multiset(Minus(a, b));
    assert x in a <==> x in multiset(a);
  }

  /** The result keeps `a`'s order: it is a subsequence of `a`. */
  lemma {:induction false} MinusIsSubsequence(a: seq<string>, b: seq<string>)
    ensures IsSubsequence(Minus(a, b), a)
  {
    if |a| > 0 {
      var init, last := a[..|a| - 1], a[|a| - 1];
      assert a == init + [last];
      MinusIsSubsequence(init, b);
      if last in b {
        assert Minus(a, b) == Minus(init, b);
        SubsequenceOfPrefix(Minus(init, b), init, last);
      } else {
        var r := Minus(a, b);
        assert r == Minus(init, b) + [last];
        assert r[..|r| - 1] == Minus(init, b);
      }
    }
  }

  lemma {:induction false} SubsequenceOfPrefix(s: seq<string>, t: seq<string>, x: string)
    requires IsSubsequence(s, t)
    ensures IsSubsequence(s, t + [x])
  {
    assert (t + [x])[..|t|] == t;
  }

  /** The difference is empty exactly when every element of `a` occurs in `b`. */
  lemma MinusEmptyIff(a: seq<string>, b: seq<string>)
    ensures Minus(a, b) == [] <==> forall x :: x in a ==> x in b
  {
    if Minus(a, b) == [] {
      forall x | x in a ensures x in b {
        MinusMembership(a, b, x);
      }
    } else {
      var x := Minus(a, b)[0];
      MinusMembership(a, b, x);
    }
  }
}
