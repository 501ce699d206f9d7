/** Counting the elements of a sequence that satisfy a predicate.
    This is the shape of every counter in the pool: `std::count` over the
    released flags and the accumulating loop of `idleCount`. */
module Counting {

  /** Number of elements of `s` satisfying `p`, counted from the front as a
      loop over indices would (the last element is the latest one seen). */
  function Count<T>(s: seq<T>, p: T -> bool): (n: nat)
    ensures n <= |s|
  {
    if |s| == 0 then 0
    else Count(s[..|s| - 1], p) + (if p(s[|s| - 1]) then 1 else 0)
  }

  /** The count is zero exactly when no element satisfies `p`, and the full
      length exactly when every element does. */
  lemma {:induction false} CountExtremes<T>(s: seq<T>, p: T -> bool)
    ensures Count(s, p) == 0 <==> forall i :: 0 <= i < |s| ==> !p(s[i])
    ensures Count(s, p) == |s| <==> forall i :: 0 <= i < |s| ==> p(s[i])
  {
    if |s| > 0 {
      var init := s[..|s| - 1];
      assert forall i :: 0 <= i < |init| ==> init[i] == s[i];
      CountExtremes(init, p);
    }
  }

  /** The set of indices whose element satisfies `p`: the reference
      definition that `Count` is measured against. */
  ghost function Indices<T>(s: seq<T>, p: T -> bool): set<nat>
  {
    set i: nat | i < |s| && p(s[i])
  }

  /** `Count` is the cardinality of the index set. */
  lemma {:induction false} CountIsCardinality<T>(s: seq<T>, p: T -> bool)
    ensures Count(s, p) == |Indices(s, p)|
  {
    if |s| > 0 {
      var init := s[..|s| - 1];
      CountIsCardinality(init, p);
      var last := |s| - 1;
      if p(s[last]) {
        assert Indices(s, p) == Indices(init, p) + {last};
      } else {
        assert Indices(s, p) == Indices(init, p);
      }
    } else {
      assert Indices(s, p) == {};
    }
  }

  /** One more step of a counting loop: extending the scanned prefix by one
      element adds one exactly when that element satisfies `p`. */
  lemma CountPrefix<T>(s: seq<T>, p: T -> bool, i: nat)
    requires i < |s|
    ensures Count(s[..i + 1], p) == Count(s[..i], p) + (if p(s[i]) then 1 else 0)
  {
    assert s[..i + 1][..i] == s[..i];
  }

  /** Overwriting one element changes the count by what left and what came in. */
  lemma {:induction false} CountUpdate<T>(s: seq<T>, i: nat, x: T, p: T -> bool)
    requires i < |s|
    ensures Count(s[i := x], p) == Count(s, p) - (if p(s[i]) then 1 else 0) + (if p(x) then 1 else 0)
  {
    var last := |s| - 1;
    var t := s[i := x];
    if i == last {
      assert t[..last] == s[..last];
    } else {
      assert t[..last] == s[..last][i := x];
      CountUpdate(s[..last], i, x, p);
    }
  }

  /** If every position satisfying `p` in `s` satisfies `q` in `t`, then `t`
      counts at least as many; strictly more when some position gains. */
  lemma {:induction false} CountPointwise<T, U>(s: seq<T>, t: seq<U>, p: T -> bool, q: U -> bool)
    requires |s| == |t|
    requires forall i :: 0 <= i < |s| ==> p(s[i]) ==> q(t[i])
    ensures Count(s, p) <= Count(t, q)
    ensures (exists i :: 0 <= i < |s| && !p(s[i]) && q(t[i])) ==> Count(s, p) < Count(t, q)
  {
    if |s| > 0 {
      var last := |s| - 1;
      CountPointwise(s[..last], t[..last], p, q);
      if exists i :: 0 <= i < |s| && !p(s[i]) && q(t[i]) {
        var i :| 0 <= i < |s| && !p(s[i]) && q(t[i]);
        if i < last {
          assert s[..last][i] == s[i] && t[..last][i] == t[i];
        }
      }
    }
  }

  /** Position by position the two predicates agree, so the counts agree. */
  lemma CountSame<T, U>(s: seq<T>, t: seq<U>, p: T -> bool, q: U -> bool)
    requires |s| == |t|
    requires forall i :: 0 <= i < |s| ==> p(s[i]) == q(t[i])
    ensures Count(s, p) == Count(t, q)
  {
    CountPointwise(s, t, p, q);
    CountPointwise(t, s, q, p);
  }

  /** When, at every position, the two predicates gain or lose together
      between `s` and `t`, the two counts change by the same amount. */
  lemma {:induction false} CountDifference<T>(s: seq<T>, t: seq<T>, p: T -> bool, q: T -> bool)
    requires |s| == |t|
    requires forall i :: 0 <= i < |s| ==>
               ((p(s[i]) == p(t[i])) && (q(s[i]) == q(t[i])))
               || (!p(s[i]) && p(t[i]) && !q(s[i]) && q(t[i]))
    ensures Count(t, p) - Count(s, p) == Count(t, q) - Count(s, q)
  {
    if |s| > 0 {
      var last := |s| - 1;
      assert forall i :: 0 <= i < last ==> s[..last][i] == s[i] && t[..last][i] == t[i];
      CountDifference(s[..last], t[..last], p, q);
    }
  }
}
