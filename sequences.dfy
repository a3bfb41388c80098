/**
  Two order-aware relations between sequences, used to say what a filter or a
  pattern replacement keeps: `IsSubsequence` (some elements dropped, the rest
  in their original order) and `Without` (the elements outside a set, in order).
 */
module Sequences {

  /** `r` is `s` with some elements dropped, the others kept in their order. */
  predicate IsSubsequence<T(==)>(r: seq<T>, s: seq<T>)
    decreases |s|
  {
    r == [] || (s != [] && ((r[0] == s[0] && IsSubsequence(r[1..], s[1..])) || IsSubsequence(r, s[1..])))
  }

  /** The elements of `s` that are not in `drop`, in order. */
  function Without<T(==,!new)>(s: seq<T>, drop: set<T>): (r: seq<T>)
    ensures |r| <= |s|
    ensures forall x :: x in r <==> x in s && x !in drop
  {
    if s == [] then []
    else (if s[0] in drop then [] else [s[0]]) + Without(s[1..], drop)
  }

  lemma {:induction false} WithoutConcat<T(!new)>(a: seq<T>, b: seq<T>, drop: set<T>)
    ensures Without(a + b, drop) == Without(a, drop) + Without(b, drop)
  {
    if a == [] {
      assert a + b == b;
    } else {
      assert (a + b)[1..] == a[1..] + b;
      WithoutConcat(a[1..], b, drop);
    }
  }

  /** Keeping or dropping the head of `s` in front of a subsequence of its tail gives a subsequence of `s`. */
  lemma SubsequenceCons<T>(s: seq<T>, keep: bool, rest: seq<T>)
    requires s != [] && IsSubsequence(rest, s[1..])
    ensures IsSubsequence((if keep then [s[0]] else []) + rest, s)
  {
    var r := (if keep then [s[0]] else []) + rest;
    if keep {
      assert r[0] == s[0] && r[1..] == rest;
    } else {
      assert r == rest;
    }
  }

  /** Each element of `s` counts once more than in its tail when it is the head. */
  lemma MultisetCons<T>(s: seq<T>)
    requires s != []
    ensures forall x :: multiset(s)[x] == multiset(s[1..])[x] + (if x == s[0] then 1 else 0)
  {
    assert s == [s[0]] + s[1..];
  }

  lemma {:induction false} SubsequenceOfSelf<T>(s: seq<T>)
    ensures IsSubsequence(s, s)
  {
    if s != [] {
      SubsequenceOfSelf(s[1..]);
    }
  }

  /** `Array.prototype.filter`: every element passing `p`, as often as it occurs, in its order in `s`, and nothing else. */
  function Filter<T(!new)>(s: seq<T>, p: T -> bool): (r: seq<T>)
    ensures |r| <= |s|
    ensures forall x :: x in r <==> x in s && p(x)
    ensures forall x :: multiset(r)[x] == if p(x) then multiset(s)[x] else 0
    ensures IsSubsequence(r, s)
  {
    if s == [] then []
    else
      var rest := Filter(s[1..], p);
      MultisetCons(s);
      if p(s[0]) then
        SubsequenceCons(s, true, rest);
        [s[0]] + rest
      else
        SubsequenceCons(s, false, rest);
        assert [] + rest == rest;
        rest
  }

  /** A filter every element passes keeps the sequence. */
  lemma {:induction false} FilterAll<T(!new)>(s: seq<T>, p: T -> bool)
    requires forall i :: 0 <= i < |s| ==> p(s[i])
    ensures Filter(s, p) == s
  {
    if s != [] {
      FilterAll(s[1..], p);
      assert s == [s[0]] + s[1..];
    }
  }

  lemma ConcatAssoc<T>(a: seq<T>, b: seq<T>, c: seq<T>)
    ensures (a + b) + c == a + (b + c)
  {
  }

  /** Splitting off the head of the left operand. */
  lemma ConsConcat<T>(a: seq<T>, t: seq<T>)
    requires a != []
    ensures a == [a[0]] + a[1..]
    ensures a + t == [a[0]] + (a[1..] + t)
  {
  }

  /** Splitting off the last element of the right operand. */
  lemma SnocConcat<T>(a: seq<T>, t: seq<T>)
    requires t != []
    ensures t == t[..|t| - 1] + [t[|t| - 1]]
    ensures a + t == (a + t[..|t| - 1]) + [t[|t| - 1]]
  {
  }
}
