/** Order-preserving selection on sequences and the subsequence relation it produces. */
module Seqs {

  /** The elements of `s` satisfying `p`, in their original order (a Python list comprehension with a condition). */
  function Filter<T(!new)>(p: T -> bool, s: seq<T>): (r: seq<T>)
    ensures |r| <= |s|
    ensures forall x :: x in r <==> x in s && p(x)
  {
    if |s| == 0 then [] else (if p(s[0]) then [s[0]] else []) + Filter(p, s[1..])
  }

  /** `a` is obtained from `b` by deleting elements. */
  ghost predicate IsSubsequence<T>(a: seq<T>, b: seq<T>)
    decreases |b|
  {
    if |a| == 0 then true
    else if |b| == 0 then false
    else (a[0] == b[0] && IsSubsequence(a[1..], b[1..])) || IsSubsequence(a, b[1..])
  }

  lemma {:induction false} SubsequenceRefl<T>(s: seq<T>)
    ensures IsSubsequence(s, s)
    decreases |s|
  {
    if |s| > 0 {
      SubsequenceRefl(s[1..]);
    }
  }

  lemma {:induction false} FilterIsSubsequence<T(!new)>(p: T -> bool, s: seq<T>)
    ensures IsSubsequence(Filter(p, s), s)
    decreases |s|
  {
    if |s| > 0 {
      FilterIsSubsequence(p, s[1..]);
      var r := Filter(p, s);
      if p(s[0]) {
        assert r[0] == s[0] && r[1..] == Filter(p, s[1..]);
      } else {
        assert r == Filter(p, s[1..]);
      }
    }
  }

  /** Selecting with a weaker condition keeps every element a stronger one keeps, in the same order. */
  lemma {:induction false} FilterMonotone<T(!new)>(p: T -> bool, q: T -> bool, s: seq<T>)
    requires forall x :: x in s && p(x) ==> q(x)
    ensures IsSubsequence(Filter(p, s), Filter(q, s))
    decreases |s|
  {
    if |s| > 0 {
      FilterMonotone(p, q, s[1..]);
      var a, b := Filter(p, s), Filter(q, s);
      if p(s[0]) {
        assert a[0] == b[0] && a[1..] == Filter(p, s[1..]) && b[1..] == Filter(q, s[1..]);
      } else if q(s[0]) {
        assert a == Filter(p, s[1..]) && b[1..] == Filter(q, s[1..]);
        SubsequenceDropHead(a, b);
      } else {
        assert a == Filter(p, s[1..]) && b == Filter(q, s[1..]);
      }
    }
  }

  lemma SubsequenceDropHead<T>(a: seq<T>, b: seq<T>)
    requires |b| > 0 && IsSubsequence(a, b[1..])
    ensures IsSubsequence(a, b)
  {
  }

  lemma {:induction false} FilterAppend<T(!new)>(p: T -> bool, a: seq<T>, b: seq<T>)
    ensures Filter(p, a + b) == Filter(p, a) + Filter(p, b)
    decreases |a|
  {
    if |a| > 0 {
      FilterAppend(p, a[1..], b);
      assert (a + b)[1..] == a[1..] + b;
    } else {
      assert a + b == b;
    }
  }

  /** Conditions that agree on the elements of `s` select the same elements. */
  lemma {:induction false} FilterCongruent<T(!new)>(p: T -> bool, q: T -> bool, s: seq<T>)
    requires forall x :: x in s ==> p(x) == q(x)
    ensures Filter(p, s) == Filter(q, s)
    decreases |s|
  {
    if |s| > 0 {
      FilterCongruent(p, q, s[1..]);
    }
  }

  lemma {:induction false} FilterKeepsAll<T(!new)>(p: T -> bool, s: seq<T>)
    requires forall x :: x in s ==> p(x)
    ensures Filter(p, s) == s
    decreases |s|
  {
    if |s| > 0 {
      FilterKeepsAll(p, s[1..]);
    }
  }

  lemma {:induction false} FilterDropsAll<T(!new)>(p: T -> bool, s: seq<T>)
    requires forall x :: x in s ==> !p(x)
    ensures Filter(p, s) == []
    decreases |s|
  {
    if |s| > 0 {
      FilterDropsAll(p, s[1..]);
    }
  }

  /** Dropping the head of a concatenation whose left part is non-empty. */
  lemma TailOfConcat<T>(a: seq<T>, b: seq<T>)
    requires |a| > 0
    ensures (a + b)[1..] == a[1..] + b
  {
  }

  lemma ConsAssoc<T>(a: seq<T>, x: T, b: seq<T>)
    ensures a + [x] + b == a + ([x] + b)
  {
  }

  lemma ConcatEmpty<T>(a: seq<T>)
    ensures a + [] == a && [] + a == a
  {
  }
}
