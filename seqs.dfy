/** Order-preserving filtering and flattening of sequences, with the facts the model needs. */
module Seqs {
  import opened Wrappers

  /** Keeps the elements that satisfy `p`, in their original order (a list comprehension with an `if`). */
  function Filter<T(==)>(p: T -> bool, s: seq<T>): (r: seq<T>)
    ensures |r| <= |s|
    ensures forall x | x in r :: x in s && p(x)
  {
    if s == [] then [] else (if p(s[0]) then [s[0]] else []) + Filter(p, s[1..])
  }

  lemma {:induction false} FilterAppend<T>(p: T -> bool, a: seq<T>, b: seq<T>)
    ensures Filter(p, a + b) == Filter(p, a) + Filter(p, b)
  {
    if a == [] {
      assert a + b == b;
    } else {
      assert (a + b)[1..] == a[1..] + b;
      FilterAppend(p, a[1..], b);
    }
  }

  /** Every element that satisfies `p` survives the filter. */
  lemma {:induction false} FilterKeeps<T>(p: T -> bool, s: seq<T>, x: T)
    requires x in s && p(x)
    ensures x in Filter(p, s)
  {
    if s[0] != x {
      FilterKeeps(p, s[1..], x);
    }
  }

  /** `a` can be obtained from `b` by deleting elements. */
  predicate IsSubsequence<T(==)>(a: seq<T>, b: seq<T>)
    decreases |b|
  {
    if a == [] then true
    else if b == [] then false
    else if a[0] == b[0] then IsSubsequence(a[1..], b[1..])
    else IsSubsequence(a, b[1..])
  }

  lemma {:induction false} SubsequenceOfTail<T>(a: seq<T>, b: seq<T>)
    requires b != [] && IsSubsequence(a, b[1..])
    ensures IsSubsequence(a, b)
    decreases |b|, 0
  {
    if a != [] && a[0] == b[0] {
      assert IsSubsequence(a[1..], b[1..]) by {
        SubsequenceDropHead(a, b[1..]);
      }
    }
  }

  lemma {:induction false} SubsequenceDropHead<T>(a: seq<T>, b: seq<T>)
    requires a != [] && IsSubsequence(a, b)
    ensures IsSubsequence(a[1..], b)
    decreases |b|, 1
  {
    if a[0] == b[0] {
      if a[1..] != [] {
        SubsequenceOfTail(a[1..], b);
      }
    } else {
      SubsequenceDropHead(a, b[1..]);
      if a[1..] != [] {
        SubsequenceOfTail(a[1..], b);
      }
    }
  }

  /** The filtered sequence keeps the relative order of the original. */
  lemma {:induction false} FilterIsSubsequence<T>(p: T -> bool, s: seq<T>)
    ensures IsSubsequence(Filter(p, s), s)
  {
    if s != [] {
      FilterIsSubsequence(p, s[1..]);
      var r := Filter(p, s[1..]);
      if p(s[0]) {
        assert Filter(p, s) == [s[0]] + r;
      } else {
        assert Filter(p, s) == r;
        if r != [] {
          SubsequenceOfTail(r, s);
        }
      }
    }
  }

  /** Concatenation of a sequence of sequences, in order. */
  function Flatten<T>(ss: seq<seq<T>>): seq<T>
  {
    if ss == [] then [] else ss[0] + Flatten(ss[1..])
  }

  /** The sum of the lengths of a sequence of sequences. */
  function TotalLength<T>(ss: seq<seq<T>>): nat
  {
    if ss == [] then 0 else |ss[0]| + TotalLength(ss[1..])
  }

  /** Concatenating keeps every element: the length of the result is the sum of the lengths. */
  lemma {:induction false} FlattenLength<T>(ss: seq<seq<T>>)
    ensures |Flatten(ss)| == TotalLength(ss)
  {
    if ss != [] {
      FlattenLength(ss[1..]);
    }
  }

  /** Concatenation regroups; calling this keeps the solver away from extensional reasoning in large contexts. */
  lemma AppendAssoc<T>(a: seq<T>, b: seq<T>, c: seq<T>)
    ensures a + b + c == a + (b + c)
  {
  }

  /** A window that ends inside the first part of a concatenation is a window of that part. */
  lemma WindowInFront<T>(u: seq<T>, v: seq<T>, x: nat, len: nat)
    requires x + len <= |u|
    ensures (u + v)[x..x + len] == u[x..x + len]
  {
    var w := (u + v)[x..x + len];
    forall i | 0 <= i < len
      ensures w[i] == u[x..x + len][i]
    {
      assert w[i] == (u + v)[x + i];
    }
  }

  /** A window that starts inside the second part of a concatenation is a window of that part. */
  lemma WindowInBack<T>(u: seq<T>, v: seq<T>, x: nat, len: nat)
    requires x + len <= |v|
    ensures (u + v)[|u| + x..|u| + x + len] == v[x..x + len]
  {
    var w := (u + v)[|u| + x..|u| + x + len];
    forall i | 0 <= i < len
      ensures w[i] == v[x..x + len][i]
    {
      assert w[i] == (u + v)[|u| + x + i];
    }
  }

  /** Putting an element in front keeps the last element. */
  lemma LastOfCons<T>(x: T, t: seq<T>)
    requires t != []
    ensures ([x] + t)[|t|] == t[|t| - 1]
  {
  }

  /** A prefix one longer is the prefix extended by the next element. */
  lemma TakeSnoc<T>(s: seq<T>, i: nat)
    requires i < |s|
    ensures s[..i + 1] == s[..i] + [s[i]]
  {
  }

  /** Applies `f` to each element and keeps the results that are present, in order. */
  function FilterMap<A, B>(f: A -> Option<B>, s: seq<A>): seq<B>
  {
    if s == [] then [] else (match f(s[0]) case None => [] case Some(y) => [y]) + FilterMap(f, s[1..])
  }

  lemma {:induction false} FilterMapAppend<A, B>(f: A -> Option<B>, a: seq<A>, b: seq<A>)
    ensures FilterMap(f, a + b) == FilterMap(f, a) + FilterMap(f, b)
  {
    if a == [] {
      assert a + b == b;
    } else {
      assert (a + b)[1..] == a[1..] + b;
      FilterMapAppend(f, a[1..], b);
      AppendAssoc(match f(a[0]) case None => [] case Some(y) => [y], FilterMap(f, a[1..]), FilterMap(f, b));
    }
  }

  /**
   * Every present result is kept, every kept value is the result of some element,
   * and nothing is added.
   */
  lemma {:induction false} FilterMapExactly<A, B>(f: A -> Option<B>, s: seq<A>)
    ensures |FilterMap(f, s)| <= |s|
    ensures forall i :: 0 <= i < |s| && f(s[i]).Some? ==> f(s[i]).value in FilterMap(f, s)
    ensures forall y :: y in FilterMap(f, s) ==> exists i :: 0 <= i < |s| && f(s[i]) == Some(y)
  {
    if s != [] {
      FilterMapExactly(f, s[1..]);
      assert forall i :: 1 <= i < |s| ==> s[i] == s[1..][i - 1];
      forall y | y in FilterMap(f, s)
        ensures exists i :: 0 <= i < |s| && f(s[i]) == Some(y)
      {
        if y in FilterMap(f, s[1..]) {
          var i :| 0 <= i < |s[1..]| && f(s[1..][i]) == Some(y);
          assert f(s[i + 1]) == Some(y);
        } else {
          assert f(s[0]) == Some(y);
        }
      }
    }
  }

  /** `FilterMap` over each sequence of `ss`, concatenated in order. */
  function FilterMapEach<A, B>(f: A -> Option<B>, ss: seq<seq<A>>): seq<B>
  {
    if ss == [] then [] else FilterMap(f, ss[0]) + FilterMapEach(f, ss[1..])
  }

  /** Filtering piece by piece and concatenating is filtering the concatenation. */
  lemma {:induction false} FilterMapFlatten<A, B>(f: A -> Option<B>, ss: seq<seq<A>>)
    ensures FilterMapEach(f, ss) == FilterMap(f, Flatten(ss))
  {
    if ss != [] {
      FilterMapFlatten(f, ss[1..]);
      FilterMapAppend(f, ss[0], Flatten(ss[1..]));
    }
  }

  lemma {:induction false} FilterMapEachAppend<A, B>(f: A -> Option<B>, a: seq<seq<A>>, b: seq<seq<A>>)
    ensures FilterMapEach(f, a + b) == FilterMapEach(f, a) + FilterMapEach(f, b)
  {
    if a == [] {
      assert a + b == b;
    } else {
      assert (a + b)[1..] == a[1..] + b;
      FilterMapEachAppend(f, a[1..], b);
      AppendAssoc(FilterMap(f, a[0]), FilterMapEach(f, a[1..]), FilterMapEach(f, b));
    }
  }
}
