/** Order-preserving filters and maps over sequences: the shape of every
    list that the pipeline builds by appending inside a loop. */
module Seqs {

  /** The elements of `s` that satisfy `p`, in their order in `s`. */
  function Filter<T>(s: seq<T>, p: T -> bool): (r: seq<T>)
    ensures |r| <= |s|
  {
    if s == [] then []
    else
      var n := |s| - 1;
      Filter(s[..n], p) + (if p(s[n]) then [s[n]] else [])
  }

  /** `f` applied to every element of `s`, in order. */
  function MapSeq<T, U>(s: seq<T>, f: T -> U): (r: seq<U>)
    ensures |r| == |s|
    ensures forall i :: 0 <= i < |s| ==> r[i] == f(s[i])
  {
    if s == [] then [] else MapSeq(s[..|s| - 1], f) + [f(s[|s| - 1])]
  }

  /** The complement of a predicate. */
  function Not<T>(p: T -> bool): T -> bool {
    x => !p(x)
  }

  /** An element is kept exactly when it occurs in the input and passes the test. */
  lemma {:induction false} FilterKeeps<T>(s: seq<T>, p: T -> bool, x: T)
    ensures x in Filter(s, p) <==> x in s && p(x)
  {
    if s != [] {
      var n := |s| - 1;
      FilterKeeps(s[..n], p, x);
      assert s == s[..n] + [s[n]];
    }
  }

  /** The output of a filter is the input read at the increasing list of
      positions `idx`, and `idx` holds every position whose element passes:
      the output is the passing subsequence, in input order. */
  lemma {:induction false} FilterPositions<T>(s: seq<T>, p: T -> bool) returns (idx: seq<nat>)
    ensures |idx| == |Filter(s, p)|
    ensures forall k :: 0 <= k < |idx| ==> idx[k] < |s| && Filter(s, p)[k] == s[idx[k]]
    ensures forall k, l :: 0 <= k < l < |idx| ==> idx[k] < idx[l]
    ensures forall k :: 0 <= k < |idx| ==> p(s[idx[k]])
    ensures forall i :: 0 <= i < |s| && p(s[i]) ==> i in idx
  {
    if s == [] {
      idx := [];
    } else {
      var n := |s| - 1;
      var prefix := s[..n];
      var front := FilterPositions(prefix, p);
      var kept := Filter(prefix, p);
      var tail := if p(s[n]) then [n] else [];
      idx := front + tail;
      assert Filter(s, p) == kept + (if p(s[n]) then [s[n]] else []);
      forall k | 0 <= k < |idx|
        ensures idx[k] < |s| && Filter(s, p)[k] == s[idx[k]] && p(s[idx[k]])
      {
        if k < |front| {
          assert idx[k] == front[k] && prefix[front[k]] == s[front[k]];
        }
      }
      forall i | 0 <= i < |s| && p(s[i])
        ensures i in idx
      {
        if i < n {
          assert prefix[i] == s[i];
          assert i in front;
        } else {
          assert idx[|idx| - 1] == i;
        }
      }
    }
  }

  /** Every element is either kept or dropped: the kept and the dropped
      elements together number exactly the input. */
  lemma {:induction false} FilterPartition<T>(s: seq<T>, p: T -> bool)
    ensures |Filter(s, p)| + |Filter(s, Not(p))| == |s|
  {
    if s != [] {
      FilterPartition(s[..|s| - 1], p);
    }
  }

  /** Filtering again with the same test changes nothing. */
  lemma {:induction false} FilterIdempotent<T>(s: seq<T>, p: T -> bool)
    ensures Filter(Filter(s, p), p) == Filter(s, p)
  {
    if s != [] {
      var n := |s| - 1;
      FilterIdempotent(s[..n], p);
      FilterAppend(Filter(s[..n], p), if p(s[n]) then [s[n]] else [], p);
    }
  }

  /** Filtering distributes over concatenation. */
  lemma {:induction false} FilterAppend<T>(a: seq<T>, b: seq<T>, p: T -> bool)
    ensures Filter(a + b, p) == Filter(a, p) + Filter(b, p)
  {
    if b == [] {
      assert a + b == a;
    } else {
      var n := |b| - 1;
      FilterAppend(a, b[..n], p);
      var ab := a + b;
      assert ab[..|ab| - 1] == a + b[..n];
      assert ab[|ab| - 1] == b[n];
      var tail := if p(b[n]) then [b[n]] else [];
      calc {
        Filter(ab, p);
        Filter(a + b[..n], p) + tail;
        Filter(a, p) + Filter(b[..n], p) + tail;
        Filter(a, p) + (Filter(b[..n], p) + tail);
      }
    }
  }
}
