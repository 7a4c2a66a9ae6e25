/** Sequence helpers shared by the snapshot builder and the label assignment:
    an order-preserving filter and its index characterisation. */
module Seqs {

  /** Keeps the elements of `s` satisfying `p`, in their original order
      (as Rust's `Iterator::filter` does). */
  function Filter<T>(s: seq<T>, p: T -> bool): (r: seq<T>)
    ensures |r| <= |s|
    ensures forall x :: x in r ==> x in s && p(x)
  {
    if s == [] then []
    else (if p(s[0]) then [s[0]] else []) + Filter(s[1..], p)
  }

  predicate StrictlyIncreasing(idx: seq<nat>)
  {
    forall a, b :: 0 <= a < b < |idx| ==> idx[a] < idx[b]
  }

  /** No element occurs twice. */
  predicate Distinct<T(==)>(s: seq<T>)
  {
    forall i, j :: 0 <= i < j < |s| ==> s[i] != s[j]
  }

  /** `idx` lists, in increasing order, exactly the positions of `s` whose
      element satisfies `p`, and `f` is the sequence of those elements. */
  ghost predicate SelectedBy<T>(s: seq<T>, p: T -> bool, f: seq<T>, idx: seq<nat>)
  {
    && |idx| == |f|
    && StrictlyIncreasing(idx)
    && (forall k :: 0 <= k < |idx| ==> idx[k] < |s| && f[k] == s[idx[k]])
    && (forall i :: 0 <= i < |s| ==> (p(s[i]) <==> i in idx))
  }

  /** The filter keeps exactly the positions whose element satisfies `p`, in
      increasing order: `Filter(s, p)` is the in-order subsequence of `s` made of
      every element satisfying `p` and nothing else. */
  lemma {:induction false} FilterIndices<T>(s: seq<T>, p: T -> bool) returns (idx: seq<nat>)
    ensures |idx| == |Filter(s, p)|
    ensures StrictlyIncreasing(idx)
    ensures forall k :: 0 <= k < |idx| ==> idx[k] < |s| && Filter(s, p)[k] == s[idx[k]]
    ensures forall i :: 0 <= i < |s| ==> (p(s[i]) <==> i in idx)
  {
    if s == [] {
      idx := [];
    } else {
      var rest := FilterIndices(s[1..], p);
      assert SelectedBy(s[1..], p, Filter(s[1..], p), rest);
      if p(s[0]) {
        assert Filter(s, p) == [s[0]] + Filter(s[1..], p);
        idx := SelectKept(s, p, Filter(s[1..], p), rest);
      } else {
        assert Filter(s, p) == Filter(s[1..], p);
        idx := SelectSkipped(s, p, Filter(s[1..], p), rest);
      }
    }
  }

  /** Extending a selection of `s[1..]` by a first element that is kept. */
  lemma SelectKept<T>(s: seq<T>, p: T -> bool, f: seq<T>, rest: seq<nat>) returns (idx: seq<nat>)
    requires s != [] && p(s[0])
    requires SelectedBy(s[1..], p, f, rest)
    ensures SelectedBy(s, p, [s[0]] + f, idx)
  {
    var shifted := Shift(rest);
    ShiftMembers(rest);
    ShiftIncreasing(rest);
    idx := [0] + shifted;
    ConsZeroIncreasing(shifted);
    forall k | 1 <= k < |idx|
      ensures idx[k] < |s| && ([s[0]] + f)[k] == s[idx[k]]
    {
      assert idx[k] == rest[k - 1] + 1;
      assert ([s[0]] + f)[k] == f[k - 1] == s[1..][rest[k - 1]];
    }
    SelectMembers(s, p, rest, idx);
  }

  /** Extending a selection of `s[1..]` by a first element that is dropped. */
  lemma SelectSkipped<T>(s: seq<T>, p: T -> bool, f: seq<T>, rest: seq<nat>) returns (idx: seq<nat>)
    requires s != [] && !p(s[0])
    requires SelectedBy(s[1..], p, f, rest)
    ensures SelectedBy(s, p, f, idx)
  {
    idx := Shift(rest);
    ShiftMembers(rest);
    ShiftIncreasing(rest);
    forall k | 0 <= k < |idx|
      ensures idx[k] < |s| && f[k] == s[idx[k]]
    {
      assert f[k] == s[1..][rest[k]];
    }
    SelectMembers(s, p, rest, idx);
  }

  /** Positions past the first are selected in `s` exactly when their
      predecessors are selected in `s[1..]`. */
  lemma SelectMembers<T>(s: seq<T>, p: T -> bool, rest: seq<nat>, idx: seq<nat>)
    requires s != []
    requires forall i :: 0 <= i < |s| - 1 ==> (p(s[1..][i]) <==> i in rest)
    requires forall i :: i > 0 ==> (i in idx <==> i - 1 in rest)
    requires p(s[0]) <==> 0 in idx
    ensures forall i :: 0 <= i < |s| ==> (p(s[i]) <==> i in idx)
  {
    forall i | 0 < i < |s|
      ensures p(s[i]) <==> i in idx
    {
      assert s[i] == s[1..][i - 1];
    }
  }

  lemma ConsZeroIncreasing(r: seq<nat>)
    requires StrictlyIncreasing(r) && 0 !in r
    ensures StrictlyIncreasing([0] + r)
  {
    var c := [0] + r;
    forall a, b | 0 <= a < b < |c|
      ensures c[a] < c[b]
    {
      assert c[b] == r[b - 1];
      if a > 0 {
        assert c[a] == r[a - 1];
      } else {
        assert r[b - 1] in r;
      }
    }
  }

  /** Adds one to every index: the positions of `s[1..]` seen as positions of `s`. */
  function Shift(idx: seq<nat>): seq<nat>
  {
    seq(|idx|, k requires 0 <= k < |idx| => idx[k] + 1)
  }

  lemma ShiftMembers(idx: seq<nat>)
    ensures 0 !in Shift(idx)
    ensures forall i :: i > 0 ==> (i in Shift(idx) <==> i - 1 in idx)
  {
    var r := Shift(idx);
    forall i | i > 0
      ensures i in r <==> i - 1 in idx
    {
      if i - 1 in idx {
        var k :| 0 <= k < |idx| && idx[k] == i - 1;
        assert r[k] == i;
      }
    }
  }

  lemma ShiftIncreasing(idx: seq<nat>)
    requires StrictlyIncreasing(idx)
    ensures StrictlyIncreasing(Shift(idx))
  {
  }
}
