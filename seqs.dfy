/** Order-preserving selection from a sequence, and the algebra of
    concatenation that proofs about it use. */
module Seqs {

  lemma AppendAssoc<T>(x: seq<T>, y: seq<T>, z: seq<T>)
    ensures x + (y + z) == (x + y) + z
  {
  }

  lemma AppendRegroup<T>(x: seq<T>, p: seq<T>, t: seq<T>, q: seq<T>)
    ensures x + ((p + t) + q) == ((x + p) + t) + q
  {
  }

  lemma AppendSliceMiddle<T>(x: seq<T>, y: seq<T>, z: seq<T>)
    ensures |x| + |y| <= |x + (y + z)| && (x + (y + z))[|x|..|x| + |y|] == y
  {
  }

  lemma SliceOfSlice<T>(s: seq<T>, i: nat, j: nat, a: nat, b: nat)
    requires i <= j <= |s| && a <= b <= j - i
    ensures s[i..j][a..b] == s[i + a..i + b]
  {
    forall m | 0 <= m < b - a
      ensures s[i..j][a..b][m] == s[i + a..i + b][m]
    {
      assert s[i..j][a..b][m] == s[i..j][a + m] == s[i + a + m];
    }
  }

  lemma AppendHeadTail<T>(x: seq<T>, y: seq<T>)
    requires x != []
    ensures (x + y)[0] == x[0] && (x + y)[1..] == x[1..] + y
  {
  }

  /** The indices of `s` whose element satisfies `p`, in increasing order. */
  function Positions<T>(s: seq<T>, p: T -> bool): (r: seq<nat>)
    ensures forall k :: 0 <= k < |r| ==> r[k] < |s| && p(s[r[k]])
    ensures forall k, m :: 0 <= k < m < |r| ==> r[k] < r[m]
    ensures forall i :: 0 <= i < |s| && p(s[i]) ==> i in r
  {
    if s == [] then []
    else
      var r0 := Positions(s[..|s| - 1], p);
      if p(s[|s| - 1]) then r0 + [|s| - 1] else r0
  }

  /** The list comprehension `[f(x) for x in s if p(x)]`. */
  function FilterMap<T, U>(s: seq<T>, p: T -> bool, f: T -> U): seq<U>
  {
    if s == [] then []
    else FilterMap(s[..|s| - 1], p, f) + if p(s[|s| - 1]) then [f(s[|s| - 1])] else []
  }

  /** The k-th element of the comprehension comes from the k-th element of
      `s` that satisfies `p`. */
  lemma {:induction false} FilterMapAt<T, U>(s: seq<T>, p: T -> bool, f: T -> U)
    ensures var idx := Positions(s, p);
            |FilterMap(s, p, f)| == |idx|
            && forall k :: 0 <= k < |idx| ==> FilterMap(s, p, f)[k] == f(s[idx[k]])
  {
    if s != [] {
      var init, last := s[..|s| - 1], s[|s| - 1];
      FilterMapAt(init, p, f);
      assert forall i :: 0 <= i < |init| ==> init[i] == s[i];
      var r0, idx0 := FilterMap(init, p, f), Positions(init, p);
      if p(last) {
        assert FilterMap(s, p, f) == r0 + [f(last)];
        assert Positions(s, p) == idx0 + [|init|];
      } else {
        assert FilterMap(s, p, f) == r0;
        assert Positions(s, p) == idx0;
      }
    }
  }

  /** The comprehension works element by element, so it distributes over
      concatenation. */
  lemma {:induction false} FilterMapAppend<T, U>(a: seq<T>, b: seq<T>, p: T -> bool, f: T -> U)
    ensures FilterMap(a + b, p, f) == FilterMap(a, p, f) + FilterMap(b, p, f)
    decreases |b|
  {
    if b == [] {
      assert a + b == a;
    } else {
      var b' := b[..|b| - 1];
      assert (a + b)[..|a + b| - 1] == a + b';
      FilterMapAppend(a, b', p, f);
    }
  }

  /** An element that fails `p` contributes nothing to the comprehension. */
  lemma FilterMapSkip<T, U>(a: seq<T>, x: T, b: seq<T>, p: T -> bool, f: T -> U)
    requires !p(x)
    ensures FilterMap(a + [x] + b, p, f) == FilterMap(a + b, p, f)
  {
    FilterMapAppend(a + [x], b, p, f);
    FilterMapAppend(a, b, p, f);
    assert (a + [x])[..|a|] == a;
  }
}
