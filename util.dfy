/** Small value types shared by every module: optional values, outcomes with
    an error, and the order-preserving filter that JavaScript's
    `Array.prototype.filter` performs. */
module Util {

  datatype Option<T> = None | Some(value: T)

  datatype Result<T, E> = Ok(value: T) | Err(error: E)

  /** `xs.filter(p)`: the elements satisfying `p`, in their original order. */
  function Filter<T>(xs: seq<T>, p: T -> bool): (r: seq<T>)
    ensures |r| <= |xs|
    ensures forall x :: x in r ==> x in xs && p(x)
    ensures forall x :: x in xs && p(x) ==> x in r
    decreases |xs|
  {
    if xs == [] then []
    else if p(xs[|xs| - 1]) then Filter(xs[..|xs| - 1], p) + [xs[|xs| - 1]]
    else Filter(xs[..|xs| - 1], p)
  }

  /** Filtering a concatenation filters each part. */
  lemma {:induction false} FilterAppend<T>(xs: seq<T>, ys: seq<T>, p: T -> bool)
    ensures Filter(xs + ys, p) == Filter(xs, p) + Filter(ys, p)
    decreases |ys|
  {
    if ys == [] {
      assert xs + ys == xs;
    } else {
      var zs := xs + ys;
      assert zs[..|zs| - 1] == xs + ys[..|ys| - 1];
      assert zs[|zs| - 1] == ys[|ys| - 1];
      FilterAppend(xs, ys[..|ys| - 1], p);
    }
  }

  /** Filtering keeps everything exactly when every element passes. */
  lemma {:induction false} FilterAll<T>(xs: seq<T>, p: T -> bool)
    ensures (forall i :: 0 <= i < |xs| ==> p(xs[i])) <==> Filter(xs, p) == xs
    decreases |xs|
  {
    if xs != [] {
      var init := xs[..|xs| - 1];
      FilterAll(init, p);
      assert xs == init + [xs[|xs| - 1]];
      if forall i :: 0 <= i < |xs| ==> p(xs[i]) {
        assert forall i :: 0 <= i < |init| ==> p(init[i]) by {
          forall i | 0 <= i < |init| ensures p(init[i]) { assert init[i] == xs[i]; }
        }
      } else {
        if !p(xs[|xs| - 1]) {
          assert |Filter(xs, p)| < |xs|;
        } else {
          assert !(forall i :: 0 <= i < |init| ==> p(init[i])) by {
            var j :| 0 <= j < |xs| && !p(xs[j]);
            assert j < |init| && init[j] == xs[j];
          }
        }
      }
    }
  }

  /** Filtering is empty exactly when no element passes. */
  lemma {:induction false} FilterEmpty<T>(xs: seq<T>, p: T -> bool)
    ensures Filter(xs, p) == [] <==> forall i :: 0 <= i < |xs| ==> !p(xs[i])
  {
    if Filter(xs, p) == [] {
      forall i | 0 <= i < |xs| ensures !p(xs[i]) {
        assert xs[i] in xs;
      }
    } else {
      var x := Filter(xs, p)[0];
      assert x in Filter(xs, p);
      var i :| 0 <= i < |xs| && xs[i] == x;
    }
  }

  /** `Math.max(...xs)`. */
  function SeqMax(xs: seq<int>): (m: int)
    requires xs != []
    ensures m in xs
    ensures forall x :: x in xs ==> x <= m
  {
    if |xs| == 1 then xs[0]
    else
      var m' := SeqMax(xs[1..]);
      assert forall x :: x in xs ==> x == xs[0] || x in xs[1..];
      if xs[0] >= m' then xs[0] else m'
  }

  /** The positions `Filter` keeps: every position whose element passes,
      and no other, in increasing order. */
  function KeptPositions<T>(xs: seq<T>, p: T -> bool): (idx: seq<nat>)
    ensures forall i :: 0 <= i < |idx| ==> idx[i] < |xs|
    ensures forall i, j :: 0 <= i < j < |idx| ==> idx[i] < idx[j]
    ensures forall k :: 0 <= k < |xs| ==> (k in idx <==> p(xs[k]))
    decreases |xs|
  {
    if xs == [] then []
    else
      var init := KeptPositions(xs[..|xs| - 1], p);
      if p(xs[|xs| - 1]) then init + [|xs| - 1] else init
  }

  /** `Filter` keeps the elements at `KeptPositions`: the result is the
      subsequence of passing elements, in their original order. */
  lemma {:induction false} FilterAt<T>(xs: seq<T>, p: T -> bool)
    ensures |Filter(xs, p)| == |KeptPositions(xs, p)|
    ensures forall i :: 0 <= i < |Filter(xs, p)| ==> Filter(xs, p)[i] == xs[KeptPositions(xs, p)[i]]
    decreases |xs|
  {
    if xs != [] {
      var init := xs[..|xs| - 1];
      FilterAt(init, p);
    }
  }

  /** `xs.filter((_, i) => i !== index)`: drop the element at position
      `index`, if there is one. */
  function RemoveAt<T>(xs: seq<T>, index: int): seq<T>
    decreases |xs|
  {
    if xs == [] then []
    else RemoveAt(xs[..|xs| - 1], index) + (if |xs| - 1 == index then [] else [xs[|xs| - 1]])
  }

  /** Removing by position deletes exactly that one element and keeps the
      others in order; an index outside the sequence changes nothing. */
  lemma {:induction false} RemoveAtIsDeletion<T>(xs: seq<T>, index: int)
    ensures RemoveAt(xs, index) == if 0 <= index < |xs| then xs[..index] + xs[index + 1..] else xs
    decreases |xs|
  {
    if xs != [] {
      var n := |xs| - 1;
      var init := xs[..n];
      RemoveAtIsDeletion(init, index);
      if index == n {
        assert xs[..index] == init && xs[index + 1..] == [];
      } else if 0 <= index < n {
        assert xs[..index] == init[..index];
        assert xs[index + 1..] == init[index + 1..] + [xs[n]];
      } else {
        assert xs == init + [xs[n]];
      }
    }
  }
}
