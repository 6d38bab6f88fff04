/**
 * Slice operations of Rust's standard library used by src/advent.rs:
 * in-place `reverse` and `sum`.
 */
module RustSlice {

  /** s back to front. */
  function Reversed<T>(s: seq<T>): (r: seq<T>)
    ensures |r| == |s|
    ensures forall i :: 0 <= i < |s| ==> r[i] == s[|s| - 1 - i]
  {
    if |s| == 0 then [] else [s[|s| - 1]] + Reversed(s[..|s| - 1])
  }

  /** Reversing twice gives the original back. */
  lemma ReversedTwice<T>(s: seq<T>)
    ensures Reversed(Reversed(s)) == s
  {
  }

  /** Reversing keeps the items. */
  lemma {:induction false} ReversedItems<T>(s: seq<T>)
    ensures multiset(Reversed(s)) == multiset(s)
    decreases |s|
  {
    if |s| > 0 {
      ReversedItems(s[..|s| - 1]);
      assert s == s[..|s| - 1] + [s[|s| - 1]];
    }
  }

  /** `slice::reverse`: swaps the ends inwards. */
  method Reverse<T>(a: array<T>)
    modifies a
    ensures a[..] == Reversed(old(a[..]))
  {
    var i, j := 0, a.Length - 1;
    while i < j
      invariant 0 <= i <= a.Length && j == a.Length - 1 - i
      invariant forall k :: 0 <= k < i || j < k < a.Length ==> a[k] == old(a[a.Length - 1 - k])
      invariant forall k :: i <= k <= j ==> a[k] == old(a[k])
    {
      a[i], a[j] := a[j], a[i];
      i, j := i + 1, j - 1;
    }
  }

  /** `Iterator::sum` over naturals (the 64-bit overflow panic is not modelled). */
  function Sum(s: seq<nat>): nat {
    if |s| == 0 then 0 else s[0] + Sum(s[1..])
  }

  lemma {:induction false} SumAppend(a: seq<nat>, b: seq<nat>)
    ensures Sum(a + b) == Sum(a) + Sum(b)
    decreases |a|
  {
    if |a| == 0 {
      assert a + b == b;
    } else {
      SumAppend(a[1..], b);
      assert (a + b)[1..] == a[1..] + b;
    }
  }

  /** Taking one item out of a sequence. */
  lemma SumRemove(t: seq<nat>, k: nat)
    requires k < |t|
    ensures Sum(t) == t[k] + Sum(t[..k] + t[k + 1..])
  {
    var tail := [t[k]] + t[k + 1..];
    assert t == t[..k] + tail;
    assert tail[1..] == t[k + 1..];
    calc {
      Sum(t);
      { SumAppend(t[..k], tail); }
      Sum(t[..k]) + Sum(tail);
      Sum(t[..k]) + t[k] + Sum(t[k + 1..]);
      { SumAppend(t[..k], t[k + 1..]); }
      t[k] + Sum(t[..k] + t[k + 1..]);
    }
  }

  lemma MultisetRemove(t: seq<nat>, k: nat)
    requires k < |t|
    ensures multiset(t[..k] + t[k + 1..]) == multiset(t) - multiset{t[k]}
  {
    assert t == t[..k] + [t[k]] + t[k + 1..];
  }

  /** The sum does not depend on the order of the items. */
  lemma {:induction false} SumOfPermutation(s: seq<nat>, t: seq<nat>)
    requires multiset(s) == multiset(t)
    ensures Sum(s) == Sum(t)
    decreases |s|
  {
    if |s| > 0 {
      assert s[0] in multiset(t);
      var k :| 0 <= k < |t| && t[k] == s[0];
      SumRemove(t, k);
      MultisetRemove(t, k);
      assert s == [s[0]] + s[1..];
      assert multiset(s[1..]) == multiset(s) - multiset{s[0]};
      SumOfPermutation(s[1..], t[..k] + t[k + 1..]);
    }
  }
}
