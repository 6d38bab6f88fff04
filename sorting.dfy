/**
 * `bubble_sort` of src/main.rs: sorts a slice in place by repeated
 * adjacent swaps. `T: Ord` is modelled by an integer key per item, so that
 * distinct items may compare equal and stability can be stated.
 */
module Sorting {

  /** Non-decreasing by key. */
  ghost predicate Sorted<T>(s: seq<T>, key: T -> int) {
    forall i, j :: 0 <= i < j < |s| ==> key(s[i]) <= key(s[j])
  }

  /** The items whose key is v, in their order in s. */
  function KeyFilter<T>(s: seq<T>, key: T -> int, v: int): (r: seq<T>)
    ensures |r| <= |s|
  {
    if |s| == 0 then []
    else (if key(s[0]) == v then [s[0]] else []) + KeyFilter(s[1..], key, v)
  }

  lemma {:induction false} KeyFilterAppend<T>(a: seq<T>, b: seq<T>, key: T -> int, v: int)
    ensures KeyFilter(a + b, key, v) == KeyFilter(a, key, v) + KeyFilter(b, key, v)
    decreases |a|
  {
    if |a| == 0 {
      assert a + b == b;
    } else {
      var head := if key(a[0]) == v then [a[0]] else [];
      assert (a + b)[0] == a[0] && (a + b)[1..] == a[1..] + b;
      calc {
        KeyFilter(a + b, key, v);
        head + KeyFilter(a[1..] + b, key, v);
        { KeyFilterAppend(a[1..], b, key, v); }
        head + (KeyFilter(a[1..], key, v) + KeyFilter(b, key, v));
        (head + KeyFilter(a[1..], key, v)) + KeyFilter(b, key, v);
        KeyFilter(a, key, v) + KeyFilter(b, key, v);
      }
    }
  }

  /** s with the items at j and j + 1 exchanged (`swap(j, j + 1)`). */
  function SwapNext<T>(s: seq<T>, j: nat): (r: seq<T>)
    requires j + 1 < |s|
    ensures |r| == |s| && r[j] == s[j + 1] && r[j + 1] == s[j]
    ensures forall k :: 0 <= k < |s| && k != j && k != j + 1 ==> r[k] == s[k]
  {
    s[j := s[j + 1]][j + 1 := s[j]]
  }

  lemma PairKeyFilter<T>(x: T, y: T, key: T -> int, v: int)
    requires key(x) != key(y)
    ensures KeyFilter([x, y], key, v) == KeyFilter([y, x], key, v)
  {
    assert [x, y][1..] == [y] && [y, x][1..] == [x];
    assert [x][1..] == [] && [y][1..] == [];
  }

  /** Exchanging two neighbours keeps the items. */
  lemma SwapKeepsItems<T>(s: seq<T>, j: nat)
    requires j + 1 < |s|
    ensures multiset(SwapNext(s, j)) == multiset(s)
  {
    var a, b := s[..j], s[j + 2..];
    assert s == a + [s[j], s[j + 1]] + b;
    assert SwapNext(s, j) == a + [s[j + 1], s[j]] + b;
  }

  /** Exchanging two neighbours with different keys keeps the order of the items with key v. */
  lemma SwapKeepsKeyOrder<T>(s: seq<T>, j: nat, key: T -> int, v: int)
    requires j + 1 < |s| && key(s[j]) != key(s[j + 1])
    ensures KeyFilter(SwapNext(s, j), key, v) == KeyFilter(s, key, v)
  {
    var a, b := s[..j], s[j + 2..];
    var mid, mid' := [s[j], s[j + 1]], [s[j + 1], s[j]];
    assert s == a + mid + b;
    assert SwapNext(s, j) == a + mid' + b;
    calc {
      KeyFilter(a + mid' + b, key, v);
      { KeyFilterAppend(a + mid', b, key, v); }
      KeyFilter(a + mid', key, v) + KeyFilter(b, key, v);
      { KeyFilterAppend(a, mid', key, v); }
      KeyFilter(a, key, v) + KeyFilter(mid', key, v) + KeyFilter(b, key, v);
      { PairKeyFilter(s[j], s[j + 1], key, v); }
      KeyFilter(a, key, v) + KeyFilter(mid, key, v) + KeyFilter(b, key, v);
      { KeyFilterAppend(a, mid, key, v); }
      KeyFilter(a + mid, key, v) + KeyFilter(b, key, v);
      { KeyFilterAppend(a + mid, b, key, v); }
      KeyFilter(a + mid + b, key, v);
    }
  }

  /** Exchanging two neighbours with different keys is a stable permutation. */
  lemma SwapIsStable<T>(s: seq<T>, j: nat, key: T -> int, orig: seq<T>)
    requires j + 1 < |s| && key(s[j]) != key(s[j + 1])
    requires StablePermutation(s, orig, key)
    ensures StablePermutation(SwapNext(s, j), orig, key)
  {
    SwapKeepsItems(s, j);
    forall v
      ensures KeyFilter(SwapNext(s, j), key, v) == KeyFilter(orig, key, v)
    {
      SwapKeepsKeyOrder(s, j, key, v);
    }
  }

  /**
   * The outer-loop invariant: the last `placed` positions hold the largest
   * items in sorted order, no smaller than anything before them.
   */
  ghost predicate Placed<T>(s: seq<T>, key: T -> int, placed: nat)
    requires placed <= |s|
  {
    (forall a, b :: |s| - placed <= a < b < |s| ==> key(s[a]) <= key(s[b]))
    && (forall a, b :: 0 <= a < |s| - placed <= b < |s| ==> key(s[a]) <= key(s[b]))
  }

  /** Same items, and for every key the items with that key in the same order. */
  ghost predicate StablePermutation<T>(s: seq<T>, t: seq<T>, key: T -> int) {
    multiset(s) == multiset(t) && forall v :: KeyFilter(s, key, v) == KeyFilter(t, key, v)
  }

  /**
   * `bubble_sort`: afterwards the items are sorted, the same items as
   * before, items with equal keys keep their order, and an already sorted
   * slice is left as it was.
   */
  method BubbleSort<T>(items: array<T>, key: T -> int)
    modifies items
    ensures Sorted(items[..], key)
    ensures StablePermutation(items[..], old(items[..]), key)
    ensures Sorted(old(items[..]), key) ==> items[..] == old(items[..])
  {
    var n := items.Length;
    var i := 0;
    while i < n
      invariant 0 <= i <= n
      invariant Placed(items[..], key, i)
      invariant StablePermutation(items[..], old(items[..]), key)
      invariant Sorted(old(items[..]), key) ==> items[..] == old(items[..])
    {
      BubblePass(items, key, i);
      i := i + 1;
    }
    assert Sorted(items[..], key) by {
      assert Placed(items[..], key, n);
    }
  }

  /** One inner step: exchange positions j and j + 1 if they are out of order. */
  function Step<T>(s: seq<T>, key: T -> int, j: nat): (r: seq<T>)
    requires j + 1 < |s|
    ensures |r| == |s|
  {
    if key(s[j]) > key(s[j + 1]) then SwapNext(s, j) else s
  }

  /**
   * The inner-loop invariant of pass i at position j: the largest of the
   * first j + 1 items is at j, and the last i positions are placed.
   */
  ghost predicate Bubbling<T>(s: seq<T>, key: T -> int, i: nat, j: nat)
    requires i < |s|
  {
    j <= |s| - 1 - i
    && (forall a :: 0 <= a <= j ==> key(s[a]) <= key(s[j]))
    && Placed(s, key, i)
  }

  lemma BubblingStep<T>(s: seq<T>, key: T -> int, i: nat, j: nat)
    requires i < |s| && j < |s| - 1 - i && Bubbling(s, key, i, j)
    ensures Bubbling(Step(s, key, j), key, i, j + 1)
  {
    var t := Step(s, key, j);
    assert forall a :: 0 <= a <= j + 1 ==> key(t[a]) <= key(t[j + 1]) by {
      forall a | 0 <= a <= j + 1
        ensures key(t[a]) <= key(t[j + 1])
      {
        if a < j {
          assert t[a] == s[a];
        }
      }
    }
    assert Placed(t, key, i) by {
      assert forall k :: |s| - i <= k < |s| ==> t[k] == s[k];
      forall a, b | 0 <= a < |s| - i <= b < |s|
        ensures key(t[a]) <= key(t[b])
      {
        if a == j || a == j + 1 {
          assert key(t[a]) == key(s[j]) || key(t[a]) == key(s[j + 1]);
        } else {
          assert t[a] == s[a];
        }
      }
    }
  }

  /** A sorted sequence has no out-of-order neighbours, so a step leaves it as it is. */
  lemma SortedStepUnchanged<T>(s: seq<T>, key: T -> int, j: nat)
    requires j + 1 < |s|
    ensures Sorted(s, key) ==> Step(s, key, j) == s
  {
  }

  lemma BubblingDone<T>(s: seq<T>, key: T -> int, i: nat)
    requires i < |s| && Bubbling(s, key, i, |s| - 1 - i)
    ensures Placed(s, key, i + 1)
  {
  }

  /**
   * Outer iteration i of `bubble_sort`: the inner loop carries the largest
   * of the first n - i items up to position n - 1 - i by adjacent swaps.
   */
  method BubblePass<T>(items: array<T>, key: T -> int, i: nat)
    requires i < items.Length && Placed(items[..], key, i)
    modifies items
    ensures Placed(items[..], key, i + 1)
    ensures StablePermutation(items[..], old(items[..]), key)
    ensures Sorted(old(items[..]), key) ==> items[..] == old(items[..])
  {
    var n := items.Length;
    var j := 0;
    while j < n - 1 - i
      invariant Bubbling(items[..], key, i, j)
      invariant StablePermutation(items[..], old(items[..]), key)
      invariant Sorted(old(items[..]), key) ==> items[..] == old(items[..])
    {
      ghost var before := items[..];
      BubblingStep(before, key, i, j);
      SortedStepUnchanged(before, key, j);
      if key(items[j]) > key(items[j + 1]) {
        SwapIsStable(before, j, key, old(items[..]));
        items[j], items[j + 1] := items[j + 1], items[j];
      }
      assert items[..] == Step(before, key, j);
      j := j + 1;
    }
    BubblingDone(items[..], key, i);
  }
}
