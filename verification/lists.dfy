/** The two list edits the contact model performs: dropping every copy of
    a value (`[p for p in xs if p != x]`) and overwriting the first copy
    (the `for … break` loop of `edit_phone`). */
module Lists {

  /** Every element of `xs` except the copies of `x`, in their original order. */
  function RemoveAll<T(==)>(xs: seq<T>, x: T): (r: seq<T>)
    ensures x !in r
    decreases |xs|
  {
    if |xs| == 0 then []
    else
      assert xs == [xs[0]] + xs[1..];
      (if xs[0] == x then [] else [xs[0]]) + RemoveAll(xs[1..], x)
  }

  /** Filtering distributes over concatenation, so the kept elements stay
      in the order they had. */
  lemma {:induction false} RemoveAllAppend<T>(a: seq<T>, b: seq<T>, x: T)
    ensures RemoveAll(a + b, x) == RemoveAll(a, x) + RemoveAll(b, x)
    decreases |a|
  {
    if |a| == 0 {
      assert a + b == b;
    } else {
      assert (a + b)[0] == a[0];
      assert (a + b)[1..] == a[1..] + b;
      RemoveAllAppend(a[1..], b, x);
    }
  }

  /** Only the copies of `x` go: every other value keeps its count. */
  lemma {:induction false} RemoveAllCounts<T>(xs: seq<T>, x: T)
    ensures multiset(RemoveAll(xs, x)) == multiset(xs)[x := 0]
    decreases |xs|
  {
    if |xs| > 0 {
      RemoveAllCounts(xs[1..], x);
      assert xs == [xs[0]] + xs[1..];
    }
  }

  /** Removing a value that does not occur changes nothing. */
  lemma {:induction false} RemoveAllAbsent<T>(xs: seq<T>, x: T)
    requires x !in xs
    ensures RemoveAll(xs, x) == xs
    decreases |xs|
  {
    if |xs| > 0 {
      assert x !in xs[1..];
      RemoveAllAbsent(xs[1..], x);
      assert [xs[0]] + xs[1..] == xs;
    }
  }

  /** Removing the one copy of `x` that sits between `a` and `c`. */
  lemma RemoveAllSingle<T>(a: seq<T>, x: T, c: seq<T>)
    requires x !in a && x !in c
    ensures RemoveAll(a + [x] + c, x) == a + c
  {
    assert RemoveAll([x], x) == [] by {
      assert [x][1..] == [];
    }
    RemoveAllAppend(a, [x], x);
    RemoveAllAbsent(a, x);
    assert RemoveAll(a + [x], x) == a;
    RemoveAllAppend(a + [x], c, x);
    RemoveAllAbsent(c, x);
  }

  /** Position of the first copy of `x` in `xs`; `|xs|` when there is none. */
  function FirstIndex<T(==)>(xs: seq<T>, x: T): (i: nat)
    ensures i <= |xs|
    ensures i < |xs| ==> xs[i] == x
    ensures forall k :: 0 <= k < i ==> xs[k] != x
    ensures i == |xs| <==> x !in xs
    decreases |xs|
  {
    if |xs| == 0 then 0 else if xs[0] == x then 0 else 1 + FirstIndex(xs[1..], x)
  }

  /** The first position of `x` is the one position that holds `x` and
      has no `x` before it (or the end, when there is none). */
  lemma FirstIndexUnique<T>(xs: seq<T>, x: T, i: nat)
    requires i <= |xs|
    requires i < |xs| ==> xs[i] == x
    requires forall k :: 0 <= k < i ==> xs[k] != x
    requires i == |xs| ==> x !in xs
    ensures FirstIndex(xs, x) == i
  {
  }

  /** Appending one element does not move an earlier first occurrence. */
  lemma FirstIndexSnoc<T>(xs: seq<T>, y: T, x: T)
    ensures FirstIndex(xs + [y], x) == if x in xs then FirstIndex(xs, x) else if x == y then |xs| else |xs| + 1
  {
    var ys := xs + [y];
    var j := FirstIndex(xs, x);
    if x in xs {
      FirstIndexUnique(ys, x, j);
    } else if x == y {
      FirstIndexUnique(ys, x, |xs|);
    } else {
      assert x !in ys;
      FirstIndexUnique(ys, x, |ys|);
    }
  }

  /** `xs` with its first copy of `x` (if any) overwritten by `y`: that
      position receives `y`, every other position keeps its element, and
      the length is unchanged. */
  function ReplaceFirst<T(==)>(xs: seq<T>, x: T, y: T): (r: seq<T>)
    ensures |r| == |xs|
    ensures forall k :: 0 <= k < |xs| && k != FirstIndex(xs, x) ==> r[k] == xs[k]
    ensures x in xs ==> r[FirstIndex(xs, x)] == y
    decreases |xs|
  {
    if |xs| == 0 then []
    else if xs[0] == x then [y] + xs[1..]
    else
      var tail := ReplaceFirst(xs[1..], x, y);
      assert forall k :: 1 <= k < |xs| ==> xs[k] == xs[1..][k - 1];
      [xs[0]] + tail
  }

  /** Without a copy of `x` there is nothing to overwrite. */
  lemma ReplaceFirstAbsent<T>(xs: seq<T>, x: T, y: T)
    requires x !in xs
    ensures ReplaceFirst(xs, x, y) == xs
  {
  }
}
