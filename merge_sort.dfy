// The sequential part of the lab's merge sort (merge_sort.c): the result
// checks its benchmark applies, the in-place merge of two adjacent runs, the insertion
// sort used below a threshold and the recursive sort that combines them.

module MergeSort {

  /** Non-decreasing. */
  predicate Sorted(s: seq<int>) {
    forall i, j :: 0 <= i < j < |s| ==> s[i] <= s[j]
  }

  /** What isSorted looks at: neighbours in order. */
  predicate NeighboursInOrder(s: seq<int>) {
    forall i :: 0 <= i < |s| - 1 ==> s[i] <= s[i + 1]
  }

  /** Checking neighbours is enough. */
  lemma {:induction false} NeighboursSorted(s: seq<int>)
    ensures NeighboursInOrder(s) <==> Sorted(s)
    decreases |s|
  {
    if |s| > 1 && NeighboursInOrder(s) {
      NeighboursSorted(s[1..]);
      assert NeighboursInOrder(s[1..]);
      assert Sorted(s[1..]);
      forall i, j | 0 <= i < j < |s|
        ensures s[i] <= s[j]
      {
        if i > 0 {
          assert s[i] == s[1..][i - 1] && s[j] == s[1..][j - 1];
        } else if j > 1 {
          assert s[1] == s[1..][0] && s[j] == s[1..][j - 1];
        }
      }
    }
  }

  /** The elements the arrays hold in the first size slots (none for a
      size that is not positive). */
  function Prefix(a: seq<int>, size: int): (p: seq<int>)
    requires size <= |a|
    ensures |p| == if size < 0 then 0 else size
    ensures forall i :: 0 <= i < |p| ==> p[i] == a[i]
  {
    if size <= 0 then [] else a[..size]
  }

  /** isSorted: 1 exactly when the first size elements are non-decreasing. */
  method IsSorted(arr: array<int>, size: int) returns (r: int)
    requires size <= arr.Length
    ensures r == 0 || r == 1
    ensures r == 1 <==> Sorted(Prefix(arr[..], size))
  {
    var i := 0;
    while i < size - 1
      invariant 0 <= i <= if size < 1 then 0 else size - 1
      invariant forall k :: 0 <= k < i ==> arr[k] <= arr[k + 1]
    {
      if arr[i] > arr[i + 1] {
        NeighboursSorted(Prefix(arr[..], size));
        assert !NeighboursInOrder(Prefix(arr[..], size)) by {
          assert Prefix(arr[..], size)[i] > Prefix(arr[..], size)[i + 1];
        }
        return 0;
      }
      i := i + 1;
    }
    NeighboursSorted(Prefix(arr[..], size));
    r := 1;
  }

  /** arraysEqual: 1 exactly when the first size elements agree. */
  method ArraysEqual(arr1: array<int>, arr2: array<int>, size: int) returns (r: int)
    requires size <= arr1.Length && size <= arr2.Length
    ensures r == 0 || r == 1
    ensures r == 1 <==> forall i :: 0 <= i < size ==> arr1[i] == arr2[i]
    ensures r == 1 <==> Prefix(arr1[..], size) == Prefix(arr2[..], size)
  {
    var i := 0;
    while i < size
      invariant 0 <= i <= if size < 0 then 0 else size
      invariant forall k :: 0 <= k < i ==> arr1[k] == arr2[k]
    {
      if arr1[i] != arr2[i] {
        assert Prefix(arr1[..], size)[i] != Prefix(arr2[..], size)[i];
        return 0;
      }
      i := i + 1;
    }
    r := 1;
  }

  // ---------------------------------------------------------------------
  // Merging

  /** The merge of two runs, taking from the left run while its head is not
      greater than the right run's head. */
  function Merged(l: seq<int>, r: seq<int>): (m: seq<int>)
    ensures |m| == |l| + |r|
    decreases |l| + |r|
  {
    if l == [] then r
    else if r == [] then l
    else if l[0] <= r[0] then [l[0]] + Merged(l[1..], r)
    else [r[0]] + Merged(l, r[1..])
  }

  /** A merge holds the elements of both runs. */
  lemma {:induction false} MergedPermutes(l: seq<int>, r: seq<int>)
    ensures multiset(Merged(l, r)) == multiset(l) + multiset(r)
    decreases |l| + |r|
  {
    if l == [] || r == [] {
    } else if l[0] <= r[0] {
      MergedPermutes(l[1..], r);
      HeadPermutes(l);
      HeadPermutes([l[0]] + Merged(l[1..], r));
      assert ([l[0]] + Merged(l[1..], r))[1..] == Merged(l[1..], r);
    } else {
      MergedPermutes(l, r[1..]);
      HeadPermutes(r);
      HeadPermutes([r[0]] + Merged(l, r[1..]));
      assert ([r[0]] + Merged(l, r[1..]))[1..] == Merged(l, r[1..]);
    }
  }

  /** A sequence holds its head and its tail. */
  lemma HeadPermutes(s: seq<int>)
    requires s != []
    ensures multiset(s) == multiset{s[0]} + multiset(s[1..])
  {
    assert s == [s[0]] + s[1..];
  }

  /** Every element of a sorted run is at least its head. */
  lemma HeadIsLeast(s: seq<int>, x: int)
    requires Sorted(s) && x in multiset(s)
    ensures s[0] <= x
  {
    var k :| 0 <= k < |s| && s[k] == x;
  }

  /** No element of s is below h. */
  predicate AtLeast(h: int, s: seq<int>) {
    forall k :: 0 <= k < |s| ==> h <= s[k]
  }

  /** A bound on both runs bounds their merge. */
  lemma {:induction false} MergedAtLeast(h: int, l: seq<int>, r: seq<int>)
    requires AtLeast(h, l) && AtLeast(h, r)
    ensures AtLeast(h, Merged(l, r))
    decreases |l| + |r|
  {
    if l == [] || r == [] {
    } else if l[0] <= r[0] {
      MergedAtLeast(h, l[1..], r);
    } else {
      MergedAtLeast(h, l, r[1..]);
    }
  }

  /** A sorted sequence with a head below all of it stays sorted. */
  lemma SortedCons(h: int, s: seq<int>)
    requires Sorted(s) && AtLeast(h, s)
    ensures Sorted([h] + s)
  {
    forall i, j | 0 <= i < j < |s| + 1
      ensures ([h] + s)[i] <= ([h] + s)[j]
    {
      if i > 0 {
        assert ([h] + s)[i] == s[i - 1];
      }
      assert ([h] + s)[j] == s[j - 1];
    }
  }

  /** The head of a sorted sequence bounds it, and its tail is sorted. */
  lemma SortedSplit(s: seq<int>)
    requires Sorted(s) && s != []
    ensures AtLeast(s[0], s) && Sorted(s[1..])
  {
  }

  /** The merge of two sorted runs is sorted. */
  lemma {:induction false} MergedSorted(l: seq<int>, r: seq<int>)
    requires Sorted(l) && Sorted(r)
    ensures Sorted(Merged(l, r))
    decreases |l| + |r|
  {
    if l == [] || r == [] {
    } else if l[0] <= r[0] {
      SortedSplit(l);
      MergedSorted(l[1..], r);
      MergedAtLeast(l[0], l[1..], r);
      SortedCons(l[0], Merged(l[1..], r));
    } else {
      SortedSplit(r);
      MergedSorted(l, r[1..]);
      MergedAtLeast(r[0], l, r[1..]);
      SortedCons(r[0], Merged(l, r[1..]));
    }
  }

  /** Stability at the boundary: when no element of the left run exceeds
      any of the right run (ties included), the merge keeps the left run
      first and changes nothing. */
  lemma {:induction false} MergedKeepsOrderedRuns(l: seq<int>, r: seq<int>)
    requires forall i, j :: 0 <= i < |l| && 0 <= j < |r| ==> l[i] <= r[j]
    ensures Merged(l, r) == l + r
    decreases |l|
  {
    if l != [] && r != [] {
      assert l[0] <= r[0];
      MergedKeepsOrderedRuns(l[1..], r);
      assert [l[0]] + (l[1..] + r) == l + r;
    }
  }

  /** The merge loop's view of Merged(l[i..], r[j..]): what is still to
      merge once i elements of l and j of r have been placed. */
  function MergeFrom(l: seq<int>, r: seq<int>, i: nat, j: nat): (m: seq<int>)
    requires i <= |l| && j <= |r|
    ensures |m| == |l| - i + |r| - j
    decreases |l| - i + |r| - j
  {
    if i == |l| then r[j..]
    else if j == |r| then l[i..]
    else if l[i] <= r[j] then [l[i]] + MergeFrom(l, r, i + 1, j)
    else [r[j]] + MergeFrom(l, r, i, j + 1)
  }

  /** MergeFrom is Merged on the unplaced parts of the runs. */
  lemma {:induction false} MergeFromIsMerged(l: seq<int>, r: seq<int>, i: nat, j: nat)
    requires i <= |l| && j <= |r|
    ensures MergeFrom(l, r, i, j) == Merged(l[i..], r[j..])
    decreases |l| - i + |r| - j
  {
    if i < |l| && j < |r| {
      if l[i] <= r[j] {
        MergeFromIsMerged(l, r, i + 1, j);
        assert l[i..][1..] == l[i + 1..];
      } else {
        MergeFromIsMerged(l, r, i, j + 1);
        assert r[j..][1..] == r[j + 1..];
      }
    }
  }

  /** One step of the merge loop: the element placed next is the head of
      what is left to merge, and the rest of m continues from there. */
  lemma MergeFromStep(l: seq<int>, r: seq<int>, i: nat, j: nat, m: seq<int>, p: nat)
    requires i < |l| && j < |r| && p < |m|
    requires MergeFrom(l, r, i, j) == m[p..]
    ensures l[i] <= r[j] ==> m[p] == l[i] && MergeFrom(l, r, i + 1, j) == m[p + 1..]
    ensures l[i] > r[j] ==> m[p] == r[j] && MergeFrom(l, r, i, j + 1) == m[p + 1..]
  {
    assert m[p..][0] == m[p];
    assert m[p..][1..] == m[p + 1..];
  }

  /** merge: arr[left..right] becomes the merge of the runs arr[left..mid]
      and arr[mid+1..right] as they were; nothing outside changes. The
      runs are copied out first, as the two temporary buffers are. */
  method Merge(arr: array<int>, left: int, right: int, mid: int) returns (r: int)
    requires 0 <= left <= mid + 1 && mid <= right < arr.Length
    modifies arr
    ensures r == 0
    ensures arr[left..right + 1] == Merged(old(arr[left..mid + 1]), old(arr[mid + 1..right + 1]))
    ensures forall t :: 0 <= t < arr.Length && !(left <= t <= right) ==> arr[t] == old(arr[t])
  {
    var L := arr[left..mid + 1];
    var R := arr[mid + 1..right + 1];
    MergeRuns(arr, left, L, R);
    assert forall t :: 0 <= t < right + 1 - left ==> arr[left..right + 1][t] == Merged(L, R)[t];
    r := 0;
  }

  /** The loops of merge, from the copied runs L and R into arr[left..]. */
  method MergeRuns(arr: array<int>, left: int, L: seq<int>, R: seq<int>)
    requires 0 <= left && left + |L| + |R| <= arr.Length
    modifies arr
    ensures forall t :: left <= t < left + |L| + |R| ==> arr[t] == Merged(L, R)[t - left]
    ensures forall t :: 0 <= t < arr.Length && !(left <= t < left + |L| + |R|) ==> arr[t] == old(arr[t])
  {
    ghost var m := Merged(L, R);
    MergeFromIsMerged(L, R, 0, 0);
    assert L[0..] == L && R[0..] == R;
    var i, j, k := MergeHeads(arr, left, L, R, m);
    MergeFromIsMerged(L, R, i, j);
    DrainRests(arr, left, L, R, i, j, m);
  }

  /** The two loops after merge's main one: whatever is left of L, then
      whatever is left of R, goes to arr[left + i + j..]. */
  method DrainRests(arr: array<int>, left: int, L: seq<int>, R: seq<int>, i: int, j: int, ghost m: seq<int>)
    requires 0 <= left && 0 <= i <= |L| && 0 <= j <= |R| && (i == |L| || j == |R|)
    requires |m| == |L| + |R| && left + |L| + |R| <= arr.Length
    requires Merged(L[i..], R[j..]) == m[i + j..]
    requires forall t :: left <= t < left + i + j ==> arr[t] == m[t - left]
    modifies arr
    ensures forall t :: left <= t < left + |L| + |R| ==> arr[t] == m[t - left]
    ensures forall t :: 0 <= t < arr.Length && !(left + i + j <= t < left + |L| + |R|) ==> arr[t] == old(arr[t])
  {
    MergedRests(L, R, i, j, m);
    var k := Drain(arr, left, left + i + j, L, i, m);
    k := Drain(arr, left, k, R, j, m);
  }

  /** Once one run is used up, the merge continues with the rest of the
      left run and then the rest of the right run (one of them empty). */
  lemma MergedRests(L: seq<int>, R: seq<int>, i: nat, j: nat, m: seq<int>)
    requires i <= |L| && j <= |R| && (i == |L| || j == |R|) && |m| == |L| + |R|
    requires Merged(L[i..], R[j..]) == m[i + j..]
    ensures m[i + j..i + j + |L| - i] == L[i..]
    ensures m[|L| + j..|L| + j + |R| - j] == R[j..]
  {
    if i < |L| {
      assert R[j..] == [];
    } else {
      assert L[i..] == [];
    }
  }

  /** The main loop of merge: while both runs have elements, the smaller
      head (the left one on a tie) goes to arr[k]. */
  method MergeHeads(arr: array<int>, left: int, L: seq<int>, R: seq<int>, ghost m: seq<int>)
    returns (i: int, j: int, k: int)
    requires 0 <= left && left + |L| + |R| <= arr.Length
    requires m == MergeFrom(L, R, 0, 0)
    modifies arr
    ensures 0 <= i <= |L| && 0 <= j <= |R| && k == left + i + j && (i == |L| || j == |R|)
    ensures MergeFrom(L, R, i, j) == m[i + j..]
    ensures forall t :: left <= t < k ==> arr[t] == m[t - left]
    ensures forall t :: 0 <= t < arr.Length && !(left <= t < left + |L| + |R|) ==> arr[t] == old(arr[t])
  {
    i, j, k := 0, 0, left;
    while i < |L| && j < |R|
      invariant 0 <= i <= |L| && 0 <= j <= |R| && k == left + i + j
      invariant forall t :: left <= t < k ==> arr[t] == m[t - left]
      invariant forall t :: 0 <= t < arr.Length && !(left <= t < left + |L| + |R|) ==> arr[t] == old(arr[t])
      invariant MergeFrom(L, R, i, j) == m[i + j..]
      decreases |L| - i + |R| - j
    {
      i, j := PlaceHead(arr, left, L, R, m, i, j);
      k := k + 1;
    }
  }

  /** One round of merge's main loop: the smaller head (the left one on a
      tie) goes to arr[left + i + j], which is where the merge m has it. */
  method PlaceHead(arr: array<int>, left: int, L: seq<int>, R: seq<int>, ghost m: seq<int>, i: int, j: int)
    returns (i': int, j': int)
    requires 0 <= left && 0 <= i < |L| && 0 <= j < |R| && left + |L| + |R| <= arr.Length
    requires |m| == |L| + |R| && MergeFrom(L, R, i, j) == m[i + j..]
    requires forall t :: left <= t < left + i + j ==> arr[t] == m[t - left]
    modifies arr
    ensures (i', j') == (if L[i] <= R[j] then (i + 1, j) else (i, j + 1))
    ensures MergeFrom(L, R, i', j') == m[i' + j'..]
    ensures forall t :: left <= t < left + i' + j' ==> arr[t] == m[t - left]
    ensures forall t :: 0 <= t < arr.Length && t != left + i + j ==> arr[t] == old(arr[t])
  {
    MergeFromStep(L, R, i, j, m, i + j);
    var x;
    if L[i] <= R[j] {
      x, i', j' := L[i], i + 1, j;
    } else {
      x, i', j' := R[j], i, j + 1;
    }
    PutNext(arr, left, left + i + j, x, m);
  }

  /** Writes x, which is m[k - left], to arr[k], extending by one the
      prefix arr[left..k] that already holds m. */
  method PutNext(arr: array<int>, left: int, k: int, x: int, ghost m: seq<int>)
    requires 0 <= left <= k < arr.Length && k - left < |m| && x == m[k - left]
    requires forall t :: left <= t < k ==> arr[t] == m[t - left]
    modifies arr
    ensures forall t :: left <= t <= k ==> arr[t] == m[t - left]
    ensures forall t :: 0 <= t < arr.Length && t != k ==> arr[t] == old(arr[t])
  {
    arr[k] := x;
  }

  /** The loops that finish merge: the rest of one run, src[from..], goes
      to arr[k..], where the merge m continues with it. */
  method Drain(arr: array<int>, left: int, k: int, src: seq<int>, from: int, ghost m: seq<int>)
    returns (next: int)
    requires 0 <= left <= k && 0 <= from <= |src|
    requires k - left + |src| - from <= |m| && k + |src| - from <= arr.Length
    requires m[k - left..k - left + |src| - from] == src[from..]
    requires forall t :: left <= t < k ==> arr[t] == m[t - left]
    modifies arr
    ensures next == k + |src| - from
    ensures forall t :: left <= t < next ==> arr[t] == m[t - left]
    ensures forall t :: 0 <= t < arr.Length && !(k <= t < next) ==> arr[t] == old(arr[t])
  {
    var i := from;
    next := k;
    while i < |src|
      invariant from <= i <= |src| && next == k + i - from
      invariant forall t :: left <= t < next ==> arr[t] == m[t - left]
      invariant forall t :: 0 <= t < arr.Length && !(k <= t < next) ==> arr[t] == old(arr[t])
    {
      assert src[i] == src[from..][i - from] == m[next - left];
      arr[next] := src[i];
      next, i := next + 1, i + 1;
    }
  }

  // ---------------------------------------------------------------------
  // Insertion sort

  /** Inserting x into s the way insertSort's inner loop does: scanning from
      the right, past every element greater than x. */
  function Inserted(x: int, s: seq<int>): (r: seq<int>)
    ensures |r| == |s| + 1
  {
    if s == [] || s[|s| - 1] <= x then s + [x]
    else Inserted(x, s[..|s| - 1]) + [s[|s| - 1]]
  }

  /** insertSort's outer loop: each element in turn inserted into the
      sorted prefix before it. */
  function InsertionSorted(s: seq<int>): (r: seq<int>)
    ensures |r| == |s|
  {
    if s == [] then [] else Inserted(s[|s| - 1], InsertionSorted(s[..|s| - 1]))
  }

  /** Inserting adds exactly x. */
  lemma {:induction false} InsertedPermutes(x: int, s: seq<int>)
    ensures multiset(Inserted(x, s)) == multiset(s) + multiset{x}
    ensures |Inserted(x, s)| == |s| + 1
  {
    if s != [] && s[|s| - 1] > x {
      InsertedPermutes(x, s[..|s| - 1]);
      assert s == s[..|s| - 1] + [s[|s| - 1]];
    }
  }

  /** Inserting into a sorted sequence keeps it sorted. */
  lemma {:induction false} InsertedSorted(x: int, s: seq<int>)
    requires Sorted(s)
    ensures Sorted(Inserted(x, s))
  {
    if s != [] && s[|s| - 1] > x {
      var init, last := s[..|s| - 1], s[|s| - 1];
      InsertedSorted(x, init);
      InsertedPermutes(x, init);
      var front := Inserted(x, init);
      forall k | 0 <= k < |front|
        ensures front[k] <= last
      {
        assert front[k] in multiset(init) + multiset{x};
        if front[k] in multiset(init) {
          var p :| 0 <= p < |init| && init[p] == front[k];
          assert s[p] == init[p];
        }
      }
    }
  }

  /** Insertion sort sorts. */
  lemma {:induction false} InsertionSortedSorted(s: seq<int>)
    ensures Sorted(InsertionSorted(s))
  {
    if s != [] {
      InsertionSortedSorted(s[..|s| - 1]);
      InsertedSorted(s[|s| - 1], InsertionSorted(s[..|s| - 1]));
    }
  }

  /** Insertion sort permutes. */
  lemma {:induction false} InsertionSortedPermutes(s: seq<int>)
    ensures multiset(InsertionSorted(s)) == multiset(s)
  {
    if s != [] {
      var init, x := s[..|s| - 1], s[|s| - 1];
      var t := InsertionSorted(init);
      InsertionSortedPermutes(init);
      InsertedPermutes(x, t);
      AppendPermutes(s, t, Inserted(x, t));
    }
  }

  /** One step of the permutation argument, with the functions abstracted. */
  lemma AppendPermutes(s: seq<int>, t: seq<int>, u: seq<int>)
    requires s != []
    requires multiset(t) == multiset(s[..|s| - 1]) && multiset(u) == multiset(t) + multiset{s[|s| - 1]}
    ensures multiset(u) == multiset(s)
  {
    assert s == s[..|s| - 1] + [s[|s| - 1]];
  }

  /** Insertion sort sorts and permutes. */
  lemma InsertionSortedSorts(s: seq<int>)
    ensures Sorted(InsertionSorted(s))
    ensures multiset(InsertionSorted(s)) == multiset(s)
  {
    InsertionSortedSorted(s);
    InsertionSortedPermutes(s);
  }

  /** Taking the same element out of two equal multisets. */
  lemma MultisetCancel(x: int, p: multiset<int>, q: multiset<int>)
    requires multiset{x} + p == multiset{x} + q
    ensures p == q
  {
    forall y
      ensures p[y] == q[y]
    {
      assert (multiset{x} + p)[y] == multiset{x}[y] + p[y];
      assert (multiset{x} + q)[y] == multiset{x}[y] + q[y];
    }
  }

  /** A sorted sequence is fixed by its elements. */
  lemma {:induction false} SortedUnique(a: seq<int>, b: seq<int>)
    requires Sorted(a) && Sorted(b) && multiset(a) == multiset(b)
    ensures a == b
    decreases |a|
  {
    if a != [] {
      assert |b| == |a| by {
        assert |multiset(a)| == |a| && |multiset(b)| == |b|;
      }
      assert a[0] in multiset(b) && b[0] in multiset(a);
      HeadIsLeast(b, a[0]);
      HeadIsLeast(a, b[0]);
      assert a[0] == b[0];
      assert a == [a[0]] + a[1..] && b == [b[0]] + b[1..];
      assert multiset(a) == multiset{a[0]} + multiset(a[1..]);
      assert multiset(b) == multiset{b[0]} + multiset(b[1..]);
      MultisetCancel(a[0], multiset(a[1..]), multiset(b[1..]));
      SortedUnique(a[1..], b[1..]);
    }
  }

  /** Any sorted permutation of s is its insertion sort. */
  lemma SortedIsInsertionSorted(s: seq<int>, t: seq<int>)
    requires Sorted(t) && multiset(t) == multiset(s)
    ensures t == InsertionSorted(s)
  {
    InsertionSortedSorts(s);
    SortedUnique(t, InsertionSorted(s));
  }

  /** Where insertSort's inner loop stops: after the elements that are not
      greater than the key and before those that are, the key goes. */
  lemma {:induction false} InsertedAt(key: int, w: seq<int>, n: nat)
    requires n <= |w| && (n == 0 || w[n - 1] <= key)
    requires forall t :: n <= t < |w| ==> w[t] > key
    ensures Inserted(key, w) == w[..n] + [key] + w[n..]
    decreases |w|
  {
    if n < |w| {
      var init := w[..|w| - 1];
      InsertedAt(key, init, n);
      assert init[..n] == w[..n];
      assert w[n..] == init[n..] + [w[|w| - 1]];
    }
  }

  /** One round of insertSort's outer loop: key, at arr[i], moves left
      past the larger elements of arr[left..i-1], which shift one place
      right. */
  method InsertLast(arr: array<int>, left: int, i: int, ghost w: seq<int>, ghost key: int)
    requires 0 <= left < i < arr.Length
    requires arr[left..i] == w && arr[i] == key
    modifies arr
    ensures arr[left..i + 1] == Inserted(key, w)
    ensures forall t :: 0 <= t < arr.Length && !(left <= t <= i) ==> arr[t] == old(arr[t])
  {
    var x := arr[i];
    var j := ShiftLarger(arr, left, i, x, w);
    arr[j + 1] := x;
    ghost var n := j + 1 - left;
    InsertedAt(key, w, n);
    assert forall t :: 0 <= t < i + 1 - left ==>
      arr[left..i + 1][t] == (w[..n] + [key] + w[n..])[t];
  }

  /** The shifting loop itself: on exit arr[left..j] is as it was,
      arr[j+2..i] holds the elements after it, each greater than the key,
      one place right, and arr[j], if any, is not greater than the key. */
  method ShiftLarger(arr: array<int>, left: int, i: int, key: int, ghost w: seq<int>) returns (j: int)
    requires 0 <= left < i < arr.Length && w == arr[left..i]
    modifies arr
    ensures left - 1 <= j < i
    ensures forall t :: left <= t <= j ==> arr[t] == w[t - left]
    ensures forall t :: j + 1 < t <= i ==> arr[t] == w[t - left - 1]
    ensures j < left || w[j - left] <= key
    ensures forall t :: j + 1 - left <= t < |w| ==> w[t] > key
    ensures forall t :: 0 <= t < arr.Length && !(left <= t <= i) ==> arr[t] == old(arr[t])
  {
    j := i - 1;
    while j >= left && arr[j] > key
      invariant left - 1 <= j < i
      invariant forall t :: left <= t <= j ==> arr[t] == w[t - left]
      invariant forall t :: j + 1 < t <= i ==> arr[t] == w[t - left - 1]
      invariant forall t :: j + 1 - left <= t < |w| ==> w[t] > key
      invariant forall t :: 0 <= t < arr.Length && !(left <= t <= i) ==> arr[t] == old(arr[t])
      decreases j
    {
      arr[j + 1] := arr[j];
      j := j - 1;
    }
  }

  /** insertSort: arr[left..right] becomes its insertion sort; nothing
      outside changes. */
  method InsertSort(arr: array<int>, left: int, right: int)
    requires 0 <= left && right < arr.Length
    modifies arr
    ensures left <= right ==> arr[left..right + 1] == InsertionSorted(old(arr[left..right + 1]))
    ensures forall t :: 0 <= t < arr.Length && !(left <= t <= right) ==> arr[t] == old(arr[t])
  {
    if left > right {
      return;
    }
    ghost var src := arr[left..right + 1];
    InsertRounds(arr, left, right, src);
    SortedPrefixIsInsertionSorted(src, |src|);
    assert src[..|src|] == src;
  }

  /** insertSort's outer loop: after it, arr[left..right] holds every
      element of src inserted in turn. */
  method InsertRounds(arr: array<int>, left: int, right: int, ghost src: seq<int>)
    requires 0 <= left <= right < arr.Length && arr[left..right + 1] == src
    modifies arr
    ensures arr[left..right + 1] == SortedPrefix(src, |src|)
    ensures forall t :: 0 <= t < arr.Length && !(left <= t <= right) ==> arr[t] == old(arr[t])
  {
    var i := left + 1;
    assert arr[left..left + 1] == [src[0]];
    while i <= right
      invariant left + 1 <= i <= right + 1
      invariant arr[left..i] == SortedPrefix(src, i - left)
      invariant arr[i..right + 1] == src[i - left..]
      invariant forall t :: 0 <= t < arr.Length && !(left <= t <= right) ==> arr[t] == old(arr[t])
    {
      InsertNext(arr, left, i, right, src);
      i := i + 1;
    }
  }

  /** One round of insertSort's outer loop, stated on the source range:
      the sorted prefix grows by the next element, the rest is untouched. */
  method InsertNext(arr: array<int>, left: int, i: int, right: int, ghost src: seq<int>)
    requires 0 <= left < i <= right < arr.Length && |src| == right + 1 - left
    requires arr[left..i] == SortedPrefix(src, i - left)
    requires arr[i..right + 1] == src[i - left..]
    modifies arr
    ensures arr[left..i + 1] == SortedPrefix(src, i + 1 - left)
    ensures arr[i + 1..right + 1] == src[i + 1 - left..]
    ensures forall t :: 0 <= t < arr.Length && !(left <= t <= right) ==> arr[t] == old(arr[t])
  {
    ghost var rest := arr[i + 1..right + 1];
    assert rest == src[i + 1 - left..] by {
      assert rest == arr[i..right + 1][1..];
    }
    assert arr[i] == src[i - left] by {
      assert arr[i] == arr[i..right + 1][0];
    }
    InsertLast(arr, left, i, SortedPrefix(src, i - left), src[i - left]);
    assert arr[i + 1..right + 1] == rest;
  }

  /** insertSort's state after n rounds of the outer loop: the first n
      elements of s, each inserted in turn. */
  function SortedPrefix(s: seq<int>, n: nat): (r: seq<int>)
    requires n <= |s|
    ensures |r| == n
  {
    if n == 0 then [] else Inserted(s[n - 1], SortedPrefix(s, n - 1))
  }

  /** After n rounds the prefix is the insertion sort of s[..n]. */
  lemma {:induction false} SortedPrefixIsInsertionSorted(s: seq<int>, n: nat)
    requires n <= |s|
    ensures SortedPrefix(s, n) == InsertionSorted(s[..n])
  {
    if n > 0 {
      SortedPrefixIsInsertionSorted(s, n - 1);
      assert s[..n][..n - 1] == s[..n - 1];
    }
  }

  // ---------------------------------------------------------------------
  // The recursive sort

  /** Two snapshots that agree on [lo, hi) have the same slice there. */
  lemma SameSlice(a: seq<int>, b: seq<int>, lo: int, hi: int)
    requires 0 <= lo <= hi <= |a| == |b|
    requires forall t :: lo <= t < hi ==> a[t] == b[t]
    ensures a[lo..hi] == b[lo..hi]
  {
  }

  /** Sorting the left half of a0[left..right] (giving a1) and then
      merging it with the sorted right half sorts the range. */
  lemma SortHalvesSorts(a0: seq<int>, a1: seq<int>, a3: seq<int>, left: int, mid: int, right: int)
    requires 0 <= left <= mid < right < |a0| == |a1| == |a3|
    requires a1[left..mid + 1] == InsertionSorted(a0[left..mid + 1])
    requires forall t :: 0 <= t < |a0| && !(left <= t <= mid) ==> a1[t] == a0[t]
    requires a3[left..right + 1] == Merged(a1[left..mid + 1], InsertionSorted(a1[mid + 1..right + 1]))
    ensures a3[left..right + 1] == InsertionSorted(a0[left..right + 1])
  {
    SameSlice(a0, a1, mid + 1, right + 1);
    SliceHalves(a0, left, mid, right);
    MergedHalves(a0[left..right + 1], mid + 1 - left);
  }

  /** Sorting the right half of a1[left..right] (giving a2) leaves the left
      half in place, so merging the two (giving a3) merges the left half
      of a1 with the sorted right half of a1. */
  lemma SortRightMerges(a1: seq<int>, a2: seq<int>, a3: seq<int>, left: int, mid: int, right: int)
    requires 0 <= left <= mid < right < |a1| == |a2| == |a3|
    requires a2[mid + 1..right + 1] == InsertionSorted(a1[mid + 1..right + 1])
    requires forall t :: 0 <= t < |a1| && !(mid + 1 <= t <= right) ==> a2[t] == a1[t]
    requires a3[left..right + 1] == Merged(a2[left..mid + 1], a2[mid + 1..right + 1])
    ensures a3[left..right + 1] == Merged(a1[left..mid + 1], InsertionSorted(a1[mid + 1..right + 1]))
  {
    SameSlice(a1, a2, left, mid + 1);
  }

  /** The halves of a slice are slices. */
  lemma SliceHalves(a: seq<int>, left: int, mid: int, right: int)
    requires 0 <= left <= mid < right < |a|
    ensures a[left..right + 1][..mid + 1 - left] == a[left..mid + 1]
    ensures a[left..right + 1][mid + 1 - left..] == a[mid + 1..right + 1]
  {
  }

  /** sequentialMergeSort: arr[left..right] is replaced by its insertion
      sort, whatever the threshold below which insertion sort takes over,
      and so (InsertionSortedSorts) ends sorted and a permutation of what
      it held; nothing else changes and the status is always 0. A range of
      at most one element is left alone. */
  method SequentialMergeSort(arr: array<int>, left: int, right: int, threshold: int) returns (r: int)
    requires 0 <= left && right < arr.Length
    modifies arr
    ensures r == 0
    ensures left <= right ==> arr[left..right + 1] == InsertionSorted(old(arr[left..right + 1]))
    ensures forall t :: 0 <= t < arr.Length && !(left <= t <= right) ==> arr[t] == old(arr[t])
    decreases right - left, 2
  {
    if left >= right {
      if left == right {
        assert arr[left..right + 1] == [arr[left]];
        assert InsertionSorted([arr[left]]) == [arr[left]];
      }
      return 0;
    }
    if right - left < threshold {
      InsertSort(arr, left, right);
      return 0;
    }
    r := SortHalves(arr, left, right, threshold);
  }

  /** The rest of sequentialMergeSort: both halves sorted, then merged. */
  method SortHalves(arr: array<int>, left: int, right: int, threshold: int) returns (r: int)
    requires 0 <= left < right < arr.Length
    modifies arr
    ensures r == 0
    ensures arr[left..right + 1] == InsertionSorted(old(arr[left..right + 1]))
    ensures forall t :: 0 <= t < arr.Length && !(left <= t <= right) ==> arr[t] == old(arr[t])
    decreases right - left, 1
  {
    ghost var a0 := arr[..];
    var mid := left + (right - left) / 2;
    r := SequentialMergeSort(arr, left, mid, threshold);
    ghost var a1 := arr[..];
    assert a1[left..mid + 1] == InsertionSorted(a0[left..mid + 1]);
    assert forall t :: 0 <= t < |a0| && !(left <= t <= mid) ==> a1[t] == a0[t];
    r := SortRightAndMerge(arr, left, mid, right, threshold);
    ghost var a3 := arr[..];
    assert a3[left..right + 1] == Merged(a1[left..mid + 1], InsertionSorted(a1[mid + 1..right + 1]));
    SortHalvesSorts(a0, a1, a3, left, mid, right);
  }

  /** The second half of sortHalves: the right half is sorted, then the
      two halves are merged. */
  method SortRightAndMerge(arr: array<int>, left: int, mid: int, right: int, threshold: int) returns (r: int)
    requires 0 <= left <= mid < right < arr.Length
    modifies arr
    ensures r == 0
    ensures arr[left..right + 1] == Merged(old(arr[left..mid + 1]), InsertionSorted(old(arr[mid + 1..right + 1])))
    ensures forall t :: 0 <= t < arr.Length && !(left <= t <= right) ==> arr[t] == old(arr[t])
    decreases right - left, 0
  {
    ghost var a1 := arr[..];
    r := SequentialMergeSort(arr, mid + 1, right, threshold);
    ghost var a2 := arr[..];
    assert a2[mid + 1..right + 1] == InsertionSorted(a1[mid + 1..right + 1]);
    assert forall t :: 0 <= t < |a1| && !(mid + 1 <= t <= right) ==> a2[t] == a1[t];
    r := Merge(arr, left, right, mid);
    ghost var a3 := arr[..];
    assert a3[left..right + 1] == Merged(a2[left..mid + 1], a2[mid + 1..right + 1]);
    SortRightMerges(a1, a2, a3, left, mid, right);
  }

  /** The merge step of the sort: merging the sorted halves of s gives the
      sorted s. */
  lemma MergedHalves(s: seq<int>, k: nat)
    requires k <= |s|
    ensures Merged(InsertionSorted(s[..k]), InsertionSorted(s[k..])) == InsertionSorted(s)
  {
    var a, b := InsertionSorted(s[..k]), InsertionSorted(s[k..]);
    InsertionSortedSorts(s[..k]);
    InsertionSortedSorts(s[k..]);
    MergedSorted(a, b);
    MergedPermutes(a, b);
    SplitPermutes(s, k);
    SortedIsInsertionSorted(s, Merged(a, b));
  }

  /** The two halves of s hold its elements. */
  lemma SplitPermutes(s: seq<int>, k: nat)
    requires k <= |s|
    ensures multiset(s[..k]) + multiset(s[k..]) == multiset(s)
  {
    assert s == s[..k] + s[k..];
  }

  /** Two runs of sequentialMergeSort over the same range, with any two
      thresholds, leave the same contents: the insertion sort of the range. */
  lemma ThresholdIrrelevant(s: seq<int>, x: seq<int>, y: seq<int>)
    requires Sorted(x) && multiset(x) == multiset(s)
    requires Sorted(y) && multiset(y) == multiset(s)
    ensures x == y && x == InsertionSorted(s)
  {
    SortedIsInsertionSorted(s, x);
    SortedIsInsertionSorted(s, y);
  }
}
