/**
 * The stable merge sort of sim/prog1/main.c.
 *
 * `merge` joins the sorted runs `arr[left..mid]` and `arr[mid+1..right]`
 * through the scratch buffer `temp`, taking ties from the left run, and copies
 * the result back; `merge_sort_recursive` sorts both halves and skips the
 * merge when they are already in order; `MergeSort` allocates the buffer; the
 * program copies the sorted array into its result region. C's `int` elements
 * are mathematical integers here: the sort only compares them.
 */
module Prog1MergeSort {

  // ---------------------------------------------------------------------------
  // Specification
  // ---------------------------------------------------------------------------

  ghost predicate Sorted(s: seq<int>) {
    forall i, j :: 0 <= i < j < |s| ==> s[i] <= s[j]
  }

  /** The sort key of a plain integer array: the element itself. */
  function Ident(x: int): int {
    x
  }

  /**
   * The merge of the loops of `merge`: repeatedly take the head of `a` when its
   * key is at most the head of `b` (ties from the left), otherwise the head of
   * `b`, and append what is left of either run.
   */
  function MergeBy<T>(a: seq<T>, b: seq<T>, key: T -> int): (r: seq<T>)
    ensures |r| == |a| + |b|
    decreases |a| + |b|
  {
    if a == [] then b
    else if b == [] then a
    else if key(a[0]) <= key(b[0]) then [a[0]] + MergeBy(a[1..], b, key)
    else [b[0]] + MergeBy(a, b[1..], key)
  }

  /** The merge neither loses nor invents elements. */
  lemma {:induction false} MergePermutes<T>(a: seq<T>, b: seq<T>, key: T -> int)
    ensures multiset(MergeBy(a, b, key)) == multiset(a) + multiset(b)
    decreases |a| + |b|
  {
    if a != [] && b != [] {
      if key(a[0]) <= key(b[0]) {
        MergePermutes(a[1..], b, key);
        assert a == [a[0]] + a[1..];
        assert multiset(a) == multiset{a[0]} + multiset(a[1..]);
      } else {
        MergePermutes(a, b[1..], key);
        assert b == [b[0]] + b[1..];
        assert multiset(b) == multiset{b[0]} + multiset(b[1..]);
      }
    }
  }

  /** Every element of `s` has at least the key `lo`. */
  ghost predicate KeysAtLeast<T>(s: seq<T>, key: T -> int, lo: int) {
    forall i :: 0 <= i < |s| ==> lo <= key(s[i])
  }

  lemma KeysAtLeastOfMerge<T>(a: seq<T>, b: seq<T>, key: T -> int, lo: int)
    requires KeysAtLeast(a, key, lo) && KeysAtLeast(b, key, lo)
    ensures KeysAtLeast(MergeBy(a, b, key), key, lo)
  {
    var m := MergeBy(a, b, key);
    MergePermutes(a, b, key);
    forall i | 0 <= i < |m| ensures lo <= key(m[i]) {
      assert m[i] in multiset(m);
      assert m[i] in a || m[i] in b;
    }
  }

  /** Merging two sorted runs gives a sorted run. */
  lemma {:induction false} MergeSorted(a: seq<int>, b: seq<int>)
    requires Sorted(a) && Sorted(b)
    ensures Sorted(MergeBy(a, b, Ident))
    decreases |a| + |b|
  {
    if a != [] && b != [] {
      if a[0] <= b[0] {
        MergeSorted(a[1..], b);
        KeysAtLeastOfMerge(a[1..], b, Ident, a[0]);
      } else {
        MergeSorted(a, b[1..]);
        KeysAtLeastOfMerge(a, b[1..], Ident, b[0]);
      }
    }
  }

  /**
   * Two sorted runs whose boundary is in order (`a`'s last element at most
   * `b`'s first) are already their merge, so skipping the merge is correct.
   */
  lemma {:induction false} MergeOfOrderedRuns(a: seq<int>, b: seq<int>)
    requires Sorted(a) && Sorted(b)
    requires a != [] && b != [] && a[|a| - 1] <= b[0]
    ensures MergeBy(a, b, Ident) == a + b
    ensures Sorted(a + b)
    decreases |a|
  {
    assert a[0] <= b[0];
    if |a| == 1 {
      assert MergeBy(a[1..], b, Ident) == b;
    } else {
      MergeOfOrderedRuns(a[1..], b);
      assert a == [a[0]] + a[1..];
    }
  }

  // ---------------------------------------------------------------------------
  // Stability
  // ---------------------------------------------------------------------------

  /** An array element together with its original position. */
  datatype Tagged = Tagged(value: int, pos: nat)

  function ValueOf(t: Tagged): int {
    t.value
  }

  /** The elements of `s`, tagged with their positions counted from `base`. */
  function Tag(s: seq<int>, base: nat): seq<Tagged> {
    seq(|s|, i requires 0 <= i < |s| => Tagged(s[i], base + i))
  }

  /** The values of tagged elements, in order. */
  function Values(s: seq<Tagged>): seq<int> {
    seq(|s|, i requires 0 <= i < |s| => s[i].value)
  }

  /** Sorted by value, and elements of equal value in their original order. */
  ghost predicate StablySorted(s: seq<Tagged>) {
    forall i, j :: 0 <= i < j < |s| ==>
      s[i].value < s[j].value || (s[i].value == s[j].value && s[i].pos < s[j].pos)
  }

  /** Every element of `s` sorts after `t`. */
  ghost predicate AllAfter(t: Tagged, s: seq<Tagged>) {
    forall i :: 0 <= i < |s| ==> t.value < s[i].value || (t.value == s[i].value && t.pos < s[i].pos)
  }

  lemma AllAfterOfMerge(t: Tagged, a: seq<Tagged>, b: seq<Tagged>)
    requires AllAfter(t, a) && AllAfter(t, b)
    ensures AllAfter(t, MergeBy(a, b, ValueOf))
  {
    var m := MergeBy(a, b, ValueOf);
    MergePermutes(a, b, ValueOf);
    forall i | 0 <= i < |m|
      ensures t.value < m[i].value || (t.value == m[i].value && t.pos < m[i].pos)
    {
      assert m[i] in multiset(m);
      assert m[i] in a || m[i] in b;
    }
  }

  /**
   * The merge is stable: when the left run's elements all come before the
   * right run's in the original order, elements of equal value leave the
   * merge in their original order, because ties are taken from the left.
   */
  lemma {:induction false} MergeStable(a: seq<Tagged>, b: seq<Tagged>)
    requires StablySorted(a) && StablySorted(b)
    requires forall i, j :: 0 <= i < |a| && 0 <= j < |b| ==> a[i].pos < b[j].pos
    ensures StablySorted(MergeBy(a, b, ValueOf))
    decreases |a| + |b|
  {
    if a != [] && b != [] {
      if a[0].value <= b[0].value {
        MergeStable(a[1..], b);
        assert AllAfter(a[0], a[1..]);
        assert AllAfter(a[0], b) by {
          forall j | 0 <= j < |b|
            ensures a[0].value < b[j].value || (a[0].value == b[j].value && a[0].pos < b[j].pos)
          {
            assert b[0].value <= b[j].value by {
              if j > 0 {
                assert b[0].value < b[j].value || b[0].value == b[j].value;
              }
            }
          }
        }
        AllAfterOfMerge(a[0], a[1..], b);
      } else {
        MergeStable(a, b[1..]);
        assert AllAfter(b[0], b[1..]);
        assert AllAfter(b[0], a) by {
          forall i | 0 <= i < |a| ensures b[0].value < a[i].value {
            assert a[0].value <= a[i].value by {
              if i > 0 {
                assert a[0].value < a[i].value || a[0].value == a[i].value;
              }
            }
          }
        }
        AllAfterOfMerge(b[0], a, b[1..]);
      }
    }
  }

  /** The integer merge is the value sequence of the merge of the tagged runs. */
  lemma {:induction false} MergeForgetsTags(a: seq<Tagged>, b: seq<Tagged>)
    ensures Values(MergeBy(a, b, ValueOf)) == MergeBy(Values(a), Values(b), Ident)
    decreases |a| + |b|
  {
    if a != [] && b != [] {
      assert Values(a[1..]) == Values(a)[1..];
      assert Values(b[1..]) == Values(b)[1..];
      if a[0].value <= b[0].value {
        MergeForgetsTags(a[1..], b);
        assert Values([a[0]] + MergeBy(a[1..], b, ValueOf))
            == [a[0].value] + Values(MergeBy(a[1..], b, ValueOf));
      } else {
        MergeForgetsTags(a, b[1..]);
        assert Values([b[0]] + MergeBy(a, b[1..], ValueOf))
            == [b[0].value] + Values(MergeBy(a, b[1..], ValueOf));
      }
    } else if a == [] {
      assert Values(a) == [];
    } else {
      assert Values(b) == [];
    }
  }

  lemma TagValues(s: seq<int>, base: nat)
    ensures Values(Tag(s, base)) == s
  {
  }

  /** A sorted run tagged with increasing positions is stably sorted. */
  lemma TagSorted(s: seq<int>, base: nat)
    requires Sorted(s)
    ensures StablySorted(Tag(s, base))
  {
  }

  /**
   * What `merge` does to two adjacent sorted runs `arr[left..mid]` and
   * `arr[mid+1..right]` is the value sequence of a stable merge: equal
   * elements keep their original positional order.
   */
  lemma MergeIsStable(a: seq<int>, b: seq<int>)
    requires Sorted(a) && Sorted(b)
    ensures StablySorted(MergeBy(Tag(a, 0), Tag(b, |a|), ValueOf))
    ensures Values(MergeBy(Tag(a, 0), Tag(b, |a|), ValueOf)) == MergeBy(a, b, Ident)
  {
    TagSorted(a, 0);
    TagSorted(b, |a|);
    MergeStable(Tag(a, 0), Tag(b, |a|));
    MergeForgetsTags(Tag(a, 0), Tag(b, |a|));
    TagValues(a, 0);
    TagValues(b, |a|);
  }

  // ---------------------------------------------------------------------------
  // The C functions
  // ---------------------------------------------------------------------------

  /**
   * `left + (right - left) / 2`: strictly inside the range, so both recursive
   * calls shrink it, and the left half gets the extra element.
   */
  function Mid(left: int, right: int): (mid: int)
    requires left < right
    ensures left <= mid < right
    ensures (mid - left + 1) - (right - mid) in {0, 1}
  {
    left + (right - left) / 2
  }

  /**
   * A trigger term and nothing else. `MergedSoFar` guards its sequence
   * equation with a quantifier over `n` that fires only on a `Step(n)` term,
   * so the verifier does not expand that equation at every slice of `arr`
   * appearing in the loop conditions of `merge`; the three lemmas that take
   * one step of the merge name `Step(0)` to get at it.
   */
  predicate Step(n: nat) {
    true
  }

  /**
   * The invariant of the first loop of `merge` over the array contents `s`:
   * `done`, followed by the merge of what is left of the two runs
   * (`s[i..mid]` and `s[j..right]`), is `m`.
   */
  ghost predicate MergedSoFar(s: seq<int>, i: int, mid: int, j: int, right: int, done: seq<int>, m: seq<int>) {
    0 <= i <= mid + 1 <= j <= right + 1 <= |s| &&
    forall n {:trigger Step(n)} :: Step(n) ==> done + MergeBy(s[i..mid + 1], s[j..right + 1], Ident) == m
  }

  lemma MergeStart(s: seq<int>, left: int, mid: int, right: int)
    requires 0 <= left <= mid + 1 <= right + 1 <= |s|
    ensures MergedSoFar(s, left, mid, mid + 1, right, [], MergeBy(s[left..mid + 1], s[mid + 1..right + 1], Ident))
  {
    assert [] + MergeBy(s[left..mid + 1], s[mid + 1..right + 1], Ident) == MergeBy(s[left..mid + 1], s[mid + 1..right + 1], Ident);
  }

  /** Taking the head of the left run, as `merge` does on a tie. */
  lemma TakeLeft(s: seq<int>, i: int, mid: int, j: int, right: int, done: seq<int>, m: seq<int>)
    requires MergedSoFar(s, i, mid, j, right, done, m)
    requires i <= mid && (j > right || s[i] <= s[j])
    ensures MergedSoFar(s, i + 1, mid, j, right, done + [s[i]], m)
  {
    assert Step(0);
    var a, b := s[i..mid + 1], s[j..right + 1];
    assert a[0] == s[i] && a[1..] == s[i + 1..mid + 1];
    assert (done + [s[i]]) + MergeBy(a[1..], b, Ident) == m;
  }

  /** Taking the head of the right run, which `merge` does only when it is strictly smaller. */
  lemma TakeRight(s: seq<int>, i: int, mid: int, j: int, right: int, done: seq<int>, m: seq<int>)
    requires MergedSoFar(s, i, mid, j, right, done, m)
    requires j <= right && (i > mid || !(s[i] <= s[j]))
    ensures MergedSoFar(s, i, mid, j + 1, right, done + [s[j]], m)
  {
    assert Step(0);
    var a, b := s[i..mid + 1], s[j..right + 1];
    assert b[0] == s[j] && b[1..] == s[j + 1..right + 1];
    assert (done + [s[j]]) + MergeBy(a, b[1..], Ident) == m;
  }

  /** Once a run is exhausted, the rest of the merge is what is left of both runs. */
  lemma MergeDrained(s: seq<int>, i: int, mid: int, j: int, right: int, done: seq<int>, m: seq<int>)
    requires MergedSoFar(s, i, mid, j, right, done, m)
    requires i > mid || j > right
    ensures done + s[i..mid + 1] + s[j..right + 1] == m
  {
    assert Step(0);
  }

  /** A sequence that agrees with three consecutive pieces is their concatenation. */
  lemma Pieces(t: seq<int>, p: seq<int>, x: seq<int>, y: seq<int>)
    requires |t| == |p| + |x| + |y|
    requires forall n :: 0 <= n < |p| ==> t[n] == p[n]
    requires forall n :: 0 <= n < |x| ==> t[|p| + n] == x[n]
    requires forall n :: 0 <= n < |y| ==> t[|p| + |x| + n] == y[n]
    ensures t == p + x + y
  {
    forall n | 0 <= n < |t| ensures t[n] == (p + x + y)[n] {
      if n < |p| {
      } else if n < |p| + |x| {
        assert t[|p| + (n - |p|)] == x[n - |p|];
      } else {
        assert t[|p| + |x| + (n - |p| - |x|)] == y[n - |p| - |x|];
      }
    }
  }

  lemma SliceJoin(s: seq<int>, lo: int, mid: int, hi: int)
    requires 0 <= lo <= mid <= hi <= |s|
    ensures s[lo..hi] == s[lo..mid] + s[mid..hi]
  {
  }

  /**
   * The first loop of `merge`: while both runs have elements, move the smaller
   * head into `temp`, the left one on a tie; `out` is what has been written to
   * `temp[left..k-1]`.
   */
  method MergeHeads(arr: array<int>, left: int, mid: int, right: int, temp: array<int>, ghost m: seq<int>)
    returns (i: int, j: int, k: int, ghost out: seq<int>)
    requires arr != temp
    requires 0 <= left <= mid + 1 <= right + 1 <= arr.Length && right < temp.Length
    requires MergedSoFar(arr[..], left, mid, mid + 1, right, [], m)
    modifies temp
    ensures left <= i <= mid + 1 <= j <= right + 1 && (i == mid + 1 || j == right + 1)
    ensures k == left + (i - left) + (j - (mid + 1)) == left + |out|
    ensures MergedSoFar(arr[..], i, mid, j, right, out, m)
    ensures forall q :: 0 <= q < |out| ==> temp[left + q] == out[q]
    ensures forall q :: 0 <= q < temp.Length && !(left <= q < k) ==> temp[q] == old(temp[q])
  {
    ghost var s := arr[..];
    i, j, k := left, mid + 1, left;
    out := [];
    while i <= mid && j <= right
      invariant left <= i <= mid + 1 <= j <= right + 1
      invariant k == left + (i - left) + (j - (mid + 1)) == left + |out|
      invariant MergedSoFar(s, i, mid, j, right, out, m)
      invariant forall q :: 0 <= q < |out| ==> temp[left + q] == out[q]
      invariant forall q :: 0 <= q < temp.Length && !(left <= q < k) ==> temp[q] == old(temp[q])
    {
      if arr[i] <= arr[j] {
        TakeLeft(s, i, mid, j, right, out, m);
        temp[k] := arr[i];
        out := out + [arr[i]];
        k, i := k + 1, i + 1;
      } else {
        TakeRight(s, i, mid, j, right, out, m);
        temp[k] := arr[j];
        out := out + [arr[j]];
        k, j := k + 1, j + 1;
      }
    }
  }

  /** The second and third loops of `merge`: `while (x <= last) temp[k++] = arr[x++];`. */
  method CopyRun(arr: array<int>, temp: array<int>, x: int, last: int, k: int) returns (x': int, k': int)
    requires arr != temp
    requires 0 <= x <= last + 1 <= arr.Length && 0 <= k && k + (last + 1 - x) <= temp.Length
    modifies temp
    ensures x' == last + 1 && k' == k + (last + 1 - x)
    ensures forall q :: k <= q < k' ==> temp[q] == arr[x + (q - k)]
    ensures forall q :: 0 <= q < temp.Length && !(k <= q < k') ==> temp[q] == old(temp[q])
  {
    x', k' := x, k;
    while x' <= last
      invariant x <= x' <= last + 1 && k' == k + (x' - x)
      invariant forall q :: k <= q < k' ==> temp[q] == arr[x + (q - k)]
      invariant forall q :: 0 <= q < temp.Length && !(k <= q < k') ==> temp[q] == old(temp[q])
    {
      temp[k'] := arr[x'];
      k', x' := k' + 1, x' + 1;
    }
  }

  /** The three loops of `merge` that fill `temp[left..right]` with the merged runs. */
  method MergeIntoTemp(arr: array<int>, left: int, mid: int, right: int, temp: array<int>)
    requires arr != temp
    requires 0 <= left <= mid + 1 <= right + 1 <= arr.Length && right < temp.Length
    modifies temp
    ensures temp[left..right + 1] == MergeBy(arr[left..mid + 1], arr[mid + 1..right + 1], Ident)
    ensures forall q :: 0 <= q < temp.Length && !(left <= q <= right) ==> temp[q] == old(temp[q])
  {
    ghost var s := arr[..];
    ghost var m := MergeBy(s[left..mid + 1], s[mid + 1..right + 1], Ident);
    MergeStart(s, left, mid, right);
    var i, j, k;
    ghost var out;
    i, j, k, out := MergeHeads(arr, left, mid, right, temp, m);
    MergeDrained(s, i, mid, j, right, out, m);
    ghost var x := arr[i..mid + 1];
    ghost var y := arr[j..right + 1];
    assert s[i..mid + 1] == x && s[j..right + 1] == y;
    i, k := CopyRun(arr, temp, i, mid, k);
    j, k := CopyRun(arr, temp, j, right, k);
    assert k == right + 1;
    Pieces(temp[left..right + 1], out, x, y);
    assert s[left..mid + 1] == arr[left..mid + 1] && s[mid + 1..right + 1] == arr[mid + 1..right + 1];
  }

  /** The last loop of `merge`: `arr[left..right]` takes the contents of `temp[left..right]`. */
  method CopyBack(temp: array<int>, arr: array<int>, left: int, right: int)
    requires arr != temp
    requires 0 <= left <= right + 1 <= arr.Length && right < temp.Length
    modifies arr
    ensures arr[left..right + 1] == temp[left..right + 1]
    ensures forall q :: 0 <= q < arr.Length && !(left <= q <= right) ==> arr[q] == old(arr[q])
  {
    for p := left to right + 1
      invariant forall q :: left <= q < p ==> arr[q] == temp[q]
      invariant forall q :: 0 <= q < arr.Length && !(left <= q < p) ==> arr[q] == old(arr[q])
    {
      arr[p] := temp[p];
    }
  }

  /**
   * `merge`: the two runs `arr[left..mid]` and `arr[mid+1..right]` merged
   * through `temp`, then copied back into `arr[left..right]`.
   */
  method Merge(arr: array<int>, left: int, mid: int, right: int, temp: array<int>)
    requires arr != temp
    requires 0 <= left <= mid + 1 <= right + 1 <= arr.Length && right < temp.Length
    modifies arr, temp
    ensures arr[left..right + 1] == MergeBy(old(arr[left..mid + 1]), old(arr[mid + 1..right + 1]), Ident)
    ensures forall q :: 0 <= q < arr.Length && !(left <= q <= right) ==> arr[q] == old(arr[q])
    ensures forall q :: 0 <= q < temp.Length && !(left <= q <= right) ==> temp[q] == old(temp[q])
  {
    MergeIntoTemp(arr, left, mid, right, temp);
    CopyBack(temp, arr, left, right);
  }

  /** A range that holds the merge of its two sorted halves is sorted and a permutation of them. */
  lemma MergedRange(s0: seq<int>, s1: seq<int>, left: int, mid: int, right: int)
    requires 0 <= left <= mid < right < |s0| == |s1|
    requires Sorted(s0[left..mid + 1]) && Sorted(s0[mid + 1..right + 1])
    requires s1[left..right + 1] == MergeBy(s0[left..mid + 1], s0[mid + 1..right + 1], Ident)
    ensures Sorted(s1[left..right + 1])
    ensures multiset(s1[left..right + 1]) == multiset(s0[left..right + 1])
  {
    SliceJoin(s0, left, mid + 1, right + 1);
    MergedRuns(s0[left..mid + 1], s0[mid + 1..right + 1], s1[left..right + 1], s0[left..right + 1]);
  }

  /** The merge of two sorted runs is sorted and a permutation of them. */
  lemma MergedRuns(a: seq<int>, b: seq<int>, m: seq<int>, ab: seq<int>)
    requires Sorted(a) && Sorted(b) && m == MergeBy(a, b, Ident) && ab == a + b
    ensures Sorted(m) && multiset(m) == multiset(ab)
  {
    MergePermutes(a, b, Ident);
    MergeSorted(a, b);
  }

  /**
   * The step of `merge_sort_recursive` after both halves are sorted: `merge`
   * is skipped when `arr[mid] <= arr[mid+1]`, and either way the range holds
   * the merge of the two halves, sorted and a permutation of what it held.
   */
  method MergeStep(arr: array<int>, left: int, mid: int, right: int, temp: array<int>)
    requires arr != temp
    requires 0 <= left <= mid < right < arr.Length && right < temp.Length
    requires Sorted(arr[left..mid + 1]) && Sorted(arr[mid + 1..right + 1])
    modifies arr, temp
    ensures arr[left..right + 1] == MergeBy(old(arr[left..mid + 1]), old(arr[mid + 1..right + 1]), Ident)
    ensures forall q :: 0 <= q < arr.Length && !(left <= q <= right) ==> arr[q] == old(arr[q])
    ensures forall q :: 0 <= q < temp.Length && !(left <= q <= right) ==> temp[q] == old(temp[q])
  {
    if arr[mid] > arr[mid + 1] {
      Merge(arr, left, mid, right, temp);
    } else {
      MergeOfOrderedRuns(arr[left..mid + 1], arr[mid + 1..right + 1]);
      SliceJoin(arr[..], left, mid + 1, right + 1);
    }
  }

  /** The state after sorting both halves, one after the other. */
  lemma SortedHalves(s0: seq<int>, s1: seq<int>, s2: seq<int>, left: int, mid: int, right: int)
    requires 0 <= left <= mid < right < |s0| && |s1| == |s0| && |s2| == |s0|
    requires Sorted(s1[left..mid + 1]) && multiset(s1[left..mid + 1]) == multiset(s0[left..mid + 1])
    requires forall q :: 0 <= q < |s0| && !(left <= q <= mid) ==> s1[q] == s0[q]
    requires Sorted(s2[mid + 1..right + 1]) && multiset(s2[mid + 1..right + 1]) == multiset(s1[mid + 1..right + 1])
    requires forall q :: 0 <= q < |s0| && !(mid + 1 <= q <= right) ==> s2[q] == s1[q]
    ensures Sorted(s2[left..mid + 1]) && Sorted(s2[mid + 1..right + 1])
    ensures s2[left..right + 1] == s2[left..mid + 1] + s2[mid + 1..right + 1]
    ensures multiset(s2[left..right + 1]) == multiset(s0[left..right + 1])
    ensures forall q :: 0 <= q < |s0| && !(left <= q <= right) ==> s2[q] == s0[q]
  {
    assert s2[left..mid + 1] == s1[left..mid + 1];
    assert s1[mid + 1..right + 1] == s0[mid + 1..right + 1];
    assert s0[left..right + 1] == s0[left..mid + 1] + s0[mid + 1..right + 1];
  }

  /** `merge_sort_recursive`: sorts `arr[left..right]`, touching nothing outside it. */
  method MergeSortRecursive(arr: array<int>, left: int, right: int, temp: array<int>)
    requires arr != temp
    requires 0 <= left && right < arr.Length && right < temp.Length
    modifies arr, temp
    ensures left <= right ==> Sorted(arr[left..right + 1])
    ensures left <= right ==> multiset(arr[left..right + 1]) == multiset(old(arr[left..right + 1]))
    ensures forall q :: 0 <= q < arr.Length && !(left <= q <= right) ==> arr[q] == old(arr[q])
    ensures forall q :: 0 <= q < temp.Length && !(left <= q <= right) ==> temp[q] == old(temp[q])
    decreases right - left
  {
    if left >= right {
      return;
    }
    var mid := Mid(left, right);
    ghost var s0 := arr[..];
    MergeSortRecursive(arr, left, mid, temp);
    ghost var s1 := arr[..];
    MergeSortRecursive(arr, mid + 1, right, temp);
    ghost var s2 := arr[..];
    SortedHalves(s0, s1, s2, left, mid, right);
    MergeStep(arr, left, mid, right, temp);
    MergedRange(s2, arr[..], left, mid, right);
  }

  /** `MergeSort`: sorts `arr[0..size-1]` with a fresh scratch buffer of `size` cells. */
  method MergeSort(arr: array<int>, size: int)
    requires size <= arr.Length
    modifies arr
    ensures size <= 1 ==> arr[..] == old(arr[..])
    ensures 0 <= size ==> Sorted(arr[..size]) && multiset(arr[..size]) == multiset(old(arr[..size]))
    ensures forall q :: 0 <= q < arr.Length && size <= q ==> arr[q] == old(arr[q])
  {
    if size <= 1 {
      return;
    }
    var temp := new int[size];
    MergeSortRecursive(arr, 0, size - 1, temp);
    assert arr[..size] == arr[0..size - 1 + 1];
    assert old(arr[..size]) == old(arr[0..size - 1 + 1]);
  }

  /**
   * The program: sort the first `arraySize` cells of the input region, then
   * copy them one by one into the result region.
   */
  method SortAndStore(arrayAddr: array<int>, arraySize: int, testStart: array<int>)
    requires arrayAddr != testStart
    requires arraySize <= arrayAddr.Length && arraySize <= testStart.Length
    modifies arrayAddr, testStart
    ensures 0 <= arraySize ==> Sorted(arrayAddr[..arraySize])
    ensures 0 <= arraySize ==> multiset(arrayAddr[..arraySize]) == multiset(old(arrayAddr[..arraySize]))
    ensures forall i :: 0 <= i < arraySize ==> testStart[i] == arrayAddr[i]
    ensures forall q :: 0 <= q < testStart.Length && arraySize <= q ==> testStart[q] == old(testStart[q])
    ensures forall q :: 0 <= q < arrayAddr.Length && arraySize <= q ==> arrayAddr[q] == old(arrayAddr[q])
  {
    MergeSort(arrayAddr, arraySize);
    ghost var sorted := arrayAddr[..];
    var i := 0;
    while i < arraySize
      modifies testStart
      invariant 0 <= i <= if arraySize < 0 then 0 else arraySize
      invariant arrayAddr[..] == sorted
      invariant forall p :: 0 <= p < i ==> testStart[p] == arrayAddr[p]
      invariant forall q :: 0 <= q < testStart.Length && i <= q ==> testStart[q] == old(testStart[q])
    {
      testStart[i] := arrayAddr[i];
      i := i + 1;
    }
  }
}
