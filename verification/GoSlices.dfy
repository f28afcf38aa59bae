// Go slices over a shared backing array: append with and without spare capacity, and an in-place stable sort.
module GoSlices {
  import opened Prelude
  import opened StableSort

  /** `len` elements of `arr` from `off`, extensible in place up to `cap`. */
  datatype Slice<T> = Slice(arr: array<T>, off: nat, len: nat, cap: nat)

  ghost predicate ValidSlice<T>(s: Slice<T>) {
    s.len <= s.cap && s.off + s.cap <= s.arr.Length
  }

  function View<T>(s: Slice<T>): seq<T>
    requires ValidSlice(s)
    reads s.arr
  {
    s.arr[s.off..s.off + s.len]
  }

  method AppendInPlace<T>(s: Slice<T>, t: Slice<T>) returns (r: Slice<T>)
    requires ValidSlice(s) && ValidSlice(t) && s.len + t.len <= s.cap
    modifies s.arr
    ensures r == Slice(s.arr, s.off, s.len + t.len, s.cap)
    ensures View(r) == old(View(s)) + old(View(t))
  {
    ghost var first, second := View(s), View(t);
    var base := s.off + s.len;
    forall k | 0 <= k < t.len {
      s.arr[base + k] := t.arr[t.off + k];
    }
    r := Slice(s.arr, s.off, s.len + t.len, s.cap);
    assert s.arr[s.off..base] == first;
    assert s.arr[base..base + t.len] == second;
  }

  method AppendCopy<T(0)>(s: Slice<T>, t: Slice<T>) returns (r: Slice<T>)
    requires ValidSlice(s) && ValidSlice(t)
    ensures ValidSlice(r) && fresh(r.arr)
    ensures View(r) == View(s) + View(t)
  {
    var n := s.len + t.len;
    var arr := new T[n];
    forall k | 0 <= k < s.len {
      arr[k] := s.arr[s.off + k];
    }
    forall k | 0 <= k < t.len {
      arr[s.len + k] := t.arr[t.off + k];
    }
    r := Slice(arr, 0, n, n);
    assert arr[..s.len] == View(s);
    assert arr[s.len..] == View(t);
    assert View(r) == arr[..s.len] + arr[s.len..];
  }

  /** Go's append: writes behind `s` when the capacity allows, even into memory `t` shares; otherwise copies. */
  method Append<T(0)>(s: Slice<T>, t: Slice<T>) returns (r: Slice<T>)
    requires ValidSlice(s) && ValidSlice(t)
    modifies s.arr
    ensures ValidSlice(r) && View(r) == old(View(s)) + old(View(t))
    ensures s.len + t.len <= s.cap ==> r == Slice(s.arr, s.off, s.len + t.len, s.cap)
    ensures s.len + t.len > s.cap ==> fresh(r.arr) && s.arr[..] == old(s.arr[..])
  {
    if s.len + t.len <= s.cap {
      r := AppendInPlace(s, t);
    } else {
      r := AppendCopy(s, t);
    }
  }

  /** Shifts a[i] into the elements behind it, up to n. */
  method InsertInPlace<T>(leq: (T, T) -> bool, a: array<T>, i: nat, n: nat)
    requires i < n <= a.Length
    modifies a
    ensures a[..i] == old(a[..i]) && a[n..] == old(a[n..])
    ensures a[i..n] == Insert(leq, old(a[i]), old(a[i + 1..n]))
  {
    ghost var done := a[i + 1..n];
    var x, j := a[i], i;
    while j + 1 < n && !leq(x, a[j + 1])
      invariant i <= j < n
      invariant a[..i] == old(a[..i]) && a[n..] == old(a[n..])
      invariant forall k | 0 <= k < j - i :: a[i + k] == done[k] && !leq(x, done[k])
      invariant forall k | j - i <= k < |done| :: a[i + 1 + k] == done[k]
    {
      a[j] := a[j + 1];
      j := j + 1;
    }
    a[j] := x;
    InsertAt(leq, x, done, j - i);
    InsertedInto(done, j - i, x, a[i..n]);
  }

  lemma InsertedInto<T>(s: seq<T>, k: nat, x: T, r: seq<T>)
    requires k <= |s| && |r| == |s| + 1 && r[k] == x
    requires forall m | 0 <= m < k :: r[m] == s[m]
    requires forall m | k <= m < |s| :: r[1 + m] == s[m]
    ensures r == s[..k] + [x] + s[k..]
  {
    assert r[..k] == s[..k];
    assert r[k + 1..] == s[k..];
    assert r == r[..k] + [r[k]] + r[k + 1..];
  }

  /** Sorts the first n elements in place by insertion from the back. */
  method SortInPlace<T>(leq: (T, T) -> bool, a: array<T>, n: nat)
    requires n <= a.Length
    modifies a
    ensures a[..n] == Sort(leq, old(a[..n]))
    ensures a[n..] == old(a[n..])
  {
    ghost var was := a[..n];
    var i := n;
    while i > 0
      invariant 0 <= i <= n
      invariant a[..i] == was[..i]
      invariant a[i..n] == Sort(leq, was[i..])
      invariant a[n..] == old(a[n..])
    {
      i := i - 1;
      SliceStep(was, a[..i + 1], i);
      assert a[..i + 1][..i] == a[..i];
      InsertInPlace(leq, a, i, n);
    }
    assert was[0..] == was && a[0..n] == a[..n];
  }

  lemma SliceStep<T>(was: seq<T>, front: seq<T>, i: nat)
    requires i < |was| && front == was[..i + 1]
    ensures front[..i] == was[..i] && front[i] == was[i..][0] && was[i..][1..] == was[i + 1..]
  {
  }
}
