// Datatypes and small sequence facts shared by the whole model.
module Prelude {
  datatype Option<+T> = None | Some(value: T) {
    predicate IsFailure() {
      None?
    }

    function PropagateFailure<U>(): Option<U>
      requires None?
    {
      None
    }

    function Extract(): T
      requires Some?
    {
      value
    }
  }

  datatype Result<+T, +E> = Ok(value: T) | Err(error: E) {
    predicate IsFailure() {
      Err?
    }

    function PropagateFailure<U>(): Result<U, E>
      requires Err?
    {
      Err(error)
    }

    function Extract(): T
      requires Ok?
    {
      value
    }
  }

  type Byte = n: nat | n < 256
  type Bytes = seq<Byte>

  ghost predicate Distinct<T>(s: seq<T>) {
    forall i, j :: 0 <= i < j < |s| ==> s[i] != s[j]
  }

  /** `part` stands in `s` from position `i` on. */
  ghost predicate OccursAt<T>(s: seq<T>, part: seq<T>, i: nat) {
    i <= |s| && part <= s[i..]
  }

  ghost predicate Occurs<T(!new)>(s: seq<T>, part: seq<T>) {
    exists i :: OccursAt(s, part, i)
  }

  lemma OccursTail<T(!new)>(s: seq<T>, part: seq<T>)
    requires s != []
    ensures Occurs(s, part) <==> part <= s || Occurs(s[1..], part)
  {
    if part <= s {
      assert s[0..] == s;
      assert OccursAt(s, part, 0);
    }
    if i: nat :| OccursAt(s[1..], part, i) {
      assert s[1..][i..] == s[i + 1..];
      assert OccursAt(s, part, i + 1);
    }
    if i: nat :| OccursAt(s, part, i) {
      if i == 0 {
        assert s[0..] == s;
      } else {
        assert s[1..][i - 1..] == s[i..];
        assert OccursAt(s[1..], part, i - 1);
      }
    }
  }

  lemma AppendAssociative<T>(a: seq<T>, b: seq<T>, c: seq<T>)
    ensures a + (b + c) == (a + b) + c
  {
  }

  ghost predicate Permutation<T>(a: seq<T>, b: seq<T>) {
    multiset(a) == multiset(b)
  }

  lemma PermutationMembers<T>(a: seq<T>, b: seq<T>)
    requires Permutation(a, b)
    ensures |a| == |b|
    ensures forall x :: x in a <==> x in b
  {
    assert |multiset(a)| == |multiset(b)|;
    forall x
      ensures x in a <==> x in b
    {
      assert x in a <==> x in multiset(a);
      assert x in b <==> x in multiset(b);
    }
  }

  function RemoveAt<T>(s: seq<T>, i: nat): seq<T>
    requires i < |s|
  {
    s[..i] + s[i + 1..]
  }

  /** Where the head of one arrangement stands in another; without it the rests are arrangements of each other. */
  lemma PermutationRemove<T>(a: seq<T>, b: seq<T>) returns (i: nat)
    requires a != [] && Permutation(a, b)
    ensures i < |b| && b[i] == a[0] && Permutation(a[1..], RemoveAt(b, i))
  {
    PermutationMembers(a, b);
    assert a[0] in b;
    i :| 0 <= i < |b| && b[i] == a[0];
    assert b == b[..i] + [b[i]] + b[i + 1..];
    assert a == [a[0]] + a[1..];
    assert multiset(a[1..]) == multiset(b) - multiset{a[0]};
  }

  lemma {:induction false} DistinctCounts<T(!new)>(s: seq<T>)
    ensures Distinct(s) <==> forall x :: multiset(s)[x] <= 1
  {
    if s != [] {
      var n := |s| - 1;
      var front := s[..n];
      DistinctCounts(front);
      assert s == front + [s[n]];
      assert forall x :: multiset(s)[x] == multiset(front)[x] + if x == s[n] then 1 else 0;
      if Distinct(s) {
        assert s[n] !in front;
        assert multiset(front)[s[n]] == 0;
        assert Distinct(front);
      } else if Distinct(front) {
        var i, j :| 0 <= i < j < |s| && s[i] == s[j];
        assert j == n && front[i] == s[n];
        assert s[n] in front;
        assert multiset(s)[s[n]] >= 2;
      } else {
        var x :| multiset(front)[x] > 1;
        assert multiset(s)[x] > 1;
      }
    }
  }

  lemma DistinctPermutes<T(!new)>(a: seq<T>, b: seq<T>)
    requires Distinct(a) && Permutation(a, b)
    ensures Distinct(b)
  {
    DistinctCounts(a);
    DistinctCounts(b);
  }
}
