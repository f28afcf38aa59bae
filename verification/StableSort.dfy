// A stable sort by a total preorder: sorted, a permutation, order-preserving on ties, and
// independent of the input order exactly when ties do not matter.
module StableSort {
  import opened Prelude

  ghost predicate TotalPreorder<T(!new)>(leq: (T, T) -> bool) {
    && (forall x, y :: leq(x, y) || leq(y, x))
    && (forall x, y, z :: leq(x, y) && leq(y, z) ==> leq(x, z))
  }

  ghost predicate Sorted<T>(leq: (T, T) -> bool, s: seq<T>) {
    forall i, j :: 0 <= i < j < |s| ==> leq(s[i], s[j])
  }

  /** Places `x` before the first element it does not exceed. */
  function Insert<T>(leq: (T, T) -> bool, x: T, s: seq<T>): seq<T> {
    if s == [] then [x]
    else if leq(x, s[0]) then [x] + s
    else [s[0]] + Insert(leq, x, s[1..])
  }

  function Sort<T>(leq: (T, T) -> bool, s: seq<T>): seq<T> {
    if s == [] then [] else Insert(leq, s[0], Sort(leq, s[1..]))
  }

  lemma {:induction false} InsertPermutes<T>(leq: (T, T) -> bool, x: T, s: seq<T>)
    ensures Permutation(Insert(leq, x, s), [x] + s)
  {
    if s != [] && !leq(x, s[0]) {
      InsertPermutes(leq, x, s[1..]);
      assert s == [s[0]] + s[1..];
    }
  }

  /** Sorting keeps every element, with its multiplicity. */
  lemma {:induction false} SortPermutes<T>(leq: (T, T) -> bool, s: seq<T>)
    ensures Permutation(Sort(leq, s), s)
  {
    if s != [] {
      SortPermutes(leq, s[1..]);
      InsertPermutes(leq, s[0], Sort(leq, s[1..]));
      assert s == [s[0]] + s[1..];
    }
  }

  /** Inserting by shifting: the position `k` is the first whose element `x` does not exceed. */
  lemma {:induction false} InsertAt<T>(leq: (T, T) -> bool, x: T, s: seq<T>, k: nat)
    requires k <= |s|
    requires forall i | 0 <= i < k :: !leq(x, s[i])
    requires k == |s| || leq(x, s[k])
    ensures Insert(leq, x, s) == s[..k] + [x] + s[k..]
  {
    if k > 0 {
      InsertAt(leq, x, s[1..], k - 1);
      assert s[1..][..k - 1] == s[1..k] && s[1..][k - 1..] == s[k..];
      assert [s[0]] + s[1..k] == s[..k];
    } else {
      assert [x] + s == s[..k] + [x] + s[k..];
    }
  }

  lemma {:induction false} InsertSorted<T(!new)>(leq: (T, T) -> bool, x: T, s: seq<T>)
    requires TotalPreorder(leq) && Sorted(leq, s)
    ensures Sorted(leq, Insert(leq, x, s))
  {
    if s != [] && !leq(x, s[0]) {
      var rest := Insert(leq, x, s[1..]);
      InsertSorted(leq, x, s[1..]);
      InsertPermutes(leq, x, s[1..]);
      PermutationMembers(rest, [x] + s[1..]);
      assert forall y | y in s[1..] :: leq(s[0], y);
      assert forall y | y in rest :: leq(s[0], y);
    } else if s != [] {
      assert forall y | y in s :: leq(x, y);
    }
  }

  lemma {:induction false} SortSorted<T(!new)>(leq: (T, T) -> bool, s: seq<T>)
    requires TotalPreorder(leq)
    ensures Sorted(leq, Sort(leq, s))
  {
    if s != [] {
      SortSorted(leq, s[1..]);
      InsertSorted(leq, s[0], Sort(leq, s[1..]));
    }
  }

  /** Distinct elements of `s` are never tied. */
  ghost predicate Antisymmetric<T(!new)>(leq: (T, T) -> bool, s: seq<T>) {
    forall x, y | x in s && y in s && leq(x, y) && leq(y, x) :: x == y
  }

  lemma SortedHead<T(!new)>(leq: (T, T) -> bool, a: seq<T>, b: seq<T>)
    requires TotalPreorder(leq) && Antisymmetric(leq, a)
    requires Sorted(leq, a) && Sorted(leq, b) && Permutation(a, b) && a != []
    ensures b != [] && a[0] == b[0]
  {
    PermutationMembers(a, b);
    var x, y := a[0], b[0];
    assert leq(x, x) && leq(y, y);
    assert x in b && y in a;
    assert leq(x, y) && leq(y, x);
  }

  lemma PermutationTail<T>(a: seq<T>, b: seq<T>)
    requires a != [] && b != [] && a[0] == b[0] && Permutation(a, b)
    ensures Permutation(a[1..], b[1..])
  {
    assert a == [a[0]] + a[1..] && b == [b[0]] + b[1..];
    assert multiset(a[1..]) == multiset(a) - multiset{a[0]};
    assert multiset(b[1..]) == multiset(b) - multiset{a[0]};
  }

  /** A multiset without ties has one sorted arrangement. */
  lemma {:induction false} SortedUnique<T(!new)>(leq: (T, T) -> bool, a: seq<T>, b: seq<T>)
    requires TotalPreorder(leq) && Antisymmetric(leq, a)
    requires Sorted(leq, a) && Sorted(leq, b) && Permutation(a, b)
    ensures a == b
  {
    PermutationMembers(a, b);
    if a != [] {
      SortedHead(leq, a, b);
      PermutationTail(a, b);
      SortedUnique(leq, a[1..], b[1..]);
      assert a == [a[0]] + a[1..] && b == [b[0]] + b[1..];
    }
  }

  /** Sorting forgets the input order when no two distinct elements are tied. */
  lemma SortIgnoresOrder<T(!new)>(leq: (T, T) -> bool, a: seq<T>, b: seq<T>)
    requires TotalPreorder(leq) && Antisymmetric(leq, a) && Permutation(a, b)
    ensures Sort(leq, a) == Sort(leq, b)
  {
    SortSorted(leq, a);
    SortSorted(leq, b);
    SortPermutes(leq, a);
    SortPermutes(leq, b);
    PermutationMembers(Sort(leq, a), a);
    SortedUnique(leq, Sort(leq, a), Sort(leq, b));
  }

  /******* Stability *******/

  /** The elements tied with `x`, in order. */
  function Ties<T>(leq: (T, T) -> bool, x: T, s: seq<T>): (r: seq<T>)
    ensures |r| <= |s|
  {
    if s == [] then []
    else Tie(leq, x, s[0]) + Ties(leq, x, s[1..])
  }

  lemma {:induction false} InsertTies<T(!new)>(leq: (T, T) -> bool, x: T, y: T, s: seq<T>)
    requires TotalPreorder(leq)
    ensures Ties(leq, x, Insert(leq, y, s)) == Ties(leq, x, [y] + s)
  {
    assert ([y] + s)[1..] == s;
    if s != [] && !leq(y, s[0]) {
      InsertTies(leq, x, y, s[1..]);
      assert ([y] + s[1..])[1..] == s[1..];
      assert Insert(leq, y, s)[1..] == Insert(leq, y, s[1..]);
    }
  }

  /** Tied elements keep their input order. */
  lemma {:induction false} SortStable<T(!new)>(leq: (T, T) -> bool, x: T, s: seq<T>)
    requires TotalPreorder(leq)
    ensures Ties(leq, x, Sort(leq, s)) == Ties(leq, x, s)
  {
    if s != [] {
      SortStable(leq, x, s[1..]);
      InsertTies(leq, x, s[0], Sort(leq, s[1..]));
      assert ([s[0]] + Sort(leq, s[1..]))[1..] == Sort(leq, s[1..]);
    }
  }

  function Reverse<T>(s: seq<T>): (r: seq<T>)
    ensures |r| == |s|
    ensures forall i | 0 <= i < |s| :: r[i] == s[|s| - 1 - i]
  {
    if s == [] then [] else Reverse(s[1..]) + [s[0]]
  }

  lemma {:induction false} ReversePermutes<T>(s: seq<T>)
    ensures Permutation(s, Reverse(s))
  {
    if s != [] {
      ReversePermutes(s[1..]);
      assert s == [s[0]] + s[1..];
    }
  }

  function Tie<T>(leq: (T, T) -> bool, x: T, y: T): (r: seq<T>)
    ensures |r| <= 1
  {
    if leq(x, y) && leq(y, x) then [y] else []
  }

  lemma TiesCons<T>(leq: (T, T) -> bool, x: T, y: T, s: seq<T>)
    ensures Ties(leq, x, [y] + s) == Tie(leq, x, y) + Ties(leq, x, s)
  {
    assert ([y] + s)[1..] == s;
  }

  lemma {:induction false} TiesAppend<T>(leq: (T, T) -> bool, x: T, a: seq<T>, b: seq<T>)
    ensures Ties(leq, x, a + b) == Ties(leq, x, a) + Ties(leq, x, b)
  {
    if a == [] {
      assert a + b == b;
    } else {
      var tail := a[1..];
      TiesAppend(leq, x, tail, b);
      TiesCons(leq, x, a[0], tail + b);
      TiesCons(leq, x, a[0], tail);
      AppendAssociative([a[0]], tail, b);
      AppendAssociative(Tie(leq, x, a[0]), Ties(leq, x, tail), Ties(leq, x, b));
      assert [a[0]] + tail == a;
    }
  }

  lemma {:induction false} TiesReverse<T>(leq: (T, T) -> bool, x: T, s: seq<T>)
    ensures Ties(leq, x, Reverse(s)) == Reverse(Ties(leq, x, s))
  {
    if s != [] {
      TiesReverse(leq, x, s[1..]);
      TiesAppend(leq, x, Reverse(s[1..]), [s[0]]);
      TiesAppend(leq, x, [s[0]], s[1..]);
      assert [s[0]] + s[1..] == s;
      ReverseCons(Ties(leq, x, [s[0]]), Ties(leq, x, s[1..]));
    }
  }

  lemma ReverseCons<T>(head: seq<T>, tail: seq<T>)
    requires |head| <= 1
    ensures Reverse(head + tail) == Reverse(tail) + head
  {
    if head == [] {
      assert head + tail == tail;
    } else {
      assert (head + tail)[1..] == tail;
    }
  }

  lemma {:induction false} TiesMembers<T>(leq: (T, T) -> bool, x: T, s: seq<T>)
    requires Distinct(s)
    ensures Distinct(Ties(leq, x, s))
    ensures forall y :: y in Ties(leq, x, s) <==> y in s && leq(x, y) && leq(y, x)
  {
    if s != [] {
      TiesMembers(leq, x, s[1..]);
      assert s[0] !in s[1..];
      assert s[0] !in Ties(leq, x, s[1..]);
      assert s == [s[0]] + s[1..];
    }
  }

  /** With two distinct tied elements, the reversed input sorts differently. */
  lemma TieShowsOrder<T(!new)>(leq: (T, T) -> bool, s: seq<T>, x: T, y: T)
    requires TotalPreorder(leq) && Distinct(s)
    requires x in s && y in s && x != y && leq(x, y) && leq(y, x)
    ensures Sort(leq, Reverse(s)) != Sort(leq, s)
  {
    var ties := Ties(leq, x, s);
    assert leq(x, x);
    TiesMembers(leq, x, s);
    SortStable(leq, x, s);
    SortStable(leq, x, Reverse(s));
    TiesReverse(leq, x, s);
    var i :| 0 <= i < |ties| && ties[i] == x;
    var j :| 0 <= j < |ties| && ties[j] == y;
    assert ties[0] != ties[|ties| - 1];
    assert Reverse(ties)[0] == ties[|ties| - 1];
  }

  /** For distinct elements, the sorted order is independent of the input order if and only if nothing is tied. */
  lemma OrderIndependentExactly<T(!new)>(leq: (T, T) -> bool, s: seq<T>)
    requires TotalPreorder(leq) && Distinct(s)
    ensures (forall t | Permutation(s, t) :: Sort(leq, t) == Sort(leq, s)) <==> Antisymmetric(leq, s)
  {
    if Antisymmetric(leq, s) {
      forall t | Permutation(s, t)
        ensures Sort(leq, t) == Sort(leq, s)
      {
        SortIgnoresOrder(leq, s, t);
      }
    } else {
      var x, y :| x in s && y in s && leq(x, y) && leq(y, x) && x != y;
      TieShowsOrder(leq, s, x, y);
      ReversePermutes(s);
    }
  }

  /******* Text order *******/

  /** Lexicographic order on text, as Go compares strings. */
  predicate TextLeq(a: string, b: string) {
    a == "" || (b != "" && (a[0] < b[0] || (a[0] == b[0] && TextLeq(a[1..], b[1..]))))
  }

  lemma {:induction false} TextLeqTotal(a: string, b: string)
    ensures TextLeq(a, b) || TextLeq(b, a)
    ensures TextLeq(a, b) && TextLeq(b, a) ==> a == b
  {
    if a != "" && b != "" {
      TextLeqTotal(a[1..], b[1..]);
      assert a == [a[0]] + a[1..] && b == [b[0]] + b[1..];
    }
  }

  lemma {:induction false} TextLeqTransitive(a: string, b: string, c: string)
    requires TextLeq(a, b) && TextLeq(b, c)
    ensures TextLeq(a, c)
  {
    if a != "" && a[0] == b[0] == c[0] {
      TextLeqTransitive(a[1..], b[1..], c[1..]);
    }
  }

  /** The texts part at position `i`, where the first has the smaller character. */
  ghost predicate PartsBelow(a: string, b: string, i: nat) {
    i < |a| && i < |b| && a[..i] == b[..i] && a[i] < b[i]
  }

  /** In dictionary order: a proper beginning first, otherwise the smaller character where they part. */
  ghost predicate Before(a: string, b: string) {
    (a < b) || exists i :: PartsBelow(a, b, i)
  }

  /** The order of texts is dictionary order. */
  lemma {:induction false} TextLeqExactly(a: string, b: string)
    ensures TextLeq(a, b) <==> a == b || Before(a, b)
  {
    if a != "" && b != "" {
      TextLeqExactly(a[1..], b[1..]);
      assert a == [a[0]] + a[1..] && b == [b[0]] + b[1..];
      if a[0] < b[0] {
        assert PartsBelow(a, b, 0);
      }
      if a[0] == b[0] {
        BeforeCons(a, b);
      }
      if i: nat :| PartsBelow(a, b, i) {
        assert i > 0 ==> a[..i][0] == b[..i][0];
      }
    }
  }

  lemma BeforeCons(a: string, b: string)
    requires a != "" && b != "" && a[0] == b[0]
    ensures Before(a, b) <==> Before(a[1..], b[1..])
  {
    if i: nat :| PartsBelow(a, b, i) {
      assert a[..i][1..] == a[1..][..i - 1] && b[..i][1..] == b[1..][..i - 1];
      assert PartsBelow(a[1..], b[1..], i - 1);
    }
    if i: nat :| PartsBelow(a[1..], b[1..], i) {
      assert a[..i + 1] == [a[0]] + a[1..][..i] && b[..i + 1] == [b[0]] + b[1..][..i];
      assert PartsBelow(a, b, i + 1);
    }
    assert a == [a[0]] + a[1..] && b == [b[0]] + b[1..];
    assert a < b <==> a[1..] < b[1..];
  }
}
