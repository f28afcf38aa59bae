// The shared round-robin counters of the Go bridge: one counter per (channel, peer set), keyed by a joined
// text. Calls hold a lock, so any concurrent use is some sequence of calls.
module RoundRobin {
  import opened Prelude

  /******* Keys *******/

  /** The parts with a bar between neighbours. */
  function Join(parts: seq<string>): string
    requires parts != []
  {
    if |parts| == 1 then parts[0] else parts[0] + "|" + Join(parts[1..])
  }

  /** The pieces of a text between its bars. */
  function Split(text: string): (parts: seq<string>)
    ensures parts != []
  {
    if text == "" then [""]
    else
      PutFront(text[0], Split(text[1..]))
  }

  function SplitAll(parts: seq<string>): (r: seq<string>)
    ensures parts != [] ==> r != []
  {
    if parts == [] then [] else Split(parts[0]) + SplitAll(parts[1..])
  }

  /** What a leading character adds to the pieces of the text behind it. */
  function PutFront(c: char, pieces: seq<string>): seq<string>
    requires pieces != []
  {
    if c == '|' then [""] + pieces else [[c] + pieces[0]] + pieces[1..]
  }

  lemma PutFrontAppend(c: char, a: seq<string>, b: seq<string>)
    requires a != []
    ensures PutFront(c, a + b) == PutFront(c, a) + b
  {
    assert (a + b)[1..] == a[1..] + b;
  }

  lemma {:induction false} SplitBar(a: string, b: string)
    ensures Split(a + "|" + b) == Split(a) + Split(b)
  {
    var text := a + "|" + b;
    if a == "" {
      assert text[1..] == b;
    } else {
      SplitBar(a[1..], b);
      assert text[1..] == a[1..] + "|" + b && text[0] == a[0];
      PutFrontAppend(a[0], Split(a[1..]), Split(b));
    }
  }

  lemma {:induction false} SplitJoin(parts: seq<string>)
    requires parts != []
    ensures Split(Join(parts)) == SplitAll(parts)
  {
    if |parts| == 1 {
      assert SplitAll(parts[1..]) == [];
    } else {
      SplitBar(parts[0], Join(parts[1..]));
      SplitJoin(parts[1..]);
    }
  }

  lemma {:induction false} JoinSplit(text: string)
    ensures Join(Split(text)) == text
  {
    if text != "" {
      JoinSplit(text[1..]);
      var rest := Split(text[1..]);
      if text[0] == '|' {
        assert ([""] + rest)[1..] == rest;
      } else {
        var first := [text[0]] + rest[0];
        assert ([first] + rest[1..])[1..] == rest[1..];
      }
      assert text == [text[0]] + text[1..];
    }
  }

  /** Two part lists share a key exactly when they have the same pieces between bars, whatever the names contain. */
  lemma KeysCollideExactly(a: seq<string>, b: seq<string>)
    requires a != [] && b != []
    ensures Join(a) == Join(b) <==> SplitAll(a) == SplitAll(b)
  {
    SplitJoin(a);
    SplitJoin(b);
    JoinSplit(Join(a));
    JoinSplit(Join(b));
  }

  predicate BarFree(s: string) {
    forall c | c in s :: c != '|'
  }

  lemma {:induction false} SplitBarFree(s: string)
    requires BarFree(s)
    ensures Split(s) == [s]
  {
    if s != "" {
      assert forall c | c in s[1..] :: c in s;
      SplitBarFree(s[1..]);
      assert s[0] in s;
      assert s == [s[0]] + s[1..];
    }
  }

  lemma {:induction false} SplitAllBarFree(parts: seq<string>)
    requires forall p | p in parts :: BarFree(p)
    ensures SplitAll(parts) == parts
  {
    if parts != [] {
      SplitBarFree(parts[0]);
      SplitAllBarFree(parts[1..]);
      assert parts == [parts[0]] + parts[1..];
    }
  }

  /******* The counters *******/

  /** One single-peer call: its channel and its sorted peer URLs. */
  datatype Call = Call(channel: string, urls: seq<string>)

  function Key(c: Call): string {
    Join([c.channel] + c.urls)
  }

  predicate Clean(c: Call) {
    BarFree(c.channel) && forall u | u in c.urls :: BarFree(u)
  }

  lemma KeyInjective(a: Call, b: Call)
    requires Clean(a) && Clean(b)
    ensures Key(a) == Key(b) <==> a == b
  {
    var xs, ys := [a.channel] + a.urls, [b.channel] + b.urls;
    KeysCollideExactly(xs, ys);
    SplitAllBarFree(xs);
    SplitAllBarFree(ys);
    assert a.urls == xs[1..] && b.urls == ys[1..];
    assert a.channel == xs[0] && b.channel == ys[0];
  }

  type Counters = map<string, nat>

  function Counter(counters: Counters, key: string): nat {
    if key in counters then counters[key] else 0
  }

  function StartIndex(counters: Counters, key: string, size: nat): nat {
    if size == 0 then 0 else Counter(counters, key) % size
  }

  function Advance(counters: Counters, key: string, size: nat): Counters {
    if size == 0 then counters else counters[key := (Counter(counters, key) + 1) % size]
  }

  class RoundRobinState {
    var counters: Counters

    constructor ()
      ensures counters == map[]
    {
      counters := map[];
    }

    /** One locked call: the start index, and exactly one counter advanced. */
    method Next(key: string, size: nat) returns (start: nat)
      modifies this
      ensures start == StartIndex(old(counters), key, size)
      ensures counters == Advance(old(counters), key, size)
      ensures size > 0 ==> start < size
    {
      if size == 0 {
        return 0;
      }
      var current := if key in counters then counters[key] else 0;
      counters := counters[key := (current + 1) % size];
      return current % size;
    }
  }

  /******* Runs *******/

  /** The counters after a history of calls. */
  function Run(h: seq<Call>): Counters {
    if h == [] then map[]
    else
      var last := h[|h| - 1];
      Advance(Run(h[..|h| - 1]), Key(last), |last.urls|)
  }

  /** The start index that call `t` of the history receives. */
  function Start(h: seq<Call>, t: nat): nat
    requires t < |h|
  {
    StartIndex(Run(h[..t]), Key(h[t]), |h[t].urls|)
  }

  function Count(h: seq<Call>, c: Call): nat {
    if h == [] then 0 else Count(h[..|h| - 1], c) + if h[|h| - 1] == c then 1 else 0
  }

  ghost predicate CleanHistory(h: seq<Call>) {
    forall c | c in h :: Clean(c)
  }

  lemma DivModSuccessor(x: nat, n: nat)
    requires n > 0
    ensures (x + 1) / n == x / n + (if x % n + 1 == n then 1 else 0)
    ensures (x + 1) % n == if x % n + 1 == n then 0 else x % n + 1
  {
    var q, r := x / n, x % n;
    if r + 1 == n {
      assert x + 1 == (q + 1) * n;
      DivModUnique(x + 1, n, q + 1, 0);
    } else {
      DivModUnique(x + 1, n, q, r + 1);
    }
  }

  lemma DivModUnique(x: nat, n: nat, q: nat, r: nat)
    requires n > 0 && r < n && x == q * n + r
    ensures x / n == q && x % n == r
  {
    var d := x / n - q;
    MultipleOf(d, n);
    assert d * n == r - x % n by {
      assert x == x / n * n + x % n;
      assert d * n == x / n * n - q * n;
    }
  }

  lemma {:induction false} MultipleOf(d: int, n: nat)
    ensures d > 0 ==> d * n >= n
    ensures d < 0 ==> d * n <= -1 * n
    decreases if d < 0 then -d else d
  {
    if d > 1 {
      MultipleOf(d - 1, n);
    } else if d < -1 {
      MultipleOf(d + 1, n);
    }
  }

  lemma SuccessorOfResidue(x: nat, n: nat)
    requires n > 0
    ensures (x % n + 1) % n == (x + 1) % n
  {
    DivModSuccessor(x, n);
    if x % n + 1 < n {
      DivModUnique(x % n + 1, n, 0, x % n + 1);
    }
  }

  lemma {:induction false} CounterIsCount(h: seq<Call>, c: Call)
    requires CleanHistory(h) && Clean(c) && c.urls != []
    ensures Counter(Run(h), Key(c)) == Count(h, c) % |c.urls|
  {
    hide Key, Advance, Counter;
    if h == [] {
      NoCounter(Key(c));
      DivModUnique(0, |c.urls|, 0, 0);
    } else {
      var front, last := h[..|h| - 1], h[|h| - 1];
      CounterIsCount(front, c);
      KeyInjective(last, c);
      AdvanceCounter(Run(front), Key(last), |last.urls|, Key(c));
      if last == c {
        SuccessorOfResidue(Count(front, c), |c.urls|);
      }
    }
  }

  lemma NoCounter(key: string)
    ensures Counter(map[], key) == 0
  {
  }

  lemma AdvanceCounter(counters: Counters, key: string, size: nat, key': string)
    ensures Counter(Advance(counters, key, size), key')
         == if key == key' && size > 0 then (Counter(counters, key) + 1) % size else Counter(counters, key')
  {
  }

  /** In any interleaving, the i-th call for a (channel, peer set) of size n starts at i mod n. */
  lemma StartExactly(h: seq<Call>, t: nat)
    requires t < |h| && CleanHistory(h) && h[t].urls != []
    ensures Start(h, t) == Count(h[..t], h[t]) % |h[t].urls|
  {
    CounterIsCount(h[..t], h[t]);
    var n, k := |h[t].urls|, Count(h[..t], h[t]);
    DivModUnique(k % n, n, 0, k % n);
  }

  /******* Fairness *******/

  /** How many of the calls for `c` among positions lo up to hi start at index j. */
  function StartsAt(h: seq<Call>, lo: nat, hi: nat, c: Call, j: nat): nat
    requires lo <= hi <= |h|
  {
    if lo == hi then 0
    else StartsAt(h, lo, hi - 1, c, j) + if h[hi - 1] == c && Start(h, hi - 1) == j then 1 else 0
  }

  /** How many of the numbers below m are j modulo n. */
  function Residues(m: nat, n: nat, j: nat): nat
    requires n > 0
  {
    m / n + if j < m % n then 1 else 0
  }

  lemma ResidueStep(m: nat, n: nat, j: nat)
    requires j < n
    ensures Residues(m + 1, n, j) == Residues(m, n, j) + if m % n == j then 1 else 0
  {
    DivModSuccessor(m, n);
  }

  lemma {:induction false} StartsAreResidues(h: seq<Call>, lo: nat, hi: nat, c: Call, j: nat)
    requires lo <= hi <= |h| && CleanHistory(h) && j < |c.urls|
    ensures StartsAt(h, lo, hi, c, j)
         == Residues(Count(h[..hi], c), |c.urls|, j) - Residues(Count(h[..lo], c), |c.urls|, j)
    decreases hi
  {
    if lo < hi {
      StartsAreResidues(h, lo, hi - 1, c, j);
      assert h[..hi][..hi - 1] == h[..hi - 1];
      if h[hi - 1] == c {
        StartExactly(h, hi - 1);
        ResidueStep(Count(h[..hi - 1], c), |c.urls|, j);
      }
    }
  }

  lemma ResidueWindow(a: nat, k: nat, n: nat, j: nat)
    requires j < n
    ensures k / n <= Residues(a + k, n, j) - Residues(a, n, j) <= k / n + if k % n == 0 then 0 else 1
  {
    DivModSum(a, k, n);
  }

  lemma {:induction false} DivModSum(a: nat, k: nat, n: nat)
    requires n > 0
    ensures (a + k) / n == a / n + k / n + if a % n + k % n < n then 0 else 1
    ensures (a + k) % n == a % n + k % n - if a % n + k % n < n then 0 else n
  {
    if k == 0 {
      DivModUnique(0, n, 0, 0);
    } else {
      DivModSum(a, k - 1, n);
      DivModSuccessor(a + k - 1, n);
      DivModSuccessor(k - 1, n);
    }
  }

  lemma {:induction false} CountMonotone(h: seq<Call>, lo: nat, hi: nat, c: Call)
    requires lo <= hi <= |h|
    ensures Count(h[..lo], c) <= Count(h[..hi], c)
    decreases hi
  {
    if lo < hi {
      CountMonotone(h, lo, hi - 1, c);
      assert h[..hi][..hi - 1] == h[..hi - 1];
    }
  }

  /** Over any stretch holding k calls for one (channel, peer set) of size n, each index starts floor(k/n) or ceil(k/n) of them. */
  lemma Fair(h: seq<Call>, lo: nat, hi: nat, c: Call, j: nat)
    requires lo <= hi <= |h| && CleanHistory(h) && j < |c.urls|
    ensures var k, n := Count(h[..hi], c) - Count(h[..lo], c), |c.urls|;
            k >= 0 && k / n <= StartsAt(h, lo, hi, c, j) <= k / n + if k % n == 0 then 0 else 1
  {
    CountMonotone(h, lo, hi, c);
    StartsAreResidues(h, lo, hi, c, j);
    ResidueWindow(Count(h[..lo], c), Count(h[..hi], c) - Count(h[..lo], c), |c.urls|, j);
  }

  /** With a bar in a channel name two different calls share a counter, and the second call of a pair starts at 0 again. */
  lemma BarsInterfere()
    ensures var pair, single := Call("a", ["b", "c"]), Call("a|b", ["c"]);
            && Key(pair) == Key(single)
            && Start([pair, single, pair], 2) == 0
            && Count([pair, single, pair][..2], pair) % 2 == 1
  {
    var pair, single := Call("a", ["b", "c"]), Call("a|b", ["c"]);
    var h := [pair, single, pair];
    assert [pair.channel] + pair.urls == ["a", "b", "c"] && [single.channel] + single.urls == ["a|b", "c"];
    assert ["a", "b", "c"][1..] == ["b", "c"] && ["b", "c"][1..] == ["c"] && ["a|b", "c"][1..] == ["c"];
    assert Join(["b", "c"]) == "b|c";
    assert Key(pair) == "a|b|c" == Key(single);
    assert h[..2] == [pair, single] && [pair, single][..1] == [pair] && [pair][..0] == [];
    assert Run([pair]) == map[Key(pair) := 1];
    assert Run([pair, single]) == map[Key(pair) := 0];
    assert Count([pair], pair) == 1;
  }
}
