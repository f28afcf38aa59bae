// Ordering the discovered peers for a single-peer call: sort a copy by URL, then rotate it by the shared
// round-robin counter, with Go's append writing into spare capacity of the very array it reads.
module SinglePeerOrder {
  import opened Prelude
  import opened StableSort
  import opened EndpointIdentity
  import opened PeerResolution
  import opened RoundRobin
  import opened GoSlices

  predicate UrlLeq(p: Peer, q: Peer) {
    TextLeq(p.url, q.url)
  }

  lemma UrlLeqTotal()
    ensures TotalPreorder(UrlLeq)
  {
    forall p, q
      ensures UrlLeq(p, q) || UrlLeq(q, p)
    {
      TextLeqTotal(p.url, q.url);
    }
    forall p, q, r | UrlLeq(p, q) && UrlLeq(q, r)
      ensures UrlLeq(p, r)
    {
      TextLeqTransitive(p.url, q.url, r.url);
    }
  }

  function Rotate<T>(s: seq<T>, k: nat): seq<T>
    requires k <= |s|
  {
    s[k..] + s[..k]
  }

  function SortedPeers(peers: seq<Peer>): seq<Peer> {
    Sort(UrlLeq, peers)
  }

  function CallFor(channel: string, peers: seq<Peer>): Call {
    Call(channel, Urls(SortedPeers(peers)))
  }

  lemma SortedLength(peers: seq<Peer>)
    ensures |SortedPeers(peers)| == |peers|
  {
    SortPermutes(UrlLeq, peers);
    PermutationMembers(SortedPeers(peers), peers);
  }

  /** The ordered peers and the counters left behind. */
  function OrderPeers(channel: string, peers: seq<Peer>, counters: Counters): (seq<Peer>, Counters) {
    var sorted, key := SortedPeers(peers), Key(CallFor(channel, peers));
    (Rotate(sorted, StartIndex(counters, key, |sorted|)), Advance(counters, key, |sorted|))
  }

  lemma OrderedLength(channel: string, peers: seq<Peer>, counters: Counters)
    ensures |OrderPeers(channel, peers, counters).0| == |peers|
  {
    SortedLength(peers);
  }

  /******* The Go method *******/

  /**
   * The Go method. The copy may carry spare capacity, in which case the rotation appends into the array it reads.
   * The caller's peers are not touched.
   */
  method OrderSinglePeers(channel: string, peers: Slice<Peer>, rr: RoundRobinState, spare: nat) returns (ordered: Slice<Peer>)
    requires ValidSlice(peers)
    modifies rr
    ensures ValidSlice(ordered) && fresh(ordered.arr)
    ensures View(ordered) == OrderPeers(channel, old(View(peers)), old(rr.counters)).0
    ensures rr.counters == OrderPeers(channel, old(View(peers)), old(rr.counters)).1
  {
    var n := peers.len;
    ghost var given := View(peers);
    var buffer := new Peer[n + spare];
    forall i | 0 <= i < n {
      buffer[i] := peers.arr[peers.off + i];
    }
    assert buffer[..n] == given;
    SortInPlace(UrlLeq, buffer, n);
    ghost var sorted := SortedPeers(given);
    assert buffer[..n] == sorted;
    var urls := Urls(buffer[..n]);
    var start := rr.Next(Join([channel] + urls), n);
    var back, front := Slice(buffer, start, n - start, n + spare - start), Slice(buffer, 0, start, n + spare);
    assert View(back) == sorted[start..] && View(front) == sorted[..start];
    ordered := Append(back, front);
  }

  /******* What the order is *******/

  /** The URLs come in dictionary order. */
  ghost predicate ByUrl(peers: seq<Peer>) {
    forall i, j | 0 <= i < j < |peers| :: peers[i].url == peers[j].url || Before(peers[i].url, peers[j].url)
  }

  /** Peer i of the order is peer start + i of the sorted ones, counted round. */
  ghost predicate Rotated(ordered: seq<Peer>, sorted: seq<Peer>, start: nat) {
    |ordered| == |sorted| && forall i | 0 <= i < |sorted| :: ordered[i] == sorted[(start + i) % |sorted|]
  }

  lemma SortedByUrl(peers: seq<Peer>)
    ensures ByUrl(SortedPeers(peers)) && Permutation(SortedPeers(peers), peers)
  {
    hide Sort, TextLeq, Before;
    var sorted := SortedPeers(peers);
    UrlLeqTotal();
    SortSorted(UrlLeq, peers);
    SortPermutes(UrlLeq, peers);
    forall i, j | 0 <= i < j < |sorted|
      ensures sorted[i].url == sorted[j].url || Before(sorted[i].url, sorted[j].url)
    {
      assert UrlLeq(sorted[i], sorted[j]);
      TextLeqExactly(sorted[i].url, sorted[j].url);
    }
  }

  lemma RotateIsRotated(sorted: seq<Peer>, start: nat)
    requires start < |sorted|
    ensures Rotated(Rotate(sorted, start), sorted, start)
  {
    var n := |sorted|;
    forall i | 0 <= i < n
      ensures Rotate(sorted, start)[i] == sorted[(start + i) % n]
    {
      if start + i < n {
        DivModUnique(start + i, n, 0, start + i);
      } else {
        DivModUnique(start + i, n, 1, start + i - n);
      }
    }
  }

  /** Every peer is kept exactly once, and the order is a rotation of the peers in dictionary order of their URLs. */
  lemma OrderedIsRotation(channel: string, peers: seq<Peer>, counters: Counters)
    ensures var ordered := OrderPeers(channel, peers, counters).0;
            && Permutation(ordered, peers)
            && ByUrl(SortedPeers(peers)) && Permutation(SortedPeers(peers), peers)
            && Rotated(ordered, SortedPeers(peers), StartIndex(counters, Key(CallFor(channel, peers)), |peers|))
  {
    hide Key, Counter, Sort, ByUrl;
    var sorted := SortedPeers(peers);
    var start := StartIndex(counters, Key(CallFor(channel, peers)), |sorted|);
    SortedLength(peers);
    SortedByUrl(peers);
    if sorted == [] {
      assert Rotate(sorted, start) == [];
    } else {
      RotateIsRotated(sorted, start);
      assert sorted == sorted[..start] + sorted[start..];
    }
  }

  lemma UniqueUrls(peers: seq<Peer>)
    requires UniquelyIdentified(peers)
    ensures Antisymmetric(UrlLeq, peers) && Distinct(peers)
  {
    hide GoNormalize, TextLeq;
    var ids := Identities(peers).value;
    forall p, q | p in peers && q in peers && UrlLeq(p, q) && UrlLeq(q, p)
      ensures p == q
    {
      TextLeqTotal(p.url, q.url);
      var i :| 0 <= i < |peers| && peers[i] == p;
      var j :| 0 <= j < |peers| && peers[j] == q;
      assert ids[i] == ids[j];
    }
    forall i, j | 0 <= i < j < |peers|
      ensures peers[i] != peers[j]
    {
      assert ids[i] != ids[j];
    }
  }

  /** Selection does not depend on discovery order: same order, same counter key, same counters afterwards. */
  lemma OrderIgnoresDiscovery(channel: string, peers: seq<Peer>, peers': seq<Peer>, counters: Counters)
    requires UniquelyIdentified(peers) && Permutation(peers, peers')
    ensures CallFor(channel, peers) == CallFor(channel, peers')
    ensures OrderPeers(channel, peers, counters) == OrderPeers(channel, peers', counters)
  {
    UrlLeqTotal();
    UniqueUrls(peers);
    SortIgnoresOrder(UrlLeq, peers, peers');
  }

  /** After any clean history, a call tries peer i of the order at place (earlier calls for this peer set + i) mod n of the sorted ones. */
  lemma FirstPeerExactly(channel: string, peers: seq<Peer>, h: seq<Call>)
    requires peers != [] && CleanHistory(h) && Clean(CallFor(channel, peers))
    ensures var (ordered, counters), sorted := OrderPeers(channel, peers, Run(h)), SortedPeers(peers);
            var call := CallFor(channel, peers);
            && |ordered| == |sorted| == |peers|
            && Rotated(ordered, sorted, Count(h, call))
            && ordered[0] == sorted[Count(h, call) % |sorted|]
            && counters == Run(h + [call])
  {
    hide Key, Sort;
    var call, sorted := CallFor(channel, peers), SortedPeers(peers);
    SortedLength(peers);
    var h' := h + [call];
    assert h'[..|h|] == h && h'[|h|] == call && h'[..|h'| - 1] == h;
    assert CleanHistory(h');
    StartExactly(h', |h|);
    OrderedIsRotation(channel, peers, Run(h));
    RotatedBy(OrderPeers(channel, peers, Run(h)).0, sorted, Count(h, call));
  }

  /** Counting round, only the remainder of the start matters. */
  lemma RotatedBy(ordered: seq<Peer>, sorted: seq<Peer>, start: nat)
    requires sorted != [] && Rotated(ordered, sorted, start % |sorted|)
    ensures Rotated(ordered, sorted, start)
  {
    var n := |sorted|;
    forall i | 0 <= i < n
      ensures ordered[i] == sorted[(start + i) % n]
    {
      DivModSum(start, i, n);
      DivModSum(start % n, i, n);
      DivModUnique(start % n, n, 0, start % n);
      assert (start % n + i) % n == (start + i) % n;
    }
  }

  /******* Which peer goes first, over a whole run *******/

  /** One single-peer call as the bridge sees it: a channel and the peers in the order discovery gave them. */
  datatype Selection = Selection(channel: string, peers: seq<Peer>)

  function Calls(selections: seq<Selection>): (calls: seq<Call>)
    ensures |calls| == |selections|
    ensures forall t | 0 <= t < |calls| :: calls[t] == CallFor(selections[t].channel, selections[t].peers)
  {
    if selections == [] then []
    else
      var last := selections[|selections| - 1];
      Calls(selections[..|selections| - 1]) + [CallFor(last.channel, last.peers)]
  }

  /** The counters after ordering the peers of every selection in turn. */
  function CountersAfter(selections: seq<Selection>): Counters {
    if selections == [] then map[]
    else
      var last := selections[|selections| - 1];
      OrderPeers(last.channel, last.peers, CountersAfter(selections[..|selections| - 1])).1
  }

  /** The URL of the peer that selection `t` puts first. */
  function FirstUrl(selections: seq<Selection>, t: nat): string
    requires t < |selections|
  {
    var ordered := OrderPeers(selections[t].channel, selections[t].peers, CountersAfter(selections[..t])).0;
    if ordered == [] then "" else ordered[0].url
  }

  /** How many of the selections from lo up to hi are calls `c` that put the peer with this URL first. */
  function TimesFirst(selections: seq<Selection>, lo: nat, hi: nat, c: Call, url: string): nat
    requires lo <= hi <= |selections|
  {
    if lo == hi then 0
    else
      TimesFirst(selections, lo, hi - 1, c, url) +
      if Calls(selections)[hi - 1] == c && FirstUrl(selections, hi - 1) == url then 1 else 0
  }

  lemma {:induction false} CallsPrefix(selections: seq<Selection>, t: nat)
    requires t <= |selections|
    ensures Calls(selections[..t]) == Calls(selections)[..t]
  {
  }

  lemma {:induction false} CountersAreRun(selections: seq<Selection>)
    ensures CountersAfter(selections) == Run(Calls(selections))
  {
    if selections != [] {
      var n, last := |selections| - 1, selections[|selections| - 1];
      CountersAreRun(selections[..n]);
      CallsPrefix(selections, n);
      SortedLength(last.peers);
    }
  }

  lemma RotatedFirst(channel: string, peers: seq<Peer>, counters: Counters)
    requires CallFor(channel, peers).urls != []
    ensures var ordered, call := OrderPeers(channel, peers, counters).0, CallFor(channel, peers);
            var start := StartIndex(counters, Key(call), |call.urls|);
            ordered != [] && start < |call.urls| && ordered[0].url == call.urls[start]
  {
    hide Key, Counter, Sort;
    SortedLength(peers);
  }

  lemma FirstUrlIs(selections: seq<Selection>, t: nat)
    requires t < |selections| && Calls(selections)[t].urls != []
    ensures Start(Calls(selections), t) < |Calls(selections)[t].urls|
    ensures FirstUrl(selections, t) == Calls(selections)[t].urls[Start(Calls(selections), t)]
  {
    hide Calls, Key, StartIndex, OrderPeers, CallFor, CountersAfter, Run;
    CountersAreRun(selections[..t]);
    CallsPrefix(selections, t);
    RotatedFirst(selections[t].channel, selections[t].peers, CountersAfter(selections[..t]));
  }

  /** Whether selection `t` is call `c` with the j-th peer first. */
  lemma FirstUrlExactly(selections: seq<Selection>, t: nat, c: Call, j: nat)
    requires t < |selections| && Distinct(c.urls) && j < |c.urls|
    ensures Calls(selections)[t] == c && FirstUrl(selections, t) == c.urls[j]
       <==> Calls(selections)[t] == c && Start(Calls(selections), t) == j
  {
    hide Calls, FirstUrl, Start;
    if Calls(selections)[t] == c {
      FirstUrlIs(selections, t);
    }
  }

  lemma {:induction false} TimesFirstAreStarts(
    selections: seq<Selection>, calls: seq<Call>, lo: nat, hi: nat, c: Call, j: nat, url: string)
    requires calls == Calls(selections) && lo <= hi <= |selections|
    requires Distinct(c.urls) && j < |c.urls| && url == c.urls[j]
    ensures |calls| == |selections|
    ensures TimesFirst(selections, lo, hi, c, url) == StartsAt(calls, lo, hi, c, j)
    decreases hi
  {
    hide Calls, FirstUrl, Start, Distinct, Key;
    if lo < hi {
      TimesFirstAreStarts(selections, calls, lo, hi - 1, c, j, url);
      FirstUrlExactly(selections, hi - 1, c, j);
    }
  }

  /**
   * Fairness of the order itself: over any stretch of any interleaving holding k calls for one channel and peer set of
   * size n, each of its peers is tried first floor(k/n) or ceil(k/n) times.
   */
  lemma EachPeerFirst(selections: seq<Selection>, lo: nat, hi: nat, c: Call, url: string)
    requires lo <= hi <= |selections| && CleanHistory(Calls(selections)) && Distinct(c.urls) && url in c.urls
    ensures var h, n := Calls(selections), |c.urls|;
            var k := Count(h[..hi], c) - Count(h[..lo], c);
            k >= 0 && k / n <= TimesFirst(selections, lo, hi, c, url) <= k / n + if k % n == 0 then 0 else 1
  {
    hide Calls, TimesFirst, StartsAt, CleanHistory, Count;
    var j :| 0 <= j < |c.urls| && c.urls[j] == url;
    TimesFirstAreStarts(selections, Calls(selections), lo, hi, c, j, url);
    Fair(Calls(selections), lo, hi, c, j);
  }

  /******* The TypeScript order *******/

  datatype PeerInfo = PeerInfo(name: string, endpoint: string, mspId: string)

  /** TypeScript sorts by host name alone, in some locale order. */
  function NameLeq(locale: (string, string) -> bool): (PeerInfo, PeerInfo) -> bool {
    (p: PeerInfo, q: PeerInfo) => locale(p.name, q.name)
  }

  /** For distinct peers, the TypeScript order ignores discovery order exactly when no two host names compare equal. */
  lemma TsOrderIgnoresDiscoveryExactly(locale: (string, string) -> bool, peers: seq<PeerInfo>)
    requires TotalPreorder(locale) && Distinct(peers)
    ensures (forall other | Permutation(peers, other) :: Sort(NameLeq(locale), other) == Sort(NameLeq(locale), peers))
       <==> forall i, j | 0 <= i < j < |peers| :: !(locale(peers[i].name, peers[j].name) && locale(peers[j].name, peers[i].name))
  {
    var leq := NameLeq(locale);
    forall x, y
      ensures leq(x, y) || leq(y, x)
    {
      assert locale(x.name, y.name) || locale(y.name, x.name);
    }
    forall x, y, z | leq(x, y) && leq(y, z)
      ensures leq(x, z)
    {
      assert locale(x.name, y.name) && locale(y.name, z.name);
    }
    OrderIndependentExactly(leq, peers);
    if Antisymmetric(leq, peers) {
      forall i, j | 0 <= i < j < |peers|
        ensures !(locale(peers[i].name, peers[j].name) && locale(peers[j].name, peers[i].name))
      {
        assert peers[i] in peers && peers[j] in peers && peers[i] != peers[j];
        assert leq(peers[i], peers[j]) == locale(peers[i].name, peers[j].name);
      }
    } else {
      var x, y :| x in peers && y in peers && leq(x, y) && leq(y, x) && x != y;
      var i :| 0 <= i < |peers| && peers[i] == x;
      var j :| 0 <= j < |peers| && peers[j] == y;
      assert i != j;
      assert locale(peers[i].name, peers[j].name) && locale(peers[j].name, peers[i].name);
    }
  }

  /** Two peers on one host: the TypeScript order follows discovery, whatever the locale. */
  lemma TsSameHostShowsOrder(locale: (string, string) -> bool)
    requires TotalPreorder(locale)
    ensures var a, b := PeerInfo("h", "grpc://h:1", "M"), PeerInfo("h", "grpc://h:2", "M");
            && Sort(NameLeq(locale), [a, b]) == [a, b]
            && Sort(NameLeq(locale), [b, a]) == [b, a]
  {
    var a, b := PeerInfo("h", "grpc://h:1", "M"), PeerInfo("h", "grpc://h:2", "M");
    assert locale("h", "h");
    assert [a, b][1..] == [b] && [b, a][1..] == [a] && [a][1..] == [] && [b][1..] == [];
    assert Sort(NameLeq(locale), [a]) == [a] && Sort(NameLeq(locale), [b]) == [b];
  }
}
