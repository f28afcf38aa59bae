// Go endorsement routing snapshots: taken when an unsigned proposal is built, and resolved again against
// whatever discovery returns when the signed proposal comes back.
module OfflineRouting {
  import opened Prelude
  import opened EndpointIdentity
  import opened PeerResolution
  import opened RoundRobin
  import opened SinglePeerOrder
  import opened SigningMessages

  datatype PeerTargeting = OnePeer | NamedPeers(names: seq<string>)

  datatype RoutingError =
    | Resolution(error: ResolveError)
    | UnsupportedMode
    | NoSnapshotPeers
    | NotExactlyOne
    | BadSnapshot(cause: IdentityError)
    | SnapshotPeerNotFound(identity: string)

  /******* Taking a snapshot *******/

  /** The peers an unsigned proposal is meant for. */
  function SnapshotTargets(channel: string, discovered: seq<Peer>, targeting: PeerTargeting, counters: Counters): Result<seq<Peer>, ResolveError> {
    match targeting
    case OnePeer =>
      var eligible :- ResolveDiscovered(discovered);
      SortedLength(eligible);
      Ok([OrderPeers(channel, eligible, counters).0[0]])
    case NamedPeers(names) => ResolveEndorsing(discovered, names)
  }

  /** The routing recorded with it: the mode and the identities of exactly those peers. */
  function SnapshotRouting(channel: string, discovered: seq<Peer>, targeting: PeerTargeting, counters: Counters): Result<Routing, RoutingError> {
    match SnapshotTargets(channel, discovered, targeting, counters)
    case Err(e) => Err(Resolution(e))
    case Ok(targets) =>
      match NormalizeAll(GoNormalizer(DiscoveredPeersUseTLS(discovered)), Urls(targets))
      case Err(e) => Err(Resolution(BadEndpoint(e)))
      case Ok(ids) => Ok(if targeting.OnePeer? then SinglePeer(ids) else EndorsingPeers(ids))
  }

  /******* Resuming *******/

  function ResolveSnapshotPeer(endpoint: string, discovered: seq<Peer>, tls: bool): Result<Peer, RoutingError> {
    match GoNormalize(endpoint, tls)
    case Err(e) => Err(BadSnapshot(e))
    case Ok(id) =>
      match Match(discovered, tls, id)
      case None => Err(SnapshotPeerNotFound(id))
      case Some(peer) => Ok(peer)
  }

  function ResolveEach(endpoints: seq<string>, discovered: seq<Peer>, tls: bool): Result<seq<Peer>, RoutingError> {
    if endpoints == [] then Ok([])
    else
      var front :- ResolveEach(endpoints[..|endpoints| - 1], discovered, tls);
      var last :- ResolveSnapshotPeer(endpoints[|endpoints| - 1], discovered, tls);
      Ok(front + [last])
  }

  function SnapshotPeerTargets(routing: Routing, discovered: seq<Peer>, tls: bool): Result<seq<Peer>, RoutingError> {
    match routing
    case GatewayDefault => Err(NoSnapshotPeers)
    case SinglePeer(peers) =>
      if peers == [] then Err(NoSnapshotPeers)
      else if |peers| != 1 then Err(NotExactlyOne)
      else
        var target :- ResolveSnapshotPeer(peers[0], discovered, tls);
        Ok([target])
    case EndorsingPeers(peers) =>
      if peers == [] then Err(NoSnapshotPeers)
      else
        match DedupeSpec(GoNormalizer(tls), peers)
        case Err(e) => Err(Resolution(BadEndpoint(e)))
        case Ok(ids) => ResolveEach(ids, discovered, tls)
  }

  lemma {:induction false} ResolveEachStops(endpoints: seq<string>, discovered: seq<Peer>, tls: bool, i: nat)
    requires i < |endpoints| && ResolveEach(endpoints[..i + 1], discovered, tls).Err?
    ensures ResolveEach(endpoints, discovered, tls) == ResolveEach(endpoints[..i + 1], discovered, tls)
    decreases |endpoints|
  {
    if i + 1 < |endpoints| {
      var front := endpoints[..|endpoints| - 1];
      assert front[..i + 1] == endpoints[..i + 1];
      ResolveEachStops(front, discovered, tls, i);
    } else {
      assert endpoints[..i + 1] == endpoints;
    }
  }

  method ResolveOfflineSnapshotPeerTargets(routing: Routing, discovered: seq<Peer>, tls: bool) returns (r: Result<seq<Peer>, RoutingError>)
    ensures r == SnapshotPeerTargets(routing, discovered, tls)
  {
    hide GoNormalize, Match;
    match routing {
      case GatewayDefault =>
        return Err(NoSnapshotPeers);
      case SinglePeer(peers) =>
        if |peers| == 0 {
          return Err(NoSnapshotPeers);
        }
        if |peers| != 1 {
          return Err(NotExactlyOne);
        }
        var target := ResolveSnapshotPeer(peers[0], discovered, tls);
        return match target case Ok(peer) => Ok([peer]) case Err(e) => Err(e);
      case EndorsingPeers(peers) =>
        if |peers| == 0 {
          return Err(NoSnapshotPeers);
        }
        var canonicalPeers := DedupePeerEndpointInputs(GoNormalizer(tls), peers);
        if canonicalPeers.Err? {
          return Err(Resolution(BadEndpoint(canonicalPeers.error)));
        }
        var ids := canonicalPeers.value;
        var targets: seq<Peer> := [];
        for i := 0 to |ids|
          invariant ResolveEach(ids[..i], discovered, tls) == Ok(targets)
        {
          assert ids[..i + 1][..i] == ids[..i];
          var target := ResolveSnapshotPeer(ids[i], discovered, tls);
          if target.Err? {
            ResolveEachStops(ids, discovered, tls, i);
            return Err(target.error);
          }
          targets := targets + [target.value];
        }
        assert ids[..|ids|] == ids;
        return Ok(targets);
    }
  }

  /** The peers a resumed proposal goes to: uniqueness of the later discovery first, then the snapshot. */
  function ResumeTargets(routing: Routing, later: seq<Peer>): Result<seq<Peer>, RoutingError> {
    var tls := DiscoveredPeersUseTLS(later);
    if routing.GatewayDefault? then Err(UnsupportedMode)
    else
      match UniquenessFault(later, tls)
      case Some(fault) => Err(Resolution(fault))
      case None => SnapshotPeerTargets(routing, later, tls)
  }

  /******* No peer is ever substituted *******/

  /** Each endpoint, in order, resolved on its own. */
  lemma {:induction false} ResolveEachPointwise(ids: seq<string>, discovered: seq<Peer>, tls: bool)
    ensures ResolveEach(ids, discovered, tls).Ok? <==> forall id | id in ids :: ResolveSnapshotPeer(id, discovered, tls).Ok?
    ensures ResolveEach(ids, discovered, tls).Ok? ==>
              var targets := ResolveEach(ids, discovered, tls).value;
              |targets| == |ids| && forall i | 0 <= i < |ids| :: ResolveSnapshotPeer(ids[i], discovered, tls) == Ok(targets[i])
  {
    hide ResolveSnapshotPeer;
    if ids != [] {
      ResolveEachPointwise(ids[..|ids| - 1], discovered, tls);
      assert ids == ids[..|ids| - 1] + [ids[|ids| - 1]];
    }
  }

  /** What taking a snapshot gives: duplicate-free identities, each the identity of some URL under some flag. */
  lemma SnapshotIdentities(channel: string, discovered: seq<Peer>, targeting: PeerTargeting, counters: Counters)
    requires SnapshotRouting(channel, discovered, targeting, counters).Ok?
    ensures var targets := SnapshotTargets(channel, discovered, targeting, counters).value;
            var routing := SnapshotRouting(channel, discovered, targeting, counters).value;
            && !routing.GatewayDefault?
            && routing.peers != [] && Distinct(routing.peers)
            && (routing.SinglePeer? ==> |routing.peers| == 1)
            && (routing.SinglePeer? <==> targeting.OnePeer?)
            && (targeting.OnePeer? ==> targets == [OrderPeers(channel, discovered, counters).0[0]])
            && (targeting.NamedPeers? ==> ResolveEndorsing(discovered, targeting.names) == Ok(targets))
            && Identifies(DiscoveredPeersUseTLS(discovered), targets, routing.peers)
  {
    var tls := DiscoveredPeersUseTLS(discovered);
    if targeting.NamedPeers? {
      var ids := DedupeSpec(GoNormalizer(tls), targeting.names).value;
      FoundExactly(discovered, tls, ids);
      IdentitiesAre(tls, Found(discovered, tls, ids), ids);
      SomethingResolved(discovered, tls, targeting.names, ids);
    }
  }

  /** Reading the identity again leaves it unchanged or refuses it. */
  predicate Fixed(id: string, tls: bool) {
    GoNormalize(id, tls).Ok? ==> GoNormalize(id, tls) == Ok(id)
  }

  /** An identity either normalizes to itself or is refused; it never becomes another identity. */
  lemma IdentityIsFixed(url: string, tls: bool, id: string, tls': bool)
    requires GoNormalize(url, tls) == Ok(id)
    ensures GoNormalize(id, tls').Ok? <==> AllDigits(GoParts(url, tls).value.port)
    ensures Fixed(id, tls')
  {
    GoIdempotentExactly(url, tls, tls');
  }

  lemma {:induction false} FixedNormalizeAll(ids: seq<string>, tls: bool)
    requires forall id | id in ids :: Fixed(id, tls)
    ensures NormalizeAll(GoNormalizer(tls), ids).Ok? <==> forall id | id in ids :: GoNormalize(id, tls).Ok?
    ensures NormalizeAll(GoNormalizer(tls), ids).Ok? ==> NormalizeAll(GoNormalizer(tls), ids).value == ids
  {
    var r := NormalizeAll(GoNormalizer(tls), ids);
    assert forall i | 0 <= i < |ids| :: ids[i] in ids;
  }

  /** The ports of the snapshotted peers are numeric, as their identities must be to be read again. */
  predicate NumericPorts(peers: seq<Peer>, tls: bool) {
    forall p | p in peers :: GoParts(p.url, tls).Ok? && AllDigits(GoParts(p.url, tls).value.port)
  }

  lemma SnapshotIsStable(channel: string, discovered: seq<Peer>, targeting: PeerTargeting, counters: Counters, tls': bool)
    requires SnapshotRouting(channel, discovered, targeting, counters).Ok?
    ensures var ids := SnapshotRouting(channel, discovered, targeting, counters).value.peers;
            && (forall id | id in ids :: Fixed(id, tls'))
            && (NumericPorts(SnapshotTargets(channel, discovered, targeting, counters).value, DiscoveredPeersUseTLS(discovered))
                <==> forall id | id in ids :: GoNormalize(id, tls').Ok?)
  {
    hide GoParts;
    var tls := DiscoveredPeersUseTLS(discovered);
    var originals := SnapshotTargets(channel, discovered, targeting, counters).value;
    var ids := SnapshotRouting(channel, discovered, targeting, counters).value.peers;
    SnapshotIdentities(channel, discovered, targeting, counters);
    forall i | 0 <= i < |ids|
      ensures GoNormalize(ids[i], tls').Ok? <==> AllDigits(GoParts(originals[i].url, tls).value.port)
      ensures Fixed(ids[i], tls')
    {
      IdentityIsFixed(originals[i].url, tls, ids[i], tls');
    }
    if !NumericPorts(originals, tls) {
      var p :| p in originals && !(GoParts(p.url, tls).Ok? && AllDigits(GoParts(p.url, tls).value.port));
      var i :| 0 <= i < |originals| && originals[i] == p;
      assert ids[i] in ids;
    }
  }

  lemma SnapshotPeerIs(id: string, later: seq<Peer>, tls: bool)
    requires Fixed(id, tls) && ResolveSnapshotPeer(id, later, tls).Ok?
    ensures var target := ResolveSnapshotPeer(id, later, tls).value; target in later && GoNormalize(target.url, tls) == Ok(id)
  {
  }

  lemma EachIsIdentified(ids: seq<string>, later: seq<Peer>, tls: bool)
    requires forall id | id in ids :: Fixed(id, tls)
    requires ResolveEach(ids, later, tls).Ok?
    ensures var targets := ResolveEach(ids, later, tls).value;
            (forall t | t in targets :: t in later) && Identifies(tls, targets, ids)
  {
    ResolveEachPointwise(ids, later, tls);
    var targets := ResolveEach(ids, later, tls).value;
    forall i | 0 <= i < |ids|
      ensures targets[i] in later && GoNormalize(targets[i].url, tls) == Ok(ids[i])
    {
      assert ids[i] in ids;
      SnapshotPeerIs(ids[i], later, tls);
    }
  }

  lemma ResumedAreIdentified(routing: Routing, later: seq<Peer>)
    requires !routing.GatewayDefault? && Distinct(routing.peers)
    requires forall id | id in routing.peers :: Fixed(id, DiscoveredPeersUseTLS(later))
    requires ResumeTargets(routing, later).Ok?
    ensures var targets := ResumeTargets(routing, later).value;
            (forall t | t in targets :: t in later) && Identifies(DiscoveredPeersUseTLS(later), targets, routing.peers)
  {
    var tls, ids := DiscoveredPeersUseTLS(later), routing.peers;
    if routing.EndorsingPeers? {
      FixedNormalizeAll(ids, tls);
      FirstOccurrencesOfDistinct(ids);
      EachIsIdentified(ids, later, tls);
    } else {
      assert ids[0] in ids;
      SnapshotPeerIs(ids[0], later, tls);
    }
  }

  /**
   * A snapshot resumed against any later discovery either fails, or yields peers of that discovery whose
   * identities are the snapshot's, entry by entry.
   */
  lemma NeverSubstituted(channel: string, discovered: seq<Peer>, targeting: PeerTargeting, counters: Counters, later: seq<Peer>)
    requires SnapshotRouting(channel, discovered, targeting, counters).Ok?
    requires ResumeTargets(SnapshotRouting(channel, discovered, targeting, counters).value, later).Ok?
    ensures var routing := SnapshotRouting(channel, discovered, targeting, counters).value;
            var targets := ResumeTargets(routing, later).value;
            && (forall t | t in targets :: t in later)
            && Identifies(DiscoveredPeersUseTLS(later), targets, routing.peers)
  {
    SnapshotIdentities(channel, discovered, targeting, counters);
    SnapshotIsStable(channel, discovered, targeting, counters, DiscoveredPeersUseTLS(later));
    ResumedAreIdentified(SnapshotRouting(channel, discovered, targeting, counters).value, later);
  }

  /******* When resuming succeeds *******/

  lemma MatchUnique(peers: seq<Peer>, p: Peer, id: string)
    requires UniquelyIdentified(peers) && p in peers && GoNormalize(p.url, DiscoveredPeersUseTLS(peers)) == Ok(id)
    ensures Match(peers, DiscoveredPeersUseTLS(peers), id) == Some(p)
  {
    hide GoNormalize;
    var tls, all := DiscoveredPeersUseTLS(peers), Identities(peers).value;
    var m := Match(peers, tls, id);
    assert m.Some?;
    var i :| 0 <= i < |peers| && peers[i] == p;
    var j :| 0 <= j < |peers| && peers[j] == m.value;
    assert all[i] == id && all[j] == id;
  }

  lemma ResolveEachExactly(ids: seq<string>, later: seq<Peer>)
    requires UniquelyIdentified(later)
    requires forall id | id in ids :: GoNormalize(id, DiscoveredPeersUseTLS(later)) == Ok(id)
    ensures ResolveEach(ids, later, DiscoveredPeersUseTLS(later)).Ok? <==> forall id | id in ids :: id in Identities(later).value
  {
    var tls := DiscoveredPeersUseTLS(later);
    ResolveEachPointwise(ids, later, tls);
    forall id | id in ids
      ensures ResolveSnapshotPeer(id, later, tls).Ok? <==> id in Identities(later).value
    {
      MatchExactly(later, tls, Identities(later).value, id);
    }
  }

  /** A resume succeeds exactly when the snapshotted ports are numeric and every recorded identity is still discovered. */
  lemma ResumesExactly(channel: string, discovered: seq<Peer>, targeting: PeerTargeting, counters: Counters, later: seq<Peer>)
    requires SnapshotRouting(channel, discovered, targeting, counters).Ok? && UniquelyIdentified(later)
    ensures var routing := SnapshotRouting(channel, discovered, targeting, counters).value;
            ResumeTargets(routing, later).Ok?
            <==> && NumericPorts(SnapshotTargets(channel, discovered, targeting, counters).value, DiscoveredPeersUseTLS(discovered))
                 && forall id | id in routing.peers :: id in Identities(later).value
  {
    hide GoParts, FaultFrom;
    var tls' := DiscoveredPeersUseTLS(later);
    var ids := SnapshotRouting(channel, discovered, targeting, counters).value.peers;
    SnapshotIdentities(channel, discovered, targeting, counters);
    SnapshotIsStable(channel, discovered, targeting, counters, tls');
    EnsureUniqueExactly(later);
    assert ids[0] in ids;
    if targeting.NamedPeers? {
      FixedNormalizeAll(ids, tls');
      FirstOccurrencesOfDistinct(ids);
      if forall id | id in ids :: GoNormalize(id, tls').Ok? {
        ResolveEachExactly(ids, later);
      }
    } else {
      MatchExactly(later, tls', Identities(later).value, ids[0]);
      assert forall id | id in ids :: id == ids[0];
    }
  }

  /** The identity that is asked for, when a recorded endpoint is looked up. */
  ghost predicate NotDiscovered(endpoint: string, later: seq<Peer>, tls: bool, e: RoutingError) {
    match GoNormalize(endpoint, tls)
    case Err(cause) => e == BadSnapshot(cause)
    case Ok(id) => e == SnapshotPeerNotFound(id) && forall p | p in later :: GoNormalize(p.url, tls) != Ok(id)
  }

  /** The first endpoint that cannot be resolved decides the error. */
  ghost predicate FirstMissing(ids: seq<string>, later: seq<Peer>, tls: bool, e: RoutingError) {
    exists i | 0 <= i < |ids| ::
      NotDiscovered(ids[i], later, tls, e) && forall j | 0 <= j < i :: ResolveSnapshotPeer(ids[j], later, tls).Ok?
  }

  lemma {:induction false} FirstNotDiscovered(ids: seq<string>, later: seq<Peer>, tls: bool)
    requires ResolveEach(ids, later, tls).Err?
    ensures FirstMissing(ids, later, tls, ResolveEach(ids, later, tls).error)
  {
    hide GoNormalize;
    var n, e := |ids| - 1, ResolveEach(ids, later, tls).error;
    var front := ids[..n];
    if ResolveEach(front, later, tls).Err? {
      FirstNotDiscovered(front, later, tls);
      var i :| 0 <= i < n && NotDiscovered(front[i], later, tls, e) && forall j | 0 <= j < i :: ResolveSnapshotPeer(front[j], later, tls).Ok?;
      assert ids[i] == front[i] && forall j | 0 <= j < i :: ids[j] == front[j];
    } else {
      ResolveEachPointwise(front, later, tls);
      assert NotDiscovered(ids[n], later, tls, e);
      assert forall j | 0 <= j < n :: ids[j] == front[j] && front[j] in front;
    }
  }

  /** Why a resume fails, in the order of the checks: the mode, faulty discovery, the number of recorded peers, then the peers. */
  lemma ResumeErrorExactly(routing: Routing, later: seq<Peer>)
    ensures var r, tls := ResumeTargets(routing, later), DiscoveredPeersUseTLS(later);
            && (routing.GatewayDefault? ==> r == Err(UnsupportedMode))
            && (!routing.GatewayDefault? && !UniquelyIdentified(later) ==>
                  exists i, fault :: FirstAtFault(later, GoNormalizer(tls), i, fault) && r == Err(Resolution(fault)))
            && (!routing.GatewayDefault? && UniquelyIdentified(later) ==>
                  && (routing.peers == [] ==> r == Err(NoSnapshotPeers))
                  && (routing.SinglePeer? && |routing.peers| > 1 ==> r == Err(NotExactlyOne))
                  && (routing.SinglePeer? && |routing.peers| == 1 && r.Err? ==> NotDiscovered(routing.peers[0], later, tls, r.error))
                  && (routing.EndorsingPeers? && routing.peers != [] ==>
                        match NormalizeAll(GoNormalizer(tls), routing.peers)
                        case Err(e) => r == Err(Resolution(BadEndpoint(e)))
                        case Ok(ids) =>
                          r.Err? ==> FirstMissing(FirstOccurrences(ids), later, tls, r.error)))
  {
    hide GoNormalize, FaultFrom, FirstAtFault, UniquelyIdentified, DiscoveredPeersUseTLS, FirstOccurrences, FirstMissing;
    var tls := DiscoveredPeersUseTLS(later);
    EnsureUniqueExactly(later);
    if !UniquelyIdentified(later) {
      FaultyDiscovery(later);
    } else if routing.EndorsingPeers? && routing.peers != [] && NormalizeAll(GoNormalizer(tls), routing.peers).Ok? {
      var ids := FirstOccurrences(NormalizeAll(GoNormalizer(tls), routing.peers).value);
      assert ResumeTargets(routing, later) == ResolveEach(ids, later, tls);
      if ResolveEach(ids, later, tls).Err? {
        FirstNotDiscovered(ids, later, tls);
      }
    }
  }

  /** The identity of a peer, picked out of a uniquely identified list. */
  lemma IdentityOf(peers: seq<Peer>, p: Peer, q: Peer)
    requires UniquelyIdentified(peers) && p in peers && q in peers
    ensures var tls := DiscoveredPeersUseTLS(peers);
            GoNormalize(p.url, tls).Ok? && (GoNormalize(p.url, tls) == GoNormalize(q.url, tls) ==> p == q)
  {
    hide GoNormalize;
    var all := Identities(peers).value;
    var k :| 0 <= k < |peers| && peers[k] == p;
    var m :| 0 <= m < |peers| && peers[m] == q;
    assert all[k] == all[m] ==> k == m;
  }

  lemma PermutedDiscovery(peers: seq<Peer>, later: seq<Peer>)
    requires UniquelyIdentified(peers) && Permutation(peers, later)
    ensures UniquelyIdentified(later) && DiscoveredPeersUseTLS(later) == DiscoveredPeersUseTLS(peers)
  {
    hide GoNormalize;
    var tls := DiscoveredPeersUseTLS(peers);
    PermutationMembers(peers, later);
    UniqueUrls(peers);
    DistinctPermutes(peers, later);
    assert DiscoveredPeersUseTLS(later) == tls;
    forall i, j | 0 <= i < |later| && 0 <= j < |later|
      ensures GoNormalize(later[i].url, tls).Ok?
      ensures i < j ==> GoNormalize(later[i].url, tls) != GoNormalize(later[j].url, tls)
    {
      assert later[i] in peers && later[j] in peers;
      IdentityOf(peers, later[i], later[j]);
    }
  }

  lemma ResolveEachFinds(targets: seq<Peer>, ids: seq<string>, later: seq<Peer>)
    requires UniquelyIdentified(later) && Identifies(DiscoveredPeersUseTLS(later), targets, ids)
    requires forall t | t in targets :: t in later
    requires forall id | id in ids :: GoNormalize(id, DiscoveredPeersUseTLS(later)) == Ok(id)
    ensures ResolveEach(ids, later, DiscoveredPeersUseTLS(later)) == Ok(targets)
  {
    var tls := DiscoveredPeersUseTLS(later);
    ResolveEachPointwise(ids, later, tls);
    forall i | 0 <= i < |ids|
      ensures ResolveSnapshotPeer(ids[i], later, tls) == Ok(targets[i])
    {
      assert ids[i] in ids && targets[i] in targets;
      MatchUnique(later, targets[i], ids[i]);
    }
    var r := ResolveEach(ids, later, tls);
    assert r.Ok? ==> r.value == targets;
  }

  lemma SnapshotTargetsDiscovered(channel: string, discovered: seq<Peer>, targeting: PeerTargeting, counters: Counters)
    requires SnapshotTargets(channel, discovered, targeting, counters).Ok?
    ensures UniquelyIdentified(discovered)
    ensures forall t | t in SnapshotTargets(channel, discovered, targeting, counters).value :: t in discovered
  {
    EnsureUniqueExactly(discovered);
    match targeting
    case OnePeer =>
      OrderedIsRotation(channel, discovered, counters);
      PermutationMembers(OrderPeers(channel, discovered, counters).0, discovered);
    case NamedPeers(names) =>
      var tls := DiscoveredPeersUseTLS(discovered);
      FoundExactly(discovered, tls, DedupeSpec(GoNormalizer(tls), names).value);
  }

  /** Resumed against the same peers discovered in any order, a snapshot with numeric ports yields the original peers in the original order. */
  lemma SamePeersResume(channel: string, discovered: seq<Peer>, targeting: PeerTargeting, counters: Counters, later: seq<Peer>)
    requires SnapshotRouting(channel, discovered, targeting, counters).Ok? && Permutation(discovered, later)
    ensures var originals := SnapshotTargets(channel, discovered, targeting, counters).value;
            var resumed := ResumeTargets(SnapshotRouting(channel, discovered, targeting, counters).value, later);
            if NumericPorts(originals, DiscoveredPeersUseTLS(discovered)) then resumed == Ok(originals) else resumed.Err?
  {
    hide GoParts, FaultFrom;
    var originals := SnapshotTargets(channel, discovered, targeting, counters).value;
    var ids := SnapshotRouting(channel, discovered, targeting, counters).value.peers;
    SnapshotTargetsDiscovered(channel, discovered, targeting, counters);
    PermutedDiscovery(discovered, later);
    PermutationMembers(discovered, later);
    SnapshotIdentities(channel, discovered, targeting, counters);
    SnapshotIsStable(channel, discovered, targeting, counters, DiscoveredPeersUseTLS(later));
    ResumesExactly(channel, discovered, targeting, counters, later);
    if NumericPorts(originals, DiscoveredPeersUseTLS(discovered)) {
      EnsureUniqueExactly(later);
      FixedNormalizeAll(ids, DiscoveredPeersUseTLS(later));
      FirstOccurrencesOfDistinct(ids);
      ResolveEachFinds(originals, ids, later);
      if targeting.OnePeer? {
        MatchUnique(later, originals[0], ids[0]);
        assert originals == [originals[0]];
      }
    }
  }

  /** A snapshot that cannot be resumed even against the discovery it was taken from: its peer has a named port. */
  lemma NamedPortCannotResume()
    ensures var peer := Peer("h" + ":" + "http", "M");
            var routing := SnapshotRouting("c", [peer], OnePeer, map[]);
            && routing == Ok(SinglePeer([Canonical(Parts("grpc", "h", "http"))]))
            && ResumeTargets(routing.value, [peer]).Err?
  {
    hide GoParts, Canonical, OrderPeers, ResumeTargets;
    var peer := Peer("h" + ":" + "http", "M");
    var discovered, tls := [peer], DiscoveredPeersUseTLS([peer]);
    PlainText("h", "http");
    assert Lower(Trim(peer.url))[0] == 'h';
    assert !UsesTLS(peer) && !tls;
    GoPlainReads("h", "http", false);
    GoNamedPortIsRefused();
    OnlyPeer(peer, Canonical(Parts("grpc", "h", "http")));
    assert "http"[0] in "http" && !IsDigit("http"[0]);
    assert peer in [peer] && !NumericPorts([peer], tls);
    SamePeersResume("c", discovered, OnePeer, map[], discovered);
  }

  lemma OnlyPeer(peer: Peer, id: string)
    requires GoNormalize(peer.url, DiscoveredPeersUseTLS([peer])) == Ok(id)
    ensures SnapshotTargets("c", [peer], OnePeer, map[]) == Ok([peer])
    ensures SnapshotRouting("c", [peer], OnePeer, map[]) == Ok(SinglePeer([id]))
  {
    hide GoNormalize, DiscoveredPeersUseTLS, OrderPeers, FaultFrom;
    var tls := DiscoveredPeersUseTLS([peer]);
    OneIdentity(peer.url, GoNormalizer(tls), id);
    assert Urls([peer]) == [peer.url];
    EnsureUniqueExactly([peer]);
    OrderedIsRotation("c", [peer], map[]);
    PermutationMembers(OrderPeers("c", [peer], map[]).0, [peer]);
    assert OrderPeers("c", [peer], map[]).0[0] in OrderPeers("c", [peer], map[]).0;
  }

  lemma OneIdentity(raw: string, norm: Normalizer, id: string)
    requires norm(raw) == Ok(id)
    ensures NormalizeAll(norm, [raw]) == Ok([id])
  {
    var one := [raw];
    assert one[..|one| - 1] == [] && one[|one| - 1] == raw;
    assert NormalizeAll(norm, []) == Ok([]);
    assert [] + [id] == [id];
  }
}
