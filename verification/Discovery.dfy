// Reading a discovery response in Go. Protobuf maps are iterated in an unspecified order, so each map is
// given here as its entries in whatever order the iteration produced.
module Discovery {
  import opened Prelude
  import opened StableSort
  import opened EndpointIdentity
  import opened PeerResolution
  import opened GoSlices

  datatype Endpoint = Endpoint(host: string, port: nat)
  datatype Orderer = Orderer(mspId: string, endpoint: string)

  /** The membership info of a peer: absent, unreadable, or with the endpoint it names, empty when it names none. */
  datatype Membership = Absent | Unreadable(message: string) | Alive(endpoint: string)
  datatype OrgPeers = OrgPeers(orgId: string, members: seq<Membership>)
  datatype OrgOrderers = OrgOrderers(mspId: string, endpoints: seq<Endpoint>)

  datatype QueryResult =
    | ServiceError(content: string)
    | Members(orgs: seq<OrgPeers>)
    | ConfigResult(msps: seq<OrgOrderers>)
    | Unset

  datatype DiscoveryError =
    | EmptyResults
    | Service(content: string)
    | NoMembershipInfo
    | BadMembershipInfo(message: string)
    | NoEndpoint
    | NoMembership

  datatype Discovered = Discovered(peers: seq<Peer>, orderers: seq<Orderer>)

  /******* Orderers *******/

  /** Endpoints without a host or with port 0 are skipped. */
  function OrgOrdererList(mspId: string, endpoints: seq<Endpoint>): seq<Orderer> {
    if endpoints == [] then []
    else
      (if endpoints[0].host == "" || endpoints[0].port == 0 then []
       else [Orderer(mspId, endpoints[0].host + ":" + Decimal(endpoints[0].port))])
      + OrgOrdererList(mspId, endpoints[1..])
  }

  function OrderersFromConfig(orgs: seq<OrgOrderers>): seq<Orderer> {
    if orgs == [] then [] else OrgOrdererList(orgs[0].mspId, orgs[0].endpoints) + OrderersFromConfig(orgs[1..])
  }

  /** By endpoint, then by MSP id. */
  predicate OrdererLeq(a: Orderer, b: Orderer) {
    if a.endpoint == b.endpoint then TextLeq(a.mspId, b.mspId) else TextLeq(a.endpoint, b.endpoint)
  }

  lemma OrdererLeqTotal()
    ensures TotalPreorder(OrdererLeq)
    ensures forall orderers: seq<Orderer> :: Antisymmetric(OrdererLeq, orderers)
  {
    forall a, b
      ensures OrdererLeq(a, b) || OrdererLeq(b, a)
      ensures OrdererLeq(a, b) && OrdererLeq(b, a) ==> a == b
    {
      TextLeqTotal(a.endpoint, b.endpoint);
      TextLeqTotal(a.mspId, b.mspId);
    }
    forall a, b, c | OrdererLeq(a, b) && OrdererLeq(b, c)
      ensures OrdererLeq(a, c)
    {
      if a.endpoint == b.endpoint == c.endpoint {
        TextLeqTransitive(a.mspId, b.mspId, c.mspId);
      } else if a.endpoint != b.endpoint && b.endpoint != c.endpoint {
        TextLeqTransitive(a.endpoint, b.endpoint, c.endpoint);
        TextLeqTotal(a.endpoint, b.endpoint);
      }
    }
  }

  lemma {:induction false} OrderersAppend(a: seq<OrgOrderers>, b: seq<OrgOrderers>)
    ensures OrderersFromConfig(a + b) == OrderersFromConfig(a) + OrderersFromConfig(b)
  {
    hide OrgOrdererList;
    if a == [] {
      assert a + b == b;
    } else {
      var tail := a[1..];
      OrderersAppend(tail, b);
      AppendAssociative([a[0]], tail, b);
      AppendAssociative(OrgOrdererList(a[0].mspId, a[0].endpoints), OrderersFromConfig(tail), OrderersFromConfig(b));
      assert [a[0]] + tail == a && ([a[0]] + (tail + b))[1..] == tail + b;
    }
  }

  /** The orderers of a config map do not depend on its iteration order, up to order. */
  lemma {:induction false} ConfigOrderIrrelevant(a: seq<OrgOrderers>, b: seq<OrgOrderers>)
    requires Permutation(a, b)
    ensures Permutation(OrderersFromConfig(a), OrderersFromConfig(b))
  {
    PermutationMembers(a, b);
    if a != [] {
      var i := PermutationRemove(a, b);
      ConfigOrderIrrelevant(a[1..], RemoveAt(b, i));
      OrderersAround(b, i);
    }
  }

  lemma OrderersAround(b: seq<OrgOrderers>, i: nat)
    requires i < |b|
    ensures OrderersFromConfig(RemoveAt(b, i)) == OrderersFromConfig(b[..i]) + OrderersFromConfig(b[i + 1..])
    ensures OrderersFromConfig(b)
         == OrderersFromConfig(b[..i]) + (OrgOrdererList(b[i].mspId, b[i].endpoints) + OrderersFromConfig(b[i + 1..]))
  {
    hide OrgOrdererList, OrderersFromConfig;
    OrderersAppend(b[..i], b[i + 1..]);
    OrderersAppend(b[..i], b[i..]);
    OrderersCons(b[i], b[i + 1..]);
    assert b[..i] + b[i..] == b && b[i..] == [b[i]] + b[i + 1..];
  }

  lemma OrderersCons(org: OrgOrderers, orgs: seq<OrgOrderers>)
    ensures OrderersFromConfig([org] + orgs) == OrgOrdererList(org.mspId, org.endpoints) + OrderersFromConfig(orgs)
  {
    assert ([org] + orgs)[1..] == orgs;
  }

  /** The endpoint an orderer list stands for; empty when there is none. */
  function SelectedOrderer(orderers: seq<Orderer>): string {
    var sorted := Sort(OrdererLeq, orderers);
    if sorted == [] then "" else sorted[0].endpoint
  }

  method SelectDiscoveredOrdererEndpoint(orderers: seq<Orderer>) returns (endpoint: string)
    ensures endpoint == SelectedOrderer(orderers)
  {
    if |orderers| == 0 {
      return "";
    }
    var sorted := new Orderer[|orderers|];
    forall i | 0 <= i < |orderers| {
      sorted[i] := orderers[i];
    }
    assert sorted[..sorted.Length] == orderers;
    SortInPlace(OrdererLeq, sorted, sorted.Length);
    SortPermutes(OrdererLeq, orderers);
    PermutationMembers(Sort(OrdererLeq, orderers), orderers);
    assert sorted[..sorted.Length][0] == sorted[0];
    return sorted[0].endpoint;
  }

  /** The first orderer comes before the second: by endpoint, then by MSP id, both in dictionary order; or they are the same. */
  ghost predicate NotAfter(a: Orderer, b: Orderer) {
    Before(a.endpoint, b.endpoint) || (a.endpoint == b.endpoint && (Before(a.mspId, b.mspId) || a.mspId == b.mspId))
  }

  lemma OrdererLeqExactly(a: Orderer, b: Orderer)
    ensures OrdererLeq(a, b) <==> NotAfter(a, b)
  {
    hide TextLeq, Before;
    TextLeqExactly(a.endpoint, b.endpoint);
    TextLeqExactly(a.mspId, b.mspId);
    NeverBeforeItself(a.endpoint);
  }

  lemma NeverBeforeItself(text: string)
    ensures !Before(text, text)
  {
  }

  ghost predicate InOrder(orderers: seq<Orderer>) {
    forall i, j | 0 <= i < j < |orderers| :: NotAfter(orderers[i], orderers[j])
  }

  lemma SortedInOrder(orderers: seq<Orderer>)
    ensures InOrder(Sort(OrdererLeq, orderers)) && Permutation(Sort(OrdererLeq, orderers), orderers)
  {
    hide NotAfter, OrdererLeq, Sort;
    var sorted := Sort(OrdererLeq, orderers);
    OrdererLeqTotal();
    SortSorted(OrdererLeq, orderers);
    SortPermutes(OrdererLeq, orderers);
    forall i, j | 0 <= i < j < |sorted|
      ensures NotAfter(sorted[i], sorted[j])
    {
      OrdererLeqExactly(sorted[i], sorted[j]);
    }
  }

  /** The selected endpoint belongs to the least (endpoint, MSP id) pair; every permutation selects the same. */
  lemma SelectedIsLeast(orderers: seq<Orderer>, other: seq<Orderer>)
    requires orderers != [] && Permutation(orderers, other)
    ensures exists least | least in orderers ::
              SelectedOrderer(orderers) == least.endpoint && forall o | o in orderers :: NotAfter(least, o)
    ensures SelectedOrderer(other) == SelectedOrderer(orderers)
  {
    hide NotAfter, OrdererLeq, Sort;
    var sorted := Sort(OrdererLeq, orderers);
    OrdererLeqTotal();
    SortedInOrder(orderers);
    PermutationMembers(sorted, orderers);
    SortIgnoresOrder(OrdererLeq, orderers, other);
    forall o | o in orderers
      ensures NotAfter(sorted[0], o)
    {
      OrdererLeqExactly(o, o);
      OrdererLeqReflexive(o);
      var i :| 0 <= i < |sorted| && sorted[i] == o;
    }
    assert sorted[0] in orderers;
  }

  lemma OrdererLeqReflexive(o: Orderer)
    ensures OrdererLeq(o, o)
  {
    OrdererLeqTotal();
  }

  /******* Peers *******/

  function MemberEndpoint(member: Membership): Result<string, DiscoveryError> {
    match member
    case Absent => Err(NoMembershipInfo)
    case Unreadable(message) => Err(BadMembershipInfo(message))
    case Alive(endpoint) => if endpoint == "" then Err(NoEndpoint) else Ok(endpoint)
  }

  function OrgPeerList(orgId: string, members: seq<Membership>): Result<seq<Peer>, DiscoveryError> {
    if members == [] then Ok([])
    else
      var endpoint :- MemberEndpoint(members[0]);
      var rest :- OrgPeerList(orgId, members[1..]);
      Ok([Peer(endpoint, orgId)] + rest)
  }

  function PeersOfOrgs(orgs: seq<OrgPeers>): Result<seq<Peer>, DiscoveryError> {
    if orgs == [] then Ok([])
    else
      var first :- OrgPeerList(orgs[0].orgId, orgs[0].members);
      var rest :- PeersOfOrgs(orgs[1..]);
      Ok(first + rest)
  }

  predicate OrgLeq(a: OrgPeers, b: OrgPeers) {
    TextLeq(a.orgId, b.orgId)
  }

  /** The organisations are visited in the order of their sorted ids. */
  function PeersFromMembership(orgs: seq<OrgPeers>): Result<seq<Peer>, DiscoveryError> {
    PeersOfOrgs(Sort(OrgLeq, orgs))
  }

  /** The entries of a map: no key twice. */
  ghost predicate MapEntries(orgs: seq<OrgPeers>) {
    forall i, j | 0 <= i < j < |orgs| :: orgs[i].orgId != orgs[j].orgId
  }

  lemma OrgLeqTotal()
    ensures TotalPreorder(OrgLeq)
  {
    forall x, y
      ensures OrgLeq(x, y) || OrgLeq(y, x)
    {
      TextLeqTotal(x.orgId, y.orgId);
    }
    forall x, y, z | OrgLeq(x, y) && OrgLeq(y, z)
      ensures OrgLeq(x, z)
    {
      TextLeqTransitive(x.orgId, y.orgId, z.orgId);
    }
  }

  lemma MembershipOrderIrrelevant(a: seq<OrgPeers>, b: seq<OrgPeers>)
    requires MapEntries(a) && Permutation(a, b)
    ensures PeersFromMembership(a) == PeersFromMembership(b)
  {
    OrgLeqTotal();
    forall x, y | x in a && y in a && OrgLeq(x, y) && OrgLeq(y, x)
      ensures x == y
    {
      TextLeqTotal(x.orgId, y.orgId);
    }
    SortIgnoresOrder(OrgLeq, a, b);
  }

  /******* The response *******/

  function Collect(results: seq<QueryResult>): Result<Discovered, DiscoveryError> {
    if results == [] then Ok(Discovered([], []))
    else
      var front :- Collect(results[..|results| - 1]);
      match results[|results| - 1]
      case ServiceError(content) => Err(Service(content))
      case Members(orgs) =>
        var peers :- PeersFromMembership(orgs);
        Ok(Discovered(front.peers + peers, front.orderers))
      case ConfigResult(orgs) => Ok(Discovered(front.peers, front.orderers + OrderersFromConfig(orgs)))
      case Unset => Ok(front)
  }

  function DiscoveryResult(results: seq<QueryResult>): Result<Discovered, DiscoveryError> {
    if results == [] then Err(EmptyResults)
    else
      var collected :- Collect(results);
      if collected.peers == [] then Err(NoMembership)
      else Ok(Discovered(collected.peers, Sort(OrdererLeq, collected.orderers)))
  }

  lemma {:induction false} CollectStops(results: seq<QueryResult>, i: nat)
    requires i < |results| && Collect(results[..i + 1]).Err?
    ensures Collect(results) == Collect(results[..i + 1])
    decreases |results|
  {
    if i + 1 < |results| {
      var front := results[..|results| - 1];
      assert front[..i + 1] == results[..i + 1];
      CollectStops(front, i);
    } else {
      assert results[..i + 1] == results;
    }
  }

  method DiscoveryResultFromResponse(results: seq<QueryResult>) returns (r: Result<Discovered, DiscoveryError>)
    ensures r == DiscoveryResult(results)
  {
    if |results| == 0 {
      return Err(EmptyResults);
    }
    var peers: seq<Peer>, orderers: seq<Orderer> := [], [];
    for i := 0 to |results|
      invariant Collect(results[..i]) == Ok(Discovered(peers, orderers))
    {
      assert results[..i + 1][..i] == results[..i];
      match results[i] {
        case ServiceError(content) =>
          CollectStops(results, i);
          return Err(Service(content));
        case Members(orgs) =>
          var parsed := PeersFromMembership(orgs);
          if parsed.Err? {
            CollectStops(results, i);
            return Err(parsed.error);
          }
          peers := peers + parsed.value;
        case ConfigResult(orgs) =>
          orderers := orderers + OrderersFromConfig(orgs);
        case Unset =>
      }
    }
    assert results[..|results|] == results;
    if |peers| == 0 {
      return Err(NoMembership);
    }
    return Ok(Discovered(peers, Sort(OrdererLeq, orderers)));
  }

  /******* What a response yields *******/

  /** Why a result fails on its own, if it does. */
  function ResultFault(result: QueryResult): Option<DiscoveryError> {
    match result
    case ServiceError(content) => Some(Service(content))
    case Members(orgs) => (match PeersFromMembership(orgs) case Ok(_) => None case Err(e) => Some(e))
    case ConfigResult(_) => None
    case Unset => None
  }

  /** The membership names this peer under this organisation. */
  ghost predicate Names(orgs: seq<OrgPeers>, peer: Peer) {
    exists org | org in orgs :: org.orgId == peer.mspId && Alive(peer.url) in org.members
  }

  /** A peer that gossips an endpoint. */
  predicate Usable(member: Membership) {
    member.Alive? && member.endpoint != ""
  }

  /** Why a peer cannot be used. */
  predicate Unusable(member: Membership, e: DiscoveryError) {
    match member
    case Absent => e == NoMembershipInfo
    case Unreadable(message) => e == BadMembershipInfo(message)
    case Alive(endpoint) => endpoint == "" && e == NoEndpoint
  }

  ghost predicate Readable(orgs: seq<OrgPeers>) {
    forall org, member | org in orgs && member in org.members :: Usable(member)
  }

  /** The first peer of an organisation that cannot be used, and why. */
  ghost predicate FirstUnusable(members: seq<Membership>, e: DiscoveryError) {
    exists i | 0 <= i < |members| :: Unusable(members[i], e) && forall j | 0 <= j < i :: Usable(members[j])
  }

  lemma {:induction false} OrgPeersExactly(orgId: string, members: seq<Membership>)
    ensures OrgPeerList(orgId, members).Ok? <==> forall member | member in members :: Usable(member)
    ensures OrgPeerList(orgId, members).Ok? ==>
              var peers := OrgPeerList(orgId, members).value;
              && |peers| == |members|
              && forall i | 0 <= i < |members| :: peers[i].mspId == orgId && members[i] == Alive(peers[i].url)
    ensures OrgPeerList(orgId, members).Err? ==> FirstUnusable(members, OrgPeerList(orgId, members).error)
  {
    if members != [] {
      var tail := members[1..];
      OrgPeersExactly(orgId, tail);
      assert members == [members[0]] + tail;
      if OrgPeerList(orgId, members).Err? {
        var e := OrgPeerList(orgId, members).error;
        if Usable(members[0]) {
          var i :| 0 <= i < |tail| && Unusable(tail[i], e) && forall j | 0 <= j < i :: Usable(tail[j]);
          assert members[i + 1] == tail[i];
          assert forall j | 0 < j < i + 1 :: members[j] == tail[j - 1];
        } else {
          assert Unusable(members[0], e);
        }
      }
    }
  }

  lemma NamedByOrg(orgId: string, members: seq<Membership>, peer: Peer)
    requires OrgPeerList(orgId, members).Ok?
    ensures peer in OrgPeerList(orgId, members).value <==> peer.mspId == orgId && Alive(peer.url) in members
  {
    OrgPeersExactly(orgId, members);
    var peers := OrgPeerList(orgId, members).value;
    if peer.mspId == orgId && Alive(peer.url) in members {
      var i :| 0 <= i < |members| && members[i] == Alive(peer.url);
      assert peers[i] == peer;
    }
  }

  lemma {:induction false} PeersOfOrgsExactly(orgs: seq<OrgPeers>)
    ensures PeersOfOrgs(orgs).Ok? <==> Readable(orgs)
    ensures PeersOfOrgs(orgs).Ok? ==> forall peer :: peer in PeersOfOrgs(orgs).value <==> Names(orgs, peer)
  {
    if orgs != [] {
      var first, tail := orgs[0], orgs[1..];
      OrgPeersExactly(first.orgId, first.members);
      PeersOfOrgsExactly(tail);
      assert orgs == [first] + tail;
      if PeersOfOrgs(orgs).Ok? {
        forall peer
          ensures peer in PeersOfOrgs(orgs).value <==> Names(orgs, peer)
        {
          NamesCons(first, tail, peer);
          NamedByOrg(first.orgId, first.members, peer);
        }
      }
    }
  }

  lemma NamesCons(first: OrgPeers, tail: seq<OrgPeers>, peer: Peer)
    ensures Names([first] + tail, peer) <==> Names([first], peer) || Names(tail, peer)
  {
    var orgs := [first] + tail;
    if Names(orgs, peer) {
      var org :| org in orgs && org.orgId == peer.mspId && Alive(peer.url) in org.members;
      assert org == first || org in tail;
      assert org == first ==> org in [first];
    }
    if org :| org in [first] && org.orgId == peer.mspId && Alive(peer.url) in org.members {
      assert org in orgs;
    }
    if org :| org in tail && org.orgId == peer.mspId && Alive(peer.url) in org.members {
      assert org in orgs;
    }
  }

  /** A membership is read whole or refused: it is refused exactly when some member has no readable endpoint. */
  lemma MembershipExactly(orgs: seq<OrgPeers>)
    ensures PeersFromMembership(orgs).Ok? <==> Readable(orgs)
    ensures PeersFromMembership(orgs).Ok? ==> forall peer :: peer in PeersFromMembership(orgs).value <==> Names(orgs, peer)
  {
    var sorted := Sort(OrgLeq, orgs);
    SortPermutes(OrgLeq, orgs);
    PermutationMembers(sorted, orgs);
    PeersOfOrgsExactly(sorted);
    forall peer
      ensures Names(sorted, peer) <==> Names(orgs, peer)
    {
      if org :| org in sorted && org.orgId == peer.mspId && Alive(peer.url) in org.members {
        assert org in orgs;
      }
      if org :| org in orgs && org.orgId == peer.mspId && Alive(peer.url) in org.members {
        assert org in sorted;
      }
    }
  }

  /** The URLs of the peers of one organisation, in order. */
  function UrlsOf(peers: seq<Peer>, mspId: string): seq<string> {
    if peers == [] then []
    else UrlIf(peers[0], mspId) + UrlsOf(peers[1..], mspId)
  }

  function UrlIf(peer: Peer, mspId: string): seq<string> {
    if peer.mspId == mspId then [peer.url] else []
  }

  lemma UrlsOfCons(peer: Peer, peers: seq<Peer>, mspId: string)
    ensures UrlsOf([peer] + peers, mspId) == UrlIf(peer, mspId) + UrlsOf(peers, mspId)
  {
    assert ([peer] + peers)[1..] == peers;
  }

  lemma {:induction false} UrlsOfAppend(a: seq<Peer>, b: seq<Peer>, mspId: string)
    ensures UrlsOf(a + b, mspId) == UrlsOf(a, mspId) + UrlsOf(b, mspId)
  {
    if a == [] {
      assert a + b == b;
    } else {
      hide UrlsOf, UrlIf;
      var tail := a[1..];
      assert a == [a[0]] + tail;
      UrlsOfAppend(tail, b, mspId);
      UrlsOfCons(a[0], tail + b, mspId);
      UrlsOfCons(a[0], tail, mspId);
      AppendAssociative([a[0]], tail, b);
      AppendAssociative(UrlIf(a[0], mspId), UrlsOf(tail, mspId), UrlsOf(b, mspId));
    }
  }

  lemma {:induction false} UrlsOfOne(peers: seq<Peer>, orgId: string, mspId: string)
    requires forall p | p in peers :: p.mspId == orgId
    ensures UrlsOf(peers, mspId) == if orgId == mspId then Urls(peers) else []
  {
    if peers != [] {
      assert peers[0] in peers && forall p | p in peers[1..] :: p in peers;
      UrlsOfOne(peers[1..], orgId, mspId);
    }
  }

  /** The URLs gossiped, member by member. */
  ghost predicate AreUrls(members: seq<Membership>, urls: seq<string>) {
    |urls| == |members| && forall i | 0 <= i < |members| :: members[i] == Alive(urls[i])
  }

  /** Organisations in dictionary order of their ids. */
  ghost predicate ByOrganisation(peers: seq<Peer>) {
    forall i, j | 0 <= i < j < |peers| :: peers[i].mspId == peers[j].mspId || Before(peers[i].mspId, peers[j].mspId)
  }

  ghost predicate OrgsInOrder(orgs: seq<OrgPeers>) {
    forall i, j | 0 <= i < j < |orgs| :: Before(orgs[i].orgId, orgs[j].orgId)
  }

  lemma {:induction false} PeersInOrder(orgs: seq<OrgPeers>)
    requires OrgsInOrder(orgs) && MapEntries(orgs) && PeersOfOrgs(orgs).Ok?
    ensures ByOrganisation(PeersOfOrgs(orgs).value)
    ensures forall org | org in orgs :: AreUrls(org.members, UrlsOf(PeersOfOrgs(orgs).value, org.orgId))
    ensures forall p | p in PeersOfOrgs(orgs).value :: exists org | org in orgs :: org.orgId == p.mspId
  {
    hide Before, OrgPeerList;
    if orgs != [] {
      var first, tail := orgs[0], orgs[1..];
      assert orgs == [first] + tail;
      PeersInOrder(tail);
      OrgPeersExactly(first.orgId, first.members);
      var mine, others := OrgPeerList(first.orgId, first.members).value, PeersOfOrgs(tail).value;
      assert forall p | p in mine :: p.mspId == first.orgId && first in orgs;
      NeverBeforeItself(first.orgId);
      assert forall org | org in tail :: org in orgs && Before(first.orgId, org.orgId) && org.orgId != first.orgId by {
        forall org | org in tail
          ensures org in orgs && Before(first.orgId, org.orgId) && org.orgId != first.orgId
        {
          var k :| 0 <= k < |tail| && tail[k] == org;
          assert orgs[k + 1] == org && orgs[0] == first;
        }
      }
      ByOrganisationAppend(mine, others, first.orgId);
      UrlsOfOne(mine, first.orgId, first.orgId);
      hide UrlsOf, ByOrganisation;
      forall org | org in orgs
        ensures AreUrls(org.members, UrlsOf(mine + others, org.orgId))
      {
        OrgUrls(first, mine, others, org);
      }
    }
  }

  /** The URLs of one organisation, when those of the first come in front of all others. */
  lemma OrgUrls(first: OrgPeers, mine: seq<Peer>, others: seq<Peer>, org: OrgPeers)
    requires (forall p | p in mine :: p.mspId == first.orgId) && (forall p | p in others :: p.mspId != first.orgId)
    requires AreUrls(first.members, UrlsOf(mine, first.orgId))
    requires org == first || (org.orgId != first.orgId && AreUrls(org.members, UrlsOf(others, org.orgId)))
    ensures AreUrls(org.members, UrlsOf(mine + others, org.orgId))
  {
    UrlsOfAppend(mine, others, org.orgId);
    UrlsOfOne(mine, first.orgId, org.orgId);
    if org == first {
      NoOthers(others, first.orgId);
    }
  }

  lemma {:induction false} NoOthers(peers: seq<Peer>, mspId: string)
    requires forall p | p in peers :: p.mspId != mspId
    ensures UrlsOf(peers, mspId) == []
  {
    if peers != [] {
      assert peers[0] in peers && forall p | p in peers[1..] :: p in peers;
      NoOthers(peers[1..], mspId);
    }
  }

  lemma ByOrganisationAppend(mine: seq<Peer>, others: seq<Peer>, orgId: string)
    requires ByOrganisation(others) && (forall p | p in mine :: p.mspId == orgId) && forall p | p in others :: Before(orgId, p.mspId)
    ensures ByOrganisation(mine + others)
  {
    hide Before;
    var all := mine + others;
    forall i, j | 0 <= i < j < |all|
      ensures all[i].mspId == all[j].mspId || Before(all[i].mspId, all[j].mspId)
    {
      if j < |mine| {
        assert all[i] in mine && all[j] in mine;
      } else if i < |mine| {
        assert all[i] in mine && all[j] == others[j - |mine|] && all[j] in others;
      } else {
        assert all[i] == others[i - |mine|] && all[j] == others[j - |mine|];
      }
    }
  }

  lemma SortedOrgs(orgs: seq<OrgPeers>)
    requires MapEntries(orgs)
    ensures OrgsInOrder(Sort(OrgLeq, orgs)) && MapEntries(Sort(OrgLeq, orgs)) && Permutation(Sort(OrgLeq, orgs), orgs)
  {
    hide Sort, Before, TextLeq;
    var sorted := Sort(OrgLeq, orgs);
    OrgLeqTotal();
    SortSorted(OrgLeq, orgs);
    SortPermutes(OrgLeq, orgs);
    PermutationMembers(sorted, orgs);
    DistinctEntries(orgs, sorted);
    forall i, j | 0 <= i < j < |sorted|
      ensures Before(sorted[i].orgId, sorted[j].orgId)
    {
      assert OrgLeq(sorted[i], sorted[j]);
      TextLeqExactly(sorted[i].orgId, sorted[j].orgId);
    }
  }

  /** Rearranging a map's entries leaves them the entries of a map. */
  lemma DistinctEntries(orgs: seq<OrgPeers>, sorted: seq<OrgPeers>)
    requires MapEntries(orgs) && Permutation(sorted, orgs)
    ensures MapEntries(sorted)
  {
    DistinctPermutes(orgs, sorted);
    PermutationMembers(sorted, orgs);
    forall i, j | 0 <= i < j < |sorted|
      ensures sorted[i].orgId != sorted[j].orgId
    {
      assert sorted[i] in orgs && sorted[j] in orgs && sorted[i] != sorted[j];
      var k :| 0 <= k < |orgs| && orgs[k] == sorted[i];
      var m :| 0 <= m < |orgs| && orgs[m] == sorted[j];
    }
  }

  /** Why a whole membership is refused: some organisation's first unusable peer, all organisations with smaller ids being fine. */
  ghost predicate MembershipFault(orgs: seq<OrgPeers>, e: DiscoveryError) {
    exists org | org in orgs :: FirstUnusable(org.members, e) && Readable(Smaller(orgs, org.orgId))
  }

  /** The organisations before this one in dictionary order. */
  ghost function Smaller(orgs: seq<OrgPeers>, orgId: string): seq<OrgPeers> {
    if orgs == [] then []
    else (if Before(orgs[0].orgId, orgId) then [orgs[0]] else []) + Smaller(orgs[1..], orgId)
  }

  lemma {:induction false} SmallerExactly(orgs: seq<OrgPeers>, orgId: string)
    ensures forall org :: org in Smaller(orgs, orgId) <==> org in orgs && Before(org.orgId, orgId)
  {
    hide Before;
    if orgs != [] {
      SmallerExactly(orgs[1..], orgId);
      assert orgs == [orgs[0]] + orgs[1..];
    }
  }

  lemma {:induction false} FirstOrgFault(orgs: seq<OrgPeers>) returns (k: nat)
    requires PeersOfOrgs(orgs).Err?
    ensures k < |orgs| && FirstUnusable(orgs[k].members, PeersOfOrgs(orgs).error) && Readable(orgs[..k])
  {
    hide OrgPeerList, FirstUnusable;
    var first, tail := orgs[0], orgs[1..];
    OrgPeersExactly(first.orgId, first.members);
    if OrgPeerList(first.orgId, first.members).Err? {
      k := 0;
    } else {
      var m := FirstOrgFault(tail);
      k := m + 1;
      assert orgs[..k] == [first] + tail[..m];
    }
  }

  lemma NotBoth(a: string, b: string)
    ensures !(Before(a, b) && Before(b, a))
  {
    hide Before;
    TextLeqExactly(a, b);
    TextLeqExactly(b, a);
    TextLeqTotal(a, b);
    NeverBeforeItself(a);
  }

  /**
   * The entries of a membership map in full: the organisations come in dictionary order of their ids, the peers of each
   * in its own order; or else the error of the first peer, in that order, without an endpoint.
   */
  lemma MembershipInOrder(orgs: seq<OrgPeers>)
    requires MapEntries(orgs)
    ensures match PeersFromMembership(orgs)
            case Ok(peers) =>
              ByOrganisation(peers) && forall org | org in orgs :: AreUrls(org.members, UrlsOf(peers, org.orgId))
            case Err(e) => MembershipFault(orgs, e)
  {
    hide Before, Sort, FirstUnusable, UrlsOf, PeersOfOrgs;
    var sorted := Sort(OrgLeq, orgs);
    SortedOrgs(orgs);
    PermutationMembers(sorted, orgs);
    if PeersOfOrgs(sorted).Ok? {
      PeersInOrder(sorted);
    } else {
      var k := FirstOrgFault(sorted);
      var id := sorted[k].orgId;
      SmallerExactly(orgs, id);
      forall org | org in Smaller(orgs, id)
        ensures org in sorted[..k]
      {
        var m :| 0 <= m < |sorted| && sorted[m] == org;
        NotBoth(org.orgId, id);
        NeverBeforeItself(id);
        assert m < k;
        assert sorted[..k][m] == org;
      }
      assert sorted[k] in orgs;
    }
  }

  /** A configuration lists this orderer, with a host and a port. */
  ghost predicate Lists(orgs: seq<OrgOrderers>, orderer: Orderer) {
    exists org, e | org in orgs && e in org.endpoints ::
      org.mspId == orderer.mspId && e.host != "" && e.port != 0 && orderer.endpoint == e.host + ":" + Decimal(e.port)
  }

  lemma {:induction false} OrgOrderersExactly(mspId: string, endpoints: seq<Endpoint>)
    ensures forall o :: o in OrgOrdererList(mspId, endpoints) <==> Lists([OrgOrderers(mspId, endpoints)], o)
  {
    if endpoints != [] {
      var tail := endpoints[1..];
      OrgOrderersExactly(mspId, tail);
      forall o
        ensures o in OrgOrdererList(mspId, endpoints) <==> Lists([OrgOrderers(mspId, endpoints)], o)
      {
        ListsMore(mspId, endpoints, o);
      }
    }
  }

  lemma ListsMore(mspId: string, endpoints: seq<Endpoint>, o: Orderer)
    requires endpoints != []
    ensures var e := endpoints[0];
            Lists([OrgOrderers(mspId, endpoints)], o)
            <==> || (mspId == o.mspId && e.host != "" && e.port != 0 && o.endpoint == e.host + ":" + Decimal(e.port))
                 || Lists([OrgOrderers(mspId, endpoints[1..])], o)
  {
    hide Decimal;
    var whole, tail := OrgOrderers(mspId, endpoints), OrgOrderers(mspId, endpoints[1..]);
    assert whole in [whole] && tail in [tail];
    assert endpoints == [endpoints[0]] + endpoints[1..];
    if org, e :| org in [tail] && e in org.endpoints && org.mspId == o.mspId && e.host != "" && e.port != 0
                 && o.endpoint == e.host + ":" + Decimal(e.port) {
      assert e in whole.endpoints;
    }
  }

  lemma {:induction false} ConfigExactly(orgs: seq<OrgOrderers>)
    ensures forall o :: o in OrderersFromConfig(orgs) <==> Lists(orgs, o)
  {
    hide Decimal, OrgOrdererList;
    if orgs != [] {
      var first, tail := orgs[0], orgs[1..];
      ConfigExactly(tail);
      OrgOrderersExactly(first.mspId, first.endpoints);
      assert orgs == [first] + tail;
      forall o
        ensures o in OrderersFromConfig(orgs) <==> Lists(orgs, o)
      {
        ListsCons(first, tail, o);
      }
    }
  }

  lemma ListsCons(first: OrgOrderers, tail: seq<OrgOrderers>, o: Orderer)
    ensures Lists([first] + tail, o) <==> Lists([first], o) || Lists(tail, o)
  {
    hide Decimal;
    var orgs := [first] + tail;
    if org, e :| org in [first] && e in org.endpoints && org.mspId == o.mspId && e.host != "" && e.port != 0
                 && o.endpoint == e.host + ":" + Decimal(e.port) {
      assert org in orgs;
    }
    if org, e :| org in tail && e in org.endpoints && org.mspId == o.mspId && e.host != "" && e.port != 0
                 && o.endpoint == e.host + ":" + Decimal(e.port) {
      assert org in orgs;
    }
    if org, e :| org in orgs && e in org.endpoints && org.mspId == o.mspId && e.host != "" && e.port != 0
                 && o.endpoint == e.host + ":" + Decimal(e.port) {
      assert org in [first] || org in tail;
    }
  }

  /** Some result of the response names the peer, or lists the orderer. */
  ghost predicate SomeNames(results: seq<QueryResult>, peer: Peer) {
    exists result | result in results :: result.Members? && Names(result.orgs, peer)
  }

  ghost predicate SomeLists(results: seq<QueryResult>, orderer: Orderer) {
    exists result | result in results :: result.ConfigResult? && Lists(result.msps, orderer)
  }

  /** The first result that fails decides the error. */
  ghost predicate FirstFault(results: seq<QueryResult>, e: DiscoveryError) {
    exists i | 0 <= i < |results| :: ResultFault(results[i]) == Some(e) && forall j | 0 <= j < i :: ResultFault(results[j]) == None
  }

  lemma CollectFault(front: seq<QueryResult>, last: QueryResult)
    ensures match Collect(front)
            case Err(e) => Collect(front + [last]) == Err(e)
            case Ok(_) => (match ResultFault(last) case Some(e) => Collect(front + [last]) == Err(e) case None => Collect(front + [last]).Ok?)
  {
    hide PeersFromMembership, OrderersFromConfig;
    assert (front + [last])[..|front|] == front;
  }

  lemma FirstFaultSnoc(front: seq<QueryResult>, last: QueryResult, e: DiscoveryError)
    ensures FirstFault(front, e) ==> FirstFault(front + [last], e)
    ensures ResultFault(last) == Some(e) && (forall result | result in front :: ResultFault(result) == None) ==> FirstFault(front + [last], e)
  {
    hide ResultFault;
    var results := front + [last];
    if FirstFault(front, e) {
      var i :| 0 <= i < |front| && ResultFault(front[i]) == Some(e) && forall j | 0 <= j < i :: ResultFault(front[j]) == None;
      assert results[i] == front[i];
    }
    if ResultFault(last) == Some(e) && forall result | result in front :: ResultFault(result) == None {
      assert results[|front|] == last;
      assert forall j | 0 <= j < |front| :: results[j] == front[j];
    }
  }

  lemma {:induction false} CollectErrors(results: seq<QueryResult>)
    ensures Collect(results).Ok? <==> forall result | result in results :: ResultFault(result) == None
    ensures Collect(results).Err? ==> FirstFault(results, Collect(results).error)
  {
    if results != [] {
      var front, last := results[..|results| - 1], results[|results| - 1];
      CollectErrors(front);
      assert results == front + [last];
      hide Collect, ResultFault, FirstFault;
      CollectFault(front, last);
      if Collect(results).Err? {
        FirstFaultSnoc(front, last, Collect(results).error);
      }
    }
  }

  lemma SomeNamesSnoc(front: seq<QueryResult>, last: QueryResult, peer: Peer)
    ensures SomeNames(front + [last], peer) <==> SomeNames(front, peer) || (last.Members? && Names(last.orgs, peer))
  {
    hide Names;
    var results := front + [last];
    assert last in results;
    if result :| result in front && result.Members? && Names(result.orgs, peer) {
      assert result in results;
    }
  }

  lemma SomeListsSnoc(front: seq<QueryResult>, last: QueryResult, orderer: Orderer)
    ensures SomeLists(front + [last], orderer) <==> SomeLists(front, orderer) || (last.ConfigResult? && Lists(last.msps, orderer))
  {
    hide Lists;
    var results := front + [last];
    assert last in results;
    if result :| result in front && result.ConfigResult? && Lists(result.msps, orderer) {
      assert result in results;
    }
  }

  lemma {:induction false} CollectMembers(results: seq<QueryResult>)
    requires Collect(results).Ok?
    ensures forall peer :: peer in Collect(results).value.peers <==> SomeNames(results, peer)
    ensures forall orderer :: orderer in Collect(results).value.orderers <==> SomeLists(results, orderer)
  {
    if results != [] {
      var front, last := results[..|results| - 1], results[|results| - 1];
      CollectMembers(front);
      CollectStep(front, last, results);
    }
  }

  lemma CollectStep(front: seq<QueryResult>, last: QueryResult, results: seq<QueryResult>)
    requires results == front + [last] && results[..|results| - 1] == front && Collect(results).Ok?
    requires Collect(front).Ok?
    requires forall peer :: peer in Collect(front).value.peers <==> SomeNames(front, peer)
    requires forall orderer :: orderer in Collect(front).value.orderers <==> SomeLists(front, orderer)
    ensures forall peer :: peer in Collect(results).value.peers <==> SomeNames(results, peer)
    ensures forall orderer :: orderer in Collect(results).value.orderers <==> SomeLists(results, orderer)
  {
    hide Names, Lists, SomeNames, SomeLists, PeersFromMembership, OrderersFromConfig, Readable;
    match last {
      case Members(orgs) => MembershipExactly(orgs);
      case ConfigResult(orgs) => ConfigExactly(orgs);
      case _ =>
    }
    forall peer
      ensures peer in Collect(results).value.peers <==> SomeNames(results, peer)
    {
      SomeNamesSnoc(front, last, peer);
    }
    forall orderer
      ensures orderer in Collect(results).value.orderers <==> SomeLists(results, orderer)
    {
      SomeListsSnoc(front, last, orderer);
    }
  }

  /** The results of a response contribute one after the other. */
  lemma {:induction false} ResultsInOrder(a: seq<QueryResult>, b: seq<QueryResult>)
    requires Collect(a + b).Ok?
    ensures Collect(a).Ok? && Collect(b).Ok?
    ensures Collect(a + b).value == Discovered(Collect(a).value.peers + Collect(b).value.peers, Collect(a).value.orderers + Collect(b).value.orderers)
  {
    hide PeersFromMembership, OrderersFromConfig;
    if b == [] {
      assert a + b == a;
    } else {
      var n := |b| - 1;
      assert (a + b)[..|a + b| - 1] == a + b[..n];
      ResultsInOrder(a, b[..n]);
    }
  }

  /** What one result contributes: the peers of a membership, the orderers of a configuration. */
  lemma OneResult(result: QueryResult)
    requires Collect([result]).Ok?
    ensures Collect([result]).value.peers == if result.Members? then PeersFromMembership(result.orgs).value else []
    ensures Collect([result]).value.orderers == if result.ConfigResult? then OrderersFromConfig(result.msps) else []
  {
    hide PeersFromMembership, OrderersFromConfig;
    assert [result][..0] == [];
    assert Collect([]) == Ok(Discovered([], []));
  }

  /**
   * What a response yields. A discovery holds exactly the peers some membership names and exactly the orderers some
   * configuration lists, the orderers sorted. An error is the one of the first failing result, or says that nothing
   * came back or that no peer was named.
   */
  lemma DiscoveryExactly(results: seq<QueryResult>)
    ensures match DiscoveryResult(results)
            case Ok(d) =>
              && (forall result | result in results :: ResultFault(result) == None)
              && d.peers != [] && (forall peer :: peer in d.peers <==> SomeNames(results, peer))
              && InOrder(d.orderers) && (forall orderer :: orderer in d.orderers <==> SomeLists(results, orderer))
            case Err(e) =>
              || (results == [] && e == EmptyResults)
              || (results != [] && FirstFault(results, e))
              || (results != [] && e == NoMembership && (forall result | result in results :: ResultFault(result) == None)
                  && forall peer :: !SomeNames(results, peer))
  {
    hide SomeNames, SomeLists, FirstFault, ResultFault;
    CollectErrors(results);
    if Collect(results).Ok? {
      var collected := Collect(results).value;
      CollectMembers(results);
      SortedInOrder(collected.orderers);
      PermutationMembers(Sort(OrdererLeq, collected.orderers), collected.orderers);
    }
  }

  /** The same response, its maps iterated in another order. */
  ghost predicate SameResponse(a: seq<QueryResult>, b: seq<QueryResult>) {
    && |a| == |b|
    && forall i | 0 <= i < |a| ::
         match (a[i], b[i])
         case (Members(x), Members(y)) => MapEntries(x) && Permutation(x, y)
         case (ConfigResult(x), ConfigResult(y)) => Permutation(x, y)
         case _ => a[i] == b[i]
  }

  lemma {:induction false} CollectSame(a: seq<QueryResult>, b: seq<QueryResult>)
    requires SameResponse(a, b)
    ensures match (Collect(a), Collect(b))
            case (Ok(x), Ok(y)) => x.peers == y.peers && Permutation(x.orderers, y.orderers)
            case (Err(x), Err(y)) => x == y
            case _ => false
  {
    if a != [] {
      var n := |a| - 1;
      CollectSame(a[..n], b[..n]);
      match (a[n], b[n])
      case (Members(x), Members(y)) => MembershipOrderIrrelevant(x, y);
      case (ConfigResult(x), ConfigResult(y)) => ConfigOrderIrrelevant(x, y);
      case _ =>
    }
  }

  /** Any map iteration order gives the same discovery result: peers, sorted orderers, or error. */
  lemma MapOrderIrrelevant(a: seq<QueryResult>, b: seq<QueryResult>)
    requires SameResponse(a, b)
    ensures DiscoveryResult(a) == DiscoveryResult(b)
  {
    CollectSame(a, b);
    if Collect(a).Ok? {
      OrdererLeqTotal();
      SortIgnoresOrder(OrdererLeq, Collect(a).value.orderers, Collect(b).value.orderers);
    }
  }
}
