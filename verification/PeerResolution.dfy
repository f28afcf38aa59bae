// Lists of endpoints and discovered peers: deduplication by identity, uniqueness of discovery,
// and resolving the peers a caller names.
module PeerResolution {
  import opened Prelude
  import opened EndpointIdentity
  import EndpointGrammar

  datatype Peer = Peer(url: string, mspId: string)

  datatype ResolveError =
    | NoNames
    | BadEndpoint(error: IdentityError)
    | DuplicateIdentity(identity: string)
    | NoDiscoveredPeers
    | PeerNotFound(missing: seq<string>)

  type Normalizer = string -> Result<string, IdentityError>

  function GoNormalizer(tls: bool): Normalizer {
    raw => GoNormalize(raw, tls)
  }

  function TsNormalizer(tls: bool): Normalizer {
    raw => TsNormalize(raw, tls)
  }

  /******* Deduplication *******/

  /** All identities, or the error of the first input that has none. */
  function NormalizeAll(norm: Normalizer, inputs: seq<string>): (r: Result<seq<string>, IdentityError>)
    ensures r.Ok? ==> |r.value| == |inputs| && forall i | 0 <= i < |inputs| :: norm(inputs[i]) == Ok(r.value[i])
    ensures r.Err? ==> exists i | 0 <= i < |inputs| :: norm(inputs[i]) == Err(r.error)
  {
    if inputs == [] then Ok([])
    else
      var front :- NormalizeAll(norm, inputs[..|inputs| - 1]);
      var last :- norm(inputs[|inputs| - 1]);
      Ok(front + [last])
  }

  lemma {:induction false} NormalizeAllStops(norm: Normalizer, inputs: seq<string>, i: nat)
    requires i < |inputs| && NormalizeAll(norm, inputs[..i]).Ok? && norm(inputs[i]).Err?
    ensures NormalizeAll(norm, inputs) == Err(norm(inputs[i]).error)
    decreases |inputs|
  {
    var front := inputs[..|inputs| - 1];
    if i < |front| {
      assert front[..i] == inputs[..i];
      NormalizeAllStops(norm, front, i);
    }
  }

  /** Each element kept at its first occurrence. */
  function FirstOccurrences<T(==,!new)>(s: seq<T>): (r: seq<T>)
    ensures Distinct(r)
    ensures forall x :: x in r <==> x in s
  {
    if s == [] then []
    else
      var front, last := FirstOccurrences(s[..|s| - 1]), s[|s| - 1];
      assert s == s[..|s| - 1] + [last];
      if last in front then front else front + [last]
  }

  lemma {:induction false} FirstOccurrencesOfDistinct<T(!new)>(s: seq<T>)
    requires Distinct(s)
    ensures FirstOccurrences(s) == s
  {
    if s != [] {
      FirstOccurrencesOfDistinct(s[..|s| - 1]);
      assert s == s[..|s| - 1] + [s[|s| - 1]];
    }
  }

  /** The kept elements stand in the order of their first positions. */
  lemma {:induction false} FirstOccurrencesInOrder<T(!new)>(s: seq<T>, i: nat, j: nat)
    requires i < j < |FirstOccurrences(s)|
    ensures exists p, q :: 0 <= p < q < |s| && s[p] == FirstOccurrences(s)[i] && s[q] == FirstOccurrences(s)[j]
                        && FirstOccurrences(s)[j] !in s[..q]
  {
    var n := |s| - 1;
    var front := FirstOccurrences(s[..n]);
    var r := FirstOccurrences(s);
    if j < |front| {
      FirstOccurrencesInOrder(s[..n], i, j);
      var p, q :| 0 <= p < q < n && s[..n][p] == front[i] && s[..n][q] == front[j] && front[j] !in s[..n][..q];
      assert s[..n][..q] == s[..q];
      assert s[p] == r[i] && s[q] == r[j];
    } else {
      assert r == front + [s[n]] && r[j] == s[n] && s[n] !in s[..n];
      assert r[i] in front;
      assert r[i] in s[..n];
      var p :| 0 <= p < n && s[..n][p] == r[i];
      assert s[p] == r[i];
    }
  }

  function DedupeSpec(norm: Normalizer, inputs: seq<string>): Result<seq<string>, IdentityError> {
    var canonicals :- NormalizeAll(norm, inputs);
    Ok(FirstOccurrences(canonicals))
  }

  /** The loop of both languages, over the normalizer of either. */
  method DedupePeerEndpointInputs(norm: Normalizer, inputs: seq<string>) returns (r: Result<seq<string>, IdentityError>)
    ensures r == DedupeSpec(norm, inputs)
  {
    var out: seq<string> := [];
    var seen: map<string, bool> := map[];
    ghost var done: seq<string> := [];
    for i := 0 to |inputs|
      invariant NormalizeAll(norm, inputs[..i]) == Ok(done)
      invariant out == FirstOccurrences(done)
      invariant forall x :: x in seen <==> x in out
    {
      var canonical := norm(inputs[i]);
      if canonical.Err? {
        NormalizeAllStops(norm, inputs, i);
        return Err(canonical.error);
      }
      assert inputs[..i + 1][..i] == inputs[..i];
      assert (done + [canonical.value])[..i] == done;
      done := done + [canonical.value];
      if canonical.value !in seen {
        out := out + [canonical.value];
        seen := seen[canonical.value := true];
      }
    }
    assert inputs[..|inputs|] == inputs;
    return Ok(out);
  }

  /******* Discovered peers *******/

  predicate UsesTLS(peer: Peer) {
    "grpcs://" <= Lower(Trim(peer.url))
  }

  /** A peer uses TLS exactly when its URL names the scheme grpcs, in any case of letters and after any white space. */
  lemma UsesTLSExactly(peer: Peer)
    ensures UsesTLS(peer) <==> EndpointGrammar.NamesScheme(peer.url, "grpcs")
  {
    EndpointGrammar.SecureMarkExactly(peer.url);
  }

  predicate DiscoveredPeersUseTLS(peers: seq<Peer>) {
    exists peer | peer in peers :: UsesTLS(peer)
  }

  function Urls(peers: seq<Peer>): (urls: seq<string>)
    ensures |urls| == |peers| && forall i | 0 <= i < |peers| :: urls[i] == peers[i].url
  {
    if peers == [] then [] else [peers[0].url] + Urls(peers[1..])
  }

  /** The identities of discovered peers under the TLS flag their own list implies. */
  function Identities(peers: seq<Peer>): Result<seq<string>, IdentityError> {
    NormalizeAll(GoNormalizer(DiscoveredPeersUseTLS(peers)), Urls(peers))
  }

  ghost predicate UniquelyIdentified(peers: seq<Peer>) {
    Identities(peers).Ok? && Distinct(Identities(peers).value)
  }

  /** Scans from `i` on, with the identities before it in `seen`. */
  function FaultFrom(peers: seq<Peer>, norm: Normalizer, i: nat, seen: set<string>): Option<ResolveError>
    requires i <= |peers|
    decreases |peers| - i
  {
    if i == |peers| then None
    else
      match norm(peers[i].url)
      case Err(e) => Some(BadEndpoint(e))
      case Ok(c) => if c in seen then Some(DuplicateIdentity(c)) else FaultFrom(peers, norm, i + 1, seen + {c})
  }

  /** The first peer without an identity, or the first identity met twice. */
  function UniquenessFault(peers: seq<Peer>, tls: bool): Option<ResolveError> {
    FaultFrom(peers, GoNormalizer(tls), 0, {})
  }

  ghost predicate AreIdentities(peers: seq<Peer>, norm: Normalizer, n: nat, ids: seq<string>)
    requires n <= |peers|
  {
    |ids| == n && Distinct(ids) && forall j | 0 <= j < n :: norm(peers[j].url) == Ok(ids[j])
  }

  lemma SharedIdentity(peers: seq<Peer>, norm: Normalizer, j: nat, i: nat)
    requires j < i < |peers| && norm(peers[j].url).Ok? && norm(peers[j].url) == norm(peers[i].url)
    ensures !exists all :: AreIdentities(peers, norm, |peers|, all)
  {
    forall all: seq<string> | |all| == |peers|
      ensures !AreIdentities(peers, norm, |peers|, all)
    {
      if norm(peers[j].url) == Ok(all[j]) && norm(peers[i].url) == Ok(all[i]) {
        assert all[j] == all[i];
      }
    }
  }

  lemma {:induction false} FaultFromExactly(peers: seq<Peer>, norm: Normalizer, i: nat, ids: seq<string>)
    requires i <= |peers| && AreIdentities(peers, norm, i, ids)
    ensures FaultFrom(peers, norm, i, set c | c in ids).None? <==> exists all :: AreIdentities(peers, norm, |peers|, all)
    decreases |peers| - i
  {
    if i < |peers| {
      match norm(peers[i].url)
      case Err(_) =>
      case Ok(c) =>
        if c in ids {
          var j :| 0 <= j < i && ids[j] == c;
          SharedIdentity(peers, norm, j, i);
        } else {
          FaultFromExactly(peers, norm, i + 1, ids + [c]);
          assert (set x | x in ids + [c]) == (set x | x in ids) + {c};
        }
    } else {
      assert AreIdentities(peers, norm, |peers|, ids);
    }
  }

  lemma NormalizedUrls(peers: seq<Peer>, norm: Normalizer)
    ensures var ids := NormalizeAll(norm, Urls(peers));
            (ids.Ok? && Distinct(ids.value)) <==> exists all :: AreIdentities(peers, norm, |peers|, all)
  {
    var ids := NormalizeAll(norm, Urls(peers));
    if ids.Ok? && Distinct(ids.value) {
      assert AreIdentities(peers, norm, |peers|, ids.value);
    }
    if all :| AreIdentities(peers, norm, |peers|, all) {
      assert ids.Ok?;
      assert ids.value == all;
    }
  }

  /** Discovery passes the uniqueness check exactly when every peer has an identity and no two share one. */
  lemma EnsureUniqueExactly(peers: seq<Peer>)
    ensures UniquenessFault(peers, DiscoveredPeersUseTLS(peers)).None? <==> UniquelyIdentified(peers)
  {
    var norm := GoNormalizer(DiscoveredPeersUseTLS(peers));
    FaultFromExactly(peers, norm, 0, []);
    assert (set c: string | c in []) == {};
    NormalizedUrls(peers, norm);
  }

  /** Peer i is the first at fault: it has no identity, or the one of an earlier peer, while all before it are fine. */
  ghost predicate FirstAtFault(peers: seq<Peer>, norm: Normalizer, i: nat, fault: ResolveError) {
    && i < |peers|
    && (forall j | 0 <= j < i :: norm(peers[j].url).Ok?)
    && (forall j, k | 0 <= j < k < i :: norm(peers[j].url) != norm(peers[k].url))
    && match norm(peers[i].url)
       case Err(e) => fault == BadEndpoint(e)
       case Ok(id) => fault == DuplicateIdentity(id) && exists j | 0 <= j < i :: norm(peers[j].url) == Ok(id)
  }

  lemma {:induction false} FaultFromIsFirst(
    peers: seq<Peer>, norm: Normalizer, i: nat, ids: seq<string>, seen: set<string>, fault: ResolveError)
    requires i <= |peers| && AreIdentities(peers, norm, i, ids) && (forall c :: c in seen <==> c in ids)
    requires FaultFrom(peers, norm, i, seen) == Some(fault)
    ensures exists k :: FirstAtFault(peers, norm, k, fault)
    decreases |peers| - i
  {
    if i < |peers| {
      match norm(peers[i].url)
      case Err(e) => assert FirstAtFault(peers, norm, i, fault);
      case Ok(c) =>
        if c in ids {
          var j :| 0 <= j < i && ids[j] == c;
          assert FirstAtFault(peers, norm, i, fault);
        } else {
          FaultFromIsFirst(peers, norm, i + 1, ids + [c], seen + {c}, fault);
        }
    }
  }

  /** The fault reported is that of the first peer at fault. */
  lemma UniquenessFaultExactly(peers: seq<Peer>, tls: bool)
    requires UniquenessFault(peers, tls).Some?
    ensures exists i :: FirstAtFault(peers, GoNormalizer(tls), i, UniquenessFault(peers, tls).value)
  {
    FaultFromIsFirst(peers, GoNormalizer(tls), 0, [], {}, UniquenessFault(peers, tls).value);
  }

  method EnsureUniqueDiscoveredPeerEndpoints(peers: seq<Peer>, tls: bool) returns (fault: Option<ResolveError>)
    ensures fault == UniquenessFault(peers, tls)
  {
    var seen: map<string, bool> := map[];
    assert seen.Keys == {};
    for i := 0 to |peers|
      invariant UniquenessFault(peers, tls) == FaultFrom(peers, GoNormalizer(tls), i, seen.Keys)
    {
      var canonical := GoNormalize(peers[i].url, tls);
      if canonical.Err? {
        return Some(BadEndpoint(canonical.error));
      }
      if canonical.value in seen {
        return Some(DuplicateIdentity(canonical.value));
      }
      assert seen[canonical.value := true].Keys == seen.Keys + {canonical.value};
      seen := seen[canonical.value := true];
    }
    return None;
  }

  /** The first discovered peer with the given identity; peers without one are passed over. */
  function Match(peers: seq<Peer>, tls: bool, identity: string): (r: Option<Peer>)
    ensures r.Some? ==> r.value in peers && GoNormalize(r.value.url, tls) == Ok(identity)
    ensures r.Some? ==> exists i | 0 <= i < |peers| ::
              peers[i] == r.value && forall j | 0 <= j < i :: GoNormalize(peers[j].url, tls) != Ok(identity)
    ensures r.None? ==> forall p | p in peers :: GoNormalize(p.url, tls) != Ok(identity)
  {
    if peers == [] then None
    else if GoNormalize(peers[0].url, tls) == Ok(identity) then Some(peers[0])
    else Match(peers[1..], tls, identity)
  }

  method MatchDiscoveredPeer(peers: seq<Peer>, identity: string) returns (r: Option<Peer>)
    ensures r == Match(peers, DiscoveredPeersUseTLS(peers), identity)
  {
    var tls := DiscoveredPeersUseTLS(peers);
    for i := 0 to |peers|
      invariant Match(peers, tls, identity) == Match(peers[i..], tls, identity)
    {
      var canonical := GoNormalize(peers[i].url, tls);
      if canonical == Ok(identity) {
        return Some(peers[i]);
      }
      assert peers[i..][1..] == peers[i + 1..];
    }
    return None;
  }

  /******* Resolving *******/

  function ResolveDiscovered(discovered: seq<Peer>): Result<seq<Peer>, ResolveError> {
    match UniquenessFault(discovered, DiscoveredPeersUseTLS(discovered))
    case Some(fault) => Err(fault)
    case None => if discovered == [] then Err(NoDiscoveredPeers) else Ok(discovered)
  }

  function Found(peers: seq<Peer>, tls: bool, ids: seq<string>): seq<Peer> {
    if ids == [] then []
    else
      Found(peers, tls, ids[..|ids| - 1]) +
      match Match(peers, tls, ids[|ids| - 1]) case Some(p) => [p] case None => []
  }

  function Missing(peers: seq<Peer>, tls: bool, ids: seq<string>): seq<string> {
    if ids == [] then []
    else
      Missing(peers, tls, ids[..|ids| - 1]) +
      match Match(peers, tls, ids[|ids| - 1]) case Some(_) => [] case None => [ids[|ids| - 1]]
  }

  function ResolveEndorsing(discovered: seq<Peer>, names: seq<string>): Result<seq<Peer>, ResolveError> {
    var tls := DiscoveredPeersUseTLS(discovered);
    if names == [] then Err(NoNames)
    else
      match UniquenessFault(discovered, tls)
      case Some(fault) => Err(fault)
      case None =>
        match DedupeSpec(GoNormalizer(tls), names)
        case Err(e) => Err(BadEndpoint(e))
        case Ok(ids) =>
          var missing := Missing(discovered, tls, ids);
          if missing != [] then Err(PeerNotFound(missing)) else Ok(Found(discovered, tls, ids))
  }

  method ResolveEndorsingPeerTargets(discovered: seq<Peer>, names: seq<string>) returns (r: Result<seq<Peer>, ResolveError>)
    ensures r == ResolveEndorsing(discovered, names)
  {
    hide GoNormalize, FaultFrom;
    if |names| == 0 {
      return Err(NoNames);
    }
    var tls := DiscoveredPeersUseTLS(discovered);
    var fault := EnsureUniqueDiscoveredPeerEndpoints(discovered, tls);
    if fault.Some? {
      return Err(fault.value);
    }
    var deduped := DedupePeerEndpointInputs(GoNormalizer(tls), names);
    if deduped.Err? {
      return Err(BadEndpoint(deduped.error));
    }
    var ids := deduped.value;
    var resolved: seq<Peer>, missing: seq<string> := [], [];
    for i := 0 to |ids|
      invariant resolved == Found(discovered, tls, ids[..i])
      invariant missing == Missing(discovered, tls, ids[..i])
    {
      var peer := MatchDiscoveredPeer(discovered, ids[i]);
      assert ids[..i + 1][..i] == ids[..i];
      if peer.None? {
        missing := missing + [ids[i]];
      } else {
        resolved := resolved + [peer.value];
      }
    }
    assert ids[..|ids|] == ids;
    if |missing| > 0 {
      return Err(PeerNotFound(missing));
    }
    if |resolved| == 0 {
      SomethingResolved(discovered, tls, names, ids);
      assert false;
    }
    return Ok(resolved);
  }

  /** The elements of `ids` outside `known`, in order. */
  function Absent(ids: seq<string>, known: seq<string>): seq<string> {
    if ids == [] then []
    else Absent(ids[..|ids| - 1], known) + if ids[|ids| - 1] in known then [] else [ids[|ids| - 1]]
  }

  lemma MatchExactly(peers: seq<Peer>, tls: bool, all: seq<string>, id: string)
    requires NormalizeAll(GoNormalizer(tls), Urls(peers)) == Ok(all)
    ensures Match(peers, tls, id).Some? <==> id in all
  {
    hide GoNormalize;
    assert forall j | 0 <= j < |peers| :: GoNormalize(peers[j].url, tls) == Ok(all[j]);
    if id in all {
      var j :| 0 <= j < |all| && all[j] == id;
      assert peers[j] in peers;
    }
    if Match(peers, tls, id).Some? {
      var j :| 0 <= j < |peers| && peers[j] == Match(peers, tls, id).value;
    }
  }

  lemma {:induction false} MissingExactly(peers: seq<Peer>, tls: bool, all: seq<string>, ids: seq<string>)
    requires NormalizeAll(GoNormalizer(tls), Urls(peers)) == Ok(all)
    ensures Missing(peers, tls, ids) == Absent(ids, all)
  {
    if ids != [] {
      MissingExactly(peers, tls, all, ids[..|ids| - 1]);
      MatchExactly(peers, tls, all, ids[|ids| - 1]);
    }
  }

  predicate Identifies(tls: bool, peers: seq<Peer>, ids: seq<string>) {
    |peers| == |ids| && forall i | 0 <= i < |ids| :: GoNormalize(peers[i].url, tls) == Ok(ids[i])
  }

  lemma {:induction false} FoundExactly(peers: seq<Peer>, tls: bool, ids: seq<string>)
    requires Missing(peers, tls, ids) == []
    ensures Identifies(tls, Found(peers, tls, ids), ids)
    ensures forall p | p in Found(peers, tls, ids) :: p in peers
  {
    hide GoNormalize;
    if ids != [] {
      FoundExactly(peers, tls, ids[..|ids| - 1]);
    }
  }

  lemma SomethingResolved(discovered: seq<Peer>, tls: bool, names: seq<string>, ids: seq<string>)
    requires names != [] && DedupeSpec(GoNormalizer(tls), names) == Ok(ids)
    requires Missing(discovered, tls, ids) == []
    ensures Found(discovered, tls, ids) != []
  {
    var canonicals := NormalizeAll(GoNormalizer(tls), names).value;
    assert canonicals[0] in ids;
  }

  lemma {:induction false} AbsentExactly(ids: seq<string>, known: seq<string>)
    ensures forall x :: x in Absent(ids, known) <==> x in ids && x !in known
  {
    if ids != [] {
      AbsentExactly(ids[..|ids| - 1], known);
      assert ids == ids[..|ids| - 1] + [ids[|ids| - 1]];
    }
  }

  /**
   * With valid names and uniquely identified discovery: resolution succeeds exactly when every requested identity
   * is discovered; its targets are discovered peers whose identities are the first-occurrence dedupe of the names,
   * in order; otherwise the error names exactly the absent identities, in order.
   */
  lemma ResolveExactly(discovered: seq<Peer>, names: seq<string>)
    requires names != [] && UniquelyIdentified(discovered)
    requires NormalizeAll(GoNormalizer(DiscoveredPeersUseTLS(discovered)), names).Ok?
    ensures var tls, all := DiscoveredPeersUseTLS(discovered), Identities(discovered).value;
            var requested := FirstOccurrences(NormalizeAll(GoNormalizer(tls), names).value);
            match ResolveEndorsing(discovered, names)
            case Ok(targets) =>
              && (forall id | id in requested :: id in all)
              && (forall t | t in targets :: t in discovered)
              && NormalizeAll(GoNormalizer(tls), Urls(targets)) == Ok(requested)
            case Err(e) =>
              && !(forall id | id in requested :: id in all)
              && e == PeerNotFound(Absent(requested, all))
  {
    var tls, all := DiscoveredPeersUseTLS(discovered), Identities(discovered).value;
    var requested := FirstOccurrences(NormalizeAll(GoNormalizer(tls), names).value);
    EnsureUniqueExactly(discovered);
    MissingExactly(discovered, tls, all, requested);
    AbsentExactly(requested, all);
    var missing := Absent(requested, all);
    if missing == [] {
      var targets := Found(discovered, tls, requested);
      FoundExactly(discovered, tls, requested);
      IdentitiesAre(tls, targets, requested);
    } else {
      assert missing[0] in missing;
    }
  }

  lemma IdentitiesAre(tls: bool, peers: seq<Peer>, ids: seq<string>)
    requires Identifies(tls, peers, ids)
    ensures NormalizeAll(GoNormalizer(tls), Urls(peers)) == Ok(ids)
  {
    var r := NormalizeAll(GoNormalizer(tls), Urls(peers));
    if r.Ok? {
      assert r.value == ids;
    }
  }

  /** The first input without an identity, and why. */
  lemma {:induction false} FirstWithout(norm: Normalizer, inputs: seq<string>)
    requires NormalizeAll(norm, inputs).Err?
    ensures exists i | 0 <= i < |inputs| ::
              norm(inputs[i]) == Err(NormalizeAll(norm, inputs).error) && forall j | 0 <= j < i :: norm(inputs[j]).Ok?
  {
    var n := |inputs| - 1;
    var front := inputs[..n];
    if NormalizeAll(norm, front).Err? {
      FirstWithout(norm, front);
      var i :| 0 <= i < |front| && norm(front[i]) == Err(NormalizeAll(norm, inputs).error) && forall j | 0 <= j < i :: norm(front[j]).Ok?;
      assert inputs[i] == front[i] && forall j | 0 <= j < i :: inputs[j] == front[j];
    } else {
      assert forall j | 0 <= j < n :: inputs[j] == front[j];
      assert norm(inputs[n]) == Err(NormalizeAll(norm, inputs).error);
    }
  }

  lemma FaultyDiscovery(peers: seq<Peer>)
    requires !UniquelyIdentified(peers)
    ensures var tls := DiscoveredPeersUseTLS(peers);
            && UniquenessFault(peers, tls).Some?
            && UniquenessFault(peers, tls).value != NoNames
            && exists i :: FirstAtFault(peers, GoNormalizer(tls), i, UniquenessFault(peers, tls).value)
  {
    hide GoNormalize, FaultFrom;
    EnsureUniqueExactly(peers);
    UniquenessFaultExactly(peers, DiscoveredPeersUseTLS(peers));
  }

  /** The other ways to be refused, each before the next: no names, faulty discovery, a name without an identity. */
  lemma RefusedExactly(discovered: seq<Peer>, names: seq<string>)
    ensures var tls := DiscoveredPeersUseTLS(discovered);
            var r, all := ResolveEndorsing(discovered, names), NormalizeAll(GoNormalizer(tls), names);
            && (r == Err(NoNames) <==> names == [])
            && (names != [] && !UniquelyIdentified(discovered) ==>
                  r.Err? && exists i :: FirstAtFault(discovered, GoNormalizer(tls), i, r.error))
            && (names != [] && UniquelyIdentified(discovered) && all.Err? ==> r == Err(BadEndpoint(all.error)))
  {
    hide GoNormalize, FirstAtFault, Found, Missing, UniquelyIdentified, UniquenessFault;
    EnsureUniqueExactly(discovered);
    if !UniquelyIdentified(discovered) {
      FaultyDiscovery(discovered);
    }
  }

  /** Single-peer selection takes every discovered peer, unless discovery is faulty or there is none. */
  lemma DiscoveredExactly(discovered: seq<Peer>)
    ensures var r, tls := ResolveDiscovered(discovered), DiscoveredPeersUseTLS(discovered);
            && (!UniquelyIdentified(discovered) ==> r.Err? && exists i :: FirstAtFault(discovered, GoNormalizer(tls), i, r.error))
            && (UniquelyIdentified(discovered) ==> r == if discovered == [] then Err(NoDiscoveredPeers) else Ok(discovered))
  {
    hide GoNormalize, FirstAtFault, UniquelyIdentified, UniquenessFault;
    EnsureUniqueExactly(discovered);
    if !UniquelyIdentified(discovered) {
      FaultyDiscovery(discovered);
    }
  }
}
