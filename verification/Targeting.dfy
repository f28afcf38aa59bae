// TypeScript transaction targeting: setters on a bridge transaction, the hand-over to a peer transaction,
// and resolving named peers against a discovery map keyed by identity.
module Targeting {
  import opened Prelude
  import opened EndpointIdentity
  import opened PeerResolution
  import opened SinglePeerOrder

  datatype Targeting = GatewayDefault | SinglePeer | EndorsingPeers(names: seq<string>)
  datatype TargetingError = NoPeers | BadName(error: IdentityError) | NotFound(missing: seq<string>)

  function MakeEndorsing(names: seq<string>, tls: bool): Result<Targeting, TargetingError> {
    match DedupeSpec(TsNormalizer(tls), names)
    case Err(e) => Err(BadName(e))
    case Ok(ids) => if ids == [] then Err(NoPeers) else Ok(EndorsingPeers(ids))
  }

  datatype SetterCall = UseSinglePeer | UseEndorsingPeers(names: seq<string>)

  /** What one setter call asks for, or why it is refused. */
  function Asked(call: SetterCall, tls: bool): Result<Targeting, TargetingError> {
    match call
    case UseSinglePeer => Ok(SinglePeer)
    case UseEndorsingPeers(names) => MakeEndorsing(names, tls)
  }

  /** What each setter asks for: one peer, or the first-occurrence list of the named identities; no names and a bad name are refused. */
  lemma AskedExactly(names: seq<string>, tls: bool)
    ensures Asked(SetterCall.UseSinglePeer, tls) == Ok(SinglePeer)
    ensures var r := Asked(SetterCall.UseEndorsingPeers(names), tls);
            match NormalizeAll(TsNormalizer(tls), names)
            case Err(e) => r == Err(BadName(e))
            case Ok(ids) => r == if names == [] then Err(NoPeers) else Ok(EndorsingPeers(FirstOccurrences(ids)))
  {
    if NormalizeAll(TsNormalizer(tls), names).Ok? {
      KeepsSome(NormalizeAll(TsNormalizer(tls), names).value);
    }
  }

  function AfterCall(t: Targeting, call: SetterCall, tls: bool): Targeting {
    match Asked(call, tls)
    case Ok(asked) => asked
    case Err(_) => t
  }

  /** Both the bridge transaction and the peer transaction are objects of this kind. */
  class TargetedTransaction {
    var targeting: Targeting
    const tls: bool

    constructor (tls: bool)
      ensures targeting == GatewayDefault && this.tls == tls
    {
      targeting, this.tls := GatewayDefault, tls;
    }

    method UseSinglePeer()
      modifies this
      ensures targeting == AfterCall(old(targeting), SetterCall.UseSinglePeer, tls)
    {
      targeting := SinglePeer;
    }

    /** A refused call leaves the targeting as it was. */
    method UseEndorsingPeers(names: seq<string>) returns (error: Option<TargetingError>)
      modifies this
      ensures targeting == AfterCall(old(targeting), SetterCall.UseEndorsingPeers(names), tls)
      ensures error.None? <==> Asked(SetterCall.UseEndorsingPeers(names), tls).Ok?
      ensures error.Some? ==> Asked(SetterCall.UseEndorsingPeers(names), tls) == Err(error.value)
    {
      var deduped := DedupePeerEndpointInputs(TsNormalizer(tls), names);
      if deduped.Err? {
        return Some(BadName(deduped.error));
      }
      if |deduped.value| == 0 {
        return Some(NoPeers);
      }
      targeting := EndorsingPeers(deduped.value);
      return None;
    }

    /** Replays this targeting on a fresh peer transaction. */
    method CreatePeerTargeted() returns (peer: TargetedTransaction, error: Option<TargetingError>)
      ensures fresh(peer) && peer.tls == tls
      ensures match HandOver(targeting, tls)
              case Ok(t) => error.None? && peer.targeting == t
              case Err(e) => error == Some(e)
    {
      error := None;
      peer := new TargetedTransaction(tls);
      match targeting {
        case GatewayDefault =>
        case SinglePeer => peer.UseSinglePeer();
        case EndorsingPeers(names) => error := peer.UseEndorsingPeers(names);
      }
    }
  }

  /** The targeting a peer transaction ends up with; gateway default is passed on as it is. */
  function HandOver(t: Targeting, tls: bool): Result<Targeting, TargetingError> {
    match t
    case GatewayDefault => Ok(GatewayDefault)
    case SinglePeer => Ok(SinglePeer)
    case EndorsingPeers(names) => MakeEndorsing(names, tls)
  }

  /******* Last successful call wins *******/

  function AfterCalls(calls: seq<SetterCall>, tls: bool): Targeting {
    if calls == [] then GatewayDefault
    else AfterCall(AfterCalls(calls[..|calls| - 1], tls), calls[|calls| - 1], tls)
  }

  /** The last call that was not refused. */
  function LastSuccess(calls: seq<SetterCall>, tls: bool): Option<nat> {
    if calls == [] then None
    else if Asked(calls[|calls| - 1], tls).Ok? then Some(|calls| - 1)
    else LastSuccess(calls[..|calls| - 1], tls)
  }

  ghost predicate IsLastSuccess(calls: seq<SetterCall>, tls: bool, k: Option<nat>) {
    match k
    case None => forall i | 0 <= i < |calls| :: Asked(calls[i], tls).Err?
    case Some(k) => k < |calls| && Asked(calls[k], tls).Ok? && forall i | k < i < |calls| :: Asked(calls[i], tls).Err?
  }

  /** After any calls the targeting is what the last successful one asked for, or the default when none succeeded. */
  lemma {:induction false} LastSuccessWins(calls: seq<SetterCall>, tls: bool)
    ensures IsLastSuccess(calls, tls, LastSuccess(calls, tls))
    ensures AfterCalls(calls, tls) ==
              match LastSuccess(calls, tls)
              case None => GatewayDefault
              case Some(k) => Asked(calls[k], tls).value
  {
    hide Asked;
    if calls != [] && Asked(calls[|calls| - 1], tls).Err? {
      LastSuccessWins(calls[..|calls| - 1], tls);
    }
  }

  /******* Resolving against discovery *******/

  type DiscoveryMap = map<string, PeerInfo>

  datatype Visited = Visited(seen: seq<string>, infos: seq<PeerInfo>, missing: seq<string>)

  /** The loop state after the given names: each name is normalized, and normalized again for the lookup. */
  function Visit(discovery: DiscoveryMap, norm: Normalizer, names: seq<string>): Result<Visited, IdentityError> {
    if names == [] then Ok(Visited([], [], []))
    else
      var v :- Visit(discovery, norm, names[..|names| - 1]);
      VisitOne(discovery, norm, v, names[|names| - 1])
  }

  function VisitOne(discovery: DiscoveryMap, norm: Normalizer, v: Visited, name: string): Result<Visited, IdentityError> {
    var id :- norm(name);
    if id in v.seen then Ok(v)
    else
      var key :- norm(id);
      var seen := v.seen + [id];
      if key in discovery then Ok(Visited(seen, v.infos + [discovery[key]], v.missing))
      else Ok(Visited(seen, v.infos, v.missing + [id]))
  }

  function ResolvePeerInfosSpec(discovery: DiscoveryMap, tls: bool, names: seq<string>): Result<seq<PeerInfo>, TargetingError> {
    match Visit(discovery, TsNormalizer(tls), names)
    case Err(e) => Err(BadName(e))
    case Ok(v) => if v.missing != [] then Err(NotFound(v.missing)) else Ok(v.infos)
  }

  lemma {:induction false} VisitStops(discovery: DiscoveryMap, norm: Normalizer, names: seq<string>, i: nat)
    requires i < |names| && Visit(discovery, norm, names[..i + 1]).Err?
    ensures Visit(discovery, norm, names) == Visit(discovery, norm, names[..i + 1])
    decreases |names|
  {
    if i + 1 < |names| {
      var front := names[..|names| - 1];
      assert front[..i + 1] == names[..i + 1];
      VisitStops(discovery, norm, front, i);
    } else {
      assert names[..i + 1] == names;
    }
  }

  method ResolvePeerInfos(discovery: DiscoveryMap, tls: bool, names: seq<string>) returns (r: Result<seq<PeerInfo>, TargetingError>)
    ensures r == ResolvePeerInfosSpec(discovery, tls, names)
  {
    var seen: seq<string>, infos: seq<PeerInfo>, missing: seq<string> := [], [], [];
    for i := 0 to |names|
      invariant Visit(discovery, TsNormalizer(tls), names[..i]) == Ok(Visited(seen, infos, missing))
    {
      assert names[..i + 1][..i] == names[..i];
      var id := TsNormalize(names[i], tls);
      if id.Err? {
        VisitStops(discovery, TsNormalizer(tls), names, i);
        return Err(BadName(id.error));
      }
      if id.value !in seen {
        var key := TsNormalize(id.value, tls);
        if key.Err? {
          VisitStops(discovery, TsNormalizer(tls), names, i);
          return Err(BadName(key.error));
        }
        seen := seen + [id.value];
        if key.value in discovery {
          infos := infos + [discovery[key.value]];
        } else {
          missing := missing + [id.value];
        }
      }
    }
    assert names[..|names|] == names;
    if |missing| > 0 {
      return Err(NotFound(missing));
    }
    return Ok(infos);
  }

  function Lookup(discovery: DiscoveryMap, ids: seq<string>): seq<PeerInfo> {
    if ids == [] then []
    else Lookup(discovery, ids[..|ids| - 1]) + if ids[|ids| - 1] in discovery then [discovery[ids[|ids| - 1]]] else []
  }

  function Unknown(discovery: DiscoveryMap, ids: seq<string>): seq<string> {
    if ids == [] then []
    else Unknown(discovery, ids[..|ids| - 1]) + if ids[|ids| - 1] in discovery then [] else [ids[|ids| - 1]]
  }

  /** The identity does not change when it is normalized again. */
  predicate Stable(id: string, norm: Normalizer) {
    norm(id) == Ok(id)
  }

  /** What resolving a duplicate-free list of stable identities leaves. */
  function Outcome(discovery: DiscoveryMap, ids: seq<string>): Visited {
    Visited(ids, Lookup(discovery, ids), Unknown(discovery, ids))
  }

  lemma VisitOneStable(discovery: DiscoveryMap, norm: Normalizer, seen: seq<string>, name: string, id: string)
    requires norm(name) == Ok(id) && Stable(id, norm)
    ensures VisitOne(discovery, norm, Outcome(discovery, seen), name)
         == Ok(Outcome(discovery, if id in seen then seen else seen + [id]))
  {
    OutcomeSnoc(discovery, seen, id);
  }

  lemma OutcomeSnoc(discovery: DiscoveryMap, seen: seq<string>, id: string)
    ensures Outcome(discovery, seen + [id]) ==
              var before := Outcome(discovery, seen);
              if id in discovery then Visited(seen + [id], before.infos + [discovery[id]], before.missing)
              else Visited(seen + [id], before.infos, before.missing + [id])
  {
    assert (seen + [id])[..|seen|] == seen;
    assert Lookup(discovery, seen) + [] == Lookup(discovery, seen);
    assert Unknown(discovery, seen) + [] == Unknown(discovery, seen);
  }

  lemma {:induction false} VisitStable(discovery: DiscoveryMap, norm: Normalizer, names: seq<string>, ids: seq<string>)
    requires NormalizeAll(norm, names) == Ok(ids)
    requires forall id | id in ids :: Stable(id, norm)
    ensures Visit(discovery, norm, names) == Ok(Outcome(discovery, FirstOccurrences(ids)))
  {
    if names != [] {
      var n := |names| - 1;
      NormalizeAllSplits(norm, names, ids);
      assert forall id | id in ids[..n] :: id in ids;
      VisitStable(discovery, norm, names[..n], ids[..n]);
      VisitOneStable(discovery, norm, FirstOccurrences(ids[..n]), names[n], ids[n]);
    }
  }

  lemma NormalizeAllSplits(norm: Normalizer, names: seq<string>, ids: seq<string>)
    requires names != [] && NormalizeAll(norm, names) == Ok(ids)
    ensures |ids| == |names| && NormalizeAll(norm, names[..|names| - 1]) == Ok(ids[..|names| - 1])
    ensures norm(names[|names| - 1]) == Ok(ids[|names| - 1])
  {
  }

  lemma StableNormalizeAll(norm: Normalizer, ids: seq<string>)
    requires forall id | id in ids :: Stable(id, norm)
    ensures NormalizeAll(norm, ids) == Ok(ids)
  {
    var r := NormalizeAll(norm, ids);
    assert forall i | 0 <= i < |ids| :: ids[i] in ids;
    if r.Ok? {
      assert r.value == ids;
    }
  }

  /** UseEndorsingPeers on the bridge transaction, hand-over, and resolution: the whole pipeline. */
  function Pipeline(discovery: DiscoveryMap, tls: bool, names: seq<string>): Result<seq<PeerInfo>, TargetingError> {
    var bridge :- MakeEndorsing(names, tls);
    var peer :- HandOver(bridge, tls);
    ResolvePeerInfosSpec(discovery, tls, peer.names)
  }

  predicate PlainlyNamed(name: string, tls: bool) {
    TsParts(name, tls).Ok? && PlainPort(TsParts(name, tls).value.port)
  }

  /** The peers a duplicate-free list of identities stands for, or the identities that are unknown. */
  function Resolved(discovery: DiscoveryMap, ids: seq<string>): Result<seq<PeerInfo>, TargetingError> {
    if Unknown(discovery, ids) != [] then Err(NotFound(Unknown(discovery, ids))) else Ok(Lookup(discovery, ids))
  }

  lemma NormalizeAllSnoc(norm: Normalizer, ids: seq<string>, last: string)
    ensures NormalizeAll(norm, ids + [last]) ==
              match NormalizeAll(norm, ids)
              case Err(e) => Err(e)
              case Ok(all) => (match norm(last) case Err(e) => Err(e) case Ok(id) => Ok(all + [id]))
  {
    assert (ids + [last])[..|ids|] == ids;
  }

  lemma FirstOccurrencesSnoc(s: seq<string>, last: string)
    ensures FirstOccurrences(s + [last]) == if last in s then FirstOccurrences(s) else FirstOccurrences(s) + [last]
  {
    assert (s + [last])[..|s|] == s;
  }

  /** Deduplicating before a second normalization, or only after it, comes to the same list. */
  lemma {:induction false} NormalizeCommutes(norm: Normalizer, once: seq<string>, twice: seq<string>)
    requires NormalizeAll(norm, once) == Ok(twice)
    ensures DedupeSpec(norm, FirstOccurrences(once)) == Ok(FirstOccurrences(twice))
  {
    hide FirstOccurrences, DedupeSpec;
    if once == [] {
      NoneCommute(norm);
    } else {
      var n := |once| - 1;
      NormalizeAllSplits(norm, once, twice);
      NormalizeCommutes(norm, once[..n], twice[..n]);
      CommutesStep(norm, once[..n], once[n], twice[..n], twice[n]);
      assert once == once[..n] + [once[n]] && twice == twice[..n] + [twice[n]];
    }
  }

  lemma NoneCommute(norm: Normalizer)
    ensures DedupeSpec(norm, FirstOccurrences([])) == Ok(FirstOccurrences([]))
  {
    assert FirstOccurrences<string>([]) == [];
  }

  lemma CommutesStep(norm: Normalizer, front: seq<string>, last: string, images: seq<string>, image: string)
    requires NormalizeAll(norm, front) == Ok(images) && norm(last) == Ok(image)
    requires DedupeSpec(norm, FirstOccurrences(front)) == Ok(FirstOccurrences(images))
    ensures DedupeSpec(norm, FirstOccurrences(front + [last])) == Ok(FirstOccurrences(images + [image]))
  {
    hide FirstOccurrences;
    FirstOccurrencesSnoc(front, last);
    FirstOccurrencesSnoc(images, image);
    if last in front {
      var k :| 0 <= k < |front| && front[k] == last;
      assert images[k] == image;
    } else {
      var kept := NormalizeAll(norm, FirstOccurrences(front)).value;
      hide NormalizeAll;
      NormalizeAllSnoc(norm, FirstOccurrences(front), last);
      FirstOccurrencesSnoc(kept, image);
      SameMembers(norm, front, images);
    }
  }

  lemma SameMembers(norm: Normalizer, ids: seq<string>, all: seq<string>)
    requires NormalizeAll(norm, ids) == Ok(all) && NormalizeAll(norm, FirstOccurrences(ids)).Ok?
    ensures forall x :: x in NormalizeAll(norm, FirstOccurrences(ids)).value <==> x in all
  {
    var kept, r := FirstOccurrences(ids), NormalizeAll(norm, FirstOccurrences(ids)).value;
    forall x | x in r
      ensures x in all
    {
      var i :| 0 <= i < |r| && r[i] == x;
      assert kept[i] in ids;
      var k :| 0 <= k < |ids| && ids[k] == kept[i];
      assert all[k] == x;
    }
    forall x | x in all
      ensures x in r
    {
      var k :| 0 <= k < |all| && all[k] == x;
      assert ids[k] in kept;
      var i :| 0 <= i < |kept| && kept[i] == ids[k];
      assert r[i] == x;
    }
  }

  /** A list holding an identity that is refused when read again is refused as a whole, deduplicated or not. */
  lemma RefusalCommutes(norm: Normalizer, once: seq<string>)
    requires NormalizeAll(norm, once).Err?
    ensures DedupeSpec(norm, FirstOccurrences(once)).Err?
  {
    var i :| 0 <= i < |once| && norm(once[i]).Err?;
    assert once[i] in FirstOccurrences(once);
    var kept := FirstOccurrences(once);
    var k :| 0 <= k < |kept| && kept[k] == once[i];
    assert norm(kept[k]).Err?;
  }

  /** What a second normalization of identities gives: each is refused or stable from then on. */
  lemma SecondPass(names: seq<string>, once: seq<string>, tls: bool)
    requires NormalizeAll(TsNormalizer(tls), names) == Ok(once)
    ensures match NormalizeAll(TsNormalizer(tls), once)
            case Ok(twice) => forall id | id in twice :: Stable(id, TsNormalizer(tls))
            case Err(e) => e == MalformedEndpoint
    ensures NormalizeAll(TsNormalizer(tls), once).Ok?
       <==> forall n | n in names :: PortInRange(TsParts(n, tls).value.port)
  {
    hide TsParts, PortInRange, StripZeros, Canonical, PlainPort;
    var norm, second := TsNormalizer(tls), NormalizeAll(TsNormalizer(tls), once);
    forall i | 0 <= i < |names|
      ensures names[i] in names && TsParts(names[i], tls).Ok? && once[i] == Canonical(TsParts(names[i], tls).value)
      ensures norm(once[i]).Ok? <==> PortInRange(TsParts(names[i], tls).value.port)
      ensures norm(once[i]).Err? ==> norm(once[i]) == Err(MalformedEndpoint)
      ensures norm(once[i]).Ok? ==> Stable(norm(once[i]).value, norm)
    {
      assert norm(names[i]) == Ok(once[i]) == TsNormalize(names[i], tls);
      TsIdempotentExactly(names[i], tls, tls);
      if norm(once[i]).Ok? {
        TwiceIsStable(names[i], tls, tls, tls);
      }
    }
    if second.Ok? {
      forall id | id in second.value
        ensures Stable(id, norm)
      {
        var k :| 0 <= k < |second.value| && second.value[k] == id;
      }
    } else {
      var k :| 0 <= k < |once| && norm(once[k]) == Err(second.error);
    }
  }

  /** The two deduplications of the pipeline, each with its way to be refused. */
  lemma PipelineStages(discovery: DiscoveryMap, tls: bool, names: seq<string>)
    ensures Pipeline(discovery, tls, names) ==
              match DedupeSpec(TsNormalizer(tls), names)
              case Err(e) => Err(BadName(e))
              case Ok(ids) =>
                if ids == [] then Err(NoPeers)
                else
                  match DedupeSpec(TsNormalizer(tls), ids)
                  case Err(e) => Err(BadName(e))
                  case Ok(again) => if again == [] then Err(NoPeers) else ResolvePeerInfosSpec(discovery, tls, again)
  {
    hide DedupeSpec, ResolvePeerInfosSpec;
  }

  lemma ResolvedStable(discovery: DiscoveryMap, tls: bool, ids: seq<string>)
    requires Distinct(ids) && forall id | id in ids :: Stable(id, TsNormalizer(tls))
    ensures ResolvePeerInfosSpec(discovery, tls, ids) == Resolved(discovery, ids)
  {
    StableNormalizeAll(TsNormalizer(tls), ids);
    FirstOccurrencesOfDistinct(ids);
    VisitStable(discovery, TsNormalizer(tls), ids, ids);
  }

  /** Each element has a place in the deduplicated list, so that list is empty only for the empty list. */
  lemma KeepsSome(s: seq<string>)
    ensures FirstOccurrences(s) == [] <==> s == []
  {
    if s != [] {
      assert s[0] in FirstOccurrences(s);
    }
  }

  /**
   * The whole pipeline on any names: bridge transaction, peer transaction and resolution together normalize twice and
   * deduplicate once. A name without an identity, no names at all, and a port over 65535 are refused; otherwise the
   * result is the first-occurrence list of the twice normalized names, in caller order, or names the unknown ones.
   */
  lemma PipelineExactly(discovery: DiscoveryMap, tls: bool, names: seq<string>)
    ensures Pipeline(discovery, tls, names) ==
              match NormalizeAll(TsNormalizer(tls), names)
              case Err(e) => Err(BadName(e))
              case Ok(once) =>
                if names == [] then Err(NoPeers)
                else
                  match NormalizeAll(TsNormalizer(tls), once)
                  case Err(_) => Err(BadName(MalformedEndpoint))
                  case Ok(twice) => Resolved(discovery, FirstOccurrences(twice))
  {
    hide FirstOccurrences, Pipeline, Resolved, ResolvePeerInfosSpec;
    var norm := TsNormalizer(tls);
    var first := NormalizeAll(norm, names);
    PipelineStages(discovery, tls, names);
    if first.Ok? {
      var once := first.value;
      KeepsSome(once);
      SecondPass(names, once, tls);
      if NormalizeAll(norm, once).Ok? {
        var twice := NormalizeAll(norm, once).value;
        KeepsSome(twice);
        NormalizeCommutes(norm, once, twice);
        ResolvedStable(discovery, tls, FirstOccurrences(twice));
      } else {
        RefusalCommutes(norm, once);
        RefusedAgain(names, once, tls);
      }
    }
  }

  lemma RefusedAgain(names: seq<string>, once: seq<string>, tls: bool)
    requires NormalizeAll(TsNormalizer(tls), names) == Ok(once)
    requires DedupeSpec(TsNormalizer(tls), FirstOccurrences(once)).Err?
    ensures DedupeSpec(TsNormalizer(tls), FirstOccurrences(once)) == Err(MalformedEndpoint)
  {
    hide TsParts;
    var norm, kept := TsNormalizer(tls), FirstOccurrences(once);
    var e := NormalizeAll(norm, kept).error;
    var k :| 0 <= k < |kept| && norm(kept[k]) == Err(e);
    assert kept[k] in once;
    var i :| 0 <= i < |once| && once[i] == kept[k];
    assert norm(names[i]) == Ok(once[i]) == TsNormalize(names[i], tls);
    TsIdempotentExactly(names[i], tls, tls);
  }

  lemma {:induction false} AllUnknown(ids: seq<string>)
    ensures Unknown(map[], ids) == ids
  {
    if ids != [] {
      AllUnknown(ids[..|ids| - 1]);
      assert ids == ids[..|ids| - 1] + [ids[|ids| - 1]];
    }
  }

  /** The identities survive a second normalization exactly when every named port prints as it stands. */
  lemma PlainNamesExactly(names: seq<string>, once: seq<string>, tls: bool)
    requires NormalizeAll(TsNormalizer(tls), names) == Ok(once)
    ensures (forall n | n in names :: PlainlyNamed(n, tls)) <==> forall id | id in once :: Stable(id, TsNormalizer(tls))
  {
    hide TsParts, PortInRange, StripZeros, Canonical, PlainPort;
    var norm := TsNormalizer(tls);
    forall i | 0 <= i < |names|
      ensures names[i] in names && once[i] in once && (PlainlyNamed(names[i], tls) <==> Stable(once[i], norm))
    {
      assert norm(names[i]) == Ok(once[i]) == TsNormalize(names[i], tls);
      TsIdempotentExactly(names[i], tls, tls);
    }
    if forall id | id in once :: Stable(id, norm) {
      forall n | n in names
        ensures PlainlyNamed(n, tls)
      {
        var i :| 0 <= i < |names| && names[i] == n;
      }
    }
    if forall n | n in names :: PlainlyNamed(n, tls) {
      forall id | id in once
        ensures Stable(id, norm)
      {
        var i :| 0 <= i < |once| && once[i] == id;
      }
    }
  }

  /** Whatever was discovered, the pipeline resolves the names as they were first normalized exactly when every port prints as it stands. */
  lemma PipelineKeepsNamesExactly(tls: bool, names: seq<string>)
    requires names != [] && NormalizeAll(TsNormalizer(tls), names).Ok?
    ensures var once := NormalizeAll(TsNormalizer(tls), names).value;
            (forall discovery :: Pipeline(discovery, tls, names) == Resolved(discovery, FirstOccurrences(once)))
            <==> forall n | n in names :: PlainlyNamed(n, tls)
  {
    var norm := TsNormalizer(tls);
    var once := NormalizeAll(norm, names).value;
    PlainNamesExactly(names, once, tls);
    if forall id | id in once :: Stable(id, norm) {
      StableNormalizeAll(norm, once);
      forall discovery
        ensures Pipeline(discovery, tls, names) == Resolved(discovery, FirstOccurrences(once))
      {
        PipelineExactly(discovery, tls, names);
      }
    } else {
      KeptNamesAreStable(tls, names, once);
    }
  }

  /** Seen through an empty discovery, an unstable identity is reported as something else, or refused. */
  lemma KeptNamesAreStable(tls: bool, names: seq<string>, once: seq<string>)
    requires names != [] && NormalizeAll(TsNormalizer(tls), names) == Ok(once)
    requires exists id | id in once :: !Stable(id, TsNormalizer(tls))
    ensures Pipeline(map[], tls, names) != Resolved(map[], FirstOccurrences(once))
  {
    var norm := TsNormalizer(tls);
    PipelineExactly(map[], tls, names);
    SecondPass(names, once, tls);
    AllUnknown(FirstOccurrences(once));
    assert once[0] in FirstOccurrences(once);
    if NormalizeAll(norm, once).Ok? {
      var twice := NormalizeAll(norm, once).value;
      AllUnknown(FirstOccurrences(twice));
      assert twice[0] in FirstOccurrences(twice);
      var id :| id in once && !Stable(id, norm);
      assert id in FirstOccurrences(once) && id !in FirstOccurrences(twice);
    }
  }

  /** Two entries on the bridge transaction that end up as one target. */
  lemma TwoNamesOneTarget(info: PeerInfo)
    ensures var names := ["h" + ":" + "07051", "h" + ":" + "7051"];
            var padded, plain := Canonical(Parts("grpc", "h", "07051")), Canonical(Parts("grpc", "h", "7051"));
            && padded != plain
            && MakeEndorsing(names, false) == Ok(EndorsingPeers([padded, plain]))
            && Pipeline(map[plain := info], false, names) == Ok([info])
  {
    hide FirstOccurrences, NormalizeAll, Pipeline, Canonical, TsParts, StripZeros;
    var first, second := "h" + ":" + "07051", "h" + ":" + "7051";
    var padded, plain := Canonical(Parts("grpc", "h", "07051")), Canonical(Parts("grpc", "h", "7051"));
    PaddedAndPlain();
    PairNormalizes(TsNormalizer(false), first, second, padded, plain);
    PairNormalizes(TsNormalizer(false), padded, plain, plain, plain);
    PipelineExactly(map[plain := info], false, [first, second]);
    AloneInDiscovery(plain, info, plain);
    assert [plain][..0] == [];
    assert Lookup(map[plain := info], [plain]) == [info];
  }

  /** How the two texts normalize, once and again. */
  lemma PaddedAndPlain()
    ensures var padded, plain := Canonical(Parts("grpc", "h", "07051")), Canonical(Parts("grpc", "h", "7051"));
            && padded != plain
            && TsNormalizer(false)("h" + ":" + "07051") == Ok(padded) && TsNormalizer(false)("h" + ":" + "7051") == Ok(plain)
            && TsNormalizer(false)(padded) == Ok(plain) && TsNormalizer(false)(plain) == Ok(plain)
  {
    hide Canonical, TsParts, StripZeros;
    TsLeadingZeroMoves();
    SevenThousand();
    PlainReads("h", "07051", false);
    PlainReads("h", "7051", false);
    TwiceIsStable("h" + ":" + "07051", false, false, false);
  }

  lemma SevenThousand()
    ensures AllDigits("7051")
  {
  }

  /** A peer that is not found under the very text it was discovered under. */
  lemma SelfRequestFails(info: PeerInfo)
    ensures var raw := "h" + ":" + "07051";
            TsNormalize(raw, false).Ok? && Pipeline(map[TsNormalize(raw, false).value := info], false, [raw]).Err?
  {
    hide Pipeline;
    PlainReads("h", "07051", false);
    assert StripZeros("07051") == "7051" by {
      assert "07051"[1..] == "7051";
    }
    SelfRequestExactly("h" + ":" + "07051", false, info);
  }

  lemma PairNormalizes(norm: Normalizer, a: string, b: string, x: string, y: string)
    requires norm(a) == Ok(x) && norm(b) == Ok(y)
    ensures NormalizeAll(norm, [a, b]) == Ok([x, y])
    ensures FirstOccurrences([x, y]) == if x == y then [x] else [x, y]
  {
    assert NormalizeAll(norm, []) == Ok([]);
    NormalizeAllSnoc(norm, [], a);
    assert [] + [a] == [a] && [a] + [b] == [a, b];
    NormalizeAllSnoc(norm, [a], b);
    assert FirstOccurrences<string>([]) == [];
    FirstOccurrencesSnoc([], x);
    assert [] + [x] == [x] && [x] + [y] == [x, y];
    FirstOccurrencesSnoc([x], y);
  }

  /** What Lookup and Unknown mean: one peer per identity in order, and exactly the identities outside the map. */
  lemma {:induction false} LookupExactly(discovery: DiscoveryMap, ids: seq<string>)
    ensures forall id :: id in Unknown(discovery, ids) <==> id in ids && id !in discovery
    ensures Unknown(discovery, ids) == [] ==>
              && |Lookup(discovery, ids)| == |ids|
              && forall i | 0 <= i < |ids| :: ids[i] in discovery && Lookup(discovery, ids)[i] == discovery[ids[i]]
  {
    if ids != [] {
      LookupExactly(discovery, ids[..|ids| - 1]);
      assert ids == ids[..|ids| - 1] + [ids[|ids| - 1]];
    }
  }

  lemma Singletons(tls: bool, raw: string)
    ensures NormalizeAll(TsNormalizer(tls), [raw]) == match TsNormalize(raw, tls) case Ok(id) => Ok([id]) case Err(e) => Err(e)
    ensures FirstOccurrences([raw]) == [raw]
  {
    var names := [raw];
    assert names[..|names| - 1] == [] && names[|names| - 1] == raw;
    assert TsNormalizer(tls)(raw) == TsNormalize(raw, tls);
    assert NormalizeAll(TsNormalizer(tls), []) == Ok([]);
    assert FirstOccurrences<string>([]) == [];
    if TsNormalize(raw, tls).Ok? {
      assert [] + [TsNormalize(raw, tls).value] == [TsNormalize(raw, tls).value];
    }
  }

  lemma AloneInDiscovery(id: string, info: PeerInfo, other: string)
    ensures Unknown(map[id := info], [other]) == if other == id then [] else [other]
  {
    assert [other][..0] == [];
  }

  /** The identity that the hand-over to the peer transaction produces from an identity that is not stable. */
  lemma MovedRequest(discovery: DiscoveryMap, raw: string, tls: bool)
    requires TsParts(raw, tls).Ok? && PortInRange(TsParts(raw, tls).value.port)
    ensures var p := TsParts(raw, tls).value;
            Pipeline(discovery, tls, [raw]).Ok? <==> Unknown(discovery, [Canonical(p.(port := StripZeros(p.port)))]) == []
  {
    var p := TsParts(raw, tls).value;
    var id, moved := Canonical(p), Canonical(p.(port := StripZeros(p.port)));
    TsIdempotentExactly(raw, tls, tls);
    ShiftedIsStable(raw, tls);
    Singletons(tls, raw);
    Singletons(tls, id);
    Singletons(tls, moved);
    VisitStable(discovery, TsNormalizer(tls), [moved], [moved]);
  }

  lemma RefusedRequest(discovery: DiscoveryMap, raw: string, tls: bool)
    requires TsParts(raw, tls).Ok? && !PortInRange(TsParts(raw, tls).value.port)
    ensures Pipeline(discovery, tls, [raw]).Err?
  {
    var id := TsNormalize(raw, tls).value;
    TsIdempotentExactly(raw, tls, tls);
    Singletons(tls, raw);
    Singletons(tls, id);
  }

  /** A peer asked for by the very text it was discovered under is found exactly when its port prints as it stands. */
  lemma SelfRequestExactly(raw: string, tls: bool, info: PeerInfo)
    requires TsParts(raw, tls).Ok?
    ensures Pipeline(map[TsNormalize(raw, tls).value := info], tls, [raw]).Ok? <==> PlainPort(TsParts(raw, tls).value.port)
  {
    var p := TsParts(raw, tls).value;
    var discovery := map[Canonical(p) := info];
    if PortInRange(p.port) {
      var moved := p.(port := StripZeros(p.port));
      MovedRequest(discovery, raw, tls);
      AloneInDiscovery(Canonical(p), info, Canonical(moved));
      PartsWellFormed(raw, tls);
      StripZerosIsSuffix(p.port);
      CanonicalInjective(p, moved);
    } else {
      RefusedRequest(discovery, raw, tls);
    }
  }

  lemma ShiftedIsStable(raw: string, tls: bool)
    requires TsParts(raw, tls).Ok? && PortInRange(TsParts(raw, tls).value.port)
    ensures var p := TsParts(raw, tls).value; Stable(Canonical(p.(port := StripZeros(p.port))), TsNormalizer(tls))
  {
    TsIdempotentExactly(raw, tls, tls);
    TwiceIsStable(raw, tls, tls, tls);
  }
}
