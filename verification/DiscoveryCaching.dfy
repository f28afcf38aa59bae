// The TypeScript discovery cache, and discovery sessions sharing it: any number of discover calls may be
// waiting for their fetch while others begin, finish or clear the cache.
module DiscoveryCaching {
  import opened Prelude

  datatype Discovery = Discovery(channelName: string, endpoints: seq<string>)
  datatype Entry = Entry(result: Discovery, expiresAt: int)

  type Entries = map<string, Entry>
  type Counters = map<string, nat>

  /******* The cache *******/

  predicate Stale(entries: Entries, channel: string, now: int) {
    channel !in entries || now > entries[channel].expiresAt
  }

  function CounterKey(channel: string, endpoints: string): string {
    channel + ":" + endpoints
  }

  /** An absent or empty channel name clears everything. */
  predicate ClearsAll(channel: Option<string>) {
    channel.None? || channel.value == ""
  }

  function ClearedEntries(entries: Entries, channel: Option<string>): Entries {
    if ClearsAll(channel) then map[] else entries - {channel.value}
  }

  function ClearedCounters(counters: Counters, channel: Option<string>): Counters {
    if ClearsAll(channel) then map[]
    else map key | key in counters && !(channel.value + ":" <= key) :: counters[key]
  }

  class DiscoveryCache {
    var entries: Entries
    var counters: Counters
    const ttl: nat

    constructor (ttl: nat)
      ensures entries == map[] && counters == map[] && this.ttl == ttl
    {
      entries, counters, this.ttl := map[], map[], ttl;
    }

    /** Expired entries are returned too. */
    method Get(channel: string) returns (r: Option<Discovery>)
      ensures r == if channel in entries then Some(entries[channel].result) else None
    {
      if channel !in entries {
        return None;
      }
      return Some(entries[channel].result);
    }

    method Set(channel: string, result: Discovery, now: int)
      modifies this`entries
      ensures entries == old(entries)[channel := Entry(result, now + ttl)]
    {
      entries := entries[channel := Entry(result, now + ttl)];
    }

    method IsStale(channel: string, now: int) returns (stale: bool)
      ensures stale == Stale(entries, channel, now)
      ensures !stale <==> channel in entries && now <= entries[channel].expiresAt
    {
      if channel !in entries {
        return true;
      }
      return now > entries[channel].expiresAt;
    }

    method Clear(channel: Option<string>)
      modifies this
      ensures entries == ClearedEntries(old(entries), channel)
      ensures counters == ClearedCounters(old(counters), channel)
    {
      if ClearsAll(channel) {
        entries, counters := map[], map[];
        return;
      }
      var prefix := channel.value + ":";
      entries := entries - {channel.value};
      var keys := counters.Keys;
      while keys != {}
        invariant keys <= old(counters).Keys
        invariant forall key :: key in counters <==> key in old(counters) && (key in keys || !(prefix <= key))
        invariant forall key | key in counters :: counters[key] == old(counters)[key]
        invariant entries == ClearedEntries(old(entries), channel)
        decreases |keys|
      {
        var key :| key in keys;
        if prefix <= key {
          counters := counters - {key};
        }
        keys := keys - {key};
      }
    }

    method NextRoundRobinIndex(key: string, size: nat) returns (index: nat)
      modifies this`counters
      ensures size == 0 ==> index == 0 && counters == old(counters)
      ensures size > 0 ==>
                var current := if key in old(counters) then old(counters)[key] else 0;
                index == current % size && counters == old(counters)[key := (current + 1) % size]
    {
      if size == 0 {
        return 0;
      }
      var current := if key in counters then counters[key] else 0;
      counters := counters[key := (current + 1) % size];
      return current % size;
    }
  }

  /** The cleared name starts with the other channel's name and a colon, and the endpoints carry on with its rest. */
  predicate ReachesInto(channel: string, other: string, endpoints: string) {
    other + ":" <= channel && channel[|other| + 1..] + ":" <= endpoints
  }

  /**
   * Which counters of another channel a clear deletes: those of channels whose name continues the cleared one with a
   * colon, and those whose endpoints complete the cleared name. A name without a colon leaves only the first kind.
   */
  lemma ClearSparesExactly(counters: Counters, channel: string, other: string, endpoints: string)
    requires channel != "" && other != channel
    requires CounterKey(other, endpoints) in counters
    ensures var key, after := CounterKey(other, endpoints), ClearedCounters(counters, Some(channel));
            && (key in after <==> !(channel + ":" <= other) && !ReachesInto(channel, other, endpoints))
            && (key in after ==> after[key] == counters[key])
            && ((forall c | c in channel :: c != ':') ==> !ReachesInto(channel, other, endpoints))
  {
    var prefix, key := channel + ":", CounterKey(other, endpoints);
    assert key[..|other|] == other && key[|other|] == ':' && key[|other| + 1..] == endpoints;
    if prefix <= key {
      PrefixCases(channel, other, endpoints);
    }
    if prefix <= other {
      assert prefix <= key;
    }
    if ReachesInto(channel, other, endpoints) {
      assert channel == (other + ":") + channel[|other| + 1..];
      assert prefix == (other + ":") + (channel[|other| + 1..] + ":");
      assert prefix <= key;
      assert channel[|other|] == ':' && channel[|other|] in channel;
    }
  }

  lemma PrefixCases(channel: string, other: string, endpoints: string)
    requires other != channel && channel + ":" <= other + ":" + endpoints
    ensures channel + ":" <= other || ReachesInto(channel, other, endpoints)
  {
    var prefix, start := channel + ":", other + ":";
    var key := start + endpoints;
    assert forall i | 0 <= i < |prefix| :: prefix[i] == key[i];
    assert forall i | 0 <= i < |start| :: key[i] == start[i];
    if |channel| > |other| {
      assert forall i | 0 <= i < |start| :: channel[i] == prefix[i] == start[i];
      var rest := channel[|other| + 1..] + ":";
      assert forall i | 0 <= i < |rest| :: rest[i] == prefix[|other| + 1 + i] == endpoints[i];
    } else {
      assert forall i | 0 <= i < |channel| :: channel[i] == prefix[i] == start[i] == other[i];
      assert forall i | 0 <= i < |channel| + 1 && |channel| < |other| :: prefix[i] == other[i];
    }
  }

  /** Clearing `a` also deletes the counter of channel `a:b`; clearing the empty name deletes everything. */
  lemma ClearReachesFurther(endpoints: string, index: nat, entry: Entry)
    ensures var counters := map[CounterKey("a:b", endpoints) := index];
            && ClearedCounters(counters, Some("a")) == map[]
            && ClearedCounters(counters, Some("")) == map[]
            && ClearedEntries(map["c" := entry], Some("")) == map[]
  {
    var counters := map[CounterKey("a:b", endpoints) := index];
    assert "a" + ":" <= "a:b";
    ClearSparesExactly(counters, "a", "a:b", endpoints);
  }

  /** Clearing a channel removes its own entry and counters, and leaves every other entry as it is. */
  lemma ClearIsolates(entries: Entries, counters: Counters, channel: string, endpoints: string)
    requires channel != ""
    ensures CounterKey(channel, endpoints) !in ClearedCounters(counters, Some(channel))
    ensures channel !in ClearedEntries(entries, Some(channel))
    ensures forall other | other != channel ::
              && (other in ClearedEntries(entries, Some(channel)) <==> other in entries)
              && (other in entries ==> ClearedEntries(entries, Some(channel))[other] == entries[other])
  {
    assert channel + ":" <= CounterKey(channel, endpoints);
  }

  /******* Sessions *******/

  /** A discover call that found no fresh entry: what it held then, and at which step it began. */
  datatype Flight = Flight(channel: string, held: Option<Discovery>, began: nat)

  datatype Fetch = Fetch(channel: string, result: Discovery, at: int)

  datatype Answer =
    | Fresh(channel: string, result: Discovery, at: int)
    | Fetched(channel: string, result: Discovery)
    | Fallback(channel: string, result: Discovery, began: nat)
    | NoResult(channel: string, began: nat)

  /**
   * The steps of a session. `Begin` runs discover up to its fetch; the background refresh is one more Begin.
   * `Succeed` and `Fail` are the fetch of call `id` coming back.
   */
  datatype Action =
    | Begin(id: nat, channel: string)
    | Succeed(id: nat, result: Discovery)
    | Fail(id: nat)
    | Clear(which: Option<string>)

  datatype Step = Step(now: int, action: Action)

  datatype State = State(entries: Entries, flights: map<nat, Flight>, fetches: seq<Fetch>, answers: seq<Answer>, clock: int)

  predicate Enabled(s: State, step: Step) {
    && s.clock <= step.now
    && match step.action
       case Begin(id, _) => id !in s.flights
       case Succeed(id, _) => id in s.flights
       case Fail(id) => id in s.flights
       case Clear(_) => true
  }

  function Next(s: State, step: Step, ttl: nat, count: nat): State
    requires Enabled(s, step)
  {
    var s := s.(clock := step.now);
    match step.action
    case Begin(id, channel) =>
      if channel in s.entries && !Stale(s.entries, channel, step.now) then
        s.(answers := s.answers + [Fresh(channel, s.entries[channel].result, step.now)])
      else
        var held := if channel in s.entries then Some(s.entries[channel].result) else None;
        s.(flights := s.flights[id := Flight(channel, held, count)])
    case Succeed(id, result) =>
      var channel := s.flights[id].channel;
      s.(entries := s.entries[channel := Entry(result, step.now + ttl)], flights := s.flights - {id},
         fetches := s.fetches + [Fetch(channel, result, step.now)], answers := s.answers + [Fetched(channel, result)])
    case Fail(id) =>
      var flight := s.flights[id];
      var answer := match flight.held
                    case Some(held) => Fallback(flight.channel, held, flight.began)
                    case None => NoResult(flight.channel, flight.began);
      s.(flights := s.flights - {id}, answers := s.answers + [answer])
    case Clear(which) => s.(entries := ClearedEntries(s.entries, which))
  }

  function ResultOf(answer: Answer): Option<Discovery> {
    if answer.NoResult? then None else Some(answer.result)
  }

  /** A discover call is cut at its one wait: what it does before its fetch, and what it does when the fetch is back. */
  class PeerDiscoverySession {
    const cache: DiscoveryCache

    constructor (cache: DiscoveryCache)
      ensures this.cache == cache
    {
      this.cache := cache;
    }

    /** The answer when a fresh entry is held, or else what is held while the fetch is out. */
    method BeginDiscover(ghost s: State, ghost id: nat, ghost count: nat, channel: string, now: int)
      returns (answer: Option<Discovery>, held: Option<Discovery>)
      requires s.entries == cache.entries && Enabled(s, Step(now, Begin(id, channel)))
      ensures held == if channel in cache.entries then Some(cache.entries[channel].result) else None
      ensures answer == if channel in cache.entries && now <= cache.entries[channel].expiresAt then held else None
      ensures var after := Next(s, Step(now, Begin(id, channel)), cache.ttl, count);
              && after.entries == cache.entries
              && match answer
                 case Some(result) => after == s.(clock := now, answers := s.answers + [Fresh(channel, result, now)])
                 case None => after == s.(clock := now, flights := s.flights[id := Flight(channel, held, count)])
    {
      held := cache.Get(channel);
      var stale := cache.IsStale(channel, now);
      answer := if held.Some? && !stale then held else None;
    }

    /** A fetched result is cached and returned; after a failure what was held is returned, if anything was. */
    method FinishDiscover(ghost s: State, ghost id: nat, ghost count: nat, channel: string, held: Option<Discovery>, fetched: Option<Discovery>, now: int)
      returns (answer: Option<Discovery>)
      requires s.entries == cache.entries && s.clock <= now
      requires id in s.flights && s.flights[id].channel == channel && s.flights[id].held == held
      modifies cache`entries
      ensures var action := if fetched.Some? then Succeed(id, fetched.value) else Fail(id);
              var after := Next(s, Step(now, action), cache.ttl, count);
              && after.entries == cache.entries
              && |after.answers| == |s.answers| + 1 && ResultOf(after.answers[|s.answers|]) == answer
    {
      match fetched {
        case Some(result) =>
          cache.Set(channel, result, now);
          return fetched;
        case None =>
          return held;
      }
    }
  }

  /** The state after a run that starts with an empty cache under a non-decreasing clock. */
  function Run(steps: seq<Step>, ttl: nat, start: int): Option<State> {
    if steps == [] then Some(State(map[], map[], [], [], start))
    else
      var front, last := steps[..|steps| - 1], steps[|steps| - 1];
      var s :- Run(front, ttl, start);
      if Enabled(s, last) then Some(Next(s, last, ttl, |front|)) else None
  }

  /** The cached result of a channel at some point of a run. */
  function CachedAt(steps: seq<Step>, ttl: nat, start: int, k: nat, channel: string): Option<Discovery>
    requires k <= |steps|
  {
    var s :- Run(steps[..k], ttl, start);
    if channel in s.entries then Some(s.entries[channel].result) else None
  }

  /** `f` is a successful fetch of this result for this channel. */
  ghost predicate FetchedBefore(fetches: seq<Fetch>, channel: string, result: Discovery) {
    exists f | f in fetches :: f.channel == channel && f.result == result
  }

  ghost predicate EntriesComeFromFetches(s: State, ttl: nat) {
    forall channel | channel in s.entries ::
      exists f | f in s.fetches ::
        f.channel == channel && f.result == s.entries[channel].result && f.at + ttl == s.entries[channel].expiresAt && f.at <= s.clock
  }

  /** What a single answer may be, given the fetches so far and the run that led to it. */
  ghost predicate Justified(answer: Answer, fetches: seq<Fetch>, steps: seq<Step>, ttl: nat, start: int) {
    match answer
    case Fresh(channel, result, at) =>
      exists f | f in fetches :: f.channel == channel && f.result == result && f.at <= at <= f.at + ttl
    case Fetched(channel, result) => FetchedBefore(fetches, channel, result)
    case Fallback(channel, result, began) =>
      FetchedBefore(fetches, channel, result) && began <= |steps| && CachedAt(steps, ttl, start, began, channel) == Some(result)
    case NoResult(channel, began) => began <= |steps| && CachedAt(steps, ttl, start, began, channel) == None
  }

  /** A call in flight holds what was cached when it began, and that was fetched. */
  ghost predicate Recorded(flight: Flight, fetches: seq<Fetch>, steps: seq<Step>, ttl: nat, start: int) {
    && flight.began <= |steps| && CachedAt(steps, ttl, start, flight.began, flight.channel) == flight.held
    && (flight.held.Some? ==> FetchedBefore(fetches, flight.channel, flight.held.value))
  }

  ghost predicate FlightsRecordTheCache(s: State, steps: seq<Step>, ttl: nat, start: int) {
    forall id | id in s.flights :: Recorded(s.flights[id], s.fetches, steps, ttl, start)
  }

  lemma {:induction false} CacheComesFromFetches(steps: seq<Step>, ttl: nat, start: int)
    requires Run(steps, ttl, start).Some?
    ensures EntriesComeFromFetches(Run(steps, ttl, start).value, ttl)
  {
    if steps != [] {
      var front, last := steps[..|steps| - 1], steps[|steps| - 1];
      CacheComesFromFetches(front, ttl, start);
      var before, after := Run(front, ttl, start).value, Run(steps, ttl, start).value;
      forall channel | channel in after.entries
        ensures exists f | f in after.fetches ::
                  f.channel == channel && f.result == after.entries[channel].result && f.at + ttl == after.entries[channel].expiresAt && f.at <= after.clock
      {
        if last.action.Succeed? && before.flights[last.action.id].channel == channel {
          assert Fetch(channel, last.action.result, last.now) in after.fetches;
        } else {
          var f :| f in before.fetches && f.channel == channel && f.result == before.entries[channel].result
                   && f.at + ttl == before.entries[channel].expiresAt && f.at <= before.clock;
          assert f in after.fetches;
        }
      }
    }
  }

  lemma CachedAtExtends(steps: seq<Step>, last: Step, ttl: nat, start: int, k: nat, channel: string)
    requires k <= |steps|
    ensures CachedAt(steps + [last], ttl, start, k, channel) == CachedAt(steps, ttl, start, k, channel)
  {
    assert (steps + [last])[..k] == steps[..k];
  }

  lemma JustifiedExtends(answer: Answer, fetches: seq<Fetch>, more: seq<Fetch>, steps: seq<Step>, last: Step, ttl: nat, start: int)
    requires Justified(answer, fetches, steps, ttl, start)
    ensures Justified(answer, fetches + more, steps + [last], ttl, start)
  {
    if answer.Fallback? || answer.NoResult? {
      CachedAtExtends(steps, last, ttl, start, answer.began, answer.channel);
    }
    if answer.Fresh? {
      var f :| f in fetches && f.channel == answer.channel && f.result == answer.result && f.at <= answer.at <= f.at + ttl;
      assert f in fetches + more;
    }
    if answer.Fetched? || answer.Fallback? {
      FetchedExtends(fetches, more, answer.channel, answer.result);
    }
  }

  lemma FetchedExtends(fetches: seq<Fetch>, more: seq<Fetch>, channel: string, result: Discovery)
    requires FetchedBefore(fetches, channel, result)
    ensures FetchedBefore(fetches + more, channel, result)
  {
    var f :| f in fetches && f.channel == channel && f.result == result;
    assert f in fetches + more;
  }

  lemma {:induction false} FlightsAreRecorded(steps: seq<Step>, ttl: nat, start: int)
    requires Run(steps, ttl, start).Some?
    ensures FlightsRecordTheCache(Run(steps, ttl, start).value, steps, ttl, start)
  {
    if steps != [] {
      var front, last := steps[..|steps| - 1], steps[|steps| - 1];
      FlightsAreRecorded(front, ttl, start);
      CacheComesFromFetches(front, ttl, start);
      var before, after := Run(front, ttl, start).value, Run(steps, ttl, start).value;
      assert steps == front + [last] && front[..|front|] == front;
      forall id | id in after.flights
        ensures Recorded(after.flights[id], after.fetches, steps, ttl, start)
      {
        if id !in before.flights {
          NewFlight(front, last, ttl, start, id);
        } else {
          assert before.fetches + after.fetches[|before.fetches|..] == after.fetches;
          RecordedExtends(before.flights[id], before.fetches, after.fetches[|before.fetches|..], front, last, ttl, start);
        }
      }
    }
  }

  /** A call that just began holds what is cached right now. */
  lemma NewFlight(front: seq<Step>, last: Step, ttl: nat, start: int, id: nat)
    requires Run(front, ttl, start).Some? && Enabled(Run(front, ttl, start).value, last)
    requires EntriesComeFromFetches(Run(front, ttl, start).value, ttl)
    requires var before := Run(front, ttl, start).value;
             id !in before.flights && id in Next(before, last, ttl, |front|).flights
    ensures var before := Run(front, ttl, start).value;
            var after := Next(before, last, ttl, |front|);
            Recorded(after.flights[id], after.fetches, front + [last], ttl, start)
  {
    var before := Run(front, ttl, start).value;
    CachedAtExtends(front, last, ttl, start, |front|, last.action.channel);
    assert front[..|front|] == front;
  }

  lemma RecordedExtends(flight: Flight, fetches: seq<Fetch>, more: seq<Fetch>, steps: seq<Step>, last: Step, ttl: nat, start: int)
    requires Recorded(flight, fetches, steps, ttl, start)
    ensures Recorded(flight, fetches + more, steps + [last], ttl, start)
  {
    hide CachedAt;
    CachedAtExtends(steps, last, ttl, start, flight.began, flight.channel);
    if flight.held.Some? {
      FetchedExtends(fetches, more, flight.channel, flight.held.value);
    }
  }

  /**
   * Over any interleaving under a non-decreasing clock: an answer without a fetch is at most one TTL old, every
   * returned result was fetched for its channel, a failed fetch answers with the entry held when the call began,
   * and there is no result only when there was no entry then.
   */
  lemma {:induction false} AnswersAreJustified(steps: seq<Step>, ttl: nat, start: int)
    requires Run(steps, ttl, start).Some?
    ensures var s := Run(steps, ttl, start).value;
            forall a | a in s.answers :: Justified(a, s.fetches, steps, ttl, start)
  {
    if steps != [] {
      var front, last := steps[..|steps| - 1], steps[|steps| - 1];
      AnswersAreJustified(front, ttl, start);
      CacheComesFromFetches(front, ttl, start);
      FlightsAreRecorded(front, ttl, start);
      var before, after := Run(front, ttl, start).value, Run(steps, ttl, start).value;
      assert steps == front + [last];
      var more := after.fetches[|before.fetches|..];
      assert before.fetches + more == after.fetches;
      forall a | a in after.answers
        ensures Justified(a, after.fetches, steps, ttl, start)
      {
        if a in before.answers {
          JustifiedExtends(a, before.fetches, more, front, last, ttl, start);
        } else {
          NewAnswer(before, last, ttl, front, start, a);
        }
      }
    }
  }

  lemma NewAnswer(before: State, last: Step, ttl: nat, front: seq<Step>, start: int, a: Answer)
    requires Enabled(before, last)
    requires EntriesComeFromFetches(before, ttl) && FlightsRecordTheCache(before, front, ttl, start)
    requires a in Next(before, last, ttl, |front|).answers && a !in before.answers
    ensures Justified(a, Next(before, last, ttl, |front|).fetches, front + [last], ttl, start)
  {
    match last.action
    case Begin(_, channel) =>
      var f :| f in before.fetches && f.channel == channel && f.result == before.entries[channel].result
               && f.at + ttl == before.entries[channel].expiresAt && f.at <= before.clock;
    case Succeed(id, result) =>
      assert Fetch(before.flights[id].channel, result, last.now) in Next(before, last, ttl, |front|).fetches;
    case Fail(id) =>
      CachedAtExtends(front, last, ttl, start, before.flights[id].began, before.flights[id].channel);
    case Clear(_) =>
  }

  /******* When discover fetches *******/

  /** The latest successful fetch for a channel. */
  function LatestFetch(fetches: seq<Fetch>, channel: string): Option<Fetch> {
    if fetches == [] then None
    else
      var last := fetches[|fetches| - 1];
      if last.channel == channel then Some(last) else LatestFetch(fetches[..|fetches| - 1], channel)
  }

  lemma {:induction false} LatestFetchIs(fetches: seq<Fetch>, channel: string)
    ensures match LatestFetch(fetches, channel)
            case None => forall f | f in fetches :: f.channel != channel
            case Some(f) =>
              exists i | 0 <= i < |fetches| :: fetches[i] == f && f.channel == channel && forall j | i < j < |fetches| :: fetches[j].channel != channel
  {
    if fetches != [] {
      var n := |fetches| - 1;
      if fetches[n].channel == channel {
        assert fetches[n] == LatestFetch(fetches, channel).value;
      } else {
        LatestFetchIs(fetches[..n], channel);
        assert fetches == fetches[..n] + [fetches[n]];
        if LatestFetch(fetches, channel).Some? {
          var f := LatestFetch(fetches, channel).value;
          var i :| 0 <= i < n && fetches[..n][i] == f && f.channel == channel && forall j | i < j < n :: fetches[..n][j].channel != channel;
          assert forall j | i < j < n :: fetches[j] == fetches[..n][j];
          assert fetches[i] == f;
        }
      }
    }
  }

  /** The entry of a channel is its latest fetch, expiring one TTL after it. */
  ghost predicate EntriesAreLatest(s: State, ttl: nat) {
    forall channel | channel in s.entries ::
      && LatestFetch(s.fetches, channel).Some?
      && s.entries[channel] == Entry(LatestFetch(s.fetches, channel).value.result, LatestFetch(s.fetches, channel).value.at + ttl)
  }

  lemma {:induction false} CacheIsLatest(steps: seq<Step>, ttl: nat, start: int)
    requires Run(steps, ttl, start).Some?
    ensures EntriesAreLatest(Run(steps, ttl, start).value, ttl)
  {
    if steps != [] {
      var front, last := steps[..|steps| - 1], steps[|steps| - 1];
      CacheIsLatest(front, ttl, start);
      LatestStep(Run(front, ttl, start).value, last, ttl, |front|);
    }
  }

  lemma LatestStep(s: State, step: Step, ttl: nat, count: nat)
    requires EntriesAreLatest(s, ttl) && Enabled(s, step)
    ensures EntriesAreLatest(Next(s, step, ttl, count), ttl)
  {
    var after := Next(s, step, ttl, count);
    if step.action.Succeed? {
      var f := Fetch(s.flights[step.action.id].channel, step.action.result, step.now);
      assert after.fetches == s.fetches + [f];
      assert after.fetches[..|after.fetches| - 1] == s.fetches;
    }
  }

  /**
   * After any run, discover answers at once exactly when an entry is held whose fetch is at most one TTL ago, and then
   * with that fetch's result and without a new one; otherwise a fetch goes out, and what was held is remembered.
   */
  lemma DiscoverExactly(steps: seq<Step>, ttl: nat, start: int, id: nat, channel: string, now: int)
    requires Run(steps, ttl, start).Some? && Enabled(Run(steps, ttl, start).value, Step(now, Begin(id, channel)))
    ensures var s := Run(steps, ttl, start).value;
            var after := Run(steps + [Step(now, Begin(id, channel))], ttl, start);
            && (channel in s.entries ==> LatestFetch(s.fetches, channel).Some?)
            && after ==
                 if channel in s.entries && now <= LatestFetch(s.fetches, channel).value.at + ttl then
                   Some(s.(clock := now, answers := s.answers + [Fresh(channel, LatestFetch(s.fetches, channel).value.result, now)]))
                 else
                   var held := if channel in s.entries then Some(LatestFetch(s.fetches, channel).value.result) else None;
                   Some(s.(clock := now, flights := s.flights[id := Flight(channel, held, |steps|)]))
  {
    hide LatestFetch;
    var longer := steps + [Step(now, Begin(id, channel))];
    CacheIsLatest(steps, ttl, start);
    assert longer[..|longer| - 1] == steps && longer[|longer| - 1] == Step(now, Begin(id, channel));
  }

  /** Step i brought a fetched result for the channel. */
  ghost predicate Brought(steps: seq<Step>, ttl: nat, start: int, i: nat, channel: string) {
    && i < |steps| && steps[i].action.Succeed?
    && Run(steps[..i], ttl, start).Some?
    && steps[i].action.id in Run(steps[..i], ttl, start).value.flights
    && Run(steps[..i], ttl, start).value.flights[steps[i].action.id].channel == channel
  }

  /** The step clears the channel: by its name, or everything, which no name and the empty name both mean. */
  ghost predicate Clears(step: Step, channel: string) {
    match step.action
    case Clear(None) => true
    case Clear(Some(name)) => name == "" || name == channel
    case _ => false
  }

  ghost predicate KeptSince(steps: seq<Step>, i: nat, channel: string) {
    forall j | i < j < |steps| :: !Clears(steps[j], channel)
  }

  /** How the two conditions carry over to one step more. */
  lemma BroughtEarlier(front: seq<Step>, last: Step, ttl: nat, start: int, i: nat, channel: string)
    requires i < |front|
    ensures Brought(front + [last], ttl, start, i, channel) <==> Brought(front, ttl, start, i, channel)
    ensures KeptSince(front + [last], i, channel) <==> KeptSince(front, i, channel) && !Clears(last, channel)
  {
    hide Run, Clears;
    var steps := front + [last];
    assert steps[..i] == front[..i] && steps[i] == front[i];
    assert steps[|front|] == last && forall j | i < j < |front| :: steps[j] == front[j];
  }

  lemma BroughtNow(front: seq<Step>, last: Step, ttl: nat, start: int, channel: string)
    requires Run(front, ttl, start).Some? && Enabled(Run(front, ttl, start).value, last)
    ensures Brought(front + [last], ttl, start, |front|, channel)
       <==> last.action.Succeed? && Run(front, ttl, start).value.flights[last.action.id].channel == channel
    ensures KeptSince(front + [last], |front|, channel)
  {
    hide Run;
    assert (front + [last])[..|front|] == front;
  }

  /** An entry is held exactly when some step brought one and no later step cleared the channel. */
  lemma {:induction false} HeldExactly(steps: seq<Step>, ttl: nat, start: int, channel: string)
    requires Run(steps, ttl, start).Some?
    ensures channel in Run(steps, ttl, start).value.entries
       <==> exists i :: Brought(steps, ttl, start, i, channel) && KeptSince(steps, i, channel)
  {
    if steps == [] {
      assert forall i :: !Brought([], ttl, start, i, channel);
    } else {
      var n := |steps| - 1;
      var front, last := steps[..n], steps[n];
      assert steps == front + [last];
      HeldExactly(front, ttl, start, channel);
      HeldStep(Run(front, ttl, start).value, last, ttl, n, channel);
      BroughtNow(front, last, ttl, start, channel);
      hide Brought, KeptSince, Clears, Next;
      if i: nat :| Brought(front, ttl, start, i, channel) && KeptSince(front, i, channel) {
        BroughtIsStep(front, ttl, start, i, channel);
        BroughtEarlier(front, last, ttl, start, i, channel);
      }
      if i: nat :| Brought(steps, ttl, start, i, channel) && KeptSince(steps, i, channel) {
        BroughtIsStep(steps, ttl, start, i, channel);
        if i < n {
          BroughtEarlier(front, last, ttl, start, i, channel);
        }
      }
    }
  }

  lemma BroughtIsStep(steps: seq<Step>, ttl: nat, start: int, i: nat, channel: string)
    requires Brought(steps, ttl, start, i, channel)
    ensures i < |steps|
  {
  }

  lemma HeldStep(s: State, step: Step, ttl: nat, count: nat, channel: string)
    requires Enabled(s, step)
    ensures channel in Next(s, step, ttl, count).entries
       <==> || (step.action.Succeed? && s.flights[step.action.id].channel == channel)
            || (channel in s.entries && !Clears(step, channel))
  {
  }
}
