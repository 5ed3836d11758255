/** The read-through table cache under interleaved calls (core/caching.py). A call is two atomic steps,
  * the lookup before it awaits the engine and the evict-and-store after, so any interleaving of calls is
  * some sequence of these steps. */
module TableCache {
  import opened Prelude

  /** A table's catalog, schema and name, lowercased. */
  datatype Key = Key(catalog: string, schema: string, table: string)

  function FoldedKey(catalog: string, schema: string, table: string): Key {
    Key(Lower(catalog), Lower(schema), Lower(table))
  }

  /** The three names as a caller wrote them. */
  datatype Asked = Asked(catalog: string, schema: string, table: string)

  function KeyOf(asked: Asked): Key { FoldedKey(asked.catalog, asked.schema, asked.table) }

  predicate SameTable(a: Asked, b: Asked) {
    SameUpToCase(a.catalog, b.catalog) && SameUpToCase(a.schema, b.schema) && SameUpToCase(a.table, b.table)
  }

  /** Two requests share a key exactly when they name the same table, letter by letter up to case. */
  lemma KeysAgreeIff(a: Asked, b: Asked)
    ensures KeyOf(a) == KeyOf(b) <==> SameTable(a, b)
  {
    LowerIsSame(a.catalog, b.catalog);
    LowerIsSame(a.schema, b.schema);
    LowerIsSame(a.table, b.table);
  }

  datatype Entry<V> = Entry(key: Key, storedAt: real, value: V)

  /** The cached entries in insertion order, and the latest clock reading. */
  datatype State<V> = State(entries: seq<Entry<V>>, now: real)

  datatype Config = Config(ttl: real, maxEntries: nat)

  /** What one step did. */
  datatype Event<V> =
    | Served(asked: Asked, value: V, at: real)
    | Missed(asked: Asked, at: real)
    | Answered(asked: Asked, value: V, at: real)
    | Failed(asked: Asked)

  predicate Fresh(c: Config, storedAt: real, at: real) { at - storedAt <= c.ttl }

  predicate Holds<V>(entries: seq<Entry<V>>, key: Key) { exists i :: 0 <= i < |entries| && entries[i].key == key }

  /** The clock readings of one sweep: one per entry, all within the step. */
  ghost predicate Readings(times: seq<real>, n: nat, from: real, to: real) {
    |times| == n && from <= to && forall i :: 0 <= i < n ==> from <= times[i] <= to
  }

  /** The entries still fresh when the sweep reached them. */
  function Kept<V>(c: Config, entries: seq<Entry<V>>, times: seq<real>): seq<Entry<V>>
    requires |times| == |entries|
  {
    if entries == [] then []
    else
      var n := |entries| - 1;
      Kept(c, entries[..n], times[..n]) + (if Fresh(c, entries[n].storedAt, times[n]) then [entries[n]] else [])
  }

  lemma KeptOneMore<V>(c: Config, entries: seq<Entry<V>>, times: seq<real>, entry: Entry<V>, at: real)
    requires |times| == |entries|
    ensures Kept(c, entries + [entry], times + [at])
      == Kept(c, entries, times) + (if Fresh(c, entry.storedAt, at) then [entry] else [])
  {
    assert (entries + [entry])[..|entries|] == entries && (times + [at])[..|times|] == times;
  }

  /** Dropped from the front until one more entry fits. */
  function Trimmed<V>(c: Config, entries: seq<Entry<V>>): seq<Entry<V>>
    requires c.maxEntries > 0
  {
    if |entries| >= c.maxEntries then entries[|entries| - (c.maxEntries - 1)..] else entries
  }

  function Evicted<V>(c: Config, entries: seq<Entry<V>>, key: Key, times: seq<real>): seq<Entry<V>>
    requires c.maxEntries > 0 && |times| == |entries|
  {
    if Holds(entries, key) || |entries| < c.maxEntries then entries else Trimmed(c, Kept(c, entries, times))
  }

  /** A known key keeps its place and takes the new value; a new one goes last. */
  ghost predicate IsStored<V>(before: seq<Entry<V>>, entry: Entry<V>, after: seq<Entry<V>>) {
    if Holds(before, entry.key)
    then exists i :: 0 <= i < |before| && before[i].key == entry.key && after == before[i := entry]
    else after == before + [entry]
  }

  /** One step of any call. */
  ghost predicate Next<V>(c: Config, s: State<V>, e: Event<V>, s': State<V>)
    requires c.maxEntries > 0
  {
    match e
    case Served(asked, value, at) =>
      s' == State(s.entries, at) && s.now <= at
        && exists i :: 0 <= i < |s.entries| && s.entries[i].key == KeyOf(asked) && s.entries[i].value == value && Fresh(c, s.entries[i].storedAt, at)
    case Missed(asked, at) =>
      s' == State(s.entries, at) && s.now <= at
        && forall i :: 0 <= i < |s.entries| && s.entries[i].key == KeyOf(asked) ==> !Fresh(c, s.entries[i].storedAt, at)
    case Answered(asked, value, at) =>
      s'.now == at && exists times: seq<real> :: StoresAfterSweep(c, s, times, Entry(KeyOf(asked), at, value), s'.entries)
    case Failed(_) => s' == s
  }

  ghost predicate StoresAfterSweep<V>(c: Config, s: State<V>, times: seq<real>, entry: Entry<V>, after: seq<Entry<V>>)
    requires c.maxEntries > 0
  {
    Readings(times, |s.entries|, s.now, entry.storedAt) && IsStored(Evicted(c, s.entries, entry.key, times), entry, after)
  }

  // ----- every run -----

  ghost predicate IsRun<V>(c: Config, states: seq<State<V>>, events: seq<Event<V>>)
    requires c.maxEntries > 0
  {
    && |states| == |events| + 1 && states[0].entries == []
    && forall i :: 0 <= i < |events| ==> Next(c, states[i], events[i], states[i + 1])
  }

  ghost predicate OneEntryPerKey<V>(entries: seq<Entry<V>>) {
    forall i, j :: 0 <= i < j < |entries| ==> entries[i].key != entries[j].key
  }

  ghost predicate IsAnswer<V>(entry: Entry<V>, event: Event<V>) {
    event.Answered? && KeyOf(event.asked) == entry.key && event.value == entry.value && event.at == entry.storedAt
  }

  ghost predicate AnswersKey<V>(event: Event<V>, key: Key) { event.Answered? && KeyOf(event.asked) == key }

  /** The entry is the answer of event i, and no later event answers its key. */
  ghost predicate IsLatest<V>(entry: Entry<V>, events: seq<Event<V>>, i: nat) {
    i < |events| && IsAnswer(entry, events[i]) && forall j :: i < j < |events| ==> !AnswersKey(events[j], entry.key)
  }

  ghost predicate WasAnswered<V>(entry: Entry<V>, events: seq<Event<V>>) { exists i: nat :: IsLatest(entry, events, i) }

  /** Every cached entry is the latest answer the engine gave for its key, stored when it was given. */
  ghost predicate FromAnswers<V>(entries: seq<Entry<V>>, events: seq<Event<V>>) {
    forall i :: 0 <= i < |entries| ==> WasAnswered(entries[i], events)
  }

  ghost predicate Invariant<V>(c: Config, s: State<V>, events: seq<Event<V>>) {
    |s.entries| <= c.maxEntries && OneEntryPerKey(s.entries) && FromAnswers(s.entries, events)
  }

  /** Where the kept entries stood. */
  ghost function KeptPlaces<V>(c: Config, entries: seq<Entry<V>>, times: seq<real>): seq<nat>
    requires |times| == |entries|
  {
    if entries == [] then []
    else
      var n := |entries| - 1;
      KeptPlaces(c, entries[..n], times[..n]) + (if Fresh(c, entries[n].storedAt, times[n]) then [n] else [])
  }

  /** Places in their original order. */
  ghost predicate Ascending(places: seq<nat>, n: nat) {
    (forall i, j :: 0 <= i < j < |places| ==> places[i] < places[j]) && forall i :: 0 <= i < |places| ==> places[i] < n
  }

  lemma {:induction false} KeptPlacesAscend<V>(c: Config, entries: seq<Entry<V>>, times: seq<real>)
    requires |times| == |entries|
    ensures Ascending(KeptPlaces(c, entries, times), |entries|)
    decreases |entries|
  {
    if entries != [] {
      KeptPlacesAscend(c, entries[..|entries| - 1], times[..|entries| - 1]);
    }
  }

  lemma {:induction false} KeptAtPlaces<V>(c: Config, entries: seq<Entry<V>>, times: seq<real>)
    requires |times| == |entries|
    ensures |KeptPlaces(c, entries, times)| == |Kept(c, entries, times)|
    ensures forall i :: 0 <= i < |Kept(c, entries, times)| ==>
      var k := KeptPlaces(c, entries, times)[i];
      k < |entries| && Kept(c, entries, times)[i] == entries[k] && Fresh(c, entries[k].storedAt, times[k])
    decreases |entries|
  {
    if entries != [] {
      KeptAtPlaces(c, entries[..|entries| - 1], times[..|entries| - 1]);
    }
  }

  lemma {:induction false} FreshIsKept<V>(c: Config, entries: seq<Entry<V>>, times: seq<real>, k: nat) returns (at: nat)
    requires |times| == |entries| && k < |entries| && Fresh(c, entries[k].storedAt, times[k])
    ensures at < |KeptPlaces(c, entries, times)| && KeptPlaces(c, entries, times)[at] == k
    decreases |entries|
  {
    var n := |entries| - 1;
    if k < n {
      at := FreshIsKept(c, entries[..n], times[..n], k);
    } else {
      at := |KeptPlaces(c, entries[..n], times[..n])|;
    }
  }

  lemma EvictedIsPart<V>(c: Config, entries: seq<Entry<V>>, key: Key, times: seq<real>) returns (places: seq<nat>)
    requires c.maxEntries > 0 && |times| == |entries|
    ensures |places| == |Evicted(c, entries, key, times)| && Ascending(places, |entries|)
    ensures forall i :: 0 <= i < |places| ==> Evicted(c, entries, key, times)[i] == entries[places[i]]
  {
    if Holds(entries, key) || |entries| < c.maxEntries {
      places := seq(|entries|, i => i);
    } else {
      KeptPlacesAscend(c, entries, times);
      KeptAtPlaces(c, entries, times);
      places := KeptPlaces(c, entries, times);
      var kept := Kept(c, entries, times);
      if |kept| >= c.maxEntries {
        places := places[|kept| - (c.maxEntries - 1)..];
      }
    }
  }

  /** Eviction leaves room for a new name, and only entries that were there. */
  lemma EvictedIsSmaller<V>(c: Config, entries: seq<Entry<V>>, key: Key, times: seq<real>)
    requires c.maxEntries > 0 && |times| == |entries| <= c.maxEntries && OneEntryPerKey(entries)
    ensures var left := Evicted(c, entries, key, times);
      && |left| <= c.maxEntries && (|left| == c.maxEntries ==> Holds(left, key)) && OneEntryPerKey(left)
      && forall i :: 0 <= i < |left| ==> left[i] in entries
  {
    var places := EvictedIsPart(c, entries, key, times);
    var left := Evicted(c, entries, key, times);
    forall i, j | 0 <= i < j < |left| ensures left[i].key != left[j].key {
      assert left[i] == entries[places[i]] && left[j] == entries[places[j]];
    }
  }

  lemma StoredIsValid<V>(c: Config, left: seq<Entry<V>>, entry: Entry<V>, after: seq<Entry<V>>)
    requires |left| <= c.maxEntries && (|left| == c.maxEntries ==> Holds(left, entry.key)) && OneEntryPerKey(left)
    requires IsStored(left, entry, after)
    ensures |after| <= c.maxEntries && OneEntryPerKey(after)
    ensures forall i :: 0 <= i < |after| ==> after[i] == entry || after[i] in left
  {
  }

  lemma StillAnswered<V>(entry: Entry<V>, events: seq<Event<V>>, event: Event<V>)
    requires IsAnswer(entry, event) || (WasAnswered(entry, events) && !AnswersKey(event, entry.key))
    ensures WasAnswered(entry, events + [event])
  {
    if IsAnswer(entry, event) {
      assert IsLatest(entry, events + [event], |events|);
    } else {
      var i: nat :| IsLatest(entry, events, i);
      assert IsLatest(entry, events + [event], i);
    }
  }

  lemma EntryIsStored<V>(left: seq<Entry<V>>, entry: Entry<V>, after: seq<Entry<V>>)
    requires IsStored(left, entry, after) && OneEntryPerKey(left)
    ensures forall i :: 0 <= i < |after| && after[i] != entry ==> after[i].key != entry.key
  {
  }

  lemma StoringKeepsInvariant<V>(c: Config, s: State<V>, times: seq<real>, entry: Entry<V>, after: seq<Entry<V>>, events: seq<Event<V>>, event: Event<V>)
    requires c.maxEntries > 0 && Invariant(c, s, events) && StoresAfterSweep(c, s, times, entry, after) && IsAnswer(entry, event)
    ensures |after| <= c.maxEntries && OneEntryPerKey(after) && FromAnswers(after, events + [event])
  {
    EvictedIsSmaller(c, s.entries, entry.key, times);
    StoredIsValid(c, Evicted(c, s.entries, entry.key, times), entry, after);
    forall i | 0 <= i < |after| ensures WasAnswered(after[i], events + [event]) {
      if after[i] != entry {
        assert after[i] in s.entries;
        EntryIsStored(Evicted(c, s.entries, entry.key, times), entry, after);
      }
      StillAnswered(after[i], events, event);
    }
  }

  lemma {:induction false} RunKeepsInvariant<V>(c: Config, states: seq<State<V>>, events: seq<Event<V>>, n: nat)
    requires c.maxEntries > 0 && IsRun(c, states, events) && n <= |events|
    ensures Invariant(c, states[n], events[..n])
    decreases n
  {
    if n > 0 {
      RunKeepsInvariant(c, states, events, n - 1);
      var s, e, s' := states[n - 1], events[n - 1], states[n];
      assert Next(c, s, e, s') by {
        assert states[n - 1 + 1] == states[n];
      }
      assert events[..n] == events[..n - 1] + [e];
      if e.Answered? {
        var times :| StoresAfterSweep(c, s, times, Entry(KeyOf(e.asked), e.at, e.value), s'.entries);
        StoringKeepsInvariant(c, s, times, Entry(KeyOf(e.asked), e.at, e.value), s'.entries, events[..n - 1], e);
      } else {
        forall i | 0 <= i < |s'.entries| ensures WasAnswered(s'.entries[i], events[..n]) {
          StillAnswered(s.entries[i], events[..n - 1], e);
        }
      }
    }
  }

  /** Whatever the interleaving, the table stays within its bound and holds one entry per name. */
  lemma CacheStaysBounded<V>(c: Config, states: seq<State<V>>, events: seq<Event<V>>, n: nat)
    requires c.maxEntries > 0 && IsRun(c, states, events) && n <= |events|
    ensures |states[n].entries| <= c.maxEntries && OneEntryPerKey(states[n].entries)
  {
    RunKeepsInvariant(c, states, events, n);
  }

  /** Every served value is the latest answer the engine gave for the same table, named alike up to case, and
    * stored at most ttl before: in particular nothing is served for a name the engine only failed on. */
  lemma ServedValuesAreRecentAnswers<V>(c: Config, states: seq<State<V>>, events: seq<Event<V>>, n: nat) returns (i: nat)
    requires c.maxEntries > 0 && IsRun(c, states, events) && n < |events| && events[n].Served?
    ensures i < n && events[i].Answered? && SameTable(events[i].asked, events[n].asked) && events[i].value == events[n].value
    ensures forall j :: i < j < n && events[j].Answered? ==> !SameTable(events[j].asked, events[n].asked)
    ensures events[n].at - events[i].at <= c.ttl
  {
    RunKeepsInvariant(c, states, events, n);
    var s := states[n];
    assert Next(c, s, events[n], states[n + 1]);
    var k :| 0 <= k < |s.entries| && s.entries[k].key == KeyOf(events[n].asked) && s.entries[k].value == events[n].value
      && Fresh(c, s.entries[k].storedAt, events[n].at);
    assert WasAnswered(s.entries[k], events[..n]);
    i :| IsLatest(s.entries[k], events[..n], i);
    KeysAgreeIff(events[i].asked, events[n].asked);
    forall j | i < j < n && events[j].Answered? ensures !SameTable(events[j].asked, events[n].asked) {
      assert !AnswersKey(events[..n][j], s.entries[k].key);
      KeysAgreeIff(events[j].asked, events[n].asked);
    }
  }

  /** The entry last stored for this table, named alike up to case, is still fresh. */
  ghost predicate IsFreshFor<V>(c: Config, entry: Entry<V>, asked: Asked, at: real) {
    (exists other :: SameTable(other, asked) && entry.key == KeyOf(other)) && at - entry.storedAt <= c.ttl
  }

  /** A lookup is served exactly when an entry for that table is in the cache and at most ttl old. */
  lemma LookupIsServedIff<V>(c: Config, s: State<V>, e: Event<V>, s': State<V>)
    requires c.maxEntries > 0 && Next(c, s, e, s') && (e.Served? || e.Missed?)
    ensures e.Served? <==> exists i :: 0 <= i < |s.entries| && IsFreshFor(c, s.entries[i], e.asked, e.at)
  {
    if e.Served? {
      var i :| 0 <= i < |s.entries| && s.entries[i].key == KeyOf(e.asked) && s.entries[i].value == e.value
        && Fresh(c, s.entries[i].storedAt, e.at);
      KeysAgreeIff(e.asked, e.asked);
      assert IsFreshFor(c, s.entries[i], e.asked, e.at);
    } else if i :| 0 <= i < |s.entries| && IsFreshFor(c, s.entries[i], e.asked, e.at) {
      var other :| SameTable(other, e.asked) && s.entries[i].key == KeyOf(other);
      KeysAgreeIff(other, e.asked);
      assert false;
    }
  }

  /** A table already held is renewed in place, and nothing makes room before the cache is full. */
  lemma NothingEvictedWithRoom<V>(c: Config, entries: seq<Entry<V>>, key: Key, times: seq<real>)
    requires c.maxEntries > 0 && |times| == |entries|
    requires |entries| < c.maxEntries || exists i :: 0 <= i < |entries| && entries[i].key == key
    ensures Evicted(c, entries, key, times) == entries
  {
  }

  /** The entry was inserted after place k and was fresh when the sweep reached it. */
  ghost predicate LaterAndFresh<V>(c: Config, entries: seq<Entry<V>>, times: seq<real>, k: nat, entry: Entry<V>)
    requires |times| == |entries|
  {
    exists m :: k < m < |entries| && entries[m] == entry && Fresh(c, entry.storedAt, times[m])
  }

  /** If eviction drops an entry that was fresh when the sweep reached it, then everything it leaves was
    * fresh too, only entries inserted earlier are dropped in its favour, and no more than needed. */
  lemma FreshEntriesGoLast<V>(c: Config, entries: seq<Entry<V>>, key: Key, times: seq<real>, k: nat)
    requires c.maxEntries > 0 && |times| == |entries| && k < |entries| && OneEntryPerKey(entries)
    requires Fresh(c, entries[k].storedAt, times[k]) && entries[k] !in Evicted(c, entries, key, times)
    ensures |Evicted(c, entries, key, times)| == c.maxEntries - 1
    ensures forall i :: 0 <= i < |Evicted(c, entries, key, times)| ==>
      LaterAndFresh(c, entries, times, k, Evicted(c, entries, key, times)[i])
  {
    var kept, places, left := Kept(c, entries, times), KeptPlaces(c, entries, times), Evicted(c, entries, key, times);
    KeptPlacesAscend(c, entries, times);
    KeptAtPlaces(c, entries, times);
    var at := FreshIsKept(c, entries, times, k);
    var drop := Max(0, |kept| - (c.maxEntries - 1));
    assert left == kept[if |kept| >= c.maxEntries then drop else 0..];
    assert kept[at] == entries[k];
    assert forall j :: drop <= j < |kept| ==> kept[j] == kept[drop..][j - drop];
    assert at < drop;
    forall i | 0 <= i < |left| ensures LaterAndFresh(c, entries, times, k, left[i]) {
      var m := places[drop + i];
      assert places[at] < m;
      assert entries[m] == kept[drop + i];
    }
  }

  // ----- the cache object -----

  /** A clock that never goes back. */
  class Clock {
    var now: real

    constructor ()
    {
    }

    method Read() returns (at: real)
      modifies this
      ensures at == now && old(now) <= now
    {
      var elapsed: real :| elapsed >= 0.0;
      now := now + elapsed;
      at := now;
    }
  }

  class Cache<V> {
    const config: Config
    const clock: Clock
    var entries: seq<Entry<V>>

    ghost predicate Valid()
      reads this
    {
      config.maxEntries > 0 && |entries| <= config.maxEntries && OneEntryPerKey(entries)
    }

    ghost function Snapshot(): State<V>
      reads this, clock
    {
      State(entries, clock.now)
    }

    constructor (config: Config, clock: Clock)
      requires config.maxEntries > 0
      ensures Valid() && this.config == config && this.clock == clock && entries == []
    {
      this.config, this.clock := config, clock;
      entries := [];
    }

    /** The step before the engine is awaited: a fresh entry is served, otherwise the call goes on. */
    method Lookup(catalog: string, schema: string, table: string) returns (hit: Option<V>, ghost event: Event<V>)
      requires Valid()
      modifies clock
      ensures Valid() && Next(config, old(Snapshot()), event, Snapshot())
      ensures hit.Some? ==> event == Served(Asked(catalog, schema, table), hit.value, clock.now)
      ensures hit.None? ==> event == Missed(Asked(catalog, schema, table), clock.now)
    {
      var key := FoldedKey(catalog, schema, table);
      ghost var asked := Asked(catalog, schema, table);
      var i := PlaceOf(key);
      if i == |entries| {
        event := Missed(asked, clock.now);
        return None, event;
      }
      var at := clock.Read();
      if Fresh(config, entries[i].storedAt, at) {
        event := Served(asked, entries[i].value, at);
        return Some(entries[i].value), event;
      }
      event := Missed(asked, at);
      hit := None;
    }

    method PlaceOf(key: Key) returns (i: nat)
      requires Valid()
      ensures i <= |entries|
      ensures i < |entries| ==> entries[i].key == key
      ensures forall k :: 0 <= k < |entries| && entries[k].key == key ==> k == i
    {
      i := 0;
      while i < |entries| && entries[i].key != key
        invariant i <= |entries| && forall k :: 0 <= k < i ==> entries[k].key != key
      {
        i := i + 1;
      }
    }

    /** Drop what has expired, reading the clock at every entry. */
    method Sweep() returns (ghost times: seq<real>)
      requires Valid()
      modifies this`entries, clock
      ensures Readings(times, |old(entries)|, old(clock.now), clock.now)
      ensures entries == Kept(config, old(entries), times)
    {
      times := [];
      var kept: seq<Entry<V>> := [];
      for i := 0 to |entries|
        invariant entries == old(entries)
        invariant Readings(times, i, old(clock.now), clock.now)
        invariant kept == Kept(config, entries[..i], times)
      {
        var at := clock.Read();
        KeptOneMore(config, entries[..i], times, entries[i], at);
        assert entries[..i + 1] == entries[..i] + [entries[i]];
        times := times + [at];
        if Fresh(config, entries[i].storedAt, at) {
          kept := kept + [entries[i]];
        }
      }
      assert entries[..|entries|] == entries;
      entries := kept;
    }

    /** Drop the oldest until one more entry fits. */
    method Trim()
      requires config.maxEntries > 0
      modifies this`entries
      ensures entries == Trimmed(config, old(entries))
    {
      var dropped := 0;
      while |entries| >= config.maxEntries
        invariant dropped <= |old(entries)| && entries == old(entries)[dropped..]
        invariant |old(entries)| < config.maxEntries ==> dropped == 0
        invariant |old(entries)| >= config.maxEntries ==> |entries| >= config.maxEntries - 1
      {
        entries, dropped := entries[1..], dropped + 1;
      }
    }

    /** Make room for a new name; a known one needs none. */
    method EvictFor(key: Key) returns (ghost times: seq<real>)
      requires Valid()
      modifies this`entries, clock
      ensures Readings(times, |old(entries)|, old(clock.now), clock.now)
      ensures entries == Evicted(config, old(entries), key, times)
    {
      ghost var start := clock.now;
      times := seq(|entries|, i => start);
      if Holds(entries, key) || |entries| < config.maxEntries {
        return;
      }
      times := Sweep();
      Trim();
    }

    /** The step after the engine answered or failed: an answer is stored, a failure leaves no trace. */
    method Finish(catalog: string, schema: string, table: string, answer: Option<V>) returns (ghost event: Event<V>)
      requires Valid()
      modifies this`entries, clock
      ensures Valid() && Next(config, old(Snapshot()), event, Snapshot())
      ensures answer.Some? ==> event == Answered(Asked(catalog, schema, table), answer.value, clock.now)
      ensures answer.None? ==> event == Failed(Asked(catalog, schema, table))
    {
      var key := FoldedKey(catalog, schema, table);
      ghost var asked := Asked(catalog, schema, table);
      if answer.None? {
        return Failed(asked);
      }
      ghost var s := Snapshot();
      ghost var times := EvictFor(key);
      EvictedIsSmaller(config, s.entries, key, times);
      ghost var left := entries;
      var i := PlaceOf(key);
      var at := clock.Read();
      var entry := Entry(key, at, answer.value);
      entries := if i < |entries| then entries[i := entry] else entries + [entry];
      StoredIsValid(config, left, entry, entries);
      assert entry == Entry(KeyOf(asked), at, answer.value);
      assert StoresAfterSweep(config, s, times, entry, entries);
      event := Answered(asked, answer.value, at);
    }
  }
}
