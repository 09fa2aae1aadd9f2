/**
 The key-value store driver with time-to-live. Entries are purged lazily, at the start of the next
 command; the reference is a timed map read off the history of all commands.
 */
module KvStore {
  import opened Wrappers

  /** ttlMs <= 0 never expires. */
  datatype Entry = Entry(value: string, createdMs: int, ttlMs: int)

  type Store = map<string, Entry>

  datatype Command =
    | Set(key: string, value: string, ttlMs: int)
    | Get(key: string)
    | Delete(key: string)
    | List(prefix: string)
    | Stats
    | Clear
    | Unknown(name: string)

  datatype Answer =
    | Created(key: string)
    | Found(value: Option<string>)
    | Deleted(existed: bool)
    | Listed(entries: map<string, string>, count: nat)
    | Totals(totalKeys: nat, oldestAgeMs: int)
    | Cleared(count: nat)
    | NotFound

  predicate Expired(e: Entry, now: int) {
    e.ttlMs > 0 && now - e.createdMs > e.ttlMs
  }

  predicate StartsWith(s: string, prefix: string) {
    prefix <= s
  }

  /** The largest age of the given entries, and 0 for none. */
  ghost predicate IsOldestAge(store: Store, now: int, age: int) {
    && age >= 0
    && (forall k :: k in store ==> now - store[k].createdMs <= age)
    && (age == 0 || exists k :: k in store && now - store[k].createdMs == age)
  }

  ghost function Purged(store: Store, now: int): Store {
    map k | k in store && !Expired(store[k], now) :: store[k]
  }

  // ----- one command

  /** A command purges at one reading of the clock and acts at a later one. */
  datatype Call = Call(command: Command, purgeMs: int, actMs: int)

  /** What a command leaves of a store whose expired entries are gone. */
  ghost function Apply(live: Store, c: Call): Store {
    match c.command
    case Set(key, value, ttlMs) => live[key := Entry(value, c.actMs, ttlMs)]
    case Delete(key) => live - {key}
    case Clear => map[]
    case _ => live
  }

  /** Whether `answer` is right for a store whose expired entries are gone. */
  ghost predicate Answers(live: Store, c: Call, answer: Answer) {
    match c.command
    case Set(key, _, _) => answer == Created(key)
    case Get(key) => answer == Found(if key in live then Some(live[key].value) else None)
    case Delete(key) => answer == Deleted(key in live)
    case List(prefix) =>
      var entries := map k | k in live && StartsWith(k, prefix) :: live[k].value;
      answer == Listed(entries, |entries|)
    case Stats => answer.Totals? && answer.totalKeys == |live| && IsOldestAge(live, c.actMs, answer.oldestAgeMs)
    case Clear => answer == Cleared(|live|)
    case Unknown(_) => answer == NotFound
  }

  // ----- the reference: what the history says

  /** The clock never runs backwards. */
  ghost predicate Timely(history: seq<Call>) {
    && (forall i :: 0 <= i < |history| ==> history[i].purgeMs <= history[i].actMs)
    && (forall i, j :: 0 <= i < j < |history| ==> history[i].actMs <= history[j].purgeMs)
  }

  predicate Removes(c: Command, key: string) {
    c == Delete(key) || c == Clear
  }

  predicate Sets(c: Command, key: string) {
    c.Set? && c.key == key
  }

  /** Call i set the key, and nothing has set, deleted or cleared it since. */
  ghost predicate LastSet(history: seq<Call>, i: nat, key: string) {
    && i < |history| && Sets(history[i].command, key)
    && forall j :: i < j < |history| ==> !Sets(history[j].command, key) && !Removes(history[j].command, key)
  }

  /** A set is in force for its time to live, both ends included, or for ever if that is not positive. */
  ghost predicate InForce(c: Call, now: int)
    requires c.command.Set?
  {
    c.command.ttlMs <= 0 || now <= c.actMs + c.command.ttlMs
  }

  /** Call i is the last set of the key, and in force. */
  ghost predicate Holds(history: seq<Call>, now: int, i: nat, key: string) {
    LastSet(history, i, key) && InForce(history[i], now)
  }

  ghost function EntryOf(c: Call): Entry
    requires c.command.Set?
  {
    Entry(c.command.value, c.actMs, c.command.ttlMs)
  }

  /** A timed map: exactly the keys whose last set has not been undone and has not run out, as set. */
  ghost predicate TimedMap(history: seq<Call>, now: int, m: Store) {
    && (forall key, i: nat :: Holds(history, now, i, key) ==> key in m && m[key] == EntryOf(history[i]))
    && (forall key :: key in m ==> exists i: nat :: Holds(history, now, i, key))
  }

  /** The store after a history, as the handler leaves it. */
  ghost function StoreAfter(history: seq<Call>): Store {
    if history == [] then map[]
    else
      var c := history[|history| - 1];
      Apply(Purged(StoreAfter(history[..|history| - 1]), c.purgeMs), c)
  }

  lemma LastSetStep(history: seq<Call>, c: Call, i: nat, key: string)
    ensures LastSet(history + [c], i, key) <==>
      || (i == |history| && Sets(c.command, key))
      || (LastSet(history, i, key) && !Sets(c.command, key) && !Removes(c.command, key))
  {
    var longer := history + [c];
    assert forall j :: 0 <= j < |history| ==> longer[j] == history[j];
    assert longer[|history|] == c;
  }

  /**
   The store holds only last-set entries, and every last-set entry that is missing has run out by
   `now`.
   */
  ghost predicate Tracks(history: seq<Call>, store: Store, now: int) {
    && (forall key :: key in store ==> exists i: nat :: LastSet(history, i, key) && store[key] == EntryOf(history[i]))
    && (forall key, i: nat :: LastSet(history, i, key) ==>
          (key in store && store[key] == EntryOf(history[i])) || Expired(EntryOf(history[i]), now))
  }

  lemma TracksStep(history: seq<Call>, store: Store, c: Call, now: int)
    requires Tracks(history, store, c.purgeMs) && c.purgeMs <= now
    ensures Tracks(history + [c], Apply(Purged(store, c.purgeMs), c), now)
  {
    hide LastSet;
    var longer, next := history + [c], Apply(Purged(store, c.purgeMs), c);
    assert forall j :: 0 <= j < |history| ==> longer[j] == history[j];
    LastSetInside(history);
    LastSetInside(longer);
    forall key, i: nat | LastSet(longer, i, key)
      ensures (key in next && next[key] == EntryOf(longer[i])) || Expired(EntryOf(longer[i]), now)
    {
      LastSetStep(history, c, i, key);
    }
    forall key | key in next
      ensures exists i: nat :: LastSet(longer, i, key) && next[key] == EntryOf(longer[i])
    {
      if Sets(c.command, key) {
        LastSetStep(history, c, |history|, key);
      } else {
        var i: nat :| LastSet(history, i, key) && store[key] == EntryOf(history[i]);
        LastSetStep(history, c, i, key);
      }
    }
  }

  lemma LastSetInside(history: seq<Call>)
    ensures forall key, i: nat :: LastSet(history, i, key) ==> i < |history| && history[i].command.Set?
  {
  }

  lemma {:induction false} StoreTracks(history: seq<Call>, now: int)
    requires Timely(history) && (history != [] ==> history[|history| - 1].actMs <= now)
    ensures Tracks(history, StoreAfter(history), now)
  {
    if history != [] {
      var before, c := history[..|history| - 1], history[|history| - 1];
      StoreTracks(before, c.purgeMs);
      TracksStep(before, StoreAfter(before), c, now);
      assert before + [c] == history;
    }
  }

  /** Lazy purging is indistinguishable from a timed map: purged now, the store is the map of the history. */
  lemma LazyStoreIsTimedMap(history: seq<Call>, now: int)
    requires Timely(history) && (history != [] ==> history[|history| - 1].actMs <= now)
    ensures TimedMap(history, now, Purged(StoreAfter(history), now))
  {
    hide LastSet;
    StoreTracks(history, now);
    LastSetInside(history);
    LastSetUnique(history);
    var store := StoreAfter(history);
    forall key | key in Purged(store, now)
      ensures exists i: nat :: Holds(history, now, i, key)
    {
      var i: nat :| LastSet(history, i, key) && store[key] == EntryOf(history[i]);
      assert Holds(history, now, i, key);
    }
  }

  /**
   What the answers say about the history: a get finds the value of the set that holds, and nothing
   otherwise; a delete reports whether one holds; a list names exactly the values that hold under the
   prefix, and counts them.
   */
  lemma AnswersTellHistory(history: seq<Call>, live: Store, c: Call, answer: Answer)
    requires TimedMap(history, c.purgeMs, live) && Answers(live, c, answer)
    ensures forall key, i: nat :: c.command == Get(key) && Holds(history, c.purgeMs, i, key) ==>
              answer == Found(Some(history[i].command.value))
    ensures forall key :: c.command == Get(key) && (forall i: nat :: !Holds(history, c.purgeMs, i, key)) ==> answer == Found(None)
    ensures forall key :: c.command == Delete(key) ==>
              answer == Deleted(exists i: nat :: Holds(history, c.purgeMs, i, key))
    ensures c.command.List? ==>
              && answer.Listed? && answer.count == |answer.entries|
              && forall key :: key in answer.entries <==>
                   c.command.prefix <= key && exists i: nat :: Holds(history, c.purgeMs, i, key)
    ensures forall key, i: nat :: c.command.List? && Holds(history, c.purgeMs, i, key) && c.command.prefix <= key ==>
              answer.entries[key] == history[i].command.value
    ensures (c.command.Stats? ==> answer.Totals? && answer.totalKeys == |live|) && (c.command.Clear? ==> answer == Cleared(|live|))
  {
    hide Holds;
  }

  lemma LastSetUnique(history: seq<Call>)
    ensures forall key, i: nat, j: nat :: LastSet(history, i, key) && LastSet(history, j, key) ==> i == j
  {
  }

  /** A history determines its timed map. */
  lemma TimedMapUnique(history: seq<Call>, now: int, a: Store, b: Store)
    requires TimedMap(history, now, a) && TimedMap(history, now, b)
    ensures a == b
  {
    hide Holds;
  }

  lemma TimelyPrefix(history: seq<Call>, c: Call)
    requires Timely(history + [c])
    ensures Timely(history) && (history != [] ==> history[|history| - 1].actMs <= c.purgeMs)
  {
    var longer := history + [c];
    assert longer[|history|] == c;
    assert forall i :: 0 <= i < |history| ==> longer[i] == history[i];
  }

  // ----- the handler

  class KvStoreHandler {
    var store: Store
    ghost var history: seq<Call>

    ghost predicate Valid()
      reads this
    {
      store == StoreAfter(history)
    }

    constructor ()
      ensures Valid() && history == []
    {
      store, history := map[], [];
    }

    /** Collects the expired keys, then removes them one by one. */
    method PurgeExpired(now: int)
      modifies this`store
      ensures store == Purged(old(store), now)
    {
      var expired: seq<string> := [];
      var rest := store.Keys;
      while rest != {}
        invariant rest <= store.Keys && store == old(store)
        invariant forall k :: k in expired <==> k in store && k !in rest && Expired(store[k], now)
        decreases rest
      {
        var k :| k in rest;
        if store[k].ttlMs > 0 && now - store[k].createdMs > store[k].ttlMs {
          expired := expired + [k];
        }
        rest := rest - {k};
      }
      var i := 0;
      while i < |expired|
        invariant 0 <= i <= |expired|
        invariant forall k :: k in store <==> k in old(store) && k !in expired[..i]
        invariant forall k :: k in store ==> store[k] == old(store)[k]
      {
        store := store - {expired[i]};
        assert expired[..i + 1] == expired[..i] + [expired[i]];
        i := i + 1;
      }
      assert expired[..|expired|] == expired;
    }

    /** One event per matching key, in the order of the hash; the map records what the events said. */
    method HandleList(prefix: string) returns (answer: Answer, events: seq<(string, string)>)
      ensures answer.Listed? && answer.entries == map k | k in store && StartsWith(k, prefix) :: store[k].value
      ensures answer.count == |answer.entries| == |events|
      ensures forall k :: k in answer.entries ==> (k, answer.entries[k]) in events
      ensures forall i, j :: 0 <= i < j < |events| ==> events[i].0 != events[j].0
    {
      hide StartsWith;
      events := [];
      var entries: map<string, string> := map[];
      var rest := store.Keys;
      while rest != {}
        invariant rest <= store.Keys
        invariant forall k :: k in entries <==> k in store && k !in rest && StartsWith(k, prefix)
        invariant forall k :: k in entries ==> entries[k] == store[k].value
        invariant |events| == |entries|
        invariant forall k :: k in entries ==> (k, entries[k]) in events
        invariant forall i :: 0 <= i < |events| ==> events[i].0 in entries
        invariant forall i, j :: 0 <= i < j < |events| ==> events[i].0 != events[j].0
        decreases rest
      {
        var k :| k in rest;
        MatchIs(k, prefix);
        if prefix == "" || prefix <= k {
          events := events + [(k, store[k].value)];
          entries := entries[k := store[k].value];
        }
        rest := rest - {k};
      }
      answer := Listed(entries, |events|);
    }

    method HandleStats(now: int) returns (answer: Answer)
      ensures answer.Totals? && answer.totalKeys == |store| && IsOldestAge(store, now, answer.oldestAgeMs)
    {
      var oldestAge := 0;
      var rest := store.Keys;
      while rest != {}
        invariant rest <= store.Keys && oldestAge >= 0
        invariant forall k :: k in store && k !in rest ==> now - store[k].createdMs <= oldestAge
        invariant oldestAge == 0 || exists k :: k in store && now - store[k].createdMs == oldestAge
        decreases rest
      {
        var k :| k in rest;
        var age := now - store[k].createdMs;
        if age > oldestAge {
          oldestAge := age;
        }
        rest := rest - {k};
      }
      answer := Totals(|store|, oldestAge);
    }

    /** The commands, on a store that has just been purged. */
    method Dispatch(c: Call) returns (answer: Answer)
      modifies this`store
      ensures Answers(old(store), c, answer) && store == Apply(old(store), c)
    {
      match c.command {
        case Set(key, value, ttlMs) =>
          store := store[key := Entry(value, c.actMs, ttlMs)];
          answer := Created(key);
        case Get(key) =>
          answer := Found(if key in store then Some(store[key].value) else None);
        case Delete(key) =>
          answer := Deleted(key in store);
          store := store - {key};
        case List(prefix) =>
          var events;
          answer, events := HandleList(prefix);
        case Stats =>
          answer := HandleStats(c.actMs);
        case Clear =>
          answer := Cleared(|store|);
          store := map[];
        case Unknown(_) =>
          answer := NotFound;
      }
    }

    /** Purge, then dispatch: every answer is that of the timed map of all commands before. */
    method Handle(c: Call) returns (answer: Answer)
      requires Valid() && Timely(history + [c])
      modifies this
      ensures Valid() && history == old(history) + [c]
      ensures exists live :: TimedMap(old(history), c.purgeMs, live) && Answers(live, c, answer)
    {
      hide Timely, TimedMap, Answers, Apply, Purged, StoreAfter;
      TimelyPrefix(history, c);
      LazyStoreIsTimedMap(history, c.purgeMs);
      StoreAfterStep(history, c);
      PurgeExpired(c.purgeMs);
      ghost var live := store;
      answer := Dispatch(c);
      history := history + [c];
      assert TimedMap(old(history), c.purgeMs, live) && Answers(live, c, answer);
    }
  }

  lemma MatchIs(k: string, prefix: string)
    ensures StartsWith(k, prefix) <==> prefix == "" || prefix <= k
  {
  }

  lemma StoreAfterStep(history: seq<Call>, c: Call)
    ensures StoreAfter(history + [c]) == Apply(Purged(StoreAfter(history), c.purgeMs), c)
  {
    hide Apply, Purged;
    assert (history + [c])[..|history|] == history;
  }
}
