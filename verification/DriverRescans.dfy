/**
 Concurrent rescans of the driver catalog: scans run in the background and finish in any order; only
 the result of the newest request is applied.
 */
module DriverRescans {
  type Catalog = map<string, string>

  /**
   `latest` numbers the requests, `applied` is the number of the request whose result the catalog shows
   (0: none), `pending` the scans still running and what they will deliver.
   */
  datatype Scans = Scans(latest: nat, catalog: Catalog, applied: nat, pending: map<nat, Catalog>)

  datatype Event =
    | Requested(directoryExists: bool, result: Catalog)
    | Completed(scanSeq: nat)
    | Synchronous(now: Catalog)     // rescanDrivers, which takes no number

  predicate Enabled(s: Scans, e: Event) {
    e.Completed? ==> e.scanSeq in s.pending
  }

  /** What a request stands for: without a drivers directory the catalog is empty. */
  function OutcomeOf(e: Event): Catalog
    requires e.Requested?
  {
    if e.directoryExists then e.result else map[]
  }

  function Next(s: Scans, e: Event): Scans
    requires Enabled(s, e)
  {
    match e
    case Requested(directoryExists, result) =>
      var n := s.latest + 1;
      if directoryExists then s.(latest := n, pending := s.pending[n := result])
      else s.(latest := n, catalog := map[], applied := n)
    case Completed(n) =>
      var rest := s.(pending := s.pending - {n});
      if n == s.latest then rest.(catalog := s.pending[n], applied := n) else rest
    case Synchronous(now) => s.(catalog := now)
  }

  /** The server's fields and continuations. `running` is what the thread pool has in hand. */
  class DriverCatalog {
    var latestSeq: nat
    var catalog: Catalog
    ghost var appliedSeq: nat
    ghost var running: map<nat, Catalog>

    ghost function State(): Scans
      reads this
    {
      Scans(latestSeq, catalog, appliedSeq, running)
    }

    constructor (catalog: Catalog)
      ensures State() == Scans(0, catalog, 0, map[])
    {
      latestSeq, this.catalog := 0, catalog;
      appliedSeq, running := 0, map[];
    }

    /** rescanDriversAsync; `result` is what the scan will find. */
    method RescanAsync(directoryExists: bool, ghost result: Catalog) returns (scanSeq: nat)
      modifies this
      ensures State() == Next(old(State()), Requested(directoryExists, result)) && scanSeq == latestSeq
    {
      latestSeq := latestSeq + 1;
      scanSeq := latestSeq;
      if !directoryExists {
        if scanSeq == latestSeq {
          catalog := map[];
          appliedSeq := scanSeq;
        }
        return;
      }
      running := running[scanSeq := result];
    }

    /** The continuation of a scan. */
    method ScanFinished(scanSeq: nat, result: Catalog)
      requires scanSeq in running && running[scanSeq] == result
      modifies this
      ensures State() == Next(old(State()), Completed(scanSeq))
    {
      if scanSeq == latestSeq {
        catalog := result;
        appliedSeq := scanSeq;
      }
      running := running - {scanSeq};
    }
  }

  // ----- every interleaving

  ghost predicate Run(states: seq<Scans>, events: seq<Event>) {
    && |states| == |events| + 1
    && states[0].latest == states[0].applied == 0 && states[0].pending == map[]
    && forall i :: 0 <= i < |events| ==> Enabled(states[i], events[i]) && states[i + 1] == Next(states[i], events[i])
  }

  /** All numbers in use are those of earlier requests. */
  ghost predicate Numbered(s: Scans) {
    s.applied <= s.latest && forall n :: n in s.pending ==> 0 < n <= s.latest
  }

  lemma {:induction false} RunNumbered(states: seq<Scans>, events: seq<Event>, k: nat)
    requires Run(states, events) && k <= |events|
    ensures Numbered(states[k])
  {
    if k > 0 {
      RunNumbered(states, events, k - 1);
      assert Enabled(states[k - 1], events[k - 1]) && states[k] == Next(states[k - 1], events[k - 1]);
    }
  }

  /** The number of the applied result never goes down. */
  lemma {:induction false} AppliedNeverDecreases(states: seq<Scans>, events: seq<Event>, i: nat, k: nat)
    requires Run(states, events) && i <= k <= |events|
    ensures states[i].applied <= states[k].applied
    decreases k - i
  {
    if i < k {
      RunNumbered(states, events, k - 1);
      AppliedNeverDecreases(states, events, i, k - 1);
      assert Enabled(states[k - 1], events[k - 1]) && states[k] == Next(states[k - 1], events[k - 1]);
    }
  }

  /** The catalog there will be when all running scans have finished, if nothing else is asked for. */
  function Upcoming(s: Scans): Catalog {
    if s.latest in s.pending then s.pending[s.latest] else s.catalog
  }

  /** Neither requests nor synchronous rescans. */
  ghost predicate OnlyCompletions(events: seq<Event>) {
    forall e :: e in events ==> e.Completed?
  }

  lemma {:induction false} CompletionsKeepUpcoming(states: seq<Scans>, events: seq<Event>, i: nat, k: nat)
    requires Run(states, events) && i <= k <= |events| && OnlyCompletions(events[i..k])
    ensures Upcoming(states[k]) == Upcoming(states[i])
    decreases k - i
  {
    if i < k {
      assert events[i..k][..k - 1 - i] == events[i..k - 1];
      CompletionsKeepUpcoming(states, events, i, k - 1);
      assert events[i..k][k - 1 - i] in events[i..k];
      assert Enabled(states[k - 1], events[k - 1]) && states[k] == Next(states[k - 1], events[k - 1]);
    }
  }

  /**
   Whatever came before it, synchronous rescans too, and whatever the order of completion: if a request
   (q) is followed by completions only and no scan runs any more, the catalog is its outcome.
   */
  lemma LastRequestWins(states: seq<Scans>, events: seq<Event>, q: nat, k: nat)
    requires Run(states, events) && q < k <= |events|
    requires events[q].Requested? && OnlyCompletions(events[q + 1..k]) && states[k].pending == map[]
    ensures states[k].catalog == OutcomeOf(events[q])
  {
    RunNumbered(states, events, q);
    assert Enabled(states[q], events[q]) && states[q + 1] == Next(states[q], events[q]);
    CompletionsKeepUpcoming(states, events, q + 1, k);
  }

  /**
   A synchronous rescan takes no number, so it does not always win. If one (p) is followed by completions
   only and no scan runs any more, the catalog is its result exactly if, when it was called, the scan of
   the newest request was not running, or delivers the same catalog.
   */
  lemma SynchronousWinsIff(states: seq<Scans>, events: seq<Event>, p: nat, k: nat)
    requires Run(states, events) && p < k <= |events|
    requires events[p].Synchronous? && OnlyCompletions(events[p + 1..k]) && states[k].pending == map[]
    ensures states[k].catalog == events[p].now <==>
      var s := states[p]; s.latest in s.pending ==> s.pending[s.latest] == events[p].now
  {
    assert Enabled(states[p], events[p]) && states[p + 1] == Next(states[p], events[p]);
    CompletionsKeepUpcoming(states, events, p + 1, k);
  }

  /** A synchronous rescan takes no number, so a scan requested before it may still replace its result. */
  lemma SynchronousMayBeOverwritten(earlier: Catalog, later: Catalog) returns (states: seq<Scans>, events: seq<Event>)
    requires earlier != later
    ensures Run(states, events) && events == [Requested(true, earlier), Synchronous(later), Completed(1)]
    ensures states[3].pending == map[] && states[3].catalog == earlier
  {
    events := [Requested(true, earlier), Synchronous(later), Completed(1)];
    var s0 := Scans(0, map[], 0, map[]);
    var s1 := Next(s0, events[0]);
    var s2 := Next(s1, events[1]);
    states := [s0, s1, s2, Next(s2, events[2])];
  }
}
