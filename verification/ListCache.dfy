/** The cached lists of active auctions: when a cached list still says what the database would answer. */
module ListCache {
  import opened Wrappers
  import opened Increment
  import opened RedisKeys
  import Auctions
  import Operations
  import opened Protocol
  import opened CacheKey

  datatype Listing = Listing(items: seq<int>, total: nat)

  datatype Response = Response(listing: Listing, page: nat, limit: nat)

  datatype Cached = Cached(response: Response, deadline: int)

  /** All auctions of the site with their bids in flight, and the Redis keys that hold cached lists. */
  datatype Site = Site(now: int, auctions: map<int, State>, cache: map<string, Cached>)

  datatype Step =
    | Pass(to: int)
    | OnAuction(id: int, action: Action)
    | ChangeImages(id: int, mainImageUrl: string)
    | List(query: Query)

  const LIST_TTL_SECONDS := 30

  /** What the database answers to a query over the ACTIVE rows; any function will do. */
  type Database = (DbQuery, map<int, Auctions.Row>) -> Listing

  // --- The rows a list can show ---

  function ActiveRow(a: Auctions.Auction): Option<Auctions.Row> {
    if a.row.Some? && a.row.value.status == Auctions.Active then a.row else None
  }

  function ActiveRows(s: Site): map<int, Auctions.Row> {
    map id | id in s.auctions && ActiveRow(s.auctions[id].auction).Some? :: s.auctions[id].auction.row.value
  }

  function Answer(db: Database, s: Site, q: Query): Response {
    Response(db(DbQueryOf(q), ActiveRows(s)), q.page, q.limit)
  }

  // --- Steps ---

  function At(s: Site, id: int): State {
    if id in s.auctions then s.auctions[id].(now := s.now) else Initial(s.now)
  }

  predicate ListPattern(key: string) {
    LIST_PREFIX <= key
  }

  function Invalidated(cache: map<string, Cached>): map<string, Cached> {
    map key | key in cache && !ListPattern(key) :: cache[key]
  }

  /** A start job that goes through invalidates the cached lists. */
  predicate StartInvalidates(a: Auctions.Auction, now: int, setup: Auctions.Setup) {
    && a.row.Some? && a.row.value.status == Auctions.Pending
    && Auctions.SecondsLeft(now, a.row.value.endTime) > 0 && setup == Auctions.SetUp
  }

  /** An end job that reads a price and comes to its end does, too. */
  predicate EndInvalidates(a: Auctions.Auction, now: int, crash: Auctions.Crash) {
    crash == Auctions.NoCrash && Auctions.FinalPrice(a, now).Some?
  }

  /** Whether the operation ends by invalidating the cached lists. */
  predicate Invalidates(s: State, action: Action) {
    var a := s.auction;
    match action
    case StartJob(setup) => a.startJob.Some? && a.startJob.value <= s.now && StartInvalidates(a, s.now, setup)
    case EndJob(crash) => a.endJob.Some? && a.endJob.value <= s.now && EndInvalidates(a, s.now, crash)
    case CancelAuction(user) => Auctions.Cancel(a, user).1 == Auctions.Done
    case UpdateAuction(user, changes) => Auctions.Update(a, s.now, user, changes).1 == Auctions.Done
    case _ => false
  }

  function LookupKey(s: Site, key: string): Option<Response> {
    if key in s.cache && s.now < s.cache[key].deadline then Some(s.cache[key].response) else None
  }

  function Lookup(s: Site, q: Query): Option<Response> {
    LookupKey(s, KeyOf(q))
  }

  /** A response that is not cached under the key is computed and stored for 30 seconds. */
  function AfterListing(db: Database, s: Site, q: Query, key: string): Site {
    if LookupKey(s, key).Some? then s
    else s.(cache := s.cache[key := Cached(Answer(db, s, q), s.now + 1000 * LIST_TTL_SECONDS)])
  }

  /** What `findActiveAuctions` returns: the cached response if there is one, otherwise a fresh answer. */
  function Listed(db: Database, s: Site, q: Query): Response {
    Lookup(s, q).GetOr(Answer(db, s, q))
  }

  function NextSite(config: BidConfig, db: Database, s: Site, step: Step): Site {
    match step
    case Pass(to) => if s.now <= to then s.(now := to) else s
    case OnAuction(id, action) =>
      s.(auctions := s.auctions[id := Next(config, At(s, id), action)],
         cache := if Invalidates(At(s, id), action) then Invalidated(s.cache) else s.cache)
    case ChangeImages(id, url) =>
      if id in s.auctions && s.auctions[id].auction.row.Some? then
        var a := s.auctions[id].auction;
        var row := a.row.value;
        var shown := row.(details := row.details.(mainImageUrl := url));
        s.(auctions := s.auctions[id := s.auctions[id].(auction := a.(row := Some(shown)))], cache := Invalidated(s.cache))
      else s
    case List(q) => AfterListing(db, s, q, KeyOf(q))
  }

  function RunSite(config: BidConfig, db: Database, s: Site, steps: seq<Step>): Site
    decreases |steps|
  {
    if steps == [] then s else RunSite(config, db, NextSite(config, db, s, steps[0]), steps[1..])
  }

  /** Invalidation removes the cached lists and nothing else. */
  lemma InvalidatedExactly(cache: map<string, Cached>, key: string)
    ensures key in Invalidated(cache) <==> key in cache && !("auctions:active:" <= key)
    ensures key in Invalidated(cache) ==> Invalidated(cache)[key] == cache[key]
  {
  }

  /** Whether the owner may cancel now. */
  predicate Cancelable(a: Auctions.Auction, user: int) {
    && a.row.Some? && a.row.value.ownerId == user
    && (a.row.value.status == Auctions.Pending || (a.row.value.status == Auctions.Active && a.bids == []))
  }

  /**
   The lists are invalidated exactly by a start job that makes its auction ACTIVE and comes to its end,
   by an end job that reads a price and comes to its end, and by an owner's cancellation or edit that goes through.
   */
  lemma InvalidatesExactly(s: State, action: Action)
    ensures var a := s.auction;
            Invalidates(s, action) <==>
              match action
              case StartJob(setup) =>
                && a.startJob.Some? && a.startJob.value <= s.now && setup == Auctions.SetUp
                && a.row.Some? && a.row.value.status == Auctions.Pending && s.now + 1000 <= a.row.value.endTime
              case EndJob(crash) =>
                && a.endJob.Some? && a.endJob.value <= s.now && crash == Auctions.NoCrash
                && ViewOf(a.keys, s.now).price != None && ViewOf(a.keys, s.now).price != Some(0)
              case CancelAuction(user) => Cancelable(a, user)
              case UpdateAuction(user, changes) =>
                && a.row.Some? && a.row.value.ownerId == user
                && (a.row.value.status == Auctions.Pending || a.row.value.status == Auctions.Active)
                && (changes.endTime.Some? ==>
                      && s.now < changes.endTime.value && a.row.value.endTime < changes.endTime.value
                      && (a.row.value.status == Auctions.Pending || a.bids == []))
              case _ => false
  {
    match action
    case CancelAuction(user) => Operations.CanceledExactly(s.auction, user);
    case UpdateAuction(user, changes) => Operations.UpdateAllowedExactly(s.auction, s.now, user, changes);
    case _ =>
  }

  // --- Thirty seconds ---

  /** The step invalidates the cached lists. */
  predicate StepInvalidates(s: Site, step: Step) {
    match step
    case OnAuction(id, action) => Invalidates(At(s, id), action)
    case ChangeImages(id, _) => id in s.auctions && s.auctions[id].auction.row.Some?
    case _ => false
  }

  predicate UninvalidatedRun(config: BidConfig, db: Database, s: Site, steps: seq<Step>)
    decreases |steps|
  {
    steps == []
    || (!StepInvalidates(s, steps[0]) && UninvalidatedRun(config, db, NextSite(config, db, s, steps[0]), steps[1..]))
  }

  predicate Holds(s: Site, q: Query, cached: Cached) {
    KeyOf(q) in s.cache && s.cache[KeyOf(q)] == cached
  }

  lemma HoldsStep(config: BidConfig, db: Database, s: Site, step: Step, q: Query, cached: Cached)
    requires Holds(s, q, cached) && s.now < cached.deadline && !StepInvalidates(s, step)
    ensures Holds(NextSite(config, db, s, step), q, cached) && s.now <= NextSite(config, db, s, step).now
  {
  }

  lemma {:induction false} SiteTimePasses(config: BidConfig, db: Database, s: Site, steps: seq<Step>)
    ensures s.now <= RunSite(config, db, s, steps).now
    decreases |steps|
  {
    if steps == [] {
    } else {
      SiteTimePasses(config, db, NextSite(config, db, s, steps[0]), steps[1..]);
    }
  }

  lemma {:induction false} HoldsAlways(config: BidConfig, db: Database, s: Site, steps: seq<Step>, q: Query, cached: Cached)
    requires Holds(s, q, cached) && UninvalidatedRun(config, db, s, steps)
    requires RunSite(config, db, s, steps).now < cached.deadline
    ensures Holds(RunSite(config, db, s, steps), q, cached)
    decreases |steps|
  {
    if steps == [] {
    } else {
      SiteTimePasses(config, db, s, steps);
      HoldsStep(config, db, s, steps[0], q, cached);
      HoldsAlways(config, db, NextSite(config, db, s, steps[0]), steps[1..], q, cached);
    }
  }

  /**
   A list that was not cached is answered from the database, and that answer is given again for thirty
   seconds, as long as nothing invalidates it; after that it is not.
   */
  lemma CachedForThirtySeconds(config: BidConfig, db: Database, s: Site, q: Query, steps: seq<Step>, later: int)
    requires Lookup(s, q).None? && UninvalidatedRun(config, db, NextSite(config, db, s, List(q)), steps)
    ensures var t := NextSite(config, db, s, List(q));
            var u := RunSite(config, db, t, steps);
            && Listed(db, s, q) == Answer(db, s, q)
            && (u.now < s.now + 30_000 ==> Lookup(u, q) == Some(Answer(db, s, q)))
            && (Lookup(t.(now := later), q).Some? <==> later < s.now + 30_000)
  {
    var t := NextSite(config, db, s, List(q));
    var u := RunSite(config, db, t, steps);
    ListIsAfterListing(config, db, s, q);
    var cached := Cached(Answer(db, s, q), s.now + 30_000);
    assert Holds(t, q, cached);
    if u.now < s.now + 30_000 { HoldsAlways(config, db, t, steps, q, cached); }
  }

  // --- Steps that change the ACTIVE rows without invalidating ---

  /** Reconciliation ending an overdue auction, or a start or end job that dies between its commit and the invalidation. */
  predicate Uncovered(s: State, action: Action) {
    var a := s.auction;
    match action
    case ReconcileRow => Auctions.Orphaned(a, s.now) && Auctions.SecondsLeft(s.now, a.row.value.endTime) <= 0
    case EndJob(crash) =>
      && a.endJob.Some? && a.endJob.value <= s.now
      && crash in {Auctions.AfterCommit, Auctions.AfterCleanup}
      && Auctions.FinalPrice(a, s.now).Some? && ActiveRow(a).Some?
    case StartJob(setup) =>
      && a.startJob.Some? && a.startJob.value <= s.now
      && setup in {Auctions.DiesBeforeRedis, Auctions.DiesBeforeQueue, Auctions.DiesBeforeCache}
      && a.row.Some? && a.row.value.status == Auctions.Pending && Auctions.SecondsLeft(s.now, a.row.value.endTime) > 0
    case _ => false
  }

  /** Of the steps that do not invalidate, exactly the uncovered ones change the ACTIVE row, by taking it away or adding it. */
  lemma ChangesUnnoticedExactly(config: BidConfig, s: State, action: Action)
    requires !Invalidates(s, action)
    ensures ActiveRow(Next(config, s, action).auction) != ActiveRow(s.auction) <==> Uncovered(s, action)
    ensures Uncovered(s, action) ==>
              (ActiveRow(s.auction).Some? <==> ActiveRow(Next(config, s, action).auction).None?)
  {
  }

  predicate CoveredRun(config: BidConfig, db: Database, s: Site, steps: seq<Step>)
    decreases |steps|
  {
    steps == [] ||
    (&& (steps[0].OnAuction? ==> !Uncovered(At(s, steps[0].id), steps[0].action))
     && CoveredRun(config, db, NextSite(config, db, s, steps[0]), steps[1..]))
  }

  // --- Coherence ---

  /** Every cached list is what the database would answer now. */
  ghost predicate Coherent(db: Database, s: Site) {
    forall q :: KeyOf(q) in s.cache ==> s.cache[KeyOf(q)].response == Answer(db, s, q)
  }

  lemma InvalidatedIsCoherent(db: Database, s: Site, cache: map<string, Cached>)
    requires s.cache == Invalidated(cache)
    ensures Coherent(db, s)
  {
    forall q | KeyOf(q) in s.cache
      ensures s.cache[KeyOf(q)].response == Answer(db, s, q)
    {
      ListKeysMatch(q);
    }
  }

  lemma SameRowsStayCoherent(db: Database, s: Site, t: Site)
    requires Coherent(db, s) && t.cache == s.cache && ActiveRows(t) == ActiveRows(s)
    ensures Coherent(db, t)
  {
    forall q | KeyOf(q) in t.cache
      ensures t.cache[KeyOf(q)].response == Answer(db, t, q)
    {
      assert KeyOf(q) in s.cache;
    }
  }

  lemma StoringStaysCoherent(db: Database, s: Site, t: Site, stored: Query, deadline: int)
    requires Coherent(db, s) && t.auctions == s.auctions
    requires t.cache == s.cache[KeyOf(stored) := Cached(Answer(db, s, stored), deadline)]
    ensures Coherent(db, t)
  {
    assert ActiveRows(t) == ActiveRows(s);
    forall q | KeyOf(q) in t.cache
      ensures t.cache[KeyOf(q)].response == Answer(db, t, q)
    {
      if KeyOf(q) == KeyOf(stored) {
        SameKeyExactly(q, stored);
      } else {
        assert KeyOf(q) in s.cache;
      }
    }
  }

  lemma CoherentOnAuction(config: BidConfig, db: Database, s: Site, id: int, action: Action)
    requires Coherent(db, s) && !Uncovered(At(s, id), action)
    ensures Coherent(db, NextSite(config, db, s, OnAuction(id, action)))
  {
    var t := NextSite(config, db, s, OnAuction(id, action));
    if Invalidates(At(s, id), action) {
      InvalidatedIsCoherent(db, t, s.cache);
    } else {
      ChangesUnnoticedExactly(config, At(s, id), action);
      assert forall j :: j != id ==> (j in t.auctions <==> j in s.auctions);
      assert forall j :: j != id && j in t.auctions ==> t.auctions[j] == s.auctions[j];
      assert ActiveRows(t) == ActiveRows(s);
      SameRowsStayCoherent(db, s, t);
    }
  }

  lemma CoherentStep(config: BidConfig, db: Database, s: Site, step: Step)
    requires Coherent(db, s)
    requires step.OnAuction? ==> !Uncovered(At(s, step.id), step.action)
    ensures Coherent(db, NextSite(config, db, s, step))
  {
    var t := NextSite(config, db, s, step);
    match step
    case Pass(_) =>
      assert ActiveRows(t) == ActiveRows(s);
      SameRowsStayCoherent(db, s, t);
    case OnAuction(id, action) =>
      CoherentOnAuction(config, db, s, id, action);
    case ChangeImages(_, _) =>
      if t != s { InvalidatedIsCoherent(db, t, s.cache); }
    case List(q) =>
      if t != s { StoringStaysCoherent(db, s, t, q, t.cache[KeyOf(q)].deadline); }
  }

  lemma {:induction false} CoherentAlways(config: BidConfig, db: Database, s: Site, steps: seq<Step>)
    requires Coherent(db, s) && CoveredRun(config, db, s, steps)
    ensures Coherent(db, RunSite(config, db, s, steps))
    decreases |steps|
  {
    if steps == [] {
    } else {
      CoherentStep(config, db, s, steps[0]);
      CoherentAlways(config, db, NextSite(config, db, s, steps[0]), steps[1..]);
    }
  }

  /** The rows a list is computed from are those of the ACTIVE auctions. */
  lemma ActiveRowsExactly(s: Site, id: int)
    ensures id in ActiveRows(s) <==>
              && id in s.auctions && s.auctions[id].auction.row.Some?
              && s.auctions[id].auction.row.value.status == Auctions.Active
    ensures id in ActiveRows(s) ==> Some(ActiveRows(s)[id]) == s.auctions[id].auction.row
  {
  }

  /**
   Starting from an empty cache, a list is always what the database answers for its query on the
   current rows, cached or not, labelled with the page and the limit asked for.
   */
  lemma ListsAreFresh(config: BidConfig, db: Database, s: Site, steps: seq<Step>, q: Query)
    requires s.cache == map[] && CoveredRun(config, db, s, steps)
    ensures var t := RunSite(config, db, s, steps);
            Listed(db, t, q) == Response(db(DbQueryOf(q), ActiveRows(t)), q.page, q.limit)
  {
    CoherentAlways(config, db, s, steps);
  }

  lemma UncoveredChangesTheCount(config: BidConfig, db: Database, s: Site, id: int, action: Action)
    requires Uncovered(At(s, id), action)
    ensures var t := NextSite(config, db, s, OnAuction(id, action));
            |ActiveRows(t)| != |ActiveRows(s)| && t.cache == s.cache
  {
    var t := NextSite(config, db, s, OnAuction(id, action));
    ChangesUnnoticedExactly(config, At(s, id), action);
    if id in ActiveRows(s) {
      assert ActiveRows(s) == ActiveRows(t)[id := ActiveRows(s)[id]];
    } else {
      assert ActiveRows(t) == ActiveRows(s)[id := ActiveRows(t)[id]];
    }
  }

  /** An uncovered step leaves the lists cached before it stale: an unfiltered one counts a row that is gone, or misses one. */
  lemma UncoveredLeavesStale(config: BidConfig, db: Database, s: Site, id: int, action: Action, q: Query)
    requires forall rows :: db(DbQueryOf(q), rows).total == |rows|
    requires Coherent(db, s) && Lookup(s, q).Some? && Uncovered(At(s, id), action)
    ensures var t := NextSite(config, db, s, OnAuction(id, action)); Listed(db, t, q) != Answer(db, t, q)
  {
    var t := NextSite(config, db, s, OnAuction(id, action));
    UncoveredChangesTheCount(config, db, s, id, action);
    assert Lookup(t, q) == Lookup(s, q);
  }

  // --- Deleting keys by pattern ---

  /** SCAN's promise: the pages hold only matching keys, and every matching key that stays put is on one. */
  ghost predicate ScanPages(pages: seq<seq<string>>, keys: set<string>, matches: string -> bool) {
    && pages != []
    && (forall i, key :: 0 <= i < |pages| && key in pages[i] ==> matches(key))
    && (forall key :: key in keys && matches(key) ==> exists i :: 0 <= i < |pages| && key in pages[i])
  }

  class Store<V> {
    var entries: map<string, V>

    constructor ()
      ensures entries == map[]
    {
      entries := map[];
    }

    method Del(keys: seq<string>)
      modifies this
      ensures forall key :: key in entries <==> key in old(entries) && key !in keys
      ensures forall key :: key in entries ==> entries[key] == old(entries)[key]
    {
      entries := map key | key in entries && key !in keys :: entries[key];
    }

    /** Follows the scan cursor from 0 until it comes back to 0, deleting the keys found on the way. */
    method InvalidateCache(pages: seq<seq<string>>, ghost matches: string -> bool) returns (totalDeleted: nat)
      requires ScanPages(pages, entries.Keys, matches)
      modifies this
      ensures forall key :: key in entries <==> key in old(entries) && !matches(key)
      ensures forall key :: key in entries ==> entries[key] == old(entries)[key]
    {
      totalDeleted := 0;
      var cursor := 0;
      var more := true;
      while more
        invariant 0 <= cursor < |pages| || (!more && cursor == 0)
        invariant forall key :: key in entries ==> key in old(entries) && entries[key] == old(entries)[key]
        invariant forall key :: key in old(entries) && !matches(key) ==> key in entries
        invariant forall i, key :: 0 <= i < (if more then cursor else |pages|) && key in pages[i] ==> key !in entries
        decreases more, |pages| - cursor
      {
        var foundKeys := pages[cursor];
        var nextCursor := if cursor + 1 < |pages| then cursor + 1 else 0;
        if |foundKeys| > 0 {
          Del(foundKeys);
          totalDeleted := totalDeleted + |foundKeys|;
        }
        cursor := nextCursor;
        more := cursor != 0;
      }
    }
  }

  /** What is cached under a key, while it is alive; otherwise a fresh answer, which is then cached for 30 seconds. */
  method CacheAside(store: Store<Cached>, cacheKey: string, db: Database, rows: map<int, Auctions.Row>, now: int, q: Query)
    returns (response: Response)
    modifies store
    ensures var was := old(store.entries);
            if cacheKey in was && now < was[cacheKey].deadline
            then response == was[cacheKey].response && store.entries == was
            else response == Response(db(DbQueryOf(q), rows), q.page, q.limit)
                 && store.entries == was[cacheKey := Cached(response, now + 1000 * LIST_TTL_SECONDS)]
  {
    if cacheKey in store.entries && now < store.entries[cacheKey].deadline {
      return store.entries[cacheKey].response;
    }
    response := Response(db(DbQueryOf(q), rows), q.page, q.limit);
    store.entries := store.entries[cacheKey := Cached(response, now + 1000 * LIST_TTL_SECONDS)];
  }

  /** The site after a list, as the state machine takes it. */
  lemma ListIsAfterListing(config: BidConfig, db: Database, s: Site, q: Query)
    ensures NextSite(config, db, s, List(q)) == AfterListing(db, s, q, KeyOf(q))
  {
  }

  method FindActiveAuctions(store: Store<Cached>, db: Database, rows: map<int, Auctions.Row>, now: int, q: Query,
                            ghost config: BidConfig, ghost site: Site)
    returns (response: Response)
    requires site.cache == store.entries && site.now == now && rows == ActiveRows(site)
    modifies store
    ensures response == Listed(db, site, q)
    ensures store.entries == NextSite(config, db, site, List(q)).cache
  {
    var cacheKey := BuildAuctionsCacheKey(q);
    ListIsAfterListing(config, db, site, q);
    response := CacheAside(store, cacheKey, db, rows, now, q);
  }
}
