/** What the scan of `populate_db` (src/database.rs) guarantees: which ids it requests, what it
    saves, where it stops, and what the next run does with the table it leaves behind. */
module Sync {
  import opened Comics
  import opened Request
  import opened Database

  // ---------------------------------------------------------------------------
  // The scan from a given id

  /** Every requested id lies in `i..=frontier`, is neither stored nor 404, and the ids are
      requested in strictly ascending order. */
  lemma {:induction false} RunRequests(i: nat, frontier: U32, found: seq<U32>, fetch: U32 -> FetchResult)
    ensures forall k :: 0 <= k < |RunFrom(i, frontier, found, fetch).requested| ==>
      i <= RunFrom(i, frontier, found, fetch).requested[k] <= frontier
      && IsCandidate(RunFrom(i, frontier, found, fetch).requested[k], found)
    ensures forall a, b :: 0 <= a < b < |RunFrom(i, frontier, found, fetch).requested| ==>
      RunFrom(i, frontier, found, fetch).requested[a] < RunFrom(i, frontier, found, fetch).requested[b]
    decreases if i <= frontier then frontier + 1 - i else 0
  {
    if i <= frontier {
      RunRequests(i + 1, frontier, found, fetch);
    }
  }

  /** Every requested id but a failing last one was fetched, in order; a halted run stops at
      its last requested id, whose fetch failed with the recorded error. */
  lemma RunFetches(i: nat, frontier: U32, found: seq<U32>, fetch: U32 -> FetchResult)
    ensures var run := RunFrom(i, frontier, found, fetch);
      |run.fetched| + (if run.halted.Some? then 1 else 0) == |run.requested|
    ensures var run := RunFrom(i, frontier, found, fetch);
      forall k :: 0 <= k < |run.fetched| ==> fetch(run.requested[k]) == Fetched(run.fetched[k])
    ensures var run := RunFrom(i, frontier, found, fetch);
      run.halted.Some? ==>
        run.halted.value.id == run.requested[|run.requested| - 1]
        && fetch(run.halted.value.id) == Failed(run.halted.value.error)
  {
    RunLengths(i, frontier, found, fetch);
    RunFetchedOutcomes(i, frontier, found, fetch);
    RunHaltLast(i, frontier, found, fetch);
    RunHaltError(i, frontier, found, fetch);
  }

  /** One id is requested per fetched comic, plus the failing one of a halted run. */
  lemma {:induction false} RunLengths(i: nat, frontier: U32, found: seq<U32>, fetch: U32 -> FetchResult)
    ensures var run := RunFrom(i, frontier, found, fetch);
      |run.fetched| + (if run.halted.Some? then 1 else 0) == |run.requested|
    decreases if i <= frontier then frontier + 1 - i else 0
  {
    if i <= frontier {
      RunLengths(i + 1, frontier, found, fetch);
    }
  }

  /** The k-th fetched comic is what fetching the k-th requested id returned. */
  lemma RunFetchedOutcomes(i: nat, frontier: U32, found: seq<U32>, fetch: U32 -> FetchResult)
    ensures |RunFrom(i, frontier, found, fetch).fetched| <= |RunFrom(i, frontier, found, fetch).requested|
    ensures forall k :: 0 <= k < |RunFrom(i, frontier, found, fetch).fetched| ==>
      fetch(RunFrom(i, frontier, found, fetch).requested[k])
        == Fetched(RunFrom(i, frontier, found, fetch).fetched[k])
  {
    RunLengths(i, frontier, found, fetch);
    forall k | 0 <= k < |RunFrom(i, frontier, found, fetch).fetched|
      ensures fetch(RunFrom(i, frontier, found, fetch).requested[k])
           == Fetched(RunFrom(i, frontier, found, fetch).fetched[k])
    {
      RunFetchedAt(i, frontier, found, fetch, k);
    }
  }

  lemma {:induction false} RunFetchedAt(i: nat, frontier: U32, found: seq<U32>, fetch: U32 -> FetchResult, k: nat)
    requires k < |RunFrom(i, frontier, found, fetch).fetched|
    ensures k < |RunFrom(i, frontier, found, fetch).requested|
      && fetch(RunFrom(i, frontier, found, fetch).requested[k])
         == Fetched(RunFrom(i, frontier, found, fetch).fetched[k])
    decreases if i <= frontier then frontier + 1 - i else 0
  {
    if i <= frontier {
      if !IsCandidate(i, found) {
        RunFetchedAt(i + 1, frontier, found, fetch, k);
      } else if fetch(i).Fetched? && k > 0 {
        RunFetchedAt(i + 1, frontier, found, fetch, k - 1);
      }
    }
  }

  /** A halted run ends with the id it halts at. */
  lemma {:induction false} RunHaltLast(i: nat, frontier: U32, found: seq<U32>, fetch: U32 -> FetchResult)
    ensures var run := RunFrom(i, frontier, found, fetch);
      run.halted.Some? ==> |run.requested| >= 1 && run.halted.value.id == run.requested[|run.requested| - 1]
    decreases if i <= frontier then frontier + 1 - i else 0
  {
    if i <= frontier {
      RunHaltLast(i + 1, frontier, found, fetch);
      var rest := RunFrom(i + 1, frontier, found, fetch);
      if IsCandidate(i, found) && fetch(i).Fetched? && rest.halted.Some? {
        LastOfPrepended(i, rest.requested);
      }
    }
  }

  /** The error a halted run records is the one fetching the halting id returned. */
  lemma {:induction false} RunHaltError(i: nat, frontier: U32, found: seq<U32>, fetch: U32 -> FetchResult)
    ensures var run := RunFrom(i, frontier, found, fetch);
      run.halted.Some? ==> fetch(run.halted.value.id) == Failed(run.halted.value.error)
    decreases if i <= frontier then frontier + 1 - i else 0
  {
    if i <= frontier {
      RunHaltError(i + 1, frontier, found, fetch);
    }
  }

  lemma LastOfPrepended(x: U32, s: seq<U32>)
    requires |s| >= 1
    ensures |[x] + s| >= 1 && ([x] + s)[|[x] + s| - 1] == s[|s| - 1]
  {
  }

  /** No candidate is passed over: every id in `i..=frontier` that is neither stored nor 404 is
      requested, unless the run halted before reaching it. */
  lemma {:induction false} RunCovers(i: nat, frontier: U32, found: seq<U32>, fetch: U32 -> FetchResult, j: nat)
    requires i <= j <= frontier && IsCandidate(j, found)
    requires RunFrom(i, frontier, found, fetch).halted.Some? ==> j <= RunFrom(i, frontier, found, fetch).halted.value.id
    ensures j in RunFrom(i, frontier, found, fetch).requested
    decreases frontier + 1 - i
  {
    if j != i {
      if IsCandidate(i, found) {
        match fetch(i) {
          case Failed(_) =>
            // ruled out by the requires: the run halts at i, below j
          case Fetched(c) =>
            RunCovers(i + 1, frontier, found, fetch, j);
        }
      } else {
        RunCovers(i + 1, frontier, found, fetch, j);
      }
    }
  }

  /** Without candidates left, the scan requests nothing and ends without halting. */
  lemma {:induction false} RunQuiet(i: nat, frontier: U32, found: seq<U32>, fetch: U32 -> FetchResult)
    requires forall j :: i <= j <= frontier ==> !IsCandidate(j, found)
    ensures RunFrom(i, frontier, found, fetch) == SyncRun([], [], None)
    decreases if i <= frontier then frontier + 1 - i else 0
  {
    if i <= frontier {
      RunQuiet(i + 1, frontier, found, fetch);
    }
  }

  /** The first id requested is the smallest candidate. */
  lemma {:induction false} RunStartsAt(i: nat, frontier: U32, found: seq<U32>, fetch: U32 -> FetchResult, j: nat)
    requires i <= j <= frontier && IsCandidate(j, found)
    requires forall m :: i <= m < j ==> !IsCandidate(m, found)
    ensures |RunFrom(i, frontier, found, fetch).requested| >= 1
    ensures RunFrom(i, frontier, found, fetch).requested[0] == j
    decreases j - i
  {
    if i < j {
      RunStartsAt(i + 1, frontier, found, fetch, j);
    }
  }

  // ---------------------------------------------------------------------------
  // One call of `populate_db`

  /** A run requests only ids in `1..=frontier` that are neither stored nor 404, in strictly
      ascending order, and requests every such id up to the one it halts at. */
  lemma SyncRequests(rows: seq<Row>, server: Server)
    ensures forall k :: 0 <= k < |SyncOf(rows, server).requested| ==>
      1 <= SyncOf(rows, server).requested[k] <= Frontier(server)
      && SyncOf(rows, server).requested[k] != KnownBadId
      && SyncOf(rows, server).requested[k] !in FoundIds(rows)
    ensures forall a, b :: 0 <= a < b < |SyncOf(rows, server).requested| ==>
      SyncOf(rows, server).requested[a] < SyncOf(rows, server).requested[b]
    ensures forall j ::
      (1 <= j <= Frontier(server) && j != KnownBadId && j !in FoundIds(rows)
       && (SyncOf(rows, server).halted.Some? ==> j <= SyncOf(rows, server).halted.value.id))
      ==> j in SyncOf(rows, server).requested
  {
    RunRequests(1, Frontier(server), FoundIds(rows), FetchOutcomes(server));
    forall j | 1 <= j <= Frontier(server) && j != KnownBadId && j !in FoundIds(rows)
               && (SyncOf(rows, server).halted.Some? ==> j <= SyncOf(rows, server).halted.value.id)
      ensures j in SyncOf(rows, server).requested
    {
      RunCovers(1, Frontier(server), FoundIds(rows), FetchOutcomes(server), j);
    }
  }

  /** A run saves, in order, the comics its successful fetches returned, and a halted run ends
      with the id whose fetch failed. */
  lemma SyncSaves(rows: seq<Row>, server: Server)
    ensures |SyncOf(rows, server).fetched| + (if SyncOf(rows, server).halted.Some? then 1 else 0)
         == |SyncOf(rows, server).requested|
    ensures forall k :: 0 <= k < |SyncOf(rows, server).fetched| ==>
      FetchOutcome(SyncOf(rows, server).requested[k], server) == Fetched(SyncOf(rows, server).fetched[k])
    ensures SyncOf(rows, server).halted.Some? ==>
      SyncOf(rows, server).halted.value.id
        == SyncOf(rows, server).requested[|SyncOf(rows, server).requested| - 1]
      && FetchOutcome(SyncOf(rows, server).halted.value.id, server)
        == Failed(SyncOf(rows, server).halted.value.error)
  {
    RunFetches(1, Frontier(server), FoundIds(rows), FetchOutcomes(server));
  }

  /** Every id requested before the failing one is smaller than it: nothing at or above the
      failing id is fetched or saved. */
  lemma NothingAfterHalt(rows: seq<Row>, server: Server)
    requires SyncOf(rows, server).halted.Some?
    ensures forall k :: 0 <= k < |SyncOf(rows, server).requested| - 1 ==>
      SyncOf(rows, server).requested[k] < SyncOf(rows, server).halted.value.id
  {
    RunRequests(1, Frontier(server), FoundIds(rows), FetchOutcomes(server));
    RunFetches(1, Frontier(server), FoundIds(rows), FetchOutcomes(server));
  }

  // ---------------------------------------------------------------------------
  // The next call of `populate_db`

  /** The remote serves every comic under its own number. Id 0 is left free: it asks for
      the newest comic, whatever its number. */
  predicate ServesOwnNumbers(fetch: U32 -> FetchResult)
  {
    forall id: U32 :: 1 <= id && fetch(id).Fetched? ==> fetch(id).comic.num == id
  }

  /** The premise admits a remote whose newest comic has a number other than 0: here comic
      2900 is the newest and every other request fails. */
  lemma ServesOwnNumbersWithNewest(newest: XkcdComic, e: HttpError)
    requires newest.num == 2900
    ensures var server := (url: string, k: nat) => if url == LatestUrl then Answer(newest) else Fault(e);
      ServesOwnNumbers(FetchOutcomes(server)) && Frontier(server) == 2900
  {
    var server := (url: string, k: nat) => if url == LatestUrl then Answer(newest) else Fault(e);
    forall id: U32 | 1 <= id
      ensures FetchOutcomes(server)(id).Failed?
    {
      assert ComicUrl(id) != LatestUrl;
    }
  }

  /** After a run that did not halt and whose inserts all succeeded, a second run against the
      same remote has nothing left to fetch. */
  lemma SecondRunFetchesNothing(rows: seq<Row>, server: Server, accepted: XkcdComic -> bool)
    requires ServesOwnNumbers(FetchOutcomes(server))
    requires SyncOf(rows, server).halted.None?
    requires forall k :: 0 <= k < |SyncOf(rows, server).fetched| ==> accepted(SyncOf(rows, server).fetched[k])
    ensures SyncOf(rows + InsertedRows(SyncOf(rows, server).fetched, accepted), server) == SyncRun([], [], None)
  {
    var run := SyncOf(rows, server);
    var frontier := Frontier(server);
    var found := FoundIds(rows);
    var after := FoundIds(rows + InsertedRows(run.fetched, accepted));
    FoundAfterInsert(rows, run.fetched, accepted);
    RunFetches(1, frontier, found, FetchOutcomes(server));
    forall j | 1 <= j <= frontier
      ensures !IsCandidate(j, after)
    {
      if IsCandidate(j, found) {
        RunCovers(1, frontier, found, FetchOutcomes(server), j);
        var k :| 0 <= k < |run.requested| && run.requested[k] == j;
        assert FetchOutcomes(server)(j) == Fetched(run.fetched[k]);
        assert run.fetched[k].num == j;
      }
    }
    RunQuiet(1, frontier, after, FetchOutcomes(server));
  }

  /** After a run halted at some id, with the comics it fetched stored, the next run asks for
      that id first, provided the remote then still reaches it. */
  lemma NextRunResumesAtHalt(rows: seq<Row>, server: Server, accepted: XkcdComic -> bool, later: Server)
    requires ServesOwnNumbers(FetchOutcomes(server))
    requires SyncOf(rows, server).halted.Some?
    requires forall k :: 0 <= k < |SyncOf(rows, server).fetched| ==> accepted(SyncOf(rows, server).fetched[k])
    requires SyncOf(rows, server).halted.value.id <= Frontier(later)
    ensures |SyncOf(rows + InsertedRows(SyncOf(rows, server).fetched, accepted), later).requested| >= 1
    ensures SyncOf(rows + InsertedRows(SyncOf(rows, server).fetched, accepted), later).requested[0]
         == SyncOf(rows, server).halted.value.id
  {
    var run := SyncOf(rows, server);
    var h := run.halted.value.id;
    var after := FoundIds(rows + InsertedRows(run.fetched, accepted));
    BelowHaltStored(rows, server, accepted);
    HaltNotStored(rows, server, accepted);
    RunStartsAt(1, Frontier(later), after, FetchOutcomes(later), h);
  }

  /** Every candidate below the halting id is stored once the run's comics are. */
  lemma BelowHaltStored(rows: seq<Row>, server: Server, accepted: XkcdComic -> bool)
    requires ServesOwnNumbers(FetchOutcomes(server))
    requires SyncOf(rows, server).halted.Some?
    requires forall k :: 0 <= k < |SyncOf(rows, server).fetched| ==> accepted(SyncOf(rows, server).fetched[k])
    ensures forall m :: 1 <= m < SyncOf(rows, server).halted.value.id ==>
      !IsCandidate(m, FoundIds(rows + InsertedRows(SyncOf(rows, server).fetched, accepted)))
  {
    var run := SyncOf(rows, server);
    var found := FoundIds(rows);
    var after := FoundIds(rows + InsertedRows(run.fetched, accepted));
    RunFetchesBelowHalt(1, Frontier(server), found, FetchOutcomes(server));
    FoundAfterInsert(rows, run.fetched, accepted);
    forall m | 1 <= m < run.halted.value.id
      ensures !IsCandidate(m, after)
    {
      if IsCandidate(m, found) {
        var k :| 0 <= k < |run.fetched| && run.fetched[k].num == m;
        assert accepted(run.fetched[k]);
      }
    }
  }

  /** With a remote that serves comics under their own numbers, a halted run has fetched
      every candidate below the halting id. */
  lemma RunFetchesBelowHalt(i: nat, frontier: U32, found: seq<U32>, fetch: U32 -> FetchResult)
    requires 1 <= i && ServesOwnNumbers(fetch)
    requires RunFrom(i, frontier, found, fetch).halted.Some?
    ensures forall m :: i <= m < RunFrom(i, frontier, found, fetch).halted.value.id && IsCandidate(m, found) ==>
      exists k :: 0 <= k < |RunFrom(i, frontier, found, fetch).fetched|
        && RunFrom(i, frontier, found, fetch).fetched[k].num == m
  {
    var h := RunFrom(i, frontier, found, fetch).halted.value.id;
    forall m | i <= m < h && IsCandidate(m, found)
      ensures exists k ::
        0 <= k < |RunFrom(i, frontier, found, fetch).fetched| && RunFrom(i, frontier, found, fetch).fetched[k].num == m
    {
      FetchedBelowHalt(i, frontier, found, fetch, m);
    }
  }

  lemma FetchedBelowHalt(i: nat, frontier: U32, found: seq<U32>, fetch: U32 -> FetchResult, m: nat)
    requires 1 <= i && ServesOwnNumbers(fetch)
    requires RunFrom(i, frontier, found, fetch).halted.Some?
    requires i <= m < RunFrom(i, frontier, found, fetch).halted.value.id && IsCandidate(m, found)
    ensures exists k ::
      0 <= k < |RunFrom(i, frontier, found, fetch).fetched| && RunFrom(i, frontier, found, fetch).fetched[k].num == m
  {
    var run := RunFrom(i, frontier, found, fetch);
    RunFetches(i, frontier, found, fetch);
    assert run.halted.value.id <= frontier by {
      RunRequests(i, frontier, found, fetch);
    }
    RunCovers(i, frontier, found, fetch, m);
    var k :| 0 <= k < |run.requested| && run.requested[k] == m;
    assert k != |run.requested| - 1;
    FetchedNumber(run.requested[k], fetch, run.fetched[k]);
  }

  lemma FetchedNumber(id: U32, fetch: U32 -> FetchResult, c: XkcdComic)
    requires 1 <= id && ServesOwnNumbers(fetch)
    requires fetch(id) == Fetched(c)
    ensures c.num == id
  {
  }

  /** The halting id is still missing once the run's comics are stored. */
  lemma HaltNotStored(rows: seq<Row>, server: Server, accepted: XkcdComic -> bool)
    requires ServesOwnNumbers(FetchOutcomes(server))
    requires SyncOf(rows, server).halted.Some?
    ensures SyncOf(rows, server).halted.value.id >= 1
    ensures IsCandidate(SyncOf(rows, server).halted.value.id,
                        FoundIds(rows + InsertedRows(SyncOf(rows, server).fetched, accepted)))
  {
    var run := SyncOf(rows, server);
    var h := run.halted.value.id;
    var found := FoundIds(rows);
    FoundAfterInsert(rows, run.fetched, accepted);
    RunFetches(1, Frontier(server), found, FetchOutcomes(server));
    RunRequests(1, Frontier(server), found, FetchOutcomes(server));
    forall k: int | 0 <= k < |run.fetched|
      ensures run.fetched[k].num < h
    {
      assert FetchOutcomes(server)(run.requested[k]) == Fetched(run.fetched[k]);
    }
  }
}
