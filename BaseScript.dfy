/** Base.py: one league over its season, from an empty store, stopping at
    the first fixture not yet played and leaving out US national teams. */
module BaseScript {
  import opened Common
  import opened MatchStore
  import opened Schedule

  /** `extract_matches_for_date`: merge one day's page into the store and
      answer whether the walk goes on. */
  method ExtractMatchesForDate(store: Store<string, Match>, code: string, dateStr: string, page: Fetch<TaggedRow>)
    returns (more: bool)
    modifies store
    ensures (store.Contents(), more) == TDay(old(store.Contents()), UsFiltered, code, dateStr, page)
  {
    if page.Failed? {
      return true;
    }
    var tables := page.tables;
    ghost var atDay := store.Contents();
    var t := 0;
    while t < |tables|
      invariant 0 <= t <= |tables|
      invariant TTables(store.Contents(), UsFiltered, code, dateStr, tables[t..]) == TTables(atDay, UsFiltered, code, dateStr, tables)
    {
      var table := tables[t];
      assert tables[t..][0] == table && tables[t..][1..] == tables[t + 1..];
      var dateText := DateText(table, dateStr);
      var rows := table.rows;
      ghost var atTable := store.Contents();
      var r := 0;
      while r < |rows|
        invariant 0 <= r <= |rows|
        invariant TRows(store.Contents(), UsFiltered, code, dateText, rows[r..]) == TRows(atTable, UsFiltered, code, dateText, rows)
      {
        var row := rows[r];
        assert rows[r..][0] == row && rows[r..][1..] == rows[r + 1..];
        var verdict := ClassifyTagged(row, true);
        if verdict.Stop? {
          return false;
        }
        if verdict.Keep? && verdict.c.gameId !in store.entries {
          var c := verdict.c;
          store.Set(c.gameId, Match(c.gameId, dateText, c.team1, c.team2, c.score, c.team1 + " VS " + c.team2,
                                    code, EspnRoot + c.href, None));
        }
        r := r + 1;
      }
      t := t + 1;
    }
    return true;
  }

  /** One turn of the main loop: process the day `current` and say whether
      the walk goes on to the next day. */
  method VisitDay(store: Store<string, Match>, code: string, current: int, end: int, dateString: int -> string,
                  fetch: (string, string) -> Fetch<TaggedRow>,
                  ghost v: Variant, ghost final: (Matches, seq<int>), ghost visited: seq<int>)
    returns (shouldContinue: bool)
    requires v == UsFiltered && current <= end
    requires WalkRemains(final, store.Contents(), visited, v, code, current, end, dateString, fetch)
    modifies store
    ensures shouldContinue ==> WalkRemains(final, store.Contents(), visited + [current], v, code, current + 1, end, dateString, fetch)
    ensures !shouldContinue ==> final == (store.Contents(), visited + [current])
  {
    ghost var before := store.Contents();
    var dateStr := dateString(current);
    shouldContinue := ExtractMatchesForDate(store, code, dateStr, fetch(code, dateStr));
    WalkAdvance(final, before, visited, v, code, current, end, dateString, fetch, store.Contents(), shouldContinue);
  }

  /** The main loop for one league: days `start` to `end` inclusive, breaking
      after the first day that answers `false`; returns the array written to
      the league's file and the days visited. */
  method ScrapeLeague(code: string, start: int, end: int, dateString: int -> string,
                      fetch: (string, string) -> Fetch<TaggedRow>)
    returns (saved: seq<Match>, visited: seq<int>)
    ensures saved == LeagueMatches(UsFiltered, code, start, end, dateString, fetch)
    ensures visited == LeagueWalk(UsFiltered, code, start, end, dateString, fetch).1
  {
    ghost var v := UsFiltered;
    ghost var final := LeagueWalk(v, code, start, end, dateString, fetch);
    var store := new Store<string, Match>.Empty();
    var current := start;
    visited := [];
    WalkStart(v, code, start, end, dateString, fetch);
    while current <= end
      invariant WalkRemains(final, store.Contents(), visited, v, code, current, end, dateString, fetch)
    {
      var shouldContinue := VisitDay(store, code, current, end, dateString, fetch, v, final, visited);
      visited := visited + [current];
      if !shouldContinue {
        break;
      }
      current := current + 1;
    }
    if current > end {
      WalkDone(final, store.Contents(), visited, v, code, current, end, dateString, fetch);
    }
    saved := store.Contents().Values();
  }
}
