/** l.py: one league over a fixed range of days, from an empty store,
    stopping at the first fixture not yet played, with the statistics of
    every new match fetched from its match page. */
module LScript {
  import opened Common
  import opened MatchStore
  import opened Schedule

  /** `get_match_stats`: the statistics section's rows folded into a dict;
      `{}` when the request fails or the section is missing. */
  method GetMatchStats(gameId: string, statsFor: string -> StatsFetch) returns (stats: Stats)
    ensures stats == FetchStats(statsFor(gameId))
  {
    var res := statsFor(gameId);
    if res.StatsFailed? || res.section.None? {
      return EmptyDict();
    }
    var rows := res.section.value;
    stats := EmptyDict();
    var i := 0;
    while i < |rows|
      invariant 0 <= i <= |rows|
      invariant StatsFrom(stats, rows[i..]) == StatsFrom(EmptyDict(), rows)
    {
      var row := rows[i];
      assert rows[i..][0] == row && rows[i..][1..] == rows[i + 1..];
      if row.name.Some? && |row.values| >= 2 {
        stats := stats.Put(row.name.value, (row.values[0], row.values[1]));
      }
      i := i + 1;
    }
  }

  /** `extract_matches_for_date`: merge one day's page into the store and
      answer whether the walk goes on. */
  method ExtractMatchesForDate(store: Store<string, Match>, code: string, dateStr: string,
                               page: Fetch<TaggedRow>, statsFor: string -> StatsFetch)
    returns (more: bool)
    modifies store
    ensures (store.Contents(), more) == TDay(old(store.Contents()), WithStats(statsFor), code, dateStr, page)
  {
    var v := WithStats(statsFor);
    if page.Failed? {
      return true;
    }
    var tables := page.tables;
    ghost var atDay := store.Contents();
    var t := 0;
    while t < |tables|
      invariant 0 <= t <= |tables|
      invariant TTables(store.Contents(), v, code, dateStr, tables[t..]) == TTables(atDay, v, code, dateStr, tables)
    {
      var table := tables[t];
      assert tables[t..][0] == table && tables[t..][1..] == tables[t + 1..];
      var dateText := DateText(table, dateStr);
      var rows := table.rows;
      ghost var atTable := store.Contents();
      var r := 0;
      while r < |rows|
        invariant 0 <= r <= |rows|
        invariant TRows(store.Contents(), v, code, dateText, rows[r..]) == TRows(atTable, v, code, dateText, rows)
      {
        var row := rows[r];
        assert rows[r..][0] == row && rows[r..][1..] == rows[r + 1..];
        var verdict := ClassifyTagged(row, false);
        if verdict.Stop? {
          return false;
        }
        if verdict.Keep? && verdict.c.gameId !in store.entries {
          var c := verdict.c;
          var stats := GetMatchStats(c.gameId, statsFor);
          store.Set(c.gameId, Match(c.gameId, dateText, c.team1, c.team2, c.score, c.team1 + " VS " + c.team2,
                                    code, EspnRoot + c.href, Some(stats)));
        }
        r := r + 1;
      }
      t := t + 1;
    }
    return true;
  }

  /** One turn of the main loop: process the day `current` and say whether
      the walk goes on to the next day. */
  method VisitDay(store: Store<string, Match>, code: string, current: int, end: int, dateString: int -> string,
                  fetch: (string, string) -> Fetch<TaggedRow>, statsFor: string -> StatsFetch,
                  ghost v: Variant, ghost final: (Matches, seq<int>), ghost visited: seq<int>)
    returns (more: bool)
    requires v == WithStats(statsFor) && current <= end
    requires WalkRemains(final, store.Contents(), visited, v, code, current, end, dateString, fetch)
    modifies store
    ensures more ==> WalkRemains(final, store.Contents(), visited + [current], v, code, current + 1, end, dateString, fetch)
    ensures !more ==> final == (store.Contents(), visited + [current])
  {
    ghost var before := store.Contents();
    var dateStr := dateString(current);
    more := ExtractMatchesForDate(store, code, dateStr, fetch(code, dateStr), statsFor);
    WalkAdvance(final, before, visited, v, code, current, end, dateString, fetch, store.Contents(), more);
  }

  /** The main loop for one league: days `start` to `end` inclusive, breaking
      after the first day that answers `false`; returns the array written to
      the league's file and the days visited. */
  method ScrapeLeague(code: string, start: int, end: int, dateString: int -> string,
                      fetch: (string, string) -> Fetch<TaggedRow>, statsFor: string -> StatsFetch)
    returns (saved: seq<Match>, visited: seq<int>)
    ensures saved == LeagueMatches(WithStats(statsFor), code, start, end, dateString, fetch)
    ensures visited == LeagueWalk(WithStats(statsFor), code, start, end, dateString, fetch).1
  {
    ghost var v := WithStats(statsFor);
    ghost var final := LeagueWalk(v, code, start, end, dateString, fetch);
    var store := new Store<string, Match>.Empty();
    var current := start;
    visited := [];
    WalkStart(v, code, start, end, dateString, fetch);
    while current <= end
      invariant WalkRemains(final, store.Contents(), visited, v, code, current, end, dateString, fetch)
    {
      var more := VisitDay(store, code, current, end, dateString, fetch, statsFor, v, final, visited);
      visited := visited + [current];
      if !more {
        break;
      }
      current := current + 1;
    }
    if current > end {
      WalkDone(final, store.Contents(), visited, v, code, current, end, dateString, fetch);
    }
    saved := store.Contents().Values();
  }
}
