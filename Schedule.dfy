/** What l.py and Base.py compute, stated once: a day's rows go through the
    checks in order, new matches are inserted first-write-wins, the first
    placeholder score ends the day and the walk, and l.py attaches to every
    new match the statistics of its match page. */
module Schedule {
  import opened Common

  // ---------------------------------------------------------------------------
  // Match statistics: the fold of `get_match_stats`

  /** A `div.LOSQp` statistics row: the text of its `span.OkRBU` label if
      present, and the texts of its `span.bLeWt` values. */
  datatype StatRow = StatRow(name: Option<string>, values: seq<string>)

  /** The outcome of requesting a match page: any exception, or the page with
      its `section[data-testid=prism-LayoutCard]` rows if the section exists. */
  datatype StatsFetch = StatsFailed | StatsLoaded(section: Option<seq<StatRow>>)

  /** label -> (first value, second value), in first-insertion order. */
  type Stats = Dict<string, (string, string)>

  /** A row is kept when it has a label and at least two values. */
  predicate Qualifies(row: StatRow) {
    row.name.Some? && |row.values| >= 2
  }

  function StatEntry(row: StatRow): (string, string)
    requires Qualifies(row)
  {
    (row.values[0], row.values[1])
  }

  /** One row of the loop: a kept row sets its label to its first two values,
      replacing an earlier row with the same label. */
  function StatStep(acc: Stats, row: StatRow): (r: Stats)
    ensures acc.Valid() ==> r.Valid()
  {
    if Qualifies(row) then acc.Put(row.name.value, StatEntry(row)) else acc
  }

  /** The rows from `acc` on, in document order. */
  function StatsFrom(acc: Stats, rows: seq<StatRow>): (r: Stats)
    decreases |rows|
    ensures acc.Valid() ==> r.Valid()
  {
    if rows == [] then acc else StatsFrom(StatStep(acc, rows[0]), rows[1..])
  }

  /** What `get_match_stats` returns: the fold from `{}`, and `{}` when the
      section is missing or anything raised. */
  function FetchStats(f: StatsFetch): (r: Stats)
    ensures r.Valid()
    ensures f.StatsFailed? || f.section.None? ==> r.keys == [] && r.entries == map[]
  {
    match f
    case StatsLoaded(Some(rows)) => StatsFrom(EmptyDict(), rows)
    case _ => EmptyDict()
  }

  /** Some row at `i` or later is kept under `name`. */
  predicate LabelledFrom(rows: seq<StatRow>, name: string, i: nat) {
    exists j :: i <= j < |rows| && Qualifies(rows[j]) && rows[j].name.value == name
  }

  /** The labels of the result: those already present and those of the kept
      rows; rows with no label or fewer than two values add nothing. */
  lemma {:induction false} StatsKeys(acc: Stats, rows: seq<StatRow>, name: string)
    ensures name in StatsFrom(acc, rows).entries <==> name in acc.entries || LabelledFrom(rows, name, 0)
    decreases |rows|
  {
    if rows != [] {
      StatsKeys(StatStep(acc, rows[0]), rows[1..], name);
      if LabelledFrom(rows[1..], name, 0) {
        var j :| 0 <= j < |rows[1..]| && Qualifies(rows[1..][j]) && rows[1..][j].name.value == name;
        assert rows[j + 1] == rows[1..][j];
      }
      if LabelledFrom(rows, name, 0) {
        var j :| 0 <= j < |rows| && Qualifies(rows[j]) && rows[j].name.value == name;
        if j > 0 {
          assert rows[1..][j - 1] == rows[j];
        }
      }
    }
  }

  /** A label holds the values of the LAST kept row with that label; a label
      no row keeps holds what it held before. */
  lemma {:induction false} StatsLastWins(acc: Stats, rows: seq<StatRow>, i: nat)
    requires i < |rows| && Qualifies(rows[i]) && !LabelledFrom(rows, rows[i].name.value, i + 1)
    ensures var r := StatsFrom(acc, rows);
            rows[i].name.value in r.entries && r.entries[rows[i].name.value] == StatEntry(rows[i])
    decreases |rows|
  {
    var name := rows[i].name.value;
    if i == 0 {
      StatsUntouched(StatStep(acc, rows[0]), rows[1..], name);
    } else {
      assert rows[1..][i - 1] == rows[i];
      forall j | i <= j < |rows[1..]|
        ensures !(Qualifies(rows[1..][j]) && rows[1..][j].name.value == name)
      {
        assert rows[1..][j] == rows[j + 1];
      }
      StatsLastWins(StatStep(acc, rows[0]), rows[1..], i - 1);
    }
  }

  lemma {:induction false} StatsUntouched(acc: Stats, rows: seq<StatRow>, name: string)
    requires name in acc.entries && !LabelledFrom(rows, name, 0)
    ensures var r := StatsFrom(acc, rows);
            name in r.entries && r.entries[name] == acc.entries[name]
    decreases |rows|
  {
    if rows != [] {
      forall j | 0 <= j < |rows[1..]|
        ensures !(Qualifies(rows[1..][j]) && rows[1..][j].name.value == name)
      {
        assert rows[1..][j] == rows[j + 1];
      }
      StatsUntouched(StatStep(acc, rows[0]), rows[1..], name);
    }
  }

  // ---------------------------------------------------------------------------
  // Rows and their checks

  /** A `tr.Table__TR` row as the two scripts see it: the away team anchor,
      the home team anchor and the `a.AnchorLink.at` score link, each found
      or not. */
  datatype TaggedRow = TaggedRow(away: Option<string>, home: Option<string>, score: Option<Link>)

  /** A US national team, which Base.py leaves out: `"USMNT" in t or "USWNT" in t`. */
  predicate NationalTeam(team: string) {
    Occurs("USMNT", team) || Occurs("USWNT", team)
  }

  /** The script a run belongs to: l.py fetches the statistics of every new
      match; Base.py filters out US national teams and fetches no statistics. */
  datatype Variant = WithStats(statsFor: string -> StatsFetch) | UsFiltered

  /** The checks in their order: all three tags; the placeholder score `v`,
      which ends the day; (Base.py) the national-team filter; an `href`
      (a row without one raises and is skipped by the row's `except`); an
      identifier in it. */
  function ClassifyTagged(row: TaggedRow, usFilter: bool): Verdict {
    if row.away.None? || row.home.None? || row.score.None? then Skip
    else if IsFixtureMarker(row.score.value.text) then Stop
    else if usFilter && (NationalTeam(row.away.value) || NationalTeam(row.home.value)) then Skip
    else
      match row.score.value.href
      case None => Skip
      case Some(href) =>
        match ExtractGameId(href)
        case None => Skip
        case Some(id) => Keep(Candidate(id, row.away.value, row.home.value, row.score.value.text, href))
  }

  /** Stop exactly at a complete row with the placeholder score, whatever its
      teams; keep exactly a complete row with a real score, (when filtering)
      no national team, and an identifier in its link, taking team1 from the
      away anchor and team2 from the home anchor. */
  lemma ClassifyTaggedSpec(row: TaggedRow, usFilter: bool)
    ensures var v := ClassifyTagged(row, usFilter);
            && (v.Stop? <==> row.away.Some? && row.home.Some? && row.score.Some? && IsFixtureMarker(row.score.value.text))
            && (v.Keep? <==> && row.away.Some? && row.home.Some? && row.score.Some?
                             && !IsFixtureMarker(row.score.value.text)
                             && !(usFilter && (NationalTeam(row.away.value) || NationalTeam(row.home.value)))
                             && row.score.value.href.Some?
                             && ExtractGameId(row.score.value.href.value).Some?)
            && (v.Keep? ==> && IsGameId(v.c.gameId)
                            && row.away == Some(v.c.team1) && row.home == Some(v.c.team2)
                            && row.score == Some(Link(v.c.score, Some(v.c.href)))
                            && ExtractGameId(v.c.href) == Some(v.c.gameId))
  {
  }

  // ---------------------------------------------------------------------------
  // Stored matches

  /** A stored match. l.py writes the members in the order gameId, date,
      team1, team2, score, title, league, match_url, stats; Base.py writes
      gameId, date, team1, score, team2, title, match_url, league and has no
      stats. */
  datatype Match = Match(gameId: string, date: string, team1: string, team2: string, score: string,
                         title: string, league: string, matchUrl: string, stats: Option<Stats>)

  type Matches = Dict<string, Match>

  function NewMatch(v: Variant, code: string, dateText: string, c: Candidate): (m: Match) {
    Match(c.gameId, dateText, c.team1, c.team2, c.score, c.team1 + " VS " + c.team2, code,
          EspnRoot + c.href, if v.WithStats? then Some(FetchStats(v.statsFor(c.gameId))) else None)
  }

  /** The entry a kept row gets: its own identifier and texts, the title
      `team1 VS team2`, the league code, the full match URL, and (l.py only)
      the statistics fetched for that identifier. */
  lemma NewMatchShape(v: Variant, code: string, dateText: string, c: Candidate)
    ensures var m := NewMatch(v, code, dateText, c);
            && m.gameId == c.gameId && m.date == dateText && m.team1 == c.team1 && m.team2 == c.team2
            && m.score == c.score && m.league == code
            && m.title == c.team1 + " VS " + c.team2 && m.matchUrl == EspnRoot + c.href
            && (m.stats.Some? <==> v.WithStats?)
            && (v.WithStats? ==> m.stats == Some(FetchStats(v.statsFor(c.gameId))))
  {
  }

  // ---------------------------------------------------------------------------
  // One day: `extract_matches_for_date`, answering whether to go on

  /** One row: stop, skip, leave a known identifier alone, or insert. */
  function TRow(d: Matches, v: Variant, code: string, dateText: string, row: TaggedRow): (r: (Matches, bool))
    ensures Extends(d, r.0)
    ensures d.Valid() ==> r.0.Valid()
  {
    match ClassifyTagged(row, v.UsFiltered?)
    case Stop => (d, false)
    case Skip => (d, true)
    case Keep(c) =>
      if c.gameId in d.entries then (d, true) else (d.Put(c.gameId, NewMatch(v, code, dateText, c)), true)
  }

  /** The rows of one table, up to and including the first that stops. */
  function TRows(d: Matches, v: Variant, code: string, dateText: string, rows: seq<TaggedRow>): (r: (Matches, bool))
    decreases |rows|
    ensures Extends(d, r.0)
    ensures d.Valid() ==> r.0.Valid()
  {
    if rows == [] then (d, true)
    else
      var (d1, more) := TRow(d, v, code, dateText, rows[0]);
      if !more then (d1, false)
      else
        var r := TRows(d1, v, code, dateText, rows[1..]);
        ExtendsTrans(d, d1, r.0);
        r
  }

  /** The tables of one page, up to the first row that stops. */
  function TTables(d: Matches, v: Variant, code: string, dateStr: string, tables: seq<Table<TaggedRow>>): (r: (Matches, bool))
    decreases |tables|
    ensures Extends(d, r.0)
    ensures d.Valid() ==> r.0.Valid()
  {
    if tables == [] then (d, true)
    else
      var (d1, more) := TRows(d, v, code, DateText(tables[0], dateStr), tables[0].rows);
      if !more then (d1, false)
      else
        var r := TTables(d1, v, code, dateStr, tables[1..]);
        ExtendsTrans(d, d1, r.0);
        r
  }

  /** A failed request leaves the store alone and goes on to the next day. */
  function TDay(d: Matches, v: Variant, code: string, dateStr: string, page: Fetch<TaggedRow>): (r: (Matches, bool))
    ensures Extends(d, r.0)
    ensures d.Valid() ==> r.0.Valid()
  {
    match page
    case Failed => (d, true)
    case Loaded(tables) => TTables(d, v, code, dateStr, tables)
  }

  /** Some row of the sequence ends the day. */
  predicate HasStop(rows: seq<TaggedRow>, usFilter: bool) {
    exists i :: 0 <= i < |rows| && ClassifyTagged(rows[i], usFilter).Stop?
  }

  /** The page was fetched and one of its tables has a row that ends the day. */
  predicate PageStops(page: Fetch<TaggedRow>, usFilter: bool) {
    page.Loaded? && exists t :: 0 <= t < |page.tables| && HasStop(page.tables[t].rows, usFilter)
  }

  /** The rows answer `false` exactly when one of them stops, whatever the
      store holds. */
  lemma {:induction false} TRowsAnswer(d: Matches, v: Variant, code: string, dateText: string, rows: seq<TaggedRow>)
    ensures TRows(d, v, code, dateText, rows).1 == !HasStop(rows, v.UsFiltered?)
    decreases |rows|
  {
    if rows != [] {
      var (d1, more) := TRow(d, v, code, dateText, rows[0]);
      if more {
        TRowsAnswer(d1, v, code, dateText, rows[1..]);
        if HasStop(rows, v.UsFiltered?) {
          var i :| 0 <= i < |rows| && ClassifyTagged(rows[i], v.UsFiltered?).Stop?;
          assert rows[1..][i - 1] == rows[i];
        }
        if HasStop(rows[1..], v.UsFiltered?) {
          var i :| 0 <= i < |rows[1..]| && ClassifyTagged(rows[1..][i], v.UsFiltered?).Stop?;
          assert rows[i + 1] == rows[1..][i];
        }
      } else {
        assert ClassifyTagged(rows[0], v.UsFiltered?).Stop?;
      }
    }
  }

  lemma {:induction false} TTablesAnswer(d: Matches, v: Variant, code: string, dateStr: string, tables: seq<Table<TaggedRow>>)
    ensures TTables(d, v, code, dateStr, tables).1 ==
            !exists t :: 0 <= t < |tables| && HasStop(tables[t].rows, v.UsFiltered?)
    decreases |tables|
  {
    if tables != [] {
      var (d1, more) := TRows(d, v, code, DateText(tables[0], dateStr), tables[0].rows);
      TRowsAnswer(d, v, code, DateText(tables[0], dateStr), tables[0].rows);
      if more {
        TTablesAnswer(d1, v, code, dateStr, tables[1..]);
        if exists t :: 0 <= t < |tables| && HasStop(tables[t].rows, v.UsFiltered?) {
          var t :| 0 <= t < |tables| && HasStop(tables[t].rows, v.UsFiltered?);
          assert tables[1..][t - 1] == tables[t];
        }
        if exists t :: 0 <= t < |tables[1..]| && HasStop(tables[1..][t].rows, v.UsFiltered?) {
          var t :| 0 <= t < |tables[1..]| && HasStop(tables[1..][t].rows, v.UsFiltered?);
          assert tables[t + 1] == tables[1..][t];
        }
      }
    }
  }

  /** A day answers `false` exactly when its page was fetched and holds a row
      that stops; a failed request and a page without such a row answer
      `true`. */
  lemma DayAnswer(d: Matches, v: Variant, code: string, dateStr: string, page: Fetch<TaggedRow>)
    ensures TDay(d, v, code, dateStr, page).1 == !PageStops(page, v.UsFiltered?)
    ensures page.Failed? ==> TDay(d, v, code, dateStr, page) == (d, true)
  {
    if page.Loaded? {
      TTablesAnswer(d, v, code, dateStr, page.tables);
    }
  }

  lemma {:induction false} TRowsAppend(d: Matches, v: Variant, code: string, dateText: string, a: seq<TaggedRow>, b: seq<TaggedRow>)
    ensures var ra := TRows(d, v, code, dateText, a);
            TRows(d, v, code, dateText, a + b) == if ra.1 then TRows(ra.0, v, code, dateText, b) else ra
    decreases |a|
  {
    if a == [] {
      assert a + b == b;
    } else {
      assert (a + b)[0] == a[0] && (a + b)[1..] == a[1..] + b;
      var (d1, more) := TRow(d, v, code, dateText, a[0]);
      if more {
        TRowsAppend(d1, v, code, dateText, a[1..], b);
      }
    }
  }

  /** The first stopping row ends the table at once: the rows before it are
      merged and kept, and no row after it is looked at. */
  lemma StopEndsRows(d: Matches, v: Variant, code: string, dateText: string, rows: seq<TaggedRow>, i: nat)
    requires i < |rows| && ClassifyTagged(rows[i], v.UsFiltered?).Stop? && !HasStop(rows[..i], v.UsFiltered?)
    ensures TRows(d, v, code, dateText, rows) == (TRows(d, v, code, dateText, rows[..i]).0, false)
  {
    assert rows == rows[..i] + rows[i..];
    TRowsAppend(d, v, code, dateText, rows[..i], rows[i..]);
    TRowsAnswer(d, v, code, dateText, rows[..i]);
    assert rows[i..][0] == rows[i];
  }

  lemma {:induction false} TTablesAppend(d: Matches, v: Variant, code: string, dateStr: string,
                                         a: seq<Table<TaggedRow>>, b: seq<Table<TaggedRow>>)
    ensures var ra := TTables(d, v, code, dateStr, a);
            TTables(d, v, code, dateStr, a + b) == if ra.1 then TTables(ra.0, v, code, dateStr, b) else ra
    decreases |a|
  {
    if a == [] {
      assert a + b == b;
    } else {
      assert (a + b)[0] == a[0] && (a + b)[1..] == a[1..] + b;
      var (d1, more) := TRows(d, v, code, DateText(a[0], dateStr), a[0].rows);
      if more {
        TTablesAppend(d1, v, code, dateStr, a[1..], b);
      }
    }
  }

  /** A table with a stopping row ends the page: the tables before it and
      that table's rows up to the stop are merged, and no later table is
      looked at. */
  lemma StopEndsTables(d: Matches, v: Variant, code: string, dateStr: string, tables: seq<Table<TaggedRow>>, t: nat)
    requires t < |tables| && HasStop(tables[t].rows, v.UsFiltered?)
    requires forall u :: 0 <= u < t ==> !HasStop(tables[u].rows, v.UsFiltered?)
    ensures var before := TTables(d, v, code, dateStr, tables[..t]).0;
            TTables(d, v, code, dateStr, tables) == (TRows(before, v, code, DateText(tables[t], dateStr), tables[t].rows).0, false)
  {
    assert tables == tables[..t] + tables[t..];
    TTablesAppend(d, v, code, dateStr, tables[..t], tables[t..]);
    TTablesAnswer(d, v, code, dateStr, tables[..t]);
    var before := TTables(d, v, code, dateStr, tables[..t]).0;
    assert tables[t..][0] == tables[t];
    TRowsAnswer(before, v, code, DateText(tables[t], dateStr), tables[t].rows);
  }

  /** A skipped row contributes nothing: the table's result is as if the row
      were not there. */
  lemma SkippedTaggedRowIrrelevant(d: Matches, v: Variant, code: string, dateText: string, rows: seq<TaggedRow>, i: nat)
    requires i < |rows| && ClassifyTagged(rows[i], v.UsFiltered?).Skip?
    ensures TRows(d, v, code, dateText, rows) == TRows(d, v, code, dateText, rows[..i] + rows[i + 1..])
  {
    assert rows == rows[..i] + ([rows[i]] + rows[i + 1..]);
    TRowsAppend(d, v, code, dateText, rows[..i], [rows[i]] + rows[i + 1..]);
    TRowsAppend(d, v, code, dateText, rows[..i], rows[i + 1..]);
    var mid := TRows(d, v, code, dateText, rows[..i]).0;
    assert ([rows[i]] + rows[i + 1..])[1..] == rows[i + 1..];
    assert TRows(mid, v, code, dateText, [rows[i]] + rows[i + 1..]) == TRows(mid, v, code, dateText, rows[i + 1..]);
  }

  /** The identifier a row would be inserted under, if it passes the checks. */
  function KeptId(row: TaggedRow, usFilter: bool): set<string> {
    match ClassifyTagged(row, usFilter)
    case Keep(c) => {c.gameId}
    case _ => {}
  }

  /** Row `i` is the first that is kept under `k`, and no row before it
      stops. */
  predicate FirstKept(rows: seq<TaggedRow>, usFilter: bool, k: string, i: int) {
    && 0 <= i < |rows| && ClassifyTagged(rows[i], usFilter).Keep?
    && k == ClassifyTagged(rows[i], usFilter).c.gameId
    && forall j :: 0 <= j < i ==> !ClassifyTagged(rows[j], usFilter).Stop? && k !in KeptId(rows[j], usFilter)
  }

  /** Where a new entry comes from: the first row of the table that passes the
      checks with that identifier, before any stopping row, stored as the
      entry `NewMatch` builds from it. */
  lemma {:induction false} TRowsProvenance(d: Matches, v: Variant, code: string, dateText: string, rows: seq<TaggedRow>, k: string)
    requires k in TRows(d, v, code, dateText, rows).0.entries && k !in d.entries
    ensures exists i :: && FirstKept(rows, v.UsFiltered?, k, i)
                        && TRows(d, v, code, dateText, rows).0.entries[k]
                             == NewMatch(v, code, dateText, ClassifyTagged(rows[i], v.UsFiltered?).c)
    decreases |rows|
  {
    var usf := v.UsFiltered?;
    var (d1, more) := TRow(d, v, code, dateText, rows[0]);
    var r := TRows(d, v, code, dateText, rows).0;
    if k in d1.entries {
      assert ClassifyTagged(rows[0], usf).Keep?;
      assert r.entries[k] == d1.entries[k];
      assert FirstKept(rows, usf, k, 0);
    } else {
      assert more && r == TRows(d1, v, code, dateText, rows[1..]).0;
      TRowsProvenance(d1, v, code, dateText, rows[1..], k);
      var i :| && FirstKept(rows[1..], usf, k, i)
               && r.entries[k] == NewMatch(v, code, dateText, ClassifyTagged(rows[1..][i], usf).c);
      assert rows[1..][i] == rows[i + 1];
      assert FirstKept(rows, usf, k, i + 1) by {
        forall j | 0 <= j < i + 1
          ensures !ClassifyTagged(rows[j], usf).Stop? && k !in KeptId(rows[j], usf)
        {
          if j > 0 {
            assert rows[1..][j - 1] == rows[j];
          }
        }
      }
    }
  }

  // ---------------------------------------------------------------------------
  // What reaches the store

  /** The identifiers a table's rows offer before its first stopping row. */
  function TRowsIds(rows: seq<TaggedRow>, usFilter: bool): set<string> {
    if rows == [] then {}
    else if ClassifyTagged(rows[0], usFilter).Stop? then {}
    else KeptId(rows[0], usFilter) + TRowsIds(rows[1..], usFilter)
  }

  /** The identifiers a page's tables offer before its first stopping row. */
  function TTablesIds(tables: seq<Table<TaggedRow>>, usFilter: bool): set<string> {
    if tables == [] then {}
    else TRowsIds(tables[0].rows, usFilter) + (if HasStop(tables[0].rows, usFilter) then {} else TTablesIds(tables[1..], usFilter))
  }

  function DayIds(page: Fetch<TaggedRow>, usFilter: bool): set<string> {
    match page
    case Failed => {}
    case Loaded(tables) => TTablesIds(tables, usFilter)
  }

  /** After a kept row its identifier is stored; a new identifier holds the
      entry `NewMatch` builds, statistics included (`{}` when their request
      failed). */
  lemma TRowCovers(d: Matches, v: Variant, code: string, dateText: string, row: TaggedRow)
    ensures var r := TRow(d, v, code, dateText, row).0;
            var verdict := ClassifyTagged(row, v.UsFiltered?);
            && KeptId(row, v.UsFiltered?) <= r.entries.Keys
            && (verdict.Keep? && verdict.c.gameId !in d.entries ==>
                  r.entries[verdict.c.gameId] == NewMatch(v, code, dateText, verdict.c))
  {
  }

  /** Every identifier kept before a table's first stopping row is stored:
      the rows processed before the stop stay in the store. */
  lemma {:induction false} TRowsCovers(d: Matches, v: Variant, code: string, dateText: string, rows: seq<TaggedRow>)
    ensures TRowsIds(rows, v.UsFiltered?) <= TRows(d, v, code, dateText, rows).0.entries.Keys
    decreases |rows|
  {
    if rows != [] && !ClassifyTagged(rows[0], v.UsFiltered?).Stop? {
      var d1 := TRow(d, v, code, dateText, rows[0]).0;
      TRowCovers(d, v, code, dateText, rows[0]);
      TRowsCovers(d1, v, code, dateText, rows[1..]);
    }
  }

  /** The same for a page: every table up to and including the one that stops. */
  lemma {:induction false} TTablesCovers(d: Matches, v: Variant, code: string, dateStr: string, tables: seq<Table<TaggedRow>>)
    ensures TTablesIds(tables, v.UsFiltered?) <= TTables(d, v, code, dateStr, tables).0.entries.Keys
    decreases |tables|
  {
    if tables != [] {
      var dateText := DateText(tables[0], dateStr);
      var d1 := TRows(d, v, code, dateText, tables[0].rows).0;
      TRowsCovers(d, v, code, dateText, tables[0].rows);
      TRowsAnswer(d, v, code, dateText, tables[0].rows);
      if !HasStop(tables[0].rows, v.UsFiltered?) {
        TTablesCovers(d1, v, code, dateStr, tables[1..]);
      }
    }
  }

  lemma TDayCovers(d: Matches, v: Variant, code: string, dateStr: string, page: Fetch<TaggedRow>)
    ensures DayIds(page, v.UsFiltered?) <= TDay(d, v, code, dateStr, page).0.entries.Keys
  {
    if page.Loaded? {
      TTablesCovers(d, v, code, dateStr, page.tables);
    }
  }

  /** Table `t` is the first of the page to offer `k`, and no table before it
      stops. */
  predicate FirstTable(tables: seq<Table<TaggedRow>>, usFilter: bool, k: string, t: int) {
    && 0 <= t < |tables|
    && forall u :: 0 <= u < t ==> !HasStop(tables[u].rows, usFilter) && k !in TRowsIds(tables[u].rows, usFilter)
  }

  /** Where a new entry of a day comes from: the first row, of the first table
      offering it, before any stop; it is dated by that table's caption, else
      by the requested date string. */
  lemma {:induction false} TTablesProvenance(d: Matches, v: Variant, code: string, dateStr: string,
                                             tables: seq<Table<TaggedRow>>, k: string)
    requires k in TTables(d, v, code, dateStr, tables).0.entries && k !in d.entries
    ensures exists t, i :: && FirstTable(tables, v.UsFiltered?, k, t)
                           && FirstKept(tables[t].rows, v.UsFiltered?, k, i)
                           && TTables(d, v, code, dateStr, tables).0.entries[k]
                                == NewMatch(v, code, DateText(tables[t], dateStr), ClassifyTagged(tables[t].rows[i], v.UsFiltered?).c)
    decreases |tables|
  {
    var usf := v.UsFiltered?;
    var dateText := DateText(tables[0], dateStr);
    var (d1, more) := TRows(d, v, code, dateText, tables[0].rows);
    var r := TTables(d, v, code, dateStr, tables).0;
    if k in d1.entries {
      TRowsProvenance(d, v, code, dateText, tables[0].rows, k);
      var i :| && FirstKept(tables[0].rows, usf, k, i)
               && d1.entries[k] == NewMatch(v, code, dateText, ClassifyTagged(tables[0].rows[i], usf).c);
      assert r.entries[k] == d1.entries[k];
      assert FirstTable(tables, usf, k, 0);
    } else {
      assert more && r == TTables(d1, v, code, dateStr, tables[1..]).0;
      TRowsAnswer(d, v, code, dateText, tables[0].rows);
      TRowsCovers(d, v, code, dateText, tables[0].rows);
      TTablesProvenance(d1, v, code, dateStr, tables[1..], k);
      var t, i :| && FirstTable(tables[1..], usf, k, t)
                  && FirstKept(tables[1..][t].rows, usf, k, i)
                  && r.entries[k] == NewMatch(v, code, DateText(tables[1..][t], dateStr), ClassifyTagged(tables[1..][t].rows[i], usf).c);
      assert tables[1..][t] == tables[t + 1];
      assert FirstTable(tables, usf, k, t + 1) by {
        forall u | 0 <= u < t + 1
          ensures !HasStop(tables[u].rows, usf) && k !in TRowsIds(tables[u].rows, usf)
        {
          if u > 0 {
            assert tables[1..][u - 1] == tables[u];
          }
        }
      }
    }
  }

  // ---------------------------------------------------------------------------
  // The walk over days: the main `while current_date <= end_date` loop

  /** The walk from `day` on: fetch the day's page, process it, and go on to
      the next day while the answer is `true` and the day is not past `end`.
      Returns the final store and the days visited. */
  function DaysFrom(d: Matches, v: Variant, code: string, day: int, end: int, dateString: int -> string,
                    fetch: (string, string) -> Fetch<TaggedRow>): (r: (Matches, seq<int>))
    decreases end - day + 1
    ensures d.Valid() ==> r.0.Valid()
  {
    if day > end then (d, [])
    else
      var dateStr := dateString(day);
      var (d1, more) := TDay(d, v, code, dateStr, fetch(code, dateStr));
      if !more then (d1, [day])
      else
        var (d2, rest) := DaysFrom(d1, v, code, day + 1, end, dateString, fetch);
        (d2, [day] + rest)
  }

  /** The walk only adds entries: first write wins across days. */
  lemma {:induction false} DaysFromExtends(d: Matches, v: Variant, code: string, day: int, end: int, dateString: int -> string,
                                           fetch: (string, string) -> Fetch<TaggedRow>)
    ensures Extends(d, DaysFrom(d, v, code, day, end, dateString, fetch).0)
    decreases end - day + 1
  {
    if day <= end {
      var dateStr := dateString(day);
      var (d1, more) := TDay(d, v, code, dateStr, fetch(code, dateStr));
      if more {
        DaysFromExtends(d1, v, code, day + 1, end, dateString, fetch);
        ExtendsTrans(d, d1, DaysFrom(d1, v, code, day + 1, end, dateString, fetch).0);
      }
    }
  }

  /** Walking on from `day` with store `d`, after visiting `visited`, ends as
      `final`: the loop invariant of the main loop. */
  predicate WalkRemains(final: (Matches, seq<int>), d: Matches, visited: seq<int>, v: Variant, code: string,
                        day: int, end: int, dateString: int -> string, fetch: (string, string) -> Fetch<TaggedRow>) {
    var r := DaysFrom(d, v, code, day, end, dateString, fetch);
    final == (r.0, visited + r.1)
  }

  /** One turn of the main loop: the day's answer either continues the walk
      from the next day or ends it with this day's store. */
  lemma WalkAdvance(final: (Matches, seq<int>), d: Matches, visited: seq<int>, v: Variant, code: string,
                    day: int, end: int, dateString: int -> string, fetch: (string, string) -> Fetch<TaggedRow>,
                    d1: Matches, more: bool)
    requires WalkRemains(final, d, visited, v, code, day, end, dateString, fetch) && day <= end
    requires (d1, more) == TDay(d, v, code, dateString(day), fetch(code, dateString(day)))
    ensures more ==> WalkRemains(final, d1, visited + [day], v, code, day + 1, end, dateString, fetch)
    ensures !more ==> final == (d1, visited + [day])
  {
    if more {
      var rest := DaysFrom(d1, v, code, day + 1, end, dateString, fetch).1;
      assert visited + ([day] + rest) == (visited + [day]) + rest;
    }
  }

  /** Past `end` the walk is over. */
  lemma WalkDone(final: (Matches, seq<int>), d: Matches, visited: seq<int>, v: Variant, code: string,
                 day: int, end: int, dateString: int -> string, fetch: (string, string) -> Fetch<TaggedRow>)
    requires WalkRemains(final, d, visited, v, code, day, end, dateString, fetch) && day > end
    ensures final == (d, visited)
  {
    assert visited + [] == visited;
  }

  /** One league: from an empty store, days `start` to `end` inclusive. */
  function LeagueWalk(v: Variant, code: string, start: int, end: int, dateString: int -> string,
                      fetch: (string, string) -> Fetch<TaggedRow>): (Matches, seq<int>) {
    DaysFrom(EmptyDict(), v, code, start, end, dateString, fetch)
  }

  /** Before the main loop: nothing visited, the empty store, and the walk
      still all ahead; the store it ends with is a dict. */
  lemma WalkStart(v: Variant, code: string, start: int, end: int, dateString: int -> string,
                  fetch: (string, string) -> Fetch<TaggedRow>)
    ensures var final := LeagueWalk(v, code, start, end, dateString, fetch);
            WalkRemains(final, EmptyDict(), [], v, code, start, end, dateString, fetch) && final.0.Valid()
  {
    assert [] + LeagueWalk(v, code, start, end, dateString, fetch).1 == LeagueWalk(v, code, start, end, dateString, fetch).1;
  }

  /** The array one league's file receives: `list(all_matches.values())`. */
  function LeagueMatches(v: Variant, code: string, start: int, end: int, dateString: int -> string,
                         fetch: (string, string) -> Fetch<TaggedRow>): seq<Match> {
    LeagueWalk(v, code, start, end, dateString, fetch).0.Values()
  }

  /** The days visited are `day, day + 1, ...` in order, at least one and
      never past `end`. */
  lemma {:induction false} DaysFromDays(d: Matches, v: Variant, code: string, day: int, end: int, dateString: int -> string,
                                        fetch: (string, string) -> Fetch<TaggedRow>)
    ensures var seen := DaysFrom(d, v, code, day, end, dateString, fetch).1;
            && (day <= end ==> 1 <= |seen| <= end - day + 1)
            && (day > end ==> seen == [])
            && (forall i :: 0 <= i < |seen| ==> seen[i] == day + i)
    decreases end - day + 1
  {
    if day <= end {
      var dateStr := dateString(day);
      var (d1, more) := TDay(d, v, code, dateStr, fetch(code, dateStr));
      if more {
        DaysFromDays(d1, v, code, day + 1, end, dateString, fetch);
        var rest := DaysFrom(d1, v, code, day + 1, end, dateString, fetch).1;
        var seen := DaysFrom(d, v, code, day, end, dateString, fetch).1;
        assert seen == [day] + rest;
        assert forall i :: 0 < i < |seen| ==> seen[i] == rest[i - 1];
      }
    }
  }

  /** Every visited day but the last had no stopping row, and the walk ends
      before `end` only because the last visited day's page had one. */
  lemma {:induction false} DaysFromStops(d: Matches, v: Variant, code: string, day: int, end: int, dateString: int -> string,
                                         fetch: (string, string) -> Fetch<TaggedRow>)
    ensures var seen := DaysFrom(d, v, code, day, end, dateString, fetch).1;
            && (forall i :: 0 <= i < |seen| - 1 ==> !PageStops(fetch(code, dateString(seen[i])), v.UsFiltered?))
            && (0 < |seen| < end - day + 1 ==> PageStops(fetch(code, dateString(seen[|seen| - 1])), v.UsFiltered?))
    decreases end - day + 1
  {
    if day <= end {
      var dateStr := dateString(day);
      DayAnswer(d, v, code, dateStr, fetch(code, dateStr));
      var (d1, more) := TDay(d, v, code, dateStr, fetch(code, dateStr));
      var seen := DaysFrom(d, v, code, day, end, dateString, fetch).1;
      if more {
        DaysFromStops(d1, v, code, day + 1, end, dateString, fetch);
        var rest := DaysFrom(d1, v, code, day + 1, end, dateString, fetch).1;
        assert seen == [day] + rest;
        forall i | 0 <= i < |seen| - 1
          ensures !PageStops(fetch(code, dateString(seen[i])), v.UsFiltered?)
        {
          if i > 0 {
            assert seen[i] == rest[i - 1];
          }
        }
        if 0 < |seen| < end - day + 1 {
          assert |rest| < end - (day + 1) + 1;
          assert seen[|seen| - 1] == rest[|rest| - 1];
        }
      } else {
        assert seen == [day];
      }
    }
  }

  /** Every identifier each of `days` offers before its stop is in `d`. */
  predicate DaysStored(d: Matches, days: seq<int>, v: Variant, code: string, dateString: int -> string,
                       fetch: (string, string) -> Fetch<TaggedRow>) {
    forall i :: 0 <= i < |days| ==> DayIds(fetch(code, dateString(days[i])), v.UsFiltered?) <= d.entries.Keys
  }

  /** Every identifier a visited day offers before its stop is stored at the
      end of the walk. */
  lemma {:induction false} DaysFromCovers(d: Matches, v: Variant, code: string, day: int, end: int, dateString: int -> string,
                                          fetch: (string, string) -> Fetch<TaggedRow>)
    ensures var r := DaysFrom(d, v, code, day, end, dateString, fetch);
            DaysStored(r.0, r.1, v, code, dateString, fetch)
    decreases end - day + 1
  {
    if day <= end {
      var dateStr := dateString(day);
      TDayCovers(d, v, code, dateStr, fetch(code, dateStr));
      var (d1, more) := TDay(d, v, code, dateStr, fetch(code, dateStr));
      var r := DaysFrom(d, v, code, day, end, dateString, fetch);
      if more {
        DaysFromCovers(d1, v, code, day + 1, end, dateString, fetch);
        var rest := DaysFrom(d1, v, code, day + 1, end, dateString, fetch);
        assert r == (rest.0, [day] + rest.1);
        forall i | 0 <= i < |r.1|
          ensures DayIds(fetch(code, dateString(r.1[i])), v.UsFiltered?) <= r.0.entries.Keys
        {
          if i > 0 {
            assert r.1[i] == rest.1[i - 1];
          } else {
            DaysFromExtends(d1, v, code, day + 1, end, dateString, fetch);
            assert r.1[0] == day;
          }
        }
      } else {
        assert r == (d1, [day]);
      }
    }
  }

  /** The same for a league's walk: it starts at `start` from an empty store. */
  lemma LeagueWalkDays(v: Variant, code: string, start: int, end: int, dateString: int -> string,
                       fetch: (string, string) -> Fetch<TaggedRow>)
    ensures var seen := LeagueWalk(v, code, start, end, dateString, fetch).1;
            && (start <= end ==> 1 <= |seen| <= end - start + 1)
            && (start > end ==> seen == [])
            && (forall i :: 0 <= i < |seen| ==> seen[i] == start + i)
            && (forall i :: 0 <= i < |seen| - 1 ==> !PageStops(fetch(code, dateString(seen[i])), v.UsFiltered?))
            && (0 < |seen| < end - start + 1 ==> PageStops(fetch(code, dateString(seen[|seen| - 1])), v.UsFiltered?))
  {
    DaysFromDays(EmptyDict(), v, code, start, end, dateString, fetch);
    DaysFromStops(EmptyDict(), v, code, start, end, dateString, fetch);
  }

  /** A league's walk stores every identifier its visited days offer before
      their stop. */
  lemma LeagueWalkCovers(v: Variant, code: string, start: int, end: int, dateString: int -> string,
                         fetch: (string, string) -> Fetch<TaggedRow>)
    ensures var r := LeagueWalk(v, code, start, end, dateString, fetch);
            DaysStored(r.0, r.1, v, code, dateString, fetch)
  {
    DaysFromCovers(EmptyDict(), v, code, start, end, dateString, fetch);
    assert LeagueWalk(v, code, start, end, dateString, fetch) == DaysFrom(EmptyDict(), v, code, start, end, dateString, fetch);
  }
}
