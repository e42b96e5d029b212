# Data-Foot schedule scrapers, modelled in Dafny

Data-Foot collects football results from ESPN schedule pages. Three scripts share one core:

- **p_league.py** is the incremental collector. For each configured league it loads the league's JSON file into a dict keyed by match identifier. It then scans the day before yesterday and yesterday, adds every finished match it has not stored yet, and counts them in `total_new`. Finally it writes the dict's values back as a JSON array. It never stops early: fixtures still to be played are skipped.
- **l.py** walks one league over a fixed range of days, starting from an empty dict. It stops at the first fixture not yet played, whose score is the placeholder `v`. For every new match it also fetches that match's statistics page.
- **Base.py** does the same over whole seasons, with two differences: it leaves out rows naming the US national teams, and it fetches no statistics.

What the model covers:

- **The page.** A fetched schedule page is `Fetch<R>`: failed, or a sequence of tables. Each table has an optional caption and its rows, already extracted from the HTML.
- **The checks.** Every row goes through the scripts' checks in their order and gets a `Verdict`: skip it, keep a `Candidate`, or stop the day.
- **The store.** It is an insertion-ordered dict (`Dict`). The scripts' in-place updates are the `Store` class, whose methods change its fields.
- **The scripts.** Each script's loops are methods. They are proved equal to recursive specification functions: `PDates` and friends for p_league.py, and `TDay`/`DaysFrom` for l.py and Base.py. Lemmas state the properties the scripts rely on:
  - first-write-wins;
  - idempotence of a re-run;
  - `total_new` equal to the growth of the store;
  - the save/load round trip;
  - the early stop and the days visited;
  - the statistics fold;
  - the shape of a new entry.

Modules and files:

- `Common.dfy`: the ordered dict; the `Extends` relation (first-write-wins); ASCII lower-casing and substring search; match-identifier extraction; the page records.
- `Store.dfy`: the mutable store class.
- `PLeague.dfy`: `safe_load_json` on a JSON document, the p_league.py merge and its properties, and the script's loops.
- `Schedule.dfy`: the shared specification of l.py and Base.py: the statistics fold, the row checks, the day with its stop answer, and the walk over days.
- `LScript.dfy`, `BaseScript.dfy`: the loops of l.py and Base.py.

Two details of the code that the model keeps:

- `get_match_stats` keeps any row with a label and at least two values, and stores its first two (l.py:52-56).
- l.py requests the statistics of a match only for identifiers not stored yet, just before inserting the entry (l.py:112-115).

## Model

| member | source | states |
|---|---|---|
| Common.Dict.Put | p_league.py:129 | `d[k] = v`: the entry is set; a new key goes to the end of the key order, a present key keeps its place; a dict stays a dict |
| Common.Dict.Values | p_league.py:135 | `list(d.values())`: one value per key, in key-insertion order |
| Common.DistinctKeysCount | p_league.py:137 | `len(d)`: a dict lists exactly as many keys as it has entries |
| Common.Lower | p_league.py:108 | `str.lower()` as far as the model needs it: same length, every character lowered one by one |
| Common.IsFixtureMarker | p_league.py:108 | `score.lower() == "v"`; what it accepts is stated by `FixtureMarkerCases` |
| Common.Occurs | Base.py:69 | Python's `sub in s` on strings; what it accepts is stated by `OccursSpec` |
| Common.OccursSpec | Base.py:69 | `sub in s` holds exactly when `sub` appears at some position of `s` |
| Common.DateText | p_league.py:97-98 | a table's date text: its caption when it has one, else the requested date string |
| Common.ExtendsValues | p_league.py:135 | when a dict only gains entries, the saved array of the old dict is a prefix of the new one's |
| Common.FixtureMarkerCases | p_league.py:108 | `score.lower() == "v"` holds exactly for the scores `v` and `V` |
| Common.DigitRun | p_league.py:111 | the greedy `\d+`: the longest run of digits at a position |
| Common.ExtractGameId | p_league.py:111-115 | an extracted identifier is a non-empty all-digit string |
| Common.SearchGameId | p_league.py:111 | whatever the search returns is a non-empty digit string |
| Common.SearchGameIdSpec | p_league.py:111 | `re.search` scans left to right: nothing is found exactly when no position has `gameId/` followed by a digit; otherwise the result is the whole digit run at the leftmost such position |
| Common.ExtractGameIdSpec | l.py:106-110 | the same from the start of the link |
| MatchStore.Store.Empty | l.py:137 | the store starts as the empty dict |
| MatchStore.Store.Load | p_league.py:84 | the store starts as the loaded dict |
| MatchStore.Store.Set | p_league.py:129 | the store becomes the old dict with `d[k] = v` applied, and nothing else changes |
| PLeague.Field | p_league.py:64 | `m["gameId"]` on a parsed object; what it finds is stated by `FieldSpec` |
| PLeague.FieldSpec | p_league.py:64 | `obj[name]` finds nothing exactly when no member has that name; otherwise it is the value of a member with that name after which no member has it |
| PLeague.ItemKey | p_league.py:64 | an element is kept under a key only if it is an object whose "gameId" member is that hashable key, and an object without the member is dropped rather than raising |
| PLeague.LoadItems | p_league.py:64 | a comprehension that does not raise makes a dict |
| PLeague.ObjectDict | p_league.py:62 | the dict `json.load` makes of an object is a dict |
| PLeague.ObjectDictSpec | p_league.py:65-66 | its keys are exactly the member names, each holding what `obj[name]` gives (the last member of that name) |
| PLeague.SafeLoadJson | p_league.py:57-70 | whatever the file holds, the result is a dict |
| PLeague.SafeLoadJsonSpec | p_league.py:57-70 | a missing, empty or unparsable file gives `{}`; a list is re-keyed by the comprehension, or gives `{}` if it raises; an object is returned as is; any other document gives `{}`; every result except an object's keeps each value under its own "gameId" |
| PLeague.LoadItemsWellKeyed | p_league.py:64 | every element the comprehension keeps is stored under its own "gameId" |
| PLeague.LoadItemsRaises | p_league.py:63-70 | the comprehension raises exactly when some element raises (a number, boolean or null element, a string or list that passes the `in` test, an unhashable "gameId") |
| PLeague.LoadItemsKeys | p_league.py:64 | the keys are exactly the "gameId" values of the elements that have one; the others are dropped |
| PLeague.LoadItemsLastWins | p_league.py:64 | a key holds the last element carrying it |
| PLeague.LoadPrefix | p_league.py:64 | loading the first n saved values gives the dict of the first n keys |
| PLeague.SaveLoadRoundTrip | p_league.py:57-70 | writing `list(values())` and loading it back gives the same dict, order included, when each value carries its key as "gameId" |
| PLeague.ClassifyPair | p_league.py:108-109 | the p_league.py checks never stop the scan |
| PLeague.ClassifyPairSpec | p_league.py:102-115 | a row is kept exactly when it has two team anchors and a score link whose text is not `v`/`V`, whose `href` is present and holds an identifier; team1, team2, the score and the link come from the row |
| PLeague.NewEntry | p_league.py:119-127 | the new entry's "gameId" member is its identifier, so it reloads under the same key |
| PLeague.PRow | p_league.py:116-129 | first write wins: a row only adds entries at the end, and every existing key keeps its value and place |
| PLeague.PRows | p_league.py:100-132 | the same for a table's rows |
| PLeague.PTables | p_league.py:96-98 | the same for a page's tables; where each new entry comes from is stated by `PTablesProvenance` |
| PLeague.PPage | p_league.py:89-94 | the same for one date, and a page whose request failed leaves the store exactly as it was |
| PLeague.PDates | p_league.py:87 | the same for every date of the window |
| PLeague.DatesToFetch | p_league.py:74-77 | the window: the day before yesterday, then yesterday |
| PLeague.PLeagueRun | p_league.py:84-132 | one league's run: the window's merge starting from the loaded file |
| PLeague.SavedArray | p_league.py:135 | the array written back: `list(values())` of the run's store |
| PLeague.PRowCovers | p_league.py:116-129 | after a row its identifier, if kept, is stored, and values stay keyed by their own "gameId" |
| PLeague.PRowsCovers | p_league.py:100-129 | the same for a table |
| PLeague.PTablesCovers | p_league.py:96-129 | the same for a page |
| PLeague.PDatesCovers | p_league.py:87-129 | the same for the whole window |
| PLeague.PRowsProvenance | p_league.py:100-129 | a new key comes from the first kept row with that identifier, and holds the entry built from that row and the table's date text |
| PLeague.PTablesProvenance | p_league.py:96-129 | a new key comes from the first table offering it and the first kept row of it with that identifier, dated by that table's caption or else the date string |
| PLeague.SkippedRowIrrelevant | p_league.py:104-113 | a skipped row (missing anchors or link, score `v`, no `href`, no identifier) contributes nothing, and the rows after it are still processed |
| PLeague.FailedDateIgnored | p_league.py:89-94 | a date whose request fails changes nothing, and later dates are still scanned |
| PLeague.PRowsSettled | p_league.py:116-117 | rows whose identifiers are all stored change nothing |
| PLeague.PTablesSettled | p_league.py:116-117 | tables whose identifiers are all stored change nothing |
| PLeague.PDatesSettled | p_league.py:116-117 | dates whose identifiers are all stored change nothing |
| PLeague.PDatesIdempotent | p_league.py:116-117 | scanning the same pages a second time leaves the store unchanged |
| PLeague.RerunIsStable | p_league.py:84-135 | a second run over the same pages, from the file the first run wrote, ends with the same store |
| PLeague.RowsNew | p_league.py:116-130 | `total_new` over one table: one for each row that passes the checks with an identifier absent at its turn |
| PLeague.NewCount | p_league.py:85-130 | `total_new` of a league's run: the same counter over every table of every date |
| PLeague.RowsNewGrowth | p_league.py:116-130 | over a table's rows the store gains exactly as many keys as the counter counts |
| PLeague.TablesNewGrowth | p_league.py:96-130 | the same over a page's tables |
| PLeague.DatesNewGrowth | p_league.py:87-130 | the same over every date of the window |
| PLeague.NewCountIsGrowth | p_league.py:129-137 | the printed `len(existing_matches)` is the loaded size plus the counted `total_new`: the counter, incremented once per insertion, agrees with the store's growth |
| PLeague.SavedKeepsLoadedFirst | p_league.py:135 | the saved array starts with the loaded matches, unchanged and in their old order |
| PLeague.MergeRows | p_league.py:100-132 | the row loop leaves the store as `PRows` says, and its counter equals `RowsNew`, one per inserted row |
| PLeague.ScrapeLeague | p_league.py:84-135 | the league's loops write `SavedArray`, `total_new` equals the counter `NewCount`, and that is the number of keys added |
| PLeague.ScrapeAllLeagues | p_league.py:74-80 | every league in turn over the day before yesterday and yesterday; each writes its own array and count |
| Schedule.StatStep | l.py:52-56 | one statistics row keeps a dict a dict |
| Schedule.FetchStats | l.py:37-63 | `get_match_stats` always yields a dict, and a failed request or a missing section yields the empty dict |
| Schedule.StatsFrom | l.py:49-56 | the row loop keeps a dict a dict; what it stores is stated by `StatsKeys` and `StatsLastWins` |
| Schedule.StatsKeys | l.py:49-56 | the labels stored are exactly those of rows with a label and at least two values |
| Schedule.StatsLastWins | l.py:53-56 | a label holds the first two values of the last such row with that label |
| Schedule.StatsUntouched | l.py:52 | rows that do not qualify, or carry another label, leave a label's values alone |
| Schedule.NationalTeam | Base.py:69 | a team name containing USMNT or USWNT |
| Schedule.ClassifyTagged | Base.py:52-75 | the checks of one row in their order; what they decide is stated by `ClassifyTaggedSpec` |
| Schedule.ClassifyTaggedSpec | Base.py:56-77 | missing tags skip; a complete row with score `v`/`V` stops, whatever its teams (the check comes before the US filter of Base.py:64-70); with the filter, a team containing USMNT or USWNT skips; no `href` or no identifier skips; otherwise the row is kept with team1 the away anchor and team2 the home anchor |
| Schedule.NewMatch | l.py:115-125 | the entry a kept row gets; its members are stated by `NewMatchShape` |
| Schedule.NewMatchShape | l.py:115-125 | a new entry has its identifier, the table's date text, `title = team1 VS team2`, `league` = the league code, `match_url` = the site root + `href`, and in l.py only the statistics fetched for its identifier (Base.py:80-89 has no statistics) |
| Schedule.TRow | l.py:112-125 | first write wins: a row only adds entries at the end; an existing identifier keeps its entry |
| Schedule.TRows | l.py:88-128 | the same for a table's rows |
| Schedule.TTables | l.py:84-128 | the same for a page's tables |
| Schedule.TDay | l.py:75-130 | the same for one day |
| Schedule.TRowsAnswer | l.py:102-103 | a table's rows answer `false` exactly when one of them stops, whatever the store holds |
| Schedule.TTablesAnswer | l.py:84-130 | a page's tables answer `false` exactly when one table has a stopping row |
| Schedule.DayAnswer | l.py:75-130 | a day answers `false` exactly when its page was fetched and has a stopping row; a failed request answers `true` and leaves the store alone |
| Schedule.StopEndsRows | l.py:102-103 | at the first stopping row the day ends: earlier rows stay merged, no later row is examined |
| Schedule.StopEndsTables | Base.py:45-66 | a table with a stopping row ends the page: no later table is examined |
| Schedule.SkippedTaggedRowIrrelevant | Base.py:56-75 | a skipped row (missing tag, US national team, no `href`, no identifier) contributes nothing, and scanning goes on |
| Schedule.TRowsProvenance | Base.py:50-89 | a new key comes from the first kept row with that identifier, before any stopping row, and holds the entry built from it |
| Schedule.TRowsIds | Base.py:50-93 | the identifiers a table's rows keep before its first stopping row |
| Schedule.TRowCovers | l.py:112-125 | after a kept row its identifier is stored, and a new one holds the entry `NewMatch` builds, with the statistics fetched for it (`{}` when their request failed) |
| Schedule.TRowsCovers | l.py:89-125 | every identifier kept before a table's first stopping row is stored: the rows processed before the stop stay |
| Schedule.TTablesCovers | l.py:84-125 | the same for every table up to the one that stops |
| Schedule.TDayCovers | l.py:75-130 | the same for one day, and nothing for a failed request |
| Schedule.TTablesProvenance | Base.py:45-89 | a new key of a day comes from the first table offering it before any stop and the first kept row of it, dated by that table's caption or else the date string |
| Schedule.DaysFrom | Base.py:102-107 | the walk over days keeps a dict a dict; the rest is stated by the `DaysFrom` lemmas |
| Schedule.DaysFromExtends | Base.py:102-107 | the walk only adds entries: first write wins across days |
| Schedule.WalkAdvance | l.py:140-143 | one turn of the main loop: continue at the next day, or end with this day's store |
| Schedule.WalkDone | l.py:140 | past the end date the walk is over |
| Schedule.DaysFromDays | Base.py:102-107 | the days visited run from the start day upwards, consecutively, at least one and never past the end day |
| Schedule.DaysFromStops | Base.py:103-105 | every visited day but the last had no stopping row, and the walk ends before the end day only because the last visited day had one |
| Schedule.DaysFromCovers | Base.py:102-107 | every identifier a visited day keeps before its stop is stored at the end of the walk |
| Schedule.LeagueWalk | l.py:137-143 | a league's walk from an empty store; stated by `LeagueWalkDays` and `LeagueWalkCovers` |
| Schedule.WalkStart | l.py:137-139 | before the main loop nothing is visited, the store is empty and the whole walk lies ahead; it ends with a dict |
| Schedule.LeagueWalkDays | l.py:137-143 | the same for a league's walk, which starts from an empty store; at most end - start + 1 days are visited |
| Schedule.LeagueWalkCovers | l.py:137-143 | a league's walk stores every identifier its visited days keep before their stop |
| Schedule.LeagueMatches | l.py:146-147 | the array written for a league: `list(values())` of the walk's store |
| LScript.GetMatchStats | l.py:30-63 | the loop computes `FetchStats` of the match page |
| LScript.ExtractMatchesForDate | l.py:69-130 | the method leaves the store and answers as `TDay` says for l.py |
| LScript.VisitDay | l.py:140-143 | one turn of the main loop: the day is processed as `TDay` says, and the walk either goes on at the next day or ends with this store |
| LScript.ScrapeLeague | l.py:136-147 | the main loop writes `list(values())` of the walk's store and visits the walk's days |
| BaseScript.ExtractMatchesForDate | Base.py:32-95 | the method leaves the store and answers as `TDay` says for Base.py |
| BaseScript.VisitDay | Base.py:102-107 | the same turn for Base.py |
| BaseScript.ScrapeLeague | Base.py:98-111 | the main loop writes `list(values())` of the walk's store and visits the walk's days |

## Left out

- Network I/O (`requests.get`, headers, timeouts, URL formatting) is not modelled. A schedule request is the parameter `fetch: (league code, date string) -> Fetch`, and a statistics request is `statsFor: identifier -> StatsFetch`.
- HTML parsing and CSS selection (BeautifulSoup `select`, `select_one`, `find_all`, `.text.strip()`) are a foreign library. Rows are records of what the selectors found, with stripped texts. Which anchor a selector actually matches is not modelled; for instance, l.py's home selector can also match the away anchor.
- File I/O is not modelled: `os.path.exists`, `getsize`, `open`, `os.makedirs`, JSON parsing and serialisation (indentation, `ensure_ascii`). A destination file is `JsonFile` (missing, empty, malformed or a parsed document). What a script writes is returned as a sequence.
- JSON floating-point numbers are not modelled: numbers are integers. Python's equality of `True` with `1` as dict keys is also not modelled.
- The clock, `timedelta`, `strftime` and `time.sleep` are not modelled. Days are integers, and the date string of a day is the parameter `dateString`.
- `print` logging is not modelled.
- The `LEAGUES` configuration tables are not modelled. src/index.js is not part of this model: it is a directory listing.
- The outer `for league_code, info in LEAGUES.items()` of l.py and Base.py is not modelled. Each league runs independently from an empty store, and is modelled as one `ScrapeLeague` call.
- The per-row `except` is modelled only for what can raise in the model: a score link without `href` is skipped.
- Common.Lower: only ASCII capitals are lowered, not the rest of Python's Unicode `str.lower()`. This agrees with Python on the only comparison made, with `"v"`.
- Common.IsDigit: only ASCII digits count, whereas Python's `\d` also accepts other Unicode decimal digits.
- LScript.ExtractMatchesForDate: the order of the members of the stored objects is not modelled, because `Match` is a record. l.py writes gameId, date, team1, team2, score, title, league, match_url, stats. Base.py writes gameId, date, team1, score, team2, title, match_url, league.
- LScript.GetMatchStats: a failure inside the loop is folded into the `StatsFailed` outcome of the request, because the extracted rows cannot raise.
- LScript.ExtractMatchesForDate: the statistics are fetched only for a new identifier, as in the source. Because the request is a pure input, the number of requests is not observable.
