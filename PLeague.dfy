/** p_league.py: the incremental run. For each league it loads the league's
    JSON file, scans a short trailing window of dates without ever stopping
    early, adds the matches it has not seen before, counts them, and writes
    the whole store back as a JSON array. */
module PLeague {
  import opened Common
  import opened MatchStore

  // ---------------------------------------------------------------------------
  // JSON documents and `safe_load_json`

  /** A document as `json.load` returns it. Object members stay in file order;
      numbers are integers. */
  datatype Json =
    | JNull
    | JBool(b: bool)
    | JNum(n: int)
    | JStr(s: string)
    | JArr(items: seq<Json>)
    | JObj(fields: seq<(string, Json)>)

  /** The destination file as `safe_load_json` finds it. */
  datatype JsonFile = Missing | Blank | Malformed | Parsed(doc: Json)

  /** `existing_matches`. Keys are Python values: the string identifiers the
      scraper inserts, or whatever a loaded element's "gameId" member held. */
  type Matches = Dict<Json, Json>

  /** `obj[name]` on the dict `json.load` makes of an object: the value of the
      last member with that name, if any. */
  function Field(fields: seq<(string, Json)>, name: string): Option<Json>
  {
    if fields == [] then None
    else if fields[|fields| - 1].0 == name then Some(fields[|fields| - 1].1)
    else Field(fields[..|fields| - 1], name)
  }

  /** `obj[name]` finds a value exactly when some member has that name, and
      it is the value of the last such member. */
  lemma {:induction false} FieldSpec(fields: seq<(string, Json)>, name: string)
    ensures Field(fields, name).None? <==> forall i :: 0 <= i < |fields| ==> fields[i].0 != name
    ensures Field(fields, name).Some? ==>
              exists i :: && 0 <= i < |fields| && fields[i].0 == name && Field(fields, name).value == fields[i].1
                          && forall j :: i < j < |fields| ==> fields[j].0 != name
  {
    if fields != [] {
      var init := fields[..|fields| - 1];
      FieldSpec(init, name);
      assert forall i :: 0 <= i < |init| ==> init[i] == fields[i];
    }
  }

  /** The dict `json.load` makes of an object, in member order; a repeated
      member keeps its first place and takes its last value. */
  function ObjectDict(fields: seq<(string, Json)>): (d: Matches)
    ensures d.Valid()
  {
    if fields == [] then EmptyDict()
    else ObjectDict(fields[..|fields| - 1]).Put(JStr(fields[|fields| - 1].0), fields[|fields| - 1].1)
  }

  /** Its keys are the member names, each holding what `obj[name]` gives. */
  lemma {:induction false} ObjectDictSpec(fields: seq<(string, Json)>)
    ensures var d := ObjectDict(fields);
            && (forall k :: k in d.entries ==> k.JStr?)
            && (forall name :: Field(fields, name).Some? <==> JStr(name) in d.entries)
            && (forall name :: JStr(name) in d.entries ==> Field(fields, name) == Some(d.entries[JStr(name)]))
  {
    if fields != [] {
      ObjectDictSpec(fields[..|fields| - 1]);
    }
  }

  /** Lists and objects cannot be dict keys. */
  predicate Hashable(k: Json) { !k.JArr? && !k.JObj? }

  datatype KeyOutcome = NoKey | KeyOf(k: Json) | Raises

  /** How `{m["gameId"]: m for m in data if "gameId" in m}` treats one element:
      an object without the member is dropped; an object whose member is a list
      or an object raises when used as a key; for a string `in` is a substring
      test and `m["gameId"]` then raises; for a list `in` is membership and
      indexing then raises; `in` raises on numbers, booleans and null. */
  function ItemKey(m: Json): (r: KeyOutcome)
    ensures r.KeyOf? ==> m.JObj? && Field(m.fields, "gameId") == Some(r.k) && Hashable(r.k)
    ensures m.JObj? && Field(m.fields, "gameId").None? ==> r.NoKey?
  {
    match m
    case JObj(fields) =>
      (match Field(fields, "gameId")
       case None => NoKey
       case Some(k) => if Hashable(k) then KeyOf(k) else Raises)
    case JStr(s) => if Occurs("gameId", s) then Raises else NoKey
    case JArr(xs) => if JStr("gameId") in xs then Raises else NoKey
    case _ => Raises
  }

  /** Every stored value is an element whose "gameId" is its own key. */
  ghost predicate WellKeyed(d: Matches) {
    forall k :: k in d.entries ==> ItemKey(d.entries[k]) == KeyOf(k)
  }

  /** The dict comprehension; `None` when it raises. */
  function LoadItems(items: seq<Json>): (r: Option<Matches>)
    ensures r.Some? ==> r.value.Valid()
  {
    if items == [] then Some(EmptyDict())
    else
      match LoadItems(items[..|items| - 1])
      case None => None
      case Some(d) =>
        var m := items[|items| - 1];
        match ItemKey(m)
        case NoKey => Some(d)
        case Raises => None
        case KeyOf(k) => Some(d.Put(k, m))
  }

  /** `safe_load_json`: a missing or empty file, a file that does not parse,
      a document that is neither a list nor an object, and a list on which the
      comprehension raises all give the empty store. */
  function SafeLoadJson(file: JsonFile): (r: Matches)
    ensures r.Valid()
  {
    match file
    case Parsed(JArr(items)) =>
      (match LoadItems(items)
       case Some(d) => d
       case None => EmptyDict())
    case Parsed(JObj(fields)) => ObjectDict(fields)
    case _ => EmptyDict()
  }

  /** The comprehension keeps each element under its own "gameId". */
  lemma {:induction false} LoadItemsWellKeyed(items: seq<Json>)
    ensures LoadItems(items).Some? ==> WellKeyed(LoadItems(items).value)
  {
    if items != [] {
      LoadItemsWellKeyed(items[..|items| - 1]);
    }
  }

  /** What each kind of file loads as. Everything but an object document
      gives a store whose values carry their own keys. */
  lemma SafeLoadJsonSpec(file: JsonFile)
    ensures var r := SafeLoadJson(file);
            && (!file.Parsed? ==> r == EmptyDict())
            && (file.Parsed? && !file.doc.JArr? && !file.doc.JObj? ==> r == EmptyDict())
            && (file.Parsed? && file.doc.JArr? ==>
                  r == match LoadItems(file.doc.items) case Some(d) => d case None => EmptyDict())
            && (file.Parsed? && file.doc.JObj? ==> r == ObjectDict(file.doc.fields))
            && (!(file.Parsed? && file.doc.JObj?) ==> WellKeyed(r))
  {
    if file.Parsed? && file.doc.JArr? {
      LoadItemsWellKeyed(file.doc.items);
    }
  }

  /** The comprehension raises exactly when some element raises. */
  lemma {:induction false} LoadItemsRaises(items: seq<Json>)
    ensures LoadItems(items).None? <==> exists i :: 0 <= i < |items| && ItemKey(items[i]).Raises?
  {
    if items != [] {
      var init := items[..|items| - 1];
      LoadItemsRaises(init);
      assert forall i :: 0 <= i < |init| ==> init[i] == items[i];
    }
  }

  /** Otherwise its keys are the "gameId" values of the elements that have one. */
  lemma {:induction false} LoadItemsKeys(items: seq<Json>)
    ensures LoadItems(items).Some? ==>
              forall k :: k in LoadItems(items).value.entries <==>
                          exists i :: 0 <= i < |items| && ItemKey(items[i]) == KeyOf(k)
  {
    if items != [] && LoadItems(items).Some? {
      var init := items[..|items| - 1];
      var m := items[|items| - 1];
      LoadItemsKeys(init);
      var d := LoadItems(init).value;
      forall k
        ensures k in LoadItems(items).value.entries <==>
                exists i :: 0 <= i < |items| && ItemKey(items[i]) == KeyOf(k)
      {
        if k in d.entries {
          var i :| 0 <= i < |init| && ItemKey(init[i]) == KeyOf(k);
          assert items[i] == init[i];
        }
        if exists i :: 0 <= i < |items| && ItemKey(items[i]) == KeyOf(k) {
          var i :| 0 <= i < |items| && ItemKey(items[i]) == KeyOf(k);
          if i < |init| {
            assert ItemKey(init[i]) == KeyOf(k);
          }
        }
      }
    }
  }

  /** ... and each key holds the LAST element carrying it. */
  lemma {:induction false} LoadItemsLastWins(items: seq<Json>, i: nat)
    requires i < |items| && ItemKey(items[i]).KeyOf?
    requires forall j :: i < j < |items| ==> ItemKey(items[j]) != ItemKey(items[i])
    ensures LoadItems(items).Some? ==>
              var d, k := LoadItems(items).value, ItemKey(items[i]).k;
              k in d.entries && d.entries[k] == items[i]
  {
    var init := items[..|items| - 1];
    if i < |init| && LoadItems(items).Some? {
      assert init[i] == items[i];
      forall j | i < j < |init|
        ensures ItemKey(init[j]) != ItemKey(init[i])
      {
        assert init[j] == items[j];
      }
      LoadItemsLastWins(init, i);
    }
  }

  /** Writing the store as `list(values())` and loading that array back gives
      the same store, provided each value carries its own key as "gameId". */
  lemma {:induction false} SaveLoadRoundTrip(d: Matches)
    requires d.Valid() && WellKeyed(d)
    ensures SafeLoadJson(Parsed(JArr(d.Values()))) == d
  {
    var vs := d.Values();
    LoadPrefix(d, |d.keys|);
    assert vs[..|d.keys|] == vs;
    PrefixWhole(d);
  }

  lemma PrefixWhole(d: Matches)
    requires d.Valid()
    ensures Prefix(d, |d.keys|) == d
  {
    var p := Prefix(d, |d.keys|);
    assert d.keys[..|d.keys|] == d.keys;
    assert p.entries.Keys == d.entries.Keys;
    assert forall k :: k in p.entries ==> p.entries[k] == d.entries[k];
  }

  /** The first `n` keys of `d` and their entries. */
  ghost function Prefix(d: Matches, n: nat): (p: Matches)
    requires d.Valid() && n <= |d.keys|
    ensures p.keys == d.keys[..n]
    ensures forall k :: k in p.entries <==> k in d.keys[..n]
  {
    Dict(d.keys[..n], map k | k in d.keys[..n] :: d.entries[k])
  }

  lemma {:induction false} LoadPrefix(d: Matches, n: nat)
    requires d.Valid() && WellKeyed(d) && n <= |d.keys|
    ensures LoadItems(d.Values()[..n]) == Some(Prefix(d, n))
  {
    if n == 0 {
      assert d.Values()[..0] == [];
      assert Prefix(d, 0).entries == map[];
    } else {
      LoadPrefix(d, n - 1);
      LoadPrefixStep(d, n);
    }
  }

  /** Loading one more saved value adds its key at the end. */
  lemma LoadPrefixStep(d: Matches, n: nat)
    requires d.Valid() && WellKeyed(d) && 0 < n <= |d.keys|
    requires LoadItems(d.Values()[..n - 1]) == Some(Prefix(d, n - 1))
    ensures LoadItems(d.Values()[..n]) == Some(Prefix(d, n))
  {
    var vs := d.Values();
    var key := d.keys[n - 1];
    var init, item := vs[..n - 1], vs[n - 1];
    SliceSnoc(vs, n);
    assert item == d.entries[key] && ItemKey(item) == KeyOf(key);
    assert LoadItems(init + [item]) == Some(Prefix(d, n - 1).Put(key, item)) by {
      LoadItemsSnoc(init, item);
    }
    assert Prefix(d, n) == Prefix(d, n - 1).Put(key, item) by {
      PrefixStep(d, n);
    }
  }

  lemma SliceSnoc<T>(s: seq<T>, n: nat)
    requires 0 < n <= |s|
    ensures s[..n] == s[..n - 1] + [s[n - 1]]
  {
  }

  lemma LoadItemsSnoc(items: seq<Json>, m: Json)
    requires LoadItems(items).Some? && ItemKey(m).KeyOf?
    ensures LoadItems(items + [m]) == Some(LoadItems(items).value.Put(ItemKey(m).k, m))
  {
    assert (items + [m])[..|items|] == items;
  }

  lemma PrefixStep(d: Matches, n: nat)
    requires d.Valid() && 0 < n <= |d.keys|
    ensures Prefix(d, n) == Prefix(d, n - 1).Put(d.keys[n - 1], d.entries[d.keys[n - 1]])
  {
    var key := d.keys[n - 1];
    var prev := Prefix(d, n - 1);
    assert key !in d.keys[..n - 1];
    assert d.keys[..n] == d.keys[..n - 1] + [key];
    assert Prefix(d, n).entries == prev.entries[key := d.entries[key]];
  }

  // ---------------------------------------------------------------------------
  // Schedule rows and the kept-row checks

  /** A `tr.Table__TR` row as p_league.py sees it: the texts of the anchors
      `span.Table__Team a.AnchorLink:last-child` found (any number of them),
      and the score link if there is one. */
  datatype PairRow = PairRow(teams: seq<string>, score: Option<Link>)

  /** The row checks in their order: exactly two team anchors and a score link;
      a placeholder score `v`; an `href` (a row without one raises and is
      skipped by the row's `except`); an identifier in it. Never stops. */
  function ClassifyPair(row: PairRow): (v: Verdict)
    ensures !v.Stop?
  {
    if |row.teams| != 2 || row.score.None? then Skip
    else if IsFixtureMarker(row.score.value.text) then Skip
    else
      match row.score.value.href
      case None => Skip
      case Some(href) =>
        match ExtractGameId(href)
        case None => Skip
        case Some(id) => Keep(Candidate(id, row.teams[0], row.teams[1], row.score.value.text, href))
  }

  /** A row is kept exactly when it has two team anchors and a score link
      whose text is not the placeholder and whose `href` holds an identifier;
      the candidate carries that identifier and the row's own texts. */
  lemma ClassifyPairSpec(row: PairRow)
    ensures var v := ClassifyPair(row);
            && (v.Keep? <==> && |row.teams| == 2 && row.score.Some?
                             && !IsFixtureMarker(row.score.value.text)
                             && row.score.value.href.Some?
                             && ExtractGameId(row.score.value.href.value).Some?)
            && (v.Keep? ==> && IsGameId(v.c.gameId)
                            && row.teams == [v.c.team1, v.c.team2]
                            && row.score == Some(Link(v.c.score, Some(v.c.href)))
                            && ExtractGameId(v.c.href) == Some(v.c.gameId))
  {
  }

  /** The object a new match is stored as, members in the source's order. */
  function NewEntry(dateText: string, c: Candidate): (j: Json)
    ensures ItemKey(j) == KeyOf(JStr(c.gameId))
  {
    var m1 := [("gameId", JStr(c.gameId))];
    var m2 := m1 + [("date", JStr(dateText))];
    var m3 := m2 + [("team1", JStr(c.team1))];
    var m4 := m3 + [("score", JStr(c.score))];
    var m5 := m4 + [("team2", JStr(c.team2))];
    var m6 := m5 + [("title", JStr(c.team1 + " VS " + c.team2))];
    var m7 := m6 + [("match_url", JStr(EspnRoot + c.href))];
    assert Field(m7, "gameId") == Field(m6, "gameId") == Field(m5, "gameId") == Field(m4, "gameId")
        == Field(m3, "gameId") == Field(m2, "gameId") == Field(m1, "gameId") == Some(JStr(c.gameId));
    JObj(m7)
  }

  /** The store key a row would be inserted under, if it passes the checks. */
  function Kept(row: PairRow): set<Json> {
    match ClassifyPair(row)
    case Keep(c) => {JStr(c.gameId)}
    case _ => {}
  }

  function RowsIds(rows: seq<PairRow>): set<Json> {
    if rows == [] then {} else Kept(rows[0]) + RowsIds(rows[1..])
  }

  function TablesIds(tables: seq<Table<PairRow>>): set<Json> {
    if tables == [] then {} else RowsIds(tables[0].rows) + TablesIds(tables[1..])
  }

  function PageIds(page: Fetch<PairRow>): set<Json> {
    match page
    case Failed => {}
    case Loaded(tables) => TablesIds(tables)
  }

  function DatesIds(code: string, dates: seq<string>, fetch: (string, string) -> Fetch<PairRow>): set<Json> {
    if dates == [] then {} else PageIds(fetch(code, dates[0])) + DatesIds(code, dates[1..], fetch)
  }

  // ---------------------------------------------------------------------------
  // The merge, level by level

  /** One row: an identifier already present is left alone (first write
      wins); a new one is inserted at the end. */
  function PRow(d: Matches, row: PairRow, dateText: string): (r: Matches)
    ensures Extends(d, r)
    ensures d.Valid() ==> r.Valid()
  {
    match ClassifyPair(row)
    case Keep(c) =>
      if JStr(c.gameId) in d.entries then d else d.Put(JStr(c.gameId), NewEntry(dateText, c))
    case _ => d
  }

  /** The rows of one table, in document order. */
  function PRows(d: Matches, rows: seq<PairRow>, dateText: string): (r: Matches)
    decreases |rows|
    ensures Extends(d, r)
    ensures d.Valid() ==> r.Valid()
  {
    if rows == [] then d
    else
      var d1 := PRow(d, rows[0], dateText);
      var r := PRows(d1, rows[1..], dateText);
      ExtendsTrans(d, d1, r);
      r
  }

  /** The tables of one page; each table's matches are dated by its caption,
      else by the requested date string. */
  function PTables(d: Matches, tables: seq<Table<PairRow>>, dateStr: string): (r: Matches)
    decreases |tables|
    ensures Extends(d, r)
    ensures d.Valid() ==> r.Valid()
  {
    if tables == [] then d
    else
      var d1 := PRows(d, tables[0].rows, DateText(tables[0], dateStr));
      var r := PTables(d1, tables[1..], dateStr);
      ExtendsTrans(d, d1, r);
      r
  }

  /** One requested date: a failed request leaves the store as it was. */
  function PPage(d: Matches, page: Fetch<PairRow>, dateStr: string): (r: Matches)
    ensures Extends(d, r)
    ensures d.Valid() ==> r.Valid()
    ensures page.Failed? ==> r == d
  {
    match page
    case Failed => d
    case Loaded(tables) => PTables(d, tables, dateStr)
  }

  /** Every date of the window, in order, never stopping early. */
  function PDates(d: Matches, code: string, dates: seq<string>, fetch: (string, string) -> Fetch<PairRow>): (r: Matches)
    decreases |dates|
    ensures Extends(d, r)
    ensures d.Valid() ==> r.Valid()
  {
    if dates == [] then d
    else
      var d1 := PPage(d, fetch(code, dates[0]), dates[0]);
      var r := PDates(d1, code, dates[1..], fetch);
      ExtendsTrans(d, d1, r);
      r
  }

  /** The store one league's run ends with. */
  function PLeagueRun(code: string, file: JsonFile, dates: seq<string>, fetch: (string, string) -> Fetch<PairRow>): Matches {
    PDates(SafeLoadJson(file), code, dates, fetch)
  }

  /** The row passes the checks with an identifier not stored yet: the
      `total_new += 1` case. */
  predicate AddsNew(d: Matches, row: PairRow) {
    ClassifyPair(row).Keep? && JStr(ClassifyPair(row).c.gameId) !in d.entries
  }

  /** The counter over one table's rows. */
  function RowsNew(d: Matches, rows: seq<PairRow>, dateText: string): nat
    decreases |rows|
  {
    if rows == [] then 0
    else (if AddsNew(d, rows[0]) then 1 else 0) + RowsNew(PRow(d, rows[0], dateText), rows[1..], dateText)
  }

  function TablesNew(d: Matches, tables: seq<Table<PairRow>>, dateStr: string): nat
    decreases |tables|
  {
    if tables == [] then 0
    else
      var dateText := DateText(tables[0], dateStr);
      RowsNew(d, tables[0].rows, dateText) + TablesNew(PRows(d, tables[0].rows, dateText), tables[1..], dateStr)
  }

  function PageNew(d: Matches, page: Fetch<PairRow>, dateStr: string): nat {
    match page
    case Failed => 0
    case Loaded(tables) => TablesNew(d, tables, dateStr)
  }

  function DatesNew(d: Matches, code: string, dates: seq<string>, fetch: (string, string) -> Fetch<PairRow>): nat
    decreases |dates|
  {
    if dates == [] then 0
    else PageNew(d, fetch(code, dates[0]), dates[0]) + DatesNew(PPage(d, fetch(code, dates[0]), dates[0]), code, dates[1..], fetch)
  }

  /** `total_new` of one league's run: one for each row inserted. */
  function NewCount(code: string, file: JsonFile, dates: seq<string>, fetch: (string, string) -> Fetch<PairRow>): nat {
    DatesNew(SafeLoadJson(file), code, dates, fetch)
  }

  /** The array one league's run writes back: `list(existing_matches.values())`. */
  function SavedArray(code: string, file: JsonFile, dates: seq<string>, fetch: (string, string) -> Fetch<PairRow>): seq<Json> {
    PLeagueRun(code, file, dates, fetch).Values()
  }

  /** `dates_to_fetch`: the day before yesterday and yesterday (UTC), with the
      clock and `strftime("%Y%m%d")` as parameters. */
  function DatesToFetch(today: int, dateString: int -> string): seq<string> {
    [dateString(today - 2), dateString(today - 1)]
  }

  // ---------------------------------------------------------------------------
  // Properties of the merge

  /** Each level of the merge keeps every stored value keyed by its own
      "gameId", and ends with every identifier its rows offer stored. */
  lemma PRowCovers(d: Matches, row: PairRow, dateText: string)
    ensures var r := PRow(d, row, dateText);
            (WellKeyed(d) ==> WellKeyed(r)) && Kept(row) <= r.entries.Keys
  {
  }

  lemma {:induction false} PRowsCovers(d: Matches, rows: seq<PairRow>, dateText: string)
    ensures var r := PRows(d, rows, dateText);
            (WellKeyed(d) ==> WellKeyed(r)) && RowsIds(rows) <= r.entries.Keys
    decreases |rows|
  {
    if rows != [] {
      PRowCovers(d, rows[0], dateText);
      PRowsCovers(PRow(d, rows[0], dateText), rows[1..], dateText);
    }
  }

  lemma {:induction false} PTablesCovers(d: Matches, tables: seq<Table<PairRow>>, dateStr: string)
    ensures var r := PTables(d, tables, dateStr);
            (WellKeyed(d) ==> WellKeyed(r)) && TablesIds(tables) <= r.entries.Keys
    decreases |tables|
  {
    if tables != [] {
      var dateText := DateText(tables[0], dateStr);
      PRowsCovers(d, tables[0].rows, dateText);
      PTablesCovers(PRows(d, tables[0].rows, dateText), tables[1..], dateStr);
    }
  }

  lemma {:induction false} PDatesCovers(d: Matches, code: string, dates: seq<string>, fetch: (string, string) -> Fetch<PairRow>)
    ensures var r := PDates(d, code, dates, fetch);
            (WellKeyed(d) ==> WellKeyed(r)) && DatesIds(code, dates, fetch) <= r.entries.Keys
    decreases |dates|
  {
    if dates != [] {
      var page := fetch(code, dates[0]);
      if page.Loaded? {
        PTablesCovers(d, page.tables, dates[0]);
      }
      PDatesCovers(PPage(d, page, dates[0]), code, dates[1..], fetch);
    }
  }

  /** Row `i` is the first of the table kept under `k`. */
  predicate FirstPair(rows: seq<PairRow>, k: Json, i: int) {
    && 0 <= i < |rows| && ClassifyPair(rows[i]).Keep?
    && k == JStr(ClassifyPair(rows[i]).c.gameId)
    && forall j :: 0 <= j < i ==> k !in Kept(rows[j])
  }

  /** Where a new entry comes from: the FIRST row of the table that passes the
      checks with that identifier, stored with the table's date text. */
  lemma {:induction false} PRowsProvenance(d: Matches, rows: seq<PairRow>, dateText: string, k: Json)
    requires k in PRows(d, rows, dateText).entries && k !in d.entries
    ensures exists i :: && FirstPair(rows, k, i)
                        && PRows(d, rows, dateText).entries[k] == NewEntry(dateText, ClassifyPair(rows[i]).c)
    decreases |rows|
  {
    var d1 := PRow(d, rows[0], dateText);
    var r := PRows(d, rows, dateText);
    assert r == PRows(d1, rows[1..], dateText);
    if k in d1.entries {
      assert ClassifyPair(rows[0]).Keep?;
      assert r.entries[k] == d1.entries[k];
      assert FirstPair(rows, k, 0);
    } else {
      PRowsProvenance(d1, rows[1..], dateText, k);
      var i :| FirstPair(rows[1..], k, i) && r.entries[k] == NewEntry(dateText, ClassifyPair(rows[1..][i]).c);
      assert rows[1..][i] == rows[i + 1];
      assert FirstPair(rows, k, i + 1) by {
        forall j | 0 <= j < i + 1
          ensures k !in Kept(rows[j])
        {
          if j > 0 {
            assert rows[1..][j - 1] == rows[j];
          }
        }
      }
    }
  }

  /** Table `t` is the first of the page whose rows offer `k`. */
  predicate FirstPairTable(tables: seq<Table<PairRow>>, k: Json, t: int) {
    0 <= t < |tables| && forall u :: 0 <= u < t ==> k !in RowsIds(tables[u].rows)
  }

  /** Where a new entry of a page comes from: the first row, of the first
      table offering it; it is dated by that table's caption, else by the
      requested date string. */
  lemma {:induction false} PTablesProvenance(d: Matches, tables: seq<Table<PairRow>>, dateStr: string, k: Json)
    requires k in PTables(d, tables, dateStr).entries && k !in d.entries
    ensures exists t, i :: && FirstPairTable(tables, k, t) && FirstPair(tables[t].rows, k, i)
                           && PTables(d, tables, dateStr).entries[k]
                                == NewEntry(DateText(tables[t], dateStr), ClassifyPair(tables[t].rows[i]).c)
    decreases |tables|
  {
    var dateText := DateText(tables[0], dateStr);
    var d1 := PRows(d, tables[0].rows, dateText);
    var r := PTables(d, tables, dateStr);
    assert r == PTables(d1, tables[1..], dateStr);
    if k in d1.entries {
      PRowsProvenance(d, tables[0].rows, dateText, k);
      var i :| FirstPair(tables[0].rows, k, i) && d1.entries[k] == NewEntry(dateText, ClassifyPair(tables[0].rows[i]).c);
      assert r.entries[k] == d1.entries[k];
      assert FirstPairTable(tables, k, 0);
    } else {
      PRowsCovers(d, tables[0].rows, dateText);
      PTablesProvenance(d1, tables[1..], dateStr, k);
      var t, i :| && FirstPairTable(tables[1..], k, t) && FirstPair(tables[1..][t].rows, k, i)
                  && r.entries[k] == NewEntry(DateText(tables[1..][t], dateStr), ClassifyPair(tables[1..][t].rows[i]).c);
      assert tables[1..][t] == tables[t + 1];
      assert FirstPairTable(tables, k, t + 1) by {
        forall u | 0 <= u < t + 1
          ensures k !in RowsIds(tables[u].rows)
        {
          if u > 0 {
            assert tables[1..][u - 1] == tables[u];
          }
        }
      }
    }
  }

  lemma {:induction false} PRowsAppend(d: Matches, a: seq<PairRow>, b: seq<PairRow>, dateText: string)
    ensures PRows(d, a + b, dateText) == PRows(PRows(d, a, dateText), b, dateText)
    decreases |a|
  {
    if a != [] {
      assert (a + b)[0] == a[0] && (a + b)[1..] == a[1..] + b;
      PRowsAppend(PRow(d, a[0], dateText), a[1..], b, dateText);
    } else {
      assert a + b == b;
    }
  }

  /** A row the checks skip (placeholder score `v`, missing team anchors or
      score link, no `href`, no `gameId/<digits>`) contributes nothing: the
      result is as if the row were not there, and the rows after it are still
      processed. */
  lemma SkippedRowIrrelevant(d: Matches, rows: seq<PairRow>, i: nat, dateText: string)
    requires i < |rows| && ClassifyPair(rows[i]) == Skip
    ensures PRows(d, rows, dateText) == PRows(d, rows[..i] + rows[i + 1..], dateText)
  {
    assert rows == rows[..i] + ([rows[i]] + rows[i + 1..]);
    PRowsAppend(d, rows[..i], [rows[i]] + rows[i + 1..], dateText);
    var mid := PRows(d, rows[..i], dateText);
    assert PRows(mid, [rows[i]] + rows[i + 1..], dateText) == PRows(mid, rows[i + 1..], dateText) by {
      assert ([rows[i]] + rows[i + 1..])[1..] == rows[i + 1..];
    }
    PRowsAppend(d, rows[..i], rows[i + 1..], dateText);
  }

  lemma {:induction false} PDatesAppend(d: Matches, code: string, a: seq<string>, b: seq<string>, fetch: (string, string) -> Fetch<PairRow>)
    ensures PDates(d, code, a + b, fetch) == PDates(PDates(d, code, a, fetch), code, b, fetch)
    decreases |a|
  {
    if a != [] {
      assert (a + b)[0] == a[0] && (a + b)[1..] == a[1..] + b;
      PDatesAppend(PPage(d, fetch(code, a[0]), a[0]), code, a[1..], b, fetch);
    } else {
      assert a + b == b;
    }
  }

  /** A date whose request fails changes nothing, and the dates after it are
      still scanned. */
  lemma FailedDateIgnored(d: Matches, code: string, dates: seq<string>, i: nat, fetch: (string, string) -> Fetch<PairRow>)
    requires i < |dates| && fetch(code, dates[i]).Failed?
    ensures PDates(d, code, dates, fetch) == PDates(d, code, dates[..i] + dates[i + 1..], fetch)
  {
    assert dates == dates[..i] + ([dates[i]] + dates[i + 1..]);
    PDatesAppend(d, code, dates[..i], [dates[i]] + dates[i + 1..], fetch);
    var mid := PDates(d, code, dates[..i], fetch);
    assert PDates(mid, code, [dates[i]] + dates[i + 1..], fetch) == PDates(mid, code, dates[i + 1..], fetch) by {
      assert ([dates[i]] + dates[i + 1..])[1..] == dates[i + 1..];
    }
    PDatesAppend(d, code, dates[..i], dates[i + 1..], fetch);
  }

  lemma {:induction false} PRowsSettled(d: Matches, rows: seq<PairRow>, dateText: string)
    requires RowsIds(rows) <= d.entries.Keys
    ensures PRows(d, rows, dateText) == d
    decreases |rows|
  {
    if rows != [] {
      assert PRow(d, rows[0], dateText) == d;
      PRowsSettled(d, rows[1..], dateText);
    }
  }

  lemma {:induction false} PTablesSettled(d: Matches, tables: seq<Table<PairRow>>, dateStr: string)
    requires TablesIds(tables) <= d.entries.Keys
    ensures PTables(d, tables, dateStr) == d
    decreases |tables|
  {
    if tables != [] {
      PRowsSettled(d, tables[0].rows, DateText(tables[0], dateStr));
      PTablesSettled(d, tables[1..], dateStr);
    }
  }

  /** When every identifier the pages offer is already stored, scanning them
      changes nothing. */
  lemma {:induction false} PDatesSettled(d: Matches, code: string, dates: seq<string>, fetch: (string, string) -> Fetch<PairRow>)
    requires DatesIds(code, dates, fetch) <= d.entries.Keys
    ensures PDates(d, code, dates, fetch) == d
    decreases |dates|
  {
    if dates != [] {
      var page := fetch(code, dates[0]);
      if page.Loaded? {
        PTablesSettled(d, page.tables, dates[0]);
      }
      PDatesSettled(d, code, dates[1..], fetch);
    }
  }

  /** Scanning the same pages a second time leaves the store unchanged. */
  lemma PDatesIdempotent(d: Matches, code: string, dates: seq<string>, fetch: (string, string) -> Fetch<PairRow>)
    ensures PDates(PDates(d, code, dates, fetch), code, dates, fetch) == PDates(d, code, dates, fetch)
  {
    PDatesCovers(d, code, dates, fetch);
    PDatesSettled(PDates(d, code, dates, fetch), code, dates, fetch);
  }

  /** A second run over the same pages, starting from the file the first run
      wrote, ends with the same store: nothing is duplicated or overwritten.
      It holds whenever the first run's file was not an object keyed
      inconsistently with its members' "gameId". */
  lemma RerunIsStable(code: string, file: JsonFile, dates: seq<string>, fetch: (string, string) -> Fetch<PairRow>)
    requires WellKeyed(SafeLoadJson(file))
    ensures var first := PLeagueRun(code, file, dates, fetch);
            first.Valid() && PLeagueRun(code, Parsed(JArr(first.Values())), dates, fetch) == first
  {
    var first := PLeagueRun(code, file, dates, fetch);
    PDatesCovers(SafeLoadJson(file), code, dates, fetch);
    SaveLoadRoundTrip(first);
    PDatesIdempotent(SafeLoadJson(file), code, dates, fetch);
  }

  /** Each counted row adds exactly one key, and no other row adds any. */
  lemma {:induction false} RowsNewGrowth(d: Matches, rows: seq<PairRow>, dateText: string)
    ensures |PRows(d, rows, dateText).keys| == |d.keys| + RowsNew(d, rows, dateText)
    decreases |rows|
  {
    if rows != [] {
      var d1 := PRow(d, rows[0], dateText);
      assert |d1.keys| == |d.keys| + (if AddsNew(d, rows[0]) then 1 else 0);
      RowsNewGrowth(d1, rows[1..], dateText);
    }
  }

  lemma {:induction false} TablesNewGrowth(d: Matches, tables: seq<Table<PairRow>>, dateStr: string)
    ensures |PTables(d, tables, dateStr).keys| == |d.keys| + TablesNew(d, tables, dateStr)
    decreases |tables|
  {
    if tables != [] {
      var dateText := DateText(tables[0], dateStr);
      RowsNewGrowth(d, tables[0].rows, dateText);
      TablesNewGrowth(PRows(d, tables[0].rows, dateText), tables[1..], dateStr);
    }
  }

  lemma {:induction false} DatesNewGrowth(d: Matches, code: string, dates: seq<string>, fetch: (string, string) -> Fetch<PairRow>)
    ensures |PDates(d, code, dates, fetch).keys| == |d.keys| + DatesNew(d, code, dates, fetch)
    decreases |dates|
  {
    if dates != [] {
      var page := fetch(code, dates[0]);
      if page.Loaded? {
        TablesNewGrowth(d, page.tables, dates[0]);
      }
      DatesNewGrowth(PPage(d, page, dates[0]), code, dates[1..], fetch);
    }
  }

  /** `total_new` is exactly the growth of the store: the final dict has the
      loaded entries plus `total_new` more. */
  lemma NewCountIsGrowth(code: string, file: JsonFile, dates: seq<string>, fetch: (string, string) -> Fetch<PairRow>)
    ensures |PLeagueRun(code, file, dates, fetch).entries| == |SafeLoadJson(file).entries| + NewCount(code, file, dates, fetch)
  {
    DatesNewGrowth(SafeLoadJson(file), code, dates, fetch);
    DistinctKeysCount(SafeLoadJson(file));
    DistinctKeysCount(PLeagueRun(code, file, dates, fetch));
  }

  /** The saved array starts with the loaded matches, unchanged and in their
      old order; the new matches follow. */
  lemma SavedKeepsLoadedFirst(code: string, file: JsonFile, dates: seq<string>, fetch: (string, string) -> Fetch<PairRow>)
    ensures var loaded := SafeLoadJson(file);
            var final := PLeagueRun(code, file, dates, fetch);
            final.Valid() && |loaded.keys| <= |final.keys| &&
            final.Values()[..|loaded.keys|] == loaded.Values()
  {
    ExtendsValues(SafeLoadJson(file), PLeagueRun(code, file, dates, fetch));
  }

  // ---------------------------------------------------------------------------
  // The script

  /** The row loop of one table: each row that passes the checks and whose
      identifier is not yet stored is inserted and counted. */
  method MergeRows(store: Store<Json, Json>, rows: seq<PairRow>, dateText: string) returns (added: nat)
    modifies store
    ensures store.Contents() == PRows(old(store.Contents()), rows, dateText)
    ensures |store.keys| == |old(store.keys)| + added
    ensures added == RowsNew(old(store.Contents()), rows, dateText)
  {
    ghost var start := store.Contents();
    added := 0;
    var r := 0;
    while r < |rows|
      invariant 0 <= r <= |rows|
      invariant PRows(store.Contents(), rows[r..], dateText) == PRows(start, rows, dateText)
      invariant |store.keys| == |start.keys| + added
    {
      var row := rows[r];
      assert rows[r..][0] == row && rows[r..][1..] == rows[r + 1..];
      var verdict := ClassifyPair(row);
      if verdict.Keep? && JStr(verdict.c.gameId) !in store.entries {
        store.Set(JStr(verdict.c.gameId), NewEntry(dateText, verdict.c));
        added := added + 1;
      }
      r := r + 1;
    }
    RowsNewGrowth(start, rows, dateText);
  }

  /** One league of the main loop: load, scan every date's tables and rows,
      count what is new, and produce the array that is written back. */
  method ScrapeLeague(code: string, file: JsonFile, dates: seq<string>, fetch: (string, string) -> Fetch<PairRow>)
    returns (saved: seq<Json>, totalNew: nat)
    ensures saved == SavedArray(code, file, dates, fetch)
    ensures totalNew == NewCount(code, file, dates, fetch)
    ensures |saved| == |SafeLoadJson(file).entries| + totalNew
  {
    var loaded := SafeLoadJson(file);
    var store := new Store<Json, Json>.Load(loaded);
    ghost var final := PDates(loaded, code, dates, fetch);
    totalNew := 0;
    var i := 0;
    while i < |dates|
      invariant 0 <= i <= |dates|
      invariant PDates(store.Contents(), code, dates[i..], fetch) == final
      invariant |store.keys| == |loaded.keys| + totalNew
    {
      var dateStr := dates[i];
      assert dates[i..][0] == dateStr && dates[i..][1..] == dates[i + 1..];
      var page := fetch(code, dateStr);
      ghost var atDay := store.Contents();
      if page.Loaded? {
        var tables := page.tables;
        var t := 0;
        while t < |tables|
          invariant 0 <= t <= |tables|
              invariant PTables(store.Contents(), tables[t..], dateStr) == PTables(atDay, tables, dateStr)
          invariant |store.keys| == |loaded.keys| + totalNew
        {
          var table := tables[t];
          assert tables[t..][0] == table && tables[t..][1..] == tables[t + 1..];
          var dateText := DateText(table, dateStr);
          var added := MergeRows(store, table.rows, dateText);
          totalNew := totalNew + added;
          t := t + 1;
        }
      }
      assert store.Contents() == PPage(atDay, page, dateStr);
      i := i + 1;
    }
    DatesNewGrowth(loaded, code, dates, fetch);
    DistinctKeysCount(loaded);
    saved := store.Contents().Values();
  }

  /** A league of the configuration: its schedule code and its file. */
  datatype LeagueFile = LeagueFile(code: string, file: JsonFile)

  /** What the whole script writes, league by league. */
  function AllSaved(leagues: seq<LeagueFile>, dates: seq<string>, fetch: (string, string) -> Fetch<PairRow>): seq<seq<Json>> {
    if leagues == [] then []
    else
      var last := leagues[|leagues| - 1];
      AllSaved(leagues[..|leagues| - 1], dates, fetch) + [SavedArray(last.code, last.file, dates, fetch)]
  }

  /** The `total_new` counts the whole script reports, league by league. */
  function AllNew(leagues: seq<LeagueFile>, dates: seq<string>, fetch: (string, string) -> Fetch<PairRow>): seq<nat> {
    if leagues == [] then []
    else
      var last := leagues[|leagues| - 1];
      AllNew(leagues[..|leagues| - 1], dates, fetch) + [NewCount(last.code, last.file, dates, fetch)]
  }

  lemma AllStep(leagues: seq<LeagueFile>, i: nat, dates: seq<string>, fetch: (string, string) -> Fetch<PairRow>)
    requires i < |leagues|
    ensures AllSaved(leagues[..i + 1], dates, fetch)
              == AllSaved(leagues[..i], dates, fetch) + [SavedArray(leagues[i].code, leagues[i].file, dates, fetch)]
    ensures AllNew(leagues[..i + 1], dates, fetch)
              == AllNew(leagues[..i], dates, fetch) + [NewCount(leagues[i].code, leagues[i].file, dates, fetch)]
  {
    assert leagues[..i + 1][..i] == leagues[..i];
  }

  /** The whole script: every league in turn over the same two dates, each
      from its own file and into its own file. */
  method ScrapeAllLeagues(leagues: seq<LeagueFile>, today: int, dateString: int -> string,
                          fetch: (string, string) -> Fetch<PairRow>)
    returns (saved: seq<seq<Json>>, added: seq<nat>)
    ensures saved == AllSaved(leagues, DatesToFetch(today, dateString), fetch)
    ensures added == AllNew(leagues, DatesToFetch(today, dateString), fetch)
  {
    var dates := DatesToFetch(today, dateString);
    saved, added := [], [];
    for i := 0 to |leagues|
      invariant saved == AllSaved(leagues[..i], dates, fetch)
      invariant added == AllNew(leagues[..i], dates, fetch)
    {
      var s, n := ScrapeLeague(leagues[i].code, leagues[i].file, dates, fetch);
      AllStep(leagues, i, dates, fetch);
      saved, added := saved + [s], added + [n];
    }
    assert leagues[..|leagues|] == leagues;
  }
}
