/** Vocabulary shared by the three schedule scrapers: ordered dictionaries,
    match identifiers, and the schedule page as its selectors see it. */
module Common {

  datatype Option<T> = None | Some(value: T)

  /** A Python `dict`: its entries, and its keys in first-insertion order
      (the order in which `list(d.values())` yields the values). */
  datatype Dict<K(==,!new), V> = Dict(keys: seq<K>, entries: map<K, V>) {

    ghost predicate Valid() {
      && (forall i, j :: 0 <= i < j < |keys| ==> keys[i] != keys[j])
      && (forall k :: k in entries <==> k in keys)
    }

    /** `d[k] = v`: a new key goes to the end, a present key keeps its place
        and gets the new value. */
    function Put(k: K, v: V): (r: Dict<K, V>)
      ensures r.entries == entries[k := v]
      ensures keys <= r.keys && |r.keys| <= |keys| + 1
      ensures Valid() ==> r.Valid()
    {
      if k in entries then Dict(keys, entries[k := v]) else Dict(keys + [k], entries[k := v])
    }

    /** `list(d.values())`. */
    function Values(): (vs: seq<V>)
      requires Valid()
      ensures |vs| == |keys| == |entries|
      ensures forall i :: 0 <= i < |keys| ==> vs[i] == entries[keys[i]]
    {
      DistinctKeysCount(this);
      ValuesOf(keys, entries)
    }
  }

  function EmptyDict<K(==,!new), V>(): (r: Dict<K, V>)
    ensures r.Valid() && r.entries == map[]
  {
    Dict([], map[])
  }

  function ValuesOf<K(==), V>(ks: seq<K>, m: map<K, V>): (vs: seq<V>)
    requires forall k :: k in ks ==> k in m
    ensures |vs| == |ks| && forall i :: 0 <= i < |ks| ==> vs[i] == m[ks[i]]
  {
    if ks == [] then [] else [m[ks[0]]] + ValuesOf(ks[1..], m)
  }

  /** A valid dict has exactly as many entries as it lists keys. */
  lemma {:induction false} DistinctKeysCount<K(!new), V>(d: Dict<K, V>)
    requires d.Valid()
    ensures |d.keys| == |d.entries|
  {
    DistinctSeqCard(d.keys);
    assert d.entries.Keys == set k | k in d.keys;
  }

  lemma {:induction false} DistinctSeqCard<K>(s: seq<K>)
    requires forall i, j :: 0 <= i < j < |s| ==> s[i] != s[j]
    ensures |set k | k in s| == |s|
  {
    if s != [] {
      var init := s[..|s| - 1];
      DistinctSeqCard(init);
      assert (set k | k in s) == (set k | k in init) + {s[|s| - 1]};
      assert s[|s| - 1] !in init;
    }
  }

  /** `e` is `d` with entries added at the end: every key of `d` keeps its value
      and its place in the order. This is the store's first-write-wins shape. */
  ghost predicate Extends<K(!new), V>(d: Dict<K, V>, e: Dict<K, V>) {
    && d.keys <= e.keys
    && (forall k :: k in d.entries ==> k in e.entries && e.entries[k] == d.entries[k])
  }

  /** Extending a dict only appends to its list of values. */
  lemma ExtendsValues<K(!new), V>(d: Dict<K, V>, e: Dict<K, V>)
    requires d.Valid() && e.Valid() && Extends(d, e)
    ensures |d.keys| <= |e.keys| && e.Values()[..|d.keys|] == d.Values()
  {
    var dv, ev := d.Values(), e.Values();
    forall i | 0 <= i < |dv|
      ensures ev[i] == dv[i]
    {
      assert e.keys[i] == d.keys[i];
    }
  }

  lemma ExtendsTrans<K(!new), V>(a: Dict<K, V>, b: Dict<K, V>, c: Dict<K, V>)
    requires Extends(a, b) && Extends(b, c)
    ensures Extends(a, c)
  {
    assert a.keys == b.keys[..|a.keys|] && b.keys == c.keys[..|b.keys|];
    assert a.keys == c.keys[..|a.keys|];
  }

  // ---------------------------------------------------------------------------
  // Strings

  /** Python's `str.lower()` restricted to what can matter here: ASCII capitals
      are lowered, every other character is kept. */
  function LowerChar(c: char): char {
    if 'A' <= c <= 'Z' then (c as int + 32) as char else c
  }

  function Lower(s: string): (r: string)
    ensures |r| == |s| && forall i :: 0 <= i < |s| ==> r[i] == LowerChar(s[i])
  {
    if s == [] then [] else [LowerChar(s[0])] + Lower(s[1..])
  }

  /** `score.lower() == "v"`: the placeholder score of a fixture not yet played. */
  predicate IsFixtureMarker(score: string) {
    Lower(score) == "v"
  }

  lemma FixtureMarkerCases(score: string)
    ensures IsFixtureMarker(score) <==> score == "v" || score == "V"
  {
    if IsFixtureMarker(score) {
      assert |score| == 1 && LowerChar(score[0]) == 'v';
      assert score == [score[0]];
    } else {
      assert Lower("v") == "v" && Lower("V") == "v";
    }
  }

  /** Python's `sub in s` on strings. */
  predicate Occurs(sub: string, s: string)
    decreases |s|
  {
    sub <= s || (|s| > 0 && Occurs(sub, s[1..]))
  }

  /** `sub in s` holds exactly when `sub` appears at some position of `s`. */
  lemma {:induction false} OccursSpec(sub: string, s: string)
    ensures Occurs(sub, s) <==> exists i :: 0 <= i <= |s| - |sub| && sub <= s[i..]
    decreases |s|
  {
    if |s| > 0 {
      OccursSpec(sub, s[1..]);
      if exists i :: 0 <= i <= |s| - |sub| && sub <= s[i..] {
        var i :| 0 <= i <= |s| - |sub| && sub <= s[i..];
        if i > 0 {
          assert s[1..][i - 1..] == s[i..];
        }
      }
      if exists i :: 0 <= i <= |s[1..]| - |sub| && sub <= s[1..][i..] {
        var i :| 0 <= i <= |s[1..]| - |sub| && sub <= s[1..][i..];
        assert s[1..][i..] == s[i + 1..];
      }
    } else {
      assert sub <= s ==> sub == [];
    }
  }

  // ---------------------------------------------------------------------------
  // Match identifiers: `re.search(r"gameId/(\d+)", href).group(1)`

  const GameIdMarker: string := "gameId/"

  predicate IsDigit(c: char) { '0' <= c <= '9' }

  predicate AllDigits(s: string) { forall i :: 0 <= i < |s| ==> IsDigit(s[i]) }

  /** A match identifier as the scrapers store it: a non-empty digit string. */
  predicate IsGameId(s: string) { |s| > 0 && AllDigits(s) }

  /** The regular expression matches at position `i`: the marker, then a digit. */
  predicate IdAt(href: string, i: int) {
    0 <= i && i + 7 < |href| && GameIdMarker <= href[i..] && IsDigit(href[i + 7])
  }

  /** The longest run of digits starting at `k` (the greedy `\d+`). */
  function DigitRun(s: string, k: nat): (r: string)
    requires k <= |s|
    decreases |s| - k
    ensures k + |r| <= |s| && s[k..k + |r|] == r && AllDigits(r)
    ensures k + |r| == |s| || !IsDigit(s[k + |r|])
    ensures k < |s| && IsDigit(s[k]) ==> |r| > 0
  {
    if k < |s| && IsDigit(s[k]) then [s[k]] + DigitRun(s, k + 1) else []
  }

  /** Searches for the leftmost match at or after position `i`. */
  function SearchGameId(href: string, i: nat): (r: Option<string>)
    decreases |href| - i
    ensures r.Some? ==> IsGameId(r.value)
  {
    if |href| <= i + 7 then None
    else if IdAt(href, i) then Some(DigitRun(href, i + 7))
    else SearchGameId(href, i + 1)
  }

  /** The identifier in a result link, if the link carries one. */
  function ExtractGameId(href: string): (r: Option<string>)
    ensures r.Some? ==> IsGameId(r.value)
  {
    SearchGameId(href, 0)
  }

  /** The search finds the leftmost position where the marker is followed by a
      digit, and yields the whole digit run there; it finds nothing exactly
      when no position qualifies. */
  lemma {:induction false} SearchGameIdSpec(href: string, i: nat)
    ensures SearchGameId(href, i).None? <==> forall j :: i <= j ==> !IdAt(href, j)
    ensures SearchGameId(href, i).Some? ==>
              exists j :: && i <= j && IdAt(href, j)
                          && (forall l :: i <= l < j ==> !IdAt(href, l))
                          && SearchGameId(href, i).value == DigitRun(href, j + 7)
    decreases |href| - i
  {
    if |href| <= i + 7 {
      assert forall j :: i <= j ==> !IdAt(href, j);
    } else if IdAt(href, i) {
      assert SearchGameId(href, i).value == DigitRun(href, i + 7);
    } else {
      SearchGameIdSpec(href, i + 1);
      if SearchGameId(href, i + 1).Some? {
        var j :| && i + 1 <= j && IdAt(href, j)
                 && (forall l :: i + 1 <= l < j ==> !IdAt(href, l))
                 && SearchGameId(href, i + 1).value == DigitRun(href, j + 7);
        assert forall l :: i <= l < j ==> !IdAt(href, l);
      }
    }
  }

  lemma ExtractGameIdSpec(href: string)
    ensures ExtractGameId(href).None? <==> forall j :: !IdAt(href, j)
    ensures ExtractGameId(href).Some? ==>
              exists j :: && IdAt(href, j)
                          && (forall l :: 0 <= l < j ==> !IdAt(href, l))
                          && ExtractGameId(href).value == DigitRun(href, j + 7)
  {
    SearchGameIdSpec(href, 0);
  }

  // ---------------------------------------------------------------------------
  // The parsed schedule page

  /** The `a.AnchorLink.at` score link: its stripped text and its `href`
      attribute, which a malformed row may lack. */
  datatype Link = Link(text: string, href: Option<string>)

  /** A `div.ResponsiveTable` section: its optional `div.Table__Title` caption
      and its rows in document order. */
  datatype Table<R> = Table(title: Option<string>, rows: seq<R>)

  /** The outcome of requesting one schedule page. */
  datatype Fetch<R> = Failed | Loaded(tables: seq<Table<R>>)

  /** The `date` stored with the matches of a table: its caption, else the
      requested date string. */
  function DateText<R>(t: Table<R>, dateStr: string): string {
    match t.title
    case Some(caption) => caption
    case None => dateStr
  }

  const EspnRoot: string := "https://www.espn.com"

  /** What a row that passed every check yields. */
  datatype Candidate = Candidate(gameId: string, team1: string, team2: string, score: string, href: string)

  /** What the checks decide about one row. */
  datatype Verdict = Skip | Stop | Keep(c: Candidate)
}
