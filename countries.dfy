/** The country tables of the website updater and the two-way lookup between
    English country names (the canonical form) and their Polish names. */
module Countries {

  /** The countries whose players count towards the regional bonus of the
      ranking-points estimate, listed in the order of the source's set literal. */
  const EmaCountryList: seq<string> := [
    "Austria",
    "Belgium",
    "Czech Republic",
    "Denmark",
    "Finland",
    "France",
    "Germany",
    "Hungary",
    "Ireland",
    "Italy",
    "Netherlands",
    "Norway",
    "Poland",
    "Portugal",
    "Romania",
    "Slovakia",
    "Spain",
    "Sweden",
    "Switzerland",
    "Ukraine",
    "United Kingdom"
  ]

  const EmaCountries: set<string> := set c | c in EmaCountryList

  /** The items of the English-to-Polish dictionary, in the order of its literal. */
  const CountryPairs: seq<(string, string)> := [
    ("Austria", "Austria"),
    ("Belarus", "Białoruś"),
    ("Belgium", "Belgia"),
    ("Canada", "Kanada"),
    ("Czech Republic", "Czechy"),
    ("Denmark", "Dania"),
    ("Finland", "Finlandia"),
    ("France", "Francja"),
    ("Germany", "Niemcy"),
    ("Hungary", "Węgry"),
    ("Ireland", "Irlandia"),
    ("Italy", "Włochy"),
    ("Netherlands", "Holandia"),
    ("Norway", "Norwegia"),
    ("Poland", "Polska"),
    ("Portugal", "Portugalia"),
    ("Romania", "Rumunia"),
    ("Slovakia", "Słowacja"),
    ("Spain", "Hiszpania"),
    ("Sweden", "Szwecja"),
    ("Switzerland", "Szwajcaria"),
    ("Ukraine", "Ukraina"),
    ("United Kingdom", "Wielka Brytania")
  ]

  /** English name to Polish name: the single source of truth of the lookup. */
  const CountriesPl: map<string, string> := ToMap(CountryPairs)

  /** Polish name to English name: the dictionary comprehension that swaps every
      item of CountriesPl, taking the items in order. */
  const CountriesMapping: map<string, string> := ToMap(Swapped(CountryPairs))

  /** A Python dictionary built by inserting the pairs in order: a later pair
      overwrites an earlier one with the same key. */
  function ToMap(pairs: seq<(string, string)>): (m: map<string, string>)
    ensures forall i :: 0 <= i < |pairs| ==> pairs[i].0 in m
    ensures forall k :: k in m ==> exists i :: 0 <= i < |pairs| && pairs[i] == (k, m[k])
  {
    if pairs == [] then map[]
    else
      var last := pairs[|pairs| - 1];
      ToMap(pairs[..|pairs| - 1])[last.0 := last.1]
  }

  /** Every pair turned around: (v, k) for each (k, v). */
  function Swapped(pairs: seq<(string, string)>): seq<(string, string)>
  {
    seq(|pairs|, i requires 0 <= i < |pairs| => (pairs[i].1, pairs[i].0))
  }

  /** No two pairs share a key. */
  ghost predicate KeysDistinct(pairs: seq<(string, string)>)
  {
    forall i, j :: 0 <= i < j < |pairs| ==> pairs[i].0 != pairs[j].0
  }

  /** With distinct keys, the dictionary holds every pair as it was given. */
  lemma ToMapHoldsPair(pairs: seq<(string, string)>, i: int)
    requires KeysDistinct(pairs)
    requires 0 <= i < |pairs|
    ensures pairs[i].0 in ToMap(pairs) && ToMap(pairs)[pairs[i].0] == pairs[i].1
  {
    var m := ToMap(pairs);
    var j :| 0 <= j < |pairs| && pairs[j] == (pairs[i].0, m[pairs[i].0]);
    assert !(j < i) && !(i < j);
  }

  /** No two countries share an English name (checked in two halves). */
  lemma EnglishNamesDistinctFirstHalf()
    ensures forall i, j :: 0 <= i < j < |CountryPairs| && i < 12 ==> CountryPairs[i].0 != CountryPairs[j].0
  {
  }

  lemma EnglishNamesDistinctSecondHalf()
    ensures forall i, j :: 12 <= i < j < |CountryPairs| ==> CountryPairs[i].0 != CountryPairs[j].0
  {
  }

  lemma EnglishNamesDistinct()
    ensures KeysDistinct(CountryPairs)
  {
    EnglishNamesDistinctFirstHalf();
    EnglishNamesDistinctSecondHalf();
  }

  /** No two countries share a Polish name. */
  lemma PolishNamesDistinct()
    ensures forall i, j :: 0 <= i < j < |CountryPairs| ==> CountryPairs[i].1 != CountryPairs[j].1
  {
  }

  /** The swapped pairs, too, have distinct keys. */
  lemma SwappedKeysDistinct()
    ensures KeysDistinct(Swapped(CountryPairs))
  {
    PolishNamesDistinct();
  }

  /** No English name is the Polish name of a country listed after it. */
  lemma EnglishNotLaterPolish()
    ensures forall i, j :: 0 <= i < j < |CountryPairs| ==> CountryPairs[i].0 != CountryPairs[j].1
  {
  }

  /** No English name is the Polish name of a country listed before it. */
  lemma EnglishNotEarlierPolish()
    ensures forall i, j :: 0 <= j < i < |CountryPairs| ==> CountryPairs[i].0 != CountryPairs[j].1
  {
  }

  /** An English name that is also a Polish name is the Polish name of that
      same country (only "Austria" is both). */
  lemma SharedNamesAreSameCountry()
    ensures forall i, j :: 0 <= i < |CountryPairs| && 0 <= j < |CountryPairs| && CountryPairs[i].0 == CountryPairs[j].1 ==> i == j
  {
    EnglishNotLaterPolish();
    EnglishNotEarlierPolish();
  }

  /** No country appears twice in the regional list. */
  lemma EmaCountryListDistinct()
    ensures forall i, j :: 0 <= i < j < |EmaCountryList| ==> EmaCountryList[i] != EmaCountryList[j]
  {
  }

  /** The set has one element per entry of a list without repetitions. */
  lemma {:induction false} DistinctListSetSize(s: seq<string>)
    requires forall i, j :: 0 <= i < j < |s| ==> s[i] != s[j]
    ensures |set c | c in s| == |s|
  {
    if s != [] {
      var rest := s[1..];
      DistinctListSetSize(rest);
      assert (set c | c in s) == (set c | c in rest) + {s[0]};
      assert s[0] !in rest by {
        forall k | 0 <= k < |rest| ensures rest[k] != s[0] {
          assert rest[k] == s[k + 1];
        }
      }
    }
  }

  /** The regional set has 21 countries. */
  lemma EmaCountriesSize()
    ensures |EmaCountries| == 21
  {
    EmaCountryListDistinct();
    DistinctListSetSize(EmaCountryList);
  }

  /** A dictionary with distinct keys and distinct values, and the dictionary
      of its swapped pairs, undo each other. */
  lemma SwappedMapInverts(pairs: seq<(string, string)>)
    requires KeysDistinct(pairs) && KeysDistinct(Swapped(pairs))
    ensures forall k :: k in ToMap(pairs) ==> ToMap(pairs)[k] in ToMap(Swapped(pairs)) && ToMap(Swapped(pairs))[ToMap(pairs)[k]] == k
    ensures forall v :: v in ToMap(Swapped(pairs)) ==> ToMap(Swapped(pairs))[v] in ToMap(pairs) && ToMap(pairs)[ToMap(Swapped(pairs))[v]] == v
  {
    var m, swapped := ToMap(pairs), Swapped(pairs);
    var inv := ToMap(swapped);
    forall k | k in m
      ensures m[k] in inv && inv[m[k]] == k
    {
      var i :| 0 <= i < |pairs| && pairs[i] == (k, m[k]);
      ToMapHoldsPair(swapped, i);
    }
    forall v | v in inv
      ensures inv[v] in m && m[inv[v]] == v
    {
      var i :| 0 <= i < |swapped| && swapped[i] == (v, inv[v]);
      ToMapHoldsPair(pairs, i);
    }
  }

  /** If a key that is also a value is always the value of its own pair, the
      swapped dictionary sends every such name to itself. */
  lemma SwappedMapFixesSharedNames(pairs: seq<(string, string)>)
    requires forall i, j :: 0 <= i < |pairs| && 0 <= j < |pairs| && pairs[i].0 == pairs[j].1 ==> i == j
    ensures forall k :: k in ToMap(pairs) && k in ToMap(Swapped(pairs)) ==> ToMap(Swapped(pairs))[k] == k
  {
    var m, swapped := ToMap(pairs), Swapped(pairs);
    var inv := ToMap(swapped);
    forall k | k in m && k in inv
      ensures inv[k] == k
    {
      var i :| 0 <= i < |pairs| && pairs[i] == (k, m[k]);
      var j :| 0 <= j < |swapped| && swapped[j] == (k, inv[k]);
      assert swapped[j] == (pairs[j].1, pairs[j].0);
      assert pairs[i].0 == pairs[j].1;
      assert i == j;
    }
  }

  /** CountriesMapping is exactly the dictionary that swaps every pair of
      CountriesPl: its keys are the Polish names, and each Polish name leads
      back to the English name it came from. */
  lemma MappingIsInverseOfTable()
    ensures forall k :: k in CountriesPl ==> CountriesPl[k] in CountriesMapping && CountriesMapping[CountriesPl[k]] == k
    ensures forall v :: v in CountriesMapping ==> CountriesMapping[v] in CountriesPl && CountriesPl[CountriesMapping[v]] == v
    ensures CountriesMapping.Keys == CountriesPl.Values
  {
    EnglishNamesDistinct();
    SwappedKeysDistinct();
    SwappedMapInverts(CountryPairs);
  }

  /** No two English names share a Polish name. */
  lemma TableInjective()
    ensures forall k, k' :: k in CountriesPl && k' in CountriesPl && CountriesPl[k] == CountriesPl[k'] ==> k == k'
  {
    MappingIsInverseOfTable();
  }

  /** A name that is both an English and a Polish name maps to itself. */
  lemma EnglishNamesFixedByMapping()
    ensures forall k :: k in CountriesPl && k in CountriesMapping ==> CountriesMapping[k] == k
  {
    SharedNamesAreSameCountry();
    SwappedMapFixesSharedNames(CountryPairs);
  }

  /** Position in CountryPairs of the i-th entry of EmaCountryList: the two
      lists agree apart from "Belarus" and "Canada". */
  function EmaPosition(i: int): int
  {
    if i == 0 then 0 else if i == 1 then 2 else i + 2
  }

  lemma EmaListedFirstThird()
    ensures forall i :: 0 <= i < 7 ==> CountryPairs[EmaPosition(i)].0 == EmaCountryList[i]
  {
  }

  lemma EmaListedSecondThird()
    ensures forall i :: 7 <= i < 14 ==> CountryPairs[EmaPosition(i)].0 == EmaCountryList[i]
  {
  }

  lemma EmaListedLastThird()
    ensures forall i :: 14 <= i < |EmaCountryList| ==> CountryPairs[EmaPosition(i)].0 == EmaCountryList[i]
  {
  }

  /** Every country of the regional set has a Polish name. */
  lemma EmaCountriesTranslated()
    ensures EmaCountries <= CountriesPl.Keys
  {
    EmaListedFirstThird();
    EmaListedSecondThird();
    EmaListedLastThird();
    var m := CountriesPl;
    forall c | c in EmaCountries
      ensures c in m
    {
      var i :| 0 <= i < |EmaCountryList| && EmaCountryList[i] == c;
      assert CountryPairs[EmaPosition(i)].0 == c;
    }
  }

  /** The host country's entry. */
  lemma PolandEntry()
    ensures "Poland" in CountriesPl && CountriesPl["Poland"] == "Polska"
  {
    EnglishNamesDistinct();
    assert CountryPairs[14] == ("Poland", "Polska");
    ToMapHoldsPair(CountryPairs, 14);
  }

  /** Python's dict.get(key, default). */
  function Get(m: map<string, string>, key: string, default: string): string
  {
    if key in m then m[key] else default
  }

  /** The lookup of process_response: a Polish name is first turned into its
      English name (any other string is kept), then the English name is
      translated into Polish (any other string is kept).
      Result: (English name, Polish name). */
  function ResolveCountry(c: string): (r: (string, string))
    ensures r.0 in CountriesPl ==> r.1 == CountriesPl[r.0]
    ensures r.0 !in CountriesPl ==> r == (c, c) && c !in CountriesMapping
    ensures c in CountriesMapping ==> r.0 == CountriesMapping[c] && r.0 in CountriesPl
  {
    MappingIsInverseOfTable();
    var en := Get(CountriesMapping, c, c);
    (en, Get(CountriesPl, en, en))
  }

  /** A Polish name resolves to its English name and is kept as the Polish name. */
  lemma ResolvePolishName(k: string)
    requires k in CountriesPl
    ensures ResolveCountry(CountriesPl[k]) == (k, CountriesPl[k])
  {
    MappingIsInverseOfTable();
  }

  /** An English name is kept and gets its Polish name ("Austria" included,
      although it is a Polish name as well). */
  lemma ResolveEnglishName(k: string)
    requires k in CountriesPl
    ensures ResolveCountry(k) == (k, CountriesPl[k])
  {
    EnglishNamesFixedByMapping();
  }

  /** A string that is neither an English nor a Polish name passes through
      unchanged into both fields. */
  lemma ResolveUnknown(c: string)
    requires c !in CountriesPl && c !in CountriesMapping
    ensures ResolveCountry(c) == (c, c)
  {
  }

  /** Resolving either field of a resolved pair again gives the same pair:
      the lookup loses nothing and is stable. */
  lemma ResolveIdempotent(c: string)
    ensures ResolveCountry(ResolveCountry(c).0) == ResolveCountry(c)
    ensures ResolveCountry(ResolveCountry(c).1) == ResolveCountry(c)
  {
    var r := ResolveCountry(c);
    if r.0 in CountriesPl {
      ResolveEnglishName(r.0);
      ResolvePolishName(r.0);
    }
  }
}
