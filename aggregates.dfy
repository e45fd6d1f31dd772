/** What the updater computes from the normalised records before rendering:
    the cut into participants and waiting list, the number of EMA countries
    represented, and the MERS weight estimate of the tournament. */
module Aggregates {
  import opened Countries
  import opened Records

  /** Seats at the tournament; later registrations go to the waiting list. */
  const MaxParticipants: nat := 84

  /** responses[:84] and responses[84:]: the first 84 registrations take
      part, the rest wait, both in registration order. */
  function Split<T>(responses: seq<T>): (r: (seq<T>, seq<T>))
    ensures r.0 + r.1 == responses
    ensures |r.0| == if |responses| <= MaxParticipants then |responses| else MaxParticipants
    ensures r.1 == [] <==> |responses| <= MaxParticipants
  {
    if |responses| <= MaxParticipants then (responses, [])
    else (responses[..MaxParticipants], responses[MaxParticipants..])
  }

  /** The set of English country names of the records
      (set(val.country_en for val in responses)). */
  function CountriesOf(records: seq<PlayerRecord>): (cs: set<string>)
    ensures |cs| <= |records|
    ensures forall i :: 0 <= i < |records| ==> records[i].countryEn in cs
    ensures forall c :: c in cs ==> exists i :: 0 <= i < |records| && records[i].countryEn == c
  {
    if records == [] then {}
    else
      var rest := CountriesOf(records[..|records| - 1]);
      assert forall i :: 0 <= i < |records| - 1 ==> records[..|records| - 1][i] == records[i];
      rest + {records[|records| - 1].countryEn}
  }

  /** calc_countries: how many EMA member countries the records come from. */
  function CalcCountries(records: seq<PlayerRecord>): (n: nat)
    ensures n <= |records|
    ensures n <= |EmaCountries|
    ensures n <= |CountriesOf(records)|
    ensures n == |set c | c in CountriesOf(records) && c in EmaCountries|
  {
    var cs := CountriesOf(records);
    SubsetSize(cs * EmaCountries, cs);
    SubsetSize(cs * EmaCountries, EmaCountries);
    assert cs * EmaCountries == set c | c in cs && c in EmaCountries;
    |cs * EmaCountries|
  }

  lemma {:induction false} SubsetSize(a: set<string>, b: set<string>)
    requires a <= b
    ensures |a| <= |b|
  {
    if a != {} {
      var x :| x in a;
      SubsetSize(a - {x}, b - {x});
    }
  }

  /** Twenty-one EMA countries, so at most twenty-one are counted. */
  lemma CalcCountriesAtMostEma(records: seq<PlayerRecord>)
    ensures CalcCountries(records) <= 21
  {
    EmaCountriesSize();
  }

  /** Only which countries occur matters: lists with the same countries, in
      any order and with any repetitions and any other fields, count the same. */
  lemma CalcCountriesDependsOnCountriesOnly(a: seq<PlayerRecord>, b: seq<PlayerRecord>)
    requires forall i :: 0 <= i < |a| ==> a[i].countryEn in CountriesOf(b)
    requires forall j :: 0 <= j < |b| ==> b[j].countryEn in CountriesOf(a)
    ensures CalcCountries(a) == CalcCountries(b)
  {
    var ca, cb := CountriesOf(a), CountriesOf(b);
    assert ca <= cb by {
      forall c | c in ca
        ensures c in cb
      {
        var i :| 0 <= i < |a| && a[i].countryEn == c;
      }
    }
    assert cb <= ca by {
      forall c | c in cb
        ensures c in ca
      {
        var j :| 0 <= j < |b| && b[j].countryEn == c;
      }
    }
    assert ca == cb;
  }

  /** In particular a reordering, or a list with the same records repeated,
      counts the same. */
  lemma CalcCountriesSameRecords(a: seq<PlayerRecord>, b: seq<PlayerRecord>)
    requires forall r :: r in a <==> r in b
    ensures CalcCountries(a) == CalcCountries(b)
  {
    forall i | 0 <= i < |a|
      ensures a[i].countryEn in CountriesOf(b)
    {
      assert a[i] in b;
    }
    forall j | 0 <= j < |b|
      ensures b[j].countryEn in CountriesOf(a)
    {
      assert b[j] in a;
    }
    CalcCountriesDependsOnCountriesOnly(a, b);
  }

  /** One more registration adds one exactly when it brings an EMA country
      not yet represented. */
  lemma CalcCountriesAppend(records: seq<PlayerRecord>, r: PlayerRecord)
    ensures var c := r.countryEn;
      CalcCountries(records + [r])
        == CalcCountries(records) + if c in EmaCountries && c !in CountriesOf(records) then 1 else 0
  {
    var cs := CountriesOf(records);
    var c := r.countryEn;
    CountriesOfAppend(records, r);
    IntersectionGrowsByOne(cs, c, EmaCountries);
  }

  /** Adding one element to a set adds one to its intersection with e exactly
      when the element is in e and was not already in the set. */
  lemma IntersectionGrowsByOne(cs: set<string>, c: string, e: set<string>)
    ensures |(cs + {c}) * e| == |cs * e| + if c in e && c !in cs then 1 else 0
  {
    if c in e && c !in cs {
      assert (cs + {c}) * e == cs * e + {c};
    } else {
      assert (cs + {c}) * e == cs * e;
    }
  }

  lemma CountriesOfAppend(records: seq<PlayerRecord>, r: PlayerRecord)
    ensures CountriesOf(records + [r]) == CountriesOf(records) + {r.countryEn}
  {
    assert (records + [r])[..|records|] == records;
  }

  /** A prefix of the registrations (the participants) never counts more
      countries than the whole list. */
  lemma CalcCountriesPrefix(records: seq<PlayerRecord>, k: nat)
    requires k <= |records|
    ensures CalcCountries(records[..k]) <= CalcCountries(records)
  {
    var small, large := CountriesOf(records[..k]), CountriesOf(records);
    assert forall c :: c in small ==> c in large by {
      forall c | c in small
        ensures c in large
      {
        var i :| 0 <= i < k && records[..k][i].countryEn == c;
        assert records[i].countryEn == c;
      }
    }
    SubsetSize(small * EmaCountries, large * EmaCountries);
  }

  /** The bonus for a count in tiers: nothing up to low, a half above low up
      to high, one above high. */
  function TierBonus(x: nat, low: nat, high: nat): (bonus: real)
    requires low < high
    ensures bonus == 0.0 <==> x <= low
    ensures bonus == 0.5 <==> low < x <= high
    ensures bonus == 1.0 <==> high < x
  {
    if low < x <= high then 0.5
    else if x > high then 1.0
    else 0.0
  }

  /** The MERS weight: 2, plus a player bonus (tiers 40 and 80) and a
      country bonus (tiers 5 and 9). */
  function MersEstimate(players: nat, countries: nat): real
  {
    2.0 + TierBonus(players, 40, 80) + TierBonus(countries, 5, 9)
  }

  /** calc_mers, step by step as the source adds the bonuses. */
  method CalcMers(responses: seq<PlayerRecord>) returns (mers: real)
    ensures mers == MersEstimate(|responses|, CalcCountries(responses))
  {
    var numPlayers := |responses|;
    var numCountries := CalcCountries(responses);
    mers := 2.0;
    if 40 < numPlayers <= 80 {
      mers := mers + 0.5;
    } else if numPlayers > 80 {
      mers := mers + 1.0;
    }
    if 5 < numCountries <= 9 {
      mers := mers + 0.5;
    } else if numCountries > 9 {
      mers := mers + 1.0;
    }
  }

  /** The estimate is one of 2, 2.5, 3, 3.5 and 4. */
  lemma MersRange(players: nat, countries: nat)
    ensures MersEstimate(players, countries) in {2.0, 2.5, 3.0, 3.5, 4.0}
    ensures 2.0 <= MersEstimate(players, countries) <= 4.0
  {
  }

  /** More players or more countries never lower the estimate. */
  lemma MersMonotone(p1: nat, c1: nat, p2: nat, c2: nat)
    requires p1 <= p2 && c1 <= c2
    ensures MersEstimate(p1, c1) <= MersEstimate(p2, c2)
  {
  }

  /** The tier edges: 40 players and 5 countries still earn nothing, 80 and 9
      still earn the half, 81 and 10 earn the full bonus; a full house of 84
      from ten EMA countries is weighted 4. */
  lemma MersTierEdges()
    ensures MersEstimate(40, 5) == 2.0
    ensures MersEstimate(41, 5) == 2.5 && MersEstimate(40, 6) == 2.5
    ensures MersEstimate(80, 9) == 3.0
    ensures MersEstimate(81, 9) == 3.5 && MersEstimate(80, 10) == 3.5
    ensures MersEstimate(MaxParticipants, 10) == 4.0
  {
  }
}
