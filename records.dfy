/** The record normaliser: one row of the registration table, a map from
    column label to raw text, becomes one PlayerRecord. */
module Records {
  import opened Text
  import opened Countries

  /** One row of the registration table: column label to raw cell text. */
  type Row = map<string, string>

  const CountryLabel: string := "Państwo/Country"
  const FirstNameLabel: string := "Imię/First name"
  const LastNameLabel: string := "Nazwisko/Last name"
  const NicknameLabel: string := "Pseudonim/Nickname"
  const EmaIdLabel: string := "EMA ID"
  const PaidLabel: string := "Wpisowe"

  /** The only raw value of the fee column that means "paid". */
  const PaidToken: string := "TRUE"

  /** The labels the normaliser reads, in the order it reads them. */
  const RequiredLabels: seq<string> := [CountryLabel, FirstNameLabel, LastNameLabel, NicknameLabel, EmaIdLabel, PaidLabel]

  datatype PlayerRecord = PlayerRecord(
    firstName: string,
    lastName: string,
    nickname: string,
    emaId: string,
    countryPl: string,
    countryEn: string,
    paid: bool)

  /** A value, or the KeyError raised for a missing column label. */
  datatype Result<T> = Ok(value: T) | KeyError(column: string)

  /** The row has every column the normaliser reads. */
  predicate HasRequiredColumns(row: Row)
  {
    CountryLabel in row && FirstNameLabel in row && LastNameLabel in row
    && NicknameLabel in row && EmaIdLabel in row && PaidLabel in row
  }

  lemma RequiredLabelsInOrder()
    ensures RequiredLabels == [CountryLabel, FirstNameLabel, LastNameLabel, NicknameLabel, EmaIdLabel, PaidLabel]
    ensures RequiredLabels[0] == CountryLabel && RequiredLabels[1] == FirstNameLabel
    ensures RequiredLabels[2] == LastNameLabel && RequiredLabels[3] == NicknameLabel
    ensures RequiredLabels[4] == EmaIdLabel && RequiredLabels[5] == PaidLabel
  {
  }

  /** column is the first required label, in reading order, that the row lacks. */
  ghost predicate IsFirstMissing(row: Row, column: string)
  {
    exists i :: 0 <= i < |RequiredLabels| && RequiredLabels[i] == column && column !in row
      && forall j :: 0 <= j < i ==> RequiredLabels[j] in row
  }

  /** The label whose lookup fails first, in the order the normaliser reads them. */
  function MissingColumn(row: Row): (column: string)
    requires !HasRequiredColumns(row)
    ensures column in RequiredLabels && column !in row
  {
    if CountryLabel !in row then CountryLabel
    else if FirstNameLabel !in row then FirstNameLabel
    else if LastNameLabel !in row then LastNameLabel
    else if NicknameLabel !in row then NicknameLabel
    else if EmaIdLabel !in row then EmaIdLabel
    else PaidLabel
  }

  /** The country column as the lookup sees it: stripped, then title-cased. */
  function CountryKey(raw: string): (key: string)
    ensures Strip(key) == key
    ensures IsTitleCased(key)
  {
    StripIdempotent(raw);
    TitleKeepsStripped(Strip(raw));
    TitleIsTitleCased(Strip(raw));
    Title(Strip(raw))
  }

  /** process_response: trims the names and the ID, resolves the country
      through the two-way table and compares the fee column with "TRUE".
      The country column is read first, then the others in record order; the
      first missing one raises KeyError. */
  function ProcessResponse(row: Row): (r: Result<PlayerRecord>)
    ensures r.Ok? <==> HasRequiredColumns(row)
    ensures !HasRequiredColumns(row) ==> r == KeyError(MissingColumn(row))
    ensures r.Ok? ==>
      && r.value.firstName == Strip(row[FirstNameLabel])
      && r.value.lastName == Strip(row[LastNameLabel])
      && r.value.nickname == Strip(row[NicknameLabel])
      && r.value.emaId == Strip(row[EmaIdLabel])
      && (r.value.countryEn, r.value.countryPl) == ResolveCountry(CountryKey(row[CountryLabel]))
      && (r.value.paid <==> row[PaidLabel] == PaidToken)
  {
    RequiredLabelsInOrder();
    if CountryLabel !in row then KeyError(CountryLabel)
    else
      var country := ResolveCountry(CountryKey(row[CountryLabel]));
      if FirstNameLabel !in row then KeyError(FirstNameLabel)
      else if LastNameLabel !in row then KeyError(LastNameLabel)
      else if NicknameLabel !in row then KeyError(NicknameLabel)
      else if EmaIdLabel !in row then KeyError(EmaIdLabel)
      else if PaidLabel !in row then KeyError(PaidLabel)
      else
        Ok(PlayerRecord(
          firstName := Strip(row[FirstNameLabel]),
          lastName := Strip(row[LastNameLabel]),
          nickname := Strip(row[NicknameLabel]),
          emaId := Strip(row[EmaIdLabel]),
          countryPl := country.1,
          countryEn := country.0,
          paid := row[PaidLabel] == PaidToken))
  }

  /** list(map(f, xs)): f applied to every element in order; the first
      element on which f raises aborts the whole list with that error. */
  function MapUntilError<A, B>(f: A -> Result<B>, xs: seq<A>): (r: Result<seq<B>>)
    ensures r.Ok? <==> forall i :: 0 <= i < |xs| ==> f(xs[i]).Ok?
    ensures r.Ok? ==> |r.value| == |xs| && forall i :: 0 <= i < |xs| ==> f(xs[i]) == Ok(r.value[i])
    ensures r.KeyError? ==> exists i :: 0 <= i < |xs| && f(xs[i]) == KeyError(r.column) && forall j :: 0 <= j < i ==> f(xs[j]).Ok?
  {
    if xs == [] then Ok([])
    else
      match f(xs[0])
      case KeyError(column) => KeyError(column)
      case Ok(y) =>
        match MapUntilError(f, xs[1..])
        case KeyError(column) =>
          var i :| 0 <= i < |xs| - 1 && f(xs[1..][i]) == KeyError(column) && forall j :: 0 <= j < i ==> f(xs[1..][j]).Ok?;
          assert f(xs[i + 1]) == KeyError(column);
          assert forall j :: 1 <= j < i + 1 ==> xs[j] == xs[1..][j - 1];
          KeyError(column)
        case Ok(ys) => Ok([y] + ys)
  }

  /** The rows normalised in order (request_responses after the CSV parse);
      a row without every required column aborts them all. */
  function ProcessResponses(rows: seq<Row>): (r: Result<seq<PlayerRecord>>)
    ensures r.Ok? <==> forall i :: 0 <= i < |rows| ==> HasRequiredColumns(rows[i])
    ensures r.Ok? ==> |r.value| == |rows| && forall i :: 0 <= i < |rows| ==> ProcessResponse(rows[i]) == Ok(r.value[i])
    ensures r.KeyError? ==> exists i :: 0 <= i < |rows| && ProcessResponse(rows[i]) == KeyError(r.column)
                                        && forall j :: 0 <= j < i ==> HasRequiredColumns(rows[j])
  {
    MapUntilError(ProcessResponse, rows)
  }

  /** A row missing a required column is rejected with the first missing
      label, in the order the normaliser reads them. */
  lemma ProcessResponseReportsFirstMissing(row: Row)
    requires !HasRequiredColumns(row)
    ensures ProcessResponse(row).KeyError?
    ensures IsFirstMissing(row, ProcessResponse(row).column)
  {
    RequiredLabelsInOrder();
    var column := MissingColumn(row);
    var i := if CountryLabel !in row then 0
      else if FirstNameLabel !in row then 1
      else if LastNameLabel !in row then 2
      else if NicknameLabel !in row then 3
      else if EmaIdLabel !in row then 4
      else 5;
    assert RequiredLabels[i] == column;
    assert forall j :: 0 <= j < i ==> RequiredLabels[j] in row;
  }

  /** The three ways the country column resolves: a Polish name gives its
      English name and keeps itself as the Polish name; an English name is
      kept and gets its Polish name; anything else is copied into both. */
  lemma RecordCountryCases(row: Row)
    requires HasRequiredColumns(row)
    ensures var c, rec := CountryKey(row[CountryLabel]), ProcessResponse(row).value;
      && (c in CountriesMapping ==> rec.countryEn == CountriesMapping[c] && rec.countryPl == c)
      && (c in CountriesPl ==> rec.countryEn == c && rec.countryPl == CountriesPl[c])
      && (c !in CountriesPl && c !in CountriesMapping ==> rec.countryEn == c && rec.countryPl == c)
  {
    var c := CountryKey(row[CountryLabel]);
    MappingIsInverseOfTable();
    if c in CountriesMapping {
      ResolvePolishName(CountriesMapping[c]);
    }
    if c in CountriesPl {
      ResolveEnglishName(c);
    }
  }

  /** Only the exact text "TRUE" marks a fee as paid: no trimming, no case folding. */
  lemma PaidOnlyForExactToken(row: Row)
    requires HasRequiredColumns(row)
    requires row[PaidLabel] in {"true", "True", "", " TRUE", "TRUE ", "1", "FALSE"}
    ensures !ProcessResponse(row).value.paid
  {
  }

  /** The row a record would come from if its fields were typed back in. */
  function RowOf(rec: PlayerRecord): (row: Row)
    ensures HasRequiredColumns(row)
  {
    map[
      CountryLabel := rec.countryEn,
      FirstNameLabel := rec.firstName,
      LastNameLabel := rec.lastName,
      NicknameLabel := rec.nickname,
      EmaIdLabel := rec.emaId,
      PaidLabel := if rec.paid then PaidToken else "FALSE"]
  }

  /** Each column of RowOf(rec) holds the field it was made from. */
  lemma RowOfReadsBack(rec: PlayerRecord)
    ensures var row := RowOf(rec);
      && row[CountryLabel] == rec.countryEn && row[FirstNameLabel] == rec.firstName
      && row[LastNameLabel] == rec.lastName && row[NicknameLabel] == rec.nickname
      && row[EmaIdLabel] == rec.emaId && (row[PaidLabel] == PaidToken <==> rec.paid)
  {
  }

  /** A country key that no table name replaced is already stripped and
      title-cased, so it reads the same when typed in again. */
  lemma PassThroughCountryIsStable(raw: string)
    requires CountryKey(raw) !in CountriesMapping
    ensures ResolveCountry(CountryKey(raw)).0 == CountryKey(raw)
    ensures CountryKey(CountryKey(raw)) == CountryKey(raw)
  {
    var s := Strip(raw);
    StripIdempotent(raw);
    TitleKeepsStripped(s);
    TitleIdempotent(s);
  }

  /** Normalising a record's own fields again gives the same record, as long
      as its English country name reads the same when stripped and
      title-cased (always so for names no table entry replaced). */
  lemma RenormaliseRecord(row: Row)
    requires HasRequiredColumns(row)
    requires var en := ProcessResponse(row).value.countryEn; CountryKey(en) == en
    ensures ProcessResponse(RowOf(ProcessResponse(row).value)) == ProcessResponse(row)
  {
    var rec := ProcessResponse(row).value;
    var again := RowOf(rec);
    RowOfReadsBack(rec);
    var rec2 := ProcessResponse(again).value;
    StripIdempotent(row[FirstNameLabel]);
    StripIdempotent(row[LastNameLabel]);
    StripIdempotent(row[NicknameLabel]);
    StripIdempotent(row[EmaIdLabel]);
    assert rec2.firstName == rec.firstName && rec2.lastName == rec.lastName;
    assert rec2.nickname == rec.nickname && rec2.emaId == rec.emaId;
    ResolveIdempotent(CountryKey(row[CountryLabel]));
    assert rec2.countryEn == rec.countryEn && rec2.countryPl == rec.countryPl;
    assert rec2.paid == rec.paid;
  }

  /** A sample country cell: "polska" typed in lower case with any
      whitespace before and after it becomes Poland / Polska. */
  lemma PaddedPolskaRow(row: Row, before: string, after: string)
    requires forall k :: 0 <= k < |before| ==> IsSpace(before[k])
    requires forall k :: 0 <= k < |after| ==> IsSpace(after[k])
    requires HasRequiredColumns(row)
    requires row[CountryLabel] == before + "polska" + after
    ensures ProcessResponse(row).value.countryEn == "Poland"
    ensures ProcessResponse(row).value.countryPl == "Polska"
  {
    PaddedPolskaKey(before, after);
    ResolvePolska();
  }

  lemma PaddedPolskaKey(before: string, after: string)
    requires forall k :: 0 <= k < |before| ==> IsSpace(before[k])
    requires forall k :: 0 <= k < |after| ==> IsSpace(after[k])
    ensures CountryKey(before + "polska" + after) == "Polska"
  {
    StripRemovesPadding(before, "polska", after);
    TitleOfPolska();
  }

  lemma TitleOfPolska()
    ensures Title("polska") == "Polska"
  {
    var w := "olska";
    assert forall k :: 0 <= k < |w| ==> IsLower(w[k]);
    TitleOfLowerWord('p', w);
    assert ['p'] + w == "polska";
    assert [ToTitle('p')] + w == "Polska";
  }

  lemma ResolvePolska()
    ensures ResolveCountry("Polska") == ("Poland", "Polska")
  {
    PolandEntry();
    ResolvePolishName("Poland");
  }
}
