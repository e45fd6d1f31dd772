# website-updater, modelled in Dafny

`website_updater.py` regenerates the pages of a mahjong tournament site
from the registration sheet. Each row of the sheet becomes a player record.
The first 84 registrations take part and the rest are on the waiting list.
The participants give two figures: the number of EMA member countries
represented, and an estimate of the tournament's MERS weight. After the
pages are rendered, a pull request is opened on the site repository, but
only when the diff shows more than the pages' modification timestamps, or
when the run is forced. A dry run announces every command but runs none
that writes.

The model has six modules:

- `Text` (`text.dfy`) covers Python's `str.strip()` and `str.title()` as
  the normaliser uses them. It proves that both are idempotent, that
  `strip` removes exactly the whitespace padding, and that `title` yields a
  title-cased string and keeps a stripped string stripped.
- `Countries` (`countries.dfy`) holds the EMA country set, the
  English→Polish table and its inverse. The dictionary literal `COUNTRIES_PL`
  is kept as its ordered pairs, and `ToMap` builds the dictionary from them
  the way Python does, a later pair overwriting an earlier one. The set
  literal `EMA_COUNTRIES` is kept as its list of names and is the set of
  that list. `COUNTRIES_MAPPING`
  is `ToMap` of the swapped pairs, just as the dict comprehension builds it.
  The module proves that the two tables are inverse to each other, that the
  EMA set has 21 members, and that each member has a Polish name. It also
  proves how the country lookup of `process_response` resolves any string.
- `Records` (`records.dfy`) holds `process_response` and the conversion of
  all rows, including the `KeyError` raised for the first missing column.
- `Aggregates` (`aggregates.dfy`) holds the 84-seat split, `calc_countries`
  and `calc_mers`. `calc_mers` is a method that takes the source's steps and
  is proved against a specification function.
- `Publish` (`publish.dfy`) holds the diff scan of `has_new_changes` (a loop
  with an early return) and the `Repo` class. The class records every
  command announced and every command run, so that `create_pr`'s force and
  dry-run rules can be stated as its new state.
- `Pipeline` (`pipeline.dfy`) holds `process`: it converts the rows,
  computes the figures and publishes.

## Model

| member | source | states |
|---|---|---|
| Text.Strip | website_updater.py:85-92 | the result is a slice of the input that neither starts nor ends with whitespace, and everything cut off on either side is whitespace in Python's sense |
| Text.IsSpace | website_updater.py:85-92 | the characters Python's str.isspace() accepts, which str.strip() removes: tab to carriage return, U+001C to space, U+0085, U+00A0, U+1680, U+2000 to U+200A, U+2028, U+2029, U+202F, U+205F and U+3000 |
| Text.TrimmedIsStripOf | website_updater.py:85-92 | removing the leading and then the trailing whitespace cuts out a slice that is a strip of the string |
| Text.StripOfTrims | website_updater.py:85-92 | cutting leading whitespace and then trailing whitespace leaves a slice whose outside is all whitespace and whose ends are not |
| Text.StripIsUnique | website_updater.py:85-92 | no other slice can be a strip of the string: it is fixed by where the whitespace stops |
| Text.IsUpper | website_updater.py:85 | the upper-case letters title() recognises: A to Z and the capitals Ą Ć Ę Ł Ń Ó Ś Ź Ż |
| Text.IsLower | website_updater.py:85 | the lower-case letters: a to z and ą ć ę ł ń ó ś ź ż |
| Text.IsCased | website_updater.py:85 | the cased characters that decide previous_is_cased in title(): exactly the upper- and lower-case letters above |
| Text.StripRemovesPadding | website_updater.py:89-92 | any whitespace padding around a string that does not start or end with whitespace is exactly what strip removes |
| Text.StripAllSpace | website_updater.py:91 | a cell of whitespace only strips to the empty string |
| Text.StripOfStripped | website_updater.py:89-92 | a string without whitespace at either end is left unchanged |
| Text.StripIdempotent | website_updater.py:89-92 | stripping twice is stripping once |
| Text.TrimStart | website_updater.py:85 | the result is a suffix of the input, does not start with whitespace, and only whitespace was removed |
| Text.TrimEnd | website_updater.py:85 | the result is a prefix of the input, does not end with whitespace, and only whitespace was removed |
| Text.CaseClassesDisjoint | website_updater.py:85 | no letter is both upper and lower case, and no cased letter is whitespace |
| Text.ToLower | website_updater.py:85 | an upper-case letter becomes lower case; any other character is unchanged |
| Text.ToTitle | website_updater.py:85 | a lower-case letter becomes upper case; any other character is unchanged |
| Text.CaseMappingsPair | website_updater.py:85 | lower-casing and title-casing pair each capital with its own small letter: each undoes the other, and lower-casing forgets only the case |
| Text.TitleFrom | website_updater.py:85 | the length, and whether each character is cased, are kept; uncased characters are unchanged |
| Text.TitleFromChangesOnlyCase | website_updater.py:85 | title() changes only the case of letters: every character of the result lower-cases to what the original character lower-cases to |
| Text.Title | website_updater.py:85 | the length is kept and characters without case are unchanged |
| Text.TitleFromIsTitleCased | website_updater.py:85 | the result of title-casing is title-cased: a cased letter is upper case exactly when the character before it is not cased |
| Text.TitleIsTitleCased | website_updater.py:85 | str.title() always yields a title-cased string |
| Text.TitleFromKeepsTitleCased | website_updater.py:85 | a string that is already title-cased is left as it is |
| Text.TitleOfTitleCased | website_updater.py:85 | title() of a title-cased string is the string itself |
| Text.TitleIdempotent | website_updater.py:85 | title() applied twice equals title() applied once |
| Text.TitleOfLowerWord | website_updater.py:85 | a word of lower-case letters gets only its first letter in upper case |
| Text.TitleKeepsStripped | website_updater.py:85 | title() of a stripped string is still stripped, so `strip().title()` yields a stripped string |
| Countries.ToMap | website_updater.py:42-68 | every key of the pairs is in the dictionary, and every entry of the dictionary is one of the pairs |
| Countries.ToMapHoldsPair | website_updater.py:42-68 | with distinct keys, the dictionary maps each key to its own value |
| Countries.EnglishNamesDistinct | website_updater.py:42-66 | no two entries of COUNTRIES_PL share an English name |
| Countries.PolishNamesDistinct | website_updater.py:42-66 | no two entries of COUNTRIES_PL share a Polish name |
| Countries.SwappedKeysDistinct | website_updater.py:68 | the swapped pairs have distinct keys, so the comprehension overwrites nothing |
| Countries.EnglishNotLaterPolish | website_updater.py:42-66 | no English name is the Polish name of a later entry |
| Countries.EnglishNotEarlierPolish | website_updater.py:42-66 | no English name is the Polish name of an earlier entry |
| Countries.SharedNamesAreSameCountry | website_updater.py:42-66 | a string that is an English name and also a Polish name belongs to a single entry (only "Austria") |
| Countries.EmaCountryListDistinct | website_updater.py:18-40 | the EMA set literal lists each country once |
| Countries.DistinctListSetSize | website_updater.py:18-40 | a list without repetitions has as many elements as its set |
| Countries.EmaCountriesSize | website_updater.py:18-40 | EMA_COUNTRIES has 21 members |
| Countries.SwappedMapInverts | website_updater.py:68 | for distinct keys and values, the dictionary of the swapped pairs is the inverse of the dictionary of the pairs |
| Countries.SwappedMapFixesSharedNames | website_updater.py:68 | when a name is both a key and a value only within one pair, the inverse maps that name to itself |
| Countries.MappingIsInverseOfTable | website_updater.py:42-68 | COUNTRIES_MAPPING maps each Polish name back to its English name and vice versa, and its keys are exactly the Polish names |
| Countries.TableInjective | website_updater.py:42-66 | different English names have different Polish names |
| Countries.EnglishNamesFixedByMapping | website_updater.py:42-68 | an English name that is also a key of COUNTRIES_MAPPING is mapped to itself |
| Countries.EmaCountriesTranslated | website_updater.py:18-66 | every EMA country has a Polish name |
| Countries.PolandEntry | website_updater.py:57 | Poland is called Polska |
| Countries.ResolveCountry | website_updater.py:85-94 | an English name found in the table comes with its Polish name; a name not found is kept in both fields and is no Polish name either; a Polish name becomes its English name |
| Countries.ResolvePolishName | website_updater.py:86-94 | a Polish name yields its English name and keeps itself as the Polish name |
| Countries.ResolveEnglishName | website_updater.py:86-94 | an English name is kept and gets its Polish name, "Austria" included |
| Countries.ResolveUnknown | website_updater.py:86-94 | a name in neither table is copied unchanged into both fields |
| Countries.ResolveIdempotent | website_updater.py:86-94 | resolving either field of a resolved pair again gives the same pair |
| Records.MissingColumn | website_updater.py:85-95 | the label named is required and absent from the row |
| Records.HasRequiredColumns | website_updater.py:85-95 | the row has all six columns process_response reads |
| Records.CountryKey | website_updater.py:85 | the country cell after `.strip().title()`: the key is stripped and title-cased |
| Records.ProcessResponse | website_updater.py:84-96 | a record exactly when all six columns are present; the names and the ID are the stripped cells; the country pair is the lookup of the stripped, title-cased cell; paid exactly when the cell is "TRUE"; otherwise the KeyError of the first missing column |
| Records.ProcessResponseReportsFirstMissing | website_updater.py:85-95 | a row missing a column fails with the first missing label in reading order: every label read before it is present |
| Records.MapUntilError | website_updater.py:174-178 | list(map(f, xs)) succeeds exactly when f succeeds on every element, with the results in order; otherwise it fails with the error of the first failing element |
| Records.ProcessResponses | website_updater.py:174-178 | all rows are converted, in order, exactly when each row has every column; otherwise the first incomplete row's missing column is reported |
| Records.RecordCountryCases | website_updater.py:85-94 | the record's countries in the three cases: a Polish name typed in, an English name typed in, anything else |
| Records.PaidOnlyForExactToken | website_updater.py:95 | "true", "True", "", " TRUE", "TRUE ", "1" and "FALSE" do not mark a fee as paid |
| Records.RowOf | website_updater.py:84-96 | a row holding a record's fields has every required column |
| Records.RowOfReadsBack | website_updater.py:84-96 | each column of that row holds the field it was built from |
| Records.PassThroughCountryIsStable | website_updater.py:85-94 | a country cell matching no table name yields an English name that is already stripped and title-cased |
| Records.RenormaliseRecord | website_updater.py:84-96 | normalising a record's own fields again gives the same record, provided its English country name is stable under strip and title |
| Records.PaddedPolskaRow | website_updater.py:85-94 | a country cell "polska" with any whitespace before it and any whitespace after it yields Poland / Polska |
| Records.PaddedPolskaKey | website_updater.py:85 | such a cell, whatever whitespace surrounds it on either side, normalises to "Polska" |
| Records.TitleOfPolska | website_updater.py:85 | "polska".title() is "Polska" |
| Records.ResolvePolska | website_updater.py:86-94 | "Polska" resolves to Poland / Polska |
| Aggregates.Split | website_updater.py:136-137 | the participants followed by the waiting list are all registrations in order; there are min(84, n) participants; the waiting list is empty exactly when n ≤ 84 |
| Aggregates.CountriesOf | website_updater.py:215 | every record's English country is in the set, every member comes from some record, and there are no more members than records |
| Aggregates.CalcCountries | website_updater.py:214-217 | the number of EMA countries among the records' countries, at most the number of distinct countries among them, at most the number of records and at most the size of the EMA set |
| Aggregates.SubsetSize | website_updater.py:216-217 | a subset has no more elements than its superset |
| Aggregates.CalcCountriesAtMostEma | website_updater.py:214-217 | at most 21 countries are counted |
| Aggregates.CalcCountriesDependsOnCountriesOnly | website_updater.py:214-217 | record lists with the same set of countries count the same |
| Aggregates.CalcCountriesSameRecords | website_updater.py:214-217 | reordering or repeating records does not change the count |
| Aggregates.CalcCountriesAppend | website_updater.py:214-217 | one more record adds one exactly when it brings an EMA country not yet represented |
| Aggregates.CountriesOfAppend | website_updater.py:215 | one more record adds its country to the set of countries |
| Aggregates.IntersectionGrowsByOne | website_updater.py:216-217 | adding an element to a set adds one to its intersection with another set exactly when the element is in that set and was new |
| Aggregates.CalcCountriesPrefix | website_updater.py:214-217 | the participants never count more countries than all registrations |
| Aggregates.TierBonus | website_updater.py:226-234 | nothing up to the low tier, a half above low up to high, one above high |
| Aggregates.MersEstimate | website_updater.py:224-236 | the MERS weight: 2, plus the tier bonus of the players (40, 80) and the tier bonus of the countries (5, 9) |
| Aggregates.CalcMers | website_updater.py:220-236 | the estimate is 2 plus the player bonus (tiers 40 and 80) plus the country bonus (tiers 5 and 9) |
| Aggregates.MersRange | website_updater.py:220-236 | the estimate is one of 2, 2.5, 3, 3.5 and 4 |
| Aggregates.MersMonotone | website_updater.py:220-236 | more players or more countries never lower the estimate |
| Aggregates.MersTierEdges | website_updater.py:220-236 | 40 players and 5 countries earn nothing, 41 or 6 earn a half, 80 and 9 still earn a half each, 81 or 10 earn the full bonus, 84 from ten countries weigh 4 |
| Publish.ChangeLineIsPrefixTest | website_updater.py:205 | the change-line test agrees with `startswith(("> ", "< "))` |
| Publish.IsChangeLine | website_updater.py:205 | a line of diff's output that starts with "> " or "< " |
| Publish.IsSignificant | website_updater.py:205-209 | a change line whose content after the two-character marker does not start with "last_modified_at: " |
| Publish.HasSignificantChange | website_updater.py:204-211 | some line of the diff is significant |
| Publish.NonChangeLineExamples | website_updater.py:204-206 | empty, ">", ">x", hunk headers, "---" and indented lines are never changes; "> " and "> title: Riichi" are |
| Publish.TimestampLinesIgnored | website_updater.py:207-209 | an added or removed line with the timestamp key and any value is ignored |
| Publish.TimestampKeyWithoutSpaceCounts | website_updater.py:208 | the key followed by no space is a significant change |
| Publish.IndentedTimestampKeyCounts | website_updater.py:207-208 | the key after a further space is a significant change |
| Publish.SignificantChangeConcat | website_updater.py:204-211 | a diff is significant exactly when one of its two parts is |
| Publish.InsignificantLinesChangeNothing | website_updater.py:204-211 | inserting lines that are not significant anywhere changes no decision |
| Publish.TimestampOnlyDiffIsInsignificant | website_updater.py:204-211 | a diff whose only changed lines are timestamps is not significant |
| Publish.PrTitle | website_updater.py:190 | "chore: update to " followed by the formatted clock reading |
| Publish.PrBody | website_updater.py:191 | the fixed sentence followed by the full clock reading |
| Publish.CommitCmd | website_updater.py:197 | git commit -a -m with the title |
| Publish.PushCmd | website_updater.py:198 | git push -u origin with the branch |
| Publish.OpenPrCmd | website_updater.py:199 | gh pr create with the title and the body |
| Publish.PrCommands | website_updater.py:197-199 | the commit, the push and the pull-request command, in that order |
| Publish.CreatePrLog | website_updater.py:193-199 | the commands create_pr announces: the diff unless forced, then the three publishing commands when forced or when the diff is significant |
| Publish.CreatePrRuns | website_updater.py:193-199 | the commands create_pr runs: the same, with the publishing commands left out in a dry run |
| Publish.ForcedUpdatePublishes | website_updater.py:193-199 | a forced update commits, pushes and opens the pull request without running the diff |
| Publish.NoChangeNoPullRequest | website_updater.py:193-195 | without force, a diff with no significant line runs only the diff command |
| Publish.DryRunOnlyReads | website_updater.py:189-199 | a dry run runs nothing but, at most, the diff |
| Publish.RealRunRunsWhatItAnnounces | website_updater.py:189-199 | outside a dry run, every announced command is run |
| Publish.PullRequestNamesUpdate | website_updater.py:190-199 | the commit and the pull request carry the same title ending in the update time, the push names the branch, and the body ends in the retrieval time |
| Publish.Repo.constructor | website_updater.py:189 | a repository with the given diff and no commands yet |
| Publish.Repo.ExecuteCmd | website_updater.py:104-109 | the command is always announced and is run unless this is a dry run |
| Publish.Repo.HasNewChanges | website_updater.py:202-211 | true exactly when some line of the diff is a significant change; the diff command is announced and run even in a dry run |
| Publish.Repo.CreatePr | website_updater.py:189-199 | the commands announced and run are those of CreatePrLog and CreatePrRuns: the diff unless forced, then the three publishing commands when forced or changed, run only outside a dry run |
| Pipeline.Summarise | website_updater.py:134-139 | participants and waiting list are all registrations in order, with min(84, n) participants; the country figure is calc_countries of the participants, so it is no more than the participants and no more than over all registrations; the estimate is MersEstimate of the participants, lies between 2 and 4, and is at least 3 above 80 registrations |
| Pipeline.FullHouseExample | website_updater.py:134-139 | 90 registrations with six EMA countries among the first 84: 84 seated, 6 waiting, weight 3.5 |
| Pipeline.Process | website_updater.py:134-171 | a row lacking a column aborts the run with its KeyError before any command is issued; otherwise the figures are those of Summarise and the repository sees exactly create_pr's commands; the repository's diff is left as it was |

## Left out

- Fetching the sheet over HTTP and parsing the CSV (`request_csv`, `csv.DictReader`): the model starts from the parsed rows, each a map from column label to text. Such a map cannot hold the `None` that `csv.DictReader` puts in the missing cells of a short row, so the `AttributeError` that `.strip()` then raises, and the `paid = False` a missing "Wpisowe" cell gives, are not modelled; an absent label models a column missing from the sheet's header.
- `cleanup_repo` (restore, checkout, reset, pull, new branch): its five commands are not part of `Pipeline.Process`'s command trace.
- Rendering the Jinja templates and writing the pages: the diff the repository shows after rendering is a field of `Repo` set from outside.
- Reading the clock and formatting it: the branch name, the title stamp and the body's timestamp are parameters.
- Failing commands (`subprocess.CalledProcessError`) and the output of commands other than the diff: every command is assumed to succeed.
- `str.splitlines()` on the diff and its byte decoding: the diff is given as its lines.
- Argument parsing, logging and the program entry point.
- Text.Title: only ASCII letters and the eighteen Polish letters with diacritics are cased; other Unicode letters, digraphs such as "ǅ" and special title mappings are treated as uncased.
- Records.RenormaliseRecord: it requires the English country name to be stable under strip and title. This is proved for every country key that is not a Polish name of the table (`Records.PassThroughCountryIsStable`), which covers every country typed in English, 22 of the 23 table names included. It is not proved for a record whose country was typed as a Polish name, or as "Austria" (the one English name that is also a Polish one): the English name reached through the table would need its own evaluation of `title()`.
- Aggregates.CalcMers: the result is a `real`. Python returns the integer 2, 3 or 4 when no half-point is added, and a float otherwise; the values are the same.
