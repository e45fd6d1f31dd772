/** One run of the updater: normalise every registration, split off the
    waiting list, compute the figures the pages show, and publish. */
module Pipeline {
  import opened Countries
  import opened Records
  import opened Aggregates
  import opened Publish

  /** What the page templates are rendered with (the clock reading aside). */
  datatype SiteData = SiteData(
    participants: seq<PlayerRecord>,
    waitingList: seq<PlayerRecord>,
    numCountries: nat,
    numMers: real)

  /** The figures of process, from the normalised registrations: countries
      and MERS are computed over the participants only. */
  function Summarise(records: seq<PlayerRecord>): (d: SiteData)
    ensures d.participants + d.waitingList == records
    ensures |d.participants| == if |records| <= MaxParticipants then |records| else MaxParticipants
    ensures d.numCountries == CalcCountries(d.participants)
    ensures d.numCountries <= |d.participants| && d.numCountries <= CalcCountries(records)
    ensures d.numMers == MersEstimate(|d.participants|, d.numCountries)
    ensures 2.0 <= d.numMers <= 4.0
    ensures 80 < |records| ==> 3.0 <= d.numMers
  {
    var (participants, waitingList) := Split(records);
    var n := CalcCountries(participants);
    CalcCountriesPrefix(records, |participants|);
    assert records[..|participants|] == participants;
    MersRange(|participants|, n);
    SiteData(participants, waitingList, n, MersEstimate(|participants|, n))
  }

  /** A full house with a waiting list: 90 registrations from six EMA
      countries seat 84, keep 6 waiting, and weigh 3.5. */
  lemma FullHouseExample(records: seq<PlayerRecord>)
    requires |records| == 90
    requires CalcCountries(records[..MaxParticipants]) == 6
    ensures Summarise(records).participants == records[..84]
    ensures Summarise(records).waitingList == records[84..]
    ensures Summarise(records).numMers == 3.5
  {
    MersTierEdges();
    assert MersEstimate(84, 6) == 3.5;
  }

  /** process: a row lacking a column aborts the run before any command
      is issued; otherwise the pages' figures are computed and create_pr
      runs on the repository (whose diff reflects the rendered pages). */
  method Process(rows: seq<Row>, repo: Repo, branch: string, stamp: string, nowText: string, dryRun: bool, force: bool)
    returns (r: Result<SiteData>)
    modifies repo
    ensures r.KeyError? <==> ProcessResponses(rows).KeyError?
    ensures repo.diffLines == old(repo.diffLines)
    ensures r.KeyError? ==>
      && r.column == ProcessResponses(rows).column
      && repo.log == old(repo.log) && repo.executed == old(repo.executed)
    ensures r.Ok? ==>
      && r.value == Summarise(ProcessResponses(rows).value)
      && repo.log == old(repo.log) + CreatePrLog(old(repo.diffLines), branch, stamp, nowText, force)
      && repo.executed == old(repo.executed) + CreatePrRuns(old(repo.diffLines), branch, stamp, nowText, dryRun, force)
  {
    var responses := ProcessResponses(rows);
    if responses.KeyError? {
      return KeyError(responses.column);
    }
    var (participants, waitingList) := Split(responses.value);
    var numCountries := CalcCountries(participants);
    var numMers := CalcMers(participants);
    repo.CreatePr(branch, stamp, nowText, dryRun, force);
    r := Ok(SiteData(participants, waitingList, numCountries, numMers));
  }
}
