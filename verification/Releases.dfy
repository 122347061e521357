/**
  Which release an agent is offered and which it may download (backend/services/agentReleases.service.js:
  171-201, 256-280, 320-334; backend/repositories/agentReleases.repo.js:120-197).
 */
module Releases {
  import opened Common
  import opened Semver

  datatype Tier = RfbOnly | WebrtcCapable | OtherTier

  datatype Release = Release(id: int, version: string, runtime: string, active: bool, groups: set<string>)

  datatype Agent = Agent(groups: set<string>, tier: Tier, version: Option<string>)

  /** The runtime asked for; an unknown tier asks for none in particular. */
  function RuntimeFor(tier: Tier): Option<string> {
    match tier
    case RfbOnly => Some("net452")
    case WebrtcCapable => Some("net472")
    case OtherTier => None
  }

  function EffectiveGroups(agent: Agent): set<string> {
    if agent.groups != {} then agent.groups else {"rest"}
  }

  predicate Targets(r: Release, agent: Agent) {
    r.groups * EffectiveGroups(agent) != {}
  }

  predicate IsCandidate(r: Release, agent: Agent) {
    Targets(r, agent) && r.active && (RuntimeFor(agent.tier).Some? ==> r.runtime == RuntimeFor(agent.tier).value)
  }

  /** The active releases for the agent's groups and runtime; the table is kept newest upload first. */
  function Candidates(releases: seq<Release>, agent: Agent): seq<Release> {
    if releases == [] then []
    else if IsCandidate(releases[0], agent) then [releases[0]] + Candidates(releases[1..], agent)
    else Candidates(releases[1..], agent)
  }

  lemma {:induction false} CandidatesAre(releases: seq<Release>, agent: Agent, r: Release)
    ensures r in Candidates(releases, agent) <==> r in releases && IsCandidate(r, agent)
  {
    if releases != [] {
      CandidatesAre(releases[1..], agent, r);
      assert releases == [releases[0]] + releases[1..];
    }
  }

  lemma {:induction false} CandidatesConcat(a: seq<Release>, b: seq<Release>, agent: Agent)
    ensures Candidates(a + b, agent) == Candidates(a, agent) + Candidates(b, agent)
  {
    if a == [] {
      assert a + b == b;
    } else {
      assert (a + b)[1..] == a[1..] + b;
      CandidatesConcat(a[1..], b, agent);
    }
  }

  /** Index of the best of the first `n` candidates: the first one that no later one beats. */
  function BestTo(cs: seq<Release>, n: nat): (b: nat)
    requires 0 < n <= |cs|
    ensures b < n
  {
    if n == 1 then 0
    else
      var b := BestTo(cs, n - 1);
      if Compare(cs[n - 1].version, cs[b].version) > 0 then n - 1 else b
  }

  function CurrentVersion(agent: Agent): string {
    if agent.version.None? || agent.version.value == "" then "0.0.0" else agent.version.value
  }

  function CheckForUpdate(releases: seq<Release>, agent: Agent): Option<Release> {
    var cs := Candidates(releases, agent);
    if cs == [] then None
    else
      var best := cs[BestTo(cs, |cs|)];
      if IsNewer(best.version, CurrentVersion(agent)) then Some(best) else None
  }

  // --------------------------------------------- what makes a release fit an agent

  /** One of the release's groups is one of the agent's; an agent without groups counts as one of "rest". */
  ghost predicate AimsAt(r: Release, agent: Agent) {
    exists g :: g in r.groups && (g in agent.groups || (agent.groups == {} && g == "rest"))
  }

  /** Active, aimed at the agent, and built for what its tier can run. */
  ghost predicate Suits(r: Release, agent: Agent) {
    && r.active && AimsAt(r, agent)
    && (agent.tier == RfbOnly ==> r.runtime == "net452")
    && (agent.tier == WebrtcCapable ==> r.runtime == "net472")
  }

  /** The release is newer than what the agent reports; nothing, or an empty string, counts as 0.0.0. */
  predicate IsNews(r: Release, agent: Agent) {
    if agent.version.Some? && agent.version.value != ""
    then Compare(r.version, agent.version.value) > 0
    else Compare(r.version, "0.0.0") > 0
  }

  lemma TargetsMeans(r: Release, agent: Agent)
    ensures Targets(r, agent) <==> AimsAt(r, agent)
  {
    if g :| g in r.groups && (g in agent.groups || (agent.groups == {} && g == "rest")) {
      assert g in r.groups * EffectiveGroups(agent);
    }
    if Targets(r, agent) {
      var g :| g in r.groups * EffectiveGroups(agent);
    }
  }

  lemma CandidateMeans(r: Release, agent: Agent)
    ensures IsCandidate(r, agent) <==> Suits(r, agent)
  {
    TargetsMeans(r, agent);
  }

  lemma OfferMeans(releases: seq<Release>, agent: Agent)
    ensures var offer := CheckForUpdate(releases, agent);
      && (offer.None? <==> forall r :: r in releases && Suits(r, agent) ==> !IsNews(r, agent))
      && (offer.Some? ==>
            && offer.value in releases && Suits(offer.value, agent) && IsNews(offer.value, agent)
            && forall r :: r in releases && Suits(r, agent) ==> Compare(r.version, offer.value.version) <= 0)
  {
    hide CheckForUpdate, Compare, Suits, IsCandidate;
    NothingOfferedExactlyWhen(releases, agent);
    forall r
      ensures IsCandidate(r, agent) <==> Suits(r, agent)
    {
      CandidateMeans(r, agent);
    }
    if CheckForUpdate(releases, agent).Some? {
      OfferIsMaximal(releases, agent);
    }
  }

  method CheckForUpdateService(releases: seq<Release>, agent: Agent) returns (offer: Option<Release>)
    ensures offer == CheckForUpdate(releases, agent)
    ensures offer.None? <==> forall r :: r in releases && Suits(r, agent) ==> !IsNews(r, agent)
    ensures offer.Some? ==>
              && offer.value in releases && Suits(offer.value, agent) && IsNews(offer.value, agent)
              && forall r :: r in releases && Suits(r, agent) ==> Compare(r.version, offer.value.version) <= 0
  {
    OfferMeans(releases, agent);
    hide Suits, IsNews, Compare;
    var candidates := Candidates(releases, agent);
    if candidates == [] {
      return None;
    }
    var best := candidates[0];
    for i := 1 to |candidates|
      invariant best == candidates[BestTo(candidates, i)]
    {
      var c := CompareVersions(candidates[i].version, best.version);
      if c > 0 {
        best := candidates[i];
      }
    }
    var newer := CompareVersions(best.version, CurrentVersion(agent));
    return if newer > 0 then Some(best) else None;
  }

  /** Among the candidates the best is beaten by none, and beats every candidate uploaded after it. */
  lemma {:induction false} BestIsMaximal(cs: seq<Release>, n: nat)
    requires 0 < n <= |cs|
    ensures forall i :: 0 <= i < n ==> Compare(cs[i].version, cs[BestTo(cs, n)].version) <= 0
    ensures forall i :: 0 <= i < BestTo(cs, n) ==> Compare(cs[i].version, cs[BestTo(cs, n)].version) < 0
  {
    hide Compare;
    if n == 1 {
      VersionsAreOrdered(cs[0].version, cs[0].version, cs[0].version);
    } else {
      BestIsMaximal(cs, n - 1);
      var b, last := cs[BestTo(cs, n - 1)].version, cs[n - 1].version;
      VersionsAreOrdered(last, last, last);
      forall i | 0 <= i < n - 1
        ensures Compare(last, b) > 0 ==> Compare(cs[i].version, last) < 0
      {
        BeatenByBoth(cs[i].version, b, last);
      }
    }
  }

  lemma BeatenByBoth(v: string, b: string, last: string)
    requires Compare(v, b) <= 0
    ensures Compare(last, b) > 0 ==> Compare(v, last) < 0
  {
    hide Compare;
    VersionsAreOrdered(v, b, b);
    VersionsAreOrdered(last, b, v);
    VersionsAreOrdered(v, last, last);
  }

  /** What is offered is an active release for the agent's groups and runtime, strictly newer than the agent,
      and no such release is newer still. */
  lemma OfferIsMaximal(releases: seq<Release>, agent: Agent)
    requires CheckForUpdate(releases, agent).Some?
    ensures var offer := CheckForUpdate(releases, agent).value;
      && offer in releases && IsCandidate(offer, agent) && IsNewer(offer.version, CurrentVersion(agent))
      && (forall r :: r in releases && IsCandidate(r, agent) ==> Compare(r.version, offer.version) <= 0)
  {
    var cs := Candidates(releases, agent);
    var offer := CheckForUpdate(releases, agent).value;
    BestIsMaximal(cs, |cs|);
    CandidatesAre(releases, agent, offer);
    forall r | r in releases && IsCandidate(r, agent)
      ensures Compare(r.version, offer.version) <= 0
    {
      CandidatesAre(releases, agent, r);
    }
  }

  /** Nothing is offered exactly when no active release for the agent is strictly newer. */
  lemma NothingOfferedExactlyWhen(releases: seq<Release>, agent: Agent)
    ensures CheckForUpdate(releases, agent).None? <==>
            forall r :: r in releases && IsCandidate(r, agent) ==> !IsNewer(r.version, CurrentVersion(agent))
  {
    var cs := Candidates(releases, agent);
    if CheckForUpdate(releases, agent).Some? {
      OfferIsMaximal(releases, agent);
    } else {
      forall r | r in releases && IsCandidate(r, agent)
        ensures !IsNewer(r.version, CurrentVersion(agent))
      {
        CandidatesAre(releases, agent, r);
        BestIsMaximal(cs, |cs|);
        var best := cs[BestTo(cs, |cs|)];
        VersionsAreOrdered(r.version, CurrentVersion(agent), CurrentVersion(agent));
        VersionsAreOrdered(r.version, best.version, best.version);
        VersionsAreOrdered(best.version, r.version, CurrentVersion(agent));
      }
    }
  }

  // ---------------------------------------------------------------- download

  /** `forced` says that a recent force-reinstall job of this agent names the release. */
  function Download(releases: seq<Release>, agent: Agent, id: int, forced: bool): Result<Release> {
    match Find(releases, id)
    case None => Err(NotFound)
    case Some(r) => if r.active && (Targets(r, agent) || forced) then Ok(r) else Err(NotFound)
  }

  function Find(releases: seq<Release>, id: int): Option<Release> {
    if releases == [] then None else if releases[0].id == id then Some(releases[0]) else Find(releases[1..], id)
  }

  ghost predicate UniqueIds(releases: seq<Release>) {
    forall r, q :: r in releases && q in releases && r.id == q.id ==> r == q
  }

  lemma {:induction false} FindFinds(releases: seq<Release>, r: Release)
    requires UniqueIds(releases) && r in releases
    ensures Find(releases, r.id) == Some(r)
  {
    if releases[0].id != r.id {
      assert r in releases[1..];
      FindFinds(releases[1..], r);
    }
  }

  lemma {:induction false} FindIsById(releases: seq<Release>, id: int)
    requires UniqueIds(releases)
    ensures match Find(releases, id)
            case Some(r) => r in releases && r.id == id
            case None => forall r :: r in releases ==> r.id != id
  {
    if releases != [] && releases[0].id != id {
      assert UniqueIds(releases[1..]);
      FindIsById(releases[1..], id);
      assert releases == [releases[0]] + releases[1..];
    }
  }

  /** A download succeeds exactly for a stored, active release that is aimed at the agent or was forced on it. */
  lemma DownloadsExactlyWhen(releases: seq<Release>, agent: Agent, id: int, forced: bool, r: Release)
    requires UniqueIds(releases)
    ensures Download(releases, agent, id, forced) == Ok(r) <==>
            r in releases && r.id == id && r.active && (AimsAt(r, agent) || forced)
  {
    hide Targets, AimsAt;
    FindIsById(releases, id);
    TargetsMeans(r, agent);
    if Find(releases, id).Some? {
      TargetsMeans(Find(releases, id).value, agent);
    }
  }

  /** Every offered release can be downloaded in the same state, also by an agent without groups. */
  lemma OfferCanBeDownloaded(releases: seq<Release>, agent: Agent)
    requires UniqueIds(releases) && CheckForUpdate(releases, agent).Some?
    ensures var offer := CheckForUpdate(releases, agent).value; Download(releases, agent, offer.id, false) == Ok(offer)
  {
    OfferIsMaximal(releases, agent);
    FindFinds(releases, CheckForUpdate(releases, agent).value);
  }

  // --------------------------------------------------------------- reporting

  /** A success that names a version becomes the agent's version. */
  function Reported(agent: Agent, success: bool, toVersion: Option<string>): Agent {
    if success && toVersion.Some? && toVersion.value != "" then agent.(version := toVersion) else agent
  }

  /** Uploads carry a non-empty version. */
  ghost predicate Named(releases: seq<Release>) {
    forall r :: r in releases ==> r.version != ""
  }

  /** Once the offered release is reported as installed, nothing more is offered while releases stay as they are. */
  lemma OneUpdateIsEnough(releases: seq<Release>, agent: Agent)
    requires Named(releases) && CheckForUpdate(releases, agent).Some?
    ensures CheckForUpdate(releases, Reported(agent, true, Some(CheckForUpdate(releases, agent).value.version))).None?
  {
    OfferIsMaximal(releases, agent);
    var offer := CheckForUpdate(releases, agent).value;
    var updated := Reported(agent, true, Some(offer.version));
    assert EffectiveGroups(updated) == EffectiveGroups(agent);
    assert forall r :: IsCandidate(r, updated) <==> IsCandidate(r, agent);
    NothingOfferedExactlyWhen(releases, updated);
  }

  /** The releases may change between checks; every check is followed by an attempt that succeeds or not. */
  datatype Round = Round(releases: seq<Release>, success: bool)

  function AfterRound(agent: Agent, round: Round): Agent {
    match CheckForUpdate(round.releases, agent)
    case None => agent
    case Some(offer) => Reported(agent, round.success, Some(offer.version))
  }

  function AfterRounds(agent: Agent, rounds: seq<Round>): Agent {
    if rounds == [] then agent else AfterRound(AfterRounds(agent, rounds[..|rounds| - 1]), rounds[|rounds| - 1])
  }

  /** A round in which the offer is installed leaves the agent with the offered version, any other as it was. */
  lemma RoundMeans(agent: Agent, rounds: seq<Round>, round: Round)
    ensures var before := AfterRounds(agent, rounds);
      var offer := CheckForUpdate(round.releases, before);
      AfterRounds(agent, rounds + [round]) ==
      if offer.Some? && round.success && offer.value.version != "" then before.(version := Some(offer.value.version))
      else before
  {
    assert (rounds + [round])[..|rounds|] == rounds;
  }

  lemma RoundNeverLowers(agent: Agent, round: Round)
    ensures Compare(CurrentVersion(AfterRound(agent, round)), CurrentVersion(agent)) >= 0
    ensures AfterRound(agent, round) != agent ==>
              IsNewer(CurrentVersion(AfterRound(agent, round)), CurrentVersion(agent))
  {
    VersionsAreOrdered(CurrentVersion(agent), CurrentVersion(agent), CurrentVersion(agent));
    if CheckForUpdate(round.releases, agent).Some? {
      OfferIsMaximal(round.releases, agent);
    }
  }

  /** Whatever is uploaded, withdrawn or retargeted meanwhile, updates never move an agent back. */
  lemma {:induction false} UpdatesNeverGoBack(agent: Agent, rounds: seq<Round>)
    ensures Compare(CurrentVersion(AfterRounds(agent, rounds)), CurrentVersion(agent)) >= 0
  {
    if rounds == [] {
      VersionsAreOrdered(CurrentVersion(agent), CurrentVersion(agent), CurrentVersion(agent));
    } else {
      var before := AfterRounds(agent, rounds[..|rounds| - 1]);
      UpdatesNeverGoBack(agent, rounds[..|rounds| - 1]);
      RoundNeverLowers(before, rounds[|rounds| - 1]);
      VersionsAreOrdered(CurrentVersion(AfterRounds(agent, rounds)), CurrentVersion(before), CurrentVersion(agent));
    }
  }
}
