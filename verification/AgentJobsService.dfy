/** The job services (backend/services/agentJobs.service.js), run one at a time over the table. */
module AgentJobsService {
  import opened Common
  import opened AgentJobs

  datatype SkipReason = UnknownAgent | InactiveAgent | OfflineAgent

  /** Why a batch leaves this agent out, in the order in which the loop tests. */
  function SkipFor(agents: map<int, Agent>, agentId: int, onlyOnline: bool): Option<SkipReason> {
    if agentId !in agents then Some(UnknownAgent)
    else if !agents[agentId].active then Some(InactiveAgent)
    else if onlyOnline && !agents[agentId].online then Some(OfflineAgent)
    else None
  }

  /** `[...new Set(ids)]`: the first occurrence of every id, in order. */
  function Unique(ids: seq<int>): seq<int> {
    if ids == [] then []
    else
      var front := Unique(ids[..|ids| - 1]);
      if ids[|ids| - 1] in front then front else front + [ids[|ids| - 1]]
  }

  lemma {:induction false} UniqueKeepsEveryIdOnce(ids: seq<int>)
    ensures NoDuplicates(Unique(ids))
    ensures forall id :: id in Unique(ids) <==> id in ids
  {
    if ids != [] {
      var front := ids[..|ids| - 1];
      UniqueKeepsEveryIdOnce(front);
      assert ids == front + [ids[|ids| - 1]];
    }
  }

  /** Keeping the first occurrence of each keeps the order: what is kept of a part comes first, and a list
      without repetitions is kept as it is. */
  lemma {:induction false} UniqueKeepsTheOrder(ids: seq<int>, i: nat)
    requires i <= |ids|
    ensures Unique(ids[..i]) <= Unique(ids)
    ensures NoDuplicates(ids) ==> Unique(ids) == ids
    decreases |ids|
  {
    if i == |ids| {
      assert ids[..i] == ids;
    }
    if ids != [] {
      var front := ids[..|ids| - 1];
      assert ids == front + [ids[|ids| - 1]];
      UniqueKeepsEveryIdOnce(front);
      UniqueKeepsTheOrder(front, if i < |ids| then i else |front|);
      assert i < |ids| ==> front[..i] == ids[..i];
    }
  }

  /** The targeted agents a batch really creates a job for. */
  function Eligible(agents: map<int, Agent>, ids: seq<int>, onlyOnline: bool): seq<int> {
    if ids == [] then []
    else
      var front := Eligible(agents, ids[..|ids| - 1], onlyOnline);
      if SkipFor(agents, ids[|ids| - 1], onlyOnline).None? then front + [ids[|ids| - 1]] else front
  }

  function Skipped(agents: map<int, Agent>, ids: seq<int>, onlyOnline: bool): seq<(int, SkipReason)> {
    if ids == [] then []
    else
      var front := Skipped(agents, ids[..|ids| - 1], onlyOnline);
      match SkipFor(agents, ids[|ids| - 1], onlyOnline)
      case Some(reason) => front + [(ids[|ids| - 1], reason)]
      case None => front
  }

  /** Every requested agent ends up in exactly one of the two lists, exactly once. */
  lemma {:induction false} BatchSplitsTheTargets(agents: map<int, Agent>, ids: seq<int>, onlyOnline: bool)
    requires NoDuplicates(ids)
    ensures |Eligible(agents, ids, onlyOnline)| + |Skipped(agents, ids, onlyOnline)| == |ids|
    ensures NoDuplicates(Eligible(agents, ids, onlyOnline))
    ensures forall id ::
              id in Eligible(agents, ids, onlyOnline) <==>
              id in ids && id in agents && agents[id].active && (onlyOnline ==> agents[id].online)
    ensures forall id, reason ::
              (id, reason) in Skipped(agents, ids, onlyOnline) <==>
              && id in ids
              && (reason.UnknownAgent? <==> id !in agents)
              && (reason.InactiveAgent? <==> id in agents && !agents[id].active)
              && (reason.OfflineAgent? <==> id in agents && agents[id].active && onlyOnline && !agents[id].online)
  {
    if ids != [] {
      var front := ids[..|ids| - 1];
      BatchSplitsTheTargets(agents, front, onlyOnline);
      assert ids == front + [ids[|ids| - 1]];
    }
  }

  /** The targeted agents paired with the ids their jobs get. */
  function Numbered(agentIds: seq<int>, first: nat): seq<(int, nat)> {
    if agentIds == [] then []
    else Numbered(agentIds[..|agentIds| - 1], first) + [(agentIds[|agentIds| - 1], first + |agentIds| - 1)]
  }

  /** The table after one insert per agent, with ids counted up from `first`. */
  function WithBatch(t: Table, first: nat, agentIds: seq<int>, batchId: string, commandType: string,
                     sessionId: Option<int>, now: int): Table
  {
    if agentIds == [] then t
    else
      var last := |agentIds| - 1;
      WithBatch(t, first, agentIds[..last], batchId, commandType, sessionId, now)
        [first + last := NewRow(agentIds[last], Some(batchId), commandType, sessionId, now)]
  }

  /** A batch only adds rows, one fresh pending row per eligible agent. */
  lemma {:induction false} BatchAddsOneRowPerAgent(t: Table, first: nat, agentIds: seq<int>, batchId: string,
                                                   commandType: string, sessionId: Option<int>, now: int)
    requires forall id :: id in t ==> id < first
    ensures var after := WithBatch(t, first, agentIds, batchId, commandType, sessionId, now);
      && (forall id :: id in after <==> id in t || first <= id < first + |agentIds|)
      && (forall id :: id in t ==> after[id] == t[id])
      && (forall i :: 0 <= i < |agentIds| ==>
            after[first + i] == Job(agentIds[i], Some(batchId), commandType, sessionId, now, Pending,
                                    None, None, None, None, None, None))
  {
    if agentIds != [] {
      BatchAddsOneRowPerAgent(t, first, agentIds[..|agentIds| - 1], batchId, commandType, sessionId, now);
    }
  }

  /** The row ids that are reported count up from `first`, in the order of the agents. */
  lemma {:induction false} NumberedAre(agentIds: seq<int>, first: nat)
    ensures |Numbered(agentIds, first)| == |agentIds|
    ensures forall i :: 0 <= i < |agentIds| ==> Numbered(agentIds, first)[i] == (agentIds[i], first + i)
  {
    if agentIds != [] {
      NumberedAre(agentIds[..|agentIds| - 1], first);
    }
  }

  lemma NothingYet(agents: map<int, Agent>, onlyOnline: bool, t: Table, first: nat, batchId: string,
                   commandType: string, sessionId: Option<int>, now: int)
    ensures Eligible(agents, [], onlyOnline) == [] && Skipped(agents, [], onlyOnline) == []
    ensures Numbered([], first) == [] && WithBatch(t, first, [], batchId, commandType, sessionId, now) == t
  {
  }

  lemma OneMoreTarget(agents: map<int, Agent>, ids: seq<int>, i: nat, onlyOnline: bool)
    requires i < |ids|
    ensures var reason := SkipFor(agents, ids[i], onlyOnline);
      var eligible, skipped := Eligible(agents, ids[..i], onlyOnline), Skipped(agents, ids[..i], onlyOnline);
      && Eligible(agents, ids[..i + 1], onlyOnline) == (if reason.None? then eligible + [ids[i]] else eligible)
      && Skipped(agents, ids[..i + 1], onlyOnline) ==
         (if reason.Some? then skipped + [(ids[i], reason.value)] else skipped)
  {
    assert ids[..i + 1][..i] == ids[..i];
  }

  lemma OneMoreRow(t: Table, first: nat, agentIds: seq<int>, agentId: int, batchId: string, commandType: string,
                   sessionId: Option<int>, now: int)
    ensures Numbered(agentIds + [agentId], first) == Numbered(agentIds, first) + [(agentId, first + |agentIds|)]
    ensures WithBatch(t, first, agentIds + [agentId], batchId, commandType, sessionId, now) ==
            WithBatch(t, first, agentIds, batchId, commandType, sessionId, now)
              [first + |agentIds| := NewRow(agentId, Some(batchId), commandType, sessionId, now)]
  {
    assert (agentIds + [agentId])[..|agentIds|] == agentIds;
  }

  /** One of the created jobs is the agent's. */
  ghost predicate IsGiven(created: seq<(int, nat)>, agentId: int) {
    exists i :: 0 <= i < |created| && created[i].0 == agentId
  }

  /** What a batch does, in terms of the agents it was asked for and the rows it adds. */
  lemma BatchMeans(agents: map<int, Agent>, agentIds: seq<int>, onlyOnline: bool, t: Table, first: nat,
                   batchId: string, commandType: string, sessionId: Option<int>, now: int)
    requires forall id :: id in t ==> id < first
    ensures var eligible := Eligible(agents, Unique(agentIds), onlyOnline);
      var created := Numbered(eligible, first);
      var after := WithBatch(t, first, eligible, batchId, commandType, sessionId, now);
      && (forall agentId ::
            IsGiven(created, agentId) <==>
            && agentId in agentIds && agentId in agents && agents[agentId].active
            && (onlyOnline ==> agents[agentId].online))
      && (forall i :: 0 <= i < |created| ==>
            && created[i].1 == first + i && created[i].1 in after
            && after[created[i].1] == Job(created[i].0, Some(batchId), commandType, sessionId, now, Pending,
                                          None, None, None, None, None, None))
      && (forall i, j :: 0 <= i < j < |created| ==> created[i].0 != created[j].0)
      && (forall id :: id in t ==> id in after && after[id] == t[id])
      && (forall id :: id in after && id !in t ==> first <= id < first + |created|)
  {
    hide Unique, Eligible, Numbered, WithBatch, Skipped;
    UniqueKeepsEveryIdOnce(agentIds);
    BatchSplitsTheTargets(agents, Unique(agentIds), onlyOnline);
    var eligible := Eligible(agents, Unique(agentIds), onlyOnline);
    var created := Numbered(eligible, first);
    NumberedAre(eligible, first);
    BatchAddsOneRowPerAgent(t, first, eligible, batchId, commandType, sessionId, now);
    forall agentId
      ensures IsGiven(created, agentId) <==>
              && agentId in agentIds && agentId in agents && agents[agentId].active
              && (onlyOnline ==> agents[agentId].online)
    {
      NumberedOnes(eligible, first, agentId);
    }
    var after := WithBatch(t, first, eligible, batchId, commandType, sessionId, now);
    forall i | 0 <= i < |created|
      ensures created[i].1 == first + i && created[i].1 in after
      ensures after[created[i].1] == Job(created[i].0, Some(batchId), commandType, sessionId, now, Pending,
                                         None, None, None, None, None, None)
    {
      assert created[i] == (eligible[i], first + i);
      assert after[first + i] == after[created[i].1];
    }
    forall i, j | 0 <= i < j < |created|
      ensures created[i].0 != created[j].0
    {
      assert created[i] == (eligible[i], first + i) && created[j] == (eligible[j], first + j);
    }
  }

  lemma NumberedOnes(agentIds: seq<int>, first: nat, agentId: int)
    ensures IsGiven(Numbered(agentIds, first), agentId) <==> agentId in agentIds
  {
    hide Numbered;
    NumberedAre(agentIds, first);
    if agentId in agentIds {
      var i :| 0 <= i < |agentIds| && agentIds[i] == agentId;
      assert Numbered(agentIds, first)[i].0 == agentId;
    }
  }

  class Service {
    const table: AgentJobsTable
    var batches: map<string, string>

    constructor (table: AgentJobsTable)
      ensures this.table == table && batches == map[]
    {
      this.table, this.batches := table, map[];
    }

    method CreateJob(agents: map<int, Agent>, agentId: int, commandType: string, sessionId: Option<int>, now: int)
      returns (r: Result<nat>)
      requires table.Valid()
      modifies table
      ensures table.Valid()
      ensures agentId !in agents ==> r == Err(NotFound)
      ensures agentId in agents && !agents[agentId].active ==> r == Err(BadRequest)
      ensures agentId in agents && agents[agentId].active ==> r.Ok?
      ensures r.Err? ==> table.rows == old(table.rows)
      ensures r.Ok? ==> r.value !in old(table.rows) &&
                        table.rows ==
                          old(table.rows)[r.value := Job(agentId, None, commandType, sessionId, now, Pending,
                                                                     None, None, None, None, None, None)]
    {
      if agentId !in agents {
        return Err(NotFound);
      }
      if !agents[agentId].active {
        return Err(BadRequest);
      }
      var id := table.InsertJob(agentId, None, commandType, sessionId, now);
      return Ok(id);
    }

    method CreateBatchJob(agents: map<int, Agent>, agentIds: seq<int>, commandType: string, sessionId: Option<int>,
                          onlyOnline: bool, batchId: string, now: int)
      returns (created: seq<(int, nat)>, skipped: seq<(int, SkipReason)>)
      requires table.Valid()
      modifies this, table
      ensures table.Valid()
      ensures batches == old(batches)[batchId := commandType]
      ensures skipped == Skipped(agents, Unique(agentIds), onlyOnline)
      ensures created == Numbered(Eligible(agents, Unique(agentIds), onlyOnline), old(table.nextId))
      ensures table.rows ==
              WithBatch(old(table.rows), old(table.nextId), Eligible(agents, Unique(agentIds), onlyOnline),
                        batchId, commandType, sessionId, now)
      ensures forall agentId ::
                IsGiven(created, agentId) <==>
                && agentId in agentIds && agentId in agents && agents[agentId].active
                && (onlyOnline ==> agents[agentId].online)
      ensures forall i :: 0 <= i < |created| ==>
                && created[i].1 == old(table.nextId) + i && created[i].1 in table.rows
                && table.rows[created[i].1] == Job(created[i].0, Some(batchId), commandType, sessionId, now, Pending,
                                                   None, None, None, None, None, None)
      ensures forall i, j :: 0 <= i < j < |created| ==> created[i].0 != created[j].0
      ensures forall id :: id in old(table.rows) ==> id in table.rows && table.rows[id] == old(table.rows)[id]
      ensures forall id :: id in table.rows && id !in old(table.rows) ==>
                old(table.nextId) <= id < old(table.nextId) + |created|
    {
      hide Unique, Eligible, Skipped, Numbered, WithBatch;
      var uniqueIds := Unique(agentIds);
      created, skipped := [], [];
      batches := batches[batchId := commandType];
      ghost var first := table.nextId;
      NothingYet(agents, onlyOnline, table.rows, first, batchId, commandType, sessionId, now);
      for i := 0 to |uniqueIds|
        invariant table.Valid() && table.nextId == first + |Eligible(agents, uniqueIds[..i], onlyOnline)|
        invariant batches == old(batches)[batchId := commandType]
        invariant skipped == Skipped(agents, uniqueIds[..i], onlyOnline)
        invariant created == Numbered(Eligible(agents, uniqueIds[..i], onlyOnline), first)
        invariant table.rows == WithBatch(old(table.rows), first, Eligible(agents, uniqueIds[..i], onlyOnline),
                                          batchId, commandType, sessionId, now)
      {
        var agentId := uniqueIds[i];
        OneMoreTarget(agents, uniqueIds, i, onlyOnline);
        OneMoreRow(old(table.rows), first, Eligible(agents, uniqueIds[..i], onlyOnline), agentId,
                   batchId, commandType, sessionId, now);
        if agentId !in agents {
          skipped := skipped + [(agentId, UnknownAgent)];
          continue;
        }
        if !agents[agentId].active {
          skipped := skipped + [(agentId, InactiveAgent)];
          continue;
        }
        if onlyOnline && !agents[agentId].online {
          skipped := skipped + [(agentId, OfflineAgent)];
          continue;
        }
        var id := table.InsertJob(agentId, Some(batchId), commandType, sessionId, now);
        created := created + [(agentId, id)];
      }
      assert uniqueIds[..|uniqueIds|] == uniqueIds;
      BatchMeans(agents, agentIds, onlyOnline, old(table.rows), first, batchId, commandType, sessionId, now);
    }

    method CancelBatchJobs(batchId: string, now: int) returns (r: Result<nat>)
      requires table.Valid()
      modifies table
      ensures table.Valid()
      ensures batchId !in batches ==> r == Err(NotFound) && table.rows == old(table.rows)
      ensures batchId in batches ==> table.rows == CancelBatch(old(table.rows), batchId, now)
      ensures batchId in batches ==>
                && r == Ok(|set id | id in old(table.rows) && old(table.rows)[id].batchId == Some(batchId) &&
                            !old(table.rows)[id].status.Terminal()|)
                && table.rows.Keys == old(table.rows).Keys
                && forall id :: id in table.rows ==>
                     table.rows[id] ==
                     if old(table.rows)[id].batchId == Some(batchId) && !old(table.rows)[id].status.Terminal()
                     then old(table.rows)[id].(status := Cancelled, completedAt := Some(now),
                                               errorOutput := Some(CANCEL_NOTE))
                     else old(table.rows)[id]
    {
      if batchId !in batches {
        return Err(NotFound);
      }
      var cancelled := table.CancelActiveJobsInBatch(batchId, now);
      return Ok(cancelled);
    }

    method CancelJob(jobId: nat, now: int) returns (r: Result<Job>)
      requires table.Valid()
      modifies table
      ensures table.Valid() && table.rows == CancelOne(old(table.rows), jobId, now)
      ensures jobId !in old(table.rows) ==> r == Err(NotFound)
      ensures jobId in old(table.rows) && old(table.rows)[jobId].status.Terminal() ==> r == Err(Conflict)
      ensures r.Err? ==> table.rows == old(table.rows)
      ensures jobId in old(table.rows) && !old(table.rows)[jobId].status.Terminal() ==>
                && r.Ok? && table.rows == old(table.rows)[jobId := r.value]
                && r.value == old(table.rows)[jobId].(status := Cancelled, completedAt := Some(now),
                                                      errorOutput := Some(CANCEL_NOTE))
    {
      if jobId !in table.rows {
        return Err(NotFound);
      }
      var affected := table.CancelJob(jobId, now);
      if affected == 0 {
        return Err(Conflict);
      }
      return Ok(table.rows[jobId]);
    }

    method ClearJobs(agents: map<int, Agent>, agentId: int) returns (r: Result<nat>)
      requires table.Valid()
      modifies table
      ensures table.Valid()
      ensures agentId !in agents ==> r == Err(NotFound) && table.rows == old(table.rows)
      ensures agentId in agents ==> table.rows == WithoutAgent(old(table.rows), agentId) &&
                                    r == Ok(|set id | id in old(table.rows) && old(table.rows)[id].agentId == agentId|)
      ensures agentId in agents ==>
                && (forall id :: id in table.rows <==> id in old(table.rows) && old(table.rows)[id].agentId != agentId)
                && (forall id :: id in table.rows ==> table.rows[id] == old(table.rows)[id])
    {
      if agentId !in agents {
        return Err(NotFound);
      }
      var cleared := table.DeleteJobsForAgent(agentId);
      return Ok(cleared);
    }

    /** SELECT then UPDATE with nothing in between; JobProtocol lets other requests in between. */
    method PollJobs(agentId: int, now: int) returns (jobs: seq<nat>)
      requires table.Valid()
      modifies table
      ensures table.Valid()
      ensures IsPendingListing(old(table.rows), agentId, jobs)
      ensures table.rows == MarkAll(old(table.rows), jobs, now)
      ensures forall id :: !PendingFor(table.rows, agentId, id)
      ensures forall id: nat :: id in jobs <==> id in old(table.rows) && old(table.rows)[id].agentId == agentId &&
                                                old(table.rows)[id].status == Pending
      ensures table.rows.Keys == old(table.rows).Keys
      ensures forall id :: id in table.rows ==>
                table.rows[id] == if id in jobs then old(table.rows)[id].(status := Sent, sentAt := Some(now))
                                  else old(table.rows)[id]
    {
      jobs := table.FindPendingJobsForAgent(agentId);
      if |jobs| == 0 {
        assert table.rows == MarkAll(table.rows, jobs, now);
        assert forall id: nat :: id in jobs <==> PendingFor(table.rows, agentId, id);
        return;
      }
      assert forall id: nat :: id in jobs <==> PendingFor(table.rows, agentId, id);
      table.MarkJobsSent(jobs, now);
    }

    /** `fallback` is the session whose WebRTC bridge failed to start, if this result says so. */
    method SubmitJobResult(agentId: int, jobId: nat, result: JobResult, now: int)
      returns (r: Result<Job>, fallback: Option<int>)
      requires table.Valid()
      modifies table
      ensures table.Valid()
      ensures r == Err(NotFound) <==> jobId !in old(table.rows) || old(table.rows)[jobId].agentId != agentId
      ensures jobId in old(table.rows) && old(table.rows)[jobId].agentId == agentId ==>
                (r.Ok? <==> old(table.rows)[jobId].status.Sent?) && (r.Err? ==> r == Err(Conflict))
      ensures r.Err? ==> table.rows == old(table.rows) && fallback.None?
      ensures r.Ok? ==> table.rows == CompleteOne(old(table.rows), jobId, result, now) && r == Ok(table.rows[jobId])
      ensures r.Ok? ==>
                && (r.value.status.Failed? <==>
                    result.success == Some(false) ||
                    (result.success.None? && result.exitCode.Some? && result.exitCode.value != 0))
                && (r.value.status.Completed? <==> !r.value.status.Failed?)
                && r.value.exitCode == result.exitCode && r.value.output == result.output
                && r.value.errorOutput == result.errorOutput && r.value.durationMs == result.durationMs
                && r.value.completedAt == Some(now)
                && r.value == old(table.rows)[jobId].(status := r.value.status, exitCode := result.exitCode,
                                                      output := result.output, errorOutput := result.errorOutput,
                                                      durationMs := result.durationMs, completedAt := Some(now))
                && table.rows == old(table.rows)[jobId := r.value]
      ensures fallback.Some? <==> r.Ok? && r.value.status.Failed? && r.value.commandType == "start_webrtc_bridge" &&
                                  r.value.sessionId.Some? && r.value.sessionId.value != 0
      ensures fallback.Some? <==>
              && r.Ok? && old(table.rows)[jobId].commandType == "start_webrtc_bridge"
              && (result.success == Some(false) ||
                  (result.success.None? && result.exitCode.Some? && result.exitCode.value != 0))
              && old(table.rows)[jobId].sessionId.Some? && old(table.rows)[jobId].sessionId.value != 0
      ensures fallback.Some? ==> fallback == old(table.rows)[jobId].sessionId
    {
      fallback := None;
      if jobId !in table.rows || table.rows[jobId].agentId != agentId {
        return Err(NotFound), None;
      }
      var job := table.rows[jobId];
      if !job.status.Sent? {
        return Err(Conflict), None;
      }
      var affected := table.CompleteJob(jobId, result, now);
      if affected == 0 {
        return Err(Conflict), None;
      }
      if Verdict(result).Failed? && job.commandType == "start_webrtc_bridge" && job.sessionId.Some? &&
         job.sessionId.value != 0 {
        fallback := job.sessionId;
      }
      r := Ok(table.rows[jobId]);
    }
  }
}
