/**
  The table agent_jobs and the services that change it
  (backend/repositories/agentJobs.repo.js, backend/services/agentJobs.service.js).
  Every SQL statement is one atomic change of the field `rows`; NOW() is the parameter `now`.
 */
module AgentJobs {
  import opened Common

  datatype Status = Pending | Sent | Completed | Failed | Cancelled {
    predicate Terminal() { Completed? || Failed? || Cancelled? }
  }

  /** One row; of the JSON payload only `sessionId` is ever looked at by the server. */
  datatype Job = Job(
    agentId: int,
    batchId: Option<string>,
    commandType: string,
    sessionId: Option<int>,
    createdAt: int,
    status: Status,
    exitCode: Option<int>,
    output: Option<string>,
    errorOutput: Option<string>,
    durationMs: Option<int>,
    sentAt: Option<int>,
    completedAt: Option<int>)

  type Table = map<nat, Job>

  /** Body of the job-result request; `success` and `exitCode` may be absent. */
  datatype JobResult = JobResult(
    success: Option<bool>,
    exitCode: Option<int>,
    output: Option<string>,
    errorOutput: Option<string>,
    durationMs: Option<int>)

  datatype Agent = Agent(active: bool, online: bool)

  const CANCEL_NOTE := "Otkazano od strane korisnika"

  // ---------------------------------------------------------------- one row

  function NewRow(agentId: int, batchId: Option<string>, commandType: string, sessionId: Option<int>, now: int): Job {
    Job(agentId, batchId, commandType, sessionId, now, Pending, None, None, None, None, None, None)
  }

  function MarkRow(job: Job, now: int): Job {
    job.(status := Sent, sentAt := Some(now))
  }

  function CancelRow(job: Job, now: int): Job {
    if job.status.Pending? || job.status.Sent?
    then job.(status := Cancelled, completedAt := Some(now), errorOutput := Some(CANCEL_NOTE))
    else job
  }

  function Verdict(result: JobResult): Status {
    match result.success
    case Some(ok) => if ok then Completed else Failed
    case None => if result.exitCode.Some? && result.exitCode.value != 0 then Failed else Completed
  }

  function CompleteRow(job: Job, result: JobResult, now: int): Job {
    if job.status.Sent?
    then job.(status := Verdict(result), exitCode := result.exitCode, output := result.output,
              errorOutput := result.errorOutput, durationMs := result.durationMs, completedAt := Some(now))
    else job
  }

  /** A report says that the command has failed: it says so itself, or, if it does not say, by its exit code. */
  predicate SaysFailed(result: JobResult) {
    result.success == Some(false) || (result.success.None? && result.exitCode.Some? && result.exitCode != Some(0))
  }

  /** What a row is after the report has been stored in it: the report's own fields, and everything else as
      it was. */
  predicate Reported(was: Job, row: Job, result: JobResult, now: int) {
    && row.status == (if SaysFailed(result) then Failed else Completed)
    && row.exitCode == result.exitCode && row.output == result.output && row.errorOutput == result.errorOutput
    && row.durationMs == result.durationMs && row.completedAt == Some(now)
    && row.agentId == was.agentId && row.batchId == was.batchId && row.commandType == was.commandType
    && row.sessionId == was.sessionId && row.createdAt == was.createdAt && row.sentAt == was.sentAt
  }

  // -------------------------------------------------------------- the table

  predicate PendingFor(t: Table, agentId: int, id: nat) {
    id in t && t[id].agentId == agentId && t[id].status.Pending?
  }

  function MarkAll(t: Table, ids: seq<nat>, now: int): Table {
    map id | id in t :: if id in ids then MarkRow(t[id], now) else t[id]
  }

  function CancelOne(t: Table, job: nat, now: int): Table {
    if job in t then t[job := CancelRow(t[job], now)] else t
  }

  function CancelBatch(t: Table, batchId: string, now: int): Table {
    map id | id in t :: if t[id].batchId == Some(batchId) then CancelRow(t[id], now) else t[id]
  }

  function CompleteOne(t: Table, job: nat, result: JobResult, now: int): Table {
    if job in t then t[job := CompleteRow(t[job], result, now)] else t
  }

  function WithoutAgent(t: Table, agentId: int): Table {
    map id | id in t && t[id].agentId != agentId :: t[id]
  }

  /** The answer of `WHERE agent_id = ? AND status = 'pending' ORDER BY created_at ASC`;
      rows created at the same instant may come in any order. */
  ghost predicate IsPendingListing(t: Table, agentId: int, ids: seq<nat>) {
    && (forall id: nat :: id in ids <==> PendingFor(t, agentId, id))
    && NoDuplicates(ids)
    && (forall i, j :: 0 <= i < j < |ids| ==> ids[i] in t && ids[j] in t && t[ids[i]].createdAt <= t[ids[j]].createdAt)
  }

  lemma EarliestExists(t: Table, ids: set<nat>) returns (first: nat)
    requires ids != {} && ids <= t.Keys
    ensures first in ids && forall id :: id in ids ==> t[first].createdAt <= t[id].createdAt
    decreases |ids|
  {
    var x :| x in ids;
    var rest := ids - {x};
    if rest == {} {
      assert ids == {x};
      first := x;
    } else {
      var other := EarliestExists(t, rest);
      first := if t[other].createdAt < t[x].createdAt then other else x;
      forall id | id in ids ensures t[first].createdAt <= t[id].createdAt {
        if id != x {
          assert id in rest;
        }
      }
    }
  }

  class AgentJobsTable {
    var rows: Table
    var nextId: nat

    ghost predicate Valid() reads this {
      forall id :: id in rows ==> id < nextId
    }

    constructor ()
      ensures Valid() && rows == map[]
    {
      rows, nextId := map[], 0;
    }

    method InsertJob(agentId: int, batchId: Option<string>, commandType: string, sessionId: Option<int>, now: int)
      returns (id: nat)
      requires Valid()
      modifies this
      ensures Valid() && id == old(nextId) && nextId == id + 1 && id !in old(rows)
      ensures rows == old(rows)[id := NewRow(agentId, batchId, commandType, sessionId, now)]
      ensures rows == old(rows)[id := Job(agentId, batchId, commandType, sessionId, now, Pending,
                                          None, None, None, None, None, None)]
    {
      id := nextId;
      rows := rows[id := NewRow(agentId, batchId, commandType, sessionId, now)];
      nextId := nextId + 1;
    }

    /** SELECT ... ORDER BY created_at ASC. */
    method FindPendingJobsForAgent(agentId: int) returns (ids: seq<nat>)
      ensures IsPendingListing(rows, agentId, ids)
      ensures forall id: nat :: id in ids <==> id in rows && rows[id].agentId == agentId && rows[id].status == Pending
      ensures forall i, j :: 0 <= i < j < |ids| ==> ids[i] != ids[j] && rows[ids[i]].createdAt <= rows[ids[j]].createdAt
    {
      var left := set id | id in rows && PendingFor(rows, agentId, id);
      ids := [];
      while left != {}
        invariant left <= rows.Keys
        invariant forall id: nat :: PendingFor(rows, agentId, id) <==> id in ids || id in left
        invariant forall id :: id in ids ==> id !in left
        invariant NoDuplicates(ids)
        invariant forall i, j :: 0 <= i < j < |ids| ==> rows[ids[i]].createdAt <= rows[ids[j]].createdAt
        invariant forall i, id :: 0 <= i < |ids| && id in left ==> rows[ids[i]].createdAt <= rows[id].createdAt
        decreases |left|
      {
        ghost var earliest := EarliestExists(rows, left);
        var first :| first in left && forall id :: id in left ==> rows[first].createdAt <= rows[id].createdAt;
        ids := ids + [first];
        left := left - {first};
      }
    }

    method MarkJobsSent(ids: seq<nat>, now: int)
      requires Valid()
      modifies this
      ensures Valid() && rows == MarkAll(old(rows), ids, now) && nextId == old(nextId)
      ensures rows.Keys == old(rows).Keys
      ensures forall id :: id in rows && id in ids ==> rows[id] == old(rows)[id].(status := Sent, sentAt := Some(now))
      ensures forall id :: id in rows && id !in ids ==> rows[id] == old(rows)[id]
    {
      if |ids| == 0 {
        assert rows == MarkAll(rows, ids, now);
        return;
      }
      rows := map id | id in rows :: if id in ids then MarkRow(rows[id], now) else rows[id];
    }

    method CompleteJob(id: nat, result: JobResult, now: int) returns (affected: nat)
      requires Valid()
      modifies this
      ensures Valid() && rows == CompleteOne(old(rows), id, result, now) && nextId == old(nextId)
      ensures affected == if id in old(rows) && old(rows)[id].status.Sent? then 1 else 0
      ensures affected == 0 ==> rows == old(rows)
      ensures affected == 1 ==> rows.Keys == old(rows).Keys && Reported(old(rows)[id], rows[id], result, now)
      ensures forall other :: other in rows && other != id ==> rows[other] == old(rows)[other]
    {
      affected := 0;
      if id in rows && rows[id].status.Sent? {
        rows := rows[id := CompleteRow(rows[id], result, now)];
        affected := 1;
      } else {
        assert rows == CompleteOne(rows, id, result, now);
      }
    }

    method CancelJob(id: nat, now: int) returns (affected: nat)
      requires Valid()
      modifies this
      ensures Valid() && rows == CancelOne(old(rows), id, now) && nextId == old(nextId)
      ensures affected == if id in old(rows) && !old(rows)[id].status.Terminal() then 1 else 0
      ensures affected == 0 ==> rows == old(rows)
      ensures affected == 1 ==>
                rows == old(rows)[id := old(rows)[id].(status := Cancelled, completedAt := Some(now),
                                                      errorOutput := Some(CANCEL_NOTE))]
    {
      affected := 0;
      if id in rows && (rows[id].status.Pending? || rows[id].status.Sent?) {
        rows := rows[id := CancelRow(rows[id], now)];
        affected := 1;
      } else {
        assert rows == CancelOne(rows, id, now);
      }
    }

    method CancelActiveJobsInBatch(batchId: string, now: int) returns (affected: nat)
      requires Valid()
      modifies this
      ensures Valid() && rows == CancelBatch(old(rows), batchId, now) && nextId == old(nextId)
      ensures rows.Keys == old(rows).Keys
      ensures forall id :: id in rows ==>
                if old(rows)[id].batchId == Some(batchId) && !old(rows)[id].status.Terminal()
                then rows[id] == old(rows)[id].(status := Cancelled, completedAt := Some(now),
                                                errorOutput := Some(CANCEL_NOTE))
                else rows[id] == old(rows)[id]
      ensures affected ==
              |set id | id in old(rows) && old(rows)[id].batchId == Some(batchId) && !old(rows)[id].status.Terminal()|
    {
      affected := |set id | id in rows && rows[id].batchId == Some(batchId) && !rows[id].status.Terminal()|;
      rows := map id | id in rows :: if rows[id].batchId == Some(batchId) then CancelRow(rows[id], now) else rows[id];
    }

    method DeleteJobsForAgent(agentId: int) returns (affected: nat)
      requires Valid()
      modifies this
      ensures Valid() && rows == WithoutAgent(old(rows), agentId) && nextId == old(nextId)
      ensures forall id :: id in rows <==> id in old(rows) && old(rows)[id].agentId != agentId
      ensures forall id :: id in rows ==> rows[id] == old(rows)[id]
      ensures affected == |set id | id in old(rows) && old(rows)[id].agentId == agentId|
    {
      affected := |set id | id in rows && rows[id].agentId == agentId|;
      rows := map id | id in rows && rows[id].agentId != agentId :: rows[id];
    }
  }
}
