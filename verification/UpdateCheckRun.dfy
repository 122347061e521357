/**
  A run of the agent's main loop in which a failing update check starves the inventory
  (service/Netdesk.Agent.Common/Update/UpdateManager.cs:90, service/Netdesk.Agent.Service/AgentWorker.cs:130-145).
 */
module UpdateCheckRun {
  import opened Common
  import opened AgentScheduler
  import opened Starvation

  /** Everything but the update check and the inventory was served at time 0. */
  const SERVED := LoopState(true, [Some(0), Some(0), Some(0), Some(0), Some(0), None, None])

  /** An agent whose update check throws whenever it runs, and nothing else does: its state before iteration k,
      and that iteration, at second 5 * (k + 1). */
  function BrokenState(k: nat): (s: LoopState)
    ensures |s.last| == ACTIVITIES
    decreases k, 0
  {
    if k == 0 then SERVED else Next(BrokenState(k - 1), DEFAULT_INTERVALS, BrokenTick(k - 1))
  }

  function BrokenTick(k: nat): Tick
    decreases k, 1
  {
    var now := 5 * (k + 1);
    var quiet := Tick(_ => now, now, true, false);
    quiet.(throws := Pick(BrokenState(k), DEFAULT_INTERVALS, quiet) == Some(UPDATE_CHECK))
  }

  const BROKEN: Schedule := (k: nat) => BrokenTick(k)

  lemma {:induction false} BrokenBefore(k: nat)
    ensures After(SERVED, DEFAULT_INTERVALS, Prefix(BROKEN, k)) == BrokenState(k)
  {
    if k > 0 {
      hide Next;
      BrokenBefore(k - 1);
      assert Prefix(BROKEN, k)[..k - 1] == Prefix(BROKEN, k - 1);
    }
  }

  lemma BrokenRun(k: nat)
    ensures RunAt(SERVED, DEFAULT_INTERVALS, BROKEN, k) == Pick(BrokenState(k), DEFAULT_INTERVALS, BrokenTick(k))
    ensures BrokenTick(k).throws <==> RunAt(SERVED, DEFAULT_INTERVALS, BROKEN, k) == Some(UPDATE_CHECK)
  {
    hide After;
    BrokenBefore(k);
    assert Prefix(BROKEN, k + 1)[..k] == Prefix(BROKEN, k);
  }

  lemma BrokenIsTimed()
    ensures AlwaysTimed(BROKEN, 5)
  {
    hide BrokenState, Pick;
    forall n: nat ensures Timed(Prefix(BROKEN, n), 5) {
    }
  }

  lemma BothAreDue()
    ensures DueFrom(SERVED, DEFAULT_INTERVALS, BROKEN, UPDATE_CHECK, 0)
    ensures DueFrom(SERVED, DEFAULT_INTERVALS, BROKEN, INVENTORY_SYNC, 0)
  {
    assert Prefix(BROKEN, 1)[..0] == [];
  }

  /** Such an agent never sends its inventory, although it is due from the start. */
  lemma BrokenUpdateCheckStarvesInventory()
    ensures AlwaysTimed(BROKEN, 5) && OnlyThrower(SERVED, DEFAULT_INTERVALS, BROKEN, UPDATE_CHECK, 0)
    ensures DueFrom(SERVED, DEFAULT_INTERVALS, BROKEN, INVENTORY_SYNC, 0)
    ensures NeverRuns(SERVED, DEFAULT_INTERVALS, BROKEN, INVENTORY_SYNC, 0)
  {
    hide RunAt, DueFrom, AlwaysTimed, BrokenTick, Pick;
    BrokenIsTimed();
    BothAreDue();
    forall k: nat
      ensures BROKEN(k).throws <==> RunAt(SERVED, DEFAULT_INTERVALS, BROKEN, k) == Some(UPDATE_CHECK)
    {
      BrokenRun(k);
    }
    ThrowingStarves(SERVED, DEFAULT_INTERVALS, BROKEN, 5, UPDATE_CHECK, INVENTORY_SYNC, 0);
  }
}
