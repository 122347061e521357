/**
  Close events of the relay (backend/ws/vncRelay.js:68-112, 174-203). They are looked up by session, so the
  late event of one connection can end the entry of another; this says exactly when.
 */
module RelayClose {
  import opened Common
  import opened VncRelay
  import opened RelayDelivery

  /** Connections of one session join its entries in the order in which those are made, none later than the
      live one. */
  ghost predicate JoinedInOrder(r: Relay) {
    && (forall v :: 0 <= v < |r.sockets| ==> r.sockets[v].joined < r.nextTimer)
    && (forall v, w :: 0 <= v < w < |r.sockets| && r.sockets[v].session == r.sockets[w].session ==>
          r.sockets[v].joined <= r.sockets[w].joined)
    && (forall v :: 0 <= v < |r.sockets| && r.sockets[v].session in r.sessions ==>
          r.sockets[v].joined <= r.sessions[r.sockets[v].session].timer)
  }

  /** Connection v joined the live entry of its session. */
  predicate InEntry(r: Relay, session: int, v: nat)
    requires session in r.sessions && v < |r.sockets|
  {
    r.sockets[v].session == session && r.sockets[v].joined == r.sessions[session].timer
  }

  /** The socket of a side is the last connection of that side that joined the entry. */
  ghost predicate LastOfSide(r: Relay, session: int, role: Role)
    requires session in r.sessions
  {
    var id := SocketOf(r.sessions[session], role);
    && (id.Some? ==> id.value < |r.sockets| && InEntry(r, session, id.value) && r.sockets[id.value].role == role)
    && (forall v :: 0 <= v < |r.sockets| && InEntry(r, session, v) && r.sockets[v].role == role ==>
        id.Some? && v <= id.value)
  }

  ghost predicate EntrySeated(r: Relay, session: int)
    requires session in r.sessions
  {
    && LastOfSide(r, session, AgentSide) && LastOfSide(r, session, ViewerSide)
    && (exists v :: 0 <= v < |r.sockets| && InEntry(r, session, v))
  }

  ghost predicate Seated(r: Relay) {
    JoinedInOrder(r) && TimersUsed(r) && EntriesArmed(r) && forall s :: s in r.sessions ==> EntrySeated(r, s)
  }

  ghost predicate SameConnections(a: seq<Socket>, b: seq<Socket>) {
    SameSeats(a, b) && forall i :: 0 <= i < |a| ==> a[i].joined == b[i].joined
  }

  lemma SeatedStays(r: Relay, q: Relay)
    requires Seated(r) && SameConnections(r.sockets, q.sockets) && q.nextTimer == r.nextTimer
    requires forall s :: s in q.sessions ==> s in r.sessions && q.sessions[s] == r.sessions[s]
    requires TimersUsed(q) && EntriesArmed(q)
    ensures Seated(q)
  {
    hide TimersUsed, EntriesArmed, EntrySeated;
    forall s | s in q.sessions
      ensures EntrySeated(q, s)
    {
      EntryStays(r, q, s);
    }
  }

  lemma EntryStays(r: Relay, q: Relay, s: int)
    requires s in r.sessions && s in q.sessions && q.sessions[s] == r.sessions[s]
    requires EntrySeated(r, s) && SameConnections(r.sockets, q.sockets)
    ensures EntrySeated(q, s)
  {
    var v :| 0 <= v < |r.sockets| && InEntry(r, s, v);
    assert InEntry(q, s, v);
    assert forall v :: 0 <= v < |r.sockets| ==> (InEntry(q, s, v) <==> InEntry(r, s, v));
  }

  lemma CloseSeated(r: Relay, session: int)
    requires Seated(r) && Conserved(r)
    ensures Seated(CloseSession(r, session))
  {
    hide Conserved, TimersUsed, EntriesArmed, Seated, CloseSession;
    TimersOf(r, session);
    CloseKeepsConnections(r, session);
    SeatedStays(r, CloseSession(r, session));
  }

  lemma CloseKeepsConnections(r: Relay, session: int)
    ensures var c := CloseSession(r, session);
      && SameConnections(r.sockets, c.sockets) && c.nextTimer == r.nextTimer
      && forall s :: s in c.sessions ==> s in r.sessions && c.sessions[s] == r.sessions[s]
  {
  }

  lemma TimersOf(r: Relay, session: int)
    requires Conserved(r)
    ensures TimersUsed(CloseSession(r, session)) && EntriesArmed(CloseSession(r, session))
  {
    CloseConserves(r, session);
  }

  lemma AttachOrder(r: Relay, session: int, role: Role)
    requires JoinedInOrder(r) && TimersUsed(r) && EntriesArmed(r)
    ensures JoinedInOrder(Attach(r, session, role))
  {
    var a := Attach(r, session, role);
    var n := |r.sockets|;
    var timer := a.sessions[session].timer;
    assert forall v :: 0 <= v < n ==> a.sockets[v] == r.sockets[v];
    assert a.sockets[n].joined == timer < a.nextTimer;
    forall v | 0 <= v < n && r.sockets[v].session == session
      ensures r.sockets[v].joined <= timer
    {
    }
  }

  lemma AttachSeatsOther(r: Relay, session: int, role: Role, s: int)
    requires s in r.sessions && s != session && EntrySeated(r, s)
    ensures s in Attach(r, session, role).sessions && EntrySeated(Attach(r, session, role), s)
  {
    var a := Attach(r, session, role);
    assert a.sessions[s] == r.sessions[s];
    assert forall v :: 0 <= v < |r.sockets| ==> a.sockets[v] == r.sockets[v];
    var v :| 0 <= v < |r.sockets| && InEntry(r, s, v);
    assert InEntry(a, s, v);
    assert forall v :: 0 <= v < |r.sockets| ==> (InEntry(a, s, v) <==> InEntry(r, s, v));
    assert !InEntry(a, s, |r.sockets|);
  }

  lemma AttachSeatsItself(r: Relay, session: int, role: Role)
    requires JoinedInOrder(r) && (session in r.sessions ==> EntrySeated(r, session))
    ensures EntrySeated(Attach(r, session, role), session)
  {
    var a := Attach(r, session, role);
    var n := |r.sockets|;
    assert forall v :: 0 <= v < n ==> a.sockets[v] == r.sockets[v];
    assert InEntry(a, session, n) && a.sockets[n].role == role;
    if session in r.sessions {
      assert a.sessions[session].timer == r.sessions[session].timer;
      assert forall v :: 0 <= v < n ==> (InEntry(a, session, v) <==> InEntry(r, session, v));
      assert SocketOf(a.sessions[session], Other(role)) == SocketOf(r.sessions[session], Other(role));
      assert LastOfSide(r, session, Other(role));
    } else {
      assert forall v :: 0 <= v < n ==> !InEntry(a, session, v);
    }
    assert LastOfSide(a, session, role);
    assert LastOfSide(a, session, Other(role));
  }

  lemma AttachSeated(r: Relay, session: int, role: Role)
    requires Seated(r) && Conserved(r)
    ensures Seated(Attach(r, session, role))
  {
    AttachConserves(r, session, role);
    AttachOrder(r, session, role);
    hide JoinedInOrder, TimersUsed, EntriesArmed, FinalisedDisarmed, EntrySeated;
    AttachSeatsItself(r, session, role);
    var a := Attach(r, session, role);
    forall s | s in a.sessions
      ensures EntrySeated(a, s)
    {
      if s != session {
        AttachSeatsOther(r, session, role, s);
      }
    }
  }

  lemma PostSeated(r: Relay, session: int, to: Role, data: string)
    requires Seated(r) && Conserved(r)
    ensures Seated(Post(r, session, to, data))
  {
    PostConserves(r, session, to, data);
    hide Seated;
    SeatedStays(r, Post(r, session, to, data));
  }

  lemma DropSeated(r: Relay, socket: nat)
    requires Seated(r) && Conserved(r)
    ensures Seated(Step(r, Drops(socket)))
  {
    StepConserves(r, Drops(socket));
    hide Seated;
    SeatedStays(r, Step(r, Drops(socket)));
  }

  lemma {:induction false} EveryRunIsSeated(es: seq<Event>)
    ensures Seated(Run(Empty, es))
  {
    if es != [] {
      hide Seated, Conserved, Wired, Step;
      var r, e := Run(Empty, es[..|es| - 1]), es[|es| - 1];
      EveryRunIsSeated(es[..|es| - 1]);
      EveryRunIsConserved(es[..|es| - 1]);
      StepSeated(r, e);
    } else {
      NothingIsSeated();
    }
  }

  lemma NothingIsSeated()
    ensures Seated(Empty)
  {
  }

  lemma StepSeated(r: Relay, e: Event)
    requires Seated(r) && Conserved(r)
    ensures Seated(Step(r, e))
  {
    hide Seated, Conserved, Attach, CloseSession, Post;
    match e
    case AgentConnects(session, _, _) => AttachSeated(r, session, AgentSide);
    case ViewerConnects(session, _, _) => AttachSeated(r, session, ViewerSide);
    case Message(socket, data) =>
      if socket < |r.sockets| { PostSeated(r, r.sockets[socket].session, Other(r.sockets[socket].role), data); }
    case Drops(socket) => DropSeated(r, socket);
    case SocketGone(socket) => if socket < |r.sockets| { CloseSeated(r, r.sockets[socket].session); }
    case TimerFires(timer) => if timer in r.timers { CloseSeated(r, r.timers[timer]); }
  }

  /** The close event of v finalises an entry whose socket on v's side is another one, or none. */
  predicate EndsAnothers(r: Relay, v: nat)
    requires v < |r.sockets|
  {
    Step(r, SocketGone(v)).finalised != r.finalised &&
    SocketOf(r.sessions[r.sockets[v].session], r.sockets[v].role) != Some(v)
  }

  /** A later connection w of the session joined the live entry; either v belongs to an earlier entry, or w
      is on v's side and has taken its place. */
  predicate Superseded(r: Relay, v: nat, w: nat)
    requires v < w < |r.sockets|
  {
    var s := r.sockets[v].session;
    && s in r.sessions && InEntry(r, s, w)
    && (!InEntry(r, s, v) || r.sockets[w].role == r.sockets[v].role)
  }

  lemma SupersededExactlyWhen(r: Relay, v: nat)
    requires Seated(r) && v < |r.sockets|
    ensures EndsAnothers(r, v) <==> exists w :: v < w < |r.sockets| && Superseded(r, v, w)
  {
    var s, role := r.sockets[v].session, r.sockets[v].role;
    if s in r.sessions {
      assert EntrySeated(r, s);
      assert LastOfSide(r, s, role);
      var id := SocketOf(r.sessions[s], role);
      if id == Some(v) {
        forall w | v < w < |r.sockets|
          ensures !Superseded(r, v, w)
        {
        }
      } else if InEntry(r, s, v) {
        assert Superseded(r, v, id.value);
      } else {
        var w :| 0 <= w < |r.sockets| && InEntry(r, s, w);
        assert r.sockets[v].joined < r.sockets[w].joined;
        assert v < w && Superseded(r, v, w);
      }
    }
  }

  /** In every run: the close event of a connection finalises an entry it is not in if and only if a later
      connection of its session has opened that entry or taken its place in it. The socket is then one that
      is no longer open, or one that has been replaced. */
  lemma StaleCloseExactlyWhen(es: seq<Event>, v: nat)
    requires v < |Run(Empty, es).sockets|
    ensures var r := Run(Empty, es);
      && (EndsAnothers(r, v) <==> exists w :: v < w < |r.sockets| && Superseded(r, v, w))
      && (EndsAnothers(r, v) ==> !r.sockets[v].open || Replaced(r.sockets, v))
  {
    EveryRunIsSeated(es);
    EveryOpenSocketIsAccounted(es);
    SupersededExactlyWhen(Run(Empty, es), v);
  }

  /** Event k is a close event that ends an entry its socket is not in. */
  ghost predicate StaleCloseAt(es: seq<Event>, k: nat) {
    k < |es| && es[k].SocketGone? &&
    var r := Run(Empty, es[..k]);
    es[k].socket < |r.sockets| && EndsAnothers(r, es[k].socket)
  }

  /** Event k is a close event that comes when its connection has been superseded. */
  ghost predicate LateCloseAt(es: seq<Event>, k: nat) {
    k < |es| && es[k].SocketGone? &&
    var r := Run(Empty, es[..k]);
    es[k].socket < |r.sockets| && exists w :: es[k].socket < w < |r.sockets| && Superseded(r, es[k].socket, w)
  }

  /** A run ends an entry by a foreign close event if and only if some close event comes late. */
  lemma RunHasStaleCloseExactlyWhen(es: seq<Event>)
    ensures (exists k: nat :: StaleCloseAt(es, k)) <==> (exists k: nat :: LateCloseAt(es, k))
  {
    hide EndsAnothers, Superseded;
    forall k: nat
      ensures StaleCloseAt(es, k) <==> LateCloseAt(es, k)
    {
      if k < |es| && es[k].SocketGone? && es[k].socket < |Run(Empty, es[..k]).sockets| {
        StaleCloseExactlyWhen(es[..k], es[k].socket);
      }
    }
  }

  lemma RunOne(es: seq<Event>, e: Event)
    ensures Run(Empty, es + [e]) == Step(Run(Empty, es), e)
  {
    assert (es + [e])[..|es|] == es;
  }

  /** Close events are looked up by session, not by entry: the late close of a socket of a finished
      entry finalises the entry that a reconnect has made meanwhile, and closes its live socket. */
  lemma StaleCloseEndsTheNewEntry(session: int, agent: int)
    requires session != 0
    ensures var opening := [AgentConnects(session, Some(agent), Some(agent)), ViewerConnects(session, true, true),
                            SocketGone(0), ViewerConnects(session, true, true)];
            var before, after := Run(Empty, opening), Run(Empty, opening + [SocketGone(1)]);
      && |before.sockets| == 3 && |after.sockets| == 3 && before.finalised == [0]
      && session in before.sessions && before.sessions[session].timer == 1 && before.sockets[2].open
      && after.finalised == [0, 1] && session !in after.sessions && !after.sockets[2].open
  {
    var e0 := AgentConnects(session, Some(agent), Some(agent));
    var e1 := ViewerConnects(session, true, true);
    var opening := [e0, e1, SocketGone(0), e1];
    assert opening[..3] == [e0, e1, SocketGone(0)];
    assert [e0, e1, SocketGone(0)][..2] == [e0, e1];
    assert [e0, e1][..1] == [e0];
    assert [e0][..0] == [];
    assert Run(Empty, [e0]) == Step(Empty, e0);
    assert Run(Empty, [e0, e1]) == Step(Run(Empty, [e0]), e1);
    assert (opening + [SocketGone(1)])[..4] == opening;
  }

  /** A viewer opens a second connection to the running session; when its first one closes, the entry ends
      and takes the second, still open one with it. */
  lemma ReplacedViewerEndsTheEntry(session: int, agent: int)
    requires session != 0
    ensures var opening := [AgentConnects(session, Some(agent), Some(agent)), ViewerConnects(session, true, true),
                            ViewerConnects(session, true, true)];
            var before, after := Run(Empty, opening), Run(Empty, opening + [SocketGone(1)]);
      && |before.sockets| == 3 && |after.sockets| == 3
      && session in before.sessions && before.sessions[session].viewerSocket == Some(2)
      && before.sockets[1].open && before.sockets[2].open
      && session !in after.sessions && !after.sockets[2].open && after.sockets[1].open
  {
    hide Run, Step;
    var e0, e1 := AgentConnects(session, Some(agent), Some(agent)), ViewerConnects(session, true, true);
    RunOne([], e0);
    RunOne([e0], e1);
    RunOne([e0, e1], e1);
    RunOne([e0, e1, e1], SocketGone(1));
    assert [] + [e0] == [e0] && [e0] + [e1] == [e0, e1] && [e0, e1] + [e1] == [e0, e1, e1];
    RunsOfNothing();
    ThreeConnections(session, agent);
    EntryOfThreeCloses(session, Run(Empty, [e0, e1, e1]));
  }

  lemma RunsOfNothing()
    ensures Run(Empty, []) == Empty
  {
  }

  lemma ThreeConnections(session: int, agent: int)
    requires session != 0
    ensures var r := Step(Step(Step(Empty, AgentConnects(session, Some(agent), Some(agent))),
                               ViewerConnects(session, true, true)),
                          ViewerConnects(session, true, true));
      && r.sessions == map[session := Entry(Some(0), Some(2), 0)]
      && r.sockets == [Socket(session, AgentSide, 0, true, []), Socket(session, ViewerSide, 0, true, []),
                       Socket(session, ViewerSide, 0, true, [])]
  {
  }

  lemma EntryOfThreeCloses(session: int, r: Relay)
    requires r.sessions == map[session := Entry(Some(0), Some(2), 0)] && |r.sockets| == 3
    requires r.sockets[1].session == session && r.sockets[1].open
    ensures var after := Step(r, SocketGone(1));
      |after.sockets| == 3 && session !in after.sessions && !after.sockets[2].open && after.sockets[1].open
  {
  }
}
