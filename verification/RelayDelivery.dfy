/**
  What the relay's sockets receive over whole runs (backend/ws/vncRelay.js:68-213): nothing that is not
  theirs, nothing lost while they are current, and none left open unnoticed.
 */
module RelayDelivery {
  import opened Common
  import opened VncRelay

  // --------------------------------------------------------------- isolation

  function PostedTo(log: seq<Posted>, session: int, to: Role): seq<string> {
    if log == [] then []
    else
      var front := PostedTo(log[..|log| - 1], session, to);
      var last := log[|log| - 1];
      if last.session == session && last.to == to then front + [last.data] else front
  }

  /** `a` is what is left of `b` after dropping some of its elements. */
  ghost predicate Subsequence(a: seq<string>, b: seq<string>)
    decreases |b|
  {
    a == [] ||
    (b != [] && ((a[|a| - 1] == b[|b| - 1] && Subsequence(a[..|a| - 1], b[..|b| - 1])) || Subsequence(a, b[..|b| - 1])))
  }

  lemma SubsequenceGrows(a: seq<string>, b: seq<string>, x: string)
    requires Subsequence(a, b)
    ensures Subsequence(a, b + [x]) && Subsequence(a + [x], b + [x])
  {
    assert (a + [x])[..|a|] == a && (b + [x])[..|b|] == b;
  }

  ghost predicate Isolated(r: Relay) {
    forall v :: 0 <= v < |r.sockets| ==>
      Subsequence(r.sockets[v].received, PostedTo(r.log, r.sockets[v].session, r.sockets[v].role))
  }

  lemma PostedToGrows(log: seq<Posted>, p: Posted, session: int, to: Role)
    ensures PostedTo(log + [p], session, to) ==
            PostedTo(log, session, to) + (if p.session == session && p.to == to then [p.data] else [])
  {
    assert (log + [p])[..|log|] == log;
  }

  /** Only an open socket of the addressed session and side can receive, and it receives just the message. */
  lemma PostOnOneSocket(r: Relay, session: int, to: Role, data: string, v: nat)
    requires Wired(r) && v < |r.sockets|
    ensures |Post(r, session, to, data).sockets| == |r.sockets|
    ensures var p := Post(r, session, to, data);
      && p.log == r.log + [Posted(session, to, data)]
      && p.sockets[v].session == r.sockets[v].session && p.sockets[v].role == r.sockets[v].role
      && (|| p.sockets[v].received == r.sockets[v].received
          || (&& r.sockets[v].session == session && r.sockets[v].role == to
              && p.sockets[v].received == r.sockets[v].received + [data]))
  {
  }

  lemma PostAddsNoSocket(r: Relay, session: int, to: Role, data: string)
    ensures |Post(r, session, to, data).sockets| == |r.sockets|
  {
  }

  lemma PostIsolates(r: Relay, session: int, to: Role, data: string)
    requires Isolated(r) && Wired(r)
    ensures Isolated(Post(r, session, to, data))
  {
    hide Wired, Post, Subsequence, PostedTo;
    var p := Post(r, session, to, data);
    PostAddsNoSocket(r, session, to, data);
    forall v | 0 <= v < |p.sockets|
      ensures Subsequence(p.sockets[v].received, PostedTo(p.log, p.sockets[v].session, p.sockets[v].role))
    {
      PostOnOneSocket(r, session, to, data, v);
      var socket := r.sockets[v];
      PostedToGrows(r.log, Posted(session, to, data), socket.session, socket.role);
      var heard := PostedTo(r.log, socket.session, socket.role);
      SubsequenceGrows(socket.received, heard, data);
      assert heard + [] == heard;
    }
  }

  lemma AttachIsolates(r: Relay, session: int, role: Role)
    requires Isolated(r)
    ensures Isolated(Attach(r, session, role))
  {
    var a := Attach(r, session, role);
    assert a.sockets[..|r.sockets|] == r.sockets;
    assert a.sockets[|r.sockets|].received == [];
  }

  lemma CloseIsolates(r: Relay, session: int)
    requires Isolated(r)
    ensures Isolated(CloseSession(r, session))
  {
    var c := CloseSession(r, session);
    assert SameSeats(r.sockets, c.sockets);
    assert forall v :: 0 <= v < |r.sockets| ==> c.sockets[v].received == r.sockets[v].received;
  }

  lemma DropIsolates(r: Relay, socket: nat)
    requires Isolated(r)
    ensures Isolated(Step(r, Drops(socket)))
  {
    var c := Step(r, Drops(socket));
    assert SameSeats(r.sockets, c.sockets);
    assert forall v :: 0 <= v < |r.sockets| ==> c.sockets[v].received == r.sockets[v].received;
  }

  lemma StepIsolates(r: Relay, e: Event)
    requires Isolated(r) && Wired(r)
    ensures Isolated(Step(r, e))
  {
    hide CloseSession, Attach, Post, Isolated, Wired;
    match e
    case AgentConnects(session, _, _) => AttachIsolates(r, session, AgentSide);
    case ViewerConnects(session, _, _) => AttachIsolates(r, session, ViewerSide);
    case Message(socket, data) =>
      if socket < |r.sockets| { PostIsolates(r, r.sockets[socket].session, Other(r.sockets[socket].role), data); }
    case Drops(socket) => DropIsolates(r, socket);
    case SocketGone(socket) => if socket < |r.sockets| { CloseIsolates(r, r.sockets[socket].session); }
    case TimerFires(timer) => if timer in r.timers { CloseIsolates(r, r.timers[timer]); }
  }

  /** The messages among the events that come from sockets of one session and side, in order. */
  function SentFrom(es: seq<Event>, session: int, from: Role): seq<string> {
    if es == [] then []
    else
      var front, e := es[..|es| - 1], es[|es| - 1];
      var r := Run(Empty, front);
      if e.Message? && e.socket < |r.sockets| && r.sockets[e.socket].session == session &&
         r.sockets[e.socket].role == from
      then SentFrom(front, session, from) + [e.data]
      else SentFrom(front, session, from)
  }

  /** What a step adds to the log. */
  function Logged(r: Relay, e: Event): seq<Posted> {
    if e.Message? && e.socket < |r.sockets|
    then [Posted(r.sockets[e.socket].session, Other(r.sockets[e.socket].role), e.data)]
    else []
  }

  lemma StepLogs(r: Relay, e: Event)
    ensures Step(r, e).log == r.log + Logged(r, e)
  {
  }

  lemma SentFromGrows(front: seq<Event>, e: Event, session: int, to: Role)
    ensures SentFrom(front + [e], session, Other(to)) ==
            SentFrom(front, session, Other(to)) + PostedTo(Logged(Run(Empty, front), e), session, to)
  {
    hide Run, Step;
    assert (front + [e])[..|front|] == front;
    var l := Logged(Run(Empty, front), e);
    if l != [] {
      assert l[..0] == [];
    }
  }

  lemma LogGrows(front: seq<Event>, e: Event, session: int, to: Role)
    ensures PostedTo(Run(Empty, front + [e]).log, session, to) ==
            PostedTo(Run(Empty, front).log, session, to) + PostedTo(Logged(Run(Empty, front), e), session, to)
  {
    hide Step;
    assert (front + [e])[..|front|] == front;
    var r := Run(Empty, front);
    StepLogs(r, e);
    var l := Logged(r, e);
    if l == [] {
      assert r.log + l == r.log;
    } else {
      assert l[..0] == [];
      PostedToGrows(r.log, l[0], session, to);
    }
  }

  lemma {:induction false} LogIsWhatWasSent(es: seq<Event>, session: int, to: Role)
    ensures PostedTo(Run(Empty, es).log, session, to) == SentFrom(es, session, Other(to))
  {
    if es != [] {
      hide Step, Run, PostedTo, SentFrom;
      var front, e := es[..|es| - 1], es[|es| - 1];
      assert es == front + [e];
      LogIsWhatWasSent(front, session, to);
      LogGrows(front, e, session, to);
      SentFromGrows(front, e, session, to);
    }
  }

  /** What a socket receives is an in-order subsequence of what the other side's sockets of the same
      session sent: nothing is reordered, repeated, invented, or taken from another session. */
  lemma {:induction false} EverySocketSeesItsOwnSession(es: seq<Event>, v: nat)
    requires v < |Run(Empty, es).sockets|
    ensures var socket := Run(Empty, es).sockets[v];
      Subsequence(socket.received, SentFrom(es, socket.session, Other(socket.role)))
  {
    EveryRunIsIsolated(es);
    var socket := Run(Empty, es).sockets[v];
    LogIsWhatWasSent(es, socket.session, socket.role);
  }

  lemma {:induction false} EveryRunIsIsolated(es: seq<Event>)
    ensures Isolated(Run(Empty, es))
  {
    if es != [] {
      var front := es[..|es| - 1];
      EveryRunIsIsolated(front);
      EveryRunIsConserved(front);
      StepIsolates(Run(Empty, front), es[|es| - 1]);
    }
  }

  // ---------------------------------------------------------------- delivery

  /** The session's entry has this socket on that side, and it is open. */
  ghost predicate Current(r: Relay, session: int, role: Role, v: nat) {
    session in r.sessions && SocketOf(r.sessions[session], role) == Some(v) && v < |r.sockets| && r.sockets[v].open
  }

  lemma CloseAndCurrent(r: Relay, closed: int, session: int, role: Role, v: nat)
    requires Current(CloseSession(r, closed), session, role, v)
    ensures Current(r, session, role, v) && CloseSession(r, closed).sockets[v].received == r.sockets[v].received
  {
  }

  lemma AttachAndCurrent(r: Relay, attached: int, side: Role, session: int, role: Role, v: nat)
    requires v < |r.sockets| && Current(Attach(r, attached, side), session, role, v)
    ensures Current(r, session, role, v) && Attach(r, attached, side).sockets[v].received == r.sockets[v].received
  {
  }

  lemma PostAndCurrent(r: Relay, posted: int, to: Role, data: string, session: int, role: Role, v: nat)
    requires Wired(r) && Current(Post(r, posted, to, data), session, role, v)
    ensures Current(r, session, role, v)
    ensures Post(r, posted, to, data).sockets[v].received ==
            r.sockets[v].received + (if posted == session && to == role then [data] else [])
  {
  }

  /** A socket that is current after a step was so before, and has received exactly what the step posted to it. */
  lemma StepAndCurrent(r: Relay, e: Event, session: int, role: Role, v: nat)
    requires Wired(r) && v < |r.sockets| && Current(Step(r, e), session, role, v)
    ensures Current(r, session, role, v)
    ensures Step(r, e).sockets[v].received == r.sockets[v].received + PostedTo(Logged(r, e), session, role)
  {
    hide CloseSession, Attach, Post, Wired;
    match e
    case AgentConnects(s, agent, owner) =>
      if Admits(s, agent, owner) { AttachAndCurrent(r, s, AgentSide, session, role, v); }
    case ViewerConnects(s, tokenValid, known) =>
      if tokenValid && known { AttachAndCurrent(r, s, ViewerSide, session, role, v); }
    case Message(socket, data) =>
      if socket < |r.sockets| {
        var from := r.sockets[socket];
        PostAndCurrent(r, from.session, Other(from.role), data, session, role, v);
        assert Logged(r, e)[..0] == [];
      }
    case Drops(_) =>
    case SocketGone(socket) =>
      if socket < |r.sockets| { CloseAndCurrent(r, r.sockets[socket].session, session, role, v); }
    case TimerFires(timer) => if timer in r.timers { CloseAndCurrent(r, r.timers[timer], session, role, v); }
  }

  /** Nothing is lost: a socket that is still open and in its entry has received, since any earlier moment
      at which it existed, every message that the other side of its session has sent, in order. */
  lemma {:induction false} CurrentSocketHearsEverything(es: seq<Event>, k: nat, session: int, role: Role, v: nat)
    requires k <= |es| && v < |Run(Empty, es[..k]).sockets| && Current(Run(Empty, es), session, role, v)
    ensures SentFrom(es[..k], session, Other(role)) <= SentFrom(es, session, Other(role))
    ensures Run(Empty, es).sockets[v].received ==
            Run(Empty, es[..k]).sockets[v].received +
            SentFrom(es, session, Other(role))[|SentFrom(es[..k], session, Other(role))|..]
  {
    if k == |es| {
      assert es[..k] == es;
    } else {
      hide Step, SentFrom, Logged, PostedTo, Current;
      var front, e := es[..|es| - 1], es[|es| - 1];
      assert front[..k] == es[..k] && es == front + [e];
      var r := Run(Empty, front);
      EveryRunIsConserved(front);
      SocketsStay(front, k);
      StepAndCurrent(r, e, session, role, v);
      CurrentSocketHearsEverything(front, k, session, role, v);
      SentFromGrows(front, e, session, role);
      Extended(SentFrom(front, session, Other(role)), PostedTo(Logged(r, e), session, role),
               |SentFrom(es[..k], session, Other(role))|);
    }
  }

  /** A later socket of the same session and side has taken this one's place. */
  ghost predicate Replaced(sockets: seq<Socket>, v: nat)
    requires v < |sockets|
  {
    exists w :: v < w < |sockets| && sockets[w].session == sockets[v].session && sockets[w].role == sockets[v].role
  }

  ghost predicate OpenAccounted(r: Relay) {
    forall v :: 0 <= v < |r.sockets| && r.sockets[v].open ==>
      Current(r, r.sockets[v].session, r.sockets[v].role, v) || Replaced(r.sockets, v)
  }

  lemma ReplacedStays(a: seq<Socket>, b: seq<Socket>, v: nat)
    requires |a| <= |b| && forall i :: 0 <= i < |a| ==> a[i].session == b[i].session && a[i].role == b[i].role
    requires v < |a| && Replaced(a, v)
    ensures Replaced(b, v)
  {
    var w :| v < w < |a| && a[w].session == a[v].session && a[w].role == a[v].role;
    assert b[w].session == b[v].session && b[w].role == b[v].role;
  }

  lemma AttachAccounted(r: Relay, session: int, role: Role)
    requires OpenAccounted(r)
    ensures OpenAccounted(Attach(r, session, role))
  {
    var a := Attach(r, session, role);
    var n := |r.sockets|;
    assert a.sockets[n].session == session && a.sockets[n].role == role;
    forall v | 0 <= v < |a.sockets| && a.sockets[v].open
      ensures Current(a, a.sockets[v].session, a.sockets[v].role, v) || Replaced(a.sockets, v)
    {
      if v < n {
        assert a.sockets[v] == r.sockets[v];
        if r.sockets[v].session == session && r.sockets[v].role == role {
          assert v < n < |a.sockets|;
        } else if Replaced(r.sockets, v) {
          ReplacedStays(r.sockets, a.sockets, v);
        }
      }
    }
  }

  lemma SameSeatsAccounted(r: Relay, q: Relay)
    requires OpenAccounted(r) && SameSeats(r.sockets, q.sockets)
    requires forall v :: 0 <= v < |r.sockets| && q.sockets[v].open ==> r.sockets[v].open
    requires forall s, role, v: nat :: Current(r, s, role, v) && q.sockets[v].open ==> Current(q, s, role, v)
    ensures OpenAccounted(q)
  {
    forall v | 0 <= v < |q.sockets| && q.sockets[v].open
      ensures Current(q, q.sockets[v].session, q.sockets[v].role, v) || Replaced(q.sockets, v)
    {
      if Replaced(r.sockets, v) {
        ReplacedStays(r.sockets, q.sockets, v);
      }
    }
  }

  lemma CloseAccounted(r: Relay, session: int)
    requires OpenAccounted(r)
    ensures OpenAccounted(CloseSession(r, session))
  {
    hide OpenAccounted;
    SameSeatsAccounted(r, CloseSession(r, session));
  }

  lemma PostAccounted(r: Relay, session: int, to: Role, data: string)
    requires OpenAccounted(r)
    ensures OpenAccounted(Post(r, session, to, data))
  {
    hide OpenAccounted;
    SameSeatsAccounted(r, Post(r, session, to, data));
  }

  lemma DropAccounted(r: Relay, socket: nat)
    requires OpenAccounted(r)
    ensures OpenAccounted(Step(r, Drops(socket)))
  {
    hide OpenAccounted;
    SameSeatsAccounted(r, Step(r, Drops(socket)));
  }

  /** Finalising an entry leaves none of its sockets open: in every run a socket that is still open is the
      one in its session's live entry, or a later connection has taken its place. */
  lemma {:induction false} EveryOpenSocketIsAccounted(es: seq<Event>)
    ensures OpenAccounted(Run(Empty, es))
  {
    if es != [] {
      hide OpenAccounted, Attach, CloseSession, Post;
      var r, e := Run(Empty, es[..|es| - 1]), es[|es| - 1];
      EveryOpenSocketIsAccounted(es[..|es| - 1]);
      match e
      case AgentConnects(session, _, _) => AttachAccounted(r, session, AgentSide);
      case ViewerConnects(session, _, _) => AttachAccounted(r, session, ViewerSide);
      case Message(socket, data) =>
        if socket < |r.sockets| { PostAccounted(r, r.sockets[socket].session, Other(r.sockets[socket].role), data); }
      case Drops(socket) => DropAccounted(r, socket);
      case SocketGone(socket) => if socket < |r.sockets| { CloseAccounted(r, r.sockets[socket].session); }
      case TimerFires(timer) => if timer in r.timers { CloseAccounted(r, r.timers[timer]); }
    }
  }

  // ------------------------------------------------------------ who is attached

  /** What lets a connection in: the agent of the stored session, or a viewer with a valid token for one. */
  predicate LetsIn(e: Event, session: int, role: Role) {
    match e
    case AgentConnects(s, agent, owner) => s == session != 0 && role == AgentSide && agent.Some? && owner == agent
    case ViewerConnects(s, tokenValid, found) => s == session && role == ViewerSide && tokenValid && found
    case _ => false
  }

  lemma StepLetsIn(r: Relay, e: Event)
    ensures |r.sockets| <= |Step(r, e).sockets| <= |r.sockets| + 1
    ensures forall v :: 0 <= v < |r.sockets| ==>
              && Step(r, e).sockets[v].session == r.sockets[v].session
              && Step(r, e).sockets[v].role == r.sockets[v].role
    ensures |Step(r, e).sockets| > |r.sockets| ==>
              LetsIn(e, Step(r, e).sockets[|r.sockets|].session, Step(r, e).sockets[|r.sockets|].role)
  {
  }

  /** In every run, every socket was let in: an agent's only for its own session, a viewer's only with a valid
      token for a stored one. */
  lemma {:induction false} EverySocketWasLetIn(es: seq<Event>, v: nat) returns (k: nat)
    requires v < |Run(Empty, es).sockets|
    ensures k < |es| && LetsIn(es[k], Run(Empty, es).sockets[v].session, Run(Empty, es).sockets[v].role)
  {
    hide Step, LetsIn;
    assert es != [] by { NoSockets(); }
    var front, e := es[..|es| - 1], es[|es| - 1];
    StepLetsIn(Run(Empty, front), e);
    if v < |Run(Empty, front).sockets| {
      k := EverySocketWasLetIn(front, v);
    } else {
      k := |es| - 1;
    }
  }

  lemma NoSockets()
    ensures Run(Empty, []).sockets == []
  {
  }

  lemma Extended(s: seq<string>, more: seq<string>, n: nat)
    requires n <= |s|
    ensures (s + more)[n..] == s[n..] + more
  {
  }

  lemma StepKeepsSockets(r: Relay, e: Event)
    ensures |Step(r, e).sockets| >= |r.sockets|
  {
  }

  lemma {:induction false} SocketsStay(es: seq<Event>, k: nat)
    requires k <= |es|
    ensures |Run(Empty, es).sockets| >= |Run(Empty, es[..k]).sockets|
  {
    if k == |es| {
      assert es[..k] == es;
    } else {
      hide Step;
      assert es[..|es| - 1][..k] == es[..k];
      SocketsStay(es[..|es| - 1], k);
      StepKeepsSockets(Run(Empty, es[..|es| - 1]), es[|es| - 1]);
    }
  }
}
