/** Connection bookkeeping of the event loop: idle list, output limits, registered interest and deferred closing
    (src/net/server.cpp). */
module Connections {

  type Fd = nat

  datatype Interest = Interest(read: bool, write: bool)

  /** `out` is the number of unsent bytes; `known` the interest last registered for the connection. */
  datatype Connection = Connection(lastActive: int, wantClose: bool, paused: bool, out: nat, known: Interest)

  /** The interest the connection's state asks for. */
  function Wanted(c: Connection): Interest
  {
    Interest(!c.wantClose && !c.paused, c.out > 0)
  }

  /** Holds between events: the write interest is exact, a paused connection has output to send, and only a
      connection about to close may have a read interest it no longer wants. */
  ghost predicate Settled(c: Connection)
  {
    && c.known.write == (c.out > 0)
    && (c.paused ==> c.out > 0)
    && (!c.wantClose ==> c.known.read == !c.paused)
  }

  predicate Reapable(c: Connection) { c.wantClose && c.out == 0 }

  lemma SurvivorReachable(c: Connection)
    requires Settled(c) && !Reapable(c)
    ensures c.known.read || c.known.write
  {
  }

  // The idle list: each connection once, least recently active first.

  ghost predicate Distinct(s: seq<Fd>)
  {
    forall i, j :: 0 <= i < j < |s| ==> s[i] != s[j]
  }

  ghost predicate Lists(s: seq<Fd>, conns: map<Fd, Connection>)
  {
    Distinct(s) && forall fd :: fd in s <==> fd in conns
  }

  ghost predicate OldestFirst(s: seq<Fd>, conns: map<Fd, Connection>)
    requires forall fd :: fd in s ==> fd in conns
  {
    forall i, j :: 0 <= i < j < |s| ==> conns[s[i]].lastActive <= conns[s[j]].lastActive
  }

  /** The list, the connections and the clock belong together. */
  ghost predicate Tracks(s: seq<Fd>, conns: map<Fd, Connection>, clock: int)
  {
    Lists(s, conns) && OldestFirst(s, conns) && forall fd :: fd in conns ==> conns[fd].lastActive <= clock
  }

  /** The kernel knows each connection's interest as the connection remembers it. */
  ghost predicate Told(registered: map<Fd, Interest>, conns: map<Fd, Connection>)
  {
    registered.Keys == conns.Keys && forall fd :: fd in conns ==> registered[fd] == conns[fd].known
  }

  ghost predicate AllSettled(conns: map<Fd, Connection>)
  {
    forall fd :: fd in conns ==> Settled(conns[fd])
  }

  function Without(s: seq<Fd>, fd: Fd): seq<Fd>
  {
    if s == [] then []
    else if s[|s| - 1] == fd then Without(s[..|s| - 1], fd)
    else Without(s[..|s| - 1], fd) + [s[|s| - 1]]
  }

  /** Taking one entry out keeps the others. */
  lemma {:induction false} WithoutHas(s: seq<Fd>, fd: Fd, x: Fd)
    ensures x in Without(s, fd) <==> x in s && x != fd
  {
    if s != [] {
      var n := |s| - 1;
      assert s == s[..n] + [s[n]];
      WithoutHas(s[..n], fd, x);
    }
  }

  /** And it keeps any relation between earlier and later entries. */
  lemma {:induction false} WithoutPairs(s: seq<Fd>, fd: Fd, related: (Fd, Fd) -> bool, i: nat, j: nat)
    requires (forall k, l :: 0 <= k < l < |s| ==> related(s[k], s[l])) && i < j < |Without(s, fd)|
    ensures related(Without(s, fd)[i], Without(s, fd)[j])
  {
    var n := |s| - 1;
    var front, w := s[..n], Without(s[..n], fd);
    assert forall k, l :: 0 <= k < l < n ==> related(front[k], front[l]);
    if j < |w| {
      WithoutPairs(front, fd, related, i, j);
    } else {
      WithoutHas(front, fd, w[i]);
      var k :| 0 <= k < n && front[k] == w[i];
      assert related(s[k], s[n]);
    }
  }

  lemma TracksRemove(s: seq<Fd>, conns: map<Fd, Connection>, clock: int, fd: Fd)
    requires Tracks(s, conns, clock)
    ensures Tracks(Without(s, fd), conns - {fd}, clock)
  {
    var w := Without(s, fd);
    forall x ensures x in w <==> x in conns - {fd} {
      WithoutHas(s, fd, x);
    }
    forall i, j | 0 <= i < j < |w| ensures w[i] != w[j] && w[i] in conns && w[j] in conns && conns[w[i]].lastActive <= conns[w[j]].lastActive {
      WithoutPairs(s, fd, (x, y) => x != y && x in conns && y in conns && conns[x].lastActive <= conns[y].lastActive, i, j);
    }
  }

  lemma TracksAdd(s: seq<Fd>, conns: map<Fd, Connection>, clock: int, fd: Fd, c: Connection)
    requires Tracks(s, conns, clock) && fd !in conns && clock <= c.lastActive
    ensures Tracks(s + [fd], conns[fd := c], c.lastActive)
  {
    var t, m := s + [fd], conns[fd := c];
    forall x ensures x in t <==> x in m {
    }
    forall i, j | 0 <= i < j < |t| ensures t[i] != t[j] && m[t[i]].lastActive <= m[t[j]].lastActive {
      assert t[i] == s[i] && s[i] in s;
      if j < |s| {
        assert t[j] == s[j] && s[j] in s;
      }
    }
  }

  lemma TracksMove(s: seq<Fd>, conns: map<Fd, Connection>, clock: int, fd: Fd, now: int)
    requires Tracks(s, conns, clock) && fd in conns && clock <= now
    ensures Tracks(Without(s, fd) + [fd], conns[fd := conns[fd].(lastActive := now)], now)
  {
    hide Tracks;
    TracksRemove(s, conns, clock, fd);
    var c := conns[fd].(lastActive := now);
    TracksAdd(Without(s, fd), conns - {fd}, clock, fd, c);
    assert (conns - {fd})[fd := c] == conns[fd := c];
  }

  /** Only activity moves the list. */
  lemma TracksSame(s: seq<Fd>, conns: map<Fd, Connection>, other: map<Fd, Connection>, clock: int, later: int)
    requires Tracks(s, conns, clock) && clock <= later
    requires other.Keys == conns.Keys && forall fd :: fd in conns ==> other[fd].lastActive == conns[fd].lastActive
    ensures Tracks(s, other, later)
  {
    assert forall i :: 0 <= i < |s| ==> s[i] in s;
  }

  /** What an idle sweep is meant to do: every connection inactive for the timeout is marked for closing. */
  ghost function Marked(conns: map<Fd, Connection>, now: int, timeout: int): map<Fd, Connection>
  {
    map fd | fd in conns :: if now - conns[fd].lastActive >= timeout then conns[fd].(wantClose := true) else conns[fd]
  }

  ghost predicate Inactive(conns: map<Fd, Connection>, fd: Fd, now: int, timeout: int)
  {
    fd in conns && now - conns[fd].lastActive >= timeout
  }

  ghost function Surviving(conns: map<Fd, Connection>): map<Fd, Connection>
  {
    map fd | fd in conns && !Reapable(conns[fd]) :: conns[fd]
  }

  class Server {
    const maxClients: nat
    const hardLimit: nat
    const softLimit: nat
    /** Milliseconds; not positive disables the sweep. */
    const idleTimeout: int

    var conns: map<Fd, Connection>
    var idle: seq<Fd>
    /** What the kernel has been told. */
    var registered: map<Fd, Interest>
    /** The latest reading of the clock. */
    var clock: int

    ghost predicate Valid()
      reads this
    {
      Tracks(idle, conns, clock) && Told(registered, conns)
    }

    constructor (maxClients: nat, hardLimit: nat, softLimit: nat, idleTimeout: int)
      ensures Valid() && AllSettled(conns) && conns == map[]
    {
      this.maxClients, this.hardLimit, this.softLimit, this.idleTimeout := maxClients, hardLimit, softLimit, idleTimeout;
      conns, idle, registered, clock := map[], [], map[], 0;
    }

    /** A new socket; over the client limit it is dropped. */
    method Accept(fd: Fd, now: int) returns (kept: bool)
      requires Valid() && AllSettled(conns) && fd !in conns && clock <= now
      modifies this
      ensures Valid() && AllSettled(conns) && kept == (|old(conns)| < maxClients) && clock == now
      ensures conns == if kept then old(conns)[fd := Connection(now, false, false, 0, Interest(true, false))] else old(conns)
    {
      hide Tracks;
      kept := |conns| < maxClients;
      if kept {
        var c := Connection(now, false, false, 0, Interest(true, false));
        TracksAdd(idle, conns, clock, fd, c);
        registered := registered[fd := c.known];
        idle := idle + [fd];
        conns := conns[fd := c];
      } else {
        TracksSame(idle, conns, conns, clock, now);
      }
      clock := now;
    }

    /** Refreshes a connection's activity and moves it to the back of the list. */
    method MarkActive(fd: Fd, now: int)
      requires Valid() && fd in conns && clock <= now
      modifies this`conns, this`idle, this`clock
      ensures Valid() && conns == old(conns)[fd := old(conns)[fd].(lastActive := now)] && clock == now
    {
      hide Tracks;
      TracksMove(idle, conns, clock, fd, now);
      clock := now;
      conns := conns[fd := conns[fd].(lastActive := now)];
      idle := Without(idle, fd) + [fd];
    }

    /** One event of a client: reading, commands and writing leave some amount of output and may ask to close; `moved`
        says whether any byte was received or sent. */
    method OnClientEvent(fd: Fd, now: int, moved: bool, out: nat, closes: bool)
      requires Valid() && AllSettled(conns) && clock <= now
      modifies this
      ensures Valid() && AllSettled(conns) && clock <= now && conns.Keys == old(conns).Keys
      ensures forall x :: x in conns && x != fd ==> conns[x] == old(conns)[x]
      ensures fd in conns ==> registered[fd] == Wanted(conns[fd])
      ensures fd in conns ==> registered[fd].read == (!conns[fd].wantClose && !conns[fd].paused)
      ensures fd in conns ==> registered[fd].write == (conns[fd].out > 0)
      ensures fd in conns && out > hardLimit ==> conns[fd].wantClose && conns[fd].out == 0
      ensures fd in conns && out <= hardLimit ==> conns[fd].out == out && conns[fd].wantClose == (old(conns)[fd].wantClose || closes)
      ensures fd in conns && softLimit < out <= hardLimit ==> conns[fd].paused
      ensures fd in conns && out == 0 ==> !conns[fd].paused
      ensures fd in conns && 0 < out <= softLimit && out <= hardLimit ==> conns[fd].paused == old(conns)[fd].paused
      ensures fd in conns ==> conns[fd].lastActive == if moved then now else old(conns)[fd].lastActive
      ensures fd in conns ==> var c := old(conns)[fd].(out := out, wantClose := old(conns)[fd].wantClose || closes);
                              conns[fd].(known := c.known, lastActive := c.lastActive) == Pressed(c, hardLimit, softLimit)
    {
      hide Tracks;
      if fd !in conns {
        return;
      }
      if moved {
        MarkActive(fd, now);
      }
      var c := conns[fd].(out := out, wantClose := conns[fd].wantClose || closes);
      Settle(fd, UpdateBackpressure(c));
    }

    /** Pauses reading above the soft limit until the output is gone; above the hard limit drops the output and closes. */
    function UpdateBackpressure(c: Connection): (r: Connection)
      ensures r == Pressed(c, hardLimit, softLimit)
    {
      if c.out > hardLimit then c.(out := 0, paused := false, wantClose := true)
      else if c.out > softLimit then c.(paused := true)
      else if c.out == 0 then c.(paused := false)
      else c
    }

    /** Tells the kernel only what has changed. */
    method Settle(fd: Fd, c: Connection)
      requires Valid() && fd in conns && (c.paused ==> c.out > 0) && c.lastActive == conns[fd].lastActive && c.known == conns[fd].known
      modifies this`conns, this`registered
      ensures Valid() && conns == old(conns)[fd := c.(known := Wanted(c))]
      ensures Settled(conns[fd]) && registered[fd] == Wanted(c)
    {
      hide Tracks;
      TracksSame(idle, conns, conns[fd := c.(known := Wanted(c))], clock, clock);
      if Wanted(c) != c.known {
        registered := registered[fd := Wanted(c)];
      }
      conns := conns[fd := c.(known := Wanted(c))];
    }

    /** Stops at the first connection that is not idle long enough; the marks are those of a full scan. */
    method SweepIdleConnections(now: int)
      requires Valid() && AllSettled(conns)
      modifies this`conns
      ensures Valid() && AllSettled(conns)
      ensures conns == if idleTimeout > 0 then Marked(old(conns), now, idleTimeout) else old(conns)
      ensures conns.Keys == old(conns).Keys
      ensures forall fd :: fd in conns ==>
                (conns[fd].wantClose <==>
                 old(conns)[fd].wantClose || (idleTimeout > 0 && now - old(conns)[fd].lastActive >= idleTimeout))
    {
      if idleTimeout <= 0 {
        return;
      }
      MarkedKeeps(conns, now, idleTimeout, idle, clock, registered);
      MarkIdle(now);
    }

    method MarkIdle(now: int)
      requires Lists(idle, conns) && OldestFirst(idle, conns)
      modifies this`conns
      ensures conns == Marked(old(conns), now, idleTimeout)
    {
      ghost var before := conns;
      hide OldestFirst, Lists, Marked, SweptTo;
      NothingSwept(conns, idle);
      var i := 0;
      while i < |idle|
        invariant 0 <= i <= |idle| && conns == SweptTo(before, idle, i)
        invariant forall j :: 0 <= j < i ==> Inactive(before, idle[j], now, idleTimeout)
      {
        SweptAt(before, idle, i);
        var fd := idle[i];
        if now - conns[fd].lastActive < idleTimeout {
          break;
        }
        conns := conns[fd := conns[fd].(wantClose := true)];
        i := i + 1;
      }
      SweptIsMarked(before, idle, i, now, idleTimeout);
    }

    /** Destroys the connections that are closing and have nothing left to send. Every other one can be reached: a
        read or a write interest is registered for it. */
    method ReapClosed()
      requires Valid() && AllSettled(conns)
      modifies this`conns, this`idle, this`registered
      ensures Valid() && AllSettled(conns) && conns == Surviving(old(conns))
      ensures forall fd :: fd in old(conns) ==> (fd in conns <==> !(old(conns)[fd].wantClose && old(conns)[fd].out == 0))
      ensures forall fd :: fd in conns ==> fd in old(conns) && conns[fd] == old(conns)[fd]
      ensures AllReachable()
    {
      ghost var before := conns;
      hide Tracks, Told;
      var rest := conns.Keys;
      assert conns == ReapedTo(before, rest);
      while rest != {}
        invariant Valid() && rest <= before.Keys && conns == ReapedTo(before, rest)
        decreases |rest|
      {
        var fd :| fd in rest;
        assert fd in conns && conns[fd] == before[fd];
        ReapedNext(before, rest, fd);
        rest := rest - {fd};
        if Reapable(conns[fd]) {
          Remove(fd);
        }
      }
      Reachable();
    }

    method Remove(fd: Fd)
      requires Valid() && fd in conns
      modifies this`conns, this`idle, this`registered
      ensures Valid() && conns == old(conns) - {fd}
    {
      hide Tracks;
      TracksRemove(idle, conns, clock, fd);
      registered := registered - {fd};
      idle := Without(idle, fd);
      conns := conns - {fd};
    }

    ghost predicate AllReachable()
      reads this
    {
      forall fd :: fd in conns ==> fd in registered && (registered[fd].read || registered[fd].write)
    }

    lemma Reachable()
      requires Told(registered, conns) && AllSettled(conns) && forall fd :: fd in conns ==> !Reapable(conns[fd])
      ensures AllReachable()
    {
      forall fd | fd in conns ensures fd in registered && (registered[fd].read || registered[fd].write) {
        SurvivorReachable(conns[fd]);
      }
    }
  }

  /** The output limits: `paused` implies output to wait for, and crossing the hard limit closes. */
  ghost function Pressed(c: Connection, hard: nat, soft: nat): (r: Connection)
    ensures (r.paused ==> r.out > 0) && r.out <= hard && (c.out > hard ==> Reapable(r)) && (soft < r.out ==> r.paused)
  {
    if c.out > hard then c.(out := 0, paused := false, wantClose := true)
    else c.(paused := c.out > soft || (c.paused && c.out > 0))
  }

  /** Marking for closing touches neither the list nor any registered interest. */
  lemma MarkedKeeps(conns: map<Fd, Connection>, now: int, timeout: int, idle: seq<Fd>, clock: int, registered: map<Fd, Interest>)
    requires Tracks(idle, conns, clock) && Told(registered, conns) && AllSettled(conns)
    ensures Tracks(idle, Marked(conns, now, timeout), clock) && Told(registered, Marked(conns, now, timeout))
    ensures AllSettled(Marked(conns, now, timeout))
  {
    TracksSame(idle, conns, Marked(conns, now, timeout), clock, clock);
  }

  lemma NothingSwept(conns: map<Fd, Connection>, idle: seq<Fd>)
    requires Lists(idle, conns)
    ensures SweptTo(conns, idle, 0) == conns
  {
  }

  lemma ReapedNext(conns: map<Fd, Connection>, rest: set<Fd>, fd: Fd)
    requires fd in rest && fd in conns
    ensures ReapedTo(conns, rest - {fd}) == if Reapable(conns[fd]) then ReapedTo(conns, rest) - {fd} else ReapedTo(conns, rest)
  {
  }

  /** The connections after the first n list entries were marked. */
  ghost function SweptTo(conns: map<Fd, Connection>, idle: seq<Fd>, n: nat): map<Fd, Connection>
    requires n <= |idle|
  {
    map fd | fd in conns :: if fd in idle[..n] then conns[fd].(wantClose := true) else conns[fd]
  }

  lemma SweptAt(conns: map<Fd, Connection>, idle: seq<Fd>, i: nat)
    requires Lists(idle, conns) && i < |idle|
    ensures idle[i] in conns && idle[i] in SweptTo(conns, idle, i) && SweptTo(conns, idle, i)[idle[i]] == conns[idle[i]]
    ensures SweptTo(conns, idle, i + 1) == SweptTo(conns, idle, i)[idle[i] := conns[idle[i]].(wantClose := true)]
  {
    assert idle[..i + 1] == idle[..i] + [idle[i]];
  }

  /** Because the list is in order of activity, what follows the first recent connection is recent too. */
  lemma SweptIsMarked(conns: map<Fd, Connection>, idle: seq<Fd>, i: nat, now: int, timeout: int)
    requires Lists(idle, conns) && OldestFirst(idle, conns) && i <= |idle|
    requires forall j :: 0 <= j < i ==> Inactive(conns, idle[j], now, timeout)
    requires i < |idle| ==> !Inactive(conns, idle[i], now, timeout)
    ensures SweptTo(conns, idle, i) == Marked(conns, now, timeout)
  {
    hide Lists, OldestFirst;
    forall fd | fd in conns ensures fd in idle[..i] <==> Inactive(conns, fd, now, timeout) {
      SweptOne(conns, idle, i, now, timeout, fd);
    }
  }

  lemma SweptOne(conns: map<Fd, Connection>, idle: seq<Fd>, i: nat, now: int, timeout: int, fd: Fd)
    requires Lists(idle, conns) && OldestFirst(idle, conns) && i <= |idle| && fd in conns
    requires forall j :: 0 <= j < i ==> Inactive(conns, idle[j], now, timeout)
    requires i < |idle| ==> !Inactive(conns, idle[i], now, timeout)
    ensures fd in idle[..i] <==> Inactive(conns, fd, now, timeout)
  {
    var j :| 0 <= j < |idle| && idle[j] == fd;
    if j < i {
      assert idle[..i][j] == fd;
    } else {
      assert idle[i] in conns;
      assert conns[idle[i]].lastActive <= conns[idle[j]].lastActive;
    }
  }

  /** The reap loop with the entries in `rest` still to visit. */
  ghost function ReapedTo(conns: map<Fd, Connection>, rest: set<Fd>): map<Fd, Connection>
  {
    map fd | fd in conns && (fd in rest || !Reapable(conns[fd])) :: conns[fd]
  }

  // Any sequence of events.

  datatype Event =
    | Accepted(fd: Fd)
    | Client(fd: Fd, moved: bool, out: nat, closes: bool)
    | Sweep
    | Reap

  /** Whatever the clients do, and whenever sweeps and reaps come: the list stays exact, and after each reap every
      remaining connection has an interest registered with the kernel that its state asks for or is about to close. */
  method Serve(server: Server, events: seq<Event>, times: seq<int>)
    requires server.Valid() && AllSettled(server.conns) && |times| == |events| && (events != [] ==> server.clock <= times[0])
    requires forall i, j :: 0 <= i <= j < |times| ==> times[i] <= times[j]
    modifies server
    ensures server.Valid() && AllSettled(server.conns)
    ensures events != [] && events[|events| - 1].Reap? ==> server.AllReachable()
  {
    hide Server.Valid, Server.AllReachable, AllSettled;
    for k := 0 to |events|
      invariant server.Valid() && AllSettled(server.conns) && (k < |events| ==> server.clock <= times[k])
      invariant k > 0 && events[k - 1].Reap? ==> server.AllReachable()
    {
      Handle(server, events[k], times[k]);
    }
  }

  method Handle(server: Server, event: Event, now: int)
    requires server.Valid() && AllSettled(server.conns) && server.clock <= now
    modifies server
    ensures server.Valid() && AllSettled(server.conns) && server.clock <= now
    ensures event.Reap? ==> server.AllReachable()
  {
    hide Server.Valid, Server.AllReachable, AllSettled;
    match event
    case Accepted(fd) =>
      if fd !in server.conns {
        var _ := server.Accept(fd, now);
      }
    case Client(fd, moved, out, closes) => server.OnClientEvent(fd, now, moved, out, closes);
    case Sweep => server.SweepIdleConnections(now);
    case Reap => server.ReapClosed();
  }
}
