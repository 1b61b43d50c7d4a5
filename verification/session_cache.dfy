/**
 * Session sharing and caching for SFTP sessions.
 *
 * The SFTP session factory opens SSH connections and creates one logical
 * session (an SFTP channel) per request. In shared mode it keeps one current
 * connection and opens every new session over it while it stays connected;
 * otherwise each session gets a connection of its own. A connection is
 * disconnected when the last session over it is closed.
 *
 * The caching factory wraps it: getSession hands out an idle session when one
 * exists and creates one otherwise; closing a session released by a caller
 * returns it to the idle pool; resetCache starts a new generation, closes every
 * idle session and makes the factory drop its shared connection. A session
 * from an earlier generation is closed, not pooled, when its caller releases it.
 */
module SessionCache {
  import opened Wrappers

  /** An SSH connection: whether it is connected, the cache generation in which
      it was opened, and the sessions currently open over it. */
  datatype Connection = Connection(connected: bool, born: nat, users: set<nat>)

  /** A logical session over connection conn, created in generation gen, open
      until its channel is closed. */
  datatype Session = Session(conn: nat, gen: nat, open: bool)

  /**
   * The whole state: connections and sessions are identified by their index,
   * in order of creation. current is the factory's shared connection; idle is
   * the pool of released sessions, oldest first; checkedOut are the sessions
   * held by callers; gen counts resets; disconnects logs every disconnect.
   */
  datatype State = State(
    shared: bool,
    conns: seq<Connection>,
    sessions: seq<Session>,
    current: Option<nat>,
    idle: seq<nat>,
    checkedOut: set<nat>,
    gen: nat,
    disconnects: seq<nat>)

  /** The caching factory over a fresh session factory. */
  function Init(shared: bool): (c: State)
    ensures Valid(c)
    ensures c.shared == shared && c.checkedOut == {} && c.idle == []
  {
    State(shared, [], [], None, [], {}, 0, [])
  }

  // ---------------------------------------------------------------------
  // Invariants of every reachable state
  // ---------------------------------------------------------------------

  /** Sessions point at existing connections opened in the session's own
      generation; nothing is newer than the current generation. */
  ghost predicate Linked(c: State) {
    && (forall s :: 0 <= s < |c.sessions| ==>
          c.sessions[s].conn < |c.conns| && c.sessions[s].gen == c.conns[c.sessions[s].conn].born)
    && (forall k :: 0 <= k < |c.conns| ==> c.conns[k].born <= c.gen)
  }

  /** A connection's users are exactly the open sessions over it. */
  ghost predicate UsersExact(c: State) {
    && (forall k :: 0 <= k < |c.conns| ==> forall s :: s in c.conns[k].users ==>
          s < |c.sessions| && c.sessions[s].open && c.sessions[s].conn == k)
    && (forall s :: 0 <= s < |c.sessions| && c.sessions[s].open && c.sessions[s].conn < |c.conns| ==>
          s in c.conns[c.sessions[s].conn].users)
  }

  /** A connection stays connected exactly while some session uses it. */
  ghost predicate ConnectedIffUsed(c: State) {
    forall k :: 0 <= k < |c.conns| ==> (c.conns[k].connected <==> c.conns[k].users != {})
  }

  /** The log holds each disconnected connection exactly once. */
  ghost predicate DisconnectLog(c: State) {
    && (forall k :: 0 <= k < |c.conns| ==> (!c.conns[k].connected <==> k in c.disconnects))
    && (forall i :: 0 <= i < |c.disconnects| ==> c.disconnects[i] < |c.conns|)
    && (forall i, j :: 0 <= i < j < |c.disconnects| ==> c.disconnects[i] != c.disconnects[j])
  }

  /** The shared connection, if any, is connected and of this generation. */
  ghost predicate CurrentLive(c: State) {
    c.current.Some? ==>
      && c.shared
      && c.current.value < |c.conns|
      && c.conns[c.current.value].connected
      && c.conns[c.current.value].born == c.gen
  }

  /** The pool holds distinct, current-generation sessions no caller holds. */
  ghost predicate PoolShape(c: State) {
    && (forall i :: 0 <= i < |c.idle| ==>
          c.idle[i] < |c.sessions| && c.idle[i] !in c.checkedOut && c.sessions[c.idle[i]].gen == c.gen)
    && (forall i, j :: 0 <= i < j < |c.idle| ==> c.idle[i] != c.idle[j])
    && (forall s :: s in c.checkedOut ==> s < |c.sessions|)
  }

  /** The open sessions are those held by a caller, those in the pool, and the
      loose ones being closed right now. */
  ghost predicate OpenExactly(c: State, loose: set<nat>) {
    && (forall s :: s in loose ==> s < |c.sessions| && s !in c.checkedOut && s !in c.idle)
    && (forall s :: 0 <= s < |c.sessions| ==>
          (c.sessions[s].open <==> s in c.checkedOut || s in c.idle || s in loose))
  }

  /** The invariant, allowing the sessions in loose to be in the middle of
      being closed. */
  ghost predicate Inv(c: State, loose: set<nat>) {
    && Linked(c)
    && UsersExact(c)
    && ConnectedIffUsed(c)
    && DisconnectLog(c)
    && CurrentLive(c)
    && PoolShape(c)
    && OpenExactly(c, loose)
  }

  /** The invariant of every state the caching factory can reach. */
  ghost predicate Valid(c: State) {
    Inv(c, {})
  }

  // ---------------------------------------------------------------------
  // The session factory
  // ---------------------------------------------------------------------

  /** In shared mode the factory reuses its current connection while that is
      still connected. */
  predicate ReusesShared(c: State) {
    && c.shared
    && c.current.Some?
    && c.current.value < |c.conns|
    && c.conns[c.current.value].connected
  }

  /** The session factory's getSession: a new session, over the shared
      connection when it can be reused and over a newly opened connection
      otherwise; in shared mode that connection becomes the shared one. */
  function OpenSession(c: State): (r: (State, nat))
    ensures r.1 == |c.sessions| && |r.0.sessions| == |c.sessions| + 1
    ensures ReusesShared(c) ==> r.0.sessions[r.1].conn == c.current.value
    ensures !ReusesShared(c) ==> r.0.sessions[r.1].conn == |c.conns|
    ensures c.shared ==> r.0.current == Some(r.0.sessions[r.1].conn)
    ensures |r.0.conns| == if ReusesShared(c) then |c.conns| else |c.conns| + 1
    ensures r.0.conns[r.0.sessions[r.1].conn].connected
    ensures forall t :: 0 <= t < |c.sessions| ==> r.0.sessions[t] == c.sessions[t]
  {
    var reuse := ReusesShared(c);
    var k := if reuse then c.current.value else |c.conns|;
    var s := |c.sessions|;
    var conns := if reuse then c.conns else c.conns + [Connection(true, c.gen, {})];
    var c' := c.(conns := conns[k := conns[k].(users := conns[k].users + {s})],
                 sessions := c.sessions + [Session(k, c.gen, true)],
                 current := if c.shared then Some(k) else c.current);
    (c', s)
  }

  /** Closing a session's channel: the session stops being a user of its
      connection, and the connection is disconnected when that was its last
      user. */
  function CloseChannel(c: State, s: nat): (r: State)
    ensures |r.sessions| == |c.sessions| && |r.conns| == |c.conns|
    ensures forall t :: 0 <= t < |c.sessions| ==>
              r.sessions[t].conn == c.sessions[t].conn && r.sessions[t].gen == c.sessions[t].gen
    ensures forall k :: 0 <= k < |c.conns| ==> r.conns[k].born == c.conns[k].born
    ensures r.idle == c.idle && r.checkedOut == c.checkedOut
    ensures r.current == c.current && r.gen == c.gen && r.shared == c.shared
  {
    if s >= |c.sessions| || c.sessions[s].conn >= |c.conns| then c
    else
      var k := c.sessions[s].conn;
      var users := c.conns[k].users - {s};
      var drop := users == {} && c.conns[k].connected;
      c.(sessions := c.sessions[s := c.sessions[s].(open := false)],
         conns := c.conns[k := Connection(c.conns[k].connected && users != {}, c.conns[k].born, users)],
         disconnects := if drop then c.disconnects + [k] else c.disconnects)
  }

  /** Closes the channels of ids, in order. */
  function CloseAll(c: State, ids: seq<nat>): (r: State)
    ensures |r.sessions| == |c.sessions| && |r.conns| == |c.conns|
    ensures forall t :: 0 <= t < |c.sessions| ==>
              r.sessions[t].conn == c.sessions[t].conn && r.sessions[t].gen == c.sessions[t].gen
    ensures forall k :: 0 <= k < |c.conns| ==> r.conns[k].born == c.conns[k].born
    ensures r.idle == c.idle && r.checkedOut == c.checkedOut
    ensures r.current == c.current && r.gen == c.gen && r.shared == c.shared
    decreases |ids|
  {
    if |ids| == 0 then c else CloseAll(CloseChannel(c, ids[0]), ids[1..])
  }

  // ---------------------------------------------------------------------
  // The caching session factory
  // ---------------------------------------------------------------------

  /** getSession: the oldest idle session if there is one, otherwise a new
      session from the session factory. Returns the state and the session. */
  function GetSession(c: State): (r: (State, nat))
    ensures r.0.checkedOut == c.checkedOut + {r.1}
    ensures |c.idle| > 0 ==> r.1 == c.idle[0] && r.0.idle == c.idle[1..]
    ensures |c.idle| == 0 ==> r.1 == |c.sessions| && r.0.idle == []
  {
    if |c.idle| > 0 then
      (c.(idle := c.idle[1..], checkedOut := c.checkedOut + {c.idle[0]}), c.idle[0])
    else
      var (c1, s) := OpenSession(c);
      (c1.(checkedOut := c1.checkedOut + {s}), s)
  }

  /** close on a session handed out by getSession: a session of the current
      generation goes back to the pool; one from before the last reset has its
      channel closed instead. Closing a session no caller holds does nothing. */
  function Close(c: State, s: nat): (r: State)
    ensures s !in c.checkedOut ==> r == c
    ensures r.checkedOut == c.checkedOut - {s}
    ensures r.idle == c.idle || r.idle == c.idle + [s]
    ensures r.idle != c.idle <==> s in c.checkedOut && s < |c.sessions| && c.sessions[s].gen == c.gen
    ensures r.gen == c.gen && r.shared == c.shared && r.current == c.current
  {
    if s !in c.checkedOut then c
    else if s >= |c.sessions| then c.(checkedOut := c.checkedOut - {s})
    else if c.sessions[s].gen == c.gen then
      c.(checkedOut := c.checkedOut - {s}, idle := c.idle + [s])
    else
      CloseChannel(c.(checkedOut := c.checkedOut - {s}), s)
  }

  /** resetCache: the factory drops its shared connection, every idle session
      is closed, and a new generation starts. */
  function ResetCache(c: State): (r: State)
    ensures r.gen == c.gen + 1 && r.idle == [] && r.current == None
    ensures r.checkedOut == c.checkedOut
    ensures |r.sessions| == |c.sessions| && |r.conns| == |c.conns|
    ensures forall t :: 0 <= t < |c.sessions| ==>
              r.sessions[t].conn == c.sessions[t].conn && r.sessions[t].gen == c.sessions[t].gen
  {
    var drained := CloseAll(c.(current := None, idle := []), c.idle);
    drained.(gen := c.gen + 1)
  }

  // ---------------------------------------------------------------------
  // Each operation keeps the invariant and does what it promises
  // ---------------------------------------------------------------------

  /** Closing the channel of a session being closed keeps the invariant; the
      session's connection is disconnected, and logged, exactly when no other
      session is open over it; nothing else changes. */
  lemma CloseChannelSpec(c: State, loose: set<nat>, s: nat)
    requires Inv(c, loose) && s in loose
    requires c.current.None? || c.sessions[s].gen != c.gen
    ensures var r := CloseChannel(c, s);
            var k := c.sessions[s].conn;
            && Inv(r, loose - {s})
            && !r.sessions[s].open
            && (forall t :: 0 <= t < |c.sessions| && t != s ==> r.sessions[t] == c.sessions[t])
            && (forall j :: 0 <= j < |c.conns| && j != k ==> r.conns[j] == c.conns[j])
            && (r.conns[k].connected <==> c.conns[k].users - {s} != {})
            && r.disconnects == c.disconnects + (if r.conns[k].connected then [] else [k])
  {
    var r := CloseChannel(c, s);
    var k := c.sessions[s].conn;
    assert UsersExact(c) && OpenExactly(c, loose);
    assert s in c.conns[k].users;
    assert c.conns[k].connected;
    assert k !in c.disconnects;
    assert UsersExact(r) by {
      forall j, t | 0 <= j < |r.conns| && t in r.conns[j].users
        ensures t < |r.sessions| && r.sessions[t].open && r.sessions[t].conn == j
      {
        if j == k {
          assert t in c.conns[k].users && t != s;
        } else {
          assert r.conns[j] == c.conns[j];
          assert t in c.conns[j].users;
        }
        assert t < |c.sessions| && r.sessions[t] == c.sessions[t];
      }
    }
    assert DisconnectLog(r) by {
      forall j | 0 <= j < |r.conns|
        ensures !r.conns[j].connected <==> j in r.disconnects
      {
        if j != k {
          assert r.conns[j] == c.conns[j];
        }
      }
    }
    assert CurrentLive(r) by {
      if c.current.Some? {
        assert c.conns[k].born != c.gen;
        assert c.current.value != k;
      }
    }
    assert OpenExactly(r, loose - {s});
  }

  /** Closing the channels of distinct loose sessions one after another keeps
      the invariant and closes exactly those sessions. */
  lemma {:induction false} CloseAllSpec(c: State, loose: set<nat>, ids: seq<nat>)
    requires Inv(c, loose) && c.current.None?
    requires forall i :: 0 <= i < |ids| ==> ids[i] in loose
    requires forall i, j :: 0 <= i < j < |ids| ==> ids[i] != ids[j]
    ensures Inv(CloseAll(c, ids), loose - Elems(ids))
    decreases |ids|
  {
    if |ids| > 0 {
      var c1 := CloseChannel(c, ids[0]);
      CloseChannelSpec(c, loose, ids[0]);
      assert forall i :: 0 <= i < |ids[1..]| ==> ids[1..][i] in loose - {ids[0]} by {
        forall i | 0 <= i < |ids[1..]|
          ensures ids[1..][i] in loose - {ids[0]}
        {
          assert ids[1..][i] == ids[i + 1];
        }
      }
      assert forall i, j :: 0 <= i < j < |ids[1..]| ==> ids[1..][i] != ids[1..][j] by {
        forall i, j | 0 <= i < j < |ids[1..]|
          ensures ids[1..][i] != ids[1..][j]
        {
          assert ids[1..][i] == ids[i + 1] && ids[1..][j] == ids[j + 1];
        }
      }
      CloseAllSpec(c1, loose - {ids[0]}, ids[1..]);
      LooseAfterFirst(loose, ids);
      assert CloseAll(c, ids) == CloseAll(c1, ids[1..]);
    }
  }

  /** Taking out the first id and then the rest takes out all of them. */
  lemma LooseAfterFirst(loose: set<nat>, ids: seq<nat>)
    requires |ids| > 0
    ensures loose - {ids[0]} - Elems(ids[1..]) == loose - Elems(ids)
  {
    assert Elems(ids) == {ids[0]} + Elems(ids[1..]) by {
      assert ids == [ids[0]] + ids[1..];
    }
  }

  /** A new session from the factory: the state keeps the invariant once the
      caller holds it, the session is open over a connected connection of the
      current generation, and no earlier connection or session changes state. */
  lemma OpenSessionSpec(c: State)
    requires Valid(c) && |c.idle| == 0
    ensures var (c1, s) := OpenSession(c);
            var k := c1.sessions[s].conn;
            && Valid(c1.(checkedOut := c1.checkedOut + {s}))
            && c1.sessions[s].open && c1.sessions[s].gen == c.gen
            && k < |c1.conns| && c1.conns[k].connected && c1.conns[k].born == c.gen
            && |c1.conns| == (if ReusesShared(c) then |c.conns| else |c.conns| + 1)
            && (forall t :: 0 <= t < |c.sessions| ==> c1.sessions[t] == c.sessions[t])
            && (forall j :: 0 <= j < |c.conns| ==>
                  c1.conns[j].connected == c.conns[j].connected && c1.conns[j].born == c.conns[j].born)
            && c1.disconnects == c.disconnects && c1.gen == c.gen && c1.idle == c.idle
            && c1.checkedOut == c.checkedOut
  {
    var (c1, s) := OpenSession(c);
    var k := c1.sessions[s].conn;
    var c2 := c1.(checkedOut := c1.checkedOut + {s});
    assert UsersExact(c) && OpenExactly(c, {}) && PoolShape(c) && DisconnectLog(c) && Linked(c);
    assert c1.sessions == c.sessions + [Session(k, c.gen, true)];
    assert k == if ReusesShared(c) then c.current.value else |c.conns|;
    assert c1.conns[k].users == (if ReusesShared(c) then c.conns[k].users else {}) + {s};
    assert s !in c.checkedOut;
    assert forall j :: 0 <= j < |c.conns| && j != k ==> c1.conns[j] == c.conns[j];
    OpenUsersExact(c);
    assert DisconnectLog(c2) by {
      if ReusesShared(c) {
        assert c.conns[k].connected;
        assert k !in c.disconnects;
      } else {
        assert k !in c.disconnects;
      }
    }
    assert OpenExactly(c2, {});
  }

  /** A new session is a user of exactly its own connection. */
  lemma OpenUsersExact(c: State)
    requires Valid(c) && |c.idle| == 0
    ensures UsersExact(OpenSession(c).0)
  {
    var (c2, s) := OpenSession(c);
    var k := c2.sessions[s].conn;
    assert UsersExact(c) && Linked(c) && OpenExactly(c, {});
    assert c2.sessions == c.sessions + [Session(k, c.gen, true)];
    assert k == if ReusesShared(c) then c.current.value else |c.conns|;
    assert c2.conns[k].users == (if ReusesShared(c) then c.conns[k].users else {}) + {s};
    assert forall j :: 0 <= j < |c.conns| && j != k ==> c2.conns[j] == c.conns[j];
    if ReusesShared(c) {
      assert c2.conns == c.conns[k := c.conns[k].(users := c.conns[k].users + {s})];
    } else {
      assert |c2.conns| == |c.conns| + 1;
      assert c2.conns[k].users == {s};
      assert forall j :: 0 <= j < |c.conns| ==> c2.conns[j] == c.conns[j];
      assert c2.conns == c.conns + [Connection(true, c.gen, {s})];
    }
    forall j: int, t: int | 0 <= j < |c2.conns| && t in c2.conns[j].users
      ensures t < |c2.sessions| && c2.sessions[t].open && c2.sessions[t].conn == j
    {
      if t != s {
        assert j < |c.conns| && t in c.conns[j].users;
        assert c2.sessions[t] == c.sessions[t];
      }
    }
    forall t | 0 <= t < |c2.sessions| && c2.sessions[t].open && c2.sessions[t].conn < |c2.conns|
      ensures t in c2.conns[c2.sessions[t].conn].users
    {
      if t != s {
        assert c2.sessions[t] == c.sessions[t];
        assert t in c.conns[c.sessions[t].conn].users;
      }
    }
  }

  /** getSession keeps the invariant and hands out a session no caller held,
      open over a connected connection of the current generation; nothing is
      disconnected and no earlier session or connection changes state. */
  lemma GetSessionSpec(c: State)
    requires Valid(c)
    ensures var (r, s) := GetSession(c);
            var k := r.sessions[s].conn;
            && Valid(r)
            && s !in c.checkedOut && s in r.checkedOut
            && s < |r.sessions| && r.sessions[s].open && r.sessions[s].gen == c.gen
            && k < |r.conns| && r.conns[k].connected && r.conns[k].born == c.gen
            && |c.sessions| <= |r.sessions| && |c.conns| <= |r.conns|
            && (forall t :: 0 <= t < |c.sessions| ==> r.sessions[t] == c.sessions[t])
            && (forall j :: 0 <= j < |c.conns| ==>
                  r.conns[j].connected == c.conns[j].connected && r.conns[j].born == c.conns[j].born)
            && r.disconnects == c.disconnects && r.gen == c.gen && r.shared == c.shared
  {
    if |c.idle| > 0 {
      var r := GetSession(c).0;
      var s := c.idle[0];
      assert PoolShape(c) && OpenExactly(c, {}) && UsersExact(c) && Linked(c) && ConnectedIffUsed(c);
      assert s in c.idle;
      assert forall t :: t in c.idle <==> t == s || t in c.idle[1..] by {
        assert c.idle == [s] + c.idle[1..];
      }
      assert PoolShape(r) by {
        forall i | 0 <= i < |r.idle|
          ensures r.idle[i] != s
        {
          assert r.idle[i] == c.idle[i + 1];
        }
      }
      assert c.sessions[s].open;
      assert s in c.conns[c.sessions[s].conn].users;
      assert OpenExactly(r, {});
    } else {
      OpenSessionSpec(c);
    }
  }

  /** Over a valid state, a connection is connected exactly when some open
      session uses it. */
  lemma ConnectedIffOpenSession(c: State, k: nat)
    requires Valid(c) && k < |c.conns|
    ensures c.conns[k].connected <==>
              exists t :: 0 <= t < |c.sessions| && c.sessions[t].open && c.sessions[t].conn == k
  {
    if c.conns[k].connected {
      var t :| t in c.conns[k].users;
      assert 0 <= t < |c.sessions| && c.sessions[t].open && c.sessions[t].conn == k;
    }
    if exists t :: 0 <= t < |c.sessions| && c.sessions[t].open && c.sessions[t].conn == k {
      var t :| 0 <= t < |c.sessions| && c.sessions[t].open && c.sessions[t].conn == k;
      assert t in c.conns[k].users;
    }
  }

  /** close of a current-generation session held by a caller: the session
      goes to the end of the pool, and no session or connection changes. */
  lemma CloseCurrentSpec(c: State, s: nat)
    requires Valid(c) && s in c.checkedOut && c.sessions[s].gen == c.gen
    ensures var r := Close(c, s);
            && Valid(r)
            && r.checkedOut == c.checkedOut - {s}
            && r.idle == c.idle + [s] && r.sessions == c.sessions
            && r.conns == c.conns && r.disconnects == c.disconnects
  {
    var r := Close(c, s);
    assert PoolShape(c) && OpenExactly(c, {});
    assert forall t :: t in r.idle <==> t in c.idle || t == s;
    assert PoolShape(r);
    assert OpenExactly(r, {});
  }

  /** close of a session from before the last reset: its channel is closed,
      and its connection is disconnected, and logged, exactly when no other
      open session uses it; nothing else changes. */
  lemma CloseStaleSpec(c: State, s: nat)
    requires Valid(c) && s in c.checkedOut && c.sessions[s].gen != c.gen
    ensures var r := Close(c, s);
            var k := c.sessions[s].conn;
            && Valid(r)
            && r.checkedOut == c.checkedOut - {s}
            && r.idle == c.idle && !r.sessions[s].open
            && (forall t :: 0 <= t < |c.sessions| && t != s ==> r.sessions[t] == c.sessions[t])
            && (forall j :: 0 <= j < |c.conns| && j != k ==> r.conns[j] == c.conns[j])
            && (r.conns[k].connected <==>
                  exists t :: 0 <= t < |c.sessions| && t != s && c.sessions[t].open && c.sessions[t].conn == k)
            && r.disconnects == c.disconnects + (if r.conns[k].connected then [] else [k])
  {
    var r := Close(c, s);
    var c0 := c.(checkedOut := c.checkedOut - {s});
    var k := c.sessions[s].conn;
    assert PoolShape(c) && OpenExactly(c, {});
    assert Inv(c0, {s});
    CloseChannelSpec(c0, {s}, s);
    assert {s} - {s} == {};
    assert UsersExact(c) && Linked(c);
    if r.conns[k].connected {
      var t :| t in c.conns[k].users - {s};
      assert 0 <= t < |c.sessions| && t != s && c.sessions[t].open && c.sessions[t].conn == k;
    }
    if exists t :: 0 <= t < |c.sessions| && t != s && c.sessions[t].open && c.sessions[t].conn == k {
      var t :| 0 <= t < |c.sessions| && t != s && c.sessions[t].open && c.sessions[t].conn == k;
      assert t in c.conns[k].users - {s};
    }
  }

  /** close keeps the invariant, and the caller no longer holds the session;
      closing a session no caller holds changes nothing. */
  lemma CloseSpec(c: State, s: nat)
    requires Valid(c)
    ensures var r := Close(c, s);
            && Valid(r)
            && r.checkedOut == c.checkedOut - {s}
            && |r.sessions| == |c.sessions| && |r.conns| == |c.conns|
            && (forall t :: 0 <= t < |c.sessions| ==>
                  r.sessions[t].conn == c.sessions[t].conn && r.sessions[t].gen == c.sessions[t].gen)
            && (forall j :: 0 <= j < |c.conns| ==> r.conns[j].born == c.conns[j].born)
  {
    if s in c.checkedOut {
      assert PoolShape(c);
      if c.sessions[s].gen == c.gen {
        CloseCurrentSpec(c, s);
      } else {
        CloseStaleSpec(c, s);
      }
    }
  }

  /** resetCache keeps the invariant; what exists now belongs to an earlier
      generation than the one it starts. */
  lemma ResetKeepsInv(c: State)
    requires Valid(c)
    ensures var r := ResetCache(c);
            && Valid(r)
            && |r.sessions| == |c.sessions| && |r.conns| == |c.conns|
            && (forall t :: 0 <= t < |r.sessions| ==> r.sessions[t].gen < r.gen)
            && (forall k :: 0 <= k < |r.conns| ==> r.conns[k].born < r.gen)
  {
    var c0 := c.(current := None, idle := []);
    var d := CloseAll(c0, c.idle);
    assert ResetCache(c) == d.(gen := d.gen + 1);
    ClearPoolInv(c);
    CloseAllSpec(c0, Elems(c.idle), c.idle);
    assert Elems(c.idle) - Elems(c.idle) == {};
    NextGenerationInv(d);
  }

  /** Moving a state with no shared connection to the next generation keeps
      the invariant and leaves everything older than the new generation. */
  lemma NextGenerationInv(d: State)
    requires Valid(d) && d.current.None? && d.idle == []
    ensures var r := d.(gen := d.gen + 1);
            && Valid(r)
            && (forall t :: 0 <= t < |r.sessions| ==> r.sessions[t].gen < r.gen)
            && (forall k :: 0 <= k < |r.conns| ==> r.conns[k].born < r.gen)
  {
    assert Linked(d);
  }

  /** Emptying the pool and forgetting the shared connection leaves the
      pooled sessions loose, to be closed. */
  lemma ClearPoolInv(c: State)
    requires Valid(c)
    ensures Inv(c.(current := None, idle := []), Elems(c.idle))
  {
    assert PoolShape(c) && OpenExactly(c, {}) && Linked(c);
  }

  /** resetCache starts a new generation: sessions held by callers stay open
      over their connections, every pooled session is closed, and a
      connection stays connected exactly when a held session uses it. */
  lemma ResetSpec(c: State)
    requires Valid(c)
    ensures var r := ResetCache(c);
            && Valid(r)
            && r.gen == c.gen + 1 && r.idle == [] && r.current == None
            && r.checkedOut == c.checkedOut
            && (forall t :: t in c.checkedOut ==> r.sessions[t] == c.sessions[t])
            && (forall i :: 0 <= i < |c.idle| ==> !r.sessions[c.idle[i]].open)
            && (forall k :: 0 <= k < |c.conns| ==>
                  (r.conns[k].connected <==> exists t :: t in c.checkedOut && c.sessions[t].conn == k))
  {
    var r := ResetCache(c);
    ResetKeepsInv(c);
    assert PoolShape(c) && OpenExactly(c, {});
    assert OpenExactly(r, {});
    forall t | t in c.checkedOut
      ensures r.sessions[t] == c.sessions[t]
    {
      assert c.sessions[t].open;
    }
    forall k | 0 <= k < |c.conns|
      ensures r.conns[k].connected <==> exists t :: t in c.checkedOut && c.sessions[t].conn == k
    {
      ResetConnection(c, k);
    }
  }

  /** After resetCache a connection is connected exactly when a session held
      by a caller uses it. */
  lemma ResetConnection(c: State, k: nat)
    requires Valid(c) && k < |c.conns|
    ensures var r := ResetCache(c);
            k < |r.conns| &&
            (r.conns[k].connected <==> exists t :: t in c.checkedOut && c.sessions[t].conn == k)
  {
    var r := ResetCache(c);
    ResetKeepsInv(c);
    assert PoolShape(c);
    HeldConnected(r, c.sessions, k);
  }

  /** In a valid state with an empty pool, a connection is connected exactly
      when a session held by a caller uses it; before lists the sessions'
      connections as they were. */
  lemma HeldConnected(r: State, before: seq<Session>, k: nat)
    requires Valid(r) && r.idle == [] && k < |r.conns|
    requires |r.sessions| == |before|
    requires forall t :: 0 <= t < |before| ==> r.sessions[t].conn == before[t].conn
    ensures r.conns[k].connected <==> exists t :: t in r.checkedOut && before[t].conn == k
  {
    assert PoolShape(r) && OpenExactly(r, {});
    ConnectedIffOpenSession(r, k);
    if exists t :: t in r.checkedOut && before[t].conn == k {
      var t :| t in r.checkedOut && before[t].conn == k;
      assert r.sessions[t].open && r.sessions[t].conn == k;
    }
    if r.conns[k].connected {
      var t :| 0 <= t < |r.sessions| && r.sessions[t].open && r.sessions[t].conn == k;
      assert t in r.checkedOut && before[t].conn == k;
    }
  }

  // ---------------------------------------------------------------------
  // The behaviour the factories promise
  // ---------------------------------------------------------------------

  /** A shared factory opens two sessions over one connection, opening at
      most one connection for both. */
  lemma SharedSessionsShareConnection(c: State)
    requires c.shared
    ensures var (c1, s1) := OpenSession(c);
            var (c2, s2) := OpenSession(c1);
            && s1 != s2
            && c2.sessions[s1].conn == c2.sessions[s2].conn
            && |c2.conns| <= |c.conns| + 1
  {
    var (c1, s1) := OpenSession(c);
    assert ReusesShared(c1);
  }

  /** A factory that does not share gives each of two sessions a connection
      of its own, both newly opened. */
  lemma NotSharedSessionsDistinct(c: State)
    requires !c.shared
    ensures var (c1, s1) := OpenSession(c);
            var (c2, s2) := OpenSession(c1);
            && c2.sessions[s1].conn == |c.conns|
            && c2.sessions[s2].conn == |c.conns| + 1
  {
  }

  /** A session released to the pool is the one the next getSession hands out
      when the pool was empty; pooled sessions are handed out oldest first. */
  lemma ReleasedSessionReused(c: State, s: nat)
    requires Valid(c) && s in c.checkedOut && c.sessions[s].gen == c.gen
    ensures GetSession(Close(c, s)).1 == (if |c.idle| == 0 then s else c.idle[0])
  {
    CloseCurrentSpec(c, s);
  }

  /** After resetCache the next getSession creates a session over a newly
      opened connection, even in shared mode. */
  lemma ResetGivesFresh(c: State)
    requires Valid(c)
    ensures var (r, s) := GetSession(ResetCache(c));
            s == |c.sessions| && r.sessions[s].conn == |c.conns|
  {
    ResetKeepsInv(c);
  }
}
