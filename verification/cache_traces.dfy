/**
 * Sequences of caching-factory operations, and the isolation resetCache
 * promises: once the cache has been reset, no session and no connection that
 * existed before is ever handed out again.
 */
module CacheTraces {
  import opened Wrappers
  import opened SessionCache

  /** What a client of the caching factory can do. */
  datatype Op = Get | Release(session: nat) | Reset

  /** One operation; a Get also yields the session handed out. */
  function Step(c: State, op: Op): (r: (State, Option<nat>))
    ensures r.1.Some? <==> op.Get?
  {
    match op
    case Get =>
      var (c1, s) := GetSession(c);
      (c1, Some(s))
    case Release(s) => (Close(c, s), None)
    case Reset => (ResetCache(c), None)
  }

  /** A run of operations: the final state and, for every Get in order, the
      session handed out and the connection it uses. */
  function Run(c: State, ops: seq<Op>): (r: (State, seq<(nat, nat)>))
    ensures |r.1| <= |ops|
    decreases |ops|
  {
    if |ops| == 0 then (c, [])
    else
      var (c1, out) := Step(c, ops[0]);
      var (c2, rest) := Run(c1, ops[1..]);
      var given := if out.Some? && out.value < |c1.sessions| then [(out.value, c1.sessions[out.value].conn)] else [];
      (c2, given + rest)
  }

  /** The number of Get operations in ops. */
  function Gets(ops: seq<Op>): (n: nat)
    decreases |ops|
  {
    if |ops| == 0 then 0 else (if ops[0].Get? then 1 else 0) + Gets(ops[1..])
  }

  /** Everything numbered below ns sessions and nc connections belongs to a
      generation before g, and the state is valid and at generation g or later. */
  ghost predicate Before(c: State, g: nat, ns: nat, nc: nat) {
    && Valid(c) && g <= c.gen
    && ns <= |c.sessions| && nc <= |c.conns|
    && (forall t :: 0 <= t < ns ==> c.sessions[t].gen < g)
    && (forall k :: 0 <= k < nc ==> c.conns[k].born < g)
  }

  /** Every operation keeps the old sessions and connections in their old
      generations, and a Get hands out neither an old session nor an old
      connection. */
  lemma StepKeepsBefore(c: State, op: Op, g: nat, ns: nat, nc: nat)
    requires Before(c, g, ns, nc)
    ensures var (c1, out) := Step(c, op);
            && Before(c1, g, ns, nc)
            && (out.Some? ==> out.value < |c1.sessions| && out.value >= ns && c1.sessions[out.value].conn >= nc)
  {
    match op
    case Get =>
      GetSessionSpec(c);
    case Release(s) =>
      CloseSpec(c, s);
    case Reset =>
      ResetKeepsInv(c);
  }

  /** The invariant of a whole run; every Get of the run is recorded in the
      list of sessions handed out. */
  lemma {:induction false} RunKeepsBefore(c: State, ops: seq<Op>, g: nat, ns: nat, nc: nat)
    requires Before(c, g, ns, nc)
    ensures var (r, given) := Run(c, ops);
            && Before(r, g, ns, nc)
            && |given| == Gets(ops)
            && (forall i :: 0 <= i < |given| ==> given[i].0 >= ns && given[i].1 >= nc)
    decreases |ops|
  {
    if |ops| > 0 {
      StepKeepsBefore(c, ops[0], g, ns, nc);
      var (c1, out) := Step(c, ops[0]);
      RunKeepsBefore(c1, ops[1..], g, ns, nc);
    }
  }

  /** Any run from a valid state stays valid. */
  lemma RunValid(c: State, ops: seq<Op>)
    requires Valid(c)
    ensures Valid(Run(c, ops).0)
  {
    RunKeepsBefore(c, ops, 0, 0, 0);
  }

  /** Reset isolation: whatever a client does after resetCache, each Get hands
      out a session created after the reset, over a connection opened after
      the reset. */
  lemma ResetIsolation(c: State, ops: seq<Op>)
    requires Valid(c)
    ensures var given := Run(ResetCache(c), ops).1;
            && |given| == Gets(ops)
            && forall i :: 0 <= i < |given| ==> given[i].0 >= |c.sessions| && given[i].1 >= |c.conns|
  {
    ResetKeepsInv(c);
    RunKeepsBefore(ResetCache(c), ops, c.gen + 1, |c.sessions|, |c.conns|);
  }
}
