/** The connection cache of the transport: two sections under a lock and a connect in between,
    as a class and as a step machine over any number of concurrent calls. */
module Transports {
  import opened Wrappers
  import opened Bytes

  /** What the first section finds. */
  function Cached<Conn>(edges: map<Key, Conn>, id: Key): (hit: Option<Conn>) {
    if id in edges then Some(edges[id]) else None
  }

  /** What the second section leaves: an entry that is there stays. */
  function Emplaced<Conn>(edges: map<Key, Conn>, id: Key, conn: Conn): (e: map<Key, Conn>)
    ensures id in e
    ensures forall k :: k in edges ==> k in e && e[k] == edges[k]
    ensures forall k :: k in e ==> (k in edges && e[k] == edges[k]) || (k == id && e[k] == conn)
  {
    if id in edges then edges else edges[id := conn]
  }

  class Transport<Conn> {
    var edges: map<Key, Conn>

    constructor ()
      ensures edges == map[]
    {
      edges := map[];
    }

    method Lookup(id: Key) returns (hit: Option<Conn>)
      ensures hit == Cached(edges, id)
    {
      if id in edges {
        return Some(edges[id]);
      }
      return None;
    }

    method Emplace(id: Key, conn: Conn) returns (winner: Conn)
      modifies this
      ensures edges == Emplaced(old(edges), id, conn)
      ensures winner == edges[id]
    {
      if id !in edges {
        edges := edges[id := conn];
      }
      winner := edges[id];
    }

    /** A whole call with nobody in between; `outcome` is what connecting would yield. */
    method ObtainConnectionTo(id: Key, outcome: Option<Conn>) returns (r: Option<Conn>)
      modifies this
      ensures r == if id in old(edges) then Some(old(edges)[id]) else outcome
      ensures edges == if id in old(edges) || outcome.None? then old(edges) else old(edges)[id := outcome.value]
    {
      r := Lookup(id);
      if r.Some? {
        return;
      }
      if outcome.Some? {
        var winner := Emplace(id, outcome.value);
        return Some(winner);
      }
    }
  }

  // ---------- Concurrent calls ----------

  /** A call before its lookup, after a miss, after its connect, and with its result. `attempt` is
      the outcome of the call's own connect, if it made one. */
  datatype Call<Conn> =
    | Called(id: Key)
    | Missed(id: Key)
    | Connected(id: Key, outcome: Option<Conn>)
    | Returned(id: Key, attempt: Option<Option<Conn>>, result: Option<Conn>)

  /** Calls keep their index and their result, so the state holds the whole history. */
  datatype State<Conn> = State(edges: map<Key, Conn>, calls: seq<Call<Conn>>)

  datatype Step<Conn> =
    | Begin(id: Key)
    | LookUp(i: nat)
    | Connect(i: nat, outcome: Option<Conn>)
    | Finish(i: nat)

  function Start<Conn>(): State<Conn> { State(map[], []) }

  predicate Enabled<Conn>(s: State<Conn>, step: Step<Conn>) {
    match step
    case Begin(_) => true
    case LookUp(i) => i < |s.calls| && s.calls[i].Called?
    case Connect(i, _) => i < |s.calls| && s.calls[i].Missed?
    case Finish(i) => i < |s.calls| && s.calls[i].Connected?
  }

  function Take<Conn>(s: State<Conn>, step: Step<Conn>): (t: State<Conn>)
    requires Enabled(s, step)
  {
    match step
    case Begin(id) => s.(calls := s.calls + [Called(id)])
    case LookUp(i) =>
      var id := s.calls[i].id;
      var hit := Cached(s.edges, id);
      s.(calls := s.calls[i := if hit.Some? then Returned(id, None, hit) else Missed(id)])
    case Connect(i, outcome) => s.(calls := s.calls[i := Connected(s.calls[i].id, outcome)])
    case Finish(i) =>
      var Connected(id, outcome) := s.calls[i];
      match outcome
      case None => s.(calls := s.calls[i := Returned(id, Some(None), None)])
      case Some(conn) =>
        var edges := Emplaced(s.edges, id, conn);
        State(edges, s.calls[i := Returned(id, Some(Some(conn)), Some(edges[id]))])
  }

  /** The state after a sequence of steps of any callers in any order, if all were enabled. */
  function Run<Conn>(s: State<Conn>, steps: seq<Step<Conn>>): (t: Option<State<Conn>>)
    decreases |steps|
  {
    if steps == [] then Some(s)
    else if Enabled(s, steps[0]) then Run(Take(s, steps[0]), steps[1..])
    else None
  }

  // ---------- What every run keeps ----------

  /** `t` comes later: entries and results stay, and calls stay about their identity. */
  ghost predicate Later<Conn>(s: State<Conn>, t: State<Conn>) {
    && (forall id :: id in s.edges ==> id in t.edges && t.edges[id] == s.edges[id])
    && |s.calls| <= |t.calls|
    && (forall i :: 0 <= i < |s.calls| ==> t.calls[i].id == s.calls[i].id)
    && (forall i :: 0 <= i < |s.calls| && s.calls[i].Returned? ==> t.calls[i] == s.calls[i])
  }

  lemma {:induction false} RunIsLater<Conn>(s: State<Conn>, steps: seq<Step<Conn>>)
    requires Run(s, steps).Some?
    ensures Later(s, Run(s, steps).value)
    decreases |steps|
  {
    if steps != [] {
      var m := Take(s, steps[0]);
      assert Later(s, m);
      RunIsLater(m, steps[1..]);
    }
  }

  /** The call opened this connection with its own connect. */
  predicate OpenedBy<Conn(==)>(call: Call<Conn>, id: Key, conn: Conn) {
    call.id == id
    && match call
       case Connected(_, outcome) => outcome == Some(conn)
       case Returned(_, attempt, _) => attempt == Some(Some(conn))
       case _ => false
  }

  ghost predicate Opened<Conn>(s: State<Conn>, id: Key, conn: Conn) {
    exists j :: 0 <= j < |s.calls| && OpenedBy(s.calls[j], id, conn)
  }

  ghost predicate Consistent<Conn>(s: State<Conn>) {
    && (forall id :: id in s.edges ==> Opened(s, id, s.edges[id]))
    && forall i :: 0 <= i < |s.calls| && s.calls[i].Returned? ==>
         var call := s.calls[i];
         && (call.result.Some? ==> call.id in s.edges && call.result == Some(s.edges[call.id]))
         && (call.result.None? <==> call.attempt == Some(None))
  }

  lemma {:induction false} StepIsConsistent<Conn>(s: State<Conn>, step: Step<Conn>)
    requires Consistent(s) && Enabled(s, step)
    ensures Consistent(Take(s, step))
  {
    var t := Take(s, step);
    forall id | id in t.edges
      ensures Opened(t, id, t.edges[id])
    {
      if id in s.edges {
        var j :| 0 <= j < |s.calls| && OpenedBy(s.calls[j], id, s.edges[id]);
        assert OpenedBy(t.calls[j], id, t.edges[id]);
      } else {
        assert OpenedBy(t.calls[step.i], id, t.edges[id]);
      }
    }
  }

  lemma {:induction false} RunIsConsistent<Conn>(s: State<Conn>, steps: seq<Step<Conn>>)
    requires Consistent(s) && Run(s, steps).Some?
    ensures Consistent(Run(s, steps).value)
    decreases |steps|
  {
    if steps != [] {
      StepIsConsistent(s, steps[0]);
      RunIsConsistent(Take(s, steps[0]), steps[1..]);
    }
  }

  /** Whatever the interleaving, two calls that return a connection for one identity return the
      same one, although each of them may have opened its own. */
  lemma {:induction false} CallsAgree<Conn>(steps: seq<Step<Conn>>, i: nat, j: nat)
    requires var r := Run(Start(), steps);
             && r.Some? && i < |r.value.calls| && j < |r.value.calls|
             && r.value.calls[i].Returned? && r.value.calls[j].Returned?
             && r.value.calls[i].id == r.value.calls[j].id
    ensures var a, b := Run(Start(), steps).value.calls[i].result, Run(Start(), steps).value.calls[j].result;
            a.Some? && b.Some? ==> a == b
  {
    RunIsConsistent<Conn>(Start(), steps);
  }

  /** A returned connection was opened by some call for that identity, and a call returns nothing
      exactly if it missed and its own connect failed. */
  lemma {:induction false} ResultsAreJustified<Conn>(steps: seq<Step<Conn>>, i: nat)
    requires var r := Run(Start(), steps);
             r.Some? && i < |r.value.calls| && r.value.calls[i].Returned?
    ensures var s := Run(Start(), steps).value;
            var call := s.calls[i];
            && (call.result.Some? ==> Opened(s, call.id, call.result.value))
            && (call.result.None? <==> call.attempt == Some(None))
  {
    RunIsConsistent<Conn>(Start(), steps);
  }

  /** Once a call has returned a connection, every later call for that identity returns it without
      a connect of its own, whatever the others do before its lookup. */
  lemma {:induction false} LaterCallsReuse<Conn>(before: seq<Step<Conn>>, i: nat, after: seq<Step<Conn>>, k: nat)
    requires var r := Run(Start(), before);
             && r.Some? && i < |r.value.calls|
             && r.value.calls[i].Returned? && r.value.calls[i].result.Some?
    requires var s := Run(Start(), before).value;
             var u := Run(s, after);
             && u.Some? && k < |u.value.calls| && u.value.calls[k] == Called(s.calls[i].id)
    ensures var s := Run(Start(), before).value;
            var u := Run(s, after).value;
            Take(u, LookUp(k)).calls[k] == Returned(s.calls[i].id, None, s.calls[i].result)
  {
    RunIsConsistent<Conn>(Start(), before);
    RunIsLater(Run(Start(), before).value, after);
  }

  function StepsOf<Conn>(s: State<Conn>, i: nat, outcome: Option<Conn>): (steps: seq<Step<Conn>>)
    requires i < |s.calls|
  {
    match s.calls[i]
    case Called(id) => if id in s.edges then [LookUp(i)] else [LookUp(i), Connect(i, outcome), Finish(i)]
    case Missed(_) => [Connect(i, outcome), Finish(i)]
    case Connected(_, _) => [Finish(i)]
    case Returned(_, _, _) => []
  }

  /** No call waits for another: from every state its own steps alone complete it. */
  lemma {:induction false} CallsComplete<Conn>(s: State<Conn>, i: nat, outcome: Option<Conn>)
    requires i < |s.calls|
    ensures var r := Run(s, StepsOf(s, i, outcome));
            r.Some? && |r.value.calls| == |s.calls| && r.value.calls[i].Returned?
    decreases |StepsOf(s, i, outcome)|
  {
    var steps := StepsOf(s, i, outcome);
    if steps != [] {
      CallsComplete(Take(s, steps[0]), i, outcome);
      assert steps[1..] == StepsOf(Take(s, steps[0]), i, outcome);
    }
  }

  /** Once a call has stored its connection, it wins every race: whatever other callers do in
      between, each call for that identity that still stores or looks up returns this connection,
      also if it opened one of its own. */
  lemma {:induction false} RaceKeepsTheFirst<Conn>(
      s: State<Conn>, i: nat, conn: Conn, after: seq<Step<Conn>>, k: nat)
    requires Enabled(s, Finish(i)) && s.calls[i].outcome == Some(conn) && s.calls[i].id !in s.edges
    requires var u := Run(Take(s, Finish(i)), after);
             u.Some? && k < |u.value.calls| && u.value.calls[k].id == s.calls[i].id
    ensures var id := s.calls[i].id;
            var u := Run(Take(s, Finish(i)), after).value;
            && i < |u.calls| && u.calls[i] == Returned(id, Some(Some(conn)), Some(conn))
            && (Enabled(u, Finish(k)) && u.calls[k].outcome.Some? ==>
                  Take(u, Finish(k)).calls[k] == Returned(id, Some(u.calls[k].outcome), Some(conn)))
            && (Enabled(u, LookUp(k)) ==> Take(u, LookUp(k)).calls[k] == Returned(id, None, Some(conn)))
  {
    hide Run;
    RunIsLater(Take(s, Finish(i)), after);
  }
}
