/** The default path selector: sampled hops and a bounded set of edges. Unordered containers are
    sequences in iteration order. */
module PathSelections {
  import opened Wrappers
  import opened Bytes
  import opened Randoms
  import opened OnionMakers

  const MAX_EDGES: nat := 4
  const HOP_LENGTH: nat := 4

  /** An entry of the node list: a map from identity keys to nodes. */
  datatype Entry = Entry(key: Key, node: SNodeInfo)

  predicate DistinctKeys(list: seq<Entry>) {
    forall i, j :: 0 <= i < j < |list| ==> list[i].key != list[j].key
  }

  /** Every node is listed under its own identity, as the fetchers do it. */
  predicate WellKeyed(list: seq<Entry>) {
    forall i :: 0 <= i < |list| ==> list[i].key == list[i].node.identity
  }

  function Nodes(entries: seq<Entry>): (nodes: seq<SNodeInfo>)
    ensures |nodes| == |entries|
  {
    seq(|entries|, i requires 0 <= i < |entries| => entries[i].node)
  }

  // ---------- The edge set ----------

  predicate HasIdentity(nodes: seq<SNodeInfo>, id: Key) {
    exists i :: 0 <= i < |nodes| && nodes[i].identity == id
  }

  predicate DistinctIdentities(nodes: seq<SNodeInfo>) {
    forall i, j :: 0 <= i < j < |nodes| ==> nodes[i].identity != nodes[j].identity
  }

  /** Inserting a node: equality is equality of identities, and a node that is there stays. Where
      a new node goes is up to the hash table, which may reorder everything. */
  ghost predicate Inserted(before: seq<SNodeInfo>, node: SNodeInfo, after: seq<SNodeInfo>) {
    if HasIdentity(before, node.identity) then after == before
    else multiset(after) == multiset(before) + multiset{node}
  }

  lemma {:induction false} InsertedNodes(before: seq<SNodeInfo>, node: SNodeInfo, after: seq<SNodeInfo>)
    requires Inserted(before, node, after) && DistinctIdentities(before)
    ensures DistinctIdentities(after)
    ensures |after| == |before| + if HasIdentity(before, node.identity) then 0 else 1
    ensures forall n :: n in before ==> n in after
    ensures forall n :: n in after ==> n in before || n == node
    ensures HasIdentity(after, node.identity)
  {
    if !HasIdentity(before, node.identity) {
      assert |multiset(after)| == |before| + 1;
      forall n | n in before ensures n in after {
        assert n in multiset(after);
      }
      forall n | n in after ensures n in before || n == node {
        assert n in multiset(after);
      }
      assert node in multiset(after);
      PermutedDistinct(before + [node], after);
    }
  }

  /** Distinctness of identities does not depend on the order. */
  lemma {:induction false} PermutedDistinct(a: seq<SNodeInfo>, b: seq<SNodeInfo>)
    requires multiset(a) == multiset(b) && DistinctIdentities(a)
    ensures DistinctIdentities(b)
  {
    forall i, j | 0 <= i < j < |b|
      ensures b[i].identity != b[j].identity
    {
      assert b[i] in multiset(a) && b[j] in multiset(a);
      var k :| 0 <= k < |a| && a[k] == b[i];
      var l :| 0 <= l < |a| && a[l] == b[j];
      if k == l {
        Twice(b, i, j);
        Once(a, k);
      }
    }
  }

  lemma {:induction false} Twice<T>(s: seq<T>, i: nat, j: nat)
    requires i < j < |s| && s[i] == s[j]
    ensures multiset(s)[s[i]] >= 2
  {
    assert s == s[..i] + [s[i]] + s[i + 1..j] + [s[j]] + s[j + 1..];
  }

  lemma {:induction false} Once(s: seq<SNodeInfo>, k: nat)
    requires k < |s| && DistinctIdentities(s)
    ensures multiset(s)[s[k]] == 1
  {
    assert s == s[..k] + [s[k]] + s[k + 1..];
    assert s[k] !in s[..k] && s[k] !in s[k + 1..];
  }

  // ---------- Selecting a path ----------

  /** The sampled hops, with the first one replaced once there are enough edges. */
  function SelectedHops(list: seq<Entry>, edges: seq<SNodeInfo>, rolls: seq<nat>): (hops: seq<SNodeInfo>)
    requires |list| > 0 && GoodRolls(rolls) && |rolls| == |list|
    ensures |hops| == Min(HOP_LENGTH, |list|)
  {
    var hops := Nodes(Sampled(list, HOP_LENGTH, rolls));
    if |edges| >= MAX_EDGES then hops[0 := edges[0]] else hops
  }

  class PathSelection {
    var list: seq<Entry>
    var edges: seq<SNodeInfo>

    constructor ()
      ensures list == [] && edges == []
    {
      list, edges := [], [];
    }

    method StoreNodeList(snodelist: seq<Entry>)
      requires DistinctKeys(snodelist)
      modifies this
      ensures list == snodelist && edges == old(edges)
    {
      list := snodelist;
    }

    method InsertEdge(node: SNodeInfo, slot: nat)
      requires slot <= |edges|
      modifies this`edges
      ensures Inserted(old(edges), node, edges)
    {
      for i := 0 to |edges|
        invariant forall j :: 0 <= j < i ==> edges[j].identity != node.identity
        invariant edges == old(edges)
      {
        if edges[i].identity == node.identity {
          return;
        }
      }
      assert edges == edges[..slot] + edges[slot..];
      edges := edges[..slot] + [node] + edges[slot..];
    }

    /** `rolls` and `edgeRolls` are the numbers drawn, `slot` the place a new edge would get. */
    method MaybeSelectHopsTo(remote: bytes, rolls: seq<nat>, edgeRolls: seq<nat>, slot: nat)
      returns (path: Option<OnionPath>)
      requires |list| > 0 && slot <= |edges|
      requires GoodRolls(rolls) && |rolls| == |list|
      requires GoodRolls(edgeRolls) && |edgeRolls| == |edges|
      modifies this`edges
      ensures path == Some(OnionPath(SelectedHops(old(list), old(edges), rolls), remote))
      ensures Inserted(old(edges), path.value.hops[0], edges)
    {
      var hops: seq<SNodeInfo> := [];
      var sample := Sample(list, HOP_LENGTH, rolls);
      for i := 0 to |sample|
        invariant hops == Nodes(sample[..i])
        invariant edges == old(edges)
      {
        hops := hops + [sample[i].node];
      }
      assert sample[..|sample|] == sample;
      if |edges| >= MAX_EDGES {
        var edge := PickRandom(edges, edgeRolls);
        hops := hops[0 := edge.value];
      }
      InsertEdge(hops[0], slot);
      return Some(OnionPath(hops, remote));
    }
  }

  // ---------- One path ----------

  /** The hops after the edge sit at different places of the current list. */
  lemma {:induction false} OtherHops(list: seq<Entry>, edges: seq<SNodeInfo>, rolls: seq<nat>) returns (q: seq<nat>)
    requires |list| > 0 && GoodRolls(rolls) && |rolls| == |list|
    ensures Positions(q, 0, |list|) && |q| == Min(HOP_LENGTH, |list|)
    ensures q == Chosen(0, Min(HOP_LENGTH, |list|), rolls)
    ensures forall i :: 1 <= i < |q| ==> SelectedHops(list, edges, rolls)[i] == list[q[i]].node
    ensures SelectedHops(list, edges, rolls)[0] == if |edges| >= MAX_EDGES then edges[0] else list[q[0]].node
  {
    q := Chosen(0, Min(HOP_LENGTH, |list|), rolls);
    ChosenPositions(0, Min(HOP_LENGTH, |list|), rolls);
  }

  /** They are different nodes of the list. */
  lemma {:induction false} OtherHopsDistinct(list: seq<Entry>, edges: seq<SNodeInfo>, rolls: seq<nat>)
    requires |list| > 0 && GoodRolls(rolls) && |rolls| == |list| && DistinctKeys(list) && WellKeyed(list)
    ensures var others := SelectedHops(list, edges, rolls)[1..];
            DistinctIdentities(others) && forall n :: n in others ==> n in Nodes(list)
  {
    var q := OtherHops(list, edges, rolls);
    var others := SelectedHops(list, edges, rolls)[1..];
    assert forall i :: 0 <= i < |others| ==> others[i] == list[q[i + 1]].node;
    forall i, j | 0 <= i < j < |others|
      ensures others[i].identity != others[j].identity
    {
      assert q[i + 1] < q[j + 1];
    }
    forall n | n in others
      ensures n in Nodes(list)
    {
      var i :| 0 <= i < |others| && others[i] == n;
      assert Nodes(list)[q[i + 1]] == n;
    }
  }

  /** Every path visits different nodes exactly if there are fewer than four edges or the pinned
      edge is nowhere in the list but possibly in front. */
  lemma {:induction false} PathsDistinct(list: seq<Entry>, edges: seq<SNodeInfo>)
    requires |list| > 0 && DistinctKeys(list) && WellKeyed(list)
    ensures (forall rolls :: GoodRolls(rolls) && |rolls| == |list| ==>
               DistinctIdentities(SelectedHops(list, edges, rolls)))
            <==> |edges| < MAX_EDGES || !HasIdentity(Nodes(list[1..]), edges[0].identity)
  {
    if |edges| < MAX_EDGES || !HasIdentity(Nodes(list[1..]), edges[0].identity) {
      forall rolls | GoodRolls(rolls) && |rolls| == |list|
        ensures DistinctIdentities(SelectedHops(list, edges, rolls))
      {
        DistinctPath(list, edges, rolls);
      }
    } else {
      var p :| 0 <= p < |list[1..]| && Nodes(list[1..])[p].identity == edges[0].identity;
      var rolls := RepeatingRolls(list, edges, p + 1);
    }
  }

  lemma {:induction false} DistinctPath(list: seq<Entry>, edges: seq<SNodeInfo>, rolls: seq<nat>)
    requires |list| > 0 && GoodRolls(rolls) && |rolls| == |list| && DistinctKeys(list) && WellKeyed(list)
    requires |edges| < MAX_EDGES || !HasIdentity(Nodes(list[1..]), edges[0].identity)
    ensures DistinctIdentities(SelectedHops(list, edges, rolls))
  {
    var q := OtherHops(list, edges, rolls);
    var hops := SelectedHops(list, edges, rolls);
    forall i, j | 0 <= i < j < |hops|
      ensures hops[i].identity != hops[j].identity
    {
      assert q[i] < q[j];
      if i == 0 && |edges| >= MAX_EDGES {
        assert Nodes(list[1..])[q[j] - 1] == hops[j];
      }
    }
  }

  /** Numbers that make a selector with a full edge set choose position `p` after the edge. */
  lemma {:induction false} RepeatingRolls(list: seq<Entry>, edges: seq<SNodeInfo>, p: nat) returns (rolls: seq<nat>)
    requires 0 < p < |list| && |edges| >= MAX_EDGES && list[p].node.identity == edges[0].identity
    ensures GoodRolls(rolls) && |rolls| == |list|
    ensures !DistinctIdentities(SelectedHops(list, edges, rolls))
  {
    var n := Min(HOP_LENGTH, |list|);
    var last := if p < n then n - 1 else p;
    var q := seq(n, i => if i < n - 1 then i else last);
    rolls := RollsFor(0, |list|, q);
    ChosenReaches(0, |list|, q);
    var q' := OtherHops(list, edges, rolls);
    var at := if p < n then p else n - 1;
    assert q[at] == p;
    assert SelectedHops(list, edges, rolls)[at].identity == SelectedHops(list, edges, rolls)[0].identity;
  }

  // ---------- Runs ----------

  /** The selector and every path it has handed out. */
  datatype State = State(list: seq<Entry>, edges: seq<SNodeInfo>, given: seq<seq<SNodeInfo>>)

  /** `after` is the edge set that a selection leaves. */
  datatype Step =
    | Store(list: seq<Entry>)
    | Select(rolls: seq<nat>, after: seq<SNodeInfo>)

  ghost predicate Enabled(s: State, step: Step) {
    match step
    case Store(list) => |list| > 0 && DistinctKeys(list)
    case Select(rolls, after) =>
      && |s.list| > 0 && GoodRolls(rolls) && |rolls| == |s.list|
      && Inserted(s.edges, SelectedHops(s.list, s.edges, rolls)[0], after)
  }

  function Take(s: State, step: Step): (t: State)
    requires Enabled(s, step)
  {
    match step
    case Store(list) => s.(list := list)
    case Select(rolls, after) => State(s.list, after, s.given + [SelectedHops(s.list, s.edges, rolls)])
  }

  ghost function Run(s: State, steps: seq<Step>): (t: Option<State>)
    decreases |steps|
  {
    if steps == [] then Some(s)
    else if Enabled(s, steps[0]) then Run(Take(s, steps[0]), steps[1..])
    else None
  }

  const START: State := State([], [], [])

  /** `t` comes later: edges stay, paths stay handed out, and a full edge set stays as it is and
      gives every later path the same edge. */
  ghost predicate Later(s: State, t: State) {
    && (forall n :: n in s.edges ==> n in t.edges)
    && |s.edges| <= |t.edges|
    && s.given <= t.given
    && (|s.edges| >= MAX_EDGES ==>
          && t.edges == s.edges
          && forall i :: |s.given| <= i < |t.given| ==> |t.given[i]| > 0 && t.given[i][0] == s.edges[0])
  }

  /** The edges are those of the paths handed out, without repetition and at most four. */
  ghost predicate Sound(s: State) {
    && |s.edges| <= MAX_EDGES
    && DistinctIdentities(s.edges)
    && (forall i :: 0 <= i < |s.given| ==>
          0 < |s.given[i]| <= HOP_LENGTH && HasIdentity(s.edges, s.given[i][0].identity))
    && forall n :: n in s.edges ==> exists i :: 0 <= i < |s.given| && |s.given[i]| > 0 && s.given[i][0] == n
  }

  lemma {:induction false} StepKeeps(s: State, step: Step)
    requires Sound(s) && Enabled(s, step)
    ensures Sound(Take(s, step)) && Later(s, Take(s, step))
  {
    if step.Select? {
      var t := Take(s, step);
      var hops := SelectedHops(s.list, s.edges, step.rolls);
      InsertedNodes(s.edges, hops[0], step.after);
      if |s.edges| >= MAX_EDGES {
        assert HasIdentity(s.edges, hops[0].identity);
      }
      assert t.given[|s.given|] == hops;
      forall i | 0 <= i < |s.given|
        ensures HasIdentity(t.edges, s.given[i][0].identity)
      {
        StillThere(s.edges, t.edges, s.given[i][0].identity);
      }
      forall n | n in t.edges
        ensures exists i :: 0 <= i < |t.given| && |t.given[i]| > 0 && t.given[i][0] == n
      {
        if n in s.edges {
          var i :| 0 <= i < |s.given| && |s.given[i]| > 0 && s.given[i][0] == n;
          assert t.given[i] == s.given[i];
        }
      }
    }
  }

  lemma {:induction false} StillThere(a: seq<SNodeInfo>, b: seq<SNodeInfo>, id: Key)
    requires HasIdentity(a, id) && forall n :: n in a ==> n in b
    ensures HasIdentity(b, id)
  {
    var i :| 0 <= i < |a| && a[i].identity == id;
    assert a[i] in b;
  }

  /** Over every run, edges only accumulate; once there are four nothing changes any more. */
  lemma {:induction false} RunKeeps(s: State, steps: seq<Step>)
    requires Sound(s) && Run(s, steps).Some?
    ensures Sound(Run(s, steps).value) && Later(s, Run(s, steps).value)
    decreases |steps|
  {
    if steps != [] {
      var m := Take(s, steps[0]);
      StepKeeps(s, steps[0]);
      RunKeeps(m, steps[1..]);
      LaterTrans(s, m, Run(s, steps).value);
    }
  }

  lemma {:induction false} LaterTrans(s: State, m: State, t: State)
    requires Later(s, m) && Later(m, t)
    ensures Later(s, t)
  {
    forall i | |s.given| <= i < |t.given| && |s.edges| >= MAX_EDGES
      ensures |t.given[i]| > 0 && t.given[i][0] == s.edges[0]
    {
      if i < |m.given| {
        assert t.given[i] == m.given[i];
      }
    }
  }

  function Identities(nodes: seq<SNodeInfo>): (ids: set<Key>) {
    set i | 0 <= i < |nodes| :: nodes[i].identity
  }

  /** The identities of the edges of these paths. */
  function EdgesOf(given: seq<seq<SNodeInfo>>): (ids: set<Key>) {
    set i | 0 <= i < |given| && |given[i]| > 0 :: given[i][0].identity
  }

  lemma {:induction false} LastIdentity(nodes: seq<SNodeInfo>)
    requires nodes != [] && DistinctIdentities(nodes)
    ensures var n := |nodes| - 1;
            && nodes[n].identity !in Identities(nodes[..n])
            && Identities(nodes) == Identities(nodes[..n]) + {nodes[n].identity}
  {
    var n := |nodes| - 1;
    var front := nodes[..n];
    forall id | id in Identities(nodes) ensures id in Identities(front) + {nodes[n].identity} {
      var i :| 0 <= i < |nodes| && nodes[i].identity == id;
      assert i < n ==> front[i].identity == id;
    }
    forall id | id in Identities(front) ensures id in Identities(nodes) {
      var i :| 0 <= i < n && front[i].identity == id;
      assert nodes[i].identity == id;
    }
  }

  lemma {:induction false} IdentityCount(nodes: seq<SNodeInfo>)
    requires DistinctIdentities(nodes)
    ensures |Identities(nodes)| == |nodes|
  {
    if nodes != [] {
      var n := |nodes| - 1;
      var front := nodes[..n];
      IdentityCount(front);
      LastIdentity(nodes);
    }
  }

  /** In every run of stores and selections the edges handed out are the edges in the set, and
      there are never more than four different ones. */
  lemma {:induction false} FewEdges(steps: seq<Step>)
    requires Run(START, steps).Some?
    ensures var s := Run(START, steps).value;
            && EdgesOf(s.given) == Identities(s.edges)
            && |EdgesOf(s.given)| == |s.edges| <= MAX_EDGES
  {
    RunKeeps(START, steps);
    var s := Run(START, steps).value;
    forall id | id in EdgesOf(s.given) ensures id in Identities(s.edges) {
      var i :| 0 <= i < |s.given| && |s.given[i]| > 0 && s.given[i][0].identity == id;
      var k :| 0 <= k < |s.edges| && s.edges[k].identity == id;
    }
    forall id | id in Identities(s.edges) ensures id in EdgesOf(s.given) {
      var k :| 0 <= k < |s.edges| && s.edges[k].identity == id;
      assert s.edges[k] in s.edges;
      var i :| 0 <= i < |s.given| && |s.given[i]| > 0 && s.given[i][0] == s.edges[k];
    }
    IdentityCount(s.edges);
  }

  /** After four different edges were handed out, every later path starts at one and the same. */
  lemma {:induction false} PinnedEdge(before: seq<Step>, after: seq<Step>)
    requires Run(START, before).Some? && Run(Run(START, before).value, after).Some?
    ensures var s := Run(START, before).value;
            var t := Run(s, after).value;
            |EdgesOf(s.given)| >= MAX_EDGES ==>
              && |s.edges| == MAX_EDGES && t.edges == s.edges
              && forall i :: |s.given| <= i < |t.given| ==> |t.given[i]| > 0 && t.given[i][0] == s.edges[0]
  {
    RunKeeps(START, before);
    FewEdges(before);
    RunKeeps(Run(START, before).value, after);
  }

  // ---------- When a path can visit its edge twice ----------

  lemma {:induction false} RunConcat(s: State, a: seq<Step>, b: seq<Step>)
    requires Run(s, a).Some?
    ensures Run(s, a + b) == Run(Run(s, a).value, b)
    decreases |a|
  {
    if a == [] {
      assert a + b == b;
    } else {
      assert (a + b)[1..] == a[1..] + b;
      RunConcat(Take(s, a[0]), a[1..], b);
    }
  }

  /** Numbers for which four neighbours from position `i` on are chosen. */
  function WindowRolls(n: nat, i: nat): (rolls: seq<nat>)
    requires i + HOP_LENGTH <= n
    ensures |rolls| == n && GoodRolls(rolls)
  {
    RollsFor(0, n, [i, i + 1, i + 2, i + 3])
  }

  lemma {:induction false} WindowEdge(list: seq<Entry>, edges: seq<SNodeInfo>, i: nat)
    requires i + HOP_LENGTH <= |list| && |edges| < MAX_EDGES
    ensures SelectedHops(list, edges, WindowRolls(|list|, i))[0] == list[i].node
  {
    ChosenReaches(0, |list|, [i, i + 1, i + 2, i + 3]);
    var q := OtherHops(list, edges, WindowRolls(|list|, i));
  }

  /** The edges after the first `k` nodes of the list were edges in turn, the last one in front. */
  function Filled(list: seq<Entry>, k: nat): (edges: seq<SNodeInfo>)
    requires k <= |list|
    ensures |edges| == k && forall i :: 0 <= i < k ==> edges[i] == list[k - 1 - i].node
  {
    if k == 0 then [] else [list[k - 1].node] + Filled(list, k - 1)
  }

  function FillingSteps(list: seq<Entry>, k: nat): (selects: seq<Step>)
    requires k <= MAX_EDGES && MAX_EDGES + HOP_LENGTH <= |list| + 1
    ensures forall i :: 0 <= i < |selects| ==> selects[i].Select?
  {
    if k == 0 then []
    else FillingSteps(list, k - 1) + [Select(WindowRolls(|list|, k - 1), Filled(list, k))]
  }

  lemma {:induction false} KeysDiffer(list: seq<Entry>, i: nat, j: nat)
    requires i < j < |list| && DistinctKeys(list)
    ensures list[i].key != list[j].key
  {
  }

  lemma {:induction false} FillOne(list: seq<Entry>, k: nat)
    requires 0 < k <= MAX_EDGES && MAX_EDGES + HOP_LENGTH <= |list| + 1
    requires DistinctKeys(list) && WellKeyed(list)
    ensures Inserted(Filled(list, k - 1), SelectedHops(list, Filled(list, k - 1), WindowRolls(|list|, k - 1))[0],
                     Filled(list, k))
  {
    WindowEdge(list, Filled(list, k - 1), k - 1);
    hide SelectedHops, WindowRolls, DistinctKeys;
    var edges := Filled(list, k - 1);
    forall i | 0 <= i < |edges| ensures edges[i].identity != list[k - 1].node.identity {
      KeysDiffer(list, k - 2 - i, k - 1);
    }
    assert Filled(list, k) == [list[k - 1].node] + Filled(list, k - 1);
  }

  lemma {:induction false} Filling(list: seq<Entry>, k: nat)
    requires k <= MAX_EDGES && MAX_EDGES + HOP_LENGTH <= |list| + 1
    requires DistinctKeys(list) && WellKeyed(list)
    ensures var t := Run(State(list, [], []), FillingSteps(list, k));
            t.Some? && t.value.list == list && t.value.edges == Filled(list, k)
  {
    hide SelectedHops, WindowRolls, Filled, Inserted, GoodRolls;
    if k > 0 {
      Filling(list, k - 1);
      var s := State(list, [], []);
      var m := Run(s, FillingSteps(list, k - 1)).value;
      var step := Select(WindowRolls(|list|, k - 1), Filled(list, k));
      FillOne(list, k);
      RunConcat(s, FillingSteps(list, k - 1), [step]);
      assert Run(m, [step]) == Run(Take(m, step), []);
    }
  }

  /** These selections from one stored list succeed, and some path visits a node twice. */
  ghost predicate Repeats(list: seq<Entry>, selects: seq<Step>) {
    && (forall i :: 0 <= i < |selects| ==> selects[i].Select?)
    && var t := Run(START, [Store(list)] + selects);
       t.Some? && exists i :: 0 <= i < |t.value.given| && !DistinctIdentities(t.value.given[i])
  }

  /** A fresh selector can hand out such a path exactly if the list has at least seven nodes, so
      that four different ones can come first. */
  lemma {:induction false} RepetitionIsReachable(list: seq<Entry>)
    requires |list| > 0 && DistinctKeys(list) && WellKeyed(list)
    ensures (exists selects :: Repeats(list, selects)) <==> |list| >= 7
  {
    if |list| >= 7 {
      var selects := RepeatingRun(list);
    }
    if selects :| Repeats(list, selects) {
      var s := Take(START, Store(list));
      assert ([Store(list)] + selects)[1..] == selects;
      if |list| < 7 {
        NarrowRun(list, s, selects);
        assert false;
      }
    }
  }

  lemma {:induction false} RepeatingRun(list: seq<Entry>) returns (selects: seq<Step>)
    requires |list| >= 7 && DistinctKeys(list) && WellKeyed(list)
    ensures Repeats(list, selects)
  {
    var s := Take(START, Store(list));
    var edges := Filled(list, MAX_EDGES);
    Filling(list, MAX_EDGES);
    var filling := FillingSteps(list, MAX_EDGES);
    var m := Run(s, filling).value;
    var rolls := RepeatingRolls(list, edges, 3);
    var step := Select(rolls, edges);
    assert edges[0].identity == SelectedHops(list, edges, rolls)[0].identity;
    assert Enabled(m, step);
    var t := Take(m, step);
    RunConcat(s, filling, [step]);
    assert Run(m, [step]) == Run(t, []);
    selects := filling + [step];
    assert ([Store(list)] + selects)[1..] == selects;
    assert t.given[|m.given|] == SelectedHops(list, edges, rolls);
  }

  /** With a short list, only its first three nodes ever become edges. */
  ghost predicate Narrow(list: seq<Entry>, s: State) {
    && s.list == list
    && DistinctIdentities(s.edges)
    && (forall n :: n in s.edges ==> n in Nodes(list[..Min(3, |list|)]))
    && forall i :: 0 <= i < |s.given| ==> DistinctIdentities(s.given[i])
  }

  lemma {:induction false} NarrowEdges(list: seq<Entry>, s: State)
    requires Narrow(list, s)
    ensures |s.edges| < MAX_EDGES
  {
    var few := Nodes(list[..Min(3, |list|)]);
    IdentityCount(s.edges);
    forall id | id in Identities(s.edges) ensures id in Identities(few) {
      var i :| 0 <= i < |s.edges| && s.edges[i].identity == id;
      assert s.edges[i] in few;
      var j :| 0 <= j < |few| && few[j] == s.edges[i];
    }
    AtMost(few);
    SubsetSize(Identities(s.edges), Identities(few));
  }

  lemma {:induction false} AtMost(nodes: seq<SNodeInfo>)
    ensures |Identities(nodes)| <= |nodes|
  {
    if nodes != [] {
      var n := |nodes| - 1;
      AtMost(nodes[..n]);
      forall id | id in Identities(nodes) ensures id in Identities(nodes[..n]) + {nodes[n].identity} {
        var i :| 0 <= i < |nodes| && nodes[i].identity == id;
        assert i < n ==> nodes[..n][i].identity == id;
      }
      SubsetSize(Identities(nodes), Identities(nodes[..n]) + {nodes[n].identity});
    }
  }

  lemma {:induction false} SubsetSize(a: set<Key>, b: set<Key>)
    requires a <= b
    ensures |a| <= |b|
  {
    assert b == a + (b - a);
  }

  lemma {:induction false} NarrowStep(list: seq<Entry>, s: State, step: Step)
    requires 0 < |list| < 7 && DistinctKeys(list) && WellKeyed(list)
    requires Narrow(list, s) && step.Select? && Enabled(s, step)
    ensures Narrow(list, Take(s, step))
  {
    NarrowEdges(list, s);
    var hops := SelectedHops(list, s.edges, step.rolls);
    var q := OtherHops(list, s.edges, step.rolls);
    FirstOfMany(q, |list|);
    assert hops[0] == Nodes(list[..Min(3, |list|)])[q[0]];
    InsertedNodes(s.edges, hops[0], step.after);
    DistinctPath(list, s.edges, step.rolls);
  }

  /** Increasing positions leave room behind the first. */
  lemma {:induction false} FirstOfMany(q: seq<nat>, end: nat)
    requires q != [] && Positions(q, 0, end)
    ensures q[0] + |q| <= end
  {
    if |q| > 1 {
      var rest := q[1..];
      assert forall i :: 0 <= i < |rest| ==> rest[i] == q[i + 1];
      FirstOfMany(rest, end);
      assert q[0] < q[1];
    }
  }

  lemma {:induction false} NarrowRun(list: seq<Entry>, s: State, selects: seq<Step>)
    requires 0 < |list| < 7 && DistinctKeys(list) && WellKeyed(list)
    requires Narrow(list, s) && Run(s, selects).Some?
    requires forall i :: 0 <= i < |selects| ==> selects[i].Select?
    ensures Narrow(list, Run(s, selects).value)
    decreases |selects|
  {
    if selects != [] {
      NarrowStep(list, s, selects[0]);
      NarrowRun(list, Take(s, selects[0]), selects[1..]);
    }
  }
}
