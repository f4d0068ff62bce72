/** Random choice: the standard library's sampling algorithm on forward iterators, and
    `pick_random`. The numbers drawn from the generator are a parameter. */
module Randoms {
  import opened Wrappers

  /** One number for each element of the population, below the count of elements not yet seen. */
  predicate GoodRolls(rolls: seq<nat>) {
    forall i :: 0 <= i < |rolls| ==> rolls[i] < |rolls| - i
  }

  function Min(a: nat, b: nat): nat { if a < b then a else b }

  /** The positions taken from `pos` on when `n` of the |rolls| remaining ones are wanted. */
  function Chosen(pos: nat, n: nat, rolls: seq<nat>): (q: seq<nat>)
    decreases |rolls|
  {
    if n == 0 || rolls == [] then []
    else if rolls[0] < n then [pos] + Chosen(pos + 1, n - 1, rolls[1..])
    else Chosen(pos + 1, n, rolls[1..])
  }

  /** Increasing positions from `pos` up to, but not including, `end`. */
  predicate Positions(q: seq<nat>, pos: nat, end: nat) {
    && (forall i :: 0 <= i < |q| ==> pos <= q[i] < end)
    && forall i, j :: 0 <= i < j < |q| ==> q[i] < q[j]
  }

  function At<T>(population: seq<T>, q: seq<nat>): (s: seq<T>)
    requires Positions(q, 0, |population|)
    ensures |s| == |q| && forall i :: 0 <= i < |q| ==> s[i] == population[q[i]]
  {
    seq(|q|, i requires 0 <= i < |q| => population[q[i]])
  }

  /** Exactly `n` positions are taken, in order. */
  lemma {:induction false} ChosenPositions(pos: nat, n: nat, rolls: seq<nat>)
    requires GoodRolls(rolls) && n <= |rolls|
    ensures |Chosen(pos, n, rolls)| == n
    ensures Positions(Chosen(pos, n, rolls), pos, pos + |rolls|)
    decreases |rolls|
  {
    if n > 0 {
      var rest := rolls[1..];
      assert GoodRolls(rest) by {
        assert forall i :: 0 <= i < |rest| ==> rest[i] == rolls[i + 1];
      }
      if rolls[0] < n {
        ChosenPositions(pos + 1, n - 1, rest);
      } else {
        ChosenPositions(pos + 1, n, rest);
      }
    }
  }

  /** Wanting all of them leaves no choice. */
  lemma {:induction false} ChosenAll(pos: nat, rolls: seq<nat>)
    requires GoodRolls(rolls)
    ensures Chosen(pos, |rolls|, rolls) == seq(|rolls|, i => pos + i)
    decreases |rolls|
  {
    if rolls != [] {
      var rest := rolls[1..];
      assert forall i :: 0 <= i < |rest| ==> rest[i] == rolls[i + 1];
      assert rolls[0] < |rolls|;
      ChosenAll(pos + 1, rest);
      assert Chosen(pos, |rolls|, rolls) == [pos] + Chosen(pos + 1, |rest|, rest);
      var all := seq(|rolls|, i => pos + i);
      assert all == [pos] + seq(|rest|, i => pos + 1 + i);
    }
  }

  /** Numbers for which exactly the positions `q` are taken. */
  function RollsFor(pos: nat, end: nat, q: seq<nat>): (rolls: seq<nat>)
    requires pos <= end
    ensures |rolls| == end - pos && GoodRolls(rolls)
    decreases end - pos
  {
    if pos == end then []
    else if q != [] && q[0] == pos then [0] + RollsFor(pos + 1, end, q[1..])
    else [end - pos - 1] + RollsFor(pos + 1, end, q)
  }

  /** Every choice of positions is possible. */
  lemma {:induction false} ChosenReaches(pos: nat, end: nat, q: seq<nat>)
    requires pos <= end && Positions(q, pos, end)
    ensures |q| <= end - pos
    ensures Chosen(pos, |q|, RollsFor(pos, end, q)) == q
    decreases end - pos
  {
    if q != [] {
      var rolls := RollsFor(pos, end, q);
      if q[0] == pos {
        var rest := q[1..];
        assert forall i :: 0 <= i < |rest| ==> rest[i] == q[i + 1];
        ChosenReaches(pos + 1, end, rest);
        assert rolls[1..] == RollsFor(pos + 1, end, rest);
        assert q == [pos] + rest;
      } else {
        assert Positions(q, pos + 1, end) by {
          assert forall i :: 0 < i < |q| ==> q[0] < q[i];
        }
        ChosenReaches(pos + 1, end, q);
        assert rolls[1..] == RollsFor(pos + 1, end, q);
      }
    }
  }

  function Sampled<T>(population: seq<T>, n: nat, rolls: seq<nat>): (s: seq<T>)
    requires GoodRolls(rolls) && |rolls| == |population|
    ensures |s| == Min(n, |population|)
  {
    ChosenPositions(0, Min(n, |rolls|), rolls);
    At(population, Chosen(0, Min(n, |rolls|), rolls))
  }

  method Sample<T>(population: seq<T>, n: nat, rolls: seq<nat>) returns (sample: seq<T>)
    requires GoodRolls(rolls) && |rolls| == |population|
    ensures sample == Sampled(population, n, rolls)
  {
    var wanted: nat := Min(n, |population|);
    var first: nat := 0;
    sample := [];
    ghost var taken: seq<nat> := [];
    assert rolls[0..] == rolls;
    ChosenPositions(0, wanted, rolls);
    while wanted != 0
      invariant first <= |population| && wanted <= |population| - first
      invariant taken + Chosen(first, wanted, rolls[first..]) == Chosen(0, Min(n, |rolls|), rolls)
      invariant |sample| == |taken|
      invariant forall i :: 0 <= i < |taken| ==> taken[i] < first && sample[i] == population[taken[i]]
      decreases |population| - first
    {
      assert rolls[first..][1..] == rolls[first + 1..];
      if rolls[first] < wanted {
        sample := sample + [population[first]];
        taken := taken + [first];
        wanted := wanted - 1;
      }
      first := first + 1;
    }
    assert taken + [] == taken;
  }

  /** Sampling as many elements as there are gives all of them in their order. */
  lemma {:induction false} SampleAll<T>(population: seq<T>, rolls: seq<nat>)
    requires GoodRolls(rolls) && |rolls| == |population|
    ensures Sampled(population, |population|, rolls) == population
  {
    ChosenAll(0, rolls);
  }

  /** Whatever is drawn, the choice is the first element of the range. */
  method PickRandom<T>(range: seq<T>, rolls: seq<nat>) returns (r: Result<T>)
    requires GoodRolls(rolls) && |rolls| == |range|
    ensures r == if range == [] then Err(EmptyRange) else Ok(range[0])
  {
    var vec := Sample(range, |range|, rolls);
    SampleAll(range, rolls);
    if vec == [] {
      return Err(EmptyRange);
    }
    return Ok(vec[0]);
  }
}
