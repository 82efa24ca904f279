/** Random construction of a transducer (`Transducer::spawn`).

    Two pools of all 65536 pairs are drained in lockstep: each round removes
    one (state, input) pair from the first pool and one (next state, output)
    pair from the second, and links them in both tables. The random indices
    are modelled as arbitrary in-range choices. */
module Spawn {

  import opened Counting
  import opened Tables

  /** The pool built by the two nested `for` loops: every pair once, in
      row-major order. */
  method AllPairs() returns (pool: seq<Pair>)
    ensures |pool| == PairCount
    ensures forall k :: 0 <= k < |pool| ==> FlatPos(pool[k]) == k
    ensures NoDuplicates(pool)
    ensures forall p: Pair :: p in pool
  {
    pool := [];
    for i := 0 to 256
      invariant |pool| == 256 * i
      invariant forall k :: 0 <= k < |pool| ==> FlatPos(pool[k]) == k
      invariant forall p: Pair :: FlatPos(p) < |pool| ==> p in pool
    {
      for j := 0 to 256
        invariant |pool| == 256 * i + j
        invariant forall k :: 0 <= k < |pool| ==> FlatPos(pool[k]) == k
        invariant forall p: Pair :: FlatPos(p) < |pool| ==> p in pool
      {
        var next: Pair := (i as byte, j as byte);
        forall p: Pair | FlatPos(p) < |pool| + 1
          ensures p in pool + [next]
        {
          FlatPosInjective(p, next);
        }
        pool := pool + [next];
      }
    }
    forall p: Pair
      ensures p in pool
    {
      UnflatFlatPos(p);
    }
  }

  /** `Vec::remove`: drops the entry at index `a`. From a pool without
      repetitions it removes exactly that pair. */
  function Remove(pool: seq<Pair>, a: nat): (rest: seq<Pair>)
    requires a < |pool|
    ensures |rest| == |pool| - 1
    ensures NoDuplicates(pool) ==> NoDuplicates(rest)
    ensures NoDuplicates(pool) ==> forall x :: x in rest <==> x in pool && x != pool[a]
  {
    var rest := pool[..a] + pool[a + 1..];
    assert forall k :: 0 <= k < |rest| ==> rest[k] == pool[if k < a then k else k + 1];
    assert forall x :: x in pool && x != pool[a] ==> x in rest by {
      forall x | x in pool && x != pool[a]
        ensures x in rest
      {
        var k :| 0 <= k < |pool| && pool[k] == x;
        assert rest[if k < a then k else k - 1] == x;
      }
    }
    rest
  }

  /** Every pair already taken from `pool` is linked by `fwd` to a pair
      already taken from `targets`, which `back` links back to it. */
  ghost predicate Linked(pool: seq<Pair>, targets: seq<Pair>, fwd: Table, back: Table) {
    forall p: Pair :: p !in pool ==> At(fwd, p) !in targets && At(back, At(fwd, p)) == p
  }

  /** One round of `spawn` keeps the linkage: taking `pool[a]` and
      `targets[b]` and linking them both ways. */
  lemma LinkStep(pool: seq<Pair>, targets: seq<Pair>, fwd: Table, back: Table, a: nat, b: nat)
    requires NoDuplicates(pool) && NoDuplicates(targets)
    requires a < |pool| && b < |targets|
    requires Linked(pool, targets, fwd, back)
    ensures Linked(Remove(pool, a), Remove(targets, b), Put(fwd, pool[a], targets[b]), Put(back, targets[b], pool[a]))
  {
    var p, q := pool[a], targets[b];
    var fwd', back' := Put(fwd, p, q), Put(back, q, p);
    forall x: Pair | x !in Remove(pool, a)
      ensures At(fwd', x) !in Remove(targets, b) && At(back', At(fwd', x)) == x
    {
      if x != p {
        assert x !in pool;
        assert At(fwd, x) != q;
      }
    }
  }

  /** The loop invariant of `spawn`:
      - both pools have the same length, so one index distribution fits both;
      - neither pool repeats a pair;
      - `slots` logs, without repetition, exactly the pairs no longer in the
        first pool, and `targets` likewise for the second pool;
      - round k linked `slots[k]` and `targets[k]` in both tables;
      - taken slots and taken targets are linked to each other both ways. */
  ghost predicate Draining(stateList: seq<Pair>, inverseList: seq<Pair>, states: Table, inverses: Table,
                           slots: seq<Pair>, targets: seq<Pair>) {
    && |stateList| == |inverseList|
    && NoDuplicates(stateList) && NoDuplicates(inverseList)
    && |slots| + |stateList| == PairCount
    && |targets| == |slots|
    && NoDuplicates(slots) && NoDuplicates(targets)
    && (forall p: Pair :: p in slots <==> p !in stateList)
    && (forall q: Pair :: q in targets <==> q !in inverseList)
    && Logged(slots, targets, states, inverses)
    && Linked(stateList, inverseList, states, inverses)
    && Linked(inverseList, stateList, inverses, states)
  }

  /** Round k wrote `targets[k]` at `slots[k]` of the forward table and
      `slots[k]` at `targets[k]` of the inverse table. */
  ghost predicate Logged(slots: seq<Pair>, targets: seq<Pair>, states: Table, inverses: Table)
    requires |slots| == |targets|
  {
    forall k :: 0 <= k < |slots| ==> At(states, slots[k]) == targets[k] && At(inverses, targets[k]) == slots[k]
  }

  /** A new round writes a slot and a target not logged before, so every
      logged write survives it. */
  lemma LogStep(slots: seq<Pair>, targets: seq<Pair>, states: Table, inverses: Table, p: Pair, q: Pair)
    requires |slots| == |targets|
    requires Logged(slots, targets, states, inverses)
    requires p !in slots && q !in targets
    ensures Logged(slots + [p], targets + [q], Put(states, p, q), Put(inverses, q, p))
  {
    var slots', targets' := slots + [p], targets + [q];
    forall k | 0 <= k < |slots'|
      ensures At(Put(states, p, q), slots'[k]) == targets'[k] && At(Put(inverses, q, p), targets'[k]) == slots'[k]
    {
      if k < |slots| {
        assert slots'[k] == slots[k] != p;
        assert targets'[k] == targets[k] != q;
      }
    }
  }

  /** One round of the `spawn` loop keeps its invariant. */
  lemma DrainStep(stateList: seq<Pair>, inverseList: seq<Pair>, states: Table, inverses: Table,
                  slots: seq<Pair>, targets: seq<Pair>, a: nat, b: nat)
    requires Draining(stateList, inverseList, states, inverses, slots, targets)
    requires a < |stateList| && b < |stateList|
    ensures Draining(Remove(stateList, a), Remove(inverseList, b),
      Put(states, stateList[a], inverseList[b]), Put(inverses, inverseList[b], stateList[a]),
      slots + [stateList[a]], targets + [inverseList[b]])
  {
    LinkStep(stateList, inverseList, states, inverses, a, b);
    LinkStep(inverseList, stateList, inverses, states, b, a);
    LogStep(slots, targets, states, inverses, stateList[a], inverseList[b]);
    AppendFresh(slots, stateList[a]);
    AppendFresh(targets, inverseList[b]);
  }

  /** Builds a random transducer; `Bijective` holds by construction, with no
      separate validation pass. The ghost logs list, round by round, the
      forward slot assigned and the target it was linked to: every slot and
      every target exactly once, each pair written into both tables. */
  method Spawn() returns (t: Transducer, ghost slots: seq<Pair>, ghost targets: seq<Pair>)
    ensures Bijective(t)
    ensures |slots| == PairCount && |targets| == PairCount
    ensures NoDuplicates(slots) && NoDuplicates(targets)
    ensures forall p: Pair :: p in slots && p in targets
    ensures forall k :: 0 <= k < PairCount ==>
      At(t.states, slots[k]) == targets[k] && At(t.inverse, targets[k]) == slots[k]
  {
    var start: byte :| true;
    var stateList := AllPairs();
    var inverseList := AllPairs();
    var states: Table := Blank();
    var inverses: Table := Blank();
    slots, targets := [], [];
    while |stateList| > 0
      invariant Draining(stateList, inverseList, states, inverses, slots, targets)
      decreases |stateList|
    {
      // both indices come from one distribution over `0..stateList.len()`
      var stateI :| 0 <= stateI < |stateList|;
      var inverseI :| 0 <= inverseI < |stateList|;
      var p := stateList[stateI];
      var q := inverseList[inverseI];
      DrainStep(stateList, inverseList, states, inverses, slots, targets, stateI, inverseI);
      stateList := Remove(stateList, stateI);
      inverseList := Remove(inverseList, inverseI);
      states := Put(states, p, q);
      inverses := Put(inverses, q, p);
      slots, targets := slots + [p], targets + [q];
    }
    assert inverseList == [];
    t := Transducer(states, inverses, start);
  }
}
