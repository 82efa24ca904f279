/** The state-table model of a transducer: two 256x256 tables of
    (state, byte) pairs and a start state.

    `states[s][i] == (n, o)` means: in state `s`, input byte `i` moves the
    machine to state `n` and emits byte `o`. `inverse[n][o] == (s, i)` is
    the mirror entry used to walk a ciphertext backwards. */
module Tables {

  import opened Counting

  /** An unsigned 8-bit value (Rust `u8`): a state or a message byte. */
  newtype byte = x: int | 0 <= x < 256

  /** A (state, byte) pair: a table key or a table entry. */
  type Pair = (byte, byte)

  /** Number of (state, byte) pairs, 256 * 256. */
  const PairCount: nat := 65536

  ghost predicate IsTable(t: seq<seq<Pair>>) {
    |t| == 256 && forall s :: 0 <= s < |t| ==> |t[s]| == 256
  }

  /** The all-zero table `vec![vec![(0, 0); 256]; 256]`. */
  function Blank(): (t: seq<seq<Pair>>)
    ensures IsTable(t)
    ensures forall p: Pair :: t[p.0][p.1] == (0, 0)
  {
    seq(256, _ => seq(256, _ => (0, 0)))
  }

  /** A 256x256 table indexed first by state, then by byte. */
  type Table = t: seq<seq<Pair>> | IsTable(t) witness Blank()

  datatype Transducer = Transducer(states: Table, inverse: Table, start: byte)

  /** The source's `Result<_, ()>`. */
  datatype Result<T> = Ok(value: T) | Err

  function At(t: Table, p: Pair): Pair {
    t[p.0][p.1]
  }

  /** `t[p.0][p.1] = v`: one slot changes, every other slot keeps its entry. */
  function Put(t: Table, p: Pair, v: Pair): (r: Table)
    ensures At(r, p) == v
    ensures forall x: Pair :: x != p ==> At(r, x) == At(t, x)
  {
    t[p.0 := t[p.0][p.1 := v]]
  }

  /** Row-major position of a pair: where its entry sits in a flattened table. */
  function FlatPos(p: Pair): nat {
    256 * p.0 as int + p.1 as int
  }

  /** The pair at row-major position `k`. */
  function Unflat(k: nat): (p: Pair)
    requires k < PairCount
    ensures FlatPos(p) == k
  {
    ((k / 256) as byte, (k % 256) as byte)
  }

  lemma FlatPosInjective(p: Pair, q: Pair)
    ensures FlatPos(p) == FlatPos(q) <==> p == q
  {
  }

  lemma UnflatFlatPos(p: Pair)
    ensures FlatPos(p) < PairCount
    ensures Unflat(FlatPos(p)) == p
  {
    FlatPosInjective(Unflat(FlatPos(p)), p);
  }

  /** Two tables with the same entry at every key are the same table. */
  lemma TableExtensionality(a: Table, b: Table)
    requires forall p: Pair :: At(a, p) == At(b, p)
    ensures a == b
  {
    forall s | 0 <= s < 256
      ensures a[s] == b[s]
    {
      forall i | 0 <= i < 256
        ensures a[s][i] == b[s][i]
      {
        assert At(a, (s as byte, i as byte)) == At(b, (s as byte, i as byte));
      }
    }
  }

  /** Distinct keys of the table hold distinct entries. */
  ghost predicate Injective(t: Table) {
    forall p: Pair, q: Pair :: At(t, p) == At(t, q) ==> p == q
  }

  /** Some key of the table holds entry `q`. */
  ghost predicate InImage(t: Table, q: Pair) {
    exists p: Pair :: At(t, p) == q
  }

  /** Every pair is the entry of some key. */
  ghost predicate Surjective(t: Table) {
    forall q: Pair :: InImage(t, q)
  }

  /** The inverse table undoes every forward step:
      `inverse[states[s][i]] == (s, i)` for all `s`, `i`. */
  ghost predicate Consistent(t: Transducer) {
    forall p: Pair :: At(t.inverse, At(t.states, p)) == p
  }

  /** The two tables are inverse bijections of each other: besides
      `Consistent`, the forward table undoes every inverse step. */
  ghost predicate Bijective(t: Transducer) {
    && Consistent(t)
    && forall q: Pair :: At(t.states, At(t.inverse, q)) == q
  }

  /** A consistent transducer has an injective forward table: no two
      (state, input) pairs share a (next state, output) pair. */
  lemma ConsistentInjective(t: Transducer)
    requires Consistent(t)
    ensures Injective(t.states)
  {
    forall p: Pair, q: Pair | At(t.states, p) == At(t.states, q)
      ensures p == q
    {
      assert At(t.inverse, At(t.states, p)) == p;
      assert At(t.inverse, At(t.states, q)) == q;
    }
  }

  /** In a bijective transducer every (next state, output) pair is the image
      of exactly one (state, input) pair, namely its inverse entry. */
  lemma BijectiveExactlyOnce(t: Transducer, q: Pair)
    requires Bijective(t)
    ensures At(t.states, At(t.inverse, q)) == q
    ensures forall p: Pair :: At(t.states, p) == q ==> p == At(t.inverse, q)
  {
  }

  /** Pigeonhole on the 65536 pairs: an injective forward table is also
      surjective, so a consistent transducer leaves no (next state, output)
      pair unreachable. */
  lemma InjectiveSurjective(t: Table)
    requires Injective(t)
    ensures Surjective(t)
  {
    var image := seq(PairCount, k requires 0 <= k < PairCount => FlatPos(At(t, Unflat(k))));
    forall j, k | 0 <= j < k < |image|
      ensures image[j] != image[k]
    {
      FlatPosInjective(At(t, Unflat(j)), At(t, Unflat(k)));
    }
    forall k | 0 <= k < |image|
      ensures 0 <= image[k] < PairCount
    {
      UnflatFlatPos(At(t, Unflat(k)));
    }
    Pigeonhole(image, PairCount);
    forall q: Pair
      ensures InImage(t, q)
    {
      UnflatFlatPos(q);
      assert FlatPos(q) in image;
      var k :| 0 <= k < |image| && image[k] == FlatPos(q);
      FlatPosInjective(At(t, Unflat(k)), q);
    }
  }

  /** Consistency alone already makes the two tables inverse bijections. */
  lemma ConsistentIsBijective(t: Transducer)
    requires Consistent(t)
    ensures Bijective(t)
  {
    ConsistentInjective(t);
    InjectiveSurjective(t.states);
    forall q: Pair
      ensures At(t.states, At(t.inverse, q)) == q
    {
      assert InImage(t.states, q);
      var p :| At(t.states, p) == q;
    }
  }
}
