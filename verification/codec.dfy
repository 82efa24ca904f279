/** The key format (`to_bytes` / `from_bytes`): one start byte, then the
    forward table in row-major order, each entry as (next state, output).
    The inverse table is not stored; loading rebuilds it by mirroring every
    forward entry in the order the entries are read. */
module Codec {

  import opened Tables

  /** `1 + 256 * 256 * 2` bytes. */
  const KeyLength: nat := 131073

  /** Index of the first of the two bytes that store entry `p`. */
  function Offset(p: Pair): nat {
    1 + 2 * FlatPos(p)
  }

  /** The bytes pushed for the first `n` entries of one row. */
  function RowBytes(row: seq<Pair>, n: nat): (b: seq<byte>)
    requires n <= |row|
    ensures |b| == 2 * n
    ensures forall j :: 0 <= j < n ==> b[2 * j] == row[j].0 && b[2 * j + 1] == row[j].1
  {
    if n == 0 then [] else RowBytes(row, n - 1) + [row[n - 1].0, row[n - 1].1]
  }

  /** The key bytes once `start` and the first `n` rows have been pushed. */
  function KeyBytes(start: byte, states: Table, n: nat): (b: seq<byte>)
    requires n <= 256
    ensures |b| == 1 + 512 * n
    ensures b[0] == start
    ensures forall p: Pair :: p.0 as int < n ==>
      b[Offset(p)] == At(states, p).0 && b[Offset(p) + 1] == At(states, p).1
  {
    if n == 0 then [start]
    else
      var prefix := KeyBytes(start, states, n - 1);
      var row := RowBytes(states[n - 1], |states[n - 1]|);
      AppendRow(states, n, prefix, row);
      prefix + row
  }

  /** Pushing row `n - 1` after the bytes of the rows before it puts each of
      its entries at that entry's offset. */
  lemma AppendRow(states: Table, n: nat, prefix: seq<byte>, row: seq<byte>)
    requires 1 <= n <= 256
    requires |prefix| == 1 + 512 * (n - 1)
    requires forall p: Pair :: p.0 as int < n - 1 ==>
      prefix[Offset(p)] == At(states, p).0 && prefix[Offset(p) + 1] == At(states, p).1
    requires |row| == 512
    requires forall j :: 0 <= j < 256 ==> row[2 * j] == states[n - 1][j].0 && row[2 * j + 1] == states[n - 1][j].1
    ensures forall p: Pair :: p.0 as int < n ==>
      (prefix + row)[Offset(p)] == At(states, p).0 && (prefix + row)[Offset(p) + 1] == At(states, p).1
  {
    forall p: Pair | p.0 as int < n
      ensures (prefix + row)[Offset(p)] == At(states, p).0 && (prefix + row)[Offset(p) + 1] == At(states, p).1
    {
      if p.0 as int == n - 1 {
        var j := p.1 as int;
        assert Offset(p) == |prefix| + 2 * j;
        assert row[2 * j] == At(states, p).0 && row[2 * j + 1] == At(states, p).1;
      } else {
        assert Offset(p) + 1 < |prefix|;
      }
    }
  }

  /** Serialises the start state and the forward table. */
  function ToBytes(t: Transducer): (b: seq<byte>)
    ensures |b| == KeyLength
    ensures b[0] == t.start
    ensures forall p: Pair :: b[Offset(p)] == At(t.states, p).0 && b[Offset(p) + 1] == At(t.states, p).1
  {
    KeyBytes(t.start, t.states, |t.states|)
  }

  /** The inverse table after mirroring the first `n` forward entries in
      row-major order: `inverses[n_state][output] = (i, j)`. A later entry
      with the same target overwrites an earlier one. */
  function Rebuilt(states: Table, n: nat): (r: Table)
    requires n <= PairCount
    ensures forall p: Pair :: FlatPos(p) == n - 1 ==> At(r, At(states, p)) == p
  {
    if n == 0 then Blank()
    else
      var p := Unflat(n - 1);
      Put(Rebuilt(states, n - 1), At(states, p), p)
  }

  /** No entry among the first `n` in row-major order targets `q`. */
  ghost predicate Untouched(states: Table, n: nat, q: Pair) {
    forall p: Pair :: FlatPos(p) < n ==> At(states, p) != q
  }

  /** The `for i` / `for j` loop of `from_bytes` from entry `n` on, with
      the byte cursor at index `at` of the key. Each entry takes two bytes,
      `n_state` then `output`: it stores them at slot `n` and mirrors them
      with `inverses[n_state][output] = (i, j)`. Running out of bytes at
      either read is an error. Started on the mirror of the first `n`
      entries, the inverse ends as the mirror of all of them. */
  function LoadEntries(b: seq<byte>, at: nat, n: nat, states: Table, inverses: Table): (r: Result<(Table, Table)>)
    requires n <= PairCount
    requires at <= |b|
    ensures r.Ok? <==> |b| >= at + 2 * (PairCount - n)
    ensures r.Ok? ==> forall p: Pair :: FlatPos(p) < n ==> At(r.value.0, p) == At(states, p)
    ensures r.Ok? ==> forall p: Pair :: n <= FlatPos(p) ==>
      At(r.value.0, p) == (b[at + 2 * (FlatPos(p) - n)], b[at + 2 * (FlatPos(p) - n) + 1])
    ensures r.Ok? && inverses == Rebuilt(r.value.0, n) ==> r.value.1 == Rebuilt(r.value.0, PairCount)
    decreases PairCount - n
  {
    if n == PairCount then Ok((states, inverses))
    else if |b| <= at then Err
    else if |b| <= at + 1 then Err
    else
      var slot := Unflat(n);
      var entry := (b[at], b[at + 1]);
      var r := LoadEntries(b, at + 2, n + 1, Put(states, slot, entry), Put(inverses, entry, slot));
      LoadStep(b, at, n, states, inverses, r);
      r
  }

  /** What one more entry read adds to what the rest of the loop stores. */
  lemma LoadStep(b: seq<byte>, at: nat, n: nat, states: Table, inverses: Table, r: Result<(Table, Table)>)
    requires n < PairCount && at + 1 < |b|
    requires r.Ok? ==> |b| >= at + 2 + 2 * (PairCount - (n + 1))
    requires r.Ok? ==> forall p: Pair :: FlatPos(p) < n + 1 ==>
      At(r.value.0, p) == At(Put(states, Unflat(n), (b[at], b[at + 1])), p)
    requires r.Ok? ==> forall p: Pair :: n + 1 <= FlatPos(p) ==>
      At(r.value.0, p) == (b[at + 2 + 2 * (FlatPos(p) - (n + 1))], b[at + 2 + 2 * (FlatPos(p) - (n + 1)) + 1])
    requires r.Ok? && Put(inverses, (b[at], b[at + 1]), Unflat(n)) == Rebuilt(r.value.0, n + 1) ==>
      r.value.1 == Rebuilt(r.value.0, PairCount)
    ensures r.Ok? ==> forall p: Pair :: FlatPos(p) < n ==> At(r.value.0, p) == At(states, p)
    ensures r.Ok? ==> forall p: Pair :: n <= FlatPos(p) ==>
      At(r.value.0, p) == (b[at + 2 * (FlatPos(p) - n)], b[at + 2 * (FlatPos(p) - n) + 1])
    ensures r.Ok? && inverses == Rebuilt(r.value.0, n) ==> r.value.1 == Rebuilt(r.value.0, PairCount)
  {
    if r.Ok? {
      var slot := Unflat(n);
      forall p: Pair | FlatPos(p) < n
        ensures At(r.value.0, p) == At(states, p)
      {
        FlatPosInjective(p, slot);
      }
      forall p: Pair | n <= FlatPos(p)
        ensures At(r.value.0, p) == (b[at + 2 * (FlatPos(p) - n)], b[at + 2 * (FlatPos(p) - n) + 1])
      {
        FlatPosInjective(p, slot);
      }
      assert At(r.value.0, slot) == (b[at], b[at + 1]);
    }
  }

  /** Loads a key: the start byte, then every entry into zero-initialised
      tables. Fails exactly when the key is too short to fill the table;
      bytes past the table are never read. The inverse is the
      last-writer-wins mirror of the forward table read. */
  function FromBytes(b: seq<byte>): (r: Result<Transducer>)
    ensures r.Ok? <==> |b| >= KeyLength
    ensures r.Ok? ==> r.value.start == b[0]
    ensures r.Ok? ==> forall p: Pair :: At(r.value.states, p) == (b[Offset(p)], b[Offset(p) + 1])
    ensures r.Ok? ==> r.value.inverse == Rebuilt(r.value.states, PairCount)
  {
    if |b| == 0 then Err
    else
      var loaded := LoadEntries(b, 1, 0, Blank(), Blank());
      if loaded.Err? then Err else Ok(Transducer(loaded.value.0, loaded.value.1, b[0]))
  }

  /** Bytes past the table play no part: a key loads exactly as its first
      131073 bytes do. */
  lemma FromBytesPrefix(b: seq<byte>)
    requires |b| >= KeyLength
    ensures FromBytes(b) == FromBytes(b[..KeyLength])
  {
    SameStored(b, FromBytes(b).value, FromBytes(b[..KeyLength]).value);
  }

  /** Last writer wins: after `n` entries, the mirror of a reached target is
      a preimage of it that comes at or after every other preimage read so
      far; an untouched target keeps the initial `(0, 0)`. */
  lemma {:induction false} RebuiltLastWriter(states: Table, n: nat)
    requires n <= PairCount
    ensures forall p: Pair :: FlatPos(p) < n ==>
      var r := At(Rebuilt(states, n), At(states, p));
      At(states, r) == At(states, p) && FlatPos(p) <= FlatPos(r) < n
    ensures forall q: Pair :: Untouched(states, n, q) ==> At(Rebuilt(states, n), q) == (0, 0)
  {
    if n > 0 {
      RebuiltLastWriter(states, n - 1);
      var w := Unflat(n - 1);
      forall p: Pair | FlatPos(p) < n
        ensures var r := At(Rebuilt(states, n), At(states, p));
          At(states, r) == At(states, p) && FlatPos(p) <= FlatPos(r) < n
      {
        FlatPosInjective(p, w);
      }
    }
  }

  /** A loaded key is consistent exactly when its forward table is injective;
      otherwise some overwritten mirror entry breaks consistency. */
  lemma RebuiltConsistentIffInjective(states: Table, start: byte)
    ensures Consistent(Transducer(states, Rebuilt(states, PairCount), start)) <==> Injective(states)
  {
    var t := Transducer(states, Rebuilt(states, PairCount), start);
    if Consistent(t) {
      ConsistentInjective(t);
    }
    if Injective(states) {
      RebuiltLastWriter(states, PairCount);
      forall p: Pair
        ensures At(t.inverse, At(states, p)) == p
      {
        UnflatFlatPos(p);
      }
    }
  }

  lemma FromBytesConsistentIffInjective(b: seq<byte>)
    requires |b| >= KeyLength
    ensures FromBytes(b).Ok?
    ensures Consistent(FromBytes(b).value) <==> Injective(FromBytes(b).value.states)
  {
    var t := FromBytes(b).value;
    RebuiltConsistentIffInjective(t.states, t.start);
  }

  /** For a consistent transducer the rebuilt inverse is the inverse it had. */
  lemma RebuiltOfConsistent(t: Transducer)
    requires Consistent(t)
    ensures Rebuilt(t.states, PairCount) == t.inverse
  {
    ConsistentIsBijective(t);
    ConsistentInjective(t);
    RebuiltLastWriter(t.states, PairCount);
    var r := Rebuilt(t.states, PairCount);
    forall q: Pair
      ensures At(r, q) == At(t.inverse, q)
    {
      var p := At(t.inverse, q);
      UnflatFlatPos(p);
      assert At(t.states, p) == q;
    }
    TableExtensionality(r, t.inverse);
  }

  /** Loading a saved key gives back its start state and forward table; the
      inverse is rebuilt from the forward table. */
  lemma {:induction false} ToBytesFromBytes(t: Transducer)
    ensures FromBytes(ToBytes(t)) == Ok(Transducer(t.states, Rebuilt(t.states, PairCount), t.start))
  {
    var u := FromBytes(ToBytes(t)).value;
    TableExtensionality(u.states, t.states);
  }

  /** Round trip for a consistent key: loading what was saved gives back the
      same transducer, inverse table included. */
  lemma ToBytesFromBytesConsistent(t: Transducer)
    requires Consistent(t)
    ensures FromBytes(ToBytes(t)) == Ok(t)
  {
    ToBytesFromBytes(t);
    RebuiltOfConsistent(t);
  }

  /** Saving a loaded key reproduces the bytes it was loaded from, up to the
      ignored trailing bytes. */
  lemma FromBytesToBytes(b: seq<byte>)
    requires |b| >= KeyLength
    ensures FromBytes(b).Ok?
    ensures ToBytes(FromBytes(b).value) == b[..KeyLength]
  {
    SavedKey(b, FromBytes(b).value);
  }

  /** `t` holds the start state and the forward table that key `b` stores. */
  ghost predicate StoredIn(t: Transducer, b: seq<byte>) {
    && |b| >= KeyLength
    && t.start == b[0]
    && forall p: Pair :: At(t.states, p) == (b[Offset(p)], b[Offset(p) + 1])
  }

  /** A key and its first 131073 bytes store the same forward table. */
  lemma SameStored(b: seq<byte>, t: Transducer, u: Transducer)
    requires StoredIn(t, b) && StoredIn(u, b[..KeyLength])
    ensures t.states == u.states
  {
    forall p: Pair
      ensures At(t.states, p) == At(u.states, p)
    {
      assert Offset(p) + 1 < KeyLength;
    }
    TableExtensionality(t.states, u.states);
  }

  /** Saving a transducer read from `b` gives back the first 131073 bytes. */
  lemma SavedKey(b: seq<byte>, t: Transducer)
    requires StoredIn(t, b)
    ensures ToBytes(t) == b[..KeyLength]
  {
    SameKey(ToBytes(t), b, t);
  }

  /** Any 131073 bytes laid out as `ToBytes` lays out `t` are the first
      131073 bytes of a key that stores `t`. */
  lemma {:induction false} SameKey(c: seq<byte>, b: seq<byte>, t: Transducer)
    requires StoredIn(t, b)
    requires |c| == KeyLength && c[0] == t.start
    requires forall p: Pair :: c[Offset(p)] == At(t.states, p).0 && c[Offset(p) + 1] == At(t.states, p).1
    ensures c == b[..KeyLength]
  {
    var d := b[..KeyLength];
    forall k | 0 <= k < KeyLength
      ensures c[k] == d[k]
    {
      if k > 0 {
        var p := OffsetCovers(k);
        assert At(t.states, p) == (b[Offset(p)], b[Offset(p) + 1]);
      }
    }
    assert c == d;
  }

  /** Every byte after the start byte belongs to exactly one table entry. */
  lemma OffsetCovers(k: nat) returns (p: Pair)
    requires 1 <= k < KeyLength
    ensures k == Offset(p) || k == Offset(p) + 1
  {
    p := Unflat((k - 1) / 2);
  }
}
