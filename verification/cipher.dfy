/** The cipher walk (`encrypt` / `decrypt`).

    Encryption walks the forward table from the start state, emitting one
    output byte per input byte, and appends the final state. Decryption
    takes that trailing state and walks the inverse table back to front,
    prepending each recovered byte. */
module Cipher {

  import opened Tables

  /** Reference semantics: the state after the first `k` bytes of `m`. */
  function StateAfter(states: Table, start: byte, m: seq<byte>, k: nat): byte
    requires k <= |m|
  {
    if k == 0 then start else At(states, (StateAfter(states, start, m, k - 1), m[k - 1])).0
  }

  /** The loop state of `encrypt` once `m` has been consumed: the current
      state and the bytes pushed so far. */
  function Run(states: Table, start: byte, m: seq<byte>): (r: (byte, seq<byte>))
    ensures |r.1| == |m|
  {
    if |m| == 0 then (start, [])
    else
      var (state, code) := Run(states, start, m[..|m| - 1]);
      var (next, change) := At(states, (state, m[|m| - 1]));
      (next, code + [change])
  }

  /** One output byte per input byte, then the final state. */
  function Encrypt(t: Transducer, m: seq<byte>): (c: seq<byte>)
    ensures |c| == |m| + 1
    ensures m == [] ==> c == [t.start]
  {
    var (state, code) := Run(t.states, t.start, m);
    code + [state]
  }

  /** Walks `code` back to front through the inverse table from `state`,
      putting each recovered byte in front of those recovered before. */
  function Unwind(inverse: Table, state: byte, code: seq<byte>): (m: seq<byte>)
    ensures |m| == |code|
    decreases |code|
  {
    if |code| == 0 then []
    else
      var (prev, original) := At(inverse, (state, code[|code| - 1]));
      Unwind(inverse, prev, code[..|code| - 1]) + [original]
  }

  /** The state the backward walk of `Unwind` ends in. */
  function UnwindOrigin(inverse: Table, state: byte, code: seq<byte>): byte
    decreases |code|
  {
    if |code| == 0 then state
    else UnwindOrigin(inverse, At(inverse, (state, code[|code| - 1])).0, code[..|code| - 1])
  }

  /** Decrypts a non-empty ciphertext: its last byte is the state the walk
      starts from; one byte comes back for every other byte. */
  function Decrypt(t: Transducer, c: seq<byte>): (m: seq<byte>)
    requires |c| >= 1
    ensures |m| == |c| - 1
  {
    Unwind(t.inverse, c[|c| - 1], c[..|c| - 1])
  }

  /** Reference semantics of the backward walk over a ciphertext `c`: the
      decode state after inverting bytes `k..|c| - 2`, i.e. the forward
      state before byte `k` (for `k == |c| - 1`, the trailing state byte
      itself). Byte `k` is inverted from `StateBefore(inverse, c, k + 1)`. */
  function StateBefore(inverse: Table, c: seq<byte>, k: nat): byte
    requires k < |c|
    decreases |c| - k
  {
    if k == |c| - 1 then c[k] else At(inverse, (StateBefore(inverse, c, k + 1), c[k])).0
  }

  // ---------------------------------------------------------------------
  // Shape of the encryption walk

  lemma {:induction false} StateAfterPrefix(states: Table, start: byte, m: seq<byte>, n: nat, k: nat)
    requires k <= n <= |m|
    ensures StateAfter(states, start, m[..n], k) == StateAfter(states, start, m, k)
  {
    if k > 0 {
      StateAfterPrefix(states, start, m, n, k - 1);
    }
  }

  /** The encryption loop after `m`: its state is the state reached after
      all of `m`, and its k-th pushed byte is the output of the k-th step. */
  lemma {:induction false} RunShape(states: Table, start: byte, m: seq<byte>)
    ensures Run(states, start, m).0 == StateAfter(states, start, m, |m|)
    ensures forall k :: 0 <= k < |m| ==>
      Run(states, start, m).1[k] == At(states, (StateAfter(states, start, m, k), m[k])).1
  {
    if |m| > 0 {
      var init := m[..|m| - 1];
      RunShape(states, start, init);
      forall k | 0 <= k <= |init|
        ensures StateAfter(states, start, init, k) == StateAfter(states, start, m, k)
      {
        StateAfterPrefix(states, start, m, |init|, k);
      }
    }
  }

  /** `encrypt(m)`: byte k is the output of the k-th forward step from
      `start`, and the last byte is the state reached after all of `m`. */
  lemma {:induction false} EncryptShape(t: Transducer, m: seq<byte>)
    ensures forall k :: 0 <= k < |m| ==>
      Encrypt(t, m)[k] == At(t.states, (StateAfter(t.states, t.start, m, k), m[k])).1
    ensures Encrypt(t, m)[|m|] == StateAfter(t.states, t.start, m, |m|)
  {
    RunShape(t.states, t.start, m);
  }

  // ---------------------------------------------------------------------
  // Shape of the decryption walk

  /** Replacing the last two bytes `x, s` of a ciphertext by the single byte
      reached from them leaves every earlier decode state unchanged. */
  lemma {:induction false} StateBeforeStep(inverse: Table, code: seq<byte>, s: byte, k: nat)
    requires |code| >= 1
    requires k < |code|
    ensures var prev := At(inverse, (s, code[|code| - 1])).0;
      StateBefore(inverse, code + [s], k) == StateBefore(inverse, code[..|code| - 1] + [prev], k)
    decreases |code| - k
  {
    var c := code + [s];
    var c' := code[..|code| - 1] + [At(inverse, (s, code[|code| - 1])).0];
    if k == |code| - 1 {
      assert StateBefore(inverse, c, k + 1) == s;
    } else {
      StateBeforeStep(inverse, code, s, k + 1);
      assert c[k] == c'[k];
    }
  }

  /** The backward walk from `state` over `code` recovers, at position k,
      the input byte stored in the inverse entry for (decode state, c[k]). */
  lemma {:induction false} UnwindShape(inverse: Table, state: byte, code: seq<byte>)
    ensures forall k :: 0 <= k < |code| ==>
      Unwind(inverse, state, code)[k] == At(inverse, (StateBefore(inverse, code + [state], k + 1), code[k])).1
    decreases |code|
  {
    if |code| > 0 {
      var init := code[..|code| - 1];
      var prev := At(inverse, (state, code[|code| - 1])).0;
      UnwindShape(inverse, prev, init);
      forall k | 0 <= k < |code|
        ensures Unwind(inverse, state, code)[k] == At(inverse, (StateBefore(inverse, code + [state], k + 1), code[k])).1
      {
        if k < |init| {
          StateBeforeStep(inverse, code, state, k + 1);
          assert code[k] == init[k];
        }
      }
    }
  }

  /** `decrypt(c)`: byte k is the input byte stored in the inverse entry for
      the decode state after inverting bytes k+1.. and the ciphertext byte
      c[k]; the walk starts from the trailing state byte. */
  lemma {:induction false} DecryptShape(t: Transducer, c: seq<byte>)
    requires |c| >= 1
    ensures forall k :: 0 <= k < |c| - 1 ==>
      Decrypt(t, c)[k] == At(t.inverse, (StateBefore(t.inverse, c, k + 1), c[k])).1
  {
    UnwindShape(t.inverse, c[|c| - 1], c[..|c| - 1]);
    assert c[..|c| - 1] + [c[|c| - 1]] == c;
  }

  // ---------------------------------------------------------------------
  // Round trips

  /** Walking the inverse table back over what the forward walk emitted
      returns the input and ends in the state the forward walk began in. */
  lemma {:induction false} UnwindRun(t: Transducer, start: byte, m: seq<byte>)
    requires Consistent(t)
    ensures var (state, code) := Run(t.states, start, m);
      Unwind(t.inverse, state, code) == m && UnwindOrigin(t.inverse, state, code) == start
  {
    if |m| > 0 {
      var init := m[..|m| - 1];
      UnwindRun(t, start, init);
      var (state, code) := Run(t.states, start, init);
      var (next, change) := At(t.states, (state, m[|m| - 1]));
      assert At(t.inverse, (next, change)) == (state, m[|m| - 1]);
      assert (code + [change])[..|code|] == code;
      assert init + [m[|m| - 1]] == m;
    }
  }

  /** `decrypt(encrypt(m)) == m` for a consistent transducer, for every `m`
      including the empty one. */
  lemma DecryptEncrypt(t: Transducer, m: seq<byte>)
    requires Consistent(t)
    ensures Decrypt(t, Encrypt(t, m)) == m
  {
    UnwindRun(t, t.start, m);
    var c := Encrypt(t, m);
    assert c[..|c| - 1] == Run(t.states, t.start, m).1;
  }

  /** Replaying forward what the backward walk recovered re-emits the
      ciphertext, provided the forward table undoes every inverse step. */
  lemma {:induction false} RunUnwind(t: Transducer, state: byte, code: seq<byte>)
    requires forall q: Pair :: At(t.states, At(t.inverse, q)) == q
    ensures Run(t.states, UnwindOrigin(t.inverse, state, code), Unwind(t.inverse, state, code)) == (state, code)
    decreases |code|
  {
    if |code| > 0 {
      var init := code[..|code| - 1];
      var (prev, original) := At(t.inverse, (state, code[|code| - 1]));
      RunUnwind(t, prev, init);
      var u := Unwind(t.inverse, prev, init);
      assert (u + [original])[..|u|] == u;
      assert At(t.states, (prev, original)) == (state, code[|code| - 1]);
      assert init + [code[|code| - 1]] == code;
    }
  }

  /** The state a ciphertext's backward walk ends in. */
  function DecryptOrigin(t: Transducer, c: seq<byte>): byte
    requires |c| >= 1
  {
    UnwindOrigin(t.inverse, c[|c| - 1], c[..|c| - 1])
  }

  /** The ciphertexts are exactly the non-empty byte strings whose backward
      walk ends in the start state, and on those `encrypt` undoes `decrypt`. */
  lemma EncryptImage(t: Transducer, c: seq<byte>)
    requires Consistent(t)
    ensures (exists m :: Encrypt(t, m) == c) <==> |c| >= 1 && DecryptOrigin(t, c) == t.start
    ensures |c| >= 1 && DecryptOrigin(t, c) == t.start ==> Encrypt(t, Decrypt(t, c)) == c
  {
    ConsistentIsBijective(t);
    if m :| Encrypt(t, m) == c {
      UnwindRun(t, t.start, m);
      assert c[..|c| - 1] == Run(t.states, t.start, m).1;
    }
    if |c| >= 1 && DecryptOrigin(t, c) == t.start {
      RunUnwind(t, c[|c| - 1], c[..|c| - 1]);
      assert c[..|c| - 1] + [c[|c| - 1]] == c;
      assert Encrypt(t, Decrypt(t, c)) == c;
    }
  }

  /** The worked example: from state 5, input 65 goes to state 9 emitting
      200, so `[65]` encrypts to `[200, 9]` and back. */
  lemma Example(t: Transducer)
    requires Consistent(t)
    requires t.start == 5
    requires At(t.states, (5, 65)) == (9, 200)
    ensures Encrypt(t, [65]) == [200, 9]
    ensures Decrypt(t, [200, 9]) == [65]
    ensures Decrypt(t, [t.start]) == []
  {
    assert At(t.inverse, (9, 200)) == (5, 65);
    assert [65][..0] == [];
    var r := Run(t.states, 5, [65]);
    assert Run(t.states, 5, [65][..0]) == (5, []);
    assert r.0 == 9;
    assert r.1 == [] + [200];
    assert [200, 9][..1] == [200];
    assert [200][..0] == [];
  }

  // ---------------------------------------------------------------------
  // Empty ciphertext

  /** A call that either returns a value or panics. */
  datatype Outcome<T> = Returned(value: T) | Panicked

  /** `Vec::with_capacity(a - b)` on `usize`: with overflow checks the
      subtraction underflows and panics; without them the wrapped
      `usize::MAX` capacity panics with a capacity overflow. Either way it
      panics exactly when `a < b`. */
  function UsizeSub(a: nat, b: nat): (r: Outcome<nat>)
    ensures r.Panicked? <==> a < b
    ensures r.Returned? ==> r.value + b == a
  {
    if a < b then Panicked else Returned(a - b)
  }

  /** `decrypt` as written: the capacity `message.len() - 1` is computed
      before the emptiness check, so the check's `Err` is never returned. */
  function DecryptAsWritten(t: Transducer, c: seq<byte>): (r: Outcome<Result<seq<byte>>>)
    ensures r.Panicked? <==> |c| == 0
    ensures r != Returned(Err)
  {
    match UsizeSub(|c|, 1)
    case Panicked => Panicked
    case Returned(_) =>
      if |c| == 0 then Returned(Err) else Returned(Ok(Decrypt(t, c)))
  }

  /** The input that shows the difference: the empty ciphertext panics as
      written, where the intended check returns `Err`. */
  lemma EmptyCiphertext(t: Transducer)
    ensures DecryptAsWritten(t, []) == Panicked
    ensures DecryptChecked(t, []) == Err
  {
  }

  /** `decrypt` with the emptiness check done first, as its `Err` branch
      intends: the empty ciphertext is an error, and nothing else is. */
  function DecryptChecked(t: Transducer, c: seq<byte>): (r: Result<seq<byte>>)
    ensures r.Err? <==> |c| == 0
    ensures r.Ok? ==> |r.value| == |c| - 1
  {
    if |c| == 0 then Err else Ok(Decrypt(t, c))
  }

  /** The checked decryption inverts encryption and rejects only the empty
      ciphertext, which `encrypt` never produces. */
  lemma DecryptCheckedEncrypt(t: Transducer, m: seq<byte>)
    requires Consistent(t)
    ensures DecryptChecked(t, Encrypt(t, m)) == Ok(m)
    ensures DecryptChecked(t, []) == Err
  {
    DecryptEncrypt(t, m);
  }
}
