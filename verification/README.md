# Transducer byte cipher — Dafny model

This project models the `Transducer` of `transducer_byte_encryption`. The transducer is a keyed, invertible byte-substitution state machine. A key holds three things:

- a start state;
- a forward table, mapping (state, input byte) to (next state, output byte);
- an inverse table, mapping (next state, output byte) back to (state, input byte).

Both tables are 256x256.

The model covers the three parts of `src/lib.rs`:

- **Construction** (`spawn`, module `Spawn`). Two pools of all 65536 pairs are drained in lockstep. The random indices are arbitrary in-range choices (`:|`). The loop invariant ties the pools to the slots already written. On exit, the two tables are inverse bijections.
- **Key codec** (`to_bytes` / `from_bytes`, module `Codec`). The key is one start byte, then the forward table in row-major order, two bytes per entry. Saving is modelled push by push. Loading is modelled read by read, as a cursor over the key: one read for the start byte, then two per entry, each read failing when the key is exhausted. Each entry is mirrored into the inverse as it is read. When two entries have the same target, the later one overwrites the earlier one.
- **Cipher walk** (`encrypt` / `decrypt`, module `Cipher`). `encrypt` walks the forward table from `start` and appends the final state. `decrypt` walks the inverse table back to front, starting from that trailing byte.

Module `Tables` holds the data model:

- `byte` is a `u8`;
- `Table` is a 256x256 `seq<seq<(byte, byte)>>`;
- `Consistent` means `inverse[states[s][i]] == (s, i)` for every `s` and `i`;
- `Bijective` adds the converse law.

Module `Counting` holds the pigeonhole principle over integer sequences. `Tables.ConsistentIsBijective` uses it to show that consistency alone already forces a bijection.

Randomness is modelled by arbitrary in-range choices (`:|`): `spawn` may pick any start state and any in-range indices, and every such choice yields a bijective transducer. File reads and writes are outside the model. The functions here are what runs between "read all bytes" and "write all bytes".

`decrypt` has a `None => return Err(())` arm for an empty ciphertext (src/lib.rs:123-127), and its comment says an empty input is not expected; so an empty ciphertext is meant to return `Err(())`. The model follows what the code does instead: `decrypt` computes the `usize` capacity `message.len() - 1` (src/lib.rs:120) before that check, so an empty input panics and the `Err(())` arm is never reached. `Decrypt` therefore requires a non-empty ciphertext. `DecryptAsWritten` models the panic, and `DecryptChecked` is the intended behaviour (see Findings).

## Model

| member | source | states |
|---|---|---|
| Spawn.AllPairs | src/lib.rs:26-34 | the pool holds all 65536 (state, byte) pairs, each once, in row-major order (entry k is the pair at position k) |
| Spawn.Remove | src/lib.rs:47-48 | `Vec::remove` at index `a` shortens the pool by one; on a pool without repetitions, it keeps the pool free of repetitions and removes exactly the pair at `a` |
| Spawn.LinkStep | src/lib.rs:40-52 | one round keeps the loop invariant: every pair already taken from one pool is linked to a pair already taken from the other, and that pair is linked back to it |
| Spawn.LogStep | src/lib.rs:47-51 | a round writes a slot and a target that no earlier round wrote, so every earlier round's pair of writes survives it |
| Spawn.DrainStep | src/lib.rs:40-52 | one round of the loop keeps its whole invariant: the pools stay equal in length and free of repetitions; the logs of taken slots and taken targets are exactly the complements of the two pools; each logged round's writes are still in both tables; taken slots and taken targets stay linked both ways |
| Spawn.Spawn | src/lib.rs:18-55 | whatever in-range indices are drawn, the result is bijective: `inverse[states[p]] == p` and `states[inverse[q]] == q` for all pairs; the ghost logs name, for every round k, the slot and the target it linked, `states[slots[k]] == targets[k]` and `inverse[targets[k]] == slots[k]`, and each log lists every pair exactly once |
| Tables.ConsistentInjective | src/lib.rs:5-12 | if the inverse undoes every forward step, no two (state, input) pairs share a (next state, output) pair |
| Tables.InjectiveSurjective | src/lib.rs:24-25 | an injective 256x256 forward table reaches every (next state, output) pair (pigeonhole) |
| Tables.ConsistentIsBijective | src/lib.rs:9-12 | consistency alone makes forward and inverse mutual inverses |
| Tables.BijectiveExactlyOnce | src/lib.rs:40-52 | in a bijective transducer, every (next state, output) pair is the image of exactly one (state, input) pair, namely its inverse entry |
| Codec.RowBytes | src/lib.rs:63-68 | the bytes pushed for one row are two per entry, the next state at 2j and the output at 2j+1 |
| Codec.KeyBytes | src/lib.rs:59-69 | after the start byte and n rows have been pushed, the length is 1 + 512n, byte 0 is the start state, and entry (s, i) of row s < n sits at bytes 1+2(256s+i) and 2+2(256s+i) |
| Codec.ToBytes | src/lib.rs:57-71 | the key has exactly 131073 bytes; byte 0 is `start`; bytes 1+2(256s+i) and 2+2(256s+i) are the next state and output of `states[s][i]` |
| Codec.Rebuilt | src/lib.rs:77-98 | mirroring the entries in row-major order, starting from an all-(0, 0) inverse, leaves the entry just mirrored in force at its target; `RebuiltLastWriter` characterises the whole table (last writer wins, unreached targets stay (0, 0)) |
| Codec.LoadEntries | src/lib.rs:83-98 | the read loop from entry n, with the cursor at `at`, succeeds exactly when at least two bytes per remaining entry are left; it keeps the entries before n and stores entry n + m from bytes at + 2m and at + 2m + 1; started on the last-writer-wins mirror `Rebuilt` of the first n entries, its inverse ends as the mirror of all of them |
| Codec.LoadStep | src/lib.rs:86-96 | one entry read (two cursor reads, a store and a mirror write) extends what the rest of the loop stores to the loop from entry n |
| Codec.FromBytes | src/lib.rs:73-100 | loading fails exactly when the key is shorter than 131073 bytes, the empty key included; otherwise the start is byte 0, entry (s, i) is read from bytes 1+2(256s+i) and 2+2(256s+i), and the inverse is `Rebuilt` of the forward table read |
| Codec.FromBytesPrefix | src/lib.rs:73-100 | bytes past the first 131073 play no part: a key loads to the same transducer, inverse included, as its first 131073 bytes |
| Codec.RebuiltLastWriter | src/lib.rs:83-98 | after mirroring n entries, the inverse entry of a reached target is a preimage of it that comes at or after every preimage read so far (last writer wins); an unreached target keeps (0, 0) |
| Codec.RebuiltConsistentIffInjective | src/lib.rs:83-98 | the rebuilt inverse is consistent with the forward table if and only if the forward table is injective |
| Codec.FromBytesConsistentIffInjective | src/lib.rs:73-100 | a loaded key is consistent if and only if its forward table is injective |
| Codec.RebuiltOfConsistent | src/lib.rs:76-98 | for a consistent transducer, the inverse rebuilt from its forward table equals its own inverse table |
| Codec.ToBytesFromBytes | src/lib.rs:57-100 | loading a saved key succeeds with the same start and forward table, and the inverse is rebuilt from the forward table |
| Codec.ToBytesFromBytesConsistent | src/lib.rs:57-100 | for a consistent transducer, loading what was saved gives back the identical transducer, inverse included |
| Codec.FromBytesToBytes | src/lib.rs:57-100 | saving a loaded key reproduces the first 131073 bytes it was loaded from |
| Cipher.Run | src/lib.rs:105-113 | the encryption loop pushes exactly one byte per consumed input byte |
| Cipher.RunShape | src/lib.rs:105-113 | the loop's state is the state reached after all of `m`, and its k-th pushed byte is the output of the k-th forward step |
| Cipher.Encrypt | src/lib.rs:102-116 | the ciphertext is one byte longer than the message, and the empty message encrypts to `[start]` |
| Cipher.EncryptShape | src/lib.rs:102-116 | byte k of `encrypt(m)` is the output of the k-th forward step from `start`; the last byte is the state reached after all of `m` |
| Cipher.Unwind | src/lib.rs:128-134 | the backward walk recovers one byte per ciphertext byte it consumes |
| Cipher.Decrypt | src/lib.rs:118-136 | a non-empty ciphertext decrypts to exactly one byte fewer |
| Cipher.UnwindShape | src/lib.rs:128-134 | byte k of the backward walk is the input stored in the inverse entry for (decode state after bytes k+1.., c[k]) |
| Cipher.DecryptShape | src/lib.rs:118-136 | byte k of `decrypt(c)` is the input stored in the inverse entry for the state reached by walking back from the trailing byte to k+1, and c[k] |
| Cipher.UnwindRun | src/lib.rs:102-136 | for a consistent transducer, walking back over what the forward walk emitted returns the input and ends in the state the forward walk started from |
| Cipher.DecryptEncrypt | src/lib.rs:102-136 | for a consistent transducer, `decrypt(encrypt(m)) == m` for every `m`, the empty one included |
| Cipher.RunUnwind | src/lib.rs:102-136 | when the forward table undoes every inverse step, replaying forward what the backward walk recovered re-emits the ciphertext |
| Cipher.EncryptImage | src/lib.rs:102-136 | for a consistent transducer, a byte string is a ciphertext if and only if it is non-empty and its backward walk ends in `start`; on those, `encrypt(decrypt(c)) == c` |
| Cipher.Example | src/lib.rs:102-136 | for a consistent transducer with `start = 5` and `states[5][65] = (9, 200)`: `encrypt([65]) == [200, 9]`, `decrypt([200, 9]) == [65]`, and `decrypt([start]) == []` |
| Cipher.UsizeSub | src/lib.rs:120 | the whole of line 120, subtraction plus `Vec::with_capacity`, panics exactly when the length is below 1: with overflow checks the subtraction underflows, without them the wrapped `usize::MAX` capacity overflows; otherwise it yields `len - 1` |
| Cipher.DecryptAsWritten | src/lib.rs:118-136 | as written, `decrypt` panics exactly on the empty ciphertext and never returns `Err` |
| Cipher.EmptyCiphertext | src/lib.rs:118-127 | on the empty ciphertext, the code as written panics, while the intended check returns `Err` |
| Cipher.DecryptChecked | src/lib.rs:118-136 | with the emptiness check moved first, decryption fails exactly on the empty ciphertext and otherwise returns one byte fewer |
| Cipher.DecryptCheckedEncrypt | src/lib.rs:102-136 | the checked decryption inverts encryption and rejects the empty ciphertext |

## Left out

- `encrypt_file`, `decrypt_file`, `save_transducer`, `load_transducer` (src/lib.rs:138-202): these open, read and overwrite files. They add nothing beyond "read bytes, apply `Encrypt` / `Decrypt` / `ToBytes` / `FromBytes`, write bytes", and their failures are I/O errors.
- src/main.rs: argument counting, flag dispatch and printing. This is command-line glue.
- The random source (`thread_rng`, `Uniform`) in `spawn`: the start state and the two pool indices are arbitrary in-range choices. Uniformity and cryptographic strength are not stated.
- `Vec::with_capacity` hints and the cost of `remove` and `insert(0, …)`: these affect performance only. The one capacity computation that changes behaviour, `message.len() - 1`, is modelled by `UsizeSub`.
- Cipher.Decrypt: requires a non-empty ciphertext, because the code panics on an empty one (see `DecryptAsWritten`) instead of returning the `Err(())` its `None` arm (src/lib.rs:124-127) provides for that case.

## Findings

| source | as written | input that shows it | evidently intended | confidence | as-written member | corrected member |
|---|---|---|---|---|---|---|
| src/lib.rs:120-127 | `Vec::with_capacity(message.len() - 1)` runs before the `None => return Err(())` check. On an empty message the `usize` subtraction underflows and panics (in a release build the wrapped capacity overflows and panics), so the `Err` branch is dead | `decrypt(&vec![])` | an empty ciphertext returns `Err(())` | high, not executed | Cipher.DecryptAsWritten | Cipher.DecryptChecked |
