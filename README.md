# CASPaxos node for a linearizable key/value workload: verified model

This project models the two pieces of the `cas-paxos` node that carry logic:

- **`KeyValueStore`** (`src/kv_store.rs`), the state machine that replicated
  values are applied to: a finite map from `usize` keys to `usize` values with
  `read`, unconditional `write` and compare-and-swap `cas`, plus its wire
  conversions, which send keys out as decimal strings and parse them back
  with `usize::from_str`.
- **The acceptor side of `CASPaxos::handle`** (`src/cas_paxos.rs`): the node
  keeps a single highest known ballot number (a plain `usize`) for one Paxos
  instance that covers the whole store. It answers `init` with `init_ok`.
  It refuses a `propose` whose ballot is strictly below the highest with a
  `precondition-failed` error. Any other ballot replaces the highest and is
  answered with a `promise` carrying the previous highest ballot and a
  snapshot of the store. `propose` switches the node to the proposer role.

Files:

- `common.dfy` (module `Common`): `Usize` (Rust's `usize` on a 64-bit
  target), `Option`, and the protocol's `ErrorCode`.
- `decimal.dfy` (module `Decimal`): how a `usize` is printed (`Encode`) and how
  `usize::from_str` parses (`ParseUsize`), with the round trips between them.
- `kv_store.dfy` (module `KvStore`): class `KeyValueStore`. The Rust struct's
  `map` field is the Dafny field `entries`, which `Write` and `Cas` reassign.
  `Serialize` is a loop over the keys. `DecodeEntries` and `Deserialize`
  model the key-parsing `map`/`collect` chain.
- `cas_paxos.dfy` (module `Paxos`): the message and body datatypes,
  the phase-1 rule `Prepare` as a function, lemmas about runs of `propose`
  messages, and class `CasPaxos` with fields `highest`, `role` and `store`.
  `Handle` returns the reply instead of sending it.

Facts about the code that the model keeps as they are:

- One Paxos instance covers the whole store, not one per key. The code comment at
  src/cas_paxos.rs:17-21 names the per-key form (section 2.3.3 of the CASPaxos
  paper) as an optimisation it has not done.
- Ballots are plain `usize` numbers, not (counter, node id) pairs.
- The test is `ballot < highest`, so an equal ballot is promised again.
- `cas` on an absent key fails with `KeyDoesNotExist`; there is no "no value" sentinel to compare against.
- A CAS mismatch is reported as `PreconditionFailed` and carries no current value.

## Model

| member | source | states |
|---|---|---|
| `KvStore.KeyValueStore.NewWithInner` | src/kv_store.rs:21-23 | the new store holds exactly the given map |
| `KvStore.KeyValueStore.IsEmpty` | src/kv_store.rs:25-27 | true exactly when the map has no entries |
| `KvStore.KeyValueStore.Read` | src/kv_store.rs:29-31 | `None` exactly for keys not in the map; otherwise the stored value |
| `KvStore.KeyValueStore.Write` | src/kv_store.rs:33-35 | afterwards `read(key)` is `Some(value)`, and every other key reads as before |
| `KvStore.KeyValueStore.Cas` | src/kv_store.rs:37-50 | absent key: `KeyDoesNotExist`, map unchanged; current value differs from `from`: `PreconditionFailed`, map unchanged; current value is `from`: `Ok`, only `key` changes, to `to`; `Ok` exactly when the current value is `from`; the key set never changes |
| `KvStore.KeyValueStore.Serialize` | src/kv_store.rs:69-79 | emits every entry exactly once (as many entries as the map has, in some walk order). Each key is emitted as its decimal string with its value. The key strings are pairwise distinct, and decoding the output gives the map back |
| `KvStore.DecodeEntries` | src/kv_store.rs:58-63 | decoding succeeds exactly when every incoming key string parses as a `usize` (otherwise the source panics in `unwrap`) |
| `KvStore.Deserialize` | src/kv_store.rs:53-66 | a non-numeric key gives no store; otherwise a new store wrapping the decoded map |
| `KvStore.EntriesForShape` | src/kv_store.rs:75-77 | the i-th emitted entry is the i-th walked key, printed, paired with its value |
| `KvStore.DecodeEntriesFor` | src/kv_store.rs:59-63 | decoding the entries emitted for some keys gives the map restricted to those keys |
| `KvStore.DecodeListing` | src/kv_store.rs:59-63 | decoding the entries emitted for a walk over all keys gives the original map |
| `KvStore.DecodeKeepsLast` | src/kv_store.rs:59-63 | every incoming entry that no later entry with an equal parsed key overrides keeps its value in the decoded map |
| `KvStore.DecodeKeysFromIncoming` | src/kv_store.rs:59-63 | every key of a decoded store is the parse of some incoming key string, so decoding adds no other key |
| `KvStore.CollidingKeysMerge` | src/kv_store.rs:62-63 | the strings "7" and "07" both decode to key 7, and the later entry's value wins |
| `Decimal.Encode` | src/kv_store.rs:76 | a printed key is a canonical numeral (digits only, no leading zero), and it is "0" exactly for 0 |
| `Decimal.EncodeValue` | src/kv_store.rs:76 | the digits printed for `n` denote `n` |
| `Decimal.ParseEncode` | src/kv_store.rs:62 | `usize::from_str` on a printed key gives the key back |
| `Decimal.EncodeInjective` | src/kv_store.rs:75-76 | distinct keys print as distinct strings |
| `Decimal.EncodeDigitsValue` | src/kv_store.rs:62 | printing the value of a canonical numeral gives the numeral back |
| `Decimal.ParseCanonical` | src/kv_store.rs:62 | on canonical numerals, a string parses to `n` exactly when it is `n` printed |
| `Decimal.ParseAcceptsNonCanonical` | src/kv_store.rs:62 | `usize::from_str` also accepts "+7" and "007" (both give 7), and rejects "", "+" and "-7" |
| `Paxos.Prepare` | src/cas_paxos.rs:77-105 | the new highest ballot is the larger of the old one and the proposed one. The reply is a promise exactly when the proposed ballot is at least the highest; a promise carries the previous highest and the store's contents. A refusal is a `PreconditionFailed` error in reply to the message's id |
| `Paxos.HighestAfterBounds` | src/cas_paxos.rs:81-97 | over any run of `propose` messages the highest ballot never decreases and ends at least as large as every ballot of the run |
| `Paxos.HighestAfterIsMax` | src/cas_paxos.rs:81-97 | the highest ballot after a run is the starting value or one of the run's ballots (with the bounds: their maximum) |
| `Paxos.HighestAfterConcat` | src/cas_paxos.rs:81-97 | running two batches of `propose` messages one after the other is the same as running their concatenation |
| `Paxos.PromiseIsKept` | src/cas_paxos.rs:81-97 | once a ballot has been promised, every later ballot below it is refused |
| `Paxos.CasPaxos.constructor` | src/cas_paxos.rs:31-38 | a new node is an acceptor with highest known ballot 0 and an empty store |
| `Paxos.CasPaxos.Handle` | src/cas_paxos.rs:55-117 | `init` is answered with `init_ok` in reply to its id, sent to its source, with no state change. `propose` moves the highest ballot and replies as `Prepare` says. The unwritten arms change nothing. The role and the store are never touched and the highest ballot never decreases. Acknowledgements may not be delivered |
| `Paxos.CasPaxos.Propose` | src/cas_paxos.rs:119-123 | the role becomes `Proposer(op)` whatever it was, and nothing else changes |

## Left out

- `src/main.rs` (logging setup and the runtime entry point) has no logic and is not modelled.
- The event loop and the one-task-per-message spawning in `CASPaxos::run` (src/cas_paxos.rs:40-53) are not modelled. `Handle` is a sequential method, so the model says nothing about handlers racing.
- The atomic and mutex semantics are not modelled. Both are plain fields here, and the two separate loads of the highest ballot (src/cas_paxos.rs:78-81) read the same value.
- `Node::send`, `Node::run` and the `message` module are not part of this model. `Handle` returns the reply and its destination instead of sending them. The body fields the code does not touch are assumptions: the `init` fields, and `read_ok` carrying a value. So is the message id type (`Option<usize>`).
- The `value` field of the `Promise` body is named `snapshot` here. In Dafny two constructors cannot share a field name with different types, and `Write` already has a `value` field.
- The numeric codes of the error kinds live in the `message` module, which is not part of this model. Only the two kinds the core produces are modelled.
- Every `todo!()` arm (`Read`, `Write`, `Cas`, `Proxy`, `Promise`, `Error`) has no behaviour. `Handle` answers them with `Unimplemented` and changes nothing. The model does not capture that the source task panics there.
- `Paxos.CasPaxos.Propose`: models only the role switch. The broadcast after it is `todo!()`, and so are the bodies of `promise` and `accept`.
- The serde `Serializer`/`Deserializer` machinery and the JSON text are left out. Only the key encoding is modelled: a `usize` printed in decimal, and parsed back with `usize::from_str`. The incoming map is a sequence of (key string, value) entries in the order the hash map yields them. A value that does not fit in a `usize` fails in serde before this code runs, so it is not modelled.
- `KvStore.Deserialize`: a panic is modelled as `None`, because the model has no panics.
- The error text's `format!` is modelled as a fixed prefix followed by the decimal form of the highest ballot. This is exact for ASCII, and no other formatting is modelled.
- `usize` is taken to be 64 bits wide. This bound matters only for `usize::from_str` overflow.
