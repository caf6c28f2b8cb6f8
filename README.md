# Merkle-FssAgg log: a Dafny model of the log store and the FssAgg MAC chain

This project models the in-memory core of a tamper-evident, append-only log:

- **The forward-secure aggregate MAC chain** (`FssAggMAC.js`), module `FssAgg`.
  An `FssAggMAC` object holds a current secret, an aggregate MAC string and an
  evolvement counter. `aSig(m)` folds `HMAC(secret, m)` into the aggregate as
  `SHA256(HMAC(secret, m) + aggregate)`, then replaces the secret by `SHA256(secret)`
  and counts one evolvement. `verifyFssAggMAC` replays that fold from an initial
  secret and an optional starting MAC. `evolveKey` applies the key update k times.
  The object is a Dafny `class` whose ghost fields record the initial secret and the
  absorbed messages. `Valid()` ties its fields to the recursive specification
  `Replay`, and the two loops are methods proved against `Replay` and `Evolve`.
- **The log store** (`Log.js`), module `MerkleLog`. `Log` is a class whose
  entry list `dataStorage` stays index-aligned with the tree's leaf list `leaves`
  (leaf `i` is `SHA256(dataStorage[i])`). The Merkle tree is modelled by its leaves
  alone. Its root and its proofs are the uninterpreted functions of `MerkleTree`.

Hashing is uninterpreted. `Crypto.Hashes` carries `sha256` and `hmacSha256` as
function values, so every result holds for any hash functions. JavaScript string
`+` is sequence concatenation. `undefined` is `Js.Option.None`. `Array.prototype.slice`
is modelled in full (`Js.Slice`): negative arguments count from the end, and both
bounds are clamped.

Behaviour of the code that the model keeps:
- `addEntryAndGetProof` looks up its proof by the new entry's leaf hash
  (`getProofByEntry`, Log.js:84), so a repeated entry shares its leaf with an
  earlier copy (`RepeatedEntrySharesLeaf`).
- `getEntry` answers `undefined` (`None`) outside the storage; no operation raises
  an error. The tree library's value for an out-of-range `getLeaf` is abstracted to
  `None` as well (see "## Left out").
- `startingMAC ? startingMAC : ''` (FssAggMAC.js:50) treats an empty starting MAC
  like none. `StartingMac` models that truthiness test, and its contract shows the
  two cases coincide.

## Model

| member | source | states |
|---|---|---|
| `FssAgg.FssAggMAC.constructor` | FssAggMAC.js:5-9 | a fresh object holds `secretKey` as secret, the empty aggregate and zero evolvements, with no message absorbed |
| `FssAgg.FssAggMAC.ASig` | FssAggMAC.js:14-22 | the new aggregate is `SHA256(HMAC(oldSecret, m) + oldAggregate)` under the secret held before the key update; the new secret is `SHA256(oldSecret)`; the counter grows by exactly one; the absorbed list gains `m` at its end; the replay invariant is kept |
| `FssAgg.FssAggMAC.GetMAC` | FssAggMAC.js:28-30 | the aggregate equals the replay of every absorbed message from the initial secret, so `verifyFssAggMAC` accepts it for those messages with no starting MAC |
| `FssAgg.FssAggMAC.GetNumEvolvements` | FssAggMAC.js:36-38 | the counter is the number of absorbed messages, and the current secret is the initial secret evolved that many times |
| `FssAgg.VerifyFssAggMAC` | FssAggMAC.js:49-65 | returns true exactly when replaying the messages in order, from the initial secret and the starting MAC (or `''`), ends on the claimed MAC |
| `FssAgg.EvolveKey` | FssAggMAC.js:74-80 | returns the secret hashed `numEvolvements` times, or unchanged when the count is not positive |
| `FssAgg.StartingMac` | FssAggMAC.js:46-50 | a replay starts from the given starting MAC, and from `''` when none is given, an empty one included |
| `FssAgg.EvolveCompose` | FssAggMAC.js:74-80 | zero evolutions leave the secret unchanged; evolving `a+b` times equals evolving `a` times and then `b` times |
| `FssAgg.ReplaySecret` | FssAggMAC.js:52-59 | after replaying `k` messages the secret is the starting secret evolved `k` times, whatever the messages |
| `FssAgg.ReplayAppend` | FssAggMAC.js:49-59 | replaying `a ++ b` equals replaying `a` and continuing from that state with `b` |
| `FssAgg.VerifyEmpty` | FssAggMAC.js:49-64 | with no messages, verification holds iff the claimed MAC equals the given starting MAC, or `''` when none is given |
| `FssAgg.VerifySuffix` | FssAggMAC.js:41-65 | the aggregate over `a ++ b` verifies `b` alone from `evolveKey(sk0, a.length)` and the aggregate reached after `a` |
| `FssAgg.SignThenVerify` | FssAggMAC.js:5-65 | completeness: an object built with `sk0` that absorbs `m1..mk` by `aSig` yields a MAC accepted by `verifyFssAggMAC(getMAC(), [m1..mk], sk0)`, with counter `k` |
| `FssAgg.SignThenVerifySuffix` | FssAggMAC.js:14-80 | after `aSig` over `a` then `b`, the final MAC verifies `b` from `evolveKey(sk0, a.length)` and the MAC read after `a` |
| `MerkleLog.LeafHashes` | Log.js:15-17 | the leaf list built by one `addLeaf(SHA256(e))` per entry has one leaf per entry |
| `MerkleLog.LeafHashesAt` | Log.js:15-17 | leaf `i` is `SHA256` of entry `i`, for every index |
| `MerkleLog.RepeatedEntrySharesLeaf` | Log.js:26-29 | two stored copies of one entry have the same leaf, so a lookup by leaf hash cannot tell their indices apart |
| `MerkleLog.Log.constructor` | Log.js:5-8 | a new log has no leaves and no entries, and the alignment invariant holds |
| `MerkleLog.Log.AddEntry` | Log.js:15-19 | the entry list grows by `entry` at the end and the leaf list by `SHA256(entry)`, earlier ones unchanged; the alignment invariant is kept; the returned root is the root of the new leaves and what `getRoot()` then returns |
| `MerkleLog.Log.GetProofByEntry` | Log.js:26-29 | the proof is requested by the leaf hash `SHA256(entry)` with no index; that hash is the leaf of every stored copy of `entry` |
| `MerkleLog.Log.GetProofByIndex` | Log.js:36-39 | the proof is requested for index `i` and for the leaf at `i`, which is `SHA256` of entry `i` (or no leaf out of range); state is read only |
| `MerkleLog.Log.GetEntry` | Log.js:46-48 | returns entry `i` exactly when `0 <= i < n`, `undefined` otherwise; a returned entry hashes to leaf `i`, and there is a leaf at `i` exactly when there is an entry |
| `MerkleLog.Log.GetEntries` | Log.js:56-58 | returns `dataStorage.slice(start, end)`: the end-exclusive range `[start, end)` for in-range bounds, `[start..]` when the end is omitted |
| `MerkleLog.Log.GetLeaf` | Log.js:65-67 | a leaf exists exactly for `0 <= i < n`, and it is `SHA256(dataStorage[i])` |
| `MerkleLog.Log.GetRoot` | Log.js:73-75 | the root is the tree root of the leaf hashes of the stored entries, a function of the entries alone |
| `MerkleLog.Log.AddEntryAndGetProof` | Log.js:82-86 | same new state as `addEntry`; returns the root `addEntry` returned, which is `getRoot()` afterwards, and the proof `getProofByEntry(entry)` gives, looked up by the new rightmost leaf's hash |
| `Js.Slice` | Log.js:56-58 | `Array.prototype.slice(start, end)` on integer arguments: each bound is made relative (a negative one counts back from the length, then clamped to `0..length`), an omitted end is the length, and the result has `to - from` elements (none when the end does not exceed the start), element `k` being the array's element `from + k`; it never has more elements than the array |
| `Js.SliceNonNegative` | Log.js:50-58 | for non-negative bounds, `slice` returns `a[from..to)` with both bounds clamped to the length, and nothing when the end precedes the start |
| `Js.SliceToEnd` | Log.js:50-58 | with the end omitted, `slice(s)` returns `a[s..]`, or nothing when `s` is past the end |
| `Js.SliceSplit` | Log.js:50-58 | `slice(s, m) ++ slice(m, e) == slice(s, e)` for non-negative `s <= m <= e` |
| `Js.SliceOfPrefix` | Log.js:56-58 | a range within the entries stored so far reads the same after further appends |
| `Js.SliceExample` | Log.js:50-58 | for five entries, `getEntries(1, 3)` returns the entries at 1 and 2, and `getEntries(2)` those at 2, 3 and 4 |

## Left out

- SHA-256, HMAC-SHA-256 (RFC 2104) and hex encoding are uninterpreted functions. Nothing is claimed about collision resistance, one-wayness (forward security), or the aggregate's sensitivity to message order. Those hold only up to the hash function's strength.
- The internals of the `merkletreejs` library are not modelled: its pairing rule for odd levels, how `getProof` picks among duplicate leaves, proof layout and verification. `MerkleTree.root` and `MerkleTree.proof` stay abstract. The library's value for an out-of-range `getLeaf` is modelled as `undefined`.
- `MerkleLog.Log.GetEntries`: index arguments are integers. The coercion of query-string or non-integer arguments that `Array.prototype.slice` would apply is not modelled.
- `FssAgg.EvolveKey`: the count is an integer. The conversion of a string or fractional count by the loop test `index < numEvolvements` (a count of 2.5 runs three times) is not modelled.
- `MerkleLog.Log.GetLeaf`: the index is an integer. The tree library receives the HTTP query string unchanged from its caller, and its coercion of that string is not modelled.
- `MerkleLog.Log.GetProofByIndex`: the index is an integer. The query string its caller passes is handed unchanged to the tree library, and that coercion is not modelled.
- `MerkleLog.Log.GetEntry`: indices are integers. Property lookup by non-integer keys is not modelled.
- Commitments, signing keys, `initFssAggMAC`, `getFssAggMAC`, `computeCommitment` and `numEntries` are referenced by callers but are not defined in `Log.js`. They are not part of this model.
- `index.js` (HTTP routes, request parsing, console logging, `app.listen`) is network plumbing and is not part of this model.
- `Client.js` is not part of this model: its HTTP calls, its signature check over `crypto.createVerify`, its JSON proof parsing and `merkletreejs` verification. Its `verifyFssAggMAC` only delegates to `FssAgg.VerifyFssAggMAC`.
- The benchmarking scripts (`performance_*.js`) are not part of this model. They are built on timing, random indices and floating-point averages.
