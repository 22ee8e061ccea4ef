# A verified model of the client-mining blockchain node

This project models the core of `client_mining_p/blockchain.py`. That file holds a
proof-of-work ledger, the `Blockchain` class, plus the decision logic of its
`/mine/` request handler. Clients mine a proof for the current last block and submit
it. The node checks the proof and, if it passes, appends a block that links to the
hash of the previous last block.

The project has four files:

- `wrappers.dfy`, module `Wrappers`: an `Option` type.
- `encoding.dfy`, module `Encoding`: the three text encodings the ledger relies on.
  - `Utf8` is Python's `str.encode()`.
  - `Decimal` is `str(int)`.
  - `BytesRepr` is what an f-string prints for a `bytes` object (`b'…'`, following
    CPython's quoting and escaping rules).

  Each encoding has a reader (`Utf8Decode`, `ParseDecimal`, `ParseBytesLiteral`) and a
  round-trip lemma. The readers are reference definitions, not code of the node. They
  only serve to state that the encodings lose nothing.
- `ledger.dfy`, module `Ledger`: the ledger as values.
  - `Block` is the block dictionary.
  - `Library` holds the two foreign calls, SHA-256 hex digest and
    `json.dumps(…, sort_keys=True)`, as function-valued fields. Every property holds
    for every choice of these functions.
  - `Library.Hash` is `Blockchain.hash`. `Library.ValidProof` is `valid_proof`, with
    `DIFFICULTY = 6`.
  - `AddBlock` is the state change made by `new_block`. `Submit` is the handler's
    decision and state change. The invariants are `WellFormed` (genesis first, index
    equals position) and `Linked` (each block records the hash of its predecessor).
- `blockchain.dfy`, module `Node`: the class `Blockchain`.
  - Its fields `chain` and `currentTransactions` are updated in place by the
    constructor, `NewBlock` and `Mine`.
  - `ProofOfWork` is the `while` loop of `proof_of_work`.
  - Each method's postcondition ties the new state to the value-level functions of
    `Ledger`.

The source has two quirks, and the model keeps both:

- `proof_of_work` ignores its `block` argument. It always mines against the JSON text
  of `last_block`, written `Library.MiningChallenge`.
- The handler encodes the JSON text to bytes before passing it to `valid_proof`. The
  f-string there therefore formats the bytes object as `b'…'`
  (`Library.SubmissionChallenge`). So the handler checks a proof against a different
  string than `proof_of_work` mines against. `ChallengesDiffer` proves that the two
  guess texts always differ.

A proof that `proof_of_work` returns therefore passes the handler only if its other
digest also passes. The model keeps this.

The source has no operation that adds a transaction; that route is commented out. The
pending list is therefore empty whenever the source runs. The model still keeps it
general, so that it can state that transactions are moved into blocks.

## Model

| member | source | states |
|---|---|---|
| `Encoding.Utf8` | client_mining_p/blockchain.py:70 | `.encode()` turns each character into one to four bytes, so the byte length is between the string length and four times it |
| `Encoding.Utf8RoundTrip` | client_mining_p/blockchain.py:70 | decoding the UTF-8 bytes of any string gives the string back, so the bytes that are hashed determine the text |
| `Encoding.Utf8Append` | client_mining_p/blockchain.py:117 | encoding the guess `block_string + str(proof)` is encoding the block string followed by encoding the proof text |
| `Encoding.NatDecimal` | client_mining_p/blockchain.py:117 | the decimal text of a natural number is non-empty, all digits, and starts with `0` only for zero (no padding) |
| `Encoding.Decimal` | client_mining_p/blockchain.py:117 | `str(proof)` is non-empty and starts with a minus sign exactly when the proof is negative; the rest is all digits (the whole text for a non-negative proof). `DecimalRoundTrip` states that it can be read back |
| `Encoding.DecimalRoundTrip` | client_mining_p/blockchain.py:117 | reading back `str(proof)` gives the proof, for negative proofs too, so distinct proofs give distinct guesses |
| `Encoding.BytesRepr` | client_mining_p/blockchain.py:162 | the printed form of the encoded block string starts with `b` and a quote, ends with that quote, and is at least three characters longer than the bytes |
| `Encoding.BytesReprRoundTrip` | client_mining_p/blockchain.py:162 | reading the printed form of any bytes object as a bytes literal gives the same bytes |
| `Ledger.Library.Hash` | client_mining_p/blockchain.py:52-82 | no contract of its own: `hash(block)` is defined as `sha256Hex(Utf8(dumps(block)))`, and SHA-256 and `json.dumps` are left uninterpreted. `AddBlockLinks` and `SubmitAllOrNothing` state how the handler uses it to link blocks |
| `Ledger.Library.MiningChallenge` | client_mining_p/blockchain.py:97 | no contract of its own: the string `proof_of_work` mines against is the JSON text of the last block. `ChallengesDiffer` states how it relates to the handler's string |
| `Ledger.Library.SubmissionChallenge` | client_mining_p/blockchain.py:162 | as an f-string formats it, the encoded JSON text prints as `b`, a quote, and at least three characters more than the JSON text |
| `Ledger.Library.ValidProof` | client_mining_p/blockchain.py:105-120 | a valid proof's guess digest has at least `DIFFICULTY` characters. `ValidProofMeaning` states the full test, in both directions |
| `Ledger.ValidProofMeaning` | client_mining_p/blockchain.py:105-120 | `valid_proof(s, p)` holds exactly when the digest of `f'{s}{p}'.encode()` has at least `DIFFICULTY` (6) characters and the first 6 are all `'0'`; it depends only on `s`, `p` and the hash function |
| `Ledger.ChallengesDiffer` | client_mining_p/blockchain.py:97-99 | the string the handler checks a proof against (the repr of the encoded JSON) is never the JSON text `proof_of_work` mines against, nor is the guess text for any proof |
| `Ledger.AddBlock` | client_mining_p/blockchain.py:20-50 | `new_block` grows the chain by exactly one block and leaves earlier blocks as they were; the new block has index old length + 1, the given proof and the old pending transactions; pending becomes empty; the link is `previous_hash` when it is truthy, otherwise the hash of the old last block |
| `Ledger.Initial` | client_mining_p/blockchain.py:13-18 | a fresh ledger holds exactly one block: index 1, no transactions, proof 100, previous hash `"genesis_block"`; nothing is pending; the chain is well-formed and linked |
| `Ledger.AddBlockKeepsWellFormed` | client_mining_p/blockchain.py:37-48 | appending keeps the genesis block first and every block's index equal to its 1-based position |
| `Ledger.AddBlockLinks` | client_mining_p/blockchain.py:42 | after an append the chain is linked exactly when it was linked before and the new block records the hash of the old last block |
| `Ledger.AddBlockMovesTransactions` | client_mining_p/blockchain.py:39-46 | transactions committed to the chain plus those pending are the same before and after an append: moved, not copied or lost |
| `Ledger.Submit` | client_mining_p/blockchain.py:153-180 | a response other than "New Block Forged" leaves chain and pending list exactly as they were; "New Block Forged" means the chain grew by exactly the returned block and nothing is pending. `SubmitAllOrNothing` states when each answer is given |
| `Ledger.SubmitAllOrNothing` | client_mining_p/blockchain.py:158-180 | the handler answers "missing values" exactly when `proof` or `id` is absent; it forges exactly when both are present and the proof is valid against the last block's submission string; a rejection leaves chain and pending unchanged; a success appends exactly one block with that proof, the moved pending transactions and the hash of the old last block |
| `Ledger.SubmitKeepsInvariants` | client_mining_p/blockchain.py:164-166 | every submission keeps a well-formed, linked chain well-formed and linked |
| `Ledger.RejectionsChangeNothing` | client_mining_p/blockchain.py:178-180 | any number of rejected submissions in a row leave the ledger exactly as it was |
| `Ledger.SubmitAllAppendOnly` | client_mining_p/blockchain.py:153-180 | over any sequence of requests the old chain stays a prefix of the new one, and the chain stays well-formed and linked |
| `Node.Blockchain.constructor` | client_mining_p/blockchain.py:13-18 | the constructor produces the initial state through `NewBlock`: the genesis chain, an empty pending list, valid and linked |
| `Node.Blockchain.NewBlock` | client_mining_p/blockchain.py:20-50 | updates `chain` and `currentTransactions` in place to the state `AddBlock` describes, returns the appended block, and keeps the object invariant |
| `Node.Blockchain.LastBlock` | client_mining_p/blockchain.py:84-86 | `last_block` is the final element of the chain; whenever the object invariant `Valid()` holds, its index is the chain length |
| `Node.Blockchain.ProofOfWork` | client_mining_p/blockchain.py:88-102 | the search returns the least non-negative proof that `valid_proof` accepts for the JSON text of the last block, whatever block is passed, and changes nothing |
| `Node.Blockchain.Mine` | client_mining_p/blockchain.py:153-180 | the `/mine/` handler's answer and the new chain and pending list are those of `Submit`; a valid, linked ledger stays valid and linked |

## Left out

- The Flask transport is not modelled: routes, `request.get_json`, `jsonify`, HTTP status codes and `app.run`. The `/last_block` and `/chain` routes only return `LastBlock()` and `chain` with its length.
- A request body that is not a JSON object is not modelled; its outcome depends on the JSON type:
  - `null` or a number: the handler's `in` test raises.
  - A string: `in` is a substring test, so a string without `proof` or `id` gets "missing values".
  - A list holding both names: the test passes and `data['proof']` then raises.
- Submitted values are typed: `proof` is an integer and `id` is a string. JSON can send other types, and the f-string would then print their Python `str`.
- `node_identifier` (`uuid4`) is left out; the core never uses it.
- The `time()` float is modelled as a `real` timestamp parameter. Blocks record the timestamp passed in, but no property depends on its value.
- SHA-256 and `json.dumps` are left uninterpreted as the `Library` fields. Nothing is assumed about them, not even that a hex digest has 64 characters.
- Node.Blockchain.NewBlock: requires a non-empty chain or a truthy `previous_hash`. In the excluded case the source's `self.chain[-1]` raises IndexError, an error path this model does not include. Neither the constructor nor the handler can reach that case.
- Ledger.AddBlock: has the same precondition as `NewBlock`, for the same reason.
- Node.Blockchain.ProofOfWork: the source loops forever when no proof is valid; this model instead requires that some valid proof exists. That existence is the case in which the source returns.
- Encoding.Decimal: Python refuses to print integers of more than 4300 digits by default. The model does not include that limit.
- Python blocks are mutable dictionaries shared between the chain and the value `new_block` returns. The model treats them as immutable values, so aliasing is not captured.
- Concurrent requests on the shared ledger are not modelled. Each operation runs to completion. What is lost: `app.run` (client_mining_p/blockchain.py:212) serves requests on threads. Two valid submissions against the same last block can therefore both append. The second block's `previous_hash` was computed at line 165 from the old last block, so `Linked` no longer holds. The model's guarantee that the chain stays linked holds only when requests run one at a time.
- The commented-out routes in the file are dead code and are not modelled.
- The docstring of `valid_proof` speaks of 3 leading zeroes. The code uses `DIFFICULTY = 6`, and so does the model.
