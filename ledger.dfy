/** The ledger as values: blocks, the difficulty test, the two strings a
    proof is checked against, and the state changes made by `new_block` and
    by the `/mine/` handler, with the invariants they keep.

    SHA-256 and `json.dumps(…, sort_keys=True)` are library calls whose
    insides this model does not look at: they are the two fields of a
    `Library` value, and everything below is stated for every such pair of
    functions. */
module Ledger {
  import opened Wrappers
  import opened Encoding

  /** `DIFFICULTY`: how many leading hex zeros a valid proof's digest has. */
  const Difficulty: nat := 6

  /** The `previous_hash` of the genesis block. */
  const GenesisPreviousHash: string := "genesis_block"

  /** The `proof` of the genesis block. */
  const GenesisProof: int := 100

  /** A block, the dictionary `new_block` builds. The timestamp is the
      value of `time()` when the block was made; nothing depends on it. */
  datatype Block<T> = Block(index: int, timestamp: real, transactions: seq<T>, proof: int, previousHash: string)

  /** A Python value that an f-string may format: a `str`, or a `bytes`
      object, which an f-string writes as its repr `b'…'`. */
  datatype PyText = Str(s: string) | Bytes(b: seq<byte>)

  /** What `f'{t}'` makes of `t`. */
  function FormatText(t: PyText): string
  {
    match t
    case Str(s) => s
    case Bytes(b) => BytesRepr(b)
  }

  /** `"0" * n`. */
  function Zeros(n: nat): (z: string)
    ensures |z| == n && forall i :: 0 <= i < n ==> z[i] == '0'
  {
    seq(n, _ => '0')
  }

  function Min(a: int, b: int): int { if a <= b then a else b }

  /** The library functions the ledger calls: `hashlib.sha256(…).hexdigest()`
      from bytes to a hex string, and `json.dumps(…, sort_keys=True)` from a
      block to its canonical JSON text. */
  datatype Library<!T> = Library(sha256Hex: seq<byte> -> string, dumps: Block<T> -> string)
  {
    /** `Blockchain.hash`: the hex SHA-256 digest of the UTF-8 bytes of the
        block's canonical JSON text. */
    function Hash(b: Block<T>): string
    {
      sha256Hex(Utf8(dumps(b)))
    }

    /** The block string `proof_of_work` searches against: the JSON text. */
    function MiningChallenge(b: Block<T>): PyText
    {
      Str(dumps(b))
    }

    /** The block string the `/mine/` handler checks against: the JSON text
        after `.encode()`, that is, a bytes object. */
    function SubmissionChallenge(b: Block<T>): (t: PyText)
      ensures var text := FormatText(t); |dumps(b)| + 3 <= |text| && text[0] == 'b' && IsQuote(text[1])
    {
      Bytes(Utf8(dumps(b)))
    }

    /** The digest of the guess `f'{blockString}{proof}'.encode()`. */
    function GuessDigest(blockString: PyText, proof: int): string
    {
      sha256Hex(Utf8(FormatText(blockString) + Decimal(proof)))
    }

    /** `valid_proof`: the first `Difficulty` characters of the guess digest
        are `"0" * Difficulty`. */
    predicate ValidProof(blockString: PyText, proof: int)
      ensures ValidProof(blockString, proof) ==> Difficulty <= |GuessDigest(blockString, proof)|
    {
      var digest := GuessDigest(blockString, proof);
      digest[..Min(Difficulty, |digest|)] == Zeros(Difficulty)
    }
  }

  /** A proof is valid exactly when the guess digest has at least
      `Difficulty` characters and each of the first `Difficulty` is `'0'`;
      a digest shorter than that never passes. */
  lemma ValidProofMeaning<T>(lib: Library<T>, blockString: PyText, proof: int)
    ensures var d := lib.GuessDigest(blockString, proof);
            lib.ValidProof(blockString, proof) <==>
              Difficulty <= |d| && forall i :: 0 <= i < Difficulty ==> d[i] == '0'
  {
    var d := lib.GuessDigest(blockString, proof);
    if Difficulty <= |d| && forall i :: 0 <= i < Difficulty ==> d[i] == '0' {
      assert d[..Difficulty] == Zeros(Difficulty);
    }
    if lib.ValidProof(blockString, proof) {
      assert |d[..Min(Difficulty, |d|)]| == Difficulty;
      forall i | 0 <= i < Difficulty ensures d[i] == '0' {
        assert d[..Difficulty][i] == Zeros(Difficulty)[i];
      }
    }
  }

  /** The string the handler checks a proof against is never the string
      `proof_of_work` mines against: the first is the repr of the second's
      UTF-8 bytes, which is at least three characters longer. So the guess
      texts for one proof differ, and a proof found by `proof_of_work` is
      accepted by the handler only if its other digest happens to pass too. */
  lemma ChallengesDiffer<T>(lib: Library<T>, b: Block<T>, proof: int)
    ensures FormatText(lib.SubmissionChallenge(b)) != FormatText(lib.MiningChallenge(b))
    ensures FormatText(lib.SubmissionChallenge(b)) + Decimal(proof)
            != FormatText(lib.MiningChallenge(b)) + Decimal(proof)
  {
    var json := lib.dumps(b);
    assert |json| + 3 <= |Utf8(json)| + 3 <= |BytesRepr(Utf8(json))|;
  }

  /** `p` is what `proof_of_work` returns for `blockString`: it passes the
      test and no smaller non-negative number does. */
  predicate IsLeastValidProof<T>(lib: Library<T>, blockString: PyText, p: nat)
  {
    lib.ValidProof(blockString, p) && forall q: nat :: q < p ==> !lib.ValidProof(blockString, q)
  }

  // ---------------------------------------------------------------------
  // Ledger state

  /** The two fields of a `Blockchain`: `chain` and `current_transactions`. */
  datatype State<T> = State(chain: seq<Block<T>>, pending: seq<T>)

  function Last<T>(s: seq<T>): T
    requires s != []
  {
    s[|s| - 1]
  }

  /** Whether Python treats an optional `previous_hash` argument as true:
      present and not the empty string. */
  predicate Truthy(previousHash: Option<string>)
  {
    previousHash.Some? && previousHash.value != ""
  }

  /** Every block's index is its 1-based position: no gaps, no repeats. */
  predicate IndexedByPosition<T>(chain: seq<Block<T>>)
  {
    forall i :: 0 <= i < |chain| ==> chain[i].index == i + 1
  }

  predicate IsGenesis<T>(b: Block<T>)
  {
    b.index == 1 && b.previousHash == GenesisPreviousHash && b.proof == GenesisProof && b.transactions == []
  }

  /** The shape every reachable chain has: it is not empty, starts with the
      genesis block and is indexed by position. */
  predicate WellFormed<T>(chain: seq<Block<T>>)
  {
    chain != [] && IsGenesis(chain[0]) && IndexedByPosition(chain)
  }

  /** Each block after the first records the hash of the block before it. */
  predicate Linked<T>(lib: Library<T>, chain: seq<Block<T>>)
  {
    forall i :: 0 < i < |chain| ==> chain[i].previousHash == lib.Hash(chain[i - 1])
  }

  /** All transactions committed to the chain, block after block. */
  function Committed<T>(chain: seq<Block<T>>): seq<T>
  {
    if chain == [] then [] else Committed(chain[..|chain| - 1]) + Last(chain).transactions
  }

  /** `new_block(proof, previous_hash)`: append a block holding the pending
      transactions and link it to `previousHash`, or to the hash of the
      current last block when `previousHash` is absent or empty; then empty
      the pending list. */
  function AddBlock<T>(lib: Library<T>, st: State<T>, proof: int, previousHash: Option<string>, timestamp: real): (r: State<T>)
    requires st.chain != [] || Truthy(previousHash)
    ensures |r.chain| == |st.chain| + 1 && r.chain[..|st.chain|] == st.chain
    ensures Last(r.chain).index == |st.chain| + 1 && Last(r.chain).proof == proof
    ensures Last(r.chain).transactions == st.pending && r.pending == []
    ensures Truthy(previousHash) ==> Last(r.chain).previousHash == previousHash.value
    ensures !Truthy(previousHash) ==> Last(r.chain).previousHash == lib.Hash(Last(st.chain))
  {
    var link := if Truthy(previousHash) then previousHash.value else lib.Hash(Last(st.chain));
    State(st.chain + [Block(|st.chain| + 1, timestamp, st.pending, proof, link)], [])
  }

  /** The state `Blockchain()` builds: one genesis block, nothing pending. */
  function Initial<T>(lib: Library<T>, timestamp: real): (st: State<T>)
    ensures st.chain == [Block(1, timestamp, [], GenesisProof, GenesisPreviousHash)] && st.pending == []
    ensures WellFormed(st.chain) && Linked(lib, st.chain)
  {
    AddBlock(lib, State([], []), GenesisProof, Some(GenesisPreviousHash), timestamp)
  }

  lemma AddBlockKeepsWellFormed<T>(lib: Library<T>, st: State<T>, proof: int, previousHash: Option<string>, timestamp: real)
    requires WellFormed(st.chain)
    ensures WellFormed(AddBlock(lib, st, proof, previousHash, timestamp).chain)
  {
    var r := AddBlock(lib, st, proof, previousHash, timestamp);
    assert r.chain[0] == st.chain[0];
    forall i | 0 <= i < |r.chain| ensures r.chain[i].index == i + 1 {
      if i < |st.chain| {
        assert r.chain[i] == r.chain[..|st.chain|][i];
      }
    }
  }

  /** Appending keeps the chain linked exactly when the new block records
      the hash of the old last block, which is the case when no (or an
      empty) `previousHash` is passed. */
  lemma AddBlockLinks<T>(lib: Library<T>, st: State<T>, proof: int, previousHash: Option<string>, timestamp: real)
    requires st.chain != []
    ensures var r := AddBlock(lib, st, proof, previousHash, timestamp);
            Linked(lib, r.chain) <==>
              Linked(lib, st.chain) && Last(r.chain).previousHash == lib.Hash(Last(st.chain))
  {
    var r := AddBlock(lib, st, proof, previousHash, timestamp);
    var n := |st.chain|;
    assert forall i :: 0 <= i < n ==> r.chain[i] == st.chain[i] by {
      forall i | 0 <= i < n ensures r.chain[i] == st.chain[i] {
        assert r.chain[i] == r.chain[..n][i];
      }
    }
    if Linked(lib, r.chain) {
      assert r.chain[n].previousHash == lib.Hash(r.chain[n - 1]);
    }
  }

  /** Transactions are moved, never copied or lost: what is committed plus
      what is pending is the same before and after an append. */
  lemma AddBlockMovesTransactions<T>(lib: Library<T>, st: State<T>, proof: int, previousHash: Option<string>, timestamp: real)
    requires st.chain != [] || Truthy(previousHash)
    ensures var r := AddBlock(lib, st, proof, previousHash, timestamp);
            Committed(r.chain) + r.pending == Committed(st.chain) + st.pending
  {
    var r := AddBlock(lib, st, proof, previousHash, timestamp);
    assert r.chain[..|r.chain| - 1] == st.chain;
  }

  // ---------------------------------------------------------------------
  // The /mine/ handler

  /** The JSON body of a `/mine/` request, reduced to the two fields the
      handler looks at: each is either present or missing. */
  datatype Submission = Submission(proof: Option<int>, id: Option<string>)

  /** The handler's three answers: "missing values", "Proof invalid", or
      "New Block Forged" with the new block. */
  datatype Response<T> = MissingValues | ProofInvalid | Forged(block: Block<T>)

  /** The `/mine/` handler's decision and the state it leaves. */
  function Submit<T>(lib: Library<T>, st: State<T>, sub: Submission, timestamp: real): (r: (State<T>, Response<T>))
    requires st.chain != []
    ensures !r.1.Forged? ==> r.0 == st
    ensures r.1.Forged? ==> r.0.chain == st.chain + [r.1.block] && r.0.pending == []
  {
    if sub.proof.None? || sub.id.None? then (st, MissingValues)
    else
      var head := Last(st.chain);
      if lib.ValidProof(lib.SubmissionChallenge(head), sub.proof.value) then
        var next := AddBlock(lib, st, sub.proof.value, Some(lib.Hash(head)), timestamp);
        (next, Forged(Last(next.chain)))
      else (st, ProofInvalid)
  }

  /** A submission is answered in one of three ways. Missing fields and
      invalid proofs leave the state exactly as it was; a valid proof adds
      exactly one block, holding that proof and the moved pending
      transactions and linked to the hash of the old last block. */
  lemma SubmitAllOrNothing<T>(lib: Library<T>, st: State<T>, sub: Submission, timestamp: real)
    requires st.chain != []
    ensures var (r, resp) := Submit(lib, st, sub, timestamp);
            && (resp.MissingValues? <==> sub.proof.None? || sub.id.None?)
            && (resp.Forged? <==>
                  (sub.proof.Some? && sub.id.Some?
                   && lib.ValidProof(lib.SubmissionChallenge(Last(st.chain)), sub.proof.value)))
            && (!resp.Forged? ==> r == st)
            && (resp.Forged? ==>
                  && r.chain == st.chain + [resp.block]
                  && r.pending == []
                  && resp.block == Block(|st.chain| + 1, timestamp, st.pending, sub.proof.value, lib.Hash(Last(st.chain))))
  {
    var (r, resp) := Submit(lib, st, sub, timestamp);
    if resp.Forged? {
      assert r.chain == r.chain[..|st.chain|] + [Last(r.chain)];
    }
  }

  /** Whatever is submitted, a well-formed, linked chain stays well-formed
      and linked. */
  lemma SubmitKeepsInvariants<T>(lib: Library<T>, st: State<T>, sub: Submission, timestamp: real)
    requires WellFormed(st.chain) && Linked(lib, st.chain)
    ensures var r := Submit(lib, st, sub, timestamp).0;
            WellFormed(r.chain) && Linked(lib, r.chain)
  {
    if sub.proof.Some? && sub.id.Some? {
      var head := Last(st.chain);
      AddBlockKeepsWellFormed(lib, st, sub.proof.value, Some(lib.Hash(head)), timestamp);
      AddBlockLinks(lib, st, sub.proof.value, Some(lib.Hash(head)), timestamp);
    }
  }

  /** The handler run on a sequence of requests, each with its own time. */
  function SubmitAll<T>(lib: Library<T>, st: State<T>, requests: seq<(Submission, real)>): (r: State<T>)
    requires st.chain != []
    ensures r.chain != []
    decreases |requests|
  {
    if requests == [] then st
    else
      var next := Submit(lib, st, requests[0].0, requests[0].1).0;
      SubmitAllOrNothing(lib, st, requests[0].0, requests[0].1);
      SubmitAll(lib, next, requests[1..])
  }

  /** Whether the handler turns a submission down against a given head. */
  predicate Rejected<T>(lib: Library<T>, head: Block<T>, sub: Submission)
  {
    sub.proof.None? || sub.id.None? || !lib.ValidProof(lib.SubmissionChallenge(head), sub.proof.value)
  }

  /** Submitting rejected proofs any number of times changes nothing. */
  lemma {:induction false} RejectionsChangeNothing<T>(lib: Library<T>, st: State<T>, requests: seq<(Submission, real)>)
    requires st.chain != []
    requires forall k :: 0 <= k < |requests| ==> Rejected(lib, Last(st.chain), requests[k].0)
    ensures SubmitAll(lib, st, requests) == st
    decreases |requests|
  {
    if requests != [] {
      SubmitAllOrNothing(lib, st, requests[0].0, requests[0].1);
      RejectionsChangeNothing(lib, st, requests[1..]);
    }
  }

  /** Through any sequence of requests the chain only grows at its end,
      and stays well-formed and linked. */
  lemma {:induction false} SubmitAllAppendOnly<T>(lib: Library<T>, st: State<T>, requests: seq<(Submission, real)>)
    requires WellFormed(st.chain) && Linked(lib, st.chain)
    ensures var r := SubmitAll(lib, st, requests);
            |st.chain| <= |r.chain| && r.chain[..|st.chain|] == st.chain
            && WellFormed(r.chain) && Linked(lib, r.chain)
    decreases |requests|
  {
    if requests != [] {
      var next := Submit(lib, st, requests[0].0, requests[0].1).0;
      SubmitAllOrNothing(lib, st, requests[0].0, requests[0].1);
      SubmitKeepsInvariants(lib, st, requests[0].0, requests[0].1);
      SubmitAllAppendOnly(lib, next, requests[1..]);
      var r := SubmitAll(lib, next, requests[1..]);
      assert r.chain[..|st.chain|] == r.chain[..|next.chain|][..|st.chain|];
    }
  }

}
