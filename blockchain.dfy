/** The node's ledger object: the `Blockchain` class, whose `chain` and
    `current_transactions` are updated in place, and the decision logic of
    its `/mine/` request handler. Each method is specified by the value-level
    functions of module `Ledger`, whose properties are proved there. */
module Node {
  import opened Wrappers
  import opened Encoding
  import opened Ledger

  class Blockchain<T> {
    /** The hashing and serialisation library the node calls. */
    const lib: Library<T>
    var chain: seq<Block<T>>
    var currentTransactions: seq<T>

    /** The ledger as a value. */
    ghost function Contents(): State<T>
      reads this
    {
      State(chain, currentTransactions)
    }

    /** The object invariant: the chain starts with the genesis block and
        is indexed by position. */
    ghost predicate Valid()
      reads this
    {
      WellFormed(chain)
    }

    /** `Blockchain()`: an empty ledger to which the genesis block is added
        through `new_block`; `timestamp` is the clock reading it records. */
    constructor (lib: Library<T>, timestamp: real)
      ensures this.lib == lib
      ensures Contents() == Initial(lib, timestamp)
      ensures Valid() && Linked(lib, chain)
    {
      this.lib := lib;
      chain := [];
      currentTransactions := [];
      new;
      var _ := NewBlock(GenesisProof, Some(GenesisPreviousHash), timestamp);
    }

    /** `new_block`: builds the next block from the pending transactions,
        appends it and empties the pending list. A chain that was valid
        stays valid. */
    method NewBlock(proof: int, previousHash: Option<string>, timestamp: real) returns (block: Block<T>)
      requires chain != [] || Truthy(previousHash)
      modifies this
      ensures Contents() == AddBlock(lib, old(Contents()), proof, previousHash, timestamp)
      ensures block == Last(chain)
      ensures old(Valid()) ==> Valid()
    {
      var link := if Truthy(previousHash) then previousHash.value else lib.Hash(chain[|chain| - 1]);
      block := Block(|chain| + 1, timestamp, currentTransactions, proof, link);
      currentTransactions := [];
      chain := chain + [block];
      if old(Valid()) {
        AddBlockKeepsWellFormed(lib, old(Contents()), proof, previousHash, timestamp);
      }
    }

    /** `last_block`: the newest block, whose index is the chain length. */
    function LastBlock(): (b: Block<T>)
      reads this
      requires chain != []
      ensures b == chain[|chain| - 1] && b in chain
      ensures Valid() ==> b.index == |chain|
    {
      chain[|chain| - 1]
    }

    /** `proof_of_work`: counts up from 0 until `valid_proof` accepts the
        JSON text of the last block. The `block` argument is not used. The
        loop ends only if some proof is valid, which the precondition says;
        the result is then the least valid proof, and the ledger is left
        as it was. */
    method ProofOfWork(block: Block<T>) returns (proof: nat)
      requires chain != []
      requires exists q: nat :: lib.ValidProof(lib.MiningChallenge(LastBlock()), q)
      ensures IsLeastValidProof(lib, lib.MiningChallenge(LastBlock()), proof)
    {
      var blockString := Str(lib.dumps(LastBlock()));
      ghost var bound: nat :| lib.ValidProof(blockString, bound);
      proof := 0;
      while !lib.ValidProof(blockString, proof)
        invariant proof <= bound
        invariant forall q: nat :: q < proof ==> !lib.ValidProof(blockString, q)
        decreases bound - proof
      {
        proof := proof + 1;
      }
    }

    /** The `/mine/` handler: rejects a request without `proof` or `id`,
        checks the proof against the encoded JSON text of the last block, and
        on success appends a block linked to the hash of the old last block.
        Its answer and the new state are those of `Submit`; the chain stays
        valid and linked. */
    method Mine(submission: Submission, timestamp: real) returns (response: Response<T>)
      requires chain != []
      modifies this
      ensures (Contents(), response) == Submit(lib, old(Contents()), submission, timestamp)
      ensures old(Valid() && Linked(lib, chain)) ==> Valid() && Linked(lib, chain)
    {
      ghost var before := Contents();
      assert before.chain == chain;
      if submission.proof.None? || submission.id.None? {
        response := MissingValues;
        assert (Contents(), response) == Submit(lib, before, submission, timestamp);
      } else {
        var sentProof := submission.proof.value;
        var head := LastBlock();
        var blockString := Bytes(Utf8(lib.dumps(head)));
        assert head == Last(before.chain) && blockString == lib.SubmissionChallenge(head);
        if lib.ValidProof(blockString, sentProof) {
          var previousHash := lib.Hash(head);
          var block := NewBlock(sentProof, Some(previousHash), timestamp);
          response := Forged(block);
        } else {
          response := ProofInvalid;
          assert (Contents(), response) == Submit(lib, before, submission, timestamp);
        }
      }
      if WellFormed(before.chain) && Linked(lib, before.chain) {
        SubmitKeepsInvariants(lib, before, submission, timestamp);
      }
    }
  }

}
