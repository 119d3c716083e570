/**
  The hash-chained, append-only ledger of `ledger.py`.

  Each stored block records an index, a timestamp, the caller's payload,
  the previous block's hash and its own hash. `_hash` is SHA-256 over the
  UTF-8 bytes of `json.dumps(..., sort_keys=True)` of the block's dict
  with any `hash` item removed, written as lower-case hex. A valid chain
  has indices 0..N in storage order, starts with the genesis block, links
  every block to its predecessor's hash, and stores in every block the
  hash of its own content.
*/
module HashChain {
  import opened Wrappers
  import opened KeyOrder
  import opened JsonValue
  import opened Bytes
  import JsonEncoder

  /** A SHA-256 digest: 32 bytes. */
  type Digest = d: seq<byte> | |d| == 32 witness seq(32, _ => 0 as byte)

  /**
    SHA-256 itself is not modelled: the ledger is parameterised by any
    function from message bytes to digests, which is all the chain's
    properties rely on.
  */
  type Sha256 = seq<byte> -> Digest

  /** A stored ledger document. */
  datatype Block = Block(index: int, timestamp: int, payload: Value, previousHash: string, hash: string)

  const GenesisPayload: Value := Str("Genesis Block")
  const GenesisPreviousHash: string := "0"

  /** The dict the ledger builds for a block before setting its hash, items in insertion order. */
  function BlockData(index: int, timestamp: int, payload: Value, previousHash: string): Dict
  {
    [("index", Int(index)), ("timestamp", Int(timestamp)), ("payload", payload),
     ("previous_hash", Str(previousHash))]
  }

  /**
    The document as stored: the block's dict after `block["hash"] = ...`,
    which adds `hash` as the last item and keeps keys distinct.
  */
  function Document(b: Block): (d: Dict)
    ensures d == Content(b) + [("hash", Str(b.hash))]
    ensures DistinctKeys(d)
  {
    assert DistinctKeys(Content(b)) && NoKey(Content(b), "hash");
    SetKeepsDistinct(Content(b), "hash", Str(b.hash));
    Set(Content(b), "hash", Str(b.hash))
  }

  /**
    What SHA-256 reads for a block dict: the canonical JSON of a copy of
    the dict without its `hash` item, encoded as UTF-8. That text is
    printable ASCII, so the bytes are its characters one for one.
  */
  function HashInput(blockData: Dict): (bytes: seq<byte>)
    ensures var text := JsonEncoder.Dumps(Object(Pop(blockData, "hash")));
      |bytes| == |text| && forall i :: 0 <= i < |text| ==> bytes[i] as int == text[i] as int
  {
    var text := JsonEncoder.Dumps(Object(Pop(blockData, "hash")));
    JsonEncoder.PrintableIsAscii(text);
    Utf8OfAscii(text);
    Utf8Encode(text)
  }

  /**
    Distinct canonical texts give distinct SHA-256 inputs: the UTF-8 step
    loses nothing, because the text is ASCII.
  */
  lemma HashInputInjective(d: Dict, e: Dict)
    requires HashInput(d) == HashInput(e)
    ensures JsonEncoder.Dumps(Object(Pop(d, "hash"))) == JsonEncoder.Dumps(Object(Pop(e, "hash")))
  {
    var s, t := JsonEncoder.Dumps(Object(Pop(d, "hash"))), JsonEncoder.Dumps(Object(Pop(e, "hash")));
    JsonEncoder.PrintableIsAscii(s);
    JsonEncoder.PrintableIsAscii(t);
    Utf8AsciiInjective(s, t);
  }

  /** `Ledger._hash`: the hex digest of the block dict's content. */
  function HashOf(sha: Sha256, blockData: Dict): (h: string)
    ensures |h| == 64 && IsLowerHex(h)
  {
    LowerHex(sha(HashInput(blockData)))
  }

  /** A `hash` item already in the dict, whatever its value, does not change the hash. */
  lemma HashIgnoresHashField(sha: Sha256, blockData: Dict, h: Value)
    ensures HashOf(sha, Set(blockData, "hash", h)) == HashOf(sha, blockData)
  {
    PopAfterSet(blockData, "hash", h);
  }

  /** The hash depends only on the dict's items, not on the order they were inserted in. */
  lemma HashIgnoresItemOrder(sha: Sha256, d: Dict, e: Dict)
    requires SameUpToOrder(Object(d), Object(e))
    ensures HashOf(sha, d) == HashOf(sha, e)
  {
    PopSameUpToOrder(d, e, "hash");
    JsonEncoder.DumpsIgnoresItemOrder(Object(Pop(d, "hash")), Object(Pop(e, "hash")));
  }

  /** Any rearrangement of a dict's items, such as a differently built block dict, has the same hash. */
  lemma HashIgnoresPermutation(sha: Sha256, d: Dict, e: Dict)
    requires DistinctKeys(d) && multiset(d) == multiset(e)
    requires forall i :: 0 <= i < |d| ==> WellFormed(d[i].1)
    ensures HashOf(sha, d) == HashOf(sha, e)
  {
    PermutationSameUpToOrder(d, e);
    HashIgnoresItemOrder(sha, d, e);
  }

  /**
    Replacing one value of a dict by one equal up to item order, where the
    other values hold no dicts, does not change the hash.
  */
  lemma HashIgnoresValueOrder(sha: Sha256, d: Dict, i: nat, p: Value, q: Value)
    requires DistinctKeys(d) && i < |d| && SameUpToOrder(p, q)
    requires forall j :: 0 <= j < |d| && j != i ==> SameUpToOrder(d[j].1, d[j].1)
    ensures HashOf(sha, d[i := (d[i].0, p)]) == HashOf(sha, d[i := (d[i].0, q)])
  {
    SameUpToOrderReplace(d, i, p, q);
    HashIgnoresItemOrder(sha, d[i := (d[i].0, p)], d[i := (d[i].0, q)]);
  }

  /**
    The block dict has distinct keys, none of them `hash`, the payload
    third, and otherwise integers and strings.
  */
  lemma BlockDataShape(index: int, timestamp: int, p: Value, q: Value, previousHash: string)
    ensures var d := BlockData(index, timestamp, p, previousHash);
      && DistinctKeys(d) && NoKey(d, "hash")
      && d[2 := (d[2].0, p)] == d
      && d[2 := (d[2].0, q)] == BlockData(index, timestamp, q, previousHash)
      && forall j :: 0 <= j < |d| && j != 2 ==> SameUpToOrder(d[j].1, d[j].1)
  {
  }

  /** Payloads that differ only in dict insertion order give blocks the same hash. */
  lemma BlockHashIgnoresPayloadOrder(sha: Sha256, index: int, timestamp: int, p: Value, q: Value, previousHash: string)
    requires SameUpToOrder(p, q)
    ensures HashOf(sha, BlockData(index, timestamp, p, previousHash)) ==
            HashOf(sha, BlockData(index, timestamp, q, previousHash))
  {
    BlockDataShape(index, timestamp, p, q, previousHash);
    HashIgnoresValueOrder(sha, BlockData(index, timestamp, p, previousHash), 2, p, q);
  }

  /** The dict of a block's content, without its hash. */
  function Content(b: Block): Dict
  {
    BlockData(b.index, b.timestamp, b.payload, b.previousHash)
  }

  /** The stored hash is the hash of the block's content. */
  predicate HashIsCurrent(sha: Sha256, b: Block)
  {
    b.hash == HashOf(sha, Content(b))
  }

  /** Equivalently, the stored hash is `_hash` of the stored document. */
  lemma HashIsCurrentOfDocument(sha: Sha256, b: Block)
    ensures HashIsCurrent(sha, b) <==> b.hash == HashOf(sha, Document(b))
  {
    HashIgnoresHashField(sha, Content(b), Str(b.hash));
  }

  predicate IsGenesis(b: Block)
  {
    b.index == 0 && b.payload == GenesisPayload && b.previousHash == GenesisPreviousHash
  }

  /**
    The chain's structure: block `i` has index `i` (so indices run 0..N
    in storage order, without gaps or repeats), the first block is the
    genesis block, and every later block names its predecessor's hash.
  */
  predicate Linked(c: seq<Block>)
  {
    && (forall i :: 0 <= i < |c| ==> c[i].index == i)
    && (|c| > 0 ==> IsGenesis(c[0]))
    && (forall i :: 0 < i < |c| ==> c[i].previousHash == c[i - 1].hash)
  }

  /** Every block stores the hash of its own content. */
  predicate HashesCurrent(sha: Sha256, c: seq<Block>)
  {
    forall i :: 0 <= i < |c| ==> HashIsCurrent(sha, c[i])
  }

  /** The ledger's invariant. */
  predicate ValidChain(sha: Sha256, c: seq<Block>)
  {
    Linked(c) && HashesCurrent(sha, c)
  }

  /** Every prefix of a valid chain is valid. */
  lemma ValidChainPrefix(sha: Sha256, c: seq<Block>, k: nat)
    requires ValidChain(sha, c) && k <= |c|
    ensures ValidChain(sha, c[..k])
  {
    LinkedPrefix(c, k);
    HashesCurrentPrefix(sha, c, k);
  }

  lemma LinkedPrefix(c: seq<Block>, k: nat)
    requires Linked(c) && k <= |c|
    ensures Linked(c[..k])
  {
  }

  lemma HashesCurrentPrefix(sha: Sha256, c: seq<Block>, k: nat)
    requires HashesCurrent(sha, c) && k <= |c|
    ensures HashesCurrent(sha, c[..k])
  {
  }

  /** A block whose index is the next position and that names the last hash extends the structure. */
  lemma LinkedAppend(c: seq<Block>, b: Block)
    requires Linked(c) && c != []
    requires b.index == |c| && b.previousHash == c[|c| - 1].hash
    ensures Linked(c + [b])
  {
  }

  /** Appending a block that may follow the last one keeps a chain valid. */
  lemma ValidChainAppend(sha: Sha256, c: seq<Block>, b: Block)
    requires ValidChain(sha, c) && c != []
    requires b.index == |c| && b.previousHash == c[|c| - 1].hash && HashIsCurrent(sha, b)
    ensures ValidChain(sha, c + [b])
  {
    LinkedAppend(c, b);
    HashesCurrentAppend(sha, c, b);
  }

  lemma HashesCurrentAppend(sha: Sha256, c: seq<Block>, b: Block)
    requires HashesCurrent(sha, c) && HashIsCurrent(sha, b)
    ensures HashesCurrent(sha, c + [b])
  {
    var r := c + [b];
    forall i | 0 <= i < |r| ensures HashIsCurrent(sha, r[i]) {
      if i < |c| { assert r[i] == c[i]; }
    }
  }

  /** `b` is stored in `c` and no block of `c` has a larger index. */
  predicate IsHead(b: Block, c: seq<Block>)
  {
    b in c && forall j :: 0 <= j < |c| ==> c[j].index <= b.index
  }

  /**
    `find_one(sort=[("index", DESCENDING)])`: a block with the largest
    index, or None when the collection is empty. (Which of several blocks
    sharing the largest index the store returns is unspecified; this one
    returns the earliest stored, and callers rely only on `IsHead`.)
  */
  function Head(c: seq<Block>): (r: Option<Block>)
    ensures r.None? <==> c == []
    ensures r.Some? ==> IsHead(r.value, c)
  {
    if c == [] then None
    else
      var earlier := Head(c[..|c| - 1]);
      assert c == c[..|c| - 1] + [c[|c| - 1]];
      if earlier.None? || earlier.value.index < c[|c| - 1].index then Some(c[|c| - 1]) else earlier
  }

  /** In a valid chain the block with the largest index is the last one stored. */
  lemma HeadOfValidChain(c: seq<Block>, b: Block)
    requires Linked(c) && IsHead(b, c)
    ensures b == c[|c| - 1]
  {
  }

  /** The block `add_entry` builds on `head` and the payload, before storing it. */
  function NextBlock(sha: Sha256, head: Block, payload: Value, timestamp: int): (b: Block)
    ensures b.index == head.index + 1 && b.previousHash == head.hash
    ensures b.payload == payload && b.timestamp == timestamp
    ensures HashIsCurrent(sha, b)
  {
    var blockData := BlockData(head.index + 1, timestamp, payload, head.hash);
    Block(head.index + 1, timestamp, payload, head.hash, HashOf(sha, blockData))
  }

  /**
    The collection after one `add_entry` that builds on the last stored
    block. On a valid chain the last stored block is the head
    (`HeadOfValidChain`), so this is the collection `add_entry` leaves
    there; on an invalid one `add_entry` may build on another block.
  */
  function Extend(sha: Sha256, c: seq<Block>, payload: Value, timestamp: int): (r: seq<Block>)
    requires c != []
    ensures |r| == |c| + 1 && r[..|c|] == c
    ensures r[|c|].payload == payload && r[|c|].timestamp == timestamp
  {
    var r := c + [NextBlock(sha, c[|c| - 1], payload, timestamp)];
    assert r[..|c|] == c;
    r
  }

  /** One `add_entry` keeps a valid chain valid; the new block takes the next index and links to the last one. */
  lemma ExtendValid(sha: Sha256, c: seq<Block>, payload: Value, timestamp: int)
    requires c != [] && ValidChain(sha, c)
    ensures var r := Extend(sha, c, payload, timestamp);
      && ValidChain(sha, r)
      && r[|c|].index == |c|
      && r[|c|].previousHash == c[|c| - 1].hash
  {
    var r := Extend(sha, c, payload, timestamp);
    assert r[..|c|] == c;
    ValidChainAppend(sha, c, r[|c|]);
  }

  /**
    The collection after one `add_entry` per entry (payload, timestamp),
    in order, each building on the last stored block. Starting from a
    valid chain (`ExtendAllValid`) that is what the calls leave.
  */
  function ExtendAll(sha: Sha256, c: seq<Block>, entries: seq<(Value, int)>): (r: seq<Block>)
    requires c != []
    ensures |r| == |c| + |entries| && r[..|c|] == c
    decreases |entries|
  {
    if entries == [] then c
    else
      var before := ExtendAll(sha, c, entries[..|entries| - 1]);
      var r := Extend(sha, before, entries[|entries| - 1].0, entries[|entries| - 1].1);
      assert r[..|c|] == r[..|before|][..|c|];
      r
  }

  /** The k-th appended block carries the k-th entry's payload and timestamp. */
  lemma {:induction false} ExtendAllEntries(sha: Sha256, c: seq<Block>, entries: seq<(Value, int)>)
    requires c != []
    ensures Carries(ExtendAll(sha, c, entries), c, entries)
    decreases |entries|
  {
    if entries != [] {
      var n := |entries| - 1;
      ExtendAllEntries(sha, c, entries[..n]);
      ExtendAllLast(sha, c, entries);
      CarriesSnoc(ExtendAll(sha, c, entries[..n]), ExtendAll(sha, c, entries), c, entries);
    }
  }

  /** `r` is `c` followed by one block per entry, carrying that entry's payload and timestamp. */
  predicate Carries(r: seq<Block>, c: seq<Block>, entries: seq<(Value, int)>)
  {
    && |r| == |c| + |entries| && r[..|c|] == c
    && forall k :: 0 <= k < |entries| ==>
      r[|c| + k].payload == entries[k].0 && r[|c| + k].timestamp == entries[k].1
  }

  /** Appending a block for the last entry to blocks for the others gives blocks for all. */
  lemma CarriesSnoc(before: seq<Block>, r: seq<Block>, c: seq<Block>, entries: seq<(Value, int)>)
    requires entries != [] && Carries(before, c, entries[..|entries| - 1])
    requires |r| == |before| + 1 && r[..|before|] == before
    requires r[|before|].payload == entries[|entries| - 1].0
    requires r[|before|].timestamp == entries[|entries| - 1].1
    ensures Carries(r, c, entries)
  {
    var n := |entries| - 1;
    assert r[..|c|] == r[..|before|][..|c|];
    forall k | 0 <= k < n
      ensures r[|c| + k].payload == entries[k].0 && r[|c| + k].timestamp == entries[k].1
    {
      assert r[|c| + k] == r[..|before|][|c| + k];
      assert entries[..n][k] == entries[k];
    }
  }

  /** The last of N appends adds the last entry after the first N - 1 appends. */
  lemma ExtendAllLast(sha: Sha256, c: seq<Block>, entries: seq<(Value, int)>)
    requires c != [] && entries != []
    ensures var n := |entries| - 1;
      var before := ExtendAll(sha, c, entries[..n]);
      var r := ExtendAll(sha, c, entries);
      && r[..|before|] == before
      && r[|before|].payload == entries[n].0
      && r[|before|].timestamp == entries[n].1
  {
  }

  /** N sequential appends to a valid chain leave a valid chain. */
  lemma {:induction false} ExtendAllValid(sha: Sha256, c: seq<Block>, entries: seq<(Value, int)>)
    requires c != [] && ValidChain(sha, c)
    ensures ValidChain(sha, ExtendAll(sha, c, entries))
    decreases |entries|
  {
    if entries != [] {
      var n := |entries| - 1;
      ExtendAllValid(sha, c, entries[..n]);
      ExtendValid(sha, ExtendAll(sha, c, entries[..n]), entries[n].0, entries[n].1);
    }
  }

  /**
    Rewriting a block that has a successor, however its new hash is
    chosen, leaves a valid chain only if the new block keeps the old hash,
    that is only if SHA-256 gives the same digest for the hash inputs of
    the old and the new content. By `HashInputInjective` those inputs
    differ whenever the two canonical texts differ, and then the rewrite
    needs a SHA-256 collision.
  */
  lemma TamperNeedsSameDigest(sha: Sha256, c: seq<Block>, i: nat, b: Block)
    requires ValidChain(sha, c) && i + 1 < |c|
    requires ValidChain(sha, c[i := b])
    ensures b.hash == c[i].hash
    ensures sha(HashInput(Content(b))) == sha(HashInput(Content(c[i])))
  {
    var t := c[i := b];
    assert t[i + 1] == c[i + 1] && t[i] == b;
    assert HashIsCurrent(sha, t[i]) && HashIsCurrent(sha, c[i]);
    LowerHexInjective(sha(HashInput(Content(b))), sha(HashInput(Content(c[i]))));
  }

  /**
    The chain does not protect its last block: any block that may follow
    the blocks before it, such as one `add_entry` would build there with
    another payload, can take its place and the chain is still valid.
  */
  lemma LastBlockReplaceable(sha: Sha256, c: seq<Block>, b: Block)
    requires ValidChain(sha, c) && |c| >= 2
    requires b.index == |c| - 1 && b.previousHash == c[|c| - 2].hash && HashIsCurrent(sha, b)
    ensures ValidChain(sha, c[..|c| - 1] + [b])
  {
    var prefix := c[..|c| - 1];
    ValidChainPrefix(sha, c, |c| - 1);
    assert prefix[|prefix| - 1] == c[|c| - 2];
    ValidChainAppend(sha, prefix, b);
  }

  class Ledger {
    /** The documents of the ledger collection, in insertion order. */
    var collection: seq<Block>
    /** The SHA-256 the ledger hashes with. */
    const sha256: Sha256

    /**
      `Ledger(mongo_db_client)`: attaches to a collection that holds
      `stored` and, when it is empty, inserts the genesis block, hashed
      over its own content and stamped `now`. A non-empty collection is
      left as it is.
    */
    constructor Bootstrap(stored: seq<Block>, sha256: Sha256, now: int)
      ensures this.sha256 == sha256
      ensures stored == [] ==>
        && |collection| == 1
        && IsGenesis(collection[0])
        && collection[0].timestamp == now
        && collection[0].hash == HashOf(sha256, BlockData(0, now, GenesisPayload, GenesisPreviousHash))
      ensures stored != [] ==> collection == stored
      ensures stored == [] || ValidChain(sha256, stored) ==> ValidChain(sha256, collection)
    {
      this.sha256 := sha256;
      collection := stored;
      new;
      if |collection| == 0 {
        var genesisData := BlockData(0, now, GenesisPayload, GenesisPreviousHash);
        var genesisBlock := Block(0, now, GenesisPayload, GenesisPreviousHash, HashOf(sha256, genesisData));
        collection := collection + [genesisBlock];
      }
    }

    /** `_get_last_block`: a block with the largest index, None when the collection is empty. */
    method GetLastBlock() returns (lastBlock: Option<Block>)
      ensures lastBlock.None? <==> collection == []
      ensures lastBlock.Some? ==> IsHead(lastBlock.value, collection)
      ensures ValidChain(sha256, collection) && collection != [] ==>
        lastBlock == Some(collection[|collection| - 1])
    {
      lastBlock := Head(collection);
      if ValidChain(sha256, collection) && collection != [] {
        HeadOfValidChain(collection, lastBlock.value);
      }
    }

    /**
      `add_entry`: links a new block to the head, stores it and returns
      it. With an empty collection there is no head and the call fails,
      hence the precondition.
    */
    method AddEntry(payload: Value, now: int) returns (newBlock: Block)
      requires collection != []
      modifies this
      ensures collection == old(collection) + [newBlock]
      ensures exists h :: IsHead(h, old(collection)) && newBlock == NextBlock(sha256, h, payload, now)
      ensures ValidChain(sha256, old(collection)) ==>
        && collection == Extend(sha256, old(collection), payload, now)
        && ValidChain(sha256, collection)
        && newBlock.index == |old(collection)|
        && newBlock.previousHash == old(collection)[|old(collection)| - 1].hash
    {
      var lastBlock := GetLastBlock();
      newBlock := NextBlock(sha256, lastBlock.value, payload, now);
      collection := collection + [newBlock];
      if ValidChain(sha256, old(collection)) {
        ExtendValid(sha256, old(collection), payload, now);
      }
    }
  }
}
