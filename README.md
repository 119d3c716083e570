# Hash-chained ledger

A Dafny model of the `Ledger` class of `ledger.py`: an append-only ledger
kept in one MongoDB collection. Each stored block is a dict with an
`index`, a `timestamp`, the caller's `payload`, the `previous_hash` of the
block before it, and its own `hash`.

- The hash (`_hash`) is SHA-256 over the UTF-8 bytes of
  `json.dumps(block, sort_keys=True)` with any `hash` item removed. It is
  written as lower-case hex.
- The constructor inserts a genesis block (index 0, payload
  `"Genesis Block"`, previous hash `"0"`) when the collection is empty.
- `_get_last_block` returns the block with the highest index.
- `add_entry` builds the next block on that head, hashes it, stores it and
  returns it.

The project has one module per file:

- `key_order.dfy` (`KeyOrder`): Python's string order, an insertion sort of
  (key, value) items by key, and the fact that sorted lists with distinct
  keys are determined by their items.
- `json_value.dfy` (`JsonValue`): the values `json.dumps` receives. A
  Python dict is an insertion-ordered sequence of items. `Set` is
  `d[k] = v` and `Pop` is `d.pop(k, None)`.
- `json_encoder.dfy` (`JsonEncoder`): `json.dumps(v, sort_keys=True)` with
  Python's other defaults: `ensure_ascii`, separators `", "` and `": "`,
  and `\uXXXX` escapes, using surrogate pairs above U+FFFF.
- `bytes.dfy` (`Bytes`): `str.encode()` (UTF-8) and `hexdigest()`.
- `hash_chain.dfy` (`HashChain`): blocks, `_hash`, the chain invariant,
  and the class `Ledger`.
- `wrappers.dfy` (`Wrappers`): `Option`.

The collection is the field `collection: seq<Block>` of class `Ledger`,
in insertion order. SHA-256 is a parameter `sha256` of type
`seq<byte> -> Digest`; nothing here depends on how it computes. The clock
is an integer argument `now`.

The chain invariant `ValidChain` is `Linked` plus `HashesCurrent`:

- `Linked`: block `i` has index `i`, block 0 is the genesis block, and
  every later block's `previous_hash` is its predecessor's `hash`.
- `HashesCurrent`: every block's `hash` is the hash of its own content.

The constructor establishes the invariant and `add_entry` preserves it.

## Model

| member | source | states |
|---|---|---|
| KeyOrder.LessTotal | ledger.py:36 | the string order used to sort keys is total: distinct strings compare one way or the other |
| KeyOrder.LessTransitive | ledger.py:36 | the string order used to sort keys is transitive |
| KeyOrder.Insert | ledger.py:36 | inserting an item into a list adds exactly that item (multiset) |
| KeyOrder.InsertSorted | ledger.py:36 | inserting into a key-sorted list keeps it sorted |
| KeyOrder.InsertDistinct | ledger.py:36 | inserting an item with a new key keeps keys distinct |
| KeyOrder.Sort | ledger.py:36 | sorting the items keeps exactly the same items (a permutation) |
| KeyOrder.SortSorted | ledger.py:36 | the sorted items are in non-decreasing key order |
| KeyOrder.SortDistinct | ledger.py:36 | sorting a dict's items keeps keys distinct |
| KeyOrder.SortedUnique | ledger.py:36 | two key-sorted lists with distinct keys and the same items are equal, so `sort_keys` gives one canonical order |
| KeyOrder.SortPermutationInvariant | ledger.py:36 | sorting any two arrangements of the same dict items gives the same list |
| KeyOrder.DistinctKeysPermutation | ledger.py:36 | a rearrangement of items with distinct keys has distinct keys |
| KeyOrder.SameItemsSameMultiset | ledger.py:36 | two distinct-key item lists with the same members are permutations of each other |
| JsonValue.Keys | ledger.py:36 | the keys of a dict, one per item, in insertion order |
| JsonValue.Set | ledger.py:48 | `d[k] = v` leaves (k, v) in the dict, keeps every item with another key, and appends when k is new |
| JsonValue.SetKeepsDistinct | ledger.py:23 | `d[k] = v` keeps keys distinct, and adds one item exactly when `k` is new, as `hash` is when it is set on the genesis block |
| JsonValue.Pop | ledger.py:34 | `pop('hash', None)` leaves no `hash` item, keeps exactly the other items, and is a no-op when the key is absent |
| JsonValue.PopAfterSet | ledger.py:33-34 | popping `hash` after setting it gives the dict as it was before the set |
| JsonValue.PopKeys | ledger.py:34 | popping a key removes every occurrence of it from the keys and nothing else |
| JsonValue.PopSameUpToOrder | ledger.py:34 | popping the same key from two dicts that differ only in item order leaves dicts that differ only in item order |
| JsonValue.SameUpToOrderReflexive | ledger.py:36 | every value whose dicts have distinct keys at every depth, as Python's do, is equal up to item order to itself |
| JsonValue.KeyCount | ledger.py:36 | in a dict each key occurs once in its key list |
| JsonValue.PermutationKeys | ledger.py:36 | rearranging a dict's items rearranges its keys |
| JsonValue.KeyInPermutation | ledger.py:36 | a key of a dict is a key of every rearrangement of its items |
| JsonValue.PermutationSameUpToOrder | ledger.py:36 | any rearrangement of a dict's items is the same dict up to item order |
| JsonValue.SameUpToOrderReplace | ledger.py:42-47 | replacing one value of a dict by one equal up to item order gives a dict equal up to item order |
| Bytes.Utf8Char | ledger.py:36 | `encode()` writes one to four bytes per character, one exactly for ASCII |
| Bytes.Utf8Encode | ledger.py:36 | `encode()` writes at least one byte per character |
| Bytes.Utf8OfAscii | ledger.py:36 | on ASCII text `encode()` is one byte per character, equal to its code point |
| Bytes.Utf8AsciiInjective | ledger.py:36 | distinct ASCII texts encode to distinct bytes |
| Bytes.DigitValue | ledger.py:37 | reading back a hex digit inverts writing it |
| Bytes.LowerHex | ledger.py:37 | `hexdigest()` writes two lower-case hex digits per byte |
| Bytes.LowerHexRoundTrip | ledger.py:37 | the hex digest reads back to the digest bytes |
| Bytes.LowerHexInjective | ledger.py:37 | distinct digests have distinct hex digests |
| JsonEncoder.Hex4 | ledger.py:36 | a `\uXXXX` escape body is four lower-case hex digits |
| JsonEncoder.EscapeChar | ledger.py:36 | each character is written as non-empty printable ASCII |
| JsonEncoder.EscapeString | ledger.py:36 | the escaped text of a string has at least one character per character of the string |
| JsonEncoder.EscapeStringPrintable | ledger.py:36 | an escaped string is printable ASCII |
| JsonEncoder.Quote | ledger.py:36 | a string literal is printable ASCII |
| JsonEncoder.NatToDecimal | ledger.py:36 | integers are written in decimal, without leading zeros |
| JsonEncoder.NatToDecimalRoundTrip | ledger.py:36 | the decimal digits written for a number denote that number |
| JsonEncoder.IntToDecimal | ledger.py:36 | integers, negative ones included, are written as non-empty printable text |
| JsonEncoder.Dumps | ledger.py:36 | `json.dumps(..., sort_keys=True)` output is printable ASCII |
| JsonEncoder.JoinInKeyOrder | ledger.py:36 | the written-out items are joined with `", "` in an arrangement of them that is sorted by key, as printable text |
| JsonEncoder.JoinInKeyOrderCanonical | ledger.py:36 | with distinct keys, the joined text is that of the one key-sorted arrangement of the items |
| JsonEncoder.DumpsIgnoresItemOrder | ledger.py:36 | values that differ only in dict insertion order, at any depth, are written identically |
| JsonEncoder.MemberTextsAgree | ledger.py:36 | dicts with the same keys whose values are written alike are written alike |
| HashChain.BlockDataShape | ledger.py:42-47 | the block dict has distinct keys, none of them `hash`, with the payload as its third item |
| HashChain.Document | ledger.py:48 | the stored document is the block's content with `hash` added as its last item, and its keys are distinct |
| HashChain.HashInputInjective | ledger.py:36 | equal SHA-256 inputs come from equal canonical texts: the UTF-8 encoding of that ASCII text loses nothing |
| HashChain.HashInput | ledger.py:33-36 | the bytes hashed are the canonical JSON text of the dict without `hash`, one byte per character, equal to its code point |
| HashChain.HashOf | ledger.py:30-37 | `_hash` returns 64 lower-case hex digits |
| HashChain.HashIgnoresHashField | ledger.py:32-34 | a `hash` item already in the dict, whatever its value, does not change `_hash` |
| HashChain.HashIgnoresItemOrder | ledger.py:36 | `_hash` depends only on the dict's items, not on their insertion order |
| HashChain.HashIgnoresPermutation | ledger.py:36 | any rearrangement of a dict's items, whose values may hold dicts at any depth, has the same hash |
| HashChain.HashIgnoresValueOrder | ledger.py:36 | replacing a value by one equal up to dict item order does not change `_hash` |
| HashChain.BlockHashIgnoresPayloadOrder | ledger.py:42-48 | blocks whose payloads differ only in dict item order get the same hash |
| HashChain.HashIsCurrentOfDocument | ledger.py:48 | hashing a block's content equals `_hash` of the stored document with its `hash` item |
| HashChain.ValidChainPrefix | ledger.py:50 | every prefix of a valid chain is valid |
| HashChain.ValidChainAppend | ledger.py:41-50 | appending a block with the next index, the last block's hash and a current hash keeps the chain valid |
| HashChain.Head | ledger.py:26-28 | the head lookup returns None exactly on an empty collection, else a stored block with the largest index |
| HashChain.HeadOfValidChain | ledger.py:26-28 | in a valid chain the block with the largest index is the last stored |
| HashChain.NextBlock | ledger.py:42-48 | the new block has index head+1, previous hash = head's hash, the given payload and timestamp, and a current hash |
| HashChain.Extend | ledger.py:39-52 | one append adds exactly one block with the payload and timestamp and keeps the old blocks |
| HashChain.ExtendValid | ledger.py:41-50 | one append to a valid chain leaves a valid chain whose new block has the next index and links to the old last block |
| HashChain.ExtendAll | ledger.py:39-52 | N sequential appends add exactly N blocks after the unchanged old ones |
| HashChain.ExtendAllEntries | ledger.py:39-52 | after N sequential appends the collection is the old blocks followed by one block per call, the k-th carrying the k-th call's payload and timestamp |
| HashChain.ExtendAllValid | ledger.py:39-52 | N sequential appends to a valid chain leave a valid chain |
| HashChain.TamperNeedsSameDigest | ledger.py:42-48 | rewriting a block that has a successor keeps the chain valid only if the new block keeps the old hash, so only if SHA-256 gives the same digest for the old and the new hash input |
| HashChain.LastBlockReplaceable | ledger.py:41-50 | the last block is not protected: any block that may follow the others can replace it and the chain stays valid |
| HashChain.Ledger.Bootstrap | ledger.py:7-24 | an empty collection gets exactly the genesis block, hashed over its own content, and becomes a valid chain; a non-empty collection is left unchanged |
| HashChain.Ledger.GetLastBlock | ledger.py:26-28 | returns None exactly when the collection is empty, else a block with the largest index, which on a valid chain is the last block |
| HashChain.Ledger.AddEntry | ledger.py:39-52 | appends exactly the returned block, built on a head block; on a valid chain it has the next index, links to the last block, and keeps the chain valid |

## Left out

- `app.py` is not part of this model. It holds the HTTP routes and user and proposal records. It reaches the ledger only through `add_entry` and by reading the collection directly.
- The MongoDB client and `create_index("index")` (ledger.py:9-11) are not modelled. The collection is an in-memory sequence, and an index only speeds up lookups.
- `count_documents({}) == 0` (ledger.py:14) is modelled as the stored sequence being empty.
- `insert_one` adds an `_id` item to the dict it stores and to the dict `add_entry` returns. `_id` is not modelled: a block's content is the five ledger fields.
- `time()` (ledger.py:17, 44) is the integer argument `now`. Float timestamps and their JSON text are not modelled.
- Payload values are None, booleans, integers, strings, lists and dicts with string keys. Floats, tuples and non-string dict keys are not modelled.
- Strings are sequences of Unicode scalar values, because a Dafny `char` cannot hold a surrogate code point. Payload strings holding lone surrogates are not modelled, although `json.dumps` would write them as `\udxxx` escapes and `_hash` would succeed on them.
- SHA-256 itself (ledger.py:37) is a parameter. The chain's properties hold for any function from bytes to 32-byte digests.
- `_hash` works on a copy and does not change its argument (ledger.py:33). This holds by construction, because Dafny values are immutable.
- The `print` after an insert (ledger.py:51) is not modelled.
- Concurrent callers are not modelled, only sequential calls. Two concurrent `add_entry` calls can read the same head and store two blocks with the same index; the code has no guard against this.
- A retry scheme with a uniqueness constraint on `index`, and a chain-verification or read-all operation, are not in `ledger.py`. The model follows the code and does not include them; `ValidChain` states what such a verification would check.
- HashChain.Ledger.GetLastBlock: when several blocks share the largest index, which one MongoDB returns is unspecified. The model returns the earliest stored one, and its contract promises only a block with the largest index.
- HashChain.Ledger.AddEntry: requires a non-empty collection. With no head, `last_block` is None and `last_block["index"]` raises a `TypeError` (ledger.py:41-43). The model does not represent that exception.
- HashChain.Ledger.AddEntry: payload integers are unbounded. `insert_one` (ledger.py:50) stores the block as BSON and raises `OverflowError` for an integer outside the signed 64-bit range. In that case `add_entry` stores nothing, while the model always appends.
- HashChain.TamperNeedsSameDigest: that two blocks with different content have different canonical JSON texts (the converse of `JsonEncoder.DumpsIgnoresItemOrder`, an injectivity proof for the encoder) is not proved. The model shows only that equal hash inputs need equal texts (`HashChain.HashInputInjective`). So it does not conclude that a surviving rewrite needs a collision between two different inputs.
- HashChain.Extend and HashChain.ExtendAll build on the last stored block. On a valid chain that block is the head `add_entry` reads, and only there do they describe what `add_entry` does.
- HashChain.Ledger.Bootstrap: a non-empty collection is taken as it is. Its validity is assumed (as a hypothesis of the ensures) rather than checked, as in the source.
