# In-memory repository storage (arroba) in Dafny

This project models the storage layer of arroba, a Python implementation of
AT Protocol repositories. It covers `arroba/storage.py`:

- `BlockMap` is a content-addressed map from CID to encoded block bytes. `add`
  encodes a value as DAG-CBOR and stores the block under its CIDv1. The CID
  uses version 1, the dag-cbor multicodec (0x71) and a sha2-256 multihash
  (0x12). `byte_size` sums the block lengths.
- `CommitData` bundles a commit's CID, its block map, the previous commit CID
  and its sequence number.
- `MemoryStorage` holds a block map, the head commit CID, a list of repos and
  per-NSID sequence counters. Its operations are `create_repo`, `load_repo`,
  `read`, `read_many`, `read_blocks`, `has`, `write`, `apply_commit` and
  `next_seq`.

## Modules

- `wrappers.dfy`, module `Wrappers`: `Option` and `Result`.
- `content.dfy`, module `Content`: the `Cid` value, blocks as `seq<bv8>`, and a
  `Codec` that carries the DAG-CBOR encoder, the decoder and the sha2-256
  digest. These are library code, so they are parameters and not
  definitions. Everything proved holds for every codec. Properties that need
  `decode` to invert `encode` take `Sound()` as a hypothesis.
- `blockmap.dfy`, module `BlockMaps`: the `BlockMap` class, the `Added`
  specification of `add`, and `TotalSize`, the specification of `byte_size`.
- `sequencing.dfy`, module `Sequencing`: the counter rule of `next_seq`.
  `Run` gives the numbers a series of calls hands out. The lemmas prove the
  event-stream rule that these numbers are positive and strictly increasing
  per NSID.
- `storage.dfy`, module `Storage`: `Repo`, `CommitData`, the errors, and the
  `MemoryStorage` class with one method or function per operation.

The source raises exceptions in some places. Each becomes an `Err` result
that leaves the state unchanged:

- the argument `assert`s of `load_repo` and `next_seq` become `AssertionFailed`;
- the `KeyError` of `read` on a missing CID becomes `KeyError(cid)`;
- a decoder failure becomes `DecodeError`.

`has` is the predicate `MemoryStorage.Has`. Its contract relates it to the
found test of `read_blocks`, and the contracts of `Read` and `Write` use it.

Where the base-class docstrings and the in-memory code differ, the model
follows the code:

- `write` returns nothing, although the base class promises a CID
  (arroba/storage.py:158-160).
- `read` raises `KeyError` for a missing CID. The base class says it returns
  None.
- `create_repo` appends a repo only when an equal repo is not already in the
  list. It never updates an existing entry.
- `load_repo` returns None when nothing matches. It does not fail.
- `read_blocks` reports a stored empty block as missing, because `if block:`
  treats empty bytes as false. `has` still reports that block as stored.

## Model

| member | source | states |
|---|---|---|
| `BlockMaps.Added` | arroba/storage.py:48-51 | the encoding of the value is stored under its CID; every other entry keeps its key and bytes |
| `BlockMaps.AddedIdempotent` | arroba/storage.py:36-52 | adding the same value twice leaves the same map as adding it once |
| `BlockMaps.AddedContentAddressed` | arroba/storage.py:48-51 | if every block was stored under its own CID, that still holds after `add` |
| `BlockMaps.BlockMap.constructor` | arroba/storage.py:31-35 | a new block map is empty |
| `BlockMaps.BlockMap.Add` | arroba/storage.py:36-52 | returns the CID of the value's encoding, which is now stored; the new map is `Added` of the old one; the total size grows by the block length when the CID is new |
| `BlockMaps.BlockMap.ByteSize` | arroba/storage.py:54-60 | returns the sum of the lengths of all stored blocks |
| `BlockMaps.TotalSizeRemove` | arroba/storage.py:60 | the sum is independent of the order the blocks are counted in: any one block plus the rest |
| `BlockMaps.TotalSizeUpdate` | arroba/storage.py:51-60 | storing a block under a new CID grows the total by its length; replacing a block swaps its length for the new one |
| `Sequencing.Bump` | arroba/storage.py:251-252 | one call raises the counter of its NSID by exactly one and leaves every other NSID's counter unchanged; positive counters stay positive |
| `Sequencing.Run` | arroba/storage.py:249-253 | a series of calls, each with a non-empty NSID as `next_seq` asserts, hands out one number per call |
| `Sequencing.RunAtLeastStart` | arroba/storage.py:251-252 | counters never go down: every number handed out for an NSID is at least its counter before the series |
| `Sequencing.RunPositive` | arroba/storage.py:174-175 | with positive counters, every number handed out is a positive integer |
| `Sequencing.RunStrictlyIncreasing` | arroba/storage.py:174-175 | numbers for one NSID strictly increase along any series of calls, so none is handed out twice |
| `Sequencing.RunFirstUse` | arroba/storage.py:251 | the first call for an NSID in a series returns that NSID's counter from before the series (1 if unseen) |
| `Sequencing.RunNextIsOneMore` | arroba/storage.py:249-253 | in any series, interleaved or not, each later call for an NSID returns exactly one more than the previous call for that NSID |
| `Sequencing.RunRepeatConsecutive` | arroba/storage.py:249-253 | repeated calls for one NSID return consecutive numbers from its current counter, one more each time |
| `Sequencing.FreshNsidCountsFromOne` | arroba/storage.py:251 | for an NSID never seen before, the calls return 1, 2, 3, ... |
| `Storage.MissingIn` | arroba/storage.py:228-233 | a CID is reported missing exactly when it was requested and is not stored with non-empty bytes; there are never more missing CIDs than requested |
| `Storage.MissingInConcat` | arroba/storage.py:228-233 | missing CIDs keep request order: the missing part of a concatenated request is the concatenation of the missing parts |
| `Storage.FirstMatch` | arroba/storage.py:212-214 | the result is None exactly when no repo matches the DID or handle; otherwise it is the repo at the first matching position of the list |
| `Storage.WithRepo` | arroba/storage.py:205-207 | the old list is a prefix of the new one, which is at most one longer; the new list holds exactly the old repos and the created one; an already-present repo adds nothing |
| `Storage.CreateRepoIdempotent` | arroba/storage.py:205-207 | creating a repo twice leaves the list the same as creating it once |
| `Storage.LoadFindsCreated` | arroba/storage.py:205-214 | after a repo is created, looking up its non-empty DID (or handle) finds a repo with that DID (or handle) |
| `Storage.ApplyCommitContentAddressed` | arroba/storage.py:243-244 | merging content-addressed commit blocks into content-addressed storage keeps it content-addressed |
| `Storage.MemoryStorage.constructor` | arroba/storage.py:196-203 | fresh storage has no repos, no blocks, no head and no counters |
| `Storage.MemoryStorage.CreateRepo` | arroba/storage.py:205-207 | the repo list becomes `WithRepo` of the old one; head and counters are unchanged |
| `Storage.MemoryStorage.LoadRepo` | arroba/storage.py:209-214 | fails unless exactly one of DID and handle is non-empty; otherwise returns the first matching repo in list order, or None |
| `Storage.MemoryStorage.Has` | arroba/storage.py:237-238 | true exactly when the CID is a key of the block map: when `read_blocks` would find it, or when it is stored with an empty block |
| `Storage.MemoryStorage.Read` | arroba/storage.py:216-217 | a `KeyError` exactly when the CID is not stored (`has` is false); for a stored CID, a success exactly when the decoder accepts the block, with its decoding, and otherwise a `DecodeError`; with a sound codec, a stored encoding of `v` reads back as `v` |
| `Storage.MemoryStorage.ReadBlocks` | arroba/storage.py:224-235 | `found` holds exactly the requested CIDs stored with non-empty bytes, mapped to those bytes; `missing` is the rest in request order; no requested CID is in both |
| `Storage.MemoryStorage.ReadMany` | arroba/storage.py:219-222 | fails exactly when a found block does not decode; otherwise maps exactly the found CIDs to their decoded nodes and returns the same missing list as `read_blocks` |
| `Storage.MemoryStorage.Write` | arroba/storage.py:240-241 | the block map becomes `Added` of the old one, so `has` holds for the node's CID; with a sound codec, reading that CID gives the node back; nothing is returned |
| `Storage.MemoryStorage.ApplyCommit` | arroba/storage.py:243-245 | the head becomes the commit's CID; every commit block is stored with the commit's bytes; every other CID keeps its previous presence and bytes; repos and counters are unchanged |
| `Storage.MemoryStorage.NextSeq` | arroba/storage.py:249-253 | fails on an empty NSID with counters unchanged; otherwise returns the NSID's counter (1 if unseen) and bumps only that counter; the result is positive; repos and head are unchanged |

## Left out

- The abstract `Storage` base class (arroba/storage.py:63-184) only raises `NotImplementedError`. Its contract is not a separate interface here. `MemoryStorage` is modelled directly, and its contracts above are the ones that hold.
- DAG-CBOR encoding and decoding, the sha2-256 digest and the `CID` constructor are foreign library calls. They are the parameters of `Codec`. Encoding failures (the encoder raising on non-canonicalizable input) are not modelled, so `encode` is total.
- The multibase (base58btc) of a CID is left out. It only affects the CID's text form.
- The `Repo` class and `arroba/util.py` are not part of this model. A repo is its DID, handle and head CID, compared by value. If the source compares `Repo` objects by identity, `create_repo` deduplicates fewer entries than modelled.
- Stored repos are value snapshots. In the source, `repos` holds the `Repo` objects themselves, and each object updates its own head CID after a commit (arroba/storage.py:246-247), so `load_repo` then returns the new head. In the model, `LoadRepo` returns the head the repo had when `CreateRepo` stored it, and `ApplyCommit` changes no stored repo.
- In the source, `repos` is a class attribute, so the one list is shared by all `MemoryStorage` instances. The model gives each instance its own list.
- Concurrency is left out. `MemoryStorage` is single-threaded, so nothing is claimed about concurrent `next_seq` calls or about atomicity of `apply_commit` across processes.
- `CommitData.seq` is carried but never read by `MemoryStorage`. It is named `seqNo` because `seq` is a Dafny keyword.
- `Storage.MemoryStorage.ReadMany`: a decoder failure is reported as `DecodeError`. The model does not say which block failed or which exception the decoder raised.
- `MemoryStorage.blocks` is a `const` reference. The source never reassigns it after `__init__`.
