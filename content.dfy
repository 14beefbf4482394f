/** The content-addressing layer the block store relies on: DAG-CBOR encoding
    of a value into a block, and the CIDv1 of a block, built from a sha2-256
    multihash with the dag-cbor multicodec.

    The encoder, the decoder and the hash function are library code outside
    this model, so they are not defined here: a `Codec` value carries them,
    and every operation that needs them takes one as a parameter. Whatever is
    proved therefore holds for every codec; a property that needs `decode` to
    undo `encode` says so with the hypothesis `Sound()`. */
module Content {
  import opened Wrappers

  /** A decoded DAG-CBOR value: a record, a serialized MST node or a commit. */
  type Node(!new)

  /** The encoded bytes of one node. */
  type Block = seq<bv8>

  /** The CID version `BlockMap.add` builds. */
  const CID_VERSION: nat := 1

  /** The multicodec code of dag-cbor. */
  const DAG_CBOR: nat := 0x71

  /** The multihash code of sha2-256. */
  const SHA2_256: nat := 0x12

  /** A content identifier: version, content codec, multihash function code
      and digest. The multibase (base58btc) only affects how a CID is printed,
      so it is not part of the value. */
  datatype Cid = Cid(version: nat, codec: nat, hashCode: nat, digest: seq<bv8>)

  /** The library functions: `dag_cbor.encode`, `dag_cbor.decode` (None where
      it raises) and the raw sha2-256 digest. */
  datatype Codec = Codec(encode: Node -> Block, decode: Block -> Option<Node>, sha256: Block -> seq<bv8>)
  {
    /** The CID of a block, as `BlockMap.add` builds it. */
    function CidOf(block: Block): Cid
    {
      Cid(CID_VERSION, DAG_CBOR, SHA2_256, sha256(block))
    }

    /** Decoding undoes encoding. */
    ghost predicate Sound()
    {
      forall v :: decode(encode(v)) == Some(v)
    }

    /** Every block in `m` is stored under its own CID. */
    ghost predicate ContentAddressed(m: map<Cid, Block>)
    {
      forall c :: c in m ==> c == CidOf(m[c])
    }
  }
}
