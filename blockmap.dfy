/** `BlockMap`: a mutable map from CID to encoded block (a dict subclass in
    the source), with `add` and `byte_size`. */
module BlockMaps {
  import opened Content

  /** The cumulative length of the blocks in `m`. */
  ghost function TotalSize(m: map<Cid, Block>): nat
    decreases |m|
  {
    if m == map[] then 0
    else
      var c :| c in m;
      assert (m - {c}).Keys == m.Keys - {c};
      |m[c]| + TotalSize(m - {c})
  }

  /** The total does not depend on which block is counted first. */
  lemma {:induction false} TotalSizeRemove(m: map<Cid, Block>, c: Cid)
    requires c in m
    ensures TotalSize(m) == |m[c]| + TotalSize(m - {c})
    decreases |m|
  {
    var d :| d in m && TotalSize(m) == |m[d]| + TotalSize(m - {d});
    if d != c {
      assert (m - {d}).Keys == m.Keys - {d};
      assert (m - {c}).Keys == m.Keys - {c};
      TotalSizeRemove(m - {d}, c);
      TotalSizeRemove(m - {c}, d);
      assert m - {d} - {c} == m - {c} - {d};
    }
  }

  /** Storing `b` under `c` grows the total by `|b|`, less the block it replaces. */
  lemma {:induction false} TotalSizeUpdate(m: map<Cid, Block>, c: Cid, b: Block)
    ensures c !in m ==> TotalSize(m[c := b]) == TotalSize(m) + |b|
    ensures c in m ==> TotalSize(m[c := b]) + |m[c]| == TotalSize(m) + |b|
  {
    TotalSizeRemove(m[c := b], c);
    if c in m {
      TotalSizeRemove(m, c);
      assert m[c := b] - {c} == m - {c};
    } else {
      assert m[c := b] - {c} == m;
    }
  }

  /** The map `add(val)` leaves behind: the encoding of `val` stored under its CID. */
  function Added(lib: Codec, m: map<Cid, Block>, val: Node): (r: map<Cid, Block>)
    ensures lib.CidOf(lib.encode(val)) in r && r[lib.CidOf(lib.encode(val))] == lib.encode(val)
    ensures forall c :: c != lib.CidOf(lib.encode(val)) ==> (c in r <==> c in m)
    ensures forall c :: c in m && c != lib.CidOf(lib.encode(val)) ==> r[c] == m[c]
  {
    m[lib.CidOf(lib.encode(val)) := lib.encode(val)]
  }

  /** Adding the same value twice leaves the same map as adding it once. */
  lemma AddedIdempotent(lib: Codec, m: map<Cid, Block>, val: Node)
    ensures Added(lib, Added(lib, m, val), val) == Added(lib, m, val)
  {
  }

  /** Adding keeps a content-addressed map content-addressed. */
  lemma AddedContentAddressed(lib: Codec, m: map<Cid, Block>, val: Node)
    requires lib.ContentAddressed(m)
    ensures lib.ContentAddressed(Added(lib, m, val))
  {
  }

  class BlockMap {
    /** The dict's entries. */
    var contents: map<Cid, Block>

    constructor ()
      ensures contents == map[]
    {
      contents := map[];
    }

    /** Encodes `val`, stores the block under its CID and returns the CID. */
    method Add(lib: Codec, val: Node) returns (cid: Cid)
      modifies this
      ensures cid == lib.CidOf(lib.encode(val)) && cid in contents
      ensures contents == Added(lib, old(contents), val)
      ensures cid !in old(contents) ==> TotalSize(contents) == TotalSize(old(contents)) + |lib.encode(val)|
    {
      var block := lib.encode(val);
      cid := lib.CidOf(block);
      TotalSizeUpdate(contents, cid, block);
      contents := contents[cid := block];
    }

    /** The cumulative size of all blocks, in bytes. */
    method ByteSize() returns (n: nat)
      ensures n == TotalSize(contents)
    {
      n := 0;
      var rest := contents;
      while rest != map[]
        invariant n + TotalSize(rest) == TotalSize(contents)
        decreases |rest|
      {
        var c :| c in rest;
        TotalSizeRemove(rest, c);
        assert (rest - {c}).Keys == rest.Keys - {c};
        n := n + |rest[c]|;
        rest := rest - {c};
      }
    }
  }
}
