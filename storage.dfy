/** The storage layer of a repository: `CommitData`, and `MemoryStorage`, the
    in-memory implementation of the storage contract, holding a block map, the
    head commit CID, the list of repos and the per-NSID sequence counters. */
module Storage {
  import opened Wrappers
  import opened Content
  import opened BlockMaps
  import opened Sequencing

  /** The repo metadata storage keeps. An absent handle is the empty string:
      like `None`, it is falsy and never matches a lookup. */
  datatype Repo = Repo(did: string, handle: string, head: Cid)

  /** A formatted commit: its CID, the blocks it adds, the previous commit's
      CID and its sequence number for the repo event stream. */
  datatype CommitData = CommitData(cid: Cid, blocks: BlockMap, prev: Option<Cid>, seqNo: int)

  /** The exceptions the in-memory storage raises: a failed argument
      `assert`, a missing key, and a block the decoder rejects. */
  datatype StorageError = AssertionFailed | KeyError(cid: Cid) | DecodeError

  /** `read_blocks` counts a block as found only when it is stored and
      non-empty (an empty byte string is falsy). */
  predicate Present(m: map<Cid, Block>, c: Cid)
  {
    c in m && |m[c]| > 0
  }

  /** The CIDs of `cids` that `read_blocks` reports missing, in input order. */
  function MissingIn(m: map<Cid, Block>, cids: seq<Cid>): (r: seq<Cid>)
    ensures |r| <= |cids|
    ensures forall c :: c in r <==> c in cids && !Present(m, c)
    decreases |cids|
  {
    if cids == [] then []
    else
      var last := cids[|cids| - 1];
      MissingIn(m, cids[..|cids| - 1]) + (if Present(m, last) then [] else [last])
  }

  /** Missing CIDs keep the order of the request: the missing part of a
      concatenation is the concatenation of the missing parts. */
  lemma {:induction false} MissingInConcat(m: map<Cid, Block>, a: seq<Cid>, b: seq<Cid>)
    ensures MissingIn(m, a + b) == MissingIn(m, a) + MissingIn(m, b)
    decreases |b|
  {
    if b == [] {
      assert a + b == a;
    } else {
      var init := b[..|b| - 1];
      assert (a + b)[..|a + b| - 1] == a + init;
      MissingInConcat(m, a, init);
    }
  }

  /** Whether a repo answers a `load_repo(did, handle)` lookup. */
  predicate Matches(repo: Repo, did: string, handle: string)
  {
    (did != "" && repo.did == did) || (handle != "" && repo.handle == handle)
  }

  /** The first repo, in list order, that answers the lookup. */
  function FirstMatch(repos: seq<Repo>, did: string, handle: string): (r: Option<Repo>)
    ensures r.None? <==> forall i :: 0 <= i < |repos| ==> !Matches(repos[i], did, handle)
    ensures r.Some? ==> exists i :: 0 <= i < |repos| && repos[i] == r.value && Matches(repos[i], did, handle)
                                    && forall j :: 0 <= j < i ==> !Matches(repos[j], did, handle)
    decreases |repos|
  {
    if repos == [] then None
    else if Matches(repos[0], did, handle) then Some(repos[0])
    else
      var r := FirstMatch(repos[1..], did, handle);
      assert r.Some? ==> exists i :: 1 <= i < |repos| && repos[i] == r.value && Matches(repos[i], did, handle)
                                     && forall j :: 0 <= j < i ==> !Matches(repos[j], did, handle);
      r
  }

  /** The repo list after `create_repo(repo)`: appended only when not already
      present. */
  function WithRepo(repos: seq<Repo>, repo: Repo): (r: seq<Repo>)
    ensures repos <= r && |r| <= |repos| + 1
    ensures forall x :: x in r <==> x in repos || x == repo
    ensures repo in repos ==> |r| == |repos|
  {
    if repo in repos then repos else repos + [repo]
  }

  /** Creating a repo twice leaves the list as creating it once. */
  lemma CreateRepoIdempotent(repos: seq<Repo>, repo: Repo)
    ensures WithRepo(WithRepo(repos, repo), repo) == WithRepo(repos, repo)
  {
  }

  /** Once a repo is created, looking up its DID (or its handle) finds a repo
      with that DID (or handle): the first one created with it. */
  lemma LoadFindsCreated(repos: seq<Repo>, repo: Repo)
    ensures repo.did != "" ==> FirstMatch(WithRepo(repos, repo), repo.did, "").Some?
                               && FirstMatch(WithRepo(repos, repo), repo.did, "").value.did == repo.did
    ensures repo.handle != "" ==> FirstMatch(WithRepo(repos, repo), "", repo.handle).Some?
                                  && FirstMatch(WithRepo(repos, repo), "", repo.handle).value.handle == repo.handle
  {
  }

  /** The in-memory storage. In the source `repos` is a class attribute, so
      the one list is shared by every instance; here each instance owns its
      list. */
  class MemoryStorage {
    var repos: seq<Repo>
    const blocks: BlockMap
    var head: Option<Cid>
    var sequences: map<string, nat>

    ghost predicate Valid()
      reads this
    {
      Positive(sequences)
    }

    constructor ()
      ensures Valid() && fresh(blocks)
      ensures repos == [] && blocks.contents == map[] && head == None && sequences == map[]
    {
      repos := [];
      blocks := new BlockMap();
      head := None;
      sequences := map[];
    }

    /** Stores a repo's metadata, unless an equal repo is already stored. */
    method CreateRepo(repo: Repo)
      modifies this
      ensures repos == WithRepo(old(repos), repo)
      ensures head == old(head) && sequences == old(sequences)
    {
      if repo !in repos {
        repos := repos + [repo];
      }
    }

    /** Looks a repo up by DID or by handle; exactly one of them must be
      given. */
    method LoadRepo(did: string, handle: string) returns (r: Result<Option<Repo>, StorageError>)
      ensures (did != "") == (handle != "") ==> r == Err(AssertionFailed)
      ensures (did != "") != (handle != "") ==> r == Ok(FirstMatch(repos, did, handle))
    {
      if (did != "") == (handle != "") {
        return Err(AssertionFailed);
      }
      for i := 0 to |repos|
        invariant FirstMatch(repos[i..], did, handle) == FirstMatch(repos, did, handle)
      {
        var repo := repos[i];
        if Matches(repo, did, handle) {
          return Ok(Some(repo));
        }
        assert repos[i..][1..] == repos[i + 1..];
      }
      return Ok(None);
    }

    /** Whether a block is stored under `cid`. */
    predicate Has(cid: Cid): (b: bool)
      reads blocks
      ensures b <==> Present(blocks.contents, cid) || (cid in blocks.contents && blocks.contents[cid] == [])
    {
      cid in blocks.contents
    }

    /** Reads and decodes the block stored under `cid`. */
    function Read(lib: Codec, cid: Cid): (r: Result<Node, StorageError>)
      reads blocks
      ensures r == Err(KeyError(cid)) <==> !Has(cid)
      ensures r.Ok? ==> Has(cid) && lib.decode(blocks.contents[cid]) == Some(r.value)
      ensures Has(cid) ==> (r.Ok? <==> lib.decode(blocks.contents[cid]).Some?)
      ensures Has(cid) && r.Err? ==> r.error == DecodeError
      ensures forall v :: lib.Sound() && Has(cid) && blocks.contents[cid] == lib.encode(v) ==> r == Ok(v)
    {
      if cid !in blocks.contents then Err(KeyError(cid))
      else match lib.decode(blocks.contents[cid])
        case Some(node) => Ok(node)
        case None => Err(DecodeError)
    }

    /** Splits `cids` into the blocks found, by CID, and the CIDs missing, in
      request order. Nothing is modified. */
    method ReadBlocks(cids: seq<Cid>) returns (found: map<Cid, Block>, missing: seq<Cid>)
      ensures forall c :: c in found <==> c in cids && Present(blocks.contents, c)
      ensures forall c :: c in found ==> c in blocks.contents && found[c] == blocks.contents[c]
      ensures missing == MissingIn(blocks.contents, cids)
      ensures forall c :: c in cids ==> (c in found <==> c !in missing)
    {
      var m := blocks.contents;
      found := map[];
      missing := [];
      for i := 0 to |cids|
        invariant forall c :: c in found <==> c in cids[..i] && Present(m, c)
        invariant forall c :: c in found ==> c in m && found[c] == m[c]
        invariant missing == MissingIn(m, cids[..i])
      {
        var cid := cids[i];
        assert cids[..i + 1] == cids[..i] + [cid];
        assert cids[..i + 1][..i] == cids[..i];
        if Present(m, cid) {
          found := found[cid := m[cid]];
        } else {
          missing := missing + [cid];
        }
      }
      assert cids[..|cids|] == cids;
    }

    /** Reads and decodes the blocks of `cids`: the nodes found, by CID, and
      the CIDs missing. Fails if any found block does not decode. */
    method ReadMany(lib: Codec, cids: seq<Cid>) returns (r: Result<(map<Cid, Node>, seq<Cid>), StorageError>)
      ensures r.Ok? <==> forall c :: c in cids && Present(blocks.contents, c) ==> lib.decode(blocks.contents[c]).Some?
      ensures r.Err? ==> r.error == DecodeError
      ensures r.Ok? ==> forall c :: c in r.value.0 <==> c in cids && Present(blocks.contents, c)
      ensures r.Ok? ==> forall c :: c in r.value.0 ==> lib.decode(blocks.contents[c]) == Some(r.value.0[c])
      ensures r.Ok? ==> r.value.1 == MissingIn(blocks.contents, cids)
    {
      var found, missing := ReadBlocks(cids);
      if forall c :: c in found ==> lib.decode(found[c]).Some? {
        var nodes := map c | c in found :: lib.decode(found[c]).value;
        r := Ok((nodes, missing));
      } else {
        r := Err(DecodeError);
      }
    }

    /** Encodes and stores one node. The CID is computed but not returned:
      the method returns nothing. */
    method Write(lib: Codec, node: Node)
      modifies blocks
      ensures blocks.contents == Added(lib, old(blocks.contents), node)
      ensures Has(lib.CidOf(lib.encode(node)))
      ensures lib.Sound() ==> Read(lib, lib.CidOf(lib.encode(node))) == Ok(node)
    {
      var cid := blocks.Add(lib, node);
    }

    /** Merges the commit's blocks into storage and moves the head to the
      commit. */
    method ApplyCommit(commit: CommitData)
      modifies this, blocks
      ensures head == Some(commit.cid)
      ensures blocks.contents == old(blocks.contents) + old(commit.blocks.contents)
      ensures forall c :: c in old(commit.blocks.contents) ==> c in blocks.contents && blocks.contents[c] == old(commit.blocks.contents)[c]
      ensures forall c :: c !in old(commit.blocks.contents) ==>
                (c in blocks.contents <==> c in old(blocks.contents)) &&
                (c in blocks.contents ==> blocks.contents[c] == old(blocks.contents)[c])
      ensures repos == old(repos) && sequences == old(sequences)
    {
      blocks.contents := blocks.contents + commit.blocks.contents;
      head := Some(commit.cid);
    }

    /** Hands out the next sequence number for `nsid`, which must be
      non-empty. */
    method NextSeq(nsid: string) returns (r: Result<nat, StorageError>)
      requires Valid()
      modifies this
      ensures Valid()
      ensures nsid == "" ==> r == Err(AssertionFailed) && sequences == old(sequences)
      ensures nsid != "" ==> r == Ok(NextFor(old(sequences), nsid)) && sequences == Bump(old(sequences), nsid)
      ensures r.Ok? ==> r.value >= 1
      ensures repos == old(repos) && head == old(head)
    {
      if nsid == "" {
        return Err(AssertionFailed);
      }
      if nsid !in sequences {
        sequences := sequences[nsid := 1];
      }
      var next := sequences[nsid];
      sequences := sequences[nsid := sequences[nsid] + 1];
      return Ok(next);
    }
  }

  /** Merging a content-addressed commit keeps the store content-addressed. */
  lemma ApplyCommitContentAddressed(lib: Codec, stored: map<Cid, Block>, staged: map<Cid, Block>)
    requires lib.ContentAddressed(stored) && lib.ContentAddressed(staged)
    ensures lib.ContentAddressed(stored + staged)
  {
  }
}
