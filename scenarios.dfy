/** The store's own tests (src/store.rs), replayed on a fresh store: each
    method builds an empty store directory, calls the `Store` methods in the
    order the test does, and promises what the test checks. The random bytes
    the tests draw are parameters. */
module Scenarios {
  import opened Common
  import opened Files
  import opened ContentStore
  import opened StoreProperties

  /** The store's base directory, directly under the root. */
  const STORE: Path := [Utf8("store")]

  /** A filesystem holding only the empty store directory. */
  function Fresh(): map<Path, Node>
  {
    map[STORE := Dir]
  }

  /** In the fresh store every deposit can go ahead: `tmp/` and the
      destination's directory can be made and nothing is in the way. */
  lemma FreshCanDeposit(id: seq<Byte>, dst: Path)
    requires |id| == ID_BYTES && StoredUnder(STORE, dst)
    ensures CanDeposit(Fresh(), STORE, id, dst)
  {
    StagingNames(STORE, id, dst);
    assert |TmpDir(STORE)| == 2 && |TempPath(STORE, id)| == 3 && |Parent(dst)| == 2;
  }

  /** test_write_object: the key is the digest of the bytes, the object
      reads back as them and is read-only, and `tmp/` can then be
      removed, after which it is gone. */
  method WriteObjectScenario(data: seq<Byte>, id: seq<Byte>, hash: seq<Byte> -> Digest)
    returns (key: Result<Digest, IoError>, read: Result<seq<Byte>, IoError>, readOnly: bool,
             removed: Outcome<IoError>, tmpLeft: bool)
    requires |id| == ID_BYTES
    ensures key == Ok(hash(data)) && read == Ok(data) && readOnly
    ensures removed == Pass && !tmpLeft
  {
    var fs := new FileSystem(Fresh());
    var store := new Store(STORE, fs, hash);
    var dst := ObjectPath(STORE, hash(data));
    assert dst[..|STORE|] == STORE && dst[|STORE|] == OBJECT;
    FreshCanDeposit(id, dst);
    WriteObjectOutcome(Fresh(), STORE, id, data, hash);
    WriteObjectThenRemoveTmp(Fresh(), STORE, id, data, hash);
    key := store.WriteObject(data, id);
    read := store.OpenObject(key.value);
    readOnly := fs.nodes[ObjectPath(STORE, key.value)].readOnly;
    removed := store.RemoveTmpDir();
    tmpLeft := TmpDir(STORE) in fs.nodes;
  }

  /** test_write_block: the signature is the first 64 bytes of the block,
      the block reads back whole and read-only, and `tmp/` can be
      removed. */
  method WriteBlockScenario(block: seq<Byte>, id: seq<Byte>, hash: seq<Byte> -> Digest)
    returns (sig: Result<Signature, IoError>, read: Result<seq<Byte>, IoError>, readOnly: bool,
             removed: Outcome<IoError>)
    requires |id| == ID_BYTES && |block| == 400
    ensures sig == Ok(block[..64]) && read == Ok(block) && readOnly
    ensures removed == Pass
  {
    var fs := new FileSystem(Fresh());
    var store := new Store(STORE, fs, hash);
    var dst := BlockPath(STORE, block[..64]);
    assert dst[..|STORE|] == STORE && dst[|STORE|] == BLOCK;
    FreshCanDeposit(id, dst);
    WriteBlockOutcome(Fresh(), STORE, id, block);
    DepositEmptiesTmp(Fresh(), STORE, id, block, dst);
    sig := store.WriteBlock(block, id);
    read := store.OpenBlock(sig.value);
    readOnly := fs.nodes[BlockPath(STORE, sig.value)].readOnly;
    removed := store.RemoveTmpDir();
  }

  /** test_write_tail: the block is stored, `tail/` and `tail/stuff` are
      directories, `tail/stuff/junk` is a link to `../../block/<sig>` that
      reads as the block, and `tmp/` is still there. */
  method WriteTailScenario(block: seq<Byte>, id: seq<Byte>, hash: seq<Byte> -> Digest)
    returns (sig: Result<Signature, IoError>, read: Result<seq<Byte>, IoError>,
             link: Node, readLink: Result<seq<Byte>, IoError>, dirs: bool, tmpIsDir: bool)
    requires |id| == ID_BYTES && |block| == 400
    ensures sig == Ok(block[..64]) && read == Ok(block)
    ensures link == Symlink(TailToBlock(block[..64])) && readLink == Ok(block)
    ensures dirs && tmpIsDir
  {
    var fs := new FileSystem(Fresh());
    var store := new Store(STORE, fs, hash);
    WriteTailFresh(id, block);
    sig := store.WriteTail("stuff", "junk", block, id);
    read := store.OpenBlock(sig.value);
    link := fs.nodes[TailLink(STORE, "stuff", "junk")];
    readLink := fs.Open(TailLink(STORE, "stuff", "junk"));
    dirs := fs.IsDir(TailDir(STORE));
    var projectIsDir := fs.IsDir(ProjectDir(STORE, "stuff"));
    dirs := dirs && projectIsDir;
    tmpIsDir := fs.IsDir(TmpDir(STORE));
  }

  /** What test_write_tail checks, stated of the state `write_tail` leaves
      in the fresh store. */
  lemma WriteTailFresh(id: seq<Byte>, block: seq<Byte>)
    requires |id| == ID_BYTES && |block| == 400
    ensures var step := WriteTailStep(Fresh(), STORE, id, "stuff", "junk", block);
      && step.result == Ok(block[..64])
      && ReadFile(step.nodes, BlockPath(STORE, block[..64])) == Ok(block)
      && TailLink(STORE, "stuff", "junk") in step.nodes
      && step.nodes[TailLink(STORE, "stuff", "junk")] == Symlink(TailToBlock(block[..64]))
      && ReadFile(step.nodes, TailLink(STORE, "stuff", "junk")) == Ok(block)
      && IsDirIn(step.nodes, TailDir(STORE)) && IsDirIn(step.nodes, ProjectDir(STORE, "stuff"))
      && IsDirIn(step.nodes, TmpDir(STORE))
  {
    var dst := BlockPath(STORE, block[..64]);
    assert dst[..|STORE|] == STORE && dst[|STORE|] == BLOCK;
    FreshCanDeposit(id, dst);
    WriteTailSucceeds(Fresh(), STORE, id, "stuff", "junk", block);
    WriteTailLinksBlock(Fresh(), STORE, id, "stuff", "junk", block);
    WriteBlockOutcome(Fresh(), STORE, id, block);
    LinkTailKeeps(Fresh(), id, block);
    var written := WriteBlockStep(Fresh(), STORE, id, block).nodes;
    var after := WriteTailStep(Fresh(), STORE, id, "stuff", "junk", block).nodes;
    assert after[dst] == written[dst];
    assert ReadFile(after, dst) == ReadFile(written, dst) by {
      assert OpenTarget(after, dst) == Ok(dst) && OpenTarget(written, dst) == Ok(dst);
    }
  }

  /** Linking the tail keeps the stored block and the staging directory. */
  lemma LinkTailKeeps(nodes: map<Path, Node>, id: seq<Byte>, block: seq<Byte>)
    requires |id| == ID_BYTES && |block| == 400
    requires WriteTailStep(nodes, STORE, id, "stuff", "junk", block).result.Ok?
    ensures var written := WriteBlockStep(nodes, STORE, id, block).nodes;
      var after := WriteTailStep(nodes, STORE, id, "stuff", "junk", block).nodes;
      && BlockPath(STORE, block[..64]) in after && after[BlockPath(STORE, block[..64])] == written[BlockPath(STORE, block[..64])]
      && TmpDir(STORE) in after && after[TmpDir(STORE)] == written[TmpDir(STORE)]
  {
    var sig: Signature := block[..64];
    WriteBlockOutcome(nodes, STORE, id, block);
    var written := WriteBlockStep(nodes, STORE, id, block).nodes;
    var dst := BlockPath(STORE, sig);
    var tail, proj, link := TailDir(STORE), ProjectDir(STORE, "stuff"), TailLink(STORE, "stuff", "junk");
    assert dst[|STORE|] == BLOCK && TmpDir(STORE)[|STORE|] == TMP;
    assert tail[|STORE|] == TAIL && proj[|STORE|] == TAIL && link[|STORE|] == TAIL;
    assert WriteTailStep(nodes, STORE, id, "stuff", "junk", block) == LinkTailStep(written, STORE, "stuff", "junk", sig);
    LinkTailKeepsOthers(written, STORE, "stuff", "junk", sig, dst);
    LinkTailKeepsOthers(written, STORE, "stuff", "junk", sig, TmpDir(STORE));
    StagingNames(STORE, id, dst);
  }

  /** test_import_object: a file `artifacts/example` is moved into the
      object area under the digest of its bytes, reads back as them,
      read-only, and no `tmp/` appears. */
  method ImportObjectScenario(content: seq<Byte>, hash: seq<Byte> -> Digest)
    returns (key: Result<Digest, IoError>, read: Result<seq<Byte>, IoError>, readOnly: bool,
             sourceLeft: bool, tmpLeft: bool)
    ensures key == Ok(hash(content)) && read == Ok(content) && readOnly
    ensures !sourceLeft && !tmpLeft
  {
    var example := ArtifactsDir(STORE) + [Utf8("example")];
    var start := map[STORE := Dir, ArtifactsDir(STORE) := Dir, example := File(content, false)];
    var fs := new FileSystem(start);
    var store := new Store(STORE, fs, hash);
    ImportObjectOutcome(start, STORE, example, hash);
    ImportObjectSkipsTmp(start, STORE, example, hash);
    var dst := ObjectPath(STORE, hash(content));
    assert dst != example by {
      assert dst[|STORE|] == OBJECT && example[|STORE|] == ARTIFACTS;
    }
    assert dst !in start by {
      assert dst[|STORE|] == OBJECT && ArtifactsDir(STORE)[|STORE|] == ARTIFACTS;
    }
    assert OpenTarget(start[example := File(content, true)], example) == Ok(example);
    key := store.ImportObject(example);
    read := store.OpenObject(key.value);
    readOnly := fs.nodes[ObjectPath(STORE, key.value)].readOnly;
    sourceLeft := example in fs.nodes;
    tmpLeft := TmpDir(STORE) in fs.nodes;
  }

  /** Writing the same bytes twice gives the same key both times and one
      object holding them. */
  method WriteTwiceScenario(data: seq<Byte>, id1: seq<Byte>, id2: seq<Byte>, hash: seq<Byte> -> Digest)
    returns (key1: Result<Digest, IoError>, key2: Result<Digest, IoError>, read: Result<seq<Byte>, IoError>)
    requires |id1| == ID_BYTES && |id2| == ID_BYTES
    ensures key1 == key2 == Ok(hash(data)) && read == Ok(data)
  {
    var fs := new FileSystem(Fresh());
    var store := new Store(STORE, fs, hash);
    var dst := ObjectPath(STORE, hash(data));
    assert dst[..|STORE|] == STORE && dst[|STORE|] == OBJECT;
    FreshCanDeposit(id1, dst);
    WriteObjectOutcome(Fresh(), STORE, id1, data, hash);
    var first := WriteObjectStep(Fresh(), STORE, id1, data, hash);
    assert TempPath(STORE, id2) !in first.nodes by {
      StagingNames(STORE, id1, dst);
      assert TempPath(STORE, id2) != dst by {
        assert dst[|STORE|] == OBJECT && TempPath(STORE, id2)[|STORE|] == TMP;
      }
      assert TempPath(STORE, id2) != TmpDir(STORE) && TempPath(STORE, id2) != Parent(dst);
    }
    WriteObjectIdempotent(Fresh(), STORE, id1, id2, data, hash);
    key1 := store.WriteObject(data, id1);
    key2 := store.WriteObject(data, id2);
    read := store.OpenObject(key2.value);
  }
}
