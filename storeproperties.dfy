/** What the store's operations promise: exactly when they succeed, the
    filesystem they leave behind, that a failure never leaves a partial
    object or block at its canonical path, that the links they create lead
    back to the stored bytes, and the layout of the names. */
module StoreProperties {
  import opened Common
  import opened Base32
  import opened Files
  import opened Digests
  import opened Manifests
  import opened ContentStore

  /** `create_dir_if_needed(p)` succeeds. */
  predicate DirReady(nodes: map<Path, Node>, p: Path)
  {
    IsDirIn(nodes, p) || (p != [] && p !in nodes && IsDirIn(nodes, Parent(p)))
  }

  /** The nodes once `p` is a directory. */
  function WithDir(nodes: map<Path, Node>, p: Path): map<Path, Node>
  {
    if IsDirIn(nodes, p) then nodes else nodes[p := Dir]
  }

  lemma DirIfNeededOutcome(nodes: map<Path, Node>, p: Path)
    ensures DirIfNeeded(nodes, p).result.Pass? <==> DirReady(nodes, p)
    ensures DirIfNeeded(nodes, p).nodes == if DirReady(nodes, p) then WithDir(nodes, p) else nodes
  {
    if !IsDirIn(nodes, p) && p != [] && p !in nodes {
      assert DirIfNeeded(nodes, p) == Step(ParentCheck(nodes, p), if IsDirIn(nodes, Parent(p)) then nodes[p := Dir] else nodes);
    }
  }

  /** `dst` is `base/<dir>/<name>` for a directory other than `tmp`: where
      objects and blocks are kept. */
  predicate StoredUnder(base: Path, dst: Path)
  {
    |dst| == |base| + 2 && dst[..|base|] == base && dst[|base|] != TMP
  }

  /** Staging under `tmp/` and renaming to `dst` succeeds. */
  predicate CanDeposit(nodes: map<Path, Node>, base: Path, id: seq<Byte>, dst: Path)
    requires |id| == ID_BYTES && dst != []
  {
    DirReady(nodes, TmpDir(base)) && TempPath(base, id) !in nodes &&
    DirReady(nodes, Parent(dst)) && !(dst in nodes && nodes[dst].Dir?)
  }

  /** The nodes after a successful deposit: `tmp/` and the destination's
      directory exist, the staging file is gone, and `dst` is a read-only
      file holding `content`. */
  function Deposited(nodes: map<Path, Node>, base: Path, dst: Path, content: seq<Byte>): map<Path, Node>
    requires dst != []
  {
    WithDir(WithDir(nodes, TmpDir(base)), Parent(dst))[dst := File(content, true)]
  }

  lemma StagingNames(base: Path, id: seq<Byte>, dst: Path)
    requires |id| == ID_BYTES && StoredUnder(base, dst)
    ensures Parent(TempPath(base, id)) == TmpDir(base) && Parent(TmpDir(base)) == base
    ensures Parent(Parent(dst)) == base
    ensures Parent(dst) != TmpDir(base) && Parent(dst) != TempPath(base, id)
    ensures dst != TmpDir(base) && dst != TempPath(base, id) && dst != Parent(dst)
    ensures TempPath(base, id) != TmpDir(base) && base != TmpDir(base) && base != TempPath(base, id)
    ensures base != Parent(dst) && base != dst
  {
    assert Parent(dst)[|base|] == dst[|base|];
    assert TmpDir(base)[|base|] == TMP;
    assert TempPath(base, id)[|base|] == TMP;
  }

  /** `_write_content` followed by `to_canonical`: it succeeds exactly when
      the staging directory and the destination's directory can be made,
      the staging name is free and the destination is not a directory; then
      the destination holds the bytes, read-only, and nothing is left in
      `tmp/`; on failure only `tmp/`, the staging file and the destination's
      directory may have changed, never the destination itself. */
  lemma DepositOutcome(nodes: map<Path, Node>, base: Path, id: seq<Byte>, content: seq<Byte>, dst: Path)
    requires |id| == ID_BYTES && StoredUnder(base, dst)
    ensures DepositStep(nodes, base, id, content, dst).result.Pass? <==> CanDeposit(nodes, base, id, dst)
    ensures DepositStep(nodes, base, id, content, dst).result.Pass? ==>
      DepositStep(nodes, base, id, content, dst).nodes == Deposited(nodes, base, dst, content)
    ensures DepositStep(nodes, base, id, content, dst).result.Fail? ==>
      SameOutside(nodes, DepositStep(nodes, base, id, content, dst).nodes,
                  {TmpDir(base), TempPath(base, id), Parent(dst)})
  {
    StagingNames(base, id, dst);
    var tmpDir, tmp, dir := TmpDir(base), TempPath(base, id), Parent(dst);
    DirIfNeededOutcome(nodes, tmpDir);
    if !DirReady(nodes, tmpDir) {
      return;
    }
    var n1 := WithDir(nodes, tmpDir);
    assert DirIfNeeded(nodes, tmpDir).nodes == n1;
    if tmp in nodes {
      assert tmp in n1;
      return;
    }
    assert ParentCheck(n1, tmp) == Pass;
    var n2 := n1[tmp := File(content, true)];
    assert WriteContentStep(nodes, base, id, content) == Step(Ok(tmp), n2);
    assert IsDirIn(n2, dir) == IsDirIn(nodes, dir);
    assert (dir in n2) == (dir in nodes);
    assert IsDirIn(n2, base) == IsDirIn(nodes, base);
    assert DirReady(n2, dir) == DirReady(nodes, dir);
    DirIfNeededOutcome(n2, dir);
    if !DirReady(nodes, dir) {
      return;
    }
    var n3 := WithDir(n2, dir);
    assert n3 == WithDir(n1, dir)[tmp := File(content, true)];
    assert ParentCheck(n3, dst) == Pass;
    assert (dst in n3 && n3[dst].Dir?) == (dst in nodes && nodes[dst].Dir?);
    if dst in nodes && nodes[dst].Dir? {
      return;
    }
    assert MoveEntry(n3, tmp, dst) == Step(Pass, (n3 - {tmp})[dst := File(content, true)]);
    assert n3 - {tmp} == WithDir(n1, dir);
  }

  lemma DepositedFile(nodes: map<Path, Node>, base: Path, dst: Path, content: seq<Byte>)
    requires dst != []
    ensures ReadFile(Deposited(nodes, base, dst, content), dst) == Ok(content)
  {
    var after := Deposited(nodes, base, dst, content);
    assert after[dst] == File(content, true);
    assert OpenTarget(after, dst) == Ok(dst);
  }

  /** `write_object` succeeds exactly when the deposit can, returns the
      SHA-384 of the bytes, and leaves them readable, read-only, at
      `object/<base32 digest>`; a failure leaves that path untouched. */
  lemma WriteObjectOutcome(nodes: map<Path, Node>, base: Path, id: seq<Byte>, data: seq<Byte>,
                           hash: seq<Byte> -> Digest)
    requires |id| == ID_BYTES
    ensures WriteObjectStep(nodes, base, id, data, hash).result.Ok? <==>
      CanDeposit(nodes, base, id, ObjectPath(base, hash(data)))
    ensures WriteObjectStep(nodes, base, id, data, hash).result.Ok? ==>
      WriteObjectStep(nodes, base, id, data, hash).result.value == hash(data) &&
      WriteObjectStep(nodes, base, id, data, hash).nodes ==
        Deposited(nodes, base, ObjectPath(base, hash(data)), data) &&
      ReadFile(WriteObjectStep(nodes, base, id, data, hash).nodes, ObjectPath(base, hash(data))) == Ok(data)
    ensures WriteObjectStep(nodes, base, id, data, hash).result.Err? ==>
      SameOutside(nodes, WriteObjectStep(nodes, base, id, data, hash).nodes,
                  {TmpDir(base), TempPath(base, id), base + [OBJECT]})
  {
    var dst := ObjectPath(base, hash(data));
    assert dst[..|base|] == base && dst[|base|] == OBJECT && Parent(dst) == base + [OBJECT];
    DepositOutcome(nodes, base, id, data, dst);
    DepositedFile(nodes, base, dst, data);
  }

  /** `write_block` files the block under its first 64 bytes, with the same
      guarantees as `write_object`. */
  lemma WriteBlockOutcome(nodes: map<Path, Node>, base: Path, id: seq<Byte>, block: seq<Byte>)
    requires |id| == ID_BYTES && |block| == 400
    ensures WriteBlockStep(nodes, base, id, block).result.Ok? <==>
      CanDeposit(nodes, base, id, BlockPath(base, block[..64]))
    ensures WriteBlockStep(nodes, base, id, block).result.Ok? ==>
      WriteBlockStep(nodes, base, id, block).result.value == block[..64] &&
      WriteBlockStep(nodes, base, id, block).nodes == Deposited(nodes, base, BlockPath(base, block[..64]), block) &&
      ReadFile(WriteBlockStep(nodes, base, id, block).nodes, BlockPath(base, block[..64])) == Ok(block)
    ensures WriteBlockStep(nodes, base, id, block).result.Err? ==>
      SameOutside(nodes, WriteBlockStep(nodes, base, id, block).nodes,
                  {TmpDir(base), TempPath(base, id), base + [BLOCK]})
  {
    var dst := BlockPath(base, block[..64]);
    assert dst[..|base|] == base && dst[|base|] == BLOCK && Parent(dst) == base + [BLOCK];
    DepositOutcome(nodes, base, id, block, dst);
    DepositedFile(nodes, base, dst, block);
  }

  /** Writing the same bytes again, under a fresh staging name, succeeds and
      changes nothing: objects are content-addressed and write-once. */
  lemma WriteObjectIdempotent(nodes: map<Path, Node>, base: Path, id: seq<Byte>, id2: seq<Byte>,
                              data: seq<Byte>, hash: seq<Byte> -> Digest)
    requires |id| == ID_BYTES && |id2| == ID_BYTES
    requires WriteObjectStep(nodes, base, id, data, hash).result.Ok?
    requires TempPath(base, id2) !in WriteObjectStep(nodes, base, id, data, hash).nodes
    ensures WriteObjectStep(WriteObjectStep(nodes, base, id, data, hash).nodes, base, id2, data, hash)
         == WriteObjectStep(nodes, base, id, data, hash)
  {
    var dst := ObjectPath(base, hash(data));
    assert dst[..|base|] == base && dst[|base|] == OBJECT && Parent(dst) == base + [OBJECT];
    StagingNames(base, id, dst);
    WriteObjectOutcome(nodes, base, id, data, hash);
    var n1 := WriteObjectStep(nodes, base, id, data, hash).nodes;
    assert IsDirIn(n1, TmpDir(base)) && IsDirIn(n1, Parent(dst));
    assert CanDeposit(n1, base, id2, dst);
    WriteObjectOutcome(n1, base, id2, data, hash);
    assert Deposited(n1, base, dst, data) == n1[dst := File(data, true)];
    assert n1[dst := File(data, true)] == n1;
  }

  /** After a successful deposit into a `tmp/` that held nothing, `tmp/` is
      empty again, so `remove_tmp_dir` succeeds. */
  lemma DepositEmptiesTmp(nodes: map<Path, Node>, base: Path, id: seq<Byte>, content: seq<Byte>, dst: Path)
    requires |id| == ID_BYTES && StoredUnder(base, dst)
    requires !HasEntries(nodes, TmpDir(base))
    requires DepositStep(nodes, base, id, content, dst).result.Pass?
    ensures RemoveEmptyDir(DepositStep(nodes, base, id, content, dst).nodes, TmpDir(base)).result == Pass
  {
    DepositOutcome(nodes, base, id, content, dst);
    StagingNames(base, id, dst);
    var after := Deposited(nodes, base, dst, content);
    assert after[TmpDir(base)] == Dir;
    forall q | q in after
      ensures !Below(TmpDir(base), q)
    {
      if q == dst || q == Parent(dst) {
        assert q[|base|] == dst[|base|];
      } else if q != TmpDir(base) {
        assert q in nodes;
      }
    }
  }

  /** test_write_object and test_write_block: after writing into a fresh
      store, `tmp/` can be removed. */
  lemma WriteObjectThenRemoveTmp(nodes: map<Path, Node>, base: Path, id: seq<Byte>, data: seq<Byte>,
                                 hash: seq<Byte> -> Digest)
    requires |id| == ID_BYTES
    requires !HasEntries(nodes, TmpDir(base))
    requires WriteObjectStep(nodes, base, id, data, hash).result.Ok?
    ensures RemoveEmptyDir(WriteObjectStep(nodes, base, id, data, hash).nodes, TmpDir(base)).result == Pass
  {
    var dst := ObjectPath(base, hash(data));
    assert dst[..|base|] == base && dst[|base|] == OBJECT;
    DepositEmptiesTmp(nodes, base, id, data, dst);
  }

  /** Reading through a link whose target resolves to a regular file. */
  lemma ReadThroughLink(nodes: map<Path, Node>, link: Path, dst: Path)
    requires link != [] && link in nodes && nodes[link].Symlink?
    requires Resolve(Parent(link), nodes[link].target) == dst
    requires dst in nodes && nodes[dst].File?
    ensures ReadFile(nodes, link) == Ok(nodes[dst].content)
  {
    assert OpenTarget(nodes, link) == Ok(dst);
  }

  /** The link `manifest.json` holds, read from the base directory, names
      the object. */
  lemma ManifestLinkResolves(base: Path, key: Digest)
    ensures Resolve(base, ObjectRelpath(key)) == ObjectPath(base, key)
  {
    var rel := ObjectRelpath(key);
    assert rel[1..][1..] == [];
    assert Resolve(base + [OBJECT], rel[1..]) == Resolve(base + rel, []);
  }

  /** `write_manifest` succeeds exactly when the object can be written and
      `manifest.json` can be created; then reading `manifest.json` gives
      the bytes back. */
  lemma WriteManifestOutcome(nodes: map<Path, Node>, base: Path, id: seq<Byte>, data: seq<Byte>,
                             hash: seq<Byte> -> Digest)
    requires |id| == ID_BYTES
    ensures WriteManifestStep(nodes, base, id, data, hash).result.Ok? <==>
      CanDeposit(nodes, base, id, ObjectPath(base, hash(data))) &&
      IsDirIn(nodes, base) && ManifestLink(base) !in nodes
    ensures WriteManifestStep(nodes, base, id, data, hash).result.Ok? ==>
      WriteManifestStep(nodes, base, id, data, hash).result.value == hash(data) &&
      ReadFile(WriteManifestStep(nodes, base, id, data, hash).nodes, ManifestLink(base)) == Ok(data) &&
      ReadFile(WriteManifestStep(nodes, base, id, data, hash).nodes, ObjectPath(base, hash(data))) == Ok(data)
  {
    var key := hash(data);
    var dst := ObjectPath(base, key);
    WriteObjectOutcome(nodes, base, id, data, hash);
    var written := WriteObjectStep(nodes, base, id, data, hash);
    if written.result.Ok? {
      ObjectWriteKeepsLink(nodes, base, key, data);
      assert written.nodes[dst] == File(data, true);
      LinkManifestOutcome(written.nodes, base, key, data);
      assert WriteManifestStep(nodes, base, id, data, hash).nodes ==
        MakeLink(written.nodes, ObjectRelpath(key), ManifestLink(base)).nodes;
    }
  }

  /** Depositing an object leaves `manifest.json` and the base directory as
      they were. */
  lemma ObjectWriteKeepsLink(nodes: map<Path, Node>, base: Path, key: Digest, data: seq<Byte>)
    ensures var after := Deposited(nodes, base, ObjectPath(base, key), data);
      && (ManifestLink(base) in after <==> ManifestLink(base) in nodes)
      && IsDirIn(after, base) == IsDirIn(nodes, base)
  {
    var dst := ObjectPath(base, key);
    var link := ManifestLink(base);
    assert Parent(dst) == base + [OBJECT];
    assert link[|base|] == MANIFEST && dst[|base|] == OBJECT && TmpDir(base)[|base|] == TMP;
    assert link != TmpDir(base) && link != Parent(dst) && link != dst;
    assert base != TmpDir(base) && base != Parent(dst) && base != dst;
  }

  /** Linking `manifest.json` to a stored object succeeds exactly when the
      base directory exists and the link does not; the link then reads as
      the object. */
  lemma LinkManifestOutcome(n: map<Path, Node>, base: Path, key: Digest, data: seq<Byte>)
    requires ObjectPath(base, key) in n && n[ObjectPath(base, key)] == File(data, true)
    ensures var linked := MakeLink(n, ObjectRelpath(key), ManifestLink(base));
      && (linked.result.Pass? <==> IsDirIn(n, base) && ManifestLink(base) !in n)
      && (linked.result.Pass? ==>
            ReadFile(linked.nodes, ManifestLink(base)) == Ok(data) &&
            ReadFile(linked.nodes, ObjectPath(base, key)) == Ok(data))
  {
    var dst := ObjectPath(base, key);
    var link := ManifestLink(base);
    assert link[|base|] == MANIFEST && dst[|base|] == OBJECT && link != dst;
    assert Parent(link) == base;
    if IsDirIn(n, base) && link !in n {
      var after := n[link := Symlink(ObjectRelpath(key))];
      ManifestLinkResolves(base, key);
      assert after[dst] == File(data, true);
      ReadThroughLink(after, link, dst);
      assert OpenTarget(after, dst) == Ok(dst);
    }
  }

  /** `manifest.json` is created once: a second `write_manifest` in the
      same store fails, with AlreadyExists once the object itself is
      written. */
  lemma WriteManifestOnce(nodes: map<Path, Node>, base: Path, id: seq<Byte>, id2: seq<Byte>,
                          data: seq<Byte>, data2: seq<Byte>, hash: seq<Byte> -> Digest)
    requires |id| == ID_BYTES && |id2| == ID_BYTES
    requires WriteManifestStep(nodes, base, id, data, hash).result.Ok?
    ensures WriteManifestStep(WriteManifestStep(nodes, base, id, data, hash).nodes, base, id2, data2, hash).result.Err?
    ensures WriteObjectStep(WriteManifestStep(nodes, base, id, data, hash).nodes, base, id2, data2, hash).result.Ok? ==>
      WriteManifestStep(WriteManifestStep(nodes, base, id, data, hash).nodes, base, id2, data2, hash).result
        == Err(AlreadyExists)
  {
    var n1 := WriteManifestStep(nodes, base, id, data, hash).nodes;
    WriteManifestOutcome(nodes, base, id, data, hash);
    WriteManifestOutcome(n1, base, id2, data2, hash);
    var link := ManifestLink(base);
    assert link in n1;
    var written := WriteObjectStep(n1, base, id2, data2, hash);
    WriteObjectOutcome(n1, base, id2, data2, hash);
    if written.result.Ok? {
      ObjectWriteKeepsLink(n1, base, hash(data2), data2);
      assert link in written.nodes;
    }
  }

  /** The link `tail/PROJECT/BRANCH` holds, read from `tail/PROJECT`, names
      the block. */
  lemma TailLinkResolves(base: Path, project: string, sig: Signature)
    ensures Resolve(ProjectDir(base, project), TailToBlock(sig)) == BlockPath(base, sig)
  {
    var target := TailToBlock(sig);
    var name := Utf8(B32Enc(sig));
    assert target == [UP, UP, BLOCK, name];
    assert Parent(ProjectDir(base, project)) == TailDir(base);
    assert Parent(TailDir(base)) == base;
    assert target[1..] == [UP, BLOCK, name] && target[1..][1..] == [BLOCK, name];
    assert [BLOCK, name][1..] == [name] && [name][1..] == [];
    calc {
      Resolve(ProjectDir(base, project), target);
      Resolve(TailDir(base), [UP, BLOCK, name]);
      Resolve(base, [BLOCK, name]);
      Resolve(base + [BLOCK], [name]);
      Resolve(base + [BLOCK] + [name], []);
    }
    assert base + [BLOCK] + [name] == BlockPath(base, sig);
  }

  /** Linking a tail succeeds exactly when `tail/` and `tail/PROJECT` are or
      can be made directories and the branch name is free; the only change
      is those directories and the new link. */
  lemma LinkTailOutcome(nodes: map<Path, Node>, base: Path, project: string, branch: string, sig: Signature)
    ensures LinkTailStep(nodes, base, project, branch, sig).result.Ok? <==>
      DirReady(nodes, TailDir(base)) &&
      (IsDirIn(nodes, ProjectDir(base, project)) || ProjectDir(base, project) !in nodes) &&
      TailLink(base, project, branch) !in nodes
    ensures LinkTailStep(nodes, base, project, branch, sig).result.Ok? ==>
      LinkTailStep(nodes, base, project, branch, sig).result.value == sig &&
      LinkTailStep(nodes, base, project, branch, sig).nodes ==
        WithDir(WithDir(nodes, TailDir(base)), ProjectDir(base, project))
          [TailLink(base, project, branch) := Symlink(TailToBlock(sig))]
  {
    var tail, proj, link := TailDir(base), ProjectDir(base, project), TailLink(base, project, branch);
    assert Parent(tail) == base && Parent(proj) == tail && Parent(link) == proj;
    DirIfNeededOutcome(nodes, tail);
    if !DirReady(nodes, tail) {
      return;
    }
    var n2 := WithDir(nodes, tail);
    assert IsDirIn(n2, tail);
    assert (proj in n2) == (proj in nodes) && IsDirIn(n2, proj) == IsDirIn(nodes, proj);
    DirIfNeededOutcome(n2, proj);
    if !(IsDirIn(nodes, proj) || proj !in nodes) {
      return;
    }
    var n3 := WithDir(n2, proj);
    assert IsDirIn(n3, proj);
    assert (link in n3) == (link in nodes);
    assert ParentCheck(n3, link) == Pass;
  }

  /** A successful tail link leaves `tail/` and `tail/PROJECT` directories
      and the new link in place. */
  lemma LinkTailLinks(nodes: map<Path, Node>, base: Path, project: string, branch: string, sig: Signature)
    requires LinkTailStep(nodes, base, project, branch, sig).result.Ok?
    ensures var after := LinkTailStep(nodes, base, project, branch, sig).nodes;
      && TailLink(base, project, branch) in after
      && after[TailLink(base, project, branch)] == Symlink(TailToBlock(sig))
      && IsDirIn(after, TailDir(base)) && IsDirIn(after, ProjectDir(base, project))
  {
    LinkTailOutcome(nodes, base, project, branch, sig);
    var tail, proj, link := TailDir(base), ProjectDir(base, project), TailLink(base, project, branch);
    assert |tail| < |proj| < |link|;
  }

  /** A successful tail link changes nothing but `tail/`, `tail/PROJECT`
      and the link. */
  lemma LinkTailKeepsOthers(nodes: map<Path, Node>, base: Path, project: string, branch: string,
                            sig: Signature, q: Path)
    requires LinkTailStep(nodes, base, project, branch, sig).result.Ok?
    requires q != TailDir(base) && q != ProjectDir(base, project) && q != TailLink(base, project, branch)
    ensures var after := LinkTailStep(nodes, base, project, branch, sig).nodes;
      (q in after <==> q in nodes) && (q in nodes ==> after[q] == nodes[q])
  {
    LinkTailOutcome(nodes, base, project, branch, sig);
  }

  /** `p` is `tail/` or lies below it. */
  predicate InTailArea(base: Path, p: Path)
  {
    |p| > |base| && p[..|base| + 1] == base + [TAIL]
  }

  /** A deposit into `block/` leaves `tail/` and everything below it alone. */
  lemma DepositKeepsTails(nodes: map<Path, Node>, base: Path, id: seq<Byte>, block: seq<Byte>,
                          project: string, branch: string)
    requires |id| == ID_BYTES && |block| == 400
    ensures var n1 := Deposited(nodes, base, BlockPath(base, block[..64]), block);
      var tail, proj, link := TailDir(base), ProjectDir(base, project), TailLink(base, project, branch);
      (tail in n1) == (tail in nodes) && IsDirIn(n1, tail) == IsDirIn(nodes, tail) &&
      (proj in n1) == (proj in nodes) && IsDirIn(n1, proj) == IsDirIn(nodes, proj) &&
      (link in n1) == (link in nodes) && IsDirIn(n1, base) == IsDirIn(nodes, base) &&
      DirReady(n1, tail) == DirReady(nodes, tail)
    ensures var n1 := Deposited(nodes, base, BlockPath(base, block[..64]), block);
      forall q :: InTailArea(base, q) ==> (q in n1 <==> q in nodes) && (q in nodes ==> n1[q] == nodes[q])
  {
    var dst := BlockPath(base, block[..64]);
    assert dst[..|base|] == base && dst[|base|] == BLOCK && Parent(dst) == base + [BLOCK];
    StagingNames(base, id, dst);
    var tail, proj, link := TailDir(base), ProjectDir(base, project), TailLink(base, project, branch);
    assert tail[|base|] == TAIL && proj[|base|] == TAIL && link[|base|] == TAIL;
    assert Parent(tail) == base;
  }

  /** `write_tail` succeeds exactly when the block can be written, `tail/`
      and `tail/PROJECT` are or can be made directories, and nothing is at
      `tail/PROJECT/BRANCH` yet. */
  lemma WriteTailSucceeds(nodes: map<Path, Node>, base: Path, id: seq<Byte>,
                          project: string, branch: string, block: seq<Byte>)
    requires |id| == ID_BYTES && |block| == 400
    ensures WriteTailStep(nodes, base, id, project, branch, block).result.Ok? <==>
      CanDeposit(nodes, base, id, BlockPath(base, block[..64])) &&
      DirReady(nodes, TailDir(base)) &&
      (IsDirIn(nodes, ProjectDir(base, project)) || ProjectDir(base, project) !in nodes) &&
      TailLink(base, project, branch) !in nodes
  {
    WriteBlockOutcome(nodes, base, id, block);
    var written := WriteBlockStep(nodes, base, id, block);
    if written.result.Ok? {
      DepositKeepsTails(nodes, base, id, block, project, branch);
      LinkTailOutcome(written.nodes, base, project, branch, written.result.value);
    }
  }

  /** After a successful `write_tail`, `tail/PROJECT/BRANCH` is a link to
      `../../block/<signature>` which reads as the block. */
  lemma WriteTailLinksBlock(nodes: map<Path, Node>, base: Path, id: seq<Byte>,
                            project: string, branch: string, block: seq<Byte>)
    requires |id| == ID_BYTES && |block| == 400
    requires WriteTailStep(nodes, base, id, project, branch, block).result.Ok?
    ensures WriteTailStep(nodes, base, id, project, branch, block).result.value == block[..64]
    ensures TailLink(base, project, branch) in WriteTailStep(nodes, base, id, project, branch, block).nodes &&
      WriteTailStep(nodes, base, id, project, branch, block).nodes[TailLink(base, project, branch)]
        == Symlink(TailToBlock(block[..64]))
    ensures ReadFile(WriteTailStep(nodes, base, id, project, branch, block).nodes, TailLink(base, project, branch)) == Ok(block)
    ensures IsDirIn(WriteTailStep(nodes, base, id, project, branch, block).nodes, TailDir(base)) &&
      IsDirIn(WriteTailStep(nodes, base, id, project, branch, block).nodes, ProjectDir(base, project))
  {
    var sig: Signature := block[..64];
    var dst := BlockPath(base, sig);
    WriteBlockOutcome(nodes, base, id, block);
    var n1 := WriteBlockStep(nodes, base, id, block).nodes;
    assert n1[dst] == File(block, true);
    var tail, proj, link := TailDir(base), ProjectDir(base, project), TailLink(base, project, branch);
    assert tail[|base|] == TAIL && proj[|base|] == TAIL && link[|base|] == TAIL && dst[|base|] == BLOCK;
    var after := LinkTailStep(n1, base, project, branch, sig).nodes;
    assert WriteTailStep(nodes, base, id, project, branch, block) == LinkTailStep(n1, base, project, branch, sig);
    LinkTailLinks(n1, base, project, branch, sig);
    LinkTailKeepsOthers(n1, base, project, branch, sig, dst);
    LinkTailOutcome(n1, base, project, branch, sig);
    assert Parent(link) == proj;
    TailLinkResolves(base, project, sig);
    ReadThroughLink(after, link, dst);
  }

  /** Linking over an existing tail fails and leaves the link alone; with
      both tail directories in place the error is AlreadyExists. */
  lemma LinkTailKeepsExisting(nodes: map<Path, Node>, base: Path, project: string, branch: string, sig: Signature)
    requires TailLink(base, project, branch) in nodes
    ensures var after := LinkTailStep(nodes, base, project, branch, sig);
      var link := TailLink(base, project, branch);
      after.result.Err? && link in after.nodes && after.nodes[link] == nodes[link]
    ensures (DirReady(nodes, TailDir(base)) &&
             (IsDirIn(nodes, ProjectDir(base, project)) || ProjectDir(base, project) !in nodes)) ==>
      LinkTailStep(nodes, base, project, branch, sig).result == Err(AlreadyExists)
  {
    var tail, proj, link := TailDir(base), ProjectDir(base, project), TailLink(base, project, branch);
    assert link != tail && link != proj;
    DirIfNeededOutcome(nodes, tail);
    var n2 := DirIfNeeded(nodes, tail).nodes;
    DirIfNeededOutcome(n2, proj);
    if DirReady(nodes, tail) && (IsDirIn(nodes, proj) || proj !in nodes) {
      assert Parent(proj) == tail;
      assert (proj in n2) == (proj in nodes) && IsDirIn(n2, proj) == IsDirIn(nodes, proj);
    }
  }

  /** `write_tail` does not move an existing tail: when `tail/PROJECT/BRANCH`
      already exists the call fails and the link stays as it was, although
      the block itself may already have been stored. Once the block is
      written and both tail directories are in place, the error is
      AlreadyExists. */
  lemma WriteTailExistingFails(nodes: map<Path, Node>, base: Path, id: seq<Byte>,
                               project: string, branch: string, block: seq<Byte>)
    requires |id| == ID_BYTES && |block| == 400
    requires TailLink(base, project, branch) in nodes
    ensures WriteTailStep(nodes, base, id, project, branch, block).result.Err?
    ensures var link := TailLink(base, project, branch);
      link in WriteTailStep(nodes, base, id, project, branch, block).nodes &&
      WriteTailStep(nodes, base, id, project, branch, block).nodes[link] == nodes[link]
    ensures (CanDeposit(nodes, base, id, BlockPath(base, block[..64])) && DirReady(nodes, TailDir(base)) &&
             (IsDirIn(nodes, ProjectDir(base, project)) || ProjectDir(base, project) !in nodes)) ==>
      WriteTailStep(nodes, base, id, project, branch, block).result == Err(AlreadyExists)
  {
    WriteBlockOutcome(nodes, base, id, block);
    var written := WriteBlockStep(nodes, base, id, block);
    var link := TailLink(base, project, branch);
    assert link[|base|] == TAIL && |link| == |base| + 3;
    assert link != TmpDir(base) && link != TempPath(base, id) && link != base + [BLOCK];
    if written.result.Ok? {
      DepositKeepsTails(nodes, base, id, block, project, branch);
      LinkTailKeepsExisting(written.nodes, base, project, branch, written.result.value);
    }
  }

  /** The link left in `artifacts/`, read from `artifacts/`, names the object. */
  lemma ArtifactLinkResolves(base: Path, key: Digest)
    ensures Resolve(ArtifactsDir(base), [UP] + ObjectRelpath(key)) == ObjectPath(base, key)
  {
    var target := [UP] + ObjectRelpath(key);
    assert Parent(ArtifactsDir(base)) == base;
    assert target[1..] == ObjectRelpath(key);
    ManifestLinkResolves(base, key);
  }

  /** `import_object`: a missing path fails with NotFound and a directory
      with IsADirectory, changing nothing; a regular file succeeds exactly
      when `object/` is or can be made a directory and its object path is
      not a directory, and is then moved, read-only, to the object path of
      its digest. */
  lemma ImportObjectOutcome(nodes: map<Path, Node>, base: Path, src: Path, hash: seq<Byte> -> Digest)
    ensures src !in nodes ==> ImportObjectStep(nodes, base, src, hash) == Step(Err(NotFound), nodes)
    ensures src in nodes && src != [] && nodes[src].Dir? ==>
      ImportObjectStep(nodes, base, src, hash) == Step(Err(IsADirectory), nodes)
    ensures src in nodes && src != [] && nodes[src].File? ==>
      (ImportObjectStep(nodes, base, src, hash).result.Ok? <==>
        DirReady(nodes, base + [OBJECT]) &&
        !(ObjectPath(base, hash(nodes[src].content)) in nodes && nodes[ObjectPath(base, hash(nodes[src].content))].Dir?))
    ensures src in nodes && src != [] && nodes[src].File? ==>
      SameOutside(nodes, ImportObjectStep(nodes, base, src, hash).nodes,
                  {src, base + [OBJECT], ObjectPath(base, hash(nodes[src].content))})
    ensures src in nodes && src != [] && nodes[src].File? && ImportObjectStep(nodes, base, src, hash).result.Ok? ==>
      ImportObjectStep(nodes, base, src, hash).result.value == hash(nodes[src].content) &&
      ImportObjectStep(nodes, base, src, hash).nodes ==
        (WithDir(nodes, base + [OBJECT]) - {src})[ObjectPath(base, hash(nodes[src].content)) := File(nodes[src].content, true)]
  {
    if src in nodes && src != [] && nodes[src].File? {
      var content := nodes[src].content;
      var key := hash(content);
      var dst := ObjectPath(base, key);
      var dir := base + [OBJECT];
      assert Parent(dst) == dir && Parent(dir) == base;
      assert OpenTarget(nodes, src) == Ok(src);
      var marked := nodes[src := File(content, true)];
      assert MarkReadOnly(nodes, src) == marked;
      assert IsDirIn(marked, dir) == IsDirIn(nodes, dir) && (dir in marked) == (dir in nodes);
      assert IsDirIn(marked, base) == IsDirIn(nodes, base);
      DirIfNeededOutcome(marked, dir);
      if DirReady(nodes, dir) {
        var n1 := WithDir(marked, dir);
        assert ParentCheck(n1, dst) == Pass;
        assert (dst in n1 && n1[dst].Dir?) == (dst in nodes && nodes[dst].Dir?);
        if !(dst in nodes && nodes[dst].Dir?) {
          var expected := (WithDir(nodes, dir) - {src})[dst := File(content, true)];
          if src == dst {
            assert ImportObjectStep(nodes, base, src, hash) == Step(Ok(key), n1);
            assert n1 == expected;
          } else {
            assert ImportObjectStep(nodes, base, src, hash) == Step(Ok(key), (n1 - {src})[dst := File(content, true)]);
            assert (n1 - {src})[dst := File(content, true)] == expected;
          }
        }
      }
    }
  }

  /** `p` lies in `object/`. */
  predicate InObjectArea(base: Path, p: Path)
  {
    |p| > |base| && p[..|base| + 1] == base + [OBJECT]
  }

  /** `p` is `artifacts/<name>` for one of `names`. */
  predicate ArtifactIn(base: Path, p: Path, names: set<OsName>)
  {
    |p| == |base| + 2 && p[..|base| + 1] == ArtifactsDir(base) && p[|base| + 1] in names
  }

  /** Importing the artifacts `names` changes nothing outside `object/` and
      those artifacts' own entries. */
  ghost predicate ImportFrame(before: map<Path, Node>, after: map<Path, Node>, base: Path, names: set<OsName>)
  {
    forall p :: !InObjectArea(base, p) && !ArtifactIn(base, p, names) ==>
      (p in before <==> p in after) && (p in before ==> before[p] == after[p])
  }

  function ArtifactPath(base: Path, name: OsName): Path
  {
    ArtifactsDir(base) + [name]
  }

  /** Importing a regular file never stages through `tmp/`: a store
      without that directory still has none afterwards. */
  lemma ImportObjectSkipsTmp(nodes: map<Path, Node>, base: Path, src: Path, hash: seq<Byte> -> Digest)
    requires src in nodes && src != [] && nodes[src].File?
    ensures TmpDir(base) !in nodes ==> TmpDir(base) !in ImportObjectStep(nodes, base, src, hash).nodes
  {
    ImportObjectOutcome(nodes, base, src, hash);
    var dst := ObjectPath(base, hash(nodes[src].content));
    if TmpDir(base) !in nodes {
      assert dst[|base|] == OBJECT && TmpDir(base)[|base|] == TMP;
      assert TmpDir(base) !in {src, base + [OBJECT], dst};
    }
  }

  /** One artifact: on success the manifest entry is its name and the base
      32 digest of its contents, and the artifact is replaced by a link
      `../object/<key>` that reads as the same bytes. */
  lemma ImportEntryOutcome(nodes: map<Path, Node>, base: Path, name: string, hash: seq<Byte> -> Digest)
    requires IsDirIn(nodes, ArtifactsDir(base))
    requires ArtifactPath(base, Utf8(name)) in nodes && nodes[ArtifactPath(base, Utf8(name))].File?
    ensures ImportFrame(nodes, ImportEntryStep(nodes, base, Ok(Utf8(name)), hash).nodes, base, {Utf8(name)})
    ensures ImportEntryStep(nodes, base, Ok(Utf8(name)), hash).result.Ok? ==>
      var content := nodes[ArtifactPath(base, Utf8(name))].content;
      var after := ImportEntryStep(nodes, base, Ok(Utf8(name)), hash).nodes;
      ImportEntryStep(nodes, base, Ok(Utf8(name)), hash).result.value == (name, B32Enc(hash(content))) &&
      ArtifactPath(base, Utf8(name)) in after &&
      after[ArtifactPath(base, Utf8(name))] == Symlink([UP] + ObjectRelpath(hash(content))) &&
      ReadFile(after, ArtifactPath(base, Utf8(name))) == Ok(content)
  {
    var path := ArtifactPath(base, Utf8(name));
    var content := nodes[path].content;
    var key := hash(content);
    var dst := ObjectPath(base, key);
    var dir := base + [OBJECT];
    assert path[|base|] == ARTIFACTS && dst[|base|] == OBJECT && path != dst && path != dir;
    assert Parent(path) == ArtifactsDir(base);
    ImportObjectOutcome(nodes, base, path, hash);
    var imported := ImportObjectStep(nodes, base, path, hash);
    assert InObjectArea(base, dir) && InObjectArea(base, dst) && ArtifactIn(base, path, {Utf8(name)});
    if imported.result.Err? {
      assert ImportEntryStep(nodes, base, Ok(Utf8(name)), hash).nodes == imported.nodes;
      return;
    }
    var n1 := imported.nodes;
    assert n1 == (WithDir(nodes, dir) - {path})[dst := File(content, true)];
    assert path !in n1 && IsDirIn(n1, ArtifactsDir(base));
    var target := [UP] + ObjectRelpath(key);
    var after := n1[path := Symlink(target)];
    assert ImportEntryStep(nodes, base, Ok(Utf8(name)), hash) == Step(Ok((name, B32Enc(key))), after);
    assert after[dst] == File(content, true);
    ArtifactLinkResolves(base, key);
    ReadThroughLink(after, path, dst);
  }

  /** The names a listing holds. */
  function ListedNames(listing: seq<Result<OsName, IoError>>): set<OsName>
  {
    set i | 0 <= i < |listing| && listing[i].Ok? :: listing[i].value
  }

  /** Every entry of the listing is a regular file with a UTF-8 name. */
  predicate AllUtf8Files(nodes: map<Path, Node>, base: Path, listing: seq<Result<OsName, IoError>>)
  {
    forall i :: 0 <= i < |listing| ==>
      listing[i].Ok? && listing[i].value.Utf8? &&
      ArtifactPath(base, listing[i].value) in nodes && nodes[ArtifactPath(base, listing[i].value)].File?
  }

  predicate NoRepeats(listing: seq<Result<OsName, IoError>>)
  {
    forall i, j :: 0 <= i < j < |listing| ==> listing[i] != listing[j]
  }

  /** The manifest entry the import of `name` produces. */
  function ExpectedKey(nodes: map<Path, Node>, base: Path, name: OsName, hash: seq<Byte> -> Digest): string
    requires ArtifactPath(base, name) in nodes && nodes[ArtifactPath(base, name)].File?
  {
    B32Enc(hash(nodes[ArtifactPath(base, name)].content))
  }

  lemma FrameCompose(n0: map<Path, Node>, n1: map<Path, Node>, n2: map<Path, Node>, base: Path,
                     names: set<OsName>, more: set<OsName>)
    requires ImportFrame(n0, n1, base, names) && ImportFrame(n1, n2, base, more)
    ensures ImportFrame(n0, n2, base, names + more)
  {
    forall p | !InObjectArea(base, p) && !ArtifactIn(base, p, names + more)
      ensures (p in n0 <==> p in n2) && (p in n0 ==> n0[p] == n2[p])
    {
      assert !ArtifactIn(base, p, names) && !ArtifactIn(base, p, more);
    }
  }

  /** The entry at the end of a listing is not touched by importing the
      entries before it. */
  lemma LastUntouched(nodes: map<Path, Node>, after: map<Path, Node>, base: Path,
                      listing: seq<Result<OsName, IoError>>)
    requires listing != [] && NoRepeats(listing) && AllUtf8Files(nodes, base, listing)
    requires ImportFrame(nodes, after, base, ListedNames(listing[..|listing| - 1]))
    ensures var path := ArtifactPath(base, listing[|listing| - 1].value);
      path in after && after[path] == nodes[path]
    ensures IsDirIn(after, ArtifactsDir(base)) == IsDirIn(nodes, ArtifactsDir(base))
  {
    var init := listing[..|listing| - 1];
    var last := listing[|listing| - 1];
    var path := ArtifactPath(base, last.value);
    assert path[|base|] == ARTIFACTS && !InObjectArea(base, path);
    assert ArtifactsDir(base)[|base|] == ARTIFACTS;
    assert !ArtifactIn(base, ArtifactsDir(base), ListedNames(init)) && !InObjectArea(base, ArtifactsDir(base));
  }

  /** The loop of `import_artifacts` touches only `object/` and the listed
      entries. */
  lemma {:induction false} ImportEntriesFrame(nodes: map<Path, Node>, base: Path,
                                             listing: seq<Result<OsName, IoError>>, hash: seq<Byte> -> Digest)
    requires IsDirIn(nodes, ArtifactsDir(base))
    requires AllUtf8Files(nodes, base, listing) && NoRepeats(listing)
    ensures ImportFrame(nodes, ImportEntriesStep(nodes, base, listing, hash).nodes, base, ListedNames(listing))
  {
    if listing == [] {
      return;
    }
    var init := listing[..|listing| - 1];
    var last := listing[|listing| - 1];
    assert forall i :: 0 <= i < |init| ==> init[i] == listing[i];
    assert ListedNames(listing) == ListedNames(init) + {last.value};
    ImportEntriesFrame(nodes, base, init, hash);
    var before := ImportEntriesStep(nodes, base, init, hash);
    if before.result.Err? {
      assert ImportFrame(nodes, before.nodes, base, ListedNames(listing));
      return;
    }
    LastUntouched(nodes, before.nodes, base, listing);
    ImportEntryOutcome(before.nodes, base, last.value.text, hash);
    FrameCompose(nodes, before.nodes, ImportEntriesStep(nodes, base, listing, hash).nodes, base,
                 ListedNames(init), {last.value});
  }

  /** `files` maps each listed name to the digest its file had in `nodes`. */
  predicate FilesMatch(nodes: map<Path, Node>, base: Path, listing: seq<Result<OsName, IoError>>,
                       files: map<string, string>, hash: seq<Byte> -> Digest)
    requires AllUtf8Files(nodes, base, listing)
  {
    (forall i :: 0 <= i < |listing| ==>
       listing[i].value.text in files && files[listing[i].value.text] == ExpectedKey(nodes, base, listing[i].value, hash)) &&
    (forall text :: text in files ==> Ok(Utf8(text)) in listing)
  }

  /** On success, the loop of `import_artifacts` maps each listed name to
      the base 32 digest its file had before the import, and nothing else. */
  lemma {:induction false} ImportEntriesFiles(nodes: map<Path, Node>, base: Path,
                                             listing: seq<Result<OsName, IoError>>, hash: seq<Byte> -> Digest)
    requires IsDirIn(nodes, ArtifactsDir(base))
    requires AllUtf8Files(nodes, base, listing) && NoRepeats(listing)
    requires ImportEntriesStep(nodes, base, listing, hash).result.Ok?
    ensures FilesMatch(nodes, base, listing, ImportEntriesStep(nodes, base, listing, hash).result.value, hash)
  {
    if listing == [] {
      return;
    }
    var init := listing[..|listing| - 1];
    var last := listing[|listing| - 1];
    assert forall i :: 0 <= i < |init| ==> init[i] == listing[i];
    var before := ImportEntriesStep(nodes, base, init, hash);
    ImportEntriesLast(nodes, base, listing, hash);
    ImportLastKey(nodes, base, listing, hash);
    ImportEntriesFiles(nodes, base, init, hash);
    FilesExtend(nodes, base, listing, before.result.value, hash);
  }

  /** One more entry of the loop: the entries before it succeeded, and so
      did it. */
  lemma ImportEntriesLast(nodes: map<Path, Node>, base: Path, listing: seq<Result<OsName, IoError>>,
                          hash: seq<Byte> -> Digest)
    requires listing != [] && ImportEntriesStep(nodes, base, listing, hash).result.Ok?
    ensures var before := ImportEntriesStep(nodes, base, listing[..|listing| - 1], hash);
      var entry := ImportEntryStep(before.nodes, base, listing[|listing| - 1], hash);
      && before.result.Ok? && entry.result.Ok?
      && ImportEntriesStep(nodes, base, listing, hash).result.value ==
           before.result.value[entry.result.value.0 := entry.result.value.1]
  {
  }

  /** The last listed entry, imported after the ones before it, yields its
      name and the key its file had at the start. */
  lemma ImportLastKey(nodes: map<Path, Node>, base: Path, listing: seq<Result<OsName, IoError>>,
                      hash: seq<Byte> -> Digest)
    requires listing != [] && IsDirIn(nodes, ArtifactsDir(base))
    requires AllUtf8Files(nodes, base, listing) && NoRepeats(listing)
    ensures AllUtf8Files(nodes, base, listing[..|listing| - 1])
    ensures var before := ImportEntriesStep(nodes, base, listing[..|listing| - 1], hash);
      var last := listing[|listing| - 1];
      var entry := ImportEntryStep(before.nodes, base, last, hash);
      before.result.Ok? && entry.result.Ok? ==>
        entry.result.value == (last.value.text, ExpectedKey(nodes, base, last.value, hash))
  {
    var init := listing[..|listing| - 1];
    var last := listing[|listing| - 1];
    assert forall i :: 0 <= i < |init| ==> init[i] == listing[i];
    assert AllUtf8Files(nodes, base, init) && NoRepeats(init);
    var before := ImportEntriesStep(nodes, base, init, hash);
    if before.result.Ok? {
      ImportEntriesFrame(nodes, base, init, hash);
      LastUntouched(nodes, before.nodes, base, listing);
      assert last == Ok(Utf8(last.value.text));
      ImportEntryOutcome(before.nodes, base, last.value.text, hash);
    }
  }

  /** Adding the last listed name to a map that matches the names before it
      gives a map that matches the whole listing. */
  lemma FilesExtend(nodes: map<Path, Node>, base: Path, listing: seq<Result<OsName, IoError>>,
                    prev: map<string, string>, hash: seq<Byte> -> Digest)
    requires listing != [] && AllUtf8Files(nodes, base, listing) && NoRepeats(listing)
    requires AllUtf8Files(nodes, base, listing[..|listing| - 1])
    requires FilesMatch(nodes, base, listing[..|listing| - 1], prev, hash)
    ensures var last := listing[|listing| - 1].value;
      FilesMatch(nodes, base, listing, prev[last.text := ExpectedKey(nodes, base, last, hash)], hash)
  {
    var init := listing[..|listing| - 1];
    var last := listing[|listing| - 1];
    var files := prev[last.value.text := ExpectedKey(nodes, base, last.value, hash)];
    forall i | 0 <= i < |listing|
      ensures listing[i].value.text in files && files[listing[i].value.text] == ExpectedKey(nodes, base, listing[i].value, hash)
    {
      if i < |init| {
        var name := init[i].value;
        assert name == listing[i].value && listing[i] != last;
        assert name.text != last.value.text;
        assert name.text in prev && prev[name.text] == ExpectedKey(nodes, base, name, hash);
      }
    }
    forall text | text in files
      ensures Ok(Utf8(text)) in listing
    {
      if text != last.value.text {
        assert Ok(Utf8(text)) in init;
      }
    }
  }

  /** `import_artifacts` over a directory of regular files, listed by
      `read_dir`: the manifest carries the given time and maps exactly the
      listed names, each to the base 32 SHA-384 of that file's contents. */
  lemma ImportArtifactsManifest(nodes: map<Path, Node>, base: Path, time: U64,
                                listing: seq<Result<OsName, IoError>>, hash: seq<Byte> -> Digest)
    requires Lists(nodes, ArtifactsDir(base), listing) && AllUtf8Files(nodes, base, listing)
    requires ImportArtifactsStep(nodes, base, time, listing, hash).result.Ok?
    ensures ImportArtifactsStep(nodes, base, time, listing, hash).result.value.time == time
    ensures forall i :: 0 <= i < |listing| ==>
      var files := ImportArtifactsStep(nodes, base, time, listing, hash).result.value.files;
      listing[i].value.text in files && files[listing[i].value.text] == ExpectedKey(nodes, base, listing[i].value, hash)
    ensures forall text :: text in ImportArtifactsStep(nodes, base, time, listing, hash).result.value.files ==>
      Ok(Utf8(text)) in listing
  {
    assert NoRepeats(listing);
    ImportEntriesFiles(nodes, base, listing, hash);
  }

  /** A name that is not UTF-8 aborts `import_artifacts` with InvalidName:
      the entries before it stay imported and nothing after it is touched. */
  lemma ImportArtifactsNonUtf8(nodes: map<Path, Node>, base: Path, time: U64,
                               listing: seq<Result<OsName, IoError>>, k: nat, raw: seq<Byte>,
                               hash: seq<Byte> -> Digest)
    requires IsDirIn(nodes, ArtifactsDir(base))
    requires k < |listing| && listing[k] == Ok(NonUtf8(raw))
    requires ImportEntriesStep(nodes, base, listing[..k], hash).result.Ok?
    ensures ImportArtifactsStep(nodes, base, time, listing, hash) ==
      Step(Err(InvalidName(raw)), ImportEntriesStep(nodes, base, listing[..k], hash).nodes)
  {
    assert listing[..k + 1][..k] == listing[..k];
    ImportStopsAtError(nodes, base, listing, k + 1, hash);
  }

  /** The nodes one successful artifact import leaves: `object/` exists,
      the object holds the bytes read-only, and the artifact is a link to
      it. */
  lemma ImportEntryNodes(nodes: map<Path, Node>, base: Path, name: string, hash: seq<Byte> -> Digest)
    requires IsDirIn(nodes, ArtifactsDir(base))
    requires ArtifactPath(base, Utf8(name)) in nodes && nodes[ArtifactPath(base, Utf8(name))].File?
    requires ImportEntryStep(nodes, base, Ok(Utf8(name)), hash).result.Ok?
    ensures var path := ArtifactPath(base, Utf8(name));
      var content := nodes[path].content;
      ImportEntryStep(nodes, base, Ok(Utf8(name)), hash).nodes ==
        ((WithDir(nodes, base + [OBJECT]) - {path})[ObjectPath(base, hash(content)) := File(content, true)])
          [path := Symlink([UP] + ObjectRelpath(hash(content)))]
  {
    var path := ArtifactPath(base, Utf8(name));
    ImportObjectOutcome(nodes, base, path, hash);
  }

  /** The contents the listed files have in `nodes`. */
  function ListedContents(nodes: map<Path, Node>, base: Path, listing: seq<Result<OsName, IoError>>)
    : set<seq<Byte>>
    requires AllUtf8Files(nodes, base, listing)
  {
    set i | 0 <= i < |listing| :: nodes[ArtifactPath(base, listing[i].value)].content
  }

  /** The object path of `key` holds a file whose bytes are among `cs` and
      have digest `key`. */
  predicate HoldsObject(after: map<Path, Node>, base: Path, key: Digest, cs: set<seq<Byte>>,
                        hash: seq<Byte> -> Digest)
  {
    ObjectPath(base, key) in after && after[ObjectPath(base, key)].File? &&
    after[ObjectPath(base, key)].content in cs && hash(after[ObjectPath(base, key)].content) == key
  }

  /** The artifact `name` is, in `after`, a link `../object/<key>` to an
      object holding bytes with the digest its file had in `nodes`. */
  predicate LinkAt(nodes: map<Path, Node>, base: Path, name: OsName, after: map<Path, Node>,
                   cs: set<seq<Byte>>, hash: seq<Byte> -> Digest)
    requires ArtifactPath(base, name) in nodes && nodes[ArtifactPath(base, name)].File?
  {
    var p := ArtifactPath(base, name);
    var key := hash(nodes[p].content);
    p in after && after[p] == Symlink([UP] + ObjectRelpath(key)) && HoldsObject(after, base, key, cs, hash)
  }

  /** Every listed artifact is linked to its object in `after`. */
  predicate LinksMatch(nodes: map<Path, Node>, base: Path, listing: seq<Result<OsName, IoError>>,
                       after: map<Path, Node>, cs: set<seq<Byte>>, hash: seq<Byte> -> Digest)
    requires AllUtf8Files(nodes, base, listing)
  {
    forall i :: 0 <= i < |listing| ==> LinkAt(nodes, base, listing[i].value, after, cs, hash)
  }

  /** Importing one more artifact stores its bytes under their digest. */
  lemma ImportEntryStores(nodes: map<Path, Node>, base: Path, name: string, hash: seq<Byte> -> Digest,
                          cs: set<seq<Byte>>)
    requires IsDirIn(nodes, ArtifactsDir(base))
    requires ArtifactPath(base, Utf8(name)) in nodes && nodes[ArtifactPath(base, Utf8(name))].File?
    requires nodes[ArtifactPath(base, Utf8(name))].content in cs
    requires ImportEntryStep(nodes, base, Ok(Utf8(name)), hash).result.Ok?
    ensures HoldsObject(ImportEntryStep(nodes, base, Ok(Utf8(name)), hash).nodes, base,
                        hash(nodes[ArtifactPath(base, Utf8(name))].content), cs, hash)
  {
    var path := ArtifactPath(base, Utf8(name));
    var dst := ObjectPath(base, hash(nodes[path].content));
    ImportEntryNodes(nodes, base, name, hash);
    assert path[|base|] == ARTIFACTS && dst[|base|] == OBJECT;
  }

  /** Importing one more artifact keeps every object already present: the
      only object it writes is its own, under its own digest. */
  lemma ImportEntryKeeps(nodes: map<Path, Node>, base: Path, name: string, hash: seq<Byte> -> Digest,
                         key: Digest, cs: set<seq<Byte>>)
    requires IsDirIn(nodes, ArtifactsDir(base))
    requires ArtifactPath(base, Utf8(name)) in nodes && nodes[ArtifactPath(base, Utf8(name))].File?
    requires nodes[ArtifactPath(base, Utf8(name))].content in cs
    requires ImportEntryStep(nodes, base, Ok(Utf8(name)), hash).result.Ok?
    requires HoldsObject(nodes, base, key, cs, hash)
    ensures HoldsObject(ImportEntryStep(nodes, base, Ok(Utf8(name)), hash).nodes, base, key, cs, hash)
  {
    var path := ArtifactPath(base, Utf8(name));
    var content := nodes[path].content;
    var q := ObjectPath(base, key);
    if q == ObjectPath(base, hash(content)) {
      ObjectPathInjective(base, key, hash(content), seq(64, _ => 0));
      ImportEntryStores(nodes, base, name, hash, cs);
    } else {
      ImportEntryNodes(nodes, base, name, hash);
      assert path[|base|] == ARTIFACTS && q[|base|] == OBJECT;
      assert |q| == |base| + 2 && |base + [OBJECT]| == |base| + 1;
    }
  }

  /** Importing the last listed artifact after the others keeps their
      links and objects and adds its own. */
  lemma LinksExtend(nodes: map<Path, Node>, base: Path, listing: seq<Result<OsName, IoError>>,
                    mid: map<Path, Node>, hash: seq<Byte> -> Digest, cs: set<seq<Byte>>)
    requires listing != [] && AllUtf8Files(nodes, base, listing) && NoRepeats(listing)
    requires AllUtf8Files(nodes, base, listing[..|listing| - 1])
    requires LinksMatch(nodes, base, listing[..|listing| - 1], mid, cs, hash)
    requires IsDirIn(mid, ArtifactsDir(base))
    requires var path := ArtifactPath(base, listing[|listing| - 1].value);
      path in mid && mid[path] == nodes[path] && nodes[path].content in cs
    requires ImportEntryStep(mid, base, listing[|listing| - 1], hash).result.Ok?
    ensures LinksMatch(nodes, base, listing, ImportEntryStep(mid, base, listing[|listing| - 1], hash).nodes, cs, hash)
  {
    var init := listing[..|listing| - 1];
    var last := listing[|listing| - 1];
    var name := last.value.text;
    assert last == Ok(Utf8(name));
    var path := ArtifactPath(base, last.value);
    var content := nodes[path].content;
    var after := ImportEntryStep(mid, base, last, hash).nodes;
    ImportEntryNodes(mid, base, name, hash);
    forall i | 0 <= i < |listing|
      ensures LinkAt(nodes, base, listing[i].value, after, cs, hash)
    {
      if i < |init| {
        var p := ArtifactPath(base, listing[i].value);
        assert listing[i] == init[i] && listing[i] != last;
        assert LinkAt(nodes, base, init[i].value, mid, cs, hash);
        assert p[|base|] == ARTIFACTS && p != path && |p| == |base| + 2;
        ImportEntryKeeps(mid, base, name, hash, hash(nodes[p].content), cs);
      } else {
        ImportEntryStores(mid, base, name, hash, cs);
      }
    }
  }

  /** The loop of `import_artifacts` replaces every listed artifact by a
      link to its object. */
  lemma {:induction false} ImportEntriesLinks(nodes: map<Path, Node>, base: Path,
                                             listing: seq<Result<OsName, IoError>>, hash: seq<Byte> -> Digest,
                                             cs: set<seq<Byte>>)
    requires IsDirIn(nodes, ArtifactsDir(base))
    requires AllUtf8Files(nodes, base, listing) && NoRepeats(listing)
    requires ListedContents(nodes, base, listing) <= cs
    requires ImportEntriesStep(nodes, base, listing, hash).result.Ok?
    ensures LinksMatch(nodes, base, listing, ImportEntriesStep(nodes, base, listing, hash).nodes, cs, hash)
  {
    if listing == [] {
      return;
    }
    var init := listing[..|listing| - 1];
    var last := listing[|listing| - 1];
    assert forall i :: 0 <= i < |init| ==> init[i] == listing[i];
    assert AllUtf8Files(nodes, base, init) && NoRepeats(init);
    assert ListedContents(nodes, base, init) <= ListedContents(nodes, base, listing);
    assert nodes[ArtifactPath(base, last.value)].content in ListedContents(nodes, base, listing);
    ImportEntriesLast(nodes, base, listing, hash);
    var before := ImportEntriesStep(nodes, base, init, hash);
    ImportEntriesLinks(nodes, base, init, hash, cs);
    ImportEntriesFrame(nodes, base, init, hash);
    LastUntouched(nodes, before.nodes, base, listing);
    LinksExtend(nodes, base, listing, before.nodes, hash, cs);
  }

  /** No two of the bytes `cs` share a digest. */
  predicate NoCollision(cs: set<seq<Byte>>, hash: seq<Byte> -> Digest)
  {
    forall a, b :: a in cs && b in cs && hash(a) == hash(b) ==> a == b
  }

  /** Reading a listed artifact after the import gives bytes with the
      digest its file had: one of the listed files' contents, and its own
      unless two listed files share a digest. */
  lemma ReadImportedArtifact(nodes: map<Path, Node>, base: Path, listing: seq<Result<OsName, IoError>>,
                             after: map<Path, Node>, hash: seq<Byte> -> Digest, i: nat)
    requires AllUtf8Files(nodes, base, listing) && i < |listing|
    requires LinksMatch(nodes, base, listing, after, ListedContents(nodes, base, listing), hash)
    ensures var p := ArtifactPath(base, listing[i].value);
      ReadFile(after, p).Ok? && ReadFile(after, p).value in ListedContents(nodes, base, listing) &&
      hash(ReadFile(after, p).value) == hash(nodes[p].content)
    ensures var p := ArtifactPath(base, listing[i].value);
      NoCollision(ListedContents(nodes, base, listing), hash) ==> ReadFile(after, p) == Ok(nodes[p].content)
  {
    var p := ArtifactPath(base, listing[i].value);
    var key := hash(nodes[p].content);
    assert LinkAt(nodes, base, listing[i].value, after, ListedContents(nodes, base, listing), hash);
    assert Parent(p) == ArtifactsDir(base);
    ArtifactLinkResolves(base, key);
    ReadThroughLink(after, p, ObjectPath(base, key));
    assert nodes[p].content in ListedContents(nodes, base, listing);
  }

  /** `import_artifacts` over a directory of regular files, listed by
      `read_dir`: every listed artifact is replaced by a link
      `../object/<key>` to the object of its contents, and reads as those
      contents (up to a SHA-384 collision among the listed files). */
  lemma ImportArtifactsLinks(nodes: map<Path, Node>, base: Path, time: U64,
                             listing: seq<Result<OsName, IoError>>, hash: seq<Byte> -> Digest)
    requires Lists(nodes, ArtifactsDir(base), listing) && AllUtf8Files(nodes, base, listing)
    requires ImportArtifactsStep(nodes, base, time, listing, hash).result.Ok?
    ensures forall i :: 0 <= i < |listing| ==>
      var p := ArtifactPath(base, listing[i].value);
      var after := ImportArtifactsStep(nodes, base, time, listing, hash).nodes;
      p in after && after[p] == Symlink([UP] + ObjectRelpath(hash(nodes[p].content))) &&
      ReadFile(after, p).Ok? && ReadFile(after, p).value in ListedContents(nodes, base, listing) &&
      hash(ReadFile(after, p).value) == hash(nodes[p].content)
    ensures NoCollision(ListedContents(nodes, base, listing), hash) ==>
      forall i :: 0 <= i < |listing| ==>
        ReadFile(ImportArtifactsStep(nodes, base, time, listing, hash).nodes, ArtifactPath(base, listing[i].value)) ==
          Ok(nodes[ArtifactPath(base, listing[i].value)].content)
  {
    assert NoRepeats(listing);
    var cs := ListedContents(nodes, base, listing);
    ImportEntriesLinks(nodes, base, listing, hash, cs);
    var after := ImportArtifactsStep(nodes, base, time, listing, hash).nodes;
    forall i | 0 <= i < |listing|
      ensures ReadFile(after, ArtifactPath(base, listing[i].value)).Ok?
      ensures ReadFile(after, ArtifactPath(base, listing[i].value)).value in cs
      ensures hash(ReadFile(after, ArtifactPath(base, listing[i].value)).value) ==
        hash(nodes[ArtifactPath(base, listing[i].value)].content)
      ensures NoCollision(cs, hash) ==>
        ReadFile(after, ArtifactPath(base, listing[i].value)) == Ok(nodes[ArtifactPath(base, listing[i].value)].content)
    {
      ReadImportedArtifact(nodes, base, listing, after, hash, i);
    }
  }

  /** The text of an absolute path whose components are all UTF-8. */
  function PathText(p: Path): string
    requires forall i :: 0 <= i < |p| ==> p[i].Utf8?
  {
    if p == [] then "" else PathText(p[..|p| - 1]) + "/" + p[|p| - 1].text
  }

  /** Distinct digests are stored at distinct object paths, and nothing in
      the object area is ever the path of a block. */
  lemma ObjectPathInjective(base: Path, a: Digest, b: Digest, sig: Signature)
    ensures ObjectPath(base, a) == ObjectPath(base, b) <==> a == b
    ensures ObjectPath(base, a) != BlockPath(base, sig)
  {
    if ObjectPath(base, a) == ObjectPath(base, b) {
      assert ObjectPath(base, a)[|base| + 1] == Utf8(B32Enc(a));
      assert ObjectPath(base, b)[|base| + 1] == Utf8(B32Enc(b));
      B32EncInjective(a, b);
    }
    assert ObjectPath(base, a)[|base|] == OBJECT;
    assert BlockPath(base, sig)[|base|] == BLOCK;
  }

  /** Distinct signatures are stored at distinct block paths. */
  lemma BlockPathInjective(base: Path, a: Signature, b: Signature)
    ensures BlockPath(base, a) == BlockPath(base, b) <==> a == b
  {
    if BlockPath(base, a) == BlockPath(base, b) {
      assert BlockPath(base, a)[|base| + 1] == Utf8(B32Enc(a));
      assert BlockPath(base, b)[|base| + 1] == Utf8(B32Enc(b));
      B32EncInjective(a, b);
    }
  }

  /** A staging name is 24 base 32 symbols under `tmp/`; two staging paths
      coincide only when the random bytes do, so their uniqueness is that
      of the bytes. */
  lemma TempPathShape(base: Path, a: seq<Byte>, b: seq<Byte>)
    requires |a| == ID_BYTES && |b| == ID_BYTES
    ensures |RandomId(a)| == 24 && forall i :: 0 <= i < 24 ==> IsSymbol(RandomId(a)[i])
    ensures TempPath(base, a) == base + [TMP, Utf8(RandomId(a))]
    ensures TempPath(base, a) == TempPath(base, b) <==> a == b
  {
    B32EncShape(a);
    if TempPath(base, a) == TempPath(base, b) {
      assert TempPath(base, a)[|base| + 1] == Utf8(B32Enc(a));
      assert TempPath(base, b)[|base| + 1] == Utf8(B32Enc(b));
      B32EncInjective(a, b);
    }
  }

  /** With the base directory `/nope`, a staging path reads
      `/nope/tmp/<id>` and is 34 characters long. */
  lemma TempPathText(id: seq<Byte>)
    requires |id| == ID_BYTES
    ensures PathText(TempPath([Utf8("nope")], id)) == "/nope/tmp/" + RandomId(id)
    ensures |PathText(TempPath([Utf8("nope")], id))| == 34
  {
    var p := TempPath([Utf8("nope")], id);
    assert p[..2][..1] == [Utf8("nope")] && p[..2][1] == TMP && p[..2] == [Utf8("nope"), TMP];
    assert PathText(p[..2][..1]) == "/nope";
    B32EncShape(id);
  }

  /** The text of a path with one UTF-8 component added. */
  lemma PathTextSnoc(base: Path, name: string)
    requires forall i :: 0 <= i < |base| ==> base[i].Utf8?
    ensures forall i :: 0 <= i < |base| + 1 ==> (base + [Utf8(name)])[i].Utf8?
    ensures PathText(base + [Utf8(name)]) == PathText(base) + "/" + name
  {
    assert (base + [Utf8(name)])[..|base|] == base;
  }

  /** The text of a path with two UTF-8 components added. */
  lemma PathTextAppend(base: Path, dir: string, name: string)
    requires forall i :: 0 <= i < |base| ==> base[i].Utf8?
    ensures forall i :: 0 <= i < |base| + 2 ==> (base + [Utf8(dir), Utf8(name)])[i].Utf8?
    ensures PathText(base + [Utf8(dir), Utf8(name)]) == PathText(base) + "/" + dir + "/" + name
  {
    var mid := base + [Utf8(dir)];
    PathTextSnoc(base, dir);
    PathTextSnoc(mid, name);
    assert mid + [Utf8(name)] == base + [Utf8(dir), Utf8(name)];
  }

  /** A two-component name under the base directory `/p`. */
  lemma TextUnderP(dir: string, name: string)
    ensures PathText([Utf8("p"), Utf8(dir), Utf8(name)]) == "/p/" + dir + "/" + name
  {
    assert PathText([Utf8("p")]) == "/p" by {
      assert [Utf8("p")][..0] == [];
    }
    PathTextAppend([Utf8("p")], dir, name);
    assert [Utf8("p")] + [Utf8(dir), Utf8(name)] == [Utf8("p"), Utf8(dir), Utf8(name)];
    assert "/p" + "/" + dir + "/" + name == "/p/" + dir + "/" + name;
  }

  /** The text of an object path under `/p`. */
  lemma ObjectPathUnderP(key: Digest, name: string)
    requires B32Enc(key) == name
    ensures PathText(ObjectPath([Utf8("p")], key)) == "/p/object/" + name
  {
    assert ObjectPath([Utf8("p")], key) == [Utf8("p"), Utf8("object"), Utf8(name)];
    TextUnderP("object", name);
    assert "/p/" + "object" + "/" + name == "/p/object/" + name;
  }

  /** The text of a block path under `/p`. */
  lemma BlockPathUnderP(sig: Signature, name: string)
    requires B32Enc(sig) == name
    ensures PathText(BlockPath([Utf8("p")], sig)) == "/p/block/" + name
  {
    assert BlockPath([Utf8("p")], sig) == [Utf8("p"), Utf8("block"), Utf8(name)];
    TextUnderP("block", name);
    assert "/p/" + "block" + "/" + name == "/p/block/" + name;
  }

  /** The object name of 48 zero bytes. */
  lemma ObjectPathOfZeros()
    ensures PathText(ObjectPath([Utf8("p")], seq(48, _ => 0))) == "/p/object/" + seq(77, _ => 'A')
  {
    B32EncOfZeros(48);
    ObjectPathUnderP(seq(48, _ => 0), seq(77, _ => 'A'));
  }

  /** The object name of 48 bytes 0xFF. */
  lemma ObjectPathOfOnes()
    ensures PathText(ObjectPath([Utf8("p")], seq(48, _ => 255))) == "/p/object/" + seq(76, _ => '7') + "6"
  {
    B32EncOfOnes48();
    ObjectPathUnderP(seq(48, _ => 255), seq(76, _ => '7') + "6");
    assert "/p/object/" + (seq(76, _ => '7') + "6") == "/p/object/" + seq(76, _ => '7') + "6";
  }

  /** The block name of 64 zero bytes. */
  lemma BlockPathOfZeros()
    ensures PathText(BlockPath([Utf8("p")], seq(64, _ => 0))) == "/p/block/" + seq(103, _ => 'A')
  {
    B32EncOfZeros(64);
    BlockPathUnderP(seq(64, _ => 0), seq(103, _ => 'A'));
  }

  /** The block name of 64 bytes 0xFF. */
  lemma BlockPathOfOnes()
    ensures PathText(BlockPath([Utf8("p")], seq(64, _ => 255))) == "/p/block/" + seq(102, _ => '7') + "Y"
  {
    B32EncOfOnes64();
    BlockPathUnderP(seq(64, _ => 255), seq(102, _ => '7') + "Y");
    assert "/p/block/" + (seq(102, _ => '7') + "Y") == "/p/block/" + seq(102, _ => '7') + "Y";
  }
}
