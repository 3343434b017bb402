/** The content-addressed store (src/store.rs): a base directory holding
    `tmp/` (staging), `object/<base32 digest>`, `block/<base32 signature>`,
    `tail/<project>/<branch>` and `manifest.json` (symbolic links), written
    by staging a read-only file under `tmp/` and renaming it into place.

    Each operation is described twice: as a function from the filesystem
    nodes before the call to the result and the nodes after it (the
    `...Step` functions, whose properties are proved in `StoreProperties`),
    and as a method of `Store` that performs the same system calls one by
    one on a `FileSystem` and is proved to agree with that function. */
module ContentStore {
  import opened Common
  import opened Base32
  import opened Files
  import opened Digests
  import opened Manifests

  const TMP: OsName := Utf8("tmp")
  const OBJECT: OsName := Utf8("object")
  const BLOCK: OsName := Utf8("block")
  const TAIL: OsName := Utf8("tail")
  const ARTIFACTS: OsName := Utf8("artifacts")
  const MANIFEST: OsName := Utf8("manifest.json")
  const UP: OsName := Utf8("..")

  /** Bytes of randomness in a staging name (src/store.rs:40). */
  const ID_BYTES: nat := 15

  /** `block_relpath`: `block/<base32 signature>`. */
  function BlockRelpath(sig: Signature): RelPath
  {
    [BLOCK, Utf8(B32Enc(sig))]
  }

  /** `object_relpath`: `object/<base32 digest>`. */
  function ObjectRelpath(key: Digest): RelPath
  {
    [OBJECT, Utf8(B32Enc(key))]
  }

  /** `tail_to_block`: the link target stored at `tail/PROJECT/BRANCH`. */
  function TailToBlock(sig: Signature): RelPath
  {
    [UP, UP] + BlockRelpath(sig)
  }

  /** `random_id`: the base 32 text of 15 random bytes. The bytes come from
      the operating system's generator, so they are a parameter here. */
  function RandomId(id: seq<Byte>): string
    requires |id| == ID_BYTES
  {
    B32Enc(id)
  }

  function TmpDir(base: Path): Path
  {
    base + [TMP]
  }

  /** `Store::temp_path`. */
  function TempPath(base: Path, id: seq<Byte>): Path
    requires |id| == ID_BYTES
  {
    TmpDir(base) + [Utf8(RandomId(id))]
  }

  /** `Store::object_path`. */
  function ObjectPath(base: Path, key: Digest): Path
  {
    base + ObjectRelpath(key)
  }

  /** `Store::block_path`. */
  function BlockPath(base: Path, sig: Signature): Path
  {
    base + BlockRelpath(sig)
  }

  function TailDir(base: Path): Path
  {
    base + [TAIL]
  }

  function ProjectDir(base: Path, project: string): Path
  {
    TailDir(base) + [Utf8(project)]
  }

  function TailLink(base: Path, project: string, branch: string): Path
  {
    ProjectDir(base, project) + [Utf8(branch)]
  }

  function ArtifactsDir(base: Path): Path
  {
    base + [ARTIFACTS]
  }

  function ManifestLink(base: Path): Path
  {
    base + [MANIFEST]
  }

  function AsResult<T>(o: Outcome<IoError>, value: T): Result<T, IoError>
  {
    if o.Pass? then Ok(value) else Err(o.error)
  }

  /** `create_dir_if_needed`: nothing to do when `p` is already a directory. */
  function DirIfNeeded(nodes: map<Path, Node>, p: Path): Step<Outcome<IoError>>
  {
    if IsDirIn(nodes, p) then Step(Pass, nodes) else MakeDir(nodes, p)
  }

  /** `to_canonical`: create the destination's directory if needed, then
      rename `src` over `dst`. */
  function Canonical(nodes: map<Path, Node>, src: Path, dst: Path): Step<Outcome<IoError>>
    requires src != [] && dst != []
    requires src in nodes && !nodes[src].Dir?
  {
    var made := DirIfNeeded(nodes, Parent(dst));
    if made.result.Fail? then made else MoveEntry(made.nodes, src, dst)
  }

  /** `Store::_write_content`: a new read-only file at a fresh staging path. */
  function WriteContentStep(nodes: map<Path, Node>, base: Path, id: seq<Byte>, content: seq<Byte>)
    : (s: Step<Result<Path, IoError>>)
    requires |id| == ID_BYTES
    ensures s.result.Ok? ==> s.result.value == TempPath(base, id)
    ensures s.result.Ok? ==> TempPath(base, id) in s.nodes && s.nodes[TempPath(base, id)] == File(content, true)
  {
    var tmp := TempPath(base, id);
    var made := DirIfNeeded(nodes, TmpDir(base));
    if made.result.Fail? then Step(Err(made.result.error), made.nodes)
    else
      var created := CreateFile(made.nodes, tmp, content, true);
      Step(AsResult(created.result, tmp), created.nodes)
  }

  /** Staging `content` and renaming it to `dst`: the shared body of
      `write_object` and `write_block`. */
  function DepositStep(nodes: map<Path, Node>, base: Path, id: seq<Byte>, content: seq<Byte>, dst: Path)
    : Step<Outcome<IoError>>
    requires |id| == ID_BYTES && dst != []
  {
    var written := WriteContentStep(nodes, base, id, content);
    if written.result.Err? then Step(Fail(written.result.error), written.nodes)
    else Canonical(written.nodes, written.result.value, dst)
  }

  /** `Store::write_object`: stored under the SHA-384 of the contents. */
  function WriteObjectStep(nodes: map<Path, Node>, base: Path, id: seq<Byte>, data: seq<Byte>,
                           hash: seq<Byte> -> Digest): Step<Result<Digest, IoError>>
    requires |id| == ID_BYTES
  {
    var key := hash(data);
    var deposited := DepositStep(nodes, base, id, data, ObjectPath(base, key));
    Step(AsResult(deposited.result, key), deposited.nodes)
  }

  /** `Store::write_manifest`: the object, then `manifest.json` linking to it. */
  function WriteManifestStep(nodes: map<Path, Node>, base: Path, id: seq<Byte>, data: seq<Byte>,
                             hash: seq<Byte> -> Digest): Step<Result<Digest, IoError>>
    requires |id| == ID_BYTES
  {
    var written := WriteObjectStep(nodes, base, id, data, hash);
    if written.result.Err? then written
    else
      var key := written.result.value;
      var linked := MakeLink(written.nodes, ObjectRelpath(key), ManifestLink(base));
      Step(AsResult(linked.result, key), linked.nodes)
  }

  /** The signature a block is filed under: its first 64 bytes. */
  function BlockSignature(block: seq<Byte>): Signature
    requires |block| == 400
  {
    block[..64]
  }

  /** `Store::write_block`: stored under its own signature. */
  function WriteBlockStep(nodes: map<Path, Node>, base: Path, id: seq<Byte>, block: seq<Byte>)
    : Step<Result<Signature, IoError>>
    requires |id| == ID_BYTES && |block| == 400
  {
    var sig := BlockSignature(block);
    var deposited := DepositStep(nodes, base, id, block, BlockPath(base, sig));
    Step(AsResult(deposited.result, sig), deposited.nodes)
  }

  /** The second half of `Store::write_tail`: the `tail/PROJECT`
      directories and a link `tail/PROJECT/BRANCH` to the block `sig`. */
  function LinkTailStep(nodes: map<Path, Node>, base: Path, project: string, branch: string, sig: Signature)
    : Step<Result<Signature, IoError>>
  {
    var tail := DirIfNeeded(nodes, TailDir(base));
    if tail.result.Fail? then Step(Err(tail.result.error), tail.nodes)
    else
      var proj := DirIfNeeded(tail.nodes, ProjectDir(base, project));
      if proj.result.Fail? then Step(Err(proj.result.error), proj.nodes)
      else
        var linked := MakeLink(proj.nodes, TailToBlock(sig), TailLink(base, project, branch));
        Step(AsResult(linked.result, sig), linked.nodes)
  }

  /** `Store::write_tail`: the block, then the tail link to it. */
  function WriteTailStep(nodes: map<Path, Node>, base: Path, id: seq<Byte>,
                         project: string, branch: string, block: seq<Byte>)
    : Step<Result<Signature, IoError>>
    requires |id| == ID_BYTES && |block| == 400
  {
    var written := WriteBlockStep(nodes, base, id, block);
    if written.result.Err? then written
    else LinkTailStep(written.nodes, base, project, branch, written.result.value)
  }

  /** `Store::import_object`: open `src`, make what it reaches read-only,
      digest it, and rename `src` to the object path of that digest. A
      directory opens but cannot be read. */
  function ImportObjectStep(nodes: map<Path, Node>, base: Path, src: Path, hash: seq<Byte> -> Digest)
    : Step<Result<Digest, IoError>>
  {
    match OpenTarget(nodes, src)
    case Err(e) => Step(Err(e), nodes)
    case Ok(q) =>
      var marked := MarkReadOnly(nodes, q);
      if !marked[q].File? then Step(Err(IsADirectory), marked)
      else
        var key := hash(marked[q].content);
        var moved := Canonical(marked, src, ObjectPath(base, key));
        Step(AsResult(moved.result, key), moved.nodes)
  }

  /** One entry of `import_artifacts`: import it, then leave a link
      `../object/<key>` where it was. */
  function ImportEntryStep(nodes: map<Path, Node>, base: Path, entry: Result<OsName, IoError>,
                           hash: seq<Byte> -> Digest): Step<Result<(string, string), IoError>>
  {
    if entry.Err? then Step(Err(entry.error), nodes)
    else if entry.value.NonUtf8? then Step(Err(InvalidName(entry.value.raw)), nodes)
    else
      var path := ArtifactsDir(base) + [entry.value];
      var imported := ImportObjectStep(nodes, base, path, hash);
      if imported.result.Err? then Step(Err(imported.result.error), imported.nodes)
      else
        var key := imported.result.value;
        var linked := MakeLink(imported.nodes, [UP] + ObjectRelpath(key), path);
        Step(AsResult(linked.result, (entry.value.text, B32Enc(key))), linked.nodes)
  }

  /** The entries in listing order; the first error stops the import. */
  function ImportEntriesStep(nodes: map<Path, Node>, base: Path, listing: seq<Result<OsName, IoError>>,
                             hash: seq<Byte> -> Digest): Step<Result<map<string, string>, IoError>>
  {
    if listing == [] then Step(Ok(map[]), nodes)
    else
      var before := ImportEntriesStep(nodes, base, listing[..|listing| - 1], hash);
      if before.result.Err? then before
      else
        var entry := ImportEntryStep(before.nodes, base, listing[|listing| - 1], hash);
        if entry.result.Err? then Step(Err(entry.result.error), entry.nodes)
        else Step(Ok(before.result.value[entry.result.value.0 := entry.result.value.1]), entry.nodes)
  }

  /** Once an entry fails, the entries after it are never imported. */
  lemma {:induction false} ImportStopsAtError(nodes: map<Path, Node>, base: Path,
                                             listing: seq<Result<OsName, IoError>>, k: nat,
                                             hash: seq<Byte> -> Digest)
    requires k <= |listing|
    requires ImportEntriesStep(nodes, base, listing[..k], hash).result.Err?
    ensures ImportEntriesStep(nodes, base, listing, hash) == ImportEntriesStep(nodes, base, listing[..k], hash)
    decreases |listing| - k
  {
    if k < |listing| {
      var init := listing[..|listing| - 1];
      assert init[..k] == listing[..k];
      ImportStopsAtError(nodes, base, init, k, hash);
    } else {
      assert listing[..k] == listing;
    }
  }

  /** `read_dir` of a path that is not a directory. */
  function ListError(nodes: map<Path, Node>, p: Path): IoError
  {
    if p in nodes then NotADirectory else NotFound
  }

  /** `Store::import_artifacts`: every entry of `artifacts/`, in the order
      `read_dir` lists them, becomes an object and a link to it. */
  function ImportArtifactsStep(nodes: map<Path, Node>, base: Path, time: U64,
                               listing: seq<Result<OsName, IoError>>, hash: seq<Byte> -> Digest)
    : Step<Result<Manifest<string>, IoError>>
  {
    if !IsDirIn(nodes, ArtifactsDir(base)) then Step(Err(ListError(nodes, ArtifactsDir(base))), nodes)
    else
      var imported := ImportEntriesStep(nodes, base, listing, hash);
      if imported.result.Err? then Step(Err(imported.result.error), imported.nodes)
      else Step(Ok(Manifest(time, imported.result.value)), imported.nodes)
  }

  /** `listing` could be what `read_dir` yields for directory `d`: names
      present in `d` when the listing starts, each at most once. */
  predicate Lists(nodes: map<Path, Node>, d: Path, listing: seq<Result<OsName, IoError>>)
  {
    (forall i, j :: 0 <= i < j < |listing| && listing[i].Ok? && listing[j].Ok? ==>
       listing[i].value != listing[j].value) &&
    (forall i :: 0 <= i < |listing| && listing[i].Ok? ==> listing[i].value in Children(nodes, d))
  }

  /** `create_dir_if_needed` as it runs. */
  method CreateDirIfNeeded(fs: FileSystem, p: Path) returns (r: Outcome<IoError>)
    modifies fs
    ensures Step(r, fs.nodes) == DirIfNeeded(old(fs.nodes), p)
  {
    if fs.IsDir(p) {
      return Pass;
    }
    r := fs.CreateDir(p);
  }

  /** `to_canonical` as it runs. */
  method ToCanonical(fs: FileSystem, src: Path, dst: Path) returns (r: Outcome<IoError>)
    requires src != [] && dst != []
    requires src in fs.nodes && !fs.nodes[src].Dir?
    modifies fs
    ensures Step(r, fs.nodes) == Canonical(old(fs.nodes), src, dst)
  {
    r := CreateDirIfNeeded(fs, Parent(dst));
    if r.Fail? {
      return;
    }
    r := fs.Rename(src, dst);
  }

  /** `Store`: a base directory on a filesystem. The filesystem and the
      SHA-384 function are the environment the Rust code runs in. */
  class Store {
    const basedir: Path
    const fs: FileSystem
    const hash: seq<Byte> -> Digest

    /** `Store::new`. */
    constructor (basedir: Path, fs: FileSystem, hash: seq<Byte> -> Digest)
      ensures this.basedir == basedir && this.fs == fs && this.hash == hash
    {
      this.basedir := basedir;
      this.fs := fs;
      this.hash := hash;
    }

    /** `Store::remove_tmp_dir`. */
    method RemoveTmpDir() returns (r: Outcome<IoError>)
      modifies fs
      ensures Step(r, fs.nodes) == RemoveEmptyDir(old(fs.nodes), TmpDir(basedir))
    {
      r := fs.RemoveDir(TmpDir(basedir));
    }

    /** `Store::_write_content`; `id` is the output of the random generator. */
    method WriteContent(content: seq<Byte>, id: seq<Byte>) returns (r: Result<Path, IoError>)
      requires |id| == ID_BYTES
      modifies fs
      ensures Step(r, fs.nodes) == WriteContentStep(old(fs.nodes), basedir, id, content)
    {
      var tmp := TempPath(basedir, id);
      var made := CreateDirIfNeeded(fs, Parent(tmp));
      if made.Fail? {
        return Err(made.error);
      }
      var created := fs.CreateNew(tmp, content, true);
      r := AsResult(created, tmp);
    }

    /** `Store::write_object`. */
    method WriteObject(data: seq<Byte>, id: seq<Byte>) returns (r: Result<Digest, IoError>)
      requires |id| == ID_BYTES
      modifies fs
      ensures Step(r, fs.nodes) == WriteObjectStep(old(fs.nodes), basedir, id, data, hash)
    {
      var key := hash(data);
      var tmp := WriteContent(data, id);
      if tmp.Err? {
        return Err(tmp.error);
      }
      var moved := ToCanonical(fs, tmp.value, ObjectPath(basedir, key));
      r := AsResult(moved, key);
    }

    /** `Store::write_manifest`. */
    method WriteManifest(data: seq<Byte>, id: seq<Byte>) returns (r: Result<Digest, IoError>)
      requires |id| == ID_BYTES
      modifies fs
      ensures Step(r, fs.nodes) == WriteManifestStep(old(fs.nodes), basedir, id, data, hash)
    {
      r := WriteObject(data, id);
      if r.Err? {
        return;
      }
      var key := r.value;
      var linked := fs.CreateSymlink(ObjectRelpath(key), ManifestLink(basedir));
      r := AsResult(linked, key);
    }

    /** `Store::open_object`, reading the file to the end. */
    method OpenObject(key: Digest) returns (r: Result<seq<Byte>, IoError>)
      ensures r == ReadFile(fs.nodes, ObjectPath(basedir, key))
    {
      r := fs.Open(ObjectPath(basedir, key));
    }

    /** `Store::write_block`. */
    method WriteBlock(block: seq<Byte>, id: seq<Byte>) returns (r: Result<Signature, IoError>)
      requires |id| == ID_BYTES && |block| == 400
      modifies fs
      ensures Step(r, fs.nodes) == WriteBlockStep(old(fs.nodes), basedir, id, block)
    {
      var sig := block[0..64];
      var tmp := WriteContent(block, id);
      if tmp.Err? {
        return Err(tmp.error);
      }
      var moved := ToCanonical(fs, tmp.value, BlockPath(basedir, sig));
      r := AsResult(moved, sig);
    }

    /** `Store::write_tail`. */
    method WriteTail(project: string, branch: string, block: seq<Byte>, id: seq<Byte>)
      returns (r: Result<Signature, IoError>)
      requires |id| == ID_BYTES && |block| == 400
      modifies fs
      ensures Step(r, fs.nodes) == WriteTailStep(old(fs.nodes), basedir, id, project, branch, block)
    {
      r := WriteBlock(block, id);
      if r.Err? {
        return;
      }
      var sig := r.value;
      var pb := TailDir(basedir);
      var made := CreateDirIfNeeded(fs, pb);
      if made.Fail? {
        return Err(made.error);
      }
      pb := pb + [Utf8(project)];
      made := CreateDirIfNeeded(fs, pb);
      if made.Fail? {
        return Err(made.error);
      }
      pb := pb + [Utf8(branch)];
      var linked := fs.CreateSymlink(TailToBlock(sig), pb);
      r := AsResult(linked, sig);
    }

    /** `Store::open_block`, reading the file to the end. */
    method OpenBlock(sig: Signature) returns (r: Result<seq<Byte>, IoError>)
      ensures r == ReadFile(fs.nodes, BlockPath(basedir, sig))
    {
      r := fs.Open(BlockPath(basedir, sig));
    }

    /** `Store::import_object`: the digest is computed by the same chunked
        read loop as `Sha384::new`. */
    method ImportObject(src: Path) returns (r: Result<Digest, IoError>)
      modifies fs
      ensures Step(r, fs.nodes) == ImportObjectStep(old(fs.nodes), basedir, src, hash)
    {
      var target := OpenTarget(fs.nodes, src);
      if target.Err? {
        return Err(target.error);
      }
      var q := target.value;
      fs.SetReadOnly(q);
      var file: Reader;
      if fs.nodes[q].File? {
        file := new Reader(fs.nodes[q].content, None, IsADirectory);
      } else {
        file := new Reader([], Some(0), IsADirectory);
      }
      var sha := Digests.New(file, hash);
      if sha.Err? {
        return Err(sha.error);
      }
      var key: Digest := sha.value.bytes;
      var moved := ToCanonical(fs, src, ObjectPath(basedir, key));
      r := AsResult(moved, key);
    }

    /** `Store::import_artifacts`; `listing` is what `read_dir` yields. */
    method ImportArtifacts(time: U64, listing: seq<Result<OsName, IoError>>)
      returns (r: Result<Manifest<string>, IoError>)
      modifies fs
      ensures Step(r, fs.nodes) == ImportArtifactsStep(old(fs.nodes), basedir, time, listing, hash)
    {
      var artifacts := ArtifactsDir(basedir);
      if !fs.IsDir(artifacts) {
        return Err(ListError(fs.nodes, artifacts));
      }
      ghost var start := fs.nodes;
      var files: map<string, string> := map[];
      for i := 0 to |listing|
        invariant ImportEntriesStep(start, basedir, listing[..i], hash) == Step(Ok(files), fs.nodes)
      {
        assert listing[..i + 1][..i] == listing[..i];
        var entry := listing[i];
        if entry.Err? {
          ImportStopsAtError(start, basedir, listing, i + 1, hash);
          return Err(entry.error);
        }
        if entry.value.NonUtf8? {
          ImportStopsAtError(start, basedir, listing, i + 1, hash);
          return Err(InvalidName(entry.value.raw));
        }
        var name := entry.value.text;
        var path := artifacts + [entry.value];
        var key := ImportObject(path);
        if key.Err? {
          ImportStopsAtError(start, basedir, listing, i + 1, hash);
          return Err(key.error);
        }
        files := files[name := B32Enc(key.value)];
        var target := [UP] + ObjectRelpath(key.value);
        var linked := fs.CreateSymlink(target, path);
        if linked.Fail? {
          ImportStopsAtError(start, basedir, listing, i + 1, hash);
          return Err(linked.error);
        }
      }
      assert listing[..|listing|] == listing;
      r := Ok(Manifest(time, files));
    }
  }
}
