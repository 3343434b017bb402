/** The build manifest (src/manifest.rs): the revision time and a map from
    artifact file name to the SHA-384 of its contents, built by scanning a
    directory. The directory listing is an input: what `read_dir` yields,
    entry by entry, and what reading each file would deliver. */
module Manifests {
  import opened Common
  import opened Files
  import opened Digests

  /** `Manifest` (src/manifest.rs:10-15). `Manifest::new` fills `files` with
      `Sha384` values; `Store::import_artifacts` fills it with base 32 text,
      so the value type is a parameter. */
  datatype Manifest<V> = Manifest(time: U64, files: map<string, V>)

  /** What reading a file delivers: its bytes, and the offset from which
      reads fail, if any (see `Digests.Reader`). */
  datatype FileData = FileData(content: seq<Byte>, failAt: Option<nat>, failure: IoError)

  /** One entry of `read_dir`: its name and the result of `File::open`. */
  datatype DirEntry = DirEntry(name: OsName, handle: Result<FileData, IoError>)

  /** A directory never lists the same name twice. */
  predicate DistinctNames(entries: seq<Result<DirEntry, IoError>>)
  {
    forall i, j :: 0 <= i < j < |entries| && entries[i].Ok? && entries[j].Ok? ==>
      entries[i].value.name != entries[j].value.name
  }

  predicate ReadFails(f: FileData)
  {
    f.failAt.Some? && f.failAt.value <= |f.content|
  }

  const NOT_UTF8: IoError := InvalidData("Filename is not UTF-8")

  /** The name and digest one entry contributes, or the error it raises,
      checked in the order of src/manifest.rs:44-51. */
  function EntryDigest(entry: Result<DirEntry, IoError>, hash: seq<Byte> -> Digest)
    : (r: Result<(string, Sha384), IoError>)
    ensures r.Ok? ==> entry.Ok? && entry.value.name == Utf8(r.value.0)
  {
    match entry
    case Err(e) => Err(e)
    case Ok(DirEntry(name, handle)) =>
      if name.NonUtf8? then Err(NOT_UTF8)
      else match handle
        case Err(e) => Err(e)
        case Ok(f) => if ReadFails(f) then Err(f.failure) else Ok((name.text, Sha384(hash(f.content))))
  }

  /** The file map after inserting the entries in order, or the first error. */
  function Scan(entries: seq<Result<DirEntry, IoError>>, hash: seq<Byte> -> Digest)
    : Result<map<string, Sha384>, IoError>
  {
    if entries == [] then Ok(map[])
    else
      match Scan(entries[..|entries| - 1], hash)
      case Err(e) => Err(e)
      case Ok(files) =>
        match EntryDigest(entries[|entries| - 1], hash)
        case Err(e) => Err(e)
        case Ok((name, sha)) => Ok(files[name := sha])
  }

  /** What `Manifest::new` returns for a listing. */
  function ManifestOf(time: U64, listing: Result<seq<Result<DirEntry, IoError>>, IoError>,
                      hash: seq<Byte> -> Digest): Result<Manifest<Sha384>, IoError>
  {
    match listing
    case Err(e) => Err(e)
    case Ok(entries) =>
      match Scan(entries, hash)
      case Err(e) => Err(e)
      case Ok(files) => Ok(Manifest(time, files))
  }

  /** `Manifest::new` (src/manifest.rs:40-60). */
  method New(time: U64, listing: Result<seq<Result<DirEntry, IoError>>, IoError>,
             hash: seq<Byte> -> Digest)
    returns (r: Result<Manifest<Sha384>, IoError>)
    ensures r == ManifestOf(time, listing, hash)
  {
    if listing.Err? {
      return Err(listing.error);
    }
    var entries := listing.value;
    var files: map<string, Sha384> := map[];
    for i := 0 to |entries|
      invariant Scan(entries[..i], hash) == Ok(files)
    {
      assert entries[..i + 1][..i] == entries[..i];
      ScanSucceeds(entries[..i], hash);
      assert forall j :: 0 <= j < i ==> entries[..i][j] == entries[j];
      var entry := entries[i];
      if entry.Err? {
        ScanFirstError(entries, hash, i);
        return Err(entry.error);
      }
      var name := entry.value.name;
      if name.NonUtf8? {
        ScanFirstError(entries, hash, i);
        return Err(NOT_UTF8);
      }
      var handle := entry.value.handle;
      if handle.Err? {
        ScanFirstError(entries, hash, i);
        return Err(handle.error);
      }
      var file := new Reader(handle.value.content, handle.value.failAt, handle.value.failure);
      var sha := Digests.New(file, hash);
      if sha.Err? {
        ScanFirstError(entries, hash, i);
        return Err(sha.error);
      }
      files := files[name.text := sha.value];
    }
    assert entries[..|entries|] == entries;
    r := Ok(Manifest(time, files));
  }

  lemma {:induction false} ScanSucceeds(entries: seq<Result<DirEntry, IoError>>, hash: seq<Byte> -> Digest)
    ensures Scan(entries, hash).Ok? <==> forall i :: 0 <= i < |entries| ==> EntryDigest(entries[i], hash).Ok?
  {
    if entries != [] {
      var init := entries[..|entries| - 1];
      ScanSucceeds(init, hash);
      assert forall i :: 0 <= i < |init| ==> init[i] == entries[i];
    }
  }

  /** `files` maps the name of `entry` to its digest. */
  predicate Records(files: map<string, Sha384>, entry: Result<DirEntry, IoError>, hash: seq<Byte> -> Digest)
  {
    EntryDigest(entry, hash).Ok? &&
    EntryDigest(entry, hash).value.0 in files &&
    files[EntryDigest(entry, hash).value.0] == EntryDigest(entry, hash).value.1
  }

  /** Some entry is named `text`. */
  predicate Names(entries: seq<Result<DirEntry, IoError>>, text: string)
  {
    exists i :: 0 <= i < |entries| && entries[i].Ok? && entries[i].value.name == Utf8(text)
  }

  lemma {:induction false} ScanRecords(entries: seq<Result<DirEntry, IoError>>, hash: seq<Byte> -> Digest)
    requires DistinctNames(entries)
    requires Scan(entries, hash).Ok?
    ensures forall i :: 0 <= i < |entries| ==> Records(Scan(entries, hash).value, entries[i], hash)
    ensures forall text :: text in Scan(entries, hash).value ==> Names(entries, text)
  {
    if entries != [] {
      var init := entries[..|entries| - 1];
      assert forall i :: 0 <= i < |init| ==> init[i] == entries[i];
      ScanRecords(init, hash);
      forall text | text in Scan(entries, hash).value
        ensures Names(entries, text)
      {
        if text in Scan(init, hash).value {
          var i :| 0 <= i < |init| && init[i].Ok? && init[i].value.name == Utf8(text);
          assert entries[i] == init[i];
        } else {
          assert entries[|entries| - 1].value.name == Utf8(text);
        }
      }
    }
  }

  lemma ScanContents(entries: seq<Result<DirEntry, IoError>>, hash: seq<Byte> -> Digest)
    requires DistinctNames(entries)
    requires Scan(entries, hash).Ok?
    ensures forall i :: 0 <= i < |entries| ==>
      entries[i].Ok? && entries[i].value.name.Utf8? && entries[i].value.handle.Ok? &&
      var text := entries[i].value.name.text;
      text in Scan(entries, hash).value &&
      Scan(entries, hash).value[text] == Sha384(hash(entries[i].value.handle.value.content))
    ensures forall text :: text in Scan(entries, hash).value ==> Names(entries, text)
  {
    ScanRecords(entries, hash);
    var files := Scan(entries, hash).value;
    forall i | 0 <= i < |entries|
      ensures entries[i].Ok? && entries[i].value.name.Utf8? && entries[i].value.handle.Ok? &&
        var text := entries[i].value.name.text;
        text in files && files[text] == Sha384(hash(entries[i].value.handle.value.content))
    {
      var e := entries[i];
      assert Records(files, e, hash);
      assert e.Ok? && e.value.name.Utf8? && e.value.handle.Ok? && !ReadFails(e.value.handle.value);
      assert EntryDigest(e, hash).value == (e.value.name.text, Sha384(hash(e.value.handle.value.content)));
    }
  }

  /** `Manifest::new` keeps the time it is given, and maps exactly the
      entries' names, each to the digest of that file's contents. */
  lemma ManifestContents(time: U64, entries: seq<Result<DirEntry, IoError>>, hash: seq<Byte> -> Digest)
    requires DistinctNames(entries)
    requires ManifestOf(time, Ok(entries), hash).Ok?
    ensures ManifestOf(time, Ok(entries), hash).value.time == time
    ensures forall i :: 0 <= i < |entries| ==>
      entries[i].Ok? && entries[i].value.name.Utf8? && entries[i].value.handle.Ok? &&
      var files := ManifestOf(time, Ok(entries), hash).value.files;
      var text := entries[i].value.name.text;
      text in files && files[text] == Sha384(hash(entries[i].value.handle.value.content))
    ensures forall text :: text in ManifestOf(time, Ok(entries), hash).value.files ==>
      exists i :: 0 <= i < |entries| && entries[i].Ok? && entries[i].value.name == Utf8(text)
  {
    ScanContents(entries, hash);
  }

  /** The construction fails as soon as any entry fails: an entry error, a
      name that is not UTF-8, an open error or a read error. */
  lemma ManifestFails(time: U64, entries: seq<Result<DirEntry, IoError>>, hash: seq<Byte> -> Digest)
    ensures ManifestOf(time, Ok(entries), hash).Err? <==>
      exists i :: 0 <= i < |entries| && !EntryDigest(entries[i], hash).Ok?
  {
    ScanSucceeds(entries, hash);
  }

  lemma {:induction false} ScanFirstError(entries: seq<Result<DirEntry, IoError>>, hash: seq<Byte> -> Digest, k: nat)
    requires k < |entries| && !EntryDigest(entries[k], hash).Ok?
    requires forall i :: 0 <= i < k ==> EntryDigest(entries[i], hash).Ok?
    ensures Scan(entries, hash) == Err(EntryDigest(entries[k], hash).error)
  {
    var init := entries[..|entries| - 1];
    assert forall i :: 0 <= i < |init| ==> init[i] == entries[i];
    if k < |entries| - 1 {
      assert forall i :: 0 <= i < k ==> init[i] == entries[i];
      ScanFirstError(init, hash, k);
    } else {
      ScanSucceeds(init, hash);
    }
  }

  /** The first failing entry decides the error; in particular a name that
      is not UTF-8 gives InvalidData "Filename is not UTF-8" and no manifest. */
  lemma ManifestFirstError(time: U64, entries: seq<Result<DirEntry, IoError>>, hash: seq<Byte> -> Digest, k: nat)
    requires k < |entries| && !EntryDigest(entries[k], hash).Ok?
    requires forall i :: 0 <= i < k ==> EntryDigest(entries[i], hash).Ok?
    ensures ManifestOf(time, Ok(entries), hash) == Err(EntryDigest(entries[k], hash).error)
    ensures entries[k].Ok? && entries[k].value.name.NonUtf8? ==>
      ManifestOf(time, Ok(entries), hash) == Err(NOT_UTF8)
  {
    ScanFirstError(entries, hash, k);
  }

  lemma ReorderedSucceeds(entries: seq<Result<DirEntry, IoError>>,
                          reordered: seq<Result<DirEntry, IoError>>, hash: seq<Byte> -> Digest)
    requires multiset(entries) == multiset(reordered)
    requires Scan(entries, hash).Ok?
    ensures Scan(reordered, hash).Ok?
  {
    ScanSucceeds(entries, hash);
    ScanSucceeds(reordered, hash);
    forall j | 0 <= j < |reordered|
      ensures EntryDigest(reordered[j], hash).Ok?
    {
      assert reordered[j] in multiset(entries);
      var i :| 0 <= i < |entries| && entries[i] == reordered[j];
    }
  }

  /** Each name scanned from `entries` is scanned from a reordering of
      them too, with the same digest. */
  lemma ReorderedKeeps(entries: seq<Result<DirEntry, IoError>>,
                       reordered: seq<Result<DirEntry, IoError>>, hash: seq<Byte> -> Digest)
    requires DistinctNames(entries) && DistinctNames(reordered)
    requires multiset(entries) == multiset(reordered)
    requires Scan(entries, hash).Ok? && Scan(reordered, hash).Ok?
    ensures forall text :: text in Scan(entries, hash).value ==>
      text in Scan(reordered, hash).value && Scan(reordered, hash).value[text] == Scan(entries, hash).value[text]
  {
    ScanRecords(entries, hash);
    ScanRecords(reordered, hash);
    var a := Scan(entries, hash).value;
    var b := Scan(reordered, hash).value;
    forall text | text in a
      ensures text in b && b[text] == a[text]
    {
      assert Names(entries, text);
      var i :| 0 <= i < |entries| && entries[i].Ok? && entries[i].value.name == Utf8(text);
      assert Records(a, entries[i], hash);
      assert entries[i] in multiset(reordered);
      var j :| 0 <= j < |reordered| && reordered[j] == entries[i];
      assert Records(b, reordered[j], hash);
    }
  }

  lemma ReorderedSameFiles(entries: seq<Result<DirEntry, IoError>>,
                           reordered: seq<Result<DirEntry, IoError>>, hash: seq<Byte> -> Digest)
    requires DistinctNames(entries) && DistinctNames(reordered)
    requires multiset(entries) == multiset(reordered)
    requires Scan(entries, hash).Ok? && Scan(reordered, hash).Ok?
    ensures Scan(reordered, hash) == Scan(entries, hash)
  {
    ReorderedKeeps(entries, reordered, hash);
    ReorderedKeeps(reordered, entries, hash);
    var a := Scan(entries, hash).value;
    var b := Scan(reordered, hash).value;
    assert a.Keys == b.Keys;
    assert a == b;
  }

  /** `files` is a sorted map, so the order `read_dir` enumerates entries in
      does not matter: any reordering of a listing gives the same manifest. */
  lemma OrderIndependent(time: U64, entries: seq<Result<DirEntry, IoError>>,
                         reordered: seq<Result<DirEntry, IoError>>, hash: seq<Byte> -> Digest)
    requires DistinctNames(entries) && DistinctNames(reordered)
    requires multiset(entries) == multiset(reordered)
    requires ManifestOf(time, Ok(entries), hash).Ok?
    ensures ManifestOf(time, Ok(reordered), hash) == ManifestOf(time, Ok(entries), hash)
  {
    ReorderedSucceeds(entries, reordered, hash);
    ReorderedSameFiles(entries, reordered, hash);
  }
}
