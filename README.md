# buildchain store, blocks and manifests in Dafny

A model of the core of buildchain, a tool that builds source projects
reproducibly and records the results in a content-addressed store. The model
covers five parts of that core:

- **Base32** (`base32.dfy`, src/store.rs:16-24). The RFC 4648 base 32 text, without
  padding, that names every stored object and block.
- **Files** (`files.dfy`). An abstract filesystem: a map from paths to files,
  directories and symbolic links. The class `FileSystem` has one method per system
  call the store makes.
- **ContentStore** and **StoreProperties** (`contentstore.dfy`, `storeproperties.dfy`),
  from src/store.rs.
  - `Store` keeps objects under `object/<base32 SHA-384>` and blocks under
    `block/<base32 signature>`.
  - It keeps branch tails as links `tail/PROJECT/BRANCH -> ../../block/<sig>` and
    `manifest.json` as a link to an object.
  - Every object and block is staged as a read-only file under `tmp/` and then
    renamed into place.
  - Each operation is a `...Step` function from the filesystem before the call to
    its result and the filesystem after it. A `Store` method makes the same system
    calls one by one and is proved equal to that function.
  - `StoreProperties` proves what the operations promise: exactly when each one
    succeeds, what the filesystem then holds, what a failure leaves alone,
    idempotence of content-addressed writes, and that links resolve to what they
    name.
- **Blocks** (`blocks.dfy`, src/block.rs).
  - The packed 400-byte block is read by an explicit decoder at fixed offsets, with
    little-endian integers.
  - `Verify` checks the public key first, then the attached signature, then the
    recovered message against bytes 64..400.
- **Digests** (`digests.dfy`, src/sha384.rs). The read loop that feeds a reader to
  SHA-384 in chunks of at most 4096 bytes, and lower-case hex text.
- **Manifests** (`manifests.dfy`, src/manifest.rs). `Manifest::new`: the fold over a
  directory listing into a map from file name to digest, stopping at the first error.
- **Sources** (`sources.dfy`, src/source.rs). How a revision time is read.
  - For a `dir` source: the newest whole second among the lines `find` prints.
  - For a `git` source: the commit time `git log` prints.
  - For any other kind: an error.

**Scenarios** (`scenarios.dfy`) replays the store's own unit tests on a fresh store.

SHA-384, Ed25519 signature opening, the random generator and the directory order
that `read_dir` yields are not modelled. They are parameters: `hash`, `open`, `id`
and `listing`.

Two consequences of the code that the model keeps:

- `symlink` fails when the link already exists. `write_manifest` and `write_tail`
  therefore cannot replace an existing `manifest.json` or tail link. A second call
  always fails. The error is AlreadyExists from `symlink` whenever the steps before
  it succeed; an earlier step can fail first with its own error
  (`StoreProperties.WriteManifestOnce`, `StoreProperties.WriteTailExistingFails`).
  A second `write_tail` also leaves the existing tail link as it was.
- `Manifest::new` maps names to `Sha384` values, which serialise as hex.
  `Store::import_artifacts` builds a `Manifest` whose values are base 32 strings.
  The model makes the value type a parameter: `Manifest<V>`.

## Model

| member | source | states |
|---|---|---|
| Base32.B32EncShape | src/store.rs:16-20 | The encoding of n bytes has ceil(8n/5) characters, all from the alphabet A-Z2-7, with no padding. |
| Base32.B32DecShape | src/store.rs:22-24 | Decoding fails exactly when some character is outside the alphabet; otherwise it yields floor(5k/8) bytes for k characters. |
| Base32.B32RoundTrip | src/store.rs:16-24 | Decoding undoes encoding for every byte string. |
| Base32.B32EncInjective | src/store.rs:18-20 | Distinct byte strings have distinct names. |
| Base32.B32EncOfZeros | src/store.rs:18-20 | n zero bytes encode as ceil(8n/5) 'A's. |
| Base32.B32EncOfOnes | src/store.rs:18-20 | n bytes 0xFF encode as floor(8n/5) '7's followed by one symbol for the leftover bits, if any. |
| Base32.OnesTailSymbols | src/store.rs:258-261 | The leftover symbol for 4 one-bits is '6' and for 2 one-bits is 'Y'. |
| Base32.B32EncOfOnes48 | src/store.rs:258-261 | 48 bytes 0xFF encode as 76 '7's and a '6'. |
| Base32.B32EncOfOnes64 | src/store.rs:273-276 | 64 bytes 0xFF encode as 102 '7's and a 'Y'. |
| Common.LittleEndianRoundTrip | src/block.rs:23-24 | Reading back the little-endian encoding of n gives n. |
| Common.LittleEndianDecodeRoundTrip | src/block.rs:23-24 | Encoding the value read from some bytes gives back those bytes. |
| Common.EightBytesFitU64 | src/block.rs:23-24 | Eight little-endian bytes always denote a u64. |
| Files.FileSystem.CreateDir | src/store.rs:45-50 | `create_dir` adds a directory, or fails with AlreadyExists, or fails on a missing parent or non-directory parent, changing nothing. |
| Files.FileSystem.CreateNew | src/store.rs:86-97 | An exclusive create adds a file with the contents and read-only flag given, or fails when the name is taken or the parent is not a directory. |
| Files.FileSystem.Rename | src/store.rs:52-56 | `rename` moves a file or link over any non-directory at the destination, in one step. |
| Files.FileSystem.CreateSymlink | src/store.rs:169-175 | `symlink` adds a link, or fails with AlreadyExists when anything has that name. |
| Files.FileSystem.RemoveDir | src/store.rs:69-72 | `remove_dir` removes only an empty directory. |
| Files.FileSystem.SetReadOnly | src/store.rs:99-107 | Setting mode 0400 makes the file read-only and changes nothing else. |
| Files.FileSystem.Open | src/store.rs:177-179 | Opening and reading to the end gives the contents of the file the path reaches, following a link at the last component. |
| ContentStore.WriteContentStep | src/store.rs:86-97 | On success the result is the staging path, which then holds the contents as a read-only file. |
| ContentStore.ImportStopsAtError | src/store.rs:136-151 | Once an entry of `import_artifacts` fails, no later entry is imported and the outcome is that of the prefix. |
| ContentStore.CreateDirIfNeeded | src/store.rs:45-50 | The method makes the system calls of `create_dir_if_needed` and ends in the state `DirIfNeeded` gives. |
| ContentStore.ToCanonical | src/store.rs:52-56 | The method makes the destination's directory if needed and then renames, as `Canonical` gives. |
| ContentStore.Store.constructor | src/store.rs:63-67 | A store remembers its base directory. |
| ContentStore.Store.RemoveTmpDir | src/store.rs:69-72 | Removes `tmp/` if it is empty. |
| ContentStore.Store.WriteContent | src/store.rs:86-97 | Stages the contents read-only at `tmp/<random id>` as `WriteContentStep` gives. |
| ContentStore.Store.WriteObject | src/store.rs:156-167 | Agrees with `WriteObjectStep`, whose meaning `StoreProperties.WriteObjectOutcome` states. |
| ContentStore.Store.WriteManifest | src/store.rs:169-175 | Agrees with `WriteManifestStep`: the object, then the `manifest.json` link. |
| ContentStore.Store.OpenObject | src/store.rs:177-179 | Reads the file at the object path of the key. |
| ContentStore.Store.WriteBlock | src/store.rs:181-191 | Agrees with `WriteBlockStep`: the block is filed under its first 64 bytes. |
| ContentStore.Store.WriteTail | src/store.rs:193-208 | Agrees with `WriteTailStep`: the block, `tail/`, `tail/PROJECT` and the link, stopping at the first failure. |
| ContentStore.Store.OpenBlock | src/store.rs:210-212 | Reads the file at the block path of the signature. |
| ContentStore.Store.ImportObject | src/store.rs:99-129 | Marks the file read-only, digests it with the chunked read loop and renames it into `object/`, as `ImportObjectStep` gives. |
| ContentStore.Store.ImportArtifacts | src/store.rs:131-154 | For any listing, its loop agrees with `ImportEntriesStep`: one object and one link per entry, stopping at the first error. |
| StoreProperties.DirIfNeededOutcome | src/store.rs:45-50 | `create_dir_if_needed` succeeds iff the path is a directory or can be made one; on success only that path may change, and on failure nothing changes. |
| StoreProperties.StagingNames | src/store.rs:74-76 | The staging file, `tmp/` and the destination's directory are distinct paths and distinct from the destination. |
| StoreProperties.DepositOutcome | src/store.rs:86-97 | Staging then renaming succeeds iff `tmp/` and the destination's directory are or can be made directories and nothing blocks the staging name. On success the state is exactly `Deposited`. On failure nothing outside the staging paths changes. |
| StoreProperties.WriteObjectOutcome | src/store.rs:156-167 | `write_object` succeeds iff the deposit can, returns the SHA-384 of the data, and leaves it readable and read-only at `object/<b32 key>`. |
| StoreProperties.WriteBlockOutcome | src/store.rs:181-191 | `write_block` returns the first 64 bytes and leaves the block readable and read-only at `block/<b32 sig>`. |
| StoreProperties.WriteObjectIdempotent | src/store.rs:156-167 | Writing the same data again under another staging id returns the same key and leaves the same filesystem. |
| StoreProperties.DepositEmptiesTmp | src/store.rs:86-97 | After a deposit into an empty `tmp/`, `tmp/` is empty again. |
| StoreProperties.WriteObjectThenRemoveTmp | src/store.rs:345-350 | After `write_object` in a store without `tmp/` entries, `remove_tmp_dir` succeeds and `tmp/` is gone. |
| StoreProperties.ManifestLinkResolves | src/store.rs:169-175 | The target `object/<b32 key>`, read from the base directory, is the object path of the key. |
| StoreProperties.WriteManifestOutcome | src/store.rs:169-175 | `write_manifest` succeeds iff the object can be written and `manifest.json` is free; then `manifest.json` reads as the data. |
| StoreProperties.ObjectWriteKeepsLink | src/store.rs:169-175 | Writing the object does not create or remove `manifest.json`, nor change whether the base directory exists. |
| StoreProperties.LinkManifestOutcome | src/store.rs:171-174 | Linking `manifest.json` succeeds iff the base directory exists and the link name is free; the link and the object then both read as the data. |
| StoreProperties.WriteManifestOnce | src/store.rs:169-175 | A second `write_manifest` in the same store always fails; when its object write succeeds, the error is AlreadyExists from the `manifest.json` link. |
| StoreProperties.TailLinkResolves | src/store.rs:34-37 | The target `../../block/<b32 sig>`, read from `tail/PROJECT`, is the block path of the signature. |
| StoreProperties.LinkTailOutcome | src/store.rs:193-208 | Linking a tail succeeds iff `tail/` and `tail/PROJECT` are or can be made directories and the branch name is free. |
| StoreProperties.LinkTailLinks | src/store.rs:199-207 | After a successful tail link, the link holds `../../block/<b32 sig>` and `tail/` and `tail/PROJECT` are directories. |
| StoreProperties.LinkTailKeepsOthers | src/store.rs:199-207 | A tail link changes nothing but `tail/`, `tail/PROJECT` and the link. |
| StoreProperties.DepositKeepsTails | src/store.rs:181-191 | Depositing a block leaves `tail/` and every path below it present or absent as before, with the same node, and keeps the base, `tail/` and `tail/PROJECT` directories as they were. |
| StoreProperties.WriteTailSucceeds | src/store.rs:193-208 | `write_tail` succeeds iff the block can be written, the tail directories can be made and the branch name is free. |
| StoreProperties.WriteTailLinksBlock | src/store.rs:193-208 | After `write_tail`, the tail link holds `../../block/<b32 sig>` and reads as the block. |
| StoreProperties.LinkTailKeepsExisting | src/store.rs:199-207 | Linking over an existing tail fails and leaves the link's node as it was; with `tail/` and `tail/PROJECT` usable the error is AlreadyExists. |
| StoreProperties.WriteTailExistingFails | src/store.rs:193-208 | `write_tail` to an existing tail always fails and leaves the existing link's node as it was. When the block can be deposited and both tail directories are usable, the error is AlreadyExists. |
| StoreProperties.ArtifactLinkResolves | src/store.rs:146-150 | The link `../object/<b32 key>` left in `artifacts/`, read from there, names the object path. |
| StoreProperties.ImportObjectOutcome | src/store.rs:99-129 | `import_object` fails with NotFound on a missing path and with IsADirectory on a directory, leaving every node as it was (the mode change on a directory is not modelled, see Left out). On a file it succeeds iff the rename can, moves the file read-only to `object/<b32 SHA-384>` and changes nothing else. |
| StoreProperties.ImportObjectSkipsTmp | src/store.rs:314-317 | Importing never creates `tmp/`. |
| StoreProperties.ImportEntryOutcome | src/store.rs:143-150 | For a UTF-8 name: on success the entry is (name, b32 digest of its contents) and the artifact becomes a link to its object. |
| StoreProperties.FrameCompose | src/store.rs:136-151 | Frames of successive imports compose: what is outside both is unchanged. |
| StoreProperties.LastUntouched | src/store.rs:136-151 | Importing the earlier entries leaves the last listed artifact as it was. |
| StoreProperties.ImportEntriesFrame | src/store.rs:136-151 | The import loop changes nothing outside `object/` and the listed artifacts. |
| StoreProperties.ImportEntriesLast | src/store.rs:136-151 | A successful loop means the prefix and the last entry succeeded, and the map is the prefix's map plus the last entry. |
| StoreProperties.ImportLastKey | src/store.rs:137-150 | The last entry yields its name and the key of the contents its file had before the import began. |
| StoreProperties.FilesExtend | src/store.rs:136-151 | Adding the last entry to a map matching the prefix gives a map matching the whole listing. |
| StoreProperties.ImportEntriesFiles | src/store.rs:136-151 | On success the loop maps each listed name to the b32 digest its file had before the import, and nothing else. |
| StoreProperties.ImportArtifactsManifest | src/store.rs:131-154 | Over a directory of UTF-8-named files listed once each, the manifest carries the given time and maps exactly the listed names to their b32 digests. |
| StoreProperties.ImportArtifactsNonUtf8 | src/store.rs:137-142 | When every entry before position k imports and entry k has a non-UTF-8 name, `import_artifacts` fails with InvalidName carrying that name, in the state the first k entries left. |
| StoreProperties.ImportEntryNodes | src/store.rs:143-150 | A successful entry replaces the artifact by the link `../object/<b32 digest>`, puts its bytes read-only at the object path, and changes nothing else. |
| StoreProperties.ImportEntryStores | src/store.rs:143-145 | After a successful entry the object named by its digest exists and holds its bytes. |
| StoreProperties.ImportEntryKeeps | src/store.rs:143-150 | An object stored earlier stays a file with the same digest after a later entry. |
| StoreProperties.LinksExtend | src/store.rs:137-150 | Importing the last entry keeps the links and objects of the earlier entries and adds its own. |
| StoreProperties.ImportEntriesLinks | src/store.rs:137-150 | After the loop, every listed artifact is a link `../object/<b32 digest>` to an object holding bytes with that digest. |
| StoreProperties.ReadImportedArtifact | src/store.rs:143-150 | Reading an imported artifact through its link succeeds with bytes of the same digest, and with its own bytes when no two listed files share a digest. |
| StoreProperties.ImportArtifactsLinks | src/store.rs:131-154 | After a successful `import_artifacts`, every listed artifact is the link `../object/<b32 SHA-384 of its bytes>` and reads through it; the read gives its own bytes when no two listed files share a digest. |
| StoreProperties.ObjectPathInjective | src/store.rs:78-80 | Distinct digests have distinct object paths, and no object path is a block path. |
| StoreProperties.BlockPathInjective | src/store.rs:82-84 | Distinct signatures have distinct block paths. |
| StoreProperties.TempPathShape | src/store.rs:39-43 | A staging name is 24 base 32 symbols directly under `tmp/`; two staging paths coincide only when their random bytes do. |
| StoreProperties.TempPathText | src/store.rs:233-249 | Under `/nope`, a staging path reads `/nope/tmp/` followed by the id, and has 34 characters. |
| StoreProperties.PathTextSnoc | src/store.rs:74-84 | The text of a path with a component added is the old text, a '/', and the name. |
| StoreProperties.PathTextAppend | src/store.rs:74-84 | The text of a path with two components added. |
| StoreProperties.TextUnderP | src/store.rs:251-277 | The text of `/p/<dir>/<name>`. |
| StoreProperties.ObjectPathUnderP | src/store.rs:251-262 | Under `/p` an object path reads `/p/object/` followed by the b32 name. |
| StoreProperties.BlockPathUnderP | src/store.rs:264-277 | Under `/p` a block path reads `/p/block/` followed by the b32 name. |
| StoreProperties.ObjectPathOfZeros | src/store.rs:254-257 | The object path of 48 zero bytes is `/p/object/` followed by 77 'A's. |
| StoreProperties.ObjectPathOfOnes | src/store.rs:258-261 | The object path of 48 bytes 0xFF is `/p/object/` followed by 76 '7's and a '6'. |
| StoreProperties.BlockPathOfZeros | src/store.rs:269-272 | The block path of 64 zero bytes is `/p/block/` followed by 103 'A's. |
| StoreProperties.BlockPathOfOnes | src/store.rs:273-276 | The block path of 64 bytes 0xFF is `/p/block/` followed by 102 '7's and a 'Y'. |
| Scenarios.FreshCanDeposit | src/store.rs:322-353 | In a fresh store every deposit into `object/` or `block/` can go ahead. |
| Scenarios.WriteObjectScenario | src/store.rs:322-353 | test_write_object: the key is the digest, the object reads back, read-only, and `tmp/` is then removed. |
| Scenarios.WriteBlockScenario | src/store.rs:355-388 | test_write_block: the signature is the first 64 bytes, the block reads back, read-only, and `tmp/` can be removed. |
| Scenarios.WriteTailScenario | src/store.rs:390-431 | test_write_tail: the block is stored, the tail directories exist, the link holds `../../block/<sig>` and reads as the block, and `tmp/` remains. |
| Scenarios.WriteTailFresh | src/store.rs:390-431 | The state `write_tail` leaves in a fresh store has all that test_write_tail checks. |
| Scenarios.LinkTailKeeps | src/store.rs:199-207 | Linking the tail keeps the stored block and `tmp/`. |
| Scenarios.ImportObjectScenario | src/store.rs:279-320 | test_import_object: the key is the digest, the file moves to `object/`, read-only, and no `tmp/` appears. |
| Scenarios.WriteTwiceScenario | src/store.rs:156-167 | Writing the same data twice returns the same key and the object reads back. |
| Blocks.RequestBytes | src/block.rs:8-16 | The request occupies 224 bytes. |
| Blocks.AsBytes | src/block.rs:18-26 | The block occupies 400 bytes. |
| Blocks.RequestLayout | src/block.rs:8-16 | Each request field lies at its fixed offset. |
| Blocks.Layout | src/block.rs:18-26 | Each field lies at its fixed offset of the 400 bytes, and the integers are little-endian. |
| Blocks.DecodeEncode | src/block.rs:18-26 | Decoding the bytes of a block gives the block. |
| Blocks.EncodeDecode | src/block.rs:18-26 | Encoding the block decoded from 400 bytes gives those bytes. |
| Blocks.Truncate | src/block.rs:42 | Truncation keeps a prefix of length min(count, length). |
| Blocks.Verify | src/block.rs:32-60 | The key is checked first, then the signature, then the message against bytes 64..400. It succeeds iff all three pass, with the fields base 32 encoded and the integers decoded. |
| Blocks.KeyCheckedBeforeSignature | src/block.rs:33-35 | A wrong key is rejected whatever the signature primitive does. |
| Blocks.WrongLengthKeyRejected | src/block.rs:33-35 | A key not 32 bytes long never matches. |
| Blocks.VerifyBytes | src/block.rs:32-60 | Verification of 400 raw bytes, stated on the bytes alone. |
| Blocks.RequestCopiesNotCompared | src/block.rs:52-59 | The request's copies of key, previous signature, counter and timestamp are not compared with the outer fields. |
| Digests.Reader.Read | src/sha384.rs:55-56 | One read returns at most the buffer's size, the next unread bytes, empty only at the end, or the failure. |
| Digests.DigestStream | src/sha384.rs:51-67 | The loop feeds every byte in order in chunks of 1 to 4096 bytes. It returns the hash of everything the reader delivers, or its failure iff a read fails before the end. |
| Digests.New | src/sha384.rs:51-67 | `Sha384::new` is the 48-byte hash of the remaining input, so equal inputs give equal digests, or the first read error. |
| Digests.ToHex | src/sha384.rs:16-19 | Two characters per byte. |
| Digests.ToHexLowerCase | src/sha384.rs:16-19 | Every character is a lower-case hex digit. |
| Digests.CharBytes | src/sha384.rs:6-14 | The UTF-8 encoding of a character, which the hex crate reads: 1 to 4 bytes, one byte equal to the code point iff it is below 0x80, and a first byte of 0x80 or more iff there are several. |
| Digests.FromHexPairs | src/sha384.rs:6-14 | One byte per two input bytes; an error names an offset inside the input bytes. |
| Digests.HexRoundTrip | src/sha384.rs:6-19 | `from_hex(to_hex(b)) == b`. |
| Digests.FromHexErrors | src/sha384.rs:6-14 | An odd number of UTF-8 bytes is reported first. Otherwise it fails iff some byte is not an ASCII hex digit of either case, and names the first such byte, as a character, with its byte offset. |
| Digests.FromHexCountsBytes | src/sha384.rs:6-14 | `from_hex` counts UTF-8 bytes: "é" fails on its first byte 0xC3 at offset 0, and "éa" has odd length. |
| Digests.SerializeRoundTrip | src/sha384.rs:21-26 | A digest serialised as hex deserialises to itself. |
| Manifests.EntryDigest | src/manifest.rs:43-54 | A successful entry is named by its UTF-8 name. |
| Manifests.New | src/manifest.rs:40-60 | The loop returns `ManifestOf`: the time and the map from the scanned names to digests, or the first error. |
| Manifests.ScanSucceeds | src/manifest.rs:43-54 | The scan succeeds iff every entry does. |
| Manifests.ScanRecords | src/manifest.rs:43-54 | With distinct names, every entry is recorded under its name, and every key is the name of some entry. |
| Manifests.ScanContents | src/manifest.rs:43-54 | Each file name maps to the SHA-384 of its contents. |
| Manifests.ManifestContents | src/manifest.rs:40-60 | The manifest carries the time, maps every entry's name to the SHA-384 of its contents, and holds no other name. |
| Manifests.ManifestFails | src/manifest.rs:43-54 | It fails iff some entry fails. |
| Manifests.ScanFirstError | src/manifest.rs:43-54 | The first failing entry's error is returned. |
| Manifests.ManifestFirstError | src/manifest.rs:46-48 | The first failing entry decides the error; a non-UTF-8 name gives InvalidData "Filename is not UTF-8". |
| Manifests.ReorderedSucceeds | src/manifest.rs:43-54 | Success does not depend on listing order. |
| Manifests.ReorderedKeeps | src/manifest.rs:43-54 | Under any order, every name keeps its digest. |
| Manifests.ReorderedSameFiles | src/manifest.rs:43-54 | Any order of the same entries gives the same map. |
| Manifests.OrderIndependent | src/manifest.rs:40-60 | The manifest does not depend on `read_dir` order. |
| Sources.TrimStart | src/source.rs:61 | Leading white space is dropped and nothing else. |
| Sources.TrimEnd | src/source.rs:61 | Trailing white space is dropped and nothing else. |
| Sources.TrimSlice | src/source.rs:61 | `trim` keeps a contiguous piece cut only at white space, starting and ending with non-white-space. |
| Sources.Split | src/source.rs:62 | Splitting gives at least one piece. |
| Sources.SplitJoin | src/source.rs:62 | Joining the pieces with the separator gives the text back, and no piece holds the separator. |
| Sources.SplitFirst | src/source.rs:62-64 | The first piece is everything before the first separator. |
| Sources.ParseU64Accepts | src/source.rs:68-73 | `parse::<u64>` accepts exactly an optional '+' and one or more digits whose value fits, yielding that value; too large a value gives PosOverflow; empty text gives Empty. |
| Sources.ParseU64RejectsNonDigit | src/source.rs:68-73 | The first non-digit gives InvalidDigit when the digits before it fit. |
| Sources.ParseU64RoundTrip | src/source.rs:135-142 | Every u64 printed in decimal parses back to itself. |
| Sources.ParseU64Examples | src/source.rs:68-73 | '+' is accepted, while '-', a lone '+' and inner blanks give InvalidDigit. The empty string gives Empty. |
| Sources.FirstNonDigit | src/source.rs:68-73 | The first non-digit at or before a position, with only digits before it. |
| Sources.ToDecimal | src/source.rs:135-142 | The decimal text of a number is non-empty digits. |
| Sources.DecimalValueOfToDecimal | src/source.rs:135-142 | The decimal text of n denotes n. |
| Sources.MaxSecondsStops | src/source.rs:68-73 | After a line fails to parse, later lines change nothing. |
| Sources.MaxSecondsExtend | src/source.rs:75-84 | One more line raises the maximum to that line's seconds if they are larger. |
| Sources.FindTime | src/source.rs:60-93 | The `dir` branch returns `FindTimeOf` of the output of `find`. |
| Sources.NewestTime | src/source.rs:60-93 | The loop over the lines returns `TimeOfLines`: the running maximum, the first parse error, or "Find time not found". |
| Sources.MaxSecondsBounds | src/source.rs:75-84 | The maximum exists iff there is a line, and bounds the seconds of every line. |
| Sources.MaxSecondsAttained | src/source.rs:75-84 | The maximum is the seconds of some line. |
| Sources.MaxSecondsIsMax | src/source.rs:75-84 | The fold yields the largest seconds value. |
| Sources.MaxSecondsSucceeds | src/source.rs:68-73 | The fold succeeds iff every line parses. |
| Sources.MaxSecondsFirstError | src/source.rs:68-73 | The first unparseable line decides the error. |
| Sources.FindTimeIsNewest | src/source.rs:60-93 | For `dir`, the time is the largest whole-seconds value over the lines, and it is returned iff there is a line and every line parses. |
| Sources.FindTimeNotFound | src/source.rs:87-93 | "Find time not found" is returned iff the output is empty after trimming. |
| Sources.FindTimeFirstError | src/source.rs:68-73 | The error for the first unparseable line is "Find time not a number: " and the parse error. |
| Sources.FractionIgnored | src/source.rs:62-64 | Only the text before the first '.' counts. |
| Sources.GitTimeRoundTrip | src/source.rs:135-142 | A commit time printed in decimal with surrounding white space parses to itself. |
| Sources.TrimAround | src/source.rs:135-142 | Trimming white space around a word gives the word. |
| Sources.TrimStartAt | src/source.rs:61 | `trim_start` cuts exactly at the first non-white-space character. |
| Sources.TrimEndAt | src/source.rs:61 | `trim_end` cuts exactly after the last non-white-space character. |
| Sources.RevisionTime | src/source.rs:144-147 | `dir` gives the find time, `git` the commit time, and any other kind fails with "Unknown source kind: " and the kind. |

## Left out

- Durability: `sync_all`, `fsync` of directories and file modes other than a read-only flag are not modelled.
- Concurrency is not modelled. Two processes racing on one store are out of scope; each method is a sequence of single system calls on one filesystem.
- The random generator of `random_id` is the parameter `id`. The uniqueness of staging names is probabilistic in the code; the model proves only that distinct `id`s give distinct paths (`StoreProperties.TempPathShape`).
- SHA-384 (FIPS 180-4) and Ed25519 signature opening (RFC 8032) are the parameters `hash` and `open`. The test that two different inputs have different digests therefore cannot be stated.
- Files.OpenTarget follows a symbolic link only at the last path component and only one level deep, which covers every link the store creates. Links inside directories on the way are not followed.
- The order in which `read_dir` yields entries is the parameter `listing`. `Manifests.OrderIndependent` proves that the manifest does not depend on it.
- ContentStore.Store.WriteTail (with ContentStore.ProjectDir and ContentStore.TailLink): project and branch names are taken as single path components. `PathBuf::push` (src/store.rs:202-204) treats an absolute name as replacing the whole path, a name holding '/' as several components, ".." and "." as steps up or in place, and the empty name as no component at all; none of these is modelled.
- CreateDirIfNeeded (ContentStore.CreateDirIfNeeded, with Files.IsDirIn): `Path::is_dir` (src/store.rs:46) follows symbolic links, `IsDirIn` does not. A `tmp/`, `object/`, `block/`, `tail/` or project directory that is a link to a directory makes the model call `create_dir` and fail with AlreadyExists where the code goes on. For the same reason `ContentStore.ImportArtifactsStep` tests `artifacts/` with `IsDirIn`: an `artifacts` that is a link to a directory fails with NotADirectory in the model, where `read_dir` (src/store.rs:135) follows the link and lists the directory.
- ContentStore.Store.WriteContent: `write_all` (src/store.rs:93) failing after `create_new` has made the staging file, which the code then leaves behind partly written, is not modelled; the model's file creation writes all the bytes or fails before creating anything.
- StoreProperties.ImportObjectOutcome: on a directory, the code opens it and sets its mode to 0400 (src/store.rs:101-108) before the read fails with IsADirectory. The model keeps no mode for directories, so it states that every node is left as it was and does not capture that mode change.
- ContentStore.Store.ImportArtifacts: the properties of a successful import (`StoreProperties.ImportArtifactsManifest`, `StoreProperties.ImportArtifactsLinks`) assume `ContentStore.Lists`: `read_dir` yields only names present when the listing starts, each at most once. The loop replaces each artifact by a new link of the same name while it iterates (src/store.rs:143-150), and POSIX leaves open whether `readdir` then yields the re-created entry again. If it did, the code would open the link, reach `object/<key>`, and rename the link over that object, destroying it. Listings like that are outside what those lemmas promise. The method itself accepts any listing and agrees with `ImportArtifactsStep` on it.
- ContentStore.Store.ImportArtifacts: a non-UTF-8 name fails with InvalidInput and a debug-formatted message in the code. The model's InvalidName error carries the raw name instead of that text.
- Sources: running `cp`, `find` and `git` is left out, and so are the `from_utf8` failures of their output. The model starts from the output text.
- Sources.NewestTime: the "Find time not valid" error is never raised, because `split` always yields a first piece (`Sources.Split`). The model has no such branch.
- Base32.B32Dec accepts only the upper-case alphabet A-Z2-7. The base32 crate is not part of this model, and leniency it may have towards lower case or '=' is not captured.
- Blocks.FromBytes is defined only on 400 bytes, as every caller holds a `[u8; 400]`; there is no length-checked decode to model.
- JSON serialisation by serde is not modelled beyond the hex form of `Sha384`.
- src/download.rs, src/build.rs, src/lxc.rs, src/pihsm.rs, src/main.rs, src/config.rs, src/location.rs and src/lib.rs are not part of this model.
- Digests.New and the `Store` and `FileSystem` methods state their result through `old`. Their properties are also proved as lemmas about the `...Step` functions.
