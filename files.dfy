/** The part of a POSIX filesystem the store relies on: directories,
    regular files with a read-only flag, and symbolic links, addressed by
    absolute paths. Each method behaves like the `std::fs` call named in its
    comment, with the error that call reports. */
module Files {
  import opened Common

  /** A file-name component as the operating system hands it out: either
      valid UTF-8, or raw bytes that are not. */
  datatype OsName = Utf8(text: string) | NonUtf8(raw: seq<Byte>)

  /** An absolute path, one name per component; the root is []. */
  type Path = seq<OsName>

  /** A relative path, as stored in a symbolic link. */
  type RelPath = seq<OsName>

  datatype Node =
    | File(content: seq<Byte>, readOnly: bool)
    | Dir
    | Symlink(target: RelPath)

  function Parent(p: Path): Path
    requires p != []
  {
    p[..|p| - 1]
  }

  /** `q` lies somewhere below directory `d`. */
  predicate Below(d: Path, q: Path)
  {
    |d| < |q| && q[..|d|] == d
  }

  /** The root always exists and is a directory. */
  predicate IsDirIn(nodes: map<Path, Node>, p: Path)
  {
    p == [] || (p in nodes && nodes[p].Dir?)
  }

  /** Whether `p` can be created: its parent must be a directory. */
  function ParentCheck(nodes: map<Path, Node>, p: Path): Outcome<IoError>
    requires p != []
  {
    if IsDirIn(nodes, Parent(p)) then Pass
    else if Parent(p) in nodes then Fail(NotADirectory)
    else Fail(NotFound)
  }

  /** `d` holds at least one entry. */
  predicate HasEntries(nodes: map<Path, Node>, d: Path)
  {
    exists q :: q in nodes && Below(d, q)
  }

  /** Where a link at `link` with relative `target` points: the target is
      read from the directory that holds the link, ".." going up one level. */
  function Resolve(dir: Path, target: RelPath): Path
    decreases |target|
  {
    if target == [] then dir
    else if target[0] == Utf8("..") then Resolve(if dir == [] then [] else Parent(dir), target[1..])
    else if target[0] == Utf8(".") then Resolve(dir, target[1..])
    else Resolve(dir + [target[0]], target[1..])
  }

  /** The node `File::open` reaches from `p`: `p` itself, or the node a
      link at `p` points to. */
  function OpenTarget(nodes: map<Path, Node>, p: Path): (r: Result<Path, IoError>)
    ensures r.Ok? ==> r.value in nodes && !nodes[r.value].Symlink?
    ensures r.Ok? ==> p != [] && p in nodes && (!nodes[p].Symlink? ==> r.value == p)
    ensures p !in nodes ==> r == Err(NotFound)
  {
    if p !in nodes || p == [] then Err(NotFound)
    else match nodes[p]
      case Symlink(target) =>
        var q := Resolve(Parent(p), target);
        if q in nodes && !nodes[q].Symlink? then Ok(q) else Err(NotFound)
      case _ => Ok(p)
  }

  /** Opening `p` and reading it to the end. */
  function ReadFile(nodes: map<Path, Node>, p: Path): (r: Result<seq<Byte>, IoError>)
  {
    match OpenTarget(nodes, p)
    case Err(e) => Err(e)
    case Ok(q) => if nodes[q].File? then Ok(nodes[q].content) else Err(IsADirectory)
  }

  /** The names directly inside `d`. */
  function Children(nodes: map<Path, Node>, d: Path): set<OsName>
  {
    set q | q in nodes && |q| == |d| + 1 && q[..|d|] == d :: q[|d|]
  }

  /** Every path outside `changed` is as it was. */
  ghost predicate SameOutside(before: map<Path, Node>, after: map<Path, Node>, changed: set<Path>)
  {
    forall p :: p !in changed ==>
      (p in before <==> p in after) && (p in before ==> before[p] == after[p])
  }

  /** The outcome of one filesystem call and the nodes it leaves. */
  datatype Step<R> = Step(result: R, nodes: map<Path, Node>)

  /** `std::fs::create_dir`. */
  function MakeDir(nodes: map<Path, Node>, p: Path): Step<Outcome<IoError>>
    requires p != []
  {
    if p in nodes then Step(Fail(AlreadyExists), nodes)
    else
      var check := ParentCheck(nodes, p);
      Step(check, if check.Pass? then nodes[p := Dir] else nodes)
  }

  /** `OpenOptions::new().create_new(true).write(true).mode(..)` followed by
      `write_all`: a new file holding `content`; fails if anything, even a
      dangling link, already has that name. */
  function CreateFile(nodes: map<Path, Node>, p: Path, content: seq<Byte>, readOnly: bool)
    : Step<Outcome<IoError>>
    requires p != []
  {
    if p in nodes then Step(Fail(AlreadyExists), nodes)
    else
      var check := ParentCheck(nodes, p);
      Step(check, if check.Pass? then nodes[p := File(content, readOnly)] else nodes)
  }

  /** `std::fs::rename` of a file or link: replaces whatever non-directory
      sits at `dst`, in one step. */
  function MoveEntry(nodes: map<Path, Node>, src: Path, dst: Path): Step<Outcome<IoError>>
    requires src != [] && dst != []
  {
    if src !in nodes then Step(Fail(NotFound), nodes)
    else if ParentCheck(nodes, dst).Fail? then Step(ParentCheck(nodes, dst), nodes)
    else if dst in nodes && nodes[dst].Dir? then Step(Fail(IsADirectory), nodes)
    else if src == dst then Step(Pass, nodes)
    else Step(Pass, (nodes - {src})[dst := nodes[src]])
  }

  /** `std::os::unix::fs::symlink(target, link)`: fails if `link` exists. */
  function MakeLink(nodes: map<Path, Node>, target: RelPath, link: Path): Step<Outcome<IoError>>
    requires link != []
  {
    if link in nodes then Step(Fail(AlreadyExists), nodes)
    else
      var check := ParentCheck(nodes, link);
      Step(check, if check.Pass? then nodes[link := Symlink(target)] else nodes)
  }

  /** `std::fs::remove_dir`: only an empty directory can go. */
  function RemoveEmptyDir(nodes: map<Path, Node>, p: Path): Step<Outcome<IoError>>
  {
    if p !in nodes then Step(Fail(NotFound), nodes)
    else if !nodes[p].Dir? then Step(Fail(NotADirectory), nodes)
    else if HasEntries(nodes, p) then Step(Fail(DirectoryNotEmpty), nodes)
    else Step(Pass, nodes - {p})
  }

  /** `set_permissions` with mode 0400 on an open file: the file becomes
      read-only; the mode of a directory is not modelled. */
  function MarkReadOnly(nodes: map<Path, Node>, q: Path): map<Path, Node>
  {
    if q in nodes && nodes[q].File? then nodes[q := File(nodes[q].content, true)] else nodes
  }

  /** The filesystem the process sees; each method is one system call and
      behaves as the function of the same purpose above. */
  class FileSystem {
    var nodes: map<Path, Node>

    constructor (nodes: map<Path, Node>)
      ensures this.nodes == nodes
    {
      this.nodes := nodes;
    }

    /** `Path::is_dir`. */
    function IsDir(p: Path): bool
      reads this
    {
      IsDirIn(nodes, p)
    }

    method CreateDir(p: Path) returns (r: Outcome<IoError>)
      requires p != []
      modifies this
      ensures Step(r, nodes) == MakeDir(old(nodes), p)
    {
      if p in nodes {
        return Fail(AlreadyExists);
      }
      r := ParentCheck(nodes, p);
      if r.Pass? {
        nodes := nodes[p := Dir];
      }
    }

    method CreateNew(p: Path, content: seq<Byte>, readOnly: bool) returns (r: Outcome<IoError>)
      requires p != []
      modifies this
      ensures Step(r, nodes) == CreateFile(old(nodes), p, content, readOnly)
    {
      if p in nodes {
        return Fail(AlreadyExists);
      }
      r := ParentCheck(nodes, p);
      if r.Pass? {
        nodes := nodes[p := File(content, readOnly)];
      }
    }

    method Rename(src: Path, dst: Path) returns (r: Outcome<IoError>)
      requires src != [] && dst != []
      requires src in nodes ==> !nodes[src].Dir?
      modifies this
      ensures Step(r, nodes) == MoveEntry(old(nodes), src, dst)
    {
      if src !in nodes {
        return Fail(NotFound);
      }
      r := ParentCheck(nodes, dst);
      if r.Fail? {
        return;
      }
      if dst in nodes && nodes[dst].Dir? {
        return Fail(IsADirectory);
      }
      if src != dst {
        nodes := (nodes - {src})[dst := nodes[src]];
      }
    }

    method CreateSymlink(target: RelPath, link: Path) returns (r: Outcome<IoError>)
      requires link != []
      modifies this
      ensures Step(r, nodes) == MakeLink(old(nodes), target, link)
    {
      if link in nodes {
        return Fail(AlreadyExists);
      }
      r := ParentCheck(nodes, link);
      if r.Pass? {
        nodes := nodes[link := Symlink(target)];
      }
    }

    method RemoveDir(p: Path) returns (r: Outcome<IoError>)
      modifies this
      ensures Step(r, nodes) == RemoveEmptyDir(old(nodes), p)
    {
      if p !in nodes {
        return Fail(NotFound);
      }
      if !nodes[p].Dir? {
        return Fail(NotADirectory);
      }
      if exists q :: q in nodes && Below(p, q) {
        return Fail(DirectoryNotEmpty);
      }
      nodes := nodes - {p};
      r := Pass;
    }

    method SetReadOnly(q: Path)
      modifies this
      ensures nodes == MarkReadOnly(old(nodes), q)
    {
      if q in nodes && nodes[q].File? {
        nodes := nodes[q := File(nodes[q].content, true)];
      }
    }

    /** `File::open` followed by reading to the end. */
    method Open(p: Path) returns (r: Result<seq<Byte>, IoError>)
      ensures r == ReadFile(nodes, p)
    {
      var target := OpenTarget(nodes, p);
      if target.Err? {
        return Err(target.error);
      }
      var q := target.value;
      if nodes[q].File? {
        r := Ok(nodes[q].content);
      } else {
        r := Err(IsADirectory);
      }
    }
  }
}
