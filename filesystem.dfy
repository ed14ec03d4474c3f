/**
 * The filesystem as the reconciliation pass sees it: a finite map from path
 * strings to entries. A directory's entry stands for the whole tree below
 * it; `inode` stands for an entry's identity and contents, which a move
 * carries along.
 */
module FileSystem {
  import opened Wrappers

  type Path = string

  datatype Kind = File | Dir

  datatype Entry = Entry(kind: Kind, inode: nat)

  type FS = map<Path, Entry>

  /** `os.path.exists`: a present path; the empty path never exists. */
  predicate Exists(fs: FS, p: Path): (b: bool)
    ensures b ==> p != ""
  {
    p != "" && p in fs
  }

  /** `os.path.isdir`: a directory is in particular an existing path. */
  predicate IsDir(fs: FS, p: Path): (b: bool)
    ensures b ==> Exists(fs, p)
  {
    p != "" && p in fs && fs[p].kind == Dir
  }

  /** `shutil.rmtree` on a directory: the directory and all it holds are gone, nothing else changes. */
  function RemoveTree(fs: FS, p: Path): (r: FS)
    requires IsDir(fs, p)
    ensures !Exists(r, p)
    ensures forall q | q != p :: (q in r <==> q in fs) && (q in r ==> r[q] == fs[q])
  {
    fs - {p}
  }

  datatype MoveError =
    | SourceMissing        // os.rename raises FileNotFoundError, and so does the copy fallback; always for ""
    | EmptyDestination     // renaming to "" fails the same way
    | DirectoryOntoFile    // os.rename raises NotADirectoryError; the copytree fallback finds the file

  /**
   * `shutil.move(src, dst)` where `dst` is not a directory (the pass removes
   * a directory destination first): a rename that replaces a file at `dst`.
   */
  function Move(fs: FS, src: Path, dst: Path): (r: Result<FS, MoveError>)
    requires !IsDir(fs, dst)
    ensures r.Success? <==> Exists(fs, src) && dst != "" && !(fs[src].kind == Dir && dst in fs)
    ensures r.Success? ==> !Exists(r.value, src) || src == dst
    ensures r.Success? ==> Exists(r.value, dst) && r.value[dst] == fs[src]
    ensures r.Success? ==> forall q | q != src && q != dst :: (q in r.value <==> q in fs) && (q in r.value ==> r.value[q] == fs[q])
  {
    if src == "" || src !in fs then Failure(SourceMissing)
    else if dst == "" then Failure(EmptyDestination)
    else if fs[src].kind == Dir && dst in fs then Failure(DirectoryOntoFile)
    else Success((fs - {src})[dst := fs[src]])
  }
}
