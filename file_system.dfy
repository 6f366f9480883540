/**
 * The local filesystem the ingestion job scans and the publisher delivers into: a tree whose
 * directories map entry names to files (their bytes) or further directories.
 */
module FileSystemModel {
  import opened Wrappers
  import opened JavaText

  datatype FsNode = File(data: seq<byte>) | Dir(entries: map<string, FsNode>)

  /** A path as the names leading to it from the root; the root itself is the empty path. */
  type Path = seq<string>

  /** The names a path string denotes: '/' separates them and empty names (from "//" or a trailing '/') vanish. */
  function PathOf(s: string): Path {
    Split(s, '/')
  }

  /** The node at `p`, if there is one. */
  function Get(root: FsNode, p: Path): Option<FsNode>
    decreases |p|
  {
    if |p| == 0 then Some(root)
    else match root
      case File(_) => None
      case Dir(es) => if p[0] in es then Get(es[p[0]], p[1..]) else None
  }

  /** Places `n` at `p`; the tree is unchanged when the parent of `p` is not a directory. */
  function Put(root: FsNode, p: Path, n: FsNode): FsNode
    decreases |p|
  {
    if |p| == 0 then n
    else match root
      case File(_) => root
      case Dir(es) =>
        if |p| == 1 then Dir(es[p[0] := n])
        else if p[0] in es then Dir(es[p[0] := Put(es[p[0]], p[1..], n)])
        else root
  }

  /** Unlinks whatever is at `p` (a non-empty `p`), with everything below it. */
  function Remove(root: FsNode, p: Path): FsNode
    decreases |p|
  {
    if |p| == 0 then root
    else match root
      case File(_) => root
      case Dir(es) =>
        if |p| == 1 then Dir(es - {p[0]})
        else if p[0] in es then Dir(es[p[0] := Remove(es[p[0]], p[1..])])
        else root
  }

  function Parent(p: Path): Path
    requires |p| > 0
  {
    p[..|p| - 1]
  }

  predicate IsDirAt(root: FsNode, p: Path) {
    Get(root, p).Some? && Get(root, p).value.Dir?
  }

  predicate IsNonEmptyDir(n: FsNode) {
    n.Dir? && |n.entries| > 0
  }

  /** `q` is `p` or lies inside it. */
  predicate Under(p: Path, q: Path) {
    |p| <= |q| && q[..|p|] == p
  }

  /** Neither path lies inside the other. */
  predicate Diverge(p: Path, q: Path) {
    exists i :: 0 <= i < |p| && i < |q| && p[i] != q[i]
  }

  /** Any two paths are nested one in the other or diverge. */
  lemma NestedOrDiverge(p: Path, q: Path)
    ensures Under(p, q) || Under(q, p) || Diverge(p, q)
  {
    if !Under(p, q) && !Under(q, p) {
      var m := if |p| <= |q| then |p| else |q|;
      assert !(forall i :: 0 <= i < m ==> p[i] == q[i]);
    }
  }

  lemma {:induction false} GetPutSame(root: FsNode, p: Path, n: FsNode)
    requires |p| > 0 && IsDirAt(root, Parent(p))
    ensures Get(Put(root, p, n), p) == Some(n)
    decreases |p|
  {
    if |p| > 1 {
      assert Parent(p)[1..] == Parent(p[1..]);
      GetPutSame(root.entries[p[0]], p[1..], n);
    }
  }

  lemma {:induction false} GetPutOther(root: FsNode, p: Path, q: Path, n: FsNode)
    requires Diverge(p, q)
    ensures Get(Put(root, p, n), q) == Get(root, q)
    decreases |p|
  {
    var i :| 0 <= i < |p| && i < |q| && p[i] != q[i];
    if root.Dir? && p[0] == q[0] && |p| > 1 && p[0] in root.entries {
      assert p[1..][i - 1] != q[1..][i - 1];
      GetPutOther(root.entries[p[0]], p[1..], q[1..], n);
    }
  }

  lemma {:induction false} GetRemoveSame(root: FsNode, p: Path)
    requires |p| > 0
    ensures Get(Remove(root, p), p).None?
    decreases |p|
  {
    if root.Dir? && |p| > 1 && p[0] in root.entries {
      GetRemoveSame(root.entries[p[0]], p[1..]);
    }
  }

  lemma {:induction false} GetRemoveOther(root: FsNode, p: Path, q: Path)
    requires Diverge(p, q)
    ensures Get(Remove(root, p), q) == Get(root, q)
    decreases |p|
  {
    var i :| 0 <= i < |p| && i < |q| && p[i] != q[i];
    if root.Dir? && p[0] == q[0] && |p| > 1 && p[0] in root.entries {
      assert p[1..][i - 1] != q[1..][i - 1];
      GetRemoveOther(root.entries[p[0]], p[1..], q[1..]);
    }
  }

  /** Unlinking `p` keeps every directory that is not at or inside `p`. */
  lemma {:induction false} RemoveKeepsDir(root: FsNode, p: Path, q: Path)
    requires |p| > 0 && IsDirAt(root, q) && !Under(p, q)
    ensures IsDirAt(Remove(root, p), q)
    decreases |q|
  {
    if |q| > 0 && |p| > 1 && p[0] == q[0] {
      assert !Under(p[1..], q[1..]);
      RemoveKeepsDir(root.entries[p[0]], p[1..], q[1..]);
    } else if |q| > 0 && |p| == 1 {
      assert p[0] != q[0];
    }
  }

  /** A node strictly inside `p` makes `p` a non-empty directory. */
  lemma {:induction false} AncestorIsNonEmptyDir(root: FsNode, p: Path, q: Path)
    requires Get(root, q).Some? && Under(p, q) && p != q
    ensures Get(root, p).Some? && IsNonEmptyDir(Get(root, p).value)
    decreases |p|
  {
    if |p| == 0 {
      assert q[0] in root.entries;
    } else {
      assert q[0] == p[0];
      assert q[1..][..|p| - 1] == p[1..];
      AncestorIsNonEmptyDir(root.entries[p[0]], p[1..], q[1..]);
    }
  }

  /** Unlinking a path brings nothing into existence. */
  lemma {:induction false} RemoveAddsNothing(root: FsNode, p: Path, q: Path)
    requires Get(Remove(root, p), q).Some?
    ensures Get(root, q).Some?
    decreases |p|
  {
    if |p| > 1 && |q| > 0 && root.Dir? && p[0] in root.entries && q[0] == p[0] {
      RemoveAddsNothing(root.entries[p[0]], p[1..], q[1..]);
    }
  }

  /** Placing a node at `p` brings into existence only `p` and what lies inside it. */
  lemma {:induction false} PutAddsOnlyAt(root: FsNode, p: Path, n: FsNode, q: Path)
    requires Get(Put(root, p, n), q).Some?
    ensures Get(root, q).Some? || Under(p, q)
    decreases |p|
  {
    if |p| > 0 && |q| > 0 && root.Dir? && q[0] == p[0] {
      if |p| == 1 {
        assert q[..|p|] == p;
      } else if p[0] in root.entries {
        PutAddsOnlyAt(root.entries[p[0]], p[1..], n, q[1..]);
        if Under(p[1..], q[1..]) {
          assert q[..|p|] == [q[0]] + q[1..][..|p| - 1];
        }
      }
    }
  }

  /** Nothing lies inside a file. */
  lemma {:induction false} NothingInsideFile(root: FsNode, p: Path, q: Path)
    requires Get(root, p).Some? && Get(root, p).value.File? && Under(p, q) && p != q
    ensures Get(root, q).None?
    decreases |p|
  {
    if |p| > 0 {
      assert q[0] == p[0];
      assert q[1..][..|p| - 1] == p[1..];
      NothingInsideFile(root.entries[p[0]], p[1..], q[1..]);
    }
  }

  /** File.exists. */
  predicate Exists(root: FsNode, p: Path) {
    Get(root, p).Some?
  }

  /** File.isDirectory. */
  predicate IsDirectory(root: FsNode, p: Path) {
    IsDirAt(root, p)
  }

  /** The names in the directory at `p` (File.list), or None when `p` is not a directory. */
  function ListNames(root: FsNode, p: Path): Option<set<string>> {
    match Get(root, p)
    case Some(Dir(es)) => Some(es.Keys)
    case _ => None
  }

  /** File.delete: removes a file or an empty directory and reports whether it did. */
  function DeleteOp(root: FsNode, p: Path): (FsNode, bool) {
    var n := Get(root, p);
    if |p| > 0 && n.Some? && !IsNonEmptyDir(n.value) then (Remove(root, p), true) else (root, false)
  }

  /** File.mkdir: creates an empty directory when nothing is at `p` and its parent is a directory. */
  function MkdirOp(root: FsNode, p: Path): (FsNode, bool) {
    if |p| > 0 && !Exists(root, p) && IsDirAt(root, Parent(p)) then (Put(root, p, Dir(map[])), true) else (root, false)
  }

  /**
   * Files.move(src, dst, REPLACE_EXISTING) within one filesystem. A missing source fails; a source
   * equal to the target is left alone. An existing target is deleted first, which fails for a non-empty
   * directory. The rename then fails when the target's parent is not a directory or the target lies
   * inside the source; the deleted target stays deleted.
   */
  function MoveOp(root: FsNode, src: Path, dst: Path): (FsNode, bool) {
    if |src| == 0 || |dst| == 0 || Get(root, src).None? then (root, false)
    else if src == dst then (root, true)
    else if Get(root, dst).Some? && IsNonEmptyDir(Get(root, dst).value) then (root, false)
    else
      var cleared := if Get(root, dst).Some? then Remove(root, dst) else root;
      if !IsDirAt(cleared, Parent(dst)) || Under(src, dst) then (cleared, false)
      else (Put(Remove(cleared, src), dst, Get(root, src).value), true)
  }

  /**
   * File.renameTo, i.e. rename(2): fails on a missing source, a target whose parent is not a directory,
   * a target inside the source, a directory over a file, a file over a directory, and a directory over
   * a non-empty directory; otherwise the source replaces whatever is at the target.
   */
  function RenameOp(root: FsNode, src: Path, dst: Path): (FsNode, bool) {
    if |src| == 0 || |dst| == 0 || Get(root, src).None? then (root, false)
    else if src == dst then (root, true)
    else if !IsDirAt(root, Parent(dst)) || Under(src, dst) then (root, false)
    else
      var s := Get(root, src).value;
      match Get(root, dst)
      case None => (Put(Remove(root, src), dst, s), true)
      case Some(d) =>
        if s.File? != d.File? || IsNonEmptyDir(d) then (root, false)
        else (Put(Remove(root, src), dst, s), true)
  }

  /** Opening a FileOutputStream and writing `data`: the file is created or truncated; a missing parent or a directory fails. */
  function WriteFileOp(root: FsNode, p: Path, data: seq<byte>): (FsNode, bool) {
    if |p| > 0 && IsDirAt(root, Parent(p)) && !IsDirAt(root, p) then (Put(root, p, File(data)), true) else (root, false)
  }

  /** File.createTempFile with the generated name given: a new empty file in the temp directory. */
  function CreateTempFileOp(root: FsNode, tmpDir: Path, name: string): (FsNode, bool) {
    var p := tmpDir + [name];
    if IsDirAt(root, tmpDir) && !Exists(root, p) then (Put(root, p, File([])), true) else (root, false)
  }

  /** What a successful delete leaves: nothing at `p`, everything beside it untouched; a failed one changes nothing. */
  lemma DeleteEffect(root: FsNode, p: Path)
    ensures var (r, ok) := DeleteOp(root, p);
      (ok <==> |p| > 0 && Exists(root, p) && !IsNonEmptyDir(Get(root, p).value)) &&
      (ok ==> !Exists(r, p) && forall q :: Diverge(p, q) ==> Get(r, q) == Get(root, q)) &&
      (!ok ==> r == root)
  {
    var (r, ok) := DeleteOp(root, p);
    if ok {
      GetRemoveSame(root, p);
      forall q | Diverge(p, q) ensures Get(r, q) == Get(root, q) {
        GetRemoveOther(root, p, q);
      }
    }
  }

  /** A successful mkdir puts an empty directory at `p` and leaves every path beside it untouched. */
  lemma MkdirEffect(root: FsNode, p: Path)
    ensures var (r, ok) := MkdirOp(root, p);
      (ok <==> |p| > 0 && !Exists(root, p) && IsDirAt(root, Parent(p))) &&
      (ok ==> Get(r, p) == Some(Dir(map[])) && forall q :: Diverge(p, q) ==> Get(r, q) == Get(root, q)) &&
      (!ok ==> r == root)
  {
    var (r, ok) := MkdirOp(root, p);
    if ok {
      GetPutSame(root, p, Dir(map[]));
      forall q | Diverge(p, q) ensures Get(r, q) == Get(root, q) {
        GetPutOther(root, p, q, Dir(map[]));
      }
    }
  }

  /** Replacing `dst` by the node at `src`, for diverging paths whose target parent is a directory. */
  lemma Relocate(root: FsNode, src: Path, dst: Path)
    requires |src| > 0 && |dst| > 0 && Exists(root, src) && Diverge(src, dst)
    requires IsDirAt(root, Parent(dst))
    ensures var r := Put(Remove(root, src), dst, Get(root, src).value);
      Get(r, dst) == Get(root, src) && !Exists(r, src) &&
      forall q :: Diverge(src, q) && Diverge(dst, q) ==> Get(r, q) == Get(root, q)
  {
    var n := Get(root, src).value;
    var removed := Remove(root, src);
    assert !Under(src, Parent(dst));
    RemoveKeepsDir(root, src, Parent(dst));
    GetPutSame(removed, dst, n);
    GetRemoveSame(root, src);
    assert Diverge(dst, src) by {
      var i :| 0 <= i < |src| && i < |dst| && src[i] != dst[i];
    }
    GetPutOther(removed, dst, src, n);
    forall q | Diverge(src, q) && Diverge(dst, q)
      ensures Get(Put(removed, dst, n), q) == Get(root, q)
    {
      GetPutOther(removed, dst, q, n);
      GetRemoveOther(root, src, q);
    }
  }

  /**
   * A move that succeeds between two different paths leaves the source's node at the target and
   * nothing at the source, and every path apart from both untouched; a missing source fails.
   */
  lemma MoveEffect(root: FsNode, src: Path, dst: Path)
    ensures var (r, ok) := MoveOp(root, src, dst);
      (!Exists(root, src) ==> !ok && r == root) &&
      (ok && src != dst ==>
        Get(r, dst) == Get(root, src) && !Exists(r, src) &&
        forall q :: Diverge(src, q) && Diverge(dst, q) ==> Get(r, q) == Get(root, q))
  {
    var (r, ok) := MoveOp(root, src, dst);
    if ok && src != dst {
      var cleared := if Get(root, dst).Some? then Remove(root, dst) else root;
      NestedOrDiverge(src, dst);
      if Under(dst, src) {
        AncestorIsNonEmptyDir(root, dst, src);
        assert false;
      }
      var i :| 0 <= i < |src| && i < |dst| && src[i] != dst[i];
      assert Diverge(dst, src);
      assert Get(cleared, src) == Get(root, src) by {
        if Get(root, dst).Some? {
          GetRemoveOther(root, dst, src);
        }
      }
      Relocate(cleared, src, dst);
      forall q | Diverge(src, q) && Diverge(dst, q) ensures Get(cleared, q) == Get(root, q) {
        if Get(root, dst).Some? {
          GetRemoveOther(root, dst, q);
        }
      }
    }
  }

  /** Whether or not it succeeds, a move leaves every path apart from its source and its target as it was. */
  lemma MoveFrame(root: FsNode, src: Path, dst: Path, q: Path)
    requires Diverge(src, q) && Diverge(dst, q)
    ensures Get(MoveOp(root, src, dst).0, q) == Get(root, q)
  {
    if |src| > 0 && |dst| > 0 && Get(root, src).Some? && src != dst && !(Get(root, dst).Some? && IsNonEmptyDir(Get(root, dst).value)) {
      var cleared := if Get(root, dst).Some? then Remove(root, dst) else root;
      if Get(root, dst).Some? {
        GetRemoveOther(root, dst, q);
      }
      GetRemoveOther(cleared, src, q);
      GetPutOther(Remove(cleared, src), dst, q, Get(root, src).value);
    }
  }

  /** Whether or not it succeeds, a rename leaves every path apart from its source and its target as it was. */
  lemma RenameFrame(root: FsNode, src: Path, dst: Path, q: Path)
    requires Diverge(src, q) && Diverge(dst, q)
    ensures Get(RenameOp(root, src, dst).0, q) == Get(root, q)
  {
    if |src| > 0 && |dst| > 0 && Get(root, src).Some? && src != dst {
      GetRemoveOther(root, src, q);
      GetPutOther(Remove(root, src), dst, q, Get(root, src).value);
    }
  }

  /** A rename that succeeds between two different paths has the same effect as a move. */
  lemma RenameEffect(root: FsNode, src: Path, dst: Path)
    ensures var (r, ok) := RenameOp(root, src, dst);
      (!Exists(root, src) ==> !ok && r == root) &&
      (!ok ==> r == root) &&
      (ok && src != dst ==>
        Get(r, dst) == Get(root, src) && !Exists(r, src) &&
        forall q :: Diverge(src, q) && Diverge(dst, q) ==> Get(r, q) == Get(root, q))
  {
    var (r, ok) := RenameOp(root, src, dst);
    if ok && src != dst {
      NestedOrDiverge(src, dst);
      if Under(dst, src) {
        AncestorIsNonEmptyDir(root, dst, src);
        assert false;
      }
      Relocate(root, src, dst);
    }
  }

  /** The filesystem as java.io.File and java.nio.file.Files see it. */
  class FileSystem {
    var root: FsNode

    constructor (initial: FsNode)
      ensures root == initial
    {
      root := initial;
    }

    method Delete(p: Path) returns (ok: bool)
      modifies this
      ensures (root, ok) == DeleteOp(old(root), p)
    {
      root, ok := DeleteOp(root, p).0, DeleteOp(root, p).1;
    }

    method Mkdir(p: Path) returns (ok: bool)
      modifies this
      ensures (root, ok) == MkdirOp(old(root), p)
    {
      root, ok := MkdirOp(root, p).0, MkdirOp(root, p).1;
    }

    /** Files.move with REPLACE_EXISTING; a failure is the IOException the call raises. */
    method Move(src: Path, dst: Path) returns (r: Result<()>)
      modifies this
      ensures root == MoveOp(old(root), src, dst).0
      ensures r == if MoveOp(old(root), src, dst).1 then Ok(()) else Throws(IOFailure)
    {
      var (next, ok) := MoveOp(root, src, dst);
      root := next;
      r := if ok then Ok(()) else Throws(IOFailure);
    }

    method RenameTo(src: Path, dst: Path) returns (ok: bool)
      modifies this
      ensures (root, ok) == RenameOp(old(root), src, dst)
    {
      root, ok := RenameOp(root, src, dst).0, RenameOp(root, src, dst).1;
    }

    /** Writes a whole file; a failure is the IOException the stream raises. */
    method WriteFile(p: Path, data: seq<byte>) returns (r: Result<()>)
      modifies this
      ensures root == WriteFileOp(old(root), p, data).0
      ensures r == if WriteFileOp(old(root), p, data).1 then Ok(()) else Throws(IOFailure)
    {
      var (next, ok) := WriteFileOp(root, p, data);
      root := next;
      r := if ok then Ok(()) else Throws(IOFailure);
    }

    /** File.createTempFile: the new file's path, or the IOException. */
    method CreateTempFile(tmpDir: Path, name: string) returns (r: Result<Path>)
      modifies this
      ensures root == CreateTempFileOp(old(root), tmpDir, name).0
      ensures r == if CreateTempFileOp(old(root), tmpDir, name).1 then Ok(tmpDir + [name]) else Throws(IOFailure)
    {
      var (next, ok) := CreateTempFileOp(root, tmpDir, name);
      root := next;
      r := if ok then Ok(tmpDir + [name]) else Throws(IOFailure);
    }
  }
}
