/**
 * AbstractIngestionExecuter: one scheduled scan of the drop directory. It records the run, checks
 * the directory, and hands each ZIP named after an ISBN to the importer, deleting the ZIP when the
 * import succeeds and moving it to failedProcessing when it does not. The first bad name or
 * exception ends the scan; the exception is logged and swallowed.
 */
module IngestionExecuter {
  import opened Wrappers
  import opened JavaText
  import opened FileSystemModel
  import opened ProcessingErrors
  import opened BestPubUtils

  const MinLong: int := -0x8000_0000_0000_0000
  const MaxLong: int := 0x7FFF_FFFF_FFFF_FFFF

  /** Java long arithmetic: the value reduced into the 64-bit two's-complement range. */
  function Wrap64(x: int): (r: int)
    ensures MinLong <= r <= MaxLong
    ensures MinLong <= x <= MaxLong ==> r == x
    ensures x == MaxLong + 1 ==> r == MinLong
  {
    (x - MinLong) % 0x1_0000_0000_0000_0000 + MinLong
  }

  const ZipExtension: string := "zip"

  /** What processZipFile does with one archive: true, false, or an exception it lets through. */
  datatype ZipOutcome = Imported | Rejected | Failed(exc: Exc)

  /** What the catch block of execute logs: an IngestionException with its code, or another exception. */
  datatype Logged = IngestionError(code: ErrorCode) | Raised(exc: Exc)

  /**
   * The outcome of the loop over the ZIPs: the filesystem, how many archives were finished (deleted
   * or quarantined), the ISBNs handed to processZipFile in order, and what stopped the loop, if
   * anything did.
   */
  datatype Cycle = Cycle(root: FsNode, done: nat, handed: seq<string>, logged: Option<Logged>)

  /** A listed file of the scanned directory. */
  function ZipPath(dir: string, name: string): Path {
    PathOf(dir) + [name]
  }

  /** Where a rejected ZIP ends up. */
  function QuarantinePath(dir: string, name: string): Path {
    PathOf(dir) + [FailedProcessingDirName, name]
  }

  /**
   * The verdict of processZipFile carried out on the ZIP: deleted when imported (File.delete, whose
   * answer execute ignores), moved to failedProcessing when rejected.
   */
  function FinishOp(root: FsNode, dir: string, name: string, outcome: ZipOutcome): (FsNode, Result<()>)
    requires !outcome.Failed?
  {
    if outcome.Imported? then (DeleteOp(root, ZipPath(dir, name)).0, Ok(()))
    else MoveZipToFailedOp(root, ZipPath(dir, name), dir)
  }

  /**
   * The for loop of execute over the ZIPs, in listing order. Every archive it hands over is either
   * finished or the one that stopped the loop, and a loop that ran to the end finished them all.
   */
  function ProcessZipsOp(root: FsNode, dir: string, names: seq<string>, process: (string, string) -> ZipOutcome): (c: Cycle)
    ensures c.done <= |names| && (|c.handed| == c.done || (|c.handed| == c.done + 1 && c.logged.Some?))
    ensures c.logged.None? <==> c.done == |names|
    decreases |names|
  {
    if |names| == 0 then Cycle(root, 0, [], None)
    else
      var name := names[0];
      var isbn := RemoveExtension(name);
      var outcome := process(name, isbn);
      if !IsIsbn(isbn) then Cycle(root, 0, [], Some(IngestionError(IngestionNoIsbnInZipName)))
      else if outcome.Failed? then Cycle(root, 0, [isbn], Some(Raised(outcome.exc)))
      else
        var (root1, finished) := FinishOp(root, dir, name, outcome);
        if finished.Throws? then Cycle(root1, 0, [isbn], Some(Raised(finished.exc)))
        else
          var rest := ProcessZipsOp(root1, dir, names[1..], process);
          Cycle(rest.root, rest.done + 1, [isbn] + rest.handed, rest.logged)
  }

  /**
   * The try block of execute: a missing directory and a plain file are IngestionExceptions raised
   * before anything is listed; otherwise the ZIPs are processed.
   */
  function ScanOp(root: FsNode, dir: string, listing: seq<string>, process: (string, string) -> ZipOutcome): Cycle {
    if !Exists(root, PathOf(dir)) then Cycle(root, 0, [], Some(IngestionError(IngestionDirNotFound)))
    else if !IsDirectory(root, PathOf(dir)) then Cycle(root, 0, [], Some(IngestionError(IngestionDirIsFile)))
    else ProcessZipsOp(root, dir, listing, process)
  }

  /**
   * `listing` is findFilesUsingExtension's array: each ZIP of the directory once, in the order the
   * listing returns them.
   */
  ghost predicate ListingOf(listing: seq<string>, found: Option<set<string>>) {
    found.Some? ==>
      (forall name :: name in listing <==> name in found.value) &&
      (forall i, j :: 0 <= i < j < |listing| ==> listing[i] != listing[j])
  }

  // ---------------------------------------------------------------- what a scan promises

  /**
   * Each ISBN handed to processZipFile is the base name of the file at that position of the listing,
   * and it is an ISBN; the loop stops at a name that is not one, without handing it over.
   */
  lemma {:induction false} HandedIsbns(root: FsNode, dir: string, names: seq<string>, process: (string, string) -> ZipOutcome)
    ensures HandedFrom(names, ProcessZipsOp(root, dir, names, process), RemoveExtension, IsIsbn)
    decreases |names|
  {
    if |names| > 0 {
      var name := names[0];
      var isbn := RemoveExtension(name);
      var outcome := process(name, isbn);
      ScanStep(root, dir, names, 0, process);
      assert names[0..] == names;
      if IsIsbn(isbn) && !outcome.Failed? {
        var (root1, finished) := FinishOp(root, dir, name, outcome);
        if finished.Ok? {
          HandedIsbns(root1, dir, names[1..], process);
          HandedCons(names, ProcessZipsOp(root1, dir, names[1..], process), RemoveExtension, IsIsbn);
        }
      }
    }
  }

  /**
   * What HandedIsbns promises of a cycle over `names`, for the base-name function `base` and the
   * ISBN test `isIsbn`.
   */
  ghost predicate HandedFrom(names: seq<string>, c: Cycle, base: string -> string, isIsbn: string -> bool) {
    HandedPrefix(names, c.handed, base, isIsbn) &&
    (c.logged == Some(IngestionError(IngestionNoIsbnInZipName)) ==>
      |c.handed| == c.done && c.done < |names| && !isIsbn(base(names[c.done])))
  }

  /** Each handed ISBN passes `isIsbn` and is the base name of the name at its position. */
  ghost predicate HandedPrefix(names: seq<string>, handed: seq<string>, base: string -> string, isIsbn: string -> bool) {
    |handed| <= |names| && forall k :: 0 <= k < |handed| ==> handed[k] == base(names[k]) && isIsbn(handed[k])
  }

  /** A pass that hands over the ISBN of the first name keeps HandedFrom. */
  lemma HandedCons(names: seq<string>, rest: Cycle, base: string -> string, isIsbn: string -> bool)
    requires |names| > 0 && isIsbn(base(names[0])) && HandedFrom(names[1..], rest, base, isIsbn)
    ensures HandedFrom(names, Cycle(rest.root, rest.done + 1, [base(names[0])] + rest.handed, rest.logged), base, isIsbn)
  {
    var tail := names[1..];
    var handed := [base(names[0])] + rest.handed;
    forall k | 0 <= k < |handed|
      ensures handed[k] == base(names[k]) && isIsbn(handed[k])
    {
      if k > 0 {
        assert handed[k] == rest.handed[k - 1] && tail[k - 1] == names[k];
      }
    }
    assert HandedPrefix(names, handed, base, isIsbn);
    if rest.logged == Some(IngestionError(IngestionNoIsbnInZipName)) {
      assert tail[rest.done] == names[rest.done + 1];
    }
  }

  /**
   * A listing of the ZIPs of a directory never holds failedProcessing, which has no extension, and
   * names each entry once.
   */
  lemma ListingWellFormed(root: FsNode, dir: string, listing: seq<string>)
    requires IsDirectory(root, PathOf(dir)) && ListingOf(listing, FindFilesUsingExtension(root, dir, ZipExtension))
    ensures FailedProcessingDirName !in listing
    ensures forall i, j :: 0 <= i < j < |listing| ==> listing[i] != listing[j]
  {
    FindFilesUsingExtensionMeaning(root, dir, ZipExtension);
    assert '/' !in FailedProcessingDirName && '.' !in FailedProcessingDirName;
    ExtensionOfChildPath(dir, FailedProcessingDirName);
    assert Extension(FailedProcessingDirName) == "";
  }

  /** A name the scan does not list, and a listing that does not hold failedProcessing. */
  predicate Apart(a: string, names: seq<string>) {
    a != FailedProcessingDirName && a !in names && FailedProcessingDirName !in names
  }

  /** Deleting the ZIP `b` leaves another file of the directory, and a quarantined ZIP, as they were. */
  lemma DeleteFrame(root: FsNode, dir: string, b: string, a: string)
    requires a != b && b != FailedProcessingDirName
    ensures var r := DeleteOp(root, ZipPath(dir, b)).0;
      Get(r, ZipPath(dir, a)) == Get(root, ZipPath(dir, a)) &&
      Get(r, QuarantinePath(dir, a)) == Get(root, QuarantinePath(dir, a))
  {
    var d := PathOf(dir);
    var za, zb, qa := d + [a], d + [b], QuarantinePath(dir, a);
    assert Diverge(zb, za) by { assert zb[|d|] != za[|d|]; }
    assert Diverge(zb, qa) by { assert zb[|d|] != qa[|d|]; }
    DeleteEffect(root, zb);
  }

  /** Quarantining the ZIP `b` leaves another file of the directory, and a quarantined ZIP, as they were. */
  lemma QuarantineFrame(root: FsNode, dir: string, b: string, a: string)
    requires a != b && a != FailedProcessingDirName && b != FailedProcessingDirName
    ensures var r := MoveZipToFailedOp(root, ZipPath(dir, b), dir).0;
      Get(r, ZipPath(dir, a)) == Get(root, ZipPath(dir, a)) &&
      (Exists(root, QuarantinePath(dir, a)) ==> Get(r, QuarantinePath(dir, a)) == Get(root, QuarantinePath(dir, a)))
  {
    FailedDirPath(dir);
    var d := PathOf(dir);
    var failedDir := d + [FailedProcessingDirName];
    var za, zb, qa, qb := d + [a], d + [b], failedDir + [a], failedDir + [b];
    assert Diverge(zb, za) by { assert zb[|d|] != za[|d|]; }
    assert Diverge(zb, qa) by { assert zb[|d|] != qa[|d|]; }
    assert Diverge(qb, za) by { assert qb[|d|] != za[|d|]; }
    assert Diverge(qb, qa) by { assert qb[|d| + 1] != qa[|d| + 1]; }
    assert Diverge(failedDir, za) by { assert failedDir[|d|] != za[|d|]; }
    assert qa == QuarantinePath(dir, a);
    MkdirEffect(root, failedDir);
    var r1 := if Exists(root, failedDir) then root else MkdirOp(root, failedDir).0;
    MoveFrame(r1, zb, qb, za);
    MoveFrame(r1, zb, qb, qa);
    if Exists(root, qa) {
      AncestorIsNonEmptyDir(root, failedDir, qa);
    }
  }

  /** Finishing the ZIP `b` leaves another file of the directory, and a quarantined ZIP, as they were. */
  lemma StepFrame(root: FsNode, dir: string, b: string, outcome: ZipOutcome, a: string)
    requires !outcome.Failed? && a != b && a != FailedProcessingDirName && b != FailedProcessingDirName
    ensures var r := FinishOp(root, dir, b, outcome).0;
      Get(r, ZipPath(dir, a)) == Get(root, ZipPath(dir, a)) &&
      (Exists(root, QuarantinePath(dir, a)) ==> Get(r, QuarantinePath(dir, a)) == Get(root, QuarantinePath(dir, a)))
  {
    if outcome.Imported? {
      DeleteFrame(root, dir, b, a);
    } else {
      QuarantineFrame(root, dir, b, a);
    }
  }

  /** The tail of a listing without its head is apart from that head when the listing is distinct. */
  lemma TailApart(a: string, names: seq<string>)
    requires Apart(a, names)
    ensures |names| > 0 ==> Apart(a, names[1..])
  {
    if |names| > 0 {
      assert forall x :: x in names[1..] ==> x in names;
    }
  }

  /**
   * The rest of a scan leaves the file of a name it does not list as it was, and a ZIP already
   * quarantined under such a name too.
   */
  lemma {:induction false} ScanFrame(root: FsNode, dir: string, names: seq<string>, process: (string, string) -> ZipOutcome, a: string)
    requires Apart(a, names)
    ensures var c := ProcessZipsOp(root, dir, names, process);
      Get(c.root, ZipPath(dir, a)) == Get(root, ZipPath(dir, a)) &&
      (Exists(root, QuarantinePath(dir, a)) ==> Get(c.root, QuarantinePath(dir, a)) == Get(root, QuarantinePath(dir, a)))
    decreases |names|
  {
    if |names| > 0 {
      var name := names[0];
      var outcome := process(name, RemoveExtension(name));
      if IsIsbn(RemoveExtension(name)) && !outcome.Failed? {
        var (root1, finished) := FinishOp(root, dir, name, outcome);
        StepFrame(root, dir, name, outcome, a);
        if finished.Ok? {
          TailApart(a, names);
          ScanFrame(root1, dir, names[1..], process, a);
        }
      }
    }
  }

  /** Every listed name is distinct and no listed name is failedProcessing; each listed entry is a file. */
  predicate WellListed(root: FsNode, dir: string, names: seq<string>) {
    && FailedProcessingDirName !in names
    && (forall i, j :: 0 <= i < j < |names| ==> names[i] != names[j])
    && (forall k :: 0 <= k < |names| ==> Get(root, ZipPath(dir, names[k])).Some? && Get(root, ZipPath(dir, names[k])).value.File?)
  }

  /** What becomes of one finished ZIP: gone from the directory, and when rejected, in failedProcessing with its bytes. */
  predicate Fate(root: FsNode, after: FsNode, dir: string, name: string, outcome: ZipOutcome) {
    && !Exists(after, ZipPath(dir, name))
    && (outcome == Rejected ==> Get(after, QuarantinePath(dir, name)) == Get(root, ZipPath(dir, name)))
    && (outcome == Imported || outcome == Rejected)
  }

  /** The first ZIP's fate once it is finished. */
  lemma FirstFate(root: FsNode, dir: string, name: string, outcome: ZipOutcome)
    requires name != FailedProcessingDirName && Get(root, ZipPath(dir, name)).Some? && Get(root, ZipPath(dir, name)).value.File?
    requires !outcome.Failed? && FinishOp(root, dir, name, outcome).1.Ok?
    ensures var root1 := FinishOp(root, dir, name, outcome).0;
      Fate(root, root1, dir, name, outcome) && (outcome == Rejected ==> Exists(root1, QuarantinePath(dir, name)))
  {
    var d := PathOf(dir);
    if outcome.Imported? {
      DeleteEffect(root, ZipPath(dir, name));
    } else {
      MoveZipToFailedEffect(root, ZipPath(dir, name), dir);
      assert Diverge(ZipPath(dir, name), d + [FailedProcessingDirName]) by {
        assert ZipPath(dir, name)[|d|] != (d + [FailedProcessingDirName])[|d|];
      }
      assert QuarantinePath(dir, name) == d + [FailedProcessingDirName] + [name];
    }
  }

  /** A well-listed directory stays well listed for the rest of the listing once its first ZIP is finished. */
  lemma TailWellListed(root: FsNode, dir: string, names: seq<string>, outcome: ZipOutcome)
    requires WellListed(root, dir, names) && |names| > 0 && !outcome.Failed?
    ensures WellListed(FinishOp(root, dir, names[0], outcome).0, dir, names[1..])
    ensures Apart(names[0], names[1..])
  {
    var root1 := FinishOp(root, dir, names[0], outcome).0;
    forall k | 0 <= k < |names[1..]|
      ensures Get(root1, ZipPath(dir, names[1..][k])) == Get(root, ZipPath(dir, names[k + 1]))
    {
      assert names[1..][k] == names[k + 1] && names[0] != names[k + 1];
      StepFrame(root, dir, names[0], outcome, names[k + 1]);
    }
    forall x | x in names[1..] ensures x != names[0] {
      var k :| 0 <= k < |names[1..]| && names[1..][k] == x;
      assert names[k + 1] == x;
    }
  }

  /** Each finished ZIP has gone from the directory: deleted when imported, in failedProcessing with its bytes when rejected. */
  lemma {:induction false} ScanFates(root: FsNode, dir: string, names: seq<string>, process: (string, string) -> ZipOutcome)
    requires WellListed(root, dir, names)
    ensures var c := ProcessZipsOp(root, dir, names, process);
      forall k :: 0 <= k < c.done ==> Fate(root, c.root, dir, names[k], process(names[k], RemoveExtension(names[k])))
    decreases |names|
  {
    if |names| > 0 {
      var name := names[0];
      var outcome := process(name, RemoveExtension(name));
      if IsIsbn(RemoveExtension(name)) && !outcome.Failed? {
        var (root1, finished) := FinishOp(root, dir, name, outcome);
        if finished.Ok? {
          TailWellListed(root, dir, names, outcome);
          FirstFate(root, dir, name, outcome);
          ScanFates(root1, dir, names[1..], process);
          ScanFrame(root1, dir, names[1..], process, name);
          forall k | 1 <= k < |names| ensures names[1..][k - 1] == names[k] && Get(root1, ZipPath(dir, names[k])) == Get(root, ZipPath(dir, names[k])) {
            StepFrame(root, dir, name, outcome, names[k]);
          }
        }
      }
    }
  }

  /** The ZIPs the loop did not hand over, the one it stopped at included, are as they were. */
  lemma {:induction false} ScanLeavesRest(root: FsNode, dir: string, names: seq<string>, process: (string, string) -> ZipOutcome)
    requires WellListed(root, dir, names)
    ensures var c := ProcessZipsOp(root, dir, names, process);
      forall k :: |c.handed| <= k < |names| ==> Get(c.root, ZipPath(dir, names[k])) == Get(root, ZipPath(dir, names[k]))
    decreases |names|
  {
    if |names| > 0 {
      var name := names[0];
      var outcome := process(name, RemoveExtension(name));
      if IsIsbn(RemoveExtension(name)) && !outcome.Failed? {
        var (root1, finished) := FinishOp(root, dir, name, outcome);
        TailWellListed(root, dir, names, outcome);
        forall k | 1 <= k < |names| ensures names[1..][k - 1] == names[k] && Get(root1, ZipPath(dir, names[k])) == Get(root, ZipPath(dir, names[k])) {
          StepFrame(root, dir, name, outcome, names[k]);
        }
        if finished.Ok? {
          ScanLeavesRest(root1, dir, names[1..], process);
        }
      }
    }
  }

  /** A scan that runs to the end has finished every listed ZIP, so the queue size it reports is 0. */
  lemma CompletedScanEmptiesQueue(root: FsNode, dir: string, listing: seq<string>, process: (string, string) -> ZipOutcome)
    requires IsDirectory(root, PathOf(dir))
    ensures var c := ScanOp(root, dir, listing, process);
      c.logged.None? ==> |listing| - c.done == 0
  {
  }

  /** A missing directory or a plain file ends the scan before any file is touched. */
  lemma BadDirectoryTouchesNothing(root: FsNode, dir: string, listing: seq<string>, process: (string, string) -> ZipOutcome)
    requires !IsDirectory(root, PathOf(dir))
    ensures var c := ScanOp(root, dir, listing, process);
      c.root == root && c.done == 0 && c.handed == [] &&
      c.logged == Some(IngestionError(if Exists(root, PathOf(dir)) then IngestionDirIsFile else IngestionDirNotFound))
  {
  }

  // ---------------------------------------------------------------- the executer

  /** The scan statistics and the directory setting of an ingestion executer. */
  class IngestionExecuterState {
    var filesystemPathToCheck: string
    var lastRunTime: Option<int>
    var numberOfRuns: int
    var zipQueueSize: int

    constructor (filesystemPathToCheck: string)
      ensures this.filesystemPathToCheck == filesystemPathToCheck
      ensures lastRunTime == None && numberOfRuns == 0 && zipQueueSize == 0
    {
      this.filesystemPathToCheck := filesystemPathToCheck;
      lastRunTime := None;
      numberOfRuns := 0;
      zipQueueSize := 0;
    }

    /**
     * execute: the run is recorded first, whatever follows; then the scan. `now` is the clock,
     * `listing` the order in which the directory lists its ZIPs, `process` the importer. The answer
     * is what the catch block logs, None when the loop ran to the end.
     */
    method Execute(fs: FileSystem, now: int, listing: seq<string>, process: (string, string) -> ZipOutcome)
      returns (logged: Option<Logged>)
      requires ListingOf(listing, FindFilesUsingExtension(fs.root, filesystemPathToCheck, ZipExtension))
      modifies this, fs
      ensures lastRunTime == Some(now) && numberOfRuns == Wrap64(old(numberOfRuns) + 1)
      ensures filesystemPathToCheck == old(filesystemPathToCheck)
      ensures var c := ScanOp(old(fs.root), filesystemPathToCheck, listing, process);
        fs.root == c.root && logged == c.logged &&
        zipQueueSize == if IsDirectory(old(fs.root), PathOf(filesystemPathToCheck)) then |listing| - c.done else old(zipQueueSize)
    {
      lastRunTime := Some(now);
      numberOfRuns := Wrap64(numberOfRuns + 1);
      var dir := filesystemPathToCheck;
      var folder := PathOf(dir);
      if !Exists(fs.root, folder) {
        return Some(IngestionError(IngestionDirNotFound));
      }
      if !IsDirectory(fs.root, folder) {
        return Some(IngestionError(IngestionDirIsFile));
      }
      var zipFiles := listing;
      zipQueueSize := |zipFiles|;
      ghost var root0 := fs.root;
      ghost var handed: seq<string> := [];
      var i := 0;
      while i < |zipFiles|
        invariant 0 <= i <= |zipFiles| && zipQueueSize == |zipFiles| - i && |handed| == i
        invariant lastRunTime == Some(now) && numberOfRuns == Wrap64(old(numberOfRuns) + 1) && filesystemPathToCheck == dir
        invariant ScannedSoFar(root0, fs.root, dir, zipFiles, i, handed, process)
      {
        var zipFile := zipFiles[i];
        var isbn := RemoveExtension(zipFile);
        ghost var before := fs.root;
        ScanStep(fs.root, dir, zipFiles, i, process);
        if !IsIsbn(isbn) {
          return Some(IngestionError(IngestionNoIsbnInZipName));
        }
        var outcome := process(zipFile, isbn);
        if outcome.Failed? {
          return Some(Raised(outcome.exc));
        }
        if outcome.Imported? {
          var _ := fs.Delete(ZipPath(dir, zipFile));
        } else {
          var moved := MoveZipToDirForFailedProcessing(fs, ZipPath(dir, zipFile), dir);
          if moved.Throws? {
            return Some(Raised(moved.exc));
          }
        }
        ScanAdvance(root0, before, dir, zipFiles, i, handed, process);
        handed := handed + [isbn];
        zipQueueSize := zipQueueSize - 1;
        i := i + 1;
      }
      assert zipFiles[i..] == [];
      logged := None;
    }
  }

  /**
   * The loop of execute after its first i passes: from the tree reached so far, the rest of the
   * listing completes the cycle the whole listing makes from the original tree.
   */
  ghost predicate ScannedSoFar(root0: FsNode, root: FsNode, dir: string, names: seq<string>, i: nat,
                               handed: seq<string>, process: (string, string) -> ZipOutcome)
  {
    i <= |names| &&
    var rest := ProcessZipsOp(root, dir, names[i..], process);
    ProcessZipsOp(root0, dir, names, process) == Cycle(rest.root, rest.done + i, handed + rest.handed, rest.logged)
  }

  /** A pass that finishes its ZIP moves the loop on by one. */
  lemma ScanAdvance(root0: FsNode, root: FsNode, dir: string, names: seq<string>, i: nat,
                    handed: seq<string>, process: (string, string) -> ZipOutcome)
    requires ScannedSoFar(root0, root, dir, names, i, handed, process) && i < |names|
    requires IsIsbn(RemoveExtension(names[i])) && !process(names[i], RemoveExtension(names[i])).Failed?
    requires FinishOp(root, dir, names[i], process(names[i], RemoveExtension(names[i]))).1.Ok?
    ensures ScannedSoFar(root0, FinishOp(root, dir, names[i], process(names[i], RemoveExtension(names[i]))).0,
                         dir, names, i + 1, handed + [RemoveExtension(names[i])], process)
  {
    var isbn := RemoveExtension(names[i]);
    var root1 := FinishOp(root, dir, names[i], process(names[i], isbn)).0;
    ScanStep(root, dir, names, i, process);
    AppendAssocOne(handed, isbn, ProcessZipsOp(root1, dir, names[i + 1..], process).handed);
  }

  /** The loop over the ZIPs from position i on, unfolded once. */
  lemma ScanStep(root: FsNode, dir: string, names: seq<string>, i: nat, process: (string, string) -> ZipOutcome)
    requires i < |names|
    ensures var isbn := RemoveExtension(names[i]);
      var outcome := process(names[i], isbn);
      ProcessZipsOp(root, dir, names[i..], process) ==
        if !IsIsbn(isbn) then Cycle(root, 0, [], Some(IngestionError(IngestionNoIsbnInZipName)))
        else if outcome.Failed? then Cycle(root, 0, [isbn], Some(Raised(outcome.exc)))
        else
          var (root1, finished) := FinishOp(root, dir, names[i], outcome);
          if finished.Throws? then Cycle(root1, 0, [isbn], Some(Raised(finished.exc)))
          else
            var rest := ProcessZipsOp(root1, dir, names[i + 1..], process);
            Cycle(rest.root, rest.done + 1, [isbn] + rest.handed, rest.logged)
  {
    assert names[i..][0] == names[i] && names[i..][1..] == names[i + 1..];
  }

  /** Moving one element across a concatenation. */
  lemma AppendAssocOne<T>(a: seq<T>, x: T, b: seq<T>)
    ensures a + ([x] + b) == (a + [x]) + b
  {
  }
}
