/**
 * PublishingServiceImpl: packs a book folder into an EPUB archive (mimetype, META-INF/container.xml,
 * the package file, then styles, artwork, supplementary files and chapter files under the OPS
 * folder), bumps the book's published version, and delivers {isbn}.epub into the pickup directory
 * by a move under the temporary name followed by a rename.
 */
module Publishing {
  import opened Wrappers
  import opened JavaText
  import opened BestPubContentModel
  import opened BestPubConstants
  import opened ContentStore
  import opened Streams
  import opened FileSystemModel

  // ---------------------------------------------------------------- layout and fixed content

  /**
   * The EPUB_* folder and file names of BestPubConstants the service uses; their values are not
   * part of this model (the documentation shows OPS, package.opf, css and images).
   */
  datatype EpubLayout = EpubLayout(opsFolder: string, packageFile: string, stylesheetFolder: string, imagesFolder: string)

  const DocumentedLayout: EpubLayout := EpubLayout("OPS", "package.opf", "css", "images")

  const MimetypeFileName: string := "mimetype"
  const EpubMimetype: string := "application/epub+zip"
  const MetaInfFolderName: string := "META-INF"
  const ContainerFileName: string := "container.xml"
  /** The package path container.xml names; it is written out in the text, not taken from the layout. */
  const ContainerRootfilePath: string := "OPS/package.opf"
  const ContainerXml: string :=
    "<?xml version=\"1.0\" encoding=\"UTF-8\" ?>\n" +
    "<container version=\"1.0\" xmlns=\"urn:oasis:names:tc:opendocument:xmlns:container\">\n" +
    "   <rootfiles>\n" +
    "      <rootfile full-path=\"" + ContainerRootfilePath + "\" media-type=\"application/oebps-package+xml\"/>\n" +
    "   </rootfiles>\n" +
    "</container>"

  // ---------------------------------------------------------------- entry paths

  /** createZipEntryPath: the name under its parent (the name alone for a blank parent); folders end in '/'. */
  function CreateZipEntryPath(parentPath: string, name: string, isFolder: bool): (r: string)
    ensures isFolder ==> |r| > 0 && r[|r| - 1] == '/'
    ensures !isFolder ==> |name| <= |r| && r[|r| - |name|..] == name
  {
    var pathInZip := if !IsBlank(Some(parentPath)) then parentPath + "/" + name else name;
    if isFolder then pathInZip + "/" else pathInZip
  }

  /**
   * The '/'-separated names of an entry path are those of its parent followed by the entry's own
   * name (a folder's trailing '/' adds no name), for a name that is non-empty and free of '/'.
   */
  lemma EntryPathNames(parentPath: string, name: string, isFolder: bool)
    requires |name| > 0 && '/' !in name
    ensures Split(CreateZipEntryPath(parentPath, name, isFolder), '/') ==
      (if IsBlank(Some(parentPath)) then [] else Split(parentPath, '/')) + [name]
  {
    OneName(name);
    var pathInZip := if !IsBlank(Some(parentPath)) then parentPath + "/" + name else name;
    if !IsBlank(Some(parentPath)) {
      assert parentPath + "/" + name == parentPath + ['/'] + name;
      SplitAppend(parentPath, name, '/');
    }
    if isFolder {
      assert pathInZip + "/" == pathInZip + ['/'] + "";
      SplitAppend(pathInZip, "", '/');
      assert Split("", '/') == [];
    }
  }

  /** A non-empty name without '/' is a single path name. */
  lemma OneName(name: string)
    requires |name| > 0 && '/' !in name
    ensures Split(name, '/') == [name]
  {
    IndexOfAbsent(name, '/');
  }

  // ---------------------------------------------------------------- the archive, entry by entry

  /** No two entries share a path (putNextEntry refuses a duplicate). */
  predicate UniquePaths(es: seq<ZipEntry>) {
    forall i, j :: 0 <= i < j < |es| ==> es[i].path != es[j].path
  }

  /** `b` begins with `a`. */
  predicate Extends(b: seq<ZipEntry>, a: seq<ZipEntry>) {
    |a| <= |b| && b[..|a|] == a
  }

  /**
   * The bytes copied from a node's content stream: getReader fails on a folder and gives null for a
   * node without content (a NullPointerException when its stream is asked for); a stream that
   * breaks (`failAt`) raises an IOException.
   */
  function ContentBytes(s: Repo, n: NodeRef, failAt: NodeRef -> Option<nat>): (r: Result<seq<byte>>)
    requires n in s.nodes
    ensures r.Ok? <==> ReaderOf(s, n).Ok? && !Breaks(ReaderOf(s, n).value, failAt(n))
    ensures r.Ok? ==> r.value == s.nodes[n].content.value.data
  {
    match ReaderOf(s, n)
    case Throws(e) => Throws(e)
    case Ok(d) => if Breaks(d, failAt(n)) then Throws(IOFailure) else Ok(d)
  }

  /** putNextEntry, the copy loop and closeEntry for one entry, on the archive written so far. */
  function AppendEntry(archive: seq<ZipEntry>, path: string, data: Result<seq<byte>>): (r: Result<seq<ZipEntry>>)
    ensures r.Ok? <==> path !in EntryNames(archive) && data.Ok?
    ensures path in EntryNames(archive) ==> r == Throws(IOFailure)
    ensures r.Ok? ==> r.value == archive + [ZipEntry(path, data.value)]
  {
    if path in EntryNames(archive) then Throws(IOFailure)
    else if data.Throws? then Throws(data.exc)
    else Ok(archive + [ZipEntry(path, data.value)])
  }

  /** addFile2Zip: an entry for in-memory content, under `parentFolder`. */
  function AddFile2ZipOp(archive: seq<ZipEntry>, filename: string, fileContent: seq<byte>, parentFolder: string): Result<seq<ZipEntry>> {
    AppendEntry(archive, CreateZipEntryPath(parentFolder, filename, false), Ok(fileContent))
  }

  /** One child's entry, named after the node, with the node's content. */
  function NodeEntryOp(archive: seq<ZipEntry>, s: Repo, n: NodeRef, parentPath: string, failAt: NodeRef -> Option<nat>): Result<seq<ZipEntry>>
    requires n in s.nodes
  {
    AppendEntry(archive, CreateZipEntryPath(parentPath, s.nodes[n].name, false), ContentBytes(s, n, failAt))
  }

  /** addContentNode2Zip: refuses a node that is not content, else adds its entry. */
  function AddContentNodeOp(archive: seq<ZipEntry>, s: Repo, n: NodeRef, parentPath: string, failAt: NodeRef -> Option<nat>): Result<seq<ZipEntry>>
    requires n in s.nodes
  {
    if !IsContentType(s.nodes[n].nodeType) then Throws(IllegalArgument)
    else NodeEntryOp(archive, s, n, parentPath, failAt)
  }

  /**
   * The loop of addFolderNodeContents2Zip over the folder's children, in child order. What it
   * produces extends the archive, and keeps entry paths distinct.
   */
  function AddChildrenOp(archive: seq<ZipEntry>, s: Repo, kids: seq<NodeRef>, parentPath: string, failAt: NodeRef -> Option<nat>): (r: Result<seq<ZipEntry>>)
    requires forall k :: 0 <= k < |kids| ==> kids[k] in s.nodes
    ensures r.Ok? ==> Extends(r.value, archive)
    ensures r.Ok? && UniquePaths(archive) ==> UniquePaths(r.value)
    decreases |kids|
  {
    if |kids| == 0 then Ok(archive)
    else match NodeEntryOp(archive, s, kids[0], parentPath, failAt)
      case Throws(e) => Throws(e)
      case Ok(a) =>
        AppendKeepsUnique(archive, ZipEntry(CreateZipEntryPath(parentPath, s.nodes[kids[0]].name, false), s.nodes[kids[0]].content.value.data));
        ExtendsTrans(AddChildrenOp(a, s, kids[1..], parentPath, failAt), a, archive);
        AddChildrenOp(a, s, kids[1..], parentPath, failAt)
  }

  /** Extending an extension extends the original. */
  lemma ExtendsTrans(r: Result<seq<ZipEntry>>, a: seq<ZipEntry>, archive: seq<ZipEntry>)
    requires Extends(a, archive)
    ensures r.Ok? && Extends(r.value, a) ==> Extends(r.value, archive)
  {
    if r.Ok? && Extends(r.value, a) {
      assert r.value[..|archive|] == a[..|a|][..|archive|];
    }
  }

  /** Appending an entry under a path not yet used keeps paths distinct. */
  lemma AppendKeepsUnique(archive: seq<ZipEntry>, e: ZipEntry)
    requires e.path !in EntryNames(archive)
    ensures UniquePaths(archive) ==> UniquePaths(archive + [e])
  {
    var b := archive + [e];
    if UniquePaths(archive) {
      forall i, j | 0 <= i < j < |b| ensures b[i].path != b[j].path {
        if j == |archive| {
          assert b[i].path in EntryNames(archive);
        }
      }
    }
  }

  /** addFolderNodeContents2Zip: refuses a node that is not a folder, else adds each child. */
  function AddFolderNodeContentsOp(archive: seq<ZipEntry>, s: Repo, folder: NodeRef, parentPath: string, failAt: NodeRef -> Option<nat>): Result<seq<ZipEntry>>
    requires WellFormed(s) && folder in s.nodes
  {
    if !IsFolderType(s.nodes[folder].nodeType) then Throws(IllegalArgument)
    else AddChildrenOp(archive, s, s.nodes[folder].children, parentPath, failAt)
  }

  // ---------------------------------------------------------------- the EPUB

  /** addMimetypeFile2EPub: the mimetype entry at the top of the archive. */
  function MimetypeOp(archive: seq<ZipEntry>, charset: string -> seq<byte>): Result<seq<ZipEntry>> {
    AddFile2ZipOp(archive, MimetypeFileName, charset(EpubMimetype), "")
  }

  /** addMetaInfFolder2EPub: META-INF/container.xml. */
  function MetaInfOp(archive: seq<ZipEntry>, charset: string -> seq<byte>): Result<seq<ZipEntry>> {
    AddFile2ZipOp(archive, ContainerFileName, charset(ContainerXml), MetaInfFolderName)
  }

  /** addPackageFile2EPub: the package file under OPS; without one, an AlfrescoRuntimeException. */
  function PackageFileOp(archive: seq<ZipEntry>, s: Repo, isbnFolder: NodeRef, layout: EpubLayout, failAt: NodeRef -> Option<nat>): Result<seq<ZipEntry>>
    requires WellFormed(s) && isbnFolder in s.nodes
  {
    match ChildByName(s, isbnFolder, layout.packageFile)
    case None => Throws(AlfrescoRuntime)
    case Some(p) => AddContentNodeOp(archive, s, p, layout.opsFolder, failAt)
  }

  /** A named subfolder of the book folder, copied into `pathInEpub` when it exists and skipped otherwise. */
  function OptionalFolderOp(archive: seq<ZipEntry>, s: Repo, isbnFolder: NodeRef, folderName: string, pathInEpub: string,
                            failAt: NodeRef -> Option<nat>): Result<seq<ZipEntry>>
    requires WellFormed(s) && isbnFolder in s.nodes
  {
    match ChildByName(s, isbnFolder, folderName)
    case None => Ok(archive)
    case Some(f) => AddFolderNodeContentsOp(archive, s, f, pathInEpub, failAt)
  }

  /** The loop over the book folder's children: each chapter folder's files go into OPS, in child order. */
  function ChapterFoldersOp(archive: seq<ZipEntry>, s: Repo, kids: seq<NodeRef>, opsPath: string, failAt: NodeRef -> Option<nat>): Result<seq<ZipEntry>>
    requires WellFormed(s) && forall k :: 0 <= k < |kids| ==> kids[k] in s.nodes
    decreases |kids|
  {
    if |kids| == 0 then Ok(archive)
    else
      var step := if s.nodes[kids[0]].nodeType == ChapterFolderType then AddFolderNodeContentsOp(archive, s, kids[0], opsPath, failAt) else Ok(archive);
      match step
      case Throws(e) => Throws(e)
      case Ok(a) => ChapterFoldersOp(a, s, kids[1..], opsPath, failAt)
  }

  /** The chapter loop from position i on, unfolded once. */
  lemma ChapterFoldersStep(archive: seq<ZipEntry>, s: Repo, kids: seq<NodeRef>, i: nat, opsPath: string,
                           failAt: NodeRef -> Option<nat>)
    requires WellFormed(s) && (forall k :: 0 <= k < |kids| ==> kids[k] in s.nodes) && i < |kids|
    ensures ChapterFoldersOp(archive, s, kids[i..], opsPath, failAt) ==
      var step := if s.nodes[kids[i]].nodeType == ChapterFolderType then AddFolderNodeContentsOp(archive, s, kids[i], opsPath, failAt) else Ok(archive);
      if step.Throws? then Throws(step.exc) else ChapterFoldersOp(step.value, s, kids[i + 1..], opsPath, failAt)
  {
    assert kids[i..][0] == kids[i] && kids[i..][1..] == kids[i + 1..];
  }

  /** addIsbnSubFolders2EPub: Styles into OPS/css, Artwork into OPS/images, Supplementary and the chapters into OPS. */
  function IsbnSubFoldersOp(archive: seq<ZipEntry>, s: Repo, isbnFolder: NodeRef, layout: EpubLayout, failAt: NodeRef -> Option<nat>): Result<seq<ZipEntry>>
    requires WellFormed(s) && isbnFolder in s.nodes
  {
    var ops := layout.opsFolder;
    match OptionalFolderOp(archive, s, isbnFolder, StylesFolderName, ops + "/" + layout.stylesheetFolder, failAt)
    case Throws(e) => Throws(e)
    case Ok(a1) =>
      match OptionalFolderOp(a1, s, isbnFolder, ArtworkFolderName, ops + "/" + layout.imagesFolder, failAt)
      case Throws(e) => Throws(e)
      case Ok(a2) =>
        match OptionalFolderOp(a2, s, isbnFolder, SupplementaryFolderName, ops, failAt)
        case Throws(e) => Throws(e)
        case Ok(a3) => ChapterFoldersOp(a3, s, s.nodes[isbnFolder].children, ops, failAt)
  }

  /** The try block of createAndStoreEPubArtifact up to the version bump: the whole archive, or the exception. */
  function EpubEntriesOp(s: Repo, layout: EpubLayout, isbnFolder: NodeRef, charset: string -> seq<byte>,
                         failAt: NodeRef -> Option<nat>): Result<seq<ZipEntry>>
    requires WellFormed(s) && isbnFolder in s.nodes
  {
    match MimetypeOp([], charset)
    case Throws(e) => Throws(e)
    case Ok(a1) =>
      match MetaInfOp(a1, charset)
      case Throws(e) => Throws(e)
      case Ok(a2) =>
        match PackageFileOp(a2, s, isbnFolder, layout, failAt)
        case Throws(e) => Throws(e)
        case Ok(a3) => IsbnSubFoldersOp(a3, s, isbnFolder, layout, failAt)
  }

  // ---------------------------------------------------------------- what a successful archive holds

  /** The stored bytes of a node (none for a node without content). */
  function StoredBytes(s: Repo, n: NodeRef): seq<byte>
    requires n in s.nodes
  {
    if s.nodes[n].content.Some? then s.nodes[n].content.value.data else []
  }

  /** One entry per child, in child order: the child's name under `parentPath`, and its content. */
  function FolderEntries(s: Repo, kids: seq<NodeRef>, parentPath: string): (r: seq<ZipEntry>)
    requires forall k :: 0 <= k < |kids| ==> kids[k] in s.nodes
    ensures |r| == |kids|
    decreases |kids|
  {
    if |kids| == 0 then []
    else [ZipEntry(CreateZipEntryPath(parentPath, s.nodes[kids[0]].name, false), StoredBytes(s, kids[0]))] + FolderEntries(s, kids[1..], parentPath)
  }

  /** Every child can be read to the end. */
  predicate AllReadable(s: Repo, kids: seq<NodeRef>, failAt: NodeRef -> Option<nat>)
    requires forall k :: 0 <= k < |kids| ==> kids[k] in s.nodes
  {
    forall k :: 0 <= k < |kids| ==> ContentBytes(s, kids[k], failAt).Ok?
  }

  /**
   * Copying a folder's children succeeds exactly when every child can be read and no entry path
   * repeats, and then appends one entry per child, in child order, holding that child's bytes.
   */
  lemma {:induction false} AddChildrenMeaning(archive: seq<ZipEntry>, s: Repo, kids: seq<NodeRef>, parentPath: string,
                                             failAt: NodeRef -> Option<nat>)
    requires forall k :: 0 <= k < |kids| ==> kids[k] in s.nodes
    requires UniquePaths(archive)
    ensures AddChildrenOp(archive, s, kids, parentPath, failAt).Ok? <==>
      AllReadable(s, kids, failAt) && UniquePaths(archive + FolderEntries(s, kids, parentPath))
    ensures AddChildrenOp(archive, s, kids, parentPath, failAt).Ok? ==>
      AddChildrenOp(archive, s, kids, parentPath, failAt).value == archive + FolderEntries(s, kids, parentPath)
    decreases |kids|
  {
    if |kids| == 0 {
      assert archive + [] == archive;
    } else {
      var e := ZipEntry(CreateZipEntryPath(parentPath, s.nodes[kids[0]].name, false), StoredBytes(s, kids[0]));
      var rest := FolderEntries(s, kids[1..], parentPath);
      AddChildrenUnfold(archive, s, kids, parentPath, failAt);
      assert archive + FolderEntries(s, kids, parentPath) == (archive + [e]) + rest;
      ReadableSplit(s, kids, failAt);
      if e.path in EntryNames(archive) {
        RepeatedPath(archive, e, rest);
      } else if ContentBytes(s, kids[0], failAt).Ok? {
        AppendKeepsUnique(archive, e);
        AddChildrenMeaning(archive + [e], s, kids[1..], parentPath, failAt);
      }
    }
  }

  /** One step of the loop: the first child's entry, then the rest. */
  lemma AddChildrenUnfold(archive: seq<ZipEntry>, s: Repo, kids: seq<NodeRef>, parentPath: string, failAt: NodeRef -> Option<nat>)
    requires |kids| > 0 && forall k :: 0 <= k < |kids| ==> kids[k] in s.nodes
    ensures var e := ZipEntry(CreateZipEntryPath(parentPath, s.nodes[kids[0]].name, false), StoredBytes(s, kids[0]));
      AddChildrenOp(archive, s, kids, parentPath, failAt) ==
        if e.path in EntryNames(archive) then Throws(IOFailure)
        else if ContentBytes(s, kids[0], failAt).Throws? then Throws(ContentBytes(s, kids[0], failAt).exc)
        else AddChildrenOp(archive + [e], s, kids[1..], parentPath, failAt)
  {
  }

  /** A path already in the archive, appended again, repeats. */
  lemma RepeatedPath(archive: seq<ZipEntry>, e: ZipEntry, rest: seq<ZipEntry>)
    requires e.path in EntryNames(archive)
    ensures !UniquePaths((archive + [e]) + rest)
  {
    var i :| 0 <= i < |archive| && archive[i].path == e.path;
    var b := (archive + [e]) + rest;
    assert b[|archive|] == e && b[i] == archive[i];
  }

  /** AllReadable splits into the first child and the rest. */
  lemma ReadableSplit(s: Repo, kids: seq<NodeRef>, failAt: NodeRef -> Option<nat>)
    requires |kids| > 0 && forall k :: 0 <= k < |kids| ==> kids[k] in s.nodes
    ensures AllReadable(s, kids, failAt) <==> ContentBytes(s, kids[0], failAt).Ok? && AllReadable(s, kids[1..], failAt)
  {
    if ContentBytes(s, kids[0], failAt).Ok? && AllReadable(s, kids[1..], failAt) {
      forall k | 0 <= k < |kids| ensures ContentBytes(s, kids[k], failAt).Ok? {
        if k > 0 {
          assert kids[k] == kids[1..][k - 1];
        }
      }
    }
  }

  /** The entries a named subfolder contributes: its children's, or none when it is missing. */
  function OptionalEntries(s: Repo, isbnFolder: NodeRef, folderName: string, pathInEpub: string): seq<ZipEntry>
    requires WellFormed(s) && isbnFolder in s.nodes
  {
    match ChildByName(s, isbnFolder, folderName)
    case None => []
    case Some(f) => FolderEntries(s, s.nodes[f].children, pathInEpub)
  }

  /** The entries of the chapter folders among `kids`, folder after folder. */
  function ChapterEntries(s: Repo, kids: seq<NodeRef>, opsPath: string): seq<ZipEntry>
    requires WellFormed(s) && forall k :: 0 <= k < |kids| ==> kids[k] in s.nodes
    decreases |kids|
  {
    if |kids| == 0 then []
    else
      (if s.nodes[kids[0]].nodeType == ChapterFolderType then FolderEntries(s, s.nodes[kids[0]].children, opsPath) else [])
      + ChapterEntries(s, kids[1..], opsPath)
  }

  /**
   * The whole EPUB, in the order it is written: mimetype, META-INF/container.xml, the package file
   * under OPS, then the styles, the artwork, the supplementary files and the chapter files.
   */
  function EpubEntries(s: Repo, isbnFolder: NodeRef, layout: EpubLayout, charset: string -> seq<byte>, packageFile: NodeRef): seq<ZipEntry>
    requires WellFormed(s) && isbnFolder in s.nodes && packageFile in s.nodes
  {
    var ops := layout.opsFolder;
    [ZipEntry(MimetypeFileName, charset(EpubMimetype)),
     ZipEntry(MetaInfFolderName + "/" + ContainerFileName, charset(ContainerXml)),
     ZipEntry(CreateZipEntryPath(ops, layout.packageFile, false), StoredBytes(s, packageFile))]
    + SubFolderEntries(s, isbnFolder, layout)
  }

  /** What addIsbnSubFolders2EPub contributes. */
  function SubFolderEntries(s: Repo, isbnFolder: NodeRef, layout: EpubLayout): seq<ZipEntry>
    requires WellFormed(s) && isbnFolder in s.nodes
  {
    var ops := layout.opsFolder;
    OptionalEntries(s, isbnFolder, StylesFolderName, ops + "/" + layout.stylesheetFolder)
    + OptionalEntries(s, isbnFolder, ArtworkFolderName, ops + "/" + layout.imagesFolder)
    + OptionalEntries(s, isbnFolder, SupplementaryFolderName, ops)
    + ChapterEntries(s, s.nodes[isbnFolder].children, ops)
  }

  /** A present subfolder adds its children's entries; a missing one adds nothing. */
  lemma OptionalFolderContent(archive: seq<ZipEntry>, s: Repo, isbnFolder: NodeRef, folderName: string, pathInEpub: string,
                              failAt: NodeRef -> Option<nat>)
    requires WellFormed(s) && isbnFolder in s.nodes && UniquePaths(archive)
    ensures var r := OptionalFolderOp(archive, s, isbnFolder, folderName, pathInEpub, failAt);
      r.Ok? ==> r.value == archive + OptionalEntries(s, isbnFolder, folderName, pathInEpub) && UniquePaths(r.value)
  {
    match ChildByName(s, isbnFolder, folderName)
    case None =>
      assert archive + [] == archive;
    case Some(f) =>
      AddChildrenMeaning(archive, s, s.nodes[f].children, pathInEpub, failAt);
  }

  /** The chapter loop adds the chapter folders' entries, in child order, and keeps paths distinct. */
  lemma {:induction false} ChapterFoldersContent(archive: seq<ZipEntry>, s: Repo, kids: seq<NodeRef>, opsPath: string,
                                                failAt: NodeRef -> Option<nat>)
    requires WellFormed(s) && (forall k :: 0 <= k < |kids| ==> kids[k] in s.nodes) && UniquePaths(archive)
    ensures var r := ChapterFoldersOp(archive, s, kids, opsPath, failAt);
      r.Ok? ==> r.value == archive + ChapterEntries(s, kids, opsPath) && UniquePaths(r.value)
    decreases |kids|
  {
    if |kids| == 0 {
      assert archive + [] == archive;
    } else {
      var chapter := s.nodes[kids[0]].nodeType == ChapterFolderType;
      var mine := if chapter then FolderEntries(s, s.nodes[kids[0]].children, opsPath) else [];
      var step := if chapter then AddFolderNodeContentsOp(archive, s, kids[0], opsPath, failAt) else Ok(archive);
      if chapter {
        AddChildrenMeaning(archive, s, s.nodes[kids[0]].children, opsPath, failAt);
      } else {
        assert archive + [] == archive;
      }
      if step.Ok? {
        ChapterFoldersContent(step.value, s, kids[1..], opsPath, failAt);
        assert ChapterEntries(s, kids, opsPath) == mine + ChapterEntries(s, kids[1..], opsPath);
        AppendAssoc(archive, mine, ChapterEntries(s, kids[1..], opsPath));
      }
    }
  }

  /** addIsbnSubFolders2EPub appends the styles, artwork, supplementary and chapter entries, in that order. */
  lemma SubFoldersContent(archive: seq<ZipEntry>, s: Repo, isbnFolder: NodeRef, layout: EpubLayout, failAt: NodeRef -> Option<nat>)
    requires WellFormed(s) && isbnFolder in s.nodes && UniquePaths(archive)
    ensures var r := IsbnSubFoldersOp(archive, s, isbnFolder, layout, failAt);
      r.Ok? ==> r.value == archive + SubFolderEntries(s, isbnFolder, layout) && UniquePaths(r.value)
  {
    var ops := layout.opsFolder;
    var css, images := ops + "/" + layout.stylesheetFolder, ops + "/" + layout.imagesFolder;
    var r1 := OptionalFolderOp(archive, s, isbnFolder, StylesFolderName, css, failAt);
    OptionalFolderContent(archive, s, isbnFolder, StylesFolderName, css, failAt);
    if r1.Ok? {
      var r2 := OptionalFolderOp(r1.value, s, isbnFolder, ArtworkFolderName, images, failAt);
      OptionalFolderContent(r1.value, s, isbnFolder, ArtworkFolderName, images, failAt);
      if r2.Ok? {
        var r3 := OptionalFolderOp(r2.value, s, isbnFolder, SupplementaryFolderName, ops, failAt);
        OptionalFolderContent(r2.value, s, isbnFolder, SupplementaryFolderName, ops, failAt);
        if r3.Ok? {
          var kids := s.nodes[isbnFolder].children;
          var r4 := ChapterFoldersOp(r3.value, s, kids, ops, failAt);
          ChapterFoldersContent(r3.value, s, kids, ops, failAt);
          assert IsbnSubFoldersOp(archive, s, isbnFolder, layout, failAt) == r4;
          if r4.Ok? {
            Concat4(archive, OptionalEntries(s, isbnFolder, StylesFolderName, css), OptionalEntries(s, isbnFolder, ArtworkFolderName, images),
                    OptionalEntries(s, isbnFolder, SupplementaryFolderName, ops), ChapterEntries(s, kids, ops));
          }
        }
      }
    }
  }

  /** Appending two parts one after the other appends their concatenation. */
  lemma AppendAssoc<T>(a: seq<T>, b: seq<T>, c: seq<T>)
    ensures a + (b + c) == (a + b) + c
  {
  }

  /** Appending four parts one after the other appends their concatenation. */
  lemma Concat4<T>(a: seq<T>, b: seq<T>, c: seq<T>, d: seq<T>, e: seq<T>)
    ensures (((a + b) + c) + d) + e == a + (b + c + d + e)
  {
  }

  /** mimetype comes first, with the EPUB media type as its content. */
  lemma MimetypeEntry(charset: string -> seq<byte>)
    ensures MimetypeOp([], charset) == Ok([ZipEntry(MimetypeFileName, charset(EpubMimetype))])
  {
    assert IsBlank(Some(""));
    assert CreateZipEntryPath("", MimetypeFileName, false) == MimetypeFileName;
    var e := ZipEntry(MimetypeFileName, charset(EpubMimetype));
    assert [] + [e] == [e];
  }

  /** container.xml goes into META-INF, beside mimetype. */
  lemma MetaInfEntry(charset: string -> seq<byte>)
    ensures var a1 := [ZipEntry(MimetypeFileName, charset(EpubMimetype))];
      var e := ZipEntry(MetaInfFolderName + "/" + ContainerFileName, charset(ContainerXml));
      MetaInfOp(a1, charset) == Ok(a1 + [e]) && UniquePaths(a1 + [e])
  {
    assert !IsBlank(Some(MetaInfFolderName)) by { assert !IsWhitespace(MetaInfFolderName[0]); }
    var path := MetaInfFolderName + "/" + ContainerFileName;
    assert |path| != |MimetypeFileName|;
    var a1 := [ZipEntry(MimetypeFileName, charset(EpubMimetype))];

  }

  /** The three entries before the subfolders: mimetype first, container.xml second, the package file third. */
  lemma HeadEntries(s: Repo, layout: EpubLayout, isbnFolder: NodeRef, charset: string -> seq<byte>, failAt: NodeRef -> Option<nat>)
    requires WellFormed(s) && isbnFolder in s.nodes
    ensures var a2 := [ZipEntry(MimetypeFileName, charset(EpubMimetype)), ZipEntry(MetaInfFolderName + "/" + ContainerFileName, charset(ContainerXml))];
      MimetypeOp([], charset) == Ok([a2[0]]) && MetaInfOp([a2[0]], charset) == Ok(a2) && UniquePaths(a2) &&
      var r := PackageFileOp(a2, s, isbnFolder, layout, failAt);
      (r.Ok? ==>
        (ChildByName(s, isbnFolder, layout.packageFile).Some? && UniquePaths(r.value) &&
         r.value == a2 + [ZipEntry(CreateZipEntryPath(layout.opsFolder, layout.packageFile, false),
                                   StoredBytes(s, ChildByName(s, isbnFolder, layout.packageFile).value))]))
  {
    var a2 := [ZipEntry(MimetypeFileName, charset(EpubMimetype)), ZipEntry(MetaInfFolderName + "/" + ContainerFileName, charset(ContainerXml))];
    MimetypeEntry(charset);
    MetaInfEntry(charset);
    assert [a2[0]] + [a2[1]] == a2;
    var r := PackageFileOp(a2, s, isbnFolder, layout, failAt);
    if r.Ok? {
      var p := ChildByName(s, isbnFolder, layout.packageFile).value;
      AppendKeepsUnique(a2, ZipEntry(CreateZipEntryPath(layout.opsFolder, layout.packageFile, false), StoredBytes(s, p)));
    }
  }

  /**
   * A finished EPUB holds exactly the entries EpubEntries lists, in that order, under distinct paths;
   * in particular it starts with the mimetype entry, as the EPUB container format requires.
   */
  lemma EpubContents(s: Repo, layout: EpubLayout, isbnFolder: NodeRef, charset: string -> seq<byte>, failAt: NodeRef -> Option<nat>)
    requires WellFormed(s) && isbnFolder in s.nodes
    ensures var r := EpubEntriesOp(s, layout, isbnFolder, charset, failAt);
      r.Ok? ==>
        (ChildByName(s, isbnFolder, layout.packageFile).Some? && UniquePaths(r.value) &&
         r.value == EpubEntries(s, isbnFolder, layout, charset, ChildByName(s, isbnFolder, layout.packageFile).value) &&
         r.value[0] == ZipEntry(MimetypeFileName, charset(EpubMimetype)))
  {
    HeadEntries(s, layout, isbnFolder, charset, failAt);
    var a2 := [ZipEntry(MimetypeFileName, charset(EpubMimetype)), ZipEntry(MetaInfFolderName + "/" + ContainerFileName, charset(ContainerXml))];
    var a3 := PackageFileOp(a2, s, isbnFolder, layout, failAt);
    if a3.Ok? {
      SubFoldersContent(a3.value, s, isbnFolder, layout, failAt);
      var p := ChildByName(s, isbnFolder, layout.packageFile).value;
      var head := [ZipEntry(MimetypeFileName, charset(EpubMimetype)), ZipEntry(MetaInfFolderName + "/" + ContainerFileName, charset(ContainerXml)),
                   ZipEntry(CreateZipEntryPath(layout.opsFolder, layout.packageFile, false), StoredBytes(s, p))];
      assert a3.value == head;
    }
  }

  /** Without a package file the EPUB is refused with an AlfrescoRuntimeException. */
  lemma EpubMissingPackage(s: Repo, layout: EpubLayout, isbnFolder: NodeRef, charset: string -> seq<byte>, failAt: NodeRef -> Option<nat>)
    requires WellFormed(s) && isbnFolder in s.nodes && ChildByName(s, isbnFolder, layout.packageFile).None?
    ensures EpubEntriesOp(s, layout, isbnFolder, charset, failAt) == Throws(AlfrescoRuntime)
  {
    HeadEntries(s, layout, isbnFolder, charset, failAt);
  }

  /** A package file that is not a content node is refused with an IllegalArgumentException. */
  lemma EpubPackageNotContent(s: Repo, layout: EpubLayout, isbnFolder: NodeRef, charset: string -> seq<byte>, failAt: NodeRef -> Option<nat>)
    requires WellFormed(s) && isbnFolder in s.nodes && ChildByName(s, isbnFolder, layout.packageFile).Some?
    requires !IsContentType(s.nodes[ChildByName(s, isbnFolder, layout.packageFile).value].nodeType)
    ensures EpubEntriesOp(s, layout, isbnFolder, charset, failAt) == Throws(IllegalArgument)
  {
    HeadEntries(s, layout, isbnFolder, charset, failAt);
  }

  /** container.xml names the package file where the documented layout puts it. */
  lemma ContainerNamesPackage()
    ensures CreateZipEntryPath(DocumentedLayout.opsFolder, DocumentedLayout.packageFile, false) == ContainerRootfilePath
  {
    assert !IsBlank(Some(DocumentedLayout.opsFolder)) by { assert !IsWhitespace(DocumentedLayout.opsFolder[0]); }
  }

  // ---------------------------------------------------------------- the published version

  /**
   * The version after `currentVersion` (the stored text, null when unset): 1.0 for a blank one,
   * else the int before the first '.', plus one (with int wrap-around), followed by ".0". No '.'
   * makes substring throw; a major part that is not an int makes parseInt throw.
   */
  function NextVersion(currentVersion: Option<string>): (r: Result<string>)
    ensures r.Throws? ==> r.exc == IndexOutOfBounds || r.exc == NumberFormat
    ensures IsBlank(currentVersion) ==> r == Ok("1.0")
  {
    if IsBlank(currentVersion) then Ok("1.0")
    else
      var v := currentVersion.value;
      match Substring(v, 0, IndexOf(v, '.'))
      case Throws(e) => Throws(e)
      case Ok(major) =>
        match ParseInt(major)
        case Throws(e) => Throws(e)
        case Ok(majorVersion) => Ok(IntToString(Wrap32(majorVersion + 1)) + ".0")
  }

  /** getNextPublishedVersion: 1.0 unless the book folder has the web-publishing aspect and a version. */
  function NextPublishedVersion(s: Repo, isbnFolder: NodeRef): (r: Result<string>)
    requires isbnFolder in s.nodes
    ensures WebPublishingInfoAspect !in s.nodes[isbnFolder].aspects ==> r == Ok("1.0")
    ensures WebPublishingInfoAspect in s.nodes[isbnFolder].aspects ==> r == NextVersion(TextProp(s, isbnFolder, WebPublishedVersionProp))
  {
    if WebPublishingInfoAspect in s.nodes[isbnFolder].aspects then NextVersion(TextProp(s, isbnFolder, WebPublishedVersionProp))
    else Ok("1.0")
  }

  /** The text of an int has no '.' and does not start with whitespace. */
  lemma IntTextIsPlain(n: int)
    ensures '.' !in IntToString(n) && !IsWhitespace(IntToString(n)[0])
  {
    var t := IntToString(n);
    if n < 0 {
      assert t == "-" + NatToString(-n);
      assert forall k :: 1 <= k < |t| ==> t[k] == NatToString(-n)[k - 1];
    }
  }

  /** A version "{major}.{anything}" is followed by "{major + 1}.0", with int wrap-around. */
  lemma NextVersionOfMajor(major: Int32, minor: string)
    ensures NextVersion(Some(IntToString(major) + "." + minor)) == Ok(IntToString(Wrap32(major + 1)) + ".0")
  {
    var m := IntToString(major);
    var v := m + "." + minor;
    IntTextIsPlain(major);
    assert v == m + ['.'] + minor;
    IndexOfAfterFree(m, '.', minor);
    assert v[0..|m|] == m;
    assert !IsBlank(Some(v)) by { assert v[0] == m[0]; }
    ParseIntOfIntToString(major);
  }

  /** The documented steps: 1.0 is followed by 2.0, and 10.3 by 11.0. */
  lemma NextVersionExamples()
    ensures NextVersion(Some(IntToString(1) + "." + "0")) == Ok(IntToString(2) + ".0")
    ensures NextVersion(Some(IntToString(10) + "." + "3")) == Ok(IntToString(11) + ".0")
    ensures IntToString(1) == "1" && IntToString(2) == "2" && IntToString(10) == "10" && IntToString(11) == "11"
  {
    NextVersionOfMajor(1, "0");
    NextVersionOfMajor(10, "3");
  }

  /** Republishing at the largest int wraps the major version round to the smallest. */
  lemma NextVersionWraps()
    ensures NextVersion(Some(IntToString(MaxInt) + "." + "0")) == Ok(IntToString(MinInt) + ".0")
  {
    NextVersionOfMajor(MaxInt, "0");
  }

  /** Every version this produces is again of the form "{major}.0", so each publish moves the major part on by one. */
  lemma RepublishCountsOn(major: Int32)
    ensures var next := NextVersion(Some(IntToString(major) + "." + "0"));
      next.Ok? && NextVersion(Some(next.value)) == Ok(IntToString(Wrap32(Wrap32(major + 1) + 1)) + ".0")
  {
    NextVersionOfMajor(major, "0");
    var w: Int32 := Wrap32(major + 1);
    NextVersionOfMajor(w, "0");
    assert IntToString(w) + ".0" == IntToString(w) + "." + "0";
  }

  /** A non-blank version without '.' makes substring throw. */
  lemma VersionWithoutDotThrows(v: string)
    requires !IsBlank(Some(v)) && '.' !in v
    ensures NextVersion(Some(v)) == Throws(IndexOutOfBounds)
  {
    IndexOfAbsent(v, '.');
  }

  /** A major part that is not a number makes parseInt throw. */
  lemma VersionNotNumericThrows(major: string, minor: string)
    requires |major| > 0 && !IsWhitespace(major[0]) && '.' !in major && !AllDigits(major) && major[0] != '-' && major[0] != '+'
    ensures NextVersion(Some(major + "." + minor)) == Throws(NumberFormat)
  {
    var v := major + "." + minor;
    assert v == major + ['.'] + minor;
    IndexOfAfterFree(major, '.', minor);
    assert v[0..|major|] == major;
    assert v[0] == major[0];
  }

  // ---------------------------------------------------------------- delivery

  /** The pickup directory made to end in '/': one is appended unless the last '/' is the last character. */
  function NormalizePickup(dir: string): (r: string)
    ensures |dir| > 0 ==> |r| > 0 && r[|r| - 1] == '/' && (r == dir || r == dir + "/")
    ensures |dir| == 0 ==> r == dir
  {
    if LastIndexOf(dir, '/') != |dir| - 1 then dir + "/" else dir
  }

  /** Normalising again adds nothing. */
  lemma {:induction false} NormalizePickupIdempotent(dir: string)
    ensures NormalizePickup(NormalizePickup(dir)) == NormalizePickup(dir)
  {
    var r := NormalizePickup(dir);
    if |r| > 0 {
      assert r[|r| - 1] == '/';
    }
  }

  /** The final artifact, {isbn}.epub in the pickup directory. */
  function FinalPath(dir: string, isbn: string): Path {
    PathOf(dir + isbn + ".epub")
  }

  /** Where the temporary file lands in the pickup directory, under its own name. */
  function MovedPath(dir: string, temp: Path): Path
    requires |temp| > 0
  {
    PathOf(dir) + [temp[|temp| - 1]]
  }

  /**
   * The delivery in the finally block: normalise the pickup directory, move the temporary file into
   * it (replacing a file of that name; an IOException is logged), delete an existing {isbn}.epub,
   * and rename. The answer is the rename's.
   */
  function DeliverOp(root: FsNode, pickup: string, temp: Path, isbn: string): (FsNode, string, bool)
    requires |temp| > 0
  {
    var dir := NormalizePickup(pickup);
    var finalEPub := FinalPath(dir, isbn);
    var moved := MovedPath(dir, temp);
    var (r1, okMove) := MoveOp(root, temp, moved);
    if !okMove then (r1, dir, false)
    else
      var r2 := if Exists(r1, finalEPub) then DeleteOp(r1, finalEPub).0 else r1;
      var (r3, okRename) := RenameOp(r2, moved, finalEPub);
      (r3, dir, okRename)
  }

  /**
   * A successful delivery leaves the temporary file's bytes at {isbn}.epub in the normalised pickup
   * directory, whatever was there before. A failed delivery of a regular temporary file leaves no
   * {isbn}.epub that was not there already. Either way, every path apart from the temporary file,
   * its moved copy and {isbn}.epub is as it was.
   */
  lemma DeliverEffect(root: FsNode, pickup: string, temp: Path, isbn: string)
    requires |temp| > 0
    ensures var (r, dir, ok) := DeliverOp(root, pickup, temp, isbn);
      dir == NormalizePickup(pickup) &&
      (ok ==> Get(r, FinalPath(dir, isbn)) == Get(root, temp)) &&
      (!ok && (Get(root, temp).None? || Get(root, temp).value.File?) && Exists(r, FinalPath(dir, isbn)) ==>
        Exists(root, FinalPath(dir, isbn))) &&
      (forall q :: Diverge(temp, q) && Diverge(MovedPath(dir, temp), q) && Diverge(FinalPath(dir, isbn), q) ==>
        Get(r, q) == Get(root, q))
  {
    var (r, dir, ok) := DeliverOp(root, pickup, temp, isbn);
    forall q | Diverge(temp, q) && Diverge(MovedPath(dir, temp), q) && Diverge(FinalPath(dir, isbn), q)
      ensures Get(r, q) == Get(root, q)
    {
      DeliverFrame(root, pickup, temp, isbn, q);
    }
    if !ok && (Get(root, temp).None? || Get(root, temp).value.File?) {
      DeliverFailedAddsNothing(root, pickup, temp, isbn);
    }
    if ok {
      var finalEPub := FinalPath(dir, isbn);
      var moved := MovedPath(dir, temp);
      var (r1, okMove) := MoveOp(root, temp, moved);
      MoveEffect(root, temp, moved);
      assert Get(r1, moved) == Get(root, temp);
      var r2 := if Exists(r1, finalEPub) then DeleteOp(r1, finalEPub).0 else r1;
      DeleteEffect(r1, finalEPub);
      RenameEffect(r2, moved, finalEPub);
      NestedOrDiverge(finalEPub, moved);
      if moved != finalEPub && Under(finalEPub, moved) {
        AncestorIsNonEmptyDir(r1, finalEPub, moved);
      }
    }
  }

  /** The delivery touches only the temporary file, its moved copy and {isbn}.epub. */
  lemma DeliverFrame(root: FsNode, pickup: string, temp: Path, isbn: string, q: Path)
    requires |temp| > 0
    requires var dir := NormalizePickup(pickup);
      Diverge(temp, q) && Diverge(MovedPath(dir, temp), q) && Diverge(FinalPath(dir, isbn), q)
    ensures Get(DeliverOp(root, pickup, temp, isbn).0, q) == Get(root, q)
  {
    var dir := NormalizePickup(pickup);
    var finalEPub := FinalPath(dir, isbn);
    var moved := MovedPath(dir, temp);
    var (r1, okMove) := MoveOp(root, temp, moved);
    MoveFrame(root, temp, moved, q);
    if okMove {
      var r2 := if Exists(r1, finalEPub) then DeleteOp(r1, finalEPub).0 else r1;
      if r2 != r1 {
        GetRemoveOther(r1, finalEPub, q);
      }
      RenameFrame(r2, moved, finalEPub, q);
    }
  }

  /** A failed delivery of a regular file brings no {isbn}.epub into existence. */
  lemma DeliverFailedAddsNothing(root: FsNode, pickup: string, temp: Path, isbn: string)
    requires |temp| > 0 && (Get(root, temp).None? || Get(root, temp).value.File?)
    ensures var (r, dir, ok) := DeliverOp(root, pickup, temp, isbn);
      !ok && Exists(r, FinalPath(dir, isbn)) ==> Exists(root, FinalPath(dir, isbn))
  {
    var (r, dir, ok) := DeliverOp(root, pickup, temp, isbn);
    var finalEPub := FinalPath(dir, isbn);
    var moved := MovedPath(dir, temp);
    var (r1, okMove) := MoveOp(root, temp, moved);
    if !ok && Exists(r, finalEPub) {
      if !okMove {
        if r1 != root {
          RemoveAddsNothing(root, moved, finalEPub);
        }
      } else {
        var r2 := if Exists(r1, finalEPub) then DeleteOp(r1, finalEPub).0 else r1;
        RenameEffect(r2, moved, finalEPub);
        DeleteEffect(r1, finalEPub);
        assert r2 == r1 && Exists(r1, finalEPub);
        assert |finalEPub| == 0 || IsNonEmptyDir(Get(r1, finalEPub).value);
        if temp != moved && |finalEPub| > 0 {
          var cleared := if Get(root, moved).Some? then Remove(root, moved) else root;
          var v := Get(root, temp).value;
          assert r1 == Put(Remove(cleared, temp), moved, v);
          MoveEffect(root, temp, moved);
          PutAddsOnlyAt(Remove(cleared, temp), moved, v, finalEPub);
          if Under(moved, finalEPub) {
            if moved != finalEPub {
              NothingInsideFile(r1, moved, finalEPub);
            }
            assert false;
          }
          RemoveAddsNothing(cleared, temp, finalEPub);
          if cleared != root {
            RemoveAddsNothing(root, moved, finalEPub);
          }
        }
      }
    }
  }

  // ---------------------------------------------------------------- the whole operation

  /**
   * What createAndStoreEPubArtifact depends on besides the repository and the filesystem: the
   * temporary directory and generated temporary file name, the clock, the platform charset of
   * String.getBytes, where each node's content stream breaks, and the ZIP encoding of the entries.
   */
  datatype PublishEnv = PublishEnv(
    tmpDir: Path,
    tempName: string,
    now: int,
    charset: string -> seq<byte>,
    failAt: NodeRef -> Option<nat>,
    encode: seq<ZipEntry> -> seq<byte>)

  /**
   * The outcome of a publish: the repository, the filesystem (None where the archive broke off
   * midway, so that the temporary file holds an archive this model does not describe), the pickup
   * directory setting, and the result (an exception the method lets through).
   */
  datatype Published = Published(repo: Repo, root: Option<FsNode>, pickup: string, result: Result<bool>)

  /** The new published date and version on the book folder. */
  function Bumped(s: Repo, isbnFolder: NodeRef, now: int, version: string): Repo
    requires isbnFolder in s.nodes
  {
    var dated := SetPropertyOp(s, isbnFolder, WebPublishedDateProp, Date(now), Some(WebPublishingInfoAspect));
    SetPropertyOp(dated, isbnFolder, WebPublishedVersionProp, Text(version), Some(WebPublishingInfoAspect))
  }

  /**
   * createAndStoreEPubArtifact. IOExceptions are logged and give false; the runtime exceptions
   * (a missing package file, an unreadable node, a malformed version) leave the method.
   */
  function PublishOp(s: Repo, root: FsNode, pickup: string, isbnFolder: NodeRef, layout: EpubLayout, env: PublishEnv): Published
    requires WellFormed(s) && isbnFolder in s.nodes
  {
    var (root1, created) := CreateTempFileOp(root, env.tmpDir, env.tempName);
    if !created then Published(s, Some(root), pickup, Ok(false))
    else CreatedOp(s, root1, pickup, isbnFolder, layout, env)
  }

  /** The rest once the temporary file exists: the archive, then the version bump and the delivery. */
  function CreatedOp(s: Repo, root1: FsNode, pickup: string, isbnFolder: NodeRef, layout: EpubLayout, env: PublishEnv): Published
    requires WellFormed(s) && isbnFolder in s.nodes
  {
    match EpubEntriesOp(s, layout, isbnFolder, env.charset, env.failAt)
    case Throws(e) => Published(s, None, pickup, if e == IOFailure then Ok(false) else Throws(e))
    case Ok(es) => ArchivedOp(s, root1, pickup, isbnFolder, env, es)
  }

  /**
   * The rest once the archive `es` is complete: the version bump, closing the stream into the
   * temporary file, and the delivery.
   */
  function ArchivedOp(s: Repo, root1: FsNode, pickup: string, isbnFolder: NodeRef, env: PublishEnv, es: seq<ZipEntry>): Published
    requires isbnFolder in s.nodes
  {
    var temp := env.tmpDir + [env.tempName];
    var (root2, written) := WriteFileOp(root1, temp, env.encode(es));
    match NextPublishedVersion(s, isbnFolder)
    case Throws(e) => Published(s, Some(root2), pickup, Throws(e))
    case Ok(v) =>
      var s' := Bumped(s, isbnFolder, env.now, v);
      if !written then Published(s', Some(root2), pickup, Ok(false))
      else
        var (root3, dir, ok) := DeliverOp(root2, pickup, temp, s.nodes[isbnFolder].name);
        Published(s', Some(root3), dir, Ok(ok))
  }

  /**
   * The state after a call agrees with the outcome `p`: the repository, the pickup setting and the
   * result exactly, the filesystem exactly where `p` pins it down and beside the temporary file
   * otherwise.
   */
  ghost predicate Reached(p: Published, s: Repo, root: FsNode, pickup: string, r: Result<bool>, root0: FsNode, temp: Path) {
    && s == p.repo && pickup == p.pickup && r == p.result
    && (p.root.Some? ==> root == p.root.value)
    && (p.root.None? ==> forall q :: Diverge(temp, q) ==> Get(root, q) == Get(root0, q))
  }

  /** The temporary file's bytes once the archive is closed. */
  lemma TempHoldsArchive(root1: FsNode, temp: Path, data: seq<byte>)
    requires WriteFileOp(root1, temp, data).1
    ensures Get(WriteFileOp(root1, temp, data).0, temp) == Some(File(data))
  {
    GetPutSame(root1, temp, File(data));
  }

  /**
   * A publish that answers true has built the whole archive and left its encoding at {isbn}.epub
   * in the normalised pickup directory, which the service now holds.
   */
  lemma PublishDelivers(s: Repo, root: FsNode, pickup: string, isbnFolder: NodeRef, layout: EpubLayout, env: PublishEnv)
    requires WellFormed(s) && isbnFolder in s.nodes
    ensures var p := PublishOp(s, root, pickup, isbnFolder, layout, env);
      var built := EpubEntriesOp(s, layout, isbnFolder, env.charset, env.failAt);
      p.result == Ok(true) ==>
        (built.Ok? && p.root.Some? && p.pickup == NormalizePickup(pickup) &&
         Get(p.root.value, FinalPath(p.pickup, s.nodes[isbnFolder].name)) == Some(File(env.encode(built.value))))
  {
    var p := PublishOp(s, root, pickup, isbnFolder, layout, env);
    var built := EpubEntriesOp(s, layout, isbnFolder, env.charset, env.failAt);
    if p.result == Ok(true) {
      var temp := env.tmpDir + [env.tempName];
      var root1 := CreateTempFileOp(root, env.tmpDir, env.tempName).0;
      TempHoldsArchive(root1, temp, env.encode(built.value));
      DeliverEffect(WriteFileOp(root1, temp, env.encode(built.value)).0, pickup, temp, s.nodes[isbnFolder].name);
    }
  }

  /**
   * Once the archive is built and the version worked out, the book folder carries the publishing
   * aspect, the new date and the new version, whether or not the file reaches the pickup directory;
   * the next publish therefore starts from that version.
   */
  lemma PublishRecordsVersion(s: Repo, root: FsNode, pickup: string, isbnFolder: NodeRef, layout: EpubLayout, env: PublishEnv)
    requires WellFormed(s) && isbnFolder in s.nodes
    requires CreateTempFileOp(root, env.tmpDir, env.tempName).1
    requires EpubEntriesOp(s, layout, isbnFolder, env.charset, env.failAt).Ok?
    requires NextPublishedVersion(s, isbnFolder).Ok?
    ensures var p := PublishOp(s, root, pickup, isbnFolder, layout, env);
      var v := NextPublishedVersion(s, isbnFolder).value;
      p.result.Ok? && isbnFolder in p.repo.nodes &&
      p.repo.nodes[isbnFolder].props[WebPublishedDateProp] == Date(env.now) &&
      TextProp(p.repo, isbnFolder, WebPublishedVersionProp) == Some(v) &&
      NextPublishedVersion(p.repo, isbnFolder) == NextVersion(Some(v))
  {
  }

  /** Publishing "{major}.0" again yields "{major + 1}.0": a publish moves the major version on by one. */
  lemma RepublishIncrements(s: Repo, isbnFolder: NodeRef, now: int, major: Int32)
    requires isbnFolder in s.nodes
    ensures NextPublishedVersion(Bumped(s, isbnFolder, now, IntToString(major) + ".0"), isbnFolder) ==
      Ok(IntToString(Wrap32(major + 1)) + ".0")
  {
    NextVersionOfMajor(major, "0");
    assert IntToString(major) + ".0" == IntToString(major) + "." + "0";
  }

  /** A missing package file is an AlfrescoRuntimeException that leaves the repository and the pickup setting alone. */
  lemma PublishMissingPackage(s: Repo, root: FsNode, pickup: string, isbnFolder: NodeRef, layout: EpubLayout, env: PublishEnv)
    requires WellFormed(s) && isbnFolder in s.nodes && ChildByName(s, isbnFolder, layout.packageFile).None?
    requires CreateTempFileOp(root, env.tmpDir, env.tempName).1
    ensures var p := PublishOp(s, root, pickup, isbnFolder, layout, env);
      p.result == Throws(AlfrescoRuntime) && p.repo == s && p.pickup == pickup
  {
    EpubMissingPackage(s, layout, isbnFolder, env.charset, env.failAt);
  }

  /** An IOException while the archive is written is logged: the answer is false and the repository is untouched. */
  lemma PublishIOFailureQuiet(s: Repo, root: FsNode, pickup: string, isbnFolder: NodeRef, layout: EpubLayout, env: PublishEnv)
    requires WellFormed(s) && isbnFolder in s.nodes
    requires EpubEntriesOp(s, layout, isbnFolder, env.charset, env.failAt) == Throws(IOFailure)
    ensures var p := PublishOp(s, root, pickup, isbnFolder, layout, env);
      p.result == Ok(false) && p.repo == s && p.pickup == pickup
  {
  }

  // ---------------------------------------------------------------- the service, on the streams

  /** The exception of `r`, or the archive written so far. */
  function Outcome(r: Result<()>, entries: seq<ZipEntry>): Result<seq<ZipEntry>> {
    if r.Ok? then Ok(entries) else Throws(r.exc)
  }

  /** The entry loop body: putNextEntry, getReader, the copy, closeEntry. */
  method PutNodeEntry(zo: ZipOutputStream, repo: Repository, fileNodeRef: NodeRef, parentFolderPath: string,
                      failAt: NodeRef -> Option<nat>) returns (r: Result<()>)
    requires fileNodeRef in repo.nodes && zo.current.None?
    modifies zo
    ensures Outcome(r, zo.entries) == NodeEntryOp(old(zo.entries), repo.State(), fileNodeRef, parentFolderPath, failAt)
    ensures r.Ok? ==> zo.current.None?
  {
    var filename := repo.nodes[fileNodeRef].name;
    r := zo.PutNextEntry(CreateZipEntryPath(parentFolderPath, filename, false));
    if r.Throws? {
      return;
    }
    assert old(zo.Archive()) == old(zo.entries);
    var fileContentReader := ReaderOf(repo.State(), fileNodeRef);
    if fileContentReader.Throws? {
      assert ContentBytes(repo.State(), fileNodeRef, failAt) == fileContentReader;
      return Throws(fileContentReader.exc);
    }
    var fileIs := new InputStream(fileContentReader.value, failAt(fileNodeRef));
    r := CopyToEntry(fileIs, zo);
    if r.Ok? {
      assert [] + fileContentReader.value == fileContentReader.value;
      zo.CloseEntry();
    }
  }

  /** addFile2Zip. */
  method AddFile2Zip(zo: ZipOutputStream, filename: string, fileContent: seq<byte>, parentFolder: string) returns (r: Result<()>)
    requires zo.current.None?
    modifies zo
    ensures Outcome(r, zo.entries) == AddFile2ZipOp(old(zo.entries), filename, fileContent, parentFolder)
    ensures r.Ok? ==> zo.current.None?
  {
    r := zo.PutNextEntry(CreateZipEntryPath(parentFolder, filename, false));
    assert old(zo.Archive()) == old(zo.entries);
    if r.Throws? {
      return;
    }
    var fileIs := new InputStream(fileContent, None);
    r := CopyToEntry(fileIs, zo);
    assert [] + fileContent == fileContent;
    zo.CloseEntry();
  }

  /** addContentNode2Zip. */
  method AddContentNode2Zip(zo: ZipOutputStream, repo: Repository, contentNodeRef: NodeRef, parentFolderPath: string,
                            failAt: NodeRef -> Option<nat>) returns (r: Result<()>)
    requires contentNodeRef in repo.nodes && zo.current.None?
    modifies zo
    ensures Outcome(r, zo.entries) == AddContentNodeOp(old(zo.entries), repo.State(), contentNodeRef, parentFolderPath, failAt)
    ensures r.Ok? ==> zo.current.None?
  {
    if !IsContentType(repo.nodes[contentNodeRef].nodeType) {
      return Throws(IllegalArgument);
    }
    r := PutNodeEntry(zo, repo, contentNodeRef, parentFolderPath, failAt);
  }

  /** addFolderNodeContents2Zip: one entry per child, in child order. */
  method AddFolderNodeContents2Zip(zo: ZipOutputStream, repo: Repository, folderNodeRef: NodeRef, parentFolderPath: string,
                                   failAt: NodeRef -> Option<nat>) returns (r: Result<()>)
    requires WellFormed(repo.State()) && folderNodeRef in repo.nodes && zo.current.None?
    modifies zo
    ensures Outcome(r, zo.entries) == AddFolderNodeContentsOp(old(zo.entries), repo.State(), folderNodeRef, parentFolderPath, failAt)
    ensures r.Ok? ==> zo.current.None?
  {
    if !IsFolderType(repo.nodes[folderNodeRef].nodeType) {
      return Throws(IllegalArgument);
    }
    var folderChildNodes := repo.nodes[folderNodeRef].children;
    ghost var s := repo.State();
    var i := 0;
    while i < |folderChildNodes|
      invariant 0 <= i <= |folderChildNodes| && zo.current.None?
      invariant AddChildrenOp(old(zo.entries), s, folderChildNodes, parentFolderPath, failAt) ==
        AddChildrenOp(zo.entries, s, folderChildNodes[i..], parentFolderPath, failAt)
    {
      r := PutNodeEntry(zo, repo, folderChildNodes[i], parentFolderPath, failAt);
      if r.Throws? {
        return;
      }
      assert folderChildNodes[i..][1..] == folderChildNodes[i + 1..];
      i := i + 1;
    }
    r := Ok(());
  }

  /** addMimetypeFile2EPub. */
  method AddMimetypeFile2EPub(zo: ZipOutputStream, charset: string -> seq<byte>) returns (r: Result<()>)
    requires zo.current.None?
    modifies zo
    ensures Outcome(r, zo.entries) == MimetypeOp(old(zo.entries), charset)
    ensures r.Ok? ==> zo.current.None?
  {
    r := AddFile2Zip(zo, MimetypeFileName, charset(EpubMimetype), "");
  }

  /** addMetaInfFolder2EPub. */
  method AddMetaInfFolder2EPub(zo: ZipOutputStream, charset: string -> seq<byte>) returns (r: Result<()>)
    requires zo.current.None?
    modifies zo
    ensures Outcome(r, zo.entries) == MetaInfOp(old(zo.entries), charset)
    ensures r.Ok? ==> zo.current.None?
  {
    r := AddFile2Zip(zo, ContainerFileName, charset(ContainerXml), MetaInfFolderName);
  }

  /** addPackageFile2EPub. */
  method AddPackageFile2EPub(zo: ZipOutputStream, repo: Repository, isbnFolderNodeRef: NodeRef, layout: EpubLayout,
                             failAt: NodeRef -> Option<nat>) returns (r: Result<()>)
    requires WellFormed(repo.State()) && isbnFolderNodeRef in repo.nodes && zo.current.None?
    modifies zo
    ensures Outcome(r, zo.entries) == PackageFileOp(old(zo.entries), repo.State(), isbnFolderNodeRef, layout, failAt)
    ensures r.Ok? ==> zo.current.None?
  {
    var epubPackageFileNodeRef := ChildByName(repo.State(), isbnFolderNodeRef, layout.packageFile);
    if epubPackageFileNodeRef.None? {
      return Throws(AlfrescoRuntime);
    }
    r := AddContentNode2Zip(zo, repo, epubPackageFileNodeRef.value, layout.opsFolder, failAt);
  }

  /** One optional subfolder of addIsbnSubFolders2EPub. */
  method AddOptionalFolder(zo: ZipOutputStream, repo: Repository, isbnFolderNodeRef: NodeRef, folderName: string, pathInEpub: string,
                           failAt: NodeRef -> Option<nat>) returns (r: Result<()>)
    requires WellFormed(repo.State()) && isbnFolderNodeRef in repo.nodes && zo.current.None?
    modifies zo
    ensures Outcome(r, zo.entries) == OptionalFolderOp(old(zo.entries), repo.State(), isbnFolderNodeRef, folderName, pathInEpub, failAt)
    ensures r.Ok? ==> zo.current.None?
  {
    var folderNodeRef := ChildByName(repo.State(), isbnFolderNodeRef, folderName);
    if folderNodeRef.None? {
      return Ok(());
    }
    r := AddFolderNodeContents2Zip(zo, repo, folderNodeRef.value, pathInEpub, failAt);
  }

  /** addIsbnSubFolders2EPub. */
  method AddIsbnSubFolders2EPub(zo: ZipOutputStream, repo: Repository, isbnFolderNodeRef: NodeRef, layout: EpubLayout,
                                failAt: NodeRef -> Option<nat>) returns (r: Result<()>)
    requires WellFormed(repo.State()) && isbnFolderNodeRef in repo.nodes && zo.current.None?
    modifies zo
    ensures Outcome(r, zo.entries) == IsbnSubFoldersOp(old(zo.entries), repo.State(), isbnFolderNodeRef, layout, failAt)
    ensures r.Ok? ==> zo.current.None?
  {
    var opsFolderPathInEPub := layout.opsFolder;
    r := AddOptionalFolder(zo, repo, isbnFolderNodeRef, StylesFolderName, opsFolderPathInEPub + "/" + layout.stylesheetFolder, failAt);
    if r.Throws? {
      return;
    }
    r := AddOptionalFolder(zo, repo, isbnFolderNodeRef, ArtworkFolderName, opsFolderPathInEPub + "/" + layout.imagesFolder, failAt);
    if r.Throws? {
      return;
    }
    r := AddOptionalFolder(zo, repo, isbnFolderNodeRef, SupplementaryFolderName, opsFolderPathInEPub, failAt);
    if r.Throws? {
      return;
    }
    var isbnFolderChildren := repo.nodes[isbnFolderNodeRef].children;
    ghost var s := repo.State();
    ghost var before := zo.entries;
    var i := 0;
    while i < |isbnFolderChildren|
      invariant 0 <= i <= |isbnFolderChildren| && zo.current.None?
      invariant ChapterFoldersOp(before, s, isbnFolderChildren, opsFolderPathInEPub, failAt) ==
        ChapterFoldersOp(zo.entries, s, isbnFolderChildren[i..], opsFolderPathInEPub, failAt)
    {
      var childFolderNodeRef := isbnFolderChildren[i];
      ChapterFoldersStep(zo.entries, s, isbnFolderChildren, i, opsFolderPathInEPub, failAt);
      if repo.nodes[childFolderNodeRef].nodeType == ChapterFolderType {
        r := AddFolderNodeContents2Zip(zo, repo, childFolderNodeRef, opsFolderPathInEPub, failAt);
        if r.Throws? {
          return;
        }
      }
      i := i + 1;
    }
    r := Ok(());
  }

  /** The four add calls of createAndStoreEPubArtifact, stopping at the first exception. */
  method WriteEpub(zo: ZipOutputStream, repo: Repository, isbnFolderNodeRef: NodeRef, layout: EpubLayout,
                   charset: string -> seq<byte>, failAt: NodeRef -> Option<nat>) returns (r: Result<()>)
    requires WellFormed(repo.State()) && isbnFolderNodeRef in repo.nodes && zo.entries == [] && zo.current.None?
    modifies zo
    ensures Outcome(r, zo.entries) == EpubEntriesOp(repo.State(), layout, isbnFolderNodeRef, charset, failAt)
    ensures r.Ok? ==> zo.current.None?
  {
    r := AddMimetypeFile2EPub(zo, charset);
    if r.Throws? {
      return;
    }
    r := AddMetaInfFolder2EPub(zo, charset);
    if r.Throws? {
      return;
    }
    r := AddPackageFile2EPub(zo, repo, isbnFolderNodeRef, layout, failAt);
    if r.Throws? {
      return;
    }
    r := AddIsbnSubFolders2EPub(zo, repo, isbnFolderNodeRef, layout, failAt);
  }

  /** PublishingServiceImpl, with the pickup directory it delivers to. */
  class PublishingService {
    var epubPickupDirectory: string

    constructor (epubPickupDirectory: string)
      ensures this.epubPickupDirectory == epubPickupDirectory
    {
      this.epubPickupDirectory := epubPickupDirectory;
    }

    /** The delivery steps in the finally block. */
    method DeliverToPickup(fs: FileSystem, tempEPub: Path, isbn: string) returns (ok: bool)
      requires |tempEPub| > 0
      modifies this, fs
      ensures (fs.root, epubPickupDirectory, ok) == DeliverOp(old(fs.root), old(epubPickupDirectory), tempEPub, isbn)
    {
      if LastIndexOf(epubPickupDirectory, '/') != |epubPickupDirectory| - 1 {
        epubPickupDirectory := epubPickupDirectory + "/";
      }
      var finalEPub := FinalPath(epubPickupDirectory, isbn);
      var tempEPubDirPath := MovedPath(epubPickupDirectory, tempEPub);
      var moved := fs.Move(tempEPub, tempEPubDirPath);
      if moved.Throws? {
        return false;
      }
      if Exists(fs.root, finalEPub) {
        var _ := fs.Delete(finalEPub);
      }
      ok := fs.RenameTo(tempEPubDirPath, finalEPub);
    }

    /**
     * createAndStoreEPubArtifact. Where the archive broke off midway the temporary file's bytes are
     * left open, and only the rest of the filesystem is pinned down.
     */
    method CreateAndStoreEPubArtifact(repo: Repository, fs: FileSystem, isbnFolderNodeRef: NodeRef, layout: EpubLayout,
                                      env: PublishEnv) returns (r: Result<bool>)
      requires WellFormed(repo.State()) && isbnFolderNodeRef in repo.nodes
      modifies this, repo, fs
      ensures Reached(PublishOp(old(repo.State()), old(fs.root), old(epubPickupDirectory), isbnFolderNodeRef, layout, env),
                      repo.State(), fs.root, epubPickupDirectory, r, old(fs.root), env.tmpDir + [env.tempName])
    {
      var tempEPub := fs.CreateTempFile(env.tmpDir, env.tempName);
      if tempEPub.Throws? {
        return Ok(false);
      }
      ghost var root1 := fs.root;
      r := BuildAndDeliver(repo, fs, tempEPub.value, isbnFolderNodeRef, layout, env);
      forall q | Diverge(tempEPub.value, q) ensures Get(root1, q) == Get(old(fs.root), q) {
        GetPutOther(old(fs.root), tempEPub.value, q, File([]));
      }
    }

    /** The try block and the finally block of createAndStoreEPubArtifact, once the temporary file exists. */
    method BuildAndDeliver(repo: Repository, fs: FileSystem, temp: Path, isbnFolderNodeRef: NodeRef, layout: EpubLayout,
                           env: PublishEnv) returns (r: Result<bool>)
      requires WellFormed(repo.State()) && isbnFolderNodeRef in repo.nodes && temp == env.tmpDir + [env.tempName]
      modifies this, repo, fs
      ensures Reached(CreatedOp(old(repo.State()), old(fs.root), old(epubPickupDirectory), isbnFolderNodeRef, layout, env),
                      repo.State(), fs.root, epubPickupDirectory, r, old(fs.root), temp)
    {
      var zo := new ZipOutputStream();
      var built := WriteEpub(zo, repo, isbnFolderNodeRef, layout, env.charset, env.failAt);
      if built.Throws? {
        zo.CloseEntry();
        var _ := fs.WriteFile(temp, env.encode(zo.entries));
        forall q | Diverge(temp, q) ensures Get(fs.root, q) == Get(old(fs.root), q) {
          GetPutOther(old(fs.root), temp, q, File(env.encode(zo.entries)));
        }
        return if built.exc == IOFailure then Ok(false) else Throws(built.exc);
      }
      r := RecordAndDeliver(repo, fs, zo, temp, isbnFolderNodeRef, env);
    }

    /** The part of createAndStoreEPubArtifact after the four add calls, the closing of the stream and the delivery. */
    method RecordAndDeliver(repo: Repository, fs: FileSystem, zo: ZipOutputStream, temp: Path, isbnFolderNodeRef: NodeRef,
                            env: PublishEnv) returns (r: Result<bool>)
      requires isbnFolderNodeRef in repo.nodes && zo.current.None? && temp == env.tmpDir + [env.tempName]
      modifies this, repo, fs, zo
      ensures Reached(ArchivedOp(old(repo.State()), old(fs.root), old(epubPickupDirectory), isbnFolderNodeRef, env, old(zo.entries)),
                      repo.State(), fs.root, epubPickupDirectory, r, old(fs.root), temp)
    {
      var isbn := repo.nodes[isbnFolderNodeRef].name;
      assert zo.Archive() == zo.entries;
      var newPublishedVersion := NextPublishedVersion(repo.State(), isbnFolderNodeRef);
      if newPublishedVersion.Throws? {
        zo.CloseEntry();
        var _ := fs.WriteFile(temp, env.encode(zo.entries));
        return Throws(newPublishedVersion.exc);
      }
      repo.SetProperty(isbnFolderNodeRef, WebPublishedDateProp, Date(env.now), Some(WebPublishingInfoAspect));
      repo.SetProperty(isbnFolderNodeRef, WebPublishedVersionProp, Text(newPublishedVersion.value), Some(WebPublishingInfoAspect));
      zo.CloseEntry();
      var closed := fs.WriteFile(temp, env.encode(zo.entries));
      if closed.Throws? {
        return Ok(false);
      }
      var delivered := DeliverToPickup(fs, temp, isbn);
      r := Ok(delivered);
    }
  }
}
