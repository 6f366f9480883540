/**
 * The acme BestPubUtilsServiceImpl: ISBN and chapter-name handling, the chapter folder set-up of a
 * new book, the modification-date check, the extension filter and the quarantine move.
 */
module BestPubUtils {
  import opened Wrappers
  import opened JavaText
  import opened IsbnPattern
  import opened BestPubConstants
  import opened BestPubContentModel
  import opened MetadataFileModel
  import opened ContentStore
  import opened RepoUtils
  import opened FileSystemModel

  // ---------------------------------------------------------------- ISBNs

  /** isISBN: a full match of the ISBN pattern. */
  function IsIsbn(isbn: string): (r: bool)
    ensures r <==> |isbn| == IsbnNumberLength && isbn[0] == '9' && isbn[1] == '7' &&
                   isbn[2] in {'8', '|', '9'} && AllDigits(isbn[3..])
  {
    IsbnMatch(isbn);
    FullMatch(Pattern, isbn)
  }

  /**
   * getISBNfromFilename: the first thirteen characters of the trimmed name when they form an ISBN,
   * else null; a trimmed name shorter than that makes substring throw.
   */
  function GetIsbnFromFilename(filename: string): (r: Result<Option<string>>)
    ensures r.Throws? <==> |Trim(filename)| < IsbnNumberLength
    ensures r.Throws? ==> r.exc == IndexOutOfBounds
    ensures r.Ok? && r.value.Some? ==> IsIsbn(r.value.value) && StartsWith(Trim(filename), r.value.value)
    ensures r.Ok? && r.value.None? ==> !IsIsbn(Trim(filename)[..IsbnNumberLength])
  {
    match Substring(Trim(filename), 0, IsbnNumberLength)
    case Throws(e) => Throws(e)
    case Ok(isbn) => if IsIsbn(isbn) then Ok(Some(isbn)) else Ok(None)
  }

  /** Any name that starts (after leading blanks) with an ISBN yields that ISBN, whatever follows it. */
  lemma IsbnPrefixIsExtracted(blanks: string, isbn: string, rest: string)
    requires IsIsbn(isbn) && forall k :: 0 <= k < |blanks| ==> blanks[k] <= ' '
    ensures GetIsbnFromFilename(blanks + isbn + rest) == Ok(Some(isbn))
  {
    var s := blanks + isbn + rest;
    assert isbn[0] > ' ' && isbn[12] > ' ' by {
      assert IsAsciiDigit(isbn[3..][9]);
    }
    var lead := LeadingSpace(s);
    assert forall k :: 0 <= k < |blanks| ==> s[k] == blanks[k];
    assert s[|blanks|] == isbn[0];
    assert lead == |blanks|;
    assert s[|blanks|..] == isbn + rest;
    TrimKeepsPrefix(isbn, rest);
    assert Trim(s) == Trim(isbn + rest) by {
      assert LeadingSpace(isbn + rest) == 0;
      assert (isbn + rest)[0..] == isbn + rest;
    }
  }

  /** The documented file names, an ISBN followed by ".zip" or by "_Law_Chapter 1 - 40.zip", give the ISBN 9780203093474. */
  lemma DocumentedFilenames()
    ensures GetIsbnFromFilename("9780203093474" + ".zip") == Ok(Some("9780203093474"))
    ensures GetIsbnFromFilename("9780203093474" + "_Law_Chapter 1 - 40.zip") == Ok(Some("9780203093474"))
  {
    var isbn := "9780203093474";
    DocumentedIsbnIsAccepted();
    assert "" + isbn == isbn;
    IsbnPrefixIsExtracted("", isbn, ".zip");
    IsbnPrefixIsExtracted("", isbn, "_Law_Chapter 1 - 40.zip");
  }

  // ---------------------------------------------------------------- chapter folders

  /** The chapter folder name: the prefix, a dash and the chapter number as text. */
  function ChapterFolderName(number: string): string {
    ChapterFolderNamePrefix + "-" + number
  }

  /** The documented getChapterFolderName(9). */
  lemma ChapterFolderNameExample()
    ensures ChapterFolderName(IntToString(9)) == "chapter-9"
  {
    assert IntToString(9) == "9";
  }

  /**
   * getChapterDestinationFolder: the three characters before the last '.' are parsed as the chapter
   * number; a number outside 0..200 gives null, otherwise the ISBN folder's child "chapter-<n>".
   * A name without three characters before a '.' makes substring throw, a non-numeric field makes
   * parseInt throw.
   */
  function GetChapterDestinationFolder(s: Repo, fileName: string, destIsbnFolder: NodeRef): Result<Option<NodeRef>>
    requires WellFormed(s) && destIsbnFolder in s.nodes
  {
    var indexOfDot := LastIndexOf(fileName, '.');
    var indexOfLastDash := indexOfDot - 4;
    match Substring(fileName, indexOfLastDash + 1, indexOfDot)
    case Throws(e) => Throws(e)
    case Ok(field) =>
      match ParseInt(field)
      case Throws(e) => Throws(e)
      case Ok(chapterNr) =>
        if chapterNr < 0 || chapterNr > 200 then Ok(None)
        else Ok(ChildByName(s, destIsbnFolder, ChapterFolderName(IntToString(chapterNr))))
  }

  /** Three decimal digits are worth at most 999. */
  lemma ThreeDigitsValue(d: string)
    requires |d| == 3 && AllDigits(d)
    ensures DigitsValue(d) <= 999
  {
    assert d[..2][..1] == d[..1] && d[..1][..0] == [] && d[..3] == d;
    assert d[..1][0] == d[0] && IsAsciiDigit(d[0]);
    var a := DigitsValue(d[..1]);
    assert DigitsValue(d[..1][..0]) == 0;
    assert a == DigitsValue(d[..1][..0]) * 10 + DigitValue(d[..1][0]);
    assert DigitValue(d[0]) <= 9;
    assert a <= 9;
    var b := DigitsValue(d[..2]);
    assert b == a * 10 + DigitValue(d[1]) <= 99;
    assert DigitsValue(d) == b * 10 + DigitValue(d[2]);
  }

  /** The position of the extension dot of `prefix + digits + "." + ext`, when `ext` has no dot. */
  lemma LastDotBeforeExtension(head: string, ext: string)
    requires '.' !in ext
    ensures LastIndexOf(head + "." + ext, '.') == |head|
  {
    LastIndexOfAppend(head + ".", ext, '.');
    LastIndexOfAppend(head, ".", '.');
    assert head + "." + ext == (head + ".") + ext;
  }

  /**
   * A name ending in three digits, '.', and a dot-free extension resolves to the folder named after
   * the digits' value without leading zeros, when that value is at most 200, and to null otherwise.
   */
  lemma ChapterDestinationOfNumberedName(s: Repo, dest: NodeRef, prefix: string, digits: string, ext: string)
    requires WellFormed(s) && dest in s.nodes
    requires |digits| == 3 && AllDigits(digits) && '.' !in ext
    ensures var n := DigitsValue(digits);
      GetChapterDestinationFolder(s, prefix + digits + "." + ext, dest) ==
        Ok(if n <= 200 then ChildByName(s, dest, ChapterFolderName(NatToString(n))) else None)
  {
    NumberedNameField(prefix, digits, ext);
    ThreeDigitsValue(digits);
    assert IsAsciiDigit(digits[0]);
    assert ParseInt(digits) == Ok(DigitsValue(digits));
  }

  /** The three characters before the extension dot of `prefix + digits + "." + ext` are `digits`. */
  lemma NumberedNameField(prefix: string, digits: string, ext: string)
    requires |digits| == 3 && '.' !in ext
    ensures var name := prefix + digits + "." + ext;
      LastIndexOf(name, '.') == |prefix| + 3 && Substring(name, |prefix|, |prefix| + 3) == Ok(digits)
  {
    var name := prefix + digits + "." + ext;
    assert name == (prefix + digits) + "." + ext;
    LastDotBeforeExtension(prefix + digits, ext);
    var dot := |prefix| + 3;
    assert name[dot - 3..dot] == digits;
  }

  /** The values of the three-digit fields of the examples below. */
  lemma ThreeDigitExamples()
    ensures AllDigits("001") && DigitsValue("001") == 1 && NatToString(1) == "1"
    ensures AllDigits("201") && DigitsValue("201") == 201
  {
    assert "001"[..2][..1] == "0" && "001"[..1][..0] == [] && "001"[..3] == "001";
    assert "201"[..2][..1] == "2" && "201"[..1][..0] == [] && "201"[..3] == "201";
  }

  /** The documented example: 9780486282145-Chapter-001.xhtml belongs in chapter-1. */
  lemma ChapterDestinationExample(s: Repo, dest: NodeRef)
    requires WellFormed(s) && dest in s.nodes
    ensures GetChapterDestinationFolder(s, "9780486282145-Chapter-" + "001" + "." + "xhtml", dest) ==
      Ok(ChildByName(s, dest, ChapterFolderName("1")))
  {
    ThreeDigitExamples();
    assert '.' !in "xhtml";
    ChapterDestinationOfNumberedName(s, dest, "9780486282145-Chapter-", "001", "xhtml");
  }

  /** A numeric field above 200 is out of range: null, without a lookup. */
  lemma ChapterDestinationOutOfRange(s: Repo, dest: NodeRef)
    requires WellFormed(s) && dest in s.nodes
    ensures GetChapterDestinationFolder(s, "9780486282145-Chapter-" + "201" + "." + "xhtml", dest) == Ok(None)
  {
    ThreeDigitExamples();
    assert '.' !in "xhtml";
    ChapterDestinationOfNumberedName(s, dest, "9780486282145-Chapter-", "201", "xhtml");
  }

  /** A name with fewer than three characters before its last '.', or without a '.', makes substring throw. */
  lemma ChapterDestinationShortName(s: Repo, dest: NodeRef, fileName: string)
    requires WellFormed(s) && dest in s.nodes
    requires LastIndexOf(fileName, '.') < 3
    ensures GetChapterDestinationFolder(s, fileName, dest) == Throws(IndexOutOfBounds)
  {
  }

  // ---------------------------------------------------------------- the base folders

  /** getBookManagementSiteDocLibPath. */
  function BookManagementSiteDocLibPath(): string {
    "/" + SitesName + "/" + BookManagementSiteName + "/" + DocumentLibraryName
  }

  /** The document library path leads from Company Home through Sites and the book-management site. */
  lemma DocLibPathElements()
    ensures DisplayPathElements(BookManagementSiteDocLibPath()) == [SitesName, BookManagementSiteName, DocumentLibraryName]
  {
    var names := [SitesName, BookManagementSiteName, DocumentLibraryName];
    assert names[1..][1..] == [DocumentLibraryName];
    assert Join(names[1..][1..], '/') == DocumentLibraryName;
    assert Join(names[1..], '/') == BookManagementSiteName + "/" + DocumentLibraryName;
    assert Join(names, '/') == SitesName + "/" + BookManagementSiteName + "/" + DocumentLibraryName;
    assert BookManagementSiteDocLibPath() == "/" + Join(names, '/');
    assert '/' !in SitesName && '/' !in BookManagementSiteName && '/' !in DocumentLibraryName;
    DisplayPathOfNames(names);
  }

  /** The document library is found by walking Sites, book-management and documentLibrary down from Company Home. */
  lemma DocLibResolves(s: Repo, companyHome: NodeRef)
    requires WellFormed(s) && companyHome in s.nodes
    ensures GetNodeByDisplayPath(s, companyHome, BookManagementSiteDocLibPath()) ==
      Ok(ResolveNamePath(s, companyHome, [SitesName, BookManagementSiteName, DocumentLibraryName]))
  {
    DocLibPathElements();
  }

  /**
   * getBaseFolderForBooks: the folder named after the current year under the site's document
   * library, created if absent. A missing document library leaves a null parent, which fails.
   * An existing year folder is returned with the repository unchanged; otherwise a new folder of
   * the folder type is made there.
   */
  function BaseFolderForBooksOp(s: Repo, companyHome: NodeRef, year: int): (r: (Repo, Result<NodeRef>))
    requires WellFormed(s) && companyHome in s.nodes
    ensures WellFormed(r.0) && companyHome in r.0.nodes && (r.1.Ok? ==> r.1.value in r.0.nodes)
    ensures r.1.Throws? ==> r.0 == s
    ensures var d := GetNodeByDisplayPath(s, companyHome, BookManagementSiteDocLibPath());
      (r.1.Ok? <==> d.Ok? && d.value.Some?) &&
      (r.1.Ok? ==> d.value.value in r.0.nodes && ChildByName(r.0, d.value.value, IntToString(year)) == Some(r.1.value)) &&
      (d.Ok? && d.value.Some? ==>
        var existing := ChildByName(s, d.value.value, IntToString(year));
        (existing.Some? ==> r == (s, Ok(existing.value))) &&
        (existing.None? ==> r.1.value !in s.nodes && r.0.nodes[r.1.value] == NewNode(IntToString(year), FolderType)))
  {
    match GetNodeByDisplayPath(s, companyHome, BookManagementSiteDocLibPath())
    case Throws(e) => (s, Throws(e))
    case Ok(None) => (s, Throws(NullPointer))
    case Ok(Some(docLib)) =>
      GetOrCreateChildEffect(s, docLib, IntToString(year), FolderType);
      var (t, folder) := GetOrCreateChildOp(s, docLib, IntToString(year), FolderType);
      (t, Ok(folder))
  }

  /** java.util.Properties.getProperty: the value, or null for a missing key. */
  function Property(props: map<string, string>, key: string): Option<string> {
    if key in props then Some(props[key]) else None
  }

  /** A possibly null string stored as a property value. */
  function TextOrNull(v: Option<string>): PropValue {
    if v.Some? then Text(v.value) else NullValue
  }

  /** The bookInfo aspect properties set on the ISBN folder and on every chapter folder. */
  function BookInfoProps(isbn: string, bookInfo: map<string, string>): map<QName, PropValue> {
    map[IsbnProp := Text(isbn),
        BookTitleProp := TextOrNull(Property(bookInfo, BookMetadataTitlePropName)),
        BookGenreNameProp := TextOrNull(Property(bookInfo, BookMetadataGenrePropName)),
        BookNumberOfChaptersProp := TextOrNull(Property(bookInfo, BookMetadataNrOfChaptersPropName)),
        BookNumberOfPagesProp := TextOrNull(Property(bookInfo, BookMetadataNrOfPagesPropName)),
        BookMetadataStatusProp := Text(BookMetadataStatusText(BookMissing))]
  }

  /** The chapterInfo aspect properties of one chapter folder. */
  function ChapterInfoProps(chapterInfo: map<string, string>): map<QName, PropValue> {
    map[ChapterNumberProp := TextOrNull(Property(chapterInfo, ChapterMetadataNumberPropName)),
        ChapterTitleProp := TextOrNull(Property(chapterInfo, ChapterMetadataTitlePropName)),
        ChapterAuthorNameProp := TextOrNull(Property(chapterInfo, ChapterMetadataAuthorPropName)),
        ChapterMetadataStatusProp := Text(ChapterMetadataStatusText(ChapterMissing))]
  }

  /** The folder name of one chapter: "chapter-" and its number property, or "chapter-null" without one. */
  function ChapterFolderNameOf(chapterInfo: map<string, string>): string {
    var number := Property(chapterInfo, ChapterMetadataNumberPropName);
    ChapterFolderName(if number.Some? then number.value else "null")
  }

  /** A chapter folder as createChapterFolders leaves it. */
  function ChapterFolderNode(chapterInfo: map<string, string>, bookProps: map<QName, PropValue>): Node {
    Node(ChapterFolderNameOf(chapterInfo), ChapterFolderType, {BookInfoAspect, ChapterInfoAspect},
         bookProps + ChapterInfoProps(chapterInfo), [], None)
  }

  /** One pass of the chapter loop: create the folder (refused for a taken name), then add both aspects. */
  function AddChapterFolder(s: Repo, isbnFolder: NodeRef, bookProps: map<QName, PropValue>, chapterInfo: map<string, string>)
    : (r: (Repo, Result<()>))
    requires WellFormed(s) && isbnFolder in s.nodes
  {
    var (t, c) := CreateNodeOp(s, isbnFolder, ChapterFolderNameOf(chapterInfo), ChapterFolderType);
    if c.Throws? then (t, Throws(c.exc))
    else
      CreateNodeEffect(s, isbnFolder, ChapterFolderNameOf(chapterInfo), ChapterFolderType);
      (AddAspectOp(AddAspectOp(t, c.value, BookInfoAspect, bookProps), c.value, ChapterInfoAspect, ChapterInfoProps(chapterInfo)), Ok(()))
  }

  /** A successful pass appends one child, the complete chapter folder, and touches no other node. */
  lemma AddChapterFolderEffect(s: Repo, isbnFolder: NodeRef, bookProps: map<QName, PropValue>, chapterInfo: map<string, string>)
    requires WellFormed(s) && isbnFolder in s.nodes
    ensures var (t, r) := AddChapterFolder(s, isbnFolder, bookProps, chapterInfo);
      WellFormed(t) && isbnFolder in t.nodes &&
      (r.Ok? <==> ChildByName(s, isbnFolder, ChapterFolderNameOf(chapterInfo)).None?) &&
      (r.Throws? ==> t == s && r.exc == DuplicateChildName) &&
      (r.Ok? ==>
        s.next !in s.nodes && t.nodes.Keys == s.nodes.Keys + {s.next} &&
        t.nodes[s.next] == ChapterFolderNode(chapterInfo, bookProps) &&
        t.nodes[isbnFolder] == s.nodes[isbnFolder].(children := s.nodes[isbnFolder].children + [s.next]) &&
        forall n :: n in s.nodes && n != isbnFolder ==> t.nodes[n] == s.nodes[n])
  {
    var name := ChapterFolderNameOf(chapterInfo);
    CreateNodeEffect(s, isbnFolder, name, ChapterFolderType);
    if ChildByName(s, isbnFolder, name).None? {
      ChapterFolderAdded(s, isbnFolder, bookProps, chapterInfo);
    }
  }

  /** The successful pass of the chapter loop, step by step. */
  lemma ChapterFolderAdded(s: Repo, isbnFolder: NodeRef, bookProps: map<QName, PropValue>, chapterInfo: map<string, string>)
    requires WellFormed(s) && isbnFolder in s.nodes
    requires ChildByName(s, isbnFolder, ChapterFolderNameOf(chapterInfo)).None?
    ensures var (t, r) := AddChapterFolder(s, isbnFolder, bookProps, chapterInfo);
      r.Ok? && WellFormed(t) && isbnFolder in t.nodes &&
      s.next !in s.nodes && t.nodes.Keys == s.nodes.Keys + {s.next} &&
      t.nodes[s.next] == ChapterFolderNode(chapterInfo, bookProps) &&
      t.nodes[isbnFolder] == s.nodes[isbnFolder].(children := s.nodes[isbnFolder].children + [s.next]) &&
      forall n :: n in s.nodes && n != isbnFolder ==> t.nodes[n] == s.nodes[n]
  {
    CreateWithTwoAspects(s, isbnFolder, ChapterFolderNameOf(chapterInfo), ChapterFolderType,
                         BookInfoAspect, bookProps, ChapterInfoAspect, ChapterInfoProps(chapterInfo));
  }

  /** The chapter loop over the first |chapters| entries, stopping at the first refused create. */
  function AddChapterFolders(s: Repo, isbnFolder: NodeRef, bookProps: map<QName, PropValue>, chapters: seq<map<string, string>>)
    : (r: (Repo, Result<()>))
    requires WellFormed(s) && isbnFolder in s.nodes
    ensures WellFormed(r.0) && isbnFolder in r.0.nodes
    decreases |chapters|
  {
    if |chapters| == 0 then (s, Ok(()))
    else
      var (t, res) := AddChapterFolders(s, isbnFolder, bookProps, chapters[..|chapters| - 1]);
      if res.Throws? then (t, res)
      else
        AddChapterFolderEffect(t, isbnFolder, bookProps, chapters[|chapters| - 1]);
        AddChapterFolder(t, isbnFolder, bookProps, chapters[|chapters| - 1])
  }

  /** The chapter folder names are pairwise different and none is taken under the ISBN folder. */
  predicate ChapterNamesFree(s: Repo, isbnFolder: NodeRef, chapters: seq<map<string, string>>)
    requires WellFormed(s) && isbnFolder in s.nodes
  {
    && (forall i, j :: 0 <= i < j < |chapters| ==> ChapterFolderNameOf(chapters[i]) != ChapterFolderNameOf(chapters[j]))
    && (forall k :: 0 <= k < |chapters| ==> ChildByName(s, isbnFolder, ChapterFolderNameOf(chapters[k])).None?)
  }

  /** What the chapter loop leaves: the new children in order, each a complete chapter folder. */
  predicate ChaptersAppended(s: Repo, t: Repo, isbnFolder: NodeRef, bookProps: map<QName, PropValue>, chapters: seq<map<string, string>>)
    requires isbnFolder in s.nodes && isbnFolder in t.nodes
  {
    var before := s.nodes[isbnFolder].children;
    var kids := t.nodes[isbnFolder].children;
    && |kids| == |before| + |chapters| && kids[..|before|] == before
    && t.nodes[isbnFolder] == s.nodes[isbnFolder].(children := kids)
    && (forall k :: 0 <= k < |chapters| ==> AppendedChapter(s, t, kids[|before| + k], bookProps, chapters[k]))
  }

  /** A node the loop created (it was not in `s`) that is the complete chapter folder of `chapterInfo`. */
  predicate AppendedChapter(s: Repo, t: Repo, kid: NodeRef, bookProps: map<QName, PropValue>, chapterInfo: map<string, string>) {
    kid !in s.nodes && kid in t.nodes && t.nodes[kid] == ChapterFolderNode(chapterInfo, bookProps)
  }

  /** Free names for a longer list: free for the shorter one, and the last name is new and not taken. */
  lemma ChapterNamesFreeSplit(s: Repo, isbnFolder: NodeRef, init: seq<map<string, string>>, last: map<string, string>)
    requires WellFormed(s) && isbnFolder in s.nodes
    ensures ChapterNamesFree(s, isbnFolder, init + [last]) <==>
      ChapterNamesFree(s, isbnFolder, init) && ChildByName(s, isbnFolder, ChapterFolderNameOf(last)).None? &&
      forall k :: 0 <= k < |init| ==> ChapterFolderNameOf(init[k]) != ChapterFolderNameOf(last)
  {
    var chapters := init + [last];
    assert forall k :: 0 <= k < |init| ==> chapters[k] == init[k];
    assert chapters[|init|] == last;
  }

  /**
   * After the loop has appended the folders of `init`, a name is free under the ISBN folder exactly
   * when it was free before and is not one of those folders' names.
   */
  lemma LookupAfterChapters(s: Repo, t: Repo, isbnFolder: NodeRef, bookProps: map<QName, PropValue>,
                            init: seq<map<string, string>>, name: string)
    requires WellFormed(s) && WellFormed(t) && isbnFolder in s.nodes && isbnFolder in t.nodes
    requires forall n :: n in s.nodes ==> n in t.nodes && t.nodes[n].name == s.nodes[n].name
    requires ChaptersAppended(s, t, isbnFolder, bookProps, init)
    ensures ChildByName(t, isbnFolder, name).None? <==>
      ChildByName(s, isbnFolder, name).None? && forall k :: 0 <= k < |init| ==> ChapterFolderNameOf(init[k]) != name
  {
    var oldKids := s.nodes[isbnFolder].children;
    var kids := t.nodes[isbnFolder].children;
    ChildNamesAfterChapters(s, t, isbnFolder, bookProps, init);
    if ChildByName(t, isbnFolder, name).None? {
      forall k | 0 <= k < |oldKids| ensures s.nodes[oldKids[k]].name != name {
        assert t.nodes[kids[k]].name != name;
      }
      forall k | 0 <= k < |init| ensures ChapterFolderNameOf(init[k]) != name {
        assert t.nodes[kids[|oldKids| + k]].name != name;
      }
    } else {
      LookupTakenAfterChapters(s, t, isbnFolder, bookProps, init, name);
    }
  }

  /** A name taken after the loop was taken before or is one of the appended chapter names. */
  lemma LookupTakenAfterChapters(s: Repo, t: Repo, isbnFolder: NodeRef, bookProps: map<QName, PropValue>,
                                 init: seq<map<string, string>>, name: string)
    requires WellFormed(s) && WellFormed(t) && isbnFolder in s.nodes && isbnFolder in t.nodes
    requires forall n :: n in s.nodes ==> n in t.nodes && t.nodes[n].name == s.nodes[n].name
    requires ChaptersAppended(s, t, isbnFolder, bookProps, init)
    requires ChildByName(t, isbnFolder, name).Some?
    ensures ChildByName(s, isbnFolder, name).Some? || exists k :: 0 <= k < |init| && ChapterFolderNameOf(init[k]) == name
  {
    var oldKids := s.nodes[isbnFolder].children;
    var kids := t.nodes[isbnFolder].children;
    ChildNamesAfterChapters(s, t, isbnFolder, bookProps, init);
    var j :| 0 <= j < |kids| && t.nodes[kids[j]].name == name;
    if j >= |oldKids| {
      assert kids[|oldKids| + (j - |oldKids|)] == kids[j];
      assert ChapterFolderNameOf(init[j - |oldKids|]) == name;
    } else {
      assert s.nodes[oldKids[j]].name == name;
    }
  }

  /** After the loop, the ISBN folder's children carry the old children's names, then the chapter names in order. */
  lemma ChildNamesAfterChapters(s: Repo, t: Repo, isbnFolder: NodeRef, bookProps: map<QName, PropValue>,
                                init: seq<map<string, string>>)
    requires WellFormed(s) && WellFormed(t) && isbnFolder in s.nodes && isbnFolder in t.nodes
    requires forall n :: n in s.nodes ==> n in t.nodes && t.nodes[n].name == s.nodes[n].name
    requires ChaptersAppended(s, t, isbnFolder, bookProps, init)
    ensures var oldKids := s.nodes[isbnFolder].children;
      var kids := t.nodes[isbnFolder].children;
      (forall k :: 0 <= k < |oldKids| ==> t.nodes[kids[k]].name == s.nodes[oldKids[k]].name) &&
      (forall k :: 0 <= k < |init| ==> t.nodes[kids[|oldKids| + k]].name == ChapterFolderNameOf(init[k]))
  {
    var oldKids := s.nodes[isbnFolder].children;
    var kids := t.nodes[isbnFolder].children;
    forall k | 0 <= k < |oldKids|
      ensures t.nodes[kids[k]].name == s.nodes[oldKids[k]].name
    {
      assert kids[k] == kids[..|oldKids|][k];
    }
    forall k | 0 <= k < |init|
      ensures t.nodes[kids[|oldKids| + k]].name == ChapterFolderNameOf(init[k])
    {
      assert AppendedChapter(s, t, kids[|oldKids| + k], bookProps, init[k]);
    }
  }

  /** One more complete chapter folder appended to the ISBN folder extends what the loop has appended. */
  lemma ChaptersAppendedStep(s: Repo, t1: Repo, t2: Repo, isbnFolder: NodeRef, bookProps: map<QName, PropValue>,
                             init: seq<map<string, string>>, last: map<string, string>, c: NodeRef)
    requires isbnFolder in s.nodes && isbnFolder in t1.nodes && isbnFolder in t2.nodes
    requires forall n :: n in s.nodes ==> n in t1.nodes
    requires ChaptersAppended(s, t1, isbnFolder, bookProps, init)
    requires c !in t1.nodes && c in t2.nodes && t2.nodes[c] == ChapterFolderNode(last, bookProps)
    requires t2.nodes[isbnFolder] == t1.nodes[isbnFolder].(children := t1.nodes[isbnFolder].children + [c])
    requires forall n :: n in t1.nodes && n != isbnFolder ==> n in t2.nodes && t2.nodes[n] == t1.nodes[n]
    ensures ChaptersAppended(s, t2, isbnFolder, bookProps, init + [last])
  {
    var oldKids := s.nodes[isbnFolder].children;
    var kids1 := t1.nodes[isbnFolder].children;
    var kids2 := t2.nodes[isbnFolder].children;
    var chapters := init + [last];
    assert kids2 == kids1 + [c];
    assert |kids1| == |oldKids| + |init|;
    assert kids2[..|oldKids|] == kids1[..|oldKids|];
    assert t1.nodes[isbnFolder] == s.nodes[isbnFolder].(children := kids1);
    assert t2.nodes[isbnFolder] == s.nodes[isbnFolder].(children := kids2);
    forall k | 0 <= k < |chapters|
      ensures AppendedChapter(s, t2, kids2[|oldKids| + k], bookProps, chapters[k])
    {
      if k < |init| {
        var x := kids1[|oldKids| + k];
        assert kids2[|oldKids| + k] == x && chapters[k] == init[k];
        assert AppendedChapter(s, t1, x, bookProps, init[k]);
        assert x != isbnFolder;
      } else {
        assert |oldKids| + k == |kids1|;
        assert kids2[|oldKids| + k] == c && chapters[k] == last;
        assert c !in s.nodes;
      }
    }
  }

  /**
   * What the chapter loop guarantees, whether it succeeds or stops: it succeeds exactly when the
   * chapter folder names are free, and then the ISBN folder gains one complete chapter folder per
   * entry, in list order; a stop is a duplicate-child-name exception. Nodes other than the ISBN
   * folder are never changed, and no node is renamed.
   */
  predicate LoopEffect(s: Repo, t: Repo, r: Result<()>, isbnFolder: NodeRef, bookProps: map<QName, PropValue>,
                       chapters: seq<map<string, string>>)
    requires WellFormed(s) && isbnFolder in s.nodes && isbnFolder in t.nodes
  {
    && (r.Ok? <==> ChapterNamesFree(s, isbnFolder, chapters))
    && (r.Throws? ==> r.exc == DuplicateChildName)
    && (forall n :: n in s.nodes ==> n in t.nodes && t.nodes[n].name == s.nodes[n].name)
    && (forall n :: n in s.nodes && n != isbnFolder ==> t.nodes[n] == s.nodes[n])
    && (r.Ok? ==> ChaptersAppended(s, t, isbnFolder, bookProps, chapters))
  }

  /** The chapter loop has the effect LoopEffect describes, for every chapter list. */
  lemma {:induction false} AddChapterFoldersEffect(s: Repo, isbnFolder: NodeRef, bookProps: map<QName, PropValue>,
                                                   chapters: seq<map<string, string>>)
    requires WellFormed(s) && isbnFolder in s.nodes
    ensures var (t, r) := AddChapterFolders(s, isbnFolder, bookProps, chapters);
      LoopEffect(s, t, r, isbnFolder, bookProps, chapters)
    decreases |chapters|
  {
    if |chapters| == 0 {
      var t := s;
      assert t.nodes[isbnFolder] == s.nodes[isbnFolder].(children := s.nodes[isbnFolder].children);
      assert s.nodes[isbnFolder].children[..|s.nodes[isbnFolder].children|] == s.nodes[isbnFolder].children;
    } else {
      var init := chapters[..|chapters| - 1];
      var last := chapters[|chapters| - 1];
      assert chapters == init + [last];
      AddChapterFoldersEffect(s, isbnFolder, bookProps, init);
      var (t1, r1) := AddChapterFolders(s, isbnFolder, bookProps, init);
      if r1.Ok? {
        AddChapterFoldersStep(s, t1, isbnFolder, bookProps, init, last);
      } else {
        ChapterNamesFreeSplit(s, isbnFolder, init, last);
      }
    }
  }

  /** One more pass after a successful loop over `init`. */
  lemma AddChapterFoldersStep(s: Repo, t1: Repo, isbnFolder: NodeRef, bookProps: map<QName, PropValue>,
                              init: seq<map<string, string>>, last: map<string, string>)
    requires WellFormed(s) && isbnFolder in s.nodes && WellFormed(t1) && isbnFolder in t1.nodes
    requires LoopEffect(s, t1, Ok(()), isbnFolder, bookProps, init)
    ensures var (t2, r2) := AddChapterFolder(t1, isbnFolder, bookProps, last);
      isbnFolder in t2.nodes && LoopEffect(s, t2, r2, isbnFolder, bookProps, init + [last])
  {
    AddChapterFolderEffect(t1, isbnFolder, bookProps, last);
    ChapterNamesFreeSplit(s, isbnFolder, init, last);
    LookupAfterChapters(s, t1, isbnFolder, bookProps, init, ChapterFolderNameOf(last));
    var (t2, r2) := AddChapterFolder(t1, isbnFolder, bookProps, last);
    if r2.Ok? {
      ChaptersAppendedStep(s, t1, t2, isbnFolder, bookProps, init, last, t1.next);
    }
  }

  /**
   * createChapterFolders: under the year folder, an ISBN folder of the book-folder type with the
   * bookInfo aspect (status Missing), then one chapter folder per chapter list entry, each with the
   * bookInfo and chapterInfo aspects (chapter status Missing). A taken name stops it with a
   * duplicate-child-name exception, keeping whatever was created before.
   */
  function CreateChapterFoldersOp(s: Repo, companyHome: NodeRef, year: int, isbn: string,
                                  bookInfo: map<string, string>, chapters: seq<map<string, string>>): (Repo, Result<NodeRef>)
    requires WellFormed(s) && companyHome in s.nodes
  {
    var (s1, base) := BaseFolderForBooksOp(s, companyHome, year);
    if base.Throws? then (s1, Throws(base.exc))
    else BookFolderOp(s1, base.value, isbn, bookInfo, chapters)
  }

  /** The part of createChapterFolders after the year folder: the ISBN folder, its aspect, the chapter loop. */
  function BookFolderOp(s1: Repo, base: NodeRef, isbn: string, bookInfo: map<string, string>,
                        chapters: seq<map<string, string>>): (Repo, Result<NodeRef>)
    requires WellFormed(s1) && base in s1.nodes
  {
    CreateNodeEffect(s1, base, isbn, BookFolderType);
    var (s2, folder) := CreateNodeOp(s1, base, isbn, BookFolderType);
    if folder.Throws? then (s2, Throws(folder.exc))
    else
      var f := folder.value;
      var s3 := AddAspectOp(s2, f, BookInfoAspect, BookInfoProps(isbn, bookInfo));
      UpdateKeepsLookups(s2, f, s3.nodes[f], f, isbn);
      var (s4, res) := AddChapterFolders(s3, f, BookInfoProps(isbn, bookInfo), chapters);
      (s4, if res.Throws? then Throws(res.exc) else Ok(f))
  }

  /** The chapter names of a list, in order, are pairwise different. */
  predicate DistinctChapterNames(chapters: seq<map<string, string>>) {
    forall i, j :: 0 <= i < j < |chapters| ==> ChapterFolderNameOf(chapters[i]) != ChapterFolderNameOf(chapters[j])
  }

  /**
   * A book folder as the set-up leaves it: named after the ISBN, of the book-folder type, with the
   * bookInfo aspect only, and exactly one child per chapter list entry, in list order, each a
   * complete chapter folder.
   */
  predicate BookFolderMade(t: Repo, f: NodeRef, isbn: string, bookInfo: map<string, string>, chapters: seq<map<string, string>>) {
    && f in t.nodes
    && t.nodes[f].name == isbn && t.nodes[f].nodeType == BookFolderType
    && t.nodes[f].aspects == {BookInfoAspect} && t.nodes[f].props == BookInfoProps(isbn, bookInfo)
    && |t.nodes[f].children| == |chapters|
    && forall k :: 0 <= k < |chapters| ==>
         t.nodes[f].children[k] in t.nodes &&
         t.nodes[t.nodes[f].children[k]] == ChapterFolderNode(chapters[k], BookInfoProps(isbn, bookInfo))
  }

  /** From a fresh, empty ISBN folder the chapter loop succeeds exactly when the chapter names differ. */
  lemma BookStageEffect(s3: Repo, f: NodeRef, isbn: string, bookInfo: map<string, string>, chapters: seq<map<string, string>>)
    requires WellFormed(s3) && f in s3.nodes
    requires s3.nodes[f] == Node(isbn, BookFolderType, {BookInfoAspect}, BookInfoProps(isbn, bookInfo), [], None)
    ensures var (t, r) := AddChapterFolders(s3, f, BookInfoProps(isbn, bookInfo), chapters);
      (r.Ok? <==> DistinctChapterNames(chapters)) && (r.Ok? ==> BookFolderMade(t, f, isbn, bookInfo, chapters))
  {
    var bp := BookInfoProps(isbn, bookInfo);
    AddChapterFoldersEffect(s3, f, bp, chapters);
    var (t, r) := AddChapterFolders(s3, f, bp, chapters);
    NamesFreeInEmptyFolder(s3, f, chapters);
    if r.Ok? {
      ChaptersInEmptyFolder(s3, t, f, isbn, bookInfo, chapters);
    }
  }

  /** Under a folder without children, the chapter names are free exactly when they differ. */
  lemma NamesFreeInEmptyFolder(s: Repo, f: NodeRef, chapters: seq<map<string, string>>)
    requires WellFormed(s) && f in s.nodes && s.nodes[f].children == []
    ensures ChapterNamesFree(s, f, chapters) <==> DistinctChapterNames(chapters)
  {
    assert forall k :: 0 <= k < |chapters| ==> ChildByName(s, f, ChapterFolderNameOf(chapters[k])).None?;
  }

  /** Chapter folders appended to the fresh ISBN folder make the book folder. */
  lemma ChaptersInEmptyFolder(s3: Repo, t: Repo, f: NodeRef, isbn: string, bookInfo: map<string, string>,
                              chapters: seq<map<string, string>>)
    requires f in s3.nodes && f in t.nodes
    requires s3.nodes[f] == Node(isbn, BookFolderType, {BookInfoAspect}, BookInfoProps(isbn, bookInfo), [], None)
    requires ChaptersAppended(s3, t, f, BookInfoProps(isbn, bookInfo), chapters)
    ensures BookFolderMade(t, f, isbn, bookInfo, chapters)
  {
    var bp := BookInfoProps(isbn, bookInfo);
    var kids := t.nodes[f].children;
    forall k | 0 <= k < |chapters|
      ensures kids[k] in t.nodes && t.nodes[kids[k]] == ChapterFolderNode(chapters[k], bp)
    {
      assert AppendedChapter(s3, t, kids[0 + k], bp, chapters[k]);
    }
  }

  /**
   * The statuses a made book folder starts with: the book and each of its chapters are Missing, and
   * each chapter folder carries the name its list entry gives.
   */
  lemma BookFolderMadeStatuses(t: Repo, f: NodeRef, isbn: string, bookInfo: map<string, string>, chapters: seq<map<string, string>>)
    requires BookFolderMade(t, f, isbn, bookInfo, chapters)
    ensures t.nodes[f].props[BookMetadataStatusProp] == Text("Missing")
    ensures forall k :: 0 <= k < |chapters| ==>
      t.nodes[t.nodes[f].children[k]].name == ChapterFolderNameOf(chapters[k]) &&
      t.nodes[t.nodes[f].children[k]].props[ChapterMetadataStatusProp] == Text("Missing")
  {
    forall k | 0 <= k < |chapters|
      ensures t.nodes[t.nodes[f].children[k]].props[ChapterMetadataStatusProp] == Text("Missing")
    {
      var bp := BookInfoProps(isbn, bookInfo);
      assert (bp + ChapterInfoProps(chapters[k]))[ChapterMetadataStatusProp] == ChapterInfoProps(chapters[k])[ChapterMetadataStatusProp];
    }
  }

  /**
   * Once the year folder is there and the ISBN is new, the set-up succeeds exactly when the chapter
   * names differ; whenever it succeeds, the book folder it returns is made as the chapter list says.
   */
  lemma CreateChapterFoldersEffect(s: Repo, companyHome: NodeRef, year: int, isbn: string,
                                   bookInfo: map<string, string>, chapters: seq<map<string, string>>)
    requires WellFormed(s) && companyHome in s.nodes
    ensures var (t, r) := CreateChapterFoldersOp(s, companyHome, year, isbn, bookInfo, chapters);
      var (s1, base) := BaseFolderForBooksOp(s, companyHome, year);
      WellFormed(t) &&
      (base.Ok? && ChildByName(s1, base.value, isbn).None? ==> (r.Ok? <==> DistinctChapterNames(chapters))) &&
      (r.Ok? ==> BookFolderMade(t, r.value, isbn, bookInfo, chapters)) &&
      (r.Ok? ==> base.Ok? && base.value in t.nodes && ChildByName(t, base.value, isbn) == Some(r.value))
  {
    var (s1, base) := BaseFolderForBooksOp(s, companyHome, year);
    if base.Ok? {
      CreateNodeEffect(s1, base.value, isbn, BookFolderType);
      var (s2, folder) := CreateNodeOp(s1, base.value, isbn, BookFolderType);
      if folder.Ok? {
        NewBookFolderEffect(s2, folder.value, isbn, bookInfo, chapters);
        BookFolderStaysPut(s2, base.value, folder.value, isbn, bookInfo, chapters);
      }
    }
  }

  /** The aspect and the chapter loop change only the ISBN folder, so its parent still finds it by name. */
  lemma BookFolderStaysPut(s2: Repo, base: NodeRef, f: NodeRef, isbn: string, bookInfo: map<string, string>,
                           chapters: seq<map<string, string>>)
    requires WellFormed(s2) && base in s2.nodes && f in s2.nodes && base != f
    requires ChildByName(s2, base, isbn) == Some(f)
    ensures var bp := BookInfoProps(isbn, bookInfo);
      var s3 := AddAspectOp(s2, f, BookInfoAspect, bp);
      WellFormed(s3) && f in s3.nodes &&
      var t := AddChapterFolders(s3, f, bp, chapters).0;
      base in t.nodes && WellFormed(t) && ChildByName(t, base, isbn) == Some(f)
  {
    var bp := BookInfoProps(isbn, bookInfo);
    var s3 := AddAspectOp(s2, f, BookInfoAspect, bp);
    UpdateKeepsLookups(s2, f, s3.nodes[f], base, isbn);
    AddChapterFoldersEffect(s3, f, bp, chapters);
    var t := AddChapterFolders(s3, f, bp, chapters).0;
    assert t.nodes[base] == s3.nodes[base];
    FindByNameFrame(t.nodes, s3.nodes, s3.nodes[base].children, isbn);
  }

  /** The steps after createNode of the ISBN folder: its bookInfo aspect, then the chapter loop. */
  lemma NewBookFolderEffect(s2: Repo, f: NodeRef, isbn: string, bookInfo: map<string, string>, chapters: seq<map<string, string>>)
    requires WellFormed(s2) && f in s2.nodes && s2.nodes[f] == NewNode(isbn, BookFolderType)
    ensures var bp := BookInfoProps(isbn, bookInfo);
      var s3 := AddAspectOp(s2, f, BookInfoAspect, bp);
      WellFormed(s3) && f in s3.nodes &&
      var (t, r) := AddChapterFolders(s3, f, bp, chapters);
      WellFormed(t) && (r.Ok? <==> DistinctChapterNames(chapters)) && (r.Ok? ==> BookFolderMade(t, f, isbn, bookInfo, chapters))
  {
    var bp := BookInfoProps(isbn, bookInfo);
    var n2 := s2.nodes[f];
    var s3 := AddAspectOp(s2, f, BookInfoAspect, bp);
    UpdateKeepsLookups(s2, f, s3.nodes[f], f, isbn);
    assert s3.nodes[f] == n2.(aspects := n2.aspects + {BookInfoAspect}, props := n2.props + bp);
    assert n2.aspects + {BookInfoAspect} == {BookInfoAspect};
    assert n2.props + bp == bp;
    AddChapterFoldersEffect(s3, f, bp, chapters);
    BookStageEffect(s3, f, isbn, bookInfo, chapters);
  }

  /** getBaseFolderForBooks, on the repository. */
  method BaseFolderForBooks(repo: Repository, companyHome: NodeRef, year: int) returns (r: Result<NodeRef>)
    requires WellFormed(repo.State()) && companyHome in repo.nodes
    modifies repo
    ensures (repo.State(), r) == BaseFolderForBooksOp(old(repo.State()), companyHome, year)
  {
    var docLib := GetNodeByDisplayPath(repo.State(), companyHome, BookManagementSiteDocLibPath());
    if docLib.Throws? {
      return Throws(docLib.exc);
    }
    if docLib.value.None? {
      return Throws(NullPointer);
    }
    GetOrCreateChildEffect(repo.State(), docLib.value.value, IntToString(year), FolderType);
    var folder := GetOrCreateFolder(repo, docLib.value.value, IntToString(year));
    r := Ok(folder);
  }

  /** One pass of createChapterFolders' loop, on the repository. */
  method AddChapterFolderTo(repo: Repository, isbnFolder: NodeRef, bookProps: map<QName, PropValue>,
                            chapterInfo: map<string, string>) returns (r: Result<()>)
    requires WellFormed(repo.State()) && isbnFolder in repo.nodes
    modifies repo
    ensures (repo.State(), r) == AddChapterFolder(old(repo.State()), isbnFolder, bookProps, chapterInfo)
  {
    var chapterFolderName := ChapterFolderNameOf(chapterInfo);
    CreateNodeEffect(repo.State(), isbnFolder, chapterFolderName, ChapterFolderType);
    var chapterFolder := repo.CreateNode(isbnFolder, chapterFolderName, ChapterFolderType);
    if chapterFolder.Throws? {
      return Throws(chapterFolder.exc);
    }
    repo.AddAspect(chapterFolder.value, BookInfoAspect, bookProps);
    repo.AddAspect(chapterFolder.value, ChapterInfoAspect, ChapterInfoProps(chapterInfo));
    r := Ok(());
  }

  /** createChapterFolders. */
  method CreateChapterFolders(repo: Repository, companyHome: NodeRef, year: int, isbn: string,
                              bookInfo: map<string, string>, chapterList: seq<map<string, string>>) returns (r: Result<NodeRef>)
    requires WellFormed(repo.State()) && companyHome in repo.nodes
    modifies repo
    ensures (repo.State(), r) == CreateChapterFoldersOp(old(repo.State()), companyHome, year, isbn, bookInfo, chapterList)
  {
    var publishingYear := BaseFolderForBooks(repo, companyHome, year);
    if publishingYear.Throws? {
      return Throws(publishingYear.exc);
    }
    r := CreateBookFolder(repo, publishingYear.value, isbn, bookInfo, chapterList);
  }

  /** createChapterFolders after the year folder is known: the ISBN folder, its aspect and the chapter loop. */
  method CreateBookFolder(repo: Repository, base: NodeRef, isbn: string,
                          bookInfo: map<string, string>, chapterList: seq<map<string, string>>) returns (r: Result<NodeRef>)
    requires WellFormed(repo.State()) && base in repo.nodes
    modifies repo
    ensures (repo.State(), r) == BookFolderOp(old(repo.State()), base, isbn, bookInfo, chapterList)
  {
    CreateNodeEffect(repo.State(), base, isbn, BookFolderType);
    var isbnFolder := repo.CreateNode(base, isbn, BookFolderType);
    if isbnFolder.Throws? {
      return Throws(isbnFolder.exc);
    }
    var f := isbnFolder.value;
    var bookInfoAspectProps := BookInfoProps(isbn, bookInfo);
    ghost var s2 := repo.State();
    repo.AddAspect(f, BookInfoAspect, bookInfoAspectProps);
    UpdateKeepsLookups(s2, f, repo.nodes[f], f, isbn);
    var added := AddChapterFoldersTo(repo, f, bookInfoAspectProps, chapterList);
    r := if added.Throws? then Throws(added.exc) else Ok(f);
  }

  /** The chapter loop of createChapterFolders: one chapter folder per entry, stopping at the first refused create. */
  method AddChapterFoldersTo(repo: Repository, f: NodeRef, bookProps: map<QName, PropValue>,
                             chapterList: seq<map<string, string>>) returns (r: Result<()>)
    requires WellFormed(repo.State()) && f in repo.nodes
    modifies repo
    ensures (repo.State(), r) == AddChapterFolders(old(repo.State()), f, bookProps, chapterList)
  {
    ghost var s3 := repo.State();
    for i := 0 to |chapterList|
      invariant WellFormed(repo.State()) && f in repo.nodes
      invariant (repo.State(), Ok(())) == AddChapterFolders(s3, f, bookProps, chapterList[..i])
    {
      AddChaptersPrefixStep(s3, f, bookProps, chapterList, i);
      var added := AddChapterFolderTo(repo, f, bookProps, chapterList[i]);
      if added.Throws? {
        AddChaptersStop(s3, f, bookProps, chapterList, i + 1);
        return added;
      }
    }
    assert chapterList[..|chapterList|] == chapterList;
    r := Ok(());
  }

  /** After a successful loop over the first i entries, the next pass is the loop over the first i + 1. */
  lemma AddChaptersPrefixStep(s: Repo, isbnFolder: NodeRef, bookProps: map<QName, PropValue>,
                              chapters: seq<map<string, string>>, i: nat)
    requires WellFormed(s) && isbnFolder in s.nodes && i < |chapters|
    requires AddChapterFolders(s, isbnFolder, bookProps, chapters[..i]).1.Ok?
    ensures AddChapterFolders(s, isbnFolder, bookProps, chapters[..i + 1]) ==
      AddChapterFolder(AddChapterFolders(s, isbnFolder, bookProps, chapters[..i]).0, isbnFolder, bookProps, chapters[i])
  {
    assert chapters[..i + 1][..i] == chapters[..i];
  }

  /** Once the chapter loop has stopped at some entry, it stays stopped for every longer prefix. */
  lemma {:induction false} AddChaptersStop(s: Repo, isbnFolder: NodeRef, bookProps: map<QName, PropValue>,
                                           chapters: seq<map<string, string>>, i: nat)
    requires WellFormed(s) && isbnFolder in s.nodes && i <= |chapters|
    requires AddChapterFolders(s, isbnFolder, bookProps, chapters[..i]).1.Throws?
    ensures AddChapterFolders(s, isbnFolder, bookProps, chapters) == AddChapterFolders(s, isbnFolder, bookProps, chapters[..i])
    decreases |chapters| - i
  {
    if i < |chapters| {
      assert chapters[..i + 1][..i] == chapters[..i];
      AddChaptersStop(s, isbnFolder, bookProps, chapters, i + 1);
    } else {
      assert chapters[..i] == chapters;
    }
  }

  /**
   * Creating and resolving agree: after the set-up, a chapter file whose three-digit field has the
   * value n (at most 200) resolves to the chapter folder whose number property is n written without
   * leading zeros.
   */
  lemma CreatedChapterIsResolved(s: Repo, companyHome: NodeRef, year: int, isbn: string,
                                 bookInfo: map<string, string>, chapters: seq<map<string, string>>,
                                 k: nat, prefix: string, digits: string, ext: string)
    requires WellFormed(s) && companyHome in s.nodes
    requires CreateChapterFoldersOp(s, companyHome, year, isbn, bookInfo, chapters).1.Ok?
    requires k < |chapters| && |digits| == 3 && AllDigits(digits) && '.' !in ext && DigitsValue(digits) <= 200
    requires Property(chapters[k], ChapterMetadataNumberPropName) == Some(NatToString(DigitsValue(digits)))
    ensures var (t, r) := CreateChapterFoldersOp(s, companyHome, year, isbn, bookInfo, chapters);
      WellFormed(t) && r.value in t.nodes && k < |t.nodes[r.value].children| &&
      GetChapterDestinationFolder(t, prefix + digits + "." + ext, r.value) == Ok(Some(t.nodes[r.value].children[k]))
  {
    var (t, r) := CreateChapterFoldersOp(s, companyHome, year, isbn, bookInfo, chapters);
    CreateChapterFoldersEffect(s, companyHome, year, isbn, bookInfo, chapters);
    var f := r.value;
    assert BookFolderMade(t, f, isbn, bookInfo, chapters);
    var kids := t.nodes[f].children;
    assert t.nodes[kids[k]].name == ChapterFolderName(NatToString(DigitsValue(digits)));
    ChildByNameOfChild(t, f, k);
    ChapterDestinationOfNumberedName(t, f, prefix, digits, ext);
  }

  // ---------------------------------------------------------------- modification dates

  /**
   * The loop of checkModifiedDates over the search results' modification dates: the latest one
   * strictly after `publishedDate`, or null. Dereferencing a null date fails.
   */
  function LatestAfter(dates: seq<Option<int>>, publishedDate: int): (r: Result<Option<int>>)
    ensures r.Ok? <==> forall k :: 0 <= k < |dates| ==> dates[k].Some?
    ensures r.Throws? ==> r.exc == NullPointer
    ensures r.Ok? && r.value.Some? ==> r.value.value > publishedDate && r.value in dates
    ensures r.Ok? ==> forall k :: 0 <= k < |dates| && dates[k].value > publishedDate ==>
      r.value.Some? && dates[k].value <= r.value.value
    decreases |dates|
  {
    if |dates| == 0 then Ok(None)
    else
      var init := dates[..|dates| - 1];
      var latest := LatestAfter(init, publishedDate);
      var d := dates[|dates| - 1];
      assert dates == init + [d];
      if latest.Throws? then latest
      else if d.None? then Throws(NullPointer)
      else if d.value > publishedDate && (latest.value.None? || d.value > latest.value.value) then Ok(d)
      else latest
  }

  /** The two-argument checkModifiedDates: a null published date is refused. */
  function CheckModifiedDatesOp(publishedDate: Option<int>, dates: seq<Option<int>>): Result<Option<int>> {
    if publishedDate.None? then Throws(IllegalArgument) else LatestAfter(dates, publishedDate.value)
  }

  /** NodeService.getProperty for a date property: its value, or null when unset or not a date. */
  function DateProp(s: Repo, n: NodeRef, q: QName): Option<int>
    requires n in s.nodes
  {
    var props := s.nodes[n].props;
    if q in props && props[q].Date? then Some(props[q].millis) else None
  }

  /** The cm:modified dates of the search results, in result order. */
  function ModifiedDates(s: Repo, results: seq<NodeRef>): (r: seq<Option<int>>)
    requires forall k :: 0 <= k < |results| ==> results[k] in s.nodes
    ensures |r| == |results| && forall k :: 0 <= k < |results| ==> r[k] == DateProp(s, results[k], ModifiedProp)
  {
    seq(|results|, k requires 0 <= k < |results| => DateProp(s, results[k], ModifiedProp))
  }

  /**
   * checkModifiedDates(nodeRef, publishedDate). The search for nodes under `nodeRef` modified since
   * the published date is done by the search service; its results are given.
   */
  method CheckModifiedDates(repo: Repository, publishedDate: Option<int>, modifiedNodes: seq<NodeRef>)
    returns (r: Result<Option<int>>)
    requires forall k :: 0 <= k < |modifiedNodes| ==> modifiedNodes[k] in repo.nodes
    ensures r == CheckModifiedDatesOp(publishedDate, ModifiedDates(repo.State(), modifiedNodes))
  {
    if publishedDate.None? {
      return Throws(IllegalArgument);
    }
    ghost var dates := ModifiedDates(repo.State(), modifiedNodes);
    var latestModificationDate: Option<int> := None;
    for i := 0 to |modifiedNodes|
      invariant LatestAfter(dates[..i], publishedDate.value) == Ok(latestModificationDate)
    {
      assert dates[..i + 1][..i] == dates[..i];
      var modifiedDate := DateProp(repo.State(), modifiedNodes[i], ModifiedProp);
      if modifiedDate.None? {
        assert LatestAfter(dates[..i + 1], publishedDate.value).Throws?;
        assert dates[..i + 1] == dates[..|dates|][..i + 1];
        LatestAfterStops(dates, publishedDate.value, i + 1);
        return Throws(NullPointer);
      }
      if modifiedDate.value > publishedDate.value {
        if latestModificationDate.None? {
          latestModificationDate := modifiedDate;
        } else if modifiedDate.value > latestModificationDate.value {
          latestModificationDate := modifiedDate;
        }
      }
    }
    assert dates[..|modifiedNodes|] == dates;
    r := Ok(latestModificationDate);
  }

  /** A null date met by the loop decides the outcome of the whole loop. */
  lemma {:induction false} LatestAfterStops(dates: seq<Option<int>>, publishedDate: int, i: nat)
    requires i <= |dates| && LatestAfter(dates[..i], publishedDate).Throws?
    ensures LatestAfter(dates, publishedDate) == LatestAfter(dates[..i], publishedDate)
    decreases |dates| - i
  {
    if i < |dates| {
      assert dates[..i + 1][..i] == dates[..i];
      LatestAfterStops(dates, publishedDate, i + 1);
    } else {
      assert dates[..i] == dates;
    }
  }

  /**
   * checkModifiedDates(nodeRef): no published date stored gives null, never the null-date
   * exception; otherwise the two-argument result for the stored date.
   */
  method CheckModifiedDatesOfNode(repo: Repository, node: NodeRef, modifiedNodes: seq<NodeRef>) returns (r: Result<Option<int>>)
    requires node in repo.nodes
    requires forall k :: 0 <= k < |modifiedNodes| ==> modifiedNodes[k] in repo.nodes
    ensures DateProp(repo.State(), node, WebPublishedDateProp).None? ==> r == Ok(None)
    ensures DateProp(repo.State(), node, WebPublishedDateProp).Some? ==>
      r == CheckModifiedDatesOp(DateProp(repo.State(), node, WebPublishedDateProp), ModifiedDates(repo.State(), modifiedNodes))
    ensures r != Throws(IllegalArgument)
  {
    var publishedDate := DateProp(repo.State(), node, WebPublishedDateProp);
    if publishedDate.Some? {
      r := CheckModifiedDates(repo, publishedDate, modifiedNodes);
    } else {
      r := Ok(None);
    }
  }

  // ---------------------------------------------------------------- formatting

  /** formatDate: null for a null date, else the date in the pattern (the formatter is a parameter). */
  function FormatDate(pattern: string, date: Option<int>, format: (string, int) -> string): (r: Option<string>)
    ensures r.None? <==> date.None?
    ensures r.Some? ==> r.value == format(pattern, date.value)
  {
    if date.None? then None else Some(format(pattern, date.value))
  }

  // ---------------------------------------------------------------- the local filesystem

  /**
   * findFilesUsingExtension: the entries of the folder whose path's extension equals `extension`
   * ignoring case; null when the folder is not a directory.
   */
  function FindFilesUsingExtension(root: FsNode, folder: string, extension: string): Option<set<string>> {
    match ListNames(root, PathOf(folder))
    case None => None
    case Some(names) =>
      Some(set name | name in names && EqualsIgnoreCase(Extension(folder + "/" + name), extension))
  }

  /**
   * The filter keeps exactly the direct entries whose own extension equals the argument ignoring
   * case, and the case in which the argument is written does not matter.
   */
  lemma FindFilesUsingExtensionMeaning(root: FsNode, folder: string, extension: string)
    ensures var r := FindFilesUsingExtension(root, folder, extension);
      (r.None? <==> !IsDirectory(root, PathOf(folder))) &&
      (r.Some? ==> forall name :: name in r.value <==>
         name in ListNames(root, PathOf(folder)).value && ('/' !in name ==> EqualsIgnoreCase(Extension(name), extension))
         && ('/' in name ==> EqualsIgnoreCase(Extension(folder + "/" + name), extension))) &&
      r == FindFilesUsingExtension(root, folder, ToLower(extension))
  {
    forall name | '/' !in name {
      ExtensionOfChildPath(folder, name);
    }
    forall a: string | true ensures EqualsIgnoreCase(a, extension) == EqualsIgnoreCase(a, ToLower(extension)) {
      EqualsIgnoreCaseToLower(a, extension);
    }
    FindFilesCaseBlind(root, folder, extension);
  }

  /** Comparing ignoring case against a string or against its lower-case form is the same. */
  lemma EqualsIgnoreCaseToLower(a: string, e: string)
    ensures EqualsIgnoreCase(a, e) == EqualsIgnoreCase(a, ToLower(e))
  {
    var l := ToLower(e);
    assert forall k :: 0 <= k < |e| ==> ToLowerChar(l[k]) == ToLowerChar(e[k]);
  }

  /** The extension filter does not depend on the case in which the extension is written. */
  lemma FindFilesCaseBlind(root: FsNode, folder: string, extension: string)
    ensures FindFilesUsingExtension(root, folder, extension) == FindFilesUsingExtension(root, folder, ToLower(extension))
  {
    var names := ListNames(root, PathOf(folder));
    if names.Some? {
      var lower := ToLower(extension);
      forall name | name in names.value
        ensures EqualsIgnoreCase(Extension(folder + "/" + name), extension) ==
                EqualsIgnoreCase(Extension(folder + "/" + name), lower)
      {
        EqualsIgnoreCaseToLower(Extension(folder + "/" + name), extension);
      }
      var x := set name | name in names.value && EqualsIgnoreCase(Extension(folder + "/" + name), extension);
      var y := set name | name in names.value && EqualsIgnoreCase(Extension(folder + "/" + name), lower);
      assert x == y;
    }
  }

  /**
   * moveZipToDirForFailedProcessing: the failedProcessing directory under `dirPath` is created
   * when missing (a failed mkdir is an illegal-argument exception), then the ZIP is moved into it
   * under its own name, replacing any file of that name; a failed move is an IOException.
   */
  function MoveZipToFailedOp(root: FsNode, zip: Path, dirPath: string): (FsNode, Result<()>) {
    var failedDir := PathOf(dirPath + "/" + FailedProcessingDirName);
    var (r1, made) := if Exists(root, failedDir) then (root, true) else MkdirOp(root, failedDir);
    if !made then (r1, Throws(IllegalArgument))
    else
      var target := failedDir + [if |zip| > 0 then zip[|zip| - 1] else ""];
      var (r2, moved) := MoveOp(r1, zip, target);
      (r2, if moved then Ok(()) else Throws(IOFailure))
  }

  const FailedProcessingDirName: string := "failedProcessing"

  /** The path of a child named without a '/' is the directory's path and that name. */
  lemma ChildPath(dirPath: string, name: string)
    requires |name| > 0 && forall k :: 0 <= k < |name| ==> name[k] != '/'
    ensures PathOf(dirPath + "/" + name) == PathOf(dirPath) + [name]
  {
    SplitAppend(dirPath, name, '/');
    assert dirPath + "/" + name == dirPath + ['/'] + name;
    assert IndexOf(name, '/') == -1;
  }

  /** The quarantine directory is the failedProcessing entry of the scanned directory. */
  lemma FailedDirPath(dirPath: string)
    ensures PathOf(dirPath + "/" + FailedProcessingDirName) == PathOf(dirPath) + [FailedProcessingDirName]
  {
    ChildPath(dirPath, FailedProcessingDirName);
  }

  /**
   * After a successful quarantine of a ZIP lying outside the failedProcessing directory, the ZIP is
   * gone from where it was, the directory holds it under its own name, and paths apart from both
   * are untouched. An existing directory is not re-created, and a failed mkdir changes nothing.
   */
  lemma MoveZipToFailedEffect(root: FsNode, zip: Path, dirPath: string)
    requires |zip| > 0
    ensures var failedDir := PathOf(dirPath) + [FailedProcessingDirName];
      var target := failedDir + [zip[|zip| - 1]];
      var (r, res) := MoveZipToFailedOp(root, zip, dirPath);
      (res == Throws(IllegalArgument) ==> r == root && !Exists(root, failedDir)) &&
      (Exists(root, failedDir) ==> (r, res.Ok?) == MoveOp(root, zip, target)) &&
      (res.Ok? && Diverge(zip, failedDir) ==>
        Get(r, target) == Get(root, zip) && !Exists(r, zip) &&
        forall q :: Diverge(zip, q) && Diverge(failedDir, q) ==> Get(r, q) == Get(root, q))
  {
    FailedDirPath(dirPath);
    var failedDir := PathOf(dirPath) + [FailedProcessingDirName];
    var target := failedDir + [zip[|zip| - 1]];
    var (r1, made) := if Exists(root, failedDir) then (root, true) else MkdirOp(root, failedDir);
    MkdirEffect(root, failedDir);
    MoveEffect(r1, zip, target);
    var (r, res) := MoveZipToFailedOp(root, zip, dirPath);
    if res.Ok? && Diverge(zip, failedDir) {
      var i :| 0 <= i < |zip| && i < |failedDir| && zip[i] != failedDir[i];
      assert target[i] == failedDir[i];
      assert Diverge(failedDir, zip);
      assert Get(r1, zip) == Get(root, zip);
      forall q | Diverge(zip, q) && Diverge(failedDir, q) ensures Get(r, q) == Get(root, q) {
        var j :| 0 <= j < |failedDir| && j < |q| && failedDir[j] != q[j];
        assert target[j] == failedDir[j];
        assert Diverge(target, q);
      }
    }
  }

  /** moveZipToDirForFailedProcessing. */
  method MoveZipToDirForFailedProcessing(fs: FileSystem, zip: Path, dirPath: string) returns (r: Result<()>)
    modifies fs
    ensures (fs.root, r) == MoveZipToFailedOp(old(fs.root), zip, dirPath)
  {
    var failedMetadataDirectory := PathOf(dirPath + "/" + FailedProcessingDirName);
    if !Exists(fs.root, failedMetadataDirectory) {
      var success := fs.Mkdir(failedMetadataDirectory);
      if !success {
        return Throws(IllegalArgument);
      }
    }
    var target := failedMetadataDirectory + [if |zip| > 0 then zip[|zip| - 1] else ""];
    r := fs.Move(zip, target);
  }
}
