/**
 * The legacy (marversolutions) BestPubUtilsServiceImpl where it differs from the acme one: its own
 * chapter-file naming, the ISBN filter guard of applySurveyMetadata, the disabled one-argument
 * checkModifiedDates, and removeSpecialCharacters (present, unused, in both implementations).
 * Its findFilesUsingExtension, formatDate, isISBN, getISBNfromFilename, two-argument
 * checkModifiedDates and moveZipToDirForFailedProcessing are the acme ones statement for
 * statement, and are the BestPubUtils members.
 */
module LegacyBestPubUtils {
  import opened Wrappers
  import opened JavaText
  import opened ContentStore
  import opened BestPubContentModel
  import opened BestPubUtils

  // ---------------------------------------------------------------- chapter folders

  /**
   * The legacy getChapterDestinationFolder, for names such as 9780203807217-chapter8.pdf: the text
   * between the first '-' and the last '.', lower-cased, is the chapter folder's name. A blank field
   * gives null without a lookup; a last '.' before the first '-' (or no '.') makes substring throw.
   */
  function LegacyChapterDestinationFolder(s: Repo, fileName: string, destIsbnFolder: NodeRef): (r: Result<Option<NodeRef>>)
    requires WellFormed(s) && destIsbnFolder in s.nodes
    ensures r.Throws? <==> LastIndexOf(fileName, '.') < IndexOf(fileName, '-') + 1
    ensures r.Throws? ==> r.exc == IndexOutOfBounds
    ensures r.Ok? ==> r.value == ChapterFolderOfField(s, destIsbnFolder, fileName[IndexOf(fileName, '-') + 1..LastIndexOf(fileName, '.')])
  {
    match Substring(fileName, IndexOf(fileName, '-') + 1, LastIndexOf(fileName, '.'))
    case Throws(e) => Throws(e)
    case Ok(chapterFolderName) => Ok(ChapterFolderOfField(s, destIsbnFolder, chapterFolderName))
  }

  /**
   * The lookup once the chapter field is cut out: null for a blank field, otherwise the child of
   * the book folder whose name is the field lower-cased (null when there is none).
   */
  function ChapterFolderOfField(s: Repo, destIsbnFolder: NodeRef, field: string): (r: Option<NodeRef>)
    requires WellFormed(s) && destIsbnFolder in s.nodes
    ensures IsBlank(Some(field)) ==> r.None?
    ensures r.Some? ==> r.value in s.nodes[destIsbnFolder].children && s.nodes[r.value].name == ToLower(field)
  {
    if IsBlank(Some(field)) then None else ChildByName(s, destIsbnFolder, ToLower(field))
  }

  /**
   * A name made of a dash-free prefix, '-', a field, '.' and a dot-free extension resolves by the
   * field alone.
   */
  lemma LegacyChapterOfName(s: Repo, dest: NodeRef, isbn: string, field: string, ext: string)
    requires WellFormed(s) && dest in s.nodes
    requires '-' !in isbn && '.' !in ext
    ensures LegacyChapterDestinationFolder(s, isbn + "-" + field + "." + ext, dest) == Ok(ChapterFolderOfField(s, dest, field))
  {
    var name := isbn + "-" + field + "." + ext;
    FirstDashOfName(isbn, field, ext);
    LastDotOfName(isbn, field, ext);
    FieldSlice(isbn, field, ext);
    LegacyChapterOfSlice(s, dest, name, |isbn|, |isbn| + 1 + |field|, field);
  }

  /** Once the first '-' and the last '.' are known, the lookup is by the text between them. */
  lemma LegacyChapterOfSlice(s: Repo, dest: NodeRef, name: string, dash: nat, dot: nat, field: string)
    requires WellFormed(s) && dest in s.nodes
    requires IndexOf(name, '-') == dash && LastIndexOf(name, '.') == dot && dash < dot
    requires name[dash + 1..dot] == field
    ensures LegacyChapterDestinationFolder(s, name, dest) == Ok(ChapterFolderOfField(s, dest, field))
  {
  }

  /** The first '-' of such a name is the one after the prefix. */
  lemma FirstDashOfName(isbn: string, field: string, ext: string)
    requires '-' !in isbn
    ensures IndexOf(isbn + "-" + field + "." + ext, '-') == |isbn|
  {
    assert isbn + "-" + field + "." + ext == isbn + ['-'] + (field + "." + ext);
    IndexOfAfterFree(isbn, '-', field + "." + ext);
  }

  /** The last '.' of such a name is the one before the extension. */
  lemma LastDotOfName(isbn: string, field: string, ext: string)
    requires '.' !in ext
    ensures LastIndexOf(isbn + "-" + field + "." + ext, '.') == |isbn| + 1 + |field|
  {
    LastDotBeforeExtension(isbn + "-" + field, ext);
  }

  /** The field sits right after the prefix and its dash. */
  lemma FieldSlice(isbn: string, field: string, ext: string)
    ensures (isbn + "-" + field + "." + ext)[|isbn| + 1..|isbn| + 1 + |field|] == field
  {
  }

  /** The documented example: 9780203807217-chapter8.pdf belongs in the folder chapter8. */
  lemma LegacyChapterExample(s: Repo, dest: NodeRef)
    requires WellFormed(s) && dest in s.nodes
    ensures LegacyChapterDestinationFolder(s, "9780203807217" + "-" + "chapter8" + "." + "pdf", dest) ==
      Ok(ChildByName(s, dest, "chapter8"))
  {
    ExampleParts(s, dest);
    LegacyChapterOfName(s, dest, "9780203807217", "chapter8", "pdf");
  }

  /** The pieces of the example name: a dash-free ISBN, a lower-case field, a dot-free extension. */
  lemma ExampleParts(s: Repo, dest: NodeRef)
    requires WellFormed(s) && dest in s.nodes
    ensures '-' !in "9780203807217" && '.' !in "pdf"
    ensures ChapterFolderOfField(s, dest, "chapter8") == ChildByName(s, dest, "chapter8")
  {
    assert !IsWhitespace("chapter8"[0]);
    LowerCaseField(s, dest, "chapter8");
  }

  /** A field that is not blank and already lower case names its folder directly. */
  lemma LowerCaseField(s: Repo, dest: NodeRef, field: string)
    requires WellFormed(s) && dest in s.nodes
    requires |field| > 0 && !IsWhitespace(field[0]) && forall k :: 0 <= k < |field| ==> !('A' <= field[k] <= 'Z')
    ensures ChapterFolderOfField(s, dest, field) == ChildByName(s, dest, field)
  {
    assert ToLower(field) == field;
  }

  /** The lookup ignores the case of the field: Chapter8 and chapter8 name the same folder. */
  lemma LegacyChapterCaseBlind(s: Repo, dest: NodeRef, isbn: string, field: string, ext: string)
    requires WellFormed(s) && dest in s.nodes
    requires '-' !in isbn && '.' !in ext
    ensures LegacyChapterDestinationFolder(s, isbn + "-" + field + "." + ext, dest) ==
            LegacyChapterDestinationFolder(s, isbn + "-" + ToLower(field) + "." + ext, dest)
  {
    LegacyChapterOfName(s, dest, isbn, field, ext);
    LegacyChapterOfName(s, dest, isbn, ToLower(field), ext);
    FieldCaseBlind(s, dest, field);
  }

  /** Lower-casing the field first changes nothing. */
  lemma FieldCaseBlind(s: Repo, dest: NodeRef, field: string)
    requires WellFormed(s) && dest in s.nodes
    ensures ChapterFolderOfField(s, dest, field) == ChapterFolderOfField(s, dest, ToLower(field))
  {
    var lower := ToLower(field);
    assert forall k :: 0 <= k < |field| ==> (IsWhitespace(field[k]) <==> IsWhitespace(lower[k]));
    assert ToLower(lower) == lower;
  }

  // ---------------------------------------------------------------- modification dates

  /**
   * The legacy one-argument checkModifiedDates: its body is commented out, so it answers null for
   * every node, never consulting the published date.
   */
  function LegacyCheckModifiedDatesOfNode(s: Repo, node: NodeRef): (r: Result<Option<int>>)
    requires node in s.nodes
    ensures r == Ok(None)
  {
    Ok(None)
  }

  /**
   * Where the acme one-argument check reports a change (a published date is stored and a node was
   * modified after it), the legacy one reports none.
   */
  lemma LegacyMissesModification(s: Repo, node: NodeRef, dates: seq<Option<int>>, k: nat)
    requires node in s.nodes && DateProp(s, node, WebPublishedDateProp).Some?
    requires forall j :: 0 <= j < |dates| ==> dates[j].Some?
    requires k < |dates| && dates[k].value > DateProp(s, node, WebPublishedDateProp).value
    ensures CheckModifiedDatesOp(DateProp(s, node, WebPublishedDateProp), dates).Ok?
    ensures CheckModifiedDatesOp(DateProp(s, node, WebPublishedDateProp), dates).value.Some?
    ensures LegacyCheckModifiedDatesOfNode(s, node).value.None?
  {
    var p := DateProp(s, node, WebPublishedDateProp).value;
    assert dates[k].value > p;
  }

  // ---------------------------------------------------------------- the ISBN filter

  /**
   * isRhoISBN: whether the ISBN occurs in the text of the ISBN filter file. The file's bytes are
   * what getDocumentContentBytes returned for it (null when it has no readable content) and
   * `decode` is the UTF-8 decoding; decoding null bytes is a NullPointerException.
   */
  function IsRhoIsbn(filterBytes: Option<seq<byte>>, decode: seq<byte> -> string, isbn: string): (r: Result<bool>)
    ensures r.Throws? <==> filterBytes.None?
    ensures r.Throws? ==> r.exc == NullPointer
    ensures r.Ok? ==> (r.value <==> exists i: nat :: OccursAt(decode(filterBytes.value), isbn, i))
  {
    if filterBytes.None? then Throws(NullPointer)
    else
      ContainsMeaning(decode(filterBytes.value), isbn);
      Ok(Contains(decode(filterBytes.value), isbn))
  }

  /**
   * The guard at the start of applySurveyMetadata: unless the book's ISBN is in the filter file,
   * nothing is changed. What the method then sets (`populate`) is built from survey types that are
   * not part of this model.
   */
  function ApplySurveyMetadataOp(s: Repo, filterBytes: Option<seq<byte>>, decode: seq<byte> -> string,
                                 isbn: string, populate: Repo -> Repo): (r: (Repo, Result<()>))
    ensures IsRhoIsbn(filterBytes, decode, isbn) != Ok(true) ==> r.0 == s
    ensures IsRhoIsbn(filterBytes, decode, isbn) == Ok(true) ==> r == (populate(s), Ok(()))
    ensures r.1.Throws? <==> filterBytes.None?
  {
    match IsRhoIsbn(filterBytes, decode, isbn)
    case Throws(e) => (s, Throws(e))
    case Ok(rho) => if !rho then (s, Ok(())) else (populate(s), Ok(()))
  }

  /** An ISBN that the filter text does not contain leaves the node untouched. */
  lemma NonRhoIsbnIsSkipped(s: Repo, filterText: seq<byte>, decode: seq<byte> -> string, isbn: string,
                            populate: Repo -> Repo)
    requires forall i: nat :: !OccursAt(decode(filterText), isbn, i)
    ensures ApplySurveyMetadataOp(s, Some(filterText), decode, isbn, populate) == (s, Ok(()))
  {
    ContainsMeaning(decode(filterText), isbn);
  }

  // ---------------------------------------------------------------- sanitizing

  /** removeSpecialCharacters: deletes <b>, </b>, <i>, </i> and >>, one pass each, in that order. */
  function RemoveSpecialCharacters(source: string): (r: string)
    ensures |r| <= |source|
  {
    RemoveAll(RemoveAll(RemoveAll(RemoveAll(RemoveAll(source, "<b>"), "</b>"), "<i>"), "</i>"), ">>")
  }

  /** A string holding none of the five markers comes back unchanged. */
  lemma SanitizeUnchanged(source: string)
    requires !Contains(source, "<b>") && !Contains(source, "</b>") && !Contains(source, "<i>")
    requires !Contains(source, "</i>") && !Contains(source, ">>")
    ensures RemoveSpecialCharacters(source) == source
  {
    RemoveAllAbsent(source, "<b>");
    RemoveAllAbsent(source, "</b>");
    RemoveAllAbsent(source, "<i>");
    RemoveAllAbsent(source, "</i>");
    RemoveAllAbsent(source, ">>");
  }

  /** The characters the markers are made of. */
  predicate MarkerChar(c: char) {
    c == '<' || c == '>' || c == '/' || c == 'b' || c == 'i'
  }

  /** The characters of `s` that cannot belong to a marker, in order. */
  function Plain(s: string): (r: string)
    ensures |r| <= |s|
  {
    if |s| == 0 then [] else (if MarkerChar(s[0]) then [] else [s[0]]) + Plain(s[1..])
  }

  /** Plain distributes over concatenation. */
  lemma {:induction false} PlainAppend(a: string, b: string)
    ensures Plain(a + b) == Plain(a) + Plain(b)
    decreases |a|
  {
    if |a| == 0 {
      assert a + b == b;
    } else {
      assert (a + b)[0] == a[0];
      assert (a + b)[1..] == a[1..] + b;
      PlainAppend(a[1..], b);
    }
  }

  /** A string of marker characters has no plain characters. */
  lemma {:induction false} PlainOfMarker(p: string)
    requires forall k :: 0 <= k < |p| ==> MarkerChar(p[k])
    ensures Plain(p) == []
    decreases |p|
  {
    if |p| > 0 {
      PlainOfMarker(p[1..]);
    }
  }

  /** Deleting occurrences of a marker keeps every plain character, in order. */
  lemma {:induction false} RemoveAllKeepsPlain(s: string, p: string)
    requires |p| > 0 && forall k :: 0 <= k < |p| ==> MarkerChar(p[k])
    ensures Plain(RemoveAll(s, p)) == Plain(s)
    decreases |s|
  {
    if |s| > 0 {
      if StartsWith(s, p) {
        RemoveAllKeepsPlain(s[|p|..], p);
        assert s == p + s[|p|..];
        PlainAppend(p, s[|p|..]);
        PlainOfMarker(p);
      } else {
        RemoveAllKeepsPlain(s[1..], p);
        PlainAppend([s[0]], RemoveAll(s[1..], p));
      }
    }
  }

  /** Sanitizing deletes only marker characters: every other character survives, in order. */
  lemma SanitizeKeepsPlain(source: string)
    ensures Plain(RemoveSpecialCharacters(source)) == Plain(source)
  {
    var s1 := RemoveAll(source, "<b>");
    var s2 := RemoveAll(s1, "</b>");
    var s3 := RemoveAll(s2, "<i>");
    var s4 := RemoveAll(s3, "</i>");
    RemoveAllKeepsPlain(source, "<b>");
    RemoveAllKeepsPlain(s1, "</b>");
    RemoveAllKeepsPlain(s2, "<i>");
    RemoveAllKeepsPlain(s3, "</i>");
    RemoveAllKeepsPlain(s4, ">>");
  }
}
