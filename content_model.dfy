/** The bestpub content model: status enums, type/aspect/property names and the genre list. */
module BestPubContentModel {
  /** An Alfresco qualified name: a namespace URI and a local name. */
  datatype QName = QName(namespace: string, localName: string)

  const NamespaceUri: string := "http://www.acme.org/model/content/publishing/1.0"
  const NamespacePrefix: string := "bookpub"

  /** A name in the bestpub namespace. */
  function Bestpub(localName: string): (q: QName)
    ensures q.namespace == NamespaceUri && q.localName == localName
  {
    QName(NamespaceUri, localName)
  }

  /** The states an ISBN folder passes through while incoming content is imported. */
  datatype IngestionStatus = InProgress | Complete

  function IngestionStatusText(s: IngestionStatus): string {
    match s
    case InProgress => "In Progress"
    case Complete => "Complete"
  }

  /** The states of a book's metadata, judged over its chapter folders. */
  datatype BookMetadataStatus = BookMissing | BookPartial | BookCompleted

  function BookMetadataStatusText(s: BookMetadataStatus): string {
    match s
    case BookMissing => "Missing"
    case BookPartial => "Partial"
    case BookCompleted => "Completed"
  }

  /** The states of one chapter's metadata. */
  datatype ChapterMetadataStatus = ChapterMissing | ChapterCompleted

  function ChapterMetadataStatusText(s: ChapterMetadataStatus): string {
    match s
    case ChapterMissing => "Missing"
    case ChapterCompleted => "Completed"
  }

  /** Within each enum, toString tells the values apart. */
  lemma StatusTextsInjective()
    ensures forall a, b :: IngestionStatusText(a) == IngestionStatusText(b) ==> a == b
    ensures forall a, b :: BookMetadataStatusText(a) == BookMetadataStatusText(b) ==> a == b
    ensures forall a, b :: ChapterMetadataStatusText(a) == ChapterMetadataStatusText(b) ==> a == b
  {
    assert "In Progress"[0] != "Complete"[0];
    assert "Missing"[0] != "Partial"[0] && "Partial"[0] != "Completed"[0] && "Missing"[0] != "Completed"[0];
  }

  /**
   * The book status the enum's comments describe, given for each chapter folder whether it has
   * metadata: none -> Missing, some -> Partial, all -> Completed. A book with no chapter folders
   * satisfies both "none" and "all"; it is taken as Missing here.
   */
  function BookMetadataStatusOf(chapterHasMetadata: seq<bool>): (s: BookMetadataStatus)
  {
    if forall k :: 0 <= k < |chapterHasMetadata| ==> !chapterHasMetadata[k] then BookMissing
    else if forall k :: 0 <= k < |chapterHasMetadata| ==> chapterHasMetadata[k] then BookCompleted
    else BookPartial
  }

  /** The three statuses correspond exactly to none, some-but-not-all, and all (with at least one chapter). */
  lemma BookMetadataStatusMeaning(flags: seq<bool>)
    ensures BookMetadataStatusOf(flags) == BookMissing <==> true !in flags
    ensures BookMetadataStatusOf(flags) == BookCompleted <==> |flags| > 0 && false !in flags
    ensures BookMetadataStatusOf(flags) == BookPartial <==> true in flags && false in flags
  {
    var noneSet := forall k :: 0 <= k < |flags| ==> !flags[k];
    var allSet := forall k :: 0 <= k < |flags| ==> flags[k];
    assert noneSet <==> true !in flags by {
      if true in flags {
        var k :| 0 <= k < |flags| && flags[k];
      }
    }
    assert allSet <==> false !in flags by {
      if false in flags {
        var k :| 0 <= k < |flags| && !flags[k];
      }
    }
    assert |flags| > 0 && allSet ==> !noneSet by {
      if |flags| > 0 && allSet {
        assert flags[0];
      }
    }
  }

  // Types
  const BookFolderType: QName := Bestpub("bookFolder")
  const ChapterFolderType: QName := Bestpub("chapterFolder")
  const BookFileType: QName := Bestpub("bookFile")
  const ChapterFileType: QName := Bestpub("chapterFile")
  const ArtworkFileType: QName := Bestpub("artworkFile")
  const SupplementaryFileType: QName := Bestpub("supplementaryFile")
  const IngestionStatusProp: QName := Bestpub("ingestionStatus")

  // Aspects and their properties
  const BookInfoAspect: QName := Bestpub("bookInfo")
  const IsbnProp: QName := Bestpub("ISBN")
  const BookTitleProp: QName := Bestpub("bookTitle")
  const BookGenreNameProp: QName := Bestpub("bookGenre")
  const BookAuthorsNameProp: QName := Bestpub("bookAuthors")
  const BookNumberOfChaptersProp: QName := Bestpub("nrOfChapters")
  const BookNumberOfPagesProp: QName := Bestpub("nrOfPages")
  const BookMetadataStatusProp: QName := Bestpub("bookMetadataStatus")

  const ChapterInfoAspect: QName := Bestpub("chapterInfo")
  const ChapterTitleProp: QName := Bestpub("chapterTitle")
  const ChapterNumberProp: QName := Bestpub("chapterNumber")
  const ChapterAuthorNameProp: QName := Bestpub("chapterAuthor")
  const ChapterMetadataStatusProp: QName := Bestpub("chapterMetadataStatus")

  const WebPublishingInfoAspect: QName := Bestpub("webPublishingInfo")
  const WebPublishedDateProp: QName := Bestpub("webPublishedDate")
  const WebPublishedVersionProp: QName := Bestpub("webPublishedVersion")
  const WebServerDeliveryOkProp: QName := Bestpub("webServerDeliveryOK")

  /** The model's six types and three aspects, in declaration order. */
  const TypesAndAspects: seq<QName> := [BookFolderType, ChapterFolderType, BookFileType, ChapterFileType,
    ArtworkFileType, SupplementaryFileType, BookInfoAspect, ChapterInfoAspect, WebPublishingInfoAspect]

  const BookGenreList: seq<string> := ["Non-fiction", "Comedy", "Drama", "Fantasy", "Fiction", "Horror",
    "Mythology", "Mystery", "Romance", "Satire", "Tragedy", "Tragicomedy"]

  predicate Distinct<T(==)>(s: seq<T>) {
    forall i, j :: 0 <= i < j < |s| ==> s[i] != s[j]
  }

  /** Every type and aspect lives in the bestpub namespace, and no two share a local name. */
  lemma TypesAndAspectsDistinct()
    ensures forall k :: 0 <= k < |TypesAndAspects| ==> TypesAndAspects[k].namespace == NamespaceUri
    ensures Distinct(TypesAndAspects)
  {
    forall i, j | 0 <= i < j < |TypesAndAspects| ensures TypesAndAspects[i] != TypesAndAspects[j] {
      var a, b := TypesAndAspects[i].localName, TypesAndAspects[j].localName;
      assert |a| != |b| || a[0] != b[0] || a[4] != b[4] || a[7] != b[7];
    }
  }

  /** The genre list holds twelve different genres. */
  lemma GenreListDistinct()
    ensures |BookGenreList| == 12 && Distinct(BookGenreList)
  {
    forall i, j | 0 <= i < j < 12 ensures BookGenreList[i] != BookGenreList[j] {
      var a, b := BookGenreList[i], BookGenreList[j];
      assert |a| != |b| || a[0] != b[0] || a[1] != b[1] || a[2] != b[2] || a[5] != b[5];
    }
  }
}
