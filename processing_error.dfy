/** The acme processing-error codes and the ProcessingError value built on them. */
module ProcessingErrors {
  import opened Wrappers
  import opened JavaText

  /** The acme ProcessingErrorCode enum, in declaration order. */
  datatype ErrorCode =
    | IngestionDirNotFound | IngestionDirIsFile | IngestionNoIsbnInZipName
    | ContentIngestionGeneral | ContentIngestionExtractZip | ContentIngestionHandleChapters
    | ContentIngestionHandleSupplementaryFiles | ContentIngestionHandleArtworkFiles
    | ContentIngestionHandleXmlFile | ContentIngestionHandleAdobeBook | ContentIngestionChapterFilesMismatch
    | MetadataIngestionGeneral | MetadataIngestionExtractZip
    | PublishingCheckerGeneral

  /** getCode. */
  function Code(e: ErrorCode): int {
    match e
    case IngestionDirNotFound => 1
    case IngestionDirIsFile => 1
    case IngestionNoIsbnInZipName => 3
    case ContentIngestionGeneral => 100
    case ContentIngestionExtractZip => 101
    case ContentIngestionHandleChapters => 102
    case ContentIngestionHandleSupplementaryFiles => 103
    case ContentIngestionHandleArtworkFiles => 104
    case ContentIngestionHandleXmlFile => 105
    case ContentIngestionHandleAdobeBook => 106
    case ContentIngestionChapterFilesMismatch => 107
    case MetadataIngestionGeneral => 200
    case MetadataIngestionExtractZip => 201
    case PublishingCheckerGeneral => 300
  }

  /** getDescription. */
  function Description(e: ErrorCode): string {
    match e
    case IngestionDirNotFound => "Directory to check does not exist."
    case IngestionDirIsFile => "The file path must be to a directory."
    case IngestionNoIsbnInZipName => "No ISBN in ZIP name"
    case ContentIngestionGeneral => "Content ingestion general error"
    case ContentIngestionExtractZip => "Error extracting the content zip file"
    case ContentIngestionHandleChapters => "Error extracting and importing chapters"
    case ContentIngestionHandleSupplementaryFiles => "Error extracting and importing supplementary files"
    case ContentIngestionHandleArtworkFiles => "Error extracting and importing artwork files"
    case ContentIngestionHandleXmlFile => "Error extracting and importing XML file"
    case ContentIngestionHandleAdobeBook => "Error extracting the PDF book from the Adobe folder"
    case ContentIngestionChapterFilesMismatch => "Different number of chapter PDF and XML files"
    case MetadataIngestionGeneral => "Metadata ingestion general error"
    case MetadataIngestionExtractZip => "Error extracting the metadata zip file"
    case PublishingCheckerGeneral => "Publishing checker general error"
  }

  const ContentIngestionCodes: seq<ErrorCode> := [ContentIngestionGeneral, ContentIngestionExtractZip,
    ContentIngestionHandleChapters, ContentIngestionHandleSupplementaryFiles, ContentIngestionHandleArtworkFiles,
    ContentIngestionHandleXmlFile, ContentIngestionHandleAdobeBook, ContentIngestionChapterFilesMismatch]

  /**
   * The two directory errors share code 1, so a code does not identify its enum value; the rest of
   * the table: 3 for a missing ISBN, 100..107 in order for content ingestion, 200 and 201 for
   * metadata, 300 for publishing.
   */
  lemma CodeTable()
    ensures IngestionDirNotFound != IngestionDirIsFile && Code(IngestionDirNotFound) == Code(IngestionDirIsFile) == 1
    ensures Code(IngestionNoIsbnInZipName) == 3
    ensures forall k :: 0 <= k < |ContentIngestionCodes| ==> Code(ContentIngestionCodes[k]) == 100 + k
    ensures Code(MetadataIngestionGeneral) == 200 && Code(MetadataIngestionExtractZip) == 201
    ensures Code(PublishingCheckerGeneral) == 300
    ensures forall a, b :: Code(a) == Code(b) && a != b ==> {a, b} == {IngestionDirNotFound, IngestionDirIsFile}
  {
  }

  /** An exception object: its message (possibly null) and its class name. */
  datatype ExceptionInfo = ExceptionInfo(message: Option<string>, className: string)

  /** A processing error: an enum code, a message (possibly null) and an optional exception. */
  datatype ProcessingError = ProcessingError(errorCode: ErrorCode, errorMsg: Option<string>, exception: Option<ExceptionInfo>)

  function GetErrorCode(e: ProcessingError): int { Code(e.errorCode) }

  function GetErrorDescription(e: ProcessingError): string { Description(e.errorCode) }

  /** getErrorDetail: the exception's message, else its class name; without an exception, errorMsg. */
  function GetErrorDetail(e: ProcessingError): (r: Option<string>)
    ensures e.exception.Some? ==> r.Some?
    ensures r.None? <==> e.exception.None? && e.errorMsg.None?
    ensures e.exception.Some? && e.exception.value.message.Some? ==> r == e.exception.value.message
    ensures e.exception.Some? && e.exception.value.message.None? ==> r == Some(e.exception.value.className)
    ensures e.exception.None? ==> r == e.errorMsg
  {
    match e.exception
    case Some(x) => if x.message.Some? then x.message else Some(x.className)
    case None => e.errorMsg
  }

  /** What `equals` may be handed: null, an object of another class, or a ProcessingError. */
  datatype JavaObject = Null | OtherClass | AnError(error: ProcessingError)

  /** equals: only errorCode and errorMsg are compared (with null-safe equality); the exception is not. */
  predicate Equals(self: ProcessingError, obj: JavaObject) {
    match obj
    case Null => false
    case OtherClass => false
    case AnError(rhs) => self.errorCode == rhs.errorCode && self.errorMsg == rhs.errorMsg
  }

  /** equals is an equivalence on errors and never holds for null or another class. */
  lemma EqualsIsEquivalence(a: ProcessingError, b: ProcessingError, c: ProcessingError)
    ensures Equals(a, AnError(a))
    ensures Equals(a, AnError(b)) ==> Equals(b, AnError(a))
    ensures Equals(a, AnError(b)) && Equals(b, AnError(c)) ==> Equals(a, AnError(c))
    ensures !Equals(a, Null) && !Equals(a, OtherClass)
  {
  }

  /** Two errors that differ only in their exception are equal. */
  lemma EqualsIgnoresException(a: ProcessingError, x: Option<ExceptionInfo>)
    ensures Equals(a, AnError(a.(exception := x)))
  {
  }

  /** String.hashCode: h = 31 * h + c over the characters, in int arithmetic. */
  function StringHash(s: string): Int32 {
    if |s| == 0 then 0 else Wrap32(31 * StringHash(s[..|s| - 1]) + s[|s| - 1] as int)
  }

  /**
   * HashCodeBuilder().append(errorCode).append(errorMsg).toHashCode(): start at 17, and for each
   * field multiply by 37 and add the field's hash (nothing for null). The enum's identity hash is
   * not determined by the source; it is a parameter.
   */
  function HashCode(e: ProcessingError, enumHash: ErrorCode -> Int32): Int32 {
    var h1 := Wrap32(17 * 37 + enumHash(e.errorCode));
    match e.errorMsg
    case None => Wrap32(h1 * 37)
    case Some(m) => Wrap32(h1 * 37 + StringHash(m))
  }

  /** Equal errors have equal hash codes, whatever the enum hashes are. */
  lemma HashCodeConsistent(a: ProcessingError, b: ProcessingError, enumHash: ErrorCode -> Int32)
    requires Equals(a, AnError(b))
    ensures HashCode(a, enumHash) == HashCode(b, enumHash)
  {
  }

  /** Equal hash codes do not make errors equal: the messages "Aa" and "BB" hash alike. */
  lemma HashCodeCollision(code: ErrorCode, enumHash: ErrorCode -> Int32)
    ensures var a := ProcessingError(code, Some("Aa"), None);
            var b := ProcessingError(code, Some("BB"), None);
            HashCode(a, enumHash) == HashCode(b, enumHash) && !Equals(a, AnError(b))
  {
    var a := ProcessingError(code, Some("Aa"), None);
    var b := ProcessingError(code, Some("BB"), None);
    assert StringHash("Aa") == StringHash("BB") by {
      StringHashOfPair("Aa");
      StringHashOfPair("BB");
      assert "Aa"[0] == 'A' && "Aa"[1] == 'a' && "BB"[0] == 'B' && "BB"[1] == 'B';
    }
    SameMessageHash(a, b, enumHash);
    assert "Aa"[0] != "BB"[0];
  }

  /** Errors with the same code and messages of the same hash have the same hash code. */
  lemma SameMessageHash(a: ProcessingError, b: ProcessingError, enumHash: ErrorCode -> Int32)
    requires a.errorCode == b.errorCode && a.errorMsg.Some? && b.errorMsg.Some?
    requires StringHash(a.errorMsg.value) == StringHash(b.errorMsg.value)
    ensures HashCode(a, enumHash) == HashCode(b, enumHash)
  {
  }

  /** The hash of a two-character string, for characters small enough that nothing wraps. */
  lemma StringHashOfPair(s: string)
    requires |s| == 2 && s[0] as int < 0x1_0000 && s[1] as int < 0x1_0000
    ensures StringHash(s) == 31 * (s[0] as int) + s[1] as int
  {
    var first := s[..1];
    assert first[..0] == [] && first[0] == s[0];
    assert StringHash(first) == s[0] as int;
  }
}

/** The older marversolutions ProcessingErrorCode table. */
module LegacyErrorCodes {
  datatype ErrorCode =
    | ContentCheckerGeneral | ContentCheckerExtractZip | ContentCheckerHandleChapters
    | ContentCheckerHandleSupplementaryFiles | ContentCheckerHandleArtworkFiles | ContentCheckerHandleXmlFile
    | ContentCheckerHandleAdobeBook | ContentCheckerChapterFilesMismatch
    | MetadataCheckerGeneral | PublishingCheckerGeneral | RepublishingCheckerGeneral

  function Code(e: ErrorCode): int {
    match e
    case ContentCheckerGeneral => 100
    case ContentCheckerExtractZip => 101
    case ContentCheckerHandleChapters => 102
    case ContentCheckerHandleSupplementaryFiles => 103
    case ContentCheckerHandleArtworkFiles => 104
    case ContentCheckerHandleXmlFile => 105
    case ContentCheckerHandleAdobeBook => 106
    case ContentCheckerChapterFilesMismatch => 107
    case MetadataCheckerGeneral => 200
    case PublishingCheckerGeneral => 300
    case RepublishingCheckerGeneral => 400
  }

  function Description(e: ErrorCode): string {
    match e
    case ContentCheckerGeneral => "Content ingestion general error"
    case ContentCheckerExtractZip => "Error extracting the zip file"
    case ContentCheckerHandleChapters => "Error extracting and importing chapters"
    case ContentCheckerHandleSupplementaryFiles => "Error extracting and importing supplementary files"
    case ContentCheckerHandleArtworkFiles => "Error extracting and importing artwork files"
    case ContentCheckerHandleXmlFile => "Error extracting and importing XML file"
    case ContentCheckerHandleAdobeBook => "Error extracting the PDF book from the Adobe folder"
    case ContentCheckerChapterFilesMismatch => "Different number of chapter PDF and XML files"
    case MetadataCheckerGeneral => "Metadata checker general error"
    case PublishingCheckerGeneral => "Publishing checker general error"
    case RepublishingCheckerGeneral => "Republishing checker general error"
  }

  const ContentCheckerCodes: seq<ErrorCode> := [ContentCheckerGeneral, ContentCheckerExtractZip,
    ContentCheckerHandleChapters, ContentCheckerHandleSupplementaryFiles, ContentCheckerHandleArtworkFiles,
    ContentCheckerHandleXmlFile, ContentCheckerHandleAdobeBook, ContentCheckerChapterFilesMismatch]

  /** Content-checker codes run 100..107 in order; then 200, 300 and 400; and every code is distinct. */
  lemma CodeTable()
    ensures forall k :: 0 <= k < |ContentCheckerCodes| ==> Code(ContentCheckerCodes[k]) == 100 + k
    ensures Code(MetadataCheckerGeneral) == 200 && Code(PublishingCheckerGeneral) == 300
    ensures Code(RepublishingCheckerGeneral) == 400
    ensures forall a, b :: Code(a) == Code(b) ==> a == b
  {
  }
}
