# BestPub utilities, modelled in Dafny

This project models the core of the Best Publishing (BestPub) extension for the Alfresco content
repository. The core is what the book-publishing actions and services share:

- the ISBN pattern and the repository paths and folder names both code bases use (the current
  acme package and the older marversolutions package);
- the BestPub content model: its namespace, its types, aspects and properties, and its status enums;
- the metadata file format (`key=value` lines) and the chapter metadata record with its ordering;
- processing errors and the two tables of error codes;
- the repository helpers: resolving display paths, getting or creating folders and files, search
  results, content bytes and MD5 comparison of contents;
- the BestPub utilities of both code bases:
  - ISBN checks and extraction from file names;
  - chapter folder naming and resolution;
  - book and chapter folder creation;
  - modified-date checks and date formatting;
  - ZIP listing and quarantine of failed ZIPs;
  - the legacy survey-metadata filter and text sanitising;
- publishing: building the EPUB archive of a book, recording the published version and date, and
  delivering `{isbn}.epub` to the pickup directory;
- the ingestion executer: a scheduled scan of a directory for ZIPs, each handed to an importer and
  then deleted or moved into `failedProcessing`.

Modules, one per concern:

| file | module | models |
|---|---|---|
| wrappers.dfy | Wrappers | `Option`, `Result` and the Java exceptions the core raises or catches |
| java_text.dfy | JavaText | the `String`, `Integer` and commons-lang helpers the core calls: `indexOf`, `substring`, `trim`, `split`, `parseInt`, `toLowerCase`, extensions, and 32-bit `int` wrap-around |
| constants.dfy | IsbnPattern, BestPubConstants, LegacyConstants | the ISBN regular expression and the constants of both code bases |
| content_model.dfy | BestPubContentModel | the content model |
| chapter_info.dfy | ChapterMetadata | `ChapterMetadataInfo` and its `compareTo` |
| metadata_file_model.dfy | MetadataFileModel | the metadata file keys and format |
| processing_error.dfy | ProcessingErrors, LegacyErrorCodes | `ProcessingError` and both code tables |
| content_store.dfy | ContentStore | the Alfresco node store (nodes, names, types, aspects, properties, content) as a `Repository` class |
| streams.dfy | Streams | input streams that can fail, and a ZIP output stream |
| file_system.dfy | FileSystemModel | the local filesystem as a tree, in a `FileSystem` class |
| repo_utils.dfy | RepoUtils | `AlfrescoRepoUtilsServiceImpl` |
| bestpub_utils.dfy | BestPubUtils | the acme `BestPubUtilsServiceImpl` |
| legacy_bestpub_utils.dfy | LegacyBestPubUtils | what the legacy `BestPubUtilsServiceImpl` does differently |
| publishing.dfy | Publishing | `PublishingServiceImpl` |
| ingestion.dfy | IngestionExecuter | `AbstractIngestionExecuter` |

How the model is built:

- Each repository operation is a function from one repository state to the next, plus a result,
  with lemmas about what it does. The methods of the `Repository`, `FileSystem` and stream classes
  are proved against those functions.
- A Java exception is a `Throws` result. An exception the Java code catches and logs is modelled
  as the value the method then returns.
- Things outside the core are parameters:
  - the clock;
  - the order of a directory listing;
  - the importer behind `processZipFile`;
  - the MD5 digest;
  - character-set encoding and decoding;
  - the ZIP encoder;
  - the name of the temporary file;
  - the results of repository searches;
  - the EPUB layout constants.

Where the documentation and the code disagree, the model follows the code:

- `formatDate` returns null for a null date. Its interface documentation promises an empty string.
- The ISBN pattern `^(97[8|9]\d{10})` puts `|` inside a character class, so it also accepts
  `97|` followed by ten digits (`IsbnPattern.PipeIsAccepted`). The written intent is 978 or 979.
- The legacy one-argument `checkModifiedDates` has its body commented out, so it always answers
  null (`LegacyBestPubUtils.LegacyMissesModification`).
- `ChapterMetadataInfo.compareTo` subtracts `int`s, which wraps for far-apart chapter numbers
  (`ChapterMetadata.CompareToOverflow`).
- `getNextPublishedVersion` also wraps at the largest `int` (`Publishing.NextVersionWraps`).
- `createAndStoreEPubArtifact` stores the new version and date before it attempts the delivery.
  A failed delivery therefore still counts as a publish for the next version
  (`Publishing.PublishRecordsVersion`).

## Model

| member | source | states |
|---|---|---|
| IsbnPattern.DigitRun | src/main/java/org/acme/bestpublishing/constants/BestPubConstants.java:29 | `\d{n}` fully matches exactly the strings of n ASCII digits |
| IsbnPattern.IsbnMatch | src/main/java/org/acme/bestpublishing/constants/BestPubConstants.java:29 | a full match of the ISBN pattern is exactly: 13 characters, "97", one of '8', the pipe character or '9', then ten digits |
| IsbnPattern.MatchHasIsbnLength | src/main/java/org/acme/bestpublishing/constants/BestPubConstants.java:28-29 | every string the pattern matches has the length ISBN_NUMBER_LENGTH, 13 |
| IsbnPattern.PipeIsAccepted | src/main/java/org/acme/bestpublishing/constants/BestPubConstants.java:29 | the character class written for 8 or 9 also admits the pipe character, so "97" + pipe + ten digits is accepted |
| IsbnPattern.DocumentedIsbnIsAccepted | src/main/java/org/acme/bestpublishing/constants/BestPubConstants.java:29 | the documented ISBN 9780203093474 is accepted |
| BestPubConstants.PathToBestPubNamesFolder | src/main/java/org/acme/bestpublishing/constants/BestPubConstants.java:50-63 | the XPath to the BestPub folder is "/app:company_home/cm:BestPub" and ends in BESTPUB_FOLDER_NAME |
| LegacyConstants.LegacyAgreement | src/main/java/org/marversolutions/bestpublishing/constants/BestPubConstants.java:28-56 | the legacy code base has the same ISBN length and pattern, a different (upper-case) BESTPUB folder path, a Manual folder under Metadata, and an XPath that names its BESTPUB folder |
| BestPubContentModel.Bestpub | src/main/java/org/acme/bestpublishing/model/BestPubContentModel.java:260-262 | bestpub(name) is the QName of that local name in the BestPub namespace |
| BestPubContentModel.StatusTextsInjective | src/main/java/org/acme/bestpublishing/model/BestPubContentModel.java:36-90 | in each status enum, toString tells the values apart |
| BestPubContentModel.BookMetadataStatusMeaning | src/main/java/org/acme/bestpublishing/model/BestPubContentModel.java:55-58 | a book's status is Missing exactly when no chapter has metadata, Completed exactly when there is a chapter and all have it, Partial exactly when some do and some do not |
| BestPubContentModel.TypesAndAspectsDistinct | src/main/java/org/acme/bestpublishing/model/BestPubContentModel.java:96-256 | every type and aspect is in the BestPub namespace, and no two share a QName |
| BestPubContentModel.GenreListDistinct | src/main/java/org/acme/bestpublishing/model/BestPubContentModel.java:206-219 | the genre list holds twelve different genres |
| ChapterMetadata.CompareToFollowsNumbers | src/main/java/org/acme/bestpublishing/model/ChapterMetadataInfo.java:71-77 | when the difference fits in an int, the sign of compareTo is the order of the chapter numbers |
| ChapterMetadata.CompareToIgnoresText | src/main/java/org/acme/bestpublishing/model/ChapterMetadataInfo.java:71-77 | title, author and file name take no part in compareTo |
| ChapterMetadata.CompareToOverflow | src/main/java/org/acme/bestpublishing/model/ChapterMetadataInfo.java:76 | the int subtraction wraps: chapter MAX_VALUE compares as smaller than chapter -1 |
| ChapterMetadata.CompareToIsOrder | src/main/java/org/acme/bestpublishing/model/ChapterMetadataInfo.java:71-77 | for chapter numbers that cannot overflow, compareTo is antisymmetric and transitive, as Comparable requires |
| ChapterMetadata.InsertPermutes | src/main/java/org/acme/bestpublishing/model/ChapterMetadataInfo.java:71-77 | inserting a record by compareTo keeps the other records and adds that one |
| ChapterMetadata.InsertSorted | src/main/java/org/acme/bestpublishing/model/ChapterMetadataInfo.java:71-77 | inserting by compareTo into a list in chapter order keeps it in chapter order |
| ChapterMetadata.SortChaptersPermutes | src/main/java/org/acme/bestpublishing/model/ChapterMetadataInfo.java:71-77 | sorting by compareTo keeps exactly the records it was given |
| ChapterMetadata.SortChaptersCorrect | src/main/java/org/acme/bestpublishing/model/ChapterMetadataInfo.java:71-77 | sorting by compareTo yields the same records in ascending chapter order, when no comparison overflows |
| ChapterMetadata.SortedFrom | src/main/java/org/acme/bestpublishing/model/ChapterMetadataInfo.java:71-77 | every record of the sorted list comes from the input |
| MetadataFileModel.KeysDistinct | src/main/java/org/acme/bestpublishing/model/BestPubMetadataFileModel.java:39-50 | the nine property keys differ, so the book and chapter keys are disjoint |
| MetadataFileModel.ParseLineOfLine | src/main/java/org/acme/bestpublishing/model/BestPubMetadataFileModel.java:23-33 | a line in the documented `key=value` format reads back as its key and value when the key holds no '=' |
| MetadataFileModel.ParseRender | src/main/java/org/acme/bestpublishing/model/BestPubMetadataFileModel.java:23-33 | reading a metadata file written in the documented line format gives back its entries, in order |
| ProcessingErrors.CodeTable | src/main/java/org/acme/bestpublishing/error/ProcessingErrorCode.java:26-58 | the two directory errors share code 1, so a code does not identify its error; otherwise 3, then 100..107 in order, 200, 201, 300, and no other code is shared |
| ProcessingErrors.GetErrorDetail | src/main/java/org/acme/bestpublishing/error/ProcessingError.java:52-62 | the exception's message when it has one, else the exception's class name, and without an exception the error message; so the detail is present whenever there is an exception, and absent exactly when there is neither an exception nor a message |
| ProcessingErrors.EqualsIsEquivalence | src/main/java/org/acme/bestpublishing/error/ProcessingError.java:72-91 | equals is reflexive, symmetric and transitive, and false for null and for another class |
| ProcessingErrors.EqualsIgnoresException | src/main/java/org/acme/bestpublishing/error/ProcessingError.java:72-91 | errors that differ only in their exception are equal |
| ProcessingErrors.HashCodeConsistent | src/main/java/org/acme/bestpublishing/error/ProcessingError.java:64-70 | equal errors have equal hash codes |
| ProcessingErrors.HashCodeCollision | src/main/java/org/acme/bestpublishing/error/ProcessingError.java:64-70 | equal hash codes do not make errors equal: messages "Aa" and "BB" hash alike |
| ProcessingErrors.SameMessageHash | src/main/java/org/acme/bestpublishing/error/ProcessingError.java:64-70 | errors with the same code and messages of the same string hash have the same hash code |
| LegacyErrorCodes.CodeTable | src/main/java/org/marversolutions/bestpublishing/constants/ProcessingErrorCode.java:26-55 | the legacy codes are 100..107 in order, then 200, 300 and 400, and no two errors share a code |
| BestPubUtils.IsIsbn | src/main/java/org/acme/bestpublishing/services/BestPubUtilsServiceImpl.java:247-255 | isISBN holds exactly for 13 characters: "97", one of '8', the pipe character or '9', then ten ASCII digits (the full match of the pattern); the legacy isISBN (lines 171-179 of the marversolutions class) is the same code |
| BestPubUtils.GetIsbnFromFilename | src/main/java/org/acme/bestpublishing/services/BestPubUtilsServiceImpl.java:257-266 | substring throws exactly when the trimmed name is shorter than 13; otherwise the answer is an ISBN that starts the trimmed name, or null when the first 13 characters are not an ISBN; the legacy copy (lines 181-190 of the marversolutions class) is the same code |
| BestPubUtils.IsbnPrefixIsExtracted | src/main/java/org/acme/bestpublishing/services/BestPubUtilsService.java:140-147 | any name made of leading blanks, an ISBN and anything else yields that ISBN |
| BestPubUtils.DocumentedFilenames | src/main/java/org/acme/bestpublishing/services/BestPubUtilsService.java:140-147 | the documented names 9780203093474.zip and 9780203093474_Law_Chapter 1 - 40.zip yield 9780203093474 |
| BestPubUtils.ChapterFolderNameExample | src/main/java/org/acme/bestpublishing/services/BestPubUtilsService.java:55-61 | the chapter folder name of chapter 9 is chapter-9 |
| BestPubUtils.ChapterDestinationOfNumberedName | src/main/java/org/acme/bestpublishing/services/BestPubUtilsServiceImpl.java:107-124 | a name ending in three digits, '.', and an extension resolves to the child chapter-n of the ISBN folder, where n is the digits' value without leading zeros, when n is at most 200; above 200 it is null |
| BestPubUtils.NumberedNameField | src/main/java/org/acme/bestpublishing/services/BestPubUtilsServiceImpl.java:111-113 | the field cut out before the last '.' is exactly the three characters that precede it |
| BestPubUtils.ChapterDestinationExample | src/main/java/org/acme/bestpublishing/services/BestPubUtilsService.java:63-74 | the documented 9780486282145-Chapter-001.xhtml resolves to chapter-1 |
| BestPubUtils.ChapterDestinationOutOfRange | src/main/java/org/acme/bestpublishing/services/BestPubUtilsServiceImpl.java:114-117 | chapter number 201 is out of range, giving null |
| BestPubUtils.ChapterDestinationShortName | src/main/java/org/acme/bestpublishing/services/BestPubUtilsServiceImpl.java:111-113 | a name with fewer than three characters before its last '.', or with no '.', makes substring throw |
| BestPubUtils.DocLibPathElements | src/main/java/org/acme/bestpublishing/services/BestPubUtilsServiceImpl.java:193-198 | the document library path names Sites, book-management and documentLibrary, in that order |
| BestPubUtils.DocLibResolves | src/main/java/org/acme/bestpublishing/services/BestPubUtilsServiceImpl.java:194-197 | the document library that getBaseFolderForBooks looks up is reached from Company Home through Sites, then book-management, then documentLibrary |
| BestPubUtils.BaseFolderForBooksOp | src/main/java/org/acme/bestpublishing/services/BestPubUtilsServiceImpl.java:177-183 | the answer is a folder exactly when the document library resolves, and it is the document library's child named after the year; an existing year folder is returned with the repository unchanged, otherwise a new folder of the folder type is made there; a failure (no document library) changes nothing, and the repository stays well formed |
| BestPubUtils.AddChapterFolderEffect | src/main/java/org/acme/bestpublishing/services/BestPubUtilsServiceImpl.java:151-171 | a successful pass of the chapter loop appends one child to the ISBN folder, the complete chapter folder, and touches no other node |
| BestPubUtils.ChapterFolderAdded | src/main/java/org/acme/bestpublishing/services/BestPubUtilsServiceImpl.java:151-171 | with the chapter name free, a pass succeeds and appends the complete chapter folder |
| BestPubUtils.AddChapterFolders | src/main/java/org/acme/bestpublishing/services/BestPubUtilsServiceImpl.java:151-172 | the chapter loop keeps the repository well formed and the ISBN folder in it |
| BestPubUtils.ChapterNamesFreeSplit | src/main/java/org/acme/bestpublishing/services/BestPubUtilsServiceImpl.java:151-155 | the names of a longer list are free exactly when those of the shorter list are, and the last name is free and differs from them |
| BestPubUtils.LookupAfterChapters | src/main/java/org/acme/bestpublishing/services/BestPubUtilsServiceImpl.java:151-172 | after the loop has appended some chapter folders, a name is free under the ISBN folder exactly when it was free before and is none of their names |
| BestPubUtils.LookupTakenAfterChapters | src/main/java/org/acme/bestpublishing/services/BestPubUtilsServiceImpl.java:151-172 | a name taken after the loop was taken before or is one of the appended chapter names |
| BestPubUtils.ChildNamesAfterChapters | src/main/java/org/acme/bestpublishing/services/BestPubUtilsServiceImpl.java:151-172 | after the loop the ISBN folder's children are the old ones, then the chapter folders in list order |
| BestPubUtils.ChaptersAppendedStep | src/main/java/org/acme/bestpublishing/services/BestPubUtilsServiceImpl.java:151-172 | appending one more complete chapter folder extends what the loop has appended |
| BestPubUtils.AddChapterFoldersEffect | src/main/java/org/acme/bestpublishing/services/BestPubUtilsServiceImpl.java:151-172 | for every chapter list, the loop succeeds exactly when the chapter names are free and differ, and then appends one complete chapter folder per entry, in order; otherwise it ends in the duplicate-name exception; no node other than the ISBN folder changes, and none is renamed |
| BestPubUtils.AddChapterFoldersStep | src/main/java/org/acme/bestpublishing/services/BestPubUtilsServiceImpl.java:151-172 | one more pass after a successful loop keeps that description |
| BestPubUtils.AddChaptersStop | src/main/java/org/acme/bestpublishing/services/BestPubUtilsServiceImpl.java:151-172 | once the loop has thrown, processing more entries changes nothing |
| BestPubUtils.BookStageEffect | src/main/java/org/acme/bestpublishing/services/BestPubUtilsServiceImpl.java:148-174 | from the fresh ISBN folder, the loop succeeds exactly when the chapter names differ; on success the book folder holds one chapter folder per entry, in order |
| BestPubUtils.NamesFreeInEmptyFolder | src/main/java/org/acme/bestpublishing/services/BestPubUtilsServiceImpl.java:151-155 | under a folder without children, the chapter names are free exactly when they differ |
| BestPubUtils.ChaptersInEmptyFolder | src/main/java/org/acme/bestpublishing/services/BestPubUtilsServiceImpl.java:151-172 | chapter folders appended to the fresh ISBN folder make the book folder the chapter list describes |
| BestPubUtils.BookFolderMadeStatuses | src/main/java/org/acme/bestpublishing/services/BestPubUtilsServiceImpl.java:147-171 | a new book starts with metadata status Missing; each chapter folder is named from its entry's chapter number, has status Missing, and also carries the book's bookInfo aspect |
| BestPubUtils.CreateChapterFoldersEffect | src/main/java/org/acme/bestpublishing/services/BestPubUtilsServiceImpl.java:126-175 | when the year folder is there and the ISBN is new, createChapterFolders succeeds exactly when the chapter names differ; on success the returned ISBN folder is named after the ISBN, carries the bookInfo aspect, holds one complete chapter folder per entry, in order, and is the year folder's child of that name |
| BestPubUtils.NewBookFolderEffect | src/main/java/org/acme/bestpublishing/services/BestPubUtilsServiceImpl.java:136-172 | after the ISBN folder is created, its aspect and the chapter loop make the book folder exactly when the chapter names differ |
| BestPubUtils.CreatedChapterIsResolved | src/main/java/org/acme/bestpublishing/services/BestPubUtilsServiceImpl.java:107-175 | creating and resolving agree: after createChapterFolders, a file whose three-digit field has value n (at most 200) resolves to the chapter folder whose entry's number is n |
| BestPubUtils.BaseFolderForBooks | src/main/java/org/acme/bestpublishing/services/BestPubUtilsServiceImpl.java:177-183 | getBaseFolderForBooks changes the repository as BaseFolderForBooksOp says |
| BestPubUtils.AddChapterFolderTo | src/main/java/org/acme/bestpublishing/services/BestPubUtilsServiceImpl.java:151-171 | one pass of the loop on the repository, as AddChapterFolder says |
| BestPubUtils.CreateChapterFolders | src/main/java/org/acme/bestpublishing/services/BestPubUtilsServiceImpl.java:126-175 | createChapterFolders on the repository, as CreateChapterFoldersOp says |
| BestPubUtils.CreateBookFolder | src/main/java/org/acme/bestpublishing/services/BestPubUtilsServiceImpl.java:131-174 | the steps after the year folder, on the repository |
| BestPubUtils.AddChapterFoldersTo | src/main/java/org/acme/bestpublishing/services/BestPubUtilsServiceImpl.java:151-172 | the chapter loop on the repository, as AddChapterFolders says |
| BestPubUtils.LatestAfter | src/main/java/org/acme/bestpublishing/services/BestPubUtilsServiceImpl.java:216-233 | the loop throws exactly when a date is null; otherwise it returns the latest date strictly after the published date, one of the given dates, and null when there is none |
| BestPubUtils.LatestAfterStops | src/main/java/org/acme/bestpublishing/services/BestPubUtilsServiceImpl.java:219-231 | a null date met by the loop decides the outcome of the whole loop |
| BestPubUtils.ModifiedDates | src/main/java/org/acme/bestpublishing/services/BestPubUtilsServiceImpl.java:218-221 | the dates the loop reads are the search results' cm:modified properties, in result order |
| BestPubUtils.CheckModifiedDates | src/main/java/org/acme/bestpublishing/services/BestPubUtilsServiceImpl.java:206-234 | the two-argument check gives the latest modification after the published date, from the search results' dates; a null published date is an IllegalArgumentException; the legacy two-argument check (lines 131-157 of the marversolutions class) is the same code |
| BestPubUtils.CheckModifiedDatesOfNode | src/main/java/org/acme/bestpublishing/services/BestPubUtilsServiceImpl.java:236-245 | with no published date stored the answer is null; otherwise it is the two-argument result for the stored date, and never the IllegalArgumentException |
| BestPubUtils.FormatDate | src/main/java/org/acme/bestpublishing/services/BestPubUtilsServiceImpl.java:97-105 | null exactly for a null date, otherwise the date formatted with the pattern; the legacy copy (lines 105-113 of the marversolutions class) is the same code |
| BestPubUtils.FindFilesUsingExtensionMeaning | src/main/java/org/acme/bestpublishing/services/BestPubUtilsServiceImpl.java:85-95 | null exactly when the path is not a directory; otherwise exactly the direct entries whose extension equals the argument, ignoring case; the legacy copy (lines 93-103 of the marversolutions class) is the same code |
| BestPubUtils.FindFilesCaseBlind | src/main/java/org/acme/bestpublishing/services/BestPubUtilsServiceImpl.java:91-92 | the case in which the extension is written does not matter |
| BestPubUtils.EqualsIgnoreCaseToLower | src/main/java/org/acme/bestpublishing/services/BestPubUtilsServiceImpl.java:92 | comparing ignoring case against a string or its lower-case form is the same |
| BestPubUtils.FailedDirPath | src/main/java/org/acme/bestpublishing/services/BestPubUtilsServiceImpl.java:270-271 | the quarantine directory is the failedProcessing entry of the given directory |
| BestPubUtils.MoveZipToFailedEffect | src/main/java/org/acme/bestpublishing/services/BestPubUtilsServiceImpl.java:268-284 | after a successful move the ZIP is gone and failedProcessing holds it under its own name; other paths are untouched; an existing failedProcessing is not re-created; a failed mkdir changes nothing and throws; the legacy copy (lines 332-348 of the marversolutions class) is the same code |
| BestPubUtils.MoveZipToDirForFailedProcessing | src/main/java/org/acme/bestpublishing/services/BestPubUtilsServiceImpl.java:268-284 | the move on the filesystem, as MoveZipToFailedOp says |
| LegacyBestPubUtils.LegacyChapterDestinationFolder | src/main/java/org/marversolutions/bestpublishing/services/BestPubUtilsServiceImpl.java:115-129 | substring throws exactly when the last '.' comes before the character after the first '-'; otherwise the answer is the lookup of the text between them |
| LegacyBestPubUtils.ChapterFolderOfField | src/main/java/org/marversolutions/bestpublishing/services/BestPubUtilsServiceImpl.java:120-126 | a blank field gives null; a found folder is a child of the book folder whose name equals the field lower-cased (names compare exactly here; see Left out) |
| LegacyBestPubUtils.LegacyChapterOfName | src/main/java/org/marversolutions/bestpublishing/services/BestPubUtilsServiceImpl.java:115-129 | a name made of a dash-free prefix, '-', a field, '.' and a dot-free extension resolves by the field alone |
| LegacyBestPubUtils.LegacyChapterOfSlice | src/main/java/org/marversolutions/bestpublishing/services/BestPubUtilsServiceImpl.java:119 | once the first '-' and the last '.' are known, the lookup is by the text between them |
| LegacyBestPubUtils.LegacyChapterExample | src/main/java/org/marversolutions/bestpublishing/services/BestPubUtilsServiceImpl.java:117-119 | the documented 9780203807217-chapter8.pdf resolves to the folder chapter8 |
| LegacyBestPubUtils.LowerCaseField | src/main/java/org/marversolutions/bestpublishing/services/BestPubUtilsServiceImpl.java:120-126 | a field that is not blank and already lower case names its folder directly |
| LegacyBestPubUtils.LegacyChapterCaseBlind | src/main/java/org/marversolutions/bestpublishing/services/BestPubUtilsServiceImpl.java:115-129 | the case of the field does not matter: Chapter8 and chapter8 resolve alike |
| LegacyBestPubUtils.FieldCaseBlind | src/main/java/org/marversolutions/bestpublishing/services/BestPubUtilsServiceImpl.java:125 | lower-casing the field first changes nothing |
| LegacyBestPubUtils.LegacyCheckModifiedDatesOfNode | src/main/java/org/marversolutions/bestpublishing/services/BestPubUtilsServiceImpl.java:159-169 | the one-argument check, with its body commented out, answers null for every node |
| LegacyBestPubUtils.LegacyMissesModification | src/main/java/org/marversolutions/bestpublishing/services/BestPubUtilsServiceImpl.java:159-169 | where the acme check reports a modification after the published date, the legacy one reports none |
| LegacyBestPubUtils.IsRhoIsbn | src/main/java/org/marversolutions/bestpublishing/services/BestPubUtilsServiceImpl.java:318-330 | decoding throws exactly when the filter file has no readable bytes; otherwise the answer is whether the ISBN occurs in the decoded text |
| LegacyBestPubUtils.ApplySurveyMetadataOp | src/main/java/org/marversolutions/bestpublishing/services/BestPubUtilsServiceImpl.java:216-223 | unless the ISBN is in the filter file, the node is left alone; when it is, the survey properties are applied; a missing filter file throws |
| LegacyBestPubUtils.NonRhoIsbnIsSkipped | src/main/java/org/marversolutions/bestpublishing/services/BestPubUtilsServiceImpl.java:219-223 | an ISBN the filter text does not contain leaves the node untouched and raises nothing |
| LegacyBestPubUtils.RemoveSpecialCharacters | src/main/java/org/marversolutions/bestpublishing/services/BestPubUtilsServiceImpl.java:355-357 | sanitising never lengthens the text; the acme copy (lines 292-298 of the acme class) is the same five deletions |
| LegacyBestPubUtils.SanitizeUnchanged | src/main/java/org/marversolutions/bestpublishing/services/BestPubUtilsServiceImpl.java:355-357 | a text holding none of the five markers comes back unchanged |
| LegacyBestPubUtils.RemoveAllKeepsPlain | src/main/java/org/marversolutions/bestpublishing/services/BestPubUtilsServiceImpl.java:355-357 | deleting every occurrence of one marker keeps every character that cannot belong to a marker, in order |
| LegacyBestPubUtils.SanitizeKeepsPlain | src/main/java/org/marversolutions/bestpublishing/services/BestPubUtilsServiceImpl.java:355-357 | sanitising deletes only marker characters: every other character survives, in order |
| RepoUtils.DisplayPathIsSplit | src/main/java/org/acme/bestpublishing/services/AlfrescoRepoUtilsServiceImpl.java:92-113 | the path elements are the path split on '/', empty pieces dropped |
| RepoUtils.DisplayPathOfNames | src/main/java/org/acme/bestpublishing/services/AlfrescoRepoUtilsServiceImpl.java:92-113 | a display path written as '/' and names joined by '/' has exactly those names as elements |
| RepoUtils.DisplayPathExample | src/main/java/org/acme/bestpublishing/services/AlfrescoRepoUtilsServiceImpl.java:92-113 | "/Data Dictionary/Email Templates" has the elements "Data Dictionary" and "Email Templates" |
| RepoUtils.TwoNamePath | src/main/java/org/acme/bestpublishing/services/AlfrescoRepoUtilsServiceImpl.java:92-113 | a two-name display path has those two names as elements |
| RepoUtils.ResolveNamePath | src/main/java/org/acme/bestpublishing/services/AlfrescoRepoUtilsServiceImpl.java:92-113 | a resolved path leads to a node of the repository |
| RepoUtils.ResolveOneMore | src/main/java/org/acme/bestpublishing/services/AlfrescoRepoUtilsServiceImpl.java:92-113 | resolving one more name looks that name up among the children of the node resolved so far, and fails when that one failed |
| RepoUtils.GetOrCreateChildEffect | src/main/java/org/acme/bestpublishing/services/AlfrescoRepoUtilsServiceImpl.java:121-150 | afterwards the returned node is the parent's child of that name; an existing one is returned and nothing changes; otherwise exactly one node of the requested type is appended and nothing else changes |
| RepoUtils.GetOrCreateIdempotent | src/main/java/org/acme/bestpublishing/services/AlfrescoRepoUtilsServiceImpl.java:121-132 | a second get-or-create of the same name returns the same node and changes nothing |
| RepoUtils.GetOrCreateFolder | src/main/java/org/acme/bestpublishing/services/AlfrescoRepoUtilsServiceImpl.java:121-132 | getOrCreateFolder on the repository, as GetOrCreateChildOp says for a cm:folder |
| RepoUtils.CreateFolder | src/main/java/org/acme/bestpublishing/services/AlfrescoRepoUtilsServiceImpl.java:133-150 | createFolder on the repository, as GetOrCreateChildOp says for the requested type |
| RepoUtils.CreateFileMetadataOnlyEffect | src/main/java/org/acme/bestpublishing/services/AlfrescoRepoUtilsServiceImpl.java:166-185 | the answer is null exactly when the name is taken, and then nothing changes; otherwise one cm:content child of that name without content is appended |
| RepoUtils.GetOrCreateFileEffect | src/main/java/org/acme/bestpublishing/services/AlfrescoRepoUtilsServiceImpl.java:152-164 | an existing file is returned as it is, content included, and nothing changes; otherwise a new cm:content child holds the given content and mimetype |
| RepoUtils.CreateFileMetadataOnly | src/main/java/org/acme/bestpublishing/services/AlfrescoRepoUtilsServiceImpl.java:166-185 | createFileMetadataOnly on the repository |
| RepoUtils.CreateFile | src/main/java/org/acme/bestpublishing/services/AlfrescoRepoUtilsServiceImpl.java:231-248 | createFile with in-memory content, on the repository |
| RepoUtils.GetOrCreateFile | src/main/java/org/acme/bestpublishing/services/AlfrescoRepoUtilsServiceImpl.java:152-164 | getOrCreateFile on the repository |
| RepoUtils.SearchOne | src/main/java/org/acme/bestpublishing/services/AlfrescoRepoUtilsServiceImpl.java:251-260 | null exactly for no results, otherwise the first result |
| RepoUtils.NodeByXPath | src/main/java/org/acme/bestpublishing/services/AlfrescoRepoUtilsServiceImpl.java:298-312 | a node exactly when one node matches, and then the one searchOne picks |
| RepoUtils.FromHexOfHex | src/main/java/org/acme/bestpublishing/services/AlfrescoRepoUtilsServiceImpl.java:429-441 | the hex text decodes back to the bytes it was made from |
| RepoUtils.HexInjective | src/main/java/org/acme/bestpublishing/services/AlfrescoRepoUtilsServiceImpl.java:429-441 | different byte arrays never print to the same hex text |
| RepoUtils.ByteHexReadsBack | src/main/java/org/acme/bestpublishing/services/AlfrescoRepoUtilsServiceImpl.java:429-441 | each byte's two digits read back as that byte |
| RepoUtils.PaddedByteHex | src/main/java/org/acme/bestpublishing/services/AlfrescoRepoUtilsServiceImpl.java:432-440 | toHexString with a '0' padded in front of a single digit, upper-cased, gives the byte's two upper-case digits |
| RepoUtils.ConvertByteArrayToHex | src/main/java/org/acme/bestpublishing/services/AlfrescoRepoUtilsServiceImpl.java:429-441 | the loop's text is two upper-case hex digits per byte, in order |
| RepoUtils.ComputeHash | src/main/java/org/acme/bestpublishing/services/AlfrescoRepoUtilsServiceImpl.java:393-421 | the stream is read to its end and the digest of its bytes is printed in hex; a stream that fails gives null |
| RepoUtils.SameContentMeaning | src/main/java/org/acme/bestpublishing/services/AlfrescoRepoUtilsServiceImpl.java:361-369 | when both contents are read, the answer is whether their digests agree; when both reads fail the answer is true, and when one fails it is false |
| RepoUtils.HasSameContent | src/main/java/org/acme/bestpublishing/services/AlfrescoRepoUtilsServiceImpl.java:361-369 | hasSameContent reads each node's content through its own stream, as SameContent says |
| RepoUtils.GetDocumentContentBytes | src/main/java/org/acme/bestpublishing/services/AlfrescoRepoUtilsServiceImpl.java:443-479 | null when the node has no content or its stream fails, otherwise exactly the stored bytes |
| Publishing.CreateZipEntryPath | src/main/java/org/acme/bestpublishing/services/PublishingServiceImpl.java:497-507 | a folder entry ends in '/'; a file entry ends in the file's name |
| Publishing.EntryPathNames | src/main/java/org/acme/bestpublishing/services/PublishingServiceImpl.java:497-507 | the '/'-separated names of an entry path are the parent's names (none for a blank parent) followed by the entry's own name |
| Publishing.ContentBytes | src/main/java/org/acme/bestpublishing/services/PublishingServiceImpl.java:424-434 | a node's bytes are copied exactly when it has a reader whose stream does not break, and then they are the stored content |
| Publishing.AppendEntry | src/main/java/org/acme/bestpublishing/services/PublishingServiceImpl.java:383-401 | one entry is written exactly when its path is new and its bytes can be read, and then the archive gains that one entry; a repeated path is an IOException |
| Publishing.AddChildrenOp | src/main/java/org/acme/bestpublishing/services/PublishingServiceImpl.java:459-483 | the loop over a folder's children only extends the archive, and keeps entry paths distinct |
| Publishing.FolderEntries | src/main/java/org/acme/bestpublishing/services/PublishingServiceImpl.java:459-483 | one entry per child |
| Publishing.AddChildrenMeaning | src/main/java/org/acme/bestpublishing/services/PublishingServiceImpl.java:453-487 | copying a folder's children succeeds exactly when every child is readable and no entry path repeats, and then appends one entry per child, in child order, holding the child's bytes under parent/name |
| Publishing.OptionalFolderContent | src/main/java/org/acme/bestpublishing/services/PublishingServiceImpl.java:300-331 | a present Styles, Artwork or Supplementary folder adds its children's entries under its EPUB path; a missing one adds nothing |
| Publishing.ChapterFoldersContent | src/main/java/org/acme/bestpublishing/services/PublishingServiceImpl.java:333-342 | the chapter loop adds the entries of the chapter-folder children only, in child order, into the OPS folder |
| Publishing.SubFoldersContent | src/main/java/org/acme/bestpublishing/services/PublishingServiceImpl.java:292-347 | addIsbnSubFolders2EPub appends the styles, artwork, supplementary and chapter entries, in that order, with distinct paths |
| Publishing.MimetypeEntry | src/main/java/org/acme/bestpublishing/services/PublishingServiceImpl.java:202-212 | the mimetype entry sits at the top level and holds application/epub+zip |
| Publishing.MetaInfEntry | src/main/java/org/acme/bestpublishing/services/PublishingServiceImpl.java:225-242 | container.xml goes into META-INF, after mimetype |
| Publishing.HeadEntries | src/main/java/org/acme/bestpublishing/services/PublishingServiceImpl.java:107-114 | the archive starts with mimetype, then META-INF/container.xml, then the package file |
| Publishing.EpubContents | src/main/java/org/acme/bestpublishing/services/PublishingServiceImpl.java:104-117 | a finished archive holds exactly mimetype, container.xml, the package file, then the subfolder entries, in that order, under distinct paths |
| Publishing.EpubMissingPackage | src/main/java/org/acme/bestpublishing/services/PublishingServiceImpl.java:256-267 | a missing package file is an AlfrescoRuntimeException |
| Publishing.EpubPackageNotContent | src/main/java/org/acme/bestpublishing/services/PublishingServiceImpl.java:412-443 | a package file that is not a content node is an IllegalArgumentException |
| Publishing.ContainerNamesPackage | src/main/java/org/acme/bestpublishing/services/PublishingServiceImpl.java:225-242 | with the documented layout, container.xml names the path where the package file is written |
| Publishing.NextVersion | src/main/java/org/acme/bestpublishing/services/PublishingServiceImpl.java:362-367 | a blank version is followed by 1.0; the only failures are substring and parseInt exceptions |
| Publishing.NextPublishedVersion | src/main/java/org/acme/bestpublishing/services/PublishingServiceImpl.java:355-371 | 1.0 without the web-publishing aspect; otherwise the version after the stored one |
| Publishing.NextVersionOfMajor | src/main/java/org/acme/bestpublishing/services/PublishingServiceImpl.java:364-367 | "{major}.{anything}" is followed by "{major + 1}.0", with int wrap-around |
| Publishing.NextVersionExamples | src/main/java/org/acme/bestpublishing/services/PublishingServiceImpl.java:355-371 | 1.0 is followed by 2.0, and 10.3 by 11.0 |
| Publishing.NextVersionWraps | src/main/java/org/acme/bestpublishing/services/PublishingServiceImpl.java:366 | after the largest int comes the smallest |
| Publishing.RepublishCountsOn | src/main/java/org/acme/bestpublishing/services/PublishingServiceImpl.java:364-367 | every produced version is again of the form "{major}.0", so the next publish moves on by one more |
| Publishing.VersionWithoutDotThrows | src/main/java/org/acme/bestpublishing/services/PublishingServiceImpl.java:365 | a non-blank version without '.' makes substring throw |
| Publishing.VersionNotNumericThrows | src/main/java/org/acme/bestpublishing/services/PublishingServiceImpl.java:365 | a major part that is not a number makes parseInt throw |
| Publishing.NormalizePickup | src/main/java/org/acme/bestpublishing/services/PublishingServiceImpl.java:151-153 | a non-empty pickup directory ends in '/' afterwards, with one '/' appended or none |
| Publishing.NormalizePickupIdempotent | src/main/java/org/acme/bestpublishing/services/PublishingServiceImpl.java:151-153 | normalising again adds nothing, so repeated publishes do not grow the setting |
| Publishing.DeliverEffect | src/main/java/org/acme/bestpublishing/services/PublishingServiceImpl.java:146-183 | a successful delivery leaves the temporary file's bytes at {isbn}.epub in the normalised pickup directory, whatever was there; a failed delivery of a regular temporary file leaves no {isbn}.epub that was not there before; every path apart from the temporary file, its moved copy and {isbn}.epub is untouched |
| Publishing.TempHoldsArchive | src/main/java/org/acme/bestpublishing/services/PublishingServiceImpl.java:102-105 | once written, the temporary file holds the archive's bytes |
| Publishing.PublishDelivers | src/main/java/org/acme/bestpublishing/services/PublishingServiceImpl.java:90-194 | an answer of true means the whole archive was built and its encoding lies at {isbn}.epub in the normalised pickup directory |
| Publishing.PublishRecordsVersion | src/main/java/org/acme/bestpublishing/services/PublishingServiceImpl.java:119-127 | once the archive is built, the book folder carries the web-publishing aspect, the new date and the new version, whether or not the delivery succeeds |
| Publishing.RepublishIncrements | src/main/java/org/acme/bestpublishing/services/PublishingServiceImpl.java:119-127 | after a publish stored "{major}.0", the next publish computes "{major + 1}.0" |
| Publishing.PublishMissingPackage | src/main/java/org/acme/bestpublishing/services/PublishingServiceImpl.java:114 | a missing package file escapes as an AlfrescoRuntimeException, leaving the repository and the pickup setting alone |
| Publishing.PublishIOFailureQuiet | src/main/java/org/acme/bestpublishing/services/PublishingServiceImpl.java:130-132 | an IOException while writing is logged: the answer is false and the repository is untouched |
| Publishing.PutNodeEntry | src/main/java/org/acme/bestpublishing/services/PublishingServiceImpl.java:464-481 | one loop body on the stream: putNextEntry, the copy and closeEntry, as NodeEntryOp says |
| Publishing.AddFile2Zip | src/main/java/org/acme/bestpublishing/services/PublishingServiceImpl.java:381-402 | addFile2Zip on the stream, as AddFile2ZipOp says |
| Publishing.AddContentNode2Zip | src/main/java/org/acme/bestpublishing/services/PublishingServiceImpl.java:412-443 | addContentNode2Zip on the stream |
| Publishing.AddFolderNodeContents2Zip | src/main/java/org/acme/bestpublishing/services/PublishingServiceImpl.java:453-487 | addFolderNodeContents2Zip on the stream, one entry per child in child order |
| Publishing.AddMimetypeFile2EPub | src/main/java/org/acme/bestpublishing/services/PublishingServiceImpl.java:202-212 | addMimetypeFile2EPub on the stream |
| Publishing.AddMetaInfFolder2EPub | src/main/java/org/acme/bestpublishing/services/PublishingServiceImpl.java:225-242 | addMetaInfFolder2EPub on the stream |
| Publishing.AddPackageFile2EPub | src/main/java/org/acme/bestpublishing/services/PublishingServiceImpl.java:256-267 | addPackageFile2EPub on the stream |
| Publishing.AddOptionalFolder | src/main/java/org/acme/bestpublishing/services/PublishingServiceImpl.java:300-331 | one optional subfolder on the stream |
| Publishing.AddIsbnSubFolders2EPub | src/main/java/org/acme/bestpublishing/services/PublishingServiceImpl.java:292-347 | addIsbnSubFolders2EPub on the stream |
| Publishing.WriteEpub | src/main/java/org/acme/bestpublishing/services/PublishingServiceImpl.java:107-117 | the four add calls on the stream, stopping at the first exception, as EpubEntriesOp says |
| Publishing.PublishingService.constructor | src/main/java/org/acme/bestpublishing/services/PublishingServiceImpl.java:66-82 | the service holds the configured pickup directory |
| Publishing.PublishingService.DeliverToPickup | src/main/java/org/acme/bestpublishing/services/PublishingServiceImpl.java:146-183 | the delivery steps change the filesystem and the pickup setting as DeliverOp says |
| Publishing.PublishingService.CreateAndStoreEPubArtifact | src/main/java/org/acme/bestpublishing/services/PublishingServiceImpl.java:88-194 | the repository, the filesystem, the pickup setting and the answer are those PublishOp describes; where the archive broke off midway, only the temporary file is left unspecified |
| Publishing.PublishingService.BuildAndDeliver | src/main/java/org/acme/bestpublishing/services/PublishingServiceImpl.java:100-187 | the try and finally blocks, once the temporary file exists |
| Publishing.PublishingService.RecordAndDeliver | src/main/java/org/acme/bestpublishing/services/PublishingServiceImpl.java:119-187 | recording the version and date, closing the stream and delivering |
| IngestionExecuter.Wrap64 | src/main/java/org/acme/bestpublishing/actions/AbstractIngestionExecuter.java:155 | the run counter is a Java long: it stays in the 64-bit range and wraps from the largest to the smallest long |
| IngestionExecuter.ProcessZipsOp | src/main/java/org/acme/bestpublishing/actions/AbstractIngestionExecuter.java:176-195 | every ZIP handed over is finished, except the one that stopped the loop; the loop stops early exactly when something was logged |
| IngestionExecuter.HandedIsbns | src/main/java/org/acme/bestpublishing/actions/AbstractIngestionExecuter.java:176-183 | each ISBN handed to processZipFile is an ISBN and the base name of the ZIP at that position; the loop stops at a name that is not an ISBN, without handing it over |
| IngestionExecuter.ListingWellFormed | src/main/java/org/acme/bestpublishing/actions/AbstractIngestionExecuter.java:172 | the ZIP listing of a directory never holds failedProcessing, and names each entry once |
| IngestionExecuter.DeleteFrame | src/main/java/org/acme/bestpublishing/actions/AbstractIngestionExecuter.java:185-187 | deleting one ZIP leaves the other files of the directory, and ZIPs already quarantined under other names, as they were |
| IngestionExecuter.QuarantineFrame | src/main/java/org/acme/bestpublishing/actions/AbstractIngestionExecuter.java:188-192 | quarantining one ZIP leaves the other files of the directory, and ZIPs already quarantined under other names, as they were |
| IngestionExecuter.StepFrame | src/main/java/org/acme/bestpublishing/actions/AbstractIngestionExecuter.java:185-192 | finishing one ZIP, by either path, leaves the other files of the directory, and ZIPs quarantined under other names, as they were |
| IngestionExecuter.ScanFrame | src/main/java/org/acme/bestpublishing/actions/AbstractIngestionExecuter.java:176-195 | the rest of a scan leaves a file it does not list as it was, and also a ZIP already quarantined under such a name |
| IngestionExecuter.FirstFate | src/main/java/org/acme/bestpublishing/actions/AbstractIngestionExecuter.java:185-192 | once the first ZIP is finished it is gone from the directory; if rejected, failedProcessing holds its bytes |
| IngestionExecuter.TailWellListed | src/main/java/org/acme/bestpublishing/actions/AbstractIngestionExecuter.java:176-195 | after the first ZIP is finished, the rest of the listing still names distinct files of the directory |
| IngestionExecuter.ScanFates | src/main/java/org/acme/bestpublishing/actions/AbstractIngestionExecuter.java:176-195 | every finished ZIP has gone from the directory: deleted when imported, moved with its bytes into failedProcessing when rejected |
| IngestionExecuter.ScanLeavesRest | src/main/java/org/acme/bestpublishing/actions/AbstractIngestionExecuter.java:176-195 | the ZIPs the loop did not hand over, and the one it stopped at, are as they were |
| IngestionExecuter.CompletedScanEmptiesQueue | src/main/java/org/acme/bestpublishing/actions/AbstractIngestionExecuter.java:172-194 | a scan that runs to the end finishes every listed ZIP, so the queue size it leaves is 0 |
| IngestionExecuter.BadDirectoryTouchesNothing | src/main/java/org/acme/bestpublishing/actions/AbstractIngestionExecuter.java:164-170 | a missing directory, or a path that is a plain file, is logged with its own error code before anything is touched |
| IngestionExecuter.IngestionExecuterState.constructor | src/main/java/org/acme/bestpublishing/actions/AbstractIngestionExecuter.java:59-69 | a new executer has the configured path, no last run, no runs and an empty queue |
| IngestionExecuter.IngestionExecuterState.Execute | src/main/java/org/acme/bestpublishing/actions/AbstractIngestionExecuter.java:150-201 | the run is recorded (time set, counter moved on by one, wrapping as a long) whatever follows; the filesystem is what the scan leaves; the queue size is the number of listed ZIPs not finished, or unchanged when the directory check fails; the answer is what the catch block logs, nothing when the loop ran to the end |

## Left out

- Logging, transactions and concurrency: the model runs one call at a time and does not record log lines.
- The Alfresco services are reduced to what the core uses:
  - a node store with names, types, aspects, properties, ordered children and content;
  - a name lookup among children (`getChildByName`);
  - node creation that refuses a taken name;
  - `setProperty`, which adds the aspect that defines the property, as Alfresco does;
  - content readers.
  The dictionary, the permission and authority services, and versioning are not part of this model.
- `getCompanyHome` and `getDataDictionary`: node locators of the platform. Company Home is a parameter of the members that start from it.
- `search`: the Lucene/FTS query engine is not part of this model. Where the core searches, the result list is a parameter: `searchOne`, `getNodeByXPath`, `checkModifiedDates`.
- `isPartOfGroup`: the authority service is not part of this model.
- `getOrCreateXMLFileMetadata`: it sets a mimetype on an empty content property. The node store here does not separate a content property from its bytes.
- `copyAspects`: which properties belong to an aspect comes from the dictionary service, which is not part of this model.
- `createFile(File)` and `createFile(InputStream)`: the MIME type comes from Tika detection, and the bytes from a local file. Only `createFile` with in-memory content is modelled (`RepoUtils.CreateFile`).
- `writeJsonResponse`: it writes an HTTP response of the web-script container, which is not part of this model.
- `getBaseFolderForIsbn`: a composition of `getBaseFolderForBooks` and `getChildByName`, both modelled. It is not written out again. That the ISBN folder made by `createChapterFolders` is the year folder's child of that name is stated by `BestPubUtils.CreateChapterFoldersEffect`.
- `getAvailableGenreNames`: it reads the genre constraint from the dictionary service. The genre list constant is modelled (`BestPubContentModel.GenreListDistinct`).
- `getSortedChapterFolders` (legacy): its `ChapterFolderInfo` key class and that class's ordering are not in the source. The ordering of `ChapterMetadataInfo` is modelled instead (`ChapterMetadata.SortChaptersCorrect`). The acme class does not implement it.
- `getChapterFolderName` exists only in the interface. The name it documents is modelled as `BestPubUtils.ChapterFolderName`, the form `createChapterFolders` builds inline.
- `BestPubUtils.FormatDate`: `SimpleDateFormat` is a parameter `format`. The null case follows the code, which returns null where the interface documentation promises an empty string.
- `BestPubUtils.CheckModifiedDates`: the search query text (the XPath and the ISO 8601 date) is not built. The nodes it finds are a parameter.
- `BestPubUtils.BaseFolderForBooksOp`: the current year (`Calendar`) is a parameter.
- `BestPubUtils.FindFilesUsingExtensionMeaning`: the order in which `listFiles` returns entries is not modelled, so the result is stated as a set. `equalsIgnoreCase` and `toLowerCase` fold ASCII letters only.
- `LegacyBestPubUtils.LegacyChapterDestinationFolder`: `toLowerCase` folds ASCII letters only.
- `LegacyBestPubUtils.IsRhoIsbn`: locating the filter file by its display path is left to the caller. The file's bytes are a parameter, and UTF-8 decoding is a parameter `decode`.
- `LegacyBestPubUtils.ApplySurveyMetadataOp`: the survey types are not in the source. What the method sets once the filter lets the ISBN through is a parameter `populate`. Only the filter guard is modelled.
- `LegacyBestPubUtils.RemoveSpecialCharacters`: private and called nowhere in either class. It is modelled for its text contract only.
- `JavaText.ParseInt`: Unicode digits and radix prefixes are not modelled. It accepts an optional sign and ASCII digits within the `int` range, as `Integer.parseInt` does for ASCII input.
- `RepoUtils.ComputeHash`: the MD5 digest is a parameter `digest`. The `NoSuchAlgorithmException` branch is not modelled, because MD5 is always available.
- `RepoUtils.HasSameContent` and `RepoUtils.GetDocumentContentBytes`: where a stream breaks is a parameter `failAt`. Closing a stream never fails.
- `ProcessingErrors.GetErrorCode`: `errorCode` is never null in the model, because every caller in the core passes an enum constant. The Java constructor would accept null: `equals` and `hashCode` handle it, and `getErrorCode` would throw a `NullPointerException`.
- `Publishing.NextPublishedVersion`: a stored version that is not text counts as null.
- `Publishing.PublishingService.CreateAndStoreEPubArtifact`:
  - the EPUB file and folder names (`OPS`, `package.opf`, `css`, `images`) are in a parameter of type `EpubLayout`;
  - the temporary file's UUID name and the temp directory are parameters;
  - the DEFLATE encoding of the archive is a parameter `encode`;
  - `String.getBytes()` is a parameter `charset`;
  - the clock is a parameter;
  - where the archive broke off midway, the bytes left in the temporary file are not stated, only that every path apart from it is untouched.
- `Publishing.DeliverEffect`: the guarantee that a failed delivery adds no {isbn}.epub is stated for a temporary file that is a regular file (or missing), which is what `createTempFile` makes. The guarantee about untouched paths covers paths apart from the temporary file, its moved copy and the final artifact (neither above nor below them).
- `IngestionExecuter.IngestionExecuterState.Execute`:
  - `processZipFile` is abstract, so it is a parameter `process` giving, for each ZIP, the outcome import, reject or exception. What an importer does to the repository is not modelled.
  - The incoming folder found by `getNodeByXPath` is only passed on to `processZipFile`, so it is left out.
  - The order in which the directory lists its ZIPs is a parameter `listing`.
  - `File.delete` is modelled as removing the file. Its answer is ignored, as in the source.
- `IngestionExecuter.ScanFates`: it is stated for listings whose entries are regular files. `findFilesUsingExtension` also lists a directory whose name ends in `.zip`, and for such an entry only the frame lemmas apply.
- `ContentStore.ChildByName`: child names compare exactly. The repository compares `cm:name` without regard to case, both in `getChildByName` and in the duplicate-name check of node creation; that case folding is not modelled.
- `ContentStore.CreateNodeOp`: because names compare exactly, it accepts a child whose name differs from a sibling's only in case, which the repository refuses as a duplicate.
- `BestPubUtils.AddChapterFoldersEffect` and `BestPubUtils.CreateChapterFoldersEffect`: "the names are free and differ" means exactly equal names. The chapter folder names the core builds (`chapter-` and a number) contain no upper-case letters, but an existing sibling such as `Chapter-1` would make the repository refuse where the model succeeds.
- `LegacyBestPubUtils.ChapterFolderOfField`: the lookup finds a folder whose name equals the lower-cased field exactly. An existing folder named, say, `Chapter8` is found by the repository and not by the model.
- `MetadataFileModel.Parse`: the core has no reader for the metadata file. `Parse` reads the line format the class documentation shows (`key=value`, one per line), not a `java.util.Properties` loader, which would also trim blanks around the separator, accept ':' and skip '#' comment lines.
- The filesystem is a tree of directories and files. Paths are split on '/' with empty pieces dropped, relative paths are taken from the root, and symbolic links and permissions are not modelled.
