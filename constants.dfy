/**
 * The compiled form of the ISBN pattern `^(97[8|9]\d{10})` shared by both code bases,
 * and what a full match (Matcher.matches) of it accepts.
 */
module IsbnPattern {
  import opened JavaText

  /** One element of a regular expression without alternation. */
  datatype Atom =
    | Literal(c: char)       // a character that stands for itself
    | AnyOf(cs: set<char>)   // a bracketed character class: every character between the brackets
    | Digit                  // \d, the ASCII digits 0-9 (Java's default, without UNICODE_CHARACTER_CLASS)

  /** An atom with a fixed repetition count (`x{n}`; a bare atom has count 1). */
  datatype Piece = Piece(atom: Atom, count: nat)

  /**
   * `^(97[8|9]\d{10})`: the anchor and the group do not change what a full match accepts; inside
   * brackets `|` is an ordinary member of the class, not alternation.
   */
  const Pattern: seq<Piece> := [Piece(Literal('9'), 1), Piece(Literal('7'), 1), Piece(AnyOf({'8', '|', '9'}), 1), Piece(Digit, 10)]

  predicate AtomMatches(a: Atom, c: char) {
    match a
    case Literal(l) => c == l
    case AnyOf(cs) => c in cs
    case Digit => IsAsciiDigit(c)
  }

  /** Matcher.matches(): the whole of `s` is consumed by the pieces, in order. */
  predicate FullMatch(ps: seq<Piece>, s: string)
    decreases |ps|, if |ps| == 0 then 0 else ps[0].count
  {
    if |ps| == 0 then |s| == 0
    else if ps[0].count == 0 then FullMatch(ps[1..], s)
    else |s| > 0 && AtomMatches(ps[0].atom, s[0]) && FullMatch([Piece(ps[0].atom, ps[0].count - 1)] + ps[1..], s[1..])
  }

  /** The number of characters every full match of a fixed-count pattern has. */
  function MatchLength(ps: seq<Piece>): nat {
    if |ps| == 0 then 0 else ps[0].count + MatchLength(ps[1..])
  }

  /** `n` repetitions of the digit class match exactly the digit strings of length `n`. */
  lemma {:induction false} DigitRun(n: nat, s: string)
    ensures FullMatch([Piece(Digit, n)], s) <==> |s| == n && AllDigits(s)
  {
    if n == 0 {
      assert [Piece(Digit, 0)][1..] == [];
    } else {
      assert [Piece(Digit, n - 1)] + [Piece(Digit, n)][1..] == [Piece(Digit, n - 1)];
      if |s| > 0 {
        DigitRun(n - 1, s[1..]);
        assert AllDigits(s) <==> IsAsciiDigit(s[0]) && AllDigits(s[1..]);
      }
    }
  }

  /** A single-character piece in front of a pattern consumes exactly the first character. */
  lemma OnePiece(a: Atom, rest: seq<Piece>, s: string)
    ensures FullMatch([Piece(a, 1)] + rest, s) <==> |s| > 0 && AtomMatches(a, s[0]) && FullMatch(rest, s[1..])
  {
    var ps := [Piece(a, 1)] + rest;
    assert ps[1..] == rest;
    assert [Piece(a, 0)] + rest == [Piece(a, 0)] + ps[1..];
    assert ([Piece(a, 0)] + rest)[1..] == rest;
  }

  /**
   * What a full match of the ISBN pattern accepts: thirteen characters, "97", one of '8', '|' or '9',
   * then ten ASCII digits.
   */
  lemma IsbnMatch(s: string)
    ensures FullMatch(Pattern, s) <==>
      |s| == 13 && s[0] == '9' && s[1] == '7' && s[2] in {'8', '|', '9'} && AllDigits(s[3..])
  {
    var p3 := [Piece(Digit, 10)];
    var p2 := [Piece(AnyOf({'8', '|', '9'}), 1)] + p3;
    var p1 := [Piece(Literal('7'), 1)] + p2;
    assert Pattern == [Piece(Literal('9'), 1)] + p1;
    OnePiece(Literal('9'), p1, s);
    if |s| > 0 {
      OnePiece(Literal('7'), p2, s[1..]);
      if |s| > 1 {
        OnePiece(AnyOf({'8', '|', '9'}), p3, s[2..]);
        if |s| > 2 {
          DigitRun(10, s[3..]);
          assert s[1..][1..][1..] == s[3..];
        }
      }
    }
  }

  /** Every string the pattern fully matches has the pattern's fixed length, thirteen. */
  lemma MatchHasIsbnLength(s: string)
    requires FullMatch(Pattern, s)
    ensures |s| == MatchLength(Pattern) == 13
  {
    IsbnMatch(s);
  }

  /** The bracketed class admits '|': "97|" followed by ten digits is accepted. */
  lemma PipeIsAccepted()
    ensures FullMatch(Pattern, "97|1234567890")
  {
    IsbnMatch("97|1234567890");
  }

  /** The documented example of an ISBN is accepted. */
  lemma DocumentedIsbnIsAccepted()
    ensures FullMatch(Pattern, "9780203093474")
  {
    IsbnMatch("9780203093474");
  }
}

/** The path, folder-name and ISBN constants of the acme solution. */
module BestPubConstants {

  const IsbnNumberLength: nat := 13

  /** The pattern's text as written; its compiled form is IsbnPattern.Pattern. */
  const IsbnRegexpText: string := "^(97[8|9]\\d{10})"

  const CompanyHomeName: string := "Company Home"
  const DataDictionaryName: string := "Data Dictionary"
  const SitesName: string := "Sites"
  const DocumentLibraryName: string := "documentLibrary"

  const BookManagementSiteName: string := "book-management"
  const BestPubFolderName: string := "BestPub"
  const ChaptersFolderName: string := "Chapters"
  const ArtworkFolderName: string := "Artwork"
  const SupplementaryFolderName: string := "Supplementary"
  const StylesFolderName: string := "Styles"
  const DataDictionaryBestPubFolderPath: string := "/" + DataDictionaryName + "/" + BestPubFolderName
  const MetadataCheckerStatusFolderName: string := "Metadata Checker"
  const MetadataCheckerStatusFolderPath: string := DataDictionaryBestPubFolderPath + "/" + MetadataCheckerStatusFolderName
  const IncomingBaseFolderPath: string := DataDictionaryBestPubFolderPath + "/Incoming"
  const IncomingContentFolderPath: string := IncomingBaseFolderPath + "/Content"
  const IncomingMetadataFolderPath: string := IncomingBaseFolderPath + "/Metadata"
  const IncomingPubStatusFolderPath: string := IncomingBaseFolderPath + "/PublishingStatus"
  const PathToBestPub: string := "/app:company_home/cm:" + BestPubFolderName

  /** Chapter folders are named chapter-1, chapter-2, ... */
  const ChapterFolderNamePrefix: string := "chapter"

  /** The XPath to the BestPub folder ends with the folder name the display paths use. */
  lemma PathToBestPubNamesFolder()
    ensures PathToBestPub == "/app:company_home/cm:BestPub"
    ensures PathToBestPub[|PathToBestPub| - |BestPubFolderName|..] == BestPubFolderName
  {
  }
}

/** The path, folder-name and ISBN constants of the older marversolutions code base. */
module LegacyConstants {
  import BestPubConstants

  const IsbnNumberLength: nat := 13
  const IsbnRegexpText: string := "^(97[8|9]\\d{10})"

  const CompanyHomeName: string := "Company Home"
  const DataDictionaryName: string := "Data Dictionary"
  const BestPubFolderName: string := "BESTPUB"
  const AdobeFolderName: string := "Adobe"
  const AdobeChaptersFolderName: string := "Adobe Chapters"
  const ArtworkFolderName: string := "Artwork"
  const SupplementaryFolderName: string := "Supplementary"
  const DataDictionaryBestPubFolderPath: string := "/" + DataDictionaryName + "/BESTPUB"
  const MetadataCheckerStatusFolderName: string := "Metadata Checker"
  const MetadataCheckerStatusFolderPath: string := DataDictionaryBestPubFolderPath + "/" + MetadataCheckerStatusFolderName
  const IncomingBaseFolderPath: string := DataDictionaryBestPubFolderPath + "/Incoming"
  const IncomingContentFolderPath: string := IncomingBaseFolderPath + "/Content"
  const IncomingMetadataFolderPath: string := IncomingBaseFolderPath + "/Metadata"
  const IncomingManualMetadataFolderPath: string := IncomingMetadataFolderPath + "/Manual"
  const IncomingPubStatusFolderPath: string := IncomingBaseFolderPath + "/PublishingStatus"
  const PathToBestPub: string := "/app:company_home/cm:BESTPUB"

  /** Chapter folders are named chapter1, chapter2, ... (no dash). */
  const ChapterFolderNamePrefix: string := "chapter"

  /**
   * The legacy constants: the same ISBN length and pattern text as the acme code (so the same
   * compiled pattern), an upper-case BESTPUB folder, and a Manual folder under Metadata.
   */
  lemma LegacyAgreement()
    ensures IsbnNumberLength == BestPubConstants.IsbnNumberLength
    ensures IsbnRegexpText == BestPubConstants.IsbnRegexpText
    ensures DataDictionaryBestPubFolderPath != BestPubConstants.DataDictionaryBestPubFolderPath
    ensures IncomingManualMetadataFolderPath == IncomingMetadataFolderPath + "/Manual"
    ensures PathToBestPub == "/app:company_home/cm:" + BestPubFolderName
  {
    assert DataDictionaryBestPubFolderPath[18] != BestPubConstants.DataDictionaryBestPubFolderPath[18];
  }
}
