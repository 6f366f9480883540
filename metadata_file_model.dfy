/**
 * The property names of the book and chapter metadata text files, and the `key=value` line
 * format those files are written in.
 */
module MetadataFileModel {
  import opened JavaText

  const BookMetadataTitlePropName: string := "bookTitle"
  const BookMetadataGenrePropName: string := "bookGenre"
  const BookMetadataAuthorsPropName: string := "bookAuthors"
  const BookMetadataNrOfChaptersPropName: string := "nrOfChapters"
  const BookMetadataNrOfPagesPropName: string := "nrOfPages"

  const ChapterMetadataNumberPropName: string := "chapterNumber"
  const ChapterMetadataTitlePropName: string := "chapterTitle"
  const ChapterMetadataAuthorPropName: string := "chapterAuthor"

  /** Used for an existing chapter folder. */
  const ChapterFolderNamePropName: string := "chapterFolderName"

  const BookKeys: seq<string> := [BookMetadataTitlePropName, BookMetadataGenrePropName,
    BookMetadataAuthorsPropName, BookMetadataNrOfChaptersPropName, BookMetadataNrOfPagesPropName]
  const ChapterKeys: seq<string> := [ChapterMetadataNumberPropName, ChapterMetadataTitlePropName,
    ChapterMetadataAuthorPropName]
  const AllKeys: seq<string> := BookKeys + ChapterKeys + [ChapterFolderNamePropName]

  /** All nine key names differ, so in particular the book and chapter key sets are disjoint. */
  lemma KeysDistinct()
    ensures forall i, j :: 0 <= i < j < |AllKeys| ==> AllKeys[i] != AllKeys[j]
    ensures forall k :: k in BookKeys ==> k !in ChapterKeys
  {
    forall i, j | 0 <= i < j < |AllKeys| ensures AllKeys[i] != AllKeys[j] {
      var a, b := AllKeys[i], AllKeys[j];
      assert |a| != |b| || a[0] != b[0] || a[4] != b[4] || a[7] != b[7];
    }
    forall k | k in BookKeys ensures k !in ChapterKeys {
      var i :| 0 <= i < 5 && BookKeys[i] == k;
      assert AllKeys[i] == k;
    }
  }

  /** One line of a metadata file. */
  function Line(key: string, value: string): string {
    key + "=" + value
  }

  /** A metadata file: one `key=value` line per entry. */
  function Render(entries: seq<(string, string)>): string {
    Join(seq(|entries|, k requires 0 <= k < |entries| => Line(entries[k].0, entries[k].1)), '\n')
  }

  /** A line read back: the text before the first '=' is the key, the rest the value. */
  function ParseLine(line: string): (string, string) {
    var i := IndexOf(line, '=');
    if i < 0 then (line, "") else (line[..i], line[i + 1..])
  }

  /** The non-empty lines of a metadata file, each read back as a key and a value. */
  function Parse(text: string): seq<(string, string)> {
    var lines := Split(text, '\n');
    seq(|lines|, k requires 0 <= k < |lines| => ParseLine(lines[k]))
  }

  /** An entry that can be written as a line: a non-empty key without '=' or line break, a value without line break. */
  predicate Writable(e: (string, string)) {
    |e.0| > 0 && '=' !in e.0 && '\n' !in e.0 && '\n' !in e.1
  }

  lemma ParseLineOfLine(key: string, value: string)
    requires '=' !in key
    ensures ParseLine(Line(key, value)) == (key, value)
  {
    var l := Line(key, value);
    assert l[..|key|] == key;
    IndexOfAt(l, '=', |key|);
    assert l[|key| + 1..] == value;
  }

  /** Reading a written metadata file gives back its entries, in order. */
  lemma ParseRender(entries: seq<(string, string)>)
    requires forall k :: 0 <= k < |entries| ==> Writable(entries[k])
    ensures Parse(Render(entries)) == entries
  {
    var lines := seq(|entries|, k requires 0 <= k < |entries| => Line(entries[k].0, entries[k].1));
    forall k | 0 <= k < |lines| ensures |lines[k]| > 0 && '\n' !in lines[k] {
      assert lines[k] == entries[k].0 + "=" + entries[k].1;
    }
    SplitJoin(lines, '\n');
    forall k | 0 <= k < |entries| ensures ParseLine(lines[k]) == entries[k] {
      ParseLineOfLine(entries[k].0, entries[k].1);
    }
  }
}
