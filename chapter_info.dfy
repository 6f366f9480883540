/** ChapterMetadataInfo: the metadata read from one chapter's text file, ordered by chapter number. */
module ChapterMetadata {
  import opened Wrappers
  import opened JavaText

  /** An immutable record; the getters return these fields as the constructor stored them. */
  datatype ChapterMetadataInfo = ChapterMetadataInfo(
    chapterNr: Int32,
    chapterTitle: Option<string>,
    chapterAuthor: Option<string>,
    txtFilename: Option<string>)

  /** compareTo: -1 for null, else the int difference of the chapter numbers (which can wrap around). */
  function CompareTo(self: ChapterMetadataInfo, other: Option<ChapterMetadataInfo>): Int32 {
    match other
    case None => -1
    case Some(o) => Wrap32(self.chapterNr - o.chapterNr)
  }

  /** Chapter numbers whose difference cannot overflow an int. */
  predicate SmallNr(x: ChapterMetadataInfo) {
    -0x4000_0000 <= x.chapterNr < 0x4000_0000
  }

  /** When the difference fits in an int, the sign of compareTo is the order of the chapter numbers. */
  lemma CompareToFollowsNumbers(a: ChapterMetadataInfo, b: ChapterMetadataInfo)
    requires MinInt <= a.chapterNr - b.chapterNr <= MaxInt
    ensures CompareTo(a, Some(b)) < 0 <==> a.chapterNr < b.chapterNr
    ensures CompareTo(a, Some(b)) == 0 <==> a.chapterNr == b.chapterNr
    ensures CompareTo(a, Some(b)) > 0 <==> a.chapterNr > b.chapterNr
  {
  }

  /** Title, author and file name take no part: only the chapter numbers are compared. */
  lemma CompareToIgnoresText(a: ChapterMetadataInfo, b: ChapterMetadataInfo, c: ChapterMetadataInfo)
    requires b.chapterNr == c.chapterNr
    ensures CompareTo(a, Some(b)) == CompareTo(a, Some(c))
    ensures CompareTo(b, Some(c)) == 0
  {
  }

  /** With large chapter numbers the subtraction wraps: a larger number can compare as smaller. */
  lemma CompareToOverflow()
    ensures var a := ChapterMetadataInfo(MaxInt, None, None, None);
            var b := ChapterMetadataInfo(-1, None, None, None);
            a.chapterNr > b.chapterNr && CompareTo(a, Some(b)) < 0
  {
  }

  /** For chapter numbers small enough, compareTo is antisymmetric and transitive. */
  lemma CompareToIsOrder(a: ChapterMetadataInfo, b: ChapterMetadataInfo, c: ChapterMetadataInfo)
    requires SmallNr(a) && SmallNr(b) && SmallNr(c)
    ensures CompareTo(a, Some(b)) == -CompareTo(b, Some(a))
    ensures CompareTo(a, Some(b)) <= 0 && CompareTo(b, Some(c)) <= 0 ==> CompareTo(a, Some(c)) <= 0
  {
  }

  predicate SortedByNr(xs: seq<ChapterMetadataInfo>) {
    forall i, j :: 0 <= i < j < |xs| ==> xs[i].chapterNr <= xs[j].chapterNr
  }

  /** Inserting one record before the first element that compares greater than it. */
  function Insert(x: ChapterMetadataInfo, xs: seq<ChapterMetadataInfo>): seq<ChapterMetadataInfo> {
    if |xs| == 0 then [x]
    else if CompareTo(x, Some(xs[0])) <= 0 then [x] + xs
    else [xs[0]] + Insert(x, xs[1..])
  }

  /** Sorting by compareTo (a stable insertion sort, standing in for Collections.sort). */
  function SortChapters(xs: seq<ChapterMetadataInfo>): seq<ChapterMetadataInfo> {
    if |xs| == 0 then [] else Insert(xs[0], SortChapters(xs[1..]))
  }

  lemma {:induction false} InsertPermutes(x: ChapterMetadataInfo, xs: seq<ChapterMetadataInfo>)
    ensures multiset(Insert(x, xs)) == multiset(xs) + multiset{x}
  {
    if |xs| > 0 && CompareTo(x, Some(xs[0])) > 0 {
      InsertPermutes(x, xs[1..]);
      assert xs == [xs[0]] + xs[1..];
    }
  }

  /** Every element of an insertion is the inserted record or one of the list's. */
  lemma InsertedFrom(x: ChapterMetadataInfo, xs: seq<ChapterMetadataInfo>, k: nat)
    requires k < |Insert(x, xs)|
    ensures Insert(x, xs)[k] == x || exists j :: 0 <= j < |xs| && xs[j] == Insert(x, xs)[k]
  {
    InsertPermutes(x, xs);
    var y := Insert(x, xs)[k];
    assert y in multiset(Insert(x, xs));
    if y != x {
      assert y in multiset(xs);
    }
  }

  lemma {:induction false} InsertSorted(x: ChapterMetadataInfo, xs: seq<ChapterMetadataInfo>)
    requires SmallNr(x) && forall k :: 0 <= k < |xs| ==> SmallNr(xs[k])
    requires SortedByNr(xs)
    ensures SortedByNr(Insert(x, xs))
  {
    if |xs| > 0 {
      CompareToFollowsNumbers(x, xs[0]);
      if CompareTo(x, Some(xs[0])) > 0 {
        var tail := xs[1..];
        InsertSorted(x, tail);
        var r := Insert(x, tail);
        forall k | 0 <= k < |r| ensures xs[0].chapterNr <= r[k].chapterNr {
          InsertedFrom(x, tail, k);
          if r[k] != x {
            var j :| 0 <= j < |tail| && tail[j] == r[k];
            assert xs[j + 1] == r[k];
          }
        }
        assert Insert(x, xs) == [xs[0]] + r;
      }
    }
  }

  /** Sorting keeps exactly the records it was given. */
  lemma {:induction false} SortChaptersPermutes(xs: seq<ChapterMetadataInfo>)
    ensures multiset(SortChapters(xs)) == multiset(xs)
  {
    if |xs| > 0 {
      SortChaptersPermutes(xs[1..]);
      InsertPermutes(xs[0], SortChapters(xs[1..]));
      assert xs == [xs[0]] + xs[1..];
    }
  }

  /** Sorting yields the same records in ascending chapter-number order, provided no comparison overflows. */
  lemma {:induction false} SortChaptersCorrect(xs: seq<ChapterMetadataInfo>)
    requires forall k :: 0 <= k < |xs| ==> SmallNr(xs[k])
    ensures multiset(SortChapters(xs)) == multiset(xs)
    ensures SortedByNr(SortChapters(xs))
  {
    SortChaptersPermutes(xs);
    if |xs| > 0 {
      var tail := xs[1..];
      var rest := SortChapters(tail);
      SortChaptersCorrect(tail);
      forall k | 0 <= k < |rest| ensures SmallNr(rest[k]) {
        SortedFrom(tail, k);
        var j :| 0 <= j < |tail| && tail[j] == rest[k];
        assert xs[j + 1] == rest[k];
      }
      InsertSorted(xs[0], rest);
    }
  }

  /** Every element of a sorted list is one of the list's. */
  lemma SortedFrom(xs: seq<ChapterMetadataInfo>, k: nat)
    requires k < |SortChapters(xs)|
    ensures exists j :: 0 <= j < |xs| && xs[j] == SortChapters(xs)[k]
  {
    SortChaptersPermutes(xs);
    assert SortChapters(xs)[k] in multiset(SortChapters(xs));
    assert SortChapters(xs)[k] in multiset(xs);
  }
}
