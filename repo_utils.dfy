/**
 * AlfrescoRepoUtilsServiceImpl: path resolution, get-or-create helpers for folders and files,
 * search result selection, content hashing and reading a document's bytes.
 */
module RepoUtils {
  import opened Wrappers
  import opened JavaText
  import opened BestPubContentModel
  import opened ContentStore
  import opened Streams

  // ---------------------------------------------------------------- display paths

  /** getNodeByDisplayPath's path elements: one leading '/' dropped, then StringUtils.split on '/'. */
  function DisplayPathElements(path: string): seq<string> {
    var nodePath := if StartsWith(path, "/") then path[1..] else path;
    Split(nodePath, '/')
  }

  /** Dropping the leading '/' changes nothing, since split discards empty pieces anyway. */
  lemma DisplayPathIsSplit(path: string)
    ensures DisplayPathElements(path) == Split(path, '/')
  {
    if StartsWith(path, "/") {
      SplitAt(path, '/', 0);
    }
  }

  /** A display path written as '/' followed by its names, joined with '/', gives those names back. */
  lemma DisplayPathOfNames(names: seq<string>)
    requires Pieces(names, '/')
    ensures DisplayPathElements("/" + Join(names, '/')) == names
  {
    var p := "/" + Join(names, '/');
    assert StartsWith(p, "/");
    assert p[1..] == Join(names, '/');
    SplitJoin(names, '/');
  }

  /** The documented example: "/Data Dictionary/Email Templates" has the elements "Data Dictionary" and "Email Templates". */
  lemma DisplayPathExample()
    ensures DisplayPathElements("/" + "Data Dictionary" + "/" + "Email Templates") == ["Data Dictionary", "Email Templates"]
  {
    var a, b := "Data Dictionary", "Email Templates";
    assert forall k :: 0 <= k < |a| ==> a[k] != '/';
    assert forall k :: 0 <= k < |b| ==> b[k] != '/';
    TwoNamePath(a, b);
  }

  /** A display path of two names. */
  lemma TwoNamePath(a: string, b: string)
    requires |a| > 0 && |b| > 0
    requires (forall k :: 0 <= k < |a| ==> a[k] != '/') && (forall k :: 0 <= k < |b| ==> b[k] != '/')
    ensures DisplayPathElements("/" + a + "/" + b) == [a, b]
  {
    var names := [a, b];
    assert names[1..] == [b];
    assert Join(names, '/') == a + "/" + b;
    assert "/" + a + "/" + b == "/" + Join(names, '/');
    DisplayPathOfNames(names);
  }

  /** FileFolderService.resolveNamePath: the names followed child by child from `from`; None where one is missing. */
  function ResolveNamePath(s: Repo, from: NodeRef, names: seq<string>): (r: Option<NodeRef>)
    requires WellFormed(s) && from in s.nodes
    ensures r.Some? ==> r.value in s.nodes
    decreases |names|
  {
    if |names| == 0 then Some(from)
    else match ChildByName(s, from, names[0])
      case None => None
      case Some(c) => ResolveNamePath(s, c, names[1..])
  }

  /**
   * getNodeByDisplayPath: the node the path's elements lead to from Company Home, or null when one
   * is missing (the FileNotFoundException is caught). A path with no elements at all is refused by
   * resolveNamePath with an IllegalArgumentException, which is not caught.
   */
  function GetNodeByDisplayPath(s: Repo, companyHome: NodeRef, path: string): Result<Option<NodeRef>>
    requires WellFormed(s) && companyHome in s.nodes
  {
    var elements := DisplayPathElements(path);
    if |elements| == 0 then Throws(IllegalArgument) else Ok(ResolveNamePath(s, companyHome, elements))
  }

  /** Resolving one more name is looking that name up among the children of the node resolved so far. */
  lemma {:induction false} ResolveOneMore(s: Repo, from: NodeRef, names: seq<string>, name: string)
    requires WellFormed(s) && from in s.nodes
    ensures ResolveNamePath(s, from, names + [name]) ==
      match ResolveNamePath(s, from, names)
      case None => None
      case Some(n) => ChildByName(s, n, name)
    decreases |names|
  {
    if |names| > 0 {
      assert (names + [name])[1..] == names[1..] + [name];
      match ChildByName(s, from, names[0])
      case None =>
      case Some(c) => ResolveOneMore(s, c, names[1..], name);
    } else {
      assert ([] + [name])[1..] == [];
    }
  }

  // ---------------------------------------------------------------- get or create

  /** getOrCreateFolder (type cm:folder) and createFolder: the existing child of that name, else a new child. */
  function GetOrCreateChildOp(s: Repo, parent: NodeRef, name: string, nodeType: QName): (Repo, NodeRef)
    requires WellFormed(s) && parent in s.nodes
  {
    match ChildByName(s, parent, name)
    case Some(c) => (s, c)
    case None => (AddChild(s, parent, NewNode(name, nodeType)), s.next)
  }

  /**
   * Afterwards the returned node is the parent's child of that name. If one existed, it is returned
   * and the repository is unchanged (whatever its type); otherwise exactly one node of the requested
   * type is appended to the parent and nothing else changes.
   */
  lemma GetOrCreateChildEffect(s: Repo, parent: NodeRef, name: string, nodeType: QName)
    requires WellFormed(s) && parent in s.nodes
    ensures var (t, r) := GetOrCreateChildOp(s, parent, name, nodeType);
      WellFormed(t) && parent in t.nodes && ChildByName(t, parent, name) == Some(r) &&
      (ChildByName(s, parent, name).Some? ==> t == s && r == ChildByName(s, parent, name).value) &&
      (ChildByName(s, parent, name).None? ==>
        r !in s.nodes && t.nodes.Keys == s.nodes.Keys + {r} && t.nodes[r] == NewNode(name, nodeType) &&
        t.nodes[parent].children == s.nodes[parent].children + [r] &&
        forall n :: n in s.nodes && n != parent ==> t.nodes[n] == s.nodes[n])
  {
    CreateNodeEffect(s, parent, name, nodeType);
  }

  /** Getting or creating the same child twice: the second call returns the same node and changes nothing. */
  lemma GetOrCreateIdempotent(s: Repo, parent: NodeRef, name: string, nodeType: QName)
    requires WellFormed(s) && parent in s.nodes
    ensures var (t, r) := GetOrCreateChildOp(s, parent, name, nodeType);
      WellFormed(t) && parent in t.nodes && GetOrCreateChildOp(t, parent, name, nodeType) == (t, r)
  {
    GetOrCreateChildEffect(s, parent, name, nodeType);
  }

  /** getOrCreateFolder. */
  method GetOrCreateFolder(repo: Repository, parent: NodeRef, name: string) returns (folder: NodeRef)
    requires WellFormed(repo.State()) && parent in repo.nodes
    modifies repo
    ensures (repo.State(), folder) == GetOrCreateChildOp(old(repo.State()), parent, name, FolderType)
  {
    var existing := ChildByName(repo.State(), parent, name);
    if existing.None? {
      var created := repo.CreateNode(parent, name, FolderType);
      folder := created.value;
    } else {
      folder := existing.value;
    }
  }

  /** createFolder. */
  method CreateFolder(repo: Repository, parent: NodeRef, name: string, nodeType: QName) returns (folder: NodeRef)
    requires WellFormed(repo.State()) && parent in repo.nodes
    modifies repo
    ensures (repo.State(), folder) == GetOrCreateChildOp(old(repo.State()), parent, name, nodeType)
  {
    var existing := ChildByName(repo.State(), parent, name);
    if existing.None? {
      var created := repo.CreateNode(parent, name, nodeType);
      return created.value;
    }
    folder := existing.value;
  }

  /** createFileMetadataOnly: null when the name is taken, else a new cm:content child without content. */
  function CreateFileMetadataOnlyOp(s: Repo, parent: NodeRef, filename: string): (Repo, Option<NodeRef>)
    requires WellFormed(s) && parent in s.nodes
  {
    match ChildByName(s, parent, filename)
    case Some(_) => (s, None)
    case None => (AddChild(s, parent, NewNode(filename, ContentType)), Some(s.next))
  }

  /** createFile(parent, filename, mimeType, content): the metadata node, then its content; null if the name is taken. */
  function CreateFileOp(s: Repo, parent: NodeRef, filename: string, mimeType: string, content: seq<byte>): (Repo, Option<NodeRef>)
    requires WellFormed(s) && parent in s.nodes
  {
    var (t, r) := CreateFileMetadataOnlyOp(s, parent, filename);
    if r.None? then (t, None) else (PutContentOp(t, r.value, mimeType, content), r)
  }

  /** getOrCreateFile: the existing file of that name, else a new one holding the content. */
  function GetOrCreateFileOp(s: Repo, parent: NodeRef, filename: string, mimeType: string, content: seq<byte>): (Repo, NodeRef)
    requires WellFormed(s) && parent in s.nodes
  {
    match ChildByName(s, parent, filename)
    case Some(c) => (s, c)
    case None => (CreateFileOp(s, parent, filename, mimeType, content).0, s.next)
  }

  /**
   * createFileMetadataOnly creates nothing and returns null when the name is taken; otherwise it
   * adds one cm:content child of that name, without content, found by that name afterwards.
   */
  lemma CreateFileMetadataOnlyEffect(s: Repo, parent: NodeRef, filename: string)
    requires WellFormed(s) && parent in s.nodes
    ensures var (t, r) := CreateFileMetadataOnlyOp(s, parent, filename);
      (r.None? <==> ChildByName(s, parent, filename).Some?) &&
      (r.None? ==> t == s) &&
      (r.Some? ==>
        WellFormed(t) && r.value !in s.nodes && t.nodes[r.value] == NewNode(filename, ContentType) &&
        t.nodes[parent].children == s.nodes[parent].children + [r.value] &&
        ChildByName(t, parent, filename) == r &&
        forall n :: n in s.nodes && n != parent ==> t.nodes[n] == s.nodes[n])
  {
    CreateNodeEffect(s, parent, filename, ContentType);
  }

  /**
   * getOrCreateFile returns an existing file as it is, content included, and changes nothing;
   * otherwise it returns a new cm:content child of that name holding the given content and mimetype.
   */
  lemma GetOrCreateFileEffect(s: Repo, parent: NodeRef, filename: string, mimeType: string, content: seq<byte>)
    requires WellFormed(s) && parent in s.nodes
    ensures var (t, r) := GetOrCreateFileOp(s, parent, filename, mimeType, content);
      WellFormed(t) && parent in t.nodes && ChildByName(t, parent, filename) == Some(r) &&
      (ChildByName(s, parent, filename).Some? ==> t == s && r == ChildByName(s, parent, filename).value) &&
      (ChildByName(s, parent, filename).None? ==>
        r !in s.nodes && t.nodes[r].name == filename && t.nodes[r].nodeType == ContentType &&
        t.nodes[r].content == Some(Content(mimeType, content)))
  {
    if ChildByName(s, parent, filename).None? {
      CreateFileMetadataOnlyEffect(s, parent, filename);
      var (m, r) := CreateFileMetadataOnlyOp(s, parent, filename);
      var node := m.nodes[r.value];
      UpdateKeepsLookups(m, r.value, node.(content := Some(Content(mimeType, content))), parent, filename);
    }
  }

  /** createFileMetadataOnly. */
  method CreateFileMetadataOnly(repo: Repository, parent: NodeRef, filename: string) returns (file: Option<NodeRef>)
    requires WellFormed(repo.State()) && parent in repo.nodes
    modifies repo
    ensures (repo.State(), file) == CreateFileMetadataOnlyOp(old(repo.State()), parent, filename)
  {
    if ChildByName(repo.State(), parent, filename).Some? {
      return None;
    }
    var created := repo.CreateNode(parent, filename, ContentType);
    file := Some(created.value);
  }

  /** createFile with in-memory content (already encoded as bytes). */
  method CreateFile(repo: Repository, parent: NodeRef, filename: string, mimeType: string, content: seq<byte>)
    returns (file: Option<NodeRef>)
    requires WellFormed(repo.State()) && parent in repo.nodes
    modifies repo
    ensures (repo.State(), file) == CreateFileOp(old(repo.State()), parent, filename, mimeType, content)
  {
    CreateFileMetadataOnlyEffect(repo.State(), parent, filename);
    file := CreateFileMetadataOnly(repo, parent, filename);
    if file.None? {
      return None;
    }
    repo.PutContent(file.value, mimeType, content);
  }

  /** getOrCreateFile. */
  method GetOrCreateFile(repo: Repository, parent: NodeRef, filename: string, mimeType: string, content: seq<byte>)
    returns (file: NodeRef)
    requires WellFormed(repo.State()) && parent in repo.nodes
    modifies repo
    ensures (repo.State(), file) == GetOrCreateFileOp(old(repo.State()), parent, filename, mimeType, content)
  {
    var existing := ChildByName(repo.State(), parent, filename);
    if existing.Some? {
      return existing.value;
    }
    var created := CreateFile(repo, parent, filename, mimeType, content);
    file := created.value;
  }

  // ---------------------------------------------------------------- search results

  /** searchOne: null for no match, else the first match. */
  function SearchOne(results: seq<NodeRef>): (r: Option<NodeRef>)
    ensures r.None? <==> |results| == 0
    ensures r.Some? ==> r.value in results && r.value == results[0]
  {
    if |results| == 0 then None else Some(results[0])
  }

  /** getNodeByXPath: a node only when exactly one matches, and then the one searchOne would pick. */
  function NodeByXPath(results: seq<NodeRef>): (r: Option<NodeRef>)
    ensures r.Some? <==> |results| == 1
    ensures r.Some? ==> r == SearchOne(results)
  {
    if |results| == 1 then Some(results[0]) else None
  }

  // ---------------------------------------------------------------- hashing

  const LowerHexDigits: string := "0123456789abcdef"
  const UpperHexDigits: string := "0123456789ABCDEF"

  /** Integer.toHexString of a value 0..255: lower-case digits without leading zeros. */
  function ToHexString(v: nat): (r: string)
    requires v < 256
  {
    if v < 16 then [LowerHexDigits[v]] else [LowerHexDigits[v / 16], LowerHexDigits[v % 16]]
  }

  /** A byte's two upper-case hex digits, high half first. */
  function ByteHex(b: byte): (r: string)
    ensures |r| == 2
  {
    [UpperHexDigits[b as int / 16], UpperHexDigits[b as int % 16]]
  }

  /** Two upper-case hex digits per byte. */
  function Hex(bs: seq<byte>): (r: string)
    ensures |r| == 2 * |bs| && |r| % 2 == 0
  {
    if |bs| == 0 then "" else Hex(bs[..|bs| - 1]) + ByteHex(bs[|bs| - 1])
  }

  function HexValue(c: char): (v: nat)
    ensures v < 16
  {
    if '0' <= c <= '9' then c as int - '0' as int
    else if 'A' <= c <= 'F' then c as int - 'A' as int + 10
    else 0
  }

  /** The byte two hex digits stand for, high half first. */
  function HexPair(hi: char, lo: char): byte {
    (HexValue(hi) * 16 + HexValue(lo)) as byte
  }

  /** Reading upper-case hex text back into bytes, two digits per byte. */
  function FromHex(h: string): seq<byte>
    requires |h| % 2 == 0
  {
    if |h| == 0 then []
    else FromHex(h[..|h| - 2]) + [HexPair(h[|h| - 2], h[|h| - 1])]
  }

  lemma HexDigitValue(d: nat)
    requires d < 16
    ensures HexValue(UpperHexDigits[d]) == d
  {
    assert UpperHexDigits[d] == if d < 10 then ('0' as int + d) as char else ('A' as int + d - 10) as char;
  }

  /** Decoding the hex of bytes ends with the last byte. */
  lemma FromHexStep(bs: seq<byte>)
    requires |bs| > 0
    ensures FromHex(Hex(bs)) == FromHex(Hex(bs[..|bs| - 1])) + [bs[|bs| - 1]]
  {
    FromHexAppend(Hex(bs[..|bs| - 1]), ByteHex(bs[|bs| - 1]));
    ByteHexReadsBack(bs[|bs| - 1]);
  }

  /** Decoding two more digits appends the byte they stand for. */
  lemma FromHexAppend(h: string, d: string)
    requires |h| % 2 == 0 && |d| == 2
    ensures FromHex(h + d) == FromHex(h) + [HexPair(d[0], d[1])]
  {
    var g := h + d;
    assert g[..|g| - 2] == h;
    assert g[|g| - 2] == d[0] && g[|g| - 1] == d[1];
  }

  /** A byte's two upper-case digits read back as that byte. */
  lemma ByteHexReadsBack(b: byte)
    ensures HexPair(ByteHex(b)[0], ByteHex(b)[1]) == b
  {
    HexDigitValue(b as int / 16);
    HexDigitValue(b as int % 16);
  }

  /** The hex text decodes to the bytes it was made from, so different digests never print alike. */
  lemma {:induction false} FromHexOfHex(bs: seq<byte>)
    ensures FromHex(Hex(bs)) == bs
  {
    if |bs| > 0 {
      FromHexStep(bs);
      FromHexOfHex(bs[..|bs| - 1]);
      LastSplit(bs);
    }
  }

  /** A non-empty sequence is its front and its last element. */
  lemma LastSplit(bs: seq<byte>)
    requires |bs| > 0
    ensures bs == bs[..|bs| - 1] + [bs[|bs| - 1]]
  {
  }

  lemma HexInjective(a: seq<byte>, b: seq<byte>)
    requires Hex(a) == Hex(b)
    ensures a == b
  {
    FromHexOfHex(a);
    FromHexOfHex(b);
  }

  /** One byte as convertByteArrayToHex appends it: toHexString, with a '0' in front of a single digit. */
  lemma PaddedByteHex(v: nat)
    requires v < 256
    ensures var h := ToHexString(v);
      ToUpper(if |h| == 1 then "0" + h else h) == ByteHex(v as byte)
  {
    var h := ToHexString(v);
    var p := if |h| == 1 then "0" + h else h;
    if v < 16 {
      assert p == [LowerHexDigits[v / 16], LowerHexDigits[v % 16]];
    }
    UpperDigit(v / 16);
    UpperDigit(v % 16);
    UpperPair(LowerHexDigits[v / 16], LowerHexDigits[v % 16]);
  }

  /** Upper-casing a lower-case hex digit gives the upper-case digit of the same value. */
  lemma UpperDigit(d: nat)
    requires d < 16
    ensures ToUpperChar(LowerHexDigits[d]) == UpperHexDigits[d]
  {
  }

  /** Upper-casing two characters. */
  lemma UpperPair(c: char, e: char)
    ensures ToUpper([c, e]) == [ToUpperChar(c), ToUpperChar(e)]
  {
  }

  /** convertByteArrayToHex: two upper-case hex digits per byte. */
  method ConvertByteArrayToHex(bytes: array<byte>) returns (hex: string)
    ensures hex == Hex(bytes[..])
  {
    var hashValue: string := "";
    for i := 0 to bytes.Length
      invariant ToUpper(hashValue) == Hex(bytes[..i])
    {
      var h := ToHexString(bytes[i] as int);
      var piece := if |h| == 1 then "0" + h else h;
      PaddedByteHex(bytes[i] as int);
      assert ToUpper(hashValue + piece) == ToUpper(hashValue) + ToUpper(piece);
      hashValue := hashValue + piece;
      assert bytes[..i + 1][..i] == bytes[..i];
    }
    assert bytes[..bytes.Length] == bytes[..];
    hex := ToUpper(hashValue);
  }

  /** computeHash's result for a stream over `data`: null when reading fails, else the hex of the digest. */
  function HashOf(data: seq<byte>, failAt: Option<nat>, digest: seq<byte> -> seq<byte>): Option<string> {
    if Breaks(data, failAt) then None else Some(Hex(digest(data)))
  }

  /** computeHash: the stream is read to its end and fed to the digest, whose bytes are printed in hex. */
  method ComputeHash(contentStream: InputStream, digest: seq<byte> -> seq<byte>) returns (hash: Option<string>)
    requires contentStream.pos == 0
    modifies contentStream
    ensures hash == HashOf(contentStream.data, contentStream.failAt, digest)
  {
    var buffer := new byte[4096];
    var fed: seq<byte> := [];
    while true
      invariant contentStream.pos <= |contentStream.data| && fed == contentStream.data[..contentStream.pos]
      decreases |contentStream.data| - contentStream.pos
    {
      var before := contentStream.pos;
      var bytesRead := contentStream.Read(buffer);
      if bytesRead.Throws? {
        return None;
      }
      if bytesRead.value <= -1 {
        break;
      }
      fed := fed + buffer[..bytesRead.value];
      assert contentStream.data[..contentStream.pos] ==
        contentStream.data[..before] + contentStream.data[before..contentStream.pos];
    }
    assert fed == contentStream.data;
    var d := digest(fed);
    var digestBytes := new byte[|d|](i requires 0 <= i < |d| => d[i]);
    assert digestBytes[..] == d;
    var hex := ConvertByteArrayToHex(digestBytes);
    hash := Some(hex);
  }

  /**
   * hasSameContent: both nodes' readers are taken first (a folder has none: invalid type), a missing
   * content reader fails on use (a NullPointerException), then the two hashes are compared null-safely.
   */
  function SameContent(s: Repo, n1: NodeRef, n2: NodeRef, failAt1: Option<nat>, failAt2: Option<nat>,
                       digest: seq<byte> -> seq<byte>): Result<bool>
    requires n1 in s.nodes && n2 in s.nodes
  {
    var reader1 := ReaderOf(s, n1);
    var reader2 := ReaderOf(s, n2);
    if reader1 == Throws(InvalidType) || reader2 == Throws(InvalidType) then Throws(InvalidType)
    else if reader1.Throws? || reader2.Throws? then Throws(NullPointer)
    else Ok(HashOf(reader1.value, failAt1, digest) == HashOf(reader2.value, failAt2, digest))
  }

  /**
   * When both contents are read, the files are "the same" exactly when their digests agree. When both
   * reads fail, both hashes are null and the files count as the same; when one fails, as different.
   */
  lemma SameContentMeaning(s: Repo, n1: NodeRef, n2: NodeRef, failAt1: Option<nat>, failAt2: Option<nat>,
                           digest: seq<byte> -> seq<byte>)
    requires n1 in s.nodes && n2 in s.nodes
    requires ReaderOf(s, n1).Ok? && ReaderOf(s, n2).Ok?
    ensures var d1, d2 := ReaderOf(s, n1).value, ReaderOf(s, n2).value;
      var r := SameContent(s, n1, n2, failAt1, failAt2, digest);
      (!Breaks(d1, failAt1) && !Breaks(d2, failAt2) ==> (r == Ok(true) <==> digest(d1) == digest(d2))) &&
      (Breaks(d1, failAt1) && Breaks(d2, failAt2) ==> r == Ok(true)) &&
      (Breaks(d1, failAt1) != Breaks(d2, failAt2) ==> r == Ok(false))
  {
    var d1, d2 := ReaderOf(s, n1).value, ReaderOf(s, n2).value;
    if !Breaks(d1, failAt1) && !Breaks(d2, failAt2) && Hex(digest(d1)) == Hex(digest(d2)) {
      HexInjective(digest(d1), digest(d2));
    }
  }

  /** hasSameContent, reading each node's content through its own stream. */
  method HasSameContent(repo: Repository, n1: NodeRef, n2: NodeRef, failAt1: Option<nat>, failAt2: Option<nat>,
                        digest: seq<byte> -> seq<byte>) returns (r: Result<bool>)
    requires n1 in repo.nodes && n2 in repo.nodes
    ensures r == SameContent(repo.State(), n1, n2, failAt1, failAt2, digest)
  {
    var reader1 := ReaderOf(repo.State(), n1);
    var reader2 := ReaderOf(repo.State(), n2);
    if reader1 == Throws(InvalidType) || reader2 == Throws(InvalidType) {
      return Throws(InvalidType);
    }
    if reader1.Throws? {
      return Throws(NullPointer);
    }
    var stream1 := new InputStream(reader1.value, failAt1);
    var sourceFileHash := ComputeHash(stream1, digest);
    if reader2.Throws? {
      return Throws(NullPointer);
    }
    var stream2 := new InputStream(reader2.value, failAt2);
    var destinationFileHash := ComputeHash(stream2, digest);
    r := Ok(sourceFileHash == destinationFileHash);
  }

  /**
   * getDocumentContentBytes: null when the node has no content (a null reader) or the stream fails,
   * else exactly the stored bytes.
   */
  method GetDocumentContentBytes(repo: Repository, document: NodeRef, failAt: Option<nat>) returns (r: Option<seq<byte>>)
    requires document in repo.nodes
    ensures var c := repo.nodes[document].content;
      r == if c.None? || Breaks(c.value.data, failAt) then None else Some(c.value.data)
  {
    var contentReader := repo.nodes[document].content;
    if contentReader.None? {
      return None;
    }
    var input := new InputStream(contentReader.value.data, failAt);
    r := ReadAll(input);
  }
}
