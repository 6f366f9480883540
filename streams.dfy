/**
 * The two java.io / java.util.zip streams the publisher and the repository helpers use: an input
 * stream read chunk by chunk into a buffer, and a ZIP output stream that collects named entries.
 */
module Streams {
  import opened Wrappers
  import opened JavaText

  /**
   * An input stream over `data`. A broken stream (`failAt` set) raises an IOException on the first
   * read made once that many bytes have been delivered; a read never delivers more than the buffer
   * holds, and may deliver fewer bytes than are left (as BufferedInputStream over a remote store may).
   */
  class InputStream {
    const data: seq<byte>
    const failAt: Option<nat>
    var pos: nat

    constructor (data: seq<byte>, failAt: Option<nat>)
      ensures this.data == data && this.failAt == failAt && pos == 0
    {
      this.data := data;
      this.failAt := failAt;
      pos := 0;
    }

    /** InputStream.read(buf): the number of bytes copied into `buf`, -1 at the end, or the IOException. */
    method Read(buf: array<byte>) returns (r: Result<int>)
      requires pos <= |data|
      modifies this, buf
      ensures pos <= |data|
      ensures failAt.Some? && old(pos) >= failAt.value ==> r == Throws(IOFailure) && pos == old(pos)
      ensures !(failAt.Some? && old(pos) >= failAt.value) ==>
        if old(pos) == |data| then r == Ok(-1) && pos == old(pos)
        else if buf.Length == 0 then r == Ok(0) && pos == old(pos)
        else r.Ok? && 0 < r.value <= buf.Length && pos == old(pos) + r.value &&
             buf[..r.value] == data[old(pos)..pos]
    {
      if failAt.Some? && pos >= failAt.value {
        return Throws(IOFailure);
      }
      if pos == |data| {
        return Ok(-1);
      }
      if buf.Length == 0 {
        return Ok(0);
      }
      var n :| 0 < n <= buf.Length && n <= |data| - pos;
      forall k | 0 <= k < n {
        buf[k] := data[pos + k];
      }
      pos := pos + n;
      r := Ok(n);
    }
  }

  /** Whether reading a stream from its start to the end runs into its failure point. */
  predicate Breaks(data: seq<byte>, failAt: Option<nat>) {
    failAt.Some? && failAt.value <= |data|
  }

  datatype ZipEntry = ZipEntry(path: string, data: seq<byte>)

  function EntryNames(es: seq<ZipEntry>): set<string> {
    set k | 0 <= k < |es| :: es[k].path
  }

  /**
   * java.util.zip.ZipOutputStream as a sequence of entries: the closed ones and the one being written.
   * How the archive is encoded into bytes is not part of this model.
   */
  class ZipOutputStream {
    var entries: seq<ZipEntry>
    var current: Option<ZipEntry>

    constructor ()
      ensures entries == [] && current == None
    {
      entries := [];
      current := None;
    }

    /** Every entry begun so far, in order, the open one last. */
    function Archive(): seq<ZipEntry>
      reads this
    {
      entries + (if current.Some? then [current.value] else [])
    }

    /** putNextEntry: closes the open entry, then refuses a name used before (a ZipException). */
    method PutNextEntry(path: string) returns (r: Result<()>)
      modifies this
      ensures entries == old(Archive())
      ensures path in EntryNames(old(Archive())) ==> r == Throws(IOFailure) && current == None
      ensures path !in EntryNames(old(Archive())) ==> r == Ok(()) && current == Some(ZipEntry(path, []))
    {
      entries := Archive();
      current := None;
      if path in EntryNames(entries) {
        return Throws(IOFailure);
      }
      current := Some(ZipEntry(path, []));
      r := Ok(());
    }

    /** write(buf, 0, len): appends to the open entry; without one it is a ZipException. */
    method Write(buf: array<byte>, len: int) returns (r: Result<()>)
      requires 0 <= len <= buf.Length
      modifies this
      ensures entries == old(entries)
      ensures old(current).None? ==> r == Throws(IOFailure) && current == None
      ensures old(current).Some? ==>
        r == Ok(()) && current == Some(ZipEntry(old(current).value.path, old(current).value.data + buf[..len]))
    {
      if current.None? {
        return Throws(IOFailure);
      }
      current := Some(ZipEntry(current.value.path, current.value.data + buf[..len]));
      r := Ok(());
    }

    /** closeEntry, and close (which finishes the open entry before the archive is written out). */
    method CloseEntry()
      modifies this
      ensures entries == old(Archive()) && current == None
    {
      entries := Archive();
      current := None;
    }
  }

  /**
   * The read-and-write loop of addFile2Zip, addContentNode2Zip and addFolderNodeContents2Zip:
   * 4096-byte chunks are read until read returns no bytes, each written to the open entry.
   */
  method CopyToEntry(input: InputStream, zo: ZipOutputStream) returns (r: Result<()>)
    requires input.pos == 0 && zo.current.Some?
    modifies input, zo
    ensures zo.entries == old(zo.entries) && zo.current.Some? && zo.current.value.path == old(zo.current.value.path)
    ensures !Breaks(input.data, input.failAt) ==>
      r == Ok(()) && zo.current.value.data == old(zo.current.value.data) + input.data
    ensures Breaks(input.data, input.failAt) ==> r == Throws(IOFailure)
  {
    var buffer := new byte[4096];
    var start := zo.current.value.data;
    while true
      invariant input.pos <= |input.data|
      invariant zo.entries == old(zo.entries) && zo.current.Some? && zo.current.value.path == old(zo.current.value.path)
      invariant zo.current.value.data == start + input.data[..input.pos]
      decreases |input.data| - input.pos
    {
      var before := input.pos;
      var n := input.Read(buffer);
      if n.Throws? {
        return Throws(IOFailure);
      }
      if n.value <= 0 {
        break;
      }
      var w := zo.Write(buffer, n.value);
      assert input.data[..input.pos] == input.data[..before] + input.data[before..input.pos];
    }
    assert input.pos == |input.data|;
    assert input.data[..input.pos] == input.data;
    r := Ok(());
  }

  /** Reading a whole stream into a byte array (getDocumentContentBytes' loop): all the bytes, or None on an IOException. */
  method ReadAll(input: InputStream) returns (r: Option<seq<byte>>)
    requires input.pos == 0
    modifies input
    ensures r == if Breaks(input.data, input.failAt) then None else Some(input.data)
  {
    var buf := new byte[1024];
    var bos: seq<byte> := [];
    while true
      invariant input.pos <= |input.data| && bos == input.data[..input.pos]
      decreases |input.data| - input.pos
    {
      var before := input.pos;
      var len := input.Read(buf);
      if len.Throws? {
        return None;
      }
      if len.value <= 0 {
        break;
      }
      bos := bos + buf[..len.value];
      assert input.data[..input.pos] == input.data[..before] + input.data[before..input.pos];
    }
    assert bos == input.data;
    r := Some(bos);
  }
}
