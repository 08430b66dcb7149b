/**
 The devices under the update code: an open file with a position, a NOR flash
 partition and a streaming hash. A device that is not reliable may fail any
 operation; what the contracts say then is all a caller may count on.
 */
module Devices {
  import opened Bytes

  // LittleFS refuses positions, and so files, beyond this size.
  const FILE_MAX: nat := 0x7FFF_FFFF

  type FileData = d: seq<byte> | |d| <= FILE_MAX

  class FsFile {
    const data: FileData
    const reliable: bool
    var pos: nat

    constructor (data: FileData, reliable: bool)
      ensures this.data == data && this.reliable == reliable && pos == 0
    {
      this.data, this.reliable, this.pos := data, reliable, 0;
    }

    /** fs_seek(FS_SEEK_SET) */
    method Seek(off: nat) returns (rc: int)
      modifies this
      ensures rc <= 0
      ensures rc == 0 ==> pos == off <= FILE_MAX
      ensures rc != 0 ==> pos == old(pos)
      ensures reliable && off <= FILE_MAX ==> rc == 0
    {
      var fault: bool := *;
      if off > FILE_MAX || (fault && !reliable) {
        return -22;
      }
      pos := off;
      return 0;
    }

    /** fs_seek(FS_SEEK_END) */
    method SeekEnd() returns (rc: int)
      modifies this
      ensures rc <= 0
      ensures rc == 0 ==> pos == |data|
      ensures rc != 0 ==> pos == old(pos)
      ensures reliable ==> rc == 0
    {
      rc := Seek(|data|);
    }

    /** fs_read: negative on failure, else the number of bytes stored in buf. */
    method Read(buf: array<byte>, n: nat) returns (rc: int)
      requires n <= buf.Length
      modifies this, buf
      ensures rc <= Available(data, old(pos), n)
      ensures rc >= 0 ==> pos == old(pos) + rc
      ensures rc >= 0 ==> buf[..] == Overlay(old(buf[..]), data, old(pos), rc)
      ensures reliable ==> rc == Available(data, old(pos), n)
    {
      var fault: bool := *;
      if fault && !reliable {
        return -5;
      }
      rc := Available(data, pos, n);
      if !reliable {
        rc :| 0 <= rc <= Available(data, pos, n);
      }
      var bytes := Overlay(buf[..], data, pos, rc);
      forall i | 0 <= i < buf.Length {
        buf[i] := bytes[i];
      }
      assert buf[..] == bytes;
      pos := pos + rc;
    }
  }

  /** A flash cell can only lose bits until the next erase. */
  function Programmed(cells: seq<byte>, off: nat, bytes: seq<byte>): (r: seq<byte>)
    requires off + |bytes| <= |cells|
    ensures |r| == |cells|
  {
    cells[..off]
    + seq(|bytes|, i requires 0 <= i < |bytes| => BitAnd(cells[off + i], bytes[i]))
    + cells[off + |bytes|..]
  }

  /** Do two contents agree except for n cells from off on? */
  ghost predicate SameElsewhere(a: seq<byte>, b: seq<byte>, off: nat, n: nat) {
    |a| == |b| && forall k | 0 <= k < |a| && !(off <= k < off + n) :: a[k] == b[k]
  }

  lemma ProgrammedElsewhere(cells: seq<byte>, off: nat, bytes: seq<byte>)
    requires off + |bytes| <= |cells|
    ensures SameElsewhere(Programmed(cells, off, bytes), cells, off, |bytes|)
  {
  }

  /** Erased cells take the new bytes as they are. */
  lemma ProgramErased(cells: seq<byte>, off: nat, bytes: seq<byte>)
    requires off + |bytes| <= |cells|
    requires forall i | off <= i < off + |bytes| :: cells[i] == 0xFF
    ensures Programmed(cells, off, bytes) == cells[..off] + bytes + cells[off + |bytes|..]
  {
    forall b: byte {
      AndErased(b);
    }
  }

  class FlashArea {
    const opens: bool
    const reliable: bool
    var cells: seq<byte>

    constructor (cells: seq<byte>, opens: bool, reliable: bool)
      ensures this.cells == cells && this.opens == opens && this.reliable == reliable
    {
      this.cells, this.opens, this.reliable := cells, opens, reliable;
    }

    /** flash_area_open */
    method Open() returns (rc: int)
      ensures opens ==> rc == 0
    {
      var fault: bool := *;
      return if fault && !opens then -19 else 0;
    }

    /** flash_area_erase of the whole partition; it happens entirely or not at all. */
    method Erase() returns (rc: int)
      modifies this
      ensures rc == 0 ==> cells == Ones(old(|cells|))
      ensures rc != 0 ==> cells == old(cells)
      ensures reliable ==> rc == 0
    {
      var fault: bool := *;
      if fault && !reliable {
        return -5;
      }
      cells := Ones(|cells|);
      return 0;
    }

    /** The driver accepts writes of whole words inside the partition only. */
    ghost predicate Writable(off: nat, n: nat)
      reads this
    {
      off % 4 == 0 && n % 4 == 0 && off + n <= |cells|
    }

    /** flash_area_write: a write that fails may have programmed a part of the bytes. */
    method Write(off: nat, buf: array<byte>, n: nat) returns (rc: int)
      requires n <= buf.Length
      modifies this
      ensures !old(Writable(off, n)) ==> rc != 0 && cells == old(cells)
      ensures rc == 0 ==> cells == Programmed(old(cells), off, buf[..n])
      ensures rc != 0 && old(Writable(off, n)) ==>
                exists k :: 0 <= k <= n && cells == Programmed(old(cells), off, old(buf[..])[..k])
      ensures reliable && old(Writable(off, n)) ==> rc == 0
    {
      if off % 4 != 0 || n % 4 != 0 || off + n > |cells| {
        return -22;
      }
      var fault: bool := *;
      if fault && !reliable {
        var done :| 0 <= done <= n;
        ghost var bytes := buf[..];
        assert buf[..done] == bytes[..done];
        cells := Programmed(cells, off, buf[..done]);
        return -5;
      }
      cells := Programmed(cells, off, buf[..n]);
      return 0;
    }

    /** flash_area_read */
    method Read(off: nat, buf: array<byte>, n: nat) returns (rc: int)
      requires n <= buf.Length
      modifies buf
      ensures rc == 0 ==> off + n <= |cells| && buf[..] == cells[off..off + n] + old(buf[..])[n..]
      ensures off + n > |cells| ==> rc != 0 && buf[..] == old(buf[..])
      ensures reliable && off + n <= |cells| ==> rc == 0
    {
      var fault: bool := *;
      if off + n > |cells| || (fault && !reliable) {
        return -5;
      }
      forall i | 0 <= i < n {
        buf[i] := cells[off + i];
      }
      return 0;
    }
  }

  type Digest = d: seq<byte> | |d| == 32 witness seq(32, _ => 0)

  /** The streaming hash context: the digest is that of everything absorbed. */
  class ShaContext {
    const sha: seq<byte> -> Digest
    var absorbed: seq<byte>

    constructor (sha: seq<byte> -> Digest)
      ensures this.sha == sha && absorbed == []
    {
      this.sha, this.absorbed := sha, [];
    }

    method Update(bytes: seq<byte>)
      modifies this
      ensures absorbed == old(absorbed) + bytes
    {
      absorbed := absorbed + bytes;
    }

    method Finish() returns (digest: Digest)
      ensures digest == sha(absorbed)
    {
      return sha(absorbed);
    }
  }

  /** load_image_data: seek, then read exactly the given number of bytes. */
  method LoadImageData(file: FsFile, start: nat, output: array<byte>, size: nat) returns (rc: int)
    requires size <= output.Length
    modifies file, output
    ensures rc <= 0
    ensures rc == 0 ==> start <= FILE_MAX && (size > 0 ==> start + size <= |file.data|)
    ensures rc == 0 && start + size <= |file.data| ==>
              output[..] == file.data[start..start + size] + old(output[..])[size..]
    ensures file.reliable && start + size <= |file.data| ==> rc == 0
  {
    rc := file.Seek(start);
    if rc < 0 {
      return rc;
    }
    rc := file.Read(output, size);
    if rc != size {
      return -1;
    }
    return 0;
  }
}
