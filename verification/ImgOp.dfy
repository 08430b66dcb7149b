/**
 Copying a file to a flash partition, and comparing the two, 256 bytes at a time.
 */
module ImgOp {
  import opened Bytes
  import opened Devices

  const TMP_BUF_SIZE: nat := 256

  /** The two callbacks of the processing loop. */
  datatype ImgOperation = WriteImg | CompareImg

  /** How many 0xFF bytes fill a chunk up to whole words. */
  function Padding(len: nat): (p: nat)
    ensures p < 4 && (len + p) % 4 == 0
  {
    if len % 4 != 0 then 4 - len % 4 else 0
  }

  /** A partition of the given size that holds the bytes and is erased behind them. */
  function Filled(bytes: seq<byte>, size: nat): (cells: seq<byte>)
    requires |bytes| <= size
    ensures |cells| == size
  {
    bytes + Ones(size - |bytes|)
  }

  /** Does the partition start with the bytes, padded with 0xFF to whole words? */
  ghost predicate MatchesPadded(cells: seq<byte>, bytes: seq<byte>) {
    bytes + Ones(Padding(|bytes|)) <= cells
  }

  /** Programming erased cells behind some bytes with the next bytes and with padding. */
  lemma ProgramChunk(data: seq<byte>, size: nat, off: nat, len: nat, pad: nat)
    requires off + len <= |data| && off + len + pad <= size
    ensures Programmed(Filled(data[..off], size), off, data[off..off + len] + Ones(pad))
            == Filled(data[..off + len], size)
  {
    var chunk := data[off..off + len] + Ones(pad);
    var cells := Filled(data[..off], size);
    ProgramErased(cells, off, chunk);
    assert cells[..off] == data[..off];
    assert data[..off] + data[off..off + len] == data[..off + len];
    assert cells[off + len + pad..] == Ones(size - off - len - pad);
    assert Ones(pad) + Ones(size - off - len - pad) == Ones(size - off - len);
  }

  /** Programming only a part of a padded chunk leaves a shorter prefix of the bytes. */
  lemma ProgramPart(data: seq<byte>, size: nat, off: nat, len: nat, pad: nat, k: nat)
    requires off + len <= |data| && off + len + pad <= size && k <= len + pad
    ensures Programmed(Filled(data[..off], size), off, (data[off..off + len] + Ones(pad))[..k])
            == Filled(data[..off + Min(k, len)], size)
  {
    if k <= len {
      assert (data[off..off + len] + Ones(pad))[..k] == data[off..off + k] + Ones(0);
      ProgramChunk(data, size, off, k, 0);
    } else {
      assert (data[off..off + len] + Ones(pad))[..k] == data[off..off + len] + Ones(k - len);
      ProgramChunk(data, size, off, len, k - len);
    }
  }

  /** cb_img_write; it is called for whole words inside the partition, and on erased cells only. */
  method ImgWrite(dst: FlashArea, offset: nat, buf: array<byte>, bufLen: nat) returns (ok: bool)
    requires bufLen <= buf.Length
    requires dst.Writable(offset, bufLen)
    requires forall i | offset <= i < offset + bufLen :: dst.cells[i] == 0xFF
    modifies dst
    ensures ok ==> dst.cells == Programmed(old(dst.cells), offset, buf[..bufLen])
    ensures !ok ==> exists k :: 0 <= k <= bufLen && dst.cells == Programmed(old(dst.cells), offset, old(buf[..])[..k])
    ensures dst.reliable ==> ok
  {
    var rc := dst.Write(offset, buf, bufLen);
    return rc == 0;
  }

  /** cb_img_cmp */
  method ImgCmp(dst: FlashArea, offset: nat, buf: array<byte>, bufLen: nat) returns (ok: bool)
    requires bufLen <= buf.Length && bufLen <= TMP_BUF_SIZE
    ensures ok ==> offset + bufLen <= |dst.cells| && dst.cells[offset..offset + bufLen] == buf[..bufLen]
    ensures dst.reliable && offset + bufLen <= |dst.cells| ==>
              (ok <==> dst.cells[offset..offset + bufLen] == buf[..bufLen])
  {
    var tmpBuf2 := new byte[TMP_BUF_SIZE];
    var rc := dst.Read(offset, tmpBuf2, bufLen);
    if rc != 0 {
      return false;
    }
    assert tmpBuf2[..bufLen] == tmpBuf2[..][..bufLen];
    return tmpBuf2[..bufLen] == buf[..bufLen];
  }

  /** Reads the next chunk into the buffer and pads it. */
  method ReadChunk(src: FsFile, buf: array<byte>, len: nat) returns (ok: bool, padding: nat)
    requires len <= TMP_BUF_SIZE == buf.Length && src.pos + len <= |src.data|
    modifies src, buf
    ensures padding == Padding(len) && len + padding <= TMP_BUF_SIZE
    ensures ok ==> src.pos == old(src.pos) + len
    ensures ok ==> buf[..len + padding] == src.data[old(src.pos)..old(src.pos) + len] + Ones(padding)
    ensures src.reliable ==> ok
  {
    padding := if len % 4 != 0 then 4 - len % 4 else 0;
    ghost var start := src.pos;
    var rc := src.Read(buf, len);
    if rc < 0 || rc != len {
      return false, padding;
    }
    assert buf[..len] == src.data[start..start + len];
    if padding != 0 {
      forall i | len <= i < len + padding {
        buf[i] := 0xFF;
      }
    }
    assert buf[..len] == src.data[start..start + len];
    assert buf[len..len + padding] == Ones(padding);
    assert buf[..len + padding] == buf[..len] + buf[len..len + padding];
    return true, padding;
  }

  /** What copying can leave: the old cells, or some first bytes of the file on erased cells. */
  ghost predicate CopyLeaves(before: seq<byte>, data: seq<byte>, after: seq<byte>) {
    || after == before
    || (|data| <= |before| && exists m :: 0 <= m <= |data| && after == Filled(data[..m], |before|))
  }

  /** The state after the first off bytes have been processed. */
  ghost predicate Processed(op: ImgOperation, before: seq<byte>, data: seq<byte>, off: nat, cells: seq<byte>)
    requires off <= |data| <= |before|
  {
    match op
    case WriteImg => cells == Filled(data[..off], |before|)
    case CompareImg => cells == before && data[..off] + Ones(if off == |data| then Padding(off) else 0) <= cells
  }

  lemma ChunkCompares(cells: seq<byte>, data: seq<byte>, off: nat, len: nat)
    requires 0 < len && off + len <= |data| <= |cells| && off + len + Padding(len) <= |cells| && off % 4 == 0
    requires off + len < |data| ==> len % 4 == 0
    requires Processed(CompareImg, cells, data, off, cells)
    ensures cells[off..off + len + Padding(len)] == data[off..off + len] + Ones(Padding(len))
            <==> Processed(CompareImg, cells, data, off + len, cells)
  {
    var pad := Padding(len);
    var chunk, piece := data[off..off + len] + Ones(pad), cells[off..off + len + pad];
    assert data[..off] + Ones(0) == data[..off] == cells[..off];
    assert data[..off + len] + Ones(pad) == data[..off] + chunk;
    assert cells[..off + len + pad] == cells[..off] + piece;
    assert off + len == |data| ==> Padding(off + len) == pad;
    if data[..off + len] + Ones(pad) <= cells {
      assert chunk == (data[..off] + chunk)[off..] == piece;
    }
  }

  lemma CompareMismatch(cells: seq<byte>, data: seq<byte>, off: nat, len: nat)
    requires off + len <= |data| && off + len + Padding(len) <= |cells| && off % 4 == 0
    requires off + len < |data| ==> len % 4 == 0
    requires MatchesPadded(cells, data)
    ensures cells[off..off + len + Padding(len)] == data[off..off + len] + Ones(Padding(len))
  {
    var all := data + Ones(Padding(|data|));
    assert off + len == |data| ==> Padding(|data|) == Padding(len);
    var chunk := data[off..off + len] + Ones(Padding(len));
    forall i | off <= i < off + len + Padding(len) ensures cells[i] == chunk[i - off] {
      assert cells[i] == all[i];
    }
  }

  /** The write callback on a padded chunk of the file. */
  method WriteChunk(dst: FlashArea, offset: nat, buf: array<byte>, len: nat, padding: nat, ghost data: seq<byte>)
    returns (ok: bool)
    requires len + padding <= buf.Length
    requires offset + len <= |data| <= |dst.cells| && offset + len + padding <= |dst.cells|
    requires offset % 4 == 0 && (len + padding) % 4 == 0
    requires buf[..len + padding] == data[offset..offset + len] + Ones(padding)
    requires dst.cells == Filled(data[..offset], |dst.cells|)
    modifies dst
    ensures ok ==> dst.cells == Filled(data[..offset + len], old(|dst.cells|))
    ensures CopyLeaves(old(dst.cells), data, dst.cells)
    ensures dst.reliable ==> ok
  {
    ghost var size, bytes := |dst.cells|, buf[..];
    assert bytes[..len + padding] == data[offset..offset + len] + Ones(padding);
    ok := ImgWrite(dst, offset, buf, len + padding);
    if ok {
      ProgramChunk(data, size, offset, len, padding);
    } else {
      ghost var k :| 0 <= k <= len + padding
                     && dst.cells == Programmed(Filled(data[..offset], size), offset, bytes[..k]);
      assert bytes[..k] == bytes[..len + padding][..k];
      ProgramPart(data, size, offset, len, padding, k);
    }
  }

  /** The compare callback on a padded chunk of the file. */
  method CompareChunk(dst: FlashArea, offset: nat, buf: array<byte>, len: nat, padding: nat, ghost data: seq<byte>)
    returns (ok: bool)
    requires len + padding <= buf.Length && 0 < len <= TMP_BUF_SIZE - padding && padding == Padding(len)
    requires offset + len <= |data| <= |dst.cells| && offset + len + padding <= |dst.cells|
    requires offset % 4 == 0 && (offset + len < |data| ==> len % 4 == 0)
    requires buf[..len + padding] == data[offset..offset + len] + Ones(padding)
    requires Processed(CompareImg, dst.cells, data, offset, dst.cells)
    ensures ok ==> Processed(CompareImg, dst.cells, data, offset + len, dst.cells)
    ensures dst.reliable && MatchesPadded(dst.cells, data) ==> ok
  {
    ok := ImgCmp(dst, offset, buf, len + padding);
    ChunkCompares(dst.cells, data, offset, len);
    if MatchesPadded(dst.cells, data) {
      CompareMismatch(dst.cells, data, offset, len);
    }
  }

  /** One round of the processing loop. */
  method ProcessChunk(dst: FlashArea, src: FsFile, op: ImgOperation, offset: nat, len: nat, buf: array<byte>,
                      ghost before: seq<byte>)
    returns (ok: bool)
    requires 0 < len <= TMP_BUF_SIZE == buf.Length
    requires src.pos == offset && offset + len <= |src.data| <= |before| && |before| % 4 == 0 && offset % 4 == 0
    requires offset + len < |src.data| ==> len % 4 == 0
    requires Processed(op, before, src.data, offset, dst.cells)
    modifies dst, src, buf
    ensures op.CompareImg? ==> dst.cells == old(dst.cells)
    ensures ok ==> src.pos == offset + len && Processed(op, before, src.data, offset + len, dst.cells)
    ensures !ok && op.WriteImg? ==> CopyLeaves(before, src.data, dst.cells)
    ensures dst.reliable && src.reliable ==> (!ok ==> op.CompareImg? && !MatchesPadded(before, src.data))
  {
    assert offset + len + Padding(len) <= |before|;
    var padding;
    ok, padding := ReadChunk(src, buf, len);
    if ok {
      match op
      case WriteImg => ok := WriteChunk(dst, offset, buf, len, padding, src.data);
      case CompareImg => ok := CompareChunk(dst, offset, buf, len, padding, src.data);
    }
  }

  /** img_process; copying erases first, comparing does not. */
  method ImgProcess(dst: FlashArea, src: FsFile, erase: bool, op: ImgOperation) returns (ok: bool)
    requires erase == op.WriteImg?
    requires |dst.cells| % 4 == 0
    modifies dst, src
    ensures op.CompareImg? ==> dst.cells == old(dst.cells)
    ensures op.WriteImg? ==> CopyLeaves(old(dst.cells), src.data, dst.cells)
    ensures ok ==> |src.data| <= old(|dst.cells|)
    ensures ok ==> Processed(op, old(dst.cells), src.data, |src.data|, dst.cells)
    ensures dst.opens && dst.reliable && src.reliable ==>
              (ok <==> |src.data| <= old(|dst.cells|) && (op.CompareImg? ==> MatchesPadded(old(dst.cells), src.data)))
  {
    ghost var before, data := dst.cells, src.data;
    var rc := dst.Open();
    if rc != 0 {
      return false;
    }
    rc := src.SeekEnd();
    if rc != 0 {
      return false;
    }
    var srcFileSize := src.pos;
    rc := src.Seek(0);
    if rc != 0 {
      return false;
    }
    if srcFileSize > |dst.cells| {
      return false;
    }
    if erase {
      rc := dst.Erase();
      if rc != 0 {
        return false;
      }
    }
    assert Processed(op, before, data, 0, dst.cells) by {
      assert data[..0] == [] && Padding(0) == 0;
    }
    var tmpBuf1 := new byte[TMP_BUF_SIZE];
    var remLen: nat, offset: nat := srcFileSize, 0;
    while remLen > 0
      invariant offset + remLen == |data| && src.pos == offset
      invariant remLen > 0 ==> offset % 4 == 0
      invariant Processed(op, before, data, offset, dst.cells)
    {
      var len := if remLen > TMP_BUF_SIZE then TMP_BUF_SIZE else remLen;
      ok := ProcessChunk(dst, src, op, offset, len, tmpBuf1, before);
      if !ok {
        return false;
      }
      offset := offset + len;
      remLen := remLen - len;
    }
    assert data[..offset] == data;
    return true;
  }

  /**
   mcuboot_img_op_copy: success leaves the file's bytes followed by erased
   cells only; without faults it succeeds whenever the file fits.
   */
  method ImgCopy(dst: FlashArea, src: FsFile) returns (ok: bool)
    requires |dst.cells| % 4 == 0
    modifies dst, src
    ensures ok ==> |src.data| <= old(|dst.cells|) && dst.cells == Filled(src.data, old(|dst.cells|))
    ensures CopyLeaves(old(dst.cells), src.data, dst.cells)
    ensures dst.opens && dst.reliable && src.reliable ==> (ok <==> |src.data| <= old(|dst.cells|))
  {
    ok := ImgProcess(dst, src, true, WriteImg);
    assert src.data[..|src.data|] == src.data;
  }

  /**
   mcuboot_img_op_cmp: true only if the partition starts with the padded file;
   without faults exactly then. No flash cell changes.
   */
  method ImgCompare(dst: FlashArea, src: FsFile) returns (ok: bool)
    requires |dst.cells| % 4 == 0
    modifies dst, src
    ensures dst.cells == old(dst.cells)
    ensures ok ==> MatchesPadded(dst.cells, src.data)
    ensures dst.opens && dst.reliable && src.reliable ==> (ok <==> MatchesPadded(dst.cells, src.data))
  {
    ok := ImgProcess(dst, src, false, CompareImg);
    assert src.data[..|src.data|] == src.data;
  }

  /** A comparison after a successful copy succeeds. */
  lemma CopyThenCompare(data: seq<byte>, size: nat)
    requires |data| <= size && size % 4 == 0
    ensures MatchesPadded(Filled(data, size), data)
  {
    var pad := Padding(|data|);
    assert |data| + pad <= size;
    assert Filled(data, size)[..|data| + pad] == data + Ones(pad);
  }

  /** The exact meaning of a successful comparison, byte by byte. */
  lemma MatchesPaddedBytes(cells: seq<byte>, data: seq<byte>)
    requires |cells| % 4 == 0
    ensures MatchesPadded(cells, data) <==>
            && |data| <= |cells|
            && (forall i | 0 <= i < |data| :: cells[i] == data[i])
            && (forall i | |data| <= i < |data| + Padding(|data|) :: i < |cells| && cells[i] == 0xFF)
  {
    var all := data + Ones(Padding(|data|));
    if |data| <= |cells| {
      assert |all| <= |cells|;
      assert all <= cells <==> forall i | 0 <= i < |all| :: all[i] == cells[i];
    }
  }
}
