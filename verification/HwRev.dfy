/**
 The search for the hardware revision records of an image, once in a file and
 once in a flash partition. Both look four bytes past the protected records.
 */
module HwRev {
  import opened Bytes
  import opened Devices
  import opened ImageFormat
  import opened TlvIter

  const NAME_SIZE: nat := 16

  /** The two vendor record kinds. */
  datatype HwKinds = HwKinds(id: u16, name: u16) {
    predicate Valid() {
      id != name && id != TLV_INFO_MAGIC && name != TLV_INFO_MAGIC
    }
  }

  type NameBuf = n: seq<byte> | |n| == NAME_SIZE witness seq(NAME_SIZE, _ => 0)

  /** fw_image_hw_rev_t as a value. */
  datatype Rev = Rev(num: u32, name: NameBuf) {
    predicate Complete() {
      name[0] != 0 && num != 0
    }

    /** What the searches reset before they start. */
    function Cleared(): Rev {
      Rev(0, name[0 := 0])
    }
  }

  const ZERO_REV: Rev := Rev(0, Repeat(0, NAME_SIZE))

  /** fw_image_hw_rev_t as the structure the searches fill. */
  class HwRevision {
    var num: u32
    const name: array<byte>

    constructor ()
      ensures Valid() && fresh(name) && Value() == ZERO_REV
    {
      num := 0;
      name := new byte[NAME_SIZE](_ => 0);
      new;
      assert name[..] == ZERO_REV.name;
    }

    ghost predicate Valid()
      reads this
    {
      name.Length == NAME_SIZE
    }

    function Value(): Rev
      requires Valid()
      reads this, name
    {
      Rev(num, name[..])
    }
  }

  /** The outcome of a record or of a search. */
  datatype Outcome = Outcome(ok: bool, rev: Rev)

  // ---------- big-endian numbers ----------

  function BeValue(s: seq<byte>): nat {
    if s == [] then 0 else 0x100 * BeValue(s[..|s| - 1]) + s[|s| - 1]
  }

  lemma BeValueIsBe32(s: seq<byte>)
    requires |s| == 4
    ensures BeValue(s) == Be32(s)
  {
    assert s[..3][..2] == s[..2] && s[..2][..1] == s[..1] && s[..1][..0] == [];
    assert BeValue(s[..1]) == s[0];
    assert BeValue(s[..2]) == 0x100 * BeValue(s[..1]) + s[1];
    assert BeValue(s[..3]) == 0x100 * BeValue(s[..2]) + s[2];
  }

  lemma Pow2Plus8(k: nat)
    ensures Pow2(k + 8) == 0x100 * Pow2(k)
  {
    assert Pow2(k + 2) == 4 * Pow2(k);
    assert Pow2(k + 4) == 4 * Pow2(k + 2);
    assert Pow2(k + 6) == 4 * Pow2(k + 4);
  }

  lemma ShiftArithmetic(high: nat, b: byte, p: nat)
    requires p > 0
    ensures (0x100 * high + b) * p == high * (0x100 * p) + b * p
    ensures b * p < 0x100 * p
  {
    assert (b + 1) * p <= 0x100 * p;
  }

  /** Or-ing a shifted byte below the bytes gathered so far appends it. */
  lemma OrByte(s: seq<byte>, i: nat)
    requires i < |s| == 4
    ensures BitOr(BeValue(s[..i]) * Pow2(32 - 8 * i), s[i] * Pow2(24 - 8 * i)) == BeValue(s[..i + 1]) * Pow2(24 - 8 * i)
  {
    var shift := 24 - 8 * i;
    var high, b, p := BeValue(s[..i]), s[i], Pow2(24 - 8 * i);
    assert s[..i + 1][..i] == s[..i];
    assert BeValue(s[..i + 1]) == 0x100 * high + b;
    Pow2Plus8(shift);
    assert Pow2(32 - 8 * i) == 0x100 * p;
    ShiftArithmetic(high, b, p);
    OrDisjoint(shift + 8, high, b * p);
  }

  /** The accumulator after i bytes. */
  function Gathered(s: seq<byte>, i: nat): nat
    requires i <= |s| == 4
  {
    BeValue(s[..i]) * Pow2(32 - 8 * i)
  }

  lemma GatheredStep(s: seq<byte>, i: nat)
    requires i < |s| == 4
    ensures BitOr(Gathered(s, i), s[i] * Pow2(24 - 8 * i)) == Gathered(s, i + 1)
  {
    OrByte(s, i);
  }

  lemma GatheredAll(s: seq<byte>)
    requires |s| == 4
    ensures Gathered(s, 0) == 0 && Gathered(s, 4) == Be32(s)
  {
    BeValueIsBe32(s);
    assert s[..4] == s;
  }

  /** u32_from_bytes_be: or-ing the shifted bytes together gives the big-endian number. */
  method U32FromBytesBe(buf: array<byte>) returns (res: u32)
    requires buf.Length == 4
    ensures res == Be32(buf[..])
  {
    hide BitOr, BeValue, Gathered, Pow2;
    ghost var s := buf[..];
    GatheredAll(s);
    var acc: nat := 0;
    for i := 0 to 4
      invariant acc == Gathered(s, i)
    {
      GatheredStep(s, i);
      acc := BitOr(acc, buf[i] * Pow2(24 - 8 * i));
    }
    res := acc;
  }

  // ---------- the search in a file ----------

  /** The structure in four bytes that were read at off. */
  function TlvOf(b: seq<byte>, off: nat): Tlv
    requires |b| == 4
  {
    Tlv(Le16(b, 0), off + 4, Le16(b, 2))
  }

  /** A record in a file; pos is where the payload is read from. */
  function HandleInFile(k: HwKinds, data: seq<byte>, pos: nat, kind: u16, len: u16, rev: Rev): Outcome {
    if kind == k.id then
      if len != 4 || rev.num != 0 then Outcome(false, rev)
      else Outcome(true, rev.(num := Be32(Overlay(Repeat(0, 4), data, pos, 4))))
    else if kind == k.name then
      if len >= NAME_SIZE || rev.name[0] != 0 then Outcome(false, rev)
      else Outcome(true, rev.(name := Overlay(rev.name, data, pos, len)[len := 0]))
    else Outcome(true, rev)
  }

  /** The scan from off on; tlv is the record header read last. */
  function ScanFile(k: HwKinds, data: seq<byte>, off: nat, end: nat, tlv: seq<byte>, rev: Rev): Outcome
    requires |tlv| == 4
    decreases end - off
  {
    if off + 4 > end || off > FILE_MAX then Outcome(false, rev)
    else
      var tlv' := Overlay(tlv, data, off, 4);
      var t := TlvOf(tlv', off);
      var h := HandleInFile(k, data, off + Available(data, off, 4), t.kind, t.len, rev);
      if !h.ok || h.rev.Complete() then h
      else ScanFile(k, data, t.End(), end, tlv', h.rev)
  }

  /** The search once the record areas are known to start at off. */
  function FindInFileFrom(k: HwKinds, data: seq<byte>, off: nat, rev: Rev): Outcome {
    if off > FILE_MAX then Outcome(false, rev)
    else
      var info := TlvOf(Overlay(Repeat(0, 4), data, off, 4), off);
      if info.kind != TLV_PROT_INFO_MAGIC then Outcome(false, rev)
      else ScanFile(k, data, info.off, info.End(), Repeat(0, 4), rev)
  }

  function FindInFile(k: HwKinds, data: seq<byte>, rev: Rev): Outcome {
    if |data| < HEADER_SIZE then Outcome(false, rev.Cleared())
    else FindInFileFrom(k, data, TlvOff(ParseHeader(data)), rev.Cleared())
  }

  /** Is there a terminator in the buffer? */
  predicate Terminated(name: seq<byte>) {
    0 in name
  }

  /** The record was handled as in some first part of the file. */
  ghost predicate HandledInPart(k: HwKinds, data: seq<byte>, pos: nat, kind: u16, len: u16, rev: Rev, rev': Rev) {
    exists end | 0 <= end <= |data| :: HandleInFile(k, data[..end], pos, kind, len, rev) == Outcome(true, rev')
  }

  /** A read that stops at end leaves the buffer as if the file ended there. */
  lemma ShortRead(buf: seq<byte>, data: seq<byte>, pos: nat, n: nat, rc: nat) returns (end: nat)
    requires n <= |buf| && rc <= Available(data, pos, n)
    ensures end <= |data| && Overlay(buf, data[..end], pos, n) == Overlay(buf, data, pos, rc)
  {
    if rc == 0 {
      end := Min(pos, |data|);
    } else {
      end := pos + rc;
      assert Available(data, pos, rc) == Available(data[..end], pos, n) == rc;
      assert data[..end][pos..end] == data[pos..end];
    }
  }

  /**
   fw_img_hw_rev_handle_tlv_hw_rev_in_file; a read that delivers too little
   works as if the file ended there.
   */
  method HandleTlvInFile(k: HwKinds, kind: u16, len: u16, file: FsFile, rev: HwRevision) returns (ok: bool)
    requires k.Valid() && rev.Valid()
    modifies file, rev`num, rev.name
    ensures file.reliable ==>
              Outcome(ok, rev.Value()) == HandleInFile(k, file.data, old(file.pos), kind, len, old(rev.Value()))
    ensures ok ==> HandledInPart(k, file.data, old(file.pos), kind, len, old(rev.Value()), rev.Value())
    ensures ok && Terminated(old(rev.name[..])) ==> Terminated(rev.name[..])
  {
    ghost var before, pos, end: nat := rev.Value(), file.pos, 0;
    if kind == k.id {
      if len != 4 {
        return false;
      }
      if rev.num != 0 {
        return false;
      }
      var buf := new byte[4](_ => 0);
      assert buf[..] == Repeat(0, 4);
      var rc := file.Read(buf, 4);
      if rc < 0 {
        return false;
      }
      end := ShortRead(Repeat(0, 4), file.data, pos, 4, rc);
      rev.num := U32FromBytesBe(buf);
    }
    if kind == k.name {
      if len >= NAME_SIZE {
        return false;
      }
      if rev.name[0] != 0 {
        return false;
      }
      var rc := file.Read(rev.name, len);
      if rc < 0 {
        return false;
      }
      ghost var read := rev.name[..];
      end := ShortRead(before.name, file.data, pos, len, rc);
      assert read == Overlay(before.name, file.data[..end], pos, len);
      rev.name[len] := 0;
      assert rev.name[..] == read[len := 0];
      assert rev.name[..][len] == 0;
    }
    assert HandleInFile(k, file.data[..end], pos, kind, len, before) == Outcome(true, rev.Value());
    return true;
  }

  /** One round of the scan: reads the record header at off and handles the record. */
  method ScanFileRound(k: HwKinds, file: FsFile, off: nat, tlv: array<byte>, rev: HwRevision)
    returns (ok: bool, t: Tlv)
    requires k.Valid() && rev.Valid() && tlv.Length == 4 && tlv != rev.name
    modifies file, tlv, rev`num, rev.name
    ensures t.off == off + 4
    ensures file.reliable && off <= FILE_MAX ==>
              && tlv[..] == Overlay(old(tlv[..]), file.data, off, 4) && t == TlvOf(tlv[..], off)
              && Outcome(ok, rev.Value())
                 == HandleInFile(k, file.data, off + Available(file.data, off, 4), t.kind, t.len, old(rev.Value()))
    ensures off > FILE_MAX ==> !ok && rev.Value() == old(rev.Value())
    ensures ok && Terminated(old(rev.name[..])) ==> Terminated(rev.name[..])
  {
    ok, t := false, Tlv(0, off + 4, 0);
    var rc := file.Seek(off);
    if rc != 0 {
      return;
    }
    rc := file.Read(tlv, 4);
    if rc < 0 {
      return;
    }
    t := TlvOf(tlv[..], off);
    ok := HandleTlvInFile(k, t.kind, t.len, file, rev);
  }

  /** find_tlvs_in_file; a file that ends early leaves zeros in the area header. */
  method FindTlvsInFile(file: FsFile, magic: u16, startOffset: u32) returns (found: bool, start: u32, end: u32)
    modifies file
    ensures file.reliable ==>
              var info := TlvOf(Overlay(Repeat(0, 4), file.data, startOffset, 4), startOffset);
              && (found <==> startOffset <= FILE_MAX && info.kind == magic)
              && (found ==> start == info.off && end == info.End())
    ensures found ==> startOffset <= FILE_MAX && start == startOffset + 4 && end <= start + 0xFFFF
  {
    found, start, end := false, 0, 0;
    var rc := file.Seek(startOffset);
    if rc != 0 {
      return;
    }
    var info := new byte[4](_ => 0);
    assert info[..] == Repeat(0, 4);
    rc := file.Read(info, 4);
    if rc < 0 || Le16(info[..], 0) != magic {
      return;
    }
    start := Wrap32(startOffset as int + 4);
    end := Wrap32(start as int + Le16(info[..], 2) as int);
    found := true;
  }

  /** The scan loop over the protected area of a file. */
  method ScanFileFrom(k: HwKinds, file: FsFile, start: nat, end: nat, tlv: array<byte>, rev: HwRevision)
    returns (found: bool)
    requires k.Valid() && rev.Valid() && tlv.Length == 4 && tlv != rev.name
    requires start <= FILE_MAX + 4 && end <= start + 0xFFFF
    modifies file, tlv, rev`num, rev.name
    ensures file.reliable ==>
              Outcome(found, rev.Value()) == ScanFile(k, file.data, start, end, old(tlv[..]), old(rev.Value()))
    ensures found && Terminated(old(rev.name[..])) ==> rev.Value().Complete() && Terminated(rev.name[..])
  {
    var dataOff := start;
    ghost var outcome := ScanFile(k, file.data, start, end, tlv[..], rev.Value());
    while Wrap32(dataOff + 4) <= end
      invariant rev.Valid() && dataOff <= FILE_MAX + 0x2_0000
      invariant file.reliable ==> ScanFile(k, file.data, dataOff, end, tlv[..], rev.Value()) == outcome
      invariant Terminated(old(rev.name[..])) ==> Terminated(rev.name[..])
      decreases end - dataOff
    {
      var ok, t := ScanFileRound(k, file, dataOff, tlv, rev);
      if !ok {
        return false;
      }
      if rev.name[0] != 0 && rev.num != 0 {
        return true;
      }
      dataOff := Wrap32(t.End());
    }
    return false;
  }

  /** Reads the header structure at the position. */
  method ReadHeader(file: FsFile) returns (ok: bool, hdr: Header)
    modifies file
    ensures ok ==> |file.data| >= HEADER_SIZE && file.pos == old(file.pos) + HEADER_SIZE
    ensures ok && old(file.pos) == 0 ==> hdr == ParseHeader(file.data)
    ensures file.reliable && old(file.pos) == 0 ==> (ok <==> |file.data| >= HEADER_SIZE)
  {
    var buf := new byte[HEADER_SIZE];
    ghost var at := file.pos;
    var rc := file.Read(buf, HEADER_SIZE);
    if rc != HEADER_SIZE {
      return false, ZERO_HEADER;
    }
    if at == 0 {
      assert buf[..] == file.data[..HEADER_SIZE];
      ParseHeaderPrefix(file.data);
    }
    return true, ParseHeader(buf[..]);
  }

  /** fw_img_hw_rev_find_in_file */
  method FindHwRevInFile(k: HwKinds, file: FsFile, rev: HwRevision) returns (found: bool)
    requires k.Valid() && rev.Valid()
    modifies file, rev`num, rev.name
    ensures file.reliable ==> Outcome(found, rev.Value()) == FindInFile(k, file.data, old(rev.Value()))
    ensures found ==> rev.Value().Complete() && Terminated(rev.name[..])
  {
    ghost var cleared := rev.Value().Cleared();
    rev.num, rev.name[0] := 0, 0;
    assert rev.Value() == cleared;
    assert rev.name[..][0] == 0;
    var rc := file.Seek(0);
    if rc != 0 {
      return false;
    }
    var ok, hdr := ReadHeader(file);
    if !ok {
      return false;
    }
    var start, end;
    ok, start, end := FindTlvsInFile(file, TLV_PROT_INFO_MAGIC, TlvOff(hdr));
    if !ok {
      return false;
    }
    var tlv := new byte[4](_ => 0);
    assert tlv[..] == Repeat(0, 4);
    found := ScanFileFrom(k, file, start, end, tlv, rev);
  }

  // ---------- the search in a flash partition ----------

  /** A record in flash; a payload that leaves the partition cannot be read. */
  function HandleInFlash(k: HwKinds, cells: seq<byte>, t: Tlv, rev: Rev): Outcome {
    if t.kind == k.id then
      if t.len != 4 || rev.num != 0 || t.off + 4 > |cells| then Outcome(false, rev)
      else Outcome(true, rev.(num := Be32(cells[t.off..t.off + 4])))
    else if t.kind == k.name then
      if t.len >= NAME_SIZE || rev.name[0] != 0 || t.End() > |cells| then Outcome(false, rev)
      else Outcome(true, rev.(name := (cells[t.off..t.End()] + rev.name[t.len..])[t.len := 0]))
    else Outcome(true, rev)
  }

  function ScanFlash(k: HwKinds, cells: seq<byte>, off: nat, end: nat, rev: Rev): Outcome
    decreases end - off
  {
    if off + 4 > end || off + 4 > |cells| then Outcome(false, rev)
    else
      var t := RecordAt(cells, off);
      var h := HandleInFlash(k, cells, t, rev);
      if !h.ok || h.rev.Complete() then h
      else ScanFlash(k, cells, t.End(), end, h.rev)
  }

  function FindInFlashFrom(k: HwKinds, cells: seq<byte>, off: nat, rev: Rev): Outcome {
    if off + 4 > |cells| then Outcome(false, rev)
    else
      var info := RecordAt(cells, off);
      if info.kind != TLV_PROT_INFO_MAGIC then Outcome(false, rev)
      else ScanFlash(k, cells, info.off, info.End(), rev)
  }

  /** loaded is what MCUboot's header loading makes of the partition. */
  function FindInFlash(k: HwKinds, cells: seq<byte>, loaded: Option<Header>, rev: Rev): Outcome {
    if loaded == None then Outcome(false, rev.Cleared())
    else FindInFlashFrom(k, cells, TlvOff(loaded.value), rev.Cleared())
  }

  /** fw_img_hw_rev_handle_tlv_hw_rev_in_flash_area */
  method HandleTlvInFlash(k: HwKinds, t: Tlv, fa: FlashArea, rev: HwRevision) returns (ok: bool)
    requires k.Valid() && rev.Valid()
    modifies rev`num, rev.name
    ensures ok || fa.reliable ==> Outcome(ok, rev.Value()) == HandleInFlash(k, fa.cells, t, old(rev.Value()))
  {
    ghost var before := rev.Value();
    if t.kind == k.id {
      if t.len != 4 {
        return false;
      }
      if rev.num != 0 {
        return false;
      }
      var buf := new byte[4](_ => 0);
      var rc := fa.Read(t.off, buf, 4);
      if rc != 0 {
        return false;
      }
      assert buf[..] == fa.cells[t.off..t.off + 4];
      rev.num := U32FromBytesBe(buf);
    }
    if t.kind == k.name {
      if t.len >= NAME_SIZE {
        return false;
      }
      if rev.name[0] != 0 {
        return false;
      }
      var rc := fa.Read(t.off, rev.name, t.len);
      if rc != 0 {
        assert fa.reliable ==> t.End() > |fa.cells|;
        return false;
      }
      ghost var read := fa.cells[t.off..t.End()] + before.name[t.len..];
      assert rev.name[..] == read;
      rev.name[t.len] := 0;
      assert rev.name[..] == read[t.len := 0];
    }
    return true;
  }

  /** Reads one of the two-field structures from flash. */
  method ReadPair(fa: FlashArea, off: nat) returns (ok: bool, t: Tlv)
    ensures ok ==> off + 4 <= |fa.cells| && t == RecordAt(fa.cells, off)
    ensures fa.reliable ==> (ok <==> off + 4 <= |fa.cells|)
  {
    var buf := new byte[4](_ => 0);
    var rc := fa.Read(off, buf, 4);
    if rc != 0 {
      return false, Tlv(0, off + 4, 0);
    }
    assert buf[..] == fa.cells[off..off + 4];
    assert forall i | 0 <= i < 4 :: buf[..][i] == fa.cells[off + i];
    return true, Tlv(Le16(buf[..], 0), off + 4, Le16(buf[..], 2));
  }

  /** The scan loop over the protected area of a partition. */
  method ScanFlashFrom(k: HwKinds, fa: FlashArea, start: nat, end: nat, rev: HwRevision) returns (found: bool)
    requires k.Valid() && rev.Valid()
    requires |fa.cells| <= FILE_MAX && start <= |fa.cells| && end <= start + 0xFFFF
    modifies rev`num, rev.name
    ensures found || fa.reliable ==>
              Outcome(found, rev.Value()) == ScanFlash(k, fa.cells, start, end, old(rev.Value()))
  {
    var dataOff := start;
    ghost var outcome := ScanFlash(k, fa.cells, start, end, rev.Value());
    while Wrap32(dataOff + 4) <= end
      invariant rev.Valid() && dataOff <= FILE_MAX + 0x2_0000
      invariant ScanFlash(k, fa.cells, dataOff, end, rev.Value()) == outcome
      decreases end - dataOff
    {
      var ok, t := ReadPair(fa, dataOff);
      if !ok {
        return false;
      }
      ok := HandleTlvInFlash(k, t, fa, rev);
      if !ok {
        return false;
      }
      if rev.name[0] != 0 && rev.num != 0 {
        return true;
      }
      dataOff := Wrap32(t.End());
    }
    return false;
  }

  /** fw_img_hw_rev_find_in_flash_area */
  method FindHwRevInFlash(k: HwKinds, fa: FlashArea, loaded: Option<Header>, rev: HwRevision) returns (found: bool)
    requires k.Valid() && rev.Valid() && |fa.cells| <= FILE_MAX
    modifies rev`num, rev.name
    ensures found || (fa.opens && fa.reliable) ==>
              Outcome(found, rev.Value()) == FindInFlash(k, fa.cells, loaded, old(rev.Value()))
  {
    ghost var cleared := rev.Value().Cleared();
    rev.num, rev.name[0] := 0, 0;
    assert rev.Value() == cleared;
    var rc := fa.Open();
    if rc != 0 {
      return false;
    }
    if loaded == None {
      return false;
    }
    var startOffset := TlvOff(loaded.value);
    var ok, info := ReadPair(fa, startOffset);
    if !ok || info.kind != TLV_PROT_INFO_MAGIC {
      return false;
    }
    found := ScanFlashFrom(k, fa, Wrap32(info.off), Wrap32(info.End()), rev);
  }

  // ---------- both searches agree ----------

  /** Does every record the scan meets lie inside the file? */
  ghost predicate ScannedInside(k: HwKinds, data: seq<byte>, off: nat, end: nat, rev: Rev)
    decreases end - off
  {
    off + 4 <= end ==>
      && off + 4 <= |data|
      && var t := RecordAt(data, off);
      && t.End() <= |data|
      && var h := HandleInFlash(k, data, t, rev);
      && (h.ok && !h.rev.Complete() ==> ScannedInside(k, data, t.End(), end, h.rev))
  }

  lemma SameRecord(data: seq<byte>, cells: seq<byte>, off: nat)
    requires data <= cells && off + 4 <= |data|
    ensures RecordAt(cells, off) == RecordAt(data, off)
  {
    assert forall i | 0 <= i < |data| :: cells[i] == data[i];
  }

  lemma WholeRecordRead(tlv: seq<byte>, data: seq<byte>, off: nat)
    requires |tlv| == 4 && off + 4 <= |data|
    ensures TlvOf(Overlay(tlv, data, off, 4), off) == RecordAt(data, off) && Available(data, off, 4) == 4
  {
    assert Overlay(tlv, data, off, 4) == data[off..off + 4];
  }

  /** The file's handler sees what the flash handler sees when the payload lies inside the file. */
  lemma HandlersAgree(k: HwKinds, data: seq<byte>, cells: seq<byte>, t: Tlv, rev: Rev)
    requires data <= cells && t.End() <= |data|
    ensures HandleInFile(k, data, t.off, t.kind, t.len, rev) == HandleInFlash(k, cells, t, rev)
    ensures HandleInFlash(k, data, t, rev) == HandleInFlash(k, cells, t, rev)
  {
    assert data[t.off..t.End()] == cells[t.off..t.End()];
  }

  lemma {:induction false} ScansAgree(
    k: HwKinds, data: seq<byte>, cells: seq<byte>, off: nat, end: nat, tlv: seq<byte>, rev: Rev)
    requires data <= cells && |data| <= FILE_MAX && |tlv| == 4
    requires ScannedInside(k, data, off, end, rev)
    ensures ScanFile(k, data, off, end, tlv, rev) == ScanFlash(k, cells, off, end, rev)
    decreases end - off
  {
    if off + 4 <= end {
      var t := RecordAt(data, off);
      var tlv' := Overlay(tlv, data, off, 4);
      SameRecord(data, cells, off);
      WholeRecordRead(tlv, data, off);
      HandlersAgree(k, data, cells, t, rev);
      var h := HandleInFlash(k, cells, t, rev);
      if h.ok && !h.rev.Complete() {
        ScansAgree(k, data, cells, t.End(), end, tlv', h.rev);
      }
    }
  }

  lemma SearchIsScan(k: HwKinds, data: seq<byte>, cells: seq<byte>, off: nat, info: Tlv, rev: Rev)
    requires off + 4 <= |data| <= FILE_MAX && off + 4 <= |cells|
    requires info == RecordAt(data, off) == RecordAt(cells, off)
    ensures FindInFileFrom(k, data, off, rev)
            == if info.kind != TLV_PROT_INFO_MAGIC then Outcome(false, rev)
               else ScanFile(k, data, info.off, info.End(), Repeat(0, 4), rev)
    ensures FindInFlashFrom(k, cells, off, rev)
            == if info.kind != TLV_PROT_INFO_MAGIC then Outcome(false, rev)
               else ScanFlash(k, cells, info.off, info.End(), rev)
  {
    WholeRecordRead(Repeat(0, 4), data, off);
  }

  lemma SearchesAgreeFrom(k: HwKinds, data: seq<byte>, cells: seq<byte>, off: nat, rev: Rev)
    requires data <= cells && off + 4 <= |data| <= FILE_MAX
    requires var info := RecordAt(data, off); ScannedInside(k, data, info.off, info.End(), rev)
    ensures FindInFileFrom(k, data, off, rev) == FindInFlashFrom(k, cells, off, rev)
  {
    var info := RecordAt(data, off);
    SameRecord(data, cells, off);
    SearchIsScan(k, data, cells, off, info, rev);
    ScansAgree(k, data, cells, info.off, info.End(), Repeat(0, 4), rev);
  }

  /**
   Twin agreement: a file and a partition that starts with it give the same
   verdict and the same revision, when the partition's header loads and the
   scanned records lie inside the file.
   */
  lemma SearchesAgree(k: HwKinds, data: seq<byte>, cells: seq<byte>, loaded: Option<Header>, rev: Rev)
    requires data <= cells && HEADER_SIZE <= |data| <= FILE_MAX
    requires loaded == Some(ParseHeader(data))
    requires var off := TlvOff(ParseHeader(data));
             && off + 4 <= |data|
             && var info := RecordAt(data, off);
             && ScannedInside(k, data, info.off, info.End(), rev.Cleared())
    ensures FindInFile(k, data, rev) == FindInFlash(k, cells, loaded, rev)
  {
    SearchesAgreeFrom(k, data, cells, TlvOff(ParseHeader(data)), rev.Cleared());
  }

  // ---------- the search is a lookup in the protected records ----------

  function HandleRecord(k: HwKinds, r: Record, rev: Rev): Outcome {
    if r.kind == k.id then
      if |r.value| != 4 || rev.num != 0 then Outcome(false, rev)
      else Outcome(true, rev.(num := Be32(r.value)))
    else if r.kind == k.name then
      if |r.value| >= NAME_SIZE || rev.name[0] != 0 then Outcome(false, rev)
      else Outcome(true, rev.(name := (r.value + rev.name[|r.value|..])[|r.value| := 0]))
    else Outcome(true, rev)
  }

  function Lookup(k: HwKinds, rs: seq<Record>, rev: Rev): Outcome {
    if rs == [] then Outcome(false, rev)
    else
      var h := HandleRecord(k, rs[0], rev);
      if !h.ok || h.rev.Complete() then h else Lookup(k, rs[1..], h.rev)
  }

  lemma HandlerReadsRecord(k: HwKinds, data: seq<byte>, off: nat, rs: seq<Record>, rev: Rev)
    requires rs != [] && LaidOut(data, off, rs)
    ensures var t := RecordAt(data, off);
            && t == Tlv(rs[0].kind, off + 4, |rs[0].value|) && t.End() <= |data|
            && HandleInFile(k, data, off + 4, t.kind, t.len, rev) == HandleRecord(k, rs[0], rev)
  {
  }

  /**
   The scan runs four bytes past the protected records; the record it may find
   there, the header of the unprotected area, changes nothing.
   */
  lemma PhantomRecord(k: HwKinds, data: seq<byte>, off: nat, tlv: seq<byte>, rev: Rev)
    requires k.Valid() && off + 4 <= |data| <= FILE_MAX && |tlv| == 4 && !rev.Complete()
    requires RecordAt(data, off).kind == TLV_INFO_MAGIC
    ensures ScanFile(k, data, off, off + 4, tlv, rev) == Outcome(false, rev)
  {
    WholeRecordRead(tlv, data, off);
    var t := RecordAt(data, off);
    assert ScanFile(k, data, t.End(), off + 4, Overlay(tlv, data, off, 4), rev) == Outcome(false, rev);
  }

  lemma {:induction false} ScanFileIsLookup(
    k: HwKinds, data: seq<byte>, off: nat, rs: seq<Record>, end: nat, tlv: seq<byte>, rev: Rev)
    requires k.Valid() && |data| <= FILE_MAX && |tlv| == 4
    requires LaidOut(data, off, rs) && end == off + Size(rs) + 4 <= |data|
    requires RecordAt(data, end - 4).kind == TLV_INFO_MAGIC
    requires !rev.Complete()
    ensures ScanFile(k, data, off, end, tlv, rev) == Lookup(k, rs, rev)
    decreases |rs|
  {
    if rs == [] {
      PhantomRecord(k, data, off, tlv, rev);
    } else {
      var t := RecordAt(data, off);
      WholeRecordRead(tlv, data, off);
      HandlerReadsRecord(k, data, off, rs, rev);
      var h := HandleRecord(k, rs[0], rev);
      if h.ok && !h.rev.Complete() {
        ScanFileIsLookup(k, data, t.End(), rs[1..], end, Overlay(tlv, data, off, 4), h.rev);
      }
    }
  }

  lemma FindAreaIsLookup(k: HwKinds, data: seq<byte>, off: nat, rs: seq<Record>, rev: Rev)
    requires k.Valid() && |data| <= FILE_MAX && !rev.Complete()
    requires off + 8 + Size(rs) <= |data| && Size(rs) + 4 < 0x1_0000
    requires RecordAt(data, off) == Tlv(TLV_PROT_INFO_MAGIC, off + 4, 4 + Size(rs))
    requires LaidOut(data, off + 4, rs)
    requires RecordAt(data, off + 4 + Size(rs)).kind == TLV_INFO_MAGIC
    ensures FindInFileFrom(k, data, off, rev) == Lookup(k, rs, rev)
  {
    var info := RecordAt(data, off);
    WholeRecordRead(Repeat(0, 4), data, off);
    ScanFileIsLookup(k, data, info.off, rs, info.End(), Repeat(0, 4), rev);
  }

  lemma HeaderOfImage(img: Image, data: seq<byte>)
    requires img.Encodable() && img.Bytes() <= data && |img.head| >= HEADER_SIZE
    ensures ParseHeader(data) == ParseHeader(img.head)
  {
    ParseHeaderPrefix(data);
    ParseHeaderPrefix(img.head);
    assert data[..HEADER_SIZE] == img.Bytes()[..HEADER_SIZE] == img.head[..HEADER_SIZE];
  }

  lemma ProtAreaOfImage(img: Image, data: seq<byte>, off: nat, rs: seq<Record>)
    requires img.Encodable() && img.Bytes() <= data
    requires off == |img.head| && img.prot == Some(rs)
    ensures off + 8 + Size(rs) <= |data| && Size(rs) + 4 < 0x1_0000
    ensures RecordAt(data, off) == Tlv(TLV_PROT_INFO_MAGIC, off + 4, 4 + Size(rs))
    ensures LaidOut(data, off + 4, rs)
    ensures RecordAt(data, off + 4 + Size(rs)).kind == TLV_INFO_MAGIC
  {
    hide EncodeArea;
    ImageAreaHeaders(img, data);
    assert |img.ProtBytes()| == 4 + Size(rs);
    assert |img.Hashed()| == off + 4 + Size(rs);
    assert |img.Bytes()| >= off + 8 + Size(rs);
  }

  /** On a well-formed image with a protected area, the file search is the lookup. */
  lemma FindInFileIsLookup(k: HwKinds, img: Image, hdr: Header, data: FileData, rev: Rev)
    requires k.Valid() && |img.head| >= HEADER_SIZE && hdr == ParseHeader(img.head)
    requires img.Described(hdr) && img.prot.Some? && img.Bytes() <= data
    ensures FindInFile(k, data, rev) == Lookup(k, img.prot.value, rev.Cleared())
  {
    hide EncodeArea;
    var off := TlvOff(hdr);
    HeaderOfImage(img, data);
    ProtAreaOfImage(img, data, off, img.prot.value);
    FindAreaIsLookup(k, data, off, img.prot.value, rev.Cleared());
  }

  /** An image without protected records has no revision. */
  lemma NoProtectedAreaNotFound(k: HwKinds, img: Image, hdr: Header, data: FileData, rev: Rev)
    requires |img.head| >= HEADER_SIZE && hdr == ParseHeader(img.head)
    requires img.Described(hdr) && img.prot.None? && img.Bytes() <= data
    ensures FindInFile(k, data, rev) == Outcome(false, rev.Cleared())
  {
    hide EncodeArea, ScanFile;
    HeaderOfImage(img, data);
    ImageAreaHeaders(img, data);
    assert |img.ProtBytes()| == 0 && |img.Hashed()| == |img.head|;
    assert |img.Bytes()| >= |img.head| + 4;
    if TlvOff(hdr) <= FILE_MAX {
      WholeRecordRead(Repeat(0, 4), data, |img.head|);
    }
  }

  /** The id that an image tool stores in big-endian order is the id that is read. */
  lemma EncodedIdIsRead(k: HwKinds, n: u32, rev: Rev)
    ensures HandleRecord(k, Record(k.id, EncodeBe32(n)), rev.(num := 0)).rev.num == n
  {
    Be32RoundTrip(n);
  }

  // ---------- what a lookup finds ----------

  ghost predicate IsId(k: HwKinds, r: Record) {
    r.kind == k.id && |r.value| == 4 && Be32(r.value) != 0
  }

  ghost predicate IsName(k: HwKinds, r: Record) {
    r.kind == k.name && 0 < |r.value| < NAME_SIZE && r.value[0] != 0
  }

  /** Record j is in order when a and b are the records of the id and of the name (-1: none yet). */
  ghost predicate InOrder(k: HwKinds, rs: seq<Record>, j: nat, a: int, b: int)
    requires j < |rs|
  {
    && (rs[j].kind == k.id ==> |rs[j].value| == 4 && (j == a || ((a < 0 || j < a) && !IsId(k, rs[j]))))
    && (rs[j].kind == k.name ==> |rs[j].value| < NAME_SIZE && (j == b || ((b < 0 || j < b) && !IsName(k, rs[j]))))
  }

  /**
   The id and the name come from records a and b: up to the later of the two,
   ids have four bytes and names fit, and there is no further id or name except
   zero ids and empty names before them.
   */
  ghost predicate FoundAt(k: HwKinds, rs: seq<Record>, a: nat, b: nat) {
    && a < |rs| && IsId(k, rs[a]) && b < |rs| && IsName(k, rs[b])
    && forall j: nat | j <= Max(a, b) :: InOrder(k, rs, j, a, b)
  }

  /** The revision after the first i records, none of which completed it. */
  ghost predicate SeenSoFar(k: HwKinds, rs: seq<Record>, i: nat, rev: Rev, a: int, b: int) {
    && i <= |rs| && a < i && b < i && (a < 0 || b < 0)
    && (if a < 0 then rev.num == 0 else IsId(k, rs[a]) && rev.num == Be32(rs[a].value))
    && (if b < 0 then rev.name[0] == 0
        else IsName(k, rs[b]) && rev.name[0] != 0 && CString(rev.name) == CString(rs[b].value))
    && forall j: nat | j < i :: InOrder(k, rs, j, a, b)
  }

  /** A terminated name is the record's C string, whatever stood in the buffer before. */
  lemma {:induction false} CStringTerminated(v: seq<byte>, tail: seq<byte>)
    ensures CString(v + [0] + tail) == CString(v)
  {
    if v != [] {
      assert (v + [0] + tail)[1..] == v[1..] + [0] + tail;
      CStringTerminated(v[1..], tail);
    }
  }

  lemma StoredName(k: HwKinds, r: Record, rev: Rev)
    requires r.kind == k.name && k.Valid() && |r.value| < NAME_SIZE && rev.name[0] == 0
    ensures var h := HandleRecord(k, r, rev);
            && h.ok && h.rev.num == rev.num && CString(h.rev.name) == CString(r.value)
            && h.rev.name[|r.value|] == 0 && (h.rev.name[0] != 0 <==> IsName(k, r))
  {
    var h, n := HandleRecord(k, r, rev), |r.value|;
    assert h.rev.name == r.value + [0] + rev.name[n + 1..];
    CStringTerminated(r.value, rev.name[n + 1..]);
  }

  /** A first name is stored if it leaves room for its terminator in sixteen bytes, a first id if it has four. */
  lemma FirstRecordStoredIff(k: HwKinds, r: Record, rev: Rev)
    requires k.Valid()
    ensures r.kind == k.name && rev.name[0] == 0 ==> (HandleRecord(k, r, rev).ok <==> |r.value| <= 15)
    ensures r.kind == k.id && rev.num == 0 ==> (HandleRecord(k, r, rev).ok <==> |r.value| == 4)
    ensures r.kind != k.name && r.kind != k.id ==> HandleRecord(k, r, rev) == Outcome(true, rev)
  {
  }

  /** What is known of a successful outcome. */
  ghost predicate Holds(rs: seq<Record>, a: nat, b: nat, rev: Rev)
    requires a < |rs| && b < |rs| && |rs[a].value| == 4
  {
    rev.num == Be32(rs[a].value) && CString(rev.name) == CString(rs[b].value)
  }

  /** One record, in terms of the records seen so far. */
  lemma SeenStep(k: HwKinds, rs: seq<Record>, i: nat, rev: Rev, a: int, b: int) returns (a': int, b': int)
    requires k.Valid() && i < |rs| && SeenSoFar(k, rs, i, rev, a, b)
    ensures a' == if a < 0 && IsId(k, rs[i]) then i else a
    ensures b' == if b < 0 && IsName(k, rs[i]) then i else b
    ensures var h := HandleRecord(k, rs[i], rev);
            && (h.ok <==> InOrder(k, rs, i, a', b'))
            && (h.ok && !h.rev.Complete() ==> SeenSoFar(k, rs, i + 1, h.rev, a', b'))
            && (h.ok && h.rev.Complete() ==>
                  a' >= 0 && b' >= 0 && FoundAt(k, rs, a', b') && Max(a', b') == i && Holds(rs, a', b', h.rev))
  {
    a' := if a < 0 && IsId(k, rs[i]) then i else a;
    b' := if b < 0 && IsName(k, rs[i]) then i else b;
    if rs[i].kind == k.name && |rs[i].value| < NAME_SIZE && rev.name[0] == 0 {
      StoredName(k, rs[i], rev);
    }
    if HandleRecord(k, rs[i], rev).ok {
      assert InOrder(k, rs, i, a', b');
      forall j: nat | j < i + 1 ensures InOrder(k, rs, j, a', b') {
        assert j < i ==> InOrder(k, rs, j, a, b);
      }
    }
  }

  lemma {:induction false} LookupFinds(k: HwKinds, rs: seq<Record>, i: nat, rev: Rev, a: int, b: int)
    requires k.Valid() && SeenSoFar(k, rs, i, rev, a, b)
    requires Lookup(k, rs[i..], rev).ok
    ensures exists a': nat, b': nat :: FoundAt(k, rs, a', b')
    decreases |rs| - i
  {
    var a', b' := SeenStep(k, rs, i, rev, a, b);
    var h := HandleRecord(k, rs[i], rev);
    assert rs[i..][0] == rs[i] && rs[i..][1..] == rs[i + 1..];
    if h.ok && !h.rev.Complete() {
      LookupFinds(k, rs, i + 1, h.rev, a', b');
    }
  }

  lemma {:induction false} FoundIsLookedUp(k: HwKinds, rs: seq<Record>, i: nat, rev: Rev, a: nat, b: nat)
    requires k.Valid() && FoundAt(k, rs, a, b) && i <= Max(a, b)
    requires SeenSoFar(k, rs, i, rev, if a < i then a else -1, if b < i then b else -1)
    ensures var r := Lookup(k, rs[i..], rev); r.ok && Holds(rs, a, b, r.rev)
    decreases |rs| - i
  {
    var a', b' := SeenStep(k, rs, i, rev, if a < i then a else -1, if b < i then b else -1);
    var h := HandleRecord(k, rs[i], rev);
    assert rs[i..][0] == rs[i] && rs[i..][1..] == rs[i + 1..];
    assert InOrder(k, rs, i, a, b);
    if h.ok && !h.rev.Complete() {
      FoundIsLookedUp(k, rs, i + 1, h.rev, a, b);
    }
  }

  /** A search succeeds exactly when an id and a name stand in order, and then returns them. */
  lemma LookupIff(k: HwKinds, rs: seq<Record>, rev: Rev)
    requires k.Valid()
    ensures Lookup(k, rs, rev.Cleared()).ok <==> exists a: nat, b: nat :: FoundAt(k, rs, a, b)
    ensures forall a: nat, b: nat | FoundAt(k, rs, a, b) :: Holds(rs, a, b, Lookup(k, rs, rev.Cleared()).rev)
  {
    assert rs[0..] == rs;
    assert SeenSoFar(k, rs, 0, rev.Cleared(), -1, -1);
    if Lookup(k, rs, rev.Cleared()).ok {
      LookupFinds(k, rs, 0, rev.Cleared(), -1, -1);
    }
    forall a: nat, b: nat | FoundAt(k, rs, a, b)
      ensures Lookup(k, rs, rev.Cleared()).ok && Holds(rs, a, b, Lookup(k, rs, rev.Cleared()).rev)
    {
      FoundIsLookedUp(k, rs, 0, rev.Cleared(), a, b);
    }
  }
}
