/**
 The record iterator over an image file, and what it visits: on any file a
 walk along the record headers, on a laid-out image exactly its records.
 */
module TlvIter {
  import opened Bytes
  import opened Devices
  import opened ImageFormat

  /** What starting an iterator learns about the two areas. */
  datatype Areas = Areas(protSize: u16, protEnd: nat, tlvEnd: nat)

  /** The checks on the two area headers, or None when one fails. */
  function FindAreas(data: seq<byte>, hdr: Header): Option<Areas> {
    var off := TlvOff(hdr);
    if off + 4 > |data| then None
    else if Le16(data, off) == TLV_PROT_INFO_MAGIC then
      if Le16(data, off + 2) != hdr.protSize || off + hdr.protSize + 4 > |data| then None
      else if Le16(data, off + hdr.protSize) != TLV_INFO_MAGIC then None
      else Some(Areas(hdr.protSize, off + hdr.protSize, off + hdr.protSize + Le16(data, off + hdr.protSize + 2)))
    else if hdr.protSize != 0 || Le16(data, off) != TLV_INFO_MAGIC then None
    else Some(Areas(0, off, off + Le16(data, off + 2)))
  }

  /**
   Exactly when the areas are found: behind the body stands, if the header
   names a protected size, a protected area header with that total, and behind
   that size an unprotected area header.
   */
  lemma FindAreasIff(data: seq<byte>, hdr: Header, a: Areas)
    ensures FindAreas(data, hdr) == Some(a) <==>
              var off, second := TlvOff(hdr), TlvOff(hdr) + hdr.protSize;
              && second + 4 <= |data|
              && (hdr.protSize > 0 ==>
                    off + 4 <= |data| && Le16(data, off) == 0x6908 && Le16(data, off + 2) == hdr.protSize)
              && Le16(data, second) == 0x6907
              && a.protSize == hdr.protSize && a.protEnd == second && a.tlvEnd == second + Le16(data, second + 2)
  {
    hide Le16;
  }

  /** The records met from some offset on; not complete when the file ends too early. */
  datatype Walked = Walked(recs: seq<Tlv>, complete: bool) {

    /** The same walk with some records before it. */
    function After(ts: seq<Tlv>): Walked {
      Walked(ts + recs, complete)
    }
  }

  lemma AfterAfter(ts: seq<Tlv>, us: seq<Tlv>, w: Walked)
    ensures w.After(us).After(ts) == w.After(ts + us)
  {
    assert ts + (us + w.recs) == ts + us + w.recs;
  }

  /** The record whose header stands at the given offset. */
  function RecordAt(data: seq<byte>, at: nat): Tlv
    requires at + 4 <= |data|
  {
    Tlv(Le16(data, at), at + 4, Le16(data, at + 2))
  }

  function Seam(a: Areas, off: nat): nat {
    if a.protSize > 0 && off == a.protEnd then off + 4 else off
  }

  function Walk(data: seq<byte>, a: Areas, off: nat): Walked
    decreases a.tlvEnd - off
  {
    if off >= a.tlvEnd then Walked([], true)
    else if Seam(a, off) + 4 > |data| then Walked([], false)
    else
      var t := RecordAt(data, Seam(a, off));
      Walk(data, a, t.End()).After([t])
  }

  /** Does the protected-only iterator stop before this record? */
  predicate Cuts(prot: bool, protEnd: nat, t: Tlv) {
    prot && t.off >= protEnd + 4
  }

  predicate Wanted(kind: u16, t: Tlv) {
    kind == TLV_ANY || t.kind == kind
  }

  /** What an iterator for this kind reports of a walk, and whether it then ends without an error. */
  function Picked(w: Walked, kind: u16, prot: bool, protEnd: nat): Walked
    decreases w.recs
  {
    if w.recs == [] then w
    else if Cuts(prot, protEnd, w.recs[0]) then Walked([], true)
    else
      var rest := Picked(Walked(w.recs[1..], w.complete), kind, prot, protEnd);
      if Wanted(kind, w.recs[0]) then rest.After([w.recs[0]]) else rest
  }

  /** What an iterator standing at off has still to report. */
  function Report(data: seq<byte>, a: Areas, off: nat, kind: u16, prot: bool): Walked
    decreases a.tlvEnd - off
  {
    if off >= a.tlvEnd then Walked([], true)
    else if Seam(a, off) + 4 > |data| then Walked([], false)
    else
      var t := RecordAt(data, Seam(a, off));
      if Cuts(prot, a.protEnd, t) then Walked([], true)
      else
        var rest := Report(data, a, t.End(), kind, prot);
        if Wanted(kind, t) then rest.After([t]) else rest
  }

  /** The report is the walk, filtered. */
  lemma {:induction false} ReportIsPicked(data: seq<byte>, a: Areas, off: nat, kind: u16, prot: bool)
    ensures Report(data, a, off, kind, prot) == Picked(Walk(data, a, off), kind, prot, a.protEnd)
    decreases a.tlvEnd - off
  {
    if off < a.tlvEnd && Seam(a, off) + 4 <= |data| {
      var t := RecordAt(data, Seam(a, off));
      var w, next := Walk(data, a, off), Walk(data, a, t.End());
      assert w == next.After([t]);
      assert w.recs[1..] == next.recs;
      ReportIsPicked(data, a, t.End(), kind, prot);
    }
  }

  /** Loads one of the two-field structures: an area header or a record header. */
  method LoadPair(file: FsFile, off: nat) returns (rc: int, first: u16, second: u16)
    modifies file
    ensures rc == 0 ==> off + 4 <= |file.data| && first == Le16(file.data, off) && second == Le16(file.data, off + 2)
    ensures file.reliable ==> (rc == 0 <==> off + 4 <= |file.data|)
  {
    var buf := new byte[4];
    rc := LoadImageData(file, off, buf, 4);
    if rc == 0 {
      assert buf[..] == file.data[off..off + 4];
      assert forall i | 0 <= i < 4 :: buf[i] == buf[..][i] == file.data[off + i];
    }
    first, second := Le16(buf[..], 0), Le16(buf[..], 2);
  }

  method LoadRecord(file: FsFile, off: nat) returns (rc: int, t: Tlv)
    modifies file
    ensures t.off == off + 4
    ensures rc == 0 ==> off + 4 <= |file.data| && t == RecordAt(file.data, off)
    ensures file.reliable ==> (rc == 0 <==> off + 4 <= |file.data|)
  {
    var kind, len;
    rc, kind, len := LoadPair(file, off);
    t := Tlv(kind, off + 4, len);
  }

  class TlvIterator {
    var hdr: Header
    var file: FsFile?
    var kind: u16
    var prot: bool
    var protEnd: u32
    var tlvOff: u32
    var tlvEnd: u32

    /** The zero-initialised structure. */
    constructor ()
      ensures file == null
    {
      hdr, file, kind, prot, protEnd, tlvOff, tlvEnd := ZERO_HEADER, null, 0, false, 0, 0, 0;
    }

    /** The bounds that keep the 32-bit offsets from wrapping around. */
    ghost predicate Valid()
      reads this
    {
      file != null ==>
        && protEnd + 4 <= |file.data|
        && tlvEnd <= protEnd + 0xFFFF
        && tlvOff <= |file.data| + 0xFFFF
    }

    ghost function Left(): Walked
      requires file != null
      reads this
    {
      Report(file.data, Areas(hdr.protSize, protEnd, tlvEnd), tlvOff, kind, prot)
    }

    /** file_tlv_iter_begin */
    method Begin(hdr: Header, file: FsFile, kind: u16, prot: bool) returns (rc: int)
      requires Valid()
      modifies this, file
      ensures Valid()
      ensures rc == 0 || rc == -1
      ensures rc == 0 ==>
                && this.file == file && this.hdr == hdr && this.kind == kind && this.prot == prot
                && FindAreas(file.data, hdr) == Some(Areas(hdr.protSize, protEnd, tlvEnd))
                && tlvOff == TlvOff(hdr) + 4
      ensures rc != 0 ==> unchanged(this)
      ensures file.reliable ==> (rc == 0 <==> FindAreas(file.data, hdr).Some?)
    {
      hide Le16, Report;
      var offset := TlvOff(hdr);
      var magic, total;
      rc, magic, total := LoadPair(file, offset);
      if rc != 0 {
        return -1;
      }
      if magic == TLV_PROT_INFO_MAGIC {
        if hdr.protSize != total {
          return -1;
        }
        rc, magic, total := LoadPair(file, Wrap32(offset as int + total as int));
        if rc != 0 {
          return -1;
        }
      } else if hdr.protSize != 0 {
        return -1;
      }
      if magic != TLV_INFO_MAGIC {
        return -1;
      }
      this.hdr, this.file, this.kind, this.prot := hdr, file, kind, prot;
      protEnd := Wrap32(offset as int + hdr.protSize as int);
      tlvEnd := Wrap32(offset as int + hdr.protSize as int + total as int);
      tlvOff := Wrap32(offset as int + 4);
      return 0;
    }

    /** file_tlv_iter_next: 0 with the next wanted record, 1 when there is none, -1 on errors. */
    method Next() returns (rc: int, t: Tlv)
      requires Valid()
      modifies this`tlvOff, file
      ensures Valid()
      ensures rc == 0 || rc == 1 || rc == -1
      ensures file == null ==> rc == -1
      ensures rc == 0 ==> old(Left()) == Left().After([t]) && t.off <= |file.data|
      ensures rc == 1 ==> old(Left()) == Walked([], true)
      ensures rc == -1 && file != null && file.reliable ==> old(Left()) == Walked([], false)
    {
      hide RecordAt;
      t := Tlv(0, 0, 0);
      if file == null {
        return -1, t;
      }
      while tlvOff < tlvEnd
        invariant Valid() && Left() == old(Left())
        decreases tlvEnd - tlvOff
      {
        if hdr.protSize > 0 && tlvOff == protEnd {
          tlvOff := Wrap32(tlvOff as int + 4);
        }
        rc, t := LoadRecord(file, tlvOff);
        if rc != 0 {
          return -1, t;
        }
        if prot && tlvOff >= protEnd {
          return 1, t;
        }
        tlvOff := Wrap32(t.End());
        if kind == TLV_ANY || t.kind == kind {
          return 0, t;
        }
      }
      return 1, t;
    }

    /** file_tlv_iter_is_prot */
    method IsProt(off: nat) returns (rc: int)
      requires Valid()
      ensures file == null ==> rc == -1
      ensures file != null ==> rc == if off < protEnd then 1 else 0
    {
      if file == null {
        return -1;
      }
      return if off < protEnd then 1 else 0;
    }
  }

  // ---------- what the iterator visits in a laid-out image ----------

  /** The places of all records of an image. */
  function ImagePlaces(img: Image): seq<Tlv>
    requires img.Encodable()
  {
    Places(img.ProtRecords(), |img.head| + 4) + Places(img.unprot, |img.Hashed()| + 4)
  }

  function ImageAreas(img: Image): Areas
    requires img.Encodable()
  {
    Areas(|img.ProtBytes()|, |img.Hashed()|, |img.Bytes()|)
  }

  lemma AreaAt(data: seq<byte>, off: nat, magic: u16, rs: seq<Record>)
    requires AreaSize(rs) < 0x1_0000
    requires At(data, off, EncodeArea(magic, rs))
    ensures off + AreaSize(rs) <= |data|
    ensures Le16(data, off) == magic && Le16(data, off + 2) == AreaSize(rs)
    ensures LaidOut(data, off + 4, rs)
  {
    AtSplit(data, off, EncodeLe16(magic) + EncodeLe16(AreaSize(rs)), EncodeRecords(rs));
    AtSplit(data, off, EncodeLe16(magic), EncodeLe16(AreaSize(rs)));
    AtLe16(data, off, magic);
    AtLe16(data, off + 2, AreaSize(rs));
    EncodedIsLaidOut(data, off + 4, rs);
  }

  /** Where the parts of an image lie in a file that starts with it. */
  lemma ImageParts(img: Image, data: seq<byte>)
    requires img.Encodable() && img.Bytes() <= data
    ensures At(data, 0, img.Hashed())
    ensures At(data, |img.head|, img.ProtBytes())
    ensures At(data, |img.Hashed()|, EncodeArea(TLV_INFO_MAGIC, img.unprot))
  {
    var unprot := EncodeArea(TLV_INFO_MAGIC, img.unprot);
    assert At(data, 0, img.Bytes());
    AtSplit(data, 0, img.Hashed(), unprot);
    AtSplit(data, 0, img.head, img.ProtBytes());
  }

  lemma ImageAreaHeaders(img: Image, data: seq<byte>)
    requires img.Encodable() && img.Bytes() <= data
    ensures img.prot.Some? ==>
              && Le16(data, |img.head|) == TLV_PROT_INFO_MAGIC && Le16(data, |img.head| + 2) == |img.ProtBytes()|
              && LaidOut(data, |img.head| + 4, img.prot.value)
    ensures Le16(data, |img.Hashed()|) == TLV_INFO_MAGIC && Le16(data, |img.Hashed()| + 2) == AreaSize(img.unprot)
    ensures LaidOut(data, |img.Hashed()| + 4, img.unprot)
  {
    hide EncodeArea, At, LaidOut, Le16;
    ImageParts(img, data);
    AreaAt(data, |img.Hashed()|, TLV_INFO_MAGIC, img.unprot);
    if img.prot.Some? {
      AreaAt(data, |img.head|, TLV_PROT_INFO_MAGIC, img.prot.value);
    }
  }

  /** Two area headers in order, the first only if there are protected bytes. */
  lemma AreasFound(data: seq<byte>, hdr: Header, off: nat, total: u16)
    requires hdr.hdrSize as int + hdr.imgSize as int == off < 0x1_0000_0000
    requires off + hdr.protSize + 4 <= |data|
    requires hdr.protSize > 0 ==> Le16(data, off) == TLV_PROT_INFO_MAGIC && Le16(data, off + 2) == hdr.protSize
    requires Le16(data, off + hdr.protSize) == TLV_INFO_MAGIC && Le16(data, off + hdr.protSize + 2) == total
    ensures FindAreas(data, hdr) == Some(Areas(hdr.protSize, off + hdr.protSize, off + hdr.protSize + total))
  {
  }

  lemma ImageLists(img: Image, hdr: Header, data: seq<byte>)
    requires img.Described(hdr) && img.Bytes() <= data
    ensures img.prot.Some? ==> LaidOut(data, |img.head| + 4, img.prot.value)
    ensures LaidOut(data, |img.Hashed()| + 4, img.unprot)
    ensures FindAreas(data, hdr) == Some(ImageAreas(img))
  {
    hide EncodeArea;
    ImageAreaHeaders(img, data);
    assert |img.Hashed()| == |img.head| + hdr.protSize;
    assert |img.Bytes()| == |img.Hashed()| + AreaSize(img.unprot);
    AreasFound(data, hdr, |img.head|, AreaSize(img.unprot));
  }

  /** A walk passes over a laid-out list record by record, unless the seam lies inside it. */
  lemma {:induction false} WalkRun(data: seq<byte>, a: Areas, off: nat, rs: seq<Record>, end: nat)
    requires LaidOut(data, off, rs)
    requires end == off + Size(rs) <= a.tlvEnd
    requires a.protSize == 0 || end <= a.protEnd || a.protEnd < off
    ensures Walk(data, a, off) == Walk(data, a, end).After(Places(rs, off))
    decreases |rs|
  {
    if rs != [] {
      var t := RecordAt(data, off);
      var next := t.End();
      WalkRun(data, a, next, rs[1..], end);
      assert Walk(data, a, off) == Walk(data, a, next).After([t]);
      AfterAfter([t], Places(rs[1..], next), Walk(data, a, end));
    }
  }

  /** Across the seam, a walk visits both lists when the second one is not empty. */
  lemma WalkTwoLists(data: seq<byte>, a: Areas, start: nat, prot: seq<Record>, unprot: seq<Record>)
    requires LaidOut(data, start, prot) && LaidOut(data, a.protEnd + 4, unprot)
    requires a.protSize > 0 && a.protEnd == start + Size(prot)
    requires a.tlvEnd == a.protEnd + 4 + Size(unprot)
    requires unprot != []
    ensures Walk(data, a, start) == Walked(Places(prot, start) + Places(unprot, a.protEnd + 4), true)
  {
    var second := a.protEnd + 4;
    WalkRun(data, a, start, prot, a.protEnd);
    WalkRun(data, a, second, unprot, a.tlvEnd);
    assert Seam(a, a.protEnd) == second == Seam(a, second);
    assert Walk(data, a, a.protEnd) == Walk(data, a, second);
  }

  lemma WalkOneList(data: seq<byte>, a: Areas, start: nat, rs: seq<Record>)
    requires LaidOut(data, start, rs)
    requires a.protSize == 0 && a.tlvEnd == start + Size(rs)
    ensures Walk(data, a, start) == Walked(Places(rs, start), true)
  {
    WalkRun(data, a, start, rs, a.tlvEnd);
  }

  lemma WalkVisitsBothAreas(img: Image, hdr: Header, data: seq<byte>, prot: seq<Record>)
    requires img.WellFormed(hdr) && img.Bytes() <= data && img.prot == Some(prot)
    ensures Walk(data, ImageAreas(img), |img.head| + 4)
            == Walked(Places(prot, |img.head| + 4) + Places(img.unprot, |img.Hashed()| + 4), true)
  {
    hide EncodeArea;
    ImageLists(img, hdr, data);
    assert |img.ProtBytes()| == AreaSize(prot);
    assert |img.Hashed()| == |img.head| + AreaSize(prot);
    assert |img.Bytes()| == |img.Hashed()| + AreaSize(img.unprot);
    WalkTwoLists(data, ImageAreas(img), |img.head| + 4, prot, img.unprot);
  }

  lemma WalkVisitsOneArea(img: Image, hdr: Header, data: seq<byte>)
    requires img.WellFormed(hdr) && img.Bytes() <= data && img.prot.None?
    ensures Walk(data, ImageAreas(img), |img.head| + 4) == Walked(Places(img.unprot, |img.Hashed()| + 4), true)
  {
    ImageLists(img, hdr, data);
    assert |img.ProtBytes()| == 0;
    assert |img.Hashed()| == |img.head|;
    assert |img.Bytes()| == |img.Hashed()| + AreaSize(img.unprot);
    WalkOneList(data, ImageAreas(img), |img.head| + 4, img.unprot);
  }

  /** Every record of a well-formed image is visited, in order, and nothing else. */
  lemma WalkVisitsRecords(img: Image, hdr: Header, data: seq<byte>)
    requires img.WellFormed(hdr) && img.Bytes() <= data
    ensures Walk(data, ImageAreas(img), |img.head| + 4) == Walked(ImagePlaces(img), true)
  {
    if img.prot.Some? {
      WalkVisitsBothAreas(img, hdr, data, img.prot.value);
    } else {
      WalkVisitsOneArea(img, hdr, data);
      assert Places(img.ProtRecords(), |img.head| + 4) == [];
    }
  }

  /**
   An unprotected area without records is read past its end when a protected
   area precedes it: the next four file bytes are taken for a record header.
   */
  lemma EmptyUnprotectedOverruns(img: Image, hdr: Header, data: seq<byte>)
    requires img.Described(hdr) && img.Bytes() <= data
    requires img.prot.Some? && img.unprot == []
    ensures var w := Walk(data, ImageAreas(img), |img.head| + 4);
            if |data| < |img.Bytes()| + 4 then w == Walked(ImagePlaces(img), false)
            else |w.recs| == |ImagePlaces(img)| + 1 && w.complete
                 && w.recs[|ImagePlaces(img)|].off == |img.Bytes()| + 4
  {
    hide EncodeArea;
    ImageLists(img, hdr, data);
    WalkRun(data, ImageAreas(img), |img.head| + 4, img.prot.value, |img.Hashed()|);
  }

  /** The records of a list that have the wanted kind. */
  function Select(ts: seq<Tlv>, kind: u16): seq<Tlv> {
    if ts == [] then []
    else if Wanted(kind, ts[0]) then [ts[0]] + Select(ts[1..], kind)
    else Select(ts[1..], kind)
  }

  /** Records before the cut are filtered by kind; the cut ends the report. */
  lemma {:induction false} PickedSelects(ts: seq<Tlv>, rest: Walked, kind: u16, prot: bool, protEnd: nat)
    requires forall t | t in ts :: !Cuts(prot, protEnd, t)
    ensures Picked(rest.After(ts), kind, prot, protEnd)
            == Picked(rest, kind, prot, protEnd).After(Select(ts, kind))
  {
    if ts == [] {
      assert rest.After(ts) == rest;
    } else {
      assert rest.After(ts).recs[1..] == rest.After(ts[1..]).recs;
      PickedSelects(ts[1..], rest, kind, prot, protEnd);
      AfterAfter([ts[0]], Select(ts[1..], kind), Picked(rest, kind, prot, protEnd));
    }
  }

  lemma PlacesBoundsAll(rs: seq<Record>, off: nat)
    ensures forall t | t in Places(rs, off) :: off + 4 <= t.off <= off + Size(rs)
  {
    forall i | 0 <= i < |rs| ensures off + 4 <= Places(rs, off)[i].off <= off + Size(rs) {
      PlacesBounds(rs, off, i);
    }
  }

  lemma PickedBothLists(ps: seq<Tlv>, us: seq<Tlv>, kind: u16, protEnd: nat)
    ensures Picked(Walked(ps + us, true), kind, false, protEnd) == Walked(Select(ps + us, kind), true)
  {
    PickedSelects(ps + us, Walked([], true), kind, false, protEnd);
    assert Walked([], true).After(ps + us) == Walked(ps + us, true);
  }

  lemma PickedProtectedList(ps: seq<Tlv>, us: seq<Tlv>, kind: u16, protEnd: nat)
    requires forall t | t in ps :: t.off <= protEnd
    requires forall t | t in us :: t.off >= protEnd + 4
    ensures Picked(Walked(ps + us, true), kind, true, protEnd) == Walked(Select(ps, kind), true)
  {
    PickedSelects(ps, Walked(us, true), kind, true, protEnd);
    if us != [] {
      assert us[0] in us;
    }
  }

  /**
   Iterator round trip: laying out any record lists and iterating reports
   exactly the records of the wanted kind in order, and with the protected flag
   only those of the protected list; then the iteration ends without an error.
   */
  lemma IteratorRoundTrip(img: Image, hdr: Header, data: seq<byte>, kind: u16, prot: bool)
    requires img.WellFormed(hdr) && img.Bytes() <= data
    ensures FindAreas(data, hdr) == Some(ImageAreas(img)) && TlvOff(hdr) == |img.head|
    ensures Report(data, ImageAreas(img), |img.head| + 4, kind, prot)
            == Walked(Select(if prot then Places(img.ProtRecords(), |img.head| + 4) else ImagePlaces(img), kind), true)
  {
    hide EncodeArea, Walk, Report, Places;
    var start, protEnd := |img.head| + 4, |img.Hashed()|;
    var ps, us := Places(img.ProtRecords(), start), Places(img.unprot, protEnd + 4);
    ImageLists(img, hdr, data);
    WalkVisitsRecords(img, hdr, data);
    ReportIsPicked(data, ImageAreas(img), start, kind, prot);
    PlacesBoundsAll(img.ProtRecords(), start);
    PlacesBoundsAll(img.unprot, protEnd + 4);
    if prot {
      PickedProtectedList(ps, us, kind, protEnd);
    } else {
      PickedBothLists(ps, us, kind, protEnd);
    }
  }

  /** An iterator for any kind and both areas reports the whole walk. */
  lemma {:induction false} PickedAll(w: Walked, protEnd: nat)
    ensures Picked(w, TLV_ANY, false, protEnd) == w
    decreases w.recs
  {
    if w.recs != [] {
      PickedAll(Walked(w.recs[1..], w.complete), protEnd);
    }
  }

  // ---------- the protected classification ----------

  lemma WalkHead(data: seq<byte>, a: Areas, off: nat)
    requires Walk(data, a, off).recs != []
    ensures off < a.tlvEnd && Seam(a, off) + 4 <= |data|
    ensures var t, recs := RecordAt(data, Seam(a, off)), Walk(data, a, off).recs;
            recs[0] == t && recs[1..] == Walk(data, a, t.End()).recs
  {
  }

  /** Where the walk stands before record i. */
  function Standing(recs: seq<Tlv>, off: nat, i: nat): nat
    requires i <= |recs|
  {
    if i == 0 then off else recs[i - 1].End()
  }

  /**
   The records of a walk form a chain: each header stands where the previous
   record ends, behind the second area header if that is there, and before the
   end of all records. The chain ends there, or where the file has no header left.
   */
  lemma {:induction false} WalkIsChain(data: seq<byte>, a: Areas, off: nat, i: nat)
    requires i <= |Walk(data, a, off).recs|
    ensures var w := Walk(data, a, off);
            var from := Standing(w.recs, off, i);
            var at := if a.protSize > 0 && from == a.protEnd then from + 4 else from;
            && (i < |w.recs| ==>
                  from < a.tlvEnd && at + 4 <= |data|
                  && w.recs[i] == Tlv(Le16(data, at), at + 4, Le16(data, at + 2)))
            && (i == |w.recs| ==> if w.complete then from >= a.tlvEnd else from < a.tlvEnd && at + 4 > |data|)
    decreases i
  {
    hide Le16;
    if i > 0 {
      WalkHead(data, a, off);
      var t := Walk(data, a, off).recs[0];
      assert Walk(data, a, off).complete == Walk(data, a, t.End()).complete;
      WalkIsChain(data, a, t.End(), i - 1);
    }
  }

  /**
   On any walk, the protected-only iterator reports the records up to the first
   one whose header stands behind the protected area, and then ends.
   */
  lemma {:induction false} PickedUpToCut(w: Walked, kind: u16, protEnd: nat, n: nat)
    requires n <= |w.recs| && forall i | 0 <= i < n :: w.recs[i].off - 4 < protEnd
    requires n < |w.recs| ==> w.recs[n].off - 4 >= protEnd
    ensures Picked(w, kind, true, protEnd) == Walked(Select(w.recs[..n], kind), n < |w.recs| || w.complete)
    decreases n
  {
    if n > 0 {
      assert w.recs[..n][1..] == w.recs[1..][..n - 1];
      PickedUpToCut(Walked(w.recs[1..], w.complete), kind, protEnd, n - 1);
    }
  }

  /** Offsets only grow along a walk. */
  lemma {:induction false} WalkAscends(data: seq<byte>, a: Areas, off: nat, i: nat)
    requires i < |Walk(data, a, off).recs|
    ensures off + 4 <= Walk(data, a, off).recs[0].off <= Walk(data, a, off).recs[i].off
    decreases i
  {
    WalkHead(data, a, off);
    if i > 0 {
      var t := Walk(data, a, off).recs[0];
      WalkAscends(data, a, t.End(), i - 1);
    }
  }

  /** Do two files have the same first n bytes? */
  ghost predicate Agree(data: seq<byte>, data': seq<byte>, n: nat) {
    n <= |data| && n <= |data'| && forall k | 0 <= k < n :: data[k] == data'[k]
  }

  lemma SamePrefixSameStep(data: seq<byte>, a: Areas, data': seq<byte>, a': Areas, off: nat)
    requires a.protSize == a'.protSize && a.protEnd == a'.protEnd <= a'.tlvEnd
    requires Agree(data, data', a.protEnd)
    requires Walk(data, a, off).recs != [] && Walk(data, a, off).recs[0].off < a.protEnd
    ensures var t := RecordAt(data, off);
            && Walk(data, a, off).recs[0] == t
            && Walk(data, a, off).recs[1..] == Walk(data, a, t.End()).recs
            && Walk(data', a', off).recs == [t] + Walk(data', a', t.End()).recs
  {
    WalkHead(data, a, off);
    assert RecordAt(data', off) == RecordAt(data, off);
  }

  /**
   In any two files, even malformed ones, that agree up to the end of the
   protected area, the records reported as protected are the same.
   */
  lemma {:induction false} ProtectedFixedByPrefix(
    data: seq<byte>, a: Areas, data': seq<byte>, a': Areas, off: nat, i: nat)
    requires a.protSize == a'.protSize && a.protEnd == a'.protEnd <= a'.tlvEnd
    requires Agree(data, data', a.protEnd)
    requires i < |Walk(data, a, off).recs| && Walk(data, a, off).recs[i].off < a.protEnd
    ensures i < |Walk(data', a', off).recs| && Walk(data', a', off).recs[i] == Walk(data, a, off).recs[i]
    decreases i
  {
    WalkAscends(data, a, off, i);
    SamePrefixSameStep(data, a, data', a', off);
    if i > 0 {
      var t := RecordAt(data, off);
      ProtectedFixedByPrefix(data, a, data', a', t.End(), i - 1);
    }
  }

  /**
   In a well-formed image the classification is list membership, except that a
   last protected record without a payload is reported as unprotected; the
   payload of a record reported as protected is hashed with it.
   */
  lemma ProtectedClassification(img: Image, hdr: Header, i: nat)
    requires img.WellFormed(hdr)
    requires i < |ImagePlaces(img)|
    ensures var n, t := |img.ProtRecords()|, ImagePlaces(img)[i];
            && (t.off < |img.Hashed()| <==> i < n && !(i == n - 1 && img.ProtRecords()[i].value == []))
            && (t.off < |img.Hashed()| ==> t.End() <= |img.Hashed()|)
  {
    var rs := img.ProtRecords();
    if i < |rs| {
      PlacesBounds(rs, |img.head| + 4, i);
    } else {
      PlacesBounds(img.unprot, |img.Hashed()| + 4, i - |rs|);
    }
  }
}
