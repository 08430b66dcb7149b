/**
 The MCUboot image format (MCUboot design document, section "Image Format"):
 a 32-byte header, the body, an optional protected record area and an
 unprotected record area. The total in an area header counts that header.
 */
module ImageFormat {
  import opened Bytes

  const HEADER_SIZE: nat := 32
  const IMAGE_MAGIC: u32 := 0x96f3_b83d
  const TLV_INFO_MAGIC: u16 := 0x6907
  const TLV_PROT_INFO_MAGIC: u16 := 0x6908

  const TLV_KEYHASH: u16 := 0x01
  const TLV_PUBKEY: u16 := 0x02
  const TLV_SHA256: u16 := 0x10
  const TLV_SHA384: u16 := 0x11
  const TLV_SHA512: u16 := 0x12
  const TLV_RSA2048_PSS: u16 := 0x20
  const TLV_ECDSA224: u16 := 0x21
  const TLV_ECDSA_SIG: u16 := 0x22
  const TLV_RSA3072_PSS: u16 := 0x23
  const TLV_ED25519: u16 := 0x24
  const TLV_ENC_RSA2048: u16 := 0x30
  const TLV_ENC_KW: u16 := 0x31
  const TLV_ENC_EC256: u16 := 0x32
  const TLV_ENC_X25519: u16 := 0x33
  const TLV_SEC_CNT: u16 := 0x50
  const TLV_ANY: u16 := 0xffff

  datatype Version = Version(major: byte, minor: byte, revision: u16, build: u32)

  datatype Header = Header(magic: u32, hdrSize: u16, protSize: u16, imgSize: u32, flags: u32, version: Version)

  const ZERO_HEADER: Header := Header(0, 0, 0, 0, 0, Version(0, 0, 0, 0))

  /** The header structure as the little-endian core reads it. */
  function ParseHeader(b: seq<byte>): Header
    requires |b| >= HEADER_SIZE
  {
    Header(Le32(b, 0), Le16(b, 8), Le16(b, 10), Le32(b, 12), Le32(b, 16),
           Version(b[20], b[21], Le16(b, 22), Le32(b, 24)))
  }

  lemma ParseHeaderPrefix(b: seq<byte>)
    requires |b| >= HEADER_SIZE
    ensures ParseHeader(b[..HEADER_SIZE]) == ParseHeader(b)
  {
  }

  /** The header structure as the format lays it out: eight fields, the version in four parts. */
  function EncodeHeader(hdr: Header, loadAddr: u32, pad: u32): (b: seq<byte>)
    ensures |b| == HEADER_SIZE
  {
    EncodeLe32(hdr.magic) + EncodeLe32(loadAddr) + EncodeLe16(hdr.hdrSize) + EncodeLe16(hdr.protSize)
    + EncodeLe32(hdr.imgSize) + EncodeLe32(hdr.flags)
    + [hdr.version.major, hdr.version.minor] + EncodeLe16(hdr.version.revision) + EncodeLe32(hdr.version.build)
    + EncodeLe32(pad)
  }

  /** An encoded header is read back, whatever follows it. */
  lemma HeaderRoundTrip(hdr: Header, loadAddr: u32, pad: u32, rest: seq<byte>)
    ensures ParseHeader(EncodeHeader(hdr, loadAddr, pad) + rest) == hdr
  {
    hide EncodeLe16, EncodeLe32, Le16, Le32;
    var b := EncodeHeader(hdr, loadAddr, pad) + rest;
    assert b[0..4] == EncodeLe32(hdr.magic);
    assert b[8..10] == EncodeLe16(hdr.hdrSize) && b[10..12] == EncodeLe16(hdr.protSize);
    assert b[12..16] == EncodeLe32(hdr.imgSize) && b[16..20] == EncodeLe32(hdr.flags);
    assert b[22..24] == EncodeLe16(hdr.version.revision) && b[24..28] == EncodeLe32(hdr.version.build);
    Le32Stored(b, 0, hdr.magic);
    Le16Stored(b, 8, hdr.hdrSize);
    Le16Stored(b, 10, hdr.protSize);
    Le32Stored(b, 12, hdr.imgSize);
    Le32Stored(b, 16, hdr.flags);
    Le16Stored(b, 22, hdr.version.revision);
    Le32Stored(b, 24, hdr.version.build);
  }

  /** BOOT_TLV_OFF, in 32-bit arithmetic. */
  function TlvOff(hdr: Header): u32 {
    Wrap32(hdr.hdrSize as int + hdr.imgSize as int)
  }

  // ---------- laying out an image ----------

  type Value = v: seq<byte> | |v| < 0x1_0000

  datatype Record = Record(kind: u16, value: Value)

  function EncodeRecord(r: Record): (b: seq<byte>)
    ensures |b| == 4 + |r.value|
  {
    EncodeLe16(r.kind) + EncodeLe16(|r.value|) + r.value
  }

  function Size(rs: seq<Record>): nat {
    if rs == [] then 0 else 4 + |rs[0].value| + Size(rs[1..])
  }

  function EncodeRecords(rs: seq<Record>): (b: seq<byte>)
    ensures |b| == Size(rs)
  {
    if rs == [] then [] else EncodeRecord(rs[0]) + EncodeRecords(rs[1..])
  }

  function AreaSize(rs: seq<Record>): nat {
    4 + Size(rs)
  }

  function EncodeArea(magic: u16, rs: seq<Record>): (b: seq<byte>)
    requires AreaSize(rs) < 0x1_0000
    ensures |b| == AreaSize(rs)
  {
    EncodeLe16(magic) + EncodeLe16(AreaSize(rs)) + EncodeRecords(rs)
  }

  /** A record as bytes: kind and length in little-endian order, then the value; an area alike, with its total. */
  lemma LayoutBytes(r: Record, magic: u16, rs: seq<Record>)
    requires AreaSize(rs) < 0x1_0000
    ensures EncodeRecord(r) == [r.kind % 0x100, r.kind / 0x100, |r.value| % 0x100, |r.value| / 0x100] + r.value
    ensures EncodeArea(magic, rs)
            == [magic % 0x100, magic / 0x100, AreaSize(rs) % 0x100, AreaSize(rs) / 0x100] + EncodeRecords(rs)
    ensures EncodeRecords([r] + rs) == EncodeRecord(r) + EncodeRecords(rs)
  {
    assert ([r] + rs)[1..] == rs;
  }

  /** head is the header, its padding and the body. */
  datatype Image = Image(head: seq<byte>, prot: Option<seq<Record>>, unprot: seq<Record>) {

    /** The areas fit their 16-bit totals. */
    ghost predicate Encodable() {
      && (prot.Some? ==> AreaSize(prot.value) < 0x1_0000)
      && AreaSize(unprot) < 0x1_0000
    }

    function ProtRecords(): seq<Record> {
      if prot.Some? then prot.value else []
    }

    function ProtBytes(): (b: seq<byte>)
      requires Encodable()
      ensures |b| == if prot.Some? then AreaSize(prot.value) else 0
    {
      if prot.Some? then EncodeArea(TLV_PROT_INFO_MAGIC, prot.value) else []
    }

    /** What the image hash covers. */
    function Hashed(): (b: seq<byte>)
      requires Encodable()
      ensures |b| == |head| + |ProtBytes()|
    {
      head + ProtBytes()
    }

    function Bytes(): (b: seq<byte>)
      requires Encodable()
      ensures |b| == |Hashed()| + AreaSize(unprot)
    {
      Hashed() + EncodeArea(TLV_INFO_MAGIC, unprot)
    }

    /** The header fields describe the layout. */
    ghost predicate Described(hdr: Header) {
      && Encodable()
      && hdr.hdrSize as int + hdr.imgSize as int == |head| < 0x1_0000_0000
      && hdr.protSize == |ProtBytes()|
    }

    /** Moreover, an unprotected record follows if there is a protected area. */
    ghost predicate WellFormed(hdr: Header) {
      Described(hdr) && (prot.Some? ==> unprot != [])
    }
  }

  /** Where a record lies in a file: its kind, its payload's offset and length. */
  datatype Tlv = Tlv(kind: u16, off: nat, len: u16) {

    /** Where the next record starts. */
    function End(): nat {
      off + len
    }
  }

  /** The places of records laid out one after another from off. */
  function Places(rs: seq<Record>, off: nat): (ts: seq<Tlv>)
    ensures |ts| == |rs|
  {
    if rs == [] then []
    else [Tlv(rs[0].kind, off + 4, |rs[0].value|)] + Places(rs[1..], off + 4 + |rs[0].value|)
  }

  /** Do the bytes stand at off? */
  ghost predicate At(data: seq<byte>, off: nat, bytes: seq<byte>) {
    off + |bytes| <= |data| && data[off..off + |bytes|] == bytes
  }

  lemma AtSplit(data: seq<byte>, off: nat, a: seq<byte>, b: seq<byte>)
    requires At(data, off, a + b)
    ensures At(data, off, a) && At(data, off + |a|, b)
  {
    var slice := data[off..off + |a + b|];
    assert data[off..off + |a|] == slice[..|a|];
    assert data[off + |a|..off + |a| + |b|] == slice[|a|..];
  }

  lemma AtLe16(data: seq<byte>, off: nat, n: u16)
    requires At(data, off, EncodeLe16(n))
    ensures Le16(data, off) == n
  {
    assert data[off] == data[off..off + 2][0] && data[off + 1] == data[off..off + 2][1];
  }

  /** Do the records stand at off, one after another? */
  ghost predicate LaidOut(data: seq<byte>, off: nat, rs: seq<Record>)
    decreases |rs|
  {
    rs != [] ==>
      var next := off + 4 + |rs[0].value|;
      && next <= |data|
      && Le16(data, off) == rs[0].kind && Le16(data, off + 2) == |rs[0].value|
      && data[off + 4..next] == rs[0].value
      && LaidOut(data, next, rs[1..])
  }

  lemma EncodedRecordParts(data: seq<byte>, off: nat, r: Record, rest: seq<byte>)
    requires At(data, off, EncodeRecord(r) + rest)
    ensures off + 4 + |r.value| <= |data|
    ensures Le16(data, off) == r.kind && Le16(data, off + 2) == |r.value|
    ensures data[off + 4..off + 4 + |r.value|] == r.value
    ensures At(data, off + 4 + |r.value|, rest)
  {
    var k, n := EncodeLe16(r.kind), EncodeLe16(|r.value|);
    AtSplit(data, off, k + n + r.value, rest);
    AtSplit(data, off, k + n, r.value);
    AtSplit(data, off, k, n);
    AtLe16(data, off, r.kind);
    AtLe16(data, off + 2, |r.value|);
  }

  lemma {:induction false} EncodedIsLaidOut(data: seq<byte>, off: nat, rs: seq<Record>)
    requires At(data, off, EncodeRecords(rs))
    ensures LaidOut(data, off, rs)
    decreases |rs|
  {
    if rs != [] {
      EncodedRecordParts(data, off, rs[0], EncodeRecords(rs[1..]));
      EncodedIsLaidOut(data, off + 4 + |rs[0].value|, rs[1..]);
    }
  }

  lemma {:induction false} PlacesBounds(rs: seq<Record>, off: nat, i: nat)
    requires i < |rs|
    ensures var t := Places(rs, off)[i];
            && t.kind == rs[i].kind && t.len == |rs[i].value|
            && off + 4 <= t.off && t.off + t.len <= off + Size(rs)
            && (i + 1 < |rs| <==> t.off + t.len < off + Size(rs))
  {
    var next := off + 4 + |rs[0].value|;
    if i == 0 {
      assert |rs| > 1 <==> Size(rs[1..]) > 0;
    } else {
      PlacesBounds(rs[1..], next, i - 1);
      assert Places(rs, off)[i] == Places(rs[1..], next)[i - 1];
    }
  }

  /** Each payload is the record's value. */
  lemma {:induction false} PlacesHoldValues(rs: seq<Record>, data: seq<byte>, off: nat, i: nat)
    requires LaidOut(data, off, rs)
    requires i < |rs|
    ensures At(data, Places(rs, off)[i].off, rs[i].value)
  {
    if i > 0 {
      var next := off + 4 + |rs[0].value|;
      PlacesHoldValues(rs[1..], data, next, i - 1);
      assert Places(rs, off)[i] == Places(rs[1..], next)[i - 1];
    }
  }

  /** The record encoding can be read back: equal bytes, equal records. */
  lemma {:induction false} EncodeRecordsInjective(a: seq<Record>, b: seq<Record>)
    requires EncodeRecords(a) == EncodeRecords(b)
    ensures a == b
  {
    if a == [] || b == [] {
      assert |EncodeRecords(a)| > 0 <==> a != [];
      assert |EncodeRecords(b)| > 0 <==> b != [];
    } else {
      var x, y := EncodeRecord(a[0]), EncodeRecord(b[0]);
      var e := EncodeRecords(a);
      assert e == x + EncodeRecords(a[1..]) == y + EncodeRecords(b[1..]);
      assert x[0] == e[0] == y[0] && x[1] == e[1] == y[1];
      assert x[2] == e[2] == y[2] && x[3] == e[3] == y[3];
      assert |x| == |y|;
      assert x == e[..|x|] == y;
      assert a[0].value == x[4..] == y[4..] == b[0].value;
      assert EncodeRecords(a[1..]) == e[|x|..] == EncodeRecords(b[1..]);
      EncodeRecordsInjective(a[1..], b[1..]);
      assert a == [a[0]] + a[1..] && b == [b[0]] + b[1..];
    }
  }
}
