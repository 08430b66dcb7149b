/**
 Image validation: the hash over header, body and protected records, the
 search for the signing key and the pass over the records.
 */
module Validator {
  import opened Bytes
  import opened Devices
  import opened ImageFormat
  import opened TlvIter

  const HASH_SIZE: nat := 32
  const KEY_BUF_SIZE: nat := HASH_SIZE

  /** The cryptography and the build options: hash, signature check, key table, signature kind. */
  datatype Crypto = Crypto(
    sha: seq<byte> -> Digest,
    verifySig: (Digest, seq<byte>, byte) -> bool,
    keys: seq<seq<byte>>,
    sigKind: u16,
    sigBufSize: nat,
    sigFixedSize: bool)
  {
    /** One of the signature kinds a build can select. */
    predicate Valid() {
      sigKind == TLV_RSA2048_PSS || sigKind == TLV_RSA3072_PSS || sigKind == TLV_ECDSA_SIG || sigKind == TLV_ED25519
    }

    predicate SigLenOk(len: nat) {
      (sigFixedSize ==> len == sigBufSize) && len <= sigBufSize
    }

    predicate Usable(key: int) {
      0 <= key < |keys|
    }

    predicate KeyMatches(i: nat, keyHash: seq<byte>)
      requires i < |keys|
    {
      keyHash <= sha(keys[i])
    }
  }

  /** The record kinds allowed outside the protected area. */
  const ALLOWED_UNPROT: seq<u16> := [
    TLV_KEYHASH, TLV_PUBKEY, TLV_SHA256, TLV_SHA384, TLV_SHA512, TLV_RSA2048_PSS, TLV_ECDSA224,
    TLV_ECDSA_SIG, TLV_RSA3072_PSS, TLV_ED25519, TLV_ENC_RSA2048, TLV_ENC_KW, TLV_ENC_EC256, TLV_ENC_X25519,
    TLV_ANY]

  /** The list ends with its TLV_ANY mark. */
  predicate AllowedUnprotected(kind: u16) {
    kind != TLV_ANY && kind in ALLOWED_UNPROT
  }

  /** The kinds of the list: keys and hashes, signatures, and encrypted keys. */
  lemma AllowedUnprotectedIff(kind: u16)
    ensures AllowedUnprotected(kind) <==>
              || kind in {0x01, 0x02} || kind in {0x10, 0x11, 0x12}
              || kind in {0x20, 0x21, 0x22, 0x23, 0x24} || kind in {0x30, 0x31, 0x32, 0x33}
  {
  }

  /** A signature fits its buffer, and fills it if its size is fixed. */
  lemma SigLenOkIff(cx: Crypto, len: nat)
    ensures cx.SigLenOk(len) <==> if cx.sigFixedSize then len == cx.sigBufSize else len <= cx.sigBufSize
  {
  }

  // ---------- the hash ----------

  /** How many bytes the hash covers, in 32-bit arithmetic. */
  function HashedLength(hdr: Header): u32 {
    Wrap32(TlvOff(hdr) as int + hdr.protSize as int)
  }

  lemma AbsorbChunk(seed: seq<byte>, data: seq<byte>, off: nat, n: nat)
    requires off + n <= |data|
    ensures seed + data[..off] + data[off..off + n] == seed + data[..off + n]
  {
    assert data[..off] + data[off..off + n] == data[..off + n];
  }

  /** file_img_hash: whatever the size of the buffer, the digest of seed and covered bytes. */
  method ImgHash(cx: Crypto, hdr: Header, file: FsFile, tmpBuf: array<byte>, seed: seq<byte>)
    returns (rc: int, digest: Digest)
    requires tmpBuf.Length > 0
    modifies file, tmpBuf
    ensures rc == 0 ==> HashedLength(hdr) <= |file.data| && digest == cx.sha(seed + file.data[..HashedLength(hdr)])
    ensures file.reliable ==> (rc == 0 <==> HashedLength(hdr) <= |file.data|)
  {
    var ctx := new ShaContext(cx.sha);
    if |seed| > 0 {
      ctx.Update(seed);
    }
    var size := Wrap32(TlvOff(hdr) as int + hdr.protSize as int);
    var off: nat := 0;
    digest := ctx.Finish();
    while off < size
      invariant off <= size && off <= |file.data|
      invariant ctx.absorbed == seed + file.data[..off]
    {
      var blkSize := size - off;
      if blkSize > tmpBuf.Length {
        blkSize := tmpBuf.Length;
      }
      rc := LoadImageData(file, off, tmpBuf, blkSize);
      if rc != 0 {
        return rc, digest;
      }
      assert tmpBuf[..blkSize] == tmpBuf[..][..blkSize] == file.data[off..off + blkSize];
      AbsorbChunk(seed, file.data, off, blkSize);
      ctx.Update(tmpBuf[..blkSize]);
      off := off + blkSize;
    }
    digest := ctx.Finish();
    return 0, digest;
  }

  // ---------- the key table ----------

  /** The first key whose hash starts with the given bytes, or -1. */
  function FindKeyFrom(cx: Crypto, keyHash: seq<byte>, i: nat): int
    requires i <= |cx.keys|
    decreases |cx.keys| - i
  {
    if i == |cx.keys| then -1
    else if cx.KeyMatches(i, keyHash) then i
    else FindKeyFrom(cx, keyHash, i + 1)
  }

  function KeyOf(cx: Crypto, keyHash: seq<byte>): int {
    FindKeyFrom(cx, keyHash, 0)
  }

  lemma {:induction false} FindKeyFromIsFirst(cx: Crypto, keyHash: seq<byte>, i: nat)
    requires i <= |cx.keys|
    ensures var k := FindKeyFrom(cx, keyHash, i);
            if k == -1 then forall j | i <= j < |cx.keys| :: !cx.KeyMatches(j, keyHash)
            else i <= k < |cx.keys| && cx.KeyMatches(k, keyHash)
                 && forall j | i <= j < k :: !cx.KeyMatches(j, keyHash)
    decreases |cx.keys| - i
  {
    if i < |cx.keys| {
      FindKeyFromIsFirst(cx, keyHash, i + 1);
    }
  }

  /** The key found is usable exactly when the table has one whose hash starts with the given bytes. */
  lemma UsableIff(cx: Crypto, keyHash: seq<byte>)
    ensures cx.Usable(KeyOf(cx, keyHash)) <==> exists i :: 0 <= i < |cx.keys| && cx.KeyMatches(i, keyHash)
  {
    FindKeyFromIsFirst(cx, keyHash, 0);
  }

  lemma WholePrefix(a: seq<byte>, b: seq<byte>)
    requires |a| == |b| && a <= b
    ensures a == b
  {
  }

  /** A whole key hash finds the first key of that hash. */
  lemma WholeHashFindsKey(cx: Crypto, k: nat)
    requires k < |cx.keys| && forall j | 0 <= j < k :: cx.sha(cx.keys[j]) != cx.sha(cx.keys[k])
    ensures KeyOf(cx, cx.sha(cx.keys[k])) == k && cx.Usable(k)
  {
    var h := cx.sha(cx.keys[k]);
    FindKeyFromIsFirst(cx, h, 0);
    assert cx.KeyMatches(k, h);
    forall j | 0 <= j < k ensures !cx.KeyMatches(j, h) {
      var other := cx.sha(cx.keys[j]);
      if h <= other {
        WholePrefix(h, other);
        assert false;
      }
    }
  }

  /** file_img_find_key */
  method FindKey(cx: Crypto, keyHash: seq<byte>) returns (id: int)
    ensures |keyHash| > HASH_SIZE ==> id == -1
    ensures |keyHash| <= HASH_SIZE ==> id == KeyOf(cx, keyHash)
  {
    if |keyHash| > HASH_SIZE {
      return -1;
    }
    for i := 0 to |cx.keys|
      invariant KeyOf(cx, keyHash) == FindKeyFrom(cx, keyHash, i)
    {
      var ctx := new ShaContext(cx.sha);
      ctx.Update(cx.keys[i]);
      assert ctx.absorbed == cx.keys[i];
      var hash := ctx.Finish();
      if hash[..|keyHash|] == keyHash {
        return i;
      }
    }
    return -1;
  }

  // ---------- the pass over the records ----------

  /** A record as the validation sees it; payload is None when it runs past the end of the file. */
  datatype Item = Item(kind: u16, prot: bool, payload: Option<seq<byte>>)

  function ItemOf(data: seq<byte>, protEnd: nat, t: Tlv): Item {
    Item(t.kind, t.off < protEnd,
         if t.off + t.len <= |data| then Some(data[t.off..t.off + t.len]) else None)
  }

  function ItemsOf(data: seq<byte>, protEnd: nat, ts: seq<Tlv>): (items: seq<Item>)
    ensures |items| == |ts|
    ensures forall i | 0 <= i < |ts| :: items[i] == ItemOf(data, protEnd, ts[i])
  {
    seq(|ts|, i requires 0 <= i < |ts| => ItemOf(data, protEnd, ts[i]))
  }

  /** The pending key, whether a hash record matched, and the last signature result. */
  datatype Progress = Progress(key: int, hashSeen: bool, sigOk: bool)

  const START: Progress := Progress(-1, false, false)

  datatype Examined = Continue(st: Progress) | Stop(st: Progress) | Bad

  function Examine(cx: Crypto, digest: Digest, item: Item, st: Progress): Examined {
    if !item.prot && !AllowedUnprotected(item.kind) then Bad
    else if item.kind == TLV_SHA256 then
      if item.payload == Some(digest) then Continue(st.(hashSeen := true)) else Bad
    else if item.kind == TLV_KEYHASH then
      if item.payload.Some? && |item.payload.value| <= KEY_BUF_SIZE
      then Continue(st.(key := KeyOf(cx, item.payload.value))) else Bad
    else if item.kind == cx.sigKind then
      if !cx.Usable(st.key) then Stop(st.(key := -1))
      else if item.payload.Some? && cx.SigLenOk(|item.payload.value|)
      then Continue(st.(key := -1, sigOk := cx.verifySig(digest, item.payload.value, st.key % 0x100)))
      else Bad
    else Continue(st)
  }

  /** None when validation fails during the pass. */
  function Pass(cx: Crypto, digest: Digest, items: seq<Item>, complete: bool, st: Progress): Option<Progress> {
    if items == [] then
      if complete then Some(st) else None
    else
      match Examine(cx, digest, items[0], st)
      case Continue(st') => Pass(cx, digest, items[1..], complete, st')
      case Stop(st') => Some(st')
      case Bad => None
  }

  function PassFile(cx: Crypto, digest: Digest, data: seq<byte>, protEnd: nat, w: Walked, st: Progress)
    : Option<Progress>
  {
    Pass(cx, digest, ItemsOf(data, protEnd, w.recs), w.complete, st)
  }

  lemma PassFileStep(cx: Crypto, digest: Digest, data: seq<byte>, protEnd: nat, t: Tlv, rest: Walked, st: Progress)
    ensures PassFile(cx, digest, data, protEnd, rest.After([t]), st)
            == match Examine(cx, digest, ItemOf(data, protEnd, t), st)
               case Continue(st') => PassFile(cx, digest, data, protEnd, rest, st')
               case Stop(st') => Some(st')
               case Bad => None
  {
    var w := rest.After([t]);
    assert ItemsOf(data, protEnd, w.recs)[1..] == ItemsOf(data, protEnd, rest.recs);
  }

  /** file_image_validate_tlv_expected_hash */
  method ValidateHash(file: FsFile, t: Tlv, hash: Digest, hashValid: bool) returns (ok: bool, hashValid': bool)
    requires t.off <= |file.data|
    modifies file
    ensures ok ==> hashValid' && ItemOf(file.data, 0, t).payload == Some(hash)
    ensures file.reliable && ItemOf(file.data, 0, t).payload == Some(hash) ==> ok
    ensures !ok ==> hashValid' == hashValid
  {
    if t.len != HASH_SIZE {
      return false, hashValid;
    }
    var buf := new byte[HASH_SIZE];
    var rc := LoadImageData(file, t.off, buf, HASH_SIZE);
    if rc != 0 {
      return false, hashValid;
    }
    assert buf[..] == file.data[t.off..t.off + t.len];
    if buf[..] != hash {
      return false, hashValid;
    }
    return true, true;
  }

  /** file_image_validate_tlv_expected_key */
  method ValidateKey(cx: Crypto, file: FsFile, t: Tlv, keyId: int) returns (ok: bool, keyId': int)
    requires t.off <= |file.data|
    modifies file
    ensures var p := ItemOf(file.data, 0, t).payload;
            && (ok ==> p.Some? && t.len <= KEY_BUF_SIZE && keyId' == KeyOf(cx, p.value))
            && (!ok ==> keyId' == keyId)
            && (file.reliable && p.Some? && t.len <= KEY_BUF_SIZE ==> ok)
  {
    if t.len > KEY_BUF_SIZE {
      return false, keyId;
    }
    var buf := new byte[KEY_BUF_SIZE];
    var rc := LoadImageData(file, t.off, buf, t.len);
    if rc != 0 {
      return false, keyId;
    }
    assert buf[..t.len] == buf[..][..t.len] == file.data[t.off..t.off + t.len];
    keyId' := FindKey(cx, buf[..t.len]);
    return true, keyId';
  }

  /** file_image_validate_tlv_expected_sig */
  method ValidateSig(cx: Crypto, file: FsFile, t: Tlv, hash: Digest, sigValid: bool, keyId: int)
    returns (ok: bool, sigValid': bool, keyId': int)
    requires t.off <= |file.data|
    modifies file
    ensures var p := ItemOf(file.data, 0, t).payload;
            && (ok ==> p.Some? && cx.SigLenOk(t.len) && keyId' == -1
                       && sigValid' == cx.verifySig(hash, p.value, keyId % 0x100))
            && (!ok ==> sigValid' == sigValid && keyId' == keyId)
            && (file.reliable && p.Some? && cx.SigLenOk(t.len) ==> ok)
  {
    if !cx.SigLenOk(t.len) {
      return false, sigValid, keyId;
    }
    var buf := new byte[cx.sigBufSize];
    var rc := LoadImageData(file, t.off, buf, t.len);
    if rc != 0 {
      return false, sigValid, keyId;
    }
    assert buf[..t.len] == buf[..][..t.len] == file.data[t.off..t.off + t.len];
    sigValid' := cx.verifySig(hash, buf[..t.len], keyId % 0x100);
    return true, sigValid', -1;
  }

  /** The search through the allow-list. */
  method IsAllowed(kind: u16) returns (found: bool)
    ensures found == AllowedUnprotected(kind)
  {
    found := false;
    var i := 0;
    while ALLOWED_UNPROT[i] != TLV_ANY
      invariant 0 <= i <= 14
      invariant !found && forall j | 0 <= j < i :: ALLOWED_UNPROT[j] != kind
      decreases 14 - i
    {
      if kind == ALLOWED_UNPROT[i] {
        found := true;
        break;
      }
      i := i + 1;
    }
  }

  /** What the records of the file from the iterator's position on come to. */
  ghost function Verdict(cx: Crypto, digest: Digest, it: TlvIterator, st: Progress): Option<Progress>
    requires it.file != null
    reads it
  {
    PassFile(cx, digest, it.file.data, it.protEnd, it.Left(), st)
  }

  /** The switch over the record kind. */
  method ValidateRecord(cx: Crypto, file: FsFile, t: Tlv, isProt: bool, hash: Digest, st: Progress)
    returns (rc: int, st': Progress)
    requires cx.Valid() && t.off <= |file.data|
    modifies file
    ensures rc == 0 || rc == 1 || rc == -1
    ensures var x := Examine(cx, hash, ItemOf(file.data, 0, t).(prot := isProt), st);
            && (rc == 0 ==> x == Continue(st'))
            && (rc == 1 ==> x == Stop(st'))
            && (rc == -1 && file.reliable ==> x == Bad)
  {
    st' := st;
    if !isProt {
      var found := IsAllowed(t.kind);
      if !found {
        return -1, st';
      }
    }
    var ok;
    if t.kind == TLV_SHA256 {
      var hashSeen;
      ok, hashSeen := ValidateHash(file, t, hash, st.hashSeen);
      st' := st'.(hashSeen := hashSeen);
      return if ok then 0 else -1, st';
    } else if t.kind == TLV_KEYHASH {
      var key;
      ok, key := ValidateKey(cx, file, t, st.key);
      st' := st'.(key := key);
      return if ok then 0 else -1, st';
    } else if t.kind == cx.sigKind {
      if st.key < 0 || st.key >= |cx.keys| {
        st' := st'.(key := -1);
        return 1, st';
      }
      var sigOk, key;
      ok, sigOk, key := ValidateSig(cx, file, t, hash, st.sigOk, st.key);
      st' := st'.(sigOk := sigOk, key := key);
      return if ok then 0 else -1, st';
    }
    return 0, st';
  }

  /** file_image_validate_tlv */
  method ValidateTlv(cx: Crypto, it: TlvIterator, hash: Digest, st: Progress) returns (rc: int, st': Progress)
    requires cx.Valid()
    requires it.Valid() && it.file != null && it.kind == TLV_ANY && !it.prot
    modifies it`tlvOff, it.file
    ensures it.Valid()
    ensures rc == 0 || rc == 1 || rc == -1
    ensures rc == 0 ==> Verdict(cx, hash, it, st') == old(Verdict(cx, hash, it, st))
    ensures rc == 0 ==> |it.Left().recs| < old(|it.Left().recs|)
    ensures rc == 1 ==> old(Verdict(cx, hash, it, st)) == Some(st')
    ensures rc == -1 && it.file.reliable ==> old(Verdict(cx, hash, it, st)) == None
  {
    st' := st;
    var t;
    rc, t := it.Next();
    if rc != 0 {
      return rc, st';
    }
    PassFileStep(cx, hash, it.file.data, it.protEnd, t, it.Left(), st);
    var isProt := it.IsProt(t.off);
    rc, st' := ValidateRecord(cx, it.file, t, isProt != 0, hash, st);
  }

  // ---------- the whole validation ----------

  ghost predicate Accepting(r: Option<Progress>) {
    r.Some? && r.value.hashSeen && r.value.sigOk
  }

  ghost predicate Accepts(cx: Crypto, data: seq<byte>, hdr: Header, faSize: nat, seed: seq<byte>) {
    && HashedLength(hdr) <= |data|
    && FindAreas(data, hdr).Some?
    && var a := FindAreas(data, hdr).value;
    && a.tlvEnd <= faSize
    && Accepting(PassFile(cx, cx.sha(seed + data[..HashedLength(hdr)]), data, a.protEnd,
                          Walk(data, a, TlvOff(hdr) + 4), START))
  }

  lemma ReportAll(data: seq<byte>, a: Areas, off: nat)
    ensures Report(data, a, off, TLV_ANY, false) == Walk(data, a, off)
  {
    ReportIsPicked(data, a, off, TLV_ANY, false);
    PickedAll(Walk(data, a, off), a.protEnd);
  }

  /** The loop over the records and the final tests. */
  method ValidateRecords(cx: Crypto, it: TlvIterator, hash: Digest) returns (valid: bool)
    requires cx.Valid()
    requires it.Valid() && it.file != null && it.kind == TLV_ANY && !it.prot
    modifies it`tlvOff, it.file
    ensures valid ==> Accepting(old(Verdict(cx, hash, it, START)))
    ensures it.file.reliable && Accepting(old(Verdict(cx, hash, it, START))) ==> valid
  {
    var rc, st := 0, START;
    while rc == 0
      invariant it.Valid() && it.file != null
      invariant rc == 0 ==> Verdict(cx, hash, it, st) == old(Verdict(cx, hash, it, START))
      invariant rc == 1 ==> old(Verdict(cx, hash, it, START)) == Some(st)
      invariant rc != 0 && rc != 1 && it.file.reliable ==> old(Verdict(cx, hash, it, START)) == None
      decreases if rc == 0 then 1 + |it.Left().recs| else 0
    {
      rc, st := ValidateTlv(cx, it, hash, st);
    }
    return rc == 1 && st.hashSeen && st.sigOk;
  }

  /**
   file_img_validate. A reading fault can make it refuse an image but never
   accept one; without faults it accepts exactly the images of Accepts.
   */
  method ImgValidate(cx: Crypto, hdr: Header, file: FsFile, faSize: nat, tmpBuf: array<byte>, seed: seq<byte>)
    returns (valid: bool)
    requires cx.Valid() && tmpBuf.Length > 0
    modifies file, tmpBuf
    ensures valid ==> Accepts(cx, file.data, hdr, faSize, seed)
    ensures file.reliable && Accepts(cx, file.data, hdr, faSize, seed) ==> valid
  {
    hide FindAreas, Walk, Report, PassFile;
    var rc, hash := ImgHash(cx, hdr, file, tmpBuf, seed);
    if rc != 0 {
      return false;
    }
    var it := new TlvIterator();
    rc := it.Begin(hdr, file, TLV_ANY, false);
    if rc != 0 || it.tlvEnd > faSize {
      return false;
    }
    ReportAll(file.data, Areas(hdr.protSize, it.protEnd, it.tlvEnd), it.tlvOff);
    valid := ValidateRecords(cx, it, hash);
  }

  // ---------- which images are accepted ----------

  /** The key pending before record i: that of the nearest key record, unless a signature used it. */
  function PendingKey(cx: Crypto, items: seq<Item>, i: nat): int
    requires i <= |items|
  {
    if i == 0 then -1
    else
      var last := items[i - 1];
      if last.kind == TLV_KEYHASH && last.payload.Some? then KeyOf(cx, last.payload.value)
      else if last.kind == cx.sigKind then -1
      else PendingKey(cx, items, i - 1)
  }

  /** A signature without a usable key ends the examination. */
  ghost predicate Stops(cx: Crypto, items: seq<Item>, i: nat)
    requires i < |items|
  {
    items[i].kind == cx.sigKind && !cx.Usable(PendingKey(cx, items, i))
  }

  ghost predicate WellPlaced(item: Item) {
    item.prot || AllowedUnprotected(item.kind)
  }

  ghost predicate Sound(cx: Crypto, digest: Digest, item: Item) {
    && (item.kind == TLV_SHA256 ==> item.payload == Some(digest))
    && (item.kind == TLV_KEYHASH ==> item.payload.Some? && |item.payload.value| <= KEY_BUF_SIZE)
    && (item.kind == cx.sigKind ==> item.payload.Some? && cx.SigLenOk(|item.payload.value|))
  }

  /** Does the last signature among the first n records verify with the key pending there? */
  ghost predicate LastSignatureVerifies(cx: Crypto, digest: Digest, items: seq<Item>, n: nat)
    requires n <= |items|
  {
    n > 0 &&
    var last := items[n - 1];
    if last.kind == cx.sigKind then
      last.payload.Some? && cx.verifySig(digest, last.payload.value, PendingKey(cx, items, n - 1) % 0x100)
    else
      LastSignatureVerifies(cx, digest, items, n - 1)
  }

  /** Is there a hash record among the first n? */
  ghost predicate HashAmong(items: seq<Item>, n: nat)
    requires n <= |items|
  {
    exists h :: 0 <= h < n && items[h].kind == TLV_SHA256
  }

  /**
   The first n records are examined: all of them, or those before the first
   signature without a usable key.
   */
  ghost predicate Examines(cx: Crypto, items: seq<Item>, n: nat) {
    && n <= |items|
    && (forall i | 0 <= i < n :: !Stops(cx, items, i))
    && (n < |items| ==> Stops(cx, items, n))
  }

  /** The acceptance condition on a record list, with n records examined. */
  ghost predicate AcceptableAt(cx: Crypto, digest: Digest, items: seq<Item>, complete: bool, n: nat) {
    && Examines(cx, items, n)
    && (n == |items| ==> complete)
    && (n < |items| ==> WellPlaced(items[n]))
    && (forall i | 0 <= i < n :: WellPlaced(items[i]) && Sound(cx, digest, items[i]))
    && HashAmong(items, n)
    && LastSignatureVerifies(cx, digest, items, n)
  }

  ghost predicate Acceptable(cx: Crypto, digest: Digest, items: seq<Item>, complete: bool) {
    exists n: nat :: AcceptableAt(cx, digest, items, complete, n)
  }

  /** The progress after i sound records. */
  ghost predicate ProgressAt(cx: Crypto, digest: Digest, items: seq<Item>, i: nat, st: Progress)
    requires i <= |items|
  {
    && (forall j | 0 <= j < i :: !Stops(cx, items, j) && WellPlaced(items[j]) && Sound(cx, digest, items[j]))
    && st.key == PendingKey(cx, items, i)
    && (st.hashSeen <==> HashAmong(items, i))
    && (st.sigOk <==> LastSignatureVerifies(cx, digest, items, i))
  }

  lemma ProgressStep(cx: Crypto, digest: Digest, items: seq<Item>, i: nat, st: Progress, st': Progress)
    requires cx.Valid() && i < |items|
    requires ProgressAt(cx, digest, items, i, st)
    requires Examine(cx, digest, items[i], st) == Continue(st')
    ensures ProgressAt(cx, digest, items, i + 1, st')
  {
    hide FindKeyFrom, AllowedUnprotected;
    assert !Stops(cx, items, i) && WellPlaced(items[i]) && Sound(cx, digest, items[i]);
    assert st'.key == PendingKey(cx, items, i + 1);
    assert st'.hashSeen <==> st.hashSeen || items[i].kind == TLV_SHA256;
    assert st'.sigOk <==> LastSignatureVerifies(cx, digest, items, i + 1);
  }

  lemma AcceptableHere(cx: Crypto, digest: Digest, items: seq<Item>, complete: bool, i: nat, st: Progress)
    requires i <= |items| && ProgressAt(cx, digest, items, i, st)
    requires Examines(cx, items, i)
    ensures Acceptable(cx, digest, items, complete) <==>
            && (i == |items| ==> complete)
            && (i < |items| ==> WellPlaced(items[i]))
            && st.hashSeen && st.sigOk
  {
    assert forall n: nat :: AcceptableAt(cx, digest, items, complete, n) ==> n == i;
    assert AcceptableAt(cx, digest, items, complete, i) <==> Acceptable(cx, digest, items, complete);
  }

  lemma BadNotAcceptable(cx: Crypto, digest: Digest, items: seq<Item>, complete: bool, i: nat, st: Progress)
    requires cx.Valid() && i < |items| && ProgressAt(cx, digest, items, i, st)
    requires Examine(cx, digest, items[i], st) == Bad
    ensures !Acceptable(cx, digest, items, complete)
  {
    assert !WellPlaced(items[i]) || (!Stops(cx, items, i) && !Sound(cx, digest, items[i]));
    forall n: nat ensures !AcceptableAt(cx, digest, items, complete, n) {
      assert Examines(cx, items, n) ==> i <= n;
    }
  }

  lemma {:induction false} PassIsAcceptable(
    cx: Crypto, digest: Digest, items: seq<Item>, complete: bool, i: nat, st: Progress)
    requires cx.Valid() && i <= |items|
    requires ProgressAt(cx, digest, items, i, st)
    ensures Accepting(Pass(cx, digest, items[i..], complete, st)) <==> Acceptable(cx, digest, items, complete)
    decreases |items| - i
  {
    if i == |items| {
      AcceptableHere(cx, digest, items, complete, i, st);
    } else {
      assert items[i..][0] == items[i] && items[i..][1..] == items[i + 1..];
      match Examine(cx, digest, items[i], st)
      case Continue(st') =>
        ProgressStep(cx, digest, items, i, st, st');
        PassIsAcceptable(cx, digest, items, complete, i + 1, st');
      case Stop(st') =>
        assert Examines(cx, items, i);
        AcceptableHere(cx, digest, items, complete, i, st);
      case Bad =>
        BadNotAcceptable(cx, digest, items, complete, i, st);
    }
  }

  /**
   On any file, an image is accepted exactly when the hashed bytes are there,
   the area headers are in order, the record areas fit the partition and the
   records met satisfy the acceptance condition.
   */
  lemma AcceptsIff(cx: Crypto, data: seq<byte>, hdr: Header, faSize: nat, seed: seq<byte>)
    requires cx.Valid()
    ensures Accepts(cx, data, hdr, faSize, seed) <==>
            && HashedLength(hdr) <= |data|
            && FindAreas(data, hdr).Some?
            && var a := FindAreas(data, hdr).value;
            && var w := Walk(data, a, TlvOff(hdr) + 4);
            && a.tlvEnd <= faSize
            && Acceptable(cx, cx.sha(seed + data[..HashedLength(hdr)]), ItemsOf(data, a.protEnd, w.recs), w.complete)
  {
    hide FindAreas, Walk, Pass, Acceptable;
    if HashedLength(hdr) <= |data| && FindAreas(data, hdr).Some? {
      var a := FindAreas(data, hdr).value;
      var w := Walk(data, a, TlvOff(hdr) + 4);
      var digest, items := cx.sha(seed + data[..HashedLength(hdr)]), ItemsOf(data, a.protEnd, w.recs);
      PassIsAcceptable(cx, digest, items, w.complete, 0, START);
      assert items[0..] == items;
    }
  }

  lemma {:induction false} NoSignatureVerifies(cx: Crypto, digest: Digest, items: seq<Item>, n: nat)
    requires n <= |items| && forall j | 0 <= j < n :: items[j].kind != cx.sigKind
    ensures !LastSignatureVerifies(cx, digest, items, n)
  {
    if n > 0 {
      NoSignatureVerifies(cx, digest, items, n - 1);
    }
  }

  /**
   An image whose first signature has no usable key is refused, whatever
   signatures follow: later ones are not tried.
   */
  lemma FirstSignatureDecides(cx: Crypto, digest: Digest, items: seq<Item>, complete: bool, i: nat)
    requires i < |items| && Stops(cx, items, i)
    requires forall j | 0 <= j < i :: items[j].kind != cx.sigKind
    ensures !Acceptable(cx, digest, items, complete)
  {
    forall n: nat ensures !AcceptableAt(cx, digest, items, complete, n) {
      if n <= i {
        NoSignatureVerifies(cx, digest, items, n);
      }
    }
  }

  // ---------- signatures without a usable key ----------

  /** The pass that the comment in the code describes: a signature without a usable key is skipped. */
  function SkippingPass(cx: Crypto, digest: Digest, items: seq<Item>, complete: bool, st: Progress): Option<Progress> {
    if items == [] then
      if complete then Some(st) else None
    else
      match Examine(cx, digest, items[0], st)
      case Continue(st') => SkippingPass(cx, digest, items[1..], complete, st')
      case Stop(st') => SkippingPass(cx, digest, items[1..], complete, st')
      case Bad => None
  }

  /** A record that the skipping pass does not refuse. */
  ghost predicate SoundOrSkipped(cx: Crypto, digest: Digest, items: seq<Item>, i: nat)
    requires i < |items|
  {
    WellPlaced(items[i]) && (Stops(cx, items, i) || Sound(cx, digest, items[i]))
  }

  /** Does the last signature with a usable key among the first n records verify? */
  ghost predicate LastTriedVerifies(cx: Crypto, digest: Digest, items: seq<Item>, n: nat)
    requires n <= |items|
  {
    n > 0 &&
    var last := items[n - 1];
    if last.kind == cx.sigKind && !Stops(cx, items, n - 1) then
      last.payload.Some? && cx.verifySig(digest, last.payload.value, PendingKey(cx, items, n - 1) % 0x100)
    else
      LastTriedVerifies(cx, digest, items, n - 1)
  }

  /** The acceptance condition of the skipping pass. */
  ghost predicate AcceptableSkipping(cx: Crypto, digest: Digest, items: seq<Item>, complete: bool) {
    && complete
    && (forall i | 0 <= i < |items| :: SoundOrSkipped(cx, digest, items, i))
    && HashAmong(items, |items|)
    && LastTriedVerifies(cx, digest, items, |items|)
  }

  ghost predicate SkippingProgressAt(cx: Crypto, digest: Digest, items: seq<Item>, i: nat, st: Progress)
    requires i <= |items|
  {
    && (forall j | 0 <= j < i :: SoundOrSkipped(cx, digest, items, j))
    && st.key == PendingKey(cx, items, i)
    && (st.hashSeen <==> HashAmong(items, i))
    && (st.sigOk <==> LastTriedVerifies(cx, digest, items, i))
  }

  lemma SkippingStep(cx: Crypto, digest: Digest, items: seq<Item>, i: nat, st: Progress, st': Progress)
    requires cx.Valid() && i < |items| && SkippingProgressAt(cx, digest, items, i, st)
    requires Examine(cx, digest, items[i], st) == Continue(st') || Examine(cx, digest, items[i], st) == Stop(st')
    ensures SkippingProgressAt(cx, digest, items, i + 1, st')
  {
    assert SoundOrSkipped(cx, digest, items, i);
    assert st'.hashSeen <==> st.hashSeen || items[i].kind == TLV_SHA256;
    assert st'.key == PendingKey(cx, items, i + 1);
  }

  lemma {:induction false} SkippingPassIsAcceptable(
    cx: Crypto, digest: Digest, items: seq<Item>, complete: bool, i: nat, st: Progress)
    requires cx.Valid() && i <= |items| && SkippingProgressAt(cx, digest, items, i, st)
    ensures Accepting(SkippingPass(cx, digest, items[i..], complete, st))
            <==> AcceptableSkipping(cx, digest, items, complete)
    decreases |items| - i
  {
    if i < |items| {
      assert items[i..][0] == items[i] && items[i..][1..] == items[i + 1..];
      var x := Examine(cx, digest, items[i], st);
      if x == Bad {
        assert !SoundOrSkipped(cx, digest, items, i);
      } else {
        SkippingStep(cx, digest, items, i, st, x.st);
        SkippingPassIsAcceptable(cx, digest, items, complete, i + 1, x.st);
      }
    }
  }

  /** Record n is the first signature without a usable key. */
  ghost predicate FirstStop(cx: Crypto, items: seq<Item>, n: nat) {
    n < |items| && Examines(cx, items, n)
  }

  ghost predicate SoundUpTo(cx: Crypto, digest: Digest, items: seq<Item>, n: nat)
    requires n < |items|
  {
    WellPlaced(items[n]) && forall i | 0 <= i < n :: WellPlaced(items[i]) && Sound(cx, digest, items[i])
  }

  /** A hash and a verifying last signature stand among the first n records. */
  ghost predicate ProvenBefore(cx: Crypto, digest: Digest, items: seq<Item>, n: nat)
    requires n <= |items|
  {
    HashAmong(items, n) && LastSignatureVerifies(cx, digest, items, n)
  }

  /** The records behind record n are in order too, and with them a hash is there and the last signature verifies. */
  ghost predicate ProvenBehind(cx: Crypto, digest: Digest, items: seq<Item>, complete: bool, n: nat) {
    && complete
    && (forall i | n < i < |items| :: SoundOrSkipped(cx, digest, items, i))
    && HashAmong(items, |items|)
    && LastTriedVerifies(cx, digest, items, |items|)
  }

  lemma {:induction false} TriedIsLast(cx: Crypto, digest: Digest, items: seq<Item>, n: nat)
    requires n <= |items| && forall i | 0 <= i < n :: !Stops(cx, items, i)
    ensures LastTriedVerifies(cx, digest, items, n) == LastSignatureVerifies(cx, digest, items, n)
  {
    if n > 0 {
      TriedIsLast(cx, digest, items, n - 1);
    }
  }

  lemma {:induction false} ExaminedCount(cx: Crypto, items: seq<Item>, i: nat) returns (n: nat)
    requires i <= |items| && forall j | 0 <= j < i :: !Stops(cx, items, j)
    ensures Examines(cx, items, n)
    decreases |items| - i
  {
    if i == |items| || Stops(cx, items, i) {
      n := i;
    } else {
      n := ExaminedCount(cx, items, i + 1);
    }
  }

  /** With a signature without a usable key at n, what stands before it decides for the code. */
  lemma BeforeStopDecides(cx: Crypto, digest: Digest, items: seq<Item>, complete: bool, n: nat)
    requires FirstStop(cx, items, n)
    ensures Acceptable(cx, digest, items, complete)
            <==> SoundUpTo(cx, digest, items, n) && ProvenBefore(cx, digest, items, n)
  {
    hide Sound, WellPlaced, LastSignatureVerifies, HashAmong;
    forall m: nat ensures AcceptableAt(cx, digest, items, complete, m) ==> m == n {
    }
    assert Acceptable(cx, digest, items, complete) <==> AcceptableAt(cx, digest, items, complete, n);
  }

  /** The pass that skips it accepts exactly when the whole list is in order and proves the image. */
  lemma WholeListDecides(cx: Crypto, digest: Digest, items: seq<Item>, complete: bool, n: nat)
    requires FirstStop(cx, items, n)
    ensures AcceptableSkipping(cx, digest, items, complete)
            <==> SoundUpTo(cx, digest, items, n) && ProvenBehind(cx, digest, items, complete, n)
  {
    hide Sound, WellPlaced, LastTriedVerifies, HashAmong;
    forall i: nat | i <= n
      ensures SoundOrSkipped(cx, digest, items, i)
              <==> WellPlaced(items[i]) && (i < n ==> Sound(cx, digest, items[i]))
    {
      assert i < n ==> !Stops(cx, items, i);
    }
  }

  lemma NoStopNoDifference(cx: Crypto, digest: Digest, items: seq<Item>, complete: bool)
    requires Examines(cx, items, |items|)
    ensures Acceptable(cx, digest, items, complete) <==> AcceptableSkipping(cx, digest, items, complete)
  {
    TriedIsLast(cx, digest, items, |items|);
    forall i: nat | i < |items|
      ensures SoundOrSkipped(cx, digest, items, i) <==> WellPlaced(items[i]) && Sound(cx, digest, items[i])
    {
      assert !Stops(cx, items, i);
    }
    forall m: nat ensures AcceptableAt(cx, digest, items, complete, m) ==> m == |items| {
    }
    assert Acceptable(cx, digest, items, complete) <==> AcceptableAt(cx, digest, items, complete, |items|);
  }

  /**
   The exact agreement of the pass as written with the one its comment
   describes: they differ exactly on lists that are in order up to a signature
   without a usable key and that only the part before it, or only the whole
   list, proves.
   */
  lemma PassesAgreeIff(cx: Crypto, digest: Digest, items: seq<Item>, complete: bool)
    requires cx.Valid()
    ensures (Accepting(Pass(cx, digest, items, complete, START))
             <==> Accepting(SkippingPass(cx, digest, items, complete, START)))
            <==>
            (forall n: nat | FirstStop(cx, items, n) && SoundUpTo(cx, digest, items, n) ::
               ProvenBefore(cx, digest, items, n) <==> ProvenBehind(cx, digest, items, complete, n))
  {
    assert items[0..] == items;
    PassIsAcceptable(cx, digest, items, complete, 0, START);
    SkippingPassIsAcceptable(cx, digest, items, complete, 0, START);
    var n := ExaminedCount(cx, items, 0);
    forall m: nat ensures FirstStop(cx, items, m) ==> m == n {
    }
    if n < |items| {
      BeforeStopDecides(cx, digest, items, complete, n);
      WholeListDecides(cx, digest, items, complete, n);
    } else {
      NoStopNoDifference(cx, digest, items, complete);
    }
  }

  lemma {:induction false} PassEndsAtStop(
    cx: Crypto, digest: Digest, items: seq<Item>, items': seq<Item>, complete: bool, complete': bool,
    n: nat, i: nat, st: Progress)
    requires cx.Valid() && n < |items| && n < |items'| && items[..n + 1] == items'[..n + 1]
    requires Stops(cx, items, n) && i <= n && ProgressAt(cx, digest, items, i, st)
    ensures Pass(cx, digest, items[i..], complete, st) == Pass(cx, digest, items'[i..], complete', st)
    decreases n - i
  {
    assert items[i] == items[..n + 1][i] == items'[..n + 1][i] == items'[i];
    assert items[i..][0] == items[i] && items[i..][1..] == items[i + 1..];
    assert items'[i..][0] == items[i] && items'[i..][1..] == items'[i + 1..];
    var x := Examine(cx, digest, items[i], st);
    if x.Continue? {
      ProgressStep(cx, digest, items, i, st, x.st);
      PassEndsAtStop(cx, digest, items, items', complete, complete', n, i + 1, x.st);
    }
  }

  /** Records behind a signature without a usable key are not examined: the pass does not depend on them. */
  lemma RecordsBehindStopIgnored(
    cx: Crypto, digest: Digest, items: seq<Item>, items': seq<Item>, complete: bool, complete': bool, n: nat)
    requires cx.Valid() && n < |items| && n < |items'| && items[..n + 1] == items'[..n + 1]
    requires Stops(cx, items, n)
    ensures Pass(cx, digest, items, complete, START) == Pass(cx, digest, items', complete', START)
  {
    assert items[0..] == items && items'[0..] == items';
    PassEndsAtStop(cx, digest, items, items', complete, complete', n, 0, START);
  }

  /** A later signature that would verify is not tried once one without a usable key was met. */
  lemma LaterSignatureNotTried(
    cx: Crypto, digest: Digest, unknown: seq<byte>, known: seq<byte>, sig: seq<byte>, good: seq<byte>)
    requires cx.Valid() && |unknown| <= KEY_BUF_SIZE && |known| <= KEY_BUF_SIZE && cx.SigLenOk(|good|)
    requires !cx.Usable(KeyOf(cx, unknown)) && cx.Usable(KeyOf(cx, known))
    requires cx.verifySig(digest, good, KeyOf(cx, known) % 0x100)
    ensures var items := [Item(TLV_SHA256, false, Some(digest)),
                          Item(TLV_KEYHASH, false, Some(unknown)), Item(cx.sigKind, false, Some(sig)),
                          Item(TLV_KEYHASH, false, Some(known)), Item(cx.sigKind, false, Some(good))];
            && Accepting(SkippingPass(cx, digest, items, true, START))
            && !Accepting(Pass(cx, digest, items, true, START))
  {
    var hash := Item(TLV_SHA256, false, Some(digest));
    var key, key' := Item(TLV_KEYHASH, false, Some(unknown)), Item(TLV_KEYHASH, false, Some(known));
    var s, s' := Item(cx.sigKind, false, Some(sig)), Item(cx.sigKind, false, Some(good));
    assert [hash, key, s, key', s'][1..] == [key, s, key', s'];
    assert [key, s, key', s'][1..] == [s, key', s'];
    assert [s, key', s'][1..] == [key', s'];
    assert [key', s'][1..] == [s'];
    var st := Progress(KeyOf(cx, unknown), true, false);
    assert Examine(cx, digest, s, st) == Stop(Progress(-1, true, false));
    assert Pass(cx, digest, [s, key', s'], true, st) == Some(Progress(-1, true, false));
    assert SkippingPass(cx, digest, [s'], true, Progress(KeyOf(cx, known), true, false))
           == Some(Progress(-1, true, true));
    assert SkippingPass(cx, digest, [key', s'], true, Progress(-1, true, false)) == Some(Progress(-1, true, true));
    assert SkippingPass(cx, digest, [s, key', s'], true, st) == Some(Progress(-1, true, true));
  }

  // ---------- longer files ----------

  lemma ExamineGrows(cx: Crypto, digest: Digest, data: seq<byte>, more: seq<byte>, protEnd: nat, t: Tlv, st: Progress)
    requires Examine(cx, digest, ItemOf(data, protEnd, t), st) != Bad
    ensures Examine(cx, digest, ItemOf(data + more, protEnd, t), st)
            == Examine(cx, digest, ItemOf(data, protEnd, t), st)
  {
    if t.off + t.len <= |data| {
      assert (data + more)[t.off..t.off + t.len] == data[t.off..t.off + t.len];
    }
  }

  /** The pass over a file, record by record. */
  lemma PassFileAt(cx: Crypto, digest: Digest, data: seq<byte>, a: Areas, off: nat, st: Progress)
    ensures PassFile(cx, digest, data, a.protEnd, Walk(data, a, off), st)
            == if off >= a.tlvEnd then Some(st)
               else if Seam(a, off) + 4 > |data| then None
               else
                 var t := RecordAt(data, Seam(a, off));
                 match Examine(cx, digest, ItemOf(data, a.protEnd, t), st)
                 case Continue(st') => PassFile(cx, digest, data, a.protEnd, Walk(data, a, t.End()), st')
                 case Stop(st') => Some(st')
                 case Bad => None
  {
    hide Examine, ItemOf;
    if off < a.tlvEnd && Seam(a, off) + 4 <= |data| {
      var t := RecordAt(data, Seam(a, off));
      PassFileStep(cx, digest, data, a.protEnd, t, Walk(data, a, t.End()), st);
    }
  }

  lemma RecordGrows(data: seq<byte>, more: seq<byte>, at: nat)
    requires at + 4 <= |data|
    ensures RecordAt(data + more, at) == RecordAt(data, at)
  {
  }

  /** A pass that comes to an end does so too when the file goes on. */
  lemma {:induction false} PassGrows(
    cx: Crypto, digest: Digest, data: seq<byte>, more: seq<byte>, a: Areas, off: nat, st: Progress)
    requires PassFile(cx, digest, data, a.protEnd, Walk(data, a, off), st).Some?
    ensures PassFile(cx, digest, data + more, a.protEnd, Walk(data + more, a, off), st)
            == PassFile(cx, digest, data, a.protEnd, Walk(data, a, off), st)
    decreases a.tlvEnd - off
  {
    hide Walk, PassFile, Examine, ItemOf, Le16;
    PassFileAt(cx, digest, data, a, off, st);
    PassFileAt(cx, digest, data + more, a, off, st);
    if off < a.tlvEnd {
      var t := RecordAt(data, Seam(a, off));
      RecordGrows(data, more, Seam(a, off));
      ExamineGrows(cx, digest, data, more, a.protEnd, t, st);
      var x := Examine(cx, digest, ItemOf(data, a.protEnd, t), st);
      if x.Continue? {
        PassGrows(cx, digest, data, more, a, t.End(), x.st);
      }
    }
  }

  lemma AreasGrow(data: seq<byte>, more: seq<byte>, hdr: Header)
    requires FindAreas(data, hdr).Some?
    ensures FindAreas(data + more, hdr) == FindAreas(data, hdr)
  {
  }

  /** Any file that is accepted, even a malformed one, is accepted with more bytes behind it. */
  lemma AcceptsGrows(cx: Crypto, data: seq<byte>, more: seq<byte>, hdr: Header, faSize: nat, seed: seq<byte>)
    requires Accepts(cx, data, hdr, faSize, seed)
    ensures Accepts(cx, data + more, hdr, faSize, seed)
  {
    hide FindAreas, PassFile, Walk;
    var n := HashedLength(hdr);
    AreasGrow(data, more, hdr);
    assert (data + more)[..n] == data[..n];
    PassGrows(cx, cx.sha(seed + data[..n]), data, more, FindAreas(data, hdr).value, TlvOff(hdr) + 4, START);
  }

  // ---------- well-formed images ----------

  /** Protected records as the validation sees them: a last one without payload counts as unprotected. */
  function ProtItems(rs: seq<Record>): (items: seq<Item>)
    ensures |items| == |rs|
  {
    seq(|rs|, i requires 0 <= i < |rs| =>
      Item(rs[i].kind, !(i == |rs| - 1 && rs[i].value == []), Some(rs[i].value)))
  }

  function UnprotItems(rs: seq<Record>): (items: seq<Item>)
    ensures |items| == |rs|
  {
    seq(|rs|, i requires 0 <= i < |rs| => Item(rs[i].kind, false, Some(rs[i].value)))
  }

  /** The records of an image as the validation sees them. */
  function ImageItems(img: Image): seq<Item> {
    ProtItems(img.ProtRecords()) + UnprotItems(img.unprot)
  }

  lemma ProtItemsMet(data: seq<byte>, rs: seq<Record>, start: nat)
    requires LaidOut(data, start, rs)
    ensures ItemsOf(data, start + Size(rs), Places(rs, start)) == ProtItems(rs)
  {
    forall i | 0 <= i < |rs| ensures ItemOf(data, start + Size(rs), Places(rs, start)[i]) == ProtItems(rs)[i] {
      PlacesBounds(rs, start, i);
      PlacesHoldValues(rs, data, start, i);
    }
  }

  lemma UnprotItemsMet(data: seq<byte>, rs: seq<Record>, protEnd: nat)
    requires LaidOut(data, protEnd + 4, rs)
    ensures ItemsOf(data, protEnd, Places(rs, protEnd + 4)) == UnprotItems(rs)
  {
    forall i | 0 <= i < |rs| ensures ItemOf(data, protEnd, Places(rs, protEnd + 4)[i]) == UnprotItems(rs)[i] {
      PlacesBounds(rs, protEnd + 4, i);
      PlacesHoldValues(rs, data, protEnd + 4, i);
    }
  }

  lemma TwoListsMet(data: seq<byte>, prot: seq<Record>, unprot: seq<Record>, start: nat, protEnd: nat)
    requires prot != [] ==> LaidOut(data, start, prot) && protEnd == start + Size(prot)
    requires LaidOut(data, protEnd + 4, unprot)
    ensures ItemsOf(data, protEnd, Places(prot, start) + Places(unprot, protEnd + 4))
            == ProtItems(prot) + UnprotItems(unprot)
  {
    var ps, us := Places(prot, start), Places(unprot, protEnd + 4);
    if prot != [] {
      ProtItemsMet(data, prot, start);
    }
    UnprotItemsMet(data, unprot, protEnd);
    assert ItemsOf(data, protEnd, ps + us) == ItemsOf(data, protEnd, ps) + ItemsOf(data, protEnd, us);
  }

  lemma ImagePlacesItems(img: Image, data: seq<byte>)
    requires img.Encodable() && img.Bytes() <= data
    ensures ItemsOf(data, |img.Hashed()|, ImagePlaces(img)) == ImageItems(img)
  {
    hide EncodeArea, LaidOut, Places, ItemsOf, ProtItems, UnprotItems;
    ImageAreaHeaders(img, data);
    TwoListsMet(data, img.ProtRecords(), img.unprot, |img.head| + 4, |img.Hashed()|);
  }

  lemma ImageItemsMet(img: Image, hdr: Header, data: seq<byte>)
    requires img.WellFormed(hdr) && img.Bytes() <= data
    ensures FindAreas(data, hdr) == Some(ImageAreas(img))
    ensures var w := Walk(data, ImageAreas(img), TlvOff(hdr) + 4);
            w.complete && ItemsOf(data, |img.Hashed()|, w.recs) == ImageItems(img)
  {
    hide EncodeArea;
    ImageLists(img, hdr, data);
    WalkVisitsRecords(img, hdr, data);
    ImagePlacesItems(img, data);
  }

  lemma HashedPrefix(img: Image, hdr: Header, data: seq<byte>)
    requires img.Described(hdr) && img.Bytes() <= data
    requires |img.Bytes()| <= FILE_MAX
    ensures HashedLength(hdr) == |img.Hashed()| <= |data| && data[..HashedLength(hdr)] == img.Hashed()
  {
    ImageParts(img, data);
  }

  /**
   A well-formed image, whatever follows it in the file, is accepted exactly
   when its areas fit the partition and its records satisfy the acceptance
   condition for the digest of its hashed part.
   */
  lemma AcceptsWellFormed(cx: Crypto, img: Image, hdr: Header, trailer: seq<byte>, faSize: nat, seed: seq<byte>)
    requires cx.Valid()
    requires img.WellFormed(hdr) && |img.Bytes()| <= FILE_MAX
    ensures Accepts(cx, img.Bytes() + trailer, hdr, faSize, seed) <==>
            |img.Bytes()| <= faSize && Acceptable(cx, cx.sha(seed + img.Hashed()), ImageItems(img), true)
  {
    hide EncodeArea;
    var data := img.Bytes() + trailer;
    ImageItemsMet(img, hdr, data);
    HashedPrefix(img, hdr, data);
    AcceptsIff(cx, data, hdr, faSize, seed);
  }

  lemma StartProgress(cx: Crypto, digest: Digest, items: seq<Item>)
    ensures ProgressAt(cx, digest, items, 0, START)
  {
  }

  /**
   Two images with the same hashed part and the same records up to a signature
   without a usable key are accepted alike, whatever records follow it.
   */
  lemma UnexaminedRecordsIrrelevant(cx: Crypto, a: Image, b: Image, hdr: Header, n: nat, faSize: nat, seed: seq<byte>)
    requires cx.Valid() && a.WellFormed(hdr) && b.WellFormed(hdr)
    requires |a.Bytes()| <= Min(faSize, FILE_MAX) && |b.Bytes()| <= Min(faSize, FILE_MAX)
    requires a.Hashed() == b.Hashed()
    requires n < |ImageItems(a)| && n < |ImageItems(b)| && ImageItems(a)[..n + 1] == ImageItems(b)[..n + 1]
    requires Stops(cx, ImageItems(a), n)
    ensures Accepts(cx, a.Bytes(), hdr, faSize, seed) <==> Accepts(cx, b.Bytes(), hdr, faSize, seed)
  {
    hide EncodeArea, Accepts, Acceptable, Pass, Stops, ProgressAt, ProtItems, UnprotItems;
    StartProgress(cx, cx.sha(seed + a.Hashed()), ImageItems(a));
    StartProgress(cx, cx.sha(seed + a.Hashed()), ImageItems(b));
    var digest, items, items' := cx.sha(seed + a.Hashed()), ImageItems(a), ImageItems(b);
    assert a.Bytes() + [] == a.Bytes() && b.Bytes() + [] == b.Bytes();
    AcceptsWellFormed(cx, a, hdr, [], faSize, seed);
    AcceptsWellFormed(cx, b, hdr, [], faSize, seed);
    RecordsBehindStopIgnored(cx, digest, items, items', true, true, n);
    assert items[0..] == items && items'[0..] == items';
    PassIsAcceptable(cx, digest, items, true, 0, START);
    PassIsAcceptable(cx, digest, items', true, 0, START);
  }

  /** A properly signed image: behind its protected records, if any, the hash, the key's hash and the signature. */
  function SignedImage(
    head: seq<byte>, prot: Option<seq<Record>>, digest: Digest, keyHash: Digest, kind: u16, sig: Value): Image
  {
    Image(head, prot, [Record(0x10, digest), Record(0x01, keyHash), Record(kind, sig)])
  }

  /** What the hash of such an image covers. */
  function CoveredBytes(head: seq<byte>, prot: Option<seq<Record>>): seq<byte>
    requires prot.Some? ==> AreaSize(prot.value) < 0x1_0000
  {
    if prot.Some? then head + EncodeArea(0x6908, prot.value) else head
  }

  /** Protected records that the validation has nothing to do with; the last one has a payload. */
  ghost predicate OtherRecords(cx: Crypto, prot: Option<seq<Record>>) {
    prot.Some? ==>
      && (forall r | r in prot.value :: r.kind != 0x10 && r.kind != 0x01 && r.kind != cx.sigKind)
      && (prot.value != [] ==> prot.value[|prot.value| - 1].value != [])
  }

  /** Records of other kinds in their place, then the hash, a key of the table and a signature that verifies. */
  lemma SignedListAcceptable(cx: Crypto, digest: Digest, items: seq<Item>, m: nat, k: nat, keyHash: Digest, sig: Value)
    requires cx.Valid() && |items| == m + 3 && KeyOf(cx, keyHash) == k && cx.Usable(k)
    requires forall i | 0 <= i < m ::
               items[i].prot && items[i].kind != 0x10 && items[i].kind != 0x01 && items[i].kind != cx.sigKind
    requires items[m] == Item(0x10, false, Some(digest)) && items[m + 1] == Item(0x01, false, Some(keyHash))
    requires items[m + 2] == Item(cx.sigKind, false, Some(sig))
    requires cx.SigLenOk(|sig|) && cx.verifySig(digest, sig, k % 0x100)
    ensures Acceptable(cx, digest, items, true)
  {
    hide KeyOf;
    AllowedUnprotectedIff(0x10);
    AllowedUnprotectedIff(0x01);
    AllowedUnprotectedIff(cx.sigKind);
    hide AllowedUnprotected;
    assert PendingKey(cx, items, m + 2) == k;
    forall i | 0 <= i < m + 3 ensures !Stops(cx, items, i) && WellPlaced(items[i]) && Sound(cx, digest, items[i]) {
    }
    assert items[m].kind == TLV_SHA256;
    assert LastSignatureVerifies(cx, digest, items, m + 3);
    assert AcceptableAt(cx, digest, items, true, m + 3);
  }

  lemma SignedItems(cx: Crypto, digest: Digest, prot: seq<Record>, keyHash: Digest, sig: Value, items: seq<Item>)
    requires OtherRecords(cx, Some(prot))
    requires items == ProtItems(prot)
                      + UnprotItems([Record(0x10, digest), Record(0x01, keyHash), Record(cx.sigKind, sig)])
    ensures var m := |prot|;
            && |items| == m + 3
            && items[m] == Item(0x10, false, Some(digest)) && items[m + 1] == Item(0x01, false, Some(keyHash))
            && items[m + 2] == Item(cx.sigKind, false, Some(sig))
    ensures forall i | 0 <= i < |prot| ::
              items[i].prot && items[i].kind != 0x10 && items[i].kind != 0x01 && items[i].kind != cx.sigKind
  {
    forall i | 0 <= i < |prot|
      ensures items[i].prot && items[i].kind != 0x10 && items[i].kind != 0x01 && items[i].kind != cx.sigKind
    {
      assert items[i] == ProtItems(prot)[i];
      assert prot[i] in prot;
    }
  }

  /**
   A properly signed image is accepted, whatever follows it: its hash is that of
   the bytes it covers, its key is in the table and the signature verifies.
   */
  lemma SignedImageAccepted(
    cx: Crypto, head: seq<byte>, prot: Option<seq<Record>>, hdr: Header, k: nat, sig: Value,
    trailer: seq<byte>, faSize: nat, seed: seq<byte>)
    requires cx.Valid() && k < |cx.keys| && forall j | 0 <= j < k :: cx.sha(cx.keys[j]) != cx.sha(cx.keys[k])
    requires prot.Some? ==> AreaSize(prot.value) < 0x1_0000
    requires OtherRecords(cx, prot)
    requires if cx.sigFixedSize then |sig| == cx.sigBufSize else |sig| <= cx.sigBufSize
    requires cx.verifySig(cx.sha(seed + CoveredBytes(head, prot)), sig, k % 0x100)
    requires var digest := cx.sha(seed + CoveredBytes(head, prot));
             var img := SignedImage(head, prot, digest, cx.sha(cx.keys[k]), cx.sigKind, sig);
             img.WellFormed(hdr) && |img.Bytes()| <= Min(faSize, FILE_MAX)
    ensures var digest := cx.sha(seed + CoveredBytes(head, prot));
            var img := SignedImage(head, prot, digest, cx.sha(cx.keys[k]), cx.sigKind, sig);
            Accepts(cx, img.Bytes() + trailer, hdr, faSize, seed)
  {
    hide EncodeArea, Accepts, Acceptable, KeyOf, ProtItems, UnprotItems;
    var digest := cx.sha(seed + CoveredBytes(head, prot));
    var img := SignedImage(head, prot, digest, cx.sha(cx.keys[k]), cx.sigKind, sig);
    assert img.Hashed() == CoveredBytes(head, prot);
    WholeHashFindsKey(cx, k);
    SignedItems(cx, digest, img.ProtRecords(), cx.sha(cx.keys[k]), sig, ImageItems(img));
    SignedListAcceptable(cx, digest, ImageItems(img), |img.ProtRecords()|, k, cx.sha(cx.keys[k]), sig);
    AcceptsWellFormed(cx, img, hdr, trailer, faSize, seed);
  }

  /** A record of a kind that is not allowed where it stands, and that is examined. */
  lemma MisplacedNotAcceptable(cx: Crypto, digest: Digest, items: seq<Item>, complete: bool, n: nat)
    requires n < |items| && !WellPlaced(items[n])
    requires forall j | 0 <= j < n :: !Stops(cx, items, j)
    ensures !Acceptable(cx, digest, items, complete)
  {
    hide WellPlaced, Sound, LastSignatureVerifies, HashAmong;
    forall m: nat ensures !AcceptableAt(cx, digest, items, complete, m) {
    }
  }

  /** An unprotected record of any other kind refuses the image, unless it stands behind a stop. */
  lemma RogueRecordRefused(
    cx: Crypto, img: Image, hdr: Header, i: nat, trailer: seq<byte>, faSize: nat, seed: seq<byte>)
    requires cx.Valid() && img.WellFormed(hdr) && |img.Bytes()| <= FILE_MAX
    requires i < |img.unprot| && !AllowedUnprotected(img.unprot[i].kind)
    requires forall j | 0 <= j < |img.ProtRecords()| + i :: !Stops(cx, ImageItems(img), j)
    ensures !Accepts(cx, img.Bytes() + trailer, hdr, faSize, seed)
  {
    hide EncodeArea, Accepts, Acceptable, Stops, AllowedUnprotected;
    var items, n := ImageItems(img), |img.ProtRecords()| + i;
    assert items[n] == Item(img.unprot[i].kind, false, Some(img.unprot[i].value));
    MisplacedNotAcceptable(cx, cx.sha(seed + img.Hashed()), items, true, n);
    AcceptsWellFormed(cx, img, hdr, trailer, faSize, seed);
  }

  /** An image with a hash, an unknown key and its signature, a known key and its signature. */
  function TwoSignatures(
    head: seq<byte>, kind: u16, digest: Digest, unknown: Value, sig: Value, known: Value, good: Value): Image
  {
    Image(head, None,
          [Record(TLV_SHA256, digest), Record(TLV_KEYHASH, unknown), Record(kind, sig),
           Record(TLV_KEYHASH, known), Record(kind, good)])
  }

  /** Such an image is refused, although the second signature verifies and the skipping pass accepts its records. */
  lemma TwoSignaturesRefused(
    cx: Crypto, head: seq<byte>, hdr: Header, unknown: Value, sig: Value, known: Value, good: Value,
    trailer: seq<byte>, faSize: nat, seed: seq<byte>)
    requires var digest := cx.sha(seed + head);
             && cx.Valid() && |unknown| <= KEY_BUF_SIZE && |known| <= KEY_BUF_SIZE && cx.SigLenOk(|good|)
             && !cx.Usable(KeyOf(cx, unknown)) && cx.Usable(KeyOf(cx, known))
             && cx.verifySig(digest, good, KeyOf(cx, known) % 0x100)
             && var img := TwoSignatures(head, cx.sigKind, digest, unknown, sig, known, good);
             img.WellFormed(hdr) && |img.Bytes()| <= FILE_MAX
    ensures var img := TwoSignatures(head, cx.sigKind, cx.sha(seed + head), unknown, sig, known, good);
            && !Accepts(cx, img.Bytes() + trailer, hdr, faSize, seed)
            && AcceptableSkipping(cx, cx.sha(seed + img.Hashed()), ImageItems(img), true)
  {
    hide EncodeArea, Accepts, Acceptable, AcceptableSkipping, Pass, SkippingPass, KeyOf;
    var digest := cx.sha(seed + head);
    var img := TwoSignatures(head, cx.sigKind, digest, unknown, sig, known, good);
    var items := [Item(TLV_SHA256, false, Some(digest)),
                  Item(TLV_KEYHASH, false, Some(unknown)), Item(cx.sigKind, false, Some(sig)),
                  Item(TLV_KEYHASH, false, Some(known)), Item(cx.sigKind, false, Some(good))];
    assert img.Hashed() == head;
    assert ImageItems(img) == items;
    AcceptsWellFormed(cx, img, hdr, trailer, faSize, seed);
    LaterSignatureNotTried(cx, digest, unknown, known, sig, good);
    assert items[0..] == items;
    PassIsAcceptable(cx, digest, items, true, 0, START);
    SkippingPassIsAcceptable(cx, digest, items, true, 0, START);
  }

  /** Bytes behind the record areas do not matter. */
  lemma TrailingBytesIrrelevant(
    cx: Crypto, img: Image, hdr: Header, trailer: seq<byte>, trailer': seq<byte>, faSize: nat, seed: seq<byte>)
    requires cx.Valid()
    requires img.WellFormed(hdr) && |img.Bytes()| <= FILE_MAX
    ensures Accepts(cx, img.Bytes() + trailer, hdr, faSize, seed)
            <==> Accepts(cx, img.Bytes() + trailer', hdr, faSize, seed)
  {
    AcceptsWellFormed(cx, img, hdr, trailer, faSize, seed);
    AcceptsWellFormed(cx, img, hdr, trailer', faSize, seed);
  }

  /**
   When the iterator starts, the hash covers exactly the bytes before the end
   of the protected area, and no offset has wrapped around.
   */
  lemma HashCoversProtected(data: FileData, hdr: Header)
    requires FindAreas(data, hdr).Some?
    ensures HashedLength(hdr) == FindAreas(data, hdr).value.protEnd == TlvOff(hdr) + hdr.protSize <= |data|
  {
  }

  /**
   In any two files with the same hashed bytes, even malformed ones, every
   record one of them reports as protected is reported by the other.
   */
  lemma ProtectedRecordsAreHashed(data: FileData, data': FileData, hdr: Header, i: nat)
    requires FindAreas(data, hdr).Some? && FindAreas(data', hdr).Some?
    requires Agree(data, data', HashedLength(hdr))
    requires var a := FindAreas(data, hdr).value;
             && i < |Walk(data, a, TlvOff(hdr) + 4).recs|
             && Walk(data, a, TlvOff(hdr) + 4).recs[i].off < a.protEnd
    ensures var t := Walk(data, FindAreas(data, hdr).value, TlvOff(hdr) + 4).recs[i];
            var recs' := Walk(data', FindAreas(data', hdr).value, TlvOff(hdr) + 4).recs;
            t.off <= HashedLength(hdr) && i < |recs'| && recs'[i] == t
  {
    HashCoversProtected(data, hdr);
    HashCoversProtected(data', hdr);
    var a, a' := FindAreas(data, hdr).value, FindAreas(data', hdr).value;
    ProtectedFixedByPrefix(data, a, data', a', TlvOff(hdr) + 4, i);
  }

  // ---------- binding ----------

  /** The bytes of a protected area determine its records. */
  lemma ProtBytesInjective(a: Image, b: Image)
    requires a.Encodable() && b.Encodable() && a.ProtBytes() == b.ProtBytes()
    ensures a.prot == b.prot
  {
    if a.prot.Some? && b.prot.Some? {
      var x, y := EncodeRecords(a.prot.value), EncodeRecords(b.prot.value);
      assert a.ProtBytes()[4..] == x && b.ProtBytes()[4..] == y;
      EncodeRecordsInjective(a.prot.value, b.prot.value);
    }
  }

  /** Two images with the same hashed bytes, whose headers lie in them, are the same up to there. */
  lemma HashedInjective(a: Image, b: Image)
    requires |a.head| >= HEADER_SIZE && |b.head| >= HEADER_SIZE
    requires a.Described(ParseHeader(a.head)) && b.Described(ParseHeader(b.head))
    requires a.Hashed() == b.Hashed()
    ensures a.head == b.head && a.prot == b.prot
  {
    hide EncodeArea;
    var h := a.Hashed();
    forall i | 0 <= i < HEADER_SIZE ensures a.head[i] == b.head[i] {
      assert a.head[i] == h[i] == b.head[i];
    }
    assert ParseHeader(a.head) == ParseHeader(b.head);
    assert a.head == h[..|a.head|] == b.head;
    assert a.ProtBytes() == h[|a.head|..] == b.ProtBytes();
    ProtBytesInjective(a, b);
  }

  /** The hash records examined in an acceptable image carry the digest. */
  ghost predicate CarriesHash(cx: Crypto, img: Image, value: seq<byte>) {
    exists n: nat, h: nat :: h < n && Examines(cx, ImageItems(img), n)
                             && ImageItems(img)[h].kind == TLV_SHA256
                             && ImageItems(img)[h].payload == Some(value)
  }

  lemma AcceptedHashIsDigest(cx: Crypto, img: Image, digest: Digest, value: seq<byte>)
    requires Acceptable(cx, digest, ImageItems(img), true) && CarriesHash(cx, img, value)
    ensures value == digest
  {
    var items := ImageItems(img);
    var n: nat :| AcceptableAt(cx, digest, items, true, n);
    var m: nat, h: nat :|
      h < m && Examines(cx, items, m) && items[h].kind == TLV_SHA256 && items[h].payload == Some(value);
    assert n == m by {
      assert n < |items| ==> Stops(cx, items, n);
      assert m < |items| ==> Stops(cx, items, m);
    }
    assert Sound(cx, digest, items[h]);
  }

  /**
   Binding: two accepted images whose examined hash records are equal have the
   same header, body and protected records, or exhibit a collision of the hash.
   */
  lemma HashBindsImage(cx: Crypto, a: Image, b: Image, faSize: nat, faSize': nat, seed: seq<byte>, value: seq<byte>)
    requires cx.Valid()
    requires |a.head| >= HEADER_SIZE && |b.head| >= HEADER_SIZE
    requires a.WellFormed(ParseHeader(a.head)) && b.WellFormed(ParseHeader(b.head))
    requires |a.Bytes()| <= FILE_MAX && |b.Bytes()| <= FILE_MAX
    requires Accepts(cx, a.Bytes(), ParseHeader(a.head), faSize, seed)
    requires Accepts(cx, b.Bytes(), ParseHeader(b.head), faSize', seed)
    requires CarriesHash(cx, a, value) && CarriesHash(cx, b, value)
    ensures || (a.head == b.head && a.prot == b.prot)
            || (seed + a.Hashed() != seed + b.Hashed() && cx.sha(seed + a.Hashed()) == cx.sha(seed + b.Hashed()))
  {
    hide EncodeArea;
    assert a.Bytes() + [] == a.Bytes() && b.Bytes() + [] == b.Bytes();
    AcceptsWellFormed(cx, a, ParseHeader(a.head), [], faSize, seed);
    AcceptsWellFormed(cx, b, ParseHeader(b.head), [], faSize', seed);
    AcceptedHashIsDigest(cx, a, cx.sha(seed + a.Hashed()), value);
    AcceptedHashIsDigest(cx, b, cx.sha(seed + b.Hashed()), value);
    if seed + a.Hashed() == seed + b.Hashed() {
      assert a.Hashed() == (seed + a.Hashed())[|seed|..] == b.Hashed();
      HashedInjective(a, b);
    }
  }

  // ---------- the security counter ----------

  datatype SecurityCounter = Counted(value: u32) | BadImage | NoAreas | NotFound | FlashError

  /** What the search for the counter comes to when reading works. */
  function CounterIn(data: seq<byte>, hdr: Header): SecurityCounter {
    if hdr.protSize == 0 then BadImage
    else if FindAreas(data, hdr).None? then NoAreas
    else
      var recs := Report(data, FindAreas(data, hdr).value, TlvOff(hdr) + 4, TLV_SEC_CNT, true).recs;
      if recs == [] then NotFound
      else if recs[0].len != 4 then BadImage
      else if recs[0].off + 4 > |data| then FlashError
      else Counted(Le32(data, recs[0].off))
  }

  /** file_img_get_security_cnt: a reading fault can end it with an error but never changes the counter. */
  method GetSecurityCounter(hdr: Header, file: FsFile) returns (r: SecurityCounter)
    modifies file
    ensures file.reliable ==> r == CounterIn(file.data, hdr)
    ensures r.Counted? || r == BadImage ==> r == CounterIn(file.data, hdr)
  {
    if hdr.protSize == 0 {
      return BadImage;
    }
    var it := new TlvIterator();
    var rc := it.Begin(hdr, file, TLV_SEC_CNT, true);
    if rc != 0 {
      return NoAreas;
    }
    var t;
    rc, t := it.Next();
    if rc != 0 {
      return NotFound;
    }
    if t.len != 4 {
      return BadImage;
    }
    var buf := new byte[4];
    rc := LoadImageData(file, t.off, buf, 4);
    if rc != 0 {
      return FlashError;
    }
    assert buf[..] == file.data[t.off..t.off + 4];
    return Counted(Le32(buf[..], 0));
  }

  /** The first record of a kind in a list. */
  function FirstOf(rs: seq<Record>, kind: u16): (r: Option<Record>)
    ensures r.None? <==> forall j | 0 <= j < |rs| :: rs[j].kind != kind
    ensures r.Some? ==> exists i :: 0 <= i < |rs| && rs[i] == r.value && rs[i].kind == kind
                                    && forall j | 0 <= j < i :: rs[j].kind != kind
  {
    if rs == [] then None
    else if rs[0].kind == kind then Some(rs[0])
    else
      var rest := FirstOf(rs[1..], kind);
      assert forall j | 0 < j < |rs| :: rs[j] == rs[1..][j - 1];
      rest
  }

  /** Selecting places by kind starts with the place of the first record of that kind. */
  lemma {:induction false} SelectFirst(data: seq<byte>, rs: seq<Record>, off: nat, kind: u16)
    requires LaidOut(data, off, rs) && kind != TLV_ANY
    ensures var ts, first := Select(Places(rs, off), kind), FirstOf(rs, kind);
            && (ts == [] <==> first.None?)
            && (ts != [] ==> ts[0].len == |first.value.value| && At(data, ts[0].off, first.value.value))
    decreases |rs|
  {
    if rs != [] && rs[0].kind != kind {
      var next := off + 4 + |rs[0].value|;
      assert Places(rs, off)[1..] == Places(rs[1..], next);
      SelectFirst(data, rs[1..], next, kind);
    }
  }

  lemma Le32At(data: seq<byte>, off: nat, value: seq<byte>)
    requires |value| == 4 && At(data, off, value)
    ensures Le32(data, off) == Le32(value, 0)
  {
    assert data[off] == value[0] && data[off + 1] == value[1] && data[off + 2] == value[2] && data[off + 3] == value[3];
  }

  lemma CounterOfAreas(data: seq<byte>, hdr: Header, a: Areas, start: nat, rs: seq<Record>)
    requires hdr.protSize > 0 && FindAreas(data, hdr) == Some(a) && start == TlvOff(hdr) + 4
    requires LaidOut(data, start, rs)
    requires Report(data, a, start, TLV_SEC_CNT, true) == Walked(Select(Places(rs, start), TLV_SEC_CNT), true)
    ensures CounterIn(data, hdr)
            == match FirstOf(rs, TLV_SEC_CNT)
               case None => NotFound
               case Some(r) => if |r.value| == 4 then Counted(Le32(r.value, 0)) else BadImage
  {
    hide Report, Places;
    var first, ts := FirstOf(rs, TLV_SEC_CNT), Select(Places(rs, start), TLV_SEC_CNT);
    SelectFirst(data, rs, start, TLV_SEC_CNT);
    if first.Some? && |first.value.value| == 4 {
      Le32At(data, ts[0].off, first.value.value);
    }
  }

  /**
   In a well-formed image with protected records the counter is the first
   record of its kind among them, if that has four bytes; otherwise there is none.
   */
  lemma CounterOfImage(img: Image, hdr: Header, data: seq<byte>)
    requires img.WellFormed(hdr) && img.Bytes() <= data
    ensures CounterIn(data, hdr)
            == if img.prot.None? then BadImage
               else match FirstOf(img.prot.value, TLV_SEC_CNT)
                    case None => NotFound
                    case Some(r) => if |r.value| == 4 then Counted(Le32(r.value, 0)) else BadImage
  {
    hide EncodeArea, Report, Places;
    if img.prot.Some? {
      IteratorRoundTrip(img, hdr, data, TLV_SEC_CNT, true);
      ImageLists(img, hdr, data);
      CounterOfAreas(data, hdr, ImageAreas(img), |img.head| + 4, img.prot.value);
    }
  }

  /** A counter that is stored in little-endian order is the counter that is read. */
  lemma StoredCounterIsRead(img: Image, hdr: Header, data: seq<byte>, n: u32)
    requires img.WellFormed(hdr) && img.Bytes() <= data && img.prot.Some?
    requires FirstOf(img.prot.value, 0x50) == Some(Record(0x50, EncodeLe32(n)))
    ensures CounterIn(data, hdr) == Counted(n)
  {
    hide CounterIn, EncodeArea, EncodeLe32, Le32;
    CounterOfImage(img, hdr, data);
    Le32RoundTrip(n);
  }
}
