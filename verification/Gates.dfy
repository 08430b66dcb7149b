/**
 What the gates ask of a file, in terms of its bytes and of the partition: the
 exact conditions, what passes and what cannot pass.
 */
module Gates {
  import opened Bytes
  import opened Devices
  import opened ImageFormat
  import opened Validator
  import opened HwRev
  import opened ImgOp
  import opened FwInfo
  import opened VersionGate
  import opened UpdateSpec
  import opened Runs
  import opened Downgrade

  // ---------- MCUboot's check ----------

  /**
   Exactly which files pass MCUboot's check for a partition: a header with the
   magic and without the non-bootable flag, a body that lies in the file and
   fits the partition, a reset address in the partition and an accepted image.
   */
  lemma CheckImageIff(env: Env, addr: u32, size: nat, data: seq<byte>)
    requires env.Valid() && addr as int + size < 0x1_0000_0000
    ensures CheckImage(env, addr, size, data).ok <==>
              && |data| >= 32
              && Le32(data, 0) == 0x96f3_b83d && Le32(data, 16) / 0x10 % 2 == 0
              && var hdrSize, imgSize: int := Le16(data, 8), Le32(data, 12);
              && hdrSize + imgSize <= |data| && hdrSize + imgSize < size
              && hdrSize + 8 <= |data| && addr <= Le32(data, hdrSize + 4) < addr as int + size
              && Accepts(env.crypto, data, ParseHeader(data), size, [])
  {
    hide Le16, Le32, Accepts;
  }

  /** What the check reports, passed or not: the header if its sizes fit, and the revision if the reset address does. */
  lemma CheckImageReports(env: Env, addr: u32, size: nat, data: seq<byte>)
    requires env.Valid() && addr as int + size < 0x1_0000_0000
    ensures var check := CheckImage(env, addr, size, data);
            && check.hdr == (if FileHeader(data).Some? && Le16(data, 8) as int + Le32(data, 12) as int < size
                             then ParseHeader(data) else ZERO_HEADER)
            && check.rev == (if FileHeader(data).Some? && Le16(data, 8) as int + Le32(data, 12) as int < size
                                && Le16(data, 8) as int + 8 <= |data|
                                && addr <= Le32(data, Le16(data, 8) as int + 4) < addr as int + size
                             then FindInFile(env.hw, data, ZERO_REV).rev else ZERO_REV)
  {
    hide Le16, Le32, Accepts, FindInFile;
  }

  /** An image passes for one partition only: its reset address tells which. */
  lemma OnePartitionOnly(env: Env, addr: u32, size: nat, addr': u32, size': nat, data: seq<byte>)
    requires env.Valid() && addr as int + size <= addr' as int && addr' as int + size' < 0x1_0000_0000
    ensures !(CheckImage(env, addr, size, data).ok && CheckImage(env, addr', size', data).ok)
  {
    hide CheckImage, Le16, Le32, Accepts;
    CheckImageIff(env, addr, size, data);
    CheckImageIff(env, addr', size', data);
  }

  /**
   A file made by the rules passes: an encoded header, a body with a reset
   address in the partition, and a proper signature behind it.
   */
  lemma SignedFilePasses(
    env: Env, addr: u32, size: nat, hdr: Header, loadAddr: u32, pad: u32, body: seq<byte>,
    prot: Option<seq<Record>>, k: nat, sig: Value, reset: u32, trailer: seq<byte>)
    requires env.Valid() && addr as int + size < 0x1_0000_0000
    requires hdr.magic == 0x96f3_b83d && hdr.flags / 0x10 % 2 == 0
    requires 32 <= hdr.hdrSize && hdr.hdrSize as int + 8 <= 32 + |body|
    requires body[hdr.hdrSize as int - 28..hdr.hdrSize as int - 24] == EncodeLe32(reset)
    requires addr <= reset < addr as int + size
    requires k < |env.crypto.keys|
             && forall j | 0 <= j < k :: env.crypto.sha(env.crypto.keys[j]) != env.crypto.sha(env.crypto.keys[k])
    requires prot.Some? ==> AreaSize(prot.value) < 0x1_0000
    requires OtherRecords(env.crypto, prot)
    requires if env.crypto.sigFixedSize then |sig| == env.crypto.sigBufSize else |sig| <= env.crypto.sigBufSize
    requires var head := EncodeHeader(hdr, loadAddr, pad) + body;
             var digest := env.crypto.sha([] + CoveredBytes(head, prot));
             var img := SignedImage(head, prot, digest, env.crypto.sha(env.crypto.keys[k]), env.crypto.sigKind, sig);
             && env.crypto.verifySig(digest, sig, k % 0x100)
             && img.WellFormed(hdr) && |img.Bytes()| <= Min(size, FILE_MAX)
    ensures var head := EncodeHeader(hdr, loadAddr, pad) + body;
            var digest := env.crypto.sha([] + CoveredBytes(head, prot));
            var img := SignedImage(head, prot, digest, env.crypto.sha(env.crypto.keys[k]), env.crypto.sigKind, sig);
            && CheckImage(env, addr, size, img.Bytes() + trailer).ok
            && CheckImage(env, addr, size, img.Bytes() + trailer).hdr == hdr
  {
    hide EncodeArea, EncodeHeader, EncodeLe32, CheckImage, Le16, Le32, Accepts, CoveredBytes;
    var head := EncodeHeader(hdr, loadAddr, pad) + body;
    var digest := env.crypto.sha([] + CoveredBytes(head, prot));
    var img := SignedImage(head, prot, digest, env.crypto.sha(env.crypto.keys[k]), env.crypto.sigKind, sig);
    var data := img.Bytes() + trailer;
    var at := hdr.hdrSize as int + 4;
    assert img.Bytes() <= data && head <= data;
    assert data == EncodeHeader(hdr, loadAddr, pad) + data[HEADER_SIZE..];
    HeaderRoundTrip(hdr, loadAddr, pad, data[HEADER_SIZE..]);
    assert data[at..at + 4] == head[at..at + 4] == body[at - 32..at - 28];
    Le32Stored(data, at, reset);
    SignedImageAccepted(env.crypto, head, prot, hdr, k, sig, trailer, size, []);
    CheckImageIff(env, addr, size, data);
    CheckImageReports(env, addr, size, data);
  }

  // ---------- the first stage's check ----------

  /** The buffer is judged at the address its structure names, which must lie in the slot. */
  lemma B0AcceptsIff(env: Env, addr: u32, buf: seq<byte>, o: nat)
    requires env.Valid() && env.fw.FitsIn(|buf|) && addr as int + |buf| <= 0x1_0000_0000
    requires FlashFind(env.fw, buf) == Some(o)
    ensures o + env.fw.addressAt + 4 <= |buf|
    ensures var a := Le32(buf, o + env.fw.addressAt);
            B0Accepts(env, addr, buf) <==>
              addr <= a < addr as int + |buf| && env.b0Validate(a, buf, a as int - addr as int)
  {
    hide FlashFindFrom, Le32;
    FlashFindSound(env.fw, buf, 0);
  }

  lemma NoStructureRefused(env: Env, addr: u32, buf: seq<byte>)
    requires env.Valid() && env.fw.FitsIn(|buf|) && FlashFind(env.fw, buf) == None
    ensures !B0Accepts(env, addr, buf)
  {
  }

  /** A loader passes for one slot only. */
  lemma OneSlotOnly(env: Env, addr: u32, addr': u32, buf: seq<byte>)
    requires env.Valid() && env.fw.FitsIn(|buf|)
    requires addr as int + |buf| <= addr' as int && addr' as int + |buf| <= 0x1_0000_0000
    ensures !(B0Accepts(env, addr, buf) && B0Accepts(env, addr', buf))
  {
    hide B0Accepts, Le32, FlashFindFrom;
    match FlashFind(env.fw, buf)
    case None => NoStructureRefused(env, addr, buf);
    case Some(o) =>
      B0AcceptsIff(env, addr, buf, o);
      B0AcceptsIff(env, addr', buf, o);
  }

  /** The buffer that is judged: the file's bytes, and the old bytes behind them. */
  lemma LoadedBytes(data: seq<byte>, shared: seq<byte>, k: nat)
    requires |data| <= |shared| && k < |shared|
    ensures Loaded(data, shared)[k] == if k < |data| then data[k] else shared[k]
  {
  }

  // ---------- the whole gates ----------

  /** The name of the running loader, if it has one, is that of the image, as C strings. */
  ghost predicate SameName(running: Rev, rev: Rev) {
    running.name[0] != 0 ==>
      exists c: seq<byte> :: IsCString(running.name, c) && IsCString(rev.name, c)
  }

  ghost predicate IsCString(s: seq<byte>, c: seq<byte>) {
    c <= s && 0 !in c && (|c| < |s| ==> s[|c|] == 0)
  }

  lemma NameFitsIff(running: Rev, rev: Rev)
    ensures NameFits(running, rev) <==> SameName(running, rev)
  {
    var c := CString(running.name);
    CStringIff(running.name, c);
    CStringIff(rev.name, c);
    if SameName(running, rev) && running.name[0] != 0 {
      var d: seq<byte> :| IsCString(running.name, d) && IsCString(rev.name, d);
      CStringIff(running.name, d);
      CStringIff(rev.name, d);
    } else if NameFits(running, rev) && running.name[0] != 0 {
      assert IsCString(running.name, c) && IsCString(rev.name, c);
    }
  }

  /** Exactly which files an image partition takes. */
  lemma ImageGateIff(env: Env, running: Rev, s: State, data: seq<byte>, p: Partition)
    requires ValidState(env, s) && !IsLoaderSlot(p)
    ensures |s.flash.At(p)| == env.size(p)
    ensures PassesGate(env, running, s, data, p) <==>
              var check := CheckImage(env, env.addr(p), env.size(p), data);
              var old', new' := FlashVersion(env.fw, s.flash.At(p)), FileVersion(env.fw, data);
              && check.ok && SameName(running, check.rev)
              && old'.Some? && new'.Some? && old'.value <= new'.value
              && (env.downgradePrevention ==> env.loadHeader(s.flash.At(p)).Some?)
  {
    hide CheckImage, FlashVersion, FileVersion, SameName, NameFits, DowngradeAllowed, B0Gate, Key;
    var check := CheckImage(env, env.addr(p), env.size(p), data);
    assert |s.flash.At(p)| == env.size(p);
    NameFitsIff(running, check.rev);
    DowngradeAllowedIff(env, p, check.hdr, s.flash.At(p));
  }

  /** Exactly which files a loader slot takes from the other loader. */
  lemma LoaderGateIff(env: Env, running: Rev, s: State, data: seq<byte>, p: Partition)
    requires ValidState(env, s) && IsLoaderSlot(p)
    ensures |s.flash.At(p)| == env.size(p)
    ensures PassesGate(env, running, s, data, p) <==>
              var check := CheckImage(env, env.addr(p), env.size(p), data);
              var old', new' := FlashVersion(env.fw, s.flash.At(p)), FileVersion(env.fw, data);
              && |data| <= env.size(p) && B0Accepts(env, env.addr(p), data + s.shared[|data|..])
              && SameName(running, check.rev)
              && old'.Some? && new'.Some? && old'.value <= new'.value
              && (env.downgradePrevention ==>
                    && env.loadHeader(s.flash.At(p)).Some?
                    && Key(check.hdr.version, env.useBuildNumber) >= Key(env.loaderVersion, env.useBuildNumber))
  {
    hide CheckImage, FlashVersion, FileVersion, SameName, NameFits, DowngradeAllowed, B0Accepts, Key;
    var check := CheckImage(env, env.addr(p), env.size(p), data);
    assert |s.flash.At(p)| == env.size(p) == |s.shared|;
    NameFitsIff(running, check.rev);
    DowngradeAllowedIff(env, p, check.hdr, s.flash.At(p));
  }

  /** Exactly which files a loader hands over: no version in the slot is asked for. */
  lemma HandoffGateIff(env: Env, running: Rev, p: Partition, data: seq<byte>, shared: seq<byte>)
    requires env.Valid() && |shared| == env.BufSize() && IsLoaderSlot(p)
    ensures HandoffGate(env, running, p, data, shared) <==>
              && |data| <= env.size(p) && B0Accepts(env, env.addr(p), data + shared[|data|..])
              && FileVersion(env.fw, data).Some?
              && SameName(running, CheckImage(env, env.addr(p), env.size(p), data).rev)
  {
    hide CheckImage, FileVersion, SameName, NameFits, B0Accepts;
    NameFitsIff(running, CheckImage(env, env.addr(p), env.size(p), data).rev);
  }

  /** The installed firmware may be installed again. */
  lemma ReinstallAllowed(env: Env, data: seq<byte>, size: nat)
    requires env.Valid() && env.fw.FitsIn(size) && |data| <= size && FileVersion(env.fw, data).Some?
    ensures VersionFits(env, data, Filled(data, size))
  {
    hide FileFindFrom, FlashFindFrom, Le32;
    assert data[..|data|] == data;
    VersionAfterCopy(env.fw, data, |data|, size);
  }

  /** The name that the check reports is that of the image's name record, or empty. */
  lemma ReportedName(env: Env, addr: u32, size: nat, img: Image, data: FileData, a: nat, b: nat)
    requires env.Valid() && addr as int + size < 0x1_0000_0000
    requires |img.head| >= HEADER_SIZE && img.Described(ParseHeader(img.head)) && img.prot.Some?
    requires img.Bytes() <= data && FoundAt(env.hw, img.prot.value, a, b)
    ensures var name := CString(CheckImage(env, addr, size, data).rev.name);
            name == [] || name == CString(img.prot.value[b].value)
  {
    hide EncodeArea, CheckImage, FindInFile, Lookup, FoundAt, Le16, Le32;
    CheckImageReports(env, addr, size, data);
    FindInFileIsLookup(env.hw, img, ParseHeader(img.head), data, ZERO_REV);
    LookupIff(env.hw, img.prot.value, ZERO_REV);
  }

  /** A file for a device of another name is neither installed nor handed over, whoever signed it. */
  lemma WrongNameRefused(
    env: Env, running: Rev, s: State, p: Partition, img: Image, data: FileData, a: nat, b: nat, shared: seq<byte>)
    requires ValidState(env, s) && env.addr(p) as int + env.size(p) < 0x1_0000_0000
    requires |img.head| >= HEADER_SIZE && img.Described(ParseHeader(img.head)) && img.prot.Some?
    requires img.Bytes() <= data && FoundAt(env.hw, img.prot.value, a, b)
    requires running.name[0] != 0 && CString(running.name) != CString(img.prot.value[b].value)
    requires |shared| == env.BufSize()
    ensures !PassesGate(env, running, s, data, p)
    ensures !HandoffGate(env, running, p, data, shared)
  {
    hide EncodeArea, CheckImage, FoundAt, B0Accepts, FlashVersion, FileVersion, DowngradeAllowed;
    ReportedName(env, env.addr(p), env.size(p), img, data, a, b);
    assert |s.flash.At(p)| == env.size(p);
  }

  // ---------- which file goes where ----------

  /** A partition after it was offered a file. */
  ghost function Offered(env: Env, running: Rev, s: State, name: FileName, p: Partition): (cells: seq<byte>)
    requires ValidState(env, s)
  {
    if name in s.files && PassesGate(env, running, s, s.files[name], p) && |s.files[name]| <= env.size(p)
    then Filled(s.files[name], env.size(p)) else s.flash.At(p)
  }

  /**
   A boot without faults or handoff: mcuboot1 goes to s1, or mcuboot0 to s0,
   whichever is not running; the loader to the secondary and the application to
   the primary partition; and no file is left.
   */
  lemma EachFileHasItsPartition(env: Env, s: State, e: Event, s': State)
    requires ValidState(env, s) && Step(env, s, e, s') && e.BootEvent? && e.io == ALL_OK && !e.trace.handoff
    ensures s'.flash.s0 == if e.slot == S0 then s.flash.s0 else Offered(env, e.running, s, Mcuboot0File, S0)
    ensures s'.flash.s1 == if e.slot == S0 then Offered(env, e.running, s, Mcuboot1File, S1) else s.flash.s1
    ensures s'.flash.secondary == Offered(env, e.running, s, LoaderFile, Secondary)
    ensures s'.flash.primary == Offered(env, e.running, s, AppFile, Primary)
    ensures s'.files == map[]
  {
    hide Boot, PassesGate, HandsOver, Invalidated;
    WorkingBoot(env, s, e, s');
    HandoffOrNot(env, s, e, s');
    assert s'.flash.s0 == s'.flash.At(S0) && s'.flash.s1 == s'.flash.At(S1);
    assert s'.flash.primary == s'.flash.At(Primary) && s'.flash.secondary == s'.flash.At(Secondary);
  }

  lemma HandoffOrNot(env: Env, s: State, e: Event, s': State)
    requires ValidState(env, s) && Step(env, s, e, s') && e.BootEvent? && e.io == ALL_OK
    ensures e.trace.handoff <==> HandsOver(env, e.running, e.slot, s)
  {
    HandoffDecided(env, s, e, s');
  }
}
