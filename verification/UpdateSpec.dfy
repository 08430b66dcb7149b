/**
 What one boot of the updater may do: the gates a file has to pass and the
 relation between the states before and after each step of the update.
 */
module UpdateSpec {
  import opened Bytes
  import opened Devices
  import opened ImageFormat
  import opened Validator
  import opened HwRev
  import opened ImgOp
  import opened FwInfo
  import opened VersionGate

  const IMAGE_F_NON_BOOTABLE: u32 := 0x10

  datatype Partition = S0 | S1 | Primary | Secondary

  datatype FileName = Mcuboot0File | Mcuboot1File | LoaderFile | AppFile

  /** The file that is meant for a partition. */
  function FileFor(p: Partition): FileName {
    match p
    case S0 => Mcuboot0File
    case S1 => Mcuboot1File
    case Secondary => LoaderFile
    case Primary => AppFile
  }

  predicate IsLoaderSlot(p: Partition) {
    p == S0 || p == S1
  }

  /**
   The flash layout, the build options and the code behind the updater:
   b0Validate is the first stage's check of a buffer for an address, loadHeader
   MCUboot's loading of a partition's header.
   */
  datatype Env = Env(
    crypto: Crypto,
    hw: HwKinds,
    fw: FwInfoLayout,
    b0Validate: (u32, seq<byte>, nat) -> bool,
    loadHeader: seq<byte> -> Option<Header>,
    addr: Partition -> u32,
    size: Partition -> nat,
    loaderVersion: Version,
    downgradePrevention: bool,
    useBuildNumber: bool)
  {
    ghost predicate Valid() {
      && crypto.Valid() && hw.Valid() && fw.Valid()
      && size(S0) == size(S1)
      && forall p: Partition :: size(p) % 4 == 0 && 0 < size(p) <= FILE_MAX && fw.FitsIn(size(p))
    }

    function BufSize(): nat {
      Max(size(S0), size(S1))
    }
  }

  // ---------- the gates ----------

  /** Which operations can be relied on: area opening, file status, unlinking, file reading, flash writing, mounting. */
  datatype Io = Io(areas: bool, stat: bool, unlink: bool, read: bool, flash: bool, mount: bool)

  /** The checks work: areas open, files can be looked up and read. */
  predicate ChecksWork(io: Io) {
    io.areas && io.stat && io.read
  }

  const ALL_OK: Io := Io(true, true, true, true, true, true)

  /** Safe unsigned 32-bit addition. */
  function SafeAdd(a: u32, b: u32): (r: Option<u32>)
    ensures r == if a + b < 0x1_0000_0000 then Some((a + b) as u32) else None
  {
    if a > 0xFFFF_FFFF - b then None else Some((a + b) as u32)
  }

  /** The header at the start of a file, if it is one of a bootable image inside the file. */
  function FileHeader(data: seq<byte>): Option<Header> {
    if |data| < HEADER_SIZE then None
    else
      var hdr := ParseHeader(data);
      if hdr.magic != IMAGE_MAGIC || hdr.flags / IMAGE_F_NON_BOOTABLE % 2 == 1 then None
      else
        match SafeAdd(hdr.imgSize, hdr.hdrSize)
        case None => None
        case Some(n) => if n > |data| then None else Some(hdr)
  }

  /** What validate_file makes of a file: its verdict, and the header and revision it reports. */
  datatype FileCheck = FileCheck(ok: bool, hdr: Header, rev: Rev)

  /** The checks that follow the loading of the header. */
  ghost function CheckBody(env: Env, addr: u32, size: nat, data: seq<byte>, hdr: Header): FileCheck
    requires env.Valid()
  {
    var resetAt := hdr.hdrSize as int + 4;
    if hdr.imgSize as int + hdr.hdrSize as int >= size then FileCheck(false, ZERO_HEADER, ZERO_REV)
    else if resetAt + 4 > |data| then FileCheck(false, hdr, ZERO_REV)
    else if !(addr <= Le32(data, resetAt) < Wrap32(addr as int + size)) then FileCheck(false, hdr, ZERO_REV)
    else FileCheck(Accepts(env.crypto, data, hdr, size, []), hdr, FindInFile(env.hw, data, ZERO_REV).rev)
  }

  ghost function CheckImage(env: Env, addr: u32, size: nat, data: seq<byte>): FileCheck
    requires env.Valid()
  {
    match FileHeader(data)
    case None => FileCheck(false, ZERO_HEADER, ZERO_REV)
    case Some(hdr) => CheckBody(env, addr, size, data, hdr)
  }

  /** The header that the checks report is the file's, or all zero. */
  lemma CheckedHeader(env: Env, addr: u32, size: nat, data: seq<byte>)
    requires env.Valid()
    ensures var hdr := CheckImage(env, addr, size, data).hdr;
            hdr == ZERO_HEADER || (FileHeader(data) == Some(hdr) && |data| >= HEADER_SIZE && hdr == ParseHeader(data))
  {
  }

  /** The first stage's verdict on a buffer that holds an image for an address. */
  function B0Accepts(env: Env, addr: u32, buf: seq<byte>): bool
    requires env.Valid() && env.fw.FitsIn(|buf|)
  {
    FlashFindSound(env.fw, buf, 0);
    match FlashFind(env.fw, buf)
    case None => false
    case Some(o) =>
      var address := Le32(buf, o + env.fw.addressAt);
      var delta := Wrap32(address as int - addr as int);
      delta < |buf| && env.b0Validate(address, buf, delta)
  }

  /** The buffer after a file was read to its start; a file that does not fit is not read. */
  function Loaded(data: seq<byte>, shared: seq<byte>): (r: seq<byte>)
    ensures |r| == |shared|
  {
    if |data| <= |shared| then data + shared[|data|..] else shared
  }

  /** The file is checked at the start of the shared buffer; behind it old bytes remain. */
  ghost predicate B0Gate(env: Env, addr: u32, data: seq<byte>, shared: seq<byte>)
    requires env.Valid() && |shared| == env.BufSize()
  {
    |data| <= |shared| && B0Accepts(env, addr, Loaded(data, shared))
  }

  /** check_file: the first stage's check for a loader, MCUboot's for other images. */
  ghost predicate FileGate(env: Env, addr: u32, size: nat, b0: bool, data: seq<byte>, shared: seq<byte>)
    requires env.Valid() && |shared| == env.BufSize()
  {
    if b0 then size == env.BufSize() && B0Gate(env, addr, data, shared)
    else CheckImage(env, addr, size, data).ok
  }

  /**
   What a passed check is worth when reading may fail: the file passed it, or
   its size read as zero and the first stage judged the buffer's old bytes.
   */
  ghost predicate FileJudged(
    env: Env, io: Io, addr: u32, size: nat, b0: bool, data: seq<byte>, shared: seq<byte>)
    requires env.Valid() && |shared| == env.BufSize()
  {
    || FileGate(env, addr, size, b0, data, shared)
    || (b0 && !io.read && size == env.BufSize() && B0Accepts(env, addr, shared))
  }

  /** The revision name of the running loader, if it has one, must be that of the image. */
  predicate NameFits(running: Rev, rev: Rev) {
    running.name[0] == 0 || CString(running.name) == CString(rev.name)
  }

  /** The firmware version in the file is not below the one in the partition; both must exist. */
  predicate VersionFits(env: Env, data: seq<byte>, cells: seq<byte>)
    requires env.Valid() && env.fw.FitsIn(|cells|)
  {
    && FileVersion(env.fw, data).Some? && FlashVersion(env.fw, cells).Some?
    && FlashVersion(env.fw, cells).value <= FileVersion(env.fw, data).value
  }

  /** What is left of that when reading may fail: a structure in the file, if not the first, has such a version. */
  ghost predicate SomeVersionFits(env: Env, data: seq<byte>, cells: seq<byte>)
    requires env.Valid() && env.fw.FitsIn(|cells|)
  {
    && FlashVersion(env.fw, cells).Some?
    && exists v: u32 | HasVersion(env.fw, data, v) :: FlashVersion(env.fw, cells).value <= v
  }

  lemma FirstVersionFits(env: Env, data: seq<byte>, cells: seq<byte>)
    requires env.Valid() && env.fw.FitsIn(|cells|) && VersionFits(env, data, cells)
    ensures SomeVersionFits(env, data, cells)
  {
    FileFindSound(env.fw, data, 0);
    assert HasVersion(env.fw, data, FileVersion(env.fw, data).value);
  }

  /** The downgrade check as it is written. */
  function DowngradeAllowed(env: Env, p: Partition, hdr: Header, cells: seq<byte>): bool {
    if env.loadHeader(cells) == None then false
    else
      var rc := VersionCmp(hdr.version, hdr.version, env.useBuildNumber);
      var rc' :=
        if rc >= 0 && IsLoaderSlot(p) then
          var check := VersionCmp(hdr.version, env.loaderVersion, env.useBuildNumber);
          if check < rc then check else rc
        else rc;
      rc' >= 0
  }

  /**
   What a passed downgrade check is worth when reading may fail: it was made
   with the file's header, or with the zero header of a file whose header was
   not loaded.
   */
  ghost predicate DowngradeJudged(env: Env, p: Partition, data: seq<byte>, cells: seq<byte>) {
    env.downgradePrevention ==>
      || DowngradeAllowed(env, p, ZERO_HEADER, cells)
      || (FileHeader(data).Some? && DowngradeAllowed(env, p, FileHeader(data).value, cells))
  }

  /** The checks against the partition's present contents. */
  predicate ContentGate(env: Env, running: Rev, p: Partition, hdr: Header, rev: Rev, data: seq<byte>, cells: seq<byte>)
    requires env.Valid() && env.fw.FitsIn(|cells|)
  {
    && VersionFits(env, data, cells)
    && NameFits(running, rev)
    && (env.downgradePrevention ==> DowngradeAllowed(env, p, hdr, cells))
  }

  /** Everything check_file_and_update asks of a file before it copies it. */
  ghost predicate Gate(
    env: Env, running: Rev, p: Partition, b0: bool, data: seq<byte>, shared: seq<byte>, cells: seq<byte>)
    requires env.Valid() && |shared| == env.BufSize() && |cells| == env.size(p)
  {
    var check := CheckImage(env, env.addr(p), env.size(p), data);
    && FileGate(env, env.addr(p), env.size(p), b0, data, shared)
    && ContentGate(env, running, p, check.hdr, check.rev, data, cells)
  }

  /** What check_update_for_mcuboot asks of a file before it requests the handoff. */
  ghost predicate HandoffGate(env: Env, running: Rev, p: Partition, data: seq<byte>, shared: seq<byte>)
    requires env.Valid() && |shared| == env.BufSize()
  {
    && FileGate(env, env.addr(p), env.size(p), true, data, shared)
    && FileVersion(env.fw, data).Some?
    && NameFits(running, CheckImage(env, env.addr(p), env.size(p), data).rev)
  }

  // ---------- states ----------

  datatype Flash = Flash(s0: seq<byte>, s1: seq<byte>, primary: seq<byte>, secondary: seq<byte>) {
    function At(p: Partition): seq<byte> {
      match p
      case S0 => s0
      case S1 => s1
      case Primary => primary
      case Secondary => secondary
    }
  }

  /** Flash, files and the buffer that survives between the checks. */
  datatype State = State(flash: Flash, files: map<FileName, FileData>, shared: seq<byte>)

  ghost predicate ValidState(env: Env, s: State) {
    && env.Valid() && |s.shared| == env.BufSize()
    && forall p: Partition :: |s.flash.At(p)| == env.size(p)
  }

  ghost predicate SameFlashExcept(s: State, s': State, p: Partition) {
    forall q: Partition :: q != p ==> s'.flash.At(q) == s.flash.At(q)
  }

  /** The file is still there, or it was removed; nothing else happened to the files. */
  predicate Dropped(files: map<FileName, FileData>, files': map<FileName, FileData>, name: FileName) {
    files' == files || files' == files - {name}
  }

  // ---------- the steps ----------

  /** The buffer after the first stage's check of a file, which is made if b0 is set and the file is there. */
  function BufferAfter(
    env: Env, size: nat, b0: bool, files: map<FileName, FileData>, name: FileName, shared: seq<byte>): (r: seq<byte>)
    ensures |r| == |shared|
  {
    if b0 && name in files && size == env.BufSize() then Loaded(files[name], shared) else shared
  }

  /** A file that check_file_and_update refused. */
  ghost predicate Refused(env: Env, io: Io, s: State, s': State, name: FileName) {
    && s'.flash == s.flash && |s'.shared| == |s.shared|
    && Dropped(s.files, s'.files, name)
    && (io.areas && io.stat && io.unlink ==> name !in s'.files)
  }

  /** A file that check_file_and_update copied, as far as the flash permitted. */
  ghost predicate Installed(env: Env, io: Io, s: State, s': State, name: FileName, p: Partition, b0: bool)
    requires ValidState(env, s)
  {
    && name in s.files && SameFlashExcept(s, s', p) && |s'.shared| == |s.shared|
    && Dropped(s.files, s'.files, name)
    && (io.unlink ==> name !in s'.files)
    && var data, before, after := s.files[name], s.flash.At(p), s'.flash.At(p);
    && CopyLeaves(before, data, after)
    && (io.areas && io.read && io.flash && |data| <= |before| ==> after == Filled(data, |before|))
    && FileJudged(env, io, env.addr(p), env.size(p), b0, data, s.shared)
    && SomeVersionFits(env, data, before) && DowngradeJudged(env, p, data, before)
    && (io.read ==> VersionFits(env, data, before))
  }

  /** One call of check_file_and_update. */
  ghost predicate Updated(
    env: Env, io: Io, running: Rev, s: State, s': State, name: FileName, p: Partition, b0: bool, updated: bool)
    requires ValidState(env, s)
  {
    && (if updated then Installed(env, io, s, s', name, p, b0) else Refused(env, io, s, s', name))
    && (!b0 ==> s'.shared == s.shared)
    && (ChecksWork(io) ==> s'.shared == BufferAfter(env, env.size(p), b0, s.files, name, s.shared))
    && (ChecksWork(io) ==>
          (updated <==> name in s.files && Gate(env, running, p, b0, s.files[name], s.shared, s.flash.At(p))))
  }

  lemma SameFlash(a: Flash, b: Flash, p: Partition)
    requires a.At(p) == b.At(p) && forall q: Partition :: q != p ==> b.At(q) == a.At(q)
    ensures a == b
  {
    assert a.At(S0) == b.At(S0) && a.At(S1) == b.At(S1);
    assert a.At(Primary) == b.At(Primary) && a.At(Secondary) == b.At(Secondary);
  }

  lemma RefusedUpdates(
    env: Env, io: Io, running: Rev, s: State, s': State, name: FileName, p: Partition, b0: bool)
    requires ValidState(env, s) && ValidState(env, s')
    requires Refused(env, io, s, s', name)
    requires ChecksWork(io) ==>
               !(name in s.files && Gate(env, running, p, b0, s.files[name], s.shared, s.flash.At(p)))
    requires !b0 ==> s'.shared == s.shared
    requires ChecksWork(io) ==> s'.shared == BufferAfter(env, env.size(p), b0, s.files, name, s.shared)
    ensures Updated(env, io, running, s, s', name, p, b0, false)
  {
    hide Gate;
  }

  lemma InstalledUpdates(
    env: Env, io: Io, running: Rev, s: State, s': State, name: FileName, p: Partition, b0: bool)
    requires ValidState(env, s) && ValidState(env, s')
    requires Installed(env, io, s, s', name, p, b0)
    requires ChecksWork(io) ==>
               name in s.files && Gate(env, running, p, b0, s.files[name], s.shared, s.flash.At(p))
    requires !b0 ==> s'.shared == s.shared
    requires ChecksWork(io) ==> s'.shared == BufferAfter(env, env.size(p), b0, s.files, name, s.shared)
    ensures Updated(env, io, running, s, s', name, p, b0, true)
  {
    hide Gate;
  }

  /** One call of check_update_for_mcuboot. */
  ghost predicate Prechecked(
    env: Env, io: Io, running: Rev, s: State, s': State, name: FileName, p: Partition, found: bool)
    requires ValidState(env, s)
  {
    && s'.flash == s.flash && |s'.shared| == |s.shared|
    && (if found then
          && name in s.files && s'.files == s.files
          && FileJudged(env, io, env.addr(p), env.size(p), true, s.files[name], s.shared)
        else Refused(env, io, s, s', name))
    && (ChecksWork(io) ==> s'.shared == BufferAfter(env, env.size(p), true, s.files, name, s.shared))
    && (ChecksWork(io) ==>
          (found <==> name in s.files && HandoffGate(env, running, p, s.files[name], s.shared)))
  }

  /** The image in s0 is marked invalid, unless its area does not open. */
  ghost predicate MarkedInvalid(env: Env, io: Io, s: State, s': State)
    requires ValidState(env, s)
  {
    && s'.files == s.files && s'.shared == s.shared && SameFlashExcept(s, s', S0)
    && (s'.flash.s0 == s.flash.s0 || s'.flash.s0 == Invalidated(env.fw, s.flash.s0))
    && (io.areas ==> s'.flash.s0 == Invalidated(env.fw, s.flash.s0))
  }

  /** The intermediate states of a boot and what its steps answered. */
  datatype Trace = Trace(s1: State, s2: State, s3: State, own: bool, handoff: bool, loader: bool, app: bool)

  function OtherSlot(slot: Partition): Partition {
    if slot == S0 then S1 else S0
  }

  /** The loader files: the other slot's is installed, the own slot's is left for the other loader. */
  ghost predicate LoaderStep(
    env: Env, io: Io, running: Rev, slot: Partition, s: State, s1: State, s2: State, own: bool, handoff: bool)
    requires ValidState(env, s)
  {
    && ValidState(env, s1) && ValidState(env, s2)
    && Updated(env, io, running, s, s1, FileFor(OtherSlot(slot)), OtherSlot(slot), true, own)
    && Prechecked(env, io, running, s1, s2, FileFor(slot), slot, handoff)
  }

  /** The other two files. */
  ghost predicate ImageStep(env: Env, io: Io, running: Rev, s: State, s1: State, s2: State, loader: bool, app: bool)
    requires ValidState(env, s)
  {
    && ValidState(env, s1) && ValidState(env, s2)
    && Updated(env, io, running, s, s1, LoaderFile, Secondary, false, loader)
    && Updated(env, io, running, s1, s2, AppFile, Primary, false, app)
  }

  /** check_updates_on_fs */
  ghost predicate BootStep(env: Env, io: Io, running: Rev, slot: Partition, s: State, s': State, t: Trace, reboot: bool)
    requires ValidState(env, s)
  {
    && LoaderStep(env, io, running, slot, s, t.s1, t.s2, t.own, t.handoff)
    && ValidState(env, s')
    && (if t.handoff then
          reboot && if slot == S0 then MarkedInvalid(env, io, t.s2, s') else s' == t.s2
        else
          && ImageStep(env, io, running, t.s2, t.s3, s', t.loader, t.app)
          && reboot == (t.own || t.loader || t.app))
  }

  /** mcuboot_fw_update: a file system that does not mount may be erased. */
  ghost predicate Boot(
    env: Env, io: Io, running: Rev, slot: Partition, s: State, s': State, mounted: bool, t: Trace, reboot: bool)
    requires ValidState(env, s)
  {
    && (io.mount ==> mounted)
    && (if mounted then BootStep(env, io, running, slot, s, s', t, reboot)
        else s'.flash == s.flash && s'.shared == s.shared && !reboot && (s'.files == s.files || s'.files == map[]))
  }
}
