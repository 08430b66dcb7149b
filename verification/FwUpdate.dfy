/**
 The updater itself, working on the flash partitions, the files and the shared
 image buffer of a device.
 */
module FwUpdate {
  import opened Bytes
  import opened Devices
  import opened ImageFormat
  import opened Validator
  import opened HwRev
  import opened ImgOp
  import opened FwInfo
  import opened VersionGate
  import opened UpdateSpec

  const HOOK_TMPBUF_SIZE: nat := 256

  class Device {
    const env: Env
    const io: Io
    const s0: FlashArea
    const s1: FlashArea
    const primary: FlashArea
    const secondary: FlashArea
    const shared: array<byte>
    var files: map<FileName, FileData>

    constructor (env: Env, io: Io, s: State)
      requires ValidState(env, s)
      ensures Valid() && Snap() == s && this.env == env && this.io == io
      ensures fresh(s0) && fresh(s1) && fresh(primary) && fresh(secondary) && fresh(shared)
    {
      this.env, this.io, this.files := env, io, s.files;
      s0 := new FlashArea(s.flash.s0, io.areas, io.flash);
      s1 := new FlashArea(s.flash.s1, io.areas, io.flash);
      primary := new FlashArea(s.flash.primary, io.areas, io.flash);
      secondary := new FlashArea(s.flash.secondary, io.areas, io.flash);
      shared := new byte[|s.shared|](i requires 0 <= i < |s.shared| => s.shared[i]);
      new;
      assert s0.cells == s.flash.At(S0) && s1.cells == s.flash.At(S1);
      assert primary.cells == s.flash.At(Primary) && secondary.cells == s.flash.At(Secondary);
      assert shared[..] == s.shared;
    }

    function Area(p: Partition): FlashArea {
      match p
      case S0 => s0
      case S1 => s1
      case Primary => primary
      case Secondary => secondary
    }

    ghost predicate Valid()
      reads this, s0, s1, primary, secondary
    {
      && env.Valid() && shared.Length == env.BufSize()
      && s0 != s1 && s0 != primary && s0 != secondary && s1 != primary && s1 != secondary && primary != secondary
      && (forall p: Partition ::
            |Area(p).cells| == env.size(p) && Area(p).opens == io.areas && Area(p).reliable == io.flash)
    }

    ghost function Snap(): (s: State)
      requires Valid()
      reads this, s0, s1, primary, secondary, shared
      ensures ValidState(env, s)
    {
      assert |Area(S0).cells| == env.size(S0) && |Area(S1).cells| == env.size(S1);
      assert |Area(Primary).cells| == env.size(Primary) && |Area(Secondary).cells| == env.size(Secondary);
      State(Flash(s0.cells, s1.cells, primary.cells, secondary.cells), files, shared[..])
    }

    /** What a snapshot shows. */
    lemma SnapAt()
      requires Valid()
      ensures forall p: Partition :: Snap().flash.At(p) == Area(p).cells
      ensures Snap().files == files && Snap().shared == shared[..]
    {
    }

    // ---------- the file system ----------

    /** btldr_fs_is_file_exist */
    method IsFileExist(name: FileName) returns (present: bool)
      ensures present ==> name in files
      ensures io.stat ==> (present <==> name in files)
    {
      var fault: bool := *;
      return name in files && (io.stat || !fault);
    }

    /** btldr_fs_open_file */
    method OpenFile(name: FileName) returns (file: FsFile?)
      ensures file != null ==>
                && fresh(file) && name in files && file.data == files[name]
                && file.reliable == io.read && file.pos == 0
      ensures io.read && name in files ==> file != null
    {
      var fault: bool := *;
      if name !in files || (fault && !io.read) {
        return null;
      }
      file := new FsFile(files[name], io.read);
    }

    /** btldr_fs_unlink_file */
    method UnlinkFile(name: FileName)
      modifies this`files
      ensures Dropped(old(files), files, name)
      ensures io.unlink ==> name !in files
    {
      var fault: bool := *;
      if io.unlink || !fault {
        files := files - {name};
      }
    }

    /** btldr_fs_get_file_size: zero when the end cannot be found. */
    method GetFileSize(file: FsFile) returns (size: nat)
      requires file.pos <= FILE_MAX
      modifies file
      ensures size == |file.data| || size == 0
      ensures file.pos == old(file.pos) || file.pos == |file.data|
      ensures file.reliable ==> size == |file.data| && file.pos == old(file.pos)
    {
      var curOffset := file.pos;
      var rc := file.SeekEnd();
      if rc != 0 {
        return 0;
      }
      size := file.pos;
      rc := file.Seek(curOffset);
    }

    /** get_flash_area_address_and_size */
    method GetAddressAndSize(p: Partition) returns (ok: bool, addr: u32, size: nat)
      requires Valid()
      ensures ok ==> addr == env.addr(p) && size == env.size(p)
      ensures io.areas ==> ok
    {
      var rc := Area(p).Open();
      return rc == 0, env.addr(p), |Area(p).cells|;
    }

    // ---------- checking a file ----------

    /** validate_b0_signature; when the end of the file cannot be found, the old buffer is judged. */
    method ValidateB0Signature(name: FileName, addr: u32, size: nat) returns (ok: bool)
      requires Valid()
      modifies shared
      ensures ok ==> name in files && FileJudged(env, io, addr, size, true, files[name], old(shared[..]))
      ensures io.read && name in files ==>
                (ok <==> size == env.BufSize() && B0Gate(env, addr, files[name], old(shared[..])))
      ensures io.read ==> shared[..] == BufferAfter(env, size, true, files, name, old(shared[..]))
    {
      if size != shared.Length {
        return false;
      }
      var file := OpenFile(name);
      if file == null {
        return false;
      }
      var fileSize := GetFileSize(file);
      if fileSize > shared.Length {
        return false;
      }
      ghost var data, stale := file.data, shared[..];
      var rc := file.Read(shared, fileSize);
      if rc < 0 || rc != fileSize {
        return false;
      }
      assert shared[..] == if fileSize == |data| then Loaded(data, stale) else stale;
      ok := B0Accepts(env, addr, shared[..]);
    }

    /** load_image_header_from_file */
    method LoadHeaderFromFile(file: FsFile) returns (ok: bool, hdr: Header)
      requires file.pos == 0
      modifies file
      ensures ok ==> FileHeader(file.data) == Some(hdr)
      ensures file.reliable ==> (ok <==> FileHeader(file.data).Some?)
    {
      ok, hdr := ReadHeader(file);
      if !ok || hdr.magic != IMAGE_MAGIC {
        return false, hdr;
      }
      if hdr.flags / IMAGE_F_NON_BOOTABLE % 2 != 0 {
        return false, hdr;
      }
      var imgSize := SafeAdd(hdr.imgSize, hdr.hdrSize);
      if imgSize == None {
        return false, hdr;
      }
      var fileSize := GetFileSize(file);
      return imgSize.value <= fileSize, hdr;
    }

    /** Reads the reset address that follows the first word of the body. */
    method ReadResetAddress(file: FsFile, hdr: Header) returns (ok: bool, reset: u32)
      modifies file
      ensures ok ==> hdr.hdrSize as int + 8 <= |file.data| && reset == Le32(file.data, hdr.hdrSize as int + 4)
      ensures file.reliable ==> (ok <==> hdr.hdrSize as int + 8 <= |file.data|)
    {
      var buf, at := new byte[4](_ => 0), hdr.hdrSize as int + 4;
      var rc := file.Seek(at);
      if rc != 0 {
        return false, 0;
      }
      rc := file.Read(buf, 4);
      if rc < 0 || rc != 4 {
        return false, 0;
      }
      assert buf[..] == file.data[at..at + 4];
      assert forall i | 0 <= i < 4 :: buf[..][i] == file.data[at + i];
      return true, Le32(buf[..], 0);
    }

    /** The checks of validate_file that follow the loading of the header. */
    method ValidateBody(file: FsFile, imgHdr: Header, addr: u32, size: nat) returns (ok: bool, hdr: Header, rev: Rev)
      requires Valid()
      modifies file
      ensures ok ==> CheckBody(env, addr, size, file.data, imgHdr).ok
      ensures hdr == ZERO_HEADER || hdr == imgHdr
      ensures file.reliable ==> FileCheck(ok, hdr, rev) == CheckBody(env, addr, size, file.data, imgHdr)
    {
      hdr, rev := ZERO_HEADER, ZERO_REV;
      if imgHdr.imgSize as int + imgHdr.hdrSize as int >= size {
        return false, hdr, rev;
      }
      hdr := imgHdr;
      var haveReset, reset := ReadResetAddress(file, hdr);
      if !haveReset || !(reset >= addr && reset < Wrap32(addr as int + size)) {
        return false, hdr, rev;
      }
      var hwRev := new HwRevision();
      var found := FindHwRevInFile(env.hw, file, hwRev);
      rev := hwRev.Value();
      var tmpBuf := new byte[HOOK_TMPBUF_SIZE];
      ok := ImgValidate(env.crypto, hdr, file, size, tmpBuf, []);
    }

    /** validate_file */
    method ValidateFile(name: FileName, addr: u32, size: nat) returns (ok: bool, hdr: Header, rev: Rev)
      requires Valid()
      ensures ok ==> name in files && CheckImage(env, addr, size, files[name]).ok
      ensures io.stat && io.read && name in files ==>
                FileCheck(ok, hdr, rev) == CheckImage(env, addr, size, files[name])
      ensures hdr == ZERO_HEADER || (name in files && FileHeader(files[name]) == Some(hdr))
    {
      ok, hdr, rev := false, ZERO_HEADER, ZERO_REV;
      var present := IsFileExist(name);
      if !present {
        return;
      }
      var file := OpenFile(name);
      if file == null {
        return;
      }
      var loaded, imgHdr := LoadHeaderFromFile(file);
      if loaded {
        ok, hdr, rev := ValidateBody(file, imgHdr, addr, size);
      }
    }

    /** check_file; b0 asks for the first stage's check. */
    method CheckFile(name: FileName, addr: u32, size: nat, b0: bool) returns (ok: bool, hdr: Header, rev: Rev)
      requires Valid()
      modifies this`files, shared
      ensures Valid()
      ensures ok ==> files == old(files) && name in files
      ensures !ok ==> Dropped(old(files), files, name) && (io.stat && io.unlink ==> name !in files)
      ensures ok ==> FileJudged(env, io, addr, size, b0, files[name], old(shared[..]))
      ensures ok ==> hdr == ZERO_HEADER || FileHeader(files[name]) == Some(hdr)
      ensures !b0 ==> shared[..] == old(shared[..])
      ensures io.stat && io.read ==>
                shared[..] == BufferAfter(env, size, b0, old(files), name, old(shared[..]))
      ensures io.stat && io.read ==>
                (ok <==> name in old(files) && FileGate(env, addr, size, b0, old(files)[name], old(shared[..])))
      ensures io.stat && io.read && ok ==>
                var check := CheckImage(env, addr, size, files[name]); hdr == check.hdr && rev == check.rev
    {
      hdr, rev := ZERO_HEADER, ZERO_REV;
      var present := IsFileExist(name);
      if !present {
        return false, hdr, rev;
      }
      if b0 {
        ok := ValidateB0Signature(name, addr, size);
        if !ok {
          UnlinkFile(name);
          return false, hdr, rev;
        }
        var valid;
        valid, hdr, rev := ValidateFile(name, addr, size);
        return true, hdr, rev;
      } else {
        ok, hdr, rev := ValidateFile(name, addr, size);
        if !ok {
          UnlinkFile(name);
          return false, hdr, rev;
        }
        return true, hdr, rev;
      }
    }

    /** fw_info_find_in_file on a file of the file system. */
    method FindFwInfo(name: FileName) returns (found: bool, version: u32)
      requires Valid()
      ensures io.read && name in files ==> (found <==> FileVersion(env.fw, files[name]).Some?)
      ensures io.read && found ==> name in files && FileVersion(env.fw, files[name]) == Some(version)
      ensures found ==> name in files && HasVersion(env.fw, files[name], version)
    {
      var file := OpenFile(name);
      if file == null {
        return false, 0;
      }
      found, version := FwInfoFindInFile(env.fw, file);
    }

    /** check_downgrade_prevention, with its comparison of the file's version with itself. */
    method CheckDowngradePrevention(p: Partition, hdr: Header) returns (ok: bool)
      requires Valid()
      ensures ok ==> DowngradeAllowed(env, p, hdr, Area(p).cells)
      ensures io.areas ==> (ok <==> DowngradeAllowed(env, p, hdr, Area(p).cells))
    {
      var openRc := Area(p).Open();
      if openRc != 0 {
        return false;
      }
      var dstHdr := env.loadHeader(Area(p).cells);
      if dstHdr == None {
        return false;
      }
      var rc := VersionCmp(hdr.version, hdr.version, env.useBuildNumber);
      if rc >= 0 && (p == S0 || p == S1) {
        var versionCheck := VersionCmp(hdr.version, env.loaderVersion, env.useBuildNumber);
        if versionCheck < rc {
          rc := versionCheck;
        }
      }
      return rc >= 0;
    }

    /** The checks of check_file_and_update that follow check_file. */
    method ContentsFit(name: FileName, p: Partition, running: Rev, hdr: Header, rev: Rev) returns (ok: bool)
      requires Valid() && name in files
      ensures ok ==> SomeVersionFits(env, files[name], Area(p).cells) && NameFits(running, rev)
      ensures ok && env.downgradePrevention ==> DowngradeAllowed(env, p, hdr, Area(p).cells)
      ensures ok && io.read ==> VersionFits(env, files[name], Area(p).cells)
      ensures io.areas && io.read ==>
                (ok <==> ContentGate(env, running, p, hdr, rev, files[name], Area(p).cells))
    {
      var found, version := FindFwInfo(name);
      if !found {
        return false;
      }
      var current := FlashVersion(env.fw, Area(p).cells);
      if current == None {
        return false;
      }
      if running.name[0] != 0 && CString(running.name) != CString(rev.name) {
        return false;
      }
      if current.value > version {
        return false;
      }
      if env.downgradePrevention {
        ok := CheckDowngradePrevention(p, hdr);
        return ok;
      }
      return true;
    }

    /** The same checks; each one that fails removes the file. */
    method CheckContents(name: FileName, p: Partition, running: Rev, hdr: Header, rev: Rev) returns (ok: bool)
      requires Valid() && name in files
      modifies this`files
      ensures Valid()
      ensures if ok then files == old(files) else Dropped(old(files), files, name) && (io.unlink ==> name !in files)
      ensures ok ==> SomeVersionFits(env, old(files)[name], Area(p).cells) && NameFits(running, rev)
      ensures ok && env.downgradePrevention ==> DowngradeAllowed(env, p, hdr, Area(p).cells)
      ensures ok && io.read ==> VersionFits(env, old(files)[name], Area(p).cells)
      ensures io.areas && io.read ==>
                (ok <==> ContentGate(env, running, p, hdr, rev, old(files)[name], Area(p).cells))
    {
      ok := ContentsFit(name, p, running, hdr, rev);
      if !ok {
        UnlinkFile(name);
      }
    }

    /** The copying at the end of check_file_and_update; the file goes whether it succeeded or not. */
    method CopyFile(name: FileName, p: Partition) returns (updated: bool)
      requires Valid() && name in files
      modifies this`files, Area(p)
      ensures Valid()
      ensures Dropped(old(files), files, name) && (io.unlink ==> name !in files)
      ensures forall q: Partition :: q != p ==> Area(q).cells == old(Area(q).cells)
      ensures io.read ==> updated
      ensures !updated ==> Area(p).cells == old(Area(p).cells)
      ensures CopyLeaves(old(Area(p).cells), old(files)[name], Area(p).cells)
      ensures io.areas && io.read && io.flash && |old(files)[name]| <= old(|Area(p).cells|) ==>
                Area(p).cells == Filled(old(files)[name], old(|Area(p).cells|))
    {
      assert |Area(p).cells| == env.size(p);
      var file := OpenFile(name);
      if file == null {
        UnlinkFile(name);
        return false;
      }
      var copied := ImgCopy(Area(p), file);
      UnlinkFile(name);
      return true;
    }

    /** The checks of check_file_and_update; a refused file is removed. */
    method CheckBeforeCopy(name: FileName, p: Partition, running: Rev, b0: bool) returns (ok: bool)
      requires Valid()
      modifies this`files, shared
      ensures Valid()
      ensures Snap().flash == old(Snap()).flash
      ensures ok ==> files == old(files) && name in files
      ensures !ok ==> Dropped(old(files), files, name) && (io.areas && io.stat && io.unlink ==> name !in files)
      ensures ok ==> FileJudged(env, io, env.addr(p), env.size(p), b0, files[name], old(shared[..]))
      ensures ok ==> SomeVersionFits(env, files[name], Area(p).cells)
      ensures ok ==> DowngradeJudged(env, p, files[name], Area(p).cells)
      ensures ok && io.read ==> VersionFits(env, files[name], Area(p).cells)
      ensures !b0 ==> shared[..] == old(shared[..])
      ensures ChecksWork(io) ==>
                shared[..] == BufferAfter(env, env.size(p), b0, old(files), name, old(shared[..]))
      ensures ChecksWork(io) ==>
                (ok <==>
                   && name in old(files)
                   && Gate(env, running, p, b0, old(files)[name], old(shared[..]), Area(p).cells))
    {
      var hdr, rev, addr, size;
      ok, addr, size := GetAddressAndSize(p);
      if !ok {
        return false;
      }
      ok, hdr, rev := CheckFile(name, addr, size, b0);
      if !ok {
        return false;
      }
      ok := CheckContents(name, p, running, hdr, rev);
    }

    /** check_file_and_update */
    method CheckFileAndUpdate(name: FileName, p: Partition, running: Rev, b0: bool) returns (updated: bool)
      requires Valid()
      modifies this`files, shared, Area(p)
      ensures Valid()
      ensures Updated(env, io, running, old(Snap()), Snap(), name, p, b0, updated)
    {
      hide Valid, Snap, Area, Updated, Gate, FileJudged, SomeVersionFits, DowngradeJudged, VersionFits;
      hide Filled, CopyLeaves;
      ghost var s := Snap();
      SnapAt();
      var ok := CheckBeforeCopy(name, p, running, b0);
      SnapAt();
      if !ok {
        RefusedUpdates(env, io, running, s, Snap(), name, p, b0);
        return false;
      }
      updated := CopyFile(name, p);
      SnapAt();
      if updated {
        InstalledUpdates(env, io, running, s, Snap(), name, p, b0);
      } else {
        SameFlash(s.flash, Snap().flash, p);
        RefusedUpdates(env, io, running, s, Snap(), name, p, b0);
      }
    }

    /** The checks of check_update_for_mcuboot on a file that is there. */
    method HandoffChecks(name: FileName, p: Partition, addr: u32, size: nat, running: Rev) returns (ok: bool)
      requires Valid() && name in files && addr == env.addr(p) && size == env.size(p)
      modifies shared
      ensures Valid()
      ensures ok ==> FileJudged(env, io, addr, size, true, files[name], old(shared[..]))
      ensures io.read ==> shared[..] == BufferAfter(env, size, true, files, name, old(shared[..]))
      ensures io.stat && io.read ==> (ok <==> HandoffGate(env, running, p, files[name], old(shared[..])))
    {
      ok := ValidateB0Signature(name, addr, size);
      if !ok {
        return false;
      }
      var valid, hdr, rev := ValidateFile(name, addr, size);
      var version;
      ok, version := FindFwInfo(name);
      if !ok {
        return false;
      }
      return running.name[0] == 0 || CString(running.name) == CString(rev.name);
    }

    /** The same on any file; each check that fails removes it. */
    method CheckBeforeHandoff(name: FileName, p: Partition, running: Rev) returns (found: bool)
      requires Valid()
      modifies this`files, shared
      ensures Valid()
      ensures found ==> files == old(files) && name in files
      ensures found ==> FileJudged(env, io, env.addr(p), env.size(p), true, files[name], old(shared[..]))
      ensures ChecksWork(io) ==>
                shared[..] == BufferAfter(env, env.size(p), true, old(files), name, old(shared[..]))
      ensures !found ==> Dropped(old(files), files, name) && (io.areas && io.stat && io.unlink ==> name !in files)
      ensures ChecksWork(io) ==>
                (found <==> name in old(files) && HandoffGate(env, running, p, old(files)[name], old(shared[..])))
    {
      var present := IsFileExist(name);
      if !present {
        return false;
      }
      var ok, addr, size := GetAddressAndSize(p);
      if !ok {
        return false;
      }
      found := HandoffChecks(name, p, addr, size, running);
      if !found {
        UnlinkFile(name);
      }
    }

    /** check_update_for_mcuboot */
    method CheckUpdateForMcuboot(name: FileName, p: Partition, running: Rev) returns (found: bool)
      requires Valid()
      modifies this`files, shared
      ensures Valid()
      ensures Prechecked(env, io, running, old(Snap()), Snap(), name, p, found)
    {
      found := CheckBeforeHandoff(name, p, running);
    }

    /** img_invalidate */
    method ImgInvalidate(p: Partition) returns (ok: bool)
      requires Valid()
      modifies Area(p)
      ensures Valid()
      ensures Area(p).cells == old(Area(p).cells) || Area(p).cells == Invalidated(env.fw, old(Area(p).cells))
      ensures io.areas ==> Area(p).cells == Invalidated(env.fw, old(Area(p).cells))
      ensures ok ==> FlashFind(env.fw, old(Area(p).cells)).Some?
      ensures !ok ==> Area(p).cells == old(Area(p).cells)
      ensures io.areas ==> (ok <==> FlashFind(env.fw, old(Area(p).cells)).Some?)
    {
      var fa := Area(p);
      assert |fa.cells| == env.size(p);
      var rc := fa.Open();
      if rc != 0 {
        return false;
      }
      var found := FlashFind(env.fw, fa.cells);
      if found == None {
        return false;
      }
      fa.cells := Invalidated(env.fw, fa.cells);
      return true;
    }

    /** The part of check_updates_on_fs about the loader files. */
    method CheckLoaderFiles(slot: Partition, running: Rev)
      returns (own: bool, handoff: bool, ghost s1': State, ghost s2': State)
      requires Valid() && IsLoaderSlot(slot)
      modifies this`files, shared, s0, s1
      ensures Valid() && Snap() == s2'
      ensures LoaderStep(env, io, running, slot, old(Snap()), s1', s2', own, handoff)
    {
      if slot == S0 {
        own := CheckFileAndUpdate(Mcuboot1File, S1, running, true);
        s1' := Snap();
        handoff := CheckUpdateForMcuboot(Mcuboot0File, S0, running);
        s2' := Snap();
      } else {
        own := CheckFileAndUpdate(Mcuboot0File, S0, running, true);
        s1' := Snap();
        handoff := CheckUpdateForMcuboot(Mcuboot1File, S1, running);
        s2' := Snap();
      }
    }

    /** The part of check_updates_on_fs about the other files. */
    method CheckImageFiles(running: Rev) returns (loader: bool, app: bool, ghost s3': State)
      requires Valid()
      modifies this`files, shared, primary, secondary
      ensures Valid()
      ensures ImageStep(env, io, running, old(Snap()), s3', Snap(), loader, app)
    {
      loader := CheckFileAndUpdate(LoaderFile, Secondary, running, false);
      s3' := Snap();
      app := CheckFileAndUpdate(AppFile, Primary, running, false);
    }

    /** The handoff from slot 0 marks its image invalid; the answer of img_invalidate is ignored. */
    method MarkS0Invalid()
      requires Valid()
      modifies s0
      ensures Valid()
      ensures MarkedInvalid(env, io, old(Snap()), Snap())
    {
      var marked := ImgInvalidate(S0);
    }

    /** check_updates_on_fs */
    method CheckUpdatesOnFs(slot: Partition, running: Rev) returns (reboot: bool, ghost t: Trace)
      requires Valid() && IsLoaderSlot(slot)
      modifies this`files, shared, s0, s1, primary, secondary
      ensures Valid()
      ensures BootStep(env, io, running, slot, old(Snap()), Snap(), t, reboot)
    {
      hide Snap, LoaderStep, ImageStep, MarkedInvalid;
      ghost var s1', s2', s3';
      var own, handoff, loader, app;
      own, handoff, s1', s2' := CheckLoaderFiles(slot, running);
      if handoff {
        if slot == S0 {
          MarkS0Invalid();
        }
        return true, Trace(s1', s2', s2', own, true, false, false);
      }
      loader, app, s3' := CheckImageFiles(running);
      return own || loader || app, Trace(s1', s2', s3', own, false, loader, app);
    }

    /** mcuboot_fw_update; the answer is whether it ends in a reboot. */
    method FwUpdate(slot: Partition, running: Rev) returns (reboot: bool, ghost mounted: bool, ghost t: Trace)
      requires Valid() && IsLoaderSlot(slot)
      modifies this`files, shared, s0, s1, primary, secondary
      ensures Valid()
      ensures Boot(env, io, running, slot, old(Snap()), Snap(), mounted, t, reboot)
    {
      t := Trace(Snap(), Snap(), Snap(), false, false, false, false);
      var fault: bool := *;
      var erased: bool := *;
      if fault && !io.mount {
        if erased {
          files := map[];
        }
        return false, false, t;
      }
      mounted := true;
      reboot, t := CheckUpdatesOnFs(slot, running);
    }
  }
}
