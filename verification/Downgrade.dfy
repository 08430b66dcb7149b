/**
 Image versions: what the downgrade check as written lets through, and what the
 check against the installed image would achieve.
 */
module Downgrade {
  import opened Bytes
  import opened Devices
  import opened ImageFormat
  import opened HwRev
  import opened ImgOp
  import opened FwInfo
  import opened VersionGate
  import opened UpdateSpec
  import opened Runs
  import opened Slots

  /** As written: the destination's header must load, and a loader must not be older than the built-in version. */
  lemma DowngradeAllowedIff(env: Env, p: Partition, hdr: Header, cells: seq<byte>)
    ensures DowngradeAllowed(env, p, hdr, cells) <==>
            && env.loadHeader(cells).Some?
            && (IsLoaderSlot(p) ==> Key(hdr.version, env.useBuildNumber) >= Key(env.loaderVersion, env.useBuildNumber))
  {
    VersionCmpIsOrder(hdr.version, hdr.version, env.useBuildNumber);
    VersionCmpIsOrder(hdr.version, env.loaderVersion, env.useBuildNumber);
  }

  /** The check with the destination's version as the second operand. */
  predicate DowngradeIntended(env: Env, p: Partition, hdr: Header, cells: seq<byte>) {
    && env.loadHeader(cells).Some?
    && VersionCmp(hdr.version, env.loadHeader(cells).value.version, env.useBuildNumber) >= 0
    && (IsLoaderSlot(p) ==> VersionCmp(hdr.version, env.loaderVersion, env.useBuildNumber) >= 0)
  }

  /**
   The check as written agrees with the intended one exactly when the file is
   not older than the installed image, or is refused as a loader anyway.
   */
  lemma DowngradeCheckGap(env: Env, p: Partition, hdr: Header, cells: seq<byte>)
    requires env.loadHeader(cells).Some?
    ensures DowngradeAllowed(env, p, hdr, cells) == DowngradeIntended(env, p, hdr, cells) <==>
            || Key(hdr.version, env.useBuildNumber) >= Key(env.loadHeader(cells).value.version, env.useBuildNumber)
            || (IsLoaderSlot(p) && Key(hdr.version, env.useBuildNumber) < Key(env.loaderVersion, env.useBuildNumber))
  {
    DowngradeAllowedIff(env, p, hdr, cells);
    VersionCmpIsOrder(hdr.version, env.loadHeader(cells).value.version, env.useBuildNumber);
    VersionCmpIsOrder(hdr.version, env.loaderVersion, env.useBuildNumber);
  }

  // ---------- installed versions ----------

  /**
   MCUboot's loading of a header: it depends on the header's bytes and on the
   size of the area only, and what it loads are those bytes.
   */
  ghost predicate LoadsHeaders(env: Env) {
    && (forall cells | env.loadHeader(cells).Some? ::
          |cells| >= HEADER_SIZE && env.loadHeader(cells).value == ParseHeader(cells))
    && (forall cells, cells' | HEADER_SIZE <= |cells| == |cells'| && cells[..HEADER_SIZE] == cells'[..HEADER_SIZE] ::
          env.loadHeader(cells) == env.loadHeader(cells'))
  }

  /** The validity word that a handoff programs lies behind the image header. */
  ghost predicate MarkBehindHeader(env: Env) {
    forall o | o in env.fw.offsets :: o + env.fw.validAt >= HEADER_SIZE
  }

  function HeaderKey(env: Env, hdr: Header): nat {
    Key(hdr.version, env.useBuildNumber)
  }

  /** The version of the image in a partition, if its header loads. */
  ghost function ImageVersion(env: Env, cells: seq<byte>): Option<nat> {
    match env.loadHeader(cells)
    case None => None
    case Some(hdr) => Some(HeaderKey(env, hdr))
  }

  /** Larger header bytes, larger version. */
  lemma KeyGrows(env: Env, a: seq<byte>, b: seq<byte>)
    requires |a| >= HEADER_SIZE && |b| >= HEADER_SIZE
    requires forall k | 0 <= k < HEADER_SIZE :: a[k] <= b[k]
    ensures HeaderKey(env, ParseHeader(a)) <= HeaderKey(env, ParseHeader(b))
  {
    assert a[20] <= b[20] && a[21] <= b[21];
    assert Le16(a, 22) <= Le16(b, 22) by {
      assert a[22] <= b[22] && a[23] <= b[23];
    }
    Le32Monotone(a, b, 24);
  }

  /** A prefix of a file on erased flash shows no lower version than the file's header. */
  lemma CopiedVersion(env: Env, data: seq<byte>, m: nat, size: nat, addr: u32)
    requires env.Valid() && LoadsHeaders(env) && m <= |data| <= size
    ensures var v := ImageVersion(env, Filled(data[..m], size));
            v.Some? ==> HeaderKey(env, CheckImage(env, addr, size, data).hdr) <= v.value
  {
    hide CheckImage, Key;
    var cells := Filled(data[..m], size);
    CheckedHeader(env, addr, size, data);
    ZeroKey(env);
    if env.loadHeader(cells).Some? && |data| >= HEADER_SIZE {
      KeyGrows(env, data, cells);
    }
  }

  lemma ZeroKey(env: Env)
    ensures HeaderKey(env, ZERO_HEADER) == 0
  {
  }

  lemma MarkKeepsHeader(env: Env, cells: seq<byte>)
    requires env.Valid() && env.fw.FitsIn(|cells|) && MarkBehindHeader(env) && |cells| >= HEADER_SIZE
    ensures Invalidated(env.fw, cells)[..HEADER_SIZE] == cells[..HEADER_SIZE]
  {
    hide FlashFindFrom, Programmed;
    FlashFindSound(env.fw, cells, 0);
    var f := FlashFind(env.fw, cells);
    if f.Some? {
      ProgrammedElsewhere(cells, f.value + env.fw.validAt, env.fw.invalidWord);
    }
  }

  /** Marking an image invalid keeps its version. */
  lemma MarkKeepsVersion(env: Env, cells: seq<byte>)
    requires env.Valid() && env.fw.FitsIn(|cells|) && LoadsHeaders(env) && MarkBehindHeader(env)
    ensures ImageVersion(env, Invalidated(env.fw, cells)) == ImageVersion(env, cells)
  {
    hide FlashFind, Programmed, Key;
    var marked := Invalidated(env.fw, cells);
    if |cells| >= HEADER_SIZE {
      MarkKeepsHeader(env, cells);
      assert env.loadHeader(marked) == env.loadHeader(cells);
    } else {
      assert env.loadHeader(marked).None? && env.loadHeader(cells).None?;
    }
  }

  /** If the event installed a file, the intended check had allowed it. */
  ghost predicate AllowedAsIntended(env: Env, s: State, e: Event, s': State, p: Partition)
    requires ValidState(env, s)
  {
    forall m: nat | InstalledBy(env, s, e, p, m, s'.flash.At(p)) ::
      DowngradeIntended(env, p, CheckImage(env, env.addr(p), env.size(p), s.files[FileFor(p)]).hdr, s.flash.At(p))
  }

  lemma IntendedIsNotOlder(env: Env, p: Partition, hdr: Header, cells: seq<byte>)
    requires DowngradeIntended(env, p, hdr, cells)
    ensures ImageVersion(env, cells).Some? && ImageVersion(env, cells).value <= HeaderKey(env, hdr)
  {
    VersionCmpIsOrder(hdr.version, env.loadHeader(cells).value.version, env.useBuildNumber);
  }

  /** One event under the intended check, with whatever faults. */
  lemma EventKeepsImageVersion(env: Env, s: State, e: Event, s': State, p: Partition)
    requires ValidState(env, s) && Step(env, s, e, s')
    requires LoadsHeaders(env) && (p == S0 ==> MarkBehindHeader(env))
    requires AllowedAsIntended(env, s, e, s', p)
    ensures NotOlder(ImageVersion(env, s.flash.At(p)), ImageVersion(env, s'.flash.At(p)))
  {
    hide Boot, CheckImage, DowngradeIntended, LoadsHeaders, GatePassed, ImageVersion;
    EventEffect(env, s, e, s', p);
    if InvalidatedBy(env, s, e, s', p) {
      assert |s.flash.At(p)| == env.size(p);
      MarkKeepsVersion(env, s.flash.At(p));
    } else if s'.flash.At(p) != s.flash.At(p) {
      var m: nat :| InstalledBy(env, s, e, p, m, s'.flash.At(p));
      var data := s.files[FileFor(p)];
      IntendedIsNotOlder(env, p, CheckImage(env, env.addr(p), env.size(p), data).hdr, s.flash.At(p));
      CopiedVersion(env, data, m, env.size(p), env.addr(p));
    }
  }

  /**
   With the destination's version as the second operand, the image version of
   a partition would never decrease: in every run, whatever fails in it, whose
   installed files that check allowed.
   */
  lemma IntendedCheckIsMonotone(env: Env, ss: seq<State>, es: seq<Event>, p: Partition, i: nat, j: nat)
    requires IsRun(env, ss, es) && i <= j < |ss|
    requires LoadsHeaders(env) && (p == S0 ==> MarkBehindHeader(env))
    requires forall k | 0 <= k < |es| :: AllowedAsIntended(env, ss[k], es[k], ss[k + 1], p)
    ensures NotOlder(ImageVersion(env, ss[i].flash.At(p)), ImageVersion(env, ss[j].flash.At(p)))
  {
    hide Step, AllowedAsIntended, LoadsHeaders, ImageVersion;
    var vs := seq(|ss|, k requires 0 <= k < |ss| => ImageVersion(env, ss[k].flash.At(p)));
    forall k | i <= k < j ensures NotOlder(vs[k], vs[k + 1]) {
      EventKeepsImageVersion(env, ss[k], es[k], ss[k + 1], p);
    }
    NotOlderChain(vs, i, j);
  }

  // ---------- downgrades ----------

  /** Is the header in the file of a lower version than the one in the partition? */
  ghost predicate LowerVersion(env: Env, data: seq<byte>, cells: seq<byte>) {
    && |data| >= HEADER_SIZE && env.loadHeader(cells).Some?
    && HeaderKey(env, ParseHeader(data)) < HeaderKey(env, env.loadHeader(cells).value)
  }

  lemma FilledVersion(env: Env, data: seq<byte>, size: nat)
    requires LoadsHeaders(env) && HEADER_SIZE <= |data| <= size && env.loadHeader(Filled(data, size)).Some?
    ensures ImageVersion(env, Filled(data, size)) == Some(HeaderKey(env, ParseHeader(data)))
  {
    var cells := Filled(data, size);
    assert cells[..HEADER_SIZE] == data[..HEADER_SIZE];
    ParseHeaderPrefix(cells);
    ParseHeaderPrefix(data);
  }

  /** A file that passes the gate has a header, if only because of its firmware structure. */
  lemma PassedHasHeader(env: Env, running: Rev, s: State, p: Partition)
    requires ValidState(env, s) && Passes(env, running, s, p)
    requires IsLoaderSlot(p) ==> MarkBehindHeader(env)
    ensures |s.files[FileFor(p)]| >= HEADER_SIZE
  {
    hide B0Accepts, CheckBody, NameFits, DowngradeAllowed;
    if IsLoaderSlot(p) {
      var data := s.files[FileFor(p)];
      FileFindSound(env.fw, data, 0);
      assert FileFind(env.fw, data).value in env.fw.offsets;
    }
  }

  /** Does a working boot of the slot copy its file to the partition? */
  ghost predicate Installs(env: Env, running: Rev, slot: Partition, s: State, p: Partition)
    requires ValidState(env, s)
  {
    && p != slot && Passes(env, running, s, p) && |s.files[FileFor(p)]| <= env.size(p)
    && (IsLoaderSlot(p) || !HandsOver(env, running, slot, s))
  }

  /** Does the partition show an image version, and a lower one than before? */
  ghost predicate VersionFell(env: Env, before: seq<byte>, after: seq<byte>) {
    var v, v' := ImageVersion(env, before), ImageVersion(env, after);
    v.Some? && v'.Some? && v'.value < v.value
  }

  /** A working boot writes to a partition what it installs, or marks s0. */
  lemma WorkingContents(env: Env, s: State, e: Event, s': State, p: Partition)
    requires ValidState(env, s) && Step(env, s, e, s') && e.BootEvent? && e.io == ALL_OK
    ensures Installs(env, e.running, e.slot, s, p) ==>
              s'.flash.At(p) == Filled(s.files[FileFor(p)], env.size(p))
    ensures !Installs(env, e.running, e.slot, s, p) ==>
              s'.flash.At(p) == s.flash.At(p)
              || (p == S0 && |s.flash.At(p)| == env.size(p) && s'.flash.At(p) == Invalidated(env.fw, s.flash.At(p)))
  {
    hide Boot, Passes, HandsOver, Invalidated;
    WorkingBoot(env, s, e, s');
    assert |s.flash.At(S0)| == env.size(S0);
    assert p == e.slot || p == OtherSlot(e.slot) || !IsLoaderSlot(p);
  }

  /**
   Exactly when the updater lowers the image version of a partition, loader
   slots included: a working boot installs a file that passes the gate, whose
   header is of a lower version and loads from where it is copied to.
   */
  lemma VersionLoweredIff(env: Env, s: State, e: Event, s': State, p: Partition)
    requires ValidState(env, s) && Step(env, s, e, s') && e.BootEvent? && e.io == ALL_OK
    requires LoadsHeaders(env) && (IsLoaderSlot(p) ==> MarkBehindHeader(env))
    ensures VersionFell(env, s.flash.At(p), s'.flash.At(p))
            <==>
            && Installs(env, e.running, e.slot, s, p)
            && env.loadHeader(Filled(s.files[FileFor(p)], env.size(p))).Some?
            && LowerVersion(env, s.files[FileFor(p)], s.flash.At(p))
  {
    hide Boot, PassesGate, HandsOver, Key, LoadsHeaders, MarkBehindHeader, Invalidated;
    WorkingContents(env, s, e, s', p);
    if Installs(env, e.running, e.slot, s, p) {
      PassedHasHeader(env, e.running, s, p);
      var data := s.files[FileFor(p)];
      if env.loadHeader(Filled(data, env.size(p))).Some? {
        FilledVersion(env, data, env.size(p));
      }
    } else if s'.flash.At(p) != s.flash.At(p) {
      MarkKeepsVersion(env, s.flash.At(p));
    }
  }

  /**
   Such boots exist: from every state with no other file, an application that
   passes the gate and has a lower version is installed, followed by a reboot.
   */
  lemma DowngradeExists(env: Env, running: Rev, slot: Partition, s: State) returns (e: Event, s': State)
    requires ValidState(env, s) && IsLoaderSlot(slot) && LoadsHeaders(env)
    requires forall n: FileName :: n in s.files <==> n == AppFile
    requires Passes(env, running, s, Primary) && |s.files[AppFile]| <= env.size(Primary)
    requires LowerVersion(env, s.files[AppFile], s.flash.At(Primary))
    requires env.loadHeader(Filled(s.files[AppFile], env.size(Primary))).Some?
    ensures Step(env, s, e, s') && e.BootEvent? && e.slot == slot && e.io == ALL_OK && e.reboot
    ensures VersionFell(env, s.flash.At(Primary), s'.flash.At(Primary))
  {
    hide Passes, Updated, Prechecked, Key;
    s' := CopyPart(env, ALL_OK, running, s, Primary, |s.files[AppFile]|);
    assert s.files[AppFile][..|s.files[AppFile]|] == s.files[AppFile];
    NothingToDo(env, running, s, FileFor(OtherSlot(slot)), OtherSlot(slot));
    NothingToDo(env, running, s, FileFor(slot), slot);
    NothingToDo(env, running, s, LoaderFile, Secondary);
    e := BootEvent(slot, running, ALL_OK, true, Trace(s, s, s, false, false, false, true), true);
    assert LoaderStep(env, ALL_OK, running, slot, s, s, s, false, false);
    assert ImageStep(env, ALL_OK, running, s, s, s', false, true);
    PassedHasHeader(env, running, s, Primary);
    FilledVersion(env, s.files[AppFile], env.size(Primary));
  }

  lemma NothingToDo(env: Env, running: Rev, s: State, name: FileName, p: Partition)
    requires ValidState(env, s) && name !in s.files
    ensures Updated(env, ALL_OK, running, s, s, name, p, IsLoaderSlot(p), false)
    ensures Prechecked(env, ALL_OK, running, s, s, name, p, false)
  {
    hide Gate, HandoffGate;
  }
}
