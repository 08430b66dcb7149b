/**
 The two loader slots over runs: which of them the first stage can start, and
 what updates and the handoff between them do to that.
 */
module Slots {
  import opened Bytes
  import opened HwRev
  import opened ImgOp
  import opened FwInfo
  import opened UpdateSpec
  import opened Runs

  /** Would the first stage start this slot? */
  ghost predicate Bootable(env: Env, s: State, slot: Partition)
    requires ValidState(env, s)
  {
    B0Accepts(env, env.addr(slot), s.flash.At(slot))
  }

  // ---------- installing a loader ----------

  /**
   A loader file that would pass the check over the present buffer, and is not
   too old, is also accepted with erased flash behind it.
   */
  ghost predicate InstallsBootable(env: Env, s: State, p: Partition)
    requires ValidState(env, s)
  {
    FileFor(p) in s.files ==>
      var data, cells := s.files[FileFor(p)], s.flash.At(p);
      |data| <= |cells| && B0Gate(env, env.addr(p), data, s.shared) && VersionFits(env, data, cells) ==>
        B0Accepts(env, env.addr(p), Filled(data, |cells|))
  }

  /** The first stage's verdict on a file does not depend on the bytes behind it. */
  ghost predicate SelfContained(env: Env, p: Partition, data: seq<byte>)
    requires env.Valid()
  {
    forall t: seq<byte>, t': seq<byte> | |data| + |t| == env.BufSize() == |data| + |t'| ::
      B0Accepts(env, env.addr(p), data + t) == B0Accepts(env, env.addr(p), data + t')
  }

  /** Files on which the verdict does not depend on the bytes behind them install bootable loaders. */
  lemma SelfContainedInstallsBootable(env: Env, s: State, p: Partition)
    requires ValidState(env, s) && IsLoaderSlot(p)
    requires FileFor(p) in s.files ==> SelfContained(env, p, s.files[FileFor(p)])
    ensures InstallsBootable(env, s, p)
  {
    hide B0Accepts, FileVersion, FlashVersion;
    assert |s.flash.At(p)| == env.size(p) == env.BufSize();
    if FileFor(p) in s.files && |s.files[FileFor(p)]| <= env.size(p) {
      var data := s.files[FileFor(p)];
      var t, t' := s.shared[|data|..], Ones(env.size(p) - |data|);
      assert B0Accepts(env, env.addr(p), data + t) == B0Accepts(env, env.addr(p), data + t');
    }
  }

  /** What an event can do to a loader slot when flash operations complete. */
  lemma LoaderSlotAfterEvent(env: Env, s: State, e: Event, s': State, p: Partition)
    requires ValidState(env, s) && Step(env, s, e, s') && IsLoaderSlot(p)
    requires InstallsBootable(env, s, p) && FlashCompletes(e)
    ensures Bootable(env, s', p) || s'.flash.At(p) == s.flash.At(p) || InvalidatedBy(env, s, e, s', p)
  {
    hide Boot, B0Accepts, FileVersion, FlashVersion, Gate;
    EventEffect(env, s, e, s', p);
    if s'.flash.At(p) != s.flash.At(p) && !InvalidatedBy(env, s, e, s', p) {
      var m: nat :| InstalledBy(env, s, e, p, m, s'.flash.At(p));
      var data := s.files[FileFor(p)];
      assert data[..m] == data && |s.flash.At(p)| == env.size(p);
    }
  }

  /**
   The bootable slot s1 stays bootable in every run whose flash operations
   complete, unless a file is installed that the first stage accepts only over
   what happens to stand in the buffer.
   */
  lemma S1StaysBootable(env: Env, ss: seq<State>, es: seq<Event>, i: nat)
    requires IsRun(env, ss, es) && i < |ss|
    requires forall k | 0 <= k < |es| :: FlashCompletes(es[k]) && InstallsBootable(env, ss[k], S1)
    requires Bootable(env, ss[0], S1)
    ensures Bootable(env, ss[i], S1)
  {
    hide Step, B0Accepts, InstallsBootable;
    var bootable := seq(|ss|, k requires 0 <= k < |ss| => Bootable(env, ss[k], S1));
    forall k | 0 <= k < i ensures bootable[k] ==> bootable[k + 1] {
      LoaderSlotAfterEvent(env, ss[k], es[k], ss[k + 1], S1);
    }
    KeptChain(bootable, 0, i);
  }

  /**
   With the same exception, s0 stops being bootable in one way only: a boot of
   it marks it invalid to hand an update over, whose file is then still there.
   */
  lemma S0LostOnlyByHandoff(env: Env, s: State, e: Event, s': State)
    requires ValidState(env, s) && Step(env, s, e, s')
    requires InstallsBootable(env, s, S0) && FlashCompletes(e)
    requires Bootable(env, s, S0) && !Bootable(env, s', S0)
    ensures e.BootEvent? && e.slot == S0 && e.reboot && Mcuboot0File in s'.files
  {
    hide B0Accepts, InstallsBootable;
    LoaderSlotAfterEvent(env, s, e, s', S0);
  }

  /** A file for a loader slot that passes the gate fits. */
  lemma PassingLoaderFits(env: Env, running: Rev, s: State, p: Partition)
    requires ValidState(env, s) && IsLoaderSlot(p) && Passes(env, running, s, p)
    ensures |s.files[FileFor(p)]| <= env.size(p)
  {
  }

  /**
   Exactly when the other slot is bootable after a boot in which everything
   works: its file, if it passes the gate, must be accepted with erased flash
   behind it; without such a file it must have been bootable before.
   */
  lemma OtherSlotBootableIff(env: Env, s: State, e: Event, s': State)
    requires ValidState(env, s) && Step(env, s, e, s') && e.BootEvent? && e.io == ALL_OK
    ensures var p := OtherSlot(e.slot);
            Passes(env, e.running, s, p) ==> |s.files[FileFor(p)]| <= env.size(p)
    ensures var p := OtherSlot(e.slot);
            Bootable(env, s', p) <==>
              if Passes(env, e.running, s, p) then B0Accepts(env, env.addr(p), Filled(s.files[FileFor(p)], env.size(p)))
              else Bootable(env, s, p)
  {
    hide Boot, B0Accepts, PassesGate, HandsOver;
    WorkingBoot(env, s, e, s');
    if Passes(env, e.running, s, OtherSlot(e.slot)) {
      PassingLoaderFits(env, e.running, s, OtherSlot(e.slot));
    }
  }

  /** A truncated loader passes the first stage's check while the buffer still holds the whole one. */
  lemma TruncatedFilePasses(env: Env, addr: u32, full: seq<byte>, m: nat)
    requires env.Valid() && m <= |full| == env.BufSize() && B0Accepts(env, addr, full)
    ensures B0Gate(env, addr, full[..m], full)
  {
    hide B0Accepts;
    assert full[..m] + full[m..] == full;
  }

  /**
   The failing input: a truncated file of s1 over a buffer that holds the whole
   loader is installed without any fault, and s1 is lost unless the first stage
   accepts the truncated loader on erased flash.
   */
  lemma TruncatedFileLosesS1(env: Env, s: State, e: Event, s': State, m: nat)
    requires ValidState(env, s) && Step(env, s, e, s') && e.BootEvent? && e.slot == S0 && e.io == ALL_OK
    requires m <= |s.shared| && B0Accepts(env, env.addr(S1), s.shared)
    requires Mcuboot1File in s.files && s.files[Mcuboot1File] == s.shared[..m]
    requires var check := CheckImage(env, env.addr(S1), env.size(S1), s.shared[..m]);
             ContentGate(env, e.running, S1, check.hdr, check.rev, s.shared[..m], s.flash.At(S1))
    requires m <= env.size(S1) && !B0Accepts(env, env.addr(S1), Filled(s.shared[..m], env.size(S1)))
    ensures s'.flash.At(S1) == Filled(s.shared[..m], env.size(S1)) && !Bootable(env, s', S1)
  {
    hide Boot, B0Accepts, CheckImage, ContentGate, HandsOver;
    TruncatedFilePasses(env, env.addr(S1), s.shared, m);
    assert Passes(env, e.running, s, S1);
    WorkingBoot(env, s, e, s');
  }

  // ---------- the handoff to the other slot and back ----------

  /** What a handoff leaves of the slot that hands over. */
  ghost function Marked(env: Env, slot: Partition, cells: seq<byte>): (r: seq<byte>)
    requires env.Valid() && env.fw.FitsIn(|cells|)
    ensures |r| == |cells|
  {
    if slot == S0 then Invalidated(env.fw, cells) else cells
  }

  /** Would the other loader install the file that the slot handed over? */
  ghost predicate Restores(env: Env, slot: Partition, data: seq<byte>, cells: seq<byte>)
    requires env.Valid() && env.fw.FitsIn(|cells|)
  {
    && VersionFits(env, data, cells)
    && (env.downgradePrevention ==>
          DowngradeAllowed(
            env, slot, CheckImage(env, env.addr(slot), env.size(slot), data).hdr, Marked(env, slot, cells)))
  }

  /** The gate after the handoff asks what the handoff asked, and about the version. */
  lemma PassesAfterHandoff(env: Env, running: Rev, slot: Partition, s: State, s': State)
    requires ValidState(env, s) && ValidState(env, s') && IsLoaderSlot(slot) && HandsOver(env, running, slot, s)
    requires FileFor(slot) in s'.files && s'.files[FileFor(slot)] == s.files[FileFor(slot)]
    requires s'.shared == Loaded(s.files[FileFor(slot)], BufferAtCheck(env, slot, s))
    requires |s.flash.At(slot)| == env.size(slot) && s'.flash.At(slot) == Marked(env, slot, s.flash.At(slot))
    ensures Passes(env, running, s', slot) <==> Restores(env, slot, s.files[FileFor(slot)], s.flash.At(slot))
  {
    hide B0Accepts, CheckImage, DowngradeAllowed, FlashVersion, Invalidated, Loaded, BufferAtCheck;
    LoadedTwice(s.files[FileFor(slot)], BufferAtCheck(env, slot, s));
    InvalidatedKeepsVersion(env.fw, s.flash.At(slot));
  }

  /** The state after a handoff and the boot of the other slot. */
  ghost predicate HandoffResult(env: Env, running: Rev, slot: Partition, s: State, s'': State)
    requires ValidState(env, s) && FileFor(slot) in s.files
  {
    var data, cells := s.files[FileFor(slot)], s.flash.At(slot);
    && |data| <= |cells| == env.size(slot)
    && s''.flash.At(slot)
       == (if Restores(env, slot, data, cells) then Filled(data, |cells|) else Marked(env, slot, cells))
    && (forall p | p != slot :: s''.flash.At(p) == AfterUpdate(env, running, s, p))
    && s''.files == map[]
  }

  lemma BootAfterHandoff(env: Env, s: State, e: Event, s': State, e': Event, s'': State)
    requires ValidState(env, s) && ValidState(env, s') && ValidState(env, s'')
    requires e.BootEvent? && e'.BootEvent? && e.running == e'.running
    requires IsLoaderSlot(e.slot) && e'.slot == OtherSlot(e.slot) && HandsOver(env, e.running, e.slot, s)
    requires WorkingOutcome(env, e.running, e.slot, s, s', e.reboot)
    requires WorkingOutcome(env, e.running, e'.slot, s', s'', e'.reboot)
    ensures HandoffResult(env, e.running, e.slot, s, s'')
  {
    hide B0Accepts, CheckImage, PassesGate, Restores, Invalidated, HandoffGate, Loaded, BufferAtCheck;
    var slot, data := e.slot, s.files[FileFor(e.slot)];
    assert |s.flash.At(slot)| == env.size(slot);
    assert !HandsOver(env, e.running, e'.slot, s');
    PassesAfterHandoff(env, e.running, slot, s, s');
    HandedOverFits(env, e.running, slot, s);
    forall p | !IsLoaderSlot(p) ensures s''.flash.At(p) == AfterUpdate(env, e.running, s, p) {
      PassesLater(env, e.running, s, s', p);
    }
  }

  lemma HandedOverFits(env: Env, running: Rev, slot: Partition, s: State)
    requires ValidState(env, s) && IsLoaderSlot(slot) && HandsOver(env, running, slot, s)
    ensures |s.files[FileFor(slot)]| <= env.size(slot)
  {
  }

  /**
   The two boots of a handoff when everything works: the other loader installs
   the file only if it also passes the version and downgrade checks, which the
   handoff does not make. Otherwise the slot keeps its contents, s0 with the
   invalid mark, and the file is gone. The other partitions are updated as if
   there had been no handoff.
   */
  lemma HandoffOutcome(env: Env, s: State, e: Event, s': State, e': Event, s'': State)
    requires ValidState(env, s) && Step(env, s, e, s') && Step(env, s', e', s'')
    requires e.BootEvent? && e'.BootEvent? && e.io == e'.io == ALL_OK && e.running == e'.running
    requires e'.slot == OtherSlot(e.slot) && HandsOver(env, e.running, e.slot, s)
    ensures HandoffResult(env, e.running, e.slot, s, s'')
    ensures var data, cells := s.files[FileFor(e.slot)], s.flash.At(e.slot);
            Bootable(env, s'', e.slot) <==>
              B0Accepts(env, env.addr(e.slot),
                        if Restores(env, e.slot, data, cells) then Filled(data, |cells|)
                        else Marked(env, e.slot, cells))
  {
    hide Boot, B0Accepts, Restores, Invalidated, WorkingOutcome, HandsOver, AfterUpdate;
    WorkingBoot(env, s, e, s');
    WorkingBoot(env, s', e', s'');
    BootAfterHandoff(env, s, e, s', e', s'');
  }

  // ---------- whether a bootable slot remains ----------

  /** Whatever fails, a boot leaves its own slot as it was, except for the mark of a handoff from s0. */
  lemma RunningSlotUntouched(env: Env, s: State, e: Event, s': State)
    requires ValidState(env, s) && Step(env, s, e, s') && e.BootEvent?
    ensures s'.flash.At(e.slot) == s.flash.At(e.slot) || InvalidatedBy(env, s, e, s', e.slot)
  {
    EventEffect(env, s, e, s', e.slot);
  }

  ghost predicate SomeBootable(env: Env, s: State)
    requires ValidState(env, s)
  {
    Bootable(env, s, S0) || Bootable(env, s, S1)
  }

  /** Is s1 sure to be bootable after its update, or without one? */
  ghost predicate S1Survives(env: Env, io: Io, running: Rev, s: State)
    requires ValidState(env, s)
  {
    if Passes(env, running, s, S1) then
      var data := s.files[Mcuboot1File];
      |data| <= env.size(S1) && io.flash && B0Accepts(env, env.addr(S1), Filled(data, env.size(S1)))
    else Bootable(env, s, S1)
  }

  /**
   What keeps a slot bootable in a boot of s0: no handoff, a mark that the
   first stage ignores, or an s1 that survives.
   */
  ghost predicate KeepsSlot(env: Env, io: Io, running: Rev, s: State)
    requires ValidState(env, s)
  {
    || !HandsOver(env, running, S0, s)
    || B0Accepts(env, env.addr(S0), Invalidated(env.fw, s.flash.At(S0)))
    || S1Survives(env, io, running, s)
  }

  /** A boot of a slot with these faults. */
  ghost predicate BootsSlot(e: Event, slot: Partition, running: Rev, io: Io) {
    e.BootEvent? && e.slot == slot && e.running == running && e.io == io
  }

  /** The update of s1 in a boot of s0. */
  lemma S1AfterUpdate(env: Env, io: Io, running: Rev, s: State, s': State, updated: bool)
    requires ValidState(env, s) && ValidState(env, s')
    requires Updated(env, io, running, s, s', Mcuboot1File, S1, true, updated)
    requires ChecksWork(io) && S1Survives(env, io, running, s)
    ensures Bootable(env, s', S1)
  {
    hide B0Accepts, ContentGate, CopyLeaves, FileJudged, SomeVersionFits, DowngradeJudged, VersionFits;
    assert |s.flash.At(S1)| == env.size(S1);
  }

  lemma SlotKept(env: Env, io: Io, running: Rev, s: State, e: Event, s': State)
    requires ValidState(env, s) && Step(env, s, e, s') && BootsSlot(e, S0, running, io)
    requires ChecksWork(io) && Bootable(env, s, S0) && KeepsSlot(env, io, running, s)
    ensures SomeBootable(env, s')
  {
    hide B0Accepts, HandsOver, S1Survives, Updated, FileJudged, HandoffGate, Invalidated;
    RunningSlotUntouched(env, s, e, s');
    if InvalidatedBy(env, s, e, s', S0) && s'.flash.At(S0) != s.flash.At(S0) {
      HandoffDecided(env, s, e, s');
      if !B0Accepts(env, env.addr(S0), Invalidated(env.fw, s.flash.At(S0))) {
        S1AfterUpdate(env, io, running, s, e.trace.s1, e.trace.own);
        assert s'.flash.At(S1) == e.trace.s1.flash.At(S1);
      }
    }
  }

  /** The first stage does not start erased flash. */
  lemma ErasedNotBootable(env: Env, addr: u32, size: nat)
    requires env.Valid() && env.fw.FitsIn(size)
    ensures !B0Accepts(env, addr, Ones(size))
  {
    assert Filled([][..0], size) == Ones(size);
    NothingBehind(env.fw, [], 0, size, 0);
  }

  /** Partition p of a flash with other contents. */
  function WithCells(flash: Flash, p: Partition, cells: seq<byte>): (r: Flash)
    ensures r.At(p) == cells && forall q: Partition | q != p :: r.At(q) == flash.At(q)
  {
    match p
    case S0 => flash.(s0 := cells)
    case S1 => flash.(s1 := cells)
    case Primary => flash.(primary := cells)
    case Secondary => flash.(secondary := cells)
  }

  /** What a file that passes the gate passes under any faults. */
  lemma PassedIsJudged(env: Env, io: Io, running: Rev, s: State, p: Partition)
    requires ValidState(env, s) && Passes(env, running, s, p)
    ensures GatePassed(env, io, running, s, s.files[FileFor(p)], p)
  {
    hide B0Accepts, DowngradeAllowed, FileHeader;
    var data := s.files[FileFor(p)];
    assert |s.flash.At(p)| == env.size(p);
    FirstVersionFits(env, data, s.flash.At(p));
    CheckedHeader(env, env.addr(p), env.size(p), data);
  }

  /** An update that writes the first m bytes only; all of them, if writes succeed. */
  lemma CopyPart(env: Env, io: Io, running: Rev, s: State, p: Partition, m: nat) returns (s': State)
    requires ValidState(env, s) && Passes(env, running, s, p)
    requires m <= |s.files[FileFor(p)]| <= env.size(p) && (io.flash ==> m == |s.files[FileFor(p)]|)
    ensures ValidState(env, s') && Updated(env, io, running, s, s', FileFor(p), p, IsLoaderSlot(p), true)
    ensures s'.flash == WithCells(s.flash, p, Filled(s.files[FileFor(p)][..m], env.size(p)))
    ensures s'.files == s.files - {FileFor(p)}
    ensures s'.shared == BufferAfter(env, env.size(p), IsLoaderSlot(p), s.files, FileFor(p), s.shared)
  {
    hide B0Accepts, Gate, FileJudged, SomeVersionFits, DowngradeJudged, VersionFits, Loaded;
    var data, cells := s.files[FileFor(p)], s.flash.At(p);
    assert |cells| == env.size(p) && data[..|data|] == data;
    PassedIsJudged(env, io, running, s, p);
    s' := State(WithCells(s.flash, p, Filled(data[..m], env.size(p))), s.files - {FileFor(p)},
                BufferAfter(env, env.size(p), IsLoaderSlot(p), s.files, FileFor(p), s.shared));
    assert CopyLeaves(cells, data, s'.flash.At(p));
    forall q: Partition ensures |s'.flash.At(q)| == env.size(q) {
      assert q != p ==> s'.flash.At(q) == s.flash.At(q);
    }
  }

  /** A refused update. */
  lemma RefusedUpdate(env: Env, io: Io, running: Rev, s: State, p: Partition) returns (s': State)
    requires ValidState(env, s) && !Passes(env, running, s, p)
    ensures ValidState(env, s') && Updated(env, io, running, s, s', FileFor(p), p, IsLoaderSlot(p), false)
    ensures s'.flash == s.flash && s'.files == s.files - {FileFor(p)}
    ensures s'.shared == BufferAfter(env, env.size(p), IsLoaderSlot(p), s.files, FileFor(p), s.shared)
  {
    hide Gate, Loaded;
    s' := State(s.flash, s.files - {FileFor(p)},
                BufferAfter(env, env.size(p), IsLoaderSlot(p), s.files, FileFor(p), s.shared));
    forall q: Partition ensures |s'.flash.At(q)| == env.size(q) {
      assert |s.flash.At(q)| == env.size(q);
    }
  }

  /** The end of a boot of s0 that hands over. */
  lemma HandoffOver(env: Env, io: Io, running: Rev, s: State) returns (s1: State, s2: State)
    requires ValidState(env, s) && Mcuboot0File in s.files
    requires HandoffGate(env, running, S0, s.files[Mcuboot0File], s.shared)
    ensures ValidState(env, s1) && Prechecked(env, io, running, s, s1, Mcuboot0File, S0, true)
    ensures ValidState(env, s2) && MarkedInvalid(env, io, s1, s2)
    ensures s2.flash == WithCells(s.flash, S0, Invalidated(env.fw, s.flash.At(S0)))
  {
    hide B0Accepts, CheckImage, Loaded, Invalidated;
    assert |s.flash.At(S0)| == env.size(S0);
    s1 := s.(shared := BufferAfter(env, env.size(S0), true, s.files, Mcuboot0File, s.shared));
    s2 := s1.(flash := WithCells(s.flash, S0, Invalidated(env.fw, s.flash.At(S0))));
    forall p: Partition ensures |s1.flash.At(p)| == |s2.flash.At(p)| == env.size(p) {
      assert p != S0 ==> s2.flash.At(p) == s.flash.At(p);
      assert |s.flash.At(p)| == env.size(p);
    }
  }

  /** The update of s1 that loses it, when nothing lets it survive. */
  lemma LosingUpdate(env: Env, io: Io, running: Rev, s: State) returns (s1: State)
    requires ValidState(env, s) && !S1Survives(env, io, running, s)
    ensures ValidState(env, s1) && !Bootable(env, s1, S1) && s1.flash.At(S0) == s.flash.At(S0)
    ensures Updated(env, io, running, s, s1, Mcuboot1File, S1, true, Passes(env, running, s, S1))
    ensures s1.files == s.files - {Mcuboot1File} && s1.shared == BufferAtCheck(env, S0, s)
  {
    hide B0Accepts, PassesGate, Updated, Loaded;
    if Passes(env, running, s, S1) {
      PassingLoaderFits(env, running, s, S1);
      var data := s.files[Mcuboot1File];
      var m := if io.flash then |data| else 0;
      s1 := CopyPart(env, io, running, s, S1, m);
      assert data[..|data|] == data;
      assert Filled(data[..0], env.size(S1)) == Ones(env.size(S1));
      ErasedNotBootable(env, env.addr(S1), env.size(S1));
    } else {
      s1 := RefusedUpdate(env, io, running, s, S1);
    }
  }

  /** From every state where nothing keeps a slot, one boot of s0 can lose both. */
  lemma BothSlotsCanBeLost(env: Env, io: Io, running: Rev, s: State) returns (e: Event, s': State)
    requires ValidState(env, s) && !KeepsSlot(env, io, running, s)
    ensures Step(env, s, e, s') && BootsSlot(e, S0, running, io) && !SomeBootable(env, s')
  {
    hide B0Accepts, HandoffGate, Passes, S1Survives, Updated, Prechecked, Invalidated, BufferAtCheck;
    var s1 := LosingUpdate(env, io, running, s);
    var s2;
    s2, s' := HandoffOver(env, io, running, s1);
    var own := Passes(env, running, s, S1);
    e := BootEvent(S0, running, io, true, Trace(s1, s2, s2, own, true, false, false), true);
    assert LoaderStep(env, io, running, S0, s, s1, s2, own, true);
  }

  /** Does every boot of s0 with these faults leave a bootable slot? */
  ghost predicate SlotAlwaysRemains(env: Env, io: Io, running: Rev, s: State)
    requires ValidState(env, s)
  {
    forall e, s' | Step(env, s, e, s') && BootsSlot(e, S0, running, io) :: SomeBootable(env, s')
  }

  /**
   When a bootable slot is sure to remain, whatever flash operations fail: every
   boot of a bootable s0 leaves one if and only if the state before it has no
   file to hand over, or a mark without effect, or an s1 that survives.
   */
  lemma SlotRemainsIff(env: Env, io: Io, running: Rev, s: State)
    requires ValidState(env, s) && Bootable(env, s, S0) && ChecksWork(io)
    ensures SlotAlwaysRemains(env, io, running, s) <==> KeepsSlot(env, io, running, s)
  {
    hide Boot, KeepsSlot, SomeBootable;
    if KeepsSlot(env, io, running, s) {
      forall e, s' | Step(env, s, e, s') && BootsSlot(e, S0, running, io) ensures SomeBootable(env, s') {
        SlotKept(env, io, running, s, e, s');
      }
    } else {
      var e, s' := BothSlotsCanBeLost(env, io, running, s);
    }
  }

  /** Without any fault too, one boot of s0 leaves no bootable slot exactly from those states. */
  lemma WorkingBootKeepsSlotIff(env: Env, s: State, e: Event, s': State)
    requires ValidState(env, s) && Step(env, s, e, s') && e.BootEvent? && e.slot == S0 && e.io == ALL_OK
    requires Bootable(env, s, S0)
    ensures SomeBootable(env, s') <==> KeepsSlot(env, ALL_OK, e.running, s)
  {
    hide Boot, B0Accepts, PassesGate, HandsOver, Invalidated, AfterUpdate;
    WorkingBoot(env, s, e, s');
    OtherSlotBootableIff(env, s, e, s');
  }

  // ---------- loader files that were not checked ----------

  /** Everything that lets a loader file in that fails the first stage's check: the old buffer is judged for it. */
  ghost predicate OldBufferPasses(env: Env, io: Io, s: State, p: Partition)
    requires ValidState(env, s)
  {
    && !io.read && FileFor(p) in s.files
    && var data, cells := s.files[FileFor(p)], s.flash.At(p);
    && !FileGate(env, env.addr(p), env.size(p), true, data, s.shared)
    && B0Accepts(env, env.addr(p), s.shared)
    && SomeVersionFits(env, data, cells) && DowngradeJudged(env, p, data, cells)
  }

  /** Had every file that such a boot installs as a loader passed the first stage's check? */
  ghost predicate InstallsCheckedOnly(env: Env, io: Io, running: Rev, slot: Partition, s: State)
    requires ValidState(env, s)
  {
    var p := OtherSlot(slot);
    forall e, s' | Step(env, s, e, s') && BootsSlot(e, slot, running, io) && e.mounted && e.trace.own ::
      FileFor(p) in s.files && FileGate(env, env.addr(p), env.size(p), true, s.files[FileFor(p)], s.shared)
  }

  lemma FaultyRefusal(env: Env, io: Io, running: Rev, s: State, name: FileName, p: Partition, b0: bool)
    returns (s': State)
    requires ValidState(env, s) && !ChecksWork(io)
    ensures ValidState(env, s') && s' == s.(files := s.files - {name})
    ensures Updated(env, io, running, s, s', name, p, b0, false)
    ensures Prechecked(env, io, running, s, s', name, p, false)
  {
    s' := s.(files := s.files - {name});
    forall q: Partition ensures |s'.flash.At(q)| == env.size(q) {
      assert |s.flash.At(q)| == env.size(q);
    }
  }

  lemma UncheckedUpdate(env: Env, io: Io, running: Rev, s: State, p: Partition) returns (s': State)
    requires ValidState(env, s) && IsLoaderSlot(p) && OldBufferPasses(env, io, s, p)
    ensures ValidState(env, s') && Updated(env, io, running, s, s', FileFor(p), p, true, true)
    ensures |s.files[FileFor(p)]| <= env.size(p) ==> s'.flash.At(p) == Filled(s.files[FileFor(p)], env.size(p))
  {
    hide B0Accepts, FileGate, SomeVersionFits, DowngradeJudged, VersionFits;
    var data, cells := s.files[FileFor(p)], s.flash.At(p);
    assert |cells| == env.size(p) && data[..|data|] == data;
    var cells' := if |data| <= |cells| then Filled(data, |cells|) else cells;
    s' := State(WithCells(s.flash, p, cells'), s.files - {FileFor(p)}, s.shared);
    assert CopyLeaves(cells, data, s'.flash.At(p));
    forall q: Partition ensures |s'.flash.At(q)| == env.size(q) {
      assert q != p ==> s'.flash.At(q) == s.flash.At(q);
    }
  }

  lemma FailsCheck(env: Env, io: Io, s: State, p: Partition)
    requires ValidState(env, s) && OldBufferPasses(env, io, s, p)
    ensures !ChecksWork(io) && FileFor(p) in s.files
    ensures !FileGate(env, env.addr(p), env.size(p), true, s.files[FileFor(p)], s.shared)
  {
  }

  /** A boot that installs a loader file which fails the first stage's check. */
  lemma UncheckedBoot(env: Env, io: Io, running: Rev, slot: Partition, s: State) returns (e: Event, s': State)
    requires ValidState(env, s) && IsLoaderSlot(slot) && OldBufferPasses(env, io, s, OtherSlot(slot))
    ensures Step(env, s, e, s') && BootsSlot(e, slot, running, io) && e.mounted && e.trace.own
    ensures var p := OtherSlot(slot);
            |s.files[FileFor(p)]| <= env.size(p) ==> s'.flash.At(p) == Filled(s.files[FileFor(p)], env.size(p))
  {
    hide OldBufferPasses, Updated, Prechecked;
    FailsCheck(env, io, s, OtherSlot(slot));
    var s1 := UncheckedUpdate(env, io, running, s, OtherSlot(slot));
    var s2 := FaultyRefusal(env, io, running, s1, FileFor(slot), slot, true);
    var s3 := FaultyRefusal(env, io, running, s2, LoaderFile, Secondary, false);
    s' := FaultyRefusal(env, io, running, s3, AppFile, Primary, false);
    e := BootEvent(slot, running, io, true, Trace(s1, s2, s3, true, false, false, false), true);
    assert LoaderStep(env, io, running, slot, s, s1, s2, true, false);
    assert ImageStep(env, io, running, s2, s3, s', false, false);
  }

  lemma InstalledWasJudged(env: Env, io: Io, running: Rev, slot: Partition, s: State, e: Event, s': State)
    requires ValidState(env, s) && Step(env, s, e, s') && BootsSlot(e, slot, running, io) && e.mounted && e.trace.own
    requires !OldBufferPasses(env, io, s, OtherSlot(slot))
    ensures var p := OtherSlot(slot);
            FileFor(p) in s.files && FileGate(env, env.addr(p), env.size(p), true, s.files[FileFor(p)], s.shared)
  {
    hide B0Accepts, FileGate, SomeVersionFits, DowngradeJudged, VersionFits, Gate, Prechecked, ImageStep, CopyLeaves;
    assert Updated(env, io, running, s, e.trace.s1, FileFor(OtherSlot(slot)), OtherSlot(slot), true, true);
  }

  /**
   Exactly when a loader can be installed that failed its check: reading fails,
   the buffer holds old bytes that the first stage accepts, and the file has
   the version to get in.
   */
  lemma InstallsCheckedOnlyIff(env: Env, io: Io, running: Rev, slot: Partition, s: State)
    requires ValidState(env, s) && IsLoaderSlot(slot)
    ensures InstallsCheckedOnly(env, io, running, slot, s) <==> !OldBufferPasses(env, io, s, OtherSlot(slot))
  {
    hide Boot, FileGate, OldBufferPasses;
    if OldBufferPasses(env, io, s, OtherSlot(slot)) {
      var e, s' := UncheckedBoot(env, io, running, slot, s);
      FailsCheck(env, io, s, OtherSlot(slot));
    } else {
      forall e, s' | Step(env, s, e, s') && BootsSlot(e, slot, running, io) && e.mounted && e.trace.own
        ensures var p := OtherSlot(slot);
                FileFor(p) in s.files && FileGate(env, env.addr(p), env.size(p), true, s.files[FileFor(p)], s.shared)
      {
        InstalledWasJudged(env, io, running, slot, s, e, s');
      }
    }
  }

}
