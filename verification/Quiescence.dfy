/**
 Coming to rest: which files a boot leaves, when a run of boots ends with no
 update files, and when it reboots for ever.
 */
module Quiescence {
  import opened Bytes
  import opened HwRev
  import opened FwInfo
  import opened UpdateSpec
  import opened Runs
  import opened Slots

  /** Removing files works: areas open, files can be looked up and unlinked, the file system mounts. */
  predicate CanRemove(io: Io) {
    io.areas && io.stat && io.unlink && io.mount
  }

  predicate NoFiles(s: State) {
    forall n: FileName :: n !in s.files
  }

  lemma UpdatedRemoves(
    env: Env, io: Io, running: Rev, s: State, s': State, name: FileName, p: Partition, b0: bool, updated: bool)
    requires ValidState(env, s) && Updated(env, io, running, s, s', name, p, b0, updated) && CanRemove(io)
    ensures name !in s'.files
    ensures forall n | n !in s.files :: n !in s'.files
    ensures name !in s.files ==> !updated && s'.flash == s.flash
  {
  }

  lemma LoaderStepRemoves(
    env: Env, io: Io, running: Rev, slot: Partition, s: State, s1: State, s2: State, own: bool, handoff: bool)
    requires ValidState(env, s) && LoaderStep(env, io, running, slot, s, s1, s2, own, handoff)
    requires CanRemove(io) && IsLoaderSlot(slot)
    ensures FileFor(OtherSlot(slot)) !in s2.files
    ensures forall n | n !in s.files :: n !in s2.files
    ensures FileFor(slot) in s2.files <==> handoff
    ensures handoff ==> FileFor(slot) in s.files
    ensures NoFiles(s) ==> !own && s2.flash == s.flash
  {
    UpdatedRemoves(env, io, running, s, s1, FileFor(OtherSlot(slot)), OtherSlot(slot), true, own);
  }

  lemma ImageStepRemoves(env: Env, io: Io, running: Rev, s: State, s1: State, s2: State, loader: bool, app: bool)
    requires ValidState(env, s) && ImageStep(env, io, running, s, s1, s2, loader, app) && CanRemove(io)
    ensures LoaderFile !in s2.files && AppFile !in s2.files
    ensures forall n | n !in s.files :: n !in s2.files
    ensures NoFiles(s) ==> !loader && !app && s2.flash == s.flash
  {
    UpdatedRemoves(env, io, running, s, s1, LoaderFile, Secondary, false, loader);
    UpdatedRemoves(env, io, running, s1, s2, AppFile, Primary, false, app);
  }

  /**
   Quiescence: a boot without a handoff leaves none of the four files; one with
   a handoff leaves the own slot's file and not the other slot's. A boot that
   does not reboot leaves none, and one that found none changes no flash.
   */
  lemma BootRemoves(env: Env, e: Event, s: State, s': State)
    requires ValidState(env, s) && Step(env, s, e, s') && e.BootEvent? && CanRemove(e.io)
    ensures !e.trace.handoff ==> NoFiles(s')
    ensures e.trace.handoff ==>
              e.reboot && FileFor(e.slot) in s.files && FileFor(e.slot) in s'.files
              && FileFor(OtherSlot(e.slot)) !in s'.files
    ensures !e.reboot ==> NoFiles(s')
    ensures NoFiles(s) ==> !e.reboot && s'.flash == s.flash
    ensures forall n | n !in s.files :: n !in s'.files
  {
    var t := e.trace;
    LoaderStepRemoves(env, e.io, e.running, e.slot, s, t.s1, t.s2, t.own, t.handoff);
    if !t.handoff {
      ImageStepRemoves(env, e.io, e.running, t.s2, t.s3, s', t.loader, t.app);
      forall n: FileName ensures n !in s'.files {
        assert n == LoaderFile || n == AppFile || n == FileFor(e.slot) || n == FileFor(OtherSlot(e.slot));
      }
    }
  }

  /**
   Convergence: three boots in a row, from any files and either slot. If files
   can be removed and a boot that hands over is followed by one from the other
   slot, all four files are gone after the second boot and the third does not
   reboot and changes no flash.
   */
  lemma Converges(env: Env, ss: seq<State>, es: seq<Event>)
    requires IsRun(env, ss, es) && |es| == 3
    requires forall i | 0 <= i < 3 :: es[i].BootEvent? && CanRemove(es[i].io)
    requires es[0].trace.handoff ==> es[1].slot == OtherSlot(es[0].slot)
    ensures NoFiles(ss[2]) && NoFiles(ss[3])
    ensures !es[2].reboot && ss[3].flash == ss[2].flash
  {
    BootRemoves(env, es[0], ss[0], ss[1]);
    BootRemoves(env, es[1], ss[1], ss[2]);
    BootRemoves(env, es[2], ss[2], ss[3]);
    assert Step(env, ss[0], es[0], ss[1]) && Step(env, ss[1], es[1], ss[2]);
  }

  // ---------- exactly which runs come to rest ----------

  /** A boot in which checking and removing files works, on a device of this revision. */
  predicate Resolves(e: Event, running: Rev) {
    e.BootEvent? && e.running == running && CanRemove(e.io) && e.io.read
  }

  /** Memory that changes between boots, under a file on which the first stage's verdict does not depend on it. */
  ghost predicate ChangesMemory(env: Env, slot: Partition, s: State, e: Event)
    requires env.Valid()
  {
    && e.AppEvent? && e.files == s.files
    && (FileFor(slot) in s.files ==> SelfContained(env, slot, s.files[FileFor(slot)]))
  }

  /** Only the slot's own file can be left, and it is there to be handed over. */
  ghost predicate StillHandsOver(env: Env, running: Rev, slot: Partition, s: State)
    requires ValidState(env, s)
  {
    HandsOver(env, running, slot, s) && FileFor(OtherSlot(slot)) !in s.files
  }

  /** A file handed over is still there, and is handed over again by a boot of the same slot. */
  lemma HandoffKeepsFile(env: Env, running: Rev, s: State, e: Event, s': State)
    requires ValidState(env, s) && Step(env, s, e, s') && Resolves(e, running)
    ensures if HandsOver(env, running, e.slot, s) then StillHandsOver(env, running, e.slot, s') else NoFiles(s')
  {
    hide HandoffGate, Updated, Invalidated, Loaded;
    BootRemoves(env, e, s, s');
    HandoffDecided(env, s, e, s');
    if HandsOver(env, running, e.slot, s) {
      LoaderStepDecided(env, e, s, e.trace.s1, e.trace.s2);
      HandoffGateAgain(env, running, e.slot, s.files[FileFor(e.slot)], BufferAtCheck(env, e.slot, s));
    }
  }

  /** A boot of the other slot clears what a handoff left; one of the same slot repeats the handoff. */
  lemma AfterHandoff(env: Env, running: Rev, slot: Partition, s: State, e: Event, s': State)
    requires ValidState(env, s) && Step(env, s, e, s') && Resolves(e, running)
    requires IsLoaderSlot(slot) && StillHandsOver(env, running, slot, s)
    ensures if e.slot == slot then StillHandsOver(env, running, slot, s') else NoFiles(s')
  {
    hide HandoffGate, Boot;
    HandoffKeepsFile(env, running, s, e, s');
  }

  lemma AfterMemoryChange(env: Env, running: Rev, slot: Partition, s: State, e: Event, s': State)
    requires ValidState(env, s) && Step(env, s, e, s') && ChangesMemory(env, slot, s, e)
    ensures s'.files == s.files
    ensures StillHandsOver(env, running, slot, s) ==> StillHandsOver(env, running, slot, s')
  {
    hide SelfContained, HandoffGate;
    if StillHandsOver(env, running, slot, s) {
      HandoffGateStable(env, running, slot, s.files[FileFor(slot)], s.shared, s'.shared);
    }
  }

  /** The check of a self-contained loader file does not depend on the buffer's old contents. */
  lemma HandoffGateStable(env: Env, running: Rev, p: Partition, data: seq<byte>, shared: seq<byte>, shared': seq<byte>)
    requires env.Valid() && |shared| == |shared'| == env.BufSize() && SelfContained(env, p, data)
    ensures HandoffGate(env, running, p, data, shared) == HandoffGate(env, running, p, data, shared')
  {
    hide B0Accepts, CheckImage, FileVersion;
    if |data| <= |shared| {
      var t, t' := shared[|data|..], shared'[|data|..];
      assert B0Accepts(env, env.addr(p), data + t) == B0Accepts(env, env.addr(p), data + t');
    }
  }

  /** What the files are like after n events, n > 0. */
  ghost predicate FilesAfter(env: Env, running: Rev, slot: Partition, waits: bool, s: State)
    requires ValidState(env, s)
  {
    if waits then StillHandsOver(env, running, slot, s) else NoFiles(s)
  }

  /** Are all boots among the first n events boots of one slot? */
  ghost predicate BootsOf(slot: Partition, es: seq<Event>, n: nat)
    requires n <= |es|
  {
    forall i | 0 <= i < n && es[i].BootEvent? :: es[i].slot == slot
  }

  /** One more event. */
  lemma FilesAfterEvent(
    env: Env, running: Rev, slot: Partition, waits: bool, s: State, e: Event, s': State)
    requires ValidState(env, s) && Step(env, s, e, s') && IsLoaderSlot(slot)
    requires Resolves(e, running) || ChangesMemory(env, slot, s, e)
    requires FilesAfter(env, running, slot, waits, s)
    ensures FilesAfter(env, running, slot, waits && (e.BootEvent? ==> e.slot == slot), s')
  {
    hide Boot, StillHandsOver;
    if e.AppEvent? {
      AfterMemoryChange(env, running, slot, s, e, s');
    } else if waits {
      AfterHandoff(env, running, slot, s, e, s');
    } else {
      BootRemoves(env, e, s, s');
    }
  }

  lemma {:induction false} FilesAfterEvents(
    env: Env, running: Rev, slot: Partition, ss: seq<State>, es: seq<Event>, n: nat)
    requires IsRun(env, ss, es) && 0 < n <= |es|
    requires forall i | 0 <= i < |es| :: Resolves(es[i], running) || ChangesMemory(env, slot, ss[i], es[i])
    requires es[0].BootEvent? && es[0].slot == slot
    ensures FilesAfter(env, running, slot, HandsOver(env, running, slot, ss[0]) && BootsOf(slot, es, n), ss[n])
  {
    hide Boot, HandsOver, StillHandsOver, ChangesMemory, FilesAfter;
    var last := es[n - 1];
    assert Step(env, ss[n - 1], last, ss[n - 1 + 1]);
    if n == 1 {
      FirstBoot(env, running, slot, ss[0], last, ss[1]);
    } else {
      FilesAfterEvents(env, running, slot, ss, es, n - 1);
      assert BootsOf(slot, es, n) <==> BootsOf(slot, es, n - 1) && (last.BootEvent? ==> last.slot == slot);
      assert Step(env, ss[0], es[0], ss[0 + 1]);
      var waits := HandsOver(env, running, slot, ss[0]) && BootsOf(slot, es, n - 1);
      FilesAfterEvent(env, running, slot, waits, ss[n - 1], last, ss[n]);
    }
  }

  lemma FirstBoot(env: Env, running: Rev, slot: Partition, s: State, e: Event, s': State)
    requires ValidState(env, s) && Step(env, s, e, s') && e.BootEvent? && e.slot == slot
    requires Resolves(e, running) || ChangesMemory(env, slot, s, e)
    ensures IsLoaderSlot(slot) && FilesAfter(env, running, slot, HandsOver(env, running, slot, s), s')
  {
    hide Boot, HandsOver, StillHandsOver;
    HandoffKeepsFile(env, running, s, e, s');
  }

  /**
   Exactly which runs come to rest: when files can be checked and removed, an
   update file is left after n events if and only if the first boot had a file
   to hand over and all boots were of its slot. The buffer keeps its contents
   between boots; it may change there if the file to hand over does not depend on it.
   */
  lemma ConvergesIff(env: Env, running: Rev, slot: Partition, ss: seq<State>, es: seq<Event>, n: nat)
    requires IsRun(env, ss, es) && 0 < n <= |es|
    requires forall i | 0 <= i < |es| :: Resolves(es[i], running) || ChangesMemory(env, slot, ss[i], es[i])
    requires es[0].BootEvent? && es[0].slot == slot
    ensures NoFiles(ss[n]) <==> !(HandsOver(env, running, slot, ss[0]) && BootsOf(slot, es, n))
  {
    hide Boot, HandoffGate, BootsOf, ChangesMemory;
    FilesAfterEvents(env, running, slot, ss, es, n);
  }

  /**
   A run that starts in s0 comes to rest after two boots when the first stage
   starts bootable slots only: the mark of the handoff keeps it from s0.
   */
  lemma RunsFromS0Converge(env: Env, running: Rev, ss: seq<State>, es: seq<Event>)
    requires IsRun(env, ss, es) && |es| == 2 && forall i | 0 <= i < 2 :: Resolves(es[i], running)
    requires es[0].BootEvent? && es[0].slot == S0
    requires !B0Accepts(env, env.addr(S0), Invalidated(env.fw, ss[0].flash.At(S0)))
    requires BootsOf(S0, es, 2) ==> Bootable(env, ss[1], S0)
    ensures NoFiles(ss[2])
  {
    hide Boot, HandoffGate, B0Accepts, ChangesMemory;
    ConvergesIff(env, running, S0, ss, es, 2);
    assert Step(env, ss[0], es[0], ss[0 + 1]) && Resolves(es[0], running);
    if HandsOver(env, running, S0, ss[0]) && BootsOf(S0, es, 2) {
      HandoffMarks(env, ss[0], es[0], ss[1]);
      assert false;
    }
  }

  lemma HandoffMarks(env: Env, s: State, e: Event, s': State)
    requires ValidState(env, s) && Step(env, s, e, s') && e.BootEvent? && e.slot == S0
    requires ChecksWork(e.io) && e.io.mount
    requires HandsOver(env, e.running, S0, s)
    ensures s'.flash.At(S0) == Invalidated(env.fw, s.flash.At(S0))
  {
    hide HandoffGate, Updated, Invalidated;
    HandoffDecided(env, s, e, s');
    LoaderEffect(env, e, s, e.trace.s1, e.trace.s2);
    assert e.trace.s2.flash.At(S0) == s.flash.At(S0);
  }

  // ---------- waiting for the other slot ----------

  /** A boot of s1 that finds only a valid update of s1 waits for a boot of s0. */
  ghost predicate WaitsForS0(env: Env, running: Rev, s: State)
    requires ValidState(env, s)
  {
    Mcuboot0File !in s.files && HandsOver(env, running, S1, s)
  }

  ghost predicate BootsS1(e: Event, running: Rev) {
    e.BootEvent? && e.slot == S1 && e.running == running && e.io == ALL_OK
  }

  predicate Reboots(e: Event) {
    e.BootEvent? && e.reboot
  }

  lemma WaitingBoot(env: Env, running: Rev, s: State, e: Event, s': State)
    requires ValidState(env, s) && Step(env, s, e, s')
    requires BootsS1(e, running) && WaitsForS0(env, running, s)
    ensures e.reboot && s'.flash == s.flash && s'.files == s.files && WaitsForS0(env, running, s')
  {
    hide HandoffGate, Gate;
    var t := e.trace;
    UpdatedRemoves(env, e.io, running, s, t.s1, Mcuboot0File, S0, true, t.own);
    assert t.s1.files == s.files;
    HandoffDecided(env, s, e, s');
    HandoffKeepsFile(env, running, s, e, s');
  }

  /** In such a state a boot of s1 can lead back to it; only the buffer then holds the file. */
  lemma WaitingBootExists(env: Env, running: Rev, s: State) returns (e: Event, s': State)
    requires ValidState(env, s) && WaitsForS0(env, running, s)
    ensures Step(env, s, e, s') && BootsS1(e, running) && Reboots(e)
    ensures s' == s.(shared := Loaded(s.files[Mcuboot1File], s.shared))
  {
    hide B0Accepts, CheckImage, Gate, Loaded;
    s' := s.(shared := Loaded(s.files[Mcuboot1File], s.shared));
    forall p: Partition ensures |s'.flash.At(p)| == env.size(p) {
      assert |s.flash.At(p)| == env.size(p);
    }
    e := BootEvent(S1, running, ALL_OK, true, Trace(s, s', s', false, true, false, false), true);
    assert Updated(env, ALL_OK, running, s, s, Mcuboot0File, S0, true, false);
    assert Prechecked(env, ALL_OK, running, s, s', Mcuboot1File, S1, true);
  }

  /** Is the device still waiting, with nothing changed since s? */
  ghost predicate StillWaits(env: Env, running: Rev, s: State, s': State)
    requires ValidState(env, s')
  {
    WaitsForS0(env, running, s') && s'.flash == s.flash && s'.files == s.files
  }

  lemma StillWaiting(env: Env, running: Rev, ss: seq<State>, es: seq<Event>, i: nat)
    requires IsRun(env, ss, es) && i < |ss|
    requires forall k | 0 <= k < |es| :: BootsS1(es[k], running)
    requires WaitsForS0(env, running, ss[0])
    ensures StillWaits(env, running, ss[0], ss[i])
  {
    hide Step, WaitsForS0;
    var waits := seq(|ss|, k requires 0 <= k < |ss| => StillWaits(env, running, ss[0], ss[k]));
    forall k | 0 <= k < i ensures waits[k] ==> waits[k + 1] {
      if waits[k] {
        WaitingBoot(env, running, ss[k], es[k], ss[k + 1]);
      }
    }
    KeptChain(waits, 0, i);
  }

  /**
   What such a run looks like in s1: s1 hands its update over
   without marking itself invalid, and while the first stage keeps starting s1,
   every boot reboots and nothing changes.
   */
  lemma HandoffWaitsForever(env: Env, running: Rev, ss: seq<State>, es: seq<Event>, i: nat)
    requires IsRun(env, ss, es) && i < |es|
    requires forall k | 0 <= k < |es| :: BootsS1(es[k], running)
    requires WaitsForS0(env, running, ss[0])
    ensures Reboots(es[i]) && ss[i].flash == ss[0].flash && ss[i].files == ss[0].files
  {
    StillWaiting(env, running, ss, es, i);
    WaitingBoot(env, running, ss[i], es[i], ss[i + 1]);
  }
}
