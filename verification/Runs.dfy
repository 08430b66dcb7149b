/**
 Runs of a device: boots of the updater, with whatever may fail in them, and
 the application changing files and memory in between.
 */
module Runs {
  import opened Bytes
  import opened Devices
  import opened ImageFormat
  import opened Validator
  import opened HwRev
  import opened ImgOp
  import opened FwInfo
  import opened UpdateSpec

  datatype Event =
    | BootEvent(slot: Partition, running: Rev, io: Io, mounted: bool, trace: Trace, reboot: bool)
    | AppEvent(files: map<FileName, FileData>, shared: seq<byte>)

  ghost predicate Step(env: Env, s: State, e: Event, s': State)
    requires ValidState(env, s)
  {
    && ValidState(env, s')
    && match e
       case BootEvent(slot, running, io, mounted, trace, reboot) =>
         IsLoaderSlot(slot) && Boot(env, io, running, slot, s, s', mounted, trace, reboot)
       case AppEvent(files, shared) =>
         s'.flash == s.flash && s'.files == files && s'.shared == shared
  }

  ghost predicate IsRun(env: Env, ss: seq<State>, es: seq<Event>) {
    && |ss| == |es| + 1
    && (forall i | 0 <= i < |ss| :: ValidState(env, ss[i]))
    && (forall i | 0 <= i < |es| :: Step(env, ss[i], es[i], ss[i + 1]))
  }

  /** Everything the copying needs succeeds. */
  ghost predicate FlashCompletes(e: Event) {
    e.BootEvent? ==> e.io.areas && e.io.read && e.io.flash
  }

  // ---------- what one event does to a partition ----------

  /** Does a file pass the gate to a partition? */
  ghost predicate PassesGate(env: Env, running: Rev, s: State, data: seq<byte>, p: Partition)
    requires ValidState(env, s)
  {
    Gate(env, running, p, IsLoaderSlot(p), data, s.shared, s.flash.At(p))
  }

  /** What is certain of a file that was copied to a partition: more, the more could be relied on. */
  ghost predicate GatePassed(env: Env, io: Io, running: Rev, s: State, data: seq<byte>, p: Partition)
    requires ValidState(env, s)
  {
    && FileJudged(env, io, env.addr(p), env.size(p), IsLoaderSlot(p), data, s.shared)
    && SomeVersionFits(env, data, s.flash.At(p)) && DowngradeJudged(env, p, data, s.flash.At(p))
    && (io.read ==> VersionFits(env, data, s.flash.At(p)))
    && (ChecksWork(io) ==> PassesGate(env, running, s, data, p))
  }

  /** The first m bytes of a file came onto an erased partition, after the file had passed its gate. */
  ghost predicate Copied(
    env: Env, io: Io, running: Rev, s: State, data: seq<byte>, p: Partition, m: nat, cells: seq<byte>)
    requires ValidState(env, s)
  {
    && m <= |data| <= env.size(p) && cells == Filled(data[..m], env.size(p))
    && GatePassed(env, io, running, s, data, p)
    && (io.areas && io.read && io.flash ==> m == |data|)
  }

  /** A boot from another slot copied the partition's own file. */
  ghost predicate InstalledBy(env: Env, s: State, e: Event, p: Partition, m: nat, cells: seq<byte>)
    requires ValidState(env, s)
  {
    && e.BootEvent? && e.slot != p
    && FileFor(p) in s.files
    && Copied(env, e.io, e.running, s, s.files[FileFor(p)], p, m, cells)
  }

  /** A handoff from slot 0 marked the image in s0 invalid. */
  ghost predicate InvalidatedBy(env: Env, s: State, e: Event, s': State, p: Partition)
    requires ValidState(env, s)
  {
    && p == S0 && e.BootEvent? && e.slot == S0 && e.mounted && e.trace.handoff
    && s'.flash.At(p) == Invalidated(env.fw, s.flash.At(p))
  }

  /** The three things an event can do to a partition. */
  ghost predicate Effect(env: Env, s: State, e: Event, s': State, p: Partition)
    requires ValidState(env, s)
  {
    || s'.flash.At(p) == s.flash.At(p)
    || InvalidatedBy(env, s, e, s', p)
    || exists m: nat :: InstalledBy(env, s, e, p, m, s'.flash.At(p))
  }

  predicate KeepsFile(s: State, s': State, n: FileName) {
    (n in s'.files <==> n in s.files) && (n in s.files ==> s'.files[n] == s.files[n])
  }

  /** What one call of the updater for a file does to the file's partition. */
  lemma UpdateEffect(env: Env, io: Io, running: Rev, s: State, s': State, name: FileName, p: Partition, updated: bool)
    requires ValidState(env, s) && Updated(env, io, running, s, s', name, p, IsLoaderSlot(p), updated)
    ensures SameFlashExcept(s, s', p)
    ensures || s'.flash.At(p) == s.flash.At(p)
            || (name in s.files && exists m: nat :: Copied(env, io, running, s, s.files[name], p, m, s'.flash.At(p)))
    ensures forall n | n != name :: KeepsFile(s, s', n)
  {
    if updated && s'.flash.At(p) != s.flash.At(p) {
      var data, before, after := s.files[name], s.flash.At(p), s'.flash.At(p);
      assert |before| == env.size(p);
      assert data[..|data|] == data;
      var m: nat :| m <= |data| && after == Filled(data[..m], |before|);
      if io.areas && io.read && io.flash {
        assert Copied(env, io, running, s, data, p, |data|, after);
      } else {
        assert Copied(env, io, running, s, data, p, m, after);
      }
    }
  }

  lemma CopiedLater(
    env: Env, io: Io, running: Rev, s: State, s': State, data: seq<byte>, p: Partition, m: nat, cells: seq<byte>)
    requires ValidState(env, s) && ValidState(env, s')
    requires !IsLoaderSlot(p) && s'.flash.At(p) == s.flash.At(p)
    requires Copied(env, io, running, s', data, p, m, cells)
    ensures Copied(env, io, running, s, data, p, m, cells)
  {
  }

  /** The loader part of a boot touches no partition but the other slot. */
  lemma LoaderEffect(env: Env, e: Event, s: State, s1: State, s2: State)
    requires ValidState(env, s) && e.BootEvent? && IsLoaderSlot(e.slot)
    requires LoaderStep(env, e.io, e.running, e.slot, s, s1, s2, e.trace.own, e.trace.handoff)
    ensures SameFlashExcept(s, s2, OtherSlot(e.slot))
    ensures var p := OtherSlot(e.slot);
            s2.flash.At(p) == s.flash.At(p) || exists m: nat :: InstalledBy(env, s, e, p, m, s2.flash.At(p))
    ensures KeepsFile(s, s2, LoaderFile) && KeepsFile(s, s2, AppFile)
  {
    var p := OtherSlot(e.slot);
    UpdateEffect(env, e.io, e.running, s, s1, FileFor(p), p, e.trace.own);
    if s1.flash.At(p) != s.flash.At(p) {
      var m: nat :| Copied(env, e.io, e.running, s, s.files[FileFor(p)], p, m, s1.flash.At(p));
      assert InstalledBy(env, s, e, p, m, s2.flash.At(p));
    }
  }

  /** The other part of a boot touches the two image partitions only. */
  lemma ImageEffect(env: Env, io: Io, running: Rev, s: State, s1: State, s2: State, loader: bool, app: bool)
    requires ValidState(env, s) && ImageStep(env, io, running, s, s1, s2, loader, app)
    ensures s2.flash.s0 == s.flash.s0 && s2.flash.s1 == s.flash.s1
    ensures s2.flash.At(Secondary) == s.flash.At(Secondary)
            || (LoaderFile in s.files
                && exists m: nat ::
                     Copied(env, io, running, s, s.files[LoaderFile], Secondary, m, s2.flash.At(Secondary)))
    ensures s2.flash.At(Primary) == s.flash.At(Primary)
            || (AppFile in s.files
                && exists m: nat :: Copied(env, io, running, s, s.files[AppFile], Primary, m, s2.flash.At(Primary)))
  {
    UpdateEffect(env, io, running, s, s1, LoaderFile, Secondary, loader);
    UpdateEffect(env, io, running, s1, s2, AppFile, Primary, app);
    assert s2.flash.At(S0) == s1.flash.At(S0) == s.flash.At(S0);
    assert s2.flash.At(S1) == s1.flash.At(S1) == s.flash.At(S1);
    if s2.flash.At(Primary) != s.flash.At(Primary) {
      var m: nat :| Copied(env, io, running, s1, s1.files[AppFile], Primary, m, s2.flash.At(Primary));
      CopiedLater(env, io, running, s, s1, s1.files[AppFile], Primary, m, s2.flash.At(Primary));
    }
  }

  lemma LoaderSlotEffect(env: Env, s: State, e: Event, s': State, p: Partition)
    requires ValidState(env, s) && Step(env, s, e, s')
    requires e.BootEvent? && e.mounted && IsLoaderSlot(p)
    ensures Effect(env, s, e, s', p)
  {
    var t := e.trace;
    LoaderEffect(env, e, s, t.s1, t.s2);
    if !t.handoff {
      ImageEffect(env, e.io, e.running, t.s2, t.s3, s', t.loader, t.app);
    }
  }

  lemma ImagePartitionEffect(env: Env, s: State, e: Event, s': State, p: Partition)
    requires ValidState(env, s) && Step(env, s, e, s')
    requires e.BootEvent? && e.mounted && !IsLoaderSlot(p)
    ensures Effect(env, s, e, s', p)
  {
    hide Gate, FileJudged, SomeVersionFits, VersionFits;
    var t := e.trace;
    LoaderEffect(env, e, s, t.s1, t.s2);
    if !t.handoff && s'.flash.At(p) != s.flash.At(p) {
      ImageEffect(env, e.io, e.running, t.s2, t.s3, s', t.loader, t.app);
      var data := t.s2.files[FileFor(p)];
      var m: nat :| Copied(env, e.io, e.running, t.s2, data, p, m, s'.flash.At(p));
      CopiedLater(env, e.io, e.running, s, t.s2, data, p, m, s'.flash.At(p));
      assert InstalledBy(env, s, e, p, m, s'.flash.At(p));
    }
  }

  /** Every event has one of the three effects on every partition. */
  lemma EventEffect(env: Env, s: State, e: Event, s': State, p: Partition)
    requires ValidState(env, s) && Step(env, s, e, s')
    ensures Effect(env, s, e, s', p)
  {
    if e.BootEvent? && e.mounted {
      if IsLoaderSlot(p) {
        LoaderSlotEffect(env, s, e, s', p);
      } else {
        ImagePartitionEffect(env, s, e, s', p);
      }
    }
  }

  /** A boot that does not mount the file system changes at most that: it may be erased. */
  lemma UnmountedBoot(env: Env, s: State, e: Event, s': State)
    requires ValidState(env, s) && Step(env, s, e, s') && e.BootEvent? && !e.mounted
    ensures !e.reboot && !e.io.mount && s'.flash == s.flash && s'.shared == s.shared
    ensures s'.files == s.files || s'.files == map[]
  {
    hide BootStep;
  }

  // ---------- provenance ----------

  /** An image marked invalid n times. */
  ghost function MarkedTimes(env: Env, cells: seq<byte>, n: nat): (r: seq<byte>)
    requires env.Valid() && env.fw.FitsIn(|cells|)
    ensures |r| == |cells|
  {
    if n == 0 then cells else Invalidated(env.fw, MarkedTimes(env, cells, n - 1))
  }

  /** The initial contents, or what one of the first i events installed. */
  ghost predicate Source(env: Env, ss: seq<State>, es: seq<Event>, p: Partition, i: nat, base: seq<byte>)
    requires IsRun(env, ss, es) && i < |ss|
  {
    || base == ss[0].flash.At(p)
    || exists j: nat, m: nat :: j < i && InstalledBy(env, ss[j], es[j], p, m, base)
  }

  /** The contents come from such a source; only s0 may have been marked invalid since. */
  ghost predicate Provenance(env: Env, ss: seq<State>, es: seq<Event>, p: Partition, i: nat, base: seq<byte>, n: nat)
    requires IsRun(env, ss, es) && i < |ss|
  {
    && |base| == env.size(p) && Source(env, ss, es, p, i, base)
    && (p != S0 ==> n == 0)
    && ss[i].flash.At(p) == MarkedTimes(env, base, n)
  }

  lemma SourceLater(env: Env, ss: seq<State>, es: seq<Event>, p: Partition, i: nat, base: seq<byte>)
    requires IsRun(env, ss, es) && i < |es| && Source(env, ss, es, p, i, base)
    ensures Source(env, ss, es, p, i + 1, base)
  {
    if base != ss[0].flash.At(p) {
      var j: nat, m: nat :| j < i && InstalledBy(env, ss[j], es[j], p, m, base);
      assert j < i + 1;
    }
  }

  lemma ProvenanceMarked(env: Env, ss: seq<State>, es: seq<Event>, i: nat, base: seq<byte>, n: nat)
    requires IsRun(env, ss, es) && i < |es| && Provenance(env, ss, es, S0, i, base, n)
    requires ss[i + 1].flash.At(S0) == Invalidated(env.fw, ss[i].flash.At(S0))
    ensures Provenance(env, ss, es, S0, i + 1, base, n + 1)
  {
    SourceLater(env, ss, es, S0, i, base);
  }

  lemma ProvenanceInstalled(env: Env, ss: seq<State>, es: seq<Event>, p: Partition, i: nat, m: nat)
    requires IsRun(env, ss, es) && i < |es| && InstalledBy(env, ss[i], es[i], p, m, ss[i + 1].flash.At(p))
    ensures Provenance(env, ss, es, p, i + 1, ss[i + 1].flash.At(p), 0)
  {
    assert Source(env, ss, es, p, i + 1, ss[i + 1].flash.At(p));
  }

  lemma ProvenanceStart(env: Env, ss: seq<State>, es: seq<Event>, p: Partition)
    requires IsRun(env, ss, es)
    ensures Provenance(env, ss, es, p, 0, ss[0].flash.At(p), 0)
  {
    hide Step;
    assert ValidState(env, ss[0]);
  }

  lemma ProvenanceStep(env: Env, ss: seq<State>, es: seq<Event>, p: Partition, i: nat, base: seq<byte>, n: nat)
    returns (base': seq<byte>, n': nat)
    requires IsRun(env, ss, es) && i < |es| && Provenance(env, ss, es, p, i, base, n)
    ensures Provenance(env, ss, es, p, i + 1, base', n')
  {
    hide Boot, Copied, Invalidated, MarkedTimes;
    EventEffect(env, ss[i], es[i], ss[i + 1], p);
    if ss[i + 1].flash.At(p) == ss[i].flash.At(p) {
      SourceLater(env, ss, es, p, i, base);
      base', n' := base, n;
    } else if InvalidatedBy(env, ss[i], es[i], ss[i + 1], p) {
      ProvenanceMarked(env, ss, es, i, base, n);
      base', n' := base, n + 1;
    } else {
      var m: nat :| InstalledBy(env, ss[i], es[i], p, m, ss[i + 1].flash.At(p));
      ProvenanceInstalled(env, ss, es, p, i, m);
      base', n' := ss[i + 1].flash.At(p), 0;
    }
  }

  /**
   After any run, whatever failed in it, each partition holds its initial bytes
   or a prefix of its own file on erased flash; s0 may be marked invalid. The
   file was not copied onto the running loader and had passed its gate, as far
   as GatePassed says under the faults of that boot.
   */
  lemma {:induction false} EveryPartitionHasProvenance(env: Env, ss: seq<State>, es: seq<Event>, p: Partition, i: nat)
    returns (base: seq<byte>, n: nat)
    requires IsRun(env, ss, es) && i < |ss|
    ensures Provenance(env, ss, es, p, i, base, n)
    decreases i
  {
    hide Step, Provenance;
    if i == 0 {
      base, n := ss[0].flash.At(p), 0;
      ProvenanceStart(env, ss, es, p);
    } else {
      base, n := EveryPartitionHasProvenance(env, ss, es, p, i - 1);
      base, n := ProvenanceStep(env, ss, es, p, i - 1, base, n);
    }
  }

  // ---------- installed images ----------

  /** What every step keeps holds from then on. */
  lemma {:induction false} KeptChain(kept: seq<bool>, i: nat, j: nat)
    requires i <= j < |kept| && kept[i]
    requires forall k | i <= k < j :: kept[k] ==> kept[k + 1]
    ensures kept[j]
    decreases j
  {
    if i < j {
      KeptChain(kept, i, j - 1);
      assert kept[j - 1] ==> kept[j - 1 + 1];
    }
  }

  /** A file that passes MCUboot's check passes it with more bytes behind it. */
  lemma CheckGrows(env: Env, addr: u32, size: nat, data: seq<byte>, more: seq<byte>)
    requires env.Valid() && CheckImage(env, addr, size, data).ok
    ensures CheckImage(env, addr, size, data + more).ok
    ensures CheckImage(env, addr, size, data + more).hdr == CheckImage(env, addr, size, data).hdr
  {
    hide Accepts;
    var all, hdr := data + more, FileHeader(data).value;
    assert all[..HEADER_SIZE] == data[..HEADER_SIZE];
    ParseHeaderPrefix(data);
    ParseHeaderPrefix(all);
    var at := hdr.hdrSize as int + 4;
    assert all[at..at + 4] == data[at..at + 4];
    Le32Slice(data, all, at);
    AcceptsGrows(env.crypto, data, more, hdr, size, []);
  }

  /** Does a partition hold an image that passes MCUboot's check for it? */
  ghost predicate HoldsImage(env: Env, s: State, p: Partition)
    requires ValidState(env, s)
  {
    CheckImage(env, env.addr(p), env.size(p), s.flash.At(p)).ok
  }

  /**
   When flash operations complete, a boot that changes an image partition
   leaves a partition that passes the check its file passed, with the same header.
   */
  lemma InstalledImageValidates(env: Env, s: State, e: Event, s': State, p: Partition)
    requires ValidState(env, s) && Step(env, s, e, s')
    requires FlashCompletes(e) && !IsLoaderSlot(p) && s'.flash.At(p) != s.flash.At(p)
    ensures HoldsImage(env, s', p) && FileFor(p) in s.files
    ensures CheckImage(env, env.addr(p), env.size(p), s'.flash.At(p)).hdr
            == CheckImage(env, env.addr(p), env.size(p), s.files[FileFor(p)]).hdr
  {
    hide Step, CheckImage;
    EventEffect(env, s, e, s', p);
    var data := s.files[FileFor(p)];
    var m: nat :| InstalledBy(env, s, e, p, m, s'.flash.At(p));
    assert data[..m] == data;
    CheckGrows(env, env.addr(p), env.size(p), data, Ones(env.size(p) - |data|));
  }

  /** In every run whose flash operations complete, an image partition keeps holding such an image. */
  lemma ImagesStayValid(env: Env, ss: seq<State>, es: seq<Event>, p: Partition, i: nat, j: nat)
    requires IsRun(env, ss, es) && i <= j < |ss| && !IsLoaderSlot(p)
    requires forall k | 0 <= k < |es| :: FlashCompletes(es[k])
    requires HoldsImage(env, ss[i], p)
    ensures HoldsImage(env, ss[j], p)
  {
    hide Step, HoldsImage;
    var holds := seq(|ss|, k requires 0 <= k < |ss| => HoldsImage(env, ss[k], p));
    forall k | i <= k < j ensures holds[k] ==> holds[k + 1] {
      if ss[k + 1].flash.At(p) != ss[k].flash.At(p) {
        InstalledImageValidates(env, ss[k], es[k], ss[k + 1], p);
      } else {
        SameImage(env, ss[k], ss[k + 1], p);
      }
    }
    KeptChain(holds, i, j);
  }

  lemma SameImage(env: Env, s: State, s': State, p: Partition)
    requires ValidState(env, s) && ValidState(env, s') && s'.flash.At(p) == s.flash.At(p)
    ensures HoldsImage(env, s', p) == HoldsImage(env, s, p)
  {
  }

  // ---------- versions ----------

  ghost function VersionIn(env: Env, s: State, p: Partition): Option<u32>
    requires ValidState(env, s)
  {
    FlashVersion(env.fw, s.flash.At(p))
  }

  lemma EventKeepsVersion(env: Env, s: State, e: Event, s': State, p: Partition)
    requires ValidState(env, s) && Step(env, s, e, s')
    requires e.BootEvent? ==> e.io.read
    ensures NotOlder(VersionIn(env, s, p), VersionIn(env, s', p))
    ensures (e.BootEvent? ==> e.io.areas && e.io.flash) && VersionIn(env, s, p).Some? ==> VersionIn(env, s', p).Some?
  {
    hide Boot, FlashVersion, Invalidated, FileJudged, SomeVersionFits, PassesGate;
    EventEffect(env, s, e, s', p);
    if s'.flash.At(p) != s.flash.At(p) {
      if InvalidatedBy(env, s, e, s', p) {
        InvalidatedKeepsVersion(env.fw, s.flash.At(p));
      } else {
        var m: nat :| InstalledBy(env, s, e, p, m, s'.flash.At(p));
        VersionAfterCopy(env.fw, s.files[FileFor(p)], m, env.size(p));
      }
    }
  }

  /** The versions of a partition over a run. */
  ghost function Versions(env: Env, ss: seq<State>, p: Partition): (vs: seq<Option<u32>>)
    requires forall i | 0 <= i < |ss| :: ValidState(env, ss[i])
    ensures |vs| == |ss|
    ensures forall i | 0 <= i < |ss| :: vs[i] == VersionIn(env, ss[i], p)
  {
    seq(|ss|, i requires 0 <= i < |ss| => VersionIn(env, ss[i], p))
  }

  lemma {:induction false} NotOlderChain(vs: seq<Option<nat>>, i: nat, j: nat)
    requires i <= j < |vs|
    requires forall k | i <= k < j :: NotOlder(vs[k], vs[k + 1])
    ensures NotOlder(vs[i], vs[j])
    decreases j
  {
    if i < j {
      NotOlderChain(vs, i, j - 1);
      assert NotOlder(vs[j - 1], vs[j - 1 + 1]);
    }
  }

  /**
   In every run whose file reads succeed, the firmware version of a partition
   never decreases, even when flash operations fail: from any state to any
   later one it stays or grows, or the partition has lost its firmware.
   */
  lemma VersionsNeverDecrease(env: Env, ss: seq<State>, es: seq<Event>, p: Partition, i: nat, j: nat)
    requires IsRun(env, ss, es) && i <= j < |ss|
    requires forall k | 0 <= k < |es| :: es[k].BootEvent? ==> es[k].io.read
    ensures NotOlder(VersionIn(env, ss[i], p), VersionIn(env, ss[j], p))
  {
    var vs := Versions(env, ss, p);
    forall k | i <= k < j ensures NotOlder(vs[k], vs[k + 1]) {
      EventKeepsVersion(env, ss[k], es[k], ss[k + 1], p);
    }
    NotOlderChain(vs, i, j);
  }

  lemma FirmwareStays(env: Env, ss: seq<State>, es: seq<Event>, p: Partition, i: nat, j: nat)
    requires IsRun(env, ss, es) && i <= j < |ss|
    requires forall k | 0 <= k < |es| :: FlashCompletes(es[k])
    requires VersionIn(env, ss[i], p).Some?
    ensures VersionIn(env, ss[j], p).Some?
  {
    hide Step, VersionIn;
    var some := seq(|ss|, k requires 0 <= k < |ss| => VersionIn(env, ss[k], p).Some?);
    forall k | i <= k < j ensures some[k] ==> some[k + 1] {
      EventKeepsVersion(env, ss[k], es[k], ss[k + 1], p);
    }
    KeptChain(some, i, j);
  }

  /** When flash operations succeed too, firmware is never lost. */
  lemma FirmwareNeverLost(env: Env, ss: seq<State>, es: seq<Event>, p: Partition, i: nat, j: nat)
    requires IsRun(env, ss, es) && i <= j < |ss|
    requires forall k | 0 <= k < |es| :: FlashCompletes(es[k])
    requires VersionIn(env, ss[i], p).Some?
    ensures VersionIn(env, ss[j], p).Some? && VersionIn(env, ss[i], p).value <= VersionIn(env, ss[j], p).value
  {
    FirmwareStays(env, ss, es, p, i, j);
    VersionsNeverDecrease(env, ss, es, p, i, j);
  }

  // ---------- boots in which everything works ----------

  /** The buffer in which a boot checks the file of its own slot: the other slot's file was read to it before. */
  ghost function BufferAtCheck(env: Env, slot: Partition, s: State): (r: seq<byte>)
    requires ValidState(env, s)
    ensures |r| == env.BufSize()
  {
    BufferAfter(env, env.size(OtherSlot(slot)), true, s.files, FileFor(OtherSlot(slot)), s.shared)
  }

  /** Does a boot of the slot find a file for that slot to hand over? */
  ghost predicate HandsOver(env: Env, running: Rev, slot: Partition, s: State)
    requires ValidState(env, s)
  {
    && FileFor(slot) in s.files
    && HandoffGate(env, running, slot, s.files[FileFor(slot)], BufferAtCheck(env, slot, s))
  }

  /** Is there a file for the partition that passes the gate? */
  ghost predicate Passes(env: Env, running: Rev, s: State, p: Partition)
    requires ValidState(env, s)
  {
    FileFor(p) in s.files && PassesGate(env, running, s, s.files[FileFor(p)], p)
  }

  /** Reading a file twice is reading it once. */
  lemma LoadedTwice(data: seq<byte>, shared: seq<byte>)
    ensures Loaded(data, Loaded(data, shared)) == Loaded(data, shared)
  {
    if |data| <= |shared| {
      assert Loaded(data, shared)[|data|..] == shared[|data|..];
    }
  }

  lemma HandoffGateAgain(env: Env, running: Rev, p: Partition, data: seq<byte>, shared: seq<byte>)
    requires env.Valid() && |shared| == env.BufSize()
    ensures HandoffGate(env, running, p, data, Loaded(data, shared)) == HandoffGate(env, running, p, data, shared)
  {
    hide B0Accepts, CheckImage, FileVersion, Loaded;
    LoadedTwice(data, shared);
  }

  /** When the checks work, the state before a boot decides about its handoff and its loader update. */
  lemma LoaderStepDecided(env: Env, e: Event, s: State, s1: State, s2: State)
    requires ValidState(env, s) && e.BootEvent? && IsLoaderSlot(e.slot)
    requires LoaderStep(env, e.io, e.running, e.slot, s, s1, s2, e.trace.own, e.trace.handoff)
    requires ChecksWork(e.io)
    ensures e.trace.own <==> Passes(env, e.running, s, OtherSlot(e.slot))
    ensures e.trace.handoff <==> HandsOver(env, e.running, e.slot, s)
    ensures KeepsFile(s, s1, FileFor(e.slot))
    ensures s1.shared == BufferAtCheck(env, e.slot, s)
    ensures s2.shared == BufferAfter(env, env.size(e.slot), true, s.files, FileFor(e.slot), s1.shared)
  {
    hide Gate, HandoffGate, Loaded;
    var slot := e.slot;
    UpdateEffect(env, e.io, e.running, s, s1, FileFor(OtherSlot(slot)), OtherSlot(slot), e.trace.own);
  }

  lemma HandoffDecided(env: Env, s: State, e: Event, s': State)
    requires ValidState(env, s) && Step(env, s, e, s') && e.BootEvent? && e.mounted && ChecksWork(e.io)
    ensures e.trace.handoff <==> HandsOver(env, e.running, e.slot, s)
  {
    LoaderStepDecided(env, e, s, e.trace.s1, e.trace.s2);
  }

  /** The buffer after a boot: both loader files were read to it, if they are there and fit. */
  ghost function BufferAfterBoot(env: Env, slot: Partition, s: State): (r: seq<byte>)
    requires ValidState(env, s)
    ensures |r| == env.BufSize()
  {
    BufferAfter(env, env.size(slot), true, s.files, FileFor(slot), BufferAtCheck(env, slot, s))
  }

  /** A partition after a boot that may install its file, when everything works. */
  ghost function AfterUpdate(env: Env, running: Rev, s: State, p: Partition): (cells: seq<byte>)
    requires ValidState(env, s)
    ensures |cells| == env.size(p)
  {
    assert |s.flash.At(p)| == env.size(p);
    if Passes(env, running, s, p) && |s.files[FileFor(p)]| <= env.size(p)
    then Filled(s.files[FileFor(p)], env.size(p))
    else s.flash.At(p)
  }

  lemma WorkingUpdate(env: Env, running: Rev, s: State, s': State, p: Partition, updated: bool)
    requires ValidState(env, s) && Updated(env, ALL_OK, running, s, s', FileFor(p), p, IsLoaderSlot(p), updated)
    ensures updated <==> Passes(env, running, s, p)
    ensures s'.flash.At(p) == AfterUpdate(env, running, s, p) && SameFlashExcept(s, s', p)
    ensures s'.files == s.files - {FileFor(p)}
  {
    hide Gate, FileJudged, SomeVersionFits, DowngradeJudged, VersionFits, Loaded;
    assert |s.flash.At(p)| == env.size(p);
    assert s'.files == s.files ==> s.files == s.files - {FileFor(p)};
  }

  /** The gate to an image partition does not look at the buffer, nor at other partitions or files. */
  lemma PassesLater(env: Env, running: Rev, s: State, s': State, p: Partition)
    requires ValidState(env, s) && ValidState(env, s') && !IsLoaderSlot(p)
    requires s'.flash.At(p) == s.flash.At(p) && KeepsFile(s, s', FileFor(p))
    ensures Passes(env, running, s', p) == Passes(env, running, s, p)
    ensures AfterUpdate(env, running, s', p) == AfterUpdate(env, running, s, p)
  {
  }

  lemma WorkingLoaderStep(env: Env, e: Event, s: State, s1: State, s2: State)
    requires ValidState(env, s) && e.BootEvent? && IsLoaderSlot(e.slot) && e.io == ALL_OK
    requires LoaderStep(env, e.io, e.running, e.slot, s, s1, s2, e.trace.own, e.trace.handoff)
    ensures e.trace.own <==> Passes(env, e.running, s, OtherSlot(e.slot))
    ensures e.trace.handoff <==> HandsOver(env, e.running, e.slot, s)
    ensures s2.flash.At(OtherSlot(e.slot)) == AfterUpdate(env, e.running, s, OtherSlot(e.slot))
    ensures SameFlashExcept(s, s2, OtherSlot(e.slot))
    ensures s2.files == s.files - {FileFor(OtherSlot(e.slot))}
                        - if e.trace.handoff then {} else {FileFor(e.slot)}
    ensures s2.shared == BufferAfterBoot(env, e.slot, s)
  {
    hide Gate, HandoffGate, FileJudged, DowngradeJudged, Passes, HandsOver, Loaded, BufferAfter;
    LoaderStepDecided(env, e, s, s1, s2);
    WorkingUpdate(env, e.running, s, s1, OtherSlot(e.slot), e.trace.own);
    assert s2.files == s1.files || s2.files == s1.files - {FileFor(e.slot)};
    if !e.trace.handoff {
      assert s2.files == s1.files - {FileFor(e.slot)};
    }
  }

  lemma WorkingImageStep(env: Env, running: Rev, s: State, s1: State, s2: State, loader: bool, app: bool)
    requires ValidState(env, s) && ImageStep(env, ALL_OK, running, s, s1, s2, loader, app)
    ensures loader <==> Passes(env, running, s, Secondary)
    ensures app <==> Passes(env, running, s, Primary)
    ensures s2.flash.s0 == s.flash.s0 && s2.flash.s1 == s.flash.s1
    ensures forall p | !IsLoaderSlot(p) :: s2.flash.At(p) == AfterUpdate(env, running, s, p)
    ensures s2.files == s.files - {LoaderFile} - {AppFile}
    ensures s2.shared == s.shared
  {
    hide Passes, AfterUpdate;
    WorkingUpdate(env, running, s, s1, Secondary, loader);
    WorkingUpdate(env, running, s1, s2, Primary, app);
    PassesLater(env, running, s, s1, Primary);
    assert s2.flash.At(S0) == s1.flash.At(S0) == s.flash.At(S0);
    assert s2.flash.At(S1) == s1.flash.At(S1) == s.flash.At(S1);
    assert s2.flash.At(Secondary) == s1.flash.At(Secondary);
  }

  /** The partition contents, files, buffer and reboot of a boot in which everything works. */
  ghost predicate WorkingOutcome(env: Env, running: Rev, slot: Partition, s: State, s': State, reboot: bool)
    requires ValidState(env, s)
  {
    var handoff := HandsOver(env, running, slot, s);
    && s'.flash.At(OtherSlot(slot)) == AfterUpdate(env, running, s, OtherSlot(slot))
    && s'.flash.At(slot)
       == (if handoff && slot == S0 then Invalidated(env.fw, s.flash.At(S0)) else s.flash.At(slot))
    && (forall p | !IsLoaderSlot(p) ::
          s'.flash.At(p) == if handoff then s.flash.At(p) else AfterUpdate(env, running, s, p))
    && s'.files == (if handoff then s.files - {FileFor(OtherSlot(slot))} else map[])
    && s'.shared == BufferAfterBoot(env, slot, s)
    && (reboot <==> handoff || exists p | p != slot :: Passes(env, running, s, p))
  }

  lemma NoFileLeft(files: map<FileName, FileData>)
    ensures files - {Mcuboot0File} - {Mcuboot1File} - {LoaderFile} - {AppFile} == map[]
    ensures files - {Mcuboot1File} - {Mcuboot0File} - {LoaderFile} - {AppFile} == map[]
  {
    forall n: FileName ensures n !in files - {Mcuboot0File} - {Mcuboot1File} - {LoaderFile} - {AppFile} {
      assert n == Mcuboot0File || n == Mcuboot1File || n == LoaderFile || n == AppFile;
    }
    assert files - {Mcuboot1File} - {Mcuboot0File} == files - {Mcuboot0File} - {Mcuboot1File};
  }

  lemma WorkingHandoff(env: Env, s: State, e: Event, s': State)
    requires ValidState(env, s) && Step(env, s, e, s') && e.BootEvent? && e.io == ALL_OK
    requires e.trace.handoff
    ensures WorkingOutcome(env, e.running, e.slot, s, s', e.reboot)
  {
    hide Passes, AfterUpdate, BufferAfterBoot, HandsOver, Updated, Prechecked, Invalidated;
    WorkingLoaderStep(env, e, s, e.trace.s1, e.trace.s2);
  }

  lemma WorkingPass(env: Env, s: State, e: Event, s': State)
    requires ValidState(env, s) && Step(env, s, e, s') && e.BootEvent? && e.io == ALL_OK
    requires !e.trace.handoff
    ensures WorkingOutcome(env, e.running, e.slot, s, s', e.reboot)
  {
    hide Passes, AfterUpdate, BufferAfterBoot, HandsOver, Updated, Prechecked, Invalidated;
    var t, running := e.trace, e.running;
    WorkingLoaderStep(env, e, s, t.s1, t.s2);
    WorkingImageStep(env, running, t.s2, t.s3, s', t.loader, t.app);
    forall p | !IsLoaderSlot(p)
      ensures Passes(env, running, t.s2, p) == Passes(env, running, s, p)
      ensures s'.flash.At(p) == AfterUpdate(env, running, s, p)
    {
      PassesLater(env, running, s, t.s2, p);
    }
    forall p | p != e.slot && Passes(env, running, s, p)
      ensures p == OtherSlot(e.slot) || p == Primary || p == Secondary
    {
    }
    assert !IsLoaderSlot(Primary) && !IsLoaderSlot(Secondary);
    NoFileLeft(s.files);
  }

  /**
   When everything works, the state before a boot determines flash, files,
   buffer and reboot after it.
   */
  lemma WorkingBoot(env: Env, s: State, e: Event, s': State)
    requires ValidState(env, s) && Step(env, s, e, s') && e.BootEvent? && e.io == ALL_OK
    ensures WorkingOutcome(env, e.running, e.slot, s, s', e.reboot)
  {
    if e.trace.handoff {
      WorkingHandoff(env, s, e, s');
    } else {
      WorkingPass(env, s, e, s');
    }
  }
}
