/**
 The firmware information structure: where it is found in a file and in a
 flash partition, and what copying a file or invalidating an image does to it.
 The structure's layout is that of the nRF Connect SDK and is a parameter here.
 */
module FwInfo {
  import opened Bytes
  import opened Devices
  import opened ImgOp

  /** Magic, allowed offsets, size, field offsets, and the word that marks an image invalid. */
  datatype FwInfoLayout = FwInfoLayout(
    magic: seq<byte>, offsets: seq<nat>, size: nat,
    versionAt: nat, addressAt: nat, validAt: nat, invalidWord: seq<byte>)
  {
    /**
     The fields follow the magic and do not overlap, structures at different
     offsets do not overlap, and the magic does not end like erased flash.
     */
    ghost predicate Valid() {
      && 0 < |magic| && magic[|magic| - 1] != 0xFF && |invalidWord| == 4
      && |magic| <= versionAt && |magic| <= addressAt && |magic| <= validAt
      && versionAt + 4 <= size && addressAt + 4 <= size && validAt + 4 <= size
      && (versionAt + 4 <= validAt || validAt + 4 <= versionAt)
      && (forall i, j | 0 <= i < j < |offsets| :: offsets[i] + size <= offsets[j])
    }

    /** Every allowed structure lies inside the given number of bytes. */
    ghost predicate FitsIn(n: nat) {
      forall o | o in offsets :: o + size <= n
    }
  }

  predicate MagicAt(l: FwInfoLayout, s: seq<byte>, o: nat) {
    o + |l.magic| <= |s| && s[o..o + |l.magic|] == l.magic
  }

  /** fw_info_find: the first allowed offset where the magic stands. */
  function FlashFindFrom(l: FwInfoLayout, cells: seq<byte>, i: nat): Option<nat>
    requires i <= |l.offsets|
    decreases |l.offsets| - i
  {
    if i == |l.offsets| then None
    else if MagicAt(l, cells, l.offsets[i]) then Some(l.offsets[i])
    else FlashFindFrom(l, cells, i + 1)
  }

  function FlashFind(l: FwInfoLayout, cells: seq<byte>): Option<nat> {
    FlashFindFrom(l, cells, 0)
  }

  /** In a file the whole structure must be there. */
  predicate WholeAt(l: FwInfoLayout, data: seq<byte>, o: nat) {
    o + l.size <= |data| && MagicAt(l, data, o)
  }

  function FileFindFrom(l: FwInfoLayout, data: seq<byte>, i: nat): (f: Option<nat>)
    requires i <= |l.offsets|
    ensures f.Some? ==> WholeAt(l, data, f.value)
    decreases |l.offsets| - i
  {
    if i == |l.offsets| then None
    else if WholeAt(l, data, l.offsets[i]) then Some(l.offsets[i])
    else FileFindFrom(l, data, i + 1)
  }

  function FileFind(l: FwInfoLayout, data: seq<byte>): Option<nat> {
    FileFindFrom(l, data, 0)
  }

  lemma {:induction false} FlashFindSound(l: FwInfoLayout, cells: seq<byte>, i: nat)
    requires i <= |l.offsets|
    ensures var f := FlashFindFrom(l, cells, i); f.Some? ==> f.value in l.offsets && MagicAt(l, cells, f.value)
    decreases |l.offsets| - i
  {
    if i < |l.offsets| {
      FlashFindSound(l, cells, i + 1);
    }
  }

  lemma {:induction false} FileFindSound(l: FwInfoLayout, data: seq<byte>, i: nat)
    requires i <= |l.offsets|
    ensures var f := FileFindFrom(l, data, i); f.Some? ==> exists j :: i <= j < |l.offsets| && l.offsets[j] == f.value
    decreases |l.offsets| - i
  {
    if i < |l.offsets| {
      FileFindSound(l, data, i + 1);
    }
  }

  /** Does the magic stand at the offset, byte by byte? */
  ghost predicate MagicBytesAt(l: FwInfoLayout, s: seq<byte>, o: nat) {
    o + |l.magic| <= |s| && forall k | 0 <= k < |l.magic| :: s[o + k] == l.magic[k]
  }

  lemma MagicAtIff(l: FwInfoLayout, s: seq<byte>, o: nat)
    ensures MagicAt(l, s, o) <==> MagicBytesAt(l, s, o)
  {
    if o + |l.magic| <= |s| {
      var slice := s[o..o + |l.magic|];
      assert forall k | 0 <= k < |slice| :: slice[k] == s[o + k];
    }
  }

  /** The search in flash finds the first allowed offset with the magic. */
  lemma {:induction false} FlashFindIsFirst(l: FwInfoLayout, cells: seq<byte>, i: nat)
    requires i <= |l.offsets|
    ensures match FlashFindFrom(l, cells, i)
            case None => forall j | i <= j < |l.offsets| :: !MagicBytesAt(l, cells, l.offsets[j])
            case Some(o) => exists n | i <= n < |l.offsets| ::
                              && l.offsets[n] == o && MagicBytesAt(l, cells, o)
                              && forall j | i <= j < n :: !MagicBytesAt(l, cells, l.offsets[j])
    decreases |l.offsets| - i
  {
    hide MagicAt, MagicBytesAt;
    if i < |l.offsets| {
      MagicAtIff(l, cells, l.offsets[i]);
      FlashFindIsFirst(l, cells, i + 1);
    }
  }

  /** The search in a file finds the first allowed offset where the magic stands and the structure is whole. */
  lemma {:induction false} FileFindIsFirst(l: FwInfoLayout, data: seq<byte>, i: nat)
    requires i <= |l.offsets|
    ensures match FileFindFrom(l, data, i)
            case None =>
              forall j | i <= j < |l.offsets| ::
                !(MagicBytesAt(l, data, l.offsets[j]) && l.offsets[j] + l.size <= |data|)
            case Some(o) => exists n | i <= n < |l.offsets| ::
                              && l.offsets[n] == o && MagicBytesAt(l, data, o) && o + l.size <= |data|
                              && forall j | i <= j < n ::
                                   !(MagicBytesAt(l, data, l.offsets[j]) && l.offsets[j] + l.size <= |data|)
    decreases |l.offsets| - i
  {
    hide MagicAt, MagicBytesAt;
    if i < |l.offsets| {
      MagicAtIff(l, data, l.offsets[i]);
      FileFindIsFirst(l, data, i + 1);
    }
  }

  /** The version of the firmware in a partition, if there is any. */
  function FlashVersion(l: FwInfoLayout, cells: seq<byte>): Option<u32>
    requires l.Valid() && l.FitsIn(|cells|)
  {
    FlashFindSound(l, cells, 0);
    match FlashFind(l, cells)
    case Some(o) => Some(Le32(cells, o + l.versionAt))
    case None => None
  }

  function FileVersion(l: FwInfoLayout, data: seq<byte>): Option<u32>
    requires l.Valid()
  {
    match FileFind(l, data)
    case Some(o) => Some(Le32(data, o + l.versionAt))
    case None => None
  }

  /** A version that is stored in little-endian order is the version that is read, in flash and in files. */
  lemma StoredVersionIsRead(l: FwInfoLayout, s: seq<byte>, o: nat, v: u32)
    requires l.Valid() && o + l.size <= |s| && s[o + l.versionAt..o + l.versionAt + 4] == EncodeLe32(v)
    ensures l.FitsIn(|s|) && FlashFind(l, s) == Some(o) ==> FlashVersion(l, s) == Some(v)
    ensures FileFind(l, s) == Some(o) ==> FileVersion(l, s) == Some(v)
  {
    hide EncodeLe32, Le32, FlashFindFrom, FileFindFrom;
    Le32Stored(s, o + l.versionAt, v);
  }

  /** A whole structure with this version stands at an allowed offset. */
  ghost predicate HasVersion(l: FwInfoLayout, data: seq<byte>, version: u32)
    requires l.Valid()
  {
    exists o :: o in l.offsets && WholeAt(l, data, o) && version == Le32(data, o + l.versionAt)
  }

  /** fw_info_check_in_file */
  method FwInfoCheckInFile(l: FwInfoLayout, file: FsFile, o: nat, info: array<byte>) returns (ok: bool)
    requires l.Valid() && info.Length == l.size
    modifies file, info
    ensures ok ==> WholeAt(l, file.data, o) && info[..] == file.data[o..o + l.size]
    ensures file.reliable && WholeAt(l, file.data, o) ==> ok
  {
    var rc := file.Seek(o);
    if rc != 0 {
      return false;
    }
    rc := file.Read(info, l.size);
    if rc < 0 || rc != l.size {
      return false;
    }
    assert info[..] == file.data[o..o + l.size];
    assert info[..|l.magic|] == info[..][..|l.magic|] == file.data[o..o + |l.magic|];
    return info[..|l.magic|] == l.magic;
  }

  lemma WholeInfo(l: FwInfoLayout, data: seq<byte>, o: nat, info: seq<byte>)
    requires l.Valid() && WholeAt(l, data, o) && info == data[o..o + l.size]
    ensures Le32(info, l.versionAt) == Le32(data, o + l.versionAt)
  {
    var v := l.versionAt;
    assert info[v] == data[o + v] && info[v + 1] == data[o + v + 1];
    assert info[v + 2] == data[o + v + 2] && info[v + 3] == data[o + v + 3];
  }

  /**
   fw_info_find_in_file: the version of the structure that was found; a reading
   fault can only make it overlook one.
   */
  method FwInfoFindInFile(l: FwInfoLayout, file: FsFile) returns (found: bool, version: u32)
    requires l.Valid()
    modifies file
    ensures file.reliable ==> (found <==> FileVersion(l, file.data).Some?)
    ensures file.reliable && found ==> FileVersion(l, file.data) == Some(version)
    ensures found ==> HasVersion(l, file.data, version)
  {
    hide Le32, MagicAt;
    var info := new byte[l.size];
    for i := 0 to |l.offsets|
      invariant file.reliable ==> FileFind(l, file.data) == FileFindFrom(l, file.data, i)
    {
      var ok := FwInfoCheckInFile(l, file, l.offsets[i], info);
      if ok {
        WholeInfo(l, file.data, l.offsets[i], info[..]);
        return true, Le32(info[..], l.versionAt);
      }
    }
    return false, 0;
  }

  // ---------- what the partition shows after a copy ----------

  /** On erased flash behind a prefix, the magic shows only where the prefix has it. */
  lemma MagicInPrefix(l: FwInfoLayout, data: seq<byte>, m: nat, size: nat, o: nat)
    requires l.Valid() && m <= |data| && m <= size
    ensures MagicAt(l, Filled(data[..m], size), o) <==> o + |l.magic| <= m && MagicAt(l, data, o)
  {
    var cells, end := Filled(data[..m], size), o + |l.magic|;
    if end <= m {
      assert cells[o..end] == data[o..end];
    } else if end <= size {
      assert cells[o..end][|l.magic| - 1] == cells[end - 1] == 0xFF;
    }
  }

  lemma {:induction false} NothingBehind(l: FwInfoLayout, data: seq<byte>, m: nat, size: nat, i: nat)
    requires l.Valid() && m <= |data| && m <= size && i <= |l.offsets|
    requires i < |l.offsets| ==> l.offsets[i] + |l.magic| > m
    ensures FlashFindFrom(l, Filled(data[..m], size), i) == None
    decreases |l.offsets| - i
  {
    if i < |l.offsets| {
      MagicInPrefix(l, data, m, size, l.offsets[i]);
      NothingBehind(l, data, m, size, i + 1);
    }
  }

  /** The flash search finds the file's structure, or nothing if the copy was cut before it. */
  lemma {:induction false} FindAfterCopy(l: FwInfoLayout, data: seq<byte>, m: nat, size: nat, i: nat, o: nat)
    requires l.Valid() && m <= |data| && m <= size && i <= |l.offsets|
    requires FileFindFrom(l, data, i) == Some(o)
    ensures FlashFindFrom(l, Filled(data[..m], size), i) == if o + |l.magic| <= m then Some(o) else None
    decreases |l.offsets| - i
  {
    MagicInPrefix(l, data, m, size, l.offsets[i]);
    FileFindSound(l, data, i);
    if WholeAt(l, data, l.offsets[i]) {
      if o + |l.magic| > m {
        NothingBehind(l, data, m, size, i);
      }
    } else {
      FileFindSound(l, data, i + 1);
      FindAfterCopy(l, data, m, size, i + 1, o);
    }
  }

  /** Is there no firmware any more, or one that is not older? */
  predicate NotOlder(before: Option<nat>, after: Option<nat>) {
    after.Some? ==> before.Some? && before.value <= after.value
  }

  lemma Le32Monotone(s: seq<byte>, t: seq<byte>, at: nat)
    requires at + 4 <= |s| && at + 4 <= |t|
    requires forall k | at <= k < at + 4 :: s[k] <= t[k]
    ensures Le32(s, at) <= Le32(t, at)
  {
    assert s[at] <= t[at] && s[at + 1] <= t[at + 1] && s[at + 2] <= t[at + 2] && s[at + 3] <= t[at + 3];
  }

  /**
   A file's firmware shows the file's version once it is copied; a copy that
   was cut shows none, or none that is older.
   */
  lemma VersionAfterCopy(l: FwInfoLayout, data: seq<byte>, m: nat, size: nat)
    requires l.Valid() && l.FitsIn(size) && m <= |data| && m <= size
    requires FileVersion(l, data).Some?
    ensures NotOlder(FileVersion(l, data), FlashVersion(l, Filled(data[..m], size)))
    ensures m == |data| ==> FlashVersion(l, Filled(data[..m], size)) == FileVersion(l, data)
  {
    hide MagicAt, Le32;
    var o, cells := FileFind(l, data).value, Filled(data[..m], size);
    FileFindSound(l, data, 0);
    FindAfterCopy(l, data, m, size, 0, o);
    if o + |l.magic| <= m {
      var v := o + l.versionAt;
      assert o in l.offsets;
      forall k | v <= k < v + 4 ensures data[k] <= cells[k] && (m == |data| ==> data[k] == cells[k]) {
      }
      Le32Monotone(data, cells, v);
      if m == |data| {
        Le32Monotone(cells, data, v);
      }
    }
  }

  /** For a file that could hold every allowed structure, both searches agree. */
  lemma {:induction false} FileAndFlashSearchAgree(l: FwInfoLayout, data: seq<byte>, size: nat, i: nat)
    requires l.Valid() && l.FitsIn(|data|) && |data| <= size && i <= |l.offsets|
    ensures FlashFindFrom(l, Filled(data, size), i) == FileFindFrom(l, data, i)
    decreases |l.offsets| - i
  {
    if i < |l.offsets| {
      assert data[..|data|] == data && l.offsets[i] in l.offsets;
      MagicInPrefix(l, data, |data|, size, l.offsets[i]);
      FileAndFlashSearchAgree(l, data, size, i + 1);
    }
  }

  // ---------- marking an image invalid ----------

  /** fw_info_invalidate programs the validity word; an image without the structure stays as it is. */
  function Invalidated(l: FwInfoLayout, cells: seq<byte>): (r: seq<byte>)
    requires l.Valid() && l.FitsIn(|cells|)
    ensures |r| == |cells|
  {
    FlashFindSound(l, cells, 0);
    match FlashFind(l, cells)
    case Some(o) => Programmed(cells, o + l.validAt, l.invalidWord)
    case None => cells
  }

  /** The mark clears bits of the validity word, those of the invalid word, and changes nothing else. */
  lemma MarkedCells(l: FwInfoLayout, cells: seq<byte>, o: nat)
    requires l.Valid() && l.FitsIn(|cells|) && FlashFind(l, cells) == Some(o)
    ensures o + l.validAt + 4 <= |cells|
    ensures forall k | 0 <= k < |cells| ::
              Invalidated(l, cells)[k]
              == if o + l.validAt <= k < o + l.validAt + 4 then BitAnd(cells[k], l.invalidWord[k - o - l.validAt])
                 else cells[k]
  {
    hide FlashFindFrom, BitAnd;
    FlashFindSound(l, cells, 0);
  }

  /** A word that was valid, here all ones, holds the invalid word after the mark. */
  lemma MarkedErasedWord(l: FwInfoLayout, cells: seq<byte>, o: nat)
    requires l.Valid() && l.FitsIn(|cells|) && FlashFind(l, cells) == Some(o)
    requires o + l.validAt + 4 <= |cells| && cells[o + l.validAt..o + l.validAt + 4] == Ones(4)
    ensures Invalidated(l, cells)[o + l.validAt..o + l.validAt + 4] == l.invalidWord
  {
    hide FlashFindFrom, BitAnd, Invalidated;
    var v := o + l.validAt;
    MarkedCells(l, cells, o);
    forall k | 0 <= k < 4 ensures Invalidated(l, cells)[v + k] == l.invalidWord[k] {
      assert cells[v + k] == cells[v..v + 4][k] == 0xFF;
      AndErased(l.invalidWord[k]);
    }
  }

  lemma MagicKept(l: FwInfoLayout, cells: seq<byte>, marked: seq<byte>, o: nat, p: nat)
    requires l.Valid() && p in l.offsets && o in l.offsets && p + l.size <= |cells|
    requires SameElsewhere(marked, cells, o + l.validAt, 4)
    ensures MagicAt(l, marked, p) <==> MagicAt(l, cells, p)
  {
    var i, j :| 0 <= i < |l.offsets| && 0 <= j < |l.offsets| && l.offsets[i] == p && l.offsets[j] == o;
    assert p + l.size <= o || p == o || o + l.size <= p;
    assert marked[p..p + |l.magic|] == cells[p..p + |l.magic|];
  }

  /** Changes inside the validity word of one structure do not change the search. */
  lemma {:induction false} FindIgnoresValidity(l: FwInfoLayout, cells: seq<byte>, marked: seq<byte>, o: nat, i: nat)
    requires l.Valid() && l.FitsIn(|cells|) && o in l.offsets && i <= |l.offsets|
    requires SameElsewhere(marked, cells, o + l.validAt, 4)
    ensures FlashFindFrom(l, marked, i) == FlashFindFrom(l, cells, i)
    decreases |l.offsets| - i
  {
    if i < |l.offsets| {
      assert l.offsets[i] in l.offsets;
      MagicKept(l, cells, marked, o, l.offsets[i]);
      FindIgnoresValidity(l, cells, marked, o, i + 1);
    }
  }

  lemma SameVersion(l: FwInfoLayout, cells: seq<byte>, marked: seq<byte>, o: nat)
    requires l.Valid() && l.FitsIn(|cells|) && o in l.offsets
    requires SameElsewhere(marked, cells, o + l.validAt, 4)
    requires FlashFind(l, cells) == Some(o)
    ensures FlashVersion(l, marked) == FlashVersion(l, cells)
  {
    FindIgnoresValidity(l, cells, marked, o, 0);
    var v := o + l.versionAt;
    assert marked[v..v + 4] == cells[v..v + 4];
    Le32Slice(cells, marked, v);
  }

  /** Marking an image invalid keeps its version. */
  lemma InvalidatedKeepsVersion(l: FwInfoLayout, cells: seq<byte>)
    requires l.Valid() && l.FitsIn(|cells|)
    ensures FlashVersion(l, Invalidated(l, cells)) == FlashVersion(l, cells)
  {
    FlashFindSound(l, cells, 0);
    var f := FlashFind(l, cells);
    if f.Some? {
      ProgrammedElsewhere(cells, f.value + l.validAt, l.invalidWord);
      SameVersion(l, cells, Invalidated(l, cells), f.value);
    }
  }
}
