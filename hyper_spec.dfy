/** The hypermetadata manager's state and its transitions, as pure
    functions over a snapshot of that state: loading and normalising the
    superblock, flushing the summary table, the clean-bit rules, the
    superblock write-back and the reaction to mount-mode changes. The class in
    module UfsHyper is proved to follow these functions step for step. */
module HyperSpec {
  import opened FsRecord

  /** Label stamped into the superblock when the file system becomes writable. */
  const HURD_MOUNT_LABEL := "Hurd /"

  datatype CompatMode = CompatGnu | CompatBsd42 | CompatBsd44

  /** Operator warnings issued while loading. */
  datatype Warning = NotCleanlyUnmounted | ForcedReadOnly | CompatUpgraded

  /** Everything the hypermetadata code reads or writes. */
  datatype Mount = Mount(
    sblock: Superblock,            // the in-core superblock
    disk: Superblock,              // the superblock held in the disk image
    csum: seq<bv8>,                // the in-core summary table
    diskCsum: seq<bv8>,            // device bytes from the summary table's address onward
    ufsClean: int,                 // clean flag as found at load time
    oldformat: bool,
    sblockDirty: bool,
    csumDirty: bool,
    readonly: bool,
    imageWritable: bool,           // protection of the mapped disk image
    compat: CompatMode,
    directSymlinkExtension: bool)

  datatype LoadOutcome =
    | Aborted(error: LoadError)
    | Mounted(state: Mount, warnings: seq<Warning>)

  /** Reading the superblock, checking it, repairing it and copying the
      summary table. A failed check stops the translator before anything is
      written. */
  function Load(m: Mount, deviceBytes: nat): (r: LoadOutcome)
    ensures r.Aborted? <==> LoadCheck(m.disk, |m.diskCsum|, deviceBytes).Some?
    ensures r.Aborted? ==> LoadCheck(m.disk, |m.diskCsum|, deviceBytes) == Some(r.error)
    ensures r.Mounted? ==> var s := r.state;
              && s.disk == m.disk && s.diskCsum == m.diskCsum
              && s.sblock == Normalize(m.disk)
              && Sane(s.sblock, |s.diskCsum|, deviceBytes)
              && |s.csum| == CsumBytes(m.disk.cssize, m.disk.fsize) && s.csum == m.diskCsum[..|s.csum|]
    // The clean flag is remembered, and an unclean file system is read-only
    // whatever mode was asked for.
    ensures r.Mounted? ==> var s := r.state;
              && s.ufsClean == m.disk.clean
              && (m.disk.clean == 0 ==> s.readonly)
              && (m.disk.clean != 0 ==> s.readonly == m.readonly)
    ensures r.Mounted? ==> var s := r.state;
              && s.oldformat == (m.oldformat || IsOldFormat(m.disk))
              && (s.directSymlinkExtension <==> m.disk.maxsymlinklen > 0)
    // The 4.2BSD compatibility mode is given up exactly when the image uses
    // 4.4BSD features; other modes are kept.
    ensures r.Mounted? ==> var s := r.state;
              && (s.compat != m.compat <==> m.compat == CompatBsd42 && HasNewFeatures(m.disk))
              && (s.compat != m.compat ==> s.compat == CompatBsd44)
    ensures r.Mounted? ==>
              && (NotCleanlyUnmounted in r.warnings <==> m.disk.clean == 0)
              && (ForcedReadOnly in r.warnings <==> m.disk.clean == 0 && !m.readonly)
              && (CompatUpgraded in r.warnings <==> r.state.compat != m.compat)
    ensures r.Mounted? ==> var s := r.state;
              s.sblockDirty == m.sblockDirty && s.csumDirty == m.csumDirty && s.imageWritable == m.imageWritable
  {
    match LoadCheck(m.disk, |m.diskCsum|, deviceBytes)
    case Some(e) => Aborted(e)
    case None => Mounted(Loaded(m, deviceBytes), LoadWarnings(m))
  }

  /** The state after a load whose checks all pass. */
  function Loaded(m: Mount, deviceBytes: nat): Mount
    requires LoadCheck(m.disk, |m.diskCsum|, deviceBytes).None?
  {
    var raw := m.disk;
    m.(sblock := Normalize(raw),
       csum := m.diskCsum[..CsumBytes(raw.cssize, raw.fsize)],
       ufsClean := raw.clean,
       readonly := m.readonly || raw.clean == 0,
       oldformat := m.oldformat || IsOldFormat(raw),
       directSymlinkExtension := raw.maxsymlinklen > 0,
       compat := if UpgradesCompat(m) then CompatBsd44 else m.compat)
  }

  predicate UpgradesCompat(m: Mount) {
    HasNewFeatures(m.disk) && m.compat == CompatBsd42
  }

  /** The warnings of a load whose checks all pass, in the order they are issued. */
  function LoadWarnings(m: Mount): seq<Warning> {
    var unclean := m.disk.clean == 0;
    (if unclean then [NotCleanlyUnmounted] else [])
    + (if unclean && !m.readonly then [ForcedReadOnly] else [])
    + (if UpgradesCompat(m) then [CompatUpgraded] else [])
  }

  /** The in-core summary table covers `cssize` bytes, and so does the device
      area it is written to. */
  predicate CsumFits(m: Mount) {
    0 <= m.sblock.cssize <= |m.csum| && m.sblock.cssize <= |m.diskCsum|
  }

  /** A loaded well-formed geometry leaves a summary table that covers `cssize`. */
  lemma LoadedCsumFits(m: Mount, deviceBytes: nat)
    requires Load(m, deviceBytes).Mounted?
    requires m.disk.fsize > 0 && m.disk.cssize >= 0
    ensures CsumFits(Load(m, deviceBytes).state)
  {
    CsumBytesRoundsUp(m.disk);
  }

  /** Flushing a dirty summary table: `readOk` is the outcome of reading the
      device area, `writeOk` that of writing it back, which the translator
      does not look at. */
  function FlushCsum(m: Mount, readOk: bool, writeOk: bool): (r: Mount)
    requires m.csumDirty && readOk ==> CsumFits(m)
    ensures r.csumDirty == (m.csumDirty && !readOk)
    ensures m.csumDirty && readOk && writeOk ==>
              && |r.diskCsum| == |m.diskCsum|
              && r.diskCsum[..m.sblock.cssize] == m.csum[..m.sblock.cssize]
              && r.diskCsum[m.sblock.cssize..] == m.diskCsum[m.sblock.cssize..]
    ensures !(m.csumDirty && readOk && writeOk) ==> r.diskCsum == m.diskCsum
    ensures r == m.(csumDirty := r.csumDirty, diskCsum := r.diskCsum)
    ensures CsumFits(m) ==> CsumFits(r)
  {
    if m.csumDirty && readOk then
      var n := m.sblock.cssize;
      m.(csumDirty := false,
         diskCsum := if writeOk then m.csum[..n] + m.diskCsum[n..] else m.diskCsum)
    else m
  }

  /** A sync asked to mark the file system clean does so only when it was
      clean at load time and the in-core flag is clear. */
  predicate FlipsClean(m: Mount, clean: bool) {
    clean && m.ufsClean != 0 && m.sblock.clean == 0
  }

  function MarkClean(m: Mount, clean: bool): (r: Mount)
    ensures r.sblock.clean != m.sblock.clean <==> FlipsClean(m, clean)
    ensures FlipsClean(m, clean) ==> r.sblock.clean == 1 && r.sblockDirty
    ensures !FlipsClean(m, clean) ==> r == m
    ensures r == m.(sblock := m.sblock.(clean := r.sblock.clean), sblockDirty := r.sblockDirty)
  {
    if FlipsClean(m, clean) then m.(sblock := m.sblock.(clean := 1), sblockDirty := true) else m
  }

  /** The translator asserts that a dirty superblock is never written while
      the file system is read-only. */
  predicate MayWriteBack(m: Mount) {
    m.sblockDirty ==> !m.readonly
  }

  /** Writing the superblock into the disk image when it is dirty, then, on a
      writable file system, clearing an in-core clean flag again and marking
      the superblock dirty so that the next write-back records the clear flag. */
  function WriteBack(m: Mount): (r: Mount)
    requires MayWriteBack(m)
    ensures m.sblockDirty ==> r.disk == DiskImage(m.sblock, m.oldformat)
    ensures !m.sblockDirty ==> r.disk == m.disk
    ensures r.sblockDirty <==> !m.readonly && m.sblock.clean != 0
    ensures !m.readonly ==> r.sblock.clean == 0
    ensures m.readonly ==> r.sblock == m.sblock
    ensures r.sblock == m.sblock.(clean := r.sblock.clean)
    ensures r == m.(sblock := r.sblock, disk := r.disk, sblockDirty := r.sblockDirty)
    // An image that says clean on a writable file system is rewritten at the
    // next write-back.
    ensures !m.readonly && r.disk.clean != 0 && r.disk != m.disk ==> r.sblockDirty
  {
    var written := if m.sblockDirty then m.(disk := DiskImage(m.sblock, m.oldformat), sblockDirty := false) else m;
    if !written.readonly && written.sblock.clean != 0 then
      written.(sblock := written.sblock.(clean := 0), sblockDirty := true)
    else written
  }

  /** What a sync needs: the summary table fits when it will be copied, and
      the superblock is writable when it will be dirty. */
  predicate MaySync(m: Mount, clean: bool, readOk: bool) {
    && (m.csumDirty && readOk ==> CsumFits(m))
    && (m.sblockDirty || FlipsClean(m, clean) ==> !m.readonly)
  }

  /** A sync: flush the summary table, apply the clean-bit rule, write the
      superblock back. */
  function Sync(m: Mount, clean: bool, readOk: bool, writeOk: bool): (r: Mount)
    requires MaySync(m, clean, readOk)
    ensures r.csumDirty == (m.csumDirty && !readOk)
    ensures FlipsClean(m, clean) ==> r.disk == DiskImage(m.sblock.(clean := 1), m.oldformat)
    ensures !FlipsClean(m, clean) && m.sblockDirty ==> r.disk == DiskImage(m.sblock, m.oldformat)
    ensures !FlipsClean(m, clean) && !m.sblockDirty ==> r.disk == m.disk
    ensures !m.readonly ==> r.sblock.clean == 0
    ensures r.sblockDirty <==> !m.readonly && (FlipsClean(m, clean) || m.sblock.clean != 0)
    ensures r.sblock == m.sblock.(clean := r.sblock.clean)
    ensures r.readonly == m.readonly && r.ufsClean == m.ufsClean && r.oldformat == m.oldformat
    ensures CsumFits(m) ==> CsumFits(r)
  {
    WriteBack(MarkClean(FlushCsum(m, readOk, writeOk), clean))
  }

  /** The reaction to a change of mount mode, made after the new mode has
      been recorded: going read-only drops the pending superblock write;
      going writable stamps the mount label, clears the clean flag and syncs. */
  function ModeChange(m: Mount, readonly: bool, readOk: bool, writeOk: bool): (r: Mount)
    requires !readonly ==> !m.readonly && (m.csumDirty && readOk ==> CsumFits(m))
    ensures r.imageWritable == !readonly
    ensures !r.sblockDirty
    ensures readonly ==> r.disk == m.disk && r.sblock == m.sblock && r == m.(imageWritable := false, sblockDirty := false)
    ensures !readonly ==>
              && r.sblock == m.sblock.(fsmnt := HURD_MOUNT_LABEL, clean := 0)
              && r.disk == DiskImage(r.sblock, m.oldformat)
              && r.disk.clean == 0 && r.disk.fsmnt == HURD_MOUNT_LABEL
              && r.csumDirty == (m.csumDirty && !readOk)
  {
    if readonly then
      m.(imageWritable := false, sblockDirty := false)
    else
      var stamped := m.(imageWritable := true,
                        sblock := m.sblock.(fsmnt := HURD_MOUNT_LABEL, clean := 0),
                        sblockDirty := true);
      Sync(stamped, false, readOk, writeOk)
  }

  /** Two syncs in a row that ask for the clean flag, on a writable file
      system that was clean at load time: the image is left saying clean,
      while the in-core record says dirty and is queued for write-back. */
  lemma SyncCleanTwice(m: Mount, readOk1: bool, writeOk1: bool, readOk2: bool, writeOk2: bool)
    requires !m.readonly && m.ufsClean != 0
    requires !m.csumDirty || CsumFits(m)
    ensures MaySync(m, true, readOk1)
    ensures var m1 := Sync(m, true, readOk1, writeOk1);
            MaySync(m1, true, readOk2) &&
            var m2 := Sync(m1, true, readOk2, writeOk2);
            && m2.disk == DiskImage(m1.sblock.(clean := 1), m.oldformat)
            && m2.disk.clean == 1
            && m2.sblock.clean == 0 && m2.sblockDirty
  {
    var m1 := Sync(m, true, readOk1, writeOk1);
    assert FlipsClean(m1, true);
  }

  /** A clean image left by a sync on a writable file system is overwritten
      by a dirty one at the next sync, whether or not that sync asks for the
      clean flag. */
  lemma CleanImageIsTransient(m: Mount, clean1: bool, readOk1: bool, writeOk1: bool,
                              clean2: bool, readOk2: bool, writeOk2: bool)
    requires MaySync(m, clean1, readOk1) && !m.readonly
    requires !m.csumDirty || CsumFits(m)
    requires Sync(m, clean1, readOk1, writeOk1).disk.clean != 0
    requires Sync(m, clean1, readOk1, writeOk1).disk != m.disk
    requires !clean2 || m.ufsClean == 0
    ensures var m1 := Sync(m, clean1, readOk1, writeOk1);
            MaySync(m1, clean2, readOk2) && Sync(m1, clean2, readOk2, writeOk2).disk.clean == 0
  {
    var m1 := Sync(m, clean1, readOk1, writeOk1);
    assert m1.sblockDirty && m1.sblock.clean == 0;
    assert !FlipsClean(m1, clean2);
  }

  /** Read-only, then writable, then read-only again: the image is left
      read-only with no write pending, and the disk holds the superblock
      written on the way through, stamped and marked not clean. */
  lemma RemountCycle(m: Mount, readOk: bool, writeOk: bool)
    requires !m.csumDirty || CsumFits(m)
    ensures var m1 := ModeChange(m.(readonly := true), true, readOk, writeOk);
            var m2 := m1.(readonly := false);
            (m2.csumDirty && readOk ==> CsumFits(m2)) &&
            var m3 := ModeChange(ModeChange(m2, false, readOk, writeOk).(readonly := true), true, readOk, writeOk);
            && !m3.imageWritable && !m3.sblockDirty
            && m3.disk == DiskImage(m.sblock.(fsmnt := HURD_MOUNT_LABEL, clean := 0), m.oldformat)
            && m3.disk.clean == 0
  {
  }

  /** The operations of the hypermetadata manager, each made by its caller
      after the caller's own bookkeeping: a remount records the new mode in
      the state before the reaction runs. `Touch` stands for the rest of the
      translator, whose block and inode allocation on a writable file system
      marks the superblock and the summary table dirty. */
  datatype Op =
    | Touch(sblock: bool, csum: bool)
    | Reload(deviceBytes: nat)
    | SyncOp(clean: bool, readOk: bool, writeOk: bool)
    | WriteBackOp
    | Remount(readonly: bool, readOk: bool, writeOk: bool)

  /** An operation the translator completes; a failed load exits and a failed
      assertion aborts, and nothing runs after either. */
  predicate Enabled(m: Mount, op: Op) {
    match op
    case Touch(_, _) => !m.readonly
    case Reload(d) => Load(m, d).Mounted?
    case SyncOp(clean, readOk, _) => MaySync(m, clean, readOk)
    case WriteBackOp => MayWriteBack(m)
    case Remount(ro, readOk, _) => ro || (m.csumDirty && readOk ==> CsumFits(m))
  }

  function Step(m: Mount, op: Op): Mount
    requires Enabled(m, op)
  {
    match op
    case Touch(sb, cs) => m.(sblockDirty := m.sblockDirty || sb, csumDirty := m.csumDirty || cs)
    case Reload(d) => Load(m, d).state
    case SyncOp(clean, readOk, writeOk) => Sync(m, clean, readOk, writeOk)
    case WriteBackOp => WriteBack(m)
    case Remount(ro, readOk, writeOk) => ModeChange(m.(readonly := ro), ro, readOk, writeOk)
  }

  /** The state after running `ops`, stopping at the first that cannot complete. */
  function Run(m: Mount, ops: seq<Op>): Mount
    decreases |ops|
  {
    if ops == [] then m
    else if Enabled(m, ops[0]) then Run(Step(m, ops[0]), ops[1..])
    else m
  }

  /** A file system that was not clean at load time: its clean flag is clear
      as remembered, in core and on disk. */
  predicate StaysUnclean(m: Mount) {
    m.ufsClean == 0 && m.sblock.clean == 0 && m.disk.clean == 0
  }

  lemma StepKeepsUnclean(m: Mount, op: Op)
    requires Enabled(m, op) && StaysUnclean(m)
    ensures StaysUnclean(Step(m, op))
  {
    if op.Reload? {
      LoadKeepsUnclean(m, op.deviceBytes);
    }
  }

  lemma {:induction false} RunKeepsUnclean(m: Mount, ops: seq<Op>)
    requires StaysUnclean(m)
    ensures StaysUnclean(Run(m, ops))
    decreases |ops|
  {
    if ops != [] && Enabled(m, ops[0]) {
      StepKeepsUnclean(m, ops[0]);
      RunKeepsUnclean(Step(m, ops[0]), ops[1..]);
    }
  }

  /** Loading an image whose clean flag is clear establishes the invariant. */
  lemma LoadKeepsUnclean(m: Mount, deviceBytes: nat)
    requires Load(m, deviceBytes).Mounted? && m.disk.clean == 0
    ensures StaysUnclean(Load(m, deviceBytes).state)
  {
    var s := Load(m, deviceBytes).state;
    assert s.sblock.clean == m.disk.clean by {
      assert s.sblock == Normalize(m.disk);
    }
  }

  /** After mounting a file system that was not unmounted cleanly, no sequence
      of allocator activity, syncs, write-backs, remounts and reloads marks it
      clean on disk. */
  lemma UncleanNeverMarkedClean(m: Mount, deviceBytes: nat, ops: seq<Op>)
    requires Load(m, deviceBytes).Mounted? && m.disk.clean == 0
    ensures Run(Load(m, deviceBytes).state, ops).disk.clean == 0
  {
    LoadKeepsUnclean(m, deviceBytes);
    RunKeepsUnclean(Load(m, deviceBytes).state, ops);
  }

  /** The old-format flag survives a reload, whatever the format of the
      image loaded: once an old-format image has been mounted, a later
      write-back puts the sentinels over the size limit and masks of any
      image, 4.4BSD ones included. */
  lemma OldFormatSurvivesReload(m: Mount, deviceBytes: nat)
    requires m.oldformat && Load(m, deviceBytes).Mounted?
    ensures var s := Load(m, deviceBytes).state;
            && s.oldformat
            && (s.sblockDirty && !s.readonly ==>
                  && WriteBack(s).disk.maxfilesize == UNSET
                  && WriteBack(s).disk.qbmask == UNSET
                  && WriteBack(s).disk.qfmask == UNSET)
  {
  }

  /** Loading gives the old-format flag its per-image value when the flag
      starts clear, as it does at the first mount. */
  lemma FirstLoadOldFormat(m: Mount, deviceBytes: nat)
    requires !m.oldformat && Load(m, deviceBytes).Mounted?
    ensures Load(m, deviceBytes).state.oldformat == IsOldFormat(m.disk)
  {
  }
}
