/** The hypermetadata manager of the UFS translator: the in-core superblock,
    the summary table, the dirty and clean flags and the compatibility mode,
    updated in place by four operations. Each operation is proved to take the
    state exactly where the matching function of HyperSpec says. */
module UfsHyper {
  import opened FsRecord
  import HyperSpec

  /** Contents of the superblock buffer before the first load. */
  const UNLOADED := Superblock(0, 0, 0, 0, 0, 0, 0, 0, 0, 0, 0, 0, 0, 0, 0, 0, 0, 0, 0, 0, "")

  /** The repairs made to a freshly read superblock, in place on `sb`:
      sector, interleave and rotational counts old images leave unset, and
      for an old-format image the size limit, accumulated level by level, and
      the 64-bit masks. */
  method RepairSuperblock(raw: Superblock) returns (sb: Superblock)
    ensures sb == Normalize(raw)
  {
    sb := raw;
    if sb.npsect < sb.nsect {
      sb := sb.(npsect := sb.nsect);
    }
    if sb.interleave < 1 {
      sb := sb.(interleave := 1);
    }
    if sb.postblformat == FS_42POSTBLFMT {
      sb := sb.(nrpos := NRPOS_42);
    }
    if sb.inodefmt < FS_44INODEFMT {
      var sizepb := sb.bsize;
      sb := sb.(maxfilesize := sb.bsize * NDADDR - 1);
      ghost var before := sb;
      var i := 0;
      while i < NIADDR
        invariant 0 <= i <= NIADDR
        invariant sb == before.(maxfilesize := sb.maxfilesize)
        invariant sizepb == LevelBytes(sb.bsize, sb.nindir, i)
        invariant sb.maxfilesize == sb.bsize * NDADDR - 1 + IndirectBytes(sb.bsize, sb.nindir, i)
      {
        sizepb := sizepb * sb.nindir;
        sb := sb.(maxfilesize := sb.maxfilesize + sizepb);
        i := i + 1;
      }
      sb := sb.(qbmask := Complement(sb.bmask), qfmask := Complement(sb.fmask));
    }
  }

  /** The load-time checks on the superblock read from disk, in order, with
      the repairs made between the header checks and the checks that use the
      geometry. `csumAvail` is the number of readable bytes at the summary
      table's address. */
  method CheckAndRepair(raw: Superblock, csumAvail: int, deviceBytes: nat)
    returns (err: Option<LoadError>, sb: Superblock)
    ensures err == LoadCheck(raw, csumAvail, deviceBytes)
    ensures err.None? ==> sb == Normalize(raw)
  {
    sb := raw;
    if sb.magic != FS_MAGIC { return Some(BadMagic), sb; }
    if sb.bsize > MAX_BSIZE { return Some(BlockTooBig), sb; }
    if AsUnsigned(sb.bsize) < FS_RECORD_SIZE { return Some(BlockTooSmall), sb; }
    if sb.maxsymlinklen > MAXSYMLINKLEN { return Some(SymlinkTooLong), sb; }
    if sb.bsize % DEV_BSIZE != 0 || PAGE_SIZE > AsUnsigned(sb.bsize) {
      return Some(BlockMisaligned), sb;
    }

    // Give fields that old images leave unset usable values.
    sb := RepairSuperblock(sb);

    // The summary table must be copyable, and the device large enough.
    if sb.fsize == 0 || CsumBytes(sb.cssize, sb.fsize) < 0 || CsumBytes(sb.cssize, sb.fsize) > csumAvail {
      return Some(CsumUnreadable), sb;
    }
    if deviceBytes < sb.size * sb.fsize {
      return Some(DeviceTooSmall), sb;
    }
    err := None;
  }

  /** The clean flag read from disk: an unclean file system is reported and,
      when mounted writable, forced read-only. */
  method ExamineClean(clean: int, readonly: bool) returns (ro: bool, warnings: seq<HyperSpec.Warning>)
    ensures ro == (readonly || clean == 0)
    ensures warnings == (if clean == 0 then [HyperSpec.NotCleanlyUnmounted] else [])
                        + (if clean == 0 && !readonly then [HyperSpec.ForcedReadOnly] else [])
  {
    ro := readonly;
    warnings := [];
    if clean == 0 {
      warnings := warnings + [HyperSpec.NotCleanlyUnmounted];
      if !ro {
        ro := true;
        warnings := warnings + [HyperSpec.ForcedReadOnly];
      }
    }
  }

  /** A file system with 4.4BSD features is not used in 4.2BSD mode. */
  method UpgradeCompat(compat: HyperSpec.CompatMode, newFeatures: bool)
    returns (mode: HyperSpec.CompatMode, upgraded: bool)
    ensures upgraded <==> newFeatures && compat == HyperSpec.CompatBsd42
    ensures mode == if upgraded then HyperSpec.CompatBsd44 else compat
  {
    mode := compat;
    upgraded := false;
    if newFeatures && mode == HyperSpec.CompatBsd42 {
      mode := HyperSpec.CompatBsd44;
      upgraded := true;
    }
  }

  class Hypermetadata {
    var sblock: Superblock
    /** The superblock as held in the disk image at its fixed offset. */
    var disk: Superblock
    var csum: seq<bv8>
    /** Device bytes from the summary table's address to the end of the device. */
    var diskCsum: seq<bv8>
    var ufsClean: int
    var oldformat: bool
    var sblockDirty: bool
    var csumDirty: bool
    var readonly: bool
    /** Whether the mapped disk image is writable. */
    var imageWritable: bool
    var compat: HyperSpec.CompatMode
    var directSymlinkExtension: bool
    /** Capacity of the device in bytes. */
    const deviceBytes: nat

    function State(): HyperSpec.Mount
      reads this
    {
      HyperSpec.Mount(sblock, disk, csum, diskCsum, ufsClean, oldformat, sblockDirty,
                      csumDirty, readonly, imageWritable, compat, directSymlinkExtension)
    }

    /** A translator about to mount a device: nothing loaded, nothing dirty. */
    constructor (disk: Superblock, diskCsum: seq<bv8>, deviceBytes: nat,
                 readonly: bool, compat: HyperSpec.CompatMode)
      ensures State() == HyperSpec.Mount(UNLOADED, disk, [], diskCsum, 0, false, false, false,
                                         readonly, !readonly, compat, false)
      ensures this.deviceBytes == deviceBytes
    {
      this.sblock := UNLOADED;
      this.disk := disk;
      this.csum := [];
      this.diskCsum := diskCsum;
      this.ufsClean := 0;
      this.oldformat := false;
      this.sblockDirty := false;
      this.csumDirty := false;
      this.readonly := readonly;
      this.imageWritable := !readonly;
      this.compat := compat;
      this.directSymlinkExtension := false;
      this.deviceBytes := deviceBytes;
    }

    /** Reads the superblock from the disk image, checks it, repairs it and
        copies the summary table. On an error the translator exits; nothing
        on disk has been changed by then. */
    method GetHypermetadata() returns (err: Option<LoadError>, warnings: seq<HyperSpec.Warning>)
      modifies this
      ensures err == LoadCheck(old(disk), |old(diskCsum)|, deviceBytes)
      ensures err.Some? ==> disk == old(disk) && diskCsum == old(diskCsum)
      ensures err.None? ==>
                && State() == HyperSpec.Loaded(old(State()), deviceBytes)
                && warnings == HyperSpec.LoadWarnings(old(State()))
    {
      // Check and repair a copy of the disk superblock; it becomes the
      // in-core one once every check has passed.
      var sb;
      err, sb := CheckAndRepair(disk, |diskCsum|, deviceBytes);
      if err.Some? {
        return err, [];
      }

      // Examine the clean flag; an unclean file system is forced read-only.
      var clean := sb.clean;
      var ro;
      ro, warnings := ExamineClean(clean, readonly);

      var old42 := oldformat || disk.inodefmt < FS_44INODEFMT;
      var symlinks := sb.maxsymlinklen > 0;
      var table := diskCsum[..CsumBytes(sb.cssize, sb.fsize)];

      var mode, upgraded := UpgradeCompat(compat, sb.inodefmt == FS_44INODEFMT || symlinks);
      if upgraded {
        warnings := warnings + [HyperSpec.CompatUpgraded];
      }

      Commit(sb, table, clean, ro, old42, symlinks, mode);
    }

    /** Makes a checked and repaired superblock, with its summary table, the
        in-core hypermetadata. */
    method Commit(sb: Superblock, table: seq<bv8>, clean: int, ro: bool, old42: bool,
                  symlinks: bool, mode: HyperSpec.CompatMode)
      modifies this
      ensures State() == old(State()).(sblock := sb, csum := table, ufsClean := clean, readonly := ro,
                                       oldformat := old42, directSymlinkExtension := symlinks,
                                       compat := mode)
    {
      sblock, csum, ufsClean, readonly, oldformat := sb, table, clean, ro, old42;
      directSymlinkExtension, compat := symlinks, mode;
    }

    /** Flushes a dirty summary table and, when asked and allowed, sets the
        clean flag; then writes the superblock back. `wait` is not used.
        `readOk` is the outcome of reading the table's device area and
        `writeOk` that of writing it back. */
    method SetHypermetadata(wait: bool, clean: bool, readOk: bool, writeOk: bool)
      requires HyperSpec.MaySync(State(), clean, readOk)
      modifies this
      ensures State() == HyperSpec.Sync(old(State()), clean, readOk, writeOk)
    {
      FlushCsum(readOk, writeOk);
      MarkClean(clean);
      CopySblock();
    }

    /** Writes a dirty summary table back to its device area. */
    method FlushCsum(readOk: bool, writeOk: bool)
      requires csumDirty && readOk ==> HyperSpec.CsumFits(State())
      modifies this
      ensures State() == HyperSpec.FlushCsum(old(State()), readOk, writeOk)
    {
      if csumDirty && readOk {
        if writeOk {
          diskCsum := csum[..sblock.cssize] + diskCsum[sblock.cssize..];
        }
        csumDirty := false;
      }
    }

    /** Sets the in-core clean flag when asked to and the file system was
        clean when loaded. */
    method MarkClean(clean: bool)
      modifies this
      ensures State() == HyperSpec.MarkClean(old(State()), clean)
    {
      if clean && ufsClean != 0 && sblock.clean == 0 {
        sblock := sblock.(clean := 1);
        sblockDirty := true;
      }
    }

    /** Writes a dirty superblock into the disk image, with the sentinel
        values an older-format image needs, then clears an in-core clean
        flag again on a writable file system. */
    method CopySblock()
      requires HyperSpec.MayWriteBack(State())
      modifies this
      ensures State() == HyperSpec.WriteBack(old(State()))
    {
      if sblockDirty {
        if sblock.postblformat == FS_42POSTBLFMT || oldformat {
          var sbcopy := sblock;
          if sblock.postblformat == FS_42POSTBLFMT {
            sbcopy := sbcopy.(nrpos := UNSET);
          }
          if oldformat {
            sbcopy := sbcopy.(maxfilesize := UNSET, qbmask := UNSET, qfmask := UNSET);
          }
          disk := sbcopy;
        } else {
          disk := sblock;
        }
        sblockDirty := false;
      }

      if !readonly && sblock.clean != 0 {
        sblock := sblock.(clean := 0);
        sblockDirty := true;
      }
    }

    /** Reacts to a change of mount mode that the caller has already recorded
        in `readonly`. Reports whether a file system that was not clean
        becomes writable. */
    method ReadonlyChanged(toReadonly: bool, readOk: bool, writeOk: bool) returns (warned: bool)
      requires !toReadonly ==> !readonly && (csumDirty && readOk ==> HyperSpec.CsumFits(State()))
      modifies this
      ensures State() == HyperSpec.ModeChange(old(State()), toReadonly, readOk, writeOk)
      ensures warned <==> !toReadonly && old(sblock.clean) == 0
    {
      imageWritable := !toReadonly;
      warned := false;

      if toReadonly {
        sblockDirty := false;
        return;
      }

      sblock := sblock.(fsmnt := HyperSpec.HURD_MOUNT_LABEL);
      if sblock.clean != 0 {
        sblock := sblock.(clean := 0);
      } else {
        warned := true;
      }
      sblockDirty := true;
      SetHypermetadata(true, false, readOk, writeOk);
    }
  }
}
