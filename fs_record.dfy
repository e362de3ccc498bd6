/** The 4.4BSD Fast File System superblock as the UFS translator's
    hypermetadata code sees it: the fields that code reads or writes, the
    chain of load-time checks, the repairs made to images written by older
    revisions of the format, and the image that is written back to disk. */
module FsRecord {

  /** Signature of a Fast File System superblock. */
  const FS_MAGIC := 0x011954
  /** Post-block format tag of 4.2BSD images (rotational tables in the old place). */
  const FS_42POSTBLFMT := -1
  /** Inode format tag of 4.4BSD images. */
  const FS_44INODEFMT := 2
  /** Direct and indirect block pointers held in an inode. */
  const NDADDR := 12
  const NIADDR := 3
  /** Longest symlink stored inside the inode: the block pointers' space, 4 bytes each. */
  const MAXSYMLINKLEN := (NDADDR + NIADDR) * 4
  /** Size in bytes of the in-memory superblock structure. */
  const FS_RECORD_SIZE := 1376
  /** Largest block size the translator accepts. */
  const MAX_BSIZE := 8192
  /** Device sector size and virtual-memory page size. */
  const DEV_BSIZE := 512
  const PAGE_SIZE := 4096
  /** Rotational positions implied by the 4.2BSD post-block format. */
  const NRPOS_42 := 8
  /** The all-ones value written for fields an old-format image leaves unset. */
  const UNSET := -1
  /** Values of `long`, `size_t` and `vm_size_t`, all 32 bits wide on i386. */
  const WORD_MODULUS := 0x1_0000_0000
  const LONG_MIN := -0x8000_0000
  const LONG_MAX := 0x7fff_ffff

  datatype Option<T> = None | Some(value: T)

  /** The superblock fields touched by the hypermetadata code. */
  datatype Superblock = Superblock(
    magic: int,
    bsize: int,          // block size in bytes
    fsize: int,          // fragment size in bytes
    bmask: int,          // block offset mask
    fmask: int,          // fragment offset mask
    maxsymlinklen: int,  // longest symlink kept in the inode, 0 when unsupported
    inodefmt: int,
    postblformat: int,
    npsect: int,         // sectors per track, spares included
    nsect: int,          // sectors per track
    interleave: int,
    nrpos: int,          // rotational positions
    maxfilesize: int,
    qbmask: int,         // 64-bit block offset mask
    qfmask: int,         // 64-bit fragment offset mask
    clean: int,          // nonzero when the file system was unmounted cleanly
    size: int,           // file system size in fragments
    cssize: int,         // byte size of the cylinder-group summary table
    csaddr: int,         // fragment address of that table
    nindir: int,         // block pointers per indirect block
    fsmnt: string)       // name of the last mount point

  /** Why loading the hypermetadata stops the translator. */
  datatype LoadError =
    | BadMagic
    | BlockTooBig
    | BlockTooSmall
    | SymlinkTooLong
    | BlockMisaligned   // a page-size assertion fails
    | CsumUnreadable    // copying the summary table faults or its size cannot be computed
    | DeviceTooSmall

  predicate IsOldFormat(sb: Superblock) {
    sb.inodefmt < FS_44INODEFMT
  }

  /** The image uses 4.4BSD features: the new inode format or inline symlinks. */
  predicate HasNewFeatures(sb: Superblock) {
    sb.inodefmt == FS_44INODEFMT || sb.maxsymlinklen > 0
  }

  /** `~x` on two's-complement integers of any width. */
  function Complement(x: int): int {
    -x - 1
  }

  /** C integer division, which truncates toward zero. */
  function CDiv(a: int, b: int): int
    requires b != 0
  {
    if (a < 0) == (b < 0) then Abs(a) / Abs(b) else -(Abs(a) / Abs(b))
  }

  function Abs(x: int): nat {
    if x < 0 then -x else x
  }

  /** A signed value as C converts it before comparing it with an unsigned
      operand of the same width: taken modulo 2^32, so a negative `long`
      becomes a large unsigned value. */
  function AsUnsigned(x: int): (u: int)
    ensures 0 <= u < WORD_MODULUS
    ensures 0 <= x < WORD_MODULUS ==> u == x
    ensures -WORD_MODULUS <= x < 0 ==> u == x + WORD_MODULUS
  {
    x % WORD_MODULUS
  }

  /** Byte length of the in-core summary table: `cssize` counted in whole
      fragments (rounding up, with C division), then turned back into bytes. */
  function CsumBytes(cssize: int, fsize: int): int
    requires fsize != 0
  {
    CDiv(cssize + fsize - 1, fsize) * fsize
  }

  /** For a well-formed geometry the table covers `cssize` bytes and reaches
      less than one fragment beyond them. */
  lemma CsumBytesRoundsUp(sb: Superblock)
    requires sb.fsize > 0 && sb.cssize >= 0
    ensures sb.cssize <= CsumBytes(sb.cssize, sb.fsize) < sb.cssize + sb.fsize
  {
    var x, f := sb.cssize, sb.fsize;
    var q := (x + f - 1) / f;
    assert CDiv(x + f - 1, f) == q;
    assert q * f + (x + f - 1) % f == x + f - 1;
  }

  /** What a superblock that passes every load-time check satisfies, given
      `csumAvail` readable bytes at the summary table's address and a device
      of `deviceBytes` bytes. */
  predicate Sane(sb: Superblock, csumAvail: int, deviceBytes: int) {
    && sb.magic == FS_MAGIC
    && sb.bsize <= MAX_BSIZE && FS_RECORD_SIZE <= AsUnsigned(sb.bsize)
    && sb.maxsymlinklen <= MAXSYMLINKLEN
    && sb.bsize % DEV_BSIZE == 0 && PAGE_SIZE <= AsUnsigned(sb.bsize)
    && sb.fsize != 0 && 0 <= CsumBytes(sb.cssize, sb.fsize) <= csumAvail
    && sb.size * sb.fsize <= deviceBytes
  }

  /** The load-time checks, in the order the translator makes them; the
      first that fails names the error. The upper bound on the block size is
      a signed comparison; the lower bound and the page-size test compare
      with unsigned sizes. The sector test is signed, and Dafny's remainder
      is zero exactly when C's is. */
  function LoadCheck(raw: Superblock, csumAvail: int, deviceBytes: nat): (r: Option<LoadError>)
    ensures r.None? <==> Sane(raw, csumAvail, deviceBytes)
    ensures raw.magic != FS_MAGIC ==> r == Some(BadMagic)
    ensures raw.magic == FS_MAGIC && raw.bsize > MAX_BSIZE ==> r == Some(BlockTooBig)
    ensures r == Some(DeviceTooSmall) <==>
              Sane(raw.(size := 0), csumAvail, deviceBytes) && deviceBytes < raw.size * raw.fsize
  {
    if raw.magic != FS_MAGIC then Some(BadMagic)
    else if raw.bsize > MAX_BSIZE then Some(BlockTooBig)
    else if AsUnsigned(raw.bsize) < FS_RECORD_SIZE then Some(BlockTooSmall)
    else if raw.maxsymlinklen > MAXSYMLINKLEN then Some(SymlinkTooLong)
    else if raw.bsize % DEV_BSIZE != 0 || PAGE_SIZE > AsUnsigned(raw.bsize) then Some(BlockMisaligned)
    else if raw.fsize == 0 || CsumBytes(raw.cssize, raw.fsize) < 0 || CsumBytes(raw.cssize, raw.fsize) > csumAvail then Some(CsumUnreadable)
    else if deviceBytes < raw.size * raw.fsize then Some(DeviceTooSmall)
    else None
  }

  /** The block-size checks as written, for any block size a `long` can hold:
      they pass for the sector multiples from a page to 8192 bytes, and for
      every negative sector multiple. */
  lemma BlockSizeChecks(sb: Superblock)
    requires LONG_MIN <= sb.bsize <= LONG_MAX
    ensures (sb.bsize <= MAX_BSIZE && FS_RECORD_SIZE <= AsUnsigned(sb.bsize)
             && sb.bsize % DEV_BSIZE == 0 && PAGE_SIZE <= AsUnsigned(sb.bsize))
            <==> sb.bsize % DEV_BSIZE == 0 && (sb.bsize < 0 || PAGE_SIZE <= sb.bsize <= MAX_BSIZE)
  {
  }

  /** A negative block size that is a multiple of the sector size, -4096
      say, passes the load-time checks exactly as a valid block size of one
      page does: the record is accepted whenever its other fields are sane. */
  lemma NegativeBlockSizeAccepted(raw: Superblock, csumAvail: int, deviceBytes: nat)
    requires LONG_MIN <= raw.bsize < 0 && raw.bsize % DEV_BSIZE == 0
    ensures LoadCheck(raw, csumAvail, deviceBytes) == LoadCheck(raw.(bsize := PAGE_SIZE), csumAvail, deviceBytes)
  {
    assert AsUnsigned(raw.bsize) == raw.bsize + WORD_MODULUS;
  }

  /** The checks as evidently intended: a negative block size is too small. */
  function IntendedLoadCheck(raw: Superblock, csumAvail: int, deviceBytes: nat): (r: Option<LoadError>)
    ensures r.None? ==> FS_RECORD_SIZE <= raw.bsize <= MAX_BSIZE && PAGE_SIZE <= raw.bsize
    ensures r.None? <==> Sane(raw, csumAvail, deviceBytes) && raw.bsize >= 0
    ensures 0 <= raw.bsize ==> r == LoadCheck(raw, csumAvail, deviceBytes)
    ensures raw.magic == FS_MAGIC && raw.bsize < 0 ==> r == Some(BlockTooSmall)
  {
    if raw.magic == FS_MAGIC && raw.bsize < 0 then Some(BlockTooSmall)
    else LoadCheck(raw, csumAvail, deviceBytes)
  }

  /** Bytes reached through one block pointer of indirection level `level`:
      `bsize * nindir^level`. */
  function LevelBytes(bsize: int, nindir: int, level: nat): int {
    if level == 0 then bsize else LevelBytes(bsize, nindir, level - 1) * nindir
  }

  /** Bytes reachable through the indirect blocks of levels 1 to `levels`. */
  function IndirectBytes(bsize: int, nindir: int, levels: nat): int {
    if levels == 0 then 0 else IndirectBytes(bsize, nindir, levels - 1) + LevelBytes(bsize, nindir, levels)
  }

  /** Largest file offset of an old-format file system: the bytes of the
      direct blocks and of every indirect level, minus one. */
  function MaxFileSize(bsize: int, nindir: int): int {
    bsize * NDADDR - 1 + IndirectBytes(bsize, nindir, NIADDR)
  }

  /** The same limit in the usual closed form: the last byte of the
      `NDADDR + n + n^2 + n^3` blocks an inode can address. */
  lemma {:induction false} MaxFileSizeClosedForm(bsize: int, nindir: int)
    ensures MaxFileSize(bsize, nindir) + 1
            == bsize * (NDADDR + nindir + nindir * nindir + nindir * nindir * nindir)
  {
    var b, n := bsize, nindir;
    assert LevelBytes(b, n, 1) == b * n;
    assert LevelBytes(b, n, 2) == b * n * n;
    assert LevelBytes(b, n, 3) == b * n * n * n;
    assert IndirectBytes(b, n, 1) == b * n;
    assert IndirectBytes(b, n, 2) == b * n + b * n * n;
    assert IndirectBytes(b, n, 3) == b * n + b * n * n + b * n * n * n;
  }

  /** A 4096-byte block with 1024 pointers per indirect block. */
  lemma MaxFileSizeExample()
    ensures MaxFileSize(4096, 1024) == 4096 * 12 - 1 + 4096 * 1024 + 4096 * 1024 * 1024 + 4096 * 1024 * 1024 * 1024
    ensures MaxFileSize(4096, 1024) == 4402345721855
  {
    MaxFileSizeClosedForm(4096, 1024);
  }

  /** The repairs made to a freshly read superblock: fields that images of
      older revisions leave unset or zero are given usable values, and an
      old-format image gets its derived size limit and 64-bit masks. */
  function Normalize(raw: Superblock): (sb: Superblock)
    ensures sb.npsect == Max(raw.npsect, raw.nsect) && sb.npsect >= sb.nsect
    ensures sb.interleave == Max(raw.interleave, 1)
    ensures sb.nrpos == if raw.postblformat == FS_42POSTBLFMT then NRPOS_42 else raw.nrpos
    ensures IsOldFormat(raw) ==>
              && sb.maxfilesize == MaxFileSize(raw.bsize, raw.nindir)
              && sb.qbmask == Complement(raw.bmask)
              && sb.qfmask == Complement(raw.fmask)
    ensures !IsOldFormat(raw) ==>
              sb.maxfilesize == raw.maxfilesize && sb.qbmask == raw.qbmask && sb.qfmask == raw.qfmask
    ensures sb.(npsect := raw.npsect, interleave := raw.interleave, nrpos := raw.nrpos,
                maxfilesize := raw.maxfilesize, qbmask := raw.qbmask, qfmask := raw.qfmask) == raw
  {
    DeriveOldFormat(RepairGeometry(raw))
  }

  /** Sector, interleave and rotational counts that old images leave unset. */
  function RepairGeometry(raw: Superblock): Superblock {
    var s1 := if raw.npsect < raw.nsect then raw.(npsect := raw.nsect) else raw;
    var s2 := if s1.interleave < 1 then s1.(interleave := 1) else s1;
    if s2.postblformat == FS_42POSTBLFMT then s2.(nrpos := NRPOS_42) else s2
  }

  /** The size limit and 64-bit masks an old-format image does not record. */
  function DeriveOldFormat(sb: Superblock): Superblock {
    if IsOldFormat(sb) then
      sb.(maxfilesize := MaxFileSize(sb.bsize, sb.nindir),
          qbmask := Complement(sb.bmask),
          qfmask := Complement(sb.fmask))
    else sb
  }

  function Max(a: int, b: int): int {
    if a < b then b else a
  }

  /** The image of the in-core superblock that write-back puts on disk:
      a 4.2BSD post-block-format image gets the unset rotational count, and
      an old-format one the unset size limit and 64-bit masks, so values
      derived at load time never reach an old-format disk. */
  function DiskImage(sb: Superblock, oldformat: bool): (img: Superblock)
    ensures sb.postblformat == FS_42POSTBLFMT ==> img.nrpos == UNSET
    ensures oldformat ==> img.maxfilesize == UNSET && img.qbmask == UNSET && img.qfmask == UNSET
    ensures sb.postblformat != FS_42POSTBLFMT && !oldformat ==> img == sb
    ensures sb.postblformat != FS_42POSTBLFMT ==> img.nrpos == sb.nrpos
    ensures !oldformat ==> img.maxfilesize == sb.maxfilesize && img.qbmask == sb.qbmask && img.qfmask == sb.qfmask
    ensures img.(nrpos := sb.nrpos, maxfilesize := sb.maxfilesize, qbmask := sb.qbmask, qfmask := sb.qfmask) == sb
  {
    var copy := if sb.postblformat == FS_42POSTBLFMT then sb.(nrpos := UNSET) else sb;
    if oldformat then copy.(maxfilesize := UNSET, qbmask := UNSET, qfmask := UNSET) else copy
  }

  /** Loading repairs nothing a second time: a normalised record is a fixed point. */
  lemma NormalizeIdempotent(raw: Superblock)
    ensures Normalize(Normalize(raw)) == Normalize(raw)
  {
  }

  /** Writing a normalised record back and loading it again gives the same
      record: every field replaced by a sentinel is derived again on load. */
  lemma ReloadAfterWriteBack(sb: Superblock)
    requires Normalize(sb) == sb
    ensures Normalize(DiskImage(sb, IsOldFormat(sb))) == sb
  {
  }
}
