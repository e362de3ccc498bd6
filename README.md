# UFS hypermetadata manager

This project models the part of the Hurd UFS translator that manages the
file system's hypermetadata. The hypermetadata is the superblock together
with the cylinder-group summary table ("csum"). Four operations are modelled:

- **Loading** (`get_hypermetadata`). The superblock is read from the disk
  image and checked. A failed check ends the translator. The superblock is
  then repaired: values that images from older revisions of the format leave
  unset are filled in, and an old-format image gets its derived file-size
  limit and its 64-bit masks. The summary table is copied, the clean flag
  is examined, and the 4.2BSD compatibility mode is given up when the image
  uses 4.4BSD features.
- **Syncing** (`diskfs_set_hypermetadata`). A dirty summary table is written
  back, and the clean flag is set when the caller asks for it and the file
  system was clean when it was loaded.
- **Writing the superblock back** (`copy_sblock`). On an older-format image,
  the derived fields are written as sentinel values. On a writable file
  system, the in-core clean flag is then cleared again.
- **Reacting to a change of mount mode** (`diskfs_readonly_changed`).

The model has three modules:

- `FsRecord` (`fs_record.dfy`) holds the superblock record and its constants.
  It also defines the load-time checks (`LoadCheck`), the repairs
  (`Normalize`, with the file-size limit `MaxFileSize`) and the image written
  to disk (`DiskImage`).
- `HyperSpec` (`hyper_spec.dfy`) describes each operation as a pure function
  on a snapshot `Mount` of all the state the code reads or writes. It also
  proves properties of sequences of operations (`Run`).
- `UfsHyper` (`hyper.dfy`) is the imperative model. Class `Hypermetadata`
  has one field per global the code updates, and each method is proved to
  move `State()` exactly as the matching `HyperSpec` function says. The
  repair loop that accumulates the file-size limit level by level is a
  `while` loop with invariants. It is proved equal to `MaxFileSize`.

Device reads and writes are parameters:

- `diskCsum` holds the device bytes from the summary table's address onward.
- `readOk` is the outcome of reading that area.
- `writeOk` is the outcome of writing it back. The code ignores this result.
- `deviceBytes` is the device size.

The fatal exits and failed assertions of the load become the `LoadError`
values. A failed assertion in `copy_sblock` (writing back while read-only)
becomes a precondition.

The clean-flag handling follows the code. After a sync that sets the clean
flag on a writable file system, the disk image is left saying clean. The
in-core flag is cleared at once and the superblock is queued for write-back,
so the image is marked not clean again at the next write-back
(`SyncCleanTwice`, `CleanImageIsTransient`). This is the behaviour the
comment at ufs/hyper.c:250-253 describes: the flag is written as clear as
soon as the file system is modified again.

The block-size checks at load time are modelled as the C compares: the
upper bound is a signed comparison, while the lower bound and the page-size
test compare the signed block size with unsigned sizes. A negative block
size that is a multiple of the sector size therefore passes (see
"## Findings").

## Model

| member | source | states |
|---|---|---|
| FsRecord.LoadCheck | ufs/hyper.c:51-150 | The load succeeds exactly when the superblock is sane: right magic, block size at most 8192 (signed) and, compared as unsigned, at least the record size and at least a page, inline symlinks at most 60, block size a multiple of the sector size, a copyable summary table, and a device large enough. The first check that fails names the error. Bad magic always gives `BadMagic`. `DeviceTooSmall` is reported exactly when every other check passes and the device is too small. |
| FsRecord.AsUnsigned | ufs/hyper.c:63 | A signed value compared with an unsigned 32-bit size is taken modulo 2^32: unchanged when non-negative, plus 2^32 when negative. |
| FsRecord.BlockSizeChecks | ufs/hyper.c:57-79 | For any block size a 32-bit `long` can hold, the block-size checks pass exactly for sector multiples from a page to 8192 bytes and for every negative sector multiple. |
| FsRecord.NegativeBlockSizeAccepted | ufs/hyper.c:63-79 | A negative sector multiple such as -4096 gets exactly the verdict a one-page block size gets: the record is accepted whenever its other fields pass. |
| FsRecord.IntendedLoadCheck | ufs/hyper.c:51-150 | The checks with a negative block size reported as too small: a record it accepts has a block size between the record size and 8192 and at least a page; it agrees with `LoadCheck` on every non-negative block size, and accepts exactly the sane records with a non-negative block size. |
| FsRecord.CsumBytes | ufs/hyper.c:132-138 | The byte length of the copied table: `cssize` divided by `fsize` rounding up (`howmany`, with C division), times `fsize`. `CsumBytesRoundsUp` connects it to the statement that it covers `cssize` and overshoots by less than a fragment. |
| FsRecord.CsumBytesRoundsUp | ufs/hyper.c:132-138 | The copied summary table (cssize rounded up to whole fragments, using C division) covers `cssize` bytes and ends less than one fragment later. |
| FsRecord.Normalize | ufs/hyper.c:101-124 | `npsect` becomes at least `nsect`; `interleave` becomes at least 1; `nrpos` becomes 8 on 4.2BSD post-block-format images. An old-format image gets `maxfilesize = MaxFileSize` and masks that are the complements of `bmask` and `fmask`. A new-format image keeps its own values. No other field changes. |
| FsRecord.MaxFileSize | ufs/hyper.c:116-121 | The limit the loop computes: the bytes of the 12 direct blocks minus one, plus the bytes reachable through each of the three indirect levels (`LevelBytes`, `IndirectBytes`). `MaxFileSizeClosedForm` connects it to the closed form, and `RepairSuperblock` to the loop. |
| FsRecord.MaxFileSizeClosedForm | ufs/hyper.c:116-121 | The accumulated limit plus one equals `bsize * (12 + n + n^2 + n^3)`, where `n` is the pointers per indirect block. |
| FsRecord.MaxFileSizeExample | ufs/hyper.c:116-121 | With 4096-byte blocks and 1024 pointers per block, the limit is 4402345721855. |
| FsRecord.DiskImage | ufs/hyper.c:226-243 | The written image has `nrpos = -1` on 4.2BSD post-block-format images. On old-format images it has `maxfilesize`, `qbmask` and `qfmask` equal to -1. Otherwise it is the in-core record. Fields not replaced are unchanged. |
| FsRecord.NormalizeIdempotent | ufs/hyper.c:101-124 | Repairing an already repaired superblock changes nothing. |
| FsRecord.ReloadAfterWriteBack | ufs/hyper.c:101-124 | Loading the image written back from a repaired superblock gives the same superblock. Every sentinel is derived again. |
| HyperSpec.Load | ufs/hyper.c:32-164 | Load aborts exactly when `LoadCheck` fails, with its error, and nothing on disk changes. On success: the in-core superblock is `Normalize` of the disk record and passes the checks; the table is the first `CsumBytes` device bytes; the remembered clean flag is the disk's; an unclean file system becomes read-only. `oldformat` is sticky. The symlink extension matches `maxsymlinklen > 0`. The 4.2BSD mode changes to 4.4BSD exactly when the image has 4.4BSD features. Each warning is issued exactly in its case. The dirty flags are untouched. |
| HyperSpec.LoadedCsumFits | ufs/hyper.c:132-138 | After a successful load with a well-formed geometry, the in-core table and the device area both cover `cssize` bytes. |
| HyperSpec.FlushCsum | ufs/hyper.c:179-196 | A dirty table whose area can be read is no longer dirty. If the write also succeeds, the first `cssize` device bytes become the in-core table and the rest keep their old contents. Otherwise the device area is unchanged. Nothing else changes. |
| HyperSpec.MarkClean | ufs/hyper.c:198-203 | The in-core clean flag changes exactly when the caller asks for clean, the file system was clean at load time, and the flag is clear. It is then set to 1 and the superblock is marked dirty. Nothing else changes. |
| HyperSpec.WriteBack | ufs/hyper.c:211-261 | A dirty superblock is written as `DiskImage`; a clean one leaves the disk alone. Afterwards the superblock is dirty exactly when the file system is writable and the in-core flag was set. On a writable file system the in-core flag is clear. A changed image saying clean on a writable file system is always queued for rewriting. |
| HyperSpec.Sync | ufs/hyper.c:170-209 | Composes the table flush, the clean rule and the write-back. States what is written to disk in each case, that in-core clean is 0 on a writable file system, and when the superblock stays dirty. Also states that the read-only mode, the remembered clean flag, `oldformat` and the fitting of the table are kept. |
| HyperSpec.ModeChange | ufs/hyper.c:263-289 | Going read-only: the image becomes read-only and the pending write is dropped. Going writable: the image becomes writable, and the superblock gets the label "Hurd /" and a clear clean flag and is written to disk. Either way the superblock is not left dirty. A dirty summary table stays dirty when going read-only, and when going writable if its area cannot be read. |
| HyperSpec.SyncCleanTwice | ufs/hyper.c:198-256 | Two clean syncs on a writable file system that was clean at load time leave the image saying clean (1), while the in-core flag is 0 and the superblock is dirty. |
| HyperSpec.CleanImageIsTransient | ufs/hyper.c:222-256 | A clean image written on a writable file system is replaced by a not-clean image at the next sync that does not set the flag again. |
| HyperSpec.RemountCycle | ufs/hyper.c:263-289 | Read-only, then writable, then read-only again leaves no write pending and the image read-only. The disk holds the stamped superblock, marked not clean. |
| HyperSpec.RunKeepsUnclean | ufs/hyper.c:81-95 | If the remembered, in-core and on-disk clean flags are all clear, they stay clear through any sequence of allocator activity (`Op.Touch`), loads, syncs, write-backs and remounts. |
| HyperSpec.UncleanNeverMarkedClean | ufs/hyper.c:81-95 | After a file system that was not unmounted cleanly is mounted, no sequence of operations marks it clean on disk. |
| HyperSpec.OldFormatSurvivesReload | ufs/hyper.c:110-115 | The old-format flag is never cleared: after an old-format mount, a reload of any image keeps it, and a later write-back puts the sentinels over that image's size limit and masks. |
| HyperSpec.FirstLoadOldFormat | ufs/hyper.c:110-115 | Starting from a clear flag, a load sets the old-format flag exactly when the image has the old inode format. |
| UfsHyper.RepairSuperblock | ufs/hyper.c:101-124 | The repairs made step by step, with the level-by-level loop that accumulates the size limit, produce exactly `Normalize` of the record read. |
| UfsHyper.CheckAndRepair | ufs/hyper.c:51-150 | The checks made in the code's order, with the same signed and unsigned comparisons, report exactly the `LoadCheck` error. When all pass, the record is `Normalize` of the disk record. |
| UfsHyper.ExamineClean | ufs/hyper.c:81-95 | An unclean file system is read-only afterwards. The "not unmounted cleanly" warning is issued exactly when it is unclean, and "forced read-only" exactly when it was also writable. |
| UfsHyper.UpgradeCompat | ufs/hyper.c:154-163 | The 4.2BSD mode changes to 4.4BSD exactly when new features are present, and the change is reported; other modes are kept. |
| UfsHyper.Hypermetadata.GetHypermetadata | ufs/hyper.c:32-164 | The error is `LoadCheck`'s. An error leaves the disk unchanged. On success the new state is `HyperSpec.Loaded` of the old state and the warnings are `HyperSpec.LoadWarnings` of it. |
| UfsHyper.Hypermetadata.Commit | ufs/hyper.c:82-163 | Installs the checked superblock, the table, the clean flag, the mode flags and the compatibility mode. Nothing else changes. |
| UfsHyper.Hypermetadata.SetHypermetadata | ufs/hyper.c:170-209 | The new state is `HyperSpec.Sync` of the old one. |
| UfsHyper.Hypermetadata.FlushCsum | ufs/hyper.c:179-196 | The new state is `HyperSpec.FlushCsum` of the old one. |
| UfsHyper.Hypermetadata.MarkClean | ufs/hyper.c:198-203 | The new state is `HyperSpec.MarkClean` of the old one. |
| UfsHyper.Hypermetadata.CopySblock | ufs/hyper.c:211-261 | Requires that a dirty superblock is never written while read-only. The new state is `HyperSpec.WriteBack` of the old one. |
| UfsHyper.Hypermetadata.ReadonlyChanged | ufs/hyper.c:263-289 | The new state is `HyperSpec.ModeChange` of the old one. The uncleaned-file-system warning is issued exactly when the file system becomes writable with its clean flag clear. |

## Left out

- Memory management is not modelled: allocating and freeing the superblock buffer, the summary table and the zero block, and page rounding of the flush buffer.
- Exception catching around the disk image is modelled only as its outcome. A fault while copying the summary table is the `CsumUnreadable` error. Reading the superblock itself is assumed not to fault.
- Device I/O is not performed. Reading and writing the summary table's device area become the parameters `readOk` and `writeOk`. `record_poke` is not modelled.
- Changing the protection of the mapped disk image is only the flag `imageWritable`.
- The alloc lock and all concurrency are left out. Each operation is atomic in the model.
- Message texts and the device name are left out. Messages are the `Warning` values, and fatal messages are the `LoadError` values.
- Integers are unbounded, so no 32- or 64-bit overflow is modelled. This covers the size-limit accumulation, `fs_size * fs_fsize` and the device size shift. The only width modelled is that of the unsigned comparisons in the block-size checks, taken as 32 bits (i386).
- The size of the superblock structure, the minimum block size, is taken as 1376 bytes. The header that defines it is not part of this model.
- `fsaddr` is taken as a fragment count times the fragment size, and the device size is given directly in bytes.
- The assertion that the page size is a multiple of the sector size always holds for the constants used, so it is not modelled.
- HyperSpec.FlushCsum: the code copies the in-core table out to a device buffer. If that table or the device area does not cover `cssize`, the copy goes out of bounds; this happens after a load of a negative `cssize` or `fsize`. The model does not run such a flush: `FlushCsum`, `Sync` and `SyncOp` require `CsumFits` when the table is dirty and its area can be read, and `Run` stops there.
- UfsHyper.Hypermetadata.GetHypermetadata: on an error, only the disk and the device area are specified. The translator exits, so the in-memory state is never used afterwards. The clean flag is examined after the checks that use the geometry rather than between the two groups of checks. This order is only observable through messages issued before an exit.
- UfsHyper.Hypermetadata.ReadonlyChanged: the caller's update of the global read-only mode is done by the caller (`Op.Remount` does it before the reaction).
- UfsHyper.Hypermetadata.SetHypermetadata: the `wait` argument is unused by the code and has no effect in the model.

## Findings

| source | as written | input that shows it | evidently intended | confidence | as-written member | corrected member |
|---|---|---|---|---|---|---|
| ufs/hyper.c:63-79 | The lower bound on the block size and the page-size assertion compare the signed block size with unsigned sizes, so a negative block size passes both; the sector test passes for any negative multiple of 512. | A superblock with the right magic, block size -4096 and otherwise sane fields is accepted and mounted. | A negative block size is rejected as too small. | medium, not executed | FsRecord.NegativeBlockSizeAccepted | FsRecord.IntendedLoadCheck |

The translator model (`HyperSpec.Load`, `UfsHyper.CheckAndRepair`) uses the
checks as written, so that it describes what the code does. `IntendedLoadCheck`
is the corrected check; its contract states that it accepts only block sizes
from a page to 8192 bytes and otherwise agrees with `LoadCheck`.
