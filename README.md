# VPMU device file: a Dafny model

The VPMU driver exposes a memory-mapped performance-monitoring region to user
space as a character device. Each device owns a shadow buffer of
`buffer_size` bytes, allocated on first open. A read refreshes the buffer
from the hardware window and copies the requested range to the user. A write
copies user bytes into the buffer and pushes them to the window. Buffer and
window exchange data in machine words (`uintptr_t`), never bytes.

This project models that byte-buffer and word-transfer logic of
`device_driver/device_file.c`, and proves what it does:

- `word_transfer.dfy`, module `WordTransfer`: `copy_from_vpmu` and `copy_to_vpmu`.
  - Both are loops over arrays, with a word width `W = 8` (`sizeof(uintptr_t)` on
    a 64-bit kernel).
  - The window is an `array<Word>`; a `Word` is the `W` bytes the word occupies
    in memory. `addr_base` is a `uintptr_t` (device_file.c:38, :52), so
    `addr_base + i` at :47 and :60 is integer addition. The model takes it as
    window word `i`, which assumes that `VPMU_IO_READ`/`VPMU_IO_WRITE` scale
    the index to a word address (see "## Left out").
  - Each method is specified by a function on sequences: `Fill` for a read from
    the window, `Store` for a write to it. `FillAt` gives `Fill` byte by byte,
    `StoreAt` gives `Store` word by word, and two lemmas prove the round trips.
- `file_ops.dfy`, module `FileOps`: `device_file_read` and `device_file_write` as
  pure transition functions, `ReadStep` and `WriteStep`.
  - Each takes the buffer, the window, the cursor and the call's arguments.
  - Each returns the value handed to user space, the new cursor and the new state.
  - The lemmas cover the EOF and clamping rules, where the refreshed bytes come
    from, what the push leaves in the window, and a write-then-read round trip.
  - The two defects in the write path are proved here (see "## Findings").
- `device.dfy`, module `DeviceState`: `struct vpmu_dev` as the class `Device`.
  - The class has a nullable `data: array?<bv8>` and a constant `bufferSize`.
  - `Read` and `Write` change the buffer (and `Write` the window) in place;
    `Allocate` assigns a fresh zero-filled array to `data`. The `ensures`
    of `Read` and `Write` equate the results and the new state with
    `ReadStep`/`WriteStep`; that of `Allocate` states the lazy allocation
    directly.
  - `Driver` holds the major number and the devices, and models `device_file_open`
    and `device_file_release`.
- `scenario.dfy`, module `Scenario`: a client that uses only the contracts.
  - It opens a 4096-byte device and writes the whole buffer with `0xAB`.
  - A second write at the end is refused with `-EINVAL` in `status`, while
    `ret` is still the count.
  - Reading the buffer back gives the same bytes, and the next read is at EOF.
  - Opening minor 5 gives `-ENODEV`.

Environment and configuration are parameters:

- The shared window `vpmu_base` is passed to each handler.
- The cursor `*possition` is passed in, and the new cursor is returned.
- `interrupted`: `mutex_lock_killable` gave up.
- `dryRun`: the module was built with `DRY_RUN`.
- `room`: how many bytes `copy_to_user` can write.
- `user`: the readable prefix of the user buffer that `copy_from_user` reads.
- `allocFails`: `kzalloc` returned NULL.
- `cdevMatches`: the inode's `i_cdev` is the device's `cdev`.

Return values are the kernel's: `ret` is a byte count or a negative errno, using
Linux's values of `EINTR`, `ENOMEM`, `EFAULT`, `ENODEV` and `EINVAL`.

Assumptions the code makes and the model states:

- On read and write, `data != null`. The kernel runs these handlers only on a
  file whose open succeeded, and a successful open leaves a buffer allocated.
- The window holds every whole word of a buffer (`Covers`). This is assumed:
  device_file.c sets the buffer size to `VPMU_DEVICE_IOMEM_SIZE` (:208), but
  the mapping behind `vpmu_base` is not set up in this file.
- The window and the buffer are different memory: one is I/O memory, the other
  a kernel allocation.

Where the code does something other than it evidently means, the model
follows the code, with one exception:

- `device_file_write` sets `retval` to `-EINVAL` for a cursor at or past the
  end (device_file.c:120; the comment at :119 says such a write is not
  allowed) and to `-EFAULT` for a faulting copy (:127), but returns `count`
  at :140. The model returns `count` as `ret` and keeps the intended value
  as `status`.
- A read refreshes the buffer from window word 0, whatever the cursor
  (device_file.c:86).
- The exception is the push at device_file.c:135. It takes the words from
  the cursor after the advance, `pos + c`. It runs past the buffer exactly
  when `pos + c + (c/W)*W > buffer_size`: every write that reaches the end
  with a whole word, and also shorter ones (12 bytes at cursor 0 of a
  16-byte buffer). Otherwise it stays inside and pushes the bytes
  `[pos+c, pos+c+(c/W)*W)`, which the write did not touch. The model proves
  both facts about the as-written push, then pushes from the cursor before
  the advance, the bytes just written.

## Model

| member | source | states |
|---|---|---|
| `WordTransfer.WordCount` | device_driver/device_file.c:44 | `count / sizeof(uintptr_t)` whole words; the bytes it drops number fewer than W |
| `WordTransfer.Fill` | device_driver/device_file.c:38-50 | the buffer after copy_from_vpmu stored window words 0 .. n-1 at byte offset off, one word after the other; it keeps the buffer's length (its bytes are stated by `FillAt`) |
| `WordTransfer.Store` | device_driver/device_file.c:52-62 | the window after copy_to_vpmu wrote buffer words 0 .. n-1 from byte offset off to window words 0 .. n-1; it keeps the window's length (its words are stated by `StoreAt`) |
| `WordTransfer.FillAt` | device_driver/device_file.c:38-50 | after n words are read in at byte offset off: buffer byte j is byte (j-off)%W of window word (j-off)/W for off <= j < off+n*W, and its old value everywhere else, so the unaligned tail is never written |
| `WordTransfer.FillEverywhere` | device_driver/device_file.c:38-50 | FillAt for all bytes of the buffer at once |
| `WordTransfer.NextWord` | device_driver/device_file.c:46-49 | one more loop iteration stores window word i at bytes off+i*W .. off+i*W+W, which lie inside the buffer when i < count/W |
| `WordTransfer.PutWord` | device_driver/device_file.c:48 | `buffer[i] = val` as a store of W bytes: those bytes become the word, every other byte keeps its value |
| `WordTransfer.CopyFromVpmu` | device_driver/device_file.c:38-50 | makes exactly count/W word reads and leaves the buffer equal to `Fill` of its old contents with window words 0 .. count/W-1; the window is not modified |
| `WordTransfer.StoreAt` | device_driver/device_file.c:52-62 | after n words are written out, window word i is buffer word i (bytes off+i*W ..) for i < n and its old value for i >= n |
| `WordTransfer.CopyToVpmu` | device_driver/device_file.c:52-62 | makes exactly count/W word writes; window word i is buffer word i for i < count/W, every other window word is unchanged, and the buffer is only read |
| `WordTransfer.FillOfStore` | device_driver/device_file.c:38-62 | reading back n words just written from a buffer at the same offset gives the buffer unchanged |
| `WordTransfer.StoreOfFill` | device_driver/device_file.c:38-62 | writing back n words just read leaves the window unchanged |
| `FileOps.Clamp` | device_driver/device_file.c:83 | the clamped count is at most the request and at most `buffer_size - pos`, and equals one of the two (it is their minimum) |
| `FileOps.ReadStep` | device_driver/device_file.c:65-100 | `-EINTR` exactly when the lock wait is interrupted; 0 exactly at EOF (`pos >= buffer_size`) or for a zero count; `-EFAULT` exactly when the user buffer holds fewer bytes than the clamped count; with the lock held, `pos < buffer_size` and room for the clamped count c, it returns exactly `c = min(count, buffer_size - pos)`; the cursor moves only on success, by the clamped count, and never past `buffer_size`; on success the user gets buffer bytes `[pos, pos+c)` of the refreshed buffer; with DRY_RUN, at EOF or when interrupted the buffer is unchanged |
| `FileOps.ReadRefreshesFromWindowBase` | device_driver/device_file.c:86 | outside DRY_RUN the refresh lands window words 0 .. c/W-1 at byte pos onward (the source is the window base, not base + pos), and every other buffer byte is unchanged, even when the user copy then faults |
| `FileOps.ReadReturnsWindowWords` | device_driver/device_file.c:86-95 | outside DRY_RUN a successful read returns exactly c bytes: window words 0 .. c/W-1 followed by the buffer's old bytes for the partial last word |
| `FileOps.WriteStep` | device_driver/device_file.c:102-141 | `-EINTR` exactly when interrupted and no state change; past the lock `ret` is never negative and is the unclamped count at `pos >= buffer_size`, where `status` is `-EINVAL` and nothing changes; on a fault `status` is `-EFAULT`, the cursor and window are unchanged and the buffer range holds the readable user bytes then zeros; on success `ret == status ==` the clamped count, the cursor advances by it, `data[pos..pos+c)` holds the user bytes, every byte outside is unchanged, and with DRY_RUN the window is unchanged |
| `FileOps.WritePushesWrittenWords` | device_driver/device_file.c:131-136 | outside DRY_RUN a successful write leaves user word i in window word i for i < c/W and every other window word unchanged (push from the cursor before the advance) |
| `FileOps.WriteThenRead` | device_driver/device_file.c:65-141 | writing n bytes at a cursor and reading n bytes at the same cursor returns the bytes written and leaves both cursors at pos+n; with DRY_RUN as the source stands, without DRY_RUN only for the corrected push from the cursor before the advance (the push at :135 breaks it, see `FileOps.AsWrittenPushBreaksReadBack`) |
| `FileOps.AsWrittenWriteHidesErrors` | device_driver/device_file.c:118-140 | as written, a write at the end returns the count with retval `-EINVAL`, and a faulting write of the whole buffer returns `buffer_size` with retval `-EFAULT` |
| `FileOps.WriteStatusReportsErrors` | device_driver/device_file.c:110-132 | what the handler would return with `return retval` at :140 (and `-EINTR`, returned directly at :110, on the interrupted path) is negative exactly on the interrupted, past-the-end and faulting paths; otherwise it is the bytes written and the cursor's advance |
| `FileOps.AsWrittenPushOverruns` | device_driver/device_file.c:131-135 | when a write reaches the end of the buffer with at least one whole word, the words that :135 pushes from the advanced cursor lie entirely past the buffer, `(c/W)*W` bytes of them |
| `FileOps.AsWrittenWholeBufferPushOverruns` | device_driver/device_file.c:131-135 | the case `pos = 0, count = buffer_size` breaks the push's in-bounds precondition |
| `FileOps.AsWrittenPushMisplaced` | device_driver/device_file.c:131-135 | with a 16-byte zeroed buffer and 8 bytes 0xAB written at cursor 0, the as-written push sends bytes 8..16 (not the written bytes) to window word 0, where the pre-advance push sends the written bytes |
| `FileOps.AsWrittenPushSendsFollowingBytes` | device_driver/device_file.c:124-135 | once the c bytes `b` are written at `pos` and the push from the advanced cursor `pos + c` stays in the buffer (by definition of `InBounds`, when `pos + c + (c/W)*W <= buffer_size`), window word i gets the untouched old buffer bytes `pos+c+i*W ..`, not the bytes written |
| `FileOps.AsWrittenShortWritePushOverruns` | device_driver/device_file.c:124-135 | a 12-byte write at cursor 0 of a 16-byte buffer stops short of the end, yet the push from the advanced cursor breaks the in-bounds precondition |
| `FileOps.AsWrittenPushBreaksReadBack` | device_driver/device_file.c:86-135 | 8 bytes 0xAB written at cursor 0 of a 16-byte zeroed buffer and pushed as :135 does, then read back at cursor 0 outside DRY_RUN: the read returns 8 bytes whose first is 0, not the bytes written |
| `FileOps.CorrectedPushInBounds` | device_driver/device_file.c:124-135 | the push from the cursor before the advance always meets `copy_to_vpmu`'s in-bounds precondition |
| `DeviceState.Device.constructor` | device_driver/device_file.c:206-208 | a constructed device has no buffer (`data == NULL`) and `buffer_size` set to the region size |
| `DeviceState.Device.Allocate` | device_driver/device_file.c:167-174 | with no buffer: a fresh zero-filled buffer of exactly `buffer_size` bytes and 0, or `-ENOMEM` with `data` still NULL; with a buffer: the same buffer, contents untouched, and 0 |
| `DeviceState.Device.Read` | device_driver/device_file.c:65-100 | the returned value, new cursor, new buffer and user bytes are exactly `ReadStep` of the old buffer and the window; the window is unchanged |
| `DeviceState.Device.Write` | device_driver/device_file.c:102-141 | the returned value, retval, new cursor, new buffer and new window are exactly `WriteStep` of the old buffer and old window |
| `DeviceState.Driver.constructor` | device_driver/device_file.c:29-34 | the driver holds the registered major number and one valid device per minor number |
| `DeviceState.Driver.Open` | device_driver/device_file.c:143-178 | `-ENODEV` exactly for a wrong major, an out-of-range minor or a mismatched cdev, with no allocation; `-ENOMEM` exactly when a first open's allocation fails; otherwise 0; an allocated buffer is kept with its contents (idempotent), a first open makes a zero-filled one; the device is bound to the file once the numbers are valid |
| `DeviceState.Driver.Release` | device_driver/device_file.c:180-184 | always returns 0 and changes nothing |

## Left out

- Locking: `mutex_lock_killable` and `mutex_unlock`, and all cross-thread ordering, are concurrency. Each handler runs atomically. An interrupted lock wait is the `interrupted` flag: it returns `-EINTR` and changes nothing.
- Registration and teardown are kernel calls with no visible semantics: `register_device`, `unregister_device`, `vpmu_cleanup_module`, `vpmu_destroy_device`, `vpmu_devnode`, and the `cdev_*`, `device_create`, `class_create` and `alloc_chrdev_region` calls. `Driver` is built from devices that already exist. Of `vpmu_construct_device`, only the state it sets (device_file.c:206-208) is modelled.
- Two registration quirks are noted but not modelled. The construct loop always passes device 0 (device_file.c:298). The failure path returns 0 instead of `err` (device_file.c:308).
- `printk`, `module_param`, and the `ioremap` that produces `vpmu_base` are I/O and configuration.
- `VPMU_DEVICE_IOMEM_SIZE` and the `VPMU_IO_READ`/`VPMU_IO_WRITE` macros come from a header that is not part of this model (device_file.c:1 and :13 include two, `device_file.h` and `../vpmu-device.h`). The size is a parameter of `Device`'s constructor. The macros become reads and writes of window words: the model assumes they turn the integer `addr_base + i` into the address of word `i`. MMIO side effects, pointer casts and alignment are not modelled.
- `W` is fixed at 8, the size of `uintptr_t` on a 64-bit kernel. A 32-bit build would use 4.
- Integer widths are not modelled: `loff_t + size_t` overflow at device_file.c:83 and :124, `size_t` to `ssize_t` conversions, and the `int retval` that holds a byte count (device_file.c:71, :95, :108, :132). Cursors and counts are unbounded naturals, so a negative cursor is not modelled.
- User memory is reduced to how much of it is accessible, as in `room` and `user` above. A faulting copy moves the accessible prefix. `copy_from_user` then zero-fills the rest of the range.
- DeviceState.Driver.Open: the `i_cdev` check is the `cdevMatches` flag.
- FileOps.WriteStep: outside DRY_RUN it pushes the written words from the cursor before the advance, where device_file.c:135 pushes from the cursor after it. The as-written push runs past the buffer exactly when `pos + c + (c/W)*W > buffer_size`, and otherwise pushes the untouched bytes `[pos+c, pos+c+(c/W)*W)`. The model corrects it because the out-of-bounds case has no defined result. `FileOps.AsWrittenPushOverruns`, `FileOps.AsWrittenShortWritePushOverruns`, `FileOps.AsWrittenPushSendsFollowingBytes` and `FileOps.AsWrittenPushMisplaced` state what the as-written push does.
- DeviceState.Device.Write: the same correction as `FileOps.WriteStep`, which its `ensures` equates it with.
- FileOps.WriteThenRead: outside DRY_RUN the round trip holds only for the corrected push. For the push of device_file.c:135 it fails, as `FileOps.AsWrittenPushBreaksReadBack` shows.
- WordTransfer.CopyFromVpmu: the byte-by-byte form of its result is `WordTransfer.FillEverywhere`, a lemma about `Fill`, not another `ensures` of the method.

## Findings

| source | as written | input that shows it | evidently intended | confidence | as-written member | corrected member |
|---|---|---|---|---|---|---|
| device_driver/device_file.c:131-135 | the cursor is advanced by the clamped count c before `copy_to_vpmu` is handed `data + *possition`, so the push reads c/W words from the end of what was written | `pos = 0`, `count = buffer_size` (at least 8): all `buffer_size/8` pushed words lie past the end of the buffer; also a 12-byte write at cursor 0 of a 16-byte buffer | push from `data + old pos`, the bytes just written | not executed | `FileOps.AsWrittenPushOverruns` | `FileOps.WritePushesWrittenWords` |
| device_driver/device_file.c:131-135 | even when the advanced cursor leaves room, the wrong bytes are pushed | 16-byte zeroed buffer, `pos = 0`, 8 bytes `0xAB`: window word 0 gets zeros | window word 0 gets the 8 bytes written | not executed | `FileOps.AsWrittenPushMisplaced` | `FileOps.WritePushesWrittenWords` |
| device_driver/device_file.c:86-135 | the misplaced push breaks reading back what was written | the same write, then an 8-byte read at `pos = 0` outside DRY_RUN: the read returns zeros | the read returns the 8 bytes written | not executed | `FileOps.AsWrittenPushBreaksReadBack` | `FileOps.WriteThenRead` |
| device_driver/device_file.c:140 | `return count;` discards `retval` | write at `pos = buffer_size`: returns `count`, not `-EINVAL`; a faulting copy returns the clamped count, not `-EFAULT` | `return retval;` | not executed | `FileOps.AsWrittenWriteHidesErrors` | `FileOps.WriteStatusReportsErrors` |
