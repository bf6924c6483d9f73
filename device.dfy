/** The per-device state of device_driver/device_file.c (struct vpmu_dev) and
    the file operations that change it in place: open's lazy allocation, read,
    write and release.

    The shared hardware window (vpmu_base) is passed to each handler as an
    array of words; the stream cursor (*possition) is passed in and the new
    cursor returned. */
module DeviceState {
  import opened WordTransfer
  import opened FileOps

  class Device {
    /** The shadow buffer: null until the first successful open. */
    var data: array?<bv8>
    /** Fixed at construction: VPMU_DEVICE_IOMEM_SIZE. */
    const bufferSize: nat

    ghost predicate Valid()
      reads this
    {
      bufferSize > 0 && (data != null ==> data.Length == bufferSize)
    }

    /** The state vpmu_construct_device gives a device: no buffer yet, and the
        size of the hardware region as buffer size. */
    constructor (size: nat)
      requires size > 0
      ensures Valid() && data == null && bufferSize == size
    {
      data := null;
      bufferSize := size;
    }

    /** The allocation step of device_file_open: a zero-filled buffer of
        bufferSize bytes the first time; the existing buffer, untouched, on
        every later open. `allocFails` stands for kzalloc returning NULL. */
    method Allocate(allocFails: bool) returns (ret: int)
      requires Valid()
      modifies this`data
      ensures Valid()
      ensures old(data) != null ==> ret == 0 && data == old(data)
      ensures old(data) == null && allocFails ==> ret == -ENOMEM && data == null
      ensures old(data) == null && !allocFails ==>
                ret == 0 && data != null && fresh(data) && data[..] == Zeros(bufferSize)
    {
      ret := 0;
      if data == null {
        if allocFails {
          ret := -ENOMEM;
        } else {
          data := new bv8[bufferSize](_ => 0);
        }
      }
    }

    /** device_file_read. `room` is the number of writable bytes at the user
        buffer; `out` is what copy_to_user delivered there. */
    method Read(window: array<Word>, count: nat, pos: nat, room: nat, interrupted: bool, dryRun: bool)
      returns (ret: int, newPos: nat, out: seq<bv8>)
      requires Valid() && data != null && window as object != data
      requires Covers(window[..], bufferSize)
      modifies data
      ensures Valid() && window[..] == old(window[..])
      ensures ReadOutcome(ret, newPos, data[..], out)
              == ReadStep(old(data[..]), old(window[..]), pos, count, room, interrupted, dryRun)
    {
      if interrupted {
        return -EINTR, pos, [];
      }
      if pos >= bufferSize {
        return 0, pos, [];
      }
      var c := count;
      if pos + count > bufferSize {
        c := bufferSize - pos;
      }
      if !dryRun {
        WordsFit(window[..], bufferSize, c);
        var words := CopyFromVpmu(data, pos, window, c);
      }
      if room < c {
        return -EFAULT, pos, data[pos..pos + room];
      }
      out := data[pos..pos + c];
      newPos := pos + c;
      ret := c;
    }

    /** device_file_write. `user` is the readable prefix of the user buffer.
        `ret` is what the handler returns; `status` is what it would return
        if device_file.c:140 were `return retval` (see FileOps.WriteStep).
        The push to the window takes the words from the cursor before it is
        advanced (see FileOps.WriteStep). */
    method Write(window: array<Word>, count: nat, pos: nat, user: seq<bv8>, interrupted: bool, dryRun: bool)
      returns (ret: int, status: int, newPos: nat)
      requires Valid() && data != null && window as object != data
      requires Covers(window[..], bufferSize)
      modifies data, window
      ensures Valid()
      ensures WriteOutcome(ret, status, newPos, data[..], window[..])
              == WriteStep(old(data[..]), old(window[..]), pos, count, user, interrupted, dryRun)
    {
      if interrupted {
        return -EINTR, -EINTR, pos;
      }
      if pos >= bufferSize {
        // A cursor at or past the end: retval is -EINVAL (device_file.c:120),
        // yet :140 returns count.
        return count, -EINVAL, pos;
      }
      var c := count;
      if pos + count > bufferSize {
        c := bufferSize - pos;
      }
      if |user| < c {
        // copy_from_user copies what it can and zero-fills the rest.
        forall k | 0 <= k < c {
          data[pos + k] := if k < |user| then user[k] else 0;
        }
        assert data[..] == Splice(old(data[..]), pos, user + Zeros(c - |user|));
        return c, -EFAULT, pos;
      }
      forall k | 0 <= k < c {
        data[pos + k] := user[k];
      }
      assert data[..] == Splice(old(data[..]), pos, user[..c]);
      newPos := pos + c;
      ret, status := c, c;
      ghost var written := data[..];
      assert window[..] == old(window[..]);
      if !dryRun {
        WordsFit(window[..], bufferSize, c);
        var words := CopyToVpmu(window, data, pos, c);
        assert data[..] == written;
        assert window[..] == Store(old(window[..]), written, pos, WordCount(c));
      }
    }
  }

  /** The driver's view of its devices: the major number it registered and
      vpmu_devices, one device per minor number 0 .. vpmu_ndevices - 1. */
  class Driver {
    const major: nat
    const devices: seq<Device>

    ghost predicate Valid()
      reads this, devices
    {
      forall i :: 0 <= i < |devices| ==> devices[i].Valid()
    }

    constructor (major: nat, devices: seq<Device>)
      requires forall i :: 0 <= i < |devices| ==> devices[i].Valid()
      ensures Valid() && this.major == major && this.devices == devices
    {
      this.major := major;
      this.devices := devices;
    }

    /** device_file_open for an inode with major mj and minor mn.
        `cdevMatches` says whether the inode's cdev is that device's cdev;
        `allocFails` stands for kzalloc returning NULL. `bound` is the device
        stored in the file's private_data (null when none was). */
    method Open(mj: nat, mn: nat, cdevMatches: bool, allocFails: bool) returns (ret: int, bound: Device?)
      requires Valid()
      modifies if mn < |devices| then {devices[mn]} else {}
      ensures Valid()
      ensures ret == -ENODEV <==> mj != major || mn >= |devices| || !cdevMatches
      ensures ret == -ENOMEM <==>
                mj == major && mn < |devices| && cdevMatches && old(devices[mn].data) == null && allocFails
      ensures ret == 0 || ret == -ENODEV || ret == -ENOMEM
      ensures bound == if mj == major && mn < |devices| then devices[mn] else null
      ensures ret == -ENODEV && mn < |devices| ==> devices[mn].data == old(devices[mn].data)
      ensures ret != -ENODEV ==>
                var d := devices[mn];
                (old(d.data) != null ==> d.data == old(d.data))
                && (old(d.data) == null && allocFails ==> d.data == null)
                && (old(d.data) == null && !allocFails ==>
                      d.data != null && fresh(d.data) && d.data[..] == Zeros(d.bufferSize))
    {
      if mj != major || mn >= |devices| {
        return -ENODEV, null;
      }
      bound := devices[mn];
      if !cdevMatches {
        return -ENODEV, bound;
      }
      ret := bound.Allocate(allocFails);
    }

    /** device_file_release: nothing is freed; the buffer lives as long as the
        device. */
    method Release() returns (ret: int)
      ensures ret == 0
    {
      ret := 0;
    }
  }
}
