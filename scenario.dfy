/** A client of the device model: the sequence of calls a user program makes
    on one device, and what the contracts let it conclude. */
module Scenario {
  import opened WordTransfer
  import opened FileOps
  import opened DeviceState

  /** Open device 0 of a driver with one 4096-byte device, write the whole
      buffer with 0xAB, write once more at the end, read the whole buffer back,
      read once more at the end. */
  method WholeBufferRoundTrip(window: array<Word>, major: nat, dryRun: bool)
    requires window.Length == 512
    modifies window
  {
    var dev := new Device(4096);
    var driver := new Driver(major, [dev]);
    var ret, bound := driver.Open(major, 0, true, false);
    assert ret == 0 && bound == dev && dev.data != null;

    var bytes: seq<bv8> := seq(4096, _ => 0xAB);
    WriteThenRead(dev.data[..], window[..], 0, bytes, dryRun);
    var pos := WriteAll(dev, window, bytes, dryRun);
    assert pos == dev.bufferSize;
    ReadAll(dev, window, bytes, dryRun);
  }

  /** Opening minor 5 when one device is registered finds no device and
      binds nothing. */
  method OpenUnknownMinor(major: nat)
  {
    var dev := new Device(4096);
    var driver := new Driver(major, [dev]);
    var ret, bound := driver.Open(major, 5, true, false);
    assert ret == -ENODEV && bound == null && dev.data == null;
  }

  /** The two writes: a whole buffer from 0, then one byte at the end. */
  method WriteAll(dev: Device, window: array<Word>, bytes: seq<bv8>, dryRun: bool) returns (pos: nat)
    requires dev.Valid() && dev.data != null && window as object != dev.data
    requires dev.bufferSize == |bytes| == 4096 && window.Length == 512
    modifies dev.data, window
    ensures pos == 4096
    ensures var w := WriteStep(old(dev.data[..]), old(window[..]), 0, 4096, bytes, false, dryRun);
            dev.data[..] == w.buffer && window[..] == w.window
  {
    var ret, status;
    ret, status, pos := dev.Write(window, 4096, 0, bytes, false, dryRun);
    assert ret == 4096 && status == 4096 && pos == 4096;
    ghost var buf, win := dev.data[..], window[..];
    ret, status, pos := dev.Write(window, 1, pos, bytes, false, dryRun);
    assert status == -EINVAL && ret == 1 && pos == 4096;
    assert dev.data[..] == buf && window[..] == win;
  }

  /** The two reads: the whole buffer from 0, then at the end. */
  method ReadAll(dev: Device, window: array<Word>, bytes: seq<bv8>, dryRun: bool)
    requires dev.Valid() && dev.data != null && window as object != dev.data
    requires dev.bufferSize == |bytes| == 4096 && window.Length == 512
    requires ReadStep(dev.data[..], window[..], 0, 4096, 4096, false, dryRun).out == bytes
    modifies dev.data
  {
    var ret, pos, out := dev.Read(window, 4096, 0, 4096, false, dryRun);
    assert ret == 4096 && pos == 4096 && out == bytes;
    ret, pos, out := dev.Read(window, 4096, pos, 4096, false, dryRun);
    assert ret == 0 && pos == 4096 && out == [];
  }
}
