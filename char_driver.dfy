/** The character driver: a table of `num_dev` devices, each owning a 128-byte
    buffer, reached through open/read/write, and the proc control counter
    `proc_ite`, reached through the proc file's read/write. */
module CharDriver {
  import opened Bytes
  import Kstrtoint

  /** Every device buffer is one 128-byte allocation. */
  const BufferSize: nat := 128

  /** `proc_ite` before anything writes to the proc file. */
  const DefaultIte: int := 5000

  /** The payload each buffer receives at load time (15 bytes, no terminator). */
  const DefaultString: seq<byte> := Ascii("Default string\n")

  /** A device number `dev_t`: MAJOR and MINOR. */
  datatype DevNum = MkDev(major: nat, minor: nat)

  /** A 32-bit C `int`. */
  type Int32 = x: int | Kstrtoint.IntMin <= x <= Kstrtoint.IntMax

  // ---------------------------------------------------------------------
  // Buffer contents

  /** The buffer after `copy_from_user(data, src, |src|)`: the first |src|
      bytes are replaced, the rest are left as they were. */
  function Overwrite(buf: seq<byte>, src: seq<byte>): (r: seq<byte>)
    requires |src| <= |buf|
    ensures |r| == |buf|
    ensures forall i :: 0 <= i < |src| ==> r[i] == src[i]
    ensures forall i :: |src| <= i < |buf| ==> r[i] == buf[i]
  {
    src + buf[|src|..]
  }

  /** What a read of a freshly loaded device can see: the payload, then a NUL;
      the remaining 112 bytes are whatever the allocator left there. */
  predicate HoldsDefault(buf: seq<byte>) {
    |buf| == BufferSize && buf[..|DefaultString|] == DefaultString && buf[|DefaultString|] == Nul
  }

  /** Reading back what was just written gives exactly the written bytes. */
  lemma WriteThenRead(buf: seq<byte>, src: seq<byte>)
    requires |src| <= |buf|
    ensures Overwrite(buf, src)[..|src|] == src
  {
  }

  /** A write hides every earlier write that was no longer than it. */
  lemma LongerWriteWins(buf: seq<byte>, s: seq<byte>, t: seq<byte>)
    requires |s| <= |t| <= |buf|
    ensures Overwrite(Overwrite(buf, s), t) == Overwrite(buf, t)
  {
  }

  /** Writing the same bytes twice leaves the buffer as one write does. */
  lemma WriteIdempotent(buf: seq<byte>, s: seq<byte>)
    requires |s| <= |buf|
    ensures Overwrite(Overwrite(buf, s), s) == Overwrite(buf, s)
  {
    LongerWriteWins(buf, s, s);
  }

  /** After loading, the buffer read as a C string is the default payload. */
  lemma DefaultCString(buf: seq<byte>)
    requires HoldsDefault(buf)
    ensures CStr(buf) == DefaultString
  {
    assert buf == DefaultString + [Nul] + buf[|DefaultString| + 1..];
    CStrOfTerminated(DefaultString, buf[|DefaultString| + 1..]);
  }

  /** `copy_from_user` / `memcpy` into a kernel buffer, byte by byte. */
  method CopyIn(dst: array<byte>, src: seq<byte>)
    requires |src| <= dst.Length
    modifies dst
    ensures dst[..] == Overwrite(old(dst[..]), src)
  {
    for i := 0 to |src|
      invariant forall k :: 0 <= k < i ==> dst[k] == src[k]
      invariant forall k :: i <= k < dst.Length ==> dst[k] == old(dst[k])
    {
      dst[i] := src[i];
    }
  }

  // ---------------------------------------------------------------------
  // Devices and open files

  /** `struct mydevice`: the cdev registered for it and its buffer. */
  class Device {
    const cdev: DevNum
    const data: array<byte>

    /** The buffer allocation and `cdev_init`/`cdev_add` under number `d`. */
    constructor (d: DevNum)
      ensures cdev == d && fresh(data) && data.Length == BufferSize
    {
      cdev := d;
      data := new byte[BufferSize];
    }
  }

  /** The kernel's `struct file`, as far as the driver uses it. */
  class File {
    var privateData: Device?

    constructor ()
      ensures privateData == null
    {
      privateData := null;
    }
  }

  /** `dev_read`: copies the first `size` bytes of the bound device's buffer
      out to the caller and returns 0. The source does not compare `size`
      with the buffer's 128 bytes; here the caller must stay within them. */
  method Read(f: File, size: nat) returns (out: seq<byte>, ret: int)
    requires f.privateData != null && f.privateData.data.Length == BufferSize
    requires size <= BufferSize
    ensures |out| == size && out == f.privateData.data[..size]
    ensures ret == 0
  {
    var device := f.privateData;
    out := device.data[..size];
    ret := 0;
  }

  /** `dev_write`: copies the caller's bytes over the start of the bound
      device's buffer and returns 0. No terminator is added and nothing else
      changes. The source does not compare the size with the buffer's 128
      bytes; here the caller must stay within them. */
  method Write(f: File, src: seq<byte>) returns (ret: int)
    requires f.privateData != null && f.privateData.data.Length == BufferSize
    requires |src| <= BufferSize
    modifies f.privateData.data
    ensures f.privateData.data[..] == Overwrite(old(f.privateData.data[..]), src)
    ensures ret == 0
  {
    var device := f.privateData;
    CopyIn(device.data, src);
    ret := 0;
  }

  // ---------------------------------------------------------------------
  // The module's global state

  /** The driver's globals: the `num_dev` parameter, the first device number
      `dev`, the device table `chardevices` (null until loaded) and the proc
      counter `proc_ite`. */
  class Driver {
    const numDev: nat
    var dev: DevNum
    var chardevices: array?<Device?>
    var procIte: Int32

    /** The globals as the module is loaded, before `char_module_init` runs. */
    constructor (numDev: nat)
      ensures this.numDev == numDev && chardevices == null && procIte == DefaultIte
    {
      this.numDev := numDev;
      dev := MkDev(0, 0);
      chardevices := null;
      procIte := DefaultIte;
    }

    /** The device table after a successful load: `num_dev` devices, device i
        registered at minor i under the allocated major, every buffer its own
        128-byte allocation. */
    ghost predicate Loaded()
      reads this, chardevices
    {
      chardevices != null && chardevices.Length == numDev && dev.minor == 0 &&
      (forall i :: 0 <= i < numDev ==>
        chardevices[i] != null &&
        chardevices[i].cdev == MkDev(dev.major, i) &&
        chardevices[i].data.Length == BufferSize) &&
      (forall i, j :: 0 <= i < j < numDev ==> chardevices[i].data != chardevices[j].data)
    }

    /** The device whose cdev is registered under number `d`, as the inode of
        a device node names it; None when the number was not registered. */
    function Lookup(d: DevNum): (r: Option<nat>)
      requires Loaded()
      reads this, chardevices
      ensures r.Some? ==> r.value < numDev && chardevices[r.value].cdev == d
      ensures r.None? ==> forall i :: 0 <= i < numDev ==> chardevices[i].cdev != d
    {
      if d.major == dev.major && d.minor < numDev then Some(d.minor) else None
    }

    /** `char_module_init`. When the minor range cannot be registered it
        returns -1 and builds nothing. Otherwise every device gets a fresh
        buffer holding the default payload and its NUL, is registered at its
        own minor, and 0 is returned. */
    method Init(registered: bool, major: nat) returns (ret: int)
      requires chardevices == null
      modifies this
      ensures procIte == old(procIte)
      ensures !registered ==> ret == -1 && chardevices == null && unchanged(this)
      ensures registered ==> ret == 0 && Loaded() && dev == MkDev(major, 0)
      ensures registered ==> fresh(chardevices)
      ensures registered ==> forall i :: 0 <= i < numDev ==>
        fresh(chardevices[i]) && fresh(chardevices[i].data) &&
        HoldsDefault(chardevices[i].data[..])
    {
      if !registered {
        return -1;
      }
      dev := MkDev(major, 0);
      var table := new Device?[numDev];
      for i := 0 to numDev
        invariant dev == MkDev(major, 0) && procIte == old(procIte) && chardevices == null
        invariant forall k :: 0 <= k < i ==>
          table[k] != null && fresh(table[k]) && fresh(table[k].data) &&
          table[k].cdev == MkDev(major, k) && table[k].data.Length == BufferSize &&
          HoldsDefault(table[k].data[..])
        invariant forall k, j :: 0 <= k < j < i ==> table[k].data != table[j].data
      {
        var device := new Device(MkDev(major, i));
        CopyIn(device.data, DefaultString);
        device.data[|DefaultString|] := Nul;
        table[i] := device;
      }
      chardevices := table;
      ret := 0;
    }

    /** `dev_open`: binds the file to the device whose cdev the inode names
        and returns 0. The kernel calls it only for a registered number. */
    method Open(f: File, inode: DevNum) returns (ret: int)
      requires Loaded() && Lookup(inode).Some?
      modifies f
      ensures f.privateData == chardevices[Lookup(inode).value]
      ensures f.privateData.cdev == inode && f.privateData.data.Length == BufferSize
      ensures ret == 0
    {
      f.privateData := chardevices[inode.minor];
      ret := 0;
    }

    /** `myproc_read`: logs one line for each i in [0, proc_ite), returns 0 and
        leaves the counter as it is. `log` holds the logged values of i. */
    method ProcRead() returns (ret: int, log: seq<int>)
      ensures |log| == (if procIte > 0 then procIte else 0)
      ensures forall i :: 0 <= i < |log| ==> log[i] == i
      ensures ret == 0
    {
      log := [];
      var i := 0;
      while i < procIte
        invariant 0 <= i <= (if procIte > 0 then procIte else 0)
        invariant |log| == i
        invariant forall k :: 0 <= k < i ==> log[k] == k
      {
        log := log + [i];
        i := i + 1;
      }
      ret := 0;
    }

    /** `myproc_write`: NUL-terminates the caller's bytes, parses them with
        `kstrtoint` in base 0 into `proc_ite`, and returns the full size
        whatever the text holds. A failed parse leaves the counter alone. */
    method ProcWrite(input: seq<byte>) returns (ret: int)
      modifies this`procIte
      ensures ret == |input|
      ensures procIte == match Kstrtoint.ParseInt(CStr(input))
                         case Some(v) => v
                         case None => old(procIte)
    {
      var procBuff := new byte[|input| + 1];
      CopyIn(procBuff, input);
      procBuff[|input|] := Nul;
      assert procBuff[..] == input + [Nul];
      CStrAppendNul(input);
      match Kstrtoint.ParseInt(CStr(procBuff[..])) {
        case Some(v) => procIte := v;
        case None =>
      }
      ret := |input|;
    }
  }
}
