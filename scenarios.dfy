/** Callers of the driver: what a user of the device nodes and of the proc
    file can rely on, proved from the driver's contracts alone. */
module Scenarios {
  import opened Bytes
  import opened CharDriver
  import Kstrtoint

  /** The test client's message with the terminating NUL that `sizeof` counts:
      42 bytes. */
  const SampleMessage: seq<byte> := Ascii("THIS IS A SAMPLE CHARACTER DEVICE DRIVER\n\0")

  /** Writing bytes through a handle and then reading as many back through the
      same handle returns exactly those bytes. */
  method WriteReadRoundTrip(f: File, src: seq<byte>) returns (got: seq<byte>)
    requires f.privateData != null && f.privateData.data.Length == BufferSize
    requires |src| <= BufferSize
    modifies f.privateData.data
    ensures got == src
  {
    var _ := Write(f, src);
    WriteThenRead(old(f.privateData.data[..]), src);
    var ret;
    got, ret := Read(f, |src|);
  }

  /** Two reads with no write between them return the same bytes. */
  method RepeatableRead(f: File, n: nat) returns (first: seq<byte>, second: seq<byte>)
    requires f.privateData != null && f.privateData.data.Length == BufferSize
    requires n <= BufferSize
    ensures first == second && |first| == n
  {
    var ret;
    first, ret := Read(f, n);
    second, ret := Read(f, n);
  }

  /** A write through a handle bound to one device never changes what a handle
      bound to another device reads. */
  method WriteIsolation(drv: Driver, f: File, g: File, src: seq<byte>, n: nat)
    returns (before: seq<byte>, after: seq<byte>)
    requires drv.Loaded()
    requires exists i :: 0 <= i < drv.numDev && f.privateData == drv.chardevices[i]
    requires exists j :: 0 <= j < drv.numDev && g.privateData == drv.chardevices[j]
    requires f.privateData != g.privateData
    requires |src| <= BufferSize && n <= BufferSize
    modifies f.privateData.data
    ensures before == after
  {
    var i :| 0 <= i < drv.numDev && f.privateData == drv.chardevices[i];
    var j :| 0 <= j < drv.numDev && g.privateData == drv.chardevices[j];
    assert i != j;
    assert f.privateData.data != g.privateData.data by {
      if i < j {
        assert drv.chardevices[i].data != drv.chardevices[j].data;
      } else {
        assert drv.chardevices[j].data != drv.chardevices[i].data;
      }
    }
    var ret;
    before, ret := Read(g, n);
    ret := Write(f, src);
    after, ret := Read(g, n);
  }

  /** The test client: with the default single device loaded under `major`,
      it opens minor 0, writes its 42-byte message and reads 42 bytes back,
      which are the message. */
  method ClientSession(major: nat) returns (got: seq<byte>)
    ensures got == SampleMessage
  {
    var drv := new Driver(1);
    var r := drv.Init(true, major);
    var f := new File();
    r := drv.Open(f, MkDev(major, 0));
    ghost var before := f.privateData.data[..];
    r := Write(f, SampleMessage);
    WriteThenRead(before, SampleMessage);
    got, r := Read(f, |SampleMessage|);
  }

  /** Two devices: "AB" written to minor 0 and "CD" to minor 1 read back
      unmixed, each from its own device. */
  method TwoDevices(major: nat) returns (got0: seq<byte>, got1: seq<byte>)
    ensures got0 == Ascii("AB") && got1 == Ascii("CD")
  {
    var drv := new Driver(2);
    var r := drv.Init(true, major);
    var f0 := new File();
    r := drv.Open(f0, MkDev(major, 0));
    var f1 := new File();
    r := drv.Open(f1, MkDev(major, 1));
    var buf0, buf1 := f0.privateData.data, f1.privateData.data;
    assert buf0 != buf1 by {
      assert buf0 == drv.chardevices[0].data && buf1 == drv.chardevices[1].data;
    }
    ghost var before0 := buf0[..];
    r := Write(f0, Ascii("AB"));
    WriteThenRead(before0, Ascii("AB"));
    ghost var after0 := buf0[..];
    ghost var before1 := buf1[..];
    r := Write(f1, Ascii("CD"));
    WriteThenRead(before1, Ascii("CD"));
    assert buf0[..] == after0;
    got0, r := Read(f0, 2);
    got1, r := Read(f1, 2);
  }

  /** Reading a device before anything was written to it gives the default
      payload followed by its NUL. */
  method FreshRead(major: nat, numDev: nat, minor: nat) returns (got: seq<byte>)
    requires minor < numDev
    ensures got == DefaultString + [Nul]
    ensures CStr(got) == DefaultString
  {
    var drv := new Driver(numDev);
    var r := drv.Init(true, major);
    var f := new File();
    r := drv.Open(f, MkDev(major, minor));
    got, r := Read(f, |DefaultString| + 1);
    assert got == DefaultString + [Nul] + [];
    CStrOfTerminated(DefaultString, []);
  }

  /** A failed registration leaves the module without devices. */
  method FailedLoad(numDev: nat) returns (ret: int, loaded: bool)
    ensures ret == -1 && !loaded
  {
    var drv := new Driver(numDev);
    ret := drv.Init(false, 0);
    loaded := drv.chardevices != null;
  }

  /** `echo v > /proc/proc_ite` hands the parser the decimal text of v and a
      newline, which converts back to v. */
  lemma EchoParses(v: int)
    requires Kstrtoint.IntMin <= v <= Kstrtoint.IntMax
    ensures Kstrtoint.ParseInt(CStr(Kstrtoint.Decimal(v) + [Newline])) == Some(v)
  {
    var echo := Kstrtoint.Decimal(v) + [Newline];
    assert NulFree(echo);
    CStrOfTerminated(echo, []);
    assert echo + [Nul] + [] == echo + [Nul];
    CStrAppendNul(echo);
    Kstrtoint.DecimalRoundTrip(v, [Newline]);
  }

  /** "7x\n": a digit, a stray 'x' and a newline, which the parser rejects. */
  lemma JunkRejected()
    ensures Kstrtoint.ParseInt(CStr(Kstrtoint.Decimal(7) + [0x78, Newline])) == None
  {
    var junk := Kstrtoint.Decimal(7) + [0x78, Newline];
    assert junk == Kstrtoint.Decimal(7) + [0x78] + [Newline];
    assert NulFree(junk);
    CStrOfTerminated(junk, []);
    assert junk + [Nul] + [] == junk + [Nul];
    CStrAppendNul(junk);
    Kstrtoint.TrailingGarbageRejected(7, 0x78, [Newline]);
  }

  /** The proc counter: 5000 log lines on a fresh module; `echo 3` sets it to
      3, and a malformed write is accepted but changes nothing. */
  method ProcSession() returns (lines0: nat, size1: int, lines1: nat, size2: int, lines2: nat)
    ensures lines0 == 5000
    ensures size1 == 2 && lines1 == 3
    ensures size2 == 3 && lines2 == 3
  {
    var drv := new Driver(1);
    var r, log := drv.ProcRead();
    lines0 := |log|;
    EchoParses(3);
    size1 := drv.ProcWrite(Kstrtoint.Decimal(3) + [Newline]);
    r, log := drv.ProcRead();
    lines1 := |log|;
    JunkRejected();
    size2 := drv.ProcWrite(Kstrtoint.Decimal(7) + [0x78, Newline]);
    r, log := drv.ProcRead();
    lines2 := |log|;
  }
}
