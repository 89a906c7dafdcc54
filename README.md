# Sample character driver, modelled in Dafny

This project models the Linux kernel module in `char_driver.c`. The module has two pieces of state.

- **The device table** `chardevices` holds `num_dev` records of type `struct mydevice`. Each record owns a 128-byte buffer.
  - `char_module_init` registers a minor range starting at 0, fills each buffer with `"Default string\n"` followed by a NUL, and binds device i to minor i.
  - `dev_open` stores the device that owns the inode's cdev in the file's `private_data`.
  - `dev_write` copies the caller's bytes over the start of that device's buffer.
  - `dev_read` copies the start of the buffer back out.
- **The proc counter** `proc_ite` starts at 5000.
  - `myproc_write` parses the written text with `kstrtoint` in base 0 into the counter.
  - `myproc_read` logs one line per unit of the counter.

Modules:

- `Bytes` (bytes.dfy): bytes as 8-bit values, and C strings, which end at the first NUL.
- `Kstrtoint` (kstrtoint.dfy): a small parser with `kstrtoint`'s base-0 behaviour. `kstrtoint` is a kernel library routine and its source is not part of this model. The parser follows the routine's documented contract:
  - an optional sign;
  - the radix is taken from the prefix: "0x" for hexadecimal (only when a hex digit follows), a leading "0" for octal, otherwise decimal;
  - at least one digit;
  - at most one trailing newline;
  - a result that fits a 32-bit `int`.

  The parser takes a C string, so its input holds no NUL; `myproc_write` hands it the text before the first NUL.
- `CharDriver` (char_driver.dfy): the driver itself.
  - `Device` stands for `struct mydevice`. `File` is the part of `struct file` that the driver uses.
  - `Driver` holds the module globals `num_dev`, `dev`, `chardevices` and `proc_ite`.
  - Buffers are `array<byte>` and are updated in place.
  - The device table is a fixed-size array, filled by the init loop.
  - The proc counter is a field that `ProcWrite` assigns.
- `Scenarios` (scenarios.dfy): callers that use only the contracts. They cover:
  - the test client in `char_device.c`: open minor 0, write 42 bytes, read 42 bytes back;
  - a write followed by a read on the same handle;
  - reads that repeat;
  - isolation between devices;
  - a read straight after load;
  - a failed load;
  - a session on the proc file.

Inputs that the kernel supplies appear as parameters:

- Whether `alloc_chrdev_region` succeeds is a `registered` flag, and the major it allocates is a `major` argument of `Init`.
- `Open` receives the device number that the inode names.
- Read and write take the caller's bytes and the size as values.

Points of the code's behaviour that the model keeps:

- The counter starts at 5000.
- Reading the proc file logs `proc_ite` lines and leaves the counter unchanged.
- `dev_read` and `dev_write` return 0 whatever they copied.
- A write overwrites a prefix of the buffer. It records no logical length and does not truncate.
- Neither `dev_read` nor `dev_write` checks the size against the 128-byte buffer. The model turns this missing check into a precondition (see "Left out").
- `char_module_init` does not check its allocations, so the model has no rollback path for failed allocations.

## Model

| member | source | states |
|---|---|---|
| `CharDriver.Driver.constructor` | char_driver.c:19-29 | Before init runs, no device table exists (`chardevices` is NULL), `num_dev` is the module parameter and `proc_ite` is 5000. |
| `CharDriver.Driver.Init` | char_driver.c:120-173 | If registration fails, init returns -1, builds no table and changes no global, `dev` included. Otherwise it returns 0 and the table is loaded: `num_dev` devices, device i registered at minor i under the allocated major, and a separate fresh 128-byte buffer per device whose bytes 0..14 are "Default string\n" and whose byte 15 is NUL. `proc_ite` is untouched. |
| `CharDriver.Device.constructor` | char_driver.c:157-162 | Each device gets a fresh 128-byte buffer and is registered under the device number it is given. |
| `CharDriver.Driver.Lookup` | char_driver.c:156-163 | A device number resolves to index i exactly when the cdev of device i was added under that number. An unregistered number resolves to no device. |
| `CharDriver.Driver.Open` | char_driver.c:73-87 | Open binds the file to the device whose cdev the inode names and returns 0. That device has a 128-byte buffer and is registered under that number. |
| `CharDriver.Read` | char_driver.c:96-102 | Given only the file's bound device, read returns exactly the first `size` bytes of that device's buffer and returns 0. It changes no buffer. |
| `CharDriver.Write` | char_driver.c:104-111 | Given only the file's bound device, write makes that buffer's first len(src) bytes equal to `src` and keeps the remaining bytes. It adds no terminator, modifies no other object and returns 0. |
| `CharDriver.CopyIn` | char_driver.c:108 | `copy_from_user`/`memcpy` into a kernel buffer leaves the buffer equal to `Overwrite` of its old contents: a prefix replaced, the rest unchanged. |
| `CharDriver.Overwrite` | char_driver.c:108 | After a copy of `src` into the buffer, positions below len(src) hold `src` and later positions hold the old bytes. The length stays the same. |
| `CharDriver.WriteThenRead` | char_driver.c:96-111 | Reading len(s) bytes after writing `s` yields `s`. |
| `CharDriver.LongerWriteWins` | char_driver.c:104-111 | A write hides every earlier write that was no longer than it. |
| `CharDriver.WriteIdempotent` | char_driver.c:104-111 | Writing the same bytes twice gives the same buffer as writing them once. |
| `CharDriver.DefaultCString` | char_driver.c:158-160 | A freshly loaded buffer, read as a C string, is exactly "Default string\n". |
| `CharDriver.Driver.ProcRead` | char_driver.c:42-52 | The proc read logs the values 0, 1, …, `proc_ite`-1 (nothing when `proc_ite` <= 0) and returns 0. It changes no state. |
| `CharDriver.Driver.ProcWrite` | char_driver.c:54-69 | The proc write returns the full input size. `proc_ite` becomes the value `kstrtoint` parses from the input up to the first NUL when that parse succeeds, and stays unchanged otherwise. Nothing else changes. |
| `Bytes.CStr` | char_driver.c:64 | The C string in a buffer is its longest NUL-free prefix: it stops at the first NUL or at the end. |
| `Bytes.CStrAppendNul` | char_driver.c:60-66 | NUL-terminating the copied input does not change the text `kstrtoint` sees. |
| `Bytes.CStrOfTerminated` | char_driver.c:159-160 | A NUL-free payload followed by a NUL reads back as that payload, whatever follows the NUL. |
| `Kstrtoint.ParseUnsignedSpec` | char_driver.c:66 | After the radix prefix, the unsigned conversion succeeds exactly when the text is one or more digits of the radix, optionally followed by one newline. The result is the positional value of those digits. |
| `Kstrtoint.UnsignedSpec` | char_driver.c:66 | The digit scan accepts exactly a non-empty run of digits of the radix followed by at most one newline, and yields the value of that run. |
| `Kstrtoint.Radix` | char_driver.c:66 | Base-0 radix detection: an empty text or one not starting with '0' is decimal. "0x" or "0X" followed by a hex digit is hexadecimal, and those two prefix bytes are skipped. Any other text starting with '0' is octal, and its '0' is read as a digit. |
| `Kstrtoint.DigitValue` | char_driver.c:66 | The digits are '0'..'9' with values 0..9, and 'a'..'f' or 'A'..'F' with values 10..15. No other byte is a digit. |
| `Kstrtoint.DigitRun` | char_driver.c:66 | The digit run is the longest prefix of digits valid in the radix: every byte in it is a digit, and the byte after it is not. |
| `Kstrtoint.DecimalDigitsParse` | char_driver.c:66 | The decimal digits of any n, optionally followed by one newline, convert to n. This includes "0", which base 0 reads as octal. |
| `Kstrtoint.DecimalSigned` | char_driver.c:66 | The decimal text of any int, optionally followed by one newline, converts to that int before the range check. |
| `Kstrtoint.DecimalRoundTrip` | char_driver.c:66 | Writing the decimal text of any 32-bit int, with or without the newline `echo` adds, parses back to that int. |
| `Kstrtoint.OutOfRangeRejected` | char_driver.c:66 | A well-formed decimal number outside the 32-bit range is rejected, so `proc_ite` keeps its value. |
| `Kstrtoint.HexParse` | char_driver.c:66 | "0x" followed by the hex digits of n, optionally followed by a newline, converts to n. |
| `Kstrtoint.OctalParse` | char_driver.c:66 | A leading "0" followed by the octal digits of n converts to n, so "010" is eight. |
| `Kstrtoint.PrefixedRoundTrip` | char_driver.c:66 | Writing any value up to `INT_MAX` in "0x" or leading-zero octal form parses back to that value. |
| `Kstrtoint.SignRules` | char_driver.c:66 | An unsigned text with value m converts to m when m <= `INT_MAX` and is rejected otherwise. A leading '+' changes nothing. A leading '-' gives -m when m <= 2^31, so `INT_MIN` is accepted, and is rejected otherwise. |
| `Kstrtoint.DoubleSignRejected` | char_driver.c:66 | Two sign bytes in a row are rejected, whatever follows. |
| `Kstrtoint.TrailingGarbageRejected` | char_driver.c:66 | A number followed by a byte that is neither a decimal digit, a newline nor NUL is rejected, whatever follows that byte. The one exception is "0x", which starts a hex number. |
| `Scenarios.WriteReadRoundTrip` | char_driver.c:96-111 | A write of `src` (at most 128 bytes) followed by a read of len(src) bytes on the same handle returns `src`. |
| `Scenarios.RepeatableRead` | char_driver.c:96-102 | Two reads with no write in between return the same bytes. |
| `Scenarios.WriteIsolation` | char_driver.c:104-110 | After a load, a write through a handle bound to one device leaves what a handle bound to any other device reads unchanged. |
| `Scenarios.ClientSession` | char_device.c:25-36 | The test client opens minor 0, writes its 42-byte message including the NUL, reads 42 bytes back and gets the message. |
| `Scenarios.TwoDevices` | char_driver.c:84-110 | With two devices, "AB" written to minor 0 and "CD" written to minor 1 read back unmixed. |
| `Scenarios.FreshRead` | char_driver.c:158-160 | Reading a device before any write gives "Default string\n" followed by NUL. As a C string this is the payload. |
| `Scenarios.FailedLoad` | char_driver.c:143-146 | When registration fails, init returns -1 and no device table exists. |
| `Scenarios.EchoParses` | char_driver.c:54-69 | What `echo v` writes to the proc file, the decimal text of a 32-bit v and a newline, converts to v. |
| `Scenarios.JunkRejected` | char_driver.c:54-69 | The text "7x\n" written to the proc file is rejected by the conversion. |
| `Scenarios.ProcSession` | char_driver.c:29-68 | A fresh module's proc read logs 5000 lines. Writing "3\n" returns 2 and sets the counter to 3. Writing the malformed "7x\n" returns 3 and leaves the counter at 3. |

## Left out

- CharDriver.Read: requires `size <= 128`. The source copies `size` bytes without checking, which reads past the buffer for larger sizes. The precondition makes this unchecked copy visible instead of reproducing it.
- CharDriver.Write: requires at most 128 bytes, for the same reason. A larger write in the source overruns the buffer.
- CharDriver.Driver.Init: buffer bytes 16..127 are left unspecified, because `kmalloc` does not clear them. The model promises nothing about them.
- CharDriver.Driver.Init: allocation failure of `kmalloc` is not modelled, because the source does not check it.
- CharDriver.Driver.Init: `num_dev` is a `nat`. A negative module parameter is not modelled: the kernel's registration call would receive it as a huge unsigned count.
- CharDriver.Driver.Init: `proc_mkdir` and `proc_create` are not modelled. They are foreign kernel calls, so the proc file is assumed to exist.
- CharDriver.Driver.ProcRead: the log is the sequence of logged `i` values. The "PROC READ FILE" header line and `printk` itself are not modelled.
- CharDriver.Driver.ProcWrite: the variable-length stack array `proc_buff[size+1]` is a heap array in the model. Its stack cost for large sizes is not modelled.
- Kstrtoint.ParseInt: the kernel's unsigned 64-bit overflow check is merged into the final 32-bit range check. Both lead to an error that leaves `proc_ite` unchanged, so the model's behaviour is the same.
- Module teardown (`char_module_exit`, char_driver.c:175-191) is not modelled. It frees each element of a single allocation, which is invalid for i > 0.
- `myproc_open` only logs and returns 0. All `printk` output is left out, including char_driver.c:109, which prints device 0's buffer whatever device was written.
- The kernel side of `open` is not modelled: mapping a device node to its cdev, and the `container_of` pointer arithmetic. The model passes the device number in and stores a reference to the device object.
- A `struct mydevice` sits inside the table allocation in the source. In the model it is a separate object referenced from the table.
- The return values of `copy_to_user` and `copy_from_user` are ignored by the source. The model treats both as complete copies.
- The `loff_t` offset argument is ignored by every operation, so it is not modelled.
- Concurrency is not modelled. The source takes no locks on the buffers or on `proc_ite`.
