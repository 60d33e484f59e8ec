# FT4222Eeprom in Dafny

FT4222Eeprom is a command-line tool that talks to an I2C EEPROM through an FTDI
FT4222 USB-to-I2C bridge (`main.c`). It has three operations:

- `scan` probes every 7-bit slave address and prints an 8 × 16 presence grid.
- `read` sets the EEPROM's word address and reads a block, printing it as a hex dump.
- `write` sends a file to the EEPROM page by page, each page prefixed with its
  word address.

This project models that program and proves what it does.

## Modules

- **`Ft4222`** is the vendor library as the program sees it.
  - A `Vendor` value holds three total functions. Each gives the reply of
    `FT4222_I2CMaster_Write`, `FT4222_I2CMaster_Read` or
    `FT4222_I2CMaster_GetStatus`, given the handle's history and the request.
  - The `Handle` class records every call in its `log`.
  - Every other operation is stated as "the log grows by exactly these events".
- **`WordAddress`** covers `setWordAddress`.
  - It builds the 1- or 2-byte big-endian word-address prefix.
  - It folds the write reply and the status query into one status: `AddressSet`.
  - The imperative `SetWordAddress` is proved against `AddressSet`.
- **`Layout`** and **`HexDump`** cover the 16-per-row layout shared by the hex dump
  and the scan grid, and `print_hex_buffer`. The dump is returned as a value (header
  and tagged rows) instead of being printed.
- **`Scan`** covers `i2c_check` and `i2c_scan`.
  - It has the probe order and the grid layout.
  - A fake bus shows that the grid reports exactly the present devices.
- **`BlockIo`** covers `i2c_read`, `set_address` and `i2c_write`.
  - The static buffers are a `Buffers` class over two arrays.
  - Paging is described by the pure `Frames` and `WriteSession` functions.
  - The `while` loop of `i2c_write` is proved against them.
- **`Devices`** covers `OpenDevice`, with its device-selection loop and return codes,
  and `I2CInit`, with its bring-up chain and return codes.
- **`Cli`** covers `main`: argument validation, the file check, the dispatch on
  the operation and the exit code.
- **`RoundTrip`** puts the pieces together against an idealised EEPROM.
  - Memory is a function of the handle history.
  - A write of the file followed by a read of the same range returns the file's
    bytes.

Three behaviours of `main.c` are easy to misread:

- The hex dump labels row *i* with `i/16`, not with the byte offset (`main.c:25-27`).
- A write file of size 0 is accepted and produces no transaction (`main.c:425-429`).
- The word-address bound is inclusive (`address <= 256` / `65536`, `main.c:405-410`).
  So one past the last address is accepted, and its prefix names address 0
  (`Cli.TopAddressWraps`).

## Model

| member | source | states |
|---|---|---|
| Ft4222.Received | main.c:128-132 | the bytes a read leaves in the buffer: at most `count`, never more than the library returned, a prefix of its reply, and all of the reply when it fits |
| Ft4222.Handle.constructor | main.c:307-309 | a freshly opened handle has made no calls yet |
| Ft4222.Handle.Write | main.c:50-54 | `FT4222_I2CMaster_Write` returns the library's reply for this history and logs exactly one write event |
| Ft4222.Handle.Read | main.c:128-132 | `FT4222_I2CMaster_Read` fills the front of the buffer with the received bytes, leaves the rest of the buffer, reports the status and count, and logs one read event |
| Ft4222.Handle.GetStatus | main.c:70-71 | `FT4222_I2CMaster_GetStatus` returns the controller status and logs one query |
| Ft4222.Handle.Close | main.c:295-299 | `FT4222_UnInitialize`/`FT_Close` append one close event and nothing else |
| WordAddress.Prefix | main.c:42-47 | the word-address prefix has exactly `address_length` bytes |
| WordAddress.PrefixDenotesAddress | main.c:42-47 | read big-endian, the prefix is the word address modulo 256 or 65536 |
| WordAddress.PrefixOfBigEndian | main.c:42-47 | every byte string of that length is the prefix of exactly the number it denotes |
| WordAddress.PrefixInjective | main.c:42-47 | two addresses get the same prefix if and only if they agree modulo the radix |
| WordAddress.PrefixOfShort | main.c:121-124 | narrowing the address to `uint16` before prefixing does not change the prefix |
| WordAddress.AddressSetOutcome | main.c:55-82 | a failed write or a failed status query is reported as is; otherwise the result is OK exactly when neither the address phase nor the data phase was NACKed, and `FT4222_FAILED_TO_WRITE_DEVICE` when one was |
| WordAddress.ShortWriteDoesNotChangeStatus | main.c:62-67 | a short write of the prefix is only printed: the status comes from the later query |
| WordAddress.AddressSet | main.c:34-83 | setting a word address makes at most two library calls |
| WordAddress.AddressSetCalls | main.c:42-82 | a bad address length makes no call and gives `FT4222_INVALID_PARAMETER`; otherwise the prefix is written first and the status is queried exactly when the write succeeded; success holds if and only if both calls succeeded with no NACK |
| WordAddress.SetWordAddress | main.c:34-83 | the imperative setWordAddress returns `AddressSet`'s status and makes exactly its calls |
| Layout.Grid | main.c:23-29 | the 16-per-row layout: ceil(n/16) rows, row k tagged k·step and holding items 16k to 16k+15 of the input; its other properties are `GridSnoc`, `GridItems` and `GridRowsFull` |
| Layout.ExtendNewRow | main.c:26-28 | an item appended after a row break starts the new row |
| Layout.GridSnoc | main.c:23-29 | appending an item opens a new row exactly when the current length is a multiple of 16, and otherwise extends the last row |
| Layout.GridItems | main.c:23-29 | the rows, read in order, hold exactly the items laid out |
| Layout.GridRowsFull | main.c:23-29 | every row but the last holds 16 items and the last holds 1 to 16 |
| HexDump.HexDumpOf | main.c:17-31 | the dump print_hex_buffer shows: the column header and the byte grid tagged by row number; its meaning is stated by `HexDumpLayout` |
| HexDump.HexDumpLayout | main.c:17-31 | the dump has a 00 to 0f header, ceil(n/16) rows with row k tagged k, byte 16k+j at column j of row k, full rows except the last, and exactly the input bytes |
| HexDump.SeventeenBytes | main.c:23-29 | seventeen bytes print as one full row and a second row tagged 01 holding the last byte |
| HexDump.PrintHexBuffer | main.c:17-31 | the loop over the buffer produces `HexDumpOf` the first `length` bytes |
| Scan.ProbeFrom | main.c:96-105 | the scan probes one presence bit per remaining address up to 0x7F |
| Scan.Cells | main.c:93-104 | the grid cells: a blank at address 0, then each address shown as present (its number) or absent |
| Scan.ScanGrid | main.c:93-104 | the grid i2c_scan prints: the scan cells laid out 16 per row, rows tagged by their first address; its layout is stated by `ScanGridLayout` |
| Scan.ProbeOrder | main.c:96-100 | the scan sends exactly one request per address, in increasing order, each a one-byte word address 0 |
| Scan.ProbeRequest | main.c:85-88 | one probe sends word address 0 with address length 1 to the probed slave, and nothing else |
| Scan.FakeProbe | main.c:85-89 | on a bus that acknowledges exactly a given set of slaves, a probe succeeds if and only if the slave is in the set |
| Scan.ScanFindsDevices | main.c:85-105 | on such a bus the scan reports address a present if and only if a is in the set |
| Scan.ScanGridLayout | main.c:93-104 | the scan grid has 8 rows tagged 00, 10, …, 70 of 16 cells each, a blank first cell, and address a at row a/16, column a%16 |
| Scan.GridStep | main.c:98-104 | one loop step of the scan appends its cell, opening a new row tagged i when i is a multiple of 16 |
| Scan.I2cCheck | main.c:85-89 | i2c_check answers whether setting word address 0 on that slave succeeded, and makes exactly those calls |
| Scan.I2cScan | main.c:91-107 | the imperative scan makes exactly the probes of `ProbeFrom` from address 1 and builds the grid of its answers |
| BlockIo.PageCount | main.c:164-194 | the number of page writes: one page of at most `page_size` bytes after another until nothing remains; its value is stated by `PageBounds` and `PageCountIsCeiling` |
| BlockIo.Pages | main.c:164-194 | the pages of i2c_write's loop: `l = min(length, page_size)` bytes each, address and offset moving on by `l`; the frames built from them are stated by `FramesStep` and `FrameAt` |
| BlockIo.Frames | main.c:166-172 | the frame each page puts on the wire, the prefix followed by the page's bytes; stated by `FramesStep`, `FrameCount`, `FrameAt`, `FrameSizes` and `FramesCoverSource` |
| BlockIo.PageBounds | main.c:164-194 | the number of pages n satisfies (n-1)·page < length ≤ n·page |
| BlockIo.PageCountIsCeiling | main.c:164-194 | the number of pages is the ceiling of length over page size |
| BlockIo.FramesStep | main.c:166-172 | the first frame is the prefix for the current address followed by min(remaining, page) source bytes, and the rest are the frames from there on |
| BlockIo.FrameCount | main.c:164-196 | there are as many frames as pages |
| BlockIo.FrameAt | main.c:164-196 | frame k exists if and only if k·page < length, and it is the prefix of address+k·page followed by that page's bytes |
| BlockIo.FrameSizes | main.c:166-172 | every frame carries 1 to `page_size` data bytes after the prefix, and all but the last carry a full page |
| BlockIo.FramesCoverSource | main.c:163-194 | the data parts of the frames, concatenated, are exactly the file's bytes |
| BlockIo.Accepted | main.c:178-190 | a page write is taken exactly when its status is OK and bytesWritten equals `l_with_address`; both other cases end the loop (`SessionStopsAtFirstFailure`) |
| BlockIo.WriteSession | main.c:164-197 | a write session makes at most one library call per frame |
| BlockIo.SessionSendsInOrder | main.c:171-177 | call j of the session writes frame j to the slave, and the library sees the history of the j calls before it |
| BlockIo.SessionStopsAtFirstFailure | main.c:178-190 | every call before the last was taken whole; the write completes if and only if every frame was sent and taken whole; an incomplete write ends on the first failed or short write |
| BlockIo.SessionCompletes | main.c:164-197 | on a library that takes every frame whole, all frames go out and the write reports Done |
| BlockIo.EmptyWrite | main.c:164-197 | an empty file makes no call and reports Done |
| BlockIo.Stage | main.c:168-169 | staging a frame overwrites the front of the staging buffer with it and leaves the rest |
| BlockIo.BlockRead | main.c:115-148 | i2c_read's calls and outcome: set the address, read `(uint16)length` bytes, then report a failure, a short read or the dump; its properties are `ReadGating`, `FullBufferReadNeverPrints` and `RoundTrip.ReadBack`, and `Buffers.I2cRead` is proved against it |
| BlockIo.ReadGating | main.c:115-148 | the read is issued only after the word address was set, with a count of length mod 65536; the dump is printed exactly when the read succeeded and returned all `length` bytes, and it shows those bytes |
| BlockIo.FullBufferReadNeverPrints | main.c:128-132 | a 65536-byte read asks the library for 0 bytes and never prints a dump |
| BlockIo.Buffers.constructor | main.c:14-15 | the static buffers start zeroed, sized 65536 and 512 |
| BlockIo.Buffers.Load | main.c:436 | fread puts the file at the front of the read buffer and leaves the rest |
| BlockIo.Buffers.SetAddress | main.c:150-158 | set_address puts the prefix at the front of the write buffer for lengths 1 and 2, and does nothing otherwise |
| BlockIo.Buffers.I2cRead | main.c:115-148 | i2c_read makes exactly the calls of `BlockRead`, reports its outcome, and leaves the delivered bytes at the front of the read buffer |
| BlockIo.Buffers.BuildFrame | main.c:168-169 | the write buffer holds the prefix followed by the page's source bytes, the rest unchanged |
| BlockIo.Buffers.WritePage | main.c:166-190 | one page is staged and written, and the page is reported as taken exactly when the library accepted it whole |
| BlockIo.Buffers.I2cWrite | main.c:160-198 | the loop makes exactly the calls of `WriteSession` over the frames of the buffer, reports its completion, and leaves the last staged frame in the write buffer |
| Devices.Usable | main.c:244-287 | the devices OpenDevice accepts: mode-0 interface A (last description character 'A') or mode 3; mode-1/2 interfaces and mode-0 interface B are skipped |
| Devices.FirstUsable | main.c:239-288 | the device chosen is the first usable one (mode-0 interface A or mode 3; mode-1/2 interfaces and mode-0 interface B are skipped), and there is none if and only if no device is usable |
| Devices.OpenCode | main.c:206-292 | the return codes -10, -20, -30, -40 and -50, each exactly in its failure case, and 0 exactly when a usable device exists |
| Devices.OpenDevice | main.c:200-293 | the loop returns `OpenCode` and, on success, the chosen device's location id |
| Devices.InitCode | main.c:301-352 | I2CInit returns 0 if and only if all four bring-up calls succeed |
| Devices.InitCodeChain | main.c:307-351 | it returns the code of the first failing call: -10 open, -20 version, -30 master init, -40 reset |
| Devices.I2CInit | main.c:301-352 | the handle exists exactly when FT_OpenEx succeeded, and it is closed again on any later failure |
| Cli.OperationOf | main.c:368-379 | exactly the words scan, read and write name the three operations |
| Cli.MaxLength | main.c:411-416 | the largest length argument: 65536 for read, `512 - 1 - address_length` for write |
| Cli.Admissible | main.c:356-440 | every check of main, stated all at once, independently of the order `Validate` follows |
| Cli.Validate | main.c:356-440 | the arguments are accepted if and only if every check of main passes, and the command carries the parsed values (for write: the file size as length, the length argument as page size) |
| Cli.TopAddressWraps | main.c:405-410 | the inclusive bound admits address 256 or 65536, whose prefix is that of address 0 |
| Cli.Loaded | main.c:436 | fread delivers at most st_size bytes, a prefix of the file, and all st_size of them when the file is that long |
| Cli.LoadedBuffer | main.c:417-440 | only an accepted write loads the read buffer |
| Cli.ExitCode | main.c:354-469 | main returns 1 exactly on rejected arguments, 0 exactly when the arguments, the open and the bring-up all succeed, OpenDevice's code when the open fails, and I2CInit's code when the open succeeds |
| Cli.Operate | main.c:453-464 | the switch on the operation: the scan's probes and grid, the block read, or the paged write of the read buffer; `Perform` and `Run` are proved against it |
| Cli.Perform | main.c:453-464 | the switch runs the chosen operation's calls and touches only that operation's buffer |
| Cli.Run | main.c:354-469 | main returns `ExitCode`; on success it runs one operation on a fresh handle and then closes it; on failure it runs nothing |
| RoundTrip.AddressSetOnEeprom | main.c:34-83 | on the EEPROM, setting a valid word address succeeds, moves the address counter there and changes no cell |
| RoundTrip.WriteOnce | main.c:168-177 | one page frame stores its data bytes from its word address on and leaves every other cell |
| RoundTrip.SessionFills | main.c:160-198 | the paged write completes, stores the file's bytes from the word address on, and leaves every other cell as it was |
| RoundTrip.ReadBack | main.c:115-148 | a block read delivers the memory's bytes from the word address on and prints them |
| RoundTrip.FetchFilled | main.c:140-147 | after a write that filled a range, reading it gives the written bytes |
| RoundTrip.WriteThenRead | main.c:160-198 | writing a file and reading back the same range returns the file's bytes, and the dump shows exactly them |

## Left out

- The FT4222 library is not part of this model. Its replies are the functions of a
  `Vendor` value, with whatever history-dependent behaviour it chooses. The
  round trip holds only for the idealised EEPROM of `RoundTrip.Eeprom`.
- `usleep` between page writes is left out. The model has no clock and the
  EEPROM has no write-cycle time.
- The wording of every `printf`/`puts` message, and the usage text, are left out.
  The outcomes they report are modelled as datatype values (`ReadOutcome`, `Validation`).
- `atoi` and `strtoul` are left out: `Args` holds the already-parsed integers.
- `stat`, `fopen` and `fread` are given as a `FileInfo` value.
  - A short `fread` goes unnoticed by `main`, as in the code.
  - `fclose` has no observable effect here.
- `calloc`/`free` of the device list are not modelled as memory operations. Whether
  `calloc` succeeded is given as the `Enumeration.stored` flag, and its failure is
  the -30 case of `OpenCode`.
- `FT_CreateDeviceInfoList`/`FT_GetDeviceInfoList` are given as an `Enumeration` value.
- The bus speed (`kbps`) and the location id are not passed to the vendor model:
  `I2CInit` takes the four bring-up replies as given.
- The device description is a string.
  - The C test reads the character before the terminator.
  - An empty mode-0 description is taken as not interface A, where the C code
    would read before the array.
- `RoundTrip`: the EEPROM memory lives only in one handle's history. The model does
  not cover persistence across separate runs of the program, or a page write that
  wraps inside an EEPROM page.
- BlockIo.Buffers.I2cWrite: requires `page_size + address_length <= 512` and
  `length <= 65536`. `main` guarantees both (`main.c:411-440`); a direct caller
  of `i2c_write` could overflow the staging buffer.
- RoundTrip.WriteThenRead: requires a non-empty range that ends at or below the
  top of the word-address space (`address + length <= 256` or `65536`). A write
  past the top wraps to address 0 on the wire, and that case is not stated. An
  empty file is covered by `BlockIo.EmptyWrite` instead.
- Concurrency, signals and the process environment are not modelled.
