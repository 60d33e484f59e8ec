/** main: the checks on the command line, the device bring-up, the dispatch to
    scan, read or write, and the exit code.  The numeric arguments are taken as
    atoi/strtoul already produced them, and the file as stat and fread see it. */
module Cli {
  import opened Ft4222
  import opened WordAddress
  import opened Layout
  import opened Scan
  import opened BlockIo
  import opened Devices

  datatype Operation = ScanOp | ReadOp | WriteOp

  /** strcmp against the three operation names. */
  function OperationOf(word: string): (r: Option<Operation>)
    ensures r == Some(ScanOp) <==> word == "scan"
    ensures r == Some(ReadOp) <==> word == "read"
    ensures r == Some(WriteOp) <==> word == "write"
  {
    if word == "scan" then Some(ScanOp)
    else if word == "read" then Some(ReadOp)
    else if word == "write" then Some(WriteOp)
    else None
  }

  /** The file named by the last argument of a write: whether stat succeeded and the
      size it reported, whether fopen succeeded, and what the file holds. */
  datatype FileInfo = FileInfo(statOk: bool, size: nat, openOk: bool, contents: seq<byte>)

  /** The command line: argc, atoi(argv[1]), argv[2], strtoul(argv[3], 16),
      atoi(argv[4]), atoi(argv[5]), atoi(argv[6]) and the file of argv[7].  Fields
      beyond argc are never consulted. */
  datatype Args = Args(
    argc: nat, speed: int, operation: string,
    i2cAddress: nat, addressLength: int, address: int, length: int,
    file: FileInfo)

  /** Why main returned 1. */
  datatype ArgError =
    | Usage | InvalidSpeed | InvalidOperation | InvalidI2cAddress | InvalidAddressLength
    | InvalidAddress | InvalidLength | StatFailed | FileTooLarge | OpenFailed

  /** What main goes on to do once the arguments pass.  For a write, `pageSize` is the
      length argument and `length` is the size of the file. */
  datatype Command =
    | ScanCommand
    | ReadCommand(slave: byte, addressLength: nat, address: nat, length: nat)
    | WriteCommand(slave: byte, addressLength: nat, address: nat, pageSize: nat, length: nat)

  datatype Validation = Reject(error: ArgError) | Accept(speed: nat, command: Command)

  /** The largest length argument an operation takes. */
  function MaxLength(op: Operation, addressLength: int): int
  {
    if op == ReadOp then ReadBufferLength else WriteBufferLength - 1 - addressLength
  }

  /** The operands a command needs from the arguments: a 7-bit slave, a 1- or 2-byte
      word address and a length that fits the buffers. */
  predicate WellFormed(cmd: Command)
  {
    match cmd
    case ScanCommand => true
    case ReadCommand(slave, addressLength, address, length) =>
      slave <= 0x7F && (addressLength == 1 || addressLength == 2) && 1 <= length <= ReadBufferLength
    case WriteCommand(slave, addressLength, address, pageSize, length) =>
      && slave <= 0x7F && (addressLength == 1 || addressLength == 2)
      && 1 <= pageSize && pageSize + addressLength < WriteBufferLength
      && length < ReadBufferLength
  }

  /** The arguments main accepts, stated all at once. */
  predicate Admissible(a: Args)
  {
    && a.argc >= 3
    && 60 <= a.speed <= 3400
    && OperationOf(a.operation).Some?
    && var op := OperationOf(a.operation).value;
       && (op == ReadOp ==> a.argc == 7)
       && (op == WriteOp ==> a.argc == 8 && a.file.statOk && a.file.size < ReadBufferLength && a.file.openOk)
       && (op != ScanOp ==>
             && a.i2cAddress <= 0x7F
             && (a.addressLength == 1 || a.addressLength == 2)
             && 0 <= a.address <= Radix(a.addressLength)
             && 1 <= a.length <= MaxLength(op, a.addressLength))
  }

  /** main's chain of checks, each of which returns 1 before any device is touched. */
  function Validate(a: Args): (r: Validation)
    ensures r.Accept? <==> Admissible(a)
    ensures r.Accept? ==> 60 <= r.speed <= 3400 && WellFormed(r.command)
    ensures r.Accept? ==> (r.command.ScanCommand? <==> a.operation == "scan")
    ensures r.Accept? && !r.command.ScanCommand? ==>
      && r.command.slave == a.i2cAddress
      && r.command.addressLength == a.addressLength
      && r.command.address == a.address
    ensures r.Accept? && r.command.ReadCommand? ==> a.operation == "read" && r.command.length == a.length
    ensures r.Accept? && r.command.WriteCommand? ==>
      a.operation == "write" && r.command.pageSize == a.length && r.command.length == a.file.size
  {
    if a.argc < 3 then Reject(Usage)
    else if a.speed < 60 || a.speed > 3400 then Reject(InvalidSpeed)
    else
      match OperationOf(a.operation)
      case None => Reject(InvalidOperation)
      case Some(op) =>
        if (op == ReadOp && a.argc != 7) || (op == WriteOp && a.argc != 8) then Reject(Usage)
        else if op == ScanOp then Accept(a.speed, ScanCommand)
        else if a.i2cAddress > 0x7F then Reject(InvalidI2cAddress)
        else if a.addressLength < 1 || a.addressLength > 2 then Reject(InvalidAddressLength)
        else if a.address < 0 || a.address > Radix(a.addressLength) then Reject(InvalidAddress)
        else if a.length < 1 || a.length > MaxLength(op, a.addressLength) then Reject(InvalidLength)
        else if op == ReadOp then Accept(a.speed, ReadCommand(a.i2cAddress, a.addressLength, a.address, a.length))
        else if !a.file.statOk then Reject(StatFailed)
        else if a.file.size >= ReadBufferLength then Reject(FileTooLarge)
        else if !a.file.openOk then Reject(OpenFailed)
        else Accept(a.speed, WriteCommand(a.i2cAddress, a.addressLength, a.address, a.length, a.file.size))
  }

  /** The address bound is inclusive: one past the last word address a prefix can
      name is accepted, and its prefix is that of word address 0. */
  lemma TopAddressWraps(a: Args)
    requires Validate(a).Accept? && !Validate(a).command.ScanCommand?
    requires a.address == Radix(a.addressLength)
    ensures Prefix(a.address, a.addressLength) == Prefix(0, a.addressLength)
    ensures Prefix(a.address % 0x1_0000, a.addressLength) == Prefix(0, a.addressLength)
  {
    PrefixInjective(a.address, 0, a.addressLength);
    PrefixOfShort(a.address, a.addressLength);
  }

  /** What fread leaves in the read buffer: up to `size` bytes of the file, the rest
      of the buffer as it was.  A shorter file goes unnoticed. */
  function Loaded(file: FileInfo): (data: seq<byte>)
    ensures |data| <= file.size && |data| <= |file.contents| && data == file.contents[..|data|]
    ensures |file.contents| >= file.size ==> |data| == file.size
  {
    file.contents[..Min(file.size, |file.contents|)]
  }

  /** The read buffer once main has validated `a`: a write loads its file, anything
      else leaves the buffer alone. */
  function LoadedBuffer(a: Args, buffer: seq<byte>): (r: seq<byte>)
    requires |buffer| == ReadBufferLength
    ensures |r| == ReadBufferLength
    ensures !(Validate(a).Accept? && Validate(a).command.WriteCommand?) ==> r == buffer
  {
    var v := Validate(a);
    if v.Accept? && v.command.WriteCommand? then
      var data := Loaded(a.file);
      data + buffer[|data|..]
    else buffer
  }

  /** main's return value. */
  function ExitCode(a: Args, en: Enumeration, init: InitReplies): (code: int)
    ensures code == 1 <==> Validate(a).Reject?
    ensures code == 0 <==> Validate(a).Accept? && OpenCode(en) == 0 && InitCode(init) == 0
    ensures Validate(a).Accept? && OpenCode(en) != 0 ==> code == OpenCode(en)
    ensures Validate(a).Accept? && OpenCode(en) == 0 ==> code == InitCode(init)
    ensures code == 0 || code == 1 || code == -10 || code == -20 || code == -30 || code == -40 || code == -50
  {
    if Validate(a).Reject? then 1
    else if OpenCode(en) != 0 then OpenCode(en)
    else InitCode(init)
  }

  /** What the dispatched operation shows. */
  datatype Performed = Scanned(grid: seq<Row<Cell>>) | ReadDone(outcome: ReadOutcome) | WriteDone(done: bool)

  /** The outcome of an operation and the library calls it makes. */
  datatype Performance = Performance(performed: Performed, events: seq<Event>)

  /** The operation a command runs, against `v` on a handle with history `h`, with
      `src` in the read buffer. */
  function Operate(cmd: Command, v: Vendor, h: seq<Event>, src: seq<byte>): Performance
    requires WellFormed(cmd) && |src| == ReadBufferLength
  {
    match cmd
    case ScanCommand =>
      var probes := ProbeFrom(v, h, 1);
      Performance(Scanned(ScanGrid(probes.present)), probes.events)
    case ReadCommand(slave, addressLength, address, length) =>
      var r := BlockRead(v, h, slave, addressLength, address, length);
      Performance(ReadDone(r.outcome), r.events)
    case WriteCommand(slave, addressLength, address, pageSize, length) =>
      var run := WriteSession(v, h, slave, Frames(src, addressLength, pageSize, address, 0, length));
      Performance(WriteDone(run.done), run.events)
  }

  /** The switch on the operation. */
  method Perform(bus: Handle, buffers: Buffers, cmd: Command) returns (performed: Performed)
    requires buffers.Valid() && WellFormed(cmd)
    modifies bus, buffers.readBuffer, buffers.writeBuffer
    ensures var r := Operate(cmd, bus.vendor, old(bus.log), old(buffers.readBuffer[..]));
      performed == r.performed && bus.log == old(bus.log) + r.events
    ensures !cmd.ReadCommand? ==> buffers.readBuffer[..] == old(buffers.readBuffer[..])
    ensures cmd.ReadCommand? ==>
      var r := BlockRead(bus.vendor, old(bus.log), cmd.slave, cmd.addressLength, cmd.address, cmd.length);
      buffers.readBuffer[..] == r.delivered + old(buffers.readBuffer[..])[|r.delivered|..]
    ensures !cmd.WriteCommand? ==> buffers.writeBuffer[..] == old(buffers.writeBuffer[..])
    ensures cmd.WriteCommand? ==>
      var frames := Frames(old(buffers.readBuffer[..]), cmd.addressLength, cmd.pageSize, cmd.address, 0, cmd.length);
      var run := WriteSession(bus.vendor, old(bus.log), cmd.slave, frames);
      buffers.writeBuffer[..] == StagedAll(old(buffers.writeBuffer[..]), frames[..|run.events|])
  {
    match cmd
    case ScanCommand =>
      var grid := I2cScan(bus);
      performed := Scanned(grid);
    case ReadCommand(slave, addressLength, address, length) =>
      var outcome := buffers.I2cRead(bus, slave, addressLength, address, length);
      performed := ReadDone(outcome);
    case WriteCommand(slave, addressLength, address, pageSize, length) =>
      var done := buffers.I2cWrite(bus, slave, addressLength, address, pageSize, length);
      performed := WriteDone(done);
  }

  /** main(argc, argv), with the enumeration, the bring-up and the library given.
      The handle main opened is passed back so that its log can be read. */
  method Run(a: Args, en: Enumeration, init: InitReplies, v: Vendor, buffers: Buffers)
    returns (code: int, bus: Handle?, performed: Option<Performed>)
    requires buffers.Valid()
    modifies buffers.readBuffer, buffers.writeBuffer
    ensures code == ExitCode(a, en, init)
    ensures Validate(a).Reject? ==> bus == null && unchanged(buffers.readBuffer, buffers.writeBuffer)
    ensures Validate(a).Accept? && OpenCode(en) != 0 ==> bus == null
    ensures code != 0 ==>
      && performed == None
      && buffers.readBuffer[..] == LoadedBuffer(a, old(buffers.readBuffer[..]))
      && buffers.writeBuffer[..] == old(buffers.writeBuffer[..])
    ensures Validate(a).Accept? && OpenCode(en) == 0 && InitCode(init) != 0 ==>
      && (bus == null <==> !init.openEx)
      && (bus != null ==> fresh(bus) && bus.log == [Closed])
    ensures code == 0 ==>
      var r := Operate(Validate(a).command, v, [], LoadedBuffer(a, old(buffers.readBuffer[..])));
      && bus != null && fresh(bus) && bus.vendor == v
      && performed == Some(r.performed)
      && bus.log == r.events + [Closed]
  {
    var validation := Validate(a);
    if validation.Reject? {
      // usage() or the message of the failed check
      return 1, null, None;
    }
    var cmd := validation.command;
    if cmd.WriteCommand? {
      buffers.Load(Loaded(a.file));
    }
    assert buffers.readBuffer[..] == LoadedBuffer(a, old(buffers.readBuffer[..]));

    var rc, locId := OpenDevice(en);
    if rc != 0 {
      return rc, null, None;
    }
    rc, bus := I2CInit(v, init);
    if rc != 0 {
      return rc, bus, None;
    }
    ghost var src := buffers.readBuffer[..];
    assert src == LoadedBuffer(a, old(buffers.readBuffer[..]));
    ghost var r := Operate(cmd, v, [], src);
    var p := Perform(bus, buffers, cmd);
    assert p == r.performed && bus.log == r.events;
    bus.Close();
    return 0, bus, Some(p);
  }
}
