/** The vendor libraries (ftd2xx and libft4222) as the tool sees them.
    Their code is opaque: every reply they give is drawn from a `Vendor`, a set of
    total functions of everything that already happened on the handle and of the
    request itself.  A `Handle` keeps that history as its log. */
module Ft4222 {

  /** `unsigned char` / `uint8` */
  type byte = x: int | 0 <= x < 0x100

  /** `unsigned short` / `uint16` */
  type u16 = x: int | 0 <= x < 0x1_0000

  /** FT4222_STATUS, as far as the tool tells the values apart. */
  datatype Status = Ok | InvalidParameter | FailedToWriteDevice | OtherError(code: nat)

  /** FT4222_I2CMaster_Write: its status and `bytesWritten`. */
  datatype WriteReply = WriteReply(status: Status, written: u16)

  /** FT4222_I2CMaster_Read: its status and the bytes the library delivers. */
  datatype ReadReply = ReadReply(status: Status, data: seq<byte>)

  /** FT4222_I2CMaster_GetStatus: its status and the address-NACK and data-NACK
      bits of the controller status byte. */
  datatype StatusReply = StatusReply(status: Status, addressNack: bool, dataNack: bool)

  /** One call into the library on an open handle, with the reply it gave. */
  datatype Event =
    | Wrote(slave: nat, data: seq<byte>, wreply: WriteReply)
    | ReadFrom(slave: nat, count: u16, rreply: ReadReply)
    | Queried(sreply: StatusReply)
    | Closed

  /** The replies of the library, one function per kind of call, each given the
      history of the handle so far. */
  datatype Vendor = Vendor(
    write: (seq<Event>, nat, seq<byte>) -> WriteReply,
    read: (seq<Event>, nat, u16) -> ReadReply,
    query: seq<Event> -> StatusReply)

  /** What a read leaves in the destination: the library never delivers more than
      it was asked for. */
  function Received(reply: ReadReply, count: u16): (got: seq<byte>)
    ensures |got| <= count && |got| <= |reply.data|
    ensures got == reply.data[..|got|]
    ensures |reply.data| <= count ==> got == reply.data
  {
    if |reply.data| <= count then reply.data else reply.data[..count]
  }

  /** An FT_HANDLE after FT_OpenEx: the calls the tool makes on it, with their log. */
  class Handle {
    const vendor: Vendor
    var log: seq<Event>

    constructor (vendor: Vendor)
      ensures this.vendor == vendor && log == []
    {
      this.vendor := vendor;
      log := [];
    }

    /** FT4222_I2CMaster_Write(handle, slave, data, |data|, &bytesWritten) */
    method Write(slave: nat, data: seq<byte>) returns (reply: WriteReply)
      modifies this
      ensures reply == vendor.write(old(log), slave, data)
      ensures log == old(log) + [Wrote(slave, data, reply)]
    {
      reply := vendor.write(log, slave, data);
      log := log + [Wrote(slave, data, reply)];
    }

    /** FT4222_I2CMaster_Read(handle, slave, dest, count, &bytesRead): the bytes
        delivered land at the front of `dest`, the rest of it is left alone. */
    method Read(slave: nat, dest: array<byte>, count: u16) returns (status: Status, bytesRead: u16)
      requires count <= dest.Length
      modifies this, dest
      ensures status == vendor.read(old(log), slave, count).status
      ensures bytesRead == |Received(vendor.read(old(log), slave, count), count)|
      ensures log == old(log) + [ReadFrom(slave, count, vendor.read(old(log), slave, count))]
      ensures dest[..] == Received(vendor.read(old(log), slave, count), count) + old(dest[..])[bytesRead..]
    {
      var reply := vendor.read(log, slave, count);
      var got := Received(reply, count);
      forall k | 0 <= k < |got| {
        dest[k] := got[k];
      }
      status, bytesRead := reply.status, |got|;
      log := log + [ReadFrom(slave, count, reply)];
    }

    /** FT4222_I2CMaster_GetStatus(handle, &controllerStatus) */
    method GetStatus() returns (reply: StatusReply)
      modifies this
      ensures reply == vendor.query(old(log))
      ensures log == old(log) + [Queried(reply)]
    {
      reply := vendor.query(log);
      log := log + [Queried(reply)];
    }

    /** CloseHandle: FT4222_UnInitialize then FT_Close, whose statuses are ignored. */
    method Close()
      modifies this
      ensures log == old(log) + [Closed]
    {
      log := log + [Closed];
    }
  }
}
