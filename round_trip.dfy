/** An idealised EEPROM on the bus, and what a paged write followed by a block
    read of the same range gives back on it.  The memory is a function of the
    handle's history: each write to the device that carries a whole word-address
    prefix moves its address counter to the word address the prefix denotes and
    stores the bytes after the prefix from there on; a read delivers the bytes from
    the counter on.  There is no write-cycle delay and no wrap-around inside a page. */
module RoundTrip {
  import opened Ft4222
  import opened WordAddress
  import opened Layout
  import opened HexDump
  import opened BlockIo

  /** A write to `slave` that carries a whole word-address prefix. */
  predicate Positions(e: Event, slave: nat, addressLength: nat)
  {
    e.Wrote? && e.slave == slave && |e.data| >= addressLength
  }

  /** The word address such a write starts at. */
  function StartOf(e: Event, addressLength: nat): nat
    requires e.Wrote? && |e.data| >= addressLength
  {
    BigEndian(e.data[..addressLength])
  }

  /** The byte at word address `a` after history `h`: the last write that covered
      `a` put it there; a cell never written holds 0. */
  function Cell(h: seq<Event>, slave: nat, addressLength: nat, a: nat): byte
  {
    if h == [] then 0
    else
      var e := h[|h| - 1];
      if Positions(e, slave, addressLength) && StartOf(e, addressLength) <= a < StartOf(e, addressLength) + (|e.data| - addressLength)
      then e.data[addressLength + (a - StartOf(e, addressLength))]
      else Cell(h[..|h| - 1], slave, addressLength, a)
  }

  /** The address counter after `h`: just past the last byte written, moved on by
      the bytes read since. */
  function Counter(h: seq<Event>, slave: nat, addressLength: nat): nat
  {
    if h == [] then 0
    else
      var e := h[|h| - 1];
      if Positions(e, slave, addressLength) then StartOf(e, addressLength) + (|e.data| - addressLength)
      else if e.ReadFrom? && e.slave == slave then Counter(h[..|h| - 1], slave, addressLength) + |e.rreply.data|
      else Counter(h[..|h| - 1], slave, addressLength)
  }

  /** The `count` bytes of the memory from word address `start` on. */
  function Fetch(h: seq<Event>, slave: nat, addressLength: nat, start: nat, count: nat): (r: seq<byte>)
    ensures |r| == count
    ensures forall i :: 0 <= i < count ==> r[i] == Cell(h, slave, addressLength, start + i)
  {
    if count == 0 then [] else Fetch(h, slave, addressLength, start, count - 1) + [Cell(h, slave, addressLength, start + count - 1)]
  }

  /** A bus with one such memory at `slave`: every write goes out whole, a read of
      `slave` delivers the bytes from the counter on, and the status query flags an
      address NACK when the last write went to another slave. */
  function Eeprom(slave: nat, addressLength: nat): Vendor
  {
    Vendor(
      (h: seq<Event>, s: nat, data: seq<byte>) => WriteReply(Ok, if |data| < 0x1_0000 then |data| else 0),
      (h: seq<Event>, s: nat, count: u16) =>
        if s == slave then ReadReply(Ok, Fetch(h, slave, addressLength, Counter(h, slave, addressLength), count))
        else ReadReply(Ok, []),
      (h: seq<Event>) => StatusReply(Ok, h != [] && h[|h| - 1].Wrote? && h[|h| - 1].slave != slave, false))
  }

  lemma CellSnoc(h: seq<Event>, e: Event, slave: nat, addressLength: nat, a: nat)
    ensures Cell(h + [e], slave, addressLength, a) ==
      if Positions(e, slave, addressLength) && StartOf(e, addressLength) <= a < StartOf(e, addressLength) + (|e.data| - addressLength)
      then e.data[addressLength + (a - StartOf(e, addressLength))]
      else Cell(h, slave, addressLength, a)
  {
    assert (h + [e])[..|h|] == h;
  }

  lemma CounterSnoc(h: seq<Event>, e: Event, slave: nat, addressLength: nat)
    ensures Counter(h + [e], slave, addressLength) ==
      if Positions(e, slave, addressLength) then StartOf(e, addressLength) + (|e.data| - addressLength)
      else if e.ReadFrom? && e.slave == slave then Counter(h, slave, addressLength) + |e.rreply.data|
      else Counter(h, slave, addressLength)
  {
    assert (h + [e])[..|h|] == h;
  }

  lemma RadixBound(addressLength: nat)
    requires addressLength == 1 || addressLength == 2
    ensures Radix(addressLength) <= 0x1_0000
  {
  }

  /** A frame for a word address the prefix can name starts at that address. */
  lemma FrameStart(e: Event, slave: nat, addressLength: nat, address: nat, chunk: seq<byte>)
    requires addressLength == 1 || addressLength == 2
    requires address < Radix(addressLength)
    requires e.Wrote? && e.slave == slave && e.data == Prefix(address, addressLength) + chunk
    ensures Positions(e, slave, addressLength) && StartOf(e, addressLength) == address
    ensures |e.data| - addressLength == |chunk|
    ensures forall k :: 0 <= k < |chunk| ==> e.data[addressLength + k] == chunk[k]
  {
    assert e.data[..addressLength] == Prefix(address, addressLength);
    PrefixDenotesAddress(address, addressLength);
  }

  /** One write of a frame for `address` stores its chunk from `address` on and
      leaves every other cell alone. */
  lemma WriteOnce(h: seq<Event>, e: Event, slave: nat, addressLength: nat, address: nat, chunk: seq<byte>)
    requires addressLength == 1 || addressLength == 2
    requires address < Radix(addressLength)
    requires e.Wrote? && e.slave == slave && e.data == Prefix(address, addressLength) + chunk
    ensures forall a: nat ::
      Cell(h + [e], slave, addressLength, a) == (if address <= a < address + |chunk| then chunk[a - address] else Cell(h, slave, addressLength, a))
  {
    FrameStart(e, slave, addressLength, address, chunk);
    forall a: nat
      ensures Cell(h + [e], slave, addressLength, a) ==
        if address <= a < address + |chunk| then chunk[a - address] else Cell(h, slave, addressLength, a)
    {
      CellSnoc(h, e, slave, addressLength, a);
    }
  }

  /** The first page's write followed by the rest of the session fills the whole range. */
  lemma FillStep(h: seq<Event>, h1: seq<Event>, h2: seq<Event>, slave: nat, addressLength: nat, src: seq<byte>,
                 address: nat, offset: nat, length: nat, chunk: seq<byte>)
    requires 0 < |chunk| <= length && offset + length <= |src| && chunk == src[offset..offset + |chunk|]
    requires forall a: nat ::
      Cell(h1, slave, addressLength, a) == (if address <= a < address + |chunk| then chunk[a - address] else Cell(h, slave, addressLength, a))
    requires forall a :: address + |chunk| <= a < address + |chunk| + (length - |chunk|) ==>
      Cell(h2, slave, addressLength, a) == src[offset + |chunk| + (a - (address + |chunk|))]
    requires forall a: nat :: a < address + |chunk| || address + |chunk| + (length - |chunk|) <= a ==>
      Cell(h2, slave, addressLength, a) == Cell(h1, slave, addressLength, a)
    ensures forall a :: address <= a < address + length ==>
      Cell(h2, slave, addressLength, a) == src[offset + (a - address)]
    ensures forall a: nat :: a < address || address + length <= a ==>
      Cell(h2, slave, addressLength, a) == Cell(h, slave, addressLength, a)
  {
    forall a: nat | address <= a < address + |chunk|
      ensures Cell(h2, slave, addressLength, a) == src[offset + (a - address)]
    {
      assert chunk[a - address] == src[offset + (a - address)];
    }
  }

  /** Going from history `h` to `h2` stored the `length` source bytes from `offset`
      at word addresses `address` on and changed no other cell. */
  ghost predicate Filled(h: seq<Event>, h2: seq<Event>, slave: nat, addressLength: nat, src: seq<byte>,
                   address: nat, offset: nat, length: nat)
    requires offset + length <= |src|
  {
    && (forall a :: address <= a < address + length ==>
          Cell(h2, slave, addressLength, a) == src[offset + (a - address)])
    && (forall a: nat :: a < address || address + length <= a ==>
          Cell(h2, slave, addressLength, a) == Cell(h, slave, addressLength, a))
  }

  /** The first frame of a session goes out and is taken whole; if the session of
      the frames after it fills the rest of the range, the whole session fills all
      of it. */
  lemma SessionFillStep(slave: nat, addressLength: nat, src: seq<byte>, h: seq<Event>, e: Event,
                        frames: seq<seq<byte>>, next: seq<seq<byte>>, address: nat, offset: nat, length: nat, l: nat)
    requires addressLength == 1 || addressLength == 2
    requires address < Radix(addressLength) && l + addressLength < 0x1_0000
    requires 0 < l <= length && offset + length <= |src|
    requires frames != [] && frames[0] == Prefix(address, addressLength) + src[offset..offset + l] && frames[1..] == next
    requires e == Wrote(slave, frames[0], Eeprom(slave, addressLength).write(h, slave, frames[0]))
    requires var rest := WriteSession(Eeprom(slave, addressLength), h + [e], slave, next);
      rest.done && Filled(h + [e], (h + [e]) + rest.events, slave, addressLength, src, address + l, offset + l, length - l)
    ensures var r := WriteSession(Eeprom(slave, addressLength), h, slave, frames);
      r.done && Filled(h, h + r.events, slave, addressLength, src, address, offset, length)
  {
    var v := Eeprom(slave, addressLength);
    var chunk := src[offset..offset + l];
    assert Accepted(e);
    WriteOnce(h, e, slave, addressLength, address, chunk);
    SessionUnfold(v, h, slave, frames);
    var rest := WriteSession(v, h + [e], slave, next);
    var r := WriteSession(v, h, slave, frames);
    assert r.events == [e] + rest.events;
    AppendAssoc(h, [e], rest.events);
    FillStep(h, h + [e], h + r.events, slave, addressLength, src, address, offset, length, chunk);
  }

  /** `frames` are the page frames of a paged write of `length` source bytes from
      `offset` to word address `address` on, page by page. */
  ghost predicate Framed(frames: seq<seq<byte>>, src: seq<byte>, addressLength: nat, pageSize: nat,
                         address: nat, offset: nat, length: nat)
    requires addressLength == 1 || addressLength == 2
    requires pageSize >= 1 && offset + length <= |src|
    decreases length
  {
    if length == 0 then frames == []
    else
      var l := Min(length, pageSize);
      && frames != [] && frames[0] == Prefix(address, addressLength) + src[offset..offset + l]
      && Framed(frames[1..], src, addressLength, pageSize, address + l, offset + l, length - l)
  }

  lemma {:induction false} FramesAreFramed(src: seq<byte>, addressLength: nat, pageSize: nat, address: nat, offset: nat, length: nat)
    requires addressLength == 1 || addressLength == 2
    requires pageSize >= 1 && offset + length <= |src|
    ensures Framed(Frames(src, addressLength, pageSize, address, offset, length), src, addressLength, pageSize, address, offset, length)
    decreases length
  {
    if length == 0 {
      FrameCount(src, addressLength, pageSize, address, offset, length);
    } else {
      var l := Min(length, pageSize);
      FramesStep(src, addressLength, pageSize, address, offset, length, l);
      FramesAreFramed(src, addressLength, pageSize, address + l, offset + l, length - l);
      FramedCons(Frames(src, addressLength, pageSize, address, offset, length),
                 Frames(src, addressLength, pageSize, address + l, offset + l, length - l),
                 src, addressLength, pageSize, address, offset, length, l);
    }
  }

  /** A first frame for the first page in front of the frames of the rest. */
  lemma FramedCons(frames: seq<seq<byte>>, next: seq<seq<byte>>, src: seq<byte>, addressLength: nat, pageSize: nat,
                   address: nat, offset: nat, length: nat, l: nat)
    requires addressLength == 1 || addressLength == 2
    requires pageSize >= 1 && offset + length <= |src| && length > 0 && l == Min(length, pageSize)
    requires frames != [] && frames[0] == Prefix(address, addressLength) + src[offset..offset + l] && frames[1..] == next
    requires Framed(next, src, addressLength, pageSize, address + l, offset + l, length - l)
    ensures Framed(frames, src, addressLength, pageSize, address, offset, length)
  {
  }

  /** A paged write of `length` source bytes from `offset` to word address `address`
      on: it completes, the memory then holds those bytes from `address` on, and it
      leaves every other cell as it was. */
  lemma {:induction false} SessionFills(slave: nat, addressLength: nat, pageSize: nat, src: seq<byte>, h: seq<Event>,
                                        frames: seq<seq<byte>>, address: nat, offset: nat, length: nat)
    requires addressLength == 1 || addressLength == 2
    requires 1 <= pageSize && pageSize + addressLength < 0x1_0000
    requires offset + length <= |src| && address + length <= Radix(addressLength)
    requires Framed(frames, src, addressLength, pageSize, address, offset, length)
    ensures var r := WriteSession(Eeprom(slave, addressLength), h, slave, frames);
      r.done && Filled(h, h + r.events, slave, addressLength, src, address, offset, length)
    decreases length
  {
    var v := Eeprom(slave, addressLength);
    if length == 0 {
      assert h + WriteSession(v, h, slave, frames).events == h;
    } else {
      var l := Min(length, pageSize);
      var next := frames[1..];
      assert frames != [] && frames[0] == Prefix(address, addressLength) + src[offset..offset + l];
      assert Framed(next, src, addressLength, pageSize, address + l, offset + l, length - l);
      var e := Wrote(slave, frames[0], v.write(h, slave, frames[0]));
      SessionFills(slave, addressLength, pageSize, src, h + [e], next, address + l, offset + l, length - l);
      SessionFillStep(slave, addressLength, src, h, e, frames, next, address, offset, length, l);
    }
  }

  /** On this bus setting word address `address` succeeds, moves the counter there
      and writes no cell. */
  lemma AddressSetOnEeprom(slave: nat, addressLength: nat, h: seq<Event>, address: nat)
    requires addressLength == 1 || addressLength == 2
    requires address < Radix(addressLength)
    ensures var a := AddressSet(Eeprom(slave, addressLength), h, slave, address, addressLength);
      && a.status == Ok
      && Counter(h + a.events, slave, addressLength) == address
      && forall x: nat :: Cell(h + a.events, slave, addressLength, x) == Cell(h, slave, addressLength, x)
  {
    var v := Eeprom(slave, addressLength);
    var a := AddressSet(v, h, slave, address, addressLength);
    var prefix := Prefix(address, addressLength);
    var sent := Wrote(slave, prefix, v.write(h, slave, prefix));
    var s := v.query(h + [sent]);
    assert s == StatusReply(Ok, false, false);
    assert a.status == Ok && a.events == [sent, Queried(s)];
    assert prefix == Prefix(address, addressLength) + [];
    FrameStart(sent, slave, addressLength, address, []);
    assert h + a.events == (h + [sent]) + [Queried(s)];
    CounterSnoc(h + [sent], Queried(s), slave, addressLength);
    CounterSnoc(h, sent, slave, addressLength);
    forall x: nat
      ensures Cell(h + a.events, slave, addressLength, x) == Cell(h, slave, addressLength, x)
    {
      CellSnoc(h + [sent], Queried(s), slave, addressLength, x);
      CellSnoc(h, sent, slave, addressLength, x);
    }
  }

  /** A block read of `length` bytes from word address `address` on delivers the
      memory's bytes from `address` on and prints them. */
  lemma ReadBack(slave: nat, addressLength: nat, h: seq<Event>, address: nat, length: nat)
    requires addressLength == 1 || addressLength == 2
    requires 1 <= length < 0x1_0000 && address + length <= Radix(addressLength)
    ensures var r := BlockRead(Eeprom(slave, addressLength), h, slave, addressLength, address, length);
      && r.delivered == Fetch(h, slave, addressLength, address, length)
      && r.outcome == Printed(HexDumpOf(r.delivered))
  {
    RadixBound(addressLength);
    assert address % 0x1_0000 == address && addressLength % 0x1_0000 == addressLength && length % 0x1_0000 == length;
    AddressSetOnEeprom(slave, addressLength, h, address);
    var v := Eeprom(slave, addressLength);
    var a := AddressSet(v, h, slave, address, addressLength);
    var fetched := Fetch(h + a.events, slave, addressLength, address, length);
    FetchAgrees(h + a.events, h, slave, addressLength, address, length);
    var reply := v.read(h + a.events, slave, length);
    assert reply == ReadReply(Ok, fetched);
    assert Received(reply, length) == fetched;
    var r := BlockRead(v, h, slave, addressLength, address, length);
    assert AddressSet(v, h, slave, address % 0x1_0000, addressLength % 0x1_0000) == a;
    assert r == ReadRun(Printed(HexDumpOf(fetched)), a.events + [ReadFrom(slave, length, reply)], fetched);
  }

  /** Histories that agree on every cell fetch the same bytes. */
  lemma FetchAgrees(h1: seq<Event>, h2: seq<Event>, slave: nat, addressLength: nat, start: nat, count: nat)
    requires forall x: nat :: Cell(h1, slave, addressLength, x) == Cell(h2, slave, addressLength, x)
    ensures Fetch(h1, slave, addressLength, start, count) == Fetch(h2, slave, addressLength, start, count)
  {
    var f1, f2 := Fetch(h1, slave, addressLength, start, count), Fetch(h2, slave, addressLength, start, count);
    forall i | 0 <= i < count
      ensures f1[i] == f2[i]
    {
      assert Cell(h1, slave, addressLength, start + i) == Cell(h2, slave, addressLength, start + i);
    }
  }

  /** Writing `length` bytes of the read buffer to word address `address` on and then
      reading the same range back returns them, and the dump shows exactly them. */
  lemma WriteThenRead(slave: nat, addressLength: nat, pageSize: nat, src: seq<byte>, h: seq<Event>, address: nat, length: nat)
    requires addressLength == 1 || addressLength == 2
    requires 1 <= pageSize && pageSize + addressLength < 0x1_0000
    requires 1 <= length <= |src| && length < 0x1_0000 && address + length <= Radix(addressLength)
    ensures var v := Eeprom(slave, addressLength);
      var w := WriteSession(v, h, slave, Frames(src, addressLength, pageSize, address, 0, length));
      var r := BlockRead(v, h + w.events, slave, addressLength, address, length);
      && w.done
      && r.delivered == src[..length]
      && r.outcome == Printed(HexDumpOf(src[..length]))
  {
    var v := Eeprom(slave, addressLength);
    var w := WriteSession(v, h, slave, Frames(src, addressLength, pageSize, address, 0, length));
    FramesAreFramed(src, addressLength, pageSize, address, 0, length);
    SessionFills(slave, addressLength, pageSize, src, h, Frames(src, addressLength, pageSize, address, 0, length), address, 0, length);
    ReadBack(slave, addressLength, h + w.events, address, length);
    FetchFilled(h, h + w.events, slave, addressLength, src, address, length);
  }

  /** After a history that filled a range, fetching it gives back the source bytes. */
  lemma FetchFilled(h: seq<Event>, h2: seq<Event>, slave: nat, addressLength: nat, src: seq<byte>, address: nat, length: nat)
    requires length <= |src| && Filled(h, h2, slave, addressLength, src, address, 0, length)
    ensures Fetch(h2, slave, addressLength, address, length) == src[..length]
  {
    var got := Fetch(h2, slave, addressLength, address, length);
    forall i | 0 <= i < length
      ensures got[i] == src[i]
    {
      assert Cell(h2, slave, addressLength, address + i) == src[0 + ((address + i) - address)];
    }
  }
}
