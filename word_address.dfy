/** Positioning an EEPROM's address counter: the 1- or 2-byte word-address prefix
    (setWordAddress, set_address) and the status setWordAddress decides from the
    library's replies. */
module WordAddress {
  import opened Ft4222

  /** 256 to the power n: the number of word addresses n prefix bytes can tell apart. */
  function Radix(n: nat): (r: nat)
    ensures r >= 1
  {
    if n == 0 then 1 else 256 * Radix(n - 1)
  }

  /** The prefix for `address`: its low `length` bytes, high byte first.  Higher bits
      are dropped, as the casts to `unsigned char` drop them. */
  function Prefix(address: nat, length: nat): (r: seq<byte>)
    requires length == 1 || length == 2
    ensures |r| == length
  {
    if length == 1 then [address % 256] else [(address / 256) % 256, address % 256]
  }

  /** The number a big-endian byte string stands for. */
  function BigEndian(s: seq<byte>): nat
  {
    if s == [] then 0 else BigEndian(s[..|s| - 1]) * 256 + s[|s| - 1]
  }

  /** The prefix denotes the address modulo the range its bytes can hold. */
  lemma PrefixDenotesAddress(address: nat, length: nat)
    requires length == 1 || length == 2
    ensures BigEndian(Prefix(address, length)) == address % Radix(length)
  {
    var p := Prefix(address, length);
    if length == 1 {
      assert p[..0] == [];
    } else {
      var q, r := address / 256, address % 256;
      var q2, r2 := q / 256, q % 256;
      assert address == 65536 * q2 + (256 * r2 + r);
      assert 0 <= 256 * r2 + r < 65536;
      assert p[..1] == [r2] && [r2][..0] == [];
      assert BigEndian(p) == 256 * r2 + r;
      assert Radix(2) == 65536;
    }
  }

  /** Every 1- or 2-byte string is the prefix of the number it stands for. */
  lemma PrefixOfBigEndian(s: seq<byte>)
    requires |s| == 1 || |s| == 2
    ensures BigEndian(s) < Radix(|s|)
    ensures Prefix(BigEndian(s), |s|) == s
  {
    assert s[..|s| - 1][..0] == [];
    if |s| == 2 {
      assert BigEndian(s) == (s[0] as int) * 256 + s[1];
    }
  }

  /** Two addresses get the same prefix exactly when they agree modulo its range. */
  lemma PrefixInjective(a: nat, b: nat, length: nat)
    requires length == 1 || length == 2
    ensures Prefix(a, length) == Prefix(b, length) <==> a % Radix(length) == b % Radix(length)
  {
    PrefixDenotesAddress(a, length);
    PrefixDenotesAddress(b, length);
    if a % Radix(length) == b % Radix(length) {
      PrefixOfBigEndian(Prefix(a, length));
      PrefixOfBigEndian(Prefix(b, length));
    }
  }

  /** Passing an `int` address to setWordAddress's `unsigned short` parameter does
      not change the prefix it sends. */
  lemma PrefixOfShort(address: nat, length: nat)
    requires length == 1 || length == 2
    ensures Prefix(address % 0x1_0000, length) == Prefix(address, length)
  {
    var k, r := address / 0x1_0000, address % 0x1_0000;
    assert address == 256 * (256 * k) + r;
    ByteShift(256 * k, r);
    ByteShift(k, r / 256);
    assert r == 256 * (r / 256) + r % 256;
    assert address / 256 == 256 * k + r / 256;
  }

  /** Adding whole multiples of 256 leaves the low byte alone and moves the rest up. */
  lemma ByteShift(k: nat, r: nat)
    ensures (256 * k + r) / 256 == k + r / 256 && (256 * k + r) % 256 == r % 256
  {
    var q, m := r / 256, r % 256;
    assert 256 * k + r == 256 * (k + q) + m && 0 <= m < 256;
  }

  /** The status setWordAddress returns once its prefix write went out, given the
      write's reply and, when the write succeeded, the status query's reply. */
  function AddressSetOutcome(w: WriteReply, s: StatusReply): (r: Status)
    ensures w.status != Ok ==> r == w.status
    ensures w.status == Ok && s.status != Ok ==> r == s.status
    ensures r == Ok <==> w.status == Ok && s.status == Ok && !s.addressNack && !s.dataNack
    ensures r != Ok && w.status == Ok && s.status == Ok ==> r == FailedToWriteDevice
  {
    if w.status != Ok then w.status
    else if s.status != Ok then s.status
    else if s.addressNack || s.dataNack then FailedToWriteDevice
    else Ok
  }

  /** A short write is only reported: the byte count never changes the status. */
  lemma ShortWriteDoesNotChangeStatus(w: WriteReply, s: StatusReply, n: u16)
    ensures AddressSetOutcome(w.(written := n), s) == AddressSetOutcome(w, s)
  {
  }

  /** The status of one call and the library calls it made. */
  datatype Step = Step(status: Status, events: seq<Event>)

  /** setWordAddress run against `v` on a handle whose history is `h`. */
  function AddressSet(v: Vendor, h: seq<Event>, slave: nat, wordAddress: u16, addressLength: nat): (r: Step)
    ensures |r.events| <= 2
  {
    if addressLength != 1 && addressLength != 2 then Step(InvalidParameter, [])
    else
      var data := Prefix(wordAddress, addressLength);
      var w := v.write(h, slave, data);
      var sent := Wrote(slave, data, w);
      if w.status != Ok then Step(w.status, [sent])
      else
        var s := v.query(h + [sent]);
        Step(AddressSetOutcome(w, s), [sent, Queried(s)])
  }

  /** What the calls of setWordAddress are, and when it reports success. */
  lemma AddressSetCalls(v: Vendor, h: seq<Event>, slave: nat, wordAddress: u16, addressLength: nat)
    ensures var r := AddressSet(v, h, slave, wordAddress, addressLength);
      && (addressLength != 1 && addressLength != 2 ==> r.status == InvalidParameter && r.events == [])
      && (addressLength == 1 || addressLength == 2 ==>
            && 1 <= |r.events|
            && r.events[0].Wrote? && r.events[0].slave == slave
            && r.events[0].data == Prefix(wordAddress, addressLength)
            && r.events[0].wreply == v.write(h, slave, Prefix(wordAddress, addressLength))
            && (|r.events| == 2 <==> r.events[0].wreply.status == Ok)
            && (r.events[0].wreply.status != Ok ==> r.status == r.events[0].wreply.status)
            && (|r.events| == 2 ==>
                  && r.events[1] == Queried(v.query(h + [r.events[0]]))
                  && r.status == AddressSetOutcome(r.events[0].wreply, r.events[1].sreply)))
    ensures AddressSet(v, h, slave, wordAddress, addressLength).status == Ok <==>
      && (addressLength == 1 || addressLength == 2)
      && var w := v.write(h, slave, Prefix(wordAddress, addressLength));
         var s := v.query(h + [Wrote(slave, Prefix(wordAddress, addressLength), w)]);
         w.status == Ok && s.status == Ok && !s.addressNack && !s.dataNack
  {
  }

  /** setWordAddress: builds the prefix in a local array, writes it, then asks the
      controller whether the slave acknowledged. */
  method SetWordAddress(bus: Handle, slave: u16, wordAddress: u16, addressLength: u16) returns (status: Status)
    modifies bus
    ensures status == AddressSet(bus.vendor, old(bus.log), slave, wordAddress, addressLength).status
    ensures bus.log == old(bus.log) + AddressSet(bus.vendor, old(bus.log), slave, wordAddress, addressLength).events
  {
    var data := new byte[addressLength];
    match addressLength {
      case 1 =>
        data[0] := wordAddress % 256;
      case 2 =>
        data[0] := (wordAddress / 256) % 256;
        data[1] := wordAddress % 256;
      case _ =>
        return InvalidParameter;
    }
    assert data[..] == Prefix(wordAddress, addressLength as nat);

    var w := bus.Write(slave, data[..]);
    if w.status != Ok {
      return w.status;
    }
    // A short write (w.written != addressLength) is printed and otherwise ignored.

    var s := bus.GetStatus();
    if s.status != Ok {
      return s.status;
    }
    if s.addressNack || s.dataNack {
      return FailedToWriteDevice;
    }
    return s.status;
  }
}
