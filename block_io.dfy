/** Block reads and paged writes against an addressable EEPROM (i2c_read,
    set_address, i2c_write), over the tool's two static buffers. */
module BlockIo {
  import opened Ft4222
  import opened WordAddress
  import opened Layout
  import opened HexDump

  /** I2C_READ_BUFFER_LENGTH: the read buffer, also the source of a write. */
  const ReadBufferLength := 65536

  /** I2C_WRITE_BUFFER_LENGTH: the staging buffer of one page write. */
  const WriteBufferLength := 512

  // ---------------------------------------------------------------------------
  // Paged writes

  /** The number of page writes for `length` bytes: one page of at most `pageSize`
      bytes after another until nothing remains. */
  function PageCount(length: nat, pageSize: nat): nat
    requires pageSize >= 1
    decreases length
  {
    if length == 0 then 0 else 1 + PageCount(length - Min(length, pageSize), pageSize)
  }

  /** Page k starts inside the data exactly when k is below the page count, and the
      count is ceil(length / pageSize). */
  lemma {:induction false} PageBounds(length: nat, pageSize: nat)
    requires pageSize >= 1
    ensures var n := PageCount(length, pageSize);
      (n - 1) * pageSize < length <= n * pageSize
    decreases length
  {
    if length > pageSize {
      var n' := PageCount(length - pageSize, pageSize);
      PageBounds(length - pageSize, pageSize);
      assert (n' + 1) * pageSize == n' * pageSize + pageSize;
    }
  }

  /** Where page k starts: k whole pages in. */
  function Offset(k: nat, pageSize: nat): nat
  {
    if k == 0 then 0 else Offset(k - 1, pageSize) + pageSize
  }

  lemma {:induction false} OffsetIsProduct(k: nat, pageSize: nat)
    ensures Offset(k, pageSize) == k * pageSize
  {
    if k > 0 {
      OffsetIsProduct(k - 1, pageSize);
      assert (k - 1) * pageSize + pageSize == k * pageSize;
    }
  }

  lemma {:induction false} PageStart(length: nat, pageSize: nat, k: nat)
    requires pageSize >= 1
    ensures k < PageCount(length, pageSize) <==> Offset(k, pageSize) < length
    decreases length
  {
    if length > 0 && k > 0 {
      PageStart(length - Min(length, pageSize), pageSize, k - 1);
    }
  }

  /** The number of transactions in division form: ceil(length / pageSize). */
  lemma PageCountIsCeiling(length: nat, pageSize: nat)
    requires pageSize >= 1
    ensures PageCount(length, pageSize) == (length + pageSize - 1) / pageSize
  {
    PageBounds(length, pageSize);
    var n := PageCount(length, pageSize);
    if length > 0 {
      assert n * pageSize <= length + pageSize - 1 < (n + 1) * pageSize;
      DivideBetween(length + pageSize - 1, pageSize, n);
    }
  }

  lemma DivideBetween(x: nat, d: nat, n: nat)
    requires d >= 1 && n * d <= x < (n + 1) * d
    ensures x / d == n
  {
    var q, r := x / d, x % d;
    assert x == q * d + r && 0 <= r < d;
    if q < n {
      MultiplyMonotone(q + 1, n, d);
    } else if q > n {
      MultiplyMonotone(n + 1, q, d);
    }
  }

  lemma MultiplyMonotone(a: nat, b: nat, d: nat)
    requires a <= b
    ensures a * d <= b * d
  {
  }

  /** One page write of i2c_write's loop: the word address it goes to, where its data
      starts in the read buffer, and how many data bytes it carries. */
  datatype Page = Page(address: nat, offset: nat, count: nat)

  /** The pages of a write of `length` source bytes from `offset` on to word address
      `address` on: a full page or as many bytes as remain, the address and the offset
      moving on by the bytes sent. */
  function Pages(pageSize: nat, address: nat, offset: nat, length: nat): seq<Page>
    requires pageSize >= 1
    decreases length
  {
    if length == 0 then []
    else
      var l := Min(length, pageSize);
      [Page(address, offset, l)] + Pages(pageSize, address + l, offset + l, length - l)
  }

  /** The first page, then the pages of the rest. */
  lemma PagesCons(pageSize: nat, address: nat, offset: nat, length: nat, l: nat)
    requires pageSize >= 1 && length > 0 && l == Min(length, pageSize)
    ensures Pages(pageSize, address, offset, length)
      == [Page(address, offset, l)] + Pages(pageSize, address + l, offset + l, length - l)
  {
  }

  /** One page per PageCount. */
  lemma {:induction false} PagesCount(pageSize: nat, address: nat, offset: nat, length: nat)
    requires pageSize >= 1
    ensures |Pages(pageSize, address, offset, length)| == PageCount(length, pageSize)
    decreases length
  {
    if length > 0 {
      var l := Min(length, pageSize);
      PagesCount(pageSize, address + l, offset + l, length - l);
    }
  }

  /** Page k starts o = Offset(k, pageSize) bytes in: it goes to word address
      address + o and carries the source bytes from offset + o on, a full page of them
      or as many as remain. */
  lemma {:induction false} PageIndex(pageSize: nat, address: nat, offset: nat, length: nat, k: nat)
    requires pageSize >= 1 && k < |Pages(pageSize, address, offset, length)|
    ensures var o := Offset(k, pageSize);
      && o < length
      && Pages(pageSize, address, offset, length)[k] == Page(address + o, offset + o, Min(length - o, pageSize))
    decreases k
  {
    var l := Min(length, pageSize);
    PagesCons(pageSize, address, offset, length, l);
    if k > 0 {
      PageIndex(pageSize, address + l, offset + l, length - l, k - 1);
      assert l == pageSize;
    }
  }

  /** Every page's data lies inside a source of `size` bytes. */
  predicate Fits(pages: seq<Page>, size: nat)
  {
    forall i :: 0 <= i < |pages| ==> pages[i].offset + pages[i].count <= size
  }

  lemma PagesFit(pageSize: nat, address: nat, offset: nat, length: nat, size: nat)
    requires pageSize >= 1 && offset + length <= size
    ensures Fits(Pages(pageSize, address, offset, length), size)
  {
    forall i | 0 <= i < |Pages(pageSize, address, offset, length)| {
      PageIndex(pageSize, address, offset, length, i);
    }
  }

  /** The bytes of one page write: the prefix of its word address, then its data. */
  function Bytes(src: seq<byte>, addressLength: nat, p: Page): (f: seq<byte>)
    requires addressLength == 1 || addressLength == 2
    requires p.offset + p.count <= |src|
  {
    Prefix(p.address, addressLength) + src[p.offset..p.offset + p.count]
  }

  /** What goes on the wire for `pages`, one frame per page. */
  function Wire(src: seq<byte>, addressLength: nat, pages: seq<Page>): (fs: seq<seq<byte>>)
    requires addressLength == 1 || addressLength == 2
    requires Fits(pages, |src|)
  {
    seq(|pages|, i requires 0 <= i < |pages| => Bytes(src, addressLength, pages[i]))
  }

  /** The frames of a paged write, if every write goes through. */
  function Frames(src: seq<byte>, addressLength: nat, pageSize: nat, address: nat, offset: nat, length: nat): (fs: seq<seq<byte>>)
    requires addressLength == 1 || addressLength == 2
    requires pageSize >= 1 && offset + length <= |src|
  {
    PagesFit(pageSize, address, offset, length, |src|);
    Wire(src, addressLength, Pages(pageSize, address, offset, length))
  }

  /** The next frame of the loop and the frames after it. */
  lemma FramesStep(src: seq<byte>, addressLength: nat, pageSize: nat, address: nat, offset: nat, length: nat, l: nat)
    requires addressLength == 1 || addressLength == 2
    requires pageSize >= 1 && offset + length <= |src| && length > 0
    requires l == Min(length, pageSize)
    ensures var fs := Frames(src, addressLength, pageSize, address, offset, length);
      && fs != []
      && fs[0] == Prefix(address, addressLength) + src[offset..offset + l]
      && |fs[0]| == addressLength + l
      && fs[1..] == Frames(src, addressLength, pageSize, address + l, offset + l, length - l)
  {
    var ps, rest := Pages(pageSize, address, offset, length), Pages(pageSize, address + l, offset + l, length - l);
    PagesCons(pageSize, address, offset, length, l);
    PagesFit(pageSize, address, offset, length, |src|);
    PagesFit(pageSize, address + l, offset + l, length - l, |src|);
    var fs, fs' := Wire(src, addressLength, ps), Wire(src, addressLength, rest);
    assert fs[0] == Bytes(src, addressLength, Page(address, offset, l));
    forall i | 0 <= i < |fs'|
      ensures fs[1..][i] == fs'[i]
    {
      assert ps[i + 1] == rest[i];
    }
  }

  /** One frame per page: ceil(length / pageSize) of them. */
  lemma FrameCount(src: seq<byte>, addressLength: nat, pageSize: nat, address: nat, offset: nat, length: nat)
    requires addressLength == 1 || addressLength == 2
    requires pageSize >= 1 && offset + length <= |src|
    ensures |Frames(src, addressLength, pageSize, address, offset, length)| == PageCount(length, pageSize)
  {
    PagesCount(pageSize, address, offset, length);
  }

  /** Page k exists exactly when k * pageSize < length; it goes to word address
      address + k * pageSize and carries the source bytes from k * pageSize on, a full
      page of them or as many as remain. */
  lemma FrameAt(src: seq<byte>, addressLength: nat, pageSize: nat, address: nat, offset: nat, length: nat)
    requires addressLength == 1 || addressLength == 2
    requires pageSize >= 1 && offset + length <= |src|
    ensures var fs := Frames(src, addressLength, pageSize, address, offset, length);
      forall k: nat :: k < |fs| <==> k * pageSize < length
    ensures var fs := Frames(src, addressLength, pageSize, address, offset, length);
      forall k: nat :: k * pageSize < length ==>
        && k < |fs|
        && fs[k] == Prefix(address + k * pageSize, addressLength)
                    + src[offset + k * pageSize .. offset + k * pageSize + Min(length - k * pageSize, pageSize)]
  {
    var fs := Frames(src, addressLength, pageSize, address, offset, length);
    FrameCount(src, addressLength, pageSize, address, offset, length);
    forall k: nat
      ensures k < |fs| <==> k * pageSize < length
      ensures k * pageSize < length ==>
        && k < |fs|
        && fs[k] == Prefix(address + k * pageSize, addressLength)
                    + src[offset + k * pageSize .. offset + k * pageSize + Min(length - k * pageSize, pageSize)]
    {
      PageStart(length, pageSize, k);
      OffsetIsProduct(k, pageSize);
      if k < |fs| {
        PageIndex(pageSize, address, offset, length, k);
      }
    }
  }

  /** Every frame is the prefix and at least one data byte, at most a page of them, and
      every frame but the last carries a full page. */
  lemma FrameSizes(src: seq<byte>, addressLength: nat, pageSize: nat, address: nat, offset: nat, length: nat)
    requires addressLength == 1 || addressLength == 2
    requires pageSize >= 1 && offset + length <= |src|
    ensures var fs := Frames(src, addressLength, pageSize, address, offset, length);
      && (forall k :: 0 <= k < |fs| ==> addressLength < |fs[k]| <= addressLength + pageSize)
      && (forall k :: 0 <= k < |fs| - 1 ==> |fs[k]| == addressLength + pageSize)
  {
    var fs := Frames(src, addressLength, pageSize, address, offset, length);
    forall k | 0 <= k < |fs|
      ensures addressLength < |fs[k]| <= addressLength + pageSize
      ensures k < |fs| - 1 ==> |fs[k]| == addressLength + pageSize
    {
      PageIndex(pageSize, address, offset, length, k);
      if k < |fs| - 1 {
        PageIndex(pageSize, address, offset, length, k + 1);
      }
    }
  }

  /** The data bytes a sequence of frames carries, prefixes dropped. */
  function Payload(frames: seq<seq<byte>>, addressLength: nat): seq<byte>
  {
    if frames == [] then []
    else (if |frames[0]| < addressLength then [] else frames[0][addressLength..]) + Payload(frames[1..], addressLength)
  }

  lemma FitsTail(pages: seq<Page>, size: nat)
    requires pages != [] && Fits(pages, size)
    ensures Fits(pages[1..], size)
  {
    forall i | 0 <= i < |pages| - 1
      ensures pages[1..][i].offset + pages[1..][i].count <= size
    {
      assert pages[1..][i] == pages[i + 1];
    }
  }

  /** The data bytes of `pages`, in order. */
  function Data(src: seq<byte>, pages: seq<Page>): seq<byte>
    requires Fits(pages, |src|)
  {
    if pages == [] then []
    else
      FitsTail(pages, |src|);
      src[pages[0].offset..pages[0].offset + pages[0].count] + Data(src, pages[1..])
  }

  /** The pages cover the source exactly: their data bytes, in order, are the `length`
      source bytes from `offset`, each written once. */
  lemma FramesCoverSource(src: seq<byte>, addressLength: nat, pageSize: nat, address: nat, offset: nat, length: nat)
    requires addressLength == 1 || addressLength == 2
    requires pageSize >= 1 && offset + length <= |src|
    ensures Payload(Frames(src, addressLength, pageSize, address, offset, length), addressLength)
      == src[offset..offset + length]
  {
    PagesFit(pageSize, address, offset, length, |src|);
    PayloadOfWire(src, addressLength, Pages(pageSize, address, offset, length));
    PagesCover(src, pageSize, address, offset, length, offset + length);
  }

  lemma {:induction false} PagesCover(src: seq<byte>, pageSize: nat, address: nat, offset: nat, length: nat, end: nat)
    requires pageSize >= 1 && end == offset + length && end <= |src|
    ensures Fits(Pages(pageSize, address, offset, length), |src|)
    ensures Data(src, Pages(pageSize, address, offset, length)) == src[offset..end]
    decreases length
  {
    PagesFit(pageSize, address, offset, length, |src|);
    if length > 0 {
      var l := Min(length, pageSize);
      var rest := Pages(pageSize, address + l, offset + l, length - l);
      PagesCons(pageSize, address, offset, length, l);
      assert ([Page(address, offset, l)] + rest)[1..] == rest;
      PagesCover(src, pageSize, address + l, offset + l, length - l, end);
      SplitAt(src, offset, offset + l, end);
    }
  }

  /** Dropping the prefixes of the frames of `pages` leaves their data. */
  lemma {:induction false} PayloadOfWire(src: seq<byte>, addressLength: nat, pages: seq<Page>)
    requires addressLength == 1 || addressLength == 2
    requires Fits(pages, |src|)
    ensures Payload(Wire(src, addressLength, pages), addressLength) == Data(src, pages)
    decreases |pages|
  {
    if pages != [] {
      var w, tail := Wire(src, addressLength, pages), pages[1..];
      FitsTail(pages, |src|);
      assert w[1..] == Wire(src, addressLength, tail) by {
        forall i | 0 <= i < |tail|
          ensures w[1..][i] == Wire(src, addressLength, tail)[i]
        {
          assert tail[i] == pages[i + 1];
        }
      }
      PayloadCons(w, addressLength);
      assert w[0][addressLength..] == src[pages[0].offset..pages[0].offset + pages[0].count];
      PayloadOfWire(src, addressLength, tail);
    }
  }

  lemma PayloadCons(frames: seq<seq<byte>>, addressLength: nat)
    requires frames != [] && |frames[0]| >= addressLength
    ensures Payload(frames, addressLength) == frames[0][addressLength..] + Payload(frames[1..], addressLength)
  {
  }

  lemma SplitAt<T>(s: seq<T>, i: nat, j: nat, k: nat)
    requires i <= j <= k <= |s|
    ensures s[i..k] == s[i..j] + s[j..k]
  {
  }

  /** Whether the library took a page write whole. */
  predicate Accepted(e: Event)
  {
    e.Wrote? && e.wreply.status == Ok && e.wreply.written == |e.data|
  }

  /** The library calls of a paged write, and whether it printed "Done.". */
  datatype WriteRun = WriteRun(events: seq<Event>, done: bool)

  /** Issuing `frames` in order against `v`, stopping after the first write that fails
      or comes back short. */
  function WriteSession(v: Vendor, h: seq<Event>, slave: nat, frames: seq<seq<byte>>): (r: WriteRun)
    ensures |r.events| <= |frames|
    decreases |frames|
  {
    if frames == [] then WriteRun([], true)
    else
      var e := Wrote(slave, frames[0], v.write(h, slave, frames[0]));
      if !Accepted(e) then WriteRun([e], false)
      else
        var rest := WriteSession(v, h + [e], slave, frames[1..]);
        WriteRun([e] + rest.events, rest.done)
  }

  /** One step of a paged write: the first frame goes out, and the rest follow only
      if the library took it whole. */
  lemma SessionUnfold(v: Vendor, h: seq<Event>, slave: nat, frames: seq<seq<byte>>)
    requires frames != []
    ensures var e := Wrote(slave, frames[0], v.write(h, slave, frames[0]));
      var r := WriteSession(v, h, slave, frames);
      var rest := WriteSession(v, h + [e], slave, frames[1..]);
      && (!Accepted(e) ==> r == WriteRun([e], false))
      && (Accepted(e) ==> r == WriteRun([e] + rest.events, rest.done))
  {
  }

  /** A paged write sends the frames in order, each answered by the library given
      the history so far. */
  lemma {:induction false} SessionSendsInOrder(v: Vendor, h: seq<Event>, slave: nat, frames: seq<seq<byte>>)
    ensures var r := WriteSession(v, h, slave, frames);
      forall j :: 0 <= j < |r.events| ==>
        r.events[j] == Wrote(slave, frames[j], v.write(h + r.events[..j], slave, frames[j]))
    decreases |frames|
  {
    if frames != [] {
      var r := WriteSession(v, h, slave, frames);
      var e := Wrote(slave, frames[0], v.write(h, slave, frames[0]));
      SessionUnfold(v, h, slave, frames);
      assert r.events[..0] == [] && h + [] == h;
      if Accepted(e) {
        var rest := WriteSession(v, h + [e], slave, frames[1..]);
        SessionSendsInOrder(v, h + [e], slave, frames[1..]);
        assert r.events == [e] + rest.events;
        forall j | 0 < j < |r.events|
          ensures r.events[j] == Wrote(slave, frames[j], v.write(h + r.events[..j], slave, frames[j]))
        {
          HistoryShift(h, e, rest.events, j - 1);
          assert frames[j] == frames[1..][j - 1];
        }
      }
    }
  }

  /** Event j + 1 of a run that starts with `e` is event j of the rest, and the
      history before it is the history before that one, `e` included. */
  lemma HistoryShift(h: seq<Event>, e: Event, rest: seq<Event>, j: nat)
    requires j < |rest|
    ensures ([e] + rest)[j + 1] == rest[j]
    ensures h + ([e] + rest)[..j + 1] == (h + [e]) + rest[..j]
  {
    assert ([e] + rest)[..j + 1] == [e] + rest[..j];
  }

  /** Whether the library took every one of `events` whole. */
  predicate AllAccepted(events: seq<Event>)
  {
    forall j :: 0 <= j < |events| ==> Accepted(events[j])
  }

  lemma AllAcceptedCons(e: Event, events: seq<Event>)
    ensures AllAccepted([e] + events) <==> Accepted(e) && AllAccepted(events)
  {
    var es := [e] + events;
    assert es[0] == e;
    assert forall j :: 0 <= j < |events| ==> es[j + 1] == events[j];
    if Accepted(e) && AllAccepted(events) {
      forall j | 0 <= j < |es|
        ensures Accepted(es[j])
      {
        if j > 0 {
          assert es[j] == events[j - 1];
        }
      }
    }
  }

  /** Every transaction but the last was accepted; the write completes exactly when
      all frames went out and were accepted, and otherwise its last transaction is the
      first one that failed, with nothing issued after it. */
  lemma {:induction false} SessionStopsAtFirstFailure(v: Vendor, h: seq<Event>, slave: nat, frames: seq<seq<byte>>)
    ensures var r := WriteSession(v, h, slave, frames);
      && (r.events != [] ==> AllAccepted(r.events[..|r.events| - 1]))
      && (r.done <==> |r.events| == |frames| && AllAccepted(r.events))
      && (!r.done ==> r.events != [] && !Accepted(r.events[|r.events| - 1]))
    decreases |frames|
  {
    if frames != [] {
      var r := WriteSession(v, h, slave, frames);
      var e := Wrote(slave, frames[0], v.write(h, slave, frames[0]));
      SessionUnfold(v, h, slave, frames);
      if Accepted(e) {
        var rest := WriteSession(v, h + [e], slave, frames[1..]);
        SessionStopsAtFirstFailure(v, h + [e], slave, frames[1..]);
        AllAcceptedCons(e, rest.events);
        if rest.events != [] {
          assert r.events[..|r.events| - 1] == [e] + rest.events[..|rest.events| - 1];
          AllAcceptedCons(e, rest.events[..|rest.events| - 1]);
          assert r.events[|r.events| - 1] == rest.events[|rest.events| - 1];
        } else {
          assert r.events == [e] + rest.events && r.events[..|r.events| - 1] == [];
          assert AllAccepted(rest.events) && AllAccepted(r.events);
          assert r.done == rest.done && |frames[1..]| == |frames| - 1;
        }
      } else {
        assert r.events == [e] && r.events[..0] == [];
        assert !Accepted(r.events[0]);
      }
    }
  }

  /** On a bus whose library takes every write whole, every frame goes out and the
      write completes. */
  lemma {:induction false} SessionCompletes(v: Vendor, h: seq<Event>, slave: nat, frames: seq<seq<byte>>)
    requires forall g, s, d :: |d| < 0x1_0000 ==> v.write(g, s, d) == WriteReply(Ok, |d|)
    requires forall k :: 0 <= k < |frames| ==> |frames[k]| < 0x1_0000
    ensures WriteSession(v, h, slave, frames).done
    ensures |WriteSession(v, h, slave, frames).events| == |frames|
    decreases |frames|
  {
    if frames != [] {
      var e := Wrote(slave, frames[0], v.write(h, slave, frames[0]));
      assert Accepted(e);
      SessionCompletes(v, h + [e], slave, frames[1..]);
    }
  }

  /** An empty file is written with no transaction at all and reports "Done.". */
  lemma EmptyWrite(v: Vendor, h: seq<Event>, slave: nat, src: seq<byte>, addressLength: nat, pageSize: nat, address: nat)
    requires addressLength == 1 || addressLength == 2
    requires pageSize >= 1
    ensures WriteSession(v, h, slave, Frames(src, addressLength, pageSize, address, 0, 0)) == WriteRun([], true)
  {
  }

  /** The staging buffer once `frame` was built at its front.  A frame never outgrows
      the buffer (FrameSizes, and I2cWrite's bound on pageSize); one that did would be
      cut at the buffer's end, which keeps Stage total. */
  function Stage(buffer: seq<byte>, frame: seq<byte>): (r: seq<byte>)
    ensures |r| == |buffer|
    ensures |frame| <= |buffer| ==> r[..|frame|] == frame && r[|frame|..] == buffer[|frame|..]
  {
    if |frame| <= |buffer| then frame + buffer[|frame|..] else frame[..|buffer|]
  }

  /** Copying `chunk` in right after a staged `prefix`, and touching nothing else,
      stages the whole frame. */
  lemma StageAppend(buffer: seq<byte>, prefixed: seq<byte>, after: seq<byte>, prefix: seq<byte>, chunk: seq<byte>)
    requires |prefix| + |chunk| <= |buffer| && |after| == |buffer|
    requires prefixed == Stage(buffer, prefix)
    requires forall k :: 0 <= k < |chunk| ==> after[|prefix| + k] == chunk[k]
    requires forall i :: 0 <= i < |prefix| ==> after[i] == prefixed[i]
    requires forall i :: |prefix| + |chunk| <= i < |after| ==> after[i] == prefixed[i]
    ensures after == Stage(buffer, prefix + chunk)
  {
    var f := prefix + chunk;
    forall i | 0 <= i < |after|
      ensures after[i] == Stage(buffer, f)[i]
    {
      if i < |prefix| {
        assert prefixed[..|prefix|][i] == prefix[i];
      } else if i < |f| {
        assert after[|prefix| + (i - |prefix|)] == chunk[i - |prefix|];
      } else {
        assert prefixed[|prefix|..][i - |prefix|] == buffer[|prefix|..][i - |prefix|];
      }
    }
  }

  /** The staging buffer after each of `frames` was built in turn. */
  function StagedAll(buffer: seq<byte>, frames: seq<seq<byte>>): (r: seq<byte>)
    ensures |r| == |buffer|
  {
    if frames == [] then buffer
    else Stage(StagedAll(buffer, frames[..|frames| - 1]), frames[|frames| - 1])
  }

  // ---------------------------------------------------------------------------
  // Block reads

  /** What i2c_read shows: nothing after a failed address set or a failed read, a
      short-read message, or the dump. */
  datatype ReadOutcome =
    | AddressNotSet(status: Status)
    | ReadFailed(status: Status)
    | ShortRead(bytesRead: nat, length: nat)
    | Printed(dump: Dump)

  /** The outcome of i2c_read, its library calls, and the bytes the read left at the
      front of the read buffer. */
  datatype ReadRun = ReadRun(outcome: ReadOutcome, events: seq<Event>, delivered: seq<byte>)

  /** i2c_read against `v`: the word address goes through setWordAddress's
      `unsigned short` parameters, and the count asked of the library is
      `(uint16)length`. */
  function BlockRead(v: Vendor, h: seq<Event>, slave: nat, addressLength: nat, address: nat, length: nat): ReadRun
  {
    var a := AddressSet(v, h, slave, address % 0x1_0000, addressLength % 0x1_0000);
    if a.status != Ok then ReadRun(AddressNotSet(a.status), a.events, [])
    else
      var count := length % 0x1_0000;
      var reply := v.read(h + a.events, slave, count);
      var got := Received(reply, count);
      var events := a.events + [ReadFrom(slave, count, reply)];
      if reply.status != Ok then ReadRun(ReadFailed(reply.status), events, got)
      else if |got| != length then ReadRun(ShortRead(|got|, length), events, got)
      else ReadRun(Printed(HexDumpOf(got)), events, got)
  }

  /** The read is issued only once the word address was set, it asks for
      length mod 65536 bytes, and the dump is printed exactly when all `length` bytes
      came back, showing those bytes. */
  lemma ReadGating(v: Vendor, h: seq<Event>, slave: nat, addressLength: nat, address: nat, length: nat)
    ensures var a := AddressSet(v, h, slave, address % 0x1_0000, addressLength % 0x1_0000);
      var r := BlockRead(v, h, slave, addressLength, address, length);
      && (a.status != Ok ==> r.outcome == AddressNotSet(a.status) && r.events == a.events
                             && forall j :: 0 <= j < |r.events| ==> !r.events[j].ReadFrom?)
      && (a.status == Ok ==>
            && |r.events| == |a.events| + 1 && r.events[..|a.events|] == a.events
            && r.events[|a.events|].ReadFrom? && r.events[|a.events|].slave == slave
            && r.events[|a.events|].count == length % 0x1_0000)
      && (r.outcome.Printed? <==>
            a.status == Ok && r.events[|a.events|].rreply.status == Ok && |r.delivered| == length)
      && (r.outcome.Printed? ==> r.outcome.dump == HexDumpOf(r.delivered) && Items(r.outcome.dump.rows) == r.delivered)
  {
    var r := BlockRead(v, h, slave, addressLength, address, length);
    var a := AddressSet(v, h, slave, address % 0x1_0000, addressLength % 0x1_0000);
    AddressSetCalls(v, h, slave, address % 0x1_0000, addressLength % 0x1_0000);
    if a.status != Ok {
      forall j | 0 <= j < |r.events|
        ensures !r.events[j].ReadFrom?
      {
      }
    }
    if r.outcome.Printed? {
      HexDumpLayout(r.delivered);
    }
  }

  /** A 65536-byte read, allowed by the argument checks, asks the library for 0 bytes
      and so never prints a dump. */
  lemma FullBufferReadNeverPrints(v: Vendor, h: seq<Event>, slave: nat, addressLength: nat, address: nat)
    ensures var r := BlockRead(v, h, slave, addressLength, address, ReadBufferLength);
      && !r.outcome.Printed?
      && forall j :: 0 <= j < |r.events| && r.events[j].ReadFrom? ==> r.events[j].count == 0
  {
    var a := AddressSet(v, h, slave, address % 0x1_0000, addressLength % 0x1_0000);
    var r := BlockRead(v, h, slave, addressLength, address, ReadBufferLength);
    AddressSetCalls(v, h, slave, address % 0x1_0000, addressLength % 0x1_0000);
    forall j | 0 <= j < |r.events| && r.events[j].ReadFrom?
      ensures r.events[j].count == 0
    {
      assert j == |a.events|;
    }
  }

  // ---------------------------------------------------------------------------
  // The static buffers and the operations that use them

  /** i2c_read_buffer and i2c_write_buffer. */
  class Buffers {
    const readBuffer: array<byte>
    const writeBuffer: array<byte>

    ghost predicate Valid()
    {
      readBuffer.Length == ReadBufferLength && writeBuffer.Length == WriteBufferLength && readBuffer != writeBuffer
    }

    /** Static storage starts zeroed. */
    constructor ()
      ensures Valid() && fresh(readBuffer) && fresh(writeBuffer)
      ensures forall i :: 0 <= i < ReadBufferLength ==> readBuffer[i] == 0
      ensures forall i :: 0 <= i < WriteBufferLength ==> writeBuffer[i] == 0
    {
      readBuffer := new byte[ReadBufferLength](_ => 0);
      writeBuffer := new byte[WriteBufferLength](_ => 0);
    }

    /** fread(i2c_read_buffer, 1, st_size, fd) of a file holding `data`. */
    method Load(data: seq<byte>)
      requires Valid() && |data| <= ReadBufferLength
      modifies readBuffer
      ensures readBuffer[..] == data + old(readBuffer[..])[|data|..]
    {
      forall i | 0 <= i < |data| {
        readBuffer[i] := data[i];
      }
    }

    /** set_address: the word-address prefix into the front of the staging buffer;
        any other address length leaves the buffer alone. */
    method SetAddress(address: nat, addressLength: nat)
      requires Valid()
      modifies writeBuffer
      ensures addressLength == 1 || addressLength == 2 ==>
        writeBuffer[..] == Stage(old(writeBuffer[..]), Prefix(address, addressLength))
      ensures addressLength != 1 && addressLength != 2 ==> writeBuffer[..] == old(writeBuffer[..])
    {
      match addressLength {
        case 1 =>
          writeBuffer[0] := address % 256;
        case 2 =>
          writeBuffer[0] := (address / 256) % 256;
          writeBuffer[1] := address % 256;
        case _ =>
      }
    }

    /** i2c_read(handle, slave, addressLength, address, length) */
    method I2cRead(bus: Handle, slave: byte, addressLength: nat, address: nat, length: nat) returns (outcome: ReadOutcome)
      requires Valid()
      modifies bus, readBuffer
      ensures var r := BlockRead(bus.vendor, old(bus.log), slave, addressLength, address, length);
        && outcome == r.outcome
        && bus.log == old(bus.log) + r.events
        && readBuffer[..] == r.delivered + old(readBuffer[..])[|r.delivered|..]
    {
      var status := SetWordAddress(bus, slave, address % 0x1_0000, addressLength % 0x1_0000);
      if status != Ok {
        return AddressNotSet(status);
      }

      var readStatus, bytesRead := bus.Read(slave, readBuffer, length % 0x1_0000);
      if readStatus != Ok {
        return ReadFailed(readStatus);
      }

      if bytesRead != length {
        return ShortRead(bytesRead, length);
      }
      assert readBuffer[..length] == Received(bus.vendor.read(old(bus.log) + AddressSet(bus.vendor, old(bus.log), slave, address % 0x1_0000, addressLength % 0x1_0000).events, slave, length % 0x1_0000), length % 0x1_0000);
      var dump := PrintHexBuffer(readBuffer, length);
      return Printed(dump);
    }

    /** The staging step of one page: set_address, then the chunk of the read buffer
        copied in after the prefix. */
    method BuildFrame(address: nat, addressLength: nat, offset: nat, l: nat)
      requires Valid()
      requires addressLength == 1 || addressLength == 2
      requires addressLength + l <= WriteBufferLength && offset + l <= ReadBufferLength
      modifies writeBuffer
      ensures writeBuffer[..] == Stage(old(writeBuffer[..]), Prefix(address, addressLength) + readBuffer[offset..offset + l])
    {
      SetAddress(address, addressLength);
      ghost var prefixed := writeBuffer[..];
      forall k | 0 <= k < l {
        writeBuffer[addressLength + k] := readBuffer[offset + k];
      }
      StageAppend(old(writeBuffer[..]), prefixed, writeBuffer[..], Prefix(address, addressLength), readBuffer[offset..offset + l]);
    }

    /** One page of i2c_write's loop: stage the frame, write it, and tell whether the
        library took it whole ("failed" and "wrote n of m bytes" both end the write). */
    method WritePage(bus: Handle, slave: byte, address: nat, addressLength: nat, offset: nat, l: nat, ghost src: seq<byte>) returns (ok: bool)
      requires Valid() && src == readBuffer[..]
      requires addressLength == 1 || addressLength == 2
      requires addressLength + l <= WriteBufferLength && offset + l <= ReadBufferLength
      modifies bus, writeBuffer
      ensures var frame := Prefix(address, addressLength) + src[offset..offset + l];
        var e := Wrote(slave, frame, bus.vendor.write(old(bus.log), slave, frame));
        && bus.log == old(bus.log) + [e]
        && writeBuffer[..] == Stage(old(writeBuffer[..]), frame)
        && ok == Accepted(e)
    {
      BuildFrame(address, addressLength, offset, l);
      var lWithAddress := l + addressLength;
      assert writeBuffer[..lWithAddress] == Prefix(address, addressLength) + src[offset..offset + l];
      var reply := bus.Write(slave, writeBuffer[..lWithAddress]);
      if reply.status != Ok {
        // "FT4222_I2CMaster_Write failed"
        return false;
      }
      if reply.written != lWithAddress {
        // "FT4222_I2CMaster_Write wrote n of m bytes."
        return false;
      }
      return true;
    }

    /** i2c_write(handle, slave, addressLength, address, pageSize, length): the source
        is the first `length` bytes of the read buffer. */
    method I2cWrite(bus: Handle, slave: byte, addressLength: nat, address: nat, pageSize: nat, length: nat) returns (done: bool)
      requires Valid()
      requires addressLength == 1 || addressLength == 2
      requires 1 <= pageSize && pageSize + addressLength <= WriteBufferLength
      requires length <= ReadBufferLength
      modifies bus, writeBuffer
      ensures var frames := Frames(readBuffer[..], addressLength, pageSize, address, 0, length);
        var run := WriteSession(bus.vendor, old(bus.log), slave, frames);
        && bus.log == old(bus.log) + run.events
        && done == run.done
        && writeBuffer[..] == StagedAll(old(writeBuffer[..]), frames[..|run.events|])
    {
      ghost var v := bus.vendor;
      ghost var src := readBuffer[..];
      ghost var start := bus.log;
      ghost var staged := writeBuffer[..];
      ghost var frames := Frames(src, addressLength, pageSize, address, 0, length);
      ghost var sent: seq<seq<byte>> := [];
      WritingStarts(v, slave, start, frames, staged);

      var p: nat, remaining: nat, addr: nat := 0, length, address;
      while remaining != 0
        invariant p + remaining == length && addr == address + p
        invariant src == readBuffer[..]
        invariant Writing(v, slave, start, frames, staged, bus.log, sent,
                          Frames(src, addressLength, pageSize, addr, p, remaining), writeBuffer[..])
        decreases remaining
      {
        var l := if remaining > pageSize then pageSize else remaining;
        ghost var log, buffer, sent0, addr0, p0, remaining0 := bus.log, writeBuffer[..], sent, addr, p, remaining;
        var ok := WritePage(bus, slave, addr, addressLength, p, l, src);
        ghost var frame := Prefix(addr, addressLength) + src[p..p + l];
        if !ok {
          WritingStep(v, slave, start, frames, staged, log, sent, buffer, src, addressLength, pageSize,
                      addr, p, remaining, l, bus.log, writeBuffer[..], addr + l, p + l, remaining - l);
          return false;
        }
        sent := sent + [frame];
        remaining, p, addr := remaining - l, p + l, addr + l;
        WritingStep(v, slave, start, frames, staged, log, sent0, buffer, src, addressLength, pageSize,
                    addr0, p0, remaining0, l, bus.log, writeBuffer[..], addr, p, remaining);
        // usleep(5000)
      }
      WritingEnds(v, slave, start, frames, staged, bus.log, sent, writeBuffer[..]);
      return true;
    }
  }

  /** The paged writer's loop state: the frames in `sent` went out and were accepted,
      `rest` are still to go, the session from here finishes the session from
      `start`, and the staging buffer holds what the sent frames left in it. */
  ghost predicate Writing(v: Vendor, slave: nat, start: seq<Event>, frames: seq<seq<byte>>, staged: seq<byte>,
                          log: seq<Event>, sent: seq<seq<byte>>, rest: seq<seq<byte>>, buffer: seq<byte>)
  {
    var total := WriteSession(v, start, slave, frames);
    var here := WriteSession(v, log, slave, rest);
    && sent + rest == frames
    && log + here.events == start + total.events
    && here.done == total.done
    && |log| == |start| + |sent|
    && buffer == StagedAll(staged, sent)
  }

  lemma WritingStarts(v: Vendor, slave: nat, start: seq<Event>, frames: seq<seq<byte>>, staged: seq<byte>)
    ensures Writing(v, slave, start, frames, staged, start, [], frames, staged)
  {
    assert [] + frames == frames;
  }

  /** With nothing left to send, the session is over and every frame was accepted. */
  lemma WritingEnds(v: Vendor, slave: nat, start: seq<Event>, frames: seq<seq<byte>>, staged: seq<byte>,
                    log: seq<Event>, sent: seq<seq<byte>>, buffer: seq<byte>)
    requires Writing(v, slave, start, frames, staged, log, sent, [], buffer)
    ensures var total := WriteSession(v, start, slave, frames);
      && log == start + total.events
      && total.done
      && buffer == StagedAll(staged, frames[..|total.events|])
  {
    var total := WriteSession(v, start, slave, frames);
    assert sent == frames && log == start + total.events;
    assert frames[..|total.events|] == sent;
  }

  /** One turn of the paged writer's loop: the next frame is the page at the loop's
      position; after a failed write the session is over, after an accepted one the
      state moves one page on. */
  lemma WritingStep(v: Vendor, slave: nat, start: seq<Event>, frames: seq<seq<byte>>, staged: seq<byte>,
                    log: seq<Event>, sent: seq<seq<byte>>, buffer: seq<byte>,
                    src: seq<byte>, addressLength: nat, pageSize: nat, address: nat, offset: nat, length: nat, l: nat,
                    log': seq<Event>, buffer': seq<byte>, address': nat, offset': nat, length': nat)
    requires addressLength == 1 || addressLength == 2
    requires pageSize >= 1 && offset + length <= |src| && length > 0
    requires l == Min(length, pageSize)
    requires Writing(v, slave, start, frames, staged, log, sent,
                     Frames(src, addressLength, pageSize, address, offset, length), buffer)
    requires var frame := Prefix(address, addressLength) + src[offset..offset + l];
      log' == log + [Wrote(slave, frame, v.write(log, slave, frame))] && buffer' == Stage(buffer, frame)
    requires address' == address + l && offset' == offset + l && length' == length - l
    ensures var frame := Prefix(address, addressLength) + src[offset..offset + l];
      var e := Wrote(slave, frame, v.write(log, slave, frame));
      var total := WriteSession(v, start, slave, frames);
      && (!Accepted(e) ==>
            && log' == start + total.events
            && !total.done
            && buffer' == StagedAll(staged, frames[..|total.events|]))
      && (Accepted(e) ==>
            Writing(v, slave, start, frames, staged, log', sent + [frame],
                    Frames(src, addressLength, pageSize, address', offset', length'), buffer'))
  {
    var rest := Frames(src, addressLength, pageSize, address, offset, length);
    FramesStep(src, addressLength, pageSize, address, offset, length, l);
    SessionAdvance(v, slave, start, frames, staged, log, sent, rest, buffer, log', buffer');
  }

  /** The same turn for any remaining frames: the first of them goes out. */
  lemma SessionAdvance(v: Vendor, slave: nat, start: seq<Event>, frames: seq<seq<byte>>, staged: seq<byte>,
                       log: seq<Event>, sent: seq<seq<byte>>, rest: seq<seq<byte>>, buffer: seq<byte>,
                       log': seq<Event>, buffer': seq<byte>)
    requires rest != []
    requires Writing(v, slave, start, frames, staged, log, sent, rest, buffer)
    requires log' == log + [Wrote(slave, rest[0], v.write(log, slave, rest[0]))] && buffer' == Stage(buffer, rest[0])
    ensures var e := Wrote(slave, rest[0], v.write(log, slave, rest[0]));
      var total := WriteSession(v, start, slave, frames);
      && (!Accepted(e) ==>
            && log' == start + total.events
            && !total.done
            && buffer' == StagedAll(staged, frames[..|total.events|]))
      && (Accepted(e) ==> Writing(v, slave, start, frames, staged, log', sent + [rest[0]], rest[1..], buffer'))
  {
    var frame, tail := rest[0], rest[1..];
    var total := WriteSession(v, start, slave, frames);
    SessionStep(v, log, slave, rest, start + total.events);
    StagedSnoc(staged, sent, frame);
    HeadTail(rest);
    AppendAssoc(sent, [frame], tail);
    var e := Wrote(slave, frame, v.write(log, slave, frame));
    if !Accepted(e) {
      assert |total.events| == |sent| + 1;
      assert frames[..|sent| + 1] == sent + [frame];
    }
  }

  /** Building one more frame stages it over what the earlier frames left. */
  lemma StagedSnoc(buffer: seq<byte>, frames: seq<seq<byte>>, frame: seq<byte>)
    ensures StagedAll(buffer, frames + [frame]) == Stage(StagedAll(buffer, frames), frame)
  {
    assert (frames + [frame])[..|frames|] == frames;
  }

  /** How one page write moves the loop's view of the session: after a failure the
      session is over, after an accepted write the rest of it is the session of the
      remaining frames. */
  lemma SessionStep(v: Vendor, log: seq<Event>, slave: nat, frames: seq<seq<byte>>, whole: seq<Event>)
    requires frames != []
    requires log + WriteSession(v, log, slave, frames).events == whole
    ensures var e := Wrote(slave, frames[0], v.write(log, slave, frames[0]));
      var r := WriteSession(v, log, slave, frames);
      var rest := WriteSession(v, log + [e], slave, frames[1..]);
      && (!Accepted(e) ==> log + [e] == whole && |r.events| == 1 && !r.done)
      && (Accepted(e) ==> (log + [e]) + rest.events == whole && rest.done == r.done)
  {
    SessionUnfold(v, log, slave, frames);
    var e := Wrote(slave, frames[0], v.write(log, slave, frames[0]));
    if Accepted(e) {
      var rest := WriteSession(v, log + [e], slave, frames[1..]);
      AppendAssoc(log, [e], rest.events);
    }
  }

  lemma HeadTail<T>(s: seq<T>)
    requires s != []
    ensures s == [s[0]] + s[1..]
  {
  }
}
