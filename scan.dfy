/** i2c_scan and i2c_check: probe every 7-bit slave address, 1 to 0x7F in ascending
    order, by setting word address 0 with a 1-byte prefix, and show the answers in a
    16-column grid whose rows are tagged with their first address. */
module Scan {
  import opened Ft4222
  import opened WordAddress
  import opened Layout

  /** One grid cell: address 0 is never probed, the others show present or absent. */
  datatype Cell = Blank | Present(address: nat) | Absent

  /** Which probed slaves answered, and the library calls the probes made. */
  datatype Probes = Probes(present: seq<bool>, events: seq<Event>)

  /** i2c_check on every slave address from `from` up to 0x7F, in that order. */
  function ProbeFrom(v: Vendor, h: seq<Event>, from: nat): (r: Probes)
    requires 1 <= from <= 0x80
    ensures |r.present| == 0x80 - from
    // `h` is listed too, so that a literal `from` does not let the verifier unroll
    // every probe up to 0x7F.
    decreases 0x80 - from, h
  {
    if from == 0x80 then Probes([], [])
    else
      var s := AddressSet(v, h, from, 0, 1);
      var rest := ProbeFrom(v, h + s.events, from + 1);
      Probes([s.status == Ok] + rest.present, s.events + rest.events)
  }

  /** The first probe, then the probes after it on the history it leaves. */
  lemma ProbeCons(v: Vendor, h: seq<Event>, from: nat)
    requires 1 <= from < 0x80
    ensures var s := AddressSet(v, h, from, 0, 1);
      var rest := ProbeFrom(v, h + s.events, from + 1);
      ProbeFrom(v, h, from) == Probes([s.status == Ok] + rest.present, s.events + rest.events)
  {
  }

  /** The cells of the grid, address 0 first. */
  function Cells(present: seq<bool>): (cells: seq<Cell>)
    ensures |cells| == |present| + 1
    ensures cells[0] == Blank
    ensures forall a :: 1 <= a <= |present| ==> cells[a] == if present[a - 1] then Present(a) else Absent
  {
    [Blank] + seq(|present|, k requires 0 <= k < |present| => if present[k] then Present(k + 1) else Absent)
  }

  /** The grid i2c_scan prints. */
  function ScanGrid(present: seq<bool>): seq<Row<Cell>>
  {
    Grid(Cells(present), 16)
  }

  /** The slaves written to and the bytes sent, in order. */
  function Requests(events: seq<Event>): seq<(nat, seq<byte>)>
  {
    if events == [] then []
    else (if events[0].Wrote? then [(events[0].slave, events[0].data)] else []) + Requests(events[1..])
  }

  lemma {:induction false} RequestsOfAppend(a: seq<Event>, b: seq<Event>)
    ensures Requests(a + b) == Requests(a) + Requests(b)
  {
    if a == [] {
      assert a + b == b;
    } else {
      assert (a + b)[0] == a[0] && (a + b)[1..] == a[1..] + b;
      RequestsOfAppend(a[1..], b);
    }
  }

  /** The probe order: one prefix write per address, ascending from `from` to 0x7F,
      each sending the single byte 0. */
  lemma {:induction false} ProbeOrder(v: Vendor, h: seq<Event>, from: nat)
    requires 1 <= from <= 0x80
    ensures var rs := Requests(ProbeFrom(v, h, from).events);
      |rs| == 0x80 - from && forall k :: 0 <= k < |rs| ==> rs[k] == (from + k, [0])
    decreases 0x80 - from
  {
    if from < 0x80 {
      var s := AddressSet(v, h, from, 0, 1);
      var rest := ProbeFrom(v, h + s.events, from + 1);
      ProbeCons(v, h, from);
      ProbeOrder(v, h + s.events, from + 1);
      ProbeRequest(v, h, from);
      OrderStep(s.events, rest.events, from);
    }
  }

  /** The requests of one probe of `from` followed by those of the probes from
      from + 1 on, in order. */
  lemma OrderStep(first: seq<Event>, rest: seq<Event>, from: nat)
    requires from < 0x80
    requires Requests(first) == [(from, [0])]
    requires var rs := Requests(rest);
      |rs| == 0x80 - (from + 1) && forall k :: 0 <= k < |rs| ==> rs[k] == (from + 1 + k, [0])
    ensures var rs := Requests(first + rest);
      |rs| == 0x80 - from && forall k :: 0 <= k < |rs| ==> rs[k] == (from + k, [0])
  {
    RequestsOfAppend(first, rest);
    var all, rs := Requests(first + rest), Requests(rest);
    forall k | 0 < k < |all|
      ensures all[k] == (from + k, [0])
    {
      assert all[k] == rs[k - 1];
    }
  }

  /** A probe writes the one byte 0 to its slave, and nothing else. */
  lemma ProbeRequest(v: Vendor, h: seq<Event>, a: nat)
    ensures Requests(AddressSet(v, h, a, 0, 1).events) == [(a, [0])]
  {
    var s := AddressSet(v, h, a, 0, 1);
    AddressSetCalls(v, h, a, 0, 1);
    assert Prefix(0, 1) == [0];
    if |s.events| == 2 {
      assert s.events[1..][0].Queried? && s.events[1..][1..] == [];
      assert Requests(s.events[1..]) == [];
    } else {
      assert s.events[1..] == [];
    }
  }

  /** A bus whose library acknowledges exactly the slaves in `devices`: every write
      goes out whole, and the status query flags an address NACK when the last
      write went to a slave not in `devices`. */
  function FakeBus(devices: set<nat>): Vendor
  {
    Vendor(
      (h: seq<Event>, slave: nat, data: seq<byte>) => WriteReply(Ok, if |data| < 0x1_0000 then |data| else 0),
      (h: seq<Event>, slave: nat, count: u16) => ReadReply(Ok, []),
      (h: seq<Event>) => StatusReply(Ok, h != [] && h[|h| - 1].Wrote? && h[|h| - 1].slave !in devices, false))
  }

  /** On such a bus the scan reports a slave present exactly when it is one of `devices`. */
  lemma {:induction false} ScanFindsDevices(devices: set<nat>, h: seq<Event>, from: nat)
    requires 1 <= from <= 0x80
    ensures var present := ProbeFrom(FakeBus(devices), h, from).present;
      forall k :: 0 <= k < |present| ==> (present[k] <==> from + k in devices)
    decreases 0x80 - from
  {
    if from < 0x80 {
      var v := FakeBus(devices);
      var s := AddressSet(v, h, from, 0, 1);
      var rest := ProbeFrom(v, h + s.events, from + 1);
      ProbeCons(v, h, from);
      ScanFindsDevices(devices, h + s.events, from + 1);
      FakeProbe(devices, h, from);
      assert ProbeFrom(v, h, from).present == [s.status == Ok] + rest.present;
      PresentCons(ProbeFrom(v, h, from).present, rest.present, s.status == Ok, devices, from);
    }
  }

  lemma PresentCons(all: seq<bool>, rest: seq<bool>, first: bool, devices: set<nat>, from: nat)
    requires all == [first] + rest && (first <==> from in devices)
    requires forall k :: 0 <= k < |rest| ==> (rest[k] <==> from + 1 + k in devices)
    ensures forall k :: 0 <= k < |all| ==> (all[k] <==> from + k in devices)
  {
    forall k | 0 < k < |all|
      ensures all[k] <==> from + k in devices
    {
      assert all[k] == rest[k - 1];
    }
  }

  /** On such a bus one probe succeeds exactly when its slave is one of `devices`. */
  lemma FakeProbe(devices: set<nat>, h: seq<Event>, a: nat)
    ensures AddressSet(FakeBus(devices), h, a, 0, 1).status == Ok <==> a in devices
  {
    var v := FakeBus(devices);
    assert Prefix(0, 1) == [0];
    var sent := Wrote(a, [0], v.write(h, a, [0]));
    assert (h + [sent])[|h + [sent]| - 1] == sent;
  }

  /** Where each answer lands: address a sits in row a/16 (tagged with its first
      address, a - a%16) at column a%16, so a row break comes exactly before the
      addresses that are multiples of 16. */
  lemma ScanGridLayout(present: seq<bool>)
    requires |present| == 0x7F
    ensures var g := ScanGrid(present);
      && |g| == 8
      && g[0].items[0] == Blank
      && (forall r :: 0 <= r < 8 ==> g[r].tag == 16 * r && |g[r].items| == 16)
      && (forall a :: 1 <= a <= 0x7F ==>
            && g[a / 16].tag == a - a % 16
            && g[a / 16].items[a % 16] == if present[a - 1] then Present(a) else Absent)
  {
    var g := ScanGrid(present);
    var c := Cells(present);
    forall a | 1 <= a <= 0x7F
      ensures g[a / 16].items[a % 16] == c[a]
    {
      assert g[a / 16].items == c[16 * (a / 16) .. 16 * (a / 16) + 16];
    }
  }

  /** i2c_check(handle, address) */
  method I2cCheck(bus: Handle, address: byte) returns (present: bool)
    modifies bus
    ensures present == (AddressSet(bus.vendor, old(bus.log), address, 0, 1).status == Ok)
    ensures bus.log == old(bus.log) + AddressSet(bus.vendor, old(bus.log), address, 0, 1).events
  {
    var status := SetWordAddress(bus, address, 0, 1);
    present := status == Ok;
  }

  /** One step of i2c_scan's grid: a new row tagged `i` when i % 16 == 0, then the cell. */
  lemma GridStep(present: seq<bool>, rc: bool)
    requires |present| < 0x7F
    ensures var i := |present| + 1;
      var grid := Grid(Cells(present), 16);
      var cell := if rc then Present(i) else Absent;
      grid != [] &&
      Grid(Cells(present + [rc]), 16) == Extend(if i % 16 == 0 then grid + [Row(i, [])] else grid, cell)
  {
    var i := |present| + 1;
    var grid := Grid(Cells(present), 16);
    var cell := if rc then Present(i) else Absent;
    assert Cells(present + [rc]) == Cells(present) + [cell];
    GridSnoc(Cells(present), cell, 16);
    if i % 16 == 0 {
      assert i / 16 * 16 == i;
      ExtendNewRow(grid, i, cell);
    }
  }

  /** i2c_scan's loop state before probing slave i: the answers so far are
      `present`, the grid shows them, and the probes still to come finish the scan
      that started on history `start`. */
  ghost predicate Scanning(v: Vendor, start: seq<Event>, log: seq<Event>, present: seq<bool>, grid: seq<Row<Cell>>, i: nat)
  {
    var total := ProbeFrom(v, start, 1);
    && 1 <= i <= 0x80 && |present| == i - 1
    && grid == Grid(Cells(present), 16) && grid != []
    && log + ProbeFrom(v, log, i).events == start + total.events
    && present + ProbeFrom(v, log, i).present == total.present
  }

  lemma ScanningStarts(v: Vendor, start: seq<Event>)
    ensures Scanning(v, start, start, [], [Row(0, [Blank])], 1)
  {
    assert Cells([]) == [Blank];
    assert Grid([Blank], 16) == [Row(0, [Blank])];
  }

  /** Probing slave i and adding its cell keeps the loop state. */
  lemma ScanningStep(v: Vendor, start: seq<Event>, log: seq<Event>, present: seq<bool>, grid: seq<Row<Cell>>, i: nat,
                     log': seq<Event>, rc: bool, grid': seq<Row<Cell>>)
    requires Scanning(v, start, log, present, grid, i) && i <= 0x7F
    requires log' == log + AddressSet(v, log, i, 0, 1).events
    requires rc == (AddressSet(v, log, i, 0, 1).status == Ok)
    requires grid' == Extend(if i % 16 == 0 then grid + [Row(i, [])] else grid, if rc then Present(i) else Absent)
    ensures Scanning(v, start, log', present + [rc], grid', i + 1)
  {
    var step := AddressSet(v, log, i, 0, 1);
    var rest := ProbeFrom(v, log', i + 1);
    ProbeCons(v, log, i);
    GridStep(present, rc);
    AppendAssoc(log, step.events, rest.events);
    AppendAssoc(present, [rc], rest.present);
  }

  /** With every slave probed, the grid shows the whole scan. */
  lemma ScanningEnds(v: Vendor, start: seq<Event>, log: seq<Event>, present: seq<bool>, grid: seq<Row<Cell>>)
    requires Scanning(v, start, log, present, grid, 0x80)
    ensures log == start + ProbeFrom(v, start, 1).events
    ensures grid == ScanGrid(ProbeFrom(v, start, 1).present)
  {
    assert log + [] == log && present + [] == present;
  }

  /** i2c_scan(handle) */
  method I2cScan(bus: Handle) returns (grid: seq<Row<Cell>>)
    modifies bus
    ensures bus.log == old(bus.log) + ProbeFrom(bus.vendor, old(bus.log), 1).events
    ensures grid == ScanGrid(ProbeFrom(bus.vendor, old(bus.log), 1).present)
  {
    ghost var v, start := bus.vendor, bus.log;
    ghost var present: seq<bool> := [];
    ScanningStarts(v, start);
    grid := [Row(0, [Blank])];
    var i := 1;
    while i <= 0x7F
      invariant bus.vendor == v
      invariant Scanning(v, start, bus.log, present, grid, i)
    {
      ghost var log, grid0 := bus.log, grid;
      if i % 16 == 0 {
        grid := grid + [Row(i, [])];
      }
      var rc := I2cCheck(bus, i);
      grid := Extend(grid, if rc then Present(i) else Absent);
      ScanningStep(v, start, log, present, grid0, i, bus.log, rc, grid);
      present := present + [rc];
      i := i + 1;
    }
    ScanningEnds(v, start, bus.log, present, grid);
  }
}
