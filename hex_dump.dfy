/** print_hex_buffer: a header of the column numbers 00..0f, then the bytes 16 to a
    row, each row tagged with its row number i/16 (not with its byte offset). */
module HexDump {
  import opened Ft4222
  import opened Layout

  datatype Dump = Dump(header: seq<nat>, rows: seq<Row<byte>>)

  /** The dump print_hex_buffer produces for `bytes`. */
  function HexDumpOf(bytes: seq<byte>): Dump
  {
    Dump(seq(16, i => i), Grid(bytes, 1))
  }

  /** What a dump shows: the 16 column numbers; ceil(n/16) rows, row k tagged k and
      holding bytes 16k .. 16k+15; every byte once and in order. */
  lemma HexDumpLayout(bytes: seq<byte>)
    ensures var d := HexDumpOf(bytes);
      && |d.header| == 16 && (forall i :: 0 <= i < 16 ==> d.header[i] == i)
      && |d.rows| == (|bytes| + 15) / 16
      && (forall k :: 0 <= k < |d.rows| ==> d.rows[k].tag == k)
      && (forall k, j :: 0 <= k < |d.rows| && 0 <= j < |d.rows[k].items| ==> d.rows[k].items[j] == bytes[16 * k + j])
      && (forall k :: 0 <= k < |d.rows| - 1 ==> |d.rows[k].items| == 16)
      && Items(d.rows) == bytes
  {
    GridItems(bytes, 1);
    GridRowsFull(bytes, 1);
  }

  /** Seventeen bytes print as two rows, the second tagged 01 and holding the last byte. */
  lemma SeventeenBytes(bytes: seq<byte>)
    requires |bytes| == 17
    ensures HexDumpOf(bytes).rows == [Row(0, bytes[..16]), Row(1, [bytes[16]])]
  {
    var g := Grid(bytes, 1);
    assert |g| == 2;
    assert g[1].items == bytes[16..17] == [bytes[16]];
  }

  /** print_hex_buffer(buffer, length) */
  method PrintHexBuffer(buffer: array<byte>, length: nat) returns (d: Dump)
    requires length <= buffer.Length
    ensures d == HexDumpOf(buffer[..length])
  {
    var header: seq<nat> := [];
    for i := 0 to 16
      invariant header == seq(i, j => j)
    {
      header := header + [i];
    }

    var rows: seq<Row<byte>> := [];
    for i := 0 to length
      invariant rows == Grid(buffer[..i], 1)
    {
      var rowNo := i / 16;
      assert buffer[..i + 1] == buffer[..i] + [buffer[i]];
      GridSnoc(buffer[..i], buffer[i], 1);
      if i % 16 == 0 {
        ExtendNewRow(rows, rowNo, buffer[i]);
        rows := rows + [Row(rowNo, [])];
      }
      rows := Extend(rows, buffer[i]);
    }
    d := Dump(header, rows);
  }
}
