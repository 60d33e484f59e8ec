/** The 16-column layout shared by the hex dump and the scan grid: the items are
    cut into rows of 16, and row k carries the tag k * step. */
module Layout {

  datatype Row<T> = Row(tag: nat, items: seq<T>)

  function Min(a: int, b: int): (m: int)
    ensures m <= a && m <= b && (m == a || m == b)
  {
    if a <= b then a else b
  }

  /** The rows the items of `s` fill, 16 to a row. */
  function Grid<T>(s: seq<T>, step: nat): (rows: seq<Row<T>>)
    ensures |rows| == (|s| + 15) / 16
    ensures forall k :: 0 <= k < |rows| ==> 16 * k < |s| && rows[k].tag == k * step
    ensures forall k :: 0 <= k < |rows| ==> rows[k].items == s[16 * k .. Min(16 * k + 16, |s|)]
  {
    seq((|s| + 15) / 16, k requires 0 <= k < (|s| + 15) / 16 => Row(k * step, s[16 * k .. Min(16 * k + 16, |s|)]))
  }

  /** `rows` with `x` added at the end of its last row. */
  function Extend<T>(rows: seq<Row<T>>, x: T): (r: seq<Row<T>>)
    requires rows != []
  {
    rows[..|rows| - 1] + [rows[|rows| - 1].(items := rows[|rows| - 1].items + [x])]
  }

  /** Opening an empty row and extending it is the same as adding a one-item row. */
  lemma ExtendNewRow<T>(rows: seq<Row<T>>, tag: nat, x: T)
    ensures Extend(rows + [Row(tag, [])], x) == rows + [Row(tag, [x])]
  {
    var r := rows + [Row(tag, [])];
    assert r[..|r| - 1] == rows && [] + [x] == [x];
  }

  /** All the items of `rows`, in order. */
  function Items<T>(rows: seq<Row<T>>): seq<T>
  {
    if rows == [] then [] else Items(rows[..|rows| - 1]) + rows[|rows| - 1].items
  }

  /** How the row count and the last row's end move when one item is added. */
  lemma RowArithmetic(n: nat)
    ensures n % 16 == 0 ==> (n + 16) / 16 == (n + 15) / 16 + 1 && n / 16 == (n + 15) / 16
    ensures n % 16 != 0 ==> (n + 16) / 16 == (n + 15) / 16 && 16 * ((n + 15) / 16) >= n + 1
    ensures n % 16 != 0 ==> n > 16 * ((n + 15) / 16 - 1)
  {
    var q, r := n / 16, n % 16;
    assert n == 16 * q + r && 0 <= r < 16;
    if r == 0 {
      assert n + 15 == 16 * q + 15;
      assert n + 16 == 16 * (q + 1);
    } else {
      assert n + 15 == 16 * (q + 1) + (r - 1);
      assert n + 16 == 16 * (q + 1) + r;
    }
  }

  /** One more item either opens a new row (exactly when the count so far is a
      multiple of 16, tagged like the next row) or joins the last row. */
  lemma GridSnoc<T>(s: seq<T>, x: T, step: nat)
    ensures |s| % 16 == 0 ==> Grid(s + [x], step) == Grid(s, step) + [Row(|s| / 16 * step, [x])]
    ensures |s| % 16 != 0 ==> Grid(s, step) != [] && Grid(s + [x], step) == Extend(Grid(s, step), x)
  {
    var t := s + [x];
    var g, g' := Grid(s, step), Grid(t, step);
    RowArithmetic(|s|);
    if |s| % 16 == 0 {
      assert |g'| == |g| + 1;
      forall k | 0 <= k < |g|
        ensures g'[k] == g[k]
      {
        EarlyRowUnchanged(s, x, k);
      }
      assert g'[|g|].items == [x];
      assert g' == g + [Row(|s| / 16 * step, [x])];
    } else {
      assert |g'| == |g| && |g| > 0;
      var n := |g| - 1;
      forall k | 0 <= k < n
        ensures g'[k] == g[k]
      {
        EarlyRowUnchanged(s, x, k);
      }
      assert Min(16 * n + 16, |t|) == |t| && Min(16 * n + 16, |s|) == |s|;
      assert g'[n].items == g[n].items + [x];
      assert g' == Extend(g, x);
    }
  }

  /** A row that ends before the new item is the same slice of the longer sequence. */
  lemma EarlyRowUnchanged<T>(s: seq<T>, x: T, k: nat)
    requires 16 * k + 16 <= |s|
    ensures (s + [x])[16 * k .. Min(16 * k + 16, |s| + 1)] == s[16 * k .. Min(16 * k + 16, |s|)]
  {
  }

  lemma ItemsOfAppend<T>(rows: seq<Row<T>>, r: Row<T>)
    ensures Items(rows + [r]) == Items(rows) + r.items
  {
    assert (rows + [r])[..|rows|] == rows;
  }

  lemma ItemsOfExtend<T>(rows: seq<Row<T>>, x: T)
    requires rows != []
    ensures Items(Extend(rows, x)) == Items(rows) + [x]
  {
    var init, last := rows[..|rows| - 1], rows[|rows| - 1];
    ItemsOfAppend(init, last.(items := last.items + [x]));
    assert rows == init + [last];
    ItemsOfAppend(init, last);
  }

  /** Every item appears exactly once, in order: concatenating the rows gives back `s`. */
  lemma {:induction false} GridItems<T>(s: seq<T>, step: nat)
    ensures Items(Grid(s, step)) == s
  {
    if s != [] {
      var s0, x := s[..|s| - 1], s[|s| - 1];
      assert s == s0 + [x];
      GridItems(s0, step);
      GridItemsSnoc(s0, x, step);
    }
  }

  lemma GridItemsSnoc<T>(s: seq<T>, x: T, step: nat)
    requires Items(Grid(s, step)) == s
    ensures Items(Grid(s + [x], step)) == s + [x]
  {
    GridSnoc(s, x, step);
    if |s| % 16 == 0 {
      ItemsOfAppend(Grid(s, step), Row(|s| / 16 * step, [x]));
    } else {
      ItemsOfExtend(Grid(s, step), x);
    }
  }

  /** Every row is full except perhaps the last, which is never empty. */
  lemma GridRowsFull<T>(s: seq<T>, step: nat)
    ensures var g := Grid(s, step);
      && (forall k :: 0 <= k < |g| - 1 ==> |g[k].items| == 16)
      && (g != [] ==> 1 <= |g[|g| - 1].items| <= 16)
  {
  }

  /** Regrouping a concatenation of three sequences. */
  lemma AppendAssoc<T>(a: seq<T>, b: seq<T>, c: seq<T>)
    ensures (a + b) + c == a + (b + c)
  {
  }
}
