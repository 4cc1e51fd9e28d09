/** A rectangle of cells stored row after row: what stores and block moves on the flat
    sequence do to its rows.
 */
module Grid {
  import opened Terminal

  function Rows(flat: seq<cell>, w: nat, h: nat): (r: seq<Row>)
    requires |flat| == w * h
    ensures |r| == h && forall i :: 0 <= i < h ==> |r[i]| == w
    decreases h
  {
    if h == 0 then [] else
    TailSize(w, h);
    [flat[..w]] + Rows(flat[w..], w, h - 1)
  }

  lemma TailSize(w: nat, h: nat)
    requires h > 0
    ensures w <= w * h && w * h - w == w * (h - 1)
  {
  }

  lemma RowStart(w: nat, y: nat, h: nat)
    requires y < h
    ensures y * w + w <= w * h
  {
    assert y + 1 <= h;
    assert (y + 1) * w <= h * w;
  }

  /** Storing one cell changes one cell of one row. */
  lemma {:induction false} RowsStore(flat: seq<cell>, w: nat, h: nat, y: nat, x: nat, v: cell)
    requires |flat| == w * h && y < h && x < w
    ensures y * w + x < |flat|
    ensures Rows(flat[y * w + x := v], w, h) == Overwrite(Rows(flat, w, h), y, x, [v])
    decreases h
  {
    RowStart(w, y, h);
    TailSize(w, h);
    var flat' := flat[y * w + x := v];
    if y == 0 {
      assert flat'[w..] == flat[w..];
      assert flat'[..w] == flat[..w][..x] + [v] + flat[..w][x + 1..];
    } else {
      assert (y - 1) * w == y * w - w;
      RowsStore(flat[w..], w, h - 1, y - 1, x, v);
      assert flat'[w..] == flat[w..][(y - 1) * w + x := v];
      assert flat'[..w] == flat[..w];
    }
  }

  lemma {:induction false} RowsSnoc(flat: seq<cell>, w: nat, h: nat, last: Row)
    requires |flat| == w * h && |last| == w
    ensures |flat + last| == w * (h + 1)
    ensures Rows(flat + last, w, h + 1) == Rows(flat, w, h) + [last]
    decreases h
  {
    if h == 0 {
      assert flat + last == last;
      assert last[..w] == last;
    } else {
      TailSize(w, h);
      assert (flat + last)[..w] == flat[..w];
      assert (flat + last)[w..] == flat[w..] + last;
      RowsSnoc(flat[w..], w, h - 1, last);
    }
  }

  /** Moving everything up one row and filling the last one. */
  lemma RowsScroll(flat: seq<cell>, w: nat, h: nat, last: Row)
    requires |flat| == w * h && |last| == w && h > 0
    ensures w <= |flat| && |flat[w..] + last| == w * h
    ensures Rows(flat[w..] + last, w, h) == Rows(flat, w, h)[1..] + [last]
  {
    TailSize(w, h);
    RowsSnoc(flat[w..], w, h - 1, last);
  }

  lemma {:induction false} RowsFill(n: nat, w: nat, h: nat, a: nat)
    requires n == w * h
    ensures Rows(Blank(n, a), w, h) == BlankRows(h, w, a)
    decreases h
  {
    if h > 0 {
      TailSize(w, h);
      assert Blank(n, a)[..w] == Blank(w, a);
      assert Blank(n, a)[w..] == Blank(n - w, a);
      RowsFill(n - w, w, h - 1, a);
    }
  }

  lemma OverwriteNone(rows: seq<Row>, y: nat, x: nat)
    requires y < |rows| && x <= |rows[y]|
    ensures Overwrite(rows, y, x, []) == rows
  {
    assert rows[y][..x] + [] + rows[y][x..] == rows[y];
  }

  /** Blanking cells one by one. */
  lemma OverwriteSnoc(rows: seq<Row>, y: nat, x: nat, cells: Row, v: cell)
    requires y < |rows| && x + |cells| + 1 <= |rows[y]|
    ensures Overwrite(Overwrite(rows, y, x, cells), y, x + |cells|, [v]) == Overwrite(rows, y, x, cells + [v])
  {
    var mid := Overwrite(rows, y, x, cells);
    assert mid[y][..x + |cells|] == rows[y][..x] + cells;
    assert mid[y][x + |cells| + 1..] == rows[y][x + |cells| + 1..];
    assert rows[y][..x] + cells + [v] == rows[y][..x] + (cells + [v]);
  }
}
