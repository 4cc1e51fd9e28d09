/** What each control character and each end of an escape sequence does, cell by cell.

    The screen is read as the character and attribute of the cell in row i, column j; a blank
    is a space in the console's attribute.
 */
module Controls {
  import opened Words
  import opened Terminal

  /** A character and an attribute in one cell. */
  function CellOf(c: nat, attrib: nat): nat {
    c + 0x100 * attrib
  }

  lemma BlankCells(n: nat, attrib: nat)
    requires attrib < 0x80
    ensures forall k :: 0 <= k < n ==> Blank(n, attrib)[k] as int == CellOf(' ' as int, attrib)
  {
    assert Glyph(SPACE, attrib) as int == CellOf(' ' as int, attrib);
  }

  /** Rows r are those of t, except that from row y, column a to column b they show cell v. */
  ghost predicate RowsButFor(t: Term, r: seq<Row>, y: nat, a: nat, b: nat, v: nat) {
    && |r| == |t.rows|
    && (forall i :: 0 <= i < |r| ==> |r[i]| == |t.rows[i]|)
    && (forall i, j :: 0 <= i < |r| && 0 <= j < |r[i]| ==>
          r[i][j] as int == if i == y && a <= j < b then v else t.rows[i][j])
  }

  /** Every row is w wide. */
  predicate Wide(rows: seq<Row>, w: nat) {
    forall i :: 0 <= i < |rows| ==> |rows[i]| == w
  }

  /** The same, moved up by one row, with a blank row at the bottom. */
  ghost predicate RowsMovedUp(t: Term, r: seq<Row>, w: nat, y: nat, a: nat, b: nat, v: nat) {
    && |r| == |t.rows| > 0 && Wide(r, w) && Wide(t.rows, w)
    && (forall i, j :: 0 <= i < |r| && 0 <= j < w ==>
          r[i][j] as int == if i + 1 == |r| then CellOf(' ' as int, t.attrib)
                            else if i + 1 == y && a <= j < b then v else t.rows[i + 1][j])
  }

  /** The cursor goes to column x of row y, or to the start of the next row from the right edge,
      and the screen scrolls below the last row. */
  ghost predicate Advanced(t: Term, r: Term, w: nat, h: nat, a: nat, b: nat, v: nat)
    requires h > 0
  {
    && r == t.(esc := 0, x := r.x, y := r.y, rows := r.rows)
    && r.x == (if b == w then 0 else b) && r.y == (if b == w && t.y + 1 < h then t.y + 1 else t.y)
    && if b == w && t.y + 1 == h then RowsMovedUp(t, r.rows, w, t.y, a, b, v) else RowsButFor(t, r.rows, t.y, a, b, v)
  }

  lemma OverwriteShows(t: Term, x: nat, cells: Row, v: nat, w: nat, h: nat)
    requires Sized(t, w, h) && x + |cells| <= w && forall k :: 0 <= k < |cells| ==> cells[k] as int == v
    ensures RowsButFor(t, Overwrite(t.rows, t.y, x, cells), t.y, x, x + |cells|, v)
  {
  }

  /** Writing cells at the cursor and moving behind them. */
  lemma WriteAdvances(t: Term, cells: Row, v: nat, w: nat, h: nat)
    requires Sized(t, w, h) && 0 < |cells| && t.x + |cells| <= w
    requires forall k :: 0 <= k < |cells| ==> cells[k] as int == v
    ensures Advanced(t, Settle(t.(esc := 0, x := t.x + |cells|, rows := Overwrite(t.rows, t.y, t.x, cells)), w, h),
                     w, h, t.x, t.x + |cells|, v)
  {
    var b := t.x + |cells|;
    var rows := Overwrite(t.rows, t.y, t.x, cells);
    OverwriteShows(t, t.x, cells, v, w, h);
    BlankCells(w, t.attrib);
    hide Overwrite, Blank;
    if b == w && t.y + 1 == h {
      var r := rows[1..] + [Blank(w, t.attrib)];
      assert forall i :: 0 <= i < h - 1 ==> r[i] == rows[i + 1];
    }
  }

  /** Backspace blanks the cell left of the cursor and goes there; in column 0 it does nothing. */
  lemma BackspaceErases(t: Term, w: nat, h: nat)
    requires Sized(t, w, h) && w % 8 == 0 && t.esc <= 1
    ensures var r := Put(t, 0x08, w, h);
      && r == t.(esc := 0, x := if t.x > 0 then t.x - 1 else 0, rows := r.rows)
      && (t.x == 0 ==> r.rows == t.rows)
      && (t.x > 0 ==> RowsButFor(t, r.rows, t.y, t.x - 1, t.x, CellOf(' ' as int, t.attrib)))
  {
    if t.x > 0 {
      BlankCells(1, t.attrib);
      OverwriteShows(t, t.x - 1, Blank(1, t.attrib), CellOf(' ' as int, t.attrib), w, h);
    }
  }

  /** Carriage return goes to column 0 and changes no cell. */
  lemma ReturnGoesHome(t: Term, w: nat, h: nat)
    requires Sized(t, w, h) && w % 8 == 0 && t.esc <= 1
    ensures Put(t, 0x0D, w, h) == t.(esc := 0, x := 0)
  {
  }

  /** Tab blanks from the cursor to the next column that is a multiple of 8 and goes there. */
  lemma TabBlanks(t: Term, w: nat, h: nat) returns (b: nat)
    requires Sized(t, w, h) && w % 8 == 0 && t.esc <= 1
    ensures t.x < b <= t.x + 8 && b % 8 == 0 && b <= w
    ensures Advanced(t, Put(t, 0x09, w, h), w, h, t.x, b, CellOf(' ' as int, t.attrib))
  {
    TabFitsIff(w);
    b := NextTab(t.x);
    BlankCells(b - t.x, t.attrib);
    WriteAdvances(t, Blank(b - t.x, t.attrib), CellOf(' ' as int, t.attrib), w, h);
  }

  /** Any other character is shown, below 0x80 in the console's attribute. */
  lemma PrintableShows(t: Term, c: byte, w: nat, h: nat)
    requires Sized(t, w, h) && w % 8 == 0 && t.esc <= 1 && 0x20 <= c && (t.esc == 1 ==> c != '[' as int)
    ensures Advanced(t, Put(t, SignExtend(c), w, h), w, h, t.x, t.x + 1, if c < 0x80 then CellOf(c, t.attrib) else CellOf(c, 0xFF))
  {
    GlyphKeepsIff(c, t.attrib);
    WriteAdvances(t, [Glyph(SignExtend(c), t.attrib)], if c < 0x80 then CellOf(c, t.attrib) else CellOf(c, 0xFF), w, h);
  }

  /** Newline goes to the start of the next row, and below the last row scrolls. */
  lemma NewlineAdvances(t: Term, w: nat, h: nat)
    requires Sized(t, w, h) && w % 8 == 0 && t.esc <= 1
    ensures var r := Put(t, 0x0A, w, h);
      && r == t.(esc := 0, x := 0, y := if t.y + 1 < h then t.y + 1 else t.y, rows := r.rows)
      && (t.y + 1 < h ==> r.rows == t.rows) && (t.y + 1 == h ==> RowsMovedUp(t, r.rows, w, 0, 0, 0, 0))
  {
    BlankCells(w, t.attrib);
    if t.y + 1 == h {
      assert forall i :: 0 <= i < h - 1 ==> (t.rows[1..] + [Blank(w, t.attrib)])[i] == t.rows[i + 1];
    }
  }

  /** Every other control character does nothing, but that ESC begins a sequence. */
  lemma OtherControls(t: Term, c: byte, w: nat, h: nat)
    requires Sized(t, w, h) && w % 8 == 0 && t.esc <= 1 && c < 0x20 && c !in {0x08, 0x09, 0x0A, 0x0D}
    ensures Put(t, c, w, h) == t.(esc := if c == 0x1B then 1 else 0)
  {
  }

  /** Within a sequence a semicolon begins the next of three parameters, and every character
      that is no digit and neither J, H nor m in its place ends the sequence and does nothing. */
  lemma SequenceEnds(t: Term, c: word, w: nat, h: nat)
    requires Sized(t, w, h) && w % 8 == 0 && 2 <= t.esc && !('0' as int <= c <= '9' as int) && c != 'm' as int
    requires !(t.esc == 2 && c == 'J' as int && t.esc1 == 2) && !(t.esc == 3 && c == 'H' as int)
    ensures Put(t, c, w, h) ==
      if c != ';' as int || t.esc == 4 then t.(esc := 0)
      else if t.esc == 2 then t.(esc := 3, esc2 := 0) else t.(esc := 4, esc3 := 0)
  {
  }

  /** ESC[2J blanks every cell and goes to the upper left corner. */
  lemma ErasesAll(t: Term, w: nat, h: nat)
    requires Sized(t, w, h) && w % 8 == 0 && t.esc == 2 && t.esc1 == 2
    ensures var r := Put(t, 'J' as int, w, h);
      && r == t.(esc := 0, x := 0, y := 0, rows := r.rows)
      && |r.rows| == h && Wide(r.rows, w)
      && (forall i, j :: 0 <= i < h && 0 <= j < w ==> r.rows[i][j] as int == CellOf(' ' as int, t.attrib))
  {
    BlankCells(w, t.attrib);
  }

  /** The cursor is moved on the screen after every character but ESC that is outside an escape
      sequence. */
  lemma CursorFollows(t: Term, c: word)
    requires t.esc <= 4
    ensures t.esc == 0 ==> (ReachesEnd(t, c) <==> c != 0x1B)
    ensures t.esc == 1 ==> (ReachesEnd(t, c) <==> c != 0x1B && c != '[' as int)
    ensures t.esc >= 2 ==> !ReachesEnd(t, c)
  {
  }
}
