/** What a console shows after a stream of text: the last rows of the text laid out at
    the console's width.
 */
module Scrollback {
  import opened Words
  import opened Terminal

  type Text = seq<word>

  predicate IsText(s: Text) {
    forall i :: 0 <= i < |s| ==> s[i] >= SPACE || s[i] == NEWLINE
  }

  // ----- laying out -----

  /** The text cut at its newlines. */
  function Lines(s: Text): (ls: seq<Text>)
    ensures ls != []
  {
    if s == [] then [[]] else
    var (ls, c) := (Lines(s[..|s| - 1]), s[|s| - 1]);
    if c == NEWLINE then ls + [[]] else ls[..|ls| - 1] + [ls[|ls| - 1] + [c]]
  }

  function Glyphs(line: Text, a: nat): (r: Row)
    ensures |r| == |line|
  {
    seq(|line|, i requires 0 <= i < |line| => Glyph(line[i], a))
  }

  /** A row that shows fewer characters than it has columns. */
  function Padded(line: Text, w: nat, a: nat): Row
    requires |line| <= w
  {
    Glyphs(line, a) + Blank(w - |line|, a)
  }

  /** One line in rows of w characters.  Wrapping is eager: a line that fills its last row
      is followed by an empty one. */
  function RowsOf(line: Text, w: nat, a: nat): seq<Row>
    requires w > 0
    decreases |line|
  {
    if |line| < w then [Padded(line, w, a)] else [Glyphs(line[..w], a)] + RowsOf(line[w..], w, a)
  }

  function Layout(ls: seq<Text>, w: nat, a: nat): seq<Row>
    requires w > 0
  {
    if ls == [] then [] else Layout(ls[..|ls| - 1], w, a) + RowsOf(ls[|ls| - 1], w, a)
  }

  /** The last h rows, with blank rows below if there are fewer. */
  function Visible(rows: seq<Row>, w: nat, h: nat, a: nat): seq<Row> {
    if |rows| <= h then rows + BlankRows(h - |rows|, w, a) else rows[|rows| - h..]
  }

  // ----- running -----

  function PutAll(t: Term, s: Text, w: nat, h: nat): (t': Term)
    requires Sized(t, w, h) && w % 8 == 0
    ensures Sized(t', w, h)
  {
    if s == [] then t else
    var p := PutAll(t, s[..|s| - 1], w, h);
    PutSized(p, s[|s| - 1], w, h);
    Put(p, s[|s| - 1], w, h)
  }

  /** A console just cleared, outside any escape sequence. */
  predicate Cleared(t: Term, w: nat, h: nat, a: nat) {
    t.rows == BlankRows(h, w, a) && t.x == t.y == 0 && t.attrib == a && t.esc == 0
  }

  // ----- the rows of a growing line -----

  function Full(line: Text, w: nat, a: nat): seq<Row>
    requires w > 0
    decreases |line|
  {
    if |line| < w then [] else [Glyphs(line[..w], a)] + Full(line[w..], w, a)
  }

  function Rest(line: Text, w: nat): (r: Text)
    requires w > 0
    ensures |r| < w
    decreases |line|
  {
    if |line| < w then line else Rest(line[w..], w)
  }

  lemma {:induction false} RowsOfParts(line: Text, w: nat, a: nat)
    requires w > 0
    ensures RowsOf(line, w, a) == Full(line, w, a) + [Padded(Rest(line, w), w, a)]
    decreases |line|
  {
    if |line| >= w {
      RowsOfParts(line[w..], w, a);
    }
  }

  lemma {:induction false} Grow(line: Text, c: word, w: nat, a: nat)
    requires w > 0
    ensures var r := Rest(line, w) + [c];
      if |r| < w then Rest(line + [c], w) == r && Full(line + [c], w, a) == Full(line, w, a)
      else Rest(line + [c], w) == [] && Full(line + [c], w, a) == Full(line, w, a) + [Glyphs(r, a)]
    decreases |line|
  {
    var t := line + [c];
    if |line| >= w {
      assert t[..w] == line[..w] && t[w..] == line[w..] + [c];
      Grow(line[w..], c, w, a);
    } else if |line| + 1 == w {
      assert t[..w] == t && t[w..] == [];
    }
  }

  /** The rows above the current one, and what the current one shows. */
  function Above(s: Text, w: nat, a: nat): seq<Row>
    requires w > 0
  {
    var ls := Lines(s);
    Layout(ls[..|ls| - 1], w, a) + Full(ls[|ls| - 1], w, a)
  }

  function Shown(s: Text, w: nat): (r: Text)
    requires w > 0
    ensures |r| < w
  {
    Rest(Lines(s)[|Lines(s)| - 1], w)
  }

  lemma LayoutParts(s: Text, w: nat, a: nat)
    requires w > 0
    ensures Layout(Lines(s), w, a) == Above(s, w, a) + [Padded(Shown(s, w), w, a)]
  {
    RowsOfParts(Lines(s)[|Lines(s)| - 1], w, a);
  }

  /** A newline finishes the current row. */
  lemma AfterNewline(s: Text, w: nat, a: nat)
    requires w > 0
    ensures Above(s + [NEWLINE], w, a) == Above(s, w, a) + [Padded(Shown(s, w), w, a)] && Shown(s + [NEWLINE], w) == []
  {
    assert (s + [NEWLINE])[..|s|] == s;
    assert (Lines(s) + [[]])[..|Lines(s)|] == Lines(s);
    LayoutParts(s, w, a);
  }

  /** A character extends the current row, and finishes it when it is full. */
  lemma AfterChar(s: Text, c: word, w: nat, a: nat)
    requires w > 0 && c != NEWLINE
    ensures var r := Shown(s, w) + [c];
      if |r| < w then Shown(s + [c], w) == r && Above(s + [c], w, a) == Above(s, w, a)
      else Shown(s + [c], w) == [] && Above(s + [c], w, a) == Above(s, w, a) + [Glyphs(r, a)]
  {
    assert (s + [c])[..|s|] == s;
    var ls := Lines(s);
    var ls' := Lines(s + [c]);
    assert ls'[..|ls'| - 1] == ls[..|ls| - 1] && ls'[|ls'| - 1] == ls[|ls| - 1] + [c];
    Grow(ls[|ls| - 1], c, w, a);
  }

  // ----- the visible part -----

  function Bottom(n: nat, h: nat): nat
    requires n > 0 && h > 0
  {
    if n < h then n - 1 else h - 1
  }

  /** Starting a new row below a visible page. */
  lemma VisibleSnoc(rows: seq<Row>, w: nat, h: nat, a: nat)
    requires rows != [] && h > 0
    ensures var v := Visible(rows, w, h, a);
      Visible(rows + [Blank(w, a)], w, h, a) == if |rows| < h then v else v[1..] + [Blank(w, a)]
  {
  }

  /** Rewriting the current row of a visible page. */
  lemma VisibleCurrent(above: seq<Row>, row: Row, row': Row, w: nat, h: nat, a: nat)
    requires h > 0
    ensures var v := Visible(above + [row], w, h, a); var y := Bottom(|above| + 1, h);
      |v| == h && v[y] == row && Visible(above + [row'], w, h, a) == v[y := row']
  {
  }

  lemma PaddedGrow(line: Text, c: word, w: nat, a: nat)
    requires |line| < w
    ensures var p := Padded(line, w, a);
      p[..|line|] + [Glyph(c, a)] + p[|line| + 1..] == if |line| + 1 < w then Padded(line + [c], w, a) else Glyphs(line + [c], a)
  {
  }

  lemma VisibleBlank(w: nat, h: nat, a: nat)
    requires h > 0
    ensures Visible([Blank(w, a)], w, h, a) == BlankRows(h, w, a)
  {
    assert [Blank(w, a)] + BlankRows(h - 1, w, a) == BlankRows(h, w, a);
  }

  lemma PaddedNone(w: nat, a: nat)
    ensures Padded([], w, a) == Blank(w, a)
  {
  }

  /** The console shows the laid out text so far. */
  ghost predicate Shows(t: Term, s: Text, w: nat, h: nat, a: nat)
    requires w > 0 && h > 0
  {
    var above := Above(s, w, a);
    t == Term(Visible(above + [Padded(Shown(s, w), w, a)], w, h, a), |Shown(s, w)|, Bottom(|above| + 1, h), a, 0, t.esc1, t.esc2, t.esc3)
  }

  lemma PutText(t: Term, c: word, w: nat, h: nat)
    requires Sized(t, w, h) && w % 8 == 0 && t.esc == 0 && (c >= SPACE || c == NEWLINE)
    ensures Put(t, c, w, h) == if c == NEWLINE then LineFeed(t, w, h)
      else Settle(t.(x := t.x + 1, rows := Overwrite(t.rows, t.y, t.x, [Glyph(c, t.attrib)])), w, h)
  {
  }

  lemma NewlineShows(t: Term, s: Text, w: nat, h: nat, a: nat)
    requires Sized(t, w, h) && w % 8 == 0 && Shows(t, s, w, h, a)
    ensures Shows(Put(t, NEWLINE, w, h), s + [NEWLINE], w, h, a)
  {
    hide Put, Above, Shown, Visible, Padded, Lines;
    PutText(t, NEWLINE, w, h);
    AfterNewline(s, w, a);
    PaddedNone(w, a);
    var rows := Above(s, w, a) + [Padded(Shown(s, w), w, a)];
    VisibleSnoc(rows, w, h, a);
  }

  lemma CharShows(t: Term, s: Text, c: word, w: nat, h: nat, a: nat)
    requires Sized(t, w, h) && w % 8 == 0 && c >= SPACE && Shows(t, s, w, h, a)
    ensures Shows(Put(t, c, w, h), s + [c], w, h, a)
  {
    hide Put, Above, Shown, Visible, Padded, Glyphs, Glyph, Lines, Blank;
    PutText(t, c, w, h);
    AfterChar(s, c, w, a);
    PaddedNone(w, a);
    var (above, r) := (Above(s, w, a), Shown(s, w));
    PaddedGrow(r, c, w, a);
    var row' := if |r| + 1 < w then Padded(r + [c], w, a) else Glyphs(r + [c], a);
    VisibleCurrent(above, Padded(r, w, a), row', w, h, a);
    if |r| + 1 >= w {
      VisibleSnoc(above + [row'], w, h, a);
    }
  }

  /** From a cleared console, after any text, the window is exactly the last h rows of the
      text laid out at width w. */
  lemma {:induction false} ScrollbackTheorem(t: Term, s: Text, w: nat, h: nat, a: nat)
    requires w > 0 && h > 0 && w % 8 == 0 && a < 0x80 && IsText(s) && Cleared(t, w, h, a)
    ensures Sized(t, w, h) && Shows(PutAll(t, s, w, h), s, w, h, a)
    ensures var t' := PutAll(t, s, w, h);
      && t'.rows == Visible(Layout(Lines(s), w, a), w, h, a)
      && t'.y == Bottom(|Layout(Lines(s), w, a)|, h) && t'.x == |Shown(s, w)| && t'.attrib == a && t'.esc == 0
    decreases |s|
  {
    assert Sized(t, w, h);
    hide Put, Visible, Padded, Blank;
    LayoutParts(s, w, a);
    if s == [] {
      VisibleBlank(w, h, a);
      PaddedNone(w, a);
      assert Shown([], w) == [] && Above([], w, a) + [Padded([], w, a)] == [Blank(w, a)];
    } else {
      var (p, c) := (s[..|s| - 1], s[|s| - 1]);
      ScrollbackTheorem(t, p, w, h, a);
      assert s == p + [c];
      if c == NEWLINE {
        NewlineShows(PutAll(t, p, w, h), p, w, h, a);
      } else {
        CharShows(PutAll(t, p, w, h), p, c, w, h, a);
      }
    }
  }
}
