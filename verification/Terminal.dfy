/** The console of video.c as a terminal on a grid of rows.

    `Put` is one character; the sequences are the subset of ECMA-48 that the console
    knows: cursor position (section 8.3.21, here counted from zero), erase in page
    (section 8.3.39) and select graphic rendition (section 8.3.117).
 */
module Terminal {
  import opened Words

  /** A screen cell: attribute byte above character byte. */
  type cell = x: int | 0 <= x < 0x1_0000

  type Row = seq<cell>

  datatype Term = Term(rows: seq<Row>, x: nat, y: nat, attrib: nat, esc: nat, esc1: word, esc2: word, esc3: word)

  const ESC: byte := 0x1B
  const BACKSPACE: byte := 0x08
  const TAB: byte := 0x09
  const NEWLINE: byte := 0x0A
  const RETURN: byte := 0x0D
  const SPACE: byte := 0x20

  /** Bitwise or. */
  function BitOr(a: nat, b: nat): nat {
    if a == 0 then b else if b == 0 then a
    else 2 * BitOr(a / 2, b / 2) + if a % 2 == 1 || b % 2 == 1 then 1 else 0
  }

  /** The low 16 bits of a character or-ed with the attribute in the second byte. */
  function Glyph(c: word, attrib: nat): cell {
    c % 0x100 + 0x100 * (BitOr(c / 0x100, attrib) % 0x100)
  }

  function Blank(n: nat, attrib: nat): (r: Row)
    ensures |r| == n
  {
    seq(n, _ => Glyph(SPACE, attrib))
  }

  function BlankRows(h: nat, w: nat, attrib: nat): (r: seq<Row>)
    ensures |r| == h
  {
    seq(h, _ => Blank(w, attrib))
  }

  function IsDigit(c: word): bool {
    '0' as int <= c <= '9' as int
  }

  /** One more decimal digit of an escape parameter, in 32-bit arithmetic. */
  function Shift(n: word, c: word): word {
    Wrap(n * 10 + c as int - '0' as int)
  }

  const ANSI_TO_VGA: seq<nat> := [0, 4, 2, 6, 1, 5, 3, 7]

  /** set_attrib. */
  function SetAttrib(a: nat, att: word): nat {
    if att == 0 then a - a / 8 % 2 * 8
    else if att == 1 then a - a / 8 % 2 * 8 + 8
    else if 30 <= att <= 37 then a - a % 8 + ANSI_TO_VGA[att - 30]
    else if 40 <= att <= 47 then a - a / 16 % 8 * 16 + ANSI_TO_VGA[att - 40] * 16
    else a
  }

  predicate Sized(t: Term, w: nat, h: nat) {
    && |t.rows| == h && (forall i :: 0 <= i < h ==> |t.rows[i]| == w)
    && t.x < w && t.y < h && t.esc <= 4 && t.attrib < 0x80
  }

  /** Writing n cells of row y from column x on. */
  function Overwrite(rows: seq<Row>, y: nat, x: nat, cells: Row): seq<Row>
    requires y < |rows| && x + |cells| <= |rows[y]|
  {
    rows[y := rows[y][..x] + cells + rows[y][x + |cells|..]]
  }

  /** Wrap at the right edge, then scroll at the bottom. */
  function Settle(t: Term, w: nat, h: nat): Term
    requires |t.rows| == h > 0 && t.y < h
  {
    var t' := if t.x >= w then t.(x := 0, y := t.y + 1) else t;
    if t'.y >= h then t'.(rows := t.rows[1..] + [Blank(w, t.attrib)], y := h - 1) else t'
  }

  function NextTab(x: nat): nat {
    (x + 8) / 8 * 8
  }

  /** Moving down from the last row scrolls. */
  function LineFeed(t: Term, w: nat, h: nat): Term
    requires |t.rows| == h > 0 && t.y < h
  {
    if t.y + 1 >= h then t.(rows := t.rows[1..] + [Blank(w, t.attrib)], x := 0, y := h - 1)
    else t.(x := 0, y := t.y + 1)
  }

  /** A character outside any escape sequence. */
  function Plain(t: Term, c: word, w: nat, h: nat): Term
    requires Sized(t, w, h) && w % 8 == 0
  {
    if c == ESC then t.(esc := 1)
    else if c == BACKSPACE then
      if t.x == 0 then t else t.(x := t.x - 1, rows := Overwrite(t.rows, t.y, t.x - 1, Blank(1, t.attrib)))
    else if c == TAB then
      Settle(t.(x := NextTab(t.x), rows := Overwrite(t.rows, t.y, t.x, Blank(NextTab(t.x) - t.x, t.attrib))), w, h)
    else if c == RETURN then t.(x := 0)
    else if c == NEWLINE then LineFeed(t, w, h)
    else if c >= SPACE then
      Settle(t.(x := t.x + 1, rows := Overwrite(t.rows, t.y, t.x, [Glyph(c, t.attrib)])), w, h)
    else t
  }

  /** putch_help. */
  function Put(t: Term, c: word, w: nat, h: nat): Term
    requires Sized(t, w, h) && w % 8 == 0
  {
    if t.esc == 1 && c == '[' as int then t.(esc := 2, esc1 := 0)
    else if t.esc == 2 then
      if IsDigit(c) then t.(esc1 := Shift(t.esc1, c))
      else if c == ';' as int then t.(esc := 3, esc2 := 0)
      else if c == 'J' as int && t.esc1 == 2 then
        t.(esc := 0, x := 0, y := 0, rows := BlankRows(h, w, t.attrib))
      else if c == 'm' as int then t.(esc := 0, attrib := SetAttrib(t.attrib, t.esc1))
      else t.(esc := 0)
    else if t.esc == 3 then
      if IsDigit(c) then t.(esc2 := Shift(t.esc2, c))
      else if c == ';' as int then t.(esc := 4, esc3 := 0)
      else if c == 'H' as int then
        t.(esc := 0, x := if t.esc2 < w then t.esc2 else t.x, y := if t.esc1 < h then t.esc1 else t.y)
      else if c == 'm' as int then t.(esc := 0, attrib := SetAttrib(SetAttrib(t.attrib, t.esc1), t.esc2))
      else t.(esc := 0)
    else if t.esc == 4 then
      if IsDigit(c) then t.(esc3 := Shift(t.esc3, c))
      else if c == 'm' as int then
        t.(esc := 0, attrib := SetAttrib(SetAttrib(SetAttrib(t.attrib, t.esc1), t.esc2), t.esc3))
      else t.(esc := 0)
    else Plain(t.(esc := 0), c, w, h)
  }

  /** putch_help goes on to its end, where the cursor is moved on the screen; it returns before
      that within an escape sequence. */
  predicate ReachesEnd(t: Term, c: word) {
    !(t.esc == 1 && c == '[' as int) && !(2 <= t.esc <= 4) && c != ESC
  }

  // ----- what the functions mean -----

  /** Colours and bold, packed as the adapter wants them. */
  datatype Rendition = Rendition(background: nat, bold: bool, foreground: nat)

  function Decode(a: nat): Rendition {
    Rendition(a / 16, a / 8 % 2 == 1, a % 8)
  }

  /** Swapping the red and blue bits of a colour. */
  function SwapRedBlue(c: nat): nat {
    c / 4 + c / 2 % 2 * 2 + c % 2 * 4
  }

  lemma Pack(b: nat, k: nat, f: nat)
    requires b < 8 && k < 2 && f < 8
    ensures var a := 16 * b + 8 * k + f;
      a < 0x80 && a / 16 == b && a / 8 % 2 == k && a % 8 == f && a / 16 % 8 == b
  {
  }

  lemma TableSwaps(c: nat)
    requires c < 8
    ensures ANSI_TO_VGA[c] == SwapRedBlue(c) < 8
  {
    assert c in [0, 1, 2, 3, 4, 5, 6, 7];
  }

  /** Select graphic rendition: 0 and 1 switch bold, 30 to 37 set the foreground, 40 to
      47 the background, with red and blue exchanged; every other number does nothing. */
  lemma SetAttribRenders(a: nat, att: word)
    requires a < 0x80
    ensures SetAttrib(a, att) < 0x80
    ensures Decode(SetAttrib(a, att)) ==
      if att <= 1 then Decode(a).(bold := att == 1)
      else if 30 <= att <= 37 then Decode(a).(foreground := SwapRedBlue(att - 30))
      else if 40 <= att <= 47 then Decode(a).(background := SwapRedBlue(att - 40))
      else Decode(a)
  {
    hide SwapRedBlue, SetAttrib;
    var (b, k, f) := (a / 16, a / 8 % 2, a % 8);
    Unpack(a);
    SetAttribPacked(b, k, f, att);
    Pack(b, k, f);
    if att <= 1 {
      Pack(b, att, f);
    } else if 30 <= att <= 37 {
      TableSwaps(att - 30);
      Pack(b, k, ANSI_TO_VGA[att - 30]);
    } else if 40 <= att <= 47 {
      TableSwaps(att - 40);
      Pack(ANSI_TO_VGA[att - 40], k, f);
    }
  }

  lemma Unpack(a: nat)
    requires a < 0x80
    ensures a / 16 < 8 && a / 8 % 2 < 2 && a % 8 < 8 && a == 16 * (a / 16) + 8 * (a / 8 % 2) + a % 8
  {
  }

  lemma SetAttribPacked(b: nat, k: nat, f: nat, att: word)
    requires b < 8 && k < 2 && f < 8
    ensures SetAttrib(16 * b + 8 * k + f, att) ==
      if att <= 1 then 16 * b + 8 * att + f
      else if 30 <= att <= 37 then 16 * b + 8 * k + ANSI_TO_VGA[att - 30]
      else if 40 <= att <= 47 then 16 * ANSI_TO_VGA[att - 40] + 8 * k + f
      else 16 * b + 8 * k + f
  {
    Pack(b, k, f);
  }

  /** Bit k of a number. */
  predicate Bit(a: nat, k: nat) {
    if k == 0 then a % 2 == 1 else Bit(a / 2, k - 1)
  }

  lemma {:induction false} NoBits(k: nat)
    ensures !Bit(0, k)
  {
    if k > 0 {
      NoBits(k - 1);
    }
  }

  /** An or has exactly the bits of both. */
  lemma {:induction false} BitOrBits(a: nat, b: nat, k: nat)
    ensures Bit(BitOr(a, b), k) <==> Bit(a, k) || Bit(b, k)
    decreases k
  {
    if a == 0 || b == 0 {
      NoBits(k);
    } else {
      var x := BitOr(a / 2, b / 2);
      var o := if a % 2 == 1 || b % 2 == 1 then 1 else 0;
      assert BitOr(a, b) == 2 * x + o && (2 * x + o) / 2 == x && (2 * x + o) % 2 == o;
      if k > 0 {
        BitOrBits(a / 2, b / 2, k - 1);
      }
    }
  }

  /** Ones in every bit. */
  function Ones(n: nat): nat {
    if n == 0 then 0 else 2 * Ones(n - 1) + 1
  }

  lemma {:induction false} OrOnes(n: nat, b: nat)
    requires b <= Ones(n)
    ensures BitOr(Ones(n), b) == Ones(n)
  {
    if n > 0 && b > 0 {
      var k := Ones(n - 1);
      assert (2 * k + 1) / 2 == k && (2 * k + 1) % 2 == 1;
      OrOnes(n - 1, b / 2);
      assert BitOr(2 * k + 1, b) == 2 * BitOr(k, b / 2) + 1;
    }
  }

  lemma Ones24()
    ensures Ones(24) == 0xFF_FFFF
  {
    assert Ones(6) == 0x3F && Ones(12) == 0xFFF && Ones(18) == 0x3_FFFF;
  }

  /** A character of a string is stored with the console's attribute if and only if it is
      below 0x80; from 0x80 on its sign bits overwrite the attribute. */
  lemma GlyphKeepsIff(c: byte, a: nat)
    requires a < 0x80
    ensures Glyph(SignExtend(c), a) == if c < 0x80 then c + 0x100 * a else c + 0xFF00
    ensures Glyph(SignExtend(c), a) / 0x100 == a <==> c < 0x80
  {
    if c >= 0x80 {
      Ones24();
      OrOnes(24, a);
    }
  }

  /** A tab stays on its row for every cursor exactly when the width is a multiple of 8. */
  lemma TabFitsIff(w: nat)
    ensures (forall x :: 0 <= x < w ==> NextTab(x) <= w) <==> w % 8 == 0
  {
    if w % 8 != 0 {
      assert NextTab(w - 1) > w;
    }
  }

  lemma SettleSized(t: Term, w: nat, h: nat)
    requires |t.rows| == h && (forall i :: 0 <= i < h ==> |t.rows[i]| == w)
    requires 0 < w && t.x <= w && t.y < h && t.esc <= 4 && t.attrib < 0x80
    ensures Sized(Settle(t, w, h), w, h)
  {
  }

  lemma PlainSized(t: Term, c: word, w: nat, h: nat)
    requires Sized(t, w, h) && w % 8 == 0
    ensures Sized(Plain(t, c, w, h), w, h)
  {
    TabFitsIff(w);
    if c == TAB {
      SettleSized(t.(x := NextTab(t.x), rows := Overwrite(t.rows, t.y, t.x, Blank(NextTab(t.x) - t.x, t.attrib))), w, h);
    } else if c >= SPACE {
      SettleSized(t.(x := t.x + 1, rows := Overwrite(t.rows, t.y, t.x, [Glyph(c, t.attrib)])), w, h);
    }
  }

  /** Every reachable state is in range, whatever characters come. */
  lemma PutSized(t: Term, c: word, w: nat, h: nat)
    requires Sized(t, w, h) && w % 8 == 0
    ensures Sized(Put(t, c, w, h), w, h)
  {
    hide Plain, SetAttrib, Glyph;
    PlainSized(t.(esc := 0), c, w, h);
    SetAttribRenders(t.attrib, t.esc1);
    SetAttribRenders(SetAttrib(t.attrib, t.esc1), t.esc2);
    SetAttribRenders(SetAttrib(SetAttrib(t.attrib, t.esc1), t.esc2), t.esc3);
  }
}
