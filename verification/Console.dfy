/** video.c on the shared frame buffer: virtual consoles with their windows, the escape
    state machine, the overlapping scroll, and the cursor registers of the CRT
    controller.  `View` is a console as a terminal; `PutchHelp` is `Terminal.Put` on it.
 */
module Console {
  import opened Words
  import opened Terminal
  import opened Grid
  import opened Copying

  const FB_CELLS: nat := 16384
  const MAX_VC: nat := 12

  /** The CRT controller: an index port and a data port. */
  class Crtc {
    var index: byte
    var regs: map<int, byte>

    constructor ()
    {
      index := 0;
      regs := map[];
    }

    method OutIndex(v: int)
      modifies this`index
      ensures index == v % 0x100
    {
      index := v % 0x100;
    }

    method OutData(v: int)
      modifies this`regs
      ensures regs == old(regs)[index := v % 0x100]
    {
      regs := regs[index := v % 0x100];
    }

    /** The four port writes that store a 16-bit value, high byte first. */
    method OutPair(hi: byte, v: nat)
      requires v < 0x1_0000 && hi < 0xFF
      modifies this
      ensures Pair(hi) == v && regs == old(regs)[hi := v / 0x100][hi as int + 1 := v % 0x100]
    {
      OutIndex(hi);
      OutData(v / 0x100);
      OutIndex(hi as int + 1);
      OutData(v);
    }

    /** A 16-bit value in a pair of registers, high byte first. */
    ghost function Pair(hi: int): int
      reads this
    {
      if hi in regs && hi + 1 in regs then regs[hi] as int * 0x100 + regs[hi + 1] as int else -1
    }
  }

  class VirtualConsole {
    var esc: nat
    var attrib: nat
    var csr_x: nat
    var csr_y: nat
    var esc1: word
    var esc2: word
    var esc3: word
    const fbAdr: nat

    constructor (attribute: nat, start: nat)
      ensures esc == csr_x == csr_y == esc1 == esc2 == esc3 == 0 && attrib == attribute && fbAdr == start
    {
      esc, attrib, csr_x, csr_y, esc1, esc2, esc3 := 0, attribute, 0, 0, 0, 0, 0;
      fbAdr := start;
    }
  }

  /** memcpy on cells. */
  method MemCpy(a: array<cell>, dst: nat, src: nat, n: nat)
    requires dst + n <= a.Length && src + n <= a.Length
    modifies a
    ensures a[..] == ForwardCopy(old(a[..]), src, dst, n)
  {
    hide ForwardCopy;
    ghost var m := a[..];
    var i := 0;
    if n > 0 {
      CopyStep(m, src, dst, 0);
    } else {
      CopyNone(m, src, dst);
    }
    while i < n
      invariant i <= n && a[..] == ForwardCopy(m, src, dst, i)
    {
      CopyStep(m, src, dst, i);
      a[dst + i] := a[src + i];
      i := i + 1;
    }
  }

  lemma CopyNone(m: seq<cell>, src: nat, dst: nat)
    requires src <= |m| && dst <= |m|
    ensures ForwardCopy(m, src, dst, 0) == m
  {
  }

  method MemSetW(a: array<cell>, dst: nat, v: cell, n: nat)
    requires dst + n <= a.Length
    modifies a
    ensures a[dst..dst + n] == seq(n, _ => v)
    ensures forall k :: 0 <= k < a.Length && !(dst <= k < dst + n) ==> a[k] == old(a[k])
  {
    var i := 0;
    while i < n
      invariant i <= n
      invariant forall k :: dst <= k < dst + i ==> a[k] == v
      invariant forall k :: 0 <= k < a.Length && !(dst <= k < dst + i) ==> a[k] == old(a[k])
    {
      a[dst + i] := v;
      i := i + 1;
    }
  }

  /** The number of windows, as init_console works it out. */
  method HowMany(size: nat) returns (n: nat)
    requires 0 < size <= FB_CELLS
    ensures n == Count(size) && 0 < n <= MAX_VC
  {
    CountFits(size);
    n := 32768 / (size * 2);
    if n > MAX_VC {
      n := MAX_VC;
    }
  }

  lemma BlankIs(n: nat, attrib: nat)
    ensures Blank(n, attrib) == seq(n, _ => Glyph(SPACE, attrib))
  {
  }

  /** Moving all but the first w cells of a window down by w and filling the rest. */
  lemma Raised(m: seq<cell>, m1: seq<cell>, m2: seq<cell>, from: nat, w: nat, kept: nat, n: nat)
    requires kept + w == n && from + n <= |m| == |m1| == |m2| && IsMove(m, m1, from + w, from, kept)
    requires forall k :: 0 <= k < |m| && !(from + kept <= k < from + n) ==> m2[k] == m1[k]
    ensures m2[from..from + n] == m[from..from + n][w..] + m2[from + kept..from + n]
    ensures forall k :: 0 <= k < |m| && !(from <= k < from + n) ==> m2[k] == m[k]
  {
    assert m2[from..from + n] == m2[from..from + kept] + m2[from + kept..from + n];
    assert m2[from..from + kept] == m[from + w..from + n];
  }

  /** The block operations of scroll: kept cells move down over the first gone, the rest fills. */
  method RaiseCells(a: array<cell>, from: nat, gone: nat, kept: nat, v: cell)
    requires from + gone + kept <= a.Length
    modifies a
    ensures a[from..from + gone + kept] == old(a[from..from + gone + kept])[gone..] + seq(gone, _ => v)
    ensures forall k :: 0 <= k < a.Length && !(from <= k < from + gone + kept) ==> a[k] == old(a[k])
  {
    hide ForwardCopy, IsMove;
    ghost var m := a[..];
    MovesIntact(m, from + gone, from, kept);
    MemCpy(a, from, from + gone, kept);
    ghost var m1 := a[..];
    MemSetW(a, from + kept, v, gone);
    Raised(m, m1, a[..], from, gone, kept, gone + kept);
  }

  class Video {
    const fb: array<cell>
    const w: nat
    const h: nat
    const size: nat
    var vcs: seq<VirtualConsole>
    var curr: VirtualConsole
    const crtc: Crtc

    /** Geometry: windows of whole rows, one after the other, within the frame buffer. */
    ghost predicate Laid()
      reads this`vcs
    {
      && w > 0 && h > 0 && w % 8 == 0 && size == w * h && fb.Length == FB_CELLS
      && |vcs| <= MAX_VC
      && (forall i :: 0 <= i < |vcs| ==> vcs[i].fbAdr + size <= FB_CELLS)
      && (forall i, j :: 0 <= i < j < |vcs| ==> vcs[i].fbAdr + size <= vcs[j].fbAdr && vcs[i] != vcs[j])
    }

    ghost function Window(con: VirtualConsole): seq<cell>
      reads this`vcs, fb
      requires Laid() && con in vcs
    {
      fb[con.fbAdr..con.fbAdr + size]
    }

    ghost function View(con: VirtualConsole): Term
      reads this`vcs, fb, con
      requires Laid() && con in vcs
    {
      Term(Rows(Window(con), w, h), con.csr_x, con.csr_y, con.attrib, con.esc, con.esc1, con.esc2, con.esc3)
    }

    ghost predicate Valid()
      reads this`vcs, this`curr, fb, vcs
    {
      Laid() && curr in vcs && AllSized()
    }

    /** The cursor registers hold the cell of the current console's cursor. */
    ghost predicate CursorShown()
      reads this`curr, curr, crtc
    {
      crtc.Pair(14) == curr.csr_y * w + curr.csr_x + curr.fbAdr
    }

    /** Every console is in range. */
    ghost predicate AllSized()
      reads this`vcs, fb, vcs
      requires Laid()
    {
      forall i :: 0 <= i < |vcs| ==> Sized(View(vcs[i]), w, h)
    }

    /** One cell of a window. */
    method StoreCell(con: VirtualConsole, y: nat, x: nat, v: cell)
      requires Laid() && con in vcs && y < h && x < w
      modifies fb
      ensures Rows(Window(con), w, h) == Overwrite(Rows(old(Window(con)), w, h), y, x, [v])
      ensures OnlyWindow(con)
    {
      RowsStore(Window(con), w, h, y, x, v);
      fb[con.fbAdr + (y * w + x)] := v;
      assert Window(con) == old(Window(con))[y * w + x := v];
    }

    /** What lies outside the window of con is as it was. */
    twostate predicate OnlyWindow(con: VirtualConsole)
      reads fb
    {
      forall i :: 0 <= i < fb.Length && !(con.fbAdr <= i < con.fbAdr + size) ==> fb[i] == old(fb[i])
    }

    /** scroll. */
    method Scroll(con: VirtualConsole)
      requires Laid() && con in vcs && con.csr_y <= h
      modifies con`csr_y, fb
      ensures OnlyWindow(con)
      ensures var rows := Rows(old(Window(con)), w, h);
        if old(con.csr_y) < h then con.csr_y == old(con.csr_y) && Window(con) == old(Window(con))
        else con.csr_y == h - 1 && Rows(Window(con), w, h) == rows[1..] + [Blank(w, con.attrib)]
    {
      if con.csr_y >= h {
        var temp := con.csr_y - h + 1;
        TailSize(w, h);
        var (gone, kept) := (temp * w, (h - temp) * w);
        assert temp == 1 && gone == w && kept == size - w;
        RowsScroll(Window(con), w, h, Blank(w, con.attrib));
        MoveUp(con, gone, kept);
        con.csr_y := h - 1;
      }
    }

    /** The two block operations of scroll on a console's window. */
    method MoveUp(con: VirtualConsole, gone: nat, kept: nat)
      requires Laid() && con in vcs && gone == w && kept + w == size
      modifies fb
      ensures OnlyWindow(con)
      ensures Window(con) == old(Window(con))[w..] + Blank(w, con.attrib)
    {
      hide Glyph;
      BlankIs(w, con.attrib);
      RaiseCells(fb, con.fbAdr, gone, kept, Glyph(SPACE, con.attrib));
    }

    /** ESC[2J. */
    method Clear(con: VirtualConsole)
      requires Laid() && con in vcs
      modifies fb
      ensures OnlyWindow(con)
      ensures Rows(Window(con), w, h) == BlankRows(h, w, con.attrib)
    {
      assert h * w == size;
      MemSetW(fb, con.fbAdr, Glyph(SPACE, con.attrib), h * w);
      assert Window(con) == Blank(size, con.attrib);
      RowsFill(size, w, h, con.attrib);
    }

    /** One round of the tab's blanking loop. */
    method BlankOne(con: VirtualConsole, ghost rows: seq<Row>, ghost x: nat)
      requires Laid() && con in vcs && x <= con.csr_x < w && con.csr_y < h
      requires |rows| == h && |rows[con.csr_y]| == w
      requires Rows(Window(con), w, h) == Overwrite(rows, con.csr_y, x, Blank(con.csr_x - x, con.attrib))
      modifies con`csr_x, fb
      ensures OnlyWindow(con) && con.csr_x == old(con.csr_x) + 1
      ensures Rows(Window(con), w, h) == Overwrite(rows, con.csr_y, x, Blank(con.csr_x - x, con.attrib))
    {
      var v := Glyph(SPACE, con.attrib);
      OverwriteSnoc(rows, con.csr_y, x, Blank(con.csr_x - x, con.attrib), v);
      assert Blank(con.csr_x - x, con.attrib) + [v] == Blank(con.csr_x - x + 1, con.attrib);
      StoreCell(con, con.csr_y, con.csr_x, v);
      con.csr_x := con.csr_x + 1;
    }

    /** The tab's blanking loop. */
    method Tab(con: VirtualConsole)
      requires Laid() && con in vcs && con.csr_x < w && con.csr_y < h
      modifies con`csr_x, fb
      ensures OnlyWindow(con) && con.csr_x == NextTab(old(con.csr_x)) <= w
      ensures Rows(Window(con), w, h) ==
        Overwrite(Rows(old(Window(con)), w, h), con.csr_y, old(con.csr_x), Blank(con.csr_x - old(con.csr_x), con.attrib))
    {
      hide Glyph, Rows, Overwrite;
      var eot := (con.csr_x + 8) / 8 * 8;
      ghost var (rows, x, y) := (Rows(Window(con), w, h), con.csr_x, con.csr_y);
      OverwriteNone(rows, y, x);
      assert Blank(0, con.attrib) == [];
      while con.csr_x != eot
        invariant x <= con.csr_x <= eot <= w && OnlyWindow(con)
        invariant Rows(Window(con), w, h) == Overwrite(rows, y, x, Blank(con.csr_x - x, con.attrib))
        decreases eot - con.csr_x
      {
        BlankOne(con, rows, x);
      }
    }

    /** set_attrib. */
    method ApplyAttrib(con: VirtualConsole, att: word)
      modifies con`attrib
      ensures con.attrib == SetAttrib(old(con.attrib), att)
    {
      var newAtt := con.attrib;
      var table := ANSI_TO_VGA;
      if att == 0 {
        newAtt := newAtt - newAtt / 8 % 2 * 8;
      } else if att == 1 {
        newAtt := newAtt - newAtt / 8 % 2 * 8 + 8;
      } else if att >= 30 && att <= 37 {
        newAtt := newAtt - newAtt % 8 + table[att - 30];
      } else if att >= 40 && att <= 47 {
        newAtt := newAtt - newAtt / 16 % 8 * 16 + table[att - 40] * 16;
      }
      con.attrib := newAtt;
    }

    /** The windows of init_console: as many as fit, one after the other. */
    constructor (width: nat, height: nat)
      requires width > 0 && height > 0 && width % 8 == 0 && width * height <= FB_CELLS
      ensures Valid() && w == width && h == height && fresh(vcs) && fresh(fb) && fresh(crtc)
      ensures |vcs| == Count(width * height) > 0 && curr == vcs[0]
      ensures forall i :: 0 <= i < |vcs| ==> vcs[i].fbAdr == Start(width * height, i)
      ensures forall i :: 0 <= i < |vcs| ==> vcs[i].attrib == i + 1 && vcs[i].esc == vcs[i].csr_x == vcs[i].csr_y == 0
    {
      w, h, size := width, height, width * height;
      fb := new cell[FB_CELLS](_ => 0);
      var n := HowMany(width * height);
      var first := new VirtualConsole(1, 0);
      crtc := new Crtc();
      curr := first;
      vcs := [first];
      new;
      FirstStart(size);
      hide Start, Count, Sized, Rows;
      var i := 1;
      while i < n
        invariant 1 <= i <= n && |vcs| == i && vcs[0] == first && fresh(vcs) && fresh(fb) && fresh(crtc)
        invariant w == width && h == height && curr == first
        invariant forall j :: 0 <= j < i ==> vcs[j].fbAdr == Start(size, j) && vcs[j].attrib == j + 1
        invariant forall j :: 0 <= j < i ==> vcs[j].esc == vcs[j].csr_x == vcs[j].csr_y == 0
        invariant forall j, k :: 0 <= j < k < i ==> vcs[j] != vcs[k]
      {
        var vc := new VirtualConsole(i + 1, Start(size, i));
        vcs := vcs + [vc];
        i := i + 1;
      }
      forall j | 0 <= j < |vcs| ensures vcs[j].fbAdr + size <= FB_CELLS {
        Spaced(size, j, j + 1);
      }
      forall j, k | 0 <= j < k < |vcs| ensures vcs[j].fbAdr + size <= vcs[k].fbAdr {
        Spaced(size, j, k);
      }
      FreshSized();
    }

    lemma FreshSized()
      requires Laid()
      requires forall i :: 0 <= i < |vcs| ==> vcs[i].attrib == i + 1 && vcs[i].esc == vcs[i].csr_x == vcs[i].csr_y == 0
      ensures AllSized()
    {
      forall i | 0 <= i < |vcs| ensures Sized(View(vcs[i]), w, h) {
        assert vcs[i].attrib == i + 1;
      }
    }

    lemma Ranged(con: VirtualConsole)
      requires Valid() && con in vcs
      ensures Sized(View(con), w, h) && con.fbAdr + size <= FB_CELLS && size == w * h && w % 8 == 0
      ensures con.csr_x < w && con.csr_y < h && con.esc <= 4 && con.attrib < 0x80
    {
      var i :| 0 <= i < |vcs| && vcs[i] == con;
      assert Sized(View(vcs[i]), w, h);
    }

    /** The offset of the cursor fits in sixteen bits and lies in the console's window. */
    lemma CursorOffset(con: VirtualConsole)
      requires Valid() && con in vcs
      ensures con.fbAdr <= con.csr_y * w + con.csr_x + con.fbAdr < con.fbAdr + size <= FB_CELLS
    {
      hide Valid, Sized, Rows;
      Ranged(con);
      RowStart(w, con.csr_y, h);
    }

    /** move_csr: the cursor registers get the cursor's cell in the frame buffer. */
    method MoveCsr()
      requires Valid()
      modifies crtc
      ensures CursorShown()
      ensures curr.fbAdr <= crtc.Pair(14) < curr.fbAdr + size
      ensures forall r :: r != 14 && r != 15 ==> (r in crtc.regs <==> r in old(crtc.regs))
      ensures forall r :: r != 14 && r != 15 && r in crtc.regs ==> crtc.regs[r] == old(crtc.regs[r])
    {
      hide AllSized;
      CursorOffset(curr);
      var temp := (curr.csr_y * w + curr.csr_x + curr.fbAdr) % 0x1_0000;
      crtc.OutPair(14, temp);
    }

    /** select_vc: the display starts at the window of the chosen console. */
    method SelectVc(which: nat)
      requires Valid()
      modifies this`curr, crtc
      ensures Valid() && (which >= |vcs| ==> curr == old(curr) && crtc.regs == old(crtc.regs))
      ensures which < |vcs| ==> curr == vcs[which] && crtc.Pair(12) == curr.fbAdr
      ensures which < |vcs| ==> CursorShown()
    {
      hide AllSized, Laid, Rows, Sized;
      if which >= |vcs| {
        return;
      }
      curr := vcs[which];
      crtc.OutPair(12, curr.fbAdr % 0x1_0000);
      MoveCsr();
    }

    /** The end of putch_help's plain characters: wrap, then scroll. */
    method SettleCursor(con: VirtualConsole)
      requires Laid() && con in vcs && (con.csr_y < h || (con.csr_y == h && con.csr_x < w))
      modifies con`csr_x, con`csr_y, fb
      ensures OnlyWindow(con)
      ensures var t := old(View(con));
        View(con) == if t.y < h then Settle(t, w, h) else t.(rows := t.rows[1..] + [Blank(w, t.attrib)], y := h - 1)
    {
      hide Rows, Blank;
      if con.csr_x >= w {
        con.csr_x := 0;
        con.csr_y := con.csr_y + 1;
      }
      Scroll(con);
    }

    /** putch_help outside escape sequences; moved says whether it reaches its end. */
    method PutPlain(con: VirtualConsole, c: word) returns (moved: bool)
      requires Laid() && con in vcs && Sized(View(con), w, h)
      modifies con`esc, con`csr_x, con`csr_y, fb
      ensures OnlyWindow(con) && View(con) == Plain(old(View(con)).(esc := 0), c, w, h)
      ensures moved <==> c != ESC
    {
      hide Rows, Overwrite, Glyph;
      ghost var t := View(con);
      con.esc := 0;
      moved := c != ESC;
      if c == ESC {
        con.esc := 1;
        return;
      }
      if c == BACKSPACE {
        if con.csr_x != 0 {
          con.csr_x := con.csr_x - 1;
          StoreCell(con, con.csr_y, con.csr_x, Glyph(SPACE, con.attrib));
          assert Blank(1, t.attrib) == [Glyph(SPACE, t.attrib)];
        }
      } else if c == TAB {
        TabFitsIff(w);
        Tab(con);
      } else if c == RETURN {
        con.csr_x := 0;
      } else if c == NEWLINE {
        con.csr_x := 0;
        con.csr_y := con.csr_y + 1;
      } else if c >= SPACE {
        StoreCell(con, con.csr_y, con.csr_x, Glyph(c, con.attrib));
        con.csr_x := con.csr_x + 1;
      }
      SettleCursor(con);
    }

    /** putch_help up to the cursor update; moved says whether that update is reached. */
    method PutStep(con: VirtualConsole, c: word) returns (moved: bool)
      requires Laid() && con in vcs && Sized(View(con), w, h)
      modifies con, fb
      ensures OnlyWindow(con) && View(con) == Put(old(View(con)), c, w, h)
      ensures moved <==> ReachesEnd(old(View(con)), c)
    {
      hide Rows, Plain, Shift, SetAttrib;
      moved := false;
      if con.esc == 1 {
        if c == '[' as int {
          con.esc := con.esc + 1;
          con.esc1 := 0;
          return;
        }
      } else if con.esc == 2 {
        if IsDigit(c) {
          con.esc1 := Shift(con.esc1, c);
          return;
        } else if c == ';' as int {
          con.esc := con.esc + 1;
          con.esc2 := 0;
          return;
        } else if c == 'J' as int {
          if con.esc1 == 2 {
            Clear(con);
            con.csr_x, con.csr_y := 0, 0;
          }
        } else if c == 'm' as int {
          ApplyAttrib(con, con.esc1);
        }
        con.esc := 0;
        return;
      } else if con.esc == 3 {
        if IsDigit(c) {
          con.esc2 := Shift(con.esc2, c);
          return;
        } else if c == ';' as int {
          con.esc := con.esc + 1;
          con.esc3 := 0;
          return;
        } else if c == 'H' as int {
          if con.esc2 < w {
            con.csr_x := con.esc2;
          }
          if con.esc1 < h {
            con.csr_y := con.esc1;
          }
        } else if c == 'm' as int {
          ApplyAttrib(con, con.esc1);
          ApplyAttrib(con, con.esc2);
        }
        con.esc := 0;
        return;
      } else if con.esc == 4 {
        if IsDigit(c) {
          con.esc3 := Shift(con.esc3, c);
          return;
        } else if c == 'm' as int {
          ApplyAttrib(con, con.esc1);
          ApplyAttrib(con, con.esc2);
          ApplyAttrib(con, con.esc3);
        }
        con.esc := 0;
        return;
      }
      moved := PutPlain(con, c);
    }

    /** putch_help: one character on one console.  The console changes like the terminal
        it is, no cell outside its window changes, so no other console does.  The cursor
        registers follow the current console's cursor after plain characters only. */
    method PutchHelp(con: VirtualConsole, c: word)
      requires Valid() && con in vcs
      modifies con, fb, crtc
      ensures Valid() && View(con) == Put(old(View(con)), c, w, h)
      ensures OnlyWindow(con)
      ensures forall i :: 0 <= i < |vcs| && vcs[i] != con ==> View(vcs[i]) == old(View(vcs[i]))
      ensures if ReachesEnd(old(View(con)), c) && curr == con then CursorShown() else crtc.regs == old(crtc.regs)
      ensures crtc.Pair(12) == old(crtc.Pair(12))
    {
      hide Put;
      Ranged(con);
      PutSized(View(con), c, w, h);
      var moved := PutStep(con, c);
      Isolated(con);
      if moved && curr == con {
        MoveCsr();
      }
    }

    twostate lemma Isolated(con: VirtualConsole)
      requires old(Laid()) && con in vcs && OnlyWindow(con) && unchanged(this)
      requires forall i :: 0 <= i < |vcs| && vcs[i] != con ==> unchanged(vcs[i])
      ensures forall i :: 0 <= i < |vcs| && vcs[i] != con ==> View(vcs[i]) == old(View(vcs[i]))
    {
      forall i | 0 <= i < |vcs| && vcs[i] != con ensures View(vcs[i]) == old(View(vcs[i])) {
        assert Window(vcs[i]) == old(Window(vcs[i]));
      }
    }
  }

  /** init_console, without its banner. */
  method InitConsole(width: nat, height: nat) returns (video: Video)
    requires width > 0 && height > 0 && width % 8 == 0 && width * height <= FB_CELLS
    ensures fresh(video) && video.Valid() && video.w == width && video.h == height
    ensures |video.vcs| == Count(width * height) > 0 && video.curr == video.vcs[0]
    ensures forall i :: 0 <= i < |video.vcs| ==> video.vcs[i].fbAdr == Start(width * height, i) && video.vcs[i].attrib == i + 1
    ensures forall i :: 0 <= i < |video.vcs| ==> video.vcs[i].esc == video.vcs[i].csr_x == video.vcs[i].csr_y == 0
    ensures video.crtc.Pair(12) == 0 && video.CursorShown()
  {
    hide Start, Count;
    FirstStart(width * height);
    video := new Video(width, height);
    video.SelectVc(0);
  }

  /** Where window i of a given size starts. */
  function Start(size: nat, i: nat): nat {
    size * i
  }

  /** How many windows of the given size 32K of display memory hold, at most MAX_VC. */
  function Count(size: nat): int
    requires size > 0
  {
    var n := 32768 / (size * 2);
    if n > MAX_VC then MAX_VC else n
  }

  lemma Quotient(a: nat, d: nat, q: int)
    requires d > 0 && q == a / d
    ensures 0 <= q && q * d <= a < q * d + d
  {
  }

  /** As many windows as fit 32K of two-byte cells, but no more than 12. */
  lemma CountFits(size: nat)
    requires 0 < size <= FB_CELLS
    ensures 0 < Count(size) <= 12 && size * Count(size) <= FB_CELLS == 16384
    ensures Count(size) == 12 || size * (Count(size) + 1) > 16384
  {
    var (d, n) := (size * 2, 32768 / (size * 2));
    Quotient(32768, d, n);
    assert n * d == 2 * (size * n) && n * d + d == 2 * (size * (n + 1));
    if n > MAX_VC {
      assert size * MAX_VC <= size * n;
    }
  }

  lemma FirstStart(size: nat)
    ensures Start(size, 0) == 0
  {
  }

  /** The windows follow one another from the start of display memory. */
  lemma Adjacent(size: nat, i: nat)
    ensures Start(size, 0) == 0 && Start(size, i + 1) == Start(size, i) + size
  {
  }

  /** Windows at multiples of the size are disjoint and fit. */
  lemma Spaced(size: nat, i: nat, j: nat)
    requires 0 < size <= FB_CELLS && i < j <= Count(size)
    ensures Start(size, i) + size <= Start(size, j) <= FB_CELLS
  {
    CountFits(size);
    hide Count;
    Times(size, i + 1, j);
    Times(size, j, Count(size));
  }

  lemma Times(k: nat, a: nat, b: nat)
    requires a <= b
    ensures k * a <= k * b
  {
  }
}
