/** The printer talking to the console: kprintf, and why decimal parameters printed into
    an escape sequence are read back as the numbers they were.
 */
module RoundTrip {
  import opened Words
  import opened Terminal
  import opened Format
  import opened Printf
  import opened Scrollback
  import Console

  lemma {:induction false} PutAllConcat(t: Term, a: seq<word>, b: seq<word>, w: nat, h: nat)
    requires Sized(t, w, h) && w % 8 == 0
    ensures PutAll(t, a + b, w, h) == PutAll(PutAll(t, a, w, h), b, w, h)
  {
    if b == [] {
      assert a + b == a;
    } else {
      assert (a + b)[..|a + b| - 1] == a + b[..|b| - 1];
      PutAllConcat(t, a, b[..|b| - 1], w, h);
    }
  }

  /** The parameter an escape sequence is collecting. */
  function Parameter(t: Term): word {
    if t.esc == 2 then t.esc1 else if t.esc == 3 then t.esc2 else t.esc3
  }

  function SetParameter(t: Term, n: word): Term {
    if t.esc == 2 then t.(esc1 := n) else if t.esc == 3 then t.(esc2 := n) else t.(esc3 := n)
  }

  /** The decimal digits of any 32-bit number, fed to a console waiting for a parameter,
      leave that number in it, and change nothing else. */
  lemma {:induction false} DigitsReadBack(t: Term, n: word, w: nat, h: nat)
    requires Sized(t, w, h) && w % 8 == 0 && 2 <= t.esc <= 4 && Parameter(t) == 0
    ensures PutAll(t, Digits(n, 10, false), w, h) == SetParameter(t, n)
    decreases n
  {
    DigitsStep(n, 10, false);
    var (q, d) := (n / 10, DigitChar(n % 10, false));
    LastDigit(n);
    hide Digits, DigitChar, PutAll, Put, Shift, IsDigit;
    if q == 0 {
      assert [] + [d] == [d];
      OneChar(t, d, w, h);
      PutDigit(t, d, w, h);
    } else {
      DigitsReadBack(t, q, w, h);
      PutAllConcat(t, Digits(q, 10, false), [d], w, h);
      OneChar(SetParameter(t, q), d, w, h);
      PutDigit(SetParameter(t, q), d, w, h);
    }
  }

  lemma LastDigit(n: word)
    ensures var d := DigitChar(n % 10, false); IsDigit(d) && Shift(n / 10, d) == n
  {
  }

  lemma PutDigit(t: Term, d: byte, w: nat, h: nat)
    requires Sized(t, w, h) && w % 8 == 0 && 2 <= t.esc <= 4 && IsDigit(d)
    ensures Put(t, d, w, h) == SetParameter(t, Shift(Parameter(t), d))
  {
  }

  lemma OneChar(t: Term, c: word, w: nat, h: nat)
    requires Sized(t, w, h) && w % 8 == 0
    ensures PutAll(t, [c], w, h) == Put(t, c, w, h)
  {
    assert [c][..0] == [];
    assert PutAll(t, [], w, h) == t;
  }

  // ----- the sequence -----

  const SEMICOLON: byte := ';' as int
  const BRACKET: byte := '[' as int
  const LOWER_U: byte := 'u' as int
  const LOWER_M: byte := 'm' as int
  const UPPER_H: byte := 'H' as int
  const UPPER_J: byte := 'J' as int

  /** "ESC[%u;%u;%um" */
  const SGR3: Format.Text := [ESC, BRACKET, PERCENT, LOWER_U, SEMICOLON, PERCENT, LOWER_U, SEMICOLON, PERCENT, LOWER_U, LOWER_M]

  function Decimal(n: word): Format.Text {
    Digits(n, 10, false)
  }

  lemma FormatsU(f: Format.Text, i: nat, args: seq<Arg>, k: nat)
    requires i + 1 < |f| && f[i] == PERCENT && f[i + 1] == LOWER_U && k < |args| && args[k].Word?
    ensures Formatted(f, i, args, k) == Prefix(Decimal(args[k].v), Formatted(f, i + 2, args, k + 1))
  {
    var p := Spec(false, false, 0, Size(false, false, false, false), LOWER_U);
    assert ReadFlags(f, i + 1, false) == Conversion(p, i + 2);
    var body := Digits(args[k].v, 10, false);
    assert Field(false, false, 0, false, body, |body|) == body by {
      assert Fill(0, SPACE) + [] + body == body;
    }
    assert Render(p, args, k) == Some((body, k + 1));
  }

  lemma FormatsPlain(f: Format.Text, i: nat, args: seq<Arg>, k: nat)
    requires i < |f| && f[i] != PERCENT
    ensures Formatted(f, i, args, k) == Prefix([f[i]], Formatted(f, i + 1, args, k))
  {
  }

  function Sgr3Text(a: word, b: word, c: word): Format.Text {
    [ESC, BRACKET] + Decimal(a) + [SEMICOLON] + Decimal(b) + [SEMICOLON] + Decimal(c) + [LOWER_M]
  }

  lemma ThenNumber(f: Format.Text, i: nat, args: seq<Arg>, k: nat, rest: Format.Text)
    requires i + 1 < |f| && f[i] == PERCENT && f[i + 1] == LOWER_U && k < |args| && args[k].Word?
    requires Formatted(f, i + 2, args, k + 1) == Done(rest)
    ensures Formatted(f, i, args, k) == Done(Decimal(args[k].v) + rest)
  {
    hide Formatted, Prefix;
    FormatsU(f, i, args, k);
    PrefixDone(Decimal(args[k].v), rest);
  }

  lemma ThenPlain(f: Format.Text, i: nat, args: seq<Arg>, k: nat, rest: Format.Text)
    requires i < |f| && f[i] != PERCENT && Formatted(f, i + 1, args, k) == Done(rest)
    ensures Formatted(f, i, args, k) == Done([f[i]] + rest)
  {
    hide Formatted, Prefix;
    FormatsPlain(f, i, args, k);
    PrefixDone([f[i]], rest);
  }

  lemma Sgr3Tail(args: seq<Arg>)
    requires |args| == 3 && args[1].Word? && args[2].Word?
    ensures Formatted(SGR3, 5, args, 1)
      == Done(Decimal(args[1].v) + ([SEMICOLON] + (Decimal(args[2].v) + ([LOWER_M] + []))))
  {
    AtEnd(SGR3, [], args, 3);
    hide Formatted, Prefix, Decimal;
    ThenPlain(SGR3, 10, args, 3, []);
    ThenNumber(SGR3, 8, args, 2, [LOWER_M] + []);
    ThenPlain(SGR3, 7, args, 2, Decimal(args[2].v) + ([LOWER_M] + []));
    ThenNumber(SGR3, 5, args, 1, [SEMICOLON] + (Decimal(args[2].v) + ([LOWER_M] + [])));
  }

  /** What do_printf prints for it. */
  lemma Sgr3Prints(a: word, b: word, c: word)
    ensures Formatted(SGR3, 0, [Word(a), Word(b), Word(c)], 0) == Done(Sgr3Text(a, b, c))
  {
    hide Formatted, Prefix, Decimal;
    var args := [Word(a), Word(b), Word(c)];
    var tb := Decimal(b) + ([SEMICOLON] + (Decimal(c) + ([LOWER_M] + [])));
    Sgr3Tail(args);
    ThenPlain(SGR3, 4, args, 1, tb);
    ThenNumber(SGR3, 2, args, 0, [SEMICOLON] + tb);
    ThenPlain(SGR3, 1, args, 0, Decimal(a) + ([SEMICOLON] + tb));
    ThenPlain(SGR3, 0, args, 0, [BRACKET] + (Decimal(a) + ([SEMICOLON] + tb)));
    Regroup([ESC], [BRACKET], Decimal(a), [SEMICOLON], Decimal(b), Decimal(c), [LOWER_M]);
    assert [ESC] + [BRACKET] == [ESC, BRACKET];
  }

  lemma Regroup(e: Format.Text, k: Format.Text, a: Format.Text, s: Format.Text, b: Format.Text, c: Format.Text, m: Format.Text)
    ensures e + (k + (a + (s + (b + (s + (c + (m + []))))))) == e + k + a + s + b + s + c + m
  {
    var t3 := c + (m + []);
    assert t3 == c + m;
    var t2 := b + (s + t3);
    assert t2 == b + s + c + m;
    var t1 := a + (s + t2);
    assert t1 == a + s + b + s + c + m;
    assert e + (k + t1) == e + k + t1;
  }

  lemma PrefixDone(p: Format.Text, s: Format.Text)
    ensures Prefix(p, Done(s)) == Done(p + s)
  {
  }

  /** "ESC[am" sets one rendition and changes no cell and no cursor. */
  lemma Sgr1Applies(t: Term, a: word, w: nat, h: nat)
    requires Sized(t, w, h) && w % 8 == 0 && t.esc == 0
    ensures PutAll(t, [ESC, BRACKET] + (Decimal(a) + [LOWER_M]), w, h) == t.(esc1 := a, attrib := SetAttrib(t.attrib, a))
  {
    hide SetAttrib, PutAll, Put, Decimal;
    Introducer(t, w, h);
    var t1 := t.(esc := 2, esc1 := 0);
    ParameterThen(t1, a, LOWER_M, w, h);
    Delimiters(t1.(esc1 := a), w, h);
    PutAllConcat(t, [ESC, BRACKET], Decimal(a) + [LOWER_M], w, h);
  }

  /** "ESC[a;bm" sets two in order. */
  lemma Sgr2Applies(t: Term, a: word, b: word, w: nat, h: nat)
    requires Sized(t, w, h) && w % 8 == 0 && t.esc == 0
    ensures PutAll(t, [ESC, BRACKET] + (Decimal(a) + [SEMICOLON]) + (Decimal(b) + [LOWER_M]), w, h) ==
      t.(esc1 := a, esc2 := b, attrib := SetAttrib(SetAttrib(t.attrib, a), b))
  {
    hide SetAttrib, PutAll, Put, Decimal;
    var (s1, sa, sb) := ([ESC, BRACKET], Decimal(a) + [SEMICOLON], Decimal(b) + [LOWER_M]);
    Introducer(t, w, h);
    var t1 := t.(esc := 2, esc1 := 0);
    ParameterThen(t1, a, SEMICOLON, w, h);
    Delimiters(t1.(esc1 := a), w, h);
    var t2 := t.(esc := 3, esc1 := a, esc2 := 0);
    ParameterThen(t2, b, LOWER_M, w, h);
    Delimiters(t2.(esc2 := b), w, h);
    PutAllConcat(t, s1, sa, w, h);
    PutAllConcat(t, s1 + sa, sb, w, h);
  }

  /** Printing "ESC[a;b;cm" on an idle console changes no cell and no cursor, and sets the
      attribute to the three renditions one after the other. */
  lemma Sgr3Applies(t: Term, a: word, b: word, c: word, w: nat, h: nat)
    requires Sized(t, w, h) && w % 8 == 0 && t.esc == 0
    ensures PutAll(t, Sgr3Text(a, b, c), w, h) ==
      t.(esc1 := a, esc2 := b, esc3 := c, attrib := SetAttrib(SetAttrib(SetAttrib(t.attrib, a), b), c))
  {
    hide SetAttrib, PutAll, Put, Decimal;
    var (s1, sa, sb, sc) := ([ESC, BRACKET], Decimal(a) + [SEMICOLON], Decimal(b) + [SEMICOLON], Decimal(c) + [LOWER_M]);
    Introducer(t, w, h);
    var t1 := t.(esc := 2, esc1 := 0);
    ParameterThen(t1, a, SEMICOLON, w, h);
    Delimiters(t1.(esc1 := a), w, h);
    var t2 := t.(esc := 3, esc1 := a, esc2 := 0);
    ParameterThen(t2, b, SEMICOLON, w, h);
    Delimiters(t2.(esc2 := b), w, h);
    var t3 := t.(esc := 4, esc1 := a, esc2 := b, esc3 := 0);
    ParameterThen(t3, c, LOWER_M, w, h);
    Delimiters(t3.(esc3 := c), w, h);
    PutAllConcat(t, s1, sa, w, h);
    PutAllConcat(t, s1 + sa, sb, w, h);
    PutAllConcat(t, s1 + sa + sb, sc, w, h);
    assert Sgr3Text(a, b, c) == s1 + sa + sb + sc;
  }

  /** Cursor position, "ESC[r;cH": rows and columns count from 0, each coordinate is taken on
      its own if it is on the screen, and no cell or attribute changes. */
  lemma CursorMoves(t: Term, r: word, c: word, w: nat, h: nat)
    requires Sized(t, w, h) && w % 8 == 0 && t.esc == 0
    ensures PutAll(t, [ESC, BRACKET] + Decimal(r) + [SEMICOLON] + Decimal(c) + [UPPER_H], w, h) ==
      t.(esc1 := r, esc2 := c, x := if c < w then c else t.x, y := if r < h then r else t.y)
  {
    hide PutAll, Put, Decimal;
    var (s1, sr, sc) := ([ESC, BRACKET], Decimal(r) + [SEMICOLON], Decimal(c) + [UPPER_H]);
    Introducer(t, w, h);
    var t1 := t.(esc := 2, esc1 := 0);
    ParameterThen(t1, r, SEMICOLON, w, h);
    Delimiters(t1.(esc1 := r), w, h);
    var t2 := t.(esc := 3, esc1 := r, esc2 := 0);
    ParameterThen(t2, c, UPPER_H, w, h);
    Finals(t2.(esc2 := c), w, h);
    PutAllConcat(t, s1, sr, w, h);
    PutAllConcat(t, s1 + sr, sc, w, h);
    assert [ESC, BRACKET] + Decimal(r) + [SEMICOLON] + Decimal(c) + [UPPER_H] == s1 + sr + sc;
  }

  /** Erase in display, "ESC[nJ": 2 blanks every row in the current attribute and homes the
      cursor, any other number does nothing. */
  lemma DisplayErased(t: Term, n: word, w: nat, h: nat)
    requires Sized(t, w, h) && w % 8 == 0 && t.esc == 0
    ensures PutAll(t, [ESC, BRACKET] + Decimal(n) + [UPPER_J], w, h) ==
      if n == 2 then t.(esc1 := n, x := 0, y := 0, rows := BlankRows(h, w, t.attrib)) else t.(esc1 := n)
  {
    hide PutAll, Put, Decimal;
    Introducer(t, w, h);
    var t1 := t.(esc := 2, esc1 := 0);
    ParameterThen(t1, n, UPPER_J, w, h);
    Finals(t1.(esc1 := n), w, h);
    PutAllConcat(t, [ESC, BRACKET], Decimal(n) + [UPPER_J], w, h);
    assert [ESC, BRACKET] + Decimal(n) + [UPPER_J] == [ESC, BRACKET] + (Decimal(n) + [UPPER_J]);
  }

  lemma Finals(t: Term, w: nat, h: nat)
    requires Sized(t, w, h) && w % 8 == 0
    ensures t.esc == 3 ==>
      Put(t, UPPER_H, w, h) == t.(esc := 0, x := if t.esc2 < w then t.esc2 else t.x, y := if t.esc1 < h then t.esc1 else t.y)
    ensures t.esc == 2 ==>
      Put(t, UPPER_J, w, h) == if t.esc1 == 2 then t.(esc := 0, x := 0, y := 0, rows := BlankRows(h, w, t.attrib)) else t.(esc := 0)
  {
  }

  lemma Introducer(t: Term, w: nat, h: nat)
    requires Sized(t, w, h) && w % 8 == 0 && t.esc == 0
    ensures PutAll(t, [ESC, BRACKET], w, h) == t.(esc := 2, esc1 := 0)
  {
    OneChar(t, ESC, w, h);
    OneChar(Put(t, ESC, w, h), BRACKET, w, h);
    assert [ESC, BRACKET] == [ESC] + [BRACKET];
    PutAllConcat(t, [ESC], [BRACKET], w, h);
  }

  lemma Delimiters(t: Term, w: nat, h: nat)
    requires Sized(t, w, h) && w % 8 == 0
    ensures t.esc == 2 ==> Put(t, SEMICOLON, w, h) == t.(esc := 3, esc2 := 0)
    ensures t.esc == 3 ==> Put(t, SEMICOLON, w, h) == t.(esc := 4, esc3 := 0)
    ensures t.esc == 2 ==> Put(t, LOWER_M, w, h) == t.(esc := 0, attrib := SetAttrib(t.attrib, t.esc1))
    ensures t.esc == 3 ==> Put(t, LOWER_M, w, h) == t.(esc := 0, attrib := SetAttrib(SetAttrib(t.attrib, t.esc1), t.esc2))
    ensures t.esc == 4 ==>
      Put(t, LOWER_M, w, h) == t.(esc := 0, attrib := SetAttrib(SetAttrib(SetAttrib(t.attrib, t.esc1), t.esc2), t.esc3))
  {
  }

  /** A parameter and the character that ends it. */
  lemma ParameterThen(t: Term, n: word, c: word, w: nat, h: nat)
    requires Sized(t, w, h) && w % 8 == 0 && 2 <= t.esc <= 4 && Parameter(t) == 0
    ensures Sized(SetParameter(t, n), w, h)
    ensures PutAll(t, Decimal(n) + [c], w, h) == Put(SetParameter(t, n), c, w, h)
  {
    DigitsReadBack(t, n, w, h);
    PutAllConcat(t, Decimal(n), [c], w, h);
    OneChar(SetParameter(t, n), c, w, h);
  }

  // ----- the cursor registers -----

  /** The offset the cursor registers hold after some characters on the current console, whose
      window starts at base: that of the cursor after the last plain character. */
  ghost function Registers(t: Term, s: seq<word>, w: nat, h: nat, base: nat, before: int): int
    requires Sized(t, w, h) && w % 8 == 0
    decreases |s|
  {
    if s == [] then before else
    var (front, c) := (s[..|s| - 1], s[|s| - 1]);
    if ReachesEnd(PutAll(t, front, w, h), c) then PutAll(t, s, w, h).y * w + PutAll(t, s, w, h).x + base
    else Registers(t, front, w, h, base, before)
  }

  lemma {:induction false} RegistersConcat(t: Term, a: seq<word>, b: seq<word>, w: nat, h: nat, base: nat, before: int)
    requires Sized(t, w, h) && w % 8 == 0
    ensures Registers(t, a + b, w, h, base, before) ==
      Registers(PutAll(t, a, w, h), b, w, h, base, Registers(t, a, w, h, base, before))
  {
    if b == [] {
      assert a + b == a;
    } else {
      var front := b[..|b| - 1];
      assert (a + b)[..|a + b| - 1] == a + front;
      RegistersConcat(t, a, front, w, h, base, before);
      PutAllConcat(t, a, front, w, h);
      PutAllConcat(t, a, b, w, h);
    }
  }

  lemma {:induction false} DigitsHold(t: Term, d: seq<word>, w: nat, h: nat, base: nat, before: int)
    requires Sized(t, w, h) && w % 8 == 0 && 2 <= t.esc <= 4 && forall i :: 0 <= i < |d| ==> IsDigit(d[i])
    ensures PutAll(t, d, w, h).esc == t.esc && Registers(t, d, w, h, base, before) == before
    decreases |d|
  {
    if d != [] {
      DigitsHold(t, d[..|d| - 1], w, h, base, before);
    }
  }

  lemma {:induction false} DecimalDigits(n: nat)
    ensures forall i :: 0 <= i < |Digits(n, 10, false)| ==> IsDigit(Digits(n, 10, false)[i])
    decreases n
  {
    DigitsStep(n, 10, false);
    Printf.Quotient(n, 10);
    if n >= 10 {
      DecimalDigits(n / 10);
    }
  }

  lemma ParameterHolds(t: Term, n: word, c: word, w: nat, h: nat, base: nat, before: int)
    requires Sized(t, w, h) && w % 8 == 0 && 2 <= t.esc <= 4
    ensures Registers(t, Decimal(n) + [c], w, h, base, before) == before
  {
    DecimalDigits(n);
    DigitsHold(t, Decimal(n), w, h, base, before);
    assert (Decimal(n) + [c])[..|Decimal(n)|] == Decimal(n);
  }

  lemma IntroducerHolds(t: Term, w: nat, h: nat, base: nat, before: int)
    requires Sized(t, w, h) && w % 8 == 0 && t.esc == 0
    ensures Registers(t, [ESC, BRACKET], w, h, base, before) == before
  {
    var s: seq<word> := [ESC, BRACKET];
    OneChar(t, ESC, w, h);
    assert s[..0] == [] && s[..1] == [ESC] && s[..2] == s && Put(t, ESC, w, h).esc == 1;
    RegistersNext(t, s, 1, w, h, base, before);
    RegistersNext(t, s, 0, w, h, base, before);
    NoRegisters(t, s, w, h, base, before);
  }

  /** Erasing the display homes the cursor and leaves the registers where they were. */
  lemma EraseLeavesRegisters(t: Term, n: word, w: nat, h: nat, base: nat, before: int)
    requires Sized(t, w, h) && w % 8 == 0 && t.esc == 0
    ensures Registers(t, [ESC, BRACKET] + Decimal(n) + [UPPER_J], w, h, base, before) == before
  {
    hide Registers, PutAll, Decimal;
    Introducer(t, w, h);
    IntroducerHolds(t, w, h, base, before);
    ParameterHolds(t.(esc := 2, esc1 := 0), n, UPPER_J, w, h, base, before);
    RegistersConcat(t, [ESC, BRACKET], Decimal(n) + [UPPER_J], w, h, base, before);
    assert [ESC, BRACKET] + Decimal(n) + [UPPER_J] == [ESC, BRACKET] + (Decimal(n) + [UPPER_J]);
  }

  /** So does moving the cursor: the registers hold its cell only if that is the one they held
      before. */
  lemma MoveLeavesRegisters(t: Term, r: word, c: word, w: nat, h: nat, base: nat, before: int)
    requires Sized(t, w, h) && w % 8 == 0 && t.esc == 0
    ensures Registers(t, [ESC, BRACKET] + Decimal(r) + [SEMICOLON] + Decimal(c) + [UPPER_H], w, h, base, before) == before
  {
    hide Registers, PutAll, Put, Decimal;
    var (s1, sr, sc) := ([ESC, BRACKET], Decimal(r) + [SEMICOLON], Decimal(c) + [UPPER_H]);
    Introducer(t, w, h);
    IntroducerHolds(t, w, h, base, before);
    var t1 := t.(esc := 2, esc1 := 0);
    ParameterThen(t1, r, SEMICOLON, w, h);
    Delimiters(t1.(esc1 := r), w, h);
    ParameterHolds(t1, r, SEMICOLON, w, h, base, before);
    ParameterHolds(t.(esc := 3, esc1 := r, esc2 := 0), c, UPPER_H, w, h, base, before);
    PutAllConcat(t, s1, sr, w, h);
    RegistersConcat(t, s1, sr, w, h, base, before);
    RegistersConcat(t, s1 + sr, sc, w, h, base, before);
    assert [ESC, BRACKET] + Decimal(r) + [SEMICOLON] + Decimal(c) + [UPPER_H] == s1 + sr + sc;
  }

  // ----- kprintf -----

  /** kprintf_help: one more character for the current console. */
  method KprintfHelp(video: Console.Video, c: word, ghost t: Term, ghost s: seq<word>, ghost i: nat, ghost before: int)
    requires video.Valid() && Sized(t, video.w, video.h) && video.w % 8 == 0 && i < |s| && s[i] == c
    requires video.View(video.curr) == PutAll(t, s[..i], video.w, video.h)
    requires video.crtc.Pair(14) == Registers(t, s[..i], video.w, video.h, video.curr.fbAdr, before)
    modifies video.curr, video.fb, video.crtc
    ensures video.Valid() && video.View(video.curr) == PutAll(t, s[..i + 1], video.w, video.h)
    ensures video.crtc.Pair(14) == Registers(t, s[..i + 1], video.w, video.h, video.curr.fbAdr, before)
  {
    hide PutAll, Put, Registers, ReachesEnd, Sized, Console.Video.Valid;
    PutAllNext(t, s, i, video.w, video.h);
    RegistersNext(t, s, i, video.w, video.h, video.curr.fbAdr, before);
    MemberOf(video);
    video.PutchHelp(video.curr, c);
  }

  lemma MemberOf(video: Console.Video)
    requires video.Valid()
    ensures video.Laid() && video.curr in video.vcs
  {
  }

  /** kprintf: every character goes to the current console, extended by its sign.  Nothing is
      said of the screen when the format or the arguments are overrun, for then the C code goes
      on printing. */
  method Kprintf(video: Console.Video, fmt: Format.Text, args: seq<Arg>) returns (r: Outcome)
    requires video.Valid() && NUL !in fmt && ArgsOk(args)
    modifies video.curr, video.fb, video.crtc
    ensures video.Valid() && r == Formatted(fmt, 0, args, 0)
    ensures Sized(old(video.View(video.curr)), video.w, video.h) && video.w % 8 == 0
    ensures r.Done? ==> video.View(video.curr) == PutAll(old(video.View(video.curr)), Chars(r.out), video.w, video.h)
    ensures r.Done? ==>
      video.crtc.Pair(14) ==
        Registers(old(video.View(video.curr)), Chars(r.out), video.w, video.h, video.curr.fbAdr, old(video.crtc.Pair(14)))
  {
    hide Formatted, PutAll, Put, Registers, SignExtend, ReachesEnd;
    var count;
    count, r := DoPrintf(fmt, args);
    var i := 0;
    video.Ranged(video.curr);
    ghost var (t, s, before) := (video.View(video.curr), Chars(r.out), video.crtc.Pair(14));
    PutAllNone(t, video.w, video.h);
    NoRegisters(t, s, video.w, video.h, video.curr.fbAdr, before);
    while i < count
      invariant i <= count && video.Valid()
      invariant video.View(video.curr) == PutAll(t, s[..i], video.w, video.h)
      invariant video.crtc.Pair(14) == Registers(t, s[..i], video.w, video.h, video.curr.fbAdr, before)
    {
      KprintfHelp(video, SignExtend(r.out[i]), t, s, i, before);
      i := i + 1;
    }
    assert s[..count] == s;
  }

  lemma NoRegisters(t: Term, s: seq<word>, w: nat, h: nat, base: nat, before: int)
    requires Sized(t, w, h) && w % 8 == 0
    ensures Registers(t, s[..0], w, h, base, before) == before
  {
  }

  lemma RegistersNext(t: Term, s: seq<word>, i: nat, w: nat, h: nat, base: nat, before: int)
    requires Sized(t, w, h) && w % 8 == 0 && i < |s|
    ensures Registers(t, s[..i + 1], w, h, base, before) ==
      if ReachesEnd(PutAll(t, s[..i], w, h), s[i]) then PutAll(t, s[..i + 1], w, h).y * w + PutAll(t, s[..i + 1], w, h).x + base
      else Registers(t, s[..i], w, h, base, before)
  {
    assert s[..i + 1][..i] == s[..i];
  }

  lemma PutAllNone(t: Term, w: nat, h: nat)
    requires Sized(t, w, h) && w % 8 == 0
    ensures forall s: seq<word> :: PutAll(t, s[..0], w, h) == t
  {
  }

  lemma PutAllNext(t: Term, s: seq<word>, i: nat, w: nat, h: nat)
    requires Sized(t, w, h) && w % 8 == 0 && i < |s|
    ensures PutAll(t, s[..i + 1], w, h) == Put(PutAll(t, s[..i], w, h), s[i], w, h)
  {
    assert s[..i + 1][..i] == s[..i];
  }

  /** Text without a percent sign is printed as it is. */
  lemma {:induction false} PlainPrints(f: Format.Text, i: nat, args: seq<Arg>, k: nat)
    requires i <= |f| && PERCENT !in f
    ensures Formatted(f, i, args, k) == Done(f[i..])
    decreases |f| - i
  {
    if i == |f| {
      AtEnd(f, [], args, k);
    } else {
      assert f[i] in f;
      FormatsPlain(f, i, args, k);
      PlainPrints(f, i + 1, args, k);
      PrefixDone([f[i]], f[i + 1..]);
      assert f[i..] == [f[i]] + f[i + 1..];
    }
  }

  /** Text printed on a cleared console ends up on the screen: the frame buffer holds its last
      rows, wrapped at the width, and the cursor stands behind it.  Glyph says how a character
      of 0x80 or above looks. */
  method ShowText(video: Console.Video, s: Format.Text, ghost a: nat)
    requires video.Valid() && IsText(Chars(s)) && PERCENT !in s && NUL !in s && a < 0x80
    requires video.w > 0 && video.h > 0 && Cleared(video.View(video.curr), video.w, video.h, a)
    modifies video.curr, video.fb, video.crtc
    ensures video.Valid() && (s != [] ==> video.CursorShown())
    ensures video.View(video.curr).rows == Visible(Layout(Lines(Chars(s)), video.w, a), video.w, video.h, a)
  {
    hide Formatted, PutAll, Put, Visible, Layout, Lines, Cleared, Registers;
    PlainPrints(s, 0, [], 0);
    ghost var t := video.View(video.curr);
    var r := Kprintf(video, s, []);
    assert s[0..] == s;
    ScrollbackTheorem(t, Chars(s), video.w, video.h, a);
    if s != [] {
      TextReachesEnd(t, Chars(s), video.w, video.h, a, video.curr.fbAdr, 0);
    }
  }

  lemma TextReachesEnd(t: Term, s: seq<word>, w: nat, h: nat, a: nat, base: nat, any: int)
    requires w > 0 && h > 0 && w % 8 == 0 && a < 0x80 && IsText(s) && s != [] && Cleared(t, w, h, a)
    ensures Sized(t, w, h)
    ensures forall before :: Registers(t, s, w, h, base, before) == PutAll(t, s, w, h).y * w + PutAll(t, s, w, h).x + base
  {
    hide PutAll, Layout, Lines, Visible;
    ScrollbackTheorem(t, s[..|s| - 1], w, h, a);
  }

  /** kprintf of ESC[%u;%u;%um on an idle console sets the three renditions. */
  method SetRendition(video: Console.Video, a: word, b: word, c: word)
    requires video.Valid() && video.curr.esc == 0
    modifies video.curr, video.fb, video.crtc
    ensures video.Valid()
    ensures var t := old(video.View(video.curr));
      video.View(video.curr) == t.(esc1 := a, esc2 := b, esc3 := c, attrib := SetAttrib(SetAttrib(SetAttrib(t.attrib, a), b), c))
  {
    hide Formatted, PutAll, Put, Registers, SetAttrib, Sgr3Text;
    Sgr3Prints(a, b, c);
    AsciiSgr3(a, b, c);
    ghost var t := video.View(video.curr);
    var r := Kprintf(video, SGR3, [Word(a), Word(b), Word(c)]);
    Sgr3Applies(t, a, b, c, video.w, video.h);
  }

  lemma AsciiSgr3(a: word, b: word, c: word)
    ensures Chars(Sgr3Text(a, b, c)) == Sgr3Text(a, b, c)
  {
    DecimalDigits(a);
    DecimalDigits(b);
    DecimalDigits(c);
    hide Digits;
    var s := Sgr3Text(a, b, c);
    assert forall i :: 0 <= i < |s| ==> s[i] < 0x80;
  }
}
