/** stdio.c: the one-pass state machine of do_printf, its digit buffer and its padding
    loops, and vsprintf.  Characters handed to the output callback are collected in order.
 */
module Printf {
  import opened Words
  import opened Terminal
  import opened Format

  const PR_BUFLEN: nat := 32

  ghost predicate ArgsOk(args: seq<Arg>) {
    forall i :: 0 <= i < |args| && args[i].Str? ==> NUL !in args[i].s
  }

  // ----- digits -----

  ghost function Pow8(k: nat): nat {
    if k == 0 then 1 else 8 * Pow8(k - 1)
  }

  lemma {:induction false} DigitsFit(n: nat, radix: nat, upper: bool, k: nat)
    requires (radix == 8 || radix == 10 || radix == 16) && k > 0 && n < Pow8(k)
    ensures |Digits(n, radix, upper)| <= k
    decreases n
  {
    if n >= radix {
      if k == 1 {
        assert false;
      }
      DigitsFit(n / radix, radix, upper, k - 1);
    }
  }

  lemma DigitsStep(n: nat, radix: nat, upper: bool)
    requires radix == 8 || radix == 10 || radix == 16
    ensures Digits(n, radix, upper) ==
      (if n / radix == 0 then [] else Digits(n / radix, radix, upper)) + [DigitChar(n % radix, upper)]
  {
  }

  lemma Quotient(n: nat, radix: nat)
    requires radix == 8 || radix == 10 || radix == 16
    ensures n / radix == 0 <==> n < radix
    ensures n > 0 ==> n / radix < n
  {
  }

  /** Any 32-bit number takes at most eleven digits. */
  lemma WordFits(n: word, radix: nat, upper: bool)
    requires radix == 8 || radix == 10 || radix == 16
    ensures |Digits(n, radix, upper)| <= 11
  {
    assert Pow8(11) == 0x2_0000_0000 by {
      assert Pow8(3) == 512 && Pow8(6) == 512 * 512 && Pow8(9) == 512 * 512 * 512;
    }
    DigitsFit(n, radix, upper, 11);
  }

  /** The conversion loop: digits are written backwards from the end of the buffer. */
  method ConvertDigits(n: word, radix: nat, upper: bool, buf: array<byte>) returns (where: nat)
    requires (radix == 8 || radix == 10 || radix == 16) && buf.Length == PR_BUFLEN
    modifies buf
    ensures where < PR_BUFLEN - 1 && buf[where..PR_BUFLEN - 1] == Digits(n, radix, upper) && buf[PR_BUFLEN - 1] == NUL
  {
    hide Digits, DigitChar;
    WordFits(n, radix, upper);
    where := PR_BUFLEN - 1;
    buf[where] := NUL;
    var num: nat := n;
    ghost var done := [];
    var more := true;
    while more
      invariant where == PR_BUFLEN - 1 - |done| && buf[where..PR_BUFLEN - 1] == done && buf[PR_BUFLEN - 1] == NUL
      invariant more ==> Digits(n, radix, upper) == Digits(num, radix, upper) + done
      invariant !more ==> Digits(n, radix, upper) == done
      decreases more, num
    {
      var temp := num % radix;
      where := where - 1;
      buf[where] := DigitChar(temp, upper);
      done := [DigitChar(temp, upper)] + done;
      Quotient(num, radix);
      DigitsStep(num, radix, upper);
      num := num / radix;
      more := num != 0;
    }
  }

  // ----- fields -----

  /** PR_LJ, PR_CA, PR_SG, PR_32, PR_64, PR_16, PR_WS, PR_LZ and PR_FP. */
  datatype Flags = Flags(lj: bool, ca: bool, sg: bool, l32: bool, l64: bool, l16: bool, ws: bool, lz: bool, fp: bool)

  const NO_FLAGS := Flags(false, false, false, false, false, false, false, false, false)

  /** n times the same character. */
  method Repeat(out: Text, c: byte, n: nat) returns (out': Text)
    ensures out' == out + Fill(n, c)
  {
    out' := out;
    var left := n;
    while left > 0
      invariant 0 <= left <= n && out' == out + Fill(n - left, c)
      decreases left
    {
      out' := out' + [c];
      left := left - 1;
    }
  }

  /** What EMIT2 adds: padding, a sign after spaces, the text, padding. */
  function Tail(lj: bool, lz: bool, ws: bool, given: nat, actual: nat, body: Text): Text {
    (if !lj && given > actual then Fill(given - actual, if lz then ZERO else SPACE) else [])
    + (if ws && !lz then [MINUS] else [])
    + body
    + (if lj && given > actual then Fill(given - actual, SPACE) else [])
  }

  /** EMIT2. */
  method Emit2(out: Text, flags: Flags, given: word, actual: nat, body: Text) returns (out': Text)
    requires NUL !in body
    ensures out' == out + Tail(flags.lj, flags.lz, flags.ws, given, actual, body)
  {
    ghost var left := if !flags.lj && given > actual then Fill(given - actual, if flags.lz then ZERO else SPACE) else [];
    ghost var sign: Text := if flags.ws && !flags.lz then [MINUS] else [];
    out' := out;
    var givenWd: nat := given;
    if !flags.lj {
      if givenWd > actual {
        out' := Repeat(out', if flags.lz then ZERO else SPACE, givenWd - actual);
        givenWd := actual;
      }
    }
    assert out' == out + left;
    if flags.ws && !flags.lz {
      out' := out' + [MINUS];
    }
    assert out' == out + left + sign;
    var i := 0;
    while i < |body|
      invariant i <= |body| && out' == out + left + sign + body[..i]
    {
      out' := out' + [body[i]];
      i := i + 1;
    }
    givenWd := if givenWd < actual then 0 else givenWd - actual;
    out' := Repeat(out', SPACE, givenWd);
    Regroup(out, left, sign, body, Fill(givenWd, SPACE));
  }

  lemma Regroup(a: Text, b: Text, c: Text, d: Text, e: Text)
    ensures a + b + c + d[..|d|] + e == a + (b + c + d + e)
  {
  }

  lemma TailField(lj: bool, lz: bool, ws: bool, given: nat, actual: nat, body: Text)
    ensures Field(lj, lz, given, ws, body, actual) == (if ws && lz then [MINUS] else []) + Tail(lj, lz, ws, given, actual, body)
    ensures !ws ==> Field(lj, lz, given, ws, body, actual) == Tail(lj, lz, ws, given, actual, body)
  {
  }

  /** EMIT: strings and numbers. */
  method Emit(out: Text, flags: Flags, given: word, body: Text) returns (out': Text)
    requires NUL !in body
    ensures out' == out + Field(flags.lj, flags.lz, given, flags.ws, body, |body| + if flags.ws then 1 else 0)
  {
    hide Tail, Field;
    var actual := |body|;
    if flags.ws {
      actual := actual + 1;
    }
    TailField(flags.lj, flags.lz, flags.ws, given, actual, body);
    ghost var sign: Text := if flags.ws && flags.lz then [MINUS] else [];
    out' := out;
    if flags.ws && flags.lz {
      out' := out' + [MINUS];
    }
    assert out' == out + sign;
    out' := Emit2(out', flags, given, actual, body);
    assert out + sign + Tail(flags.lj, flags.lz, flags.ws, given, actual, body)
        == out + (sign + Tail(flags.lj, flags.lz, flags.ws, given, actual, body));
  }

  // ----- conversions -----

  /** The flags as they stand when the conversion character is reached. */
  ghost predicate Carries(flags: Flags, p: Spec) {
    && flags.lj == p.left && flags.lz == p.zero && !flags.ca && !flags.sg && !flags.ws
    && flags.l32 == p.size.long && flags.l64 == p.size.longlong && flags.l16 == p.size.short
  }

  lemma {:induction false} DigitsNoNul(n: nat, radix: nat, upper: bool)
    requires radix == 8 || radix == 10 || radix == 16
    ensures NUL !in Digits(n, radix, upper)
    decreases n
  {
    if n >= radix {
      DigitsNoNul(n / radix, radix, upper);
    }
  }

  /** Fetching the value of a numeric conversion and taking care of its sign. */
  method Fetch(flags: Flags, args: seq<Arg>, k: nat) returns (ok: bool, negative: bool, num: word, k': nat)
    ensures var n := Number(Size(flags.fp, flags.l32, flags.l64, flags.l16), flags.sg, args, k);
      if n.Some? then ok && n.value == (negative, num, k') else !ok
  {
    negative, num, k' := false, 0, k;
    ok := k < |args| && args[k].Word?;
    if !ok {
      return;
    }
    num := args[k].v;
    k' := k + 1;
    if flags.l32 {
    } else if flags.l64 {
      ok := k + 1 < |args| && args[k + 1].Word?;
      k' := k + 2;
    } else if flags.l16 {
      num := num % 0x1_0000;
      if flags.sg && num >= 0x8000 {
        num := num + 0xFFFF_0000;
      }
    }
    if flags.sg {
      if num >= 0x8000_0000 {
        negative := true;
        num := Wrap(-(num as int));
      }
    }
  }

  /** DO_NUM: fetch, convert, emit. */
  method DoNumber(out: Text, flags: Flags, given: word, radix: nat, args: seq<Arg>, k: nat)
    returns (ok: bool, out': Text, k': nat)
    requires (radix == 8 || radix == 10 || radix == 16) && !flags.ws
    ensures var num := Number(Size(flags.fp, flags.l32, flags.l64, flags.l16), flags.sg, args, k);
      if num.None? then !ok && out' == out else
      var (negative, mag, next) := num.value;
      var body := Digits(mag, radix, flags.ca);
      ok && k' == next && out' == out + Field(flags.lj, flags.lz, given, negative, body, |body| + if negative then 1 else 0)
  {
    hide Number, Digits, Field;
    var negative, num;
    ok, negative, num, k' := Fetch(flags, args, k);
    if !ok {
      return ok, out, k;
    }
    var buf := new byte[PR_BUFLEN];
    var where := ConvertDigits(num, radix, flags.ca, buf);
    DigitsNoNul(num, radix, flags.ca);
    out' := Emit(out, flags.(ws := negative), given, buf[where..PR_BUFLEN - 1]);
  }

  /** %c, where a NUL character prints as nothing but still takes its column. */
  method DoChar(out: Text, flags: Flags, given: word, v: word) returns (out': Text)
    requires !flags.ws
    ensures var c := v % 0x100;
      out' == out + Field(flags.lj, false, given, false, if c == NUL then [] else [c], 1)
  {
    var c := v % 0x100;
    var body := if c == NUL then [] else [c];
    TailField(flags.lj, false, false, given, 1, body);
    out' := Emit2(out, flags.(lz := false), given, 1, body);
  }

  /** State 4. */
  method Convert(out: Text, flags: Flags, given: word, c: byte, args: seq<Arg>, k: nat, ghost p: Spec)
    returns (ok: bool, out': Text, k': nat)
    requires ArgsOk(args) && Carries(flags, p) && p.conv == c && p.width == given && flags.fp == p.size.far
    ensures var r := Render(p, args, k);
      if r.Some? then ok && out' == out + r.value.0 && k' == r.value.1 else !ok && out' == out
  {
    hide Number, Digits, Field;
    out', k', ok := out, k, true;
    if Radix(c) != 0 {
      ok, out', k' := DoNumber(out, flags.(ca := c == 'X' as int, sg := Signed(c)), given, Radix(c), args, k);
    } else if c == 'c' as int {
      if k < |args| && args[k].Word? {
        out' := DoChar(out, flags, given, args[k].v);
        k' := k + 1;
      } else {
        ok := false;
      }
    } else if c == 's' as int {
      if k < |args| && args[k].Str? {
        out' := Emit(out, flags.(lz := false), given, args[k].s);
        k' := k + 1;
      } else {
        ok := false;
      }
    } else {
      assert out == out + [];
    }
  }

  // ----- the state machine -----

  /** *fmt, with the terminator after the last character. */
  function At(f: Text, i: nat): byte {
    if i < |f| then f[i] else NUL
  }

  /** What the rest of the format prints when the machine is in the given state. */
  ghost function Rest(f: Text, i: nat, state: nat, flags: Flags, given: word, args: seq<Arg>, k: nat): Outcome
    requires i <= |f|
  {
    if state == 0 then Formatted(f, i, args, k)
    else if i == |f| then Done([])
    else if state == 1 then Continue(f, i, ReadFlags(f, i, flags.lj), args, k)
    else if state == 2 then Continue(f, i, ReadWidth(f, i, flags.lj, flags.lz, given), args, k)
    else Continue(f, i, ReadSize(f, i, flags.lj, flags.lz, given, Size(flags.fp, flags.l32, flags.l64, flags.l16)), args, k)
  }

  /** The flags a state can have. */
  ghost predicate Reset(state: nat, flags: Flags, given: word) {
    && state <= 3 && !flags.ca && !flags.sg && !flags.ws
    && (state == 0 ==> flags == NO_FLAGS)
    && (state <= 1 ==> given == 0 && !flags.lz)
    && (state <= 2 ==> !flags.l32 && !flags.l64 && !flags.l16 && !flags.fp)
  }

  /** Continue depends on its directive, not on where that began. */
  lemma ContinueAnywhere(f: Text, i: nat, j: nat, d: Directive, args: seq<Arg>, k: nat)
    requires i <= |f| && j <= |f| && Within(d, i, |f|) && Within(d, j, |f|)
    ensures Continue(f, i, d, args, k) == Continue(f, j, d, args, k)
  {
  }

  lemma PrefixPrefix(p: Text, q: Text, o: Outcome)
    ensures Prefix(p, Prefix(q, o)) == Prefix(p + q, o) && Prefix(p, Prefix([], o)) == Prefix(p, o)
  {
    assert p + (q + o.out) == p + q + o.out && p + ([] + o.out) == p + o.out;
  }

  /** State 0: echo, or find a percent sign. */
  lemma Echo(f: Text, i: nat, args: seq<Arg>, k: nat)
    requires i < |f|
    ensures f[i] != PERCENT ==> Formatted(f, i, args, k) == Prefix([f[i]], Formatted(f, i + 1, args, k))
    ensures f[i] == PERCENT && i + 1 == |f| ==> Formatted(f, i, args, k) == Overread([])
    ensures f[i] == PERCENT && i + 1 < |f| ==>
      Formatted(f, i, args, k) == Continue(f, i + 1, ReadFlags(f, i + 1, false), args, k)
  {
    if f[i] == PERCENT && i + 1 < |f| {
      ContinueAnywhere(f, i, i + 1, ReadFlags(f, i + 1, false), args, k);
    }
  }

  /** State 1: one flag character, or on to the width. */
  lemma FlagStep(f: Text, i: nat, lj: bool, args: seq<Arg>, k: nat)
    requires i < |f|
    ensures var r := Continue(f, i, ReadFlags(f, i, lj), args, k);
      && (f[i] == PERCENT ==> r == Prefix([PERCENT], Formatted(f, i + 1, args, k)))
      && (f[i] == MINUS && lj ==> r == Formatted(f, i + 1, args, k))
      && (f[i] == MINUS && !lj ==> r == if i + 1 == |f| then Done([]) else Continue(f, i + 1, ReadFlags(f, i + 1, true), args, k))
      && (f[i] == ZERO ==> r == if i + 1 == |f| then Overread([]) else Continue(f, i + 1, ReadWidth(f, i + 1, lj, true, 0), args, k))
      && (f[i] != PERCENT && f[i] != MINUS && f[i] != ZERO ==> r == Continue(f, i, ReadWidth(f, i, lj, false, 0), args, k))
  {
    if f[i] == MINUS && !lj && i + 1 < |f| {
      ContinueAnywhere(f, i, i + 1, ReadFlags(f, i + 1, true), args, k);
    }
    if f[i] == ZERO && i + 1 < |f| {
      ContinueAnywhere(f, i, i + 1, ReadWidth(f, i + 1, lj, true, 0), args, k);
    }
  }

  /** State 2: one digit of the width, or on to the size. */
  lemma WidthStep(f: Text, i: nat, lj: bool, lz: bool, given: word, args: seq<Arg>, k: nat)
    requires i < |f|
    ensures var r := Continue(f, i, ReadWidth(f, i, lj, lz, given), args, k);
      if IsDigit(f[i]) then
        r == if i + 1 == |f| then Done([]) else Continue(f, i + 1, ReadWidth(f, i + 1, lj, lz, Shift(given, f[i])), args, k)
      else r == Continue(f, i, ReadSize(f, i, lj, lz, given, Size(false, false, false, false)), args, k)
  {
    if IsDigit(f[i]) && i + 1 < |f| {
      ContinueAnywhere(f, i, i + 1, ReadWidth(f, i + 1, lj, lz, Shift(given, f[i])), args, k);
    }
  }

  /** State 3: one modifier, or on to the conversion. */
  lemma SizeStep(f: Text, i: nat, lj: bool, lz: bool, given: word, z: Size, args: seq<Arg>, k: nat)
    requires i < |f|
    ensures var r := Continue(f, i, ReadSize(f, i, lj, lz, given, z), args, k);
      if IsModifier(f[i]) then
        r == if i + 1 == |f| then Done([]) else Continue(f, i + 1, ReadSize(f, i + 1, lj, lz, given, Modify(z, f[i])), args, k)
      else
        var t := Render(Spec(lj, lz, given, z, f[i]), args, k);
        r == if t.None? then BadArgument([]) else Prefix(t.value.0, Formatted(f, i + 1, args, t.value.1))
  {
    if IsModifier(f[i]) && i + 1 < |f| {
      ContinueAnywhere(f, i, i + 1, ReadSize(f, i + 1, lj, lz, given, Modify(z, f[i])), args, k);
    }
  }

  /** State 1: a percent sign, a flag, or on to the field width. */
  method TakeFlag(fmt: Text, i: nat, flags: Flags, out: Text, ghost args: seq<Arg>, ghost k: nat)
    returns (again: bool, state: nat, flags': Flags, i': nat, out': Text)
    requires i <= |fmt| && NUL !in fmt && Reset(1, flags, 0)
    ensures i <= i' <= |fmt| && Reset(state, flags', 0) && (again ==> state <= 1 && i < i') && (!again ==> state == 2)
    ensures var all := Prefix(out, if i == |fmt| then Overread([]) else Continue(fmt, i, ReadFlags(fmt, i, flags.lj), args, k));
      all == Prefix(out', if again then Rest(fmt, i', state, flags', 0, args, k)
                          else if i' == |fmt| then Overread([])
                          else Continue(fmt, i', ReadWidth(fmt, i', flags'.lj, flags'.lz, 0), args, k))
  {
    hide Formatted, Continue, ReadFlags, ReadWidth, ReadSize, Prefix;
    again, state, flags', i', out' := false, 2, flags, i, out;
    if i < |fmt| {
      FlagStep(fmt, i, flags.lj, args, k);
    }
    if At(fmt, i) == PERCENT {
      PrefixPrefix(out, [PERCENT], Formatted(fmt, i + 1, args, k));
      return true, 0, NO_FLAGS, i + 1, out + [PERCENT];
    }
    if At(fmt, i) == MINUS {
      if flags.lj {
        return true, 0, NO_FLAGS, i + 1, out;
      }
      return true, 1, flags.(lj := true), i + 1, out;
    }
    if At(fmt, i) == ZERO {
      flags' := flags.(lz := true);
      i' := i + 1;
    }
  }

  /** States 2 and 3: a digit of the width, a modifier, or on to the conversion. */
  method TakeSpec(fmt: Text, i: nat, state: nat, flags: Flags, given: word, ghost args: seq<Arg>, ghost k: nat)
    returns (again: bool, state': nat, flags': Flags, given': word)
    requires i <= |fmt| && NUL !in fmt && 2 <= state && Reset(state, flags, given)
    ensures again ==> i < |fmt| && state' >= 2 && Reset(state', flags', given')
    ensures again ==> Rest(fmt, i, state, flags, given, args, k) == Rest(fmt, i + 1, state', flags', given', args, k)
    ensures !again ==> flags' == flags && given' == given && !IsModifier(At(fmt, i))
    ensures !again && i < |fmt| ==>
      Rest(fmt, i, state, flags, given, args, k) ==
        Continue(fmt, i, ReadSize(fmt, i, flags.lj, flags.lz, given, Size(flags.fp, flags.l32, flags.l64, flags.l16)), args, k)
  {
    hide Formatted, Continue, ReadFlags, ReadWidth, ReadSize, Render, Prefix, Shift;
    state', flags', given' := state, flags, given;
    if state' == 2 {
      if i < |fmt| {
        WidthStep(fmt, i, flags.lj, flags.lz, given, args, k);
      }
      if IsDigit(At(fmt, i)) {
        given' := Shift(given, At(fmt, i));
        return true, state', flags', given';
      }
      state' := 3;
    }
    if IsModifier(At(fmt, i)) {
      SizeStep(fmt, i, flags.lj, flags.lz, given, Size(flags.fp, flags.l32, flags.l64, flags.l16), args, k);
      flags' := Modified(flags, At(fmt, i));
      return true, state', flags', given';
    }
    again := false;
  }

  /** State 4 and the end of the switch.  When the conversion character is the terminator
      nothing is printed, and the scan goes on behind it. */
  method Conclude(fmt: Text, i: nat, out: Text, flags: Flags, given: word, args: seq<Arg>, k: nat)
    returns (fault: Option<Outcome>, out': Text, k': nat)
    requires i <= |fmt| && ArgsOk(args) && !flags.ca && !flags.sg && !flags.ws && !IsModifier(At(fmt, i))
    ensures var z := Size(flags.fp, flags.l32, flags.l64, flags.l16);
      var all := Prefix(out, if i == |fmt| then Overread([]) else Continue(fmt, i, ReadSize(fmt, i, flags.lj, flags.lz, given, z), args, k));
      if fault.Some? then fault.value == all else i < |fmt| && all == Prefix(out', Formatted(fmt, i + 1, args, k'))
  {
    hide Formatted, Continue, ReadSize, Render, Prefix;
    AtEnd(fmt, out, args, k);
    if i == |fmt| {
      return Some(Overread(out)), out, k;
    }
    var c := At(fmt, i);
    ghost var z := Size(flags.fp, flags.l32, flags.l64, flags.l16);
    ghost var p := Spec(flags.lj, flags.lz, given, z, c);
    SizeStep(fmt, i, flags.lj, flags.lz, given, z, args, k);
    var ok;
    ok, out', k' := Convert(out, flags, given, c, args, k, p);
    if !ok {
      return Some(BadArgument(out)), out, k;
    }
    fault := None;
    PrefixPrefix(out, Render(p, args, k).value.0, Formatted(fmt, i + 1, args, k'));
  }

  /** do_printf.  The result says what went to the callback, and whether the format or the
      arguments led the C code outside of them. */
  method DoPrintf(fmt: Text, args: seq<Arg>) returns (count: nat, r: Outcome)
    requires NUL !in fmt && ArgsOk(args)
    ensures r == Formatted(fmt, 0, args, 0) && count == |r.out|
  {
    hide Formatted, Continue, ReadFlags, ReadWidth, ReadSize, Render, Prefix, Shift;
    var i, k, state := 0, 0, 0;
    var flags, given, out := NO_FLAGS, 0, [];
    ghost var all := Formatted(fmt, 0, args, 0);
    PrefixNone(all);
    while At(fmt, i) != NUL
      invariant i <= |fmt| && Reset(state, flags, given)
      invariant all == Prefix(out, Rest(fmt, i, state, flags, given, args, k))
      decreases |fmt| - i
    {
      if state == 0 {
        Echo(fmt, i, args, k);
        if fmt[i] != PERCENT {
          PrefixPrefix(out, [fmt[i]], Formatted(fmt, i + 1, args, k));
          out := out + [fmt[i]];
          i := i + 1;
          continue;
        }
        state := 1;
        i := i + 1;
      }
      if state == 1 {
        var again;
        again, state, flags, i, out := TakeFlag(fmt, i, flags, out, args, k);
        if again {
          continue;
        }
      }
      var more;
      more, state, flags, given := TakeSpec(fmt, i, state, flags, given, args, k);
      if more {
        i := i + 1;
        continue;
      }
      var fault;
      fault, out, k := Conclude(fmt, i, out, flags, given, args, k);
      if fault.Some? {
        return |fault.value.out|, fault.value;
      }
      state, flags, given := 0, NO_FLAGS, 0;
      i := i + 1;
    }
    AtEnd(fmt, out, args, k);
    return |out|, Done(out);
  }

  lemma AtEnd(f: Text, out: Text, args: seq<Arg>, k: nat)
    ensures Formatted(f, |f|, args, k) == Done([]) && Prefix(out, Done([])) == Done(out)
    ensures Prefix(out, Overread([])) == Overread(out) && Prefix(out, BadArgument([])) == BadArgument(out)
  {
  }

  function Modified(flags: Flags, c: byte): Flags {
    if c == 'F' as int then flags.(fp := true)
    else if c == 'L' as int then flags.(l64 := true)
    else if c == 'l' as int then flags.(l32 := true)
    else if c == 'h' as int then flags.(l16 := true)
    else flags
  }

  lemma PrefixNone(o: Outcome)
    ensures Prefix([], o) == o
  {
  }
}
