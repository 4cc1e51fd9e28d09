/** The language of do_printf's formats, from the writing side: every directive that can be
    spelled is read back as what it says, and what each piece of a format prints is fixed.
 */
module Directives {
  import opened Words
  import opened Terminal
  import opened Format
  import opened Printf
  import opened PrintfLaws

  // ----- numerals are unique -----

  lemma DigitApart(c: byte, d: byte, base: nat, upper: bool)
    requires base == 8 || base == 10 || base == 16
    requires '0' as int <= c <= '9' as int || IsLetter(c, base, upper)
    requires '0' as int <= d <= '9' as int || IsLetter(d, base, upper)
    ensures DigitValue(c) >= 0 && (DigitValue(c) == DigitValue(d) ==> c == d)
    ensures c == '0' as int <==> DigitValue(c) == 0
  {
  }

  lemma {:induction false} ValuePositive(s: Text, base: nat, upper: bool)
    requires base == 8 || base == 10 || base == 16
    requires s != [] && forall c :: c in s ==> '0' as int <= c <= '9' as int || IsLetter(c, base, upper)
    ensures Value(s, base) >= 0 && (s[0] != '0' as int ==> Value(s, base) > 0)
    decreases |s|
  {
    DigitApart(s[|s| - 1], s[|s| - 1], base, upper);
    if |s| == 1 {
      assert s[..0] == [];
    } else {
      ValuePositive(s[..|s| - 1], base, upper);
    }
  }

  lemma SplitEqual(a: int, b: int, c: int, d: int, base: nat)
    requires base == 8 || base == 10 || base == 16
    requires 0 <= b < base && 0 <= d < base && a * base + b == c * base + d
    ensures a == c && b == d
  {
    if base == 8 {
    } else if base == 10 {
    }
  }

  /** Digits below the base, as printed ones are. */
  predicate Proper(s: Text, base: nat) {
    forall c :: c in s ==> 0 <= DigitValue(c) < base
  }

  /** A number is written in a base in one way only. */
  lemma {:induction false} NumeralUnique(a: Text, b: Text, base: nat, upper: bool, mag: nat)
    requires base == 8 || base == 10 || base == 16
    requires IsNumeral(a, base, upper, mag) && IsNumeral(b, base, upper, mag) && Proper(a, base) && Proper(b, base)
    ensures a == b
    decreases |a|
  {
    var (x, y, c, d) := (a[..|a| - 1], b[..|b| - 1], a[|a| - 1], b[|b| - 1]);
    assert a == x + [c] && b == y + [d];
    assert c in a && d in b;
    DigitApart(c, d, base, upper);
    assert Value([], base) == 0;
    SplitEqual(Value(x, base), DigitValue(c), Value(y, base), DigitValue(d), base);
    if x != [] {
      ValuePositive(x, base, upper);
    }
    if y != [] {
      ValuePositive(y, base, upper);
    }
    if x != [] {
      assert x[0] == a[0] && y[0] == b[0];
      NumeralUnique(x, y, base, upper, Value(x, base));
    }
  }

  // ----- reading what was spelled -----

  predicate AreDigits(s: Text) {
    forall c :: c in s ==> '0' as int <= c <= '9' as int
  }

  /** Taking the first character off a text in place. */
  lemma Peel(f: Text, i: nat, c: byte, rest: Text)
    requires OccursAt(f, i, [c] + rest)
    ensures i < |f| && f[i] == c && OccursAt(f, i + 1, rest)
  {
    var s := [c] + rest;
    assert f[i] == f[i..i + |s|][0];
    assert f[i + 1..i + |s|] == f[i..i + |s|][1..] == rest;
  }

  lemma PeelDigit(s: Text)
    requires AreDigits(s) && s != []
    ensures '0' as int <= s[0] <= '9' as int && AreDigits(s[1..]) && s == [s[0]] + s[1..]
  {
    assert s[0] in s && forall c :: c in s[1..] ==> c in s;
  }

  lemma PeelModifier(s: Text)
    requires AreModifiers(s) && s != []
    ensures s[0] as char in "FNLlh" && AreModifiers(s[1..]) && s == [s[0]] + s[1..]
    ensures forall c :: c in s <==> c == s[0] || c in s[1..]
  {
    assert s[0] in s && forall c :: c in s[1..] ==> c in s;
  }

  predicate AreModifiers(s: Text) {
    forall c :: c in s ==> c as char in "FNLlh"
  }

  /** A directive behind its percent sign: flags, width, modifiers, conversion letter. */
  datatype Spelling = Spelling(left: bool, zero: bool, width: Text, mods: Text, conv: byte)

  /** The part before the conversion letter. */
  function Front(d: Spelling): Text {
    (if d.left then ['-' as int] else []) + (if d.zero then ['0' as int] else []) + d.width + d.mods
  }

  function Spelled(d: Spelling): Text {
    Front(d) + [d.conv]
  }

  /** The spelling can only be read one way: no part starts with what the part before it would
      have taken. */
  predicate Clear(d: Spelling) {
    && AreDigits(d.width) && AreModifiers(d.mods)
    && (!d.zero && d.width != [] ==> d.width[0] != '0' as int)
    && d.conv as char !in "FNLlh" && (d.mods == [] ==> !('0' as int <= d.conv <= '9' as int))
    && (!d.zero && d.width == [] && d.mods == [] ==> d.conv as char !in "%-")
  }

  /** What it says: the width in decimal, in 32 bits, and which modifiers are there. */
  function Meaning(d: Spelling): Spec {
    Spec(d.left, d.zero, Wrap(Value(d.width, 10)),
         Size('F' as int in d.mods, 'l' as int in d.mods, 'L' as int in d.mods, 'h' as int in d.mods), d.conv)
  }

  lemma {:induction false} ReadsModifiers(f: Text, i: nat, left: bool, zero: bool, width: word, z: Size, mods: Text, conv: byte)
    requires OccursAt(f, i, mods + [conv]) && AreModifiers(mods) && conv as char !in "FNLlh"
    ensures i + |mods| < |f|
    ensures ReadSize(f, i, left, zero, width, z) ==
      Conversion(Spec(left, zero, width, Size(z.far || 'F' as int in mods, z.long || 'l' as int in mods,
                                              z.longlong || 'L' as int in mods, z.short || 'h' as int in mods), conv),
                 i + |mods| + 1)
    decreases |mods|
  {
    hide OccursAt, AreModifiers;
    if mods != [] {
      PeelModifier(mods);
      assert mods + [conv] == [mods[0]] + (mods[1..] + [conv]);
      Peel(f, i, mods[0], mods[1..] + [conv]);
      ReadsModifiers(f, i + 1, left, zero, width, Modify(z, mods[0]), mods[1..], conv);
    } else {
      assert mods + [conv] == [conv] + [];
      Peel(f, i, conv, []);
    }
  }

  /** One more decimal digit, in 32 bits. */
  lemma ShiftValue(width: word, n: nat, c: byte)
    requires width == Wrap(n) && '0' as int <= c <= '9' as int
    ensures Shift(width, c) == Wrap(n * 10 + DigitValue(c))
  {
    var q := n as int / WORD;
    var x := width * 10 + DigitValue(c);
    assert n * 10 + DigitValue(c) == q * 10 * WORD + x;
    Wraps(q * 10, x);
  }

  lemma Wraps(q: int, x: int)
    ensures Wrap(q * WORD + x) == Wrap(x)
  {
  }

  lemma {:induction false} ValueNat(s: Text)
    requires AreDigits(s)
    ensures Value(s, 10) >= 0
    decreases |s|
  {
    if s != [] {
      var last := |s| - 1;
      assert s[last] in s && forall c :: c in s[..last] ==> c in s;
      ValueNat(s[..last]);
    }
  }

  /** A digit of the width, or what is left when there is none: modifiers and letter. */
  lemma {:induction false} ReadsWidth(f: Text, i: nat, left: bool, zero: bool, read: Text, width: Text, mods: Text, conv: byte)
    requires AreDigits(read) && AreDigits(width) && AreModifiers(mods) && conv as char !in "FNLlh"
    requires mods == [] ==> !('0' as int <= conv <= '9' as int)
    requires OccursAt(f, i, width + mods + [conv])
    ensures i + |width| + |mods| < |f|
    ensures ReadWidth(f, i, left, zero, Wrap(Value(read, 10))) ==
      Conversion(Spec(left, zero, Wrap(Value(read + width, 10)),
                      Size('F' as int in mods, 'l' as int in mods, 'L' as int in mods, 'h' as int in mods), conv),
                 i + |width| + |mods| + 1)
    decreases |width|
  {
    hide OccursAt, AreModifiers, Value, Shift, Wrap, DigitValue;
    if width == [] {
      assert width + mods + [conv] == mods + [conv] && read + width == read;
      ReadsModifiers(f, i, left, zero, Wrap(Value(read, 10)), Size(false, false, false, false), mods, conv);
      NoDigit(f, i, mods, conv);
    } else {
      PeelDigit(width);
      var (c, rest) := (width[0], width[1..]);
      assert width + mods + [conv] == [c] + (rest + mods + [conv]);
      Peel(f, i, c, rest + mods + [conv]);
      assert OccursAt(f, i + 1, rest + mods + [conv]);
      ValueNat(read);
      ShiftValue(Wrap(Value(read, 10)), Value(read, 10), c);
      ValueSnoc(read, c, 10);
      ReadsWidth(f, i + 1, left, zero, read + [c], rest, mods, conv);
      assert read + [c] + rest == read + width;
    }
  }

  lemma NoDigit(f: Text, i: nat, mods: Text, conv: byte)
    requires AreModifiers(mods) && OccursAt(f, i, mods + [conv]) && (mods == [] ==> !('0' as int <= conv <= '9' as int))
    ensures i < |f| && !IsDigit(f[i])
  {
    if mods != [] {
      PeelModifier(mods);
      assert mods + [conv] == [mods[0]] + (mods[1..] + [conv]);
      Peel(f, i, mods[0], mods[1..] + [conv]);
    } else {
      assert mods + [conv] == [conv] + [];
      Peel(f, i, conv, []);
    }
  }

  /** Reading a directive gives back what was spelled. */
  lemma ReadsSpelled(f: Text, i: nat, d: Spelling)
    requires Clear(d) && OccursAt(f, i, Spelled(d))
    ensures i < |f| && ReadFlags(f, i, false) == Conversion(Meaning(d), i + |Spelled(d)|)
  {
    hide OccursAt, Meaning;
    if d.left {
      assert Spelled(d) == ['-' as int] + AfterMinus(d);
      Peel(f, i, '-' as int, AfterMinus(d));
      ReadsAfterMinus(f, i + 1, d);
    } else {
      assert Spelled(d) == AfterMinus(d);
      ReadsAfterMinus(f, i, d);
    }
  }

  function AfterMinus(d: Spelling): (s: Text)
    ensures s != []
  {
    if d.zero then ['0' as int] + (d.width + d.mods + [d.conv]) else d.width + d.mods + [d.conv]
  }

  lemma ReadsAfterMinus(f: Text, i: nat, d: Spelling)
    requires Clear(d) && OccursAt(f, i, AfterMinus(d))
    ensures i < |f| && ReadFlags(f, i, d.left) == Conversion(Meaning(d), i + |AfterMinus(d)|)
  {
    assert Value([], 10) == 0 && [] + d.width == d.width;
    FirstOf(f, i, d);
    hide OccursAt, ReadWidth, Value, AreDigits, AreModifiers;
    if d.zero {
      Peel(f, i, '0' as int, d.width + d.mods + [d.conv]);
      ReadsWidth(f, i + 1, d.left, true, [], d.width, d.mods, d.conv);
    } else {
      ReadsWidth(f, i, d.left, false, [], d.width, d.mods, d.conv);
    }
  }

  lemma FirstOf(f: Text, i: nat, d: Spelling)
    requires Clear(d) && OccursAt(f, i, AfterMinus(d))
    ensures AreDigits([]) && i < |f| && (d.zero ==> f[i] == '0' as int && i + 1 < |f|)
    ensures !d.zero ==> f[i] as char !in "%-0"
  {
    var s := AfterMinus(d);
    assert f[i] == f[i..i + |s|][0] == s[0];
    if d.width != [] {
      PeelDigit(d.width);
    } else if d.mods != [] {
      PeelModifier(d.mods);
    }
  }

  // ----- what each piece of a format prints -----

  /** Ordinary characters are copied; "%%" and "%-%" print a percent sign; "%--" prints nothing. */
  lemma PlainPieces(f: Text, i: nat, args: seq<Arg>, k: nat)
    requires i < |f|
    ensures f[i] != '%' as int ==> Formatted(f, i, args, k) == Prefix([f[i]], Formatted(f, i + 1, args, k))
    ensures OccursAt(f, i, ['%' as int, '%' as int]) ==>
      Formatted(f, i, args, k) == Prefix(['%' as int], Formatted(f, i + 2, args, k))
    ensures OccursAt(f, i, ['%' as int, '-' as int, '%' as int]) ==>
      Formatted(f, i, args, k) == Prefix(['%' as int], Formatted(f, i + 3, args, k))
    ensures OccursAt(f, i, ['%' as int, '-' as int, '-' as int]) ==>
      Formatted(f, i, args, k) == Formatted(f, i + 3, args, k)
  {
    hide Formatted;
    if OccursAt(f, i, ['%' as int, '%' as int]) {
      Peel(f, i, '%' as int, ['%' as int]);
      FormattedAt(f, i, args, k);
    }
    if OccursAt(f, i, ['%' as int, '-' as int, '%' as int]) || OccursAt(f, i, ['%' as int, '-' as int, '-' as int]) {
      var s := f[i..i + 3];
      assert f[i] == s[0] && f[i + 1] == s[1] && f[i + 2] == s[2];
      FormattedAt(f, i, args, k);
      assert ReadFlags(f, i + 1, false) == ReadFlags(f, i + 2, true);
    }
    if f[i] != '%' as int {
      FormattedAt(f, i, args, k);
    }
  }

  lemma FormattedAt(f: Text, i: nat, args: seq<Arg>, k: nat)
    requires i < |f|
    ensures Formatted(f, i, args, k) ==
      if f[i] != PERCENT then Prefix([f[i]], Formatted(f, i + 1, args, k))
      else if i + 1 == |f| then Overread([])
      else Continue(f, i, ReadFlags(f, i + 1, false), args, k)
  {
  }

  /** A directive prints what its conversion does, then the rest of the format follows. */
  lemma DirectivePiece(f: Text, i: nat, d: Spelling, args: seq<Arg>, k: nat)
    requires Clear(d) && OccursAt(f, i, ['%' as int] + Spelled(d))
    ensures i + 1 + |Spelled(d)| <= |f|
    ensures var r := Render(Meaning(d), args, k);
      Formatted(f, i, args, k) ==
        if r.None? then BadArgument([]) else Prefix(r.value.0, Formatted(f, i + 1 + |Spelled(d)|, args, r.value.1))
  {
    hide Render, Meaning, ReadFlags;
    var s := ['%' as int] + Spelled(d);
    assert f[i..i + |s|][0] == f[i] == s[0];
    assert f[i + 1..i + |s|] == f[i..i + |s|][1..] == Spelled(d);
    ReadsSpelled(f, i + 1, d);
  }

  /** A format that ends within a directive, but not right behind a percent sign or a zero
      flag, prints nothing for it. */
  lemma CutPiece(f: Text, i: nat, d: Spelling, args: seq<Arg>, k: nat)
    requires AreDigits(d.width) && AreModifiers(d.mods) && (!d.zero && d.width != [] ==> d.width[0] != '0' as int)
    requires i < |f| && f[i..] == ['%' as int] + Front(d) && Front(d) != [] && (d.zero ==> d.width != [] || d.mods != [])
    ensures Formatted(f, i, args, k) == Done([])
  {
    var s := Front(d);
    assert f[i] == f[i..][0] == '%' as int;
    assert f[i + 1..] == f[i..][1..] == s;
    CutFlags(f, i + 1, d);
  }

  lemma CutFlags(f: Text, i: nat, d: Spelling)
    requires AreDigits(d.width) && AreModifiers(d.mods) && (!d.zero && d.width != [] ==> d.width[0] != '0' as int)
    requires i < |f| && f[i..] == Front(d) && (d.zero ==> d.width != [] || d.mods != [])
    ensures ReadFlags(f, i, false) == Cut
  {
    var rest := (if d.zero then ['0' as int] else []) + d.width + d.mods;
    assert f[i] == f[i..][0];
    if d.left {
      assert f[i..] == ['-' as int] + rest;
      if i + 1 < |f| {
        assert f[i + 1..] == f[i..][1..] == rest;
        CutAfterMinus(f, i + 1, d);
      }
    } else {
      assert f[i..] == rest;
      CutAfterMinus(f, i, d);
    }
  }

  lemma CutAfterMinus(f: Text, i: nat, d: Spelling)
    requires AreDigits(d.width) && AreModifiers(d.mods) && (!d.zero && d.width != [] ==> d.width[0] != '0' as int)
    requires i < |f| && f[i..] == (if d.zero then ['0' as int] else []) + d.width + d.mods
    requires d.zero ==> d.width != [] || d.mods != []
    ensures ReadFlags(f, i, d.left) == Cut
  {
    var tail := d.width + d.mods;
    assert f[i] == f[i..][0];
    if d.zero {
      assert f[i..] == ['0' as int] + tail;
      assert f[i + 1..] == f[i..][1..] == tail;
      CutWidth(f, i + 1, d.left, true, 0, d.width, d.mods);
    } else {
      assert f[i..] == tail;
      assert d.width != [] ==> f[i] == d.width[0] && f[i] in d.width;
      assert d.width == [] ==> f[i] == d.mods[0] && f[i] in d.mods;
      CutWidth(f, i, d.left, false, 0, d.width, d.mods);
    }
  }

  lemma {:induction false} CutWidth(f: Text, i: nat, left: bool, zero: bool, n: word, width: Text, mods: Text)
    requires AreDigits(width) && AreModifiers(mods) && i < |f| && f[i..] == width + mods
    ensures ReadWidth(f, i, left, zero, n) == Cut
    decreases |width|
  {
    assert f[i] == f[i..][0];
    if width != [] {
      PeelDigit(width);
      assert f[i] == width[0];
      assert f[i + 1..] == f[i..][1..] == width[1..] + mods;
      if i + 1 < |f| {
        CutWidth(f, i + 1, left, zero, Shift(n, f[i]), width[1..], mods);
      }
    } else {
      assert f[i..] == mods && f[i] == mods[0];
      PeelModifier(mods);
      CutSize(f, i, left, zero, n, Size(false, false, false, false), mods);
    }
  }

  lemma {:induction false} CutSize(f: Text, i: nat, left: bool, zero: bool, n: word, z: Size, mods: Text)
    requires AreModifiers(mods) && i < |f| && f[i..] == mods
    ensures ReadSize(f, i, left, zero, n, z) == Cut
    decreases |mods|
  {
    assert f[i] == f[i..][0] == mods[0];
    PeelModifier(mods);
    if i + 1 < |f| {
      assert f[i + 1..] == f[i..][1..] == mods[1..];
      CutSize(f, i + 1, left, zero, n, Modify(z, f[i]), mods[1..]);
    }
  }
}
