/** What is promised of the printed text, and exactly when the format is overrun. */
module PrintfLaws {
  import opened Words
  import opened Terminal
  import opened Format
  import opened Printf

  // ----- digits -----

  function DigitValue(c: byte): int {
    if '0' as int <= c <= '9' as int then c - '0' as int
    else if 'A' as int <= c <= 'F' as int then c - 'A' as int + 10
    else if 'a' as int <= c <= 'f' as int then c - 'a' as int + 10
    else -1
  }

  /** The number a digit string stands for. */
  function Value(s: Text, radix: nat): int {
    if s == [] then 0 else Value(s[..|s| - 1], radix) * radix + DigitValue(s[|s| - 1])
  }

  lemma ValueSnoc(s: Text, c: byte, radix: nat)
    ensures Value(s + [c], radix) == Value(s, radix) * radix + DigitValue(c)
  {
    assert (s + [c])[..|s|] == s;
  }

  lemma DivMod(n: nat, radix: nat)
    requires radix == 8 || radix == 10 || radix == 16
    ensures n / radix * radix + n % radix == n && n % radix < radix
  {
  }

  lemma DigitCharValue(d: nat, upper: bool)
    requires d < 16
    ensures DigitValue(DigitChar(d, upper)) == d && (d > 0 ==> DigitChar(d, upper) != ZERO)
  {
  }

  lemma {:induction false} DigitsClean(n: nat, radix: nat, upper: bool)
    requires radix == 8 || radix == 10 || radix == 16
    ensures n > 0 ==> Digits(n, radix, upper)[0] != ZERO
    ensures forall c :: c in Digits(n, radix, upper) ==> 0 <= DigitValue(c) < radix
    decreases n
  {
    hide Digits, DigitValue, DigitChar;
    DigitsStep(n, radix, upper);
    Quotient(n, radix);
    DivMod(n, radix);
    DigitCharValue(n % radix, upper);
    if n / radix > 0 {
      DigitsClean(n / radix, radix, upper);
    }
  }

  /** The digits printed are the number: they evaluate back to it, and have no leading zero. */
  lemma {:induction false} DigitsValue(n: nat, radix: nat, upper: bool)
    requires radix == 8 || radix == 10 || radix == 16
    ensures Value(Digits(n, radix, upper), radix) == n
    ensures n > 0 ==> Digits(n, radix, upper)[0] != ZERO
    ensures forall c :: c in Digits(n, radix, upper) ==> 0 <= DigitValue(c) < radix
    decreases n
  {
    DigitsClean(n, radix, upper);
    assert Value([], radix) == 0;
    hide Digits, DigitValue, DigitChar, Value;
    var (q, d) := (n / radix, DigitChar(n % radix, upper));
    DigitsStep(n, radix, upper);
    Quotient(n, radix);
    DivMod(n, radix);
    DigitCharValue(n % radix, upper);
    if q > 0 {
      DigitsValue(q, radix, upper);
      ValueSnoc(Digits(q, radix, upper), d, radix);
    } else {
      ValueSnoc([], d, radix);
      assert [] + [d] == [d];
    }
  }

  // ----- widths -----

  function Max(a: nat, b: nat): nat {
    if a > b then a else b
  }

  /** A field is as wide as asked, or as wide as its contents if those are wider. */
  lemma FieldLength(left: bool, zero: bool, width: nat, negative: bool, body: Text)
    ensures |Field(left, zero, width, negative, body, |body| + if negative then 1 else 0)|
         == Max(width, |body| + if negative then 1 else 0)
  {
  }

  /** A text at a place in another. */
  predicate OccursAt(f: Text, i: nat, s: Text) {
    i + |s| <= |f| && f[i..i + |s|] == s
  }

  lemma Parts(a: Text, b: Text, c: Text)
    ensures OccursAt(a + b + c, 0, a) && OccursAt(a + b + c, |a|, b) && OccursAt(a + b + c, |a| + |b|, c)
  {
  }

  lemma OneAt(f: Text, i: nat, c: byte)
    requires OccursAt(f, i, [c])
    ensures i < |f| && f[i] == c
  {
    assert f[i] == f[i..i + 1][0];
  }

  lemma FilledAt(f: Text, i: nat, n: nat, c: byte)
    requires OccursAt(f, i, Fill(n, c))
    ensures forall k :: i <= k < i + n ==> f[k] == c
  {
    forall k | i <= k < i + n ensures f[k] == c {
      assert f[k] == f[i..i + n][k - i] == Fill(n, c)[k - i];
    }
  }

  lemma FieldParts(left: bool, zero: bool, width: nat, negative: bool, body: Text, actual: nat)
    returns (f: Text, sign: Text, pad: nat)
    ensures f == Field(left, zero, width, negative, body, actual) && pad == Padding(width, actual)
    ensures sign == (if negative then [MINUS] else []) && |f| == |sign| + |body| + pad
    ensures left ==> OccursAt(f, 0, sign) && OccursAt(f, |sign|, body) && OccursAt(f, |sign| + |body|, Fill(pad, SPACE))
    ensures !left && zero ==> OccursAt(f, 0, sign) && OccursAt(f, |sign|, Fill(pad, ZERO)) && OccursAt(f, |sign| + pad, body)
    ensures !left && !zero ==> OccursAt(f, 0, Fill(pad, SPACE)) && OccursAt(f, pad, sign) && OccursAt(f, pad + |sign|, body)
  {
    hide OccursAt;
    sign := if negative then [MINUS] else [];
    pad := Padding(width, actual);
    f := Field(left, zero, width, negative, body, actual);
    if left {
      Parts(sign, body, Fill(pad, SPACE));
    } else if zero {
      Parts(sign, Fill(pad, ZERO), body);
    } else {
      Parts(Fill(pad, SPACE), sign, body);
    }
  }

  function Padding(width: nat, actual: nat): nat {
    if width > actual then width - actual else 0
  }

  /** Where everything in a field is: padding only on one side, zeroes only on the left, the
      sign next to the digits or, with zero padding, in front of the zeroes. */
  predicate LaidOut(f: Text, left: bool, zero: bool, pad: nat, negative: bool, body: Text) {
    var sign := if negative then 1 else 0;
    var padding := if left then sign + |body| else if zero then sign else 0;
    && |f| == sign + |body| + pad
    && OccursAt(f, if left then sign else sign + pad, body)
    && (negative ==> f[if left || zero then 0 else pad] == '-' as int)
    && (forall k :: padding <= k < padding + pad ==> f[k] == if left || !zero then ' ' as int else '0' as int)
  }

  lemma FieldLayout(left: bool, zero: bool, width: nat, negative: bool, body: Text, actual: nat)
    ensures LaidOut(Field(left, zero, width, negative, body, actual), left, zero, Padding(width, actual), negative, body)
  {
    var f, sign, pad := FieldParts(left, zero, width, negative, body, actual);
    hide OccursAt, Field;
    FilledAt(f, if left then |body| + |sign| else if zero then |sign| else 0, pad, if left || !zero then SPACE else ZERO);
    if negative {
      OneAt(f, if left || zero then 0 else pad, MINUS);
    }
  }

  /** The number mag written out: its digits have that value in the base, the first is not 0
      unless it is the only one, and those above 9 are letters of one case. */
  predicate IsNumeral(s: Text, base: nat, upper: bool, mag: nat) {
    && s != [] && Value(s, base) == mag && (s[0] == '0' as int ==> |s| == 1)
    && forall c :: c in s ==> '0' as int <= c <= '9' as int || IsLetter(c, base, upper)
  }

  predicate IsLetter(c: byte, base: nat, upper: bool) {
    base == 16 && if upper then 'A' as int <= c <= 'F' as int else 'a' as int <= c <= 'f' as int
  }

  lemma DigitsLetters(n: nat, radix: nat, upper: bool)
    requires radix == 8 || radix == 10 || radix == 16
    ensures forall c :: c in Digits(n, radix, upper) ==> '0' as int <= c <= '9' as int || IsLetter(c, radix, upper)
    ensures n == 0 ==> |Digits(n, radix, upper)| == 1
    decreases n
  {
    DigitsStep(n, radix, upper);
    Quotient(n, radix);
    if n / radix > 0 {
      hide Digits;
      DigitsLetters(n / radix, radix, upper);
    }
  }

  lemma DigitsNumeral(n: nat, radix: nat, upper: bool)
    requires radix == 8 || radix == 10 || radix == 16
    ensures IsNumeral(Digits(n, radix, upper), radix, upper, n)
  {
    hide Digits, Value;
    DigitsValue(n, radix, upper);
    DigitsLetters(n, radix, upper);
  }

  /** Sign and magnitude are those of the low part of v, a two's complement number if signed. */
  predicate IsReadAs(v: word, range: nat, signed: bool, negative: bool, mag: word)
    requires range > 0
  {
    && v % range == (if negative then range - mag else mag)
    && (negative <==> signed && v % range >= range / 2)
  }

  lemma NumberRead(z: Size, signed: bool, args: seq<Arg>, k: nat)
    requires Number(z, signed, args, k).Some?
    ensures k < |args| && args[k].Word?
    ensures var (negative, mag, next) := Number(z, signed, args, k).value;
      IsReadAs(args[k].v, if z.short && !z.long && !z.longlong then 0x1_0000 else WORD, signed, negative, mag)
  {
  }

  /** The text is a field with the numeral of mag, and a sign if negative; they are v read in 32
      bits, or in its low 16 after h, as two's complement if signed. */
  predicate IsNumberField(
    text: Text, p: Spec, v: word, base: nat, signed: bool, upper: bool, negative: bool, mag: word, body: Text)
  {
    && IsReadAs(v, if p.size.short && !p.size.long && !p.size.longlong then 0x1_0000 else 0x1_0000_0000, signed, negative, mag)
    && IsNumeral(body, base, upper, mag) && |body| <= 11
    && LaidOut(text, p.left, p.zero, Padding(p.width, |body| + if negative then 1 else 0), negative, body)
  }

  ghost predicate PrintsNumber(text: Text, p: Spec, v: word, base: nat, signed: bool, upper: bool) {
    exists negative: bool, mag: word, body: Text :: IsNumberField(text, p, v, base, signed, upper, negative, mag, body)
  }

  /** What a numeric conversion prints, letter by letter. */
  lemma NumericField(p: Spec, args: seq<Arg>, k: nat)
    requires Render(p, args, k).Some?
    ensures var (text, c) := (Render(p, args, k).value.0, p.conv as char);
      c in "Xxpndiuo" ==>
        && k < |args| && args[k].Word?
        && (c == 'X' ==> PrintsNumber(text, p, args[k].v, 16, false, true))
        && (c in "xpn" ==> PrintsNumber(text, p, args[k].v, 16, false, false))
        && (c in "di" ==> PrintsNumber(text, p, args[k].v, 10, true, false))
        && (c == 'u' ==> PrintsNumber(text, p, args[k].v, 10, false, false))
        && (c == 'o' ==> PrintsNumber(text, p, args[k].v, 8, false, false))
  {
    ConversionLetters(p.conv);
    if p.conv as char in "Xxpndiuo" {
      NumberPrinted(p, args, k);
    }
    hide PrintsNumber, Render, Radix, Signed;
  }

  /** The letters of the numeric conversions, by base and sign. */
  lemma ConversionLetters(c: byte)
    ensures Radix(c) == (if c as char in "Xxpn" then 16 else if c as char in "diu" then 10 else if c as char == 'o' then 8 else 0)
    ensures Signed(c) <==> c as char in "di"
  {
  }

  lemma NumberInField(p: Spec, v: word, base: nat, signed: bool, upper: bool, negative: bool, mag: word)
    requires base == 8 || base == 10 || base == 16
    requires IsReadAs(v, if p.size.short && !p.size.long && !p.size.longlong then 0x1_0000 else 0x1_0000_0000, signed, negative, mag)
    ensures var body := Digits(mag, base, upper);
      PrintsNumber(Field(p.left, p.zero, p.width, negative, body, |body| + if negative then 1 else 0), p, v, base, signed, upper)
  {
    hide IsReadAs, IsNumeral, LaidOut, Digits, Field, Padding;
    var body := Digits(mag, base, upper);
    var actual := |body| + if negative then 1 else 0;
    DigitsNumeral(mag, base, upper);
    WordFits(mag, base, upper);
    FieldLayout(p.left, p.zero, p.width, negative, body, actual);
    assert IsNumberField(Field(p.left, p.zero, p.width, negative, body, actual), p, v, base, signed, upper, negative, mag, body);
  }

  lemma NumberPrinted(p: Spec, args: seq<Arg>, k: nat)
    requires Radix(p.conv) != 0 && Render(p, args, k).Some?
    ensures k < |args| && args[k].Word?
    ensures PrintsNumber(Render(p, args, k).value.0, p, args[k].v, Radix(p.conv), Signed(p.conv), p.conv == 'X' as int)
  {
    NumberRead(p.size, Signed(p.conv), args, k);
    var (negative, mag, next) := Number(p.size, Signed(p.conv), args, k).value;
    NumberInField(p, args[k].v, Radix(p.conv), Signed(p.conv), p.conv == 'X' as int, negative, mag);
    hide PrintsNumber, Number, Digits, Field, Signed, IsReadAs;
  }

  /** What the other conversions print: a character's low byte, unless it is NUL; a string; and
      nothing for any other letter.  The zero flag does not count. */
  lemma TextField(p: Spec, args: seq<Arg>, k: nat)
    requires Render(p, args, k).Some?
    ensures p.conv as char == 'c' ==> k < |args| && args[k].Word?
    ensures p.conv as char == 's' ==> k < |args| && args[k].Str?
    ensures var (text, c) := (Render(p, args, k).value.0, p.conv as char);
      && (c == 'c' ==> var low := args[k].v % 256; LaidOut(text, p.left, false, Padding(p.width, 1), false, if low == 0 then [] else [low]))
      && (c == 's' ==> LaidOut(text, p.left, false, Padding(p.width, |args[k].s|), false, args[k].s))
      && (c !in "Xxpndiuocs" ==> text == [])
  {
    hide LaidOut, Field, Digits;
    if p.conv == 'c' as int {
      var c := args[k].v % 0x100;
      FieldLayout(p.left, false, p.width, false, if c == NUL then [] else [c], 1);
    } else if p.conv == 's' as int {
      FieldLayout(p.left, false, p.width, false, args[k].s, |args[k].s|);
    }
  }

  /** How many arguments a conversion uses up: one, but two for a number with L and no l, and
      none for a letter that means nothing. */
  lemma ArgumentsUsed(p: Spec, args: seq<Arg>, k: nat)
    requires Render(p, args, k).Some?
    ensures var c := p.conv as char;
      Render(p, args, k).value.1 == k +
        if c in "Xxpndiuo" then (if p.size.longlong && !p.size.long then 2 else 1) else if c in "cs" then 1 else 0
  {
    hide Field, Digits;
  }

  // ----- the end of the format -----

  /** Reading items from i on ends exactly at j. */
  ghost predicate Whole(f: Text, i: nat, j: nat)
    requires i <= |f|
    decreases |f| - i
  {
    if i >= j then i == j
    else if i == |f| then false
    else if f[i] != PERCENT then Whole(f, i + 1, j)
    else i + 1 < |f| && Ends(ReadFlags(f, i + 1, false)) && Whole(f, ReadFlags(f, i + 1, false).end, j)
  }

  predicate Ends(d: Directive) {
    d.Percent? || d.Dropped? || d.Conversion?
  }

  ghost predicate Stub(s: Text) {
    s == [PERCENT] || s == [PERCENT, ZERO] || s == [PERCENT, MINUS, ZERO]
  }

  /** After whole items, the format ends right behind a percent sign or its zero flag. */
  ghost predicate Dangling(f: Text, i: nat)
    requires i <= |f|
  {
    exists j :: i <= j <= |f| && Whole(f, i, j) && Stub(f[j..])
  }

  lemma {:induction false} PastIff(f: Text, i: nat, left: bool)
    requires i < |f|
    ensures ReadFlags(f, i, left) == Past <==> f[i..] == [ZERO] || (!left && f[i..] == [MINUS, ZERO])
    decreases |f| - i
  {
    if f[i] == MINUS && !left && i + 1 < |f| {
      PastIff(f, i + 1, true);
      assert f[i..] == [MINUS] + f[i + 1..];
    } else if f[i] == ZERO && i + 1 < |f| {
      WidthNotPast(f, i + 1, left, true, 0);
    } else if f[i] != PERCENT && f[i] != MINUS && f[i] != ZERO {
      WidthNotPast(f, i, left, false, 0);
    }
    assert i + 1 == |f| ==> f[i..] == [f[i]];
  }

  lemma {:induction false} WidthNotPast(f: Text, i: nat, left: bool, zero: bool, width: word)
    requires i < |f|
    ensures ReadWidth(f, i, left, zero, width) != Past
    decreases |f| - i
  {
    if IsDigit(f[i]) {
      if i + 1 < |f| {
        WidthNotPast(f, i + 1, left, zero, Shift(width, f[i]));
      }
    } else {
      SizeNotPast(f, i, left, zero, width, Size(false, false, false, false));
    }
  }

  lemma {:induction false} SizeNotPast(f: Text, i: nat, left: bool, zero: bool, width: word, z: Size)
    requires i < |f|
    ensures ReadSize(f, i, left, zero, width, z) != Past
    decreases |f| - i
  {
    if IsModifier(f[i]) && i + 1 < |f| {
      SizeNotPast(f, i + 1, left, zero, width, Modify(z, f[i]));
    }
  }

  /** The next item is complete and ends at e. */
  ghost predicate Item(f: Text, i: nat, e: nat)
    requires i < |f|
  {
    if f[i] != PERCENT then e == i + 1
    else i + 1 < |f| && Ends(ReadFlags(f, i + 1, false)) && e == ReadFlags(f, i + 1, false).end
  }

  lemma DanglingNext(f: Text, i: nat, e: nat)
    requires i < |f| && Item(f, i, e)
    ensures i < e <= |f| && (Dangling(f, i) <==> Dangling(f, e))
  {
    if f[i] == PERCENT {
      NotStub(f, i);
    }
    if Dangling(f, i) {
      var j :| i <= j <= |f| && Whole(f, i, j) && Stub(f[j..]);
      assert j != i;
      WholeForward(f, e, j);
      assert Whole(f, e, j);
    }
    if Dangling(f, e) {
      var j :| e <= j <= |f| && Whole(f, e, j) && Stub(f[j..]);
      assert Whole(f, i, j);
    }
  }

  lemma WholeForward(f: Text, i: nat, j: nat)
    requires i <= |f| && Whole(f, i, j)
    ensures i <= j
  {
  }

  /** A percent sign that begins a complete item is not the start of a stub. */
  lemma NotStub(f: Text, i: nat)
    requires i + 1 < |f| && f[i] == PERCENT && ReadFlags(f, i + 1, false) != Past
    ensures !Stub(f[i..])
  {
    PastIff(f, i + 1, false);
    assert f[i..] == [PERCENT] + f[i + 1..];
  }

  /** At a percent sign that begins no complete item, dangling is being a stub. */
  lemma DanglingHere(f: Text, i: nat)
    requires i < |f| && f[i] == PERCENT && forall e :: !Item(f, i, e)
    ensures Dangling(f, i) <==> Stub(f[i..])
    ensures Dangling(f, i) <==> i + 1 == |f| || ReadFlags(f, i + 1, false) == Past
  {
    assert Whole(f, i, i);
    assert f[i..] == [PERCENT] + f[i + 1..];
    if i + 1 < |f| {
      PastIff(f, i + 1, false);
      assert !Item(f, i, if Ends(ReadFlags(f, i + 1, false)) then ReadFlags(f, i + 1, false).end else 0);
    }
    if Dangling(f, i) {
      var j :| i <= j <= |f| && Whole(f, i, j) && Stub(f[j..]);
    }
  }

  /** The scan of the format, which no argument influences, reads past the terminator. */
  predicate Overruns(f: Text, i: nat)
    requires i <= |f|
    decreases |f| - i
  {
    if i == |f| then false
    else if f[i] != PERCENT then Overruns(f, i + 1)
    else if i + 1 == |f| then true
    else
      var d := ReadFlags(f, i + 1, false);
      if Ends(d) then Overruns(f, d.end) else d.Past?
  }

  /** do_printf reads past the terminator, whatever its arguments, exactly when the format ends
      right behind a percent sign or its leading zero flag. */
  lemma {:induction false} OverrunsIff(f: Text, i: nat)
    requires i <= |f|
    ensures Overruns(f, i) <==> Dangling(f, i)
    decreases |f| - i
  {
    hide Dangling, ReadFlags;
    if i == |f| {
      NothingDangles(f);
    } else if f[i] != PERCENT {
      DanglingNext(f, i, i + 1);
      OverrunsIff(f, i + 1);
    } else if i + 1 < |f| && Ends(ReadFlags(f, i + 1, false)) {
      DanglingNext(f, i, ReadFlags(f, i + 1, false).end);
      OverrunsIff(f, ReadFlags(f, i + 1, false).end);
    } else {
      DanglingHere(f, i);
    }
  }

  datatype Need = ADword | AText

  /** The arguments a conversion takes. */
  function Needs(p: Spec): seq<Need> {
    if Radix(p.conv) != 0 then if p.size.longlong && !p.size.long then [ADword, ADword] else [ADword]
    else if p.conv == 'c' as int then [ADword]
    else if p.conv == 's' as int then [AText]
    else []
  }

  /** The arguments a format takes. */
  function AllNeeds(f: Text, i: nat): seq<Need>
    requires i <= |f|
    decreases |f| - i
  {
    if i == |f| then []
    else if f[i] != PERCENT then AllNeeds(f, i + 1)
    else if i + 1 == |f| then []
    else
      var d := ReadFlags(f, i + 1, false);
      if !Ends(d) then []
      else (if d.Conversion? then Needs(d.spec) else []) + AllNeeds(f, d.end)
  }

  predicate Meets(n: Need, a: Arg) {
    if n.ADword? then a.Word? else a.Str?
  }

  /** The arguments from k on are of the kinds asked for. */
  predicate Fit(needs: seq<Need>, args: seq<Arg>, k: nat) {
    needs == [] || (k < |args| && Meets(needs[0], args[k]) && Fit(needs[1..], args, k + 1))
  }

  lemma {:induction false} FitConcat(a: seq<Need>, b: seq<Need>, args: seq<Arg>, k: nat)
    ensures Fit(a + b, args, k) <==> Fit(a, args, k) && Fit(b, args, k + |a|)
  {
    if a == [] {
      assert a + b == b;
    } else {
      assert (a + b)[1..] == a[1..] + b;
      FitConcat(a[1..], b, args, k + 1);
    }
  }

  lemma RenderFits(p: Spec, args: seq<Arg>, k: nat)
    ensures Render(p, args, k).Some? <==> Fit(Needs(p), args, k)
    ensures Render(p, args, k).Some? ==> Render(p, args, k).value.1 == k + |Needs(p)|
  {
    hide Digits, Field;
    var two := [ADword, ADword];
    assert two[1..] == [ADword];
    assert Fit([ADword], args, k + 1) <==> k + 1 < |args| && args[k + 1].Word?;
    assert Fit(two, args, k) <==> k < |args| && args[k].Word? && Fit(two[1..], args, k + 1);
    assert Fit(two, args, k) <==> k + 1 < |args| && args[k].Word? && args[k + 1].Word?;
  }

  /** How a call ends: the arguments do not fit the format, the format is overrun, or neither. */
  lemma {:induction false} OutcomeIff(f: Text, i: nat, args: seq<Arg>, k: nat)
    requires i <= |f|
    ensures Formatted(f, i, args, k).BadArgument? <==> !Fit(AllNeeds(f, i), args, k)
    ensures Formatted(f, i, args, k).Overread? <==> Fit(AllNeeds(f, i), args, k) && Overruns(f, i)
    decreases |f| - i
  {
    hide Render, ReadFlags, Fit, Needs;
    NoNeeds(args, k);
    if i == |f| {
    } else if f[i] != PERCENT {
      OutcomeIff(f, i + 1, args, k);
    } else if i + 1 < |f| && Ends(ReadFlags(f, i + 1, false)) {
      var d := ReadFlags(f, i + 1, false);
      if d.Conversion? {
        RenderFits(d.spec, args, k);
        FitConcat(Needs(d.spec), AllNeeds(f, d.end), args, k);
        OutcomeIff(f, d.end, args, k + |Needs(d.spec)|);
      } else {
        assert [] + AllNeeds(f, d.end) == AllNeeds(f, d.end);
        OutcomeIff(f, d.end, args, k);
      }
    }
  }

  lemma NoNeeds(args: seq<Arg>, k: nat)
    ensures Fit([], args, k)
  {
  }

  lemma NothingDangles(f: Text)
    ensures !Dangling(f, |f|)
  {
  }

  // ----- vsprintf -----

  /** vsprintf_help stores the low byte of the word it gets. */
  lemma ByteBack(c: byte)
    ensures SignExtend(c) % 0x100 == c
  {
  }

  /** vsprintf: the characters printed, one terminator, and nothing else in the buffer. */
  method Vsprintf(buffer: array<byte>, fmt: Text, args: seq<Arg>) returns (n: nat)
    requires NUL !in fmt && ArgsOk(args) && Formatted(fmt, 0, args, 0).Done?
    requires |Formatted(fmt, 0, args, 0).out| < buffer.Length
    modifies buffer
    ensures n == |Formatted(fmt, 0, args, 0).out|
    ensures buffer[..] == Formatted(fmt, 0, args, 0).out + [NUL] + old(buffer[n + 1..])
  {
    hide Formatted;
    var r;
    n, r := DoPrintf(fmt, args);
    var dst := 0;
    while dst < n
      invariant dst <= n && buffer[..dst] == r.out[..dst] && buffer[dst..] == old(buffer[dst..])
    {
      ByteBack(r.out[dst]);
      buffer[dst] := SignExtend(r.out[dst]) % 0x100;
      dst := dst + 1;
    }
    buffer[n] := NUL;
    assert buffer[..n] == r.out;
  }
}
