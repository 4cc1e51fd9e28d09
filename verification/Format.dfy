/** What do_printf prints, as a recursive-descent reading of its format.

    The directives are a subset of section 7.19.6.1 of ISO/IEC 9899:1999:
    '%' '-'? '0'? digits* [FNLlh]* and a conversion character, or "%%".  Arguments are
    the dwords of the variable argument list; a string argument stands for its text.
 */
module Format {
  import opened Words
  import opened Terminal

  type Text = seq<byte>

  datatype Arg = Word(v: word) | Str(s: Text)

  /** Fine, or what the C code would do to memory it has no business with. */
  datatype Outcome =
    | Done(out: Text)
    | Overread(out: Text)
    | BadArgument(out: Text)

  function Prefix(p: Text, o: Outcome): (r: Outcome)
    ensures r.out == p + o.out
  {
    match o
    case Done(s) => Done(p + s)
    case Overread(s) => Overread(p + s)
    case BadArgument(s) => BadArgument(p + s)
  }

  datatype Size = Size(far: bool, long: bool, longlong: bool, short: bool)

  datatype Spec = Spec(left: bool, zero: bool, width: word, size: Size, conv: byte)

  /** What one '%' begins: a literal percent sign, a dropped directive, a conversion, or
      the end of the format, reached in time or overrun. */
  datatype Directive =
    | Percent(end: nat)
    | Dropped(end: nat)
    | Conversion(spec: Spec, end: nat)
    | Cut
    | Past

  predicate Within(d: Directive, i: nat, n: nat) {
    match d
    case Percent(e) => i < e <= n
    case Dropped(e) => i < e <= n
    case Conversion(_, e) => i < e <= n
    case _ => true
  }

  /** The words the callback gets for the characters of a text. */
  function Chars(s: Text): (r: seq<word>)
    ensures |r| == |s|
  {
    seq(|s|, i requires 0 <= i < |s| => SignExtend(s[i]))
  }

  const PERCENT: byte := 0x25
  const MINUS: byte := 0x2D
  const ZERO: byte := 0x30
  const NUL: byte := 0

  function IsModifier(c: byte): bool {
    c == 'F' as int || c == 'N' as int || c == 'L' as int || c == 'l' as int || c == 'h' as int
  }

  function Modify(z: Size, c: byte): Size {
    if c == 'F' as int then z.(far := true)
    else if c == 'L' as int then z.(longlong := true)
    else if c == 'l' as int then z.(long := true)
    else if c == 'h' as int then z.(short := true)
    else z
  }

  /** Flags. */
  function ReadFlags(f: Text, i: nat, left: bool): (d: Directive)
    requires i < |f|
    ensures Within(d, i, |f|)
    decreases |f| - i
  {
    if f[i] == PERCENT then Percent(i + 1)
    else if f[i] == MINUS then
      if left then Dropped(i + 1) else if i + 1 == |f| then Cut else ReadFlags(f, i + 1, true)
    else if f[i] == ZERO then
      if i + 1 == |f| then Past else ReadWidth(f, i + 1, left, true, 0)
    else ReadWidth(f, i, left, false, 0)
  }

  /** Field width. */
  function ReadWidth(f: Text, i: nat, left: bool, zero: bool, width: word): (d: Directive)
    requires i < |f|
    ensures Within(d, i, |f|)
    decreases |f| - i
  {
    if IsDigit(f[i]) then
      if i + 1 == |f| then Cut else ReadWidth(f, i + 1, left, zero, Shift(width, f[i]))
    else ReadSize(f, i, left, zero, width, Size(false, false, false, false))
  }

  /** Size modifiers and the conversion character. */
  function ReadSize(f: Text, i: nat, left: bool, zero: bool, width: word, z: Size): (d: Directive)
    requires i < |f|
    ensures Within(d, i, |f|)
    decreases |f| - i
  {
    if IsModifier(f[i]) then
      if i + 1 == |f| then Cut else ReadSize(f, i + 1, left, zero, width, Modify(z, f[i]))
    else Conversion(Spec(left, zero, width, z, f[i]), i + 1)
  }

  // ----- converting an argument -----

  function DigitChar(d: nat, upper: bool): (c: byte)
    requires d < 16
    ensures c != NUL
  {
    if d < 10 then d + '0' as int else if upper then d - 10 + 'A' as int else d - 10 + 'a' as int
  }

  function Digits(n: nat, radix: nat, upper: bool): (s: Text)
    requires 2 <= radix <= 16
    ensures s != []
    decreases n
  {
    if n < radix then [DigitChar(n, upper)]
    else Digits(n / radix, radix, upper) + [DigitChar(n % radix, upper)]
  }

  function Radix(conv: byte): nat {
    if conv == 'X' as int || conv == 'x' as int || conv == 'p' as int || conv == 'n' as int then 16
    else if conv == 'd' as int || conv == 'i' as int || conv == 'u' as int then 10
    else if conv == 'o' as int then 8
    else 0
  }

  function Signed(conv: byte): bool {
    conv == 'd' as int || conv == 'i' as int
  }

  /** The number a numeric conversion prints, sign and magnitude, and the arguments used. */
  function Number(z: Size, signed: bool, args: seq<Arg>, k: nat): Option<(bool, word, nat)> {
    if k < |args| && args[k].Word? then
      var v := args[k].v;
      if z.long then Some((signed && v >= 0x8000_0000, if signed && v >= 0x8000_0000 then WORD - v else v, k + 1))
      else if z.longlong then
        if k + 1 < |args| && args[k + 1].Word?
        then Some((signed && v >= 0x8000_0000, if signed && v >= 0x8000_0000 then WORD - v else v, k + 2)) else None
      else if z.short then
        var s := v % 0x1_0000;
        Some((signed && s >= 0x8000, if signed && s >= 0x8000 then 0x1_0000 - s else s, k + 1))
      else Some((signed && v >= 0x8000_0000, if signed && v >= 0x8000_0000 then WORD - v else v, k + 1))
    else None
  }

  function Fill(n: nat, c: byte): (s: Text)
    ensures |s| == n
  {
    seq(n, _ => c)
  }

  /** A field: sign, padding and body in the order the flags ask for. */
  function Field(left: bool, zero: bool, width: nat, negative: bool, body: Text, actual: nat): Text {
    var sign := if negative then [MINUS] else [];
    var pad := if width > actual then width - actual else 0;
    if left then sign + body + Fill(pad, SPACE)
    else if zero then sign + Fill(pad, ZERO) + body
    else Fill(pad, SPACE) + sign + body
  }

  /** One conversion: its text and the arguments used up, or None for a bad argument. */
  function Render(p: Spec, args: seq<Arg>, k: nat): Option<(Text, nat)> {
    if Radix(p.conv) != 0 then
      var num := Number(p.size, Signed(p.conv), args, k);
      if num.None? then None else
      var (negative, mag, k') := num.value;
      var body := Digits(mag, Radix(p.conv), p.conv == 'X' as int);
      Some((Field(p.left, p.zero, p.width, negative, body, |body| + if negative then 1 else 0), k'))
    else if p.conv == 'c' as int then
      if k < |args| && args[k].Word? then
        var c := args[k].v % 0x100;
        Some((Field(p.left, false, p.width, false, if c == NUL then [] else [c], 1), k + 1))
      else None
    else if p.conv == 's' as int then
      if k < |args| && args[k].Str? then Some((Field(p.left, false, p.width, false, args[k].s, |args[k].s|), k + 1))
      else None
    else Some(([], k))
  }

  /** do_printf from position i on with k arguments used. */
  function Formatted(f: Text, i: nat, args: seq<Arg>, k: nat): Outcome
    requires i <= |f|
    decreases |f| - i, 1
  {
    if i == |f| then Done([])
    else if f[i] != PERCENT then Prefix([f[i]], Formatted(f, i + 1, args, k))
    else if i + 1 == |f| then Overread([])
    else Continue(f, i, ReadFlags(f, i + 1, false), args, k)
  }

  /** What a directive prints, and everything after it. */
  function Continue(f: Text, i: nat, d: Directive, args: seq<Arg>, k: nat): Outcome
    requires i <= |f| && Within(d, i, |f|)
    decreases |f| - i, 0
  {
    match d
    case Percent(e) => Prefix([PERCENT], Formatted(f, e, args, k))
    case Dropped(e) => Formatted(f, e, args, k)
    case Conversion(p, e) =>
      var r := Render(p, args, k);
      if r.None? then BadArgument([]) else Prefix(r.value.0, Formatted(f, e, args, r.value.1))
    case Cut => Done([])
    case Past => Overread([])
  }
}
