/** Machine words, memory and the option type shared by the models. */
module Words {
  const WORD: int := 0x1_0000_0000

  type word = x: int | 0 <= x < WORD

  type byte = x: int | 0 <= x < 0x100

  const PAGE_SIZE: int := 0x1000

  /** Physical memory by dword address. */
  type Mem = map<int, word>

  function Load(mem: Mem, a: int): word {
    if a in mem then mem[a] else 0
  }

  /** Truncation to 32 bits. */
  function Wrap(x: int): word {
    x % WORD
  }

  /** A char is signed: passed as an unsigned word it is extended by its sign. */
  function SignExtend(b: byte): word {
    if b < 0x80 then b else b as int + 0xFFFF_FF00
  }

  /** Read as signed, a char is the same number in 8 bits and, extended, in 32. */
  lemma SameSigned(b: byte)
    ensures (if SignExtend(b) < 0x8000_0000 then SignExtend(b) as int else SignExtend(b) - 0x1_0000_0000)
         == if b < 0x80 then b as int else b - 0x100
  {
  }

  datatype Option<+T> = None | Some(value: T)
}
