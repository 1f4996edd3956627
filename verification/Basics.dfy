/** Definitions shared by the modules. */
module Basics {

  datatype Option<T> = None | Some(value: T)

  type Byte = b: int | 0 <= b < 256

  predicate StartsWith(s: string, p: string) {
    |p| <= |s| && s[..|p|] == p
  }

  /** The value of a hexadecimal digit, given by its code. */
  function HexDigit(code: int): (v: Option<nat>)
    ensures v.Some? ==> v.value < 16
  {
    if 0x30 <= code <= 0x39 then Some(code - 0x30)
    else if 0x61 <= code <= 0x66 then Some(code - 0x61 + 10)
    else if 0x41 <= code <= 0x46 then Some(code - 0x41 + 10)
    else None
  }

  const LOWER := "0123456789abcdef"
  const UPPER := "0123456789ABCDEF"

  /** One of the two spellings of the hexadecimal digit `d`. */
  predicate Spells(code: int, d: nat) {
    d < 16 && (code == LOWER[d] as int || code == UPPER[d] as int)
  }

  /** A code is a hexadecimal digit exactly when it is a character of one of the two alphabets,
      and its value is the position there. */
  lemma {:induction false} HexDigitIs(code: int)
    ensures forall d: nat :: Spells(code, d) <==> HexDigit(code) == Some(d)
  {
    forall d: nat ensures Spells(code, d) <==> HexDigit(code) == Some(d) {
      if d < 10 {
        assert LOWER[d] as int == 0x30 + d && UPPER[d] as int == 0x30 + d;
      } else if d < 16 {
        assert LOWER[d] as int == 0x61 + d - 10 && UPPER[d] as int == 0x41 + d - 10;
      }
    }
  }

  /** Concatenation is associative; stated to be called, since it is not found unaided. */
  lemma {:induction false} Assoc<T>(a: seq<T>, b: seq<T>, c: seq<T>)
    ensures a + b + c == a + (b + c)
  {}
}
