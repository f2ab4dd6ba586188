/** Machine integers of the PDP-11: 16-bit words and 8-bit bytes held as mathematical
    integers, so that wrap-around is always written out. */
module Words {

  type Word = w: int | 0 <= w < 0x1_0000

  type Byte = b: int | 0 <= b < 0x100

  datatype Option<+T> = None | Some(value: T)

  /** Assignment of any C++ integer to a `uint16_t`. */
  function Wrap(x: int): Word {
    x % 0x1_0000
  }

  /** The value of a word read as `int16_t`. */
  function Signed(w: Word): int {
    if w < 0x8000 then w else w - 0x1_0000
  }

  /** The value of a byte read as `int8_t`. */
  function SignedByte(b: Byte): int {
    if b < 0x80 then b else b - 0x100
  }

  function Low(w: Word): Byte {
    w % 0x100
  }

  function High(w: Word): Byte {
    w / 0x100
  }

  function Bit(b: bool): (r: int) {
    if b then 1 else 0
  }

  function Max(x: int, y: int): int {
    if x < y then y else x
  }

  function Min(x: int, y: int): int {
    if x < y then x else y
  }
}
