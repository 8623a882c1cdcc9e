/**
 * The tape: its fixed size, its 8-bit cells and the wrap-around arithmetic
 * the interpreter applies to cells and to the data index.
 */
module Cells {

  /** PROGRAM_DATA_SIZE, written `1 << 15` in the interpreter. */
  const TapeSize: nat := 32768

  /** A uint8_t: one tape cell, or one byte of program text or of input. */
  type Byte = x: int | 0 <= x < 256

  /** Truncation of an integer to uint8_t (what C does on assignment to a uint8_t). */
  function ToByte(x: int): (r: Byte)
    ensures (r - x) % 256 == 0
  {
    x % 256
  }

  /** `data[data_idx]++` on a uint8_t cell: 255 wraps round to 0. */
  function IncrementCell(b: Byte): Byte
  {
    if b == 255 then 0 else b + 1
  }

  /** `data[data_idx]--` on a uint8_t cell: 0 wraps round to 255. */
  function DecrementCell(b: Byte): Byte
  {
    if b == 0 then 255 else b - 1
  }

  /** Both cell commands are the exact integer result truncated to uint8_t. */
  lemma CellCommandsTruncate(b: Byte)
    ensures IncrementCell(b) == ToByte(b + 1)
    ensures DecrementCell(b) == ToByte(b - 1)
  {
  }

  /** Increment and decrement undo each other. */
  lemma IncrementDecrementInverse(b: Byte)
    ensures DecrementCell(IncrementCell(b)) == b
    ensures IncrementCell(DecrementCell(b)) == b
  {
  }

  /** The cell after `n` consecutive `+` commands. */
  function IncrementTimes(b: Byte, n: nat): Byte
    decreases n
  {
    if n == 0 then b else IncrementCell(IncrementTimes(b, n - 1))
  }

  /** The cell after `n` consecutive `-` commands. */
  function DecrementTimes(b: Byte, n: nat): Byte
    decreases n
  {
    if n == 0 then b else DecrementCell(DecrementTimes(b, n - 1))
  }

  /** `n` increments add `n` modulo 256. */
  lemma {:induction false} IncrementTimesAdds(b: Byte, n: nat)
    ensures IncrementTimes(b, n) == (b + n) % 256
    decreases n
  {
    if n > 0 {
      IncrementTimesAdds(b, n - 1);
      IncrementModulo(b + n - 1);
    }
  }

  /** `n` decrements subtract `n` modulo 256. */
  lemma {:induction false} DecrementTimesSubtracts(b: Byte, n: nat)
    ensures DecrementTimes(b, n) == (b - n) % 256
    decreases n
  {
    if n > 0 {
      DecrementTimesSubtracts(b, n - 1);
      DecrementModulo(b - n + 1);
    }
  }

  /** Incrementing a residue modulo 256 gives the next residue. */
  lemma IncrementModulo(x: int)
    ensures IncrementCell(x % 256) == (x + 1) % 256
  {
  }

  /** Decrementing a residue modulo 256 gives the previous residue. */
  lemma DecrementModulo(x: int)
    ensures DecrementCell(x % 256) == (x - 1) % 256
  {
  }

  /** Any multiple of 256 `+` commands, or of `-` commands (256 itself included), gives the cell back. */
  lemma WrapAroundRestoresCell(b: Byte, n: nat)
    requires n % 256 == 0
    ensures IncrementTimes(b, n) == b
    ensures DecrementTimes(b, n) == b
  {
    IncrementTimesAdds(b, n);
    DecrementTimesSubtracts(b, n);
    ShiftByMultiple(b, n);
  }

  /** Adding or subtracting a multiple of 256 does not change a byte modulo 256. */
  lemma ShiftByMultiple(b: Byte, n: int)
    requires n % 256 == 0
    ensures (b + n) % 256 == b && (b - n) % 256 == b
  {
  }

  /**
   * `>`: `data_idx++` followed by `data_idx %= PROGRAM_DATA_SIZE`, written
   * here as the wrap it amounts to; `Interpreter.Program.Step` keeps the `%`.
   */
  function MoveRight(d: nat): (r: nat)
    requires d < TapeSize
    ensures r < TapeSize
  {
    if d == TapeSize - 1 then 0 else d + 1
  }

  /** `<`: an index of 0 is first set to PROGRAM_DATA_SIZE, then `data_idx--`. */
  function MoveLeft(d: nat): (r: nat)
    requires d < TapeSize
    ensures r < TapeSize
  {
    var e := if d == 0 then TapeSize else d;
    e - 1
  }

  /** Both moves are index arithmetic modulo the tape size. */
  lemma MovesAreModular(d: nat)
    requires d < TapeSize
    ensures MoveRight(d) == (d + 1) % TapeSize
    ensures MoveLeft(d) == (d - 1) % TapeSize
  {
  }

  /** `>` and `<` undo each other on every index of the tape. */
  lemma MovesInverse(d: nat)
    requires d < TapeSize
    ensures MoveLeft(MoveRight(d)) == d
    ensures MoveRight(MoveLeft(d)) == d
  {
  }
}
