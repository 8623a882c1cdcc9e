/**
 * The command alphabet: the eight bytes the interpreter's `switch` recognises;
 * every other byte falls to its `default` branch and is a no-op.
 */
module Commands {
  import opened Cells

  datatype Command =
    | Right       // '>'
    | Left        // '<'
    | Increment   // '+'
    | Decrement   // '-'
    | Output      // '.'
    | Input       // ','
    | LoopStart   // '['
    | LoopEnd     // ']'
    | Comment     // any other byte

  const OpenByte: Byte := '[' as int
  const CloseByte: Byte := ']' as int

  /** The byte of each command character. */
  function Encode(c: Command): (b: Byte)
    requires !c.Comment?
  {
    match c
    case Right => '>' as int
    case Left => '<' as int
    case Increment => '+' as int
    case Decrement => '-' as int
    case Output => '.' as int
    case Input => ',' as int
    case LoopStart => OpenByte
    case LoopEnd => CloseByte
  }

  /** The `switch (command)` dispatch of one source byte. */
  function Decode(b: Byte): (c: Command)
    ensures !c.Comment? ==> Encode(c) == b
  {
    if b == '>' as int then Right
    else if b == '<' as int then Left
    else if b == '+' as int then Increment
    else if b == '-' as int then Decrement
    else if b == '.' as int then Output
    else if b == ',' as int then Input
    else if b == OpenByte then LoopStart
    else if b == CloseByte then LoopEnd
    else Comment
  }

  /** Decoding the byte of a command gives the command back. */
  lemma DecodeEncode(c: Command)
    requires !c.Comment?
    ensures Decode(Encode(c)) == c
  {
  }

  /** Only the eight command bytes decode to a command; every other byte is a comment. */
  lemma CommentsAreTheOtherBytes(b: Byte)
    ensures Decode(b).Comment? <==> forall k: Command :: !k.Comment? ==> Encode(k) != b
  {
  }

  /**
   * What one byte does to the loop scans' nesting counter, seen from a scan
   * moving forward: `count += command == '['; count -= command == ']';`.
   */
  function Delta(b: Byte): (r: int)
    ensures r == 1 <==> Decode(b) == LoopStart
    ensures r == -1 <==> Decode(b) == LoopEnd
    ensures r == 0 <==> !Decode(b).LoopStart? && !Decode(b).LoopEnd?
  {
    if b == OpenByte then 1 else if b == CloseByte then -1 else 0
  }
}
