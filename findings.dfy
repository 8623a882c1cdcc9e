/**
 * Three places where the interpreter, as written, does something its authors
 * evidently did not intend. Each is modelled as written, shown on a concrete
 * input, and related to the corrected behaviour the rest of the model uses.
 */
module Findings {
  import opened Wrappers
  import opened Cells
  import opened Commands
  import opened Brackets
  import opened Semantics

  /** 2^64: `instruction_idx` is a uint64_t. */
  const U64: int := 0x1_0000_0000_0000_0000

  /** The value `getchar()` returns at end of input. */
  const EOF: int := -1

  // ---------------------------------------------------------------------
  // 1. The backward scan of `]` guards against underflow with
  //    `instruction_idx < 0`, which never holds for an unsigned index.

  datatype ScanEnd = Found(at: nat) | ReadsOutsideSource(index: int)

  /**
   * The backward scan as written: decrement the uint64_t index, test it
   * against 0, read the byte there. Returns where the counter reached 0, or
   * the first index it reads that lies outside the source.
   */
  function AsWrittenOpenFrom(src: seq<Byte>, k: nat, depth: nat): (r: ScanEnd)
    requires k < |src| < U64 && depth > 0
    ensures r.Found? ==> r.at < k && src[r.at] == OpenByte
    ensures r.ReadsOutsideSource? ==> r.index == U64 - 1
    decreases k
  {
    var next := (k - 1) % U64;
    if next < 0 then ReadsOutsideSource(next)
    else if next >= |src| then ReadsOutsideSource(next)
    else
      var d := depth - Delta(src[next]);
      if d == 0 then Found(next) else AsWrittenOpenFrom(src, next, d)
  }

  /**
   * The scan as written finds the same `[` as the corrected one whenever
   * there is one; when there is none it does not stop at the start of the
   * source but reads at index 2^64 - 1, far outside it.
   */
  lemma {:induction false} AsWrittenOpenFromAgrees(src: seq<Byte>, k: nat, depth: nat)
    requires k < |src| < U64 && depth > 0
    ensures AsWrittenOpenFrom(src, k, depth) ==
      match OpenFrom(src, k, depth)
      case Some(j) => Found(j)
      case None => ReadsOutsideSource(U64 - 1)
    decreases k
  {
    if k > 0 {
      assert (k - 1) % U64 == k - 1;
      var d := depth - Delta(src[k - 1]);
      if d != 0 {
        AsWrittenOpenFromAgrees(src, k - 1, d);
      }
    } else {
      assert (k - 1) % U64 == U64 - 1;
    }
  }

  /**
   * The source `+]`: the `]` meets a nonzero cell, has no `[` to go back to,
   * and the scan as written reads outside the source.
   */
  lemma UnmatchedCloseReadsOutside()
    ensures AsWrittenOpenFrom(['+' as int, CloseByte], 1, 1) == ReadsOutsideSource(U64 - 1)
    ensures MatchOpen(['+' as int, CloseByte], 1) == None
  {
    assert OpenFrom(['+' as int, CloseByte], 1, 1) == OpenFrom(['+' as int, CloseByte], 0, 1);
  }

  // ---------------------------------------------------------------------
  // 2. `execute` starts in Running and steps before it tests for the end of
  //    the source, so an empty source is read at index 0.

  datatype ExecuteEnd = Finished(result: StepResult) | ReadsPastSource(at: nat)

  /** `execute` as written, bounded by `fuel` steps. */
  function AsWrittenExecute(src: seq<Byte>, m: Machine, fuel: nat): (r: ExecuteEnd)
    requires WellFormed(src, m)
    ensures r.ReadsPastSource? ==> |src| <= r.at
    ensures r.Finished? ==>
      (WellFormed(src, r.result.machine) && (r.result.state == Done <==> r.result.machine.instrIdx >= |src|))
    decreases fuel
  {
    if m.instrIdx >= |src| then ReadsPastSource(m.instrIdx)
    else if fuel == 0 then Finished(StepResult(m, Running))
    else
      var r := Semantics.Step(src, m);
      if r.state == Done then Finished(r) else AsWrittenExecute(src, r.machine, fuel - 1)
  }

  /**
   * On a source with a command under the instruction index, `execute` as
   * written and the corrected `Run` agree; they differ only where the
   * first read is already past the end.
   */
  lemma {:induction false} AsWrittenExecuteAgrees(src: seq<Byte>, m: Machine, fuel: nat)
    requires WellFormed(src, m) && m.instrIdx < |src|
    ensures AsWrittenExecute(src, m, fuel) == Finished(Run(src, m, fuel))
    decreases fuel
  {
    if fuel > 0 {
      var r := Semantics.Step(src, m);
      if r.state == Running {
        AsWrittenExecuteAgrees(src, r.machine, fuel - 1);
      }
    }
  }

  /** The empty source: `execute` as written reads byte 0 of nothing; `Run` stops at once. */
  lemma EmptySourceReadsPastEnd(input: seq<Byte>, fuel: nat)
    ensures AsWrittenExecute([], Initial(input), fuel) == ReadsPastSource(0)
    ensures Run([], Initial(input), fuel) == StepResult(Initial(input), Done)
  {
  }

  // ---------------------------------------------------------------------
  // 3. `,` stores getchar()'s int result in a `char` before comparing it
  //    with EOF, so the outcome depends on whether `char` is signed.

  /** The int `getchar()` returns. */
  function GetCharValue(c: Option<Byte>): (v: int)
    ensures -1 <= v < 256
    ensures v == EOF <==> c.None?
    ensures c.Some? ==> v == c.value
  {
    match c
    case None => EOF
    case Some(b) => b
  }

  /** Conversion of an int to `char`, signed or unsigned. */
  function ToChar(v: int, signedChar: bool): (ch: int)
    ensures signedChar ==> -128 <= ch < 128
    ensures !signedChar ==> 0 <= ch < 256
    ensures (ch - v) % 256 == 0
  {
    var u := v % 256;
    if signedChar && u >= 128 then u - 256 else u
  }

  /** The byte `,` stores as written: `char c = getchar(); if (c == EOF) c = 0; data = (uint8_t)c`. */
  function AsWrittenStoredInput(c: Option<Byte>, signedChar: bool): (b: Byte)
    ensures c.Some? && (c.value != 255 || !signedChar) ==> b == c.value
    ensures c.Some? && c.value == 255 && signedChar ==> b == 0
    ensures c.None? ==> b == if signedChar then 0 else 255
  {
    var ch := ToChar(GetCharValue(c), signedChar);
    ToByte(if ch == EOF then 0 else ch)
  }

  /**
   * The byte stored as written differs from the corrected `StoredInput`
   * exactly in two cases: with a signed `char`, an input byte 0xFF is taken
   * for end of input and stored as 0; with an unsigned `char`, end of input
   * is never recognised and 0xFF is stored.
   */
  lemma AsWrittenStoredInputDiffers(c: Option<Byte>, signedChar: bool)
    ensures AsWrittenStoredInput(c, signedChar) != StoredInput(c) <==>
      (signedChar && c == Some(255)) || (!signedChar && c == None)
    ensures signedChar && c == Some(255) ==> AsWrittenStoredInput(c, signedChar) == 0
    ensures !signedChar && c == None ==> AsWrittenStoredInput(c, signedChar) == 255
  {
  }
}
