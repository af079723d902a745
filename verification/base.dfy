/**
 Shared vocabulary of the stream layer: bytes as the C code sees them
 (`unsigned char`), the ASCII codes the parsers test for, C strings, the
 stream state enumeration and the buffer capacity.
 */
module Base {

  /** An `unsigned char`: every byte the stream stores or returns. */
  type byte = x: int | 0 <= x < 256

  datatype Option<T> = None | Some(value: T)

  /** STREAM_SIZE: capacity of the stream buffer. It is defined in util.h,
      which is not part of this model; snapraid uses 64 KiB. */
  const StreamSize: nat := 65536

  /** STREAM_STATE_*: the mode a stream is in. Read and Write are chosen at
      open time; Eof and Error are entered on I/O outcomes. */
  datatype State = ReadState | WriteState | EofState | ErrorState

  const NUL: byte := 0
  const TAB: byte := 9
  const LF: byte := 10
  const CR: byte := 13
  const SP: byte := 32
  const SLASH: byte := 47
  const ZERO: byte := 48

  function Min(a: int, b: int): int { if a <= b then a else b }

  predicate IsDigit(c: byte) { 48 <= c <= 57 }

  predicate IsBlank(c: byte) { c == SP || c == TAB }

  predicate AllDigits(s: seq<byte>) { forall i :: 0 <= i < |s| ==> IsDigit(s[i]) }

  /** `strlen`: the index of the first NUL, or the whole sequence when the
      terminator lies beyond it. */
  function Strlen(s: seq<byte>): (n: nat)
    ensures n <= |s|
    ensures forall i :: 0 <= i < n ==> s[i] != NUL
    ensures n < |s| ==> s[n] == NUL
  {
    if |s| == 0 || s[0] == NUL then 0 else 1 + Strlen(s[1..])
  }

  /** The characters of a C string, without its terminator. */
  function CStr(s: seq<byte>): seq<byte> { s[..Strlen(s)] }
}
