/**
 The writers built on `sputc` and direct buffer access: `swrite`, `sputs`,
 `sputhex`, `sputu32` and `sputu64`. Each has a fast path that copies
 into the buffer when `sptrlookup` reports enough room, and a slow path of
 `sputc` calls that may flush on the way; both append the same bytes.
 */
module Writers {
  import opened Base
  import opened TextCodec
  import opened WriteStreams

  /** Everything the writers promise on success: each file, once the
      buffer reaches it, holds what it held before followed by `t`. */
  predicate Appended(w: WriteStream, w1: WriteStream, t: seq<byte>)
    requires |w1.sinks| == |w.sinks|
  {
    forall j :: 0 <= j < |w.sinks| ==> Written(w1, j) == Written(w, j) + t
  }

  /** A sequence of `sputc` calls that stops at the first failure. */
  function PutAll(w: WriteStream, data: seq<byte>): (r: (bool, WriteStream))
    requires w.Valid()
    ensures r.1.Valid() && |r.1.sinks| == |w.sinks|
    ensures r.0 ==> Appended(w, r.1, data) && r.1.state == w.state
    ensures !r.0 ==> r.1.state != WriteState
    ensures Healthy(w) ==> r.0 && Healthy(r.1)
    decreases |data|
  {
    if |data| == 0 then (true, w)
    else
      var (ok, w1) := Putc(data[0], w);
      if !ok then (false, w1)
      else
        var r := PutAll(w1, data[1..]);
        assert [data[0]] + data[1..] == data;
        r
  }

  /** With room for all of it, the `sputc` loop never flushes: it only
      appends to the buffer. */
  lemma {:induction false} PutAllResident(w: WriteStream, data: seq<byte>)
    requires w.Valid() && Room(w, |data|)
    ensures PutAll(w, data) == (true, w.(buf := w.buf + data))
    decreases |data|
  {
    if |data| > 0 {
      var w1 := w.(buf := w.buf + [data[0]]);
      assert Putc(data[0], w) == (true, w1);
      PutAllResident(w1, data[1..]);
      assert PutAll(w, data) == PutAll(w1, data[1..]);
      assert w1.buf + data[1..] == w.buf + data;
    } else {
      assert w.buf + data == w.buf;
    }
  }

  /** swrite: copy into the buffer when there is room, else `sputc` byte
      by byte, failing at the first failed `sputc`. */
  function Write(w: WriteStream, data: seq<byte>): (r: (bool, WriteStream))
    requires w.Valid()
    ensures r.1.Valid() && |r.1.sinks| == |w.sinks|
    ensures r.0 ==> Appended(w, r.1, data) && r.1.state == w.state
    ensures !r.0 ==> r.1.state != WriteState
    ensures Room(w, |data|) ==> r.0 && r.1.sinks == w.sinks && r.1.buf == w.buf + data
    ensures Healthy(w) ==> r.0 && Healthy(r.1)
  {
    if Room(w, |data|) then (true, w.(buf := w.buf + data))
    else PutAll(w, data)
  }

  /** The fast path of `swrite` is the slow path whenever it is taken. */
  lemma WriteFastMatchesSlow(w: WriteStream, data: seq<byte>)
    requires w.Valid() && Room(w, |data|)
    ensures Write(w, data) == PutAll(w, data)
  {
    PutAllResident(w, data);
  }

  /** sputs: `sputc` each character up to the terminating NUL. */
  function Puts(w: WriteStream, str: seq<byte>): (r: (bool, WriteStream))
    requires w.Valid()
    ensures r.1.Valid() && |r.1.sinks| == |w.sinks|
    ensures r.0 ==> Appended(w, r.1, CStr(str)) && r.1.state == w.state
    ensures !r.0 ==> r.1.state != WriteState
    ensures Healthy(w) ==> r.0 && Healthy(r.1)
    decreases |str|
  {
    if |str| == 0 || str[0] == NUL then
      assert CStr(str) == [];
      (true, w)
    else
      var (ok, w1) := Putc(str[0], w);
      if !ok then (false, w1)
      else
        var r := Puts(w1, str[1..]);
        assert CStr(str) == [str[0]] + CStr(str[1..]);
        r
  }

  /** sputs is `swrite`'s slow path on the characters of the C string. */
  lemma {:induction false} PutsIsPutAll(w: WriteStream, str: seq<byte>)
    requires w.Valid()
    ensures Puts(w, str) == PutAll(w, CStr(str))
    decreases |str|
  {
    if |str| > 0 && str[0] != NUL {
      assert CStr(str) == [str[0]] + CStr(str[1..]);
      assert CStr(str)[1..] == CStr(str[1..]);
      var (ok, w1) := Putc(str[0], w);
      if ok {
        PutsIsPutAll(w1, str[1..]);
      }
    }
  }

  /** The slow path of `sputhex`: two `sputc` calls per byte, high nibble
      first, stopping at the first failure. */
  function PutHexSlow(w: WriteStream, data: seq<byte>): (r: (bool, WriteStream))
    requires w.Valid()
    decreases |data|
  {
    if |data| == 0 then (true, w)
    else
      var pair := HexPair(data[0]);
      var (ok0, w1) := Putc(pair[0], w);
      if !ok0 then (false, w1)
      else
        var (ok1, w2) := Putc(pair[1], w1);
        if !ok1 then (false, w2)
        else PutHexSlow(w2, data[1..])
  }

  /** The slow path is the byte loop on the encoded text. */
  lemma {:induction false} PutHexSlowIsPutAll(w: WriteStream, data: seq<byte>)
    requires w.Valid()
    ensures PutHexSlow(w, data) == PutAll(w, HexEncode(data))
    decreases |data|
  {
    if |data| > 0 {
      var pair := HexPair(data[0]);
      var t := HexEncode(data);
      assert t == pair + HexEncode(data[1..]);
      assert t[0] == pair[0] && t[1..][0] == pair[1] && t[1..][1..] == HexEncode(data[1..]);
      var (ok0, w1) := Putc(pair[0], w);
      if ok0 {
        var (ok1, w2) := Putc(pair[1], w1);
        if ok1 {
          PutHexSlowIsPutAll(w2, data[1..]);
        }
      }
    }
  }

  /** sputhex: the lowercase hex text of `data`, copied into the buffer
      when `sptrlookup(f, size * 2)` reports room, else through `sputc`. */
  function PutHex(w: WriteStream, data: seq<byte>): (r: (bool, WriteStream))
    requires w.Valid()
    ensures r.1.Valid() && |r.1.sinks| == |w.sinks|
    ensures r.0 ==> Appended(w, r.1, HexEncode(data)) && r.1.state == w.state
    ensures !r.0 ==> r.1.state != WriteState
    ensures Healthy(w) ==> r.0 && Healthy(r.1)
  {
    if Room(w, 2 * |data|) then
      (true, w.(buf := w.buf + HexEncode(data)))
    else
      PutHexSlowIsPutAll(w, data);
      PutHexSlow(w, data)
  }

  /** The fast path of `sputhex` is the slow path whenever it is taken. */
  lemma PutHexFastMatchesSlow(w: WriteStream, data: seq<byte>)
    requires w.Valid() && Room(w, 2 * |data|)
    ensures PutHex(w, data) == PutHexSlow(w, data)
  {
    PutHexSlowIsPutAll(w, data);
    PutAllResident(w, HexEncode(data));
  }

  /** sputu32: "0" for zero, otherwise the digits the loop fills from the
      end of a 16-byte buffer, written with `swrite`. On success each file
      gets the canonical decimal text of the value. */
  function PutU32(w: WriteStream, v: nat): (r: (bool, WriteStream))
    requires w.Valid() && v < 0x1_0000_0000
    ensures r.1.Valid() && |r.1.sinks| == |w.sinks|
    ensures r.0 ==> forall j :: 0 <= j < |w.sinks| ==>
      && |Written(r.1, j)| >= |Written(w, j)|
      && Written(r.1, j)[..|Written(w, j)|] == Written(w, j)
      && CanonicalDecimal(Written(r.1, j)[|Written(w, j)|..], v)
    ensures !r.0 ==> r.1.state != WriteState
    ensures Healthy(w) ==> r.0 && Healthy(r.1)
  {
    DecimalTextCanonical(v);
    var r := if v == 0 then Putc(ZERO, w) else Write(w, DigitLoop(v, []));
    assert r.0 ==> Appended(w, r.1, DecimalText(v));
    r
  }

  /** sputu64: like `sputu32` with a 32-byte buffer, dividing in 64 bits
      while the value exceeds 32 bits and in 32 bits after that. */
  function PutU64(w: WriteStream, v: nat): (r: (bool, WriteStream))
    requires w.Valid() && v < 0x1_0000_0000_0000_0000
    ensures r.1.Valid() && |r.1.sinks| == |w.sinks|
    ensures r.0 ==> forall j :: 0 <= j < |w.sinks| ==>
      && |Written(r.1, j)| >= |Written(w, j)|
      && Written(r.1, j)[..|Written(w, j)|] == Written(w, j)
      && CanonicalDecimal(Written(r.1, j)[|Written(w, j)|..], v)
    ensures !r.0 ==> r.1.state != WriteState
    ensures Healthy(w) ==> r.0 && Healthy(r.1)
  {
    DecimalTextCanonical(v);
    DigitLoop64Agrees(v, []);
    var r := if v == 0 then Putc(ZERO, w) else Write(w, DigitLoop64(v, []));
    assert r.0 ==> Appended(w, r.1, DecimalText(v));
    r
  }
}
