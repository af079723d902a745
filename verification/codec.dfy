/**
 The text encodings the stream layer reads and writes, as pure functions
 on byte sequences: the two hex tables, hex text, canonical decimal text
 and the delimiter scan that tokens and lines share. The stream readers
 and writers are specified against these definitions.
 */
module TextCodec {
  import opened Base

  /* ---------------------------------------------------------------- hex */

  /** strhexset: the table "0123456789abcdef" indexed by a nibble:
      '0' + n below ten, 'a' + (n - 10) from ten on. */
  function StrHexSet(n: nat): byte
    requires n < 16
  {
    if n < 10 then 48 + n else 87 + n
  }

  /** The characters `strhexset` holds: lowercase hex digits. */
  predicate IsLowerHex(c: byte) { 48 <= c <= 57 || 97 <= c <= 102 }

  /** The characters `strdecset` maps to a nibble: 0-9, A-F and a-f. */
  predicate IsHexDigit(c: byte) { 48 <= c <= 57 || 65 <= c <= 70 || 97 <= c <= 102 }

  predicate AllHex(t: seq<byte>) { forall i :: 0 <= i < |t| ==> IsHexDigit(t[i]) }

  /** The nibble a hex digit denotes. */
  function NibbleValue(c: byte): (v: nat)
    requires IsHexDigit(c)
    ensures v < 16
  {
    if c <= 57 then c - 48 else if c <= 70 then c - 55 else c - 87
  }

  /** strdecset: the 256-entry decode table. Digits and both letter cases
      give their nibble; every other entry is the sentinel -1 stored in an
      `unsigned`, i.e. 0xFFFFFFFF. */
  function StrDecSet(c: byte): (v: bv32)
  {
    match c
    case 48 => 0
    case 49 => 1
    case 50 => 2
    case 51 => 3
    case 52 => 4
    case 53 => 5
    case 54 => 6
    case 55 => 7
    case 56 => 8
    case 57 => 9
    case 65 => 10
    case 66 => 11
    case 67 => 12
    case 68 => 13
    case 69 => 14
    case 70 => 15
    case 97 => 10
    case 98 => 11
    case 99 => 12
    case 100 => 13
    case 101 => 14
    case 102 => 15
    case _ => 0xFFFF_FFFF
  }

  /** The store `*data++ = b` into an `unsigned char`: the low eight bits. */
  function LowByte(b: bv32): byte
  {
    ((b & 0xFF) as bv8) as int
  }

  /** The table is total over bytes: an entry is a nibble exactly for the
      hex digits, and then the nibble the digit denotes; every other entry
      is the sentinel. */
  lemma DecSetSentinel(c: byte)
    ensures IsHexDigit(c) <==> StrDecSet(c) < 16
    ensures !IsHexDigit(c) ==> StrDecSet(c) == 0xFFFF_FFFF
    ensures IsHexDigit(c) ==> LowByte(StrDecSet(c)) == NibbleValue(c)
  {
    if IsHexDigit(c) {
      DecSetNibble(c);
    }
  }

  lemma DecSetNibble(c: byte)
    requires IsHexDigit(c)
    ensures StrDecSet(c) < 16 && LowByte(StrDecSet(c)) == NibbleValue(c)
  {
  }

  /** Decoding inverts encoding digit by digit: `strdecset[strhexset[n]] == n`. */
  lemma DecSetInvertsHexSet(n: nat)
    requires n < 16
    ensures IsLowerHex(StrHexSet(n)) && IsHexDigit(StrHexSet(n))
    ensures NibbleValue(StrHexSet(n)) == n
    ensures StrDecSet(StrHexSet(n)) < 16 && LowByte(StrDecSet(StrHexSet(n))) == n
  {
    DecSetSentinel(StrHexSet(n));
  }

  /** The decoding step of `sgethex`: `(strdecset[c0] << 4) | strdecset[c1]`
      in `unsigned` arithmetic. Any sentinel pushes the result above 0xFF. */
  function DecodePair(c0: byte, c1: byte): bv32
  {
    (StrDecSet(c0) << 4) | StrDecSet(c1)
  }

  lemma ComposeNibbles(b0: bv32, b1: bv32)
    requires b0 < 16 && b1 < 16
    ensures (b0 << 4) | b1 <= 0xFF
    ensures LowByte((b0 << 4) | b1) == LowByte(b0) * 16 + LowByte(b1)
  {
  }

  lemma ComposeSentinel(b0: bv32, b1: bv32)
    requires b0 == 0xFFFF_FFFF || b1 == 0xFFFF_FFFF
    ensures (b0 << 4) | b1 > 0xFF
  {
  }

  /** A pair decodes to a byte exactly when both characters are hex
      digits, and then to the byte they denote. */
  lemma DecodePairSpec(c0: byte, c1: byte)
    ensures DecodePair(c0, c1) <= 0xFF <==> IsHexDigit(c0) && IsHexDigit(c1)
    ensures IsHexDigit(c0) && IsHexDigit(c1) ==>
      LowByte(DecodePair(c0, c1)) == NibbleValue(c0) * 16 + NibbleValue(c1)
  {
    var b0 := StrDecSet(c0);
    var b1 := StrDecSet(c1);
    DecSetSentinel(c0);
    DecSetSentinel(c1);
    if IsHexDigit(c0) && IsHexDigit(c1) {
      ComposeNibbles(b0, b1);
    } else {
      ComposeSentinel(b0, b1);
    }
  }

  /** The fast path's `x |= b` keeps track of any bad pair: the OR is above
      0xFF exactly when one of its operands is. */
  lemma OrAbove(x: bv32, b: bv32)
    ensures (x | b) > 0xFF <==> x > 0xFF || b > 0xFF
  {
  }

  /** The fast path's accumulator stays a byte after one more pair
      exactly when it was one and the pair is two hex digits. */
  lemma OrPair(x: bv32, c0: byte, c1: byte)
    ensures (x | DecodePair(c0, c1)) <= 0xFF <==> x <= 0xFF && IsHexDigit(c0) && IsHexDigit(c1)
  {
    DecodePairSpec(c0, c1);
    OrAbove(x, DecodePair(c0, c1));
  }

  /** One pair off the front of a run of `n` pairs inside `buf`. */
  lemma HexRunCons(buf: seq<byte>, p: nat, n: nat, acc: seq<byte>)
    requires n >= 1 && p + 2 * n <= |buf|
    ensures AllHex(buf[p..p + 2 * n]) <==>
      IsHexDigit(buf[p]) && IsHexDigit(buf[p + 1]) && AllHex(buf[p + 2..p + 2 * n])
    ensures AllHex(buf[p..p + 2 * n]) ==>
      acc + HexDecode(buf[p..p + 2 * n])
        == acc + [NibbleValue(buf[p]) * 16 + NibbleValue(buf[p + 1])] + HexDecode(buf[p + 2..p + 2 * n])
  {
    var t := buf[p..p + 2 * n];
    assert t[0] == buf[p] && t[1] == buf[p + 1] && t[2..] == buf[p + 2..p + 2 * n];
    HexDecodeCons(t);
  }

  /** One pair off the front of hex text. */
  lemma HexDecodeCons(t: seq<byte>)
    requires |t| >= 2 && |t| % 2 == 0
    ensures AllHex(t) <==> IsHexDigit(t[0]) && IsHexDigit(t[1]) && AllHex(t[2..])
    ensures AllHex(t) ==> HexDecode(t) == [NibbleValue(t[0]) * 16 + NibbleValue(t[1])] + HexDecode(t[2..])
  {
    if IsHexDigit(t[0]) && IsHexDigit(t[1]) && AllHex(t[2..]) {
      forall i | 0 <= i < |t| ensures IsHexDigit(t[i]) {
        if i >= 2 {
          assert t[i] == t[2..][i - 2];
        }
      }
    }
  }

  /** The two characters `sputhex` emits for a byte: `strhexset[b >> 4]`
      then `strhexset[b & 0xF]` (for 0 <= b < 256 these are b / 16 and b % 16). */
  function HexPair(b: byte): seq<byte>
  {
    [StrHexSet(b / 16), StrHexSet(b % 16)]
  }

  /** The text `sputhex` writes for a block of bytes. */
  function HexEncode(data: seq<byte>): (t: seq<byte>)
    ensures |t| == 2 * |data|
  {
    if |data| == 0 then [] else HexPair(data[0]) + HexEncode(data[1..])
  }

  /** The reference hex decoder: each pair of digits is one byte, high nibble first. */
  function HexDecode(t: seq<byte>): (d: seq<byte>)
    requires |t| % 2 == 0 && AllHex(t)
    ensures |d| == |t| / 2
  {
    if |t| == 0 then [] else [NibbleValue(t[0]) * 16 + NibbleValue(t[1])] + HexDecode(t[2..])
  }

  /** The `i`-th decoded byte comes from the `i`-th pair of digits. */
  lemma {:induction false} HexDecodeIndex(t: seq<byte>)
    requires |t| % 2 == 0 && AllHex(t)
    ensures forall i :: 0 <= i < |t| / 2 ==>
      HexDecode(t)[i] == NibbleValue(t[2 * i]) * 16 + NibbleValue(t[2 * i + 1])
    decreases |t|
  {
    if |t| > 0 {
      HexDecodeCons(t);
      HexDecodeIndex(t[2..]);
      forall i | 1 <= i < |t| / 2
        ensures HexDecode(t)[i] == NibbleValue(t[2 * i]) * 16 + NibbleValue(t[2 * i + 1])
      {
        assert HexDecode(t)[i] == HexDecode(t[2..])[i - 1];
        assert t[2..][2 * (i - 1)] == t[2 * i] && t[2..][2 * (i - 1) + 1] == t[2 * i + 1];
      }
    }
  }

  /** Every character of the encoder's output is a lowercase hex digit. */
  lemma {:induction false} HexEncodeLowercase(data: seq<byte>)
    ensures AllHex(HexEncode(data))
    ensures forall i :: 0 <= i < |HexEncode(data)| ==> IsLowerHex(HexEncode(data)[i])
  {
    if |data| > 0 {
      HexEncodeLowercase(data[1..]);
    }
  }

  /** One byte: its two digits decode back to it. */
  lemma PairDecodes(b: byte)
    ensures AllHex(HexPair(b))
    ensures NibbleValue(HexPair(b)[0]) * 16 + NibbleValue(HexPair(b)[1]) == b
  {
    DecSetInvertsHexSet(b / 16);
    DecSetInvertsHexSet(b % 16);
  }

  /** One pair of lowercase digits: encoding its value gives it back. */
  lemma PairEncodes(c0: byte, c1: byte)
    requires IsLowerHex(c0) && IsLowerHex(c1)
    ensures HexPair(NibbleValue(c0) * 16 + NibbleValue(c1)) == [c0, c1]
  {
    var b := NibbleValue(c0) * 16 + NibbleValue(c1);
    assert b / 16 == NibbleValue(c0) && b % 16 == NibbleValue(c1);
  }

  /** Hex round trip: decoding what the encoder wrote gives the bytes back. */
  lemma {:induction false} HexRoundTrip(data: seq<byte>)
    ensures |HexEncode(data)| % 2 == 0 && AllHex(HexEncode(data))
    ensures HexDecode(HexEncode(data)) == data
  {
    HexEncodeLowercase(data);
    if |data| > 0 {
      var t := HexEncode(data);
      PairDecodes(data[0]);
      assert t[..2] == HexPair(data[0]);
      assert t[2..] == HexEncode(data[1..]);
      HexRoundTrip(data[1..]);
      assert [data[0]] + data[1..] == data;
    }
  }

  /** The other direction: lowercase hex text is exactly what the encoder
      produces for its decoding, so the encoding is canonical. */
  lemma {:induction false} HexEncodeDecode(t: seq<byte>)
    requires |t| % 2 == 0 && AllHex(t)
    requires forall i :: 0 <= i < |t| ==> IsLowerHex(t[i])
    ensures HexEncode(HexDecode(t)) == t
  {
    if |t| > 0 {
      var d := HexDecode(t);
      assert d[0] == NibbleValue(t[0]) * 16 + NibbleValue(t[1]);
      assert d[1..] == HexDecode(t[2..]);
      HexEncodeDecode(t[2..]);
      PairEncodes(t[0], t[1]);
      assert t == [t[0], t[1]] + t[2..];
    }
  }

  /* ------------------------------------------------------------ decimal */

  /** The value of a run of decimal digits, most significant first. */
  function DecValue(ds: seq<byte>): nat
    requires AllDigits(ds)
  {
    if |ds| == 0 then 0 else DecValue(ds[..|ds| - 1]) * 10 + (ds[|ds| - 1] - ZERO)
  }

  /** The digit for `v % 10`, as `(value % 10) + '0'`. */
  function DigitOf(v: nat): byte { (v % 10 + 48) as byte }

  /** The digit loop of `sputu32`: `buf[--i] = value % 10 + '0'; value /= 10`
      until the value is zero, filling the buffer from its end. */
  function DigitLoop(v: nat, tail: seq<byte>): seq<byte>
    decreases v
  {
    if v == 0 then tail else DigitLoop(v / 10, [DigitOf(v)] + tail)
  }

  /** The two-stage loop of `sputu64`: divide in 64 bits while the value
      exceeds 0xFFFFFFFF, then truncate to `uint32_t` and finish with the
      32-bit loop. */
  function DigitLoop64(v: nat, tail: seq<byte>): seq<byte>
    decreases v
  {
    if v > 0xFFFF_FFFF then DigitLoop64(v / 10, [DigitOf(v)] + tail)
    else DigitLoop(v % 0x1_0000_0000, tail)
  }

  /** What `sputu32`/`sputu64` emit: "0" for zero, otherwise the loop's digits. */
  function DecimalText(v: nat): seq<byte>
  {
    if v == 0 then [ZERO] else DigitLoop(v, [])
  }

  /** Canonical decimal: at least one digit, no leading zero unless the
      text is "0" itself, and the digits denote `v`. */
  predicate CanonicalDecimal(t: seq<byte>, v: nat)
  {
    && |t| >= 1
    && AllDigits(t)
    && (|t| > 1 ==> t[0] != ZERO)
    && DecValue(t) == v
  }

  lemma {:induction false} DecValueAppend(ds: seq<byte>, c: byte)
    requires AllDigits(ds) && IsDigit(c)
    ensures AllDigits(ds + [c])
    ensures DecValue(ds + [c]) == DecValue(ds) * 10 + (c - ZERO)
  {
    assert (ds + [c])[..|ds|] == ds;
  }

  /** The loop prepends the digits of `v` to whatever is already buffered. */
  lemma {:induction false} DigitLoopSplit(v: nat, tail: seq<byte>)
    ensures DigitLoop(v, tail) == DigitLoop(v, []) + tail
    decreases v
  {
    if v > 0 {
      var d := DigitOf(v);
      assert DigitLoop(v, tail) == DigitLoop(v / 10, [d] + tail);
      assert DigitLoop(v, []) == DigitLoop(v / 10, [d] + []);
      assert [d] + [] == [d];
      DigitLoopSplit(v / 10, [d] + tail);
      DigitLoopSplit(v / 10, [d]);
      assert DigitLoop(v / 10, []) + ([d] + tail) == (DigitLoop(v / 10, []) + [d]) + tail;
    }
  }

  /** For a positive value the loop emits digits with a nonzero first digit
      whose decimal value is the value itself. */
  lemma {:induction false} DigitLoopCanonical(v: nat)
    requires v > 0
    ensures CanonicalDecimal(DigitLoop(v, []), v)
    decreases v
  {
    var d := DigitOf(v);
    assert DigitLoop(v, []) == DigitLoop(v / 10, [d] + []);
    assert [d] + [] == [d];
    DigitLoopSplit(v / 10, [d]);
    assert DigitLoop(v, []) == DigitLoop(v / 10, []) + [d];
    if v / 10 == 0 {
      assert DigitLoop(v / 10, []) == [];
      assert DigitLoop(v, []) == [d];
      DecValueAppend([], d);
      assert [] + [d] == [d];
    } else {
      DigitLoopCanonical(v / 10);
      DecValueAppend(DigitLoop(v / 10, []), d);
    }
  }

  /** `sputu32` and `sputu64` write canonical decimal text for every value. */
  lemma DecimalTextCanonical(v: nat)
    ensures CanonicalDecimal(DecimalText(v), v)
  {
    if v == 0 {
      assert [ZERO][..0] == [];
    } else {
      DigitLoopCanonical(v);
    }
  }

  /** Canonical decimal text is unique: any canonical text for `v` is the
      one the writers produce. */
  lemma {:induction false} CanonicalDecimalUnique(t: seq<byte>, v: nat)
    requires CanonicalDecimal(t, v)
    ensures t == DecimalText(v)
    decreases |t|
  {
    var n := |t|;
    if n == 1 {
      assert t[..0] == [];
      assert v == t[0] - ZERO;
      if v > 0 {
        assert v / 10 == 0 && DigitOf(v) == t[0];
        assert DigitLoop(v, []) == DigitLoop(0, [DigitOf(v)] + []);
        assert [DigitOf(v)] + [] == t;
      }
    } else {
      var init := t[..n - 1];
      assert t == init + [t[n - 1]];
      assert init[0] == t[0];
      var u := DecValue(init);
      assert v == u * 10 + (t[n - 1] - ZERO);
      LeadingNonzeroPositive(init);
      CanonicalDecimalUnique(init, u);
      assert init == DigitLoop(u, []);
      assert v / 10 == u && DigitOf(v) == t[n - 1];
      assert DigitLoop(v, []) == DigitLoop(u, [DigitOf(v)] + []);
      assert [DigitOf(v)] + [] == [DigitOf(v)];
      DigitLoopSplit(u, [DigitOf(v)]);
    }
  }

  lemma {:induction false} LeadingNonzeroPositive(ds: seq<byte>)
    requires |ds| >= 1 && AllDigits(ds) && ds[0] != ZERO
    ensures DecValue(ds) > 0
    decreases |ds|
  {
    if |ds| > 1 {
      LeadingNonzeroPositive(ds[..|ds| - 1]);
    }
  }

  /** The 32-bit stage of `sputu64` leaves values that fit unchanged, so the
      two-stage loop emits the same digits as the plain loop. */
  lemma {:induction false} DigitLoop64Agrees(v: nat, tail: seq<byte>)
    ensures DigitLoop64(v, tail) == DigitLoop(v, tail)
    decreases v
  {
    if v > 0xFFFF_FFFF {
      DigitLoop64Agrees(v / 10, [DigitOf(v)] + tail);
      assert DigitLoop(v, tail) == DigitLoop(v / 10, [DigitOf(v)] + tail);
    } else {
      assert v % 0x1_0000_0000 == v;
    }
  }

  /** Digit count: a value below 10^k needs at most k digits. */
  function Pow10(k: nat): nat { if k == 0 then 1 else 10 * Pow10(k - 1) }

  lemma {:induction false} DigitLoopLength(v: nat, k: nat)
    requires v < Pow10(k)
    ensures |DigitLoop(v, [])| <= k
    decreases k
  {
    if v > 0 {
      var d := DigitOf(v);
      assert k >= 1;
      assert v / 10 < Pow10(k - 1);
      assert DigitLoop(v, []) == DigitLoop(v / 10, [d] + []);
      assert [d] + [] == [d];
      DigitLoopSplit(v / 10, [d]);
      DigitLoopLength(v / 10, k - 1);
    }
  }

  /** The local buffers are large enough: a `uint32_t` has at most 10 digits
      (buffer of 16) and a `uint64_t` at most 20 (buffer of 32). */
  lemma DecimalBuffersSuffice(v: nat)
    ensures v < 0x1_0000_0000 ==> |DigitLoop(v, [])| <= 10 < 16
    ensures v < 0x1_0000_0000_0000_0000 ==> |DigitLoop64(v, [])| <= 20 < 32
  {
    assert Pow10(10) == 10000000000;
    assert Pow10(20) == 100000000000000000000;
    if v < 0x1_0000_0000 {
      DigitLoopLength(v, 10);
    }
    if v < 0x1_0000_0000_0000_0000 {
      DigitLoop64Agrees(v, []);
      DigitLoopLength(v, 20);
    }
  }

  /* ---------------------------------------------------- token/line scan */

  /** Which bytes end a field: `sgettok` stops at space, tab or newline,
      `sgetline` only at newline. */
  datatype Stop = TokenStop | LineStop

  predicate IsStop(stop: Stop, c: byte)
  {
    c == LF || (stop == TokenStop && IsBlank(c))
  }

  /** The index of the first stop byte, or the length when there is none. */
  function StopIndex(input: seq<byte>, stop: Stop): (k: nat)
    ensures k <= |input|
    ensures forall j :: 0 <= j < k ==> !IsStop(stop, input[j])
    ensures k < |input| ==> IsStop(stop, input[k])
  {
    if |input| == 0 || IsStop(stop, input[0]) then 0 else 1 + StopIndex(input[1..], stop)
  }

  /** Drops one carriage return at the end of a field, for CR+LF input. */
  function DropCR(field: seq<byte>): seq<byte>
  {
    if |field| > 0 && field[|field| - 1] == CR then field[..|field| - 1] else field
  }

  /** The reference for both scanners: the field is everything before the
      first stop byte, with one CR removed when that stop byte is a newline;
      the field fails when `size` bytes would be stored before a stop or
      the end of input is reached. */
  function Scan(input: seq<byte>, stop: Stop, size: int): Option<seq<byte>>
  {
    var k := StopIndex(input, stop);
    if k >= size then None
    else if k < |input| && input[k] == LF then Some(DropCR(input[..k]))
    else Some(input[..k])
  }

  /** How many bytes a scan consumes: up to the stop byte (which is left
      unread) on success, and `size` bytes on failure. */
  function ScanConsumed(input: seq<byte>, stop: Stop, size: int): (n: nat)
    requires size >= 1
    ensures n <= |input|
  {
    var k := StopIndex(input, stop);
    if k >= size then size else k
  }

  /** A successful field never holds a stop byte, is at most `size - 1`
      long, and is the input up to the stop, less at most one trailing CR. */
  lemma ScanShape(input: seq<byte>, stop: Stop, size: int)
    requires size >= 1
    ensures var r := Scan(input, stop, size);
      r.Some? ==>
        && |r.value| < size
        && (forall j :: 0 <= j < |r.value| ==> !IsStop(stop, r.value[j]))
        && r.value <= input
        && |input[..ScanConsumed(input, stop, size)]| - |r.value| <= 1
    ensures var r := Scan(input, stop, size); var k := StopIndex(input, stop);
      r.Some? ==>
        && ScanConsumed(input, stop, size) == k
        && (|r.value| < k ==> |r.value| == k - 1 && input[k - 1] == CR && k < |input| && input[k] == LF)
        && (|r.value| == k ==> r.value == input[..k])
  {
  }

  /* ---------------------------------------------------- trailing blanks */

  /** `sgetlasttok`'s trim: remove trailing spaces and tabs. */
  function TrimBlanks(x: seq<byte>): (r: seq<byte>)
    ensures r <= x
    ensures |r| > 0 ==> !IsBlank(r[|r| - 1])
    ensures forall j :: |r| <= j < |x| ==> IsBlank(x[j])
  {
    if |x| > 0 && IsBlank(x[|x| - 1]) then TrimBlanks(x[..|x| - 1]) else x
  }

  /** The digit run at the start of the input: its length. */
  function DigitRun(input: seq<byte>): (k: nat)
    ensures k <= |input|
    ensures AllDigits(input[..k])
    ensures k < |input| ==> !IsDigit(input[k])
  {
    if |input| == 0 || !IsDigit(input[0]) then 0
    else
      var k := 1 + DigitRun(input[1..]);
      assert input[..k] == [input[0]] + input[1..][..k - 1];
      k
  }
}
