/**
 How the writers and the readers fit together: the decimal and hex text
 the writers produce reads back as the value that was written, and a
 line ended by LF or CR+LF reads back without its ending.
 */
module RoundTrip {
  import opened Base
  import opened TextCodec
  import opened ReadStreams
  import opened Readers
  import opened WriteStreams
  import opened Writers

  /** A digit run is cut short by the first non-digit that follows it. */
  lemma {:induction false} DigitRunOfText(t: seq<byte>, rest: seq<byte>)
    requires AllDigits(t)
    requires |rest| == 0 || !IsDigit(rest[0])
    ensures DigitRun(t + rest) == |t|
    ensures (t + rest)[..|t|] == t && (t + rest)[|t|..] == rest
    decreases |t|
  {
    if |t| > 0 {
      assert (t + rest)[1..] == t[1..] + rest;
      DigitRunOfText(t[1..], rest);
    } else {
      assert t + rest == rest;
    }
  }

  /** The number a decimal reader takes from `t + rest`, when `t` is the
      canonical text of `v` and `rest` does not start with a digit. */
  lemma DigitsRead(D: seq<byte>, t: seq<byte>, v: nat)
    requires CanonicalDecimal(t, v)
    requires DigitRun(D) == |t| && D[..|t|] == t
    ensures |D| > 0 && IsDigit(D[0])
    ensures DecValue(D[..DigitRun(D)]) == v
  {
    assert D[0] == t[0];
  }

  /** Canonical decimal text of a value, followed by anything that does
      not start with a digit, reads back through `sgetu32` as that value;
      the byte after the digits is the next one delivered. */
  lemma DecimalReadBack32(s: ReadStream, v: nat, rest: seq<byte>)
    requires s.Valid() && v < 0x1_0000_0000
    requires Delivered(s) == DecimalText(v) + rest
    requires |rest| == 0 || !IsDigit(rest[0])
    ensures GetU32(s).out == Some(v)
    ensures Delivered(GetU32(s).next) == rest
  {
    var t := DecimalText(v);
    DecimalTextCanonical(v);
    DigitRunOfText(t, rest);
    DigitsRead(Delivered(s), t, v);
    assert v % 0x1_0000_0000 == v;
  }

  /** The same for `sgetu64`. */
  lemma DecimalReadBack64(s: ReadStream, v: nat, rest: seq<byte>)
    requires s.Valid() && v < 0x1_0000_0000_0000_0000
    requires Delivered(s) == DecimalText(v) + rest
    requires |rest| == 0 || !IsDigit(rest[0])
    ensures GetU64(s).out == Some(v)
    ensures Delivered(GetU64(s).next) == rest
  {
    var t := DecimalText(v);
    DecimalTextCanonical(v);
    DigitRunOfText(t, rest);
    DigitsRead(Delivered(s), t, v);
    assert v % 0x1_0000_0000_0000_0000 == v;
  }

  /** Write then read: whatever `sputu32` added to a file, when a reader
      reaches it followed by a non-digit or the end of the file, `sgetu32`
      returns the written value. */
  lemma PutU32ThenGetU32(w: WriteStream, v: nat, j: nat, s: ReadStream, rest: seq<byte>)
    requires w.Valid() && v < 0x1_0000_0000 && j < |w.sinks|
    requires PutU32(w, v).0
    requires s.Valid()
    requires Delivered(s) == Written(PutU32(w, v).1, j)[|Written(w, j)|..] + rest
    requires |rest| == 0 || !IsDigit(rest[0])
    ensures GetU32(s).out == Some(v)
    ensures Delivered(GetU32(s).next) == rest
  {
    CanonicalDecimalUnique(Written(PutU32(w, v).1, j)[|Written(w, j)|..], v);
    DecimalReadBack32(s, v, rest);
  }

  /** The same for `sputu64` and `sgetu64`. */
  lemma PutU64ThenGetU64(w: WriteStream, v: nat, j: nat, s: ReadStream, rest: seq<byte>)
    requires w.Valid() && v < 0x1_0000_0000_0000_0000 && j < |w.sinks|
    requires PutU64(w, v).0
    requires s.Valid()
    requires Delivered(s) == Written(PutU64(w, v).1, j)[|Written(w, j)|..] + rest
    requires |rest| == 0 || !IsDigit(rest[0])
    ensures GetU64(s).out == Some(v)
    ensures Delivered(GetU64(s).next) == rest
  {
    CanonicalDecimalUnique(Written(PutU64(w, v).1, j)[|Written(w, j)|..], v);
    DecimalReadBack64(s, v, rest);
  }

  /** The hex text of a block reads back through `sgethex` as the block,
      whatever follows it. */
  lemma HexReadBack(s: ReadStream, data: seq<byte>, rest: seq<byte>)
    requires s.Valid()
    requires Delivered(s) == HexEncode(data) + rest
    ensures GetHex(s, |data|).out == Some(data)
    ensures Delivered(GetHex(s, |data|).next) == rest
  {
    HexRoundTrip(data);
    assert Delivered(s)[..2 * |data|] == HexEncode(data);
    assert Delivered(s)[2 * |data|..] == rest;
  }

  /** Write then read for `sputhex` and `sgethex`. */
  lemma PutHexThenGetHex(w: WriteStream, data: seq<byte>, j: nat, s: ReadStream, rest: seq<byte>)
    requires w.Valid() && j < |w.sinks|
    requires PutHex(w, data).0
    requires s.Valid()
    requires Delivered(s) == Written(PutHex(w, data).1, j)[|Written(w, j)|..] + rest
    ensures GetHex(s, |data|).out == Some(data)
    ensures Delivered(GetHex(s, |data|).next) == rest
  {
    var w1 := PutHex(w, data).1;
    assert Written(w1, j) == Written(w, j) + HexEncode(data);
    assert Written(w1, j)[|Written(w, j)|..] == HexEncode(data);
    HexReadBack(s, data, rest);
  }

  /** A line with no newline in it, ended by LF or by CR+LF, reads back
      through `sgetline` without its ending when it fits, and the newline
      is the next byte delivered. A line ending in CR before a bare LF
      loses that CR, as `sgetline` drops one CR before the newline. */
  lemma LineReadBack(s: ReadStream, text: seq<byte>, crlf: bool, rest: seq<byte>, size: int)
    requires s.Valid()
    requires forall i :: 0 <= i < |text| ==> text[i] != LF
    requires !crlf ==> |text| == 0 || text[|text| - 1] != CR
    requires |text| + (if crlf then 1 else 0) < size
    requires Delivered(s) == text + (if crlf then [CR] else []) + [LF] + rest
    ensures GetLine(s, size).out == Some(text)
    ensures Delivered(GetLine(s, size).next) == [LF] + rest
  {
    var field := text + (if crlf then [CR] else []);
    var D := Delivered(s);
    assert D == field + ([LF] + rest);
    StopAt(field, [LF] + rest);
    assert D[..|field|] == field;
    assert D[|field|..] == [LF] + rest;
    if crlf {
      assert DropCR(field) == text;
    } else {
      assert field == text;
    }
  }

  /** The line stop of `field + tail`, when the field holds no newline and
      the tail starts with one, is the length of the field. */
  lemma {:induction false} StopAt(field: seq<byte>, tail: seq<byte>)
    requires forall i :: 0 <= i < |field| ==> field[i] != LF
    requires |tail| > 0 && tail[0] == LF
    ensures StopIndex(field + tail, LineStop) == |field|
    decreases |field|
  {
    if |field| > 0 {
      assert (field + tail)[1..] == field[1..] + tail;
      StopAt(field[1..], tail);
    } else {
      assert field + tail == tail;
    }
  }
}
