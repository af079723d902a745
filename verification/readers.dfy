/**
 The parsing primitives of a read stream: tokens (`sgettok`), lines
 (`sgetline`, with its in-buffer fast path and its `sgetc` slow path),
 trimmed lines (`sgetlasttok`), unsigned decimals (`sgetu32`, `sgetu64`)
 and hex blocks (`sgethex`, again with two paths).

 Each primitive returns what the C function reports (its result, or
 nothing for -1) together with the stream as the call leaves it. The
 contracts are stated against the content the stream delivers
 (`Delivered`) and the reference codecs of `TextCodec`.
 */
module Readers {
  import opened Base
  import opened TextCodec
  import opened ReadStreams

  /** A parsing call's outcome: its result (None when it returns -1) and
      the stream after the call. */
  datatype Reply<T> = Reply(out: Option<T>, next: ReadStream)

  /* --------------------------------------------------- tokens and lines */

  /** The `sgetc` loop of `sgettok` and of the slow path of `sgetline`:
      store bytes until EOF or a stop byte; a stop byte is pushed back, and
      a newline also removes one CR just before it; storing the `size`-th
      byte fails. `acc` holds the bytes stored so far. */
  function ScanSlow(s: ReadStream, stop: Stop, size: int, acc: seq<byte>): (r: Reply<seq<byte>>)
    requires s.Valid() && |acc| < size
    ensures r.next.Valid()
    decreases size - |acc|
  {
    var (c, s1) := Getc(s);
    match c
    case Eof => Reply(Some(acc), s1)
    case Byte(b) =>
      if b == LF then Reply(Some(DropCR(acc)), Ungetc(c, s1))
      else if stop == TokenStop && IsBlank(b) then Reply(Some(acc), Ungetc(c, s1))
      else if |acc| + 1 == size then Reply(None, s1)
      else ScanSlow(s1, stop, size, acc + [b])
  }

  /** The byte-at-a-time scan meets the reference: it returns the field of
      `Scan` and consumes exactly `ScanConsumed` bytes of the content. */
  lemma {:induction false} ScanSlowSpec(s: ReadStream, stop: Stop, size: int, acc: seq<byte>)
    requires s.Valid() && |acc| < size
    requires forall j :: 0 <= j < |acc| ==> !IsStop(stop, acc[j])
    ensures var input := acc + Delivered(s);
      var r := ScanSlow(s, stop, size, acc);
      && r.out == Scan(input, stop, size)
      && Delivered(r.next) == input[ScanConsumed(input, stop, size)..]
    decreases size - |acc|
  {
    var D := Delivered(s);
    var input := acc + D;
    var (c, s1) := Getc(s);
    GetcDelivers(s);
    ScanCases(acc, D, stop, size);
    if c.Byte? && !IsStop(stop, c.b) {
      if |acc| + 1 < size {
        ScanSlowSpec(s1, stop, size, acc + [c.b]);
      }
    } else if c.Byte? {
      UngetRestores(s);
    }
  }

  /** How the reference scan of `acc + D` depends on the first byte of `D`,
      when `acc` holds no stop byte and is shorter than `size`. */
  lemma ScanCases(acc: seq<byte>, D: seq<byte>, stop: Stop, size: int)
    requires |acc| < size
    requires forall j :: 0 <= j < |acc| ==> !IsStop(stop, acc[j])
    ensures var input := acc + D; var k := StopIndex(input, stop);
      && (|D| == 0 ==> k == |acc| && input == acc && input[..k] == acc)
      && (|D| > 0 && IsStop(stop, D[0]) ==>
            k == |acc| && input[..k] == acc && input[k..] == D && input[k] == D[0])
      && (|D| > 0 && !IsStop(stop, D[0]) ==>
            && k >= |acc| + 1 && input == (acc + [D[0]]) + D[1..]
            && (|acc| + 1 == size ==> input[size..] == D[1..]))
  {
    var input := acc + D;
    if |D| > 0 {
      assert input[|acc|] == D[0];
      assert input == (acc + [D[0]]) + D[1..];
    } else {
      assert input == acc;
    }
    assert input[..|acc|] == acc;
  }

  /** sgettok: a token ends at space, tab, newline or EOF. The result is
      the reference field of the content; on success the delimiter is left
      unread, so the stream continues right after the token. */
  function GetTok(s: ReadStream, size: int): (r: Reply<seq<byte>>)
    requires s.Valid() && size >= 1
    ensures r.next.Valid()
    ensures r.out == Scan(Delivered(s), TokenStop, size)
    ensures Delivered(r.next) == Delivered(s)[ScanConsumed(Delivered(s), TokenStop, size)..]
  {
    ScanSlowSpec(s, TokenStop, size, []);
    assert [] + Delivered(s) == Delivered(s);
    ScanSlow(s, TokenStop, size, [])
  }

  /** The fast path of `sgetline`: scan the buffer directly from index `p`
      (the bytes from `s.pos` to `p` are already stored) and return the
      line with the index of its newline, or None once `size` bytes would
      be stored. */
  function LineFastFrom(s: ReadStream, size: int, p: nat): Option<(seq<byte>, nat)>
    requires s.Valid() && s.pos <= p < s.pos + size <= |s.buf|
    decreases s.pos + size - p
  {
    if s.buf[p] == LF then Some((DropCR(s.buf[s.pos..p]), p))
    else if p + 1 - s.pos == size then None
    else LineFastFrom(s, size, p + 1)
  }

  /** The fast path as `sgetline` runs it: commit the cursor (`sptrset`)
      only on success; on failure the stream is left as it was. */
  function GetLineFast(s: ReadStream, size: int): Reply<seq<byte>>
    requires s.Valid() && size >= 1 && Lookup(s, size)
  {
    match LineFastFrom(s, size, s.pos)
    case None => Reply(None, s)
    case Some((line, p)) => Reply(Some(line), s.(pos := p))
  }

  /** The slow path of `sgetline`. */
  function GetLineSlow(s: ReadStream, size: int): Reply<seq<byte>>
    requires s.Valid() && size >= 1
  {
    ScanSlow(s, LineStop, size, [])
  }

  /** Lock-step: from index `p` on, the buffer scan and the `sgetc` loop
      take the same decisions on the same bytes. */
  lemma {:induction false} LineFastSlowFrom(s: ReadStream, size: int, p: nat)
    requires s.Valid() && s.pos <= p < s.pos + size <= |s.buf|
    ensures var f := LineFastFrom(s, size, p);
      var r := ScanSlow(s.(pos := p), LineStop, size, s.buf[s.pos..p]);
      && (f.Some? <==> r.out.Some?)
      && (f.Some? ==> r.out.value == f.value.0 && r.next == s.(pos := f.value.1))
    decreases s.pos + size - p
  {
    var t := s.(pos := p);
    assert Getc(t) == (Byte(s.buf[p]), s.(pos := p + 1));
    if s.buf[p] != LF && p + 1 - s.pos != size {
      LineFastSlowFrom(s, size, p + 1);
      assert s.buf[s.pos..p] + [s.buf[p]] == s.buf[s.pos..p + 1];
    }
  }

  /** Both paths of `sgetline` agree whenever the fast path may be taken:
      they succeed together, and then return the same line and leave the
      cursor on the same byte, the newline. */
  lemma LineFastMatchesSlow(s: ReadStream, size: int)
    requires s.Valid() && size >= 1 && Lookup(s, size)
    ensures GetLineFast(s, size).out.Some? <==> GetLineSlow(s, size).out.Some?
    ensures GetLineFast(s, size).out.Some? ==> GetLineFast(s, size) == GetLineSlow(s, size)
  {
    LineFastSlowFrom(s, size, s.pos);
    assert s.buf[s.pos..s.pos] == [];
    assert s.(pos := s.pos) == s;
  }

  /** sgetline: a line ends at newline or EOF (spaces and tabs are data).
      It is the reference field of the content; on success the newline is
      left unread. On failure the fast path leaves the stream untouched. */
  function GetLine(s: ReadStream, size: int): (r: Reply<seq<byte>>)
    requires s.Valid() && size >= 1
    ensures r.next.Valid()
    ensures r.out == Scan(Delivered(s), LineStop, size)
    ensures r.out.Some? ==> Delivered(r.next) == Delivered(s)[ScanConsumed(Delivered(s), LineStop, size)..]
    ensures r.out.None? && Lookup(s, size) ==> r.next == s
  {
    ScanSlowSpec(s, LineStop, size, []);
    assert [] + Delivered(s) == Delivered(s);
    if Lookup(s, size) then
      LineFastMatchesSlow(s, size);
      GetLineFast(s, size)
    else
      GetLineSlow(s, size)
  }

  /** sgetlasttok: `sgetline`, then trailing spaces and tabs removed. The
      result is a prefix of the line, no longer, without a trailing blank,
      and only blanks were removed. */
  function GetLastTok(s: ReadStream, size: int): (r: Reply<seq<byte>>)
    requires s.Valid() && size >= 1
    ensures r.next == GetLine(s, size).next
    ensures var line := Scan(Delivered(s), LineStop, size);
      && (r.out.Some? <==> line.Some?)
      && (r.out.Some? ==>
            && r.out.value <= line.value
            && |r.out.value| <= |line.value|
            && (|r.out.value| > 0 ==> !IsBlank(r.out.value[|r.out.value| - 1]))
            && (forall j :: |r.out.value| <= j < |line.value| ==> IsBlank(line.value[j])))
  {
    var l := GetLine(s, size);
    match l.out
    case None => l
    case Some(line) => Reply(Some(TrimBlanks(line)), l.next)
  }

  /* ---------------------------------------------------------- decimals */

  /** `v *= 10; v += d` in unsigned arithmetic modulo `m`. */
  function Accumulate(v: nat, d: nat, m: nat): (r: nat)
    requires m > 0
    ensures r < m
  {
    ((v * 10) % m + d) % m
  }

  /** The value the digit loop holds after reading the digits `ds`
      starting from `v`. */
  function Fold(v: nat, ds: seq<byte>, m: nat): nat
    requires AllDigits(ds) && m > 0
    decreases |ds|
  {
    if |ds| == 0 then v else Fold(Accumulate(v, ds[0] - ZERO, m), ds[1..], m)
  }

  /** The digit loop of `sgetu32`/`sgetu64`: while the byte read is a
      digit, `v *= 10; v += c - '0'` in arithmetic modulo `m`; the first
      non-digit (or EOF) is handed to `sungetc`. It folds the digit run at
      the front of the content into `v` and leaves the stream right after
      the run. */
  function DigitScan(s: ReadStream, v: nat, m: nat): (r: (nat, ReadStream))
    requires s.Valid() && m > 0
    ensures r.1.Valid()
    ensures r.0 == Fold(v, Delivered(s)[..DigitRun(Delivered(s))], m)
    ensures Delivered(r.1) == Delivered(s)[DigitRun(Delivered(s))..]
    decreases Measure(s)
  {
    var (c, s1) := Getc(s);
    if c.Byte? && IsDigit(c.b) then
      DigitAhead(s);
      FoldRunCons(Delivered(s), Delivered(s1), c.b, v, m);
      DigitRunCons(Delivered(s), Delivered(s1));
      DigitScan(s1, Accumulate(v, c.b - ZERO, m), m)
    else
      NoDigitAhead(s);
      assert Delivered(s)[..0] == [];
      (v, Ungetc(c, s1))
  }

  /** A digit read comes off the front of the content. */
  lemma DigitAhead(s: ReadStream)
    requires s.Valid()
    ensures var (c, s1) := Getc(s);
      c.Byte? && IsDigit(c.b) ==> Delivered(s) == [c.b] + Delivered(s1)
  {
    GetcDelivers(s);
  }

  /** When the byte read is not a digit (or is EOF), the run is empty and
      pushing the byte back restores the content. */
  lemma NoDigitAhead(s: ReadStream)
    requires s.Valid()
    ensures var (c, s1) := Getc(s);
      !(c.Byte? && IsDigit(c.b)) ==>
        DigitRun(Delivered(s)) == 0 && Delivered(Ungetc(c, s1)) == Delivered(s)
  {
    GetcDelivers(s);
    UngetRestores(s);
  }

  /** A leading digit joins the run that follows it. */
  lemma DigitRunCons(D: seq<byte>, D1: seq<byte>)
    requires |D| > 0 && IsDigit(D[0]) && D == [D[0]] + D1
    ensures DigitRun(D) == 1 + DigitRun(D1)
    ensures D[..DigitRun(D)] == [D[0]] + D1[..DigitRun(D1)]
    ensures D[DigitRun(D)..] == D1[DigitRun(D1)..]
  {
    assert D[1..] == D1;
  }

  lemma FoldCons(v: nat, c: byte, ds: seq<byte>, m: nat)
    requires IsDigit(c) && AllDigits(ds) && m > 0
    ensures AllDigits([c] + ds)
    ensures Fold(v, [c] + ds, m) == Fold(Accumulate(v, c - ZERO, m), ds, m)
  {
    assert ([c] + ds)[1..] == ds;
  }

  /** Folding a digit run that starts with `b` is one step on `b`, then
      the fold of the run that follows. */
  lemma FoldRunCons(D: seq<byte>, D1: seq<byte>, b: byte, v: nat, m: nat)
    requires IsDigit(b) && D == [b] + D1 && m > 0
    ensures Fold(v, D[..DigitRun(D)], m) == Fold(Accumulate(v, b - ZERO, m), D1[..DigitRun(D1)], m)
  {
    DigitRunCons(D, D1);
    FoldCons(v, b, D1[..DigitRun(D1)], m);
  }

  /** Folding from zero a run that starts with digit `b` is folding the
      rest of the run from `b`'s value. */
  lemma FoldRunFromZero(D: seq<byte>, D1: seq<byte>, b: byte, m: nat)
    requires IsDigit(b) && D == [b] + D1 && m >= 10
    ensures Fold(0, D[..DigitRun(D)], m) == Fold(b - ZERO, D1[..DigitRun(D1)], m)
  {
    FoldRunCons(D, D1, b, 0, m);
    AccumulateFromZero(b - ZERO, m);
  }

  /** A positive multiple of `m` is at least `m`. */
  lemma {:induction false} MultipleAtLeast(d: int, m: int)
    requires d >= 1 && m >= 1
    ensures d * m >= m
    decreases d
  {
    if d > 1 {
      MultipleAtLeast(d - 1, m);
      assert d * m == (d - 1) * m + m;
    }
  }

  /** `a = q*m + r` with `0 <= r < m` determines the remainder. */
  lemma ModUnique(a: int, m: int, q: int, r: int)
    requires m > 0 && a == q * m + r && 0 <= r < m
    ensures a % m == r
  {
    var q' := a / m;
    var r' := a % m;
    assert a == q' * m + r';
    var d := q - q';
    assert d * m == q * m - q' * m;
    assert d * m == r' - r;
    if d > 0 {
      MultipleAtLeast(d, m);
    } else if d < 0 {
      MultipleAtLeast(-d, m);
    }
  }

  /** One accumulation step commutes with the wrap-around: reducing after
      every operation gives the reduction of the exact value. */
  lemma ModStep(a: nat, d: nat, m: nat)
    requires m > 0
    ensures Accumulate(a % m, d, m) == (a * 10 + d) % m
  {
    var r := a % m;
    var q := a / m;
    var t := (r * 10) % m;
    var u := (r * 10) / m;
    assert a == q * m + r;
    assert r * 10 == u * m + t;
    var w := (t + d) % m;
    var z := (t + d) / m;
    assert t + d == z * m + w;
    assert a * 10 + d == (q * 10 + u + z) * m + w;
    ModUnique(a * 10 + d, m, q * 10 + u + z, w);
  }

  /** Reducing after every step is reducing the exact value once: the
      loop started on the value of `acc` ends on the value of `acc + ds`,
      both modulo `m`. */
  lemma {:induction false} FoldIsMod(acc: seq<byte>, ds: seq<byte>, m: nat)
    requires AllDigits(acc) && AllDigits(ds) && m > 0
    ensures AllDigits(acc + ds)
    ensures Fold(DecValue(acc) % m, ds, m) == DecValue(acc + ds) % m
    decreases |ds|
  {
    if |ds| == 0 {
      assert acc + ds == acc;
    } else {
      DecValueAppend(acc, ds[0]);
      ModStep(DecValue(acc), ds[0] - ZERO, m);
      FoldIsMod(acc + [ds[0]], ds[1..], m);
      assert acc + [ds[0]] + ds[1..] == acc + ds;
    }
  }

  /** The first step from zero just takes the digit. */
  lemma AccumulateFromZero(d: nat, m: nat)
    requires d < m
    ensures Accumulate(0, d, m) == d
  {
    ModUnique(0 * 10, m, 0, 0);
    ModUnique(0 + d, m, 0, d);
  }

  /** From zero, the loop computes the decimal value modulo `m`. */
  lemma FoldFromZero(ds: seq<byte>, m: nat)
    requires AllDigits(ds) && m > 0
    ensures Fold(0, ds, m) == DecValue(ds) % m
  {
    FoldIsMod([], ds, m);
    assert [] + ds == ds;
    ModUnique(DecValue([]), m, 0, 0);
  }

  /** `sgetu32`/`sgetu64` with the width's modulus `m`: a first byte that is
      not a digit (or EOF) fails, and that byte stays consumed; otherwise
      the digit run is folded from the first digit's value. */
  function GetUnsigned(s: ReadStream, m: nat): (r: Reply<nat>)
    requires s.Valid() && m >= 10
    ensures r.next.Valid()
    ensures r.out.Some? <==> |Delivered(s)| > 0 && IsDigit(Delivered(s)[0])
    ensures r.out.Some? ==> r.out.value == Fold(0, Delivered(s)[..DigitRun(Delivered(s))], m)
    ensures r.out.Some? ==> Delivered(r.next) == Delivered(s)[DigitRun(Delivered(s))..]
    ensures r.out.None? ==> Delivered(r.next) == if |Delivered(s)| == 0 then [] else Delivered(s)[1..]
  {
    var (c, s1) := Getc(s);
    GetcDelivers(s);
    if c.Byte? && IsDigit(c.b) then
      NumberAfter(s1, c.b, m)
    else
      assert c.Byte? ==> Delivered(s)[1..] == Delivered(s1);
      Reply(None, s1)
  }

  /** The rest of `sgetu32`/`sgetu64` once a leading digit `b` was read:
      start from its value and run the digit loop. The content seen from
      the leading digit on is `b` followed by what `s1` delivers. */
  function NumberAfter(s1: ReadStream, b: byte, m: nat): (r: Reply<nat>)
    requires s1.Valid() && m >= 10 && IsDigit(b)
    ensures r.next.Valid()
    ensures var D := [b] + Delivered(s1);
      && r.out.Some?
      && r.out.value == Fold(0, D[..DigitRun(D)], m)
      && Delivered(r.next) == D[DigitRun(D)..]
  {
    var D := [b] + Delivered(s1);
    FoldRunFromZero(D, Delivered(s1), b, m);
    DigitRunCons(D, Delivered(s1));
    var run := DigitScan(s1, b - ZERO, m);
    Reply(Some(run.0), run.1)
  }

  /** sgetu32: decimal scan in 32-bit unsigned arithmetic. It fails,
      consuming one byte, unless the content starts with a digit; otherwise
      it returns the value of the digit run modulo 2^32 and leaves the byte
      after the run unread. */
  function GetU32(s: ReadStream): (r: Reply<nat>)
    requires s.Valid()
    ensures r.next.Valid()
    ensures var D := Delivered(s);
      && (r.out.Some? <==> |D| > 0 && IsDigit(D[0]))
      && (r.out.Some? ==> r.out.value == DecValue(D[..DigitRun(D)]) % 0x1_0000_0000)
      && (r.out.Some? ==> Delivered(r.next) == D[DigitRun(D)..])
      && (r.out.None? ==> Delivered(r.next) == if |D| == 0 then [] else D[1..])
  {
    var D := Delivered(s);
    FoldFromZero(D[..DigitRun(D)], 0x1_0000_0000);
    GetUnsigned(s, 0x1_0000_0000)
  }

  /** sgetu64: the same scan in 64-bit unsigned arithmetic. */
  function GetU64(s: ReadStream): (r: Reply<nat>)
    requires s.Valid()
    ensures r.next.Valid()
    ensures var D := Delivered(s);
      && (r.out.Some? <==> |D| > 0 && IsDigit(D[0]))
      && (r.out.Some? ==> r.out.value == DecValue(D[..DigitRun(D)]) % 0x1_0000_0000_0000_0000)
      && (r.out.Some? ==> Delivered(r.next) == D[DigitRun(D)..])
      && (r.out.None? ==> Delivered(r.next) == if |D| == 0 then [] else D[1..])
  {
    var D := Delivered(s);
    FoldFromZero(D[..DigitRun(D)], 0x1_0000_0000_0000_0000);
    GetUnsigned(s, 0x1_0000_0000_0000_0000)
  }

  /* --------------------------------------------------------------- hex */

  /** The values `b = (strdecset[pos[0]] << 4) | strdecset[pos[1]]` the
      fast path of `sgethex` computes, one per pair of the `n` pairs from
      index `p`. */
  function PairValues(buf: seq<byte>, p: nat, n: nat): (bs: seq<bv32>)
    requires p + 2 * n <= |buf|
  {
    seq(n, i requires 0 <= i < n => DecodePair(buf[p + 2 * i], buf[p + 2 * i + 1]))
  }

  /** Every pair value fits in a byte: no digit hit the sentinel. */
  predicate AllBytes(bs: seq<bv32>) { forall i :: 0 <= i < |bs| ==> bs[i] <= 0xFF }

  lemma AllBytesCons(bs: seq<bv32>)
    requires |bs| > 0
    ensures AllBytes(bs) <==> bs[0] <= 0xFF && AllBytes(bs[1..])
  {
    assert forall i :: 1 <= i < |bs| ==> bs[1..][i - 1] == bs[i];
  }

  /** The loop of the fast path of `sgethex` over the pair values: OR each
      into `x` and store its low byte, with no check inside the loop. The
      final `x` is a byte exactly when every value was. */
  function HexFastLoop(bs: seq<bv32>, x: bv32, acc: seq<byte>): (r: (bv32, seq<byte>))
    ensures r.0 <= 0xFF <==> x <= 0xFF && AllBytes(bs)
    decreases |bs|
  {
    if |bs| == 0 then (x, acc)
    else
      AllBytesCons(bs);
      OrAbove(x, bs[0]);
      HexFastLoop(bs[1..], x | bs[0], acc + [LowByte(bs[0])])
  }

  /** What the fast loop stores: the low byte of each pair value, after
      what was already in the buffer. */
  lemma {:induction false} HexFastStores(bs: seq<bv32>, x: bv32, acc: seq<byte>)
    ensures |HexFastLoop(bs, x, acc).1| == |acc| + |bs|
    ensures HexFastLoop(bs, x, acc).1[..|acc|] == acc
    ensures forall i :: 0 <= i < |bs| ==> HexFastLoop(bs, x, acc).1[|acc| + i] == LowByte(bs[i])
    decreases |bs|
  {
    if |bs| > 0 {
      HexFastStores(bs[1..], x | bs[0], acc + [LowByte(bs[0])]);
    }
  }

  /** What the pair values say about the text: all of them fit in a byte
      exactly when the text is all hex digits, and then their low bytes are
      the decoded bytes. */
  lemma PairValuesDecode(buf: seq<byte>, p: nat, n: nat)
    requires p + 2 * n <= |buf|
    ensures AllBytes(PairValues(buf, p, n)) <==> AllHex(buf[p..p + 2 * n])
    ensures var bs := PairValues(buf, p, n);
      AllHex(buf[p..p + 2 * n]) ==>
        forall i :: 0 <= i < n ==> LowByte(bs[i]) == HexDecode(buf[p..p + 2 * n])[i]
  {
    PairValuesOk(buf, p, n);
    if AllHex(buf[p..p + 2 * n]) {
      PairValuesBytes(buf, p, n);
    }
  }

  lemma PairValuesOk(buf: seq<byte>, p: nat, n: nat)
    requires p + 2 * n <= |buf|
    ensures AllBytes(PairValues(buf, p, n)) <==> AllHex(buf[p..p + 2 * n])
  {
    var t := buf[p..p + 2 * n];
    var bs := PairValues(buf, p, n);
    forall i | 0 <= i < n
      ensures bs[i] <= 0xFF <==> IsHexDigit(t[2 * i]) && IsHexDigit(t[2 * i + 1])
    {
      DecodePairSpec(t[2 * i], t[2 * i + 1]);
    }
    if AllBytes(bs) {
      forall j | 0 <= j < 2 * n ensures IsHexDigit(t[j]) {
        var i := j / 2;
        assert j == 2 * i || j == 2 * i + 1;
        assert bs[i] <= 0xFF;
      }
    }
  }

  lemma PairValuesBytes(buf: seq<byte>, p: nat, n: nat)
    requires p + 2 * n <= |buf| && AllHex(buf[p..p + 2 * n])
    ensures var bs := PairValues(buf, p, n);
      forall i :: 0 <= i < n ==> LowByte(bs[i]) == HexDecode(buf[p..p + 2 * n])[i]
  {
    var t := buf[p..p + 2 * n];
    var bs := PairValues(buf, p, n);
    HexDecodeIndex(t);
    forall i | 0 <= i < n
      ensures LowByte(bs[i]) == HexDecode(t)[i]
    {
      assert IsHexDigit(t[2 * i]) && IsHexDigit(t[2 * i + 1]);
      DecodePairSpec(t[2 * i], t[2 * i + 1]);
    }
  }

  /** The fast loop run from `x = 0` over the `n` pairs at `p` ends with
      a byte exactly when the text is all hex digits, and has then stored
      the decoded bytes. */
  lemma HexFastDecodes(buf: seq<byte>, p: nat, n: nat)
    requires p + 2 * n <= |buf|
    ensures var r := HexFastLoop(PairValues(buf, p, n), 0, []);
      r.0 <= 0xFF <==> AllHex(buf[p..p + 2 * n])
    ensures var r := HexFastLoop(PairValues(buf, p, n), 0, []);
      AllHex(buf[p..p + 2 * n]) ==> r.1 == HexDecode(buf[p..p + 2 * n])
  {
    var bs := PairValues(buf, p, n);
    HexFastStores(bs, 0, []);
    PairValuesDecode(buf, p, n);
    var data := HexFastLoop(bs, 0, []).1;
    if AllHex(buf[p..p + 2 * n]) {
      var d := HexDecode(buf[p..p + 2 * n]);
      var empty: seq<byte> := [];
      forall i | 0 <= i < n ensures data[i] == d[i] {
        assert data[i] == data[|empty| + i] == LowByte(bs[i]);
      }
      assert data == d;
    }
  }

  /** The fast path of `sgethex`, taken when `sptrlookup(f, size * 2)`
      holds: run the loop, then commit the cursor only if every pair was
      good. A bad pair leaves the stream untouched. */
  function GetHexFast(s: ReadStream, n: nat): (r: Reply<seq<byte>>)
    requires s.Valid() && Lookup(s, 2 * n)
    ensures r.next.Valid()
    ensures r.out.Some? <==> AllHex(s.buf[s.pos..s.pos + 2 * n])
    ensures r.out.Some? ==> r.out.value == HexDecode(s.buf[s.pos..s.pos + 2 * n])
    ensures r.out.Some? ==> r.next == s.(pos := s.pos + 2 * n)
    ensures r.out.None? ==> r.next == s
  {
    HexFastDecodes(s.buf, s.pos, n);
    var (x, data) := HexFastLoop(PairValues(s.buf, s.pos, n), 0, []);
    if x > 0xFF then Reply(None, s)
    else Reply(Some(data), s.(pos := s.pos + 2 * n))
  }

  /** The slow path of `sgethex`, first character of a pair: EOF fails. */
  function HexSlowLoop(s: ReadStream, n: nat, acc: seq<byte>): (r: Reply<seq<byte>>)
    requires s.Valid()
    ensures r.next.Valid()
    ensures var D := Delivered(s);
      r.out.Some? <==> 2 * n <= |D| && AllHex(D[..2 * n])
    ensures var D := Delivered(s);
      r.out.Some? ==> r.out.value == acc + HexDecode(D[..2 * n]) && Delivered(r.next) == D[2 * n..]
    ensures r.out.Some? && Lookup(s, 2 * n) ==> r.next == s.(pos := s.pos + 2 * n)
    decreases n, 2
  {
    if n == 0 then
      assert Delivered(s)[..0] == [] && Delivered(s)[0..] == Delivered(s);
      Reply(Some(acc), s)
    else
      var (c0, s1) := Getc(s);
      GetcDelivers(s);
      if c0.Eof? then Reply(None, s1)
      else HexSlowSecond(c0.b, s1, n, acc)
  }

  /** The slow path, second character of a pair: EOF fails; otherwise
      the pair is decoded and handed on. The content from the first
      character on is `c0` followed by what `s1` delivers. */
  function HexSlowSecond(c0: byte, s1: ReadStream, n: nat, acc: seq<byte>): (r: Reply<seq<byte>>)
    requires s1.Valid() && n >= 1
    ensures r.next.Valid()
    ensures var D := [c0] + Delivered(s1);
      r.out.Some? <==> 2 * n <= |D| && AllHex(D[..2 * n])
    ensures var D := [c0] + Delivered(s1);
      r.out.Some? ==> r.out.value == acc + HexDecode(D[..2 * n]) && Delivered(r.next) == D[2 * n..]
    ensures r.out.Some? && Lookup(s1, 2 * n - 1) ==> r.next == s1.(pos := s1.pos + 2 * n - 1)
    decreases n, 1
  {
    var (c1, s2) := Getc(s1);
    GetcDelivers(s1);
    if c1.Eof? then Reply(None, s2)
    else
      SlowDecoded(c0, c1.b, Delivered(s1), Delivered(s2), n, acc);
      HexSlowStore(DecodePair(c0, c1.b), s2, n, acc)
  }

  /** The slow path, after decoding a pair into `b`: a value above 0xFF
      fails, otherwise its byte is stored and the loop goes on. */
  function HexSlowStore(b: bv32, s2: ReadStream, n: nat, acc: seq<byte>): (r: Reply<seq<byte>>)
    requires s2.Valid() && n >= 1
    ensures r.next.Valid()
    ensures var D2 := Delivered(s2);
      r.out.Some? <==> b <= 0xFF && 2 * (n - 1) <= |D2| && AllHex(D2[..2 * (n - 1)])
    ensures var D2 := Delivered(s2);
      r.out.Some? ==>
        && r.out.value == acc + [LowByte(b)] + HexDecode(D2[..2 * (n - 1)])
        && Delivered(r.next) == D2[2 * (n - 1)..]
    ensures r.out.Some? && Lookup(s2, 2 * (n - 1)) ==> r.next == s2.(pos := s2.pos + 2 * (n - 1))
    decreases n, 0
  {
    if b > 0xFF then Reply(None, s2)
    else HexSlowLoop(s2, n - 1, acc + [LowByte(b)])
  }

  /** The slow path's view of one step: the content `c0` followed by
      `D1 = c1 D2` holds `n` good pairs exactly when the first pair is good
      and `D2` holds `n - 1` more. */
  lemma SlowPair(c0: byte, c1: byte, D1: seq<byte>, D2: seq<byte>, n: nat, acc: seq<byte>)
    requires n >= 1 && D1 == [c1] + D2
    ensures var D := [c0] + D1;
      (2 * n <= |D| && AllHex(D[..2 * n]))
        <==> (IsHexDigit(c0) && IsHexDigit(c1) && 2 * (n - 1) <= |D2| && AllHex(D2[..2 * (n - 1)]))
    ensures var D := [c0] + D1;
      2 * n <= |D| ==> D[2 * n..] == D2[2 * (n - 1)..]
    ensures var D := [c0] + D1;
      2 * n <= |D| && AllHex(D[..2 * n]) ==>
        acc + HexDecode(D[..2 * n]) == acc + [NibbleValue(c0) * 16 + NibbleValue(c1)] + HexDecode(D2[..2 * (n - 1)])
  {
    var D := [c0] + D1;
    if 2 * n <= |D| {
      assert D[0] == c0 && D[1] == c1;
      assert D[0..2 * n] == D[..2 * n];
      assert D[2..2 * n] == D2[..2 * (n - 1)];
      HexRunCons(D, 0, n, acc);
    }
  }

  /** The same step with the pair as the slow path decodes it. */
  lemma SlowDecoded(c0: byte, c1: byte, D1: seq<byte>, D2: seq<byte>, n: nat, acc: seq<byte>)
    requires n >= 1 && D1 == [c1] + D2
    ensures var D := [c0] + D1; var b := DecodePair(c0, c1);
      (2 * n <= |D| && AllHex(D[..2 * n]))
        <==> (b <= 0xFF && 2 * (n - 1) <= |D2| && AllHex(D2[..2 * (n - 1)]))
    ensures var D := [c0] + D1;
      2 * n <= |D| ==> D[2 * n..] == D2[2 * (n - 1)..]
    ensures var D := [c0] + D1; var b := DecodePair(c0, c1);
      2 * n <= |D| && AllHex(D[..2 * n]) ==>
        acc + HexDecode(D[..2 * n]) == acc + [LowByte(b)] + HexDecode(D2[..2 * (n - 1)])
  {
    SlowPair(c0, c1, D1, D2, n, acc);
    DecodePairSpec(c0, c1);
  }

  /** sgethex: read `n` bytes written as `2n` hex digits. The fast path is
      taken when all `2n` characters are already buffered; either way the
      result is the decoded bytes of the next `2n` characters when they are
      all hex digits, and -1 (here None) when the content ends first or a
      character is not a hex digit. A failure on the fast path consumes
      nothing. */
  function GetHex(s: ReadStream, n: nat): (r: Reply<seq<byte>>)
    requires s.Valid()
    ensures r.next.Valid()
    ensures var D := Delivered(s);
      r.out.Some? <==> 2 * n <= |D| && AllHex(D[..2 * n])
    ensures var D := Delivered(s);
      r.out.Some? ==> |r.out.value| == n && r.out.value == HexDecode(D[..2 * n])
    ensures r.out.Some? ==> Delivered(r.next) == Delivered(s)[2 * n..]
    ensures r.out.None? && Lookup(s, 2 * n) ==> r.next == s
  {
    if Lookup(s, 2 * n) then
      FastDelivered(s, n);
      GetHexFast(s, n)
    else
      var r := HexSlowLoop(s, n, []);
      if r.out.Some? then
        assert [] + HexDecode(Delivered(s)[..2 * n]) == HexDecode(Delivered(s)[..2 * n]);
        r
      else r
  }

  /** The fast path's buffer-level outcome read as content: the `2n`
      buffered characters are the next `2n` of the content. */
  lemma FastDelivered(s: ReadStream, n: nat)
    requires s.Valid() && Lookup(s, 2 * n)
    ensures var r := GetHexFast(s, n); var D := Delivered(s);
      && 2 * n <= |D|
      && (r.out.Some? <==> AllHex(D[..2 * n]))
      && (r.out.Some? ==> r.out.value == HexDecode(D[..2 * n]) && Delivered(r.next) == D[2 * n..])
      && (r.out.None? ==> r.next == s)
  {
    ResidentPrefix(s, 2 * n);
  }

  /** With `2n` bytes resident, the buffer path of `sgethex` succeeds
      exactly when the `sgetc` path does, with the same bytes, and on
      success both leave the same stream. */
  lemma HexFastMatchesSlow(s: ReadStream, n: nat)
    requires s.Valid() && Lookup(s, 2 * n)
    ensures GetHexFast(s, n).out == HexSlowLoop(s, n, []).out
    ensures GetHexFast(s, n).out.Some? ==>
      Delivered(GetHexFast(s, n).next) == Delivered(HexSlowLoop(s, n, []).next)
    ensures GetHexFast(s, n).out.Some? ==> GetHexFast(s, n) == HexSlowLoop(s, n, [])
  {
    FastDelivered(s, n);
    SameHexOutcome(GetHexFast(s, n), HexSlowLoop(s, n, []), Delivered(s), n);
  }

  /** Two `sgethex` replies that meet the same content-level specification
      carry the same bytes and leave the same content. */
  lemma SameHexOutcome(f: Reply<seq<byte>>, r: Reply<seq<byte>>, D: seq<byte>, n: nat)
    requires f.next.Valid() && r.next.Valid()
    requires f.out.Some? <==> 2 * n <= |D| && AllHex(D[..2 * n])
    requires r.out.Some? <==> 2 * n <= |D| && AllHex(D[..2 * n])
    requires f.out.Some? ==> f.out.value == HexDecode(D[..2 * n]) && Delivered(f.next) == D[2 * n..]
    requires r.out.Some? ==> r.out.value == [] + HexDecode(D[..2 * n]) && Delivered(r.next) == D[2 * n..]
    ensures f.out == r.out
    ensures f.out.Some? ==> Delivered(f.next) == Delivered(r.next)
  {
    if f.out.Some? {
      assert [] + HexDecode(D[..2 * n]) == HexDecode(D[..2 * n]);
    }
  }

}
