/**
 The read side of the buffer engine: a stream opened on one source file,
 its refill (`sfill`), the single-byte primitives `sgetc`/`sungetc` and
 the direct-access check `sptrlookup`.

 The `read(2)` calls are an oracle carried by the source: each call takes
 the next reply from `replies` (an error, or an upper bound on how many
 bytes this call transfers); once the replies are used up every call
 transfers a full buffer. The bytes themselves always come from `data`,
 the unread rest of the file, in order.
 */
module ReadStreams {
  import opened Base

  /** What one `read` call does: fail, or transfer at most `limit` bytes. */
  datatype ReadReply = Transfer(limit: nat) | ReadFault

  /** The file behind handle 0: bytes not yet read and the replies the
      next `read` calls give. */
  datatype Source = Source(data: seq<byte>, replies: seq<ReadReply>)

  /** The stream: `buf` is the region [buffer, end), `pos` the cursor. */
  datatype ReadStream = ReadStream(buf: seq<byte>, pos: nat, src: Source, state: State)
  {
    /** buffer <= pos <= end <= buffer + STREAM_SIZE, and never in write mode. */
    predicate Valid()
    {
      pos <= |buf| <= StreamSize && state != WriteState
    }
  }

  /** A value `sgetc` returns: a byte, or EOF. */
  datatype Ch = Byte(b: byte) | Eof

  /** Work left before the stream is exhausted: buffered bytes, file bytes
      and pending replies. Every byte `sgetc` returns lowers it. */
  function Measure(s: ReadStream): nat
    requires s.Valid()
  {
    |s.buf| - s.pos + |s.src.data| + |s.src.replies|
  }

  /** sopen_read: an empty buffer in read state, or nothing when `open` fails. */
  function OpenRead(src: Source, openOk: bool): (r: Option<ReadStream>)
    ensures r.Some? <==> openOk
    ensures r.Some? ==> r.value.Valid() && r.value.state == ReadState && r.value.src == src
    ensures r.Some? ==> r.value.pos == |r.value.buf| == 0
  {
    if openOk then Some(ReadStream([], 0, src, ReadState)) else None
  }

  /** sfill: one `read` of up to STREAM_SIZE bytes. Outside read state it
      reports EOF; a failing read moves to the error state and a read of
      zero bytes to the EOF state, both reporting EOF and leaving the buffer
      alone; otherwise the buffer is the bytes read and the first is returned. */
  function Fill(s: ReadStream): (r: (Ch, ReadStream))
    requires s.Valid()
    ensures r.1.Valid()
    ensures r.0.Eof? ==>
      && r.1.buf == s.buf && r.1.pos == s.pos && r.1.src.data == s.src.data
      && r.1.state != ReadState
      && (s.state != ReadState ==> r.1 == s)
    ensures r.0.Byte? ==>
      && s.state == ReadState && r.1.state == ReadState
      && r.1.pos == 1 && |r.1.buf| >= 1 && r.1.buf[0] == r.0.b
      && s.src.data == r.1.buf + r.1.src.data
      && Measure(r.1) < Measure(s)
    ensures s.state == ReadState && r.0.Eof? ==>
      r.1.state == if |s.src.replies| > 0 && s.src.replies[0].ReadFault? then ErrorState else EofState
    ensures s.state == ReadState && |s.src.replies| > 0 && s.src.replies[0].ReadFault? ==> r.0.Eof?
  {
    if s.state != ReadState then (Eof, s)
    else
      var reply := if |s.src.replies| == 0 then Transfer(StreamSize) else s.src.replies[0];
      var rest := if |s.src.replies| == 0 then [] else s.src.replies[1..];
      match reply
      case ReadFault => (Eof, s.(src := s.src.(replies := rest), state := ErrorState))
      case Transfer(limit) =>
        var k := Min(Min(limit, StreamSize), |s.src.data|);
        if k == 0 then (Eof, s.(src := s.src.(replies := rest), state := EofState))
        else
          var data := s.src.data;
          assert data == data[..k] + data[k..];
          (Byte(data[0]), ReadStream(data[..k], 1, s.src.(data := data[k..], replies := rest), ReadState))
  }

  /** sgetc: the byte at the cursor, advancing it, or a refill when the
      buffer is used up. A buffered byte is returned without any I/O; EOF
      leaves the stream exhausted and out of read state, so it repeats. */
  function Getc(s: ReadStream): (r: (Ch, ReadStream))
    requires s.Valid()
    ensures r.1.Valid()
    ensures s.pos < |s.buf| ==> r == (Byte(s.buf[s.pos]), s.(pos := s.pos + 1))
    ensures r.0.Byte? ==> 1 <= r.1.pos && r.1.buf[r.1.pos - 1] == r.0.b && Measure(r.1) < Measure(s)
    ensures r.0.Eof? ==> r.1.pos == |r.1.buf| && r.1.state != ReadState
  {
    if s.pos < |s.buf| then (Byte(s.buf[s.pos]), s.(pos := s.pos + 1)) else Fill(s)
  }

  /** sungetc: step the cursor back over the byte just read; pushing back
      EOF changes nothing. */
  function Ungetc(c: Ch, s: ReadStream): (r: ReadStream)
    requires s.Valid()
    requires c.Byte? ==> s.pos >= 1
    ensures r.Valid()
    ensures c.Eof? ==> r == s
    ensures c.Byte? ==> r.pos + 1 == s.pos && r.buf == s.buf && r.src == s.src && r.state == s.state
  {
    if c.Eof? then s else s.(pos := s.pos - 1)
  }

  /** sptrlookup: are the next `n` bytes already in the buffer? */
  predicate Lookup(s: ReadStream, n: int)
    requires s.Valid()
  {
    |s.buf| - s.pos >= n
  }

  /** The bytes the remaining `read` calls on a source deliver before one
      fails or returns zero. */
  function Future(src: Source): seq<byte>
    decreases |src.replies|
  {
    if |src.replies| == 0 then src.data
    else match src.replies[0]
      case ReadFault => []
      case Transfer(limit) =>
        var k := Min(Min(limit, StreamSize), |src.data|);
        if k == 0 then []
        else src.data[..k] + Future(src.(data := src.data[k..], replies := src.replies[1..]))
  }

  /** The content of the stream as its parsers see it: the unread part of
      the buffer, then whatever later refills deliver while in read state. */
  function Delivered(s: ReadStream): seq<byte>
    requires s.Valid()
  {
    s.buf[s.pos..] + (if s.state == ReadState then Future(s.src) else [])
  }

  /** A refill in read state hands over exactly the next chunk of the
      future reads, or reports EOF exactly when there are none. */
  lemma FillFuture(s: ReadStream)
    requires s.Valid() && s.state == ReadState
    ensures var (c, s1) := Fill(s);
      && (c.Eof? <==> Future(s.src) == [])
      && (c.Byte? ==> s1.buf + Future(s1.src) == Future(s.src))
  {
    var (c, s1) := Fill(s);
    var src := s.src;
    if |src.replies| == 0 {
      if |src.data| > 0 {
        var k := Min(StreamSize, |src.data|);
        assert s1.src.replies == [];
        assert s1.buf == src.data[..k] && s1.src.data == src.data[k..];
        assert src.data == src.data[..k] + src.data[k..];
      }
    } else if src.replies[0].Transfer? {
      var k := Min(Min(src.replies[0].limit, StreamSize), |src.data|);
      if k > 0 {
        assert s1.src == src.(data := src.data[k..], replies := src.replies[1..]);
        assert s1.buf == src.data[..k];
      }
    }
  }

  /** Reading a buffered byte takes it off the front of the content. */
  lemma GetcResident(s: ReadStream)
    requires s.Valid() && s.pos < |s.buf|
    ensures Delivered(s) == [s.buf[s.pos]] + Delivered(s.(pos := s.pos + 1))
  {
    assert s.buf[s.pos..] == [s.buf[s.pos]] + s.buf[s.pos + 1..];
  }

  /** A refill of an exhausted buffer takes the first byte off the front
      of the content, or reports EOF exactly when the content is empty. */
  lemma GetcRefill(s: ReadStream)
    requires s.Valid() && s.pos == |s.buf|
    ensures var (c, s1) := Fill(s);
      && (c.Eof? <==> Delivered(s) == [])
      && (c.Eof? ==> Delivered(s1) == [])
      && (c.Byte? ==> Delivered(s) == [c.b] + Delivered(s1))
  {
    var r := Fill(s);
    assert s.buf[s.pos..] == [];
    if s.state != ReadState {
      assert r == (Eof, s);
    } else {
      FillFuture(s);
      assert r.0.Eof? ==> r.1.pos == |r.1.buf| && r.1.state != ReadState;
      RefillReadState(s, r.0, r.1);
    }
  }

  lemma RefillReadState(s: ReadStream, c: Ch, s1: ReadStream)
    requires s.Valid() && s.pos == |s.buf| && s.state == ReadState
    requires s1.Valid()
    requires c.Eof? ==> s1.pos == |s1.buf| && s1.state != ReadState
    requires c.Byte? ==> s1.state == ReadState && s1.pos == 1 && |s1.buf| >= 1 && s1.buf[0] == c.b
    requires c.Eof? <==> Future(s.src) == []
    requires c.Byte? ==> s1.buf + Future(s1.src) == Future(s.src)
    ensures c.Eof? <==> Delivered(s) == []
    ensures c.Eof? ==> Delivered(s1) == []
    ensures c.Byte? ==> Delivered(s) == [c.b] + Delivered(s1)
  {
    assert Delivered(s) == Future(s.src);
    if c.Eof? {
      assert s1.buf[s1.pos..] == [];
    } else {
      assert Delivered(s1) == s1.buf[1..] + Future(s1.src);
      assert s1.buf == [c.b] + s1.buf[1..];
    }
  }

  /** The content is exactly what successive `sgetc` calls return: EOF when
      it is empty, and otherwise its first byte, leaving the rest. */
  lemma GetcDelivers(s: ReadStream)
    requires s.Valid()
    ensures var (c, s1) := Getc(s);
      && (c.Eof? <==> Delivered(s) == [])
      && (c.Eof? ==> Delivered(s1) == [])
      && (c.Byte? ==> Delivered(s) == [c.b] + Delivered(s1))
  {
    if s.pos < |s.buf| {
      GetcResident(s);
    } else {
      GetcRefill(s);
    }
  }

  /** sungetc undoes sgetc: pushing the byte back restores the content, so
      the next read sees it again. */
  lemma UngetRestores(s: ReadStream)
    requires s.Valid()
    ensures var (c, s1) := Getc(s);
      c.Byte? ==> Delivered(Ungetc(c, s1)) == Delivered(s)
  {
    var (c, s1) := Getc(s);
    GetcDelivers(s);
    if c.Byte? {
      var u := Ungetc(c, s1);
      assert u.buf[u.pos..] == [c.b] + s1.buf[s1.pos..];
    }
  }

  /** The next `k` bytes of the content are in the buffer when `sptrlookup`
      says so, and moving the cursor over them (`sptrset`) drops exactly
      them from the content. */
  lemma ResidentPrefix(s: ReadStream, k: nat)
    requires s.Valid() && Lookup(s, k)
    ensures |Delivered(s)| >= k
    ensures Delivered(s)[..k] == s.buf[s.pos..s.pos + k]
    ensures Delivered(s.(pos := s.pos + k)) == Delivered(s)[k..]
  {
    var f := if s.state == ReadState then Future(s.src) else [];
    assert s.buf[s.pos..] == s.buf[s.pos..s.pos + k] + s.buf[s.pos + k..];
    assert Delivered(s) == s.buf[s.pos..s.pos + k] + (s.buf[s.pos + k..] + f);
  }

  /** A source that never fails and whose every read transfers something. */
  predicate WellBehaved(src: Source)
  {
    forall i :: 0 <= i < |src.replies| ==> src.replies[i].Transfer? && src.replies[i].limit > 0
  }

  /** From a well-behaved source the reads deliver the whole rest of the
      file, however they happen to be chunked. */
  lemma {:induction false} FutureWellBehaved(src: Source)
    requires WellBehaved(src)
    ensures Future(src) == src.data
    decreases |src.replies|
  {
    if |src.replies| > 0 && |src.data| > 0 {
      assert src.replies[0].Transfer? && src.replies[0].limit > 0;
      var k := Min(Min(src.replies[0].limit, StreamSize), |src.data|);
      var next := src.(data := src.data[k..], replies := src.replies[1..]);
      assert WellBehaved(next) by {
        forall i | 0 <= i < |next.replies|
          ensures next.replies[i].Transfer? && next.replies[i].limit > 0
        {
          assert next.replies[i] == src.replies[i + 1];
        }
      }
      FutureWellBehaved(next);
      assert src.data == src.data[..k] + src.data[k..];
    }
  }

  /** A freshly opened stream on a well-behaved source delivers the file. */
  lemma OpenDeliversFile(src: Source)
    requires WellBehaved(src)
    ensures OpenRead(src, true).Some?
    ensures Delivered(OpenRead(src, true).value) == src.data
  {
    FutureWellBehaved(src);
  }
}
