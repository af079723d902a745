/**
 The write side of the buffer engine: a stream that fans its buffer out to
 one or more files (`sopen_multi_write`, `sopen_multi_file`,
 `sopen_write`), the flush (`sflush`), the single-byte primitive `sputc`,
 `ssync` and `sclose`.

 Every file is a `Sink`. Its `write(2)` calls are an oracle like the read
 side's: each call takes the next reply (a fault, or an upper bound on
 how many bytes it transfers); once the replies are used up every write
 is complete. `fsync` and `close` each have one fixed outcome per file.
 A handle that was never opened is `-1`, on which every call fails.
 */
module WriteStreams {
  import opened Base

  /** What one `write` call does: fail, or transfer at most `limit` bytes. */
  datatype WriteReply = Accept(limit: nat) | WriteFault

  /** A file behind one handle: whether it is open, the bytes it holds,
      the replies its next `write` calls give, and the outcome of `fsync`
      and of `close` on it. */
  datatype Sink = Sink(open: bool, data: seq<byte>, replies: seq<WriteReply>, syncOk: bool, closeOk: bool)

  /** The stream: `buf` is the region [buffer, pos) still to be written;
      the buffer ends STREAM_SIZE bytes after its start. `stateIndex` is
      the handle that caused the error state. */
  datatype WriteStream = WriteStream(buf: seq<byte>, sinks: seq<Sink>, state: State, stateIndex: nat)
  {
    /** buffer <= pos <= end = buffer + STREAM_SIZE. */
    predicate Valid()
    {
      |buf| <= StreamSize
    }
  }

  /** sptrlookup on a write stream: is there room for `n` more bytes? */
  predicate Room(w: WriteStream, n: int)
    requires w.Valid()
  {
    StreamSize - |w.buf| >= n
  }

  /** What sink `j` holds once the pending buffer reaches it. */
  function Written(w: WriteStream, j: nat): seq<byte>
    requires j < |w.sinks|
  {
    w.sinks[j].data + w.buf
  }

  /** The next `write` of `data` to this sink transfers all of it. */
  predicate Accepts(k: Sink, data: seq<byte>)
  {
    k.open && (|k.replies| == 0 || (k.replies[0].Accept? && k.replies[0].limit >= |data|))
  }

  /** A sink on which every write of up to a buffer's worth succeeds. */
  predicate Reliable(k: Sink)
  {
    k.open && forall i :: 0 <= i < |k.replies| ==> k.replies[i].Accept? && k.replies[i].limit >= StreamSize
  }

  /** A stream on which nothing can fail: write state, every sink reliable. */
  predicate Healthy(w: WriteStream)
  {
    w.Valid() && w.state == WriteState && forall j :: 0 <= j < |w.sinks| ==> Reliable(w.sinks[j])
  }

  /** One `write(f, buffer, size)` call, reporting whether `ret == size`.
      A failed call may still have transferred a prefix of the data. */
  function SinkWrite(k: Sink, data: seq<byte>): (r: (bool, Sink))
    ensures r.0 <==> Accepts(k, data)
    ensures r.0 ==> r.1.data == k.data + data
    ensures !r.0 ==> r.1.data <= k.data + data && (|data| > 0 ==> |r.1.data| < |k.data| + |data|)
    ensures r.1.open == k.open && r.1.syncOk == k.syncOk && r.1.closeOk == k.closeOk
    ensures Reliable(k) && |data| <= StreamSize ==> r.0 && Reliable(r.1)
  {
    if !k.open then (false, k)
    else
      var reply := if |k.replies| == 0 then Accept(|data|) else k.replies[0];
      var rest := if |k.replies| == 0 then [] else k.replies[1..];
      match reply
      case WriteFault => (false, k.(replies := rest))
      case Accept(limit) =>
        var n := Min(limit, |data|);
        assert data[..n] <= data;
        (n == |data|, k.(data := k.data + data[..n], replies := rest))
  }

  /** The fan-out loop of `sflush` from handle `i` on: write the buffer to
      each handle in order and stop at the first one that does not take
      all of it, reporting its index. */
  function WriteAll(sinks: seq<Sink>, i: nat, data: seq<byte>): (r: (Option<nat>, seq<Sink>))
    requires i <= |sinks|
    ensures |r.1| == |sinks|
    ensures r.0.None? <==> forall j :: i <= j < |sinks| ==> Accepts(sinks[j], data)
    ensures r.0.Some? ==>
      && i <= r.0.value < |sinks|
      && !Accepts(sinks[r.0.value], data)
      && (forall j :: i <= j < r.0.value ==> Accepts(sinks[j], data))
    ensures forall j :: 0 <= j < i ==> r.1[j] == sinks[j]
    ensures forall j :: i <= j < |sinks| && (r.0.None? || j < r.0.value) ==> r.1[j].data == sinks[j].data + data
    ensures r.0.Some? ==> forall j :: r.0.value < j < |sinks| ==> r.1[j] == sinks[j]
    ensures r.0.Some? ==>
      && r.1[r.0.value].data <= sinks[r.0.value].data + data
      && (|data| > 0 ==> |r.1[r.0.value].data| < |sinks[r.0.value].data| + |data|)
    ensures forall j :: 0 <= j < |sinks| ==>
      r.1[j].open == sinks[j].open && r.1[j].syncOk == sinks[j].syncOk && r.1[j].closeOk == sinks[j].closeOk
    ensures |data| <= StreamSize && (forall j :: i <= j < |sinks| ==> Reliable(sinks[j])) ==>
      forall j :: i <= j < |sinks| ==> Reliable(r.1[j])
    decreases |sinks| - i
  {
    if i == |sinks| then (None, sinks)
    else
      var (ok, k) := SinkWrite(sinks[i], data);
      var next := sinks[i := k];
      assert forall j :: 0 <= j < |sinks| && j != i ==> next[j] == sinks[j];
      if !ok then (Some(i), next)
      else WriteAll(next, i + 1, data)
  }

  /** sflush: EOF outside write state; nothing to do with an empty
      buffer; otherwise the buffer goes to every handle in order. The first
      short write moves to the error state, records the handle and keeps
      the buffer; only full success empties it. */
  function Flush(w: WriteStream): (r: (bool, WriteStream))
    requires w.Valid()
    ensures r.1.Valid() && |r.1.sinks| == |w.sinks|
    ensures w.state != WriteState ==> !r.0 && r.1 == w
    ensures w.state == WriteState && |w.buf| == 0 ==> r.0 && r.1 == w
    ensures w.state == WriteState ==> (r.0 <==> |w.buf| == 0 || forall j :: 0 <= j < |w.sinks| ==> Accepts(w.sinks[j], w.buf))
    ensures r.0 ==>
      && r.1.buf == [] && r.1.state == w.state
      && forall j :: 0 <= j < |w.sinks| ==> Written(r.1, j) == Written(w, j)
    ensures !r.0 && w.state == WriteState ==>
      && r.1.state == ErrorState && r.1.buf == w.buf
      && r.1.stateIndex < |w.sinks|
      && !Accepts(w.sinks[r.1.stateIndex], w.buf)
      && (forall j :: 0 <= j < r.1.stateIndex ==> Accepts(w.sinks[j], w.buf) && r.1.sinks[j].data == w.sinks[j].data + w.buf)
      && (forall j :: r.1.stateIndex < j < |w.sinks| ==> r.1.sinks[j] == w.sinks[j])
      && r.1.sinks[r.1.stateIndex].data <= w.sinks[r.1.stateIndex].data + w.buf
      && |r.1.sinks[r.1.stateIndex].data| < |w.sinks[r.1.stateIndex].data| + |w.buf|
    ensures Healthy(w) ==> r.0 && Healthy(r.1)
  {
    if w.state != WriteState then (false, w)
    else if |w.buf| == 0 then (true, w)
    else
      var (failed, sinks) := WriteAll(w.sinks, 0, w.buf);
      match failed
      case Some(i) => (false, w.(sinks := sinks, state := ErrorState, stateIndex := i))
      case None => (true, w.(buf := [], sinks := sinks))
  }

  /** A flush right after a successful flush writes nothing and succeeds. */
  lemma FlushTwice(w: WriteStream)
    requires w.Valid() && Flush(w).0
    ensures Flush(Flush(w).1) == (true, Flush(w).1)
  {
  }

  /** sputc: when the buffer is full it is flushed first, and a failed
      flush fails the call; then the byte is stored. */
  function Putc(c: byte, w: WriteStream): (r: (bool, WriteStream))
    requires w.Valid()
    ensures r.1.Valid() && |r.1.sinks| == |w.sinks|
    ensures r.0 ==> forall j :: 0 <= j < |w.sinks| ==> Written(r.1, j) == Written(w, j) + [c]
    ensures r.0 ==> r.1.state == w.state && |r.1.buf| >= 1
    ensures Room(w, 1) ==> r.0 && r.1 == w.(buf := w.buf + [c])
    ensures !r.0 ==> |w.buf| == StreamSize && r.1 == Flush(w).1 && r.1.state != WriteState
    ensures Healthy(w) ==> r.0 && Healthy(r.1)
  {
    if |w.buf| == StreamSize then
      var (ok, w1) := Flush(w);
      if !ok then (false, w1)
      else (true, w1.(buf := w1.buf + [c]))
    else (true, w.(buf := w.buf + [c]))
  }

  /** The `fsync` loop of `ssync` from handle `i` on: the index of the
      first handle whose sync fails, if any. */
  function SyncFrom(sinks: seq<Sink>, i: nat): (r: Option<nat>)
    requires i <= |sinks|
    ensures r.None? <==> forall j :: i <= j < |sinks| ==> sinks[j].open && sinks[j].syncOk
    ensures r.Some? ==>
      && i <= r.value < |sinks|
      && !(sinks[r.value].open && sinks[r.value].syncOk)
      && forall j :: i <= j < r.value ==> sinks[j].open && sinks[j].syncOk
    decreases |sinks| - i
  {
    if i == |sinks| then None
    else if !(sinks[i].open && sinks[i].syncOk) then Some(i)
    else SyncFrom(sinks, i + 1)
  }

  /** ssync: sync every handle in order; the first failure moves to the
      error state and records the handle. The buffer is not flushed. */
  function Sync(w: WriteStream): (r: (bool, WriteStream))
    ensures r.0 <==> forall j :: 0 <= j < |w.sinks| ==> w.sinks[j].open && w.sinks[j].syncOk
    ensures r.0 ==> r.1 == w
    ensures !r.0 ==>
      && r.1 == w.(state := ErrorState, stateIndex := r.1.stateIndex)
      && r.1.stateIndex < |w.sinks|
      && !(w.sinks[r.1.stateIndex].open && w.sinks[r.1.stateIndex].syncOk)
      && forall j :: 0 <= j < r.1.stateIndex ==> w.sinks[j].open && w.sinks[j].syncOk
  {
    match SyncFrom(w.sinks, 0)
    case None => (true, w)
    case Some(i) => (false, w.(state := ErrorState, stateIndex := i))
  }

  /** Every handle's `close` succeeds: an open file whose close reports no
      error. Closing a handle that was never opened fails. */
  predicate AllClose(sinks: seq<Sink>)
  {
    forall j :: 0 <= j < |sinks| ==> sinks[j].open && sinks[j].closeOk
  }

  /** The `close` loop of `sclose` from handle `i` on: every handle is
      closed, whatever the earlier ones reported, and the loop remembers
      whether any close failed. */
  function CloseFrom(sinks: seq<Sink>, i: nat): (r: (bool, seq<Sink>))
    requires i <= |sinks|
    ensures |r.1| == |sinks|
    ensures r.0 <==> forall j :: i <= j < |sinks| ==> sinks[j].open && sinks[j].closeOk
    ensures forall j :: 0 <= j < i ==> r.1[j] == sinks[j]
    ensures forall j :: i <= j < |sinks| ==> r.1[j] == sinks[j].(open := false)
    decreases |sinks| - i
  {
    if i == |sinks| then (true, sinks)
    else
      var ok := sinks[i].open && sinks[i].closeOk;
      var next := sinks[i := sinks[i].(open := false)];
      assert forall j :: 0 <= j < |sinks| && j != i ==> next[j] == sinks[j];
      var (rest, closed) := CloseFrom(next, i + 1);
      (ok && rest, closed)
  }

  /** sclose: flush if still in write state, then close every handle even
      after a failed flush or close. It fails if the flush or any close
      failed. The result gives the files as left on disk, all closed. */
  function Close(w: WriteStream): (r: (bool, seq<Sink>))
    requires w.Valid()
    ensures |r.1| == |w.sinks|
    ensures r.0 <==> (w.state != WriteState || Flush(w).0) && AllClose(w.sinks)
    ensures forall j :: 0 <= j < |w.sinks| ==> !r.1[j].open
    ensures forall j :: 0 <= j < |w.sinks| ==> r.1[j].data == Flush(w).1.sinks[j].data
    ensures w.state == WriteState && Flush(w).0 ==>
      forall j :: 0 <= j < |w.sinks| ==> r.1[j].data == Written(w, j)
    ensures w.state != WriteState ==> forall j :: 0 <= j < |w.sinks| ==> r.1[j] == w.sinks[j].(open := false)
    ensures Healthy(w) && AllClose(w.sinks) ==> r.0
  {
    if w.state == WriteState then
      var (flushed, w1) := Flush(w);
      Flushed(w, w1.sinks);
      var (closedOk, closed) := CloseFrom(w1.sinks, 0);
      (flushed && closedOk, closed)
    else
      CloseFrom(w.sinks, 0)
  }

  /** Writing never opens or closes a handle nor changes its outcomes. */
  lemma Flushed(w: WriteStream, sinks: seq<Sink>)
    requires w.Valid() && w.state == WriteState && sinks == Flush(w).1.sinks
    ensures AllClose(sinks) <==> AllClose(w.sinks)
  {
    var (failed, s) := WriteAll(w.sinks, 0, w.buf);
  }

  /** sopen_multi_write: an empty buffer in write state over `count`
      handles, none of them open yet. Each file is given by its oracle. */
  function OpenMultiWrite(files: seq<Sink>): (w: WriteStream)
    ensures w.Valid() && w.state == WriteState && w.buf == [] && w.stateIndex == 0
    ensures |w.sinks| == |files|
    ensures forall j :: 0 <= j < |files| ==> !w.sinks[j].open
    ensures forall j :: 0 <= j < |files| ==> w.sinks[j].replies == files[j].replies
  {
    WriteStream([], seq(|files|, j requires 0 <= j < |files| => files[j].(open := false)), WriteState, 0)
  }

  /** sopen_multi_file: open handle `i` for writing, truncating the file,
      then advise sequential access. A failed `open` returns -1 and changes
      nothing. A failed `posix_fadvise` closes the new descriptor and
      returns -1, but the open has already truncated the file, and the
      handle is left as it was. */
  function OpenMultiFile(w: WriteStream, i: nat, openOk: bool, adviseOk: bool): (r: (bool, WriteStream))
    requires i < |w.sinks|
    ensures r.0 <==> openOk && adviseOk
    ensures r.1.buf == w.buf && r.1.state == w.state && |r.1.sinks| == |w.sinks|
    ensures r.0 ==> r.1.sinks[i].open && r.1.sinks[i].data == []
    ensures !openOk ==> r.1 == w
    ensures openOk && !adviseOk ==> r.1.sinks[i] == w.sinks[i].(data := [])
    ensures forall j :: 0 <= j < |w.sinks| && j != i ==> r.1.sinks[j] == w.sinks[j]
  {
    if !openOk then (false, w)
    else if !adviseOk then (false, w.(sinks := w.sinks[i := w.sinks[i].(data := [])]))
    else (true, w.(sinks := w.sinks[i := w.sinks[i].(open := true, data := [])]))
  }

  /** sopen_write: a one-handle stream on a freshly truncated file, or
      nothing when the open fails. */
  function OpenWrite(file: Sink, openOk: bool, adviseOk: bool): (r: Option<WriteStream>)
    ensures r.Some? <==> openOk && adviseOk
    ensures r.Some? ==>
      && r.value.Valid() && r.value.state == WriteState && r.value.buf == []
      && |r.value.sinks| == 1 && r.value.sinks[0].open && r.value.sinks[0].data == []
      && r.value.sinks[0].replies == file.replies
  {
    var w := OpenMultiWrite([file]);
    var (ok, w1) := OpenMultiFile(w, 0, openOk, adviseOk);
    if ok then Some(w1) else None
  }
}
