/** src/handlers.rs: the axum handlers. Uploading picks a free name and pumps
    the zstd encoder's output to the new file's writer through a 255-byte buffer;
    retrieval derives the paste file from the key. The encoder and the file
    writer are scripts: `chunks[i]` is what the i-th `enc.read` yields, and
    `writes[i]` is what the i-th `writer.write` does. Reads past the end of
    `chunks` return 0 bytes (end of data) and writes past the end of
    `writes` accept everything they are offered. */
module Handlers {
  import opened Basics
  import opened Paths
  import opened Store
  import Utils

  const BufLen: nat := 255

  /** One `enc.read(&mut buff)`: an I/O error, or `data` copied to the front
      of the buffer (`read == |data|`; no data means end of stream). */
  datatype ReadStep = ReadErr | Chunk(data: seq<byte>)

  /** One `writer.write(..)`: an I/O error, or room for at most `cap` bytes. */
  datatype WriteStep = WriteErr | Accept(cap: nat)

  datatype Status = Done | Failed(error: Error)

  /** The outcome of the copy and the bytes handed to the file's writer (a
      `BufWriter`; which of them reach the disk is not modelled). */
  datatype Copy = Copy(status: Status, file: seq<byte>)

  /** A read never returns more than the buffer holds. */
  predicate ChunksFit(chunks: seq<ReadStep>)
  {
    forall i :: 0 <= i < |chunks| ==> chunks[i].Chunk? ==> |chunks[i].data| <= BufLen
  }

  function ReadAt(chunks: seq<ReadStep>, pos: nat): (r: ReadStep)
    ensures pos >= |chunks| ==> r == Chunk([])
  {
    if pos < |chunks| then chunks[pos] else Chunk([])
  }

  /** The number of bytes the `calls`-th write accepts out of `offered`, or
      None for an I/O error. */
  function Offer(writes: seq<WriteStep>, calls: nat, offered: nat): (r: Option<nat>)
    ensures r.Some? ==> r.value <= offered
    ensures r.None? <==> calls < |writes| && writes[calls] == WriteErr
  {
    if calls >= |writes| then Some(offered)
    else match writes[calls]
      case WriteErr => None
      case Accept(cap) => Some(if cap < offered then cap else offered)
  }

  function Zeros(n: nat): (z: seq<byte>)
    ensures |z| == n && forall i :: 0 <= i < n ==> z[i] == 0
  {
    seq(n, _ => 0)
  }

  /** The bytes the encoder produces: the chunks up to the end of data (or up
      to a read error). */
  function EncoderOutput(chunks: seq<ReadStep>, pos: nat): seq<byte>
    decreases |chunks| - pos
  {
    if pos >= |chunks| then []
    else match chunks[pos]
      case ReadErr => []
      case Chunk(d) => if d == [] then [] else d + EncoderOutput(chunks, pos + 1)
  }

  /** The number of non-empty chunks before the end of data or a read error. */
  function ChunkCount(chunks: seq<ReadStep>, pos: nat): nat
    decreases |chunks| - pos
  {
    if pos >= |chunks| then 0
    else match chunks[pos]
      case ReadErr => 0
      case Chunk(d) => if d == [] then 0 else 1 + ChunkCount(chunks, pos + 1)
  }

  // ---------------------------------------------------------------------------
  // The copy loop as written

  /** What the writes for one chunk did: the error that ended them, if any,
      the bytes they handed to the writer, and the number of writes done so far. */
  datatype Writes = Writes(error: Option<Error>, written: seq<byte>, calls: nat)

  /** The inner loop as written, `wrote` of the `read` bytes accounted for:
      every write is offered the WHOLE buffer `buf`. */
  function WriteAll(writes: seq<WriteStep>, buf: seq<byte>, read: nat, calls: nat, wrote: nat): (r: Writes)
    ensures r.calls >= calls
    decreases read - wrote
  {
    if wrote >= read then Writes(None, [], calls)
    else match Offer(writes, calls, |buf|)
      case None => Writes(Some(Io), [], calls + 1)
      case Some(w) =>
        if w == 0 then Writes(Some(Other(SomethingWentWrong)), [], calls + 1)
        else
          var rest := WriteAll(writes, buf, read, calls + 1, wrote + w);
          Writes(rest.error, buf[..w] + rest.written, rest.calls)
  }

  /** The outer loop as written: `pos` reads done, buffer contents `buf`,
      `calls` writes done. A read of 0 bytes ends the copy. */
  function Outer(chunks: seq<ReadStep>, writes: seq<WriteStep>, pos: nat, buf: seq<byte>, calls: nat): Copy
    requires ChunksFit(chunks) && |buf| == BufLen && pos <= |chunks|
    decreases |chunks| - pos
  {
    match ReadAt(chunks, pos)
    case ReadErr => Copy(Failed(Io), [])
    case Chunk(d) =>
      var b := d + buf[|d|..];
      var w := WriteAll(writes, b, |d|, calls, 0);
      if w.error.Some? then Copy(Failed(w.error.value), w.written)
      else if d == [] then Copy(Done, w.written)
      else
        var rest := Outer(chunks, writes, pos + 1, b, w.calls);
        Copy(rest.status, w.written + rest.file)
  }

  /** `enc.read(&mut buff)`: the encoder copies its next chunk to the front of
      the buffer and leaves the rest of it as it was. */
  method Fill(buff: array<byte>, data: seq<byte>)
    requires |data| <= buff.Length
    modifies buff
    ensures buff[..] == data + old(buff[..])[|data|..]
  {
    for i := 0 to |data|
      invariant forall j :: 0 <= j < i ==> buff[j] == data[j]
      invariant forall j :: i <= j < buff.Length ==> buff[j] == old(buff[j])
    {
      buff[i] := data[i];
    }
    assert buff[..] == data + old(buff[..])[|data|..];
  }

  /** Writes with `f` written before them. */
  function After(f: seq<byte>, w: Writes): Writes
  {
    Writes(w.error, f + w.written, w.calls)
  }

  /** The inner loop of the copy as written: while fewer than `read` bytes
      are accounted for, write `&buff` and add what was accepted; a write
      accepting 0 bytes aborts with "Something went wrong". `calls` writes
      were done before. */
  method WriteChunk(buff: array<byte>, read: nat, writes: seq<WriteStep>, calls: nat) returns (w: Writes)
    ensures w == WriteAll(writes, buff[..], read, calls, 0)
  {
    ghost var b := buff[..];
    ghost var total := WriteAll(writes, b, read, calls, 0);
    var wroteTotal: nat := 0;
    var n := calls;
    var file: seq<byte> := [];
    assert total == After(file, total);
    while wroteTotal < read
      invariant total == After(file, WriteAll(writes, b, read, n, wroteTotal))
      decreases read - wroteTotal
    {
      var accepted := Offer(writes, n, buff.Length);
      n := n + 1;
      if accepted.None? {
        assert file + [] == file;
        return Writes(Some(Io), file, n);
      }
      var wrote := accepted.value;
      if wrote == 0 {
        assert file + [] == file;
        return Writes(Some(Other(SomethingWentWrong)), file, n);
      }
      WriteAllStep(writes, b, read, n - 1, wroteTotal, wrote);
      AfterAfter(file, b[..wrote], WriteAll(writes, b, read, n, wroteTotal + wrote));
      file := file + buff[..wrote];
      wroteTotal := wroteTotal + wrote;
    }
    assert file + [] == file;
    w := Writes(None, file, n);
  }

  /** One write of the inner loop as written that accepts `wrote` bytes hands
      the writer the first `wrote` bytes of the buffer. */
  lemma WriteAllStep(writes: seq<WriteStep>, buf: seq<byte>, read: nat, calls: nat, wroteTotal: nat, wrote: nat)
    requires wroteTotal < read && Offer(writes, calls, |buf|) == Some(wrote) && wrote != 0
    ensures WriteAll(writes, buf, read, calls, wroteTotal) ==
            After(buf[..wrote], WriteAll(writes, buf, read, calls + 1, wroteTotal + wrote))
  {
  }

  lemma AfterAfter(f: seq<byte>, g: seq<byte>, w: Writes)
    ensures After(f, After(g, w)) == After(f + g, w)
  {
    assert f + (g + w.written) == (f + g) + w.written;
  }

  /** The copy loop of `upload` (encoder to file) as written: read into the
      zeroed 255-byte buffer, write it out (WriteChunk), stop after a read of
      0. `wrote_total` is local to WriteChunk, which is where the source
      resets it. Returns the outcome and the bytes handed to the writer. */
  method CopyLoop(chunks: seq<ReadStep>, writes: seq<WriteStep>) returns (status: Status, file: seq<byte>)
    requires ChunksFit(chunks)
    ensures Copy(status, file) == Outer(chunks, writes, 0, Zeros(BufLen), 0)
  {
    var buff := new byte[BufLen](_ => 0);
    assert buff[..] == Zeros(BufLen);
    ghost var total := Outer(chunks, writes, 0, buff[..], 0);
    var pos: nat := 0;
    var calls: nat := 0;
    file := [];
    while true
      invariant pos <= |chunks| && buff.Length == BufLen
      invariant total == Prefixed(file, Outer(chunks, writes, pos, buff[..], calls))
      decreases |chunks| - pos
    {
      var step := ReadAt(chunks, pos);
      if step.ReadErr? {
        assert file + [] == file;
        return Failed(Io), file;
      }
      var read := |step.data|;
      ghost var here := Outer(chunks, writes, pos, buff[..], calls);
      ghost var before := buff[..];
      Fill(buff, step.data);
      assert buff[..] == step.data + before[read..];
      var w := WriteChunk(buff, read, writes, calls);
      calls := w.calls;
      if w.error.Some? {
        file := file + w.written;
        return Failed(w.error.value), file;
      }
      if read == 0 {
        file := file + w.written;
        break;
      }
      ghost var rest := Outer(chunks, writes, pos + 1, buff[..], calls);
      assert here == Copy(rest.status, w.written + rest.file);
      assert file + (w.written + rest.file) == (file + w.written) + rest.file;
      file := file + w.written;
      pos := pos + 1;
    }
    status := Done;
  }

  /** A copy outcome with `f` written before it. */
  function Prefixed(f: seq<byte>, c: Copy): Copy
  {
    Copy(c.status, f + c.file)
  }

  /** A read of 0 bytes ends the copy successfully and writes nothing more,
      whatever the buffer holds and whatever the writer would do. */
  lemma EndOfDataStopsCopy(chunks: seq<ReadStep>, writes: seq<WriteStep>, pos: nat, buf: seq<byte>, calls: nat)
    requires ChunksFit(chunks) && |buf| == BufLen && pos <= |chunks|
    requires ReadAt(chunks, pos) == Chunk([])
    ensures Outer(chunks, writes, pos, buf, calls) == Copy(Done, [])
  {
    assert WriteAll(writes, [] + buf[0..], 0, calls, 0) == Writes(None, [], calls);
  }

  /** A writer that accepts everything takes a chunk's whole buffer in one
      write, however few bytes were read. */
  lemma OneWriteTakesBuffer(buf: seq<byte>, read: nat, calls: nat)
    requires 0 < read <= |buf| == BufLen
    ensures WriteAll([], buf, read, calls, 0) == Writes(None, buf, calls + 1)
  {
    assert WriteAll([], buf, read, calls + 1, |buf|) == Writes(None, [], calls + 1);
    assert buf[..|buf|] + [] == buf;
  }

  /** When the writer accepts everything it is offered, every non-empty chunk
      hands exactly 255 bytes to the writer, however short the chunk was. */
  lemma {:induction false} AsWrittenFileLength(chunks: seq<ReadStep>, pos: nat, buf: seq<byte>, calls: nat)
    requires ChunksFit(chunks) && |buf| == BufLen && pos <= |chunks|
    requires forall i :: pos <= i < |chunks| ==> chunks[i].Chunk?
    ensures Outer(chunks, [], pos, buf, calls).status == Done
    ensures |Outer(chunks, [], pos, buf, calls).file| == BufLen * ChunkCount(chunks, pos)
    decreases |chunks| - pos
  {
    if pos < |chunks| && chunks[pos].data != [] {
      var d := chunks[pos].data;
      var b := d + buf[|d|..];
      OneWriteTakesBuffer(b, |d|, calls);
      AsWrittenFileLength(chunks, pos + 1, b, calls + 1);
    } else {
      assert WriteAll([], [] + buf[0..], 0, calls, 0) == Writes(None, [], calls);
    }
  }

  /** Hence, as written, with no read error and a writer that accepts
      everything it is offered (the empty write script), the writer is not
      handed the encoder's output whenever that output's length is not a
      multiple of 255. */
  lemma AsWrittenIsNotEncoderOutput(chunks: seq<ReadStep>)
    requires ChunksFit(chunks)
    requires forall i :: 0 <= i < |chunks| ==> chunks[i].Chunk?
    requires |EncoderOutput(chunks, 0)| % BufLen != 0
    ensures Outer(chunks, [], 0, Zeros(BufLen), 0).file != EncoderOutput(chunks, 0)
  {
    AsWrittenFileLength(chunks, 0, Zeros(BufLen), 0);
    MultipleOfBufLen(ChunkCount(chunks, 0));
  }

  lemma MultipleOfBufLen(k: nat)
    ensures (BufLen * k) % BufLen == 0
  {
    assert BufLen * k == 255 * k;
  }

  /** A three-byte encoder read, with a writer that accepts everything it is
      offered: the writer is handed the three bytes followed by 252 stale
      zero bytes of the buffer. */
  lemma AsWrittenPadsShortChunk()
    ensures Outer([Chunk([1, 2, 3])], [], 0, Zeros(BufLen), 0) == Copy(Done, [1, 2, 3] + Zeros(252))
  {
    var chunks := [Chunk([1, 2, 3])];
    var b := [1, 2, 3] + Zeros(BufLen)[3..];
    OneWriteTakesBuffer(b, 3, 0);
    EndOfDataStopsCopy(chunks, [], 1, b, 1);
    assert b + [] == [1, 2, 3] + Zeros(252);
  }

  /** A short write followed by a retry writes the front of the buffer again:
      a full 255-byte chunk whose first write takes 100 bytes hands 355
      bytes to the writer in all. */
  lemma AsWrittenRepeatsAfterShortWrite(d: seq<byte>)
    requires |d| == BufLen
    ensures Outer([Chunk(d)], [Accept(100)], 0, Zeros(BufLen), 0) == Copy(Done, d[..100] + d)
  {
    var chunks := [Chunk(d)];
    var writes := [Accept(100)];
    assert d + Zeros(BufLen)[|d|..] == d;
    assert WriteAll(writes, d, BufLen, 2, 100 + BufLen) == Writes(None, [], 2);
    assert WriteAll(writes, d, BufLen, 1, 100) == Writes(None, d[..BufLen] + [], 2);
    assert WriteAll(writes, d, BufLen, 0, 0) == Writes(None, d[..100] + (d[..BufLen] + []), 2);
    assert d[..100] + (d[..BufLen] + []) == d[..100] + d;
    EndOfDataStopsCopy(chunks, writes, 1, d, 2);
    assert d[..100] + d + [] == d[..100] + d;
  }

  /** The reads from `pos` on return data until one fails, before any read
      signals the end of data. */
  predicate ReadFails(chunks: seq<ReadStep>, pos: nat)
  {
    exists i :: pos <= i < |chunks| && chunks[i] == ReadErr && Streams(chunks, pos, i)
  }

  /** The reads `pos` to `i - 1` all return data. */
  predicate Streams(chunks: seq<ReadStep>, pos: nat, i: nat)
  {
    forall j :: pos <= j < i && j < |chunks| ==> chunks[j].Chunk? && chunks[j].data != []
  }

  lemma ReadFailsEarlier(chunks: seq<ReadStep>, pos: nat)
    requires pos < |chunks| && chunks[pos].Chunk? && chunks[pos].data != []
    requires ReadFails(chunks, pos + 1)
    ensures ReadFails(chunks, pos)
  {
    var i :| pos + 1 <= i < |chunks| && chunks[i] == ReadErr && Streams(chunks, pos + 1, i);
    assert Streams(chunks, pos, i);
  }

  predicate WriteErrAfter(writes: seq<WriteStep>, calls: nat)
  {
    exists i :: calls <= i < |writes| && writes[i] == WriteErr
  }

  predicate ZeroWriteAfter(writes: seq<WriteStep>, calls: nat)
  {
    exists i :: calls <= i < |writes| && writes[i] == Accept(0)
  }

  /** The writes for one chunk fail with an I/O error only because of a
      write error in the script, and otherwise only with "Something went
      wrong" because of a write that accepted 0 bytes. */
  lemma {:induction false} WriteAllFailureCauses(writes: seq<WriteStep>, buf: seq<byte>, read: nat, calls: nat, wrote: nat)
    requires |buf| > 0
    ensures var e := WriteAll(writes, buf, read, calls, wrote).error;
      && (e == Some(Io) ==> WriteErrAfter(writes, calls))
      && (e.Some? && e.value != Io ==> e.value == Other(SomethingWentWrong) && ZeroWriteAfter(writes, calls))
    decreases read - wrote
  {
    if wrote < read {
      match Offer(writes, calls, |buf|)
      case None =>
        assert writes[calls] == WriteErr;
      case Some(w) =>
        if w == 0 {
          assert calls < |writes| && writes[calls] == Accept(0);
        } else {
          WriteAllFailureCauses(writes, buf, read, calls + 1, wrote + w);
        }
    }
  }

  /** Where a failure of the whole copy comes from: an I/O failure needs a
      read error or a write error in the scripts, and the only other failure
      is "Something went wrong", which needs a write accepting 0 bytes. */
  lemma {:induction false} CopyFailureCauses(chunks: seq<ReadStep>, writes: seq<WriteStep>, pos: nat, buf: seq<byte>, calls: nat)
    requires ChunksFit(chunks) && |buf| == BufLen && pos <= |chunks|
    ensures var s := Outer(chunks, writes, pos, buf, calls).status;
      && (s == Failed(Io) ==> ReadFails(chunks, pos) || WriteErrAfter(writes, calls))
      && (s.Failed? && s.error != Io ==> s.error == Other(SomethingWentWrong) && ZeroWriteAfter(writes, calls))
    decreases |chunks| - pos
  {
    match ReadAt(chunks, pos)
    case ReadErr =>
      assert chunks[pos] == ReadErr && Streams(chunks, pos, pos);
    case Chunk(d) =>
      var b := d + buf[|d|..];
      WriteAllFailureCauses(writes, b, |d|, calls, 0);
      var w := WriteAll(writes, b, |d|, calls, 0);
      if w.error.None? && d != [] {
        CopyFailureCauses(chunks, writes, pos + 1, b, w.calls);
        if ReadFails(chunks, pos + 1) {
          ReadFailsEarlier(chunks, pos);
        }
      }
  }

  /** The first write for a chunk with data decides a failure on the spot,
      whatever the writer would do later: a write error is an I/O error and a
      write accepting 0 bytes is "Something went wrong". */
  lemma FirstWriteDecides(chunks: seq<ReadStep>, writes: seq<WriteStep>, pos: nat, buf: seq<byte>, calls: nat)
    requires ChunksFit(chunks) && |buf| == BufLen && pos < |chunks|
    requires chunks[pos].Chunk? && chunks[pos].data != [] && calls < |writes|
    ensures writes[calls] == WriteErr ==> Outer(chunks, writes, pos, buf, calls) == Copy(Failed(Io), [])
    ensures writes[calls] == Accept(0) ==>
              Outer(chunks, writes, pos, buf, calls) == Copy(Failed(Other(SomethingWentWrong)), [])
  {
    var d := chunks[pos].data;
    assert |d + buf[|d|..]| == BufLen;
  }

  // ---------------------------------------------------------------------------
  // The copy loop as evidently intended

  /** The inner loop as evidently intended, `wrote` bytes of the chunk `d`
      accounted for: each write is offered the part of the chunk not yet
      written. */
  function WriteAllFixed(writes: seq<WriteStep>, d: seq<byte>, calls: nat, wrote: nat): (r: Writes)
    requires wrote <= |d|
    ensures r.calls >= calls
    decreases |d| - wrote
  {
    if wrote == |d| then Writes(None, [], calls)
    else match Offer(writes, calls, |d| - wrote)
      case None => Writes(Some(Io), [], calls + 1)
      case Some(w) =>
        if w == 0 then Writes(Some(Other(SomethingWentWrong)), [], calls + 1)
        else
          var rest := WriteAllFixed(writes, d, calls + 1, wrote + w);
          Writes(rest.error, d[wrote..wrote + w] + rest.written, rest.calls)
  }

  /** The outer loop with the corrected inner loop. */
  function OuterFixed(chunks: seq<ReadStep>, writes: seq<WriteStep>, pos: nat, calls: nat): Copy
    requires pos <= |chunks|
    decreases |chunks| - pos
  {
    match ReadAt(chunks, pos)
    case ReadErr => Copy(Failed(Io), [])
    case Chunk(d) =>
      var w := WriteAllFixed(writes, d, calls, 0);
      if w.error.Some? then Copy(Failed(w.error.value), w.written)
      else if d == [] then Copy(Done, w.written)
      else
        var rest := OuterFixed(chunks, writes, pos + 1, w.calls);
        Copy(rest.status, w.written + rest.file)
  }

  lemma WriteAllFixedStep(writes: seq<WriteStep>, d: seq<byte>, calls: nat, wroteTotal: nat, wrote: nat)
    requires wroteTotal < |d| && Offer(writes, calls, |d| - wroteTotal) == Some(wrote) && wrote != 0
    ensures WriteAllFixed(writes, d, calls, wroteTotal) ==
            After(d[wroteTotal..wroteTotal + wrote], WriteAllFixed(writes, d, calls + 1, wroteTotal + wrote))
  {
  }

  /** The inner loop as evidently intended: each write is offered the part of
      the chunk not yet written, `&buff[wrote_total..read]`. The bytes
      written are the chunk when no write fails, and a prefix of it when
      one does. Also returns the number of writes done so far. */
  method WriteChunkFixed(buff: array<byte>, read: nat, writes: seq<WriteStep>, calls: nat)
    returns (error: Option<Error>, written: seq<byte>, callsAfter: nat)
    requires read <= buff.Length
    ensures Writes(error, written, callsAfter) == WriteAllFixed(writes, buff[..read], calls, 0)
    ensures error.None? ==> written == buff[..read]
    ensures error.Some? ==> written <= buff[..read]
    ensures error.Some? ==> error.value == Io || error.value == Other(SomethingWentWrong)
    ensures error == Some(Io) ==> WriteErrAfter(writes, calls)
    ensures error.Some? && error.value != Io ==> ZeroWriteAfter(writes, calls)
    ensures callsAfter >= calls
  {
    var w := WriteUnwritten(buff[..read], writes, calls);
    error, written, callsAfter := w.error, w.written, w.calls;
    WriteAllFixedWritten(writes, buff[..read], calls, 0);
    WriteAllFixedCauses(writes, buff[..read], calls, 0);
    assert buff[..read][0..] == buff[..read];
  }

  /** The loop of WriteChunkFixed over the `read` bytes of the buffer: while
      bytes are unwritten, offer them and add what was accepted. */
  method WriteUnwritten(chunk: seq<byte>, writes: seq<WriteStep>, calls: nat) returns (w: Writes)
    ensures w == WriteAllFixed(writes, chunk, calls, 0)
  {
    ghost var total := WriteAllFixed(writes, chunk, calls, 0);
    var wroteTotal: nat := 0;
    var n := calls;
    var written: seq<byte> := [];
    assert total == After(written, total);
    while wroteTotal < |chunk|
      invariant wroteTotal <= |chunk|
      invariant total == After(written, WriteAllFixed(writes, chunk, n, wroteTotal))
      decreases |chunk| - wroteTotal
    {
      var accepted := Offer(writes, n, |chunk| - wroteTotal);
      n := n + 1;
      if accepted.None? {
        assert written + [] == written;
        return Writes(Some(Io), written, n);
      }
      var wrote := accepted.value;
      if wrote == 0 {
        assert written + [] == written;
        return Writes(Some(Other(SomethingWentWrong)), written, n);
      }
      WriteAllFixedStep(writes, chunk, n - 1, wroteTotal, wrote);
      AfterAfter(written, chunk[wroteTotal..wroteTotal + wrote], WriteAllFixed(writes, chunk, n, wroteTotal + wrote));
      written := written + chunk[wroteTotal..wroteTotal + wrote];
      wroteTotal := wroteTotal + wrote;
    }
    assert written + [] == written;
    w := Writes(None, written, n);
  }

  /** The corrected writes hand over the chunk's unwritten bytes, all of them
      unless a write fails. */
  lemma {:induction false} WriteAllFixedWritten(writes: seq<WriteStep>, d: seq<byte>, calls: nat, wrote: nat)
    requires wrote <= |d|
    ensures var r := WriteAllFixed(writes, d, calls, wrote);
      && (r.error.None? ==> r.written == d[wrote..])
      && (r.error.Some? ==> r.written <= d[wrote..])
    decreases |d| - wrote
  {
    if wrote < |d| {
      var o := Offer(writes, calls, |d| - wrote);
      if o.Some? && o.value != 0 {
        var w := o.value;
        var a, b := d[wrote..wrote + w], d[wrote + w..];
        WriteAllFixedStep(writes, d, calls, wrote, w);
        WriteAllFixedWritten(writes, d, calls + 1, wrote + w);
        var rest := WriteAllFixed(writes, d, calls + 1, wrote + w);
        assert d[wrote..] == a + b;
        if rest.error.Some? {
          PrefixAppend(a, rest.written, b, []);
          assert b + [] == b;
        }
      }
    }
  }

  /** The corrected writes fail with an I/O error only because of a write
      error in the script, and otherwise only with "Something went wrong"
      because of a write that accepted 0 bytes. */
  lemma {:induction false} WriteAllFixedCauses(writes: seq<WriteStep>, d: seq<byte>, calls: nat, wrote: nat)
    requires wrote <= |d|
    ensures var r := WriteAllFixed(writes, d, calls, wrote);
      && (r.error == Some(Io) ==> WriteErrAfter(writes, calls))
      && (r.error.Some? && r.error.value != Io ==> r.error.value == Other(SomethingWentWrong) && ZeroWriteAfter(writes, calls))
    decreases |d| - wrote
  {
    if wrote < |d| {
      var o := Offer(writes, calls, |d| - wrote);
      if o.None? {
        assert writes[calls] == WriteErr;
      } else if o.value == 0 {
        assert writes[calls] == Accept(0);
      } else {
        WriteAllFixedCauses(writes, d, calls + 1, o.value + wrote);
      }
    }
  }

  /** `f + w` is a prefix of `f + (d + later)` when `w` is one of `d`. */
  lemma PrefixAppend(f: seq<byte>, w: seq<byte>, d: seq<byte>, later: seq<byte>)
    requires w <= d
    ensures f + w <= f + (d + later)
  {
    assert (f + (d + later))[..|f + w|] == f + w;
  }

  /** The copy loop with the corrected inner loop: the writer is then handed exactly
      the encoder's output when the copy succeeds, and a prefix of it when
      it fails. */
  method CopyLoopFixed(chunks: seq<ReadStep>, writes: seq<WriteStep>) returns (status: Status, file: seq<byte>)
    requires ChunksFit(chunks)
    ensures Copy(status, file) == OuterFixed(chunks, writes, 0, 0)
    ensures file <= EncoderOutput(chunks, 0)
    ensures status == Done ==> file == EncoderOutput(chunks, 0)
    ensures status.Failed? ==> status.error == Io || status.error == Other(SomethingWentWrong)
    ensures status == Failed(Io) ==> ReadFails(chunks, 0) || WriteErrAfter(writes, 0)
    ensures status.Failed? && status.error != Io ==> ZeroWriteAfter(writes, 0)
  {
    var c := CopyChunksFixed(chunks, writes);
    status, file := c.status, c.file;
    OuterFixedFacts(chunks, writes, 0, 0);
  }

  /** The loop of CopyLoopFixed: read into the buffer, write what was read
      until it is all accepted, stop at the end of data or the first error. */
  method CopyChunksFixed(chunks: seq<ReadStep>, writes: seq<WriteStep>) returns (c: Copy)
    requires ChunksFit(chunks)
    ensures c == OuterFixed(chunks, writes, 0, 0)
  {
    var buff := new byte[BufLen](_ => 0);
    ghost var total := OuterFixed(chunks, writes, 0, 0);
    var pos: nat := 0;
    var calls: nat := 0;
    var file: seq<byte> := [];
    assert total == Prefixed(file, total);
    while true
      invariant pos <= |chunks| && buff.Length == BufLen
      invariant total == Prefixed(file, OuterFixed(chunks, writes, pos, calls))
      decreases |chunks| - pos
    {
      var step := ReadAt(chunks, pos);
      if step.ReadErr? {
        assert file + [] == file;
        return Copy(Failed(Io), file);
      }
      var read := |step.data|;
      Fill(buff, step.data);
      assert buff[..read] == step.data;
      var error, written, callsAfter := WriteChunkFixed(buff, read, writes, calls);
      if error.Some? {
        return Copy(Failed(error.value), file + written);
      }
      if read == 0 {
        file := file + written;
        break;
      }
      ghost var rest := OuterFixed(chunks, writes, pos + 1, callsAfter);
      assert file + (written + rest.file) == (file + written) + rest.file;
      file := file + written;
      calls := callsAfter;
      pos := pos + 1;
    }
    c := Copy(Done, file);
  }

  /** With the corrected loop the first write for a chunk with data decides
      a failure in the same way. */
  lemma FirstWriteDecidesFixed(chunks: seq<ReadStep>, writes: seq<WriteStep>, pos: nat, calls: nat)
    requires pos < |chunks| && chunks[pos].Chunk? && chunks[pos].data != [] && calls < |writes|
    ensures writes[calls] == WriteErr ==> OuterFixed(chunks, writes, pos, calls) == Copy(Failed(Io), [])
    ensures writes[calls] == Accept(0) ==>
              OuterFixed(chunks, writes, pos, calls) == Copy(Failed(Other(SomethingWentWrong)), [])
  {
  }

  /** What the corrected copy achieves from read `pos` on: the writer is
      handed a prefix of the encoder's output, all of it on success; an I/O
      failure needs a read error before the end of data or a write error,
      and the only other failure, "Something went wrong", a write accepting
      0 bytes. */
  lemma {:induction false} OuterFixedFacts(chunks: seq<ReadStep>, writes: seq<WriteStep>, pos: nat, calls: nat)
    requires pos <= |chunks|
    ensures var c := OuterFixed(chunks, writes, pos, calls);
      && c.file <= EncoderOutput(chunks, pos)
      && (c.status == Done ==> c.file == EncoderOutput(chunks, pos))
      && (c.status == Failed(Io) ==> ReadFails(chunks, pos) || WriteErrAfter(writes, calls))
      && (c.status.Failed? && c.status.error != Io ==>
            c.status.error == Other(SomethingWentWrong) && ZeroWriteAfter(writes, calls))
    decreases |chunks| - pos
  {
    match ReadAt(chunks, pos)
    case ReadErr =>
      assert chunks[pos] == ReadErr && Streams(chunks, pos, pos);
    case Chunk(d) =>
      WriteAllFixedWritten(writes, d, calls, 0);
      WriteAllFixedCauses(writes, d, calls, 0);
      assert d[0..] == d;
      var w := WriteAllFixed(writes, d, calls, 0);
      var later := if d != [] then EncoderOutput(chunks, pos + 1) else [];
      assert EncoderOutput(chunks, pos) == d + later;
      if w.error.Some? {
        PrefixAppend([], w.written, d, later);
      } else if d == [] {
      } else {
        OuterFixedFacts(chunks, writes, pos + 1, w.calls);
        var rest := OuterFixed(chunks, writes, pos + 1, w.calls);
        PrefixAppend(d, rest.file, later, []);
        assert later + [] == later;
        if ReadFails(chunks, pos + 1) {
          ReadFailsEarlier(chunks, pos);
        }
      }
  }

  // ---------------------------------------------------------------------------
  // The handlers

  datatype Outcome = Uploaded(body: string) | UploadFailed(error: Error) | NamesExhausted

  /** `upload` as written: choose a name with the naming loop as written
      (the check is on the path without `.zst`), create its `.zst` file and
      copy the encoder's output to the file's writer with the copy loop as
      written; answer with the URL of the paste. `candidates` are the
      successive `gen_name` results (NamesExhausted stands for the source
      drawing names forever), `createOk` whether `File::create` succeeds. A
      file created before a failed copy stays on disk. Returns the outcome,
      the index of the chosen name, the regular files afterwards and the
      bytes handed to the writer. */
  method Upload(output: Path, candidates: seq<string>, lower: string -> string, files: set<Path>,
                createOk: bool, chunks: seq<ReadStep>, writes: seq<WriteStep>, domain: string, https: bool)
    returns (r: Outcome, chosen: Option<nat>, newFiles: set<Path>, written: seq<byte>)
    requires forall j :: 0 <= j < |candidates| ==> IsSingleComponent(lower(candidates[j]))
    requires ChunksFit(chunks)
    ensures chosen.None? <==> r == NamesExhausted
    ensures chosen.None? ==> newFiles == files && written == []
    ensures chosen.None? ==> forall j :: 0 <= j < |candidates| ==> Checked(output, candidates[j], lower) in files
    ensures chosen.Some? ==> chosen.value < |candidates|
    ensures chosen.Some? ==> Checked(output, candidates[chosen.value], lower) !in files
    ensures chosen.Some? ==> forall j :: 0 <= j < chosen.value ==> Checked(output, candidates[j], lower) in files
    ensures chosen.Some? && !createOk ==> r == UploadFailed(Io) && newFiles == files && written == []
    ensures chosen.Some? && createOk ==> newFiles == files + {PasteFile(output, candidates[chosen.value], lower)}
    ensures chosen.Some? && createOk ==> written == Outer(chunks, writes, 0, Zeros(BufLen), 0).file
    ensures chosen.Some? && createOk ==> (r.Uploaded? <==> Outer(chunks, writes, 0, Zeros(BufLen), 0).status == Done)
    ensures chosen.Some? && createOk && r.UploadFailed? ==>
              Outer(chunks, writes, 0, Zeros(BufLen), 0).status == Failed(r.error)
    ensures r.Uploaded? ==> r.body == Utils.GenUrl(domain, candidates[chosen.value], https)
    ensures r.UploadFailed? ==> r.error == Io || r.error == Other(SomethingWentWrong)
    ensures chosen.Some? && createOk && r == UploadFailed(Io) ==> ReadFails(chunks, 0) || WriteErrAfter(writes, 0)
    ensures r.UploadFailed? && r.error != Io ==> ZeroWriteAfter(writes, 0)
  {
    var filePath;
    chosen, filePath := NameLoop(output, candidates, lower, files);
    newFiles, written := files, [];
    if chosen.None? {
      return NamesExhausted, chosen, newFiles, written;
    }
    if !createOk {
      return UploadFailed(Io), chosen, newFiles, written;
    }
    newFiles := files + {filePath};
    var status;
    status, written := CopyLoop(chunks, writes);
    CopyFailureCauses(chunks, writes, 0, Zeros(BufLen), 0);
    if status.Failed? {
      return UploadFailed(status.error), chosen, newFiles, written;
    }
    r := Uploaded(Utils.GenUrl(domain, candidates[chosen.value], https));
  }

  /** `upload` as evidently intended: the corrected naming loop (the chosen
      name's `.zst` file did not exist) and the corrected copy loop (on
      success the writer has been handed exactly the encoder's output). */
  method UploadFixed(output: Path, candidates: seq<string>, lower: string -> string, files: set<Path>,
                     createOk: bool, chunks: seq<ReadStep>, writes: seq<WriteStep>, domain: string, https: bool)
    returns (r: Outcome, chosen: Option<nat>, newFiles: set<Path>, written: seq<byte>)
    requires forall j :: 0 <= j < |candidates| ==> IsSingleComponent(lower(candidates[j]))
    requires ChunksFit(chunks)
    ensures chosen.None? <==> r == NamesExhausted
    ensures chosen.None? ==> newFiles == files && written == []
    ensures chosen.None? ==> forall j :: 0 <= j < |candidates| ==> PasteFile(output, candidates[j], lower) in files
    ensures chosen.Some? ==> chosen.value < |candidates|
    ensures chosen.Some? ==> PasteFile(output, candidates[chosen.value], lower) !in files
    ensures chosen.Some? ==> forall j :: 0 <= j < chosen.value ==> PasteFile(output, candidates[j], lower) in files
    ensures chosen.Some? && !createOk ==> r == UploadFailed(Io) && newFiles == files && written == []
    ensures chosen.Some? && createOk ==>
      newFiles == files + {PasteFile(output, candidates[chosen.value], lower)} &&
      written <= EncoderOutput(chunks, 0)
    ensures chosen.Some? && createOk ==> written == OuterFixed(chunks, writes, 0, 0).file
    ensures chosen.Some? && createOk ==> (r.Uploaded? <==> OuterFixed(chunks, writes, 0, 0).status == Done)
    ensures chosen.Some? && createOk && r.UploadFailed? ==> OuterFixed(chunks, writes, 0, 0).status == Failed(r.error)
    ensures r.Uploaded? ==> chosen.Some? && createOk && written == EncoderOutput(chunks, 0)
    ensures r.Uploaded? ==> r.body == Utils.GenUrl(domain, candidates[chosen.value], https)
    ensures r.UploadFailed? ==> r.error == Io || r.error == Other(SomethingWentWrong)
    ensures chosen.Some? && createOk && r == UploadFailed(Io) ==> ReadFails(chunks, 0) || WriteErrAfter(writes, 0)
    ensures r.UploadFailed? && r.error != Io ==> ZeroWriteAfter(writes, 0)
  {
    var filePath;
    chosen, filePath := NameLoopFixed(output, candidates, lower, files);
    newFiles, written := files, [];
    if chosen.None? {
      return NamesExhausted, chosen, newFiles, written;
    }
    if !createOk {
      return UploadFailed(Io), chosen, newFiles, written;
    }
    newFiles := files + {filePath};
    var status;
    status, written := CopyLoopFixed(chunks, writes);
    if status.Failed? {
      return UploadFailed(status.error), chosen, newFiles, written;
    }
    r := Uploaded(Utils.GenUrl(domain, candidates[chosen.value], https));
  }

  /** `get_raw`: open `output/ascii_lowercase(key).zst` and stream its
      decompressed contents. A failed open is an I/O error; a decoding error
      happens while the body streams, after the answer has started, and is
      not modelled. Returns the file that is streamed. */
  function GetRaw(output: Path, key: string, disk: Disk): (r: Result<Path, Error>)
    ensures r.Success? <==> PasteFile(output, key, AsciiLower) in disk.openable
    ensures r.Success? ==> r.value == PasteFile(output, key, AsciiLower)
    ensures r.Failure? ==> r.error == Io
  {
    var path := PasteFile(output, key, AsciiLower);
    if path in disk.openable then Success(path) else Failure(Io)
  }

  /** `get_web`: the paste rendered as a page. A path that is not a regular
      file is NotFound before anything is opened; a failed open or a failed
      read of the decompressed bytes is an I/O error; a failed rendering is
      NotFound again. `lossy` is `String::from_utf8_lossy`, `render` the
      page template. */
  function GetWeb(output: Path, key: string, disk: Disk, lossy: seq<byte> -> string, render: string -> Option<string>)
    : (r: Result<string, Error>)
    ensures var path := PasteFile(output, key, AsciiLower);
      && (path !in disk.regular ==> r == Failure(NotFound))
      && (path in disk.regular && (path !in disk.openable || path !in disk.decoded) ==> r == Failure(Io))
      && (path in disk.regular && path in disk.openable && path in disk.decoded ==>
            r == (match render(lossy(disk.decoded[path]))
                  case None => Failure(NotFound)
                  case Some(html) => Success(html)))
  {
    var path := PasteFile(output, key, AsciiLower);
    if path !in disk.regular then Failure(NotFound)
    else if path !in disk.openable || path !in disk.decoded then Failure(Io)
    else match render(lossy(disk.decoded[path]))
      case None => Failure(NotFound)
      case Some(html) => Success(html)
  }

  /** The outcomes of `get_web`: success needs a regular, openable, decodable
      file that renders; NotFound comes only from a missing file or a
      failed rendering; every other failure is an I/O error. */
  lemma GetWebOutcomes(output: Path, key: string, disk: Disk, lossy: seq<byte> -> string, render: string -> Option<string>)
    ensures var path := PasteFile(output, key, AsciiLower);
      var r := GetWeb(output, key, disk, lossy, render);
      && (r.Success? <==> path in disk.regular && path in disk.openable && path in disk.decoded &&
                          render(lossy(disk.decoded[path])).Some?)
      && (r == Failure(NotFound) <==>
            (path !in disk.regular ||
             (path in disk.openable && path in disk.decoded && render(lossy(disk.decoded[path])).None?)))
      && (r.Failure? ==> r.error == NotFound || r.error == Io)
  {
  }

  /** Both lookups ignore the ASCII case of the key. */
  lemma RetrievalIgnoresAsciiCase(output: Path, key: string, disk: Disk, lossy: seq<byte> -> string, render: string -> Option<string>)
    ensures GetRaw(output, AsciiUpper(key), disk) == GetRaw(output, key, disk)
    ensures GetWeb(output, AsciiUpper(key), disk, lossy, render) == GetWeb(output, key, disk, lossy, render)
  {
    LookupIgnoresAsciiCase(output, key);
  }

  /** The paste `upload` stores under an ASCII name (every `gen_name` result
      is one) is the file the lookups read for that name, so once it is on
      disk `get_raw` streams it and `get_web` renders its contents. */
  lemma UploadedPasteIsServed(output: Path, name: string, lower: string -> string, disk: Disk,
                              lossy: seq<byte> -> string, render: string -> Option<string>)
    requires AgreesOnAscii(lower) && IsAscii(name)
    requires PasteFile(output, name, lower) in disk.regular && PasteFile(output, name, lower) in disk.openable
    requires PasteFile(output, name, lower) in disk.decoded
    requires render(lossy(disk.decoded[PasteFile(output, name, lower)])).Some?
    ensures GetRaw(output, name, disk) == Success(PasteFile(output, name, lower))
    ensures GetWeb(output, name, disk, lossy, render) == Success(render(lossy(disk.decoded[PasteFile(output, name, lower)])).value)
  {
    LowercasingsAgreeOnAscii(output, name, lower);
  }

  /** The `not_found` field of the optional query of `usage`. */
  datatype UsageQuery = UsageQuery(notFound: bool)

  /** `usage`: the page says "not found" only when asked to; no query means
      false. */
  function UsageNotFound(q: Option<UsageQuery>): (r: bool)
    ensures r <==> q.Some? && q.value.notFound
  {
    match q
    case None => false
    case Some(v) => v.notFound
  }
}
