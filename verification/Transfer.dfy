/**
 * Reads and writes of the data server: the retry loops of src/base/filesystem.c over a
 * kernel that may transfer less than asked, and the chunk loops of
 * src/xpn_server/xpn_server_ops.c over a bounded buffer.
 */
module Transfer {
  import opened ByteStrings

  const MAX_BUFFER_SIZE: nat := 1024 * 1024

  /** The position x, or the end of a file of the given size if x is behind it. */
  function UpTo(x: nat, end: nat): nat {
    if x < end then x else end
  }

  /** The bytes of a file from `offset` on, at most n, fewer at the end of the file. */
  function Range(data: Bytes, offset: nat, n: nat): Bytes {
    data[UpTo(offset, |data|)..UpTo(offset + n, |data|)]
  }

  /** The byte at place i after bytes were written at an offset. */
  function ByteAfter(data: Bytes, offset: nat, b: Bytes, i: nat): bv8 {
    if offset <= i < offset + |b| then b[i - offset] else if i < |data| then data[i] else 0
  }

  /** Writing bytes at an offset; a gap behind the old end is filled with zeros. */
  function Overwrite(data: Bytes, offset: nat, b: Bytes): (after: Bytes)
    ensures |after| == if b == [] || offset + |b| <= |data| then |data| else offset + |b|
    ensures forall i :: 0 <= i < |after| ==> after[i] == ByteAfter(data, offset, b, i)
  {
    if b == [] then data
    else seq(if offset + |b| <= |data| then |data| else offset + |b|, i requires 0 <= i => ByteAfter(data, offset, b, i))
  }

  /** A write changes exactly the bytes of its range and never shortens the file. */
  lemma OverwriteEffect(data: Bytes, offset: nat, b: Bytes)
    ensures b != [] ==> |Overwrite(data, offset, b)| == if |data| < offset + |b| then offset + |b| else |data|
    ensures Range(Overwrite(data, offset, b), offset, |b|) == if b == [] then [] else b
    ensures forall i :: 0 <= i < |data| && !(offset <= i < offset + |b|) ==>
      i < |Overwrite(data, offset, b)| && Overwrite(data, offset, b)[i] == data[i]
    ensures b != [] ==> forall i :: |data| <= i < offset ==>
      i < |Overwrite(data, offset, b)| && Overwrite(data, offset, b)[i] == 0
  {
  }

  /** Two writes one behind the other are one write. */
  lemma OverwriteInParts(data: Bytes, offset: nat, a: Bytes, b: Bytes)
    ensures Overwrite(Overwrite(data, offset, a), offset + |a|, b) == Overwrite(data, offset, a + b)
  {
    var one := Overwrite(data, offset, a);
    var two, all := Overwrite(one, offset + |a|, b), Overwrite(data, offset, a + b);
    forall i: nat | i < |all| ensures two[i] == all[i] {
      assert two[i] == ByteAfter(one, offset + |a|, b, i) && all[i] == ByteAfter(data, offset, a + b, i);
      if i < |one| { assert one[i] == ByteAfter(data, offset, a, i); }
    }
  }

  lemma RangeInParts(data: Bytes, offset: nat, m: nat, n: nat)
    requires |Range(data, offset, m)| == m
    ensures Range(data, offset, m + n) == Range(data, offset, m) + Range(data, offset + m, n)
  {
  }

  /**
   * An open file of the server: its bytes, the position of the descriptor, and as history
   * how many reads and writes of it the kernel has failed, and how many calls of
   * filesystem_read have succeeded.
   */
  class File {
    var data: Bytes
    var pos: nat
    ghost var failures: nat
    ghost var readsDone: nat

    constructor (data: Bytes)
      ensures this.data == data && pos == 0 && failures == 0 && readsDone == 0
    {
      this.data, pos, failures, readsDone := data, 0, 0, 0;
    }

    method Lseek(offset: nat)
      modifies this`pos
      ensures pos == offset
    {
      pos := offset;
    }

    /** The kernel's read: fails, or gives at least one byte unless the file is at its end. */
    method LowRead(n: nat) returns (r: int, got: Bytes)
      requires 0 < n
      modifies this`pos, this`failures
      ensures failures == old(failures) + if r == -1 then 1 else 0
      ensures r == -1 ==> pos == old(pos) && got == []
      ensures r != -1 ==> 0 <= r <= n && got == Range(data, old(pos), r) && |got| == r && pos == old(pos) + r
      ensures r == 0 ==> |data| <= pos
    {
      if * {
        failures := failures + 1;
        return -1, [];
      }
      if |data| <= pos { return 0, []; }
      var available := if |data| - pos < n then |data| - pos else n;
      var k: nat :| 1 <= k <= available;
      got := data[pos..pos + k];
      pos := pos + k;
      r := k;
    }

    /** The kernel's write: fails, or takes at least one byte. */
    method LowWrite(b: Bytes) returns (r: int)
      requires b != []
      modifies this`data, this`pos, this`failures
      ensures failures == old(failures) + if r == -1 then 1 else 0
      ensures r == -1 || 1 <= r <= |b|
      ensures r == -1 ==> data == old(data) && pos == old(pos)
      ensures r != -1 ==> data == Overwrite(old(data), old(pos), b[..r]) && pos == old(pos) + r
    {
      if * {
        failures := failures + 1;
        return -1;
      }
      var k: nat :| 1 <= k <= |b|;
      data := Overwrite(data, pos, b[..k]);
      pos := pos + k;
      r := k;
    }

    /** filesystem_read: all of the range, or up to the end of the file; failure if the kernel fails. */
    method Read(n: nat) returns (ret: int, buffer: Bytes)
      modifies this`pos, this`failures, this`readsDone
      ensures failures == old(failures) + if ret == -1 then 1 else 0
      ensures readsDone == old(readsDone) + if ret == -1 then 0 else 1
      ensures ret == -1 || ret == |buffer|
      ensures ret != -1 ==> buffer == Range(data, old(pos), n)
    {
      buffer := [];
      var remaining: int := n;
      assert Range(data, pos, n - remaining) == [];
      while remaining > 0
        invariant 0 <= remaining <= n && |buffer| == n - remaining
        invariant buffer == Range(data, old(pos), n - remaining) && pos == old(pos) + |buffer|
        invariant failures == old(failures) && readsDone == old(readsDone)
      {
        var r, got := LowRead(remaining);
        if r < 0 { return -1, buffer; }
        if r == 0 { break; }
        RangeInParts(data, old(pos), n - remaining, r);
        buffer := buffer + got;
        remaining := remaining - r;
      }
      readsDone := readsDone + 1;
      return n - remaining, buffer;
    }

    /** filesystem_write: all bytes; if the kernel fails, failure with the first `taken` of them written. */
    method Write(b: Bytes) returns (ret: int, ghost taken: nat)
      modifies this`data, this`pos, this`failures
      ensures failures == old(failures) + if ret == -1 then 1 else 0
      ensures taken <= |b| && (ret == -1 || ret == |b| == taken)
      ensures b == [] ==> ret == 0
      ensures data == Overwrite(old(data), old(pos), b[..taken])
    {
      var remaining: int := |b|;
      ghost var start, from := data, pos;
      taken := 0;
      assert b[..0] == [];
      while remaining > 0
        invariant 0 <= taken <= |b| && remaining == |b| - taken && pos == from + taken
        invariant data == Overwrite(start, from, b[..taken])
        invariant failures == old(failures)
      {
        var r := LowWrite(b[|b| - remaining..]);
        assert b[taken..] == b[taken..taken + remaining];
        if r < 0 { return -1, taken; }
        WriteContinues(start, from, b, taken, remaining, r);
        remaining := remaining - r;
        taken := taken + r;
      }
      return |b|, taken;
    }
  }

  // ----- op_read

  /** What the server sends for one chunk: how many bytes (-1 on failure), then the bytes. */
  datatype Frame = Frame(size: int, bytes: Bytes)

  /** The size of the next transfer when n bytes are left. */
  function Chunk(n: nat): nat {
    if n > MAX_BUFFER_SIZE then MAX_BUFFER_SIZE else n
  }

  /** The frames for n bytes from an offset: chunks until all is sent or one is empty. */
  function Frames(data: Bytes, offset: nat, n: nat): (frames: seq<Frame>)
    ensures frames != []
    decreases n, 1
  {
    var chunk := Range(data, offset, Chunk(n));
    [Frame(|chunk|, chunk)] + FramesAfter(data, offset, n, |chunk|)
  }

  /** The frames still to come when a chunk of c of the n bytes left has been sent. */
  function FramesAfter(data: Bytes, offset: nat, n: nat, c: nat): seq<Frame>
    decreases n, 0
  {
    if 0 < c < n then Frames(data, offset + c, n - c) else []
  }

  lemma Regroup<T>(sent: seq<T>, x: T, rest: seq<T>)
    ensures sent + ([x] + rest) == (sent + [x]) + rest
  {
  }

  function Concat(frames: seq<Frame>): Bytes {
    if frames == [] then [] else frames[0].bytes + Concat(frames[1..])
  }

  lemma ConcatOfFirst(f: Frame, rest: seq<Frame>)
    ensures Concat([f] + rest) == f.bytes + Concat(rest)
  {
    assert ([f] + rest)[1..] == rest;
  }

  lemma ChunkThenRest(data: Bytes, offset: nat, m: nat, n: nat)
    requires m <= n
    ensures var c := |Range(data, offset, m)|;
      c <= m && Range(data, offset, n) == Range(data, offset, m) + Range(data, offset + c, n - c)
  {
  }

  /** The frames together are the range of the file, cut at the end of the file. */
  lemma {:induction false} FramesAreTheRange(data: Bytes, offset: nat, n: nat)
    ensures Concat(Frames(data, offset, n)) == Range(data, offset, n)
    decreases n
  {
    var chunk := Range(data, offset, Chunk(n));
    ConcatOfFirst(Frame(|chunk|, chunk), FramesAfter(data, offset, n, |chunk|));
    ChunkThenRest(data, offset, Chunk(n), n);
    if 0 < |chunk| < n {
      FramesAreTheRange(data, offset + |chunk|, n - |chunk|);
    } else {
      NothingAfter(data, offset, n);
    }
  }

  lemma NothingAfter(data: Bytes, offset: nat, n: nat)
    requires var c := |Range(data, offset, Chunk(n))|; !(0 < c < n)
    ensures var c := |Range(data, offset, Chunk(n))|; c <= n && Range(data, offset + c, n - c) == []
  {
  }

  ghost predicate WellFormed(f: Frame) {
    f.size == |f.bytes| <= MAX_BUFFER_SIZE
  }

  /** No frame is longer than the buffer, and only the last one can be empty. */
  lemma {:induction false} FramesFitTheBuffer(data: Bytes, offset: nat, n: nat, k: nat)
    requires k < |Frames(data, offset, n)|
    ensures WellFormed(Frames(data, offset, n)[k])
    ensures Frames(data, offset, n)[k].size == 0 ==> k == |Frames(data, offset, n)| - 1
    decreases n
  {
    var chunk := Range(data, offset, Chunk(n));
    if k > 0 {
      FramesFitTheBuffer(data, offset + |chunk|, n - |chunk|, k - 1);
    }
  }

  /** The last frame is empty exactly if the request was empty or went beyond the file. */
  lemma {:induction false} FramesEnd(data: Bytes, offset: nat, n: nat)
    ensures Last(Frames(data, offset, n)).size == 0 <==> n == 0 || |data| < offset + n
    decreases n
  {
    var chunk := Range(data, offset, Chunk(n));
    if 0 < |chunk| < n {
      FramesEnd(data, offset + |chunk|, n - |chunk|);
      LastOfRest(Frame(|chunk|, chunk), Frames(data, offset + |chunk|, n - |chunk|));
    }
  }

  /** The k-th full buffer of a range, or what the range or the file has left of it. */
  function KthBuffer(data: Bytes, offset: nat, n: nat, k: nat): Bytes {
    Range(data, offset + k * MAX_BUFFER_SIZE, if k * MAX_BUFFER_SIZE < n then Chunk(n - k * MAX_BUFFER_SIZE) else 0)
  }

  lemma NothingBeyond(data: Bytes, offset: nat, n: nat, k: nat)
    requires |data| <= offset
    ensures KthBuffer(data, offset, n, k) == []
  {
  }

  /** A chunk shorter than asked reaches the end of the file. */
  lemma ShortMeansEnd(data: Bytes, offset: nat, n: nat)
    requires |Range(data, offset, n)| != n
    ensures |Range(data, offset, n)| < n && |data| <= offset + |Range(data, offset, n)|
  {
  }

  lemma BuffersBehind(data: Bytes, offset: nat, n: nat, k: nat, c: nat)
    requires 0 < k && 0 < c < n && c == |Range(data, offset, Chunk(n))|
    ensures KthBuffer(data, offset + c, n - c, k - 1) == KthBuffer(data, offset, n, k)
  {
    if c < Chunk(n) {
      ShortMeansEnd(data, offset, Chunk(n));
      NothingBeyond(data, offset + c, n - c, k - 1);
      assert KthBuffer(data, offset, n, k) == [];
    }
  }

  /** Frame k carries the k-th buffer. */
  lemma {:induction false} FrameIsKthBuffer(data: Bytes, offset: nat, n: nat, k: nat)
    requires k < |Frames(data, offset, n)|
    ensures Frames(data, offset, n)[k].bytes == KthBuffer(data, offset, n, k)
    decreases n
  {
    var c := |Range(data, offset, Chunk(n))|;
    if k > 0 {
      FrameIsKthBuffer(data, offset + c, n - c, k - 1);
      BuffersBehind(data, offset, n, k, c);
    }
  }

  function Last<T>(s: seq<T>): T
    requires s != []
  {
    s[|s| - 1]
  }

  lemma LastOfRest<T>(x: T, rest: seq<T>)
    requires rest != []
    ensures Last([x] + rest) == Last(rest)
  {
  }

  /** What has been sent when op_read ends, if it has sent some frames with cont bytes. */
  function Send(data: Bytes, offset: nat, size: nat, cont: nat, sent: seq<Frame>): seq<Frame>
    requires cont <= size
    decreases size - cont
  {
    var chunk := Range(data, offset + cont, Chunk(size - cont));
    var now := sent + [Frame(|chunk|, chunk)];
    if 0 < |chunk| < size - cont then Send(data, offset, size, cont + |chunk|, now) else now
  }

  lemma {:induction false} SendAppendsFrames(data: Bytes, offset: nat, size: nat, cont: nat, sent: seq<Frame>)
    requires cont <= size
    ensures Send(data, offset, size, cont, sent) == sent + Frames(data, offset + cont, size - cont)
    decreases size - cont
  {
    var n := size - cont;
    var chunk := Range(data, offset + cont, Chunk(n));
    var first := Frame(|chunk|, chunk);
    Regroup(sent, first, FramesAfter(data, offset + cont, n, |chunk|));
    if 0 < |chunk| < n {
      SendAppendsFrames(data, offset, size, cont + |chunk|, sent + [first]);
    }
  }

  lemma AllFrames(data: Bytes, offset: nat, size: nat)
    ensures Send(data, offset, size, 0, []) == Frames(data, offset, size)
  {
    SendAppendsFrames(data, offset, size, 0, []);
  }

  /** One step of it. */
  lemma SendOnce(data: Bytes, offset: nat, size: nat, cont: nat, sent: seq<Frame>)
    requires cont <= size
    ensures var chunk := Range(data, offset + cont, Chunk(size - cont));
      var now := sent + [Frame(|chunk|, chunk)];
      && cont + |chunk| <= size
      && Send(data, offset, size, cont, sent) == if 0 < |chunk| < size - cont then Send(data, offset, size, cont + |chunk|, now) else now
  {
  }

  /** The first k of the frames, then the mark of a failure. */
  predicate BrokenOff(sent: seq<Frame>, all: seq<Frame>, k: int) {
    0 <= k <= |all| && sent == all[..k] + [Frame(-1, [])]
  }

  lemma BreakOff(data: Bytes, offset: nat, size: nat, cont: nat, sent: seq<Frame>)
    requires cont <= size
    ensures BrokenOff(sent + [Frame(-1, [])], Send(data, offset, size, cont, sent), |sent|)
  {
    SendAppendsFrames(data, offset, size, cont, sent);
    assert sent == Send(data, offset, size, cont, sent)[..|sent|];
  }

  /** One pass of the loop of op_read: reads a chunk and sends it, or sends the mark of a failure. */
  method SendChunk(f: File, offset: nat, opSize: nat, cont: nat, toRead: nat, sent: seq<Frame>, ghost data: Bytes)
    returns (reqSize: int, now: seq<Frame>, sum: nat)
    requires cont <= opSize && toRead == Chunk(opSize - cont) && f.data == data
    modifies f`pos, f`failures, f`readsDone
    ensures f.failures == old(f.failures) + if reqSize < 0 then 1 else 0
    ensures f.readsDone == old(f.readsDone) + if reqSize < 0 then 0 else 1
    ensures |now| == |sent| + 1
    ensures reqSize < 0 ==> BrokenOff(now, Send(data, offset, opSize, cont, sent), |sent|)
    ensures reqSize >= 0 ==> sum == cont + reqSize <= opSize
    ensures reqSize > 0 && sum < opSize ==> Send(data, offset, opSize, cont, sent) == Send(data, offset, opSize, sum, now)
    ensures reqSize == 0 || (reqSize > 0 && sum == opSize) ==> Send(data, offset, opSize, cont, sent) == now
  {
    f.Lseek(offset + cont);
    var buffer;
    reqSize, buffer := f.Read(toRead);
    if reqSize < 0 {
      BreakOff(data, offset, opSize, cont, sent);
      return reqSize, sent + [Frame(-1, [])], cont;
    }
    SendOnce(data, offset, opSize, cont, sent);
    now := sent + [Frame(reqSize, buffer)];
    sum := cont + reqSize;
  }

  /** xpn_server_op_read: the loop that reads chunks and sends them, until one fails. */
  method OpRead(f: File, offset: nat, opSize: nat) returns (sent: seq<Frame>, ok: bool)
    modifies f`pos, f`failures, f`readsDone
    ensures f.failures == old(f.failures) + if ok then 0 else 1
    ensures ok ==> sent == Frames(f.data, offset, opSize)
    ensures !ok ==> BrokenOff(sent, Frames(f.data, offset, opSize), f.readsDone - old(f.readsDone))
  {
    sent := [];
    var cont: nat := 0;
    var size := opSize;
    if size > MAX_BUFFER_SIZE { size := MAX_BUFFER_SIZE; }
    var diff := opSize - cont;
    var go := true;
    ghost var data, all := f.data, Frames(f.data, offset, opSize);
    AllFrames(data, offset, opSize);
    while go
      invariant cont <= opSize && diff == opSize - cont && f.data == data
      invariant f.failures == old(f.failures) && f.readsDone == old(f.readsDone) + |sent|
      invariant go ==> all == Send(data, offset, opSize, cont, sent)
      invariant !go ==> all == sent
      decreases go, diff
    {
      var toRead := if diff > size then size else diff;
      var reqSize;
      reqSize, sent, cont := SendChunk(f, offset, opSize, cont, toRead, sent, data);
      if reqSize < 0 { return sent, false; }
      diff := opSize - cont;
      go := diff > 0 && reqSize != 0;
    }
    ok := true;
  }

  // ----- op_write

  /** Assignment of a 64-bit size to the int counters of xpn_server_op_write. */
  function ToInt32(x: int): int {
    (x + 0x8000_0000) % 0x1_0000_0000 - 0x8000_0000
  }

  lemma ToInt32Exact(x: int)
    ensures ToInt32(x) == x <==> -0x8000_0000 <= x < 0x8000_0000
  {
  }

  /** Counting down a truncated size gives the truncated difference. */
  lemma ToInt32Minus(x: int, y: int)
    requires 0 <= y <= ToInt32(x)
    ensures ToInt32(x - y) == ToInt32(x) - y
  {
  }

  lemma TakeInParts(s: Bytes, m: nat, n: nat, k: nat)
    requires k <= n && m + n <= |s|
    ensures s[..m] + s[m..m + n][..k] == s[..m + k]
  {
  }

  /** A chunk behind the bytes written so far makes them longer. */
  lemma WriteContinues(data: Bytes, offset: nat, stream: Bytes, cont: nat, n: nat, k: nat)
    requires cont + n <= |stream| && k <= n
    ensures Overwrite(Overwrite(data, offset, stream[..cont]), offset + cont, stream[cont..cont + n][..k])
         == Overwrite(data, offset, stream[..cont + k])
  {
    TakeInParts(stream, cont, n, k);
    OverwriteInParts(data, offset, stream[..cont], stream[cont..cont + n][..k]);
  }

  /**
   * One pass of the loop of op_write: the next chunk of the stream goes to its place. The
   * first `reached` bytes of the stream are in the file then.
   */
  method WriteChunk(f: File, offset: nat, stream: Bytes, cont: nat, toWrite: nat, ghost start: Bytes)
    returns (written: int, ghost reached: nat)
    requires cont + toWrite <= |stream| && toWrite <= MAX_BUFFER_SIZE && f.data == Overwrite(start, offset, stream[..cont])
    modifies f
    ensures f.failures == old(f.failures) + if written == -1 then 1 else 0
    ensures cont <= reached <= cont + toWrite && (written == -1 || (written == toWrite && reached == cont + toWrite))
    ensures toWrite == 0 ==> written == 0
    ensures f.data == Overwrite(start, offset, stream[..reached])
  {
    f.Lseek(offset + cont);
    ghost var taken;
    written, taken := f.Write(stream[cont..cont + toWrite]);
    WriteContinues(start, offset, stream, cont, toWrite, taken);
    reached := cont + taken;
  }

  /**
   * xpn_server_op_write: takes chunks of the client's stream and writes them; `taken` bytes
   * of the stream reach the file. A size that turns negative in the int counters makes the
   * buffer allocation fail.
   */
  method OpWrite(f: File, offset: nat, opSize: nat, stream: Bytes) returns (reqSize: int, ok: bool, ghost taken: nat)
    requires ToInt32(opSize) <= |stream|
    modifies f
    ensures f.failures == old(f.failures) + if !ok && 0 <= ToInt32(opSize) then 1 else 0
    ensures taken <= |stream| && f.data == Overwrite(old(f.data), offset, stream[..taken])
    ensures if ok then reqSize == ToInt32(opSize) == taken else reqSize == -1
    ensures ok ==> (taken == opSize <==> opSize < 0x8000_0000)
    ensures ToInt32(opSize) < 0 ==> !ok && taken == 0
    ensures ToInt32(opSize) == 0 ==> ok && taken == 0
  {
    var size := ToInt32(opSize);
    if size < 0 { return -1, false, 0; }
    ToInt32Exact(opSize);
    reqSize, ok, taken := WriteChunks(f, offset, opSize, size, stream);
  }

  /** What is left of a size, by int counters. */
  function Left(opSize: nat, total: nat, cont: nat): (diff: int)
    requires total == ToInt32(opSize) && cont <= total
    ensures diff == total - cont
  {
    ToInt32Minus(opSize, cont);
    ToInt32(opSize - cont)
  }

  /** The loop, with the counters of the size as an int counter holds it. */
  method WriteChunks(f: File, offset: nat, opSize: nat, total: nat, stream: Bytes)
    returns (reqSize: int, ok: bool, ghost taken: nat)
    requires total == ToInt32(opSize) && total <= |stream|
    modifies f
    ensures f.failures == old(f.failures) + if ok then 0 else 1
    ensures taken <= |stream| && f.data == Overwrite(old(f.data), offset, stream[..taken])
    ensures if ok then reqSize == total == taken else reqSize == -1
    ensures total == 0 ==> ok && taken == 0
  {
    var cont: nat := 0;
    var size := if total > MAX_BUFFER_SIZE then MAX_BUFFER_SIZE else total;
    var diff := total;
    ghost var start, reached := f.data, 0;
    var go := true;
    while go
      invariant cont <= total && diff == total - cont && reached == cont
      invariant f.data == Overwrite(start, offset, stream[..reached])
      invariant !go ==> cont == total
      invariant f.failures == old(f.failures)
      decreases go, diff
    {
      var toWrite := if diff > size then size else diff;
      var written;
      written, reached := WriteChunk(f, offset, stream, cont, toWrite, start);
      if written < 0 { return -1, false, reached; }
      cont := cont + written;
      diff := Left(opSize, total, cont);
      go := diff > 0 && written != 0;
    }
    return cont, true, reached;
  }

  /** The sizes of which a write takes no byte and still reports success. */
  lemma TakesNothingExactlyIf(opSize: nat)
    ensures ToInt32(opSize) == 0 <==> opSize % 0x1_0000_0000 == 0
  {
  }

  /**
   * Round trip: whatever pattern of short transfers the kernel shows, a read of the range
   * just written sends frames that together are the bytes written.
   */
  lemma WriteThenRead(data: Bytes, offset: nat, b: Bytes)
    ensures Concat(Frames(Overwrite(data, offset, b), offset, |b|)) == b
  {
    OverwriteEffect(data, offset, b);
    FramesAreTheRange(Overwrite(data, offset, b), offset, |b|);
  }

  /** The round trip on the operations themselves: it succeeds unless the kernel fails. */
  method WriteAndReadBack(f: File, offset: nat, stream: Bytes) returns (same: bool, frames: seq<Frame>)
    requires |stream| < 0x8000_0000
    modifies f
    ensures f.failures == old(f.failures) + if same then 0 else 1
    ensures same ==> Concat(frames) == stream
  {
    ToInt32Exact(|stream|);
    assert stream[..|stream|] == stream;
    var reqSize, okWrite, taken := OpWrite(f, offset, |stream|, stream);
    if !okWrite { return false, []; }
    WriteThenRead(old(f.data), offset, stream);
    var sent, okRead := OpRead(f, offset, |stream|);
    return okRead, sent;
  }
}
