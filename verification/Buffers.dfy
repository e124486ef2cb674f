/** `Buffer` of src/Buffer.cc: an evbuffer with awaitable reads and writes.

    The awaiters are resumed by the event loop whenever the socket is ready.
    What they move per callback is the kernel's choice; the contracts of
    `ReadExactly`, `ReadTo` and `WriteAll` do not depend on it.
 */
module Buffers {
  import opened Results
  import opened Bytes
  import opened Sockets

  class Buffer {
    var data: seq<Byte>

    constructor ()
      ensures data == []
    {
      data := [];
    }

    method Add(octets: seq<Byte>)
      modifies this
      ensures data == old(data) + octets
    {
      data := data + octets;
    }

    /** evbuffer_add_buffer moves the contents of the other buffer here. */
    method AddBuffer(other: Buffer)
      requires other != this
      modifies this, other
      ensures data == old(data) + old(other.data) && other.data == []
    {
      data, other.data := data + other.data, [];
    }

    method Remove(n: nat) returns (r: Result<seq<Byte>>)
      modifies this
      ensures Follows(Take(old(data), n), r, data)
    {
      if |data| < n {
        data := [];
        return Err(NotEnoughData);
      }
      r := Ok(data[..n]);
      data := data[n..];
    }

    method RemoveU8() returns (r: Result<Byte>)
      modifies this
      ensures Follows(TakeU8(old(data)), r, data)
    {
      var s :- Remove(1);
      return Ok(s[0]);
    }

    method RemoveLE(n: nat) returns (r: Result<nat>)
      modifies this
      ensures Follows(TakeLE(old(data), n), r, data)
    {
      var s :- Remove(n);
      return Ok(FromLE(s));
    }

    /** copyout_u8: the next octet, which stays in the buffer. */
    method PeekU8() returns (r: Result<Byte>)
      ensures r == if data == [] then Err(NotEnoughData) else Ok(data[0])
    {
      if data == [] {
        return Err(NotEnoughData);
      }
      return Ok(data[0]);
    }

    method DrainAll()
      modifies this
      ensures data == []
    {
      data := [];
    }

    /** `co_await buf.read(fd, size)`. */
    method ReadExactly(sock: Socket, size: nat) returns (r: Result<()>)
      modifies this, sock`incoming
      ensures data + sock.incoming == old(data + sock.incoming)
      ensures r.Ok? ==> |data| == old(|data|) + size
      ensures r.Err? ==> (r.error == ReadFailed && sock.faulty) || (r.error == EndOfStream && old(|sock.incoming|) < size)
    {
      var aw := new ReadExactlyAwaiter(this, sock, size);
      var resumed := aw.AwaitReady();
      while !resumed
        invariant data + sock.incoming == old(data + sock.incoming)
        invariant aw.Valid() && |data| == old(|data|) + aw.bytesRead
        invariant !resumed ==> !aw.err && !aw.eof && aw.bytesRead < aw.limit
        invariant aw.err ==> sock.faulty
        invariant aw.eof ==> old(|sock.incoming|) < size
        invariant resumed ==> aw.err || aw.eof || aw.bytesRead == aw.limit
        decreases !resumed, aw.limit - aw.bytesRead
      {
        resumed := aw.OnReadReady();
        if aw.eof {
          assert |data| + |sock.incoming| == old(|data|) + old(|sock.incoming|) by {
            assert |data + sock.incoming| == old(|data + sock.incoming|);
          }
        }
      }
      r := aw.AwaitResume();
    }

    /** `co_await buf.read_to(fd, size)`: afterwards the buffer holds at least
        `size` octets, and nothing beyond them has been taken from the socket. */
    method ReadTo(sock: Socket, size: nat) returns (r: Result<()>)
      modifies this, sock`incoming
      ensures data + sock.incoming == old(data + sock.incoming)
      ensures r.Ok? ==> |data| == if size <= old(|data|) then old(|data|) else size
      ensures r.Err? ==>
        || (r.error == ReadFailed && sock.faulty)
        || (r.error == EndOfStream && old(|data| + |sock.incoming|) < size)
    {
      if size <= |data| {
        r := ReadExactly(sock, 0);
      } else {
        r := ReadExactly(sock, size - |data|);
      }
    }

    /** `co_await buf.write(fd)` without a size: exactly the contents go out,
        in order, and leave the buffer. */
    method WriteAll(sock: Socket) returns (r: Result<()>)
      modifies this, sock`outgoing
      ensures sock.outgoing + data == old(sock.outgoing + data)
      ensures r.Ok? ==> data == []
      ensures r.Err? ==> r.error == WriteFailed && sock.faulty
    {
      var aw := new WriteAwaiter(this, sock, -1);
      var resumed := false;
      while !resumed
        invariant aw.limit == -1 || aw.limit == old(|data|)
        invariant aw.limit == -1 ==> aw.bytesWritten == 0 && !resumed
        invariant aw.bytesWritten + |data| == old(|data|)
        invariant sock.outgoing + data == old(sock.outgoing + data)
        invariant aw.err ==> sock.faulty
        invariant !resumed ==> !aw.err
        invariant resumed && !aw.err ==> data == []
        invariant !resumed && aw.limit != -1 ==> data != []
        decreases !resumed, |data|
      {
        resumed := aw.OnWriteReady();
      }
      r := aw.AwaitResume();
    }
  }

  /** `co_await buf.write(fd, size)` with an explicit size, observed for a
      number of callbacks; `None` while it is still suspended. What goes out is
      some run of `Callbacks`, and the coroutine is resumed exactly when the
      count equals the size. For the sizes that work, one callback per octet
      (and at least one) is enough. */
  method WriteSized(buf: Buffer, sock: Socket, size: nat, callbacks: nat)
      returns (r: Option<Result<()>>, ghost chunks: seq<nat>)
    modifies buf, sock`outgoing
    ensures Callbacks(old(|buf.data|), size, chunks) && Sum(chunks) <= old(|buf.data|)
    ensures sock.outgoing == old(sock.outgoing) + old(buf.data)[..Sum(chunks)]
    ensures buf.data == old(buf.data)[Sum(chunks)..]
    ensures r == Some(Ok(())) ==> Sum(chunks) == size
    ensures r.Some? && r.value.Err? ==> sock.faulty
    ensures r.None? ==> callbacks == 0 || Sum(chunks) != size
    ensures r.None? ==> |chunks| == callbacks || size == 0 || buf.data == []
    ensures !sock.faulty && SizeWorks(old(|buf.data|), size) && size <= callbacks && 0 < callbacks ==> r == Some(Ok(()))
  {
    hide Callbacks, Sum, SizeWorks;
    chunks := [];
    NoCallbacks(|buf.data|, size);
    var aw := new WriteAwaiter(buf, sock, size);
    ghost var sent, all := sock.outgoing, buf.data;
    for k := 0 to callbacks
      invariant !aw.err && aw.limit == size && Underway(aw, sent, all, chunks)
      invariant if k > 0 then Sum(chunks) != size else chunks == []
      invariant |chunks| == k || size == 0 || buf.data == []
    {
      var resumed;
      resumed, chunks := WriteOnce(aw, sent, all, chunks);
      if resumed {
        return Some(if aw.err then Err(WriteFailed) else Ok(())), chunks;
      }
    }
    GivingUp(|all|, size, chunks, callbacks);
    return None, chunks;
  }

  /** What has gone out so far is a prefix of the data, chunk by chunk. */
  ghost predicate Underway(aw: WriteAwaiter, sent: seq<Byte>, all: seq<Byte>, chunks: seq<nat>)
    reads aw, aw.buf, aw.sock
  {
    && aw.limit >= 0 && Callbacks(|all|, aw.limit, chunks) && aw.bytesWritten == Sum(chunks) <= |all|
    && aw.sock.outgoing == sent + all[..Sum(chunks)] && aw.buf.data == all[Sum(chunks)..]
  }

  method WriteOnce(aw: WriteAwaiter, ghost sent: seq<Byte>, ghost all: seq<Byte>, ghost chunks: seq<nat>)
      returns (resumed: bool, ghost chunks': seq<nat>)
    requires !aw.err && Underway(aw, sent, all, chunks) && (Sum(chunks) != aw.limit || aw.limit == 0)
    modifies aw, aw.buf, aw.sock`outgoing
    ensures Underway(aw, sent, all, chunks') && aw.limit == old(aw.limit)
    ensures aw.err ==> aw.sock.faulty && resumed
    ensures !aw.err ==> (resumed <==> Sum(chunks') == aw.limit)
    ensures old(aw.buf.data) == [] ==> aw.buf.data == []
    ensures if |chunks'| == |chunks| then aw.err || aw.limit == 0 || aw.buf.data == [] else |chunks'| == |chunks| + 1
  {
    hide Callbacks, Sum;
    ghost var n;
    resumed, n := Callback(aw);
    Slices(sent, all, Sum(chunks), n);
    chunks' := chunks;
    if n > 0 {
      OneMoreCallback(|all|, aw.limit, chunks, n);
      chunks' := chunks + [n];
    }
  }

  method Callback(aw: WriteAwaiter) returns (resumed: bool, ghost n: nat)
    requires !aw.err && aw.limit >= 0
    modifies aw, aw.buf, aw.sock`outgoing
    ensures aw.limit == old(aw.limit) && aw.bytesWritten == old(aw.bytesWritten) + n && n <= old(|aw.buf.data|)
    ensures aw.buf.data == old(aw.buf.data)[n..] && aw.sock.outgoing == old(aw.sock.outgoing) + old(aw.buf.data)[..n]
    ensures aw.err ==> aw.sock.faulty && resumed && n == 0
    ensures !aw.err ==> (resumed <==> aw.bytesWritten == aw.limit) && n <= aw.limit
    ensures n == 0 ==> aw.err || aw.limit == 0 || old(aw.buf.data) == []
  {
    ghost var before := aw.bytesWritten;
    ghost var sent, data := aw.sock.outgoing, aw.buf.data;
    resumed := aw.OnWriteReady();
    n := aw.bytesWritten - before;
    Moved(sent, data, aw.sock.outgoing, aw.buf.data, n);
  }

  lemma Moved(sent: seq<Byte>, data: seq<Byte>, sent': seq<Byte>, data': seq<Byte>, n: nat)
    requires sent + data == sent' + data' && |data'| + n == |data|
    ensures data' == data[n..] && sent' == sent + data[..n]
  {
    assert |sent + data| == |sent'| + |data'|;
    assert sent' == (sent + data)[..|sent| + n] && data' == (sent + data)[|sent| + n..];
  }

  lemma Slices(sent: seq<Byte>, all: seq<Byte>, a: nat, n: nat)
    requires a + n <= |all|
    ensures all[a..][n..] == all[a + n..] && sent + all[..a] + all[a..][..n] == sent + all[..a + n]
  {
    assert all[..a] + all[a..][..n] == all[..a + n];
  }

  lemma NoCallbacks(len: nat, limit: nat)
    ensures Callbacks(len, limit, []) && Sum([]) == 0
  {
  }

  lemma OneMoreCallback(len: nat, limit: nat, chunks: seq<nat>, n: nat)
    requires Callbacks(len, limit, chunks) && Sum(chunks) != limit && 1 <= n <= limit && Sum(chunks) + n <= len
    ensures Callbacks(len, limit, chunks + [n]) && Sum(chunks + [n]) == Sum(chunks) + n
  {
    assert (chunks + [n])[..|chunks|] == chunks;
  }

  /** A size that works is not still short after one callback per octet. */
  lemma GivingUp(len: nat, limit: nat, chunks: seq<nat>, callbacks: nat)
    requires Callbacks(len, limit, chunks)
    requires callbacks > 0 ==> Sum(chunks) != limit
    requires |chunks| == callbacks || limit == 0 || Sum(chunks) == len
    ensures SizeWorks(len, limit) && limit <= callbacks ==> callbacks == 0
  {
    ExplicitSizeCompletesIff(len, limit);
    ChunksArePositive(len, limit, chunks);
    assert SizeWorks(len, limit) ==> OnTrack(len, limit, chunks);
  }

  class ReadExactlyAwaiter {
    const buf: Buffer
    const sock: Socket
    const limit: nat
    var bytesRead: nat
    var err: bool
    var eof: bool

    ghost predicate Valid()
      reads this
    {
      bytesRead <= limit
    }

    constructor (buf: Buffer, sock: Socket, limit: nat)
      ensures this.buf == buf && this.sock == sock && this.limit == limit
      ensures Valid() && bytesRead == 0 && !err && !eof
    {
      this.buf, this.sock, this.limit := buf, sock, limit;
      bytesRead, err, eof := 0, false, false;
    }

    method AwaitReady() returns (ready: bool)
      ensures ready <==> bytesRead >= limit
    {
      ready := bytesRead >= limit;
    }

    /** The callback; it resumes the coroutine or waits for more. */
    method OnReadReady() returns (resume: bool)
      requires Valid() && bytesRead < limit && !err && !eof
      modifies this, buf, sock`incoming
      ensures Valid()
      ensures buf.data + sock.incoming == old(buf.data + sock.incoming)
      ensures |buf.data| - old(|buf.data|) == bytesRead - old(bytesRead)
      ensures err ==> sock.faulty
      ensures eof ==> sock.incoming == [] && bytesRead < limit
      ensures resume <==> err || eof || bytesRead == limit
      ensures !resume ==> old(bytesRead) < bytesRead
    {
      var chunk := sock.Receive(limit - bytesRead);
      if chunk.None? {
        err := true;
        return true;
      }
      assert buf.data + chunk.value + sock.incoming == buf.data + (chunk.value + sock.incoming);
      buf.Add(chunk.value);
      bytesRead := bytesRead + |chunk.value|;
      if chunk.value == [] {
        eof := true;
        return true;
      }
      return bytesRead == limit;
    }

    method AwaitResume() returns (r: Result<()>)
      ensures r == if err then Err(ReadFailed) else if eof then Err(EndOfStream) else Ok(())
    {
      if err {
        return Err(ReadFailed);
      }
      if eof {
        return Err(EndOfStream);
      }
      return Ok(());
    }
  }

  class WriteAwaiter {
    const buf: Buffer
    const sock: Socket
    var limit: int
    var bytesWritten: nat
    var err: bool

    constructor (buf: Buffer, sock: Socket, limit: int)
      ensures this.buf == buf && this.sock == sock && this.limit == limit
      ensures bytesWritten == 0 && !err
    {
      this.buf, this.sock, this.limit := buf, sock, limit;
      bytesWritten, err := 0, false;
    }

    /** The callback. Every call offers up to `limit` octets again, whatever
        has gone out before. */
    method OnWriteReady() returns (resume: bool)
      requires !err
      modifies this, buf, sock`outgoing
      ensures limit == if old(limit) < 0 then old(|buf.data|) else old(limit)
      ensures sock.outgoing + buf.data == old(sock.outgoing + buf.data)
      ensures bytesWritten + |buf.data| == old(bytesWritten + |buf.data|)
      ensures old(bytesWritten) <= bytesWritten
      ensures err ==> sock.faulty && resume && bytesWritten == old(bytesWritten)
      ensures !err ==> (resume <==> bytesWritten == limit)
      ensures !err && old(buf.data) != [] && limit > 0 ==> old(bytesWritten) < bytesWritten
      ensures bytesWritten <= old(bytesWritten) + limit
    {
      if limit < 0 {
        limit := |buf.data|;
      }
      var offer := if limit < |buf.data| then limit else |buf.data|;
      var n := sock.Send(buf.data[..offer]);
      if n.None? {
        err := true;
        return true;
      }
      assert buf.data == buf.data[..n.value] + buf.data[n.value..];
      assert buf.data[..offer][..n.value] == buf.data[..n.value];
      buf.data := buf.data[n.value..];
      bytesWritten := bytesWritten + n.value;
      return bytesWritten == limit;
    }

    method AwaitResume() returns (r: Result<()>)
      ensures r == if err then Err(WriteFailed) else Ok(())
    {
      return if err then Err(WriteFailed) else Ok(());
    }
  }

  // ----- `co_await buf.write(fd, size)` with an explicit size

  function Sum(chunks: seq<nat>): nat {
    if chunks == [] then 0 else Sum(chunks[..|chunks| - 1]) + chunks[|chunks| - 1]
  }

  /** What successive callbacks may write from a buffer of `len` octets: each
      moves at least one octet and at most `limit` of those left, and there is
      another callback only as long as the total differs from `limit`. */
  ghost predicate Callbacks(len: nat, limit: nat, chunks: seq<nat>) {
    chunks != [] ==>
      var before := chunks[..|chunks| - 1];
      && Callbacks(len, limit, before)
      && Sum(before) != limit
      && 1 <= chunks[|chunks| - 1] <= limit
      && Sum(chunks) <= len
  }

  lemma {:induction false} NoOvershoot(len: nat, limit: nat, chunks: seq<nat>)
    requires Callbacks(len, limit, chunks) && (limit <= 1 || len <= limit)
    ensures Sum(chunks) <= limit
  {
    if chunks != [] {
      NoOvershoot(len, limit, chunks[..|chunks| - 1]);
    }
  }

  /** An explicit size is respected under every chunking if and only if it is
      at most one octet or covers the whole buffer. */
  lemma ExplicitSizeIsRespected(len: nat, limit: nat)
    ensures (forall chunks :: Callbacks(len, limit, chunks) ==> Sum(chunks) <= limit) <==> limit <= 1 || len <= limit
  {
    if limit <= 1 || len <= limit {
      forall chunks | Callbacks(len, limit, chunks)
        ensures Sum(chunks) <= limit
      {
        NoOvershoot(len, limit, chunks);
      }
    } else {
      var chunks := [1, limit];
      assert chunks[..1] == [1] && [1][..0] == [];
      assert Sum([1]) == 1 && Callbacks(len, limit, [1]);
      assert Sum(chunks) == 1 + limit && Callbacks(len, limit, chunks);
    }
  }

  lemma {:induction false} ChunksArePositive(len: nat, limit: nat, chunks: seq<nat>)
    requires Callbacks(len, limit, chunks)
    ensures |chunks| <= Sum(chunks) <= len
  {
    if chunks != [] {
      ChunksArePositive(len, limit, chunks[..|chunks| - 1]);
    }
  }

  /** The write is over with exactly `limit` octets sent, or on the way there:
      not yet too many, and there is something to go on with. */
  ghost predicate OnTrack(len: nat, limit: nat, chunks: seq<nat>) {
    Sum(chunks) == limit || (Sum(chunks) < limit && Sum(chunks) < len)
  }

  predicate SizeWorks(len: nat, limit: nat) {
    limit <= len && (limit <= 1 || limit == len)
  }

  /** A write of an explicit size completes with exactly that many octets under
      every chunking if and only if the buffer holds that many and the size is
      at most one or the whole buffer. Otherwise some chunking sends too much,
      or the buffer runs out and the coroutine is never resumed. */
  lemma ExplicitSizeCompletesIff(len: nat, limit: nat)
    ensures (forall chunks :: Callbacks(len, limit, chunks) ==> OnTrack(len, limit, chunks)) <==> SizeWorks(len, limit)
  {
    if SizeWorks(len, limit) {
      forall chunks | Callbacks(len, limit, chunks)
        ensures OnTrack(len, limit, chunks)
      {
        NoOvershoot(len, limit, chunks);
        ChunksArePositive(len, limit, chunks);
      }
    } else if limit > len {
      var chunks := if len == 0 then [] else [len];
      assert len > 0 ==> chunks[..0] == [];
      assert Sum(chunks) == len && Callbacks(len, limit, chunks);
      assert !OnTrack(len, limit, chunks);
    } else {
      ExplicitSizeIsRespected(len, limit);
      ghost var chunks :| Callbacks(len, limit, chunks) && Sum(chunks) > limit;
      assert !OnTrack(len, limit, chunks);
    }
  }
}
