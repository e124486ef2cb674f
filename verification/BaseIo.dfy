/** The raw awaiters of src/Base.cc: a pointer into the caller's memory and the
    size that is left, moved along by every callback. */
module BaseIo {
  import opened Results
  import opened Bytes
  import opened Sockets

  /** What one system call reports: how many octets it moved, that it would
      block, or a failure. */
  datatype Moved = Moved(count: nat) | WouldBlock | Failed

  /** At how many attempts the socket is ready. */
  function ReadyCount(attempts: seq<bool>): nat {
    if attempts == [] then 0 else ReadyCount(attempts[..|attempts| - 1]) + (if attempts[|attempts| - 1] then 1 else 0)
  }

  class ReadAwaiter {
    const sock: Socket
    const target: array<Byte>
    var data: nat   // the pointer, as an offset into `target`
    var size: nat
    var err: bool
    ghost const stream: seq<Byte>

    ghost function Delivered(): int
      reads this
    {
      target.Length - size
    }

    /** Delivered plus remaining is what was asked for, the delivered part
        holds the front of the stream, and nothing beyond it was taken. */
    ghost predicate Valid()
      reads this, target, sock
    {
      && size <= target.Length
      && (size > 0 ==> data == Delivered())
      && target[..Delivered()] + sock.incoming == stream
    }

    constructor (sock: Socket, target: array<Byte>)
      ensures Valid() && size == target.Length && !err
      ensures this.sock == sock && this.target == target && stream == sock.incoming
    {
      this.sock, this.target, this.stream := sock, target, sock.incoming;
      data, size, err := 0, target.Length, false;
      new;
      assert target[..0] + sock.incoming == sock.incoming;
    }

    /** `::read` into the memory at `data`, at most `size` octets. */
    method ReadSome(ready: bool) returns (n: Moved)
      requires Valid()
      modifies target, sock`incoming
      ensures !n.Moved? ==> Valid() && size > 0 && (n.Failed? ==> sock.faulty)
      ensures n.Moved? ==> n.count <= size && target[..Delivered() + n.count] + sock.incoming == stream
      ensures ready ==> n != WouldBlock
      ensures n.Moved? && size > 0 && old(sock.incoming) != [] ==> n.count > 0
    {
      if size == 0 {
        return Moved(0);
      }
      if !ready {
        return WouldBlock;
      }
      var chunk := sock.Receive(size);
      if chunk.None? {
        return Failed;
      }
      ghost var front := target[..data];
      forall i | 0 <= i < |chunk.value| {
        target[data + i] := chunk.value[i];
      }
      assert target[..data + |chunk.value|] == front + chunk.value;
      assert front + chunk.value + sock.incoming == front + (chunk.value + sock.incoming);
      return Moved(|chunk.value|);
    }

    /** Tries to read at once; true if the coroutine need not be suspended. */
    method AwaitReady(ready: bool) returns (r: Result<bool>)
      requires Valid() && !err
      modifies this, target, sock`incoming
      ensures Valid() && !err
      ensures r.Ok? ==> (r.value <==> size == 0)
      ensures r.Err? ==> r.error == ReadFailed && sock.faulty
      ensures ready && r.Ok? && old(size) > 0 && old(sock.incoming) != [] ==> size < old(size)
      ensures size <= old(size)
    {
      var n := ReadSome(ready);
      match n {
        case Failed => return Err(ReadFailed);
        case WouldBlock => return Ok(false);
        case Moved(count) =>
          if count < size {
            data, size := data + count, size - count;
            return Ok(false);
          }
          size := 0;
          return Ok(true);
      }
    }

    /** The callback. At the end of the stream it keeps waiting: a read that
        does not get everything is not resumed. */
    method OnReadReady(ready: bool) returns (resume: bool)
      requires Valid() && size > 0 && !err
      modifies this, target, sock`incoming
      ensures Valid()
      ensures err ==> sock.faulty
      ensures resume <==> err || size == 0
      ensures ready && !err && old(sock.incoming) != [] ==> size < old(size)
      ensures size <= old(size)
    {
      var n := ReadSome(ready);
      match n {
        case Failed =>
          err := true;
          return true;
        case WouldBlock => return false;
        case Moved(count) =>
          if count < size {
            data, size := data + count, size - count;
            return false;
          }
          size := 0;
          return true;
      }
    }
  }

  /** `co_await base.read(fd, data, size)` under the given readiness of the
      socket at each attempt; `None` while it is still suspended. A read that
      succeeds holds exactly the first octets of the stream. One that is
      suspended has got as many octets as there were ready attempts, or all
      that the peer sends: so on a working socket it succeeds if enough octets
      come and enough attempts are ready, and never if the peer sends fewer. */
  method Read(sock: Socket, target: array<Byte>, attempts: seq<bool>) returns (r: Option<Result<()>>)
    modifies target, sock`incoming
    ensures r == Some(Ok(())) ==> target[..] + sock.incoming == old(sock.incoming)
    ensures r.Some? && r.value.Err? ==> sock.faulty
    ensures r.None? ==> exists k :: 0 <= k < target.Length && target[..k] + sock.incoming == old(sock.incoming)
                                    && (k >= ReadyCount(attempts) || sock.incoming == [])
    ensures !sock.faulty && old(|sock.incoming|) >= target.Length && ReadyCount(attempts) >= target.Length ==> r == Some(Ok(()))
    ensures !sock.faulty && old(|sock.incoming|) < target.Length ==> r == None
  {
    var aw := new ReadAwaiter(sock, target);
    var i := 1;
    var first := aw.AwaitReady(attempts != [] && attempts[0]);
    if first.Err? {
      return Some(Err(first.error));
    }
    var resumed := first.value;
    FirstAttempt(attempts);
    while i < |attempts| && !resumed
      invariant aw.Valid() && 1 <= i
      invariant resumed <==> aw.err || aw.size == 0
      invariant aw.err ==> sock.faulty
      invariant resumed || aw.Delivered() >= ReadyCount(if i <= |attempts| then attempts[..i] else attempts) || sock.incoming == []
    {
      assert attempts[..i + 1][..i] == attempts[..i];
      resumed := aw.OnReadReady(attempts[i]);
      i := i + 1;
    }
    assert |target[..aw.Delivered()] + sock.incoming| == old(|sock.incoming|);
    if !resumed {
      assert i >= |attempts|;
      assert attempts[..|attempts|] == attempts;
      return None;
    }
    if aw.err {
      return Some(Err(ReadFailed));
    }
    assert target[..target.Length] == target[..];
    return Some(Ok(()));
  }

  lemma FirstAttempt(attempts: seq<bool>)
    ensures ReadyCount(if 1 <= |attempts| then attempts[..1] else attempts) == if attempts != [] && attempts[0] then 1 else 0
  {
    if attempts != [] {
      assert attempts[..1][..0] == [];
    }
  }

  class WriteAwaiter {
    const sock: Socket
    const source: seq<Byte>
    var data: nat   // the pointer, as an offset into `source`
    var size: nat
    var err: bool
    ghost const before: seq<Byte>

    ghost function Delivered(): int
      reads this
    {
      |source| - size
    }

    ghost predicate Valid()
      reads this, sock
    {
      && size <= |source|
      && (size > 0 ==> data == Delivered())
      && sock.outgoing == before + source[..Delivered()]
    }

    constructor (sock: Socket, source: seq<Byte>)
      ensures Valid() && size == |source| && !err
      ensures this.sock == sock && this.source == source && before == sock.outgoing
    {
      this.sock, this.source, this.before := sock, source, sock.outgoing;
      data, size, err := 0, |source|, false;
    }

    /** `::write` of the memory at `data`, at most `size` octets. */
    method WriteSome(ready: bool) returns (n: Moved)
      requires Valid()
      modifies sock`outgoing
      ensures !n.Moved? ==> Valid() && size > 0 && (n.Failed? ==> sock.faulty)
      ensures n.Moved? ==> n.count <= size && sock.outgoing == before + source[..Delivered() + n.count]
      ensures ready ==> n != WouldBlock
      ensures n.Moved? && size > 0 ==> n.count > 0
    {
      if size == 0 {
        return Moved(0);
      }
      if !ready {
        return WouldBlock;
      }
      var n' := sock.Send(source[data..data + size]);
      if n'.None? {
        return Failed;
      }
      assert source[..data] + source[data..data + size][..n'.value] == source[..data + n'.value];
      return Moved(n'.value);
    }

    method AwaitReady(ready: bool) returns (r: Result<bool>)
      requires Valid() && !err
      modifies this, sock`outgoing
      ensures Valid() && !err
      ensures r.Ok? ==> (r.value <==> size == 0)
      ensures r.Err? ==> r.error == WriteFailed && sock.faulty
      ensures ready && r.Ok? && old(size) > 0 ==> size < old(size)
      ensures size <= old(size)
    {
      var n := WriteSome(ready);
      match n {
        case Failed => return Err(WriteFailed);
        case WouldBlock => return Ok(false);
        case Moved(count) =>
          if count < size {
            data, size := data + count, size - count;
            return Ok(false);
          }
          size := 0;
          return Ok(true);
      }
    }

    method OnWriteReady(ready: bool) returns (resume: bool)
      requires Valid() && size > 0 && !err
      modifies this, sock`outgoing
      ensures Valid()
      ensures err ==> sock.faulty
      ensures resume <==> err || size == 0
      ensures ready && !err ==> size < old(size)
      ensures size <= old(size)
    {
      var n := WriteSome(ready);
      match n {
        case Failed =>
          err := true;
          return true;
        case WouldBlock => return false;
        case Moved(count) =>
          if count < size {
            data, size := data + count, size - count;
            return false;
          }
          size := 0;
          return true;
      }
    }
  }

  /** `co_await base.write(fd, data, size)`: success means that exactly the
      data went out, and at no time did anything but a prefix of it. A write
      that is suspended has sent as many octets as there were ready attempts,
      so on a working socket it succeeds after enough of them. */
  method Write(sock: Socket, source: seq<Byte>, attempts: seq<bool>) returns (r: Option<Result<()>>)
    modifies sock`outgoing
    ensures old(sock.outgoing) <= sock.outgoing <= old(sock.outgoing) + source
    ensures r == Some(Ok(())) ==> sock.outgoing == old(sock.outgoing) + source
    ensures r.Some? && r.value.Err? ==> sock.faulty
    ensures r.None? ==> ReadyCount(attempts) <= |sock.outgoing| - |old(sock.outgoing)| < |source|
    ensures !sock.faulty && ReadyCount(attempts) >= |source| ==> r == Some(Ok(()))
  {
    var aw := new WriteAwaiter(sock, source);
    var i := 1;
    var first := aw.AwaitReady(attempts != [] && attempts[0]);
    if first.Err? {
      return Some(Err(first.error));
    }
    var resumed := first.value;
    FirstAttempt(attempts);
    while i < |attempts| && !resumed
      invariant aw.Valid() && 1 <= i
      invariant resumed <==> aw.err || aw.size == 0
      invariant aw.err ==> sock.faulty
      invariant resumed || aw.Delivered() >= ReadyCount(if i <= |attempts| then attempts[..i] else attempts)
    {
      assert attempts[..i + 1][..i] == attempts[..i];
      resumed := aw.OnWriteReady(attempts[i]);
      i := i + 1;
    }
    if !resumed {
      assert attempts[..|attempts|] == attempts;
      return None;
    }
    if aw.err {
      return Some(Err(WriteFailed));
    }
    assert source[..|source|] == source;
    return Some(Ok(()));
  }
}
