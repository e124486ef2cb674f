/** The stateful codecs of src/Protocols/MySQL/ProtocolBuffer.cc: those that
    append to and drain a buffer, and those that advance a cursor. */
module ProtocolBuffers {
  import opened Results
  import opened Bytes
  import opened Sockets
  import opened Buffers
  import opened Varints

  // ----- ProtocolBuffer

  method AddVarint(buf: Buffer, v: nat)
    modifies buf
    ensures buf.data == old(buf.data) + EncodeVarint(v)
  {
    hide ToLE;
    if v <= 0xFA {
      buf.Add([v]);
    } else if v <= 0xFFFF {
      buf.Add([0xFC]);
      buf.Add(ToLE(v, 2));
    } else if v <= 0xFFFFFF {
      buf.Add([0xFD]);
      buf.Add(ToLE(v, 3));
    } else {
      buf.Add([0xFE]);
      buf.Add(ToLE(v, 8));
    }
  }

  method RemoveVarint(buf: Buffer) returns (r: Result<nat>)
    modifies buf
    ensures Follows(DecodeVarint(old(buf.data)), r, buf.data)
  {
    var v :- buf.RemoveU8();
    if v < 0xFB {
      return Ok(v);
    } else if v == 0xFB {
      return Err(InvalidVarint);
    } else if v == 0xFC {
      r := buf.RemoveLE(2);
    } else if v == 0xFD {
      r := buf.RemoveLE(3);
    } else if v == 0xFE {
      r := buf.RemoveLE(8);
    } else {
      return Err(InvalidVarint);
    }
  }

  method AddVarString(buf: Buffer, str: seq<Byte>)
    modifies buf
    ensures buf.data == old(buf.data) + EncodeString(str, [])
  {
    AddVarint(buf, |str|);
    buf.Add(str);
    assert str + [] == str;
  }

  method RemoveVarString(buf: Buffer) returns (r: Result<seq<Byte>>)
    modifies buf
    ensures Follows(DecodeString(old(buf.data)), r, buf.data)
  {
    var n :- RemoveVarint(buf);
    r := buf.Remove(n);
  }

  function Zeroes(n: nat): (zeroes: seq<Byte>)
    ensures |zeroes| == n && forall i :: 0 <= i < n ==> zeroes[i] == 0
  {
    seq(n, i => 0)
  }

  lemma LowBits(n: nat)
    requires n < 8
    ensures n == 4 * (n / 4 % 2) + 2 * (n / 2 % 2) + n % 2
  {
  }

  method AddZeroes(buf: Buffer, count: nat)
    modifies buf
    ensures buf.data == old(buf.data) + Zeroes(count)
  {
    var left := count;
    while left >= 8
      invariant 0 <= left <= count && buf.data == old(buf.data) + Zeroes(count - left)
    {
      buf.Add(Zeroes(8));
      left := left - 8;
    }
    LowBits(left);
    ghost var done := count - left;
    if left / 4 % 2 == 1 {
      buf.Add(Zeroes(4));
      done := done + 4;
    }
    assert buf.data == old(buf.data) + Zeroes(done);
    if left / 2 % 2 == 1 {
      buf.Add(Zeroes(2));
      done := done + 2;
    }
    assert buf.data == old(buf.data) + Zeroes(done);
    if left % 2 == 1 {
      buf.Add(Zeroes(1));
      done := done + 1;
    }
    assert done == count;
  }

  /** The first four octets of a packet. */
  method ReadHeader(buf: Buffer, sock: Socket) returns (r: Result<(nat, Byte)>)
    requires buf.data == []
    modifies buf, sock`incoming
    ensures
      || (sock.faulty && r == Err(ReadFailed))
      || var s := old(sock.incoming);
         if |s| < 4 then r == Err(EndOfStream)
         else r == Ok((FromLE(s[..3]), s[3])) && buf.data == [] && sock.incoming == s[4..]
  {
    ghost var s := sock.incoming;
    assert buf.data + s == s;
    var _ :- buf.ReadTo(sock, 4);
    assert buf.data == s[..4] && sock.incoming == s[4..];
    assert s[..4][..3] == s[..3];
    var length := buf.RemoveLE(3);
    var seqno := buf.RemoveU8();
    assert length.Ok? && seqno.Ok?;
    return Ok((length.value, seqno.value));
  }

  /** Leaves the payload in the buffer and returns the sequence number. */
  method ReadCommand(buf: Buffer, sock: Socket) returns (r: Result<Byte>)
    modifies buf, sock`incoming
    ensures old(buf.data) != [] ==>
      r == Err(BufferNotEmpty) && buf.data == old(buf.data) && sock.incoming == old(sock.incoming)
    ensures old(buf.data) == [] ==>
      || (sock.faulty && r == Err(ReadFailed))
      || match ReadPacket(old(sock.incoming)) {
           case Ok(((seqno, payload), rest)) => r == Ok(seqno) && buf.data == payload && sock.incoming == rest
           case Err(e) => r == Err(e)
         }
  {
    if |buf.data| != 0 {
      return Err(BufferNotEmpty);
    }
    var header :- ReadHeader(buf, sock);
    ghost var s := sock.incoming;
    assert buf.data + s == s;
    var _ :- buf.ReadTo(sock, header.0);
    assert buf.data == s[..header.0] && sock.incoming == s[header.0..];
    assert old(sock.incoming)[4..4 + header.0] == s[..header.0];
    return Ok(header.1);
  }

  /** Sends the contents of the buffer as one packet and empties it. */
  method WriteCommand(buf: Buffer, sock: Socket, seqno: Byte) returns (r: Result<()>)
    modifies buf, sock`outgoing
    ensures buf.data == []
    ensures r.Ok? ==> sock.outgoing == old(sock.outgoing) + EncodePacket(old(buf.data), seqno)
    ensures r.Err? ==> sock.faulty && r.error == WriteFailed
  {
    var sendBuf := new Buffer();
    sendBuf.Add(ToLE(|buf.data|, 3));
    sendBuf.Add([seqno]);
    sendBuf.AddBuffer(buf);
    assert sendBuf.data == EncodePacket(old(buf.data), seqno);
    r := sendBuf.WriteAll(sock);
    assert sock.outgoing + [] == sock.outgoing;
  }

  // ----- ProtocolStringReader

  /** A cursor over a string; a read past the end fails. */
  class StringReader {
    const data: seq<Byte>
    var pos: nat

    ghost predicate Valid()
      reads this
    {
      pos <= |data|
    }

    ghost function Rest(): seq<Byte>
      requires Valid()
      reads this
    {
      data[pos..]
    }

    constructor (data: seq<Byte>)
      ensures Valid() && this.data == data && pos == 0 && Rest() == data
    {
      this.data, pos := data, 0;
    }

    method Eof() returns (eof: bool)
      requires Valid()
      ensures eof <==> Rest() == []
    {
      eof := pos >= |data|;
    }

    method Read(n: nat) returns (r: Result<seq<Byte>>)
      requires Valid()
      modifies this
      ensures Valid() && pos >= old(pos)
      ensures Follows(Take(old(Rest()), n), r, Rest())
    {
      if n > |data| - pos {
        return Err(NotEnoughData);
      }
      r := Ok(data[pos..pos + n]);
      assert data[pos..pos + n] == data[pos..][..n];
      pos := pos + n;
    }

    method GetU8() returns (r: Result<Byte>)
      requires Valid()
      modifies this
      ensures Valid() && pos >= old(pos)
      ensures Follows(TakeU8(old(Rest())), r, Rest())
    {
      var s :- Read(1);
      return Ok(s[0]);
    }

    method GetLE(n: nat) returns (r: Result<nat>)
      requires Valid()
      modifies this
      ensures Valid() && pos >= old(pos)
      ensures Follows(TakeLE(old(Rest()), n), r, Rest())
    {
      var s :- Read(n);
      return Ok(FromLE(s));
    }

    method GetBE(n: nat) returns (r: Result<nat>)
      requires Valid()
      modifies this
      ensures Valid() && pos >= old(pos)
      ensures Follows(TakeBE(old(Rest()), n), r, Rest())
    {
      var s :- Read(n);
      return Ok(FromBE(s));
    }

    method GetVarint() returns (r: Result<nat>)
      requires Valid()
      modifies this
      ensures Valid() && pos >= old(pos)
      ensures Follows(DecodeVarint(old(Rest())), r, Rest())
    {
      var v :- GetU8();
      if v < 0xFB {
        return Ok(v);
      } else if v == 0xFB {
        return Err(InvalidVarint);
      } else if v == 0xFC {
        r := GetLE(2);
      } else if v == 0xFD {
        r := GetLE(3);
      } else if v == 0xFE {
        r := GetLE(8);
      } else {
        return Err(InvalidVarint);
      }
    }

    method GetVarString() returns (r: Result<seq<Byte>>)
      requires Valid()
      modifies this
      ensures Valid() && pos >= old(pos)
      ensures Follows(DecodeString(old(Rest())), r, Rest())
    {
      var n :- GetVarint();
      r := Read(n);
    }

    method GetStringEof() returns (s: seq<Byte>)
      requires Valid()
      modifies this
      ensures Valid() && s == old(Rest()) && Rest() == []
    {
      var r := Read(|data| - pos);
      assert r.Ok?;
      s := r.value;
    }

    method GetBitmask(n: nat) returns (r: Result<seq<bool>>)
      requires Valid()
      modifies this
      ensures Valid() && pos >= old(pos)
      ensures Follows(TakeBits(old(Rest()), n), r, Rest())
    {
      var octets :- Read(Octets(n));
      var bits: seq<bool> := seq(n, _ => false);
      for x := 0 to n
        invariant |bits| == n && |octets| == Octets(n)
        invariant forall k :: 0 <= k < x ==> bits[k] == Bit(octets[k / 8], k % 8)
      {
        bits := bits[x := Bit(octets[x / 8], x % 8)];
      }
      assert bits == Bits(octets, n);
      return Ok(bits);
    }
  }
}
