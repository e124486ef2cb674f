/** `WebsocketClient::read` and `write` of src/Protocols/HTTP/Server.cc. */
module Websockets {
  import opened Results
  import opened Bytes
  import opened Sockets
  import opened Buffers
  import opened WebsocketFrames

  class WebsocketClient {
    const sock: Socket
    const inputBuf: Buffer

    constructor (sock: Socket)
      ensures this.sock == sock && fresh(inputBuf) && inputBuf.data == []
    {
      this.sock := sock;
      inputBuf := new Buffer();
    }

    /** All octets not yet consumed, buffered here or still to come. */
    ghost function Stream(): seq<Byte>
      reads inputBuf, sock
    {
      inputBuf.data + sock.incoming
    }

    ghost predicate IoFault<T>(r: Result<T>) {
      sock.faulty && (r == Err(ReadFailed) || r == Err(WriteFailed))
    }

    /** `read_to` and `remove`. */
    method ReceiveOctets(n: nat) returns (r: Result<seq<Byte>>)
      modifies inputBuf, sock`incoming
      ensures IoFault(r) || Follows(Receive(old(Stream()), n), r, Stream())
    {
      assert |inputBuf.data + sock.incoming| == |inputBuf.data| + |sock.incoming|;
      var _ :- inputBuf.ReadTo(sock, n);
      assert Stream()[..n] == inputBuf.data[..n];
      assert Stream()[n..] == inputBuf.data[n..] + sock.incoming;
      assert |Stream()| >= n;
      r := inputBuf.Remove(n);
    }

    method ReceiveLength(code: nat) returns (r: Result<nat>)
      modifies inputBuf, sock`incoming
      ensures IoFault(r) || Follows(ReadLength(code, old(Stream())), r, Stream())
    {
      if code == 0x7F {
        var octets :- ReceiveOctets(8);
        return Ok(FromBE(octets));
      } else if code == 0x7E {
        var octets :- ReceiveOctets(2);
        return Ok(FromBE(octets));
      }
      return Ok(code);
    }

    /** The payload, unmasked in place if the frame has a masking key. */
    method ReceiveBody(size: nat, hasMask: bool) returns (r: Result<(Option<seq<Byte>>, seq<Byte>)>)
      modifies inputBuf, sock`incoming
      ensures IoFault(r) || Follows(ReadBody(size, hasMask, old(Stream())), r, Stream())
    {
      var key: seq<Byte> := [];
      if hasMask {
        key :- ReceiveOctets(4);
      }
      var received :- ReceiveOctets(size);
      if !hasMask {
        return Ok((None, received));
      }
      var payload := received;
      for x := 0 to |payload|
        invariant |payload| == |received| && |key| == 4
        invariant forall i :: 0 <= i < |payload| ==> payload[i] == if i < x then Xor(received[i], key[i % 4]) else received[i]
      {
        payload := payload[x := Xor(payload[x], key[x % 4])];
      }
      assert payload == Mask(key, received);
      return Ok((Some(key), payload));
    }

    method ReceiveFrame() returns (r: Result<Frame>)
      modifies inputBuf, sock`incoming
      ensures IoFault(r) || Follows(ReadFrame(old(Stream())), r, Stream())
    {
      hide Receive, ReadLength, ReadBody;
      var head :- ReceiveHead();
      var size :- ReceiveLength(head[1] % 128);
      var body :- ReceiveBody(size, head[1] >= 128);
      return Ok(MakeFrame(head, body.0, body.1));
    }

    method ReceiveHead() returns (r: Result<seq<Byte>>)
      modifies inputBuf, sock`incoming
      ensures IoFault(r) || Follows(Receive(old(Stream()), 2), r, Stream())
      ensures r.Ok? ==> |r.value| == 2
    {
      r := ReceiveOctets(2);
    }

    /** The bytes of `write`; on success exactly one frame has gone out. */
    method Write(payload: seq<Byte>, opcode: Byte) returns (r: Result<()>)
      modifies sock`outgoing
      ensures r.Ok? ==> sock.outgoing == old(sock.outgoing) + WriteOctets(payload, opcode)
      ensures r.Err? ==> IoFault(r)
    {
      var buf := new Buffer();
      buf.Add(payload);
      var dataSize := |buf.data|;
      var sendBuf := new Buffer();
      sendBuf.Add([0x80 + opcode % 16]);
      if dataSize > 0xFFFF {
        sendBuf.Add([0x7F]);
        sendBuf.Add(ToBE(dataSize, 8));
      } else if dataSize > 0x7D {
        sendBuf.Add([0x7E]);
        sendBuf.Add(ToBE(dataSize, 2));
      } else {
        sendBuf.Add([dataSize]);
      }
      sendBuf.AddBuffer(buf);
      assert sendBuf.data == WriteOctets(payload, opcode);
      r := sendBuf.WriteAll(sock);
    }

    /** Reads one message. Unless the socket fails, the result, the octets
        consumed and the replies sent are those of `ReadMessage`, however the
        stream is cut into chunks. */
    method Read() returns (r: Result<Message>)
      modifies inputBuf, sock
      ensures IoFault(r) ||
        var spec := ReadMessage(old(Stream()), NO_MESSAGE);
        && r == spec.result
        && sock.outgoing == old(sock.outgoing) + spec.replies
        && (r != Err(EndOfStream) ==> Stream() == spec.rest)
    {
      hide ReadFrame, WriteOctets;
      ghost var spec := ReadMessage(Stream(), NO_MESSAGE);
      var msg := NO_MESSAGE;
      while true
        invariant var now := ReadMessage(Stream(), msg);
          && spec.result == now.result && spec.rest == now.rest
          && old(sock.outgoing) + spec.replies == sock.outgoing + now.replies
        decreases |Stream()|
      {
        ghost var before := Stream();
        OnlyEndOfStream(before);
        var f :- ReceiveFrame();
        ReadFrameMakesProgress(before);
        assert spec.result == Proceed(Handle(msg, f), Stream()).result;
        if f.opcode >= 8 {
          if f.opcode == 0x0A {
          } else if f.opcode == 0x08 {
            var _ :- Write(f.payload, 0x08);
            return Err(ClientDisconnected);
          } else if f.opcode == 0x09 {
            var _ :- Write(f.payload, 0x0A);
          } else {
            return Err(UnknownControl);
          }
        } else {
          if (msg.opcode == 0) == (f.opcode == 0) {
            return Err(InvalidOpcode);
          }
          if f.opcode != 0 {
            msg := msg.(opcode := f.opcode);
          }
          msg := msg.(data := msg.data + f.payload);
          if f.fin {
            return Ok(msg);
          }
        }
      }
    }
  }
}
