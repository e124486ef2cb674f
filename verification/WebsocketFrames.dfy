/** Websocket frames (sections 5.2 to 5.5 of RFC 6455) and the message reader
    of src/Protocols/HTTP/Server.cc as functions on octets.

    `EncodeFrame` is the reference: every way in which the protocol lets a peer
    write a frame. `ReadFrame` and `ReadMessage` are what the server does with
    the octets it gets.
 */
module WebsocketFrames {
  import opened Results
  import opened Bytes
  import opened Varints

  // ----- masking

  /** Exclusive or of the `n` low-order bits. */
  function XorBits(a: nat, b: nat, n: nat): (r: nat)
    ensures r < Pow2(n)
  {
    if n == 0 then 0 else 2 * XorBits(a / 2, b / 2, n - 1) + (a + b) % 2
  }

  lemma ParityTwice(a: nat, b: nat, q: nat)
    ensures (2 * q + (a + b) % 2 + b) % 2 == a % 2 && (2 * q + (a + b) % 2) / 2 == q
  {
  }

  lemma {:induction false} XorTwice(a: nat, b: nat, n: nat)
    requires a < Pow2(n)
    ensures XorBits(XorBits(a, b, n), b, n) == a
  {
    if n > 0 {
      var q := XorBits(a / 2, b / 2, n - 1);
      ParityTwice(a, b, q);
      XorTwice(a / 2, b / 2, n - 1);
    }
  }

  /** A bit of the result is set if and only if exactly one of the two is. */
  lemma {:induction false} XorBit(a: nat, b: nat, n: nat, k: nat)
    requires k < n
    ensures Bit(XorBits(a, b, n), k) == (Bit(a, k) != Bit(b, k))
  {
    var q := XorBits(a / 2, b / 2, n - 1);
    assert XorBits(a, b, n) / 2 == q;
    if k > 0 {
      XorBit(a / 2, b / 2, n - 1, k - 1);
    }
  }

  function Xor(a: Byte, b: Byte): Byte {
    Pow2Of8();
    XorBits(a, b, 8)
  }

  function Mask(key: seq<Byte>, s: seq<Byte>): (m: seq<Byte>)
    requires |key| == 4
    ensures |m| == |s|
  {
    seq(|s|, i requires 0 <= i < |s| => Xor(s[i], key[i % 4]))
  }

  /** What masking does (section 5.3): octet `i` is combined with octet
      `i mod 4` of the key, bit by bit. */
  lemma MaskBits(key: seq<Byte>, s: seq<Byte>, i: nat, k: nat)
    requires |key| == 4 && i < |s| && k < 8
    ensures Bit(Mask(key, s)[i], k) == (Bit(s[i], k) != Bit(key[i % 4], k))
  {
    XorBit(s[i], key[i % 4], 8, k);
  }

  /** Unmasking is masking again (section 5.3). */
  lemma MaskTwice(key: seq<Byte>, s: seq<Byte>)
    requires |key| == 4
    ensures Mask(key, Mask(key, s)) == s
  {
    Pow2Of8();
    forall i | 0 <= i < |s|
      ensures Mask(key, Mask(key, s))[i] == s[i]
    {
      XorTwice(s[i], key[i % 4], 8);
    }
  }

  // ----- frames

  datatype LengthForm = Short | Medium | Long

  datatype Frame = Frame(
    fin: bool, reserved: nat, opcode: nat, form: LengthForm, key: Option<seq<Byte>>, payload: seq<Byte>)
  {
    predicate Valid() {
      && reserved < 8 && opcode < 16
      && (key.Some? ==> |key.value| == 4)
      && match form {
           case Short => |payload| <= 125
           case Medium => |payload| < U16
           case Long => |payload| < U64
         }
    }

    predicate IsControl() {
      opcode >= 8
    }
  }

  function LengthCode(f: Frame): (c: nat)
    requires f.Valid()
    ensures c < 128
  {
    match f.form
    case Short => |f.payload|
    case Medium => 126
    case Long => 127
  }

  function LengthOctets(f: Frame): seq<Byte> {
    match f.form
    case Short => []
    case Medium => ToBE(|f.payload|, 2)
    case Long => ToBE(|f.payload|, 8)
  }

  function Head(f: Frame): seq<Byte>
    requires f.Valid()
  {
    [(if f.fin then 128 else 0) + 16 * f.reserved + f.opcode, (if f.key.Some? then 128 else 0) + LengthCode(f)]
  }

  function Body(f: Frame): seq<Byte>
    requires f.Valid()
  {
    if f.key.Some? then f.key.value + Mask(f.key.value, f.payload) else f.payload
  }

  function EncodeFrame(f: Frame): seq<Byte>
    requires f.Valid()
  {
    Head(f) + LengthOctets(f) + Body(f)
  }

  /** The first two octets of a frame, bit by bit (section 5.2): the end of the
      message and the opcode, the mask and the length or the form it has. */
  lemma HeadBits(f: Frame)
    requires f.Valid()
    ensures var e := EncodeFrame(f);
            && |e| >= 2 && (Bit(e[0], 7) <==> f.fin) && e[0] / 16 % 8 == f.reserved && e[0] % 16 == f.opcode
            && (Bit(e[1], 7) <==> f.key.Some?)
            && e[1] % 128 == (if f.form == Short then |f.payload| else if f.form == Medium then 126 else 127)
  {
    hide LengthOctets, Body, Bit;
    HighBit(Head(f)[0]);
    HighBit(Head(f)[1]);
    assert EncodeFrame(f)[0] == Head(f)[0] && EncodeFrame(f)[1] == Head(f)[1];
  }

  /** The longer forms of the length: two or eight octets, highest first. */
  lemma LengthBits(f: Frame, i: nat)
    requires f.Valid() && f.form != Short && i < (if f.form == Medium then 2 else 8)
    ensures var e, n := EncodeFrame(f), if f.form == Medium then 2 else 8;
            |e| >= 2 + n && e[2 + i] == |f.payload| / Pow256(n - 1 - i) % 256
  {
    hide Body, ToBE, Pow256;
    BEOctet(|f.payload|, if f.form == Medium then 2 else 8, i);
    assert EncodeFrame(f)[2 + i] == LengthOctets(f)[i];
  }

  lemma HighBit(b: Byte)
    ensures Bit(b, 7) <==> b >= 128
  {
    assert Bit(b, 7) == Bit(b / 2, 6) == Bit(b / 2 / 2, 5) == Bit(b / 2 / 2 / 2, 4) == Bit(b / 2 / 2 / 2 / 2, 3);
    var c := b / 2 / 2 / 2 / 2;
    assert Bit(c, 3) == Bit(c / 2, 2) == Bit(c / 2 / 2, 1) == Bit(c / 2 / 2 / 2, 0);
  }

  /** Where the payload of a frame starts. */
  function PayloadOffset(f: Frame): nat {
    2 + |LengthOctets(f)| + (if f.key.Some? then 4 else 0)
  }

  /** The payload of an encoded frame: as it is, or behind the key and combined
      with it bit by bit. */
  lemma PayloadBits(f: Frame, i: nat, k: nat)
    requires f.Valid() && i < |f.payload| && k < 8
    ensures var e, at := EncodeFrame(f), PayloadOffset(f);
            && |e| == at + |f.payload|
            && (f.key.None? ==> e[at..] == f.payload)
            && (f.key.Some? ==> e[at - 4..at] == f.key.value
                                && Bit(e[at + i], k) == (Bit(f.payload[i], k) != Bit(f.key.value[i % 4], k)))
  {
    hide LengthOctets, Mask;
    var e, at := EncodeFrame(f), PayloadOffset(f);
    if f.key.Some? {
      var masked := Mask(f.key.value, f.payload);
      assert e == Head(f) + LengthOctets(f) + f.key.value + masked;
      assert e[at + i] == masked[i];
      MaskBits(f.key.value, f.payload, i, k);
    }
  }

  /** `read_to` followed by `remove`: the stream may end early. */
  function Receive(s: seq<Byte>, n: nat): Parsed<seq<Byte>> {
    if |s| < n then Err(EndOfStream) else Ok((s[..n], s[n..]))
  }

  function ReceiveBE(s: seq<Byte>, n: nat): Parsed<nat> {
    var (octets, rest) :- Receive(s, n);
    Ok((FromBE(octets), rest))
  }

  function ReadLength(code: nat, s: seq<Byte>): Parsed<nat> {
    if code == 127 then ReceiveBE(s, 8)
    else if code == 126 then ReceiveBE(s, 2)
    else Ok((code, s))
  }

  function ReadKey(masked: bool, s: seq<Byte>): Parsed<Option<seq<Byte>>> {
    if masked then
      var (key, rest) :- Receive(s, 4);
      Ok((Some(key), rest))
    else
      Ok((None, s))
  }

  function ReadBody(size: nat, masked: bool, s: seq<Byte>): Parsed<(Option<seq<Byte>>, seq<Byte>)> {
    var (key, s1) :- ReadKey(masked, s);
    var (body, s2) :- Receive(s1, size);
    Ok(((key, if key.Some? then Mask(key.value, body) else body), s2))
  }

  function FormOf(code: nat): LengthForm {
    if code == 127 then Long else if code == 126 then Medium else Short
  }

  function MakeFrame(head: seq<Byte>, key: Option<seq<Byte>>, payload: seq<Byte>): Frame
    requires |head| == 2
  {
    Frame(head[0] >= 128, head[0] / 16 % 8, head[0] % 16, FormOf(head[1] % 128), key, payload)
  }

  function ReadFrame(s: seq<Byte>): Parsed<Frame> {
    var (head, s1) :- Receive(s, 2);
    var (size, s2) :- ReadLength(head[1] % 128, s1);
    var (body, s3) :- ReadBody(size, head[1] >= 128, s2);
    Ok((MakeFrame(head, body.0, body.1), s3))
  }

  lemma ReceiveOfConcat(a: seq<Byte>, rest: seq<Byte>)
    ensures Receive(a + rest, |a|) == Ok((a, rest))
  {
    assert (a + rest)[..|a|] == a && (a + rest)[|a|..] == rest;
  }

  lemma ReadLengthOfFrame(f: Frame, rest: seq<Byte>)
    requires f.Valid()
    ensures ReadLength(LengthCode(f), LengthOctets(f) + rest) == Ok((|f.payload|, rest))
  {
    Pow256Values();
    match f.form
    case Short =>
      assert [] + rest == rest;
    case Medium =>
      ReceiveOfConcat(ToBE(|f.payload|, 2), rest);
      BERoundTrip(|f.payload|, 2);
    case Long =>
      ReceiveOfConcat(ToBE(|f.payload|, 8), rest);
      BERoundTrip(|f.payload|, 8);
  }

  lemma HeadOfFrame(f: Frame)
    requires f.Valid()
    ensures var h := Head(f);
            && |h| == 2 && h[1] % 128 == LengthCode(f) && (h[1] >= 128 <==> f.key.Some?)
            && MakeFrame(h, f.key, f.payload) == f
  {
  }

  lemma ReceiveHead(f: Frame, rest: seq<Byte>)
    requires f.Valid()
    ensures Receive(EncodeFrame(f) + rest, 2) == Ok((Head(f), LengthOctets(f) + (Body(f) + rest)))
  {
    assert EncodeFrame(f) + rest == Head(f) + (LengthOctets(f) + (Body(f) + rest));
    ReceiveOfConcat(Head(f), LengthOctets(f) + (Body(f) + rest));
  }

  lemma ReadBodyOfFrame(f: Frame, rest: seq<Byte>)
    requires f.Valid()
    ensures ReadBody(|f.payload|, f.key.Some?, Body(f) + rest) == Ok(((f.key, f.payload), rest))
  {
    if f.key.Some? {
      var masked := Mask(f.key.value, f.payload);
      assert Body(f) + rest == f.key.value + (masked + rest);
      ReceiveOfConcat(f.key.value, masked + rest);
      ReceiveOfConcat(masked, rest);
      MaskTwice(f.key.value, f.payload);
    } else {
      ReceiveOfConcat(f.payload, rest);
    }
  }

  /** The reader recovers every frame and stops right behind it. */
  lemma ReadFrameOfEncoded(f: Frame, rest: seq<Byte>)
    requires f.Valid()
    ensures ReadFrame(EncodeFrame(f) + rest) == Ok((f, rest))
  {
    hide EncodeFrame, Head, LengthOctets, Body, ReadLength, ReadBody, LengthCode, MakeFrame, Receive;
    ReceiveHead(f, rest);
    HeadOfFrame(f);
    ReadLengthOfFrame(f, Body(f) + rest);
    ReadBodyOfFrame(f, rest);
  }

  lemma ReadLengthInverse(code: nat, s: seq<Byte>)
    requires code < 128 && ReadLength(code, s).Ok?
    ensures var (size, rest) := ReadLength(code, s).value;
            match code {
              case 127 => size < U64 && s == ToBE(size, 8) + rest
              case 126 => size < U16 && s == ToBE(size, 2) + rest
              case _ => size == code <= 125 && s == rest
            }
  {
    Pow256Values();
    if code == 127 {
      BEInverse(s[..8]);
    } else if code == 126 {
      BEInverse(s[..2]);
    }
  }

  lemma ReadBodyInverse(size: nat, masked: bool, s: seq<Byte>)
    requires ReadBody(size, masked, s).Ok?
    ensures var ((key, payload), rest) := ReadBody(size, masked, s).value;
            && |payload| == size && (key.Some? <==> masked) && (masked ==> |key.value| == 4)
            && s == (if masked then key.value + Mask(key.value, payload) else payload) + rest
  {
    var (key, s1) := ReadKey(masked, s).value;
    var (body, s2) := Receive(s1, size).value;
    assert s1 == body + s2;
    if masked {
      MaskTwice(key.value, body);
      assert s == key.value + s1;
      assert s == key.value + body + s2;
    }
  }

  lemma MakeFrameInverse(head: seq<Byte>, key: Option<seq<Byte>>, payload: seq<Byte>, s: seq<Byte>, rest: seq<Byte>)
    requires |head| == 2 && (key.Some? <==> head[1] >= 128) && (key.Some? ==> |key.value| == 4)
    requires ReadLength(head[1] % 128, s) == Ok((|payload|, rest))
    ensures var f := MakeFrame(head, key, payload);
            f.Valid() && f.key == key && f.payload == payload && Head(f) == head && s == LengthOctets(f) + rest
  {
    hide ReadLength, ToBE;
    ReadLengthInverse(head[1] % 128, s);
    var f := MakeFrame(head, key, payload);
    assert f.Valid();
    Octet(head[0]);
    assert Head(f)[0] == head[0];
    assert Head(f)[1] == head[1];
  }

  lemma Octet(b: Byte)
    ensures b == (if b >= 128 then 128 else 0) + 16 * (b / 16 % 8) + b % 16
  {
  }

  lemma Reassociate(a: seq<Byte>, b: seq<Byte>, c: seq<Byte>, d: seq<Byte>)
    ensures a + (b + (c + d)) == a + b + c + d
  {
  }

  /** Whatever the reader accepts is the encoding of the frame it returns. */
  lemma EncodeOfReadFrame(s: seq<Byte>)
    requires ReadFrame(s).Ok?
    ensures var (f, rest) := ReadFrame(s).value;
            f.Valid() && s == EncodeFrame(f) + rest
  {
    hide Mask, ReadLength, ReadBody, MakeFrame, Head, LengthOctets, Receive;
    var (f, rest) := ReadFrame(s).value;
    ReceiveInverse(s, 2);
    var (head, s1) := Receive(s, 2).value;
    var (size, s2) := ReadLength(head[1] % 128, s1).value;
    ReadBodyInverse(size, head[1] >= 128, s2);
    var ((key, payload), s3) := ReadBody(size, head[1] >= 128, s2).value;
    MakeFrameInverse(head, key, payload, s1, s2);
    Reassociate(Head(f), LengthOctets(f), Body(f), rest);
  }

  lemma ReceiveInverse(s: seq<Byte>, n: nat)
    requires Receive(s, n).Ok?
    ensures |Receive(s, n).value.0| == n && s == Receive(s, n).value.0 + Receive(s, n).value.1
  {
  }

  // ----- messages

  datatype Message = Message(opcode: nat, data: seq<Byte>)

  const NO_MESSAGE := Message(0, [])

  /** The server's own frames: unfragmented, unmasked, shortest length form. */
  function WriteOctets(payload: seq<Byte>, opcode: nat): seq<Byte> {
    [128 + opcode % 16]
    + (if |payload| > 0xFFFF then [127] + ToBE(|payload|, 8)
       else if |payload| > 0x7D then [126] + ToBE(|payload|, 2)
       else [|payload|])
    + payload
  }

  /** What one frame does to the message under construction. */
  datatype Handled =
    | Continue(msg: Message, reply: seq<Byte>)
    | Complete(msg: Message)
    | Fail(error: Error, reply: seq<Byte>)

  function Handle(msg: Message, f: Frame): Handled {
    if f.IsControl() then
      if f.opcode == 10 then Continue(msg, [])
      else if f.opcode == 8 then Fail(ClientDisconnected, WriteOctets(f.payload, 8))
      else if f.opcode == 9 then Continue(msg, WriteOctets(f.payload, 10))
      else Fail(UnknownControl, [])
    else if (msg.opcode == 0) == (f.opcode == 0) then
      Fail(InvalidOpcode, [])
    else
      var msg' := Message(if f.opcode != 0 then f.opcode else msg.opcode, msg.data + f.payload);
      if f.fin then Complete(msg') else Continue(msg', [])
  }

  datatype Reading = Reading(result: Result<Message>, rest: seq<Byte>, replies: seq<Byte>)

  lemma ReadFrameMakesProgress(s: seq<Byte>)
    requires ReadFrame(s).Ok?
    ensures |ReadFrame(s).value.1| < |s|
  {
  }

  lemma OnlyEndOfStream(s: seq<Byte>)
    ensures ReadFrame(s).Err? ==> ReadFrame(s).error == EndOfStream
  {
  }

  function ReadMessage(s: seq<Byte>, msg: Message): Reading
    decreases |s|, 0
  {
    match ReadFrame(s)
    case Err(e) => Reading(Err(e), [], [])
    case Ok((f, rest)) =>
      ReadFrameMakesProgress(s);
      Proceed(Handle(msg, f), rest)
  }

  function Proceed(handled: Handled, rest: seq<Byte>): Reading
    decreases |rest|, 1
  {
    match handled
    case Fail(e, reply) => Reading(Err(e), rest, reply)
    case Complete(m) => Reading(Ok(m), rest, [])
    case Continue(m, reply) =>
      var next := ReadMessage(rest, m);
      next.(replies := reply + next.replies)
  }

  ghost predicate AllValid(frames: seq<Frame>) {
    forall f :: f in frames ==> f.Valid()
  }

  function EncodeFrames(frames: seq<Frame>): seq<Byte>
    requires AllValid(frames)
  {
    if frames == [] then [] else EncodeFrame(frames[0]) + EncodeFrames(frames[1..])
  }

  /** The frames of one message (section 5.4): data frames of which only the
      first has an opcode and only the last is final, with pings and pongs
      anywhere before the last. */
  ghost predicate IsMessage(frames: seq<Frame>, first: bool) {
    && frames != []
    && var f := frames[0];
       if f.IsControl() then
         (f.opcode == 9 || f.opcode == 10) && IsMessage(frames[1..], first)
       else
         (first <==> f.opcode != 0) && (if f.fin then |frames| == 1 else IsMessage(frames[1..], false))
  }

  function Payload(frames: seq<Frame>): seq<Byte> {
    if frames == [] then []
    else (if frames[0].IsControl() then [] else frames[0].payload) + Payload(frames[1..])
  }

  function MessageOpcode(frames: seq<Frame>): nat {
    if frames == [] then 0
    else if frames[0].IsControl() then MessageOpcode(frames[1..]) else frames[0].opcode
  }

  /** One pong per ping, with its payload, in order (section 5.5.3). */
  function Pongs(frames: seq<Frame>): seq<Byte> {
    if frames == [] then []
    else (if frames[0].opcode == 9 then WriteOctets(frames[0].payload, 10) else []) + Pongs(frames[1..])
  }

  lemma ReadMessageOfEncoded(f: Frame, rest: seq<Byte>, msg: Message)
    requires f.Valid()
    ensures ReadMessage(EncodeFrame(f) + rest, msg) ==
            Proceed(Handle(msg, f), rest)
  {
    hide EncodeFrame, ReadFrame, Handle;
    ReadFrameOfEncoded(f, rest);
  }

  lemma EncodeFramesCons(f: Frame, more: seq<Frame>, rest: seq<Byte>)
    requires f.Valid() && AllValid(more)
    ensures AllValid([f] + more)
    ensures EncodeFrames([f] + more) + rest == EncodeFrame(f) + (EncodeFrames(more) + rest)
  {
    hide EncodeFrame;
    assert ([f] + more)[1..] == more;
  }

  /** Reassembly: any fragmentation, masking and interleaving of pings and
      pongs comes out as the message, and exactly those octets are consumed. */
  lemma {:induction false} Reassembly(frames: seq<Frame>, msg: Message, rest: seq<Byte>)
    requires AllValid(frames) && IsMessage(frames, msg.opcode == 0)
    ensures ReadMessage(EncodeFrames(frames) + rest, msg) ==
            Reading(Ok(Message(if msg.opcode == 0 then MessageOpcode(frames) else msg.opcode, msg.data + Payload(frames))),
                    rest, Pongs(frames))
  {
    hide ReadMessage, EncodeFrames, EncodeFrame, WriteOctets;
    var f, more := frames[0], frames[1..];
    assert frames == [f] + more;
    EncodeFramesCons(f, more, rest);
    ReadMessageOfEncoded(f, EncodeFrames(more) + rest, msg);
    if f.IsControl() {
      Reassembly(more, msg, rest);
      assert Payload(frames) == Payload(more);
    } else if f.fin {
      assert Payload(frames) == f.payload && Pongs(frames) == [];
      EncodeNoFrames(more, rest);
    } else {
      var msg' := Handle(msg, f).msg;
      Reassembly(more, msg', rest);
      assert msg'.data + Payload(more) == msg.data + Payload(frames);
      assert Pongs(frames) == Pongs(more);
    }
  }

  lemma EncodeNoFrames(none: seq<Frame>, rest: seq<Byte>)
    requires none == []
    ensures EncodeFrames(none) + rest == rest
  {
  }

  /** Frames that leave a message unfinished: fragments that are not final,
      pings and pongs. */
  ghost predicate IsUnfinished(frames: seq<Frame>, first: bool) {
    frames != [] ==>
      var f := frames[0];
      if f.IsControl() then
        (f.opcode == 9 || f.opcode == 10) && IsUnfinished(frames[1..], first)
      else
        (first <==> f.opcode != 0) && !f.fin && IsUnfinished(frames[1..], false)
  }

  /** The message after such frames. */
  function Extended(msg: Message, frames: seq<Frame>): Message {
    Message(if msg.opcode == 0 then MessageOpcode(frames) else msg.opcode, msg.data + Payload(frames))
  }

  lemma {:induction false} UnfinishedIsRead(frames: seq<Frame>, msg: Message, rest: seq<Byte>)
    requires AllValid(frames) && IsUnfinished(frames, msg.opcode == 0)
    ensures var next := ReadMessage(rest, Extended(msg, frames));
            ReadMessage(EncodeFrames(frames) + rest, msg) == next.(replies := Pongs(frames) + next.replies)
  {
    hide ReadMessage, EncodeFrames, EncodeFrame, WriteOctets;
    if frames == [] {
      EncodeNoFrames(frames, rest);
      assert msg.data + [] == msg.data;
      assert [] + ReadMessage(rest, msg).replies == ReadMessage(rest, msg).replies;
    } else {
      var f, more := frames[0], frames[1..];
      assert frames == [f] + more;
      EncodeFramesCons(f, more, rest);
      ReadMessageOfEncoded(f, EncodeFrames(more) + rest, msg);
      var msg' := Handle(msg, f).msg;
      UnfinishedIsRead(more, msg', rest);
      assert Extended(msg', more) == Extended(msg, frames);
      var next := ReadMessage(rest, Extended(msg, frames));
      assert Handle(msg, f).reply + (Pongs(more) + next.replies) == Pongs(frames) + next.replies;
    }
  }

  /** What ends a read without a message, wherever it arrives (sections 5.4 and
      5.5): a close frame, which is echoed, another control frame that is not
      assigned, and a data frame that does not fit the message so far. */
  lemma BadFrameEndsRead(frames: seq<Frame>, f: Frame, rest: seq<Byte>)
    requires AllValid(frames) && IsUnfinished(frames, true) && f.Valid()
    requires f.IsControl() ==> f.opcode != 9 && f.opcode != 10
    requires !f.IsControl() ==> (f.opcode == 0 <==> MessageOpcode(frames) == 0)
    ensures ReadMessage(EncodeFrames(frames) + (EncodeFrame(f) + rest), NO_MESSAGE) ==
            Reading(Err(if f.opcode == 8 then ClientDisconnected else if f.IsControl() then UnknownControl else InvalidOpcode),
                    rest, Pongs(frames) + (if f.opcode == 8 then WriteOctets(f.payload, 8) else []))
  {
    hide ReadMessage, EncodeFrames, EncodeFrame, WriteOctets;
    UnfinishedIsRead(frames, NO_MESSAGE, EncodeFrame(f) + rest);
    ReadMessageOfEncoded(f, rest, Extended(NO_MESSAGE, frames));
  }

  const HELLO: seq<Byte> := [0x48, 0x65, 0x6C, 0x6C, 0x6F]

  const HELLO_KEY: seq<Byte> := [0x37, 0xFA, 0x21, 0x3D]

  const HELLO_FRAME: seq<Byte> := [0x81, 0x85, 0x37, 0xFA, 0x21, 0x3D, 0x7F, 0x9F, 0x4D, 0x51, 0x58]

  /** Bit by bit, `r` is the exclusive or. */
  predicate IsXor(a: nat, b: nat, r: nat, n: nat) {
    if n == 0 then r == 0 else r % 2 == (a + b) % 2 && IsXor(a / 2, b / 2, r / 2, n - 1)
  }

  lemma {:induction false} IsXorIsRight(a: nat, b: nat, r: nat, n: nat)
    requires IsXor(a, b, r, n)
    ensures XorBits(a, b, n) == r
  {
    if n > 0 {
      IsXorIsRight(a / 2, b / 2, r / 2, n - 1);
    }
  }

  lemma XorOf(a: Byte, b: Byte, r: Byte)
    requires IsXor(a, b, r, 8)
    ensures Xor(a, b) == r
  {
    IsXorIsRight(a, b, r, 8);
  }

  lemma HelloXors()
    ensures Xor(0x48, 0x37) == 0x7F && Xor(0x65, 0xFA) == 0x9F && Xor(0x6C, 0x21) == 0x4D
    ensures Xor(0x6C, 0x3D) == 0x51 && Xor(0x6F, 0x37) == 0x58
  {
    hide Xor;
    XorOf(0x48, 0x37, 0x7F);
    XorOf(0x65, 0xFA, 0x9F);
    XorOf(0x6C, 0x21, 0x4D);
    XorOf(0x6C, 0x3D, 0x51);
    XorOf(0x6F, 0x37, 0x58);
  }

  lemma HelloIsMasked()
    ensures Mask(HELLO_KEY, HELLO) == [0x7F, 0x9F, 0x4D, 0x51, 0x58]
  {
    hide Xor;
    HelloXors();
  }

  /** The masked example of section 5.7 of RFC 6455. */
  lemma HelloIsUnmasked()
    ensures ReadMessage(HELLO_FRAME, NO_MESSAGE) == Reading(Ok(Message(1, HELLO)), [], [])
  {
    hide Mask, ReadMessage;
    var f := Frame(true, 0, 1, Short, Some(HELLO_KEY), HELLO);
    HelloIsMasked();
    assert EncodeFrame(f) + [] == HELLO_FRAME;
    ReadMessageOfEncoded(f, [], NO_MESSAGE);
    assert [] + HELLO == HELLO;
  }

  /** The converse: a message is only ever returned for such frames. */
  lemma {:induction false} OnlyMessagesAreRead(s: seq<Byte>, msg: Message) returns (frames: seq<Frame>)
    requires ReadMessage(s, msg).result.Ok?
    ensures AllValid(frames) && IsMessage(frames, msg.opcode == 0)
    ensures s == EncodeFrames(frames) + ReadMessage(s, msg).rest
    decreases |s|
  {
    hide EncodeFrames, EncodeFrame, WriteOctets, ReadFrame;
    var (f, rest) := ReadFrame(s).value;
    EncodeOfReadFrame(s);
    ReadFrameMakesProgress(s);
    var handled := Handle(msg, f);
    var more := [];
    if handled.Complete? {
      EncodeNoFrames(more, rest);
    } else {
      more := OnlyMessagesAreRead(rest, handled.msg);
    }
    frames := [f] + more;
    assert frames[1..] == more;
    EncodeFramesCons(f, more, ReadMessage(s, msg).rest);
  }

  /** A read succeeds if and only if the stream starts with the frames of a
      message. */
  lemma ReadSucceedsIff(s: seq<Byte>)
    ensures ReadMessage(s, NO_MESSAGE).result.Ok? <==>
            exists frames, rest :: AllValid(frames) && IsMessage(frames, true) && s == EncodeFrames(frames) + rest
  {
    if ReadMessage(s, NO_MESSAGE).result.Ok? {
      var frames := OnlyMessagesAreRead(s, NO_MESSAGE);
    }
    if frames, rest :| AllValid(frames) && IsMessage(frames, true) && s == EncodeFrames(frames) + rest {
      Reassembly(frames, NO_MESSAGE, rest);
    }
  }

  // ----- the printer

  function ShortestForm(n: nat): LengthForm {
    if n <= 125 then Short else if n < U16 then Medium else Long
  }

  function WrittenFrame(m: Message): Frame {
    Frame(true, 0, m.opcode % 16, ShortestForm(|m.data|), None, m.data)
  }

  /** `write` prints a valid frame, and no encoding of the same payload is
      shorter. */
  lemma WriteIsShortestEncoding(m: Message, f: Frame)
    requires |m.data| < U64
    requires f.Valid() && f.payload == m.data
    ensures WrittenFrame(m).Valid() && WriteOctets(m.data, m.opcode) == EncodeFrame(WrittenFrame(m))
    ensures |WriteOctets(m.data, m.opcode)| <= |EncodeFrame(f)|
  {
    assert [] + m.data == m.data;
  }

  predicate Writable(m: Message) {
    1 <= m.opcode <= 7 && |m.data| < U64
  }

  function WriteMessages(messages: seq<Message>): seq<Byte> {
    if messages == [] then []
    else WriteOctets(messages[0].data, messages[0].opcode) + WriteMessages(messages[1..])
  }

  /** Reads until the stream is used up or a read fails. */
  function ReadMessages(s: seq<Byte>): Result<seq<Message>>
    decreases |s|
  {
    if s == [] then Ok([])
    else
      var next := ReadMessage(s, NO_MESSAGE);
      var m :- next.result;
      ReadMakesProgress(s, NO_MESSAGE);
      var ms :- ReadMessages(next.rest);
      Ok([m] + ms)
  }

  lemma {:induction false} ReadMakesProgress(s: seq<Byte>, msg: Message)
    requires ReadMessage(s, msg).result.Ok?
    ensures |ReadMessage(s, msg).rest| < |s|
    decreases |s|
  {
    var (f, rest) := ReadFrame(s).value;
    var handled := Handle(msg, f);
    if handled.Continue? {
      ReadMakesProgress(rest, handled.msg);
    }
  }

  /** One written message in front of anything is read back. */
  lemma WrittenMessageIsRead(m: Message, rest: seq<Byte>)
    requires Writable(m)
    ensures ReadMessage(WriteOctets(m.data, m.opcode) + rest, NO_MESSAGE) == Reading(Ok(m), rest, [])
  {
    hide EncodeFrame, WriteOctets, ReadMessage;
    var f := WrittenFrame(m);
    WriteIsShortestEncoding(m, f);
    ReadMessageOfEncoded(f, rest, NO_MESSAGE);
    assert [] + m.data == m.data;
  }

  /** Any sequence of written messages is read back as that sequence, with
      nothing left over. */
  lemma {:induction false} MessagesRoundTrip(messages: seq<Message>)
    requires forall m :: m in messages ==> Writable(m)
    ensures ReadMessages(WriteMessages(messages)) == Ok(messages)
  {
    if messages != [] {
      WriteMessagesNotEmpty(messages);
      hide ReadMessage, WriteOctets;
      WrittenMessageIsRead(messages[0], WriteMessages(messages[1..]));
      MessagesRoundTrip(messages[1..]);
      assert messages == [messages[0]] + messages[1..];
    }
  }

  lemma WriteMessagesNotEmpty(messages: seq<Message>)
    requires messages != []
    ensures WriteMessages(messages) != []
  {
    assert WriteOctets(messages[0].data, messages[0].opcode) != [];
  }
}
