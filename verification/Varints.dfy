/** MySQL's length-encoded integers and strings, bit masks and packets, as
    functions on octets (src/Protocols/MySQL/ProtocolBuffer.cc).

    Encoders take the octets that follow as an argument, so that a nested
    encoding is the concatenation in the order in which it is read.
 */
module Varints {
  import opened Results
  import opened Bytes

  // ----- length-encoded integers

  function EncodeVarint(v: nat): seq<Byte> {
    if v <= 0xFA then [v]
    else if v <= 0xFFFF then [0xFC] + ToLE(v, 2)
    else if v <= 0xFFFFFF then [0xFD] + ToLE(v, 3)
    else [0xFE] + ToLE(v, 8)
  }

  function DecodeVarint(s: seq<Byte>): Parsed<nat> {
    var (v, rest) :- TakeU8(s);
    if v < 0xFB then Ok((v, rest))
    else if v == 0xFC then TakeLE(rest, 2)
    else if v == 0xFD then TakeLE(rest, 3)
    else if v == 0xFE then TakeLE(rest, 8)
    else Err(InvalidVarint)
  }

  lemma VarintRoundTrip(v: nat, rest: seq<Byte>)
    requires v < U64
    ensures DecodeVarint(EncodeVarint(v) + rest) == Ok((v, rest))
  {
    Pow256Values();
    var s := EncodeVarint(v) + rest;
    if v <= 0xFA {
      assert s[1..] == rest;
    } else {
      var n := if v <= 0xFFFF then 2 else if v <= 0xFFFFFF then 3 else 8;
      assert s[1..] == ToLE(v, n) + rest;
      TakeLEOfToLE(v, n, rest);
    }
  }

  /** Two encodings in front of anything can only agree if they are the same:
      the encoding needs no delimiter. */
  lemma VarintSelfDelimiting(a: nat, x: seq<Byte>, b: nat, y: seq<Byte>)
    requires a < U64 && b < U64 && EncodeVarint(a) + x == EncodeVarint(b) + y
    ensures a == b && x == y
  {
    VarintRoundTrip(a, x);
    VarintRoundTrip(b, y);
  }

  /** No octets that decode to the same value are fewer. */
  lemma VarintShortest(s: seq<Byte>)
    requires DecodeVarint(s).Ok?
    ensures var (v, rest) := DecodeVarint(s).value;
            v < U64 && |rest| < |s| && |EncodeVarint(v)| <= |s| - |rest|
  {
    Pow256Values();
    var n := if s[0] < 0xFB then 0 else if s[0] == 0xFC then 2 else if s[0] == 0xFD then 3 else 8;
    LEInverse(s[1..][..n]);
  }

  /** The first octet is the value itself, or says how many octets follow; 0xFB
      and 0xFF never start an encoding, and 0xFE only that of a value which does
      not fit into three octets. */
  lemma VarintFirstOctet(v: nat)
    ensures var e := EncodeVarint(v);
            && 1 <= |e| <= 9 && e[0] != 0xFB && e[0] != 0xFF
            && (e[0] < 0xFB <==> v < 0xFB) && (v < 0xFB ==> e == [v])
            && (e[0] == 0xFC <==> 0xFB <= v < U16) && (e[0] == 0xFC ==> |e| == 3)
            && (e[0] == 0xFD <==> U16 <= v < U24) && (e[0] == 0xFD ==> |e| == 4)
            && (e[0] == 0xFE <==> U24 <= v) && (e[0] == 0xFE ==> |e| == 9)
  {
  }

  /** The octets behind the first are those of the value, lowest first. */
  lemma VarintOctets(v: nat, i: nat)
    requires 1 <= i < |EncodeVarint(v)|
    ensures EncodeVarint(v)[i] == v / Pow256(i - 1) % 256
  {
    LEOctet(v, |EncodeVarint(v)| - 1, i - 1);
  }

  /** How many octets follow the first one, if it may start an encoding. */
  function Following(first: Byte): Option<nat> {
    if first <= 250 then Some(0)
    else if first == 252 then Some(2)
    else if first == 253 then Some(3)
    else if first == 254 then Some(8)
    else None
  }

  /** Exactly which octets are accepted, what is taken, and which error the
      others get. */
  lemma VarintAccepted(s: seq<Byte>)
    ensures DecodeVarint(s).Ok? <==> s != [] && Following(s[0]).Some? && |s| > Following(s[0]).value
    ensures DecodeVarint(s).Ok? ==> DecodeVarint(s).value.1 == s[1 + Following(s[0]).value..]
    ensures DecodeVarint(s) == Err(InvalidVarint) <==> s != [] && (s[0] == 251 || s[0] == 255)
  {
  }

  // ----- length-encoded strings

  function EncodeString(str: seq<Byte>, rest: seq<Byte>): seq<Byte> {
    EncodeVarint(|str|) + (str + rest)
  }

  function DecodeString(s: seq<Byte>): Parsed<seq<Byte>> {
    var (n, rest) :- DecodeVarint(s);
    Take(rest, n)
  }

  lemma StringRoundTrip(str: seq<Byte>, rest: seq<Byte>)
    requires |str| < U64
    ensures DecodeString(EncodeString(str, rest)) == Ok((str, rest))
  {
    VarintRoundTrip(|str|, str + rest);
    TakeOfConcat(str, rest);
  }

  function EncodeStrings(strs: seq<seq<Byte>>, rest: seq<Byte>): seq<Byte> {
    if strs == [] then rest else EncodeString(strs[0], EncodeStrings(strs[1..], rest))
  }

  function DecodeStrings(n: nat, s: seq<Byte>): Parsed<seq<seq<Byte>>> {
    if n == 0 then Ok(([], s))
    else
      var (str, s1) :- DecodeString(s);
      var (strs, s2) :- DecodeStrings(n - 1, s1);
      Ok(([str] + strs, s2))
  }

  lemma {:induction false} StringsRoundTrip(strs: seq<seq<Byte>>, rest: seq<Byte>)
    requires forall str :: str in strs ==> |str| < U64
    ensures DecodeStrings(|strs|, EncodeStrings(strs, rest)) == Ok((strs, rest))
  {
    if strs != [] {
      hide DecodeString, EncodeString;
      StringRoundTrip(strs[0], EncodeStrings(strs[1..], rest));
      StringsRoundTrip(strs[1..], rest);
      assert strs == [strs[0]] + strs[1..];
    }
  }

  // ----- bit masks

  /** Bit `k` of `b`, that is `(b >> k) & 1`. */
  function Bit(b: nat, k: nat): bool {
    if k == 0 then b % 2 == 1 else Bit(b / 2, k - 1)
  }

  function Octets(bits: nat): nat {
    (bits + 7) / 8
  }

  function Bits(data: seq<Byte>, n: nat): seq<bool>
    requires |data| == Octets(n)
  {
    seq(n, x requires 0 <= x < n => Bit(data[x / 8], x % 8))
  }

  function TakeBits(s: seq<Byte>, n: nat): Parsed<seq<bool>> {
    var (data, rest) :- Take(s, Octets(n));
    Ok((Bits(data, n), rest))
  }

  /** The number whose bits, lowest first, are the given ones. */
  function FromBits(bits: seq<bool>): nat {
    if bits == [] then 0 else (if bits[0] then 1 else 0) + 2 * FromBits(bits[1..])
  }

  lemma {:induction false} FromBitsSmall(bits: seq<bool>, n: nat)
    requires |bits| <= n
    ensures FromBits(bits) < Pow2(n)
  {
    if bits != [] {
      FromBitsSmall(bits[1..], n - 1);
    }
  }

  lemma {:induction false} BitOfFromBits(bits: seq<bool>, k: nat)
    requires k < |bits|
    ensures Bit(FromBits(bits), k) == bits[k]
  {
    if k > 0 {
      BitOfFromBits(bits[1..], k - 1);
      assert FromBits(bits) / 2 == FromBits(bits[1..]);
    }
  }

  function EncodeBits(bits: seq<bool>): (data: seq<Byte>)
    ensures |data| == Octets(|bits|)
  {
    if bits == [] then []
    else
      var k := if |bits| < 8 then |bits| else 8;
      FromBitsSmall(bits[..k], 8);
      Pow2Of8();
      [FromBits(bits[..k])] + EncodeBits(bits[k..])
  }

  lemma {:induction false} BitsOfEncodeBits(bits: seq<bool>, x: nat)
    requires x < |bits|
    ensures Bit(EncodeBits(bits)[x / 8], x % 8) == bits[x]
  {
    var k := if |bits| < 8 then |bits| else 8;
    if x < k {
      BitOfFromBits(bits[..k], x);
    } else {
      BitsOfEncodeBits(bits[8..], x - 8);
      assert EncodeBits(bits)[1..] == EncodeBits(bits[8..]);
      assert EncodeBits(bits)[x / 8] == EncodeBits(bits[8..])[(x - 8) / 8];
    }
  }

  lemma EncodeBitsInverse(bits: seq<bool>)
    ensures Bits(EncodeBits(bits), |bits|) == bits
  {
    hide EncodeBits, Bit;
    forall x: nat | x < |bits|
      ensures Bits(EncodeBits(bits), |bits|)[x] == bits[x]
    {
      BitsOfEncodeBits(bits, x);
    }
  }

  lemma BitsRoundTrip(bits: seq<bool>, rest: seq<Byte>)
    ensures TakeBits(EncodeBits(bits) + rest, |bits|) == Ok((bits, rest))
  {
    hide EncodeBits, Bits, Octets, Take;
    EncodeBitsInverse(bits);
    TakeOfConcat(EncodeBits(bits), rest);
  }

  // ----- packets

  /** A packet as `write_command` frames it; lengths wrap at 24 bits. */
  function EncodePacket(payload: seq<Byte>, seqno: Byte): seq<Byte> {
    ToLE(|payload|, 3) + [seqno] + payload
  }

  /** What `read_command` takes from the stream: sequence number and payload. */
  function ReadPacket(s: seq<Byte>): Parsed<(Byte, seq<Byte>)> {
    if |s| < 4 then Err(EndOfStream)
    else
      var n := FromLE(s[..3]);
      if |s| - 4 < n then Err(EndOfStream)
      else Ok(((s[3], s[4..4 + n]), s[4 + n..]))
  }

  /** Three octets of length, lowest first, the number, and the payload. */
  lemma PacketOctets(payload: seq<Byte>, seqno: Byte)
    ensures var e := EncodePacket(payload, seqno);
            && |e| == 4 + |payload| && e[3] == seqno && e[4..] == payload
            && e[0] == |payload| % 256 && e[1] == |payload| / 256 % 256 && e[2] == |payload| / 65536 % 256
  {
    Pow256Values();
    LEOctet(|payload|, 3, 0);
    LEOctet(|payload|, 3, 1);
    LEOctet(|payload|, 3, 2);
  }

  /** A packet is taken if and only if it has come completely. */
  lemma PacketAccepted(s: seq<Byte>)
    ensures ReadPacket(s).Ok? <==> |s| >= 4 && |s| - 4 >= s[0] as nat + 256 * s[1] as nat + 65536 * s[2] as nat
    ensures ReadPacket(s).Err? ==> ReadPacket(s).error == EndOfStream
  {
    if |s| >= 4 {
      var a, b, c := s[0], s[1], s[2];
      assert s[..3] == [a, b, c] && [a, b, c][1..] == [b, c] && [b, c][1..] == [c] && [c][1..] == [];
      assert FromLE([c]) == c && FromLE([b, c]) == b + 256 * FromLE([c]);
    }
  }

  lemma PacketRoundTrip(payload: seq<Byte>, seqno: Byte, rest: seq<Byte>)
    requires |payload| < U24
    ensures ReadPacket(EncodePacket(payload, seqno) + rest) == Ok(((seqno, payload), rest))
  {
    var s := EncodePacket(payload, seqno) + rest;
    Pow256Values();
    LERoundTrip(|payload|, 3);
    assert s[..3] == ToLE(|payload|, 3);
    assert s[4..4 + |payload|] == payload && s[4 + |payload|..] == rest;
  }
}
