/**
 * The report tool's wire format: base-128 varints and zlib frames.
 */
module Varint {
  import opened Arithmetic
  import opened Options

  type Byte = x: int | 0 <= x < 256

  const RECEIVE_SIZE: nat := 1024

  // ----- the format -----

  /** The bytes that stand for n: seven bits each, the lowest first, all but the last with the top bit set. */
  function Encode(n: int): (bytes: seq<Byte>)
    decreases Max(n, 0)
  {
    if n > 0x7f then [0x80 + n % 0x80] + Encode(n / 0x80) else [n % 0x80]
  }

  /** The value at the front of buf, and what follows it. */
  function Decode(buf: seq<Byte>): (r: Option<(nat, seq<Byte>)>) {
    if buf == [] then None
    else if buf[0] <= 0x7f then Some((buf[0], buf[1..]))
    else match Decode(buf[1..])
      case None => None
      case Some(tail) => Some((buf[0] - 0x80 + 0x80 * tail.0, tail.1))
  }

  /** Every byte but the last announces another one. */
  predicate IsVarint(bytes: seq<Byte>) {
    && bytes != []
    && bytes[|bytes| - 1] <= 0x7f
    && forall i :: 0 <= i < |bytes| - 1 ==> bytes[i] > 0x7f
  }

  /** The base-128 number whose digits are the low seven bits of the bytes, the lowest first. */
  function SevenBits(bytes: seq<Byte>): (n: nat) {
    if bytes == [] then 0 else bytes[0] % 0x80 + 0x80 * SevenBits(bytes[1..])
  }

  /** The varint uses no more bytes than it has to. */
  predicate Shortest(bytes: seq<Byte>) {
    |bytes| == 1 || (|bytes| > 1 && bytes[|bytes| - 1] != 0)
  }

  // ----- what the format promises -----

  lemma {:induction false} LongerVarint(first: Byte, tail: seq<Byte>)
    requires first > 0x7f && IsVarint(tail)
    ensures IsVarint([first] + tail)
    ensures SevenBits([first] + tail) == first % 0x80 + 0x80 * SevenBits(tail)
    ensures tail[|tail| - 1] != 0 ==> Shortest([first] + tail)
  {
    var bytes := [first] + tail;
    assert bytes[1..] == tail && bytes[|bytes| - 1] == tail[|tail| - 1];
    assert forall i :: 1 <= i < |bytes| ==> bytes[i] == tail[i - 1];
  }

  /** An encoding is a shortest varint with the value it encodes. */
  lemma {:induction false} EncodeIsVarint(n: nat)
    ensures IsVarint(Encode(n)) && Shortest(Encode(n)) && SevenBits(Encode(n)) == n
    decreases n
  {
    if n > 0x7f {
      var tail := Encode(n / 0x80);
      EncodeIsVarint(n / 0x80);
      EncodeOneByte(n / 0x80);
      LongerVarint(0x80 + n % 0x80, tail);
    } else {
      assert SevenBits(Encode(n)[1..]) == 0;
    }
  }

  /** The k-th byte holds the k-th group of seven bits, the lowest first. */
  lemma {:induction false} EncodedGroup(n: nat, k: nat)
    requires k < |Encode(n)|
    ensures Encode(n)[k] % 0x80 == n / Pow(0x80, k) % 0x80
    decreases k
  {
    if k > 0 {
      EncodedGroup(n / 0x80, k - 1);
      assert Encode(n)[k] == Encode(n / 0x80)[k - 1];
      DivDiv(n, 0x80, Pow(0x80, k - 1));
    }
  }

  lemma {:induction false} ThreeHundred()
    ensures Encode(300) == [0xAC, 0x02] && Decode([0xAC, 0x02]) == Some((300, []))
  {
    RoundTrip(300, []);
    assert Encode(2) == [2];
    assert Encode(300) == [0xAC] + Encode(2);
    assert Encode(300) + [] == Encode(300);
  }

  lemma {:induction false} EncodeOneByte(n: nat)
    ensures |Encode(n)| == 1 ==> Encode(n) == [n]
  {
  }

  /** Decoding reads exactly a varint and the number it stands for, whatever follows. */
  lemma {:induction false} DecodeVarint(head: seq<Byte>, rest: seq<Byte>)
    requires IsVarint(head)
    ensures Decode(head + rest) == Some((SevenBits(head), rest))
  {
    var buf := head + rest;
    assert buf[0] == head[0];
    if |head| == 1 {
      assert buf[1..] == rest;
      assert SevenBits(head[1..]) == 0;
    } else {
      assert buf[1..] == head[1..] + rest;
      VarintTail(head);
      DecodeVarint(head[1..], rest);
    }
  }

  lemma {:induction false} VarintTail(head: seq<Byte>)
    requires IsVarint(head) && |head| > 1
    ensures IsVarint(head[1..])
  {
    var tail := head[1..];
    assert forall i :: 0 <= i < |tail| ==> tail[i] == head[i + 1];
  }

  /** Decoding succeeds exactly on a varint followed by anything. */
  lemma {:induction false} DecodeReadsVarint(buf: seq<Byte>) returns (head: seq<Byte>)
    ensures Decode(buf).Some? <==> exists i :: 0 <= i < |buf| && buf[i] <= 0x7f
    ensures Decode(buf).Some? ==> IsVarint(head) && buf == head + Decode(buf).value.1 && Decode(buf).value.0 == SevenBits(head)
  {
    head := [];
    if buf != [] {
      if buf[0] <= 0x7f {
        head := [buf[0]];
        assert SevenBits(head[1..]) == 0;
      } else {
        var tail := DecodeReadsVarint(buf[1..]);
        TailHasEnd(buf);
        if Decode(buf).Some? {
          head := [buf[0]] + tail;
          assert head[1..] == tail;
          assert forall i :: 1 <= i < |head| ==> head[i] == tail[i - 1];
          assert buf == [buf[0]] + buf[1..];
        }
      }
    }
  }

  lemma {:induction false} TailHasEnd(buf: seq<Byte>)
    requires buf != [] && buf[0] > 0x7f
    ensures (exists i :: 0 <= i < |buf| && buf[i] <= 0x7f) <==> (exists i :: 0 <= i < |buf[1..]| && buf[1..][i] <= 0x7f)
  {
    if i :| 0 <= i < |buf| && buf[i] <= 0x7f {
      assert buf[1..][i - 1] == buf[i];
    }
  }

  /** The round trip holds for exactly the numbers that are not negative. */
  lemma {:induction false} RoundTrip(n: int, rest: seq<Byte>)
    ensures Decode(Encode(n) + rest) == Some((n, rest)) <==> 0 <= n
  {
    if 0 <= n {
      EncodeIsVarint(n);
      DecodeVarint(Encode(n), rest);
    } else {
      assert (Encode(n) + rest)[0] == n % 0x80;
    }
  }

  /** No encoding is a proper prefix of another one. */
  lemma {:induction false} PrefixFree(m: nat, n: nat, rest: seq<Byte>)
    requires Encode(n) == Encode(m) + rest
    ensures m == n && rest == []
  {
    RoundTrip(m, rest);
    RoundTrip(n, []);
    assert Encode(n) + [] == Encode(n);
  }

  /** Encoding what a varint stands for gives that varint back exactly when it was a shortest one. */
  lemma {:induction false} WhenEncodingInverts(head: seq<Byte>)
    requires IsVarint(head)
    ensures Encode(SevenBits(head)) == head <==> Shortest(head)
  {
    EncodeIsVarint(SevenBits(head));
    if Shortest(head) {
      EncodingInverts(head);
    }
  }

  lemma {:induction false} EncodingInverts(head: seq<Byte>)
    requires IsVarint(head) && Shortest(head)
    ensures Encode(SevenBits(head)) == head
    ensures |head| > 1 ==> SevenBits(head) > 0x7f
  {
    var tail := head[1..];
    if |head| == 1 {
      assert SevenBits(tail) == 0;
    } else {
      VarintTail(head);
      EncodingInverts(tail);
      if |tail| == 1 {
        assert SevenBits(tail[1..]) == 0;
      }
      LowSevenBits(head[0], SevenBits(tail));
      assert head == [head[0]] + tail;
    }
  }

  lemma {:induction false} LowSevenBits(b: Byte, m: nat)
    requires b > 0x7f && m > 0
    ensures var n := b % 0x80 + 0x80 * m; n > 0x7f && 0x80 + n % 0x80 == b && n / 0x80 == m
  {
  }

  /** Zero padded to two bytes decodes, though no encoding looks like it. */
  lemma {:induction false} PaddedZero()
    ensures Decode([0x80, 0x00]) == Some((0, [])) && Encode(0) != [0x80, 0x00]
  {
    assert [0x80, 0x00][1..] == [0x00];
    assert Decode([0x00]) == Some((0, []));
  }

  // ----- the loops -----

  method VarintEncode(n: int) returns (result: seq<Byte>)
    ensures result == Encode(n)
  {
    result := [];
    var rest := n;
    while rest > 0x7f
      invariant Encode(n) == result + Encode(rest)
      decreases rest
    {
      result := result + [0x80 + rest % 0x80];
      rest := rest / 0x80;
    }
    result := result + [rest % 0x80];
  }

  lemma {:induction false} DecodeFrom(buf: seq<Byte>, i: nat)
    requires i < |buf|
    ensures Decode(buf[i..]) ==
            if buf[i] <= 0x7f then Some((buf[i], buf[i + 1..]))
            else Continue(buf[i] % 0x80, 0x80, Decode(buf[i + 1..]))
  {
    assert buf[i..][0] == buf[i] && buf[i..][1..] == buf[i + 1..];
  }

  /** None stands for the index error at the end of the buffer. */
  method VarintDecode(buf: seq<Byte>) returns (r: Option<(nat, seq<Byte>)>)
    ensures r == Decode(buf)
  {
    var result, i := 0, 0;
    while true
      invariant 0 <= i <= |buf| && 0 <= result
      invariant Decode(buf) == Continue(result, Pow(2, 7 * i), Decode(buf[i..]))
      decreases |buf| - i
    {
      if i == |buf| {
        return None;
      }
      var weight := Pow(2, 7 * i);
      DecodeFrom(buf, i);
      if buf[i] <= 0x7f {
        break;
      }
      NextWeight(i);
      ContinueStep(result, weight, buf[i] % 0x80, Decode(buf[i + 1..]));
      result := result + buf[i] % 0x80 * weight;
      i := i + 1;
    }
    result := result + buf[i] * Pow(2, 7 * i);
    i := i + 1;
    return Some((result, buf[i..]));
  }

  /** The decoded tail with the part that is already read put below it. */
  function Continue(low: nat, weight: nat, tail: Option<(nat, seq<Byte>)>): Option<(nat, seq<Byte>)> {
    match tail
    case None => None
    case Some(t) => Some((low + t.0 * weight, t.1))
  }

  lemma {:induction false} NextWeight(i: nat)
    ensures Pow(2, 7 * (i + 1)) == 0x80 * Pow(2, 7 * i)
  {
    PowAdd(2, 7, 7 * i);
    assert Pow(2, 7) == 0x80;
  }

  lemma {:induction false} ContinueStep(low: nat, weight: nat, digit: nat, tail: Option<(nat, seq<Byte>)>)
    ensures 0 <= digit * weight
    ensures Continue(low, weight, Continue(digit, 0x80, tail)) == Continue(low + digit * weight, 0x80 * weight, tail)
  {
    if tail.Some? {
      Distribute(digit, tail.value.0, weight);
    }
  }

  lemma {:induction false} Distribute(digit: int, t: int, weight: int)
    ensures (digit + t * 0x80) * weight == digit * weight + t * (0x80 * weight)
  {
    MulAssoc(t, 0x80, weight);
  }

  // ----- frames -----

  /** zlib: decompressing may fail. */
  datatype Codec = Codec(compress: seq<Byte> -> seq<Byte>, decompress: seq<Byte> -> Option<seq<Byte>>)
  {
    ghost predicate Inverts() {
      forall data :: decompress(compress(data)) == Some(data)
    }
  }

  function Frame(codec: Codec, payload: seq<Byte>): seq<Byte> {
    codec.compress(Encode(|payload|) + payload)
  }

  /** What the receiver hands to the message parser. */
  function Unframe(codec: Codec, data: seq<Byte>): Option<seq<Byte>> {
    match codec.decompress(data)
    case None => None
    case Some(body) => match Decode(body) { case None => None case Some(r) => Some(r.1) }
  }

  /** The receiver recovers every payload. */
  lemma {:induction false} FrameRoundTrip(codec: Codec, payload: seq<Byte>)
    requires codec.Inverts()
    ensures Unframe(codec, Frame(codec, payload)) == Some(payload)
  {
    var body := Encode(|payload|) + payload;
    assert codec.decompress(codec.compress(body)) == Some(body);
    RoundTrip(|payload|, payload);
  }

  /** What is sent announces the length of the payload that follows. */
  lemma {:induction false} FrameAnnounces(codec: Codec, payload: seq<Byte>)
    requires codec.Inverts()
    ensures codec.decompress(Frame(codec, payload)).Some?
    ensures Decode(codec.decompress(Frame(codec, payload)).value) == Some((|payload|, payload))
  {
    var body := Encode(|payload|) + payload;
    assert codec.decompress(codec.compress(body)) == Some(body);
    RoundTrip(|payload|, payload);
  }

  /** The announced length is dropped: a frame announcing any length yields its payload. */
  lemma {:induction false} LengthIsIgnored(codec: Codec, n: nat, payload: seq<Byte>)
    requires codec.Inverts()
    ensures Unframe(codec, codec.compress(Encode(n) + payload)) == Some(payload)
  {
    var body := Encode(n) + payload;
    assert codec.decompress(codec.compress(body)) == Some(body);
    RoundTrip(n, payload);
  }

  /** Two payloads never share a frame. */
  lemma {:induction false} FrameInjective(codec: Codec, a: seq<Byte>, b: seq<Byte>)
    requires codec.Inverts() && Frame(codec, a) == Frame(codec, b)
    ensures a == b
  {
    FrameRoundTrip(codec, a);
    FrameRoundTrip(codec, b);
  }

  /** One end of a connection: the bytes its peer sent before closing, and the bytes sent to the peer. */
  class Socket {
    var incoming: seq<Byte>
    var outgoing: seq<Byte>

    constructor (incoming: seq<Byte>)
      ensures this.incoming == incoming && outgoing == []
    {
      this.incoming := incoming;
      outgoing := [];
    }

    /** Gives some bytes, as many as the network likes up to the limit, and none only after the last. */
    method Recv(limit: nat) returns (chunk: seq<Byte>)
      requires 0 < limit
      modifies this`incoming
      ensures old(incoming) == chunk + incoming
      ensures |chunk| <= limit
      ensures chunk == [] <==> old(incoming) == []
    {
      var size := 0;
      if incoming != [] {
        size :| 0 < size <= |incoming| && size <= limit;
      }
      chunk := incoming[..size];
      incoming := incoming[size..];
    }

    method SendAll(data: seq<Byte>)
      modifies this`outgoing
      ensures outgoing == old(outgoing) + data
    {
      outgoing := outgoing + data;
    }

    /** Collects the chunks up to the end of the stream, however the network splits it. */
    method GetMessage(codec: Codec) returns (payload: Option<seq<Byte>>)
      modifies this`incoming
      ensures incoming == [] && payload == Unframe(codec, old(incoming))
    {
      var data: seq<Byte> := [];
      while true
        invariant data + incoming == old(incoming)
        decreases |incoming|
      {
        var buf := Recv(RECEIVE_SIZE);
        if buf == [] {
          break;
        }
        data := data + buf;
      }
      assert data == old(incoming);
      var body := codec.decompress(data);
      match body
      case None => payload := None;
      case Some(bytes) =>
        var decoded := VarintDecode(bytes);
        payload := match decoded { case None => None case Some(r) => Some(r.1) };
    }

    method SendMessage(codec: Codec, payload: seq<Byte>)
      modifies this`outgoing
      ensures outgoing == old(outgoing) + Frame(codec, payload)
    {
      var packedLength := VarintEncode(|payload|);
      SendAll(codec.compress(packedLength + payload));
    }
  }

  /** A message sent on a fresh connection arrives, for every payload and every way the network splits it. */
  method Transfer(codec: Codec, payload: seq<Byte>) returns (received: Option<seq<Byte>>)
    requires codec.Inverts()
    ensures received == Some(payload)
  {
    var sender := new Socket([]);
    sender.SendMessage(codec, payload);
    var receiver := new Socket(sender.outgoing);
    received := receiver.GetMessage(codec);
    assert [] + Frame(codec, payload) == Frame(codec, payload);
    FrameRoundTrip(codec, payload);
  }
}
