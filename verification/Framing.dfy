/** Packet protocols (src/arpc/packet_protocols.h) and the MAC codec
    (src/arpc/packet_codecs.cpp).  The keyed 64-bit hash is an arbitrary function. */
module Framing {
  import opened Results
  import opened Streams
  import opened Variant
  import Cobs

  type uint64 = x: int | 0 <= x < 0x1_0000_0000_0000_0000
  type Hash = seq<byte> -> uint64

  // ----- MAC -----

  /** The `n` low bytes of `x`, least significant first. */
  function LowBytes(x: nat, n: nat): (bs: seq<byte>)
    ensures |bs| == n
  {
    if n == 0 then [] else [x % 256] + LowBytes(x / 256, n - 1)
  }

  lemma LowBytesStep(x: nat, n: nat)
    ensures n > 0 ==> LowBytes(x, n) == [x % 256] + LowBytes(x / 256, n - 1)
    ensures n == 0 ==> LowBytes(x, n) == []
  {
  }

  function Power256(k: nat): (p: nat)
    ensures p > 0
  {
    if k == 0 then 1 else 256 * Power256(k - 1)
  }

  /** Byte `k` counts `256` to the power of `k`. */
  lemma {:induction false} LowBytesAt(x: nat, n: nat, k: nat)
    requires k < n
    ensures LowBytes(x, n)[k] == x / Power256(k) % 256
    decreases n
  {
    if k > 0 {
      LowBytesAt(x / 256, n - 1, k - 1);
      DivideTwice(x, Power256(k - 1));
    }
  }

  lemma DivideTwice(x: nat, p: nat)
    requires p > 0
    ensures x / (256 * p) == x / 256 / p
  {
    var q, r := x / 256, x % 256;
    var a, b := q / p, q % p;
    assert x == 256 * (a * p + b) + r == a * (256 * p) + (256 * b + r);
    assert 256 * b + r < 256 * p;
    QuotientIs(x, 256 * p, a, 256 * b + r);
  }

  lemma QuotientIs(x: nat, d: nat, q: nat, r: nat)
    requires d > 0 && r < d && x == q * d + r
    ensures x / d == q
  {
    assert (q - x / d) * d == x % d - r;
    NoMultipleBetween(q - x / d, d);
  }

  lemma NoMultipleBetween(k: int, d: nat)
    requires d > 0
    ensures k >= 1 ==> k * d >= d
    ensures k <= -1 ==> k * d + d <= 0
  {
  }

  function Sealed(h: Hash, data: seq<byte>): seq<byte> {
    data + LowBytes(h(data), 8)
  }

  function Unsealed(h: Hash, data: seq<byte>): Result<seq<byte>> {
    if |data| < 8 then Err(DataMismatch)
    else if data[|data| - 8..] != LowBytes(h(data[..|data| - 8]), 8) then Err(DataMismatch)
    else Ok(data[..|data| - 8])
  }

  /** MAC decoding succeeds exactly on MAC encodings, and inverts them. */
  lemma UnsealExactlySealed(h: Hash, sealed: seq<byte>, data: seq<byte>)
    ensures Unsealed(h, sealed) == Ok(data) <==> sealed == Sealed(h, data)
    ensures Unsealed(h, sealed).Err? ==> Unsealed(h, sealed).error == DataMismatch
  {
    if |sealed| >= 8 {
      var n := |sealed| - 8;
      assert sealed == sealed[..n] + sealed[n..];
    }
    var s := Sealed(h, data);
    assert s[..|data|] == data && s[|data|..] == LowBytes(h(data), 8);
  }

  class MacCodec {
    const hash: Hash

    constructor (hash: Hash)
      ensures this.hash == hash
    {
      this.hash := hash;
    }

    method Encode(data: ByteString)
      modifies data
      ensures data.Contents() == Sealed(hash, old(data.Contents())) && fresh(data.chars)
      ensures data.chars.Length == old(data.chars.Length) + 8
      ensures forall k: nat :: k < 8 ==>
        data.chars[old(data.chars.Length) + k] == hash(old(data.Contents())) / Power256(k) % 256
    {
      hide LowBytes;
      ghost var original := data.Contents();
      var hash: nat := hash(data.chars[..]);
      ghost var h0, pushed := hash, [];
      for i := 0 to 8
        invariant data.Contents() == original + pushed
        invariant pushed + LowBytes(hash, 8 - i) == LowBytes(h0, 8)
        invariant i > 0 ==> fresh(data.chars)
      {
        LowBytesStep(hash, 8 - i);
        pushed := pushed + [hash % 256];
        data.PushBack(hash % 256);
        hash := hash / 256;
      }
      LowBytesStep(hash, 0);
      assert pushed + [] == pushed;
      forall k: nat | k < 8 ensures data.Contents()[|original| + k] == h0 / Power256(k) % 256 {
        LowBytesAt(h0, 8, k);
      }
    }

    method Decode(data: ByteString) returns (r: Result<()>)
      modifies data
      ensures r.Ok? ==> Unsealed(hash, old(data.Contents())) == Ok(data.Contents()) && fresh(data.chars)
      ensures r.Err? ==> Unsealed(hash, old(data.Contents())) == Err(r.error)
    {
      hide LowBytes;
      ghost var sealed := data.Contents();
      if data.chars.Length < 8 {
        return Err(DataMismatch);
      }
      var originalSize := data.chars.Length - 8;
      var matches := TagMatches(data.chars, originalSize, hash(data.chars[..originalSize]));
      if !matches {
        return Err(DataMismatch);
      }
      data.Resize(originalSize);
      assert data.Contents() == sealed[..originalSize];
      return Ok(());
    }
  }

  /** Compares the last eight bytes with the hash, low byte first, stopping at a mismatch. */
  method TagMatches(chars: array<byte>, offset: nat, hash0: nat) returns (matches: bool)
    requires offset + 8 == chars.Length
    ensures matches <==> chars[offset..] == LowBytes(hash0, 8)
  {
    hide LowBytes;
    var hash := hash0;
    ghost var tag := chars[offset..];
    for i := 0 to 8
      invariant LowBytes(hash0, 8) == tag[..i] + LowBytes(hash, 8 - i)
    {
      LowBytesStep(hash, 8 - i);
      assert LowBytes(hash0, 8)[i] == hash % 256;
      if chars[offset + i] != hash % 256 {
        assert tag[i] != LowBytes(hash0, 8)[i];
        return false;
      }
      assert tag[..i + 1] == tag[..i] + [tag[i]];
      hash := hash / 256;
    }
    LowBytesStep(hash, 0);
    assert tag[..8] + [] == tag;
    return true;
  }

  // ----- Serial line: MAC, then COBS, then a zero -----

  function Frame(h: Hash, packet: seq<byte>): seq<byte> {
    Cobs.Encoded(Sealed(h, packet)) + [0]
  }

  /** Reads up to the next zero: the bytes before it (or the error), and what is left. */
  function Delimited(stream: seq<byte>, room: nat): (Result<seq<byte>>, seq<byte>) {
    if stream == [] then (Err(Eof), [])
    else if stream[0] == 0 then (Ok([]), stream[1..])
    else if room == 0 then (Err(OutOfRange), stream[1..])
    else
      var (r, rest) := Delimited(stream[1..], room - 1);
      (match r case Ok(p) => Ok([stream[0]] + p) case Err(e) => Err(e), rest)
  }

  function Opened(h: Hash, encoded: seq<byte>): Result<seq<byte>> {
    match Cobs.Decoded(encoded)
    case Err(e) => Err(e)
    case Ok(sealed) => Unsealed(h, sealed)
  }

  /** serial_line_packet_protocol::receive: the packet or error, and the unread stream. */
  function Received(h: Hash, max: nat, stream: seq<byte>): (Result<seq<byte>>, seq<byte>) {
    var (r, rest) := Delimited(stream, max);
    (match r case Ok(p) => Opened(h, p) case Err(e) => Err(e), rest)
  }

  lemma {:induction false} DelimitedAt(bytes: seq<byte>, rest: seq<byte>, room: nat)
    requires forall i :: 0 <= i < |bytes| ==> bytes[i] != 0
    ensures |bytes| <= room ==> Delimited(bytes + [0] + rest, room) == (Ok(bytes), rest)
    ensures |bytes| > room ==> Delimited(bytes + [0] + rest, room) == (Err(OutOfRange), bytes[room + 1..] + [0] + rest)
  {
    var stream := bytes + [0] + rest;
    if bytes == [] {
      assert stream[1..] == rest;
    } else {
      assert stream[1..] == bytes[1..] + [0] + rest;
      if room == 0 {
      } else {
        DelimitedAt(bytes[1..], rest, room - 1);
        assert [bytes[0]] + bytes[1..] == bytes;
        if |bytes| > room {
          assert bytes[1..][room..] == bytes[room + 1..];
        }
      }
    }
  }

  /** A line that ends without a zero is the end of the file. */
  lemma {:induction false} NeverDelimited(stream: seq<byte>, room: nat)
    requires |stream| <= room && forall i :: 0 <= i < |stream| ==> stream[i] != 0
    ensures Delimited(stream, room) == (Err(Eof), [])
  {
    if stream != [] {
      NeverDelimited(stream[1..], room - 1);
    }
  }

  /** How the errors of receive come about: the end of the file before any zero, a line longer than
      the limit, and otherwise the error of the COBS decoder or a MAC that does not match. */
  lemma ReceiveRefuses(h: Hash, max: nat, line: seq<byte>, rest: seq<byte>)
    requires forall i :: 0 <= i < |line| ==> line[i] != 0
    ensures |line| <= max ==> Received(h, max, line) == (Err(Eof), [])
    ensures |line| > max ==> Received(h, max, line + [0] + rest) == (Err(OutOfRange), line[max + 1..] + [0] + rest)
    ensures |line| <= max ==> Received(h, max, line + [0] + rest).1 == rest
    ensures |line| <= max && Cobs.Decoded(line).Err? ==>
      Received(h, max, line + [0] + rest).0 == Err(Cobs.Decoded(line).error)
    ensures |line| <= max && Cobs.Decoded(line).Ok? && (forall data :: Cobs.Decoded(line).value != Sealed(h, data)) ==>
      Received(h, max, line + [0] + rest).0 == Err(DataMismatch)
  {
    hide Cobs.Decoded, Delimited, Unsealed, Sealed;
    DelimitedAt(line, rest, max);
    if |line| <= max {
      NeverDelimited(line, max);
      if Cobs.Decoded(line).Ok? {
        var d := Cobs.Decoded(line).value;
        var u := Unsealed(h, d);
        UnsealExactlySealed(h, d, if u.Ok? then u.value else []);
      }
    }
  }

  /** What is sent is received, and nothing behind it is touched, exactly when the encoded
      packet fits the receiver's limit. */
  lemma SendThenReceive(h: Hash, max: nat, packet: seq<byte>, rest: seq<byte>)
    ensures Received(h, max, Frame(h, packet) + rest) == (Ok(packet), rest)
       <==> |Frame(h, packet)| - 1 <= max
  {
    hide Cobs.Encoded, Cobs.Decoded, Delimited, Unsealed;
    var sealed := Sealed(h, packet);
    Cobs.EncodedHasNoZero(sealed);
    DelimitedAt(Cobs.Encoded(sealed), rest, max);
    Cobs.DecodeEncode(sealed);
    UnsealExactlySealed(h, sealed, packet);
  }

  class SerialLineProtocol {
    const mac: MacCodec
    const maxPacketSize: nat

    constructor (mac: MacCodec, maxPacketSize: nat)
      ensures this.mac == mac && this.maxPacketSize == maxPacketSize
    {
      this.mac := mac;
      this.maxPacketSize := maxPacketSize;
    }

    method Send(out: OutputStream, data: seq<byte>)
      modifies out
      ensures out.data == old(out.data) + Frame(mac.hash, data)
    {
      hide Cobs.Encoded, Sealed;
      var packet := new ByteString(data);
      mac.Encode(packet);
      Cobs.Encode(packet);
      out.Write(packet.chars[..]);
      out.Putc(0);
    }

    method Receive(input: InputStream) returns (r: Result<seq<byte>>)
      requires input.Valid() && |input.source| < 0xFFFF_FFFF_FFFF_FFFF
      modifies input
      ensures input.Valid()
      ensures (r, input.Rest()) == Received(mac.hash, maxPacketSize, old(input.Rest()))
    {
      hide Opened;
      var packet := new ByteString([]);
      ghost var read: seq<byte>, start := [], input.Rest();
      AfterNothing(Delimited(start, maxPacketSize));
      while true
        invariant input.Valid() && fresh(packet) && fresh(packet.chars) && packet.Contents() == read
        invariant |read| <= maxPacketSize && |read| <= |input.source|
        invariant |read| + |input.Rest()| <= |input.source|
        invariant Delimited(start, maxPacketSize)
          == After(read, Delimited(input.Rest(), maxPacketSize - |read|))
        decreases |input.Rest()|
      {
        ghost var before := input.Rest();
        var c := input.Getc();
        if c.Err? {
          return Err(Eof);
        }
        if c.value == 0 {
          assert read + [] == read;
          break;
        }
        if packet.chars.Length >= maxPacketSize {
          return Err(OutOfRange);
        }
        packet.PushBack(c.value);
        AfterPush(read, c.value, Delimited(input.Rest(), maxPacketSize - |read| - 1));
        read := read + [c.value];
      }
      r := Open(packet);
    }

    /** The two decoders of receive, in place. */
    method Open(packet: ByteString) returns (r: Result<seq<byte>>)
      requires packet.chars.Length < 0xFFFF_FFFF_FFFF_FFFF
      modifies packet, packet.chars
      ensures r == Opened(mac.hash, old(packet.Contents()))
    {
      hide Cobs.Decoded, Unsealed;
      var decoded := Cobs.Decode(packet);
      if decoded.Err? {
        return Err(decoded.error);
      }
      var unsealed := mac.Decode(packet);
      if unsealed.Err? {
        return Err(unsealed.error);
      }
      return Ok(packet.chars[..]);
    }
  }

  ghost function After(read: seq<byte>, tail: (Result<seq<byte>>, seq<byte>)): (Result<seq<byte>>, seq<byte>) {
    (match tail.0 case Ok(p) => Ok(read + p) case Err(e) => Err(e), tail.1)
  }

  lemma AfterNothing(tail: (Result<seq<byte>>, seq<byte>))
    ensures After([], tail) == tail
  {
    assert tail.0.Ok? ==> [] + tail.0.value == tail.0.value;
  }

  lemma AfterPush(read: seq<byte>, b: byte, tail: (Result<seq<byte>>, seq<byte>))
    ensures After(read, After([b], tail)) == After(read + [b], tail)
  {
    if tail.0.Ok? {
      assert read + ([b] + tail.0.value) == read + [b] + tail.0.value;
    }
  }

  // ----- Length-prefixed packets (protected_stream_packet_protocol) -----

  function StreamFrame(packet: seq<byte>): seq<byte> {
    VariantBytes(|packet|) + packet
  }

  function StreamReceived(rd: Reader, stream: seq<byte>): Result<(seq<byte>, seq<byte>)> {
    var (n, rest) :- ReadVariant(rd, stream);
    Take(rest, n)
  }

  /** The length prefix is read back reversed, so a packet survives exactly when the base-128
      digits of its length form a palindrome; with the repaired reader every packet does. */
  lemma StreamRoundTrip(rd: Reader, packet: seq<byte>, rest: seq<byte>)
    requires |packet| < SIZE_T_LIMIT
    ensures StreamReceived(rd, StreamFrame(packet) + rest) == Ok((packet, rest))
       <==> Readable(rd, |packet|)
  {
    hide VariantBytes, ReadVariant, Digits, Value, Reversed, Palindrome;
    var n := |packet|;
    assert StreamFrame(packet) + rest == VariantBytes(n) + (packet + rest);
    assert Take(packet + rest, n) == Ok((packet, rest)) by {
      assert (packet + rest)[..n] == packet && (packet + rest)[n..] == rest;
    }
    if Readable(rd, n) {
      ReadableRoundTrip(rd, n, packet + rest);
    } else {
      RoundTripExactlyPalindromes(n, packet + rest);
      ReadBackIsDigitReversal(n, packet + rest);
    }
  }

  /** What the receiver takes for the packet: as many of the bytes that follow the prefix as the
      reversed digits of the length say. */
  lemma StreamMisread(packet: seq<byte>, rest: seq<byte>)
    requires |packet| < SIZE_T_LIMIT
    ensures StreamReceived(AsWritten, StreamFrame(packet) + rest)
         == Take(packet + rest, Wrap(Value(Reversed(Digits(|packet|)))))
  {
    hide VariantBytes, ReadVariant, Digits, Value, Reversed, Wrap, Take;
    var l := |packet|;
    assert StreamFrame(packet) + rest == VariantBytes(l) + (packet + rest);
    ReadBackIsDigitReversal(l, packet + rest);
  }

  /** 385 is 1 + 3 * 128 and reads back as 3 + 1 * 128: a packet of that length is accepted as its
      first 131 bytes, and its other 254 bytes are left to be read as further packets. */
  lemma Packet385IsCutShort(packet: seq<byte>, rest: seq<byte>)
    requires |packet| == 385
    ensures StreamReceived(AsWritten, StreamFrame(packet) + rest) == Ok((packet[..131], packet[131..] + rest))
  {
    hide VariantBytes, ReadVariant;
    StreamMisread(packet, rest);
    assert Digits(385) == [1, 3];
    assert Reversed([1, 3]) == [3, 1];
    assert Value([3, 1]) == 3 + 128 * Value([1]) == 131;
    assert (packet + rest)[..131] == packet[..131] && (packet + rest)[131..] == packet[131..] + rest;
  }

  lemma RepairedReadsAll(l: nat)
    requires l < SIZE_T_LIMIT
    ensures Readable(Repaired, l)
  {
  }

  // ----- Either protocol -----

  datatype Protocol = LengthPrefixed(rd: Reader) | SerialLine(h: Hash, max: nat)

  function FrameOf(pr: Protocol, packet: seq<byte>): seq<byte> {
    match pr
    case LengthPrefixed(_) => StreamFrame(packet)
    case SerialLine(h, _) => Frame(h, packet)
  }

  /** The next packet and what is left behind it, or the error. */
  function ReceiveFrom(pr: Protocol, stream: seq<byte>): Result<(seq<byte>, seq<byte>)> {
    match pr
    case LengthPrefixed(rd) => StreamReceived(rd, stream)
    case SerialLine(h, max) =>
      match Received(h, max, stream)
      case (Err(e), _) => Err(e)
      case (Ok(packet), rest) => Ok((packet, rest))
  }

  /** What a sender can check: the length is readable, or the frame fits the receiver's limit. */
  predicate Deliverable(pr: Protocol, packet: seq<byte>) {
    match pr
    case LengthPrefixed(rd) => Readable(rd, |packet|)
    case SerialLine(h, max) => |Frame(h, packet)| - 1 <= max
  }

  /** A packet arrives, in front of whatever follows, if and only if it is deliverable. */
  lemma ArrivesExactly(pr: Protocol, packet: seq<byte>, rest: seq<byte>)
    requires |packet| < SIZE_T_LIMIT
    ensures ReceiveFrom(pr, FrameOf(pr, packet) + rest) == Ok((packet, rest)) <==> Deliverable(pr, packet)
    ensures !Deliverable(pr, packet) ==>
      match ReceiveFrom(pr, FrameOf(pr, packet) + rest) case Err(_) => true case Ok((other, _)) => other != packet
  {
    hide StreamFrame, StreamReceived, Frame, Received, Readable, Cobs.Encoded, Delimited, Digits, Value, Reversed, Wrap, VariantBytes;
    match pr
    case LengthPrefixed(rd) =>
      StreamRoundTrip(rd, packet, rest);
      if !Readable(rd, |packet|) {
        match rd {
          case AsWritten => StreamLost(packet, rest);
          case Repaired => RepairedReadsAll(|packet|);
        }
      }
    case SerialLine(h, max) =>
      SendThenReceive(h, max, packet, rest);
      if |Frame(h, packet)| - 1 > max {
        SerialLost(h, max, packet, rest);
      }
  }

  lemma StreamLost(packet: seq<byte>, rest: seq<byte>)
    requires |packet| < SIZE_T_LIMIT && !Readable(AsWritten, |packet|)
    ensures match StreamReceived(AsWritten, StreamFrame(packet) + rest) case Err(_) => true case Ok((other, _)) => other != packet
  {
    hide StreamFrame, StreamReceived, Digits, Value, Reversed, Wrap, VariantBytes, ReadVariant, Palindrome;
    StreamMisread(packet, rest);
    RoundTripExactlyPalindromes(|packet|, packet + rest);
    ReadBackIsDigitReversal(|packet|, packet + rest);
  }

  lemma SerialLost(h: Hash, max: nat, packet: seq<byte>, rest: seq<byte>)
    requires |Frame(h, packet)| - 1 > max
    ensures Received(h, max, Frame(h, packet) + rest).0 == Err(OutOfRange)
  {
    hide Cobs.Encoded, Cobs.Decoded, Delimited;
    Cobs.EncodedHasNoZero(Sealed(h, packet));
    DelimitedAt(Cobs.Encoded(Sealed(h, packet)), rest, max);
  }

  function Frames(pr: Protocol, packets: seq<seq<byte>>): seq<byte> {
    if packets == [] then [] else FrameOf(pr, packets[0]) + Frames(pr, packets[1..])
  }

  /** `n` calls of receive; None if any of them fails. */
  function ReceiveMany(pr: Protocol, stream: seq<byte>, n: nat): Option<(seq<seq<byte>>, seq<byte>)>
    decreases n
  {
    if n == 0 then Some(([], stream))
    else
      match ReceiveFrom(pr, stream)
      case Err(_) => None
      case Ok((p, rest)) =>
        match ReceiveMany(pr, rest, n - 1)
        case None => None
        case Some((ps, end)) => Some(([p] + ps, end))
  }

  /** Packets sent back to back are received as the same list, with exactly what follows left
      over, if and only if every one of them is deliverable. */
  lemma {:induction false} BackToBack(pr: Protocol, packets: seq<seq<byte>>, rest: seq<byte>)
    requires forall i :: 0 <= i < |packets| ==> |packets[i]| < SIZE_T_LIMIT
    ensures ReceiveMany(pr, Frames(pr, packets) + rest, |packets|) == Some((packets, rest))
       <==> forall i :: 0 <= i < |packets| ==> Deliverable(pr, packets[i])
  {
    hide FrameOf, ReceiveFrom, Deliverable;
    if packets == [] {
      assert [] + rest == rest;
    } else {
      var more := Frames(pr, packets[1..]) + rest;
      assert Frames(pr, packets) + rest == FrameOf(pr, packets[0]) + more;
      ArrivesExactly(pr, packets[0], more);
      BackToBack(pr, packets[1..], rest);
      assert [packets[0]] + packets[1..] == packets;
      assert (forall i :: 0 <= i < |packets| ==> Deliverable(pr, packets[i]))
        <==> Deliverable(pr, packets[0]) && forall i :: 0 <= i < |packets[1..]| ==> Deliverable(pr, packets[1..][i]);
      if !Deliverable(pr, packets[0]) {
        FirstLost(pr, packets, more, rest);
      }
    }
  }

  lemma FirstLost(pr: Protocol, packets: seq<seq<byte>>, more: seq<byte>, rest: seq<byte>)
    requires packets != []
    requires match ReceiveFrom(pr, FrameOf(pr, packets[0]) + more) case Err(_) => true case Ok((other, _)) => other != packets[0]
    ensures ReceiveMany(pr, FrameOf(pr, packets[0]) + more, |packets|) != Some((packets, rest))
  {
    hide FrameOf, ReceiveFrom;
    var got := ReceiveMany(pr, FrameOf(pr, packets[0]) + more, |packets|);
    assert got.Some? ==> |got.value.0| > 0 && got.value.0[0] == ReceiveFrom(pr, FrameOf(pr, packets[0]) + more).value.0;
  }

  // ----- A cut connection -----

  lemma {:induction false} FoldMore(rd: Reader, a: seq<byte>, b: seq<byte>, acc: nat, w: nat)
    requires Fold(rd, a, acc, w).Ok?
    ensures var (v, left) := Fold(rd, a, acc, w).value; Fold(rd, a + b, acc, w) == Ok((v, left + b))
    decreases |a|
  {
    hide Variant.Step, Wrap;
    assert (a + b)[0] == a[0] && (a + b)[1..] == a[1..] + b;
    if a[0] >= 128 {
      FoldMore(rd, a[1..], b, Variant.Step(rd, acc, w, a[0]), Wrap(w * 128));
    }
  }

  lemma {:induction false} DelimitedMore(a: seq<byte>, b: seq<byte>, room: nat)
    requires Delimited(a, room).0.Ok?
    ensures Delimited(a + b, room) == (Delimited(a, room).0, Delimited(a, room).1 + b)
    decreases |a|
  {
    assert (a + b)[0] == a[0] && (a + b)[1..] == a[1..] + b;
    if a[0] != 0 {
      DelimitedMore(a[1..], b, room - 1);
    }
  }

  /** What is received does not depend on what has not arrived yet. */
  lemma ReceiveMore(pr: Protocol, a: seq<byte>, b: seq<byte>)
    requires ReceiveFrom(pr, a).Ok?
    ensures var (packet, left) := ReceiveFrom(pr, a).value; ReceiveFrom(pr, a + b) == Ok((packet, left + b))
  {
    hide Fold, Delimited, Opened;
    match pr
    case LengthPrefixed(rd) =>
      FoldMore(rd, a, b, 0, 1);
      var (n, rest) := ReadVariant(rd, a).value;
      assert (rest + b)[..n] == rest[..n] && (rest + b)[n..] == rest[n..] + b;
    case SerialLine(h, max) => DelimitedMore(a, b, max);
  }

  lemma Arrives(pr: Protocol, packet: seq<byte>, rest: seq<byte>)
    requires Deliverable(pr, packet)
    ensures ReceiveFrom(pr, FrameOf(pr, packet) + rest) == Ok((packet, rest))
  {
    hide StreamFrame, StreamReceived, Frame, Received, Digits, Palindrome;
    match pr
    case LengthPrefixed(rd) => StreamRoundTrip(rd, packet, rest);
    case SerialLine(h, max) => SendThenReceive(h, max, packet, rest);
  }

  /** When a line carried the frames of deliverable packets and was cut anywhere, the next packet
      received is the first one sent, and what is left is a cut line with the others. */
  lemma CutLine(pr: Protocol, packets: seq<seq<byte>>, line: seq<byte>)
    requires forall i :: 0 <= i < |packets| ==> Deliverable(pr, packets[i])
    requires line <= Frames(pr, packets) && ReceiveFrom(pr, line).Ok?
    ensures packets != [] && ReceiveFrom(pr, line).value.0 == packets[0]
    ensures ReceiveFrom(pr, line).value.1 <= Frames(pr, packets[1..])
    ensures line == Frames(pr, packets) ==> ReceiveFrom(pr, line).value.1 == Frames(pr, packets[1..])
  {
    hide ReceiveFrom, FrameOf, Deliverable;
    if packets == [] {
      NothingFrom(pr);
    } else {
      var (packet, left) := ReceiveFrom(pr, line).value;
      var missing := Frames(pr, packets)[|line|..];
      assert line + missing == Frames(pr, packets);
      ReceiveMore(pr, line, missing);
      Arrives(pr, packets[0], Frames(pr, packets[1..]));
      assert left + missing == Frames(pr, packets[1..]);
    }
  }

  lemma NothingFrom(pr: Protocol)
    ensures ReceiveFrom(pr, []).Err?
  {
  }

  /** Frames are appended as they are sent. */
  lemma {:induction false} FramesSnoc(pr: Protocol, packets: seq<seq<byte>>, packet: seq<byte>)
    ensures Frames(pr, packets + [packet]) == Frames(pr, packets) + FrameOf(pr, packet)
  {
    hide FrameOf;
    if packets == [] {
      assert [] + [packet] == [packet] && [packet][1..] == [];
    } else {
      assert (packets + [packet])[0] == packets[0] && (packets + [packet])[1..] == packets[1..] + [packet];
      FramesSnoc(pr, packets[1..], packet);
    }
  }

  // ----- A damaged serial line -----

  function Zeros(s: seq<byte>): nat {
    if s == [] then 0 else (if s[0] == 0 then 1 else 0) + Zeros(s[1..])
  }

  /** How often `max + 1` bytes fit into `n`. */
  function Stretches(n: nat, max: nat): nat
    decreases n
  {
    if n <= max then 0 else 1 + Stretches(n - max - 1, max)
  }

  /** One call for every zero, and one for every stretch that is too long for a packet. */
  function Budget(damaged: seq<byte>, max: nat): nat {
    Zeros(damaged) + Stretches(|damaged|, max)
  }

  /** The stream after `n` calls of receive, whether they succeed or not. */
  function Unread(h: Hash, max: nat, stream: seq<byte>, n: nat): seq<byte>
    decreases n
  {
    if n == 0 then stream else Unread(h, max, Received(h, max, stream).1, n - 1)
  }

  ghost predicate NoZero(s: seq<byte>) {
    forall i :: 0 <= i < |s| ==> s[i] != 0
  }

  /** `s` up to its first zero. */
  function FirstZero(s: seq<byte>): (k: nat)
    ensures k <= |s| && NoZero(s[..k]) && (k < |s| ==> s[k] == 0)
  {
    if s == [] || s[0] == 0 then 0
    else
      var k := FirstZero(s[1..]);
      assert s[..k + 1] == [s[0]] + s[1..][..k];
      k + 1
  }

  lemma {:induction false} ZerosFrom(s: seq<byte>, k: nat)
    requires k <= |s| && NoZero(s[..k])
    ensures Zeros(s) == Zeros(s[k..])
  {
    if k == 0 {
      assert s[0..] == s;
    } else {
      assert s[0] == s[..k][0] && s[1..][..k - 1] == s[..k][1..] && s[1..][k - 1..] == s[k..];
      ZerosFrom(s[1..], k - 1);
    }
  }

  /** One call never reads beyond a zero, and never more than the limit and one byte. */
  lemma {:induction false} DelimitedOver(bytes: seq<byte>, rest: seq<byte>, room: nat)
    requires NoZero(bytes) && |bytes| == room + 1
    ensures Delimited(bytes + rest, room) == (Err(OutOfRange), rest)
  {
    var stream := bytes + rest;
    assert stream[1..] == bytes[1..] + rest;
    if room > 0 {
      DelimitedOver(bytes[1..], rest, room - 1);
    } else {
      assert bytes[1..] == [];
    }
  }

  lemma {:induction false} StretchesLess(a: nat, b: nat, limit: nat)
    requires b <= a
    ensures Stretches(b, limit) <= Stretches(a, limit)
    decreases a
  {
    if b > limit {
      StretchesLess(a - limit - 1, b - limit - 1, limit);
    }
  }

  /** One receive on a damaged line that contains a zero, or is longer than the limit: it stays
      within the damage and takes away a zero or that many bytes. */
  lemma DamageShrinks(h: Hash, max: nat, damaged: seq<byte>, tail: seq<byte>) returns (less: seq<byte>)
    requires FirstZero(damaged) < |damaged| || |damaged| > max
    ensures Received(h, max, damaged + tail).1 == less + tail
    ensures |less| < |damaged| && Budget(less, max) < Budget(damaged, max)
    ensures less == damaged[|damaged| - |less|..]
  {
    hide Opened, Delimited;
    var k := FirstZero(damaged);
    if k <= max && k < |damaged| {
      less := damaged[k + 1..];
      assert damaged + tail == damaged[..k] + [0] + (less + tail);
      DelimitedAt(damaged[..k], less + tail, max);
      ZerosFrom(damaged, k);
      assert damaged[k..][1..] == less;
      StretchesLess(|damaged|, |less|, max);
    } else {
      less := damaged[max + 1..];
      assert damaged[..max + 1] == damaged[..k][..max + 1];
      assert damaged + tail == damaged[..max + 1] + (less + tail);
      DelimitedOver(damaged[..max + 1], less + tail, max);
      ZerosFrom(damaged, max + 1);
      StretchesLess(|damaged|, |less|, max);
    }
  }

  /** Damage without a delimiter runs into the next frame, which at most two calls use up. */
  lemma DamageMerges(h: Hash, max: nat, damaged: seq<byte>, packet: seq<byte>, tail: seq<byte>) returns (n: nat)
    requires NoZero(damaged) && |damaged| <= max && |Frame(h, packet)| - 1 <= max
    ensures n <= 2 && Unread(h, max, damaged + Frame(h, packet) + tail, n) == tail
  {
    hide Opened, Delimited, Cobs.Encoded, Sealed;
    var encoded := Cobs.Encoded(Sealed(h, packet));
    Cobs.EncodedHasNoZero(Sealed(h, packet));
    var stream, merged := damaged + Frame(h, packet) + tail, damaged + encoded;
    assert stream == merged + [0] + tail;
    DelimitedAt(merged, tail, max);
    var left := Received(h, max, stream).1;
    assert Unread(h, max, stream, 1) == Unread(h, max, left, 0) == left;
    if |merged| <= max {
      n := 1;
    } else {
      n := 2;
      DelimitedAt(merged[max + 1..], tail, max);
      assert Unread(h, max, stream, 2) == Unread(h, max, left, 1) == Unread(h, max, tail, 0) == tail;
    }
  }

  lemma UnreadStep(h: Hash, max: nat, stream: seq<byte>, n: nat)
    ensures Unread(h, max, stream, 0) == stream
    ensures Unread(h, max, stream, n + 1) == Unread(h, max, Received(h, max, stream).1, n)
  {
    hide Received;
  }

  lemma FitsLimit(h: Hash, max: nat, packets: seq<seq<byte>>)
    requires packets != [] && forall i :: 0 <= i < |packets| ==> Deliverable(SerialLine(h, max), packets[i])
    ensures |Frame(h, packets[0])| - 1 <= max
  {
    hide Frame;
    assert Deliverable(SerialLine(h, max), packets[0]);
  }

  lemma FramesStep(pr: Protocol, packets: seq<seq<byte>>)
    requires packets != []
    ensures Frames(pr, packets) == FrameOf(pr, packets[0]) + Frames(pr, packets[1..])
  {
    hide FrameOf;
  }

  /** Whatever bytes take the place of lost frames, zeros and missing delimiters included, at most
      one more packet is lost: after a number of calls bounded by the zeros and the length of the
      damage, the line is again at the start of a frame, and everything from there on arrives.
      If the damage ends with a delimiter, nothing behind it is lost. */
  lemma {:induction false} Resynchronizes(h: Hash, max: nat, damaged: seq<byte>, packets: seq<seq<byte>>, rest: seq<byte>)
    returns (n: nat, lost: nat)
    requires packets != [] && forall i :: 0 <= i < |packets| ==> Deliverable(SerialLine(h, max), packets[i])
    requires forall i :: 0 <= i < |packets| ==> |packets[i]| < SIZE_T_LIMIT
    ensures lost <= 1 && n <= Budget(damaged, max) + 2 * lost
    ensures damaged == [] || damaged[|damaged| - 1] == 0 ==> lost == 0
    ensures var left := Unread(h, max, damaged + Frames(SerialLine(h, max), packets) + rest, n);
      && left == Frames(SerialLine(h, max), packets[lost..]) + rest
      && ReceiveMany(SerialLine(h, max), left, |packets| - lost) == Some((packets[lost..], rest))
    decreases |damaged|
  {
    hide Received, Frame, FirstZero, Budget, Unread, Frames, ReceiveMany, Deliverable;
    var pr := SerialLine(h, max);
    var tail := Frames(pr, packets) + rest;
    assert damaged + Frames(pr, packets) + rest == damaged + tail;
    if damaged == [] {
      n, lost := 0, 0;
      assert damaged + tail == tail && packets[0..] == packets;
      UnreadStep(h, max, tail, 0);
      BackToBack(pr, packets, rest);
    } else if FirstZero(damaged) < |damaged| || |damaged| > max {
      var less := DamageShrinks(h, max, damaged, tail);
      assert less + Frames(pr, packets) + rest == less + tail;
      n, lost := Resynchronizes(h, max, less, packets, rest);
      UnreadStep(h, max, damaged + tail, n);
      n := n + 1;
    } else {
      assert damaged[..|damaged|] == damaged;
      lost := 1;
      FramesStep(pr, packets);
      FitsLimit(h, max, packets);
      n := DamageMerges(h, max, damaged, packets[0], Frames(pr, packets[1..]) + rest);
      assert damaged + Frame(h, packets[0]) + (Frames(pr, packets[1..]) + rest) == damaged + tail;
      BackToBack(pr, packets[1..], rest);
    }
  }

  lemma {:induction false} DelimitedShape(stream: seq<byte>, room: nat, bytes: seq<byte>, rest: seq<byte>)
    requires Delimited(stream, room) == (Ok(bytes), rest)
    ensures stream == bytes + [0] + rest && NoZero(bytes) && |bytes| <= room
  {
    if stream[0] == 0 {
      assert stream == [0] + rest;
    } else {
      DelimitedShape(stream[1..], room - 1, bytes[1..], rest);
      assert bytes == [stream[0]] + bytes[1..];
    }
  }

  /** On any bytes, a packet is accepted only if its encoding with its own tag stands on the line. */
  lemma AcceptedIsSealed(h: Hash, max: nat, stream: seq<byte>, packet: seq<byte>, rest: seq<byte>) returns (bytes: seq<byte>)
    requires Received(h, max, stream) == (Ok(packet), rest)
    ensures stream == bytes + [0] + rest && |bytes| <= max && Cobs.Decoded(bytes) == Ok(Sealed(h, packet))
  {
    hide Cobs.Decoded, Delimited, Unsealed, Sealed;
    bytes := Delimited(stream, max).0.value;
    DelimitedShape(stream, max, bytes, rest);
    UnsealExactlySealed(h, Cobs.Decoded(bytes).value, packet);
  }
}
