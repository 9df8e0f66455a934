/** PS/2 mouse packets: decoding three bytes, and assembling packets from a byte stream. */
module MousePackets {
  import opened Machine
  import opened Framebuffers

  datatype MouseEvent = MouseEvent(dx: int, dy: int, left: bool, right: bool, middle: bool)

  const PACKET_BYTES: nat := 3

  /** Bit `k` of a byte, given the weight of the bit. */
  predicate Bit(b: Byte, weight: nat)
    requires weight > 0
  {
    (b / weight) % 2 == 1
  }

  /** Nine-bit signed motion; y grows downwards on the screen. No event when an overflow bit is set. */
  function DecodePacket(packet: seq<Byte>): (event: Option<MouseEvent>)
    requires |packet| == PACKET_BYTES
    ensures event.Some? ==> Sendable(event.value)
  {
    var flags := packet[0];
    if flags / 64 != 0 then None
    else
      var x: int, y: int := packet[1], packet[2];
      var dx := x - if Bit(flags, 16) then 256 else 0;
      var dy := y - if Bit(flags, 32) then 256 else 0;
      Some(MouseEvent(dx, -dy, Bit(flags, 1), Bit(flags, 2), Bit(flags, 4)))
  }

  predicate Sendable(e: MouseEvent) { -256 <= e.dx <= 255 && -255 <= e.dy <= 256 }

  function Weight(on: bool, weight: nat): nat { if on then weight else 0 }

  /** The packet a mouse sends for an event. */
  function EncodePacket(e: MouseEvent): seq<Byte>
    requires Sendable(e)
  {
    [8 + Weight(e.left, 1) + Weight(e.right, 2) + Weight(e.middle, 4) + Weight(e.dx < 0, 16) + Weight(e.dy > 0, 32),
     if e.dx < 0 then e.dx + 256 else e.dx,
     if e.dy > 0 then 256 - e.dy else -e.dy]
  }

  /** A packet header: bit 3 is set, and neither overflow bit is. */
  predicate IsHeader(b: Byte) { Bit(b, 8) && b / 64 == 0 }

  lemma DecodeEncode(e: MouseEvent)
    requires Sendable(e)
    ensures DecodePacket(EncodePacket(e)) == Some(e) && IsHeader(EncodePacket(e)[0])
  {
  }

  lemma HeaderBits(flags: Byte)
    requires IsHeader(flags)
    ensures flags == Weight(Bit(flags, 1), 1) + Weight(Bit(flags, 2), 2) + Weight(Bit(flags, 4), 4) + 8
                     + Weight(Bit(flags, 16), 16) + Weight(Bit(flags, 32), 32)
  {
  }

  /** A packet with a proper header carries exactly one event: sending that event gives the packet again. */
  lemma EncodeDecode(packet: seq<Byte>)
    requires |packet| == PACKET_BYTES && IsHeader(packet[0])
    ensures DecodePacket(packet).Some? && Sendable(DecodePacket(packet).value)
    ensures EncodePacket(DecodePacket(packet).value) == packet
  {
    HeaderBits(packet[0]);
  }

  /** What the bits of the header mean: three buttons and the signs of the two nine-bit motions, of which the second is
      turned round; an overflow bit spoils the packet whatever the rest says. */
  lemma HeaderMeans(flags: Byte, x: int, y: int, left: bool, right: bool, middle: bool, xSign: bool, ySign: bool,
                    overflow: nat)
    requires 0 <= x < 256 && 0 <= y < 256 && overflow < 4
    requires flags == Weight(left, 1) + Weight(right, 2) + Weight(middle, 4) + 8 + Weight(xSign, 16)
                      + Weight(ySign, 32) + 64 * overflow
    ensures DecodePacket([flags, x, y]) ==
      if overflow != 0 then None
      else Some(MouseEvent(if xSign then x - 256 else x, if ySign then 256 - y else -y, left, right, middle))
  {
  }

  // ------------------------------------------------------------------- the stream

  /** One byte more: a byte that cannot start a packet is skipped where a packet should start. */
  function Feed(pending: seq<Byte>, b: Byte): (seq<Byte>, Option<MouseEvent>)
    requires |pending| < PACKET_BYTES
  {
    if pending == [] && !Bit(b, 8) then ([], None)
    else if |pending| + 1 < PACKET_BYTES then (pending + [b], None)
    else ([], DecodePacket(pending + [b]))
  }

  /** The bytes left over and the events decoded from a stream. */
  function FeedAll(pending: seq<Byte>, bytes: seq<Byte>): (r: (seq<Byte>, seq<MouseEvent>))
    requires |pending| < PACKET_BYTES
    ensures |r.0| < PACKET_BYTES
    decreases |bytes|
  {
    if bytes == [] then (pending, [])
    else
      var (pending', event) := Feed(pending, bytes[0]);
      var (rest, events) := FeedAll(pending', bytes[1..]);
      (rest, Prepend(event, events))
  }

  function Prepend(event: Option<MouseEvent>, events: seq<MouseEvent>): seq<MouseEvent> {
    match event case None => events case Some(e) => [e] + events
  }

  /** An event with bytes before it that cannot start a packet. */
  datatype Sent = Sent(noise: seq<Byte>, event: MouseEvent)

  predicate IsNoise(bytes: seq<Byte>) { forall i :: 0 <= i < |bytes| ==> !Bit(bytes[i], 8) }

  function Stream(sent: seq<Sent>): seq<Byte>
    requires forall i :: 0 <= i < |sent| ==> Sendable(sent[i].event)
  {
    if sent == [] then [] else sent[0].noise + (EncodePacket(sent[0].event) + Stream(sent[1..]))
  }

  function EventsOf(sent: seq<Sent>): seq<MouseEvent> {
    if sent == [] then [] else [sent[0].event] + EventsOf(sent[1..])
  }

  lemma FeedFirst(pending: seq<Byte>, b: Byte, rest: seq<Byte>)
    requires |pending| < PACKET_BYTES
    ensures FeedAll(pending, [b] + rest) ==
            var (pending', event) := Feed(pending, b);
            var (left, events) := FeedAll(pending', rest);
            (left, Prepend(event, events))
  {
    assert ([b] + rest)[1..] == rest;
  }

  lemma {:induction false} NoiseIsSkipped(noise: seq<Byte>, rest: seq<Byte>)
    requires IsNoise(noise)
    ensures FeedAll([], noise + rest) == FeedAll([], rest)
  {
    if noise == [] {
      assert noise + rest == rest;
    } else {
      assert noise + rest == [noise[0]] + (noise[1..] + rest);
      FeedFirst([], noise[0], noise[1..] + rest);
      NoiseIsSkipped(noise[1..], rest);
    }
  }

  lemma PacketIsDecoded(e: MouseEvent, rest: seq<Byte>)
    requires Sendable(e)
    ensures FeedAll([], EncodePacket(e) + rest).0 == FeedAll([], rest).0
    ensures FeedAll([], EncodePacket(e) + rest).1 == [e] + FeedAll([], rest).1
  {
    DecodeEncode(e);
    var p := EncodePacket(e);
    var two, three := [p[1]] + ([p[2]] + rest), [p[2]] + rest;
    assert p + rest == [p[0]] + two;
    FeedFirst([], p[0], two);
    FeedFirst([p[0]], p[1], three);
    FeedFirst([p[0], p[1]], p[2], rest);
    assert [] + [p[0]] == [p[0]] && [p[0]] + [p[1]] == [p[0], p[1]] && [p[0], p[1]] + [p[2]] == p;
  }

  /** A packet with an overflow bit set is used up without an event, and what follows is read as if it had not been
      there. */
  lemma OverflowIsDropped(flags: Byte, x: Byte, y: Byte, rest: seq<Byte>)
    requires Bit(flags, 8) && flags >= 64
    ensures DecodePacket([flags, x, y]) == None
    ensures FeedAll([], [flags, x, y] + rest) == FeedAll([], rest)
  {
    var two, three := [x] + ([y] + rest), [y] + rest;
    assert [flags, x, y] + rest == [flags] + two;
    FeedFirst([], flags, two);
    FeedFirst([flags], x, three);
    FeedFirst([flags, x], y, rest);
    assert [] + [flags] == [flags] && [flags] + [x] == [flags, x] && [flags, x] + [y] == [flags, x, y];
  }

  /** Every event sent arrives, in order, whatever noise precedes the packets. */
  lemma {:induction false} StreamIsDecoded(sent: seq<Sent>)
    requires forall i :: 0 <= i < |sent| ==> Sendable(sent[i].event) && IsNoise(sent[i].noise)
    ensures FeedAll([], Stream(sent)) == ([], EventsOf(sent))
  {
    if sent != [] {
      StreamIsDecoded(sent[1..]);
      PacketIsDecoded(sent[0].event, Stream(sent[1..]));
      NoiseIsSkipped(sent[0].noise, EncodePacket(sent[0].event) + Stream(sent[1..]));
    }
  }

  // ------------------------------------------------------------------- lost bytes

  lemma {:induction false} FeedAllConcat(pending: seq<Byte>, first: seq<Byte>, second: seq<Byte>)
    requires |pending| < PACKET_BYTES
    ensures FeedAll(pending, first + second).0 == FeedAll(FeedAll(pending, first).0, second).0
    ensures FeedAll(pending, first + second).1 == FeedAll(pending, first).1 + FeedAll(FeedAll(pending, first).0, second).1
    decreases |first|
  {
    if first == [] {
      assert first + second == second;
    } else {
      var b, rest := first[0], first[1..];
      assert first + second == [b] + (rest + second) && first == [b] + rest;
      FeedFirst(pending, b, rest + second);
      FeedFirst(pending, b, rest);
      FeedAllConcat(Feed(pending, b).0, rest, second);
    }
  }

  predicate CanStart(bytes: seq<Byte>) { forall i :: 0 <= i < |bytes| ==> Bit(bytes[i], 8) }

  /** As long as every byte could start a packet, nothing tells one place in a packet from another: bytes are only counted. */
  lemma {:induction false} FramingIsCounted(pending: seq<Byte>, bytes: seq<Byte>)
    requires |pending| < PACKET_BYTES && CanStart(bytes)
    ensures |FeedAll(pending, bytes).0| == (|pending| + |bytes|) % PACKET_BYTES
    decreases |bytes|
  {
    if bytes != [] { FramingIsCounted(Feed(pending, bytes[0]).0, bytes[1..]); }
  }

  /** So after a lost byte the parser stays one place behind for as long as such bytes come. */
  lemma {:induction false} LostByteShifts(before: seq<Byte>, lost: Byte, after: seq<Byte>)
    requires CanStart(before + [lost] + after)
    ensures |FeedAll([], before + [lost] + after).0| == (|FeedAll([], before + after).0| + 1) % PACKET_BYTES
  {
    var all := before + [lost] + after;
    assert forall i :: 0 <= i < |before| ==> all[i] == before[i];
    assert forall i :: 0 <= i < |after| ==> all[|before| + 1 + i] == after[i];
    FramingIsCounted([], all);
    FramingIsCounted([], before + after);
  }

  /** Two bytes in a row that cannot start a packet bring the parser to the start of one, wherever it was. */
  lemma TwoPlainBytesRealign(pending: seq<Byte>, x: Byte, y: Byte)
    requires |pending| < PACKET_BYTES && !Bit(x, 8) && !Bit(y, 8)
    ensures FeedAll(pending, [x, y]).0 == []
  {
    assert [x, y] == [x] + [y] && [y] == [y] + [];
    FeedFirst(pending, x, [y]);
    FeedFirst(Feed(pending, x).0, y, []);
  }

  /** Whatever was lost before, one packet whose motion bytes both lack bit 3 is enough: every packet sent after it
      arrives, in order. */
  lemma {:induction false} BackInStep(received: seq<Byte>, e: MouseEvent, sent: seq<Sent>)
    requires Sendable(e) && !Bit(EncodePacket(e)[1], 8) && !Bit(EncodePacket(e)[2], 8)
    requires forall i :: 0 <= i < |sent| ==> Sendable(sent[i].event) && IsNoise(sent[i].noise)
    ensures var upTo := received + EncodePacket(e);
      FeedAll([], upTo + Stream(sent)) == ([], FeedAll([], upTo).1 + EventsOf(sent))
  {
    var p := EncodePacket(e);
    assert received + p == (received + [p[0]]) + [p[1], p[2]];
    FeedAllConcat([], received + [p[0]], [p[1], p[2]]);
    TwoPlainBytesRealign(FeedAll([], received + [p[0]]).0, p[1], p[2]);
    FeedAllConcat([], received + p, Stream(sent));
    StreamIsDecoded(sent);
  }

  class PacketState {
    const bytes: array<Byte>
    var index: nat

    ghost predicate Valid()
      reads this
    {
      bytes.Length == PACKET_BYTES && index < PACKET_BYTES
    }

    constructor ()
      ensures Valid() && index == 0 && fresh(bytes)
    {
      bytes := new Byte[PACKET_BYTES](_ => 0);
      index := 0;
    }

    method Poll(byte: Byte) returns (event: Option<MouseEvent>)
      requires Valid()
      modifies this, bytes
      ensures Valid() && (bytes[..index], event) == Feed(old(bytes[..index]), byte)
    {
      if index == 0 && !Bit(byte, 8) {
        return None;
      }
      ghost var pending := bytes[..index];
      bytes[index] := byte;
      index := index + 1;
      assert bytes[..index] == pending + [byte];
      if index < PACKET_BYTES {
        return None;
      }
      index := 0;
      assert bytes[..] == bytes[..PACKET_BYTES];
      return DecodePacket(bytes[..]);
    }
  }
}
