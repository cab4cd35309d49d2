/** Packing messages into MoldUDP64 packets, in one buffer that is reused. */
module Packing {
  import opened Words
  import opened Bytes
  import opened Framing
  import opened Mold

  /** A packet as the specification lays it out: a header and `count` message blocks. */
  function PacketOf(session: Session, sequence: u64, ms: seq<Bytes>): Bytes
    requires |ms| <= 0xFFFF
  {
    Encoded(Header(session, sequence, |ms|)) + Encode(ms)
  }

  class Packer {
    const session: Session
    const maxPayload: nat
    const buffer: array<u8>
    var sequence: u64
    var body: nat
    var count: u16
    /** The messages in the packet being built. */
    ghost var pending: seq<Bytes>

    ghost predicate Valid()
      reads this, buffer
    {
      && buffer.Length == HEADER_SIZE + maxPayload
      && body <= maxPayload
      && buffer[HEADER_SIZE..HEADER_SIZE + body] == Encode(pending)
      && |pending| == count < END_OF_SESSION
    }

    constructor (session: Session, firstSequence: u64, maxPayload: nat)
      ensures Valid() && fresh(buffer)
      ensures this.session == session && sequence == firstSequence && this.maxPayload == maxPayload && pending == []
    {
      this.session := session;
      sequence := firstSequence;
      this.maxPayload := maxPayload;
      buffer := new u8[HEADER_SIZE + maxPayload](_ => 0);
      body, count := 0, 0;
      pending := [];
    }

    predicate TooLarge(size: nat) {
      2 + size > maxPayload
    }

    /** Takes the message if there is room for its bytes and for one more below the marker's count. */
    method TryAdd(msg: Bytes) returns (ok: bool)
      requires Valid() && |msg| <= 0xFFFF
      modifies this`body, this`count, this`pending, buffer
      ensures Valid()
      ensures ok == (|Encode(old(pending))| + 2 + |msg| <= maxPayload && old(count) < END_OF_SESSION - 1)
      ensures pending == if ok then old(pending) + [msg] else old(pending)
    {
      var room := maxPayload - body;
      if room < 2 || room - 2 < |msg| {
        return false;
      }
      if count == END_OF_SESSION - 1 {
        return false;
      }
      ghost var before := buffer[..];
      WriteBlock(buffer, HEADER_SIZE + body, msg);
      WrittenAfter(before, buffer[..], HEADER_SIZE, HEADER_SIZE + body, Block(msg));
      EncodeAppend(pending, msg);
      body := body + 2 + |msg|;
      count := count + 1;
      pending := pending + [msg];
      return true;
    }

    /** Hands out the packet and starts the next one; the sequence is a 64-bit sum and wraps. */
    method Finish() returns (packet: Bytes)
      requires Valid()
      modifies this`sequence, this`body, this`count, this`pending, buffer
      ensures Valid()
      ensures packet == PacketOf(session, old(sequence), old(pending))
      ensures sequence == Add64(old(sequence), |old(pending)|) && pending == []
    {
      ghost var blocks := buffer[HEADER_SIZE..HEADER_SIZE + body];
      EncodeHeader(Header(session, sequence, count), buffer);
      assert buffer[HEADER_SIZE..HEADER_SIZE + body] == buffer[HEADER_SIZE..][..body];
      packet := buffer[..HEADER_SIZE + body];
      assert packet == buffer[..HEADER_SIZE] + buffer[HEADER_SIZE..HEADER_SIZE + body];
      sequence := Add64(sequence, count);
      body, count := 0, 0;
      pending := [];
    }

    /** The packet that ends a session: a header with no block after it, which uses up no number. */
    method EndOfSession() returns (packet: Bytes)
      requires Valid()
      modifies buffer
      ensures Valid()
      ensures packet == Encoded(Header(session, sequence, END_OF_SESSION))
    {
      ghost var tail := buffer[HEADER_SIZE..];
      EncodeHeader(Header(session, sequence, END_OF_SESSION), buffer);
      assert buffer[HEADER_SIZE..HEADER_SIZE + body] == buffer[HEADER_SIZE..][..body];
      packet := buffer[..HEADER_SIZE];
    }
  }

  /** Writes a length prefix and the message at `at`, and nothing else. */
  method WriteBlock(out: array<u8>, at: nat, msg: Bytes)
    requires |msg| <= 0xFFFF && at + 2 + |msg| <= out.Length
    modifies out
    ensures out[..] == old(out[..at]) + Block(msg) + old(out[at + 2 + |msg|..])
  {
    ghost var front := out[..at];
    out[at] := |msg| / 256;
    out[at + 1] := |msg| % 256;
    TwoBytes(|msg|);
    assert out[..at + 2] == front + ToBE(|msg|, 2);
    Copy(out, at + 2, msg);
  }

  /** What lies from `from` on grows by the bytes written at its end. */
  lemma WrittenAfter(before: Bytes, after: Bytes, from: nat, at: nat, block: Bytes)
    requires from <= at && at + |block| <= |before|
    requires after == before[..at] + block + before[at + |block|..]
    ensures after[from..at + |block|] == before[from..at] + block
  {
  }

  /** Writes the bytes of a message at `at`, and nothing else. */
  method Copy(out: array<u8>, at: nat, msg: Bytes)
    requires at + |msg| <= out.Length
    modifies out
    ensures out[..] == old(out[..at]) + msg + old(out[at + |msg|..])
  {
    for i := 0 to |msg|
      invariant out[..at + i] == old(out[..at]) + msg[..i]
      invariant out[at + |msg|..] == old(out[at + |msg|..])
    {
      out[at + i] := msg[i];
    }
    assert out[..] == out[..at + |msg|] + out[at + |msg|..];
  }

  lemma TwoBytes(n: u16)
    ensures ToBE(n, 2) == [n / 256, n % 256]
  {
    assert ToBE(n / 256, 1) == ToBE(n / 256 / 256, 0) + [n / 256 % 256];
  }

  /** Receiving end of a packet: its header, and a walk that consumes it exactly. */
  lemma PacketRoundTrip(session: Session, sequence: u64, ms: seq<Bytes>)
    requires |ms| < 0xFFFF && forall m | m in ms :: Framable(m)
    ensures var p := PacketOf(session, sequence, ms);
      && |p| >= HEADER_SIZE
      && DecodeHeader(p) == Header(session, sequence, |ms|)
      && p[HEADER_SIZE..] == Encode(ms)
      && Frames(p[HEADER_SIZE..], 0) == ms
      && WalkEnd(p[HEADER_SIZE..], 0) == |p| - HEADER_SIZE
  {
    var h := Header(session, sequence, |ms|);
    HeaderRoundTrip(h, Encode(ms));
    FramesOfEncoding(ms);
    assert (Encoded(h) + Encode(ms))[HEADER_SIZE..] == Encode(ms);
  }
}
