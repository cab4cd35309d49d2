/** The packet decoder. The calls it makes to the sink are returned as the list of messages handed over. */
module Decoding {
  import opened Words
  import opened Bytes
  import opened Framing
  import opened Mold
  import D = DecoderSpec

  class Decoder {
    var expected: u64
    var last: u64
    var started: bool
    var eos: bool
    var session: Session
    var sessionChanges: nat
    var applied: nat
    var messages: nat
    var duplicates: nat
    var malformed: nat
    var heartbeats: nat
    var gapsTotal: nat
    var gapMessages: nat
    var gaps: seq<D.Gap>

    function State(): D.State
      reads this
    {
      D.State(expected, last, started, eos, session, sessionChanges, applied, messages, duplicates, malformed,
              heartbeats, gapsTotal, gapMessages, gaps)
    }

    constructor ()
      ensures State() == D.INITIAL
    {
      expected, last := 1, 0;
      started, eos := false, false;
      session := D.NO_SESSION;
      sessionChanges, applied, messages, duplicates, malformed, heartbeats := 0, 0, 0, 0, 0, 0;
      gapsTotal, gapMessages := 0, 0;
      gaps := [];
    }

    method NoteGap(first: u64, count: u64)
      modifies this`gapsTotal, this`gapMessages, this`gaps
      ensures State() == D.Noted(old(State()), first, count)
    {
      gapsTotal := gapsTotal + 1;
      gapMessages := gapMessages + count;
      if |gaps| < D.MAX_GAPS {
        gaps := gaps + [D.Gap(first, count)];
      }
    }

    method OnPacket(pkt: Bytes) returns (handed: seq<Bytes>)
      modifies this
      ensures State() == D.Step(old(State()), pkt)
      ensures handed == D.Handed(old(State()), pkt)
      ensures handed != [] ==> pkt[HEADER_SIZE..] == Encode(handed) && |handed| == DecodeHeader(pkt).count
      ensures handed != [] ==> D.Awaited(old(State()), pkt) && D.Carries(pkt, handed)
      ensures forall ms | D.Awaited(old(State()), pkt) && D.Carries(pkt, ms) :: handed == ms
      ensures D.Observed(old(State()), pkt, handed, State())
      ensures messages == old(messages) + |handed| && (|pkt| < 20 ==> malformed == old(malformed) + 1)
      ensures |pkt| >= 20 && DecodeHeader(pkt).count == 0 ==> heartbeats == old(heartbeats) + 1
    {
      D.HandedExactly(State(), pkt);
      D.StepObserved(State(), pkt);
      if |pkt| < HEADER_SIZE {
        malformed := malformed + 1;
        return [];
      }
      var h := ReadHeader(pkt);
      Adopt(h);
      if h.count == END_OF_SESSION {
        End(h);
        return [];
      }
      if h.count == HEARTBEAT {
        heartbeats := heartbeats + 1;
        return [];
      }
      handed := OnBlocks(pkt, h);
    }

    /** A packet with blocks, once its session is adopted: ignored, rejected whole, or delivered. */
    method OnBlocks(pkt: Bytes, h: Header) returns (handed: seq<Bytes>)
      requires |pkt| >= HEADER_SIZE && h == DecodeHeader(pkt) && started && session == h.session
      requires h.count != END_OF_SESSION && h.count != HEARTBEAT
      modifies this
      ensures State() == D.Step(old(State()), pkt)
      ensures handed == D.Handed(old(State()), pkt)
    {
      if h.sequence < expected {
        duplicates := duplicates + 1;
        return [];
      }
      var sound := Validate(pkt, h.count);
      if !sound {
        malformed := malformed + 1;
        return [];
      }
      handed := Accept(pkt, h);
    }

    /** The marker: messages it counts that never came are lost. */
    method End(h: Header)
      modifies this
      ensures State() == D.Ended(old(State()), h)
    {
      if h.sequence > expected {
        NoteGap(expected, h.sequence - expected);
        expected := h.sequence;
      }
      eos := true;
      last := h.sequence;
    }

    /** A packet found whole: what it steps over is lost, and what it carries is handed over. */
    method Accept(pkt: Bytes, h: Header) returns (handed: seq<Bytes>)
      requires |pkt| >= HEADER_SIZE
      modifies this
      ensures State() == D.Accepted(old(State()), h)
      ensures handed == D.Blocks(pkt)
    {
      if h.sequence > expected {
        NoteGap(expected, h.sequence - expected);
      }
      last := h.sequence;
      handed := Deliver(pkt);
      messages := messages + h.count;
      applied := applied + 1;
      expected := Add64(h.sequence, h.count);
    }

    /** A header of a session the decoder is not in makes it follow that one, at the number the header names. */
    method Adopt(h: Header)
      modifies this`session, this`expected, this`started, this`sessionChanges
      ensures State() == D.Adopted(old(State()), h)
    {
      if !started {
        session := h.session;
        expected := h.sequence;
        started := true;
      } else if h.session != session {
        sessionChanges := sessionChanges + 1;
        session := h.session;
        expected := h.sequence;
      }
    }
  }

  /** The first walk, which hands over nothing: do the blocks fill the packet, in the stated number? */
  method Validate(pkt: Bytes, count: u16) returns (ok: bool)
    requires |pkt| >= HEADER_SIZE && count == DecodeHeader(pkt).count
    ensures ok == D.Exact(pkt)
    ensures ok ==> D.Carries(pkt, D.Blocks(pkt))
    ensures forall ms | D.Carries(pkt, ms) :: ok && D.Blocks(pkt) == ms
  {
    forall ms ensures (D.Exact(pkt) ==> D.Carries(pkt, D.Blocks(pkt)))
      && (D.Carries(pkt, ms) ==> D.Exact(pkt) && D.Blocks(pkt) == ms)
    {
      D.ExactCarries(pkt, ms);
    }
    var check := new Framer(pkt[HEADER_SIZE..]);
    var blocks := 0;
    while true
      invariant check.Valid()
      invariant |D.Blocks(pkt)| == blocks + |Frames(check.data, check.pos)|
      invariant WalkEnd(check.data, check.pos) == WalkEnd(check.data, 0)
      decreases |check.data| - check.pos
    {
      var more, view := check.Next();
      if !more {
        break;
      }
      blocks := blocks + 1;
    }
    return check.Exhausted() && blocks == count;
  }

  /** The second walk: each message goes to the sink. */
  method Deliver(pkt: Bytes) returns (handed: seq<Bytes>)
    requires |pkt| >= HEADER_SIZE
    ensures handed == D.Blocks(pkt)
  {
    var framer := new Framer(pkt[HEADER_SIZE..]);
    handed := [];
    while true
      invariant framer.Valid()
      invariant D.Blocks(pkt) == handed + Frames(framer.data, framer.pos)
      decreases |framer.data| - framer.pos
    {
      var more, msg := framer.Next();
      if !more {
        break;
      }
      handed := handed + [msg];
    }
  }
}
