/** Packets that show the corners of the receiver, most of them at odds with its description. */
module DecoderCases {
  import opened Words
  import opened Bytes
  import opened Framing
  import opened Mold
  import opened Packing
  import opened DecoderSpec
  import opened Lossy

  function Heartbeat(session: Session, sequence: u64): Bytes {
    Encoded(Header(session, sequence, HEARTBEAT))
  }

  lemma BareHeader(h: Header)
    ensures DecodeHeader(Encoded(h)) == h && |Encoded(h)| == HEADER_SIZE
  {
    HeaderRoundTrip(h, []);
    assert Encoded(h) + [] == Encoded(h);
  }

  lemma RunOne(s: State, p: Bytes)
    ensures Run(s, [p]) == Step(s, p) && HandedBy(s, [p]) == Handed(s, p) && LostBy(s, [p]) == StepLost(s, p)
  {
    RunSnoc(s, [], p);
    assert [] + [p] == [p];
  }

  /** The receiver is in session `a` and expects message `f`. */
  predicate InSession(s: State, a: Session, f: u64) {
    s.started && s.session == a && s.expected == f
  }

  /** The packets `ps` leave a receiver in session `a`, expecting `f`, with these messages delivered and none lost. */
  ghost predicate Received(s: State, ps: seq<Bytes>, a: Session, f: u64, messages: seq<Bytes>) {
    && HandedBy(s, ps) == messages && LostBy(s, ps) == []
    && InSession(Run(s, ps), a, f) && Run(s, ps).duplicates == s.duplicates
  }

  lemma FirstDelivers(s: State, a: Session, first: u64, g: seq<Bytes>)
    requires !s.started && Shippable(g) && first + |g| < TWO_64
    ensures Received(s, [PacketOf(a, first, g)], a, first + |g|, g)
  {
    RunOne(s, PacketOf(a, first, g));
    PacketRoundTrip(a, first, g);
  }

  // ---- a marker that advances the expected number ----

  /** Message 1, then a marker that names 5: three messages are noted lost, and 5 is expected. */
  lemma MarkerAdvances(s: State, a: Session, m: Bytes)
    requires !s.started && Framable(m)
    ensures var ps := [PacketOf(a, 1, [m])];
      && Run(s, ps).expected == 2
      && KindOf(Run(s, ps), MarkerPacket(a, 5)) == Marker
      && LostBy(s, ps + [MarkerPacket(a, 5)]) == [Gap(2, 3)]
      && Run(s, ps + [MarkerPacket(a, 5)]).expected == 5
  {
    var ps := [PacketOf(a, 1, [m])];
    FirstDelivers(s, a, 1, [m]);
    RunSnoc(s, ps, MarkerPacket(a, 5));
    BareHeader(Header(a, 5, END_OF_SESSION));
    MarkerAdvancesNothingExactly(Run(s, ps), MarkerPacket(a, 5));
  }

  // ---- a rejected packet that switches the session ----

  /** A header of session `b` that claims three blocks and brings none. */
  function Hollow(b: Session): Bytes {
    Encoded(Header(b, 7, 3))
  }

  /** After message 1 of session `a` it is rejected whole; the receiver is now in session `b` and expects message 7. */
  lemma RejectedSwitches(s: State, a: Session, b: Session, m: Bytes)
    requires a != b && !s.started && Framable(m)
    ensures var ps := [PacketOf(a, 1, [m])];
      && InSession(Run(s, ps), a, 2)
      && KindOf(Run(s, ps), Hollow(b)) == Malformed
      && HandedBy(s, ps + [Hollow(b)]) == [m] && InSession(Run(s, ps + [Hollow(b)]), b, 7)
  {
    var ps := [PacketOf(a, 1, [m])];
    FirstDelivers(s, a, 1, [m]);
    RunSnoc(s, ps, Hollow(b));
    BareHeader(Header(b, 7, 3));
    assert Hollow(b)[HEADER_SIZE..] == [];
    RejectedChangesNothingExactly(Run(s, ps), Hollow(b));
  }

  // ---- a stray header that makes messages repeat ----

  lemma HeartbeatSwitches(s: State, ps: seq<Bytes>, a: Session, f: u64, ms: seq<Bytes>, b: Session, sequence: u64)
    requires Received(s, ps, a, f, ms) && a != b
    ensures Received(s, ps + [Heartbeat(b, sequence)], b, sequence, ms)
  {
    RunSnoc(s, ps, Heartbeat(b, sequence));
    BareHeader(Header(b, sequence, HEARTBEAT));
    assert ms + [] == ms;
  }

  /** A packet of another session is delivered from its own number on, whatever was delivered before. */
  lemma SwitchedDelivers(s: State, ps: seq<Bytes>, b: Session, f: u64, ms: seq<Bytes>,
                         a: Session, first: u64, g: seq<Bytes>)
    requires Received(s, ps, b, f, ms) && a != b && Shippable(g) && first + |g| < TWO_64
    ensures Received(s, ps + [PacketOf(a, first, g)], a, first + |g|, ms + g)
  {
    RunSnoc(s, ps, PacketOf(a, first, g));
    PacketRoundTrip(a, first, g);
  }

  /**
   One stray heartbeat of another session between a packet and its copy: both are delivered, with no gap and no
   duplicate counted.
   */
  lemma StrayHeaderRepeats(s: State, a: Session, b: Session, f: u64, g: seq<Bytes>, sequence: u64)
    requires a != b && Shippable(g) && f + |g| < TWO_64 && !s.started
    ensures var ps := [PacketOf(a, f, g)] + [Heartbeat(b, sequence)] + [PacketOf(a, f, g)];
      HandedBy(s, ps) == g + g && LostBy(s, ps) == [] && Run(s, ps).duplicates == s.duplicates
  {
    var p, q := PacketOf(a, f, g), Heartbeat(b, sequence);
    FirstDelivers(s, a, f, g);
    HeartbeatSwitches(s, [p], a, f + |g|, g, b, sequence);
    SwitchedDelivers(s, [p] + [q], b, sequence, g, a, f, g);
  }

  // ---- a number that wraps ----

  /**
   The message with the last 64-bit number but one, then the last: delivered, and 0 is expected next. The 64-bit sums
   account for it; as unbounded numbers the advance would be short by 2^64.
   */
  lemma WrapAccounts(s: State, a: Session, m: Bytes)
    requires !s.started && Framable(m)
    ensures var t, p := Run(s, [PacketOf(a, TWO_64 - 2, [m])]), PacketOf(a, TWO_64 - 1, [m]);
      var u := Run(t, [p]);
      && OneSession(t, [p]) && WrapCount(t, [p]) == 1
      && u.messages == t.messages + 1 && u.gapMessages == t.gapMessages && u.expected == 0
      && Sub64(u.expected, t.expected) == 1 && u.expected - t.expected == 1 - TWO_64
  {
    var t := Run(s, [PacketOf(a, TWO_64 - 2, [m])]);
    FirstDelivers(s, a, TWO_64 - 2, [m]);
    LastNumber(t, a, m);
  }

  lemma LastNumber(t: State, a: Session, m: Bytes)
    requires Framable(m) && InSession(t, a, TWO_64 - 1)
    ensures var p := PacketOf(a, TWO_64 - 1, [m]);
      var u := Run(t, [p]);
      && OneSession(t, [p]) && WrapCount(t, [p]) == 1
      && u.messages == t.messages + 1 && u.gapMessages == t.gapMessages && u.expected == 0
  {
    var p := PacketOf(a, TWO_64 - 1, [m]);
    RunOne(t, p);
    PacketRoundTrip(a, TWO_64 - 1, [m]);
    assert WrapCount(t, [p][..0]) == 0 && Run(t, [p][..0]) == t;
  }
}
