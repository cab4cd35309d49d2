/**
 The MoldUDP64 receiver as a state machine over packets, and what holds over every run:
 what was delivered and what was reported lost tile the sequence numbers.
 */
module DecoderSpec {
  import opened Words
  import opened Bytes
  import opened Framing
  import opened Mold

  const MAX_GAPS: nat := 4096

  datatype Gap = Gap(first: u64, count: u64)

  datatype State = State(expected: u64, last: u64, started: bool, eos: bool, session: Session,
                         sessionChanges: nat, applied: nat, messages: nat, duplicates: nat, malformed: nat,
                         heartbeats: nat, gapsTotal: nat, gapMessages: nat, gaps: seq<Gap>)

  const NO_SESSION: Session := [0, 0, 0, 0, 0, 0, 0, 0, 0, 0]

  const INITIAL: State := State(1, 0, false, false, NO_SESSION, 0, 0, 0, 0, 0, 0, 0, 0, [])

  // ---- one packet ----

  /** The packet's header opens a session: the first packet, or another session's packet. */
  predicate Opens(s: State, h: Header) {
    !s.started || h.session != s.session
  }

  /** The session and the expected number are taken from the header before anything else is checked. */
  function Adopted(s: State, h: Header): State {
    if !s.started then s.(session := h.session, expected := h.sequence, started := true)
    else if h.session != s.session then
      s.(sessionChanges := s.sessionChanges + 1, session := h.session, expected := h.sequence)
    else s
  }

  function Noted(s: State, first: u64, count: u64): State {
    s.(gapsTotal := s.gapsTotal + 1,
       gapMessages := s.gapMessages + count,
       gaps := if |s.gaps| < MAX_GAPS then s.gaps + [Gap(first, count)] else s.gaps)
  }

  /** Notes the numbers from the expected one up to `sequence`, if there are any. */
  function NotedUpTo(s: State, sequence: u64): State {
    if sequence > s.expected then Noted(s, s.expected, sequence - s.expected) else s
  }

  function Blocks(p: Bytes): seq<Bytes>
    requires |p| >= HEADER_SIZE
  {
    Frames(p[HEADER_SIZE..], 0)
  }

  /** The blocks fill the packet exactly and are as many as the header says. */
  predicate Exact(p: Bytes)
    requires |p| >= HEADER_SIZE
  {
    && WalkEnd(p[HEADER_SIZE..], 0) == |p| - HEADER_SIZE
    && |Blocks(p)| == DecodeHeader(p).count
  }

  datatype Kind = Short | Marker | Heartbeat | Duplicate | Malformed | Data

  function KindOf(s: State, p: Bytes): Kind {
    if |p| < HEADER_SIZE then Short
    else
      var h := DecodeHeader(p);
      if h.count == END_OF_SESSION then Marker
      else if h.count == HEARTBEAT then Heartbeat
      else if h.sequence < Adopted(s, h).expected then Duplicate
      else if !Exact(p) then Malformed
      else Data
  }

  /** The end of a session: what lies before the marker and has not come is lost. */
  function Ended(s: State, h: Header): State {
    NotedUpTo(s, h.sequence).(expected := if h.sequence > s.expected then h.sequence else s.expected,
                              eos := true, last := h.sequence)
  }

  /** A packet whose blocks are delivered. */
  function Accepted(s: State, h: Header): State {
    NotedUpTo(s, h.sequence).(last := h.sequence, messages := s.messages + h.count, applied := s.applied + 1,
                              expected := Add64(h.sequence, h.count))
  }

  function Step(s: State, p: Bytes): State {
    if |p| < HEADER_SIZE then s.(malformed := s.malformed + 1)
    else
      var h := DecodeHeader(p);
      var a := Adopted(s, h);
      match KindOf(s, p)
      case Marker => Ended(a, h)
      case Heartbeat => a.(heartbeats := a.heartbeats + 1)
      case Duplicate => a.(duplicates := a.duplicates + 1)
      case Malformed => a.(malformed := a.malformed + 1)
      case _ => Accepted(a, h)
  }

  /** The messages the packet hands to the sink. */
  function Handed(s: State, p: Bytes): seq<Bytes> {
    if KindOf(s, p) == Data then Blocks(p) else []
  }

  // ---- what one packet does, from its bytes ----

  /** The blocks behind the header are those of `ms`, to the last byte, and as many as the header states. */
  ghost predicate Carries(p: Bytes, ms: seq<Bytes>) {
    && |p| >= 20 && p[20..] == Encode(ms) && |ms| == DecodeHeader(p).count
    && forall m | m in ms :: 1 <= |m| <= 0xFFFF
  }

  /** A packet that is no marker and no heartbeat, and not behind what its session has reached. */
  predicate Awaited(s: State, p: Bytes) {
    && |p| >= 20 && 0 < DecodeHeader(p).count < 0xFFFF
    && !(s.started && s.session == DecodeHeader(p).session && DecodeHeader(p).sequence < s.expected)
  }

  lemma ExactCarries(p: Bytes, ms: seq<Bytes>)
    requires |p| >= HEADER_SIZE
    ensures Exact(p) ==> Carries(p, Blocks(p))
    ensures Carries(p, ms) ==> Exact(p) && Blocks(p) == ms
  {
    var body := p[HEADER_SIZE..];
    EncodingOfFrames(body, 0);
    if Exact(p) {
      assert body[0..|body|] == body;
    }
    if Carries(p, ms) {
      FramesOfEncoding(ms);
    }
  }

  /** Messages are handed over exactly from a packet that is awaited and carries them, all of them or none. */
  lemma HandedExactly(s: State, p: Bytes)
    ensures Handed(s, p) != [] ==> Awaited(s, p) && Carries(p, Handed(s, p))
    ensures forall ms | Awaited(s, p) && Carries(p, ms) :: Handed(s, p) == ms
  {
    if |p| >= HEADER_SIZE {
      ExactCarries(p, []);
      forall ms | Awaited(s, p) && Carries(p, ms) ensures Handed(s, p) == ms {
        ExactCarries(p, ms);
      }
    }
  }

  /** What a packet changes, seen from its bytes and from what was handed over. */
  ghost predicate Observed(s: State, p: Bytes, handed: seq<Bytes>, t: State) {
    if |p| < 20 then handed == [] && t == s.(malformed := s.malformed + 1)
    else
      var h := DecodeHeader(p);
      var same, marker := s.started && s.session == h.session, h.count == 0xFFFF;
      var from := if same then s.expected else h.sequence;
      var lost := if (marker || handed != []) && h.sequence > from then h.sequence - from else 0;
      && t.started && t.session == h.session
      && t.sessionChanges == s.sessionChanges + Digit(s.started && !same)
      && t.messages == s.messages + |handed| && t.applied == s.applied + Digit(handed != [])
      && t.expected == (if handed != [] then (h.sequence + |handed|) % TWO_64 else from + (if marker then lost else 0))
      && t.last == (if marker || handed != [] then h.sequence else s.last) && t.eos == (s.eos || marker)
      && t.heartbeats == s.heartbeats + Digit(h.count == 0)
      && t.duplicates == s.duplicates + Digit(0 < h.count < 0xFFFF && h.sequence < from)
      && t.malformed == s.malformed + Digit(0 < h.count < 0xFFFF && h.sequence >= from && handed == [])
      && t.gapMessages == s.gapMessages + lost && t.gapsTotal == s.gapsTotal + Digit(lost > 0)
      && t.gaps == if lost > 0 && |s.gaps| < 4096 then s.gaps + [Gap(from, lost)] else s.gaps
  }

  lemma StepObserved(s: State, p: Bytes)
    ensures Observed(s, p, Handed(s, p), Step(s, p))
  {
    if |p| >= HEADER_SIZE {
      var handed := Handed(s, p);
      assert |handed| == if KindOf(s, p) == Data then DecodeHeader(p).count else 0;
      KindObserved(s, p, handed);
    }
  }

  lemma KindObserved(s: State, p: Bytes, handed: seq<Bytes>)
    requires |p| >= HEADER_SIZE && |handed| == if KindOf(s, p) == Data then DecodeHeader(p).count else 0
    ensures Observed(s, p, handed, Step(s, p))
  {
  }

  // ---- runs ----

  function Run(s: State, ps: seq<Bytes>): State {
    if ps == [] then s else Step(Run(s, ps[..|ps| - 1]), ps[|ps| - 1])
  }

  function HandedBy(s: State, ps: seq<Bytes>): seq<Bytes> {
    if ps == [] then []
    else HandedBy(s, ps[..|ps| - 1]) + Handed(Run(s, ps[..|ps| - 1]), ps[|ps| - 1])
  }

  // ---- what happened, in order ----

  datatype Event =
    | Opened(at: u64)                             // a session begins at this number
    | Lost(first: u64, count: u64)                // reported as a gap
    | Delivered(first: u64, messages: seq<Bytes>) // handed to the sink

  function Opening(s: State, h: Header): seq<Event> {
    if Opens(s, h) then [Opened(h.sequence)] else []
  }

  function Loss(expected: u64, sequence: u64): seq<Event> {
    if sequence > expected then [Lost(expected, sequence - expected)] else []
  }

  /** The events of a packet with header `h` after its opening, given how it is classified and its blocks. */
  function KindEvents(start: seq<Event>, expected: u64, h: Header, kind: Kind, blocks: seq<Bytes>): seq<Event> {
    var loss := Loss(expected, h.sequence);
    match kind
    case Marker => start + loss
    case Data => start + loss + [Delivered(h.sequence, blocks)]
    case _ => start
  }

  function StepEvents(s: State, p: Bytes): seq<Event> {
    if |p| < HEADER_SIZE then []
    else
      var h := DecodeHeader(p);
      KindEvents(Opening(s, h), Adopted(s, h).expected, h, KindOf(s, p), Blocks(p))
  }

  function EventsOf(s: State, ps: seq<Bytes>): seq<Event> {
    if ps == [] then []
    else EventsOf(s, ps[..|ps| - 1]) + StepEvents(Run(s, ps[..|ps| - 1]), ps[|ps| - 1])
  }

  /** The number after an event that begins at `cur`; wraps like the 64-bit sum it is. */
  function After(e: Event, cur: u64): u64 {
    match e
    case Opened(at) => at
    case Lost(first, count) => (first + count) % TWO_64
    case Delivered(first, ms) => (first + |ms|) % TWO_64
  }

  /** An event that is neither empty nor out of place at `cur`. */
  predicate Fits(e: Event, cur: u64) {
    match e
    case Opened(_) => true
    case Lost(first, count) => first == cur && count > 0 && first + count < TWO_64
    case Delivered(first, ms) => first == cur && |ms| > 0
  }

  /** The number reached after the first `k` events. */
  function Cursor(es: seq<Event>, k: nat, start: u64): u64
    requires k <= |es|
  {
    if k == 0 then start else After(es[k - 1], Cursor(es, k - 1, start))
  }

  function End(es: seq<Event>, start: u64): u64 {
    Cursor(es, |es|, start)
  }

  /** Each event begins where the one before it ended. */
  ghost predicate Tiles(es: seq<Event>, start: u64) {
    forall k {:trigger FitsAt(es, k, start)} | 0 <= k < |es| :: FitsAt(es, k, start)
  }

  predicate FitsAt(es: seq<Event>, k: nat, start: u64)
    requires k < |es|
  {
    Fits(es[k], Cursor(es, k, start))
  }

  lemma {:induction false} CursorPrefix(es: seq<Event>, fs: seq<Event>, k: nat, start: u64)
    requires k <= |es|
    ensures Cursor(es + fs, k, start) == Cursor(es, k, start)
  {
    if k > 0 {
      CursorPrefix(es, fs, k - 1, start);
    }
  }

  lemma {:induction false} CursorSuffix(es: seq<Event>, fs: seq<Event>, k: nat, start: u64)
    requires k <= |fs|
    ensures Cursor(es + fs, |es| + k, start) == Cursor(fs, k, End(es, start))
  {
    if k == 0 {
      CursorPrefix(es, fs, |es|, start);
    } else {
      CursorSuffix(es, fs, k - 1, start);
    }
  }

  lemma TilesConcat(es: seq<Event>, fs: seq<Event>, start: u64)
    requires Tiles(es, start) && Tiles(fs, End(es, start))
    ensures Tiles(es + fs, start) && End(es + fs, start) == End(fs, End(es, start))
  {
    var all := es + fs;
    forall k | 0 <= k < |all| ensures FitsAt(all, k, start) {
      if k < |es| {
        CursorPrefix(es, fs, k, start);
        assert FitsAt(es, k, start);
      } else {
        CursorSuffix(es, fs, k - |es|, start);
        assert FitsAt(fs, k - |es|, End(es, start));
      }
    }
    CursorSuffix(es, fs, |fs|, start);
  }

  /** Where a packet leaves the expected number. */
  function KindExpected(s: State, h: Header, kind: Kind): u64 {
    var expected := Adopted(s, h).expected;
    match kind
    case Marker => if h.sequence > expected then h.sequence else expected
    case Data => (h.sequence + h.count) % TWO_64
    case _ => expected
  }

  lemma NextExpected(s: State, p: Bytes)
    requires |p| >= HEADER_SIZE
    ensures Step(s, p).expected == KindExpected(s, DecodeHeader(p), KindOf(s, p))
  {
  }

  lemma OneTiles(e: Event, start: u64)
    ensures Tiles([e], start) <==> Fits(e, start)
    ensures End([e], start) == After(e, start)
  {
    assert FitsAt([e], 0, start) == Fits(e, start);
  }

  lemma OpeningTiles(s: State, h: Header)
    ensures Tiles(Opening(s, h), s.expected) && End(Opening(s, h), s.expected) == Adopted(s, h).expected
  {
    OneTiles(Opened(h.sequence), s.expected);
  }

  lemma LossTiles(expected: u64, sequence: u64)
    ensures Tiles(Loss(expected, sequence), expected)
    ensures End(Loss(expected, sequence), expected) == if sequence > expected then sequence else expected
  {
    if sequence > expected {
      OneTiles(Lost(expected, sequence - expected), expected);
    }
  }

  /** The events of any one packet tile from the expected number to the next expected number. */
  lemma KindTiles(s: State, h: Header, kind: Kind, blocks: seq<Bytes>)
    requires kind == Data ==> h.sequence >= Adopted(s, h).expected && |blocks| == h.count > 0
    ensures var es := KindEvents(Opening(s, h), Adopted(s, h).expected, h, kind, blocks);
      Tiles(es, s.expected) && End(es, s.expected) == KindExpected(s, h, kind)
  {
    var expected := Adopted(s, h).expected;
    var a, b := Opening(s, h), Loss(expected, h.sequence);
    OpeningTiles(s, h);
    LossTiles(expected, h.sequence);
    TilesConcat(a, b, s.expected);
    if kind == Data {
      var d := Delivered(h.sequence, blocks);
      OneTiles(d, h.sequence);
      TilesConcat(a + b, [d], s.expected);
    }
  }

  lemma StepTiles(s: State, p: Bytes)
    ensures Tiles(StepEvents(s, p), s.expected)
    ensures End(StepEvents(s, p), s.expected) == Step(s, p).expected
  {
    if |p| >= HEADER_SIZE {
      NextExpected(s, p);
      KindTiles(s, DecodeHeader(p), KindOf(s, p), Blocks(p));
    }
  }

  /** Over any packets whatever, what is delivered and what is reported lost tile the numbers in order. */
  lemma {:induction false} RunTiles(s: State, ps: seq<Bytes>)
    ensures Tiles(EventsOf(s, ps), s.expected)
    ensures End(EventsOf(s, ps), s.expected) == Run(s, ps).expected
  {
    if ps != [] {
      var before := ps[..|ps| - 1];
      RunTiles(s, before);
      StepTiles(Run(s, before), ps[|ps| - 1]);
      TilesConcat(EventsOf(s, before), StepEvents(Run(s, before), ps[|ps| - 1]), s.expected);
    }
  }

  // ---- the events are what happened ----

  function MessagesOf(e: Event): seq<Bytes> {
    if e.Delivered? then e.messages else []
  }

  function GapOf(e: Event): seq<Gap> {
    if e.Lost? then [Gap(e.first, e.count)] else []
  }

  /** What the first `k` events deliver. */
  function DeliveredIn(es: seq<Event>, k: nat): seq<Bytes>
    requires k <= |es|
  {
    if k == 0 then [] else DeliveredIn(es, k - 1) + MessagesOf(es[k - 1])
  }

  /** What the first `k` events report lost. */
  function LostIn(es: seq<Event>, k: nat): seq<Gap>
    requires k <= |es|
  {
    if k == 0 then [] else LostIn(es, k - 1) + GapOf(es[k - 1])
  }

  /** How many of the first `k` events begin a session. */
  function OpenedIn(es: seq<Event>, k: nat): nat
    requires k <= |es|
  {
    if k == 0 then 0 else OpenedIn(es, k - 1) + Digit(es[k - 1].Opened?)
  }

  /** What some events deliver, what they report lost, and how many sessions they begin. */
  datatype Summary = Summary(delivered: seq<Bytes>, lost: seq<Gap>, sessions: nat)

  function SummaryOf(es: seq<Event>): Summary {
    Summary(DeliveredIn(es, |es|), LostIn(es, |es|), OpenedIn(es, |es|))
  }

  function Joined(a: Summary, b: Summary): Summary {
    Summary(a.delivered + b.delivered, a.lost + b.lost, a.sessions + b.sessions)
  }

  lemma {:induction false} InPrefix(es: seq<Event>, fs: seq<Event>, k: nat)
    requires k <= |es|
    ensures DeliveredIn(es + fs, k) == DeliveredIn(es, k)
    ensures LostIn(es + fs, k) == LostIn(es, k)
    ensures OpenedIn(es + fs, k) == OpenedIn(es, k)
  {
    if k > 0 {
      InPrefix(es, fs, k - 1);
    }
  }

  lemma {:induction false} DeliveredSuffix(es: seq<Event>, fs: seq<Event>, k: nat)
    requires k <= |fs|
    ensures DeliveredIn(es + fs, |es| + k) == DeliveredIn(es, |es|) + DeliveredIn(fs, k)
  {
    if k == 0 {
      InPrefix(es, fs, |es|);
    } else {
      DeliveredSuffix(es, fs, k - 1);
      Associate(DeliveredIn(es, |es|), DeliveredIn(fs, k - 1), MessagesOf(fs[k - 1]));
    }
  }

  lemma {:induction false} LostSuffix(es: seq<Event>, fs: seq<Event>, k: nat)
    requires k <= |fs|
    ensures LostIn(es + fs, |es| + k) == LostIn(es, |es|) + LostIn(fs, k)
  {
    if k == 0 {
      InPrefix(es, fs, |es|);
    } else {
      LostSuffix(es, fs, k - 1);
      Associate(LostIn(es, |es|), LostIn(fs, k - 1), GapOf(fs[k - 1]));
    }
  }

  lemma {:induction false} OpenedSuffix(es: seq<Event>, fs: seq<Event>, k: nat)
    requires k <= |fs|
    ensures OpenedIn(es + fs, |es| + k) == OpenedIn(es, |es|) + OpenedIn(fs, k)
  {
    if k == 0 {
      InPrefix(es, fs, |es|);
    } else {
      OpenedSuffix(es, fs, k - 1);
    }
  }

  lemma Associate<T>(a: seq<T>, b: seq<T>, c: seq<T>)
    ensures (a + b) + c == a + (b + c)
  {
  }

  lemma SummaryAppend(es: seq<Event>, fs: seq<Event>)
    ensures SummaryOf(es + fs) == Joined(SummaryOf(es), SummaryOf(fs))
  {
    DeliveredSuffix(es, fs, |fs|);
    LostSuffix(es, fs, |fs|);
    OpenedSuffix(es, fs, |fs|);
  }

  lemma SummaryOne(e: Event)
    ensures SummaryOf([e]) == Summary(MessagesOf(e), GapOf(e), Digit(e.Opened?))
  {
    assert DeliveredIn([e], 0) == [] && LostIn([e], 0) == [] && OpenedIn([e], 0) == 0;
  }

  function GapUpTo(expected: u64, sequence: u64): seq<Gap> {
    if sequence > expected then [Gap(expected, sequence - expected)] else []
  }

  lemma LossSummary(start: seq<Event>, sessions: nat, expected: u64, sequence: u64)
    requires SummaryOf(start) == Summary([], [], sessions)
    ensures SummaryOf(start + Loss(expected, sequence)) == Summary([], GapUpTo(expected, sequence), sessions)
  {
    if sequence > expected {
      SummaryOne(Lost(expected, sequence - expected));
      SummaryAppend(start, Loss(expected, sequence));
    } else {
      assert start + [] == start;
    }
  }

  lemma DeliverySummary(es: seq<Event>, gaps: seq<Gap>, sessions: nat, first: u64, blocks: seq<Bytes>)
    requires SummaryOf(es) == Summary([], gaps, sessions)
    ensures SummaryOf(es + [Delivered(first, blocks)]) == Summary(blocks, gaps, sessions)
  {
    SummaryOne(Delivered(first, blocks));
    SummaryAppend(es, [Delivered(first, blocks)]);
    assert [] + blocks == blocks && gaps + [] == gaps;
  }

  lemma KindSummary(start: seq<Event>, sessions: nat, expected: u64, h: Header, kind: Kind, blocks: seq<Bytes>)
    requires SummaryOf(start) == Summary([], [], sessions)
    ensures SummaryOf(KindEvents(start, expected, h, kind, blocks))
      == Summary(if kind == Data then blocks else [], KindLost(expected, h, kind), sessions)
  {
    if kind == Marker || kind == Data {
      LossSummary(start, sessions, expected, h.sequence);
    }
    if kind == Data {
      DeliverySummary(start + Loss(expected, h.sequence), GapUpTo(expected, h.sequence), sessions, h.sequence, blocks);
    }
  }

  lemma StepSummary(s: State, p: Bytes)
    ensures SummaryOf(StepEvents(s, p))
      == Summary(Handed(s, p), StepLost(s, p), if |p| < HEADER_SIZE then 0 else Digit(Opens(s, DecodeHeader(p))))
  {
    if |p| >= HEADER_SIZE {
      var h := DecodeHeader(p);
      SummaryOne(Opened(h.sequence));
      KindSummary(Opening(s, h), Digit(Opens(s, h)), Adopted(s, h).expected, h, KindOf(s, p), Blocks(p));
    }
  }

  /** How many sessions the machine has begun, the first included. */
  function Sessions(s: State): nat {
    s.sessionChanges + Digit(s.started)
  }

  lemma StepSessions(s: State, p: Bytes)
    ensures Sessions(Step(s, p)) == Sessions(s) + if |p| < HEADER_SIZE then 0 else Digit(Opens(s, DecodeHeader(p)))
  {
  }

  /**
   The events of a run are what happened in it: they deliver what the sink received, they lose what was
   noted as gaps, and they begin as many sessions as the machine did.
   */
  lemma {:induction false} EventsAreReal(s: State, ps: seq<Bytes>)
    ensures Sessions(s) <= Sessions(Run(s, ps))
    ensures SummaryOf(EventsOf(s, ps)) == Summary(HandedBy(s, ps), LostBy(s, ps), Sessions(Run(s, ps)) - Sessions(s))
  {
    if ps != [] {
      var before, p := ps[..|ps| - 1], ps[|ps| - 1];
      var t := Run(s, before);
      EventsAreReal(s, before);
      StepSummary(t, p);
      StepSessions(t, p);
      SummaryAppend(EventsOf(s, before), StepEvents(t, p));
    }
  }

  // ---- accounting ----

  /** The 64-bit number after the packet's last message was reduced modulo 2^64. */
  predicate Wraps(s: State, p: Bytes) {
    KindOf(s, p) == Data && DecodeHeader(p).sequence + DecodeHeader(p).count >= TWO_64
  }

  /** How far the expected number moves within a session, over a run. */
  ghost function Advance(s: State, ps: seq<Bytes>): int {
    if ps == [] then 0
    else
      var before, p := Run(s, ps[..|ps| - 1]), ps[|ps| - 1];
      Advance(s, ps[..|ps| - 1]) + StepAdvance(before, p)
  }

  ghost function StepAdvance(s: State, p: Bytes): int {
    if |p| < HEADER_SIZE then 0 else Step(s, p).expected - Adopted(s, DecodeHeader(p)).expected
  }

  ghost function WrapCount(s: State, ps: seq<Bytes>): nat {
    if ps == [] then 0
    else WrapCount(s, ps[..|ps| - 1]) + Digit(Wraps(Run(s, ps[..|ps| - 1]), ps[|ps| - 1]))
  }

  lemma StepAccounting(s: State, p: Bytes)
    ensures var t := Step(s, p);
      t.messages + t.gapMessages == s.messages + s.gapMessages + StepAdvance(s, p) + TWO_64 * Digit(Wraps(s, p))
  {
  }

  /** Messages delivered and messages lost add up to the advance of the expected number, but for wraps. */
  lemma {:induction false} Accounting(s: State, ps: seq<Bytes>)
    ensures var t := Run(s, ps);
      t.messages + t.gapMessages == s.messages + s.gapMessages + Advance(s, ps) + TWO_64 * WrapCount(s, ps)
  {
    if ps != [] {
      Accounting(s, ps[..|ps| - 1]);
      StepAccounting(Run(s, ps[..|ps| - 1]), ps[|ps| - 1]);
    }
  }

  /** Every packet long enough to have a header is of the session the machine is in. */
  predicate OneSession(s: State, ps: seq<Bytes>) {
    s.started && forall p | p in ps && |p| >= HEADER_SIZE :: DecodeHeader(p).session == s.session
  }

  lemma StaysInSession(s: State, p: Bytes)
    requires s.started && (|p| >= HEADER_SIZE ==> DecodeHeader(p).session == s.session)
    ensures StepAdvance(s, p) == Step(s, p).expected - s.expected
    ensures Step(s, p).started && Step(s, p).session == s.session
  {
  }

  lemma {:induction false} SessionAdvance(s: State, ps: seq<Bytes>)
    requires OneSession(s, ps)
    ensures Advance(s, ps) == Run(s, ps).expected - s.expected
    ensures Run(s, ps).started && Run(s, ps).session == s.session
  {
    if ps != [] {
      SessionAdvance(s, ps[..|ps| - 1]);
      assert ps[|ps| - 1] in ps;
      StaysInSession(Run(s, ps[..|ps| - 1]), ps[|ps| - 1]);
    }
  }

  /** The messages delivered and the messages lost between two states, by the counters. */
  function Counted(s: State, t: State): int {
    (t.messages - s.messages) + (t.gapMessages - s.gapMessages)
  }

  /** As unbounded numbers, the counters and the advance within a session differ by 2^64 for each wrap, and only so. */
  lemma UnboundedAccounting(s: State, ps: seq<Bytes>)
    requires OneSession(s, ps)
    ensures var advance, k := Run(s, ps).expected - s.expected, WrapCount(s, ps);
      Counted(s, Run(s, ps)) == advance + TWO_64 * k && (Counted(s, Run(s, ps)) == advance <==> k == 0)
  {
    SessionAdvance(s, ps);
    Accounting(s, ps);
  }

  /** Within a session the counters, as 64-bit sums, account for the advance of the expected number, wraps included. */
  lemma SessionAccounting(s: State, ps: seq<Bytes>)
    requires OneSession(s, ps)
    ensures Counted(s, Run(s, ps)) % TWO_64 == Sub64(Run(s, ps).expected, s.expected)
  {
    UnboundedAccounting(s, ps);
    WrappedDistance(Counted(s, Run(s, ps)), Run(s, ps).expected, s.expected, WrapCount(s, ps));
  }

  // ---- no number twice, none left out ----

  /** The number after the event is not simply the next one: a session begins, or the 64-bit sum wraps. */
  predicate Breaks(e: Event) {
    e.Opened? || (e.Delivered? && e.first + |e.messages| >= TWO_64)
  }

  /** Events `i` to `j` belong to one session and wrap nowhere. */
  ghost predicate Straight(es: seq<Event>, i: nat, j: nat)
    requires i <= j <= |es|
  {
    forall k {:trigger Breaks(es[k])} | i <= k < j :: !Breaks(es[k])
  }

  /** The event delivers the message with number `n`, or reports it lost. */
  predicate Covers(e: Event, n: nat) {
    match e
    case Opened(_) => false
    case Lost(first, count) => first <= n < first + count
    case Delivered(first, ms) => first <= n < first + |ms|
  }

  lemma CoversWithin(es: seq<Event>, start: u64, k: nat, n: nat)
    requires Tiles(es, start) && k < |es| && !Breaks(es[k])
    ensures Covers(es[k], n) <==> Cursor(es, k, start) <= n < Cursor(es, k + 1, start)
    ensures Cursor(es, k, start) < Cursor(es, k + 1, start)
  {
    assert FitsAt(es, k, start);
  }

  lemma {:induction false} CursorGrows(es: seq<Event>, start: u64, i: nat, j: nat)
    requires Tiles(es, start) && i <= j <= |es| && Straight(es, i, j)
    ensures Cursor(es, i, start) + (j - i) <= Cursor(es, j, start)
  {
    if i < j {
      CursorGrows(es, start, i, j - 1);
      assert !Breaks(es[j - 1]);
      CoversWithin(es, start, j - 1, 0);
    }
  }

  lemma {:induction false} SomeEventCovers(es: seq<Event>, start: u64, i: nat, j: nat, n: nat) returns (k: nat)
    requires Tiles(es, start) && i <= j <= |es| && Straight(es, i, j)
    requires Cursor(es, i, start) <= n < Cursor(es, j, start)
    ensures i <= k < j && Covers(es[k], n)
  {
    assert !Breaks(es[j - 1]);
    if n >= Cursor(es, j - 1, start) {
      k := j - 1;
      CoversWithin(es, start, k, n);
    } else {
      k := SomeEventCovers(es, start, i, j - 1, n);
    }
  }

  lemma SubStraight(es: seq<Event>, i: nat, a: nat, b: nat, j: nat)
    requires i <= a <= b <= j <= |es| && Straight(es, i, j)
    ensures Straight(es, a, b)
  {
  }

  /** An event of a straight stretch covers only numbers between its ends. */
  lemma CoveredBetween(es: seq<Event>, start: u64, i: nat, j: nat, k: nat, n: nat)
    requires Tiles(es, start) && i <= k < j <= |es| && Straight(es, i, j) && Covers(es[k], n)
    ensures Cursor(es, i, start) <= n < Cursor(es, j, start)
  {
    assert !Breaks(es[k]);
    SubStraight(es, i, i, k, j);
    SubStraight(es, i, k + 1, j, j);
    CoversWithin(es, start, k, n);
    CursorGrows(es, start, i, k);
    CursorGrows(es, start, k + 1, j);
  }

  lemma NoRepeat(es: seq<Event>, start: u64, k: nat, l: nat, n: nat)
    requires Tiles(es, start) && k < l < |es| && Straight(es, k, l + 1)
    ensures !(Covers(es[k], n) && Covers(es[l], n))
  {
    assert !Breaks(es[k]) && !Breaks(es[l]);
    SubStraight(es, k, k + 1, l, l + 1);
    CoversWithin(es, start, k, n);
    CoversWithin(es, start, l, n);
    CursorGrows(es, start, k + 1, l);
  }

  /** A number is covered twice only across an event that begins a session or wraps. */
  lemma RepeatsNeedBreak(s: State, ps: seq<Bytes>, k: nat, l: nat, n: nat)
    requires k < l < |EventsOf(s, ps)| && Covers(EventsOf(s, ps)[k], n) && Covers(EventsOf(s, ps)[l], n)
    ensures exists m :: k <= m <= l && Breaks(EventsOf(s, ps)[m])
  {
    RunTiles(s, ps);
    if Straight(EventsOf(s, ps), k, l + 1) {
      NoRepeat(EventsOf(s, ps), s.expected, k, l, n);
    }
  }

  /** Packets of one session open none, and without a wrap the whole trace is straight. */
  lemma {:induction false} SessionStraight(s: State, ps: seq<Bytes>)
    requires OneSession(s, ps) && WrapCount(s, ps) == 0
    ensures Straight(EventsOf(s, ps), 0, |EventsOf(s, ps)|)
  {
    if ps != [] {
      var before, p := ps[..|ps| - 1], ps[|ps| - 1];
      SessionStraight(s, before);
      SessionAdvance(s, before);
      assert p in ps;
      StepStraight(Run(s, before), p);
      StraightConcat(EventsOf(s, before), StepEvents(Run(s, before), p));
    }
  }

  lemma StepStraight(s: State, p: Bytes)
    requires s.started && !Wraps(s, p) && (|p| >= HEADER_SIZE ==> DecodeHeader(p).session == s.session)
    ensures Straight(StepEvents(s, p), 0, |StepEvents(s, p)|)
  {
  }

  lemma StraightConcat(es: seq<Event>, fs: seq<Event>)
    requires Straight(es, 0, |es|) && Straight(fs, 0, |fs|)
    ensures Straight(es + fs, 0, |es + fs|)
  {
    forall k | 0 <= k < |es + fs| ensures !Breaks((es + fs)[k]) {
      assert if k < |es| then !Breaks(es[k]) else !Breaks(fs[k - |es|]);
    }
  }

  ghost predicate CoveredBy(es: seq<Event>, n: nat) {
    exists k :: 0 <= k < |es| && Covers(es[k], n)
  }

  /** No two events cover the number. */
  ghost predicate CoveredOnce(es: seq<Event>, n: nat) {
    forall k, l | 0 <= k < l < |es| :: !(Covers(es[k], n) && Covers(es[l], n))
  }

  /**
   Over packets of one session whose numbers do not wrap, however lost, repeated, reordered or malformed:
   the numbers from the expected one before to the expected one after, and no others, are each covered by
   one event and one only, delivered once or reported lost once.
   */
  lemma Partition(s: State, ps: seq<Bytes>, n: nat)
    requires OneSession(s, ps) && WrapCount(s, ps) == 0
    ensures s.expected <= n < Run(s, ps).expected <==> CoveredBy(EventsOf(s, ps), n)
    ensures CoveredOnce(EventsOf(s, ps), n)
  {
    var es, t := EventsOf(s, ps), Run(s, ps);
    RunTiles(s, ps);
    SessionStraight(s, ps);
    if s.expected <= n < t.expected {
      var k := SomeEventCovers(es, s.expected, 0, |es|, n);
    }
    forall k | 0 <= k < |es| && Covers(es[k], n) ensures s.expected <= n < t.expected {
      CoveredBetween(es, s.expected, 0, |es|, k, n);
    }
    forall k, l | 0 <= k < l < |es| ensures !(Covers(es[k], n) && Covers(es[l], n)) {
      SubStraight(es, 0, k, l + 1, |es|);
      NoRepeat(es, s.expected, k, l, n);
    }
  }

  // ---- which packet repeats a number ----

  /** Some number that `es` delivers or reports lost is delivered or reported lost again by `fs`. */
  ghost predicate Repeats(es: seq<Event>, fs: seq<Event>) {
    exists n: nat {:trigger CoveredBy(fs, n)} :: CoveredBy(es, n) && CoveredBy(fs, n)
  }

  /** What one packet covers: its own messages, and within the session what it shows to be missing. */
  lemma StepCovers(s: State, p: Bytes, n: nat)
    requires |p| >= HEADER_SIZE
    ensures var h, expected := DecodeHeader(p), Adopted(s, DecodeHeader(p)).expected;
      CoveredBy(StepEvents(s, p), n) <==>
        match KindOf(s, p)
        case Marker => expected <= n < h.sequence
        case Data => expected <= n < h.sequence + h.count
        case _ => false
  {
    var h := DecodeHeader(p);
    var a := Adopted(s, h);
    var es, start, loss := StepEvents(s, p), Opening(s, h), Loss(a.expected, h.sequence);
    if KindOf(s, p) == Data && h.sequence <= n < h.sequence + h.count {
      assert Covers(es[|es| - 1], n);
    }
    if (KindOf(s, p) == Marker || KindOf(s, p) == Data) && a.expected <= n < h.sequence {
      assert es[|start|] == loss[0] && Covers(es[|start|], n);
    }
  }

  /**
   After packets of one session without a wrap, a packet covers a number again exactly when it opens another session
   and its blocks are delivered from a number before the expected one, and reach past the number the run began at.
   */
  lemma RepeatsExactly(s: State, ps: seq<Bytes>, p: Bytes)
    requires OneSession(s, ps) && WrapCount(s, ps) == 0
    ensures var t := Run(s, ps);
      Repeats(EventsOf(s, ps), StepEvents(t, p)) <==>
        && KindOf(t, p) == Data && Opens(t, DecodeHeader(p))
        && s.expected < t.expected && DecodeHeader(p).sequence < t.expected
        && s.expected < DecodeHeader(p).sequence + DecodeHeader(p).count
  {
    var t := Run(s, ps);
    SessionAdvance(s, ps);
    if Repeats(EventsOf(s, ps), StepEvents(t, p)) {
      var n: nat :| CoveredBy(EventsOf(s, ps), n) && CoveredBy(StepEvents(t, p), n);
      Partition(s, ps, n);
      StepCovers(t, p, n);
    }
    if KindOf(t, p) == Data && Opens(t, DecodeHeader(p)) {
      var first := DecodeHeader(p).sequence;
      var n: nat := if first < s.expected then s.expected else first;
      Partition(s, ps, n);
      StepCovers(t, p, n);
    }
  }

  // ---- a fresh receiver ----

  /** Packet `k` is the first that is long enough to have a header, which is `h`. */
  ghost predicate BeginsWith(ps: seq<Bytes>, k: nat, h: Header) {
    && k < |ps| && |ps[k]| >= HEADER_SIZE && h == DecodeHeader(ps[k])
    && forall j {:trigger ps[j]} | 0 <= j < k :: |ps[j]| < HEADER_SIZE
  }

  /** Run from `s`, the packets do what they do once header `h` has been adopted, and open its session first. */
  ghost predicate OpensThenRuns(s: State, h: Header, ps: seq<Bytes>) {
    && Run(s, ps) == Run(Adopted(s, h), ps)
    && EventsOf(s, ps) == [Opened(h.sequence)] + EventsOf(Adopted(s, h), ps)
    && WrapCount(s, ps) == WrapCount(Adopted(s, h), ps)
  }

  /** Packets too short for a header leave a fresh receiver fresh. */
  lemma {:induction false} BeforeHeader(s: State, h: Header, ps: seq<Bytes>)
    requires !s.started && forall j {:trigger ps[j]} | 0 <= j < |ps| :: |ps[j]| < HEADER_SIZE
    ensures !Run(s, ps).started && Run(Adopted(s, h), ps) == Adopted(Run(s, ps), h)
    ensures EventsOf(s, ps) == EventsOf(Adopted(s, h), ps) == []
    ensures WrapCount(s, ps) == WrapCount(Adopted(s, h), ps) == 0
  {
    if ps != [] {
      BeforeHeader(s, h, ps[..|ps| - 1]);
    }
  }

  lemma FirstStep(s: State, h: Header, p: Bytes)
    requires !s.started && |p| >= HEADER_SIZE && h == DecodeHeader(p)
    ensures Step(s, p) == Step(Adopted(s, h), p)
    ensures StepEvents(s, p) == [Opened(h.sequence)] + StepEvents(Adopted(s, h), p)
    ensures Wraps(s, p) == Wraps(Adopted(s, h), p)
  {
  }

  /** A fresh receiver is from the start in the session that the first header names, at the number it names. */
  lemma {:induction false} FreshRun(s: State, h: Header, ps: seq<Bytes>, k: nat)
    requires !s.started && BeginsWith(ps, k, h)
    ensures OpensThenRuns(s, h, ps)
  {
    var before, p := ps[..|ps| - 1], ps[|ps| - 1];
    if k == |ps| - 1 {
      BeforeHeader(s, h, before);
      FirstStep(Run(s, before), h, p);
    } else {
      FreshRun(s, h, before, k);
      Associate([Opened(h.sequence)], EventsOf(Adopted(s, h), before), StepEvents(Run(s, before), p));
    }
  }

  /**
   The partition from a fresh receiver on: of packets of one session without a wrap, the numbers from that of the
   first packet to the expected one, and no others, are each covered by one event and one only.
   */
  lemma FreshPartition(s: State, h: Header, ps: seq<Bytes>, k: nat, n: nat)
    requires !s.started && BeginsWith(ps, k, h) && OneSession(Adopted(s, h), ps) && WrapCount(s, ps) == 0
    ensures h.sequence <= n < Run(s, ps).expected <==> CoveredBy(EventsOf(s, ps), n)
    ensures CoveredOnce(EventsOf(s, ps), n)
  {
    FreshRun(s, h, ps, k);
    Partition(Adopted(s, h), ps, n);
    CoveredAfterOpening(h.sequence, EventsOf(Adopted(s, h), ps), n);
  }

  lemma CoveredAfterOpening(at: u64, es: seq<Event>, n: nat)
    requires CoveredOnce(es, n)
    ensures CoveredBy([Opened(at)] + es, n) <==> CoveredBy(es, n)
    ensures CoveredOnce([Opened(at)] + es, n)
  {
    var all := [Opened(at)] + es;
    assert !Covers(all[0], n);
    forall k: nat | k < |es| ensures Covers(all[k + 1], n) == Covers(es[k], n) {
    }
    if CoveredBy(es, n) {
      var k :| 0 <= k < |es| && Covers(es[k], n);
      assert Covers(all[k + 1], n);
    }
    forall k, l | 0 <= k < l < |all| ensures !(Covers(all[k], n) && Covers(all[l], n)) {
      assert k > 0 ==> !(Covers(es[k - 1], n) && Covers(es[l - 1], n));
    }
  }

  // ---- what a packet changes beside its messages ----

  /** A rejected packet changes nothing but its counter exactly when its header opens no session. */
  lemma RejectedChangesNothingExactly(s: State, p: Bytes)
    requires KindOf(s, p) == Malformed
    ensures Step(s, p) == s.(malformed := s.malformed + 1) <==> !Opens(s, DecodeHeader(p))
  {
  }

  /** A marker of the session leaves the expected number alone exactly when it names no number past it. */
  lemma MarkerAdvancesNothingExactly(s: State, p: Bytes)
    requires KindOf(s, p) == Marker && !Opens(s, DecodeHeader(p))
    ensures Step(s, p).expected == s.expected <==> DecodeHeader(p).sequence <= s.expected
  {
  }

  // ---- the list of gaps ----

  /** The gap that a packet with header `h` shows, if it shows one. */
  function KindLost(expected: u64, h: Header, kind: Kind): seq<Gap> {
    if kind == Data || kind == Marker then GapUpTo(expected, h.sequence) else []
  }

  function StepLost(s: State, p: Bytes): seq<Gap> {
    if |p| < HEADER_SIZE then []
    else KindLost(Adopted(s, DecodeHeader(p)).expected, DecodeHeader(p), KindOf(s, p))
  }

  function LostBy(s: State, ps: seq<Bytes>): seq<Gap> {
    if ps == [] then []
    else LostBy(s, ps[..|ps| - 1]) + StepLost(Run(s, ps[..|ps| - 1]), ps[|ps| - 1])
  }

  /** How many messages a list of gaps stands for. */
  function GapTotal(gaps: seq<Gap>): nat {
    if gaps == [] then 0 else GapTotal(gaps[..|gaps| - 1]) + gaps[|gaps| - 1].count
  }

  lemma GapTotalConcat(a: seq<Gap>, b: seq<Gap>)
    requires |b| <= 1
    ensures GapTotal(a + b) == GapTotal(a) + GapTotal(b)
  {
    if b == [] {
      assert a + b == a;
    } else {
      assert (a + b)[..|a|] == a && b[..0] == [];
    }
  }

  /** The counters are the messages handed over and the sum of all gaps, over any packets from any state. */
  lemma {:induction false} CountersAreTotals(s: State, ps: seq<Bytes>)
    ensures Run(s, ps).messages == s.messages + |HandedBy(s, ps)|
    ensures Run(s, ps).gapMessages == s.gapMessages + GapTotal(LostBy(s, ps))
  {
    if ps != [] {
      var before, p := ps[..|ps| - 1], ps[|ps| - 1];
      CountersAreTotals(s, before);
      StepCounters(Run(s, before), p);
      GapTotalConcat(LostBy(s, before), StepLost(Run(s, before), p));
    }
  }

  lemma StepCounters(s: State, p: Bytes)
    ensures Step(s, p).messages == s.messages + |Handed(s, p)|
    ensures |StepLost(s, p)| <= 1 && Step(s, p).gapMessages == s.gapMessages + GapTotal(StepLost(s, p))
  {
    if |StepLost(s, p)| == 1 {
      assert StepLost(s, p)[..0] == [];
    }
  }

  /** The listed gaps are the first 4096 of all gaps, and the two counters count them all and sum them all. */
  lemma {:induction false} GapsListed(ps: seq<Bytes>)
    ensures var t, lost := Run(INITIAL, ps), LostBy(INITIAL, ps);
      && t.gapsTotal == |lost| && t.gapMessages == GapTotal(lost)
      && t.gaps == if |lost| <= MAX_GAPS then lost else lost[..MAX_GAPS]
  {
    CountersAreTotals(INITIAL, ps);
    if ps != [] {
      var before, p := ps[..|ps| - 1], ps[|ps| - 1];
      GapsListed(before);
      StepGap(Run(INITIAL, before), p);
    }
  }

  lemma NotedGap(s: State, sequence: u64)
    ensures var t, lost := NotedUpTo(s, sequence), GapUpTo(s.expected, sequence);
      && t.gapsTotal == s.gapsTotal + |lost|
      && t.gaps == if |s.gaps| < MAX_GAPS then s.gaps + lost else s.gaps
  {
  }

  lemma StepGap(s: State, p: Bytes)
    ensures var t, lost := Step(s, p), StepLost(s, p);
      && t.gapsTotal == s.gapsTotal + |lost|
      && t.gaps == if |s.gaps| < MAX_GAPS then s.gaps + lost else s.gaps
  {
    if |p| >= HEADER_SIZE {
      NotedGap(Adopted(s, DecodeHeader(p)), DecodeHeader(p).sequence);
    }
  }
}
