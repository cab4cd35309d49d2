/**
 A sender's packets over a network that drops some: the receiver hands over exactly the kept
 messages, and the gaps it finds are exactly the maximal runs of dropped packets after the
 first kept one.
 */
module Lossy {
  import opened Words
  import opened Bytes
  import opened Framing
  import opened Mold
  import opened Packing
  import opened DecoderSpec

  type Drop = nat -> bool

  /** The sequence number of the first message of packet `i`. */
  function FirstOf(gs: seq<seq<Bytes>>, i: nat): (f: nat)
    requires i <= |gs|
    ensures f >= 1
  {
    if i == 0 then 1 else FirstOf(gs, i - 1) + |gs[i - 1]|
  }

  /** A group of messages that can travel as one packet. */
  predicate Shippable(g: seq<Bytes>) {
    1 <= |g| < 0xFFFF && forall m | m in g :: Framable(m)
  }

  ghost predicate AllShippable(gs: seq<seq<Bytes>>) {
    && (forall i {:trigger Shippable(gs[i])} | 0 <= i < |gs| :: Shippable(gs[i]))
    && FirstOf(gs, |gs|) < TWO_64
  }

  lemma {:induction false} FirstGrows(gs: seq<seq<Bytes>>, i: nat, j: nat)
    requires AllShippable(gs) && i <= j <= |gs|
    ensures FirstOf(gs, i) + (j - i) <= FirstOf(gs, j)
  {
    if i < j {
      FirstGrows(gs, i, j - 1);
      assert Shippable(gs[j - 1]);
    }
  }

  function Packet(session: Session, gs: seq<seq<Bytes>>, i: nat): Bytes
    requires i < |gs| && |gs[i]| < 0xFFFF && FirstOf(gs, i) < TWO_64
  {
    PacketOf(session, FirstOf(gs, i), gs[i])
  }

  /** The packets among the first `i` that the network keeps. */
  ghost function Sent(session: Session, gs: seq<seq<Bytes>>, drop: Drop, i: nat): seq<Bytes>
    requires AllShippable(gs) && i <= |gs|
  {
    if i == 0 then []
    else
      FirstGrows(gs, i - 1, |gs|);
      assert Shippable(gs[i - 1]);
      if drop(i - 1) then Sent(session, gs, drop, i - 1)
      else Sent(session, gs, drop, i - 1) + [Packet(session, gs, i - 1)]
  }

  /** The messages of the kept packets among the first `i`. */
  ghost function Kept(gs: seq<seq<Bytes>>, drop: Drop, i: nat): seq<Bytes>
    requires i <= |gs|
  {
    if i == 0 then []
    else if drop(i - 1) then Kept(gs, drop, i - 1)
    else Kept(gs, drop, i - 1) + gs[i - 1]
  }

  function MarkerPacket(session: Session, sequence: u64): Bytes {
    Encoded(Header(session, sequence, END_OF_SESSION))
  }

  // ---- one packet received ----

  /** The receiver has seen nothing yet, or is in the sender's session and not past `f`. */
  predicate Ready(s: State, session: Session, f: u64) {
    !s.started || (s.session == session && s.expected <= f)
  }

  /** Packets that were ignored, rejected or empty, and sessions that replaced another. */
  function Troubles(s: State): nat {
    s.duplicates + s.malformed + s.heartbeats + s.sessionChanges
  }

  /** Where a receiver stands: nowhere yet, or in a session with the number it expects next. */
  datatype Place = Nowhere | Expecting(session: Session, next: nat)

  function PlaceOf(s: State): Place {
    if s.started then Expecting(s.session, s.expected) else Nowhere
  }

  /** Where packet `a - 1` leaves a receiver; `a` is 0 before any packet. */
  function PlaceAfter(session: Session, gs: seq<seq<Bytes>>, a: nat): Place
    requires a <= |gs|
  {
    if a == 0 then Nowhere else Expecting(session, FirstOf(gs, a))
  }

  /** What some packets gave the receiver, and where they left it. */
  datatype Reception = Reception(messages: seq<Bytes>, gaps: seq<Gap>, duplicates: nat, place: Place)

  function ReceptionOf(start: State, ps: seq<Bytes>): Reception {
    Reception(HandedBy(start, ps), LostBy(start, ps), Run(start, ps).duplicates, PlaceOf(Run(start, ps)))
  }

  function GapBefore(s: State, f: u64): seq<Gap> {
    if s.started && f > s.expected then [Gap(s.expected, f - s.expected)] else []
  }

  lemma ReceivePacket(s: State, session: Session, f: u64, g: seq<Bytes>)
    requires Shippable(g) && f + |g| < TWO_64 && Ready(s, session, f)
    ensures var p := PacketOf(session, f, g);
      && Handed(s, p) == g
      && StepLost(s, p) == GapBefore(s, f)
      && Step(s, p).started && Step(s, p).session == session && Step(s, p).expected == f + |g|
      && Step(s, p).duplicates == s.duplicates && Troubles(Step(s, p)) == Troubles(s)
  {
    PacketRoundTrip(session, f, g);
  }

  lemma ReceiveMarker(s: State, session: Session, f: u64)
    requires Ready(s, session, f)
    ensures var p := MarkerPacket(session, f);
      && Handed(s, p) == []
      && StepLost(s, p) == GapBefore(s, f)
      && Step(s, p).expected == f && Step(s, p).eos
      && Troubles(Step(s, p)) == Troubles(s)
  {
    var h := Header(session, f, END_OF_SESSION);
    HeaderRoundTrip(h, []);
    assert Encoded(h) + [] == Encoded(h);
  }

  lemma RunSnoc(s: State, ps: seq<Bytes>, p: Bytes)
    ensures Run(s, ps + [p]) == Step(Run(s, ps), p)
    ensures HandedBy(s, ps + [p]) == HandedBy(s, ps) + Handed(Run(s, ps), p)
    ensures LostBy(s, ps + [p]) == LostBy(s, ps) + StepLost(Run(s, ps), p)
  {
    assert (ps + [p])[..|ps|] == ps;
  }

  /** A packet received after `ps`. */
  lemma ReceiveNext(start: State, ps: seq<Bytes>, session: Session, f: u64, g: seq<Bytes>)
    requires Shippable(g) && f + |g| < TWO_64 && Ready(Run(start, ps), session, f)
    ensures var r := ReceptionOf(start, ps);
      ReceptionOf(start, ps + [PacketOf(session, f, g)])
        == Reception(r.messages + g, r.gaps + GapBefore(Run(start, ps), f), r.duplicates, Expecting(session, f + |g|))
  {
    RunSnoc(start, ps, PacketOf(session, f, g));
    ReceivePacket(Run(start, ps), session, f, g);
  }

  lemma ReceiveLast(start: State, ps: seq<Bytes>, session: Session, f: u64)
    requires Ready(Run(start, ps), session, f)
    ensures var qs := ps + [MarkerPacket(session, f)];
      && HandedBy(start, qs) == HandedBy(start, ps)
      && LostBy(start, qs) == LostBy(start, ps) + GapBefore(Run(start, ps), f)
      && Run(start, qs).expected == f && Run(start, qs).eos
  {
    RunSnoc(start, ps, MarkerPacket(session, f));
    ReceiveMarker(Run(start, ps), session, f);
  }

  // ---- the run ----

  /** One past the last kept packet among the first `i`; 0 if none is kept. */
  function LastKept(drop: Drop, i: nat): (k: nat)
    ensures k <= i
  {
    if i == 0 then 0 else if drop(i - 1) then LastKept(drop, i - 1) else i
  }

  function RunGap(gs: seq<seq<Bytes>>, a: nat, b: nat): Gap
    requires AllShippable(gs) && a <= b <= |gs|
  {
    FirstGrows(gs, a, b);
    FirstGrows(gs, b, |gs|);
    Gap(FirstOf(gs, a), FirstOf(gs, b) - FirstOf(gs, a))
  }

  /** The gap between the last kept packet before `i` and packet `i`, if packets were dropped between. */
  ghost function OpenRun(gs: seq<seq<Bytes>>, drop: Drop, i: nat): seq<Gap>
    requires AllShippable(gs) && i <= |gs|
  {
    RunBefore(gs, LastKept(drop, i), i)
  }

  /** The gaps that a later kept packet has closed, among the first `i` packets. */
  ghost function ClosedRuns(gs: seq<seq<Bytes>>, drop: Drop, i: nat): seq<Gap>
    requires AllShippable(gs) && i <= |gs|
  {
    if i == 0 then []
    else if drop(i - 1) then ClosedRuns(gs, drop, i - 1)
    else ClosedRuns(gs, drop, i - 1) + OpenRun(gs, drop, i - 1)
  }

  /** The receiver after the kept packets among the first `i`. */
  lemma Follows(start: State, session: Session, gs: seq<seq<Bytes>>, drop: Drop, i: nat)
    requires AllShippable(gs) && i <= |gs| && !start.started
    ensures ReceptionOf(start, Sent(session, gs, drop, i)) == Due(start, session, gs, drop, i)
  {
    var ps := SentGives(start, session, gs, drop, i);
  }

  /** What the kept packets among the first `i` give a receiver. */
  ghost function Due(start: State, session: Session, gs: seq<seq<Bytes>>, drop: Drop, i: nat): Reception
    requires AllShippable(gs) && i <= |gs|
  {
    Reception(Kept(gs, drop, i), ClosedRuns(gs, drop, i), start.duplicates, PlaceAfter(session, gs, LastKept(drop, i)))
  }

  lemma {:induction false} SentGives(start: State, session: Session, gs: seq<seq<Bytes>>, drop: Drop, i: nat)
    returns (ps: seq<Bytes>)
    requires AllShippable(gs) && i <= |gs| && !start.started
    ensures ps == Sent(session, gs, drop, i)
    ensures ReceptionOf(start, ps) == Due(start, session, gs, drop, i)
  {
    if i == 0 {
      ps := [];
    } else {
      ps := SentGives(start, session, gs, drop, i - 1);
      if !drop(i - 1) {
        FirstGrows(gs, i - 1, |gs|);
        assert Shippable(gs[i - 1]);
        PacketNext(start, session, gs, LastKept(drop, i - 1), i, ps);
        ps := ps + [Packet(session, gs, i - 1)];
      }
    }
  }

  function RunBefore(gs: seq<seq<Bytes>>, a: nat, i: nat): seq<Gap>
    requires AllShippable(gs) && i <= |gs|
  {
    if 0 < a < i then [RunGap(gs, a, i)] else []
  }

  /** What packet `i - 1` adds at a receiver that packet `a - 1` left. */
  lemma PacketNext(start: State, session: Session, gs: seq<seq<Bytes>>, a: nat, i: nat, ps: seq<Bytes>)
    requires AllShippable(gs) && a < i <= |gs| && PlaceOf(Run(start, ps)) == PlaceAfter(session, gs, a)
    requires FirstOf(gs, i - 1) < TWO_64 && |gs[i - 1]| < 0xFFFF
    ensures var r := ReceptionOf(start, ps);
      ReceptionOf(start, ps + [Packet(session, gs, i - 1)])
        == Reception(r.messages + gs[i - 1], r.gaps + RunBefore(gs, a, i - 1), r.duplicates, PlaceAfter(session, gs, i))
  {
    PacketDue(Run(start, ps), session, gs, a, i);
    ReceiveNext(start, ps, session, FirstOf(gs, i - 1), gs[i - 1]);
  }

  lemma PacketDue(s: State, session: Session, gs: seq<seq<Bytes>>, a: nat, i: nat)
    requires AllShippable(gs) && a < i <= |gs| && PlaceOf(s) == PlaceAfter(session, gs, a)
    requires FirstOf(gs, i - 1) < TWO_64
    ensures Shippable(gs[i - 1]) && FirstOf(gs, i - 1) + |gs[i - 1]| < TWO_64 && Ready(s, session, FirstOf(gs, i - 1))
    ensures GapBefore(s, FirstOf(gs, i - 1)) == RunBefore(gs, a, i - 1)
    ensures PlaceAfter(session, gs, i) == Expecting(session, FirstOf(gs, i - 1) + |gs[i - 1]|)
  {
    assert Shippable(gs[i - 1]);
    FirstGrows(gs, i, |gs|);
    GapIsRun(s, session, gs, a, i - 1);
  }

  /** The gap seen before packet `i` by a receiver that packet `a - 1` left. */
  lemma GapIsRun(s: State, session: Session, gs: seq<seq<Bytes>>, a: nat, i: nat)
    requires AllShippable(gs) && a <= i <= |gs| && PlaceOf(s) == PlaceAfter(session, gs, a) && FirstOf(gs, i) < TWO_64
    ensures GapBefore(s, FirstOf(gs, i)) == RunBefore(gs, a, i)
    ensures Ready(s, session, FirstOf(gs, i))
  {
    FirstGrows(gs, a, i);
  }

  /** Everything the network kept, then the end-of-session marker. */
  ghost function Transmission(session: Session, gs: seq<seq<Bytes>>, drop: Drop): seq<Bytes>
    requires AllShippable(gs)
  {
    Sent(session, gs, drop, |gs|) + [MarkerPacket(session, FirstOf(gs, |gs|))]
  }

  /** All the gaps of a transmission, in order. */
  ghost function Runs(gs: seq<seq<Bytes>>, drop: Drop): seq<Gap>
    requires AllShippable(gs)
  {
    ClosedRuns(gs, drop, |gs|) + OpenRun(gs, drop, |gs|)
  }

  lemma TransmissionReceived(session: Session, gs: seq<seq<Bytes>>, drop: Drop)
    requires AllShippable(gs)
    ensures HandedBy(INITIAL, Transmission(session, gs, drop)) == Kept(gs, drop, |gs|)
    ensures LostBy(INITIAL, Transmission(session, gs, drop)) == Runs(gs, drop)
    ensures Run(INITIAL, Transmission(session, gs, drop)).expected == FirstOf(gs, |gs|)
  {
    var n := |gs|;
    var ps := Sent(session, gs, drop, n);
    var s := Run(INITIAL, ps);
    Follows(INITIAL, session, gs, drop, n);
    GapIsRun(s, session, gs, LastKept(drop, n), n);
    ReceiveLast(INITIAL, ps, session, FirstOf(gs, n));
  }

  // ---- nothing else happens ----

  lemma KeptUntroubled(s: State, session: Session, gs: seq<seq<Bytes>>, a: nat, i: nat, p: Bytes)
    requires AllShippable(gs) && a < i <= |gs| && PlaceOf(s) == PlaceAfter(session, gs, a)
    requires FirstOf(gs, i - 1) < TWO_64 && |gs[i - 1]| < 0xFFFF && p == Packet(session, gs, i - 1)
    ensures Troubles(Step(s, p)) == Troubles(s) && PlaceOf(Step(s, p)) == PlaceAfter(session, gs, i)
  {
    FirstGrows(gs, i, |gs|);
    assert Shippable(gs[i - 1]);
    GapIsRun(s, session, gs, a, i - 1);
    ReceivePacket(s, session, FirstOf(gs, i - 1), gs[i - 1]);
  }

  lemma {:induction false} NoTroubles(s: State, session: Session, gs: seq<seq<Bytes>>, drop: Drop, i: nat)
    requires AllShippable(gs) && i <= |gs| && !s.started
    ensures var t := Run(s, Sent(session, gs, drop, i));
      Troubles(t) == Troubles(s) && PlaceOf(t) == PlaceAfter(session, gs, LastKept(drop, i))
  {
    if i > 0 {
      NoTroubles(s, session, gs, drop, i - 1);
      if !drop(i - 1) {
        FirstGrows(gs, i - 1, |gs|);
        assert Shippable(gs[i - 1]);
        var ps, p := Sent(session, gs, drop, i - 1), Packet(session, gs, i - 1);
        RunSnoc(s, ps, p);
        KeptUntroubled(Run(s, ps), session, gs, LastKept(drop, i - 1), i, p);
      }
    }
  }

  /** No packet of a transmission is ignored or rejected, and none changes the session; the end is seen. */
  lemma TransmissionUntroubled(s: State, session: Session, gs: seq<seq<Bytes>>, drop: Drop)
    requires AllShippable(gs) && !s.started
    ensures var t := Run(s, Transmission(session, gs, drop)); Troubles(t) == Troubles(s) && t.eos
  {
    var n := |gs|;
    var ps := Sent(session, gs, drop, n);
    NoTroubles(s, session, gs, drop, n);
    GapIsRun(Run(s, ps), session, gs, LastKept(drop, n), n);
    RunSnoc(s, ps, MarkerPacket(session, FirstOf(gs, n)));
    ReceiveMarker(Run(s, ps), session, FirstOf(gs, n));
  }

  ghost predicate NoneDropped(drop: Drop, n: nat) {
    forall i: nat {:trigger drop(i)} | i < n :: !drop(i)
  }

  /** With nothing dropped no gap is closed and none is open. */
  lemma {:induction false} NoRuns(gs: seq<seq<Bytes>>, drop: Drop, i: nat)
    requires AllShippable(gs) && i <= |gs| && NoneDropped(drop, |gs|)
    ensures LastKept(drop, i) == i && ClosedRuns(gs, drop, i) == []
  {
    if i > 0 {
      NoRuns(gs, drop, i - 1);
      assert !drop(i - 1);
    }
  }

  lemma NothingLost(session: Session, gs: seq<seq<Bytes>>, drop: Drop)
    requires AllShippable(gs) && NoneDropped(drop, |gs|)
    ensures LostBy(INITIAL, Transmission(session, gs, drop)) == []
  {
    TransmissionReceived(session, gs, drop);
    NoRuns(gs, drop, |gs|);
  }

  // ---- the gaps are the maximal runs ----

  /** Packets `a` to `b` are all dropped, the one before is kept, and the one after is kept or there is none. */
  ghost predicate DroppedRun(n: nat, drop: Drop, a: nat, b: nat) {
    && 0 < a < b <= n
    && !drop(a - 1)
    && (b == n || !drop(b))
    && forall k: nat | a <= k < b :: drop(k)
  }

  lemma {:induction false} LastKeptIs(drop: Drop, i: nat)
    ensures var a := LastKept(drop, i);
      (a > 0 ==> !drop(a - 1)) && forall k: nat | a <= k < i :: drop(k)
  {
    if i > 0 && drop(i - 1) {
      LastKeptIs(drop, i - 1);
    }
  }

  /** A run that ends before `i` is the run that `LastKept` sees at its end. */
  lemma LastKeptOfRun(n: nat, drop: Drop, a: nat, b: nat)
    requires DroppedRun(n, drop, a, b)
    ensures LastKept(drop, b) == a
  {
    LastKeptIs(drop, b);
    var l := LastKept(drop, b);
    assert !drop(a - 1) && (l > 0 ==> !drop(l - 1));
  }

  ghost predicate IsRunGap(gs: seq<seq<Bytes>>, drop: Drop, g: Gap, a: nat, b: nat)
    requires AllShippable(gs)
  {
    DroppedRun(|gs|, drop, a, b) && g == RunGap(gs, a, b)
  }

  /** Every gap closed so far is a maximal run that ends before `i`. */
  lemma {:induction false} ClosedAreRuns(gs: seq<seq<Bytes>>, drop: Drop, i: nat)
    requires AllShippable(gs) && i <= |gs|
    ensures forall g | g in ClosedRuns(gs, drop, i) :: exists a: nat, b: nat :: b < i && IsRunGap(gs, drop, g, a, b)
    decreases i
  {
    if i > 0 {
      ClosedAreRuns(gs, drop, i - 1);
      LastKeptIs(drop, i - 1);
      if !drop(i - 1) {
        var a := LastKept(drop, i - 1);
        if 0 < a < i - 1 {
          assert IsRunGap(gs, drop, RunGap(gs, a, i - 1), a, i - 1);
        }
      }
    }
  }

  /** Every maximal run that ends before `i` is among the gaps closed so far. */
  lemma {:induction false} RunsAreClosed(gs: seq<seq<Bytes>>, drop: Drop, i: nat, a: nat, b: nat)
    requires AllShippable(gs) && DroppedRun(|gs|, drop, a, b) && b < i <= |gs|
    ensures RunGap(gs, a, b) in ClosedRuns(gs, drop, i)
  {
    if i == b + 1 {
      LastKeptOfRun(|gs|, drop, a, b);
    } else {
      RunsAreClosed(gs, drop, i - 1, a, b);
    }
  }

  ghost predicate Separated(gaps: seq<Gap>, top: nat) {
    && (forall k {:trigger gaps[k]} | 0 <= k < |gaps| :: EndsBy(gaps[k], top))
    && (forall j, k {:trigger Precedes(gaps[j], gaps[k])} | 0 <= j < k < |gaps| :: Precedes(gaps[j], gaps[k]))
  }

  predicate EndsBy(g: Gap, top: nat) {
    g.count > 0 && g.first + g.count <= top
  }

  /** A number lies between the two gaps. */
  predicate Precedes(a: Gap, b: Gap) {
    a.first + a.count < b.first
  }

  lemma SeparatedAppend(gaps: seq<Gap>, top: nat, g: Gap, top': nat)
    requires Separated(gaps, top) && top < g.first && g.count > 0 && g.first + g.count <= top'
    ensures Separated(gaps + [g], top')
  {
    var all := gaps + [g];
    forall j, k | 0 <= j < k < |all| ensures Precedes(all[j], all[k]) {
      assert k < |gaps| ==> Precedes(gaps[j], gaps[k]);
    }
  }

  /** Where the last kept packet among the first `i` begins; 0 if none is kept. */
  function LastBegin(gs: seq<seq<Bytes>>, drop: Drop, i: nat): nat
    requires i <= |gs|
  {
    var a := LastKept(drop, i);
    if a > 0 then FirstOf(gs, a - 1) else 0
  }

  lemma LastBeginStep(gs: seq<seq<Bytes>>, drop: Drop, i: nat)
    requires 0 < i <= |gs|
    ensures LastBegin(gs, drop, i) == if drop(i - 1) then LastBegin(gs, drop, i - 1) else FirstOf(gs, i - 1)
  {
  }

  /** A run that starts after packet `a - 1`, which was kept, ends up after all gaps before that packet. */
  lemma OpenSeparated(gs: seq<seq<Bytes>>, drop: Drop, i: nat, closed: seq<Gap>)
    requires AllShippable(gs) && i <= |gs|
    requires Separated(closed, LastBegin(gs, drop, i))
    ensures Separated(closed + OpenRun(gs, drop, i), FirstOf(gs, i))
  {
    var a := LastKept(drop, i);
    FirstGrows(gs, a, i);
    if a > 0 {
      FirstGrows(gs, a - 1, a);
    }
    if 0 < a < i {
      SeparatedAppend(closed, LastBegin(gs, drop, i), RunGap(gs, a, i), FirstOf(gs, i));
    } else {
      SeparatedBelow(closed, LastBegin(gs, drop, i), FirstOf(gs, i));
      assert closed + [] == closed;
    }
  }

  lemma SeparatedBelow(gaps: seq<Gap>, top: nat, top': nat)
    requires Separated(gaps, top) && top <= top'
    ensures Separated(gaps, top')
  {
  }

  /** Closed gaps come in order, a delivered message between any two, all before the last kept packet. */
  lemma {:induction false} ClosedSeparated(gs: seq<seq<Bytes>>, drop: Drop, i: nat) returns (closed: seq<Gap>)
    requires AllShippable(gs) && i <= |gs|
    ensures closed == ClosedRuns(gs, drop, i)
    ensures Separated(closed, LastBegin(gs, drop, i))
  {
    if i == 0 {
      closed := [];
    } else {
      closed := ClosedSeparated(gs, drop, i - 1);
      LastBeginStep(gs, drop, i);
      if !drop(i - 1) {
        OpenSeparated(gs, drop, i - 1, closed);
        closed := closed + OpenRun(gs, drop, i - 1);
      }
    }
  }

  lemma RunsAreRuns(gs: seq<seq<Bytes>>, drop: Drop)
    requires AllShippable(gs)
    ensures forall g | g in Runs(gs, drop) :: exists a: nat, b: nat :: IsRunGap(gs, drop, g, a, b)
  {
    var n := |gs|;
    ClosedAreRuns(gs, drop, n);
    LastKeptIs(drop, n);
    var z := LastKept(drop, n);
    if 0 < z < n {
      assert IsRunGap(gs, drop, RunGap(gs, z, n), z, n);
    }
  }

  lemma AllRunsListed(gs: seq<seq<Bytes>>, drop: Drop, a: nat, b: nat)
    requires AllShippable(gs) && DroppedRun(|gs|, drop, a, b)
    ensures RunGap(gs, a, b) in Runs(gs, drop)
  {
    if b < |gs| {
      RunsAreClosed(gs, drop, |gs|, a, b);
    } else {
      LastKeptOfRun(|gs|, drop, a, b);
    }
  }

  lemma RunsSeparated(gs: seq<seq<Bytes>>, drop: Drop)
    requires AllShippable(gs)
    ensures Separated(Runs(gs, drop), FirstOf(gs, |gs|))
  {
    var closed := ClosedSeparated(gs, drop, |gs|);
    OpenSeparated(gs, drop, |gs|, closed);
  }

  /**
   The receiver of a transmission hands over the kept messages in order and, when the marker has
   come, has found exactly the maximal runs of dropped packets after the first kept one.
   */
  lemma DropsFound(session: Session, gs: seq<seq<Bytes>>, drop: Drop)
    requires AllShippable(gs)
    ensures HandedBy(INITIAL, Transmission(session, gs, drop)) == Kept(gs, drop, |gs|)
    ensures var lost := LostBy(INITIAL, Transmission(session, gs, drop));
      && (forall g | g in lost :: exists a: nat, b: nat :: IsRunGap(gs, drop, g, a, b))
      && (forall a: nat, b: nat | DroppedRun(|gs|, drop, a, b) :: RunGap(gs, a, b) in lost)
      && Separated(lost, FirstOf(gs, |gs|))
  {
    TransmissionReceived(session, gs, drop);
    RunsAreRuns(gs, drop);
    forall a: nat, b: nat | DroppedRun(|gs|, drop, a, b) ensures RunGap(gs, a, b) in Runs(gs, drop) {
      AllRunsListed(gs, drop, a, b);
    }
    RunsSeparated(gs, drop);
  }
}
