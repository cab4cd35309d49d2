/** The join: books built from packets are the books built from the file. */
module Wire {
  import opened Words
  import opened Bytes
  import opened FlatHashMap
  import opened Framing
  import opened Mold
  import opened Lossy
  import opened Replaying
  import opened Streams
  import opened BookTable
  import opened Replays
  import A = Arrivals
  import D = DecoderSpec
  import Decoding

  // ---- what reaches the sink ----

  predicate Fits(m: Bytes, maxPayload: nat) {
    2 + |m| <= maxPayload
  }

  ghost predicate AllFit(ms: seq<Bytes>, maxPayload: nat) {
    forall i {:trigger Fits(ms[i], maxPayload)} | 0 <= i < |ms| :: Fits(ms[i], maxPayload)
  }

  lemma AllFitSplit(ms: seq<Bytes>, maxPayload: nat)
    requires ms != []
    ensures AllFit(ms, maxPayload) == (Fits(ms[0], maxPayload) && AllFit(ms[1..], maxPayload))
  {
    var rest := ms[1..];
    if AllFit(ms, maxPayload) {
      forall i | 0 <= i < |rest| ensures Fits(rest[i], maxPayload) {
        assert Fits(ms[i + 1], maxPayload);
      }
    }
    if Fits(ms[0], maxPayload) && AllFit(rest, maxPayload) {
      forall i | 0 <= i < |ms| ensures Fits(ms[i], maxPayload) {
        assert i > 0 ==> Fits(rest[i - 1], maxPayload);
      }
    }
  }

  /** Nothing is left out exactly when every message fits. */
  lemma {:induction false} FittingExactly(ms: seq<Bytes>, maxPayload: nat)
    ensures if AllFit(ms, maxPayload) then Fitting(ms, maxPayload) == ms else |Fitting(ms, maxPayload)| < |ms|
  {
    if ms != [] {
      AllFitSplit(ms, maxPayload);
      FittingExactly(ms[1..], maxPayload);
      assert ms == [ms[0]] + ms[1..];
    }
  }

  /** Nothing is missing exactly when no packet is dropped. */
  lemma {:induction false} KeptExactly(gs: seq<seq<Bytes>>, drop: Drop, i: nat)
    requires AllShippable(gs) && i <= |gs|
    ensures if NoneDropped(drop, i) then Kept(gs, drop, i) == Flat(gs, i) else |Kept(gs, drop, i)| < |Flat(gs, i)|
  {
    if i > 0 {
      KeptExactly(gs, drop, i - 1);
      assert Shippable(gs[i - 1]);
      assert NoneDropped(drop, i) == (NoneDropped(drop, i - 1) && !drop(i - 1));
    }
  }

  /**
   The sink receives every message of the file, each once and in order, exactly when every message
   fits the payload limit and no packet is dropped.
   */
  lemma DeliveredExactly(session: Session, gs: seq<seq<Bytes>>, drop: Drop, file: Bytes, maxPayload: nat)
    requires AllShippable(gs) && Flat(gs, |gs|) == Fitting(Frames(file, 0), maxPayload)
    ensures D.HandedBy(D.INITIAL, Transmission(session, gs, drop)) == Frames(file, 0)
      <==> AllFit(Frames(file, 0), maxPayload) && NoneDropped(drop, |gs|)
  {
    TransmissionReceived(session, gs, drop);
    KeptExactly(gs, drop, |gs|);
    FittingExactly(Frames(file, 0), maxPayload);
  }

  // ---- the receiving side ----

  /** Applies the messages that one packet handed over. */
  method ApplyHanded(books: BookSet, stats: ReplayStats, handed: seq<Bytes>,
                     ghost s: Books, ghost ms: seq<Bytes>, ghost k: nat, ghost next: nat)
    requires books.Valid() && stats !in books.repr
    requires Tabled(s) && AllSane(ms) && RoomyRun(s, ms) && k <= next <= |ms| && handed == ms[k..next]
    requires books.model == After(s, ms, k) && Tracks(stats, s, ms, k)
    modifies books.repr, stats
    ensures books.Valid() && fresh(books.repr - old(books.repr))
    ensures books.model == After(s, ms, next) && Tracks(stats, s, ms, next)
  {
    for i := 0 to |handed|
      invariant books.Valid() && fresh(books.repr - old(books.repr)) && stats !in books.repr
      invariant books.model == After(s, ms, k + i) && Tracks(stats, s, ms, k + i)
    {
      assert handed[i] == ms[k + i];
      ReplayOne(books, handed[i], stats, s, ms, k + i);
    }
  }

  lemma {:induction false} HandedPrefix(start: D.State, ps: seq<Bytes>, n: nat)
    requires n <= |ps|
    ensures D.HandedBy(start, ps[..n]) <= D.HandedBy(start, ps)
    decreases |ps| - n
  {
    if n < |ps| {
      assert ps[..n + 1][..n] == ps[..n];
      HandedPrefix(start, ps, n + 1);
    } else {
      assert ps[..n] == ps;
    }
  }

  lemma PrefixSlice(a: seq<Bytes>, b: seq<Bytes>, all: seq<Bytes>)
    requires a + b <= all
    ensures |a| + |b| <= |all| && b == all[|a|..|a| + |b|]
  {
    assert all[..|a| + |b|] == a + b;
  }

  lemma TakeNext(ps: seq<Bytes>, n: nat)
    requires n < |ps|
    ensures ps[..n + 1] == ps[..n] + [ps[n]]
  {
  }

  /** Where a decoder stands, and how many messages it has handed over. */
  datatype Progress = Progress(state: D.State, handed: nat)

  /** Where the first `n` packets bring a decoder that begins at `start`. */
  function ProgressAt(start: D.State, ps: seq<Bytes>, n: nat): Progress
    requires n <= |ps|
  {
    Progress(D.Run(start, ps[..n]), |D.HandedBy(start, ps[..n])|)
  }

  lemma ProgressNext(start: D.State, ps: seq<Bytes>, n: nat, st: D.State, k: nat)
    requires n < |ps| && ProgressAt(start, ps, n) == Progress(st, k)
    ensures ProgressAt(start, ps, n + 1) == Progress(D.Step(st, ps[n]), k + |D.Handed(st, ps[n])|)
    ensures D.HandedBy(start, ps[..n + 1]) == D.HandedBy(start, ps[..n]) + D.Handed(st, ps[n])
  {
    TakeNext(ps, n);
    RunSnoc(start, ps[..n], ps[n]);
  }

  /** What the next packet hands over continues the messages handed over so far. */
  lemma HandedNext(start: D.State, ps: seq<Bytes>, n: nat, st: D.State, k: nat, handed: seq<Bytes>, all: seq<Bytes>)
    requires n < |ps| && ProgressAt(start, ps, n) == Progress(st, k)
    requires handed == D.Handed(st, ps[n]) && all == D.HandedBy(start, ps)
    ensures ProgressAt(start, ps, n + 1) == Progress(D.Step(st, ps[n]), k + |handed|)
    ensures k + |handed| <= |all| && handed == all[k..k + |handed|]
  {
    ProgressNext(start, ps, n, st, k);
    HandedPrefix(start, ps, n + 1);
    PrefixSlice(D.HandedBy(start, ps[..n]), handed, all);
  }

  /** The decoder takes packet `n`. */
  method Decode(decoder: Decoding.Decoder, p: Bytes,
                ghost ps: seq<Bytes>, ghost ms: seq<Bytes>, ghost n: nat, ghost k: nat)
    returns (handed: seq<Bytes>, ghost next: nat)
    requires n < |ps| && p == ps[n] && ms == D.HandedBy(D.INITIAL, ps)
    requires ProgressAt(D.INITIAL, ps, n) == Progress(decoder.State(), k)
    modifies decoder
    ensures k <= next <= |ms| && handed == ms[k..next]
    ensures ProgressAt(D.INITIAL, ps, n + 1) == Progress(decoder.State(), next)
  {
    ghost var st := decoder.State();
    handed := decoder.OnPacket(p);
    next := k + |handed|;
    HandedNext(D.INITIAL, ps, n, st, k, handed, ms);
  }

  /** One packet: decoded, and what it hands over applied. */
  method ReceiveOne(books: BookSet, stats: ReplayStats, decoder: Decoding.Decoder, p: Bytes, ghost s: Books,
                    ghost ps: seq<Bytes>, ghost ms: seq<Bytes>, ghost n: nat, ghost k: nat) returns (ghost next: nat)
    requires books.Valid() && stats !in books.repr && decoder !in books.repr
    requires n < |ps| && p == ps[n] && ms == D.HandedBy(D.INITIAL, ps) && k <= |ms|
    requires ProgressAt(D.INITIAL, ps, n) == Progress(decoder.State(), k)
    requires Tabled(s) && AllSane(ms) && RoomyRun(s, ms)
    requires books.model == After(s, ms, k) && Tracks(stats, s, ms, k)
    modifies books.repr, stats, decoder
    ensures books.Valid() && fresh(books.repr - old(books.repr)) && stats !in books.repr && decoder !in books.repr
    ensures next <= |ms| && ProgressAt(D.INITIAL, ps, n + 1) == Progress(decoder.State(), next)
    ensures books.model == After(s, ms, next) && Tracks(stats, s, ms, next)
  {
    var handed;
    handed, next := Decode(decoder, p, ps, ms, n, k);
    ghost var st := decoder.State();
    ApplyHanded(books, stats, handed, s, ms, k, next);
    assert decoder.State() == st;
  }

  /** Decodes packets and applies what they hand over, for any packets whatever. */
  method Receive(books: BookSet, ps: seq<Bytes>) returns (stats: ReplayStats, decoder: Decoding.Decoder)
    requires books.Valid()
    requires AllSane(D.HandedBy(D.INITIAL, ps)) && RoomyRun(books.model, D.HandedBy(D.INITIAL, ps))
    modifies books.repr
    ensures books.Valid() && fresh(books.repr - old(books.repr)) && fresh(stats)
    ensures decoder.State() == D.Run(D.INITIAL, ps)
    ensures var ms := D.HandedBy(D.INITIAL, ps);
      books.model == After(old(books.model), ms, |ms|) && Tracks(stats, old(books.model), ms, |ms|)
  {
    stats := new ReplayStats();
    decoder := new Decoding.Decoder();
    ghost var s, ms := books.model, D.HandedBy(D.INITIAL, ps);
    ghost var k: nat := 0;
    for n := 0 to |ps|
      invariant books.Valid() && fresh(books.repr - old(books.repr)) && stats !in books.repr && decoder !in books.repr
      invariant ProgressAt(D.INITIAL, ps, n) == Progress(decoder.State(), k) && k <= |ms|
      invariant books.model == After(s, ms, k) && Tracks(stats, s, ms, k)
    {
      k := ReceiveOne(books, stats, decoder, ps[n], s, ps, ms, n, k);
    }
    assert ps[..|ps|] == ps;
  }

  /**
   Books from packets that arrive with copies and in part late: those of the file, when no packet comes before an
   earlier one has and the last one comes.
   */
  method ReceiveArrivals(books: BookSet, packets: seq<Bytes>, ghost file: Bytes,
                         ghost session: Session, ghost gs: seq<seq<Bytes>>, ghost order: A.Order)
    returns (stats: ReplayStats, decoder: Decoding.Decoder)
    requires books.Valid() && AllSane(Frames(file, 0)) && RoomyRun(books.model, Frames(file, 0))
    requires AllShippable(gs) && Flat(gs, |gs|) == Frames(file, 0)
    requires A.Names(order, |gs|) && packets == A.Arrived(session, gs, order, |order|)
    requires A.NoHole(order, |order|) && A.Top(order, |order|) == |gs|
    modifies books.repr
    ensures books.Valid() && fresh(books.repr - old(books.repr)) && fresh(stats)
    ensures var ms := Frames(file, 0);
      books.model == After(old(books.model), ms, |ms|) && Tracks(stats, old(books.model), ms, |ms|)
    ensures decoder.State().gapMessages == 0 && decoder.State().messages == |Frames(file, 0)|
    ensures decoder.State().duplicates == A.Copies(order, |order|)
  {
    A.CopiesDoNoHarm(D.INITIAL, session, gs, order);
    A.AnyArrivals(D.INITIAL, session, gs, order, |order|);
    D.CountersAreTotals(D.INITIAL, packets);
    stats, decoder := Receive(books, packets);
  }

  // ---- both sides together ----

  /** The receiver has seen the end, and nothing lost, ignored, rejected or out of session before it. */
  predicate Flawless(t: D.State) {
    && t.eos && t.gaps == [] && t.gapsTotal == 0 && t.gapMessages == 0
    && t.duplicates == 0 && t.malformed == 0 && t.heartbeats == 0 && t.sessionChanges == 0
  }

  lemma FlawlessReception(session: Session, gs: seq<seq<Bytes>>, drop: Drop)
    requires AllShippable(gs) && NoneDropped(drop, |gs|)
    ensures Flawless(D.Run(D.INITIAL, Transmission(session, gs, drop)))
  {
    var ps := Transmission(session, gs, drop);
    NothingLost(session, gs, drop);
    D.GapsListed(ps);
    TransmissionUntroubled(D.INITIAL, session, gs, drop);
  }

  /**
   Packs a file into packets of at most `maxPayload` bytes of blocks, sends them all, and builds books from what
   arrives. When every message fits, books and counters are those that `Replay` builds from the file itself, and
   the receiver has nothing to report.
   */
  method BuildFromWire(hash: Hash, session: Session, file: Bytes, maxPayload: nat)
    returns (books: BookSet, stats: ReplayStats, decoder: Decoding.Decoder)
    requires |file| < TWO_64 && AllFit(Frames(file, 0), maxPayload)
    requires AllSane(Frames(file, 0)) && RoomyRun(NO_BOOKS, Frames(file, 0))
    ensures books.Valid() && Flawless(decoder.State())
    ensures var ms := Frames(file, 0);
      books.model == After(NO_BOOKS, ms, |ms|) && Tracks(stats, NO_BOOKS, ms, |ms|)
  {
    var packets := SendAll(session, file, maxPayload);
    books := new BookSet(hash);
    stats, decoder := Receive(books, packets);
  }

  /** The sending side, with nothing dropped. */
  method SendAll(session: Session, file: Bytes, maxPayload: nat) returns (packets: seq<Bytes>)
    requires |file| < TWO_64 && AllFit(Frames(file, 0), maxPayload)
    ensures D.HandedBy(D.INITIAL, packets) == Frames(file, 0) && Flawless(D.Run(D.INITIAL, packets))
  {
    var replayer := new Replayer(session, maxPayload, _ => false);
    var read, packed, tooLarge, stopped, marker := replayer.Run(file, 0);
    packets := replayer.sent + [marker];
    DeliveredExactly(replayer.packer.session, replayer.groups, replayer.drop, file, maxPayload);
    FlawlessReception(replayer.packer.session, replayer.groups, replayer.drop);
  }
}
