/** The dispatch from messages to books, and the walk over a whole buffer. */
module Replays {
  import opened Words
  import opened Bytes
  import opened Framing
  import opened BookSpec
  import opened Itch
  import opened Streams
  import opened BookTable

  class ReplayStats {
    var messages: nat
    var unknownType: nat
    var lengthMismatch: nat
    var unknownLocate: nat
    var applied: nat
    var unknownRef: nat
    var duplicateRef: nat
    var clampedReduce: nat

    function Count(c: Counter): nat
      reads this
    {
      match c
      case Messages => messages
      case UnknownType => unknownType
      case LengthMismatch => lengthMismatch
      case UnknownLocate => unknownLocate
      case Outcome(Applied) => applied
      case Outcome(UnknownRef) => unknownRef
      case Outcome(DuplicateRef) => duplicateRef
      case Outcome(ClampedReduce) => clampedReduce
    }

    constructor ()
      ensures forall c :: Count(c) == 0
    {
      messages, unknownType, lengthMismatch, unknownLocate := 0, 0, 0, 0;
      applied, unknownRef, duplicateRef, clampedReduce := 0, 0, 0, 0;
    }

    method Tally(r: ApplyResult)
      modifies this`applied, this`unknownRef, this`duplicateRef, this`clampedReduce
      ensures forall c :: Count(c) == old(Count(c)) + Digit(c == Outcome(r))
      ensures applied == old(applied) + Digit(r == Applied) && unknownRef == old(unknownRef) + Digit(r == UnknownRef)
      ensures duplicateRef == old(duplicateRef) + Digit(r == DuplicateRef)
      ensures clampedReduce == old(clampedReduce) + Digit(r == ClampedReduce)
    {
      match r
      case Applied => applied := applied + 1;
      case UnknownRef => unknownRef := unknownRef + 1;
      case DuplicateRef => duplicateRef := duplicateRef + 1;
      case ClampedReduce => clampedReduce := clampedReduce + 1;
    }

    /** Nothing happened that a clean stream does not do; a type that is not named is not held against it. */
    predicate Clean()
      reads this
    {
      lengthMismatch == 0 && unknownLocate == 0 && unknownRef == 0 && duplicateRef == 0 && clampedReduce == 0
    }
  }

  /** Counters of what became of a message at its book. */
  predicate AtBook(c: Counter) {
    c.UnknownLocate? || c.Outcome?
  }

  /** Counts the message, and what its first byte and its length say about it. */
  method Classify(msg: Bytes, stats: ReplayStats, ghost s: Books) returns (named: bool)
    requires Readable(msg) && Tabled(s)
    modifies stats
    ensures named == IsKnown(msg[0])
    ensures forall c :: stats.Count(c) == old(stats.Count(c)) + Digit(!AtBook(c) && Counts(s, msg, c))
    ensures named == ((msg[0] as char) in "SRHYLAFECXDUPQB") && stats.messages == old(stats.messages) + 1
    ensures stats.unknownType == old(stats.unknownType) + if named then 0 else 1
    ensures stats.lengthMismatch ==
      old(stats.lengthMismatch) + if named && |msg| != ExpectedLength(msg[0]) then 1 else 0
  {
    stats.messages := stats.messages + 1;
    var t := msg[0];
    if !IsKnown(t) {
      stats.unknownType := stats.unknownType + 1;
      return false;
    }
    if ExpectedLength(t) != |msg| {
      stats.lengthMismatch := stats.lengthMismatch + 1;
    }
    return true;
  }

  /** A message that asks for something, by its bytes, of a book that the table knows. */
  ghost predicate Reaches(s: Books, m: Bytes, a: Action, locate: u16) {
    m != [] && Says(m, a) && Spells(m, 1, 2, locate) && Known(s, locate)
  }

  /** What the message asks for is done on the one book it names, and no other book changes. */
  ghost predicate DoneAt(s: Books, t: Books, a: Action, locate: u16)
    requires Tabled(s) && Tabled(t) && locate < |s.books|
  {
    && |t.books| == |s.books| && t == s.(books := s.books[locate := t.books[locate]])
    && BookEffect(s.books[locate], t.books[locate], ActResult(s.books[locate], a), a)
  }

  lemma Reached(s: Books, m: Bytes, a: Action, locate: u16)
    requires Sane(m) && Tabled(s) && AllProper(s) && Reaches(s, m, a, locate)
    ensures DoneAt(s, Folded(s, m), a, locate)
  {
    MessageEffect(s, m, a, locate);
  }

  lemma DirectoryMessage(s: Books, m: Bytes)
    requires Sane(m) && Tabled(s)
    ensures m[0] as char == 'R' ==> Registers(s, Folded(s, m), Locate(m), Stock(m))
  {
    if m[0] as char == 'R' {
      DirectoryEffect(s, Locate(m), Stock(m));
    }
  }

  /** Applies one message to the table of books, and counts what became of it. */
  method ApplyMessage(books: BookSet, msg: Bytes, stats: ReplayStats)
    requires books.Valid() && stats !in books.repr
    requires Sane(msg) && Roomy(books.model)
    modifies books.repr, stats
    ensures books.Valid() && fresh(books.repr - old(books.repr))
    ensures books.model == Folded(old(books.model), msg)
    ensures forall a, locate: u16 {:trigger Reaches(old(books.model), msg, a, locate)} ::
      Reaches(old(books.model), msg, a, locate) ==> DoneAt(old(books.model), books.model, a, locate)
    ensures msg[0] as char == 'R' ==> Registers(old(books.model), books.model, Locate(msg), Stock(msg))
    ensures forall c :: stats.Count(c) == old(stats.Count(c)) + Digit(Counts(old(books.model), msg, c))
  {
    ghost var s := books.model;
    books.BooksProper();
    DirectoryMessage(s, msg);
    forall a, locate: u16 | Reaches(s, msg, a, locate) ensures DoneAt(s, Folded(s, msg), a, locate) {
      Reached(s, msg, a, locate);
    }
    var named := Classify(msg, stats, books.model);
    if named {
      Dispatch(books, msg, stats);
    }
  }

  /** The dispatch of a message of a named type; only the types that move a book go further than the directory. */
  method Dispatch(books: BookSet, msg: Bytes, stats: ReplayStats)
    requires books.Valid() && stats !in books.repr
    requires Sane(msg) && IsKnown(msg[0]) && Roomy(books.model)
    modifies books.repr, stats
    ensures books.Valid() && fresh(books.repr - old(books.repr))
    ensures books.model == Folded(old(books.model), msg)
    ensures forall c ::
      stats.Count(c) == old(stats.Count(c)) + Digit(AtBook(c) && Counts(old(books.model), msg, c))
  {
    var t := msg[0];
    if t as char == 'R' {
      books.OnStockDirectory(Locate(msg), Stock(msg));
    } else if MovesBook(t) {
      RouteMessage(books, msg, stats);
    }
  }

  /** Routes an action and counts its result. */
  method RouteTallied(books: BookSet, locate: u16, a: Action, stats: ReplayStats) returns (r: ApplyResult)
    requires books.Valid() && stats !in books.repr
    requires Known(books.model, locate) && Storable(a) && Roomy(books.model)
    modifies books.repr, stats
    ensures books.Valid() && books.repr == old(books.repr) && 0 !in old(books.model).books[locate]
    ensures r == ActResult(old(books.model).books[locate], a)
    ensures books.model == ActedAt(old(books.model), locate, a)
    ensures forall c :: stats.Count(c) == old(stats.Count(c)) + Digit(c == Outcome(r))
  {
    r := books.Route(locate, a);
    stats.Tally(r);
  }

  /** The part of the dispatch for messages that move a book. */
  method RouteMessage(books: BookSet, msg: Bytes, stats: ReplayStats)
    requires books.Valid() && stats !in books.repr
    requires Sane(msg) && MovesBook(msg[0]) && Roomy(books.model)
    modifies books.repr, stats
    ensures books.Valid() && books.repr == old(books.repr)
    ensures books.model == Folded(old(books.model), msg)
    ensures forall c ::
      stats.Count(c) == old(stats.Count(c)) + Digit(AtBook(c) && Counts(old(books.model), msg, c))
  {
    var locate := Locate(msg);
    if !books.IsKnown(locate) {
      stats.unknownLocate := stats.unknownLocate + 1;
      return;
    }
    var r := RouteTallied(books, locate, ActionOf(msg), stats);
  }

  /** The counters after the first `k` messages. */
  ghost predicate Tracks(stats: ReplayStats, s: Books, ms: seq<Bytes>, k: nat)
    requires Tabled(s) && AllSane(ms) && k <= |ms|
    reads stats
  {
    forall c {:trigger stats.Count(c)} :: stats.Count(c) == CountAfter(s, ms, k, c)
  }

  /** One message of the walk. */
  method ReplayOne(books: BookSet, msg: Bytes, stats: ReplayStats, ghost s: Books, ghost ms: seq<Bytes>, ghost k: nat)
    requires books.Valid() && stats !in books.repr
    requires Tabled(s) && AllSane(ms) && RoomyRun(s, ms) && k < |ms| && msg == ms[k]
    requires books.model == After(s, ms, k) && Tracks(stats, s, ms, k)
    modifies books.repr, stats
    ensures books.Valid() && fresh(books.repr - old(books.repr))
    ensures books.model == After(s, ms, k + 1) && Tracks(stats, s, ms, k + 1)
  {
    assert Sane(ms[k]) && Roomy(After(s, ms, k));
    ApplyMessage(books, msg, stats);
  }

  /** One round of the walk: the next message, if there is one, applied. */
  method ReplayNext(books: BookSet, framer: Framer, stats: ReplayStats,
                    ghost s: Books, ghost ms: seq<Bytes>, ghost k: nat) returns (more: bool)
    requires books.Valid() && stats !in books.repr && framer !in books.repr && framer.Reading(ms, k)
    requires Tabled(s) && AllSane(ms) && RoomyRun(s, ms)
    requires books.model == After(s, ms, k) && Tracks(stats, s, ms, k)
    modifies books.repr, stats, framer`pos
    ensures books.Valid() && fresh(books.repr - old(books.repr)) && stats !in books.repr && framer !in books.repr
    ensures more == (k < |ms|)
    ensures var next := if more then k + 1 else k;
      framer.Reading(ms, next) && books.model == After(s, ms, next) && Tracks(stats, s, ms, next)
  {
    var msg;
    more, msg := framer.NextOf(ms, k);
    if more {
      ReplayOne(books, msg, stats, s, ms, k);
    }
  }

  /** Empty books have room for any file below three times 2^32 - 1 bytes. */
  lemma SmallFilesRoomy(data: Bytes)
    requires AllSane(Frames(data, 0)) && |data| < 3 * (TWO_32 - 1)
    ensures RoomyRun(NO_BOOKS, Frames(data, 0))
  {
    FramesAreFew(data, 0);
    ShortStreamsRoomy(NO_BOOKS, Frames(data, 0), 0);
  }

  /** Applies every message of a buffer in turn. */
  method Replay(books: BookSet, data: Bytes) returns (stats: ReplayStats)
    requires books.Valid() && AllSane(Frames(data, 0)) && RoomyRun(books.model, Frames(data, 0))
    modifies books.repr
    ensures books.Valid() && fresh(books.repr - old(books.repr)) && fresh(stats)
    ensures var ms := Frames(data, 0);
      books.model == After(old(books.model), ms, |ms|) && Tracks(stats, old(books.model), ms, |ms|)
  {
    stats := new ReplayStats();
    var framer := new Framer(data);
    Drain(books, framer, stats, Frames(data, 0));
  }

  /** The loop of the walk. */
  method Drain(books: BookSet, framer: Framer, stats: ReplayStats, ghost ms: seq<Bytes>)
    requires books.Valid() && stats !in books.repr && framer !in books.repr && framer.Reading(ms, 0)
    requires AllSane(ms) && RoomyRun(books.model, ms) && Tracks(stats, books.model, ms, 0)
    modifies books.repr, stats, framer`pos
    ensures books.Valid() && fresh(books.repr - old(books.repr))
    ensures books.model == After(old(books.model), ms, |ms|) && Tracks(stats, old(books.model), ms, |ms|)
  {
    ghost var s := books.model;
    ghost var k := 0;
    while true
      invariant books.Valid() && fresh(books.repr - old(books.repr)) && stats !in books.repr && framer !in books.repr
      invariant framer.Reading(ms, k)
      invariant books.model == After(s, ms, k) && Tracks(stats, s, ms, k)
      decreases |ms| - k
    {
      var more := ReplayNext(books, framer, stats, s, ms, k);
      if !more {
        break;
      }
      k := k + 1;
    }
  }
}
