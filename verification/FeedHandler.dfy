/** The audited driver: the same books as the plain walk, and share accounts kept beside them. */
module FeedHandling {
  import opened Words
  import opened Bytes
  import opened FlatHashMap
  import opened Framing
  import opened BookSpec
  import opened Itch
  import opened Streams
  import opened BookTable
  import opened Replays

  /** The tallies kept beside the books: the counters, and four columns of shares that wrap at 64 bits. */
  class Audit {
    const counters: ReplayStats
    var added: u64
    var executed: u64
    var cancelled: u64
    var deleted: u64

    function Column(c: Account): u64
      reads this
    {
      match c
      case AddedShares => added
      case ExecutedShares => executed
      case CancelledShares => cancelled
      case DeletedShares => deleted
    }

    constructor ()
      ensures fresh(counters)
      ensures forall c :: counters.Count(c) == 0
      ensures forall c :: Column(c) == 0
    {
      counters := new ReplayStats();
      added, executed, cancelled, deleted := 0, 0, 0, 0;
    }

    /** Adds shares to one column. */
    method Note(column: Account, shares: u32)
      modifies this`added, this`executed, this`cancelled, this`deleted
      ensures forall c :: Column(c) == Add64(old(Column(c)), if c == column then shares else 0)
    {
      match column
      case AddedShares => added := Add64(added, shares);
      case ExecutedShares => executed := Add64(executed, shares);
      case CancelledShares => cancelled := Add64(cancelled, shares);
      case DeletedShares => deleted := Add64(deleted, shares);
    }

    /** A replace enters two columns. */
    method NoteReplace(killed: u32, shares: u32)
      modifies this`added, this`executed, this`cancelled, this`deleted
      ensures forall c ::
        Column(c) == Add64(old(Column(c)),
                           if c == DeletedShares then killed else if c == AddedShares then shares else 0)
    {
      Note(DeletedShares, killed);
      Note(AddedShares, shares);
    }

    /** What left with an execution enters one column, and what left with a cancel another. */
    method NoteReduction(execution: bool, left: u32)
      modifies this`executed, this`cancelled
      ensures executed == Add64(old(executed), if execution then left else 0)
      ensures cancelled == Add64(old(cancelled), if execution then 0 else left)
      ensures forall c ::
        Column(c) == Add64(old(Column(c)),
                           if c == (if execution then ExecutedShares else CancelledShares) then left else 0)
    {
      if execution {
        executed := Add64(executed, left);
      } else {
        cancelled := Add64(cancelled, left);
      }
    }

    method ExpectedResting() returns (r: u64)
      ensures r == Sub64(Sub64(Sub64(added, executed), cancelled), deleted)
    {
      r := Sub64(Sub64(Sub64(added, executed), cancelled), deleted);
    }
  }

  /** The columns after the first `k` messages. */
  ghost predicate Accounts(audit: Audit, ms: seq<Bytes>, k: nat)
    requires AllSane(ms) && k <= |ms|
    reads audit
  {
    forall c {:trigger audit.Column(c)} :: audit.Column(c) == NotedAfter(NO_BOOKS, ms, k, c) % TWO_64
  }

  /** The counters and columns have moved by what one action on a book that held `m` is worth. */
  twostate predicate Measured(audit: Audit, m: Orders, a: Action)
    requires Storable(a)
    reads audit, audit.counters
  {
    && (forall c {:trigger audit.counters.Count(c)} ::
          audit.counters.Count(c) == old(audit.counters.Count(c)) + Digit(c == Outcome(ActResult(m, a))))
    && (forall c {:trigger audit.Column(c)} :: audit.Column(c) == Add64(old(audit.Column(c)), Noted(a, m, c)))
  }

  method AuditAdd(books: BookSet, locate: u16, a: Action, audit: Audit)
    requires books.Valid() && {audit, audit.counters} !! books.repr
    requires Known(books.model, locate) && Storable(a) && Roomy(books.model) && a.Add?
    modifies books.repr, audit, audit.counters
    ensures books.Valid() && books.repr == old(books.repr)
    ensures books.model == ActedAt(old(books.model), locate, a)
    ensures Measured(audit, old(books.model.books[locate]), a)
  {
    var r := RouteTallied(books, locate, a, audit.counters);
    if r == Applied {
      audit.Note(AddedShares, a.shares);
    }
  }

  /** A reduction, and the quantity that left with it. */
  method ReduceMeasured(books: BookSet, locate: u16, a: Action, stats: ReplayStats) returns (left: u32)
    requires books.Valid() && stats !in books.repr
    requires Known(books.model, locate) && Roomy(books.model) && (a.Execute? || a.Cancel?)
    modifies books.repr, stats
    ensures books.Valid() && books.repr == old(books.repr)
    ensures left == Fall(old(books.model).books[locate], a.ref, a.shares)
    ensures books.model == ActedAt(old(books.model), locate, a)
    ensures left == Total(old(books.model).books[locate]) - Total(books.model.books[locate])
    ensures forall c ::
      stats.Count(c) == old(stats.Count(c)) + Digit(c == Outcome(ActResult(old(books.model).books[locate], a)))
  {
    ghost var m := books.model.books[locate];
    var before := books.SharesOf(locate, a.ref);
    var r := RouteTallied(books, locate, a, stats);
    FallTotals(m, a.ref, a.shares);
    var after := books.SharesOf(locate, a.ref);
    left := before - after;
  }

  /** Executions and cancels are noted for what the order gave up, which may be less than was asked. */
  method AuditReduction(books: BookSet, locate: u16, a: Action, audit: Audit) returns (left: u32)
    requires books.Valid() && {audit, audit.counters} !! books.repr
    requires Known(books.model, locate) && Storable(a) && Roomy(books.model) && (a.Execute? || a.Cancel?)
    modifies books.repr, audit, audit.counters
    ensures books.Valid() && books.repr == old(books.repr)
    ensures books.model == ActedAt(old(books.model), locate, a)
    ensures left == Total(old(books.model).books[locate]) - Total(books.model.books[locate])
    ensures audit.executed == Add64(old(audit.executed), if a.Execute? then left else 0)
    ensures audit.cancelled == Add64(old(audit.cancelled), if a.Cancel? then left else 0)
    ensures audit.added == old(audit.added) && audit.deleted == old(audit.deleted)
    ensures Measured(audit, old(books.model.books[locate]), a)
  {
    left := ReduceMeasured(books, locate, a, audit.counters);
    audit.NoteReduction(a.Execute?, left);
  }

  method AuditDelete(books: BookSet, locate: u16, a: Action, audit: Audit)
    requires books.Valid() && {audit, audit.counters} !! books.repr
    requires Known(books.model, locate) && Storable(a) && Roomy(books.model) && a.Delete?
    modifies books.repr, audit, audit.counters
    ensures books.Valid() && books.repr == old(books.repr)
    ensures books.model == ActedAt(old(books.model), locate, a)
    ensures Measured(audit, old(books.model.books[locate]), a)
  {
    var killed := books.SharesOf(locate, a.ref);
    audit.Note(DeletedShares, killed);
    var r := RouteTallied(books, locate, a, audit.counters);
  }

  /** A replace, and the quantity its original held. */
  method ReplaceMeasured(books: BookSet, locate: u16, a: Action, stats: ReplayStats)
    returns (killed: u32, r: ApplyResult)
    requires books.Valid() && stats !in books.repr
    requires Known(books.model, locate) && Storable(a) && Roomy(books.model) && a.Replace?
    modifies books.repr, stats
    ensures books.Valid() && books.repr == old(books.repr)
    ensures killed == Quantity(old(books.model).books[locate], a.original)
    ensures r == ActResult(old(books.model).books[locate], a)
    ensures books.model == ActedAt(old(books.model), locate, a)
    ensures forall c :: stats.Count(c) == old(stats.Count(c)) + Digit(c == Outcome(r))
  {
    killed := books.SharesOf(locate, a.original);
    r := RouteTallied(books, locate, a, stats);
  }

  method AuditReplace(books: BookSet, locate: u16, a: Action, audit: Audit)
    requires books.Valid() && {audit, audit.counters} !! books.repr
    requires Known(books.model, locate) && Storable(a) && Roomy(books.model) && a.Replace?
    modifies books.repr, audit, audit.counters
    ensures books.Valid() && books.repr == old(books.repr)
    ensures books.model == ActedAt(old(books.model), locate, a)
    ensures Measured(audit, old(books.model.books[locate]), a)
  {
    var killed, r := ReplaceMeasured(books, locate, a, audit.counters);
    if r == Applied {
      audit.NoteReplace(killed, a.shares);
    }
  }

  /** The switch of the audited loop, at the book of a registered locate. */
  method AuditAction(books: BookSet, locate: u16, a: Action, audit: Audit)
    requires books.Valid() && {audit, audit.counters} !! books.repr
    requires Known(books.model, locate) && Storable(a) && Roomy(books.model)
    modifies books.repr, audit, audit.counters
    ensures books.Valid() && books.repr == old(books.repr)
    ensures books.model == ActedAt(old(books.model), locate, a)
    ensures Measured(audit, old(books.model.books[locate]), a)
  {
    match a
    case Add(_, _, _, _) => AuditAdd(books, locate, a, audit);
    case Execute(_, _) => var _ := AuditReduction(books, locate, a, audit);
    case Cancel(_, _) => var _ := AuditReduction(books, locate, a, audit);
    case Delete(_) => AuditDelete(books, locate, a, audit);
    case Replace(_, _, _, _) => AuditReplace(books, locate, a, audit);
  }

  /** A message that moves a book, measured around its action. */
  method AuditAtBook(books: BookSet, msg: Bytes, audit: Audit)
    requires books.Valid() && {audit, audit.counters} !! books.repr
    requires Sane(msg) && MovesBook(msg[0]) && Roomy(books.model)
    modifies books.repr, audit, audit.counters
    ensures books.Valid() && books.repr == old(books.repr)
    ensures books.model == Folded(old(books.model), msg)
    ensures forall c ::
      audit.counters.Count(c) == old(audit.counters.Count(c)) + Digit(AtBook(c) && Counts(old(books.model), msg, c))
    ensures forall c :: audit.Column(c) == Add64(old(audit.Column(c)), MessageNoted(old(books.model), msg, c))
  {
    var locate := Locate(msg);
    if !books.IsKnown(locate) {
      audit.counters.unknownLocate := audit.counters.unknownLocate + 1;
      return;
    }
    AuditAction(books, locate, ActionOf(msg), audit);
  }

  /** The fast check of the one book a message can have touched. */
  method CheckTouched(books: BookSet, locate: u16) returns (ok: bool)
    requires books.Valid()
    ensures ok
  {
    ok := true;
    if books.IsKnown(locate) {
      ok := books.CheckFastAt(locate);
    }
  }

  /** A message of a named type other than the directory's. */
  method AuditRouted(books: BookSet, msg: Bytes, audit: Audit) returns (ok: bool)
    requires books.Valid() && {audit, audit.counters} !! books.repr
    requires Sane(msg) && IsKnown(msg[0]) && msg[0] as char != 'R' && Roomy(books.model)
    modifies books.repr, audit, audit.counters
    ensures books.Valid() && books.repr == old(books.repr)
    ensures ok && books.model == Folded(old(books.model), msg)
    ensures forall c ::
      audit.counters.Count(c) == old(audit.counters.Count(c)) + Digit(AtBook(c) && Counts(old(books.model), msg, c))
    ensures forall c :: audit.Column(c) == Add64(old(audit.Column(c)), MessageNoted(old(books.model), msg, c))
  {
    if MovesBook(msg[0]) {
      AuditAtBook(books, msg, audit);
    }
    ok := CheckTouched(books, Locate(msg));
  }

  /** A message of a named type, then the fast check of the book it touched; a directory message touches none. */
  method AuditNamed(books: BookSet, msg: Bytes, audit: Audit) returns (ok: bool)
    requires books.Valid() && {audit, audit.counters} !! books.repr
    requires Sane(msg) && IsKnown(msg[0]) && Roomy(books.model)
    modifies books.repr, audit, audit.counters
    ensures books.Valid() && fresh(books.repr - old(books.repr))
    ensures ok && books.model == Folded(old(books.model), msg)
    ensures forall c ::
      audit.counters.Count(c) == old(audit.counters.Count(c)) + Digit(AtBook(c) && Counts(old(books.model), msg, c))
    ensures forall c :: audit.Column(c) == Add64(old(audit.Column(c)), MessageNoted(old(books.model), msg, c))
  {
    if msg[0] as char == 'R' {
      books.OnStockDirectory(Locate(msg), Stock(msg));
      return true;
    }
    ok := AuditRouted(books, msg, audit);
  }

  /** One message of the audited loop; the loop goes on after every one. */
  method AuditMessage(books: BookSet, msg: Bytes, audit: Audit) returns (ok: bool)
    requires books.Valid() && {audit, audit.counters} !! books.repr
    requires Sane(msg) && Roomy(books.model)
    modifies books.repr, audit, audit.counters
    ensures books.Valid() && fresh(books.repr - old(books.repr))
    ensures ok && books.model == Folded(old(books.model), msg)
    ensures forall c ::
      audit.counters.Count(c) == old(audit.counters.Count(c)) + Digit(Counts(old(books.model), msg, c))
    ensures forall c :: audit.Column(c) == Add64(old(audit.Column(c)), MessageNoted(old(books.model), msg, c))
  {
    var named := Classify(msg, audit.counters, books.model);
    ok := true;
    if named {
      ok := AuditNamed(books, msg, audit);
    }
  }

  /** The books, the counters and the columns are those of the first `k` messages. */
  ghost predicate Audited(books: BookSet, audit: Audit, ms: seq<Bytes>, k: nat)
    requires AllSane(ms) && k <= |ms|
    reads books, books.repr, audit, audit.counters
  {
    && books.Valid() && {audit, audit.counters} !! books.repr
    && books.model == After(NO_BOOKS, ms, k)
    && Tracks(audit.counters, NO_BOOKS, ms, k) && Accounts(audit, ms, k)
  }

  /** A column that holds `before` modulo 2^64 and gains `noted` holds the sum modulo 2^64. */
  lemma ColumnGains(column: u64, before: nat, noted: u32, after: nat)
    requires column == before % TWO_64 && after == before + noted
    ensures Add64(column, noted) == after % TWO_64
  {
    Add64IsModulo(before, noted);
  }

  /** One round of the loop, seen from the whole stream. */
  method AuditOne(books: BookSet, msg: Bytes, audit: Audit, ghost ms: seq<Bytes>, ghost k: nat) returns (ok: bool)
    requires AllSane(ms) && RoomyRun(NO_BOOKS, ms) && k < |ms| && msg == ms[k]
    requires Audited(books, audit, ms, k)
    modifies books.repr, audit, audit.counters
    ensures ok && Audited(books, audit, ms, k + 1) && fresh(books.repr - old(books.repr))
  {
    assert Sane(ms[k]) && Roomy(After(NO_BOOKS, ms, k));
    ok := AuditMessage(books, msg, audit);
    forall c ensures audit.Column(c) == NotedAfter(NO_BOOKS, ms, k + 1, c) % TWO_64 {
      ColumnGains(old(audit.Column(c)), NotedAfter(NO_BOOKS, ms, k, c), MessageNoted(After(NO_BOOKS, ms, k), msg, c),
                  NotedAfter(NO_BOOKS, ms, k + 1, c));
    }
  }

  /** The columns leave, modulo 2^64, what the stream's net says. */
  lemma ExpectedIsNet(audit: Audit, ms: seq<Bytes>, k: nat)
    requires AllSane(ms) && k <= |ms| && Accounts(audit, ms, k)
    ensures Sub64(Sub64(Sub64(audit.added, audit.executed), audit.cancelled), audit.deleted)
      == Net(NO_BOOKS, ms, k) % TWO_64
  {
    var a, e := NotedAfter(NO_BOOKS, ms, k, AddedShares), NotedAfter(NO_BOOKS, ms, k, ExecutedShares);
    var c, d := NotedAfter(NO_BOOKS, ms, k, CancelledShares), NotedAfter(NO_BOOKS, ms, k, DeletedShares);
    assert audit.Column(AddedShares) == a % TWO_64 && audit.Column(ExecutedShares) == e % TWO_64;
    assert audit.Column(CancelledShares) == c % TWO_64 && audit.Column(DeletedShares) == d % TWO_64;
    Sub64IsModulo(a, e);
    Sub64IsModulo(a - e, c);
    Sub64IsModulo(a - e - c, d);
  }

  /**
   The columns, one by one, modulo 2^64: executed is what the books lost to 'E' and 'C' messages, cancelled what they
   lost to 'X', deleted what they lost to 'D' and to the replaces applied, added what 'A' and 'F' and those replaces
   brought.
   */
  ghost predicate ColumnsByType(audit: Audit, ms: seq<Bytes>, k: nat)
    requires AllSane(ms) && k <= |ms|
    reads audit
  {
    && audit.executed == FallsOf(ms, k, "EC") % TWO_64
    && audit.cancelled == FallsOf(ms, k, "X") % TWO_64
    && audit.deleted == (FallsOf(ms, k, "D") + TakenByReplaces(ms, k)) % TWO_64
    && audit.added == (BroughtByReplaces(ms, k) - FallsOf(ms, k, "AF")) % TWO_64
  }

  lemma ColumnsHold(audit: Audit, ms: seq<Bytes>, k: nat)
    requires AllSane(ms) && k <= |ms| && Accounts(audit, ms, k)
    ensures ColumnsByType(audit, ms, k)
  {
    forall column ensures audit.Column(column) == ByType(ms, k, column) % TWO_64 {
      ColumnsAreFalls(ms, k, column);
    }
    assert audit.Column(ExecutedShares) == audit.executed && audit.Column(CancelledShares) == audit.cancelled;
    assert audit.Column(DeletedShares) == audit.deleted && audit.Column(AddedShares) == audit.added;
  }

  // ---- a stream with nothing to report ----

  /** The message is of a named type and of its length, and what it asks for is done in full on a known locate. */
  ghost predicate Uneventful(s: Books, m: Bytes)
    requires Sane(m) && Tabled(s)
  {
    && IsKnown(m[0]) && |m| == ExpectedLength(m[0])
    && (MovesBook(m[0]) ==> Known(s, Locate(m)) && ActResult(s.books[Locate(m)], ActionOf(m)) == Applied)
  }

  ghost predicate UneventfulAt(ms: seq<Bytes>, i: nat)
    requires AllSane(ms) && i < |ms|
  {
    assert Sane(ms[i]);
    Uneventful(After(NO_BOOKS, ms, i), ms[i])
  }

  ghost predicate AllUneventful(ms: seq<Bytes>, k: nat)
    requires AllSane(ms) && k <= |ms|
  {
    forall i {:trigger UneventfulAt(ms, i)} | 0 <= i < k :: UneventfulAt(ms, i)
  }

  /** A counter that a clean run leaves at zero. */
  predicate Amiss(c: Counter) {
    c.UnknownType? || c.LengthMismatch? || c.UnknownLocate? || (c.Outcome? && c.result != Applied)
  }

  ghost predicate CountsAt(ms: seq<Bytes>, i: nat, c: Counter)
    requires AllSane(ms) && i < |ms|
  {
    assert Sane(ms[i]);
    Counts(After(NO_BOOKS, ms, i), ms[i], c)
  }

  ghost predicate Never(ms: seq<Bytes>, k: nat, c: Counter)
    requires AllSane(ms) && k <= |ms|
  {
    forall i {:trigger CountsAt(ms, i, c)} | 0 <= i < k :: !CountsAt(ms, i, c)
  }

  ghost predicate Uncounted(ms: seq<Bytes>, k: nat, c: Counter)
    requires AllSane(ms) && k <= |ms|
  {
    CountAfter(NO_BOOKS, ms, k, c) == 0
  }

  lemma NeverNext(ms: seq<Bytes>, k: nat, c: Counter)
    requires AllSane(ms) && k < |ms|
    ensures Never(ms, k + 1, c) == (Never(ms, k, c) && !CountsAt(ms, k, c))
  {
  }

  lemma CountNext(ms: seq<Bytes>, k: nat, c: Counter)
    requires AllSane(ms) && k < |ms|
    ensures Uncounted(ms, k + 1, c) == (Uncounted(ms, k, c) && !CountsAt(ms, k, c))
  {
  }

  lemma NeverCounted(ms: seq<Bytes>, k: nat, c: Counter)
    requires AllSane(ms) && k <= |ms|
    ensures Uncounted(ms, k, c) == Never(ms, k, c)
  {
    for i := 0 to k
      invariant Uncounted(ms, i, c) == Never(ms, i, c)
    {
      NeverNext(ms, i, c);
      CountNext(ms, i, c);
    }
  }

  lemma AmissExactly(s: Books, m: Bytes)
    requires Sane(m) && Tabled(s)
    ensures Uneventful(s, m) <==> forall c {:trigger Counts(s, m, c)} | Amiss(c) :: !Counts(s, m, c)
  {
    if !IsKnown(m[0]) {
      assert Counts(s, m, UnknownType);
    } else if |m| != ExpectedLength(m[0]) {
      assert Counts(s, m, LengthMismatch);
    } else if MovesBook(m[0]) && !Known(s, Locate(m)) {
      assert Counts(s, m, UnknownLocate);
    } else if MovesBook(m[0]) {
      assert Counts(s, m, Outcome(ActResult(s.books[Locate(m)], ActionOf(m))));
    }
  }

  lemma AmissAt(ms: seq<Bytes>, i: nat)
    requires AllSane(ms) && i < |ms|
    ensures UneventfulAt(ms, i) <==> forall c {:trigger CountsAt(ms, i, c)} | Amiss(c) :: !CountsAt(ms, i, c)
  {
    assert Sane(ms[i]);
    AmissExactly(After(NO_BOOKS, ms, i), ms[i]);
    assert forall c {:trigger Counts(After(NO_BOOKS, ms, i), ms[i], c)} {:trigger CountsAt(ms, i, c)} ::
      CountsAt(ms, i, c) == Counts(After(NO_BOOKS, ms, i), ms[i], c);
  }

  /** The counters that an exit status looks at are all zero exactly when every message was uneventful. */
  lemma UneventfulExactly(ms: seq<Bytes>, k: nat)
    requires AllSane(ms) && k <= |ms|
    ensures AllUneventful(ms, k) <==> forall c {:trigger Uncounted(ms, k, c)} | Amiss(c) :: Uncounted(ms, k, c)
  {
    forall c ensures Uncounted(ms, k, c) == Never(ms, k, c) {
      NeverCounted(ms, k, c);
    }
    forall i | 0 <= i < k
      ensures UneventfulAt(ms, i) <==> forall c {:trigger CountsAt(ms, i, c)} | Amiss(c) :: !CountsAt(ms, i, c)
    {
      AmissAt(ms, i);
    }
    if AllUneventful(ms, k) {
      forall c | Amiss(c) ensures Uncounted(ms, k, c) {
        assert Never(ms, k, c) by {
          forall i | 0 <= i < k ensures !CountsAt(ms, i, c) {
            assert UneventfulAt(ms, i);
          }
        }
      }
    }
    if forall c {:trigger Uncounted(ms, k, c)} | Amiss(c) :: Uncounted(ms, k, c) {
      forall i | 0 <= i < k ensures UneventfulAt(ms, i) {
        forall c | Amiss(c) ensures !CountsAt(ms, i, c) {
          assert Uncounted(ms, k, c) && Never(ms, k, c);
        }
      }
    }
  }

  lemma SeesLeak(ms: seq<Bytes>, k: nat, resting: u64, expected: u64)
    requires AllSane(ms) && k <= |ms|
    requires resting == RestingTotal(After(NO_BOOKS, ms, k)) % TWO_64 && expected == Net(NO_BOOKS, ms, k) % TWO_64
    ensures resting == expected <==> LeakAfter(NO_BOOKS, ms, k) % TWO_64 == 0
  {
    Conservation(ms, k);
    SameSum(RestingTotal(After(NO_BOOKS, ms, k)), LeakAfter(NO_BOOKS, ms, k), Net(NO_BOOKS, ms, k));
  }

  lemma SameSum(x: int, d: nat, sum: int)
    requires x + d == sum
    ensures x % TWO_64 == sum % TWO_64 <==> d % TWO_64 == 0
  {
    SameModulo(x, d);
  }

  /** The closing comparison, made in 64 bits, sees exactly what replaces lost. */
  method Conserved(books: BookSet, audit: Audit, ghost ms: seq<Bytes>, ghost k: nat) returns (conserved: bool)
    requires AllSane(ms) && k <= |ms| && Audited(books, audit, ms, k)
    ensures conserved <==> LeakAfter(NO_BOOKS, ms, k) % TWO_64 == 0
  {
    var resting := books.RestingShares();
    var expected := audit.ExpectedResting();
    ExpectedIsNet(audit, ms, k);
    SeesLeak(ms, k, resting, expected);
    conserved := resting == expected;
  }

  // ---- messages by type ----

  /** The map holds the types seen among the first `k` messages, each with its count. */
  ghost predicate CountsTypes(counts: map<u8, nat>, ms: seq<Bytes>, k: nat)
    requires AllSane(ms) && k <= |ms|
  {
    forall t {:trigger TypeCount(ms, k, t)} ::
      TypeCount(ms, k, t) == (if t in counts then counts[t] else 0) && (t in counts ==> counts[t] > 0)
  }

  function OneMoreOf(counts: map<u8, nat>, t: u8): map<u8, nat> {
    counts[t := (if t in counts then counts[t] else 0) + 1]
  }

  lemma CountsStep(counts: map<u8, nat>, ms: seq<Bytes>, k: nat)
    requires AllSane(ms) && k < |ms| && CountsTypes(counts, ms, k)
    ensures ms[k] != [] && CountsTypes(OneMoreOf(counts, ms[k][0]), ms, k + 1)
  {
    assert Sane(ms[k]);
    var next := OneMoreOf(counts, ms[k][0]);
    forall t
      ensures TypeCount(ms, k + 1, t) == (if t in next then next[t] else 0) && (t in next ==> next[t] > 0)
    {
      assert TypeCount(ms, k + 1, t) == TypeCount(ms, k, t) + Digit(ms[k][0] == t);
    }
  }

  // ---- the sampled full check of a debug build ----

  const INVARIANT_INTERVAL: nat := 250_000

  /** The message is one after which a debug build makes the full check of all books. */
  predicate InSample(msg: Bytes, messages: nat) {
    msg != [] && IsKnown(msg[0]) && msg[0] as char != 'R' && messages % INVARIANT_INTERVAL == 0
  }

  /** The full check would pass after message `k`, if it is made there. */
  ghost predicate SampleHolds(ms: seq<Bytes>, k: nat)
    requires AllSane(ms) && 0 < k <= |ms|
  {
    InSample(ms[k - 1], k) ==> AllSolid(After(NO_BOOKS, ms, k))
  }

  ghost predicate SamplesHold(ms: seq<Bytes>, k: nat)
    requires AllSane(ms) && k <= |ms|
  {
    forall j {:trigger SampleHolds(ms, j)} | 0 < j <= k :: SampleHolds(ms, j)
  }

  lemma SamplesNext(ms: seq<Bytes>, k: nat)
    requires AllSane(ms) && k < |ms|
    ensures SamplesHold(ms, k + 1) == (SamplesHold(ms, k) && SampleHolds(ms, k + 1))
    ensures SamplesHold(ms, |ms|) ==> SampleHolds(ms, k + 1)
  {
  }

  /** When every new order brings shares, no sampled check stops the loop. */
  lemma NeverStops(ms: seq<Bytes>)
    requires AllSane(ms) && forall i {:trigger ms[i]} | 0 <= i < |ms| :: BringsShares(ms[i])
    ensures SamplesHold(ms, |ms|)
  {
    forall j | 0 < j <= |ms| ensures SampleHolds(ms, j) {
      NeverHollow(ms, j);
    }
  }

  /** The sampled check after message `k`, which a release build leaves out. */
  method Sample(books: BookSet, audit: Audit, msg: Bytes, debug: bool, ghost ms: seq<Bytes>, ghost k: nat)
    returns (ok: bool)
    requires AllSane(ms) && 0 < k <= |ms| && msg == ms[k - 1] && Audited(books, audit, ms, k)
    ensures ok <==> (debug ==> SampleHolds(ms, k))
    ensures msg != []
    ensures ok <==> (debug && (msg[0] as char) in "SHYLAFECXDUPQB" && k % 250_000 == 0 ==> AllSolid(books.model))
  {
    MessagesCounted(NO_BOOKS, ms, k);
    assert Sane(msg) && audit.counters.Count(Messages) == k;
    if debug && InSample(msg, audit.counters.messages) {
      ok := books.CheckInvariants();
    } else {
      ok := true;
    }
  }

  /** The walk has taken `k` messages, and no sampled check has stopped it. */
  ghost predicate Going(books: BookSet, audit: Audit, counts: map<u8, nat>, debug: bool, ms: seq<Bytes>, k: nat)
    requires AllSane(ms) && k <= |ms|
    reads books, books.repr, audit, audit.counters
  {
    Audited(books, audit, ms, k) && CountsTypes(counts, ms, k) && (debug ==> SamplesHold(ms, k))
  }

  /** One whole round: the message is counted by type and audited, and the checks made. */
  method Round(books: BookSet, audit: Audit, msg: Bytes, debug: bool, before: map<u8, nat>,
               ghost ms: seq<Bytes>, ghost k: nat) returns (ok: bool, counts: map<u8, nat>)
    requires AllSane(ms) && RoomyRun(NO_BOOKS, ms) && k < |ms| && msg == ms[k]
    requires Going(books, audit, before, debug, ms, k)
    modifies books.repr, audit, audit.counters
    ensures Audited(books, audit, ms, k + 1) && CountsTypes(counts, ms, k + 1)
    ensures fresh(books.repr - old(books.repr))
    ensures if ok then Going(books, audit, counts, debug, ms, k + 1)
            else debug && SamplesHold(ms, k) && !SampleHolds(ms, k + 1)
  {
    SamplesNext(ms, k);
    CountsStep(before, ms, k);
    counts := OneMoreOf(before, msg[0]);
    ok := AuditOne(books, msg, audit, ms, k);
    if ok {
      ok := Sample(books, audit, msg, debug, ms, k + 1);
    }
  }

  /** One turn of the loop: the next message, if there is one, and its round. */
  method Turn(books: BookSet, audit: Audit, framer: Framer, debug: bool, before: map<u8, nat>,
              ghost ms: seq<Bytes>, ghost k: nat) returns (more: bool, ok: bool, counts: map<u8, nat>)
    requires AllSane(ms) && RoomyRun(NO_BOOKS, ms) && k <= |ms|
    requires Going(books, audit, before, debug, ms, k) && framer.Reading(ms, k) && framer !in books.repr
    modifies books.repr, audit, audit.counters, framer`pos
    ensures framer !in books.repr && fresh(books.repr - old(books.repr))
    ensures framer.pos >= old(framer.pos) && (more ==> framer.pos > old(framer.pos))
    ensures if more then k < |ms| && framer.Reading(ms, k + 1) else k == |ms| && framer.Reading(ms, k) && ok
    ensures ok ==> Going(books, audit, counts, debug, ms, if more then k + 1 else k)
    ensures !ok ==>
      && Audited(books, audit, ms, k + 1) && CountsTypes(counts, ms, k + 1)
      && debug && SamplesHold(ms, k) && !SampleHolds(ms, k + 1) && !SamplesHold(ms, |ms|)
  {
    var msg;
    ok, counts := true, before;
    more, msg := framer.NextOf(ms, k);
    if more {
      SamplesNext(ms, k);
      ok, counts := Round(books, audit, msg, debug, before, ms, k);
    }
  }

  /**
   The walk of the audited driver. The early exit on a broken fast check is never taken; the one of a debug
   build is taken at the first sampled message after which some level is made of orders without shares.
   */
  method Walk(books: BookSet, audit: Audit, data: Bytes, debug: bool, ghost ms: seq<Bytes>)
    returns (ok: bool, counts: map<u8, nat>, ghost read: nat)
    requires ms == Frames(data, 0) && AllSane(ms) && RoomyRun(NO_BOOKS, ms)
    requires Audited(books, audit, ms, 0)
    modifies books.repr, audit, audit.counters
    ensures read <= |ms|
    ensures Audited(books, audit, ms, read) && CountsTypes(counts, ms, read)
    ensures ok <==> (debug ==> SamplesHold(ms, |ms|))
    ensures if ok then read == |ms|
            else read > 0 && SamplesHold(ms, read - 1) && !SampleHolds(ms, read)
  {
    var framer := new Framer(data);
    ok, counts, read := true, map[], 0;
    while true
      invariant ok && read <= |ms| && Going(books, audit, counts, debug, ms, read)
      invariant fresh(books.repr - old(books.repr)) && framer !in books.repr
      invariant framer.Reading(ms, read)
      decreases |framer.data| - framer.pos
    {
      var more;
      more, ok, counts := Turn(books, audit, framer, debug, counts, ms, read);
      if !more {
        break;
      }
      read := read + 1;
      if !ok {
        break;
      }
    }
  }

  lemma CleanMeans(counters: ReplayStats)
    ensures counters.unknownType == 0 && counters.Clean()
      <==> forall c {:trigger counters.Count(c)} | Amiss(c) :: counters.Count(c) == 0
  {
    assert counters.Count(UnknownType) == counters.unknownType;
    assert counters.Count(LengthMismatch) == counters.lengthMismatch;
    assert counters.Count(UnknownLocate) == counters.unknownLocate;
    assert counters.Count(Outcome(UnknownRef)) == counters.unknownRef;
    assert counters.Count(Outcome(DuplicateRef)) == counters.duplicateRef;
    assert counters.Count(Outcome(ClampedReduce)) == counters.clampedReduce;
  }

  /** The counters allow a clean exit exactly when no message was out of the ordinary. */
  lemma CleanExactly(audit: Audit, ms: seq<Bytes>, k: nat)
    requires AllSane(ms) && k <= |ms| && Tracks(audit.counters, NO_BOOKS, ms, k)
    ensures audit.counters.unknownType == 0 && audit.counters.Clean() <==> AllUneventful(ms, k)
  {
    CleanMeans(audit.counters);
    UneventfulExactly(ms, k);
    forall c ensures audit.counters.Count(c) == 0 <==> Uncounted(ms, k, c) {
    }
  }

  /** The closing checks, and the exit status they decide. */
  method Verdict(books: BookSet, audit: Audit, walked: bool, ghost ms: seq<Bytes>, ghost k: nat)
    returns (invariantsOk: bool, conserved: bool, clean: bool)
    requires AllSane(ms) && k <= |ms| && Audited(books, audit, ms, k)
    ensures invariantsOk <==> walked && AllSolid(books.model)
    ensures conserved <==> LeakAfter(NO_BOOKS, ms, k) % TWO_64 == 0
    ensures clean <==> invariantsOk && conserved && audit.counters.unknownType == 0 && audit.counters.Clean()
    ensures clean <==> invariantsOk && conserved && AllUneventful(ms, k)
  {
    CleanExactly(audit, ms, k);
    var full := books.CheckInvariants();
    invariantsOk := walked && full;
    conserved := Conserved(books, audit, ms, k);
    clean := invariantsOk && conserved && audit.counters.unknownType == 0 && audit.counters.Clean();
  }

  /**
   The audited driver on a whole file. Its books and counters are those of the plain walk, up to the end of the
   file unless a sampled check of a debug build fails; its verdicts say exactly whether a level is made of orders
   without shares, and whether a replace lost shares.
   */
  method Feed(hash: Hash, data: Bytes, debug: bool)
    returns (books: BookSet, audit: Audit, counts: map<u8, nat>, ghost read: nat,
             invariantsOk: bool, conserved: bool, clean: bool)
    requires AllSane(Frames(data, 0)) && RoomyRun(NO_BOOKS, Frames(data, 0))
    ensures read <= |Frames(data, 0)|
    ensures var ms := Frames(data, 0);
      && Audited(books, audit, ms, read) && CountsTypes(counts, ms, read)
      && ((debug ==> SamplesHold(ms, |ms|)) ==> read == |ms|)
      && (invariantsOk <==> (debug ==> SamplesHold(ms, |ms|)) && AllSolid(books.model))
      && (conserved <==> LeakAfter(NO_BOOKS, ms, read) % TWO_64 == 0)
    ensures clean <==> invariantsOk && conserved && audit.counters.unknownType == 0 && audit.counters.Clean()
    ensures clean <==> invariantsOk && conserved && AllUneventful(Frames(data, 0), read)
    ensures ColumnsByType(audit, Frames(data, 0), read)
  {
    books := new BookSet(hash);
    audit := new Audit();
    var walked;
    walked, counts, read := Walk(books, audit, data, debug, Frames(data, 0));
    invariantsOk, conserved, clean := Verdict(books, audit, walked, Frames(data, 0), read);
    ColumnsHold(audit, Frames(data, 0), read);
  }
}
