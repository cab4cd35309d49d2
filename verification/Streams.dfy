/** What a stream of messages does to the table of books, and the share accounts kept beside it. */
module Streams {
  import opened Words
  import opened Bytes
  import opened FlatHashMap
  import opened Ladder
  import opened BookSpec
  import opened Itch

  datatype Books = Books(books: seq<Orders>, symbols: seq<Bytes>, known: seq<bool>, registered: nat)

  const NO_BOOKS: Books := Books([], [], [], 0)

  /** The counters kept beside the books. */
  datatype Counter = Messages | UnknownType | LengthMismatch | UnknownLocate | Outcome(result: ApplyResult)

  ghost predicate Tabled(s: Books) {
    |s.books| == |s.symbols| == |s.known|
  }

  predicate Known(s: Books, locate: u16) {
    locate < |s.known| && s.known[locate]
  }

  // ---- one action on one book ----

  /** The quantity fits beside the side bit. */
  predicate Storable(a: Action) {
    match a
    case Add(_, _, shares, _) => shares < SIDE_BIT
    case Replace(_, _, shares, _) => shares < SIDE_BIT
    case _ => true
  }

  function Act(m: Orders, a: Action): Orders
    requires Storable(a)
  {
    match a
    case Add(ref, side, shares, price) => Added(m, ref, side == Buy, shares, price)
    case Execute(ref, shares) => Reduced(m, ref, shares)
    case Cancel(ref, shares) => Reduced(m, ref, shares)
    case Delete(ref) => Removed(m, ref)
    case Replace(original, ref, shares, price) => Replaced(m, original, ref, shares, price)
  }

  function ActResult(m: Orders, a: Action): ApplyResult {
    match a
    case Add(ref, _, _, _) => AddResult(m, ref)
    case Execute(ref, shares) => ReduceResult(m, ref, shares)
    case Cancel(ref, shares) => ReduceResult(m, ref, shares)
    case Delete(ref) => RemoveResult(m, ref)
    case Replace(original, ref, _, _) => ReplaceResult(m, original, ref)
  }

  // ---- one message ----

  function Padded<T>(s: seq<T>, n: nat, x: T): (r: seq<T>)
    ensures |r| == if |s| < n then n else |s|
  {
    if |s| < n then s + seq(n - |s|, _ => x) else s
  }

  /** 'R': makes room for the locate, names it, and counts it once. */
  function Registered(s: Books, locate: u16, stock: Bytes): Books
    requires Tabled(s)
  {
    var known := Padded(s.known, locate + 1, false);
    Books(Padded(s.books, locate + 1, map[]),
          Padded(s.symbols, locate + 1, [])[locate := stock],
          known[locate := true],
          s.registered + Digit(!known[locate]))
  }

  /** Shares in the messages leave bit 31 free, and every message can be read. */
  predicate Sane(m: Bytes) {
    Readable(m) && (MovesBook(m[0]) ==> Storable(ActionOf(m)))
  }

  /** The message is counted under `c`: always as a message, and once more at most for what became of it. */
  predicate Counts(s: Books, m: Bytes, c: Counter)
    requires Readable(m) && Tabled(s)
  {
    match c
    case Messages => true
    case UnknownType => !IsKnown(m[0])
    case LengthMismatch => IsKnown(m[0]) && ExpectedLength(m[0]) != |m|
    case UnknownLocate => MovesBook(m[0]) && !Known(s, Locate(m))
    case Outcome(r) => MovesBook(m[0]) && Known(s, Locate(m)) && ActResult(s.books[Locate(m)], ActionOf(m)) == r
  }

  /** One action on the book of a registered locate. */
  function ActedAt(s: Books, locate: u16, a: Action): Books
    requires locate < |s.books| && Storable(a)
  {
    s.(books := s.books[locate := Act(s.books[locate], a)])
  }

  function Folded(s: Books, m: Bytes): (t: Books)
    requires Sane(m) && Tabled(s)
    ensures Tabled(t)
  {
    if m[0] as char == 'R' then Registered(s, Locate(m), Stock(m))
    else if !MovesBook(m[0]) || !Known(s, Locate(m)) then s
    else ActedAt(s, Locate(m), ActionOf(m))
  }

  // ---- a stream ----

  ghost predicate AllSane(ms: seq<Bytes>) {
    forall i {:trigger Sane(ms[i])} | 0 <= i < |ms| :: Sane(ms[i])
  }

  function After(s: Books, ms: seq<Bytes>, k: nat): (t: Books)
    requires Tabled(s) && AllSane(ms) && k <= |ms|
    ensures Tabled(t)
  {
    if k == 0 then s else Folded(After(s, ms, k - 1), ms[k - 1])
  }

  /** How many of the first `k` messages are counted under `c`. */
  function CountAfter(s: Books, ms: seq<Bytes>, k: nat, c: Counter): nat
    requires Tabled(s) && AllSane(ms) && k <= |ms|
  {
    if k == 0 then 0
    else
      assert Sane(ms[k - 1]);
      CountAfter(s, ms, k - 1, c) + Digit(Counts(After(s, ms, k - 1), ms[k - 1], c))
  }

  /** Every message is counted as one. */
  lemma {:induction false} MessagesCounted(s: Books, ms: seq<Bytes>, k: nat)
    requires Tabled(s) && AllSane(ms) && k <= |ms|
    ensures CountAfter(s, ms, k, Messages) == k
  {
    if k > 0 {
      MessagesCounted(s, ms, k - 1);
      assert Sane(ms[k - 1]);
    }
  }

  /** How many of the first `k` messages have type byte `t`. */
  function TypeCount(ms: seq<Bytes>, k: nat, t: u8): nat
    requires AllSane(ms) && k <= |ms|
  {
    if k == 0 then 0
    else
      assert Sane(ms[k - 1]);
      TypeCount(ms, k - 1, t) + Digit(ms[k - 1][0] == t)
  }

  /** No book comes to 2^32 - 1 live orders. */
  ghost predicate Roomy(s: Books) {
    forall i {:trigger s.books[i]} | 0 <= i < |s.books| :: |s.books[i]| + 1 < TWO_32
  }

  ghost predicate RoomyRun(s: Books, ms: seq<Bytes>)
    requires Tabled(s) && AllSane(ms)
  {
    forall k: nat {:trigger After(s, ms, k)} | k <= |ms| :: Roomy(After(s, ms, k))
  }

  /** No book holds more than `bound` orders. */
  ghost predicate Within(s: Books, bound: nat) {
    forall i {:trigger s.books[i]} | 0 <= i < |s.books| :: |s.books[i]| <= bound
  }

  lemma ActGrows(m: Orders, a: Action)
    requires Storable(a)
    ensures |Act(m, a)| <= |m| + 1
  {
    if a.Replace? && a.original in m {
      assert |m - {a.original}| == |m| - 1;
    }
  }

  lemma FoldedGrows(s: Books, m: Bytes, bound: nat)
    requires Sane(m) && Tabled(s) && Within(s, bound)
    ensures Within(Folded(s, m), bound + 1)
  {
    if m[0] as char != 'R' && MovesBook(m[0]) && Known(s, Locate(m)) {
      ActGrows(s.books[Locate(m)], ActionOf(m));
    }
  }

  lemma {:induction false} AfterGrows(s: Books, ms: seq<Bytes>, k: nat, bound: nat)
    requires Tabled(s) && AllSane(ms) && k <= |ms| && Within(s, bound)
    ensures Within(After(s, ms, k), bound + k)
  {
    if k > 0 {
      AfterGrows(s, ms, k - 1, bound);
      FoldedGrows(After(s, ms, k - 1), ms[k - 1], bound + k - 1);
    }
  }

  /** A message adds one order at most, so a stream of fewer than 2^32 - 1 messages leaves room in empty books. */
  lemma ShortStreamsRoomy(s: Books, ms: seq<Bytes>, bound: nat)
    requires Tabled(s) && AllSane(ms) && Within(s, bound) && bound + |ms| + 1 < TWO_32
    ensures RoomyRun(s, ms)
  {
    forall k: nat | k <= |ms| ensures Roomy(After(s, ms, k)) {
      AfterGrows(s, ms, k, bound);
    }
  }

  // ---- the table ----

  /** How many of the first `k` locates are known. */
  function KnownAmong(known: seq<bool>, k: nat): nat
    requires k <= |known|
  {
    if k == 0 then 0 else KnownAmong(known, k - 1) + Digit(known[k - 1])
  }

  lemma {:induction false} KnownSet(known: seq<bool>, i: nat, k: nat)
    requires i < |known| && k <= |known|
    ensures KnownAmong(known[i := true], k) == KnownAmong(known, k) + Digit(i < k && !known[i])
  {
    if k > 0 {
      KnownSet(known, i, k - 1);
    }
  }

  lemma {:induction false} KnownPadded(known: seq<bool>, n: nat, k: nat)
    requires k <= |Padded(known, n, false)|
    ensures KnownAmong(Padded(known, n, false), k) == KnownAmong(known, if k < |known| then k else |known|)
  {
    if k > 0 {
      KnownPadded(known, n, k - 1);
    }
  }

  lemma RegisteredOnce(s: Books, m: Bytes)
    requires Sane(m) && Tabled(s) && s.registered == KnownAmong(s.known, |s.known|)
    ensures Folded(s, m).registered == KnownAmong(Folded(s, m).known, |Folded(s, m).known|)
  {
    if m[0] as char == 'R' {
      var known := Padded(s.known, Locate(m) + 1, false);
      KnownPadded(s.known, Locate(m) + 1, |known|);
      KnownSet(known, Locate(m), |known|);
    }
  }

  /** The number of symbols is the number of known locates: a repeated directory message is not counted twice. */
  lemma {:induction false} RegisteredIsKnown(ms: seq<Bytes>, k: nat)
    requires AllSane(ms) && k <= |ms|
    ensures var s := After(NO_BOOKS, ms, k); s.registered == KnownAmong(s.known, |s.known|)
  {
    if k > 0 {
      RegisteredIsKnown(ms, k - 1);
      RegisteredOnce(After(NO_BOOKS, ms, k - 1), ms[k - 1]);
    }
  }

  // ---- share accounts ----

  /** The four columns of the audit. */
  datatype Account = AddedShares | ExecutedShares | CancelledShares | DeletedShares

  /** What the audit notes for one action in a column, from the quantities before and after it. */
  function Noted(a: Action, m: Orders, column: Account): u32
    requires Storable(a)
  {
    match a
    case Add(ref, _, shares, _) => if column == AddedShares && AddResult(m, ref) == Applied then shares else 0
    case Execute(ref, shares) => if column == ExecutedShares then Fall(m, ref, shares) else 0
    case Cancel(ref, shares) => if column == CancelledShares then Fall(m, ref, shares) else 0
    case Delete(ref) => if column == DeletedShares then Quantity(m, ref) else 0
    case Replace(original, ref, shares, _) =>
      if ReplaceResult(m, original, ref) != Applied then 0
      else if column == AddedShares then shares
      else if column == DeletedShares then Quantity(m, original)
      else 0
  }

  /** Added minus executed minus cancelled minus deleted, for one action. */
  function NotedNet(a: Action, m: Orders): int
    requires Storable(a)
  {
    Noted(a, m, AddedShares) - Noted(a, m, ExecutedShares) - Noted(a, m, CancelledShares) - Noted(a, m, DeletedShares)
  }

  /** How much a reduction took from its order. */
  function Fall(m: Orders, ref: u64, shares: u32): u32
  {
    Quantity(m, ref) - Quantity(Reduced(m, ref, shares), ref)
  }

  /** A replace that names reference 0 for a live order removes it, and then cannot add the new one. */
  predicate LosesOrder(a: Action, m: Orders) {
    a.Replace? && a.original in m && a.ref == 0
  }

  function ActLeak(a: Action, m: Orders): nat {
    if LosesOrder(a, m) then m[a.original].Qty() else 0
  }

  /** One action moves the book's total by what the audit notes, less what it loses. */
  ghost predicate Conserves(m: Orders, a: Action)
    requires Storable(a)
  {
    && Total(Act(m, a)) + ActLeak(a, m) == Total(m) + NotedNet(a, m)
    && 0 !in Act(m, a)
  }

  lemma ActConserves(m: Orders, a: Action)
    requires Storable(a) && 0 !in m
    ensures Conserves(m, a)
  {
    match a
    case Add(ref, side, shares, price) => AddedTotals(m, ref, side == Buy, shares, price);
    case Execute(ref, shares) => FallTotals(m, ref, shares);
    case Cancel(ref, shares) => FallTotals(m, ref, shares);
    case Delete(ref) => RemovedTotals(m, ref);
    case Replace(original, ref, shares, price) => ReplacedTotals(m, original, ref, shares, price);
  }

  function MessageNoted(s: Books, m: Bytes, column: Account): u32
    requires Sane(m) && Tabled(s)
  {
    if MovesBook(m[0]) && Known(s, Locate(m)) then Noted(ActionOf(m), s.books[Locate(m)], column) else 0
  }

  function MessageLeak(s: Books, m: Bytes): nat
    requires Sane(m) && Tabled(s)
  {
    if MovesBook(m[0]) && Known(s, Locate(m)) then ActLeak(ActionOf(m), s.books[Locate(m)]) else 0
  }

  /** A column of the audit after the first `k` messages. */
  function NotedAfter(s: Books, ms: seq<Bytes>, k: nat, column: Account): nat
    requires Tabled(s) && AllSane(ms) && k <= |ms|
  {
    if k == 0 then 0
    else NotedAfter(s, ms, k - 1, column) + MessageNoted(After(s, ms, k - 1), ms[k - 1], column)
  }

  /** What the audit expects to be resting. */
  function Net(s: Books, ms: seq<Bytes>, k: nat): int
    requires Tabled(s) && AllSane(ms) && k <= |ms|
  {
    NotedAfter(s, ms, k, AddedShares) - NotedAfter(s, ms, k, ExecutedShares)
      - NotedAfter(s, ms, k, CancelledShares) - NotedAfter(s, ms, k, DeletedShares)
  }

  function LeakAfter(s: Books, ms: seq<Bytes>, k: nat): nat
    requires Tabled(s) && AllSane(ms) && k <= |ms|
  {
    if k == 0 then 0 else LeakAfter(s, ms, k - 1) + MessageLeak(After(s, ms, k - 1), ms[k - 1])
  }

  /** Resting shares of the first `k` books. */
  ghost function RestingIn(books: seq<Orders>, k: nat): nat
    requires k <= |books|
  {
    if k == 0 then 0 else RestingIn(books, k - 1) + Total(books[k - 1])
  }

  ghost function RestingTotal(s: Books): nat {
    RestingIn(s.books, |s.books|)
  }

  lemma {:induction false} RestingUpdate(books: seq<Orders>, k: nat, i: nat, m: Orders)
    requires k <= |books| && i < |books|
    ensures RestingIn(books[i := m], k) == RestingIn(books, k) + (if i < k then Total(m) - Total(books[i]) else 0)
  {
    if k > 0 {
      RestingUpdate(books, k - 1, i, m);
    }
  }

  lemma {:induction false} RestingPadded(books: seq<Orders>, n: nat, k: nat)
    requires k <= |Padded(books, n, map[])|
    ensures RestingIn(Padded(books, n, map[]), k) == RestingIn(books, if k < |books| then k else |books|)
  {
    if k > 0 {
      RestingPadded(books, n, k - 1);
    }
  }

  /** No book holds reference 0. */
  ghost predicate AllProper(s: Books) {
    forall i {:trigger s.books[i]} | 0 <= i < |s.books| :: 0 !in s.books[i]
  }

  lemma MessageConserves(s: Books, m: Bytes)
    requires Sane(m) && Tabled(s) && AllProper(s)
    ensures AllProper(Folded(s, m))
    ensures RestingTotal(Folded(s, m)) + MessageLeak(s, m) == RestingTotal(s)
      + MessageNoted(s, m, AddedShares) - MessageNoted(s, m, ExecutedShares)
      - MessageNoted(s, m, CancelledShares) - MessageNoted(s, m, DeletedShares)
  {
    if m[0] as char == 'R' {
      var books := Padded(s.books, Locate(m) + 1, map[]);
      RestingPadded(s.books, Locate(m) + 1, |books|);
    } else if MovesBook(m[0]) && Known(s, Locate(m)) {
      var i, a := Locate(m), ActionOf(m);
      ActConserves(s.books[i], a);
      RestingUpdate(s.books, |s.books|, i, Act(s.books[i], a));
    }
  }

  /** Over any stream, resting shares and lost shares together are what the accounts expect. */
  lemma {:induction false} Conservation(ms: seq<Bytes>, k: nat)
    requires AllSane(ms) && k <= |ms|
    ensures AllProper(After(NO_BOOKS, ms, k))
    ensures RestingTotal(After(NO_BOOKS, ms, k)) + LeakAfter(NO_BOOKS, ms, k) == Net(NO_BOOKS, ms, k)
  {
    if k > 0 {
      Conservation(ms, k - 1);
      MessageConserves(After(NO_BOOKS, ms, k - 1), ms[k - 1]);
    }
  }

  // ---- when conservation holds ----

  /** What message `i` of a stream loses. */
  function LeakAt(ms: seq<Bytes>, i: nat): nat
    requires AllSane(ms) && i < |ms|
  {
    MessageLeak(After(NO_BOOKS, ms, i), ms[i])
  }

  /** None of the first `k` messages loses an order with shares. */
  ghost predicate NoLeak(ms: seq<Bytes>, k: nat)
    requires AllSane(ms) && k <= |ms|
  {
    forall i {:trigger LeakAt(ms, i)} | 0 <= i < k :: LeakAt(ms, i) == 0
  }

  lemma NoLeakStep(ms: seq<Bytes>, k: nat)
    requires AllSane(ms) && 0 < k <= |ms|
    ensures NoLeak(ms, k) <==> NoLeak(ms, k - 1) && LeakAt(ms, k - 1) == 0
    ensures LeakAfter(NO_BOOKS, ms, k) == LeakAfter(NO_BOOKS, ms, k - 1) + LeakAt(ms, k - 1)
  {
  }

  lemma {:induction false} LeakFree(ms: seq<Bytes>, k: nat)
    requires AllSane(ms) && k <= |ms|
    ensures (LeakAfter(NO_BOOKS, ms, k) == 0) == NoLeak(ms, k)
  {
    if k > 0 {
      LeakFree(ms, k - 1);
      NoLeakStep(ms, k);
    }
  }

  /** The closing check of the audit holds exactly when no replace lost an order with shares. */
  lemma ConservedExactly(ms: seq<Bytes>, k: nat)
    requires AllSane(ms) && k <= |ms|
    ensures (RestingTotal(After(NO_BOOKS, ms, k)) == Net(NO_BOOKS, ms, k)) == NoLeak(ms, k)
  {
    Conservation(ms, k);
    LeakFree(ms, k);
  }

  /** A message that can lose an order: a replace whose new reference is 0. */
  predicate ReplacesWithZero(m: Bytes) {
    Readable(m) && MovesBook(m[0]) && ActionOf(m).Replace? && ActionOf(m).ref == 0
  }

  lemma NoZeroNoLeak(s: Books, m: Bytes)
    requires Sane(m) && Tabled(s) && !ReplacesWithZero(m)
    ensures MessageLeak(s, m) == 0
  {
  }

  lemma NoZeroNoLeaks(ms: seq<Bytes>, k: nat)
    requires AllSane(ms) && k <= |ms| && forall i {:trigger ms[i]} | 0 <= i < k :: !ReplacesWithZero(ms[i])
    ensures NoLeak(ms, k)
  {
    forall i | 0 <= i < k ensures LeakAt(ms, i) == 0 {
      NoZeroNoLeak(After(NO_BOOKS, ms, i), ms[i]);
    }
  }

  /** A stream that never replaces with reference 0 conserves shares. */
  lemma NoZeroReplaceConserves(ms: seq<Bytes>, k: nat)
    requires AllSane(ms) && k <= |ms| && forall i {:trigger ms[i]} | 0 <= i < k :: !ReplacesWithZero(ms[i])
    ensures RestingTotal(After(NO_BOOKS, ms, k)) == Net(NO_BOOKS, ms, k)
  {
    NoZeroNoLeaks(ms, k);
    ConservedExactly(ms, k);
  }

  // ---- from the bytes of a message to the levels of its book ----

  /** What an action does to its book, and what is answered, as the levels show it. */
  ghost predicate BookEffect(m: Orders, m': Orders, r: ApplyResult, a: Action) {
    match a
    case Add(ref, side, shares, price) => AddEffect(m, m', r, ref, side == Buy, shares, price)
    case Execute(ref, shares) => ReduceEffect(m, m', r, ref, shares)
    case Cancel(ref, shares) => ReduceEffect(m, m', r, ref, shares)
    case Delete(ref) => RemoveEffect(m, m', r, ref)
    case Replace(original, ref, shares, price) => ReplaceEffect(m, m', r, original, ref, shares, price)
  }

  lemma ActLaw(m: Orders, a: Action)
    requires Storable(a) && 0 !in m
    ensures BookEffect(m, Act(m, a), ActResult(m, a), a)
  {
    match a
    case Add(ref, side, shares, price) => AddLaw(m, ref, side == Buy, shares, price);
    case Execute(ref, shares) => ReduceLaw(m, ref, shares);
    case Cancel(ref, shares) => ReduceLaw(m, ref, shares);
    case Delete(ref) => RemoveLaw(m, ref);
    case Replace(original, ref, shares, price) => ReplaceLaw(m, original, ref, shares, price);
  }

  /**
   A message whose bytes ask for `a` on a known locate changes the book of that locate as `a` does, and nothing else;
   it is counted under the one result that `a` has there.
   */
  lemma MessageEffect(s: Books, m: Bytes, a: Action, locate: u16)
    requires Sane(m) && Tabled(s) && AllProper(s)
    requires Says(m, a) && Spells(m, 1, 2, locate) && Known(s, locate)
    ensures var r, t := ActResult(s.books[locate], a), Folded(s, m);
      && |t.books| == |s.books| && t == s.(books := s.books[locate := t.books[locate]])
      && BookEffect(s.books[locate], t.books[locate], r, a)
      && forall o :: Counts(s, m, Outcome(o)) <==> o == r
  {
    ReadAsSaid(m, a);
    Powers();
    Spelled(m, 1, 2, locate);
    ActLaw(s.books[locate], a);
  }

  /** A message that asks for nothing, or for something on an unknown locate, changes no book. */
  lemma NoEffect(s: Books, m: Bytes)
    requires Sane(m) && Tabled(s) && m[0] != 'R' as int
    requires (forall a :: !Says(m, a)) || !Known(s, Locate(m))
    ensures Folded(s, m) == s
    ensures forall o :: !Counts(s, m, Outcome(o))
    ensures Counts(s, m, UnknownLocate) <==> exists a :: Says(m, a)
  {
    if MovesBook(m[0]) {
      ReadAsSaid(m, ActionOf(m));
    }
    if a :| Says(m, a) {
      ReadAsSaid(m, a);
    }
  }

  /** The directory message for `locate` registers it: room up to it, its symbol, and one more symbol if it is new. */
  ghost predicate Registers(s: Books, t: Books, locate: u16, stock: Bytes)
    requires Tabled(s) && Tabled(t)
  {
    && |t.books| == (if locate < |s.books| then |s.books| else locate + 1)
    && t.known[locate] && t.symbols[locate] == stock
    && t.registered == s.registered + (if Known(s, locate) then 0 else 1)
    && (forall i {:trigger t.books[i]} | 0 <= i < |t.books| ::
          t.books[i] == if i < |s.books| then s.books[i] else map[])
    && (forall i {:trigger t.known[i]} | 0 <= i < |t.books| && i != locate ::
          t.known[i] == (i < |s.books| && s.known[i]))
    && (forall i {:trigger t.symbols[i]} | 0 <= i < |t.books| && i != locate ::
          t.symbols[i] == if i < |s.books| then s.symbols[i] else [])
  }

  lemma DirectoryEffect(s: Books, locate: u16, stock: Bytes)
    requires Tabled(s)
    ensures Registers(s, Registered(s, locate, stock), locate, stock)
  {
  }

  // ---- each column of the audit by itself ----

  /** How far message `i` lowers what rests in all books; negative where it adds. */
  ghost function FallAt(ms: seq<Bytes>, i: nat): int
    requires AllSane(ms) && i < |ms|
  {
    RestingTotal(After(NO_BOOKS, ms, i)) - RestingTotal(After(NO_BOOKS, ms, i + 1))
  }

  /** How far the messages of some types lower it together, among the first `k`. */
  ghost function FallsOf(ms: seq<Bytes>, k: nat, types: string): int
    requires AllSane(ms) && k <= |ms|
  {
    if k == 0 then 0
    else
      assert Sane(ms[k - 1]);
      FallsOf(ms, k - 1, types) + if ms[k - 1][0] as char in types then FallAt(ms, k - 1) else 0
  }

  /** The message replaces a live order: its original rests in the book it names, and its new reference is free. */
  predicate Exchanges(s: Books, m: Bytes)
    requires Sane(m) && Tabled(s)
  {
    && m[0] == 'U' as int && Known(s, Locate(m))
    && var b := s.books[Locate(m)];
       Be64(m, 11) in b && Be64(m, 19) != 0 && (Be64(m, 19) == Be64(m, 11) || Be64(m, 19) !in b)
  }

  /** The shares that replaces took out of the books and the shares they brought, among the first `k` messages. */
  function TakenByReplaces(ms: seq<Bytes>, k: nat): nat
    requires AllSane(ms) && k <= |ms|
  {
    if k == 0 then 0
    else
      assert Sane(ms[k - 1]);
      var s, m := After(NO_BOOKS, ms, k - 1), ms[k - 1];
      TakenByReplaces(ms, k - 1) + if Exchanges(s, m) then Quantity(s.books[Locate(m)], Be64(m, 11)) else 0
  }

  function BroughtByReplaces(ms: seq<Bytes>, k: nat): nat
    requires AllSane(ms) && k <= |ms|
  {
    if k == 0 then 0
    else
      assert Sane(ms[k - 1]);
      BroughtByReplaces(ms, k - 1)
        + if Exchanges(After(NO_BOOKS, ms, k - 1), ms[k - 1]) then Be32(ms[k - 1], 27) else 0
  }

  /** What one action enters in each column, by the fall of the total across it. */
  lemma ActionColumns(a: Action, m: Orders)
    requires Storable(a) && 0 !in m
    ensures var fall := Total(m) - Total(Act(m, a));
      && Noted(a, m, ExecutedShares) == (if a.Execute? then fall else 0)
      && Noted(a, m, CancelledShares) == (if a.Cancel? then fall else 0)
      && (!a.Replace? ==> Noted(a, m, DeletedShares) == if a.Delete? then fall else 0)
      && (!a.Replace? ==> Noted(a, m, AddedShares) == if a.Add? then -fall else 0)
  {
    match a
    case Add(ref, side, shares, price) => AddedTotals(m, ref, side == Buy, shares, price);
    case Execute(ref, shares) => FallTotals(m, ref, shares);
    case Cancel(ref, shares) => FallTotals(m, ref, shares);
    case Delete(ref) => RemovedTotals(m, ref);
    case Replace(_, _, _, _) =>
  }

  /** What one message lowers the total by is what its action lowers that of its book by. */
  lemma MessageFall(s: Books, m: Bytes)
    requires Sane(m) && Tabled(s) && MovesBook(m[0]) && Known(s, Locate(m))
    ensures var b := s.books[Locate(m)];
      RestingTotal(s) - RestingTotal(Folded(s, m)) == Total(b) - Total(Act(b, ActionOf(m)))
  {
    RestingUpdate(s.books, |s.books|, Locate(m), Act(s.books[Locate(m)], ActionOf(m)));
  }

  lemma NothingFalls(s: Books, m: Bytes)
    requires Sane(m) && Tabled(s) && !(MovesBook(m[0]) && Known(s, Locate(m)))
    ensures RestingTotal(Folded(s, m)) == RestingTotal(s)
  {
    if m[0] as char == 'R' {
      var books := Padded(s.books, Locate(m) + 1, map[]);
      RestingPadded(s.books, Locate(m) + 1, |books|);
    }
  }

  lemma MessageColumns(s: Books, m: Bytes)
    requires Sane(m) && Tabled(s) && AllProper(s)
    ensures var fall, t := RestingTotal(s) - RestingTotal(Folded(s, m)), m[0] as char;
      && MessageNoted(s, m, ExecutedShares) == (if t in "EC" then fall else 0)
      && MessageNoted(s, m, CancelledShares) == (if t in "X" then fall else 0)
      && MessageNoted(s, m, DeletedShares) == (if t in "D" then fall else 0)
           + (if Exchanges(s, m) then Quantity(s.books[Locate(m)], Be64(m, 11)) else 0)
      && MessageNoted(s, m, AddedShares) == (if t in "AF" then -fall else 0)
           + (if Exchanges(s, m) then Be32(m, 27) else 0)
  {
    if MovesBook(m[0]) && Known(s, Locate(m)) {
      ActionColumns(ActionOf(m), s.books[Locate(m)]);
      MessageFall(s, m);
    } else {
      NothingFalls(s, m);
    }
  }

  /**
   What a column should hold: executed what the books lost to 'E' and 'C' messages, cancelled what they lost to 'X',
   deleted what they lost to 'D', added what they gained from 'A' and 'F'; and a replace that is applied enters what it
   took in deleted and what it brought in added.
   */
  ghost function ByType(ms: seq<Bytes>, k: nat, column: Account): int
    requires AllSane(ms) && k <= |ms|
  {
    match column
    case ExecutedShares => FallsOf(ms, k, "EC")
    case CancelledShares => FallsOf(ms, k, "X")
    case DeletedShares => FallsOf(ms, k, "D") + TakenByReplaces(ms, k)
    case AddedShares => BroughtByReplaces(ms, k) - FallsOf(ms, k, "AF")
  }

  lemma ByTypeNext(ms: seq<Bytes>, k: nat, column: Account)
    requires AllSane(ms) && k < |ms| && NotedAfter(NO_BOOKS, ms, k, column) == ByType(ms, k, column)
    ensures NotedAfter(NO_BOOKS, ms, k + 1, column) == ByType(ms, k + 1, column)
  {
    Conservation(ms, k);
    assert Sane(ms[k]);
    MessageColumns(After(NO_BOOKS, ms, k), ms[k]);
  }

  /** Each column holds what it should. */
  lemma ColumnsAreFalls(ms: seq<Bytes>, k: nat, column: Account)
    requires AllSane(ms) && k <= |ms|
    ensures NotedAfter(NO_BOOKS, ms, k, column) == ByType(ms, k, column)
  {
    for i := 0 to k
      invariant NotedAfter(NO_BOOKS, ms, i, column) == ByType(ms, i, column)
    {
      ByTypeNext(ms, i, column);
    }
  }
}
