/** The table of books, with the number of a symbol as its index. */
module BookTable {
  import opened Words
  import opened Bytes
  import opened FlatHashMap
  import opened BookSpec
  import opened Book
  import opened Itch
  import opened Streams

  /** The book is sound and means `m`. */
  ghost predicate BookOk(b: OrderBook, m: Orders)
    reads b, b.orders, b.bids, b.asks
  {
    b.Valid() && b.Live() == m
  }

  /** Two books share no part. */
  ghost predicate Apart(a: OrderBook, b: OrderBook) {
    && a != b && a.orders != b.orders
    && a.bids != b.bids && a.bids != b.asks && a.asks != b.bids && a.asks != b.asks
  }

  ghost function Parts(b: OrderBook): set<object> {
    {b, b.orders, b.bids, b.asks}
  }

  /** The books lie in `repr`, apart from each other and from the table itself. */
  ghost predicate LaidOut(self: object, bs: seq<OrderBook>, repr: set<object>) {
    && self in repr
    && (forall i {:trigger bs[i]} | 0 <= i < |bs| :: self !in Parts(bs[i]) && Parts(bs[i]) <= repr)
    && (forall i, j {:trigger bs[i], bs[j]} | 0 <= i < |bs| && 0 <= j < |bs| && i != j :: Apart(bs[i], bs[j]))
  }

  lemma LayOutOneMore(self: object, bs: seq<OrderBook>, repr: set<object>, b: OrderBook)
    requires LaidOut(self, bs, repr) && Parts(b) !! repr
    ensures LaidOut(self, bs + [b], repr + Parts(b))
  {
    var all := bs + [b];
    forall i | 0 <= i < |bs| ensures Apart(bs[i], b) {
      assert bs[i] in Parts(bs[i]) && bs[i].orders in Parts(bs[i]);
      assert bs[i].bids in Parts(bs[i]) && bs[i].asks in Parts(bs[i]);
      assert b in Parts(b) && b.orders in Parts(b) && b.bids in Parts(b) && b.asks in Parts(b);
    }
  }

  /** The switch of the dispatch, on the book the message names. */
  method ActOn(b: OrderBook, a: Action) returns (r: ApplyResult)
    requires b.Valid() && Storable(a) && |b.Live()| + 1 < TWO_32
    modifies b, b.orders, b.bids, b.asks
    ensures BookOk(b, Act(old(b.Live()), a)) && 0 !in old(b.Live())
    ensures r == ActResult(old(b.Live()), a)
    ensures BookEffect(old(b.Live()), b.Live(), r, a)
  {
    ActLaw(b.Live(), a);
    match a
    case Add(ref, side, shares, price) => r := b.Add(ref, side, shares, price);
    case Execute(ref, shares) => r := b.Reduce(ref, shares);
    case Cancel(ref, shares) => r := b.Reduce(ref, shares);
    case Delete(ref) => r := b.Remove(ref);
    case Replace(original, ref, shares, price) => r := b.Replace(original, ref, shares, price);
  }

  class BookSet {
    const hash: Hash
    var books: seq<OrderBook>
    var symbols: seq<Bytes>
    var known: seq<bool>
    var registered: nat
    /** What the books mean. */
    ghost var model: Books
    ghost var repr: set<object>

    ghost predicate Valid()
      reads this, repr
    {
      && Tabled(model)
      && symbols == model.symbols && known == model.known && registered == model.registered
      && Sound()
    }

    /** Every book is sound, means what the model says, and shares no part with another. */
    ghost predicate Sound()
      reads this, repr
    {
      && LaidOut(this, books, repr)
      && |books| == |model.books|
      && forall i {:trigger books[i]} | 0 <= i < |books| :: BookOk(books[i], model.books[i])
    }

    constructor (hash: Hash)
      ensures Valid() && model == NO_BOOKS && fresh(repr)
    {
      this.hash := hash;
      books, symbols, known := [], [], [];
      registered := 0;
      model := NO_BOOKS;
      repr := {this};
    }

    /** 'R'. Makes room for the locate and names it; a repeat renames it and is not counted again. */
    method OnStockDirectory(locate: u16, stock: Bytes)
      requires Valid()
      modifies repr
      ensures Valid() && fresh(repr - old(repr))
      ensures model == Registered(old(model), locate, stock)
      ensures Registers(old(model), model, locate, stock)
    {
      DirectoryEffect(model, locate, stock);
      Resize(locate + 1);
      if !known[locate] {
        registered := registered + 1;
      }
      Name(locate, stock);
    }

    /** The second half of a directory message: the locate is named and known. */
    method Name(locate: u16, stock: Bytes)
      requires Sound() && Tabled(model) && locate < |books| && |symbols| == |known| == |books|
      modifies this`symbols, this`known, this`model
      ensures Valid()
      ensures model == Books(old(model).books, old(symbols)[locate := stock], old(known)[locate := true], registered)
    {
      symbols := symbols[locate := stock];
      known := known[locate := true];
      model := Books(model.books, symbols, known, registered);
    }

    method Resize(n: nat)
      requires Valid()
      modifies repr
      ensures Valid() && fresh(repr - old(repr)) && |books| >= n
      ensures model == Books(Padded(old(model).books, n, map[]), Padded(old(model).symbols, n, []),
                             Padded(old(model).known, n, false), old(model).registered)
    {
      ghost var was := model;
      if |books| < n {
        while |books| < n
          invariant Sound() && fresh(repr - old(repr)) && |was.books| <= |books| <= n
          invariant symbols == was.symbols && known == was.known && registered == was.registered
          invariant model.books == Padded(was.books, |books|, map[])
        {
          AppendBook();
        }
        symbols := Padded(symbols, n, []);
        known := Padded(known, n, false);
      }
      model := Books(model.books, symbols, known, registered);
    }

    method AppendBook()
      requires Sound()
      modifies this`books, this`model, this`repr
      ensures Sound() && fresh(repr - old(repr))
      ensures |books| == |old(books)| + 1 && model == old(model).(books := old(model).books + [map[]])
    {
      var b := new OrderBook(hash);
      AddBook(b);
    }

    method AddBook(b: OrderBook)
      requires Sound() && BookOk(b, map[]) && Parts(b) !! repr
      modifies this`books, this`model, this`repr
      ensures Sound() && repr == old(repr) + Parts(b)
      ensures |books| == |old(books)| + 1 && model == old(model).(books := old(model).books + [map[]])
    {
      LayOutOneMore(this, books, repr, b);
      books := books + [b];
      model := model.(books := model.books + [map[]]);
      repr := repr + Parts(b);
    }

    /** The action on one book; the others stand as they were. */
    method ActAt(locate: u16, a: Action) returns (r: ApplyResult)
      requires Valid() && locate < |books| && Storable(a) && |model.books[locate]| + 1 < TWO_32
      modifies Parts(books[locate])
      ensures r == ActResult(model.books[locate], a)
      ensures BookOk(books[locate], Act(model.books[locate], a)) && 0 !in model.books[locate]
      ensures forall i {:trigger books[i]} | 0 <= i < |books| && i != locate :: BookOk(books[i], model.books[i])
    {
      assert BookOk(books[locate], model.books[locate]);
      r := ActOn(books[locate], a);
      forall i | 0 <= i < |books| && i != locate ensures BookOk(books[i], model.books[i]) {
        assert Apart(books[i], books[locate]) && old(BookOk(books[i], model.books[i]));
      }
    }

    /** The action of one message on the book of a registered locate. */
    method Route(locate: u16, a: Action) returns (r: ApplyResult)
      requires Valid() && locate < |books| && Storable(a) && |model.books[locate]| + 1 < TWO_32
      modifies repr
      ensures Valid() && repr == old(repr)
      ensures r == ActResult(old(model).books[locate], a)
      ensures model == ActedAt(old(model), locate, a)
      ensures BookEffect(old(model).books[locate], model.books[locate], r, a)
      ensures 0 !in old(model).books[locate]
      ensures |model.books| == |old(model).books|
      ensures forall i | 0 <= i < |model.books| && i != locate :: model.books[i] == old(model).books[i]
      ensures symbols == old(symbols) && known == old(known) && registered == old(registered)
    {
      r := ActAt(locate, a);
      ActLaw(model.books[locate], a);
      Mean(ActedAt(model, locate, a));
    }

    /** The books have come to mean `s`. */
    ghost method Mean(s: Books)
      requires LaidOut(this, books, repr) && Tabled(s) && |books| == |s.books|
      requires symbols == s.symbols && known == s.known && registered == s.registered
      requires forall i {:trigger books[i]} | 0 <= i < |books| :: BookOk(books[i], s.books[i])
      modifies this`model
      ensures Valid() && model == s
    {
      model := s;
    }

    lemma BooksProper()
      requires Valid()
      ensures AllProper(model)
    {
      forall i | 0 <= i < |model.books| ensures 0 !in model.books[i] {
        assert BookOk(books[i], model.books[i]);
      }
    }

    /** `shares_of` at one book. */
    method SharesOf(locate: u16, ref: u64) returns (shares: u32)
      requires Valid() && locate < |books|
      ensures shares == Quantity(model.books[locate], ref)
    {
      assert BookOk(books[locate], model.books[locate]);
      shares := books[locate].SharesOf(ref);
    }

    /** The fast check of the one book a message touched. */
    method CheckFastAt(i: nat) returns (ok: bool)
      requires Valid() && i < |books|
      ensures ok
    {
      assert BookOk(books[i], model.books[i]);
      ok := books[i].CheckInvariantsFast();
    }

    predicate IsKnown(locate: u16)
      reads this
    {
      locate < |known| && known[locate]
    }

    /** The shares that rest in all books together, summed in 64 bits. */
    method RestingShares() returns (total: u64)
      requires Valid()
      ensures total == RestingTotal(model) % TWO_64
    {
      total := 0;
      for i := 0 to |books|
        invariant total == RestingIn(model.books, i) % TWO_64
      {
        total := AddResting(i, total);
      }
    }

    method AddResting(i: nat, before: u64) returns (total: u64)
      requires Valid() && i < |books| && before == RestingIn(model.books, i) % TWO_64
      ensures total == RestingIn(model.books, i + 1) % TWO_64
    {
      var shares := RestingAt(i);
      Add64IsModulo(RestingIn(model.books, i), shares);
      total := Add64(before, shares);
    }

    method RestingAt(i: nat) returns (shares: u64)
      requires Valid() && i < |books|
      ensures shares == Total(model.books[i])
    {
      assert BookOk(books[i], model.books[i]);
      shares := books[i].RestingShares();
    }

    method CheckInvariantsFast() returns (ok: bool)
      requires Valid()
      ensures ok
    {
      for i := 0 to |books| {
        ok := CheckFastAt(i);
        if !ok {
          return false;
        }
      }
      return true;
    }

    /** The full check of every registered book. */
    method CheckInvariants() returns (ok: bool)
      requires Valid()
      ensures ok <==> AllSolid(model)
    {
      if |known| != |books| || |symbols| != |books| {
        return false;
      }
      for i := 0 to |books|
        invariant SolidBelow(model, i)
      {
        ok := CheckAt(i);
        if !ok {
          return false;
        }
      }
      return true;
    }

    method CheckAt(i: nat) returns (ok: bool)
      requires Valid() && i < |books|
      ensures ok == SolidAt(model, i)
    {
      assert BookOk(books[i], model.books[i]);
      if !known[i] {
        return true;
      }
      ok := books[i].CheckInvariants();
    }
  }

  /** A registered locate has no level made of orders without shares. */
  ghost predicate SolidAt(s: Books, i: nat)
    requires Tabled(s) && i < |s.books|
  {
    s.known[i] ==> NoHollowLevel(s.books[i])
  }

  ghost predicate SolidBelow(s: Books, n: nat)
    requires Tabled(s) && n <= |s.books|
  {
    forall i: nat {:trigger SolidAt(s, i)} | i < n :: SolidAt(s, i)
  }

  ghost predicate AllSolid(s: Books)
    requires Tabled(s)
  {
    SolidBelow(s, |s.books|)
  }

  // ---- when the full check cannot fail ----

  /** A new order brings at least one share. */
  predicate BringsShares(m: Bytes) {
    Sane(m) && MovesBook(m[0]) ==>
      match ActionOf(m)
      case Add(_, _, shares, _) => shares > 0
      case Replace(_, _, shares, _) => shares > 0
      case _ => true
  }

  ghost predicate AllBooksPositive(s: Books) {
    forall i {:trigger s.books[i]} | 0 <= i < |s.books| :: AllPositive(s.books[i])
  }

  lemma FoldedPositive(s: Books, m: Bytes)
    requires Sane(m) && Tabled(s) && BringsShares(m) && AllBooksPositive(s)
    ensures AllBooksPositive(Folded(s, m))
  {
    if MovesBook(m[0]) && Known(s, Locate(m)) {
      assert AllPositive(s.books[Locate(m)]);
    }
  }

  lemma {:induction false} StreamPositive(ms: seq<Bytes>, k: nat)
    requires AllSane(ms) && k <= |ms| && forall i {:trigger ms[i]} | 0 <= i < k :: BringsShares(ms[i])
    ensures AllBooksPositive(After(NO_BOOKS, ms, k))
  {
    if k > 0 {
      StreamPositive(ms, k - 1);
      FoldedPositive(After(NO_BOOKS, ms, k - 1), ms[k - 1]);
    }
  }

  /** When every new order brings shares, no stream of messages makes any book fail the full check. */
  lemma NeverHollow(ms: seq<Bytes>, k: nat)
    requires AllSane(ms) && k <= |ms| && forall i {:trigger ms[i]} | 0 <= i < k :: BringsShares(ms[i])
    ensures AllSolid(After(NO_BOOKS, ms, k))
  {
    var s := After(NO_BOOKS, ms, k);
    StreamPositive(ms, k);
    forall i: nat | i < |s.books| ensures SolidAt(s, i) {
      PositiveNotHollow(s.books[i]);
    }
  }
}
