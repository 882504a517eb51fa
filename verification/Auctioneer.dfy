/**
 An auction as a plain auctioneer would hold it, with one book of bids and a clock, and the server,
 with its two stores, four expiring keys and two jobs, doing the same.
 */
module Auctioneer {
  import opened Wrappers
  import opened RedisKeys
  import opened Increment
  import opened Auctions
  import opened Protocol
  import opened WholeBid
  import opened Operations

  /** `ends` is the first instant at which no bid is taken any more. */
  datatype Terms = Terms(ownerId: int, startingPrice: int, ends: int)

  /** The price the next bid has to beat. */
  function Price(terms: Terms, book: seq<SavedBid>): int {
    if book == [] then terms.startingPrice else book[|book| - 1].amount
  }

  function Leader(book: seq<SavedBid>): Option<int> {
    if book == [] then None else Some(book[|book| - 1].userId)
  }

  /** The auctioneer takes a bid in time that clears the increment, of anybody but the owner and the leader. */
  predicate Takes(config: BidConfig, terms: Terms, book: seq<SavedBid>, r: Request) {
    && r.now < terms.ends
    && r.amount > 0 && r.user != terms.ownerId && Leader(book) != Some(r.user)
    && r.amount as real >= Price(terms, book) as real + CalcMinIncrement(Price(terms, book), config)
  }

  /** The book after the given requests in turn. */
  function Book(config: BidConfig, terms: Terms, requests: seq<Request>): seq<SavedBid> {
    if requests == [] then []
    else
      var r := requests[|requests| - 1];
      var book := Book(config, terms, requests[..|requests| - 1]);
      if Takes(config, terms, book, r) then book + [SavedBid(r.user, r.amount)] else book
  }

  /** Redis shows what the book says, and goes on showing it as long as bids are taken. */
  predicate ShowsBook(keys: AuctionKeys, terms: Terms, book: seq<SavedBid>, gone: int) {
    && keys.active.Stored? && keys.active.expiry == At(terms.ends) && terms.ends <= gone
    && keys.price == Stored(Price(terms, book), At(gone))
    && keys.owner == Stored(terms.ownerId, At(gone))
    && keys.bidder == (if book == [] then Missing else Stored(Leader(book).value, Never))
  }

  lemma OneRequest(config: BidConfig, terms: Terms, a: Auction, book: seq<SavedBid>, gone: int, r: Request)
    requires ShowsBook(a.keys, terms, book, gone)
    ensures var b := Place(config, a, r.now, r.user, r.amount, true).0;
            && (Takes(config, terms, book, r) ==>
                  && ShowsBook(b.keys, terms, book + [SavedBid(r.user, r.amount)], gone)
                  && b == a.(keys := b.keys, bids := a.bids + [SavedBid(r.user, r.amount)]))
            && (!Takes(config, terms, book, r) ==> b == a)
  {
    PlacedExactly(config, a, r.now, r.user, r.amount, true);
    PlacedShowsExactly(config, a, r.now, r.user, r.amount, true);
  }

  /** Bids placed one after another, at whatever instants, are saved exactly as the auctioneer would enter them. */
  lemma {:induction false} BidsAreTheBook(config: BidConfig, terms: Terms, a: Auction, requests: seq<Request>, gone: int)
    requires ShowsBook(a.keys, terms, [], gone)
    ensures var b, book := PlaceAll(config, a, requests), Book(config, terms, requests);
            && ShowsBook(b.keys, terms, book, gone)
            && b == a.(keys := b.keys, bids := a.bids + book)
  {
    if requests == [] {
      assert a.bids + [] == a.bids;
    } else {
      var n := |requests| - 1;
      var book, r := Book(config, terms, requests[..n]), requests[n];
      BidsAreTheBook(config, terms, a, requests[..n], gone);
      OneRequest(config, terms, PlaceAll(config, a, requests[..n]), book, gone, r);
      assert a.bids + book + [SavedBid(r.user, r.amount)] == a.bids + (book + [SavedBid(r.user, r.amount)]);
    }
  }

  lemma {:induction false} PricesStayPositive(config: BidConfig, terms: Terms, requests: seq<Request>)
    requires terms.startingPrice > 0
    ensures Price(terms, Book(config, terms, requests)) > 0
  {
    if requests == [] {
    } else {
      PricesStayPositive(config, terms, requests[..|requests| - 1]);
    }
  }

  lemma OpenedBook(owner: int, request: NewAuction, creation: int, opening: int, until: int)
    requires Acceptable(request, creation) && OpensAt(request, creation) <= opening && opening + 1000 <= request.endTime
    requires LastWholeSecond(opening, request.endTime, until)
    ensures var a := Start(Create(NO_AUCTION, creation, owner, request, true), opening, SetUp);
            && a.row.Some? && a.row.value.status == Active && a.row.value.details == request.details
            && SameIdentity(Create(NO_AUCTION, creation, owner, request, true).row.value, a.row.value)
            && a.row.value.endTime == request.endTime && a.bids == []
            && ShowsBook(a.keys, Terms(owner, request.startingPrice, until), [], until + 3_600_000)
            && a.startJob.None? && a.endJob == Some(request.endTime)
  {
    CreatedExactly(NO_AUCTION, creation, owner, request, true);
    var a := Create(NO_AUCTION, creation, owner, request, true);
    StartedExactly(a, opening, SetUp, until);
  }

  /**
   A whole life: an auction created as requested, opened when its start job is due and a second is
   left, bid on by anybody at any time, and closed by its end job while the price can be read. Its
   saved bids are the auctioneer's book; it ends at the price of the last entry, which its bidder wins,
   or at the starting price with no winner; and nothing is left in Redis or in the queue.
   */
  lemma WholeLife(config: BidConfig, owner: int, request: NewAuction, creation: int, opening: int, until: int,
                  requests: seq<Request>, closing: int)
    requires Acceptable(request, creation) && OpensAt(request, creation) <= opening && opening + 1000 <= request.endTime
    requires LastWholeSecond(opening, request.endTime, until)
    requires request.endTime <= closing < until + 3_600_000
    ensures var running := Start(Create(NO_AUCTION, creation, owner, request, true), opening, SetUp);
            var ended := End(PlaceAll(config, running, requests), closing, NoCrash);
            var terms := Terms(owner, request.startingPrice, until);
            var book := Book(config, terms, requests);
            && ended.bids == book && ended.keys == NO_KEYS && ended.startJob.None? && ended.endJob.None?
            && ended.row.Some? && ended.row.value.status == Ended && ended.row.value.endedAt == Some(closing)
            && ended.row.value.currentPrice == Some(Price(terms, book)) && ended.row.value.winnerId == Leader(book)
  {
    var running := Start(Create(NO_AUCTION, creation, owner, request, true), opening, SetUp);
    var terms := Terms(owner, request.startingPrice, until);
    OpenedBook(owner, request, creation, opening, until);
    BidsAreTheBook(config, terms, running, requests, until + 3_600_000);
    PricesStayPositive(config, terms, requests);
    EndedExactly(PlaceAll(config, running, requests), closing, NoCrash);
  }
}
