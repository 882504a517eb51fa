/** The bids table, and the query that ranks it to find the leading bid of each auction. */
module Ranking {
  import opened Wrappers
  import opened Auctions

  datatype BidRow = BidRow(id: int, auctionId: int, userId: int, amount: int)

  /** Ids are handed out in increasing order. */
  predicate AscendingIds(table: seq<BidRow>) {
    forall i, j :: 0 <= i < j < |table| ==> table[i].id < table[j].id
  }

  /** ORDER BY amount DESC, id ASC. */
  predicate Ahead(x: BidRow, y: BidRow) {
    x.amount > y.amount || (x.amount == y.amount && x.id < y.id)
  }

  /** How many rows of the same auction stand ahead of `row`; its RANK() is one more. */
  function CountAhead(table: seq<BidRow>, row: BidRow): (n: nat)
    ensures n == 0 <==> forall other :: other in table && other.auctionId == row.auctionId ==> !Ahead(other, row)
  {
    if table == [] then 0
    else
      var rest := CountAhead(table[1..], row);
      if table[0].auctionId == row.auctionId && Ahead(table[0], row) then rest + 1 else rest
  }

  /** The rows of `ranked` among the given auctions whose rank in `table` is one, in table order. */
  function RankOne(ranked: seq<BidRow>, table: seq<BidRow>, ids: seq<int>): (top: seq<BidRow>)
    ensures forall row :: row in top <==> row in ranked && row.auctionId in ids && CountAhead(table, row) == 0
  {
    if ranked == [] then []
    else
      var rest := RankOne(ranked[1..], table, ids);
      if ranked[0].auctionId in ids && CountAhead(table, ranked[0]) == 0 then [ranked[0]] + rest else rest
  }

  function Insert(row: BidRow, sorted: seq<BidRow>): (r: seq<BidRow>)
    ensures forall x :: x in r <==> x == row || x in sorted
  {
    if sorted == [] || row.auctionId <= sorted[0].auctionId then [row] + sorted
    else [sorted[0]] + Insert(row, sorted[1..])
  }

  /** ORDER BY auction_id ASC. */
  function SortByAuction(rows: seq<BidRow>): (r: seq<BidRow>)
    ensures forall x :: x in r <==> x in rows
  {
    if rows == [] then [] else Insert(rows[0], SortByAuction(rows[1..]))
  }

  function FindByOrphanedIds(table: seq<BidRow>, ids: seq<int>): seq<BidRow> {
    SortByAuction(RankOne(table, table, ids))
  }

  /** The saved bids of one auction, in the order they were saved. */
  function BidsOf(table: seq<BidRow>, auctionId: int): seq<SavedBid> {
    if table == [] then []
    else
      var n := |table| - 1;
      BidsOf(table[..n], auctionId)
      + if table[n].auctionId == auctionId then [SavedBid(table[n].userId, table[n].amount)] else []
  }

  // --- One leading row per auction ---

  predicate StrictByAuction(rows: seq<BidRow>) {
    forall i, j :: 0 <= i < j < |rows| ==> rows[i].auctionId < rows[j].auctionId
  }

  predicate OnePerAuction(rows: seq<BidRow>) {
    forall i, j :: 0 <= i < j < |rows| ==> rows[i].auctionId != rows[j].auctionId
  }

  lemma {:induction false} InsertStrict(row: BidRow, sorted: seq<BidRow>)
    requires StrictByAuction(sorted) && forall x :: x in sorted ==> x.auctionId != row.auctionId
    ensures StrictByAuction(Insert(row, sorted))
  {
    if sorted == [] || row.auctionId <= sorted[0].auctionId {
    } else {
      InsertStrict(row, sorted[1..]);
      var r := Insert(row, sorted[1..]);
      forall j | 0 <= j < |r| ensures sorted[0].auctionId < r[j].auctionId {
        assert r[j] in r;
      }
    }
  }

  lemma {:induction false} SortStrict(rows: seq<BidRow>)
    requires OnePerAuction(rows)
    ensures StrictByAuction(SortByAuction(rows))
  {
    if rows == [] {
    } else {
      SortStrict(rows[1..]);
      forall x | x in SortByAuction(rows[1..]) ensures x.auctionId != rows[0].auctionId {
        assert x in rows[1..];
      }
      InsertStrict(rows[0], SortByAuction(rows[1..]));
    }
  }

  lemma {:induction false} RankOneUnique(ranked: seq<BidRow>, table: seq<BidRow>, ids: seq<int>)
    requires AscendingIds(ranked) && forall row :: row in ranked ==> row in table
    ensures OnePerAuction(RankOne(ranked, table, ids))
  {
    if ranked == [] {
    } else {
      RankOneUnique(ranked[1..], table, ids);
      var top := RankOne(ranked[1..], table, ids);
      forall x | x in top && ranked[0].auctionId in ids && CountAhead(table, ranked[0]) == 0
        ensures x.auctionId != ranked[0].auctionId
      {
        assert x in ranked[1..] && ranked[0] in ranked;
        LeadersApart(table, ranked[0], x);
      }
    }
  }

  /** Two rows none stands ahead of belong to different auctions. */
  lemma LeadersApart(table: seq<BidRow>, x: BidRow, y: BidRow)
    requires x in table && y in table && x.id < y.id && CountAhead(table, y) == 0
    requires CountAhead(table, x) == 0
    ensures x.auctionId != y.auctionId
  {
  }

  /**
   The query answers with one row for each of the auctions that has bids, in auction order: the
   row no other bid of that auction stands ahead of.
   */
  lemma OneLeadingRowEach(table: seq<BidRow>, ids: seq<int>)
    requires AscendingIds(table)
    ensures StrictByAuction(FindByOrphanedIds(table, ids))
    ensures forall row :: row in FindByOrphanedIds(table, ids) <==>
              && row in table && row.auctionId in ids
              && forall other :: other in table && other.auctionId == row.auctionId ==> !Ahead(other, row)
  {
    RankOneUnique(table, table, ids);
    SortStrict(RankOne(table, table, ids));
  }

  /** The leading row of an auction, found going down the table. */
  function LeadingRow(table: seq<BidRow>, auctionId: int): Option<BidRow> {
    if table == [] then None
    else
      var n := |table| - 1;
      var leading := LeadingRow(table[..n], auctionId);
      if table[n].auctionId == auctionId && (leading.None? || leading.value.amount < table[n].amount) then Some(table[n])
      else leading
  }

  /** `leading` is a row of the auction that no other stands ahead of, or the auction has no row. */
  predicate Leads(table: seq<BidRow>, auctionId: int, leading: Option<BidRow>) {
    && (leading.None? ==> forall row :: row in table ==> row.auctionId != auctionId)
    && (leading.Some? ==>
          && leading.value in table && leading.value.auctionId == auctionId
          && forall other :: other in table && other.auctionId == auctionId ==> !Ahead(other, leading.value))
  }

  lemma OneMoreRow(front: seq<BidRow>, last: BidRow, auctionId: int, leading: Option<BidRow>)
    requires Leads(front, auctionId, leading) && forall row :: row in front ==> row.id < last.id
    ensures Leads(front + [last], auctionId,
                  if last.auctionId == auctionId && (leading.None? || leading.value.amount < last.amount) then Some(last)
                  else leading)
  {
  }

  lemma {:induction false} LeadingRowLeads(table: seq<BidRow>, auctionId: int)
    requires AscendingIds(table)
    ensures Leads(table, auctionId, LeadingRow(table, auctionId))
  {
    if table == [] {
    } else {
      var n := |table| - 1;
      var front, last := table[..n], table[n];
      LeadingRowLeads(front, auctionId);
      forall row | row in front
        ensures row.id < last.id
      {
        var i :| 0 <= i < n && front[i] == row;
        assert table[i] == row;
      }
      OneMoreRow(front, last, auctionId, LeadingRow(front, auctionId));
      assert table == front + [last];
    }
  }

  /** The leading row holds the bid ranked first among the auction's bids. */
  lemma {:induction false} LeadingRowIsTopBid(table: seq<BidRow>, auctionId: int)
    ensures TopBid(BidsOf(table, auctionId)) ==
            (match LeadingRow(table, auctionId) case None => None case Some(row) => Some(SavedBid(row.userId, row.amount)))
  {
    if table == [] {
    } else {
      var n := |table| - 1;
      var last, bids := table[n], BidsOf(table[..n], auctionId);
      LeadingRowIsTopBid(table[..n], auctionId);
      if last.auctionId == auctionId {
        var more := bids + [SavedBid(last.userId, last.amount)];
        assert BidsOf(table, auctionId) == more && more[..|bids|] == bids;
      } else {
        assert BidsOf(table, auctionId) == bids;
      }
    }
  }

  /** What the reconciliation looks up: the user of the row for this auction, if there is one. */
  ghost predicate LookedUp(rows: seq<BidRow>, auctionId: int, bidder: Option<int>) {
    if bidder.Some? then exists row :: row in rows && row.auctionId == auctionId && row.userId == bidder.value
    else forall row :: row in rows ==> row.auctionId != auctionId
  }

  lemma OneLeader(table: seq<BidRow>, x: BidRow, y: BidRow)
    requires AscendingIds(table) && x in table && y in table && !Ahead(x, y) && !Ahead(y, x)
    ensures x == y
  {
    var i :| 0 <= i < |table| && table[i] == x;
    var j :| 0 <= j < |table| && table[j] == y;
    assert i == j;
  }

  /** The lookup is decided by the table, and finds the user of the first-ranked saved bid. */
  lemma LookupFindsTopBidder(table: seq<BidRow>, ids: seq<int>, auctionId: int, bidder: Option<int>)
    requires AscendingIds(table) && auctionId in ids
    requires LookedUp(FindByOrphanedIds(table, ids), auctionId, bidder)
    ensures bidder == TopBidder(BidsOf(table, auctionId))
  {
    var found := FindByOrphanedIds(table, ids);
    var leading := LeadingRow(table, auctionId);
    OneLeadingRowEach(table, ids);
    LeadingRowLeads(table, auctionId);
    LeadingRowIsTopBid(table, auctionId);
    if leading.Some? {
      assert leading.value in found;
      var row :| row in found && row.auctionId == auctionId && row.userId == bidder.value;
      OneLeader(table, row, leading.value);
    }
  }
}
