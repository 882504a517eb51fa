# BidBattle: verified models of the live-auction protocol

This project models the parts of the BidBattle auction platform in which state is spread over
several stores, or shared by several callers, and proves what holds of them for every input, every
run and every interleaving.

An auction lives in two stores at once. MySQL holds its row and its saved bids; Redis holds four
keys (active flag, price, owner, leading bidder), each with an expiry time; and a start job and an
end job wait in a queue. An atomic script accepts bids in Redis, a database insert makes them
durable, and a compensating write takes a bid back when the insert fails. Owners edit and cancel,
jobs start and end the auction and may crash or be retried, Redis may lose its keys, and a server
that boots reconciles the two stores.

## How the models fit together

| Files | What they model |
|---|---|
| `RedisKeys`, `Increment`, `Auctions`, `Operations` | the keys with their expiry times and what each Redis operation does to them; the minimum increment; every server operation, run as a whole, as a function on one auction, with when it goes through and what readers see afterwards |
| `Protocol` | the state machine: a clock, the auction, and any number of `placeBid` calls, each taking its steps (three reads in any order, decision, script, save, and the two round trips of a rollback) between the steps of all others |
| `Expiry`, `Wear`, `Agreement`, `RollbackOrder`, `BidTable`, `Staleness` | what all interleavings keep: expiry order and how many rollbacks it stands, Redis against the accepted bids, the accepted bids against the bid table, increments read too early |
| `Lifecycle`, `Winner`, `EndRetry`, `StartRetry`, `Restore`, `WholeBid`, `Auctioneer` | what whole lives of an auction keep and come to: the plain auctioneer they refine, terminal states, end times, the winner, crashes and retries of both jobs, recovery, series of bids |
| `Ranking`, `Scan`, `Bootstrap`, `Server` | the ranking query, the paged boot-time scan of a list that shrinks under it, and the services as classes whose methods change stores in place, each proved to do what its function in `Auctions` or `WholeBid` says |
| `Text`, `Numbers`, `CacheKey`, `ListCache` | percent-encoding, fields and JavaScript's printing of numbers with their inverses, the cache key of an auction list and a parser for it, coherence of the cached lists |
| `Images`, `Presence`, `Gateway`, `RateLimiter`, `RefreshQueue` | edits of the image set, who watches which auction, the packet limit of a socket, the client's single-flight token refresh |

The widest statement is `Auctioneer.WholeLife`: from request to winner, the two stores, four expiring
keys and two jobs do what a plain auctioneer with one book of bids and a clock would do. The other
models say what remains of that when calls overlap, saves fail, processes die and keys are lost.

Words used below:

- A *regular* run is one in which the start job never finds the queue down, no owner extends an
  ACTIVE auction whose active key is already gone, no auction is extended and no Redis lost between
  the two round trips of a rollback, and at most 7214 rollbacks write to Redis
  (`Expiry.RegularRun`). What is set apart is treated in `StartRetry` and
  `Lifecycle.CanceledWithoutBids` (failed starts), `Expiry.ExtensionReachesRedis` (late extensions),
  `Wear.StraddledExactly` and `Wear.StraddlingAllowsNoRollback` (extensions in the midst of a
  rollback), `Restore.LostInMidRollback` (Redis lost there) and `Wear.OneTooMany` (more rollbacks).
- A *faithful* run is a regular run in which Redis keeps its keys and every rollback that writes
  to Redis undoes the latest accepted bid (`Agreement.FaithfulRun`). Runs whose saves all succeed are
  faithful (`BidTable.SavingRunsAreFaithful`).
- The *log* of a state is its accepted bids that Redis has not rolled back, oldest first.
- Time is in milliseconds; a key set to expire at `t` can be read strictly before `t`; `TTL` answers
  in seconds rounded to the nearest.

## Results that are not what one might expect

- A rollback of a bid that is no longer the latest accepted one puts Redis below the top accepted
  bid; rolling back last-accepted-first is exactly the condition for Redis to stay right
  (`AgreesExactlyWhenLastFirst`).
- `TTL` rounds, so a rollback can take 499 milliseconds off the price key's life, and the losses add
  up (`RollbackDrift`, `DriftAddsUp`): as long as nothing extends the auction between the two round
  trips of a rollback, 7214 rollbacks of one auction are safe, and with 7215 it can lose its price
  while it still takes bids (`PriceOutlivesActiveExactly`, `OneTooMany`). When its owner does extend it
  there, by more than an hour, one rollback is enough (`OneStraddledIsEnough`,
  `StraddlingAllowsNoRollback`).
- An end job that fires while the latest accepted bid is not saved yet, and only then, names a winner
  the bid table does not know (`EndJobNamesTheWinner`); when a bid is rolled back between its two reads,
  it writes the price of a bid that no longer stands (`TornReadExactly`); one that comes after the price key has expired
  leaves the auction ACTIVE with nothing queued to end it (`EndJobLostExactly`, `ForgottenForGood`).
- A start job that dies between its commit and the queueing of the end job finds the row ACTIVE when it
  is run again, and goes. A boot repairs that exactly if it finds the active key gone
  (`BootRemembersExactly`, `DiedBeforeRedis`); when Redis is live and only the end job is missing, a boot
  while the key lives changes nothing.
- A start job that finds the queue down leaves a PENDING auction live in Redis. Its retry keeps every
  bid, but Redis takes bids up to the end time exactly if the owner has not moved that on in between
  (`RetryKeepsEveryBid`). If the owner cancels instead, only the start job and the price go: anybody
  can then bid on the CANCELED auction, from nothing on, until the old end time, and the bid is saved
  (`CanceledWithoutBids`, `CanceledYetBidOn`).
- The boot-time scan misses rows exactly when a row outside the last page is overdue
  (`OnApplicationBootstrap`, `LastOfAHundredAndOneMissed`).
- Bids never touch `auctions.current_price`, so reconciliation brings the whole live state back
  exactly when no bid was accepted (`RestoresLiveStateExactlyWithoutBids`), and a server that boots at or
  after the end time ends the auction without a winner (`LateBootEndsBlindly`).
- A canceled auction can also gain a bid that was accepted in Redis but not saved when the owner
  canceled (`CanceledWithoutBids`, `CanceledInOrder`).
- A start or end job that dies after its commit leaves cached lists stale, and if the latter dies after the cleanup
  its retry returns early and never invalidates them (`UncoveredLeavesStale`).
- An end job whose retry comes after the price key has expired cleans nothing up
  (`CleanedExactlyWhenReadable`).
- An image set with two equal URLs can lose its primary image in an edit (`OnePrimaryExactly`,
  `DuplicatesLoseThePrimary`), and request validation lets such a set through (`DuplicatesAreValid`); an edit whose primary index is out of range leaves its uploads behind
  (`FailedEditUndone`).
- A bid whose token no longer holds disconnects the socket but leaves its seat in the participants
  hash (`ExpiredTokenLeavesTheSeat`); rejoining an auction other than the current one seats the
  socket twice (`RejoinKeepsOneSeatExactly`); a socket that connected as a guest never joins its user's
  personal room (`LateUsersMissTheirRoom`); whoever asks for the current state is told the number of
  sockets, not of users (`AskedMatchesAnnouncedExactly`).
- A request that leads a token refresh and whose own retry fails also fails the requests waiting for
  a later refresh (`WaitersSafeExactly`, `RetryMeetsLaterRefresh`); a leader that is unsubscribed leaves all later
  ones waiting (`CanceledLeaderLeavesAllWaiting`).

## Where the code and its comments differ

The models follow the code.

- `server/src/modules/auctions/auction.scheduler.ts:27` describes a delay of zero for instants in the past; the code waits 2000 ms.
- `server/src/modules/auctions/auctions.service.ts:53-56` says that booting reschedules PENDING auctions; the bootstrap loop
  reads ACTIVE ones only.
- `server/src/shared/redis/redis.service.ts:281-284` says that `initializeAuction` returns early without touching any key
  when the active key is there; it sends all three `SET ... NX` commands first.
- `server/src/modules/auctions/auctions-end.processor.ts:37-39` says a retry proceeds to the cleanup; that holds only while the
  price key can be read.
- `server/src/modules/auctions/auctions-start.processor.ts:38-42` says that booting repairs a crash before the end job was
  scheduled; it looks only at auctions whose active key is gone.
- `server/src/shared/redis/redis.service.ts:605-606` calls the rollback atomic and says that it keeps the original TTL; it reads
  the TTL in one round trip and writes in another.
- `server/src/modules/bid/bid.constants.ts:9-10` promises an integer increment; an absolute floor that is no integer, such
  as the default 0.01, is returned as it is where there is no price, and passed over for the next integer
  where it would suffice (`FloorPassedOverExactly`).

## Model

| member | source | states |
|---|---|---|
| RedisKeys.RollbackDrift | server/src/shared/redis/redis.service.ts:612-639 | a rollback whose two round trips nothing separates restores the snapshot's price and moves the price deadline to the remaining time rounded to whole seconds, at most 499 ms back or 500 forth, or to an hour from now when less than half a second was left |
| RedisKeys.DriftAddsUp | server/src/shared/redis/redis.service.ts:612-639 | for every n there are n ordered instants at which rolling back shortens the price key's life by 499 n milliseconds |
| RedisKeys.BidDecidedExactly | server/src/shared/redis/redis.service.ts:61-97 | the script accepts a bid if and only if the active key lives, somebody else leads or nobody, and the amount is at least the price, or 0, plus the increment, for all keys, instants, amounts and increments; each rejection code has its exact condition |
| RedisKeys.BidShowsExactly | server/src/shared/redis/redis.service.ts:61-97 | an accepted bid is the price and leader every reader then sees, its reply is what they saw before, and no deadline moves; a rejected one changes nothing |
| RedisKeys.TtlExactly | server/src/shared/redis/redis.service.ts:614 | the remaining time is -2 for no key, -1 for one that never expires, and otherwise within half a second |
| RedisKeys.WriteBackShowsExactly | server/src/shared/redis/redis.service.ts:619-634 | after the write of a rollback readers see the price and bidder of the snapshot, absent ones included, for the remaining time read or else an hour |
| RedisKeys.InitializedShowsExactly | server/src/shared/redis/redis.service.ts:296-324 | initializing shows a live auction at the starting price; whatever was readable keeps its value and deadline |
| RedisKeys.ExtendedShowsExactly | server/src/shared/redis/redis.service.ts:326-342 | extending changes nothing readers see, and moves the deadline of everything they see |
| RedisKeys.RestoredShowsExactly | server/src/shared/redis/redis.service.ts:360-378 | restoring shows the given values with new deadlines, and the old bidder when none is given |
| Increment.IncrementMonotone | server/src/modules/bid/bid.constants.ts:17-22 | the minimum increment is positive and never falls as the price rises |
| Increment.IncrementExactly | server/src/modules/bid/bid.constants.ts:17-22 | the increment is the floor if and only if there is no price yet or a whole number up to the floor reaches the percentage; otherwise it is whole, above the floor, reaches the percentage, and would not if it were one less |
| Increment.IncrementIsLeast | server/src/modules/bid/bid.constants.ts:17-22 | no smaller whole number is at least the floor and the percentage |
| Increment.FloorPassedOverExactly | server/src/modules/bid/bid.constants.ts:20-21 | the floor can suffice and yet be passed over for the next whole number, if and only if the percentage lies between the whole number below the floor and the floor; never when the floor is whole |
| Increment.BidMultiplies | server/src/modules/bid/bid.constants.ts:17-22 | a bid that clears the increment is at least (100 + percent)/100 times the price it beats |
| Increment.CompoundGrowth | server/src/modules/bid/bid.service.ts:74-86 | along any chain of n bids each clearing the increment due, 100^n * last >= (100 + percent)^n * first |
| Increment.BidCountBounded | server/src/modules/bid/bid.service.ts:74-86 | so (100 + percent)^n is at most 100^n times 999999999 under the price cap |
| Protocol.DecidedExactly | server/src/modules/bid/bid.service.ts:59-86 | each refusal before the script, and going on with the increment due, happens if and only if its condition on owner, bidder, active key, price and amount holds |
| Protocol.ReadsExactly | server/src/modules/bid/bid.service.ts:59-63 | each of the three reads keeps the answer of that instant, and only that |
| Protocol.DecidesExactly | server/src/modules/bid/bid.service.ts:65-86 | a call decides once all three answers are there and by them alone, whatever Redis shows by then |
| Protocol.SavesExactly | server/src/modules/bid/bid.service.ts:90-102 | a save enters the bid and ends the call, or leaves it to be rolled back |
| Protocol.ReadTtlExactly | server/src/shared/redis/redis.service.ts:614-619 | a rollback goes on if and only if the price key is there, with the time that has left |
| Protocol.ScriptAcceptsExactly | server/src/shared/redis/redis.service.ts:61-97 | whatever is in flight, the script takes a call if and only if the auction takes bids, another or nobody leads, and the amount clears the price by the increment the call brought along; it is then in the log, and shows |
| Protocol.RollBackShowsSnapshot | server/src/shared/redis/redis.service.ts:619-634 | whatever has happened since, the write of a rollback shows what stood before its bid |
| Operations.CreatedExactly | server/src/modules/auctions/auctions.service.ts:65-103 | an auction is created if and only if there is none, its price is 1 to 999999999, it ends between an hour and 30 days from now, and the queue is up; each field of the row is the one requested, and the start job is due at the start time, or two seconds on for one that is absent or past |
| Operations.StartSkipsExactly | server/src/modules/auctions/auctions-start.processor.ts:138-146 | the start job does nothing but complete unless the auction is PENDING |
| Operations.OverdueStartEnds | server/src/modules/auctions/auctions-start.processor.ts:148-158 | a PENDING auction with less than a second to go ends without having run |
| Operations.StartedExactly | server/src/modules/auctions/auctions-start.processor.ts:160-204 | one with more becomes ACTIVE and readable at its starting price up to its last whole second, with an end job due at its end time; a failure or crash leaves out exactly what comes later, and what an earlier attempt left stays |
| Operations.EndedExactly | server/src/modules/auctions/auctions-end.processor.ts:48-93 | an end job that reads no price, or zero, only completes; otherwise the row ends once, at the price and bidder readers see, the keys go, and the job goes, each up to where it dies |
| Operations.CanceledExactly | server/src/modules/auctions/auctions.service.ts:271-312 | a cancellation goes through if and only if its user owns the auction and that is PENDING, or ACTIVE without saved bids; only the status of the row changes, and the jobs and keys that go depend on which it was |
| Operations.UpdateAllowedExactly | server/src/modules/auctions/auctions.service.ts:335-377 | an edit goes through if and only if its user owns the auction and that is PENDING or ACTIVE, and a new end time lies in the future, after the old one and, once ACTIVE, before any saved bid; otherwise nothing changes |
| Operations.UpdatedRowExactly | server/src/modules/auctions/auctions.service.ts:366-392 | title and description are replaced unless absent or empty, category and end time unless absent, and nothing else of the row |
| Operations.UpdateReachesRedisExactly | server/src/modules/auctions/auctions.service.ts:394-403 | the end job and every readable key follow a new end time of an ACTIVE auction up to its last whole second, an hour more but for the active key, and no other edit reaches them |
| Operations.ReconciledExactly | server/src/modules/auctions/auctions-start.processor.ts:65-102 | a boot changes an auction if and only if it is ACTIVE with its active key gone: it ends one with less than a second to go, and makes any other live again with the stored price and the top saved bidder |
| Expiry.KeysOkStep | server/src/shared/redis/redis.service.ts:296-378 | every step of a regular run keeps the deadlines in order: active in the last second before the end time, owner an hour later, price an hour later less 499 ms for each rollback, bidder no earlier than price; and each rollback that has read the remaining time will write in time, whatever else happens before it writes |
| Expiry.KeysOkAlways | server/src/shared/redis/redis.service.ts:296-378 | the order of deadlines holds in every reachable state of every regular run; what a late rollback leaves after an auction's cleanup takes no bids |
| Expiry.ActiveImpliesPresent | server/src/modules/bid/bid.service.ts:59-72 | while the active key lives the price and the right owner can be read |
| Expiry.NoBidAfterEnd | server/src/shared/redis/redis.service.ts:61-97 | in every regular run no step accepts a bid at or after the end time or before the start |
| Expiry.ReadableForAnHour | server/src/modules/auctions/auctions-end.processor.ts:48-55 | until an hour after the end time, less a second and 499 ms for each rollback, price and leading bidder can be read unless the keys have been removed |
| Expiry.ExtensionReachesRedis | server/src/modules/auctions/auctions.service.ts:395-403 | an accepted extension leaves the auction able to take bids exactly when its active key was still alive |
| Wear.FewRollbacksAreRegular | server/src/shared/redis/redis.service.ts:612-639 | runs without a failed start, late extension or straddled rollback and with at most 7214 rollbacks are regular |
| Wear.ManyRounds | server/src/shared/redis/redis.service.ts:612-639 | for every n, n bids in a row that are accepted, not saved and rolled back at unlucky instants take exactly 499 n ms off the price key and leave all else as it was |
| Wear.OneTooMany | server/src/shared/redis/redis.service.ts:612-639 | a run from the empty system with 7215 rollbacks reaches an auction that takes bids and has lost its price |
| Wear.PriceOutlivesActiveExactly | server/src/shared/redis/redis.service.ts:612-639 | the price key outlives the active key in all otherwise regular runs with at most n rollbacks if and only if n <= 7214; no extension and no loss of Redis falls between the round trips of a rollback there |
| Wear.StraddledExactly | server/src/shared/redis/redis.service.ts:614-634 | when an extension falls between the two round trips of a rollback, the price written outlives the active key if and only if the new end lies no later than the old price deadline plus the time between the round trips, rounded, or an hour after the write if under half a second was left |
| Wear.OneStraddledIsEnough | server/src/modules/auctions/auctions.service.ts:382-403 | a run from the empty system with a single rollback, straddled by an extension of two hours, reaches an auction that takes bids and has lost its price |
| Wear.StraddlingAllowsNoRollback | server/src/shared/redis/redis.service.ts:612-639 | where extensions may fall between the round trips, the price key outlives the active key in all runs with at most n rollbacks if and only if n = 0 |
| Agreement.ChainIncreases | server/src/shared/redis/redis.service.ts:61-97 | amounts in the log strictly increase |
| Agreement.AgreementStep | server/src/modules/bid/bid.service.ts:55-133 | every step of a faithful run keeps agreement: Redis shows the latest accepted bid, each call in flight holds the snapshot of what stood before its bid, each logged bid is in flight, saved, or failed once the auction was past |
| Agreement.AgreementAlways | server/src/modules/bid/bid.service.ts:55-133 | agreement holds in every state of every faithful run, whatever the interleaving and whichever saves fail |
| Agreement.RollBackRestores | server/src/shared/redis/redis.service.ts:612-639 | rolling back the latest accepted bid takes Redis to exactly what stood before it |
| RollbackOrder.HarmfulRollsBelow | server/src/shared/redis/redis.service.ts:612-639 | rolling back any other bid leaves the Redis price below the top accepted bid |
| RollbackOrder.AgreesExactlyWhenLastFirst | server/src/shared/redis/redis.service.ts:612-639 | Redis equals the latest accepted bid not rolled back in every state of a run if and only if the writes of all rollbacks come last-accepted-first, whatever falls between their round trips |
| RollbackOrder.LastFirstIsFaithful | server/src/shared/redis/redis.service.ts:612-639 | regular runs that keep Redis and roll back last-first are exactly covered by the agreement theorem |
| RollbackOrder.HarmIsReachable | server/src/modules/bid/bid.service.ts:97-102 | a regular run from the empty system reaches a rollback about to write that is not of the latest bid: two bids in flight, the first save failing |
| BidTable.TableOkStep | server/src/modules/bid/bid.service.ts:88-106 | every step keeps the bid table equal to the accepted bids whose calls succeeded, with no amount twice |
| BidTable.TableOkAlways | server/src/modules/bid/bid.service.ts:88-106 | agreement and the state of the bid table hold together in every faithful run |
| BidTable.TopIsLatestExactly | server/src/modules/bid/bid.service.ts:88-106 | the top row of the table is the latest accepted bid if and only if that bid has been saved |
| BidTable.TableMatchesRedisExactly | server/src/modules/bid/bid.service.ts:88-106 | while the price key lives, the top row is exactly the price and bidder in Redis if and only if the latest accepted bid has been saved |
| BidTable.QuiescentTopSaved | server/src/modules/bid/bid.service.ts:88-106 | with nothing in flight the latest accepted bid is saved if and only if its rollback was not skipped for want of a price key; it is skipped only when the auction has ended or is an hour past its end, less the losses of rounding |
| BidTable.QuiescentTopMatchesRedis | server/src/modules/bid/bid.service.ts:55-133 | once no call is between script and save or rollback that is the case, unless the rollback of the latest bid found no price key, which happens only after the auction is over |
| BidTable.TopBidIsTop | server/src/modules/bid/repositories/bid.repository.ts:40-66 | the first-ranked saved bid is one of the bids and no bid is higher |
| BidTable.SavingRunsAreFaithful | server/src/modules/bid/bid.service.ts:88-106 | regular runs that keep Redis and whose saves succeed are faithful |
| BidTable.BiddingSafety | server/src/modules/bid/bid.service.ts:55-133 | in every interleaving with successful saves accepted amounts strictly increase above the starting price, neighbours differ, none is the owner, saved rows are accepted bids, Redis agrees, and the top row equals Redis if and only if the latest bid is saved, as it is with nothing in flight |
| Staleness.TopRises | server/src/modules/bid/bid.service.ts:74-88 | without rollbacks the top accepted price never falls |
| Staleness.ReadsBehindAlways | server/src/modules/bid/bid.service.ts:59-88 | what any call has read, and the increment it computed, stay at or below what is due now |
| Staleness.AcceptedBidsClearTheirPrice | server/src/modules/bid/bid.service.ts:74-88 | in concurrent runs every accepted bid clears the price it meets by a positive increment no larger than the fresh one |
| WholeBid.PlaceIsARun | server/src/modules/bid/bid.service.ts:55-133 | an uninterrupted call has the effect of the state machine's steps in a row, for every outcome |
| WholeBid.PlacedExactly | server/src/modules/bid/bid.service.ts:55-133 | each of the eight outcomes of an uninterrupted call has its exact condition on amount, owner, active flag, leader and price |
| WholeBid.PlacedShowsExactly | server/src/modules/bid/bid.service.ts:55-133 | a bid that goes through is the last one saved and shows as price and leader; a refused one changes nothing |
| WholeBid.BidSucceedsExactly | server/src/modules/bid/bid.service.ts:55-133 | in every state of every regular run an uninterrupted bid succeeds if and only if the auction takes bids, the bidder neither owns nor leads it, and the amount is at least the price plus the increment, however much more |
| WholeBid.FailedBidUndone | server/src/modules/bid/bid.service.ts:97-102 | a bid whose save fails leaves all Redis answers and all saved bids as they were |
| WholeBid.LadderClimbs | server/src/modules/bid/bid.service.ts:55-133 | in one-at-a-time runs each accepted bid clears the fresh increment and adds exactly one row |
| WholeBid.SavedBidsCompound | server/src/modules/bid/bid.service.ts:74-106 | n saved bids multiply a positive price by (1 + percent/100)^n at least, which bounds n under the price cap |
| Auctioneer.BidsAreTheBook | server/src/modules/bid/bid.service.ts:55-133 | any bids one after another, at any instants and by anybody, are saved exactly as a plain auctioneer with one book and a clock would enter them |
| Auctioneer.WholeLife | server/src/modules/auctions/auctions-end.processor.ts:43-93 | created as requested, opened when due, bid on, and closed while the price can be read, an auction ends with that book as its bids, at the price and with the winner of its last entry, or at the starting price with none, and leaves no key and no job |
| Lifecycle.JobsOkAlways | server/src/modules/auctions/auction.scheduler.ts:98-136 | no end job is ever queued for an auction that is missing, PENDING or CANCELED |
| Lifecycle.TerminalRowsAreFinal | server/src/modules/auctions/auctions.service.ts:271-408 | an ENDED or CANCELED row never changes again |
| Lifecycle.EndTimeNeverDecreases | server/src/modules/auctions/auctions.service.ts:335-408 | the end time never moves earlier, owner and starting price never change |
| Lifecycle.SavedBidCommits | server/src/modules/auctions/auctions.service.ts:293-297 | once an ACTIVE auction has a saved bid its end time is fixed and it can only end |
| Lifecycle.OnlyTheOwnerEdits | server/src/modules/auctions/auctions.service.ts:271-408 | as long as its owner does nothing, no run cancels an auction or changes its end time or details, whatever others ask for |
| Lifecycle.NeverRunsBeforeItsStart | server/src/modules/auctions/auction.scheduler.ts:35-57 | no run makes an auction ACTIVE or ENDED before the instant its start job is due |
| Lifecycle.OpensWhenAsked | server/src/modules/auctions/auctions.service.ts:77-103 | whenever an auction is created, in any run, its start job is due at the start time asked for, or two seconds on, and no continuation makes it ACTIVE or ENDED before that |
| Lifecycle.NeverEndsEarly | server/src/modules/auctions/auction.scheduler.ts:98-120 | in every run at all, an auction that has ended did so in the last second before its end time or later, and no end job is due before it |
| Lifecycle.ClosedForGood | server/src/modules/auctions/auctions.service.ts:300-312 | a terminal auction whose active key is gone keeps its row for good, and without a bid to save its bids |
| Lifecycle.CanceledWithoutBids | server/src/modules/auctions/auctions.service.ts:283-312 | an auction its owner cancels without saved bids, ACTIVE or PENDING, stays without bids in every continuation if and only if no accepted bid was waiting to be saved and it was not PENDING with its active key alive; assumes that while that key lives the owner can be read |
| Lifecycle.CanceledInOrder | server/src/modules/auctions/auctions.service.ts:283-312 | in regular runs that is if and only if no accepted bid was waiting to be saved |
| Lifecycle.CanceledYetBidOn | server/src/modules/auctions/auctions.service.ts:304-312 | a run from the empty system: a start that finds the queue down, the owner cancels with nothing waiting to be saved, and a bid below the starting price is accepted and saved on the CANCELED auction |
| Lifecycle.CanceledAuctionsHaveNoBids | server/src/modules/auctions/auctions.service.ts:283-312 | in whole-operation runs CANCELED and PENDING auctions have no bids, no active and no owner key, and PENDING ones no key at all |
| Lifecycle.EndJobLostExactly | server/src/modules/auctions/auctions-start.processor.ts:160-183 | a step leaves an ACTIVE auction without its end job, due at its current end time, if and only if the start job dies between its commit and queueing it, the end job runs without finding a price, or the queue is lost |
| Lifecycle.EndJobAlwaysQueued | server/src/modules/auctions/auction.scheduler.ts:98-136 | so an ACTIVE auction has its one end job queued, due exactly at its current end time, until one of these happens |
| Lifecycle.ForgottenForGood | server/src/modules/auctions/auctions-end.processor.ts:50-53 | an ACTIVE auction without an end job stays so for good unless a server that boots finds its active key gone or its owner cancels or edits it |
| Lifecycle.BootRemembersExactly | server/src/modules/auctions/auctions-start.processor.ts:65-102 | a boot leaves such an auction exactly as it is if its active key lives; otherwise, and only then, it queues the end job and makes it live, or ends it when its time is over |
| Lifecycle.DiedBeforeRedis | server/src/modules/auctions/auctions-start.processor.ts:38-42 | a start job that dies right after its commit leaves an auction without keys and without end job, through every run, until a boot or its owner |
| Winner.EndJobNamesTheWinner | server/src/modules/auctions/auctions-end.processor.ts:43-102 | in every faithful run, an end job that fires, wherever it dies and however it is retried, ends the auction rightly and for good if and only if it gets as far as its commit, can still read the price, and the latest accepted bid has been saved; rightly means the largest of starting price and saved bids, its bidder or nobody as winner, never the owner |
| Winner.EndJobInTime | server/src/modules/auctions/auctions-end.processor.ts:43-102 | within an hour of the end time, less the losses of rounding, the saved latest bid alone decides; with nothing in flight it is saved |
| Winner.EndsRightlyExactly | server/src/modules/auctions/auctions-end.processor.ts:60-87 | a run of the end job that commits writes the latest accepted price and bidder, and that is right if and only if that bid has been saved |
| Winner.TornReadExactly | server/src/modules/auctions/auctions-end.processor.ts:48-55 | when a faithful run falls between the end job's reads of the price and of the winner, both successful, what it writes is right for good if and only if nothing was rolled back in between and the latest accepted bid has been saved |
| Winner.StaysRightAlways | server/src/modules/auctions/auctions-end.processor.ts:60-87 | no later step, the saving of lower bids in flight included, makes a rightly ended auction wrong |
| Winner.PricesPositiveAlways | server/src/modules/auctions/auctions.service.ts:86-99 | starting prices stay positive |
| EndRetry.WrittenOnce | server/src/modules/auctions/auctions-end.processor.ts:72-75 | once ENDED is committed no retry changes row or bids |
| EndRetry.AfterTheCommit | server/src/modules/auctions/auctions-end.processor.ts:72-93 | after a commit every sequence of crashes and retries that completes only removes the keys and the job |
| EndRetry.RetriesEqualOneRun | server/src/modules/auctions/auctions-end.processor.ts:48-93 | for all crash points and any number of retries the outcome equals one crash-free run at the first commit |
| EndRetry.CleanedExactlyWhenReadable | server/src/modules/auctions/auctions-end.processor.ts:48-53 | the completed job leaves no keys if and only if the price could still be read then or there were none |
| StartRetry.InitializeTwice | server/src/shared/redis/redis.service.ts:296-324 | initializing again changes no value and no expiry if and only if the active key lives |
| StartRetry.InitializeLate | server/src/shared/redis/redis.service.ts:296-324 | an attempt after the active key has run out, to an end time moved on since, leaves a price key that outlives the new active key if and only if the old price was gone or was going to last that long |
| StartRetry.StaysInOrder | server/src/modules/auctions/auctions-start.processor.ts:181-201 | between a failed start and its last retry any bidding, any edits of the PENDING auction and any number of further failing attempts keep the deadlines in order, as long as the first active key lives |
| StartRetry.RetryKeepsEveryBid | server/src/modules/auctions/auctions-start.processor.ts:160-201 | after any number of failing attempts with bids and edits in between, the start job run again in time keeps every key, accepted and saved bid, and ends ACTIVE with its end job due at the end time; the deadlines are in order with that end time if and only if it was not moved by a whole second or more |
| StartRetry.CanceledAfterAttempts | server/src/modules/auctions/auctions.service.ts:304-312 | an owner's cancellation after failed attempts leaves an auction that stays without bids if and only if none waits to be saved and the end time of the first attempt has passed |
| Restore.RowUntouchedAlways | server/src/modules/bid/bid.service.ts:88-106 | bids never change the row: the stored price is the starting price until the end |
| Restore.RestoresAllButThePrice | server/src/modules/auctions/auctions-start.processor.ts:75-97 | reconciliation restores active flag, owner and the top saved bidder, who is the leading one if the latest bid was saved, and all of the live state if and only if that bidder and the stored price are what Redis held |
| Restore.RestoresLiveStateExactlyWithoutBids | server/src/modules/auctions/auctions-start.processor.ts:75-97 | in faithful runs that means if and only if no bid was accepted, or, with nothing in flight, none saved |
| Restore.LateBootEndsBlindly | server/src/modules/auctions/auctions-start.processor.ts:83-90 | after any run at all, a boot at or after the end time that finds the active key gone ends the auction without winner, rightly if and only if it has no bids, for good |
| Restore.LostInMidRollback | server/src/shared/redis/redis.service.ts:614-634 | when Redis loses its keys between the round trips of a rollback and the server then reconciles, the bidder shown is the top saved one if and only if there is one, the write restored none, or what it restored has expired |
| Ranking.CountAhead | server/src/modules/bid/repositories/bid.repository.ts:40-66 | a row ranks first if and only if no row of its auction stands ahead of it by amount, then id |
| Ranking.RankOne | server/src/modules/bid/repositories/bid.repository.ts:40-66 | the inner query keeps exactly the first-ranked rows of the given auctions |
| Ranking.OneLeadingRowEach | server/src/modules/bid/repositories/bid.repository.ts:40-66 | the query answers with exactly one row for each given auction with bids, in auction order |
| Ranking.LeadingRowLeads | server/src/modules/bid/repositories/bid.repository.ts:40-66 | a pass down the table finds the row no other stands ahead of |
| Ranking.LeadingRowIsTopBid | server/src/modules/bid/repositories/bid.repository.ts:40-66 | that row holds the first-ranked bid of the auction |
| Ranking.LookupFindsTopBidder | server/src/modules/auctions/auctions-start.processor.ts:76-93 | the lookup table built from the query answers the top bidder, or nobody |
| Scan.PageShifts | server/src/modules/auctions/auctions-start.processor.ts:56-63 | a page that ends r rows makes the next page of the filtered list begin r rows too far in what was listed |
| Scan.AfterShrinksExactly | server/src/modules/auctions/auctions-start.processor.ts:85-90 | the list shrinks if and only if the page holds a row that its batch ends |
| Scan.BatchesAscend | server/src/modules/auctions/auctions-start.processor.ts:56-63 | what a scan reads comes in id order, each row once, from ahead of it |
| Scan.MissedAtMostLost | server/src/modules/auctions/auctions-start.processor.ts:55-111 | at most as many rows are missed as are ended on the way |
| Scan.CompleteExactly | server/src/modules/auctions/auctions-start.processor.ts:55-111 | the scan reads every row if and only if no row outside the last page is ended when its batch is read |
| Scan.LastOneMissed | server/src/modules/auctions/auctions-start.processor.ts:55-111 | of 101 rows the first of which is ended, the first hundred are read and the last is missed |
| Bootstrap.ReconciledIsLiveOrEnded | server/src/modules/auctions/auctions-start.processor.ts:83-102 | a reconciled running auction is ENDED if it was orphaned and past its end, and otherwise running with a live active key |
| Bootstrap.AuctionStartProcessor.Process | server/src/modules/auctions/auctions-start.processor.ts:132-204 | one start job activates the auction and invalidates the cached lists, ends an overdue one, puts the row back when the end job cannot be queued, or dies at any point of its setup, and touches no other auction |
| Bootstrap.AuctionStartProcessor.BidderMap | server/src/modules/auctions/auctions-start.processor.ts:79 | the map answers for every auction the user of its row in the query result |
| Bootstrap.AuctionStartProcessor.ReconcileOne | server/src/modules/auctions/auctions-start.processor.ts:83-102 | one orphan is restored or ended, nothing else changes |
| Bootstrap.AuctionStartProcessor.ReconcileOrphans | server/src/modules/auctions/auctions-start.processor.ts:81-106 | all orphans of a batch are reconciled, nothing else changes |
| Bootstrap.AuctionStartProcessor.ReconcileBatch | server/src/modules/auctions/auctions-start.processor.ts:70-107 | every auction of a batch is reconciled with its true top bidder |
| Bootstrap.AuctionStartProcessor.NextBatch | server/src/modules/auctions/auctions-start.processor.ts:56-107 | the batch is one page of the ACTIVE rows, its auctions are reconciled, and out of the list drop exactly its overdue rows |
| Bootstrap.AuctionStartProcessor.ScanBatch | server/src/modules/auctions/auctions-start.processor.ts:55-111 | one more batch keeps the scan on course, and each auction scanned is reconciled at the instant of its batch |
| Bootstrap.AuctionStartProcessor.ScanAll | server/src/modules/auctions/auctions-start.processor.ts:55-111 | the loop terminates having read what the scan reads from the start |
| Bootstrap.ScanOver | server/src/modules/auctions/auctions-start.processor.ts:55-111 | nothing is missed if and only if no row with rows beyond its page was overdue when its batch was read |
| Bootstrap.LastOfAHundredAndOneMissed | server/src/modules/auctions/auctions-start.processor.ts:55-111 | with 101 running auctions, the first of them overdue, the last is not looked at |
| Bootstrap.AuctionStartProcessor.BroughtBack | server/src/modules/auctions/auctions-start.processor.ts:91-102 | when none is overdue every scanned auction runs with a live active key |
| Bootstrap.AuctionStartProcessor.OnApplicationBootstrap | server/src/modules/auctions/auctions-start.processor.ts:48-117 | the batches are ACTIVE rows in id order, each once and reconciled; at most as many are missed as were ended, none if and only if no row outside the last page was overdue at its batch; if none is overdue at all every ACTIVE auction is live again |
| Server.RedisService.AreAuctionsActive | server/src/shared/redis/redis.service.ts:245-267 | exactly the given auctions whose active key lives |
| Server.RedisService.InitializeAuction | server/src/shared/redis/redis.service.ts:296-324 | the three keys set unless present, of this auction only |
| Server.RedisService.ExtendAuctionTime | server/src/shared/redis/redis.service.ts:326-342 | all four deadlines moved, of this auction only |
| Server.RedisService.RestoreAuction | server/src/shared/redis/redis.service.ts:360-378 | all keys rewritten, the bidder only when there is one |
| Server.RedisService.CleanupAuction | server/src/shared/redis/redis.service.ts:408-421 | no key and no participants hash of the auction is left, every other auction keeps its own |
| Server.RedisService.DeletePrice | server/src/modules/auctions/auctions.service.ts:519-521 | only the price key of this auction goes |
| Server.RedisService.PlaceBidAtomicWithSnapshot | server/src/shared/redis/redis.service.ts:61-97 | the script's step-by-step reads and writes give the keys and the reply of the atomic bid |
| Server.RedisService.RollbackBid | server/src/shared/redis/redis.service.ts:612-639 | reading the remaining time and then writing gives the keys of a rollback nothing interrupts, skipped without a price key |
| Server.RedisService.WriteBack | server/src/shared/redis/redis.service.ts:621-634 | the pipeline gives the keys that the state machine's write of a rollback gives, on this auction only |
| Server.AuctionScheduler.ScheduleAuctionStart | server/src/modules/auctions/auction.scheduler.ts:35-57 | the start job is queued once, two seconds ahead for past instants |
| Server.AuctionScheduler.CancelAuctionStart | server/src/modules/auctions/auction.scheduler.ts:66-73 | no start job is left for this auction |
| Server.AuctionScheduler.ScheduleAuctionEnd | server/src/modules/auctions/auction.scheduler.ts:98-120 | the end job is queued once, two seconds ahead for past instants |
| Server.AuctionScheduler.CancelAuctionEnd | server/src/modules/auctions/auction.scheduler.ts:129-136 | no end job is left for this auction |
| Server.BidService.PlaceBid | server/src/modules/bid/bid.service.ts:55-133 | reads, decision, script, save and rollback on the stores do to this auction exactly what the whole bid does, with the same outcome, and nothing to any other |
| Server.AuctionsService.CreateAuction | server/src/modules/auctions/auctions.service.ts:65-115 | a fresh PENDING auction with its start job, or no trace when the queue is down |
| Server.AuctionsService.CancelAuction | server/src/modules/auctions/auctions.service.ts:271-315 | checks, row, job, keys, participants and cached lists change as the whole cancellation says, for every refusal too |
| Server.AuctionsService.UpdateAuction | server/src/modules/auctions/auctions.service.ts:335-408 | checks, row, end job, deadlines and cached lists change as the whole update says, for every refusal too |
| Server.AuctionEndProcessor.Process | server/src/modules/auctions/auctions-end.processor.ts:43-102 | one run of the end job, dying where told, has the effect the retry theorems reason about, and invalidates the cached lists if and only if it reads a price and comes to its end |
| Text.DecimalRoundTrip | server/src/modules/auctions/auctions.service.ts:168 | a printed number reads back as itself |
| Text.DecimalWithoutLeadingZero | server/src/modules/auctions/auctions.service.ts:168 | and has no zero in front |
| Numbers.PrintRoundTrip | server/src/modules/auctions/auctions.service.ts:181-182 | a price filter reads back from what JavaScript prints for it, in plain, fractional and exponential form |
| Numbers.PrintWithoutColon | server/src/modules/auctions/auctions.service.ts:181-182 | a printed number holds no colon |
| Numbers.PrintedFormExactly | server/src/modules/auctions/auctions.service.ts:181-182 | a number is printed with an exponent if and only if its point stands more than 21 digits to the right or six or more zeros to the left, and with a point if and only if it has digits on both sides |
| Text.EncodeRoundTrip | server/src/modules/auctions/auctions.service.ts:179 | a percent-encoded text decodes to itself, over all Unicode scalar values |
| Text.EncodeAppend | server/src/modules/auctions/auctions.service.ts:179 | a text is encoded character by character |
| Text.EncodedExactly | server/src/modules/auctions/auctions.service.ts:179 | letters, digits and -_.!~*'() stand for themselves; every other character becomes one escape in upper-case hexadecimal for each of its 1 to 4 bytes |
| Text.EncodedWithoutColon | server/src/modules/auctions/auctions.service.ts:179 | an encoded text holds no colon, so it cannot break the key apart |
| Text.SplitJoin | server/src/modules/auctions/auctions.service.ts:186 | fields without colons are recovered from the joined key |
| Text.UntagTagged | server/src/modules/auctions/auctions.service.ts:179-184 | optional tagged fields in a fixed order are recovered, present and absent ones |
| CacheKey.ParseKeyOf | server/src/modules/auctions/auctions.service.ts:167-187 | a parser recovers page, limit and every normalised filter from the key |
| CacheKey.SameKeyExactly | server/src/modules/auctions/repositories/auctions.repository.ts:13-32 | two queries share a key if and only if they have the same page and limit, ask the same database query and agree on whether the search is all white space |
| CacheKey.BlankSearchIsCachedApart | server/src/modules/auctions/auctions.service.ts:179 | a search for white space asks for the same rows as no search under another key |
| CacheKey.TrimmedAway | server/src/modules/auctions/repositories/auctions.repository.ts:21 | trimming leaves nothing if and only if every character is white space |
| CacheKey.TrimExactly | server/src/modules/auctions/repositories/auctions.repository.ts:21 | trimming takes off only white space, and all of it at both ends |
| CacheKey.AskedExactly | server/src/modules/auctions/repositories/auctions.repository.ts:16-33 | the database is asked for exactly the page, trimmed search, category, lower and upper price and order given, zero prices and blank searches aside, by creation and latest first by default |
| CacheKey.KeySpelledOut | server/src/modules/auctions/auctions.service.ts:167-187 | the key is page and limit, then each filter given under its own tag and in a fixed order |
| CacheKey.ListKeysMatch | server/src/modules/auctions/auctions.service.ts:512-514 | the invalidation pattern covers every list key |
| CacheKey.AuctionKeysDoNotMatch | server/src/shared/redis/redis.service.ts:29-36 | the pattern covers no key of a live auction |
| CacheKey.BuildAuctionsCacheKey | server/src/modules/auctions/auctions.service.ts:167-187 | pushing the parts one by one builds the key the parser reads |
| ListCache.ChangesUnnoticedExactly | server/src/modules/auctions/auctions.service.ts:271-408 | of all steps that do not invalidate, exactly an overdue reconciliation and a start or end job dying after its commit change the ACTIVE rows, by adding or taking away the auction's |
| ListCache.CoherentStep | server/src/modules/auctions/auctions.service.ts:130-159 | every other step keeps all cached lists equal to what the database would answer |
| ListCache.CoherentAlways | server/src/modules/auctions/auctions.service.ts:130-159 | so does every run of such steps over any number of auctions, bids included |
| ListCache.ListsAreFresh | server/src/modules/auctions/auctions.service.ts:130-159 | every list returned, cached or not, is the answer on the current rows, whatever function of query and ACTIVE rows the database computes, with the page and limit asked for |
| ListCache.ActiveRowsExactly | server/src/modules/auctions/repositories/auctions.repository.ts:19 | the rows a list is computed from are those of the ACTIVE auctions |
| ListCache.InvalidatedExactly | server/src/shared/redis/redis.service.ts:180-201 | invalidation removes the keys beginning with auctions:active: and no other |
| ListCache.InvalidatesExactly | server/src/modules/auctions/auctions.service.ts:311-406 | an operation invalidates if and only if it is a start that makes its auction ACTIVE and completes, an end that reads a price and completes, or an owner's cancellation or edit that goes through |
| ListCache.CachedForThirtySeconds | server/src/modules/auctions/auctions.service.ts:130-159 | a list computed from the database is given again for thirty seconds, through every run that does not invalidate it, and not after that |
| ListCache.UncoveredLeavesStale | server/src/modules/auctions/auctions-end.processor.ts:85-88 | each of these exceptions leaves a cached unfiltered list stale |
| ListCache.Store.InvalidateCache | server/src/shared/redis/redis.service.ts:180-201 | the cursor loop deletes exactly the matching keys |
| ListCache.FindActiveAuctions | server/src/modules/auctions/auctions.service.ts:130-159 | the cached response while it lives, otherwise a fresh one that is stored |
| ListCache.CacheAside | server/src/shared/redis/redis.service.ts:137-160 | what is cached under a key while it is alive, otherwise a fresh answer that is stored |
| Images.IndexOf | server/src/modules/auctions/auctions.service.ts:466 | the first position of the URL |
| Images.OnePrimaryExactly | server/src/modules/auctions/auctions.service.ts:456-485 | an edit leaves exactly one primary image if and only if the chosen URL occurs once in the final set, and then that one |
| Images.DuplicatesLoseThePrimary | server/src/modules/auctions/auctions.service.ts:456-472 | an auction opened with one URL twice is left without a primary image by its owner's edit that keeps both and picks the second |
| Images.DuplicatesAreValid | server/src/modules/auctions/dto/create-auction.dto.ts:63-76 | request validation, the form of the URLs included, lets an auction with one URL twice through |
| Images.KeptAndDroppedPartition | server/src/modules/auctions/auctions.service.ts:445-446 | kept and deleted images partition the old set by whether their URL was listed |
| Images.KeptInOrder | server/src/modules/auctions/auctions.service.ts:445-446 | both in the order they were in |
| Images.AcceptedUrlExactly | server/src/modules/auctions/dto/create-auction.dto.ts:73 | a URL is accepted if and only if it is four digits, two digits, a path of the allowed characters and .jpg, .jpeg or .png in any case |
| Images.CreatedListingExactly | server/src/modules/auctions/auctions.service.ts:65-115 | an auction is opened if and only if it has 1 to 10 images under accepted URLs, its index is among them, its price and end are acceptable and the queue is up; everything sent is found in its row, its images and its start job |
| Images.EditAllowedExactly | server/src/modules/auctions/auctions.service.ts:422-459 | an edit goes through if and only if its user owns the auction, that is PENDING or ACTIVE without bids, it keeps only images that are there, ends up with 1 to 10, has its index in range, and commits; one that may not be made leaves the gallery and its files as they were |
| Images.OthersChangeNothing | server/src/modules/auctions/auctions.service.ts:426-432 | no sequence of edits by others, or of an auction that is over or bid on, changes images, files or auction |
| Images.EditedExactly | server/src/modules/auctions/auctions.service.ts:454-485 | an edit leaves the kept images with their ids, then the uploads with new ones, and marks the image at the index and those under its URL, or none if an earlier one has it |
| Images.EditedAuctionExactly | server/src/modules/auctions/auctions.service.ts:486-487 | and the auction with that image as its main image, otherwise unchanged |
| Images.EditedFilesExactly | server/src/modules/auctions/auctions.service.ts:500-504 | and the files without those of the dropped images that can be deleted |
| Images.CreatedGalleryOk | server/src/modules/auctions/auctions.service.ts:65-115 | opening an auction sets exactly the one primary image asked for, the first by default, and shows it; the images are in order if and only if their URLs are distinct; a refused request, such as one with its index out of range, leaves nothing behind |
| Images.EditKeepsGalleryOk | server/src/modules/auctions/auctions.service.ts:422-507 | every edit, whatever its outcome, keeps that |
| Images.GalleryOkAlways | server/src/modules/auctions/auctions.service.ts:422-507 | so does every sequence of edits with fresh uploads |
| Images.ListedGalleryOk | server/src/modules/auctions/auctions.service.ts:65-507 | from opening with distinct URLs on, through every sequence of edits, there are 1 to 10 images, one primary, shown as main image |
| Images.FailedEditUndone | server/src/modules/auctions/auctions.service.ts:454-498 | a failed edit changes no row, and leaves no file behind if and only if it was refused before the upload, uploads nothing, or has its index in range and its files can be removed |
| Images.EditKeepsFilesMatching | server/src/modules/auctions/auctions.service.ts:454-504 | a successful edit leaves exactly the files the images refer to |
| Images.ImageService.MarkKept | server/src/modules/auctions/auctions.service.ts:465-472 | each kept row ends with the right flag, and is otherwise unchanged |
| Images.ImageService.SaveImages | server/src/modules/auctions/auctions.service.ts:461-487 | deleting by id, correcting flags and adding rows gives the marked set |
| Images.ImageService.CreateAuction | server/src/modules/auctions/auctions.service.ts:65-115 | opening an auction has the effect the theorems reason about, refusals included |
| Images.ImageService.UpdateAuctionImages | server/src/modules/auctions/auctions.service.ts:422-507 | the operation with all its refusals and failures has the effect the theorems reason about, and invalidates the cached lists if and only if it succeeds |
| Presence.InStepNext | server/src/modules/bid/bid.gateway.ts:53-255 | every event of a well-behaved client keeps sockets, hashes, mapping keys and rooms telling one story |
| Presence.InStepAlways | server/src/modules/bid/bid.gateway.ts:53-255 | so does every run of them |
| Presence.OneSeatEach | server/src/modules/bid/bid.gateway.ts:103-150 | a seat belongs to a connected socket of that user whose own and Redis auction ids agree with it, and no socket has two seats |
| Presence.BidsReachTheWatchedAuction | server/src/modules/bid/bid.gateway.ts:263-291 | a bid passes the room checks if and only if the socket's key is still there, and then goes to the watched auction |
| Presence.RejoinKeepsOneSeatExactly | server/src/modules/bid/bid.gateway.ts:210-233 | rejoining keeps one seat if and only if it names the current auction |
| Presence.DisconnectFreesExactly | server/src/modules/bid/bid.gateway.ts:53-77 | disconnecting frees the seat if and only if the socket still knows its user |
| Presence.ExpiredTokenLeavesTheSeat | server/src/modules/bid/bid.gateway.ts:274-280 | a bid with a token that no longer holds leaves the seat with no socket |
| Presence.LateUsersMissTheirRoom | server/src/modules/bid/bid.gateway.ts:34-46 | in well-behaved runs a socket with a user is in that user's personal room, in which it would be told of winning, if and only if it connected as a user |
| Presence.AnnouncedNext | server/src/modules/bid/bid.gateway.ts:85-96 | every event but a cleanup keeps the announced counts current |
| Presence.AnnouncedAlways | server/src/modules/bid/bid.gateway.ts:85-96 | until a cleanup the last announced count is the number of distinct users, for any behaviour of clients |
| Presence.UsersAtMostSockets | server/src/shared/redis/redis.service.ts:461-486 | distinct users are at most the sockets, and as many if and only if no user has two there |
| Presence.ConnectedExactly | server/src/modules/bid/bid.gateway.ts:34-51 | a new socket has its token's user, is in that user's personal room and watches nothing; no other socket is touched |
| Presence.JoinedExactly | server/src/modules/bid/bid.gateway.ts:103-158 | a socket that joins an active auction, a guest's included, watches it from its room, with a seat and a key if it has a user, and is gone from the room and seat it had; no other socket is touched |
| Presence.RejoinedExactly | server/src/modules/bid/bid.gateway.ts:210-255 | one that rejoins watches it as the user its token identifies now |
| Presence.LeftExactly | server/src/modules/bid/bid.gateway.ts:165-196 | one that leaves watches nothing, and a user's seat and key are gone |
| Presence.DisconnectedExactly | server/src/modules/bid/bid.gateway.ts:53-77 | one that disconnects is gone, with its seat and key if it has a user and an auction |
| Presence.AnnouncesExactly | server/src/modules/bid/bid.gateway.ts:85-96 | leaving, rejoining and disconnecting announce the count to that room, once, for users and not for guests |
| Presence.JoinAnnounces | server/src/modules/bid/bid.gateway.ts:115-150 | joining announces the counts of the room left for it, and for users of the room joined, in that order |
| Presence.RevalidatedExactly | server/src/modules/bid/bid.gateway.ts:263-280 | before a bid a token that holds makes its user the socket's, and one that does not disconnects a user and leaves a guest alone |
| Presence.LetThroughExactly | server/src/modules/bid/bid.gateway.ts:282-291 | a bid is let through to an auction if and only if the socket watches it and Redis says the same for the token's user |
| Presence.JoinedUsersCanBid | server/src/modules/bid/bid.gateway.ts:103-291 | a user who joins or rejoins an active auction gets bids through to it until that socket moves or its key expires, whatever all others do meanwhile |
| Presence.CleanedUpExactly | server/src/shared/redis/redis.service.ts:408-421 | a cleanup empties the room of its auction and no other |
| Presence.AskedMatchesAnnouncedExactly | server/src/modules/bid/bid.service.ts:144-170 | until a cleanup the count told to a socket that asks for the current state is at least the one last announced to its room, and equal if and only if no user has two sockets there |
| Gateway.RoomStore.GetUniqueParticipantsCount | server/src/shared/redis/redis.service.ts:478-486 | counts each user of the hash once |
| Gateway.BidGateway.EmitPresenceUpdate | server/src/modules/bid/bid.gateway.ts:85-96 | announces the number of distinct users |
| Gateway.BidGateway.OnClientConnect | server/src/modules/bid/bid.gateway.ts:34-51 | a new socket has its token's user, is in that user's personal room and watches nothing |
| Gateway.BidGateway.OnClientDisconnect | server/src/modules/bid/bid.gateway.ts:53-77 | the handler has the effect of the disconnect event |
| Gateway.BidGateway.LeavePrevious | server/src/modules/bid/bid.gateway.ts:115-125 | moving out of the previous room, with its announcement |
| Gateway.BidGateway.Enter | server/src/modules/bid/bid.gateway.ts:127-150 | moving in, on the hash and the key when there is a user |
| Gateway.BidGateway.HandleJoinAuction | server/src/modules/bid/bid.gateway.ts:103-158 | the handler has the effect of the join event, none for an inactive auction |
| Gateway.BidGateway.HandleLeaveAuction | server/src/modules/bid/bid.gateway.ts:165-196 | the handler has the effect of the leave event |
| Gateway.BidGateway.HandleRejoinAuction | server/src/modules/bid/bid.gateway.ts:210-255 | the handler has the effect of the rejoin event, none for an inactive auction |
| Gateway.BidGateway.HandleRequestCurrentState | server/src/modules/bid/bid.gateway.ts:326-349 | the count in the answer is the one the theorem reasons about, none outside a room |
| Gateway.BidGateway.AuthorizeBid | server/src/modules/bid/bid.gateway.ts:271-291 | token and room checks give exactly the target the theorems reason about |
| RateLimiter.Limiter.OnPacket | server/src/core/gateways/base.gateway.ts:49-73 | the filter loop prunes the log and lets the packet pass below the limit |
| RateLimiter.PrunedLogSuffices | server/src/core/gateways/base.gateway.ts:53-70 | the pruned log never exceeds the limit and agrees with the full history on every later window |
| RateLimiter.DecidedByHistory | server/src/core/gateways/base.gateway.ts:56-67 | a packet is refused if and only if exactly the limit passed in the window before it |
| RateLimiter.NeverMoreThanTheLimit | server/src/core/gateways/base.gateway.ts:46-74 | for every instant at most the limit passes in the window ending there |
| RefreshQueue.OneRefreshAlways | client/src/app/core/interceptors/refresh.interceptor.ts:25-37 | requests wait only during a refresh, and no refresh starts before the previous one was resolved or rejected |
| RefreshQueue.AccountedNext | client/src/app/core/interceptors/refresh.interceptor.ts:21-56 | every event keeps each request in exactly one place |
| RefreshQueue.EachRequestOnce | client/src/app/core/interceptors/refresh.interceptor.ts:21-56 | at any time each request that met a 401 waits, refreshes, was settled exactly once or was unsubscribed |
| RefreshQueue.FollowsAlways | client/src/app/core/services/token.service.ts:48-61 | a waiting request waits until the next signal, is settled as that signal says, and stays settled |
| RefreshQueue.QueuedRequestFollowsTheNextSignal | client/src/app/core/interceptors/refresh.interceptor.ts:25-33 | a 401 during a refresh is retried with the token of the next resolve, or fails with its own error on a reject or an empty token |
| RefreshQueue.Met401Exactly | client/src/app/core/interceptors/refresh.interceptor.ts:22-37 | a request that meets a 401 waits if and only if a refresh is in progress, and otherwise leads one, or fails with its own error when nobody is logged in |
| RefreshQueue.LeaderSettled | client/src/app/core/interceptors/refresh.interceptor.ts:37-54 | in every run a request that leads a refresh leads until that ends, and is then settled once and for good: repeated with the new token, which is the access token then, or failed with the error of the refresh, which logs the user out; whoever waits then is repeated with that token or fails with its own error |
| RefreshQueue.TokenFollows | client/src/app/core/services/token.service.ts:27-61 | the last login, refresh or logout decides the token, and every failing refresh, retry or guard logs out |
| RefreshQueue.GuardFailureEndsTheWait | client/src/app/core/guards/auth.guard.ts:31-37 | a failing route guard fails everybody waiting with their own error, leaves the leader leading, and logs out |
| RefreshQueue.GoneExactly | client/src/app/core/interceptors/refresh.interceptor.ts:24-33 | a request that is unsubscribed is nowhere any more, unsettled, and no other is touched |
| RefreshQueue.FailedRetryFailsLaterWaiters | client/src/app/core/interceptors/refresh.interceptor.ts:38-54 | a leader's failing retry rejects the waiters of a later refresh and logs the user out |
| RefreshQueue.WaitersSafeExactly | client/src/app/core/interceptors/refresh.interceptor.ts:38-54 | a waiting request is settled by nothing but the end of a refresh in flight, a failing guard or its own going away if and only if no earlier leader is still retrying |
| RefreshQueue.RetryMeetsLaterRefresh | client/src/app/core/interceptors/refresh.interceptor.ts:38-54 | five events from the start lead to a retrying leader and a request waiting for a later refresh, which that retry then fails |
| RefreshQueue.LeaderlessExactly | client/src/app/core/interceptors/refresh.interceptor.ts:37-38 | a step leaves a refresh with nobody to end it if and only if it unsubscribes its only leader |
| RefreshQueue.SomebodyAlwaysRefreshes | client/src/app/core/interceptors/refresh.interceptor.ts:35-54 | until then a refresh in progress has a request in flight that will end it |
| RefreshQueue.CanceledLeaderLeavesAllWaiting | client/src/app/core/interceptors/refresh.interceptor.ts:37-38 | after the only leader is unsubscribed nothing but a failing route guard ends the wait |
| RefreshQueue.TokenService.ResolveRefresh | client/src/app/core/services/token.service.ts:48-52 | the refresh is over, the token stored, and all subscribers are told |
| RefreshQueue.TokenService.RejectRefresh | client/src/app/core/services/token.service.ts:58-61 | the refresh is over and all subscribers are told that there is no token |
| RefreshQueue.TokenService.WaitForToken | client/src/app/core/services/token.service.ts:74-78 | subscribes during a refresh, answers at once otherwise |
| RefreshQueue.RefreshInterceptor.Tell | client/src/app/core/interceptors/refresh.interceptor.ts:26-32 | every subscriber in order is settled once, with the token or its own error |
| RefreshQueue.RefreshInterceptor.OnUnauthorized | client/src/app/core/interceptors/refresh.interceptor.ts:22-38 | a 401 waits, fails or leads as the machine's step says |
| RefreshQueue.RefreshInterceptor.OnRefreshSucceeded | client/src/app/core/interceptors/refresh.interceptor.ts:39-48 | the success handler has the effect of the machine's step |
| RefreshQueue.RefreshInterceptor.GiveUp | client/src/app/core/interceptors/refresh.interceptor.ts:49-53 | all waiters fail and the user is logged out |
| RefreshQueue.RefreshInterceptor.OnRefreshFailed | client/src/app/core/interceptors/refresh.interceptor.ts:49-53 | the failure handler has the effect of the machine's step |
| RefreshQueue.RefreshInterceptor.OnRetryFailed | client/src/app/core/interceptors/refresh.interceptor.ts:44-53 | the same handler, reached by the leader's own retry |

## Left out

- Redis, MySQL and the queue are assumed to keep their contracts: the bid script and MULTI are atomic, row locks serialise transactions, adding a job whose id is queued does nothing, SCAN reaches every key that stays. Pipelines count as one step.
- Server.AuctionsService.CreateAuction: takes the main image as given; the image rows, the default of the primary index and its refusal are in `Images.ImageService.CreateAuction`.
- Server.AuctionEndProcessor.Process: the room and winner notifications and the emails after it are left out.
- Single Redis commands that fail: most are swallowed by `handleError`; only the queue being down at start (`StartJob(QueueDown)`), the loss of all keys, failed bid inserts and failed image transactions are modelled. A failing rollback write and a failing presence write are not.
- The row update that puts a failed start back to PENDING is taken to succeed, as is the restoring of each orphan.
- Retry limits and backoff of the queues: a failed job may be retried any number of times at any later instant.
- Operations other than `placeBid` are single steps of the state machine, apart from the points at which the start and end jobs die and the two reads of the end job (`TornReadExactly`).
- Expiry.KeysOkAlways: does not cover a start whose end job cannot be queued (see `StartRetry.RetryKeepsEveryBid`), an extension after the active key is gone (`ExtensionReachesRedis`), an extension or a loss of Redis between the round trips of a rollback (`Wear.StraddledExactly`, `Restore.LostInMidRollback`), nor more than 7214 rollbacks (`Wear.OneTooMany`), because with each of these the deadlines are no longer in this order.
- Lifecycle.CanceledWithoutBids: assumes that the owner key can be read while the active key lives, as it can in regular runs and between attempts to start; a start retried past the old end time can leave an owner key that goes first (compare `StartRetry.InitializeLate`).
- ListCache.ListsAreFresh: whole operations only, so not a list computed while another operation is between its commit and its invalidation; edits of owners' profiles are not modelled.
- CacheKey.ParseKeyOf: search texts are sequences of Unicode scalar values; on a lone surrogate `encodeURIComponent` throws.
- Increment.IncrementMonotone: exact real arithmetic; floating-point rounding is not modelled. Percentages are not negative and the absolute floor is positive, as configured.
- Presence.OneSeatEach: covers clients that leave the room they are in, rejoin it or come in first, and whose token keeps its user; `RejoinKeepsOneSeatExactly` and `DisconnectFreesExactly` say what happens otherwise.
- Presence.AnnouncedAlways: a cleanup removes a hash without announcing it.
- RefreshQueue.EachRequestOnce: requests are retried through the handler after the interceptor, so a second 401 of the same request does not come back to it.
- Image uploads that fail, and the naming of files on disk.
- Emails, socket emissions other than presence counts, translations, logging, HTTP controllers, request validation beyond the bounds on prices and dates.
- `findOne`, `findMyAuctions`, `findAuctionBids`, `findMyBids`, `getCurrentState` and the prices quoted in bid refusals: reads that would only add easy members.
- Authentication, password hashing, token tables, OAuth and the Angular user interface.
