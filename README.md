# Basic market negotiation engine, modelled in Dafny

This project models the negotiation-and-settlement engine of the `market`
package. Sellers queue priced offers of one good with a basic market. The
market proposes a price for the cheapest pending offer, and a proposal can
be transacted, which records the purchase. The model covers two source files:

- `market.go` (module `Market`, file `market.dfy`): the `SellerAccount`
  class with its balance, the `Good`, `SellerOffer` and `MarketCounter`
  records, the `ByOfferPrice` sort interface (`Len`, `Less`, `Swap`) and
  `Transfer`.
- `market_basic.go` (module `MarketBasic`, file `market_basic.dfy`): the
  `BasicMarket` class with its constructor, `AddOffer`, `ConsiderOffers`
  and `TransactOffer`. Its object invariant `Valid()` says four things.
  Every pending or proposed offer holds exactly one good, of the market's
  kind. A proposal stands only while the demand is unmet, and its counter
  price is at most the offer's ask, the ceiling and the market's balance.
  At every price, the pending offers are the most recently accepted ones,
  in the order they were accepted (`PendingInOrder`, over a ghost history
  `added` of the offers `AddOffer` accepted). The market never holds more
  goods than max(demand, 0), and all of them are of its kind.

The stable sort that `ConsiderOffers` runs is Go's `sort.Stable` over
`ByOfferPrice`. Module `SortStable` (file `sort_stable.dfy`) models it. The
method `InsertionSort` sorts an array in place with `Less` and `Swap`, and
it is proved equal to the function `StableSort`. Lemmas then prove what
`StableSort` promises:

- the result is in non-decreasing price order;
- it is a permutation of the input;
- it is stable: each group of offers with the same price keeps its order;
- it is the only ordering with those properties (`StableSortUnique`), so
  insertion sort gives the same result as whatever algorithm `sort.Stable`
  uses;
- its head is the first cheapest offer (`FirstCheapest`).

Because the queue is re-sorted on every call, queue order is not
submission order after the first `ConsiderOffers`. `PendingInOrder` carries
the order across calls: each proposal is, among the offers ever accepted at
its price, the earliest one still pending (`EarliestAtItsPrice`).

Since a proposal only stands while the demand is unmet, the DemandSatisfied
check in `TransactOffer` (market_basic.go:98-100) can never fire. Once the
demand is met, `ConsiderOffers` refuses to make a proposal, and
`TransactOffer` fails earlier with NoOfferAvailable (market_basic.go:90-92)
or StaleOffer. `TransactOffer` states this as `err != Fail(DemandSatisfied)`.
The model keeps the check, as the source does.

Module `MarketScenarios` (file `market_scenarios.dfy`) replays the scenarios
of `market_test.go` as client methods. Each outcome they check follows from
the contracts alone.

Money is Go's unsigned `Money`, modelled as `nat`. Offers are compared by
reference in the source (`market_basic.go:94`), so `SellerOffer` is a class
whose fields are never updated. Errors are the datatype `MarketError`.
Operations return `Outcome` (no error, or an error) or `Result` (a value, or
an error).

`Transfer` is modelled as written. It deposits the amount into the payer and
then withdraws the same amount from the payer. The payee is never touched.
So, with `Money` unbounded, a transaction always succeeds, and it leaves the market's balance and the
seller's balance exactly as they were, although the engine's documented
intent is that the market pays the seller. The model states this behaviour
and does not substitute a debit-and-credit transfer.

## Model

| member | source | states |
|---|---|---|
| `Market.SellerAccount.constructor` | market.go:36-39 | a new account holds exactly the given balance |
| `Market.SellerAccount.Balance` | market.go:41-44 | returns the stored balance and, being a function, changes nothing |
| `Market.SellerAccount.Deposit` | market.go:57-62 | the balance grows by exactly the amount; there is no failure path |
| `Market.SellerAccount.Withdraw` | market.go:46-55 | amount ≤ balance: no error, and the balance drops by exactly the amount; amount > balance: InsufficientFunds, and the balance is unchanged, so it never goes below zero |
| `Market.Len` | market.go:91 | the number of offers in the slice |
| `Market.Less` | market.go:93 | offer i sorts before offer j exactly when its price is strictly lower |
| `Market.LessIsStrictWeakOrder` | market.go:93 | Less is irreflexive and transitive, and "neither is less" is transitive, as sorting requires |
| `Market.Swap` | market.go:92 | positions i and j are exchanged, every other position is unchanged, and the contents are a permutation of the old contents |
| `Market.Transfer` | market.go:101-112 | always returns no error; the payer's balance afterwards equals its balance before; only the payer may change, so a payee other than the payer keeps its balance |
| `SortStable.InsertionSort` | market_basic.go:55-57 | after sorting in place through Less and Swap, the array holds StableSort of its old contents |
| `SortStable.StableSortSorted` | market_basic.go:55-57 | the stably sorted queue has the same length and is in non-decreasing price order |
| `SortStable.StableSortPermutes` | market_basic.go:55-57 | the stably sorted queue is a permutation of the queue |
| `SortStable.StableSortIsStable` | market_basic.go:55-57 | for every price, the offers at that price appear in the same order before and after sorting |
| `SortStable.StableSortUnique` | market_basic.go:55-57 | any ordering that is sorted by price and keeps every price group's order is exactly StableSort of the queue |
| `SortStable.FirstCheapest` | market_basic.go:55-77 | the index of an offer priced at most every other offer and strictly below every earlier one: the earliest cheapest offer |
| `SortStable.StableSortHead` | market_basic.go:55-77 | the head of the stably sorted queue, which becomes the proposal, is the earliest of the cheapest pending offers |
| `SortStable.StableSortRest` | market_basic.go:75-82 | after the head is taken off, the queue is one shorter, holds the old queue minus one occurrence of the chosen offer, and is in non-decreasing price order |
| `SortStable.StableSortRestGroups` | market_basic.go:55-82 | after the head is taken off the sorted queue, the head's price group is the queue's group without its first offer, and every other price group is the queue's group unchanged |
| `SortStable.StableSortRestDistinct` | market_basic.go:75-82 | when no offer was queued twice, the chosen offer is no longer pending and the rest still has no repetition |
| `MarketBasic.CounterPrice` | market_basic.go:59-72 | the counter price is at most the ask, the ceiling and the balance, and equals one of them, so it is their minimum |
| `MarketBasic.OfferAccepted` | market_basic.go:37 | appending an accepted offer to both the queue and the history keeps every price group of the queue the latest part of that price's history |
| `MarketBasic.HeadTaken` | market_basic.go:55-82 | sorting the queue and dropping its head keeps every price group of the queue the latest part of that price's history |
| `MarketBasic.EarliestPending` | market_basic.go:55-77 | when the queue's groups are the latest parts of the history's groups, the first cheapest pending offer is, among the offers accepted at its price, the earliest one still pending |
| `MarketBasic.BasicMarket.constructor` | market_basic.go:18-26 | the market has the given kind, ceiling and demand, and a fresh account with the given balance; nothing is bought or pending and there is no proposal; the history of accepted offers is empty; the invariant holds |
| `MarketBasic.BasicMarket.AddOffer` | market_basic.go:28-39 | an offer without exactly one good fails with InvalidOfferShape, checked first; a good of another kind fails with InvalidGoodType; either way the queue is unchanged; otherwise the offer is appended to the queue and to the history of accepted offers; the invariant is kept, including the order of each price group |
| `MarketBasic.BasicMarket.SortQueue` | market_basic.go:55-57 | the queue field is replaced by StableSort of itself, and no other field changes |
| `MarketBasic.BasicMarket.ConsiderOffers` | market_basic.go:41-85 | an empty queue fails with NoSellerOffers, checked first; then len(bought) ≥ demand fails with DemandSatisfied; neither failure changes anything; otherwise the proposal is the earliest cheapest offer at CounterPrice(ask, ceiling, balance), so its price is at most each of the three; among the offers accepted at its price, it is the earliest still pending; the queue becomes StableSort of the old queue minus its head; the previous proposal is replaced and the invariant is kept |
| `MarketBasic.BasicMarket.TransactOffer` | market_basic.go:88-111 | fails in order with NoOfferAvailable (no proposal), StaleOffer (the counter's offer is not the proposed offer object) and DemandSatisfied, each time changing nothing; otherwise it appends exactly the offer's goods to bought and clears the proposal; the market's balance is unchanged; len(bought) ≤ max(demand, 0) is kept; DemandSatisfied is never returned, because a proposal only stands while the demand is unmet |

## Left out

- Locking: the `sync.Mutex` in `SellerAccount` and the `Lock`/`Unlock` calls in `Transfer` are not modelled. Every operation runs alone here. The withdraw error path of `Transfer` returns without unlocking the payer. In the model that path is unreachable only because `Money` is unbounded (next line).
- Unsigned wrap-around of `Money` (`uint`, market.go:15) is not modelled. `Money` is unbounded, so `Deposit` never overflows. What is lost: in the source, `Transfer` with an amount larger than the room left above the payer's balance wraps the balance at market.go:61. The withdraw then fails at market.go:49, and `Transfer` returns that error with the payer's balance wrapped and its lock still held. `TransactOffer` then returns that error at market.go:103-104. A 64-bit example is a market created with ceiling MaxInt64 and balance 2^63+1, transacting an offer priced MaxInt64. The model's `Transfer` always returns no error and restores the balance.
- MarketBasic.BasicMarket.constructor: requires a non-negative ceiling. The source converts a negative `int` ceiling to a huge unsigned value, and that conversion is not modelled.
- Nil references: a nil offer passed to `AddOffer`, a nil `*Good` inside an offer's goods (dereferenced at market_basic.go:33), a nil counter passed to `TransactOffer` and a nil market account all make the source panic. The model's types exclude them.
- Goods are values: `Good` is a datatype, not the shared `*Good` pointers of `SellerOffer.goods` (market.go:82) and `BasicMarket.bought` (market_basic.go:12). No operation updates a good or compares goods by identity, so the sharing is not observable. A seller offer's own account may be nil, as in the source's tests, because `Transfer` never uses the payee.
- Error messages and the concrete Go error types are replaced by the `MarketError` kinds.
- The `Account` and `Market` interfaces are only declarations. The market's account is a `SellerAccount`, the only implementation.
- `Good.Refinement` is not modelled, because no operation reads it.
- `sort.Stable` is modelled by insertion sort. Go runs insertion sort on short slices and merges blocks on longer ones. `StableSortUnique` shows that both orderings agree.
- The queue is a sequence value, not a Go slice. `SortQueue` sorts an array copy and stores it back, so sharing of the slice's backing array is not modelled. The counter is a value, not a pointer. Counters are never compared by identity, only their offers are.
- The reflection-based test harness and the `fmt` output in `market_test.go` are not modelled. Their scenarios appear as the client methods of `MarketScenarios`.
