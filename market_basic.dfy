/** The basic market (market_basic.go): a market for one kind of good that
    takes offers of a single good, proposes a price for the cheapest pending
    offer, and buys it when the proposal is transacted. */
module MarketBasic {
  import opened Market
  import opened SortStable

  /** The price the market proposes for an offer: the seller's ask, lowered
      to the market's ceiling when the ask is above it, then lowered to the
      market's funds when it cannot pay that much. It is the largest price
      that is above none of the ask, the ceiling and the funds. */
  function CounterPrice(ask: Money, ceiling: Money, funds: Money): (p: Money)
    ensures p <= ask && p <= ceiling && p <= funds
    ensures p == ask || p == ceiling || p == funds
  {
    var c := if ask > ceiling then ceiling else ask;
    if c > funds then funds else c
  }

  /** `x` is the last part of `y`. */
  ghost predicate IsSuffix(x: seq<SellerOffer>, y: seq<SellerOffer>)
  {
    |x| <= |y| && x == y[|y| - |x|..]
  }

  /** At every price, the pending offers are the latest of the offers ever
      accepted at that price, in the order they were accepted: the queue has
      only lost the earliest offers of each price. */
  ghost predicate PendingInOrder(queue: seq<SellerOffer>, history: seq<SellerOffer>)
  {
    forall p :: IsSuffix(WithPrice(queue, p), WithPrice(history, p))
  }

  /** Appending the same offers keeps a suffix a suffix. */
  lemma SuffixAppend(x: seq<SellerOffer>, y: seq<SellerOffer>, z: seq<SellerOffer>)
    requires IsSuffix(x, y)
    ensures IsSuffix(x + z, y + z)
  {
    assert (y + z)[|y + z| - |x + z|..] == y[|y| - |x|..] + z;
  }

  /** Dropping the first offer of a suffix leaves a suffix. */
  lemma SuffixTail(x: seq<SellerOffer>, y: seq<SellerOffer>)
    requires x != [] && IsSuffix(x, y)
    ensures IsSuffix(x[1..], y)
  {
    assert x[1..] == y[|y| - |x[1..]|..];
  }

  /** Accepting `o` keeps the group at price `p` of the queue a suffix of
      the group of the history. */
  lemma OfferAcceptedAt(queue: seq<SellerOffer>, history: seq<SellerOffer>, o: SellerOffer, p: Money)
    requires IsSuffix(WithPrice(queue, p), WithPrice(history, p))
    ensures IsSuffix(WithPrice(queue + [o], p), WithPrice(history + [o], p))
  {
    WithPriceAppend(queue, [o], p);
    WithPriceAppend(history, [o], p);
    WithPriceSingle(o, p);
    SuffixAppend(WithPrice(queue, p), WithPrice(history, p), AtPrice(o, p));
  }

  /** Accepting an offer appends it to both the queue and the history. */
  lemma OfferAccepted(queue: seq<SellerOffer>, history: seq<SellerOffer>, o: SellerOffer)
    requires PendingInOrder(queue, history)
    ensures PendingInOrder(queue + [o], history + [o])
  {
    forall p ensures IsSuffix(WithPrice(queue + [o], p), WithPrice(history + [o], p)) {
      OfferAcceptedAt(queue, history, o, p);
    }
  }

  /** Taking the head off the sorted queue keeps the group at price `p` a
      suffix of the group of the history. */
  lemma HeadTakenAt(queue: seq<SellerOffer>, history: seq<SellerOffer>, p: Money)
    requires queue != [] && IsSuffix(WithPrice(queue, p), WithPrice(history, p))
    ensures IsSuffix(WithPrice(StableSort(queue)[1..], p), WithPrice(history, p))
  {
    StableSortRestGroups(queue, p);
    if p == StableSort(queue)[0].price {
      SuffixTail(WithPrice(queue, p), WithPrice(history, p));
    }
  }

  /** Sorting the queue and taking its head keeps the pending offers of each
      price the latest accepted ones, in order. */
  lemma HeadTaken(queue: seq<SellerOffer>, history: seq<SellerOffer>)
    requires queue != [] && PendingInOrder(queue, history)
    ensures PendingInOrder(StableSort(queue)[1..], history)
  {
    forall p ensures IsSuffix(WithPrice(StableSort(queue)[1..], p), WithPrice(history, p)) {
      HeadTakenAt(queue, history, p);
    }
  }

  /** Among the offers accepted at the price of `o`, `o` is the earliest
      that is still pending in `queue`. */
  ghost predicate EarliestAtItsPrice(o: SellerOffer, queue: seq<SellerOffer>, history: seq<SellerOffer>)
  {
    var h, q := WithPrice(history, o.price), WithPrice(queue, o.price);
    0 < |q| <= |h| && o == h[|h| - |q|]
  }

  /** The first cheapest pending offer is, among the offers ever accepted at
      its price, the earliest that is still pending. */
  lemma EarliestPending(queue: seq<SellerOffer>, history: seq<SellerOffer>)
    requires queue != [] && PendingInOrder(queue, history)
    ensures EarliestAtItsPrice(queue[FirstCheapest(queue)], queue, history)
  {
    var k := FirstCheapest(queue);
    WithPriceHead(queue, k, queue[k].price);
    assert IsSuffix(WithPrice(queue, queue[k].price), WithPrice(history, queue[k].price));
  }

  class BasicMarket {
    const goodType: GoodType      // the kind of good the market handles
    const maxOffer: Money         // highest unit price it will pay
    const demand: int             // number of goods it wants to buy
    var bought: seq<Good>         // goods bought so far
    const account: SellerAccount  // the market's own money
    var sellerOffers: seq<SellerOffer>    // pending offers, in queue order
    ghost var added: seq<SellerOffer>     // every offer AddOffer accepted, in order
    var currentOffer: Option<MarketCounter>  // the standing proposal, if any

    /** The number of goods the market may still hold at most: its demand,
        or nothing when the demand is negative. */
    function DemandCap(): nat
    {
      if demand < 0 then 0 else demand
    }

    /** The shape AddOffer admits: exactly one good, of the market's kind. */
    predicate Admissible(o: SellerOffer)
    {
      |o.goods| == 1 && o.goods[0].kind == goodType
    }

    /** The market's invariant: every pending and current offer is admissible,
        the standing counter price is within the ask, the ceiling and the
        funds, and a proposal only stands while the demand is unmet; at every
        price the pending offers are the latest accepted ones, in the order
        they were accepted; and the market never holds more goods than it
        demands, all of its own kind. */
    ghost predicate Valid()
      reads this, account
    {
      (forall o :: o in sellerOffers ==> Admissible(o)) &&
      (currentOffer.Some? ==>
        var c := currentOffer.value;
        Admissible(c.sellerOffer) &&
        c.price <= c.sellerOffer.price && c.price <= maxOffer && c.price <= account.balance &&
        |bought| < demand) &&
      PendingInOrder(sellerOffers, added) &&
      |bought| <= DemandCap() &&
      (forall g :: g in bought ==> g.kind == goodType)
    }

    /** NewBasicMarket: a market with the given kind, ceiling and demand, a
        fresh account holding `balance`, nothing bought, nothing pending and
        no standing proposal. */
    constructor (goodType: GoodType, maxOffer: int, demand: int, balance: Money)
      requires maxOffer >= 0
      ensures Valid() && fresh(account)
      ensures this.goodType == goodType && this.maxOffer == maxOffer && this.demand == demand
      ensures account.balance == balance
      ensures bought == [] && sellerOffers == [] && added == [] && currentOffer == None
    {
      this.goodType := goodType;
      this.maxOffer := maxOffer;
      this.demand := demand;
      this.account := new SellerAccount(balance);
      this.bought := [];
      this.sellerOffers := [];
      this.added := [];
      this.currentOffer := None;
    }

    /** Queues an offer. An offer without exactly one good is refused with a
        shape error, one whose good is of another kind with InvalidGoodType;
        either way nothing changes. Otherwise the offer joins the end of the
        queue and of the history of accepted offers. */
    method AddOffer(o: SellerOffer) returns (err: Outcome)
      requires Valid()
      modifies this`sellerOffers, this`added
      ensures Valid()
      ensures |o.goods| != 1 ==> err == Fail(InvalidOfferShape)
      ensures |o.goods| == 1 && o.goods[0].kind != goodType ==> err == Fail(InvalidGoodType)
      ensures err == Pass <==> Admissible(o)
      ensures sellerOffers == if err == Pass then old(sellerOffers) + [o] else old(sellerOffers)
      ensures added == if err == Pass then old(added) + [o] else old(added)
    {
      if |o.goods| != 1 {
        return Fail(InvalidOfferShape);
      }
      if o.goods[0].kind != goodType {
        return Fail(InvalidGoodType);
      }
      OfferAccepted(sellerOffers, added, o);
      sellerOffers := sellerOffers + [o];
      added := added + [o];
      return Pass;
    }

    /** Proposes a price for the next offer. With nothing pending it fails
        with NoSellerOffers; failing that, once the demand is met, with
        DemandSatisfied; either way nothing changes. Otherwise the queue is
        stably sorted by price, the head (the cheapest offer, and among
        equally cheap pending offers the earliest accepted) becomes the standing proposal at
        CounterPrice of its ask, the ceiling and the market's balance, and it
        leaves the queue, replacing any earlier proposal. */
    method ConsiderOffers() returns (r: Result<MarketCounter>)
      requires Valid()
      modifies this`sellerOffers, this`currentOffer
      ensures Valid()
      ensures old(sellerOffers) == [] ==> r == Err(NoSellerOffers)
      ensures old(sellerOffers) != [] && |bought| >= demand ==> r == Err(DemandSatisfied)
      ensures r.Err? ==> sellerOffers == old(sellerOffers) && currentOffer == old(currentOffer)
      ensures old(sellerOffers) != [] && |bought| < demand ==>
        r.Ok? &&
        r.value.sellerOffer == old(sellerOffers)[FirstCheapest(old(sellerOffers))] &&
        r.value.price == CounterPrice(r.value.sellerOffer.price, maxOffer, account.balance) &&
        currentOffer == Some(r.value) &&
        sellerOffers == StableSort(old(sellerOffers))[1..]
      ensures r.Ok? ==>
        r.value.price <= r.value.sellerOffer.price &&
        r.value.price <= maxOffer && r.value.price <= account.balance
      ensures r.Ok? ==> EarliestAtItsPrice(r.value.sellerOffer, old(sellerOffers), added)
    {
      if |sellerOffers| == 0 {
        return Err(NoSellerOffers);
      }
      if |bought| >= demand {
        return Err(DemandSatisfied);
      }

      ghost var queue := sellerOffers;
      SortQueue();
      StableSortHead(queue);

      var best := sellerOffers[0];
      var marketCounter: Money;
      if best.price > maxOffer {
        marketCounter := maxOffer;
      } else {
        marketCounter := best.price;
      }
      if marketCounter > account.Balance() {
        marketCounter := account.Balance();
      }

      currentOffer := Some(MarketCounter(best, marketCounter));
      sellerOffers := sellerOffers[1..];
      r := Ok(currentOffer.value);
      EarliestPending(queue, added);
      HeadTaken(queue, added);
      ProposalKeepsValid(queue);
    }

    /** The state ConsiderOffers leaves behind, a proposal for the head of the
        sorted queue and the rest of it pending, satisfies the invariant. */
    lemma ProposalKeepsValid(queue: seq<SellerOffer>)
      requires queue != [] && (forall o :: o in queue ==> Admissible(o))
      requires PendingInOrder(sellerOffers, added)
      requires sellerOffers == StableSort(queue)[1..]
      requires currentOffer.Some? && currentOffer.value.sellerOffer == StableSort(queue)[0]
      requires var c := currentOffer.value;
        c.price <= c.sellerOffer.price && c.price <= maxOffer && c.price <= account.balance
      requires |bought| < demand && (forall g :: g in bought ==> g.kind == goodType)
      ensures Valid()
    {
      var sorted := StableSort(queue);
      StableSortPermutes(queue);
      AdmissibleKept(queue, sorted);
      assert sorted[0] in sorted;
      assert forall o :: o in sellerOffers ==> o in sorted;
    }

    /** sort.Stable(ByOfferPrice(m.sellerOffers)): sorts the queue in place,
        by price, keeping offers of equal price in queue order. */
    method SortQueue()
      modifies this`sellerOffers
      ensures sellerOffers == StableSort(old(sellerOffers))
    {
      var queue := sellerOffers;
      var a := new SellerOffer[|queue|](i requires 0 <= i < |queue| => queue[i]);
      assert a[..] == queue;
      InsertionSort(a);
      sellerOffers := a[..];
    }

    /** Every offer of the sorted queue was pending before, so is admissible. */
    lemma AdmissibleKept(queue: seq<SellerOffer>, sorted: seq<SellerOffer>)
      requires forall o :: o in queue ==> Admissible(o)
      requires multiset(sorted) == multiset(queue)
      ensures forall o :: o in sorted ==> Admissible(o)
    {
      forall o | o in sorted ensures Admissible(o) {
        assert o in multiset(queue);
      }
    }

    /** Carries out the standing proposal `c`. It fails, changing nothing,
        when there is no proposal (NoOfferAvailable), when `c` is for another
        offer object than the standing one (StaleOffer), or when the demand is
        already met (DemandSatisfied). The last never happens: a proposal
        only stands while the demand is unmet. Otherwise it runs Transfer from the
        market's account, which leaves its balance as it was, adds the offer's
        goods to those bought and clears the proposal. */
    method TransactOffer(c: MarketCounter) returns (err: Outcome)
      requires Valid()
      modifies this`bought, this`currentOffer, account
      ensures Valid()
      ensures old(currentOffer).None? ==> err == Fail(NoOfferAvailable)
      ensures old(currentOffer).Some? && old(currentOffer).value.sellerOffer != c.sellerOffer ==>
        err == Fail(StaleOffer)
      ensures (old(currentOffer).Some? && old(currentOffer).value.sellerOffer == c.sellerOffer &&
               |old(bought)| >= demand) ==> err == Fail(DemandSatisfied)
      ensures err.Fail? ==> bought == old(bought) && currentOffer == old(currentOffer)
      ensures (old(currentOffer).Some? && old(currentOffer).value.sellerOffer == c.sellerOffer &&
               |old(bought)| < demand) ==>
        err == Pass && bought == old(bought) + c.sellerOffer.goods && currentOffer == None
      ensures account.balance == old(account.balance)
      ensures err != Fail(DemandSatisfied)
    {
      if currentOffer.None? {
        return Fail(NoOfferAvailable);
      }
      if currentOffer.value.sellerOffer != c.sellerOffer {
        return Fail(StaleOffer);
      }
      if |bought| >= demand {
        return Fail(DemandSatisfied);
      }

      err := Transfer(c.price, account, c.sellerOffer.account);
      if err.Fail? {
        return;
      }
      bought := bought + c.sellerOffer.goods;
      currentOffer := None;
    }
  }
}
