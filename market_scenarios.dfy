/** The scenarios of the source's tests (market_test.go), replayed against
    the contracts of the basic market: each outcome below follows from those
    contracts alone. */
module MarketScenarios {
  import opened Market
  import opened SortStable
  import opened MarketBasic

  /** An offer of one good of the given kind, with no seller account. */
  method NewOffer(kind: GoodType, price: Money) returns (o: SellerOffer)
    ensures fresh(o) && o.goods == [Good(kind)] && o.account == null && o.price == price
  {
    o := new SellerOffer([Good(kind)], null, price);
  }

  /** A market of furs with ceiling 2, demand 3 and balance 3 reports those. */
  method MarketConstruction()
  {
    var m := new BasicMarket(Fur, 2, 3, 3);
    assert m.goodType == 1 && m.demand == 3 && m.maxOffer == 2;
    assert m.account.Balance() == 3;
  }

  method AccountOperations()
  {
    var a := new SellerAccount(10);
    assert a.Balance() == 10;
    var b := new SellerAccount(0);
    b.Deposit(5);
    assert b.Balance() == 5;
    var c := new SellerAccount(1);
    var err := c.Withdraw(1);
    assert err == Pass && c.Balance() == 0;
    var d := new SellerAccount(0);
    err := d.Withdraw(1);
    assert err == Fail(InsufficientFunds) && d.Balance() == 0;
  }

  /** The seller asks less than the ceiling: the market offers the ask. */
  method SellerBelowCeiling()
  {
    var m := new BasicMarket(Meat, 2, 1, 10);
    var o := NewOffer(Meat, 1);
    var err := m.AddOffer(o);
    assert err == Pass && m.sellerOffers == [o];
    LoneOfferSorts(o);
    var r := m.ConsiderOffers();
    assert r.Ok? && r.value.sellerOffer == o && r.value.price == 1;
    assert m.sellerOffers == [];
  }

  /** The seller asks more than the ceiling: the market counters with the
      ceiling, and the purchase goes through without moving money. */
  method SellerAboveCeiling()
  {
    var m := new BasicMarket(Meat, 1, 1, 10);
    var o := NewOffer(Meat, 2);
    var err := m.AddOffer(o);
    var r := m.ConsiderOffers();
    assert r.Ok? && r.value.price == 1;
    err := m.TransactOffer(r.value);
    assert err == Pass && m.bought == [Good(Meat)] && m.currentOffer == None;
    assert m.account.Balance() == 10;
  }

  /** An offer of the wrong kind is refused and not queued. */
  method WrongGoodType()
  {
    var m := new BasicMarket(Meat, 1, 1, 10);
    var o := NewOffer(Fur, 1);
    var err := m.AddOffer(o);
    assert err == Fail(InvalidGoodType) && m.sellerOffers == [];
  }

  /** A lone offer is its own sorted queue. */
  lemma LoneOfferSorts(x: SellerOffer)
    ensures StableSort([x]) == [x] && FirstCheapest([x]) == 0
  {
    assert [x][..0] == [];
  }

  /** Two offers of equal price stay in queue order, and the earlier one is
      the first cheapest. */
  lemma EqualPairStaysInOrder(x: SellerOffer, y: SellerOffer)
    requires x.price == y.price
    ensures StableSort([x, y]) == [x, y] && FirstCheapest([x, y]) == 0
  {
    assert [x, y][..1] == [x] && [x][..0] == [];
    assert StableSort([x]) == [x];
  }

  /** Of two offers, a strictly cheaper second one is sorted first. */
  lemma CheaperSecondGoesFirst(x: SellerOffer, y: SellerOffer)
    requires y.price < x.price
    ensures StableSort([x, y]) == [y, x] && FirstCheapest([x, y]) == 1
  {
    assert [x, y][..1] == [x] && [x][..0] == [];
    assert StableSort([x]) == [x];
    assert Insert([], y) == [y];
  }

  /** A meat market with demand one holding two offers of equal price. */
  method MarketWithEqualPair() returns (m: BasicMarket, first: SellerOffer, second: SellerOffer)
    ensures fresh(m) && fresh(m.account) && m.Valid()
    ensures m.sellerOffers == [first, second] && first.price == 1 && second.price == 1
    ensures m.maxOffer == 1 && m.account.balance == 10 && |m.bought| < m.demand
  {
    m := new BasicMarket(Meat, 1, 1, 10);
    first := NewOffer(Meat, 1);
    second := NewOffer(Meat, 1);
    var err := m.AddOffer(first);
    err := m.AddOffer(second);
  }

  /** Two offers of equal price: the first queued is proposed first. */
  method EqualOffersFirstQueuedWins()
  {
    var m, first, second := MarketWithEqualPair();
    EqualPairStaysInOrder(first, second);
    var r := m.ConsiderOffers();
    assert r.Ok? && r.value.sellerOffer == first && r.value.price == 1;
    assert m.sellerOffers == [second];
  }

  /** A meat market with demand one that has bought one good. */
  method MarketAfterOnePurchase() returns (m: BasicMarket)
    ensures fresh(m) && fresh(m.account) && m.Valid()
    ensures m.goodType == Meat && m.demand == 1 && |m.bought| == 1 && m.currentOffer == None
  {
    m := new BasicMarket(Meat, 1, 1, 10);
    var first := NewOffer(Meat, 1);
    var err := m.AddOffer(first);
    var r := m.ConsiderOffers();
    assert r.Ok? && r.value.sellerOffer == first;
    err := m.TransactOffer(r.value);
  }

  /** With a demand of one, after one purchase the market considers no more
      offers, and no counter can be transacted. */
  method DemandMetAfterOnePurchase()
  {
    var m := MarketAfterOnePurchase();
    var second := NewOffer(Meat, 1);
    var err := m.AddOffer(second);
    assert err == Pass && m.sellerOffers != [];
    ghost var bought := m.bought;
    var r := m.ConsiderOffers();
    assert m.bought == bought;
    assert r == Err(DemandSatisfied);
    err := m.TransactOffer(MarketCounter(second, 1));
    assert err == Fail(NoOfferAvailable);
  }

  /** Nothing queued: nothing to consider. */
  method NoSellerOffersScenario()
  {
    var m := new BasicMarket(Meat, 2, 1, 10);
    var r := m.ConsiderOffers();
    assert r == Err(NoSellerOffers);
  }

  /** A market holding a dear and a cheap offer, after it has proposed a
      price for the cheap one. */
  method MarketCounteringCheaperOffer() returns (m: BasicMarket, counter: MarketCounter, dear: SellerOffer)
    ensures fresh(m) && fresh(m.account) && m.Valid()
    ensures m.sellerOffers == [dear] && m.currentOffer == Some(counter) && counter.sellerOffer != dear
    ensures |m.bought| < m.demand
  {
    m := new BasicMarket(Meat, 5, 2, 10);
    dear := NewOffer(Meat, 3);
    var cheap := NewOffer(Meat, 2);
    var err := m.AddOffer(dear);
    err := m.AddOffer(cheap);
    CheaperSecondGoesFirst(dear, cheap);
    var r := m.ConsiderOffers();
    assert r.Ok? && r.value.sellerOffer == cheap;
    counter := r.value;
  }

  /** A counter issued before a newer proposal is stale. */
  method StaleCounter()
  {
    var m, counter, dear := MarketCounteringCheaperOffer();
    var r := m.ConsiderOffers();
    assert r.Ok? && r.value.sellerOffer == dear;
    var err := m.TransactOffer(counter);
    assert err == Fail(StaleOffer);
  }
}
