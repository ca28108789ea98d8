/** Accounts, goods, seller offers, the price ordering of offers and the
    transfer between accounts (market.go). */
module Market {

  /** Money is an unsigned amount; modelled as an unbounded natural number. */
  type Money = nat

  /** The kind of a good. The source's GoodType is a plain integer with two
      named constants. */
  type GoodType = int

  const Meat: GoodType := 0
  const Fur: GoodType := 1

  /** A good of some kind. The source also carries a refinement grade that
      no operation reads; it is not part of this model. */
  datatype Good = Good(kind: GoodType)

  /** The error kinds the engine reports, in place of the source's error
      strings and error types. */
  datatype MarketError =
    | InsufficientFunds   // withdraw larger than the balance
    | InvalidOfferShape   // basic market: offer does not hold exactly one good
    | InvalidGoodType     // offer's good is not of the market's kind
    | NoSellerOffers      // nothing pending to consider
    | DemandSatisfied     // market already bought all it wants
    | NoOfferAvailable    // no counter outstanding
    | StaleOffer          // counter is not for the current offer

  /** A nil error or an error: the source's `error` return value. */
  datatype Outcome = Pass | Fail(error: MarketError)

  /** A possibly nil reference to a value. */
  datatype Option<T> = None | Some(value: T)

  /** A value or an error: the source's `(value, error)` return pair. */
  datatype Result<T> = Ok(value: T) | Err(error: MarketError)

  /** A player's (or the market's) money. The embedded mutex of the source
      is not modelled: every operation here runs to completion alone. */
  class SellerAccount {
    var balance: Money

    /** NewSellerAccount: an account holding the given balance. */
    constructor (balance: Money)
      ensures this.balance == balance
    {
      this.balance := balance;
    }

    /** The stored balance; reading it changes nothing. */
    function Balance(): (b: Money)
      reads this
      ensures b == balance
    {
      balance
    }

    /** Adds `m` to the balance; there is no failure path. */
    method Deposit(m: Money)
      modifies this
      ensures balance == old(balance) + m
    {
      balance := balance + m;
    }

    /** Takes `m` out of the balance, or fails and leaves the balance alone
        when `m` exceeds it, so the balance never goes below zero. */
    method Withdraw(m: Money) returns (err: Outcome)
      modifies this
      ensures m <= old(balance) ==> err == Pass && balance == old(balance) - m
      ensures m > old(balance) ==> err == Fail(InsufficientFunds) && balance == old(balance)
    {
      err := Pass;
      if m <= balance {
        balance := balance - m;
      } else {
        err := Fail(InsufficientFunds);
      }
    }
  }

  /** A seller's priced bundle of goods. Offers are compared by reference,
      so this is a class; none of its fields is ever updated. The source
      account may be nil. */
  class SellerOffer {
    const goods: seq<Good>
    const account: SellerAccount?
    const price: Money

    constructor (goods: seq<Good>, account: SellerAccount?, price: Money)
      ensures this.goods == goods && this.account == account && this.price == price
    {
      this.goods := goods;
      this.account := account;
      this.price := price;
    }
  }

  /** The market's proposal for one offer: the offer and the price it will pay. */
  datatype MarketCounter = MarketCounter(sellerOffer: SellerOffer, price: Money)

  // ByOfferPrice: the sort interface over a slice of offers, with the slice
  // modelled as an array so that Swap works in place.

  /** ByOfferPrice.Len: the number of offers in the slice. */
  function Len(a: array<SellerOffer>): (n: nat)
    ensures n == a.Length
  {
    a.Length
  }

  /** ByOfferPrice.Less: offer i sorts before offer j exactly when its price
      is strictly lower. */
  function Less(a: array<SellerOffer>, i: int, j: int): (r: bool)
    reads a
    requires 0 <= i < a.Length && 0 <= j < a.Length
    ensures r <==> a[i].price < a[j].price
  {
    a[i].price < a[j].price
  }

  /** Less is a strict weak order, which is what sorting by it requires:
      irreflexive, transitive, and "neither is less" is transitive too. */
  lemma LessIsStrictWeakOrder(a: array<SellerOffer>, i: int, j: int, k: int)
    requires 0 <= i < a.Length && 0 <= j < a.Length && 0 <= k < a.Length
    ensures !Less(a, i, i)
    ensures Less(a, i, j) && Less(a, j, k) ==> Less(a, i, k)
    ensures !Less(a, i, j) && !Less(a, j, i) && !Less(a, j, k) && !Less(a, k, j)
            ==> !Less(a, i, k) && !Less(a, k, i)
  {
  }

  /** ByOfferPrice.Swap: exchanges positions i and j, nothing else moves. */
  method Swap(a: array<SellerOffer>, i: int, j: int)
    requires 0 <= i < a.Length && 0 <= j < a.Length
    modifies a
    ensures a[i] == old(a[j]) && a[j] == old(a[i])
    ensures forall k :: 0 <= k < a.Length && k != i && k != j ==> a[k] == old(a[k])
    ensures multiset(a[..]) == multiset(old(a[..]))
  {
    a[i], a[j] := a[j], a[i];
  }

  /** Transfer, exactly as the source writes it: under the payer's lock it
      deposits `amount` into the payer and then withdraws the same amount
      from the payer. The payee is never read or changed. Because Money is
      unbounded here, the withdraw always succeeds after the deposit, so the
      call always succeeds and leaves every balance as it was. With the
      source's unsigned Money a deposit can wrap around; the withdraw then
      fails, and the source returns that error with the payer's balance
      changed and its lock still held. Neither is modelled. */
  method Transfer(amount: Money, payer: SellerAccount, payee: SellerAccount?) returns (err: Outcome)
    modifies payer
    ensures err == Pass
    ensures payer.balance == old(payer.balance)
    ensures payee != null && payee != payer ==> payee.balance == old(payee.balance)
  {
    var cAmount := amount;
    payer.Deposit(cAmount);
    err := payer.Withdraw(amount);
    if err.Fail? {
      return;
    }
  }
}
