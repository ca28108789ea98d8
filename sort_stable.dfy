/** The stable sort the basic market applies to its pending offers: Go's
    sort.Stable driven by the ByOfferPrice interface (Less and Swap). Its
    result is the unique ordering that is non-decreasing in price and keeps
    offers of equal price in their original order; the method below computes
    it by insertion sort, which is what sort.Stable itself runs on short
    slices, and is proved equal to the specification function StableSort. */
module SortStable {
  import opened Market

  /** Non-decreasing in price. */
  ghost predicate SortedByPrice(s: seq<SellerOffer>)
  {
    forall i, j :: 0 <= i < j < |s| ==> s[i].price <= s[j].price
  }

  /** `x` alone when its price is `p`, otherwise nothing. */
  function AtPrice(x: SellerOffer, p: Money): seq<SellerOffer>
  {
    if x.price == p then [x] else []
  }

  /** The offers of `s` whose price is `p`, in their order in `s`. A sort is
      stable exactly when it keeps each of these subsequences as it was. */
  function WithPrice(s: seq<SellerOffer>, p: Money): seq<SellerOffer>
  {
    if s == [] then [] else AtPrice(s[0], p) + WithPrice(s[1..], p)
  }

  /** No offer object occurs twice. */
  ghost predicate Distinct(s: seq<SellerOffer>)
  {
    forall i, j :: 0 <= i < j < |s| ==> s[i] != s[j]
  }

  /** Inserts `x` after every offer of `s` that is not dearer than it. */
  function Insert(s: seq<SellerOffer>, x: SellerOffer): seq<SellerOffer>
  {
    if s == [] || s[|s| - 1].price <= x.price then s + [x]
    else Insert(s[..|s| - 1], x) + [s[|s| - 1]]
  }

  /** The stably sorted sequence: insertion of each offer, left to right. */
  function StableSort(s: seq<SellerOffer>): seq<SellerOffer>
  {
    if s == [] then [] else Insert(StableSort(s[..|s| - 1]), s[|s| - 1])
  }

  /** The index of the cheapest offer; among equally cheap offers, the
      earliest. */
  function FirstCheapest(s: seq<SellerOffer>): (k: nat)
    requires s != []
    ensures k < |s|
    ensures forall i :: 0 <= i < |s| ==> s[k].price <= s[i].price
    ensures forall i :: 0 <= i < k ==> s[k].price < s[i].price
  {
    if |s| == 1 then 0
    else
      var k' := FirstCheapest(s[1..]) + 1;
      if s[0].price <= s[k'].price then 0 else k'
  }

  lemma {:induction false} WithPriceAppend(s: seq<SellerOffer>, t: seq<SellerOffer>, p: Money)
    ensures WithPrice(s + t, p) == WithPrice(s, p) + WithPrice(t, p)
  {
    if s == [] {
      assert s + t == t;
    } else {
      var st := s + t;
      assert st != [] && st[0] == s[0] && st[1..] == s[1..] + t;
      calc {
        WithPrice(st, p);
        AtPrice(s[0], p) + WithPrice(s[1..] + t, p);
        { WithPriceAppend(s[1..], t, p); }
        AtPrice(s[0], p) + (WithPrice(s[1..], p) + WithPrice(t, p));
        WithPrice(s, p) + WithPrice(t, p);
      }
    }
  }

  /** A single offer forms its own group, or none. */
  lemma WithPriceSingle(x: SellerOffer, p: Money)
    ensures WithPrice([x], p) == AtPrice(x, p)
  {
    assert [x][1..] == [];
  }

  lemma {:induction false} InsertLength(s: seq<SellerOffer>, x: SellerOffer)
    ensures |Insert(s, x)| == |s| + 1
  {
    if s != [] && s[|s| - 1].price > x.price {
      InsertLength(s[..|s| - 1], x);
    }
  }

  lemma {:induction false} InsertPermutes(s: seq<SellerOffer>, x: SellerOffer)
    ensures multiset(Insert(s, x)) == multiset(s) + multiset{x}
  {
    if s != [] && s[|s| - 1].price > x.price {
      InsertPermutes(s[..|s| - 1], x);
      assert s == s[..|s| - 1] + [s[|s| - 1]];
    }
  }

  /** Every offer placed after `x` by Insert is dearer than `x`; the ones
      before it come from `s` unchanged. */
  lemma {:induction false} InsertSorted(s: seq<SellerOffer>, x: SellerOffer)
    requires SortedByPrice(s)
    ensures SortedByPrice(Insert(s, x))
  {
    if s != [] && s[|s| - 1].price > x.price {
      var init := s[..|s| - 1];
      InsertSorted(init, x);
      InsertPermutes(init, x);
      InsertLength(init, x);
      var r := Insert(init, x);
      forall i | 0 <= i < |r| ensures r[i].price <= s[|s| - 1].price {
        assert r[i] in multiset(r);
        assert r[i] in multiset(init) + multiset{x};
        if r[i] != x {
          assert r[i] in init;
        }
      }
    }
  }

  /** Insert keeps each price group of a sorted sequence and adds `x` at the
      end of its own group. */
  lemma {:induction false} InsertGroups(s: seq<SellerOffer>, x: SellerOffer, p: Money)
    requires SortedByPrice(s)
    ensures WithPrice(Insert(s, x), p) == WithPrice(s, p) + AtPrice(x, p)
  {
    var n := |s|;
    if s == [] {
      WithPriceSingle(x, p);
    } else if s[n - 1].price <= x.price {
      WithPriceAppend(s, [x], p);
      WithPriceSingle(x, p);
    } else {
      var init, last := s[..n - 1], s[n - 1];
      assert s == init + [last];
      assert SortedByPrice(init);
      // x is strictly cheaper than last, so at most one of them has price p
      assert AtPrice(x, p) == [] || AtPrice(last, p) == [];
      calc {
        WithPrice(Insert(s, x), p);
        WithPrice(Insert(init, x) + [last], p);
        { WithPriceAppend(Insert(init, x), [last], p); WithPriceSingle(last, p); }
        WithPrice(Insert(init, x), p) + AtPrice(last, p);
        { InsertGroups(init, x, p); }
        WithPrice(init, p) + AtPrice(x, p) + AtPrice(last, p);
        WithPrice(init, p) + AtPrice(last, p) + AtPrice(x, p);
        { WithPriceAppend(init, [last], p); WithPriceSingle(last, p); }
        WithPrice(s, p) + AtPrice(x, p);
      }
    }
  }

  /** StableSort yields as many offers as it is given, in non-decreasing price. */
  lemma {:induction false} StableSortSorted(s: seq<SellerOffer>)
    ensures |StableSort(s)| == |s|
    ensures SortedByPrice(StableSort(s))
  {
    if s != [] {
      StableSortSorted(s[..|s| - 1]);
      InsertLength(StableSort(s[..|s| - 1]), s[|s| - 1]);
      InsertSorted(StableSort(s[..|s| - 1]), s[|s| - 1]);
    }
  }

  /** StableSort is a permutation of its input. */
  lemma {:induction false} StableSortPermutes(s: seq<SellerOffer>)
    ensures multiset(StableSort(s)) == multiset(s)
  {
    if s != [] {
      StableSortPermutes(s[..|s| - 1]);
      InsertPermutes(StableSort(s[..|s| - 1]), s[|s| - 1]);
      assert s == s[..|s| - 1] + [s[|s| - 1]];
    }
  }

  /** StableSort is stable: offers of equal price keep their relative order. */
  lemma {:induction false} StableSortIsStable(s: seq<SellerOffer>, p: Money)
    ensures WithPrice(StableSort(s), p) == WithPrice(s, p)
  {
    if s != [] {
      var init, last := s[..|s| - 1], s[|s| - 1];
      StableSortIsStable(init, p);
      StableSortSorted(init);
      InsertGroups(StableSort(init), last, p);
      assert s == init + [last];
      WithPriceAppend(init, [last], p);
      WithPriceSingle(last, p);
    }
  }

  /** Every member of a price group is an offer of `s` with that price. */
  lemma {:induction false} GroupMember(s: seq<SellerOffer>, p: Money, x: SellerOffer)
    requires x in WithPrice(s, p)
    ensures x in s && x.price == p
  {
    if s != [] {
      if x in AtPrice(s[0], p) {
      } else {
        GroupMember(s[1..], p, x);
      }
    }
  }

  /** Splitting off the last offer of a sequence splits its price groups. */
  lemma LastGroup(s: seq<SellerOffer>, p: Money)
    requires s != []
    ensures WithPrice(s, p) == WithPrice(s[..|s| - 1], p) + AtPrice(s[|s| - 1], p)
  {
    assert s == s[..|s| - 1] + [s[|s| - 1]];
    WithPriceAppend(s[..|s| - 1], [s[|s| - 1]], p);
    WithPriceSingle(s[|s| - 1], p);
  }

  /** The group of a non-empty sequence at its last offer's price ends with
      that offer. */
  lemma GroupEnd(s: seq<SellerOffer>)
    requires s != []
    ensures WithPrice(s, s[|s| - 1].price) != []
    ensures WithPrice(s, s[|s| - 1].price)[|WithPrice(s, s[|s| - 1].price)| - 1] == s[|s| - 1]
  {
    LastGroup(s, s[|s| - 1].price);
  }

  /** An offer of a sequence sorted by price costs at most its last offer. */
  lemma AtMostLast(s: seq<SellerOffer>, x: SellerOffer)
    requires SortedByPrice(s) && x in s
    ensures x.price <= s[|s| - 1].price
  {
    var i :| 0 <= i < |s| && s[i] == x;
  }

  /** The last offer of `t` is in `u` when their groups at its price agree;
      if `u` is sorted, it then costs at most the last offer of `u`. */
  lemma LastBelowLast(t: seq<SellerOffer>, u: seq<SellerOffer>)
    requires t != [] && u != [] && SortedByPrice(u)
    requires WithPrice(t, t[|t| - 1].price) == WithPrice(u, t[|t| - 1].price)
    ensures t[|t| - 1].price <= u[|u| - 1].price
  {
    GroupEnd(t);
    var g := WithPrice(t, t[|t| - 1].price);
    assert g[|g| - 1] in g;
    GroupMember(u, t[|t| - 1].price, t[|t| - 1]);
    AtMostLast(u, t[|t| - 1]);
  }

  /** Two non-empty sequences sorted by price whose groups agree at the
      prices of both last offers end with the same offer. */
  lemma LastsAgree(t: seq<SellerOffer>, u: seq<SellerOffer>)
    requires t != [] && u != []
    requires SortedByPrice(t) && SortedByPrice(u)
    requires WithPrice(t, t[|t| - 1].price) == WithPrice(u, t[|t| - 1].price)
    requires WithPrice(t, u[|u| - 1].price) == WithPrice(u, u[|u| - 1].price)
    ensures t[|t| - 1] == u[|u| - 1]
  {
    // neither last offer is cheaper than the other, so both end one group
    LastBelowLast(t, u);
    LastBelowLast(u, t);
    GroupEnd(t);
    GroupEnd(u);
  }

  /** Dropping the same last offer from two sequences with the same group at
      price `p` leaves them with the same group at `p`. */
  lemma PrefixGroup(t: seq<SellerOffer>, u: seq<SellerOffer>, p: Money)
    requires t != [] && u != [] && t[|t| - 1] == u[|u| - 1]
    requires WithPrice(t, p) == WithPrice(u, p)
    ensures WithPrice(t[..|t| - 1], p) == WithPrice(u[..|u| - 1], p)
  {
    LastGroup(t, p);
    LastGroup(u, p);
    var x, y, z := WithPrice(t[..|t| - 1], p), WithPrice(u[..|u| - 1], p), AtPrice(t[|t| - 1], p);
    assert x == (x + z)[..|x|] == (y + z)[..|y|] == y;
  }

  /** The same offers at every price, in the same order. */
  ghost predicate SameGroups(t: seq<SellerOffer>, u: seq<SellerOffer>)
  {
    forall p :: WithPrice(t, p) == WithPrice(u, p)
  }

  /** Without their common last offer, two sequences keep the same groups and
      stay sorted. */
  lemma DropLast(t: seq<SellerOffer>, u: seq<SellerOffer>)
    requires t != [] && u != [] && t[|t| - 1] == u[|u| - 1]
    requires SortedByPrice(t) && SortedByPrice(u) && SameGroups(t, u)
    ensures SortedByPrice(t[..|t| - 1]) && SortedByPrice(u[..|u| - 1])
    ensures SameGroups(t[..|t| - 1], u[..|u| - 1])
  {
    var t', u' := t[..|t| - 1], u[..|u| - 1];
    forall p ensures WithPrice(t', p) == WithPrice(u', p) {
      PrefixGroup(t, u, p);
    }
  }

  /** A non-empty sequence has no price groups in common with the empty one. */
  lemma EmptyGroupsDiffer(t: seq<SellerOffer>, u: seq<SellerOffer>)
    requires t == [] && u != []
    ensures !SameGroups(t, u) && !SameGroups(u, t)
  {
    GroupEnd(u);
    assert WithPrice(t, u[|u| - 1].price) == [];
  }

  /** Two non-empty sorted sequences with the same groups end with the same
      offer, and agree on the rest as well. */
  lemma SameGroupsStep(t: seq<SellerOffer>, u: seq<SellerOffer>)
    requires t != [] && u != []
    requires SortedByPrice(t) && SortedByPrice(u) && SameGroups(t, u)
    ensures t[|t| - 1] == u[|u| - 1]
    ensures SortedByPrice(t[..|t| - 1]) && SortedByPrice(u[..|u| - 1])
    ensures SameGroups(t[..|t| - 1], u[..|u| - 1])
  {
    assert WithPrice(t, t[|t| - 1].price) == WithPrice(u, t[|t| - 1].price);
    assert WithPrice(t, u[|u| - 1].price) == WithPrice(u, u[|u| - 1].price);
    LastsAgree(t, u);
    DropLast(t, u);
  }

  /** Two sequences sorted by price with the same price groups are equal:
      sortedness and stability together fix the result of a stable sort. */
  lemma {:induction false} SortedGroupsDetermine(t: seq<SellerOffer>, u: seq<SellerOffer>)
    requires SortedByPrice(t) && SortedByPrice(u)
    requires SameGroups(t, u)
    ensures t == u
  {
    if t == [] && u != [] {
      EmptyGroupsDiffer(t, u);
    } else if t != [] && u == [] {
      EmptyGroupsDiffer(u, t);
    } else if t != [] {
      SameGroupsStep(t, u);
      SortedGroupsDetermine(t[..|t| - 1], u[..|u| - 1]);
      assert t == t[..|t| - 1] + [t[|t| - 1]] && u == u[..|u| - 1] + [u[|u| - 1]];
    }
  }

  /** Any ordering of `s` that is sorted by price and stable is StableSort(s). */
  lemma StableSortUnique(s: seq<SellerOffer>, t: seq<SellerOffer>)
    requires SortedByPrice(t)
    requires forall p :: WithPrice(t, p) == WithPrice(s, p)
    ensures t == StableSort(s)
  {
    StableSortSorted(s);
    forall p ensures WithPrice(t, p) == WithPrice(StableSort(s), p) {
      StableSortIsStable(s, p);
    }
    SortedGroupsDetermine(t, StableSort(s));
  }

  /** The group of price p begins with the first offer of price p. */
  lemma {:induction false} WithPriceHead(s: seq<SellerOffer>, k: nat, p: Money)
    requires k < |s| && s[k].price == p
    requires forall i :: 0 <= i < k ==> s[i].price != p
    ensures WithPrice(s, p) != [] && WithPrice(s, p)[0] == s[k]
  {
    if k > 0 {
      WithPriceHead(s[1..], k - 1, p);
    }
  }

  /** The head of the stably sorted queue is the cheapest offer, and among
      the cheapest the one that came first. */
  lemma StableSortHead(s: seq<SellerOffer>)
    requires s != []
    ensures StableSort(s) != [] && StableSort(s)[0] == s[FirstCheapest(s)]
  {
    var r := StableSort(s);
    var k := FirstCheapest(s);
    var m := s[k].price;
    StableSortSorted(s);
    StableSortPermutes(s);
    // r[0] is one of s's offers, so it is at least as dear as s[k]
    assert r[0] in multiset(s);
    assert r[0].price >= m;
    // s[k] is somewhere in r, and r is sorted, so r[0] is at most as dear
    assert s[k] in multiset(r);
    assert r[0].price == m;
    WithPriceHead(r, 0, m);
    WithPriceHead(s, k, m);
    StableSortIsStable(s, m);
  }

  lemma {:induction false} DistinctCount(s: seq<SellerOffer>, x: SellerOffer)
    requires Distinct(s)
    ensures multiset(s)[x] <= 1
  {
    if s != [] {
      var init := s[..|s| - 1];
      assert s == init + [s[|s| - 1]];
      DistinctCount(init, x);
      if s[|s| - 1] == x {
        assert x !in init;
      }
    }
  }

  /** A sequence in which no offer occurs twice (by count) is Distinct. */
  lemma CountDistinct(t: seq<SellerOffer>)
    requires forall x :: multiset(t)[x] <= 1
    ensures Distinct(t)
  {
    forall i, j | 0 <= i < j < |t| ensures t[i] != t[j] {
      assert t == t[..j] + t[j..];
      assert t[i] in t[..j];
      assert t[j] in t[j..];
      assert multiset(t)[t[j]] == multiset(t[..j])[t[j]] + multiset(t[j..])[t[j]];
    }
  }

  /** Once the head of the sorted queue is taken off, the rest is the input
      less that one offer, still in non-decreasing price. */
  lemma StableSortRest(s: seq<SellerOffer>)
    requires s != []
    ensures |StableSort(s)| == |s|
    ensures multiset(StableSort(s)[1..]) == multiset(s) - multiset{StableSort(s)[0]}
    ensures SortedByPrice(StableSort(s)[1..])
  {
    var r := StableSort(s);
    StableSortSorted(s);
    StableSortPermutes(s);
    assert r == [r[0]] + r[1..];
    assert multiset(r) == multiset{r[0]} + multiset(r[1..]);
    SortedTail(r);
  }

  /** Taking the head off the stably sorted queue takes the first offer off
      the head's price group and leaves every other price group as it was
      in the queue. */
  lemma StableSortRestGroups(s: seq<SellerOffer>, p: Money)
    requires s != []
    ensures |StableSort(s)| == |s|
    ensures p == StableSort(s)[0].price ==> WithPrice(s, p) != []
    ensures WithPrice(StableSort(s)[1..], p) ==
      if p == StableSort(s)[0].price then WithPrice(s, p)[1..] else WithPrice(s, p)
  {
    var r := StableSort(s);
    StableSortSorted(s);
    StableSortIsStable(s, p);
    assert WithPrice(r, p) == AtPrice(r[0], p) + WithPrice(r[1..], p);
  }

  /** Dropping the head keeps a sequence sorted. */
  lemma SortedTail(r: seq<SellerOffer>)
    requires r != [] && SortedByPrice(r)
    ensures SortedByPrice(r[1..])
  {
    forall i, j | 0 <= i < j < |r| - 1 ensures r[1..][i].price <= r[1..][j].price {
      assert r[1..][i] == r[i + 1] && r[1..][j] == r[j + 1];
    }
  }

  /** When no offer was queued twice, the head of the sorted queue is no
      longer pending once it is taken off, and the rest has no repetition. */
  lemma StableSortRestDistinct(s: seq<SellerOffer>)
    requires s != [] && Distinct(s)
    ensures |StableSort(s)| == |s|
    ensures StableSort(s)[0] !in StableSort(s)[1..]
    ensures Distinct(StableSort(s)[1..])
  {
    var r := StableSort(s);
    StableSortRest(s);
    forall x ensures multiset(r[1..])[x] <= 1 {
      DistinctCount(s, x);
    }
    DistinctCount(s, r[0]);
    assert r[0] !in multiset(r[1..]);
    CountDistinct(r[1..]);
  }

  /** Go's insertion sort over the ByOfferPrice interface: each offer in turn
      is swapped down past the dearer offers before it. */
  method InsertionSort(a: array<SellerOffer>)
    modifies a
    ensures a[..] == StableSort(old(a[..]))
  {
    ghost var input := a[..];
    var i := 0;
    while i < Len(a)
      invariant 0 <= i <= a.Length
      invariant a[..i] == StableSort(input[..i])
      invariant a[i..] == input[i..]
    {
      InsertDown(a, i);
      assert input[..i + 1][..i] == input[..i];
      i := i + 1;
    }
    assert input[..a.Length] == input;
  }

  /** One step of the inner loop: moving `x` past a dearer offer. */
  lemma InsertStep(prefix: seq<SellerOffer>, j: int, x: SellerOffer)
    requires 0 < j <= |prefix| && x.price < prefix[j - 1].price
    ensures Insert(prefix[..j], x) + prefix[j..] == Insert(prefix[..j - 1], x) + prefix[j - 1..]
  {
    assert prefix[..j][..j - 1] == prefix[..j - 1];
    assert prefix[j - 1..] == [prefix[j - 1]] + prefix[j..];
  }

  /** Where the inner loop stops: `x` goes right after the prefix. */
  lemma InsertStop(prefix: seq<SellerOffer>, j: int, x: SellerOffer)
    requires 0 <= j <= |prefix|
    requires j == 0 || prefix[j - 1].price <= x.price
    ensures Insert(prefix[..j], x) == prefix[..j] + [x]
  {
  }

  /** The inner loop of insertion sort: moves a[i] down into the sorted
      prefix a[..i], past every strictly dearer offer. */
  method InsertDown(a: array<SellerOffer>, i: int)
    requires 0 <= i < a.Length
    modifies a
    ensures a[..i + 1] == Insert(old(a[..i]), old(a[i]))
    ensures a[i + 1..] == old(a[i + 1..])
  {
    ghost var prefix, x := a[..i], a[i];
    var j := i;
    assert prefix[..j] == prefix && prefix[j..] == [];
    while j > 0 && Less(a, j, j - 1)
      invariant 0 <= j <= i
      invariant forall k :: 0 <= k < j ==> a[k] == prefix[k]
      invariant a[j] == x
      invariant forall k :: j < k <= i ==> a[k] == prefix[k - 1]
      invariant forall k :: i < k < a.Length ==> a[k] == old(a[k])
      invariant Insert(prefix, x) == Insert(prefix[..j], x) + prefix[j..]
    {
      InsertStep(prefix, j, x);
      Swap(a, j, j - 1);
      j := j - 1;
    }
    InsertStop(prefix, j, x);
    assert a[..i + 1] == prefix[..j] + [x] + prefix[j..];
  }
}
