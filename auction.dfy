/**
 The auction state service as values: the three pieces of state the server owns
 (registered users, products by id, the history of accepted bids), the three
 operations that change them, and what holds over any sequence of those
 operations. The class in `AuctionServer` is proved to perform exactly `Step`.
 */
module Auction {

  /** A product offered for sale; after creation only `currentPrice` changes. */
  datatype Product = Product(id: string, name: string, initialPrice: real, currentPrice: real, seller: string)

  /** An accepted bid, as recorded in the history. */
  datatype Bid = Bid(bidder: string, productId: string, amount: real)

  /** One entry of the listing that GetProducts returns. */
  datatype ProductInfo = ProductInfo(id: string, name: string, initialPrice: real, currentPrice: real, seller: string)

  /** The whole state: nickname to nickname, id to product, and the bid history. */
  datatype Market = Market(users: map<string, string>, products: map<string, Product>, bids: seq<Bid>)

  /** The state of a freshly started server. */
  const Empty: Market := Market(map[], map[], [])

  /** The state-changing requests. For AddProduct, `id` is the value the server's
      id generator produced for this call. */
  datatype Op =
    | RegisterUser(nickname: string)
    | AddProduct(id: string, name: string, initialPrice: real, seller: string)
    | PlaceBid(productId: string, bidder: string, amount: real)

  /** The `success` flag the server answers with, judged on the state before the
      call. A refused request leaves the state as it was; an accepted registration
      adds exactly one user, and an accepted bid raises the price to its amount
      and appends exactly its record. */
  function Accepts(m: Market, op: Op): (ok: bool)
    ensures !ok ==> Step(m, op) == m
    ensures ok && op.RegisterUser? ==> Step(m, op).users.Keys == m.users.Keys + {op.nickname}
                                       && |Step(m, op).users| == |m.users| + 1
    ensures ok && op.PlaceBid? ==> && op.productId in m.products
                                   && Step(m, op).products[op.productId].currentPrice == op.amount
                                   && op.amount > m.products[op.productId].currentPrice
                                   && Step(m, op).bids == m.bids + [Bid(op.bidder, op.productId, op.amount)]
  {
    match op
    case RegisterUser(nickname) => nickname !in m.users
    case AddProduct(_, _, _, _) => true
    case PlaceBid(id, _, amount) => id in m.products && amount > m.products[id].currentPrice
  }

  /** The effect of one request, each handler being one atomic step. */
  function Step(m: Market, op: Op): (r: Market)
    ensures m.users.Keys <= r.users.Keys && m.products.Keys <= r.products.Keys
    ensures m.bids <= r.bids
  {
    match op
    case RegisterUser(nickname) =>
      if nickname in m.users then m
      else m.(users := m.users[nickname := nickname])
    case AddProduct(id, name, price, seller) =>
      m.(products := m.products[id := Product(id, name, price, price, seller)])
    case PlaceBid(id, bidder, amount) =>
      if id !in m.products || amount <= m.products[id].currentPrice then m
      else m.(products := m.products[id := m.products[id].(currentPrice := amount)],
              bids := m.bids + [Bid(bidder, id, amount)])
  }

  /** The effect of a sequence of requests served one after the other. */
  function Run(m: Market, ops: seq<Op>): (r: Market)
    ensures m.users.Keys <= r.users.Keys && m.products.Keys <= r.products.Keys
    ensures m.bids <= r.bids
    decreases |ops|
  {
    if ops == [] then m else Run(Step(m, ops[0]), ops[1..])
  }

  /** Every AddProduct in `ops` uses an id that is not yet stored when it is served. */
  predicate FreshAdds(m: Market, ops: seq<Op>)
    decreases |ops|
  {
    ops == [] || ((ops[0].AddProduct? ==> ops[0].id !in m.products) && FreshAdds(Step(m, ops[0]), ops[1..]))
  }

  // ---------------------------------------------------------------------------
  // Invariants

  /** The shape every reachable state has, whatever ids AddProduct is given. */
  ghost predicate WellFormed(m: Market)
  {
    && (forall n :: n in m.users ==> m.users[n] == n)
    && (forall id :: id in m.products ==> m.products[id].id == id)
    && (forall id :: id in m.products ==> m.products[id].currentPrice >= m.products[id].initialPrice)
    && (forall i :: 0 <= i < |m.bids| ==> m.bids[i].productId in m.products)
  }

  /** The price the bid history gives a product: the amount of the last bid on `id`,
      or `initial` when there is none. */
  function HistoryPrice(bids: seq<Bid>, id: string, initial: real): (r: real)
    ensures r == initial || exists i :: 0 <= i < |bids| && bids[i].productId == id && bids[i].amount == r
    decreases |bids|
  {
    if bids == [] then initial
    else if bids[|bids| - 1].productId == id then bids[|bids| - 1].amount
    else HistoryPrice(bids[..|bids| - 1], id, initial)
  }

  /** Bids on the same product are recorded in strictly increasing order of amount. */
  ghost predicate BidsIncreasing(bids: seq<Bid>)
  {
    forall i, j :: 0 <= i < j < |bids| && bids[i].productId == bids[j].productId ==> bids[i].amount < bids[j].amount
  }

  /** The state agrees with its own history: each product's current price is the
      price its bids give it, the history is increasing per product, and every
      recorded bid is above its product's initial price. */
  ghost predicate Consistent(m: Market)
  {
    && WellFormed(m)
    && BidsIncreasing(m.bids)
    && (forall i :: 0 <= i < |m.bids| ==> m.bids[i].amount > m.products[m.bids[i].productId].initialPrice)
    && forall id :: id in m.products ==> m.products[id].currentPrice == HistoryPrice(m.bids, id, m.products[id].initialPrice)
  }

  /** `q` is a later version of product `p`: only the price moved, and not down. */
  ghost predicate Evolves(p: Product, q: Product)
  {
    q.id == p.id && q.name == p.name && q.initialPrice == p.initialPrice && q.seller == p.seller
    && q.currentPrice >= p.currentPrice
  }

  ghost predicate ProductsEvolve(before: map<string, Product>, after: map<string, Product>)
  {
    forall id :: id in before ==> id in after && Evolves(before[id], after[id])
  }

  lemma StepPreservesWellFormed(m: Market, op: Op)
    requires WellFormed(m)
    ensures WellFormed(Step(m, op))
  {
  }

  lemma {:induction false} RunPreservesWellFormed(m: Market, ops: seq<Op>)
    requires WellFormed(m)
    ensures WellFormed(Run(m, ops))
    decreases |ops|
  {
    if ops != [] {
      StepPreservesWellFormed(m, ops[0]);
      RunPreservesWellFormed(Step(m, ops[0]), ops[1..]);
    }
  }

  lemma EmptyIsConsistent()
    ensures Consistent(Empty)
  {
  }

  // ---------------------------------------------------------------------------
  // The bid history and the price it determines

  lemma HistoryPriceWithoutBids(bids: seq<Bid>, id: string, initial: real)
    requires forall i :: 0 <= i < |bids| ==> bids[i].productId != id
    ensures HistoryPrice(bids, id, initial) == initial
    decreases |bids|
  {
  }

  lemma HistoryPriceAppend(bids: seq<Bid>, b: Bid, id: string, initial: real)
    ensures HistoryPrice(bids + [b], id, initial)
         == if b.productId == id then b.amount else HistoryPrice(bids, id, initial)
  {
  }

  /** When the history holds a bid on `id`, the history price is the amount of one of them. */
  lemma {:induction false} HistoryPriceIsSomeBid(bids: seq<Bid>, id: string, initial: real, k: nat)
    requires k < |bids| && bids[k].productId == id
    ensures exists i :: 0 <= i < |bids| && bids[i].productId == id && bids[i].amount == HistoryPrice(bids, id, initial)
    decreases |bids|
  {
    var n := |bids| - 1;
    if bids[n].productId != id {
      var front := bids[..n];
      assert front[k] == bids[k];
      HistoryPriceIsSomeBid(front, id, initial, k);
      var i :| 0 <= i < |front| && front[i].productId == id && front[i].amount == HistoryPrice(front, id, initial);
      assert bids[i] == front[i];
    }
  }

  /** In an increasing history the last bid on a product is its highest. */
  lemma {:induction false} HistoryPriceIsHighest(bids: seq<Bid>, id: string, initial: real)
    requires BidsIncreasing(bids)
    ensures forall i :: 0 <= i < |bids| && bids[i].productId == id ==> bids[i].amount <= HistoryPrice(bids, id, initial)
    decreases |bids|
  {
    if bids != [] {
      var n := |bids| - 1;
      var front := bids[..n];
      assert forall i :: 0 <= i < |front| ==> front[i] == bids[i];
      assert BidsIncreasing(front);
      HistoryPriceIsHighest(front, id, initial);
    }
  }

  /** A fresh product starts with no bids, so its history price is its initial price. */
  lemma AddPreservesConsistent(m: Market, id: string, name: string, price: real, seller: string)
    requires Consistent(m) && id !in m.products
    ensures Consistent(Step(m, AddProduct(id, name, price, seller)))
  {
    StepPreservesWellFormed(m, AddProduct(id, name, price, seller));
    HistoryPriceWithoutBids(m.bids, id, price);
  }

  /** Appending a bid above every earlier bid on its product keeps the history increasing. */
  lemma IncreasingAppend(bids: seq<Bid>, b: Bid)
    requires BidsIncreasing(bids)
    requires forall i :: 0 <= i < |bids| && bids[i].productId == b.productId ==> bids[i].amount < b.amount
    ensures BidsIncreasing(bids + [b])
  {
    var next := bids + [b];
    forall i, j | 0 <= i < j < |next| && next[i].productId == next[j].productId
      ensures next[i].amount < next[j].amount
    {
      assert next[i] == bids[i];
      if j < |bids| {
        assert next[j] == bids[j];
      }
    }
  }

  /** Recording bid `b` and raising its product's price to `b.amount` keeps every
      price equal to its history price. */
  lemma AppendKeepsPrices(products: map<string, Product>, bids: seq<Bid>, b: Bid)
    requires forall k :: k in products ==> products[k].currentPrice == HistoryPrice(bids, k, products[k].initialPrice)
    requires b.productId in products
    ensures var raised := products[b.productId := products[b.productId].(currentPrice := b.amount)];
            forall k :: k in raised ==> raised[k].currentPrice == HistoryPrice(bids + [b], k, raised[k].initialPrice)
  {
    var raised := products[b.productId := products[b.productId].(currentPrice := b.amount)];
    forall k | k in raised
      ensures raised[k].currentPrice == HistoryPrice(bids + [b], k, raised[k].initialPrice)
    {
      HistoryPriceAppend(bids, b, k, raised[k].initialPrice);
    }
  }

  /** Recording a bid above its product's initial price keeps every recorded bid
      above its product's initial price; raising a price leaves initial prices alone. */
  lemma AppendKeepsAboveInitial(products: map<string, Product>, bids: seq<Bid>, b: Bid)
    requires forall i :: 0 <= i < |bids| ==> bids[i].productId in products
    requires forall i :: 0 <= i < |bids| ==> bids[i].amount > products[bids[i].productId].initialPrice
    requires b.productId in products && b.amount > products[b.productId].initialPrice
    ensures var raised := products[b.productId := products[b.productId].(currentPrice := b.amount)];
            var next := bids + [b];
            forall i :: 0 <= i < |next| ==> next[i].amount > raised[next[i].productId].initialPrice
  {
    var next := bids + [b];
    assert forall i :: 0 <= i < |bids| ==> next[i] == bids[i];
  }

  /** An accepted bid is above every earlier bid on its product and becomes the
      product's history price, leaving the other products' history prices alone. */
  lemma BidPreservesConsistent(m: Market, id: string, bidder: string, amount: real)
    requires Consistent(m)
    ensures Consistent(Step(m, PlaceBid(id, bidder, amount)))
  {
    StepPreservesWellFormed(m, PlaceBid(id, bidder, amount));
    if id in m.products && amount > m.products[id].currentPrice {
      var b := Bid(bidder, id, amount);
      HistoryPriceIsHighest(m.bids, id, m.products[id].initialPrice);
      IncreasingAppend(m.bids, b);
      AppendKeepsPrices(m.products, m.bids, b);
      AppendKeepsAboveInitial(m.products, m.bids, b);
    }
  }

  /** Every request keeps the state consistent with its history, provided an
      AddProduct is not given an id that is already stored. */
  lemma StepPreservesConsistent(m: Market, op: Op)
    requires Consistent(m)
    requires op.AddProduct? ==> op.id !in m.products
    ensures Consistent(Step(m, op))
  {
    match op
    case RegisterUser(_) =>
      StepPreservesWellFormed(m, op);
    case AddProduct(id, name, price, seller) =>
      AddPreservesConsistent(m, id, name, price, seller);
    case PlaceBid(id, bidder, amount) =>
      BidPreservesConsistent(m, id, bidder, amount);
  }

  /** A product's two phases in a consistent state: it has a recorded bid exactly
      when its current price is above its initial price. */
  lemma BidOnProductIffPriceRaised(m: Market, id: string)
    requires Consistent(m) && id in m.products
    ensures (exists i :: 0 <= i < |m.bids| && m.bids[i].productId == id)
            <==> m.products[id].currentPrice > m.products[id].initialPrice
  {
    var p := m.products[id];
    if k :| 0 <= k < |m.bids| && m.bids[k].productId == id {
      HistoryPriceIsSomeBid(m.bids, id, p.initialPrice, k);
    }
  }

  /** Over any sequence of requests with fresh product ids, every stored product's
      current price is the amount of its last recorded bid, or its initial price. */
  lemma {:induction false} RunPreservesConsistent(m: Market, ops: seq<Op>)
    requires Consistent(m)
    requires FreshAdds(m, ops)
    ensures Consistent(Run(m, ops))
    decreases |ops|
  {
    if ops != [] {
      StepPreservesConsistent(m, ops[0]);
      RunPreservesConsistent(Step(m, ops[0]), ops[1..]);
    }
  }

  // ---------------------------------------------------------------------------
  // With fresh product ids, prices never go down and change only through an
  // accepted, higher bid

  lemma StepNeverLowersPrice(m: Market, op: Op)
    requires op.AddProduct? ==> op.id !in m.products
    ensures ProductsEvolve(m.products, Step(m, op).products)
  {
  }

  /** A stored product's price changes in one step only by an accepted bid on it,
      which sets the price to the (higher) bid amount and records that bid. */
  lemma StepPriceChangeIsBid(m: Market, op: Op, id: string)
    requires id in m.products
    requires op.AddProduct? ==> op.id != id
    requires Step(m, op).products[id].currentPrice != m.products[id].currentPrice
    ensures op.PlaceBid? && op.productId == id && Accepts(m, op)
    ensures Step(m, op).products[id].currentPrice == op.amount > m.products[id].currentPrice
    ensures Step(m, op).bids == m.bids + [Bid(op.bidder, id, op.amount)]
  {
  }

  /** Over any sequence of requests with fresh product ids, no stored product is
      lost, none of its fixed fields changes and its price never decreases. */
  lemma {:induction false} RunNeverLowersPrice(m: Market, ops: seq<Op>)
    requires FreshAdds(m, ops)
    ensures ProductsEvolve(m.products, Run(m, ops).products)
    decreases |ops|
  {
    if ops != [] {
      var next := Step(m, ops[0]);
      StepNeverLowersPrice(m, ops[0]);
      RunNeverLowersPrice(next, ops[1..]);
    }
  }

  /** Without the fresh-id condition the price CAN go down: an AddProduct whose
      generated id collides with a stored product replaces it, bids and all. */
  lemma CollidingAddResetsPrice()
    ensures var m := Market(map[], map["P" := Product("P", "Vase", 10.0, 15.0, "alice")], [Bid("bob", "P", 15.0)]);
            var r := Step(m, AddProduct("P", "Lamp", 5.0, "carol"));
            Consistent(m) && r.products["P"].currentPrice == 5.0 < m.products["P"].currentPrice && !Consistent(r)
  {
  }

  // ---------------------------------------------------------------------------
  // The bid history is append-only and records exactly the accepted bids

  /** The record one request adds to the history: its bid if it is an accepted
      PlaceBid, nothing otherwise. */
  function RecordOf(m: Market, op: Op): (r: seq<Bid>)
    ensures Step(m, op).bids == m.bids + r
    ensures |r| <= 1
  {
    if op.PlaceBid? && Accepts(m, op) then [Bid(op.bidder, op.productId, op.amount)] else []
  }

  /** The bids the accepted PlaceBid requests of `ops` record, in order. */
  function AcceptedBids(m: Market, ops: seq<Op>): (r: seq<Bid>)
    ensures |r| <= |ops|
    decreases |ops|
  {
    if ops == [] then [] else RecordOf(m, ops[0]) + AcceptedBids(Step(m, ops[0]), ops[1..])
  }

  /** Running requests only ever appends to the history, and what it appends is
      one record per accepted bid, in the order the bids were served. */
  lemma {:induction false} RunBidLog(m: Market, ops: seq<Op>)
    ensures Run(m, ops).bids == m.bids + AcceptedBids(m, ops)
    decreases |ops|
  {
    if ops != [] {
      var next := Step(m, ops[0]);
      RunBidLog(next, ops[1..]);
      var here, rest := RecordOf(m, ops[0]), AcceptedBids(next, ops[1..]);
      assert Run(m, ops) == Run(next, ops[1..]);
      assert AcceptedBids(m, ops) == here + rest;
      assert next.bids == m.bids + here;
      assert m.bids + here + rest == m.bids + (here + rest);
    }
  }

  // ---------------------------------------------------------------------------
  // Users

  /** Registering a nickname twice: the second attempt is rejected and changes nothing. */
  lemma {:induction false} RegisterTwiceRejected(m: Market, nickname: string)
    ensures var once := Step(m, RegisterUser(nickname));
            nickname in once.users && !Accepts(once, RegisterUser(nickname))
            && Run(m, [RegisterUser(nickname), RegisterUser(nickname)]) == once
  {
    var ops := [RegisterUser(nickname), RegisterUser(nickname)];
    var once := Step(m, RegisterUser(nickname));
    assert ops[1..] == [RegisterUser(nickname)];
    assert ops[1..][1..] == [];
    assert Run(once, ops[1..]) == Run(Step(once, RegisterUser(nickname)), []);
  }

  // ---------------------------------------------------------------------------
  // Two bids on one product, served in either order

  lemma RunPair(m: Market, first: Op, second: Op)
    ensures Run(m, [first, second]) == Step(Step(m, first), second)
  {
    var ops := [first, second];
    assert ops[1..] == [second] && ops[1..][1..] == [];
    var s1 := Step(m, first);
    assert Run(m, ops) == Run(s1, [second]);
    assert Run(s1, [second]) == Run(Step(s1, second), []);
  }

  function Max(a: real, b: real): (r: real)
    ensures r >= a && r >= b && (r == a || r == b)
  {
    if a < b then b else a
  }

  /** Whichever order the lock serves two bids with amounts a < b on one product,
      the final price is the same, the larger of b and the price before; when the
      higher bid is served first the lower one is rejected, so the history gains
      at most the record of the higher bid. */
  lemma {:induction false} SerialBidsAgree(m: Market, id: string, x: string, a: real, y: string, b: real)
    requires id in m.products && a < b
    ensures var ab := Run(m, [PlaceBid(id, x, a), PlaceBid(id, y, b)]);
            var ba := Run(m, [PlaceBid(id, y, b), PlaceBid(id, x, a)]);
            && ab.products[id].currentPrice == ba.products[id].currentPrice == Max(m.products[id].currentPrice, b)
            && ba.bids == m.bids + (if b > m.products[id].currentPrice then [Bid(y, id, b)] else [])
  {
    var opA, opB := PlaceBid(id, x, a), PlaceBid(id, y, b);
    RunPair(m, opA, opB);
    RunPair(m, opB, opA);
  }

  // ---------------------------------------------------------------------------
  // The product listing

  /** The listing entry for a product: it carries every field, so the product
      can be rebuilt from it. */
  function InfoOf(p: Product): (r: ProductInfo)
    ensures Product(r.id, r.name, r.initialPrice, r.currentPrice, r.seller) == p
  {
    ProductInfo(p.id, p.name, p.initialPrice, p.currentPrice, p.seller)
  }

  /** `infos` lists `products`: one entry per stored product, copied field by
      field, no duplicates and nothing else, in no particular order. */
  ghost predicate IsListingOf(infos: seq<ProductInfo>, products: map<string, Product>)
  {
    && |infos| == |products|
    && (forall i :: 0 <= i < |infos| ==> infos[i].id in products && infos[i] == InfoOf(products[infos[i].id]))
    && (forall i, j :: 0 <= i < j < |infos| ==> infos[i].id != infos[j].id)
    && (forall id :: id in products ==> exists i :: 0 <= i < |infos| && infos[i].id == id)
  }

  /** A listing under way: the products outside `rest` are listed so far, each
      once and copied exactly, and nothing else is. */
  ghost predicate ListedSoFar(infos: seq<ProductInfo>, products: map<string, Product>, rest: set<string>)
  {
    && |infos| + |rest| == |products|
    && (forall i :: 0 <= i < |infos| ==> infos[i].id in products && infos[i].id !in rest)
    && (forall i :: 0 <= i < |infos| ==> infos[i] == InfoOf(products[infos[i].id]))
    && (forall i, j :: 0 <= i < j < |infos| ==> infos[i].id != infos[j].id)
    && (forall id :: id in products && id !in rest ==> exists i :: 0 <= i < |infos| && infos[i].id == id)
  }

  /** Listing one more product keeps the listing under way correct. */
  lemma ListedOneMore(infos: seq<ProductInfo>, products: map<string, Product>, rest: set<string>, id: string)
    requires ListedSoFar(infos, products, rest) && rest <= products.Keys && id in rest
    requires forall k :: k in products ==> products[k].id == k
    ensures ListedSoFar(infos + [InfoOf(products[id])], products, rest - {id})
  {
    var next, left := infos + [InfoOf(products[id])], rest - {id};
    assert |left| == |rest| - 1;
    assert forall i :: 0 <= i < |infos| ==> next[i] == infos[i];
    assert next[|infos|].id == id;
    forall k | k in products && k !in left
      ensures exists i :: 0 <= i < |next| && next[i].id == k
    {
      if k != id {
        var i :| 0 <= i < |infos| && infos[i].id == k;
        assert next[i] == infos[i];
      }
    }
  }

  /** A listing under way with nothing left to list is a listing. */
  lemma ListedAll(infos: seq<ProductInfo>, products: map<string, Product>)
    requires ListedSoFar(infos, products, {})
    ensures IsListingOf(infos, products)
  {
  }

  lemma {:induction false} DistinctOccursOnce(s: seq<ProductInfo>)
    requires forall i, j :: 0 <= i < j < |s| ==> s[i].id != s[j].id
    ensures forall x :: multiset(s)[x] == if x in s then 1 else 0
  {
    if s != [] {
      var tail := s[1..];
      assert forall i :: 0 <= i < |tail| ==> tail[i] == s[i + 1];
      DistinctOccursOnce(tail);
      assert s == [s[0]] + tail;
      assert s[0] !in tail;
    }
  }

  lemma ListingEntriesIn(a: seq<ProductInfo>, b: seq<ProductInfo>, products: map<string, Product>)
    requires IsListingOf(a, products) && IsListingOf(b, products)
    ensures forall x :: x in a ==> x in b
  {
    forall x | x in a ensures x in b {
      var i :| 0 <= i < |a| && a[i] == x;
      var j :| 0 <= j < |b| && b[j].id == x.id;
      assert b[j] == x;
    }
  }

  /** Any two listings of the same products hold the same entries: they differ
      at most in order. */
  lemma ListingsArePermutations(a: seq<ProductInfo>, b: seq<ProductInfo>, products: map<string, Product>)
    requires IsListingOf(a, products) && IsListingOf(b, products)
    ensures multiset(a) == multiset(b)
  {
    DistinctOccursOnce(a);
    DistinctOccursOnce(b);
    ListingEntriesIn(a, b, products);
    ListingEntriesIn(b, a, products);
    assert forall x :: multiset(a)[x] == multiset(b)[x];
  }

  /** A listing shows a stored product exactly once, with its current fields. */
  lemma ListingShowsProductOnce(infos: seq<ProductInfo>, products: map<string, Product>, id: string)
    requires IsListingOf(infos, products) && id in products
    ensures exists i :: 0 <= i < |infos| && infos[i] == InfoOf(products[id])
                        && forall j :: 0 <= j < |infos| && infos[j].id == id ==> j == i
  {
  }
}
