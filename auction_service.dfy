/**
 The server object: the three fields the request handlers update in place, and
 one method per handler. Each handler runs as one critical section under the
 server's lock, so each method is one sequential, atomic transition; its
 contract states the new fields outright and ties them to `Auction.Step`.
 */
module AuctionServer {
  import opened Auction

  class AuctionService {
    /** Registered users, keyed and valued by nickname. */
    var users: map<string, string>
    /** Stored products by id. */
    var products: map<string, Product>
    /** Every accepted bid, in the order it was accepted. */
    var bids: seq<Bid>

    /** The value of the whole state. */
    ghost function State(): Market
      reads this
    {
      Market(users, products, bids)
    }

    ghost predicate Valid()
      reads this
    {
      WellFormed(State())
    }

    constructor ()
      ensures Valid() && State() == Empty && Consistent(State())
    {
      users, products, bids := map[], map[], [];
      EmptyIsConsistent();
    }

    /** Registers `nickname` unless it is already taken. */
    method RegisterUser(nickname: string) returns (success: bool)
      requires Valid()
      modifies this
      ensures Valid()
      ensures success <==> nickname !in old(users)
      ensures users == if success then old(users)[nickname := nickname] else old(users)
      ensures products == old(products) && bids == old(bids)
      ensures State() == Step(old(State()), Op.RegisterUser(nickname))
      ensures Consistent(old(State())) ==> Consistent(State())
    {
      ghost var before := State();
      if nickname !in users {
        users := users[nickname := nickname];
        success := true;
      } else {
        success := false;
      }
      StepPreservesWellFormed(before, Op.RegisterUser(nickname));
      if Consistent(before) {
        StepPreservesConsistent(before, Op.RegisterUser(nickname));
      }
    }

    /** Stores a new product under `id`, the value the id generator produced for
        this call; a stored product with the same id is replaced. */
    method AddProduct(id: string, name: string, initialPrice: real, seller: string)
      returns (success: bool, productId: string)
      requires Valid()
      modifies this
      ensures Valid()
      ensures success && productId == id
      ensures products == old(products)[id := Product(id, name, initialPrice, initialPrice, seller)]
      ensures products[id].currentPrice == products[id].initialPrice == initialPrice
      ensures id !in old(products) ==> |products| == |old(products)| + 1
      ensures users == old(users) && bids == old(bids)
      ensures State() == Step(old(State()), Op.AddProduct(id, name, initialPrice, seller))
      ensures id !in old(products) && Consistent(old(State())) ==> Consistent(State())
    {
      ghost var before := State();
      var product := Product(id, name, initialPrice, initialPrice, seller);
      products := products[id := product];
      success, productId := true, id;
      StepPreservesWellFormed(before, Op.AddProduct(id, name, initialPrice, seller));
      if id !in before.products && Consistent(before) {
        StepPreservesConsistent(before, Op.AddProduct(id, name, initialPrice, seller));
      }
    }

    /** Lists every stored product once, in an unspecified order; changes nothing. */
    method GetProducts() returns (infos: seq<ProductInfo>)
      requires Valid()
      ensures IsListingOf(infos, products)
    {
      var stored := products;
      infos := [];
      var rest := stored.Keys;
      while rest != {}
        invariant rest <= stored.Keys
        invariant ListedSoFar(infos, stored, rest)
        decreases rest
      {
        var id :| id in rest;
        ListedOneMore(infos, stored, rest, id);
        infos := infos + [InfoOf(stored[id])];
        rest := rest - {id};
      }
      ListedAll(infos, stored);
    }

    /** Accepts the bid iff the product exists and `amount` is strictly above its
        current price; an accepted bid raises the price and is recorded. */
    method PlaceBid(productId: string, bidder: string, amount: real) returns (success: bool)
      requires Valid()
      modifies this
      ensures Valid()
      ensures success <==> productId in old(products) && amount > old(products)[productId].currentPrice
      ensures success ==> products == old(products)[productId := old(products)[productId].(currentPrice := amount)]
      ensures success ==> bids == old(bids) + [Bid(bidder, productId, amount)]
      ensures !success ==> products == old(products) && bids == old(bids)
      ensures users == old(users)
      ensures State() == Step(old(State()), Op.PlaceBid(productId, bidder, amount))
      ensures Consistent(old(State())) ==> Consistent(State())
    {
      ghost var before := State();
      if productId in products && amount > products[productId].currentPrice {
        var product := products[productId];
        products := products[productId := product.(currentPrice := amount)];
        bids := bids + [Bid(bidder, productId, amount)];
        success := true;
      } else {
        success := false;
      }
      StepPreservesWellFormed(before, Op.PlaceBid(productId, bidder, amount));
      if Consistent(before) {
        StepPreservesConsistent(before, Op.PlaceBid(productId, bidder, amount));
      }
    }
  }

  /** On a fresh server a nickname registers once; the second attempt is refused. */
  method RegistrationWalkthrough()
  {
    var server := new AuctionService();
    var ok := server.RegisterUser("alice");
    assert ok;
    ok := server.RegisterUser("alice");
    assert !ok;
  }

  /** On a fresh server an added product is listed once, at its initial price. */
  method ListingWalkthrough()
  {
    var server := new AuctionService();
    var added, id := server.AddProduct("PROD_1", "Vase", 10.0, "alice");
    assert added && id == "PROD_1";
    var listing := server.GetProducts();
    ListingShowsProductOnce(listing, server.products, id);
    assert |listing| == 1 && listing[0].currentPrice == 10.0;
  }

  /** Bids on a product at 10.0: 5.0 is refused and changes nothing, 15.0 is
      accepted and becomes the price, a second 15.0 is refused as not strictly
      higher. */
  method BiddingWalkthrough()
  {
    var server := new AuctionService();
    var _, id := server.AddProduct("PROD_1", "Vase", 10.0, "alice");
    var ok := server.PlaceBid(id, "bob", 5.0);
    assert !ok && server.products[id].currentPrice == 10.0 && server.bids == [];
    ok := server.PlaceBid(id, "bob", 15.0);
    assert ok && server.products[id].currentPrice == 15.0;
    ok := server.PlaceBid(id, "carol", 15.0);
    assert !ok && server.bids == [Bid("bob", id, 15.0)];
  }

  /** A bid on an id that no product has is refused and changes nothing. */
  method UnknownProductWalkthrough()
  {
    var server := new AuctionService();
    var ok := server.PlaceBid("unknown-id", "bob", 100.0);
    assert !ok && server.products == map[] && server.bids == [];
  }
}
