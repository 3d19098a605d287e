# Auction state service

A model of the in-memory auction server of the e-space project: the
`AuctionService` object that owns all marketplace state (registered users,
products by id, the history of accepted bids) and serves four requests —
RegisterUser, AddProduct, GetProducts and PlaceBid — each as one atomic step
under a single lock.

Two modules:

- `Auction` (auction.dfy) describes the state as a value (`Market`), the three
  state-changing requests (`Op`), the `success` flag each one answers with
  (`Accepts`), their effect (`Step`) and the effect of a sequence of them
  (`Run`). On top of these it states and proves the service's invariants:
  every reachable state is well formed (nicknames map to themselves, products
  are stored under their own id, no price is below its starting price, every
  recorded bid names a stored product); the bid history is append-only and
  records exactly the accepted bids in order; two bids served in either order
  leave the same price. With fresh product ids, moreover: each product's
  current price is the amount of its last recorded bid, or its initial price
  when it has none; the bids on one product increase strictly and all lie
  above its initial price, so a product has a recorded bid exactly when its
  price has risen above its initial price; and prices never decrease and
  change only through an accepted, higher bid. It also defines what a correct product listing is and proves that
  any two listings of the same products differ at most in order.
- `AuctionServer` (auction_service.dfy) is the server object itself: a class
  with the fields `users`, `products` and `bids` that the handler methods
  update in place. Each method's contract states the new fields outright,
  proves that the method performs exactly `Auction.Step`, and that it keeps
  the object invariant (`Valid`, i.e. `WellFormed`) and, under the fresh-id
  condition for AddProduct, `Consistent`. GetProducts walks the product map
  and is proved to return a listing in the sense above without changing
  anything. Four small walkthrough methods replay example runs on a fresh
  server (a repeated registration, a listing after AddProduct, a too-low, an
  accepted and an equal bid, a bid on an unknown id).

Product ids: the server makes an id from the wall clock at millisecond
resolution (`generateProductId`). The model takes that id as a parameter of
AddProduct and keeps the server's overwrite semantics: an id that is already
stored replaces that product. The history and monotonic-price invariants
therefore carry the condition that every AddProduct gets an id not yet stored
(`FreshAdds`); `CollidingAddResetsPrice` shows a concrete state where a
colliding id lowers a product's price and breaks the history invariant.
AddProduct is meant to hand out a fresh, unique id; two calls within the same
millisecond would get the same one, and the model follows the code's
overwrite rather than assuming uniqueness.

Prices are `real`: the server only copies them and compares them with a
strict `>`.

## Model

| member | source | states |
|---|---|---|
| `Auction.Accepts` | server/server.cpp:64-150 | the success flag: a refused request leaves the state unchanged; an accepted registration adds exactly the new nickname; an accepted bid was on a stored product, above its current price, sets the price to its amount and appends exactly its record |
| `Auction.Step` | server/server.cpp:56-153 | a rejected request (duplicate nickname, unknown product, bid not above the current price) leaves the whole state unchanged; no request removes a user or a product; the bid history only grows by appending |
| `Auction.Run` | server/server.cpp:56-153 | served one after another, requests never remove a user or a product and only append to the bid history |
| `Auction.HistoryPrice` | server/server.cpp:133-141 | the price a bid history gives a product is either its initial price or the amount of some recorded bid on that product |
| `Auction.StepPreservesWellFormed` | server/server.cpp:64-89 | every request keeps nicknames mapped to themselves, products stored under their own id, every current price at or above its initial price, and every recorded bid naming a stored product |
| `Auction.RunPreservesWellFormed` | server/server.cpp:56-153 | those well-formedness facts hold after any sequence of requests, whatever ids AddProduct receives |
| `Auction.EmptyIsConsistent` | server/server.cpp:43-45 | the empty starting state satisfies the history invariant |
| `Auction.HistoryPriceWithoutBids` | server/server.cpp:86 | a product with no recorded bids has its initial price as history price |
| `Auction.HistoryPriceAppend` | server/server.cpp:135-141 | appending a bid sets the history price of its product to the bid amount and leaves every other product's history price alone |
| `Auction.HistoryPriceIsHighest` | server/server.cpp:134-141 | in a history where bids per product increase, the history price is at least every recorded bid on that product |
| `Auction.AddPreservesConsistent` | server/server.cpp:81-89 | adding a product under a fresh id keeps the history invariant: the new product has no bids and its price is its initial price |
| `Auction.BidPreservesConsistent` | server/server.cpp:133-141 | an accepted bid keeps the history invariant: it is above every earlier bid on its product and above its initial price, and becomes the product's history price |
| `Auction.StepPreservesConsistent` | server/server.cpp:76-153 | every request with a fresh AddProduct id keeps each current price equal to the last recorded bid on that product (or its initial price) and bids per product strictly increasing |
| `Auction.BidOnProductIffPriceRaised` | server/server.cpp:86-141 | in a consistent state a product has a recorded bid if and only if its current price is above its initial price |
| `Auction.RunPreservesConsistent` | server/server.cpp:56-153 | the history invariant holds after any sequence of requests in which every AddProduct id is fresh |
| `Auction.StepNeverLowersPrice` | server/server.cpp:133-135 | with a fresh AddProduct id, one request keeps every stored product, its id, name, seller and initial price, and never lowers its current price |
| `Auction.StepPriceChangeIsBid` | server/server.cpp:133-141 | with no AddProduct on the same id, a stored product's price changes only through an accepted PlaceBid on it, which sets the price to the strictly higher amount and appends exactly that bid |
| `Auction.RunNeverLowersPrice` | server/server.cpp:56-153 | over any sequence of requests with fresh AddProduct ids no product is lost, its fixed fields never change and its price never decreases |
| `Auction.CollidingAddResetsPrice` | server/server.cpp:81-89 | an AddProduct whose id collides with a stored product replaces it, can lower its price below the last accepted bid, and breaks the history invariant |
| `Auction.RecordOf` | server/server.cpp:137-141 | one request adds to the history exactly its record when it is an accepted bid, and at most one record in any case |
| `Auction.RunBidLog` | server/server.cpp:137-141 | after any sequence of requests the bid history is the old history followed by one record per accepted bid, in the order served |
| `Auction.RegisterTwiceRejected` | server/server.cpp:64-71 | after a nickname is registered, registering it again is rejected and changes nothing |
| `Auction.SerialBidsAgree` | server/server.cpp:124-145 | two bids a < b on one product give the same final price, the larger of b and the price before, in either serial order, and served higher-first the history gains exactly the higher bid's record when it beats the price before, and nothing otherwise |
| `Auction.InfoOf` | server/server.cpp:110-115 | a listing entry carries every field of its product: the product can be rebuilt from it |
| `Auction.ListedOneMore` | server/server.cpp:108-116 | appending the entry of one more not-yet-listed product keeps a partial listing exact, complete for the products done and free of duplicates |
| `Auction.ListingsArePermutations` | server/server.cpp:108-116 | any two correct listings of the same products hold the same entries, differing at most in order |
| `Auction.ListingShowsProductOnce` | server/server.cpp:108-116 | a correct listing shows each stored product exactly once, with its current fields |
| `AuctionServer.AuctionService.constructor` | server/server.cpp:43-45 | a new server has no users, no products and no bids, and satisfies both invariants |
| `AuctionServer.AuctionService.RegisterUser` | server/server.cpp:56-74 | success iff the nickname was not registered; on success the nickname is added keyed and valued by itself; otherwise users are unchanged; products and bids never change; the invariants are kept |
| `AuctionServer.AuctionService.AddProduct` | server/server.cpp:76-99 | always succeeds and returns the generated id; stores exactly one key, the product with the requested name, seller and initial price and a current price equal to it; with a fresh id the product count grows by one; users and bids unchanged |
| `AuctionServer.AuctionService.GetProducts` | server/server.cpp:101-119 | changes nothing and returns one entry per stored product with id, name, initial price, current price and seller copied, no duplicates and nothing else |
| `AuctionServer.AuctionService.PlaceBid` | server/server.cpp:121-153 | success iff the product exists and the amount is strictly above its current price; on success only that product's price becomes the amount and exactly one bid record is appended; otherwise products and bids are unchanged; users never change; the invariants are kept |

## Left out

- The lock (`std::mutex`, `std::lock_guard`): each handler is modelled as one atomic sequential method; that the lock makes concurrent calls linearizable is an argument about the lock, not verified here. `SerialBidsAgree` covers the two serial orders of a pair of bids.
- Id generation from the system clock (`generateProductId`, the `PROD_` prefix and the decimal timestamp): the id is a parameter of AddProduct; `FreshAdds` states when it is unique.
- Console logging in every handler: observability only, no effect on state.
- The gRPC layer: server context, protobuf request and response objects, the always-returned `Status::OK`, `RunServer` and `main`; requests and responses are plain parameters and results.
- IEEE `double` prices: modelled as `real`; NaN and rounding are not modelled.
- The client (auction_client.cpp, auction_client.h, main.cpp, app_config.cpp, app_config.h): a thin RPC wrapper and the graphical front end, with its own input checks; none of it holds server state.
- `Auction.StepNeverLowersPrice`: requires a fresh AddProduct id, because the server's overwrite on a colliding id can lower a price (see `CollidingAddResetsPrice`).
- `Auction.RunNeverLowersPrice`: requires fresh AddProduct ids (`FreshAdds`), for the same reason.
- `Auction.StepPriceChangeIsBid`: requires that the request is not an AddProduct on the same id, because the overwrite changes the stored product's price without any bid.
- `Auction.AddPreservesConsistent`: requires a fresh id, because an overwrite keeps the old product's bids while resetting its price.
- `Auction.StepPreservesConsistent`: requires a fresh AddProduct id, for the same reason.
- `Auction.RunPreservesConsistent`: requires fresh AddProduct ids (`FreshAdds`), for the same reason.
