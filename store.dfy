/**
 * The group-buy database and the operations its routes perform on it:
 * product and pool create/update/delete, and the request routes nested
 * under one pool. Each operation runs as one atomic step; a refused
 * operation changes nothing.
 */
module GroupBuy {

  import opened Outcomes
  import opened Products
  import opened Pools

  class Store {
    /** The address validator of the email column, left uninterpreted. */
    const isEmail: string -> bool

    var products: map<ProductId, Product>
    var pools: map<PoolId, Pool>
    var requests: map<RequestId, Request>

    /** Next primary key of each table; keys are handed out once and never reused. */
    var nextProductId: nat
    var nextPoolId: nat
    var nextRequestId: nat

    /** The latest tick at which a row was written. */
    var clock: nat

    /**
     * The tables are valid and consistent with each other, every key is
     * below its table's next key, and no row was written after `clock`.
     */
    ghost predicate Valid()
      reads this
    {
      && ValidTables(isEmail, products, pools, requests)
      && (forall id :: id in products ==> id < nextProductId && products[id].updatedAt <= clock)
      && (forall id :: id in pools ==> id < nextPoolId && pools[id].updatedAt <= clock)
      && (forall id :: id in requests ==> id < nextRequestId && requests[id].createdAt <= clock)
    }

    /** An empty database whose email column uses the validator `isEmail`. */
    constructor (isEmail: string -> bool)
      ensures Valid()
      ensures this.isEmail == isEmail
      ensures products == map[] && pools == map[] && requests == map[]
      ensures nextProductId == 1 && nextPoolId == 1 && nextRequestId == 1
      ensures clock == 0
    {
      this.isEmail := isEmail;
      products, pools, requests := map[], map[], map[];
      nextProductId, nextPoolId, nextRequestId := 1, 1, 1;
      clock := 0;
    }

    // -------------------------------------------------------------------
    // Products

    /**
     * Inserts a product under a fresh key; both timestamps are `now`.
     * Refused, naming the offending columns, when the name or price is invalid.
     */
    method CreateProduct(name: string, description: string, unitPriceCents: int, now: nat)
      returns (res: Result<ProductId>)
      requires Valid() && clock <= now
      modifies this
      ensures Valid()
      ensures ProductFieldErrors(name, description, unitPriceCents) != {} ==>
        res == Err(Invalid(ProductFieldErrors(name, description, unitPriceCents))) && unchanged(this)
      ensures ProductFieldErrors(name, description, unitPriceCents) == {} ==>
        && res == Ok(old(nextProductId))
        && res.value !in old(products)
        && products == old(products)[res.value := Product(name, description, unitPriceCents, now, now)]
        && nextProductId == old(nextProductId) + 1
        && clock == now
        && unchanged(this`pools, this`requests, this`nextPoolId, this`nextRequestId)
    {
      var errs := ProductFieldErrors(name, description, unitPriceCents);
      if errs != {} {
        return Err(Invalid(errs));
      }
      var id := nextProductId;
      products := products[id := Product(name, description, unitPriceCents, now, now)];
      nextProductId := nextProductId + 1;
      clock := now;
      res := Ok(id);
    }

    /**
     * Saves new column values into product `id`: its creation time is kept
     * and its update time becomes `now`. Not found before validation.
     */
    method UpdateProduct(id: ProductId, name: string, description: string, unitPriceCents: int, now: nat)
      returns (res: Result<Product>)
      requires Valid() && clock <= now
      modifies this
      ensures Valid()
      ensures id !in old(products) ==> res == Err(NotFound) && unchanged(this)
      ensures id in old(products) && ProductFieldErrors(name, description, unitPriceCents) != {} ==>
        res == Err(Invalid(ProductFieldErrors(name, description, unitPriceCents))) && unchanged(this)
      ensures id in old(products) && ProductFieldErrors(name, description, unitPriceCents) == {} ==>
        && res == Ok(Product(name, description, unitPriceCents, old(products[id].createdAt), now))
        && products == old(products)[id := res.value]
        && res.value.createdAt <= res.value.updatedAt
        && clock == now
        && unchanged(this`pools, this`requests, this`nextProductId, this`nextPoolId, this`nextRequestId)
    {
      if id !in products {
        return Err(NotFound);
      }
      var errs := ProductFieldErrors(name, description, unitPriceCents);
      if errs != {} {
        return Err(Invalid(errs));
      }
      var p := Product(name, description, unitPriceCents, products[id].createdAt, now);
      products := products[id := p];
      clock := now;
      res := Ok(p);
    }

    /**
     * Deletes product `id`, every pool of that product and every request of
     * those pools.
     */
    method DeleteProduct(id: ProductId) returns (res: Result<()>)
      requires Valid()
      modifies this
      ensures Valid()
      ensures id !in old(products) ==> res == Err(NotFound) && unchanged(this)
      ensures id in old(products) ==>
        && res == Ok(())
        && products == old(products) - {id}
        && pools == old(pools) - PoolsOf(old(pools), id)
        && requests == WithoutPools(old(requests), PoolsOf(old(pools), id))
        && unchanged(this`nextProductId, this`nextPoolId, this`nextRequestId, this`clock)
    {
      if id !in products {
        return Err(NotFound);
      }
      var gone := PoolsOf(pools, id);
      ProductCascadeKeepsReferences(products, pools, requests, id);
      SubmapKeepsUnique(requests, WithoutPools(requests, gone));
      requests := WithoutPools(requests, gone);
      pools := pools - gone;
      products := products - {id};
      res := Ok(());
    }

    // -------------------------------------------------------------------
    // Pools

    /** Every stored pool. */
    method ListPools() returns (r: map<PoolId, Pool>)
      ensures r == pools
    {
      r := pools;
    }

    /** Pool `id`, or not found. */
    method GetPool(id: PoolId) returns (res: Result<Pool>)
      ensures res.Ok? <==> id in pools
      ensures res.Ok? ==> res.value == pools[id]
      ensures res.Err? ==> res.error == NotFound
    {
      if id in pools {
        res := Ok(pools[id]);
      } else {
        res := Err(NotFound);
      }
    }

    /**
     * Inserts a pool of product `product` under a fresh key; both timestamps
     * are `now`. Refused when the product does not exist or min_quantity does
     * not fit its column; nothing orders the start and end times.
     */
    method CreatePool(product: ProductId, startAt: nat, endAt: nat, minQuantity: int, now: nat)
      returns (res: Result<PoolId>)
      requires Valid() && clock <= now
      modifies this
      ensures Valid()
      ensures PoolFieldErrors(old(products), product, minQuantity) != {} ==>
        res == Err(Invalid(PoolFieldErrors(old(products), product, minQuantity))) && unchanged(this)
      ensures PoolFieldErrors(old(products), product, minQuantity) == {} ==>
        && res == Ok(old(nextPoolId))
        && res.value !in old(pools)
        && pools == old(pools)[res.value := Pool(product, startAt, endAt, minQuantity, now, now)]
        && RequestsIn(requests, res.value) == map[]
        && nextPoolId == old(nextPoolId) + 1
        && clock == now
        && unchanged(this`products, this`requests, this`nextProductId, this`nextRequestId)
    {
      var errs := PoolFieldErrors(products, product, minQuantity);
      if errs != {} {
        return Err(Invalid(errs));
      }
      var id := nextPoolId;
      MissingPoolHasNoRequests(requests, pools, id);
      pools := pools[id := Pool(product, startAt, endAt, minQuantity, now, now)];
      nextPoolId := nextPoolId + 1;
      clock := now;
      res := Ok(id);
    }

    /**
     * Saves new column values into pool `id`: its creation time is kept, its
     * update time becomes `now`, and its requests stay with it. Not found
     * before validation.
     */
    method UpdatePool(id: PoolId, product: ProductId, startAt: nat, endAt: nat, minQuantity: int, now: nat)
      returns (res: Result<Pool>)
      requires Valid() && clock <= now
      modifies this
      ensures Valid()
      ensures id !in old(pools) ==> res == Err(NotFound) && unchanged(this)
      ensures id in old(pools) && PoolFieldErrors(old(products), product, minQuantity) != {} ==>
        res == Err(Invalid(PoolFieldErrors(old(products), product, minQuantity))) && unchanged(this)
      ensures id in old(pools) && PoolFieldErrors(old(products), product, minQuantity) == {} ==>
        && res == Ok(Pool(product, startAt, endAt, minQuantity, old(pools[id].createdAt), now))
        && pools == old(pools)[id := res.value]
        && res.value.createdAt <= res.value.updatedAt
        && clock == now
        && unchanged(this`products, this`requests, this`nextProductId, this`nextPoolId, this`nextRequestId)
    {
      if id !in pools {
        return Err(NotFound);
      }
      var errs := PoolFieldErrors(products, product, minQuantity);
      if errs != {} {
        return Err(Invalid(errs));
      }
      var p := Pool(product, startAt, endAt, minQuantity, pools[id].createdAt, now);
      pools := pools[id := p];
      clock := now;
      res := Ok(p);
    }

    /**
     * Deletes pool `id` with every request of that pool; every other pool
     * and its requests stay as they were.
     */
    method DeletePool(id: PoolId) returns (res: Result<()>)
      requires Valid()
      modifies this
      ensures Valid()
      ensures id !in old(pools) ==> res == Err(NotFound) && unchanged(this)
      ensures id in old(pools) ==>
        && res == Ok(())
        && pools == old(pools) - {id}
        && requests == WithoutPools(old(requests), {id})
        && RequestsIn(requests, id) == map[]
        && (forall q :: q != id ==> RequestsIn(requests, q) == RequestsIn(old(requests), q))
        && |requests| == |old(requests)| - |RequestsIn(old(requests), id)|
        && unchanged(this`products, this`nextProductId, this`nextPoolId, this`nextRequestId, this`clock)
    {
      if id !in pools {
        return Err(NotFound);
      }
      var kept := WithoutPools(requests, {id});
      DeletePoolKeepsTables(isEmail, products, pools, requests, id);
      WithoutPoolSize(requests, id);
      forall q
        ensures RequestsIn(kept, q) == if q == id then map[] else RequestsIn(requests, q)
      {
        WithoutPoolsLists(requests, {id}, q);
      }
      requests := kept;
      pools := pools - {id};
      res := Ok(());
    }

    // -------------------------------------------------------------------
    // Requests, always addressed through the pool `poolId` of the route

    /**
     * The requests of pool `poolId`, and only those; a pool id that is not
     * stored yields an empty list rather than an error.
     */
    method ListRequests(poolId: PoolId) returns (r: map<RequestId, Request>)
      requires Valid()
      ensures forall id :: id in r <==> id in requests && requests[id].pool == poolId
      ensures forall id :: id in r ==> r[id] == requests[id]
      ensures poolId !in pools ==> r == map[]
    {
      r := RequestsIn(requests, poolId);
      if poolId !in pools {
        MissingPoolHasNoRequests(requests, pools, poolId);
      }
    }

    /** Request `reqId` when it belongs to pool `poolId`; not found otherwise. */
    method GetRequest(poolId: PoolId, reqId: RequestId) returns (res: Result<Request>)
      ensures res.Ok? <==> reqId in requests && requests[reqId].pool == poolId
      ensures res.Ok? ==> res.value == requests[reqId] && res.value.pool == poolId
      ensures res.Err? ==> res.error == NotFound
    {
      var visible := RequestsIn(requests, poolId);
      if reqId in visible {
        res := Ok(visible[reqId]);
      } else {
        res := Err(NotFound);
      }
    }

    /**
     * Records a request of `email` for `quantity` units (one when omitted)
     * in pool `poolId`. The request's pool is always the route's pool: a
     * pool sent in the body (`bodyPool`) is read-only and ignored. Field
     * validation comes first, then the pool lookup, then the uniqueness of
     * (pool, email). On success exactly one request is added, to that pool.
     */
    method SubmitRequest(poolId: PoolId, bodyPool: Option<PoolId>, email: string, now: nat,
                         quantity: int := DefaultQuantity)
      returns (res: Result<RequestId>)
      requires Valid() && clock <= now
      modifies this
      ensures Valid()
      ensures RequestFieldErrors(isEmail, email, quantity) != {} ==>
        res == Err(Invalid(RequestFieldErrors(isEmail, email, quantity))) && unchanged(this)
      ensures RequestFieldErrors(isEmail, email, quantity) == {} && poolId !in old(pools) ==>
        res == Err(NotFound) && unchanged(this)
      ensures RequestFieldErrors(isEmail, email, quantity) == {} && poolId in old(pools)
              && EmailTaken(old(requests), poolId, email) ==>
        res == Err(Duplicate) && unchanged(this)
      ensures res.Ok? <==>
        RequestFieldErrors(isEmail, email, quantity) == {} && poolId in old(pools)
        && !EmailTaken(old(requests), poolId, email)
      ensures res.Ok? ==>
        && res.value == old(nextRequestId)
        && res.value !in old(requests)
        && requests == old(requests)[res.value := Request(poolId, email, quantity, now)]
        && requests[res.value].pool == poolId
        && RequestsIn(requests, poolId) == RequestsIn(old(requests), poolId)[res.value := requests[res.value]]
        && |RequestsIn(requests, poolId)| == |RequestsIn(old(requests), poolId)| + 1
        && (forall q :: q != poolId ==> RequestsIn(requests, q) == RequestsIn(old(requests), q))
        && nextRequestId == old(nextRequestId) + 1
        && clock == now
        && unchanged(this`products, this`pools, this`nextProductId, this`nextPoolId)
    {
      var errs := RequestFieldErrors(isEmail, email, quantity);
      if errs != {} {
        return Err(Invalid(errs));
      }
      if poolId !in pools {
        return Err(NotFound);
      }
      if EmailTaken(requests, poolId, email) {
        return Err(Duplicate);
      }
      var id := nextRequestId;
      var r := Request(poolId, email, quantity, now);
      InsertRequestKeepsTables(isEmail, products, pools, requests, id, r);
      InsertChangesOnePool(requests, id, r);
      requests := requests[id := r];
      nextRequestId := nextRequestId + 1;
      clock := now;
      res := Ok(id);
    }

    /**
     * Saves a new email, and a new quantity when one is sent, into request
     * `reqId` of pool `poolId`. The request stays in its pool (`bodyPool`
     * is ignored) and keeps its creation time. Not found unless the
     * request belongs to that pool; then field validation; then the new
     * email must not be held by another request of the pool.
     */
    method UpdateRequest(poolId: PoolId, reqId: RequestId, bodyPool: Option<PoolId>,
                         email: string, quantity: Option<int>)
      returns (res: Result<Request>)
      requires Valid()
      modifies this
      ensures Valid()
      ensures !(reqId in old(requests) && old(requests[reqId]).pool == poolId) ==>
        res == Err(NotFound) && unchanged(this)
      ensures reqId in old(requests) && old(requests[reqId]).pool == poolId ==>
        var q := if quantity.Some? then quantity.value else old(requests[reqId]).quantity;
        && (RequestFieldErrors(isEmail, email, q) != {} ==>
              res == Err(Invalid(RequestFieldErrors(isEmail, email, q))) && unchanged(this))
        && (RequestFieldErrors(isEmail, email, q) == {} && EmailTaken(old(requests) - {reqId}, poolId, email) ==>
              res == Err(Duplicate) && unchanged(this))
        && (RequestFieldErrors(isEmail, email, q) == {} && !EmailTaken(old(requests) - {reqId}, poolId, email) ==>
              && res == Ok(Request(poolId, email, q, old(requests[reqId]).createdAt))
              && requests == old(requests)[reqId := res.value]
              && RequestsIn(requests, poolId) == RequestsIn(old(requests), poolId)[reqId := res.value]
              && (forall p :: p != poolId ==> RequestsIn(requests, p) == RequestsIn(old(requests), p))
              && unchanged(this`products, this`pools, this`nextProductId, this`nextPoolId,
                           this`nextRequestId, this`clock))
    {
      if !(reqId in requests && requests[reqId].pool == poolId) {
        return Err(NotFound);
      }
      var prev := requests[reqId];
      var q := if quantity.Some? then quantity.value else prev.quantity;
      var errs := RequestFieldErrors(isEmail, email, q);
      if errs != {} {
        return Err(Invalid(errs));
      }
      if EmailTaken(requests - {reqId}, poolId, email) {
        return Err(Duplicate);
      }
      var r := Request(poolId, email, q, prev.createdAt);
      ReplaceUniqueIff(requests, reqId, r);
      ReplaceChangesOnePool(requests, reqId, r);
      requests := requests[reqId := r];
      res := Ok(r);
    }

    /**
     * Deletes request `reqId` when it belongs to pool `poolId`; not found
     * otherwise. No other request changes.
     */
    method DeleteRequest(poolId: PoolId, reqId: RequestId) returns (res: Result<()>)
      requires Valid()
      modifies this
      ensures Valid()
      ensures !(reqId in old(requests) && old(requests[reqId]).pool == poolId) ==>
        res == Err(NotFound) && unchanged(this)
      ensures reqId in old(requests) && old(requests[reqId]).pool == poolId ==>
        && res == Ok(())
        && requests == old(requests) - {reqId}
        && RequestsIn(requests, poolId) == RequestsIn(old(requests), poolId) - {reqId}
        && (forall p :: p != poolId ==> RequestsIn(requests, p) == RequestsIn(old(requests), p))
        && unchanged(this`products, this`pools, this`nextProductId, this`nextPoolId,
                     this`nextRequestId, this`clock)
    {
      if !(reqId in requests && requests[reqId].pool == poolId) {
        return Err(NotFound);
      }
      SubmapKeepsUnique(requests, requests - {reqId});
      RemoveChangesOnePool(requests, reqId);
      requests := requests - {reqId};
      res := Ok(());
    }
  }
}
