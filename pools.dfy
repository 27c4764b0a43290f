/**
 * The Pool and Request tables: their rows, column constraints, the
 * referential and uniqueness rules between tables, the string form of a
 * pool, and the per-pool filter the request routes go through.
 */
module Pools {

  import opened Outcomes
  import opened Products

  /** Upper bound of a positive-integer column (the range is 0 to 2^31 - 1). */
  const MaxPositiveInteger := 2147483647

  /** A request submitted without a quantity asks for one unit. */
  const DefaultQuantity := 1

  /** An email column holds at most 254 characters. */
  const EmailMaxLength := 254

  type ProductId = nat
  type PoolId = nat
  type RequestId = nat

  /** One pool row: a group buy of one product. Times are abstract ticks. */
  datatype Pool = Pool(
    product: ProductId,
    startAt: nat,
    endAt: nat,
    minQuantity: nat,
    createdAt: nat,
    updatedAt: nat)

  /** One buyer's request in a pool. Requests have no update timestamp. */
  datatype Request = Request(
    pool: PoolId,
    email: string,
    quantity: nat,
    createdAt: nat)

  /** A positive-integer column admits 0 and every integer up to its bound. */
  predicate ValidPositiveInteger(v: int)
  {
    0 <= v <= MaxPositiveInteger
  }

  /**
   * An email column value: required, within its length, free of NUL, and
   * accepted by the address validator `isEmail`, which the model leaves
   * uninterpreted.
   */
  predicate ValidEmailField(isEmail: string -> bool, email: string)
  {
    0 < |email| <= EmailMaxLength && NoNullCharacter(email) && isEmail(email)
  }

  /**
   * The columns of a submitted pool that fail validation: the product
   * reference must name a stored product and min_quantity must fit its
   * column. Start and end times are unconstrained.
   */
  function PoolFieldErrors(products: map<ProductId, Product>, product: ProductId, minQuantity: int): (errs: set<string>)
    ensures errs <= {"product", "min_quantity"}
    ensures errs == {} <==> product in products && ValidPositiveInteger(minQuantity)
    ensures "product" in errs <==> product !in products
    ensures "min_quantity" in errs <==> !ValidPositiveInteger(minQuantity)
  {
    (if product in products then {} else {"product"})
    + (if ValidPositiveInteger(minQuantity) then {} else {"min_quantity"})
  }

  /** The columns of a submitted request that fail validation. */
  function RequestFieldErrors(isEmail: string -> bool, email: string, quantity: int): (errs: set<string>)
    ensures errs <= {"email", "quantity"}
    ensures errs == {} <==> ValidEmailField(isEmail, email) && ValidPositiveInteger(quantity)
    ensures "email" in errs <==> !ValidEmailField(isEmail, email)
    ensures "quantity" in errs <==> !ValidPositiveInteger(quantity)
  {
    (if ValidEmailField(isEmail, email) then {} else {"email"})
    + (if ValidPositiveInteger(quantity) then {} else {"quantity"})
  }

  predicate ValidPool(p: Pool)
  {
    ValidPositiveInteger(p.minQuantity) && p.createdAt <= p.updatedAt
  }

  predicate ValidRequest(isEmail: string -> bool, r: Request)
  {
    ValidEmailField(isEmail, r.email) && ValidPositiveInteger(r.quantity)
  }

  // ---------------------------------------------------------------------
  // String form of a pool

  /** The prefix and suffix around the product name in a pool's string form. */
  const PoolStrPrefix := "Pool("
  const PoolStrSuffix := ")"

  /** Reads the product name back out of a pool's string form. */
  function PoolStrProductName(s: string): Option<string>
  {
    var n, m := |PoolStrPrefix|, |PoolStrSuffix|;
    if |s| >= n + m && s[..n] == PoolStrPrefix && s[|s| - m..] == PoolStrSuffix
    then Some(s[n..|s| - m])
    else None
  }

  /**
   * The string form of a pool names the product it sells; the name can be
   * read back from it, so pools of differently named products never print
   * alike.
   */
  function PoolStr(pool: Pool, products: map<ProductId, Product>): (s: string)
    requires pool.product in products
    ensures PoolStrProductName(s) == Some(ProductStr(products[pool.product]))
  {
    var s := PoolStrPrefix + products[pool.product].name + PoolStrSuffix;
    var n, m := |PoolStrPrefix|, |PoolStrSuffix|;
    assert s[..n] == PoolStrPrefix && s[|s| - m..] == PoolStrSuffix;
    assert s[n..|s| - m] == products[pool.product].name;
    s
  }

  // ---------------------------------------------------------------------
  // Rules between tables

  /** Every pool's product exists. */
  ghost predicate PoolsReferenceProducts(pools: map<PoolId, Pool>, products: map<ProductId, Product>)
  {
    forall id :: id in pools ==> pools[id].product in products
  }

  /** Every request's pool exists. */
  ghost predicate RequestsReferencePools(requests: map<RequestId, Request>, pools: map<PoolId, Pool>)
  {
    forall id :: id in requests ==> requests[id].pool in pools
  }

  /** At most one request per (pool, email) pair. */
  ghost predicate UniquePoolEmail(requests: map<RequestId, Request>)
  {
    forall i, j :: i in requests && j in requests && i != j && requests[i].pool == requests[j].pool
      ==> requests[i].email != requests[j].email
  }

  /** Some request of `pool` already carries `email`. */
  predicate EmailTaken(requests: map<RequestId, Request>, pool: PoolId, email: string)
  {
    exists id :: id in requests && requests[id].pool == pool && requests[id].email == email
  }

  /** All three tables hold valid rows and respect the rules between them. */
  ghost predicate ValidTables(
    isEmail: string -> bool,
    products: map<ProductId, Product>,
    pools: map<PoolId, Pool>,
    requests: map<RequestId, Request>)
  {
    && (forall id :: id in products ==> ValidProduct(products[id]))
    && (forall id :: id in pools ==> ValidPool(pools[id]))
    && (forall id :: id in requests ==> ValidRequest(isEmail, requests[id]))
    && PoolsReferenceProducts(pools, products)
    && RequestsReferencePools(requests, pools)
    && UniquePoolEmail(requests)
  }

  // ---------------------------------------------------------------------
  // Filters

  /** The requests visible through the routes of pool `pool`. */
  function RequestsIn(requests: map<RequestId, Request>, pool: PoolId): (r: map<RequestId, Request>)
    ensures r.Keys <= requests.Keys
    ensures forall id :: id in r ==> r[id] == requests[id] && r[id].pool == pool
    ensures forall id :: id in requests && requests[id].pool == pool ==> id in r
  {
    map id | id in requests && requests[id].pool == pool :: requests[id]
  }

  /** The ids of the pools of product `product`. */
  function PoolsOf(pools: map<PoolId, Pool>, product: ProductId): (r: set<PoolId>)
    ensures r <= pools.Keys
    ensures forall id :: id in r <==> id in pools && pools[id].product == product
  {
    set id | id in pools && pools[id].product == product
  }

  /** The requests that survive when the pools `gone` are deleted. */
  function WithoutPools(requests: map<RequestId, Request>, gone: set<PoolId>): (r: map<RequestId, Request>)
    ensures r.Keys <= requests.Keys
    ensures forall id :: id in r ==> r[id] == requests[id] && r[id].pool !in gone
    ensures forall id :: id in requests && requests[id].pool !in gone ==> id in r
  {
    map id | id in requests && requests[id].pool !in gone :: requests[id]
  }

  /** The distinct emails that hold a request in `pool`. */
  function EmailsIn(requests: map<RequestId, Request>, pool: PoolId): set<string>
  {
    set id | id in requests && requests[id].pool == pool :: requests[id].email
  }

  // ---------------------------------------------------------------------
  // Lemmas

  /**
   * Inserting a new request keeps (pool, email) unique exactly when its
   * email is not yet taken in its pool: refusing a taken email is both
   * necessary and sufficient for the constraint.
   */
  lemma InsertUniqueIff(requests: map<RequestId, Request>, id: RequestId, r: Request)
    requires UniquePoolEmail(requests) && id !in requests
    ensures UniquePoolEmail(requests[id := r]) <==> !EmailTaken(requests, r.pool, r.email)
  {
    var after := requests[id := r];
    if EmailTaken(requests, r.pool, r.email) {
      var k :| k in requests && requests[k].pool == r.pool && requests[k].email == r.email;
      assert k in after && id in after && k != id && after[k] == requests[k] && after[id] == r;
    }
  }

  /**
   * Rewriting request `id` keeps (pool, email) unique exactly when no other
   * request of its pool carries the new email.
   */
  lemma ReplaceUniqueIff(requests: map<RequestId, Request>, id: RequestId, r: Request)
    requires UniquePoolEmail(requests) && id in requests
    ensures UniquePoolEmail(requests[id := r]) <==> !EmailTaken(requests - {id}, r.pool, r.email)
  {
    var rest := requests - {id};
    assert UniquePoolEmail(rest);
    assert requests[id := r] == rest[id := r];
    InsertUniqueIff(rest, id, r);
  }

  /** Removing requests never creates a duplicate. */
  lemma SubmapKeepsUnique(requests: map<RequestId, Request>, sub: map<RequestId, Request>)
    requires UniquePoolEmail(requests)
    requires forall id :: id in sub ==> id in requests && sub[id] == requests[id]
    ensures UniquePoolEmail(sub)
  {
  }

  /**
   * Inserting request `id` into pool `r.pool` adds exactly that request to
   * the pool's list, grows it by one, and leaves every other pool's list as
   * it was.
   */
  lemma InsertChangesOnePool(requests: map<RequestId, Request>, id: RequestId, r: Request)
    requires id !in requests
    ensures RequestsIn(requests[id := r], r.pool) == RequestsIn(requests, r.pool)[id := r]
    ensures |RequestsIn(requests[id := r], r.pool)| == |RequestsIn(requests, r.pool)| + 1
    ensures forall q :: q != r.pool ==> RequestsIn(requests[id := r], q) == RequestsIn(requests, q)
  {
  }

  /**
   * Rewriting request `id` of its own pool with a row of the same pool
   * changes only that entry of that pool's list; other lists are untouched.
   */
  lemma ReplaceChangesOnePool(requests: map<RequestId, Request>, id: RequestId, r: Request)
    requires id in requests && requests[id].pool == r.pool
    ensures RequestsIn(requests[id := r], r.pool) == RequestsIn(requests, r.pool)[id := r]
    ensures forall q :: q != r.pool ==> RequestsIn(requests[id := r], q) == RequestsIn(requests, q)
  {
  }

  /**
   * Removing request `id` takes it out of its pool's list and leaves every
   * other pool's list as it was.
   */
  lemma RemoveChangesOnePool(requests: map<RequestId, Request>, id: RequestId)
    requires id in requests
    ensures RequestsIn(requests - {id}, requests[id].pool) == RequestsIn(requests, requests[id].pool) - {id}
    ensures |RequestsIn(requests - {id}, requests[id].pool)| == |RequestsIn(requests, requests[id].pool)| - 1
    ensures forall q :: q != requests[id].pool ==> RequestsIn(requests - {id}, q) == RequestsIn(requests, q)
  {
  }

  /**
   * After the pools `gone` are deleted with their requests, their lists are
   * empty and the list of every other pool is exactly as before.
   */
  lemma WithoutPoolsLists(requests: map<RequestId, Request>, gone: set<PoolId>, q: PoolId)
    ensures q in gone ==> RequestsIn(WithoutPools(requests, gone), q) == map[]
    ensures q !in gone ==> RequestsIn(WithoutPools(requests, gone), q) == RequestsIn(requests, q)
  {
  }

  /**
   * Deleting pool `p` removes exactly the requests of `p`: the table shrinks
   * by the length of that pool's list.
   */
  lemma WithoutPoolSize(requests: map<RequestId, Request>, p: PoolId)
    ensures |WithoutPools(requests, {p})| == |requests| - |RequestsIn(requests, p)|
  {
    var kept := WithoutPools(requests, {p}).Keys;
    var dropped := RequestsIn(requests, p).Keys;
    assert requests.Keys == kept + dropped;
    assert kept !! dropped;
    assert |kept + dropped| == |kept| + |dropped|;
  }

  /** A pool id that is not stored has no requests, given there are no dangling references. */
  lemma MissingPoolHasNoRequests(requests: map<RequestId, Request>, pools: map<PoolId, Pool>, p: PoolId)
    requires RequestsReferencePools(requests, pools) && p !in pools
    ensures RequestsIn(requests, p) == map[]
  {
  }

  /**
   * Deleting the pools `gone` with their requests leaves no request that
   * references a missing pool.
   */
  lemma PoolCascadeKeepsReferences(requests: map<RequestId, Request>, pools: map<PoolId, Pool>, gone: set<PoolId>)
    requires RequestsReferencePools(requests, pools)
    ensures RequestsReferencePools(WithoutPools(requests, gone), pools - gone)
  {
  }

  /**
   * Deleting product `prod`, its pools and their requests leaves every pool
   * referencing a stored product and every request a stored pool.
   */
  lemma ProductCascadeKeepsReferences(
    products: map<ProductId, Product>,
    pools: map<PoolId, Pool>,
    requests: map<RequestId, Request>,
    prod: ProductId)
    requires PoolsReferenceProducts(pools, products)
    requires RequestsReferencePools(requests, pools)
    ensures PoolsReferenceProducts(pools - PoolsOf(pools, prod), products - {prod})
    ensures RequestsReferencePools(WithoutPools(requests, PoolsOf(pools, prod)), pools - PoolsOf(pools, prod))
  {
  }

  /** Inserting a valid request into a stored pool under a new key, with its email free in that pool, keeps the tables valid. */
  lemma InsertRequestKeepsTables(
    isEmail: string -> bool,
    products: map<ProductId, Product>,
    pools: map<PoolId, Pool>,
    requests: map<RequestId, Request>,
    id: RequestId,
    r: Request)
    requires ValidTables(isEmail, products, pools, requests)
    requires id !in requests && r.pool in pools && ValidRequest(isEmail, r)
    requires !EmailTaken(requests, r.pool, r.email)
    ensures ValidTables(isEmail, products, pools, requests[id := r])
  {
  }

  /** Deleting pool `p` together with its requests keeps the tables valid. */
  lemma DeletePoolKeepsTables(
    isEmail: string -> bool,
    products: map<ProductId, Product>,
    pools: map<PoolId, Pool>,
    requests: map<RequestId, Request>,
    p: PoolId)
    requires ValidTables(isEmail, products, pools, requests)
    ensures ValidTables(isEmail, products, pools - {p}, WithoutPools(requests, {p}))
  {
  }

  /** Distinct ids with distinct emails have as many emails as ids. */
  lemma {:induction false} DistinctEmailsCount(ids: set<RequestId>, requests: map<RequestId, Request>)
    requires ids <= requests.Keys
    requires forall i, j :: i in ids && j in ids && i != j ==> requests[i].email != requests[j].email
    ensures |set id | id in ids :: requests[id].email| == |ids|
    decreases ids
  {
    if ids != {} {
      var i :| i in ids;
      var rest := ids - {i};
      DistinctEmailsCount(rest, requests);
      var all := set id | id in ids :: requests[id].email;
      var others := set id | id in rest :: requests[id].email;
      assert all == others + {requests[i].email};
      assert requests[i].email !in others;
    }
  }

  /**
   * Under the uniqueness rule a pool holds exactly one request per distinct
   * buyer email: the length of its list equals the number of its emails.
   */
  lemma PoolSizeIsEmailCount(requests: map<RequestId, Request>, pool: PoolId)
    requires UniquePoolEmail(requests)
    ensures |RequestsIn(requests, pool)| == |EmailsIn(requests, pool)|
  {
    var ids := RequestsIn(requests, pool).Keys;
    DistinctEmailsCount(ids, requests);
    assert EmailsIn(requests, pool) == set id | id in ids :: requests[id].email;
  }
}
