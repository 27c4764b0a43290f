# Group-buy store: a verified Dafny model

This project models the data core of a group-buying backend. Products are
offered through pools, and buyers place requests in a pool. The model has
three tables, each linked to the next: **Product → Pool → Request**. It also
models the request routes that are nested under one pool.

- `outcomes.dfy` (module `Outcomes`) defines the result type and the error
  kinds. `NotFound` is a missing or out-of-route row. `Invalid(fields)` is
  failed field validation and names every offending column. `Duplicate`
  is a refusal by the (pool, email) uniqueness constraint.
- `products.dfy` (module `Products`) holds the product row and its column
  rules. A name is non-blank and at most 255 characters. A description
  may be empty. Neither may hold the NUL character. `unit_price` is held as whole cents with magnitude below
  10^12, which is 12 decimal digits with 2 after the point, and it has no
  sign rule. The module also gives the product's string form.
- `pools.dfy` (module `Pools`) holds the pool and request rows and the
  positive-integer column range `0 .. 2147483647`. A request defaults to
  quantity 1. The email column is at most 254 characters, holds no NUL
  character and must pass an address validator. The module also holds the pool's string form
  `"Pool(" + product name + ")"`, the rules between tables and the
  filters:
  - referential rules: every pool's product exists, and every request's
    pool exists;
  - uniqueness: at most one request per (pool, email);
  - filters: the per-pool request filter (`RequestsIn`) and the cascade
    filter (`WithoutPools`).
  Lemmas about these filters state the invariants the store keeps.
- `store.dfy` (module `GroupBuy`) holds class `Store`. It has the three
  tables as maps from primary key to row, one key counter per table and a
  clock. Each operation is an atomic method:
  - product create/update/delete;
  - pool list/retrieve/create/update/delete;
  - request list/retrieve/submit/update/delete, always through the pool id
    of the route.

`Store.Valid()` bundles the rules the store keeps:
- valid columns in every row;
- no dangling reference;
- (pool, email) uniqueness;
- keys below the next key;
- `created_at <= updated_at <= clock`.

Every mutating method keeps `Valid()`. Each method states its whole new
state in terms of the old one. Every refusal is stated with
`unchanged(this)`.

Where the code and the intended service differ, the model follows the code.
The code has no rule that a pool ends after it starts. It has no open/closed
window and no rule that a quantity is positive (0 is accepted). It has no
committed-quantity aggregate and no ordering of listed requests. Requests
can be updated and deleted through their pool's routes. The model says
exactly this and nothing more.

Points of behaviour taken from the code:
- Creating a request runs field validation first, then the pool lookup
  (not found), then the uniqueness constraint:
  - field validation runs before `perform_create`;
  - the pool lookup is `get_object_or_404` inside `perform_create`.
  Update and delete look the request up through the pool-filtered list
  first, so a request of another pool is not found.
- On create, the pool of a request is always the route's pool. Any pool
  sent in the body (`bodyPool`) is ignored because the field is read-only.
  A request never moves to another pool on update.
- Timestamps are abstract ticks passed in by the caller. `created_at` is
  written once. `updated_at` (pools and products only; requests have none)
  becomes the tick of every save.

## Model

| member | source | states |
|---|---|---|
| `Products.ProductFieldErrors` | backend/products/models.py:5-7 | the rejected columns are empty exactly when the name is non-blank, at most 255 characters and NUL-free, the description is NUL-free and the price is below 10^12 cents in magnitude; only `name`, `description` and `unit_price` can be named, each exactly when it is invalid; an empty description is accepted |
| `Products.ProductStr` | backend/products/models.py:11-12 | the string form of a product is its name, so for a stored product a non-blank string of at most 255 characters |
| `Pools.PoolFieldErrors` | backend/pools/models.py:7-10 | a pool is accepted exactly when its product exists and min_quantity lies in 0..2147483647; each failing column is named and only `product` and `min_quantity` can be, so start and end times are never rejected |
| `Pools.RequestFieldErrors` | backend/pools/models.py:24-25 | a request is accepted exactly when its email is non-empty, at most 254 characters, NUL-free and passes the validator, and its quantity lies in 0..2147483647 (0 is allowed); only `email` and `quantity` can be named |
| `Pools.PoolStr` | backend/pools/models.py:14-15 | the string form of a pool wraps its product's string form (the product name) so that reading it back yields exactly that name |
| `Pools.RequestsIn` | backend/pools/views.py:18-20 | the requests visible through pool P's routes are exactly the stored requests whose pool is P, unchanged |
| `Pools.PoolsOf` | backend/pools/models.py:7 | the pools a product deletion reaches are exactly the stored pools of that product |
| `Pools.WithoutPools` | backend/pools/models.py:19-23 | the requests that survive a pool deletion are exactly those whose pool is not deleted, unchanged |
| `Pools.InsertUniqueIff` | backend/pools/models.py:28-29 | inserting a new request keeps (pool, email) unique if and only if no request of that pool already has that email |
| `Pools.ReplaceUniqueIff` | backend/pools/models.py:28-29 | saving a request keeps (pool, email) unique if and only if no other request of that pool has the new email |
| `Pools.SubmapKeepsUnique` | backend/pools/models.py:28-29 | removing requests never breaks (pool, email) uniqueness |
| `Pools.PoolSizeIsEmailCount` | backend/pools/models.py:28-29 | under uniqueness a pool holds exactly one request per distinct buyer email: its list length equals its number of emails |
| `Pools.InsertChangesOnePool` | backend/pools/views.py:22-25 | inserting a request adds exactly that request to its pool's list, grows that list by one, and leaves every other pool's list unchanged |
| `Pools.ReplaceChangesOnePool` | backend/pools/views.py:18-20 | saving a request that stays in its pool changes only its own entry of that pool's list; other pools' lists are unchanged |
| `Pools.RemoveChangesOnePool` | backend/pools/views.py:18-20 | deleting a request removes it from its pool's list, shrinks that list by one and leaves every other pool's list unchanged |
| `Pools.WithoutPoolsLists` | backend/pools/models.py:19-23 | after deleting pools with their requests, a deleted pool lists nothing and every other pool lists exactly what it listed before |
| `Pools.WithoutPoolSize` | backend/pools/models.py:19-23 | deleting a pool removes exactly its requests: the request table shrinks by the length of that pool's list |
| `Pools.MissingPoolHasNoRequests` | backend/pools/views.py:18-20 | with no dangling references, a pool id that is not stored lists no requests |
| `Pools.PoolCascadeKeepsReferences` | backend/pools/models.py:19-23 | after deleting pools and their requests, no request references a deleted pool |
| `Pools.ProductCascadeKeepsReferences` | backend/pools/models.py:7 | after deleting a product, its pools and their requests, every pool references a stored product and every request a stored pool |
| `Pools.InsertRequestKeepsTables` | backend/pools/views.py:22-25 | inserting a valid request into a stored pool under a new key, with its email free in that pool, keeps all table rules |
| `Pools.DeletePoolKeepsTables` | backend/pools/models.py:19-23 | deleting a pool together with its requests keeps all table rules |
| `GroupBuy.Store.CreateProduct` | backend/products/models.py:4-9 | invalid columns are refused by name with no change; otherwise exactly one product is added under a fresh key with created_at = updated_at = now |
| `GroupBuy.Store.UpdateProduct` | backend/products/models.py:4-9 | not found, then validation, each leaving the store unchanged; otherwise the product gets the new columns, keeps created_at and gets updated_at = now >= created_at |
| `GroupBuy.Store.DeleteProduct` | backend/pools/models.py:7 | a missing product is not found with no change; otherwise the product, all its pools and all their requests are deleted and nothing else |
| `GroupBuy.Store.ListPools` | backend/pools/views.py:8-9 | listing pools returns every stored pool |
| `GroupBuy.Store.GetPool` | backend/pools/views.py:8-9 | retrieving a pool succeeds exactly when it is stored and returns it; otherwise not found |
| `GroupBuy.Store.CreatePool` | backend/pools/models.py:6-12 | a missing product or out-of-range min_quantity is refused by column with no change; otherwise exactly one pool is added under a fresh key with no requests and created_at = updated_at = now |
| `GroupBuy.Store.UpdatePool` | backend/pools/models.py:6-12 | not found, then validation, each leaving the store unchanged; otherwise the pool gets the new columns, keeps created_at and its requests, and gets updated_at = now >= created_at |
| `GroupBuy.Store.DeletePool` | backend/pools/models.py:18-23 | a missing pool is not found with no change; otherwise the pool and exactly its requests are deleted, its list becomes empty and every other pool and its list stay as they were |
| `GroupBuy.Store.ListRequests` | backend/pools/views.py:18-20 | returns exactly the requests whose pool is the route's pool; for a pool id that is not stored, an empty result rather than an error |
| `GroupBuy.Store.GetRequest` | backend/pools/views.py:18-20 | retrieval through pool P succeeds exactly when the request exists and belongs to P; a request of another pool is not found |
| `GroupBuy.Store.SubmitRequest` | backend/pools/views.py:22-25 | validation, then not-found for a missing pool, then duplicate for a taken (pool, email); each refusal changes nothing; success adds exactly one request with the route's pool (whatever the body says), quantity 1 when omitted, created_at = now, and no other pool's list changes |
| `GroupBuy.Store.UpdateRequest` | backend/pools/views.py:14-20 | not found unless the request belongs to the route's pool, then validation, then duplicate if another request of that pool has the email; success keeps the pool and created_at, keeps the old quantity when none is sent, and changes no other pool's list |
| `GroupBuy.Store.DeleteRequest` | backend/pools/views.py:14-20 | not found unless the request belongs to the route's pool; otherwise exactly that request is removed and no other pool's list changes |

## Left out

- HTTP routing, serializer wire format, status codes and the `AllowAny`
  permissions are not modelled. There is no authorization logic. Route
  parameters are plain method arguments.
- Duplicate (pool, email) writes are modelled as `Err(Duplicate)`. Which
  layer refuses them, and with which response, is not modelled. The
  pool field is read-only, and the constraint is enforced by the
  database.
- Concurrency and transactions are not modelled. Each operation is one
  atomic step of a sequential store. This includes the uniqueness check
  with its insert and a cascade delete.
- Wall-clock time is not modelled. Timestamps are `nat` ticks supplied by
  the caller. Mutating methods require `clock <= now`, which stands for a
  clock that never goes backwards.
- Email syntax is not modelled. The address validator is the store's
  uninterpreted `isEmail` function.
- Decimal prices are held as whole cents, so a value with more than two
  decimal places cannot be expressed.
- Whitespace trimming of submitted strings is not modelled.
- The positive-integer bound 2147483647 is the default range of such
  columns. Some database backends allow a wider range.
- Partial updates (PATCH) are not modelled. `UpdateProduct` and
  `UpdatePool` take every column. `UpdateRequest` takes the email and an
  optional quantity.
- The code of the product routes and of the product serializer is not part
  of this model; only the product table is. `CreateProduct`,
  `UpdateProduct` and `DeleteProduct` assume a stock model view set with a
  model serializer, as the pool routes are: not found before validation on
  update and delete, and per-column validation from the table's column
  declarations.
- Product list and retrieve routes are not modelled, for the same reason.
- Text columns also refuse surrogate code points. The model has no such
  rule, because a Dafny string cannot hold a surrogate.
- `select_related` is not modelled. It is a query optimisation with no
  observable effect.
- Listed requests come back as a map with no order, because the source
  query imposes none.
- Descriptions of the service sometimes add rules the code does not have:
  - end after start;
  - an open/closed time window;
  - positive quantities;
  - committed-quantity and fulfilment aggregates;
  - ordering;
  - append-only requests.
  These are deliberately absent.
