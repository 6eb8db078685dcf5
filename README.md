# Pet store request pipeline, modelled in Dafny

The pet store is a small three-layer CRUD service over one `petstore` table
(`id` autoincrement primary key, `name`, nullable `tag`). This project models
its request pipeline:

- **Domain** (`domain.dfy`): the pet row, the free-form query condition, and
  the three error sentinels with their fixed messages. Any other Go `error`
  (a JSON decoder's, say) is `Foreign(text)`; Go's nil is `None`.
- **UsecaseValidate** and **DeliveryValidate** (`usecase_validate.dfy`,
  `delivery_validate.dfy`): the id check (non-negative), the limit check
  (a given limit must be non-negative) and the pet check (name required).
- **Repository** (`repository.dfy`): the table as a class `PetTable` with a
  `seq<Pet>` of rows and the AUTOINCREMENT counter `nextId`. The list query's
  text is built clause by clause (`BuildSelect`). What the SQL engine does with
  each statement is a specification function over the rows: `QueryPetsSpec`
  (filter by tag, then `LIMIT`), `QueryPetSpec` (find the first row with the
  id), `CreateSpec` (append under the next id), `DeleteSpec` (remove the rows
  with the id, report how many). The methods of `PetTable` are proved equal to
  these, and the lemmas prove what the source and its tests promise of them.
  The table invariant is that ids strictly ascend (rowid order), are positive
  and lie below the counter.
- **Usecase** (`usecase.dfy`): a class over the table that refuses negative
  ids with BadRequest before the table is touched and otherwise delegates.
- **Delivery** (`delivery.dfy`): the status mapping, the error and success
  writers, the condition the list handler builds, and per handler a reply
  function from the usecase's outcome to a `Response` (status and optional
  JSON body). The handlers themselves are methods of `PetStoreDelivery` that
  validate, call the usecase and return that reply. Request-level lemmas
  (list bounded by limit, delete then get answers 404, create returns a fresh
  id, 400 without storage access on negative ids) tie the layers together.

Failures of the database driver cannot be computed. They are parameters:
`dbFails` for the list SELECT, `ReadFault` for the single-row SELECT, and
`WriteFault` for INSERT and DELETE. A `ReadFault` says whether issuing the
query fails (Internal) or stepping to the first row fails; the code never
reads the step's error, so the latter looks like an empty result, (nil, nil),
which the handler answers 404. A `WriteFault` says whether preparing the statement, executing it, or reading
`LastInsertId`/`RowsAffected` afterwards fails. In the last case the row has
already been written or removed, and the model keeps that effect while
returning the Internal sentinel, as the code does.

Three details of the code the model keeps:
- The table is `petstore`.
- An empty `tags` list is dropped by the list handler. A `tags` key with an
  empty list that reaches `QueryPets` fails the `IN` expansion, and the call
  answers Internal.
- SQLite treats a negative `LIMIT` as no bound. The delivery layer never
  lets one through, but `QueryPetsSpec` models it.

## Model

| member | source | states |
|---|---|---|
| Domain.SentinelMessages | petstore/domain/errors.go:5-12 | the BadRequest, NotFound and Internal messages are exactly the three fixed texts, pairwise different |
| Domain.SentinelsDistinct | petstore/domain/errors.go:5-12 | two sentinels are the same value exactly when their messages agree |
| UsecaseValidate.ValidatePathParamPetID | petstore/usecase/petstore.validate.go:8-14 | no error iff id >= 0 (0 included); the only error is BadRequest |
| UsecaseValidate.ValidatePetIDSignOnly | petstore/usecase/petstore.validate.go:10 | the verdict depends only on the sign of the id |
| DeliveryValidate.ValidatePathParam | petstore/delivery/petstore.validate.go:10-15 | no error iff the limit is absent or >= 0; the only error is BadRequest |
| DeliveryValidate.ValidatePathParamIgnoresTags | petstore/delivery/petstore.validate.go:10-15 | any tag list gives the same verdict |
| DeliveryValidate.ValidatePet | petstore/delivery/petstore.validate.go:18-26 | no error iff the name is non-empty; the only error is BadRequest |
| DeliveryValidate.ValidatePetOnlyName | petstore/delivery/petstore.validate.go:18-26 | the id and tag of the pet never change the verdict |
| Repository.BuildSelect | petstore/repository/petstore.go:39-44 | the text is the WHERE-tag-IN shape exactly when the condition has a `tags` key, else the plain shape; both hold only the `:tags`/`:limit` placeholders, and the text decides which placeholders are bound |
| Repository.Matching | petstore/repository/petstore.go:42 | a row is kept iff it is a table row whose non-NULL tag is in the list |
| Repository.MatchingNone | petstore/repository/petstore.go:42 | no row's tag in the list gives no rows |
| Repository.FindById | petstore/repository/petstore.go:74-89 | a found row is a table row with that id; nothing is found iff no row has that id |
| Repository.FindByIdUnique | petstore/repository/petstore.go:74 | with ascending ids, looking up a row's id finds that very row |
| Repository.WithoutId | petstore/repository/petstore.go:128 | a row remains iff it was a row and its id differs |
| Repository.QueryPetsErrors | petstore/repository/petstore.go:47-64 | every failure (bind or select) is exactly (nil, Internal); success iff binding succeeds and the database works, and then a list is returned |
| Repository.QueryPetsLimit | petstore/repository/petstore.go:44-64 | with limit n >= 0 at most n rows come back, precisely min(n, number of candidate rows) |
| Repository.QueryPetsByTags | petstore/repository/petstore.go:41-44 | with tags every returned row is a table row whose tag is listed; when the limit is negative or at least the number of matching rows, exactly those rows are returned |
| Repository.QueryPetsNoMatch | petstore/repository/petstore.go:40-64 | a tag list matching no row gives an empty list and no error |
| Repository.CreatePreservesInvariant | petstore/repository/petstore.go:98-118 | every CreatePet outcome keeps ids ascending, positive and below the counter |
| Repository.CreateAssignsFreshId | petstore/repository/petstore.go:93-119 | success returns the input's name and tag under an id no row had, which a lookup now finds; every failure is (nil, Internal) |
| Repository.WithoutIdAscending | petstore/repository/petstore.go:137 | deleting keeps the rows in ascending id order |
| Repository.WithoutMissingId | petstore/repository/petstore.go:137 | deleting an id no row has leaves the table unchanged |
| Repository.WithoutPresentId | petstore/repository/petstore.go:137-147 | deleting a present id from ascending rows removes exactly one row |
| Repository.DeletePreservesInvariant | petstore/repository/petstore.go:128-147 | every DeletePet outcome keeps the table invariant |
| Repository.DeleteCount | petstore/repository/petstore.go:122-148 | success reports 1 for a present id, 0 and an unchanged table for a missing one; other rows remain; the id is gone; failures report (-1, Internal) |
| Repository.PetTable.QueryPets | petstore/repository/petstore.go:34-65 | builds the text, binds and selects, giving exactly QueryPetsSpec of the current rows |
| Repository.PetTable.QueryPet | petstore/repository/petstore.go:68-90 | gives exactly QueryPetSpec of the current rows: the row, (nil, nil) when absent or when stepping to the row fails, (nil, Internal) only when the query cannot be issued |
| Repository.PetTable.CreatePet | petstore/repository/petstore.go:93-119 | the new table, counter and result are CreateSpec of the old ones; the invariant holds |
| Repository.PetTable.DeletePet | petstore/repository/petstore.go:122-148 | the new table and result are DeleteSpec of the old table; the counter is unchanged |
| Usecase.PetStoreUsecase.FindPets | petstore/usecase/petstore.go:33-35 | passes any condition unchecked: the result is the repository's QueryPets result |
| Usecase.PetStoreUsecase.AddPet | petstore/usecase/petstore.go:38-40 | passes any pet unchecked: result and table are the repository's CreatePet effect |
| Usecase.PetStoreUsecase.DeletePet | petstore/usecase/petstore.go:43-50 | a negative id gives (-1, BadRequest) with the table unchanged; otherwise the repository's DeletePet result and effect |
| Usecase.PetStoreUsecase.FindPetById | petstore/usecase/petstore.go:53-60 | a negative id gives (nil, BadRequest); otherwise the repository's QueryPet result, (nil, nil) for absence |
| Delivery.GetStatusCode | petstore/delivery/petstore.go:161-177 | 200 iff nil, 400 iff BadRequest, 404 iff NotFound, 500 iff Internal or any non-sentinel error |
| Delivery.WriteError | petstore/delivery/petstore.go:151-159 | status is the mapped code (never 200); body code equals the status and message equals the error's text |
| Delivery.WriteSuccess | petstore/delivery/petstore.go:143-149 | a body is written exactly when there is an object |
| Delivery.FindPetsCondition | petstore/delivery/petstore.go:46-54 | `tags` key iff tags present and non-empty, holding them; `limit` always, 100 when absent, else the given value; no other key |
| Delivery.FindPetsReply | petstore/delivery/petstore.go:56-62 | status is the mapped code of the usecase error; on success 200 with the list |
| Delivery.AddPetReply | petstore/delivery/petstore.go:80-86 | status is the mapped code of the usecase error; on success 200 (not 201) with the pet |
| Delivery.DeletePetReply | petstore/delivery/petstore.go:94-107 | an error gives its mapped status, 0 rows gives 404, any other count 204; a body is written unless it is 204 |
| Delivery.FindPetByIdReply | petstore/delivery/petstore.go:116-128 | an error gives its mapped status, no pet gives 404 with the NotFound message, else 200 with the pet |
| Delivery.FindPetsAnswersList | petstore/delivery/petstore.go:38-63 | a validated list request on a working database is 200 with at most limit (default 100) table rows, each with a listed tag when tags were given |
| Delivery.DeletePetStatus | petstore/delivery/petstore.go:90-109 | DELETE answers 204 without a body for a present id (a later GET answers 404), 404 for a missing one, 500 on driver failure |
| Delivery.FindPetByIdStatus | petstore/delivery/petstore.go:112-129 | GET by id answers 200 with the row carrying the id, 404 when none does or when stepping to the row fails, 500 when the query cannot be issued |
| Delivery.AddPetStatus | petstore/delivery/petstore.go:66-87 | POST answers 200 with the stored pet (same name and tag, previously unused id) or 500 on driver failure |
| Delivery.PetStoreDelivery.FindPets | petstore/delivery/petstore.go:38-63 | a failed limit check answers 400 before any query; otherwise the reply to QueryPets of the built condition |
| Delivery.PetStoreDelivery.AddPet | petstore/delivery/petstore.go:66-87 | an undecodable body answers 500 and an empty name 400, both with the table unchanged; otherwise the reply to CreatePet and its effect |
| Delivery.PetStoreDelivery.DeletePet | petstore/delivery/petstore.go:90-109 | a negative id answers 400 with the table unchanged; otherwise the reply to DeletePet and its effect |
| Delivery.PetStoreDelivery.FindPetById | petstore/delivery/petstore.go:112-129 | a negative id answers 400 before any query; otherwise the reply to QueryPet |

## Left out

- `main.go` (configuration file, flags, database connection, HTTP server start-up): pure I/O.
- The generated OpenAPI types, router and request-validation middleware: not part of this model. The handlers receive already-parsed parameters.
- JSON encoding and decoding. A request body is either a decoded pet or an undecodable one carrying the decoder's message. A response body is a `Payload` value.
- `log.Println` calls: no observable effect on responses.
- The internals of `sqlx.Named`, `sqlx.In`, `Rebind`, `asMap` and the SQLite driver. Binding is modelled by `Bind`. It fails when `limit` has no integer value, or when `tags` is not a non-empty list; a key with a value of the wrong kind is treated as a binding failure. Any other driver failure is the `dbFails`, `ReadFault` or `WriteFault` parameter.
- Row order of SELECT results. The specification functions return rows in table order, but the lemmas state only bounds and membership, never order.
- Repository.PetTable.QueryPet: does not model a failing `rows.StructScan`. The code discards that error and answers 200 with a zero or partly filled pet; which fields it holds depends on the driver, so the model has no such outcome.
- Repository.PetTable.CreatePet: writes the assigned id into the returned value, not into the caller's pet through a pointer. No caller reads the pet again except through the returned value.
- Integer widths (`int64` ids and counts, the `int32` error code): the model uses unbounded integers. Ids and status codes never come near these bounds.
- Concurrent requests and the database pool: each request is modelled as one sequential call.
- The unused helper `write201`: it is never called.
- The test suite's concrete ten-row data: only its asserted behaviour is modelled, through the general lemmas.
