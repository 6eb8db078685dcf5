// The HTTP boundary: each handler checks its input, calls the usecase and
// turns the outcome into a status code and an optional JSON body. The
// response writer is modelled by the Response value a handler returns.

module Delivery {
  import opened Domain
  import opened DeliveryValidate
  import opened Repository
  import opened Usecase

  const StatusOK := 200
  const StatusNoContent := 204
  const StatusBadRequest := 400
  const StatusNotFound := 404
  const StatusInternalServerError := 500

  /** The JSON document written as the body. NullJson is a nil list pointer
      encoded as `null`. */
  datatype Payload =
    | PetsJson(pets: seq<Pet>)
    | PetJson(pet: Pet)
    | NullJson
    | ErrorJson(code: int, message: string)

  /** What a handler writes: the status header and, if any, the body. */
  datatype Response = Response(status: int, body: Option<Payload>)

  /** The request body of POST /pets: a decoded pet or the decoder's error. */
  datatype Decoded = Decoded(pet: Pet) | Undecodable(text: string)

  /** nil is OK; each sentinel has its own status; any other error is 500. */
  function GetStatusCode(err: Option<Error>): (code: int)
    ensures code == StatusOK <==> err.None?
    ensures code == StatusBadRequest <==> err == Some(Err400BadRequest)
    ensures code == StatusNotFound <==> err == Some(Err404NotFound)
    ensures code == StatusInternalServerError <==>
              err.Some? && (err.value == Err500InternalServerError || !err.value.IsSentinel())
  {
    match err
    case None => StatusOK
    case Some(e) =>
      match e
      case Err500InternalServerError => StatusInternalServerError
      case Err400BadRequest => StatusBadRequest
      case Err404NotFound => StatusNotFound
      case Foreign(_) => StatusInternalServerError
  }

  /** An error response: the mapped status, and a body whose code is that
      status and whose message is the error's text. */
  function WriteError(err: Error): (r: Response)
    ensures r.status == GetStatusCode(Some(err)) && r.status != StatusOK
    ensures r.body == Some(ErrorJson(r.status, err.Message()))
  {
    var code := GetStatusCode(Some(err));
    Response(code, Some(ErrorJson(code, err.Message())))
  }

  /** A success response has a body exactly when there is an object to encode. */
  function WriteSuccess(code: int, objects: Option<Payload>): (r: Response)
    ensures r.status == code
    ensures r.body.Some? <==> objects.Some?
    ensures objects.Some? ==> r.body == objects
  {
    Response(code, objects)
  }

  /** The condition the list handler hands on: "tags" only for a non-empty
      tag list, "limit" always, 100 when the request gives none. */
  function FindPetsCondition(params: FindPetsParams): (c: QueryCondition)
    ensures "tags" in c <==> params.tags.Some? && params.tags.value != []
    ensures "tags" in c ==> c["tags"] == TagList(params.tags.value)
    ensures "limit" in c && c["limit"] == Count(if params.limit.None? then 100 else params.limit.value)
    ensures c.Keys <= {"tags", "limit"}
  {
    var empty: QueryCondition := map[];
    var withTags := if params.tags.Some? && |params.tags.value| > 0
                    then empty["tags" := TagList(params.tags.value)] else empty;
    withTags["limit" := Count(if params.limit.None? then 100 else params.limit.value)]
  }

  // ---------------------------------------------------------------------
  // What each handler writes once the usecase has answered
  // ---------------------------------------------------------------------

  /** An error is written with its mapped status; otherwise 200 with the list. */
  function FindPetsReply(outcome: (Option<seq<Pet>>, Option<Error>)): (r: Response)
    ensures r.status == GetStatusCode(outcome.1)
    ensures outcome.1.None? && outcome.0.Some? ==> r.body == Some(PetsJson(outcome.0.value))
  {
    var (pets, err) := outcome;
    if err.Some? then WriteError(err.value)
    else WriteSuccess(StatusOK, Some(if pets.Some? then PetsJson(pets.value) else NullJson))
  }

  /** A created pet is answered 200, not 201; an error with its mapped status. */
  function AddPetReply(pet: Option<Pet>, err: Option<Error>): (r: Response)
    ensures r.status == GetStatusCode(err)
    ensures err.None? && pet.Some? ==> r.body == Some(PetJson(pet.value))
  {
    if err.Some? then WriteError(err.value)
    else WriteSuccess(StatusOK, Some(if pet.Some? then PetJson(pet.value) else NullJson))
  }

  /** Zero affected rows is reported as NotFound; any other count as 204. */
  function DeletePetReply(count: int, err: Option<Error>): (r: Response)
    ensures r.status == if err.Some? then GetStatusCode(err)
                        else if count == 0 then StatusNotFound else StatusNoContent
    ensures r.body.None? <==> err.None? && count != 0
  {
    if err.Some? then WriteError(err.value)
    else if count == 0 then WriteError(Err404NotFound)
    else WriteSuccess(StatusNoContent, None)
  }

  /** No pet found is reported as NotFound. */
  function FindPetByIdReply(outcome: (Option<Pet>, Option<Error>)): (r: Response)
    ensures r.status == if outcome.1.Some? then GetStatusCode(outcome.1)
                        else if outcome.0.None? then StatusNotFound else StatusOK
    ensures outcome.1.None? && outcome.0.None? ==> r.body == Some(ErrorJson(StatusNotFound, Err404NotFound.Message()))
    ensures outcome.1.None? && outcome.0.Some? ==> r.body == Some(PetJson(outcome.0.value))
  {
    var (pet, err) := outcome;
    if err.Some? then WriteError(err.value)
    else if pet.None? then WriteError(Err404NotFound)
    else WriteSuccess(StatusOK, Some(PetJson(pet.value)))
  }

  // ---------------------------------------------------------------------
  // Request-level properties
  // ---------------------------------------------------------------------

  /** Any condition the list handler builds binds: with a working database
      a validated list request is answered 200 with at most `limit` pets
      (100 when omitted), each a row of the table, and with tags each
      carrying one of them. */
  lemma FindPetsAnswersList(rows: seq<Pet>, params: FindPetsParams)
    requires ValidatePathParam(params).None?
    ensures var r := FindPetsReply(QueryPetsSpec(rows, FindPetsCondition(params), false));
            r.status == StatusOK && r.body.Some? && r.body.value.PetsJson? &&
            |r.body.value.pets| <= (if params.limit.None? then 100 else params.limit.value) &&
            (forall p :: p in r.body.value.pets ==> p in rows) &&
            (params.tags.Some? && params.tags.value != [] ==>
               forall p :: p in r.body.value.pets ==> TagIn(p, params.tags.value))
  {
  }

  /** DELETE on a valid table: 204 with no body when the id is present
      (after which GET of the id answers 404), 404 when it is absent, 500
      when the driver fails. */
  lemma DeletePetStatus(rows: seq<Pet>, nextId: int, id: int, fault: WriteFault)
    requires TableInvariant(rows, nextId)
    ensures var d := DeleteSpec(rows, id, fault);
            DeletePetReply(d.count, d.err).status ==
              if fault != WriteOk then StatusInternalServerError
              else if FindById(rows, id).Some? then StatusNoContent
              else StatusNotFound
    ensures var d := DeleteSpec(rows, id, fault);
            DeletePetReply(d.count, d.err).status == StatusNoContent ==>
              DeletePetReply(d.count, d.err).body.None? &&
              FindPetByIdReply(QueryPetSpec(d.rows, id, ReadOk)).status == StatusNotFound
  {
  }

  /** GET of an id on a valid table: 200 with the row carrying that id when
      there is one, 404 when there is none, 500 when the query cannot be
      issued, and 404 as well when stepping to the row fails. */
  lemma FindPetByIdStatus(rows: seq<Pet>, nextId: int, id: int, fault: ReadFault)
    requires TableInvariant(rows, nextId)
    ensures var r := FindPetByIdReply(QueryPetSpec(rows, id, fault));
            r.status == (if fault == QueryFails then StatusInternalServerError
                         else if fault == StepFails then StatusNotFound
                         else if exists k :: 0 <= k < |rows| && rows[k].id == id then StatusOK
                         else StatusNotFound)
    ensures forall k :: 0 <= k < |rows| && rows[k].id == id && fault == ReadOk ==>
              FindPetByIdReply(QueryPetSpec(rows, id, fault)) == Response(StatusOK, Some(PetJson(rows[k])))
  {
  }

  /** POST on a valid table with a working database: 200 (not 201) with the
      stored pet, which keeps the request's name and tag and carries an id
      no row had before; any driver failure gives 500. */
  lemma AddPetStatus(rows: seq<Pet>, nextId: int, np: Pet, fault: WriteFault)
    requires TableInvariant(rows, nextId)
    ensures var c := CreateSpec(rows, nextId, np, fault);
            AddPetReply(c.pet, c.err).status == if fault == WriteOk then StatusOK else StatusInternalServerError
    ensures var c := CreateSpec(rows, nextId, np, fault);
            fault == WriteOk ==>
              exists p :: AddPetReply(c.pet, c.err).body == Some(PetJson(p)) &&
                p.name == np.name && p.tag == np.tag && FindById(rows, p.id).None? &&
                FindById(c.rows, p.id) == Some(p)
  {
    CreateAssignsFreshId(rows, nextId, np, fault);
    if fault == WriteOk {
      var c := CreateSpec(rows, nextId, np, fault);
      assert AddPetReply(c.pet, c.err).body == Some(PetJson(c.pet.value));
    }
  }

  // ---------------------------------------------------------------------
  // The handlers
  // ---------------------------------------------------------------------

  class PetStoreDelivery {
    const usecase: PetStoreUsecase

    constructor (usecase: PetStoreUsecase)
      ensures this.usecase == usecase
    {
      this.usecase := usecase;
    }

    /** GET /pets: a negative limit is answered 400 without a query. */
    method FindPets(params: FindPetsParams, dbFails: bool) returns (r: Response)
      requires usecase.repository.Valid()
      ensures ValidatePathParam(params).Some? ==> r == WriteError(Err400BadRequest)
      ensures ValidatePathParam(params).None? ==>
                r == FindPetsReply(QueryPetsSpec(usecase.repository.rows, FindPetsCondition(params), dbFails))
    {
      var err := ValidatePathParam(params);
      if err.Some? {
        return WriteError(err.value);
      }
      var condition := FindPetsCondition(params);
      var pets, qerr := usecase.FindPets(condition, dbFails);
      r := FindPetsReply((pets, qerr));
    }

    /** POST /pets: an undecodable body is answered 500 and an empty name
        400, both without touching the table. */
    method AddPet(body: Decoded, fault: WriteFault) returns (r: Response)
      requires usecase.repository.Valid()
      modifies usecase.repository
      ensures usecase.repository.Valid()
      ensures body.Undecodable? ==>
                r == WriteError(Foreign(body.text)) && r.status == StatusInternalServerError &&
                unchanged(usecase.repository)
      ensures body.Decoded? && body.pet.name == "" ==>
                r == WriteError(Err400BadRequest) && unchanged(usecase.repository)
      ensures body.Decoded? && body.pet.name != "" ==>
                var c := CreateSpec(old(usecase.repository.rows), old(usecase.repository.nextId), body.pet, fault);
                r == AddPetReply(c.pet, c.err) &&
                usecase.repository.rows == c.rows && usecase.repository.nextId == c.nextId
    {
      if body.Undecodable? {
        return WriteError(Foreign(body.text));
      }
      var np := body.pet;
      var err := ValidatePet(np);
      if err.Some? {
        return WriteError(err.value);
      }
      var p, aerr := usecase.AddPet(np, fault);
      r := AddPetReply(p, aerr);
    }

    /** DELETE /pets/{id}: a negative id is answered 400 without touching
        the table. */
    method DeletePet(id: int, fault: WriteFault) returns (r: Response)
      requires usecase.repository.Valid()
      modifies usecase.repository
      ensures usecase.repository.Valid()
      ensures id < 0 ==> r == WriteError(Err400BadRequest) && unchanged(usecase.repository)
      ensures 0 <= id ==>
                var d := DeleteSpec(old(usecase.repository.rows), id, fault);
                r == DeletePetReply(d.count, d.err) && usecase.repository.rows == d.rows &&
                usecase.repository.nextId == old(usecase.repository.nextId)
    {
      var count, err := usecase.DeletePet(id, fault);
      r := DeletePetReply(count, err);
    }

    /** GET /pets/{id}: a negative id is answered 400 without a query. */
    method FindPetById(id: int, fault: ReadFault) returns (r: Response)
      requires usecase.repository.Valid()
      ensures id < 0 ==> r == WriteError(Err400BadRequest)
      ensures 0 <= id ==> r == FindPetByIdReply(QueryPetSpec(usecase.repository.rows, id, fault))
    {
      var pet, err := usecase.FindPetById(id, fault);
      r := FindPetByIdReply((pet, err));
    }
  }
}
