// The usecase layer: checks ids, then hands each call to the repository.
// It changes nothing itself; the table is changed only through the
// repository's CreatePet and DeletePet.

module Usecase {
  import opened Domain
  import opened UsecaseValidate
  import opened Repository

  class PetStoreUsecase {
    const repository: PetTable

    constructor (repository: PetTable)
      ensures this.repository == repository
    {
      this.repository := repository;
    }

    /** Passes any condition, unchecked, to QueryPets. */
    method FindPets(condition: QueryCondition, dbFails: bool) returns (pets: Option<seq<Pet>>, err: Option<Error>)
      requires repository.Valid()
      ensures (pets, err) == QueryPetsSpec(repository.rows, condition, dbFails)
    {
      pets, err := repository.QueryPets(condition, dbFails);
    }

    /** Passes any pet, unchecked, to CreatePet. */
    method AddPet(np: Pet, fault: WriteFault) returns (pet: Option<Pet>, err: Option<Error>)
      requires repository.Valid()
      modifies repository
      ensures repository.Valid()
      ensures Created(pet, err, repository.rows, repository.nextId)
              == CreateSpec(old(repository.rows), old(repository.nextId), np, fault)
    {
      pet, err := repository.CreatePet(np, fault);
    }

    /** A negative id is refused with (-1, BadRequest) before the table is
        touched; any other id is deleted by the repository. */
    method DeletePet(id: int, fault: WriteFault) returns (count: int, err: Option<Error>)
      requires repository.Valid()
      modifies repository
      ensures repository.Valid() && repository.nextId == old(repository.nextId)
      ensures id < 0 ==> count == -1 && err == Some(Err400BadRequest) && unchanged(repository)
      ensures 0 <= id ==> Deleted(count, err, repository.rows) == DeleteSpec(old(repository.rows), id, fault)
    {
      if ValidatePathParamPetID(id).Some? {
        return -1, Some(Err400BadRequest);
      }
      count, err := repository.DeletePet(id, fault);
    }

    /** A negative id is refused with (nil, BadRequest); any other id is
        looked up, absence giving (nil, nil). */
    method FindPetById(id: int, fault: ReadFault) returns (pet: Option<Pet>, err: Option<Error>)
      requires repository.Valid()
      ensures id < 0 ==> pet == None && err == Some(Err400BadRequest)
      ensures 0 <= id ==> (pet, err) == QueryPetSpec(repository.rows, id, fault)
    {
      if ValidatePathParamPetID(id).Some? {
        return None, Some(Err400BadRequest);
      }
      pet, err := repository.QueryPet(id, fault);
    }
  }
}
