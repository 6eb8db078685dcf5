// Field checks the delivery layer applies before calling the usecase.

module DeliveryValidate {
  import opened Domain

  /** Query parameters of GET /pets: the repeatable `tags` and the optional
      `limit`, each absent when the request omits it. */
  datatype FindPetsParams = FindPetsParams(tags: Option<seq<string>>, limit: Option<int>)

  /** A limit, when given, must not be negative; the tags are not looked at. */
  function ValidatePathParam(p: FindPetsParams): (err: Option<Error>)
    ensures err.None? <==> (p.limit.None? || 0 <= p.limit.value)
    ensures err.Some? ==> err.value == Err400BadRequest
  {
    if p.limit.Some? && p.limit.value < 0 then Some(Err400BadRequest) else None
  }

  /** The name is required (non-empty); the tag is optional. */
  function ValidatePet(p: Pet): (err: Option<Error>)
    ensures err.None? <==> p.name != ""
    ensures err.Some? ==> err.value == Err400BadRequest
  {
    if p.name == "" then Some(Err400BadRequest) else None
  }

  /** Replacing the tag list never changes the verdict on the parameters. */
  lemma ValidatePathParamIgnoresTags(p: FindPetsParams, tags: Option<seq<string>>)
    ensures ValidatePathParam(p.(tags := tags)) == ValidatePathParam(p)
  {
  }

  /** Neither the id nor the tag of a pet bears on its validation. */
  lemma ValidatePetOnlyName(p: Pet, id: int, tag: Option<string>)
    ensures ValidatePet(p.(id := id, tag := tag)) == ValidatePet(p)
  {
  }
}
