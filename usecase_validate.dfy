// Path-parameter check the usecase layer applies to pet ids.

module UsecaseValidate {
  import opened Domain

  /** An id is accepted exactly when it is not negative; otherwise the
      BadRequest sentinel is returned. */
  function ValidatePathParamPetID(id: int): (err: Option<Error>)
    ensures err.None? <==> 0 <= id
    ensures err.Some? ==> err.value == Err400BadRequest
  {
    if id < 0 then Some(Err400BadRequest) else None
  }

  /** The verdict depends on the sign of the id alone. */
  lemma ValidatePetIDSignOnly(a: int, b: int)
    requires (a < 0) == (b < 0)
    ensures ValidatePathParamPetID(a) == ValidatePathParamPetID(b)
  {
  }
}
