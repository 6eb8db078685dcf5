// Domain types of the pet store: the pet row, the query condition handed to
// the repository, and the three error sentinels every layer returns.

module Domain {

  /** Absent (Go's nil pointer or nil error) or present. */
  datatype Option<+T> = None | Some(value: T)

  /** An error value as the layers pass it around. The three sentinels are
      distinct package-level values compared by identity; Foreign stands for
      any other error (a JSON decoder's, say), which carries its own text. */
  datatype Error =
    | Err400BadRequest
    | Err404NotFound
    | Err500InternalServerError
    | Foreign(text: string)
  {
    /** The text `err.Error()` yields. */
    function Message(): string
    {
      match this
      case Err400BadRequest => "Requested Parameter or Body Not Valid"
      case Err404NotFound => "Requested Resource Not Found"
      case Err500InternalServerError => "Internal Server Error"
      case Foreign(text) => text
    }

    predicate IsSentinel()
    {
      !Foreign?
    }
  }

  /** The fixed message of each sentinel, and that no two sentinels share one. */
  lemma SentinelMessages()
    ensures Err400BadRequest.Message() == "Requested Parameter or Body Not Valid"
    ensures Err404NotFound.Message() == "Requested Resource Not Found"
    ensures Err500InternalServerError.Message() == "Internal Server Error"
    ensures Err400BadRequest.Message() != Err404NotFound.Message()
    ensures Err400BadRequest.Message() != Err500InternalServerError.Message()
    ensures Err404NotFound.Message() != Err500InternalServerError.Message()
  {
  }

  /** Sentinels are told apart by identity: two sentinels are the same value
      exactly when their messages agree. */
  lemma SentinelsDistinct(a: Error, b: Error)
    requires a.IsSentinel() && b.IsSentinel()
    ensures a == b <==> a.Message() == b.Message()
  {
  }

  /** A row of the petstore table: id, name and the nullable tag. */
  datatype Pet = Pet(id: int, name: string, tag: Option<string>)

  /** A value stored under a key of the query condition: the tag list under
      "tags", the row limit under "limit". */
  datatype ConditionValue = TagList(tags: seq<string>) | Count(n: int)

  /** The free-form condition map handed from the handler to the repository. */
  type QueryCondition = map<string, ConditionValue>
}
