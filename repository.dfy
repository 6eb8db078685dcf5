// The storage layer: the petstore table held in memory, the SELECT text
// built from a query condition, and the four statements the repository runs.
// What the SQL engine does with each statement is given by a specification
// function over the table's rows; failures of the driver are parameters.

module Repository {
  import opened Domain

  // ---------------------------------------------------------------------
  // Statement text
  // ---------------------------------------------------------------------

  /** The clauses of the list query. */
  const SelectHead: string := "SELECT id, name, tag FROM petstore "
  const TagsFilter: string := "WHERE tag IN (:tags) "
  const LimitClause: string := "LIMIT :limit"

  /** The two shapes the list query can take, "SELECT id, name, tag FROM
      petstore WHERE tag IN (:tags) LIMIT :limit" and "SELECT id, name, tag
      FROM petstore LIMIT :limit". Neither holds a value of the condition:
      only the named placeholders `:tags` and `:limit`. */
  const SelectByTags: string := SelectHead + TagsFilter + LimitClause
  const SelectAll: string := SelectHead + LimitClause

  /** Grows the statement clause by clause; the filter clause is added
      exactly when the condition has a `tags` key, whatever its value. */
  method BuildSelect(condition: QueryCondition) returns (sql: string)
    ensures "tags" in condition ==> sql == SelectByTags
    ensures "tags" !in condition ==> sql == SelectAll
  {
    sql := "SELECT id, name, tag FROM petstore ";
    if "tags" in condition {
      sql := sql + "WHERE tag IN (:tags) ";
    }
    sql := sql + "LIMIT :limit";
  }

  /** The text BuildSelect produces, for use in specifications. */
  function SelectText(condition: QueryCondition): string
  {
    if "tags" in condition then SelectByTags else SelectAll
  }

  // ---------------------------------------------------------------------
  // Table contents
  // ---------------------------------------------------------------------

  /** Rows are kept in rowid order: ids strictly ascend. */
  ghost predicate Ascending(rows: seq<Pet>)
  {
    forall i, j :: 0 <= i < j < |rows| ==> rows[i].id < rows[j].id
  }

  /** The table invariant: ids ascend, are positive and lie below the next
      id the AUTOINCREMENT counter will hand out. */
  ghost predicate TableInvariant(rows: seq<Pet>, nextId: int)
  {
    0 < nextId && Ascending(rows) &&
    forall i :: 0 <= i < |rows| ==> 0 < rows[i].id < nextId
  }

  /** `tag IN (...)`: a NULL tag matches no list. */
  predicate TagIn(p: Pet, tags: seq<string>)
  {
    p.tag.Some? && p.tag.value in tags
  }

  /** The rows the WHERE clause keeps, in table order. */
  function Matching(rows: seq<Pet>, tags: seq<string>): (r: seq<Pet>)
    ensures |r| <= |rows|
    ensures forall p :: p in r <==> p in rows && TagIn(p, tags)
  {
    if rows == [] then []
    else if TagIn(rows[0], tags) then [rows[0]] + Matching(rows[1..], tags)
    else Matching(rows[1..], tags)
  }

  /** `LIMIT n`: at most n rows; a negative n sets no bound. */
  function Limited(rows: seq<Pet>, limit: int): seq<Pet>
  {
    if limit < 0 || |rows| <= limit then rows else rows[..limit]
  }

  /** The first row (in table order) with the given id. */
  function FindById(rows: seq<Pet>, id: int): (r: Option<Pet>)
    ensures r.Some? ==> r.value in rows && r.value.id == id
    ensures r.None? <==> forall k :: 0 <= k < |rows| ==> rows[k].id != id
  {
    if rows == [] then None
    else if rows[0].id == id then Some(rows[0])
    else FindById(rows[1..], id)
  }

  /** The rows `DELETE ... WHERE id = :id` leaves behind, in table order. */
  function WithoutId(rows: seq<Pet>, id: int): (r: seq<Pet>)
    ensures |r| <= |rows|
    ensures forall p :: p in r <==> p in rows && p.id != id
  {
    if rows == [] then []
    else if rows[0].id == id then WithoutId(rows[1..], id)
    else [rows[0]] + WithoutId(rows[1..], id)
  }

  // ---------------------------------------------------------------------
  // QueryPets
  // ---------------------------------------------------------------------

  /** The parameters bound to the list statement. */
  datatype Binding = Binding(tags: Option<seq<string>>, limit: int)

  /** Binding the condition to the placeholders of the statement text.
      Every text binds `:limit`; only the filtered one also binds `:tags`.
      sqlx.Named fails when a placeholder has no value of its kind under its
      key; sqlx.In fails when the list bound to `:tags` is empty. */
  function Bind(sql: string, condition: QueryCondition): Option<Binding>
  {
    if "limit" !in condition || !condition["limit"].Count? then None
    else if sql != SelectByTags then Some(Binding(None, condition["limit"].n))
    else if "tags" in condition && condition["tags"].TagList? && condition["tags"].tags != [] then
      Some(Binding(Some(condition["tags"].tags), condition["limit"].n))
    else None
  }

  /** The rows the bound statement selects. */
  function Selected(rows: seq<Pet>, b: Binding): seq<Pet>
  {
    Limited(if b.tags.Some? then Matching(rows, b.tags.value) else rows, b.limit)
  }

  /** What QueryPets returns: the selected rows, or nil and the Internal
      sentinel when binding or the SELECT itself fails. */
  function QueryPetsSpec(rows: seq<Pet>, condition: QueryCondition, dbFails: bool): (Option<seq<Pet>>, Option<Error>)
  {
    match Bind(SelectText(condition), condition)
    case None => (None, Some(Err500InternalServerError))
    case Some(b) => if dbFails then (None, Some(Err500InternalServerError)) else (Some(Selected(rows, b)), None)
  }

  /** A failed QueryPets gives exactly (nil, Internal); a successful one a list. */
  lemma QueryPetsErrors(rows: seq<Pet>, condition: QueryCondition, dbFails: bool)
    ensures QueryPetsSpec(rows, condition, dbFails).1.Some? ==>
              QueryPetsSpec(rows, condition, dbFails) == (None, Some(Err500InternalServerError))
    ensures QueryPetsSpec(rows, condition, dbFails).1.None? <==>
              !dbFails && Bind(SelectText(condition), condition).Some?
    ensures QueryPetsSpec(rows, condition, dbFails).1.None? ==> QueryPetsSpec(rows, condition, dbFails).0.Some?
  {
  }

  /** A non-negative limit bounds the result, and the result has exactly
      min(limit, number of candidate rows) elements. */
  lemma QueryPetsLimit(rows: seq<Pet>, condition: QueryCondition, n: int)
    requires "limit" in condition && condition["limit"] == Count(n) && 0 <= n
    requires QueryPetsSpec(rows, condition, false).1.None?
    ensures |QueryPetsSpec(rows, condition, false).0.value| <= n
    ensures "tags" !in condition ==>
              |QueryPetsSpec(rows, condition, false).0.value| == if n < |rows| then n else |rows|
    ensures "tags" in condition ==>
              |QueryPetsSpec(rows, condition, false).0.value|
                == if n < |Matching(rows, condition["tags"].tags)| then n else |Matching(rows, condition["tags"].tags)|
  {
  }

  /** With tags, every returned row is a row of the table whose tag is in
      the list; when the limit does not cut, every such row is returned. */
  lemma QueryPetsByTags(rows: seq<Pet>, condition: QueryCondition, tags: seq<string>, p: Pet)
    requires "tags" in condition && condition["tags"] == TagList(tags)
    requires QueryPetsSpec(rows, condition, false).1.None?
    ensures p in QueryPetsSpec(rows, condition, false).0.value ==> p in rows && TagIn(p, tags)
    ensures (condition["limit"].n < 0 || |Matching(rows, tags)| <= condition["limit"].n) ==>
              (p in QueryPetsSpec(rows, condition, false).0.value <==> p in rows && TagIn(p, tags))
  {
  }

  /** A tag list matching no row gives an empty list, not an error. */
  lemma QueryPetsNoMatch(rows: seq<Pet>, condition: QueryCondition, tags: seq<string>)
    requires "tags" in condition && condition["tags"] == TagList(tags) && tags != []
    requires "limit" in condition && condition["limit"].Count?
    requires forall k :: 0 <= k < |rows| ==> !TagIn(rows[k], tags)
    ensures QueryPetsSpec(rows, condition, false) == (Some([]), None)
  {
    MatchingNone(rows, tags);
  }

  /** No row's tag in the list: the WHERE clause keeps nothing. */
  lemma {:induction false} MatchingNone(rows: seq<Pet>, tags: seq<string>)
    requires forall k :: 0 <= k < |rows| ==> !TagIn(rows[k], tags)
    ensures Matching(rows, tags) == []
  {
    if rows != [] {
      assert !TagIn(rows[0], tags);
      forall k | 0 <= k < |rows[1..]| ensures !TagIn(rows[1..][k], tags) {
        assert rows[1..][k] == rows[k + 1];
      }
      MatchingNone(rows[1..], tags);
    }
  }

  // ---------------------------------------------------------------------
  // QueryPet
  // ---------------------------------------------------------------------

  /** Where the single-row lookup can fail: issuing the query (Queryx), or
      stepping to the first row. `rows.Err()` is never read, so a failed
      step looks like an empty result. */
  datatype ReadFault = ReadOk | QueryFails | StepFails

  /** What QueryPet returns: the row with that id, (nil, nil) when there is
      none or when stepping fails, and (nil, Internal) only when the query
      cannot be issued. */
  function QueryPetSpec(rows: seq<Pet>, id: int, fault: ReadFault): (Option<Pet>, Option<Error>)
  {
    match fault
    case QueryFails => (None, Some(Err500InternalServerError))
    case StepFails => (None, None)
    case ReadOk => (FindById(rows, id), None)
  }

  /** With ascending ids the row found for an id is the one row carrying it. */
  lemma FindByIdUnique(rows: seq<Pet>, k: int)
    requires Ascending(rows) && 0 <= k < |rows|
    ensures FindById(rows, rows[k].id) == Some(rows[k])
  {
  }

  // ---------------------------------------------------------------------
  // CreatePet and DeletePet
  // ---------------------------------------------------------------------

  /** Where a write statement can fail: preparing it, executing it, or
      reading back LastInsertId / RowsAffected after it took effect. */
  datatype WriteFault = WriteOk | PrepareFails | ExecFails | ResultFails

  /** The returned pet and error, and the table afterwards. */
  datatype Created = Created(pet: Option<Pet>, err: Option<Error>, rows: seq<Pet>, nextId: int)

  /** INSERT gives the row the counter's id; the returned pet is the input
      with that id. A failure after the insert leaves the row in place. */
  function CreateSpec(rows: seq<Pet>, nextId: int, p: Pet, fault: WriteFault): Created
  {
    var stored := p.(id := nextId);
    match fault
    case PrepareFails => Created(None, Some(Err500InternalServerError), rows, nextId)
    case ExecFails => Created(None, Some(Err500InternalServerError), rows, nextId)
    case ResultFails => Created(None, Some(Err500InternalServerError), rows + [stored], nextId + 1)
    case WriteOk => Created(Some(stored), None, rows + [stored], nextId + 1)
  }

  /** Every CreatePet outcome keeps the table invariant. */
  lemma CreatePreservesInvariant(rows: seq<Pet>, nextId: int, p: Pet, fault: WriteFault)
    requires TableInvariant(rows, nextId)
    ensures TableInvariant(CreateSpec(rows, nextId, p, fault).rows, CreateSpec(rows, nextId, p, fault).nextId)
  {
  }

  /** A successful CreatePet returns the input's name and tag under an id no
      row had before, and that pet is now what a lookup of the id finds;
      every failure is the Internal sentinel with no pet. */
  lemma CreateAssignsFreshId(rows: seq<Pet>, nextId: int, p: Pet, fault: WriteFault)
    requires TableInvariant(rows, nextId)
    ensures CreateSpec(rows, nextId, p, fault).err.Some? <==> fault != WriteOk
    ensures CreateSpec(rows, nextId, p, fault).err.Some? ==>
              CreateSpec(rows, nextId, p, fault).err == Some(Err500InternalServerError) &&
              CreateSpec(rows, nextId, p, fault).pet.None?
    ensures fault == WriteOk ==>
              var c := CreateSpec(rows, nextId, p, fault);
              c.pet.Some? && c.pet.value.name == p.name && c.pet.value.tag == p.tag &&
              FindById(rows, c.pet.value.id).None? &&
              FindById(c.rows, c.pet.value.id) == c.pet
  {
    if fault == WriteOk {
      var c := CreateSpec(rows, nextId, p, fault);
      assert Ascending(c.rows);
      FindByIdUnique(c.rows, |rows|);
    }
  }

  /** The affected-row count, the error, and the table afterwards. */
  datatype Deleted = Deleted(count: int, err: Option<Error>, rows: seq<Pet>)

  /** DELETE removes the rows with that id and reports how many went; every
      failure reports -1 and Internal, and a failure after the delete leaves
      the rows removed. */
  function DeleteSpec(rows: seq<Pet>, id: int, fault: WriteFault): Deleted
  {
    var rest := WithoutId(rows, id);
    match fault
    case PrepareFails => Deleted(-1, Some(Err500InternalServerError), rows)
    case ExecFails => Deleted(-1, Some(Err500InternalServerError), rows)
    case ResultFails => Deleted(-1, Some(Err500InternalServerError), rest)
    case WriteOk => Deleted(|rows| - |rest|, None, rest)
  }

  /** Removing one id from ascending rows leaves them ascending. */
  lemma {:induction false} WithoutIdAscending(rows: seq<Pet>, id: int)
    requires Ascending(rows)
    ensures Ascending(WithoutId(rows, id))
  {
    if rows != [] {
      var tail := rows[1..];
      assert Ascending(tail) by {
        forall i, j | 0 <= i < j < |tail| ensures tail[i].id < tail[j].id {
          assert tail[i] == rows[i + 1] && tail[j] == rows[j + 1];
        }
      }
      WithoutIdAscending(tail, id);
      var r := WithoutId(tail, id);
      forall q | q in r ensures rows[0].id < q.id {
        var k :| 0 <= k < |tail| && tail[k] == q;
        assert tail[k] == rows[k + 1];
      }
    }
  }

  /** Deleting an id no row has changes nothing. */
  lemma {:induction false} WithoutMissingId(rows: seq<Pet>, id: int)
    requires forall k :: 0 <= k < |rows| ==> rows[k].id != id
    ensures WithoutId(rows, id) == rows
  {
    if rows != [] {
      WithoutMissingId(rows[1..], id);
      assert [rows[0]] + rows[1..] == rows;
    }
  }

  /** From ascending rows, deleting an id that is present removes exactly one row. */
  lemma {:induction false} WithoutPresentId(rows: seq<Pet>, k: int)
    requires Ascending(rows) && 0 <= k < |rows|
    ensures |WithoutId(rows, rows[k].id)| == |rows| - 1
  {
    var tail := rows[1..];
    assert Ascending(tail) by {
      forall i, j | 0 <= i < j < |tail| ensures tail[i].id < tail[j].id {
        assert tail[i] == rows[i + 1] && tail[j] == rows[j + 1];
      }
    }
    if k == 0 {
      forall m | 0 <= m < |tail| ensures tail[m].id != rows[0].id {
        assert tail[m] == rows[m + 1];
      }
      WithoutMissingId(tail, rows[0].id);
    } else {
      assert rows[0].id < rows[k].id;
      assert tail[k - 1] == rows[k];
      WithoutPresentId(tail, k - 1);
    }
  }

  /** Every DeletePet outcome keeps the table invariant; the counter is not rewound. */
  lemma DeletePreservesInvariant(rows: seq<Pet>, nextId: int, id: int, fault: WriteFault)
    requires TableInvariant(rows, nextId)
    ensures TableInvariant(DeleteSpec(rows, id, fault).rows, nextId)
  {
    WithoutIdAscending(rows, id);
    var r := WithoutId(rows, id);
    forall i | 0 <= i < |r| ensures 0 < r[i].id < nextId {
      assert r[i] in rows;
    }
  }

  /** A successful DeletePet reports 1 for a present id and 0 for a missing
      one (leaving the table as it was); rows with other ids all remain, the
      deleted id is gone, and a failure reports (-1, Internal). */
  lemma DeleteCount(rows: seq<Pet>, nextId: int, id: int, fault: WriteFault)
    requires TableInvariant(rows, nextId)
    ensures var d := DeleteSpec(rows, id, fault);
            d.err.Some? <==> fault != WriteOk
    ensures var d := DeleteSpec(rows, id, fault);
            d.err.Some? ==> d.count == -1 && d.err == Some(Err500InternalServerError)
    ensures var d := DeleteSpec(rows, id, fault);
            fault == WriteOk ==> (d.count == 1 <==> FindById(rows, id).Some?)
    ensures var d := DeleteSpec(rows, id, fault);
            fault == WriteOk && FindById(rows, id).None? ==> d.count == 0 && d.rows == rows
    ensures var d := DeleteSpec(rows, id, fault);
            forall p :: p in rows && p.id != id ==> p in d.rows
    ensures var d := DeleteSpec(rows, id, fault);
            (fault == WriteOk || fault == ResultFails) ==> FindById(d.rows, id).None?
  {
    var f := FindById(rows, id);
    if f.None? {
      WithoutMissingId(rows, id);
    } else {
      var k :| 0 <= k < |rows| && rows[k] == f.value;
      WithoutPresentId(rows, k);
    }
    var r := WithoutId(rows, id);
    forall k | 0 <= k < |r| ensures r[k].id != id {
      assert r[k] in r;
    }
  }

  // ---------------------------------------------------------------------
  // The table
  // ---------------------------------------------------------------------

  /** The petstore table: its rows and the AUTOINCREMENT counter. */
  class PetTable {
    var rows: seq<Pet>
    var nextId: int

    ghost predicate Valid()
      reads this
    {
      TableInvariant(rows, nextId)
    }

    /** An empty table whose first id will be 1. */
    constructor ()
      ensures Valid() && rows == [] && nextId == 1
    {
      rows := [];
      nextId := 1;
    }

    /** Builds the statement, binds the condition to it and selects. */
    method QueryPets(condition: QueryCondition, dbFails: bool) returns (pets: Option<seq<Pet>>, err: Option<Error>)
      requires Valid()
      ensures (pets, err) == QueryPetsSpec(rows, condition, dbFails)
    {
      var sql := BuildSelect(condition);
      var bound := Bind(sql, condition);
      if bound.None? {
        return None, Some(Err500InternalServerError);
      }
      if dbFails {
        return None, Some(Err500InternalServerError);
      }
      pets := Some(Selected(rows, bound.value));
      err := None;
    }

    /** `SELECT ... WHERE id = :id LIMIT 1`: the row, or (nil, nil). */
    method QueryPet(id: int, fault: ReadFault) returns (pet: Option<Pet>, err: Option<Error>)
      requires Valid()
      ensures (pet, err) == QueryPetSpec(rows, id, fault)
    {
      if fault == QueryFails {
        return None, Some(Err500InternalServerError);
      }
      if fault == StepFails {
        return None, None;
      }
      pet := FindById(rows, id);
      err := None;
    }

    /** Inserts the pet's name and tag and writes the assigned id into it. */
    method CreatePet(p: Pet, fault: WriteFault) returns (pet: Option<Pet>, err: Option<Error>)
      requires Valid()
      modifies this
      ensures Valid()
      ensures Created(pet, err, rows, nextId) == CreateSpec(old(rows), old(nextId), p, fault)
    {
      CreatePreservesInvariant(rows, nextId, p, fault);
      if fault == PrepareFails || fault == ExecFails {
        return None, Some(Err500InternalServerError);
      }
      var stored := p.(id := nextId);
      rows := rows + [stored];
      nextId := nextId + 1;
      if fault == ResultFails {
        return None, Some(Err500InternalServerError);
      }
      pet := Some(stored);
      err := None;
    }

    /** Deletes the rows with the id and reports how many were affected. */
    method DeletePet(id: int, fault: WriteFault) returns (count: int, err: Option<Error>)
      requires Valid()
      modifies this
      ensures Valid() && nextId == old(nextId)
      ensures Deleted(count, err, rows) == DeleteSpec(old(rows), id, fault)
    {
      DeletePreservesInvariant(rows, nextId, id, fault);
      if fault == PrepareFails || fault == ExecFails {
        return -1, Some(Err500InternalServerError);
      }
      var before := |rows|;
      rows := WithoutId(rows, id);
      if fault == ResultFails {
        return -1, Some(Err500InternalServerError);
      }
      count := before - |rows|;
      err := None;
    }
  }
}
