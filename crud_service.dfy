/**
 * The soft-delete CRUD pattern every entity service repeats (EmployeeService,
 * PositionService, SalaryService, QueuedEmailService, TimeWorkedService and
 * TimeoffBalanceService): reads see only rows whose Deleted flag is clear, Update
 * copies the service's own columns onto the visible row with the entity's key, and
 * Delete either sets the flag or removes the row. The services differ only in the
 * columns their Update copies, which each passes here as `merge`.
 */
module CrudService {
  import opened Wrappers
  import opened Entities
  import opened Linq
  import Repository

  /** The default page number and page size of the Search queries. */
  const DefaultPageNumber: int := 1
  const DefaultPageSize: int := 10

  /** A row is visible when it holds the key and its Deleted flag is clear. */
  predicate Visible<T>(rows: seq<Row<T>>, id: int) {
    exists i :: 0 <= i < |rows| && rows[i].id == id && !rows[i].deleted
  }

  /** `GetById(x => x.Id == id).Where(x => !x.Deleted).FirstOrDefaultAsync()`. */
  function GetById<T>(rows: seq<Row<T>>, id: int): (r: Option<Row<T>>)
    ensures r.Some? ==> r.value in rows && r.value.id == id && !r.value.deleted
    ensures r.None? <==> !Visible(rows, id)
  {
    VisibleIsFound(rows, id);
    WhereSubset(rows, Repository.HasId(id));
    WhereSubset(Repository.GetById(rows, id), Repository.NotDeleted());
    FirstOrDefault(Where(Repository.GetById(rows, id), Repository.NotDeleted()))
  }

  lemma VisibleIsFound<T>(rows: seq<Row<T>>, id: int)
    ensures Visible(rows, id) ==> Where(Repository.GetById(rows, id), Repository.NotDeleted()) != []
  {
    if Visible(rows, id) {
      var matching := Repository.GetById(rows, id);
      WhereComplete(rows, Repository.HasId(id));
      WhereComplete(matching, Repository.NotDeleted());
      var k :| 0 <= k < |rows| && rows[k].id == id && !rows[k].deleted;
      assert rows[k] in matching;
      var j :| 0 <= j < |matching| && matching[j] == rows[k];
      assert Repository.NotDeleted()(matching[j]);
    }
  }

  /** With unique keys, the row GetById finds is the one row holding the key. */
  lemma GetByIdUnique<T>(rows: seq<Row<T>>, id: int, k: nat)
    requires Repository.Increasing(rows)
    requires k < |rows| && rows[k].id == id && !rows[k].deleted
    ensures GetById(rows, id) == Some(rows[k])
  {
    var r := GetById(rows, id);
    var j :| 0 <= j < |rows| && rows[j] == r.value;
    assert rows[j].id == rows[k].id;
  }

  /**
   * SearchEmployees and SearchQueuedEmails: the visible rows in store order, page
   * `Math.Max(page, 1)`.
   */
  function Search<T>(rows: seq<Row<T>>, page: int, pageSize: int): (r: seq<Row<T>>)
    ensures pageSize <= 0 ==> r == []
    ensures pageSize > 0 ==>
      var w := Where(rows, Repository.NotDeleted());
      var start := (Max(page, 1) - 1) * pageSize;
      && |r| == Min(pageSize, Max(|w| - start, 0))
      && forall i :: 0 <= i < |r| ==> r[i] == w[start + i]
    ensures forall i :: 0 <= i < |r| ==> r[i] in rows && !r[i].deleted
  {
    var w := Where(rows, Repository.NotDeleted());
    var r := Page(w, Max(page, 1), pageSize);
    WhereSubset(rows, Repository.NotDeleted());
    assert forall i :: 0 <= i < |r| ==> r[i] in w;
    r
  }

  /**
   * GetAllAsync: the page clamped to at least 1 of the visible rows, without an
   * ordering key; it returns what Search returns.
   */
  function GetAllAsync<T>(rows: seq<Row<T>>, page: int, pageSize: int): (r: seq<Row<T>>)
    ensures r == Search(rows, page, pageSize)
  {
    Repository.GetByConditionPaginated(rows, Repository.NotDeleted(), None, Max(page, 1), pageSize, true)
  }

  /**
   * The table after Update: a missing (or already deleted) key is a
   * NullReferenceException; otherwise the visible row keeps its key and Deleted
   * flag and takes `merge(existing, incoming)` as its columns.
   */
  function UpdatedRows<T>(rows: seq<Row<T>>, entity: Row<T>, merge: (T, T) -> T): (r: Result<seq<Row<T>>, Error>)
    ensures r.Failure? <==> !Visible(rows, entity.id)
    ensures r.Failure? ==> r.error == NotFound
    ensures r.Success? ==>
      && |r.value| == |rows|
      && forall i :: 0 <= i < |rows| ==>
           && r.value[i].id == rows[i].id
           && (rows[i].id != entity.id ==> r.value[i] == rows[i])
  {
    match GetById(rows, entity.id)
    case None => Failure(NotFound)
    case Some(existing) => Success(Repository.ReplaceRow(rows, existing.(data := merge(existing.data, entity.data))))
  }

  /** Reading back an updated key gives the merged columns, still visible. */
  lemma UpdateThenGetById<T>(rows: seq<Row<T>>, entity: Row<T>, merge: (T, T) -> T)
    requires Repository.Increasing(rows)
    requires Visible(rows, entity.id)
    ensures var before := GetById(rows, entity.id).value;
      GetById(UpdatedRows(rows, entity, merge).value, entity.id)
        == Some(Row(entity.id, false, merge(before.data, entity.data)))
  {
    var before := GetById(rows, entity.id).value;
    var k :| 0 <= k < |rows| && rows[k] == before;
    var after := UpdatedRows(rows, entity, merge).value;
    Repository.ReplaceRowAt(rows, k, before.(data := merge(before.data, entity.data)));
    Repository.ReplaceRowIncreasing(rows, before.(data := merge(before.data, entity.data)));
    GetByIdUnique(after, entity.id, k);
  }

  /** Updating one key leaves what GetById returns for every other key unchanged. */
  lemma UpdateKeepsOtherKeys<T>(rows: seq<Row<T>>, entity: Row<T>, merge: (T, T) -> T, id: int)
    requires Visible(rows, entity.id) && id != entity.id
    ensures GetById(UpdatedRows(rows, entity, merge).value, id) == GetById(rows, id)
  {
    var after := UpdatedRows(rows, entity, merge).value;
    WhereSameOnKey(rows, after, id);
  }

  /** Two tables that agree on every row holding a key agree on the rows Where finds for it. */
  lemma {:induction false} WhereSameOnKey<T>(rows: seq<Row<T>>, after: seq<Row<T>>, id: int)
    requires |after| == |rows|
    requires forall i :: 0 <= i < |rows| ==> after[i].id == rows[i].id && (rows[i].id == id ==> after[i] == rows[i])
    ensures Where(after, Repository.HasId(id)) == Where(rows, Repository.HasId(id))
  {
    if rows != [] {
      WhereSameOnKey(rows[1..], after[1..], id);
    }
  }

  /**
   * The table after Delete: a missing (or already deleted) key is a
   * NullReferenceException; a soft delete sets the row's Deleted flag; a hard
   * delete removes the row.
   */
  function DeletedRows<T>(rows: seq<Row<T>>, id: int, softDelete: bool): (r: Result<seq<Row<T>>, Error>)
    ensures r.Failure? <==> !Visible(rows, id)
    ensures r.Failure? ==> r.error == NotFound
    ensures r.Success? ==> !Visible(r.value, id)
    ensures r.Success? && softDelete ==>
      && |r.value| == |rows|
      && forall i :: 0 <= i < |rows| ==>
           && r.value[i].id == rows[i].id
           && (rows[i].id != id ==> r.value[i] == rows[i])
           && (rows[i].id == id ==> r.value[i].deleted && r.value[i].data == GetById(rows, id).value.data)
    ensures r.Success? && !softDelete ==>
      && (forall i :: 0 <= i < |r.value| ==> r.value[i] in rows && r.value[i].id != id)
      && (forall i :: 0 <= i < |rows| && rows[i].id != id ==> rows[i] in r.value)
  {
    match GetById(rows, id)
    case None => Failure(NotFound)
    case Some(existing) =>
      if softDelete then
        Success(Repository.ReplaceRow(rows, existing.(deleted := true)))
      else
        WhereSubset(rows, Repository.NotHasId(id));
        WhereComplete(rows, Repository.NotHasId(id));
        Success(Repository.RemoveRow(rows, existing.id))
  }

  /** A key that was deleted, softly or not, cannot be deleted again: the second call throws. */
  lemma SecondDeleteFails<T>(rows: seq<Row<T>>, id: int, first: bool, second: bool)
    requires Visible(rows, id)
    ensures DeletedRows(DeletedRows(rows, id, first).value, id, second) == Failure(NotFound)
    ensures GetById(DeletedRows(rows, id, first).value, id) == None
  {
  }

  /** Deleting one key leaves what GetById returns for every other key unchanged. */
  lemma DeleteKeepsOtherKeys<T>(rows: seq<Row<T>>, id: int, softDelete: bool, other: int)
    requires Visible(rows, id) && other != id
    ensures GetById(DeletedRows(rows, id, softDelete).value, other) == GetById(rows, other)
  {
    var after := DeletedRows(rows, id, softDelete).value;
    if softDelete {
      WhereSameOnKey(rows, after, other);
    } else {
      WhereRemoveOther(rows, id, other);
    }
  }

  /** Removing the rows of one key does not change which rows hold another key. */
  lemma {:induction false} WhereRemoveOther<T>(rows: seq<Row<T>>, id: int, other: int)
    requires other != id
    ensures Where(Repository.RemoveRow(rows, id), Repository.HasId(other)) == Where(rows, Repository.HasId(other))
  {
    if rows != [] {
      WhereRemoveOther(rows[1..], id, other);
    }
  }

  /** Create: the entity is stored under the next identity value and is visible at once. */
  method Create<T>(repo: Repository.TimeCraftRepository<T>, entity: T) returns (id: int)
    requires repo.Valid()
    modifies repo
    ensures repo.Valid()
    ensures id == old(repo.nextId) && repo.nextId == id + 1
    ensures repo.rows == old(repo.rows) + [Row(id, false, entity)]
    ensures GetById(repo.rows, id) == Some(Row(id, false, entity))
  {
    id := repo.Create(entity);
    GetByIdUnique(repo.rows, id, |repo.rows| - 1);
  }

  /** Update: the visible row with the entity's key takes the merged columns, or the call throws. */
  method Update<T>(repo: Repository.TimeCraftRepository<T>, entity: Row<T>, merge: (T, T) -> T) returns (o: Outcome)
    requires repo.Valid()
    modifies repo
    ensures repo.Valid() && repo.nextId == old(repo.nextId)
    ensures match UpdatedRows(old(repo.rows), entity, merge)
      case Failure(e) => o == Fail(e) && repo.rows == old(repo.rows)
      case Success(rows) => o == Pass && repo.rows == rows
  {
    var existing := GetById(repo.rows, entity.id);
    if existing.None? {
      return Fail(NotFound);
    }
    repo.Update(existing.value.(data := merge(existing.value.data, entity.data)));
    o := Pass;
  }

  /** Delete: the visible row with the key is soft- or hard-deleted, or the call throws. */
  method Delete<T>(repo: Repository.TimeCraftRepository<T>, id: int, softDelete: bool) returns (o: Outcome)
    requires repo.Valid()
    modifies repo
    ensures repo.Valid() && repo.nextId == old(repo.nextId)
    ensures match DeletedRows(old(repo.rows), id, softDelete)
      case Failure(e) => o == Fail(e) && repo.rows == old(repo.rows)
      case Success(rows) => o == Pass && repo.rows == rows
  {
    var existing := GetById(repo.rows, id);
    if existing.None? {
      return Fail(NotFound);
    }
    if softDelete {
      repo.Update(existing.value.(deleted := true));
    } else {
      repo.Delete(existing.value);
    }
    o := Pass;
  }
}
