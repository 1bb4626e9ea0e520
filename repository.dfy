/**
 * TimeCraftRepository<TEntity>: one table of the database as a sequence of rows in
 * store order, plus the identity counter the database uses to key new rows.
 */
module Repository {
  import opened Wrappers
  import opened Entities
  import opened Linq

  /** Keys strictly increase in store order, so no two rows share a key. */
  predicate Increasing<T>(rows: seq<Row<T>>) {
    forall i, j :: 0 <= i < j < |rows| ==> rows[i].id < rows[j].id
  }

  /** The table invariant: keys are positive, below the next identity value, and increasing. */
  predicate WellFormed<T>(rows: seq<Row<T>>, nextId: int) {
    && 1 <= nextId
    && (forall i :: 0 <= i < |rows| ==> 1 <= rows[i].id < nextId)
    && Increasing(rows)
  }

  /** A filter of a table with increasing keys has increasing keys. */
  lemma {:induction false} WhereIncreasing<T>(rows: seq<Row<T>>, p: Row<T> -> bool)
    requires Increasing(rows)
    ensures Increasing(Where(rows, p))
  {
    if rows != [] {
      var tail := rows[1..];
      WhereIncreasing(tail, p);
      WhereSubset(tail, p);
      assert forall y :: y in tail ==> rows[0].id < y.id;
    }
  }

  /** A filter of a well-formed table is well-formed. */
  lemma WhereWellFormed<T>(rows: seq<Row<T>>, nextId: int, p: Row<T> -> bool)
    requires WellFormed(rows, nextId)
    ensures WellFormed(Where(rows, p), nextId)
  {
    WhereIncreasing(rows, p);
    WhereSubset(rows, p);
    assert forall y :: y in rows ==> 1 <= y.id < nextId;
  }

  /** With increasing keys, at most one row holds a given key. */
  lemma AtMostOneWithId<T>(rows: seq<Row<T>>, id: int)
    ensures Increasing(rows) ==> |Where(rows, HasId(id))| <= 1
  {
    if Increasing(rows) {
      WhereIncreasing(rows, HasId(id));
      FirstTwoIncreasing(Where(rows, HasId(id)));
    }
  }

  lemma FirstTwoIncreasing<T>(rows: seq<Row<T>>)
    requires Increasing(rows)
    ensures |rows| >= 2 ==> rows[0].id < rows[1].id
  {
  }

  function HasId<T>(id: int): Row<T> -> bool {
    (x: Row<T>) => x.id == id
  }

  function NotHasId<T>(id: int): Row<T> -> bool {
    (x: Row<T>) => x.id != id
  }

  function NotDeleted<T>(): Row<T> -> bool {
    (x: Row<T>) => !x.deleted
  }

  /** GetByCondition: the rows satisfying the condition. Includes and AsNoTracking change no membership. */
  function GetByCondition<T>(rows: seq<Row<T>>, p: Row<T> -> bool): (r: seq<Row<T>>)
    ensures forall i :: 0 <= i < |r| ==> r[i] in rows && p(r[i])
    ensures forall i :: 0 <= i < |rows| && p(rows[i]) ==> rows[i] in r
  {
    WhereSubset(rows, p);
    WhereComplete(rows, p);
    Where(rows, p)
  }

  /** GetById: the rows with the given key; it does not look at the Deleted flag. */
  function GetById<T>(rows: seq<Row<T>>, id: int): (r: seq<Row<T>>)
    ensures forall i :: 0 <= i < |r| ==> r[i].id == id
    ensures forall i :: 0 <= i < |rows| && rows[i].id == id ==> rows[i] in r
    ensures Increasing(rows) ==> |r| <= 1
  {
    AtMostOneWithId(rows, id);
    WhereComplete(rows, HasId(id));
    Where(rows, HasId(id))
  }

  /**
   * GetByConditionPaginated: filter, order when a key is given (descending unless
   * told otherwise), then clamp the page to at least 1 and take that page.
   */
  function GetByConditionPaginated<T>(
    rows: seq<Row<T>>, p: Row<T> -> bool, orderBy: Option<Row<T> -> int>,
    page: int, pageSize: int, orderByDescending: bool): (r: seq<Row<T>>)
    ensures |r| <= Max(pageSize, 0)
    ensures forall i :: 0 <= i < |r| ==> r[i] in rows && p(r[i])
    ensures orderBy.None? ==> r == Page(Where(rows, p), Max(page, 1), pageSize)
    ensures orderBy.Some? ==> r == Page(Ordered(Where(rows, p), orderBy, orderByDescending), Max(page, 1), pageSize)
    ensures orderBy.Some? ==> forall i, j :: 0 <= i < j < |r| ==>
      if orderByDescending then orderBy.value(r[i]) >= orderBy.value(r[j]) else orderBy.value(r[i]) <= orderBy.value(r[j])
  {
    var page' := if page <= 0 then 1 else page;
    var query := Where(rows, p);
    var ordered := Ordered(query, orderBy, orderByDescending);
    var r := Page(ordered, page', pageSize);
    PageRowsMatch(rows, p, orderBy, page', pageSize, orderByDescending);
    if orderBy.None? then r
    else SliceKeepsOrder(ordered, page', pageSize, orderBy.value, orderByDescending); r
  }

  /** The query in the requested order; without a key, in store order. */
  function Ordered<T>(query: seq<Row<T>>, orderBy: Option<Row<T> -> int>, orderByDescending: bool): (r: seq<Row<T>>)
    ensures multiset(r) == multiset(query)
  {
    match orderBy
    case None => query
    case Some(key) => if orderByDescending then OrderByDescending(query, key) else OrderBy(query, key)
  }

  /** Every row of a page of the (ordered) query is a stored row that satisfies the condition. */
  lemma PageRowsMatch<T>(
    rows: seq<Row<T>>, p: Row<T> -> bool, orderBy: Option<Row<T> -> int>,
    page: int, pageSize: int, orderByDescending: bool)
    requires page >= 1
    ensures forall i :: 0 <= i < |Page(Ordered(Where(rows, p), orderBy, orderByDescending), page, pageSize)| ==>
      var x := Page(Ordered(Where(rows, p), orderBy, orderByDescending), page, pageSize)[i]; x in rows && p(x)
  {
    var query := Where(rows, p);
    var ordered := Ordered(query, orderBy, orderByDescending);
    var r := Page(ordered, page, pageSize);
    WhereSubset(rows, p);
    forall i | 0 <= i < |r|
      ensures r[i] in rows && p(r[i])
    {
      assert r[i] == ordered[(page - 1) * pageSize + i];
      assert r[i] in multiset(ordered);
      assert r[i] in multiset(query);
    }
  }

  /** A page number of zero or below is served as page 1. */
  lemma PaginatedClampsPage<T>(
    rows: seq<Row<T>>, p: Row<T> -> bool, orderBy: Option<Row<T> -> int>,
    page: int, pageSize: int, orderByDescending: bool)
    requires page <= 0
    ensures GetByConditionPaginated(rows, p, orderBy, page, pageSize, orderByDescending)
         == GetByConditionPaginated(rows, p, orderBy, 1, pageSize, orderByDescending)
  {
  }

  /** A page of a sequence sorted by key, in either direction, is sorted the same way. */
  lemma SliceKeepsOrder<T>(s: seq<T>, page: int, pageSize: int, key: T -> int, descending: bool)
    requires forall i, j :: 0 <= i < j < |s| ==> if descending then key(s[i]) >= key(s[j]) else key(s[i]) <= key(s[j])
    ensures var r := Page(s, page, pageSize);
      forall i, j :: 0 <= i < j < |r| ==> if descending then key(r[i]) >= key(r[j]) else key(r[i]) <= key(r[j])
  {
    if page >= 1 && pageSize > 0 {
      RunKeepsOrder(s, (page - 1) * pageSize, Page(s, page, pageSize), key, descending);
    }
  }

  /** A contiguous run of a sequence sorted by key is sorted the same way. */
  lemma RunKeepsOrder<T>(s: seq<T>, start: int, r: seq<T>, key: T -> int, descending: bool)
    requires forall i, j :: 0 <= i < j < |s| ==> if descending then key(s[i]) >= key(s[j]) else key(s[i]) <= key(s[j])
    requires 0 <= start && (r == [] || start + |r| <= |s|)
    requires forall i :: 0 <= i < |r| ==> r[i] == s[start + i]
    ensures forall i, j :: 0 <= i < j < |r| ==> if descending then key(r[i]) >= key(r[j]) else key(r[i]) <= key(r[j])
  {
    forall i, j | 0 <= i < j < |r|
      ensures if descending then key(r[i]) >= key(r[j]) else key(r[i]) <= key(r[j])
    {
      assert r[i] == s[start + i] && r[j] == s[start + j];
    }
  }

  /** Count: the number of rows satisfying the condition. */
  function Count<T>(rows: seq<Row<T>>, p: Row<T> -> bool): (c: nat)
    ensures c <= |rows|
    ensures c == 0 <==> forall i :: 0 <= i < |rows| ==> !p(rows[i])
  {
    if rows == [] then 0 else (if p(rows[0]) then 1 else 0) + Count(rows[1..], p)
  }

  /** Count agrees with the number of rows GetByCondition returns. */
  lemma {:induction false} CountMatchesGetByCondition<T>(rows: seq<Row<T>>, p: Row<T> -> bool)
    ensures Count(rows, p) == |GetByCondition(rows, p)|
  {
    if rows != [] {
      CountMatchesGetByCondition(rows[1..], p);
    }
  }

  /** DbSet.Update: the row with the entity's key is replaced by the entity. */
  function ReplaceRow<T>(rows: seq<Row<T>>, entity: Row<T>): seq<Row<T>> {
    seq(|rows|, i requires 0 <= i < |rows| => if rows[i].id == entity.id then entity else rows[i])
  }

  /** With unique keys, replacing by key is replacing at the one index that holds the key. */
  lemma ReplaceRowAt<T>(rows: seq<Row<T>>, k: nat, entity: Row<T>)
    requires Increasing(rows) && k < |rows| && rows[k].id == entity.id
    ensures ReplaceRow(rows, entity) == rows[k := entity]
  {
  }

  /** Replacing a row keeps every key where it was, so keys stay increasing. */
  lemma ReplaceRowIncreasing<T>(rows: seq<Row<T>>, entity: Row<T>)
    requires Increasing(rows)
    ensures Increasing(ReplaceRow(rows, entity))
  {
    var r := ReplaceRow(rows, entity);
    assert forall i :: 0 <= i < |rows| ==> r[i].id == rows[i].id;
  }

  /** Replacing a row keeps every key where it was, so the invariant survives. */
  lemma ReplaceRowWellFormed<T>(rows: seq<Row<T>>, nextId: int, entity: Row<T>)
    requires WellFormed(rows, nextId)
    ensures WellFormed(ReplaceRow(rows, entity), nextId)
  {
    var r := ReplaceRow(rows, entity);
    assert forall i :: 0 <= i < |rows| ==> r[i].id == rows[i].id;
  }

  /** DbSet.Remove: the row with the entity's key leaves the table; the others stay in order. */
  function RemoveRow<T>(rows: seq<Row<T>>, id: int): (r: seq<Row<T>>)
    ensures forall i :: 0 <= i < |r| ==> r[i].id != id
  {
    Where(rows, NotHasId(id))
  }

  /** New rows for the entities, keyed by consecutive identity values from `start`. */
  function Fresh<T>(entities: seq<T>, start: int): (r: seq<Row<T>>)
    ensures |r| == |entities|
  {
    seq(|entities|, i requires 0 <= i < |entities| => Row(start + i, false, entities[i]))
  }

  lemma FreshAppend<T>(a: seq<T>, b: seq<T>, start: int)
    ensures Fresh(a + b, start) == Fresh(a, start) + Fresh(b, start + |a|)
  {
  }

  /** Appending fresh rows keyed from the next identity value keeps the invariant. */
  lemma FreshWellFormed<T>(rows: seq<Row<T>>, nextId: int, entities: seq<T>)
    requires WellFormed(rows, nextId)
    ensures WellFormed(rows + Fresh(entities, nextId), nextId + |entities|)
  {
    var r := rows + Fresh(entities, nextId);
    assert forall i :: |rows| <= i < |r| ==> r[i].id == nextId + i - |rows|;
  }

  /** The entities of every inner list, list after list. */
  function Flatten<T>(lists: seq<seq<T>>): seq<T> {
    if lists == [] then [] else Flatten(lists[..|lists| - 1]) + lists[|lists| - 1]
  }

  class TimeCraftRepository<T> {
    var rows: seq<Row<T>>
    var nextId: int

    ghost predicate Valid()
      reads this
    {
      WellFormed(rows, nextId)
    }

    constructor ()
      ensures Valid() && rows == [] && nextId == 1
    {
      rows := [];
      nextId := 1;
    }

    /** Create followed by CompleteAsync: the row is added and the database assigns its key. */
    method Create(entity: T) returns (id: int)
      requires Valid()
      modifies this
      ensures Valid()
      ensures id == old(nextId) && nextId == old(nextId) + 1
      ensures rows == old(rows) + [Row(id, false, entity)]
    {
      id := nextId;
      FreshWellFormed(rows, nextId, [entity]);
      assert Fresh([entity], nextId) == [Row(id, false, entity)];
      rows := rows + [Row(id, false, entity)];
      nextId := nextId + 1;
    }

    /** CreateRange: the entities are added in order with consecutive keys. */
    method CreateRange(entities: seq<T>)
      requires Valid()
      modifies this
      ensures Valid()
      ensures rows == old(rows) + Fresh(entities, old(nextId))
      ensures nextId == old(nextId) + |entities|
    {
      FreshWellFormed(rows, nextId, entities);
      rows := rows + Fresh(entities, nextId);
      nextId := nextId + |entities|;
    }

    /** CreateRangeList: AddRange of every inner list, one after the other. */
    method CreateRangeList(lists: seq<seq<T>>)
      requires Valid()
      modifies this
      ensures Valid()
      ensures rows == old(rows) + Fresh(Flatten(lists), old(nextId))
      ensures nextId == old(nextId) + |Flatten(lists)|
    {
      for i := 0 to |lists|
        invariant Valid()
        invariant rows == old(rows) + Fresh(Flatten(lists[..i]), old(nextId))
        invariant nextId == old(nextId) + |Flatten(lists[..i])|
      {
        assert lists[..i + 1][..i] == lists[..i];
        FreshAppend(Flatten(lists[..i]), lists[i], old(nextId));
        CreateRange(lists[i]);
      }
      assert lists[..|lists|] == lists;
    }

    /** Delete: the row with the entity's key is removed. */
    method Delete(entity: Row<T>)
      requires Valid()
      modifies this
      ensures Valid()
      ensures rows == RemoveRow(old(rows), entity.id) && nextId == old(nextId)
    {
      WhereWellFormed(rows, nextId, NotHasId(entity.id));
      rows := RemoveRow(rows, entity.id);
    }

    /** Update: the row with the entity's key is overwritten by the entity. */
    method Update(entity: Row<T>)
      requires Valid()
      modifies this
      ensures Valid()
      ensures rows == ReplaceRow(old(rows), entity) && nextId == old(nextId)
    {
      ReplaceRowWellFormed(rows, nextId, entity);
      rows := ReplaceRow(rows, entity);
    }
  }
}
