/** PositionService: the soft-delete CRUD pattern over Position rows. */
module PositionService {
  import opened Entities
  import CrudService
  import Repository

  /** Update copies all three of the position's own columns from the incoming entity. */
  function Merge(existing: Position, incoming: Position): Position {
    Position(incoming.role, incoming.description, incoming.contractConditions)
  }

  /** After Update, the visible row reads back with the incoming role, description and conditions. */
  lemma UpdateCopiesColumns(rows: seq<Row<Position>>, entity: Row<Position>)
    requires Repository.Increasing(rows) && CrudService.Visible(rows, entity.id)
    ensures var after := CrudService.GetById(CrudService.UpdatedRows(rows, entity, Merge).value, entity.id);
      && after.Some? && after.value.id == entity.id && !after.value.deleted
      && after.value.data.role == entity.data.role
      && after.value.data.description == entity.data.description
      && after.value.data.contractConditions == entity.data.contractConditions
  {
    CrudService.UpdateThenGetById(rows, entity, Merge);
  }

  /** Update: a missing or deleted key throws; otherwise role, description and contract conditions are overwritten. */
  method Update(repo: Repository.TimeCraftRepository<Position>, entity: Row<Position>) returns (o: Outcome)
    requires repo.Valid()
    modifies repo
    ensures repo.Valid() && repo.nextId == old(repo.nextId)
    ensures match CrudService.UpdatedRows(old(repo.rows), entity, Merge)
      case Failure(e) => o == Fail(e) && repo.rows == old(repo.rows)
      case Success(rows) => o == Pass && repo.rows == rows
  {
    o := CrudService.Update(repo, entity, Merge);
  }
}
