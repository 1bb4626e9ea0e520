/** TimeWorkedService: the soft-delete CRUD pattern over TimeWorked rows. */
module TimeWorkedService {
  import opened Entities
  import CrudService
  import Repository

  /** Update copies every column except the employee the entry belongs to. */
  function Merge(existing: TimeWorked, incoming: TimeWorked): TimeWorked {
    existing.(
      workDate := incoming.workDate, startTime := incoming.startTime, endTime := incoming.endTime,
      duration := incoming.duration, projectId := incoming.projectId,
      projectTaskId := incoming.projectTaskId, description := incoming.description)
  }

  /** After Update, the visible row reads back with the incoming columns and its own employee. */
  lemma UpdateCopiesColumns(rows: seq<Row<TimeWorked>>, entity: Row<TimeWorked>)
    requires Repository.Increasing(rows) && CrudService.Visible(rows, entity.id)
    ensures var before := CrudService.GetById(rows, entity.id).value.data;
      var after := CrudService.GetById(CrudService.UpdatedRows(rows, entity, Merge).value, entity.id);
      && after.Some? && after.value.id == entity.id && !after.value.deleted
      && after.value.data == entity.data.(employeeId := before.employeeId)
  {
    CrudService.UpdateThenGetById(rows, entity, Merge);
  }

  /** Update: a missing or deleted key throws; otherwise every column but the employee is overwritten. */
  method Update(repo: Repository.TimeCraftRepository<TimeWorked>, entity: Row<TimeWorked>) returns (o: Outcome)
    requires repo.Valid()
    modifies repo
    ensures repo.Valid() && repo.nextId == old(repo.nextId)
    ensures match CrudService.UpdatedRows(old(repo.rows), entity, Merge)
      case Failure(e) => o == Fail(e) && repo.rows == old(repo.rows)
      case Success(rows) => o == Pass && repo.rows == rows
  {
    o := CrudService.Update(repo, entity, Merge);
  }
}
