/** SalaryService: the soft-delete CRUD pattern over Salary rows. */
module SalaryService {
  import opened Entities
  import CrudService
  import Repository

  /** Update copies the gross and net amounts; contract type and position stay. */
  function Merge(existing: Salary, incoming: Salary): Salary {
    existing.(grossSalary := incoming.grossSalary, netoSalary := incoming.netoSalary)
  }

  /** After Update, the visible row reads back with the incoming amounts and its own contract type and position. */
  lemma UpdateCopiesColumns(rows: seq<Row<Salary>>, entity: Row<Salary>)
    requires Repository.Increasing(rows) && CrudService.Visible(rows, entity.id)
    ensures var before := CrudService.GetById(rows, entity.id).value.data;
      var after := CrudService.GetById(CrudService.UpdatedRows(rows, entity, Merge).value, entity.id);
      && after.Some? && after.value.id == entity.id && !after.value.deleted
      && after.value.data.grossSalary == entity.data.grossSalary
      && after.value.data.netoSalary == entity.data.netoSalary
      && after.value.data.contractType == before.contractType
      && after.value.data.positionId == before.positionId
  {
    CrudService.UpdateThenGetById(rows, entity, Merge);
  }

  /** Update: a missing or deleted key throws; otherwise the gross and net amounts are overwritten. */
  method Update(repo: Repository.TimeCraftRepository<Salary>, entity: Row<Salary>) returns (o: Outcome)
    requires repo.Valid()
    modifies repo
    ensures repo.Valid() && repo.nextId == old(repo.nextId)
    ensures match CrudService.UpdatedRows(old(repo.rows), entity, Merge)
      case Failure(e) => o == Fail(e) && repo.rows == old(repo.rows)
      case Success(rows) => o == Pass && repo.rows == rows
  {
    o := CrudService.Update(repo, entity, Merge);
  }
}
