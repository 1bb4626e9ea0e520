/** QueuedEmailService: the soft-delete CRUD pattern over QueuedEmail rows. */
module QueuedEmailService {
  import opened Entities
  import CrudService
  import Repository

  /** Update copies the CCs, subject and body; recipient, queue date, tries and status stay. */
  function Merge(existing: QueuedEmail, incoming: QueuedEmail): QueuedEmail {
    existing.(ccs := incoming.ccs, subject := incoming.subject, body := incoming.body)
  }

  /** After Update, the visible row reads back with the incoming CCs, subject and body and its own delivery columns. */
  lemma UpdateCopiesColumns(rows: seq<Row<QueuedEmail>>, entity: Row<QueuedEmail>)
    requires Repository.Increasing(rows) && CrudService.Visible(rows, entity.id)
    ensures var before := CrudService.GetById(rows, entity.id).value.data;
      var after := CrudService.GetById(CrudService.UpdatedRows(rows, entity, Merge).value, entity.id);
      && after.Some? && after.value.id == entity.id && !after.value.deleted
      && after.value.data.ccs == entity.data.ccs
      && after.value.data.subject == entity.data.subject
      && after.value.data.body == entity.data.body
      && after.value.data.recipientEmail == before.recipientEmail
      && after.value.data.queuedDate == before.queuedDate
      && after.value.data.sendTries == before.sendTries
      && after.value.data.status == before.status
  {
    CrudService.UpdateThenGetById(rows, entity, Merge);
  }

  /** Update: a missing or deleted key throws; otherwise CCs, subject and body are overwritten. */
  method Update(repo: Repository.TimeCraftRepository<QueuedEmail>, entity: Row<QueuedEmail>) returns (o: Outcome)
    requires repo.Valid()
    modifies repo
    ensures repo.Valid() && repo.nextId == old(repo.nextId)
    ensures match CrudService.UpdatedRows(old(repo.rows), entity, Merge)
      case Failure(e) => o == Fail(e) && repo.rows == old(repo.rows)
      case Success(rows) => o == Pass && repo.rows == rows
  {
    o := CrudService.Update(repo, entity, Merge);
  }
}
