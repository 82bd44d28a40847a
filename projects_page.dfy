/** The projects list of the dashboard: the rows read once on mount, and
    the delete handler that removes the image object and then the row. */
module ProjectsPage {
  import opened Nullable
  import opened Backend
  import opened Assets
  import opened LocalList

  function ProjectId(x: Project): Id
  {
    x.id
  }

  class Page {
    const backend: Backend
    var projects: seq<Project>

    /** Mounting: the list starts empty and the effect's read replaces it,
        unless the read reports an error. */
    constructor (backend: Backend, fetched: Option<seq<Project>>)
      ensures this.backend == backend
      ensures projects == if fetched.Some? then fetched.value else []
    {
      this.backend := backend;
      projects := [];
      if fetched.Some? {
        projects := fetched.value;
      }
    }

    /** `handleDelete(id, imageUrl)`: after the confirmation, remove the
        image's object when the URL names one (its outcome is ignored), then
        delete the row, and drop it from the list only when the delete
        reports no error.  The object is gone even when the row stays. */
    method HandleDelete(id: Id, imageUrl: Option<string>, confirmed: bool, removeOk: bool, deleteOk: bool)
      returns (outcome: DeleteOutcome)
      modifies backend`storage, backend`projects, backend`trace, this`projects
      ensures !confirmed ==>
        && outcome == Cancelled && projects == old(projects) && backend.trace == old(backend.trace)
        && backend.storage == old(backend.storage) && backend.projects == old(backend.projects)
      ensures confirmed ==>
        && outcome == (if deleteOk then Deleted else DeleteFailed)
        && backend.trace == old(backend.trace)
             + (if OldObject(imageUrl).Some? then [Remove(ProjectsBucket, OldObject(imageUrl).value)] else [])
             + [Delete(ProjectsTable, id)]
        && backend.Objects(ProjectsBucket) == ObjectsAfterRemoval(old(backend.Objects(ProjectsBucket)), imageUrl, removeOk)
        && backend.projects == if deleteOk then old(backend.projects) - {id} else old(backend.projects)
      ensures forall c :: c != ProjectsBucket ==> backend.Objects(c) == old(backend.Objects(c))
      ensures projects == if outcome == Deleted then Without(old(projects), ProjectId, id) else old(projects)
      ensures outcome == Deleted ==> forall x :: x in projects <==> x in old(projects) && x.id != id
    {
      if !confirmed {
        return Cancelled;
      }
      var name := OldObject(imageUrl);
      if name.Some? {
        var _ := backend.RemoveObject(ProjectsBucket, name.value, removeOk);
      }
      var failed := backend.DeleteProject(id, deleteOk);
      if failed {
        return DeleteFailed;
      }
      forall x ensures x in Without(projects, ProjectId, id) <==> x in projects && x.id != id {
        WithoutMember(projects, ProjectId, id, x);
      }
      projects := Without(projects, ProjectId, id);
      outcome := Deleted;
    }
  }
}
