/** The activities list of the dashboard: the rows read once on mount, and
    the delete handler that removes the image object and then the row. */
module ActivitiesPage {
  import opened Nullable
  import opened Backend
  import opened Assets
  import opened LocalList

  function ActivityId(x: Activity): Id
  {
    x.id
  }

  class Page {
    const backend: Backend
    var activities: seq<Activity>

    /** Mounting: the list starts empty and the effect's read replaces it,
        unless the read reports an error. */
    constructor (backend: Backend, fetched: Option<seq<Activity>>)
      ensures this.backend == backend
      ensures activities == if fetched.Some? then fetched.value else []
    {
      this.backend := backend;
      activities := [];
      if fetched.Some? {
        activities := fetched.value;
      }
    }

    /** `handleDelete(id, imageUrl)`: after the confirmation, remove the
        image's object when the URL names one (its outcome is ignored), then
        delete the row, and drop it from the list only when the delete
        reports no error.  The object is gone even when the row stays. */
    method HandleDelete(id: Id, imageUrl: Option<string>, confirmed: bool, removeOk: bool, deleteOk: bool)
      returns (outcome: DeleteOutcome)
      modifies backend`storage, backend`activities, backend`trace, this`activities
      ensures !confirmed ==>
        && outcome == Cancelled && activities == old(activities) && backend.trace == old(backend.trace)
        && backend.storage == old(backend.storage) && backend.activities == old(backend.activities)
      ensures confirmed ==>
        && outcome == (if deleteOk then Deleted else DeleteFailed)
        && backend.trace == old(backend.trace)
             + (if OldObject(imageUrl).Some? then [Remove(ActivitiesBucket, OldObject(imageUrl).value)] else [])
             + [Delete(ActivitiesTable, id)]
        && backend.Objects(ActivitiesBucket) == ObjectsAfterRemoval(old(backend.Objects(ActivitiesBucket)), imageUrl, removeOk)
        && backend.activities == if deleteOk then old(backend.activities) - {id} else old(backend.activities)
      ensures forall c :: c != ActivitiesBucket ==> backend.Objects(c) == old(backend.Objects(c))
      ensures activities == if outcome == Deleted then Without(old(activities), ActivityId, id) else old(activities)
      ensures outcome == Deleted ==> forall x :: x in activities <==> x in old(activities) && x.id != id
    {
      if !confirmed {
        return Cancelled;
      }
      var name := OldObject(imageUrl);
      if name.Some? {
        var _ := backend.RemoveObject(ActivitiesBucket, name.value, removeOk);
      }
      var failed := backend.DeleteActivity(id, deleteOk);
      if failed {
        return DeleteFailed;
      }
      forall x ensures x in Without(activities, ActivityId, id) <==> x in activities && x.id != id {
        WithoutMember(activities, ActivityId, id, x);
      }
      activities := Without(activities, ActivityId, id);
      outcome := Deleted;
    }
  }
}
