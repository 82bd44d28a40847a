/** The activity editor: a fixed list of activity kinds, an optional end
    date sent as null when left blank, and the same submit sequence as the
    other forms. */
module ActivityForm {
  import opened Nullable
  import opened Backend
  import opened Assets

  /** The options of the kind selector. */
  const ActivityTypes: seq<string> :=
    ["Experience", "Volunteering", "Organization", "Competition", "Internship", "Other"]

  /** The kind a new activity starts with. */
  const DefaultType: string := "Experience"

  /** `initialData?.image_url ?? null`: the edited activity's image, and no
      image at all (so nothing to remove) when creating. */
  function PriorImage(initialData: Option<Activity>): (r: Option<string>)
    ensures initialData.Some? ==> r == initialData.value.imageUrl
    ensures initialData.None? ==> r.None? && OldObject(r).None?
  {
    if initialData.Some? then initialData.value.imageUrl else None
  }

  const Prefix := "activity-"
  const ListPath := "/dashboard/activities"

  class Form {
    const backend: Backend
    const initialData: Option<Activity>
    var title: string
    var kind: string
    var organization: string
    var role: string
    var startDate: string
    var endDate: string
    var description: string
    var imageFile: Option<File>

    /** The fields start from the edited activity (`?? ''` on the nullable
        columns), or empty with the default kind when creating. */
    constructor (backend: Backend, initialData: Option<Activity>)
      ensures this.backend == backend && this.initialData == initialData
      ensures initialData.Some? ==>
        var a := initialData.value;
        && title == a.title && kind == a.kind
        && organization == OrEmpty(a.organization) && role == OrEmpty(a.role)
        && startDate == a.startDate && endDate == OrEmpty(a.endDate)
        && description == OrEmpty(a.description)
      ensures initialData.None? ==>
        && title == "" && kind == DefaultType && kind in ActivityTypes
        && organization == "" && role == "" && startDate == "" && endDate == "" && description == ""
      ensures imageFile == None
    {
      this.backend := backend;
      this.initialData := initialData;
      if initialData.Some? {
        var a := initialData.value;
        title, kind, organization, role := a.title, a.kind, OrEmpty(a.organization), OrEmpty(a.role);
        startDate, endDate, description := a.startDate, OrEmpty(a.endDate), OrEmpty(a.description);
      } else {
        title, kind, organization, role := "", DefaultType, "", "";
        startDate, endDate, description := "", "", "";
      }
      imageFile := None;
    }

    /** The selector's `onChange`: only the listed kinds can be picked. */
    method ChangeKind(value: string)
      requires value in ActivityTypes
      modifies this`kind
      ensures kind == value && kind in ActivityTypes
    {
      kind := value;
    }

    /** The payload of a submission, with `end_date: endDate || null`: the
        text fields as typed, and an end date that is never the empty
        string and that the editor shows back (`?? ''`) as the field. */
    function Payload(imageUrl: Option<string>): (f: ActivityFields)
      reads this
      ensures f.endDate.None? <==> endDate == ""
      ensures f.endDate != Some("") && OrEmpty(f.endDate) == endDate
      ensures f.imageUrl == imageUrl && f.kind == kind && f.title == title
      ensures f.organization == organization && f.role == role
      ensures f.startDate == startDate && f.description == description
    {
      ActivityFields(title, kind, organization, role, startDate, NullIfEmpty(endDate), description, imageUrl)
    }

    /** `handleSubmit`: stage the image, then update by the edited id or
        insert, and navigate only when the write reports no error.  A saved
        row has no end date exactly when the field was left blank. */
    method HandleSubmit(now: nat, a: Answers) returns (outcome: Outcome)
      modifies backend`storage, backend`activities, backend`trace
      ensures var objects := old(backend.Objects(ActivitiesBucket));
        && (outcome == UploadFailed <==>
              StageAborts(objects, PriorImage(initialData), imageFile, Prefix, now, a))
        && backend.Objects(ActivitiesBucket)
             == StagedObjects(objects, PriorImage(initialData), imageFile, Prefix, now, a)
      ensures forall c :: c != ActivitiesBucket ==> backend.Objects(c) == old(backend.Objects(c))
      ensures var staged := StageEvents(ActivitiesBucket, PriorImage(initialData), imageFile, Prefix, now);
        && (outcome == UploadFailed ==>
              backend.trace == old(backend.trace) + staged && backend.activities == old(backend.activities))
        && (outcome != UploadFailed ==>
              backend.trace == old(backend.trace) + staged
                + [if initialData.Some? then Update(ActivitiesTable, initialData.value.id) else Insert(ActivitiesTable)]
                + (if outcome == Saved then [Event.Navigate(ListPath)] else []))
      ensures outcome != UploadFailed && initialData.Some? ==>
        var id := initialData.value.id;
        var fields := Payload(StagedUrl(PriorImage(initialData), imageFile, a));
        && (outcome == Saved <==> a.writeOk)
        && backend.activities == if a.writeOk && id in old(backend.activities)
             then old(backend.activities)[id := EditedActivity(old(backend.activities)[id], fields)]
             else old(backend.activities)
      ensures outcome != UploadFailed && initialData.None? ==>
        var fields := Payload(StagedUrl(None, imageFile, a));
        && (outcome == Saved <==> a.writeOk && a.newId !in old(backend.activities))
        && backend.activities == if outcome == Saved
             then old(backend.activities)[a.newId := NewActivity(a.newId, fields, a.stamp)]
             else old(backend.activities)
      ensures outcome == Saved && initialData.None? ==>
        (backend.activities[a.newId].endDate.None? <==> endDate == "")
    {
      var aborted, imageUrl := StageImage(backend, ActivitiesBucket, Prefix, PriorImage(initialData), imageFile, now, a);
      if aborted {
        return UploadFailed;
      }
      var fields := Payload(imageUrl);
      var failed;
      if initialData.Some? {
        failed := backend.UpdateActivity(initialData.value.id, fields, a.writeOk);
      } else {
        failed := backend.InsertActivity(NewActivity(a.newId, fields, a.stamp), a.writeOk);
      }
      if failed {
        return WriteFailed;
      }
      backend.Navigate(ListPath);
      outcome := Saved;
    }
  }
}
