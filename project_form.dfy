/** The project editor: the tech stack as one comma-separated text field,
    and the submit handler that replaces the thumbnail and then inserts or
    updates the project. */
module ProjectForm {
  import opened Text
  import opened Nullable
  import opened Backend
  import opened Assets

  /** `techStack.split(',').map(t => t.trim())`: at least one tag, and
      every tag without white space at either end. */
  function ParseTechStack(text: string): (r: seq<string>)
    ensures |r| >= 1
    ensures forall i :: 0 <= i < |r| ==> IsTrimmed(r[i])
  {
    var pieces := Split(text, ',');
    seq(|pieces|, i requires 0 <= i < |pieces| => Trim(pieces[i]))
  }

  /** `tech_stack.join(', ')`, the text the field starts from when editing:
      empty for no tags, and starting with the first tag otherwise. */
  function JoinTechStack(tags: seq<string>): (r: string)
    ensures tags == [] ==> r == ""
    ensures tags != [] ==> tags[0] <= r
  {
    Join(tags, ", ")
  }

  /** One tag per comma, plus one: nothing is de-duplicated and empty tags
      are kept. */
  lemma TechStackCount(text: string)
    ensures |ParseTechStack(text)| == multiset(text)[','] + 1
  {
    SplitCount(text, ',');
  }

  /** An empty field gives one empty tag, so a project saved with an empty
      tag list comes back from the editor with `[""]`. */
  lemma TechStackEmpty()
    ensures ParseTechStack("") == [""]
    ensures ParseTechStack(JoinTechStack([])) == [""]
  {
    assert Trim("") == "";
  }

  /** The pieces of the joined text: the first tag, then each further tag
      behind the blank that followed its comma. */
  lemma {:induction false} SplitJoined(tags: seq<string>)
    requires |tags| >= 1
    requires forall i :: 0 <= i < |tags| ==> ',' !in tags[i]
    ensures var p := Split(JoinTechStack(tags), ',');
      && |p| == |tags| && p[0] == tags[0]
      && forall i :: 1 <= i < |tags| ==> p[i] == [' '] + tags[i]
  {
    if |tags| == 1 {
      SplitWithout(tags[0], ',');
    } else {
      var rest := JoinTechStack(tags[1..]);
      assert JoinTechStack(tags) == tags[0] + [','] + ([' '] + rest);
      SplitAround(tags[0], ',', [' '] + rest);
      SplitWithout(tags[0], ',');
      SplitJoined(tags[1..]);
      assert ([' '] + rest)[1..] == rest;
      var q := Split(rest, ',');
      assert Split([' '] + rest, ',') == [[' '] + q[0]] + q[1..];
    }
  }

  /** Round trip: tags that are trimmed and free of commas come back from
      parsing the text the editor starts from. */
  lemma TechStackRoundTrip(tags: seq<string>)
    requires |tags| >= 1
    requires forall i :: 0 <= i < |tags| ==> IsTrimmed(tags[i]) && ',' !in tags[i]
    ensures ParseTechStack(JoinTechStack(tags)) == tags
  {
    SplitJoined(tags);
    var p := Split(JoinTechStack(tags), ',');
    forall i | 0 <= i < |tags| ensures Trim(p[i]) == tags[i] {
      if i == 0 {
        TrimTrimmed(tags[0]);
      } else {
        TrimAfterSpace(tags[i]);
      }
    }
  }

  /** `initialData?.image_url ?? null`: the edited project's image, and no
      image at all (so nothing to remove) when creating. */
  function PriorImage(initialData: Option<Project>): (r: Option<string>)
    ensures initialData.Some? ==> r == initialData.value.imageUrl
    ensures initialData.None? ==> r.None? && OldObject(r).None?
  {
    if initialData.Some? then initialData.value.imageUrl else None
  }

  const Prefix := "project-"
  const ListPath := "/dashboard/projects"

  class Form {
    const backend: Backend
    const initialData: Option<Project>
    var title: string
    var description: string
    var techStack: string
    var link: string
    var imageFile: Option<File>

    /** The fields start from the edited project (`?? ''` on the nullable
        columns, the tags joined with ", "), or empty when creating. */
    constructor (backend: Backend, initialData: Option<Project>)
      ensures this.backend == backend && this.initialData == initialData
      ensures initialData.Some? ==>
        var p := initialData.value;
        && title == p.title && description == OrEmpty(p.description)
        && techStack == JoinTechStack(p.techStack) && link == OrEmpty(p.link)
      ensures initialData.None? ==> title == "" && description == "" && techStack == "" && link == ""
      ensures imageFile == None
    {
      this.backend := backend;
      this.initialData := initialData;
      if initialData.Some? {
        var p := initialData.value;
        title, description, techStack, link := p.title, OrEmpty(p.description), JoinTechStack(p.techStack), OrEmpty(p.link);
      } else {
        title, description, techStack, link := "", "", "", "";
      }
      imageFile := None;
    }

    /** `handleSubmit`: stage the thumbnail, then update by the edited id or
        insert, with the parsed tags, and navigate only when the write
        reports no error. */
    method HandleSubmit(now: nat, a: Answers) returns (outcome: Outcome)
      modifies backend`storage, backend`projects, backend`trace
      ensures var objects := old(backend.Objects(ProjectsBucket));
        && (outcome == UploadFailed <==>
              StageAborts(objects, PriorImage(initialData), imageFile, Prefix, now, a))
        && backend.Objects(ProjectsBucket)
             == StagedObjects(objects, PriorImage(initialData), imageFile, Prefix, now, a)
      ensures forall c :: c != ProjectsBucket ==> backend.Objects(c) == old(backend.Objects(c))
      ensures var staged := StageEvents(ProjectsBucket, PriorImage(initialData), imageFile, Prefix, now);
        && (outcome == UploadFailed ==>
              backend.trace == old(backend.trace) + staged && backend.projects == old(backend.projects))
        && (outcome != UploadFailed ==>
              backend.trace == old(backend.trace) + staged
                + [if initialData.Some? then Update(ProjectsTable, initialData.value.id) else Insert(ProjectsTable)]
                + (if outcome == Saved then [Event.Navigate(ListPath)] else []))
      ensures outcome != UploadFailed && initialData.Some? ==>
        var id := initialData.value.id;
        var fields := ProjectFields(title, description, ParseTechStack(techStack), link,
                                    StagedUrl(PriorImage(initialData), imageFile, a));
        && (outcome == Saved <==> a.writeOk)
        && backend.projects == if a.writeOk && id in old(backend.projects)
             then old(backend.projects)[id := EditedProject(old(backend.projects)[id], fields)]
             else old(backend.projects)
      ensures outcome != UploadFailed && initialData.None? ==>
        var fields := ProjectFields(title, description, ParseTechStack(techStack), link,
                                    StagedUrl(None, imageFile, a));
        && (outcome == Saved <==> a.writeOk && a.newId !in old(backend.projects))
        && backend.projects == if outcome == Saved
             then old(backend.projects)[a.newId := NewProject(a.newId, fields, a.stamp)]
             else old(backend.projects)
    {
      var aborted, imageUrl := StageImage(backend, ProjectsBucket, Prefix, PriorImage(initialData), imageFile, now, a);
      if aborted {
        return UploadFailed;
      }
      var fields := ProjectFields(title, description, ParseTechStack(techStack), link, imageUrl);
      var failed;
      if initialData.Some? {
        failed := backend.UpdateProject(initialData.value.id, fields, a.writeOk);
      } else {
        failed := backend.InsertProject(NewProject(a.newId, fields, a.stamp), a.writeOk);
      }
      if failed {
        return WriteFailed;
      }
      backend.Navigate(ListPath);
      outcome := Saved;
    }
  }
}
