/** The hosted backend as in-memory state: one set of object names per
    storage bucket, one map from id to row per table, and the trace of the
    calls the dashboard issues (with its client-side navigations).  Every
    remote outcome is a parameter of the call that receives it. */
module Backend {
  import opened Nullable

  type Id = string

  datatype Bucket = ArticlesBucket | ProjectsBucket | ActivitiesBucket | AvatarsBucket

  datatype Table = ArticlesTable | ProjectsTable | ActivitiesTable | ProfilesTable

  /** One storage or table call issued to the backend, or a navigation. */
  datatype Event =
    | Remove(bucket: Bucket, name: string)
    | Upload(bucket: Bucket, name: string)
    | Insert(table: Table)
    | Update(table: Table, id: Id)
    | Delete(table: Table, id: Id)
    | Navigate(path: string)

  /** Rows of the four tables. */
  datatype Article = Article(
    id: Id, title: string, slug: string, content: string,
    imageUrl: Option<string>, publishedAt: string, updatedAt: Option<string>)

  datatype Project = Project(
    id: Id, title: string, description: Option<string>, techStack: seq<string>,
    imageUrl: Option<string>, link: Option<string>, createdAt: string)

  datatype Activity = Activity(
    id: Id, title: string, kind: string, organization: Option<string>,
    role: Option<string>, startDate: string, endDate: Option<string>,
    description: Option<string>, imageUrl: Option<string>, createdAt: string)

  datatype Profile = Profile(
    id: Id, fullName: Option<string>, avatarUrl: Option<string>,
    bio: Option<string>, createdAt: string)

  /** The payloads the three forms send, for insert and for update alike. */
  datatype ArticleFields = ArticleFields(
    title: string, slug: string, content: string, imageUrl: Option<string>)

  datatype ProjectFields = ProjectFields(
    title: string, description: string, techStack: seq<string>, link: string,
    imageUrl: Option<string>)

  datatype ActivityFields = ActivityFields(
    title: string, kind: string, organization: string, role: string,
    startDate: string, endDate: Option<string>, description: string,
    imageUrl: Option<string>)

  /** The columns a profiles update writes. */
  datatype ProfilePatch =
    | NameAndBio(fullName: Option<string>, bio: Option<string>)
    | AvatarUrl(url: Option<string>)

  /** A row built by an insert: the payload, with the id and the default
      timestamp the backend fills in. */
  function NewArticle(id: Id, f: ArticleFields, stamp: string): (a: Article)
    ensures a.id == id && a.publishedAt == stamp && a.updatedAt == None
    ensures ArticleFields(a.title, a.slug, a.content, a.imageUrl) == f
  {
    Article(id, f.title, f.slug, f.content, f.imageUrl, stamp, None)
  }

  /** A row after an update: the payload's columns, the rest kept. */
  function EditedArticle(a: Article, f: ArticleFields, updatedAt: string): (b: Article)
    ensures b.id == a.id && b.publishedAt == a.publishedAt && b.updatedAt == Some(updatedAt)
    ensures ArticleFields(b.title, b.slug, b.content, b.imageUrl) == f
  {
    a.(title := f.title, slug := f.slug, content := f.content, imageUrl := f.imageUrl,
       updatedAt := Some(updatedAt))
  }

  function NewProject(id: Id, f: ProjectFields, stamp: string): (p: Project)
    ensures p.id == id && p.createdAt == stamp
    ensures ProjectFields(p.title, OrEmpty(p.description), p.techStack, OrEmpty(p.link), p.imageUrl) == f
  {
    Project(id, f.title, Some(f.description), f.techStack, f.imageUrl, Some(f.link), stamp)
  }

  function EditedProject(p: Project, f: ProjectFields): (q: Project)
    ensures q.id == p.id && q.createdAt == p.createdAt
    ensures ProjectFields(q.title, OrEmpty(q.description), q.techStack, OrEmpty(q.link), q.imageUrl) == f
  {
    p.(title := f.title, description := Some(f.description), techStack := f.techStack,
       link := Some(f.link), imageUrl := f.imageUrl)
  }

  function NewActivity(id: Id, f: ActivityFields, stamp: string): (a: Activity)
    ensures a.id == id && a.createdAt == stamp
    ensures ActivityFields(a.title, a.kind, OrEmpty(a.organization), OrEmpty(a.role), a.startDate,
                           a.endDate, OrEmpty(a.description), a.imageUrl) == f
  {
    Activity(id, f.title, f.kind, Some(f.organization), Some(f.role), f.startDate,
             f.endDate, Some(f.description), f.imageUrl, stamp)
  }

  function EditedActivity(a: Activity, f: ActivityFields): (b: Activity)
    ensures b.id == a.id && b.createdAt == a.createdAt
    ensures ActivityFields(b.title, b.kind, OrEmpty(b.organization), OrEmpty(b.role), b.startDate,
                           b.endDate, OrEmpty(b.description), b.imageUrl) == f
  {
    a.(title := f.title, kind := f.kind, organization := Some(f.organization),
       role := Some(f.role), startDate := f.startDate, endDate := f.endDate,
       description := Some(f.description), imageUrl := f.imageUrl)
  }

  /** A profile row after an update writes only the patched columns. */
  function Patched(p: Profile, patch: ProfilePatch): (q: Profile)
    ensures q.id == p.id && q.createdAt == p.createdAt
    ensures patch.NameAndBio? ==> q.fullName == patch.fullName && q.bio == patch.bio && q.avatarUrl == p.avatarUrl
    ensures patch.AvatarUrl? ==> q.avatarUrl == patch.url && q.fullName == p.fullName && q.bio == p.bio
  {
    match patch
    case NameAndBio(n, b) => p.(fullName := n, bio := b)
    case AvatarUrl(u) => p.(avatarUrl := u)
  }

  /** A later update of the same row supersedes an earlier one: only the
      last payload and the last `updated_at` remain. */
  lemma EditArticleTwice(a: Article, f: ArticleFields, s: string, g: ArticleFields, t: string)
    ensures EditedArticle(EditedArticle(a, f, s), g, t) == EditedArticle(a, g, t)
  {
  }

  /** An update right after the insert is the insert of the newer payload,
      stamped as updated. */
  lemma InsertThenEditArticle(id: Id, f: ArticleFields, stamp: string, g: ArticleFields, t: string)
    ensures EditedArticle(NewArticle(id, f, stamp), g, t) == NewArticle(id, g, stamp).(updatedAt := Some(t))
  {
  }

  /** Saving an article's own columns back changes only `updated_at`. */
  lemma ResaveArticle(a: Article, t: string)
    ensures EditedArticle(a, ArticleFields(a.title, a.slug, a.content, a.imageUrl), t) == a.(updatedAt := Some(t))
  {
  }

  lemma EditProjectTwice(p: Project, f: ProjectFields, g: ProjectFields)
    ensures EditedProject(EditedProject(p, f), g) == EditedProject(p, g)
  {
  }

  /** Saving a project's columns back as its editor shows them (`?? ''`)
      keeps the row, except that a null description or link becomes `""`. */
  lemma ResaveProject(p: Project)
    ensures var f := ProjectFields(p.title, OrEmpty(p.description), p.techStack, OrEmpty(p.link), p.imageUrl);
      EditedProject(p, f) == p.(description := Some(OrEmpty(p.description)), link := Some(OrEmpty(p.link)))
    ensures p.description.Some? && p.link.Some? ==>
      EditedProject(p, ProjectFields(p.title, p.description.value, p.techStack, p.link.value, p.imageUrl)) == p
  {
  }

  lemma EditActivityTwice(a: Activity, f: ActivityFields, g: ActivityFields)
    ensures EditedActivity(EditedActivity(a, f), g) == EditedActivity(a, g)
  {
  }

  /** Saving an activity's columns back as its editor shows and sends them
      (`?? ''`, and `|| null` on the end date) keeps the row, except that
      null text columns become `""` and an empty end date becomes null. */
  lemma ResaveActivity(a: Activity)
    ensures var f := ActivityFields(a.title, a.kind, OrEmpty(a.organization), OrEmpty(a.role), a.startDate,
                                    NullIfEmpty(OrEmpty(a.endDate)), OrEmpty(a.description), a.imageUrl);
      EditedActivity(a, f) == a.(organization := Some(OrEmpty(a.organization)), role := Some(OrEmpty(a.role)),
                                 endDate := if a.endDate == Some("") then None else a.endDate,
                                 description := Some(OrEmpty(a.description)))
  {
    NullIfEmptyOrEmpty(a.endDate);
  }

  /** A later profile update of the same columns supersedes an earlier one,
      and updates of the two column groups commute. */
  lemma PatchTwice(p: Profile, x: ProfilePatch, y: ProfilePatch)
    ensures x.NameAndBio? == y.NameAndBio? ==> Patched(Patched(p, x), y) == Patched(p, y)
    ensures x.NameAndBio? != y.NameAndBio? ==> Patched(Patched(p, x), y) == Patched(Patched(p, y), x)
  {
  }

  class Backend {
    var storage: map<Bucket, set<string>>
    var articles: map<Id, Article>
    var projects: map<Id, Project>
    var activities: map<Id, Activity>
    var profiles: map<Id, Profile>
    var trace: seq<Event>

    constructor ()
      ensures storage == map[] && trace == []
      ensures articles == map[] && projects == map[] && activities == map[] && profiles == map[]
    {
      storage, trace := map[], [];
      articles, projects, activities, profiles := map[], map[], map[], map[];
    }

    /** The object names in a bucket. */
    function Objects(b: Bucket): set<string>
      reads this
    {
      if b in storage then storage[b] else {}
    }

    /** `storage.from(b).remove([name])`: removing a missing name is not an
        error; `ok` is whether the call went through. */
    method RemoveObject(b: Bucket, name: string, ok: bool) returns (failed: bool)
      modifies this`storage, this`trace
      ensures trace == old(trace) + [Remove(b, name)]
      ensures failed == !ok
      ensures Objects(b) == if ok then old(Objects(b)) - {name} else old(Objects(b))
      ensures forall c :: c != b ==> Objects(c) == old(Objects(c))
    {
      trace := trace + [Remove(b, name)];
      failed := !ok;
      if ok {
        storage := storage[b := Objects(b) - {name}];
      }
    }

    /** `storage.from(b).upload(name, file)` without upsert: a name that is
        already taken is rejected as well. */
    method UploadObject(b: Bucket, name: string, ok: bool) returns (failed: bool)
      modifies this`storage, this`trace
      ensures trace == old(trace) + [Upload(b, name)]
      ensures failed == (!ok || name in old(Objects(b)))
      ensures Objects(b) == if failed then old(Objects(b)) else old(Objects(b)) + {name}
      ensures forall c :: c != b ==> Objects(c) == old(Objects(c))
    {
      trace := trace + [Upload(b, name)];
      failed := !ok || name in Objects(b);
      if !failed {
        storage := storage[b := Objects(b) + {name}];
      }
    }

    /** Inserts are rejected when the primary key is taken; an update of an
        id that has no row succeeds and changes nothing; a delete removes
        the row with that id. */
    method InsertArticle(row: Article, ok: bool) returns (failed: bool)
      modifies this`articles, this`trace
      ensures trace == old(trace) + [Insert(ArticlesTable)]
      ensures failed == (!ok || row.id in old(articles))
      ensures articles == if failed then old(articles) else old(articles)[row.id := row]
    {
      trace := trace + [Insert(ArticlesTable)];
      failed := !ok || row.id in articles;
      if !failed {
        articles := articles[row.id := row];
      }
    }

    method UpdateArticle(id: Id, f: ArticleFields, updatedAt: string, ok: bool) returns (failed: bool)
      modifies this`articles, this`trace
      ensures trace == old(trace) + [Update(ArticlesTable, id)]
      ensures failed == !ok
      ensures articles == if ok && id in old(articles)
        then old(articles)[id := EditedArticle(old(articles)[id], f, updatedAt)]
        else old(articles)
    {
      trace := trace + [Update(ArticlesTable, id)];
      failed := !ok;
      if ok && id in articles {
        articles := articles[id := EditedArticle(articles[id], f, updatedAt)];
      }
    }

    method DeleteArticle(id: Id, ok: bool) returns (failed: bool)
      modifies this`articles, this`trace
      ensures trace == old(trace) + [Delete(ArticlesTable, id)]
      ensures failed == !ok
      ensures articles == if ok then old(articles) - {id} else old(articles)
    {
      trace := trace + [Delete(ArticlesTable, id)];
      failed := !ok;
      if ok {
        articles := articles - {id};
      }
    }

    method InsertProject(row: Project, ok: bool) returns (failed: bool)
      modifies this`projects, this`trace
      ensures trace == old(trace) + [Insert(ProjectsTable)]
      ensures failed == (!ok || row.id in old(projects))
      ensures projects == if failed then old(projects) else old(projects)[row.id := row]
    {
      trace := trace + [Insert(ProjectsTable)];
      failed := !ok || row.id in projects;
      if !failed {
        projects := projects[row.id := row];
      }
    }

    method UpdateProject(id: Id, f: ProjectFields, ok: bool) returns (failed: bool)
      modifies this`projects, this`trace
      ensures trace == old(trace) + [Update(ProjectsTable, id)]
      ensures failed == !ok
      ensures projects == if ok && id in old(projects)
        then old(projects)[id := EditedProject(old(projects)[id], f)]
        else old(projects)
    {
      trace := trace + [Update(ProjectsTable, id)];
      failed := !ok;
      if ok && id in projects {
        projects := projects[id := EditedProject(projects[id], f)];
      }
    }

    method DeleteProject(id: Id, ok: bool) returns (failed: bool)
      modifies this`projects, this`trace
      ensures trace == old(trace) + [Delete(ProjectsTable, id)]
      ensures failed == !ok
      ensures projects == if ok then old(projects) - {id} else old(projects)
    {
      trace := trace + [Delete(ProjectsTable, id)];
      failed := !ok;
      if ok {
        projects := projects - {id};
      }
    }

    method InsertActivity(row: Activity, ok: bool) returns (failed: bool)
      modifies this`activities, this`trace
      ensures trace == old(trace) + [Insert(ActivitiesTable)]
      ensures failed == (!ok || row.id in old(activities))
      ensures activities == if failed then old(activities) else old(activities)[row.id := row]
    {
      trace := trace + [Insert(ActivitiesTable)];
      failed := !ok || row.id in activities;
      if !failed {
        activities := activities[row.id := row];
      }
    }

    method UpdateActivity(id: Id, f: ActivityFields, ok: bool) returns (failed: bool)
      modifies this`activities, this`trace
      ensures trace == old(trace) + [Update(ActivitiesTable, id)]
      ensures failed == !ok
      ensures activities == if ok && id in old(activities)
        then old(activities)[id := EditedActivity(old(activities)[id], f)]
        else old(activities)
    {
      trace := trace + [Update(ActivitiesTable, id)];
      failed := !ok;
      if ok && id in activities {
        activities := activities[id := EditedActivity(activities[id], f)];
      }
    }

    method DeleteActivity(id: Id, ok: bool) returns (failed: bool)
      modifies this`activities, this`trace
      ensures trace == old(trace) + [Delete(ActivitiesTable, id)]
      ensures failed == !ok
      ensures activities == if ok then old(activities) - {id} else old(activities)
    {
      trace := trace + [Delete(ActivitiesTable, id)];
      failed := !ok;
      if ok {
        activities := activities - {id};
      }
    }

    method InsertProfile(row: Profile, ok: bool) returns (failed: bool)
      modifies this`profiles, this`trace
      ensures trace == old(trace) + [Insert(ProfilesTable)]
      ensures failed == (!ok || row.id in old(profiles))
      ensures profiles == if failed then old(profiles) else old(profiles)[row.id := row]
    {
      trace := trace + [Insert(ProfilesTable)];
      failed := !ok || row.id in profiles;
      if !failed {
        profiles := profiles[row.id := row];
      }
    }

    method UpdateProfile(id: Id, patch: ProfilePatch, ok: bool) returns (failed: bool)
      modifies this`profiles, this`trace
      ensures trace == old(trace) + [Update(ProfilesTable, id)]
      ensures failed == !ok
      ensures profiles == if ok && id in old(profiles)
        then old(profiles)[id := Patched(old(profiles)[id], patch)]
        else old(profiles)
    {
      trace := trace + [Update(ProfilesTable, id)];
      failed := !ok;
      if ok && id in profiles {
        profiles := profiles[id := Patched(profiles[id], patch)];
      }
    }

    /** `router.push(path)`. */
    method Navigate(path: string)
      modifies this`trace
      ensures trace == old(trace) + [Event.Navigate(path)]
    {
      trace := trace + [Event.Navigate(path)];
    }
  }
}
