# Portfolio dashboard: media-asset lifecycle and string helpers

A Dafny model of the dashboard of a personal portfolio site. The site keeps
articles, projects, activities and profiles in a hosted backend: four
tables, plus one storage bucket per entity for its image. The dashboard's
logic is a few sequences that the forms and list pages repeat for their
entity:

- On submit (article, project and activity forms): remove the superseded
  image object, upload the new file under a timestamped name, then insert
  or update the row, then navigate to the list.
- On an avatar change (profile form): remove the old avatar object, upload
  the new file, then update the profile row's avatar URL; the profile form
  never inserts a row and never navigates.
- On delete (activities and projects list pages): remove the image object,
  then delete the row, then drop it from the local list. The articles list
  page deletes only the row, so the article's image object stays in its
  bucket.

Around this sit small string helpers: the article slug, the project's
comma-separated tech stack, the file name taken from an image URL, the
upload name, and the default display name taken from an e-mail address.

Module layout, one module per source file of the core plus five shared ones:

- `Nullable`: nullable strings and JavaScript truthiness of `string | null`.
- `Text`: the JavaScript string built-ins the helpers are made of:
  `toLowerCase`, `trim`, `split` on one character, `join`, `pop` of a
  split, and the decimal rendering of a timestamp.
- `Backend`: the rows, the payloads the forms send, and the backend as a
  class.
  - The class holds one `set<string>` of object names per bucket, one
    `map<Id, Row>` per table, and a trace of every call issued, with the
    client-side navigations.
  - Each call takes its remote outcome as a parameter. An upload fails when
    the backend rejects it or the name is taken (no upsert). An insert
    fails on a taken id. An update of a missing id changes nothing.
- `Assets`: upload names, the last-path-segment rule, and `StageImage`.
  `StageImage` is the remove-then-upload step that all three forms and
  the avatar replacement share. It is specified by pure functions of the
  bucket's contents.
- `ArticleForm`, `ProjectForm`, `ActivityForm`, `ProfileForm`: one class
  per form. Each holds its fields and has methods for its handlers.
- `LocalList`, `ActivitiesPage`, `ProjectsPage`, `ArticlesPage`: the list
  pages' local arrays and their delete handlers.
- `LoginPage`: `checkProfile` and `handleLogin`.

Every handler states its whole effect:

- the events it appends to the trace, in order;
- the new bucket and table contents;
- the new local state;
- which outcome it reports.

The code de-duplicates no tags and has no slug lock, and the model has
neither. Two consequences of the remove-first order are proved rather
than hidden:

- A rejected upload leaves the record pointing at an object that is already
  gone (`Assets.AbortedStageLosesPrior`).
- A failed write leaves the uploaded object without a record
  (`Assets.StagedUploadKept`).

The activities and projects list pages likewise remove the image before
the row delete. A failed delete therefore keeps a row whose image is gone,
as `ActivitiesPage.Page.HandleDelete` states. The articles list page makes
no storage call at all (`ArticlesPage.Page.HandleDelete`), so a deleted
article's image object is never removed.

An image URL is represented by its pathname. Clock readings, dialog
answers and backend answers are parameters.

## Model

| member | source | states |
|---|---|---|
| Nullable.OrEmpty | src/components/dashboard/ProjectForm.tsx:16 | the text `x ?? ''` shows is non-empty exactly when the column is truthy, and is then the column's value |
| Nullable.NullIfEmpty | src/components/dashboard/ActivityForm.tsx:64 | `s \|\| null` never stores a falsy string, and showing what it stores with `?? ''` gives `s` back |
| Nullable.NullIfEmptyOrEmpty | src/components/dashboard/ActivityForm.tsx:21-64 | a stored end date passed through the form (`?? ''`, then `\|\| null`) is kept, except that `""` becomes null |
| Text.LowerChar | src/components/dashboard/ArticleForm.tsx:23 | an upper-case letter becomes the lower-case letter at the same place in the alphabet; every other character is kept |
| Text.ToLower | src/components/dashboard/ArticleForm.tsx:23 | `toLowerCase` keeps the length and lower-cases each character in place |
| Text.TrimStart | src/components/dashboard/ArticleForm.tsx:24 | dropping leading white space never lengthens the text and leaves it not starting with white space |
| Text.TrimEnd | src/components/dashboard/ArticleForm.tsx:24 | dropping trailing white space leaves a prefix of the text that does not end with white space |
| Text.Trim | src/components/dashboard/ArticleForm.tsx:24 | `trim` never lengthens the text and leaves no white space at either end |
| Text.TrimDrops | src/components/dashboard/ArticleForm.tsx:24 | `trim` gives a contiguous piece of its input with no white space at either end, and drops only white space |
| Text.TrimPiece | src/components/dashboard/ArticleForm.tsx:24 | `trim` gives the piece of its input that starts where the leading white space ends |
| Text.TrimTail | src/components/dashboard/ArticleForm.tsx:24 | everything `trim` drops after that piece is white space |
| Text.TrimIdempotent | src/components/dashboard/ArticleForm.tsx:24 | trimming twice equals trimming once |
| Text.TrimTrimmed | src/components/dashboard/ProjectForm.tsx:58 | `trim` leaves a string without white space at its ends unchanged |
| Text.Split | src/components/dashboard/ProjectForm.tsx:58 | `split` gives at least one piece and no piece contains the separator |
| Text.SplitCount | src/components/dashboard/ProjectForm.tsx:58 | `split` gives one piece more than there are separators |
| Text.SplitAround | src/components/dashboard/ProjectForm.tsx:58 | splitting at a separator splits both sides independently |
| Text.JoinSplit | src/components/dashboard/ProjectForm.tsx:58 | joining the pieces with the separator restores the string |
| Text.SplitJoin | src/components/dashboard/ProjectForm.tsx:17-58 | splitting separator-free pieces after joining them gives the pieces back |
| Text.Join | src/components/dashboard/ProjectForm.tsx:18 | `join` of no pieces is `""`; otherwise the text starts with the first piece |
| Text.AfterLastIsTail | src/components/dashboard/ArticleForm.tsx:39 | `split(sep).pop()` is a separator-free suffix, either the whole string or preceded by a separator |
| Text.AfterLastAppend | src/components/dashboard/ArticleForm.tsx:45 | what precedes the last separator does not affect `split(sep).pop()` |
| Text.AfterLast | src/components/dashboard/ArticleForm.tsx:39 | `split(sep).pop()` holds no separator |
| Text.BeforeFirstIsHead | src/app/login/page.tsx:18 | `split(sep)[0]` is a separator-free prefix, either the whole string or followed by a separator |
| Text.BeforeFirst | src/app/login/page.tsx:18 | `split(sep)[0]` holds no separator |
| Text.Decimal | src/components/dashboard/ArticleForm.tsx:46 | a rendered timestamp is a non-empty string of digits without a leading zero |
| Text.DecimalValue | src/components/dashboard/ArticleForm.tsx:46 | reading the digits back gives the timestamp |
| Text.DecimalInjective | src/components/dashboard/ArticleForm.tsx:46 | distinct timestamps render differently |
| Backend.NewActivity | src/components/dashboard/ActivityForm.tsx:58-71 | the inserted row gives back exactly the payload sent (reading its nullable text columns with `?? ''`), with the new id and the creation stamp |
| Backend.EditedActivity | src/components/dashboard/ActivityForm.tsx:58-70 | the updated row gives back exactly the payload sent (reading its nullable text columns with `?? ''`), keeping id and creation stamp |
| Backend.EditArticleTwice | src/components/dashboard/ArticleForm.tsx:66-75 | of two updates of one article, only the later payload and `updated_at` remain |
| Backend.InsertThenEditArticle | src/components/dashboard/ArticleForm.tsx:66-88 | an update right after the insert is the insert of the newer payload, stamped as updated |
| Backend.ResaveArticle | src/components/dashboard/ArticleForm.tsx:15-75 | saving an article's own columns back changes only `updated_at` |
| Backend.EditProjectTwice | src/components/dashboard/ProjectForm.tsx:55-64 | of two updates of one project, only the later payload remains |
| Backend.ResaveProject | src/components/dashboard/ProjectForm.tsx:15-64 | saving a project back as its editor shows it keeps the row, except that a null description or link becomes `""` |
| Backend.EditActivityTwice | src/components/dashboard/ActivityForm.tsx:58-70 | of two updates of one activity, only the later payload remains |
| Backend.ResaveActivity | src/components/dashboard/ActivityForm.tsx:16-70 | saving an activity back as its editor shows and sends it keeps the row, except that null text columns become `""` and an empty end date becomes null |
| Backend.Patched | src/components/dashboard/ProfileForm.tsx:63-66 | a name-and-bio update writes the given name and bio and leaves `avatar_url` alone; an avatar update writes the given URL and leaves name and bio alone |
| Backend.PatchTwice | src/components/dashboard/ProfileForm.tsx:63-147 | a later update of the same columns supersedes an earlier one, and updates of name-and-bio and of the avatar commute |
| Backend.Backend.RemoveObject | src/components/dashboard/ArticleForm.tsx:41 | a removal is traced and drops the name only when the backend accepts it |
| Backend.Backend.UploadObject | src/components/dashboard/ProfileForm.tsx:125-127 | an upload is traced and fails when rejected or when the name is taken (no upsert); otherwise it adds the name |
| Backend.Backend.InsertArticle | src/components/dashboard/ArticleForm.tsx:86-88 | an insert is traced and fails when rejected or the id is taken; otherwise it adds the row |
| Backend.Backend.UpdateArticle | src/components/dashboard/ArticleForm.tsx:66-75 | an update is traced; when accepted it rewrites the row with that id, if there is one |
| Backend.Backend.DeleteArticle | src/app/dashboard/articles/page.tsx:30-33 | a delete is traced and removes the id when accepted |
| Backend.Backend.InsertProject | src/components/dashboard/ProjectForm.tsx:65 | as `InsertArticle`, on the projects table |
| Backend.Backend.UpdateProject | src/components/dashboard/ProjectForm.tsx:64 | as `UpdateArticle`, on the projects table |
| Backend.Backend.DeleteProject | src/app/dashboard/projects/page.tsx:43 | as `DeleteArticle`, on the projects table |
| Backend.Backend.InsertActivity | src/components/dashboard/ActivityForm.tsx:71 | as `InsertArticle`, on the activities table |
| Backend.Backend.UpdateActivity | src/components/dashboard/ActivityForm.tsx:70 | as `UpdateArticle`, on the activities table |
| Backend.Backend.DeleteActivity | src/app/dashboard/activities/page.tsx:43 | as `DeleteArticle`, on the activities table |
| Backend.Backend.InsertProfile | src/app/login/page.tsx:15-22 | as `InsertArticle`, on the profiles table |
| Backend.Backend.UpdateProfile | src/components/dashboard/ProfileForm.tsx:144-147 | an update is traced; when accepted it patches the row with that id, if there is one |
| Backend.Backend.Navigate | src/components/dashboard/ArticleForm.tsx:100 | `router.push` appends the navigation to the trace |
| Assets.OldObject | src/components/dashboard/ArticleForm.tsx:38-40 | a null or empty URL removes nothing, and the object removed is always a non-empty, slash-free name |
| Assets.OldObjectOfPath | src/components/dashboard/ArticleForm.tsx:38-40 | the object removed for `dir/name` is `name`; a path ending in `/`, a null or an empty URL removes nothing |
| Assets.Extension | src/components/dashboard/ArticleForm.tsx:45 | `name.split('.').pop()` holds no dot |
| Assets.UploadName | src/components/dashboard/ArticleForm.tsx:46 | an upload name starts with the entity's prefix, followed by the stamp's digits and then a dot |
| Assets.StoredName | src/components/dashboard/ArticleForm.tsx:39 | the last path segment holds no slash |
| Assets.StageImage | src/components/dashboard/ArticleForm.tsx:34-62 | without a file, no storage call; with one, the optional removal, then the upload. The bucket ends as `StagedObjects`, other buckets are untouched, and the URL to persist is the new public URL, or the prior one without a file |
| Assets.StageOrder | src/components/dashboard/ArticleForm.tsx:37-49 | the removal of the prior image's object comes immediately before the upload; no file means no storage call |
| Assets.AbortedStageLosesPrior | src/components/dashboard/ArticleForm.tsx:38-55 | a rejected upload after an accepted removal leaves the prior object gone |
| Assets.StagedUploadKept | src/components/dashboard/ActivityForm.tsx:44-76 | an accepted upload is in the bucket after staging, whatever the write then does |
| Assets.ExtensionKept | src/components/dashboard/ProjectForm.tsx:38-39 | the upload name has the original file's extension |
| Assets.UploadNamesDistinct | src/components/dashboard/ProjectForm.tsx:39 | uploads with one prefix at different timestamps get different names |
| Assets.StoredNameOfPath | src/components/dashboard/ProjectForm.tsx:34 | the last-segment rule recovers a slash-free name stored under any directory |
| Assets.UploadNameRecovered | src/components/dashboard/ProjectForm.tsx:34-39 | the name a later removal extracts from an upload's public path is the uploaded name |
| ArticleForm.StripChars | src/components/dashboard/ArticleForm.tsx:25 | the deletion keeps only word characters, white space and `-`, and introduces no upper-case letter |
| ArticleForm.StripDisallowed | src/components/dashboard/ArticleForm.tsx:25 | the deletion never lengthens the text |
| ArticleForm.Hyphenate | src/components/dashboard/ArticleForm.tsx:26 | the hyphenation never lengthens the text and empties only the empty text |
| ArticleForm.GenerateSlug | src/components/dashboard/ArticleForm.tsx:21-28 | a slug is never longer than its title |
| ArticleForm.HyphenateChars | src/components/dashboard/ArticleForm.tsx:26 | hyphenation leaves no white space and adds only `-` |
| ArticleForm.SlugChars | src/components/dashboard/ArticleForm.tsx:22-26 | every character of a derived slug is in `[a-z0-9_-]`, so it has no white space |
| ArticleForm.HyphenateRun | src/components/dashboard/ArticleForm.tsx:26 | each maximal run of white space becomes exactly one `-`, the text on either side unchanged otherwise |
| ArticleForm.HyphenateNoSpace | src/components/dashboard/ArticleForm.tsx:26 | text without white space is not changed by the hyphenation |
| ArticleForm.StripKept | src/components/dashboard/ArticleForm.tsx:25 | text of allowed characters only is not changed by the deletion |
| ArticleForm.StripAppend | src/components/dashboard/ArticleForm.tsx:25 | the deletion works character by character and keeps order |
| ArticleForm.SlugFixedPoint | src/components/dashboard/ArticleForm.tsx:22-26 | a string of slug characters is its own slug |
| ArticleForm.SlugIdempotent | src/components/dashboard/ArticleForm.tsx:21-28 | deriving a slug from a slug gives it back |
| ArticleForm.SlugExample | src/components/dashboard/ArticleForm.tsx:21-28 | the title "Hello, World! 2024" gives the slug "hello-world-2024" |
| ArticleForm.SlugOfWords | src/components/dashboard/ArticleForm.tsx:21-28 | the same example with the three words as parameters pinned to the constants, which is how it is proved |
| ArticleForm.Form.constructor | src/components/dashboard/ArticleForm.tsx:15-18 | the fields start from the edited article, or empty, with no staged file |
| ArticleForm.Form.ChangeTitle | src/components/dashboard/ArticleForm.tsx:111-114 | the slug is re-derived from the new title only when creating; when editing it is unchanged |
| ArticleForm.Form.HandleSubmit | src/components/dashboard/ArticleForm.tsx:30-101 | the remove/upload/write/navigate trace, in order. A rejected upload means no write and no navigation. Edit updates by the edited id and stamps `updated_at`; create inserts. Navigation happens exactly when the write succeeds |
| ProjectForm.TechStackCount | src/components/dashboard/ProjectForm.tsx:58 | the parsed tech stack has one entry per comma plus one; nothing is dropped or merged |
| ProjectForm.ParseTechStack | src/components/dashboard/ProjectForm.tsx:58 | the parsed tech stack has at least one entry, and every entry has no white space at either end |
| ProjectForm.TechStackEmpty | src/components/dashboard/ProjectForm.tsx:17-58 | empty input, and so an empty saved tag list, parses to `[""]` |
| ProjectForm.TechStackRoundTrip | src/components/dashboard/ProjectForm.tsx:17-58 | parsing the initial `join(', ')` of trimmed, comma-free tags gives the tags back |
| ProjectForm.JoinTechStack | src/components/dashboard/ProjectForm.tsx:17-18 | the field's initial text is empty for no tags and starts with the first tag otherwise |
| ProjectForm.Form.constructor | src/components/dashboard/ProjectForm.tsx:15-21 | the fields start from the edited project (`?? ''`, tags joined with ", "), or empty |
| ProjectForm.Form.HandleSubmit | src/components/dashboard/ProjectForm.tsx:24-76 | as the article form's submit, with the parsed tags in the payload and no `updated_at` |
| ActivityForm.Form.constructor | src/components/dashboard/ActivityForm.tsx:16-27 | the fields start from the edited activity (`?? ''`), or empty with kind `Experience`, one of the listed kinds |
| ActivityForm.Form.ChangeKind | src/components/dashboard/ActivityForm.tsx:98-106 | the selector sets one of the six listed kinds |
| ActivityForm.Form.Payload | src/components/dashboard/ActivityForm.tsx:58-67 | the text fields are sent as typed; the end date is null exactly when the field is empty, is never stored as `""`, and the editor shows it back (`?? ''`) as the field |
| ActivityForm.Form.HandleSubmit | src/components/dashboard/ActivityForm.tsx:29-82 | as the article form's submit; a created row has no end date exactly when the field was empty |
| ProfileForm.Form.constructor | src/components/dashboard/ProfileForm.tsx:14 | no profile is loaded at first |
| ProfileForm.Form.FetchProfile | src/components/dashboard/ProfileForm.tsx:22-50 | with a user and a successful single-row read, the local profile is that row; otherwise it is unchanged |
| ProfileForm.Form.EditFullName | src/components/dashboard/ProfileForm.tsx:227-228 | the name input changes only the local full name |
| ProfileForm.Form.EditBio | src/components/dashboard/ProfileForm.tsx:236-237 | the bio input changes only the local bio |
| ProfileForm.Form.HandleUpdate | src/components/dashboard/ProfileForm.tsx:55-76 | no profile, no call; otherwise one update by `profile.id` that writes name and bio and leaves the stored avatar URL as it was |
| ProfileForm.Form.HandleFileChange | src/components/dashboard/ProfileForm.tsx:82-158 | no file or no profile, nothing happens. The rejected removal of the old avatar does not stop the upload. A rejected upload means no update and no local change. The local avatar URL becomes the new URL exactly when the update succeeds |
| ProfileForm.Form.HandleDeleteAvatar | src/components/dashboard/ProfileForm.tsx:163-210 | a null or empty avatar URL does nothing. An empty file name or a rejected removal stops before the update. The local URL becomes null exactly when removal and update both succeed |
| ProfileForm.AvatarObjectRecovered | src/components/dashboard/ProfileForm.tsx:89-101 | the object a later replacement or delete removes is the `<id>_<time>.<ext>` name uploaded |
| ProfileForm.AvatarPrefix | src/components/dashboard/ProfileForm.tsx:91 | the avatar prefix is the id followed by one character, and holds a slash only when the id does |
| LocalList.Without | src/app/dashboard/activities/page.tsx:47 | filtering never lengthens the list |
| LocalList.WithoutMember | src/app/dashboard/activities/page.tsx:47 | an entry is kept exactly when it was listed and has another id |
| LocalList.WithoutAppend | src/app/dashboard/projects/page.tsx:47 | filtering works piece by piece, so the kept entries keep their relative order |
| LocalList.WithoutAbsent | src/app/dashboard/articles/page.tsx:38 | a list without the id is unchanged |
| LocalList.WithoutIdempotent | src/app/dashboard/articles/page.tsx:38 | filtering out the same id twice drops nothing more |
| LocalList.WithoutShrinks | src/app/dashboard/activities/page.tsx:47 | a listed id makes the list shorter |
| ActivitiesPage.Page.constructor | src/app/dashboard/activities/page.tsx:10-30 | the list is the fetched rows, or `[]` after a read error |
| ActivitiesPage.Page.HandleDelete | src/app/dashboard/activities/page.tsx:32-50 | a declined confirm makes no call and changes nothing. Otherwise the optional removal comes before the delete by id, and its outcome is ignored. A failed delete leaves the list unchanged; a successful one filters out exactly that id, in order |
| ProjectsPage.Page.constructor | src/app/dashboard/projects/page.tsx:10-30 | the list is the fetched rows, or `[]` after a read error |
| ProjectsPage.Page.HandleDelete | src/app/dashboard/projects/page.tsx:32-50 | as the activities page's delete, on projects |
| ArticlesPage.Page.constructor | src/app/dashboard/articles/page.tsx:9-24 | the list is the fetched rows, or `[]` after a read error |
| ArticlesPage.Page.HandleDelete | src/app/dashboard/articles/page.tsx:26-41 | a declined confirm makes no call; otherwise exactly one delete by id and no storage call. A failed delete leaves the list unchanged; a successful one filters out exactly that id |
| LoginPage.DefaultNameIsLocalPart | src/app/login/page.tsx:18 | the default name is the text before the first `@`, or the whole address without one |
| LoginPage.DefaultName | src/app/login/page.tsx:18 | the default name holds no `@` |
| LoginPage.DefaultProfile | src/app/login/page.tsx:16-21 | the inserted row has the user's id, an `@`-free name, and an avatar URL and bio that are not null but falsy |
| LoginPage.ProfilesAfterCheck | src/app/login/page.tsx:14-23 | a check adds at most the user's row and drops no row |
| LoginPage.CheckProfile | src/app/login/page.tsx:7-24 | the read, then an insert only when the read found no row; the table ends as `ProfilesAfterCheck` |
| LoginPage.CheckKeepsRows | src/app/login/page.tsx:14-23 | existing rows are never modified; the user's row is the old one or the default one |
| LoginPage.CheckIdempotent | src/app/login/page.tsx:14 | once the user has a row, checking again changes nothing |
| LoginPage.DefaultAvatarRemovesNothing | src/app/login/page.tsx:19-20 | the default avatar URL is `''`, not null, and falsy, so neither avatar handler removes an object for it |
| LoginPage.Page.constructor | src/app/login/page.tsx:30 | the error message starts empty |
| LoginPage.Page.HandleLogin | src/app/login/page.tsx:32-50 | a sign-in error sets the message and makes no call. Otherwise the profile is checked when a user is returned, and navigation to `/dashboard` follows either way |

`PriorImage` (one per form: `initialData?.image_url ?? null`, at
src/components/dashboard/ArticleForm.tsx:34, ProjectForm.tsx:29 and
ActivityForm.tsx:33) and `StageEvents`, `StagedObjects` and `StagedUrl` are
vocabulary for the contracts above. Their meaning is stated by each
`HandleSubmit`: a created record has no prior image, so its submit removes
nothing.

## Left out

- Text.ToLower: lower-cases the ASCII letters only; the Unicode case mapping of `toLowerCase` is not modelled.
- Assets.StoredName: takes the URL's pathname as its input. The WHATWG URL parsing of `new URL(...)`, and its throw on an invalid URL, are not modelled. Neither is percent-encoding: `getPublicUrl` and `new URL` encode characters such as a space or `%`, so a file extension holding one would come back encoded from the pathname, and `Assets.UploadNameRecovered` holds only for names those functions leave unchanged.
- Assets.StageImage: the public URL of an upload is a parameter, not derived from the uploaded name; `Assets.UploadNameRecovered` relates the two for a path of the usual shape.
- Clock readings: `Date.now()`, `getTime()` and `toISOString()` are parameters, and so are the backend's default timestamp columns.
- Browser dialogs and feedback: `window.confirm` is a parameter; `alert`, console output and the `saving`/`loading`/`uploading`/`deleting` flags are left out, because they change nothing the handlers compute.
- Reads: the rows a list page or the profile form receives are parameters (list pages) or the table's row (profile form). The backend's `order(...)` of a listing is not modelled, and reads are not recorded in the trace.
- Authentication: `getUser` and `signInWithPassword` are parameters; sessions, the auth listener and logout are not part of this model.
- LoginPage.CheckProfile: the e-mail is a string; an undefined `user.email` (the `!` assertion) is not modelled.
- Files: only a picked file's name is modelled, not its contents.
- Browser form validation (`required` inputs) is not modelled, because it happens before the handlers run.
- Concurrency: overlapping submissions and the concurrent dashboard counts (src/app/dashboard/page.tsx) are not modelled; each handler runs to completion.
- src/lib/data.ts is not part of this model: it is thin query wrappers whose meaning lies in the backend.
- Presentation, animation, locale date formatting, routing shells and the build configuration are not part of this model.
- The `(admin)` list pages and the `(public)` login page are variants of the modelled pages and are not part of this model. The `(admin)` list pages delete through a confirmation modal instead of `window.confirm`, and their articles page removes the image object before the row delete, as the other list pages do. The `(public)` login page also keeps a loading flag and calls `router.refresh()` before navigating.
