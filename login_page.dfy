/** The login page: sign in, make sure the user has a profile row (created
    with the e-mail's local part as the name), then go to the dashboard. */
module LoginPage {
  import opened Text
  import opened Nullable
  import opened Backend
  import opened Assets

  /** `email.split('@')[0]`, which holds no `@`. */
  function DefaultName(email: string): (n: string)
    ensures '@' !in n
  {
    BeforeFirst(email, '@')
  }

  /** The default name is the part of the address before its first `@`,
      or the whole address when it has none. */
  lemma DefaultNameIsLocalPart(email: string)
    ensures var n := DefaultName(email);
      && '@' !in n && |n| <= |email| && n == email[..|n|]
      && (|n| == |email| || email[|n|] == '@')
    ensures '@' !in email ==> DefaultName(email) == email
  {
    BeforeFirstIsHead(email, '@');
  }

  /** The row `checkProfile` inserts: the id, the default name, an empty
      (not null) avatar URL and bio, and the default creation stamp. */
  function DefaultProfile(userId: Id, email: string, stamp: string): (p: Profile)
    ensures p.id == userId && p.createdAt == stamp
    ensures p.fullName.Some? && '@' !in p.fullName.value
    ensures p.avatarUrl.Some? && !Truthy(p.avatarUrl) && p.bio.Some? && !Truthy(p.bio)
  {
    Profile(userId, Some(DefaultName(email)), Some(""), Some(""), stamp)
  }

  /** The profiles table after `checkProfile`: a missing row is inserted
      when the insert goes through; an existing row is never touched,
      whatever the read answered. */
  function ProfilesAfterCheck(rows: map<Id, Profile>, userId: Id, email: string,
                              insertOk: bool, stamp: string): (r: map<Id, Profile>)
    ensures rows.Keys <= r.Keys <= rows.Keys + {userId}
  {
    if insertOk && userId !in rows then rows[userId := DefaultProfile(userId, email, stamp)] else rows
  }

  /** `checkProfile(userId, email)`: read the user's row and insert the
      default one when the read gives no data (an error counts as no data),
      ignoring the insert's outcome. */
  method CheckProfile(backend: Backend, userId: Id, email: string,
                      selectOk: bool, insertOk: bool, stamp: string)
    modifies backend`profiles, backend`trace
    ensures backend.profiles == ProfilesAfterCheck(old(backend.profiles), userId, email, insertOk, stamp)
    ensures backend.trace == old(backend.trace)
      + (if selectOk && userId in old(backend.profiles) then [] else [Insert(ProfilesTable)])
  {
    var found := selectOk && userId in backend.profiles;
    if !found {
      var _ := backend.InsertProfile(DefaultProfile(userId, email, stamp), insertOk);
    }
  }

  /** Rows other than the user's are never changed, and the user's row is
      either the one that was there or the default one. */
  lemma CheckKeepsRows(rows: map<Id, Profile>, userId: Id, email: string, insertOk: bool, stamp: string)
    ensures var after := ProfilesAfterCheck(rows, userId, email, insertOk, stamp);
      && (forall id :: id in rows ==> id in after && after[id] == rows[id])
      && after.Keys == (if insertOk then rows.Keys + {userId} else rows.Keys)
      && (userId in after ==> after[userId] == if userId in rows then rows[userId]
                                              else DefaultProfile(userId, email, stamp))
  {
  }

  /** Once the user has a row, checking again changes nothing. */
  lemma CheckIdempotent(rows: map<Id, Profile>, userId: Id, email: string, insertOk: bool, stamp: string,
                        email2: string, insertOk2: bool, stamp2: string)
    requires userId in ProfilesAfterCheck(rows, userId, email, insertOk, stamp)
    ensures var after := ProfilesAfterCheck(rows, userId, email, insertOk, stamp);
      ProfilesAfterCheck(after, userId, email2, insertOk2, stamp2) == after
  {
  }

  /** A profile created at login has a falsy avatar URL, so the first avatar
      upload removes nothing and deleting the avatar does nothing. */
  lemma DefaultAvatarRemovesNothing(userId: Id, email: string, stamp: string)
    ensures !Truthy(DefaultProfile(userId, email, stamp).avatarUrl)
    ensures OldObject(DefaultProfile(userId, email, stamp).avatarUrl).None?
  {
  }

  /** What `signInWithPassword` answers: an error with its message, or a
      session whose user may be missing. */
  datatype SignIn = SignInError(message: string) | SignedIn(user: Option<User>)
  datatype User = User(id: Id, email: string)

  const HomePath := "/dashboard"

  class Page {
    const backend: Backend
    var error: string

    constructor (backend: Backend)
      ensures this.backend == backend && error == ""
    {
      this.backend := backend;
      error := "";
    }

    /** `handleLogin`: clear the message; on a sign-in error show it and
        stay; otherwise check the user's profile (when there is a user) and
        navigate to the dashboard. */
    method HandleLogin(answer: SignIn, selectOk: bool, insertOk: bool, stamp: string)
      modifies this`error, backend`profiles, backend`trace
      ensures error == if answer.SignInError? then answer.message else ""
      ensures answer.SignInError? ==>
        backend.trace == old(backend.trace) && backend.profiles == old(backend.profiles)
      ensures answer.SignedIn? && answer.user.None? ==>
        && backend.trace == old(backend.trace) + [Event.Navigate(HomePath)]
        && backend.profiles == old(backend.profiles)
      ensures answer.SignedIn? && answer.user.Some? ==>
        var u := answer.user.value;
        && backend.profiles == ProfilesAfterCheck(old(backend.profiles), u.id, u.email, insertOk, stamp)
        && backend.trace == old(backend.trace)
             + (if selectOk && u.id in old(backend.profiles) then [] else [Insert(ProfilesTable)])
             + [Event.Navigate(HomePath)]
    {
      error := "";
      if answer.SignInError? {
        error := answer.message;
        return;
      }
      if answer.user.Some? {
        CheckProfile(backend, answer.user.value.id, answer.user.value.email, selectOk, insertOk, stamp);
      }
      backend.Navigate(HomePath);
    }
  }
}
