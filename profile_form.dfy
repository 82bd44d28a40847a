/** The profile editor: the signed-in user's profile row held locally,
    name and bio saved together, and the avatar replaced or deleted through
    the avatars bucket.  The local copy changes only once the backend has
    accepted the change. */
module ProfileForm {
  import opened Text
  import opened Nullable
  import opened Backend
  import opened Assets

  /** How a profile handler ends: it returned early without a call, it
      found no file name to delete, a storage call failed, the profiles
      update failed, or the update went through. */
  datatype ProfileOutcome = Ignored | NameMissing | StorageFailed | TableFailed | Updated

  /** `${profile.id}_`, the prefix of an avatar's object name: the id
      followed by `_`, so it holds a slash only when the id does. */
  function AvatarPrefix(id: Id): (r: string)
    ensures id <= r && |r| == |id| + 1
    ensures '/' in r <==> '/' in id
  {
    id + "_"
  }

  class Form {
    const backend: Backend
    var profile: Option<Profile>

    /** `useState<Profile | null>(null)`. */
    constructor (backend: Backend)
      ensures this.backend == backend && profile == None
    {
      this.backend := backend;
      profile := None;
    }

    /** `fetchProfile`: with a signed-in user, the `.single()` read of that
        user's row; a failed read (an error, or no such row) leaves the
        local state as it was. */
    method FetchProfile(user: Option<Id>, selectOk: bool)
      modifies this`profile
      ensures profile == if user.Some? && selectOk && user.value in backend.profiles
        then Some(backend.profiles[user.value]) else old(profile)
    {
      if user.None? {
        return;
      }
      if selectOk && user.value in backend.profiles {
        profile := Some(backend.profiles[user.value]);
      }
    }

    /** The full-name input, shown only once a profile is loaded. */
    method EditFullName(value: string)
      requires profile.Some?
      modifies this`profile
      ensures profile == Some(old(profile).value.(fullName := Some(value)))
    {
      profile := Some(profile.value.(fullName := Some(value)));
    }

    /** The bio input, shown only once a profile is loaded. */
    method EditBio(value: string)
      requires profile.Some?
      modifies this`profile
      ensures profile == Some(old(profile).value.(bio := Some(value)))
    {
      profile := Some(profile.value.(bio := Some(value)));
    }

    /** `handleUpdate`: write the local name and bio to the user's row; the
        avatar column is not part of the update. */
    method HandleUpdate(ok: bool) returns (outcome: ProfileOutcome)
      modifies backend`profiles, backend`trace
      ensures profile.None? ==>
        outcome == Ignored && backend.trace == old(backend.trace) && backend.profiles == old(backend.profiles)
      ensures profile.Some? ==>
        var p := profile.value;
        && outcome == (if ok then Updated else TableFailed)
        && backend.trace == old(backend.trace) + [Update(ProfilesTable, p.id)]
        && backend.profiles == if ok && p.id in old(backend.profiles)
             then old(backend.profiles)[p.id := Patched(old(backend.profiles)[p.id], NameAndBio(p.fullName, p.bio))]
             else old(backend.profiles)
      ensures profile.Some? && ok && profile.value.id in old(backend.profiles) ==>
        var row := backend.profiles[profile.value.id];
        && row.fullName == profile.value.fullName && row.bio == profile.value.bio
        && row.avatarUrl == old(backend.profiles)[profile.value.id].avatarUrl
    {
      if profile.None? {
        return Ignored;
      }
      var p := profile.value;
      var failed := backend.UpdateProfile(p.id, NameAndBio(p.fullName, p.bio), ok);
      outcome := if failed then TableFailed else Updated;
    }

    /** `handleFileChange`: with a picked file and a loaded profile, remove
        the current avatar's object (a failure there does not stop it),
        upload the file as `<id>_<time>.<ext>`, then point the row at the
        new URL; the local copy follows only a successful update. */
    method HandleFileChange(file: Option<File>, now: nat, a: Answers) returns (outcome: ProfileOutcome)
      modifies backend`storage, backend`profiles, backend`trace, this`profile
      ensures file.None? || old(profile).None? ==>
        && outcome == Ignored && profile == old(profile)
        && backend.trace == old(backend.trace) && backend.profiles == old(backend.profiles)
        && backend.storage == old(backend.storage)
      ensures file.Some? && old(profile).Some? ==>
        var p := old(profile).value;
        var objects := old(backend.Objects(AvatarsBucket));
        var staged := StageEvents(AvatarsBucket, p.avatarUrl, file, AvatarPrefix(p.id), now);
        && (outcome == StorageFailed <==> StageAborts(objects, p.avatarUrl, file, AvatarPrefix(p.id), now, a))
        && backend.Objects(AvatarsBucket) == StagedObjects(objects, p.avatarUrl, file, AvatarPrefix(p.id), now, a)
        && (forall c :: c != AvatarsBucket ==> backend.Objects(c) == old(backend.Objects(c)))
        && (outcome == StorageFailed ==>
              && backend.trace == old(backend.trace) + staged
              && backend.profiles == old(backend.profiles) && profile == old(profile))
        && (outcome != StorageFailed ==>
              && (outcome == Updated <==> a.writeOk)
              && backend.trace == old(backend.trace) + staged + [Update(ProfilesTable, p.id)]
              && backend.profiles == (if a.writeOk && p.id in old(backend.profiles)
                   then old(backend.profiles)[p.id := Patched(old(backend.profiles)[p.id], AvatarUrl(Some(a.publicUrl)))]
                   else old(backend.profiles))
              && profile == if a.writeOk then Some(p.(avatarUrl := Some(a.publicUrl))) else old(profile))
    {
      if file.None? || profile.None? {
        return Ignored;
      }
      var p := profile.value;
      var aborted, url := StageImage(backend, AvatarsBucket, AvatarPrefix(p.id), p.avatarUrl, file, now, a);
      if aborted {
        return StorageFailed;
      }
      var failed := backend.UpdateProfile(p.id, AvatarUrl(Some(a.publicUrl)), a.writeOk);
      if failed {
        return TableFailed;
      }
      profile := Some(p.(avatarUrl := Some(a.publicUrl)));
      outcome := Updated;
    }

    /** `handleDeleteAvatar`: with a loaded profile and a truthy avatar URL,
        remove its object and then clear the column; a URL without a file
        name, or a failed removal, stops before the update. */
    method HandleDeleteAvatar(removeOk: bool, updateOk: bool) returns (outcome: ProfileOutcome)
      modifies backend`storage, backend`profiles, backend`trace, this`profile
      ensures outcome == Ignored <==> old(profile).None? || !Truthy(old(profile).value.avatarUrl)
      ensures outcome == NameMissing <==>
        old(profile).Some? && Truthy(old(profile).value.avatarUrl) && OldObject(old(profile).value.avatarUrl).None?
      ensures outcome in {Ignored, NameMissing} ==>
        && profile == old(profile) && backend.trace == old(backend.trace)
        && backend.profiles == old(backend.profiles) && backend.storage == old(backend.storage)
      ensures outcome !in {Ignored, NameMissing} ==>
        var p := old(profile).value;
        var name := StoredName(p.avatarUrl.value);
        && OldObject(p.avatarUrl) == Some(name)
        && (forall c :: c != AvatarsBucket ==> backend.Objects(c) == old(backend.Objects(c)))
        && backend.Objects(AvatarsBucket) == (if removeOk then old(backend.Objects(AvatarsBucket)) - {name}
                                               else old(backend.Objects(AvatarsBucket)))
        && (outcome == StorageFailed <==> !removeOk)
        && (outcome == Updated <==> removeOk && updateOk)
        && backend.trace == old(backend.trace) + [Remove(AvatarsBucket, name)]
             + (if removeOk then [Update(ProfilesTable, p.id)] else [])
        && backend.profiles == (if removeOk && updateOk && p.id in old(backend.profiles)
             then old(backend.profiles)[p.id := Patched(old(backend.profiles)[p.id], AvatarUrl(None))]
             else old(backend.profiles))
        && profile == if outcome == Updated then Some(p.(avatarUrl := None)) else old(profile)
    {
      if profile.None? || !Truthy(profile.value.avatarUrl) {
        return Ignored;
      }
      var p := profile.value;
      var name := StoredName(p.avatarUrl.value);
      if name == "" {
        return NameMissing;
      }
      var failed := backend.RemoveObject(AvatarsBucket, name, removeOk);
      if failed {
        return StorageFailed;
      }
      failed := backend.UpdateProfile(p.id, AvatarUrl(None), updateOk);
      if failed {
        return TableFailed;
      }
      profile := Some(p.(avatarUrl := None));
      outcome := Updated;
    }
  }

  /** An avatar uploaded under a public path is the object a later delete
      (or the next replacement) removes: the name it extracts from the URL
      is the uploaded name, and it is never empty. */
  lemma AvatarObjectRecovered(dir: string, id: Id, now: nat, fileName: string)
    requires '/' !in id && '/' !in fileName
    ensures var name := UploadName(AvatarPrefix(id), now, fileName);
      OldObject(Some(dir + "/" + name)) == Some(name)
  {
    var name := UploadName(AvatarPrefix(id), now, fileName);
    UploadNameRecovered(dir, AvatarPrefix(id), now, fileName);
    assert |name| > 0 by {
      assert |name| >= |Decimal(now)| >= 1;
    }
  }
}
