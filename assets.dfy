/** The media-asset steps the article, project and activity forms repeat:
    remove the superseded object, upload the staged file under a
    timestamped name, and hand on the URL to persist.  An image URL is
    represented by its pathname; the host part plays no role here. */
module Assets {
  import opened Text
  import opened Nullable
  import opened Backend

  /** A file picked in the form's file input; only its name matters. */
  datatype File = File(name: string)

  /** The backend's answers during one form submission, in the order asked. */
  datatype Answers = Answers(
    removeOk: bool,    // removal of the superseded object (its result is ignored)
    uploadOk: bool,    // the upload, which a taken name fails as well
    publicUrl: string, // the path getPublicUrl gives for the uploaded name
    writeOk: bool,     // the insert or the update
    newId: Id,         // the id an insert is given
    stamp: string)     // the default timestamp column an insert is given

  /** How a form submission ends: the upload was rejected (nothing is
      written), the insert or update failed, or the record was saved and
      the form navigated to its list. */
  datatype Outcome = UploadFailed | WriteFailed | Saved

  /** `file.name.split('.').pop()`: after the last dot, or the whole name;
      it holds no dot itself. */
  function Extension(fileName: string): (r: string)
    ensures '.' !in r
  {
    AfterLast(fileName, '.')
  }

  /** `${prefix}${Date.now()}.${ext}`, the object name of an upload: the
      entity's prefix, then the stamp's digits and a dot. */
  function UploadName(prefix: string, stamp: nat, fileName: string): (r: string)
    ensures prefix <= r && |r| >= |prefix| + |Decimal(stamp)| + 1 >= |prefix| + 2
    ensures r[|prefix|..|prefix| + |Decimal(stamp)|] == Decimal(stamp)
    ensures r[|prefix| + |Decimal(stamp)|] == '.'
  {
    prefix + Decimal(stamp) + "." + Extension(fileName)
  }

  /** `new URL(url).pathname.split('/').pop()`: the last path segment,
      which holds no slash. */
  function StoredName(path: string): (r: string)
    ensures '/' !in r
  {
    AfterLast(path, '/')
  }

  /** The object a superseded image URL names, when the handlers remove it:
      the URL is truthy and its last path segment is not empty. */
  function OldObject(url: Option<string>): (r: Option<string>)
    ensures !Truthy(url) ==> r.None?
    ensures r.Some? ==> r.value != "" && '/' !in r.value
    ensures r.Some? <==> Truthy(url) && StoredName(url.value) != ""
    ensures r.Some? ==> r.value == StoredName(url.value)
  {
    if Truthy(url) && StoredName(url.value) != "" then Some(StoredName(url.value)) else None
  }

  /** The object a handler removes for an image URL: the file name stored
      under the URL's directory; nothing for a null or empty URL, or for a
      path that ends in a slash. */
  lemma OldObjectOfPath(dir: string, name: string)
    requires name != "" && '/' !in name
    ensures OldObject(Some(dir + "/" + name)) == Some(name)
    ensures OldObject(Some(dir + "/")).None?
    ensures OldObject(None).None? && OldObject(Some("")).None?
  {
    StoredNameOfPath(dir, name);
    StoredNameOfPath(dir, "");
    assert dir + "/" + "" == dir + "/";
  }

  /** The storage calls of staging `file` in place of the image `prior`. */
  function StageEvents(b: Bucket, prior: Option<string>, file: Option<File>,
                       prefix: string, stamp: nat): seq<Event>
  {
    if file.None? then []
    else
      (if OldObject(prior).Some? then [Remove(b, OldObject(prior).value)] else [])
      + [Upload(b, UploadName(prefix, stamp, file.value.name))]
  }

  function ObjectsAfterRemoval(objects: set<string>, prior: Option<string>, removeOk: bool): set<string>
  {
    if OldObject(prior).Some? && removeOk then objects - {OldObject(prior).value} else objects
  }

  /** A staged file whose upload the backend rejects aborts the submission. */
  predicate StageAborts(objects: set<string>, prior: Option<string>, file: Option<File>,
                        prefix: string, stamp: nat, a: Answers)
  {
    && file.Some?
    && (!a.uploadOk
        || UploadName(prefix, stamp, file.value.name) in ObjectsAfterRemoval(objects, prior, a.removeOk))
  }

  /** The bucket's objects once staging is over. */
  function StagedObjects(objects: set<string>, prior: Option<string>, file: Option<File>,
                         prefix: string, stamp: nat, a: Answers): set<string>
  {
    if file.None? then objects
    else if StageAborts(objects, prior, file, prefix, stamp, a)
    then ObjectsAfterRemoval(objects, prior, a.removeOk)
    else ObjectsAfterRemoval(objects, prior, a.removeOk) + {UploadName(prefix, stamp, file.value.name)}
  }

  /** The image URL to persist: the new public URL, or the prior one. */
  function StagedUrl(prior: Option<string>, file: Option<File>, a: Answers): Option<string>
  {
    if file.Some? then Some(a.publicUrl) else prior
  }

  /** Steps 1 and 2 of a form submission: with a staged file, remove the
      superseded object (whatever the outcome) and upload the new one;
      without one, touch no storage at all. */
  method StageImage(backend: Backend, b: Bucket, prefix: string, prior: Option<string>,
                    file: Option<File>, stamp: nat, a: Answers)
    returns (aborted: bool, url: Option<string>)
    modifies backend`storage, backend`trace
    ensures backend.trace == old(backend.trace) + StageEvents(b, prior, file, prefix, stamp)
    ensures aborted == StageAborts(old(backend.Objects(b)), prior, file, prefix, stamp, a)
    ensures backend.Objects(b) == StagedObjects(old(backend.Objects(b)), prior, file, prefix, stamp, a)
    ensures forall c :: c != b ==> backend.Objects(c) == old(backend.Objects(c))
    ensures !aborted ==> url == StagedUrl(prior, file, a)
  {
    aborted, url := false, prior;
    if file.Some? {
      var superseded := OldObject(prior);
      if superseded.Some? {
        var _ := backend.RemoveObject(b, superseded.value, a.removeOk);
      }
      var name := UploadName(prefix, stamp, file.value.name);
      var failed := backend.UploadObject(b, name, a.uploadOk);
      if failed {
        aborted := true;
        return;
      }
      url := Some(a.publicUrl);
    }
  }

  /** With a staged file and a removable prior image, exactly one removal of
      that image's object comes before the upload; with no staged file there
      is no storage call. */
  lemma StageOrder(b: Bucket, prior: Option<string>, file: Option<File>, prefix: string, stamp: nat)
    ensures file.None? ==> StageEvents(b, prior, file, prefix, stamp) == []
    ensures file.Some? && OldObject(prior).Some? ==>
      StageEvents(b, prior, file, prefix, stamp)
        == [Remove(b, StoredName(prior.value)), Upload(b, UploadName(prefix, stamp, file.value.name))]
    ensures file.Some? && OldObject(prior).None? ==>
      StageEvents(b, prior, file, prefix, stamp) == [Upload(b, UploadName(prefix, stamp, file.value.name))]
  {
  }

  /** The removal comes before the upload: when the upload is then
      rejected, the record (which is not written) keeps an image URL whose
      object is gone. */
  lemma AbortedStageLosesPrior(objects: set<string>, prior: Option<string>, file: Option<File>,
                               prefix: string, stamp: nat, a: Answers)
    requires StageAborts(objects, prior, file, prefix, stamp, a)
    requires OldObject(prior).Some? && a.removeOk
    ensures OldObject(prior).value !in StagedObjects(objects, prior, file, prefix, stamp, a)
  {
  }

  /** An accepted upload stays in the bucket whatever the later write does,
      so a failed insert or update leaves it without a record. */
  lemma StagedUploadKept(objects: set<string>, prior: Option<string>, file: Option<File>,
                         prefix: string, stamp: nat, a: Answers)
    requires file.Some? && !StageAborts(objects, prior, file, prefix, stamp, a)
    ensures UploadName(prefix, stamp, file.value.name) in StagedObjects(objects, prior, file, prefix, stamp, a)
    ensures UploadName(prefix, stamp, file.value.name) !in ObjectsAfterRemoval(objects, prior, a.removeOk)
  {
  }

  /** The upload keeps the original file's extension. */
  lemma ExtensionKept(prefix: string, stamp: nat, fileName: string)
    ensures Extension(UploadName(prefix, stamp, fileName)) == Extension(fileName)
  {
    var ext := Extension(fileName);
    AfterLastIsTail(fileName, '.');
    AfterLastAppend(prefix + Decimal(stamp), '.', ext);
    assert UploadName(prefix, stamp, fileName) == (prefix + Decimal(stamp)) + ['.'] + ext;
  }

  /** Two uploads with the same prefix at different timestamps get different
      names, whatever the files are called. */
  lemma UploadNamesDistinct(prefix: string, s: nat, t: nat, f: string, g: string)
    requires s != t
    ensures UploadName(prefix, s, f) != UploadName(prefix, t, g)
  {
    if UploadName(prefix, s, f) == UploadName(prefix, t, g) {
      var x := Decimal(s) + ['.'] + Extension(f);
      var y := Decimal(t) + ['.'] + Extension(g);
      assert prefix + x == UploadName(prefix, s, f);
      assert prefix + y == UploadName(prefix, t, g);
      assert x == (prefix + x)[|prefix|..] == (prefix + y)[|prefix|..] == y;
      DigitsBeforeDot(Decimal(s), Extension(f));
      DigitsBeforeDot(Decimal(t), Extension(g));
      DecimalInjective(s, t);
    }
  }

  lemma DigitsBeforeDot(d: string, e: string)
    requires forall i :: 0 <= i < |d| ==> '0' <= d[i] <= '9'
    ensures BeforeFirst(d + ['.'] + e, '.') == d
  {
    SplitAround(d, '.', e);
    assert forall i :: 0 <= i < |d| ==> d[i] != '.';
    SplitWithout(d, '.');
  }

  /** A name stored under a public path is what removal extracts from that
      path again: the object a handler later removes is the one uploaded. */
  lemma StoredNameOfPath(dir: string, name: string)
    requires '/' !in name
    ensures StoredName(dir + "/" + name) == name
  {
    AfterLastAppend(dir, '/', name);
  }

  /** Upload names contain no slash when the prefix and the file name have
      none, so `StoredName` recovers them from a public path. */
  lemma UploadNameRecovered(dir: string, prefix: string, stamp: nat, fileName: string)
    requires '/' !in prefix && '/' !in fileName
    ensures StoredName(dir + "/" + UploadName(prefix, stamp, fileName)) == UploadName(prefix, stamp, fileName)
  {
    var name := UploadName(prefix, stamp, fileName);
    AfterLastIsTail(fileName, '.');
    var e := Extension(fileName);
    assert forall i :: 0 <= i < |e| ==> e[i] == fileName[|fileName| - |e| + i];
    assert forall i :: 0 <= i < |Decimal(stamp)| ==> Decimal(stamp)[i] != '/';
    assert '/' !in name;
    StoredNameOfPath(dir, name);
  }
}
