/** The article editor: slug derivation from the title, and the submit
    handler that replaces the thumbnail and then inserts or updates the
    article. */
module ArticleForm {
  import opened Text
  import opened Nullable
  import opened Backend
  import opened Assets

  /** Characters `/[^\w\s-]/g` does not delete. */
  predicate Kept(c: char)
  {
    IsWordChar(c) || IsSpace(c) || c == '-'
  }

  /** `.replace(/[^\w\s-]/g, '')`: characters are deleted, so the text
      never grows. */
  function StripDisallowed(s: string): (r: string)
    ensures |r| <= |s|
  {
    if s == [] then []
    else (if Kept(s[0]) then [s[0]] else []) + StripDisallowed(s[1..])
  }

  /** `.replace(/\s+/g, '-')`: every maximal run of white space becomes one
      hyphen. */
  function Hyphenate(s: string): (r: string)
    ensures |r| <= |s|
    ensures r == [] <==> s == []
    decreases |s|
  {
    if s == [] then []
    else if IsSpace(s[0]) then "-" + Hyphenate(TrimStart(s[1..]))
    else [s[0]] + Hyphenate(s[1..])
  }

  /** `generateSlug`: lower-case, trim, delete what is neither a word
      character, white space nor a hyphen, and hyphenate the white space.
      No step lengthens the text, so a slug is never longer than its title. */
  function GenerateSlug(value: string): (r: string)
    ensures |r| <= |value|
  {
    Hyphenate(StripDisallowed(Trim(ToLower(value))))
  }

  predicate IsSlugChar(c: char)
  {
    ('a' <= c <= 'z') || ('0' <= c <= '9') || c == '_' || c == '-'
  }

  predicate IsSlug(s: string)
  {
    forall i :: 0 <= i < |s| ==> IsSlugChar(s[i])
  }

  predicate NoUpper(s: string)
  {
    forall i :: 0 <= i < |s| ==> !IsUpper(s[i])
  }

  /** What the deletion keeps: allowed characters only, and no upper-case
      letter it was not given. */
  lemma {:induction false} StripChars(s: string)
    ensures forall i :: 0 <= i < |StripDisallowed(s)| ==> Kept(StripDisallowed(s)[i])
    ensures NoUpper(s) ==> NoUpper(StripDisallowed(s))
  {
    if s != [] {
      StripChars(s[1..]);
      var head := if Kept(s[0]) then [s[0]] else [];
      assert StripDisallowed(s) == head + StripDisallowed(s[1..]);
    }
  }

  /** Hyphenating slug characters and white space leaves slug characters. */
  lemma {:induction false} HyphenateChars(s: string)
    requires forall i :: 0 <= i < |s| ==> IsSlugChar(s[i]) || IsSpace(s[i])
    ensures IsSlug(Hyphenate(s))
    decreases |s|
  {
    if s != [] {
      if IsSpace(s[0]) {
        var t := TrimStart(s[1..]);
        TrimStartDrops(s[1..]);
        assert forall i :: 0 <= i < |t| ==> t[i] == s[1..][|s| - 1 - |t| + i];
        HyphenateChars(t);
      } else {
        HyphenateChars(s[1..]);
      }
    }
  }

  /** Every character of a derived slug is in `[a-z0-9_-]`, so a slug holds
      no white space. */
  lemma SlugChars(value: string)
    ensures IsSlug(GenerateSlug(value))
    ensures forall i :: 0 <= i < |GenerateSlug(value)| ==> !IsSpace(GenerateSlug(value)[i])
  {
    var lowered := ToLower(value);
    var trimmed := Trim(lowered);
    TrimDrops(lowered);
    var k := |lowered| - |TrimStart(lowered)|;
    assert forall i :: 0 <= i < |trimmed| ==> trimmed[i] == lowered[k + i];
    assert NoUpper(trimmed);
    StripChars(trimmed);
    HyphenateChars(StripDisallowed(trimmed));
  }

  lemma {:induction false} StripKept(s: string)
    requires forall i :: 0 <= i < |s| ==> Kept(s[i])
    ensures StripDisallowed(s) == s
  {
    if s != [] {
      StripKept(s[1..]);
    }
  }

  lemma {:induction false} HyphenateNoSpace(s: string)
    requires forall i :: 0 <= i < |s| ==> !IsSpace(s[i])
    ensures Hyphenate(s) == s
  {
    if s != [] {
      HyphenateNoSpace(s[1..]);
    }
  }

  /** A string of slug characters is its own slug. */
  lemma SlugFixedPoint(s: string)
    requires IsSlug(s)
    ensures GenerateSlug(s) == s
  {
    assert ToLower(s) == s;
    TrimTrimmed(s);
    StripKept(s);
    HyphenateNoSpace(s);
  }

  /** `generateSlug` is idempotent. */
  lemma SlugIdempotent(value: string)
    ensures GenerateSlug(GenerateSlug(value)) == GenerateSlug(value)
  {
    SlugChars(value);
    SlugFixedPoint(GenerateSlug(value));
  }

  /** Deleting characters works piecewise. */
  lemma {:induction false} StripAppend(a: string, b: string)
    ensures StripDisallowed(a + b) == StripDisallowed(a) + StripDisallowed(b)
  {
    if a == [] {
      assert a + b == b;
    } else {
      var head := if Kept(a[0]) then [a[0]] else [];
      calc {
        StripDisallowed(a + b);
      == { assert (a + b)[0] == a[0] && (a + b)[1..] == a[1..] + b; }
        head + StripDisallowed(a[1..] + b);
      == { StripAppend(a[1..], b); }
        head + (StripDisallowed(a[1..]) + StripDisallowed(b));
      }
    }
  }

  /** White space in front of text that starts with a non-space is what
      `TrimStart` drops. */
  lemma {:induction false} TrimStartSpaces(w: string, v: string)
    requires forall i :: 0 <= i < |w| ==> IsSpace(w[i])
    requires v == [] || !IsSpace(v[0])
    ensures TrimStart(w + v) == v
  {
    if w == [] {
      assert w + v == v;
    } else {
      assert (w + v)[1..] == w[1..] + v;
      TrimStartSpaces(w[1..], v);
    }
  }

  /** `TrimStart` stops inside a string that ends with a non-space. */
  lemma {:induction false} TrimStartPrefix(u: string, x: string)
    requires u != [] && !IsSpace(u[|u| - 1])
    ensures TrimStart(u + x) == TrimStart(u) + x
  {
    if IsSpace(u[0]) {
      assert (u + x)[1..] == u[1..] + x;
      TrimStartPrefix(u[1..], x);
    }
  }

  /** A leading run of white space becomes one hyphen. */
  lemma HyphenateSpaces(w: string, v: string)
    requires w != [] && forall i :: 0 <= i < |w| ==> IsSpace(w[i])
    requires v == [] || !IsSpace(v[0])
    ensures Hyphenate(w + v) == "-" + Hyphenate(v)
  {
    assert (w + v)[1..] == w[1..] + v;
    TrimStartSpaces(w[1..], v);
  }

  /** A white-space character in front of a string ending outside white
      space: the run it starts lies within that string. */
  lemma HyphenateSpaceStep(u: string, x: string)
    requires u != [] && IsSpace(u[0]) && !IsSpace(u[|u| - 1])
    ensures Hyphenate(u + x) == "-" + Hyphenate(TrimStart(u[1..]) + x)
  {
    assert (u + x)[1..] == u[1..] + x;
    TrimStartPrefix(u[1..], x);
  }

  /** `TrimStart` stops before the last character when that is not white
      space. */
  lemma {:induction false} TrimStartKeepsLast(s: string)
    requires s != [] && !IsSpace(s[|s| - 1])
    ensures var r := TrimStart(s); r != [] && r[|r| - 1] == s[|s| - 1]
  {
    if IsSpace(s[0]) {
      TrimStartKeepsLast(s[1..]);
    }
  }

  /** Any other character is copied. */
  lemma HyphenateCharStep(u: string, x: string)
    requires u != [] && !IsSpace(u[0])
    ensures Hyphenate(u + x) == [u[0]] + Hyphenate(u[1..] + x)
  {
    assert (u + x)[1..] == u[1..] + x;
  }

  /** Each maximal run of white space becomes exactly one hyphen, and the
      text on either side is hyphenated on its own. */
  lemma {:induction false} HyphenateRun(u: string, w: string, v: string)
    requires u == [] || !IsSpace(u[|u| - 1])
    requires w != [] && forall i :: 0 <= i < |w| ==> IsSpace(w[i])
    requires v == [] || !IsSpace(v[0])
    ensures Hyphenate(u + w + v) == Hyphenate(u) + "-" + Hyphenate(v)
    decreases |u|, 1
  {
    if u == [] {
      assert u + w + v == w + v;
      HyphenateSpaces(w, v);
    } else if IsSpace(u[0]) {
      HyphenateRunAfterSpace(u, w, v);
    } else {
      HyphenateRunAfterChar(u, w, v);
    }
  }

  /** `HyphenateRun` when the text before the run starts with white space. */
  lemma {:induction false} HyphenateRunAfterSpace(u: string, w: string, v: string)
    requires u != [] && IsSpace(u[0]) && !IsSpace(u[|u| - 1])
    requires w != [] && forall i :: 0 <= i < |w| ==> IsSpace(w[i])
    requires v == [] || !IsSpace(v[0])
    ensures Hyphenate(u + w + v) == Hyphenate(u) + "-" + Hyphenate(v)
    decreases |u|, 0
  {
    var u' := TrimStart(u[1..]);
    TrimStartKeepsLast(u[1..]);
    calc {
      Hyphenate(u + w + v);
    == { assert u + w + v == u + (w + v); }
      Hyphenate(u + (w + v));
    == { HyphenateSpaceStep(u, w + v); }
      "-" + Hyphenate(u' + (w + v));
    == { assert u' + (w + v) == u' + w + v; HyphenateRun(u', w, v); }
      "-" + (Hyphenate(u') + "-" + Hyphenate(v));
    == { assert Hyphenate(u) == "-" + Hyphenate(u'); }
      Hyphenate(u) + "-" + Hyphenate(v);
    }
  }

  /** `HyphenateRun` when the text before the run starts with another
      character. */
  lemma {:induction false} HyphenateRunAfterChar(u: string, w: string, v: string)
    requires u != [] && !IsSpace(u[0]) && !IsSpace(u[|u| - 1])
    requires w != [] && forall i :: 0 <= i < |w| ==> IsSpace(w[i])
    requires v == [] || !IsSpace(v[0])
    ensures Hyphenate(u + w + v) == Hyphenate(u) + "-" + Hyphenate(v)
    decreases |u|, 0
  {
    calc {
      Hyphenate(u + w + v);
    == { assert u + w + v == u + (w + v); }
      Hyphenate(u + (w + v));
    == { HyphenateCharStep(u, w + v); }
      [u[0]] + Hyphenate(u[1..] + (w + v));
    == { assert u[1..] + (w + v) == u[1..] + w + v; HyphenateRun(u[1..], w, v); }
      [u[0]] + (Hyphenate(u[1..]) + "-" + Hyphenate(v));
    == { assert Hyphenate(u) == [u[0]] + Hyphenate(u[1..]); }
      Hyphenate(u) + "-" + Hyphenate(v);
    }
  }

  /** Lower-casing works piecewise. */
  lemma ToLowerAppend(a: string, b: string)
    ensures ToLower(a + b) == ToLower(a) + ToLower(b)
  {
    assert forall i :: 0 <= i < |a + b| ==> ToLower(a + b)[i] == (ToLower(a) + ToLower(b))[i];
  }

  /** The words of the worked example below. */
  const Hello: string := "Hello"
  const World: string := "World"
  const Year: string := "2024"

  /** The title "Hello, World! 2024" gives the slug "hello-world-2024":
      letters are lower-cased, punctuation goes, spaces become hyphens. */
  lemma SlugExample()
    ensures GenerateSlug(Hello + ", " + World + "! " + Year) == "hello-world-2024"
  {
    SlugOfWords(Hello, World, Year);
  }

  /** The example, proved with the words as parameters: the verifier then
      rewrites the title piece by piece instead of evaluating the slug
      functions on the literal as a whole. */
  lemma SlugOfWords(hello: string, world: string, year: string)
    requires hello == Hello && world == World && year == Year
    ensures GenerateSlug(hello + ", " + world + "! " + year) == "hello-world-2024"
  {
    var h, w := "hello", "world";
    LowerExample(hello, world, year);
    TrimTrimmed(h + ", " + w + "! " + year);
    StripExample(h, w, year);
    HyphenateExample(h, w, year);
  }

  lemma LowerExample(hello: string, world: string, year: string)
    requires hello == Hello && world == World && year == Year
    ensures ToLower(hello + ", " + world + "! " + year) == "hello" + ", " + "world" + "! " + year
  {
    calc {
      ToLower(hello + ", " + world + "! " + year);
    == { ToLowerAppend(hello + ", " + world + "! ", year); }
      ToLower(hello + ", " + world + "! ") + ToLower(year);
    == { ToLowerAppend(hello + ", " + world, "! "); }
      ToLower(hello + ", " + world) + ToLower("! ") + ToLower(year);
    == { ToLowerAppend(hello + ", ", world); }
      ToLower(hello + ", ") + ToLower(world) + ToLower("! ") + ToLower(year);
    == { ToLowerAppend(hello, ", "); }
      ToLower(hello) + ToLower(", ") + ToLower(world) + ToLower("! ") + ToLower(year);
    == { assert ToLower(hello) == "hello"; }
      "hello" + ToLower(", ") + ToLower(world) + ToLower("! ") + ToLower(year);
    == { assert ToLower(world) == "world"; }
      "hello" + ToLower(", ") + "world" + ToLower("! ") + ToLower(year);
    == { assert ToLower(", ") == ", " && ToLower("! ") == "! " && ToLower(year) == year; }
      "hello" + ", " + "world" + "! " + year;
    }
  }

  lemma StripExample(h: string, w: string, year: string)
    requires h == "hello" && w == "world" && year == Year
    ensures StripDisallowed(h + ", " + w + "! " + year) == h + " " + w + " " + year
  {
    calc {
      StripDisallowed(h + ", " + w + "! " + year);
    == { StripAppend(h + ", " + w + "! ", year); }
      StripDisallowed(h + ", " + w + "! ") + StripDisallowed(year);
    == { StripAppend(h + ", " + w, "! "); }
      StripDisallowed(h + ", " + w) + StripDisallowed("! ") + StripDisallowed(year);
    == { StripAppend(h + ", ", w); }
      StripDisallowed(h + ", ") + StripDisallowed(w) + StripDisallowed("! ") + StripDisallowed(year);
    == { StripAppend(h, ", "); }
      StripDisallowed(h) + StripDisallowed(", ") + StripDisallowed(w) + StripDisallowed("! ") + StripDisallowed(year);
    == { StripKept(h); StripKept(w); StripKept(year); }
      h + StripDisallowed(", ") + w + StripDisallowed("! ") + year;
    == { assert StripDisallowed(", ") == " " && StripDisallowed("! ") == " "; }
      h + " " + w + " " + year;
    }
  }

  lemma HyphenateExample(h: string, w: string, year: string)
    requires h == "hello" && w == "world" && year == Year
    ensures Hyphenate(h + " " + w + " " + year) == h + "-" + w + "-" + year
  {
    calc {
      Hyphenate(h + " " + w + " " + year);
    == { assert h + " " + w + " " + year == h + " " + (w + " " + year);
         HyphenateRun(h, " ", w + " " + year); }
      Hyphenate(h) + "-" + Hyphenate(w + " " + year);
    == { HyphenateRun(w, " ", year); }
      Hyphenate(h) + "-" + (Hyphenate(w) + "-" + Hyphenate(year));
    == { HyphenateNoSpace(h); HyphenateNoSpace(w); HyphenateNoSpace(year); }
      h + "-" + w + "-" + year;
    }
  }

  /** `initialData?.image_url ?? null`: the edited article's image, and no
      image at all (so nothing to remove) when creating. */
  function PriorImage(initialData: Option<Article>): (r: Option<string>)
    ensures initialData.Some? ==> r == initialData.value.imageUrl
    ensures initialData.None? ==> r.None? && OldObject(r).None?
  {
    if initialData.Some? then initialData.value.imageUrl else None
  }

  const Prefix := "article-"
  const ListPath := "/dashboard/articles"

  class Form {
    const backend: Backend
    const initialData: Option<Article>
    var title: string
    var slug: string
    var content: string
    var imageFile: Option<File>

    /** The fields start from the edited article, or empty when creating. */
    constructor (backend: Backend, initialData: Option<Article>)
      ensures this.backend == backend && this.initialData == initialData
      ensures initialData.Some? ==>
        title == initialData.value.title && slug == initialData.value.slug
        && content == initialData.value.content
      ensures initialData.None? ==> title == "" && slug == "" && content == ""
      ensures imageFile == None
    {
      this.backend := backend;
      this.initialData := initialData;
      if initialData.Some? {
        title, slug, content := initialData.value.title, initialData.value.slug, initialData.value.content;
      } else {
        title, slug, content := "", "", "";
      }
      imageFile := None;
    }

    /** The title input: the slug follows the title only when creating. */
    method ChangeTitle(value: string)
      modifies this`title, this`slug
      ensures title == value
      ensures slug == if initialData.None? then GenerateSlug(value) else old(slug)
    {
      title := value;
      if initialData.None? {
        slug := GenerateSlug(value);
      }
    }

    /** `handleSubmit`: stage the thumbnail, then update (edit mode, by the
        edited id, stamping `updated_at`) or insert (create mode), and
        navigate to the list only once the write succeeded. */
    method HandleSubmit(now: nat, isoNow: string, a: Answers) returns (outcome: Outcome)
      modifies backend`storage, backend`articles, backend`trace
      ensures var objects := old(backend.Objects(ArticlesBucket));
        && (outcome == UploadFailed <==>
              StageAborts(objects, PriorImage(initialData), imageFile, Prefix, now, a))
        && backend.Objects(ArticlesBucket)
             == StagedObjects(objects, PriorImage(initialData), imageFile, Prefix, now, a)
      ensures forall c :: c != ArticlesBucket ==> backend.Objects(c) == old(backend.Objects(c))
      ensures var staged := StageEvents(ArticlesBucket, PriorImage(initialData), imageFile, Prefix, now);
        && (outcome == UploadFailed ==>
              backend.trace == old(backend.trace) + staged && backend.articles == old(backend.articles))
        && (outcome != UploadFailed ==>
              backend.trace == old(backend.trace) + staged
                + [if initialData.Some? then Update(ArticlesTable, initialData.value.id) else Insert(ArticlesTable)]
                + (if outcome == Saved then [Event.Navigate(ListPath)] else []))
      ensures outcome != UploadFailed && initialData.Some? ==>
        var id := initialData.value.id;
        var fields := ArticleFields(title, slug, content, StagedUrl(PriorImage(initialData), imageFile, a));
        && (outcome == Saved <==> a.writeOk)
        && backend.articles == if a.writeOk && id in old(backend.articles)
             then old(backend.articles)[id := EditedArticle(old(backend.articles)[id], fields, isoNow)]
             else old(backend.articles)
      ensures outcome != UploadFailed && initialData.None? ==>
        var fields := ArticleFields(title, slug, content, StagedUrl(None, imageFile, a));
        && (outcome == Saved <==> a.writeOk && a.newId !in old(backend.articles))
        && backend.articles == if outcome == Saved
             then old(backend.articles)[a.newId := NewArticle(a.newId, fields, a.stamp)]
             else old(backend.articles)
    {
      var aborted, imageUrl := StageImage(backend, ArticlesBucket, Prefix, PriorImage(initialData), imageFile, now, a);
      if aborted {
        return UploadFailed;
      }
      var fields := ArticleFields(title, slug, content, imageUrl);
      var failed;
      if initialData.Some? {
        failed := backend.UpdateArticle(initialData.value.id, fields, isoNow, a.writeOk);
      } else {
        failed := backend.InsertArticle(NewArticle(a.newId, fields, a.stamp), a.writeOk);
      }
      if failed {
        return WriteFailed;
      }
      backend.Navigate(ListPath);
      outcome := Saved;
    }
  }
}
