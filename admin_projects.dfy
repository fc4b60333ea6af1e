/**
 * The admin projects page: the storage file name of a public URL, the URL
 * repair applied to the URL the storage service returns, and the form's
 * media bookkeeping. A project shows either an image or a video: uploading
 * one clears (and deletes the file of) the other, a submit with both is
 * refused, and edits and deletions request the removal of the files that
 * are no longer referenced.
 */
module AdminProjects {
  import opened JsText
  import opened Backend

  // ---------------------------------------------------------------------------
  // getFileNameFromUrl

  /** The text that precedes a file name in a public URL of `bucket`. */
  function Marker(bucket: string): string {
    "/public/" + bucket + "/"
  }

  /** `getFileNameFromUrl(url, bucket)`: the text after the first
      "/public/<bucket>/", up to the next one or the end; `None` (null) for
      an empty URL or one without the marker. */
  function FileNameFromUrl(url: string, bucket: string): (r: Option<string>)
    ensures r.None? <==> url == "" || !Contains(url, Marker(bucket))
    ensures r.Some? ==> SegmentAfterFirst(url, Marker(bucket), r.value)
  {
    SplitSecond(url, Marker(bucket));
    if url == "" then None
    else
      var parts := Split(url, Marker(bucket));
      if |parts| < 2 then None
      else Some(parts[1])
  }

  /** The public URL of a file maps back to the file's name, as long as the
      marker occurs neither earlier in the URL nor in the name. */
  lemma {:induction false} FileNameOfPublicUrl(base: string, bucket: string, name: string)
    requires IndexOf(base + Marker(bucket), Marker(bucket)) == Some(|base|)
    requires !Contains(name, Marker(bucket))
    ensures FileNameFromUrl(base + Marker(bucket) + name, bucket) == Some(name)
  {
    var m := Marker(bucket);
    var url := base + m + name;
    IndexOfAppend(base + m, name, m);
    assert url[|base| + |m|..] == name;
    SplitSecond(url, m);
  }

  /** `deleteFileFromStorage(bucket, url)`: a removal of the URL's file name,
      unless there is none or it is empty. */
  function RemovalOf(bucket: string, url: string): (r: seq<Removal>)
    ensures |r| <= 1
    ensures r != [] ==> r[0].bucket == bucket && r[0].fileName != ""
                        && FileNameFromUrl(url, bucket) == Some(r[0].fileName)
    ensures r == [] <==> (FileNameFromUrl(url, bucket).None? || FileNameFromUrl(url, bucket) == Some(""))
  {
    match FileNameFromUrl(url, bucket)
    case None => []
    case Some(name) => if name == "" then [] else [Removal(bucket, name)]
  }

  // ---------------------------------------------------------------------------
  // fixUrl

  const SiteHttp := "http://www.xrengineering.club/"
  const SiteHttps := "https://www.xrengineering.club/"

  /** `fixUrl`: a "https:/" prefix that lacks its second slash is completed;
      then, for a URL starting with the site's http:// address, the first
      occurrence of the site's https:// address is removed. */
  function FixUrl(url: string): string {
    var fixedUrl := if StartsWith(url, "https:/") && !StartsWith(url, "https://")
                    then ReplaceFirst(url, "https:/", "https://") else url;
    if StartsWith(fixedUrl, SiteHttp) then ReplaceFirst(fixedUrl, SiteHttps, "") else fixedUrl
  }

  lemma {:induction false} NotSite(url: string)
    requires StartsWith(url, "https:/")
    ensures !StartsWith(url, SiteHttp)
  {
    assert url[4] == 's';
  }

  /** A URL with a single slash after "https:" gets its second slash. */
  lemma {:induction false} FixUrlRepairs(rest: string)
    requires !StartsWith(rest, "/")
    ensures FixUrl("https:/" + rest) == "https://" + rest
  {
    var url := "https:/" + rest;
    assert url[..7] == "https:/";
    assert !StartsWith(url, "https://") by {
      if |rest| > 0 { assert url[7] == rest[0]; assert rest[..1] == [rest[0]]; }
    }
    assert url[..7] == "https:/";
    FirstOccurrence(url, "https:/", 0);
    assert ReplaceFirst(url, "https:/", "https://") == "https://" + rest by {
      assert url[7..] == rest;
    }
    var fixed := "https://" + rest;
    assert fixed[..8] == "https://";
    NotSite(fixed);
  }

  /** A URL that already starts with "https://" is returned as it is. */
  lemma {:induction false} FixUrlKeepsHttps(url: string)
    requires StartsWith(url, "https://")
    ensures FixUrl(url) == url
  {
    assert url[..7] == url[..8][..7];
    NotSite(url);
  }

  /** The site's address never has an 'h' after its first character, and
      its fifth character is ':' where the https:// address has 's'. */
  lemma {:induction false} SiteLetters()
    ensures forall k :: 1 <= k < |SiteHttp| ==> SiteHttp[k] != 'h'
    ensures SiteHttp[4] == ':' && SiteHttps[0] == 'h' && SiteHttps[4] == 's'
  {
  }

  /** The https:// address cannot occur inside the http:// prefix. */
  lemma {:induction false} NoHttpsInPrefix(url: string, k: nat)
    requires StartsWith(url, SiteHttp) && k < |SiteHttp|
    ensures !OccursAt(url, SiteHttps, k)
  {
    SiteLetters();
  }

  /** The second rule, as written: on a URL with the site's http:// prefix it
      removes the first occurrence of the site's https:// address, which can
      only come after that prefix, so the prefix it tests for stays; and the
      URL is unchanged when the https:// address does not occur. */
  lemma {:induction false} FixUrlSiteRule(url: string)
    requires StartsWith(url, SiteHttp)
    ensures FixUrl(url) == ReplaceFirst(url, SiteHttps, "")
    ensures StartsWith(FixUrl(url), SiteHttp)
    ensures !Contains(url, SiteHttps) ==> FixUrl(url) == url
  {
    assert !StartsWith(url, "https:/") by {
      SiteLetters();
    }
    match IndexOf(url, SiteHttps)
    case None =>
    case Some(i) =>
      if i < |SiteHttp| {
        NoHttpsInPrefix(url, i);
      }
      var r := url[..i] + "" + url[i + |SiteHttps|..];
      assert r[..|SiteHttp|] == url[..|SiteHttp|];
  }

  /** A URL that starts neither with "https:/" nor with the site's http://
      address is returned as it is. */
  lemma {:induction false} FixUrlOther(url: string)
    requires !StartsWith(url, "https:/") && !StartsWith(url, SiteHttp)
    ensures FixUrl(url) == url
  {
  }

  /** A non-empty URL stays non-empty. */
  lemma {:induction false} FixUrlNonEmpty(url: string)
    requires url != ""
    ensures FixUrl(url) != ""
  {
    if StartsWith(url, SiteHttp) {
      FixUrlSiteRule(url);
    } else if StartsWith(url, "https:/") && !StartsWith(url, "https://") {
      NotSite(ReplaceFirst(url, "https:/", "https://")) by {
        FirstOccurrence(url, "https:/", 0);
        assert ReplaceFirst(url, "https:/", "https://")[..7] == "https:/";
      }
    } else if StartsWith(url, "https://") {
      FixUrlKeepsHttps(url);
    }
  }

  // ---------------------------------------------------------------------------
  // The page's state

  /** A project row; the form has no id until it is loaded from a row. */
  datatype Project = Project(id: Option<int>, title: string, description: string,
                             image: string, video: string, category: string)
  {
    /** At most one of image and video is set. */
    predicate SingleMedia() {
      image == "" || video == ""
    }
  }

  const EmptyForm := Project(None, "", "", "", "", "")

  /** A request to the projects table. */
  datatype Write = Insert(row: Project) | Update(id: Option<int>, row: Project) | DeleteRow(rowId: int)
  {
    predicate Stored() {
      match this
      case Insert(row) => row.SingleMedia()
      case Update(_, row) => row.SingleMedia()
      case DeleteRow(_) => true
    }
  }

  /** `projects.find((p) => p.id === id)`: the first project with that id. */
  function FindProject(projects: seq<Project>, id: int): (r: Option<Project>)
    ensures r.Some? ==> exists i :: 0 <= i < |projects| && projects[i] == r.value
                                    && r.value.id == Some(id)
                                    && forall j :: 0 <= j < i ==> projects[j].id != Some(id)
    ensures r.None? ==> forall j :: 0 <= j < |projects| ==> projects[j].id != Some(id)
  {
    if projects == [] then None
    else if projects[0].id == Some(id) then Some(projects[0])
    else
      FindProject(projects[1..], id)
  }

  /** The removal a submit requests for one medium of the project being
      edited: its old file, when it had one and the form no longer has it. */
  function StaleRemoval(bucket: string, oldUrl: string, newUrl: string): seq<Removal> {
    if oldUrl != "" && oldUrl != newUrl then RemovalOf(bucket, oldUrl) else []
  }

  /** The removals of every file a project refers to (handleDelete). */
  function ProjectRemovals(p: Project): seq<Removal> {
    (if p.image != "" then RemovalOf("project-images", p.image) else [])
    + (if p.video != "" then RemovalOf("project-videos", p.video) else [])
  }

  /** Two texts with a common suffix are equal only when their prefixes are. */
  lemma {:induction false} SuffixCancels(a: string, b: string, t: string)
    ensures a + t == b + t ==> a == b
  {
    if a + t == b + t {
      assert a == (a + t)[..|a|];
      assert b == (b + t)[..|b|];
    }
  }

  /** A submit compares URLs, not file names: when the form's new URL
      names the same file as the old one under a different address, the
      file the form still refers to is removed. */
  lemma {:induction false} StaleRemovalComparesUrls(bucket: string, base: string, newBase: string, name: string)
    requires base != newBase && name != ""
    requires IndexOf(base + Marker(bucket), Marker(bucket)) == Some(|base|)
    requires IndexOf(newBase + Marker(bucket), Marker(bucket)) == Some(|newBase|)
    requires !Contains(name, Marker(bucket))
    ensures FileNameFromUrl(newBase + Marker(bucket) + name, bucket) == Some(name)
    ensures StaleRemoval(bucket, base + Marker(bucket) + name, newBase + Marker(bucket) + name)
            == [Removal(bucket, name)]
  {
    FileNameOfPublicUrl(base, bucket, name);
    FileNameOfPublicUrl(newBase, bucket, name);
    SuffixCancels(base + Marker(bucket), newBase + Marker(bucket), name);
    SuffixCancels(base, newBase, Marker(bucket));
  }

  class ProjectsPage {
    var projects: seq<Project>
    var form: Project
    var editingProject: Option<Project>
    var uploadingImage: bool
    var uploadingVideo: bool
    /** The storage removals requested so far, in order. */
    var removals: seq<Removal>
    /** The table requests made so far, in order. */
    var writes: seq<Write>

    /** Every project sent to the table has at most one medium. */
    predicate Valid()
      reads this
    {
      forall i :: 0 <= i < |writes| ==> writes[i].Stored()
    }

    constructor ()
      ensures projects == [] && form == EmptyForm && editingProject.None?
      ensures !uploadingImage && !uploadingVideo && removals == [] && writes == []
      ensures Valid()
    {
      projects := [];
      form := EmptyForm;
      editingProject := None;
      uploadingImage := false;
      uploadingVideo := false;
      removals := [];
      writes := [];
    }

    /** `fetchProjects`: the rows replace the list; on an error it stays. */
    method Fetch(result: Option<seq<Project>>)
      modifies this
      ensures projects == (if result.Some? then result.value else old(projects))
      ensures form == old(form) && editingProject == old(editingProject)
      ensures uploadingImage == old(uploadingImage) && uploadingVideo == old(uploadingVideo)
      ensures removals == old(removals) && writes == old(writes)
    {
      if result.Some? {
        projects := result.value;
      }
    }

    /** `handleEdit`: the project fills the form and becomes the one edited. */
    method Edit(project: Project)
      requires Valid()
      modifies this
      ensures form == project && editingProject == Some(project)
      ensures projects == old(projects)
      ensures uploadingImage == old(uploadingImage) && uploadingVideo == old(uploadingVideo)
      ensures removals == old(removals) && writes == old(writes)
      ensures Valid()
    {
      form := project;
      editingProject := Some(project);
    }

    /** `handleImageUpload`: without a file nothing happens. A failed upload
        leaves the form alone; a public URL becomes the form's image, after
        the video (if any) was deleted and cleared. */
    method ImageUpload(hasFile: bool, outcome: UploadOutcome)
      requires Valid()
      modifies this
      ensures !hasFile ==> uploadingImage == old(uploadingImage) && form == old(form)
                           && removals == old(removals)
      ensures hasFile ==> !uploadingImage
      ensures hasFile && outcome.PublicUrl? && outcome.url != "" ==>
                && form == old(form).(image := FixUrl(outcome.url), video := "")
                && removals == old(removals)
                               + (if old(form).video != "" then RemovalOf("project-videos", old(form).video) else [])
                && form.image != "" && form.SingleMedia()
      ensures hasFile && !(outcome.PublicUrl? && outcome.url != "") ==>
                form == old(form) && removals == old(removals)
      ensures projects == old(projects) && editingProject == old(editingProject)
      ensures uploadingVideo == old(uploadingVideo) && writes == old(writes)
      ensures Valid()
    {
      if !hasFile {
        return;
      }
      uploadingImage := true;
      match outcome {
        case UploadError(_) =>
          uploadingImage := false;
          return;
        case PublicUrlError(_) =>
        case PublicUrl(url) =>
          if url != "" {
            var fixedUrl := FixUrl(url);
            FixUrlNonEmpty(url);
            if form.video != "" {
              removals := removals + RemovalOf("project-videos", form.video);
              form := form.(video := "");
            }
            form := form.(image := fixedUrl);
          }
      }
      uploadingImage := false;
    }

    /** `handleVideoUpload`: the mirror image of ImageUpload. */
    method VideoUpload(hasFile: bool, outcome: UploadOutcome)
      requires Valid()
      modifies this
      ensures !hasFile ==> uploadingVideo == old(uploadingVideo) && form == old(form)
                           && removals == old(removals)
      ensures hasFile ==> !uploadingVideo
      ensures hasFile && outcome.PublicUrl? && outcome.url != "" ==>
                && form == old(form).(video := FixUrl(outcome.url), image := "")
                && removals == old(removals)
                               + (if old(form).image != "" then RemovalOf("project-images", old(form).image) else [])
                && form.video != "" && form.SingleMedia()
      ensures hasFile && !(outcome.PublicUrl? && outcome.url != "") ==>
                form == old(form) && removals == old(removals)
      ensures projects == old(projects) && editingProject == old(editingProject)
      ensures uploadingImage == old(uploadingImage) && writes == old(writes)
      ensures Valid()
    {
      if !hasFile {
        return;
      }
      uploadingVideo := true;
      match outcome {
        case UploadError(_) =>
          uploadingVideo := false;
          return;
        case PublicUrlError(_) =>
        case PublicUrl(url) =>
          if url != "" {
            var fixedUrl := FixUrl(url);
            FixUrlNonEmpty(url);
            if form.image != "" {
              removals := removals + RemovalOf("project-images", form.image);
              form := form.(image := "");
            }
            form := form.(video := fixedUrl);
          }
      }
      uploadingVideo := false;
    }

    /** `handleSubmit`: a form with both an image and a video is refused and
        nothing changes. Otherwise an edited project's files the form no
        longer refers to are removed and the row is updated, or a new row is
        inserted; then the form is reset and the list reloaded. */
    method Submit(reloaded: Option<seq<Project>>)
      requires Valid()
      modifies this
      ensures !old(form).SingleMedia() ==>
                && form == old(form) && editingProject == old(editingProject)
                && projects == old(projects) && removals == old(removals) && writes == old(writes)
      ensures old(form).SingleMedia() ==>
                && form == EmptyForm && editingProject.None?
                && projects == (if reloaded.Some? then reloaded.value else old(projects))
                && (old(editingProject).Some? ==>
                      var p := old(editingProject).value;
                      && removals == old(removals)
                                     + StaleRemoval("project-images", p.image, old(form).image)
                                     + StaleRemoval("project-videos", p.video, old(form).video)
                      && writes == old(writes) + [Update(p.id, old(form))])
                && (old(editingProject).None? ==>
                      removals == old(removals) && writes == old(writes) + [Insert(old(form))])
      ensures uploadingImage == old(uploadingImage) && uploadingVideo == old(uploadingVideo)
      ensures Valid()
    {
      if form.image != "" && form.video != "" {
        return;
      }
      match editingProject {
        case Some(p) =>
          removals := removals + StaleRemoval("project-images", p.image, form.image);
          removals := removals + StaleRemoval("project-videos", p.video, form.video);
          writes := writes + [Update(p.id, form)];
        case None =>
          writes := writes + [Insert(form)];
      }
      form := EmptyForm;
      editingProject := None;
      Fetch(reloaded);
    }

    /** `handleDelete`: the files of the first listed project with that id
        are removed, the row is deleted, and the list reloaded. */
    method Delete(id: int, reloaded: Option<seq<Project>>)
      requires Valid()
      modifies this
      ensures var found := FindProject(old(projects), id);
              removals == old(removals) + (if found.Some? then ProjectRemovals(found.value) else [])
      ensures writes == old(writes) + [DeleteRow(id)]
      ensures projects == (if reloaded.Some? then reloaded.value else old(projects))
      ensures form == old(form) && editingProject == old(editingProject)
      ensures uploadingImage == old(uploadingImage) && uploadingVideo == old(uploadingVideo)
      ensures Valid()
    {
      var projectToDelete := FindProject(projects, id);
      if projectToDelete.Some? {
        removals := removals + ProjectRemovals(projectToDelete.value);
      }
      writes := writes + [DeleteRow(id)];
      Fetch(reloaded);
    }
  }

  /** Uploading an image over another one does not remove the first file:
      on a fresh page, two successful image uploads and a submit insert a
      row with the second image and request no removal, so the first
      uploaded file is referred to by nothing. */
  method OrphanedImageUpload(firstUrl: string, secondUrl: string) returns (page: ProjectsPage)
    requires firstUrl != "" && secondUrl != ""
    ensures page.removals == []
    ensures page.writes == [Insert(EmptyForm.(image := FixUrl(secondUrl)))]
    ensures FixUrl(firstUrl) != FixUrl(secondUrl) ==>
              page.writes[0].row.image != FixUrl(firstUrl) && page.form.image == ""
  {
    page := new ProjectsPage();
    page.ImageUpload(true, PublicUrl(firstUrl));
    page.ImageUpload(true, PublicUrl(secondUrl));
    page.Submit(None);
  }
}
