/**
 * The officer's profile page: replacing the profile image (the old file's
 * removal is requested whatever the upload returns) and changing the
 * password (the two entries must match; they are cleared only once the
 * change succeeded). The page's `fixUrl` is the projects page's, so the
 * model uses that definition; its `getFileNameFromUrl` has the projects
 * page's body with the default bucket "officer-images" (`OfficerFileName`).
 */
module AdminProfile {
  import opened JsText
  import opened Backend
  import AdminProjects

  const OfficerBucket := "officer-images"
  const MismatchMessage := "Passwords do not match"
  const SuccessMessage := "Password updated successfully!"

  lemma {:induction false} OfficerMarker()
    ensures AdminProjects.Marker(OfficerBucket) == "/public/officer-images/"
  {
  }

  /** `getFileNameFromUrl(url)` with its default bucket, "officer-images":
      the officer image's file name of a public URL of that bucket. */
  function OfficerFileName(url: string): (r: Option<string>)
    ensures r.None? <==> url == "" || !Contains(url, "/public/officer-images/")
    ensures r.Some? ==> SegmentAfterFirst(url, "/public/officer-images/", r.value)
  {
    OfficerMarker();
    AdminProjects.FileNameFromUrl(url, OfficerBucket)
  }

  /** An officer image's public URL maps back to its file name. */
  lemma {:induction false} OfficerFileNameOfPublicUrl(base: string, name: string)
    requires IndexOf(base + "/public/officer-images/", "/public/officer-images/") == Some(|base|)
    requires !Contains(name, "/public/officer-images/")
    ensures OfficerFileName(base + "/public/officer-images/" + name) == Some(name)
  {
    OfficerMarker();
    AdminProjects.FileNameOfPublicUrl(base, OfficerBucket, name);
  }

  /** The profile form. */
  datatype Officer = Officer(name: string, role: string, email: string,
                             image: string, linkedin: string)

  /** The removal `handleFileUpload` requests before uploading: the current
      image's file, when the form has an image. */
  function ImageRemoval(image: string): seq<Removal> {
    if image != "" then AdminProjects.RemovalOf(OfficerBucket, image) else []
  }

  /** The removal is at most one file of the officer bucket, the one the
      image's URL names, and none when there is no image or no name. */
  lemma {:induction false} ImageRemovalNamesFile(image: string)
    ensures |ImageRemoval(image)| <= 1
    ensures ImageRemoval(image) != [] ==>
              ImageRemoval(image) == [Removal(OfficerBucket, ImageRemoval(image)[0].fileName)]
              && OfficerFileName(image) == Some(ImageRemoval(image)[0].fileName)
    ensures ImageRemoval(image) == [] <==>
              image == "" || OfficerFileName(image).None? || OfficerFileName(image) == Some("")
  {
    if image != "" {
      var r := AdminProjects.RemovalOf(OfficerBucket, image);
      if r != [] {
        assert r == [r[0]];
      }
    }
  }

  class ProfilePage {
    var form: Officer
    var newPassword: string
    var confirmNewPassword: string
    var passwordMsg: string
    var uploading: bool
    /** The storage removals requested so far, in order. */
    var removals: seq<Removal>
    /** The passwords sent to the authentication service, in order. */
    var passwordUpdates: seq<string>

    constructor ()
      ensures form == Officer("", "", "", "", "")
      ensures newPassword == "" && confirmNewPassword == "" && passwordMsg == ""
      ensures !uploading && removals == [] && passwordUpdates == []
    {
      form := Officer("", "", "", "", "");
      newPassword := "";
      confirmNewPassword := "";
      passwordMsg := "";
      uploading := false;
      removals := [];
      passwordUpdates := [];
    }

    /** `handlePasswordSubmit`: two different entries are refused with a
        message and nothing is sent; otherwise the new password is sent, and
        the message is the service's error or the success message, the two
        entries being cleared only on success. */
    method PasswordSubmit(outcome: AuthOutcome)
      modifies this
      ensures old(newPassword) != old(confirmNewPassword) ==>
                && passwordMsg == MismatchMessage
                && passwordUpdates == old(passwordUpdates)
                && newPassword == old(newPassword) && confirmNewPassword == old(confirmNewPassword)
      ensures old(newPassword) == old(confirmNewPassword) ==>
                passwordUpdates == old(passwordUpdates) + [old(newPassword)]
      ensures old(newPassword) == old(confirmNewPassword) && outcome.AuthError? ==>
                && passwordMsg == outcome.message
                && newPassword == old(newPassword) && confirmNewPassword == old(confirmNewPassword)
      ensures old(newPassword) == old(confirmNewPassword) && outcome.AuthOk? ==>
                passwordMsg == SuccessMessage && newPassword == "" && confirmNewPassword == ""
      ensures passwordUpdates != old(passwordUpdates) <==> old(newPassword) == old(confirmNewPassword)
      ensures form == old(form) && uploading == old(uploading) && removals == old(removals)
    {
      if newPassword != confirmNewPassword {
        passwordMsg := MismatchMessage;
        return;
      }
      passwordUpdates := passwordUpdates + [newPassword];
      match outcome {
        case AuthError(message) =>
          passwordMsg := message;
        case AuthOk =>
          passwordMsg := SuccessMessage;
          newPassword := "";
          confirmNewPassword := "";
      }
    }

    /** `handleFileUpload`: without a file nothing happens. Otherwise the
        current image's file is removed whatever the upload returns; a
        failed upload leaves the form pointing at that removed file, and a
        public URL becomes the form's image once repaired. */
    method FileUpload(hasFile: bool, outcome: UploadOutcome)
      modifies this
      ensures !hasFile ==> form == old(form) && uploading == old(uploading) && removals == old(removals)
      ensures hasFile ==> !uploading && removals == old(removals) + ImageRemoval(old(form).image)
      ensures hasFile && outcome.PublicUrl? && outcome.url != "" ==>
                form == old(form).(image := AdminProjects.FixUrl(outcome.url)) && form.image != ""
      ensures hasFile && !(outcome.PublicUrl? && outcome.url != "") ==> form == old(form)
      ensures newPassword == old(newPassword) && confirmNewPassword == old(confirmNewPassword)
      ensures passwordMsg == old(passwordMsg) && passwordUpdates == old(passwordUpdates)
    {
      if !hasFile {
        return;
      }
      uploading := true;
      removals := removals + ImageRemoval(form.image);
      match outcome {
        case UploadError(_) =>
          uploading := false;
          return;
        case PublicUrlError(_) =>
        case PublicUrl(url) =>
          if url != "" {
            var fixedUrl := AdminProjects.FixUrl(url);
            AdminProjects.FixUrlNonEmpty(url);
            form := form.(image := fixedUrl);
          }
      }
      uploading := false;
    }
  }
}
