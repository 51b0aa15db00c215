/** The gate in front of the extraction endpoint (`extract_pose`): an upload
    goes on to extraction when its declared content type is absent or empty,
    is a `video/` type, or is `application/octet-stream`; any other content
    type falls back to a case-insensitive check of the file name's extension.
    A rejected upload ends with HTTP 400 before anything is extracted. */
module Upload {
  import opened Wrappers
  import opened Text
  import opened Tracker
  import opened Pipeline
  import PoseProcessor

  const VideoPrefix := "video/"
  const OctetStream := "application/octet-stream"
  const AllowedExtensions: seq<string> := [".mp4", ".mov", ".avi", ".mkv", ".webm"]
  const RejectDetail := "Please upload a video file."

  /** An `HTTPException`: status code and detail message. */
  datatype HttpError = HttpError(status: int, detail: string)

  /** The name the extension check looks at: `(file.filename or "").lower()`. */
  function CheckedName(filename: Option<string>): (name: string)
    ensures filename.None? ==> name == ""
    ensures filename.Some? ==> name == Lower(filename.value)
  {
    Lower(filename.GetOr(""))
  }

  /** `any(filename.endswith(ext) for ext in allowed_ext)`. */
  predicate HasAllowedExtension(filename: Option<string>) {
    var name := CheckedName(filename);
    exists i :: 0 <= i < |AllowedExtensions| && EndsWith(name, AllowedExtensions[i])
  }

  /** Whether the upload proceeds to extraction. A content type that is
      `None` or the empty string is falsy in Python and skips the check. */
  predicate Accepts(contentType: Option<string>, filename: Option<string>) {
    match contentType
    case None => true
    case Some(ct) =>
      ct == "" || StartsWith(ct, VideoPrefix) || ct == OctetStream || HasAllowedExtension(filename)
  }

  /** The check as the handler runs it: pass, or raise status 400. */
  function CheckUpload(contentType: Option<string>, filename: Option<string>): (o: Outcome<HttpError>)
    ensures o.Pass? <==> Accepts(contentType, filename)
    ensures o.Fail? ==> o.error == HttpError(400, RejectDetail)
  {
    if Accepts(contentType, filename) then Pass else Fail(HttpError(400, RejectDetail))
  }

  /** What the handler does with an upload, as far as extraction goes:
      either it rejects the upload, or it runs the extraction. */
  datatype Handled = Rejected(error: HttpError) | Extracted(run: Run)

  /** The check, then extraction on the uploaded video only if the check
      passed. Saving the upload to a temporary file is left out; `source`
      is the video as the decoder would see it. */
  method HandleUpload<I, S>(contentType: Option<string>, filename: Option<string>, source: Source<I>,
                            stride: int, detect: (S, I) -> Step<S>, s0: S, now: string)
    returns (h: Handled)
    ensures h.Rejected? <==> !Accepts(contentType, filename)
    ensures h.Rejected? ==> h.error == HttpError(400, RejectDetail)
    ensures h.Extracted? ==> h.run == ExtractSpec(source, stride, detect, s0, now)
  {
    var check := CheckUpload(contentType, filename);
    if check.Fail? {
      return Rejected(check.error);
    }
    var run := PoseProcessor.ExtractWorldLandmarks(source, stride, detect, s0, now);
    return Extracted(run);
  }

  /** Without a content type, or with an empty one, every upload is
      accepted, whatever its name, missing names included. */
  lemma NoContentTypeAccepted(contentType: Option<string>, filename: Option<string>)
    requires contentType.None? || contentType == Some("")
    ensures Accepts(contentType, filename)
  {
  }

  /** A `video/` content type or the generic binary type is accepted
      whatever the file is called. */
  lemma DeclaredVideoAccepted(subtype: string, filename: Option<string>)
    ensures Accepts(Some(VideoPrefix + subtype), filename)
    ensures Accepts(Some(OctetStream), filename)
  {
    assert (VideoPrefix + subtype)[..|VideoPrefix|] == VideoPrefix;
  }

  /** Any other non-empty content type is accepted exactly when the
      lower-cased name is some string followed by one of the five allowed
      extensions. */
  lemma OtherTypeDecidedByExtension(ct: string, filename: Option<string>)
    requires ct != "" && !StartsWith(ct, VideoPrefix) && ct != OctetStream
    ensures Accepts(Some(ct), filename) <==>
      exists i, p: string :: 0 <= i < |AllowedExtensions| && CheckedName(filename) == p + AllowedExtensions[i]
  {
    var name := CheckedName(filename);
    if Accepts(Some(ct), filename) {
      var i :| 0 <= i < |AllowedExtensions| && EndsWith(name, AllowedExtensions[i]);
      EndsWithIffConcat(name, AllowedExtensions[i]);
    }
    if exists i, p: string :: 0 <= i < |AllowedExtensions| && name == p + AllowedExtensions[i] {
      var i, p: string :| 0 <= i < |AllowedExtensions| && name == p + AllowedExtensions[i];
      EndsWithIffConcat(name, AllowedExtensions[i]);
    }
  }

  /** The extension check ignores case: a name and its lower-case form
      are accepted alike. */
  lemma ExtensionIgnoresCase(contentType: Option<string>, name: string)
    ensures Accepts(contentType, Some(name)) == Accepts(contentType, Some(Lower(name)))
  {
    LowerIdempotent(name);
  }

  /** When the content type does not decide, a missing or empty file name
      is rejected: the empty string ends with none of the extensions. */
  lemma MissingNameRejected(ct: string, filename: Option<string>)
    requires ct != "" && !StartsWith(ct, VideoPrefix) && ct != OctetStream
    requires filename.None? || filename == Some("")
    ensures !Accepts(Some(ct), filename)
    ensures CheckUpload(Some(ct), filename) == Fail(HttpError(400, RejectDetail))
  {
    assert CheckedName(filename) == "";
  }

  /** An upper-case extension passes under an unrelated content type. */
  lemma UpperCaseExtensionAccepted()
    ensures Accepts(Some("text/plain"), Some("CLIP.MP4"))
  {
    assert CheckedName(Some("CLIP.MP4")) == "clip.mp4";
    assert EndsWith("clip.mp4", AllowedExtensions[0]);
  }

  /** A text file under a text content type is turned away. */
  lemma TextFileRejected()
    ensures !Accepts(Some("text/plain"), Some("notes.txt"))
  {
    assert CheckedName(Some("notes.txt")) == "notes.txt";
    assert "text/plain"[..|VideoPrefix|][0] != VideoPrefix[0];
    forall i | 0 <= i < |AllowedExtensions|
      ensures !EndsWith("notes.txt", AllowedExtensions[i])
    {
      assert "notes.txt"[|"notes.txt"| - 4..][1] == 't';
    }
  }

  /** Python lowers U+212A KELVIN SIGN to an ASCII `k`, so a name spelt
      with it passes as `.mkv`. */
  lemma KelvinSignExtensionAccepted()
    ensures Accepts(Some("image/png"), Some("clip.m\U{212A}v"))
  {
    assert CheckedName(Some("clip.m\U{212A}v")) == "clip.mkv";
    assert EndsWith("clip.mkv", AllowedExtensions[3]);
  }
}
