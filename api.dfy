/** The API endpoints of `RequestRouter`: reading and updating an application's
    manifest (with its image) and staging or deleting a temporary upload. Each
    answers with a status and a JSON body, or with the error an
    `HttpStatusException` carries; all of these errors prefer a JSON answer.
    Parsing JSON and decoding Base64 are parameters. */
module Api {
  import opened Wrappers
  import opened Encoding
  import opened Text
  import opened Paths
  import opened FileSystems
  import opened Requests
  import opened Manifests
  import opened Routing
  import Uploads
  import UriEscaping

  /** The JSON bodies the API answers with: `ManifestResponse`, `TemporaryUploadResponse`,
      `{ deleted }` and `{ error }`. */
  datatype ApiBody =
    | ManifestBody(id: string, name: string, description: string, image: string, tags: seq<string>, hasManifest: bool)
    | UploadBody(tempId: string, fileName: string, sizeBytes: nat)
    | DeletedBody(deleted: bool)
    | ErrorBody(error: string)

  /** A status line's status with its JSON body. */
  datatype ApiReply = ApiReply(status: string, body: ApiBody)

  /** What `JsonSerializer.Deserialize` gives: a value or JSON `null`, or the message of
      the `JsonException` it throws. */
  datatype Json<T> = Parsed(value: Option<T>) | InvalidJson(message: string)

  /** `TemporaryUploadRequest`. */
  datatype TemporaryUploadRequest = TemporaryUploadRequest(appId: Option<string>, fileName: Option<string>, contentBase64: Option<string>)

  const BodyRequired := HttpStatusError("400 Bad Request", "Request body is required.", true)
  const PayloadEmpty := HttpStatusError("400 Bad Request", "Payload is empty.", true)
  const AppNotFound := HttpStatusError("404 Not Found", "Application directory was not found.", true)
  const InvalidBase64 := HttpStatusError("400 Bad Request", "Image payload is not valid Base64 content.", true)
  const UploadFieldsRequired := HttpStatusError("400 Bad Request", "File name and content are required.", true)
  const IdentifierRequired := HttpStatusError("400 Bad Request", "Upload identifier is required.", true)

  function InvalidJsonPayload(message: string): HttpStatusError
  {
    HttpStatusError("400 Bad Request", "Invalid JSON payload: " + message, true)
  }

  /** An exception of the upload store, turned into a `400` with its message. */
  function UploadFailed(e: Uploads.UploadError): HttpStatusError
  {
    HttpStatusError("400 Bad Request", Uploads.Message(e), true)
  }

  /** The answer to an `HttpStatusException` that prefers JSON: its status and `{ error }`. */
  function ErrorReply(e: HttpStatusError): ApiReply
  {
    ApiReply(e.status, ErrorBody(e.message))
  }

  /** `ManifestResponse` for an application directory and what was read from its manifest. */
  function ManifestReply(appId: string, manifest: Option<WebAppManifest>, isAbsoluteUri: string -> bool): ApiReply
  {
    var app := Load(appId, manifest, isAbsoluteUri);
    ApiReply("200 OK", ManifestBody(appId, app.displayName, app.description, app.imageUrl, app.tags, manifest.Some?))
  }

  // ---------------------------------------------------------------------
  // HandleManifestGetAsync

  /** `HandleManifestGetAsync`: `404` when the application directory does not exist;
      otherwise the application as `Load` shows it, and whether it has a manifest.
      `manifestAt` stands for reading `manifest.json` in a directory. */
  function ManifestGetReply(dirs: set<string>, root: string, appId: string, manifestAt: string -> Option<WebAppManifest>,
                            isAbsoluteUri: string -> bool): (r: ApiReply)
    ensures !DirectoryExists(dirs, Combine(root, appId)) <==> r.status == "404 Not Found"
    ensures !DirectoryExists(dirs, Combine(root, appId)) ==> r.body == ErrorBody("Application directory was not found.")
    ensures DirectoryExists(dirs, Combine(root, appId)) ==>
              var manifest := manifestAt(Combine(root, appId));
              r.status == "200 OK" && r.body.ManifestBody? && r.body.id == appId
              && r.body.hasManifest == manifest.Some?
              && (manifest.None? ==> r.body.name == appId && r.body.description == DefaultDescription
                                     && r.body.image == DefaultImage && r.body.tags == [])
              && (manifest.Some? ==> r.body.tags == NormalizeTags(manifest.value.tags))
  {
    var appDirectory := Combine(root, appId);
    if !DirectoryExists(dirs, appDirectory) then ErrorReply(AppNotFound)
    else
      LoadWithoutManifest(appId, isAbsoluteUri);
      ManifestReply(appId, manifestAt(appDirectory), isAbsoluteUri)
  }

  // ---------------------------------------------------------------------
  // TryDeleteAppImage

  /** `TryDeleteAppImage`: deletes the file `AppImageTarget` names when it exists. A file
      the system refuses to delete stays; the failure is only logged. */
  method TryDeleteAppImage(fs: FileSystem, root: string, appId: string, imagePath: Option<string>)
    modifies fs
    ensures var target := AppImageTarget(root, appId, imagePath);
            fs.files == if target.Some? && target.value in old(fs.files) && target.value !in old(fs.locked)
                        then old(fs.files) - {target.value} else old(fs.files)
    ensures fs.dirs == old(fs.dirs) && fs.locked == old(fs.locked)
  {
    var target := AppImageTarget(root, appId, imagePath);
    if target.None? || target.value !in fs.files {
      return;
    }
    var deleted := fs.Delete(target.value);
  }

  // ---------------------------------------------------------------------
  // ProcessImageUpdate

  /** The result of `ProcessImageUpdate`: the new image's address (none when the payload
      brings no image), or the error it throws. */
  datatype ImageUpdate = NewImage(url: Option<string>) | ImageRefused(error: HttpStatusError)

  /** The address of a promoted image, or the promotion's exception as a `400`. */
  function Promoted(promoted: Uploads.Outcome<string>): (r: ImageUpdate)
    ensures r.NewImage? <==> promoted.Ok?
    ensures r.NewImage? ==> r.url == Some(promoted.value)
    ensures r.ImageRefused? ==> r.error == UploadFailed(promoted.error)
  {
    match promoted
    case Ok(url) => NewImage(Some(url))
    case Fail(e) => ImageRefused(UploadFailed(e))
  }

  /** A promotion of `tempId` into the application would find a staged file and accept the
      desired name, create the application directory, and then meet a directory where the
      copy goes, so `File.Copy` throws. */
  ghost predicate CopyHitsDirectory(files: map<string, seq<byte>>, dirs: set<string>, root: string, cwd: string,
                                    appId: string, tempId: string, desiredName: string)
  {
    var tempDirectory := Uploads.TemporaryUploadsDirectory(root);
    var found := Uploads.FoundUploads(files, dirs, tempDirectory, cwd, tempId);
    var appDirectory := Combine(root, appId);
    tempDirectory in dirs && found.Ok? && found.value != {}
    && Uploads.IsAllowedExtension(Uploads.ImageExtension(desiredName))
    && appDirectory !in files && DirectoryExists(dirs + {appDirectory}, PromotionTarget(root, appId, desiredName))
  }

  /** Where a promotion copies the image: the sanitised name in the application directory. */
  function PromotionTarget(root: string, appId: string, desiredName: string): string
  {
    Combine(Combine(root, appId), Uploads.SanitizeFileName(desiredName))
  }

  /** `ProcessImageUpdate`: promotes the staged upload a `tempId` names, or stages the
      decoded inline content and promotes that, each under the payload's file name (or
      `image`). An exception of the upload store becomes a `400` with its message.
      `base64` stands for `Convert.FromBase64String`, `None` where it throws; `stamp`,
      `guid` and `sha256` are what identifiers are made from. */
  method ProcessImageUpdate(fs: FileSystem, root: string, cwd: string, appId: string, payload: ManifestImagePayload,
                            base64: string -> Option<seq<byte>>, stamp: string, guid: string,
                            sha256: seq<byte> -> Uploads.Digest)
    returns (r: ImageUpdate)
    modifies fs
    ensures var plan := ImagePlanOf(payload);
            plan.NoNewImage? ==> r == NewImage(None) && fs.files == old(fs.files) && fs.dirs == old(fs.dirs)
    ensures var plan := ImagePlanOf(payload);
            plan.StageInline? && base64(plan.contentBase64).None? ==>
              r == ImageRefused(InvalidBase64) && fs.files == old(fs.files) && fs.dirs == old(fs.dirs)
    ensures var plan := ImagePlanOf(payload);
            plan.StageInline? && base64(plan.contentBase64).Some? && |base64(plan.contentBase64).value| > Uploads.MaxUploadBytes ==>
              r == ImageRefused(UploadFailed(Uploads.TooLarge)) && fs.files == old(fs.files) && fs.dirs == old(fs.dirs)
    ensures r.NewImage? && !ImagePlanOf(payload).NoNewImage? ==>
              var desired := DesiredName(payload.fileName);
              r.url == Some(EncodedApp(appId) + UriEscaping.Escape(Uploads.SanitizeFileName(desired)))
              && Uploads.IsAllowedExtension(Uploads.ImageExtension(desired))
    ensures IsNullOrWhiteSpace(payload.fileName) && !ImagePlanOf(payload).NoNewImage? ==> r.ImageRefused?
    ensures var plan := ImagePlanOf(payload);
            plan.PromoteStaged? && CopyHitsDirectory(old(fs.files), old(fs.dirs), root, cwd, appId, plan.tempId, plan.desiredName)
            ==> r == ImageRefused(UploadFailed(Uploads.TargetIsDirectory(PromotionTarget(root, appId, plan.desiredName))))
    ensures r.ImageRefused? ==> r.error.status == "400 Bad Request" && r.error.preferJson
    ensures fs.locked == old(fs.locked)
  {
    var plan := ImagePlanOf(payload);
    if IsNullOrWhiteSpace(payload.fileName) {
      NamelessImageIsRejected(payload);
    }
    match plan
    case NoNewImage =>
      r := NewImage(None);
    case PromoteStaged(tempId, desiredName) =>
      var promoted := Uploads.PromoteTemporaryUpload(fs, root, cwd, appId, tempId, desiredName);
      r := Promoted(promoted);
    case StageInline(contentBase64, fileName) =>
      var data := base64(contentBase64);
      if data.None? {
        return ImageRefused(InvalidBase64);
      }
      var staged := Uploads.StageTemporaryUpload(fs, root, fileName, data.value, Some(appId), stamp, guid, sha256);
      if staged.Fail? {
        return ImageRefused(UploadFailed(staged.error));
      }
      var promoted := Uploads.PromoteTemporaryUpload(fs, root, cwd, appId, staged.value.identifier, fileName);
      r := Promoted(promoted);
  }

  // ---------------------------------------------------------------------
  // HandleManifestPostAsync

  /** The result of `HandleManifestPostAsync` up to saving: the manifest to save, or the error. */
  datatype ManifestPost = SaveManifest(manifest: WebAppManifest) | PostRefused(error: HttpStatusError)

  /** The image address `ProcessImageUpdate` gives a payload when it succeeds. */
  function ProcessedImage(appId: string, payload: ManifestImagePayload): Option<string>
  {
    if ImagePlanOf(payload).NoNewImage? then None
    else Some(EncodedApp(appId) + UriEscaping.Escape(Uploads.SanitizeFileName(DesiredName(payload.fileName))))
  }

  /** `HandleManifestPostAsync`: an empty body, a body that does not parse or parses to
      `null`, and a missing application directory are refused in that order. Then the
      old image is deleted when the request removes it, or the payload's image is
      processed, and the manifest to save merges the request into the current one.
      `current` is what reading the application's `manifest.json` gives. */
  method HandleManifestPost(fs: FileSystem, root: string, cwd: string, appId: string, body: seq<byte>,
                            parse: seq<byte> -> Json<ManifestUpdateRequest>, current: Option<WebAppManifest>,
                            base64: string -> Option<seq<byte>>, stamp: string, guid: string,
                            sha256: seq<byte> -> Uploads.Digest)
    returns (r: ManifestPost)
    modifies fs
    ensures body == [] ==> r == PostRefused(BodyRequired)
    ensures body != [] && parse(body).InvalidJson? ==> r == PostRefused(InvalidJsonPayload(parse(body).message))
    ensures body != [] && parse(body).Parsed? && parse(body).value.None? ==> r == PostRefused(PayloadEmpty)
    ensures body != [] && parse(body).Parsed? && parse(body).value.Some? && !DirectoryExists(old(fs.dirs), Combine(root, appId))
            ==> r == PostRefused(AppNotFound)
    ensures r.PostRefused? && (body == [] || parse(body).InvalidJson? || parse(body).value.None?
                               || !DirectoryExists(old(fs.dirs), Combine(root, appId)))
            ==> fs.files == old(fs.files) && fs.dirs == old(fs.dirs)
    ensures r.SaveManifest? ==>
              body != [] && parse(body).Parsed? && parse(body).value.Some?
              && DirectoryExists(old(fs.dirs), Combine(root, appId))
    ensures r.SaveManifest? && parse(body).value.value.removeImage ==>
              var target := AppImageTarget(root, appId, if current.Some? then current.value.image else None);
              r.manifest == MergedManifest(current, parse(body).value.value, None)
              && fs.files == if target.Some? && target.value in old(fs.files) && target.value !in old(fs.locked)
                             then old(fs.files) - {target.value} else old(fs.files)
    ensures r.SaveManifest? && !parse(body).value.value.removeImage && parse(body).value.value.image.None? ==>
              r.manifest == MergedManifest(current, parse(body).value.value, None) && fs.files == old(fs.files)
    ensures r.SaveManifest? && !parse(body).value.value.removeImage && parse(body).value.value.image.Some? ==>
              var update := parse(body).value.value;
              r.manifest == MergedManifest(current, update, ProcessedImage(appId, update.image.value))
    ensures body != [] && parse(body).Parsed? && parse(body).value.Some? && DirectoryExists(old(fs.dirs), Combine(root, appId))
            && (var update := parse(body).value.value;
                !update.removeImage && update.image.Some? && IsNullOrWhiteSpace(update.image.value.fileName)
                && !ImagePlanOf(update.image.value).NoNewImage?)
            ==> r.PostRefused?
    ensures body != [] && parse(body).Parsed? && parse(body).value.Some? && DirectoryExists(old(fs.dirs), Combine(root, appId))
            && (var update := parse(body).value.value;
                !update.removeImage && update.image.Some? && ImagePlanOf(update.image.value).PromoteStaged?
                && var plan := ImagePlanOf(update.image.value);
                   CopyHitsDirectory(old(fs.files), old(fs.dirs), root, cwd, appId, plan.tempId, plan.desiredName))
            ==> var plan := ImagePlanOf(parse(body).value.value.image.value);
                r == PostRefused(UploadFailed(Uploads.TargetIsDirectory(PromotionTarget(root, appId, plan.desiredName))))
    ensures r.PostRefused? ==> r.error.status in {"400 Bad Request", "404 Not Found"} && r.error.preferJson
    ensures fs.locked == old(fs.locked)
  {
    if body == [] {
      return PostRefused(BodyRequired);
    }
    var parsed := parse(body);
    if parsed.InvalidJson? {
      return PostRefused(InvalidJsonPayload(parsed.message));
    }
    if parsed.value.None? {
      return PostRefused(PayloadEmpty);
    }
    var update := parsed.value.value;
    var appDirectory := Combine(root, appId);
    if !DirectoryExists(fs.dirs, appDirectory) {
      return PostRefused(AppNotFound);
    }
    var newImage: Option<string> := None;
    if update.removeImage {
      TryDeleteAppImage(fs, root, appId, if current.Some? then current.value.image else None);
    } else if update.image.Some? {
      var processed := ProcessImageUpdate(fs, root, cwd, appId, update.image.value, base64, stamp, guid, sha256);
      if processed.ImageRefused? {
        return PostRefused(processed.error);
      }
      newImage := processed.url;
    }
    return SaveManifest(MergedManifest(current, update, newImage));
  }

  // ---------------------------------------------------------------------
  // HandleTemporaryUploadPostAsync and HandleTemporaryUploadDeleteAsync

  /** The upload request passes every check before staging touches the disk: a body
      that parses to a request with a file name and content, Base64 that decodes, at most
      5 MiB, and an allowed extension. */
  ghost predicate UploadAccepted(body: seq<byte>, parse: seq<byte> -> Json<TemporaryUploadRequest>,
                                 base64: string -> Option<seq<byte>>)
  {
    body != [] && parse(body).Parsed? && parse(body).value.Some?
    && var request := parse(body).value.value;
       !IsNullOrWhiteSpace(request.fileName) && !IsNullOrWhiteSpace(request.contentBase64)
       && base64(request.contentBase64.value).Some?
       && |base64(request.contentBase64.value).value| <= Uploads.MaxUploadBytes
       && Uploads.IsAllowedExtension(Uploads.ImageExtension(request.fileName.value))
  }

  /** `HandleTemporaryUploadPostAsync`: an empty body, a body that does not parse, and a
      request without file name or content are refused in that order; then the content
      is decoded and staged, and the reply carries the identifier, the sanitised name and
      the size. */
  method HandleUploadPost(fs: FileSystem, root: string, body: seq<byte>, parse: seq<byte> -> Json<TemporaryUploadRequest>,
                          base64: string -> Option<seq<byte>>, stamp: string, guid: string,
                          sha256: seq<byte> -> Uploads.Digest)
    returns (reply: ApiReply)
    modifies fs
    ensures body == [] ==> reply == ErrorReply(BodyRequired)
    ensures body != [] && parse(body).InvalidJson? ==> reply == ErrorReply(InvalidJsonPayload(parse(body).message))
    ensures body != [] && parse(body).Parsed? &&
            (parse(body).value.None? || IsNullOrWhiteSpace(parse(body).value.value.fileName)
             || IsNullOrWhiteSpace(parse(body).value.value.contentBase64))
            ==> reply == ErrorReply(UploadFieldsRequired)
    ensures reply.status == "200 OK" <==>
              UploadAccepted(body, parse, base64)
              && var request := parse(body).value.value;
                 var tempDirectory := Uploads.TemporaryUploadsDirectory(root);
                 tempDirectory !in old(fs.files)
                 && !DirectoryExists(old(fs.dirs) + {tempDirectory},
                                     Uploads.StagedPath(root, request.fileName.value, request.appId, stamp, guid, sha256))
    ensures UploadAccepted(body, parse, base64) ==>
              var request := parse(body).value.value;
              var tempDirectory := Uploads.TemporaryUploadsDirectory(root);
              var target := Uploads.StagedPath(root, request.fileName.value, request.appId, stamp, guid, sha256);
              && (tempDirectory in old(fs.files) ==> reply == ErrorReply(UploadFailed(Uploads.FileInTheWay(tempDirectory))))
              && (tempDirectory !in old(fs.files) && DirectoryExists(old(fs.dirs) + {tempDirectory}, target)
                  ==> reply == ErrorReply(UploadFailed(Uploads.TargetIsDirectory(target)))
                      && fs.dirs == old(fs.dirs) + {tempDirectory})
    ensures reply.status == "200 OK" ==>
              var request := parse(body).value.value;
              var data := base64(request.contentBase64.value).value;
              var name := Uploads.SanitizeFileName(request.fileName.value);
              var id := Uploads.GenerateIdentifier(name, request.appId, stamp, guid, sha256);
              reply.body == UploadBody(id, name, |data|)
              && fs.files == old(fs.files)[Combine(Uploads.TemporaryUploadsDirectory(root),
                                                   id + Uploads.ImageExtension(request.fileName.value)) := data]
    ensures reply.status != "200 OK" ==> reply.body.ErrorBody? && fs.files == old(fs.files)
    ensures reply.status != "200 OK" && !(UploadAccepted(body, parse, base64) && Uploads.TemporaryUploadsDirectory(root) !in old(fs.files))
            ==> fs.dirs == old(fs.dirs)
    ensures fs.locked == old(fs.locked)
  {
    if body == [] {
      return ErrorReply(BodyRequired);
    }
    var parsed := parse(body);
    if parsed.InvalidJson? {
      return ErrorReply(InvalidJsonPayload(parsed.message));
    }
    if parsed.value.None? || IsNullOrWhiteSpace(parsed.value.value.fileName) || IsNullOrWhiteSpace(parsed.value.value.contentBase64) {
      return ErrorReply(UploadFieldsRequired);
    }
    var request := parsed.value.value;
    var data := base64(request.contentBase64.value);
    if data.None? {
      return ErrorReply(InvalidBase64);
    }
    var staged := Uploads.StageTemporaryUpload(fs, root, request.fileName.value, data.value, request.appId, stamp, guid, sha256);
    if staged.Fail? {
      return ErrorReply(UploadFailed(staged.error));
    }
    return ApiReply("200 OK", UploadBody(staged.value.identifier, staged.value.originalFileName, staged.value.sizeBytes));
  }

  /** `HandleTemporaryUploadDeleteAsync`: a blank identifier is refused; otherwise the
      reply says whether a staged file was deleted. When the search for the file throws,
      there is no reply (`None`): the exception reaches the connection's last handler. */
  method HandleUploadDelete(fs: FileSystem, root: string, cwd: string, identifier: string) returns (reply: Option<ApiReply>)
    modifies fs
    ensures IsBlank(identifier) ==> reply == Some(ErrorReply(IdentifierRequired))
    ensures var dir := Uploads.TemporaryUploadsDirectory(root);
            var found := Uploads.FoundUploads(old(fs.files), old(fs.dirs), dir, cwd, identifier);
            !IsBlank(identifier) ==>
              && (reply.None? <==> dir in old(fs.dirs) && found.Fail?)
              && (reply.Some? ==> reply.value.status == "200 OK" && reply.value.body.DeletedBody?)
              && (dir in old(fs.dirs) && found.Ok? && found.value != {} && found.value !! old(fs.locked)
                  ==> reply == Some(ApiReply("200 OK", DeletedBody(true))))
    ensures reply == Some(ApiReply("200 OK", DeletedBody(true))) ==>
              var found := Uploads.FoundUploads(old(fs.files), old(fs.dirs), Uploads.TemporaryUploadsDirectory(root), cwd, identifier);
              found.Ok? && exists p :: p in found.value && fs.files == old(fs.files) - {p}
    ensures reply != Some(ApiReply("200 OK", DeletedBody(true))) ==> fs.files == old(fs.files)
    ensures fs.dirs == old(fs.dirs) && fs.locked == old(fs.locked)
  {
    if IsBlank(identifier) {
      return Some(ErrorReply(IdentifierRequired));
    }
    var deleted := Uploads.TryDeleteTemporaryUpload(fs, root, cwd, identifier);
    if deleted.Fail? {
      return None;
    }
    return Some(ApiReply("200 OK", DeletedBody(deleted.value)));
  }
}
