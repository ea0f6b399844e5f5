# uWebHost request handling, modelled in Dafny

uWebHost is a small HTTP/1.1 server. It hosts a directory of web applications
and offers a JSON API for editing each application's manifest and image. This
project models its request path in Dafny:

- **Reading a request.** `ReadRequestAsync` reads a request off the connection.
  The header is read in chunks until the first `\r\n\r\n`, with a 32 KiB cap.
  The request line and header fields are parsed. Then `Content-Length` bytes of
  body are read, up to 8 MiB.
- **Dispatch.** `HandleClientAsync` refuses a raw path holding `..`, hands `/api/` to the API
  router, checks the method, serves the home page, decodes the path, checks that
  it stays inside the web root, and then serves a directory, a file or 404.
- **Directories.** A directory request redirects to the path with a trailing
  `/`, serves its `index.html`, or lists its entries. The home page lists every
  application directory.
- **The API.** There are four endpoints:
  - `GET /api/apps/<id>/manifest` reads an application's manifest.
  - `POST /api/apps/<id>/manifest` merges an update into the manifest, together
    with its image.
  - `POST /api/uploads/temp` stages an image.
  - `DELETE /api/uploads/temp/<id>` removes a staged image.
- **The upload store** (`UploadManager`). It stages, promotes, deletes and purges
  uploads, sanitises file names and derives upload identifiers.
- **The manifest loader** (`WebAppManifestLoader`). It fills in defaults,
  normalises tags and resolves image URLs.
- **The response framer** (`HttpResponseWriter`) and the **MIME table**
  (`ContentTypeProvider`).

The disk is a `FileSystems.FileSystem` object. It holds files keyed by full
path, the set of existing directories, and the set of files the operating
system refuses to delete. Creating a directory where a file sits, and writing or
copying onto a directory, fail as they do on the disk. The client connection is a `Connections.Connection`
object. It holds the chunks still to arrive and the bytes written so far.

The methods work on these objects the way the C# code works on the disk and the
stream. Each method is specified by a function over the old state:

- `Requests.ReadRequest` against `ReadRequestSpec`.
- `Response.BuildHeader` against `HeaderText`.
- `Server.HandleDirectory` against `Routing.DirectoryPage`.

Those functions carry the properties that are proved about them.

The platform is Unix: the separator is `/`, and paths compare ordinally. The
.NET primitives the code relies on are modelled in their own modules:

- `Text`: `Trim`, `Split`, `IndexOf`, ordinal-ignore-case folding.
- `Encoding`: ASCII, UTF-8, hexadecimal and `int.TryParse`.
- `Paths`: `Path.Combine`, `GetFileName`, `GetExtension`, `GetFullPath`.
- `UriEscaping`: `Uri.EscapeDataString` and `UnescapeDataString`.
- `Ordering`: `OrderBy` and `Distinct`.

Some things are parameters of the model:

- The wall clock.
- GUIDs.
- SHA-256.
- JSON (de)serialisation.
- Base64 decoding.
- `Uri.TryCreate`.
- Reading `manifest.json`.
- The HTML page renderer.

## Model

Source paths are relative to the repository root.

| member | source | states |
|---|---|---|
| Connections.ReadChunkAvailable | src/uwebhost/Hosting/RequestRouter.cs:226 | One `ReadAsync` takes a prefix of the remaining stream, of at most the buffer size. The stream is unchanged apart from that prefix. It returns no bytes only at the end of the stream. |
| Connections.Connection.Read | src/uwebhost/Hosting/RequestRouter.cs:226 | Reading returns the next chunk piece and removes it from the incoming stream. Nothing is written. |
| Connections.Connection.Write | src/uwebhost/Hosting/HttpResponseWriter.cs:49-53 | Writing appends exactly the bytes to what the client has received. The incoming stream is unchanged. |
| Requests.FindHeaderTerminator | src/uwebhost/Hosting/RequestRouter.cs:628-637 | The result is -1 exactly when `\r\n\r\n` occurs nowhere. Otherwise it is a position where the terminator occurs, and it is the first such position. |
| Requests.HeaderScanConsumes | src/uwebhost/Hosting/RequestRouter.cs:223-239 | The header loop has three outcomes. At the end of the stream, everything was read and holds no terminator. When the header is too large, more than 32 KiB was sent. When the terminator is found, the buffer is a prefix of the stream of at most 32 KiB, and the terminator's first occurrence lies in it. |
| Requests.ReadHeader | src/uwebhost/Hosting/RequestRouter.cs:223-239 | The imperative header loop reads from the connection exactly as `HeaderScan` says. It writes nothing. |
| Requests.RequestPath | src/uwebhost/Hosting/RequestRouter.cs:266-270 | The path is non-empty and holds no `?`. It is `/` or the part of the target before its first `?`. |
| Requests.HeaderMapLookup | src/uwebhost/Hosting/RequestRouter.cs:272-289 | After the header loop, a name is present exactly when some line sets it or it was present before. Its value is the one the last such line gives, so later fields replace earlier ones. |
| Requests.AddFieldLookup | src/uwebhost/Hosting/RequestRouter.cs:275-288 | One line sets the name it carries, folded, to its trimmed value. It leaves every other name alone. |
| Requests.HeaderNamesFolded | src/uwebhost/Hosting/RequestRouter.cs:272 | Every stored header name is case-folded. A lookup under any spelling therefore finds the same field, as with the `OrdinalIgnoreCase` dictionary. |
| Requests.ParseHeaderFields | src/uwebhost/Hosting/RequestRouter.cs:272-289 | The imperative loop over the lines after the request line builds exactly `HeaderMap` of those lines. |
| Requests.AddHeaderLine | src/uwebhost/Hosting/RequestRouter.cs:275-288 | One pass of the header loop does exactly what `AddField` says of the line: a line with a colon after its first character sets its folded name, and any other line is skipped. |
| Requests.FieldOfLine | src/uwebhost/Hosting/RequestRouter.cs:281-287 | A line with a colon after its first character yields the trimmed, folded name before the first colon and the trimmed value after it. |
| Requests.NoFieldOfLine | src/uwebhost/Hosting/RequestRouter.cs:276-285 | An empty line, or one whose first colon is missing or at position 0, is skipped. |
| Requests.ContentLength | src/uwebhost/Hosting/RequestRouter.cs:292-304 | A missing or empty `Content-Length` means 0. Otherwise there are three outcomes, each exactly when its condition holds. A value `int.TryParse` rejects, or a negative one, gives `400 Invalid Content-Length header.`. A value above 8 MiB gives `413 Payload Too Large`. A value from 0 to 8 MiB is the length. The parser is `Encoding.ParseInt32`, which, like the runtime, accepts NUL characters after the number. |
| Requests.ContentLengthOfDecimal | src/uwebhost/Hosting/RequestRouter.cs:292-304 | A `Content-Length` written in decimal reads back as that number when it is at most 8 MiB. Above that it is refused with `413 Payload Too Large`. |
| Requests.ContentLengthIgnoresTrailingNuls | src/uwebhost/Hosting/RequestRouter.cs:293-296 | NUL characters after the value change nothing: `Content-Length: 5` followed by a NUL declares a 5-byte body. |
| Requests.BodyScanReadsExactly | src/uwebhost/Hosting/RequestRouter.cs:306-321 | Whatever the chunking, the body loop yields exactly the next `remaining` bytes of the stream when there are that many. Otherwise it fails. |
| Requests.ReadBody | src/uwebhost/Hosting/RequestRouter.cs:306-321 | The imperative body loop reads from the connection exactly as `BodyScan` says. |
| Requests.ParseRequestHead | src/uwebhost/Hosting/RequestRouter.cs:252-289 | The imperative request-line and header parsing equals `ParseHead`. |
| Requests.ReadRequest | src/uwebhost/Hosting/RequestRouter.cs:217-330 | `ReadRequestAsync` on the connection gives the result and leaves the unread input that `ReadRequestSpec` gives. Nothing is written. |
| Requests.ReadAfterHeader | src/uwebhost/Hosting/RequestRouter.cs:241-327 | The part after the header loop behaves as `RequestAfterHeader` says. |
| Requests.NoRequestIffSilent | src/uwebhost/Hosting/RequestRouter.cs:227-230 | The reader reports no request exactly when the client sends no byte at all. |
| Requests.AfterHeaderIsRequestOrError | src/uwebhost/Hosting/RequestRouter.cs:241-327 | Once a header has been read, the outcome is a request or an error, never silence. |
| Requests.HeaderScanInStream | src/uwebhost/Hosting/RequestRouter.cs:223-239 | The header loop stops in one of three ways. At the end of the stream, it has read all of at most 32 KiB. Past the limit, more than 32 KiB was sent. At a terminator, that terminator occurs at the same place in the stream and ends within 32 KiB. |
| Requests.EndOfStreamInHeader | src/uwebhost/Hosting/RequestRouter.cs:227-230 | A stream that ends after some bytes but before any blank line, within 32 KiB, is refused with `400 Unexpected end of stream.`. |
| Requests.HeaderOverLimit | src/uwebhost/Hosting/RequestRouter.cs:232-236 | More than 32 KiB with no blank line inside the first 32 KiB is refused with `431`. |
| Requests.TerminatorPastLimit | src/uwebhost/Hosting/RequestRouter.cs:232-238 | The limit is tested before the terminator is searched for. A blank line that ends just past 32 KiB arrives in the read that goes over the limit, and the request is still refused with `431`. |
| Requests.MalformedRequestLineRefused | src/uwebhost/Hosting/RequestRouter.cs:252-262 | Once the header is in, the request is refused with `400 Malformed request line.` exactly when its first line is blank or holds fewer than three space-separated tokens. |
| Requests.EndOfStreamInBody | src/uwebhost/Hosting/RequestRouter.cs:306-317 | A declared body longer than the bytes buffered plus the bytes still in the stream is refused with `400 Unexpected end of request body.`. Otherwise the body is read. |
| Requests.BodyFollowsHeader | src/uwebhost/Hosting/RequestRouter.cs:244-327 | The body is a prefix of what follows the header, and at least as long as declared. It is longer only when it is exactly the bytes buffered with the header. |
| Requests.ReceivedWithLength | src/uwebhost/Hosting/RequestRouter.cs:292-328 | A received request carries the parsed head and a body that follows the header as `BodyFollowsHeader` says. |
| Requests.ReceivedAfterHeader | src/uwebhost/Hosting/RequestRouter.cs:241-328 | A request received after a header of at most 32 KiB, ending at its first terminator, was read off the front of the stream. |
| Requests.ReceivedFromStream | src/uwebhost/Hosting/RequestRouter.cs:217-330 | Every request the reader returns was read off the front of the stream. Its header is at most 32 KiB and ends at the stream's first blank line, which parses to the request's line and fields. The body follows the header and is at least the declared length. |
| Requests.TerminatorOfPrefix | src/uwebhost/Hosting/RequestRouter.cs:238-242 | The first terminator of the buffer is also the first terminator of the header text that ends with it. |
| Requests.RequestLineSplits | src/uwebhost/Hosting/RequestRouter.cs:258-265 | Three tokens joined by single spaces split back into the method, the target and the version. |
| Requests.FieldParses | src/uwebhost/Hosting/RequestRouter.cs:281-287 | A line `name: value` with a trimmed name and value parses to the folded name and the value. |
| Requests.ContentLengthFieldParses | src/uwebhost/Hosting/RequestRouter.cs:281-293 | The `Content-Length` line parses to the key `Content-Length` is looked up under, and its value. |
| Requests.RequestHeaderTextLines | src/uwebhost/Hosting/RequestRouter.cs:252 | A client's header text splits on CRLF into the request line, the field and the two empty lines of the terminator. |
| Requests.ParseRequestHeaderText | src/uwebhost/Hosting/RequestRouter.cs:252-289 | A client's header text parses to its method, target, path and one field. |
| Requests.RequestHeaderTerminator | src/uwebhost/Hosting/RequestRouter.cs:628-637 | A client's header ends at its first `\r\n\r\n`, whatever body follows it. |
| Requests.TerminatorInPrefix | src/uwebhost/Hosting/RequestRouter.cs:238 | A terminator found in a buffer read off the front of a stream is the stream's first terminator. |
| Requests.RequestHeaderTextIsAscii | src/uwebhost/Hosting/RequestRouter.cs:243 | The header a client writes for tokens is ASCII, so the ASCII decoding reads it back unchanged. |
| Requests.BodyOfExactStream | src/uwebhost/Hosting/RequestRouter.cs:306-321 | With exactly the declared bytes left, the body is all of them. |
| Requests.RoundTripAfterHeader | src/uwebhost/Hosting/RequestRouter.cs:241-328 | After a cleanly parsing header, a body of exactly the declared length is read back unchanged. |
| Requests.ReadRequestRoundTrip | src/uwebhost/Hosting/RequestRouter.cs:217-330 | A request written as request line, `Content-Length` field and body, delivered in any chunks, is read back as exactly that request: method, target, path, headers and body. |
| Response.HeaderFields | src/uwebhost/Hosting/HttpResponseWriter.cs:57-76 | A header has six fields, or seven when a `Location` is given. |
| Response.BuildHeader | src/uwebhost/Hosting/HttpResponseWriter.cs:57-80 | The header built line by line is the ASCII encoding of `HeaderText`: the fields in order, each ended by the platform terminator, then a blank line. |
| Response.AppendLine | src/uwebhost/Hosting/HttpResponseWriter.cs:60-78 | One `Append`/`AppendLine` pair adds exactly one line and its terminator to the lines written so far. |
| Response.LinesAsJoin | src/uwebhost/Hosting/HttpResponseWriter.cs:57-80 | The header lines are the pieces of their text joined by the terminator, with an empty last piece. |
| Response.FieldsHaveNoCarriageReturn | src/uwebhost/Hosting/HttpResponseWriter.cs:57-76 | When status, date, type and location hold no CR, no header field does. |
| Response.HeaderSplitsIntoFields | src/uwebhost/Hosting/HttpResponseWriter.cs:57-80 | Written with CRLF and read back by splitting on CRLF, a header gives exactly its fields and then the two empty pieces of the blank line. |
| Response.LineFeedHeaderHasNoCrLf | src/uwebhost/Hosting/HttpResponseWriter.cs:61-78 | With the Unix `Environment.NewLine`, `\n`, the header holds no CRLF at all. It therefore does not end its lines as section 2.1 of RFC 9112 requires, and a reader that looks for `\r\n\r\n` never finds the end of the header. |
| Response.HeaderEndsWithBlankLine | src/uwebhost/Hosting/HttpResponseWriter.cs:70-78 | Whatever the fields, the header ends with the terminator twice. |
| Response.WriteResponse | src/uwebhost/Hosting/HttpResponseWriter.cs:46-55 | The client receives the header with the body's length, then the body unless the request is HEAD. |
| Response.WriteHtml | src/uwebhost/Hosting/HttpResponseWriter.cs:13-17 | An HTML page is sent as UTF-8 with the HTML type and no `Location`. |
| Response.WriteRedirect | src/uwebhost/Hosting/HttpResponseWriter.cs:19-23 | A redirect is an HTML page with a `Location` field. |
| Response.WriteStatus | src/uwebhost/Hosting/HttpResponseWriter.cs:40-41 | A status page is written like any HTML page. |
| Response.WriteBytes | src/uwebhost/Hosting/HttpResponseWriter.cs:43-44 | A byte body is sent with the caller's type and no `Location`. |
| Response.WriteFile | src/uwebhost/Hosting/HttpResponseWriter.cs:25-38 | A file is sent as `200 OK` with its length, then its bytes unless the request is HEAD. |
| ContentTypes.GetContentType | src/uwebhost/Utilities/ContentTypeProvider.cs:34-45 | A missing or blank extension gives `application/octet-stream`. An extension in the table, ignoring case, gives its entry. Any other gives `application/octet-stream`. |
| ContentTypes.GetContentTypeNonEmpty | src/uwebhost/Utilities/ContentTypeProvider.cs:34-45 | The lookup never yields an empty type. |
| ContentTypes.GetContentTypeIgnoresCase | src/uwebhost/Utilities/ContentTypeProvider.cs:7 | Two extensions that differ only in case get the same type. |
| ContentTypes.KeysFolded | src/uwebhost/Utilities/ContentTypeProvider.cs:7-32 | The table is kept under the case-folded extensions. Every key is a dot and at least one more character, and folding leaves it unchanged. |
| ContentTypes.TableEntries | src/uwebhost/Utilities/ContentTypeProvider.cs:7-45 | Every extension in the table is served as the type the table lists for it. |
| ContentTypes.TableEntriesAnyCase | src/uwebhost/Utilities/ContentTypeProvider.cs:7-45 | An extension that equals a table key ignoring case is served as that key's type. This covers the lower-case spellings the source table lists, such as `.png`. |
| ContentTypes.WebpIsNotListed | src/uwebhost/Utilities/ContentTypeProvider.cs:7-32 | `.webp`, an accepted upload type, has no entry and is served as `application/octet-stream`. |
| Manifests.LoadWithoutManifest | src/uwebhost/Hosting/WebAppManifestLoader.cs:40-54 | Without a manifest, the name is the directory name, the description and image are the defaults, there are no tags, and the URL is `/<escaped directory>/`. |
| Manifests.LoadUsesManifest | src/uwebhost/Hosting/WebAppManifestLoader.cs:40-43 | A manifest's name and description are shown trimmed, and are then visible and trimmed. Blank or missing ones give way to the directory name and the default description. |
| Manifests.LoadRoundTrip | src/uwebhost/Hosting/WebAppManifestLoader.cs:22-55 | Loading is a fixpoint: writing a loaded view back as the manifest and loading it again gives the same view. |
| Manifests.ReloadedName | src/uwebhost/Hosting/WebAppManifestLoader.cs:40 | The shown name, written back as the manifest's name, is shown again unchanged. |
| Manifests.ReloadedDescription | src/uwebhost/Hosting/WebAppManifestLoader.cs:41-43 | The shown description, written back, is shown again unchanged. |
| Manifests.ReloadedImage | src/uwebhost/Hosting/WebAppManifestLoader.cs:44 | The shown image URL, written back, resolves to itself. |
| Manifests.ReloadedTags | src/uwebhost/Hosting/WebAppManifestLoader.cs:45 | The shown tags, written back, normalise to themselves. |
| Manifests.DefaultDescriptionIsVisible | src/uwebhost/Hosting/WebAppManifestLoader.cs:11-13 | The default description is visible and trimmed. |
| Manifests.Visible | src/uwebhost/Hosting/WebAppManifestLoader.cs:65 | The kept tags are exactly the given tags that are present and not blank. |
| Manifests.NormalizeTags | src/uwebhost/Hosting/WebAppManifestLoader.cs:57-70 | No tags gives an empty list. Every tag kept is non-empty and trimmed. |
| Manifests.NormalizeTagsOrdered | src/uwebhost/Hosting/WebAppManifestLoader.cs:67-68 | The tags are in strictly increasing order ignoring case: sorted, and no two equal ignoring case. |
| Manifests.NormalizeTagsSound | src/uwebhost/Hosting/WebAppManifestLoader.cs:64-69 | Every tag kept is the trimmed form of a tag that was given and is not blank. |
| Manifests.NormalizeTagsComplete | src/uwebhost/Hosting/WebAppManifestLoader.cs:64-69 | Every given non-blank tag is kept, up to case. |
| Manifests.NormalizeTagsIdempotent | src/uwebhost/Hosting/WebAppManifestLoader.cs:57-70 | Normalising normalised tags changes nothing. |
| Manifests.VisibleOfPresent | src/uwebhost/Hosting/WebAppManifestLoader.cs:65 | Visible, trimmed tags pass the blank filter unchanged. |
| Manifests.ImageSegments | src/uwebhost/Hosting/WebAppManifestLoader.cs:91-92 | The segments are non-empty and hold no `/` or `\`. |
| Manifests.RelativeImageUnderApp | src/uwebhost/Hosting/WebAppManifestLoader.cs:91-96 | A relative image resolves under the application's address. The rest splits back into the escaped segments, each of which unescapes to the corresponding segment of the image path. |
| Manifests.ResolveImageUrlIdempotent | src/uwebhost/Hosting/WebAppManifestLoader.cs:72-98 | Resolving a resolved image URL gives it back. |
| Manifests.ResolvedIsVisible | src/uwebhost/Hosting/WebAppManifestLoader.cs:79-96 | A non-empty trimmed image resolves to a non-empty, trimmed URL. |
| Manifests.ResolveTrimmedIsFixpoint | src/uwebhost/Hosting/WebAppManifestLoader.cs:79-96 | Resolving the result of resolving a trimmed image gives it back. |
| Manifests.RelativeUrlChars | src/uwebhost/Hosting/WebAppManifestLoader.cs:91-96 | A relative image resolves to a rooted address made only of escaped characters. |
| Manifests.RootedUrlIsFixpoint | src/uwebhost/Hosting/WebAppManifestLoader.cs:86-89 | A rooted address without back-slashes or surrounding white space resolves to itself. |
| Uploads.SanitizeFileName | src/uwebhost/Hosting/UploadManager.cs:135-149 | The sanitised name is non-empty, trimmed, and free of invalid file-name characters. |
| Uploads.SanitizeKeepsPlainName | src/uwebhost/Hosting/UploadManager.cs:135-149 | A trimmed, visible name with no invalid character is kept as it is. |
| Uploads.SanitizeIdempotent | src/uwebhost/Hosting/UploadManager.cs:135-149 | Sanitising twice is sanitising once. |
| Uploads.SanitizeIgnoresDirectory | src/uwebhost/Hosting/UploadManager.cs:137 | Only the last path component counts: a directory part in front changes nothing. |
| Uploads.ReplaceKeepsVisible | src/uwebhost/Hosting/UploadManager.cs:143-146 | Replacing invalid characters by `_` leaves a visible name visible. |
| Uploads.NameWithoutDotIsRejected | src/uwebhost/Hosting/UploadManager.cs:48-53 | A name without `.` has no extension, so the allow-list rejects it. |
| Uploads.DefaultNameIsRejected | src/uwebhost/Hosting/UploadManager.cs:138-141 | The fallback name `image` has no extension and is rejected. |
| Uploads.AllowedExtensionShape | src/uwebhost/Hosting/UploadManager.cs:13 | Every allowed extension is a `.` followed by at least one character, and none holds a separator. |
| Uploads.GenerateIdentifier | src/uwebhost/Hosting/UploadManager.cs:151-158 | The identifier is 64 lower-case hexadecimal digits. They decode to the SHA-256 of the UTF-8 of `appId\|name\|stamp\|guid`. |
| Uploads.StagedFileIsFound | src/uwebhost/Hosting/UploadManager.cs:58-62 | A file staged as `<identifier><extension>` is among the staged files of its identifier, which `PlainIdentifierFinds` shows the search for `<identifier>.*` finds. |
| Uploads.StagedFilesRemove | src/uwebhost/Hosting/UploadManager.cs:74-85 | Deleting one file removes exactly that file from what an identifier finds. |
| Uploads.StageTemporaryUpload | src/uwebhost/Hosting/UploadManager.cs:41-65 | Content over 5 MiB is refused first, then a sanitised extension not on the allow-list. Next, a file at the staging directory's path makes creating it fail, and a directory at the staged file's path makes the write fail; staging succeeds exactly when none of these happens. A failure leaves the files unchanged, and leaves the directories unchanged unless the write failed after the directory was created. A success writes the bytes to `_uploads/<id><ext>`, creates the directory, and returns the identifier, file names and size. |
| Uploads.Store | src/uwebhost/Hosting/UploadManager.cs:55-62 | The staging directory is created unless a file sits at its path. The bytes are then written unless a directory sits at the file's path. The first failing step gives the error, with the runtime's message. |
| Uploads.TryDeleteTemporaryUpload | src/uwebhost/Hosting/UploadManager.cs:67-98 | With no staging directory, nothing is deleted and the result is false. Otherwise the search for `<identifier>.*` decides. When it throws, that exception is the result. When it finds nothing, the result is false. Whenever it finds files, some file is deleted or false is returned, and never an exception. When every file found is deletable, one is deleted. A deletion removes exactly one file the search found, and nothing else changes. |
| Uploads.PromoteTemporaryUpload | src/uwebhost/Hosting/UploadManager.cs:100-133 | A missing staging directory, the search's exception and an empty search come first, then a disallowed extension; each of these leaves the disk unchanged. Then a file at the application directory's path fails the directory creation, and a directory at `<root>/<app>/<sanitised name>` fails the copy, leaving the files unchanged. When neither happens and no file found is locked, the promotion succeeds. Otherwise one file the search found is copied over the destination and then deleted. When it cannot be deleted, the copy stays and the error names the staged file. The URL returned is `/<escaped app>/<escaped name>`. |
| Uploads.CleanTemporaryUploads | src/uwebhost/Hosting/UploadManager.cs:19-39 | Recreating the staging directory fails exactly when a file sits at its path; otherwise the directory exists afterwards. Files are only removed, and no file outside it is removed. When it existed before and nothing below it was locked, no file remains below it. |
| Uploads.SearchFor | src/uwebhost/Hosting/UploadManager.cs:74-76 | The search for `<identifier>.*` throws exactly when the pattern is rooted or a NUL occurs in the pattern or the directory. An identifier without a separator searches the staging directory itself, with the translated pattern. |
| Uploads.FoundUploads | src/uwebhost/Hosting/UploadManager.cs:74-76 | What the search finds are existing files. It fails only with the search's own exceptions: a rooted pattern, a NUL, or a missing search directory. |
| Uploads.AnyRunMatchesAll | src/uwebhost/Hosting/UploadManager.cs:75 | A `*` in the pattern matches every name, the empty one included. |
| Uploads.DotStarTail | src/uwebhost/Hosting/UploadManager.cs:75 | The tail `.*` of the pattern matches the empty rest, or a rest that starts with `.`. |
| Uploads.TranslatePlain | src/uwebhost/Hosting/UploadManager.cs:75 | An identifier without `*` or `?` becomes its own characters, taken literally, followed by the `.*` tail. |
| Uploads.LiteralsPrefix | src/uwebhost/Hosting/UploadManager.cs:75 | Literal characters match a name exactly when the name starts with them and the rest of the pattern matches what follows. |
| Uploads.PlainPatternMatches | src/uwebhost/Hosting/UploadManager.cs:75 | For an identifier without `*` or `?`, the pattern matches exactly the names `MatchesIdentifier` accepts: the identifier alone, or the identifier followed by `.` and anything. |
| Uploads.PlainPatternFiles | src/uwebhost/Hosting/UploadManager.cs:74-76 | For such an identifier, the files found in a directory are exactly its staged files there. |
| Uploads.PlainIdentifierFinds | src/uwebhost/Hosting/UploadManager.cs:74-76 | The search for an identifier without `/`, `*`, `?` or NUL finds exactly that identifier's staged files. |
| Uploads.StarFindsEveryFile | src/uwebhost/Hosting/UploadManager.cs:74-76 | The identifier `*` finds every file in the staging directory, so `DELETE /api/uploads/temp/*` deletes some staged upload that belongs to someone else. |
| Uploads.ParentSearch | src/uwebhost/Hosting/UploadManager.cs:107-109 | The identifier `../<sibling>/<stem>` searches the directory `<sibling>` next to the staging directory, for `<stem>.*`. |
| Uploads.ParentIdentifierSearchesSibling | src/uwebhost/Hosting/UploadManager.cs:107-109 | Such an identifier finds the `<stem>` files of the sibling directory, so a promotion can move a file from outside the staging directory. |
| Uploads.StagingDirectoryOfRoot | src/uwebhost/Hosting/UploadManager.cs:16-17 | For a web root that is already a full path, the staging directory `<root>/_uploads` is a full path too. |
| Uploads.MoveInto | src/uwebhost/Hosting/UploadManager.cs:123-128 | The application directory is created unless a file sits at its path. The staged bytes are then copied over the destination unless it is a directory. The staged file is then deleted exactly when it is not locked; when it is locked, the copy stays. The first failing step gives the error. |
| UriEscaping.Escape | src/uwebhost/Hosting/RequestRouter.cs:642-653 | The escaped text holds only unreserved characters and `%`, so never `/` or `\`. |
| UriEscaping.EscapeUnreserved | src/uwebhost/Hosting/RequestRouter.cs:642-653 | Text made of unreserved characters escapes to itself. |
| UriEscaping.UnescapeNoPercent | src/uwebhost/Hosting/RequestRouter.cs:88 | Text without `%` decodes to itself. |
| UriEscaping.DecodeEscapeChar | src/uwebhost/Hosting/RequestRouter.cs:88 | The escape of one character decodes back to that character. |
| UriEscaping.UnescapeEscape | src/uwebhost/Hosting/RequestRouter.cs:88 | Decoding undoes escaping: `Unescape(Escape(s)) == s`. |
| UriEscaping.EscapeInjective | src/uwebhost/Hosting/WebAppManifestLoader.cs:46 | Two different names never escape to the same text, so application URLs are distinct. |
| Routing.AppIdError | src/uwebhost/Hosting/RequestRouter.cs:574-580 | An identifier is accepted exactly when it is not blank and holds neither `/` nor `\`. Otherwise it is refused with `400 Invalid application identifier.` |
| Routing.CombineUrl | src/uwebhost/Hosting/RequestRouter.cs:642-653 | The link starts with the base path ended by one `/`. It ends with `/` when asked to, and not otherwise. |
| Routing.GetParentUrl | src/uwebhost/Hosting/RequestRouter.cs:655-665 | There is no parent exactly for `/`. A parent ends with `/`. A parent other than `/` is a prefix of the path, shorter than the path without its trailing slashes. |
| Routing.ParentOfCombineUrl | src/uwebhost/Hosting/RequestRouter.cs:642-665 | The parent of a listing link is the listed directory. |
| Routing.CombineUrlName | src/uwebhost/Hosting/RequestRouter.cs:642-653 | The name in a listing link decodes back to the entry's name. |
| Routing.StaticRequest | src/uwebhost/Hosting/RequestRouter.cs:97-119 | A NUL in the combined path makes `GetFullPath` throw, and that is the only way the request is unhandled. Otherwise the result is a status page, a directory or a file. A directory served exists. A file served exists and is not a directory. Either is the decoded path resolved against the root, and starts with the root's full path. |
| Routing.StaticRoute | src/uwebhost/Hosting/RequestRouter.cs:100-119 | The result is a status page exactly when the full path fails the prefix test or names nothing on disk. Otherwise it is the directory or the file. |
| Routing.PageRoute | src/uwebhost/Hosting/RequestRouter.cs:73-119 | Only GET and HEAD are served, ignoring case. The home page is served exactly for `/` and `/index.html`, ignoring case. Any other path goes through the static checks on its decoded form. |
| Routing.Route | src/uwebhost/Hosting/RequestRouter.cs:61-119 | A path with `..` gets `400 Invalid path.` first. A request goes to the API exactly when it has no `..` and starts with `/api/`, ignoring case. Everything else goes to the page checks. |
| Routing.PathBelowRootPasses | src/uwebhost/Hosting/RequestRouter.cs:100-104 | Every path below the root, and the root itself, passes the containment check. |
| Routing.SiblingOfRootPasses | src/uwebhost/Hosting/RequestRouter.cs:100-117 | The containment check is a prefix test on text, so a sibling such as `<root>-old/file` passes it and is served as a file. |
| Routing.NoDotNoParent | src/uwebhost/Hosting/RequestRouter.cs:61 | A path without `.` passes the check for `..`. |
| Routing.EncodedParentPath | src/uwebhost/Hosting/RequestRouter.cs:61-88 | The path `/%2E%2E/<sibling>/<name>` holds no `..`, is not an API or home path, and decodes to `/../<sibling>/<name>`. |
| Routing.GetIsStatic | src/uwebhost/Hosting/RequestRouter.cs:61-98 | A GET of a path that has no `..` and is neither an API nor a home path goes to the static checks with its decoded form. |
| Routing.ParentRequestResolves | src/uwebhost/Hosting/RequestRouter.cs:97-98 | The decoded `/../<sibling>/<name>` is combined below the root and resolves to `<sibling>/<name>` next to the root. |
| Routing.ResolvedFileIsServed | src/uwebhost/Hosting/RequestRouter.cs:97-117 | A decoded path that resolves to an existing file starting with the root's text is served as that file. |
| Routing.EncodedParentReachesSibling | src/uwebhost/Hosting/RequestRouter.cs:61-117 | The raw `..` check runs before decoding. So `GET /%2E%2E/<root name><suffix>/<name>` passes it, and the file next to the web root is served, although it does not lie below the root. |
| Routing.RouteApi | src/uwebhost/Hosting/RequestRouter.cs:332-378 | HEAD is refused with 405. `apps/<id>/manifest` gives GET or POST on a valid identifier, `400` for an invalid one, and `405` for other methods. `uploads/temp` with POST is the upload endpoint. `uploads/temp/<id>` with DELETE is the delete endpoint. Everything else is `404 API endpoint not found.` |
| Routing.ManifestEndpointRouted | src/uwebhost/Hosting/RequestRouter.cs:339-360 | `/api/apps/<id>/manifest` reaches the manifest endpoint for GET and POST. |
| Routing.UploadDeleteRouted | src/uwebhost/Hosting/RequestRouter.cs:362-373 | `/api/uploads/temp/<id>` with DELETE reaches the delete endpoint for that identifier. |
| Routing.EntryNames | src/uwebhost/Hosting/RequestRouter.cs:194-203 | Every listed name is non-blank and holds no separator. |
| Routing.DirectoryPage | src/uwebhost/Hosting/RequestRouter.cs:178-215 | A path without a trailing `/` is redirected to itself plus `/`, before anything else. Then `index.html` is served exactly when it exists. Otherwise a listing is shown with the parent link and one entry per name in each group. |
| Routing.RedirectIsFinal | src/uwebhost/Hosting/RequestRouter.cs:180-184 | Following the redirect reaches the directory without a second redirect. |
| Routing.EntryLinks | src/uwebhost/Hosting/RequestRouter.cs:196-212 | Each link lies directly below the listed path, and its last segment decodes to the entry's name. It ends with `/`, as the shown name does, exactly for a directory. |
| Routing.EntryNamesComplete | src/uwebhost/Hosting/RequestRouter.cs:194-203 | The names listed are exactly the non-blank file names of the enumerated paths. |
| Routing.SortedNamesSpec | src/uwebhost/Hosting/RequestRouter.cs:194-203 | The listing is in ordinal order and is a permutation of the enumerated non-blank names. |
| Routing.EntryNamesPermutation | src/uwebhost/Hosting/RequestRouter.cs:194-203 | Enumerating the same paths in another order gives the same names in another order. |
| Routing.ListingIgnoresEnumerationOrder | src/uwebhost/Hosting/RequestRouter.cs:194-212 | The page does not depend on the order in which the file system enumerates. |
| Routing.ListingShowsEntries | src/uwebhost/Hosting/RequestRouter.cs:194-212 | Entry `k` of each group shows the `k`-th name in ordinal order and links to it below the listed path. It is marked as a directory exactly in the first group. |
| Routing.ListedNameIsPlain | src/uwebhost/Hosting/RequestRouter.cs:196-203 | A listed name is non-empty and holds no separator. |
| Routing.ApplicationsComplete | src/uwebhost/Hosting/RequestRouter.cs:164-171 | An application is listed exactly when some enumerated directory has a non-blank, non-system name and loads to it. |
| Routing.HomeListsApplications | src/uwebhost/Hosting/RequestRouter.cs:162-176 | The home page lists, ordered by display name, the loaded view of every application directory and nothing else. |
| Routing.ListedApplicationIsNoSystemDirectory | src/uwebhost/Hosting/RequestRouter.cs:639-640 | A listed application's directory name is neither blank nor starts with `_` or `.`. |
| Routing.DesiredName | src/uwebhost/Hosting/RequestRouter.cs:479-494 | The name to save under is the payload's name, or `image` when that is blank. |
| Routing.ImagePlanOf | src/uwebhost/Hosting/RequestRouter.cs:474-497 | A `tempId` promotes the staged upload first. Otherwise inline Base64 content is staged. Otherwise there is no new image. |
| Routing.NamelessImageIsRejected | src/uwebhost/Hosting/RequestRouter.cs:479-494 | An image sent without a file name is saved as `image`, which has no extension, so the upload store always refuses it. |
| Routing.BlankToNone | src/uwebhost/Hosting/RequestRouter.cs:451-452 | A blank name or description is dropped, and any other is kept as given. |
| Routing.MergedManifestShown | src/uwebhost/Hosting/RequestRouter.cs:430-456 | After an update, the application shows the request's name and description (defaults where blank, never the old values), the request's tags normalised, and the merged image. |
| Routing.RemoveImageWins | src/uwebhost/Hosting/RequestRouter.cs:434-438 | Removing the image wins over any payload: the manifest keeps no image and the default is shown. |
| Routing.ImageKeptWithoutNewOne | src/uwebhost/Hosting/RequestRouter.cs:433-446 | Without a usable new image the current one stays. A blank result does not erase it. |
| Routing.AppImageTarget | src/uwebhost/Hosting/RequestRouter.cs:584-608 | A file is targeted only for a path under the application's address, compared ignoring case. |
| Routing.DeletesPromotedImage | src/uwebhost/Hosting/RequestRouter.cs:582-620 | The URL of a promoted image targets exactly the file the promotion wrote. |
| Routing.ImageUnderApp | src/uwebhost/Hosting/RequestRouter.cs:590-608 | An application address followed by an escaped name targets that name inside the application directory. |
| Routing.RootedRemainderLeavesApp | src/uwebhost/Hosting/RequestRouter.cs:596-613 | The remainder is decoded before it is combined, so an image path whose rest decodes to a rooted path, such as `%2Fetc%2Fx`, targets that path outside the application directory. This is shown on the model as written. |
| Api.ManifestGetReply | src/uwebhost/Hosting/RequestRouter.cs:380-400 | A missing application directory gives `404` with `{ error }`, and exactly then. Otherwise the reply is `200` with the identifier, whether a manifest exists, and the loaded view: defaults without a manifest, normalised tags with one. |
| Api.TryDeleteAppImage | src/uwebhost/Hosting/RequestRouter.cs:582-620 | The targeted file is deleted when it exists and can be deleted. Otherwise nothing changes. Directories are never touched. |
| Api.ProcessImageUpdate | src/uwebhost/Hosting/RequestRouter.cs:472-509 | No new image leaves the disk unchanged. Invalid Base64 gives `400` and changes nothing, as does content over 5 MiB. A staged image whose copy would land on a directory gives `400` with the copy's error. A success yields the promoted or staged image's URL under the application, for an allowed extension. A nameless image is always refused. Every refusal is a `400` that prefers JSON. |
| Api.HandleManifestPost | src/uwebhost/Hosting/RequestRouter.cs:402-470 | Errors come in this order: empty body, invalid JSON, JSON `null`, missing directory; each leaves the disk unchanged. Removing the image deletes the old image's file and saves no image. Otherwise the image `ProcessImageUpdate` gives is merged in; when promoting it would copy onto a directory, the request is refused with `400` and no manifest is saved. The saved manifest is always `MergedManifest` of the request. |
| Api.HandleUploadPost | src/uwebhost/Hosting/RequestRouter.cs:511-561 | Errors come in this order: empty body, invalid JSON, missing name or content, invalid Base64, store refusal. The reply is `200` exactly when the checks before staging pass and the store can create the staging directory and write the file. It then carries the generated identifier, the sanitised name and the size, and the bytes are staged. A file in the directory's place, or a directory in the file's place, gives `400` with the store's error. Any error leaves the files unchanged. |
| Api.HandleUploadDelete | src/uwebhost/Hosting/RequestRouter.cs:563-572 | A blank identifier is refused. Otherwise there is no reply exactly when the staging directory exists and its search throws; the exception reaches the last handler. Any reply is `200` with `{ deleted }`. When the search finds files and all are deletable, `deleted` is true. A true `deleted` means exactly one file the search found was removed, and otherwise the disk is unchanged. |
| Server.DistinctMultiplicity | src/uwebhost/Hosting/RequestRouter.cs:194-203 | Each element of an enumeration without repeats occurs once. |
| Server.SameElementsSameMultiset | src/uwebhost/Hosting/RequestRouter.cs:194-203 | Two enumerations of the same directory, each without repeats, are permutations of each other. |
| Server.Send | src/uwebhost/Hosting/HttpResponseWriter.cs:13-55 | The bytes written are exactly the answer's bytes: the header, then the body unless HEAD. |
| Server.HandleDirectory | src/uwebhost/Hosting/RequestRouter.cs:178-215 | For every way the file system can enumerate the directory, the answer is the redirect, `index.html` or the ordered listing. The disk is unchanged. |
| Server.HandleHome | src/uwebhost/Hosting/RequestRouter.cs:162-176 | The home page lists the applications of some enumeration of the root, or none when the root does not exist. |
| Server.RunApi | src/uwebhost/Hosting/RequestRouter.cs:332-378 | The reply meets `ApiReplyMeets` for the route and the disk before the call. A refused route answers with its error, and GET with the loaded manifest view. A POST to a missing application is not `200`, and a `200` POST carries the loaded view of a manifest. An empty body is refused. A delete refuses exactly a blank identifier, and otherwise answers with `{ deleted }`. It gives no reply exactly when the search throws. GET and a refused route change nothing. |
| Server.Serve | src/uwebhost/Hosting/RequestRouter.cs:59-160 | The answer is the status page, file, directory or home page that `Route` picks. For the API it is the JSON of a reply that meets `ApiReplyMeets`, or nothing when the endpoint throws. A NUL in the resolved path throws an exception that is only logged, so nothing is written. The bytes written are that answer's, and only the API changes the disk. |
| Server.HandleClient | src/uwebhost/Hosting/RequestRouter.cs:49-160 | With no request, nothing is written. A request the reader refused is answered with its error (JSON or status page) and the disk is unchanged. A received request is answered with the bytes of the answer that `Serve` returns. |
| FileSystems.FileSystem.GetDirectories | src/uwebhost/Hosting/RequestRouter.cs:194 | It enumerates each directory directly inside once, in some order. |
| FileSystems.FileSystem.GetFiles | src/uwebhost/Hosting/RequestRouter.cs:199 | It enumerates each file directly inside once, in some order. |
| FileSystems.FileSystem.Delete | src/uwebhost/Hosting/UploadManager.cs:85 | A deletion succeeds exactly when the file is not locked, and then removes only that file. |
| FileSystems.FileSystem.DeleteTree | src/uwebhost/Hosting/UploadManager.cs:26 | Every deletable file below the directory goes. The directory tree goes only when nothing below it is locked. |
| FileSystems.FileSystem.CreateDirectory | src/uwebhost/Hosting/UploadManager.cs:56 | Creating a directory fails exactly when a file sits at its path, and otherwise adds it. |
| FileSystems.FileSystem.WriteAllBytes | src/uwebhost/Hosting/UploadManager.cs:62 | Writing fails exactly when the path is a directory, and otherwise sets that file's bytes. |
| FileSystems.FileSystem.Copy | src/uwebhost/Hosting/UploadManager.cs:127 | Copying fails exactly when the destination is a directory, and otherwise gives the destination the source's bytes. |
| Paths.Combine | src/uwebhost/Hosting/UploadManager.cs:17 | Two non-empty relative parts are joined with exactly one `/`. |
| Paths.GetExtension | src/uwebhost/Hosting/UploadManager.cs:49 | The extension is empty, or a `.` followed by at least one character with no further `.` or separator. It is a suffix of the path. |
| Paths.FileNameOfCombine | src/uwebhost/Hosting/UploadManager.cs:126 | The file name of a combined path is the name combined in. |
| Paths.FullPath | src/uwebhost/Hosting/RequestRouter.cs:98 | A full path is rooted. |
| Paths.FullPathHasNoDotSegments | src/uwebhost/Hosting/RequestRouter.cs:98 | No segment of a full path is `.` or `..`. |
| Paths.FullPathStaysBelow | src/uwebhost/Hosting/RequestRouter.cs:98 | A relative path without a `..` segment resolves to the working directory or below it. |
| Paths.ParentOfRootIsSibling | src/uwebhost/Hosting/RequestRouter.cs:98 | `<root>/../<sibling>/<name>` resolves to `<sibling>/<name>` next to the root. |
| Paths.SiblingExtendsRoot | src/uwebhost/Hosting/RequestRouter.cs:100 | A sibling named `<root name><suffix>` has the root's text as a prefix, not followed by a separator. |
| Paths.GetDirectoryName | src/uwebhost/Hosting/UploadManager.cs:75 | The directory part of a path is a prefix of it. It is empty for a path without a separator. For a relative path with a separator, it is non-empty, ends before a separator, and does not end with one itself. |
| Paths.DirectoryNameOf | src/uwebhost/Hosting/UploadManager.cs:75 | The directory part of `<dir>/<name>` is `<dir>`. |
| Paths.ParentThenSegment | src/uwebhost/Hosting/UploadManager.cs:75 | `<dir>/../<sibling>` resolves to `<sibling>` next to `<dir>`. |
| Text.IndexOf | src/uwebhost/Hosting/RequestRouter.cs:628-637 | The result is -1 exactly when there is no occurrence. Otherwise it is the first occurrence. |
| Text.TrimEmptyIffBlank | src/uwebhost/Hosting/WebAppManifestLoader.cs:40 | `Trim` yields the empty string exactly for blank input. |
| Text.TrimIdempotent | src/uwebhost/Hosting/WebAppManifestLoader.cs:66 | Trimming is idempotent. |
| Text.JoinSplit | src/uwebhost/Hosting/RequestRouter.cs:266 | Splitting on a separator and joining with it again gives the text back. |
| Text.SplitOnJoin | src/uwebhost/Hosting/RequestRouter.cs:252 | Joining lines with CRLF and splitting on it gives the lines back. |
| Text.JoinSplitOn | src/uwebhost/Hosting/RequestRouter.cs:252 | Splitting on CRLF and joining again gives the text back. |
| Ordering.SortBySorted | src/uwebhost/Hosting/WebAppManifestLoader.cs:68 | `OrderBy` returns its input in key order. It is a permutation by its own contract. |
| Ordering.SortedByIdentityUnique | src/uwebhost/Hosting/RequestRouter.cs:194-203 | Two sorted lists with the same elements are the same list. |
| Ordering.DistinctByKeepsFirst | src/uwebhost/Hosting/WebAppManifestLoader.cs:67 | `Distinct` keeps the first element of every key. |
| Ordering.DistinctByIdentity | src/uwebhost/Hosting/WebAppManifestLoader.cs:67 | On input with pairwise different keys, `Distinct` changes nothing. |
| Encoding.AsciiRoundTrip | src/uwebhost/Hosting/RequestRouter.cs:243 | ASCII text survives encoding and decoding unchanged. |
| Encoding.Utf8OfAscii | src/uwebhost/Hosting/HttpResponseWriter.cs:13-17 | For ASCII text, the UTF-8 and ASCII encodings coincide. |
| Encoding.LowerHexDecodes | src/uwebhost/Hosting/UploadManager.cs:157 | The lower-cased hexadecimal form of the digest decodes back to it. |
| Encoding.DecimalRoundTrip | src/uwebhost/Hosting/HttpResponseWriter.cs:67 | The length the framer writes reads back as the same number through `int.TryParse`. |
| Encoding.ParseInt32IgnoresTrailingNuls | src/uwebhost/Hosting/RequestRouter.cs:296 | NUL characters after a number do not change what `int.TryParse` reads. |

## Left out

- Sockets, `TcpClient`, cancellation tokens, `ArrayPool` renting and disposal are left out. A connection is the list of chunks the client sends, plus the bytes written back.
- Concurrency between clients and `WebServer`'s accept loop are left out. The model handles one request against one disk state.
- The wall clock, `Guid.NewGuid`, SHA-256, the JSON serialiser, Base64 decoding, `Uri.TryCreate` and `PageRenderer` are parameters. The model states what is done with their results, not how they are computed.
- Reading `manifest.json` is a parameter, `manifestAt`. `WebAppManifestLoader.ReadManifest`, `SaveManifest` and the `Load` overload with `hasManifest` are called by the router but not defined in `WebAppManifestLoader.cs`. The POST handler takes the current manifest as a parameter and returns the manifest it would save; writing the file is not modelled.
- `Api.HandleManifestPost`: the reply is built from the merged manifest directly, on the assumption that re-reading the saved file returns it.
- `Server.RunApi`: for a successful POST, it states only that the reply is the loaded view of some manifest. The merged manifest's contents are stated by `Api.HandleManifestPost`. For the upload endpoints, the file effects are stated by `Api.HandleUploadPost` and `Api.HandleUploadDelete`.
- `Api.ProcessImageUpdate`: the file effects of a promotion or staging are stated by `Uploads.PromoteTemporaryUpload` and `Uploads.StageTemporaryUpload`, not repeated in its own contract.
- `Server.HandleClient`: for a received request, it states the bytes written through `Serve`'s answer rather than repeating `Serve`'s per-route contract.
- `UriEscaping.Unescape` never fails. Malformed escapes are left as they are, so the `400 Unable to decode request path.` branch is never taken.
- Generic exceptions are only logged, and nothing is written. The ones the model's inputs can cause are modelled as a silent answer: a NUL in the static path, and a failed search for a staged upload on delete. Others are left out: an I/O failure while serving a file, and a second failure while writing an error. A failure to delete a locked file is modelled, through the file system's locked set.
- Windows paths, `\` as separator and case-insensitive path comparison are left out. The platform is Unix.
- `Encoding.ParseInt32` reads digits, an optional sign, surrounding white space and trailing NULs as the invariant culture does. `int.TryParse(string, out int)` uses the current culture. A culture with a different sign symbol, such as U+2212 for minus, is not modelled.
- Case folding covers ASCII letters only. Ordinal-ignore-case comparison of non-ASCII letters is not modelled.
- `Requests.ReadRequestRoundTrip`: stated only for a request whose header and body together fit in 32 KiB. A larger body still arrives, but the proof covers only the case where the header loop can read everything without reaching the limit.
- The file system is keyed by path text. Symbolic links, and two spellings of one file, are not modelled.
- The Date header's value is a parameter. Its RFC 1123 format is not checked.
- `BrowserLauncher`, `HostingOptions`, `Program` and `TemplateProvider` are not part of this model.
- The exception messages for a rooted pattern, a NUL, a missing search directory, a file in a directory's place and a refused write, copy or delete follow the .NET runtime's resource strings, with the path as the model writes it. They reach a client through the `400` replies of the image update and the upload.
- `Uploads.PromoteTemporaryUpload`: only the failures that follow from the disk's shape are modelled: a file where the application directory goes, a directory where the copy goes, and a staged file that cannot be deleted. A copy refused for lack of permission or space is not modelled. Neither is a copy of a file onto itself, which an identifier with a directory part can reach.
- `Uploads.StageTemporaryUpload`: as for promotion, a write refused for lack of permission or space is not modelled. Neither is a file at a parent of the staging directory.
- `Uploads.MoveInto`: the same gaps as `Uploads.PromoteTemporaryUpload`.
- `Api.HandleUploadPost`: the same gaps as `Uploads.StageTemporaryUpload`. Each of them would answer `400` with the I/O exception's message.
- `FileSystems.FileSystem.CreateDirectory` adds only the directory it is given. `Directory.CreateDirectory` also creates missing parents, such as a web root that does not exist yet. No answer of the model depends on those parents.
- Names are ordered by comparing characters, which are Unicode scalar values. .NET's ordinal comparison compares UTF-16 code units. So a name with a character above U+FFFF sorts after one with a character in U+E000 to U+FFFF here, but before it in the program. This affects directory listings and the home page.
- Pattern matching is case-sensitive, as on Linux. The case-insensitive matching of other platforms is not modelled.
- A file the search finds is named by its full path in the file system, not by the text `EnumerateFiles` joins it from. The two name the same file.
- The web root is taken as the text the server is given. A root that is not already a full path is compared with its full path, as in the code; the lemmas about siblings use a root that is a full path.
