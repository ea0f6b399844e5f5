/** `UploadManager`: the staging store for uploaded images. An upload is
    staged as `<root>/_uploads/<identifier><extension>`, later promoted (copied
    into an application directory under its sanitised name and removed from
    staging), deleted, or purged with the whole staging directory. */
module Uploads {
  import opened Wrappers
  import opened Encoding
  import opened Text
  import opened Paths
  import opened FileSystems
  import UriEscaping

  const TemporaryDirectoryName := "_uploads"
  const AllowedImageExtensions: seq<string> := [".png", ".jpg", ".jpeg", ".gif", ".webp", ".svg"]
  const MaxUploadBytes := 5 * 1024 * 1024
  /** The name a blank file name is replaced by. */
  const DefaultFileName := "image"

  /** A SHA-256 digest. */
  type Digest = b: seq<byte> | |b| == 32 witness seq(32, _ => 0)

  datatype UploadError =
    | TooLarge
    | UnsupportedType(extension: string)
    | NotFound
    /** `UnauthorizedAccessException` of `File.Delete`: the staged file could not be removed
        after it was copied. */
    | StagedFileNotDeleted(path: string)
    /** `IOException` of `Directory.CreateDirectory`: a file sits where the directory is to be. */
    | FileInTheWay(path: string)
    /** `UnauthorizedAccessException` of `File.WriteAllBytes` or `File.Copy`: the target is a directory. */
    | TargetIsDirectory(path: string)
    /** `ArgumentException`: the search pattern is a rooted path. */
    | PatternRooted
    /** `ArgumentException`: a NUL in the search pattern or directory. */
    | NulInPath(path: string)
    /** `DirectoryNotFoundException`: the directory the search pattern leads to does not exist. */
    | SearchDirectoryMissing(path: string)

  datatype Outcome<T> = Ok(value: T) | Fail(error: UploadError)

  /** `TemporaryUpload`. */
  datatype TemporaryUpload = TemporaryUpload(identifier: string, tempFileName: string, originalFileName: string, sizeBytes: nat)

  /** The exception message each error carries; the router returns it to the client. */
  function Message(e: UploadError): string
  {
    match e
    case TooLarge => "Images larger than 5 MB are not permitted."
    case UnsupportedType(ext) => "Unsupported image type '" + ext + "'."
    case NotFound => "Temporary upload was not found."
    case StagedFileNotDeleted(path) => "Access to the path '" + path + "' is denied."
    case FileInTheWay(path) => "The file '" + path + "' already exists."
    case TargetIsDirectory(path) => "Access to the path '" + path + "' is denied."
    case PatternRooted => "Second path fragment must not be a drive or UNC name. (Parameter 'expression')"
    case NulInPath(path) => "Null character in path. (Parameter '" + path + "')"
    case SearchDirectoryMissing(path) => "Could not find a part of the path '" + path + "'."
  }

  /** `GetTemporaryUploadsDirectory`. */
  function TemporaryUploadsDirectory(root: string): string
  {
    Combine(root, TemporaryDirectoryName)
  }

  // ---------------------------------------------------------------------
  // File names

  /** `SanitizeFileName`: the last path component, with every invalid file-name
      character replaced by `_` and white space trimmed; `image` when that component is blank. */
  function SanitizeFileName(fileName: string): (r: string)
    ensures r != [] && IsTrimmed(r)
    ensures NoneOf(r, InvalidFileNameChars)
  {
    var candidate := GetFileName(fileName);
    if IsBlank(candidate) then DefaultFileName
    else
      var replaced := ReplaceAll(candidate, InvalidFileNameChars, '_');
      ReplaceKeepsVisible(candidate, InvalidFileNameChars, '_');
      TrimEmptyIffBlank(replaced);
      TrimIdempotent(replaced);
      TrimKeepsCharacters(replaced);
      Trim(replaced)
  }

  /** Replacing characters by a visible one leaves visible text visible. */
  lemma ReplaceKeepsVisible(s: string, chars: set<char>, with: char)
    requires with !in chars && !IsWhiteSpace(with) && !IsBlank(s)
    ensures !IsBlank(ReplaceAll(s, chars, with))
  {
    var k :| 0 <= k < |s| && !IsWhiteSpace(s[k]);
    assert !IsWhiteSpace(ReplaceAll(s, chars, with)[k]);
  }

  /** A name with no separator is its own last component. */
  lemma FileNameOfPlainName(name: string)
    requires Separator !in name
    ensures GetFileName(name) == name
  {
  }

  /** A name that is already trimmed, visible and free of invalid characters is kept as it is. */
  lemma SanitizeKeepsPlainName(name: string)
    requires name != [] && IsTrimmed(name) && NoneOf(name, InvalidFileNameChars)
    ensures SanitizeFileName(name) == name
  {
    assert '/' in InvalidFileNameChars;
    assert forall i :: 0 <= i < |name| ==> name[i] != Separator;
    FileNameOfPlainName(name);
    assert !IsWhiteSpace(name[0]);
    assert ReplaceAll(name, InvalidFileNameChars, '_') == name;
    TrimmedIsFixpoint(name);
  }

  /** Sanitising is idempotent. */
  lemma SanitizeIdempotent(fileName: string)
    ensures SanitizeFileName(SanitizeFileName(fileName)) == SanitizeFileName(fileName)
  {
    SanitizeKeepsPlainName(SanitizeFileName(fileName));
  }

  /** Only the last path component counts: a directory part in front changes nothing. */
  lemma SanitizeIgnoresDirectory(dir: string, name: string)
    requires Separator !in name
    ensures SanitizeFileName(dir + "/" + name) == SanitizeFileName(name)
  {
    var p := dir + "/" + name;
    assert p[|dir|] == Separator;
    assert forall k :: |dir| < k < |p| ==> p[k] == name[k - |dir| - 1];
    assert p[|dir| + 1..] == name;
    FileNameOfPlainName(name);
  }

  /** The lower-cased extension the allow-list is checked against. */
  function ImageExtension(fileName: string): string
  {
    Lower(GetExtension(SanitizeFileName(fileName)))
  }

  predicate IsAllowedExtension(ext: string) {
    ext in AllowedImageExtensions
  }

  /** A name without a `.` has no extension once sanitised, so the allow-list rejects it. */
  lemma NameWithoutDotIsRejected(fileName: string)
    requires '.' !in fileName
    ensures ImageExtension(fileName) == []
    ensures !IsAllowedExtension(ImageExtension(fileName))
  {
    SanitizedHasNoDot(fileName);
    NoDotNoExtension(SanitizeFileName(fileName));
    assert Lower([]) == [];
  }

  /** The default name `image` is such a name: it is rejected. */
  lemma DefaultNameIsRejected(name: string)
    requires name == DefaultFileName
    ensures ImageExtension(name) == [] && !IsAllowedExtension(ImageExtension(name))
  {
    assert '.' !in name;
    NameWithoutDotIsRejected(name);
  }

  /** Sanitising brings in no `.`. */
  lemma SanitizedHasNoDot(fileName: string)
    requires '.' !in fileName
    ensures '.' !in SanitizeFileName(fileName)
  {
    var candidate := GetFileName(fileName);
    if IsBlank(candidate) {
      assert SanitizeFileName(fileName) == DefaultFileName;
    } else {
      assert forall k :: 0 <= k < |candidate| ==> candidate[k] == fileName[|fileName| - |candidate| + k];
      var replaced := ReplaceAll(candidate, InvalidFileNameChars, '_');
      assert '.' !in replaced;
      TrimKeepsCharacters(replaced);
    }
  }

  /** A name without a `.` has no extension. */
  lemma NoDotNoExtension(p: string)
    requires '.' !in p
    ensures GetExtension(p) == []
  {
    var name := GetFileName(p);
    assert forall k :: 0 <= k < |name| ==> name[k] == p[|p| - |name| + k];
    assert '.' !in name;
  }

  /** Every allowed extension is a `.` followed by at least one character, none a separator. */
  lemma AllowedExtensionShape(ext: string)
    requires IsAllowedExtension(ext)
    ensures |ext| >= 2 && ext[0] == '.' && Separator !in ext
  {
    var i :| 0 <= i < |AllowedImageExtensions| && AllowedImageExtensions[i] == ext;
    assert i in {0, 1, 2, 3, 4, 5};
  }

  // ---------------------------------------------------------------------
  // Identifiers

  /** The text hashed into an identifier: app, name, time stamp and a fresh GUID. */
  function IdentifierInput(sanitizedFileName: string, appId: Option<string>, stamp: string, guid: string): string
  {
    (if appId.Some? then appId.value else "") + "|" + sanitizedFileName + "|" + stamp + "|" + guid
  }

  /** `GenerateIdentifier`: the SHA-256 of the input, as lower-case hexadecimal. The hash,
      the clock (`stamp`) and `Guid.NewGuid` (`guid`) are parameters. */
  function GenerateIdentifier(sanitizedFileName: string, appId: Option<string>, stamp: string, guid: string,
                              sha256: seq<byte> -> Digest): (id: string)
    ensures |id| == 64 && IsLowerHex(id)
    ensures HexDecode(id) == sha256(Utf8(IdentifierInput(sanitizedFileName, appId, stamp, guid)))
  {
    var digest := sha256(Utf8(IdentifierInput(sanitizedFileName, appId, stamp, guid)));
    LowerHexRoundTrip(digest);
    Lower(HexUpper(digest))
  }

  // ---------------------------------------------------------------------
  // The search `Directory.EnumerateFiles(tempDirectory, identifier + ".*")` makes

  /** One element of a search pattern as .NET matches it: a character that must appear as
      it is; `*`, any run of characters; `DOS_STAR`, any run that does not end past the
      name's last `.`; `DOS_QM` (from `?`), one character, or none at a `.` or at the end;
      `DOS_DOT` (from a `.` before `?` or `*`), a `.`, or nothing at the end. */
  datatype Token = Literal(c: char) | AnyRun | DosStar | DosQm | DosDot

  /** `FileSystemName.TranslateWin32Expression` of a pattern, after the escaping .NET does on
      Unix, where `\`, `"`, `<` and `>` stay literal characters. An empty pattern, `.` and
      `*.*` all mean `*`. */
  function Translate(expression: string): (tokens: seq<Token>)
    ensures expression == "*.*" ==> tokens == [AnyRun]
  {
    if expression == [] || expression == "." || expression == "*.*" then [AnyRun] else TranslateFrom(expression)
  }

  /** The translation character by character: `*.` at the end becomes `DOS_STAR`. */
  function TranslateFrom(e: string): (tokens: seq<Token>)
    ensures |tokens| <= |e|
  {
    if e == [] then []
    else if e == "*." then [DosStar]
    else
      var t := if e[0] == '*' then AnyRun
               else if e[0] == '?' then DosQm
               else if e[0] == '.' && |e| > 1 && (e[1] == '?' || e[1] == '*') then DosDot
               else Literal(e[0]);
      [t] + TranslateFrom(e[1..])
  }

  /** `FileSystemName.MatchesWin32Expression`, case-sensitive as on Linux: the name is in the
      language of the tokens. */
  predicate Matches(tokens: seq<Token>, name: string)
    decreases |tokens| + |name|
  {
    if tokens == [] then name == []
    else
      match tokens[0]
      case Literal(c) => name != [] && name[0] == c && Matches(tokens[1..], name[1..])
      case AnyRun => Matches(tokens[1..], name) || (name != [] && Matches(tokens, name[1..]))
      case DosStar =>
        Matches(tokens[1..], name) || (name != [] && (name[0] != '.' || '.' in name[1..]) && Matches(tokens, name[1..]))
      case DosQm => if name == [] || name[0] == '.' then Matches(tokens[1..], name) else Matches(tokens[1..], name[1..])
      case DosDot => if name == [] then Matches(tokens[1..], name) else name[0] == '.' && Matches(tokens[1..], name[1..])
  }

  /** Where the enumeration looks, and the tokens names there are matched against. */
  datatype Search = Search(directory: string, tokens: seq<Token>)

  /** `FileSystemEnumerableFactory.NormalizeInputs` on the pattern `identifier.*`: a rooted
      pattern, and a NUL in the pattern or the directory, throw `ArgumentException`. A
      directory part of the pattern is joined to the staging directory, and the enumerator
      makes that a full path; the rest of the pattern is matched. */
  function SearchFor(tempDirectory: string, cwd: string, identifier: string): (r: Outcome<Search>)
    ensures r.Fail? <==> IsRooted(identifier + ".*") || '\0' in identifier || '\0' in tempDirectory
    ensures r.Fail? ==> r.error.PatternRooted? || r.error.NulInPath?
    ensures r.Ok? && Separator !in identifier ==> r.value == Search(tempDirectory, Translate(identifier + ".*"))
  {
    var pattern := identifier + ".*";
    if IsRooted(pattern) then Fail(PatternRooted)
    else if '\0' in pattern then Fail(NulInPath(pattern))
    else if '\0' in tempDirectory then Fail(NulInPath(tempDirectory))
    else
      var directoryName := GetDirectoryName(pattern);
      if directoryName == [] then Ok(Search(tempDirectory, Translate(pattern)))
      else Ok(Search(FullPath(cwd, Combine(tempDirectory, directoryName)), Translate(pattern[|directoryName| + 1..])))
  }

  /** The files directly in `dir` whose names the tokens match. */
  function FilesMatching(files: map<string, seq<byte>>, dir: string, tokens: seq<Token>): set<string>
  {
    var base := if EndsWithChar(dir, Separator) then dir[..|dir| - 1] else dir;
    set p | p in files && DirectlyIn(p, base) && Matches(tokens, p[|base| + 1..])
  }

  /** What `EnumerateFiles(tempDirectory, identifier + ".*")` finds, or the exception it
      throws: `DirectoryNotFoundException` when the directory it searches does not exist. */
  function FoundUploads(files: map<string, seq<byte>>, dirs: set<string>, tempDirectory: string, cwd: string,
                        identifier: string): (r: Outcome<set<string>>)
    ensures r.Ok? ==> r.value <= files.Keys
    ensures r.Fail? ==> r.error.PatternRooted? || r.error.NulInPath? || r.error.SearchDirectoryMissing?
  {
    var search := SearchFor(tempDirectory, cwd, identifier);
    if search.Fail? then Fail(search.error)
    else if !DirectoryExists(dirs, search.value.directory) then Fail(SearchDirectoryMissing(search.value.directory))
    else Ok(FilesMatching(files, search.value.directory, search.value.tokens))
  }

  /** The reference for a plain identifier: the files directly in `dir` named the identifier,
      or the identifier, a `.` and anything. */
  predicate MatchesIdentifier(name: string, identifier: string) {
    name == identifier || StartsWith(name, identifier + ".")
  }

  function StagedFiles(files: map<string, seq<byte>>, dir: string, identifier: string): set<string>
  {
    set p | p in files && DirectlyIn(p, dir) && MatchesIdentifier(p[|dir| + 1..], identifier)
  }

  /** An identifier with no separator, wildcard or NUL. */
  predicate IsPlainIdentifier(identifier: string) {
    Separator !in identifier && '*' !in identifier && '?' !in identifier && '\0' !in identifier
  }

  /** The tokens that match a text character for character. */
  function Literals(s: string): (tokens: seq<Token>)
    ensures |tokens| == |s| && forall k :: 0 <= k < |s| ==> tokens[k] == Literal(s[k])
  {
    seq(|s|, k requires 0 <= k < |s| => Literal(s[k]))
  }

  /** `*` matches every name. */
  lemma {:induction false} AnyRunMatchesAll(name: string)
    ensures Matches([AnyRun], name)
    decreases |name|
  {
    if name != [] {
      AnyRunMatchesAll(name[1..]);
    }
  }

  /** The translated ending `.*` matches nothing after the identifier, or a `.` and anything. */
  lemma DotStarTail(rest: string)
    ensures Matches([DosDot, AnyRun], rest) <==> rest == [] || rest[0] == '.'
  {
    assert [DosDot, AnyRun][1..] == [AnyRun] && [AnyRun][1..] == [];
    if rest == [] {
      assert Matches([AnyRun], rest);
    } else if rest[0] == '.' {
      AnyRunMatchesAll(rest[1..]);
    }
  }

  /** Without wildcards, `identifier.*` translates to the identifier's characters, `DOS_DOT` and `*`. */
  lemma {:induction false} TranslatePlain(identifier: string)
    requires '*' !in identifier && '?' !in identifier
    ensures TranslateFrom(identifier + ".*") == Literals(identifier) + [DosDot, AnyRun]
    decreases |identifier|
  {
    var e := identifier + ".*";
    if identifier == [] {
      assert e == ".*" && e[1..] == "*" && TranslateFrom("*"[1..]) == [];
    } else {
      assert e[0] == identifier[0] && e[1..] == identifier[1..] + ".*";
      assert |e| > 1 && e[1] != '?' && e[1] != '*' by {
        if |identifier| > 1 {
          assert e[1] == identifier[1];
        }
      }
      assert TranslateFrom(e) == [Literal(identifier[0])] + TranslateFrom(e[1..]);
      var rest := identifier[1..];
      assert '*' !in rest && '?' !in rest by {
        assert forall k :: 0 <= k < |rest| ==> rest[k] == identifier[k + 1];
      }
      TranslatePlain(rest);
      assert [Literal(identifier[0])] + Literals(rest) == Literals(identifier);
    }
  }

  /** Literal tokens in front match exactly the names that start with those characters. */
  lemma {:induction false} LiteralsPrefix(s: string, rest: seq<Token>, name: string)
    ensures Matches(Literals(s) + rest, name) <==> StartsWith(name, s) && Matches(rest, name[|s|..])
    decreases |s|
  {
    if s == [] {
      assert Literals(s) + rest == rest;
    } else {
      var tokens := Literals(s) + rest;
      assert tokens[0] == Literal(s[0]) && tokens[1..] == Literals(s[1..]) + rest;
      if name != [] && name[0] == s[0] {
        LiteralsPrefix(s[1..], rest, name[1..]);
        if |s| <= |name| {
          assert name[1..][|s| - 1..] == name[|s|..];
          assert name[..|s|] == [name[0]] + name[1..][..|s| - 1];
          assert s == [s[0]] + s[1..];
        }
      } else if |s| <= |name| {
        assert name[..|s|][0] == name[0];
      }
    }
  }

  /** A character that is neither in the identifier nor in `.*` is not in the pattern. */
  lemma NotInPattern(identifier: string, c: char)
    requires c !in identifier && c != '.' && c != '*'
    ensures c !in identifier + ".*"
  {
  }

  /** For an identifier without wildcards the pattern `identifier.*` matches exactly the names
      `MatchesIdentifier` describes. */
  lemma PlainPatternMatches(identifier: string, name: string)
    requires '*' !in identifier && '?' !in identifier
    ensures Matches(Translate(identifier + ".*"), name) <==> MatchesIdentifier(name, identifier)
  {
    var e := identifier + ".*";
    assert e != [] && e != "." && e != "*.*" by {
      assert e[|e| - 1] == '*';
      if |identifier| == 1 {
        assert e[0] == identifier[0];
      }
    }
    TranslatePlain(identifier);
    LiteralsPrefix(identifier, [DosDot, AnyRun], name);
    if StartsWith(name, identifier) {
      var rest := name[|identifier|..];
      DotStarTail(rest);
      assert name == identifier + rest;
      assert StartsWith(name, identifier + ".") <==> rest != [] && rest[0] == '.' by {
        if rest != [] {
          assert name[..|identifier| + 1] == identifier + [rest[0]];
        }
      }
    } else {
      assert name != identifier;
      assert !StartsWith(name, identifier + ".") by {
        if |identifier + "."| <= |name| {
          assert name[..|identifier|] == name[..|identifier| + 1][..|identifier|];
          assert (identifier + ".")[..|identifier|] == identifier;
        }
      }
    }
  }

  /** The files a plain identifier's pattern matches in a directory are the files named after it. */
  lemma PlainPatternFiles(files: map<string, seq<byte>>, dir: string, identifier: string)
    requires '*' !in identifier && '?' !in identifier && !EndsWithChar(dir, Separator)
    ensures FilesMatching(files, dir, Translate(identifier + ".*")) == StagedFiles(files, dir, identifier)
  {
    forall p | p in files && DirectlyIn(p, dir)
      ensures Matches(Translate(identifier + ".*"), p[|dir| + 1..]) <==> MatchesIdentifier(p[|dir| + 1..], identifier)
    {
      PlainPatternMatches(identifier, p[|dir| + 1..]);
    }
  }

  /** A plain identifier searches the staging directory itself and finds exactly the files
      named after it: the search pattern then does what its text suggests. */
  lemma PlainIdentifierFinds(files: map<string, seq<byte>>, dirs: set<string>, tempDirectory: string, cwd: string,
                             identifier: string)
    requires IsPlainIdentifier(identifier) && '\0' !in tempDirectory
    requires !EndsWithChar(tempDirectory, Separator) && tempDirectory in dirs
    ensures FoundUploads(files, dirs, tempDirectory, cwd, identifier) == Ok(StagedFiles(files, tempDirectory, identifier))
  {
    var pattern := identifier + ".*";
    NotInPattern(identifier, Separator);
    NotInPattern(identifier, '\0');
    assert !IsRooted(pattern) by {
      assert pattern[0] in pattern;
    }
    var search := SearchFor(tempDirectory, cwd, identifier);
    assert search == Ok(Search(tempDirectory, Translate(pattern)));
    assert DirectoryExists(dirs, tempDirectory);
    PlainPatternFiles(files, tempDirectory, identifier);
  }

  /** The identifier `*` makes the pattern `*.*`, which finds every file in the staging
      directory, whatever it is called. */
  lemma StarFindsEveryFile(files: map<string, seq<byte>>, dirs: set<string>, tempDirectory: string, cwd: string)
    requires '\0' !in tempDirectory && !EndsWithChar(tempDirectory, Separator) && tempDirectory in dirs
    ensures FoundUploads(files, dirs, tempDirectory, cwd, "*") == Ok(set p | p in files && DirectlyIn(p, tempDirectory))
  {
    var pattern := "*" + ".*";
    assert pattern == "*.*" && pattern[0] == '*';
    assert Separator !in pattern && '\0' !in pattern;
    var search := SearchFor(tempDirectory, cwd, "*");
    assert search == Ok(Search(tempDirectory, [AnyRun]));
    assert DirectoryExists(dirs, tempDirectory);
    var every := set p | p in files && DirectlyIn(p, tempDirectory);
    forall p | p in every
      ensures Matches([AnyRun], p[|tempDirectory| + 1..])
    {
      AnyRunMatchesAll(p[|tempDirectory| + 1..]);
    }
    assert FilesMatching(files, tempDirectory, [AnyRun]) == every;
  }

  /** The text of the pattern `../<sibling>/<stem>.*`: its directory part is `../<sibling>`. */
  lemma ParentPatternText(sibling: string, stem: string)
    requires IsPlainSegment(sibling) && IsPlainIdentifier(stem) && '\0' !in sibling
    ensures var pattern := "../" + sibling + "/" + stem + ".*";
            !IsRooted(pattern) && '\0' !in pattern
            && GetDirectoryName(pattern) == "../" + sibling
            && pattern[|"../" + sibling| + 1..] == stem + ".*"
  {
    var directoryPart := "../" + sibling;
    var expression := stem + ".*";
    var pattern := "../" + sibling + "/" + stem + ".*";
    assert pattern == directoryPart + "/" + expression;
    NotInPattern(stem, Separator);
    NotInPattern(stem, '\0');
    assert '\0' !in directoryPart;
    assert !EndsWithChar(directoryPart, Separator) by {
      assert directoryPart[|directoryPart| - 1] == sibling[|sibling| - 1];
    }
    DirectoryNameOf(directoryPart, expression);
    assert pattern[|directoryPart| + 1..] == expression;
  }

  /** The search for `../<sibling>/<stem>` from `<parent>/<last>` looks in `<parent>/<sibling>`
      for the names `<stem>.*` matches. */
  lemma ParentSearch(init: seq<string>, last: string, sibling: string, stem: string, cwd: string)
    requires forall k :: 0 <= k < |init| ==> IsPlainSegment(init[k])
    requires IsPlainSegment(last) && IsPlainSegment(sibling) && IsPlainIdentifier(stem)
    requires '\0' !in Rooted(init + [last]) && '\0' !in sibling
    ensures SearchFor(Rooted(init + [last]), cwd, "../" + sibling + "/" + stem)
            == Ok(Search(Rooted(init + [sibling]), Translate(stem + ".*")))
  {
    var tempDirectory := Rooted(init + [last]);
    ParentPatternText(sibling, stem);
    assert "../" + sibling + "/" + stem + ".*" == ("../" + sibling + "/" + stem) + ".*";
    RootedEnd(init + [last]);
    assert Combine(tempDirectory, "../" + sibling) == tempDirectory + "/../" + sibling;
    ParentThenSegment(cwd, init, last, sibling);
  }

  /** A directory part in the identifier moves the search out of the staging directory:
      `../<sibling>/<stem>` searches the staging directory's sibling, and there finds the
      files named after `<stem>`. */
  lemma ParentIdentifierSearchesSibling(files: map<string, seq<byte>>, dirs: set<string>, init: seq<string>,
                                        last: string, sibling: string, stem: string, cwd: string)
    requires forall k :: 0 <= k < |init| ==> IsPlainSegment(init[k])
    requires IsPlainSegment(last) && IsPlainSegment(sibling) && IsPlainIdentifier(stem)
    requires '\0' !in Rooted(init + [last]) && '\0' !in sibling
    requires Rooted(init + [sibling]) in dirs
    ensures FoundUploads(files, dirs, Rooted(init + [last]), cwd, "../" + sibling + "/" + stem)
            == Ok(StagedFiles(files, Rooted(init + [sibling]), stem))
  {
    var searched := Rooted(init + [sibling]);
    ParentSearch(init, last, sibling, stem, cwd);
    RootedEnd(init + [sibling]);
    assert DirectoryExists(dirs, searched);
    PlainPatternFiles(files, searched, stem);
  }

  /** The staging directory of a full web-root path is the full path one segment further. */
  lemma StagingDirectoryOfRoot(segments: seq<string>)
    requires forall k :: 0 <= k < |segments| ==> IsPlainSegment(segments[k])
    ensures TemporaryUploadsDirectory(Rooted(segments)) == Rooted(segments + [TemporaryDirectoryName])
  {
    if segments == [] {
      assert segments + [TemporaryDirectoryName] == [TemporaryDirectoryName];
    } else {
      RootedEnd(segments);
      JoinAppend(segments, [TemporaryDirectoryName], "/");
    }
  }

  /** Removing one file removes exactly that file from what an identifier finds. */
  lemma StagedFilesRemove(files: map<string, seq<byte>>, dir: string, identifier: string, p: string)
    ensures StagedFiles(files - {p}, dir, identifier) == StagedFiles(files, dir, identifier) - {p}
  {
  }

  /** Writing a file changes what an identifier finds by at most that file. */
  lemma StagedFilesWrite(files: map<string, seq<byte>>, dir: string, identifier: string, p: string, content: seq<byte>)
    ensures StagedFiles(files[p := content], dir, identifier) - {p} == StagedFiles(files, dir, identifier) - {p}
  {
  }

  /** The file staged for an upload is found again by its identifier. */
  lemma StagedFileIsFound(files: map<string, seq<byte>>, root: string, identifier: string, ext: string)
    requires root != [] && !EndsWithChar(root, '/')
    requires |ext| >= 2 && ext[0] == '.' && '/' !in ext && '/' !in identifier
    requires Combine(TemporaryUploadsDirectory(root), identifier + ext) in files
    ensures Combine(TemporaryUploadsDirectory(root), identifier + ext) in StagedFiles(files, TemporaryUploadsDirectory(root), identifier)
  {
    var dir := TemporaryUploadsDirectory(root);
    assert dir == root + "/" + TemporaryDirectoryName;
    var name := identifier + ext;
    assert '/' !in name by {
      assert forall k :: 0 <= k < |name| ==> name[k] == if k < |identifier| then identifier[k] else ext[k - |identifier|];
    }
    CombineIsDirectlyIn(dir, name);
    var p := Combine(dir, name);
    assert p[|dir| + 1..] == name;
    assert name[..|identifier| + 1] == identifier + ".";
  }

  // ---------------------------------------------------------------------
  // Operations

  /** `StageTemporaryUpload`: the size cap first, then the allow-list on the sanitised
      name's extension; on success the bytes are written to `_uploads/<identifier><extension>`. */
  method StageTemporaryUpload(fs: FileSystem, root: string, fileName: string, content: seq<byte>, appId: Option<string>,
                              stamp: string, guid: string, sha256: seq<byte> -> Digest)
    returns (r: Outcome<TemporaryUpload>)
    modifies fs
    ensures |content| > MaxUploadBytes ==> r == Fail(TooLarge)
    ensures |content| <= MaxUploadBytes && !IsAllowedExtension(ImageExtension(fileName))
            ==> r == Fail(UnsupportedType(ImageExtension(fileName)))
    ensures var tempDirectory := TemporaryUploadsDirectory(root);
            var target := StagedPath(root, fileName, appId, stamp, guid, sha256);
            |content| <= MaxUploadBytes && IsAllowedExtension(ImageExtension(fileName)) ==>
              && (tempDirectory in old(fs.files) ==> r == Fail(FileInTheWay(tempDirectory)))
              && (tempDirectory !in old(fs.files) && DirectoryExists(old(fs.dirs) + {tempDirectory}, target)
                  ==> r == Fail(TargetIsDirectory(target)))
              && (r.Ok? <==> tempDirectory !in old(fs.files) && !DirectoryExists(old(fs.dirs) + {tempDirectory}, target))
    ensures r.Ok? ==> |content| <= MaxUploadBytes && IsAllowedExtension(ImageExtension(fileName))
    ensures r.Fail? ==> fs.files == old(fs.files)
    ensures r.Fail? && !r.error.TargetIsDirectory? ==> fs.dirs == old(fs.dirs)
    ensures r.Fail? && r.error.TargetIsDirectory? ==> fs.dirs == old(fs.dirs) + {TemporaryUploadsDirectory(root)}
    ensures r.Ok? ==>
              var id := GenerateIdentifier(SanitizeFileName(fileName), appId, stamp, guid, sha256);
              var tempFileName := id + ImageExtension(fileName);
              r.value == TemporaryUpload(id, tempFileName, SanitizeFileName(fileName), |content|)
              && fs.files == old(fs.files)[Combine(TemporaryUploadsDirectory(root), tempFileName) := content]
              && fs.dirs == old(fs.dirs) + {TemporaryUploadsDirectory(root)}
    ensures fs.locked == old(fs.locked)
  {
    if |content| > MaxUploadBytes {
      return Fail(TooLarge);
    }
    var sanitized := SanitizeFileName(fileName);
    var extension := Lower(GetExtension(sanitized));
    if extension !in AllowedImageExtensions {
      return Fail(UnsupportedType(extension));
    }
    var tempDirectory := TemporaryUploadsDirectory(root);
    var identifier := GenerateIdentifier(sanitized, appId, stamp, guid, sha256);
    var tempFileName := identifier + extension;
    assert extension == ImageExtension(fileName) && IsAllowedExtension(extension);
    var failure := Store(fs, tempDirectory, Combine(tempDirectory, tempFileName), content);
    if failure.Some? {
      return Fail(failure.value);
    }
    return Ok(TemporaryUpload(identifier, tempFileName, sanitized, |content|));
  }

  /** The file system steps of staging: the staging directory is created and the bytes are
      written to `path`. The first step that throws gives the error. */
  method Store(fs: FileSystem, directory: string, path: string, content: seq<byte>) returns (failure: Option<UploadError>)
    modifies fs
    ensures var created := directory !in old(fs.files);
            var written := created && !DirectoryExists(old(fs.dirs) + {directory}, path);
            && failure == (if !created then Some(FileInTheWay(directory))
                           else if !written then Some(TargetIsDirectory(path))
                           else None)
            && fs.dirs == (if created then old(fs.dirs) + {directory} else old(fs.dirs))
            && fs.files == (if written then old(fs.files)[path := content] else old(fs.files))
    ensures fs.locked == old(fs.locked)
  {
    var created := fs.CreateDirectory(directory);
    if !created {
      return Some(FileInTheWay(directory));
    }
    var written := fs.WriteAllBytes(path, content);
    if !written {
      return Some(TargetIsDirectory(path));
    }
    return None;
  }

  /** Where an upload is staged: `_uploads/<identifier><extension>` under the root. */
  function StagedPath(root: string, fileName: string, appId: Option<string>, stamp: string, guid: string,
                      sha256: seq<byte> -> Digest): string
  {
    Combine(TemporaryUploadsDirectory(root), GenerateIdentifier(SanitizeFileName(fileName), appId, stamp, guid, sha256)
                                             + ImageExtension(fileName))
  }

  /** `TryDeleteTemporaryUpload`: when the staging directory exists, searches it with the
      pattern `<identifier>.*` and deletes one file the search finds, if it can be deleted.
      Which file comes first when several match is not fixed. The search's exception
      (`Fail`) is not caught here. */
  method TryDeleteTemporaryUpload(fs: FileSystem, root: string, cwd: string, identifier: string) returns (r: Outcome<bool>)
    modifies fs
    ensures TemporaryUploadsDirectory(root) !in old(fs.dirs) ==> r == Ok(false)
    ensures var found := FoundUploads(old(fs.files), old(fs.dirs), TemporaryUploadsDirectory(root), cwd, identifier);
            TemporaryUploadsDirectory(root) in old(fs.dirs) ==>
              && (found.Fail? ==> r == Fail(found.error))
              && (found == Ok({}) ==> r == Ok(false))
              && (found.Ok? ==> r.Ok?)
              && (found.Ok? && found.value != {} && found.value !! old(fs.locked) ==> r == Ok(true))
    ensures r == Ok(true) ==>
              var found := FoundUploads(old(fs.files), old(fs.dirs), TemporaryUploadsDirectory(root), cwd, identifier);
              found.Ok? && exists p :: p in found.value && p !in old(fs.locked) && fs.files == old(fs.files) - {p}
    ensures r != Ok(true) ==> fs.files == old(fs.files)
    ensures fs.dirs == old(fs.dirs) && fs.locked == old(fs.locked)
  {
    var tempDirectory := TemporaryUploadsDirectory(root);
    if tempDirectory !in fs.dirs {
      return Ok(false);
    }
    var found := FoundUploads(fs.files, fs.dirs, tempDirectory, cwd, identifier);
    if found.Fail? {
      return Fail(found.error);
    }
    if found.value == {} {
      return Ok(false);
    }
    var target :| target in found.value;
    var deleted := fs.Delete(target);
    return Ok(deleted);
  }

  /** `PromoteTemporaryUpload`: searches for the staged file (not found, and the search's
      exception, come before the name is checked), checks the desired name's extension,
      creates the application directory, copies the bytes over `<root>/<app>/<sanitised name>`
      and then deletes the staged file; each of these three steps can throw. Returns the
      URL of the promoted file. */
  method PromoteTemporaryUpload(fs: FileSystem, root: string, cwd: string, appDirectoryName: string, identifier: string,
                                desiredFileName: string)
    returns (r: Outcome<string>)
    modifies fs
    ensures TemporaryUploadsDirectory(root) !in old(fs.dirs) ==> r == Fail(NotFound)
    ensures var found := FoundUploads(old(fs.files), old(fs.dirs), TemporaryUploadsDirectory(root), cwd, identifier);
            TemporaryUploadsDirectory(root) in old(fs.dirs) ==>
              && (found.Fail? ==> r == Fail(found.error))
              && (found == Ok({}) ==> r == Fail(NotFound))
              && (found.Ok? && found.value != {} && !IsAllowedExtension(ImageExtension(desiredFileName))
                  ==> r == Fail(UnsupportedType(ImageExtension(desiredFileName))))
    ensures var found := FoundUploads(old(fs.files), old(fs.dirs), TemporaryUploadsDirectory(root), cwd, identifier);
            var appDirectory := Combine(root, appDirectoryName);
            var destination := Combine(appDirectory, SanitizeFileName(desiredFileName));
            TemporaryUploadsDirectory(root) in old(fs.dirs) && found.Ok? && found.value != {}
            && IsAllowedExtension(ImageExtension(desiredFileName)) ==>
              && (appDirectory in old(fs.files) ==> r == Fail(FileInTheWay(appDirectory)))
              && (appDirectory !in old(fs.files) && DirectoryExists(old(fs.dirs) + {appDirectory}, destination)
                  ==> r == Fail(TargetIsDirectory(destination)))
              && ((appDirectory !in old(fs.files) && !DirectoryExists(old(fs.dirs) + {appDirectory}, destination)
                   && found.value !! old(fs.locked)) ==> r.Ok?)
    ensures r.Fail? && !r.error.StagedFileNotDeleted? ==> fs.files == old(fs.files)
    ensures r.Fail? && !r.error.StagedFileNotDeleted? && !r.error.TargetIsDirectory? ==> fs.dirs == old(fs.dirs)
    ensures r.Fail? && r.error.TargetIsDirectory? ==> fs.dirs == old(fs.dirs) + {Combine(root, appDirectoryName)}
    ensures r.Ok? || (r.Fail? && r.error.StagedFileNotDeleted?) ==>
              var appDirectory := Combine(root, appDirectoryName);
              var destination := Combine(appDirectory, SanitizeFileName(desiredFileName));
              var found := FoundUploads(old(fs.files), old(fs.dirs), TemporaryUploadsDirectory(root), cwd, identifier);
              IsAllowedExtension(ImageExtension(desiredFileName))
              && appDirectory !in old(fs.files) && !DirectoryExists(old(fs.dirs) + {appDirectory}, destination)
              && fs.dirs == old(fs.dirs) + {appDirectory}
              && found.Ok?
              && exists staged :: staged in found.value && staged in old(fs.files)
                   && (r.Ok? <==> staged !in old(fs.locked))
                   && (r.Fail? ==> r.error == StagedFileNotDeleted(staged))
                   && fs.files == if r.Ok? then old(fs.files)[destination := old(fs.files)[staged]] - {staged}
                                  else old(fs.files)[destination := old(fs.files)[staged]]
    ensures r.Ok? ==> r.value == "/" + UriEscaping.Escape(appDirectoryName) + "/" + UriEscaping.Escape(SanitizeFileName(desiredFileName))
    ensures fs.locked == old(fs.locked)
  {
    var tempDirectory := TemporaryUploadsDirectory(root);
    if tempDirectory !in fs.dirs {
      return Fail(NotFound);
    }
    var found := FoundUploads(fs.files, fs.dirs, tempDirectory, cwd, identifier);
    if found.Fail? {
      return Fail(found.error);
    }
    if found.value == {} {
      return Fail(NotFound);
    }
    var stagedFile :| stagedFile in found.value;
    var sanitized := SanitizeFileName(desiredFileName);
    var extension := Lower(GetExtension(sanitized));
    if extension !in AllowedImageExtensions {
      return Fail(UnsupportedType(extension));
    }
    assert IsAllowedExtension(ImageExtension(desiredFileName));
    assert found == FoundUploads(old(fs.files), old(fs.dirs), tempDirectory, cwd, identifier);
    var failure := MoveInto(fs, stagedFile, Combine(root, appDirectoryName), sanitized);
    ghost var destination := Combine(Combine(root, appDirectoryName), sanitized);
    ghost var copied := old(fs.files)[destination := old(fs.files)[stagedFile]];
    if failure.Some? {
      if failure.value.StagedFileNotDeleted? {
        assert stagedFile in found.value && stagedFile in old(fs.files) && stagedFile in old(fs.locked)
               && failure.value == StagedFileNotDeleted(stagedFile) && fs.files == copied;
      }
      return Fail(failure.value);
    }
    assert stagedFile in found.value && stagedFile in old(fs.files) && stagedFile !in old(fs.locked)
           && fs.files == copied - {stagedFile};
    return Ok("/" + UriEscaping.Escape(appDirectoryName) + "/" + UriEscaping.Escape(sanitized));
  }

  /** The file system steps of a promotion: the application directory is created, the
      staged bytes are copied over `<appDirectory>/<name>`, and the staged file is deleted.
      The first step that throws gives the error; a failed delete leaves the copy in place. */
  method MoveInto(fs: FileSystem, staged: string, appDirectory: string, name: string) returns (failure: Option<UploadError>)
    requires staged in fs.files
    modifies fs
    ensures var destination := Combine(appDirectory, name);
            var created := appDirectory !in old(fs.files);
            var copied := created && !DirectoryExists(old(fs.dirs) + {appDirectory}, destination);
            && failure == (if !created then Some(FileInTheWay(appDirectory))
                           else if !copied then Some(TargetIsDirectory(destination))
                           else if staged in old(fs.locked) then Some(StagedFileNotDeleted(staged))
                           else None)
            && fs.dirs == (if created then old(fs.dirs) + {appDirectory} else old(fs.dirs))
            && fs.files == (if !copied then old(fs.files)
                            else if failure.None? then old(fs.files)[destination := old(fs.files)[staged]] - {staged}
                            else old(fs.files)[destination := old(fs.files)[staged]])
    ensures fs.locked == old(fs.locked)
  {
    var created := fs.CreateDirectory(appDirectory);
    if !created {
      return Some(FileInTheWay(appDirectory));
    }
    var destination := Combine(appDirectory, name);
    var copied := fs.Copy(staged, destination);
    if !copied {
      return Some(TargetIsDirectory(destination));
    }
    var deleted := fs.Delete(staged);
    failure := if deleted then None else Some(StagedFileNotDeleted(staged));
  }

  /** `CleanTemporaryUploads`: removes the staging directory with everything in it (a
      failure is only logged) and creates it again; `ok` is false where creating it
      throws, because a file sits at its path. */
  method CleanTemporaryUploads(fs: FileSystem, root: string) returns (ok: bool)
    modifies fs
    ensures ok <==> TemporaryUploadsDirectory(root) !in old(fs.files)
    ensures ok ==> TemporaryUploadsDirectory(root) in fs.dirs
    ensures forall p :: p in fs.files ==> p in old(fs.files) && fs.files[p] == old(fs.files)[p]
    ensures forall p :: p in old(fs.files) && !Below(p, TemporaryUploadsDirectory(root)) ==> p in fs.files
    ensures TemporaryUploadsDirectory(root) in old(fs.dirs)
            && (forall p :: p in old(fs.locked) && p in old(fs.files) ==> !Below(p, TemporaryUploadsDirectory(root)))
            ==> forall p :: p in fs.files ==> !Below(p, TemporaryUploadsDirectory(root))
    ensures fs.locked == old(fs.locked)
  {
    var tempPath := TemporaryUploadsDirectory(root);
    if tempPath in fs.dirs {
      var purged := fs.DeleteTree(tempPath);
    }
    ok := fs.CreateDirectory(tempPath);
  }
}
