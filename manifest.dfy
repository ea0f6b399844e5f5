/** `WebAppManifestLoader`: the view of a hosted application built from its
    directory name and its `manifest.json`. Reading and parsing the file are
    outside the model: the parsed manifest is a parameter, `None` when the file
    is missing or does not parse. */
module Manifests {
  import opened Wrappers
  import opened Text
  import opened Ordering
  import UriEscaping

  const DefaultDescription := "No description provided."
  const DefaultImage := "/assets/icons/favicon-256x256.png"

  /** `WebAppManifest`; a JSON `null` (or an absent property) is `None`, also for single tags. */
  datatype WebAppManifest = WebAppManifest(
    name: Option<string>,
    description: Option<string>,
    image: Option<string>,
    tags: Option<seq<Option<string>>>)

  /** `HostedApplication`. */
  datatype HostedApplication = HostedApplication(
    directoryName: string,
    displayName: string,
    description: string,
    imageUrl: string,
    tags: seq<string>,
    url: string)

  /** `string.IsNullOrWhiteSpace` of an optional string. */
  predicate IsNullOrWhiteSpace(s: Option<string>) {
    s.None? || IsBlank(s.value)
  }

  /** The address an application is served under: `/<escaped directory>/`. */
  function AppUrl(directoryName: string): string
  {
    "/" + UriEscaping.Escape(directoryName) + "/"
  }

  // ---------------------------------------------------------------------
  // Load

  /** `Load`: manifest values trimmed where present and not blank, defaults otherwise.
      `isAbsoluteUri` stands for `Uri.TryCreate(_, UriKind.Absolute, _)`. */
  function Load(directoryName: string, manifest: Option<WebAppManifest>, isAbsoluteUri: string -> bool): HostedApplication
  {
    var name := if manifest.Some? && !IsNullOrWhiteSpace(manifest.value.name) then Trim(manifest.value.name.value) else directoryName;
    var description := if manifest.Some? && !IsNullOrWhiteSpace(manifest.value.description) then Trim(manifest.value.description.value) else DefaultDescription;
    var image := if manifest.Some? then manifest.value.image else None;
    var tags := if manifest.Some? then manifest.value.tags else None;
    HostedApplication(directoryName, name, description, ResolveImageUrl(directoryName, image, isAbsoluteUri),
                      NormalizeTags(tags), AppUrl(directoryName))
  }

  /** Without a manifest every field takes its default. */
  lemma LoadWithoutManifest(directoryName: string, isAbsoluteUri: string -> bool)
    ensures var app := Load(directoryName, None, isAbsoluteUri);
            app.displayName == directoryName && app.description == DefaultDescription
            && app.imageUrl == DefaultImage && app.tags == [] && app.url == AppUrl(directoryName)
  {
  }

  /** A manifest's values are shown trimmed; blank ones give way to the defaults. */
  lemma LoadUsesManifest(directoryName: string, m: WebAppManifest, isAbsoluteUri: string -> bool)
    ensures var app := Load(directoryName, Some(m), isAbsoluteUri);
            (IsNullOrWhiteSpace(m.name) ==> app.displayName == directoryName)
            && (!IsNullOrWhiteSpace(m.name) ==> app.displayName == Trim(m.name.value) && app.displayName != [] && IsTrimmed(app.displayName))
            && (IsNullOrWhiteSpace(m.description) ==> app.description == DefaultDescription)
            && (!IsNullOrWhiteSpace(m.description) ==> app.description == Trim(m.description.value) && app.description != [] && IsTrimmed(app.description))
  {
    if !IsNullOrWhiteSpace(m.name) {
      TrimEmptyIffBlank(m.name.value);
      TrimIdempotent(m.name.value);
    }
    if !IsNullOrWhiteSpace(m.description) {
      TrimEmptyIffBlank(m.description.value);
      TrimIdempotent(m.description.value);
    }
  }

  /** The manifest that states an application's view outright. */
  function ManifestOf(app: HostedApplication): WebAppManifest
  {
    WebAppManifest(Some(app.displayName), Some(app.description), Some(app.imageUrl), Some(Present(app.tags)))
  }

  /** Loading is a fixpoint: writing a loaded view back as the manifest and loading it
      again gives the same view (for a directory name without surrounding white space). */
  lemma LoadRoundTrip(directoryName: string, manifest: Option<WebAppManifest>, isAbsoluteUri: string -> bool)
    requires IsTrimmed(directoryName)
    ensures var app := Load(directoryName, manifest, isAbsoluteUri);
            Load(directoryName, Some(ManifestOf(app)), isAbsoluteUri) == app
  {
    ReloadedName(directoryName, manifest, isAbsoluteUri);
    ReloadedDescription(directoryName, manifest, isAbsoluteUri);
    ReloadedImage(directoryName, manifest, isAbsoluteUri);
    ReloadedTags(directoryName, manifest, isAbsoluteUri);
  }

  lemma ReloadedName(directoryName: string, manifest: Option<WebAppManifest>, isAbsoluteUri: string -> bool)
    requires IsTrimmed(directoryName)
    ensures var app := Load(directoryName, manifest, isAbsoluteUri);
            Load(directoryName, Some(ManifestOf(app)), isAbsoluteUri).displayName == app.displayName
  {
    var app := Load(directoryName, manifest, isAbsoluteUri);
    var name := if manifest.Some? then manifest.value.name else None;
    assert app.displayName == if !IsNullOrWhiteSpace(name) then Trim(name.value) else directoryName;
    var m := ManifestOf(app);
    assert m.name == Some(app.displayName);
    assert Load(directoryName, Some(m), isAbsoluteUri).displayName
           == if !IsNullOrWhiteSpace(m.name) then Trim(m.name.value) else directoryName;
    ShownTextIsFixpoint(directoryName, name);
  }

  lemma ReloadedDescription(directoryName: string, manifest: Option<WebAppManifest>, isAbsoluteUri: string -> bool)
    ensures var app := Load(directoryName, manifest, isAbsoluteUri);
            Load(directoryName, Some(ManifestOf(app)), isAbsoluteUri).description == app.description
  {
    var app := Load(directoryName, manifest, isAbsoluteUri);
    var description := if manifest.Some? then manifest.value.description else None;
    assert app.description == if !IsNullOrWhiteSpace(description) then Trim(description.value) else DefaultDescription;
    var m := ManifestOf(app);
    assert m.description == Some(app.description);
    assert Load(directoryName, Some(m), isAbsoluteUri).description
           == if !IsNullOrWhiteSpace(m.description) then Trim(m.description.value) else DefaultDescription;
    DescriptionIsFixpoint(description);
  }

  lemma ReloadedImage(directoryName: string, manifest: Option<WebAppManifest>, isAbsoluteUri: string -> bool)
    ensures var app := Load(directoryName, manifest, isAbsoluteUri);
            Load(directoryName, Some(ManifestOf(app)), isAbsoluteUri).imageUrl == app.imageUrl
  {
    var image := if manifest.Some? then manifest.value.image else None;
    ResolveImageUrlIdempotent(directoryName, image, isAbsoluteUri);
  }

  lemma ReloadedTags(directoryName: string, manifest: Option<WebAppManifest>, isAbsoluteUri: string -> bool)
    ensures var app := Load(directoryName, manifest, isAbsoluteUri);
            Load(directoryName, Some(ManifestOf(app)), isAbsoluteUri).tags == app.tags
  {
    var tags := if manifest.Some? then manifest.value.tags else None;
    NormalizeTagsIdempotent(tags);
  }

  /** The shown name, reloaded as the manifest's name, is shown again unchanged. */
  lemma ShownTextIsFixpoint(directoryName: string, name: Option<string>)
    requires IsTrimmed(directoryName)
    ensures var shown := if !IsNullOrWhiteSpace(name) then Trim(name.value) else directoryName;
            (if !IsNullOrWhiteSpace(Some(shown)) then Trim(shown) else directoryName) == shown
  {
    if !IsNullOrWhiteSpace(name) {
      TrimmedTextIsFixpoint(name.value);
    } else if !IsBlank(directoryName) {
      TrimmedIsFixpoint(directoryName);
    }
  }

  /** The trimmed form of visible text is visible and trims to itself. */
  lemma TrimmedTextIsFixpoint(text: string)
    requires !IsBlank(text)
    ensures Trim(text) != [] && IsTrimmed(Trim(text))
    ensures !IsBlank(Trim(text)) && Trim(Trim(text)) == Trim(text)
  {
    var t := Trim(text);
    TrimEmptyIffBlank(text);
    TrimIdempotent(text);
    assert t != [] && !IsWhiteSpace(t[0]);
  }

  /** The shown description, reloaded as the manifest's description, is shown again unchanged. */
  lemma DescriptionIsFixpoint(description: Option<string>)
    ensures var shown := if !IsNullOrWhiteSpace(description) then Trim(description.value) else DefaultDescription;
            (if !IsNullOrWhiteSpace(Some(shown)) then Trim(shown) else DefaultDescription) == shown
  {
    if !IsNullOrWhiteSpace(description) {
      TrimmedTextIsFixpoint(description.value);
    } else {
      DefaultDescriptionIsVisible();
    }
  }

  lemma DefaultDescriptionIsVisible()
    ensures !IsBlank(DefaultDescription) && IsTrimmed(DefaultDescription)
    ensures Trim(DefaultDescription) == DefaultDescription
  {
    assert !IsWhiteSpace(DefaultDescription[0]);
    assert !IsWhiteSpace(DefaultDescription[|DefaultDescription| - 1]);
    TrimmedIsFixpoint(DefaultDescription);
  }

  // ---------------------------------------------------------------------
  // NormalizeTags

  /** The tags that are present and not blank, in order. */
  function Visible(tags: seq<Option<string>>): (r: seq<string>)
    ensures forall k :: 0 <= k < |r| ==> !IsBlank(r[k]) && Some(r[k]) in tags
    ensures forall i :: 0 <= i < |tags| && !IsNullOrWhiteSpace(tags[i]) ==> tags[i].value in r
  {
    if tags == [] then []
    else
      var rest := Visible(tags[1..]);
      assert forall i :: 1 <= i < |tags| ==> tags[i] == tags[1..][i - 1];
      if IsNullOrWhiteSpace(tags[0]) then rest else [tags[0].value] + rest
  }

  /** Every tag present. */
  function Present(tags: seq<string>): (r: seq<Option<string>>)
    ensures |r| == |tags| && forall k :: 0 <= k < |r| ==> r[k] == Some(tags[k])
  {
    seq(|tags|, k requires 0 <= k < |tags| => Some(tags[k]))
  }

  function TrimAll(tags: seq<string>): (r: seq<string>)
    ensures |r| == |tags| && forall k :: 0 <= k < |r| ==> r[k] == Trim(tags[k])
  {
    seq(|tags|, k requires 0 <= k < |tags| => Trim(tags[k]))
  }

  /** `NormalizeTags`: blank tags dropped, the rest trimmed, duplicates ignoring case
      dropped (the first kept) and the result ordered ignoring case. */
  function NormalizeTags(tags: Option<seq<Option<string>>>): (r: seq<string>)
    ensures tags.None? ==> r == []
    ensures forall k :: 0 <= k < |r| ==> r[k] != [] && IsTrimmed(r[k])
  {
    if tags.None? then []
    else
      var trimmed := TrimAll(Visible(tags.value));
      var r := SortBy(DistinctBy(trimmed, Fold, {}), Fold);
      SortedTagsAreVisible(Visible(tags.value), r);
      r
  }

  /** What sorting the distinct trimmed tags yields is trimmed and not empty. */
  lemma SortedTagsAreVisible(visible: seq<string>, r: seq<string>)
    requires forall k :: 0 <= k < |visible| ==> !IsBlank(visible[k])
    requires r == SortBy(DistinctBy(TrimAll(visible), Fold, {}), Fold)
    ensures forall k :: 0 <= k < |r| ==> r[k] != [] && IsTrimmed(r[k])
  {
    var trimmed := TrimAll(visible);
    forall k | 0 <= k < |r| ensures r[k] != [] && IsTrimmed(r[k]) {
      assert r[k] in multiset(r);
      var i := IndexIn(r[k], trimmed);
      TrimEmptyIffBlank(visible[i]);
      TrimIdempotent(visible[i]);
    }
  }

  /** An index at which an element of a sequence stands. */
  lemma IndexIn<T>(x: T, s: seq<T>) returns (i: nat)
    requires x in s
    ensures i < |s| && s[i] == x
  {
    i :| 0 <= i < |s| && s[i] == x;
  }

  /** No two tags are equal ignoring case, and they are in order ignoring case. */
  lemma NormalizeTagsOrdered(tags: Option<seq<Option<string>>>)
    ensures StrictlySortedBy(NormalizeTags(tags), Fold)
  {
    if tags.Some? {
      var d := DistinctBy(TrimAll(Visible(tags.value)), Fold, {});
      SortByStrict(d, Fold);
    }
  }

  /** Every tag kept is the trimmed form of a tag that was given and not blank. */
  lemma NormalizeTagsSound(tags: Option<seq<Option<string>>>, k: nat)
    requires k < |NormalizeTags(tags)|
    ensures tags.Some? && exists i :: 0 <= i < |tags.value| && !IsNullOrWhiteSpace(tags.value[i])
                                     && NormalizeTags(tags)[k] == Trim(tags.value[i].value)
  {
    var visible := Visible(tags.value);
    var trimmed := TrimAll(visible);
    var r := NormalizeTags(tags);
    assert r[k] in multiset(r);
    var j := IndexIn(r[k], trimmed);
    var i := IndexIn(Some(visible[j]), tags.value);
    assert tags.value[i].value == visible[j];
  }

  /** Every tag given and not blank is kept, up to case. */
  lemma NormalizeTagsComplete(tags: seq<Option<string>>, i: nat)
    requires i < |tags| && !IsNullOrWhiteSpace(tags[i])
    ensures exists k :: 0 <= k < |NormalizeTags(Some(tags))| && EqualsIgnoreCase(NormalizeTags(Some(tags))[k], Trim(tags[i].value))
  {
    var visible := Visible(tags);
    var trimmed := TrimAll(visible);
    var j := IndexIn(tags[i].value, visible);
    assert trimmed[j] == Trim(tags[i].value);
    var d := DistinctBy(trimmed, Fold, {});
    var m := DistinctKeyIndex(trimmed, j);
    var r := SortBy(d, Fold);
    assert r == NormalizeTags(Some(tags));
    assert d[m] in multiset(d);
    assert d[m] in multiset(r);
    var k := IndexIn(d[m], r);
    assert EqualsIgnoreCase(r[k], Trim(tags[i].value));
  }

  /** The position in the distinct tags of the one that stands for `trimmed[j]`. */
  lemma DistinctKeyIndex(trimmed: seq<string>, j: nat) returns (m: nat)
    requires j < |trimmed|
    ensures m < |DistinctBy(trimmed, Fold, {})| && Fold(DistinctBy(trimmed, Fold, {})[m]) == Fold(trimmed[j])
  {
    DistinctByComplete(trimmed, Fold, {}, j);
    m :| 0 <= m < |DistinctBy(trimmed, Fold, {})| && Fold(DistinctBy(trimmed, Fold, {})[m]) == Fold(trimmed[j]);
  }

  /** Normalising normalised tags changes nothing. */
  lemma NormalizeTagsIdempotent(tags: Option<seq<Option<string>>>)
    ensures NormalizeTags(Some(Present(NormalizeTags(tags)))) == NormalizeTags(tags)
  {
    var r := NormalizeTags(tags);
    assert Visible(Present(r)) == r by {
      VisibleOfPresent(r);
    }
    assert TrimAll(r) == r by {
      forall k | 0 <= k < |r| ensures Trim(r[k]) == r[k] {
        TrimmedIsFixpoint(r[k]);
      }
    }
    assert DistinctBy(r, Fold, {}) == r by {
      NormalizeTagsOrdered(tags);
      forall i, j | 0 <= i < j < |r| ensures Fold(r[i]) != Fold(r[j]) {
        LessAsymmetric(Fold(r[i]), Fold(r[j]));
      }
      DistinctByIdentity(r, Fold, {});
    }
    assert SortBy(r, Fold) == r by {
      NormalizeTagsOrdered(tags);
      SortBySortedIsIdentity(r, Fold);
    }
  }

  lemma {:induction false} VisibleOfPresent(tags: seq<string>)
    requires forall k :: 0 <= k < |tags| ==> tags[k] != [] && IsTrimmed(tags[k])
    ensures Visible(Present(tags)) == tags
  {
    if tags != [] {
      assert Present(tags)[1..] == Present(tags[1..]);
      VisibleOfPresent(tags[1..]);
      assert !IsWhiteSpace(tags[0][0]);
    }
  }

  // ---------------------------------------------------------------------
  // ResolveImageUrl

  /** `ResolveImageUrl`: the default for a blank image, otherwise the trimmed image resolved. */
  function ResolveImageUrl(directoryName: string, image: Option<string>, isAbsoluteUri: string -> bool): string
  {
    if IsNullOrWhiteSpace(image) then DefaultImage
    else ResolveTrimmed(directoryName, Trim(image.value), isAbsoluteUri)
  }

  /** An absolute URI as it is; a rooted path with back-slashes turned into slashes;
      otherwise a path relative to the application, its segments (split at either slash,
      empty ones dropped) escaped. */
  function ResolveTrimmed(directoryName: string, trimmed: string, isAbsoluteUri: string -> bool): string
  {
    if isAbsoluteUri(trimmed) then trimmed
    else if StartsWith(trimmed, "/") then ReplaceChar(trimmed, '\\', '/')
    else AppUrl(directoryName) + Join(EscapeAll(ImageSegments(trimmed)), "/")
  }

  /** The non-empty segments between `/` and `\` separators. */
  function ImageSegments(path: string): (segments: seq<string>)
    ensures forall k :: 0 <= k < |segments| ==> segments[k] != [] && '/' !in segments[k] && '\\' !in segments[k]
  {
    var slashed := ReplaceChar(path, '\\', '/');
    assert '\\' !in slashed;
    SplitKeepsAbsent(slashed, '/', '\\');
    SplitNonEmpty(slashed, '/')
  }

  function EscapeAll(segments: seq<string>): (r: seq<string>)
    ensures |r| == |segments| && forall k :: 0 <= k < |r| ==> r[k] == UriEscaping.Escape(segments[k])
  {
    seq(|segments|, k requires 0 <= k < |segments| => UriEscaping.Escape(segments[k]))
  }

  /** A relative image lands under the application's address, and the part after it
      splits back into the escaped segments, each of which unescapes to a segment of the image path. */
  lemma RelativeImageUnderApp(directoryName: string, image: string, isAbsoluteUri: string -> bool)
    requires !IsBlank(image) && !isAbsoluteUri(Trim(image)) && !StartsWith(Trim(image), "/")
    requires ImageSegments(Trim(image)) != []
    ensures var url := ResolveImageUrl(directoryName, Some(image), isAbsoluteUri);
            var prefix := AppUrl(directoryName);
            StartsWith(url, prefix)
            && var escaped := SplitOn(url[|prefix|..], "/");
               |escaped| == |ImageSegments(Trim(image))|
               && forall k :: 0 <= k < |escaped| ==> UriEscaping.Unescape(escaped[k]) == ImageSegments(Trim(image))[k]
  {
    var segments := ImageSegments(Trim(image));
    var escaped := EscapeAll(segments);
    var prefix := AppUrl(directoryName);
    var url := ResolveImageUrl(directoryName, Some(image), isAbsoluteUri);
    assert url == prefix + Join(escaped, "/");
    assert url[|prefix|..] == Join(escaped, "/");
    SplitOnJoin(escaped, "/");
    forall k | 0 <= k < |escaped| ensures UriEscaping.Unescape(escaped[k]) == segments[k] {
      UriEscaping.UnescapeEscape(segments[k]);
    }
  }

  /** Resolving a resolved image gives it back. */
  lemma ResolveImageUrlIdempotent(directoryName: string, image: Option<string>, isAbsoluteUri: string -> bool)
    ensures var url := ResolveImageUrl(directoryName, image, isAbsoluteUri);
            ResolveImageUrl(directoryName, Some(url), isAbsoluteUri) == url
  {
    if IsNullOrWhiteSpace(image) {
      assert forall k :: 0 <= k < |DefaultImage| ==> UrlChar(DefaultImage[k]);
      UrlCharsAreVisible(DefaultImage);
      RootedUrlIsFixpoint(directoryName, DefaultImage, isAbsoluteUri);
    } else {
      TrimmedTextIsFixpoint(image.value);
      VisibleResolvedIsFixpoint(directoryName, Trim(image.value), isAbsoluteUri);
    }
  }

  lemma VisibleResolvedIsFixpoint(directoryName: string, trimmed: string, isAbsoluteUri: string -> bool)
    requires trimmed != [] && IsTrimmed(trimmed)
    ensures var url := ResolveTrimmed(directoryName, trimmed, isAbsoluteUri);
            ResolveImageUrl(directoryName, Some(url), isAbsoluteUri) == url
  {
    var url := ResolveTrimmed(directoryName, trimmed, isAbsoluteUri);
    ResolvedIsVisible(directoryName, trimmed, isAbsoluteUri);
    assert !IsWhiteSpace(url[0]);
    assert !IsNullOrWhiteSpace(Some(url));
    TrimmedIsFixpoint(url);
    assert ResolveImageUrl(directoryName, Some(url), isAbsoluteUri) == ResolveTrimmed(directoryName, url, isAbsoluteUri);
    ResolveTrimmedIsFixpoint(directoryName, trimmed, isAbsoluteUri);
  }

  /** What a non-empty trimmed image resolves to is non-empty and trimmed. */
  lemma ResolvedIsVisible(directoryName: string, trimmed: string, isAbsoluteUri: string -> bool)
    requires trimmed != [] && IsTrimmed(trimmed)
    ensures var url := ResolveTrimmed(directoryName, trimmed, isAbsoluteUri);
            url != [] && IsTrimmed(url)
  {
    if isAbsoluteUri(trimmed) {
    } else if StartsWith(trimmed, "/") {
      var url := ReplaceChar(trimmed, '\\', '/');
      assert url[|url| - 1] == '/' || url[|url| - 1] == trimmed[|trimmed| - 1];
    } else {
      RelativeUrlChars(directoryName, trimmed);
      UrlCharsAreVisible(AppUrl(directoryName) + Join(EscapeAll(ImageSegments(trimmed)), "/"));
    }
  }

  /** Resolving the result of resolving a trimmed image gives it back. */
  lemma ResolveTrimmedIsFixpoint(directoryName: string, trimmed: string, isAbsoluteUri: string -> bool)
    ensures var url := ResolveTrimmed(directoryName, trimmed, isAbsoluteUri);
            ResolveTrimmed(directoryName, url, isAbsoluteUri) == url
  {
    if isAbsoluteUri(trimmed) {
    } else if StartsWith(trimmed, "/") {
      var url := ReplaceChar(trimmed, '\\', '/');
      assert url[0] == '/';
      assert ReplaceChar(url, '\\', '/') == url;
    } else {
      var url := AppUrl(directoryName) + Join(EscapeAll(ImageSegments(trimmed)), "/");
      RelativeUrlChars(directoryName, trimmed);
      UrlCharsAreVisible(url);
      assert ReplaceChar(url, '\\', '/') == url;
    }
  }

  /** The characters an escaped path is made of. */
  predicate UrlChar(c: char) {
    UriEscaping.IsUnreserved(c) || c == '%' || c == '/'
  }

  predicate AllUrlChars(s: string) {
    forall k :: 0 <= k < |s| ==> UrlChar(s[k])
  }

  /** A path relative to the application resolves to a rooted address made of escaped characters. */
  lemma RelativeUrlChars(directoryName: string, trimmed: string)
    ensures var url := AppUrl(directoryName) + Join(EscapeAll(ImageSegments(trimmed)), "/");
            url != [] && url[0] == '/' && AllUrlChars(url)
  {
    var escaped := EscapeAll(ImageSegments(trimmed));
    EscapedSegmentsUrlChars(ImageSegments(trimmed));
    JoinUrlChars(escaped);
    AppUrlChars(directoryName);
    AppendUrlChars(AppUrl(directoryName), Join(escaped, "/"));
  }

  lemma EscapedSegmentsUrlChars(segments: seq<string>)
    ensures var escaped := EscapeAll(segments);
            forall k :: 0 <= k < |escaped| ==> AllUrlChars(escaped[k])
  {
    var escaped := EscapeAll(segments);
    forall k | 0 <= k < |escaped| ensures AllUrlChars(escaped[k]) {
      assert escaped[k] == UriEscaping.Escape(segments[k]);
    }
  }

  /** The application's own address is rooted and made of escaped characters. */
  lemma AppUrlChars(directoryName: string)
    ensures var prefix := AppUrl(directoryName);
            prefix != [] && prefix[0] == '/' && AllUrlChars(prefix)
  {
    var e := UriEscaping.Escape(directoryName);
    var prefix := AppUrl(directoryName);
    assert prefix == "/" + e + "/";
    forall k | 0 <= k < |prefix| ensures UrlChar(prefix[k]) {
      if 0 < k < |prefix| - 1 {
        assert prefix[k] == e[k - 1];
      }
    }
  }

  lemma AppendUrlChars(a: string, b: string)
    requires AllUrlChars(a) && AllUrlChars(b)
    ensures AllUrlChars(a + b)
  {
    assert forall k :: 0 <= k < |a + b| ==> (a + b)[k] == if k < |a| then a[k] else b[k - |a|];
  }

  /** A rooted address of escaped characters has no white space at its ends and no back-slash. */
  lemma UrlCharsAreVisible(url: string)
    requires AllUrlChars(url) && url != [] && url[0] == '/'
    ensures IsTrimmed(url) && forall k :: 0 <= k < |url| ==> url[k] != '\\'
  {
    assert UrlChar(url[|url| - 1]);
  }

  lemma {:induction false} JoinUrlChars(parts: seq<string>)
    requires forall k :: 0 <= k < |parts| ==> AllUrlChars(parts[k])
    ensures AllUrlChars(Join(parts, "/"))
  {
    if |parts| > 1 {
      JoinUrlChars(parts[1..]);
      AppendUrlChars(parts[0], "/");
      AppendUrlChars(parts[0] + "/", Join(parts[1..], "/"));
    }
  }

  /** A rooted address without back-slashes or surrounding white space resolves to itself. */
  lemma RootedUrlIsFixpoint(directoryName: string, url: string, isAbsoluteUri: string -> bool)
    requires url != [] && url[0] == '/' && IsTrimmed(url)
    requires forall k :: 0 <= k < |url| ==> url[k] != '\\'
    ensures ResolveImageUrl(directoryName, Some(url), isAbsoluteUri) == url
  {
    assert !IsWhiteSpace(url[0]) && !IsBlank(url);
    TrimmedIsFixpoint(url);
    assert ReplaceChar(url, '\\', '/') == url;
  }
}
