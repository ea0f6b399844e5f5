/** `ContentTypeProvider`: the MIME type served for a file extension. The
    table is consulted ignoring case; anything not in it, and a missing or
    blank extension, is served as `application/octet-stream`. */
module ContentTypes {
  import opened Wrappers
  import opened Text

  const Default := "application/octet-stream"
  const Html := "text/html; charset=utf-8"

  /** The extension table. Its dictionary compares keys with `OrdinalIgnoreCase`,
      which is the same as keying it by the case-folded extension, as here. */
  const Types: map<string, string> := map[
    ".HTML" := Html,
    ".HTM" := Html,
    ".CSS" := "text/css",
    ".JS" := "application/javascript",
    ".MJS" := "application/javascript",
    ".JSON" := "application/json",
    ".PNG" := "image/png",
    ".JPG" := "image/jpeg",
    ".JPEG" := "image/jpeg",
    ".GIF" := "image/gif",
    ".SVG" := "image/svg+xml",
    ".ICO" := "image/x-icon",
    ".TXT" := "text/plain; charset=utf-8",
    ".XML" := "application/xml",
    ".WOFF" := "font/woff",
    ".WOFF2" := "font/woff2",
    ".TTF" := "font/ttf",
    ".OTF" := "font/otf",
    ".WASM" := "application/wasm",
    ".MP4" := "video/mp4",
    ".WEBM" := "video/webm",
    ".WEBMANIFEST" := "application/manifest+json",
    ".CSV" := "text/csv; charset=utf-8"
  ]

  /** `GetContentType(extension)`, a null extension being `None`: the table's entry
      for the extension ignoring case, or the default. */
  function GetContentType(extension: Option<string>): (r: string)
    ensures extension.None? || IsBlank(extension.value) ==> r == Default
    ensures extension.Some? && !IsBlank(extension.value) && Fold(extension.value) in Types ==> r == Types[Fold(extension.value)]
    ensures extension.Some? && Fold(extension.value) !in Types ==> r == Default
  {
    if extension.None? || IsBlank(extension.value) then Default
    else if Fold(extension.value) in Types then Types[Fold(extension.value)]
    else Default
  }

  /** The lookup is total and never yields an empty type. */
  lemma GetContentTypeNonEmpty(extension: Option<string>)
    ensures GetContentType(extension) != []
  {
    if extension.Some? && !IsBlank(extension.value) && Fold(extension.value) in Types {
      var k := Fold(extension.value);
      assert forall t | t in Types.Values :: t != [];
    }
  }

  /** Lookup ignores case: two extensions that differ only in case get the same type. */
  lemma GetContentTypeIgnoresCase(a: string, b: string)
    requires EqualsIgnoreCase(a, b)
    ensures GetContentType(Some(a)) == GetContentType(Some(b))
  {
    BlankIgnoresCase(a, b);
  }

  /** Folding never turns a blank character into a visible one or back. */
  lemma BlankIgnoresCase(a: string, b: string)
    requires EqualsIgnoreCase(a, b)
    ensures IsBlank(a) == IsBlank(b)
  {
    assert forall i :: 0 <= i < |a| ==> (IsWhiteSpace(a[i]) <==> IsWhiteSpace(Upper(a[i])));
    assert forall i :: 0 <= i < |b| ==> (IsWhiteSpace(b[i]) <==> IsWhiteSpace(Upper(b[i])));
    assert |a| == |b|;
    assert forall i :: 0 <= i < |a| ==> Upper(a[i]) == Fold(a)[i] == Fold(b)[i] == Upper(b[i]);
  }

  /** The table's keys are already folded: extensions of upper-case letters and digits after a dot. */
  lemma KeysFolded()
    ensures forall k | k in Types :: |k| >= 2 && k[0] == '.' && Fold(k) == k
  {
    forall k | k in Types
      ensures |k| >= 2 && k[0] == '.' && Fold(k) == k
    {
      assert forall i :: 0 <= i < |k| ==> !('a' <= k[i] <= 'z');
    }
  }

  /** Every entry is served as written in the table. */
  lemma TableEntries()
    ensures forall k | k in Types :: GetContentType(Some(k)) == Types[k]
  {
    KeysFolded();
    forall k | k in Types
      ensures GetContentType(Some(k)) == Types[k]
    {
      FoldedKeyServed(k);
    }
  }

  lemma FoldedKeyServed(k: string)
    requires k in Types && k != [] && k[0] == '.' && Fold(k) == k
    ensures GetContentType(Some(k)) == Types[k]
  {
    assert !IsBlank(k) by {
      assert !IsWhiteSpace(k[0]);
    }
  }

  /** An extension spelled in any case, such as `.png` or `.Html`, gets the entry of its table key. */
  lemma TableEntriesAnyCase(extension: string, k: string)
    requires k in Types && EqualsIgnoreCase(extension, k)
    ensures GetContentType(Some(extension)) == Types[k]
  {
    TableEntries();
    GetContentTypeIgnoresCase(extension, k);
  }

  /** `.webp`, although accepted as an upload, has no entry and is served as the default type. */
  lemma WebpIsNotListed()
    ensures GetContentType(Some(".webp")) == Default
  {
    assert !IsWhiteSpace(".webp"[0]);
    assert Fold(".webp") == ".WEBP";
  }
}
