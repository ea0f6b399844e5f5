/** The `System.IO.Path` operations the server uses, for Unix paths
    (separator `/`). `GetFullPath` resolves `.` and `..` segments against the
    root the way the operating system does, without touching the disk. */
module Paths {
  import opened Text

  const Separator: char := '/'

  /** `Path.GetInvalidFileNameChars()` on Unix. */
  const InvalidFileNameChars: set<char> := {'\0', '/'}

  predicate IsRooted(p: string) {
    p != [] && p[0] == Separator
  }

  /** `Path.Combine(a, b)`: a rooted or empty second part wins or vanishes; otherwise
      the parts are joined with exactly one separator. */
  function Combine(a: string, b: string): (r: string)
    ensures b != [] && !IsRooted(b) && a != [] && !EndsWithChar(a, Separator) ==> r == a + "/" + b
  {
    if b == [] then a
    else if IsRooted(b) || a == [] then b
    else if EndsWithChar(a, Separator) then a + b
    else a + "/" + b
  }

  /** `Path.GetFileName`: what follows the last separator. */
  function GetFileName(p: string): (r: string)
    ensures Separator !in r
    ensures |r| <= |p| && r == p[|p| - |r|..]
  {
    var i := LastIndexOfChar(p, Separator);
    p[i + 1..]
  }

  /** `Path.GetExtension`: from the last `.` of the file name on, or empty when the
      name has no `.` or ends with it. */
  function GetExtension(p: string): (r: string)
    ensures r == [] || (r[0] == '.' && |r| >= 2)
    ensures Separator !in r
    ensures |r| <= |p| && r == p[|p| - |r|..]
    ensures r != [] ==> '.' !in r[1..]
  {
    var name := GetFileName(p);
    var i := LastIndexOfChar(name, '.');
    if i == -1 || i == |name| - 1 then []
    else
      ExtensionOfName(p, name, i);
      name[i..]
  }

  /** The part of a file name from its last `.` on, when something follows that `.`. */
  lemma ExtensionOfName(p: string, name: string, i: nat)
    requires |name| <= |p| && name == p[|p| - |name|..] && Separator !in name
    requires i < |name| - 1 && name[i] == '.' && '.' !in name[i + 1..]
    ensures var r := name[i..];
            r[0] == '.' && |r| >= 2 && Separator !in r && |r| <= |p| && r == p[|p| - |r|..] && '.' !in r[1..]
  {
    var r := name[i..];
    assert r[1..] == name[i + 1..];
    assert r == p[|p| - |r|..];
    assert forall k :: 0 <= k < |r| ==> r[k] == name[i + k];
  }

  /** `Path.GetDirectoryName`: the text before the last separator, less the separators
      that end it, but never shorter than the root; empty when the path has no separator
      or is the root itself. */
  function GetDirectoryName(p: string): (r: string)
    ensures |r| <= |p| && r == p[..|r|]
    ensures Separator !in p ==> r == []
    ensures !IsRooted(p) && Separator in p ==>
              r != [] && |r| < |p| && p[|r|] == Separator && !EndsWithChar(r, Separator)
  {
    var rootLength := if IsRooted(p) then 1 else 0;
    if |p| <= rootLength then []
    else
      var i := LastIndexOfChar(p, Separator);
      TrimSeparators(p, if i >= rootLength then i else rootLength, rootLength)
  }

  /** `p[..end]` less the separators that end it, keeping the first `rootLength` characters. */
  function TrimSeparators(p: string, end: nat, rootLength: nat): (r: string)
    requires rootLength <= end <= |p|
    ensures rootLength <= |r| <= end && r == p[..|r|]
    ensures |r| > rootLength ==> p[|r| - 1] != Separator
    ensures forall k :: |r| <= k < end ==> p[k] == Separator
    decreases end
  {
    if end > rootLength && p[end - 1] == Separator then TrimSeparators(p, end - 1, rootLength) else p[..end]
  }

  /** The directory part of `dir/name` is `dir`. */
  lemma DirectoryNameOf(dir: string, name: string)
    requires dir != [] && !IsRooted(dir) && !EndsWithChar(dir, Separator) && Separator !in name
    ensures GetDirectoryName(dir + "/" + name) == dir
  {
    var p := dir + "/" + name;
    assert p[|dir|] == Separator;
    assert p[|dir| + 1..] == name;
    assert p[..|dir|] == dir;
    assert p[|dir| - 1] == dir[|dir| - 1];
  }

  /** The file name is the last component of a path built by `Combine`. */
  lemma FileNameOfCombine(dir: string, name: string)
    requires name != [] && Separator !in name && dir != [] && !EndsWithChar(dir, Separator)
    ensures GetFileName(Combine(dir, name)) == name
  {
    var p := Combine(dir, name);
    assert p == dir + "/" + name;
    var i := LastIndexOfChar(p, Separator);
    assert p[|dir|] == Separator;
    assert p[|dir| + 1..] == name;
    assert forall k :: |dir| < k < |p| ==> p[k] == name[k - |dir| - 1];
  }

  // ---------------------------------------------------------------------
  // GetFullPath

  predicate IsPlainSegment(s: string) {
    s != [] && s != "." && s != ".." && Separator !in s
  }

  /** Walks the segments left to right: `.` and empty segments are dropped,
      `..` removes the previous kept segment (and stays at the root). */
  function ResolveSegments(segments: seq<string>, kept: seq<string>): (r: seq<string>)
    requires forall k :: 0 <= k < |kept| ==> IsPlainSegment(kept[k])
    requires forall k :: 0 <= k < |segments| ==> Separator !in segments[k]
    ensures forall k :: 0 <= k < |r| ==> IsPlainSegment(r[k])
  {
    if segments == [] then kept
    else
      var s := segments[0];
      if s == [] || s == "." then ResolveSegments(segments[1..], kept)
      else if s == ".." then ResolveSegments(segments[1..], if kept == [] then [] else kept[..|kept| - 1])
      else ResolveSegments(segments[1..], kept + [s])
  }

  /** The path `/s1/s2/...` of the given segments. */
  function Rooted(segments: seq<string>): (r: string)
    ensures IsRooted(r)
  {
    "/" + Join(segments, "/")
  }

  /** `Path.GetFullPath` of a rooted path: dot segments resolved, repeated separators
      collapsed, a trailing separator kept. */
  function Normalize(p: string): (r: string)
    ensures IsRooted(r)
  {
    var segments := ResolveSegments(Split(p, Separator), []);
    var body := Rooted(segments);
    if segments != [] && EndsWithChar(p, Separator) then body + "/" else body
  }

  /** `Path.GetFullPath(p)`, with a relative `p` taken against the working directory. */
  function FullPath(cwd: string, p: string): (r: string)
    ensures IsRooted(r)
  {
    Normalize(if IsRooted(p) then p else Combine(cwd, p))
  }

  // ---------------------------------------------------------------------
  // What GetFullPath promises

  /** Plain segments are kept as they come. */
  lemma {:induction false} ResolvePlain(segments: seq<string>, kept: seq<string>)
    requires forall k :: 0 <= k < |kept| ==> IsPlainSegment(kept[k])
    requires forall k :: 0 <= k < |segments| ==> IsPlainSegment(segments[k]) && Separator !in segments[k]
    ensures ResolveSegments(segments, kept) == kept + segments
    decreases |segments|
  {
    if segments != [] {
      ResolvePlain(segments[1..], kept + [segments[0]]);
      assert kept + [segments[0]] + segments[1..] == kept + segments;
    }
  }

  /** Resolving two lists of segments one after the other is resolving them together. */
  lemma {:induction false} ResolveAppend(xs: seq<string>, ys: seq<string>, kept: seq<string>)
    requires forall k :: 0 <= k < |kept| ==> IsPlainSegment(kept[k])
    requires forall k :: 0 <= k < |xs| ==> Separator !in xs[k]
    requires forall k :: 0 <= k < |ys| ==> Separator !in ys[k]
    ensures ResolveSegments(xs + ys, kept) == ResolveSegments(ys, ResolveSegments(xs, kept))
    decreases |xs|
  {
    if xs == [] {
      assert xs + ys == ys;
    } else {
      assert (xs + ys)[0] == xs[0] && (xs + ys)[1..] == xs[1..] + ys;
      var s := xs[0];
      var next := if s == [] || s == "." then kept
                  else if s == ".." then (if kept == [] then [] else kept[..|kept| - 1])
                  else kept + [s];
      ResolveAppend(xs[1..], ys, next);
    }
  }

  /** Without a `..` segment, resolving never removes a segment already kept. */
  lemma {:induction false} ResolveKeeps(segments: seq<string>, kept: seq<string>)
    requires forall k :: 0 <= k < |kept| ==> IsPlainSegment(kept[k])
    requires forall k :: 0 <= k < |segments| ==> Separator !in segments[k] && segments[k] != ".."
    ensures var r := ResolveSegments(segments, kept);
            |kept| <= |r| && r[..|kept|] == kept
    decreases |segments|
  {
    if segments != [] {
      var s := segments[0];
      var next := if s == [] || s == "." then kept else kept + [s];
      ResolveKeeps(segments[1..], next);
      var r := ResolveSegments(segments, kept);
      assert r[..|next|][..|kept|] == r[..|kept|];
    }
  }

  /** The rooted path of segments, as one join with an empty segment in front. */
  lemma RootedJoin(segments: seq<string>)
    requires segments != []
    ensures Rooted(segments) == Join([[]] + segments, "/")
  {
    assert ([[]] + segments)[1..] == segments;
  }

  /** The segments of a full path: the empty one before the root's separator, plain
      segments, and an empty one after a trailing separator. No `.` or `..` is left. */
  lemma NormalizeSegments(p: string)
    ensures var parts := Split(Normalize(p), Separator);
            |parts| >= 2 && parts[0] == []
            && (forall k :: 1 <= k < |parts| - 1 ==> IsPlainSegment(parts[k]))
            && (parts[|parts| - 1] == [] || IsPlainSegment(parts[|parts| - 1]))
  {
    var segments := ResolveSegments(Split(p, Separator), []);
    if segments == [] {
      assert Normalize(p) == Join([[], []], [Separator]);
      SplitJoin([[], []], Separator);
    } else {
      var parts := [[]] + segments;
      RootedJoin(segments);
      assert "/" == [Separator];
      if EndsWithChar(p, Separator) {
        JoinAppend(parts, [[]], "/");
        assert Normalize(p) == Join(parts + [[]], [Separator]);
        SplitJoin(parts + [[]], Separator);
      } else {
        assert Normalize(p) == Join(parts, [Separator]);
        SplitJoin(parts, Separator);
      }
    }
  }

  /** `GetFullPath` leaves no `.` or `..` segment. */
  lemma FullPathHasNoDotSegments(cwd: string, p: string)
    ensures var parts := Split(FullPath(cwd, p), Separator);
            forall k :: 0 <= k < |parts| ==> parts[k] != "." && parts[k] != ".."
  {
    NormalizeSegments(if IsRooted(p) then p else Combine(cwd, p));
  }

  /** A full path that does not end with a separator. */
  lemma RootedEnd(segments: seq<string>)
    requires segments != [] && forall k :: 0 <= k < |segments| ==> IsPlainSegment(segments[k])
    ensures !EndsWithChar(Rooted(segments), Separator)
  {
    var n := |segments|;
    var last := segments[n - 1];
    if n == 1 {
      assert Rooted(segments) == "/" + last;
    } else {
      JoinAppend(segments[..n - 1], [last], "/");
      assert segments[..n - 1] + [last] == segments;
      assert Rooted(segments) == "/" + Join(segments[..n - 1], "/") + "/" + last;
    }
    assert last[|last| - 1] in last;
  }

  /** A rooted path of plain segments splits into an empty segment and those segments,
      does not end with a separator, and is its own full path. */
  lemma RootedSegments(segments: seq<string>)
    requires segments != [] && forall k :: 0 <= k < |segments| ==> IsPlainSegment(segments[k])
    ensures Split(Rooted(segments), Separator) == [[]] + segments
    ensures !EndsWithChar(Rooted(segments), Separator)
    ensures ResolveSegments([[]] + segments, []) == segments
    ensures Normalize(Rooted(segments)) == Rooted(segments)
  {
    var parts: seq<string> := [[]] + segments;
    var p := Rooted(segments);
    RootedEnd(segments);
    RootedJoin(segments);
    assert "/" == [Separator];
    assert forall k :: 0 <= k < |parts| ==> Separator !in parts[k] by {
      forall k | 0 <= k < |parts| ensures Separator !in parts[k] {
        if k > 0 { assert parts[k] == segments[k - 1]; }
      }
    }
    SplitJoin(parts, Separator);
    assert Split(p, Separator) == parts;
    assert parts[1..] == segments;
    ResolvePlain(segments, []);
    assert ResolveSegments(parts, []) == ResolveSegments(segments, []) == segments;
    assert Normalize(p) == Rooted(segments);
  }

  /** A relative path without `..` segments, taken against a working directory, resolves
      to that directory or a path below it. */
  lemma FullPathStaysBelow(cwdSegments: seq<string>, p: string)
    requires cwdSegments != [] && forall k :: 0 <= k < |cwdSegments| ==> IsPlainSegment(cwdSegments[k])
    requires !IsRooted(p)
    requires forall k :: 0 <= k < |Split(p, Separator)| ==> Split(p, Separator)[k] != ".."
    ensures var cwd := Rooted(cwdSegments);
            var r := FullPath(cwd, p);
            |cwd| <= |r| && r[..|cwd|] == cwd && (|r| == |cwd| || r[|cwd|] == Separator)
  {
    var cwd := Rooted(cwdSegments);
    RootedSegments(cwdSegments);
    if p != [] {
      var q := cwd + "/" + p;
      assert Combine(cwd, p) == q;
      var segments := ResolveSegments(Split(q, Separator), []);
      assert segments == ResolveSegments(Split(p, Separator), cwdSegments) by {
        assert "/" == [Separator];
        SplitAppend(cwd, p, Separator);
        ResolveAppend([[]] + cwdSegments, Split(p, Separator), []);
      }
      ResolveKeeps(Split(p, Separator), cwdSegments);
      BelowRooted(cwdSegments, segments);
    }
  }

  /** Segments that extend the working directory's segments name it or a path below it. */
  lemma BelowRooted(prefix: seq<string>, segments: seq<string>)
    requires prefix != [] && |prefix| <= |segments| && segments[..|prefix|] == prefix
    ensures var cwd, body := Rooted(prefix), Rooted(segments);
            |cwd| <= |body| && body[..|cwd|] == cwd && (|body| == |cwd| || body[|cwd|] == Separator)
  {
    var tail := segments[|prefix|..];
    assert segments == prefix + tail;
    var cwd := Rooted(prefix);
    if tail != [] {
      JoinAppend(prefix, tail, "/");
      var body := cwd + "/" + Join(tail, "/");
      assert Rooted(segments) == body;
      assert body[..|cwd|] == cwd && body[|cwd|] == Separator;
    } else {
      assert segments == prefix;
    }
  }

  /** A text without separators is one segment. */
  lemma SplitWithoutSeparator(s: string)
    requires Separator !in s
    ensures Split(s, Separator) == [s]
  {
  }

  /** A segment and a separator in front of a text add that segment in front of its segments. */
  lemma SplitCons(a: string, rest: string)
    requires Separator !in a
    ensures Split(a + [Separator] + rest, Separator) == [a] + Split(rest, Separator)
  {
    SplitAppend(a, rest, Separator);
    SplitWithoutSeparator(a);
  }

  /** Three segments joined by separators split back into them. */
  lemma SplitThree(a: string, b: string, c: string)
    requires Separator !in a && Separator !in b && Separator !in c
    ensures Split(a + [Separator] + (b + [Separator] + c), Separator) == [a, b, c]
  {
    SplitWithoutSeparator(c);
    SplitCons(b, c);
    SplitCons(a, b + [Separator] + c);
  }

  /** Segments after a separator follow the segments of what precedes it. */
  lemma SplitAfter(dir: string, rest: string, parts: seq<string>)
    requires Split(rest, Separator) == parts
    ensures Split(dir + [Separator] + rest, Separator) == Split(dir, Separator) + parts
  {
    SplitAppend(dir, rest, Separator);
  }

  lemma ParentPathText(dir: string, sibling: string, name: string)
    ensures dir + "/../" + sibling + "/" + name == dir + [Separator] + (".." + [Separator] + (sibling + [Separator] + name))
  {
  }

  /** `..` right after a directory's path leads out of it: the segment after the `..`
      replaces the directory's last segment. */
  lemma ParentOfRootIsSibling(cwd: string, init: seq<string>, last: string, sibling: string, name: string)
    requires forall k :: 0 <= k < |init| ==> IsPlainSegment(init[k])
    requires IsPlainSegment(last) && IsPlainSegment(sibling) && IsPlainSegment(name)
    ensures FullPath(cwd, Rooted(init + [last]) + "/../" + sibling + "/" + name) == Rooted(init + [sibling, name])
  {
    var root := init + [last];
    var q := Rooted(root) + "/../" + sibling + "/" + name;
    var up := ["..", sibling, name];
    var parts := [[]] + root + up;
    assert Split(q, Separator) == parts by {
      RootedSegments(root);
      var rest := ".." + [Separator] + (sibling + [Separator] + name);
      ParentPathText(Rooted(root), sibling, name);
      SplitThree("..", sibling, name);
      SplitAfter(Rooted(root), rest, up);
    }
    assert ResolveSegments(parts, []) == init + [sibling, name] by {
      RootPartsWithoutSeparator(root);
      ResolveAppend([[]] + root, up, []);
      RootedSegments(root);
      ResolveParentStep(init, last, sibling, name);
    }
    assert !EndsWithChar(q, Separator) by {
      assert q[|q| - 1] == name[|name| - 1];
    }
    NormalizeOfSegments(q, parts, init + [sibling, name]);
  }

  /** `..` and one segment after a directory's path: that segment replaces the directory's
      last segment. */
  lemma ParentThenSegment(cwd: string, init: seq<string>, last: string, sibling: string)
    requires forall k :: 0 <= k < |init| ==> IsPlainSegment(init[k])
    requires IsPlainSegment(last) && IsPlainSegment(sibling)
    ensures FullPath(cwd, Rooted(init + [last]) + "/../" + sibling) == Rooted(init + [sibling])
  {
    var root := init + [last];
    var q := Rooted(root) + "/../" + sibling;
    var up := ["..", sibling];
    var parts := [[]] + root + up;
    assert Split(q, Separator) == parts by {
      RootedSegments(root);
      ParentSegmentText(Rooted(root), sibling);
      SplitWithoutSeparator(sibling);
      SplitCons("..", sibling);
      SplitAfter(Rooted(root), ".." + [Separator] + sibling, up);
    }
    assert ResolveSegments(parts, []) == init + [sibling] by {
      RootPartsWithoutSeparator(root);
      ResolveAppend([[]] + root, up, []);
      RootedSegments(root);
      ResolveParentOnly(init, last, sibling);
    }
    assert !EndsWithChar(q, Separator) by {
      assert q[|q| - 1] == sibling[|sibling| - 1];
    }
    NormalizeOfSegments(q, parts, init + [sibling]);
  }

  lemma ParentSegmentText(dir: string, sibling: string)
    ensures dir + "/../" + sibling == dir + [Separator] + (".." + [Separator] + sibling)
  {
  }

  /** `..` drops the last segment kept; a plain segment after it is kept. */
  lemma ResolveParentOnly(kept: seq<string>, last: string, sibling: string)
    requires forall k :: 0 <= k < |kept| ==> IsPlainSegment(kept[k])
    requires IsPlainSegment(last) && IsPlainSegment(sibling)
    ensures ResolveSegments(["..", sibling], kept + [last]) == kept + [sibling]
  {
    var up := ["..", sibling];
    assert up[1..] == [sibling] && (kept + [last])[..|kept|] == kept;
    ResolvePlain([sibling], kept);
  }

  /** `..` drops the last segment kept; plain segments after it are kept. */
  lemma ResolveParentStep(kept: seq<string>, last: string, sibling: string, name: string)
    requires forall k :: 0 <= k < |kept| ==> IsPlainSegment(kept[k])
    requires IsPlainSegment(last) && IsPlainSegment(sibling) && IsPlainSegment(name)
    ensures ResolveSegments(["..", sibling, name], kept + [last]) == kept + [sibling, name]
  {
    var up := ["..", sibling, name];
    assert up[1..] == [sibling, name] && (kept + [last])[..|kept|] == kept;
    ResolvePlain([sibling, name], kept);
  }

  /** Plain segments after the root's empty segment hold no separator. */
  lemma RootPartsWithoutSeparator(segments: seq<string>)
    requires forall k :: 0 <= k < |segments| ==> IsPlainSegment(segments[k])
    ensures forall k :: 0 <= k < |[[]] + segments| ==> Separator !in ([[]] + segments)[k]
  {
    forall k | 0 <= k < |[[]] + segments|
      ensures Separator !in ([[]] + segments)[k]
    {
      if k > 0 {
        assert ([[]] + segments)[k] == segments[k - 1];
      }
    }
  }

  /** The full path of a rooted path that does not end with a separator is the rooted path of its resolved segments. */
  lemma NormalizeOfSegments(q: string, parts: seq<string>, segments: seq<string>)
    requires IsRooted(q) && !EndsWithChar(q, Separator)
    requires Split(q, Separator) == parts && ResolveSegments(parts, []) == segments
    ensures Normalize(q) == Rooted(segments)
  {
  }

  /** A sibling whose name extends the directory's last segment has the directory's path
      as a text prefix, followed by something other than a separator. */
  lemma SiblingExtendsRoot(init: seq<string>, last: string, suffix: string, name: string)
    requires forall k :: 0 <= k < |init| ==> IsPlainSegment(init[k])
    requires IsPlainSegment(last) && suffix != [] && Separator !in suffix
    ensures var root, r := Rooted(init + [last]), Rooted(init + [last + suffix, name]);
            |root| < |r| && r[..|root|] == root && r[|root|] == suffix[0] && r[|root|] != Separator
  {
    var root := Rooted(init + [last]);
    var tail := last + suffix + "/" + name;
    assert Join([last + suffix, name], "/") == tail by {
      assert [last + suffix, name][1..] == [name];
    }
    if init == [] {
      assert init + [last + suffix, name] == [last + suffix, name];
      assert root == "/" + last;
      assert Rooted(init + [last + suffix, name]) == "/" + tail;
    } else {
      JoinAppend(init, [last], "/");
      JoinAppend(init, [last + suffix, name], "/");
      var front := "/" + Join(init, "/") + "/";
      assert root == front + last;
      assert Rooted(init + [last + suffix, name]) == front + tail;
    }
  }
}
