/** String and sequence primitives of the .NET base library that the server
    relies on, stated over Dafny strings (sequences of Unicode scalar values).
    `OrdinalIgnoreCase` comparison is modelled by ASCII upper-case folding. */
module Text {

  // ---------------------------------------------------------------------
  // Characters

  /** `char.IsWhiteSpace`: the Unicode separators plus U+0009..U+000D and U+0085. */
  predicate IsWhiteSpace(c: char) {
    var n := c as int;
    (9 <= n <= 13) || n == 0x20 || n == 0x85 || n == 0xA0 || n == 0x1680
    || (0x2000 <= n <= 0x200A) || n == 0x2028 || n == 0x2029 || n == 0x202F
    || n == 0x205F || n == 0x3000
  }

  /** `string.IsNullOrWhiteSpace` for a present string. */
  predicate IsBlank(s: string) {
    forall i :: 0 <= i < |s| ==> IsWhiteSpace(s[i])
  }

  /** Upper-case folding used by `OrdinalIgnoreCase` (ASCII letters only). */
  function Upper(c: char): (u: char)
    ensures 'a' <= c <= 'z' ==> u as int == c as int - 32
    ensures !('a' <= c <= 'z') ==> u == c
    ensures !('a' <= u <= 'z')
  {
    if 'a' <= c <= 'z' then (c as int - 32) as char else c
  }

  function Fold(s: string): (f: string)
    ensures |f| == |s|
    ensures forall i :: 0 <= i < |s| ==> f[i] == Upper(s[i])
  {
    seq(|s|, i requires 0 <= i < |s| => Upper(s[i]))
  }

  lemma FoldIdempotent(s: string)
    ensures Fold(Fold(s)) == Fold(s)
  {
  }

  lemma FoldAppend(a: string, b: string)
    ensures Fold(a + b) == Fold(a) + Fold(b)
  {
  }

  predicate EqualsIgnoreCase(a: string, b: string) {
    Fold(a) == Fold(b)
  }

  // ---------------------------------------------------------------------
  // Prefixes, suffixes, search

  predicate StartsWith<T(==)>(s: seq<T>, prefix: seq<T>) {
    |prefix| <= |s| && s[..|prefix|] == prefix
  }

  predicate StartsWithIgnoreCase(s: string, prefix: string) {
    StartsWith(Fold(s), Fold(prefix))
  }

  predicate EndsWithChar(s: string, c: char) {
    |s| > 0 && s[|s| - 1] == c
  }

  /** True when `t` occurs in `s` at index `i`. */
  predicate OccursAt<T(==)>(s: seq<T>, t: seq<T>, i: int) {
    0 <= i && i + |t| <= |s| && s[i..i + |t|] == t
  }

  /** `IndexOf` of a subsequence: the first index where `t` occurs, or -1. */
  function IndexOf<T(==)>(s: seq<T>, t: seq<T>): (r: int)
    ensures r == -1 || OccursAt(s, t, r)
    ensures r == -1 <==> forall i :: 0 <= i <= |s| ==> !OccursAt(s, t, i)
    ensures r != -1 ==> forall i :: 0 <= i < r ==> !OccursAt(s, t, i)
    decreases |s|
  {
    if |t| > |s| then -1
    else if s[..|t|] == t then 0
    else
      var k := IndexOf(s[1..], t);
      assert forall i :: 1 <= i <= |s| ==> (OccursAt(s, t, i) <==> OccursAt(s[1..], t, i - 1));
      if k == -1 then -1 else k + 1
  }

  /** `string.Contains(string, StringComparison.Ordinal)`. */
  predicate Contains<T(==)>(s: seq<T>, t: seq<T>) {
    IndexOf(s, t) != -1
  }

  lemma ContainsAt<T>(s: seq<T>, t: seq<T>, i: int)
    requires OccursAt(s, t, i)
    ensures Contains(s, t)
  {
  }

  /** `IndexOf(char)`: first position of `c`, or -1. */
  function IndexOfChar<T(==)>(s: seq<T>, c: T): (r: int)
    ensures -1 <= r < |s|
    ensures r == -1 <==> c !in s
    ensures r != -1 ==> s[r] == c && c !in s[..r]
  {
    if s == [] then -1
    else if s[0] == c then 0
    else
      var k := IndexOfChar(s[1..], c);
      assert s[1..][..if k == -1 then 0 else k] == s[1..if k == -1 then 1 else k + 1];
      if k == -1 then -1 else k + 1
  }

  /** `LastIndexOf(char)`: last position of `c`, or -1. */
  function LastIndexOfChar(s: string, c: char): (r: int)
    ensures -1 <= r < |s|
    ensures r == -1 <==> c !in s
    ensures r != -1 ==> s[r] == c && c !in s[r + 1..]
  {
    if s == [] then -1
    else if s[|s| - 1] == c then |s| - 1
    else
      var k := LastIndexOfChar(s[..|s| - 1], c);
      assert c !in s[..|s| - 1] ==> c !in s by {
        assert s == s[..|s| - 1] + [s[|s| - 1]];
      }
      if k == -1 then -1
      else
        assert s[k + 1..] == s[..|s| - 1][k + 1..] + [s[|s| - 1]];
        k
  }

  // ---------------------------------------------------------------------
  // Trimming

  function TrimStart(s: string): (r: string)
    ensures |r| <= |s| && r == s[|s| - |r|..]
    ensures r == [] || !IsWhiteSpace(r[0])
    ensures IsBlank(s[..|s| - |r|])
  {
    if s == [] || !IsWhiteSpace(s[0]) then s
    else
      var r := TrimStart(s[1..]);
      var n := |s| - |r|;
      assert s[n..] == s[1..][n - 1..];
      assert IsBlank(s[..n]) by {
        assert forall i :: 1 <= i < n ==> s[..n][i] == s[1..][..n - 1][i - 1];
      }
      r
  }

  function TrimEnd(s: string): (r: string)
    ensures |r| <= |s| && r == s[..|r|]
    ensures r == [] || !IsWhiteSpace(r[|r| - 1])
    ensures IsBlank(s[|r|..])
  {
    if s == [] || !IsWhiteSpace(s[|s| - 1]) then s
    else
      var r := TrimEnd(s[..|s| - 1]);
      assert s[..|r|] == s[..|s| - 1][..|r|];
      assert IsBlank(s[|r|..]) by {
        assert forall i :: 0 <= i < |s| - 1 - |r| ==> s[|r|..][i] == s[..|s| - 1][|r|..][i];
      }
      r
  }

  /** `string.Trim()`: removes leading and trailing white space. */
  function Trim(s: string): (r: string)
  {
    TrimEnd(TrimStart(s))
  }

  /** A trimmed string is a contiguous piece of the input with no white space at
      either end, and everything removed was white space. */
  lemma TrimSpec(s: string)
    ensures exists i, j :: 0 <= i <= j <= |s| && Trim(s) == s[i..j]
                           && IsBlank(s[..i]) && IsBlank(s[j..])
    ensures Trim(s) == [] || (!IsWhiteSpace(Trim(s)[0]) && !IsWhiteSpace(Trim(s)[|Trim(s)| - 1]))
  {
    var i, j := TrimBounds(s);
    TrimEnds(s);
  }

  /** Where `Trim` cuts. */
  lemma TrimBounds(s: string) returns (i: nat, j: nat)
    ensures i <= j <= |s| && Trim(s) == s[i..j] && IsBlank(s[..i]) && IsBlank(s[j..])
  {
    var t := TrimStart(s);
    var r := TrimEnd(t);
    i := |s| - |t|;
    j := i + |r|;
    assert r == t[..|r|];
    assert s[j..] == t[|r|..];
  }

  /** Every character of the trimmed text is one of the input's. */
  lemma TrimKeepsCharacters(s: string)
    ensures forall k :: 0 <= k < |Trim(s)| ==> Trim(s)[k] in s
  {
    var i, j := TrimBounds(s);
    forall k | 0 <= k < |Trim(s)| ensures Trim(s)[k] in s {
      assert Trim(s)[k] == s[i + k];
    }
  }

  lemma TrimEnds(s: string)
    ensures Trim(s) == [] || (!IsWhiteSpace(Trim(s)[0]) && !IsWhiteSpace(Trim(s)[|Trim(s)| - 1]))
  {
    var t := TrimStart(s);
    var r := TrimEnd(t);
    if r != [] {
      assert r[0] == t[0];
    }
  }

  predicate IsTrimmed(s: string) {
    s == [] || (!IsWhiteSpace(s[0]) && !IsWhiteSpace(s[|s| - 1]))
  }

  lemma TrimmedIsFixpoint(s: string)
    requires IsTrimmed(s)
    ensures Trim(s) == s
  {
  }

  lemma TrimIdempotent(s: string)
    ensures IsTrimmed(Trim(s))
    ensures Trim(Trim(s)) == Trim(s)
  {
    TrimSpec(s);
    TrimmedIsFixpoint(Trim(s));
  }

  /** `Trim()` yields the empty string exactly for blank input. */
  lemma {:induction false} TrimEmptyIffBlank(s: string)
    ensures Trim(s) == [] <==> IsBlank(s)
  {
    var t := TrimStart(s);
    var n := |s| - |t|;
    assert t != [] ==> t[0] == s[n];
    assert forall i :: 0 <= i < n ==> s[..n][i] == s[i];
    if !IsBlank(s) {
      var k :| 0 <= k < |s| && !IsWhiteSpace(s[k]);
      assert k >= n;
    }
  }

  /** `TrimStart(c)` with a single character. */
  function TrimStartChar(s: string, c: char): (r: string)
    ensures |r| <= |s| && r == s[|s| - |r|..]
    ensures r == [] || r[0] != c
    ensures forall i :: 0 <= i < |s| - |r| ==> s[i] == c
  {
    if s == [] || s[0] != c then s else TrimStartChar(s[1..], c)
  }

  /** `TrimEnd(c)` with a single character. */
  function TrimEndChar(s: string, c: char): (r: string)
    ensures |r| <= |s| && r == s[..|r|]
    ensures r == [] || r[|r| - 1] != c
    ensures forall i :: |r| <= i < |s| ==> s[i] == c
  {
    if s == [] || s[|s| - 1] != c then s else TrimEndChar(s[..|s| - 1], c)
  }

  // ---------------------------------------------------------------------
  // Replacing, splitting and joining

  /** `Replace(char, char)`. */
  function ReplaceChar(s: string, from: char, to: char): (r: string)
    ensures |r| == |s|
    ensures forall i :: 0 <= i < |s| ==> r[i] == (if s[i] == from then to else s[i])
  {
    if s == [] then [] else [if s[0] == from then to else s[0]] + ReplaceChar(s[1..], from, to)
  }

  /** `Split(separator)` with no options: every piece, empty ones included. */
  function Split<T(==)>(s: seq<T>, sep: T): (parts: seq<seq<T>>)
    ensures |parts| >= 1
    ensures forall k :: 0 <= k < |parts| ==> sep !in parts[k]
    decreases |s|
  {
    var i := IndexOfChar(s, sep);
    if i == -1 then [s] else [s[..i]] + Split(s[i + 1..], sep)
  }

  function Join<T>(parts: seq<seq<T>>, sep: seq<T>): seq<T>
  {
    if parts == [] then []
    else if |parts| == 1 then parts[0]
    else parts[0] + sep + Join(parts[1..], sep)
  }

  /** Splitting and joining with the same separator are inverse. */
  lemma {:induction false} JoinSplit<T>(s: seq<T>, sep: T)
    ensures Join(Split(s, sep), [sep]) == s
    decreases |s|
  {
    var i := IndexOfChar(s, sep);
    if i != -1 {
      var tail := s[i + 1..];
      JoinSplit(tail, sep);
      JoinFront(s[..i], Split(tail, sep), [sep]);
      CutAt(s, [sep], i);
    }
  }

  /** Joining pieces that do not contain the separator and splitting again gives the pieces back. */
  lemma {:induction false} SplitJoin<T>(parts: seq<seq<T>>, sep: T)
    requires parts != []
    requires forall k :: 0 <= k < |parts| ==> sep !in parts[k]
    ensures Split(Join(parts, [sep]), sep) == parts
  {
    if |parts| > 1 {
      var rest := Join(parts[1..], [sep]);
      var s := parts[0] + [sep] + rest;
      assert IndexOfChar(s, sep) == |parts[0]| by {
        assert s[|parts[0]|] == sep && s[..|parts[0]|] == parts[0];
      }
      assert s[|parts[0]| + 1..] == rest;
      SplitJoin(parts[1..], sep);
    }
  }

  /** Joining two non-empty lists of pieces puts one separator between their joins. */
  lemma {:induction false} JoinAppend<T>(xs: seq<seq<T>>, ys: seq<seq<T>>, sep: seq<T>)
    requires xs != [] && ys != []
    ensures Join(xs + ys, sep) == Join(xs, sep) + sep + Join(ys, sep)
    decreases |xs|
  {
    if |xs| == 1 {
      assert (xs + ys)[1..] == ys;
    } else {
      assert (xs + ys)[1..] == xs[1..] + ys;
      JoinAppend(xs[1..], ys, sep);
    }
  }

  /** The first position of `c` is the one where it occurs and before which it does not. */
  lemma {:induction false} FirstIndexOfChar<T>(s: seq<T>, c: T, i: nat)
    requires i < |s| && s[i] == c && c !in s[..i]
    ensures IndexOfChar(s, c) == i
    decreases i
  {
    if i > 0 {
      assert s[..i][0] == s[0];
      assert s[1..][..i - 1] == s[1..i];
      FirstIndexOfChar(s[1..], c, i - 1);
    }
  }

  /** Splitting at a separator placed between two texts splits each of them. */
  lemma {:induction false} SplitAppend<T>(a: seq<T>, b: seq<T>, sep: T)
    ensures Split(a + [sep] + b, sep) == Split(a, sep) + Split(b, sep)
    decreases |a|
  {
    if sep !in a {
      SplitAppendWhole(a, b, sep);
    } else {
      var i := IndexOfChar(a, sep);
      var tail := a[i + 1..];
      SplitAppendFirst(a, b, sep);
      SplitAppend(tail, b, sep);
      ConsAppend(a[..i], Split(tail, sep), Split(b, sep));
    }
  }

  /** The case where the first text holds no separator: it is the first piece. */
  lemma SplitAppendWhole<T>(a: seq<T>, b: seq<T>, sep: T)
    requires sep !in a
    ensures Split(a + [sep] + b, sep) == [a] + Split(b, sep)
    ensures Split(a, sep) == [a]
  {
    var s := a + [sep] + b;
    assert s[..|a|] == a && s[|a| + 1..] == b;
    SplitAtFirst(s, sep, |a|);
  }

  /** The case where the first text holds a separator: both splits start with the piece
      before it. */
  lemma SplitAppendFirst<T>(a: seq<T>, b: seq<T>, sep: T)
    requires sep in a
    ensures var i := IndexOfChar(a, sep);
            && Split(a + [sep] + b, sep) == [a[..i]] + Split(a[i + 1..] + [sep] + b, sep)
            && Split(a, sep) == [a[..i]] + Split(a[i + 1..], sep)
  {
    var i := IndexOfChar(a, sep);
    var s := a + [sep] + b;
    assert s[..i] == a[..i] && s[i + 1..] == a[i + 1..] + [sep] + b;
    SplitAtFirst(s, sep, i);
  }

  /** Putting an element in front and appending can be done in either order. */
  lemma ConsAppend<U>(x: U, p: seq<U>, q: seq<U>)
    ensures [x] + (p + q) == ([x] + p) + q
  {
  }

  /** The first piece ends at the first separator. */
  lemma SplitAtFirst<T>(s: seq<T>, sep: T, i: nat)
    requires i < |s| && s[i] == sep && sep !in s[..i]
    ensures Split(s, sep) == [s[..i]] + Split(s[i + 1..], sep)
  {
    FirstIndexOfChar(s, sep, i);
  }

  /** A value absent from the input is absent from every piece. */
  lemma {:induction false} SplitKeepsAbsent<T>(s: seq<T>, sep: T, x: T)
    requires x !in s
    ensures forall k :: 0 <= k < |Split(s, sep)| ==> x !in Split(s, sep)[k]
    decreases |s|
  {
    var i := IndexOfChar(s, sep);
    if i != -1 {
      SplitKeepsAbsent(s[i + 1..], sep, x);
      assert x !in s[..i];
    }
  }

  /** The pieces of a split that are not empty, in order (`RemoveEmptyEntries`). */
  function NonEmpty<T>(parts: seq<seq<T>>): (r: seq<seq<T>>)
    ensures forall k :: 0 <= k < |r| ==> r[k] != [] && r[k] in parts
    ensures |r| <= |parts|
  {
    if parts == [] then []
    else if parts[0] == [] then NonEmpty(parts[1..])
    else [parts[0]] + NonEmpty(parts[1..])
  }

  /** Pieces without empty entries pass through unchanged. */
  lemma {:induction false} NonEmptyKeepsAll<T>(parts: seq<seq<T>>)
    requires forall k :: 0 <= k < |parts| ==> parts[k] != []
    ensures NonEmpty(parts) == parts
  {
    if parts != [] {
      NonEmptyKeepsAll(parts[1..]);
    }
  }

  /** `Split(separator, StringSplitOptions.RemoveEmptyEntries)`. */
  function SplitNonEmpty<T(==)>(s: seq<T>, sep: T): (parts: seq<seq<T>>)
    ensures forall k :: 0 <= k < |parts| ==> parts[k] != [] && sep !in parts[k]
  {
    NonEmpty(Split(s, sep))
  }

  /** `Split(string[] { sep }, StringSplitOptions.None)` for a multi-character separator. */
  function SplitOn<T(==)>(s: seq<T>, sep: seq<T>): (parts: seq<seq<T>>)
    requires sep != []
    ensures |parts| >= 1
    ensures forall k :: 0 <= k < |parts| ==> !Contains(parts[k], sep)
    decreases |s|
  {
    var i := IndexOf(s, sep);
    if i == -1 then [s]
    else
      assert !Contains(s[..i], sep) by {
        if Contains(s[..i], sep) {
          var j := IndexOf(s[..i], sep);
          assert OccursAt(s, sep, j);
        }
      }
      [s[..i]] + SplitOn(s[i + |sep|..], sep)
  }

  lemma {:induction false} JoinSplitOn<T>(s: seq<T>, sep: seq<T>)
    requires sep != []
    ensures Join(SplitOn(s, sep), sep) == s
    decreases |s|
  {
    var i := IndexOf(s, sep);
    if i != -1 {
      var tail := s[i + |sep|..];
      JoinSplitOn(tail, sep);
      JoinFront(s[..i], SplitOn(tail, sep), sep);
      CutAt(s, sep, i);
    }
  }

  /** Joining a first piece in front of at least one more piece. */
  lemma JoinFront<T>(first: seq<T>, rest: seq<seq<T>>, sep: seq<T>)
    requires rest != []
    ensures Join([first] + rest, sep) == first + sep + Join(rest, sep)
  {
    assert ([first] + rest)[1..] == rest;
  }

  /** A sequence is what precedes an occurrence, the occurrence, and what follows it. */
  lemma CutAt<T>(s: seq<T>, t: seq<T>, i: int)
    requires OccursAt(s, t, i)
    ensures s == s[..i] + t + s[i + |t|..]
  {
    assert s == s[..i] + s[i..i + |t|] + s[i + |t|..];
  }

  /** Joining with a separator whose first element occurs nowhere else (not in the
      parts, not later in the separator) and splitting on it again gives the parts back. */
  lemma {:induction false} SplitOnJoin<T>(parts: seq<seq<T>>, sep: seq<T>)
    requires sep != [] && parts != []
    requires sep[0] !in sep[1..]
    requires forall k :: 0 <= k < |parts| ==> sep[0] !in parts[k]
    ensures SplitOn(Join(parts, sep), sep) == parts
  {
    if |parts| == 1 {
      NoOccurrence(parts[0], sep);
    } else {
      var p := parts[0];
      var rest := Join(parts[1..], sep);
      var s := p + sep + rest;
      assert Join(parts, sep) == s;
      FirstOccurrence(p, sep, rest);
      assert s[..|p|] == p && s[|p| + |sep|..] == rest;
      SplitOnJoin(parts[1..], sep);
      assert parts == [p] + parts[1..];
    }
  }

  lemma NoOccurrence<T>(s: seq<T>, sep: seq<T>)
    requires sep != [] && sep[0] !in s
    ensures IndexOf(s, sep) == -1
  {
    forall i | 0 <= i <= |s| ensures !OccursAt(s, sep, i) {
      if i < |s| && i + |sep| <= |s| {
        assert s[i..i + |sep|][0] == s[i];
      }
    }
  }

  lemma FirstOccurrence<T>(p: seq<T>, sep: seq<T>, rest: seq<T>)
    requires sep != [] && sep[0] !in p
    ensures IndexOf(p + sep + rest, sep) == |p|
  {
    var s := p + sep + rest;
    assert OccursAt(s, sep, |p|) by {
      assert s[|p|..|p| + |sep|] == sep;
    }
    forall i | 0 <= i < |p| ensures !OccursAt(s, sep, i) {
      if i + |sep| <= |s| {
        assert s[i..i + |sep|][0] == s[i] == p[i];
      }
    }
  }

  /** No element occurs twice. */
  predicate Distinct<T(==)>(s: seq<T>) {
    forall i, j :: 0 <= i < j < |s| ==> s[i] != s[j]
  }

  // ---------------------------------------------------------------------
  // Character sets

  predicate NoneOf(s: string, chars: set<char>) {
    forall i :: 0 <= i < |s| ==> s[i] !in chars
  }

  /** Replace every character of `chars` with `with`. */
  function ReplaceAll(s: string, chars: set<char>, with: char): (r: string)
    requires with !in chars
    ensures |r| == |s| && NoneOf(r, chars)
    ensures forall i :: 0 <= i < |s| ==> r[i] == (if s[i] in chars then with else s[i])
  {
    if s == [] then [] else [if s[0] in chars then with else s[0]] + ReplaceAll(s[1..], chars, with)
  }
}
