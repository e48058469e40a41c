/** Workspace patterns and the search for the workspace root. */
module Workspace {
  import opened Text

  const ANY_DEPTH := "**"
  const ANY_ONE := "*"

  /** The matcher: `**` tries every number of segments, everything else takes one. */
  predicate MatchFrom(pattern: seq<string>, path: seq<string>)
    decreases |pattern|
  {
    if pattern == [] then path == []
    else if pattern[0] == ANY_DEPTH then exists next :: 0 <= next <= |path| && MatchFrom(pattern[1..], path[next..])
    else
      && path != []
      && (pattern[0] == ANY_ONE || pattern[0] == path[0])
      && MatchFrom(pattern[1..], path[1..])
  }

  /** The source's recursion on indices. */
  method Match(pattern: seq<string>, path: seq<string>, p: nat, r: nat) returns (matched: bool)
    requires p <= |pattern| && r <= |path|
    ensures matched <==> MatchFrom(pattern[p..], path[r..])
    decreases |pattern| - p
  {
    if p == |pattern| {
      return r == |path|;
    }
    var segment := pattern[p];
    assert pattern[p..][0] == segment && pattern[p..][1..] == pattern[p + 1..];
    if segment == ANY_DEPTH {
      for next := r to |path| + 1
        invariant forall n :: r <= n < next ==> !MatchFrom(pattern[p + 1..], path[n..])
      {
        var rest := Match(pattern, path, p + 1, next);
        if rest {
          assert path[r..][next - r..] == path[next..];
          return true;
        }
      }
      assert forall n :: 0 <= n <= |path[r..]| ==> path[r..][n..] == path[r + n..];
      return false;
    }
    if r == |path| {
      return false;
    }
    if segment != ANY_ONE && segment != path[r] {
      return false;
    }
    assert path[r..][0] == path[r] && path[r..][1..] == path[r + 1..];
    matched := Match(pattern, path, p + 1, r + 1);
  }

  // ---- The reading: the path splits into consecutive pieces, one for each pattern segment.

  predicate PieceFits(segment: string, piece: seq<string>) {
    segment == ANY_DEPTH || (|piece| == 1 && (segment == ANY_ONE || piece[0] == segment))
  }

  function Flatten(pieces: seq<seq<string>>): seq<string> {
    if pieces == [] then [] else pieces[0] + Flatten(pieces[1..])
  }

  ghost predicate Splits(pattern: seq<string>, path: seq<string>, pieces: seq<seq<string>>) {
    && |pieces| == |pattern| && Flatten(pieces) == path
    && forall i :: 0 <= i < |pattern| ==> PieceFits(pattern[i], pieces[i])
  }

  ghost predicate Covers(pattern: seq<string>, path: seq<string>) {
    exists pieces :: Splits(pattern, path, pieces)
  }

  lemma {:induction false} MatchGivesSplit(pattern: seq<string>, path: seq<string>) returns (pieces: seq<seq<string>>)
    requires MatchFrom(pattern, path)
    ensures Splits(pattern, path, pieces)
    decreases |pattern|
  {
    if pattern == [] {
      pieces := [];
    } else {
      var n := 1;
      if pattern[0] == ANY_DEPTH {
        n :| 0 <= n <= |path| && MatchFrom(pattern[1..], path[n..]);
      }
      var rest := MatchGivesSplit(pattern[1..], path[n..]);
      pieces := [path[..n]] + rest;
      assert pieces[1..] == rest;
      assert forall i :: 1 <= i < |pattern| ==> pattern[i] == pattern[1..][i - 1] && pieces[i] == rest[i - 1];
      assert path[..n] + path[n..] == path;
    }
  }

  lemma {:induction false} SplitGivesMatch(pattern: seq<string>, path: seq<string>, pieces: seq<seq<string>>)
    requires Splits(pattern, path, pieces)
    ensures MatchFrom(pattern, path)
    decreases |pattern|
  {
    if pattern != [] {
      var n, rest := |pieces[0]|, Flatten(pieces[1..]);
      assert PieceFits(pattern[0], pieces[0]);
      assert path[n..] == rest && (n == 1 ==> path[0] == pieces[0][0]);
      assert forall i :: 0 <= i < |pattern| - 1 ==>
                           pattern[1..][i] == pattern[i + 1] && pieces[1..][i] == pieces[i + 1];
      SplitGivesMatch(pattern[1..], rest, pieces[1..]);
    }
  }

  /** A path matches exactly when it splits into fitting pieces. */
  lemma MatchIffSplits(pattern: seq<string>, path: seq<string>)
    ensures MatchFrom(pattern, path) <==> Covers(pattern, path)
  {
    if MatchFrom(pattern, path) {
      var pieces := MatchGivesSplit(pattern, path);
    }
    if Covers(pattern, path) {
      var pieces :| Splits(pattern, path, pieces);
      SplitGivesMatch(pattern, path, pieces);
    }
  }

  /** The name of a directory entry. */
  type Name = s: string | s != "" && s != "." && '/' !in s witness "a"

  /** A directory is the sequence of its path segments. */
  type Directory = seq<Name>

  /** A relative path as text. */
  function RelativeText(path: Directory): string {
    if path == [] then "." else Join(path, '/')
  }

  function RelativeSegments(relative: string): seq<string> {
    if relative == "." then [] else Split(relative, '/')
  }

  lemma {:induction false} LongJoin(path: Directory)
    requires path != []
    ensures Join(path, '/') != "" && Join(path, '/') != "."
  {
    if |path| > 1 {
      LongJoin(Init(path));
      assert |Join(path, '/')| >= 2;
    }
  }

  /** The text of a relative path splits into its segments again. */
  lemma SegmentsOfText(path: Directory)
    ensures RelativeSegments(RelativeText(path)) == path
  {
    if path != [] {
      LongJoin(path);
      SplitJoin(path, '/');
    }
  }

  /** `matchWorkspacePattern`. */
  method MatchPattern(pattern: string, relative: string) returns (matched: bool)
    ensures matched <==> Covers(Split(pattern, '/'), RelativeSegments(relative))
  {
    var segments, path := Split(pattern, '/'), [];
    if relative != "." {
      path := Split(relative, '/');
    }
    MatchIffSplits(segments, path);
    assert segments[0..] == segments && path[0..] == path;
    matched := Match(segments, path, 0, 0);
  }

  // ---- The search for the root.

  /** What the metadata of a directory says: nothing, an error, or a workspace with its patterns. */
  datatype Metadata = NoWorkspace | Unreadable | Claims(patterns: seq<string>, settingsOnly: bool)

  datatype Root = Found(directory: Directory, claimed: bool) | Failed

  ghost predicate SomePatternMatches(patterns: seq<string>, relative: Directory) {
    exists pattern :: pattern in patterns && Covers(Split(pattern, '/'), relative)
  }

  /** The directory claims the path below it as one of its packages. */
  ghost predicate ClaimsPath(m: Metadata, relative: Directory) {
    m.Claims? && if m.settingsOnly then relative == [] else SomePatternMatches(m.patterns, relative)
  }

  /** The directory's metadata stops the search: it cannot be read, or it is settings-only above the path. */
  predicate Blocks(m: Metadata, relative: Directory) {
    m.Unreadable? || (m.Claims? && m.settingsOnly && relative != [])
  }

  ghost predicate Passes(tree: Directory -> Metadata, selected: Directory, n: nat)
    requires n <= |selected|
  {
    var m := tree(selected[..n]);
    !Blocks(m, selected[n..]) && !ClaimsPath(m, selected[n..])
  }

  /** The last directory looked at: the repository, or the file system root when the walk never meets it. */
  function Lowest(repository: Directory, selected: Directory): (n: nat)
    ensures n <= |selected|
  {
    if HasPrefix(selected, repository) then |repository| else 0
  }

  ghost predicate AllPassAbove(tree: Directory -> Metadata, selected: Directory, n: int) {
    forall k :: 0 <= k <= |selected| && n < k ==> Passes(tree, selected, k)
  }

  /** Walks from the selected directory towards the repository: the nearest claiming directory is the root, a blocking
      one fails the search, and when nothing claims the selected directory is its own root. */
  method DiscoverRoot(tree: Directory -> Metadata, repository: Directory, selected: Directory) returns (root: Root)
    ensures root.Found? && root.claimed ==>
              exists n :: && Lowest(repository, selected) <= n <= |selected| && root.directory == selected[..n]
                          && ClaimsPath(tree(selected[..n]), selected[n..]) && AllPassAbove(tree, selected, n)
    ensures root.Found? && !root.claimed ==> root.directory == selected
    ensures root.Found? && !root.claimed <==>
            HasPrefix(selected, repository) && AllPassAbove(tree, selected, |repository| - 1)
    ensures root.Failed? ==>
              || (exists n :: && Lowest(repository, selected) <= n <= |selected|
                              && Blocks(tree(selected[..n]), selected[n..]) && AllPassAbove(tree, selected, n))
              || (!HasPrefix(selected, repository) && AllPassAbove(tree, selected, -1))
  {
    var n := |selected|;
    while true
      invariant Lowest(repository, selected) <= n <= |selected|
      invariant AllPassAbove(tree, selected, n)
      decreases n
    {
      var candidate, relative := selected[..n], selected[n..];
      var metadata := tree(candidate);
      if metadata.Unreadable? {
        assert !Passes(tree, selected, n);
        return Failed;
      }
      if metadata.Claims? {
        if metadata.settingsOnly {
          assert !Passes(tree, selected, n);
          if relative == [] {
            return Found(candidate, true);
          }
          return Failed;
        }
        var matched := false;
        for i := 0 to |metadata.patterns|
          invariant matched <==> SomePatternMatches(metadata.patterns[..i], relative)
        {
          TakeNext(metadata.patterns, i);
          SegmentsOfText(relative);
          var one := MatchPattern(metadata.patterns[i], RelativeText(relative));
          matched := matched || one;
        }
        assert metadata.patterns[..|metadata.patterns|] == metadata.patterns;
        if matched {
          assert !Passes(tree, selected, n);
          return Found(candidate, true);
        }
      }
      assert Passes(tree, selected, n);
      if candidate == repository {
        return Found(selected, false);
      }
      if n == 0 {
        return Failed;
      }
      n := n - 1;
    }
  }
}
