// Which paths keep an approval from carrying to a new head, from
// scripts/ghapp_queue_arm_guard.py: the default exclusions, the protected paths no setting
// re-includes, and the `[auto_merge]` lists that replace, extend or relax the defaults.
module CarryPolicy {
  import opened Wrappers
  import opened Glob

  /** The default exclusions, and those among them that no allow list re-includes. */
  datatype Tables = Tables(defaults: seq<string>, protected: seq<string>)

  predicate StartsWith(s: string, prefix: string) {
    prefix <= s
  }

  predicate EndsWith(s: string, suffix: string) {
    |suffix| <= |s| && s[|s| - |suffix|..] == suffix
  }

  predicate AnyMatches(globs: seq<string>, path: string) {
    exists glob | glob in globs :: GlobMatch(glob, path)
  }

  // ---------------------------------------------------------------------------
  // carry_excluded
  // ---------------------------------------------------------------------------

  predicate IsAllow(entry: string) {
    StartsWith(entry, "!")
  }

  predicate Blocked(path: string, excluded: seq<string>) {
    exists entry | entry in excluded :: !IsAllow(entry) && GlobMatch(entry, path)
  }

  predicate Allowed(path: string, excluded: seq<string>) {
    exists entry | entry in excluded :: IsAllow(entry) && GlobMatch(entry[1..], path)
  }

  /** Changing `path` refuses a carry. */
  predicate Refuses(t: Tables, path: string, excluded: seq<string>) {
    Blocked(path, excluded) && (AnyMatches(t.protected, path) || !Allowed(path, excluded))
  }

  predicate CarryExcluded(t: Tables, paths: set<string>, excluded: seq<string>) {
    exists path | path in paths :: Refuses(t, path, excluded)
  }

  // ---------------------------------------------------------------------------
  // carry_allow_error
  // ---------------------------------------------------------------------------

  predicate IsTree(entry: string) {
    EndsWith(entry, "/**")
  }

  function AllowedPath(entry: string): string {
    if IsTree(entry) then entry[..|entry| - 3] else entry
  }

  const SPECIAL_CHARACTERS: string := "*?[\\!"

  predicate HasNoneOf(special: string, path: string) {
    forall c | c in special :: c !in path
  }

  predicate PlainParts(parts: seq<string>) {
    forall part | part in parts :: part != "" && part != "." && part != ".."
  }

  predicate IsRepositoryPath(path: string) {
    && PlainParts(Split(path))
    && HasNoneOf(SPECIAL_CHARACTERS, path)
  }

  /** Some leading part of `segments`, or all of it, matches `pattern`. */
  predicate MatchesAncestor(pattern: string, segments: seq<string>) {
    exists n | 1 <= n <= |segments| :: GlobMatch(pattern, Join(segments[..n]))
  }

  predicate Covered(t: Tables, entry: string) {
    if IsTree(entry) then
      exists glob | glob in t.defaults ::
        EndsWith(glob, "/**") && MatchesAncestor(glob[..|glob| - 3], Split(AllowedPath(entry)))
    else
      AnyMatches(t.defaults, entry)
  }

  predicate Overlaps(entry: string, glob: string) {
    var path := AllowedPath(entry);
    var segments := Split(path);
    var parts := Split(glob);
    && !(IsTree(entry) && StartsWith(glob, "**/"))
    && (|| MatchesAncestor(glob, segments)
        || (&& IsTree(entry)
            && |parts| > |segments|
            && "**" !in parts[..|segments|]
            && GlobMatch(Join(parts[..|segments|]), path)))
  }

  /** The entry may stand in `carry_excluded_paths_allow`. */
  predicate AllowAccepted(t: Tables, entry: string) {
    && IsRepositoryPath(AllowedPath(entry))
    && Covered(t, entry)
    && forall glob | glob in t.protected :: !Overlaps(entry, glob)
  }

  // ---------------------------------------------------------------------------
  // carry_paths
  // ---------------------------------------------------------------------------

  function OrEmpty(globs: Option<seq<string>>): seq<string> {
    if globs.Some? then globs.value else []
  }

  predicate NoBang(globs: Option<seq<string>>) {
    forall glob | glob in OrEmpty(globs) :: !IsAllow(glob)
  }

  function Bangs(allow: seq<string>): seq<string> {
    seq(|allow|, i requires 0 <= i < |allow| => "!" + allow[i])
  }

  /** `Ok(None)` when the table sets none of the three lists; an error when an entry is refused. */
  method CarryPaths(t: Tables, replace: Option<seq<string>>, extra: Option<seq<string>>, allow: Option<seq<string>>)
    returns (r: Result<Option<seq<string>>, ()>)
    ensures r.Err? <==>
            !NoBang(replace) || !NoBang(extra) || exists entry | entry in OrEmpty(allow) :: !AllowAccepted(t, entry)
    ensures r == Ok(None) <==> replace.None? && extra.None? && allow.None?
    ensures r.Ok? && r.value.Some? ==>
              r.value.value == (if replace.Some? then replace.value else t.defaults)
                               + OrEmpty(extra) + Bangs(OrEmpty(allow))
  {
    if replace.None? && extra.None? && allow.None? {
      return Ok(None);
    }
    if !NoBang(replace) || !NoBang(extra) {
      return Err(());
    }
    var head := (if replace.Some? then replace.value else t.defaults) + OrEmpty(extra);
    r := AppendAllows(head, OrEmpty(allow), entry => AllowAccepted(t, entry));
  }

  method AppendAllows(head: seq<string>, entries: seq<string>, accepted: string -> bool)
    returns (r: Result<Option<seq<string>>, ()>)
    ensures r == if forall entry | entry in entries :: accepted(entry) then Ok(Some(head + Bangs(entries))) else Err(())
  {
    var out := head;
    for i := 0 to |entries|
      invariant out == head + Bangs(entries[..i])
      invariant forall entry | entry in entries[..i] :: accepted(entry)
    {
      if !accepted(entries[i]) {
        return Err(());
      }
      out := out + ["!" + entries[i]];
      assert Bangs(entries[..i + 1]) == Bangs(entries[..i]) + ["!" + entries[i]];
    }
    assert entries[..|entries|] == entries;
    r := Ok(Some(out));
  }

  // ---------------------------------------------------------------------------
  // A protected path is always refused
  // ---------------------------------------------------------------------------

  predicate NarrowerThanTree(glob: string, tree: string) {
    var parts := Split(glob);
    && |parts| == 2 && IsLiteral(parts[0]) && IsLiteral(parts[1])
    && Split(tree) == [parts[0], "**"]
  }

  /** What the rules need of the tables. */
  ghost predicate WellShaped(t: Tables) {
    && (forall glob | glob in t.defaults :: !IsAllow(glob))
    && (forall glob | glob in t.protected ::
          glob in t.defaults || exists tree | tree in t.defaults :: NarrowerThanTree(glob, tree))
    && (forall glob | glob in t.protected && !StartsWith(glob, "**/") :: PlainThenTree(Split(glob)))
  }

  lemma NarrowerMatches(glob: string, tree: string, path: string)
    requires NarrowerThanTree(glob, tree) && GlobMatch(glob, path)
    ensures GlobMatch(tree, path)
  {
    var pats, parts := Split(glob), Split(path);
    LiteralPath(pats, parts);
    LiteralPath([pats[0]], [pats[0]]);
    TreeBelow([pats[0]], [pats[0]], [pats[1]]);
    assert parts == [pats[0]] + [pats[1]];
    assert Split(tree) == [pats[0]] + ["**"];
  }

  /** Every protected path is under a default exclusion. */
  lemma ProtectedIsExcludedByDefault(t: Tables, path: string)
    requires WellShaped(t) && AnyMatches(t.protected, path)
    ensures AnyMatches(t.defaults, path)
  {
    var glob :| glob in t.protected && GlobMatch(glob, path);
    if glob !in t.defaults {
      var tree :| tree in t.defaults && NarrowerThanTree(glob, tree);
      NarrowerMatches(glob, tree, path);
    }
  }

  /** No extra or allow list lets a change to a protected path carry. */
  lemma ProtectedNeverCarries(t: Tables, extra: Option<seq<string>>, allow: Option<seq<string>>, paths: set<string>,
                              path: string)
    requires WellShaped(t) && path in paths && AnyMatches(t.protected, path)
    ensures CarryExcluded(t, paths, t.defaults + OrEmpty(extra) + Bangs(OrEmpty(allow)))
  {
    var excluded := t.defaults + OrEmpty(extra) + Bangs(OrEmpty(allow));
    ProtectedIsExcludedByDefault(t, path);
    var glob :| glob in t.defaults && GlobMatch(glob, path);
    assert glob in excluded;
    assert Refuses(t, path, excluded);
  }

  /** Allow entries block nothing. */
  lemma AllowsDoNotBlock(path: string, listed: seq<string>, allow: seq<string>)
    ensures Blocked(path, listed + Bangs(allow)) <==> Blocked(path, listed)
  {
    forall entry | entry in Bangs(allow) ensures IsAllow(entry) {
      var i :| 0 <= i < |allow| && entry == "!" + allow[i];
      assert entry[..1] == "!";
    }
  }

  /**
    What a change to `path` needs to be refused: a listed glob that matches it, and a protected
    glob that does or no allow that does.
   */
  lemma RefusesExactly(t: Tables, listed: seq<string>, allow: seq<string>, path: string)
    requires forall glob | glob in listed :: glob == "" || glob[0] != '!'
    ensures Refuses(t, path, listed + Bangs(allow)) <==>
            && (exists glob | glob in listed :: GlobMatch(glob, path))
            && ((exists glob | glob in t.protected :: GlobMatch(glob, path))
                || forall entry | entry in allow :: !GlobMatch(entry, path))
  {
    AllowsDoNotBlock(path, listed, allow);
    BangsAllow(path, listed, allow);
  }

  lemma BangsAllow(path: string, listed: seq<string>, allow: seq<string>)
    requires forall glob | glob in listed :: glob == "" || glob[0] != '!'
    ensures Allowed(path, listed + Bangs(allow)) <==> exists entry | entry in allow :: GlobMatch(entry, path)
  {
    var all := listed + Bangs(allow);
    if entry :| entry in all && IsAllow(entry) && GlobMatch(entry[1..], path) {
      assert entry[0] == '!';
      assert entry in Bangs(allow);
      var i :| 0 <= i < |allow| && entry == "!" + allow[i];
      assert entry[1..] == allow[i];
    }
    if entry :| entry in allow && GlobMatch(entry, path) {
      var i :| 0 <= i < |allow| && allow[i] == entry;
      assert Bangs(allow)[i] in all && Bangs(allow)[i][1..] == entry && Bangs(allow)[i][..1] == "!";
    }
  }

  /**
    Which lists keep the protection: under a replacement list with its extras and allows, every
    change to a protected path is refused exactly when the globs listed match all protected paths.
   */
  lemma ProtectedUnderReplacement(t: Tables, replace: seq<string>, extra: Option<seq<string>>,
                                  allow: Option<seq<string>>)
    ensures (forall paths: set<string>, path | path in paths && AnyMatches(t.protected, path) ::
               CarryExcluded(t, paths, replace + OrEmpty(extra) + Bangs(OrEmpty(allow))))
            <==> forall path | AnyMatches(t.protected, path) :: Blocked(path, replace + OrEmpty(extra))
  {
    var listed := replace + OrEmpty(extra);
    var excluded := listed + Bangs(OrEmpty(allow));
    forall path | AnyMatches(t.protected, path)
      ensures CarryExcluded(t, {path}, excluded) <==> Blocked(path, listed)
      ensures Blocked(path, listed) ==> Refuses(t, path, excluded)
    {
      AllowsDoNotBlock(path, listed, OrEmpty(allow));
      assert path in {path};
    }
  }

  // ---------------------------------------------------------------------------
  // What an accepted allow can re-include
  // ---------------------------------------------------------------------------

  lemma TreeSplits(glob: string)
    requires EndsWith(glob, "/**")
    ensures Split(glob) == Split(glob[..|glob| - 3]) + ["**"]
  {
    var dir, last := glob[..|glob| - 3], glob[|glob| - 2..];
    assert last == "/**"[1..] && glob[|glob| - 3] == "/**"[0];
    assert glob == dir + "/" + last;
    SplitAppend(dir, last);
    SplitLiteral(last);
  }

  lemma RepositoryPathIsLiteral(path: string)
    requires IsRepositoryPath(path)
    ensures forall segment | segment in Split(path) :: IsLiteral(segment)
  {
    IsSpecial(SPECIAL_CHARACTERS, '*');
    IsSpecial(SPECIAL_CHARACTERS, '?');
    CharsOfSegments(path);
  }

  lemma {:induction false} CharsOfSegments(path: string)
    ensures forall segment, c | segment in Split(path) && c in segment :: c in path
  {
    if path == "" {
    } else {
      CharsOfSegments(path[1..]);
      var rest := Split(path[1..]);
      assert rest[0] in rest;
    }
  }

  /** The paths below an accepted directory are its segments followed by anything. */
  lemma AllowedTreeShape(entry: string, path: string)
    requires IsTree(entry) && IsRepositoryPath(AllowedPath(entry)) && GlobMatch(entry, path)
    ensures Split(AllowedPath(entry)) <= Split(path)
  {
    var segments, parts := Split(AllowedPath(entry)), Split(path);
    TreeSplits(entry);
    RepositoryPathIsLiteral(AllowedPath(entry));
    assert IsLiteral("**") == false by {
      assert "**"[0] == '*';
    }
    PlainTree(segments, parts);
    LiteralPath(segments, parts[..|segments|]);
  }

  lemma AncestorSplits(path: string, n: nat)
    requires 1 <= n <= |Split(path)|
    ensures Split(Join(Split(path)[..n])) == Split(path)[..n]
  {
    SplitThenJoin(path);
    SplitJoin(Split(path)[..n]);
  }

  lemma BelowAncestor(glob: string, dir: string, path: string)
    requires EndsWith(glob, "/**") && MatchesAncestor(glob[..|glob| - 3], Split(dir)) && Split(dir) <= Split(path)
    ensures GlobMatch(glob, path)
  {
    var segments, parts := Split(dir), Split(path);
    var above := glob[..|glob| - 3];
    var n :| 1 <= n <= |segments| && GlobMatch(above, Join(segments[..n]));
    AncestorSplits(dir, n);
    TreeSplits(glob);
    BelowSegments(Split(above), segments[..n], parts, Split(glob));
  }

  lemma BelowSegments(pats: seq<string>, segments: seq<string>, parts: seq<string>, tree: seq<string>)
    requires SegmentsMatch(pats, segments) && segments <= parts && tree == pats + ["**"]
    ensures SegmentsMatch(tree, parts)
  {
    TreeBelow(pats, segments, parts[|segments|..]);
    assert segments + parts[|segments|..] == parts;
  }

  /** An accepted allow only re-includes paths inside a default exclusion. */
  lemma AllowStaysInsideDefaults(t: Tables, entry: string, path: string)
    requires AllowAccepted(t, entry) && GlobMatch(entry, path)
    ensures AnyMatches(t.defaults, path)
  {
    if IsTree(entry) {
      AllowedTreeShape(entry, path);
      var glob :| glob in t.defaults
                  && EndsWith(glob, "/**") && MatchesAncestor(glob[..|glob| - 3], Split(AllowedPath(entry)));
      BelowAncestor(glob, AllowedPath(entry), path);
    } else {
      RepositoryPathIsLiteral(entry);
      LiteralPath(Split(entry), Split(path));
      SplitThenJoin(entry);
      SplitThenJoin(path);
    }
  }

  /**
    Which files may be allowed: repository paths that a default matches, and such that no protected
    glob matches them or a directory they are in.
   */
  lemma AllowedFileExactly(t: Tables, entry: string)
    requires !IsTree(entry)
    ensures AllowAccepted(t, entry) <==>
            && PlainParts(Split(entry))
            && '*' !in entry && '?' !in entry && '[' !in entry && '\\' !in entry && '!' !in entry
            && (exists glob | glob in t.defaults :: GlobMatch(glob, entry))
            && forall glob | glob in t.protected :: AvoidsFile(glob, entry)
  {
    FileIsAccepted(t, entry);
    PlainPathExactly(entry);
    forall glob | glob in t.protected ensures Overlaps(entry, glob) <==> !AvoidsFile(glob, entry) {
      FileOverlaps(entry, glob);
    }
  }

  /** What is allowed never climbs or doubles back. */
  lemma AllowedNeverClimbs(t: Tables, entry: string, k: nat)
    requires AllowAccepted(t, entry) && k < |Split(AllowedPath(entry))|
    ensures var part := Split(AllowedPath(entry))[k]; part != "" && part != "." && part != ".."
  {
    assert Split(AllowedPath(entry))[k] in Split(AllowedPath(entry));
  }

  lemma FileIsAccepted(t: Tables, entry: string)
    requires !IsTree(entry)
    ensures AllowAccepted(t, entry) <==>
            && IsRepositoryPath(entry) && (exists glob | glob in t.defaults :: GlobMatch(glob, entry))
            && forall glob | glob in t.protected :: !Overlaps(entry, glob)
  {
    assert AllowedPath(entry) == entry;
  }

  lemma PlainPathExactly(path: string)
    ensures IsRepositoryPath(path) <==>
            && PlainParts(Split(path))
            && '*' !in path && '?' !in path && '[' !in path && '\\' !in path && '!' !in path
  {
    SpecialCharacters(SPECIAL_CHARACTERS, path);
  }

  lemma SpecialCharacters(special: string, path: string)
    requires special == SPECIAL_CHARACTERS
    ensures HasNoneOf(special, path) <==>
            '*' !in path && '?' !in path && '[' !in path && '\\' !in path && '!' !in path
  {
    forall c ensures c in special <==> c == '*' || c == '?' || c == '[' || c == '\\' || c == '!' {
      IsSpecial(special, c);
    }
  }

  lemma IsSpecial(special: string, c: char)
    requires special == "*?[\\!"
    ensures c in special <==> c == '*' || c == '?' || c == '[' || c == '\\' || c == '!'
  {
    assert special == ['*', '?', '[', '\\', '!'];
  }

  /** The glob matches neither the file nor a directory it is in. */
  ghost predicate AvoidsFile(glob: string, file: string) {
    forall n: nat | 1 <= n <= |Split(file)| :: !GlobMatch(glob, Join(Split(file)[..n]))
  }

  lemma FileOverlaps(entry: string, glob: string)
    requires !IsTree(entry)
    ensures Overlaps(entry, glob) <==> !AvoidsFile(glob, entry)
  {
  }

  /** A directory is allowed when it is in or below a default tree and all protected globs go by name. */
  lemma AllowedTreeIsAccepted(t: Tables, dir: string, above: string, n: nat)
    requires IsRepositoryPath(dir) && above + "/**" in t.defaults
    requires 1 <= n <= |Split(dir)| && GlobMatch(above, Join(Split(dir)[..n]))
    requires forall glob | glob in t.protected :: StartsWith(glob, "**/")
    ensures AllowAccepted(t, dir + "/**")
  {
    var entry, glob := dir + "/**", above + "/**";
    assert entry[|entry| - 3..] == "/**" && entry[..|entry| - 3] == dir;
    assert glob[|glob| - 3..] == "/**" && glob[..|glob| - 3] == above;
    assert MatchesAncestor(above, Split(dir));
  }

  /** The glob has `**` as its last segment only, if at all. */
  predicate PlainThenTree(parts: seq<string>) {
    parts != [] && "**" !in parts[..|parts| - 1]
  }

  /** A plain-then-tree glob that matches below a directory is seen by the overlap check. */
  lemma OverlapIsSeen(entry: string, glob: string, path: string)
    requires IsTree(entry) && !StartsWith(glob, "**/") && PlainThenTree(Split(glob))
    requires Split(AllowedPath(entry)) <= Split(path)
    requires GlobMatch(glob, path)
    ensures Overlaps(entry, glob)
  {
    var segments, pats := Split(AllowedPath(entry)), Split(glob);
    MatchesAboveOrBelow(segments, pats, Split(path));
    if SegmentsMatch(pats, segments) {
      MatchesWhole(entry, glob);
    } else {
      HeadMatches(entry, glob);
    }
  }

  lemma MatchesAboveOrBelow(segments: seq<string>, pats: seq<string>, parts: seq<string>)
    requires PlainThenTree(pats) && segments <= parts && SegmentsMatch(pats, parts)
    ensures || SegmentsMatch(pats, segments)
            || (|pats| > |segments| && "**" !in pats[..|segments|] && SegmentsMatch(pats[..|segments|], segments))
  {
    var plain, last := pats[..|pats| - 1], pats[|pats| - 1];
    assert pats == plain + [last];
    if last == "**" {
      TreeAboveOrBelow(segments, plain, parts);
      assert |plain| > |segments| ==> plain[..|segments|] == pats[..|segments|];
    } else {
      PlainAbove(segments, pats, parts);
    }
  }

  lemma PlainAbove(segments: seq<string>, pats: seq<string>, parts: seq<string>)
    requires "**" !in pats && segments <= parts && SegmentsMatch(pats, parts)
    ensures |segments| <= |pats| && "**" !in pats[..|segments|] && SegmentsMatch(pats[..|segments|], segments)
    ensures |segments| == |pats| ==> pats[..|segments|] == pats
  {
    PlainPrefix(pats, parts, 0);
    PlainPrefix(pats, parts, |segments|);
    assert parts[..|segments|] == segments;
  }

  lemma TreeAboveOrBelow(segments: seq<string>, plain: seq<string>, parts: seq<string>)
    requires "**" !in plain && segments <= parts && SegmentsMatch(plain + ["**"], parts)
    ensures if |plain| <= |segments| then SegmentsMatch(plain + ["**"], segments)
            else SegmentsMatch(plain[..|segments|], segments)
  {
    PlainTree(plain, parts);
    if |plain| <= |segments| {
      TreeBelow(plain, parts[..|plain|], segments[|plain|..]);
      assert parts[..|plain|] + segments[|plain|..] == segments;
    } else {
      PlainPrefix(plain, parts[..|plain|], |segments|);
      assert parts[..|plain|][..|segments|] == segments;
    }
  }

  lemma MatchesWhole(entry: string, glob: string)
    requires SegmentsMatch(Split(glob), Split(AllowedPath(entry)))
    ensures MatchesAncestor(glob, Split(AllowedPath(entry)))
  {
    var segments := Split(AllowedPath(entry));
    assert segments[..|segments|] == segments;
    AncestorSplits(AllowedPath(entry), |segments|);
  }

  lemma HeadMatches(entry: string, glob: string)
    requires |Split(glob)| > |Split(AllowedPath(entry))|
    requires SegmentsMatch(Split(glob)[..|Split(AllowedPath(entry))|], Split(AllowedPath(entry)))
    ensures GlobMatch(Join(Split(glob)[..|Split(AllowedPath(entry))|]), AllowedPath(entry))
  {
    AncestorSplits(glob, |Split(AllowedPath(entry))|);
  }

  // No path below an accepted directory allow matches a protected glob, apart from the `**/` name
  // globs, which are enforced on every match instead.
  lemma AllowedTreeAvoidsProtected(t: Tables, entry: string, glob: string, path: string)
    requires WellShaped(t) && AllowAccepted(t, entry) && IsTree(entry) && GlobMatch(entry, path)
    requires glob in t.protected && !StartsWith(glob, "**/")
    ensures !GlobMatch(glob, path)
  {
    AllowedTreeShape(entry, path);
    if GlobMatch(glob, path) {
      OverlapIsSeen(entry, glob, path);
    }
  }
}
