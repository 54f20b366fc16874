// The shipped carry tables of scripts/ghapp_queue_arm_guard.py and the rules of CarryPolicy
// applied to them.
module CarryTables {
  import opened Wrappers
  import opened Glob
  import opened CarryPolicy
  import opened CommitGraph
  import opened MergeCarry

  /** The glob for `name` in the directory `dir`, or at the top level. */
  function Under(dir: string, name: string): string {
    if dir == "" then name else dir + "/" + name
  }

  const DEFAULT_TABLE: seq<(string, string)> := [
    (".github/workflows", "**"),
    (".agents", "contract.toml"),
    (".shipyard", "**"),
    ("tools/ci", "**"),
    ("scripts", "ghapp*"),
    ("src", "head_approval*"),
    ("src/head_approval", "**"),
    ("src", "queue_arm_gate*"),
    ("src", "auto_arm*"),
    ("src/auto_arm", "**"),
    ("src", "ghapp_guards*"),
    ("src/app/ship_cmd", "auto_arm*"),
    ("src/app/merge_steward_cmd", "native_arm*"),
    ("", "release-please-config.json"),
    ("", ".release-please-manifest.json"),
    ("**", "*codesign*"),
    ("**", "*notariz*"),
    ("**", "*signing*")
  ]

  const PROTECTED_TABLE: seq<(string, string)> := [
    (".github/workflows", "**"),
    (".agents", "contract.toml"),
    (".shipyard", "config.toml"),
    ("tools/ci", "**"),
    ("scripts", "ghapp*"),
    ("src", "head_approval*"),
    ("src/head_approval", "**"),
    ("src", "queue_arm_gate*"),
    ("src", "auto_arm*"),
    ("src/auto_arm", "**"),
    ("src", "ghapp_guards*"),
    ("src/app/ship_cmd", "auto_arm*"),
    ("src/app/merge_steward_cmd", "native_arm*"),
    ("**", "*codesign*"),
    ("**", "*notariz*"),
    ("**", "*signing*")
  ]

  function Texts(table: seq<(string, string)>): (texts: seq<string>)
    ensures |texts| == |table|
    ensures forall i | 0 <= i < |table| :: texts[i] == Under(table[i].0, table[i].1)
  {
    if table == [] then [] else [Under(table[0].0, table[0].1)] + Texts(table[1..])
  }

  /** A wildcard-free directory followed by one segment has `**` last, if at all. */
  lemma PlainDirectory(dir: string, name: string)
    requires dir != "" && '*' !in dir && '/' !in name
    ensures PlainThenTree(Split(Under(dir, name)))
  {
    SplitAppend(dir, name);
    SplitLiteral(name);
    CharsOfSegments(dir);
    var parts := Split(Under(dir, name));
    assert parts[..|parts| - 1] == Split(dir);
    assert '*' in "**" by {
      assert "**"[0] == '*';
    }
  }

  predicate IsNameGlob(row: (string, string)) {
    row.0 == "**"
  }

  predicate IsPlain(row: (string, string)) {
    row.0 != "" && '*' !in row.0 && '/' !in row.1
  }

  lemma DefaultRows(row: (string, string))
    requires row in DEFAULT_TABLE
    ensures RowNoAllow(row)
  {
  }

  lemma ProtectedRows(i: nat)
    requires i < |PROTECTED_TABLE|
    ensures IsNameGlob(PROTECTED_TABLE[i]) || IsPlain(PROTECTED_TABLE[i])
  {
  }

  lemma ProtectedRowsAreDefaults(i: nat)
    requires i < |PROTECTED_TABLE| && i != 2
    ensures PROTECTED_TABLE[i] == DEFAULT_TABLE[if i < 13 then i else i + 2]
  {
  }

  predicate RowNoAllow(row: (string, string)) {
    (row.0 != "" && row.0[0] != '!') || (row.0 == "" && row.1 != "" && row.1[0] != '!')
  }

  predicate IsNarrower(row: (string, string), tree: (string, string)) {
    && row.0 == tree.0 && row.0 != "" && tree.1 == "**"
    && IsLiteral(row.0) && '/' !in row.0 && IsLiteral(row.1) && '/' !in row.1
  }

  lemma RowNarrower(row: (string, string), tree: (string, string))
    requires IsNarrower(row, tree)
    ensures NarrowerThanTree(Under(row.0, row.1), Under(tree.0, tree.1))
  {
    SplitAppend(row.0, row.1);
    SplitAppend(tree.0, tree.1);
    SplitLiteral(row.0);
    SplitLiteral(row.1);
    SplitLiteral(tree.1);
  }

  lemma DefaultTexts(defaults: seq<(string, string)>, glob: string)
    requires forall row | row in defaults :: RowNoAllow(row)
    requires glob in Texts(defaults)
    ensures !IsAllow(glob)
  {
    var i :| 0 <= i < |defaults| && glob == Under(defaults[i].0, defaults[i].1);
    assert RowNoAllow(defaults[i]);
    assert glob[0] != '!';
  }

  lemma ProtectedTextInDefaults(defaults: seq<(string, string)>, row: (string, string))
    requires row in defaults || exists tree | tree in defaults :: IsNarrower(row, tree)
    ensures var glob, texts := Under(row.0, row.1), Texts(defaults);
            glob in texts || exists tree | tree in texts :: NarrowerThanTree(glob, tree)
  {
    var texts := Texts(defaults);
    if row in defaults {
      var k :| 0 <= k < |defaults| && defaults[k] == row;
      assert texts[k] == Under(row.0, row.1);
    } else {
      var k :| 0 <= k < |defaults| && IsNarrower(row, defaults[k]);
      RowNarrower(row, defaults[k]);
      assert texts[k] in texts;
    }
  }

  lemma ProtectedTextShape(row: (string, string))
    requires IsNameGlob(row) || IsPlain(row)
    ensures var glob := Under(row.0, row.1); StartsWith(glob, "**/") || PlainThenTree(Split(glob))
  {
    if IsPlain(row) {
      PlainDirectory(row.0, row.1);
    } else {
      assert Under(row.0, row.1)[..3] == "**" + "/";
    }
  }

  lemma RowsAreWellShaped(defaults: seq<(string, string)>, protected: seq<(string, string)>)
    requires forall row | row in defaults :: RowNoAllow(row)
    requires forall row | row in protected :: IsNameGlob(row) || IsPlain(row)
    requires forall row | row in protected :: row in defaults || exists tree | tree in defaults :: IsNarrower(row, tree)
    ensures WellShaped(Tables(Texts(defaults), Texts(protected)))
  {
    var t := Tables(Texts(defaults), Texts(protected));
    forall glob | glob in t.defaults ensures !IsAllow(glob) {
      DefaultTexts(defaults, glob);
    }
    forall glob | glob in t.protected
      ensures glob in t.defaults || exists tree | tree in t.defaults :: NarrowerThanTree(glob, tree)
      ensures StartsWith(glob, "**/") || PlainThenTree(Split(glob))
    {
      var i :| 0 <= i < |protected| && glob == t.protected[i];
      assert protected[i] in protected;
      ProtectedTextInDefaults(defaults, protected[i]);
      ProtectedTextShape(protected[i]);
    }
  }

  const SHIPPED: Tables := Tables(Texts(DEFAULT_TABLE), Texts(PROTECTED_TABLE))

  /** The shipped tables have the shape the carry rules need. */
  lemma ShippedTablesAreWellShaped()
    ensures WellShaped(SHIPPED)
  {
    forall row | row in DEFAULT_TABLE ensures RowNoAllow(row) {
      DefaultRows(row);
    }
    forall row | row in PROTECTED_TABLE
      ensures IsNameGlob(row) || IsPlain(row)
      ensures row in DEFAULT_TABLE || exists tree | tree in DEFAULT_TABLE :: IsNarrower(row, tree)
    {
      var i: nat :| i < |PROTECTED_TABLE| && PROTECTED_TABLE[i] == row;
      ProtectedRows(i);
      if i == 2 {
        ConfigRow();
      } else {
        ProtectedRowsAreDefaults(i);
      }
    }
    RowsAreWellShaped(DEFAULT_TABLE, PROTECTED_TABLE);
  }

  lemma ConfigRow()
    ensures DEFAULT_TABLE[2] in DEFAULT_TABLE && IsNarrower(PROTECTED_TABLE[2], DEFAULT_TABLE[2])
  {
    assert DEFAULT_TABLE[2] == (".shipyard", "**") && PROTECTED_TABLE[2] == (".shipyard", "config.toml");
    ConfigNarrower(".shipyard", "config.toml");
  }

  lemma ConfigNarrower(dir: string, file: string)
    requires dir == ".shipyard" && file == "config.toml"
    ensures IsNarrower((dir, file), (dir, "**"))
  {
  }

  /**
    With the shipped defaults, no extra or allow list the guard accepts lets an approval carry
    over a change to a protected path.
   */
  lemma ShippedProtectedNeverCarries(extra: Option<seq<string>>, allow: Option<seq<string>>, paths: set<string>,
                                     path: string)
    requires path in paths && AnyMatches(SHIPPED.protected, path)
    ensures CarryExcluded(SHIPPED, paths, SHIPPED.defaults + OrEmpty(extra) + Bangs(OrEmpty(allow)))
  {
    ShippedTablesAreWellShaped();
    ProtectedNeverCarries(SHIPPED, extra, allow, paths, path);
  }

  /**
    Under the shipped tables, whatever extra and allow lists the configuration has, no approval
    carries over a change to a protected path.
   */
  lemma ShippedCarryKeepsProtected(r: Repo, api: Api, base: Sha, approved: Sha, head: Sha,
                                   extra: Option<seq<string>>, allow: Option<seq<string>>, carry: Carry, path: string)
    requires Truthful(r, api)
    requires Carries(api, SHIPPED, base, approved, head,
                     SHIPPED.defaults + OrEmpty(extra) + Bangs(OrEmpty(allow)), carry)
    ensures carry.oldBase in r && carry.newBase in r && approved in r && head in r
    ensures path in Delta(r[carry.oldBase].tree, r[approved].tree) || path in Delta(r[carry.newBase].tree, r[head].tree)
            ==> !AnyMatches(SHIPPED.protected, path)
  {
    ShippedTablesAreWellShaped();
    CarryKeepsProtected(r, api, SHIPPED, base, approved, head, extra, allow, carry, path);
  }

  lemma LiteralMatchesItself(dir: string, name: string)
    requires '/' !in dir && '/' !in name && IsLiteral(dir) && IsLiteral(name)
    ensures GlobMatch(dir + "/" + name, dir + "/" + name)
  {
    SplitAppend(dir, name);
    SplitLiteral(dir);
    SplitLiteral(name);
    LiteralPath([dir, name], [dir, name]);
  }

  lemma ContractIsProtected(dir: string, name: string)
    requires dir == ".agents" && name == "contract.toml"
    ensures AnyMatches(SHIPPED.protected, dir + "/" + name)
  {
    LiteralMatchesItself(dir, name);
    assert PROTECTED_TABLE[1] == (dir, name);
    assert SHIPPED.protected[1] == Under(dir, name);
  }

  /** An empty replacement list, which the rules accept, lets a protected file carry. */
  lemma ReplacementCanLoseProtection() returns (path: string, replace: seq<string>)
    ensures NoBang(Some(replace)) && AnyMatches(SHIPPED.protected, path)
    ensures !CarryExcluded(SHIPPED, {path}, replace + OrEmpty(None) + Bangs(OrEmpty(None)))
  {
    path, replace := ".agents" + "/" + "contract.toml", [];
    ContractIsProtected(".agents", "contract.toml");
    AllowsDoNotBlock(path, replace + OrEmpty(None), OrEmpty(None));
  }

  /** An accepted allow stays inside the shipped defaults, and outside the protected directories. */
  lemma ShippedAllowIsContained(entry: string, path: string)
    requires AllowAccepted(SHIPPED, entry) && GlobMatch(entry, path)
    ensures AnyMatches(SHIPPED.defaults, path)
    ensures IsTree(entry) ==>
              forall glob | glob in SHIPPED.protected && !StartsWith(glob, "**/") :: !GlobMatch(glob, path)
  {
    ShippedTablesAreWellShaped();
    AllowStaysInsideDefaults(SHIPPED, entry, path);
    if IsTree(entry) {
      forall glob | glob in SHIPPED.protected && !StartsWith(glob, "**/") ensures !GlobMatch(glob, path) {
        AllowedTreeAvoidsProtected(SHIPPED, entry, glob, path);
      }
    }
  }
}
