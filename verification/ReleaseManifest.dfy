/**
  The release identity manifest of scripts/release_artifact_manifest.py and the macOS merge of
  scripts/release_macos_local.py: each asset is named once, and writing an artifact twice converges.

  Which file names are release metadata is an input; malformed JSON shapes are not modelled.
 */
module ReleaseManifest {
  import opened Wrappers

  /** An entry's name: one of the release metadata files, an asset, or a value that is not a string. */
  datatype Name = NotAString | Metadata(text: string) | Asset(text: string)

  datatype Entry = Entry(name: Name, bytes: int, sha256: string)

  datatype Target = MacosArm64 | OtherTarget(text: string)

  datatype ArtifactId = ReleaseAsset(name: Name) | OtherId(text: string)

  datatype Artifact = Artifact(target: Target, id: ArtifactId, digest: string, files: seq<Entry>)

  predicate SameContent(a: Entry, b: Entry) {
    a.bytes == b.bytes && a.sha256 == b.sha256
  }

  /** Two entries name one asset with different contents. */
  predicate Clash(a: Entry, b: Entry) {
    a.name.Asset? && a.name == b.name && !SameContent(a, b)
  }

  // ---------------------------------------------------------------------------
  // Normalising, entry by entry
  // ---------------------------------------------------------------------------

  /** What has been seen: the first entry of each asset, whether two clashed, entries removed. */
  datatype Pass = Pass(seen: map<string, Entry>, conflict: bool, notes: nat)

  const START: Pass := Pass(map[], false, 0)

  predicate IsKept(p: Pass, e: Entry) {
    !e.name.Metadata? && (e.name.Asset? && e.name.text in p.seen ==> !SameContent(p.seen[e.name.text], e))
  }

  function Noted(p: Pass, e: Entry): Pass {
    if !IsKept(p, e) then p.(notes := p.notes + 1)
    else if !e.name.Asset? then p
    else if e.name.text in p.seen then p.(conflict := true)
    else p.(seen := p.seen[e.name.text := e])
  }

  function PassOver(p: Pass, files: seq<Entry>): Pass {
    if |files| == 0 then p else Noted(PassOver(p, files[..|files| - 1]), files[|files| - 1])
  }

  function Kept(p: Pass, files: seq<Entry>): seq<Entry> {
    if |files| == 0 then []
    else Kept(p, files[..|files| - 1])
         + if IsKept(PassOver(p, files[..|files| - 1]), files[|files| - 1]) then [files[|files| - 1]] else []
  }

  /** Every entry of the manifest, in order. */
  function Entries(artifacts: seq<Artifact>): seq<Entry> {
    if |artifacts| == 0 then [] else Entries(artifacts[..|artifacts| - 1]) + artifacts[|artifacts| - 1].files
  }

  function PassOverAll(artifacts: seq<Artifact>): Pass {
    if |artifacts| == 0 then START
    else PassOver(PassOverAll(artifacts[..|artifacts| - 1]), artifacts[|artifacts| - 1].files)
  }

  function Normalized(artifacts: seq<Artifact>): (out: seq<Artifact>)
    ensures |out| == |artifacts|
  {
    if |artifacts| == 0 then []
    else
      var init, last := artifacts[..|artifacts| - 1], artifacts[|artifacts| - 1];
      Normalized(init) + [last.(files := Kept(PassOverAll(init), last.files))]
  }

  // ---------------------------------------------------------------------------
  // The same over the flat list of entries
  // ---------------------------------------------------------------------------

  lemma {:induction false} PassAppend(p: Pass, a: seq<Entry>, b: seq<Entry>)
    ensures PassOver(p, a + b) == PassOver(PassOver(p, a), b)
    ensures Kept(p, a + b) == Kept(p, a) + Kept(PassOver(p, a), b)
  {
    if |b| == 0 {
      assert a + b == a;
    } else {
      var init := b[..|b| - 1];
      PassAppend(p, a, init);
      assert (a + b)[..|a + b| - 1] == a + init;
      var q := PassOver(p, a);
      var tail := if IsKept(PassOver(q, init), b[|b| - 1]) then [b[|b| - 1]] else [];
      assert Kept(p, a + b) == Kept(p, a + init) + tail;
      assert (Kept(p, a) + Kept(q, init)) + tail == Kept(p, a) + (Kept(q, init) + tail);
    }
  }

  lemma {:induction false} NormalizedIsFlat(artifacts: seq<Artifact>)
    ensures PassOverAll(artifacts) == PassOver(START, Entries(artifacts))
    ensures Entries(Normalized(artifacts)) == Kept(START, Entries(artifacts))
  {
    if |artifacts| == 0 {
    } else {
      var init, last := artifacts[..|artifacts| - 1], artifacts[|artifacts| - 1];
      NormalizedIsFlat(init);
      PassAppend(START, Entries(init), last.files);
      var out := Normalized(artifacts);
      assert out[..|init|] == Normalized(init);
    }
  }

  // ---------------------------------------------------------------------------
  // What normalising keeps
  // ---------------------------------------------------------------------------

  /** The first entry of an asset is what has been seen of it. */
  ghost predicate SeenIsFirst(seen: map<string, Entry>, es: seq<Entry>) {
    && (forall n | n in seen :: seen[n] in es && seen[n].name.Asset? && seen[n].name == Asset(n))
    && (forall i | 0 <= i < |es| && es[i].name.Asset? :: es[i].name.text in seen)
  }

  ghost predicate HasClash(es: seq<Entry>) {
    exists i, j | 0 <= i < j < |es| :: Clash(es[i], es[j])
  }

  /** A pass ends in conflict exactly when two entries of one asset disagree. */
  lemma {:induction false} ConflictExactly(es: seq<Entry>)
    ensures SeenIsFirst(PassOver(START, es).seen, es)
    ensures PassOver(START, es).conflict <==> HasClash(es)
  {
    if |es| == 0 {
    } else {
      var init, last := es[..|es| - 1], es[|es| - 1];
      ConflictExactly(init);
      var p := PassOver(START, init);
      SeenGrows(p, init, last);
      ClashGrows(p, init, last);
      assert es == init + [last];
    }
  }

  lemma SeenGrows(p: Pass, es: seq<Entry>, e: Entry)
    requires SeenIsFirst(p.seen, es)
    ensures SeenIsFirst(Noted(p, e).seen, es + [e])
  {
  }

  lemma ClashGrows(p: Pass, es: seq<Entry>, e: Entry)
    requires SeenIsFirst(p.seen, es) && (p.conflict <==> HasClash(es))
    ensures Noted(p, e).conflict <==> HasClash(es + [e])
  {
    var all := es + [e];
    assert forall k | 0 <= k < |es| :: all[k] == es[k];
    if HasClash(es) {
      var i, j :| 0 <= i < j < |es| && Clash(es[i], es[j]);
      assert Clash(all[i], all[j]);
    }
    if e.name.Asset? && e.name.text in p.seen {
      var first := p.seen[e.name.text];
      var i :| 0 <= i < |es| && es[i] == first;
      assert all[i] == first && all[|es|] == e;
      if !SameContent(first, e) {
        assert Clash(all[i], all[|es|]);
      }
    }
    if !HasClash(es) && HasClash(all) {
      var i, j :| 0 <= i < j < |all| && Clash(all[i], all[j]);
      assert j == |es|;
      FirstClashes(p.seen, es, e, i);
    }
  }

  /** An entry that clashes with some earlier one clashes with the first of its asset. */
  lemma FirstClashes(seen: map<string, Entry>, es: seq<Entry>, e: Entry, i: nat)
    requires SeenIsFirst(seen, es) && !HasClash(es) && i < |es| && Clash(es[i], e)
    ensures e.name.Asset? && e.name.text in seen && !SameContent(seen[e.name.text], e)
  {
    var first := seen[e.name.text];
    var k :| 0 <= k < |es| && es[k] == first;
    assert k < i ==> !Clash(es[k], es[i]);
    assert i < k ==> !Clash(es[i], es[k]);
  }

  /** No metadata, and no asset twice or among `taken`. */
  ghost predicate Clean(es: seq<Entry>, taken: set<string>) {
    && (forall i | 0 <= i < |es| :: !es[i].name.Metadata?)
    && (forall i | 0 <= i < |es| && es[i].name.Asset? :: es[i].name.text !in taken)
    && (forall i, j | 0 <= i < j < |es| && es[i].name.Asset? :: es[i].name != es[j].name)
  }

  /** What an entry says about its asset. */
  function FactOf(e: Entry): (string, int, string)
    requires e.name.Asset?
  {
    (e.name.text, e.bytes, e.sha256)
  }

  ghost function Facts(es: seq<Entry>): set<(string, int, string)> {
    set e | e in es && e.name.Asset? :: FactOf(e)
  }

  function Nameless(es: seq<Entry>): seq<Entry> {
    if |es| == 0 then []
    else Nameless(es[..|es| - 1]) + if es[|es| - 1].name.NotAString? then [es[|es| - 1]] else []
  }

  lemma FactsSnoc(es: seq<Entry>, e: Entry)
    ensures Facts(es + [e]) == Facts(es) + if e.name.Asset? then {FactOf(e)} else {}
  {
    var all := es + [e];
    assert forall x :: x in all <==> x in es || x == e;
    if e.name.Asset? {
      assert Facts(all) == Facts(es) + {FactOf(e)};
    } else {
      assert Facts(all) == Facts(es);
    }
  }

  lemma NamelessSnoc(es: seq<Entry>, e: Entry)
    ensures Nameless(es + [e]) == Nameless(es) + if e.name.NotAString? then [e] else []
  {
    assert (es + [e])[..|es|] == es;
  }

  /** Without a clash, every asset is kept once with its facts, and metadata is gone. */
  lemma {:induction false} KeptWithoutClash(es: seq<Entry>)
    requires !PassOver(START, es).conflict
    ensures var kept := Kept(START, es);
            && Clean(kept, {}) && Facts(kept) == Facts(es) && Nameless(kept) == Nameless(es)
            && SeenIsFirst(PassOver(START, es).seen, kept)
  {
    if |es| == 0 {
    } else {
      var init, last := es[..|es| - 1], es[|es| - 1];
      assert es == init + [last];
      KeptWithoutClash(init);
      KeptSnoc(PassOver(START, init), init, Kept(START, init), last);
    }
  }

  lemma KeptSnoc(p: Pass, es: seq<Entry>, kept: seq<Entry>, e: Entry)
    requires !p.conflict && !Noted(p, e).conflict
    requires Clean(kept, {}) && Facts(kept) == Facts(es) && Nameless(kept) == Nameless(es) && SeenIsFirst(p.seen, kept)
    ensures var next := kept + if IsKept(p, e) then [e] else [];
            && Clean(next, {}) && Facts(next) == Facts(es + [e]) && Nameless(next) == Nameless(es + [e])
            && SeenIsFirst(Noted(p, e).seen, next)
  {
    FactsSnoc(es, e);
    NamelessSnoc(es, e);
    if IsKept(p, e) {
      FactsSnoc(kept, e);
      NamelessSnoc(kept, e);
      SeenGrows(p, kept, e);
      NewIsClean(p.seen, kept, e);
    } else {
      assert kept + [] == kept;
      if e.name.Asset? {
        RepeatIsKnown(p.seen, kept, e);
      }
    }
  }

  lemma NewIsClean(seen: map<string, Entry>, kept: seq<Entry>, e: Entry)
    requires Clean(kept, {}) && SeenIsFirst(seen, kept)
    requires !e.name.Metadata? && (e.name.Asset? ==> e.name.text !in seen)
    ensures Clean(kept + [e], {})
  {
  }

  lemma RepeatIsKnown(seen: map<string, Entry>, kept: seq<Entry>, e: Entry)
    requires SeenIsFirst(seen, kept) && e.name.Asset? && e.name.text in seen && SameContent(seen[e.name.text], e)
    ensures FactOf(e) in Facts(kept)
  {
    assert seen[e.name.text] in kept;
  }

  function Names(es: seq<Entry>): set<string> {
    set e | e in es && e.name.Asset? :: e.name.text
  }

  lemma NamesJoin(a: seq<Entry>, b: seq<Entry>)
    ensures Names(a + b) == Names(a) + Names(b)
  {
    assert forall e :: e in a + b <==> e in a || e in b;
  }

  /** A clean list passes unchanged. */
  lemma {:induction false} CleanIsKept(p: Pass, es: seq<Entry>)
    requires Clean(es, p.seen.Keys)
    ensures Kept(p, es) == es && PassOver(p, es).conflict == p.conflict && PassOver(p, es).notes == p.notes
    ensures PassOver(p, es).seen.Keys <= p.seen.Keys + Names(es)
  {
    if |es| == 0 {
    } else {
      var init, last := es[..|es| - 1], es[|es| - 1];
      assert es == init + [last];
      CleanIsKept(p, init);
      NamesJoin(init, [last]);
      LastIsNew(init, last, p.seen.Keys);
      assert IsKept(PassOver(p, init), last);
    }
  }

  lemma LastIsNew(es: seq<Entry>, e: Entry, taken: set<string>)
    requires Clean(es + [e], taken)
    ensures !e.name.Metadata? && (e.name.Asset? ==> e.name.text !in taken + Names(es))
  {
    var all := es + [e];
    assert all[|es|] == e;
    forall i | 0 <= i < |es| && e.name.Asset? ensures es[i].name != e.name {
      assert all[i] == es[i];
    }
  }

  lemma {:induction false} CleanStaysNormalized(artifacts: seq<Artifact>)
    requires Clean(Entries(artifacts), {})
    ensures Normalized(artifacts) == artifacts
    ensures PassOverAll(artifacts).notes == 0 && !PassOverAll(artifacts).conflict
    ensures PassOverAll(artifacts).seen.Keys <= Names(Entries(artifacts))
  {
    if |artifacts| == 0 {
    } else {
      var init, last := artifacts[..|artifacts| - 1], artifacts[|artifacts| - 1];
      CleanParts(Entries(init), last.files);
      CleanStaysNormalized(init);
      CleanStep(PassOverAll(init), Entries(init), last.files);
      NormalizedLast(artifacts);
      SameLast(artifacts, Kept(PassOverAll(init), last.files));
    }
  }

  lemma NormalizedLast(artifacts: seq<Artifact>)
    requires |artifacts| > 0
    ensures var init, last := artifacts[..|artifacts| - 1], artifacts[|artifacts| - 1];
            Normalized(artifacts) == Normalized(init) + [last.(files := Kept(PassOverAll(init), last.files))]
  {
  }

  lemma SameLast(artifacts: seq<Artifact>, files: seq<Entry>)
    requires |artifacts| > 0 && files == artifacts[|artifacts| - 1].files
    ensures artifacts[..|artifacts| - 1] + [artifacts[|artifacts| - 1].(files := files)] == artifacts
  {
  }

  lemma CleanStep(p: Pass, before: seq<Entry>, files: seq<Entry>)
    requires Clean(before + files, {}) && p.seen.Keys <= Names(before)
    ensures Kept(p, files) == files && PassOver(p, files).conflict == p.conflict && PassOver(p, files).notes == p.notes
    ensures PassOver(p, files).seen.Keys <= Names(before + files)
  {
    CleanTail(before, files, p.seen.Keys);
    CleanIsKept(p, files);
    NamesJoin(before, files);
  }

  lemma CleanParts(a: seq<Entry>, b: seq<Entry>)
    requires Clean(a + b, {})
    ensures Clean(a, {}) && Clean(b, {})
  {
    var all := a + b;
    assert forall i | 0 <= i < |a| :: all[i] == a[i];
    assert forall i | 0 <= i < |b| :: all[|a| + i] == b[i];
  }

  lemma CleanTail(a: seq<Entry>, b: seq<Entry>, taken: set<string>)
    requires Clean(a + b, {}) && taken <= Names(a)
    ensures Clean(b, taken)
  {
    var all := a + b;
    CleanParts(a, b);
    forall i, j | 0 <= i < |a| && 0 <= j < |b| && b[j].name.Asset? ensures a[i].name != b[j].name {
      assert all[i] == a[i] && all[|a| + j] == b[j];
    }
  }

  /** Whether normalising fails, and what it leaves when it does not. */
  lemma NormalizeMeaning(artifacts: seq<Artifact>)
    ensures PassOverAll(artifacts).conflict <==> HasClash(Entries(artifacts))
    ensures !PassOverAll(artifacts).conflict ==>
              var out := Normalized(artifacts);
              && Clean(Entries(out), {})
              && Facts(Entries(out)) == Facts(Entries(artifacts))
              && Nameless(Entries(out)) == Nameless(Entries(artifacts))
  {
    NormalizedIsFlat(artifacts);
    ConflictExactly(Entries(artifacts));
    if !PassOverAll(artifacts).conflict {
      KeptWithoutClash(Entries(artifacts));
    }
  }

  /** A second run changes nothing and removes nothing. */
  lemma NormalizeIsIdempotent(artifacts: seq<Artifact>)
    requires !PassOverAll(artifacts).conflict
    ensures Normalized(Normalized(artifacts)) == Normalized(artifacts)
    ensures PassOverAll(Normalized(artifacts)).notes == 0 && !PassOverAll(Normalized(artifacts)).conflict
  {
    NormalizeMeaning(artifacts);
    CleanStaysNormalized(Normalized(artifacts));
  }

  // ---------------------------------------------------------------------------
  // Adding the macOS artifact
  // ---------------------------------------------------------------------------

  function Without(es: seq<Entry>, name: Name): seq<Entry> {
    if |es| == 0 then []
    else Without(es[..|es| - 1], name) + if es[|es| - 1].name == name then [] else [es[|es| - 1]]
  }

  /** Drops the macOS artifact, and every entry that names the file about to be added. */
  function Stripped(artifacts: seq<Artifact>, name: Name): seq<Artifact> {
    if |artifacts| == 0 then []
    else
      var last := artifacts[|artifacts| - 1];
      Stripped(artifacts[..|artifacts| - 1], name)
      + if last.target == MacosArm64 then [] else [last.(files := Without(last.files, name))]
  }

  function MacArtifact(name: Name, bytes: int, sha256: string): Artifact {
    Artifact(MacosArm64, ReleaseAsset(name), sha256, [Entry(name, bytes, sha256)])
  }

  /** `None` when the rest of the manifest disagrees with itself. */
  function Merged(artifacts: seq<Artifact>, name: Name, bytes: int, sha256: string): Option<seq<Artifact>> {
    var rest := Stripped(artifacts, name);
    if PassOverAll(rest).conflict then None else Some(Normalized(rest) + [MacArtifact(name, bytes, sha256)])
  }

  lemma {:induction false} WithoutHasNone(es: seq<Entry>, name: Name)
    ensures forall e | e in Without(es, name) :: e.name != name
  {
    if |es| == 0 {
    } else {
      WithoutHasNone(es[..|es| - 1], name);
    }
  }

  lemma {:induction false} WithoutFixes(es: seq<Entry>, name: Name)
    requires forall e | e in es :: e.name != name
    ensures Without(es, name) == es
  {
    if |es| == 0 {
    } else {
      WithoutFixes(es[..|es| - 1], name);
      assert es[|es| - 1] in es;
    }
  }

  /** Nothing here is the macOS artifact or names the file. */
  ghost predicate IsStripped(artifacts: seq<Artifact>, name: Name) {
    forall i | 0 <= i < |artifacts| :: IsOther(artifacts[i], name)
  }

  ghost predicate IsOther(a: Artifact, name: Name) {
    a.target != MacosArm64 && forall e | e in a.files :: e.name != name
  }

  lemma {:induction false} StrippedIsStripped(artifacts: seq<Artifact>, name: Name)
    ensures IsStripped(Stripped(artifacts, name), name)
  {
    if |artifacts| == 0 {
    } else {
      StrippedIsStripped(artifacts[..|artifacts| - 1], name);
      WithoutHasNone(artifacts[|artifacts| - 1].files, name);
    }
  }

  lemma StrippedLast(artifacts: seq<Artifact>, name: Name)
    requires |artifacts| > 0 && artifacts[|artifacts| - 1].target != MacosArm64
    ensures var init, last := artifacts[..|artifacts| - 1], artifacts[|artifacts| - 1];
            Stripped(artifacts, name) == Stripped(init, name) + [last.(files := Without(last.files, name))]
  {
  }

  lemma {:induction false} StrippedFixes(artifacts: seq<Artifact>, name: Name)
    requires IsStripped(artifacts, name)
    ensures Stripped(artifacts, name) == artifacts
  {
    if |artifacts| == 0 {
    } else {
      var init, last := artifacts[..|artifacts| - 1], artifacts[|artifacts| - 1];
      assert IsOther(last, name);
      StrippedFixes(init, name);
      WithoutFixes(last.files, name);
      StrippedLast(artifacts, name);
      SameLast(artifacts, Without(last.files, name));
    }
  }

  lemma {:induction false} KeptIsPart(p: Pass, es: seq<Entry>)
    ensures forall e | e in Kept(p, es) :: e in es
  {
    if |es| == 0 {
    } else {
      KeptIsPart(p, es[..|es| - 1]);
    }
  }

  lemma {:induction false} NormalizedStaysStripped(artifacts: seq<Artifact>, name: Name)
    requires IsStripped(artifacts, name)
    ensures IsStripped(Normalized(artifacts), name)
  {
    if |artifacts| == 0 {
    } else {
      var init, last := artifacts[..|artifacts| - 1], artifacts[|artifacts| - 1];
      assert IsOther(last, name);
      NormalizedStaysStripped(init, name);
      KeptIsPart(PassOverAll(init), last.files);
    }
  }

  lemma StrippedSnoc(artifacts: seq<Artifact>, last: Artifact, name: Name)
    requires last.target == MacosArm64
    ensures Stripped(artifacts + [last], name) == Stripped(artifacts, name)
  {
    assert (artifacts + [last])[..|artifacts|] == artifacts;
  }

  /** Writing one build and then another under the same name leaves exactly the second. */
  lemma MergeConverges(artifacts: seq<Artifact>, name: Name, bytes: int, sha256: string, bytes': int, sha256': string)
    ensures Merged(artifacts, name, bytes, sha256).None? == Merged(artifacts, name, bytes', sha256').None?
    ensures Merged(artifacts, name, bytes, sha256).Some? ==>
              Merged(Merged(artifacts, name, bytes, sha256).value, name, bytes', sha256') ==
              Merged(artifacts, name, bytes', sha256')
  {
    var rest := Stripped(artifacts, name);
    if !PassOverAll(rest).conflict {
      StrippedIsStripped(artifacts, name);
      NormalizedStaysStripped(rest, name);
      var out := Normalized(rest);
      StrippedSnoc(out, MacArtifact(name, bytes, sha256), name);
      StrippedFixes(out, name);
      NormalizeIsIdempotent(rest);
    }
  }

  lemma {:induction false} StrippedNames(artifacts: seq<Artifact>, name: Name)
    requires IsStripped(artifacts, name)
    ensures name.Asset? ==> name.text !in Names(Entries(artifacts))
  {
    if |artifacts| == 0 {
    } else {
      var init, last := artifacts[..|artifacts| - 1], artifacts[|artifacts| - 1];
      assert IsOther(last, name);
      StrippedNames(init, name);
      NamesJoin(Entries(init), last.files);
    }
  }

  /** The merged manifest names every asset once, the new file included. */
  lemma MergedNamesOnce(artifacts: seq<Artifact>, name: Name, bytes: int, sha256: string)
    requires name.Asset? && Merged(artifacts, name, bytes, sha256).Some?
    ensures Clean(Entries(Merged(artifacts, name, bytes, sha256).value), {})
  {
    var rest := Stripped(artifacts, name);
    StrippedIsStripped(artifacts, name);
    NormalizedStaysStripped(rest, name);
    NormalizeMeaning(rest);
    var out, mac := Normalized(rest), MacArtifact(name, bytes, sha256);
    StrippedNames(out, name);
    assert (out + [mac])[..|out|] == out;
    AddNew(Entries(out), mac.files[0]);
  }

  lemma AddNew(es: seq<Entry>, e: Entry)
    requires Clean(es, {}) && e.name.Asset? && e.name.text !in Names(es)
    ensures Clean(es + [e], {})
  {
    assert forall i | 0 <= i < |es| :: es[i] in es;
  }

  // ---------------------------------------------------------------------------
  // What is where afterwards
  // ---------------------------------------------------------------------------

  lemma {:induction false} EntriesAre(artifacts: seq<Artifact>, e: Entry)
    ensures e in Entries(artifacts) <==> exists i | 0 <= i < |artifacts| :: e in artifacts[i].files
  {
    if |artifacts| == 0 {
    } else {
      var init := artifacts[..|artifacts| - 1];
      EntriesAre(init, e);
      assert forall i | 0 <= i < |init| :: init[i] == artifacts[i];
    }
  }

  lemma {:induction false} WithoutExactly(es: seq<Entry>, name: Name, e: Entry)
    ensures e in Without(es, name) <==> e in es && e.name != name
  {
    if |es| == 0 {
    } else {
      WithoutExactly(es[..|es| - 1], name, e);
      assert es == es[..|es| - 1] + [es[|es| - 1]];
    }
  }

  /** Some artifact other than the macOS one lists the entry. */
  ghost predicate ListedElsewhere(artifacts: seq<Artifact>, e: Entry) {
    exists a | a in artifacts :: a.target != MacosArm64 && e in a.files
  }

  lemma ListedSnoc(artifacts: seq<Artifact>, last: Artifact, e: Entry)
    ensures ListedElsewhere(artifacts + [last], e) <==>
            ListedElsewhere(artifacts, e) || (last.target != MacosArm64 && e in last.files)
  {
    assert forall a :: a in artifacts + [last] <==> a in artifacts || a == last;
  }

  lemma {:induction false} StrippedExactly(artifacts: seq<Artifact>, name: Name, e: Entry)
    ensures e in Entries(Stripped(artifacts, name)) <==> ListedElsewhere(artifacts, e) && e.name != name
  {
    if |artifacts| == 0 {
    } else {
      var init, last := artifacts[..|artifacts| - 1], artifacts[|artifacts| - 1];
      StrippedExactly(init, name, e);
      WithoutExactly(last.files, name, e);
      assert artifacts == init + [last];
      ListedSnoc(init, last, e);
      if last.target == MacosArm64 {
        StrippedSnoc(init, last, name);
      } else {
        StrippedLast(artifacts, name);
        EntriesSnoc(Stripped(init, name), last.(files := Without(last.files, name)));
      }
    }
  }

  lemma EntriesSnoc(artifacts: seq<Artifact>, last: Artifact)
    ensures Entries(artifacts + [last]) == Entries(artifacts) + last.files
  {
    assert (artifacts + [last])[..|artifacts|] == artifacts;
  }

  /**
    Merging fails exactly when two entries listed elsewhere, under another name than the new file's,
    name one asset with different contents.
   */
  lemma MergeFailsExactly(artifacts: seq<Artifact>, name: Name, bytes: int, sha256: string)
    ensures Merged(artifacts, name, bytes, sha256).None? <==>
            exists e, f | ListedElsewhere(artifacts, e) && ListedElsewhere(artifacts, f) ::
              e.name.Asset? && e.name == f.name && e.name != name && (e.bytes != f.bytes || e.sha256 != f.sha256)
  {
    var rest := Stripped(artifacts, name);
    NormalizeMeaning(rest);
    ClashIsBetweenMembers(Entries(rest));
    forall e ensures e in Entries(rest) <==> ListedElsewhere(artifacts, e) && e.name != name {
      StrippedExactly(artifacts, name, e);
    }
  }

  lemma ClashIsBetweenMembers(es: seq<Entry>)
    ensures HasClash(es) <==>
            exists e, f | e in es && f in es ::
              e.name.Asset? && e.name == f.name && (e.bytes != f.bytes || e.sha256 != f.sha256)
  {
    if e, f :| e in es && f in es && e.name.Asset? && e.name == f.name && (e.bytes != f.bytes || e.sha256 != f.sha256) {
      var i :| 0 <= i < |es| && es[i] == e;
      var j :| 0 <= j < |es| && es[j] == f;
      assert Clash(es[i], es[j]) && Clash(es[j], es[i]);
    }
  }

  /**
    What a merge leaves: the new file, with the bytes and digest given, in one macOS artifact at the
    end; and of the rest, every fact that was listed elsewhere under another name, and no other.
   */
  lemma MergedExactly(artifacts: seq<Artifact>, name: Name, bytes: int, sha256: string, text: string, b: int, h: string)
    requires Merged(artifacts, name, bytes, sha256).Some? && name.Asset?
    ensures var merged := Merged(artifacts, name, bytes, sha256).value;
            && |merged| > 0
            && var mac := merged[|merged| - 1];
               && mac.target == MacosArm64 && mac.id == ReleaseAsset(name) && mac.digest == sha256
               && mac.files == [Entry(name, bytes, sha256)]
               && (forall i | 0 <= i < |merged| - 1 :: merged[i].target != MacosArm64)
               && ((text, b, h) in Facts(Entries(merged)) <==>
                     if text == name.text then b == bytes && h == sha256
                     else ListedElsewhere(artifacts, Entry(Asset(text), b, h)))
  {
    var rest, mac := Stripped(artifacts, name), MacArtifact(name, bytes, sha256);
    var out := Normalized(rest);
    NormalizeMeaning(rest);
    StrippedIsStripped(artifacts, name);
    NormalizedStaysStripped(rest, name);
    assert forall i | 0 <= i < |out| :: IsOther(out[i], name);
    EntriesSnoc(out, mac);
    FactsSnoc(Entries(out), mac.files[0]);
    assert Entries(out) + mac.files == Entries(out) + [mac.files[0]];
    StrippedExactly(artifacts, name, Entry(Asset(text), b, h));
    FactIsEntry(Entries(rest), text, b, h);
  }

  lemma FactIsEntry(es: seq<Entry>, text: string, b: int, h: string)
    ensures (text, b, h) in Facts(es) <==> Entry(Asset(text), b, h) in es
  {
    if Entry(Asset(text), b, h) in es {
      assert FactOf(Entry(Asset(text), b, h)) == (text, b, h);
    }
  }

  lemma {:induction false} SeenNames(p: Pass, es: seq<Entry>)
    ensures PassOver(p, es).seen.Keys <= p.seen.Keys + Names(es)
  {
    if |es| == 0 {
    } else {
      var init, last := es[..|es| - 1], es[|es| - 1];
      SeenNames(p, init);
      assert es == init + [last];
      NamesJoin(init, [last]);
    }
  }

  lemma {:induction false} SeenNamesAll(artifacts: seq<Artifact>)
    ensures PassOverAll(artifacts).seen.Keys <= Names(Entries(artifacts))
  {
    if |artifacts| == 0 {
    } else {
      var init, last := artifacts[..|artifacts| - 1], artifacts[|artifacts| - 1];
      SeenNamesAll(init);
      SeenNames(PassOverAll(init), last.files);
      NamesJoin(Entries(init), last.files);
    }
  }

  /** A name not seen before is kept where it first appears. */
  lemma {:induction false} FirstIsKept(p: Pass, es: seq<Entry>, e: Entry)
    requires e in es && e.name.Asset? && e.name.text !in p.seen
    ensures exists x | x in Kept(p, es) :: x.name == e.name
  {
    var init, last := es[..|es| - 1], es[|es| - 1];
    assert es == init + [last];
    if x :| x in init && x.name == e.name {
      FirstIsKept(p, init, x);
    } else {
      SeenNames(p, init);
      assert e == last;
      assert last in Kept(p, es);
    }
  }

  lemma {:induction false} NormalizedAt(artifacts: seq<Artifact>, i: nat)
    requires i < |artifacts|
    ensures Normalized(artifacts)[i] == artifacts[i].(files := Kept(PassOverAll(artifacts[..i]), artifacts[i].files))
  {
    var n, init := |artifacts| - 1, artifacts[..|artifacts| - 1];
    if i == n {
    } else {
      NormalizedAt(init, i);
      assert init[..i] == artifacts[..i];
    }
  }

  /**
    Normalising only thins out file lists: artifact by artifact what is left was there, and an asset
    stays with the first artifact that names it.
   */
  lemma NormalizedInPlace(artifacts: seq<Artifact>, i: nat)
    requires i < |artifacts|
    ensures var out := Normalized(artifacts)[i];
            && out.target == artifacts[i].target && out.id == artifacts[i].id && out.digest == artifacts[i].digest
            && (forall e | e in out.files :: e in artifacts[i].files)
            && forall e | e in artifacts[i].files && e.name.Asset?
                          && (forall j | 0 <= j < i :: forall x | x in artifacts[j].files :: x.name != e.name) ::
                 exists x | x in out.files :: x.name == e.name
  {
    NormalizedAt(artifacts, i);
    var p := PassOverAll(artifacts[..i]);
    KeptIsPart(p, artifacts[i].files);
    forall e | e in artifacts[i].files && e.name.Asset?
               && (forall j | 0 <= j < i :: forall x | x in artifacts[j].files :: x.name != e.name)
      ensures exists x | x in Kept(p, artifacts[i].files) :: x.name == e.name
    {
      NotNamedBefore(artifacts, i, e);
      SeenNamesAll(artifacts[..i]);
      FirstIsKept(p, artifacts[i].files, e);
    }
  }

  lemma NotNamedBefore(artifacts: seq<Artifact>, i: nat, e: Entry)
    requires i < |artifacts| && e.name.Asset?
    requires forall j | 0 <= j < i :: forall x | x in artifacts[j].files :: x.name != e.name
    ensures e.name.text !in Names(Entries(artifacts[..i]))
  {
    forall x | x in Entries(artifacts[..i]) ensures x.name != e.name {
      EntriesAre(artifacts[..i], x);
      var j :| 0 <= j < i && x in artifacts[..i][j].files;
      assert artifacts[..i][j] == artifacts[j];
    }
  }

  lemma {:induction false} NotesCount(p: Pass, es: seq<Entry>)
    ensures PassOver(p, es).notes == p.notes + |es| - |Kept(p, es)|
  {
    if |es| == 0 {
    } else {
      NotesCount(p, es[..|es| - 1]);
    }
  }

  /** As many removals are noted as entries are gone. */
  lemma {:induction false} NotesAreRemovals(artifacts: seq<Artifact>)
    ensures PassOverAll(artifacts).notes == |Entries(artifacts)| - |Entries(Normalized(artifacts))|
  {
    NormalizedIsFlat(artifacts);
    NotesCount(START, Entries(artifacts));
  }

  // ---------------------------------------------------------------------------
  // The program
  // ---------------------------------------------------------------------------

  class Manifest {
    var artifacts: seq<Artifact>

    constructor (a: seq<Artifact>)
      ensures artifacts == a
    {
      artifacts := a;
    }

    /** Rewrites every file list in place, then reports whether two entries clashed. */
    method Normalize() returns (ok: bool, notes: nat)
      modifies this
      ensures artifacts == Normalized(old(artifacts))
      ensures ok == !HasClash(Entries(old(artifacts)))
      ensures notes == |Entries(old(artifacts))| - |Entries(artifacts)|
    {
      ghost var was := artifacts;
      var p := START;
      for i := 0 to |artifacts|
        invariant |artifacts| == |was| && p == PassOverAll(was[..i])
        invariant artifacts == Normalized(was[..i]) + was[i..]
      {
        NormalizedStep(was, i);
        var artifact := artifacts[i];
        var kept: seq<Entry>;
        p, kept := KeepFiles(p, artifact.files);
        artifacts := artifacts[i := artifact.(files := kept)];
      }
      assert was[..|was|] == was;
      NormalizeMeaning(was);
      NotesAreRemovals(was);
      ok, notes := !p.conflict, p.notes;
    }

    /** Replaces the macOS artifact, or refuses and leaves nothing to publish. */
    method MergeMac(name: Name, bytes: int, sha256: string) returns (ok: bool)
      modifies this
      ensures ok <==> Merged(old(artifacts), name, bytes, sha256).Some?
      ensures ok ==> artifacts == Merged(old(artifacts), name, bytes, sha256).value
    {
      ghost var was := artifacts;
      var rest: seq<Artifact> := [];
      for i := 0 to |artifacts|
        invariant artifacts == was && rest == Stripped(was[..i], name)
      {
        assert was[..i + 1][..i] == was[..i];
        if artifacts[i].target != MacosArm64 {
          rest := rest + [artifacts[i].(files := Without(artifacts[i].files, name))];
        }
      }
      assert was[..|was|] == was;
      artifacts := rest;
      NormalizeMeaning(rest);
      var notes: nat;
      ok, notes := Normalize();
      if ok {
        artifacts := artifacts + [MacArtifact(name, bytes, sha256)];
      }
    }
  }

  /** Replacing entry `i` takes the normalised part one entry further. */
  lemma NormalizedStep(was: seq<Artifact>, i: nat)
    requires i < |was|
    ensures (Normalized(was[..i]) + was[i..])[i] == was[i]
    ensures PassOverAll(was[..i + 1]) == PassOver(PassOverAll(was[..i]), was[i].files)
    ensures var next := was[i].(files := Kept(PassOverAll(was[..i]), was[i].files));
            (Normalized(was[..i]) + was[i..])[i := next] == Normalized(was[..i + 1]) + was[i + 1..]
  {
    assert was[..i + 1][..i] == was[..i];
    var done, next := Normalized(was[..i]), was[i].(files := Kept(PassOverAll(was[..i]), was[i].files));
    assert Normalized(was[..i + 1]) == done + [next];
    assert (done + was[i..])[i := next] == done + [next] + was[i + 1..];
  }

  method KeepFiles(start: Pass, files: seq<Entry>) returns (p: Pass, kept: seq<Entry>)
    ensures p == PassOver(start, files) && kept == Kept(start, files)
  {
    p, kept := start, [];
    for i := 0 to |files|
      invariant p == PassOver(start, files[..i]) && kept == Kept(start, files[..i])
    {
      assert files[..i + 1][..i] == files[..i];
      var e := files[i];
      if e.name.Metadata? {
        p := p.(notes := p.notes + 1);
      } else if e.name.NotAString? {
        kept := kept + [e];
      } else if e.name.text !in p.seen {
        p := p.(seen := p.seen[e.name.text := e]);
        kept := kept + [e];
      } else if SameContent(p.seen[e.name.text], e) {
        p := p.(notes := p.notes + 1);
      } else {
        p := p.(conflict := true);
        kept := kept + [e];
      }
    }
    assert files[..|files|] == files;
  }
}
