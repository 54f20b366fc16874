/**
  The path globs of scripts/ghapp_queue_arm_guard.py: `**` is any number of whole segments, `*`
  any run of characters within one segment, `?` one character.
 */
module Glob {

  function Split(s: string): (parts: seq<string>)
    ensures parts != []
  {
    if s == "" then
      [""]
    else
      var rest := Split(s[1..]);
      if s[0] == '/' then [""] + rest else [[s[0]] + rest[0]] + rest[1..]
  }

  function Join(parts: seq<string>): string
    requires parts != []
  {
    if |parts| == 1 then parts[0] else parts[0] + "/" + Join(parts[1..])
  }

  predicate SegmentMatch(pattern: string, text: string) {
    if pattern == "" then
      text == ""
    else if pattern[0] == '*' then
      exists i | 0 <= i <= |text| :: SegmentMatch(pattern[1..], text[i..])
    else
      text != "" && (pattern[0] == '?' || pattern[0] == text[0]) && SegmentMatch(pattern[1..], text[1..])
  }

  predicate SegmentsMatch(pats: seq<string>, parts: seq<string>)
    decreases |pats|
  {
    if pats == [] then
      parts == []
    else if pats[0] == "**" then
      exists i | 0 <= i <= |parts| :: SegmentsMatch(pats[1..], parts[i..])
    else
      parts != [] && SegmentMatch(pats[0], parts[0]) && SegmentsMatch(pats[1..], parts[1..])
  }

  predicate GlobMatch(pattern: string, path: string) {
    SegmentsMatch(Split(pattern), Split(path))
  }

  // ---------------------------------------------------------------------------
  // The language of a glob, without the matcher's search
  // ---------------------------------------------------------------------------

  function Flatten<T>(pieces: seq<seq<T>>): seq<T> {
    if pieces == [] then [] else pieces[0] + Flatten(pieces[1..])
  }

  /** What one pattern character may stand for. */
  predicate Fills(c: char, piece: string) {
    c == '*' || (c == '?' && |piece| == 1) || piece == [c]
  }

  ghost predicate Assigns(pattern: string, pieces: seq<string>) {
    |pieces| == |pattern| && forall i | 0 <= i < |pattern| :: Fills(pattern[i], pieces[i])
  }

  /** A segment matches iff it is the concatenation of one piece per pattern character. */
  lemma {:induction false} SegmentLanguage(pattern: string, text: string)
    ensures SegmentMatch(pattern, text) <==> exists pieces :: Assigns(pattern, pieces) && Flatten(pieces) == text
  {
    if SegmentMatch(pattern, text) {
      var pieces := SegmentWitness(pattern, text);
    }
    if pieces: seq<string> :| Assigns(pattern, pieces) && Flatten(pieces) == text {
      SegmentFromPieces(pattern, pieces);
    }
  }

  lemma {:induction false} SegmentWitness(pattern: string, text: string) returns (pieces: seq<string>)
    requires SegmentMatch(pattern, text)
    ensures Assigns(pattern, pieces) && Flatten(pieces) == text
    decreases |pattern|
  {
    if pattern == "" {
      pieces := [];
    } else {
      var i :| 0 <= i <= |text| && SegmentMatch(pattern[1..], text[i..]) && Fills(pattern[0], text[..i]);
      var rest := SegmentWitness(pattern[1..], text[i..]);
      pieces := [text[..i]] + rest;
      assert text[..i] + text[i..] == text;
    }
  }

  lemma {:induction false} SegmentFromPieces(pattern: string, pieces: seq<string>)
    requires Assigns(pattern, pieces)
    ensures SegmentMatch(pattern, Flatten(pieces))
    decreases |pattern|
  {
    if pattern == "" {
    } else {
      SegmentFromPieces(pattern[1..], pieces[1..]);
      assert Flatten(pieces)[|pieces[0]|..] == Flatten(pieces[1..]);
    }
  }

  /** What one pattern segment may stand for. */
  predicate FillsParts(pat: string, piece: seq<string>) {
    pat == "**" || (|piece| == 1 && SegmentMatch(pat, piece[0]))
  }

  ghost predicate AssignsParts(pats: seq<string>, pieces: seq<seq<string>>) {
    |pieces| == |pats| && forall i | 0 <= i < |pats| :: FillsParts(pats[i], pieces[i])
  }

  /** A path matches iff its segments fall into one run per pattern segment. */
  lemma {:induction false} PathLanguage(pats: seq<string>, parts: seq<string>)
    ensures SegmentsMatch(pats, parts) <==> exists pieces :: AssignsParts(pats, pieces) && Flatten(pieces) == parts
  {
    if SegmentsMatch(pats, parts) {
      var pieces := PathWitness(pats, parts);
    }
    if pieces: seq<seq<string>> :| AssignsParts(pats, pieces) && Flatten(pieces) == parts {
      PathFromPieces(pats, pieces);
    }
  }

  lemma {:induction false} PathWitness(pats: seq<string>, parts: seq<string>) returns (pieces: seq<seq<string>>)
    requires SegmentsMatch(pats, parts)
    ensures AssignsParts(pats, pieces) && Flatten(pieces) == parts
    decreases |pats|
  {
    if pats == [] {
      pieces := [];
    } else {
      var i :| 0 <= i <= |parts| && SegmentsMatch(pats[1..], parts[i..]) && FillsParts(pats[0], parts[..i]);
      var rest := PathWitness(pats[1..], parts[i..]);
      pieces := [parts[..i]] + rest;
      assert parts[..i] + parts[i..] == parts;
    }
  }

  lemma {:induction false} PathFromPieces(pats: seq<string>, pieces: seq<seq<string>>)
    requires AssignsParts(pats, pieces)
    ensures SegmentsMatch(pats, Flatten(pieces))
    decreases |pats|
  {
    if pats == [] {
    } else {
      PathFromPieces(pats[1..], pieces[1..]);
      assert Flatten(pieces)[|pieces[0]|..] == Flatten(pieces[1..]);
    }
  }

  // ---------------------------------------------------------------------------
  // Splitting
  // ---------------------------------------------------------------------------

  /** Splitting loses nothing and leaves no separator inside a segment. */
  lemma {:induction false} SplitThenJoin(s: string)
    ensures Join(Split(s)) == s
    ensures forall part | part in Split(s) :: '/' !in part
  {
    if s == "" {
    } else {
      var rest := Split(s[1..]);
      SplitThenJoin(s[1..]);
      assert rest[0] in rest;
      assert s == [s[0]] + s[1..];
      if s[0] == '/' {
        assert ([""] + rest)[1..] == rest;
      } else {
        assert ([[s[0]] + rest[0]] + rest[1..])[1..] == rest[1..];
      }
    }
  }

  lemma {:induction false} SplitLiteral(s: string)
    requires '/' !in s
    ensures Split(s) == [s]
  {
    if s == "" {
    } else {
      SplitLiteral(s[1..]);
      assert s == [s[0]] + s[1..];
    }
  }

  lemma {:induction false} SplitAppend(a: string, b: string)
    ensures Split(a + "/" + b) == Split(a) + Split(b)
  {
    var s := a + "/" + b;
    if a == "" {
      assert s[1..] == b;
    } else {
      SplitAppend(a[1..], b);
      assert s[1..] == a[1..] + "/" + b && s[0] == a[0];
      PrependSplit(s[0], Split(a[1..]), Split(b));
    }
  }

  lemma PrependSplit(c: char, first: seq<string>, second: seq<string>)
    requires first != []
    ensures [""] + (first + second) == ([""] + first) + second
    ensures [[c] + (first + second)[0]] + (first + second)[1..] == ([[c] + first[0]] + first[1..]) + second
  {
    assert (first + second)[1..] == first[1..] + second;
  }

  lemma {:induction false} SplitJoin(parts: seq<string>)
    requires parts != [] && forall part | part in parts :: '/' !in part
    ensures Split(Join(parts)) == parts
  {
    SplitLiteral(parts[0]);
    if |parts| <= 1 {
    } else {
      SplitJoin(parts[1..]);
      SplitAppend(parts[0], Join(parts[1..]));
    }
  }

  // ---------------------------------------------------------------------------
  // Inclusions the carry rules rest on
  // ---------------------------------------------------------------------------

  predicate IsLiteral(pattern: string) {
    '*' !in pattern && '?' !in pattern
  }

  lemma {:induction false} LiteralSegment(pattern: string, text: string)
    requires IsLiteral(pattern)
    ensures SegmentMatch(pattern, text) <==> pattern == text
  {
    if pattern != "" && text != "" {
      LiteralSegment(pattern[1..], text[1..]);
      assert pattern == [pattern[0]] + pattern[1..] && text == [text[0]] + text[1..];
    }
  }

  /** A path without wildcards matches itself only. */
  lemma {:induction false} LiteralPath(pats: seq<string>, parts: seq<string>)
    requires forall pat | pat in pats :: IsLiteral(pat)
    ensures SegmentsMatch(pats, parts) <==> pats == parts
  {
    if pats == [] {
    } else {
      assert pats[0] in pats && "**"[0] == '*';
      if parts != [] {
        LiteralSegment(pats[0], parts[0]);
        LiteralPath(pats[1..], parts[1..]);
        assert pats == [pats[0]] + pats[1..] && parts == [parts[0]] + parts[1..];
      }
    }
  }

  /** Everything below a matched directory matches that directory followed by `**`. */
  lemma {:induction false} TreeBelow(pats: seq<string>, parts: seq<string>, below: seq<string>)
    requires SegmentsMatch(pats, parts)
    ensures SegmentsMatch(pats + ["**"], parts + below)
    decreases |pats|
  {
    if pats == [] {
      assert (pats + ["**"])[1..] == [];
      assert (parts + below)[|parts + below|..] == [];
    } else {
      assert (pats + ["**"])[1..] == pats[1..] + ["**"];
      if pats[0] == "**" {
        var i :| 0 <= i <= |parts| && SegmentsMatch(pats[1..], parts[i..]);
        TreeBelow(pats[1..], parts[i..], below);
        assert (parts + below)[i..] == parts[i..] + below;
      } else {
        TreeBelow(pats[1..], parts[1..], below);
        assert (parts + below)[1..] == parts[1..] + below;
      }
    }
  }

  /** Without `**` a match is segment by segment, so it restricts to any leading part. */
  lemma {:induction false} PlainPrefix(pats: seq<string>, parts: seq<string>, n: nat)
    requires "**" !in pats && SegmentsMatch(pats, parts) && n <= |pats|
    ensures |parts| == |pats| && SegmentsMatch(pats[..n], parts[..n])
    decreases |pats|
  {
    if pats == [] {
    } else {
      assert pats[0] in pats;
      PlainPrefix(pats[1..], parts[1..], if n == 0 then 0 else n - 1);
      if n > 0 {
        assert pats[..n][1..] == pats[1..][..n - 1] && parts[..n][1..] == parts[1..][..n - 1];
      }
    }
  }

  // A plain directory followed by `**` matches only paths with a leading part matching that directory.
  lemma {:induction false} PlainTree(pats: seq<string>, parts: seq<string>)
    requires "**" !in pats && SegmentsMatch(pats + ["**"], parts)
    ensures |pats| <= |parts| && SegmentsMatch(pats, parts[..|pats|])
    decreases |pats|
  {
    if pats == [] {
    } else {
      assert pats[0] in pats;
      assert (pats + ["**"])[0] == pats[0] && (pats + ["**"])[1..] == pats[1..] + ["**"];
      PlainTree(pats[1..], parts[1..]);
      assert parts[..|pats|][1..] == parts[1..][..|pats| - 1];
    }
  }
}
