/** Relative path patterns with `**` segments (`internal/experience/pathmatch.go`). */
module PathMatch {
  import opened Common

  const ANY_SEGMENTS := "**"

  /** A segment matcher: `path.Match` reporting a match and no error. */
  type SegmentMatcher = (string, string) -> bool

  /** The recursive closure of `RelativePathPatternMatches`, over the parts of the pattern and the file. */
  predicate MatchFrom(segment: SegmentMatcher, pattern: seq<string>, file: seq<string>, p: nat, f: nat)
    requires p <= |pattern| && f <= |file|
    decreases |pattern| - p, |file| - f
  {
    if p == |pattern| then f == |file|
    else if pattern[p] == ANY_SEGMENTS then
      MatchFrom(segment, pattern, file, p + 1, f) || (f < |file| && MatchFrom(segment, pattern, file, p, f + 1))
    else f < |file| && segment(pattern[p], file[f]) && MatchFrom(segment, pattern, file, p + 1, f + 1)
  }

  /** `path.Match` on one segment, for the characters a validated pattern may contain. */
  predicate Glob(pattern: string, name: string)
    decreases |pattern|, |name|
  {
    if pattern == "" then name == ""
    else if pattern[0] == '*' then
      Glob(pattern[1..], name) || (name != "" && name[0] != '/' && Glob(pattern, name[1..]))
    else name != "" && (if pattern[0] == '?' then name[0] != '/' else pattern[0] == name[0]) && Glob(pattern[1..], name[1..])
  }

  function SegmentGlob(): SegmentMatcher {
    (pattern, name) => Glob(pattern, name)
  }

  predicate RelativePathPatternMatches(pattern: string, file: string) {
    MatchFrom(SegmentGlob(), Split(pattern, '/'), Split(file, '/'), 0, 0)
  }

  predicate MatchesAny(file: string, patterns: seq<string>) {
    exists k :: 0 <= k < |patterns| && RelativePathPatternMatches(patterns[k], file)
  }

  // ---------- the declarative reading ----------

  function Flatten<T>(blocks: seq<seq<T>>): seq<T> {
    if blocks == [] then [] else blocks[0] + Flatten(blocks[1..])
  }

  predicate BlockFits(segment: SegmentMatcher, part: string, block: seq<string>) {
    part == ANY_SEGMENTS || (|block| == 1 && segment(part, block[0]))
  }

  /** The file's segments cut into consecutive blocks, one for each pattern segment. */
  ghost predicate IsCut(segment: SegmentMatcher, pattern: seq<string>, file: seq<string>, blocks: seq<seq<string>>) {
    && |blocks| == |pattern| && Flatten(blocks) == file
    && (forall k :: 0 <= k < |pattern| ==> BlockFits(segment, pattern[k], blocks[k]))
  }

  // ---------- one segment ----------

  predicate PartFits(part: char, block: string) {
    if part == '*' then '/' !in block
    else |block| == 1 && (if part == '?' then block[0] != '/' else block[0] == part)
  }

  /** A name cut into consecutive blocks, one for each character of the pattern. */
  ghost predicate IsNameCut(pattern: string, name: string, blocks: seq<string>) {
    && |blocks| == |pattern| && Flatten(blocks) == name
    && (forall k :: 0 <= k < |pattern| ==> PartFits(pattern[k], blocks[k]))
  }

  lemma {:induction false} NameCutFromGlob(pattern: string, name: string) returns (blocks: seq<string>)
    requires Glob(pattern, name)
    ensures IsNameCut(pattern, name, blocks)
    decreases |pattern|, |name|
  {
    if pattern == "" {
      blocks := [];
    } else if pattern[0] == '*' && !Glob(pattern[1..], name) {
      var rest := NameCutFromGlob(pattern, name[1..]);
      blocks := [[name[0]] + rest[0]] + rest[1..];
      assert blocks[1..] == rest[1..];
      assert name == [name[0]] + name[1..];
    } else {
      var block := if pattern[0] == '*' then "" else [name[0]];
      var rest := NameCutFromGlob(pattern[1..], name[|block|..]);
      blocks := [block] + rest;
      assert blocks[1..] == rest;
      assert name == block + name[|block|..];
    }
  }

  lemma {:induction false} GlobFromNameCut(pattern: string, name: string, blocks: seq<string>)
    requires IsNameCut(pattern, name, blocks)
    ensures Glob(pattern, name)
    decreases |pattern|, |name|
  {
    if pattern != "" {
      var block, rest := blocks[0], blocks[1..];
      assert PartFits(pattern[0], block) && name == block + Flatten(rest);
      if pattern[0] == '*' && block != "" {
        var shorter := [block[1..]] + rest;
        assert shorter[1..] == rest && name[1..] == block[1..] + Flatten(rest);
        assert forall k :: 0 < k < |pattern| ==> shorter[k] == blocks[k];
        assert forall k :: 0 <= k < |block[1..]| ==> block[1..][k] in block;
        assert block[0] in block;
        GlobFromNameCut(pattern, name[1..], shorter);
      } else {
        assert name[|block|..] == Flatten(rest);
        GlobFromNameCut(pattern[1..], name[|block|..], rest);
      }
    }
  }

  /**
   * A segment pattern matches exactly the names that can be cut into one block for each of its characters:
   * `*` takes any run without a slash, `?` one character that is none, any other character itself.
   */
  lemma GlobIffNameCut(pattern: string, name: string)
    ensures Glob(pattern, name) <==> exists blocks :: IsNameCut(pattern, name, blocks)
  {
    if Glob(pattern, name) {
      var blocks := NameCutFromGlob(pattern, name);
    }
    if blocks :| IsNameCut(pattern, name, blocks) {
      GlobFromNameCut(pattern, name, blocks);
    }
  }

  // ---------- all segments ----------

  lemma {:induction false} CutFromMatch(segment: SegmentMatcher, pattern: seq<string>, file: seq<string>, p: nat, f: nat)
    returns (blocks: seq<seq<string>>)
    requires p <= |pattern| && f <= |file| && MatchFrom(segment, pattern, file, p, f)
    ensures IsCut(segment, pattern[p..], file[f..], blocks)
    decreases |pattern| - p, |file| - f
  {
    if p == |pattern| {
      blocks := [];
    } else {
      assert pattern[p..][1..] == pattern[p + 1..];
      if pattern[p] == ANY_SEGMENTS && !MatchFrom(segment, pattern, file, p + 1, f) {
        var rest := CutFromMatch(segment, pattern, file, p, f + 1);
        blocks := [[file[f]] + rest[0]] + rest[1..];
        assert blocks[1..] == rest[1..];
        assert file[f..] == [file[f]] + file[f + 1..];
      } else {
        var block := if pattern[p] == ANY_SEGMENTS then [] else [file[f]];
        var rest := CutFromMatch(segment, pattern, file, p + 1, f + |block|);
        blocks := [block] + rest;
        assert blocks[1..] == rest;
        assert file[f..] == block + file[f + |block|..];
      }
    }
  }

  lemma {:induction false} MatchFromCut(
    segment: SegmentMatcher, pattern: seq<string>, file: seq<string>, p: nat, f: nat, blocks: seq<seq<string>>)
    requires p <= |pattern| && f <= |file| && IsCut(segment, pattern[p..], file[f..], blocks)
    ensures MatchFrom(segment, pattern, file, p, f)
    decreases |pattern| - p, |file| - f
  {
    if p < |pattern| {
      var block, rest := blocks[0], blocks[1..];
      assert pattern[p..][0] == pattern[p] && BlockFits(segment, pattern[p], block);
      assert pattern[p..][1..] == pattern[p + 1..];
      assert file[f..] == block + Flatten(rest);
      if block == [] {
        assert Flatten(rest) == file[f..];
        MatchFromCut(segment, pattern, file, p + 1, f, rest);
      } else {
        assert file[f] == file[f..][0] == block[0];
        assert file[f + 1..] == file[f..][1..] == block[1..] + Flatten(rest);
        if pattern[p] == ANY_SEGMENTS {
          var shorter := [block[1..]] + rest;
          assert shorter[1..] == rest;
          assert forall k :: 0 < k < |pattern[p..]| ==> shorter[k] == blocks[k];
          MatchFromCut(segment, pattern, file, p, f + 1, shorter);
        } else {
          assert block[1..] == [] && Flatten(rest) == file[f + 1..];
          MatchFromCut(segment, pattern, file, p + 1, f + 1, rest);
        }
      }
    }
  }

  /** A pattern matches exactly when the file can be cut into one fitting block for each of its segments. */
  lemma MatchIffCut(segment: SegmentMatcher, pattern: seq<string>, file: seq<string>)
    ensures MatchFrom(segment, pattern, file, 0, 0) <==> exists blocks :: IsCut(segment, pattern, file, blocks)
  {
    assert pattern[0..] == pattern && file[0..] == file;
    if MatchFrom(segment, pattern, file, 0, 0) {
      var blocks := CutFromMatch(segment, pattern, file, 0, 0);
    }
    if blocks :| IsCut(segment, pattern, file, blocks) {
      MatchFromCut(segment, pattern, file, 0, 0, blocks);
    }
  }

  // ---------- adjacent `**` segments ----------

  lemma {:induction false} FlattenAppend(a: seq<seq<string>>, b: seq<seq<string>>)
    ensures Flatten(a + b) == Flatten(a) + Flatten(b)
  {
    if a == [] {
      assert a + b == b;
    } else {
      assert (a + b)[1..] == a[1..] + b;
      FlattenAppend(a[1..], b);
    }
  }

  lemma FlattenReblock(front: seq<seq<string>>, b: seq<string>, c: seq<string>, back: seq<seq<string>>)
    ensures Flatten(front + [b, c] + back) == Flatten(front + [b + c] + back)
  {
    FlattenAppend(front + [b, c], back);
    FlattenAppend(front, [b, c]);
    FlattenAppend(front + [b + c], back);
    FlattenAppend(front, [b + c]);
    assert [b, c][1..] == [c] && [c][1..] == [] && [b + c][1..] == [];
  }

  lemma JoinBlocks(
    segment: SegmentMatcher, before: seq<string>, after: seq<string>, file: seq<string>, blocks: seq<seq<string>>)
    returns (joined: seq<seq<string>>)
    requires IsCut(segment, before + [ANY_SEGMENTS, ANY_SEGMENTS] + after, file, blocks)
    ensures IsCut(segment, before + [ANY_SEGMENTS] + after, file, joined)
  {
    var two, one := before + [ANY_SEGMENTS, ANY_SEGMENTS] + after, before + [ANY_SEGMENTS] + after;
    var n := |before|;
    var front, back := blocks[..n], blocks[n + 2..];
    assert blocks == front + [blocks[n], blocks[n + 1]] + back;
    FlattenReblock(front, blocks[n], blocks[n + 1], back);
    joined := front + [blocks[n] + blocks[n + 1]] + back;
    forall k | 0 <= k < |one|
      ensures BlockFits(segment, one[k], joined[k])
    {
      var l := if k <= n then k else k + 1;
      assert BlockFits(segment, two[l], blocks[l]) && one[k] == two[l];
    }
  }

  lemma SplitBlock(
    segment: SegmentMatcher, before: seq<string>, after: seq<string>, file: seq<string>, blocks: seq<seq<string>>)
    returns (split: seq<seq<string>>)
    requires IsCut(segment, before + [ANY_SEGMENTS] + after, file, blocks)
    ensures IsCut(segment, before + [ANY_SEGMENTS, ANY_SEGMENTS] + after, file, split)
  {
    var two, one := before + [ANY_SEGMENTS, ANY_SEGMENTS] + after, before + [ANY_SEGMENTS] + after;
    var n := |before|;
    var front, back := blocks[..n], blocks[n + 1..];
    assert blocks[n] + [] == blocks[n] && blocks == front + [blocks[n]] + back;
    FlattenReblock(front, blocks[n], [], back);
    split := front + [blocks[n], []] + back;
    forall k | 0 <= k < |two|
      ensures BlockFits(segment, two[k], split[k])
    {
      var l := if k <= n then k else k - 1;
      assert BlockFits(segment, one[l], blocks[l]) && two[k] == one[l];
    }
  }

  /** Two `**` segments in a row mean the same as one. */
  lemma AdjacentAnySegmentsCollapse(segment: SegmentMatcher, before: seq<string>, after: seq<string>, file: seq<string>)
    ensures MatchFrom(segment, before + [ANY_SEGMENTS, ANY_SEGMENTS] + after, file, 0, 0)
            <==> MatchFrom(segment, before + [ANY_SEGMENTS] + after, file, 0, 0)
  {
    hide IsCut, MatchFrom;
    var two, one := before + [ANY_SEGMENTS, ANY_SEGMENTS] + after, before + [ANY_SEGMENTS] + after;
    MatchIffCut(segment, two, file);
    MatchIffCut(segment, one, file);
    if MatchFrom(segment, two, file, 0, 0) {
      var blocks :| IsCut(segment, two, file, blocks);
      var joined := JoinBlocks(segment, before, after, file, blocks);
    }
    if MatchFrom(segment, one, file, 0, 0) {
      var blocks :| IsCut(segment, one, file, blocks);
      var split := SplitBlock(segment, before, after, file, blocks);
    }
  }

  /** The text is the parts with a slash between any two. */
  predicate SlashParts(text: string, parts: seq<string>) {
    parts != [] && Join(parts, "/") == text && forall k :: 0 <= k < |parts| ==> '/' !in parts[k]
  }

  /** One block of file parts for each pattern part: any number for `**`, else one whose name the part cuts. */
  ghost predicate Reads(parts: seq<string>, names: seq<string>, blocks: seq<seq<string>>) {
    && |blocks| == |parts| && Flatten(blocks) == names
    && forall k :: 0 <= k < |parts| ==>
         parts[k] == "**" || (|blocks[k]| == 1 && exists cut :: IsNameCut(parts[k], blocks[k][0], cut))
  }

  lemma ReadsIsCut(parts: seq<string>, names: seq<string>, blocks: seq<seq<string>>)
    ensures Reads(parts, names, blocks) <==> IsCut(SegmentGlob(), parts, names, blocks)
  {
    forall k | 0 <= k < |parts| && |blocks| == |parts| && |blocks[k]| == 1
      ensures SegmentGlob()(parts[k], blocks[k][0]) <==> exists cut :: IsNameCut(parts[k], blocks[k][0], cut)
    {
      GlobIffNameCut(parts[k], blocks[k][0]);
    }
    hide IsNameCut, Glob;
  }

  /** The whole match: the pattern's parts between slashes read the file's. */
  lemma RelativeMatchIff(pattern: string, file: string)
    ensures RelativePathPatternMatches(pattern, file) <==>
              exists parts, names, blocks ::
                SlashParts(pattern, parts) && SlashParts(file, names) && Reads(parts, names, blocks)
  {
    var ps, ns := Split(pattern, '/'), Split(file, '/');
    SplitJoins(pattern, '/');
    SplitJoins(file, '/');
    MatchIffCut(SegmentGlob(), ps, ns);
    assert SlashParts(pattern, ps) && SlashParts(file, ns);
    forall parts | SlashParts(pattern, parts)
      ensures parts == ps
    {
      JoinUnique(parts, ps);
    }
    forall names | SlashParts(file, names)
      ensures names == ns
    {
      JoinUnique(names, ns);
    }
    hide SlashParts, Reads, IsCut, MatchFrom;
    forall blocks
      ensures Reads(ps, ns, blocks) <==> IsCut(SegmentGlob(), ps, ns, blocks)
    {
      ReadsIsCut(ps, ns, blocks);
    }
  }

  // ---------- a file that a pattern matches ----------

  function SampleChar(c: char): char {
    if c == '*' || c == '?' then 'x' else c
  }

  /** The pattern with each wildcard character replaced by a letter: a file name of the same shape. */
  function Sample(pattern: string): string {
    seq(|pattern|, i requires 0 <= i < |pattern| => SampleChar(pattern[i]))
  }

  function Samples(parts: seq<string>): seq<string> {
    seq(|parts|, i requires 0 <= i < |parts| => Sample(parts[i]))
  }

  lemma {:induction false} SampleFits(part: string)
    ensures Glob(part, Sample(part))
  {
    if part != "" {
      SampleFits(part[1..]);
      assert Sample(part)[1..] == Sample(part[1..]);
    }
  }

  lemma SampleOfNone()
    ensures Sample("") == ""
  {
  }

  lemma SampleOfMore(c: char, part: string)
    ensures Sample([c] + part) == [SampleChar(c)] + Sample(part)
  {
  }

  lemma SamplesOfMore(part: string, parts: seq<string>)
    ensures Samples([part] + parts) == [Sample(part)] + Samples(parts)
  {
  }

  lemma {:induction false} SplitSample(pattern: string)
    ensures Split(Sample(pattern), '/') == Samples(Split(pattern, '/'))
  {
    if pattern == "" {
      assert Sample(pattern) == "" && Samples([""]) == [""];
    } else {
      SplitSample(pattern[1..]);
      var c, rest := pattern[0], Split(pattern[1..], '/');
      assert Sample(pattern)[0] == SampleChar(c) && Sample(pattern)[1..] == Sample(pattern[1..]);
      hide Sample;
      if c == '/' {
        SamplesOfMore("", rest);
      } else {
        SampleOfMore(c, rest[0]);
        SamplesOfMore([c] + rest[0], rest[1..]);
        SamplesOfMore(rest[0], rest[1..]);
        assert rest == [rest[0]] + rest[1..];
      }
      SampleOfNone();
    }
  }

  lemma {:induction false} SamplesMatch(pattern: seq<string>, p: nat)
    requires p <= |pattern|
    ensures MatchFrom(SegmentGlob(), pattern, Samples(pattern), p, p)
    decreases |pattern| - p
  {
    if p < |pattern| {
      SamplesMatch(pattern, p + 1);
      SampleFits(pattern[p]);
      assert pattern[p] == ANY_SEGMENTS ==>
               MatchFrom(SegmentGlob(), pattern, Samples(pattern), p, p + 1);
    }
  }

  /** Every pattern matches its sample. */
  lemma SampleMatches(pattern: string)
    ensures RelativePathPatternMatches(pattern, Sample(pattern))
  {
    SplitSample(pattern);
    SamplesMatch(Split(pattern, '/'), 0);
  }
}
