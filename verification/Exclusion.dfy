/** The directory-exclusion predicate `isPathExcluded` of consolidateFiles. */
module Exclusion {
  import opened Names
  import opened Settings

  /** One `excludeDirs` entry against one segment, both lower-cased: equal, or
      the segment starts with the entry. */
  predicate SegmentMatches(segment: string, entry: string): (r: bool)
    ensures r <==> StartsWith(Lower(segment), Lower(entry))
  {
    Lower(segment) == Lower(entry) || StartsWith(Lower(segment), Lower(entry))
  }

  /** `isPathExcluded`, for a path given relative to the source root: some
      segment of it matches some entry of `excludeDirs`. Every segment starts
      with the empty string, so an empty entry excludes every path. */
  predicate IsPathExcluded(rel: string, excludeDirs: seq<string>): (r: bool)
    ensures "" in excludeDirs ==> r
  {
    var segments := Split(rel);
    assert |Lower("")| == 0 && SegmentMatches(segments[0], "");
    exists i, j | 0 <= i < |segments| && 0 <= j < |excludeDirs| ::
      SegmentMatches(segments[i], excludeDirs[j])
  }

  /** The equality test is subsumed by `startsWith`: a path is excluded exactly
      when some lower-cased segment starts with some lower-cased entry. */
  lemma ExcludedIffPrefix(rel: string, excludeDirs: seq<string>)
    ensures IsPathExcluded(rel, excludeDirs) <==>
      exists i, j | 0 <= i < |Split(rel)| && 0 <= j < |excludeDirs| ::
        StartsWith(Lower(Split(rel)[i]), Lower(excludeDirs[j]))
  {
    if IsPathExcluded(rel, excludeDirs) {
      var i, j :| 0 <= i < |Split(rel)| && 0 <= j < |excludeDirs| &&
        SegmentMatches(Split(rel)[i], excludeDirs[j]);
      assert StartsWith(Lower(Split(rel)[i]), Lower(excludeDirs[j]));
    }
  }

  /** With no entries nothing is excluded. */
  lemma NothingExcludedByEmptyList(rel: string)
    ensures !IsPathExcluded(rel, [])
  {
  }

  /** The source root (relative path "", the single segment "") is excluded
      only when `excludeDirs` holds the empty string. */
  lemma RootExcludedIffEmptyEntry(excludeDirs: seq<string>)
    ensures IsPathExcluded("", excludeDirs) <==> "" in excludeDirs
  {
    assert Split("") == [""];
    if IsPathExcluded("", excludeDirs) {
      var j :| 0 <= j < |excludeDirs| && SegmentMatches("", excludeDirs[j]);
      LowerEmpty(excludeDirs[j]);
    }
    if "" in excludeDirs {
      var j :| 0 <= j < |excludeDirs| && excludeDirs[j] == "";
      assert SegmentMatches(Split("")[0], excludeDirs[j]);
    }
  }

  /** An excluded path excludes every path beneath it. */
  lemma ExclusionInherited(dir: string, name: string, excludeDirs: seq<string>)
    requires IsPathExcluded(dir, excludeDirs)
    ensures IsPathExcluded(Join(dir, name), excludeDirs)
  {
    var i, j :| 0 <= i < |Split(dir)| && 0 <= j < |excludeDirs| &&
      SegmentMatches(Split(dir)[i], excludeDirs[j]);
    var child := Split(Join(dir, name));
    if dir == "" {
      LowerEmpty(excludeDirs[j]);
      assert SegmentMatches(child[0], excludeDirs[j]);
    } else {
      assert child[i] == Split(dir)[i];
      assert SegmentMatches(child[i], excludeDirs[j]);
    }
  }

  /** The prefix rule on the default list, in any case and at any depth: an
      entry whose name starts with `dist` (`distribution`, `DIST`) is
      excluded wherever it sits. */
  lemma DistPrefixExcluded(dir: string, name: string)
    requires Sep !in name
    requires StartsWith(Lower(name), "dist")
    ensures IsPathExcluded(Join(dir, name), DefaultExcludeDirs)
  {
    SplitName(name);
    var segments := Split(Join(dir, name));
    assert Lower(DefaultExcludeDirs[2]) == "dist";
    assert SegmentMatches(segments[|segments| - 1], DefaultExcludeDirs[2]);
    SegmentExcludes(Join(dir, name), DefaultExcludeDirs, |segments| - 1, 2);
  }

  /** One matching segment is enough. */
  lemma SegmentExcludes(rel: string, excludeDirs: seq<string>, i: nat, j: nat)
    requires i < |Split(rel)| && j < |excludeDirs|
    requires SegmentMatches(Split(rel)[i], excludeDirs[j])
    ensures IsPathExcluded(rel, excludeDirs)
  {
  }

  /** Every default entry is non-empty and, lower-cased, begins with one of
      `n`, `.`, `d`, `b`. */
  lemma DefaultEntriesBegin()
    ensures forall j | 0 <= j < |DefaultExcludeDirs| ::
      Lower(DefaultExcludeDirs[j]) != "" && Lower(DefaultExcludeDirs[j])[0] in "n.db"
  {
    forall j | 0 <= j < |DefaultExcludeDirs|
      ensures Lower(DefaultExcludeDirs[j]) != "" && Lower(DefaultExcludeDirs[j])[0] in "n.db"
    {
      assert DefaultExcludeDirs[j][0] in "n.db";
    }
  }

  /** With the defaults, a path none of whose segments begins with `n`, `.`,
      `d` or `b` (in either case) is kept. */
  lemma KeptByDefaults(rel: string)
    requires forall i | 0 <= i < |Split(rel)| ::
      Split(rel)[i] == "" || LowerChar(Split(rel)[i][0]) !in "n.db"
    ensures !IsPathExcluded(rel, DefaultExcludeDirs)
  {
    DefaultEntriesBegin();
    var segments := Split(rel);
    forall i, j | 0 <= i < |segments| && 0 <= j < |DefaultExcludeDirs|
      ensures !SegmentMatches(segments[i], DefaultExcludeDirs[j])
    {
      var entry := Lower(DefaultExcludeDirs[j]);
      if segments[i] != "" {
        assert Lower(segments[i])[0] != entry[0];
      }
    }
  }
}
