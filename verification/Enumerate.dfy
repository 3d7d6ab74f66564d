/** `getFiles`: the depth-first walk of the source tree that prunes excluded
    directories, applies the file test to every file entry and contains
    errors per directory.

    The file system is a finite tree of the answers `readdir` and `stat`
    give. Paths are relative to the source root, which is the empty path. */
module Enumerate {
  import opened Names
  import opened Settings
  import opened Exclusion
  import opened Patterns

  /** One directory entry as `stat` and `readdir` report it. */
  datatype Node =
    | File(name: string)
      /** A directory, with its entries in `readdir` order. */
    | Dir(name: string, children: seq<Node>)
      /** A directory whose `readdir` throws. */
    | Unreadable(name: string)
      /** An entry on which `stat` throws. */
    | StatFails(name: string)

  /** What one directory's loop produced, and whether it ended in the catch. */
  datatype Scan = Scan(files: seq<string>, failed: bool)

  // ---------------------------------------------------------------------------
  // The walk, as functions

  /** `getFiles(dir)` for the entry `node` found at `dir`: nothing when `dir`
      is excluded or cannot be listed, otherwise what its loop collected,
      including when that loop ended in the catch. Only a directory that is
      not excluded yields anything. */
  function Walk(dir: string, node: Node, cfg: Config): (r: seq<string>)
    ensures r != [] ==> node.Dir? && !IsPathExcluded(dir, cfg.excludeDirs)
    decreases node, 0
  {
    if IsPathExcluded(dir, cfg.excludeDirs) then []
    else match node
      case Dir(_, children) => WalkChildren(dir, children, cfg).files
      case _ => []
  }

  /** One iteration of the `for` loop of `getFiles(dir)` on the entry `item`:
      what it pushes, or None when `stat` or a pattern's regex throws. A
      subdirectory never throws into its parent's loop, and a file pushes at
      most its own path. */
  function Visit(dir: string, item: Node, cfg: Config): (r: Option<seq<string>>)
    ensures r.None? ==> item.StatFails? || (item.File? && ShouldCopy(item.name, cfg).None?)
    ensures r.Some? && item.File? ==> r.value in {[], [Join(dir, item.name)]}
    decreases item, 1
  {
    if item.StatFails? then None
    else if item.File? then
      match ShouldCopy(item.name, cfg)
      case None => None
      case Some(keep) => Some(if keep then [Join(dir, item.name)] else [])
    else Some(Walk(Join(dir, item.name), item, cfg))
  }

  /** The `for` loop of `getFiles(dir)` over the entries `items`. An entry
      that throws ends the loop in the catch; the entries already handled
      keep their contribution. The loop ends in the catch only when one of
      the entries throws. */
  function WalkChildren(dir: string, items: seq<Node>, cfg: Config): (r: Scan)
    ensures r.failed ==> exists i | 0 <= i < |items| :: Visit(dir, items[i], cfg).None?
    decreases items, 0
  {
    if items == [] then Scan([], false)
    else
      match Visit(dir, items[0], cfg)
      case None => Scan([], true)
      case Some(pushed) =>
        var rest := WalkChildren(dir, items[1..], cfg);
        Scan(pushed + rest.files, rest.failed)
  }

  // ---------------------------------------------------------------------------
  // The walk, as a method

  /** `getFiles`, recursive, with a loop over the entries; it returns the
      paths the walk collects. */
  method GetFiles(dir: string, node: Node, cfg: Config) returns (files: seq<string>)
    ensures files == Walk(dir, node, cfg)
    decreases node
  {
    files := [];
    if IsPathExcluded(dir, cfg.excludeDirs) {
      return;
    }
    if !node.Dir? {
      return;
    }
    var items := node.children;
    var i := 0;
    while i < |items|
      invariant 0 <= i <= |items|
      invariant !WalkChildren(dir, items[..i], cfg).failed
      invariant files == WalkChildren(dir, items[..i], cfg).files
    {
      var item := items[i];
      LoopStep(dir, items, i, cfg);
      if item.StatFails? {
        return;
      } else if item.File? {
        var verdict := ShouldCopy(item.name, cfg);
        if verdict.None? {
          return;
        }
        if verdict.value {
          files := files + [Join(dir, item.name)];
        }
      } else {
        var sub := GetFiles(Join(dir, item.name), item, cfg);
        files := files + sub;
      }
      i := i + 1;
    }
    assert items[..i] == items;
  }

  /** One iteration of the loop of `GetFiles`, on entry `i`: it ends the
      loop with what came before, or pushes what the entry yields. */
  lemma LoopStep(dir: string, items: seq<Node>, i: nat, cfg: Config)
    requires i < |items| && !WalkChildren(dir, items[..i], cfg).failed
    ensures Visit(dir, items[i], cfg).None? ==>
      WalkChildren(dir, items, cfg).files == WalkChildren(dir, items[..i], cfg).files
    ensures Visit(dir, items[i], cfg).Some? ==>
      WalkChildren(dir, items[..i + 1], cfg) ==
        Scan(WalkChildren(dir, items[..i], cfg).files + Visit(dir, items[i], cfg).value, false)
  {
    WalkChildrenAppend(dir, items[..i], [items[i]], cfg);
    assert items[..i + 1] == items[..i] + [items[i]];
    if Visit(dir, items[i], cfg).None? {
      StoppedLoop(dir, items, i, cfg);
    }
  }

  /** An entry that throws always ends the loop in the catch: together with
      the contract of `WalkChildren`, the loop ends in the catch exactly when
      some entry throws. */
  lemma {:induction false} ThrowingEntryCaught(dir: string, items: seq<Node>, i: nat, cfg: Config)
    requires i < |items| && Visit(dir, items[i], cfg).None?
    ensures WalkChildren(dir, items, cfg).failed
    decreases i
  {
    if i > 0 && Visit(dir, items[0], cfg).Some? {
      assert items[1..][i - 1] == items[i];
      ThrowingEntryCaught(dir, items[1..], i - 1, cfg);
    }
  }

  /** When entry `i` raises, the loop's result is what came before it. */
  lemma StoppedLoop(dir: string, items: seq<Node>, i: int, cfg: Config)
    requires 0 <= i < |items|
    requires WalkChildren(dir, [items[i]], cfg).failed
    requires !WalkChildren(dir, items[..i], cfg).failed
    ensures WalkChildren(dir, items, cfg).files == WalkChildren(dir, items[..i], cfg).files
  {
    assert items == items[..i] + items[i..];
    WalkChildrenAppend(dir, items[..i], items[i..], cfg);
    FirstEntryThrows(dir, items[i..], cfg);
  }

  /** A loop whose first entry throws pushes nothing. */
  lemma FirstEntryThrows(dir: string, items: seq<Node>, cfg: Config)
    requires items != [] && WalkChildren(dir, [items[0]], cfg).failed
    ensures WalkChildren(dir, items, cfg) == Scan([], true)
  {
    assert [items[0]][1..] == [];
  }

  /** The source root is pruned, and the run enumerates nothing, exactly
      when `excludeDirs` holds the empty string; otherwise its entries are
      walked. */
  lemma RootWalkedUnlessEmptyEntry(root: Node, cfg: Config)
    ensures "" in cfg.excludeDirs ==> Walk("", root, cfg) == []
    ensures "" !in cfg.excludeDirs && root.Dir? ==>
      Walk("", root, cfg) == WalkChildren("", root.children, cfg).files
  {
    RootExcludedIffEmptyEntry(cfg.excludeDirs);
  }

  // ---------------------------------------------------------------------------
  // Error containment

  /** The loop over `a + b` is the loop over `a`, then, unless that ended in
      the catch, the loop over `b`. */
  lemma {:induction false} WalkChildrenAppend(dir: string, a: seq<Node>, b: seq<Node>, cfg: Config)
    ensures WalkChildren(dir, a + b, cfg) ==
      var first := WalkChildren(dir, a, cfg);
      if first.failed then first
      else
        var second := WalkChildren(dir, b, cfg);
        Scan(first.files + second.files, second.failed)
    decreases a
  {
    if a == [] {
      assert a + b == b;
    } else {
      assert (a + b)[0] == a[0];
      assert (a + b)[1..] == a[1..] + b;
      WalkChildrenAppend(dir, a[1..], b, cfg);
      match Visit(dir, a[0], cfg)
      case None =>
      case Some(pushed) =>
        var first, second := WalkChildren(dir, a[1..], cfg), WalkChildren(dir, b, cfg);
        if !first.failed {
          assert pushed + (first.files + second.files) == (pushed + first.files) + second.files;
        }
    }
  }

  /** When `stat` throws on an entry, the directory contributes exactly what
      the entries before it contributed; the later entries are dropped. */
  lemma StatFailureTruncates(dir: string, before: seq<Node>, name: string, after: seq<Node>, cfg: Config)
    ensures WalkChildren(dir, before + [StatFails(name)] + after, cfg).files ==
            WalkChildren(dir, before, cfg).files
  {
    WalkChildrenAppend(dir, before, [StatFails(name)] + after, cfg);
    assert before + [StatFails(name)] + after == before + ([StatFails(name)] + after);
  }

  /** A subdirectory that cannot be listed contributes nothing, and its
      parent goes on with the next entry. */
  lemma UnreadableSkipped(dir: string, name: string, after: seq<Node>, cfg: Config)
    ensures WalkChildren(dir, [Unreadable(name)] + after, cfg) == WalkChildren(dir, after, cfg)
  {
    assert ([Unreadable(name)] + after)[1..] == after;
    assert Walk(Join(dir, name), Unreadable(name), cfg) == [];
    assert [] + WalkChildren(dir, after, cfg).files == WalkChildren(dir, after, cfg).files;
  }

  /** A failure inside a subdirectory stays there: the parent keeps that
      subdirectory's partial result and goes on with the next entry. */
  lemma SubdirectoryFailureContained(dir: string, sub: Node, after: seq<Node>, cfg: Config)
    requires sub.Dir?
    ensures WalkChildren(dir, [sub] + after, cfg) ==
      var rest := WalkChildren(dir, after, cfg);
      Scan(Walk(Join(dir, sub.name), sub, cfg) + rest.files, rest.failed)
  {
    assert ([sub] + after)[1..] == after;
  }

  // ---------------------------------------------------------------------------
  // A reference listing: every file of the tree, in depth-first order

  /** A file entry and the directory it was listed in. */
  datatype FileRef = FileRef(parent: string, name: string)

  function PathOf(f: FileRef): string
  {
    Join(f.parent, f.name)
  }

  /** Every file under the directory entry `node` at `dir`, in `readdir`
      order, depth first, ignoring every filter. Unlistable directories and
      entries that cannot be `stat`ed hold no files. */
  function AllFiles(dir: string, node: Node): seq<FileRef>
    decreases node, 0
  {
    match node
    case Dir(_, children) => AllFilesIn(dir, children)
    case _ => []
  }

  /** The files the entry `item` of the directory `dir` stands for. */
  function FilesOf(dir: string, item: Node): seq<FileRef>
    decreases item, 1
  {
    if item.File? then [FileRef(dir, item.name)]
    else AllFiles(Join(dir, item.name), item)
  }

  function AllFilesIn(dir: string, items: seq<Node>): seq<FileRef>
    decreases items, 0
  {
    if items == [] then []
    else FilesOf(dir, items[0]) + AllFilesIn(dir, items[1..])
  }

  /** A file is copied when its directory is not excluded and the file test
      keeps it. */
  predicate Accepted(f: FileRef, cfg: Config)
  {
    !IsPathExcluded(f.parent, cfg.excludeDirs) && ShouldCopy(f.name, cfg) == Some(true)
  }

  /** The paths of the accepted files, in order. */
  function Selected(refs: seq<FileRef>, cfg: Config): (paths: seq<string>)
    ensures forall p :: p in paths <==> exists i | 0 <= i < |refs| :: Accepted(refs[i], cfg) && p == PathOf(refs[i])
  {
    if refs == [] then []
    else
      var rest := Selected(refs[1..], cfg);
      assert forall i | 1 <= i < |refs| :: refs[i] == refs[1..][i - 1];
      (if Accepted(refs[0], cfg) then [PathOf(refs[0])] else []) + rest
  }

  lemma {:induction false} SelectedAppend(a: seq<FileRef>, b: seq<FileRef>, cfg: Config)
    ensures Selected(a + b, cfg) == Selected(a, cfg) + Selected(b, cfg)
  {
    if a == [] {
      assert a + b == b;
    } else {
      assert (a + b)[0] == a[0];
      assert (a + b)[1..] == a[1..] + b;
      SelectedAppend(a[1..], b, cfg);
      var head := if Accepted(a[0], cfg) then [PathOf(a[0])] else [];
      assert Selected(a + b, cfg) == head + Selected(a[1..] + b, cfg);
      assert Selected(a, cfg) == head + Selected(a[1..], cfg);
    }
  }

  /** No entry that `getFiles` lists under `node`, found at `dir`, makes the
      loop of its directory throw. An excluded directory is never listed, so
      whatever lies below it is irrelevant. */
  predicate RaisesNothing(dir: string, node: Node, cfg: Config)
    decreases node
  {
    IsPathExcluded(dir, cfg.excludeDirs) ||
    match node
    case Dir(_, children) => RaisesNothingIn(dir, children, cfg)
    case _ => true
  }

  predicate RaisesNothingIn(dir: string, items: seq<Node>, cfg: Config)
    decreases items
  {
    items == [] ||
    (!items[0].StatFails? &&
     (items[0].File? ==> ShouldCopy(items[0].name, cfg).Some?) &&
     RaisesNothing(Join(dir, items[0].name), items[0], cfg) &&
     RaisesNothingIn(dir, items[1..], cfg))
  }

  /** Every file below an excluded directory lies in an excluded directory. */
  lemma {:induction false} AllFilesInherit(dir: string, node: Node, cfg: Config)
    requires IsPathExcluded(dir, cfg.excludeDirs)
    ensures forall f | f in AllFiles(dir, node) :: IsPathExcluded(f.parent, cfg.excludeDirs)
    decreases node
  {
    if node.Dir? {
      AllFilesInInherit(dir, node.children, cfg);
    }
  }

  lemma {:induction false} AllFilesInInherit(dir: string, items: seq<Node>, cfg: Config)
    requires IsPathExcluded(dir, cfg.excludeDirs)
    ensures forall f | f in AllFilesIn(dir, items) :: IsPathExcluded(f.parent, cfg.excludeDirs)
    decreases items
  {
    if items != [] {
      var item := items[0];
      if item.Dir? {
        ExclusionInherited(dir, item.name, cfg.excludeDirs);
        AllFilesInherit(Join(dir, item.name), item, cfg);
      } else if !item.File? {
        assert FilesOf(dir, item) == [];
      }
      AllFilesInInherit(dir, items[1..], cfg);
    }
  }

  lemma {:induction false} SelectedNone(refs: seq<FileRef>, cfg: Config)
    requires forall f | f in refs :: !Accepted(f, cfg)
    ensures Selected(refs, cfg) == []
  {
    if refs != [] {
      assert refs[0] in refs;
      assert forall f | f in refs[1..] :: f in refs;
      SelectedNone(refs[1..], cfg);
    }
  }

  /** Nothing below an excluded directory is ever selected. */
  lemma NothingSelectedBelowExcluded(dir: string, node: Node, cfg: Config)
    requires IsPathExcluded(dir, cfg.excludeDirs)
    ensures Selected(AllFiles(dir, node), cfg) == []
  {
    AllFilesInherit(dir, node, cfg);
    SelectedNone(AllFiles(dir, node), cfg);
  }

  // ---------------------------------------------------------------------------
  // Soundness and completeness of the walk

  /** Every path the walk returns is a file whose directory is not excluded
      and which the file test keeps. */
  lemma {:induction false} WalkSound(dir: string, node: Node, cfg: Config)
    ensures forall p | p in Walk(dir, node, cfg) :: p in Selected(AllFiles(dir, node), cfg)
    decreases node
  {
    if !IsPathExcluded(dir, cfg.excludeDirs) && node.Dir? {
      WalkChildrenSound(dir, node.children, cfg);
    }
  }

  lemma {:induction false} WalkChildrenSound(dir: string, items: seq<Node>, cfg: Config)
    requires !IsPathExcluded(dir, cfg.excludeDirs)
    ensures forall p | p in WalkChildren(dir, items, cfg).files :: p in Selected(AllFilesIn(dir, items), cfg)
    decreases items
  {
    if items != [] {
      var item := items[0];
      var here := FilesOf(dir, item);
      var all := Selected(AllFilesIn(dir, items), cfg);
      assert AllFilesIn(dir, items) == here + AllFilesIn(dir, items[1..]);
      SelectedAppend(here, AllFilesIn(dir, items[1..]), cfg);
      assert all == Selected(here, cfg) + Selected(AllFilesIn(dir, items[1..]), cfg);
      WalkChildrenSound(dir, items[1..], cfg);
      if item.Dir? {
        WalkSound(Join(dir, item.name), item, cfg);
      }
      match Visit(dir, item, cfg)
      case None =>
      case Some(pushed) =>
        var rest := WalkChildren(dir, items[1..], cfg);
        assert WalkChildren(dir, items, cfg).files == pushed + rest.files;
        if item.File? {
          assert ShouldCopy(item.name, cfg).Some?;
          if ShouldCopy(item.name, cfg) == Some(true) {
            assert Accepted(FileRef(dir, item.name), cfg);
            assert Selected(here, cfg) == [PathOf(FileRef(dir, item.name))];
            assert pushed == Selected(here, cfg);
          } else {
            assert pushed == [];
          }
        } else if item.Dir? {
          assert pushed == Walk(Join(dir, item.name), item, cfg);
        } else {
          assert item.Unreadable? && pushed == Walk(Join(dir, item.name), item, cfg);
        }
        assert forall p | p in pushed :: p in Selected(here, cfg);
    }
  }

  /** When nothing raises, the walk returns exactly the accepted files, in
      depth-first `readdir` order. */
  lemma {:induction false} WalkComplete(dir: string, node: Node, cfg: Config)
    requires RaisesNothing(dir, node, cfg)
    ensures Walk(dir, node, cfg) == Selected(AllFiles(dir, node), cfg)
    decreases node, 0
  {
    if IsPathExcluded(dir, cfg.excludeDirs) {
      NothingSelectedBelowExcluded(dir, node, cfg);
    } else if node.Dir? {
      WalkChildrenComplete(dir, node.children, cfg);
    }
  }

  lemma {:induction false} WalkChildrenComplete(dir: string, items: seq<Node>, cfg: Config)
    requires !IsPathExcluded(dir, cfg.excludeDirs)
    requires RaisesNothingIn(dir, items, cfg)
    ensures !WalkChildren(dir, items, cfg).failed
    ensures WalkChildren(dir, items, cfg).files == Selected(AllFilesIn(dir, items), cfg)
    decreases items, 0
  {
    if items != [] {
      var item := items[0];
      SelectedAppend(FilesOf(dir, item), AllFilesIn(dir, items[1..]), cfg);
      WalkChildrenComplete(dir, items[1..], cfg);
      VisitComplete(dir, item, cfg);
    }
  }

  /** One entry that raises nothing pushes exactly its accepted files. */
  lemma {:induction false} VisitComplete(dir: string, item: Node, cfg: Config)
    requires !IsPathExcluded(dir, cfg.excludeDirs)
    requires !item.StatFails? && (item.File? ==> ShouldCopy(item.name, cfg).Some?)
    requires RaisesNothing(Join(dir, item.name), item, cfg)
    ensures Visit(dir, item, cfg) == Some(Selected(FilesOf(dir, item), cfg))
    decreases item, 1
  {
    if item.File? {
      assert Selected([FileRef(dir, item.name)], cfg) ==
        (if Accepted(FileRef(dir, item.name), cfg) then [Join(dir, item.name)] else []);
    } else {
      WalkComplete(Join(dir, item.name), item, cfg);
    }
  }

  /** An excluded subdirectory is never listed: whatever it holds, broken
      entries included, the walk of its parent stays complete and skips it. */
  lemma ExcludedSubdirectoryIgnored(dir: string, sub: Node, after: seq<Node>, cfg: Config)
    requires !IsPathExcluded(dir, cfg.excludeDirs)
    requires sub.Dir? && IsPathExcluded(Join(dir, sub.name), cfg.excludeDirs)
    requires RaisesNothingIn(dir, after, cfg)
    ensures WalkChildren(dir, [sub] + after, cfg).files == Selected(AllFilesIn(dir, after), cfg)
  {
    var items := [sub] + after;
    assert items[0] == sub && items[1..] == after;
    WalkChildrenComplete(dir, items, cfg);
    SelectedAppend(FilesOf(dir, sub), AllFilesIn(dir, after), cfg);
    NothingSelectedBelowExcluded(Join(dir, sub.name), sub, cfg);
  }
}
