/** The body of consolidateFiles: reset the target directory, enumerate the
    source tree, and copy every enumerated file into the target under a name
    not already taken there (`name.ext`, then `name_1.ext`, `name_2.ext`, ...).

    The target directory is modelled by the names it holds, each mapped to
    the source file copied there. */
module Consolidate {
  import opened Names
  import opened Settings
  import opened Enumerate

  // ---------------------------------------------------------------------------
  // Collision naming

  /** The name tried after `k` collisions: the file name itself, then
      `${baseName}_${k}${ext}`, always built from the original name. Only
      the first is the file name itself; the others are longer. */
  function Candidate(fileName: string, k: nat): (r: string)
    ensures r == fileName <==> k == 0
    ensures k > 0 ==> |r| == |fileName| + 1 + |Decimal(k)|
  {
    if k == 0 then fileName
    else
      assert |Stem(fileName)| + |ExtName(fileName)| == |fileName|;
      Stem(fileName) + "_" + Decimal(k) + ExtName(fileName)
  }

  /** Different counters give different names. */
  lemma CandidateInjective(fileName: string, j: nat, k: nat)
    requires Candidate(fileName, j) == Candidate(fileName, k)
    ensures j == k
  {
    var stem, ext := Stem(fileName), ExtName(fileName);
    assert stem + ext == fileName;
    if j > 0 && k > 0 {
      var a, b := Candidate(fileName, j), Candidate(fileName, k);
      assert |Decimal(j)| == |Decimal(k)|;
      assert a[|stem| + 1..|stem| + 1 + |Decimal(j)|] == Decimal(j);
      assert b[|stem| + 1..|stem| + 1 + |Decimal(k)|] == Decimal(k);
      DecimalInjective(j, k);
    } else if j > 0 || k > 0 {
      assert false;
    }
  }

  /** The names tried first: candidates 0 to k - 1. */
  function FirstCandidates(fileName: string, k: nat): (r: set<string>)
    ensures forall j | 0 <= j < k :: Candidate(fileName, j) in r
    ensures forall x | x in r :: exists j | 0 <= j < k :: x == Candidate(fileName, j)
  {
    if k == 0 then {} else FirstCandidates(fileName, k - 1) + {Candidate(fileName, k - 1)}
  }

  /** The first `k` candidates are `k` distinct names. */
  lemma {:induction false} CandidateSetSize(fileName: string, k: nat)
    ensures |FirstCandidates(fileName, k)| == k
  {
    if k > 0 {
      CandidateSetSize(fileName, k - 1);
      CandidateNotYetTried(fileName, k - 1);
      var prev, last := FirstCandidates(fileName, k - 1), Candidate(fileName, k - 1);
      assert FirstCandidates(fileName, k) == prev + {last};
      assert |prev + {last}| == |prev| + 1;
    }
  }

  /** Candidate `n` is none of the candidates before it. */
  lemma CandidateNotYetTried(fileName: string, n: nat)
    ensures Candidate(fileName, n) !in FirstCandidates(fileName, n)
  {
    if Candidate(fileName, n) in FirstCandidates(fileName, n) {
      var j :| 0 <= j < n && Candidate(fileName, n) == Candidate(fileName, j);
      CandidateInjective(fileName, j, n);
      assert false;
    }
  }

  /** If the first `k` candidates are all taken, there are at least `k`
      names present. */
  lemma CandidatesBound(fileName: string, used: set<string>, k: nat)
    requires forall j | 0 <= j < k :: Candidate(fileName, j) in used
    ensures k <= |used|
  {
    CandidateSetSize(fileName, k);
    SubsetSize(FirstCandidates(fileName, k), used);
  }

  lemma {:induction false} SubsetSize<T>(a: set<T>, b: set<T>)
    requires a <= b
    ensures |a| <= |b|
    decreases |b|
  {
    if a != {} {
      var x :| x in a;
      SubsetSize(a - {x}, b - {x});
    }
  }

  /** The counter of the first free candidate, searching from `k`. */
  function FirstFree(fileName: string, used: set<string>, k: nat): (r: nat)
    requires forall j | 0 <= j < k :: Candidate(fileName, j) in used
    ensures k <= r <= |used|
    ensures Candidate(fileName, r) !in used
    ensures forall j | 0 <= j < r :: Candidate(fileName, j) in used
    decreases |used| - k
  {
    CandidatesBound(fileName, used, k);
    if Candidate(fileName, k) !in used then k
    else
      CandidatesBound(fileName, used, k + 1);
      FirstFree(fileName, used, k + 1)
  }

  /** The name `fileName` is copied under when `used` are present: the first
      candidate not present. */
  function Resolve(fileName: string, used: set<string>): (name: string)
    ensures name !in used
    ensures exists k | 0 <= k <= |used| ::
      name == Candidate(fileName, k) && forall j | 0 <= j < k :: Candidate(fileName, j) in used
  {
    var k := FirstFree(fileName, used, 0);
    assert Candidate(fileName, k) == Candidate(fileName, k);
    Candidate(fileName, k)
  }

  /** The first free candidate is the one after the taken ones. */
  lemma ResolveIs(fileName: string, used: set<string>, k: nat)
    requires forall j | 0 <= j < k :: Candidate(fileName, j) in used
    requires Candidate(fileName, k) !in used
    ensures Resolve(fileName, used) == Candidate(fileName, k)
  {
    var r := FirstFree(fileName, used, 0);
    if r != k {
      assert false;
    }
  }

  // ---------------------------------------------------------------------------
  // The copy loop, as functions

  /** The name `source` is copied under when the target holds `entries`:
      the first free candidate built from its basename. */
  function Place(entries: map<string, string>, source: string): (name: string)
    ensures name !in entries
  {
    Resolve(Basename(source), entries.Keys)
  }

  /** The copy loop below is stated for any naming rule `place`; the loop of
      consolidateFiles is the one with `Place`. Most of its properties only
      need the rule to pick a name that is not present. */
  type Namer = (map<string, string>, string) -> string

  ghost predicate PicksFresh(place: Namer)
  {
    forall m: map<string, string>, s: string :: place(m, s) !in m
  }

  lemma PlacePicksFresh()
    ensures PicksFresh(Place)
  {
    forall m: map<string, string>, s: string ensures Place(m, s) !in m {
    }
  }

  /** One iteration of the copy loop: the target after copying `source`.
      The source lands under the name the rule picks; every other name keeps
      what it held. */
  function CopyOne(place: Namer, entries: map<string, string>, source: string): (r: map<string, string>)
    ensures r.Keys == entries.Keys + {place(entries, source)}
    ensures r[place(entries, source)] == source
    ensures forall n | n in entries && n != place(entries, source) :: r[n] == entries[n]
  {
    entries[place(entries, source) := source]
  }

  /** The target after copying `sources` in order. No name disappears, and
      every name that was not there before holds one of the sources. */
  function CopyAll(place: Namer, entries: map<string, string>, sources: seq<string>): (r: map<string, string>)
    ensures entries.Keys <= r.Keys
    ensures forall n | n in r && n !in entries :: r[n] in sources
  {
    if sources == [] then entries
    else
      var before := sources[..|sources| - 1];
      assert forall x | x in before :: x in sources;
      CopyOne(place, CopyAll(place, entries, before), sources[|sources| - 1])
  }

  /** The name each source was copied under. */
  function Targets(place: Namer, entries: map<string, string>, sources: seq<string>): (names: seq<string>)
    ensures |names| == |sources|
  {
    if sources == [] then []
    else
      var before := sources[..|sources| - 1];
      Targets(place, entries, before) + [place(CopyAll(place, entries, before), sources[|sources| - 1])]
  }

  /** The last iteration of the copy loop, unfolded once. */
  lemma CopyAllLast(place: Namer, entries: map<string, string>, sources: seq<string>)
    requires sources != []
    ensures var before, last := sources[..|sources| - 1], sources[|sources| - 1];
      Targets(place, entries, sources)[|sources| - 1] == place(CopyAll(place, entries, before), last) &&
      CopyAll(place, entries, sources) ==
        CopyAll(place, entries, before)[Targets(place, entries, sources)[|sources| - 1] := last]
    ensures forall i | 0 <= i < |sources| - 1 ::
      Targets(place, entries, sources)[i] == Targets(place, entries, sources[..|sources| - 1])[i]
  {
  }

  lemma TakeOneMore<T>(s: seq<T>, i: nat)
    requires i < |s|
    ensures s[..i + 1] == s[..i] + [s[i]]
  {
  }

  lemma DropLast<T>(s: seq<T>)
    requires s != []
    ensures s[..|s| - 1] + [s[|s| - 1]] == s
  {
  }

  lemma CopyAllSnoc(place: Namer, entries: map<string, string>, sources: seq<string>, source: string)
    ensures CopyAll(place, entries, sources + [source]) == CopyOne(place, CopyAll(place, entries, sources), source)
    ensures Targets(place, entries, sources + [source]) ==
      Targets(place, entries, sources) + [place(CopyAll(place, entries, sources), source)]
  {
    assert (sources + [source])[..|sources|] == sources;
  }

  /** Copying only adds names: a name is in the target afterwards exactly
      when it was there before or some source was copied under it. */
  lemma {:induction false} CopyAllKeys(place: Namer, entries: map<string, string>, sources: seq<string>, n: string)
    ensures n in CopyAll(place, entries, sources) <==> n in entries || n in Targets(place, entries, sources)
  {
    if sources != [] {
      CopyAllKeys(place, entries, sources[..|sources| - 1], n);
      CopyAllLast(place, entries, sources);
    }
  }

  /** No source is copied under a name the target held before. */
  lemma {:induction false} TargetFresh(place: Namer, entries: map<string, string>, sources: seq<string>, i: nat)
    requires PicksFresh(place)
    requires i < |sources|
    ensures Targets(place, entries, sources)[i] !in entries
  {
    var before := sources[..|sources| - 1];
    CopyAllLast(place, entries, sources);
    if i < |before| {
      TargetFresh(place, entries, before, i);
    } else {
      CopyAllKeys(place, entries, before, Targets(place, entries, sources)[i]);
    }
  }

  /** No two sources are copied under the same name. */
  lemma {:induction false} TargetsDistinct(place: Namer, entries: map<string, string>, sources: seq<string>, i: nat, j: nat)
    requires PicksFresh(place)
    requires i < j < |sources|
    ensures Targets(place, entries, sources)[i] != Targets(place, entries, sources)[j]
  {
    var before := sources[..|sources| - 1];
    CopyAllLast(place, entries, sources);
    if j < |before| {
      TargetsDistinct(place, entries, before, i, j);
    } else {
      var prev := Targets(place, entries, before);
      assert Targets(place, entries, sources)[i] == prev[i] && prev[i] in prev;
      CopyAllKeys(place, entries, before, prev[i]);
    }
  }

  /** What the target held before copying stays, unchanged. */
  lemma {:induction false} CopyAllPreserves(place: Namer, entries: map<string, string>, sources: seq<string>, n: string)
    requires PicksFresh(place)
    requires n in entries
    ensures n in CopyAll(place, entries, sources) && CopyAll(place, entries, sources)[n] == entries[n]
  {
    if sources != [] {
      CopyAllPreserves(place, entries, sources[..|sources| - 1], n);
      CopyAllLast(place, entries, sources);
    }
  }

  /** Each source ends up under its target name, not overwritten by a
      later copy. */
  lemma {:induction false} TargetHoldsSource(place: Namer, entries: map<string, string>, sources: seq<string>, i: nat)
    requires PicksFresh(place)
    requires i < |sources|
    ensures Targets(place, entries, sources)[i] in CopyAll(place, entries, sources)
    ensures CopyAll(place, entries, sources)[Targets(place, entries, sources)[i]] == sources[i]
  {
    var before := sources[..|sources| - 1];
    CopyAllLast(place, entries, sources);
    if i < |before| {
      TargetHoldsSource(place, entries, before, i);
      assert sources[i] == before[i];
    }
  }

  /** The name the `i`-th source is copied under is the one the rule picks
      for it after the sources before it were copied. */
  lemma {:induction false} TargetAt(place: Namer, entries: map<string, string>, sources: seq<string>, i: nat)
    requires i < |sources|
    ensures Targets(place, entries, sources)[i] == place(CopyAll(place, entries, sources[..i]), sources[i])
  {
    var before := sources[..|sources| - 1];
    CopyAllLast(place, entries, sources);
    if i < |before| {
      TargetAt(place, entries, before, i);
      assert before[..i] == sources[..i];
      assert before[i] == sources[i];
    }
  }

  /** The name a source is placed under is a candidate built from its
      basename. */
  lemma PlaceIsCandidate(entries: map<string, string>, source: string)
    ensures exists k: nat :: Place(entries, source) == Candidate(Basename(source), k)
  {
    var fileName, used := Basename(source), entries.Keys;
    var k: nat :| k <= |used| && Resolve(fileName, used) == Candidate(fileName, k) &&
      forall j | 0 <= j < k :: Candidate(fileName, j) in used;
  }

  /** Each target is a candidate built from its own source's basename, so
      suffixes never compound. */
  lemma TargetIsCandidate(entries: map<string, string>, sources: seq<string>, i: nat)
    requires i < |sources|
    ensures exists k: nat :: Targets(Place, entries, sources)[i] == Candidate(Basename(sources[i]), k)
  {
    TargetAt(Place, entries, sources, i);
    PlaceIsCandidate(CopyAll(Place, entries, sources[..i]), sources[i]);
  }

  /** N copied files leave N distinct names in a target that started empty. */
  lemma CopyAllSize(place: Namer, sources: seq<string>)
    requires PicksFresh(place)
    ensures |CopyAll(place, map[], sources).Keys| == |sources|
  {
    var names := Targets(place, map[], sources);
    FreshTargetKeys(place, sources);
    forall i, j | 0 <= i < j < |names| ensures names[i] != names[j] {
      TargetsDistinct(place, map[], sources, i, j);
    }
    assert CopyAll(place, map[], sources).Keys == set n | n in names;
    DistinctSetSize(names);
  }

  lemma {:induction false} DistinctSetSize(names: seq<string>)
    requires forall i, j | 0 <= i < j < |names| :: names[i] != names[j]
    ensures |set n | n in names| == |names|
  {
    if names != [] {
      var k := |names| - 1;
      DistinctSetSize(names[..k]);
      assert names == names[..k] + [names[k]];
      assert (set n | n in names) == (set n | n in names[..k]) + {names[k]};
      assert names[k] !in names[..k];
    }
  }

  /** A target that started empty holds exactly the names it was given. */
  lemma FreshTargetKeys(place: Namer, sources: seq<string>)
    ensures forall x :: x in CopyAll(place, map[], sources) <==> x in Targets(place, map[], sources)
  {
    forall x ensures x in CopyAll(place, map[], sources) <==> x in Targets(place, map[], sources) {
      CopyAllKeys(place, map[], sources, x);
    }
  }

  // ---------------------------------------------------------------------------
  // Numbering among files that share a basename

  /** How many of `sources` have the basename `fileName`. */
  function SharingCount(fileName: string, sources: seq<string>): (c: nat)
    ensures c <= |sources|
    ensures (forall j | 0 <= j < |sources| :: Basename(sources[j]) == fileName) ==> c == |sources|
  {
    if sources == [] then 0
    else
      var before := sources[..|sources| - 1];
      assert forall j | 0 <= j < |before| :: before[j] == sources[j];
      SharingCount(fileName, before) + (if Basename(sources[|sources| - 1]) == fileName then 1 else 0)
  }

  /** No name tried for `other` is ever a name tried for `fileName`. */
  ghost predicate NoClash(other: string, fileName: string)
  {
    forall m: nat, k: nat :: Candidate(other, m) != Candidate(fileName, k)
  }

  /** Every source either has the basename `fileName` or never competes with
      it for a name. */
  ghost predicate ApartFrom(fileName: string, sources: seq<string>)
  {
    forall j | 0 <= j < |sources| :: Basename(sources[j]) == fileName || NoClash(Basename(sources[j]), fileName)
  }

  lemma ApartFromPrefix(fileName: string, sources: seq<string>, n: nat)
    requires ApartFrom(fileName, sources) && n <= |sources|
    ensures ApartFrom(fileName, sources[..n])
  {
    assert forall j | 0 <= j < n :: sources[..n][j] == sources[j];
  }

  /** Among `names`, the candidates of `fileName` are exactly the first `c`. */
  ghost predicate HoldsFirst(fileName: string, names: seq<string>, c: nat)
  {
    forall k: nat :: Candidate(fileName, k) in names <==> k < c
  }

  /** Adding candidate `c` to the first `c` gives the first `c + 1`. */
  lemma HoldsNext(fileName: string, names: seq<string>, c: nat)
    requires HoldsFirst(fileName, names, c)
    ensures HoldsFirst(fileName, names + [Candidate(fileName, c)], c + 1)
  {
    var longer := names + [Candidate(fileName, c)];
    forall k: nat ensures Candidate(fileName, k) in longer <==> k < c + 1 {
      if Candidate(fileName, k) == Candidate(fileName, c) {
        CandidateInjective(fileName, k, c);
      }
      assert Candidate(fileName, k) in longer <==> Candidate(fileName, k) in names || Candidate(fileName, k) == Candidate(fileName, c);
    }
  }

  /** Adding a name that is no candidate of `fileName` changes nothing. */
  lemma HoldsOther(fileName: string, names: seq<string>, c: nat, t: string)
    requires HoldsFirst(fileName, names, c)
    requires forall k: nat :: t != Candidate(fileName, k)
    ensures HoldsFirst(fileName, names + [t], c)
  {
    var longer := names + [t];
    forall k: nat ensures Candidate(fileName, k) in longer <==> k < c {
      assert Candidate(fileName, k) in longer <==> Candidate(fileName, k) in names || Candidate(fileName, k) == t;
    }
  }

  /** When exactly the first `c` candidates of `fileName` were given out, a
      source with that basename gets candidate `c`. */
  lemma PlaceNext(fileName: string, sources: seq<string>, c: nat, x: string)
    requires HoldsFirst(fileName, Targets(Place, map[], sources), c)
    requires Basename(x) == fileName
    ensures Place(CopyAll(Place, map[], sources), x) == Candidate(fileName, c)
  {
    var used := CopyAll(Place, map[], sources).Keys;
    FreshTargetKeys(Place, sources);
    forall j | 0 <= j < c ensures Candidate(fileName, j) in used {
      assert Candidate(fileName, j) in Targets(Place, map[], sources);
    }
    assert Candidate(fileName, c) !in Targets(Place, map[], sources);
    ResolveIs(fileName, used, c);
  }

  /** A source whose basename does not clash never gets a candidate of
      `fileName`. */
  lemma PlaceOther(fileName: string, entries: map<string, string>, x: string)
    requires NoClash(Basename(x), fileName)
    ensures forall k: nat :: Place(entries, x) != Candidate(fileName, k)
  {
    PlaceIsCandidate(entries, x);
    var m: nat :| Place(entries, x) == Candidate(Basename(x), m);
    forall k: nat ensures Place(entries, x) != Candidate(fileName, k) {
      assert Candidate(Basename(x), m) != Candidate(fileName, k);
    }
  }

  /** After copying `sources` into an empty target, the candidates of
      `fileName` present are exactly the first `c`, where `c` counts the
      sources with that basename. */
  lemma {:induction false} CandidatesTaken(fileName: string, sources: seq<string>)
    requires ApartFrom(fileName, sources)
    ensures HoldsFirst(fileName, Targets(Place, map[], sources), SharingCount(fileName, sources))
  {
    if sources == [] {
      assert forall k: nat :: Candidate(fileName, k) !in Targets(Place, map[], sources);
    } else {
      var n := |sources| - 1;
      var before, x := sources[..n], sources[n];
      ApartFromPrefix(fileName, sources, n);
      CandidatesTaken(fileName, before);
      var names := Targets(Place, map[], before);
      var c := SharingCount(fileName, before);
      var t := Place(CopyAll(Place, map[], before), x);
      DropLast(sources);
      CopyAllSnoc(Place, map[], before, x);
      assert Targets(Place, map[], sources) == names + [t];
      if Basename(x) == fileName {
        PlaceNext(fileName, before, c, x);
        HoldsNext(fileName, names, c);
      } else {
        assert NoClash(Basename(x), fileName);
        PlaceOther(fileName, CopyAll(Place, map[], before), x);
        HoldsOther(fileName, names, c, t);
      }
    }
  }

  /** A file with basename `fileName` is copied under `fileName` when it is
      the first such file, and under `fileName` numbered `_c` when `c` files
      with that basename were copied before it, whatever other files came in
      between, provided those never compete for the same names. */
  lemma BasenameNumbered(fileName: string, sources: seq<string>, i: nat)
    requires ApartFrom(fileName, sources)
    requires i < |sources| && Basename(sources[i]) == fileName
    ensures Targets(Place, map[], sources)[i] == Candidate(fileName, SharingCount(fileName, sources[..i]))
  {
    ApartFromPrefix(fileName, sources, i);
    CandidatesTaken(fileName, sources[..i]);
    TargetAt(Place, map[], sources, i);
    PlaceNext(fileName, sources[..i], SharingCount(fileName, sources[..i]), sources[i]);
  }

  /** Files that all share one basename get that name, then `_1`, `_2`, ...
      in the order they are copied. */
  lemma OnlySharedNumbered(fileName: string, sources: seq<string>, i: nat)
    requires forall j | 0 <= j < |sources| :: Basename(sources[j]) == fileName
    requires i < |sources|
    ensures Targets(Place, map[], sources)[i] == Candidate(fileName, i)
  {
    PrefixAllShare(fileName, sources, i);
    BasenameNumbered(fileName, sources, i);
  }

  lemma PrefixAllShare(fileName: string, sources: seq<string>, i: nat)
    requires forall j | 0 <= j < |sources| :: Basename(sources[j]) == fileName
    requires i <= |sources|
    ensures SharingCount(fileName, sources[..i]) == i
  {
    assert forall j | 0 <= j < i :: sources[..i][j] == sources[j];
  }

  // ---------------------------------------------------------------------------
  // When basenames never clash

  /** The number of times `c` occurs in `s`. */
  function Occurrences(s: string, c: char): (n: nat)
    ensures n == 0 <==> c !in s
  {
    if s == [] then 0 else (if s[0] == c then 1 else 0) + Occurrences(s[1..], c)
  }

  lemma {:induction false} OccurrencesAppend(a: string, b: string, c: char)
    ensures Occurrences(a + b, c) == Occurrences(a, c) + Occurrences(b, c)
  {
    if a == [] {
      assert a + b == b;
    } else {
      assert (a + b)[0] == a[0] && (a + b)[1..] == a[1..] + b;
      OccurrencesAppend(a[1..], b, c);
    }
  }

  /** Numbering adds exactly one `_` to the name. */
  lemma CandidateUnderscores(fileName: string, k: nat)
    ensures Occurrences(Candidate(fileName, k), '_') ==
      Occurrences(fileName, '_') + (if k > 0 then 1 else 0)
  {
    if k > 0 {
      var stem, digits, ext := Stem(fileName), Decimal(k), ExtName(fileName);
      OccurrencesAppend(stem, ext, '_');
      OccurrencesAppend(stem, "_", '_');
      OccurrencesAppend(stem + "_", digits, '_');
      OccurrencesAppend(stem + "_" + digits, ext, '_');
      assert '_' !in digits;
    }
  }

  /** In a run of digits followed by an extension, the digits end where the
      text ends or at a dot. */
  lemma DigitsEnd(d: string, e: string)
    requires forall i | 0 <= i < |d| :: '0' <= d[i] <= '9'
    requires e == "" || e[0] == '.'
    ensures forall i | 0 <= i < |d| :: '0' <= (d + e)[i] <= '9'
    ensures |d + e| == |d| || (d + e)[|d|] == '.'
  {
  }

  /** A run of digits followed by an extension splits in one way only. */
  lemma DigitsThenExtension(d1: string, e1: string, d2: string, e2: string)
    requires forall i | 0 <= i < |d1| :: '0' <= d1[i] <= '9'
    requires forall i | 0 <= i < |d2| :: '0' <= d2[i] <= '9'
    requires e1 == "" || e1[0] == '.'
    requires e2 == "" || e2[0] == '.'
    requires d1 + e1 == d2 + e2
    ensures e1 == e2
  {
    DigitsEnd(d1, e1);
    DigitsEnd(d2, e2);
    if |d1| != |d2| {
      assert false;
    }
    assert e1 == (d1 + e1)[|d1|..];
    assert e2 == (d2 + e2)[|d2|..];
  }

  /** Around a single `_`, a text splits in one way only. */
  lemma UnderscoreSplit(s1: string, r1: string, s2: string, r2: string)
    requires '_' !in s1 && '_' !in s2
    requires s1 + "_" + r1 == s2 + "_" + r2
    ensures s1 == s2 && r1 == r2
  {
    var w := s1 + "_" + r1;
    assert w[|s1|] == '_' && (s2 + "_" + r2)[|s2|] == '_';
    assert forall i | 0 <= i < |s1| :: w[i] == s1[i];
    assert forall i | 0 <= i < |s2| :: w[i] == s2[i];
    if |s1| != |s2| {
      assert false;
    }
    assert s1 == w[..|s1|] && s2 == w[..|s2|];
    assert r1 == w[|s1| + 1..] && r2 == w[|s2| + 1..];
  }

  /** A basename without `_` clashes with no other basename, except one that
      is itself one of its numbered names (`a_1.txt` for `a.txt`). */
  lemma NoClashUnlessNumbered(b: string, f: string)
    requires '_' !in f && b != f
    requires forall k: nat | k > 0 :: b != Candidate(f, k)
    ensures NoClash(b, f)
  {
    forall m: nat, k: nat ensures Candidate(b, m) != Candidate(f, k) {
      if Candidate(b, m) == Candidate(f, k) {
        CandidateUnderscores(b, m);
        CandidateUnderscores(f, k);
        if k == 0 || m == 0 {
          assert false;
        } else {
          NumberedStemsEqual(b, f, m, k);
          assert false;
        }
      }
    }
  }

  /** `stem_digits.ext` determines its stem and extension, when the name
      `stem.ext` holds no `_`. */
  lemma NumberedPartsEqual(sb: string, db: string, eb: string, sf: string, df: string, ef: string)
    requires '_' !in sb + eb && '_' !in sf + ef
    requires forall i | 0 <= i < |db| :: '0' <= db[i] <= '9'
    requires forall i | 0 <= i < |df| :: '0' <= df[i] <= '9'
    requires eb == "" || eb[0] == '.'
    requires ef == "" || ef[0] == '.'
    requires sb + "_" + db + eb == sf + "_" + df + ef
    ensures sb + eb == sf + ef
  {
    assert forall i | 0 <= i < |sb| :: sb[i] == (sb + eb)[i];
    assert forall i | 0 <= i < |sf| :: sf[i] == (sf + ef)[i];
    assert sb + "_" + db + eb == sb + "_" + (db + eb);
    assert sf + "_" + df + ef == sf + "_" + (df + ef);
    UnderscoreSplit(sb, db + eb, sf, df + ef);
    DigitsThenExtension(db, eb, df, ef);
  }

  /** Two numbered names whose bases hold no `_` agree only when the bases
      agree. */
  lemma NumberedStemsEqual(b: string, f: string, m: nat, k: nat)
    requires m > 0 && k > 0
    requires '_' !in b && '_' !in f
    requires Candidate(b, m) == Candidate(f, k)
    ensures b == f
  {
    assert Stem(b) + ExtName(b) == b && Stem(f) + ExtName(f) == f;
    NumberedPartsEqual(Stem(b), Decimal(m), ExtName(b), Stem(f), Decimal(k), ExtName(f));
  }

  /** Files sharing a basename without `_` (`a.txt`) are copied as `a.txt`,
      `a_1.txt`, `a_2.txt`, ... in enumeration order, whatever other files
      are copied in between, as long as no source is itself named like one
      of those numbered names. */
  lemma SharedBasenameNumbered(fileName: string, sources: seq<string>, i: nat)
    requires '_' !in fileName
    requires forall j, k: nat | 0 <= j < |sources| && k > 0 :: Basename(sources[j]) != Candidate(fileName, k)
    requires i < |sources| && Basename(sources[i]) == fileName
    ensures Targets(Place, map[], sources)[i] == Candidate(fileName, SharingCount(fileName, sources[..i]))
  {
    forall j | 0 <= j < |sources| && Basename(sources[j]) != fileName
      ensures NoClash(Basename(sources[j]), fileName)
    {
      NoClashUnlessNumbered(Basename(sources[j]), fileName);
    }
    BasenameNumbered(fileName, sources, i);
  }

  /** Three files named `a.txt` are copied as `a.txt`, `a_1.txt` and
      `a_2.txt`. */
  lemma ATxtCandidates()
    ensures Candidate("a.txt", 0) == "a.txt"
    ensures Candidate("a.txt", 1) == "a_1.txt"
    ensures Candidate("a.txt", 2) == "a_2.txt"
  {
    var t := "a.txt";
    assert t[1] == '.' && t[2] != '.' && t[3] != '.' && t[4] != '.';
    assert LastIndexOf(t, '.') == 1;
    assert Stem(t) == "a" && ExtName(t) == ".txt";
    assert Decimal(1) == "1" && Decimal(2) == "2";
  }

  /** The counter goes before the last extension only; a dot-file or a name
      without a dot takes it at the end. */
  lemma CandidateExamples()
    ensures Candidate("archive.tar.gz", 1) == "archive.tar_1.gz"
    ensures Candidate(".env", 1) == ".env_1"
    ensures Candidate("Makefile", 12) == "Makefile_12"
  {
    ExtNameExamples();
    ExtNameEdgeExamples();
    assert Stem("archive.tar.gz") == "archive.tar";
    assert Stem(".env") == ".env" && Stem("Makefile") == "Makefile";
    assert Decimal(1) == "1";
    assert Decimal(12) == Decimal(1) + ['2'];
  }

  // ---------------------------------------------------------------------------
  // The target directory

  class TargetDir {
    /** The names in the directory, each with the source copied there. */
    var entries: map<string, string>

    /** A target directory that already holds `existing`. */
    constructor (existing: map<string, string>)
      ensures entries == existing
    {
      entries := existing;
    }

    /** `fse.remove` when the target exists, then `fse.ensureDir`. */
    method Reset()
      modifies this
      ensures entries == map[]
    {
      entries := map[];
    }

    /** The collision loop: starting from `fileName`, try `base_1ext`,
        `base_2ext`, ... while the candidate exists. Returns the name and the
        final value of `counter`. */
    method ResolveName(fileName: string) returns (targetName: string, counter: nat)
      ensures targetName !in entries
      ensures targetName == Resolve(fileName, entries.Keys)
      ensures 1 <= counter <= |entries| + 1
      ensures targetName == Candidate(fileName, counter - 1)
      ensures forall j | 0 <= j < counter - 1 :: Candidate(fileName, j) in entries
    {
      targetName := fileName;
      counter := 1;
      while targetName in entries
        invariant 1 <= counter
        invariant targetName == Candidate(fileName, counter - 1)
        invariant forall j | 0 <= j < counter - 1 :: Candidate(fileName, j) in entries
        decreases |entries.Keys| + 1 - counter
      {
        CandidatesBound(fileName, entries.Keys, counter);
        var ext := ExtName(fileName);
        var baseName := Stem(fileName);
        targetName := baseName + "_" + Decimal(counter) + ext;
        counter := counter + 1;
      }
      CandidatesBound(fileName, entries.Keys, counter - 1);
      ResolveIs(fileName, entries.Keys, counter - 1);
    }

    /** consolidateFiles: reset the target, enumerate the source tree from
        its root and copy each file in order. Returns the enumerated files.
        The result depends on the tree and the options only, never on what
        the target held before. */
    method Consolidate(root: Node, cfg: Config) returns (copied: seq<string>)
      modifies this
      ensures copied == Walk("", root, cfg)
      ensures entries == CopyAll(Place, map[], copied)
    {
      Reset();
      copied := GetFiles("", root, cfg);
      var i := 0;
      while i < |copied|
        invariant 0 <= i <= |copied|
        invariant entries == CopyAll(Place, map[], copied[..i])
      {
        var sourcePath := copied[i];
        var fileName := Basename(sourcePath);
        var targetPath, _ := ResolveName(fileName);
        entries := entries[targetPath := sourcePath];
        TakeOneMore(copied, i);
        CopyAllSnoc(Place, map[], copied[..i], sourcePath);
        i := i + 1;
      }
      assert copied[..i] == copied;
    }
  }

  /** Running twice on the same tree, into a target in any prior state,
      leaves the same target both times. */
  method RunTwice(prior: map<string, string>, root: Node, cfg: Config)
    returns (first: map<string, string>, second: map<string, string>)
    ensures first == second
    ensures |first.Keys| == |Walk("", root, cfg)|
  {
    var target := new TargetDir(prior);
    var files := target.Consolidate(root, cfg);
    first := target.entries;
    files := target.Consolidate(root, cfg);
    second := target.entries;
    PlacePicksFresh();
    CopyAllSize(Place, files);
  }
}
