/** The file-inclusion test inside `getFiles`: `excludeFiles` patterns and
    the `includeExtensions` list.

    A pattern without '*' must equal the entry name. A pattern with '*' has
    its first '*' replaced by ".*" and is compiled to a regular expression
    that is searched for anywhere in the name. The expressions are modelled
    on a fragment of JavaScript's: '.' stands for any character (JavaScript
    also refuses line terminators there, and counts UTF-16 code units; neither
    is modelled), a '*' repeats the atom before it, every other character
    stands for itself, and a '*' with nothing to repeat makes `new RegExp`
    throw. */
module Patterns {
  import opened Names
  import opened Settings

  // ---------------------------------------------------------------------------
  // The regular-expression fragment

  datatype CharClass = AnyChar | Literal(c: char)

  /** One atom, possibly repeated zero or more times (`x*`). */
  datatype Atom = Atom(cls: CharClass, repeated: bool)

  /** `.` is taken to match every character, line terminators included. */
  predicate ClassMatches(cls: CharClass, c: char)
  {
    cls.AnyChar? || cls.c == c
  }

  function AtomOf(c: char): Atom
  {
    Atom(if c == '.' then AnyChar else Literal(c), false)
  }

  /** `pattern.replace('*', '.*')`: only the first '*' is replaced. */
  function ReplaceFirstStar(p: string): (r: string)
    ensures '*' !in p ==> r == p
    ensures '*' in p ==> |r| == |p| + 1
    ensures p != [] ==> r[0] == (if p[0] == '*' then '.' else p[0])
  {
    if p == [] then []
    else if p[0] == '*' then ".*" + p[1..]
    else [p[0]] + ReplaceFirstStar(p[1..])
  }

  /** Only the first '*' changes, and everything after it is kept as is. */
  lemma {:induction false} ReplaceFirstStarAt(pre: string, post: string)
    requires '*' !in pre
    ensures ReplaceFirstStar(pre + "*" + post) == pre + ".*" + post
  {
    if pre != [] {
      assert (pre + "*" + post)[1..] == pre[1..] + "*" + post;
      ReplaceFirstStarAt(pre[1..], post);
    }
  }

  /** A '*' can be compiled only when it has an atom before it that is not
      itself repeated. */
  predicate EveryStarRepeatsAnAtom(r: string)
  {
    forall i | 0 <= i < |r| && r[i] == '*' :: i > 0 && r[i - 1] != '*'
  }

  /** Two '*' side by side somewhere in the pattern. */
  predicate AdjacentStars(p: string)
  {
    exists i | 0 <= i < |p| - 1 :: p[i] == '*' && p[i + 1] == '*'
  }

  /** After the first '*' becomes ".*", some '*' lacks an atom to repeat
      exactly when the pattern had two '*' side by side. */
  lemma {:induction false} StarsStayAdjacent(p: string)
    ensures EveryStarRepeatsAnAtom(ReplaceFirstStar(p)) <==> !AdjacentStars(p)
  {
    var r := ReplaceFirstStar(p);
    if p == [] {
    } else if p[0] == '*' {
      assert forall i | 1 <= i < |r| :: r[i] == p[i - 1];
      if AdjacentStars(p) {
        var i :| 0 <= i < |p| - 1 && p[i] == '*' && p[i + 1] == '*';
        assert r[i + 2] == '*' && r[i + 1] == '*';
      }
    } else {
      var q := p[1..];
      StarsStayAdjacent(q);
      assert forall i | 1 <= i < |r| :: r[i] == ReplaceFirstStar(q)[i - 1];
      assert forall i | 1 <= i < |p| :: p[i] == q[i - 1];
      if AdjacentStars(q) {
        var i :| 0 <= i < |q| - 1 && q[i] == '*' && q[i + 1] == '*';
        assert p[i + 1] == '*' && p[i + 2] == '*';
      }
      if !EveryStarRepeatsAnAtom(ReplaceFirstStar(q)) {
        var i :| 0 <= i < |ReplaceFirstStar(q)| && ReplaceFirstStar(q)[i] == '*' &&
          !(i > 0 && ReplaceFirstStar(q)[i - 1] != '*');
        assert r[i + 1] == '*' && r[i] == '*';
      }
    }
  }

  /** `new RegExp(r)` on the fragment: None when the constructor throws
      ("nothing to repeat"). */
  function Compile(r: string): (res: Option<seq<Atom>>)
    ensures res.Some? <==> EveryStarRepeatsAnAtom(r)
  {
    if r == [] then Some([])
    else if r[0] == '*' then None
    else if |r| >= 2 && r[1] == '*' then
      match Compile(r[2..])
      case None => None
      case Some(rest) => Some([AtomOf(r[0]).(repeated := true)] + rest)
    else
      match Compile(r[1..])
      case None => None
      case Some(rest) => Some([AtomOf(r[0])] + rest)
  }

  /** The atoms of a text without '*': one plain atom per character. */
  function Lits(s: string): (atoms: seq<Atom>)
    ensures |atoms| == |s|
    ensures forall k :: 0 <= k < |s| ==> atoms[k] == AtomOf(s[k])
  {
    if s == [] then [] else [AtomOf(s[0])] + Lits(s[1..])
  }

  /** The atom that the replaced '*' becomes. */
  const AnyRun: Atom := Atom(AnyChar, true)

  /** What a single-'*' pattern compiles to, once the '*' became ".*". */
  lemma {:induction false} CompileSingleStar(pre: string, post: string)
    requires '*' !in pre && '*' !in post
    ensures Compile(pre + ".*" + post) == Some(Lits(pre) + [AnyRun] + Lits(post))
  {
    if pre == [] {
      assert pre + ".*" + post == ".*" + post;
      assert Lits(pre) + [AnyRun] + Lits(post) == [AnyRun] + Lits(post);
      CompileAnyRun(post);
    } else {
      var r := pre + ".*" + post;
      assert r[0] == pre[0];
      assert r[1] == if |pre| >= 2 then pre[1] else '.';
      assert r[1..] == pre[1..] + ".*" + post;
      CompileSingleStar(pre[1..], post);
      assert Lits(pre) == [AtomOf(pre[0])] + Lits(pre[1..]);
      assert Lits(pre) + [AnyRun] + Lits(post) ==
        [AtomOf(pre[0])] + (Lits(pre[1..]) + [AnyRun] + Lits(post));
    }
  }

  lemma CompileAnyRun(post: string)
    requires '*' !in post
    ensures Compile(".*" + post) == Some([AnyRun] + Lits(post))
  {
    var r := ".*" + post;
    assert r[0] == '.' && r[1] == '*' && r[2..] == post;
    CompileLits(post);
    assert AtomOf('.').(repeated := true) == AnyRun;
  }

  lemma {:induction false} CompileLits(s: string)
    requires '*' !in s
    ensures Compile(s) == Some(Lits(s))
  {
    if s != [] {
      CompileLits(s[1..]);
    }
  }

  // ---------------------------------------------------------------------------
  // Matching

  /** The atoms match some prefix of `s` (backtracking over repetitions). */
  function MatchesPrefix(atoms: seq<Atom>, s: string): (r: bool)
    ensures s == [] ==> (r <==> forall k | 0 <= k < |atoms| :: atoms[k].repeated)
    decreases |atoms| + |s|
  {
    if atoms == [] then true
    else
      assert forall k | 1 <= k < |atoms| :: atoms[k] == atoms[1..][k - 1];
      if atoms[0].repeated then
        MatchesPrefix(atoms[1..], s) ||
        (s != [] && ClassMatches(atoms[0].cls, s[0]) && MatchesPrefix(atoms, s[1..]))
      else
        s != [] && ClassMatches(atoms[0].cls, s[0]) && MatchesPrefix(atoms[1..], s[1..])
  }

  /** `regex.test(s)` without anchors: a match may start at any position. */
  function Search(atoms: seq<Atom>, s: string): (found: bool)
    ensures found <==> exists i | 0 <= i <= |s| :: MatchesPrefix(atoms, s[i..])
  {
    if MatchesPrefix(atoms, s) then
      assert s[0..] == s;
      true
    else if s == [] then false
    else
      var found := Search(atoms, s[1..]);
      assert forall i | 1 <= i <= |s| :: s[i..] == s[1..][i - 1..];
      if found then
        var i :| 0 <= i <= |s[1..]| && MatchesPrefix(atoms, s[1..][i..]);
        assert s[1..][i..] == s[i + 1..];
        true
      else false
  }

  /** `p` read as a regex without '*' (dots match anything) occurs in `s` at `i`. */
  predicate OccursAt(p: string, s: string, i: int)
  {
    0 <= i && i + |p| <= |s| &&
    forall k | 0 <= k < |p| :: p[k] == '.' || p[k] == s[i + k]
  }

  /** The meaning of `pre*post` once compiled: `pre` occurs somewhere and
      `post` occurs later, not overlapping it. */
  predicate StarMatch(pre: string, post: string, s: string)
  {
    exists i, j | 0 <= i && i + |pre| <= j && j + |post| <= |s| ::
      OccursAt(pre, s, i) && OccursAt(post, s, j)
  }

  lemma {:induction false} LitsPrefix(p: string, rest: seq<Atom>, t: string)
    ensures MatchesPrefix(Lits(p) + rest, t) <==>
      OccursAt(p, t, 0) && MatchesPrefix(rest, t[|p|..])
  {
    if p == [] {
      assert Lits(p) + rest == rest;
      assert t[0..] == t;
    } else {
      var atoms := Lits(p) + rest;
      assert atoms[0] == AtomOf(p[0]) && !atoms[0].repeated;
      assert atoms[1..] == Lits(p[1..]) + rest;
      if t != [] {
        LitsPrefix(p[1..], rest, t[1..]);
        OccursCons(p, t);
        assert ClassMatches(atoms[0].cls, t[0]) <==> p[0] == '.' || p[0] == t[0];
        if |p| <= |t| {
          assert t[1..][|p| - 1..] == t[|p|..];
        }
      }
    }
  }

  lemma OccursCons(p: string, t: string)
    requires p != [] && t != []
    ensures OccursAt(p, t, 0) <==> (p[0] == '.' || p[0] == t[0]) && OccursAt(p[1..], t[1..], 0)
  {
    if (p[0] == '.' || p[0] == t[0]) && OccursAt(p[1..], t[1..], 0) {
      forall k | 0 <= k < |p| ensures p[k] == '.' || p[k] == t[k] {
        if k > 0 { assert p[1..][k - 1] == p[k] && t[1..][k - 1] == t[k]; }
      }
    }
    if OccursAt(p, t, 0) {
      forall k | 0 <= k < |p| - 1 ensures p[1..][k] == '.' || p[1..][k] == t[1..][k] {
        assert p[1..][k] == p[k + 1];
      }
    }
  }

  lemma {:induction false} AnyRunPrefix(rest: seq<Atom>, t: string)
    ensures MatchesPrefix([AnyRun] + rest, t) <==>
      exists k | 0 <= k <= |t| :: MatchesPrefix(rest, t[k..])
  {
    var atoms := [AnyRun] + rest;
    assert atoms[1..] == rest;
    if t == [] {
      assert t[0..] == t;
    } else {
      AnyRunPrefix(rest, t[1..]);
      assert forall k | 1 <= k <= |t| :: t[k..] == t[1..][k - 1..];
      assert t[0..] == t;
      if MatchesPrefix(atoms, t[1..]) {
        var k :| 0 <= k <= |t[1..]| && MatchesPrefix(rest, t[1..][k..]);
        assert MatchesPrefix(rest, t[k + 1..]);
      }
    }
  }

  lemma OccursShift(p: string, s: string, m: int)
    requires 0 <= m <= |s|
    ensures OccursAt(p, s[m..], 0) <==> OccursAt(p, s, m)
  {
    if OccursAt(p, s, m) {
      assert forall k | 0 <= k < |p| :: s[m..][k] == s[m + k];
    }
  }

  /** The literal atoms of `p` match at position `j` of `t` exactly when
      `p` occurs there. */
  lemma LitsMatchAt(p: string, t: string, j: int)
    requires 0 <= j <= |t|
    ensures MatchesPrefix(Lits(p), t[j..]) <==> OccursAt(p, t, j)
  {
    LitsPrefix(p, [], t[j..]);
    assert Lits(p) + [] == Lits(p);
    OccursShift(p, t, j);
  }

  /** Where the compiled atoms of `pre*post` match a prefix of `t`, `pre`
      starts `t` and `post` occurs after it. */
  lemma SingleStarPrefixSound(pre: string, post: string, t: string)
    requires MatchesPrefix(Lits(pre) + [AnyRun] + Lits(post), t)
    ensures OccursAt(pre, t, 0)
    ensures exists j | |pre| <= j :: OccursAt(post, t, j)
  {
    var tail := [AnyRun] + Lits(post);
    assert Lits(pre) + [AnyRun] + Lits(post) == Lits(pre) + tail;
    LitsPrefix(pre, tail, t);
    var u := t[|pre|..];
    AnyRunPrefix(Lits(post), u);
    var k :| 0 <= k <= |u| && MatchesPrefix(Lits(post), u[k..]);
    assert u[k..] == t[|pre| + k..];
    LitsMatchAt(post, t, |pre| + k);
  }

  /** Where `pre` starts `t` and `post` occurs at `j` after it, the compiled
      atoms of `pre*post` match a prefix of `t`. */
  lemma SingleStarPrefixComplete(pre: string, post: string, t: string, j: int)
    requires OccursAt(pre, t, 0) && |pre| <= j && OccursAt(post, t, j)
    ensures MatchesPrefix(Lits(pre) + [AnyRun] + Lits(post), t)
  {
    var tail := [AnyRun] + Lits(post);
    assert Lits(pre) + [AnyRun] + Lits(post) == Lits(pre) + tail;
    LitsPrefix(pre, tail, t);
    var u := t[|pre|..];
    LitsMatchAt(post, t, j);
    var k := j - |pre|;
    assert u[k..] == t[j..];
    assert MatchesPrefix(Lits(post), u[k..]);
    AnyRunPrefix(Lits(post), u);
    assert MatchesPrefix(tail, u);
  }

  // ---------------------------------------------------------------------------
  // Patterns

  /** One `excludeFiles` pattern against an entry name: Some(true) when it
      rejects the name, None when building its regex throws, which happens
      exactly for the patterns with two '*' side by side. */
  function PatternRejects(pattern: string, name: string): (r: Option<bool>)
    ensures r.None? <==> AdjacentStars(pattern)
  {
    StarsStayAdjacent(pattern);
    if '*' in pattern then
      match Compile(ReplaceFirstStar(pattern))
      case None => None
      case Some(atoms) => Some(Search(atoms, name))
    else Some(name == pattern)
  }

  /** A pattern without '*' rejects exactly the name equal to it. */
  lemma LiteralPatternRejects(pattern: string, name: string)
    requires '*' !in pattern
    ensures PatternRejects(pattern, name) == Some(name == pattern)
  {
  }

  /** A search for the atoms of `pre*post` that succeeds finds `pre` with
      `post` further on. */
  lemma StarSearchSound(pre: string, post: string, name: string)
    requires Search(Lits(pre) + [AnyRun] + Lits(post), name)
    ensures StarMatch(pre, post, name)
  {
    var atoms := Lits(pre) + [AnyRun] + Lits(post);
    var i :| 0 <= i <= |name| && MatchesPrefix(atoms, name[i..]);
    SingleStarPrefixSound(pre, post, name[i..]);
    var j :| |pre| <= j && OccursAt(post, name[i..], j);
    OccursShift(pre, name, i);
    assert name[i..][j..] == name[i + j..];
    OccursShift(post, name[i..], j);
    OccursShift(post, name, i + j);
    assert OccursAt(pre, name, i) && OccursAt(post, name, i + j);
  }

  /** Where `pre` occurs with `post` further on, the search for the atoms of
      `pre*post` succeeds. */
  lemma StarSearchComplete(pre: string, post: string, name: string)
    requires StarMatch(pre, post, name)
    ensures Search(Lits(pre) + [AnyRun] + Lits(post), name)
  {
    var i, j :| 0 <= i && i + |pre| <= j && j + |post| <= |name| &&
      OccursAt(pre, name, i) && OccursAt(post, name, j);
    OccursShift(pre, name, i);
    assert name[i..][j - i..] == name[j..];
    OccursShift(post, name[i..], j - i);
    OccursShift(post, name, j);
    SingleStarPrefixComplete(pre, post, name[i..], j - i);
  }

  /** A pattern with one '*' never throws, and rejects a name exactly when the
      text before the '*' occurs in it with the text after the '*' somewhere
      further on; the match is not anchored at either end. */
  lemma SingleStarPatternRejects(pre: string, post: string, name: string)
    requires '*' !in pre && '*' !in post
    ensures PatternRejects(pre + "*" + post, name) == Some(StarMatch(pre, post, name))
  {
    var pattern := pre + "*" + post;
    assert pattern[|pre|] == '*';
    ReplaceFirstStarAt(pre, post);
    CompileSingleStar(pre, post);
    if Search(Lits(pre) + [AnyRun] + Lits(post), name) {
      StarSearchSound(pre, post, name);
    }
    if StarMatch(pre, post, name) {
      StarSearchComplete(pre, post, name);
    }
  }

  /** `*.log` rejects `error.log`. */
  lemma StarLogRejectsLog()
    ensures PatternRejects("*.log", "error.log") == Some(true)
  {
    assert "*.log" == "" + "*" + ".log";
    SingleStarPatternRejects("", ".log", "error.log");
    assert OccursAt("", "error.log", 0) && OccursAt(".log", "error.log", 5);
  }

  /** Being unanchored, `*.log` also rejects `error.log.txt`. */
  lemma StarLogRejectsLogTxt()
    ensures PatternRejects("*.log", "error.log.txt") == Some(true)
  {
    assert "*.log" == "" + "*" + ".log";
    SingleStarPatternRejects("", ".log", "error.log.txt");
    assert OccursAt("", "error.log.txt", 0) && OccursAt(".log", "error.log.txt", 5);
  }

  /** Reading '.' as any character, `*.log` also rejects `catalog`. */
  lemma StarLogRejectsCatalog()
    ensures PatternRejects("*.log", "catalog") == Some(true)
  {
    assert "*.log" == "" + "*" + ".log";
    SingleStarPatternRejects("", ".log", "catalog");
    assert OccursAt("", "catalog", 0) && OccursAt(".log", "catalog", 3);
  }

  /** `*.log` lets through every name without an `l`. */
  lemma StarLogKeepsNamesWithoutL(name: string)
    requires 'l' !in name
    ensures PatternRejects("*.log", name) == Some(false)
  {
    assert "*.log" == "" + "*" + ".log";
    SingleStarPatternRejects("", ".log", name);
    forall j | 0 <= j && j + 4 <= |name| ensures !OccursAt(".log", name, j) {
      assert ".log"[1] == 'l' && name[j + 1] != 'l';
    }
  }

  lemma StarLogKeepsTxt()
    ensures PatternRejects("*.log", "error.txt") == Some(false)
  {
    StarLogKeepsNamesWithoutL("error.txt");
  }

  lemma DotEnvExamples()
    ensures PatternRejects(".env", ".env") == Some(true)
    ensures PatternRejects(".env", "x.env") == Some(false)
  {
  }

  /** `excludeFiles.some(...)`: the patterns are tried in order and the first
      that rejects, or that throws, ends the search. */
  function AnyPatternRejects(patterns: seq<string>, name: string): (r: Option<bool>)
    ensures r == Some(false) <==>
      forall i | 0 <= i < |patterns| :: PatternRejects(patterns[i], name) == Some(false)
    ensures r == Some(true) <==>
      exists i | 0 <= i < |patterns| :: PatternRejects(patterns[i], name) == Some(true) &&
        forall k | 0 <= k < i :: PatternRejects(patterns[k], name) == Some(false)
    ensures r == None <==>
      exists i | 0 <= i < |patterns| :: PatternRejects(patterns[i], name) == None &&
        forall k | 0 <= k < i :: PatternRejects(patterns[k], name) == Some(false)
  {
    var verdicts := seq(|patterns|, i requires 0 <= i < |patterns| => PatternRejects(patterns[i], name));
    assert forall i | 0 <= i < |patterns| :: verdicts[i] == PatternRejects(patterns[i], name);
    FirstVerdict(verdicts, 0)
  }

  /** The outcome of `some` over the verdicts from index `from` on: the first
      that is not Some(false) decides. */
  function FirstVerdict(verdicts: seq<Option<bool>>, from: nat): (r: Option<bool>)
    requires from <= |verdicts|
    ensures r == Some(false) <==> forall i | from <= i < |verdicts| :: verdicts[i] == Some(false)
    ensures r == Some(true) <==>
      exists i | from <= i < |verdicts| :: verdicts[i] == Some(true) &&
        forall k | from <= k < i :: verdicts[k] == Some(false)
    ensures r == None <==>
      exists i | from <= i < |verdicts| :: verdicts[i] == None &&
        forall k | from <= k < i :: verdicts[k] == Some(false)
    decreases |verdicts| - from
  {
    if from == |verdicts| then Some(false)
    else
      match verdicts[from]
      case None => None
      case Some(true) => Some(true)
      case Some(false) => FirstVerdict(verdicts, from + 1)
  }

  /** `!includeExtensions || includeExtensions.includes(path.extname(name))`. */
  predicate ExtensionAllowed(name: string, includeExtensions: Option<seq<string>>): (r: bool)
    ensures r && includeExtensions.Some? ==>
      exists k | 0 <= k <= |name| :: name[k..] in includeExtensions.value
    ensures r && includeExtensions.Some? && "" !in includeExtensions.value ==> '.' in name
  {
    var ext := ExtName(name);
    assert ext == name[|name| - |ext|..];
    assert ext != "" ==> name[|name| - |ext|] == '.';
    includeExtensions.None? || ext in includeExtensions.value
  }

  /** The whole test on a file entry: Some(true) to copy it, Some(false) to
      skip it, None when a pattern's regex throws. */
  function ShouldCopy(name: string, cfg: Config): (r: Option<bool>)
    ensures r == Some(true) <==>
      ExtensionAllowed(name, cfg.includeExtensions) &&
      forall i | 0 <= i < |cfg.excludeFiles| :: PatternRejects(cfg.excludeFiles[i], name) == Some(false)
    ensures r.None? ==> exists i | 0 <= i < |cfg.excludeFiles| :: AdjacentStars(cfg.excludeFiles[i])
  {
    match AnyPatternRejects(cfg.excludeFiles, name)
    case None => None
    case Some(rejected) => Some(!rejected && ExtensionAllowed(name, cfg.includeExtensions))
  }

  /** Without an extension list every name that no pattern rejects is kept. */
  lemma NoExtensionListKeepsUnrejected(name: string, cfg: Config)
    requires cfg.includeExtensions.None?
    requires forall i | 0 <= i < |cfg.excludeFiles| :: PatternRejects(cfg.excludeFiles[i], name) == Some(false)
    ensures ShouldCopy(name, cfg) == Some(true)
  {
  }

  /** An empty extension list is truthy and keeps no file at all. */
  lemma EmptyExtensionListKeepsNothing(name: string, cfg: Config)
    requires cfg.includeExtensions == Some([])
    ensures ShouldCopy(name, cfg) != Some(true)
  {
  }

  /** With `includeExtensions = ['.ts']`, `app.ts` is copied and `readme.md`
      and `Makefile` are not. */
  lemma TsOnlyExamples()
    ensures ShouldCopy("app.ts", Config([], [], Some([".ts"]))) == Some(true)
    ensures ShouldCopy("readme.md", Config([], [], Some([".ts"]))) == Some(false)
    ensures ShouldCopy("Makefile", Config([], [], Some([".ts"]))) == Some(false)
  {
    ExtNameExamples();
    ExtNameEdgeExamples();
    var r := "readme.md";
    assert r[6] == '.' && r[7] != '.' && r[8] != '.';
    assert LastIndexOf(r, '.') == 6;
  }

  /** A call that leaves every option unset copies every file it lists. */
  lemma DefaultConfigCopiesEveryFile(name: string)
    ensures ShouldCopy(name, DefaultConfig) == Some(true)
  {
  }

  /** Under the command line's default patterns no regex throws, so the file
      test always decides. */
  lemma CliPatternsNeverThrow(name: string)
    ensures ShouldCopy(name, CliConfig).Some?
  {
    assert CliExcludeFiles[0] == "" + "*" + ".log";
    SingleStarPatternRejects("", ".log", name);
    LiteralPatternRejects(".env", name);
    assert CliExcludeFiles[2] == "" + "*" + ".tmp";
    SingleStarPatternRejects("", ".tmp", name);
  }

  /** Under the command line's defaults `.env` is skipped. */
  lemma CliSkipsDotEnv()
    ensures ShouldCopy(".env", CliConfig) == Some(false)
  {
    StarLogKeepsNamesWithoutL(".env");
    LiteralPatternRejects(".env", ".env");
    var patterns := CliConfig.excludeFiles;
    assert PatternRejects(patterns[0], ".env") == Some(false);
    assert PatternRejects(patterns[1], ".env") == Some(true);
  }

  /** Under the command line's defaults every `.tmp` file is skipped: `*.log`
      either rejects it first or keeps it, and then `*.tmp` rejects it. */
  lemma CliSkipsTmp(stem: string)
    ensures ShouldCopy(stem + ".tmp", CliConfig) == Some(false)
  {
    var name := stem + ".tmp";
    var patterns := CliConfig.excludeFiles;
    assert patterns[0] == "" + "*" + ".log" && patterns[2] == "" + "*" + ".tmp";
    SingleStarPatternRejects("", ".log", name);
    SingleStarPatternRejects("", ".tmp", name);
    assert OccursAt("", name, 0) && OccursAt(".tmp", name, |stem|);
    assert PatternRejects(patterns[2], name) == Some(true);
    if PatternRejects(patterns[0], name) == Some(false) {
      LiteralPatternRejects(".env", name);
      assert name[|stem| + 1] == 't';
      assert PatternRejects(patterns[1], name) == Some(false);
    }
  }
}
