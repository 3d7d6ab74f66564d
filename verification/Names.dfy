/** String helpers that consolidateFiles borrows from JavaScript and Node's `path`
    module: ASCII lower-casing, `startsWith`, splitting a path on the separator,
    `path.join` of a directory and an entry name, `path.basename`,
    `path.extname`, `path.basename(name, ext)` and the decimal rendering of a
    counter inside a template string. Paths use the single separator '/'. */
module Names {

  const Sep: char := '/'

  // ---------------------------------------------------------------------------
  // Case folding and prefixes

  /** `toLowerCase` restricted to ASCII letters. */
  function LowerChar(c: char): (r: char)
    ensures 'A' <= c <= 'Z' ==> r as int == c as int + 32
    ensures !('A' <= c <= 'Z') ==> r == c
    ensures !('A' <= r <= 'Z')
  {
    if 'A' <= c <= 'Z' then (c as int + 32) as char else c
  }

  function Lower(s: string): (r: string)
    ensures |r| == |s|
    ensures forall i :: 0 <= i < |s| ==> r[i] == LowerChar(s[i])
  {
    if s == [] then [] else [LowerChar(s[0])] + Lower(s[1..])
  }

  /** Only the empty string lower-cases to the empty string. */
  lemma LowerEmpty(s: string)
    ensures Lower(s) == "" <==> s == ""
  {
    assert |Lower(s)| == |s|;
  }

  /** JavaScript `s.startsWith(prefix)`. */
  predicate StartsWith(s: string, prefix: string): (r: bool)
    ensures r <==> |prefix| <= |s| && s[..|prefix|] == prefix
  {
    prefix <= s
  }

  // ---------------------------------------------------------------------------
  // Splitting and joining paths

  /** `s.split(path.sep)`: the text between separators, in order; an empty
      string yields the single segment "". */
  function Split(s: string): (parts: seq<string>)
    ensures |parts| >= 1
    ensures forall i :: 0 <= i < |parts| ==> Sep !in parts[i]
  {
    if s == [] then [""]
    else if s[0] == Sep then [""] + Split(s[1..])
    else
      var rest := Split(s[1..]);
      [[s[0]] + rest[0]] + rest[1..]
  }

  /** The inverse of Split: the segments glued back with the separator. */
  function Unsplit(parts: seq<string>): string
    requires |parts| >= 1
  {
    if |parts| == 1 then parts[0] else parts[0] + [Sep] + Unsplit(parts[1..])
  }

  /** Splitting loses nothing: gluing the segments back gives the path. */
  lemma {:induction false} SplitRoundTrip(s: string)
    ensures Unsplit(Split(s)) == s
  {
    if s == [] {
    } else if s[0] == Sep {
      SplitRoundTrip(s[1..]);
      assert [Sep] + s[1..] == s;
    } else {
      SplitRoundTrip(s[1..]);
      var rest := Split(s[1..]);
      if |rest| == 1 {
        assert Unsplit(Split(s)) == [s[0]] + rest[0];
      } else {
        assert Unsplit(rest) == rest[0] + [Sep] + Unsplit(rest[1..]);
        assert Unsplit(Split(s)) == [s[0]] + rest[0] + [Sep] + Unsplit(rest[1..]);
      }
    }
  }

  /** The segments of `a/b` are those of `a` followed by those of `b`. */
  lemma {:induction false} SplitAppend(a: string, b: string)
    ensures Split(a + [Sep] + b) == Split(a) + Split(b)
  {
    if a == [] {
      assert a + [Sep] + b == [Sep] + b;
      assert ([Sep] + b)[1..] == b;
    } else {
      assert (a + [Sep] + b)[0] == a[0];
      assert (a + [Sep] + b)[1..] == a[1..] + [Sep] + b;
      SplitAppend(a[1..], b);
    }
  }

  /** A name without separators is a single segment. */
  lemma {:induction false} SplitName(name: string)
    requires Sep !in name
    ensures Split(name) == [name]
  {
    if name != [] {
      SplitName(name[1..]);
      assert [name[0]] + name[1..] == name;
    }
  }

  /** `path.relative(root, path.join(dir, name))` for a directory `dir` given
      relative to the root: the root itself is the empty path. */
  function Join(dir: string, name: string): (r: string)
    ensures dir == "" ==> Split(r) == Split(name)
    ensures dir != "" ==> Split(r) == Split(dir) + Split(name)
  {
    if dir == "" then name
    else
      SplitAppend(dir, name);
      dir + [Sep] + name
  }

  /** `path.basename(p)`: the last segment. */
  function Basename(p: string): (r: string)
    ensures Sep !in r
  {
    var parts := Split(p);
    parts[|parts| - 1]
  }

  /** The basename of an entry joined to its directory is the entry's name. */
  lemma BasenameJoin(dir: string, name: string)
    requires Sep !in name
    ensures Basename(Join(dir, name)) == name
  {
    SplitName(name);
  }

  // ---------------------------------------------------------------------------
  // Extensions

  /** Index of the last occurrence of `c` in `s`, or -1. */
  function LastIndexOf(s: string, c: char): (r: int)
    ensures -1 <= r < |s|
    ensures r >= 0 ==> s[r] == c
    ensures forall k :: r < k < |s| ==> s[k] != c
  {
    if s == [] then -1
    else if s[|s| - 1] == c then |s| - 1
    else LastIndexOf(s[..|s| - 1], c)
  }

  /** Node's `path.extname` applied to an entry name (no separator): the text
      from the last '.' to the end, or "" when there is no dot, when the only
      dot is the leading character, or for "..". */
  function ExtName(name: string): (ext: string)
    ensures |ext| <= |name| && ext == name[|name| - |ext|..]
    ensures ext != "" ==> ext[0] == '.' && '.' !in ext[1..] && |ext| < |name|
    ensures ext == "" <==> LastIndexOf(name, '.') <= 0 || name == ".."
  {
    var d := LastIndexOf(name, '.');
    if d <= 0 || name == ".." then "" else name[d..]
  }

  /** `path.basename(name, path.extname(name))`: the name without its extension. */
  function Stem(name: string): (r: string)
    ensures r + ExtName(name) == name
  {
    name[..|name| - |ExtName(name)|]
  }

  /** The extension is the text from the last dot. */
  lemma ExtNameExamples()
    ensures ExtName("app.ts") == ".ts"
    ensures ExtName("archive.tar.gz") == ".gz"
    ensures ExtName("..env") == ".env"
  {
    var a, t, e := "app.ts", "archive.tar.gz", "..env";
    assert a[3] == '.' && a[4] != '.' && a[5] != '.';
    assert LastIndexOf(a, '.') == 3;
    assert t[11] == '.' && t[12] != '.' && t[13] != '.';
    assert LastIndexOf(t, '.') == 11;
    assert e[1] == '.' && e[2] != '.' && e[3] != '.' && e[4] != '.';
    assert LastIndexOf(e, '.') == 1;
  }

  /** No dot, a leading dot only, or a trailing dot. */
  lemma ExtNameEdgeExamples()
    ensures ExtName("Makefile") == ""
    ensures ExtName(".env") == ""
    ensures ExtName("a.") == "."
  {
    var m, e, a := "Makefile", ".env", "a.";
    assert forall k | 0 <= k < |m| :: m[k] != '.';
    assert LastIndexOf(m, '.') == -1;
    assert e[0] == '.' && e[1] != '.' && e[2] != '.' && e[3] != '.';
    assert LastIndexOf(e, '.') == 0;
    assert a[1] == '.';
    assert LastIndexOf(a, '.') == 1;
  }

  // ---------------------------------------------------------------------------
  // Decimal numerals

  function DigitChar(d: nat): (c: char)
    requires d < 10
    ensures '0' <= c <= '9'
  {
    ('0' as int + d) as char
  }

  /** `${n}` in a template string. */
  function Decimal(n: nat): (s: string)
    ensures |s| >= 1
    ensures forall i :: 0 <= i < |s| ==> '0' <= s[i] <= '9'
    ensures |s| == 1 <==> n < 10
    ensures |s| == 1 || s[0] != '0'
  {
    if n < 10 then [DigitChar(n)] else Decimal(n / 10) + [DigitChar(n % 10)]
  }

  /** Reading a string of digits back as a number. */
  function ParseDecimal(s: string): nat
    requires forall i :: 0 <= i < |s| ==> '0' <= s[i] <= '9'
  {
    if s == [] then 0
    else ParseDecimal(s[..|s| - 1]) * 10 + (s[|s| - 1] as int - '0' as int)
  }

  lemma {:induction false} DecimalRoundTrip(n: nat)
    ensures ParseDecimal(Decimal(n)) == n
  {
    if n >= 10 {
      DecimalRoundTrip(n / 10);
      var s := Decimal(n);
      assert s[..|s| - 1] == Decimal(n / 10);
    }
  }

  /** Different counters render as different numerals. */
  lemma DecimalInjective(m: nat, n: nat)
    requires Decimal(m) == Decimal(n)
    ensures m == n
  {
    DecimalRoundTrip(m);
    DecimalRoundTrip(n);
  }
}
