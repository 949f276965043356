/**
  The guard rails of `SecurityValidator`: the three validators that return
  a verdict (query, file path, file content), input sanitising and the
  per-user sliding-window rate limiter.

  Regular expressions are not interpreted: a validator receives
  `search(pattern, text)`, which stands for `re.search(pattern, text,
  re.IGNORECASE)` finding a match, and what is proved is the order in which
  the patterns are tried, where the scan stops and what it reports.
*/
module Security {
  import opened Wrappers
  import Text
  import Config

  /** `a` is `b` with some elements left out, the rest kept in order. */
  predicate Subsequence<T(==)>(a: seq<T>, b: seq<T>)
    decreases |b|
  {
    if a == [] then true
    else if b == [] then false
    else (a[0] == b[0] && Subsequence(a[1..], b[1..])) || Subsequence(a, b[1..])
  }

  // ---------------------------------------------------------------------
  // Pattern scans
  // ---------------------------------------------------------------------

  /** Some pattern of the list matches `text`. */
  predicate AnyMatch(search: (string, string) -> bool, patterns: seq<string>, text: string) {
    exists k :: 0 <= k < |patterns| && search(patterns[k], text)
  }

  /** The loop `for pattern in patterns: if search(pattern, text): return …`
      started at index `i`: the index of the first pattern that matches. */
  function FirstMatch(search: (string, string) -> bool, patterns: seq<string>, text: string, i: nat): (r: Option<nat>)
    requires i <= |patterns|
    ensures r.Some? ==> i <= r.value < |patterns| && search(patterns[r.value], text)
    ensures r.Some? ==> forall k :: i <= k < r.value ==> !search(patterns[k], text)
    ensures r.None? <==> forall k :: i <= k < |patterns| ==> !search(patterns[k], text)
    decreases |patterns| - i
  {
    if i == |patterns| then None
    else if search(patterns[i], text) then Some(i)
    else FirstMatch(search, patterns, text, i + 1)
  }

  // ---------------------------------------------------------------------
  // validate_query
  // ---------------------------------------------------------------------

  /** The `harmful_patterns` of the validator, in the order they are tried. */
  const HarmfulPatterns: seq<string> := [
    @"\b(exec|eval|compile|__import__)\s*\(",
    @"\b(os|subprocess|sys)\s*\.",
    @"\b(open|file|read|write)\s*\(",
    @"\b(delete|remove|rm|del)\s+",
    @"\b(system|popen|call)\s*\(",
    @"\b(import\s+os|import\s+sys|import\s+subprocess)",
    @"\b(while\s+True|for\s+.*\s+in\s+.*:)"]

  const MaxQueryLength: nat := 1000

  const SuspiciousKeywordList: seq<string> := [
    "password", "secret", "key", "token", "credential",
    "admin", "root", "sudo", "privilege", "elevate"]

  /** The outcome of `validate_query`; `is_safe` holds for `QuerySafe` only. */
  datatype QueryVerdict =
    | HarmfulPattern(pattern: string)
    | TooLong(length: nat)
    | SuspiciousKeywords(keywords: seq<string>)
    | QuerySafe

  /** `[kw for kw in kws if kw in lowered]`. */
  function FoundKeywords(lowered: string, kws: seq<string>): (found: seq<string>)
    ensures forall w :: w in found <==> w in kws && Text.Contains(lowered, w)
    ensures Subsequence(found, kws)
  {
    if kws == [] then []
    else if Text.Contains(lowered, kws[0]) then [kws[0]] + FoundKeywords(lowered, kws[1..])
    else FoundKeywords(lowered, kws[1..])
  }

  /** `SecurityValidator.validate_query`: harmful patterns first, then the
      length ceiling, then the case-insensitive keyword test. */
  function ValidateQuery(search: (string, string) -> bool, query: string): (v: QueryVerdict)
    ensures v.HarmfulPattern? <==> AnyMatch(search, HarmfulPatterns, query)
    ensures v.HarmfulPattern? ==>
      exists k :: 0 <= k < |HarmfulPatterns| && v.pattern == HarmfulPatterns[k] && search(HarmfulPatterns[k], query)
        && forall j :: 0 <= j < k ==> !search(HarmfulPatterns[j], query)
    ensures v.TooLong? <==> !AnyMatch(search, HarmfulPatterns, query) && |query| > MaxQueryLength
    ensures v.TooLong? ==> v.length == |query|
    ensures v.SuspiciousKeywords? ==>
      !AnyMatch(search, HarmfulPatterns, query) && |query| <= MaxQueryLength && v.keywords != []
        && Subsequence(v.keywords, SuspiciousKeywordList)
        && forall w :: w in v.keywords <==> w in SuspiciousKeywordList && Text.Contains(Text.Lower(query), w)
    ensures v.QuerySafe? <==>
      !AnyMatch(search, HarmfulPatterns, query) && |query| <= MaxQueryLength
        && forall w :: w in SuspiciousKeywordList ==> !Text.Contains(Text.Lower(query), w)
  {
    match FirstMatch(search, HarmfulPatterns, query, 0)
    case Some(i) => HarmfulPattern(HarmfulPatterns[i])
    case None =>
      if |query| > MaxQueryLength then TooLong(|query|)
      else
        var found := FoundKeywords(Text.Lower(query), SuspiciousKeywordList);
        assert found != [] ==> found[0] in found;
        if found != [] then SuspiciousKeywords(found) else QuerySafe
  }

  /** Lower-casing makes the keyword test blind to case: an upper-case
      "PASSWORD" in an otherwise clean query is reported as "password". */
  lemma UpperCaseKeywordReported(search: (string, string) -> bool, query: string)
    requires Text.Contains(query, "PASSWORD")
    requires !AnyMatch(search, HarmfulPatterns, query) && |query| <= MaxQueryLength
    ensures ValidateQuery(search, query).SuspiciousKeywords?
    ensures "password" in ValidateQuery(search, query).keywords
  {
    var i :| 0 <= i <= |query| - 8 && Text.OccursAt(query, "PASSWORD", i);
    var low := Text.Lower(query);
    forall k | 0 <= k < 8
      ensures low[i..i + 8][k] == "password"[k]
    {
      assert query[i..i + 8][k] == "PASSWORD"[k];
    }
    assert low[i..i + 8] == "password";
    assert Text.OccursAt(low, "password", i);
    assert "password" in SuspiciousKeywordList;
  }

  // ---------------------------------------------------------------------
  // validate_file_path
  // ---------------------------------------------------------------------

  const AllowedDirs: seq<string> := ["/home", "/Users", "/tmp", "/var/tmp"]

  const SuspiciousExtensions: seq<string> := [".exe", ".bat", ".cmd", ".sh", ".ps1"]

  /** The root `PurePosixPath` recognises: exactly two leading slashes are
      kept as "//", one or three and more collapse to "/". */
  function PathRoot(p: string): (root: string)
    ensures root == "" <==> !Text.StartsWith(p, "/")
    ensures root == "//" <==> Text.StartsWith(p, "//") && !Text.StartsWith(p, "///")
  {
    if |p| >= 2 && p[0] == '/' && p[1] == '/' && (|p| == 2 || p[2] != '/') then "//"
    else if |p| >= 1 && p[0] == '/' then "/"
    else ""
  }

  /** The components `PurePosixPath` keeps: empty ones and "." are dropped. */
  function KeepParts(parts: seq<string>): (kept: seq<string>)
    ensures forall x :: x in kept <==> x in parts && x != "" && x != "."
    ensures forall x :: multiset(kept)[x] == if x == "" || x == "." then 0 else multiset(parts)[x]
    ensures Subsequence(kept, parts)
  {
    if parts == [] then []
    else
      assert parts == [parts[0]] + parts[1..];
      if parts[0] == "" || parts[0] == "." then KeepParts(parts[1..])
      else [parts[0]] + KeepParts(parts[1..])
  }

  /** Components that are neither empty nor "." are all kept. */
  lemma {:induction false} KeepPartsKeepsClean(parts: seq<string>)
    requires forall i :: 0 <= i < |parts| ==> parts[i] != "" && parts[i] != "."
    ensures KeepParts(parts) == parts
  {
    if parts != [] {
      KeepPartsKeepsClean(parts[1..]);
    }
  }

  /** An empty or "." first component is dropped. */
  lemma KeepPartsDropsFirst(parts: seq<string>)
    requires parts != [] && (parts[0] == "" || parts[0] == ".")
    ensures KeepParts(parts) == KeepParts(parts[1..])
  {
  }

  function PathParts(p: string): seq<string> {
    KeepParts(Text.Split(p, '/'))
  }

  /** The kept components are non-empty, not ".", and hold no separator. */
  lemma PathPartsClean(p: string)
    ensures Clean(PathParts(p))
  {
    var parts := PathParts(p);
    forall i | 0 <= i < |parts|
      ensures parts[i] != "" && parts[i] != "." && '/' !in parts[i]
    {
      assert parts[i] in parts;
    }
  }

  /** `str(Path(p))`: the root followed by the kept components joined with
      "/", or "." when there is neither. */
  function PathStr(p: string): (s: string)
    ensures s != []
    ensures Text.StartsWith(s, PathRoot(p))
  {
    var root := PathRoot(p);
    var parts := PathParts(p);
    if root == "" && parts == [] then "."
    else
      assert parts != [] ==> |Text.Join(parts, "/")| > 0 by {
        if parts != [] {
          PathPartsClean(p);
          JoinStartsWithFirst(parts);
        }
      }
      root + Text.Join(parts, "/")
  }

  /** `Path(p).name`: the last kept component, or "" when there is none. */
  function PathName(p: string): (name: string)
    ensures '/' !in name
    ensures name == [] <==> PathParts(p) == []
    ensures name != [] ==> name in PathParts(p) && name != "."
  {
    var parts := PathParts(p);
    PathPartsClean(p);
    if parts == [] then "" else parts[|parts| - 1]
  }

  /** A join of clean components starts with the first of them. */
  lemma JoinStartsWithFirst(parts: seq<string>)
    requires parts != []
    ensures Text.StartsWith(Text.Join(parts, "/"), parts[0])
  {
  }

  /** Components a path keeps: non-empty, not ".", without a separator. */
  predicate Clean(parts: seq<string>) {
    forall i :: 0 <= i < |parts| ==> parts[i] != "" && parts[i] != "." && '/' !in parts[i]
  }

  /** Clean components joined with "/" parse back to themselves, and the
      join does not begin with a separator. */
  lemma JoinClean(parts: seq<string>)
    requires Clean(parts)
    ensures KeepParts(Text.Split(Text.Join(parts, "/"), '/')) == parts
    ensures Text.Join(parts, "/") == [] <==> parts == []
    ensures parts != [] ==> Text.Join(parts, "/")[0] != '/'
  {
    var j := Text.Join(parts, "/");
    KeepPartsKeepsClean(parts);
    if parts == [] {
      assert Text.Split(j, '/') == [""];
      KeepPartsDropsFirst([""]);
    } else {
      Text.SplitJoin(parts, '/');
      JoinStartsWithFirst(parts);
      assert j[0] == parts[0][0];
    }
  }

  /** A root in front of the text adds only empty components. */
  lemma {:induction false} DropRoot(root: string, j: string)
    requires root == "/" || root == "//"
    ensures KeepParts(Text.Split(root + j, '/')) == KeepParts(Text.Split(j, '/'))
    decreases |root|
  {
    if root == "/" {
      var split := Text.Split(j, '/');
      assert root + j == "" + "/" + j;
      Text.SplitAtFirst("", '/', j);
      KeepPartsDropsFirst([""] + split);
      assert ([""] + split)[1..] == split;
    } else {
      assert root + j == "/" + ("/" + j);
      DropRoot("/", "/" + j);
      DropRoot("/", j);
    }
  }

  /** The root of a root followed by text that does not begin with a
      separator is that root. */
  lemma RootOfRooted(root: string, j: string)
    requires root == "" || root == "/" || root == "//"
    requires j == [] || j[0] != '/'
    ensures PathRoot(root + j) == root
  {
    if root == "//" {
      assert (root + j)[..2] == "//";
    }
  }

  /** `str(Path(p))` is already normal: parsing it again gives the same root
      and components, so normalising twice is normalising once. */
  lemma PathStrIsNormal(p: string)
    ensures PathRoot(PathStr(p)) == PathRoot(p)
    ensures PathParts(PathStr(p)) == PathParts(p)
    ensures PathStr(PathStr(p)) == PathStr(p)
  {
    var root := PathRoot(p);
    var parts := PathParts(p);
    PathPartsClean(p);
    if root == "" && parts == [] {
      Text.SplitNoSep(".", '/');
      KeepPartsDropsFirst(["."]);
    } else {
      var j := Text.Join(parts, "/");
      JoinClean(parts);
      RootOfRooted(root, j);
      assert PathStr(p) == root + j;
      if root != "" {
        DropRoot(root, j);
      } else {
        assert root + j == j;
      }
      assert PathParts(root + j) == KeepParts(Text.Split(root + j, '/'));
    }
  }

  /** `PurePath.suffix` of a name: from its last dot on, provided that dot is
      neither the first nor the last character. */
  function Suffix(name: string): (s: string)
    ensures s != "" ==> 2 <= |s| < |name| && s[0] == '.' && Text.EndsWith(name, s) && '.' !in s[1..]
    ensures s == "" <==>
      |name| == 0 || name[|name| - 1] == '.' || forall k :: 0 < k < |name| ==> name[k] != '.'
  {
    var i := Text.RFind(name, '.', 0, |name|);
    if 0 < i < |name| - 1 then name[i..] else ""
  }

  /** `any(s.startswith(d) for d in dirs)`. */
  predicate AnyStartsWith(s: string, dirs: seq<string>) {
    exists k :: 0 <= k < |dirs| && Text.StartsWith(s, dirs[k])
  }

  /** The outcome of `validate_file_path`. */
  datatype PathVerdict =
    | Traversal
    | OutsideAllowedDirs
    | SuspiciousExtension(suffix: string)
    | PathSafe

  /** `SecurityValidator.validate_file_path` as written: ".." anywhere in the
      normalised path, then an absolute path that does not begin with an
      allowed directory as a plain string prefix, then the lower-cased suffix
      against the deny-list. */
  function ValidateFilePath(filePath: string): (v: PathVerdict)
    ensures v.Traversal? <==> Text.Contains(filePath, "..")
    ensures v.OutsideAllowedDirs? <==>
      !Text.Contains(filePath, "..") && Text.StartsWith(filePath, "/")
        && forall k :: 0 <= k < |AllowedDirs| ==> !Text.StartsWith(PathStr(filePath), AllowedDirs[k])
    ensures v.SuspiciousExtension? ==>
      !Text.Contains(filePath, "..") && v.suffix == Suffix(PathName(filePath))
        && Text.Lower(v.suffix) in SuspiciousExtensions
    ensures v.PathSafe? ==>
      !Text.Contains(filePath, "..") && Text.Lower(Suffix(PathName(filePath))) !in SuspiciousExtensions
        && (Text.StartsWith(filePath, "/") ==> AnyStartsWith(PathStr(filePath), AllowedDirs))
  {
    TraversalSeenInRawPath(filePath);
    var s := PathStr(filePath);
    var suffix := Suffix(PathName(filePath));
    if Text.Contains(s, "..") then Traversal
    else if PathRoot(filePath) != "" && !AnyStartsWith(s, AllowedDirs) then OutsideAllowedDirs
    else if Text.Lower(suffix) in SuspiciousExtensions then SuspiciousExtension(suffix)
    else PathSafe
  }

  // Normalisation neither creates nor removes "..": two adjacent dots always
  // sit inside one component, and such a component is never dropped.

  predicate DotDotAt(s: string, i: int) {
    0 <= i < |s| - 1 && s[i] == '.' && s[i + 1] == '.'
  }

  ghost predicate HasDotDot(s: string) {
    exists i :: DotDotAt(s, i)
  }

  lemma DotDotConcat(a: string, b: string)
    ensures HasDotDot(a + b) <==>
      HasDotDot(a) || HasDotDot(b) || (a != [] && b != [] && a[|a| - 1] == '.' && b[0] == '.')
  {
    var ab := a + b;
    if HasDotDot(ab) {
      var i :| DotDotAt(ab, i);
      if i + 1 < |a| {
        assert DotDotAt(a, i);
      } else if i >= |a| {
        assert DotDotAt(b, i - |a|);
      }
    }
    if HasDotDot(a) {
      var i :| DotDotAt(a, i);
      assert DotDotAt(ab, i);
    }
    if HasDotDot(b) {
      var i :| DotDotAt(b, i);
      assert DotDotAt(ab, i + |a|);
    }
    if a != [] && b != [] && a[|a| - 1] == '.' && b[0] == '.' {
      assert DotDotAt(ab, |a| - 1);
    }
  }

  /** Joining with a separator other than '.' creates no "..". */
  lemma {:induction false} DotDotJoin(parts: seq<string>, sep: char)
    requires sep != '.'
    ensures HasDotDot(Text.Join(parts, [sep])) <==> exists k :: 0 <= k < |parts| && HasDotDot(parts[k])
  {
    if |parts| == 1 {
    } else if |parts| > 1 {
      var rest := Text.Join(parts[1..], [sep]);
      DotDotJoin(parts[1..], sep);
      DotDotConcat(parts[0] + [sep], rest);
      DotDotConcat(parts[0], [sep]);
      assert (parts[0] + [sep])[|parts[0] + [sep]| - 1] == sep;
      assert Text.Join(parts, [sep]) == (parts[0] + [sep]) + rest;
      if exists k :: 0 <= k < |parts| && HasDotDot(parts[k]) {
        var k :| 0 <= k < |parts| && HasDotDot(parts[k]);
        if k > 0 {
          assert parts[1..][k - 1] == parts[k];
        }
      }
      if exists k :: 0 <= k < |parts| - 1 && HasDotDot(parts[1..][k]) {
        var k :| 0 <= k < |parts| - 1 && HasDotDot(parts[1..][k]);
        assert parts[k + 1] == parts[1..][k];
      }
    }
  }

  lemma NoDotDotInSlashes(root: string, rest: string)
    requires forall k :: 0 <= k < |root| ==> root[k] == '/'
    ensures HasDotDot(root + rest) <==> HasDotDot(rest)
  {
    DotDotConcat(root, rest);
    assert !HasDotDot(root);
  }

  lemma DotDotIsContains(s: string)
    ensures Text.Contains(s, "..") <==> HasDotDot(s)
  {
    Text.ContainsDoubleDot(s);
    if Text.Contains(s, "..") {
      var i :| 0 <= i < |s| - 1 && s[i] == '.' && s[i + 1] == '.';
      assert DotDotAt(s, i);
    }
    if HasDotDot(s) {
      var i :| DotDotAt(s, i);
      assert s[i] == '.' && s[i + 1] == '.';
    }
  }

  /** The traversal test looks at `str(Path(p))`; on any path it answers as
      if it had looked at `p` itself. */
  lemma TraversalSeenInRawPath(p: string)
    ensures Text.Contains(PathStr(p), "..") <==> Text.Contains(p, "..")
  {
    var split := Text.Split(p, '/');
    var parts := PathParts(p);
    var root := PathRoot(p);
    DotDotIsContains(p);
    DotDotIsContains(PathStr(p));
    Text.JoinSplit(p, '/');
    DotDotJoin(split, '/');
    DotDotJoin(parts, '/');
    assert !HasDotDot("") && !HasDotDot(".");
    if exists k :: 0 <= k < |split| && HasDotDot(split[k]) {
      var k :| 0 <= k < |split| && HasDotDot(split[k]);
      assert split[k] in parts;
      var j :| 0 <= j < |parts| && parts[j] == split[k];
    }
    if exists k :: 0 <= k < |parts| && HasDotDot(parts[k]) {
      var k :| 0 <= k < |parts| && HasDotDot(parts[k]);
      assert parts[k] in split;
      var j :| 0 <= j < |split| && split[j] == parts[k];
    }
    if !(root == "" && parts == []) {
      NoDotDotInSlashes(root, Text.Join(parts, "/"));
    }
  }

  /** A directory the allowed list is meant to admit: `d` itself or a path
      below it, judged component by component. */
  predicate UnderDir(s: string, d: string) {
    s == d || Text.StartsWith(s, d + "/")
  }

  predicate AnyUnderDir(s: string, dirs: seq<string>) {
    exists k :: 0 <= k < |dirs| && UnderDir(s, dirs[k])
  }

  /** `validate_file_path` with the allowed-directory test done on whole
      components, so "/homework" is no longer taken for "/home". */
  function ValidateFilePathFixed(filePath: string): (v: PathVerdict)
    ensures v.Traversal? <==> Text.Contains(filePath, "..")
    ensures v.OutsideAllowedDirs? <==>
      !Text.Contains(filePath, "..") && Text.StartsWith(filePath, "/")
        && !AnyUnderDir(PathStr(filePath), AllowedDirs)
    ensures (v.PathSafe? || v.SuspiciousExtension?) && Text.StartsWith(filePath, "/") ==>
      exists k :: 0 <= k < |AllowedDirs| && UnderDir(PathStr(filePath), AllowedDirs[k])
  {
    TraversalSeenInRawPath(filePath);
    var s := PathStr(filePath);
    var suffix := Suffix(PathName(filePath));
    if Text.Contains(s, "..") then Traversal
    else if PathRoot(filePath) != "" && !AnyUnderDir(s, AllowedDirs) then OutsideAllowedDirs
    else if Text.Lower(suffix) in SuspiciousExtensions then SuspiciousExtension(suffix)
    else PathSafe
  }

  /** Under the corrected test every admitted absolute path begins with an
      allowed directory too, so it refuses a superset of what the written
      test refuses for being outside. */
  lemma FixedRefusesMore(filePath: string)
    ensures ValidateFilePath(filePath).OutsideAllowedDirs? ==> ValidateFilePathFixed(filePath).OutsideAllowedDirs?
  {
  }

  /** The written test takes "/homework" for "/home": a path in a sibling
      directory is admitted, and the corrected test refuses it. */
  lemma SiblingOfAllowedDirAdmitted()
    ensures ValidateFilePath("/homework/a.py") == PathSafe
    ensures ValidateFilePathFixed("/homework/a.py") == OutsideAllowedDirs
  {
    SiblingPathFacts();
    SiblingPathStr();
    SiblingPathHasNoDotDot();
  }

  lemma SiblingPathFacts()
    ensures forall k :: 0 <= k < |AllowedDirs| ==> !UnderDir("/homework/a.py", AllowedDirs[k])
    ensures Text.StartsWith("/homework/a.py", AllowedDirs[0])
    ensures Text.Lower(Suffix("a.py")) == ".py" && ".py" !in SuspiciousExtensions
  {
    var p := "/homework/a.py";
    assert p[5] != '/' && p[1] != 'U' && p[1] != 't' && p[1] != 'v';
    assert Text.RFind("a.py", '.', 0, 4) == 1;
    assert "a.py"[1..] == ".py";
    Text.LowerKeepsLowerCase(".py");
  }

  lemma SiblingSplit()
    ensures Text.Split("/homework/a.py", '/') == ["", "homework", "a.py"]
  {
    assert "" + "/" + "homework/a.py" == "/homework/a.py";
    SiblingSplitRelative();
    Text.SplitAtFirst("", '/', "homework/a.py");
  }

  lemma SiblingSplitRelative()
    ensures Text.Split("homework/a.py", '/') == ["homework", "a.py"]
  {
    assert "homework" + "/" + "a.py" == "homework/a.py";
    Text.SplitNoSep("a.py", '/');
    Text.SplitAtFirst("homework", '/', "a.py");
  }

  lemma SiblingPathParts()
    ensures PathParts("/homework/a.py") == ["homework", "a.py"]
  {
    var parts := ["", "homework", "a.py"];
    SiblingSplit();
    KeepPartsDropsFirst(parts);
    assert parts[1..] == ["homework", "a.py"];
    KeepPartsKeepsClean(parts[1..]);
  }

  lemma SiblingPathStr()
    ensures PathStr("/homework/a.py") == "/homework/a.py"
    ensures PathName("/homework/a.py") == "a.py"
  {
    assert "/" + ("homework" + "/" + "a.py") == "/homework/a.py";
    SiblingPathParts();
    assert PathRoot("/homework/a.py") == "/";
  }

  lemma SiblingPathHasNoDotDot()
    ensures !Text.Contains("/homework/a.py", "..")
  {
    var p := "/homework/a.py";
    DotDotIsContains(p);
    assert forall i :: 0 <= i < |p| && i != 11 ==> p[i] != '.';
    assert !HasDotDot(p);
  }

  /** The two allow-lists disagree: a shell script passes the default
      extension test of the file scanner and is refused by the path
      validator. */
  lemma ShellScriptAdmittedThenRefused()
    ensures Config.ValidateFileExtension(Config.DefaultSecurity, "deploy.sh")
    ensures ValidateFilePath("deploy.sh") == SuspiciousExtension(".sh")
  {
    Config.ShellScriptsAdmittedByDefault();
    ShellScriptPathFacts();
  }

  lemma ShellScriptPathFacts()
    ensures PathName("deploy.sh") == "deploy.sh" && PathStr("deploy.sh") == "deploy.sh"
    ensures !Text.Contains("deploy.sh", "..")
    ensures Suffix("deploy.sh") == ".sh" && Text.Lower(".sh") == ".sh" && ".sh" in SuspiciousExtensions
  {
    ShellScriptParts();
    ShellScriptNoDotDot();
    ShellScriptSuffix();
    Text.LowerKeepsLowerCase(".sh");
  }

  lemma ShellScriptSuffix()
    ensures Suffix("deploy.sh") == ".sh"
  {
    var p := "deploy.sh";
    assert p[8] != '.' && p[7] != '.' && p[6] == '.';
    assert Text.RFind(p, '.', 0, 9) == 6;
    assert p[6..] == ".sh";
  }

  lemma ShellScriptParts()
    ensures PathParts("deploy.sh") == ["deploy.sh"]
  {
    var p := "deploy.sh";
    assert forall i :: 0 <= i < |p| ==> p[i] != '/';
    Text.SplitNoSep(p, '/');
    KeepPartsKeepsClean([p]);
  }

  lemma ShellScriptNoDotDot()
    ensures !Text.Contains("deploy.sh", "..")
  {
    var p := "deploy.sh";
    DotDotIsContains(p);
    assert forall i :: 0 <= i < |p| && i != 6 ==> p[i] != '.';
    assert !HasDotDot(p);
  }

  // ---------------------------------------------------------------------
  // sanitize_input
  // ---------------------------------------------------------------------

  /** `SecurityValidator.sanitize_input`: strip, drop NUL characters, keep at
      most the first 1000. */
  function SanitizeInput(input: string): (r: string)
    ensures '\0' !in r
    ensures |r| <= MaxQueryLength
    ensures r <= Text.RemoveAll(Text.Strip(input), '\0')
    ensures |r| == Text.Min(MaxQueryLength, |Text.RemoveAll(Text.Strip(input), '\0')|)
  {
    var s := Text.RemoveAll(Text.Strip(input), '\0');
    if |s| > MaxQueryLength then s[..MaxQueryLength] else s
  }

  /** Input that is already stripped, NUL-free and short comes back as is. */
  lemma SanitizeKeepsCleanInput(input: string)
    requires Text.Strip(input) == input && '\0' !in input && |input| <= MaxQueryLength
    ensures SanitizeInput(input) == input
  {
    assert Text.RemoveAll(input, '\0') == input;
  }

  /** Stripping comes before NUL removal, so a NUL in front of a space leaves
      that space at the edge: sanitising twice differs from sanitising once. */
  lemma SanitizeNotIdempotent()
    ensures SanitizeInput("\0 a") == " a"
    ensures SanitizeInput(SanitizeInput("\0 a")) == "a"
  {
    assert Text.LeadingSpace("\0 a") == 0;
    assert Text.TrailingSpace("\0 a") == 0;
    assert Text.Strip("\0 a") == "\0 a";
    assert Text.RemoveAll("a", '\0') == "a";
    assert Text.RemoveAll(" a", '\0') == " a";
    assert Text.RemoveAll("\0 a", '\0') == " a";
    assert Text.LeadingSpace(" a") == 1;
    assert Text.TrailingSpace("a") == 0;
    assert Text.Strip(" a") == "a";
  }

  // ---------------------------------------------------------------------
  // validate_file_content
  // ---------------------------------------------------------------------

  const SecretPatterns: seq<string> := [
    @"password\s*=\s*[""\'][^""\']+[""\']",
    @"api_key\s*=\s*[""\'][^""\']+[""\']",
    @"secret\s*=\s*[""\'][^""\']+[""\']",
    @"private_key",
    @"BEGIN\s+PRIVATE\s+KEY",
    @"BEGIN\s+RSA\s+PRIVATE\s+KEY"]

  /** `content.encode('utf-8')` succeeds: no lone surrogate code point. */
  predicate Utf8Encodable(content: string) {
    forall k :: 0 <= k < |content| ==> !(0xD800 <= content[k] as int <= 0xDFFF)
  }

  /** A Dafny string holds Unicode scalar values only, so the encodability
      test never fails here: the `Binary` verdict needs a lone surrogate,
      which Python strings can hold and Dafny strings cannot. */
  lemma EveryStringEncodes(content: string)
    ensures Utf8Encodable(content)
  {
  }

  /** The outcome of `validate_file_content`. */
  datatype ContentVerdict = SecretPattern(pattern: string) | Binary | ContentSafe

  /** `SecurityValidator.validate_file_content`: the secret patterns in list
      order, then the encodability test. The path only feeds a log line. */
  function ValidateFileContent(search: (string, string) -> bool, content: string, filePath: string): (v: ContentVerdict)
    ensures v.SecretPattern? <==> AnyMatch(search, SecretPatterns, content)
    ensures v.SecretPattern? ==>
      exists k :: 0 <= k < |SecretPatterns| && v.pattern == SecretPatterns[k] && search(SecretPatterns[k], content)
        && forall j :: 0 <= j < k ==> !search(SecretPatterns[j], content)
    ensures v.Binary? <==> !AnyMatch(search, SecretPatterns, content) && !Utf8Encodable(content)
    ensures v.ContentSafe? <==> !AnyMatch(search, SecretPatterns, content) && Utf8Encodable(content)
  {
    match FirstMatch(search, SecretPatterns, content, 0)
    case Some(i) => SecretPattern(SecretPatterns[i])
    case None => if Utf8Encodable(content) then ContentSafe else Binary
  }

  // ---------------------------------------------------------------------
  // check_rate_limit
  // ---------------------------------------------------------------------

  /** Seconds a request stays in a user's window. */
  const Window: int := 60

  /** `[t for t in ts if now - t < 60]`. */
  function Recent(ts: seq<int>, now: int): (r: seq<int>)
    ensures forall t :: t in r <==> t in ts && now - t < Window
    ensures forall t :: multiset(r)[t] == if now - t < Window then multiset(ts)[t] else 0
    ensures |r| <= |ts|
    decreases |ts|
  {
    if ts == [] then []
    else
      var last := ts[|ts| - 1];
      assert ts == ts[..|ts| - 1] + [last];
      Recent(ts[..|ts| - 1], now) + (if now - last < Window then [last] else [])
  }

  /** Pruning a list extended by one timestamp. */
  lemma RecentSnoc(ts: seq<int>, t: int, now: int)
    ensures Recent(ts + [t], now) == Recent(ts, now) + (if now - t < Window then [t] else [])
  {
    assert (ts + [t])[..|ts|] == ts;
  }

  /** Appending the same element to both sides keeps a subsequence one. */
  lemma {:induction false} SubsequenceSnoc<T>(a: seq<T>, b: seq<T>, x: T)
    requires Subsequence(a, b)
    ensures Subsequence(a, b + [x]) && Subsequence(a + [x], b + [x])
    decreases |b|
  {
    if b == [] {
      assert a == [];
      assert Subsequence(a + [x], b + [x]);
    } else {
      assert (b + [x])[1..] == b[1..] + [x];
      if a == [] {
        SubsequenceSnoc(a, b[1..], x);
      } else if a[0] == b[0] && Subsequence(a[1..], b[1..]) {
        SubsequenceSnoc(a[1..], b[1..], x);
        assert (a + [x])[1..] == a[1..] + [x];
      } else {
        SubsequenceSnoc(a, b[1..], x);
      }
    }
  }

  /** Pruning keeps the surviving timestamps in their stored order. */
  lemma {:induction false} RecentInOrder(ts: seq<int>, now: int)
    ensures Subsequence(Recent(ts, now), ts)
    decreases |ts|
  {
    if ts != [] {
      var init := ts[..|ts| - 1];
      var last := ts[|ts| - 1];
      RecentInOrder(init, now);
      SubsequenceSnoc(Recent(init, now), init, last);
      assert ts == init + [last];
      if now - last < Window {
        assert Recent(ts, now) == Recent(init, now) + [last];
      } else {
        assert Recent(ts, now) == Recent(init, now);
      }
    }
  }

  /** The list stored for a user after one call at `now`: pruned, and
      extended by `now` when the pruned list is below the ceiling. */
  function NextLog(ts: seq<int>, now: int, max: nat): (r: seq<int>)
    ensures forall t :: t in r ==> now - t < Window
    ensures now in r <==> now in ts || |Recent(ts, now)| < max
    ensures |Recent(ts, now)| <= |r| && r[..|Recent(ts, now)|] == Recent(ts, now)
    ensures |Recent(ts, now)| < max ==> |r| == |Recent(ts, now)| + 1 && r[|r| - 1] == now
    ensures |Recent(ts, now)| >= max ==> |r| == |Recent(ts, now)|
    ensures |ts| <= max ==> |r| <= max
  {
    var pruned := Recent(ts, now);
    if |pruned| >= max then pruned else pruned + [now]
  }

  /** The list `request_counts.get(user, [])` a call starts from. */
  function Stored(counts: map<string, seq<int>>, user: string): seq<int> {
    if user in counts then counts[user] else []
  }

  /** What `check_rate_limit` returns. */
  datatype RateDecision = RateDecision(allowed: bool, requestsInLastMinute: nat)

  /** The state of `SecurityValidator` that changes: the timestamps of each
      user's requests. The pattern lists are the constants above. */
  class SecurityValidator {
    var requestCounts: map<string, seq<int>>
    const maxRequestsPerMinute: nat

    /** No user has more stored requests than the ceiling. */
    ghost predicate Valid()
      reads this
    {
      forall u :: u in requestCounts ==> |requestCounts[u]| <= maxRequestsPerMinute
    }

    constructor ()
      ensures requestCounts == map[] && maxRequestsPerMinute == 60
      ensures Valid()
    {
      requestCounts := map[];
      maxRequestsPerMinute := 60;
    }

    /** `check_rate_limit(user_id)` with `time.time()` passed in as `now`. */
    method CheckRateLimit(userId: string, now: int) returns (d: RateDecision)
      requires Valid()
      modifies this
      ensures Valid()
      ensures requestCounts == old(requestCounts)[userId := NextLog(Stored(old(requestCounts), userId), now, maxRequestsPerMinute)]
      ensures d.allowed <==> |Recent(Stored(old(requestCounts), userId), now)| < maxRequestsPerMinute
      ensures d.requestsInLastMinute == |requestCounts[userId]| <= maxRequestsPerMinute
      ensures forall t :: t in requestCounts[userId] ==> now - t < Window
    {
      if userId !in requestCounts {
        requestCounts := requestCounts[userId := []];
      }
      requestCounts := requestCounts[userId := Recent(requestCounts[userId], now)];
      if |requestCounts[userId]| >= maxRequestsPerMinute {
        return RateDecision(false, |requestCounts[userId]|);
      }
      requestCounts := requestCounts[userId := requestCounts[userId] + [now]];
      return RateDecision(true, |requestCounts[userId]|);
    }
  }

  // The guarantee the limiter exists for: over calls by one user whose
  // clock never runs backwards, the calls allowed in the last 60 seconds
  // never number more than the ceiling.

  /** The list stored for a user after calls at `times`, in order. */
  function Replay(times: seq<int>, max: nat): (log: seq<int>)
    ensures |log| <= max
    decreases |times|
  {
    if times == [] then []
    else NextLog(Replay(times[..|times| - 1], max), times[|times| - 1], max)
  }

  /** The call at index `k` of `times` was allowed. */
  predicate AllowedAt(times: seq<int>, k: nat, max: nat)
    requires k < |times|
  {
    |Recent(Replay(times[..k], max), times[k])| < max
  }

  /** The times of the allowed calls within the window ending at `now`, in
      call order. */
  function AllowedSince(times: seq<int>, max: nat, now: int): seq<int>
    decreases |times|
  {
    if times == [] then []
    else
      var k := |times| - 1;
      AllowedSince(times[..k], max, now) + (if AllowedAt(times, k, max) && now - times[k] < Window then [times[k]] else [])
  }

  predicate NonDecreasing(times: seq<int>) {
    forall i, j :: 0 <= i <= j < |times| ==> times[i] <= times[j]
  }

  lemma {:induction false} RecentOfAllowed(times: seq<int>, max: nat, earlier: int, now: int)
    requires earlier <= now
    ensures Recent(AllowedSince(times, max, earlier), now) == AllowedSince(times, max, now)
    decreases |times|
  {
    if times != [] {
      var k := |times| - 1;
      var before := AllowedSince(times[..k], max, earlier);
      RecentOfAllowed(times[..k], max, earlier, now);
      if AllowedAt(times, k, max) && earlier - times[k] < Window {
        RecentSnoc(before, times[k], now);
      } else {
        assert AllowedSince(times, max, earlier) == before;
      }
    }
  }

  /** After every call the stored list holds exactly the allowed calls of the
      last 60 seconds. */
  lemma {:induction false} ReplayIsAllowedWindow(times: seq<int>, max: nat)
    requires NonDecreasing(times) && times != []
    ensures Replay(times, max) == AllowedSince(times, max, times[|times| - 1])
    decreases |times|
  {
    var k := |times| - 1;
    var init := times[..k];
    var now := times[k];
    var pruned := Recent(Replay(init, max), now);
    assert Replay(times, max) == NextLog(Replay(init, max), now, max);
    if init == [] {
      assert pruned == [];
    } else {
      assert NonDecreasing(init);
      ReplayIsAllowedWindow(init, max);
      assert init[k - 1] <= now;
      RecentOfAllowed(init, max, init[k - 1], now);
    }
    assert pruned == AllowedSince(init, max, now);
    assert AllowedAt(times, k, max) <==> |pruned| < max;
  }

  /** The sliding-window guarantee. */
  lemma SlidingWindowBound(times: seq<int>, max: nat)
    requires NonDecreasing(times) && times != []
    ensures |AllowedSince(times, max, times[|times| - 1])| <= max
  {
    ReplayIsAllowedWindow(times, max);
  }
}
