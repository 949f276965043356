/**
  `FileProcessor`: file admission (`validate_file`, `read_file_content`),
  directory scanning over an abstract file tree (`scan_directory`) and the
  overlapping chunker (`chunk_content`).

  The file system is abstract: what `os.path.exists` and `os.path.getsize`
  report for a path is a `PathStat`, and a directory is a `Node` tree whose
  children are in listing order.
*/
module FileProcessor {
  import opened Wrappers
  import Text
  import Config

  // ---------------------------------------------------------------------
  // Admission of a single file
  // ---------------------------------------------------------------------

  /** What the file system reports for a path: absent (`os.path.exists` is
      false), or present with the size `os.path.getsize` returns, `None` when
      that call raises. */
  datatype PathStat = Absent | Present(size: Option<nat>)

  /** The outcome of `validate_file`, naming the check that refused the path
      (each refusal is logged with its own message). */
  datatype Admission = Admitted | Missing | UnsupportedExtension | SizeUnavailable | TooLarge

  /** The checks of `validate_file`, in order: existence, extension, size.
      A failing `getsize` lands in the `except` branch, which also refuses. */
  function Admit(cfg: Config.SecurityConfig, path: string, stat: PathStat): (a: Admission)
    ensures a == Missing <==> stat.Absent?
    ensures a == UnsupportedExtension <==>
      stat.Present? && !Config.ValidateFileExtension(cfg, path)
    ensures a == SizeUnavailable <==>
      stat.Present? && Config.ValidateFileExtension(cfg, path) && stat.size.None?
    ensures a == TooLarge <==>
      stat.Present? && Config.ValidateFileExtension(cfg, path) && stat.size.Some? &&
      !Config.ValidateFileSize(cfg, stat.size.value)
  {
    match stat
    case Absent => Missing
    case Present(size) =>
      if !Config.ValidateFileExtension(cfg, path) then UnsupportedExtension
      else if size.None? then SizeUnavailable
      else if !Config.ValidateFileSize(cfg, size.value) then TooLarge
      else Admitted
  }

  /** `validate_file`: never raises; true only when every check passes. */
  function ValidateFile(cfg: Config.SecurityConfig, path: string, stat: PathStat): (ok: bool)
    ensures ok <==>
      stat.Present? && stat.size.Some? &&
      Config.ValidateFileExtension(cfg, path) && Config.ValidateFileSize(cfg, stat.size.value)
  {
    Admit(cfg, path, stat) == Admitted
  }

  /** `read_file_content`: `None` for a path `validate_file` refuses; otherwise
      the UTF-8 decoded text, where `decoded` is `None` when reading or
      decoding fails. */
  function ReadFileContent(cfg: Config.SecurityConfig, path: string, stat: PathStat,
                           decoded: Option<string>): (r: Option<string>)
    ensures !ValidateFile(cfg, path, stat) ==> r == None
    ensures ValidateFile(cfg, path, stat) ==> r == decoded
  {
    if !ValidateFile(cfg, path, stat) then None else decoded
  }

  // ---------------------------------------------------------------------
  // Directory scanning
  // ---------------------------------------------------------------------

  /** A directory entry: a non-directory with what `stat` reports for it,
      or a directory with its entries in listing order. */
  datatype Node = File(name: string, stat: PathStat) | Dir(name: string, children: seq<Node>)

  /** The names pruned by `scan_directory` besides hidden directories. */
  const SkippedDirs: seq<string> := ["node_modules", "__pycache__", ".git"]

  /** A directory the recursive scan does not descend into. */
  predicate Pruned(name: string) {
    Text.StartsWith(name, ".") || name in SkippedDirs
  }

  /** `os.path.join(root, name)` for a name that holds no separator. */
  function JoinPath(root: string, name: string): string {
    if root == [] || root[|root| - 1] == '/' then root + name else root + "/" + name
  }

  /** The joined path is `root`, then one separator unless `root` is empty
      or already ends with one, then `name`. */
  lemma JoinPathJoins(root: string, name: string)
    ensures Text.StartsWith(JoinPath(root, name), root) && Text.EndsWith(JoinPath(root, name), name)
    ensures |JoinPath(root, name)| == |root| + |name| <==> root == [] || root[|root| - 1] == '/'
    ensures |JoinPath(root, name)| != |root| + |name| ==>
      |JoinPath(root, name)| == |root| + |name| + 1 && JoinPath(root, name)[|root|] == '/'
  {
  }

  lemma ChildSmaller(d: Node, c: Node)
    requires d.Dir? && c in d.children
    ensures c < d
  {
    var i :| 0 <= i < |d.children| && d.children[i] == c;
  }

  /** The `files` list `os.walk` yields: the non-directories, in order. */
  function FilesOf(entries: seq<Node>): (files: seq<Node>)
    ensures forall f :: f in files ==> f in entries
    ensures forall k :: 0 <= k < |files| ==> files[k].File?
  {
    if entries == [] then []
    else (if entries[0].File? then [entries[0]] else []) + FilesOf(entries[1..])
  }

  /** The `dirs` list `os.walk` yields: the directories, in order. */
  function DirsOf(entries: seq<Node>): (dirs: seq<Node>)
    ensures forall d :: d in dirs ==> d in entries && d.Dir?
  {
    if entries == [] then []
    else (if entries[0].Dir? then [entries[0]] else []) + DirsOf(entries[1..])
  }

  /** `dirs[:] = [d for d in dirs if not pruned]`. */
  function KeepDirs(dirs: seq<Node>): (kept: seq<Node>)
    ensures forall d :: d in kept ==> d in dirs && !Pruned(d.name)
  {
    if dirs == [] then []
    else (if !Pruned(dirs[0].name) then [dirs[0]] else []) + KeepDirs(dirs[1..])
  }

  /** The paths of `files` (all non-directories under `top`) that
      `validate_file` admits, in order. */
  function AdmittedPaths(cfg: Config.SecurityConfig, top: string, files: seq<Node>): (paths: seq<string>)
    requires forall k :: 0 <= k < |files| ==> files[k].File?
    ensures |paths| <= |files|
  {
    if files == [] then []
    else
      var f := files[|files| - 1];
      var path := JoinPath(top, f.name);
      var init := files[..|files| - 1];
      AdmittedPaths(cfg, top, init) + (if ValidateFile(cfg, path, f.stat) then [path] else [])
  }

  lemma {:induction false} FilesOfComplete(entries: seq<Node>, f: Node)
    requires f in entries && f.File?
    ensures f in FilesOf(entries)
  {
    if entries[0] != f {
      FilesOfComplete(entries[1..], f);
    }
  }

  lemma {:induction false} DirsOfComplete(entries: seq<Node>, d: Node)
    requires d in entries && d.Dir?
    ensures d in DirsOf(entries)
  {
    if entries[0] != d {
      DirsOfComplete(entries[1..], d);
    }
  }

  lemma {:induction false} KeepDirsComplete(dirs: seq<Node>, d: Node)
    requires d in dirs && !Pruned(d.name)
    ensures d in KeepDirs(dirs)
  {
    if dirs[0] != d {
      KeepDirsComplete(dirs[1..], d);
    }
  }

  /** A path is collected from `files` exactly when it names one of them and
      `validate_file` admits it. */
  lemma {:induction false} AdmittedPathsMembers(cfg: Config.SecurityConfig, top: string, files: seq<Node>, p: string)
    requires forall k :: 0 <= k < |files| ==> files[k].File?
    ensures p in AdmittedPaths(cfg, top, files) <==>
      exists f :: f in files && p == JoinPath(top, f.name) && ValidateFile(cfg, p, f.stat)
  {
    if files != [] {
      var f := files[|files| - 1];
      var init := files[..|files| - 1];
      assert files == init + [f];
      AdmittedPathsMembers(cfg, top, init, p);
      if exists g :: g in files && p == JoinPath(top, g.name) && ValidateFile(cfg, p, g.stat) {
        var g :| g in files && p == JoinPath(top, g.name) && ValidateFile(cfg, p, g.stat);
        if g != f {
          assert g in init;
        }
      }
    }
  }

  /** What the recursive scan collects below directory `d` found at path
      `top`: the admitted files of `d` in listing order, then the scans of
      the directories that survive pruning, in listing order (the top-down
      order of `os.walk`). */
  function Walk(cfg: Config.SecurityConfig, top: string, d: Node): (paths: seq<string>)
    requires d.Dir?
    decreases d, 1
  {
    AdmittedPaths(cfg, top, FilesOf(d.children)) +
    WalkEach(cfg, top, d, KeepDirs(DirsOf(d.children)), 0)
  }

  /** Every entry of `subdirs` is a subdirectory of `d`. */
  predicate SubdirsOf(d: Node, subdirs: seq<Node>) {
    d.Dir? && forall s :: s in subdirs ==> s in d.children && s.Dir?
  }

  /** The scans of `subdirs[i..]`, subdirectories of `d`, concatenated. */
  function WalkEach(cfg: Config.SecurityConfig, top: string, d: Node, subdirs: seq<Node>, i: nat): (paths: seq<string>)
    requires d.Dir? && i <= |subdirs|
    requires SubdirsOf(d, subdirs)
    decreases d, 0, |subdirs| - i
  {
    if i == |subdirs| then []
    else
      ChildSmaller(d, subdirs[i]);
      Walk(cfg, JoinPath(top, subdirs[i].name), subdirs[i]) + WalkEach(cfg, top, d, subdirs, i + 1)
  }

  /** Entry `e` of the directory at `top` is a regular file that
      `validate_file` admits under the path `p`. */
  predicate Listable(cfg: Config.SecurityConfig, top: string, e: Node, p: string) {
    e.File? && e.stat.Present? && p == JoinPath(top, e.name) && ValidateFile(cfg, p, e.stat)
  }

  /** The non-recursive scan: the entries of the directory that are regular
      files (`os.path.isfile`) and that `validate_file` admits, in listing
      order. */
  function ListedFiles(cfg: Config.SecurityConfig, top: string, entries: seq<Node>): (paths: seq<string>)
    ensures |paths| <= |entries|
  {
    if entries == [] then []
    else
      var e := entries[|entries| - 1];
      var path := JoinPath(top, e.name);
      var init := entries[..|entries| - 1];
      ListedFiles(cfg, top, init) + (if Listable(cfg, top, e, path) then [path] else [])
  }

  /** The non-recursive scan returns exactly the admitted regular files
      directly inside the directory. */
  lemma {:induction false} ListedFilesMembers(cfg: Config.SecurityConfig, top: string, entries: seq<Node>, p: string)
    ensures p in ListedFiles(cfg, top, entries) <==>
      exists i :: 0 <= i < |entries| && Listable(cfg, top, entries[i], p)
  {
    if entries != [] {
      var e := entries[|entries| - 1];
      var init := entries[..|entries| - 1];
      var path := JoinPath(top, e.name);
      ListedFilesMembers(cfg, top, init, p);
      assert ListedFiles(cfg, top, entries) ==
        ListedFiles(cfg, top, init) + (if Listable(cfg, top, e, path) then [path] else []);
      if i :| 0 <= i < |entries| && Listable(cfg, top, entries[i], p) {
        if i < |init| {
          assert init[i] == entries[i];
        }
      }
      if p in ListedFiles(cfg, top, init) {
        var i :| 0 <= i < |init| && Listable(cfg, top, init[i], p);
        assert init[i] == entries[i];
      }
    }
  }


  /** `scan_directory`. `root` is what lies at `directoryPath`: nothing, a
      file or a directory. `os.walk` yields nothing for a path that is not a
      directory and `os.listdir` raises, which the `except` turns into `[]`. */
  method ScanDirectory(cfg: Config.SecurityConfig, directoryPath: string, root: Option<Node>,
                       recursive: bool)
    returns (validFiles: seq<string>)
    ensures (root.None? || root.value.File?) ==> validFiles == []
    ensures root.Some? && root.value.Dir? && recursive ==>
      validFiles == Walk(cfg, directoryPath, root.value)
    ensures root.Some? && root.value.Dir? && !recursive ==>
      validFiles == ListedFiles(cfg, directoryPath, root.value.children)
  {
    validFiles := [];
    if root.None? || root.value.File? {
      return;
    }
    if recursive {
      validFiles := WalkTree(cfg, directoryPath, root.value);
    } else {
      var entries := root.value.children;
      for i := 0 to |entries|
        invariant validFiles == ListedFiles(cfg, directoryPath, entries[..i])
      {
        var filePath := JoinPath(directoryPath, entries[i].name);
        if entries[i].File? && entries[i].stat.Present? && ValidateFile(cfg, filePath, entries[i].stat) {
          validFiles := validFiles + [filePath];
        }
        assert entries[..i + 1][..i] == entries[..i];
      }
      assert entries[..|entries|] == entries;
    }
  }

  /** The loop over the `files` of one directory of the walk. */
  method AdmitFiles(cfg: Config.SecurityConfig, top: string, files: seq<Node>) returns (found: seq<string>)
    requires forall k :: 0 <= k < |files| ==> files[k].File?
    ensures found == AdmittedPaths(cfg, top, files)
  {
    found := [];
    for i := 0 to |files|
      invariant found == AdmittedPaths(cfg, top, files[..i])
    {
      var filePath := JoinPath(top, files[i].name);
      if ValidateFile(cfg, filePath, files[i].stat) {
        found := found + [filePath];
      }
      assert files[..i + 1][..i] == files[..i];
    }
    assert files[..|files|] == files;
  }

  /** One directory of the top-down walk: admit its files, prune its
      subdirectories, then descend into the survivors in order. */
  method WalkTree(cfg: Config.SecurityConfig, top: string, d: Node) returns (found: seq<string>)
    requires d.Dir?
    ensures found == Walk(cfg, top, d)
    decreases d, 1
  {
    var files := FilesOf(d.children);
    var dirs := DirsOf(d.children);
    dirs := KeepDirs(dirs);
    found := AdmitFiles(cfg, top, files);
    var below := WalkSubdirs(cfg, top, d, dirs);
    found := found + below;
  }

  /** The descent of `os.walk` into the kept subdirectories of `d`. */
  method WalkSubdirs(cfg: Config.SecurityConfig, top: string, d: Node, dirs: seq<Node>) returns (found: seq<string>)
    requires d.Dir?
    requires SubdirsOf(d, dirs)
    ensures found == WalkEach(cfg, top, d, dirs, 0)
    decreases d, 0
  {
    found := [];
    for j := 0 to |dirs|
      invariant found + WalkEach(cfg, top, d, dirs, j) == WalkEach(cfg, top, d, dirs, 0)
    {
      ChildSmaller(d, dirs[j]);
      var sub := WalkTree(cfg, JoinPath(top, dirs[j].name), dirs[j]);
      WalkEachStep(cfg, top, d, dirs, j, found);
      found := found + sub;
    }
  }

  lemma WalkEachStep(cfg: Config.SecurityConfig, top: string, d: Node, dirs: seq<Node>, j: nat, found: seq<string>)
    requires SubdirsOf(d, dirs) && j < |dirs|
    ensures (found + Walk(cfg, JoinPath(top, dirs[j].name), dirs[j])) + WalkEach(cfg, top, d, dirs, j + 1)
      == found + WalkEach(cfg, top, d, dirs, j)
  {
  }

  /** `path` is a file reached from directory `d` (at path `top`) through
      directories none of which is pruned, and `validate_file` admits it. */
  ghost predicate FoundUnder(cfg: Config.SecurityConfig, top: string, d: Node, path: string)
    requires d.Dir?
    decreases d, 1
  {
    exists i :: 0 <= i < |d.children| && FoundVia(cfg, top, d.children[i], path)
  }

  ghost predicate FoundVia(cfg: Config.SecurityConfig, top: string, c: Node, path: string)
    decreases c, 2
  {
    match c
    case File(name, stat) =>
      path == JoinPath(top, name) && ValidateFile(cfg, path, stat)
    case Dir(name, _) =>
      !Pruned(name) && FoundUnder(cfg, JoinPath(top, name), c, path)
  }

  /** The recursive scan returns exactly the admitted files reachable without
      entering a pruned directory: nothing under a hidden directory,
      `node_modules`, `__pycache__` or `.git` is ever returned. */
  lemma WalkFindsExactly(cfg: Config.SecurityConfig, top: string, d: Node, path: string)
    requires d.Dir?
    ensures path in Walk(cfg, top, d) <==> FoundUnder(cfg, top, d, path)
  {
    if path in Walk(cfg, top, d) {
      WalkOnlyFound(cfg, top, d, path);
    }
    if FoundUnder(cfg, top, d, path) {
      WalkFindsFound(cfg, top, d, path);
    }
  }

  lemma {:induction false} WalkOnlyFound(cfg: Config.SecurityConfig, top: string, d: Node, path: string)
    requires d.Dir? && path in Walk(cfg, top, d)
    ensures FoundUnder(cfg, top, d, path)
    decreases d, 1
  {
    var files := FilesOf(d.children);
    var kept := KeepDirs(DirsOf(d.children));
    var own := AdmittedPaths(cfg, top, files);
    var below := WalkEach(cfg, top, d, kept, 0);
    assert Walk(cfg, top, d) == own + below;
    if path in own {
      OwnFileFound(cfg, top, d, path);
    } else {
      WalkEachFinds(cfg, top, d, kept, 0, path);
      var j :| 0 <= j < |kept| && path in Walk(cfg, JoinPath(top, kept[j].name), kept[j]);
      SubdirFound(cfg, top, d, kept[j], path);
    }
  }

  lemma OwnFileFound(cfg: Config.SecurityConfig, top: string, d: Node, path: string)
    requires d.Dir? && path in AdmittedPaths(cfg, top, FilesOf(d.children))
    ensures FoundUnder(cfg, top, d, path)
  {
    var files := FilesOf(d.children);
    AdmittedPathsMembers(cfg, top, files, path);
    var f :| f in files && path == JoinPath(top, f.name) && ValidateFile(cfg, path, f.stat);
    var i :| 0 <= i < |d.children| && d.children[i] == f;
    assert FoundVia(cfg, top, d.children[i], path);
  }

  lemma SubdirFound(cfg: Config.SecurityConfig, top: string, d: Node, c: Node, path: string)
    requires d.Dir? && c in KeepDirs(DirsOf(d.children))
    requires path in Walk(cfg, JoinPath(top, c.name), c)
    ensures FoundUnder(cfg, top, d, path)
    decreases d, 0
  {
    ChildSmaller(d, c);
    WalkOnlyFound(cfg, JoinPath(top, c.name), c, path);
    var i :| 0 <= i < |d.children| && d.children[i] == c;
    assert FoundVia(cfg, top, d.children[i], path);
  }


  lemma {:induction false} WalkFindsFound(cfg: Config.SecurityConfig, top: string, d: Node, path: string)
    requires d.Dir? && FoundUnder(cfg, top, d, path)
    ensures path in Walk(cfg, top, d)
    decreases d
  {
    var files := FilesOf(d.children);
    var kept := KeepDirs(DirsOf(d.children));
    var own := AdmittedPaths(cfg, top, files);
    var below := WalkEach(cfg, top, d, kept, 0);
    assert Walk(cfg, top, d) == own + below;
    var i :| 0 <= i < |d.children| && FoundVia(cfg, top, d.children[i], path);
    var c := d.children[i];
    if c.File? {
      FilesOfComplete(d.children, c);
      AdmittedPathsMembers(cfg, top, files, path);
      assert c in files && path == JoinPath(top, c.name) && ValidateFile(cfg, path, c.stat);
      assert path in own;
    } else {
      DirsOfComplete(d.children, c);
      KeepDirsComplete(DirsOf(d.children), c);
      var j :| 0 <= j < |kept| && kept[j] == c;
      WalkFindsFound(cfg, JoinPath(top, c.name), c, path);
      WalkEachFinds(cfg, top, d, kept, 0, path);
      assert path in below;
    }
  }

  lemma {:induction false} WalkEachFinds(cfg: Config.SecurityConfig, top: string, d: Node,
                                         subdirs: seq<Node>, i: nat, path: string)
    requires d.Dir? && i <= |subdirs|
    requires SubdirsOf(d, subdirs)
    ensures path in WalkEach(cfg, top, d, subdirs, i) <==>
      exists j :: i <= j < |subdirs| && path in Walk(cfg, JoinPath(top, subdirs[j].name), subdirs[j])
    decreases |subdirs| - i
  {
    if i < |subdirs| {
      WalkEachFinds(cfg, top, d, subdirs, i + 1, path);
      var here := Walk(cfg, JoinPath(top, subdirs[i].name), subdirs[i]);
      var later := WalkEach(cfg, top, d, subdirs, i + 1);
      assert WalkEach(cfg, top, d, subdirs, i) == here + later;
      if path in here {
        assert i <= i < |subdirs| && path in Walk(cfg, JoinPath(top, subdirs[i].name), subdirs[i]);
      } else if path in later {
        var j :| i + 1 <= j < |subdirs| && path in Walk(cfg, JoinPath(top, subdirs[j].name), subdirs[j]);
        assert i <= j < |subdirs|;
      }
      if exists j :: i <= j < |subdirs| && path in Walk(cfg, JoinPath(top, subdirs[j].name), subdirs[j]) {
        var j :| i <= j < |subdirs| && path in Walk(cfg, JoinPath(top, subdirs[j].name), subdirs[j]);
        if j == i {
          assert path in here;
        } else {
          assert path in later;
        }
      }
    }
  }

  /** A file collected from a directory lies under that directory's path. */
  lemma {:induction false} AdmittedUnderTop(cfg: Config.SecurityConfig, top: string, files: seq<Node>)
    requires forall k :: 0 <= k < |files| ==> files[k].File?
    ensures forall p :: p in AdmittedPaths(cfg, top, files) ==> Text.StartsWith(p, top)
  {
    if files != [] {
      AdmittedUnderTop(cfg, top, files[..|files| - 1]);
      JoinPathJoins(top, files[|files| - 1].name);
    }
  }

  /** Every path the flat scan returns lies under the scanned directory. */
  lemma {:induction false} ListedUnderTop(cfg: Config.SecurityConfig, top: string, entries: seq<Node>)
    ensures forall p :: p in ListedFiles(cfg, top, entries) ==> Text.StartsWith(p, top)
  {
    if entries != [] {
      ListedUnderTop(cfg, top, entries[..|entries| - 1]);
      JoinPathJoins(top, entries[|entries| - 1].name);
    }
  }

  /** Every path the recursive scan returns lies under the directory it
      started from. */
  lemma {:induction false} WalkUnderTop(cfg: Config.SecurityConfig, top: string, d: Node)
    requires d.Dir?
    ensures forall p :: p in Walk(cfg, top, d) ==> Text.StartsWith(p, top)
    decreases d, 1
  {
    AdmittedUnderTop(cfg, top, FilesOf(d.children));
    WalkEachUnderTop(cfg, top, d, KeepDirs(DirsOf(d.children)), 0);
  }

  lemma {:induction false} WalkEachUnderTop(cfg: Config.SecurityConfig, top: string, d: Node, subdirs: seq<Node>, i: nat)
    requires d.Dir? && i <= |subdirs|
    requires SubdirsOf(d, subdirs)
    ensures forall p :: p in WalkEach(cfg, top, d, subdirs, i) ==> Text.StartsWith(p, top)
    decreases d, 0, |subdirs| - i
  {
    if i < |subdirs| {
      var sub := JoinPath(top, subdirs[i].name);
      ChildSmaller(d, subdirs[i]);
      WalkUnderTop(cfg, sub, subdirs[i]);
      JoinPathJoins(top, subdirs[i].name);
      WalkEachUnderTop(cfg, top, d, subdirs, i + 1);
      forall p | p in Walk(cfg, sub, subdirs[i])
        ensures Text.StartsWith(p, top)
      {
        assert p[..|top|] == sub[..|top|];
      }
    }
  }

  // ---------------------------------------------------------------------
  // Chunking
  // ---------------------------------------------------------------------

  /** The character range `[lo, hi)` one iteration of the chunking loop
      slices (Python clamps `hi` to the length). */
  datatype Window = Window(lo: int, hi: int)

  /** The end of the window that starts at `start`: `start + chunkSize`,
      moved back to just after the last newline strictly inside the window
      when the window stops short of the end of the content. */
  function WindowEnd(content: string, start: nat, chunkSize: int): (end: int)
    requires chunkSize >= 1 && start < |content|
    ensures start < end <= start + chunkSize
  {
    var candidate := start + chunkSize;
    if candidate < |content| then
      var lastNewline := Text.RFind(content, '\n', start, candidate);
      if lastNewline > start then lastNewline + 1 else candidate
    else candidate
  }

  /** Where a window breaks: just after its last newline strictly inside it
      when it stops short of the end of the content and holds one, else at
      the full `chunkSize`. */
  lemma WindowEndBreaks(content: string, start: nat, chunkSize: int)
    requires chunkSize >= 1 && start < |content|
    ensures var end := WindowEnd(content, start, chunkSize);
      && (start + chunkSize < |content| &&
          (exists p :: start < p < start + chunkSize && content[p] == '\n') ==>
            start + 1 < end && content[end - 1] == '\n' &&
            forall p :: end <= p < start + chunkSize ==> content[p] != '\n')
      && (start + chunkSize >= |content| ||
          (forall p :: start < p < start + chunkSize ==> content[p] != '\n') ==>
            end == start + chunkSize)
  {
  }

  /** The window-end computation of one iteration of `chunk_content`. */
  method BreakPoint(content: string, start: nat, chunkSize: int) returns (end: int)
    requires chunkSize >= 1 && start < |content|
    ensures end == WindowEnd(content, start, chunkSize)
  {
    end := start + chunkSize;
    if end < |content| {
      var lastNewline := Text.RFind(content, '\n', start, end);
      if lastNewline > start {
        end := lastNewline + 1;
      }
    }
  }

  predicate WellFormed(content: string, w: Window) {
    0 <= w.lo < |content| && w.lo < w.hi
  }

  /** `content[start:end].strip()` for a window (empty for a window that
      does not start inside the content, which no run produces). */
  function Piece(content: string, w: Window): string {
    if WellFormed(content, w) then Text.Strip(content[w.lo..Text.Min(w.hi, |content|)]) else []
  }

  /** The chunks a run of windows emits: every non-empty stripped piece, in
      order. */
  function ChunksOf(content: string, ws: seq<Window>): seq<string>
  {
    if ws == [] then [] else Emitted(content, ws[0]) + ChunksOf(content, ws[1..])
  }

  /** What one window appends to the chunk list: its stripped text unless
      that is empty. */
  function Emitted(content: string, w: Window): seq<string>
  {
    var piece := Piece(content, w);
    if piece == [] then [] else [piece]
  }

  lemma TakeOneMore<T>(s: seq<T>, n: nat)
    requires n < |s|
    ensures s[..n + 1] == s[..n] + [s[n]]
  {
  }

  lemma TakeAll<T>(s: seq<T>, n: nat)
    requires n == |s|
    ensures s[..n] == s
  {
  }

  lemma {:induction false} ChunksOfSnoc(content: string, ws: seq<Window>, w: Window)
    ensures ChunksOf(content, ws + [w]) == ChunksOf(content, ws) + Emitted(content, w)
  {
    if ws != [] {
      assert (ws + [w])[1..] == ws[1..] + [w];
      ChunksOfSnoc(content, ws[1..], w);
    }
  }

  /** The loop started at `start` terminates within `fuel` iterations with
      `start` never negative. */
  predicate ReachesEnd(content: string, chunkSize: int, overlap: int, start: int, fuel: nat)
    requires chunkSize >= 1
    decreases fuel
  {
    0 <= start &&
    (start >= |content| ||
     (fuel > 0 && ReachesEnd(content, chunkSize, overlap,
                             WindowEnd(content, start, chunkSize) - overlap, fuel - 1)))
  }

  /** The windows the loop visits from `start`: each next window starts
      `overlap` characters before the previous end. */
  function Windows(content: string, chunkSize: int, overlap: int, start: int, fuel: nat): (ws: seq<Window>)
    requires chunkSize >= 1 && ReachesEnd(content, chunkSize, overlap, start, fuel)
    ensures forall i :: 0 <= i < |ws| ==>
      WellFormed(content, ws[i]) && ws[i].hi <= ws[i].lo + chunkSize
    ensures start < |content| <==> ws != []
    ensures ws != [] ==> ws[0].lo == start
    decreases fuel
  {
    if start >= |content| then []
    else
      var end := WindowEnd(content, start, chunkSize);
      [Window(start, end)] + Windows(content, chunkSize, overlap, end - overlap, fuel - 1)
  }

  /** `chunk_content` as written. The ghost `steps` bounds the number of
      iterations; the precondition says the loop ends within that bound with
      `start` never negative, which the source does not guarantee (see
      `OverlapAtLeastChunkSizeNeverEnds`, `FirstNewlineInsideOverlapNeverEnds`
      and, for a run that recovers from a negative start,
      `StartMinusOneRecovers`). */
  method ChunkContent(content: string, chunkSize: int, overlap: int, ghost steps: nat)
    returns (chunks: seq<string>)
    requires |content| <= chunkSize || (chunkSize >= 1 && ReachesEnd(content, chunkSize, overlap, 0, steps))
    ensures |content| <= chunkSize ==> chunks == [content]
    ensures |content| > chunkSize ==>
      chunks == ChunksOf(content, Windows(content, chunkSize, overlap, 0, steps))
    ensures |content| > chunkSize ==> forall i :: 0 <= i < |chunks| ==> 0 < |chunks[i]| <= chunkSize
  {
    if |content| <= chunkSize {
      return [content];
    }
    ghost var all := Windows(content, chunkSize, overlap, 0, steps);
    chunks := [];
    var start := 0;
    ghost var n := 0;
    while start < |content|
      invariant 0 <= n <= |all|
      invariant n < |all| ==> all[n].lo == start
      invariant n == |all| ==> start >= |content|
      invariant chunks == ChunksOf(content, all[..n])
      decreases |all| - n
    {
      var end := BreakPoint(content, start, chunkSize);
      WindowAt(content, chunkSize, overlap, 0, steps, all, n);
      var chunk := Text.Strip(content[start..Text.Min(end, |content|)]);
      assert chunk == Piece(content, all[n]);
      TakeOneMore(all, n);
      ChunksOfSnoc(content, all[..n], all[n]);
      if chunk != [] {
        chunks := chunks + [chunk];
      }
      start := end - overlap;
      n := n + 1;
      if start >= |content| {
        break;
      }
    }
    TakeAll(all, n);
    ChunksBounded(content, all, chunkSize);
  }



  /** Every emitted chunk is non-empty and at most `chunkSize` long, and
      there are no more chunks than windows. */
  lemma {:induction false} ChunksBounded(content: string, ws: seq<Window>, chunkSize: int)
    requires chunkSize >= 1
    requires forall i :: 0 <= i < |ws| ==> ws[i].hi <= ws[i].lo + chunkSize
    ensures |ChunksOf(content, ws)| <= |ws|
    ensures forall j :: 0 <= j < |ChunksOf(content, ws)| ==> 0 < |ChunksOf(content, ws)[j]| <= chunkSize
  {
    if ws != [] {
      ChunksBounded(content, ws[1..], chunkSize);
      PieceBounded(content, ws[0], chunkSize);
      var head := Emitted(content, ws[0]);
      var tail := ChunksOf(content, ws[1..]);
      assert ChunksOf(content, ws) == head + tail;
      forall j | 0 <= j < |head + tail| ensures 0 < |(head + tail)[j]| <= chunkSize {
        if j >= |head| {
          assert (head + tail)[j] == tail[j - |head|];
        }
      }
    }
  }

  lemma PieceBounded(content: string, w: Window, chunkSize: int)
    requires chunkSize >= 1 && w.hi <= w.lo + chunkSize
    ensures |Piece(content, w)| <= chunkSize
  {
    if WellFormed(content, w) {
      assert |content[w.lo..Text.Min(w.hi, |content|)]| <= chunkSize;
    }
  }


  /** `c` is the stripped text of one of the windows. */
  predicate IsPiece(content: string, ws: seq<Window>, c: string)
  {
    exists i :: 0 <= i < |ws| && c == Piece(content, ws[i])
  }

  /** Every emitted chunk is the stripped text of one window, and every
      window whose stripped text is non-empty emits it. */
  lemma {:induction false} ChunksArePieces(content: string, ws: seq<Window>)
    ensures forall c :: c in ChunksOf(content, ws) ==> IsPiece(content, ws, c)
    ensures forall i :: 0 <= i < |ws| && Piece(content, ws[i]) != [] ==> Piece(content, ws[i]) in ChunksOf(content, ws)
  {
    if ws != [] {
      ChunksArePieces(content, ws[1..]);
      var tail := ChunksOf(content, ws[1..]);
      forall c | c in ChunksOf(content, ws) ensures IsPiece(content, ws, c) {
        if c in tail {
          var i :| 0 <= i < |ws[1..]| && c == Piece(content, ws[1..][i]);
          assert c == Piece(content, ws[i + 1]);
        } else {
          assert c == Piece(content, ws[0]);
        }
      }
      forall i | 0 <= i < |ws| && Piece(content, ws[i]) != []
        ensures Piece(content, ws[i]) in ChunksOf(content, ws)
      {
        if i > 0 {
          assert ws[i] == ws[1..][i - 1];
        }
      }
    }
  }


  /** The windows from `start` follow one another: the first starts at
      `start`, each next one `overlap` characters before the previous end,
      and the last end minus `overlap` is past the content. */
  lemma {:induction false} WindowsChained(content: string, chunkSize: int, overlap: int, start: int, fuel: nat,
                                          ws: seq<Window>)
    requires chunkSize >= 1 && ReachesEnd(content, chunkSize, overlap, start, fuel)
    requires ws == Windows(content, chunkSize, overlap, start, fuel)
    ensures ws != [] ==> ws[|ws| - 1].hi - overlap >= |content|
    ensures forall i :: 0 <= i < |ws| ==> ws[i].hi == WindowEnd(content, ws[i].lo, chunkSize)
    ensures forall i, j :: 0 <= i && j == i + 1 && j < |ws| ==> ws[j].lo == ws[i].hi - overlap
  {
    forall i | 0 <= i < |ws|
      ensures ws[i].hi == WindowEnd(content, ws[i].lo, chunkSize)
      ensures i + 1 < |ws| ==> ws[i + 1].lo == ws[i].hi - overlap
      ensures i + 1 == |ws| ==> ws[i].hi - overlap >= |content|
    {
      WindowAt(content, chunkSize, overlap, start, fuel, ws, i);
    }
  }

  /** Window `i` of a run: it ends where `WindowEnd` puts it, and the next
      window starts `overlap` before that end, or the run stops because that
      point is past the content. */
  lemma {:induction false} WindowAt(content: string, chunkSize: int, overlap: int, start: int, fuel: nat,
                                    ws: seq<Window>, i: nat)
    requires chunkSize >= 1 && ReachesEnd(content, chunkSize, overlap, start, fuel)
    requires ws == Windows(content, chunkSize, overlap, start, fuel)
    requires i < |ws|
    ensures ws[i].hi == WindowEnd(content, ws[i].lo, chunkSize)
    ensures i + 1 < |ws| ==> ws[i + 1].lo == ws[i].hi - overlap
    ensures i + 1 == |ws| ==> ws[i].hi - overlap >= |content|
    decreases fuel
  {
    var end := WindowEnd(content, start, chunkSize);
    var rest := Windows(content, chunkSize, overlap, end - overlap, fuel - 1);
    assert ws == [Window(start, end)] + rest;
    if i == 0 {
      if rest != [] {
        assert ws[1] == rest[0];
      }
    } else {
      WindowAt(content, chunkSize, overlap, end - overlap, fuel - 1, rest, i - 1);
      assert ws[i] == rest[i - 1];
      if i + 1 < |ws| {
        assert ws[i + 1] == rest[i];
      }
    }
  }



  /** Position `k` lies inside one of the windows. */
  predicate Covered(ws: seq<Window>, k: int) {
    exists i :: 0 <= i < |ws| && ws[i].lo <= k < ws[i].hi
  }

  /** With a non-negative overlap the windows leave no gap: every position
      from `start` to the end of the content lies in some window (before
      whitespace is stripped). */
  lemma {:induction false} WindowsCover(content: string, chunkSize: int, overlap: int, start: int, fuel: nat)
    requires chunkSize >= 1 && overlap >= 0 && ReachesEnd(content, chunkSize, overlap, start, fuel)
    ensures forall k :: start <= k < |content| ==> Covered(Windows(content, chunkSize, overlap, start, fuel), k)
    decreases fuel
  {
    if start < |content| {
      var end := WindowEnd(content, start, chunkSize);
      WindowsCover(content, chunkSize, overlap, end - overlap, fuel - 1);
      var rest := Windows(content, chunkSize, overlap, end - overlap, fuel - 1);
      var ws := Windows(content, chunkSize, overlap, start, fuel);
      assert ws == [Window(start, end)] + rest;
      forall k | start <= k < |content| ensures Covered(ws, k) {
        if k < end {
          assert ws[0].lo <= k < ws[0].hi;
        } else {
          assert Covered(rest, k);
          var i :| 0 <= i < |rest| && rest[i].lo <= k < rest[i].hi;
          assert ws[i + 1] == rest[i];
        }
      }
    }
  }

  // The loop as written also runs from negative starts, where Python reads
  // a negative `rfind` bound from the end of the string. `ReachesEnd` follows
  // only the runs whose start stays non-negative; `Ends` follows every run.

  /** The value `start` takes after one iteration of `chunk_content`, from
      any `start` below the length, negative ones included. */
  function NextStart(content: string, chunkSize: int, overlap: int, start: int): int
    requires start < |content|
  {
    var candidate := start + chunkSize;
    var end :=
      if candidate < |content| then
        var lastNewline := Text.RFindSlice(content, '\n', start, candidate);
        if lastNewline > start then lastNewline + 1 else candidate
      else candidate;
    end - overlap
  }

  /** The loop as written, started at `start`, stops within `fuel` iterations. */
  predicate Ends(content: string, chunkSize: int, overlap: int, start: int, fuel: nat)
    decreases fuel
  {
    start >= |content| ||
    (fuel > 0 && Ends(content, chunkSize, overlap, NextStart(content, chunkSize, overlap, start), fuel - 1))
  }

  /** From a non-negative start the loop takes the step `Windows` takes. */
  lemma NextStartAgrees(content: string, chunkSize: int, overlap: int, start: nat)
    requires chunkSize >= 1 && start < |content|
    ensures NextStart(content, chunkSize, overlap, start) == WindowEnd(content, start, chunkSize) - overlap
  {
  }

  /** The runs `ChunkContent` is specified for are runs of the loop as written. */
  lemma {:induction false} ReachesEndEnds(content: string, chunkSize: int, overlap: int, start: int, fuel: nat)
    requires chunkSize >= 1
    ensures ReachesEnd(content, chunkSize, overlap, start, fuel) ==> Ends(content, chunkSize, overlap, start, fuel)
    decreases fuel
  {
    if 0 <= start < |content| && fuel > 0 {
      NextStartAgrees(content, chunkSize, overlap, start);
      ReachesEndEnds(content, chunkSize, overlap, WindowEnd(content, start, chunkSize) - overlap, fuel - 1);
    }
  }

  /** From a start between `-chunkSize` and -1, on content longer than
      `chunkSize`, `rfind` searches an empty range: a start of -2 or less
      gives `end == 0`, and a start of exactly -1 gives `end == chunkSize - 1`. */
  lemma NegativeStartStep(content: string, chunkSize: int, overlap: int, start: int)
    requires 1 <= chunkSize < |content| && -chunkSize <= start < 0
    ensures NextStart(content, chunkSize, overlap, start) ==
      (if start <= -2 then -overlap else chunkSize - 1 - overlap)
  {
    assert Text.SliceIndex(start, |content|) == start + |content|;
    assert Text.SliceIndex(start + chunkSize, |content|) == start + chunkSize;
  }

  /** A window never ends past both `start + chunkSize` and the length. */
  lemma EndBound(content: string, chunkSize: int, overlap: int, start: int)
    requires start < |content|
    ensures NextStart(content, chunkSize, overlap, start) + overlap <=
      (if start + chunkSize > |content| then start + chunkSize else |content|)
  {
  }

  /** With `overlap >= chunkSize`, no window moves the next start to the
      length or beyond: the loop never ends. */
  lemma {:induction false} NeverReachesLength(content: string, chunkSize: int, overlap: int, start: int, fuel: nat)
    requires 1 <= chunkSize <= overlap && start < |content|
    ensures !Ends(content, chunkSize, overlap, start, fuel)
    decreases fuel
  {
    if fuel > 0 {
      EndBound(content, chunkSize, overlap, start);
      NeverReachesLength(content, chunkSize, overlap, NextStart(content, chunkSize, overlap, start), fuel - 1);
    }
  }

  /** With `2 <= overlap <= chunkSize`, a start between `-chunkSize` and -2
      is followed by `-overlap` for ever: the loop never ends. */
  lemma {:induction false} StuckBelowMinusOne(content: string, chunkSize: int, overlap: int, start: int, fuel: nat)
    requires 1 <= chunkSize < |content| && 2 <= overlap <= chunkSize && -chunkSize <= start <= -2
    ensures !Ends(content, chunkSize, overlap, start, fuel)
    decreases fuel
  {
    if fuel > 0 {
      NegativeStartStep(content, chunkSize, overlap, start);
      StuckBelowMinusOne(content, chunkSize, overlap, -overlap, fuel - 1);
    }
  }

  /** A step that lands back on its own start repeats forever. */
  lemma {:induction false} RepeatedStartNeverEnds(content: string, chunkSize: int, overlap: int, start: int, fuel: nat)
    requires start < |content|
    requires NextStart(content, chunkSize, overlap, start) == start
    ensures !Ends(content, chunkSize, overlap, start, fuel)
    decreases fuel
  {
    if fuel > 0 {
      RepeatedStartNeverEnds(content, chunkSize, overlap, start, fuel - 1);
    }
  }

  /** A first window whose next start is at or below 0 leaves no run with
      `start` non-negative. The loop as written then never ends, unless the
      next start is exactly -1: there `rfind` misses, the window ends at
      `chunkSize - 1` and the run carries on (`StartMinusOneRecovers`). */
  lemma FirstStepBackNeverEnds(content: string, chunkSize: int, overlap: int, fuel: nat)
    requires chunkSize >= 1 && 0 < |content|
    requires WindowEnd(content, 0, chunkSize) - overlap <= 0
    ensures !ReachesEnd(content, chunkSize, overlap, 0, fuel)
    ensures chunkSize < |content| && WindowEnd(content, 0, chunkSize) - overlap != -1 ==>
      !Ends(content, chunkSize, overlap, 0, fuel)
  {
    var next := WindowEnd(content, 0, chunkSize) - overlap;
    NextStartAgrees(content, chunkSize, overlap, 0);
    if next == 0 {
      RepeatedStartNeverEnds(content, chunkSize, overlap, 0, fuel);
      ReachesEndEnds(content, chunkSize, overlap, 0, fuel);
    } else if chunkSize < |content| && next <= -2 {
      if overlap >= chunkSize {
        NeverReachesLength(content, chunkSize, overlap, 0, fuel);
      } else if fuel > 0 {
        StuckBelowMinusOne(content, chunkSize, overlap, next, fuel - 1);
      }
    }
  }

  /** `overlap >= chunk_size` on content longer than one chunk: no run ends. */
  lemma OverlapAtLeastChunkSizeNeverEnds(content: string, chunkSize: int, overlap: int, fuel: nat)
    requires 1 <= chunkSize < |content| && overlap >= chunkSize
    ensures !Ends(content, chunkSize, overlap, 0, fuel)
    ensures !ReachesEnd(content, chunkSize, overlap, 0, fuel)
  {
    NeverReachesLength(content, chunkSize, overlap, 0, fuel);
    ReachesEndEnds(content, chunkSize, overlap, 0, fuel);
  }

  /** When the last newline of a window lies fewer than `overlap` characters
      after its start, the next start does not advance. */
  lemma NewlineInsideOverlapDoesNotAdvance(content: string, chunkSize: int, overlap: int, start: nat, q: int)
    requires chunkSize >= 1 && start + chunkSize < |content|
    requires start < q < start + chunkSize && content[q] == '\n'
    requires forall p :: q < p < start + chunkSize ==> content[p] != '\n'
    requires q < start + overlap
    ensures WindowEnd(content, start, chunkSize) == q + 1
    ensures WindowEnd(content, start, chunkSize) - overlap <= start
  {
  }

  /** In particular a newline within `overlap` characters of the beginning,
      with no later newline in the first window, means the loop never ends,
      except when `overlap == q + 2 < chunkSize`, which makes the next start
      exactly -1. */
  lemma FirstNewlineInsideOverlapNeverEnds(content: string, chunkSize: int, overlap: int, q: int, fuel: nat)
    requires 1 <= chunkSize < |content|
    requires 0 < q < chunkSize && content[q] == '\n'
    requires forall p :: q < p < chunkSize ==> content[p] != '\n'
    requires q < overlap && (overlap != q + 2 || overlap >= chunkSize)
    ensures !Ends(content, chunkSize, overlap, 0, fuel)
    ensures !ReachesEnd(content, chunkSize, overlap, 0, fuel)
  {
    NewlineInsideOverlapDoesNotAdvance(content, chunkSize, overlap, 0, q);
    FirstStepBackNeverEnds(content, chunkSize, overlap, fuel);
    if overlap >= chunkSize {
      NeverReachesLength(content, chunkSize, overlap, 0, fuel);
    }
  }

  /** The defaults (1000/200) stall on 50 characters, a newline, then 1000
      characters without one: the second window would start at -149. */
  function StallingContent(): (s: string)
    ensures |s| == 1051 && s[50] == '\n'
    ensures forall p :: 0 <= p < |s| && p != 50 ==> s[p] != '\n'
  {
    seq(50, _ => 'a') + "\n" + seq(1000, _ => 'a')
  }

  /** The starts are 0, -149, then -200 for ever: from -149 `rfind` misses,
      so the window ends at 0. */
  lemma DefaultsStallOnEarlyNewline(fuel: nat)
    ensures WindowEnd(StallingContent(), 0, 1000) - 200 == -149
    ensures NextStart(StallingContent(), 1000, 200, -149) == -200
    ensures NextStart(StallingContent(), 1000, 200, -200) == -200
    ensures !Ends(StallingContent(), 1000, 200, 0, fuel)
  {
    var s := StallingContent();
    NewlineInsideOverlapDoesNotAdvance(s, 1000, 200, 0, 50);
    NegativeStartStep(s, 1000, 200, -149);
    NegativeStartStep(s, 1000, 200, -200);
    FirstNewlineInsideOverlapNeverEnds(s, 1000, 200, 50, fuel);
  }

  /** "a", a newline, then 13 `b`. */
  function RecoveringContent(): (s: string)
    ensures |s| == 15 && s[1] == '\n'
    ensures forall p :: 0 <= p < |s| && p != 1 ==> s[p] != '\n'
  {
    "a\n" + seq(13, _ => 'b')
  }

  /** With chunk size 10 and overlap 3 the starts are 0, -1, 6, 13 and 20:
      the loop ends although no run keeps `start` non-negative. */
  lemma StartMinusOneRecovers(fuel: nat)
    ensures !ReachesEnd(RecoveringContent(), 10, 3, 0, fuel)
    ensures Ends(RecoveringContent(), 10, 3, 0, 4)
  {
    var s := RecoveringContent();
    NewlineInsideOverlapDoesNotAdvance(s, 10, 3, 0, 1);
    FirstStepBackNeverEnds(s, 10, 3, fuel);
    NextStartAgrees(s, 10, 3, 0);
    NegativeStartStep(s, 10, 3, -1);
    assert NextStart(s, 10, 3, 6) == 13;
    assert NextStart(s, 10, 3, 13) == 20;
  }

  /** Every step advancing is enough for the loop to end, in at most one
      iteration per remaining character. */
  lemma {:induction false} SteadyProgressEnds(content: string, chunkSize: int, overlap: int, start: int)
    requires chunkSize >= 1 && 0 <= start
    requires forall s :: 0 <= s < |content| ==> WindowEnd(content, s, chunkSize) - overlap > s
    ensures ReachesEnd(content, chunkSize, overlap, start, if start < |content| then |content| - start else 0)
    decreases |content| - start
  {
    if start < |content| {
      var next := WindowEnd(content, start, chunkSize) - overlap;
      SteadyProgressEnds(content, chunkSize, overlap, next);
      ReachesEndMonotone(content, chunkSize, overlap, next,
                         if next < |content| then |content| - next else 0, |content| - start - 1);
    }
  }

  /** More fuel never hurts. */
  lemma {:induction false} ReachesEndMonotone(content: string, chunkSize: int, overlap: int, start: int,
                                              fuel: nat, more: nat)
    requires chunkSize >= 1 && fuel <= more
    requires ReachesEnd(content, chunkSize, overlap, start, fuel)
    ensures ReachesEnd(content, chunkSize, overlap, start, more)
    decreases fuel
  {
    if start < |content| {
      ReachesEndMonotone(content, chunkSize, overlap,
                         WindowEnd(content, start, chunkSize) - overlap, fuel - 1, more - 1);
    }
  }

  /** Without overlap the loop always ends. */
  lemma NoOverlapEnds(content: string, chunkSize: int)
    requires chunkSize >= 1
    ensures ReachesEnd(content, chunkSize, 0, 0, |content|)
  {
    SteadyProgressEnds(content, chunkSize, 0, 0);
  }

  /** Content without newlines ends whenever `overlap < chunk_size`. */
  lemma NewlineFreeEnds(content: string, chunkSize: int, overlap: int)
    requires 0 <= overlap < chunkSize && '\n' !in content
    ensures ReachesEnd(content, chunkSize, overlap, 0, |content|)
  {
    forall s | 0 <= s < |content|
      ensures WindowEnd(content, s, chunkSize) - overlap > s
    {
      assert forall p :: s < p < s + chunkSize && p < |content| ==> content[p] != '\n';
    }
    SteadyProgressEnds(content, chunkSize, overlap, 0);
  }

  // ---------------------------------------------------------------------
  // Chunking with guaranteed progress
  // ---------------------------------------------------------------------

  /** The next start with the stall removed: `end - overlap` when that moves
      forward, else `end` (no overlap for this one window). */
  function AdvancedStart(start: int, end: int, overlap: int): (next: int)
    requires start < end
    ensures start < next <= end || (overlap < 0 && next == end - overlap)
    ensures end - overlap > start ==> next == end - overlap
  {
    if end - overlap > start then end - overlap else end
  }

  function FixedWindows(content: string, chunkSize: int, overlap: int, start: nat): (ws: seq<Window>)
    requires chunkSize >= 1
    ensures forall i :: 0 <= i < |ws| ==>
      WellFormed(content, ws[i]) && ws[i].hi <= ws[i].lo + chunkSize
    ensures start < |content| <==> ws != []
    ensures ws != [] ==> ws[0].lo == start
    decreases |content| - start
  {
    if start >= |content| then []
    else
      var end := WindowEnd(content, start, chunkSize);
      [Window(start, end)] + FixedWindows(content, chunkSize, overlap, AdvancedStart(start, end, overlap))
  }
  /** Window `i` of a corrected run: it ends where `WindowEnd` puts it, and
      the next window starts at `AdvancedStart`, or the run stops because
      that point is past the content. */
  lemma {:induction false} FixedWindowAt(content: string, chunkSize: int, overlap: int, start: nat,
                                         ws: seq<Window>, i: nat)
    requires chunkSize >= 1 && ws == FixedWindows(content, chunkSize, overlap, start)
    requires i < |ws|
    ensures ws[i].hi == WindowEnd(content, ws[i].lo, chunkSize)
    ensures i + 1 < |ws| ==> ws[i + 1].lo == AdvancedStart(ws[i].lo, ws[i].hi, overlap)
    ensures i + 1 == |ws| ==> AdvancedStart(ws[i].lo, ws[i].hi, overlap) >= |content|
    decreases |content| - start
  {
    var end := WindowEnd(content, start, chunkSize);
    var next := AdvancedStart(start, end, overlap);
    var rest := FixedWindows(content, chunkSize, overlap, next);
    assert ws == [Window(start, end)] + rest;
    if i == 0 {
      if rest != [] {
        assert ws[1] == rest[0];
      }
    } else {
      FixedWindowAt(content, chunkSize, overlap, next, rest, i - 1);
      assert ws[i] == rest[i - 1];
      if i + 1 < |ws| {
        assert ws[i + 1] == rest[i];
      }
    }
  }



  /** `chunk_content` with the progress guard: ends on every input with
      `chunk_size >= 1`. */
  method ChunkContentFixed(content: string, chunkSize: int, overlap: int) returns (chunks: seq<string>)
    requires |content| <= chunkSize || chunkSize >= 1
    ensures |content| <= chunkSize ==> chunks == [content]
    ensures |content| > chunkSize ==>
      chunks == ChunksOf(content, FixedWindows(content, chunkSize, overlap, 0))
    ensures |content| > chunkSize ==> forall i :: 0 <= i < |chunks| ==> 0 < |chunks[i]| <= chunkSize
  {
    if |content| <= chunkSize {
      return [content];
    }
    ghost var all := FixedWindows(content, chunkSize, overlap, 0);
    chunks := [];
    var start := 0;
    ghost var n := 0;
    while start < |content|
      invariant 0 <= n <= |all|
      invariant n < |all| ==> all[n].lo == start
      invariant n == |all| ==> start >= |content|
      invariant chunks == ChunksOf(content, all[..n])
      decreases |all| - n
    {
      var end := BreakPoint(content, start, chunkSize);
      FixedWindowAt(content, chunkSize, overlap, 0, all, n);
      var chunk := Text.Strip(content[start..Text.Min(end, |content|)]);
      assert chunk == Piece(content, all[n]);
      TakeOneMore(all, n);
      ChunksOfSnoc(content, all[..n], all[n]);
      if chunk != [] {
        chunks := chunks + [chunk];
      }
      ghost var next := AdvancedStart(start, end, overlap);
      assert n + 1 < |all| ==> all[n + 1].lo == next;
      assert n + 1 == |all| ==> next >= |content|;
      start := if end - overlap > start then end - overlap else end;
      assert start == next;
      n := n + 1;
    }
    TakeAll(all, n);
    ChunksBounded(content, all, chunkSize);
  }

  /** With a non-negative overlap the corrected windows leave no gap. */
  lemma {:induction false} FixedWindowsCover(content: string, chunkSize: int, overlap: int, start: nat)
    requires chunkSize >= 1 && overlap >= 0
    ensures forall k :: start <= k < |content| ==> Covered(FixedWindows(content, chunkSize, overlap, start), k)
    decreases |content| - start
  {
    if start < |content| {
      var end := WindowEnd(content, start, chunkSize);
      var next := AdvancedStart(start, end, overlap);
      FixedWindowsCover(content, chunkSize, overlap, next);
      var rest := FixedWindows(content, chunkSize, overlap, next);
      var ws := FixedWindows(content, chunkSize, overlap, start);
      assert ws == [Window(start, end)] + rest;
      forall k | start <= k < |content| ensures Covered(ws, k) {
        if k < end {
          assert ws[0].lo <= k < ws[0].hi;
        } else {
          assert Covered(rest, k);
          var i :| 0 <= i < |rest| && rest[i].lo <= k < rest[i].hi;
          assert ws[i + 1] == rest[i];
        }
      }
    }
  }

  /** Where every step of the original already advances, the correction
      visits the same windows. */
  lemma {:induction false} FixedAgreesWhenProgressing(content: string, chunkSize: int, overlap: int,
                                                      start: nat, fuel: nat)
    requires chunkSize >= 1 && ReachesEnd(content, chunkSize, overlap, start, fuel)
    requires forall s :: 0 <= s < |content| ==> WindowEnd(content, s, chunkSize) - overlap > s
    ensures FixedWindows(content, chunkSize, overlap, start) == Windows(content, chunkSize, overlap, start, fuel)
    decreases fuel
  {
    if start < |content| {
      var end := WindowEnd(content, start, chunkSize);
      assert AdvancedStart(start, end, overlap) == end - overlap;
      assert fuel > 0 && ReachesEnd(content, chunkSize, overlap, end - overlap, fuel - 1);
      FixedAgreesWhenProgressing(content, chunkSize, overlap, end - overlap, fuel - 1);
    }
  }
}
